/** The encoder of internal/amqp/server.go: performatives as byte strings. */
module AmqpEncoder {

  import opened ByteStrings

  /** A field of a performative: the dynamic types that the encoder and the parser exchange. */
  datatype Value =
    | Null
    | Bool(flag: bool)
    | Ushort(half: uint16)
    | Uint(n: uint32)
    | Ulong(wide: uint64)
    | Text(s: Bytes)
    | Binary(data: Bytes)
    | Dict(m: map<Bytes, Bytes>)

  /** Variable-width text or binary: a one-byte length when it fits, else four bytes. */
  function EncodedVar(tag8: byte, tag32: byte, s: Bytes): Bytes {
    if |s| < 0x100 then [tag8, |s|] + s
    else [tag32] + U32(|s|) + s
  }

  function EncodedText(s: Bytes): Bytes {
    EncodedVar(0xa1, 0xb1, s)
  }

  function EncodedBinary(s: Bytes): Bytes {
    EncodedVar(0xa0, 0xb0, s)
  }

  /** `order` lists every key of `m` exactly once: one possible iteration order of a Go map. */
  ghost predicate IsOrder(m: map<Bytes, Bytes>, order: seq<Bytes>) {
    && (forall k :: k in order <==> k in m)
    && (forall i, j :: 0 <= i < j < |order| ==> order[i] != order[j])
  }

  ghost predicate Ranges(v: Value, order: seq<Bytes>) {
    v.Dict? ==> IsOrder(v.m, order)
  }

  ghost function EncodedEntries(m: map<Bytes, Bytes>, order: seq<Bytes>): Bytes
    requires forall k :: k in order ==> k in m
  {
    if order == [] then []
    else EncodedText(order[0]) + EncodedText(m[order[0]]) + EncodedEntries(m, order[1..])
  }

  /** The bytes of one value, given the order in which a map is ranged over. */
  ghost function EncodedValue(v: Value, order: seq<Bytes>): Bytes
    requires Ranges(v, order)
  {
    match v
    case Null => [0x40]
    case Bool(flag) => if flag then [0x41] else [0x42]
    case Ushort(n) => [0x60, n / 0x100, n % 0x100]
    case Uint(n) => [0x70] + U32(n)
    case Ulong(_) => [0x40]  // not a case of the type switch: falls to its default
    case Text(s) => EncodedText(s)
    case Binary(d) => EncodedBinary(d)
    case Dict(m) => EncodedDict(EncodedEntries(m, order), 2 * |m|)
  }

  function EncodedDict(items: Bytes, count: nat): Bytes {
    if |items| + 1 < 0x100 then [0xc1, |items| + 1, count % 0x100] + items
    else [0xd1] + U32(|items| + 4) + U32(count) + items
  }

  /** `b` is an encoding of `v`, under some iteration order. */
  ghost predicate Encodes(v: Value, b: Bytes) {
    exists order :: Ranges(v, order) && b == EncodedValue(v, order)
  }

  ghost predicate EncodesAll(fields: seq<Value>, chunks: seq<Bytes>) {
    && |chunks| == |fields|
    && forall i :: 0 <= i < |fields| ==> Encodes(fields[i], chunks[i])
  }

  ghost function Flatten(chunks: seq<Bytes>): Bytes {
    if chunks == [] then [] else chunks[0] + Flatten(chunks[1..])
  }

  function WrapList(inner: Bytes, count: nat): Bytes {
    if count == 0 then [0x45]
    else if |inner| + 1 < 0x100 && count < 0x100 then [0xc0, |inner| + 1, count] + inner
    else [0xd0] + U32(|inner| + 4) + U32(count) + inner
  }

  function Performative(code: byte, inner: Bytes, count: nat): Bytes {
    [0x00, 0x53, code] + WrapList(inner, count)
  }

  /** `b` is what encodeDescribedList may return for `code` and `fields`. */
  ghost predicate IsPerformative(code: byte, fields: seq<Value>, b: Bytes) {
    exists chunks :: EncodesAll(fields, chunks) && b == Performative(code, Flatten(chunks), |fields|)
  }

  // ---------------------------------------------------------------------
  // The loops of encodeValue and encodeList, against the definitions above
  // ---------------------------------------------------------------------

  lemma {:induction false} EntriesAppend(m: map<Bytes, Bytes>, order: seq<Bytes>, k: Bytes)
    requires k in m && forall x :: x in order ==> x in m
    ensures EncodedEntries(m, order + [k])
         == EncodedEntries(m, order) + EncodedText(k) + EncodedText(m[k])
  {
    if order == [] {
      assert [k][1..] == [];
    } else {
      EntriesAppend(m, order[1..], k);
      assert (order + [k])[1..] == order[1..] + [k];
    }
  }

  lemma {:induction false} FlattenAppend(chunks: seq<Bytes>, b: Bytes)
    ensures Flatten(chunks + [b]) == Flatten(chunks) + b
  {
    if chunks == [] {
      assert [b][1..] == [];
    } else {
      FlattenAppend(chunks[1..], b);
      assert (chunks + [b])[1..] == chunks[1..] + [b];
    }
  }

  method EncodeValue(v: Value) returns (out: Bytes)
    ensures Encodes(v, out)
  {
    ghost var order: seq<Bytes> := [];
    match v {
    case Null => out := [0x40];
    case Bool(flag) => out := if flag then [0x41] else [0x42];
    case Ushort(n) => out := [0x60, n / 0x100, n % 0x100];
    case Uint(n) => out := [0x70] + U32(n);
    case Ulong(_) => out := [0x40];
    case Text(s) => out := EncodedText(s);
    case Binary(d) => out := EncodedBinary(d);
    case Dict(m) =>
      var items: Bytes := [];
      var left := m.Keys;
      while left != {}
        invariant left <= m.Keys
        invariant forall k :: k in order <==> k in m && k !in left
        invariant forall i, j :: 0 <= i < j < |order| ==> order[i] != order[j]
        invariant items == EncodedEntries(m, order)
      {
        var k :| k in left;
        EntriesAppend(m, order, k);
        items := items + EncodedText(k) + EncodedText(m[k]);
        order := order + [k];
        left := left - {k};
      }
      out := EncodedDict(items, 2 * |m|);
    }
    assert Ranges(v, order) && out == EncodedValue(v, order);
  }

  method EncodePerformative(code: byte, fields: seq<Value>) returns (out: Bytes)
    ensures IsPerformative(code, fields, out)
  {
    var inner: Bytes := [];
    ghost var chunks: seq<Bytes> := [];
    for i := 0 to |fields|
      invariant EncodesAll(fields[..i], chunks)
      invariant inner == Flatten(chunks)
    {
      var b := EncodeValue(fields[i]);
      FlattenAppend(chunks, b);
      inner := inner + b;
      chunks := chunks + [b];
    }
    assert fields[..|fields|] == fields;
    out := Performative(code, inner, |fields|);
  }
}
