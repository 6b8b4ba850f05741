/** The parser inverts the encoder: for every performative, every iteration order of its maps,
    both width forms, and every trailing byte string. */
module AmqpRoundTrip {
  import opened Outcomes
  import opened ByteStrings
  import opened AmqpEncoder
  import opened AmqpParser

  /** What a field comes back as: a uint16 widens, and a type the encoder does not know is nil. */
  function Widened(v: Value): Value {
    match v
    case Ushort(n) => Uint(n)
    case Ulong(_) => Null
    case _ => v
  }

  function WidenedAll(fields: seq<Value>): (r: seq<Value>)
    ensures |r| == |fields| && forall i :: 0 <= i < |r| ==> r[i] == Widened(fields[i])
  {
    seq(|fields|, i requires 0 <= i < |fields| => Widened(fields[i]))
  }

  lemma {:induction false} VarRoundTrip(text: bool, s: Bytes, tail: Bytes)
    requires |s| < TWO32
    ensures var b := if text then EncodedText(s) else EncodedBinary(s);
            ParseValue(b + tail) == Ok(Parsed(if text then Text(s) else Binary(s), |b|))
  {
    if |s| < 0x100 {
      Var8(text, s, tail);
    } else {
      Var32(text, s, tail);
    }
  }

  lemma {:induction false} Var8(text: bool, s: Bytes, tail: Bytes)
    requires |s| < 0x100
    ensures ParseValue([if text then 0xa1 else 0xa0, |s|] + s + tail)
         == Ok(Parsed(if text then Text(s) else Binary(s), 2 + |s|))
  {
    var w := [if text then 0xa1 else 0xa0, |s|] + s + tail;
    assert w[2..2 + |s|] == s;
  }

  lemma {:induction false} Var32(text: bool, s: Bytes, tail: Bytes)
    requires |s| < TWO32
    ensures ParseValue([if text then 0xb1 else 0xb0] + U32(|s|) + s + tail)
         == Ok(Parsed(if text then Text(s) else Binary(s), 5 + |s|))
  {
    var w := [if text then 0xb1 else 0xb0] + U32(|s|) + s + tail;
    assert w[1..5] == U32(|s|);
    assert w[5..5 + |s|] == s;
  }

  // -------------------------------- Maps --------------------------------

  ghost function Added(acc: map<Bytes, Bytes>, m: map<Bytes, Bytes>, order: seq<Bytes>): map<Bytes, Bytes>
    requires forall k :: k in order ==> k in m
    decreases |order|
  {
    if order == [] then acc else Added(acc[order[0] := m[order[0]]], m, order[1..])
  }

  lemma {:induction false} AddedAll(acc: map<Bytes, Bytes>, m: map<Bytes, Bytes>, order: seq<Bytes>)
    requires forall k :: k in order ==> k in m
    ensures forall k :: k in Added(acc, m, order) <==> k in acc || k in order
    ensures forall k :: k in Added(acc, m, order) ==> Added(acc, m, order)[k] == if k in order then m[k] else acc[k]
    decreases |order|
  {
    if order != [] {
      AddedAll(acc[order[0] := m[order[0]]], m, order[1..]);
      assert order == [order[0]] + order[1..];
    }
  }

  /** Entries inserted in any order rebuild the map. */
  lemma {:induction false} OrderRebuilds(m: map<Bytes, Bytes>, order: seq<Bytes>)
    requires IsOrder(m, order)
    ensures Added(map[], m, order) == m
  {
    AddedAll(map[], m, order);
  }

  lemma {:induction false} OrderSize(keys: set<Bytes>, order: seq<Bytes>)
    requires forall k :: k in order <==> k in keys
    requires forall i, j :: 0 <= i < j < |order| ==> order[i] != order[j]
    ensures |order| == |keys|
  {
    if order != [] {
      assert order == [order[0]] + order[1..];
      OrderSize(keys - {order[0]}, order[1..]);
    } else {
      assert keys == {};
    }
  }

  lemma {:induction false} EntriesSize(m: map<Bytes, Bytes>, order: seq<Bytes>)
    requires forall k :: k in order ==> k in m
    ensures |EncodedEntries(m, order)| >= 4 * |order|
  {
    if order != [] {
      EntriesSize(m, order[1..]);
    }
  }

  lemma {:induction false} EntriesRoundTrip(m: map<Bytes, Bytes>, order: seq<Bytes>, acc: map<Bytes, Bytes>)
    requires forall k :: k in order ==> k in m
    requires |EncodedEntries(m, order)| < TWO32
    ensures ParseEntries(EncodedEntries(m, order), |order|, acc) == Ok(Added(acc, m, order))
    decreases |order|
  {
    if order != [] {
      var k, v := order[0], m[order[0]];
      var b, rest := EncodedEntries(m, order), EncodedEntries(m, order[1..]);
      var ek, ev := EncodedText(k), EncodedText(v);
      assert b == ek + (ev + rest);
      VarRoundTrip(true, k, ev + rest);
      assert b[|ek|..] == ev + rest;
      VarRoundTrip(true, v, rest);
      assert b[|ek| + |ev|..] == rest;
      assert ParsePair(b) == Ok(ParsedPair(Text(k), Text(v), |ek| + |ev|));
      EntriesRoundTrip(m, order[1..], acc[k := v]);
    }
  }

  /** The two 32-bit fields of a list32 or map32 header read back, and the content follows. */
  lemma {:induction false} Header32(tag: byte, size: nat, count: nat, content: Bytes, tail: Bytes)
    requires size < TWO32 && count < TWO32
    ensures var w := [tag] + U32(size) + U32(count) + content + tail;
            |w| == 9 + |content| + |tail| && w[0] == tag
            && ReadU32(w[1..5]) == size && ReadU32(w[5..9]) == count && w[9..9 + |content|] == content
  {
    var w := [tag] + U32(size) + U32(count) + content + tail;
    assert w[1..5] == U32(size);
    assert w[5..9] == U32(count);
  }

  lemma {:induction false} MapBody(w: Bytes, hdr: nat, end: nat, pairs: nat, m: map<Bytes, Bytes>)
    requires 3 <= hdr <= end <= |w|
    requires ParseEntries(w[hdr..end], pairs, map[]) == Ok(m)
    ensures ParseMapBody(w, hdr, end, 2 * pairs) == Ok(ParsedMap(m, end))
  {
    assert 2 * pairs / 2 == pairs;
    if pairs == 0 {
      assert m == map[];
    }
  }

  lemma {:induction false} Dict8(items: Bytes, pairs: nat, m: map<Bytes, Bytes>, tail: Bytes)
    requires |items| + 1 < 0x100 && 2 * pairs < 0x100
    requires ParseEntries(items, pairs, map[]) == Ok(m)
    ensures var b := [0xc1, |items| + 1, 2 * pairs] + items;
            ParseMap(b + tail) == Ok(ParsedMap(m, |b|))
  {
    var w := [0xc1, |items| + 1, 2 * pairs] + items + tail;
    assert w[3..3 + |items|] == items;
    MapBody(w, 3, 3 + |items|, pairs, m);
  }

  lemma {:induction false} Dict32(items: Bytes, pairs: nat, m: map<Bytes, Bytes>, tail: Bytes)
    requires |items| + 4 < TWO32 && 2 * pairs < TWO32
    requires ParseEntries(items, pairs, map[]) == Ok(m)
    ensures var b := [0xd1] + U32(|items| + 4) + U32(2 * pairs) + items;
            ParseMap(b + tail) == Ok(ParsedMap(m, |b|))
  {
    var w := [0xd1] + U32(|items| + 4) + U32(2 * pairs) + items + tail;
    Header32(0xd1, |items| + 4, 2 * pairs, items, tail);
    MapBody(w, 9, 9 + |items|, pairs, m);
  }

  lemma {:induction false} EntriesParse(m: map<Bytes, Bytes>, order: seq<Bytes>)
    requires IsOrder(m, order) && |EncodedEntries(m, order)| < TWO32
    ensures |EncodedEntries(m, order)| >= 4 * |m|
    ensures ParseEntries(EncodedEntries(m, order), |m|, map[]) == Ok(m)
  {
    OrderSize(m.Keys, order);
    EntriesSize(m, order);
    EntriesRoundTrip(m, order, map[]);
    OrderRebuilds(m, order);
  }

  lemma {:induction false} DictRoundTrip(items: Bytes, m: map<Bytes, Bytes>, tail: Bytes)
    requires 4 * |m| <= |items| && |items| + 4 < TWO32
    requires ParseEntries(items, |m|, map[]) == Ok(m)
    ensures var b := EncodedDict(items, 2 * |m|);
            ParseValue(b + tail) == Ok(Parsed(Dict(m), |b|))
  {
    var b := EncodedDict(items, 2 * |m|);
    if |items| + 1 < 0x100 {
      Dict8(items, |m|, m, tail);
      assert b[0] == 0xc1;
    } else {
      Dict32(items, |m|, m, tail);
      assert b[0] == 0xd1;
    }
    MapValue(b + tail, ParsedMap(m, |b|));
  }

  lemma {:induction false} MapValue(w: Bytes, p: ParsedMap)
    requires |w| > 0 && (w[0] == 0xc1 || w[0] == 0xd1) && ParseMap(w) == Ok(p)
    ensures ParseValue(w) == Ok(Parsed(Dict(p.entries), p.size))
  {
  }

  // ------------------------------- Values -------------------------------

  lemma {:induction false} ScalarRoundTrip(v: Value, tail: Bytes)
    requires !v.Text? && !v.Binary? && !v.Dict?
    ensures var b := EncodedValue(v, []);
            ParseValue(b + tail) == Ok(Parsed(Widened(v), |b|))
  {
    var b := EncodedValue(v, []);
    if v.Uint? {
      assert (b + tail)[1..5] == U32(v.n);
    }
  }

  lemma {:induction false} ValueRoundTrip(v: Value, b: Bytes, tail: Bytes)
    requires Encodes(v, b) && |b| < TWO32
    ensures ParseValue(b + tail) == Ok(Parsed(Widened(v), |b|))
  {
    var order :| Ranges(v, order) && b == EncodedValue(v, order);
    match v
    case Text(s) => VarRoundTrip(true, s, tail);
    case Binary(d) => VarRoundTrip(false, d, tail);
    case Dict(m) =>
      EntriesParse(m, order);
      DictRoundTrip(EncodedEntries(m, order), m, tail);
    case _ => ScalarRoundTrip(v, tail);
  }

  lemma {:induction false} ItemsRoundTrip(fields: seq<Value>, chunks: seq<Bytes>)
    requires EncodesAll(fields, chunks) && |Flatten(chunks)| < TWO32
    ensures ParseItems(Flatten(chunks), |fields|) == Ok(WidenedAll(fields))
    decreases |fields|
  {
    if fields != [] {
      var b := Flatten(chunks);
      assert b == chunks[0] + Flatten(chunks[1..]);
      assert Encodes(fields[0], chunks[0]);
      ValueRoundTrip(fields[0], chunks[0], Flatten(chunks[1..]));
      ItemsStep(b, |fields|, Parsed(Widened(fields[0]), |chunks[0]|));
      assert b[|chunks[0]|..] == Flatten(chunks[1..]);
      ItemsRoundTrip(fields[1..], chunks[1..]);
      assert WidenedAll(fields) == [Widened(fields[0])] + WidenedAll(fields[1..]);
    }
  }

  // ---------------------------- Performatives ----------------------------

  lemma {:induction false} CountedBody(w: Bytes, hdr: nat, end: nat, fields: seq<Value>)
    requires 3 <= hdr <= end <= |w|
    requires ParseItems(w[hdr..end], |fields|) == Ok(fields)
    ensures ParseCounted(w, hdr, end, |fields|) == Ok(ParsedList(fields, end))
  {
  }

  lemma {:induction false} List8(inner: Bytes, fields: seq<Value>, tail: Bytes)
    requires |inner| + 1 < 0x100 && |fields| < 0x100
    requires ParseItems(inner, |fields|) == Ok(fields)
    ensures var b := [0xc0, |inner| + 1, |fields|] + inner;
            ParseList(b + tail) == Ok(ParsedList(fields, |b|))
  {
    var w := [0xc0, |inner| + 1, |fields|] + inner + tail;
    assert w[3..3 + |inner|] == inner;
    CountedBody(w, 3, 3 + |inner|, fields);
  }

  lemma {:induction false} List32(inner: Bytes, fields: seq<Value>, tail: Bytes)
    requires |inner| + 4 < TWO32 && |fields| < TWO32
    requires ParseItems(inner, |fields|) == Ok(fields)
    ensures var b := [0xd0] + U32(|inner| + 4) + U32(|fields|) + inner;
            ParseList(b + tail) == Ok(ParsedList(fields, |b|))
  {
    var w := [0xd0] + U32(|inner| + 4) + U32(|fields|) + inner + tail;
    Header32(0xd0, |inner| + 4, |fields|, inner, tail);
    CountedBody(w, 9, 9 + |inner|, fields);
  }

  lemma {:induction false} ListRoundTrip(fields: seq<Value>, chunks: seq<Bytes>, tail: Bytes)
    requires EncodesAll(fields, chunks) && |Flatten(chunks)| + 4 < TWO32
    ensures var b := WrapList(Flatten(chunks), |fields|);
            ParseList(b + tail) == Ok(ParsedList(WidenedAll(fields), |b|))
  {
    var inner := Flatten(chunks);
    ItemsRoundTrip(fields, chunks);
    ChunksSize(fields, chunks);
    if fields == [] {
      assert WidenedAll(fields) == [];
    } else if |inner| + 1 < 0x100 && |fields| < 0x100 {
      List8(inner, WidenedAll(fields), tail);
    } else {
      List32(inner, WidenedAll(fields), tail);
    }
  }

  /** Every encoded value takes at least one byte, so the count fits wherever the size does. */
  lemma {:induction false} ChunksSize(fields: seq<Value>, chunks: seq<Bytes>)
    requires EncodesAll(fields, chunks)
    ensures |fields| <= |Flatten(chunks)|
    decreases |fields|
  {
    if fields != [] {
      assert Encodes(fields[0], chunks[0]);
      ChunksSize(fields[1..], chunks[1..]);
    }
  }

  lemma {:induction false} Descriptor(code: byte, l: Bytes, fields: seq<Value>, tail: Bytes)
    requires ParseList(l + tail) == Ok(ParsedList(fields, |l|))
    ensures ParseDescribedList([0x00, 0x53, code] + l + tail) == Ok(Described(code, fields, tail))
  {
    var w := [0x00, 0x53, code] + l + tail;
    assert w[3..] == l + tail;
    assert w[3 + |l|..] == tail;
  }

  /** The codec law. `|b| < TWO32 + 8` says exactly that a 32-bit list's size field does not wrap. */
  lemma {:induction false} CodecRoundTrip(code: byte, fields: seq<Value>, b: Bytes, tail: Bytes)
    requires IsPerformative(code, fields, b) && |b| < TWO32 + 8
    ensures ParseDescribedList(b + tail) == Ok(Described(code, WidenedAll(fields), tail))
  {
    var chunks :| EncodesAll(fields, chunks) && b == Performative(code, Flatten(chunks), |fields|);
    ListRoundTrip(fields, chunks, tail);
    Descriptor(code, WrapList(Flatten(chunks), |fields|), WidenedAll(fields), tail);
  }

  /** So two streams that begin alike carry the same performative: encodings are prefix-free
      and determine code and (widened) fields. */
  lemma {:induction false} CodecInjective(c1: byte, f1: seq<Value>, b1: Bytes, t1: Bytes, c2: byte, f2: seq<Value>,
      b2: Bytes, t2: Bytes)
    requires IsPerformative(c1, f1, b1) && |b1| < TWO32 + 8
    requires IsPerformative(c2, f2, b2) && |b2| < TWO32 + 8
    requires b1 + t1 == b2 + t2
    ensures c1 == c2 && WidenedAll(f1) == WidenedAll(f2) && t1 == t2
  {
    CodecRoundTrip(c1, f1, b1, t1);
    CodecRoundTrip(c2, f2, b2, t2);
  }
}
