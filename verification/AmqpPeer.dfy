/** What a peer may send: a grammar of the wire forms that the server accepts (section 1.6 of OASIS
    AMQP 1.0 Part 1), with what each of them says. The encoder emits only a few of these forms; the
    parser reads them all. */
module AmqpPeer {
  import opened Outcomes
  import opened ByteStrings
  import opened AmqpEncoder
  import opened AmqpParser
  import opened AmqpRoundTrip
  import opened AmqpFraming

  /** One value on the wire. A `wide` form has four-byte lengths, a narrow one one-byte lengths. */
  datatype Wire =
    | WNull
    | WTrue
    | WFalse
    | WUintZero
    | WUlongZero
    | WUbyte(n: byte)
    | WSmallUint(n: byte)
    | WUshort(half: uint16)
    | WUint(full: uint32)
    | WBinary(wide: bool, data: Bytes)
    | WString(wide: bool, text: Bytes)
    | WMap(wide: bool, entries: Entries)
    | WDescribed(longDescriptor: bool, descriptor: uint64, body: Body)
    | WUnknown(tag: byte)

  datatype Entries = NoEntries | Entry(key: Wire, value: Wire, others: Entries)

  datatype Items = NoItems | Item(first: Wire, others: Items)

  /** The list of a described value: empty, counted with the last `missing` items left off, or one
      bare value. */
  datatype Body = Empty | Counted(wide: bool, items: Items, missing: nat) | Bare(item: Wire)

  // ------------------------------- The bytes -------------------------------

  function U64(n: uint64): Bytes {
    var high: int, low: int := n as int / TWO32, n as int % TWO32;
    U32(high) + U32(low)
  }

  function VarBytes(tag8: byte, tag32: byte, wide: bool, s: Bytes): Bytes {
    if wide then [tag32] + U32(|s|) + s else [tag8, |s| % 0x100] + s
  }

  function Compound(tag8: byte, tag32: byte, wide: bool, inner: Bytes, count: nat): Bytes {
    if wide then [tag32] + U32(|inner| + 4) + U32(count) + inner
    else [tag8, (|inner| + 1) % 0x100, count % 0x100] + inner
  }

  function DescriptorBytes(longDescriptor: bool, d: uint64): Bytes {
    if longDescriptor then [0x00, 0x80] + U64(d) else [0x00, 0x53, d as int % 0x100]
  }

  function WireBytes(w: Wire): Bytes {
    match w
    case WNull => [0x40]
    case WTrue => [0x41]
    case WFalse => [0x42]
    case WUintZero => [0x43]
    case WUlongZero => [0x44]
    case WUbyte(n) => [0x50, n]
    case WSmallUint(n) => [0x52, n]
    case WUshort(n) => [0x60, n / 0x100, n % 0x100]
    case WUint(n) => [0x70] + U32(n)
    case WBinary(wide, data) => VarBytes(0xa0, 0xb0, wide, data)
    case WString(wide, text) => VarBytes(0xa1, 0xb1, wide, text)
    case WMap(wide, entries) => Compound(0xc1, 0xd1, wide, EntryBytes(entries), 2 * EntryCount(entries))
    case WDescribed(long, d, body) => DescriptorBytes(long, d) + BodyBytes(body)
    case WUnknown(c) => [c]
  }

  function EntryBytes(es: Entries): Bytes {
    match es
    case NoEntries => []
    case Entry(k, v, others) => WireBytes(k) + (WireBytes(v) + EntryBytes(others))
  }

  function ItemBytes(items: Items): Bytes {
    match items
    case NoItems => []
    case Item(w, others) => WireBytes(w) + ItemBytes(others)
  }

  function BodyBytes(body: Body): Bytes {
    match body
    case Empty => [0x45]
    case Counted(wide, items, missing) => Compound(0xc0, 0xd0, wide, ItemBytes(items), ItemCount(items) + missing)
    case Bare(w) => WireBytes(w)
  }

  function EntryCount(es: Entries): nat {
    if es.NoEntries? then 0 else 1 + EntryCount(es.others)
  }

  function ItemCount(items: Items): nat {
    if items.NoItems? then 0 else 1 + ItemCount(items.others)
  }

  // ---------------------- Lengths that fit their fields ----------------------

  predicate VarFits(wide: bool, s: Bytes) {
    |s| < if wide then TWO32 else 0x100
  }

  predicate CompoundFits(wide: bool, inner: Bytes, count: nat) {
    if wide then |inner| + 4 < TWO32 && count < TWO32 else |inner| + 1 < 0x100 && count < 0x100
  }

  /** The constructors that the server knows, and those of lists. */
  predicate Known(c: byte) {
    || c == 0x00 || 0x40 <= c <= 0x45 || c == 0x50 || c == 0x52 || c == 0x60 || c == 0x70
    || c == 0xa0 || c == 0xa1 || c == 0xb0 || c == 0xb1 || c == 0xc0 || c == 0xc1 || c == 0xd0 || c == 0xd1
  }

  predicate WireFits(w: Wire) {
    match w
    case WBinary(wide, data) => VarFits(wide, data)
    case WString(wide, text) => VarFits(wide, text)
    case WMap(wide, entries) => EntriesFit(entries) && CompoundFits(wide, EntryBytes(entries), 2 * EntryCount(entries))
    case WDescribed(long, d, body) => (long || d < 0x100) && BodyFits(body)
    case WUnknown(c) => !Known(c)
    case _ => true
  }

  predicate EntriesFit(es: Entries) {
    es.Entry? ==> WireFits(es.key) && WireFits(es.value) && EntriesFit(es.others)
  }

  predicate ItemsFit(items: Items) {
    items.Item? ==> WireFits(items.first) && ItemsFit(items.others)
  }

  predicate BodyFits(body: Body) {
    match body
    case Empty => true
    case Counted(wide, items, missing) =>
      ItemsFit(items) && CompoundFits(wide, ItemBytes(items), ItemCount(items) + missing)
    case Bare(w) => WireFits(w)
  }

  // ------------------------------ What they say ------------------------------

  function Says(w: Wire): Value {
    match w
    case WNull => Null
    case WTrue => Bool(true)
    case WFalse => Bool(false)
    case WUintZero => Uint(0)
    case WUlongZero => Ulong(0)
    case WUbyte(n) => Uint(n)
    case WSmallUint(n) => Uint(n)
    case WUshort(n) => Uint(n)
    case WUint(n) => Uint(n)
    case WBinary(_, data) => Binary(data)
    case WString(_, text) => Text(text)
    case WMap(_, entries) => Dict(Recorded(map[], entries))
    case WDescribed(_, _, body) => AddressIn(FieldsOf(body))
    case WUnknown(_) => Null
  }

  /** A described value stands for its first field when that is a string: a source's or target's
      address. */
  function AddressIn(fields: seq<Value>): Value {
    if fields != [] && fields[0].Text? then fields[0] else Null
  }

  function FieldsOf(body: Body): seq<Value> {
    match body
    case Empty => []
    case Counted(_, items, missing) => AllSay(items) + Nulls(missing)
    case Bare(w) => [Says(w)]
  }

  function Nulls(n: nat): seq<Value> {
    seq(n, _ => Null)
  }

  function AllSay(items: Items): (r: seq<Value>)
    ensures |r| == ItemCount(items)
  {
    match items
    case NoItems => []
    case Item(w, others) => [Says(w)] + AllSay(others)
  }

  /** String and binary values are kept, later ones over earlier ones; a key that is no string
      counts as the empty one. */
  function Recorded(m: map<Bytes, Bytes>, es: Entries): map<Bytes, Bytes>
    decreases es
  {
    match es
    case NoEntries => m
    case Entry(k, v, others) =>
      var key := match Says(k) case Text(s) => s case _ => [];
      var next := match Says(v) case Text(s) => m[key := s] case Binary(d) => m[key := d] case _ => m;
      Recorded(next, others)
  }

  // ---------------------------- The parser reads them ----------------------------

  lemma {:induction false} FirstByte(w: Wire)
    requires WireFits(w)
    ensures WireBytes(w) != [] && WireBytes(w)[0] != 0x45 && WireBytes(w)[0] != 0xc0 && WireBytes(w)[0] != 0xd0
  {
    hide EntryBytes, BodyBytes, U64;
  }

  lemma {:induction false} VarParses(text: bool, wide: bool, s: Bytes, tail: Bytes)
    requires VarFits(wide, s)
    ensures var b := if text then VarBytes(0xa1, 0xb1, wide, s) else VarBytes(0xa0, 0xb0, wide, s);
            ParseValue(b + tail) == Ok(Parsed(if text then Text(s) else Binary(s), |b|))
  {
    hide ParseValue, U32;
    if wide {
      Var32(text, s, tail);
    } else {
      Var8(text, s, tail);
    }
  }

  lemma {:induction false} PlainParses(w: Wire, tail: Bytes)
    requires WireFits(w) && !w.WBinary? && !w.WString? && !w.WMap? && !w.WDescribed?
    ensures ParseValue(WireBytes(w) + tail) == Ok(Parsed(Says(w), |WireBytes(w)|))
  {
    hide ParseMap, ParseDescribedList;
    var b := WireBytes(w);
    if w.WUint? {
      assert (b + tail)[1..5] == U32(w.full);
    }
  }

  lemma {:induction false} MapFormParses(wide: bool, inner: Bytes, pairs: nat, m: map<Bytes, Bytes>, tail: Bytes)
    requires CompoundFits(wide, inner, 2 * pairs) && ParseEntries(inner, pairs, map[]) == Ok(m)
    ensures var b := Compound(0xc1, 0xd1, wide, inner, 2 * pairs);
            ParseValue(b + tail) == Ok(Parsed(Dict(m), |b|))
  {
    var b := Compound(0xc1, 0xd1, wide, inner, 2 * pairs);
    if wide {
      Dict32(inner, pairs, m, tail);
    } else {
      Dict8(inner, pairs, m, tail);
    }
    hide ParseMap;
    MapValue(b + tail, ParsedMap(m, |b|));
  }

  lemma {:induction false} ListFormParses(wide: bool, inner: Bytes, fields: seq<Value>, tail: Bytes)
    requires CompoundFits(wide, inner, |fields|) && ParseItems(inner, |fields|) == Ok(fields)
    ensures var b := Compound(0xc0, 0xd0, wide, inner, |fields|);
            ParseList(b + tail) == Ok(ParsedList(fields, |b|))
  {
    hide ParseList, ParseItems, U32;
    if wide {
      List32(inner, fields, tail);
    } else {
      List8(inner, fields, tail);
    }
  }

  /** Any value in any accepted form, whatever follows it: the value, and exactly its bytes. */
  lemma {:induction false} WireParses(w: Wire, tail: Bytes)
    requires WireFits(w)
    ensures ParseValue(WireBytes(w) + tail) == Ok(Parsed(Says(w), |WireBytes(w)|))
    decreases w, 1
  {
    hide ParseValue, ParseEntries, ParseDescribedList;
    match w
    case WBinary(wide, data) => VarParses(false, wide, data, tail);
    case WString(wide, text) => VarParses(true, wide, text, tail);
    case WMap(wide, entries) =>
      EntriesParse(entries, map[]);
      MapFormParses(wide, EntryBytes(entries), EntryCount(entries), Recorded(map[], entries), tail);
    case WDescribed(long, d, body) =>
      DescribedParses(long, d, body, tail);
      DescribedValue(WireBytes(w) + tail, d as int % 0x100, FieldsOf(body), tail);
    case _ => PlainParses(w, tail);
  }

  lemma {:induction false} DescribedValue(b: Bytes, code: byte, fields: seq<Value>, tail: Bytes)
    requires b != [] && b[0] == 0x00 && ParseDescribedList(b) == Ok(AmqpParser.Described(code, fields, tail))
    ensures ParseValue(b) == Ok(Parsed(AddressIn(fields), |b| - |tail|))
  {
  }

  lemma {:induction false} EntriesParse(es: Entries, m: map<Bytes, Bytes>)
    requires EntriesFit(es)
    ensures ParseEntries(EntryBytes(es), EntryCount(es), m) == Ok(Recorded(m, es))
    decreases es, 0
  {
    hide ParseValue, ParseEntries, ParsePair;
    match es
    case NoEntries => NoEntriesParse(m);
    case Entry(k, v, others) =>
      var rest := EntryBytes(others);
      WireParses(k, WireBytes(v) + rest);
      WireParses(v, rest);
      hide WireBytes, Says;
      var n := |WireBytes(k)| + |WireBytes(v)|;
      PairBytes(WireBytes(k), WireBytes(v), rest, Says(k), Says(v));
      EntriesParse(others, AddEntry(m, Says(k), Says(v)));
      OneEntry(EntryBytes(es), EntryCount(es), m, ParsedPair(Says(k), Says(v), n));
  }

  lemma {:induction false} PairBytes(bk: Bytes, bv: Bytes, rest: Bytes, k: Value, v: Value)
    requires ParseValue(bk + (bv + rest)) == Ok(Parsed(k, |bk|)) && ParseValue(bv + rest) == Ok(Parsed(v, |bv|))
    ensures var b := bk + (bv + rest); var n := |bk| + |bv|;
            ParsePair(b) == Ok(ParsedPair(k, v, n)) && b[n..] == rest
  {
    hide ParseValue, ParsePair;
    var b := bk + (bv + rest);
    assert b[|bk|..] == bv + rest && b[|bk| + |bv|..] == rest;
    PairParses(b, k, |bk|, v, |bv|);
  }

  lemma {:induction false} NoEntriesParse(m: map<Bytes, Bytes>)
    ensures ParseEntries([], 0, m) == Ok(m)
  {
  }

  lemma {:induction false} OneEntry(b: Bytes, pairs: nat, m: map<Bytes, Bytes>, p: ParsedPair)
    requires pairs > 0 && ParsePair(b) == Ok(p)
    ensures ParseEntries(b, pairs, m) == ParseEntries(b[p.size..], pairs - 1, AddEntry(m, p.key, p.value))
  {
    hide ParsePair, AddEntry;
  }

  lemma {:induction false} PairParses(b: Bytes, k: Value, kn: nat, v: Value, vn: nat)
    requires ParseValue(b) == Ok(Parsed(k, kn)) && kn <= |b| && ParseValue(b[kn..]) == Ok(Parsed(v, vn))
    ensures ParsePair(b) == Ok(ParsedPair(k, v, kn + vn))
  {
    hide ParseValue;
  }

  lemma {:induction false} ItemsParse(items: Items, missing: nat)
    requires ItemsFit(items)
    ensures ParseItems(ItemBytes(items), ItemCount(items) + missing) == Ok(AllSay(items) + Nulls(missing))
    decreases items, 0
  {
    hide ParseItems, ParseValue, Nulls;
    match items
    case NoItems =>
      MissingParse(missing);
      assert [] + Nulls(missing) == Nulls(missing);
    case Item(w, others) =>
      var b, rest := ItemBytes(items), ItemBytes(others);
      WireParses(w, rest);
      assert b[|WireBytes(w)|..] == rest;
      FirstByte(w);
      ItemsParse(others, missing);
      hide WireBytes, Says;
      ItemsStep(b, ItemCount(items) + missing, Parsed(Says(w), |WireBytes(w)|));
      var nulls := Nulls(missing);
      assert [Says(w)] + (AllSay(others) + nulls) == ([Says(w)] + AllSay(others)) + nulls;
  }

  lemma {:induction false} MissingParse(missing: nat)
    ensures ParseItems([], missing) == Ok(Nulls(missing))
  {
    if missing == 0 {
      assert Nulls(0) == [];
    } else {
      MissingParse(missing - 1);
      assert [Null] + Nulls(missing - 1) == Nulls(missing);
    }
  }

  lemma {:induction false} BodyParses(body: Body, tail: Bytes)
    requires BodyFits(body)
    ensures ParseList(BodyBytes(body) + tail) == Ok(ParsedList(FieldsOf(body), |BodyBytes(body)|))
    decreases body, 2
  {
    match body
    case Empty =>
    case Counted(wide, items, missing) =>
      ItemsParse(items, missing);
      hide ParseList, ParseItems, Compound, ItemBytes, AllSay, Nulls;
      CountedParses(wide, items, missing, tail);
    case Bare(w) =>
      WireParses(w, tail);
      FirstByte(w);
      hide ParseList, ParseValue, WireBytes, Says;
      BareParses(WireBytes(w) + tail, Says(w), |WireBytes(w)|);
  }

  lemma {:induction false} CountedParses(wide: bool, items: Items, missing: nat, tail: Bytes)
    requires CompoundFits(wide, ItemBytes(items), ItemCount(items) + missing)
    requires ParseItems(ItemBytes(items), ItemCount(items) + missing) == Ok(AllSay(items) + Nulls(missing))
    ensures var b := Compound(0xc0, 0xd0, wide, ItemBytes(items), ItemCount(items) + missing);
            ParseList(b + tail) == Ok(ParsedList(AllSay(items) + Nulls(missing), |b|))
  {
    hide ParseList, ParseItems, Compound, ItemBytes;
    assert |Nulls(missing)| == missing;
    ListFormParses(wide, ItemBytes(items), AllSay(items) + Nulls(missing), tail);
  }

  lemma {:induction false} BareParses(b: Bytes, v: Value, n: nat)
    requires b != [] && b[0] != 0x45 && b[0] != 0xc0 && b[0] != 0xd0 && ParseValue(b) == Ok(Parsed(v, n))
    ensures ParseList(b) == Ok(ParsedList([v], n))
  {
    hide ParseValue;
  }

  /** A performative, or any described list, with either descriptor and any list form: its code is
      the descriptor's low byte, its fields are what the items say, and what follows is left. */
  lemma {:induction false} DescribedParses(long: bool, d: uint64, body: Body, tail: Bytes)
    requires (long || d < 0x100) && BodyFits(body)
    ensures ParseDescribedList(DescriptorBytes(long, d) + BodyBytes(body) + tail)
         == Ok(AmqpParser.Described(d as int % 0x100, FieldsOf(body), tail))
    decreases body, 3
  {
    BodyParses(body, tail);
    if long {
      LongDescriptor(d, BodyBytes(body), FieldsOf(body), tail);
    } else {
      Descriptor(d as int % 0x100, BodyBytes(body), FieldsOf(body), tail);
    }
  }

  lemma {:induction false} LongDescriptor(d: uint64, l: Bytes, fields: seq<Value>, tail: Bytes)
    requires ParseList(l + tail) == Ok(ParsedList(fields, |l|))
    ensures ParseDescribedList([0x00, 0x80] + U64(d) + l + tail)
         == Ok(AmqpParser.Described(d as int % 0x100, fields, tail))
  {
    var w := [0x00, 0x80] + U64(d) + l + tail;
    LowByte(d);
    hide ParseList, U64;
    assert w[9] == U64(d)[7];
    assert w[10..] == l + tail;
    assert w[10 + |l|..] == tail;
  }

  lemma {:induction false} LastByte(n: nat)
    requires n < TWO32
    ensures |U32(n)| == 4 && U32(n)[3] == n % 0x100
  {
  }

  lemma {:induction false} LowByte(d: uint64)
    ensures |U64(d)| == 8 && U64(d)[7] == d as int % 0x100
  {
    var low := d as int % TWO32;
    LastByte(low);
    hide U32;
    assert d as int == TWO32 * (d as int / TWO32) + low;
  }

  // ------------------------------- Torn values -------------------------------

  lemma {:induction false} TornCompound(tag8: byte, tag32: byte, wide: bool, inner: Bytes, count: nat, n: nat)
    requires CompoundFits(wide, inner, count) && n < |Compound(tag8, tag32, wide, inner, count)|
    ensures var b := Compound(tag8, tag32, wide, inner, count)[..n];
            if wide then n >= 9 ==> n < 5 + ReadU32(b[1..5]) as int else n >= 3 ==> n < 2 + b[1] as int
  {
    var b := Compound(tag8, tag32, wide, inner, count)[..n];
    if wide && n >= 9 {
      assert b[1..5] == U32(|inner| + 4);
    }
  }

  lemma {:induction false} TornVar(text: bool, wide: bool, s: Bytes, n: nat)
    requires VarFits(wide, s)
    requires n < |if text then VarBytes(0xa1, 0xb1, wide, s) else VarBytes(0xa0, 0xb0, wide, s)|
    ensures ParseValue((if text then VarBytes(0xa1, 0xb1, wide, s) else VarBytes(0xa0, 0xb0, wide, s))[..n]) == Err
  {
    var b := (if text then VarBytes(0xa1, 0xb1, wide, s) else VarBytes(0xa0, 0xb0, wide, s))[..n];
    hide ParseMap, ParseDescribedList;
    if wide && n >= 5 {
      assert b[1..5] == U32(|s|);
    }
  }

  lemma {:induction false} TornMapHeader(b: Bytes, wide: bool)
    requires b != [] && b[0] == if wide then 0xd1 else 0xc1
    requires if wide then |b| >= 9 ==> |b| < 5 + ReadU32(b[1..5]) as int else |b| >= 3 ==> |b| < 2 + b[1] as int
    ensures ParseValue(b) == Err
  {
    hide ParseEntries, ParseDescribedList;
    assert ParseMap(b) == Err;
  }

  lemma {:induction false} TornMap(wide: bool, inner: Bytes, count: nat, n: nat)
    requires CompoundFits(wide, inner, count) && n < |Compound(0xc1, 0xd1, wide, inner, count)|
    ensures ParseValue(Compound(0xc1, 0xd1, wide, inner, count)[..n]) == Err
  {
    TornCompound(0xc1, 0xd1, wide, inner, count, n);
    var b := Compound(0xc1, 0xd1, wide, inner, count)[..n];
    hide ParseValue, ParseMap;
    if n > 0 {
      assert b[0] == if wide then 0xd1 else 0xc1;
      TornMapHeader(b, wide);
    } else {
      assert b == [];
    }
  }

  lemma {:induction false} TornPlain(w: Wire, n: nat)
    requires WireFits(w) && !w.WBinary? && !w.WString? && !w.WMap? && !w.WDescribed? && n < |WireBytes(w)|
    ensures ParseValue(WireBytes(w)[..n]) == Err
  {
    hide ParseMap, ParseDescribedList, U32;
  }

  lemma {:induction false} DescribedError(b: Bytes)
    requires b == [] || (b[0] == 0x00 && ParseDescribedList(b) == Err)
    ensures ParseValue(b) == Err
  {
    hide ParseDescribedList;
  }

  /** A value cut short anywhere is an error, never a shorter value. */
  lemma {:induction false} TornWireIsAnError(w: Wire, n: nat)
    requires WireFits(w) && n < |WireBytes(w)|
    ensures ParseValue(WireBytes(w)[..n]) == Err
    decreases w, 1
  {
    hide ParseValue, ParseDescribedList, U64;
    match w
    case WBinary(wide, data) => TornVar(false, wide, data, n);
    case WString(wide, text) => TornVar(true, wide, text, n);
    case WMap(wide, entries) => TornMap(wide, EntryBytes(entries), 2 * EntryCount(entries), n);
    case WDescribed(long, d, body) =>
      TornDescribed(long, d, body, n);
      DescribedError(WireBytes(w)[..n]);
    case _ => TornPlain(w, n);
  }

  lemma {:induction false} TornBody(body: Body, n: nat)
    requires BodyFits(body) && n < |BodyBytes(body)|
    ensures ParseList(BodyBytes(body)[..n]) == Err
    decreases body, 2
  {
    match body
    case Empty =>
    case Counted(wide, items, missing) =>
      TornCompound(0xc0, 0xd0, wide, ItemBytes(items), ItemCount(items) + missing, n);
      hide ParseItems, ItemBytes, ParseValue;
    case Bare(w) =>
      FirstByte(w);
      TornWireIsAnError(w, n);
      hide ParseValue, WireBytes;
  }

  lemma {:induction false} TornDescribed(long: bool, d: uint64, body: Body, n: nat)
    requires (long || d < 0x100) && BodyFits(body) && n < |DescriptorBytes(long, d) + BodyBytes(body)|
    ensures ParseDescribedList((DescriptorBytes(long, d) + BodyBytes(body))[..n]) == Err
    decreases body, 3
  {
    var head, b := DescriptorBytes(long, d), (DescriptorBytes(long, d) + BodyBytes(body))[..n];
    LowByte(d);
    if n >= |head| {
      assert b[|head|..] == BodyBytes(body)[..n - |head|];
      TornBody(body, n - |head|);
    }
    hide ParseList, BodyBytes, U64;
  }

  /** No other descriptor is accepted. */
  lemma {:induction false} OtherDescriptorsAreErrors(b: Bytes)
    requires b == [] || b[0] != 0x00 || (|b| >= 2 && b[1] != 0x53 && b[1] != 0x80)
    ensures ParseDescribedList(b) == Err
  {
  }

  // ------------------------------- Data sections -------------------------------

  /** The bytes of a string or binary. */
  function TextIn(v: Value): Option<Bytes> {
    match v
    case Text(s) => Some(s)
    case Binary(d) => Some(d)
    case _ => None
  }

  /** A Data section with a string or binary in any form yields its bytes. */
  lemma {:induction false} PeerDataReads(w: Wire, tail: Bytes)
    requires WireFits(w) && TextIn(Says(w)).Some?
    ensures ExtractData([0x00, 0x53, 0x75] + WireBytes(w) + tail) == Ok(TextIn(Says(w)).value)
  {
    var p := [0x00, 0x53, 0x75] + WireBytes(w) + tail;
    assert p[3..] == WireBytes(w) + tail;
    WireParses(w, tail);
    hide ParseValue, WireBytes, Says;
  }

  /** So does a bare string or binary; any other bare value leaves the payload as it is. */
  lemma {:induction false} PeerPayloadReads(w: Wire, tail: Bytes)
    requires WireFits(w) && !HasDataDescriptor(WireBytes(w) + tail)
    ensures var payload := WireBytes(w) + tail;
            ExtractData(payload) == Ok(if TextIn(Says(w)).Some? then TextIn(Says(w)).value else payload)
  {
    WireParses(w, tail);
    FirstByte(w);
    hide ParseValue, WireBytes, Says;
  }

  // ---------------------------------- Frames ----------------------------------

  /** A frame with an extended header of `extension` bytes, of any frame type. */
  function PeerFrame(channel: uint16, frameType: byte, extension: Bytes, body: Bytes): Bytes
    requires |extension| % 4 == 0 && |extension| <= 4 * 253
  {
    U32(8 + |extension| + |body|) + [2 + |extension| / 4, frameType, channel / 0x100, channel % 0x100]
    + extension + body
  }

  /** It reads as its channel and body, without the extended header, leaving what follows. */
  lemma {:induction false} PeerFrameReads(channel: uint16, frameType: byte, extension: Bytes, body: Bytes, tail: Bytes)
    requires |extension| % 4 == 0 && |extension| <= 4 * 253 && 8 + |extension| + |body| < TWO32
    ensures ReadFrame(PeerFrame(channel, frameType, extension, body) + tail) == Ok(Received(Frame(channel, body), tail))
  {
    var size, doff := 8 + |extension| + |body|, 2 + |extension| / 4;
    var s := PeerFrame(channel, frameType, extension, body) + tail;
    hide U32, ReadU32;
    PeerFrameParts(U32(size), doff, frameType, channel, extension, body, tail, s);
  }

  lemma {:induction false} PeerFrameParts(size: Bytes, doff: byte, frameType: byte, channel: uint16, extension: Bytes,
      body: Bytes, tail: Bytes, s: Bytes)
    requires |size| == 4 && 4 * doff as int == 8 + |extension|
    requires s == size + [doff, frameType, channel / 0x100, channel % 0x100] + extension + body + tail
    ensures |s| == 8 + |extension| + |body| + |tail| && s[..4] == size && s[4] == doff
    ensures s[6] == channel / 0x100 && s[7] == channel % 0x100
    ensures s[8 + |extension|..8 + |extension| + |body|] == body && s[8 + |extension| + |body|..] == tail
  {
  }

  /** A frame shorter than its header, or a data offset outside it, is an error. */
  lemma {:induction false} BadFramesAreErrors(size: nat, doff: byte, frameType: byte, channel: uint16, rest: Bytes)
    requires size < TWO32 && (size < 8 || 4 * doff as int < 8 || 4 * doff as int > size)
    ensures ReadFrame(U32(size) + [doff, frameType, channel / 0x100, channel % 0x100] + rest) == Err
  {
    var s := U32(size) + [doff, frameType, channel / 0x100, channel % 0x100] + rest;
    assert s[..4] == U32(size) && s[4] == doff;
  }
}
