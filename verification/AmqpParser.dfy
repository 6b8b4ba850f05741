/** The parser of internal/amqp/server.go: four mutually recursive functions over byte strings. */
module AmqpParser {
  import opened Outcomes
  import opened ByteStrings
  import opened AmqpEncoder

  datatype Parsed = Parsed(value: Value, size: nat)
  datatype ParsedPair = ParsedPair(key: Value, value: Value, size: nat)
  datatype ParsedList = ParsedList(fields: seq<Value>, size: nat)
  datatype ParsedMap = ParsedMap(entries: map<Bytes, Bytes>, size: nat)
  datatype Described = Described(code: byte, fields: seq<Value>, rest: Bytes)

  function Fixed(b: Bytes, size: nat, v: Value): Outcome<Parsed> {
    if |b| < size then Err else Ok(Parsed(v, size))
  }

  /** Length-prefixed content with a header of `hdr` bytes; `text` tells a string from a binary. */
  function Content(b: Bytes, hdr: nat, n: nat, text: bool): Outcome<Parsed> {
    if |b| < hdr + n then Err
    else
      var content := b[hdr..hdr + n];
      Ok(Parsed(if text then Text(content) else Binary(content), hdr + n))
  }

  /** parseValue. On success it has consumed at least one byte and no more than there are. */
  function ParseValue(b: Bytes): (r: Outcome<Parsed>)
    ensures r.Ok? ==> 1 <= r.value.size <= |b|
    decreases |b|, 2
  {
    if b == [] then Err
    else if b[0] == 0x41 then Fixed(b, 1, Bool(true))
    else if b[0] == 0x42 then Fixed(b, 1, Bool(false))
    else if b[0] == 0x43 then Fixed(b, 1, Uint(0))
    else if b[0] == 0x44 then Fixed(b, 1, Ulong(0))
    else if b[0] == 0x50 || b[0] == 0x52 then
      if |b| < 2 then Err else Fixed(b, 2, Uint(b[1]))
    else if b[0] == 0x60 then
      if |b| < 3 then Err
      else var hi: int, lo: int := b[1], b[2]; Fixed(b, 3, Uint(hi * 0x100 + lo))
    else if b[0] == 0x70 then
      if |b| < 5 then Err else Fixed(b, 5, Uint(ReadU32(b[1..5])))
    else if b[0] == 0xa0 || b[0] == 0xa1 then
      if |b| < 2 then Err else Content(b, 2, b[1], b[0] == 0xa1)
    else if b[0] == 0xb0 || b[0] == 0xb1 then
      if |b| < 5 then Err else Content(b, 5, ReadU32(b[1..5]), b[0] == 0xb1)
    else if b[0] == 0xc1 || b[0] == 0xd1 then
      var m :- ParseMap(b);
      Ok(Parsed(Dict(m.entries), m.size))
    else if b[0] == 0x00 then
      var d :- ParseDescribedList(b);
      var v := if |d.fields| > 0 && d.fields[0].Text? then d.fields[0] else Null;
      Ok(Parsed(v, |b| - |d.rest|))
    else Fixed(b, 1, Null)  // 0x40, and every unknown constructor
  }

  /** parseDescribedList: descriptor, then a list; `rest` is what follows the list. */
  function ParseDescribedList(b: Bytes): (r: Outcome<Described>)
    ensures r.Ok? ==> |r.value.rest| + 4 <= |b| && r.value.rest == b[|b| - |r.value.rest|..]
    decreases |b|, 1
  {
    if |b| < 3 || b[0] != 0x00 then Err
    else if b[1] == 0x53 then
      var l :- ParseList(b[3..]);
      Ok(Described(b[2], l.fields, b[3 + l.size..]))
    else if b[1] == 0x80 then
      if |b| < 10 then Err
      else
        var l :- ParseList(b[10..]);
        Ok(Described(b[9], l.fields, b[10 + l.size..]))
    else Err
  }

  /** parseList. A size field too small to cover the count makes an inverted slice: a panic. */
  function ParseList(b: Bytes): (r: Outcome<ParsedList>)
    ensures r.Ok? ==> 1 <= r.value.size <= |b|
    decreases |b|, 3
  {
    if b == [] then Err
    else if b[0] == 0x45 then Ok(ParsedList([], 1))
    else if b[0] == 0xc0 then
      if |b| < 3 then Err else ParseCounted(b, 3, 2 + b[1] as int, b[2])
    else if b[0] == 0xd0 then
      if |b| < 9 then Err else ParseCounted(b, 9, 5 + ReadU32(b[1..5]) as int, ReadU32(b[5..9]))
    else
      var p :- ParseValue(b);
      Ok(ParsedList([p.value], p.size))
  }

  /** The common tail of the 8- and 32-bit list forms: items in b[hdr..end]. */
  function ParseCounted(b: Bytes, hdr: nat, end: nat, count: nat): (r: Outcome<ParsedList>)
    requires 3 <= hdr <= |b| && 1 <= end
    ensures r.Ok? ==> r.value.size == end <= |b| && |r.value.fields| == count
    decreases |b|, 0
  {
    if |b| < end then Err
    else if end < hdr then Panic
    else
      var items :- ParseItems(b[hdr..end], count);
      Ok(ParsedList(items, end))
  }

  /** parseListItems: missing items read as nil. */
  function ParseItems(b: Bytes, count: nat): (r: Outcome<seq<Value>>)
    ensures r.Ok? ==> |r.value| == count
    decreases |b|, 4, count
  {
    if count == 0 then Ok([])
    else if b == [] then
      var rest :- ParseItems(b, count - 1);
      Ok([Null] + rest)
    else
      var p :- ParseValue(b);
      var rest :- ParseItems(b[p.size..], count - 1);
      Ok([p.value] + rest)
  }

  /** parseMap: errors inside the entries end the loop, they do not fail the map. */
  function ParseMap(b: Bytes): (r: Outcome<ParsedMap>)
    ensures r.Ok? ==> 1 <= r.value.size <= |b|
    decreases |b|, 1
  {
    if b == [] then Err
    else if b[0] == 0xc1 then
      if |b| < 3 then Err else ParseMapBody(b, 3, 2 + b[1] as int, b[2])
    else if b[0] == 0xd1 then
      if |b| < 9 then Err else ParseMapBody(b, 9, 5 + ReadU32(b[1..5]) as int, ReadU32(b[5..9]))
    else Err
  }

  function ParseMapBody(b: Bytes, hdr: nat, end: nat, count: nat): (r: Outcome<ParsedMap>)
    requires 3 <= hdr <= |b| && 1 <= end
    ensures r.Ok? ==> r.value.size == end <= |b|
    decreases |b|, 0
  {
    if |b| < end then Err
    else if count < 2 then Ok(ParsedMap(map[], end))
    else if end < hdr then Panic
    else
      var m :- ParseEntries(b[hdr..end], count / 2, map[]);
      Ok(ParsedMap(m, end))
  }

  function ParseEntries(b: Bytes, pairs: nat, m: map<Bytes, Bytes>): (r: Outcome<map<Bytes, Bytes>>)
    ensures !r.Err?
    decreases |b|, 4, pairs
  {
    if pairs == 0 then Ok(m)
    else
      match ParsePair(b)
      case Err => Ok(m)
      case Panic => Panic
      case Ok(p) => ParseEntries(b[p.size..], pairs - 1, AddEntry(m, p.key, p.value))
  }

  function ParsePair(b: Bytes): (r: Outcome<ParsedPair>)
    ensures r.Ok? ==> 2 <= r.value.size <= |b|
    decreases |b|, 3
  {
    var k :- ParseValue(b);
    var v :- ParseValue(b[k.size..]);
    Ok(ParsedPair(k.value, v.value, k.size + v.size))
  }

  /** One turn of the parseListItems loop. */
  lemma {:induction false} ItemsStep(b: Bytes, count: nat, p: Parsed)
    requires count > 0 && ParseValue(b) == Ok(p)
    ensures var rest := ParseItems(b[p.size..], count - 1);
            ParseItems(b, count) == if rest.Ok? then Ok([p.value] + rest.value) else rest
  {
  }

  /** A non-string key reads as "", and a value that is neither string nor binary is skipped. */
  function AddEntry(m: map<Bytes, Bytes>, key: Value, v: Value): map<Bytes, Bytes> {
    var k := if key.Text? then key.s else [];
    if v.Text? then m[k := v.s]
    else if v.Binary? then m[k := v.data]
    else m
  }
}
