/** The loops of parseListItems and parseMap. They are stated over any value parser `pv` or
    entry parser `pp`, and then shown to compute ParseItems and ParseEntries when these are
    ParseValue and ParsePair. */
module AmqpParserLoops {
  import opened Outcomes
  import opened ByteStrings
  import opened AmqpEncoder
  import opened AmqpParser

  ghost predicate Bounded(pv: Bytes -> Outcome<Parsed>) {
    forall b :: pv(b).Ok? ==> 1 <= pv(b).value.size <= |b|
  }

  ghost function Items(pv: Bytes -> Outcome<Parsed>, b: Bytes, count: nat): Outcome<seq<Value>>
    requires Bounded(pv)
    decreases count
  {
    if count == 0 then Ok([])
    else
      var p :- if b == [] then Ok(Parsed(Null, 0)) else pv(b);
      var rest :- Items(pv, b[p.size..], count - 1);
      Ok([p.value] + rest)
  }

  ghost predicate BoundedPair(pp: Bytes -> Outcome<ParsedPair>) {
    forall b :: pp(b).Ok? ==> pp(b).value.size <= |b|
  }

  ghost function Entries(pp: Bytes -> Outcome<ParsedPair>, b: Bytes, pairs: nat, m: map<Bytes, Bytes>)
    : Outcome<map<Bytes, Bytes>>
    requires BoundedPair(pp)
    decreases pairs
  {
    if pairs == 0 then Ok(m)
    else
      var p := pp(b);
      if !p.Ok? then (if p.Panic? then Panic else Ok(m))
      else Entries(pp, b[p.value.size..], pairs - 1, AddEntry(m, p.value.key, p.value.value))
  }

  lemma {:induction false} ItemsIsParseItems(b: Bytes, count: nat)
    ensures Items(ParseValue, b, count) == ParseItems(b, count)
    decreases count
  {
    if count > 0 {
      if b == [] {
        ItemsIsParseItems(b[0..], count - 1);
      } else if ParseValue(b).Ok? {
        ItemsIsParseItems(b[ParseValue(b).value.size..], count - 1);
      }
    }
  }

  lemma {:induction false} EntriesIsParseEntries(b: Bytes, pairs: nat, m: map<Bytes, Bytes>)
    ensures Entries(ParsePair, b, pairs, m) == ParseEntries(b, pairs, m)
    decreases pairs
  {
    hide ParsePair, AddEntry;
    if pairs > 0 {
      var p := ParsePair(b);
      if p.Ok? {
        EntriesIsParseEntries(b[p.value.size..], pairs - 1, AddEntry(m, p.value.key, p.value.value));
      }
    }
  }

  /** `done` fields followed by what the rest of the buffer parses to. */
  ghost function Resumed(done: seq<Value>, rest: Outcome<seq<Value>>): Outcome<seq<Value>> {
    if rest.Ok? then Ok(done + rest.value) else rest
  }

  lemma {:induction false} ItemsTurn(pv: Bytes -> Outcome<Parsed>, done: seq<Value>, b: Bytes, count: nat,
      p: Outcome<Parsed>)
    requires Bounded(pv) && count > 0
    requires p == if b == [] then Ok(Parsed(Null, 0)) else pv(b)
    ensures Resumed(done, Items(pv, b, count))
         == if p.Ok? then Resumed(done + [p.value.value], Items(pv, b[p.value.size..], count - 1))
            else p.PropagateFailure()
  {
    if p.Ok? {
      var rest := Items(pv, b[p.value.size..], count - 1);
      assert rest.Ok? ==> done + ([p.value.value] + rest.value) == done + [p.value.value] + rest.value;
    }
  }

  method ItemsLoop(pv: Bytes -> Outcome<Parsed>, b: Bytes, count: nat) returns (r: Outcome<seq<Value>>)
    requires Bounded(pv)
    ensures r == Items(pv, b, count)
  {
    var fields: seq<Value> := [];
    var left := b;
    ghost var whole := Items(pv, b, count);
    assert whole.Ok? ==> [] + whole.value == whole.value;
    for i := 0 to count
      invariant Resumed(fields, Items(pv, left, count - i)) == whole
    {
      var p := if left == [] then Ok(Parsed(Null, 0)) else pv(left);
      ItemsTurn(pv, fields, left, count - i, p);
      if p.IsFailure() { return p.PropagateFailure(); }
      fields := fields + [p.value.value];
      left := left[p.value.size..];
    }
    assert fields + [] == fields;
    r := Ok(fields);
  }

  method EntriesLoop(pp: Bytes -> Outcome<ParsedPair>, b: Bytes, count: nat) returns (r: Outcome<map<Bytes, Bytes>>)
    requires BoundedPair(pp)
    ensures r == Entries(pp, b, count / 2, map[])
  {
    var m: map<Bytes, Bytes> := map[];
    var left, i := b, 0;
    while i + 1 < count
      invariant i <= count
      invariant Entries(pp, left, (count - i) / 2, m) == Entries(pp, b, count / 2, map[])
      decreases count - i
    {
      var p := pp(left);
      if p.IsFailure() {
        return if p.Panic? then Panic else Ok(m);
      }
      left := left[p.value.size..];
      m := AddEntry(m, p.value.key, p.value.value);
      i := i + 2;
    }
    r := Ok(m);
  }

  method ParseListItems(b: Bytes, count: nat) returns (r: Outcome<seq<Value>>)
    ensures r == ParseItems(b, count)
  {
    r := ItemsLoop(ParseValue, b, count);
    ItemsIsParseItems(b, count);
  }

  method ParseMapEntries(b: Bytes, count: nat) returns (r: Outcome<map<Bytes, Bytes>>)
    ensures r == ParseEntries(b, count / 2, map[])
  {
    r := EntriesLoop(ParsePair, b, count);
    EntriesIsParseEntries(b, count / 2, map[]);
  }
}
