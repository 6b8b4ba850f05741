/** When the parser panics: exactly when a list or map header that it reaches carries a size too
    small to cover its own count. */
module AmqpNoPanic {
  import opened Outcomes
  import opened ByteStrings
  import opened AmqpEncoder
  import opened AmqpParser

  // ------------------------------ Headers reached ------------------------------

  /** A list or map header, with the bytes behind it, whose size does not cover its count; a map
      of fewer than two items is never sliced. */
  predicate Short(h: Bytes) {
    || (|h| >= 3 && h[0] == 0xc0 && h[1] == 0)
    || (|h| >= 3 && h[0] == 0xc1 && h[1] == 0 && h[2] >= 2)
    || (|h| >= 9 && h[0] == 0xd0 && ReadU32(h[1..5]) < 4)
    || (|h| >= 9 && h[0] == 0xd1 && ReadU32(h[1..5]) < 4 && ReadU32(h[5..9]) >= 2)
  }

  predicate AnyShort(hs: seq<Bytes>) {
    exists i :: 0 <= i < |hs| && Short(hs[i])
  }

  /** The headers at which parsing `b` looks, in order, each with the bytes behind it. */
  function ValueHeaders(b: Bytes): seq<Bytes>
    decreases |b|, 2
  {
    if b == [] then []
    else if b[0] == 0xc1 || b[0] == 0xd1 then MapHeaders(b)
    else if b[0] == 0x00 then DescribedHeaders(b)
    else []
  }

  function DescribedHeaders(b: Bytes): seq<Bytes>
    decreases |b|, 1
  {
    if |b| >= 3 && b[0] == 0x00 && b[1] == 0x53 then ListHeaders(b[3..])
    else if |b| >= 10 && b[0] == 0x00 && b[1] == 0x80 then ListHeaders(b[10..])
    else []
  }

  function ListHeaders(b: Bytes): seq<Bytes>
    decreases |b|, 3
  {
    if b == [] || b[0] == 0x45 then []
    else if b[0] == 0xc0 then
      [b] + if |b| < 3 then [] else CountedHeaders(b, 3, 2 + b[1] as int, b[2])
    else if b[0] == 0xd0 then
      [b] + if |b| < 9 then [] else CountedHeaders(b, 9, 5 + ReadU32(b[1..5]) as int, ReadU32(b[5..9]))
    else ValueHeaders(b)
  }

  function CountedHeaders(b: Bytes, hdr: nat, end: nat, count: nat): seq<Bytes>
    requires 3 <= hdr <= |b|
    decreases |b|, 0
  {
    if hdr <= end <= |b| then ItemHeaders(b[hdr..end], count) else []
  }

  function ItemHeaders(b: Bytes, count: nat): seq<Bytes>
    decreases |b|, 4, count
  {
    if count == 0 || b == [] then []
    else
      var p := ParseValue(b);
      ValueHeaders(b) + if p.Ok? then ItemHeaders(b[p.value.size..], count - 1) else []
  }

  function MapHeaders(b: Bytes): seq<Bytes>
    decreases |b|, 1
  {
    if b == [] then []
    else if b[0] == 0xc1 then
      [b] + if |b| < 3 then [] else MapBodyHeaders(b, 3, 2 + b[1] as int, b[2])
    else if b[0] == 0xd1 then
      [b] + if |b| < 9 then [] else MapBodyHeaders(b, 9, 5 + ReadU32(b[1..5]) as int, ReadU32(b[5..9]))
    else []
  }

  function MapBodyHeaders(b: Bytes, hdr: nat, end: nat, count: nat): seq<Bytes>
    requires 3 <= hdr <= |b|
    decreases |b|, 0
  {
    if count >= 2 && hdr <= end <= |b| then EntryHeaders(b[hdr..end], count / 2) else []
  }

  function EntryHeaders(b: Bytes, pairs: nat): seq<Bytes>
    decreases |b|, 4, pairs
  {
    if pairs == 0 then []
    else
      var p := ParsePair(b);
      PairHeaders(b) + if p.Ok? then EntryHeaders(b[p.value.size..], pairs - 1) else []
  }

  function PairHeaders(b: Bytes): seq<Bytes>
    decreases |b|, 3
  {
    var k := ParseValue(b);
    ValueHeaders(b) + if k.Ok? then ValueHeaders(b[k.value.size..]) else []
  }

  // ---------------------------- A check without parsing ----------------------------

  ghost predicate CoversAt(b: Bytes, i: nat)
    requires i < |b|
  {
    && ((b[i] == 0xc0 || b[i] == 0xc1) && i + 1 < |b| ==> b[i + 1] >= 1)
    && ((b[i] == 0xd0 || b[i] == 0xd1) && i + 4 < |b| ==>
          b[i + 1] > 0 || b[i + 2] > 0 || b[i + 3] > 0 || b[i + 4] >= 4)
  }

  /** Every byte that could be read as a list or map constructor, reached or not, is followed by a
      size that covers the count. */
  ghost predicate Covered(b: Bytes) {
    forall i :: 0 <= i < |b| ==> CoversAt(b, i)
  }

  lemma {:induction false} CoveredSlice(b: Bytes, lo: nat, hi: nat)
    requires lo <= hi <= |b|
    ensures Covered(b) ==> Covered(b[lo..hi])
  {
    if Covered(b) {
      forall i | 0 <= i < hi - lo ensures CoversAt(b[lo..hi], i) {
        assert CoversAt(b, lo + i);
      }
    }
  }

  lemma {:induction false} CoveredSuffix(b: Bytes, lo: nat)
    requires lo <= |b|
    ensures Covered(b) ==> Covered(b[lo..])
  {
    CoveredSlice(b, lo, |b|);
    assert b[lo..|b|] == b[lo..];
  }

  // -------------------------- A panic is a short header --------------------------

  lemma {:induction false} AnyShortConcat(a: seq<Bytes>, b: seq<Bytes>)
    ensures AnyShort(a + b) <==> AnyShort(a) || AnyShort(b)
  {
    if AnyShort(a) {
      var i :| 0 <= i < |a| && Short(a[i]);
      assert (a + b)[i] == a[i];
    }
    if AnyShort(b) {
      var i :| 0 <= i < |b| && Short(b[i]);
      assert (a + b)[|a| + i] == b[i];
    }
  }

  lemma {:induction false} AnyShortCons(h: Bytes, hs: seq<Bytes>)
    ensures AnyShort([h] + hs) <==> Short(h) || AnyShort(hs)
  {
    AnyShortConcat([h], hs);
    assert AnyShort([h]) <==> Short([h][0]);
  }

  /** parseValue panics exactly when it reaches a short header. */
  lemma {:induction false} ValuePanicsIff(b: Bytes)
    ensures ParseValue(b).Panic? <==> AnyShort(ValueHeaders(b))
    ensures Covered(b) ==> !ParseValue(b).Panic?
    decreases |b|, 2
  {
    hide Short, CoversAt;
    if b == [] {
    } else if b[0] == 0xc1 || b[0] == 0xd1 {
      MapPanicsIff(b);
    } else if b[0] == 0x00 {
      DescribedPanicsIff(b);
    }
  }

  /** parseDescribedList panics exactly when it reaches a short header. */
  lemma {:induction false} DescribedPanicsIff(b: Bytes)
    ensures ParseDescribedList(b).Panic? <==> AnyShort(DescribedHeaders(b))
    ensures Covered(b) ==> !ParseDescribedList(b).Panic?
    decreases |b|, 1
  {
    hide Short, CoversAt;
    if |b| >= 3 {
      CoveredSuffix(b, 3);
      ListPanicsIff(b[3..]);
    }
    if |b| >= 10 {
      CoveredSuffix(b, 10);
      ListPanicsIff(b[10..]);
    }
  }

  lemma {:induction false} ListPanicsIff(b: Bytes)
    ensures ParseList(b).Panic? <==> AnyShort(ListHeaders(b))
    ensures Covered(b) ==> !ParseList(b).Panic?
    decreases |b|, 3
  {
    if b == [] || b[0] == 0x45 {
    } else if b[0] == 0xc0 {
      if |b| >= 3 {
        assert Covered(b) ==> CoversAt(b, 0);
        CountedPanicsIff(b, 3, 2 + b[1] as int, b[2]);
        AnyShortCons(b, CountedHeaders(b, 3, 2 + b[1] as int, b[2]));
      } else {
        AnyShortCons(b, []);
      }
    } else if b[0] == 0xd0 {
      if |b| >= 9 {
        assert Covered(b) ==> CoversAt(b, 0);
        CountedPanicsIff(b, 9, 5 + ReadU32(b[1..5]) as int, ReadU32(b[5..9]));
        AnyShortCons(b, CountedHeaders(b, 9, 5 + ReadU32(b[1..5]) as int, ReadU32(b[5..9])));
      } else {
        AnyShortCons(b, []);
      }
    } else {
      ValuePanicsIff(b);
    }
  }

  lemma {:induction false} CountedPanicsIff(b: Bytes, hdr: nat, end: nat, count: nat)
    requires 3 <= hdr <= |b| && 1 <= end
    ensures ParseCounted(b, hdr, end, count).Panic? <==>
              (end < hdr || AnyShort(CountedHeaders(b, hdr, end, count)))
    ensures Covered(b) && hdr <= end ==> !ParseCounted(b, hdr, end, count).Panic?
    decreases |b|, 0
  {
    if hdr <= end <= |b| {
      CoveredSlice(b, hdr, end);
      ItemsPanicIff(b[hdr..end], count);
    }
  }

  lemma {:induction false} ItemsPanicIff(b: Bytes, count: nat)
    ensures ParseItems(b, count).Panic? <==> AnyShort(ItemHeaders(b, count))
    ensures Covered(b) ==> !ParseItems(b, count).Panic?
    decreases |b|, 4, count
  {
    hide Short, Covered, ParseValue, ValueHeaders;
    if count == 0 {
    } else if b == [] {
      ItemsPanicIff(b, count - 1);
    } else {
      ValuePanicsIff(b);
      var p := ParseValue(b);
      var rest := if p.Ok? then ItemHeaders(b[p.value.size..], count - 1) else [];
      AnyShortConcat(ValueHeaders(b), rest);
      if p.Ok? {
        CoveredSuffix(b, p.value.size);
        ItemsPanicIff(b[p.value.size..], count - 1);
      }
    }
  }

  lemma {:induction false} MapPanicsIff(b: Bytes)
    ensures ParseMap(b).Panic? <==> AnyShort(MapHeaders(b))
    ensures Covered(b) ==> !ParseMap(b).Panic?
    decreases |b|, 1
  {
    if b == [] {
    } else if b[0] == 0xc1 {
      if |b| >= 3 {
        assert Covered(b) ==> CoversAt(b, 0);
        MapBodyPanicsIff(b, 3, 2 + b[1] as int, b[2]);
        AnyShortCons(b, MapBodyHeaders(b, 3, 2 + b[1] as int, b[2]));
      } else {
        AnyShortCons(b, []);
      }
    } else if b[0] == 0xd1 {
      if |b| >= 9 {
        assert Covered(b) ==> CoversAt(b, 0);
        MapBodyPanicsIff(b, 9, 5 + ReadU32(b[1..5]) as int, ReadU32(b[5..9]));
        AnyShortCons(b, MapBodyHeaders(b, 9, 5 + ReadU32(b[1..5]) as int, ReadU32(b[5..9])));
      } else {
        AnyShortCons(b, []);
      }
    }
  }

  lemma {:induction false} MapBodyPanicsIff(b: Bytes, hdr: nat, end: nat, count: nat)
    requires 3 <= hdr <= |b| && 1 <= end
    ensures ParseMapBody(b, hdr, end, count).Panic? <==>
              ((count >= 2 && end < hdr) || AnyShort(MapBodyHeaders(b, hdr, end, count)))
    ensures Covered(b) && hdr <= end ==> !ParseMapBody(b, hdr, end, count).Panic?
    decreases |b|, 0
  {
    if hdr <= end <= |b| {
      CoveredSlice(b, hdr, end);
      EntriesPanicIff(b[hdr..end], count / 2, map[]);
    }
  }

  lemma {:induction false} EntriesPanicIff(b: Bytes, pairs: nat, m: map<Bytes, Bytes>)
    ensures ParseEntries(b, pairs, m).Panic? <==> AnyShort(EntryHeaders(b, pairs))
    ensures Covered(b) ==> !ParseEntries(b, pairs, m).Panic?
    decreases |b|, 4, pairs
  {
    hide Short, Covered, ParsePair, PairHeaders, AddEntry;
    if pairs > 0 {
      PairPanicsIff(b);
      var p := ParsePair(b);
      var rest := if p.Ok? then EntryHeaders(b[p.value.size..], pairs - 1) else [];
      AnyShortConcat(PairHeaders(b), rest);
      if p.Ok? {
        CoveredSuffix(b, p.value.size);
        EntriesPanicIff(b[p.value.size..], pairs - 1, AddEntry(m, p.value.key, p.value.value));
      }
    }
  }

  lemma {:induction false} PairPanicsIff(b: Bytes)
    ensures ParsePair(b).Panic? <==> AnyShort(PairHeaders(b))
    ensures Covered(b) ==> !ParsePair(b).Panic?
    decreases |b|, 3
  {
    hide Short, CoversAt;
    ValuePanicsIff(b);
    var k := ParseValue(b);
    AnyShortConcat(ValueHeaders(b), if k.Ok? then ValueHeaders(b[k.value.size..]) else []);
    if k.Ok? {
      CoveredSuffix(b, k.value.size);
      ValuePanicsIff(b[k.value.size..]);
    }
  }

  /** So a look at the bytes alone can rule a panic out ... */
  lemma {:induction false} DescribedNeverPanics(b: Bytes)
    requires Covered(b)
    ensures !ParseDescribedList(b).Panic? && !AnyShort(DescribedHeaders(b))
  {
    DescribedPanicsIff(b);
  }

  lemma {:induction false} ValueNeverPanics(b: Bytes)
    requires Covered(b)
    ensures !ParseValue(b).Panic? && !AnyShort(ValueHeaders(b))
  {
    ValuePanicsIff(b);
  }

  /** ... though content that merely looks like a short header does no harm. */
  lemma {:induction false} ContentIsNoHeader(b: Bytes)
    requires b == [0xa0, 0x02, 0xc0, 0x00]
    ensures !Covered(b) && ParseValue(b) == Ok(Parsed(Binary([0xc0, 0x00]), 4)) && ValueHeaders(b) == []
  {
    assert !CoversAt(b, 2);
    assert b[2..4] == [0xc0, 0x00];
  }

  /** The panic is real: a list8 of size 0, alone in a frame body. */
  lemma {:induction false} ShortListPanics()
    ensures ParseDescribedList([0x00, 0x53, 0x10, 0xc0, 0x00, 0x00]) == Panic
  {
    var b: Bytes := [0x00, 0x53, 0x10, 0xc0, 0x00, 0x00];
    var h: Bytes := [0xc0, 0x00, 0x00];
    assert b[3..] == h && DescribedHeaders(b)[0] == h && Short(h);
    DescribedPanicsIff(b);
  }
}
