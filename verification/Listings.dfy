/** What a query lists: the rows that a WHERE clause keeps, and the order of an ORDER BY. */
module Listings {

  /** The elements satisfying `p`, in their order. */
  function Filter<T>(s: seq<T>, p: T -> bool): seq<T> {
    if s == [] then [] else (if p(s[0]) then [s[0]] else []) + Filter(s[1..], p)
  }

  lemma {:induction false} FilterAppend<T>(s: seq<T>, x: T, p: T -> bool)
    ensures Filter(s + [x], p) == Filter(s, p) + if p(x) then [x] else []
  {
    if s == [] {
      assert [x][1..] == [];
    } else {
      FilterAppend(s[1..], x, p);
      assert (s + [x])[1..] == s[1..] + [x];
    }
  }

  lemma {:induction false} FilterHolds<T>(s: seq<T>, p: T -> bool, x: T)
    ensures x in Filter(s, p) <==> x in s && p(x)
  {
    if s != [] {
      FilterHolds(s[1..], p, x);
    }
  }

  // -------------------------------- ORDER BY --------------------------------

  ghost predicate IsOrder<T(!new)>(le: (T, T) -> bool) {
    && (forall a, b :: le(a, b) || le(b, a))
    && (forall a, b, c :: le(a, b) && le(b, c) ==> le(a, c))
  }

  ghost predicate Sorted<T>(s: seq<T>, le: (T, T) -> bool) {
    forall i, j :: 0 <= i < j < |s| ==> le(s[i], s[j])
  }

  /** Where a new element goes in a sorted list. */
  function Place<T>(s: seq<T>, x: T, le: (T, T) -> bool): (i: nat)
    ensures i <= |s|
    ensures i < |s| ==> le(x, s[i])
    ensures forall j :: 0 <= j < i ==> !le(x, s[j])
  {
    if s == [] || le(x, s[0]) then 0 else 1 + Place(s[1..], x, le)
  }

  function Inserted<T>(s: seq<T>, x: T, le: (T, T) -> bool): seq<T> {
    var i := Place(s, x, le);
    s[..i] + [x] + s[i..]
  }

  lemma {:induction false} InsertedSorted<T(!new)>(s: seq<T>, x: T, le: (T, T) -> bool)
    requires IsOrder(le) && Sorted(s, le)
    ensures Sorted(Inserted(s, x, le), le) && multiset(Inserted(s, x, le)) == multiset(s) + multiset{x}
  {
    var i, r := Place(s, x, le), Inserted(s, x, le);
    assert s == s[..i] + s[i..];
    forall a, b | 0 <= a < b < |r| ensures le(r[a], r[b]) {
      if b < i {
        assert le(s[a], s[b]);
      } else if b == i {
        assert le(x, s[a]) || le(s[a], x);
      } else if a == i {
        assert b - 1 == i || le(s[i], s[b - 1]);
      } else {
        assert le(s[if a < i then a else a - 1], s[b - 1]);
      }
    }
  }
}
