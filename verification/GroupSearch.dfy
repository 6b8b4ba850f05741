/** The nested-group search of internal/kernel/authz/rbac.go: a depth-first search with one
    visited set for the whole search and a cap of eight groups on the current path. */
module GroupSearch {

  /** A row of ListGroupMembers as one caller sees it: `hit` when the member's ids overlap the
      caller's, `group` when its type is "group" up to case and blanks. */
  datatype Member = Member(id: string, hit: bool, group: bool)

  type Graph = string -> seq<Member>

  const MAX_DEPTH: nat := 8

  datatype Search = Search(found: bool, seen: set<string>)

  /** groupContains, threading the visited set. */
  function SearchGroup(graph: Graph, g: string, depth: nat, seen: set<string>): Search
    decreases if depth < MAX_DEPTH then MAX_DEPTH - depth else 0, 1, 0
  {
    if g == "" || depth >= MAX_DEPTH || g in seen then Search(false, seen)
    else SearchMembers(graph, graph(g), depth, seen + {g})
  }

  function SearchMembers(graph: Graph, ms: seq<Member>, depth: nat, seen: set<string>): Search
    requires depth < MAX_DEPTH
    decreases MAX_DEPTH - depth, 0, |ms|
  {
    if ms == [] then Search(false, seen)
    else
      var r := SearchMember(graph, ms[0], depth, seen);
      if r.found then r else SearchMembers(graph, ms[1..], depth, r.seen)
  }

  function SearchMember(graph: Graph, m: Member, depth: nat, seen: set<string>): Search
    requires depth < MAX_DEPTH
    decreases MAX_DEPTH - depth, 0, 0
  {
    if m.hit then Search(true, seen)
    else if m.group then SearchGroup(graph, m.id, depth + 1, seen)
    else Search(false, seen)
  }

  /** The search as the source runs it: recursion over a shared, mutated visited set. */
  class Searcher {
    const graph: Graph
    var seen: set<string>

    constructor (graph: Graph)
      ensures this.graph == graph && seen == {}
    {
      this.graph := graph;
      seen := {};
    }

    method Contains(g: string, depth: nat) returns (found: bool)
      modifies this
      ensures Search(found, seen) == SearchGroup(graph, g, depth, old(seen))
      decreases if depth < MAX_DEPTH then MAX_DEPTH - depth else 0
    {
      if g == "" || depth >= MAX_DEPTH { return false; }
      if g in seen { return false; }
      seen := seen + {g};
      var ms := graph(g);
      ghost var whole := SearchMembers(graph, ms, depth, seen);
      assert ms[0..] == ms;
      for i := 0 to |ms|
        invariant SearchMembers(graph, ms[i..], depth, seen) == whole
      {
        assert ms[i..][0] == ms[i] && ms[i..][1..] == ms[i + 1..];
        if ms[i].hit { return true; }
        if ms[i].group {
          var inner := Contains(ms[i].id, depth + 1);
          if inner { return true; }
        }
      }
      return false;
    }
  }

  // ------------------------------- Soundness -------------------------------

  /** A hit is reached through at most `n` groups, `g` the first. */
  ghost predicate Within(graph: Graph, g: string, n: nat)
    decreases n, 1
  {
    n > 0 && g != "" && exists m :: m in graph(g) && HitThrough(graph, m, n)
  }

  ghost predicate HitThrough(graph: Graph, m: Member, n: nat)
    requires n > 0
    decreases n, 0
  {
    m.hit || (m.group && Within(graph, m.id, n - 1))
  }

  ghost predicate Transitive(graph: Graph, g: string) {
    exists n :: Within(graph, g, n)
  }

  ghost predicate Lists(graph: Graph, g: string, h: string) {
    exists m :: m in graph(g) && m.group && m.id == h
  }

  /** The same by exhibiting the groups: each lists the next, and the last lists a hit. */
  ghost predicate IsChain(graph: Graph, chain: seq<string>) {
    && chain != [] && "" !in chain
    && (forall i :: 0 <= i < |chain| - 1 ==> Lists(graph, chain[i], chain[i + 1]))
    && exists m :: m in graph(chain[|chain| - 1]) && m.hit
  }

  lemma {:induction false} WithinHasChain(graph: Graph, g: string, n: nat) returns (chain: seq<string>)
    requires Within(graph, g, n)
    ensures IsChain(graph, chain) && chain[0] == g && |chain| <= n
    decreases n
  {
    var m :| m in graph(g) && HitThrough(graph, m, n);
    if m.hit {
      chain := [g];
    } else {
      var rest := WithinHasChain(graph, m.id, n - 1);
      chain := [g] + rest;
      forall i | 0 <= i < |chain| - 1 ensures Lists(graph, chain[i], chain[i + 1]) {
        if i > 0 {
          assert Lists(graph, rest[i - 1], rest[i - 1 + 1]);
        }
      }
    }
  }

  lemma {:induction false} ChainIsWithin(graph: Graph, chain: seq<string>, n: nat)
    requires IsChain(graph, chain) && |chain| <= n
    ensures Within(graph, chain[0], n)
    decreases |chain|
  {
    if |chain| == 1 {
      var m :| m in graph(chain[0]) && m.hit;
      assert HitThrough(graph, m, n);
    } else {
      var rest := chain[1..];
      forall i | 0 <= i < |rest| - 1 ensures Lists(graph, rest[i], rest[i + 1]) {
        assert Lists(graph, chain[i + 1], chain[i + 1 + 1]);
      }
      ChainIsWithin(graph, rest, n - 1);
      assert Lists(graph, chain[0], chain[0 + 1]);
      var m :| m in graph(chain[0]) && m.group && m.id == chain[1];
      assert HitThrough(graph, m, n);
    }
  }

  lemma {:induction false} GroupSound(graph: Graph, g: string, depth: nat, seen: set<string>)
    requires SearchGroup(graph, g, depth, seen).found
    ensures depth < MAX_DEPTH && Within(graph, g, MAX_DEPTH - depth)
    decreases if depth < MAX_DEPTH then MAX_DEPTH - depth else 0, 1, 0
  {
    MembersSound(graph, graph(g), depth, seen + {g});
  }

  lemma {:induction false} MembersSound(graph: Graph, ms: seq<Member>, depth: nat, seen: set<string>)
    requires depth < MAX_DEPTH && SearchMembers(graph, ms, depth, seen).found
    ensures exists m :: m in ms && HitThrough(graph, m, MAX_DEPTH - depth)
    decreases MAX_DEPTH - depth, 0, |ms|
  {
    var r := SearchMember(graph, ms[0], depth, seen);
    if r.found {
      if !ms[0].hit {
        GroupSound(graph, ms[0].id, depth + 1, seen);
      }
      assert ms[0] in ms && HitThrough(graph, ms[0], MAX_DEPTH - depth);
    } else {
      MembersSound(graph, ms[1..], depth, r.seen);
      var m :| m in ms[1..] && HitThrough(graph, m, MAX_DEPTH - depth);
      assert m in ms;
    }
  }

  // ------------------------------ Completeness ------------------------------

  /** `groups` contains every group that one of its groups lists. */
  ghost predicate Closed(graph: Graph, groups: set<string>) {
    forall g :: g in groups ==> ClosedMembers(graph(g), groups)
  }

  ghost predicate ClosedMembers(ms: seq<Member>, groups: set<string>) {
    forall m :: m in ms && m.group && m.id != "" ==> m.id in groups
  }

  /** No group of `done` lists a hit, and each lists only groups of `seen`. */
  ghost predicate Clean(graph: Graph, done: set<string>, seen: set<string>) {
    forall g :: g in done ==> CleanMembers(graph(g), seen)
  }

  ghost predicate CleanMembers(ms: seq<Member>, seen: set<string>) {
    ClosedMembers(ms, seen) && forall m :: m in ms ==> !m.hit
  }

  /** What a finished search leaves: more groups seen, the new ones clean unless it hit. */
  ghost predicate Exhausted(graph: Graph, seen: set<string>, r: Search, all: set<string>) {
    seen <= r.seen <= all && (!r.found ==> Clean(graph, r.seen - seen, r.seen))
  }

  lemma {:induction false} Smaller(a: set<string>, b: set<string>)
    requires a <= b
    ensures |a| <= |b| && (a != b ==> |a| < |b|)
  {
    assert b == a + (b - a);
    if a != b {
      assert b - a != {};
    }
  }

  lemma {:induction false} GroupComplete(graph: Graph, g: string, depth: nat, seen: set<string>, all: set<string>)
    requires Closed(graph, all) && |all| <= MAX_DEPTH
    requires g != "" && g in all && seen <= all && depth <= |seen|
    ensures var r := SearchGroup(graph, g, depth, seen);
            Exhausted(graph, seen, r, all) && (!r.found ==> g in r.seen)
    decreases if depth < MAX_DEPTH then MAX_DEPTH - depth else 0, 1, 0
  {
    Smaller(seen, all);
    if g !in seen {
      Smaller(seen + {g}, all);
      assert |seen + {g}| == |seen| + 1;
      MembersComplete(graph, graph(g), depth, seen + {g}, all);
    }
  }

  lemma {:induction false} MembersComplete(graph: Graph, ms: seq<Member>, depth: nat, seen: set<string>,
      all: set<string>)
    requires Closed(graph, all) && |all| <= MAX_DEPTH
    requires seen <= all && depth < |seen| && depth < MAX_DEPTH && ClosedMembers(ms, all)
    ensures var r := SearchMembers(graph, ms, depth, seen);
            Exhausted(graph, seen, r, all) && (!r.found ==> CleanMembers(ms, r.seen))
    decreases MAX_DEPTH - depth, 0, |ms|
  {
    if ms != [] {
      var r := SearchMember(graph, ms[0], depth, seen);
      if !ms[0].hit && ms[0].group && ms[0].id != "" {
        assert ms[0] in ms;
        GroupComplete(graph, ms[0].id, depth + 1, seen, all);
      } else {
        assert SearchGroup(graph, "", depth + 1, seen) == Search(false, seen);
        assert r.seen == seen && r.seen - seen == {};
      }
      if !r.found {
        Smaller(seen, r.seen);
        forall m | m in ms[1..] && m.group && m.id != "" ensures m.id in all {
          assert m in ms;
        }
        MembersComplete(graph, ms[1..], depth, r.seen, all);
        CleanCons(graph, ms, seen, r.seen, SearchMembers(graph, ms[1..], depth, r.seen), all);
      }
    }
  }

  lemma {:induction false} CleanCons(graph: Graph, ms: seq<Member>, seen: set<string>, mid: set<string>, r: Search,
      all: set<string>)
    requires ms != [] && !ms[0].hit && (ms[0].group && ms[0].id != "" ==> ms[0].id in mid)
    requires seen <= mid && Clean(graph, mid - seen, mid)
    requires Exhausted(graph, mid, r, all) && (!r.found ==> CleanMembers(ms[1..], r.seen))
    ensures Exhausted(graph, seen, r, all) && (!r.found ==> CleanMembers(ms, r.seen))
  {
    if !r.found {
      forall g | g in r.seen - seen ensures CleanMembers(graph(g), r.seen) {
        if g in mid {
          assert CleanMembers(graph(g), mid);
        }
      }
      forall m | m in ms ensures !m.hit && (m.group && m.id != "" ==> m.id in r.seen) {
        assert m == ms[0] || m in ms[1..];
      }
    }
  }

  /** Nothing is within any distance of a clean set that lists only itself. */
  lemma {:induction false} CleanHidesNothing(graph: Graph, seen: set<string>, g: string, n: nat)
    requires Clean(graph, seen, seen) && (g in seen || g == "")
    ensures !Within(graph, g, n)
    decreases n
  {
    if Within(graph, g, n) {
      var m :| m in graph(g) && HitThrough(graph, m, n);
      CleanHidesNothing(graph, seen, m.id, n - 1);
    }
  }

  predicate Found(graph: Graph, g: string) {
    SearchGroup(graph, g, 0, {}).found
  }

  /** A yes is always right, and comes with a chain of at most eight groups. */
  lemma {:induction false} FoundIsSound(graph: Graph, g: string)
    requires Found(graph, g)
    ensures Transitive(graph, g)
    ensures exists chain :: IsChain(graph, chain) && chain[0] == g && |chain| <= MAX_DEPTH
  {
    GroupSound(graph, g, 0, {});
    var chain := WithinHasChain(graph, g, MAX_DEPTH);
  }

  /** With at most eight groups to reach, cycles or not, the answer is transitive membership. */
  lemma {:induction false} FoundIsExact(graph: Graph, g: string, all: set<string>)
    requires Closed(graph, all) && g in all && |all| <= MAX_DEPTH
    ensures Found(graph, g) <==> Transitive(graph, g)
  {
    if Found(graph, g) {
      FoundIsSound(graph, g);
    } else if g != "" {
      GroupComplete(graph, g, 0, {}, all);
      var seen := SearchGroup(graph, g, 0, {}).seen;
      assert seen - {} == seen;
      forall n: nat ensures !Within(graph, g, n) {
        CleanHidesNothing(graph, seen, g, n);
      }
    }
  }

  // ------------------------- Eight is the exact bound -------------------------

  function Name(k: nat): string {
    seq(k + 1, _ => 'g')
  }

  function Only(k: nat): seq<Member> {
    [Member(Name(k), false, true)]
  }

  /** Nine groups. The path 0-1-...-7 meets 7 at the last allowed depth, so its member group 8,
      which lists the caller, is cut off; 0 also lists 7 directly, but by then 7 has been seen. */
  function LateShortcut(g: string): seq<Member> {
    if |g| == 1 then Only(1) + Only(7)
    else if 2 <= |g| <= 8 then Only(|g|)
    else if |g| == 9 then [Member("caller", true, false)]
    else []
  }

  function FirstNames(k: nat): set<string> {
    set i | 0 <= i < k :: Name(i)
  }

  lemma {:induction false} NextName(k: nat)
    ensures FirstNames(k + 1) == FirstNames(k) + {Name(k)} && Name(k) !in FirstNames(k)
  {
    assert forall i :: 0 <= i < k ==> |Name(i)| < |Name(k)|;
  }

  lemma {:induction false} CountNames(k: nat)
    ensures |FirstNames(k)| == k
  {
    if k > 0 {
      NextName(k - 1);
      CountNames(k - 1);
    }
  }

  /** From 1 on, the path sees everything up to 7 and finds nothing. */
  lemma {:induction false} PathIsBlind(k: nat)
    requires 1 <= k <= 7
    ensures SearchGroup(LateShortcut, Name(k), k, FirstNames(k)) == Search(false, FirstNames(8))
    decreases 7 - k
  {
    NextName(k);
    var seen := FirstNames(k + 1);
    if k < 7 {
      PathIsBlind(k + 1);
    }
    assert SearchMember(LateShortcut, Only(k + 1)[0], k, seen) == Search(false, FirstNames(8));
    assert Only(k + 1)[1..] == [];
    assert SearchMembers(LateShortcut, Only(k + 1), k, seen) == Search(false, FirstNames(8));
  }

  /** A member only three groups away is missed. */
  lemma {:induction false} ShortcutMissed()
    ensures !Found(LateShortcut, Name(0)) && Within(LateShortcut, Name(0), 3)
  {
    var ms := LateShortcut(Name(0));
    var seen := FirstNames(8);
    NextName(0);
    NextName(7);
    PathIsBlind(1);
    assert {} + {Name(0)} == FirstNames(1) && Name(7) in seen;
    assert ms[0] == Only(1)[0] && ms[1..] == Only(7) && Only(7)[1..] == [];
    assert SearchMember(LateShortcut, ms[0], 0, FirstNames(1)) == Search(false, seen);
    assert SearchMember(LateShortcut, Only(7)[0], 0, seen) == Search(false, seen);
    assert SearchMembers(LateShortcut, Only(7), 0, seen) == Search(false, seen);
    assert SearchMembers(LateShortcut, ms, 0, FirstNames(1)) == Search(false, seen);
    ShortcutThere();
  }

  lemma {:induction false} ShortcutThere()
    ensures Within(LateShortcut, Name(0), 3)
  {
    var caller := Member("caller", true, false);
    assert caller in LateShortcut(Name(8)) && HitThrough(LateShortcut, caller, 1);
    assert Only(8)[0] in LateShortcut(Name(7)) && HitThrough(LateShortcut, Only(8)[0], 2);
    assert Only(7)[0] in LateShortcut(Name(0)) && HitThrough(LateShortcut, Only(7)[0], 3);
  }

  lemma {:induction false} ShortcutClosed()
    ensures Closed(LateShortcut, FirstNames(9))
  {
    forall g | g in FirstNames(9) ensures ClosedMembers(LateShortcut(g), FirstNames(9)) {
      forall m | m in LateShortcut(g) && m.group ensures m.id in FirstNames(9) {
        assert m.id == Name(1) || m.id == Name(7) || m.id == Name(|g|);
      }
    }
  }

  /** Graphs with at most `n` reachable groups are all answered exactly. */
  ghost predicate ExactUpTo(n: nat) {
    forall graph: Graph, g, all :: Closed(graph, all) && g in all && |all| <= n ==>
      (Found(graph, g) <==> Transitive(graph, g))
  }

  lemma {:induction false} ExactUpToEight(n: nat)
    requires n <= MAX_DEPTH
    ensures ExactUpTo(n)
  {
    forall graph: Graph, g, all | Closed(graph, all) && g in all && |all| <= n
      ensures Found(graph, g) <==> Transitive(graph, g)
    {
      FoundIsExact(graph, g, all);
    }
  }

  lemma {:induction false} NotExactFromNine(n: nat)
    requires n > MAX_DEPTH
    ensures !ExactUpTo(n)
  {
    ShortcutClosed();
    CountNames(9);
    ShortcutMissed();
    ShortcutNamed();
    if ExactUpTo(n) {
      hide Found, Transitive, Closed;
      InOneGraph(n, LateShortcut, Name(0), FirstNames(9));
    }
  }

  lemma {:induction false} ShortcutNamed()
    ensures Name(0) in FirstNames(9) && (Within(LateShortcut, Name(0), 3) ==> Transitive(LateShortcut, Name(0)))
  {
  }

  lemma {:induction false} InOneGraph(n: nat, graph: Graph, g: string, all: set<string>)
    requires ExactUpTo(n) && Closed(graph, all) && g in all && |all| <= n
    ensures Found(graph, g) <==> Transitive(graph, g)
  {
    hide Found, Transitive, Closed;
  }

  lemma {:induction false} ExactIffAtMostEight(n: nat)
    ensures ExactUpTo(n) <==> n <= MAX_DEPTH
  {
    if n <= MAX_DEPTH {
      ExactUpToEight(n);
    } else {
      NotExactFromNine(n);
    }
  }
}
