/** Evaluate of internal/kernel/authz/rbac.go: deny by default, root bypasses, and a role
    assignment grants on its scope and everything below it. */
module Evaluator {
  import opened Text
  import opened Listings
  import Scopes
  import Aliases
  import GroupSearch

  datatype Assignment = Assignment(id: string, scope: string, role: string, principal: string, principalType: string)

  datatype GroupMember = GroupMember(id: string, kind: string)

  // --------------------------- Matching a principal ---------------------------

  /** The tables that matching reads. */
  datatype Identities = Identities(directory: Aliases.Directory, members: string -> seq<GroupMember>)

  predicate IsKind(raw: string, kind: string) {
    ToLower(TrimSpace(raw)) == kind
  }

  /** One member row as the search sees it, for a caller with the given ids. */
  function Seen(st: Identities, callerIds: seq<string>, m: GroupMember): GroupSearch.Member {
    var hit := Aliases.Overlaps(callerIds, Aliases.PrincipalIds(st.directory, m.id));
    GroupSearch.Member(m.id, hit, IsKind(m.kind, "group"))
  }

  function GraphFor(st: Identities, callerIds: seq<string>): GroupSearch.Graph {
    g => MapSeq(st.members(g), (m: GroupMember) => Seen(st, callerIds, m))
  }

  predicate NestedMember(st: Identities, callerIds: seq<string>, a: Assignment) {
    && (IsKind(a.principalType, "") || IsKind(a.principalType, "group"))
    && callerIds != []
    && GroupSearch.Found(GraphFor(st, callerIds), a.principal)
  }

  /** principalMatches: the same id, overlapping aliases, or nested membership. */
  predicate PrincipalMatches(st: Identities, a: Assignment, principal: string) {
    var callerIds := Aliases.PrincipalIds(st.directory, principal);
    || (TrimSpace(a.principal) != "" && a.principal == principal)
    || Aliases.Overlaps(callerIds, Aliases.PrincipalIds(st.directory, a.principal))
    || NestedMember(st, callerIds, a)
  }

  method CheckNested(st: Identities, callerIds: seq<string>, a: Assignment) returns (ok: bool)
    ensures ok <==> NestedMember(st, callerIds, a)
  {
    var kind := ToLower(TrimSpace(a.principalType));
    if kind != "" && kind != "group" { return false; }
    if callerIds == [] { return false; }
    var search := new GroupSearch.Searcher(GraphFor(st, callerIds));
    ok := search.Contains(a.principal, 0);
  }

  method CheckPrincipal(st: Identities, a: Assignment, principal: string) returns (ok: bool)
    ensures ok <==> PrincipalMatches(st, a, principal)
  {
    if TrimSpace(a.principal) != "" && a.principal == principal { return true; }
    var callerIds := Aliases.ListPrincipalIds(st.directory, principal);
    var assignIds := Aliases.ListPrincipalIds(st.directory, a.principal);
    var same := Aliases.IdSetsOverlap(callerIds, assignIds);
    if same { return true; }
    ok := CheckNested(st, callerIds, a);
  }

  // ------------------------ Membership, on the tables alone ------------------------

  /** The word "group", in any letter case and with white space around it. */
  ghost predicate GroupKind(raw: string) {
    exists core :: Wraps(raw, core) && SameText(core, "group")
  }

  /** Two ids that are not blank and, white space aside, stand for the same thing. */
  ghost predicate StandForOne(dir: Aliases.Directory, x: string, y: string) {
    exists u, v :: Wraps(x, u) && Wraps(y, v) && u != "" && v != "" && Aliases.Canon(dir, u) == Aliases.Canon(dir, v)
  }

  /** The caller is a member through at most `n` groups, `g` the first. */
  ghost predicate MemberWithin(st: Identities, caller: string, g: string, n: nat)
    decreases n, 1
  {
    n > 0 && g != "" && exists m :: m in st.members(g) && Through(st, caller, m, n)
  }

  /** A row that is the caller, or a group that has the caller as a member. */
  ghost predicate Through(st: Identities, caller: string, m: GroupMember, n: nat)
    requires n > 0
    decreases n, 0
  {
    StandForOne(st.directory, caller, m.id) || (GroupKind(m.kind) && MemberWithin(st, caller, m.id, n - 1))
  }

  ghost predicate TransitiveMember(st: Identities, caller: string, g: string) {
    exists n :: MemberWithin(st, caller, g, n)
  }

  /** The assignment is for what the caller stands for or, unless it is typed as something other
      than a group, for a group that has the caller as a transitive member. */
  ghost predicate IsFor(st: Identities, a: Assignment, caller: string) {
    || StandForOne(st.directory, caller, a.principal)
    || ((IsBlank(a.principalType) || GroupKind(a.principalType)) && TransitiveMember(st, caller, a.principal))
  }

  /** `all` holds every group that one of its groups lists. */
  ghost predicate Closed(st: Identities, all: set<string>) {
    forall g :: g in all ==> ListsOnly(st.members(g), all)
  }

  ghost predicate ListsOnly(ms: seq<GroupMember>, all: set<string>) {
    forall m :: m in ms && GroupKind(m.kind) && m.id != "" ==> m.id in all
  }

  /** The groups to reach from a group are at most eight. */
  ghost predicate FewGroups(st: Identities, g: string) {
    exists all :: Closed(st, all) && g in all && |all| <= 8
  }

  lemma {:induction false} KindIff(raw: string)
    ensures IsKind(raw, "group") <==> GroupKind(raw)
    ensures IsKind(raw, "") <==> IsBlank(raw)
  {
    GroupIff(raw);
    BlankIff(raw);
    hide GroupKind, TrimSpace, IsBlank;
  }

  lemma {:induction false} GroupIff(raw: string)
    ensures ToLower(TrimSpace(raw)) == "group" <==> GroupKind(raw)
  {
    hide Wraps, SameText, TrimSpace, ToLower;
    forall core ensures core == TrimSpace(raw) <==> Wraps(raw, core) {
      TrimSpaceIff(raw, core);
    }
    GroupWord(TrimSpace(raw));
  }

  lemma {:induction false} GroupWord(core: string)
    ensures ToLower(core) == "group" <==> SameText(core, "group")
  {
    LowerIffSame(core, "group");
    hide SameText;
    assert ToLower("group") == "group";
  }

  lemma {:induction false} StandIff(dir: Aliases.Directory, x: string, y: string)
    ensures StandForOne(dir, x, y) <==>
              && TrimSpace(x) != "" && TrimSpace(y) != ""
              && Aliases.Canon(dir, TrimSpace(x)) == Aliases.Canon(dir, TrimSpace(y))
  {
    hide Wraps, TrimSpace, Aliases.Canon;
    forall z, core ensures core == TrimSpace(z) <==> Wraps(z, core) {
      TrimSpaceIff(z, core);
    }
    assert Wraps(x, TrimSpace(x)) && Wraps(y, TrimSpace(y));
  }

  /** The listed ids of two principals overlap exactly when they stand for one thing. */
  lemma {:induction false} OverlapIff(dir: Aliases.Directory, x: string, y: string)
    requires Aliases.UniqueIds(dir) && Aliases.TrimmedIds(dir)
    ensures Aliases.Overlaps(Aliases.PrincipalIds(dir, x), Aliases.PrincipalIds(dir, y)) <==> StandForOne(dir, x, y)
  {
    hide TrimSpace, StandForOne, Aliases.Canon, Aliases.AliasesOf, Aliases.AddAll, Aliases.UniqueIds,
      Aliases.TrimmedIds;
    StandIff(dir, x, y);
    IdsOfTrimmed(dir, x);
    IdsOfTrimmed(dir, y);
    if TrimSpace(x) != "" && TrimSpace(y) != "" {
      Aliases.MatchesIffSameCanon(dir, TrimSpace(x), TrimSpace(y));
    }
  }

  lemma {:induction false} IdsOfTrimmed(dir: Aliases.Directory, x: string)
    ensures TrimSpace(TrimSpace(x)) == TrimSpace(x)
    ensures Aliases.PrincipalIds(dir, x) == Aliases.PrincipalIds(dir, TrimSpace(x))
  {
    TrimSpaceIdempotent(x);
    hide TrimSpace, Aliases.AliasesOf, Aliases.AddAll;
  }

  /** What the search sees of a row. */
  lemma {:induction false} SeenIs(st: Identities, caller: string, m: GroupMember)
    requires Aliases.UniqueIds(st.directory) && Aliases.TrimmedIds(st.directory)
    ensures var s := Seen(st, Aliases.PrincipalIds(st.directory, caller), m);
            s.id == m.id && (s.hit <==> StandForOne(st.directory, caller, m.id)) && (s.group <==> GroupKind(m.kind))
  {
    OverlapIff(st.directory, caller, m.id);
    KindIff(m.kind);
    hide StandForOne, GroupKind, IsKind, Aliases.Overlaps, Aliases.PrincipalIds;
  }

  lemma {:induction false} WithinIff(st: Identities, caller: string, graph: GroupSearch.Graph, g: string, n: nat)
    requires Aliases.UniqueIds(st.directory) && Aliases.TrimmedIds(st.directory)
    requires graph == GraphFor(st, Aliases.PrincipalIds(st.directory, caller))
    ensures GroupSearch.Within(graph, g, n) <==> MemberWithin(st, caller, g, n)
    decreases n
  {
    hide Seen, StandForOne, GroupKind;
    if n > 0 {
      var ms, rows := graph(g), st.members(g);
      forall i | 0 <= i < |rows| ensures GroupSearch.HitThrough(graph, ms[i], n) <==> Through(st, caller, rows[i], n) {
        SeenIs(st, caller, rows[i]);
        WithinIff(st, caller, graph, rows[i].id, n - 1);
      }
      hide GroupSearch.HitThrough, Through;
      if m :| m in ms && GroupSearch.HitThrough(graph, m, n) {
        var i :| 0 <= i < |ms| && ms[i] == m;
        assert rows[i] in rows;
      }
      if m :| m in rows && Through(st, caller, m, n) {
        var i :| 0 <= i < |rows| && rows[i] == m;
        assert ms[i] in ms;
      }
    }
  }

  lemma {:induction false} TransitiveIff(st: Identities, caller: string, g: string)
    requires Aliases.UniqueIds(st.directory) && Aliases.TrimmedIds(st.directory)
    ensures GroupSearch.Transitive(GraphFor(st, Aliases.PrincipalIds(st.directory, caller)), g)
       <==> TransitiveMember(st, caller, g)
  {
    var graph := GraphFor(st, Aliases.PrincipalIds(st.directory, caller));
    hide GroupSearch.Within, MemberWithin, GraphFor;
    forall n: nat ensures GroupSearch.Within(graph, g, n) <==> MemberWithin(st, caller, g, n) {
      WithinIff(st, caller, graph, g, n);
    }
  }

  lemma {:induction false} ClosedIs(st: Identities, caller: string, all: set<string>)
    requires Aliases.UniqueIds(st.directory) && Aliases.TrimmedIds(st.directory) && Closed(st, all)
    ensures GroupSearch.Closed(GraphFor(st, Aliases.PrincipalIds(st.directory, caller)), all)
  {
    var graph := GraphFor(st, Aliases.PrincipalIds(st.directory, caller));
    hide Seen, GroupKind;
    forall g | g in all ensures GroupSearch.ClosedMembers(graph(g), all) {
      assert ListsOnly(st.members(g), all);
      forall m | m in graph(g) && m.group && m.id != "" ensures m.id in all {
        var i :| 0 <= i < |graph(g)| && graph(g)[i] == m;
        SeenIs(st, caller, st.members(g)[i]);
      }
    }
  }

  /** A caller whose id is blank is nobody, and a member of nothing. */
  lemma {:induction false} BlankIsNobody(st: Identities, caller: string, g: string, n: nat)
    requires TrimSpace(caller) == ""
    ensures !MemberWithin(st, caller, g, n)
    decreases n
  {
    TrimSpaceIff(caller, "");
    forall u | Wraps(caller, u) ensures u == "" {
      TrimSpaceIff(caller, u);
    }
    if n > 0 {
      forall m | m in st.members(g) ensures !Through(st, caller, m, n) {
        BlankIsNobody(st, caller, m.id, n - 1);
      }
    }
  }

  lemma {:induction false} OwnId(dir: Aliases.Directory, x: string)
    ensures TrimSpace(x) != "" ==> StandForOne(dir, x, x)
  {
    hide Wraps, TrimSpace, Aliases.Canon;
    TrimmedWraps(x);
  }

  /** principalMatches is a search for the caller in the tables. */
  lemma {:induction false} MatchingIsSearch(st: Identities, a: Assignment, caller: string)
    requires Aliases.UniqueIds(st.directory) && Aliases.TrimmedIds(st.directory)
    ensures var ids := Aliases.PrincipalIds(st.directory, caller);
            PrincipalMatches(st, a, caller) <==>
              || StandForOne(st.directory, caller, a.principal)
              || ((IsBlank(a.principalType) || GroupKind(a.principalType))
                  && ids != [] && GroupSearch.Found(GraphFor(st, ids), a.principal))
  {
    hide Aliases.PrincipalIds, GraphFor, IsKind, GroupKind, IsBlank, StandForOne, TrimSpace, GroupSearch.Found,
      Aliases.UniqueIds, Aliases.TrimmedIds, Aliases.Overlaps;
    OverlapIff(st.directory, caller, a.principal);
    KindIff(a.principalType);
    OwnId(st.directory, a.principal);
  }

  /** With unique ids, whatever the groups: who is matched is whom the assignment is for. */
  lemma {:induction false} MatchingIsSound(st: Identities, a: Assignment, caller: string)
    requires Aliases.UniqueIds(st.directory) && Aliases.TrimmedIds(st.directory)
    requires PrincipalMatches(st, a, caller)
    ensures IsFor(st, a, caller)
  {
    hide PrincipalMatches, StandForOne, GroupKind, TransitiveMember, GroupSearch.Transitive;
    MatchingIsSearch(st, a, caller);
    TransitiveIff(st, caller, a.principal);
    if !StandForOne(st.directory, caller, a.principal) {
      GroupSearch.FoundIsSound(GraphFor(st, Aliases.PrincipalIds(st.directory, caller)), a.principal);
    }
  }

  /** And with at most eight groups to reach, conversely. */
  lemma {:induction false} MatchingIsExact(st: Identities, a: Assignment, caller: string)
    requires Aliases.UniqueIds(st.directory) && Aliases.TrimmedIds(st.directory) && FewGroups(st, a.principal)
    ensures PrincipalMatches(st, a, caller) <==> IsFor(st, a, caller)
  {
    var ids := Aliases.PrincipalIds(st.directory, caller);
    var all :| Closed(st, all) && a.principal in all && |all| <= 8;
    hide PrincipalMatches, StandForOne, GroupKind, GroupSearch.Transitive, Closed;
    MatchingIsSearch(st, a, caller);
    TransitiveIff(st, caller, a.principal);
    ClosedIs(st, caller, all);
    GroupSearch.FoundIsExact(GraphFor(st, ids), a.principal, all);
    if ids == [] {
      NoIds(st, caller, a.principal);
    }
  }

  lemma {:induction false} NoIds(st: Identities, caller: string, g: string)
    requires Aliases.PrincipalIds(st.directory, caller) == []
    ensures !TransitiveMember(st, caller, g)
  {
    var id := TrimSpace(caller);
    if id != "" {
      Aliases.AddAllKeeps([id], Aliases.AliasesOf(st.directory, id));
    }
    forall n: nat ensures !MemberWithin(st, caller, g, n) {
      BlankIsNobody(st, caller, g, n);
    }
  }

  // ------------------------------- Evaluation -------------------------------

  /** Whether an assignment is for a principal: PrincipalMatches on the tables of the moment. */
  type Matcher = (Assignment, string) -> bool

  /** The role catalogue: whether a role definition grants an action. */
  type Catalogue = (string, string) -> bool

  function MatcherOf(st: Identities): Matcher {
    (a: Assignment, principal: string) => PrincipalMatches(st, a, principal)
  }

  function OnScope(scope: string): Assignment -> bool {
    (a: Assignment) => a.scope == scope
  }

  /** The rows of exactly that scope, in their order. */
  method ListRoleAssignmentsForScope(rows: seq<Assignment>, scope: string) returns (out: seq<Assignment>)
    ensures out == Filter(rows, OnScope(scope))
  {
    out := [];
    for i := 0 to |rows|
      invariant out == Filter(rows[..i], OnScope(scope))
    {
      assert rows[..i + 1] == rows[..i] + [rows[i]];
      FilterAppend(rows[..i], rows[i], OnScope(scope));
      if rows[i].scope == scope {
        out := out + [rows[i]];
      }
    }
    assert rows[..|rows|] == rows;
  }

  predicate Confers(matches: Matcher, grants: Catalogue, a: Assignment, principal: string, action: string) {
    matches(a, principal) && grants(a.role, action)
  }

  /** Some assignment on the scope chain confers the action. */
  predicate Allowed(rows: seq<Assignment>, matches: Matcher, grants: Catalogue,
      principal: string, action: string, scope: string) {
    && principal != "" && action != "" && scope != ""
    && AllowedOn(rows, matches, grants, principal, action, Scopes.ScopeChain(scope))
  }

  predicate AllowedOn(rows: seq<Assignment>, matches: Matcher, grants: Catalogue,
      principal: string, action: string, chain: seq<string>) {
    exists a :: a in rows && a.scope in chain && Confers(matches, grants, a, principal, action)
  }

  method Evaluate(rows: seq<Assignment>, st: Identities, grants: Catalogue,
      principal: string, isRoot: bool, action: string, scope: string) returns (yes: bool)
    ensures yes <==> isRoot || Allowed(rows, MatcherOf(st), grants, principal, action, scope)
  {
    if isRoot { return true; }
    if principal == "" || action == "" || scope == "" { return false; }
    var chain := Scopes.ListScopeChain(scope);
    yes := AnyOnChain(rows, st, grants, chain, principal, action);
  }

  method AnyOnChain(rows: seq<Assignment>, st: Identities, grants: Catalogue,
      chain: seq<string>, principal: string, action: string) returns (yes: bool)
    ensures yes <==> AllowedOn(rows, MatcherOf(st), grants, principal, action, chain)
  {
    hide PrincipalMatches;
    ghost var matches := MatcherOf(st);
    for i := 0 to |chain|
      invariant forall a :: a in rows && a.scope in chain[..i] ==> !Confers(matches, grants, a, principal, action)
    {
      assert chain[..i + 1] == chain[..i] + [chain[i]];
      var listed := ListRoleAssignmentsForScope(rows, chain[i]);
      forall a ensures a in listed <==> a in rows && a.scope == chain[i] {
        FilterHolds(rows, OnScope(chain[i]), a);
      }
      for j := 0 to |listed|
        invariant forall k :: 0 <= k < j ==> !Confers(matches, grants, listed[k], principal, action)
      {
        assert listed[j] in listed;
        var same := CheckPrincipal(st, listed[j], principal);
        if same && grants(listed[j].role, action) { return true; }
      }
    }
    assert chain[..|chain|] == chain;
    return false;
  }

  // ------------------------------ What it decides ------------------------------

  /** On the scope itself or on a '/'-boundary ancestor. */
  predicate Covers(a: Assignment, scope: string) {
    a.scope == scope || Scopes.Above(a.scope, scope)
  }

  /** For a canonical scope: yes iff an assignment that covers it matches the principal and its
      role grants the action. */
  lemma {:induction false} EvaluateIsExact(rows: seq<Assignment>, matches: Matcher, grants: Catalogue,
      principal: string, action: string, scope: string)
    requires Scopes.Canonical(scope) && principal != "" && action != ""
    ensures Allowed(rows, matches, grants, principal, action, scope) <==>
              exists a :: a in rows && Covers(a, scope) && Confers(matches, grants, a, principal, action)
  {
    var chain := Scopes.ScopeChain(scope);
    forall p: string ensures p in chain <==> p == scope || Scopes.Above(p, scope) {
      Scopes.CanonicalChain(scope, p);
    }
    ChainCovers(rows, matches, grants, principal, action, scope, chain);
  }

  lemma {:induction false} ChainCovers(rows: seq<Assignment>, matches: Matcher, grants: Catalogue,
      principal: string, action: string, scope: string, chain: seq<string>)
    requires forall p :: p in chain <==> p == scope || Scopes.Above(p, scope)
    ensures AllowedOn(rows, matches, grants, principal, action, chain) <==>
              exists a :: a in rows && Covers(a, scope) && Confers(matches, grants, a, principal, action)
  {
  }

  /** The evaluator as a whole, over its directory, groups, assignments and roles: a caller other
      than root may do the action on the scope exactly when some assignment on the scope or a
      '/'-boundary ancestor is for the caller, as itself or through groups, and its role grants
      the action. */
  lemma {:induction false} EvaluatorIsExact(rows: seq<Assignment>, st: Identities, grants: Catalogue,
      principal: string, action: string, scope: string)
    requires Scopes.Canonical(scope) && principal != "" && action != ""
    requires Aliases.UniqueIds(st.directory) && Aliases.TrimmedIds(st.directory)
    requires forall a :: a in rows && Covers(a, scope) && grants(a.role, action) ==> FewGroups(st, a.principal)
    ensures Allowed(rows, MatcherOf(st), grants, principal, action, scope) <==>
              exists a :: a in rows && Covers(a, scope) && grants(a.role, action) && IsFor(st, a, principal)
  {
    EvaluateIsExact(rows, MatcherOf(st), grants, principal, action, scope);
    hide PrincipalMatches, IsFor, FewGroups;
    forall a | a in rows && Covers(a, scope) && grants(a.role, action)
      ensures Confers(MatcherOf(st), grants, a, principal, action) <==> IsFor(st, a, principal)
    {
      MatchingIsExact(st, a, principal);
    }
  }

  lemma {:induction false} AboveTransitive(p: string, q: string, r: string)
    requires Scopes.Above(p, q) && Scopes.Above(q, r)
    ensures Scopes.Above(p, r)
  {
    assert q == (q + "/")[..|q|] == r[..|q|];
  }

  /** For every scope, canonical or not: the ancestors are those of the scope stripped of its outer
      slashes and given one leading slash. */
  lemma {:induction false} EvaluateOnAnyScope(rows: seq<Assignment>, matches: Matcher, grants: Catalogue,
      principal: string, action: string, scope: string)
    requires principal != "" && action != "" && scope != ""
    ensures Allowed(rows, matches, grants, principal, action, scope) <==>
              exists a :: a in rows && Confers(matches, grants, a, principal, action)
                       && (a.scope == scope || Scopes.Above(a.scope, "/" + TrimBoth(scope, IsSlash)))
  {
    var chain := Scopes.ScopeChain(scope);
    forall p: string
      ensures p in chain <==> p == scope || Scopes.Above(p, "/" + TrimBoth(scope, IsSlash))
    {
      Scopes.ChainIsAncestors(scope, p);
    }
  }

  /** Whatever the assignments, the directory and the roles, what is allowed on `scope` is allowed
      on `below`. */
  ghost predicate Inherits(scope: string, below: string) {
    forall rows, matches: Matcher, grants: Catalogue, principal, action ::
      Allowed(rows, matches, grants, principal, action, scope) ==>
        Allowed(rows, matches, grants, principal, action, below)
  }

  /** That is so exactly for the scopes on the chain of `below`; nothing is allowed on "". */
  lemma {:induction false} InheritsIffOnChain(scope: string, below: string)
    ensures Inherits(scope, below) <==> scope == "" || scope in Scopes.ScopeChain(below)
  {
    hide Scopes.ScopeChain;
    if scope != "" && scope in Scopes.ScopeChain(below) {
      forall rows, matches: Matcher, grants: Catalogue, principal, action
        | Allowed(rows, matches, grants, principal, action, scope)
        ensures Allowed(rows, matches, grants, principal, action, below)
      {
        AllowedBelow(rows, matches, grants, principal, action, scope, below);
      }
    } else if scope != "" {
      var a := Assignment("", scope, "", "p", "");
      var all: (Assignment, string) -> bool, any: (string, string) -> bool := (_, _) => true, (_, _) => true;
      OwnScope(scope);
      assert a in [a] && Confers(all, any, a, "p", "act");
      assert Allowed([a], all, any, "p", "act", scope) && !Allowed([a], all, any, "p", "act", below);
    }
  }

  lemma {:induction false} OwnScope(scope: string)
    ensures scope in Scopes.ScopeChain(scope)
  {
    Scopes.ChainIsAncestors(scope, scope);
  }

  lemma {:induction false} AllowedBelow(rows: seq<Assignment>, matches: Matcher, grants: Catalogue,
      principal: string, action: string, scope: string, below: string)
    requires Allowed(rows, matches, grants, principal, action, scope) && scope in Scopes.ScopeChain(below)
    ensures Allowed(rows, matches, grants, principal, action, below)
  {
    var a :| a in rows && a.scope in Scopes.ScopeChain(scope) && Confers(matches, grants, a, principal, action);
    Scopes.ChainsNest(a.scope, scope, below);
    if below == "" {
      EmptyChain(scope);
    }
  }

  lemma {:induction false} EmptyChain(p: string)
    requires p in Scopes.ScopeChain("")
    ensures p == ""
  {
    Scopes.ChainIsAncestors("", p);
    assert TrimBoth("", IsSlash) == "";
  }

  /** What is allowed on a scope is allowed on everything below it. */
  lemma {:induction false} GrantsAreInherited(rows: seq<Assignment>, matches: Matcher, grants: Catalogue,
      principal: string, action: string, scope: string, below: string)
    requires Scopes.Canonical(scope) && Scopes.Canonical(below) && Scopes.Above(scope, below)
    requires Allowed(rows, matches, grants, principal, action, scope)
    ensures Allowed(rows, matches, grants, principal, action, below)
  {
    EvaluateIsExact(rows, matches, grants, principal, action, scope);
    EvaluateIsExact(rows, matches, grants, principal, action, below);
    var a :| a in rows && Covers(a, scope) && Confers(matches, grants, a, principal, action);
    if a.scope != scope {
      AboveTransitive(a.scope, scope, below);
    }
  }

  /** A sibling whose name merely extends the granted scope's name gets nothing from it. */
  lemma {:induction false} GrantsDoNotLeak(rows: seq<Assignment>, matches: Matcher, grants: Catalogue,
      principal: string, action: string, scope: string, more: string)
    requires more != "" && more[0] != '/' && Scopes.Canonical(scope + more)
    requires forall a :: a in rows && Confers(matches, grants, a, principal, action) ==> a.scope == scope
    ensures !Allowed(rows, matches, grants, principal, action, scope + more)
  {
    if principal != "" && action != "" {
      EvaluateIsExact(rows, matches, grants, principal, action, scope + more);
      assert (scope + more)[|scope|] != (scope + "/")[|scope|];
    }
  }

  /** More assignments never revoke. */
  lemma {:induction false} MoreNeverRevokes(rows: seq<Assignment>, more: seq<Assignment>,
      matches: Matcher, grants: Catalogue, principal: string, action: string, scope: string)
    requires forall a :: a in rows ==> a in more
    requires Allowed(rows, matches, grants, principal, action, scope)
    ensures Allowed(more, matches, grants, principal, action, scope)
  {
  }

  function Under(prefix: string): Assignment -> bool {
    (a: Assignment) => Scopes.UnderPrefix(prefix, a.scope)
  }

  /** ORDER BY id */
  predicate IdOrder(a: Assignment, b: Assignment) {
    AtMost(a.id, b.id)
  }

  lemma {:induction false} IdOrderIsOrder()
    ensures IsOrder(IdOrder)
  {
    forall a, b ensures IdOrder(a, b) || IdOrder(b, a) {
      LessTotal(a.id, b.id);
    }
    forall a, b, c | IdOrder(a, b) && IdOrder(b, c) ensures IdOrder(a, c) {
      if Less(a.id, b.id) && Less(b.id, c.id) {
        LessTransitive(a.id, b.id, c.id);
      }
    }
  }

  /** The rows under the prefix, each as often as it is there, by id. The chain walk agrees: an
      assignment that a walk from its own scope would find at `prefix` is among them. */
  method ListRoleAssignmentsByScopePrefix(rows: seq<Assignment>, prefix: string) returns (out: seq<Assignment>)
    ensures multiset(out) == multiset(Filter(rows, Under(prefix))) && Sorted(out, IdOrder)
    ensures forall a :: a in rows && Scopes.Canonical(a.scope) && prefix in Scopes.ScopeChain(a.scope) ==> a in out
  {
    hide Scopes.UnderPrefix, Scopes.ScopeChain, Scopes.Canonical;
    IdOrderIsOrder();
    out := [];
    for i := 0 to |rows|
      invariant multiset(out) == multiset(Filter(rows[..i], Under(prefix))) && Sorted(out, IdOrder)
    {
      assert rows[..i + 1] == rows[..i] + [rows[i]];
      FilterAppend(rows[..i], rows[i], Under(prefix));
      if Scopes.UnderPrefix(prefix, rows[i].scope) {
        InsertedSorted(out, rows[i], IdOrder);
        out := Inserted(out, rows[i], IdOrder);
      }
    }
    assert rows[..|rows|] == rows;
    forall a | a in rows && Scopes.Canonical(a.scope) && prefix in Scopes.ScopeChain(a.scope) ensures a in out {
      Scopes.ChainMembersListIt(prefix, a.scope);
      FilterHolds(rows, Under(prefix), a);
      assert a in multiset(out);
    }
  }
}
