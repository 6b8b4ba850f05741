/** ARM scopes seen two ways: the ancestors that scopeChain walks (internal/kernel/authz/rbac.go)
    and the descendants that a LIKE prefix selects (internal/store/sql_like.go). */
module Scopes {
  import opened Text

  function Parts(scope: string): seq<string> {
    Split(TrimBoth(scope, IsSlash), '/')
  }

  function ParentAt(parts: seq<string>, i: nat): string
    requires i <= |parts|
  {
    "/" + Join(parts[..i], '/')
  }

  function ParentsUpTo(scope: string, parts: seq<string>, i: nat): seq<string>
    requires i <= |parts|
  {
    if i == 0 then []
    else (if ParentAt(parts, i) != scope then [ParentAt(parts, i)] else []) + ParentsUpTo(scope, parts, i - 1)
  }

  /** The scope itself, then its ancestors, nearest first. */
  function ScopeChain(scope: string): seq<string> {
    [scope] + ParentsUpTo(scope, Parts(scope), |Parts(scope)| - 1)
  }

  method ListScopeChain(scope: string) returns (out: seq<string>)
    ensures out == ScopeChain(scope)
  {
    var parts := Parts(scope);
    var parents := ListParents(scope, parts);
    out := [scope] + parents;
  }

  /** The loop, from the longest parent down. */
  method ListParents(scope: string, parts: seq<string>) returns (out: seq<string>)
    requires parts != []
    ensures out == ParentsUpTo(scope, parts, |parts| - 1)
  {
    out := [];
    for i := |parts| downto 1
      invariant out + ParentsUpTo(scope, parts, i - 1) == ParentsUpTo(scope, parts, |parts| - 1)
    {
      var parent := ParentAt(parts, i);
      ghost var rest := ParentsUpTo(scope, parts, i - 1);
      assert out + ([parent] + rest) == (out + [parent]) + rest;
      if parent != scope {
        out := out + [parent];
      }
    }
  }

  // ------------------------- What the chain contains -------------------------

  /** A proper ancestor at a '/' boundary. */
  predicate Above(p: string, scope: string) {
    p != "" && p + "/" <= scope
  }

  lemma {:induction false} JoinTake(h: string, tail: seq<string>, i: nat)
    requires 1 <= i <= |tail| + 1
    ensures Join(([h] + tail)[..i], '/') == if i == 1 then h else h + "/" + Join(tail[..i - 1], '/')
  {
    var taken := ([h] + tail)[..i];
    if i == 1 {
      assert taken == [h];
    } else {
      assert taken == [h] + tail[..i - 1] && taken[1..] == tail[..i - 1];
    }
  }

  lemma {:induction false} SplitHead(t: string)
    requires '/' in t
    ensures var k := IndexOf(t, '/');
            k >= 0 && t == t[..k] + "/" + t[k + 1..] && Split(t, '/') == [t[..k]] + Split(t[k + 1..], '/')
  {
  }

  lemma {:induction false} NoSlash(t: string)
    requires '/' !in t
    ensures |Split(t, '/')| == 1
  {
  }

  lemma {:induction false} Shift(a: string, x: string, y: string)
    requires x <= y
    ensures a + x <= a + y
  {
    assert y == x + y[|x|..];
    assert a + y == (a + x) + y[|x|..];
  }

  lemma {:induction false} PartsArePrefixes(t: string, i: nat)
    requires 1 <= i < |Split(t, '/')|
    ensures Join(Split(t, '/')[..i], '/') + "/" <= t
    decreases |t|
  {
    hide Split, Join, IndexOf;
    if '/' !in t {
      NoSlash(t);
    }
    SplitHead(t);
    var k := IndexOf(t, '/');
    var h, rest := t[..k], t[k + 1..];
    var tail := Split(rest, '/');
    JoinTake(h, tail, i);
    if i > 1 {
      PartsArePrefixes(rest, i - 1);
      var j := Join(tail[..i - 1], '/') + "/";
      Shift(h + "/", j, rest);
      assert h + "/" + Join(tail[..i - 1], '/') + "/" == (h + "/") + j;
    }
  }

  lemma {:induction false} PrefixesAreParts(t: string, q: string) returns (i: nat)
    requires q + "/" <= t
    ensures 1 <= i < |Split(t, '/')| && Join(Split(t, '/')[..i], '/') == q
    decreases |t|
  {
    hide Split, Join, IndexOf;
    SlashAfter(t, q);
    SplitHead(t);
    var k := IndexOf(t, '/');
    var tail := Split(t[k + 1..], '/');
    if k == |q| {
      JoinTake(t[..k], tail, 1);
      i := 1;
    } else {
      PrefixTail(t, q, k);
      var j := PrefixesAreParts(t[k + 1..], q[k + 1..]);
      JoinTake(t[..k], tail, j + 1);
      i := j + 1;
    }
  }

  lemma {:induction false} SlashAfter(t: string, q: string)
    requires q + "/" <= t
    ensures '/' in t && IndexOf(t, '/') <= |q| && q == t[..|q|]
  {
    assert t[..|q| + 1] == q + "/";
    assert t[|q|] == '/' && t[..|q|] == q;
  }

  lemma {:induction false} PrefixTail(t: string, q: string, k: nat)
    requires q + "/" <= t && k < |q| && t[k] == '/'
    ensures q == t[..k] + "/" + q[k + 1..] && q[k + 1..] + "/" <= t[k + 1..]
  {
    assert (q + "/")[k + 1..] == q[k + 1..] + "/";
    assert t[..|q| + 1] == q + "/";
    assert t[k + 1..][..|q| - k] == t[..|q| + 1][k + 1..];
  }

  ghost predicate IsParent(parts: seq<string>, i: nat, p: string)
    requires i <= |parts|
  {
    exists j :: 1 <= j <= i && ParentAt(parts, j) == p
  }

  lemma {:induction false} InParents(scope: string, parts: seq<string>, i: nat, p: string)
    requires i <= |parts|
    ensures p in ParentsUpTo(scope, parts, i) <==> p != scope && IsParent(parts, i, p)
  {
    if i > 0 {
      InParents(scope, parts, i - 1, p);
    }
  }

  lemma {:induction false} ParentsAreAbove(t: string, p: string)
    ensures IsParent(Split(t, '/'), |Split(t, '/')| - 1, p) <==> Above(p, "/" + t)
  {
    var parts := Split(t, '/');
    if IsParent(parts, |parts| - 1, p) {
      var j :| 1 <= j <= |parts| - 1 && ParentAt(parts, j) == p;
      PartsArePrefixes(t, j);
      Shift("/", Join(parts[..j], '/') + "/", t);
      assert p + "/" == "/" + (Join(parts[..j], '/') + "/");
    }
    if Above(p, "/" + t) {
      assert p[0] == (p + "/")[0] == ("/" + t)[0];
      assert p == "/" + p[1..];
      assert p[1..] + "/" == (p + "/")[1..] <= ("/" + t)[1..] == t;
      var i := PrefixesAreParts(t, p[1..]);
      assert ParentAt(parts, i) == p;
    }
  }

  /** For every scope whatsoever, the chain holds the scope and the '/'-boundary ancestors of the
      scope stripped of its outer slashes and given one leading slash. */
  lemma {:induction false} ChainIsAncestors(scope: string, p: string)
    ensures p in ScopeChain(scope) <==> p == scope || Above(p, "/" + TrimBoth(scope, IsSlash))
  {
    hide ScopeChain, Above, TrimBoth, Split, IsParent;
    InChain(scope, p);
    ParentsAreAbove(TrimBoth(scope, IsSlash), p);
  }

  lemma {:induction false} InChain(scope: string, p: string)
    ensures p in ScopeChain(scope) <==> p == scope || IsParent(Parts(scope), |Parts(scope)| - 1, p)
  {
    hide Split, TrimBoth, ParentsUpTo, IsParent;
    var parts := Parts(scope);
    InHeadAndParents(scope, parts, p);
    ChainOfParts(scope, parts);
  }

  lemma {:induction false} ChainOfParts(scope: string, parts: seq<string>)
    requires parts == Parts(scope)
    ensures parts != [] && ScopeChain(scope) == [scope] + ParentsUpTo(scope, parts, |parts| - 1)
  {
    hide Split, TrimBoth, ParentsUpTo;
  }

  lemma {:induction false} InHeadAndParents(scope: string, parts: seq<string>, p: string)
    requires parts != []
    ensures p in [scope] + ParentsUpTo(scope, parts, |parts| - 1) <==> p == scope || IsParent(parts, |parts| - 1, p)
  {
    var parents := ParentsUpTo(scope, parts, |parts| - 1);
    InParents(scope, parts, |parts| - 1, p);
    assert p in [scope] + parents <==> p == scope || p in parents;
  }

  lemma {:induction false} TrimmedWithin(scope: string, t: string)
    requires scope != "" && scope + "/" <= "/" + t && (t != "" ==> t[0] != '/')
    ensures "/" + TrimBoth(scope, IsSlash) <= scope
  {
    assert scope[0] == (scope + "/")[0] == '/';
    var rest := scope[1..];
    assert scope == "/" + rest;
    if rest != "" {
      assert rest[0] == (scope + "/")[1] == ("/" + t)[1] == t[0];
    }
    TrimmedLeft(scope, rest);
    hide TrimLeft;
    assert TrimRight(rest, IsSlash) <= rest;
  }

  lemma {:induction false} AboveWithin(p: string, q: string, scope: string, r: string)
    requires Above(p, q) && q <= scope && scope + "/" <= r
    ensures Above(p, r)
  {
    assert (p + "/") == q[..|p| + 1] == scope[..|p| + 1] == (scope + "/")[..|p| + 1] == r[..|p| + 1];
  }

  /** Chains nest, for every scope whatsoever: what is on the chain of a member is on the chain. */
  lemma {:induction false} ChainsNest(p: string, scope: string, below: string)
    requires p in ScopeChain(scope) && scope in ScopeChain(below)
    ensures p in ScopeChain(below)
  {
    hide ScopeChain;
    ChainIsAncestors(scope, p);
    ChainIsAncestors(below, scope);
    ChainIsAncestors(below, p);
    if p != scope && scope != below {
      var t := TrimBoth(below, IsSlash);
      TrimmedHead(below);
      TrimmedWithin(scope, t);
      AboveWithin(p, "/" + TrimBoth(scope, IsSlash), scope, "/" + t);
    }
  }

  lemma {:induction false} TrimmedHead(s: string)
    ensures var t := TrimBoth(s, IsSlash); t != "" ==> t[0] != '/'
  {
    var l := TrimLeft(s, IsSlash);
    var t := TrimRight(l, IsSlash);
    assert t != "" ==> t[0] == l[0];
  }

  /** One leading slash, no trailing slash. */
  predicate Canonical(scope: string) {
    scope == "/" || (|scope| >= 2 && scope[0] == '/' && scope[1] != '/' && scope[|scope| - 1] != '/')
  }

  lemma {:induction false} CanonicalRooted(scope: string)
    requires Canonical(scope)
    ensures "/" + TrimBoth(scope, IsSlash) == scope
  {
    var rest := scope[1..];
    assert scope == "/" + rest;
    if rest == "" {
      assert TrimLeft("", IsSlash) == "" && TrimRight("", IsSlash) == "";
      TrimmedLeft(scope, "");
    } else {
      assert rest[|rest| - 1] == scope[|scope| - 1];
      TrimmedLeft(scope, rest);
      hide TrimLeft;
      assert TrimRight(rest, IsSlash) == rest;
    }
  }

  lemma {:induction false} TrimmedLeft(scope: string, rest: string)
    requires scope == "/" + rest && (rest == "" || rest[0] != '/')
    ensures TrimLeft(scope, IsSlash) == rest
  {
    assert scope[1..] == rest;
    assert TrimLeft(rest, IsSlash) == rest;
  }

  /** For a canonical scope, the chain is the scope and its '/'-boundary ancestors, exactly. */
  lemma {:induction false} CanonicalChain(scope: string, p: string)
    requires Canonical(scope)
    ensures p in ScopeChain(scope) <==> p == scope || Above(p, scope)
  {
    CanonicalRooted(scope);
    ChainIsAncestors(scope, p);
  }

  // ------------------------------ LIKE patterns ------------------------------

  /** strings.ReplaceAll of one character. */
  function ReplaceAll(s: string, c: char, with: string): string {
    if s == "" then ""
    else (if s[0] == c then with else [s[0]]) + ReplaceAll(s[1..], c, with)
  }

  /** likeEscape: three passes, the escape character first. */
  function LikeEscape(s: string): string {
    ReplaceAll(ReplaceAll(ReplaceAll(s, '\\', "\\\\"), '%', "\\%"), '_', "\\_")
  }

  predicate IsMeta(c: char) {
    c == '\\' || c == '%' || c == '_'
  }

  function EscapeOne(c: char): string {
    if IsMeta(c) then ['\\', c] else [c]
  }

  /** Escaping in one pass. */
  function Escaped(s: string): string {
    if s == "" then "" else EscapeOne(s[0]) + Escaped(s[1..])
  }

  function LikePrefixChildren(prefix: string): string {
    LikeEscape(prefix) + "/%"
  }

  lemma {:induction false} ReplaceConcat(a: string, b: string, c: char, with: string)
    ensures ReplaceAll(a + b, c, with) == ReplaceAll(a, c, with) + ReplaceAll(b, c, with)
  {
    if a == "" {
      assert a + b == b;
    } else {
      ReplaceConcat(a[1..], b, c, with);
      assert (a + b)[1..] == a[1..] + b && (a + b)[0] == a[0];
      var head := if a[0] == c then with else [a[0]];
      var x, y := ReplaceAll(a[1..], c, with), ReplaceAll(b, c, with);
      assert (head + x) + y == head + (x + y);
    }
  }

  lemma {:induction false} ReplaceShort(x: char, y: char, c: char, with: string)
    ensures ReplaceAll([x], c, with) == if x == c then with else [x]
    ensures ReplaceAll([x, y], c, with) == (if x == c then with else [x]) + (if y == c then with else [y])
  {
    assert [x][1..] == "" && [x, y][1..] == [y] && [y][1..] == "";
  }

  lemma {:induction false} EscapeChar(c: char)
    ensures LikeEscape([c]) == EscapeOne(c)
  {
    ReplaceShort(c, c, '\\', "\\\\");
    ReplaceShort(c, c, '%', "\\%");
    ReplaceShort(c, c, '_', "\\_");
    ReplaceShort('\\', '\\', '%', "\\%");
    ReplaceShort('\\', '\\', '_', "\\_");
    ReplaceShort('\\', '%', '_', "\\_");
  }

  /** No pass disturbs what an earlier one wrote. */
  lemma {:induction false} EscapeInOnePass(s: string)
    ensures LikeEscape(s) == Escaped(s)
  {
    if s != "" {
      var a, b := [s[0]], s[1..];
      assert s == a + b;
      EscapeChar(s[0]);
      EscapeInOnePass(b);
      ReplaceConcat(a, b, '\\', "\\\\");
      var a1, b1 := ReplaceAll(a, '\\', "\\\\"), ReplaceAll(b, '\\', "\\\\");
      ReplaceConcat(a1, b1, '%', "\\%");
      ReplaceConcat(ReplaceAll(a1, '%', "\\%"), ReplaceAll(b1, '%', "\\%"), '_', "\\_");
    }
  }

  /** SQLite's LIKE with ESCAPE '\': case-insensitive on ASCII letters. */
  predicate Like(p: string, s: string)
    decreases |p| + |s|
  {
    if p == "" then s == ""
    else if p[0] == '%' then Like(p[1..], s) || (s != "" && Like(p, s[1..]))
    else if p[0] == '_' then s != "" && Like(p[1..], s[1..])
    else if p[0] == '\\' then |p| > 1 && s != "" && LowerChar(p[1]) == LowerChar(s[0]) && Like(p[2..], s[1..])
    else s != "" && LowerChar(p[0]) == LowerChar(s[0]) && Like(p[1..], s[1..])
  }

  lemma {:induction false} PercentMatchesAll(s: string)
    ensures Like("%", s)
    decreases |s|
  {
    assert "%"[1..] == "";
    if s != "" {
      PercentMatchesAll(s[1..]);
    }
  }

  /** An escaped character matches itself, up to case. */
  lemma {:induction false} EscapedCharLike(c: char, q: string, s: string)
    ensures Like(EscapeOne(c) + q, s) <==> s != "" && LowerChar(c) == LowerChar(s[0]) && Like(q, s[1..])
  {
    var p := EscapeOne(c) + q;
    if IsMeta(c) {
      assert p[2..] == q;
    } else {
      assert p[1..] == q;
    }
  }

  lemma {:induction false} LiteralLike(x: string, q: string, s: string)
    ensures Like(Escaped(x) + q, s) <==>
              |x| <= |s| && ToLower(x) == ToLower(s[..|x|]) && Like(q, s[|x|..])
    decreases |x|
  {
    if x == "" {
      assert Escaped(x) + q == q && s[0..] == s && s[..0] == "";
    } else {
      assert Escaped(x) + q == EscapeOne(x[0]) + (Escaped(x[1..]) + q);
      EscapedCharLike(x[0], Escaped(x[1..]) + q, s);
      if s != "" {
        LiteralLike(x[1..], q, s[1..]);
        LowerCons(x, s);
        assert |x| <= |s| ==> s[1..][|x| - 1..] == s[|x|..];
      }
    }
  }

  lemma {:induction false} LowerCons(x: string, s: string)
    requires x != "" && s != ""
    ensures |x| <= |s| ==>
              (ToLower(x) == ToLower(s[..|x|]) <==>
                 LowerChar(x[0]) == LowerChar(s[0]) && ToLower(x[1..]) == ToLower(s[1..][..|x| - 1]))
  {
    if |x| <= |s| {
      var y := s[..|x|];
      assert y[1..] == s[1..][..|x| - 1];
      assert ToLower(x) == [LowerChar(x[0])] + ToLower(x[1..]);
      assert ToLower(y) == [LowerChar(y[0])] + ToLower(y[1..]);
    }
  }

  /** The pattern selects exactly the strings that extend prefix + "/", up to ASCII case. */
  lemma {:induction false} PrefixPatternSelects(prefix: string, s: string)
    ensures Like(LikePrefixChildren(prefix), s) <==> ToLower(prefix) + "/" <= ToLower(s)
  {
    EscapeInOnePass(prefix);
    LiteralLike(prefix, "/%", s);
    if |prefix| <= |s| {
      var u := s[|prefix|..];
      assert "/%"[1..] == "%";
      if u != "" {
        PercentMatchesAll(u[1..]);
        assert Like("/%", u) <==> LowerChar('/') == LowerChar(u[0]);
        assert ToLower(s)[|prefix|] == LowerChar(u[0]);
      }
      assert ToLower(s)[..|prefix|] == ToLower(s[..|prefix|]);
    }
  }

  /** The WHERE clause of ListRoleAssignmentsByScopePrefix: scope = ? OR scope LIKE ? */
  predicate UnderPrefix(prefix: string, scope: string) {
    scope == prefix || Like(LikePrefixChildren(prefix), scope)
  }

  lemma {:induction false} LowerCanonical(scope: string)
    requires Canonical(scope)
    ensures Canonical(ToLower(scope))
  {
  }

  /** The two views agree up to ASCII case: a canonical scope is listed under a prefix iff it is
      the prefix, or the lower-cased prefix is a proper member of the lower-cased scope's chain; and
      under the empty prefix, which is in no chain, every canonical scope is listed. */
  lemma {:induction false} TwoViewsAgree(prefix: string, scope: string)
    requires Canonical(scope)
    ensures UnderPrefix(prefix, scope) <==>
              || prefix == "" || scope == prefix
              || (ToLower(prefix) != ToLower(scope) && ToLower(prefix) in ScopeChain(ToLower(scope)))
    ensures "" !in ScopeChain(scope)
  {
    PrefixPatternSelects(prefix, scope);
    LowerCanonical(scope);
    CanonicalChain(ToLower(scope), ToLower(prefix));
    CanonicalChain(scope, "");
    if prefix == "" {
      assert ToLower(scope)[0] == '/' && ToLower(prefix) + "/" == "/";
    }
  }

  lemma {:induction false} LowerAbove(prefix: string, scope: string)
    requires prefix + "/" <= scope
    ensures ToLower(prefix) + "/" <= ToLower(scope)
  {
    assert scope[..|prefix| + 1] == prefix + "/";
    assert ToLower(scope)[..|prefix|] == ToLower(prefix);
    assert ToLower(scope)[|prefix|] == '/';
  }

  /** So every chain member lists the scope... */
  lemma {:induction false} ChainMembersListIt(prefix: string, scope: string)
    requires Canonical(scope) && prefix in ScopeChain(scope)
    ensures UnderPrefix(prefix, scope)
  {
    CanonicalChain(scope, prefix);
    if prefix != scope {
      LowerAbove(prefix, scope);
      PrefixPatternSelects(prefix, scope);
    }
  }

  /** ... and, without letter-case differences, nothing else does. */
  lemma {:induction false} LowerCaseViewsAgree(prefix: string, scope: string)
    requires Canonical(scope) && prefix == ToLower(prefix) && scope == ToLower(scope)
    ensures UnderPrefix(prefix, scope) <==> prefix == "" || prefix in ScopeChain(scope)
  {
    TwoViewsAgree(prefix, scope);
    assert scope in ScopeChain(scope);
  }
}
