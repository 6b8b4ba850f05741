/** Directory aliases of a principal id (internal/store/arm.go) and their use in matching
    (internal/kernel/authz/rbac.go): when do two ids name the same principal? */
module Aliases {
  import opened Outcomes
  import opened Text

  datatype App = App(objectId: string, appId: string)

  datatype ServicePrincipal = ServicePrincipal(id: string, appId: string)

  datatype Directory = Directory(apps: seq<App>, sps: seq<ServicePrincipal>)

  /** COALESCE(NULLIF(object_id, ''), app_id) */
  function ObjectId(a: App): string {
    if a.objectId == "" then a.appId else a.objectId
  }

  /** GetServicePrincipal: a row whose id or app id is `id`. */
  function FindSp(sps: seq<ServicePrincipal>, id: string): (r: Option<ServicePrincipal>)
    ensures r.Some? ==> r.value in sps && (r.value.id == id || r.value.appId == id)
    ensures r.None? ==> forall s :: s in sps ==> s.id != id && s.appId != id
  {
    if sps == [] then None
    else if sps[0].id == id || sps[0].appId == id then Some(sps[0])
    else FindSp(sps[1..], id)
  }

  predicate Selects(a: App, id: string) {
    a.appId == id || a.objectId == id
  }

  predicate NoRepeats(s: seq<string>) {
    forall i, j :: 0 <= i < j < |s| ==> s[i] != s[j]
  }

  /** The add closure: trim, drop blanks and repeats. */
  function Add(out: seq<string>, v: string): (r: seq<string>)
    ensures NoRepeats(out) ==> NoRepeats(r)
    ensures TrimSpace(v) != "" ==> forall x :: x in r <==> x in out || x == TrimSpace(v)
    ensures TrimSpace(v) == "" ==> r == out
  {
    var t := TrimSpace(v);
    if t == "" || t in out then out else out + [t]
  }

  function AddSp(out: seq<string>, sp: Option<ServicePrincipal>): (r: seq<string>)
    ensures NoRepeats(out) ==> NoRepeats(r)
  {
    if sp.None? then out else Add(Add(out, sp.value.id), sp.value.appId)
  }

  function AddApps(dir: Directory, out: seq<string>, apps: seq<App>, id: string): (r: seq<string>)
    ensures NoRepeats(out) ==> NoRepeats(r)
    decreases |apps|
  {
    if apps == [] then out
    else if !Selects(apps[0], id) then AddApps(dir, out, apps[1..], id)
    else
      var withApp := Add(Add(out, ObjectId(apps[0])), apps[0].appId);
      AddApps(dir, AddSp(withApp, FindSp(dir.sps, apps[0].appId)), apps[1..], id)
  }

  /** ListPrincipalAliases, in order. */
  function AliasesOf(dir: Directory, raw: string): seq<string> {
    var id := TrimSpace(raw);
    if id == "" then [] else AliasesOfId(dir, id)
  }

  function AliasesOfId(dir: Directory, id: string): seq<string> {
    AddApps(dir, AddSp([id], FindSp(dir.sps, id)), dir.apps, id)
  }

  method ListPrincipalAliases(dir: Directory, raw: string) returns (out: seq<string>)
    ensures out == AliasesOf(dir, raw) && NoRepeats(out)
  {
    var id := TrimSpace(raw);
    if id == "" { return []; }
    out := [id];
    var sp := FindSp(dir.sps, id);
    if sp.Some? {
      out := Add(out, sp.value.id);
      out := Add(out, sp.value.appId);
    }
    assert dir.apps[0..] == dir.apps;
    for i := 0 to |dir.apps|
      invariant AddApps(dir, out, dir.apps[i..], id) == AliasesOf(dir, raw)
    {
      var a := dir.apps[i];
      assert dir.apps[i..][0] == a && dir.apps[i..][1..] == dir.apps[i + 1..];
      if Selects(a, id) {
        out := Add(out, ObjectId(a));
        out := Add(out, a.appId);
        out := AddSp(out, FindSp(dir.sps, a.appId));
      }
    }
  }

  function AddAll(out: seq<string>, more: seq<string>): (r: seq<string>)
    ensures NoRepeats(out) ==> NoRepeats(r)
    decreases |more|
  {
    if more == [] then out else AddAll(Add(out, more[0]), more[1..])
  }

  lemma {:induction false} AddAllKeeps(out: seq<string>, more: seq<string>)
    ensures |out| <= |AddAll(out, more)|
    decreases |more|
  {
    if more != [] {
      AddAllKeeps(Add(out, more[0]), more[1..]);
    }
  }

  /** principalIDs: the id itself, then its aliases. */
  function PrincipalIds(dir: Directory, raw: string): seq<string> {
    var id := TrimSpace(raw);
    if id == "" then [] else AddAll([id], AliasesOf(dir, id))
  }

  method ListPrincipalIds(dir: Directory, raw: string) returns (out: seq<string>)
    ensures out == PrincipalIds(dir, raw) && NoRepeats(out)
  {
    var id := TrimSpace(raw);
    if id == "" { return []; }
    out := [id];
    var more := ListPrincipalAliases(dir, id);
    assert more[0..] == more;
    for i := 0 to |more|
      invariant AddAll(out, more[i..]) == PrincipalIds(dir, raw)
    {
      assert more[i..][0] == more[i] && more[i..][1..] == more[i + 1..];
      out := Add(out, more[i]);
    }
  }

  predicate Overlaps(a: seq<string>, b: seq<string>) {
    exists x :: x in a && x in b
  }

  /** idSetsOverlap: a set of one list, probed with the other. */
  method IdSetsOverlap(a: seq<string>, b: seq<string>) returns (r: bool)
    ensures r <==> Overlaps(a, b)
  {
    if a == [] || b == [] { return false; }
    var ids: set<string> := {};
    for i := 0 to |a|
      invariant forall x :: x in ids <==> x in a[..i]
    {
      ids := ids + {a[i]};
    }
    assert a[..|a|] == a;
    for i := 0 to |b|
      invariant forall j :: 0 <= j < i ==> b[j] !in ids
    {
      if b[i] in ids { return true; }
    }
    return false;
  }

  // ------------------------- Directories with unique ids -------------------------

  predicate Trimmed(id: string) {
    id != "" && TrimSpace(id) == id
  }

  ghost predicate TrimmedIds(dir: Directory) {
    && (forall a {:trigger TrimmedApp(a)} :: a in dir.apps ==> TrimmedApp(a))
    && (forall s {:trigger TrimmedSp(s)} :: s in dir.sps ==> TrimmedSp(s))
  }

  ghost predicate TrimmedApp(a: App) {
    Trimmed(a.appId) && Trimmed(ObjectId(a))
  }

  ghost predicate TrimmedSp(s: ServicePrincipal) {
    Trimmed(s.id) && Trimmed(s.appId)
  }

  ghost predicate AppsApart(a: App, b: App) {
    a.appId == b.appId || ObjectId(a) == ObjectId(b) || ObjectId(a) == b.appId ==> a == b
  }

  ghost predicate SpsApart(s: ServicePrincipal, t: ServicePrincipal) {
    (s.id == t.id || s.appId == t.appId ==> s == t) && s.id != t.appId
  }

  /** A service principal shares an id with an application only as its app id. */
  ghost predicate AppAndSpApart(a: App, s: ServicePrincipal) {
    s.id != a.appId && s.id != ObjectId(a) && (s.appId == ObjectId(a) ==> s.appId == a.appId)
  }

  /** Every id names one thing. */
  ghost predicate UniqueIds(dir: Directory) {
    && (forall a, b {:trigger AppsApart(a, b)} :: a in dir.apps && b in dir.apps ==> AppsApart(a, b))
    && (forall s, t {:trigger SpsApart(s, t)} :: s in dir.sps && t in dir.sps ==> SpsApart(s, t))
    && (forall a, s {:trigger AppAndSpApart(a, s)} :: a in dir.apps && s in dir.sps ==> AppAndSpApart(a, s))
  }

  predicate Names(a: App, id: string) {
    a.appId == id || ObjectId(a) == id
  }

  function FindApp(apps: seq<App>, id: string): (r: Option<App>)
    ensures r.Some? ==> r.value in apps && Names(r.value, id)
    ensures r.None? ==> forall a :: a in apps ==> !Names(a, id)
  {
    if apps == [] then None
    else if Names(apps[0], id) then Some(apps[0])
    else FindApp(apps[1..], id)
  }

  /** The app id that an id stands for; an id that is not in the directory stands for itself. */
  function Canon(dir: Directory, id: string): string {
    var app, sp := FindApp(dir.apps, id), FindSp(dir.sps, id);
    if app.Some? then app.value.appId
    else if sp.Some? then sp.value.appId
    else id
  }

  lemma {:induction false} CanonOfApp(dir: Directory, a: App, id: string)
    requires UniqueIds(dir) && a in dir.apps && Names(a, id)
    ensures Canon(dir, id) == a.appId
  {
    var b := FindApp(dir.apps, id).value;
    assert AppsApart(a, b) && AppsApart(b, a);
  }

  lemma {:induction false} CanonOfSp(dir: Directory, s: ServicePrincipal, id: string)
    requires UniqueIds(dir) && s in dir.sps && (s.id == id || s.appId == id)
    ensures Canon(dir, id) == s.appId && FindSp(dir.sps, id) == Some(s)
  {
    var t := FindSp(dir.sps, id).value;
    assert SpsApart(s, t) && SpsApart(t, s);
    if FindApp(dir.apps, id).Some? {
      assert AppAndSpApart(FindApp(dir.apps, id).value, s);
    }
  }

  /** Every listed id stands for `c`. */
  ghost predicate Within(dir: Directory, out: seq<string>, c: string) {
    forall x :: x in out ==> Canon(dir, x) == c
  }

  /** Adding an id that stands for `c`. */
  lemma {:induction false} AddWithin(dir: Directory, out: seq<string>, v: string, c: string)
    requires Within(dir, out, c) && Trimmed(v) && Canon(dir, v) == c
    ensures Within(dir, Add(out, v), c) && v in Add(out, v) && forall x :: x in out ==> x in Add(out, v)
  {
  }

  lemma {:induction false} AddSpWithin(dir: Directory, out: seq<string>, id: string, c: string)
    requires UniqueIds(dir) && TrimmedIds(dir) && Within(dir, out, c) && Canon(dir, id) == c
    ensures var r := AddSp(out, FindSp(dir.sps, id));
            Within(dir, r, c) && (forall x :: x in out ==> x in r)
            && (FindSp(dir.sps, id).Some? ==> FindSp(dir.sps, id).value.appId in r)
  {
    var sp := FindSp(dir.sps, id);
    if sp.Some? {
      assert TrimmedSp(sp.value);
      CanonOfSp(dir, sp.value, id);
      CanonOfSp(dir, sp.value, sp.value.id);
      CanonOfSp(dir, sp.value, sp.value.appId);
      AddWithin(dir, out, sp.value.id, c);
      AddWithin(dir, Add(out, sp.value.id), sp.value.appId, c);
    }
  }

  /** One application row. */
  lemma {:induction false} AddAppWithin(dir: Directory, out: seq<string>, a: App, c: string)
    requires UniqueIds(dir) && TrimmedIds(dir) && Within(dir, out, c) && a in dir.apps && a.appId == c
    ensures var r := AddSp(Add(Add(out, ObjectId(a)), a.appId), FindSp(dir.sps, a.appId));
            Within(dir, r, c) && c in r && forall x :: x in out ==> x in r
  {
    assert TrimmedApp(a);
    CanonOfApp(dir, a, ObjectId(a));
    CanonOfApp(dir, a, a.appId);
    AddWithin(dir, out, ObjectId(a), c);
    AddWithin(dir, Add(out, ObjectId(a)), a.appId, c);
    AddSpWithin(dir, Add(Add(out, ObjectId(a)), a.appId), a.appId, c);
  }

  lemma {:induction false} AddAppsWithin(dir: Directory, out: seq<string>, apps: seq<App>, id: string, c: string)
    requires UniqueIds(dir) && TrimmedIds(dir) && Within(dir, out, c) && Canon(dir, id) == c && id != ""
    requires forall a :: a in apps ==> a in dir.apps
    ensures var r := AddApps(dir, out, apps, id);
            && Within(dir, r, c) && (forall x :: x in out ==> x in r)
            && (forall a :: a in apps && Selects(a, id) ==> c in r)
    decreases |apps|
  {
    if apps != [] {
      var a, rest := apps[0], apps[1..];
      assert a in apps && forall x :: x in apps <==> x == a || x in rest;
      if Selects(a, id) {
        CanonOfApp(dir, a, id);
        AddAppWithin(dir, out, a, c);
        AddAppsWithin(dir, AddSp(Add(Add(out, ObjectId(a)), a.appId), FindSp(dir.sps, a.appId)), rest, id, c);
      } else {
        AddAppsWithin(dir, out, rest, id, c);
      }
    }
  }

  /** An id's alias list holds the id, what it stands for, and nothing that stands for anything else. */
  lemma {:induction false} AliasesStandForCanon(dir: Directory, id: string)
    requires UniqueIds(dir) && TrimmedIds(dir) && id != ""
    ensures var out := AliasesOfId(dir, id);
            id in out && Canon(dir, id) in out && Within(dir, out, Canon(dir, id))
  {
    var c := Canon(dir, id);
    AddSpWithin(dir, [id], id, c);
    AddAppsWithin(dir, AddSp([id], FindSp(dir.sps, id)), dir.apps, id, c);
    if FindApp(dir.apps, id).Some? {
      assert Selects(FindApp(dir.apps, id).value, id);
    }
  }

  lemma {:induction false} AddAllTrimmed(out: seq<string>, more: seq<string>)
    requires forall x :: x in more ==> Trimmed(x)
    ensures forall x :: x in AddAll(out, more) <==> x in out || x in more
    decreases |more|
  {
    if more != [] {
      var v, rest := more[0], more[1..];
      assert v in more && forall x :: x in more <==> x == v || x in rest;
      AddAllTrimmed(Add(out, v), rest);
    }
  }

  lemma {:induction false} AddKeepsTrimmed(out: seq<string>, v: string)
    requires forall x :: x in out ==> Trimmed(x)
    ensures forall x :: x in Add(out, v) ==> Trimmed(x)
  {
    TrimSpaceIdempotent(v);
  }

  lemma {:induction false} AppsTrimmed(dir: Directory, out: seq<string>, apps: seq<App>, id: string)
    requires forall x :: x in out ==> Trimmed(x)
    ensures forall x :: x in AddApps(dir, out, apps, id) ==> Trimmed(x)
    decreases |apps|
  {
    if apps != [] {
      if Selects(apps[0], id) {
        var sp := FindSp(dir.sps, apps[0].appId);
        AddKeepsTrimmed(out, ObjectId(apps[0]));
        AddKeepsTrimmed(Add(out, ObjectId(apps[0])), apps[0].appId);
        var out1 := Add(Add(out, ObjectId(apps[0])), apps[0].appId);
        SpTrimmed(out1, sp);
        AppsTrimmed(dir, AddSp(out1, sp), apps[1..], id);
      } else {
        AppsTrimmed(dir, out, apps[1..], id);
      }
    }
  }

  lemma {:induction false} SpTrimmed(out: seq<string>, sp: Option<ServicePrincipal>)
    requires forall x :: x in out ==> Trimmed(x)
    ensures forall x :: x in AddSp(out, sp) ==> Trimmed(x)
  {
    if sp.Some? {
      AddKeepsTrimmed(out, sp.value.id);
      AddKeepsTrimmed(Add(out, sp.value.id), sp.value.appId);
    }
  }

  /** principalIDs lists the same ids as ListPrincipalAliases. */
  lemma {:induction false} PrincipalIdsAreAliases(dir: Directory, id: string)
    requires Trimmed(id)
    ensures forall x :: x in PrincipalIds(dir, id) <==> x == id || x in AliasesOf(dir, id)
  {
    SpTrimmed([id], FindSp(dir.sps, id));
    AppsTrimmed(dir, AddSp([id], FindSp(dir.sps, id)), dir.apps, id);
    AddAllTrimmed([id], AliasesOf(dir, id));
  }

  ghost predicate Matches(dir: Directory, a: string, b: string) {
    Overlaps(PrincipalIds(dir, a), PrincipalIds(dir, b))
  }

  /** Two ids match exactly when they stand for the same thing, so matching is reflexive,
      symmetric and transitive. */
  lemma {:induction false} MatchesIffSameCanon(dir: Directory, a: string, b: string)
    requires UniqueIds(dir) && TrimmedIds(dir) && Trimmed(a) && Trimmed(b)
    ensures Matches(dir, a, b) <==> Canon(dir, a) == Canon(dir, b)
  {
    PrincipalIdsAreAliases(dir, a);
    PrincipalIdsAreAliases(dir, b);
    AliasesStandForCanon(dir, a);
    AliasesStandForCanon(dir, b);
    if Canon(dir, a) == Canon(dir, b) {
      assert Canon(dir, a) in PrincipalIds(dir, a) && Canon(dir, a) in PrincipalIds(dir, b);
    }
  }

  lemma {:induction false} MatchesIsAnEquivalence(dir: Directory, a: string, b: string, c: string)
    requires UniqueIds(dir) && TrimmedIds(dir) && Trimmed(a) && Trimmed(b) && Trimmed(c)
    ensures Matches(dir, a, a)
    ensures Matches(dir, a, b) ==> Matches(dir, b, a)
    ensures Matches(dir, a, b) && Matches(dir, b, c) ==> Matches(dir, a, c)
  {
    MatchesIffSameCanon(dir, a, a);
    MatchesIffSameCanon(dir, a, b);
    MatchesIffSameCanon(dir, b, a);
    MatchesIffSameCanon(dir, b, c);
    MatchesIffSameCanon(dir, a, c);
  }

  /** The class of an application: its object id, its app id, and its service principal's id. */
  lemma {:induction false} ClassOfAnApplication(dir: Directory, a: App, x: string)
    requires UniqueIds(dir) && TrimmedIds(dir) && a in dir.apps && Trimmed(x)
    ensures Matches(dir, a.appId, x) <==> Names(a, x) || exists s :: s in dir.sps && s.appId == a.appId && s.id == x
  {
    assert TrimmedApp(a);
    MatchesIffSameCanon(dir, a.appId, x);
    CanonOfApp(dir, a, a.appId);
    if Names(a, x) {
      CanonOfApp(dir, a, x);
    } else if exists s :: s in dir.sps && s.appId == a.appId && s.id == x {
      var s :| s in dir.sps && s.appId == a.appId && s.id == x;
      CanonOfSp(dir, s, x);
    } else if FindApp(dir.apps, x).Some? {
      assert AppsApart(a, FindApp(dir.apps, x).value);
    }
  }

  /** An id outside the directory is alone in its class. */
  lemma {:induction false} ClassOfAStranger(dir: Directory, a: string, x: string)
    requires UniqueIds(dir) && TrimmedIds(dir) && Trimmed(a) && Trimmed(x)
    requires FindApp(dir.apps, a).None? && FindSp(dir.sps, a).None?
    ensures Matches(dir, a, x) <==> x == a
  {
    MatchesIffSameCanon(dir, a, x);
  }

  lemma {:induction false} AddTwo(x: string, y: string)
    requires TrimSpace(x) == x && TrimSpace(y) == y && y != "" && x != y
    ensures Add(Add([x], x), y) == [x, y]
  {
    hide TrimSpace;
  }

  lemma {:induction false} SpList(dir: Directory, s: ServicePrincipal)
    requires UniqueIds(dir) && TrimmedIds(dir) && s in dir.sps
    ensures AliasesOfId(dir, s.id) == [s.id, s.appId]
  {
    CanonOfSp(dir, s, s.id);
    assert SpsApart(s, s) && TrimmedSp(s);
    AddTwo(s.id, s.appId);
    forall b | b in dir.apps ensures !Selects(b, s.id) {
      assert AppAndSpApart(b, s);
    }
    NoAppSelected(dir, [s.id, s.appId], dir.apps, s.id);
  }

  /** Although a service principal's own list does not hold the object id. */
  lemma {:induction false} SpListOmitsObjectId(dir: Directory, a: App, s: ServicePrincipal)
    requires UniqueIds(dir) && TrimmedIds(dir) && a in dir.apps && s in dir.sps && s.appId == a.appId
    requires ObjectId(a) != a.appId
    ensures AliasesOf(dir, s.id) == [s.id, s.appId] && ObjectId(a) !in AliasesOf(dir, s.id)
    ensures Matches(dir, s.id, ObjectId(a))
  {
    SpList(dir, s);
    assert AppAndSpApart(a, s) && TrimmedSp(s) && TrimmedApp(a);
    MatchesIffSameCanon(dir, s.id, ObjectId(a));
    CanonOfApp(dir, a, ObjectId(a));
    CanonOfSp(dir, s, s.id);
  }

  lemma {:induction false} NoAppSelected(dir: Directory, out: seq<string>, apps: seq<App>, id: string)
    requires forall a :: a in apps ==> !Selects(a, id)
    ensures AddApps(dir, out, apps, id) == out
    decreases |apps|
  {
    if apps != [] {
      assert apps[0] in apps;
      NoAppSelected(dir, out, apps[1..], id);
    }
  }
}
