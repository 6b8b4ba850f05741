/** The depth-bounded redactor of internal/services/monitor/inject.go. A map is ranged over in no
    particular order and cut after 64 keys, so redaction is a relation: every result that some
    iteration order can produce. */
module Redaction {
  import opened Text

  datatype Json =
    | Obj(m: map<string, Json>)
    | Arr(items: seq<Json>)
    | Str(s: string)
    | Bool(b: bool)
    | Number(n: real)
    | Null

  const MAX_KEYS: nat := 64
  const MAX_STR: nat := 1024

  const REDACTED := Str("[REDACTED]")
  const TOO_DEEP := Str("[redacted:depth]")

  function Clip(s: string): string {
    if |s| > MAX_STR then s[..MAX_STR] + "..." else s
  }

  // ------------------------------ The relation ------------------------------

  /** redactInjectValue may return `out` for `v`. */
  ghost predicate RedactsTo(secret: string -> bool, v: Json, depth: int, out: Json)
    decreases if depth < 0 then 0 else depth, 1
  {
    if depth <= 0 then out == TOO_DEEP
    else
      match v
      case Obj(m) => out.Obj? && MapRedactsTo(secret, m, depth, out.m)
      case Arr(items) =>
        && out.Arr? && |out.items| == Cut(|items|)
        && forall i :: 0 <= i < |out.items| ==> RedactsTo(secret, items[i], depth - 1, out.items[i])
      case Str(s) => out == Str(Clip(s))
      case _ => out == v
  }

  function Cut(n: nat): nat {
    if n > MAX_KEYS then MAX_KEYS else n
  }

  /** redactInjectMap may return `out` for `m`. */
  ghost predicate MapRedactsTo(secret: string -> bool, m: map<string, Json>, depth: int, out: map<string, Json>)
    decreases if depth < 0 then 0 else depth, 0
  {
    if depth <= 0 then out == map["_redacted" := Str("depth")]
    else
      && (exists kept :: Keeps(m, kept) && out.Keys == KeysAfter(m, kept))
      && forall k :: k in out ==> EntryRedactsTo(secret, m, depth, k, out[k])
  }

  /** The keys that the loop got to. */
  ghost predicate Keeps(m: map<string, Json>, kept: set<string>) {
    kept <= m.Keys && |kept| == Cut(|m|)
  }

  function KeysAfter(m: map<string, Json>, kept: set<string>): set<string> {
    if |m| > MAX_KEYS then kept + {"_truncated"} else kept
  }

  ghost predicate EntryRedactsTo(secret: string -> bool, m: map<string, Json>, depth: int, k: string, out: Json)
    requires depth > 0
    decreases depth - 1, 2
  {
    if k == "_truncated" && |m| > MAX_KEYS then out == Bool(true)
    else k in m && if secret(k) then out == REDACTED else RedactsTo(secret, m[k], depth - 1, out)
  }

  ghost predicate PlainEntry(secret: string -> bool, v: Json, depth: int, k: string, out: Json)
    requires depth > 0
  {
    if secret(k) then out == REDACTED else RedactsTo(secret, v, depth - 1, out)
  }

  ghost predicate PlainEntries(secret: string -> bool, m: map<string, Json>, depth: int, got: map<string, Json>)
    requires depth > 0
  {
    got.Keys <= m.Keys && forall k :: k in got ==> PlainEntry(secret, m[k], depth, k, got[k])
  }

  lemma {:induction false} OneMoreEntry(secret: string -> bool, m: map<string, Json>, depth: int,
      got: map<string, Json>, k: string, o: Json)
    requires depth > 0 && PlainEntries(secret, m, depth, got)
    requires k in m && PlainEntry(secret, m[k], depth, k, o)
    ensures PlainEntries(secret, m, depth, got[k := o])
  {
  }

  lemma {:induction false} NoEntries(secret: string -> bool, m: map<string, Json>, depth: int)
    requires depth > 0
    ensures PlainEntries(secret, m, depth, map[])
  {
  }

  // ------------------------------- The methods -------------------------------

  method RedactMap(secret: string -> bool, m: map<string, Json>, depth: int) returns (out: map<string, Json>)
    ensures MapRedactsTo(secret, m, depth, out)
    decreases if depth < 0 then 0 else depth, 0
  {
    if depth <= 0 { return map["_redacted" := Str("depth")]; }
    out := RedactKeys(secret, m, depth);
    ghost var got := out;
    if |m| > MAX_KEYS {
      out := out["_truncated" := Bool(true)];
    }
    LoopResult(secret, m, depth, got, out);
  }

  /** The loop: keys in any order, no more than 64. */
  method RedactKeys(secret: string -> bool, m: map<string, Json>, depth: int) returns (out: map<string, Json>)
    requires depth > 0
    ensures Keeps(m, out.Keys) && PlainEntries(secret, m, depth, out)
    decreases depth - 1, 2
  {
    hide RedactsTo, PlainEntries, PlainEntry, Parted, Keeps;
    NoEntries(secret, m, depth);
    NoneDone(m.Keys);
    out := map[];
    var left := m.Keys;
    var count := 0;
    ghost var done: set<string> := {};
    while left != {} && count < MAX_KEYS
      invariant out.Keys == done && |done| == count <= MAX_KEYS && Parted(done, left, m.Keys)
      invariant PlainEntries(secret, m, depth, out)
      decreases |left|
    {
      var k :| k in left;
      OneMoved(done, left, m.Keys, k);
      var o := REDACTED;
      if !secret(k) {
        o := RedactValue(secret, m[k], depth - 1);
      }
      MadePlain(secret, m[k], depth, k, o);
      OneMoreEntry(secret, m, depth, out, k, o);
      out, left, count, done := out[k := o], left - {k}, count + 1, done + {k};
    }
    AllDone(m, done, left);
  }

  lemma {:induction false} MadePlain(secret: string -> bool, v: Json, depth: int, k: string, o: Json)
    requires depth > 0 && if secret(k) then o == REDACTED else RedactsTo(secret, v, depth - 1, o)
    ensures PlainEntry(secret, v, depth, k, o)
  {
  }

  /** The keys done and the keys left. */
  ghost predicate Parted(done: set<string>, left: set<string>, all: set<string>) {
    done !! left && done + left == all
  }

  lemma {:induction false} NoneDone(all: set<string>)
    ensures Parted({}, all, all)
  {
  }

  lemma {:induction false} OneMoved(done: set<string>, left: set<string>, all: set<string>, k: string)
    requires Parted(done, left, all) && k in left
    ensures k in all && Parted(done + {k}, left - {k}, all) && |done + {k}| == |done| + 1 && |left - {k}| < |left|
  {
  }

  /** The loop stops with every key done, or 64. */
  lemma {:induction false} AllDone(m: map<string, Json>, done: set<string>, left: set<string>)
    requires Parted(done, left, m.Keys) && |done| <= MAX_KEYS && (left == {} || |done| == MAX_KEYS)
    ensures Keeps(m, done)
  {
    assert |done + left| == |done| + |left|;
    assert |m| == |m.Keys|;
  }

  /** What the loop leaves, with the marker when it stopped early, is a result. */
  lemma {:induction false} LoopResult(secret: string -> bool, m: map<string, Json>, depth: int,
      got: map<string, Json>, out: map<string, Json>)
    requires depth > 0 && Keeps(m, got.Keys) && PlainEntries(secret, m, depth, got)
    requires out == if |m| > MAX_KEYS then got["_truncated" := Bool(true)] else got
    ensures MapRedactsTo(secret, m, depth, out)
  {
    forall k | k in out ensures EntryRedactsTo(secret, m, depth, k, out[k]) {
      if !(k == "_truncated" && |m| > MAX_KEYS) {
        assert PlainEntry(secret, m[k], depth, k, got[k]);
      }
    }
    assert out.Keys == KeysAfter(m, got.Keys);
  }

  ghost predicate PlainItems(secret: string -> bool, items: seq<Json>, depth: int, list: seq<Json>) {
    |list| <= |items| && forall i :: 0 <= i < |list| ==> RedactsTo(secret, items[i], depth, list[i])
  }

  lemma {:induction false} OneMoreItem(secret: string -> bool, items: seq<Json>, depth: int, list: seq<Json>, o: Json)
    requires PlainItems(secret, items, depth, list) && |list| < |items| && RedactsTo(secret, items[|list|], depth, o)
    ensures PlainItems(secret, items, depth, list + [o])
  {
    hide RedactsTo;
  }

  method RedactValue(secret: string -> bool, v: Json, depth: int) returns (out: Json)
    ensures RedactsTo(secret, v, depth, out)
    decreases if depth < 0 then 0 else depth, 1
  {
    if depth <= 0 { return TOO_DEEP; }
    match v
    case Obj(m) =>
      var o := RedactMap(secret, m, depth);
      out := Obj(o);
    case Arr(items) =>
      var n := |items|;
      if n > MAX_KEYS { n := MAX_KEYS; }
      var list: seq<Json> := [];
      for i := 0 to n
        invariant |list| == i && PlainItems(secret, items, depth - 1, list)
      {
        var o := RedactValue(secret, items[i], depth - 1);
        OneMoreItem(secret, items, depth - 1, list, o);
        list := list + [o];
      }
      out := Arr(list);
    case Str(s) =>
      out := if |s| > MAX_STR then Str(s[..MAX_STR] + "...") else v;
    case _ => out := v;
  }

  // --------------------------- What a result looks like ---------------------------

  /** At most `depth` levels of maps and lists; every sensitive key hidden; every map, list and
      string within its bound. */
  ghost predicate Safe(secret: string -> bool, v: Json, depth: nat)
    decreases depth
  {
    match v
    case Obj(m) =>
      && depth > 0 && |m| <= MAX_KEYS + 1
      && forall k :: k in m ==> Safe(secret, m[k], depth - 1) && (secret(k) ==> m[k] == REDACTED)
    case Arr(items) =>
      depth > 0 && |items| <= MAX_KEYS && forall i :: 0 <= i < |items| ==> Safe(secret, items[i], depth - 1)
    case Str(s) => |s| <= MAX_STR + 3
    case _ => true
  }

  /** Every result, whatever the iteration order. */
  lemma {:induction false} ResultsAreSafe(secret: string -> bool, v: Json, depth: nat, out: Json)
    requires !secret("_truncated") && RedactsTo(secret, v, depth, out)
    ensures Safe(secret, out, depth)
    decreases depth
  {
    if depth > 0 {
      match v
      case Obj(m) => MapResultsAreSafe(secret, m, depth, out.m);
      case Arr(items) =>
        forall i | 0 <= i < |out.items| ensures Safe(secret, out.items[i], depth - 1) {
          ResultsAreSafe(secret, items[i], depth - 1, out.items[i]);
        }
      case _ =>
    }
  }

  lemma {:induction false} MapResultsAreSafe(secret: string -> bool, m: map<string, Json>, depth: nat,
      out: map<string, Json>)
    requires !secret("_truncated") && depth > 0 && MapRedactsTo(secret, m, depth, out)
    ensures Safe(secret, Obj(out), depth)
    decreases depth, 0
  {
    var kept :| Keeps(m, kept) && out.Keys == KeysAfter(m, kept);
    forall k | k in out ensures Safe(secret, out[k], depth - 1) && (secret(k) ==> out[k] == REDACTED) {
      assert EntryRedactsTo(secret, m, depth, k, out[k]);
      if !secret(k) && !(k == "_truncated" && |m| > MAX_KEYS) {
        ResultsAreSafe(secret, m[k], depth - 1, out[k]);
      }
    }
    KeyCount(m, kept, out.Keys);
  }

  lemma {:induction false} KeyCount(m: map<string, Json>, kept: set<string>, keys: set<string>)
    requires Keeps(m, kept) && keys == KeysAfter(m, kept)
    ensures |keys| <= MAX_KEYS + 1
  {
    if "_truncated" in kept {
      assert kept + {"_truncated"} == kept;
    } else {
      assert |kept + {"_truncated"}| == |kept| + 1;
    }
  }

  /** Nothing to hide or to cut: no sensitive key, every bound kept, nested less than `depth`. */
  ghost predicate Tame(secret: string -> bool, v: Json, depth: nat)
    decreases depth
  {
    depth > 0 &&
    match v
    case Obj(m) => |m| <= MAX_KEYS && forall k :: k in m ==> !secret(k) && Tame(secret, m[k], depth - 1)
    case Arr(items) => |items| <= MAX_KEYS && forall i :: 0 <= i < |items| ==> Tame(secret, items[i], depth - 1)
    case Str(s) => |s| <= MAX_STR
    case _ => true
  }

  /** Such a value comes out as it is. */
  lemma {:induction false} TameIsUnchanged(secret: string -> bool, v: Json, depth: nat, out: Json)
    requires Tame(secret, v, depth) && RedactsTo(secret, v, depth, out)
    ensures out == v
    decreases depth
  {
    match v
    case Obj(m) =>
      SmallMapEntries(secret, m, depth, out.m);
      forall k | k in m ensures out.m[k] == m[k] {
        TameIsUnchanged(secret, m[k], depth - 1, out.m[k]);
      }
      assert out.m == m;
    case Arr(items) =>
      forall i | 0 <= i < |items| ensures out.items[i] == items[i] {
        TameIsUnchanged(secret, items[i], depth - 1, out.items[i]);
      }
      assert out.items == items;
    case _ =>
  }

  // ----------------------------- Idempotence -----------------------------

  /** No map that the redactor visits has more than 64 keys. */
  ghost predicate SmallMaps(secret: string -> bool, v: Json, depth: int)
    decreases if depth < 0 then 0 else depth
  {
    depth <= 0 ||
    match v
    case Obj(m) => |m| <= MAX_KEYS && forall k :: k in m && !secret(k) ==> SmallMaps(secret, m[k], depth - 1)
    case Arr(items) => forall i :: 0 <= i < Cut(|items|) ==> SmallMaps(secret, items[i], depth - 1)
    case _ => true
  }

  lemma {:induction false} ClipTwice(s: string)
    ensures Clip(Clip(s)) == Clip(s)
  {
    if |s| > MAX_STR {
      assert Clip(s)[..MAX_STR] == s[..MAX_STR];
    }
  }

  /** With small maps only, redacting a result again changes nothing. */
  lemma {:induction false} SmallIsIdempotent(secret: string -> bool, v: Json, depth: int, out: Json, again: Json)
    requires SmallMaps(secret, v, depth) && RedactsTo(secret, v, depth, out) && RedactsTo(secret, out, depth, again)
    ensures again == out
    decreases if depth < 0 then 0 else depth
  {
    if depth > 0 {
      match v
      case Obj(m) => SmallMapIsIdempotent(secret, m, depth, out.m, again.m);
      case Arr(items) =>
        forall i | 0 <= i < |out.items| ensures again.items[i] == out.items[i] {
          SmallIsIdempotent(secret, items[i], depth - 1, out.items[i], again.items[i]);
        }
        assert again.items == out.items;
      case Str(s) => ClipTwice(s);
      case _ =>
    }
  }

  /** A small map is redacted key by key. */
  lemma {:induction false} SmallMapEntries(secret: string -> bool, m: map<string, Json>, depth: int,
      out: map<string, Json>)
    requires depth > 0 && |m| <= MAX_KEYS && MapRedactsTo(secret, m, depth, out)
    ensures out.Keys == m.Keys
    ensures forall k :: k in m ==> if secret(k) then out[k] == REDACTED else RedactsTo(secret, m[k], depth - 1, out[k])
  {
    var kept :| Keeps(m, kept) && out.Keys == KeysAfter(m, kept);
    FullSubset(kept, m.Keys);
    forall k | k in m ensures if secret(k) then out[k] == REDACTED else RedactsTo(secret, m[k], depth - 1, out[k]) {
      assert EntryRedactsTo(secret, m, depth, k, out[k]);
    }
  }

  lemma {:induction false} FullSubset(a: set<string>, b: set<string>)
    requires a <= b && |a| == |b|
    ensures a == b
  {
    assert b == a + (b - a);
  }

  lemma {:induction false} SmallMapIsIdempotent(secret: string -> bool, m: map<string, Json>, depth: int,
      out: map<string, Json>, again: map<string, Json>)
    requires depth > 0 && |m| <= MAX_KEYS
    requires MapRedactsTo(secret, m, depth, out) && MapRedactsTo(secret, out, depth, again)
    requires forall k :: k in m && !secret(k) ==> SmallMaps(secret, m[k], depth - 1)
    ensures again == out
    decreases depth, 0
  {
    SmallMapEntries(secret, m, depth, out);
    assert |out.Keys| == |m.Keys|;
    SmallMapEntries(secret, out, depth, again);
    forall k | k in m ensures again[k] == out[k] {
      if !secret(k) {
        SmallIsIdempotent(secret, m[k], depth - 1, out[k], again[k]);
      }
    }
  }

  // ------------------- A large map can come out two ways -------------------

  lemma {:induction false} SubsetOfSize(s: set<string>, n: nat) returns (t: set<string>)
    requires n <= |s|
    ensures t <= s && |t| == n
    decreases |s|
  {
    if |s| == n {
      t := s;
    } else {
      var x :| x in s;
      t := SubsetOfSize(s - {x}, n);
    }
  }

  /** Every value has a result. */
  lemma {:induction false} SomeResult(secret: string -> bool, v: Json, depth: int) returns (out: Json)
    ensures RedactsTo(secret, v, depth, out)
    decreases if depth < 0 then 0 else depth, 1
  {
    if depth <= 0 {
      out := TOO_DEEP;
    } else {
      match v
      case Obj(m) =>
        var kept := SubsetOfSize(m.Keys, Cut(|m|));
        var o := MapResult(secret, m, kept, depth, map[]);
        out := Obj(o);
      case Arr(items) =>
        var list := ListResult(secret, items, Cut(|items|), depth, map[]);
        out := Arr(list);
      case Str(s) => out := Str(Clip(s));
      case _ => out := v;
    }
  }

  /** A result that keeps `kept`, with the entries of `given` as they are given. */
  lemma {:induction false} MapResult(secret: string -> bool, m: map<string, Json>, kept: set<string>, depth: int,
      given: map<string, Json>)
    returns (out: map<string, Json>)
    requires depth > 0 && Keeps(m, kept) && given.Keys <= kept && PlainEntries(secret, m, depth, given)
    ensures MapRedactsTo(secret, m, depth, out) && out.Keys == KeysAfter(m, kept)
    ensures forall k :: k in given && !(k == "_truncated" && |m| > MAX_KEYS) ==> out[k] == given[k]
    decreases depth, 0
  {
    var got := Entries(secret, m, kept, depth, given);
    out := if |m| > MAX_KEYS then got["_truncated" := Bool(true)] else got;
    LoopResult(secret, m, depth, got, out);
  }

  lemma {:induction false} Entries(secret: string -> bool, m: map<string, Json>, kept: set<string>, depth: int,
      given: map<string, Json>)
    returns (got: map<string, Json>)
    requires depth > 0 && kept <= m.Keys && given.Keys <= kept && PlainEntries(secret, m, depth, given)
    ensures got.Keys == kept && PlainEntries(secret, m, depth, got) && forall k :: k in given ==> got[k] == given[k]
    decreases depth - 1, 3, |kept - given.Keys|
  {
    hide PlainEntries, PlainEntry;
    got := given;
    if kept - given.Keys != {} {
      var k :| k in kept - given.Keys;
      var o := PlainResult(secret, m[k], depth, k);
      OneMoreEntry(secret, m, depth, given, k, o);
      assert kept - given[k := o].Keys == (kept - given.Keys) - {k};
      got := Entries(secret, m, kept, depth, given[k := o]);
    } else {
      NothingLeft(given.Keys, kept);
    }
  }

  lemma {:induction false} NothingLeft(a: set<string>, b: set<string>)
    requires a <= b && b - a == {}
    ensures a == b
  {
    forall x | x in b ensures x in a {
      assert x !in b - a;
    }
  }

  lemma {:induction false} PlainResult(secret: string -> bool, v: Json, depth: int, k: string) returns (o: Json)
    requires depth > 0
    ensures PlainEntry(secret, v, depth, k, o)
    decreases depth - 1, 2
  {
    if secret(k) {
      o := REDACTED;
    } else {
      o := SomeResult(secret, v, depth - 1);
    }
  }

  /** A result for the first `n` items, with the items of `given` as they are given. */
  lemma {:induction false} ListResult(secret: string -> bool, items: seq<Json>, n: nat, depth: int,
      given: map<nat, Json>) returns (list: seq<Json>)
    requires depth > 0 && n <= |items|
    requires forall i :: i in given ==> i < |items| && RedactsTo(secret, items[i], depth - 1, given[i])
    ensures |list| == n && PlainItems(secret, items, depth - 1, list)
    ensures forall i :: i in given && i < n ==> list[i] == given[i]
    decreases depth - 1, 2, n
  {
    hide RedactsTo;
    if n == 0 {
      list := [];
    } else {
      list := ListResult(secret, items, n - 1, depth, given);
      var o := if n - 1 in given then given[n - 1] else Null;
      if n - 1 !in given {
        o := SomeResult(secret, items[n - 1], depth - 1);
      }
      OneMoreItem(secret, items, depth - 1, list, o);
      list := list + [o];
    }
  }

  /** A map with too many keys loses another one when it is redacted again. */
  lemma {:induction false} LargeMapLosesAnotherKey(secret: string -> bool, m: map<string, Json>, depth: int)
    returns (out: map<string, Json>, again: map<string, Json>)
    requires depth > 0 && |m| > MAX_KEYS
    ensures MapRedactsTo(secret, m, depth, out) && MapRedactsTo(secret, out, depth, again) && again != out
  {
    var spare := m.Keys - {"_truncated"};
    assert |spare| >= |m.Keys| - 1 by {
      assert m.Keys <= spare + {"_truncated"};
      SetAtMost(m.Keys, spare, "_truncated");
    }
    var kept := SubsetOfSize(spare, MAX_KEYS);
    out := MapResult(secret, m, kept, depth, map[]);
    assert |out.Keys| == MAX_KEYS + 1;
    var lost :| lost in kept;
    var next := kept - {lost} + {"_truncated"};
    assert |next| == MAX_KEYS;
    again := MapResult(secret, out, next, depth, map[]);
    assert lost !in again && lost in out;
  }

  lemma {:induction false} SetAtMost(a: set<string>, b: set<string>, x: string)
    requires b == a - {x}
    ensures |a| <= |b| + 1
  {
    if x in a {
      assert a == b + {x};
    } else {
      assert a == b;
    }
  }

  lemma {:induction false} SmallMapWithALargeOne(secret: string -> bool, m: map<string, Json>, depth: int, k: string,
      o: Json, a: Json)
    returns (out: map<string, Json>, again: map<string, Json>)
    requires depth > 0 && |m| <= MAX_KEYS && k in m && !secret(k)
    requires RedactsTo(secret, m[k], depth - 1, o) && RedactsTo(secret, o, depth - 1, a) && a != o
    ensures MapRedactsTo(secret, m, depth, out) && MapRedactsTo(secret, out, depth, again) && again != out
  {
    out := MapResult(secret, m, m.Keys, depth, map[k := o]);
    assert |out.Keys| == |m.Keys|;
    again := MapResult(secret, out, out.Keys, depth, map[k := a]);
    assert again[k] != out[k];
  }

  lemma {:induction false} ListWithALargeMap(secret: string -> bool, items: seq<Json>, depth: int, i: nat, o: Json,
      a: Json)
    returns (out: seq<Json>, again: seq<Json>)
    requires depth > 0 && i < Cut(|items|)
    requires RedactsTo(secret, items[i], depth - 1, o) && RedactsTo(secret, o, depth - 1, a) && a != o
    ensures RedactsTo(secret, Arr(items), depth, Arr(out)) && RedactsTo(secret, Arr(out), depth, Arr(again))
    ensures again != out
  {
    out := ListResult(secret, items, Cut(|items|), depth, map[i := o]);
    again := ListResult(secret, out, Cut(|out|), depth, map[i := a]);
    assert again[i] != out[i];
  }

  lemma {:induction false} ObjRedacts(secret: string -> bool, m: map<string, Json>, depth: int, out: map<string, Json>)
    requires depth > 0
    ensures RedactsTo(secret, Obj(m), depth, Obj(out)) <==> MapRedactsTo(secret, m, depth, out)
  {
  }

  /** Some order of the keys makes a second redaction change the first one's result. */
  lemma {:induction false} LargeIsNotIdempotent(secret: string -> bool, v: Json, depth: int)
    returns (out: Json, again: Json)
    requires !SmallMaps(secret, v, depth)
    ensures RedactsTo(secret, v, depth, out) && RedactsTo(secret, out, depth, again) && again != out
    decreases if depth < 0 then 0 else depth
  {
    hide MapRedactsTo, RedactsTo;
    match v
    case Obj(m) =>
      var first, second := map[], map[];
      if |m| > MAX_KEYS {
        first, second := LargeMapLosesAnotherKey(secret, m, depth);
      } else {
        var k :| k in m && !secret(k) && !SmallMaps(secret, m[k], depth - 1);
        var o, a := LargeIsNotIdempotent(secret, m[k], depth - 1);
        first, second := SmallMapWithALargeOne(secret, m, depth, k, o, a);
      }
      ObjRedacts(secret, m, depth, first);
      ObjRedacts(secret, first, depth, second);
      out, again := Obj(first), Obj(second);
    case Arr(items) =>
      var i :| 0 <= i < Cut(|items|) && !SmallMaps(secret, items[i], depth - 1);
      var o, a := LargeIsNotIdempotent(secret, items[i], depth - 1);
      var first, second := ListWithALargeMap(secret, items, depth, i, o, a);
      out, again := Arr(first), Arr(second);
  }

  ghost predicate Idempotent(secret: string -> bool, v: Json, depth: int) {
    forall out, again :: RedactsTo(secret, v, depth, out) && RedactsTo(secret, out, depth, again) ==> again == out
  }

  /** Redaction is idempotent, for every order the keys may come in, exactly when no map that it
      visits has more than 64 keys. */
  lemma {:induction false} IdempotentIffSmall(secret: string -> bool, v: Json, depth: int)
    ensures Idempotent(secret, v, depth) <==> SmallMaps(secret, v, depth)
  {
    if SmallMaps(secret, v, depth) {
      forall out, again | RedactsTo(secret, v, depth, out) && RedactsTo(secret, out, depth, again)
        ensures again == out
      {
        SmallIsIdempotent(secret, v, depth, out, again);
      }
    } else {
      var out, again := LargeIsNotIdempotent(secret, v, depth);
    }
  }

  // ------------------------------ Sensitive keys ------------------------------

  predicate Contains(s: string, sub: string) {
    Find(s, sub) >= 0
  }

  predicate SensitiveWord(k: string) {
    || k == "password" || k == "secret" || k == "token" || k == "secretstring" || k == "secretbinary"
    || k == "sessiontoken" || k == "idtoken" || k == "accesstoken" || k == "refreshtoken"
    || k == "clientsecret" || k == "privatekey" || k == "credentials" || k == "authorization"
  }

  predicate SensitivePart(k: string) {
    Contains(k, "password") || Contains(k, "secret") || HasSuffix(k, "token")
  }

  /** injectSensitiveKey */
  predicate Sensitive(key: string) {
    var k := ToLower(TrimSpace(key));
    SensitiveWord(k) || SensitivePart(k)
  }

  lemma {:induction false} TruncatedIsNoWord(k: string)
    requires k != "" && k[0] == '_'
    ensures !SensitiveWord(k)
  {
  }

  lemma {:induction false} NoSuchText(k: string, sub: string)
    requires sub != "" && sub[0] !in k
    ensures !Contains(k, sub)
  {
  }

  lemma {:induction false} TruncatedHasNoPart(k: string)
    requires k == "_truncated"
    ensures !SensitivePart(k)
  {
    NoSuchText(k, "password");
    NoSuchText(k, "secret");
    assert k[|k| - 5..][0] == 'c';
  }

  lemma {:induction false} PlainText(k: string)
    requires k == "_truncated"
    ensures TrimSpace(k) == k && ToLower(k) == k
  {
    hide TrimSpace;
    TrimSpaceKeeps(k);
  }

  lemma {:induction false} PlainKey(k: string)
    requires TrimSpace(k) == k && ToLower(k) == k && !SensitiveWord(k) && !SensitivePart(k)
    ensures !Sensitive(k)
  {
    hide TrimSpace, ToLower, SensitiveWord, SensitivePart;
  }

  lemma {:induction false} TruncatedIsPlain()
    ensures !Sensitive("_truncated")
  {
    hide TrimSpace, ToLower, SensitiveWord, SensitivePart, Sensitive;
    var k := "_truncated";
    PlainText(k);
    TruncatedIsNoWord(k);
    TruncatedHasNoPart(k);
    PlainKey(k);
  }

  /** The redactor with its own notion of a sensitive key: every result of every iteration order
      hides each of them, at every level, within the depth given. */
  lemma {:induction false} SensitiveKeysAreHidden(m: map<string, Json>, depth: nat, out: map<string, Json>)
    requires depth > 0 && MapRedactsTo(Sensitive, m, depth, out)
    ensures Safe(Sensitive, Obj(out), depth)
  {
    TruncatedIsPlain();
    MapResultsAreSafe(Sensitive, m, depth, out);
  }

  // --------------------- Sensitive keys, as they may be spelled ---------------------

  /** The word stands somewhere in the text, in any letter case. */
  ghost predicate HasWord(s: string, w: string) {
    exists i: nat :: WordAt(s, i, w)
  }

  ghost predicate WordAt(s: string, i: nat, w: string) {
    i + |w| <= |s| && SameText(s[i..i + |w|], w)
  }

  ghost predicate EndsIn(s: string, w: string) {
    |w| <= |s| && SameText(s[|s| - |w|..], w)
  }

  /** The text is one to hide. */
  ghost predicate SecretText(s: string) {
    || HasWord(s, "password") || HasWord(s, "secret") || EndsIn(s, "token")
    || SameText(s, "privatekey") || SameText(s, "credentials") || SameText(s, "authorization")
  }

  /** And with white space around it. */
  ghost predicate NamesSecret(key: string) {
    exists core :: Wraps(key, core) && SecretText(core)
  }

  predicate IsLower(w: string) {
    ToLower(w) == w
  }

  lemma {:induction false} PieceLowered(s: string, i: nat, j: nat, w: string)
    requires i <= j <= |s| && IsLower(w)
    ensures ToLower(s)[i..j] == w <==> SameText(s[i..j], w)
  {
    assert ToLower(s)[i..j] == ToLower(s[i..j]);
    LowerIffSame(s[i..j], w);
  }

  lemma {:induction false} ContainsIff(s: string, w: string)
    requires IsLower(w)
    ensures Contains(ToLower(s), w) <==> HasWord(s, w)
  {
    var low := ToLower(s);
    hide ToLower, SameText, IsLower;
    var r := Find(low, w);
    if r >= 0 {
      assert low[r..][..|w|] == low[r..r + |w|];
      PieceLowered(s, r, r + |w|, w);
      assert WordAt(s, r, w);
    }
    if i: nat :| WordAt(s, i, w) {
      PieceLowered(s, i, i + |w|, w);
      assert low[i..][..|w|] == low[i..i + |w|];
    }
  }

  lemma {:induction false} EndsIff(s: string, w: string)
    requires IsLower(w)
    ensures HasSuffix(ToLower(s), w) <==> EndsIn(s, w)
  {
    if |w| <= |s| {
      PieceLowered(s, |s| - |w|, |s|, w);
      assert s[|s| - |w|..|s|] == s[|s| - |w|..] && ToLower(s)[|s| - |w|..|s|] == ToLower(s)[|s| - |w|..];
    }
  }

  lemma {:induction false} WholeIff(s: string, w: string)
    requires IsLower(w)
    ensures ToLower(s) == w <==> SameText(s, w)
  {
    LowerIffSame(s, w);
  }

  lemma {:induction false} TokenWords(k: string)
    requires k == "token" || k == "sessiontoken" || k == "idtoken" || k == "accesstoken" || k == "refreshtoken"
    ensures HasSuffix(k, "token")
  {
  }

  lemma {:induction false} StartsContained(k: string, w: string)
    requires w <= k
    ensures Contains(k, w)
  {
    assert k[0..] == k;
  }

  lemma {:induction false} SecretWords(k: string)
    requires k == "secret" || k == "secretstring" || k == "secretbinary"
    ensures Contains(k, "secret")
  {
    StartsContained(k, "secret");
  }

  lemma {:induction false} ClientSecret()
    ensures Contains("clientsecret", "secret")
  {
    assert "clientsecret"[6..] == "secret";
  }

  /** The listed words that the parts do not cover. */
  lemma {:induction false} WordsCovered(k: string)
    ensures SensitiveWord(k) || SensitivePart(k)
       <==> SensitivePart(k) || k == "privatekey" || k == "credentials" || k == "authorization"
  {
    hide Contains, HasSuffix;
    if k == "token" || k == "sessiontoken" || k == "idtoken" || k == "accesstoken" || k == "refreshtoken" {
      TokenWords(k);
    } else if k == "secret" || k == "secretstring" || k == "secretbinary" {
      SecretWords(k);
    } else if k == "password" {
      StartsContained(k, "password");
    }
    ClientSecret();
  }

  lemma {:induction false} LowerWords()
    ensures IsLower("password") && IsLower("secret") && IsLower("token")
    ensures IsLower("privatekey") && IsLower("credentials") && IsLower("authorization")
  {
  }

  lemma {:induction false} SecretIff(s: string)
    ensures var k := ToLower(s);
            SensitiveWord(k) || SensitivePart(k) <==> SecretText(s)
  {
    LowerWords();
    WordsCovered(ToLower(s));
    hide ToLower, SameText, IsLower, Contains, HasSuffix, HasWord, EndsIn, SensitiveWord;
    ContainsIff(s, "password");
    ContainsIff(s, "secret");
    EndsIff(s, "token");
    WholeIff(s, "privatekey");
    WholeIff(s, "credentials");
    WholeIff(s, "authorization");
  }

  /** A key is treated as sensitive exactly when it names a secret, in any letter case and with any
      white space around it. */
  lemma {:induction false} SensitiveIff(key: string)
    ensures Sensitive(key) <==> NamesSecret(key)
  {
    hide ToLower, SecretText, SensitiveWord, SensitivePart, Wraps, TrimSpace;
    forall core ensures core == TrimSpace(key) <==> Wraps(key, core) {
      TrimSpaceIff(key, core);
    }
    SecretIff(TrimSpace(key));
  }

  /** No key that names a secret shows its value, at any level. */
  ghost predicate ShowsNoSecret(v: Json) {
    match v
    case Obj(m) => forall k :: k in m ==> ShowsNoSecret(m[k]) && (NamesSecret(k) ==> m[k] == REDACTED)
    case Arr(items) => forall i :: 0 <= i < |items| ==> ShowsNoSecret(items[i])
    case _ => true
  }

  lemma {:induction false} SafeShowsNoSecret(v: Json, depth: nat)
    requires Safe(Sensitive, v, depth)
    ensures ShowsNoSecret(v)
    decreases depth
  {
    hide Sensitive, NamesSecret;
    match v
    case Obj(m) =>
      forall k | k in m ensures ShowsNoSecret(m[k]) && (NamesSecret(k) ==> m[k] == REDACTED) {
        SafeShowsNoSecret(m[k], depth - 1);
        SensitiveIff(k);
      }
    case Arr(items) =>
      forall i | 0 <= i < |items| ensures ShowsNoSecret(items[i]) {
        SafeShowsNoSecret(items[i], depth - 1);
      }
    case _ =>
  }

  /** So it is with every result of every iteration order; and a key that names no secret keeps
      what its value redacts to. */
  lemma {:induction false} SecretsAreHidden(m: map<string, Json>, depth: nat, out: map<string, Json>)
    requires depth > 0 && MapRedactsTo(Sensitive, m, depth, out)
    ensures ShowsNoSecret(Obj(out))
    ensures forall k :: k in out && k in m && !NamesSecret(k) && k != "_truncated" ==>
              RedactsTo(Sensitive, m[k], depth - 1, out[k])
  {
    SensitiveKeysAreHidden(m, depth, out);
    SafeShowsNoSecret(Obj(out), depth);
    hide Sensitive, NamesSecret, ShowsNoSecret, RedactsTo, Safe;
    forall k | k in out && k in m && !NamesSecret(k) && k != "_truncated"
      ensures RedactsTo(Sensitive, m[k], depth - 1, out[k])
    {
      SensitiveIff(k);
      assert EntryRedactsTo(Sensitive, m, depth, k, out[k]);
    }
  }
}
