/** The string functions of Go's `strings` package that the models use, over any element type:
    bytes for AMQP, characters elsewhere. */
module Text {

  /** strings.IndexByte: the first position of `x`, or -1. */
  function IndexOf<T(==)>(s: seq<T>, x: T): (i: int)
    ensures -1 <= i < |s|
    ensures i < 0 ==> x !in s
    ensures i >= 0 ==> s[i] == x && x !in s[..i]
  {
    if s == [] then -1
    else if s[0] == x then 0
    else
      var i := IndexOf(s[1..], x);
      if i < 0 then -1 else i + 1
  }

  lemma {:induction false} FirstIndex<T>(a: seq<T>, x: T, rest: seq<T>)
    requires x !in a
    ensures IndexOf(a + [x] + rest, x) == |a|
    ensures (a + [x] + rest)[..|a|] == a && (a + [x] + rest)[|a| + 1..] == rest
  {
    if a != [] {
      FirstIndex(a[1..], x, rest);
      assert (a + [x] + rest)[1..] == a[1..] + [x] + rest;
    }
  }

  /** strings.LastIndexByte. */
  function LastIndexOf<T(==)>(s: seq<T>, x: T): (i: int)
    ensures -1 <= i < |s|
    ensures i < 0 ==> x !in s
    ensures i >= 0 ==> s[i] == x && x !in s[i + 1..]
  {
    if s == [] then -1
    else if s[|s| - 1] == x then |s| - 1
    else LastIndexOf(s[..|s| - 1], x)
  }

  /** strings.Index */
  function Find(s: string, pat: string): (r: int)
    ensures -1 <= r <= |s|
    ensures r < 0 ==> forall i :: 0 <= i <= |s| ==> !(pat <= s[i..])
    ensures r >= 0 ==> pat <= s[r..] && forall i :: 0 <= i < r ==> !(pat <= s[i..])
  {
    if pat <= s then assert s[0..] == s; 0
    else if s == "" then -1
    else
      var r := Find(s[1..], pat);
      assert s[0..] == s && forall i :: 1 <= i <= |s| ==> s[i..] == s[1..][i - 1..];
      if r < 0 then -1 else r + 1
  }

  predicate HasSuffix<T(==)>(s: seq<T>, end: seq<T>) {
    |end| <= |s| && s[|s| - |end|..] == end
  }

  function TrimPrefix<T(==)>(s: seq<T>, start: seq<T>): seq<T> {
    if start <= s then s[|start|..] else s
  }

  function TrimSuffix<T(==)>(s: seq<T>, end: seq<T>): seq<T> {
    if HasSuffix(s, end) then s[..|s| - |end|] else s
  }

  /** Elements satisfying `drop` removed from the front. */
  function TrimLeft<T>(s: seq<T>, drop: T -> bool): (r: seq<T>)
    ensures |r| <= |s| && r == s[|s| - |r|..]
    ensures r != [] ==> !drop(r[0])
  {
    if s == [] || !drop(s[0]) then s else TrimLeft(s[1..], drop)
  }

  function TrimRight<T>(s: seq<T>, drop: T -> bool): (r: seq<T>)
    ensures |r| <= |s| && r == s[..|r|]
    ensures r != [] ==> !drop(r[|r| - 1])
  {
    if s == [] || !drop(s[|s| - 1]) then s else TrimRight(s[..|s| - 1], drop)
  }

  lemma {:induction false} TrimLeftOne<T>(x: T, s: seq<T>, drop: T -> bool)
    requires drop(x) && s != [] && !drop(s[0])
    ensures TrimLeft([x] + s, drop) == s
  {
    assert ([x] + s)[1..] == s;
  }

  lemma {:induction false} LeftDropped<T>(before: seq<T>, rest: seq<T>, drop: T -> bool)
    requires (forall i :: 0 <= i < |before| ==> drop(before[i])) && (rest == [] || !drop(rest[0]))
    ensures TrimLeft(before + rest, drop) == rest
  {
    if before == [] {
      assert before + rest == rest;
    } else {
      assert (before + rest)[1..] == before[1..] + rest && (before + rest)[0] == before[0];
      LeftDropped(before[1..], rest, drop);
    }
  }

  lemma {:induction false} RightDropped<T>(rest: seq<T>, after: seq<T>, drop: T -> bool)
    requires (forall i :: 0 <= i < |after| ==> drop(after[i])) && (rest == [] || !drop(rest[|rest| - 1]))
    ensures TrimRight(rest + after, drop) == rest
  {
    if after == [] {
      assert rest + after == rest;
    } else {
      var all, init := rest + after, after[..|after| - 1];
      assert all[..|all| - 1] == rest + init && all[|all| - 1] == after[|after| - 1];
      RightDropped(rest, init, drop);
    }
  }

  function TrimBoth<T>(s: seq<T>, drop: T -> bool): seq<T> {
    TrimRight(TrimLeft(s, drop), drop)
  }

  /** strings.Split with a one-element separator: always at least one part. */
  function Split<T(==)>(s: seq<T>, sep: T): (parts: seq<seq<T>>)
    ensures |parts| >= 1
  {
    var i := IndexOf(s, sep);
    if i < 0 then [s] else [s[..i]] + Split(s[i + 1..], sep)
  }

  /** strings.Join with a one-element separator. */
  function Join<T>(parts: seq<seq<T>>, sep: T): seq<T> {
    if parts == [] then []
    else if |parts| == 1 then parts[0]
    else parts[0] + [sep] + Join(parts[1..], sep)
  }

  lemma {:induction false} SplitOfJoin<T>(parts: seq<seq<T>>, sep: T)
    requires parts != [] && forall i :: 0 <= i < |parts| ==> sep !in parts[i]
    ensures Split(Join(parts, sep), sep) == parts
  {
    if |parts| > 1 {
      FirstIndex(parts[0], sep, Join(parts[1..], sep));
      SplitOfJoin(parts[1..], sep);
    }
  }

  function MapSeq<T, U>(s: seq<T>, f: T -> U): (r: seq<U>)
    ensures |r| == |s| && forall i :: 0 <= i < |s| ==> r[i] == f(s[i])
  {
    seq(|s|, i requires 0 <= i < |s| => f(s[i]))
  }

  predicate IsSpace(c: char) {
    c == ' ' || '\t' <= c <= '\r'
  }

  predicate IsSlash(c: char) {
    c == '/'
  }

  function TrimSpace(s: string): string {
    TrimBoth(s, IsSpace)
  }

  function LowerChar(c: char): char {
    if 'A' <= c <= 'Z' then c + 32 as char else c
  }

  function UpperChar(c: char): char {
    if 'a' <= c <= 'z' then c - 32 as char else c
  }

  /** strings.ToLower on ASCII. */
  function ToLower(s: string): (r: string)
    ensures |r| == |s|
  {
    MapSeq(s, LowerChar)
  }

  function ToUpper(s: string): (r: string)
    ensures |r| == |s|
  {
    MapSeq(s, UpperChar)
  }

  lemma {:induction false} TrimSpaceKeeps(s: string)
    requires s != "" && !IsSpace(s[0]) && !IsSpace(s[|s| - 1])
    ensures TrimSpace(s) == s
  {
  }

  lemma {:induction false} TrimSpaceIdempotent(s: string)
    ensures TrimSpace(TrimSpace(s)) == TrimSpace(s)
  {
    var l := TrimLeft(s, IsSpace);
    var r := TrimRight(l, IsSpace);
    if r != [] {
      assert r[0] == l[0];
      assert TrimLeft(r, IsSpace) == r;
    }
  }

  // ----------------------- Letter case and outer blanks -----------------------

  /** The same ASCII letter in either case, or the same character. */
  predicate SameLetter(c: char, d: char) {
    || c == d
    || ('a' <= c <= 'z' && c as int == d as int + 32)
    || ('a' <= d <= 'z' && d as int == c as int + 32)
  }

  predicate SameText(a: string, b: string) {
    |a| == |b| && forall i :: 0 <= i < |a| ==> SameLetter(a[i], b[i])
  }

  predicate IsBlank(s: string) {
    forall i :: 0 <= i < |s| ==> IsSpace(s[i])
  }

  /** `s` is `core` with white space around it; `core` has none at its ends. */
  ghost predicate Wraps(s: string, core: string) {
    && (core == "" || (!IsSpace(core[0]) && !IsSpace(core[|core| - 1])))
    && exists before, after {:trigger IsBlank(before), IsBlank(after)} ::
         IsBlank(before) && IsBlank(after) && s == before + core + after
  }

  lemma {:induction false} LowerIffSame(a: string, b: string)
    ensures ToLower(a) == ToLower(b) <==> SameText(a, b)
  {
    if ToLower(a) == ToLower(b) {
      forall i | 0 <= i < |a| ensures SameLetter(a[i], b[i]) {
        assert ToLower(a)[i] == ToLower(b)[i];
      }
    }
  }

  lemma {:induction false} UpperIffSame(a: string, b: string)
    ensures ToUpper(a) == ToUpper(b) <==> SameText(a, b)
  {
    if ToUpper(a) == ToUpper(b) {
      forall i | 0 <= i < |a| ensures SameLetter(a[i], b[i]) {
        assert ToUpper(a)[i] == ToUpper(b)[i];
      }
    }
  }

  lemma {:induction false} LeftCutIsBlank(s: string)
    ensures forall i :: 0 <= i < |s| - |TrimLeft(s, IsSpace)| ==> IsSpace(s[i])
  {
    if s != "" && IsSpace(s[0]) {
      var rest := s[1..];
      LeftCutIsBlank(rest);
      var cut := |rest| - |TrimLeft(rest, IsSpace)|;
      forall i | 0 <= i < cut + 1 ensures IsSpace(s[i]) {
        assert i > 0 ==> s[i] == rest[i - 1];
      }
    }
  }

  lemma {:induction false} RightCutIsBlank(s: string)
    ensures forall i :: |TrimRight(s, IsSpace)| <= i < |s| ==> IsSpace(s[i])
  {
    if s != "" && IsSpace(s[|s| - 1]) {
      var init := s[..|s| - 1];
      RightCutIsBlank(init);
      forall i | |TrimRight(init, IsSpace)| <= i < |s| ensures IsSpace(s[i]) {
        assert i < |init| ==> s[i] == init[i];
      }
    }
  }

  lemma {:induction false} TrimmedFrom(s: string, core: string)
    requires Wraps(s, core)
    ensures TrimSpace(s) == core
  {
    hide TrimLeft, TrimRight, IsSpace;
    var before, after :| IsBlank(before) && IsBlank(after) && s == before + core + after;
    if core == "" {
      assert IsBlank(s);
      assert s == s + "";
      LeftDropped(s, "", IsSpace);
    } else {
      assert s == before + (core + after);
      LeftDropped(before, core + after, IsSpace);
      RightDropped(core, after, IsSpace);
    }
  }

  /** strings.TrimSpace takes off exactly the outer white space. */
  lemma {:induction false} TrimSpaceIff(s: string, core: string)
    ensures TrimSpace(s) == core <==> Wraps(s, core)
  {
    if Wraps(s, core) {
      TrimmedFrom(s, core);
    }
    if TrimSpace(s) == core {
      TrimmedWraps(s);
    }
  }

  lemma {:induction false} BlankIff(s: string)
    ensures IsBlank(s) <==> TrimSpace(s) == ""
  {
    TrimSpaceIff(s, "");
    if IsBlank(s) {
      assert s == s + "" + "" && IsBlank("");
    }
  }

  lemma {:induction false} TrimmedWraps(s: string)
    ensures Wraps(s, TrimSpace(s))
  {
    var l := TrimLeft(s, IsSpace);
    var core := TrimRight(l, IsSpace);
    LeftCutIsBlank(s);
    RightCutIsBlank(l);
    hide TrimLeft, TrimRight, IsSpace;
    var before, after := s[..|s| - |l|], l[|core|..];
    assert IsBlank(before) && IsBlank(after) && l == core + after;
    assert s == before + l == before + core + after;
    assert core != "" ==> core[0] == l[0];
  }

  // ------------------------------ Byte order ------------------------------

  /** SQLite's BINARY collation: memcmp, the shorter of two prefixes first. */
  predicate Less(a: string, b: string) {
    b != "" && (a == "" || a[0] < b[0] || (a[0] == b[0] && Less(a[1..], b[1..])))
  }

  predicate AtMost(a: string, b: string) {
    a == b || Less(a, b)
  }

  lemma {:induction false} LessAsymmetric(a: string, b: string)
    requires Less(a, b)
    ensures !Less(b, a) && a != b
  {
    if a != "" && a[0] == b[0] {
      LessAsymmetric(a[1..], b[1..]);
    }
  }

  lemma {:induction false} NotLessSelf(a: string)
    ensures !Less(a, a)
  {
    if a != "" {
      NotLessSelf(a[1..]);
    }
  }

  lemma {:induction false} LessTotal(a: string, b: string)
    ensures Less(a, b) || Less(b, a) || a == b
  {
    if a != "" && b != "" && a[0] == b[0] {
      LessTotal(a[1..], b[1..]);
      assert a == [a[0]] + a[1..] && b == [b[0]] + b[1..];
    }
  }

  lemma {:induction false} LessTransitive(a: string, b: string, c: string)
    requires Less(a, b) && Less(b, c)
    ensures Less(a, c)
  {
    if a != "" && a[0] == b[0] == c[0] {
      LessTransitive(a[1..], b[1..], c[1..]);
    }
  }
}
