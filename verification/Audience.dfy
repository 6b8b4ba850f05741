/** normalizeTokenAudience (internal/services/entra/token.go) and what applying it again and
    again, as a chain of refreshes does, comes to. */
module Audience {
  import opened Text

  const DEFAULT_SCOPE := "/.default"

  /** The part before the first space, when something stands before it. */
  function FirstWord(s: string): string {
    var i := IndexOf(s, ' ');
    if i > 0 then s[..i] else s
  }

  function Normalize(audience: string): string {
    TrimRight(TrimSpace(FirstWord(TrimSuffix(TrimSpace(audience), DEFAULT_SCOPE))), IsSlash)
  }

  // ------------------------------ One cut at a time ------------------------------

  /** `r` is a piece of `s`, and all of it exactly when `whole` holds. */
  ghost predicate Cut(s: string, r: string, whole: bool) {
    && |r| <= |s| && (|r| == |s| ==> r == s) && (r == s <==> whole)
    && forall c :: c in r ==> c in s
  }

  predicate EndsClean(s: string, p: char -> bool) {
    s == "" || (!p(s[0]) && !p(s[|s| - 1]))
  }

  ghost predicate RightFacts(s: string, r: string, p: char -> bool) {
    Cut(s, r, s == "" || !p(s[|s| - 1])) && r <= s && (r != "" ==> !p(r[|r| - 1]))
  }

  ghost predicate BothFacts(s: string, r: string, p: char -> bool) {
    Cut(s, r, EndsClean(s, p)) && EndsClean(r, p)
  }

  ghost predicate SuffixFacts(s: string, r: string, end: string) {
    Cut(s, r, !HasSuffix(s, end)) && r <= s
  }

  ghost predicate WordFacts(s: string, r: string) {
    Cut(s, r, ' ' !in s) && ' ' !in r
  }

  lemma {:induction false} RightCut(s: string, p: char -> bool)
    ensures RightFacts(s, TrimRight(s, p), p)
  {
    var r := TrimRight(s, p);
    assert r == s[..|r|];
  }

  ghost predicate LeftFacts(s: string, l: string, p: char -> bool) {
    Cut(s, l, s == "" || !p(s[0])) && HasSuffix(s, l) && (l != "" ==> !p(l[0]))
  }

  lemma {:induction false} LeftCut(s: string, p: char -> bool)
    ensures LeftFacts(s, TrimLeft(s, p), p)
  {
    var l := TrimLeft(s, p);
    assert l == s[|s| - |l|..];
  }

  lemma {:induction false} LeftThenRight(s: string, l: string, r: string, p: char -> bool)
    requires LeftFacts(s, l, p) && RightFacts(l, r, p)
    ensures BothFacts(s, r, p)
  {
    assert r != "" ==> r[0] == l[0];
    assert l != "" ==> l[|l| - 1] == s[|s| - 1];
  }

  lemma {:induction false} BothCut(s: string, p: char -> bool)
    ensures BothFacts(s, TrimBoth(s, p), p)
  {
    LeftCut(s, p);
    RightCut(TrimLeft(s, p), p);
    LeftThenRight(s, TrimLeft(s, p), TrimBoth(s, p), p);
  }

  lemma {:induction false} SuffixCut(s: string, end: string)
    requires end != ""
    ensures SuffixFacts(s, TrimSuffix(s, end), end)
  {
  }

  lemma {:induction false} WordCut(s: string)
    requires s != "" ==> s[0] != ' '
    ensures WordFacts(s, FirstWord(s))
  {
  }

  /** The four intermediate strings of Normalize, as relations between them. */
  ghost predicate Cuts(a: string, t: string, u: string, w: string, x: string, r: string) {
    && BothFacts(a, t, IsSpace) && SuffixFacts(t, u, DEFAULT_SCOPE) && WordFacts(u, w)
    && BothFacts(w, x, IsSpace) && RightFacts(x, r, IsSlash)
  }

  lemma {:induction false} NoLeadingSpace(a: string, t: string, u: string)
    requires BothFacts(a, t, IsSpace) && SuffixFacts(t, u, DEFAULT_SCOPE)
    ensures u != "" ==> u[0] != ' '
  {
  }

  lemma {:induction false} NormalizeCuts(a: string) returns (t: string, u: string, w: string, x: string)
    ensures Cuts(a, t, u, w, x, Normalize(a))
  {
    t := TrimSpace(a);
    BothCut(a, IsSpace);
    u := TrimSuffix(t, DEFAULT_SCOPE);
    SuffixCut(t, DEFAULT_SCOPE);
    NoLeadingSpace(a, t, u);
    w := FirstWord(u);
    WordCut(u);
    x := TrimSpace(w);
    BothCut(w, IsSpace);
    RightCut(x, IsSlash);
  }

  // ------------------------------ One application ------------------------------

  /** What Normalize keeps: the first word, less its final slashes, whatever blanks, further words
      and default suffix are around it. */
  lemma {:induction false} NormalizeIs(before: string, core: string, slashes: string, words: string, suffix: string,
      after: string)
    requires IsBlank(before) && IsBlank(after) && (suffix == "" || suffix == DEFAULT_SCOPE)
    requires core != "" && !IsSpace(core[0]) && !IsSpace(core[|core| - 1]) && core[|core| - 1] != '/'
    requires ' ' !in core && forall i :: 0 <= i < |slashes| ==> slashes[i] == '/'
    requires words == "" || (words[0] == ' ' && !IsSpace(words[|words| - 1]))
    requires suffix == "" ==> !HasSuffix(core + slashes + words, DEFAULT_SCOPE)
    ensures Normalize(before + (core + slashes + words + suffix) + after) == core
  {
    hide TrimLeft, TrimRight, TrimSuffix, FirstWord, HasSuffix, IsBlank, IsSpace, Normalize, TrimSpace;
    var word := core + slashes;
    NormalizeFront(before, core, slashes, words, suffix, after);
    NormalizeBack(core, slashes, words);
    StepByStep(before + (word + words + suffix) + after, word + words + suffix, word + words, word, core);
  }

  lemma {:induction false} NormalizeFront(before: string, core: string, slashes: string, words: string,
      suffix: string, after: string)
    requires IsBlank(before) && IsBlank(after) && (suffix == "" || suffix == DEFAULT_SCOPE)
    requires core != "" && !IsSpace(core[0]) && !IsSpace(core[|core| - 1])
    requires forall i :: 0 <= i < |slashes| ==> slashes[i] == '/'
    requires words == "" || !IsSpace(words[|words| - 1])
    requires suffix == "" ==> !HasSuffix(core + slashes + words, DEFAULT_SCOPE)
    ensures var t := core + slashes + words + suffix;
            TrimSpace(before + t + after) == t && TrimSuffix(t, DEFAULT_SCOPE) == core + slashes + words
  {
    hide TrimLeft, TrimRight, TrimSuffix, HasSuffix, IsBlank, IsSpace, TrimSpace;
    NoOuterSpace(core, slashes, words, suffix);
    Trimmed(before, core + slashes + words + suffix, after);
    SuffixGone(core + slashes + words, suffix);
  }

  lemma {:induction false} OneWord(core: string, slashes: string)
    requires ' ' !in core && forall i :: 0 <= i < |slashes| ==> slashes[i] == '/'
    ensures ' ' !in core + slashes
  {
  }

  lemma {:induction false} NormalizeBack(core: string, slashes: string, words: string)
    requires core != "" && !IsSpace(core[0]) && !IsSpace(core[|core| - 1]) && core[|core| - 1] != '/'
    requires ' ' !in core && forall i :: 0 <= i < |slashes| ==> slashes[i] == '/'
    requires words == "" || words[0] == ' '
    ensures var word := core + slashes;
            FirstWord(word + words) == word && TrimSpace(word) == word && TrimRight(word, IsSlash) == core
  {
    hide FirstWord, TrimSpace, TrimRight, IsSpace;
    OneWord(core, slashes);
    WordOf(core + slashes, words);
    TrimmedWord(core, slashes);
    SlashesGone(core, slashes);
  }

  lemma {:induction false} StepByStep(a: string, t: string, u: string, w: string, r: string)
    requires TrimSpace(a) == t && TrimSuffix(t, DEFAULT_SCOPE) == u && FirstWord(u) == w
    requires TrimSpace(w) == w && TrimRight(w, IsSlash) == r
    ensures Normalize(a) == r
  {
  }

  lemma {:induction false} TrimmedWord(core: string, slashes: string)
    requires core != "" && !IsSpace(core[0]) && !IsSpace(core[|core| - 1])
    requires forall i :: 0 <= i < |slashes| ==> slashes[i] == '/'
    ensures TrimSpace(core + slashes) == core + slashes
  {
    var word := core + slashes;
    NoOuterSpace(core, slashes, "", "");
    assert "" + word + "" == word && word + "" + "" == word;
    NoBlanks();
    Trimmed("", word, "");
  }

  lemma {:induction false} NoBlanks()
    ensures IsBlank("")
  {
  }

  lemma {:induction false} NoOuterSpace(core: string, slashes: string, words: string, suffix: string)
    requires core != "" && !IsSpace(core[0]) && !IsSpace(core[|core| - 1])
    requires forall i :: 0 <= i < |slashes| ==> slashes[i] == '/'
    requires words == "" || !IsSpace(words[|words| - 1])
    requires suffix == "" || suffix == DEFAULT_SCOPE
    ensures var t := core + slashes + words + suffix; t != "" && !IsSpace(t[0]) && !IsSpace(t[|t| - 1])
  {
    var t := core + slashes + words + suffix;
    assert t[0] == core[0];
    assert t[|t| - 1] == if suffix != "" then 't' else if words != "" then words[|words| - 1]
                         else if slashes != "" then '/' else core[|core| - 1];
  }

  lemma {:induction false} Trimmed(before: string, t: string, after: string)
    requires IsBlank(before) && IsBlank(after) && t != "" && !IsSpace(t[0]) && !IsSpace(t[|t| - 1])
    ensures TrimSpace(before + t + after) == t
  {
    TrimmedFrom(before + t + after, t);
  }

  lemma {:induction false} SuffixGone(s: string, suffix: string)
    requires suffix == DEFAULT_SCOPE || (suffix == "" && !HasSuffix(s, DEFAULT_SCOPE))
    ensures TrimSuffix(s + suffix, DEFAULT_SCOPE) == s
  {
    if suffix == "" {
      assert s + suffix == s;
    } else {
      assert (s + suffix)[|s|..] == suffix && (s + suffix)[..|s|] == s;
    }
  }

  lemma {:induction false} WordOf(word: string, words: string)
    requires word != "" && ' ' !in word && (words == "" || words[0] == ' ')
    ensures FirstWord(word + words) == word
  {
    if words == "" {
      assert word + words == word;
    } else {
      assert word + words == word + [' '] + words[1..];
      FirstIndex(word, ' ', words[1..]);
    }
  }

  lemma {:induction false} SlashesGone(core: string, slashes: string)
    requires core != "" && core[|core| - 1] != '/' && forall i :: 0 <= i < |slashes| ==> slashes[i] == '/'
    ensures TrimRight(core + slashes, IsSlash) == core
  {
    RightDropped(core, slashes, IsSlash);
  }

  /** Nothing for Normalize to remove, read off the string itself. */
  predicate IsPlain(a: string) {
    EndsClean(a, IsSpace) && !HasSuffix(a, DEFAULT_SCOPE) && ' ' !in a && (a == "" || a[|a| - 1] != '/')
  }

  lemma {:induction false} CutsCompose(a: string, t: string, u: string, w: string, x: string, r: string)
    requires Cuts(a, t, u, w, x, r)
    ensures r == a || |r| < |a|
    ensures r == a <==> IsPlain(a)
    ensures ' ' !in r && (r != "" ==> r[|r| - 1] != '/' && !IsSpace(r[0]))
  {
  }

  /** Normalizing only ever removes: the result is the audience itself or shorter. */
  lemma {:induction false} NormalizeShortens(a: string)
    ensures Normalize(a) == a || |Normalize(a)| < |a|
  {
    var t, u, w, x := NormalizeCuts(a);
    CutsCompose(a, t, u, w, x, Normalize(a));
  }

  /** The fixed points are exactly the plain audiences. */
  lemma {:induction false} FixedIffPlain(a: string)
    ensures Normalize(a) == a <==> IsPlain(a)
  {
    var t, u, w, x := NormalizeCuts(a);
    CutsCompose(a, t, u, w, x, Normalize(a));
  }

  lemma {:induction false} NormalizeOfTrimmed(a: string)
    ensures Normalize(TrimSpace(a)) == Normalize(a)
  {
    TrimSpaceIdempotent(a);
  }

  lemma {:induction false} PlainAfterAll(a: string, r: string)
    requires Normalize(a) == r
    ensures IsPlain(r) <==> !Lingers(r)
  {
    var t, u, w, x := NormalizeCuts(a);
    CutsCompose(a, t, u, w, x, r);
  }

  // ------------------------- When one application is enough -------------------------

  /** What one more application would remove: white space or the suffix, at the end. */
  predicate Lingers(y: string) {
    (y != "" && IsSpace(y[|y| - 1])) || HasSuffix(y, DEFAULT_SCOPE)
  }

  function Slashes(k: nat): string {
    seq(k, _ => '/')
  }

  /** The trimmed audience's first word; the suffix comes off when that is the only word. */
  function Word(a: string): string {
    var t := TrimSpace(a);
    TrimSpace(if ' ' in t then t[..IndexOf(t, ' ')] else TrimSuffix(t, DEFAULT_SCOPE))
  }

  /** However many of the word's last slashes are taken off, nothing lingers before them. */
  predicate OnePassIsEnough(a: string) {
    var x := Word(a);
    forall k :: 0 <= k <= |x| && x[|x| - k..] == Slashes(k) ==> !Lingers(x[..|x| - k])
  }

  /** The suffix holds no space, so it does not matter whether it comes off before the other words. */
  lemma {:induction false} WordIsFirst(t: string, u: string)
    requires EndsClean(t, IsSpace) && u == TrimSuffix(t, DEFAULT_SCOPE)
    ensures FirstWord(u) == if ' ' in t then t[..IndexOf(t, ' ')] else u
  {
    if HasSuffix(t, DEFAULT_SCOPE) {
      assert t == u + DEFAULT_SCOPE && ' ' !in DEFAULT_SCOPE;
      if ' ' in t {
        var i := IndexOf(t, ' ');
        assert i < |u| && u[i] == ' ' && u[..i] == t[..i];
        SameIndex(u, i);
      }
    }
  }

  lemma {:induction false} SameIndex(u: string, i: nat)
    requires i < |u| && u[i] == ' ' && ' ' !in u[..i]
    ensures IndexOf(u, ' ') == i
  {
    assert u == u[..i] + [' '] + u[i + 1..];
    FirstIndex(u[..i], ' ', u[i + 1..]);
  }

  lemma {:induction false} NormalizeOfWord(a: string)
    ensures Normalize(a) == TrimRight(Word(a), IsSlash)
  {
    var t := TrimSpace(a);
    BothCut(a, IsSpace);
    assert EndsClean(t, IsSpace);
    hide TrimSpace;
    WordIsFirst(t, TrimSuffix(t, DEFAULT_SCOPE));
  }

  lemma {:induction false} SlashesOff(x: string)
    ensures var r := TrimRight(x, IsSlash); r <= x && x[|r|..] == Slashes(|x| - |r|)
  {
    if x != "" && x[|x| - 1] == '/' {
      var r := TrimRight(x, IsSlash);
      SlashesOff(x[..|x| - 1]);
      assert r == TrimRight(x[..|x| - 1], IsSlash) && r == x[..|r|];
      assert x[|r|..] == x[..|x| - 1][|r|..] + "/";
    } else {
      assert x[|x|..] == Slashes(0);
    }
  }

  /** Only with all the slashes off can something linger. */
  lemma {:induction false} LingersAtTheEnd(x: string, r: string, k: nat)
    requires r <= x && x[|r|..] == Slashes(|x| - |r|) && (r != "" ==> r[|r| - 1] != '/')
    requires k <= |x| && x[|x| - k..] == Slashes(k)
    ensures Lingers(x[..|x| - k]) ==> x[..|x| - k] == r
  {
    var y := x[..|x| - k];
    SlashAt(x, |r|);
    SlashAt(x, |x| - k);
    if HasSuffix(y, DEFAULT_SCOPE) {
      SuffixEnd(y);
    }
    if |y| <= |r| {
      assert |y| == |r| ==> y == r;
    }
  }

  lemma {:induction false} SlashAt(x: string, from: nat)
    requires from <= |x| && x[from..] == Slashes(|x| - from)
    ensures forall i :: from <= i < |x| ==> x[i] == '/'
  {
    forall i | from <= i < |x| ensures x[i] == '/' {
      assert x[i] == x[from..][i - from];
    }
  }

  lemma {:induction false} SuffixEnd(y: string)
    requires HasSuffix(y, DEFAULT_SCOPE)
    ensures y[|y| - 1] == 't'
  {
    assert y[|y| - 1] == y[|y| - 9..][8];
  }

  lemma {:induction false} EnoughIff(a: string, r: string)
    requires r == Normalize(a)
    ensures OnePassIsEnough(a) <==> !Lingers(r)
  {
    var x := Word(a);
    NormalizeOfWord(a);
    SlashesOff(x);
    hide Word, Lingers, Normalize, TrimRight;
    assert x[|x| - (|x| - |r|)..] == Slashes(|x| - |r|) && x[..|r|] == r;
    forall k | 0 <= k <= |x| && x[|x| - k..] == Slashes(k) && Lingers(x[..|x| - k]) ensures Lingers(r) {
      LingersAtTheEnd(x, r, k);
    }
  }

  /** Normalizing is idempotent at `a` exactly when neither white space nor a "/.default" stands
      before the last slashes, if any, of its word. */
  lemma {:induction false} IdempotentIff(a: string)
    ensures Normalize(Normalize(a)) == Normalize(a) <==> OnePassIsEnough(a)
  {
    var r := Normalize(a);
    PlainAfterAll(a, r);
    FixedIffPlain(r);
    EnoughIff(a, r);
  }

  lemma {:induction false} NormalizeInSteps(a: string, u: string, r: string)
    requires EndsClean(a, IsSpace) && TrimSuffix(a, DEFAULT_SCOPE) == u && ' ' !in u
    requires EndsClean(u, IsSpace) && TrimRight(u, IsSlash) == r
    ensures Normalize(a) == r
  {
    BothCut(a, IsSpace);
    BothCut(u, IsSpace);
    assert FirstWord(u) == u;
  }

  lemma {:induction false} SuffixOff(a: string, end: string)
    ensures HasSuffix(a + end, end) && TrimSuffix(a + end, end) == a
  {
  }

  /** All three ways to miss a fixed point occur: a second "/.default", a "/.default" before a
      slash, and white space before a slash. */
  lemma {:induction false} DefaultTwice(a: string, r: string)
    requires a == r + DEFAULT_SCOPE && r == "api" + DEFAULT_SCOPE
    ensures Normalize(a) == r && Normalize(r) != r
  {
    SuffixOff(r, DEFAULT_SCOPE);
    SuffixOff("api", DEFAULT_SCOPE);
    RightCut(r, IsSlash);
    NormalizeInSteps(a, r, r);
    FixedIffPlain(r);
  }

  lemma {:induction false} DefaultBeforeSlash(a: string, r: string)
    requires a == r + "/" && r == "api" + DEFAULT_SCOPE
    ensures Normalize(a) == r && Normalize(r) != r
  {
    SuffixOff("api", DEFAULT_SCOPE);
    assert a[|a| - 1] == '/' && a[..|a| - 1] == r && TrimRight(r, IsSlash) == r;
    if HasSuffix(a, DEFAULT_SCOPE) {
      SuffixEnd(a);
    }
    NormalizeInSteps(a, a, r);
    FixedIffPlain(r);
  }

  lemma {:induction false} TabBeforeSlash(a: string, r: string)
    requires a == r + "/" && r == "api\t"
    ensures Normalize(a) == r && Normalize(r) != r
  {
    assert a[|a| - 1] == '/' && a[..|a| - 1] == r && TrimRight(r, IsSlash) == r;
    NormalizeInSteps(a, a, r);
    FixedIffPlain(r);
  }

  // ------------------------------- Many applications -------------------------------

  /** `f` applied `n` times. */
  function Iterate(f: string -> string, a: string, n: nat): string {
    if n == 0 then a else f(Iterate(f, a, n - 1))
  }

  ghost predicate Shortens(f: string -> string) {
    forall a :: f(a) == a || |f(a)| < |a|
  }

  lemma {:induction false} IterateShrinks(f: string -> string, a: string, n: nat)
    requires Shortens(f)
    ensures var r := Iterate(f, a, n); |r| <= |a| && (f(r) == r || |r| + n <= |a|)
  {
    if n > 0 {
      IterateShrinks(f, a, n - 1);
    }
  }

  lemma {:induction false} FixedIsForever(f: string -> string, a: string, n: nat, m: nat)
    requires n <= m && f(Iterate(f, a, n)) == Iterate(f, a, n)
    ensures Iterate(f, a, m) == Iterate(f, a, n)
    decreases m
  {
    if n < m {
      FixedIsForever(f, a, n, m - 1);
    }
  }

  /** Along any number of refreshes the audience never gets longer; after as many refreshes as it
      has characters it is a fixed point; and from a fixed point on it never changes. */
  lemma {:induction false} AudienceSettles(a: string, n: nat, m: nat)
    requires n <= m
    ensures |Iterate(Normalize, a, n)| <= |a|
    ensures n >= |a| || IsPlain(Iterate(Normalize, a, n)) ==> Iterate(Normalize, a, m) == Iterate(Normalize, a, n)
  {
    forall s ensures Normalize(s) == s || |Normalize(s)| < |s| {
      NormalizeShortens(s);
    }
    IterateShrinks(Normalize, a, n);
    var r := Iterate(Normalize, a, n);
    FixedIffPlain(r);
    if n >= |a| || IsPlain(r) {
      FixedAt(a, n);
      FixedIsForever(Normalize, a, n, m);
    }
  }

  lemma {:induction false} FixedAt(a: string, n: nat)
    requires n >= |a| || IsPlain(Iterate(Normalize, a, n))
    ensures Normalize(Iterate(Normalize, a, n)) == Iterate(Normalize, a, n)
  {
    forall s ensures Normalize(s) == s || |Normalize(s)| < |s| {
      NormalizeShortens(s);
    }
    IterateShrinks(Normalize, a, n);
    FixedIffPlain(Iterate(Normalize, a, n));
    NormalizeShortens(Iterate(Normalize, a, n));
  }
}
