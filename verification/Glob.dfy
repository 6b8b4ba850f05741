/** globMatch of internal/store/fic_match.go: a glob compiled to the text of a regular expression,
    and the part of Go's regexp that reads such texts. */
module Glob {
  import opened Outcomes

  // ------------------------------ The compiler ------------------------------

  /** The characters that regexp.QuoteMeta escapes. */
  predicate IsSpecial(c: char) {
    c in "\\.+*?()|[]{}^$"
  }

  function QuoteMeta(c: char): string {
    if IsSpecial(c) then ['\\', c] else [c]
  }

  function CompileOne(c: char): string {
    if c == '*' then ".*" else if c == '?' then "." else QuoteMeta(c)
  }

  function CompileBody(pattern: string): string {
    if pattern == "" then "" else CompileOne(pattern[0]) + CompileBody(pattern[1..])
  }

  /** The text that globMatch builds. */
  function Compiled(pattern: string): string {
    "^" + CompileBody(pattern) + "$"
  }

  lemma {:induction false} BodyAppend(pattern: string, c: char)
    ensures CompileBody(pattern + [c]) == CompileBody(pattern) + CompileOne(c)
  {
    if pattern == "" {
      assert [c][1..] == "";
    } else {
      BodyAppend(pattern[1..], c);
      assert (pattern + [c])[1..] == pattern[1..] + [c];
    }
  }

  method Compile(pattern: string) returns (text: string)
    ensures text == Compiled(pattern)
  {
    text := "^";
    for i := 0 to |pattern|
      invariant text == "^" + CompileBody(pattern[..i])
    {
      BodyAppend(pattern[..i], pattern[i]);
      assert pattern[..i + 1] == pattern[..i] + [pattern[i]];
      if pattern[i] == '*' {
        text := text + ".*";
      } else if pattern[i] == '?' {
        text := text + ".";
      } else {
        text := text + QuoteMeta(pattern[i]);
      }
    }
    assert pattern[..|pattern|] == pattern;
    text := text + "$";
  }

  // --------------------------- Regular expressions ---------------------------

  /** One step of a concatenation. '.' matches any character but a newline. */
  datatype Item = Begin | End | Char(c: char) | Any | AnyStar

  /** Reads the fragment without groups, classes, alternation and counted repetition, where '*'
      follows '.' only; None for any other text. */
  function Parse(text: string): Option<seq<Item>> {
    if text == "" then Some([])
    else if text[0] == '^' then Cons(Begin, Parse(text[1..]))
    else if text[0] == '$' then Cons(End, Parse(text[1..]))
    else if text[0] == '\\' then
      if |text| < 2 || !IsSpecial(text[1]) then None else Cons(Char(text[1]), Parse(text[2..]))
    else if text[0] == '.' then
      if |text| >= 2 && text[1] == '*' then Cons(AnyStar, Parse(text[2..])) else Cons(Any, Parse(text[1..]))
    else if IsSpecial(text[0]) then None
    else Cons(Char(text[0]), Parse(text[1..]))
  }

  function Cons(i: Item, rest: Option<seq<Item>>): Option<seq<Item>> {
    if rest.None? then None else Some([i] + rest.value)
  }

  /** The items match some part of `v` that starts at `i`. */
  predicate MatchesAt(items: seq<Item>, v: string, i: nat)
    requires i <= |v|
    decreases |items|, |v| - i
  {
    if items == [] then true
    else
      match items[0]
      case Begin => i == 0 && MatchesAt(items[1..], v, i)
      case End => i == |v| && MatchesAt(items[1..], v, i)
      case Char(c) => i < |v| && v[i] == c && MatchesAt(items[1..], v, i + 1)
      case Any => i < |v| && v[i] != '\n' && MatchesAt(items[1..], v, i + 1)
      case AnyStar => MatchesAt(items[1..], v, i) || (i < |v| && v[i] != '\n' && MatchesAt(items, v, i + 1))
  }

  /** Regexp.MatchString: a match anywhere. */
  predicate MatchString(items: seq<Item>, v: string) {
    exists i :: 0 <= i <= |v| && MatchesAt(items, v, i)
  }

  /** globMatch: a text that does not compile matches nothing. */
  predicate GlobMatch(pattern: string, v: string) {
    var items := Parse(Compiled(pattern));
    items.Some? && MatchString(items.value, v)
  }

  // -------------------------- What the glob means --------------------------

  /** '*' is any run and '?' any one character, out of those that `wild` admits. */
  predicate Glob(pattern: string, v: string, wild: char -> bool)
    decreases |pattern| + |v|
  {
    if pattern == "" then v == ""
    else if pattern[0] == '*' then
      Glob(pattern[1..], v, wild) || (v != "" && wild(v[0]) && Glob(pattern, v[1..], wild))
    else if pattern[0] == '?' then v != "" && wild(v[0]) && Glob(pattern[1..], v[1..], wild)
    else v != "" && v[0] == pattern[0] && Glob(pattern[1..], v[1..], wild)
  }

  predicate AnyChar(c: char) {
    true
  }

  predicate NotNewline(c: char) {
    c != '\n'
  }

  // ------------------------- The compiler is correct -------------------------

  function ItemOf(c: char): Item {
    if c == '*' then AnyStar else if c == '?' then Any else Char(c)
  }

  function ItemsOf(pattern: string): seq<Item> {
    if pattern == "" then [End] else [ItemOf(pattern[0])] + ItemsOf(pattern[1..])
  }

  /** A compiled text never starts with '*', so it never captures the '.' before it. */
  lemma {:induction false} BodyHead(pattern: string)
    ensures CompileBody(pattern) + "$" != "" && (CompileBody(pattern) + "$")[0] != '*'
  {
  }

  /** Quoting survives: what the compiler writes is read back as the intended items. */
  lemma {:induction false} BodyParses(pattern: string)
    ensures Parse(CompileBody(pattern) + "$") == Some(ItemsOf(pattern))
  {
    if pattern == "" {
      assert CompileBody("") + "$" == "$" && "$"[1..] == "" && Parse("") == Some([]);
      assert [End] + [] == [End];
    } else {
      var c, tail := pattern[0], CompileBody(pattern[1..]) + "$";
      var text := CompileBody(pattern) + "$";
      assert text == CompileOne(c) + tail;
      BodyParses(pattern[1..]);
      BodyHead(pattern[1..]);
      if c == '*' || (c != '?' && IsSpecial(c)) {
        assert text[2..] == tail;
      } else {
        assert text[1..] == tail;
      }
    }
  }

  lemma {:induction false} CompiledParses(pattern: string)
    ensures Parse(Compiled(pattern)) == Some([Begin] + ItemsOf(pattern))
  {
    BodyParses(pattern);
    assert Compiled(pattern)[1..] == CompileBody(pattern) + "$";
  }

  lemma {:induction false} ItemsMean(pattern: string, v: string, i: nat)
    requires i <= |v|
    ensures MatchesAt(ItemsOf(pattern), v, i) <==> Glob(pattern, v[i..], NotNewline)
    decreases |pattern|, |v| - i
  {
    var items, rest := ItemsOf(pattern), v[i..];
    if pattern == "" {
      assert items[1..] == [];
    } else {
      assert items[1..] == ItemsOf(pattern[1..]);
      ItemsMean(pattern[1..], v, i);
      if i < |v| {
        assert rest[0] == v[i] && rest[1..] == v[i + 1..];
        ItemsMean(pattern[1..], v, i + 1);
        if pattern[0] == '*' {
          ItemsMean(pattern, v, i + 1);
        }
      }
    }
  }

  /** For every pattern and value, the compiled expression matches exactly the values that the
      glob describes with wildcards that stop at a newline. */
  lemma {:induction false} CompilationIsExact(pattern: string, v: string)
    ensures GlobMatch(pattern, v) <==> Glob(pattern, v, NotNewline)
  {
    CompiledParses(pattern);
    var items := [Begin] + ItemsOf(pattern);
    assert items[1..] == ItemsOf(pattern);
    ItemsMean(pattern, v, 0);
    assert v[0..] == v;
    assert MatchesAt(items, v, 0) <==> Glob(pattern, v, NotNewline);
    forall i | 0 < i <= |v| ensures !MatchesAt(items, v, i) {
    }
  }

  lemma {:induction false} NewlineFree(pattern: string, v: string)
    requires '\n' !in v
    ensures Glob(pattern, v, NotNewline) <==> Glob(pattern, v, AnyChar)
    decreases |pattern| + |v|
  {
    if pattern != "" {
      if pattern[0] == '*' {
        NewlineFree(pattern[1..], v);
        if v != "" {
          NewlineFree(pattern, v[1..]);
        }
      } else if v != "" {
        NewlineFree(pattern[1..], v[1..]);
      }
    }
  }

  /** On newline-free values that is the glob itself. */
  lemma {:induction false} GlobMatchIsGlob(pattern: string, v: string)
    requires '\n' !in v
    ensures GlobMatch(pattern, v) <==> Glob(pattern, v, AnyChar)
  {
    CompilationIsExact(pattern, v);
    NewlineFree(pattern, v);
  }

  lemma {:induction false} StarTakesAll(v: string)
    ensures Glob("*", v, AnyChar)
  {
    assert "*"[1..] == "";
    if v != "" {
      StarTakesAll(v[1..]);
    }
  }

  lemma {:induction false} StarStopsAtNewline(v: string)
    ensures Glob("*", v, NotNewline) <==> '\n' !in v
  {
    assert "*"[1..] == "";
    if v != "" {
      StarStopsAtNewline(v[1..]);
    }
  }

  /** A value is matched as the glob says, by every pattern, exactly when it holds no newline: the
      pattern "*" tells the two apart on every value that does. */
  lemma {:induction false} GlobForAllPatternsIff(v: string)
    ensures (forall pattern :: GlobMatch(pattern, v) <==> Glob(pattern, v, AnyChar)) <==> '\n' !in v
  {
    if '\n' in v {
      CompilationIsExact("*", v);
      StarTakesAll(v);
      StarStopsAtNewline(v);
      assert !(GlobMatch("*", v) <==> Glob("*", v, AnyChar));
    } else {
      forall pattern ensures GlobMatch(pattern, v) <==> Glob(pattern, v, AnyChar) {
        GlobMatchIsGlob(pattern, v);
      }
    }
  }

  /** The shortest such value. */
  lemma {:induction false} NewlineDiffers()
    ensures !GlobMatch("*", "\n") && Glob("*", "\n", AnyChar)
  {
    CompilationIsExact("*", "\n");
    StarTakesAll("\n");
    StarStopsAtNewline("\n");
  }
}
