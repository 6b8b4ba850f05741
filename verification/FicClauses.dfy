/** The federated-credential expression language of internal/store/fic_match.go:
    claims['k'] op 'v' clauses joined by " and ", over ASCII text. */
module FicClauses {
  import opened Outcomes
  import opened Text
  import opened Glob

  /** A decoded claim: only strings take part in matching. */
  datatype Claim = Textual(s: string) | Other

  type Claims = map<string, Claim>

  datatype Clause = Clause(key: string, op: string, want: string)

  const AND: string := " and "
  const PREFIX: string := "claims["

  /** Where the next separator is, in any letter case. */
  function FindAnd(s: string): int {
    Find(ToLower(s), AND)
  }

  predicate HasAnd(s: string) {
    FindAnd(s) >= 0
  }

  // ------------------------------- Splitting -------------------------------

  /** `find` locates the first five-character separator, one that `sep` accepts. */
  ghost predicate Finds(find: string -> int, sep: string -> bool) {
    forall s :: find(s) >= 0 ==> FoundAt(find, sep, s, find(s))
  }

  ghost predicate FoundAt(find: string -> int, sep: string -> bool, s: string, i: int) {
    0 <= i && i + 5 <= |s| && sep(s[i..i + 5]) && find(s[..i]) < 0
  }

  predicate IsAnd(s: string) {
    ToLower(s) == AND
  }

  lemma {:induction false} NoAndBefore(expr: string, i: nat)
    requires i <= |expr| && forall j :: 0 <= j < i ==> !(AND <= ToLower(expr)[j..])
    ensures FindAnd(expr[..i]) < 0
  {
    var low, all := ToLower(expr[..i]), ToLower(expr);
    forall j | 0 <= j <= |low| && j + 5 <= |low| ensures low[j..][..5] == all[j..][..5] {
    }
  }

  lemma {:induction false} FindAndFinds()
    ensures Finds(FindAnd, IsAnd)
  {
    hide Find;
    forall s | FindAnd(s) >= 0 ensures FoundAt(FindAnd, IsAnd, s, FindAnd(s)) {
      var i := FindAnd(s);
      assert ToLower(s)[i..][..5] == AND;
      assert ToLower(s[i..i + 5]) == AND;
      NoAndBefore(s, i);
    }
  }

  function SplitWith(find: string -> int, ghost sep: string -> bool, expr: string): (parts: seq<string>)
    requires Finds(find, sep)
    ensures parts != []
    decreases |expr|
  {
    var i := find(expr);
    if i < 0 then [expr]
    else
      assert FoundAt(find, sep, expr, i);
      [expr[..i]] + SplitWith(find, sep, expr[i + 5..])
  }

  /** splitAndClauses: at each " and ". */
  function SplitAnd(expr: string): seq<string> {
    FindAndFinds();
    SplitWith(FindAnd, IsAnd, expr)
  }

  method SplitLoop(find: string -> int, ghost sep: string -> bool, expr: string) returns (parts: seq<string>)
    requires Finds(find, sep)
    ensures parts == SplitWith(find, sep, expr)
  {
    parts := [];
    var rest := expr;
    while true
      invariant parts + SplitWith(find, sep, rest) == SplitWith(find, sep, expr)
      decreases |rest|
    {
      var i := find(rest);
      if i < 0 {
        parts := parts + [rest];
        return;
      }
      assert FoundAt(find, sep, rest, i);
      ghost var more := SplitWith(find, sep, rest[i + 5..]);
      assert parts + ([rest[..i]] + more) == (parts + [rest[..i]]) + more;
      parts := parts + [rest[..i]];
      rest := rest[i + 5..];
    }
  }

  method SplitAndClauses(expr: string) returns (parts: seq<string>)
    ensures parts == SplitAnd(expr)
  {
    FindAndFinds();
    parts := SplitLoop(FindAnd, IsAnd, expr);
  }

  // -------------------------------- Parsing --------------------------------

  predicate IsQuote(c: char) {
    c == '\'' || c == '"'
  }

  /** A quoted text at the start of `s`, up to the first or the last closing quote. */
  datatype Quoted = Quoted(text: string, rest: string)

  function TakeQuoted(s: string, last: bool): Option<Quoted> {
    if s == "" || !IsQuote(s[0]) then None
    else
      var rest := s[1..];
      var end := if last then LastIndexOf(rest, s[0]) else IndexOf(rest, s[0]);
      if end < 0 then None else Some(Quoted(rest[..end], rest[end + 1..]))
  }

  /** parseFICClause: what follows the last closing quote of the value is ignored. */
  function ParseClause(raw: string): Option<Clause> {
    var clause := TrimSpace(raw);
    if !(PREFIX <= ToLower(clause)) then None
    else
      var key := TakeQuoted(clause[|PREFIX|..], false);
      if key.None? then None else ParseOp(key.value.text, TrimSpace(key.value.rest))
  }

  function ParseOp(key: string, rest: string): Option<Clause> {
    if !("]" <= rest) then None
    else
      var body := TrimSpace(rest[1..]);
      var end := IndexOf(body, ' ');
      if end < 0 then None
      else
        var want := TakeQuoted(TrimSpace(body[end + 1..]), true);
        if want.None? || key == "" || body[..end] == "" then None
        else Some(Clause(key, body[..end], want.value.text))
  }

  // ------------------------------- Evaluation -------------------------------

  /** claimString */
  function ClaimString(claims: Claims, key: string): string {
    if key in claims && claims[key].Textual? then claims[key].s else ""
  }

  /** What a clause says of the claims. */
  predicate Holds(c: Clause, claims: Claims) {
    var have := ClaimString(claims, c.key);
    if ToLower(c.op) == "eq" then have == c.want
    else if ToLower(c.op) == "matches" then GlobMatch(c.want, have)
    else false
  }

  predicate EvalClause(raw: string, claims: Claims) {
    var c := ParseClause(raw);
    c.Some? && Holds(c.value, claims)
  }

  function PartEvaluator(claims: Claims): string -> bool {
    (part: string) => EvalClause(TrimSpace(part), claims)
  }

  predicate All<T(==)>(xs: seq<T>, p: T -> bool) {
    forall x :: x in xs ==> p(x)
  }

  /** EvaluateClaimsMatchingExpression */
  predicate Evaluate(raw: string, claims: Claims) {
    var expr := TrimSpace(raw);
    expr != "" && All(SplitAnd(expr), PartEvaluator(claims))
  }

  method CheckAll(xs: seq<string>, p: string -> bool) returns (yes: bool)
    ensures yes <==> All(xs, p)
  {
    for i := 0 to |xs|
      invariant forall j :: 0 <= j < i ==> p(xs[j])
    {
      assert xs[i] in xs;
      if !p(xs[i]) { return false; }
    }
    return true;
  }

  method EvaluateClaimsMatchingExpression(raw: string, claims: Claims) returns (yes: bool)
    ensures yes <==> Evaluate(raw, claims)
  {
    var expr := TrimSpace(raw);
    if expr == "" { return false; }
    var parts := SplitAndClauses(expr);
    yes := CheckAll(parts, PartEvaluator(claims));
  }

  // ------------------------- Splitting loses nothing -------------------------

  ghost function Interleave(parts: seq<string>, seps: seq<string>): string
    requires |parts| == |seps| + 1
  {
    if seps == [] then parts[0] else parts[0] + seps[0] + Interleave(parts[1..], seps[1..])
  }

  lemma {:induction false} SplitWithIsLossless(find: string -> int, sep: string -> bool, expr: string)
    returns (seps: seq<string>)
    requires Finds(find, sep)
    ensures |SplitWith(find, sep, expr)| == |seps| + 1 && Interleave(SplitWith(find, sep, expr), seps) == expr
    ensures forall s :: s in seps ==> sep(s)
    ensures forall p :: p in SplitWith(find, sep, expr) ==> find(p) < 0
    decreases |expr|
  {
    var i := find(expr);
    if i < 0 {
      seps := [];
    } else {
      assert FoundAt(find, sep, expr, i);
      var mid, rest := expr[i..i + 5], expr[i + 5..];
      var more := SplitWithIsLossless(find, sep, rest);
      seps := [mid] + more;
      var parts := SplitWith(find, sep, expr);
      assert parts == [expr[..i]] + SplitWith(find, sep, rest);
      assert parts[1..] == SplitWith(find, sep, rest) && seps[1..] == more;
      assert expr == expr[..i] + mid + rest;
    }
  }

  /** For every text: the parts, with the separators put back, are the text; the separators are
      " and " up to letter case; and no part holds another one. */
  lemma {:induction false} SplitIsLossless(expr: string) returns (seps: seq<string>)
    ensures |SplitAnd(expr)| == |seps| + 1 && Interleave(SplitAnd(expr), seps) == expr
    ensures forall s :: s in seps ==> ToLower(s) == AND
    ensures forall p :: p in SplitAnd(expr) ==> !HasAnd(p)
  {
    FindAndFinds();
    seps := SplitWithIsLossless(FindAnd, IsAnd, expr);
    forall s | s in seps ensures ToLower(s) == AND {
      assert IsAnd(s);
    }
  }

  // ------------------------------ Round trip ------------------------------

  function Print(c: Clause): string {
    "claims['" + c.key + "'] " + c.op + " '" + c.want + "'"
  }

  /** Key without its quote, operator without blanks, and no separator inside. */
  predicate Printable(c: Clause) {
    && c.key != "" && '\'' !in c.key
    && c.op != "" && ' ' !in c.op && !IsSpace(c.op[0])
    && !HasAnd(Print(c))
  }

  function JoinAnd(parts: seq<string>): string
    requires parts != []
  {
    if |parts| == 1 then parts[0] else parts[0] + AND + JoinAnd(parts[1..])
  }

  function PrintAll(cs: seq<Clause>): string
    requires cs != []
  {
    JoinAnd(MapSeq(cs, Print))
  }

  /** Text that neither starts nor ends with a blank is its own trim. */
  lemma {:induction false} TrimOneBlank(s: string)
    requires s != "" && !IsSpace(s[0]) && !IsSpace(s[|s| - 1])
    ensures TrimSpace(" " + s) == s
  {
    TrimLeftOne(' ', s, IsSpace);
    assert TrimLeft(" " + s, IsSpace) == s;
  }

  lemma {:induction false} QuotedFirst(text: string, rest: string)
    requires '\'' !in text
    ensures TakeQuoted("'" + text + "'" + rest, false) == Some(Quoted(text, rest))
  {
    assert ("'" + text + "'" + rest)[1..] == text + "'" + rest;
    FirstIndex(text, '\'', rest);
  }

  lemma {:induction false} QuotedLast(text: string)
    ensures TakeQuoted("'" + text + "'", true) == Some(Quoted(text, ""))
  {
    var t := ("'" + text + "'")[1..];
    assert t == text + "'" && t[|t| - 1] == '\'';
    assert t[..|text|] == text;
  }

  /** parseFICClause after the key, one cut after the other. */
  lemma {:induction false} OpSteps(c: Clause, rest: string, body: string, tail: string)
    requires c.key != "" && c.op != "" && "]" <= rest && TrimSpace(rest[1..]) == body
    requires IndexOf(body, ' ') == |c.op| && body[..|c.op|] == c.op && body[|c.op| + 1..] == tail
    requires TrimSpace(tail) == tail && TakeQuoted(tail, true) == Some(Quoted(c.want, ""))
    ensures ParseOp(c.key, rest) == Some(c)
  {
    hide TrimSpace, IndexOf, TakeQuoted;
  }

  function PrintedTail(c: Clause): string {
    "'" + c.want + "'"
  }

  function PrintedBody(c: Clause): string {
    c.op + " " + PrintedTail(c)
  }

  lemma {:induction false} ParsePrintedOp(c: Clause)
    requires c.key != "" && c.op != "" && ' ' !in c.op && !IsSpace(c.op[0])
    ensures ParseOp(c.key, "] " + PrintedBody(c)) == Some(c)
  {
    var tail, body := PrintedTail(c), PrintedBody(c);
    assert ("] " + body)[1..] == " " + body;
    TrimOneBlank(body);
    FirstIndex(c.op, ' ', tail);
    TrimSpaceKeeps(tail);
    QuotedLast(c.want);
    OpSteps(c, "] " + body, body, tail);
  }

  lemma {:induction false} LowerPrefix(s: string)
    ensures PREFIX <= ToLower(PREFIX + s)
  {
    var low := ToLower(PREFIX + s);
    assert low[..|PREFIX|] == PREFIX;
  }

  lemma {:induction false} KeySteps(c: Clause, s: string, ops: string)
    requires TrimSpace(s) == s && PREFIX <= ToLower(s)
    requires TakeQuoted(s[|PREFIX|..], false) == Some(Quoted(c.key, ops))
    requires TrimSpace(ops) == ops && ParseOp(c.key, ops) == Some(c)
    ensures ParseClause(s) == Some(c)
  {
  }

  lemma {:induction false} PrintedShape(c: Clause)
    ensures Print(c) == PREFIX + ("'" + c.key + "'" + ("] " + PrintedBody(c)))
    ensures Print(c)[0] == 'c' && Print(c)[|Print(c)| - 1] == '\''
  {
  }

  /** A printed clause parses back to itself. */
  lemma {:induction false} ParsePrinted(c: Clause)
    requires Printable(c)
    ensures ParseClause(Print(c)) == Some(c) && TrimSpace(Print(c)) == Print(c)
  {
    var ops := "] " + PrintedBody(c);
    var quoted := "'" + c.key + "'" + ops;
    PrintedShape(c);
    TrimSpaceKeeps(Print(c));
    LowerPrefix(quoted);
    assert Print(c)[|PREFIX|..] == quoted;
    QuotedFirst(c.key, ops);
    TrimSpaceKeeps(ops);
    ParsePrintedOp(c);
    KeySteps(c, Print(c), ops);
  }

  /** The first separator after a printed clause is the one that was put there: none before it
      fits inside the clause, and none can straddle the clause's closing quote. */
  lemma {:induction false} FirstAnd(a: string, rest: string)
    requires !HasAnd(a) && a != "" && a[|a| - 1] == '\''
    ensures FindAnd(a + AND + rest) == |a|
  {
    var low := ToLower(a + AND + rest);
    assert low == ToLower(a) + AND + ToLower(rest);
    forall i | 0 <= i < |a| ensures !(AND <= low[i..]) {
      NoneBefore(ToLower(a), AND + ToLower(rest), low, i);
    }
    assert AND <= low[|a|..];
  }

  lemma {:induction false} NoneBefore(a: string, tail: string, all: string, i: nat)
    requires all == a + tail && i < |a| && a[|a| - 1] == '\'' && Find(a, AND) < 0
    ensures !(AND <= all[i..])
  {
    if i + 5 <= |a| {
      assert all[i..][..5] == a[i..][..5];
      assert !(AND <= a[i..]);
    } else {
      assert all[i..][|a| - 1 - i] == '\'';
    }
  }

  /** Parts of which none holds a separator, joined, are split apart again. */
  lemma {:induction false} SplitJoined(find: string -> int, sep: string -> bool, parts: seq<string>)
    requires Finds(find, sep) && parts != []
    requires forall p :: p in parts ==> find(p) < 0
    requires forall p, rest :: p in parts ==> find(p + AND + rest) == |p|
    ensures SplitWith(find, sep, JoinAnd(parts)) == parts
    decreases |parts|
  {
    var p := parts[0];
    assert p in parts;
    if |parts| > 1 {
      var rest := JoinAnd(parts[1..]);
      var all := p + AND + rest;
      assert find(all) == |p|;
      assert all[..|p|] == p && all[|p| + 5..] == rest;
      SplitJoined(find, sep, parts[1..]);
      assert parts == [p] + parts[1..];
    } else {
      assert parts == [p];
    }
  }

  lemma {:induction false} SplitPrinted(cs: seq<Clause>)
    requires cs != [] && forall c :: c in cs ==> Printable(c)
    ensures SplitAnd(PrintAll(cs)) == MapSeq(cs, Print)
  {
    SplitUnsplit(cs);
  }

  /** Prints without a separator, joined, are split apart again. */
  lemma {:induction false} SplitUnsplit(cs: seq<Clause>)
    requires cs != [] && forall c :: c in cs ==> !HasAnd(Print(c))
    ensures SplitAnd(PrintAll(cs)) == MapSeq(cs, Print)
  {
    var parts := MapSeq(cs, Print);
    forall p | p in parts ensures !HasAnd(p) && p != "" && p[|p| - 1] == '\'' {
      var i :| 0 <= i < |parts| && parts[i] == p;
      assert !HasAnd(Print(cs[i]));
      PrintedShape(cs[i]);
    }
    forall p, rest | p in parts ensures FindAnd(p + AND + rest) == |p| {
      FirstAnd(p, rest);
    }
    FindAndFinds();
    SplitJoined(FindAnd, IsAnd, parts);
  }

  /** Split and parsed back, a printed list of clauses is the list. */
  lemma {:induction false} ExpressionRoundTrip(cs: seq<Clause>)
    requires cs != [] && forall c :: c in cs ==> Printable(c)
    ensures MapSeq(SplitAnd(PrintAll(cs)), ParseClause) == MapSeq(cs, (c: Clause) => Some(c))
  {
    SplitPrinted(cs);
    forall i | 0 <= i < |cs| ensures ParseClause(Print(cs[i])) == Some(cs[i]) {
      ParsePrinted(cs[i]);
    }
  }

  // ------------------------- Exactly the printable clauses -------------------------

  lemma {:induction false} QuotedText(s: string)
    requires s != "" && TakeQuoted(s, false).Some?
    ensures s[0] !in TakeQuoted(s, false).value.text
  {
    hide IndexOf, LastIndexOf;
  }

  lemma {:induction false} ParsedSteps(raw: string, clause: string, c: Clause) returns (key: Quoted)
    requires clause == TrimSpace(raw) && ParseClause(raw) == Some(c)
    ensures |clause| >= |PREFIX| && TakeQuoted(clause[|PREFIX|..], false) == Some(key)
    ensures ParseOp(key.text, TrimSpace(key.rest)) == Some(c)
  {
    hide TrimSpace, TakeQuoted, ParseOp, ToLower;
    key := TakeQuoted(clause[|PREFIX|..], false).value;
  }

  /** What parsing gives has its key up to the first quote, and an operator up to the first blank. */
  lemma {:induction false} ParsedShape(c: Clause, quoted: string, key: Quoted, rest: string)
    requires TakeQuoted(quoted, false) == Some(key) && ParseOp(key.text, rest) == Some(c)
    ensures quoted != "" && quoted[0] !in c.key
    ensures c.key != "" && c.op != "" && ' ' !in c.op && !IsSpace(c.op[0])
  {
    QuotedText(quoted);
    OpShape(c, key.text, rest);
  }

  lemma {:induction false} OpShape(c: Clause, key: string, rest: string)
    requires ParseOp(key, rest) == Some(c)
    ensures c.key == key && c.key != "" && c.op != "" && ' ' !in c.op && !IsSpace(c.op[0])
  {
    TrimmedHead(rest[1..]);
    hide TrimSpace, TakeQuoted, IndexOf;
    var body := TrimSpace(rest[1..]);
    assert c.op == body[..IndexOf(body, ' ')];
  }

  lemma {:induction false} TrimmedHead(s: string)
    ensures TrimSpace(s) != "" ==> !IsSpace(TrimSpace(s)[0])
  {
    var l := TrimLeft(s, IsSpace);
    var t := TrimRight(l, IsSpace);
    assert t != "" ==> t[0] == l[0];
  }

  /** A clause is printable exactly when its print holds no separator and parses back to it. */
  lemma {:induction false} PrintableIff(c: Clause)
    ensures Printable(c) <==> !HasAnd(Print(c)) && ParseClause(Print(c)) == Some(c)
  {
    PrintedShape(c);
    hide ParseClause, TrimSpace, HasAnd, Print, PrintedBody;
    if Printable(c) {
      ParsePrinted(c);
    }
    if ParseClause(Print(c)) == Some(c) {
      TrimSpaceKeeps(Print(c));
      var key := ParsedSteps(Print(c), Print(c), c);
      var quoted := "'" + c.key + "'" + ("] " + PrintedBody(c));
      assert Print(c)[|PREFIX|..] == quoted;
      ParsedShape(c, quoted, key, TrimSpace(key.rest));
    }
  }

  lemma {:induction false} FindStays(low: string, tail: string)
    requires Find(low, AND) >= 0 && low[|low| - 1] == '\''
    ensures Find(low + tail, AND) == Find(low, AND) && Find(low, AND) + 5 < |low|
  {
    hide Find;
    var all, i := low + tail, Find(low, AND);
    assert low[i..][..5] == AND && low[i + 4] == AND[4];
    assert all[i..][..5] == low[i..][..5];
    forall j | 0 <= j < i ensures !(AND <= all[j..]) {
      assert all[j..][..5] == low[j..][..5] && !(AND <= low[j..]);
    }
  }

  lemma {:induction false} LowerJoined(a: string, rest: string)
    requires a != "" && a[|a| - 1] == '\''
    ensures ToLower(a + AND + rest) == ToLower(a) + (AND + ToLower(rest)) && ToLower(a)[|a| - 1] == '\''
  {
  }

  /** The first separator of a text that ends in a quote is the first one of all that follows it. */
  lemma {:induction false} FirstStays(a: string, rest: string)
    requires a != "" && a[|a| - 1] == '\'' && HasAnd(a)
    ensures FindAnd(a + AND + rest) == FindAnd(a) && FindAnd(a) + 5 < |a|
  {
    hide ToLower, Find;
    LowerJoined(a, rest);
    FindStays(ToLower(a), AND + ToLower(rest));
  }

  /** A text that ends in a quote is split on its own, whatever follows. */
  lemma {:induction false} SplitsApart(a: string, rest: string)
    requires a != "" && a[|a| - 1] == '\''
    ensures SplitAnd(a + AND + rest) == SplitAnd(a) + SplitAnd(rest)
    decreases |a|
  {
    hide SplitAnd, FindAnd;
    var all := a + AND + rest;
    if !HasAnd(a) {
      FirstAnd(a, rest);
      SplitAtFirst(all, |a|);
      assert all[..|a|] == a && all[|a| + 5..] == rest;
      SplitOne(a);
    } else {
      var i := FindAnd(a);
      FirstStays(a, rest);
      SplitAtFirst(all, i);
      SplitAtFirst(a, i);
      var more := a[i + 5..];
      assert all[..i] == a[..i] && all[i + 5..] == more + AND + rest;
      SplitsApart(more, rest);
      assert [a[..i]] + (SplitAnd(more) + SplitAnd(rest)) == ([a[..i]] + SplitAnd(more)) + SplitAnd(rest);
    }
  }

  lemma {:induction false} SplitAtFirst(s: string, i: nat)
    requires FindAnd(s) == i && i + 5 <= |s|
    ensures SplitAnd(s) == [s[..i]] + SplitAnd(s[i + 5..])
  {
    FindAndFinds();
  }

  lemma {:induction false} SplitOne(s: string)
    ensures if HasAnd(s) then |SplitAnd(s)| >= 2 else SplitAnd(s) == [s]
  {
    FindAndFinds();
    if HasAnd(s) {
      var i := FindAnd(s);
      assert FoundAt(FindAnd, IsAnd, s, i);
      hide FindAnd, ToLower;
      SplitAtFirst(s, i);
      SomeParts(s[i + 5..]);
    }
  }

  lemma {:induction false} SomeParts(s: string)
    ensures |SplitAnd(s)| >= 1
  {
    FindAndFinds();
    hide FindAnd;
  }

  ghost predicate NoneSplit(cs: seq<Clause>) {
    forall c :: c in cs ==> !HasAnd(Print(c))
  }

  /** There are at least as many parts as clauses, and as many only if no clause is split. */
  lemma {:induction false} PartsOfPrinted(cs: seq<Clause>)
    requires cs != []
    ensures |SplitAnd(PrintAll(cs))| >= |cs|
    ensures |SplitAnd(PrintAll(cs))| == |cs| ==> NoneSplit(cs)
    decreases |cs|
  {
    hide SplitAnd, Print, HasAnd, PrintAll;
    var p := Print(cs[0]);
    SplitOne(p);
    if |cs| == 1 {
      PrintOne(cs);
      assert cs == [cs[0]];
    } else {
      PrintedEnds(cs[0]);
      PrintAllCons(cs);
      SplitsApart(p, PrintAll(cs[1..]));
      PartsOfPrinted(cs[1..]);
      assert cs == [cs[0]] + cs[1..];
    }
  }

  lemma {:induction false} PrintedEnds(c: Clause)
    ensures Print(c) != "" && Print(c)[|Print(c)| - 1] == '\''
  {
    PrintedShape(c);
  }

  lemma {:induction false} PrintOne(cs: seq<Clause>)
    requires |cs| == 1
    ensures PrintAll(cs) == Print(cs[0])
  {
    assert MapSeq(cs, Print) == [Print(cs[0])];
  }

  lemma {:induction false} PrintAllCons(cs: seq<Clause>)
    requires |cs| > 1
    ensures PrintAll(cs) == Print(cs[0]) + AND + PrintAll(cs[1..])
  {
    assert MapSeq(cs, Print)[1..] == MapSeq(cs[1..], Print);
  }

  /** The list of clauses comes back from its print. */
  ghost predicate ComesBack(cs: seq<Clause>)
    requires cs != []
  {
    MapSeq(SplitAnd(PrintAll(cs)), ParseClause) == MapSeq(cs, (c: Clause) => Some(c))
  }

  /** A non-empty list of clauses, printed, joined, split and parsed, comes back exactly when all of
      them are printable. */
  lemma {:induction false} ComesBackIff(cs: seq<Clause>)
    requires cs != []
    ensures ComesBack(cs) <==> forall c :: c in cs ==> Printable(c)
  {
    if forall c :: c in cs ==> Printable(c) {
      ExpressionRoundTrip(cs);
    } else if ComesBack(cs) {
      CameBack(cs);
    }
  }

  lemma {:induction false} CameBack(cs: seq<Clause>)
    requires cs != [] && ComesBack(cs)
    ensures forall c :: c in cs ==> Printable(c)
  {
    hide SplitAnd, PrintAll, ParseClause, Printable, Print;
    var parts := SplitAnd(PrintAll(cs));
    assert |MapSeq(parts, ParseClause)| == |MapSeq(cs, (c: Clause) => Some(c))|;
    PartsOfPrinted(cs);
    SplitUnsplit(cs);
    forall c | c in cs ensures Printable(c) {
      var i :| 0 <= i < |cs| && cs[i] == c;
      assert MapSeq(parts, ParseClause)[i] == Some(c) && parts[i] == Print(c);
      PrintableIff(c);
    }
  }

  lemma {:induction false} JoinedEnds(parts: seq<string>)
    requires parts != [] && forall p :: p in parts ==> p != "" && p[0] == 'c' && p[|p| - 1] == '\''
    ensures var s := JoinAnd(parts); s != "" && s[0] == 'c' && s[|s| - 1] == '\''
    decreases |parts|
  {
    assert parts[0] in parts;
    if |parts| > 1 {
      JoinedEnds(parts[1..]);
    }
  }

  lemma {:induction false} PrintedIsTrimmed(cs: seq<Clause>)
    requires cs != []
    ensures PrintAll(cs) != "" && TrimSpace(PrintAll(cs)) == PrintAll(cs)
  {
    var parts := MapSeq(cs, Print);
    forall p | p in parts ensures p != "" && p[0] == 'c' && p[|p| - 1] == '\'' {
      var i :| 0 <= i < |parts| && parts[i] == p;
      PrintedShape(cs[i]);
    }
    JoinedEnds(parts);
    TrimSpaceKeeps(PrintAll(cs));
  }

  lemma {:induction false} AllTransfer<A, B>(xs: seq<A>, ys: seq<B>, p: A -> bool, q: B -> bool)
    requires |xs| == |ys| && forall i :: 0 <= i < |xs| ==> (p(xs[i]) <==> q(ys[i]))
    ensures All(xs, p) <==> All(ys, q)
  {
    forall i | 0 <= i < |xs| ensures xs[i] in xs && ys[i] in ys {
    }
    if All(xs, p) {
      forall y | y in ys ensures q(y) {
        var i :| 0 <= i < |ys| && ys[i] == y;
        assert p(xs[i]);
      }
    }
    if All(ys, q) {
      forall x | x in xs ensures p(x) {
        var i :| 0 <= i < |xs| && xs[i] == x;
        assert q(ys[i]);
      }
    }
  }

  lemma {:induction false} ParsedEvaluates(raw: string, c: Clause, claims: Claims)
    requires ParseClause(raw) == Some(c)
    ensures EvalClause(raw, claims) <==> Holds(c, claims)
  {
  }

  /** `p` judges a trimmed text that parses as `q` judges what it parses to. */
  ghost predicate Judges(p: string -> bool, q: Clause -> bool) {
    forall raw, c {:trigger JudgesOne(p, q, raw, c)} :: JudgesOne(p, q, raw, c)
  }

  ghost predicate JudgesOne(p: string -> bool, q: Clause -> bool, raw: string, c: Clause) {
    ParsesTo(raw, c) ==> (p(raw) <==> q(c))
  }

  ghost predicate ParsesTo(raw: string, c: Clause) {
    TrimSpace(raw) == raw && ParseClause(raw) == Some(c)
  }

  ghost predicate AllParse(parts: seq<string>, cs: seq<Clause>) {
    |parts| == |cs| && forall i {:trigger ParsesTo(parts[i], cs[i])} :: 0 <= i < |cs| ==> ParsesTo(parts[i], cs[i])
  }

  lemma {:induction false} PrintedParse(cs: seq<Clause>)
    requires forall c :: c in cs ==> Printable(c)
    ensures AllParse(MapSeq(cs, Print), cs)
  {
    forall i | 0 <= i < |cs| ensures ParsesTo(Print(cs[i]), cs[i]) {
      ParsePrinted(cs[i]);
    }
  }

  lemma {:induction false} JudgedAlike(parts: seq<string>, cs: seq<Clause>, p: string -> bool, q: Clause -> bool)
    requires Judges(p, q) && AllParse(parts, cs)
    ensures All(parts, p) <==> All(cs, q)
  {
    forall i | 0 <= i < |cs| ensures p(parts[i]) <==> q(cs[i]) {
      assert ParsesTo(parts[i], cs[i]) && JudgesOne(p, q, parts[i], cs[i]);
    }
    AllTransfer(parts, cs, p, q);
  }

  lemma {:induction false} TrimmedEvaluates(claims: Claims, raw: string, trimmed: string, c: Clause)
    requires trimmed == TrimSpace(raw) && ParseClause(trimmed) == Some(c)
    ensures PartEvaluator(claims)(raw) <==> Meaning(claims)(c)
  {
    ParsedEvaluates(trimmed, c, claims);
  }

  lemma {:induction false} EvaluatorJudges(claims: Claims)
    ensures Judges(PartEvaluator(claims), Meaning(claims))
  {
    hide PartEvaluator, Meaning, JudgesOne;
    forall raw, c ensures JudgesOne(PartEvaluator(claims), Meaning(claims), raw, c) {
      EvaluatorJudgesOne(claims, raw, c);
    }
  }

  lemma {:induction false} EvaluatorJudgesOne(claims: Claims, raw: string, c: Clause)
    ensures JudgesOne(PartEvaluator(claims), Meaning(claims), raw, c)
  {
    if TrimSpace(raw) == raw && ParseClause(raw) == Some(c) {
      TrimmedEvaluates(claims, raw, raw, c);
    }
  }

  function Meaning(claims: Claims): Clause -> bool {
    (c: Clause) => Holds(c, claims)
  }

  /** And its evaluation is the conjunction of what its clauses say. */
  lemma {:induction false} EvaluationIsConjunction(cs: seq<Clause>, claims: Claims)
    requires cs != [] && forall c :: c in cs ==> Printable(c)
    ensures Evaluate(PrintAll(cs), claims) <==> All(cs, Meaning(claims))
  {
    PrintedIsTrimmed(cs);
    SplitPrinted(cs);
    EvaluatorJudges(claims);
    PrintedParse(cs);
    JudgedAlike(MapSeq(cs, Print), cs, PartEvaluator(claims), Meaning(claims));
  }

  // ------------------------- What the clauses say of the claims -------------------------

  /** The claim is the text `s`; one that is missing or is no text is the empty text. */
  ghost predicate HasClaim(claims: Claims, key: string, s: string) {
    if key in claims && claims[key].Textual? then claims[key] == Textual(s) else s == ""
  }

  /** In any letter case: "eq" is equality with the claim, "matches" is the glob, with wildcards for
      the characters that `wild` admits; no other operator says anything. */
  ghost predicate Says(c: Clause, claims: Claims, wild: char -> bool) {
    exists have :: HasClaim(claims, c.key, have) &&
      ((SameText(c.op, "eq") && have == c.want) || (SameText(c.op, "matches") && Glob.Glob(c.want, have, wild)))
  }

  ghost predicate NoNewlines(claims: Claims) {
    forall k :: k in claims && claims[k].Textual? ==> '\n' !in claims[k].s
  }

  lemma {:induction false} OperatorIs(op: string)
    ensures ToLower(op) == "eq" <==> SameText(op, "eq")
    ensures ToLower(op) == "matches" <==> SameText(op, "matches")
  {
    LowerIffSame(op, "eq");
    LowerIffSame(op, "matches");
    hide SameText;
    assert ToLower("eq") == "eq" && ToLower("matches") == "matches";
  }

  lemma {:induction false} HoldsIff(c: Clause, claims: Claims)
    ensures Holds(c, claims) <==> Says(c, claims, NotNewline)
    ensures NoNewlines(claims) ==> (Holds(c, claims) <==> Says(c, claims, AnyChar))
  {
    var have := ClaimString(claims, c.key);
    assert HasClaim(claims, c.key, have) && forall s :: HasClaim(claims, c.key, s) ==> s == have;
    OperatorIs(c.op);
    CompilationIsExact(c.want, have);
    if NoNewlines(claims) {
      NewlineFree(c.want, have);
    }
    hide GlobMatch, Glob.Glob, SameText, ToLower, HasClaim, ClaimString;
  }

  /** A printed list of clauses is true of the claims exactly when each clause is; where no claim
      holds a newline, with wildcards for every character. */
  lemma {:induction false} PrintedListSays(cs: seq<Clause>, claims: Claims)
    requires cs != [] && forall c :: c in cs ==> Printable(c)
    ensures Evaluate(PrintAll(cs), claims) <==> forall c :: c in cs ==> Says(c, claims, NotNewline)
    ensures NoNewlines(claims) ==>
              (Evaluate(PrintAll(cs), claims) <==> forall c :: c in cs ==> Says(c, claims, AnyChar))
  {
    EvaluationIsConjunction(cs, claims);
    hide Evaluate, PrintAll, Holds, Says, Printable;
    forall c ensures Holds(c, claims) <==> Says(c, claims, NotNewline)
             ensures NoNewlines(claims) ==> (Holds(c, claims) <==> Says(c, claims, AnyChar))
    {
      HoldsIff(c, claims);
    }
  }
}
