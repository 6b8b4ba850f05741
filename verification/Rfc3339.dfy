/** UTC instants as RFC 3339 strings with seconds (section 5.6 of RFC 3339), and when comparing
    the strings byte by byte compares the instants (section 5.1). */
module Rfc3339 {
  import opened Text

  // ------------------------------ The calendar ------------------------------

  predicate IsLeap(y: nat) {
    y % 4 == 0 && (y % 100 != 0 || y % 400 == 0)
  }

  function YearDays(y: nat): nat {
    if IsLeap(y) then 366 else 365
  }

  function MonthDays(y: nat, m: nat): nat {
    if m == 2 then (if IsLeap(y) then 29 else 28)
    else if m == 4 || m == 6 || m == 9 || m == 11 then 30
    else 31
  }

  datatype YearDay = YearDay(year: nat, day: nat)

  /** The year, from `y` on, in which the `days`-th day falls, and its day in that year. */
  function YearOf(days: nat, y: nat): (r: YearDay)
    ensures r.year >= y
    decreases days
  {
    if days < YearDays(y) then YearDay(y, days) else YearOf(days - YearDays(y), y + 1)
  }

  datatype MonthDay = MonthDay(month: nat, day: nat)

  function MonthOf(y: nat, day: nat, m: nat): (r: MonthDay)
    requires 1 <= m <= 12
    ensures m <= r.month <= 12
    decreases 12 - m
  {
    if m == 12 || day < MonthDays(y, m) then MonthDay(m, day + 1) else MonthOf(y, day - MonthDays(y, m), m + 1)
  }

  // ------------------------------- The format -------------------------------

  function Digit(n: nat): char
    requires n < 10
  {
    '0' + n as char
  }

  /** Decimal, zero-padded to at least `w` digits. */
  function Pad(n: nat, w: nat): string
    decreases n + w
  {
    if n < 10 && w <= 1 then [Digit(n)]
    else Pad(n / 10, if w > 0 then w - 1 else 0) + [Digit(n % 10)]
  }

  datatype Field = Field(n: nat, width: nat, sep: string)

  function Render(fs: seq<Field>): string {
    if fs == [] then "" else Pad(fs[0].n, fs[0].width) + (fs[0].sep + Render(fs[1..]))
  }

  /** The fields of second `t`, counted from the start of year 0. */
  function Stamp(t: nat): seq<Field> {
    var y := YearOf(t / 86400, 0);
    var m := MonthOf(y.year, y.day, 1);
    var s := t % 86400;
    [Field(y.year, 4, "-"), Field(m.month, 2, "-"), Field(m.day, 2, "T"),
     Field(s / 3600, 2, ":"), Field(s / 60 % 60, 2, ":"), Field(s % 60, 2, "Z")]
  }

  function Format(t: nat): string {
    Render(Stamp(t))
  }

  function Year(t: nat): nat {
    YearOf(t / 86400, 0).year
  }

  const SECOND: int := 1_000_000_000

  /** The clock counts nanoseconds from the start of year 0. */
  type Instant = nat

  function Sec(now: Instant): nat {
    now / SECOND
  }

  /** now.UTC().Format(time.RFC3339) */
  function Stamped(now: Instant): string {
    Format(Sec(now))
  }

  // --------------------- The fields denote the instant ---------------------

  function DaysBeforeYear(y: nat): nat {
    if y == 0 then 0 else DaysBeforeYear(y - 1) + YearDays(y - 1)
  }

  function DaysBeforeMonth(y: nat, m: nat): nat {
    if m <= 1 then 0 else DaysBeforeMonth(y, m - 1) + MonthDays(y, m - 1)
  }

  lemma {:induction false} YearOfInverts(days: nat, y: nat)
    ensures var r := YearOf(days, y); DaysBeforeYear(r.year) + r.day == DaysBeforeYear(y) + days
    decreases days
  {
    if days >= YearDays(y) {
      YearOfInverts(days - YearDays(y), y + 1);
    }
  }

  lemma {:induction false} MonthOfInverts(y: nat, day: nat, m: nat)
    requires 1 <= m <= 12
    ensures var r := MonthOf(y, day, m); DaysBeforeMonth(y, r.month) + r.day - 1 == DaysBeforeMonth(y, m) + day
    decreases 12 - m
  {
    if m < 12 && day >= MonthDays(y, m) {
      MonthOfInverts(y, day - MonthDays(y, m), m + 1);
    }
  }

  /** What time.Parse makes of six fields. */
  function SecondsOf(fs: seq<Field>): int
    requires |fs| == 6
  {
    86400 * (DaysBeforeYear(fs[0].n) + DaysBeforeMonth(fs[0].n, fs[1].n) + fs[2].n - 1)
    + 3600 * fs[3].n + 60 * fs[4].n + fs[5].n
  }

  /** Counting the days of the calendar back from the fields gives the second again. */
  lemma {:induction false} StampDenotes(t: nat)
    ensures SecondsOf(Stamp(t)) == t
  {
    var y := YearOf(t / 86400, 0);
    YearOfInverts(t / 86400, 0);
    MonthOfInverts(y.year, y.day, 1);
    var s := t % 86400;
    assert t == 86400 * (t / 86400) + s;
    assert s == 60 * (s / 60) + s % 60 && s / 60 == 60 * (s / 60 / 60) + s / 60 % 60 && s / 3600 == s / 60 / 60;
  }

  // ------------------------------ Byte order ------------------------------

  lemma {:induction false} LessConcat(a: string, b: string, c: string, d: string)
    requires |a| == |b|
    ensures Less(a + c, b + d) <==> Less(a, b) || (a == b && Less(c, d))
  {
    if a == "" {
      assert a + c == c && b + d == d;
    } else {
      LessConcat(a[1..], b[1..], c, d);
      assert (a + c)[1..] == a[1..] + c && (b + d)[1..] == b[1..] + d;
      assert a == [a[0]] + a[1..] && b == [b[0]] + b[1..];
    }
  }

  function Pow10(w: nat): nat {
    if w == 0 then 1 else 10 * Pow10(w - 1)
  }

  lemma {:induction false} PadOrder(n: nat, m: nat, w: nat)
    requires 1 <= w && n < Pow10(w) && m < Pow10(w)
    ensures |Pad(n, w)| == |Pad(m, w)| == w
    ensures Less(Pad(n, w), Pad(m, w)) <==> n < m
    ensures Pad(n, w) == Pad(m, w) <==> n == m
    decreases w
  {
    if w == 1 {
      assert Pow10(1) == 10 * Pow10(0);
    } else {
      PadOrder(n / 10, m / 10, w - 1);
      LessConcat(Pad(n / 10, w - 1), Pad(m / 10, w - 1), [Digit(n % 10)], [Digit(m % 10)]);
      Suffix(Pad(n / 10, w - 1), Pad(m / 10, w - 1), Digit(n % 10), Digit(m % 10));
    }
  }

  lemma {:induction false} Suffix(a: string, b: string, c: char, d: char)
    requires |a| == |b|
    ensures a + [c] == b + [d] <==> a == b && c == d
  {
    assert (a + [c])[..|a|] == a && (b + [d])[..|b|] == b;
    assert (a + [c])[|a|] == c && (b + [d])[|b|] == d;
  }

  /** Same shape, and no field wider than its width. */
  ghost predicate Comparable(a: seq<Field>, b: seq<Field>) {
    && |a| == |b|
    && forall i :: 0 <= i < |a| ==>
         && a[i].width == b[i].width >= 1 && a[i].sep == b[i].sep
         && a[i].n < Pow10(a[i].width) && b[i].n < Pow10(b[i].width)
  }

  /** Earlier in the first field that differs. */
  predicate Earlier(a: seq<Field>, b: seq<Field>)
    requires |a| == |b|
  {
    a != [] && (a[0].n < b[0].n || (a[0].n == b[0].n && Earlier(a[1..], b[1..])))
  }

  lemma {:induction false} RenderOrder(a: seq<Field>, b: seq<Field>)
    requires Comparable(a, b)
    ensures Less(Render(a), Render(b)) <==> Earlier(a, b)
    decreases |a|
  {
    if a != [] {
      RenderOrder(a[1..], b[1..]);
      PadOrder(a[0].n, b[0].n, a[0].width);
      LessConcat(Pad(a[0].n, a[0].width), Pad(b[0].n, b[0].width),
                 a[0].sep + Render(a[1..]), b[0].sep + Render(b[1..]));
      LessConcat(a[0].sep, b[0].sep, Render(a[1..]), Render(b[1..]));
      NotLessSelf(a[0].sep);
    }
  }

  // --------------------------- Time order of the fields ---------------------------

  lemma {:induction false} YearOrder(d: nat, e: nat, y: nat)
    requires d < e
    ensures var a, b := YearOf(d, y), YearOf(e, y); a.year < b.year || (a.year == b.year && a.day < b.day)
    decreases d
  {
    if d >= YearDays(y) {
      YearOrder(d - YearDays(y), e - YearDays(y), y + 1);
    }
  }

  lemma {:induction false} YearDayBound(d: nat, y: nat)
    ensures YearOf(d, y).day < YearDays(YearOf(d, y).year)
    decreases d
  {
    if d >= YearDays(y) {
      YearDayBound(d - YearDays(y), y + 1);
    }
  }

  lemma {:induction false} MonthOrder(y: nat, d: nat, e: nat, m: nat)
    requires 1 <= m <= 12 && d < e
    ensures var a, b := MonthOf(y, d, m), MonthOf(y, e, m); a.month < b.month || (a.month == b.month && a.day < b.day)
    decreases 12 - m
  {
    if m < 12 && d >= MonthDays(y, m) {
      MonthOrder(y, d - MonthDays(y, m), e - MonthDays(y, m), m + 1);
    }
  }

  /** The days from month `m` to the end of the year. */
  function DaysFrom(y: nat, m: nat): nat
    requires 1 <= m <= 12
    decreases 12 - m
  {
    MonthDays(y, m) + if m == 12 then 0 else DaysFrom(y, m + 1)
  }

  lemma {:induction false} MonthsFillTheYear(y: nat)
    ensures DaysFrom(y, 1) == YearDays(y)
  {
    assert DaysFrom(y, 10) == 92;
    assert DaysFrom(y, 7) == 184;
    assert DaysFrom(y, 4) == 275;
  }

  lemma {:induction false} MonthLength(y: nat, m: nat)
    requires 1 <= m <= 12
    ensures MonthDays(y, m) <= 31 && DaysFrom(y, m) == MonthDays(y, m) + if m == 12 then 0 else DaysFrom(y, m + 1)
  {
  }

  lemma {:induction false} MonthDayBound(y: nat, d: nat, m: nat)
    requires 1 <= m <= 12 && d < DaysFrom(y, m)
    ensures 1 <= MonthOf(y, d, m).day <= 31
    decreases 12 - m
  {
    MonthLength(y, m);
    hide MonthDays, DaysFrom;
    if m < 12 && d >= MonthDays(y, m) {
      MonthDayBound(y, d - MonthDays(y, m), m + 1);
    }
  }

  lemma {:induction false} StampFits(t: nat)
    requires Year(t) <= 9999
    ensures forall i :: 0 <= i < |Stamp(t)| ==> Stamp(t)[i].n < Pow10(Stamp(t)[i].width)
  {
    var y := YearOf(t / 86400, 0);
    YearDayBound(t / 86400, 0);
    MonthsFillTheYear(y.year);
    MonthDayBound(y.year, y.day, 1);
    assert Pow10(1) == 10 && Pow10(2) == 100 && Pow10(3) == 1000 && Pow10(4) == 10000;
  }

  lemma {:induction false} ClockOrder(s: nat, r: nat)
    requires s < r
    ensures s / 3600 < r / 3600
         || (s / 3600 == r / 3600 && (s / 60 % 60 < r / 60 % 60 || (s / 60 % 60 == r / 60 % 60 && s % 60 < r % 60)))
  {
    assert s / 3600 == s / 60 / 60 && r / 3600 == r / 60 / 60;
    assert s == 60 * (s / 60) + s % 60 && r == 60 * (r / 60) + r % 60;
    assert s / 60 == 60 * (s / 60 / 60) + s / 60 % 60 && r / 60 == 60 * (r / 60 / 60) + r / 60 % 60;
  }

  /** A later second has later fields. */
  lemma {:induction false} StampOrder(t: nat, u: nat)
    requires t < u
    ensures Earlier(Stamp(t), Stamp(u))
  {
    var a, b := Stamp(t), Stamp(u);
    if t / 86400 < u / 86400 {
      var y, z := YearOf(t / 86400, 0), YearOf(u / 86400, 0);
      YearOrder(t / 86400, u / 86400, 0);
      if y.year == z.year {
        MonthOrder(y.year, y.day, z.day, 1);
      }
      EarlierAt(a, b, if y.year < z.year then 0 else if a[1].n < b[1].n then 1 else 2);
    } else {
      ClockOrder(t % 86400, u % 86400);
      EarlierAt(a, b, if a[3].n < b[3].n then 3 else if a[4].n < b[4].n then 4 else 5);
    }
  }

  lemma {:induction false} EarlierAt(a: seq<Field>, b: seq<Field>, k: nat)
    requires |a| == |b| && k < |a| && a[k].n < b[k].n && forall i :: 0 <= i < k ==> a[i].n == b[i].n
    ensures Earlier(a, b)
  {
    if k > 0 {
      EarlierAt(a[1..], b[1..], k - 1);
    }
  }

  // ------------------------------ The theorem ------------------------------

  lemma {:induction false} LaterIsLess(t: nat, u: nat)
    requires t < u && Year(t) <= 9999 && Year(u) <= 9999
    ensures Less(Format(t), Format(u))
  {
    StampFits(t);
    StampFits(u);
    StampOrder(t, u);
    RenderOrder(Stamp(t), Stamp(u));
  }

  /** Up to the year 9999, byte order is time order. */
  lemma {:induction false} ByteOrderIsTimeOrder(t: nat, u: nat)
    requires Year(t) <= 9999 && Year(u) <= 9999
    ensures Less(Format(t), Format(u)) <==> t < u
    ensures AtMost(Format(t), Format(u)) <==> t <= u
  {
    if t < u {
      LaterIsLess(t, u);
    } else if u < t {
      LaterIsLess(u, t);
      LessAsymmetric(Format(u), Format(t));
    } else {
      NotLessSelf(Format(t));
    }
  }

  lemma {:induction false} PadHead(n: nat, w: nat)
    requires n >= 10 || w > 1
    ensures var rest := Pad(n / 10, if w > 0 then w - 1 else 0);
            rest != "" && Pad(n, w) != "" && Pad(n, w)[0] == rest[0]
  {
  }

  lemma {:induction false} YearHead(n: nat)
    requires 1000 <= n <= 19999
    ensures Pad(n, 4) != "" && Pad(n, 4)[0] == Digit(if n <= 9999 then n / 1000 else 1)
  {
    PadHead(n, 4);
    PadHead(n / 10, 3);
    PadHead(n / 10 / 10, 2);
    if n > 9999 {
      PadHead(n / 10 / 10 / 10, 1);
    }
  }

  /** Past it the order breaks: every instant of the years 10000 to 19999 sorts before every
      instant of the years 2000 to 9999. */
  lemma {:induction false} PastYear9999TheOrderBreaks(t: nat, u: nat)
    requires 2000 <= Year(t) <= 9999 && 10000 <= Year(u) <= 19999
    ensures Less(Format(u), Format(t))
  {
    YearHead(Year(t));
    YearHead(Year(u));
    assert Format(t)[0] == Pad(Year(t), 4)[0] && Format(u)[0] == Pad(Year(u), 4)[0];
  }

  lemma {:induction false} DaysGrow(y: nat, k: nat)
    requires k <= y
    ensures DaysBeforeYear(k) <= DaysBeforeYear(y)
    ensures k < y ==> DaysBeforeYear(k) + YearDays(k) <= DaysBeforeYear(y)
    decreases y
  {
    if k < y {
      DaysGrow(y - 1, k);
    }
  }

  lemma {:induction false} YearFound(y: nat, k: nat)
    requires k <= y && DaysBeforeYear(k) <= DaysBeforeYear(y)
    ensures YearOf(DaysBeforeYear(y) - DaysBeforeYear(k), k).year == y
    decreases y - k
  {
    DaysGrow(y, k);
    if k < y {
      DaysGrow(y, k + 1);
      YearFound(y, k + 1);
    }
  }

  /** The first second of a year. */
  function YearStart(y: nat): nat {
    86400 * DaysBeforeYear(y)
  }

  lemma {:induction false} YearStartsInIt(y: nat)
    ensures Year(YearStart(y)) == y
  {
    YearFound(y, 0);
    assert YearStart(y) / 86400 == DaysBeforeYear(y);
  }

  /** Among the instants up to the year `n`, byte order is time order. */
  ghost predicate OrderedUpTo(n: nat) {
    forall t, u :: Year(t) <= n && Year(u) <= n ==> InOrder(t, u)
  }

  ghost predicate InOrder(t: nat, u: nat) {
    Less(Format(t), Format(u)) <==> t < u
  }

  lemma {:induction false} StartsOutOfOrder(t: nat, u: nat)
    requires t == YearStart(9999) && u == YearStart(10000)
    ensures Year(t) == 9999 && Year(u) == 10000 && !InOrder(t, u)
  {
    YearStartsInIt(9999);
    YearStartsInIt(10000);
    DaysGrow(10000, 9999);
    hide Format, Less, Year, DaysBeforeYear;
    PastYear9999TheOrderBreaks(t, u);
    LessAsymmetric(Format(u), Format(t));
  }

  /** The year 9999 is the exact bound. */
  lemma {:induction false} OrderedIffFourDigits(n: nat)
    ensures OrderedUpTo(n) <==> n <= 9999
  {
    hide InOrder, Year, Format, Less, YearStart;
    if n <= 9999 {
      forall t, u | Year(t) <= n && Year(u) <= n ensures InOrder(t, u) {
        InOrderTo9999(t, u);
      }
    } else {
      StartsOutOfOrder(YearStart(9999), YearStart(10000));
    }
  }

  lemma {:induction false} InOrderTo9999(t: nat, u: nat)
    requires Year(t) <= 9999 && Year(u) <= 9999
    ensures InOrder(t, u)
  {
    hide Year, Format, Less;
    ByteOrderIsTimeOrder(t, u);
  }
}
