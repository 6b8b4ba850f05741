/** Storage queue messages (internal/store/data.go): dequeued messages are hidden until a
    visibility time, kept as an RFC 3339 string and compared as a string. */
module StorageQueue {
  import opened Outcomes
  import opened Tables
  import opened Text
  import opened Rfc3339

  datatype Message = Message(account: string, queue: string, body: string, insertedAt: string, visibleAfter: string)

  const TWO63: int := 0x8000_0000_0000_0000

  /** int64 arithmetic wraps. */
  function WrapInt64(n: int): int {
    (n + TWO63) % (2 * TWO63) - TWO63
  }

  /** now.Add(time.Duration(timeout) * time.Second), as a string. An overflowing product may be
      negative; the clock itself is taken not to run below year 0. */
  function VisibleAt(now: Instant, timeout: int): string {
    var until := now + WrapInt64(timeout * SECOND);
    Stamped(if until < 0 then 0 else until)
  }

  predicate IsVisible(m: Message, nowStr: string) {
    m.visibleAfter == "" || AtMost(m.visibleAfter, nowStr)
  }

  /** The WHERE clause shared by Peek and Dequeue. */
  function Where(account: string, queue: string, nowStr: string): Message -> bool {
    (m: Message) => m.account == account && m.queue == queue && IsVisible(m, nowStr)
  }

  /** UPDATE ... SET visible_after = ? WHERE id = ? */
  function SetVisible(rows: seq<Row<Message>>, id: nat, at: string): seq<Row<Message>> {
    if rows == [] then []
    else
      var r := if rows[0].id == id then rows[0].(data := rows[0].data.(visibleAfter := at)) else rows[0];
      [r] + SetVisible(rows[1..], id, at)
  }

  /** The table after a Dequeue. */
  function Dequeued(t: Table<Message>, account: string, queue: string, timeout: int, now: Instant): Table<Message> {
    match Oldest(t.rows, Where(account, queue, Stamped(now)))
    case None => t
    case Some(r) =>
      t.(rows := if timeout > 0 then SetVisible(t.rows, r.id, VisibleAt(now, timeout)) else DeleteId(t.rows, r.id))
  }

  function Enqueued(t: Table<Message>, account: string, queue: string, body: string, now: Instant): Table<Message> {
    Insert(t, Message(account, queue, body, Stamped(now), ""))
  }

  ghost predicate IsOldestVisible(t: Table<Message>, account: string, queue: string, now: Instant, r: Row<Message>) {
    && r in t.rows && Where(account, queue, Stamped(now))(r.data)
    && forall x :: x in t.rows && Where(account, queue, Stamped(now))(x.data) ==> r.id <= x.id
  }

  class Store {
    var messages: Table<Message>

    constructor ()
      ensures messages == Table([], 0)
    {
      messages := Table([], 0);
    }

    method Enqueue(account: string, queue: string, body: string, now: Instant)
      modifies this
      ensures messages == Enqueued(old(messages), account, queue, body, now)
    {
      messages := Insert(messages, Message(account, queue, body, Stamped(now), ""));
    }

    /** The body of the oldest visible message of the queue, if there is one. */
    method Peek(account: string, queue: string, now: Instant) returns (body: Option<string>)
      requires Valid(messages)
      ensures body.Some? ==> exists r :: IsOldestVisible(messages, account, queue, now, r) && r.data.body == body.value
      ensures body.None? ==> forall r :: r in messages.rows ==> !Where(account, queue, Stamped(now))(r.data)
    {
      var o := Oldest(messages.rows, Where(account, queue, Stamped(now)));
      OldestIsLeast(messages, Where(account, queue, Stamped(now)));
      if o.Some? {
        assert IsOldestVisible(messages, account, queue, now, o.value);
      }
      body := if o.Some? then Some(o.value.data.body) else None;
    }

    method Dequeue(account: string, queue: string, timeout: int, now: Instant) returns (body: Option<string>)
      modifies this
      ensures messages == Dequeued(old(messages), account, queue, timeout, now)
      ensures var o := Oldest(old(messages).rows, Where(account, queue, Stamped(now)));
              body == if o.Some? then Some(o.value.data.body) else None
    {
      var nowStr := Stamped(now);
      match Oldest(messages.rows, Where(account, queue, nowStr))
      case None => body := None;
      case Some(r) =>
        if timeout > 0 {
          var vis := VisibleAt(now, timeout);
          messages := messages.(rows := SetVisible(messages.rows, r.id, vis));
        } else {
          messages := messages.(rows := DeleteId(messages.rows, r.id));
        }
        body := Some(r.data.body);
    }
  }

  // --------------------------------- Runs ---------------------------------

  datatype Op =
    | DoEnqueue(account: string, queue: string, body: string, now: Instant)
    | DoPeek(account: string, queue: string, now: Instant)
    | DoDequeue(account: string, queue: string, timeout: int, now: Instant)

  function Apply(t: Table<Message>, op: Op): Table<Message> {
    match op
    case DoEnqueue(a, q, body, now) => Enqueued(t, a, q, body, now)
    case DoPeek(_, _, _) => t
    case DoDequeue(a, q, timeout, now) => Dequeued(t, a, q, timeout, now)
  }

  /** The row that an operation returns to its caller. */
  function Returned(t: Table<Message>, op: Op): Option<Row<Message>> {
    if op.DoEnqueue? then None else Oldest(t.rows, Where(op.account, op.queue, Stamped(op.now)))
  }

  function Run(t: Table<Message>, ops: seq<Op>): Table<Message>
    decreases |ops|
  {
    if ops == [] then t else Run(Apply(t, ops[0]), ops[1..])
  }

  lemma {:induction false} SetVisibleShape(rows: seq<Row<Message>>, id: nat, at: string)
    ensures var s := SetVisible(rows, id, at);
            |s| == |rows| && forall i :: 0 <= i < |s| ==>
              s[i] == if rows[i].id == id then rows[i].(data := rows[i].data.(visibleAfter := at)) else rows[i]
  {
    if rows != [] {
      SetVisibleShape(rows[1..], id, at);
    }
  }

  lemma {:induction false} SetVisibleValid(t: Table<Message>, id: nat, at: string)
    requires Valid(t)
    ensures Valid(t.(rows := SetVisible(t.rows, id, at)))
  {
    SetVisibleShape(t.rows, id, at);
  }

  lemma {:induction false} TakenValid(t: Table<Message>, id: nat, timeout: int, at: string)
    requires Valid(t)
    ensures Valid(t.(rows := if timeout > 0 then SetVisible(t.rows, id, at) else DeleteId(t.rows, id)))
  {
    SetVisibleValid(t, id, at);
    DeleteValid(t, id);
  }

  lemma {:induction false} ApplyValid(t: Table<Message>, op: Op)
    requires Valid(t)
    ensures Valid(Apply(t, op))
  {
    hide Valid, VisibleAt, Stamped, SetVisible, DeleteId, Oldest, Insert;
    match op
    case DoEnqueue(a, q, body, now) => InsertValid(t, Message(a, q, body, Stamped(now), ""));
    case DoPeek(_, _, _) =>
    case DoDequeue(a, q, timeout, now) =>
      var o := Oldest(t.rows, Where(a, q, Stamped(now)));
      if o.Some? {
        TakenValid(t, o.value.id, timeout, VisibleAt(now, timeout));
      }
  }

  // ------------------------------ Never lost ------------------------------

  predicate Holds(t: Table<Message>, id: nat) {
    exists i :: 0 <= i < |t.rows| && t.rows[i].id == id
  }

  /** An operation removes message `id` exactly when it is an untimed dequeue that returns it. */
  predicate Removes(t: Table<Message>, op: Op, id: nat) {
    op.DoDequeue? && op.timeout <= 0 && Returned(t, op).Some? && Returned(t, op).value.id == id
  }

  predicate RemovedIn(t: Table<Message>, ops: seq<Op>, id: nat)
    decreases |ops|
  {
    ops != [] && (Removes(t, ops[0], id) || RemovedIn(Apply(t, ops[0]), ops[1..], id))
  }

  lemma {:induction false} StepNeverLoses(t: Table<Message>, op: Op, id: nat)
    requires Valid(t) && Holds(t, id)
    ensures Holds(Apply(t, op), id) <==> !Removes(t, op, id)
  {
    var i :| 0 <= i < |t.rows| && t.rows[i].id == id;
    match op
    case DoEnqueue(a, q, body, now) =>
      assert Apply(t, op).rows[i] == t.rows[i];
    case DoPeek(_, _, _) =>
    case DoDequeue(a, q, timeout, now) =>
      var o := Oldest(t.rows, Where(a, q, Stamped(now)));
      if o.Some? {
        if timeout > 0 {
          SetVisibleShape(t.rows, o.value.id, VisibleAt(now, timeout));
          assert Apply(t, op).rows[i].id == id;
        } else {
          DeleteHolds(t, o.value.id, i);
        }
      }
  }

  lemma {:induction false} DeleteHolds(t: Table<Message>, gone: nat, i: nat)
    requires i < |t.rows|
    ensures Holds(t.(rows := DeleteId(t.rows, gone)), t.rows[i].id) <==> t.rows[i].id != gone
  {
    var rows := DeleteId(t.rows, gone);
    var r := t.rows[i];
    DeletedRow(t.rows, gone, r);
    if r.id != gone {
      var j :| 0 <= j < |rows| && rows[j] == r;
      assert t.(rows := rows).rows[j].id == r.id;
    } else if exists j :: 0 <= j < |rows| && rows[j].id == gone {
      var j :| 0 <= j < |rows| && rows[j].id == gone;
      DeletedRow(t.rows, gone, rows[j]);
    }
  }

  lemma {:induction false} TakeNeverRevives(t: Table<Message>, gone: nat, timeout: int, at: string, id: nat)
    requires !Holds(t, id)
    ensures !Holds(t.(rows := if timeout > 0 then SetVisible(t.rows, gone, at) else DeleteId(t.rows, gone)), id)
  {
    SetVisibleShape(t.rows, gone, at);
    var rows := DeleteId(t.rows, gone);
    forall j | 0 <= j < |rows| ensures rows[j].id != id {
      DeletedRow(t.rows, gone, rows[j]);
      assert rows[j] in t.rows;
    }
  }

  lemma {:induction false} StepNeverRevives(t: Table<Message>, op: Op, id: nat)
    requires Valid(t) && id < t.next && !Holds(t, id)
    ensures !Holds(Apply(t, op), id) && id < Apply(t, op).next
  {
    hide VisibleAt, Stamped, SetVisible, DeleteId, Oldest;
    if op.DoDequeue? && Returned(t, op).Some? {
      TakeNeverRevives(t, Returned(t, op).value.id, op.timeout, VisibleAt(op.now, op.timeout), id);
    }
  }

  /** Over every run, a message is still there iff no untimed dequeue has returned it. */
  lemma {:induction false} NeverLost(t: Table<Message>, ops: seq<Op>, id: nat)
    requires Valid(t) && Holds(t, id)
    ensures Holds(Run(t, ops), id) <==> !RemovedIn(t, ops, id)
    decreases |ops|
  {
    if ops != [] {
      var t1 := Apply(t, ops[0]);
      StepNeverLoses(t, ops[0], id);
      ApplyValid(t, ops[0]);
      if Holds(t1, id) {
        NeverLost(t1, ops[1..], id);
      } else {
        StaysGone(t1, ops[1..], id);
      }
    }
  }

  lemma {:induction false} StaysGone(t: Table<Message>, ops: seq<Op>, id: nat)
    requires Valid(t) && id < t.next && !Holds(t, id)
    ensures !Holds(Run(t, ops), id)
    decreases |ops|
  {
    if ops != [] {
      ApplyValid(t, ops[0]);
      StepNeverRevives(t, ops[0], id);
      StaysGone(Apply(t, ops[0]), ops[1..], id);
    }
  }

  // ---------------------------- Hidden until visible ----------------------------

  /** Message `id` of `t` carries the visibility time `until`, in seconds. */
  predicate HiddenUntil(t: Table<Message>, id: nat, until: nat) {
    exists i :: 0 <= i < |t.rows| && t.rows[i].id == id && t.rows[i].data.visibleAfter == Format(until)
  }

  lemma {:induction false} WrapsNot(n: int)
    requires 0 <= n < TWO63
    ensures WrapInt64(n) == n
  {
  }

  lemma {:induction false} AddSeconds(now: nat, timeout: nat)
    ensures (now + timeout * SECOND) / SECOND == now / SECOND + timeout
  {
  }

  lemma {:induction false} VisibleAtExact(now: Instant, timeout: int)
    requires 0 < timeout && timeout * SECOND < TWO63
    ensures VisibleAt(now, timeout) == Format(Sec(now) + timeout)
  {
    WrapsNot(timeout * SECOND);
    AddSeconds(now, timeout);
  }

  /** A timed dequeue hides what it returns, for the timeout, in whole seconds. */
  lemma {:induction false} TimedDequeueHides(t: Table<Message>, account: string, queue: string, timeout: int,
      now: Instant)
    requires Valid(t) && 0 < timeout && timeout * SECOND < TWO63
    requires Oldest(t.rows, Where(account, queue, Stamped(now))).Some?
    ensures var id := Oldest(t.rows, Where(account, queue, Stamped(now))).value.id;
            HiddenUntil(Dequeued(t, account, queue, timeout, now), id, Sec(now) + timeout)
  {
    var r := Oldest(t.rows, Where(account, queue, Stamped(now))).value;
    OldestIsLeast(t, Where(account, queue, Stamped(now)));
    VisibleAtExact(now, timeout);
    SetVisibleShape(t.rows, r.id, VisibleAt(now, timeout));
    var i :| 0 <= i < |t.rows| && t.rows[i] == r;
    assert Dequeued(t, account, queue, timeout, now).rows[i].data.visibleAfter == Format(Sec(now) + timeout);
  }

  lemma {:induction false} FormatNotEmpty(t: nat)
    ensures Format(t) != ""
  {
    assert Stamp(t)[0].sep == "-";
  }

  /** While the clock reads earlier, the message is not a candidate. */
  lemma {:induction false} NotACandidate(t: Table<Message>, account: string, queue: string, now: Instant, id: nat,
      until: nat)
    requires Valid(t) && HiddenUntil(t, id, until) && Year(until) <= 9999 && Year(Sec(now)) <= 9999
    requires Sec(now) < until
    ensures var o := Oldest(t.rows, Where(account, queue, Stamped(now))); o.Some? ==> o.value.id != id
  {
    var i :| 0 <= i < |t.rows| && t.rows[i].id == id && t.rows[i].data.visibleAfter == Format(until);
    FormatNotEmpty(until);
    ByteOrderIsTimeOrder(until, Sec(now));
    OldestIsLeast(t, Where(account, queue, Stamped(now)));
  }

  /** Taking another message leaves this one as it is. */
  lemma {:induction false} OthersStayHidden(t: Table<Message>, gone: nat, timeout: int, at: string, id: nat, until: nat)
    requires HiddenUntil(t, id, until) && gone != id
    ensures var rows := if timeout > 0 then SetVisible(t.rows, gone, at) else DeleteId(t.rows, gone);
            HiddenUntil(t.(rows := rows), id, until)
  {
    var i :| 0 <= i < |t.rows| && t.rows[i].id == id && t.rows[i].data.visibleAfter == Format(until);
    if timeout > 0 {
      SetVisibleShape(t.rows, gone, at);
      assert SetVisible(t.rows, gone, at)[i] == t.rows[i];
    } else {
      var rows := DeleteId(t.rows, gone);
      DeletedRow(t.rows, gone, t.rows[i]);
      var j :| 0 <= j < |rows| && rows[j] == t.rows[i];
      assert rows[j].id == id;
    }
  }

  lemma {:induction false} HiddenStep(t: Table<Message>, op: Op, id: nat, until: nat)
    requires Valid(t) && HiddenUntil(t, id, until) && Year(until) <= 9999 && Year(Sec(op.now)) <= 9999
    requires Sec(op.now) < until
    ensures Returned(t, op).Some? ==> Returned(t, op).value.id != id
    ensures HiddenUntil(Apply(t, op), id, until)
  {
    hide VisibleAt, Stamped, SetVisible, DeleteId, Oldest, Year, Format;
    match op
    case DoEnqueue(a, q, body, now) =>
      var i :| 0 <= i < |t.rows| && t.rows[i].id == id && t.rows[i].data.visibleAfter == Format(until);
      assert Apply(t, op).rows[i] == t.rows[i];
    case DoPeek(a, q, now) =>
      NotACandidate(t, a, q, now, id, until);
    case DoDequeue(a, q, timeout, now) =>
      NotACandidate(t, a, q, now, id, until);
      var o := Returned(t, op);
      if o.Some? {
        OthersStayHidden(t, o.value.id, timeout, VisibleAt(now, timeout), id, until);
      }
  }

  /** No operation of the run hands the message out. */
  predicate NeverReturned(t: Table<Message>, ops: seq<Op>, id: nat)
    decreases |ops|
  {
    ops != [] ==>
      && (Returned(t, ops[0]).Some? ==> Returned(t, ops[0]).value.id != id)
      && NeverReturned(Apply(t, ops[0]), ops[1..], id)
  }

  /** All clocks of the run read earlier than `until`. */
  predicate AllBefore(ops: seq<Op>, until: nat)
    decreases |ops|
  {
    ops != [] ==> Sec(ops[0].now) < until && Year(Sec(ops[0].now)) <= 9999 && AllBefore(ops[1..], until)
  }

  /** In every run whose clocks all read earlier than `until`, no Peek or Dequeue returns the
      hidden message, and it is still there and hidden at the end. */
  lemma {:induction false} HiddenRun(t: Table<Message>, ops: seq<Op>, id: nat, until: nat)
    requires Valid(t) && HiddenUntil(t, id, until) && Year(until) <= 9999
    requires AllBefore(ops, until)
    ensures NeverReturned(t, ops, id) && HiddenUntil(Run(t, ops), id, until)
    decreases |ops|
  {
    if ops != [] {
      HiddenStep(t, ops[0], id, until);
      ApplyValid(t, ops[0]);
      HiddenRun(Apply(t, ops[0]), ops[1..], id, until);
    }
  }

  /** Once the clock reads the visibility second, the message is eligible again. */
  lemma {:induction false} VisibleAgain(m: Message, until: nat, now: Instant)
    requires m.visibleAfter == Format(until) && Year(until) <= 9999 && Year(Sec(now)) <= 9999
    ensures IsVisible(m, Stamped(now)) <==> until <= Sec(now)
  {
    FormatNotEmpty(until);
    ByteOrderIsTimeOrder(until, Sec(now));
  }

  /** `op` is a timed dequeue that returns message `id`, hidden until second `until`. */
  predicate TakesUntil(t: Table<Message>, op: Op, id: nat, until: nat) {
    && op.DoDequeue? && 0 < op.timeout && op.timeout * SECOND < TWO63
    && Returned(t, op).Some? && Returned(t, op).value.id == id
    && until == Sec(op.now) + op.timeout
  }

  lemma {:induction false} TakenIsHidden(t: Table<Message>, op: Op, id: nat, until: nat)
    requires Valid(t) && TakesUntil(t, op, id, until)
    ensures Valid(Apply(t, op)) && HiddenUntil(Apply(t, op), id, until)
  {
    hide HiddenUntil, Valid, Dequeued, Stamped, Oldest, Where, WrapInt64;
    TimedDequeueHides(t, op.account, op.queue, op.timeout, op.now);
    ApplyValid(t, op);
  }

  /** The whole story of one timed dequeue: until the clock reaches its visibility second, no
      Peek and no Dequeue returns the message again, and it is not lost. */
  lemma {:induction false} TimedDequeueIsExclusive(t: Table<Message>, op: Op, ops: seq<Op>, id: nat, until: nat)
    requires Valid(t) && TakesUntil(t, op, id, until) && Year(until) <= 9999 && AllBefore(ops, until)
    ensures NeverReturned(Apply(t, op), ops, id) && HiddenUntil(Run(Apply(t, op), ops), id, until)
  {
    TakenIsHidden(t, op, id, until);
    HiddenRun(Apply(t, op), ops, id, until);
  }

  // ------------------------- When the timeout overflows -------------------------

  /** A product past the int64 range comes out at least 2^64 too small. */
  lemma {:induction false} WrapsDown(n: int)
    requires n >= TWO63
    ensures WrapInt64(n) <= n - 2 * TWO63
  {
    var m := 2 * TWO63;
    assert n + TWO63 == m * ((n + TWO63) / m) + (n + TWO63) % m;
  }

  lemma {:induction false} EarlierYear(t: nat, u: nat)
    requires t <= u
    ensures Year(t) <= Year(u)
  {
    var d, e := t / 86400, u / 86400;
    if d < e {
      YearOrder(d, e, 0);
    }
  }

  /** The message is not visible to a reading of the clock at `n`. */
  ghost predicate HiddenAt(at: string, n: Instant) {
    at != "" && !AtMost(at, Stamped(n))
  }

  /** Taken at `now` with the timeout, it is hidden from every later reading of the clock before
      the timeout has passed. */
  ghost predicate HidesUntil(now: Instant, timeout: int) {
    forall n: Instant :: now <= n && Sec(n) < Sec(now) + timeout ==> HiddenAt(VisibleAt(now, timeout), n)
  }

  /** The reading at which an overflowing timeout has already passed: no later than the second it
      was meant to end in, and at `now` itself when the sum is not past it. */
  function PassedAt(now: Instant, timeout: int): Instant {
    var until := now + WrapInt64(timeout * SECOND);
    if until < now then now else until
  }

  lemma {:induction false} PassedEarly(now: Instant, timeout: int)
    requires 0 < timeout && timeout * SECOND >= TWO63
    ensures var n := PassedAt(now, timeout);
            now <= n && Sec(n) < Sec(now) + timeout && now + WrapInt64(timeout * SECOND) <= n
  {
    WrapsDown(timeout * SECOND);
    var n := PassedAt(now, timeout);
    hide WrapInt64;
    if n > now {
      assert n <= now + timeout * SECOND - 2 * TWO63 < now + timeout * SECOND - SECOND;
      AddSeconds(now, timeout);
      BelowBySecond(n, now + timeout * SECOND);
    }
  }

  lemma {:induction false} BelowBySecond(a: nat, b: nat)
    requires a < b - SECOND
    ensures a / SECOND < b / SECOND
  {
  }

  lemma {:induction false} VisibleWhenPassed(now: Instant, timeout: int, n: Instant)
    requires now + WrapInt64(timeout * SECOND) <= n && Year(Sec(n)) <= 9999
    ensures !HiddenAt(VisibleAt(now, timeout), n)
  {
    var until := now + WrapInt64(timeout * SECOND);
    var at := if until < 0 then 0 else until;
    hide WrapInt64, Year;
    InSeconds(at, n);
    EarlierYear(Sec(at), Sec(n));
    ByteOrderIsTimeOrder(Sec(at), Sec(n));
  }

  lemma {:induction false} InSeconds(a: nat, b: nat)
    requires a <= b
    ensures a / SECOND <= b / SECOND
  {
  }

  lemma {:induction false} HiddenWithoutOverflow(now: Instant, timeout: int, n: Instant)
    requires 0 < timeout && timeout * SECOND < TWO63 && Year(Sec(now) + timeout) <= 9999
    requires Sec(n) < Sec(now) + timeout
    ensures HiddenAt(VisibleAt(now, timeout), n)
  {
    var until := Sec(now) + timeout;
    hide VisibleAt, Year, Format, Less;
    VisibleAtExact(now, timeout);
    FormatNotEmpty(until);
    EarlierYear(Sec(n), until);
    ByteOrderIsTimeOrder(until, Sec(n));
  }

  /** A timeout hides the message until it has passed exactly when its nanoseconds fit an int64. */
  lemma {:induction false} HidesIffNoOverflow(now: Instant, timeout: int)
    requires 0 < timeout && Year(Sec(now) + timeout) <= 9999
    ensures HidesUntil(now, timeout) <==> timeout * SECOND < TWO63
  {
    hide HiddenAt, Year, VisibleAt, PassedAt, WrapInt64;
    if timeout * SECOND < TWO63 {
      forall n: Instant | now <= n && Sec(n) < Sec(now) + timeout ensures HiddenAt(VisibleAt(now, timeout), n) {
        HiddenWithoutOverflow(now, timeout, n);
      }
    } else {
      var n := PassedAt(now, timeout);
      PassedEarly(now, timeout);
      EarlierYear(Sec(n), Sec(now) + timeout);
      VisibleWhenPassed(now, timeout, n);
    }
  }

  /** The least timeout that overflows, 292 years, hides nothing even at the moment it is set. */
  lemma {:induction false} LongTimeoutHidesNothing(now: Instant)
    requires Year(Sec(now)) <= 9999
    ensures !HiddenAt(VisibleAt(now, 9223372037), now)
  {
    assert WrapInt64(9223372037 * SECOND) < 0;
    VisibleWhenPassed(now, 9223372037, now);
  }

  // ------------------------- Exclusive over every run -------------------------

  /** `op` is a dequeue with a timeout that returns message `id`. */
  ghost predicate Takes(t: Table<Message>, op: Op, id: nat) {
    op.DoDequeue? && 0 < op.timeout && Returned(t, op).Some? && Returned(t, op).value.id == id
  }

  /** The clocks of the run read `now` or later, and earlier than second `until`. */
  ghost predicate Meanwhile(ops: seq<Op>, now: Instant, until: nat) {
    forall i :: 0 <= i < |ops| ==> now <= ops[i].now && Sec(ops[i].now) < until
  }

  lemma {:induction false} MeanwhileBefore(ops: seq<Op>, now: Instant, until: nat)
    requires Meanwhile(ops, now, until) && Year(until) <= 9999
    ensures AllBefore(ops, until)
    decreases |ops|
  {
    if ops != [] {
      EarlierYear(Sec(ops[0].now), until);
      assert Meanwhile(ops[1..], now, until);
      MeanwhileBefore(ops[1..], now, until);
    }
  }

  /** Row `id` is in the queue and visible at `n`. */
  ghost predicate Offered(t: Table<Message>, account: string, queue: string, n: Instant, id: nat) {
    exists i :: 0 <= i < |t.rows| && t.rows[i].id == id && Where(account, queue, Stamped(n))(t.rows[i].data)
  }

  /** A visible message is handed out once those before it have been taken. */
  lemma {:induction false} OfferedIsReturned(t: Table<Message>, account: string, queue: string, n: Instant, id: nat)
    returns (ops: seq<Op>)
    requires Valid(t) && Offered(t, account, queue, n, id)
    ensures !NeverReturned(t, ops, id) && forall i :: 0 <= i < |ops| ==> ops[i].now == n
    decreases |t.rows|
  {
    var op := DoDequeue(account, queue, 0, n);
    var p := Where(account, queue, Stamped(n));
    OldestIsLeast(t, p);
    var first := Oldest(t.rows, p).value;
    hide Where, Stamped;
    if first.id == id {
      ops := [op];
    } else {
      var next := Apply(t, op);
      StillOffered(t, p, first.id, id);
      DeleteShortens(t, first);
      ApplyValid(t, op);
      var more := OfferedIsReturned(next, account, queue, n, id);
      ops := [op] + more;
      assert ops[1..] == more;
    }
  }

  lemma {:induction false} StillOffered(t: Table<Message>, p: Message -> bool, gone: nat, id: nat)
    requires gone != id && exists i :: 0 <= i < |t.rows| && t.rows[i].id == id && p(t.rows[i].data)
    ensures var rows := DeleteId(t.rows, gone); exists i :: 0 <= i < |rows| && rows[i].id == id && p(rows[i].data)
  {
    var i :| 0 <= i < |t.rows| && t.rows[i].id == id && p(t.rows[i].data);
    DeletedRow(t.rows, gone, t.rows[i]);
    var rows := DeleteId(t.rows, gone);
    var j :| 0 <= j < |rows| && rows[j] == t.rows[i];
    assert rows[j].id == id && p(rows[j].data);
  }

  lemma {:induction false} DeleteNeverGrows(rows: seq<Row<Message>>, gone: nat)
    ensures |DeleteId(rows, gone)| <= |rows|
  {
    if rows != [] {
      DeleteNeverGrows(rows[1..], gone);
    }
  }

  lemma {:induction false} DeleteShortens(t: Table<Message>, r: Row<Message>)
    requires r in t.rows
    ensures |DeleteId(t.rows, r.id)| < |t.rows|
    decreases |t.rows|
  {
    if t.rows[0].id == r.id {
      DeleteNeverGrows(t.rows[1..], r.id);
    } else {
      DeleteShortens(t.(rows := t.rows[1..]), r);
    }
  }

  lemma {:induction false} TakenIsOffered(t: Table<Message>, op: Op, id: nat, n: Instant)
    requires Valid(t) && Takes(t, op, id) && !HiddenAt(VisibleAt(op.now, op.timeout), n)
    ensures Valid(Apply(t, op)) && Offered(Apply(t, op), op.account, op.queue, n, id)
  {
    var at := VisibleAt(op.now, op.timeout);
    ApplyValid(t, op);
    OldestIsLeast(t, Where(op.account, op.queue, Stamped(op.now)));
    SetVisibleShape(t.rows, id, at);
    var r := Returned(t, op).value;
    hide VisibleAt, Stamped, SetVisible, DeleteId, Oldest;
    var i :| 0 <= i < |t.rows| && t.rows[i] == r;
    var row := SetVisible(t.rows, id, at)[i];
    assert Apply(t, op).rows[i] == row && row.data == r.data.(visibleAfter := at);
    assert IsVisible(row.data, Stamped(n)) && Where(op.account, op.queue, Stamped(n))(row.data);
  }

  /** A message taken with a timeout is handed out by no operation of any run before the timeout
      has passed exactly when the timeout does not overflow. */
  lemma {:induction false} ExclusiveIffNoOverflow(t: Table<Message>, op: Op, id: nat)
    requires Valid(t) && Takes(t, op, id) && Year(Sec(op.now) + op.timeout) <= 9999
    ensures (forall ops :: Meanwhile(ops, op.now, Sec(op.now) + op.timeout) ==> NeverReturned(Apply(t, op), ops, id))
            <==> op.timeout * SECOND < TWO63
  {
    var until := Sec(op.now) + op.timeout;
    if op.timeout * SECOND < TWO63 {
      forall ops | Meanwhile(ops, op.now, until) ensures NeverReturned(Apply(t, op), ops, id) {
        MeanwhileBefore(ops, op.now, until);
        TimedDequeueIsExclusive(t, op, ops, id, until);
      }
    } else {
      var n := PassedAt(op.now, op.timeout);
      PassedEarly(op.now, op.timeout);
      EarlierYear(Sec(n), until);
      VisibleWhenPassed(op.now, op.timeout, n);
      TakenIsOffered(t, op, id, n);
      var ops := OfferedIsReturned(Apply(t, op), op.account, op.queue, n, id);
      assert Meanwhile(ops, op.now, until);
    }
  }
}
