/** What a storage-queue operation does to the queue it names, and to the others: the oldest message
    that is due leaves its place, or stays there with a new visibility time. */
module StorageQueueHeads {
  import opened Outcomes
  import opened Tables
  import opened Text
  import opened Rfc3339
  import opened StorageQueue

  function InQueue(account: string, queue: string): Message -> bool {
    (m: Message) => m.account == account && m.queue == queue
  }

  /** Never hidden, or hidden until a second that the clock has reached. */
  ghost predicate Due(m: Message, now: Instant) {
    m.visibleAfter == "" || exists until: nat :: m.visibleAfter == Format(until) && until <= Sec(now)
  }

  /** Never hidden, or until a second in a year of four digits. */
  ghost predicate WellTimed(m: Message) {
    m.visibleAfter == "" || exists until: nat :: m.visibleAfter == Format(until) && Year(until) <= 9999
  }

  ghost predicate AllWellTimed(t: Table<Message>) {
    forall r :: r in t.rows ==> WellTimed(r.data)
  }

  lemma {:induction false} DueIff(m: Message, now: Instant)
    requires WellTimed(m) && Year(Sec(now)) <= 9999
    ensures Due(m, now) <==> IsVisible(m, Stamped(now))
  {
    hide Format, Year, Stamped, Less;
    if m.visibleAfter != "" {
      var until: nat :| m.visibleAfter == Format(until) && Year(until) <= 9999;
      VisibleAgain(m, until, now);
      forall other: nat | m.visibleAfter == Format(other) && other <= Sec(now) ensures until <= Sec(now) {
        EarlierYear(other, Sec(now));
        VisibleAgain(m, other, now);
      }
    }
  }

  // ------------------------------ One place in a lane ------------------------------

  /** `lane` is `before`, then `m`, then `after`, and nothing before `m` is due. */
  ghost predicate Place(lane: seq<Message>, before: seq<Message>, m: Message, after: seq<Message>, now: Instant) {
    lane == before + [m] + after && Due(m, now) && forall x :: x in before ==> !Due(x, now)
  }

  /** The part of a lane before the row that `p` selects, and the part after it. */
  ghost function Before(rows: seq<Row<Message>>, id: nat, l: Message -> bool): seq<Message> {
    if rows == [] || rows[0].id == id then []
    else Only(rows[0].data, l) + Before(rows[1..], id, l)
  }

  ghost function Behind(rows: seq<Row<Message>>, id: nat, l: Message -> bool): seq<Message> {
    if rows == [] then [] else if rows[0].id == id then View(rows[1..], l) else Behind(rows[1..], id, l)
  }

  ghost predicate IdsApart(rows: seq<Row<Message>>) {
    forall i, j :: 0 <= i < j < |rows| ==> rows[i].id != rows[j].id
  }

  lemma {:induction false} SetAbsent(rows: seq<Row<Message>>, id: nat, at: string)
    requires forall i :: 0 <= i < |rows| ==> rows[i].id != id
    ensures SetVisible(rows, id, at) == rows
  {
    if rows != [] {
      SetAbsent(rows[1..], id, at);
    }
  }

  ghost function Only(m: Message, l: Message -> bool): seq<Message> {
    if l(m) then [m] else []
  }

  lemma {:induction false} Regroup(x: seq<Message>, before: seq<Message>, mid: seq<Message>, behind: seq<Message>)
    ensures x + (before + mid + behind) == (x + before) + mid + behind
  {
  }

  lemma {:induction false} RestApart(rows: seq<Row<Message>>)
    requires IdsApart(rows) && rows != []
    ensures IdsApart(rows[1..]) && forall i :: 0 <= i < |rows[1..]| ==> rows[1..][i].id != rows[0].id
  {
  }

  /** A lane is what is before a row, the row, and what is behind it. */
  lemma {:induction false} SidesOf(rows: seq<Row<Message>>, r: Row<Message>, l: Message -> bool)
    requires IdsApart(rows) && r in rows
    ensures View(rows, l) == Before(rows, r.id, l) + Only(r.data, l) + Behind(rows, r.id, l)
    decreases |rows|
  {
    RestApart(rows);
    hide IdsApart;
    if rows[0].id == r.id {
      assert rows[0] == r;
    } else {
      SidesOf(rows[1..], r, l);
      Regroup(Only(rows[0].data, l), Before(rows[1..], r.id, l), Only(r.data, l), Behind(rows, r.id, l));
    }
  }

  /** Without the row, both sides are left. */
  lemma {:induction false} SidesDeleted(rows: seq<Row<Message>>, r: Row<Message>, l: Message -> bool)
    requires IdsApart(rows) && r in rows
    ensures View(DeleteId(rows, r.id), l) == Before(rows, r.id, l) + Behind(rows, r.id, l)
    decreases |rows|
  {
    RestApart(rows);
    hide IdsApart;
    if rows[0].id == r.id {
      DeleteAbsent(rows[1..], r.id);
    } else {
      SidesDeleted(rows[1..], r, l);
      Regroup(Only(rows[0].data, l), Before(rows[1..], r.id, l), [], Behind(rows, r.id, l));
    }
  }

  /** With another visibility time, the row stays between them. */
  lemma {:induction false} SidesHidden(rows: seq<Row<Message>>, r: Row<Message>, l: Message -> bool, at: string)
    requires IdsApart(rows) && r in rows
    ensures var m := r.data.(visibleAfter := at);
            View(SetVisible(rows, r.id, at), l) == Before(rows, r.id, l) + Only(m, l) + Behind(rows, r.id, l)
    decreases |rows|
  {
    RestApart(rows);
    hide IdsApart;
    if rows[0].id == r.id {
      assert rows[0] == r;
      SetAbsent(rows[1..], r.id, at);
    } else {
      SidesHidden(rows[1..], r, l, at);
      Regroup(Only(rows[0].data, l), Before(rows[1..], r.id, l), Only(r.data.(visibleAfter := at), l),
              Behind(rows, r.id, l));
    }
  }

  /** Nothing before the oldest row that `p` selects is selected. */
  lemma {:induction false} NoneBefore(rows: seq<Row<Message>>, p: Message -> bool, l: Message -> bool)
    requires Oldest(rows, p).Some?
    ensures Oldest(rows, p).value in rows && p(Oldest(rows, p).value.data)
    ensures forall x :: x in Before(rows, Oldest(rows, p).value.id, l) ==>
              !p(x) && l(x) && exists r :: r in rows && r.data == x
    decreases |rows|
  {
    if !p(rows[0].data) {
      NoneBefore(rows[1..], p, l);
    }
  }

  // --------------------------------- A dequeue ---------------------------------

  /** `got` is the first message of the queue that is due; without a timeout it leaves its place,
      with one it stays there, hidden until the timeout has passed. Or none is due and all stays. */
  ghost predicate Serves(t: Table<Message>, next: Table<Message>, got: Option<Message>, account: string, queue: string,
      timeout: int, now: Instant)
  {
    var lane, lane' := View(t.rows, InQueue(account, queue)), View(next.rows, InQueue(account, queue));
    match got
    case None => next == t && forall m :: m in lane ==> !Due(m, now)
    case Some(m) =>
      exists before, after :: Place(lane, before, m, after, now) && lane' == before + Left(m, timeout, now) + after
  }

  ghost function Left(m: Message, timeout: int, now: Instant): seq<Message> {
    if timeout > 0 then [m.(visibleAfter := Format(Sec(now) + timeout))] else []
  }

  function DataOf(o: Option<Row<Message>>): Option<Message> {
    if o.Some? then Some(o.value.data) else None
  }

  lemma {:induction false} InView(rows: seq<Row<Message>>, l: Message -> bool, m: Message)
    requires m in View(rows, l)
    ensures l(m) && exists r :: r in rows && r.data == m
  {
    if !(l(rows[0].data) && rows[0].data == m) {
      InView(rows[1..], l, m);
    }
  }

  lemma {:induction false} ValidApart(t: Table<Message>)
    requires Valid(t)
    ensures IdsApart(t.rows)
  {
  }

  lemma {:induction false} RowDueIff(t: Table<Message>, account: string, queue: string, now: Instant, m: Message)
    requires AllWellTimed(t) && Year(Sec(now)) <= 9999 && InQueue(account, queue)(m)
    requires exists r :: r in t.rows && r.data == m
    ensures Where(account, queue, Stamped(now))(m) <==> Due(m, now)
  {
    var r :| r in t.rows && r.data == m;
    assert WellTimed(r.data);
    hide WellTimed, Due, IsVisible, Stamped, Year;
    DueIff(m, now);
  }

  /** Nothing is due, or the oldest visible message has its place in the queue. */
  lemma {:induction false} OldestIsDue(t: Table<Message>, account: string, queue: string, now: Instant)
    requires Valid(t) && AllWellTimed(t) && Year(Sec(now)) <= 9999
    ensures var o := Oldest(t.rows, Where(account, queue, Stamped(now))); var l := InQueue(account, queue);
            if o.None? then forall m :: m in View(t.rows, l) ==> !Due(m, now)
            else o.value in t.rows && l(o.value.data)
                 && var before, behind := Before(t.rows, o.value.id, l), Behind(t.rows, o.value.id, l);
                    Place(View(t.rows, l), before, o.value.data, behind, now)
  {
    var p, l := Where(account, queue, Stamped(now)), InQueue(account, queue);
    var o := Oldest(t.rows, p);
    hide Due, WellTimed, AllWellTimed, IsVisible, Stamped, Year, View, Before, Behind;
    if o.None? {
      OldestIsLeast(t, p);
      forall m | m in View(t.rows, l) ensures !Due(m, now) {
        InView(t.rows, l, m);
        RowDueIff(t, account, queue, now, m);
      }
    } else {
      var r := o.value;
      NoneBefore(t.rows, p, l);
      ValidApart(t);
      SidesOf(t.rows, r, l);
      RowDueIff(t, account, queue, now, r.data);
      forall m | m in Before(t.rows, r.id, l) ensures !Due(m, now) {
        RowDueIff(t, account, queue, now, m);
      }
    }
  }

  /** A Peek returns the first message of the queue that is due, and none exactly if none is due. */
  lemma {:induction false} PeekFindsTheFirst(t: Table<Message>, account: string, queue: string, now: Instant)
    requires Valid(t) && AllWellTimed(t) && Year(Sec(now)) <= 9999
    ensures var lane := View(t.rows, InQueue(account, queue));
            match DataOf(Returned(t, DoPeek(account, queue, now)))
            case None => forall m :: m in lane ==> !Due(m, now)
            case Some(m) => exists before, after :: Place(lane, before, m, after, now)
  {
    OldestIsDue(t, account, queue, now);
    hide Place, Due, View;
  }

  /** The tables after the row has been taken out, or hidden. */
  function Taken(t: Table<Message>, id: nat, timeout: int, now: Instant): Table<Message> {
    t.(rows := if timeout > 0 then SetVisible(t.rows, id, VisibleAt(now, timeout)) else DeleteId(t.rows, id))
  }

  lemma {:induction false} OwnLane(t: Table<Message>, r: Row<Message>, account: string, queue: string, timeout: int,
      now: Instant)
    requires IdsApart(t.rows) && r in t.rows && timeout * SECOND < TWO63 && InQueue(account, queue)(r.data)
    requires var l := InQueue(account, queue);
             Place(View(t.rows, l), Before(t.rows, r.id, l), r.data, Behind(t.rows, r.id, l), now)
    ensures Serves(t, Taken(t, r.id, timeout, now), Some(r.data), account, queue, timeout, now)
  {
    var l := InQueue(account, queue);
    TakenFrom(t, r, l, timeout, VisibleAt(now, timeout));
    if timeout > 0 {
      VisibleAtExact(now, timeout);
    }
    hide Place, Due, View, VisibleAt, Format, SetVisible, DeleteId, IdsApart, Before, Behind;
    var before, behind := Before(t.rows, r.id, l), Behind(t.rows, r.id, l);
    assert View(Taken(t, r.id, timeout, now).rows, l) == before + Left(r.data, timeout, now) + behind;
  }

  lemma {:induction false} OtherLane(t: Table<Message>, r: Row<Message>, l: Message -> bool, timeout: int, now: Instant)
    requires IdsApart(t.rows) && r in t.rows
    requires !l(r.data) && !l(r.data.(visibleAfter := VisibleAt(now, timeout)))
    ensures View(Taken(t, r.id, timeout, now).rows, l) == View(t.rows, l)
  {
    hide View, VisibleAt, SetVisible, DeleteId, IdsApart, Before, Behind;
    TakenFrom(t, r, l, timeout, VisibleAt(now, timeout));
    SidesOf(t.rows, r, l);
  }

  /** A dequeue serves the queue it names, and leaves every other queue as it is. */
  lemma {:induction false} DequeueServes(t: Table<Message>, account: string, queue: string, timeout: int, now: Instant)
    requires Valid(t) && AllWellTimed(t) && Year(Sec(now)) <= 9999 && timeout * SECOND < TWO63
    ensures var next := Dequeued(t, account, queue, timeout, now);
            var got := Returned(t, DoDequeue(account, queue, timeout, now));
            && Serves(t, next, DataOf(got), account, queue, timeout, now)
            && forall a, q :: a != account || q != queue ==>
                 View(next.rows, InQueue(a, q)) == View(t.rows, InQueue(a, q))
  {
    OldestIsDue(t, account, queue, now);
    ValidApart(t);
    var o := Oldest(t.rows, Where(account, queue, Stamped(now)));
    hide Place, Due, View, Stamped, VisibleAt, SetVisible, DeleteId, Oldest, Where, Valid, AllWellTimed, Year, IdsApart,
      Before, Behind;
    if o.None? {
      assert Serves(t, t, None, account, queue, timeout, now);
    } else {
      hide Serves;
      OwnLane(t, o.value, account, queue, timeout, now);
      forall a, q | a != account || q != queue
        ensures View(Taken(t, o.value.id, timeout, now).rows, InQueue(a, q)) == View(t.rows, InQueue(a, q))
      {
        OtherLane(t, o.value, InQueue(a, q), timeout, now);
      }
    }
  }

  /** What a lane is after the row has been taken out, or hidden. */
  lemma {:induction false} TakenFrom(t: Table<Message>, r: Row<Message>, l: Message -> bool, timeout: int, at: string)
    requires IdsApart(t.rows) && r in t.rows
    ensures var rows := if timeout > 0 then SetVisible(t.rows, r.id, at) else DeleteId(t.rows, r.id);
            View(rows, l) == Before(t.rows, r.id, l)
                             + (if timeout > 0 then Only(r.data.(visibleAfter := at), l) else [])
                             + Behind(t.rows, r.id, l)
  {
    if timeout > 0 {
      SidesHidden(t.rows, r, l, at);
    } else {
      SidesDeleted(t.rows, r, l);
      var before := Before(t.rows, r.id, l);
      assert before + [] == before;
    }
  }

  /** An enqueue adds the message at the end of the queue, due at once, and to no other queue. */
  lemma {:induction false} EnqueueFiles(t: Table<Message>, account: string, queue: string, body: string, now: Instant)
    ensures exists m: Message :: m.body == body && (forall n :: Due(m, n)) && WellTimed(m) &&
              forall a, q :: View(Enqueued(t, account, queue, body, now).rows, InQueue(a, q))
                             == View(t.rows, InQueue(a, q)) + if a == account && q == queue then [m] else []
  {
    var m := Message(account, queue, body, Stamped(now), "");
    hide View, Stamped;
    forall a, q
      ensures View(Enqueued(t, account, queue, body, now).rows, InQueue(a, q))
           == View(t.rows, InQueue(a, q)) + if a == account && q == queue then [m] else []
    {
      InsertLane(t, m, InQueue(a, q));
    }
    assert m.body == body && (forall n :: Due(m, n)) && WellTimed(m);
  }

  // ------------------------------- Over every run -------------------------------

  /** The clocks, and the times that the timeouts end in, are in years of four digits. */
  ghost predicate InTime(op: Op) {
    && Year(Sec(op.now)) <= 9999
    && (op.DoDequeue? ==> op.timeout * SECOND < TWO63
                          && (op.timeout > 0 ==> Year(Sec(op.now) + op.timeout) <= 9999))
  }

  lemma {:induction false} StaysWellTimed(t: Table<Message>, op: Op)
    requires Valid(t) && AllWellTimed(t) && InTime(op)
    ensures Valid(Apply(t, op)) && AllWellTimed(Apply(t, op))
  {
    hide Valid, AllWellTimed, Stamped, Year, Sec, Oldest, Dequeued, Where, Insert, InTime;
    ApplyValid(t, op);
    match op
    case DoEnqueue(a, q, body, now) => InsertWellTimed(t, Message(a, q, body, Stamped(now), ""));
    case DoPeek(_, _, _) =>
    case DoDequeue(_, _, _, _) => DequeueWellTimed(t, op);
  }

  lemma {:induction false} DequeueWellTimed(t: Table<Message>, op: Op)
    requires AllWellTimed(t) && InTime(op) && op.DoDequeue?
    ensures AllWellTimed(Dequeued(t, op.account, op.queue, op.timeout, op.now))
  {
    hide AllWellTimed, Stamped, Year, Sec, Oldest, SetVisible, DeleteId, VisibleAt, Where;
    var o := Oldest(t.rows, Where(op.account, op.queue, Stamped(op.now)));
    if o.Some? {
      DequeuedWellTimed(t, o.value.id, op.timeout, op.now);
    }
  }

  lemma {:induction false} InsertWellTimed(t: Table<Message>, m: Message)
    requires AllWellTimed(t) && m.visibleAfter == ""
    ensures AllWellTimed(Insert(t, m))
  {
    FreshIsWellTimed(m);
    hide WellTimed;
  }

  lemma {:induction false} FreshIsWellTimed(m: Message)
    requires m.visibleAfter == ""
    ensures WellTimed(m)
  {
  }

  lemma {:induction false} DequeuedWellTimed(t: Table<Message>, id: nat, timeout: int, now: Instant)
    requires AllWellTimed(t) && timeout * SECOND < TWO63 && (timeout > 0 ==> Year(Sec(now) + timeout) <= 9999)
    ensures AllWellTimed(Taken(t, id, timeout, now))
  {
    var at := VisibleAt(now, timeout);
    if timeout > 0 {
      VisibleAtExact(now, timeout);
      SetVisibleShape(t.rows, id, at);
      var rows := SetVisible(t.rows, id, at);
      hide VisibleAt, SetVisible, Format, Year;
      forall r | r in rows ensures WellTimed(r.data) {
        var i :| 0 <= i < |rows| && rows[i] == r;
        assert t.rows[i] in t.rows && WellTimed(t.rows[i].data);
      }
    } else {
      hide WellTimed, VisibleAt;
      forall r | r in DeleteId(t.rows, id) ensures WellTimed(r.data) {
        DeletedRow(t.rows, id, r);
      }
    }
  }

  /** So the laws above hold at every point of every run from an empty table. */
  lemma {:induction false} RunWellTimed(t: Table<Message>, ops: seq<Op>)
    requires Valid(t) && AllWellTimed(t) && forall i :: 0 <= i < |ops| ==> InTime(ops[i])
    ensures Valid(Run(t, ops)) && AllWellTimed(Run(t, ops))
    decreases |ops|
  {
    hide Valid, AllWellTimed, InTime, Apply;
    if ops != [] {
      StaysWellTimed(t, ops[0]);
      assert forall i :: 0 <= i < |ops[1..]| ==> ops[1..][i] == ops[i + 1];
      RunWellTimed(Apply(t, ops[0]), ops[1..]);
    }
  }
}
