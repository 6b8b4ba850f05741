/** The servicebus_messages table: two ways in, and three filters for the way out. */
module ServiceBus {
  import opened Outcomes
  import opened ByteStrings
  import opened Tables

  datatype Message = Message(namespace: Bytes, queue: Bytes, body: Bytes, sessionId: Bytes, deadLetter: bool)

  /** The unit of ordering: one session, live or dead-lettered, of one queue. */
  datatype Lane = Lane(namespace: Bytes, queue: Bytes, sessionId: Bytes, deadLetter: bool)

  function LaneOf(m: Message): Lane {
    Lane(m.namespace, m.queue, m.sessionId, m.deadLetter)
  }

  /** The WHERE clauses of the three SELECT statements. */
  datatype Filter =
    | Plain(namespace: Bytes, queue: Bytes)
    | AnySession(namespace: Bytes, queue: Bytes, deadLetter: bool)
    | OneSession(namespace: Bytes, queue: Bytes, deadLetter: bool, sessionId: Bytes)

  predicate Matches(f: Filter, m: Message) {
    && m.namespace == f.namespace
    && m.queue == f.queue
    && match f
       case Plain(_, _) => true
       case AnySession(_, _, dl) => m.deadLetter == dl
       case OneSession(_, _, dl, sid) => m.deadLetter == dl && m.sessionId == sid
  }

  function Where(f: Filter): Message -> bool {
    m => Matches(f, m)
  }

  /** An empty session id asks for any session, not for the session named "". */
  function MetaFilter(namespace: Bytes, queue: Bytes, sessionId: Bytes, deadLetter: bool): Filter {
    if sessionId != [] then OneSession(namespace, queue, deadLetter, sessionId)
    else AnySession(namespace, queue, deadLetter)
  }

  function InLane(lane: Lane): Message -> bool {
    m => LaneOf(m) == lane
  }

  function InQueue(namespace: Bytes, queue: Bytes): Message -> bool {
    (m: Message) => m.namespace == namespace && m.queue == queue
  }

  /** The live messages of a queue, or its dead letters, of every session. */
  function InBox(namespace: Bytes, queue: Bytes, deadLetter: bool): Message -> bool {
    (m: Message) => m.namespace == namespace && m.queue == queue && m.deadLetter == deadLetter
  }

  /** `body` is that of the oldest message of the part, which leaves its lane; every other lane
      keeps all it has. Or the part is empty, and nothing changes. */
  ghost predicate HandsOut(before: Table<Message>, after: Table<Message>, body: Option<Bytes>, part: Message -> bool) {
    exists got: Option<Message> ::
      && body == (if got.Some? then Some(got.value.body) else None)
      && HandsOutHead(before, after, got, part)
      && forall lane :: LosesOnly(before, after, got, InLane(lane))
  }

  /** The lane gains the message at its end; every other lane keeps what it has. */
  ghost predicate LaneGains(before: Table<Message>, after: Table<Message>, lane: Lane, body: Bytes) {
    exists m: Message ::
      && m.body == body && View(after.rows, InLane(lane)) == View(before.rows, InLane(lane)) + [m]
      && forall l: Lane :: l != lane ==> View(after.rows, InLane(l)) == View(before.rows, InLane(l))
  }

  class Store {
    var messages: Table<Message>

    constructor ()
      ensures messages == Table([], 0)
    {
      messages := Table([], 0);
    }

    method EnqueueSB(namespace: Bytes, queue: Bytes, body: Bytes)
      modifies this
      ensures messages == Insert(old(messages), Message(namespace, queue, body, [], false))
      ensures LaneGains(old(messages), messages, Lane(namespace, queue, [], false), body)
    {
      Gained(messages, Message(namespace, queue, body, [], false));
      messages := Insert(messages, Message(namespace, queue, body, [], false));
    }

    method EnqueueSBWithMeta(namespace: Bytes, queue: Bytes, body: Bytes, sessionId: Bytes, deadLetter: bool)
      modifies this
      ensures messages == Insert(old(messages), Message(namespace, queue, body, sessionId, deadLetter))
      ensures LaneGains(old(messages), messages, Lane(namespace, queue, sessionId, deadLetter), body)
    {
      Gained(messages, Message(namespace, queue, body, sessionId, deadLetter));
      messages := Insert(messages, Message(namespace, queue, body, sessionId, deadLetter));
    }

    /** Returns a row that matches and is older than every other match, and removes that row only. */
    method Dequeue(f: Filter) returns (body: Option<Bytes>)
      modifies this
      ensures messages == Take(old(messages), Where(f))
      ensures var o := Oldest(old(messages).rows, Where(f));
              body == if o.Some? then Some(o.value.data.body) else None
      ensures Valid(old(messages)) ==> Valid(messages)
      ensures Valid(old(messages)) && body.Some? ==>
                exists r :: r in old(messages).rows && Matches(f, r.data) && r.data.body == body.value
                  && (forall x :: x in old(messages).rows && Matches(f, x.data) ==> r.id <= x.id)
                  && forall x :: x in messages.rows <==> x in old(messages).rows && x.id != r.id
      ensures Valid(old(messages)) && body.None? ==>
                messages == old(messages) && forall x :: x in messages.rows ==> !Matches(f, x.data)
    {
      var o := Oldest(messages.rows, Where(f));
      if Valid(messages) {
        TakeValid(messages, Where(f));
        OldestIsLeast(messages, Where(f));
      }
      match o
      case None => body := None;
      case Some(r) =>
        forall x ensures x in DeleteId(messages.rows, r.id) <==> x in messages.rows && x.id != r.id {
          DeletedRow(messages.rows, r.id, x);
        }
        body := Some(r.data.body);
        messages := messages.(rows := DeleteId(messages.rows, r.id));
    }

    method DequeueSB(namespace: Bytes, queue: Bytes) returns (body: Option<Bytes>)
      modifies this
      ensures messages == Take(old(messages), Where(Plain(namespace, queue)))
      ensures var o := Oldest(old(messages).rows, Where(Plain(namespace, queue)));
              body == if o.Some? then Some(o.value.data.body) else None
      ensures Valid(old(messages)) ==> HandsOut(old(messages), messages, body, InQueue(namespace, queue))
    {
      if Valid(messages) {
        HandsOutPart(messages, Plain(namespace, queue), InQueue(namespace, queue));
      }
      body := Dequeue(Plain(namespace, queue));
    }

    method DequeueSBWithMeta(namespace: Bytes, queue: Bytes, sessionId: Bytes, deadLetter: bool)
      returns (body: Option<Bytes>)
      modifies this
      ensures messages == Take(old(messages), Where(MetaFilter(namespace, queue, sessionId, deadLetter)))
      ensures var o := Oldest(old(messages).rows, Where(MetaFilter(namespace, queue, sessionId, deadLetter)));
              body == if o.Some? then Some(o.value.data.body) else None
      ensures Valid(old(messages)) && sessionId != [] ==>
                HandsOut(old(messages), messages, body, InLane(Lane(namespace, queue, sessionId, deadLetter)))
      ensures Valid(old(messages)) && sessionId == [] ==>
                HandsOut(old(messages), messages, body, InBox(namespace, queue, deadLetter))
    {
      if Valid(messages) {
        var f := MetaFilter(namespace, queue, sessionId, deadLetter);
        if sessionId != [] {
          HandsOutPart(messages, f, InLane(Lane(namespace, queue, sessionId, deadLetter)));
        } else {
          HandsOutPart(messages, f, InBox(namespace, queue, deadLetter));
        }
      }
      body := Dequeue(MetaFilter(namespace, queue, sessionId, deadLetter));
    }
  }

  lemma {:induction false} Gained(t: Table<Message>, m: Message)
    ensures LaneGains(t, Insert(t, m), LaneOf(m), m.body)
  {
    forall lane: Lane
      ensures View(Insert(t, m).rows, InLane(lane))
           == View(t.rows, InLane(lane)) + if LaneOf(m) == lane then [m] else []
    {
      InsertLane(t, m, InLane(lane));
    }
  }

  /** A filter that selects exactly a part hands out the part's head. */
  lemma {:induction false} HandsOutPart(t: Table<Message>, f: Filter, part: Message -> bool)
    requires Valid(t) && forall m :: part(m) <==> Matches(f, m)
    ensures var o := Oldest(t.rows, Where(f));
            HandsOut(t, Take(t, Where(f)), if o.Some? then Some(o.value.data.body) else None, part)
  {
    TakeHead(t, Where(f), part);
    forall lane ensures LosesOnly(t, Take(t, Where(f)), Taken(t, Where(f)), InLane(lane)) {
      LanesRespected(f, lane);
      TakeLane(t, Where(f), InLane(lane));
    }
  }

  // ------------------------------ Runs ------------------------------

  /** One committed transaction on the table. */
  datatype Op = Enqueue(m: Message) | Dequeue(f: Filter)

  function Apply(t: Table<Message>, op: Op): Table<Message> {
    match op
    case Enqueue(m) => Insert(t, m)
    case Dequeue(f) => Take(t, Where(f))
  }

  function Run(t: Table<Message>, ops: seq<Op>): Table<Message>
    decreases |ops|
  {
    if ops == [] then t else Run(Apply(t, ops[0]), ops[1..])
  }

  /** The messages that `ops` put into, and hand out of, the part `l` of the table. */
  ghost function Enqueued(ops: seq<Op>, l: Message -> bool): seq<Message> {
    if ops == [] then []
    else Accepted(ops[0], l) + Enqueued(ops[1..], l)
  }

  ghost function Accepted(op: Op, l: Message -> bool): seq<Message> {
    if op.Enqueue? && l(op.m) then [op.m] else []
  }

  ghost function Delivered(t: Table<Message>, ops: seq<Op>, l: Message -> bool): seq<Message>
    decreases |ops|
  {
    if ops == [] then []
    else HandedOut(t, ops[0], l) + Delivered(Apply(t, ops[0]), ops[1..], l)
  }

  ghost function HandedOut(t: Table<Message>, op: Op, l: Message -> bool): seq<Message> {
    if op.Enqueue? then []
    else
      var o := Oldest(t.rows, Where(op.f));
      if o.Some? && l(o.value.data) then [o.value.data] else []
  }

  ghost predicate AllRespect(ops: seq<Op>, l: Message -> bool) {
    forall i :: 0 <= i < |ops| && ops[i].Dequeue? ==> Respects(Where(ops[i].f), l)
  }

  lemma {:induction false} StepConserves(t: Table<Message>, op: Op, l: Message -> bool)
    requires Valid(t) && (op.Dequeue? ==> Respects(Where(op.f), l))
    ensures Valid(Apply(t, op))
    ensures View(t.rows, l) + Accepted(op, l) == HandedOut(t, op, l) + View(Apply(t, op).rows, l)
  {
    match op
    case Enqueue(m) =>
      ViewAppend(t.rows, Row(t.next, m), l);
    case Dequeue(f) =>
      TakeValid(t, Where(f));
      TakeView(t, Where(f), l);
  }

  /** Conservation with order, for every part of the table that the dequeues never straddle. */
  lemma {:induction false} RunConserves(t: Table<Message>, ops: seq<Op>, l: Message -> bool)
    requires Valid(t) && AllRespect(ops, l)
    ensures Valid(Run(t, ops))
    ensures View(t.rows, l) + Enqueued(ops, l) == Delivered(t, ops, l) + View(Run(t, ops).rows, l)
    decreases |ops|
  {
    if ops == [] {
    } else {
      var op, rest, t1 := ops[0], ops[1..], Apply(t, ops[0]);
      StepConserves(t, op, l);
      assert forall i :: 0 <= i < |rest| ==> rest[i] == ops[i + 1];
      RunConserves(t1, rest, l);
      Compose(View(t.rows, l), Accepted(op, l), HandedOut(t, op, l), View(t1.rows, l),
              Enqueued(rest, l), Delivered(t1, rest, l), View(Run(t1, rest).rows, l));
    }
  }

  /** No filter straddles a lane. */
  lemma {:induction false} LanesRespected(f: Filter, lane: Lane)
    ensures Respects(Where(f), InLane(lane))
  {
    var probe := Message(lane.namespace, lane.queue, [], lane.sessionId, lane.deadLetter);
    forall m | InLane(lane)(m) ensures Where(f)(m) == Matches(f, probe) {
    }
  }

  /** Under any mix of the three dequeues and any enqueues, each lane is a FIFO: what was there
      and what went in is, in order, what came out followed by what is still there. */
  lemma {:induction false} LanesAreFifo(t: Table<Message>, ops: seq<Op>, lane: Lane)
    requires Valid(t)
    ensures View(t.rows, InLane(lane)) + Enqueued(ops, InLane(lane))
         == Delivered(t, ops, InLane(lane)) + View(Run(t, ops).rows, InLane(lane))
  {
    forall i | 0 <= i < |ops| && ops[i].Dequeue? ensures Respects(Where(ops[i].f), InLane(lane)) {
      LanesRespected(ops[i].f, lane);
    }
    RunConserves(t, ops, InLane(lane));
  }

  /** A whole queue is a FIFO as long as only the plain dequeue touches it. */
  lemma {:induction false} PlainQueuesAreFifo(t: Table<Message>, ops: seq<Op>, namespace: Bytes, queue: Bytes)
    requires Valid(t)
    requires forall i ::
               0 <= i < |ops| && ops[i].Dequeue? && InQueueFilter(ops[i].f, namespace, queue) ==> ops[i].f.Plain?
    ensures var l := InQueue(namespace, queue);
            View(t.rows, l) + Enqueued(ops, l) == Delivered(t, ops, l) + View(Run(t, ops).rows, l)
  {
    var l := InQueue(namespace, queue);
    forall i | 0 <= i < |ops| && ops[i].Dequeue? ensures Respects(Where(ops[i].f), l) {
      var f := ops[i].f;
      if InQueueFilter(f, namespace, queue) {
        assert forall m :: l(m) ==> Where(f)(m);
      } else {
        assert forall m :: l(m) ==> !Where(f)(m);
      }
    }
    RunConserves(t, ops, l);
  }

  predicate InQueueFilter(f: Filter, namespace: Bytes, queue: Bytes) {
    f.namespace == namespace && f.queue == queue
  }

  // -------------------------- Which dequeues keep order --------------------------

  /** Every dequeue of the run is with an allowed filter. */
  ghost predicate Allows(allowed: Filter -> bool, ops: seq<Op>) {
    forall i :: 0 <= i < |ops| && ops[i].Dequeue? ==> allowed(ops[i].f)
  }

  /** In this run the part `l` is a FIFO. */
  ghost predicate FifoIn(t: Table<Message>, ops: seq<Op>, l: Message -> bool) {
    View(t.rows, l) + Enqueued(ops, l) == Delivered(t, ops, l) + View(Run(t, ops).rows, l)
  }

  /** And in every run with the allowed filters, from every valid table. */
  ghost predicate KeepsFifo(allowed: Filter -> bool, l: Message -> bool) {
    forall t, ops :: Valid(t) && Allows(allowed, ops) ==> FifoIn(t, ops, l)
  }

  /** One dequeue that passes over an older message of the part breaks its order. */
  lemma {:induction false} StraddlingOvertakes(f: Filter, l: Message -> bool, older: Message, newer: Message)
    requires l(older) && l(newer) && !Matches(f, older) && Matches(f, newer)
    ensures !FifoIn(Table([Row(0, older), Row(1, newer)], 2), [Dequeue(f)], l)
  {
    var t := Table([Row(0, older), Row(1, newer)], 2);
    assert t.rows[1..] == [Row(1, newer)] && [Row(1, newer)][1..] == [] && [Dequeue(f)][1..] == [];
    assert Oldest(t.rows, Where(f)) == Some(Row(1, newer));
    assert Delivered(t, [Dequeue(f)], l) == [newer];
    var rest := View(Run(t, [Dequeue(f)]).rows, l);
    assert View(t.rows, l) == [older] + View([Row(1, newer)], l);
    assert (View(t.rows, l) + Enqueued([Dequeue(f)], l))[0] == older && ([newer] + rest)[0] == newer;
    assert older != newer;
  }

  lemma {:induction false} Straddles(f: Filter, l: Message -> bool) returns (older: Message, newer: Message)
    requires !Respects(Where(f), l)
    ensures l(older) && l(newer) && !Matches(f, older) && Matches(f, newer)
  {
    older :| l(older) && !Where(f)(older);
    newer :| l(newer) && Where(f)(newer);
  }

  /** A part of the table is a FIFO in every run exactly when no allowed filter straddles it. */
  lemma {:induction false} FifoIffRespected(allowed: Filter -> bool, l: Message -> bool)
    ensures KeepsFifo(allowed, l) <==> forall f :: allowed(f) ==> Respects(Where(f), l)
  {
    if forall f :: allowed(f) ==> Respects(Where(f), l) {
      forall t, ops | Valid(t) && Allows(allowed, ops) ensures FifoIn(t, ops, l) {
        RunConserves(t, ops, l);
      }
    } else {
      var f :| allowed(f) && !Respects(Where(f), l);
      var older, newer := Straddles(f, l);
      StraddlingOvertakes(f, l, older, newer);
      var t := Table([Row(0, older), Row(1, newer)], 2);
      assert Valid(t) && Allows(allowed, [Dequeue(f)]);
    }
  }

  /** A filter respects a queue exactly when it is the plain one or one of another queue. */
  lemma {:induction false} QueueRespectedIff(f: Filter, namespace: Bytes, queue: Bytes)
    ensures Respects(Where(f), InQueue(namespace, queue)) <==> (InQueueFilter(f, namespace, queue) ==> f.Plain?)
  {
    var l := InQueue(namespace, queue);
    if !InQueueFilter(f, namespace, queue) {
      assert forall m :: l(m) ==> !Where(f)(m);
    } else if f.Plain? {
      assert forall m :: l(m) ==> Where(f)(m);
    } else {
      var session := if f.OneSession? then f.sessionId else [];
      var newer := Message(namespace, queue, [], session, f.deadLetter);
      var older := Message(namespace, queue, [], session, !f.deadLetter);
      assert l(newer) && Where(f)(newer) && l(older) && !Where(f)(older);
    }
  }

  /** So a whole queue is a FIFO in every run exactly when only the plain dequeue is allowed on it. */
  lemma {:induction false} QueueIsFifoIff(allowed: Filter -> bool, namespace: Bytes, queue: Bytes)
    ensures KeepsFifo(allowed, InQueue(namespace, queue)) <==>
              forall f :: allowed(f) && InQueueFilter(f, namespace, queue) ==> f.Plain?
  {
    FifoIffRespected(allowed, InQueue(namespace, queue));
    forall f
      ensures Respects(Where(f), InQueue(namespace, queue)) <==> (InQueueFilter(f, namespace, queue) ==> f.Plain?)
    {
      QueueRespectedIff(f, namespace, queue);
    }
  }

  /** For one, a dequeue of dead letters overtakes an older live message. */
  lemma {:induction false} MixedQueuesOvertake(namespace: Bytes, queue: Bytes)
    ensures var live := Message(namespace, queue, [1], [], false);
            var dead := Message(namespace, queue, [2], [], true);
            var ops := [Enqueue(live), Enqueue(dead), Dequeue(AnySession(namespace, queue, true))];
            var l := InQueue(namespace, queue);
            Enqueued(ops, l) != Delivered(Table([], 0), ops, l) + View(Run(Table([], 0), ops).rows, l)
  {
    var live := Message(namespace, queue, [1], [], false);
    var dead := Message(namespace, queue, [2], [], true);
    var f := AnySession(namespace, queue, true);
    var ops := [Enqueue(live), Enqueue(dead), Dequeue(f)];
    var l := InQueue(namespace, queue);
    var t1 := Insert(Table([], 0), live);
    var t2 := Insert(t1, dead);
    assert ops[1..] == [Enqueue(dead), Dequeue(f)] && ops[1..][1..] == [Dequeue(f)] && [Dequeue(f)][1..] == [];
    assert Enqueued(ops, l)[0] == live;
    assert t2.rows == [Row(0, live), Row(1, dead)] && t2.rows[1..] == [Row(1, dead)];
    assert Oldest(t2.rows, Where(f)) == Some(Row(1, dead));
    assert Delivered(t2, [Dequeue(f)], l) == [dead];
    assert Delivered(t1, ops[1..], l) == [dead];
    assert Delivered(Table([], 0), ops, l) == [dead];
  }
}
