/** Every run of interleaved AMQP sessions over one durable table: connections come and go, and
    each frame, and each single send of a deliver loop, is one atomic step. */
module AmqpRuns {
  import opened Outcomes
  import opened ByteStrings
  import opened Tables
  import opened ServiceBus
  import opened AmqpEncoder
  import opened AmqpParser
  import opened AmqpFraming
  import opened AmqpSession

  datatype Entry = Entry(conn: nat, event: Event)

  datatype System = System(table: Table<Message>, conns: map<nat, Conn>, accepted: nat, log: seq<Entry>)

  datatype Action =
    | Accept
    | Incoming(id: nat, f: Frame, now: int)
    | SendNext(id: nat)
    | Drop(id: nat)

  ghost function Logged(id: nat, events: seq<Event>): seq<Entry> {
    seq(|events|, i requires 0 <= i < |events| => Entry(id, events[i]))
  }

  /** A closed connection goes away; a crash ends the process, and only the table survives it. */
  ghost function Commit(s: System, id: nat, e: Effect): System {
    System(e.table,
           match e.status
           case Running => s.conns[id := e.conn]
           case Closed => s.conns - {id}
           case Crashed => map[],
           s.accepted, s.log + Logged(id, e.events))
  }

  ghost predicate Idle(s: System, id: nat) {
    id in s.conns && s.conns[id].delivering.None?
  }

  ghost predicate Busy(s: System, id: nat) {
    id in s.conns && s.conns[id].delivering.Some? && Steady(s.conns[id])
  }

  /** An action that is not enabled changes nothing. */
  ghost function Step(env: Env, s: System, a: Action): System {
    match a
    case Accept => s.(conns := s.conns[s.accepted := NEW_CONN], accepted := s.accepted + 1)
    case Incoming(id, f, now) => if Idle(s, id) then Commit(s, id, Receive(env, s.conns[id], s.table, f, now)) else s
    case SendNext(id) => if Busy(s, id) then Commit(s, id, SendOne(s.conns[id], s.table)) else s
    case Drop(id) => s.(conns := s.conns - {id})
  }

  ghost function Run(env: Env, s: System, actions: seq<Action>): System
    decreases |actions|
  {
    if actions == [] then s else Run(env, Step(env, s, actions[0]), actions[1..])
  }

  /** A start: any valid table, no connection, an empty history. */
  ghost function Start(t: Table<Message>): System {
    System(t, map[], 0, [])
  }

  // --------------------------- What the history says ---------------------------

  ghost function StoredIn(log: seq<Entry>, l: Message -> bool): seq<Message> {
    if log == [] then []
    else
      var e := log[|log| - 1].event;
      StoredIn(log[..|log| - 1], l) + if e.Stored? && l(e.stored) then [e.stored] else []
  }

  ghost function SentIn(log: seq<Entry>, l: Message -> bool): seq<Message> {
    if log == [] then []
    else
      var e := log[|log| - 1].event;
      SentIn(log[..|log| - 1], l) + if e.Sent? && l(e.sent) then [e.sent] else []
  }

  /** The delivery ids sent on one connection. */
  ghost function IdsOf(log: seq<Entry>, id: nat): seq<uint32> {
    if log == [] then []
    else
      var e := log[|log| - 1];
      IdsOf(log[..|log| - 1], id) + if e.event.Sent? && e.conn == id then [e.event.id] else []
  }

  ghost predicate Consecutive(ids: seq<uint32>) {
    forall k :: 0 <= k < |ids| ==> ids[k] == (k + 1) % TWO32
  }

  ghost predicate SameLink(a: Link, b: Link) {
    a.(credit := b.credit) == b
  }

  /** The history holds the attach that created `link`, with a token that verified then. */
  ghost predicate AdmittedBefore(env: Env, log: seq<Entry>, id: nat, link: Link) {
    exists i :: 0 <= i < |log| && AdmittedAt(env, log[i], id, link)
  }

  ghost predicate AdmittedAt(env: Env, e: Entry, id: nat, link: Link) {
    && e.conn == id && e.event.Admitted? && SameLink(e.event.link, link)
    && Admits(env, e.event.token, link.namespace, e.event.now)
  }

  /** What an entry of connection `id` makes of the credit of link `handle`: an attach starts at 0,
      a Flow sets it, a send takes one. */
  ghost function CreditAfter(credit: int, e: Event, handle: uint32): int {
    match e
    case Admitted(link, _, _) => if link.handle == handle then 0 else credit
    case Credited(h, granted) => if h == handle then granted else credit
    case Stored(_) => credit
    case Sent(_, h, _, _) => if h == handle then credit - 1 else credit
  }

  /** The credit that the history leaves a link: what was last granted less the sends since. */
  ghost function Balance(log: seq<Entry>, id: nat, handle: uint32): int {
    if log == [] then 0
    else
      var e, before := log[|log| - 1], Balance(log[..|log| - 1], id, handle);
      if e.conn == id then CreditAfter(before, e.event, handle) else before
  }

  ghost predicate LinkOk(env: Env, log: seq<Entry>, id: nat, handle: uint32, link: Link) {
    && link.handle == handle && link.namespace != [] && AdmittedBefore(env, log, id, link)
    && link.credit == Balance(log, id, handle)
  }

  ghost predicate ConnOk(env: Env, log: seq<Entry>, id: nat, c: Conn) {
    && Steady(c)
    && (forall h :: h in c.links ==> LinkOk(env, log, id, h, c.links[h]))
    && c.nextDelivery == |IdsOf(log, id)| % TWO32
  }

  /** A send was made within the link's credit, over a sending link admitted earlier for the very
      queue it came from. */
  ghost predicate SendOk(env: Env, log: seq<Entry>, e: Entry) {
    e.event.Sent? ==>
      Balance(log, e.conn, e.event.handle) > 0 &&
      exists link :: AdmittedBefore(env, log, e.conn, link) && link.handle == e.event.handle && !link.receiver
                  && link.namespace == e.event.sent.namespace && link.queue == e.event.sent.queue
  }

  ghost predicate ConnsOk(env: Env, log: seq<Entry>, conns: map<nat, Conn>) {
    forall id :: id in conns ==> ConnOk(env, log, id, conns[id])
  }

  /** Ids count from 1 on every connection, and no connection to come has any. */
  ghost predicate IdsOk(log: seq<Entry>, accepted: nat) {
    && (forall id :: Consecutive(IdsOf(log, id)))
    && (forall id :: id >= accepted ==> IdsOf(log, id) == [])
  }

  ghost predicate SendsOk(env: Env, log: seq<Entry>) {
    forall j :: 0 <= j < |log| ==> SendOk(env, log[..j], log[j])
  }

  ghost predicate Safe(env: Env, s: System) {
    && Valid(s.table)
    && (forall id :: id in s.conns ==> id < s.accepted)
    && ConnsOk(env, s.log, s.conns)
    && IdsOk(s.log, s.accepted)
    && SendsOk(env, s.log)
  }

  /** Per queue: what was there, and was stored, is what was sent and what is still there. */
  ghost predicate Conserved(t0: Table<Message>, s: System, namespace: Bytes, queue: Bytes) {
    var l := InQueue(namespace, queue);
    View(t0.rows, l) + StoredIn(s.log, l) == SentIn(s.log, l) + View(s.table.rows, l)
  }

  // ------------------------------- One effect -------------------------------

  /** What Receive may do to a connection's links and to the table. */
  ghost predicate Benign(env: Env, c: Conn, t: Table<Message>, e: Effect) {
    && Steady(e.conn) && e.conn.nextDelivery == c.nextDelivery && |e.events| <= 1
    && (forall h :: h in e.conn.links ==>
          || (h in c.links && SameLink(c.links[h], e.conn.links[h]))
          || (e.events != [] && NewlyAdmitted(env, e.events[0], h, e.conn.links[h])))
    && (e.events != [] ==> !e.events[0].Sent?)
    && e.table == (if e.events != [] && e.events[0].Stored? then Insert(t, e.events[0].stored) else t)
    && CreditKept(c, e)
  }

  /** The credits of the links are what the one event, if any, makes of them. */
  ghost predicate CreditKept(c: Conn, e: Effect)
    requires |e.events| <= 1
  {
    forall h :: h in e.conn.links ==>
      var credit := if h in c.links then c.links[h].credit else 0;
      e.conn.links[h].credit == if e.events == [] then credit else CreditAfter(credit, e.events[0], h)
  }

  ghost predicate NewlyAdmitted(env: Env, e: Event, handle: uint32, link: Link) {
    e.Admitted? && e.link == link && link.handle == handle && Admits(env, e.token, link.namespace, e.now)
  }

  lemma {:induction false} ReceiveBenign(env: Env, c: Conn, t: Table<Message>, f: Frame, now: int)
    requires c.delivering.None?
    ensures Benign(env, c, t, Receive(env, c, t, f, now))
  {
    if f.body != [] && ParseDescribedList(f.body).Ok? {
      var d := ParseDescribedList(f.body).value;
      DispatchBenign(env, c, t, f.channel, d, now);
    }
  }

  lemma {:induction false} AttachBenign(env: Env, c: Conn, t: Table<Message>, channel: uint16, fields: seq<Value>,
      now: int)
    requires c.delivering.None?
    ensures Benign(env, c, t, ReceiveAttach(env, c, t, channel, fields, now))
  {
    hide Admits, AttachAddress, FieldText, FieldUint, FieldBool;
  }

  lemma {:induction false} FlowBenign(env: Env, c: Conn, t: Table<Message>, channel: uint16, fields: seq<Value>)
    requires c.delivering.None?
    ensures Benign(env, c, t, ReceiveFlow(c, t, channel, fields))
  {
    hide FieldUint, Admits;
  }

  lemma {:induction false} TransferBenign(env: Env, c: Conn, t: Table<Message>, channel: uint16, fields: seq<Value>,
      payload: Bytes)
    requires c.delivering.None?
    ensures Benign(env, c, t, ReceiveTransfer(c, t, channel, fields, payload))
  {
    hide FieldUint, Admits, StoredBody, Insert;
  }

  /** A reply that leaves the links alone, or drops some. */
  lemma {:induction false} AnswerBenign(env: Env, c: Conn, c': Conn, t: Table<Message>, replies: seq<Reply>)
    requires c.delivering.None? && c'.delivering.None? && c'.nextDelivery == c.nextDelivery
    requires forall h :: h in c'.links ==> h in c.links && c'.links[h] == c.links[h]
    ensures Benign(env, c, t, Effect(c', t, replies, [], Running))
  {
    hide Admits;
  }

  lemma {:induction false} DispatchBenign(env: Env, c: Conn, t: Table<Message>, channel: uint16, d: Described, now: int)
    requires c.delivering.None?
    ensures Benign(env, c, t, Dispatch(env, c, t, channel, d, now))
  {
    hide ReceiveAttach, ReceiveFlow, ReceiveTransfer, Opened, FieldUint, Benign;
    if d.code == 0x12 {
      AttachBenign(env, c, t, channel, d.fields, now);
    } else if d.code == 0x13 {
      FlowBenign(env, c, t, channel, d.fields);
    } else if d.code == PERF_TRANSFER {
      TransferBenign(env, c, t, channel, d.fields, d.rest);
    } else {
      var e := Dispatch(env, c, t, channel, d, now);
      OtherFrames(env, c, t, channel, d, now);
      AnswerBenign(env, c, e.conn, t, e.replies);
    }
  }

  lemma {:induction false} OtherFrames(env: Env, c: Conn, t: Table<Message>, channel: uint16, d: Described, now: int)
    requires c.delivering.None? && d.code != 0x12 && d.code != 0x13 && d.code != PERF_TRANSFER
    ensures var e := Dispatch(env, c, t, channel, d, now);
            && e == Effect(e.conn, t, e.replies, [], Running)
            && e.conn.delivering.None? && e.conn.nextDelivery == c.nextDelivery
            && forall h :: h in e.conn.links ==> h in c.links && e.conn.links[h] == c.links[h]
  {
    hide Opened, FieldUint;
  }

  /** What SendOne does to the connection: credit goes down, and the next id is used or not. */
  ghost predicate SendKeeps(c: Conn, e: Effect) {
    && Steady(e.conn) && e.status.Running? && |e.events| <= 1
    && e.conn.links.Keys == c.links.Keys
    && (forall x :: x in c.links ==> SameLink(c.links[x], e.conn.links[x])) && CreditKept(c, e)
    && (e.events == [] ==> e.conn.nextDelivery == c.nextDelivery)
    && (e.events != [] ==> e.events[0].Sent? && e.events[0].id == e.conn.nextDelivery == (c.nextDelivery + 1) % TWO32)
  }

  /** What it does to the table: nothing, or the oldest message of the link's queue leaves. */
  ghost predicate SendTakes(c: Conn, t: Table<Message>, e: Effect)
    requires c.delivering.Some? && Steady(c)
  {
    var f := QueueFilter(c, c.links[c.delivering.value.handle]);
    var o := Oldest(t.rows, Where(f));
    if e.events == [] then e.table == t
    else
      && c.links[c.delivering.value.handle].credit > 0
      && o.Some? && e.table == Take(t, Where(f)) && Matches(f, o.value.data)
      && e.events == [Sent(c.delivering.value.channel, c.delivering.value.handle, e.conn.nextDelivery, o.value.data)]
  }

  ghost predicate SendEffect(c: Conn, t: Table<Message>, e: Effect)
    requires c.delivering.Some? && Steady(c)
  {
    SendKeeps(c, e) && SendTakes(c, t, e)
  }

  lemma {:induction false} SendOneEffect(c: Conn, t: Table<Message>)
    requires c.delivering.Some? && Steady(c) && Valid(t)
    ensures SendEffect(c, t, SendOne(c, t))
  {
    OldestIsLeast(t, Where(QueueFilter(c, c.links[c.delivering.value.handle])));
  }

  // ----------------------------- Conservation -----------------------------

  lemma {:induction false} StoredAppend(log: seq<Entry>, e: Entry, l: Message -> bool)
    ensures StoredIn(log + [e], l)
         == StoredIn(log, l) + if e.event.Stored? && l(e.event.stored) then [e.event.stored] else []
    ensures SentIn(log + [e], l)
         == SentIn(log, l) + if e.event.Sent? && l(e.event.sent) then [e.event.sent] else []
  {
    assert (log + [e])[..|log|] == log;
  }

  lemma {:induction false} LoggedOne(log: seq<Entry>, id: nat, events: seq<Event>)
    requires |events| <= 1
    ensures log + Logged(id, events) == if events == [] then log else log + [Entry(id, events[0])]
  {
  }

  lemma {:induction false} ReceiveConserved(env: Env, t0: Table<Message>, s: System, id: nat, e: Effect,
      namespace: Bytes, queue: Bytes)
    requires Valid(s.table) && Conserved(t0, s, namespace, queue)
    requires id in s.conns && Benign(env, s.conns[id], s.table, e)
    ensures Valid(e.table) && Conserved(t0, Commit(s, id, e), namespace, queue)
  {
    var l := InQueue(namespace, queue);
    LoggedOne(s.log, id, e.events);
    if e.events != [] {
      StoredAppend(s.log, Entry(id, e.events[0]), l);
      var into := if e.events[0].Stored? && l(e.events[0].stored) then [e.events[0].stored] else [];
      if e.events[0].Stored? {
        InsertValid(s.table, e.events[0].stored);
        ViewAppend(s.table.rows, Row(s.table.next, e.events[0].stored), l);
      }
      Compose(View(t0.rows, l), StoredIn(s.log, l), SentIn(s.log, l), View(s.table.rows, l),
              into, [], View(e.table.rows, l));
      assert SentIn(s.log, l) + [] == SentIn(s.log, l);
    }
  }

  lemma {:induction false} QueueRespected(f: Filter, namespace: Bytes, queue: Bytes)
    requires f.Plain?
    ensures Respects(Where(f), InQueue(namespace, queue))
  {
    var l := InQueue(namespace, queue);
    if f.namespace == namespace && f.queue == queue {
      assert forall m :: l(m) ==> Where(f)(m);
    } else {
      assert forall m :: l(m) ==> !Where(f)(m);
    }
  }

  lemma {:induction false} SendConserved(t0: Table<Message>, s: System, id: nat, e: Effect, namespace: Bytes,
      queue: Bytes)
    requires Valid(s.table) && Conserved(t0, s, namespace, queue)
    requires Busy(s, id) && SendEffect(s.conns[id], s.table, e)
    ensures Valid(e.table) && Conserved(t0, Commit(s, id, e), namespace, queue)
  {
    var c := s.conns[id];
    var l := InQueue(namespace, queue);
    var f := QueueFilter(c, c.links[c.delivering.value.handle]);
    LoggedOne(s.log, id, e.events);
    if e.events != [] {
      StoredAppend(s.log, Entry(id, e.events[0]), l);
      var out := if l(e.events[0].sent) then [e.events[0].sent] else [];
      QueueRespected(f, namespace, queue);
      TakeValid(s.table, Where(f));
      TakeView(s.table, Where(f), l);
      Compose(View(t0.rows, l), StoredIn(s.log, l), SentIn(s.log, l), View(s.table.rows, l),
              [], out, View(e.table.rows, l));
      assert StoredIn(s.log, l) + [] == StoredIn(s.log, l);
    }
  }

  // -------------------------------- Safety --------------------------------

  lemma {:induction false} AdmittedGrows(env: Env, log: seq<Entry>, more: seq<Entry>, id: nat, link: Link, link': Link)
    requires AdmittedBefore(env, log, id, link) && SameLink(link, link')
    ensures AdmittedBefore(env, log + more, id, link')
  {
    var i :| 0 <= i < |log| && AdmittedAt(env, log[i], id, link);
    assert AdmittedAt(env, (log + more)[i], id, link');
  }

  lemma {:induction false} IdsAppend(log: seq<Entry>, e: Entry, id: nat)
    ensures IdsOf(log + [e], id) == IdsOf(log, id) + if e.event.Sent? && e.conn == id then [e.event.id] else []
  {
    assert (log + [e])[..|log|] == log;
  }

  lemma {:induction false} BalanceAppend(log: seq<Entry>, e: Entry, id: nat, handle: uint32)
    ensures Balance(log + [e], id, handle)
         == if e.conn == id then CreditAfter(Balance(log, id, handle), e.event, handle) else Balance(log, id, handle)
  {
    assert (log + [e])[..|log|] == log;
  }

  /** One more entry, and the connection it is about: the others do not notice. */
  lemma {:induction false} ConnsKept(env: Env, log: seq<Entry>, e: Entry, conns: map<nat, Conn>, c: Conn)
    requires ConnsOk(env, log, conns) && ConnOk(env, log + [e], e.conn, c)
    ensures ConnsOk(env, log + [e], conns[e.conn := c])
    ensures ConnsOk(env, log + [e], conns - {e.conn})
  {
    forall id | id in conns && id != e.conn ensures ConnOk(env, log + [e], id, conns[id]) {
      IdsAppend(log, e, id);
      forall h | h in conns[id].links ensures LinkOk(env, log + [e], id, h, conns[id].links[h]) {
        assert LinkOk(env, log, id, h, conns[id].links[h]);
        AdmittedGrows(env, log, [e], id, conns[id].links[h], conns[id].links[h]);
      }
    }
  }

  lemma {:induction false} SendsKept(env: Env, log: seq<Entry>, e: Entry)
    requires SendsOk(env, log) && SendOk(env, log, e)
    ensures SendsOk(env, log + [e])
  {
    forall j | 0 <= j < |log + [e]| ensures SendOk(env, (log + [e])[..j], (log + [e])[j]) {
      if j < |log| {
        assert (log + [e])[..j] == log[..j];
      } else {
        assert (log + [e])[..j] == log;
      }
    }
  }

  lemma {:induction false} IdsKept(log: seq<Entry>, e: Entry, accepted: nat)
    requires IdsOk(log, accepted) && e.conn < accepted
    requires e.event.Sent? ==> e.event.id == (|IdsOf(log, e.conn)| + 1) % TWO32
    ensures IdsOk(log + [e], accepted)
  {
    forall x: nat ensures Consecutive(IdsOf(log + [e], x)) && (x >= accepted ==> IdsOf(log + [e], x) == []) {
      IdsAppend(log, e, x);
    }
  }

  /** A link after an entry of its own connection. */
  lemma {:induction false} LinkAfter(env: Env, log: seq<Entry>, id: nat, e: Event, h: uint32, link: Link, link': Link)
    requires LinkOk(env, log, id, h, link) && SameLink(link, link') && link'.credit == CreditAfter(link.credit, e, h)
    ensures LinkOk(env, log + [Entry(id, e)], id, h, link')
  {
    BalanceAppend(log, Entry(id, e), id, h);
    AdmittedGrows(env, log, [Entry(id, e)], id, link, link');
  }

  lemma {:induction false} LinkAdmitted(env: Env, log: seq<Entry>, id: nat, e: Event, h: uint32, link: Link)
    requires NewlyAdmitted(env, e, h, link) && link.credit == 0
    ensures LinkOk(env, log + [Entry(id, e)], id, h, link)
  {
    var log' := log + [Entry(id, e)];
    BalanceAppend(log, Entry(id, e), id, h);
    assert AdmittedAt(env, log'[|log|], id, link);
  }

  lemma {:induction false} LinkAfterReceive(env: Env, log: seq<Entry>, id: nat, c: Conn, t: Table<Message>,
      e: Effect, h: uint32)
    requires ConnOk(env, log, id, c) && Benign(env, c, t, e) && h in e.conn.links
    ensures LinkOk(env, if e.events == [] then log else log + [Entry(id, e.events[0])], id, h, e.conn.links[h])
  {
    hide LinkOk, NewlyAdmitted, Steady;
    if h in c.links && SameLink(c.links[h], e.conn.links[h]) {
      assert LinkOk(env, log, id, h, c.links[h]);
      if e.events == [] {
        assert e.conn.links[h] == c.links[h];
      } else {
        LinkAfter(env, log, id, e.events[0], h, c.links[h], e.conn.links[h]);
      }
    } else {
      NewCredit(env, c, e, h);
      LinkAdmitted(env, log, id, e.events[0], h, e.conn.links[h]);
    }
  }

  /** A connection after one benign effect. */
  lemma {:induction false} ConnAfterReceive(env: Env, log: seq<Entry>, id: nat, c: Conn, t: Table<Message>, e: Effect)
    requires ConnOk(env, log, id, c) && Benign(env, c, t, e)
    ensures ConnOk(env, log + Logged(id, e.events), id, e.conn)
  {
    LoggedOne(log, id, e.events);
    forall h | h in e.conn.links ensures LinkOk(env, log + Logged(id, e.events), id, h, e.conn.links[h]) {
      LinkAfterReceive(env, log, id, c, t, e, h);
    }
    if e.events != [] {
      IdsAppend(log, Entry(id, e.events[0]), id);
    }
    hide LinkOk, Logged, CreditKept;
  }

  lemma {:induction false} NewCredit(env: Env, c: Conn, e: Effect, h: uint32)
    requires |e.events| == 1 && h in e.conn.links && CreditKept(c, e)
    requires NewlyAdmitted(env, e.events[0], h, e.conn.links[h])
    ensures e.conn.links[h].credit == 0
  {
  }

  /** An effect of at most one event keeps the system safe when its own connection and its own
      event are in order. */
  lemma {:induction false} CommitSafe(env: Env, s: System, id: nat, e: Effect)
    requires Safe(env, s) && id in s.conns && Valid(e.table) && |e.events| <= 1
    requires ConnOk(env, s.log + Logged(id, e.events), id, e.conn)
    requires e.events != [] ==> SendOk(env, s.log, Entry(id, e.events[0]))
    requires e.events != [] && e.events[0].Sent? ==> e.events[0].id == (|IdsOf(s.log, id)| + 1) % TWO32
    ensures Safe(env, Commit(s, id, e))
  {
    LoggedOne(s.log, id, e.events);
    if e.events != [] {
      var entry := Entry(id, e.events[0]);
      SendsKept(env, s.log, entry);
      IdsKept(s.log, entry, s.accepted);
      ConnsKept(env, s.log, entry, s.conns, e.conn);
    }
  }

  lemma {:induction false} ReceiveSafe(env: Env, s: System, id: nat, e: Effect)
    requires Safe(env, s) && Idle(s, id) && Benign(env, s.conns[id], s.table, e) && Valid(e.table)
    ensures Safe(env, Commit(s, id, e))
  {
    ConnAfterReceive(env, s.log, id, s.conns[id], s.table, e);
    CommitSafe(env, s, id, e);
  }

  lemma {:induction false} LinkAfterSend(env: Env, log: seq<Entry>, id: nat, c: Conn, e: Effect, h: uint32)
    requires ConnOk(env, log, id, c) && SendKeeps(c, e) && h in e.conn.links
    ensures LinkOk(env, if e.events == [] then log else log + [Entry(id, e.events[0])], id, h, e.conn.links[h])
  {
    hide LinkOk, Steady;
    assert LinkOk(env, log, id, h, c.links[h]) && SameLink(c.links[h], e.conn.links[h]);
    if e.events == [] {
      assert e.conn.links[h] == c.links[h];
    } else {
      LinkAfter(env, log, id, e.events[0], h, c.links[h], e.conn.links[h]);
    }
  }

  lemma {:induction false} ConnAfterSend(env: Env, log: seq<Entry>, id: nat, c: Conn, e: Effect)
    requires ConnOk(env, log, id, c) && SendKeeps(c, e)
    ensures ConnOk(env, log + Logged(id, e.events), id, e.conn)
  {
    LoggedOne(log, id, e.events);
    forall h | h in e.conn.links ensures LinkOk(env, log + Logged(id, e.events), id, h, e.conn.links[h]) {
      LinkAfterSend(env, log, id, c, e, h);
    }
    if e.events != [] {
      IdsAppend(log, Entry(id, e.events[0]), id);
      ModStep(|IdsOf(log, id)|);
    }
    hide LinkOk, Logged, CreditKept;
  }

  /** The message sent is of the queue of the link, which was admitted for it. */
  lemma {:induction false} SendIsOk(env: Env, log: seq<Entry>, id: nat, c: Conn, t: Table<Message>, e: Effect)
    requires c.delivering.Some? && ConnOk(env, log, id, c) && SendEffect(c, t, e) && e.events != []
    ensures SendOk(env, log, Entry(id, e.events[0]))
  {
    var h := c.delivering.value.handle;
    assert LinkOk(env, log, id, h, c.links[h]);
  }

  lemma {:induction false} SendIdOk(env: Env, log: seq<Entry>, id: nat, c: Conn, e: Effect)
    requires ConnOk(env, log, id, c) && SendKeeps(c, e) && e.events != []
    ensures e.events[0].Sent? && e.events[0].id == (|IdsOf(log, id)| + 1) % TWO32
  {
    ModStep(|IdsOf(log, id)|);
  }

  lemma {:induction false} SendSafe(env: Env, s: System, id: nat, c: Conn, e: Effect)
    requires Safe(env, s) && id in s.conns && c == s.conns[id] && c.delivering.Some? && Steady(c)
    requires SendKeeps(c, e) && Valid(e.table)
    requires e.events != [] ==> SendOk(env, s.log, Entry(id, e.events[0]))
    ensures Safe(env, Commit(s, id, e))
  {
    assert ConnOk(env, s.log, id, c);
    hide Safe, Commit, ConnOk, SendOk, IdsOf, Logged;
    assert |e.events| <= 1;
    ConnAfterSend(env, s.log, id, c, e);
    if e.events != [] {
      SendIdOk(env, s.log, id, c, e);
    }
    CommitSafe(env, s, id, e);
  }

  lemma {:induction false} ModStep(n: nat)
    ensures (n % TWO32 + 1) % TWO32 == (n + 1) % TWO32
  {
  }

  // --------------------------------- Runs ---------------------------------

  lemma {:induction false} ReceiveValid(env: Env, c: Conn, t: Table<Message>, e: Effect)
    requires Valid(t) && Benign(env, c, t, e)
    ensures Valid(e.table)
  {
    if e.events != [] && e.events[0].Stored? {
      InsertValid(t, e.events[0].stored);
    }
  }

  lemma {:induction false} SendValid(c: Conn, t: Table<Message>, e: Effect)
    requires c.delivering.Some? && Steady(c) && Valid(t) && SendEffect(c, t, e)
    ensures Valid(e.table)
  {
    TakeValid(t, Where(QueueFilter(c, c.links[c.delivering.value.handle])));
  }

  lemma {:induction false} StepSafe(env: Env, s: System, a: Action)
    requires Safe(env, s)
    ensures Safe(env, Step(env, s, a))
  {
    hide Receive, SendOne, Commit, Benign, SendKeeps, SendTakes, SendOk, LinkOk;
    match a
    case Accept =>
      assert IdsOf(s.log, s.accepted) == [];
      assert ConnOk(env, s.log, s.accepted, NEW_CONN);
    case Drop(_) =>
    case Incoming(id, f, now) =>
      if Idle(s, id) {
        var e := Receive(env, s.conns[id], s.table, f, now);
        ReceiveBenign(env, s.conns[id], s.table, f, now);
        ReceiveValid(env, s.conns[id], s.table, e);
        ReceiveSafe(env, s, id, e);
      }
    case SendNext(id) =>
      if Busy(s, id) {
        var e := SendOne(s.conns[id], s.table);
        SendOneEffect(s.conns[id], s.table);
        SendValid(s.conns[id], s.table, e);
        assert ConnOk(env, s.log, id, s.conns[id]);
        if e.events != [] {
          SendIsOk(env, s.log, id, s.conns[id], s.table, e);
        }
        SendSafe(env, s, id, s.conns[id], e);
      }
  }

  lemma {:induction false} StepKeeps(env: Env, t0: Table<Message>, s: System, a: Action, namespace: Bytes, queue: Bytes)
    requires Safe(env, s) && Conserved(t0, s, namespace, queue)
    ensures Safe(env, Step(env, s, a)) && Conserved(t0, Step(env, s, a), namespace, queue)
  {
    StepSafe(env, s, a);
    hide Receive, SendOne, Commit, Benign, SendKeeps, SendTakes;
    match a
    case Accept =>
    case Drop(_) =>
    case Incoming(id, f, now) =>
      if Idle(s, id) {
        ReceiveBenign(env, s.conns[id], s.table, f, now);
        ReceiveConserved(env, t0, s, id, Receive(env, s.conns[id], s.table, f, now), namespace, queue);
      }
    case SendNext(id) =>
      if Busy(s, id) {
        SendOneEffect(s.conns[id], s.table);
        SendConserved(t0, s, id, SendOne(s.conns[id], s.table), namespace, queue);
      }
  }

  /** The invariant of every run: a valid table; links keyed by their handles, with a namespace,
      admitted by a token that verified; delivery ids 1, 2, 3, ... modulo 2^32 on each
      connection; every link's credit what was last granted less the sends since; no message sent
      except within that credit and over a link admitted for its queue; and, for every queue,
      nothing lost, duplicated or reordered. */
  lemma {:induction false} RunKeeps(env: Env, t0: Table<Message>, s: System, actions: seq<Action>, namespace: Bytes,
      queue: Bytes)
    requires Safe(env, s) && Conserved(t0, s, namespace, queue)
    ensures Safe(env, Run(env, s, actions)) && Conserved(t0, Run(env, s, actions), namespace, queue)
    decreases |actions|
  {
    if actions != [] {
      StepKeeps(env, t0, s, actions[0], namespace, queue);
      RunKeeps(env, t0, Step(env, s, actions[0]), actions[1..], namespace, queue);
    }
  }

  /** So it holds after every run from a valid table, however sessions interleave. */
  lemma {:induction false} EveryRun(env: Env, t0: Table<Message>, actions: seq<Action>, namespace: Bytes, queue: Bytes)
    requires Valid(t0)
    ensures var s := Run(env, Start(t0), actions);
            Safe(env, s) && Conserved(t0, s, namespace, queue)
  {
    RunKeeps(env, t0, Start(t0), actions, namespace, queue);
  }
}
