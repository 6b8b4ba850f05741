/** What a Flow delivers, and what a body looks like at both ends of the service. */
module AmqpDelivery {
  import opened Outcomes
  import opened ByteStrings
  import opened Tables
  import opened ServiceBus
  import opened AmqpEncoder
  import opened AmqpParser
  import opened AmqpRoundTrip
  import opened AmqpFraming
  import opened AmqpSession

  function Min(a: nat, b: nat): nat {
    if a < b then a else b
  }

  ghost function QueueOf(c: Conn, link: Link): Message -> bool {
    InQueue(LinkNamespace(c, link), link.queue)
  }

  /** The transfer that carries `body` over the link of `d`. */
  function TransferReply(c: Conn, d: Delivering, id: uint32, body: Bytes): Reply
    requires d.handle in c.links
  {
    Reply(d.channel, PERF_TRANSFER, TransferFields(c.links[d.handle].handle, id), Some(body))
  }

  /** `e` sends exactly the first `n` messages of `queue` over `d`, with consecutive ids. */
  ghost predicate SendsFirst(c: Conn, d: Delivering, queue: seq<Message>, n: nat, e: Effect)
    requires d.handle in c.links && n <= |queue|
  {
    && |e.events| == n && |e.replies| == n
    && forall i :: 0 <= i < n ==>
         var id := (c.nextDelivery + 1 + i) % TWO32;
         && e.events[i] == Sent(d.channel, d.handle, id, queue[i])
         && e.replies[i] == TransferReply(c, d, id, queue[i].body)
  }

  /** The connection after `n` sends. */
  ghost predicate SpentBy(c: Conn, h: uint32, n: nat, c': Conn)
    requires h in c.links && n <= c.links[h].credit
  {
    c' == c.(delivering := None, nextDelivery := (c.nextDelivery + n) % TWO32,
             links := c.links[h := c.links[h].(credit := c.links[h].credit - n)])
  }

  /** One send followed by the rest of a drain. */
  lemma {:induction false} SendsCons(c: Conn, d: Delivering, queue: seq<Message>, n: nat, first: Effect, rest: Effect)
    requires c.delivering == Some(d) && Steady(c) && 0 < n <= |queue| && c.links[d.handle].credit > 0
    requires first.events == [Sent(d.channel, d.handle, (c.nextDelivery + 1) % TWO32, queue[0])]
    requires first.replies == [TransferReply(c, d, (c.nextDelivery + 1) % TWO32, queue[0].body)]
    requires SendsFirst(Spent(c, d.handle), d, queue[1..], n - 1, rest)
    ensures SendsFirst(c, d, queue, n, Then(first, rest))
  {
    var e := Then(first, rest);
    forall i | 0 <= i < n
      ensures var id := (c.nextDelivery + 1 + i) % TWO32;
              && e.events[i] == Sent(d.channel, d.handle, id, queue[i])
              && e.replies[i] == TransferReply(c, d, id, queue[i].body)
    {
      if i > 0 {
        ModAdd(c.nextDelivery + 1, i);
        assert e.events[i] == rest.events[i - 1] && e.replies[i] == rest.replies[i - 1];
      }
    }
  }

  lemma {:induction false} ModAdd(a: nat, b: nat)
    ensures (a % TWO32 + b) % TWO32 == (a + b) % TWO32
  {
  }

  lemma {:induction false} SpentCons(c: Conn, h: uint32, n: nat, c': Conn)
    requires h in c.links && 0 < n <= c.links[h].credit
    requires SpentBy(Spent(c, h), h, n - 1, c')
    ensures SpentBy(c, h, n, c')
  {
    ModAdd(c.nextDelivery + 1, n - 1);
    assert c'.links == c.links[h := c.links[h].(credit := c.links[h].credit - n)];
  }

  /** One turn of the loop, in terms of the queue of the link. */
  lemma {:induction false} FirstSend(c: Conn, t: Table<Message>, d: Delivering)
    requires Valid(t) && c.delivering == Some(d) && Steady(c)
    ensures var link := c.links[d.handle];
            var queue := View(t.rows, QueueOf(c, link));
            var first := SendOne(c, t);
            if link.credit == 0 || queue == [] then first == Quiet(c.(delivering := None), t)
            else
              var id := (c.nextDelivery + 1) % TWO32;
              && first.conn == Spent(c, d.handle) && Valid(first.table) && first.status.Running?
              && View(first.table.rows, QueueOf(c, link)) == queue[1..]
              && first.events == [Sent(d.channel, d.handle, id, queue[0])]
              && first.replies == [TransferReply(c, d, id, queue[0].body)]
  {
    var link := c.links[d.handle];
    var l := QueueOf(c, link);
    var f := QueueFilter(c, link);
    assert forall m :: l(m) <==> Where(f)(m);
    OldestIsLeast(t, Where(f));
    TakeView(t, Where(f), l);
    TakeValid(t, Where(f));
  }

  /** min(credit, queue length) sends, oldest first, off the credit and off the queue. */
  ghost predicate DrainOutcome(c: Conn, t: Table<Message>, d: Delivering, e: Effect)
    requires d.handle in c.links
  {
    var queue := View(t.rows, QueueOf(c, c.links[d.handle]));
    var n := Min(c.links[d.handle].credit, |queue|);
    && SendsFirst(c, d, queue, n, e) && SpentBy(c, d.handle, n, e.conn)
    && Valid(e.table) && View(e.table.rows, QueueOf(c, c.links[d.handle])) == queue[n..]
  }

  lemma {:induction false} OutcomeCons(c: Conn, t: Table<Message>, d: Delivering, first: Effect, rest: Effect)
    requires c.delivering == Some(d) && Steady(c) && c.links[d.handle].credit > 0
    requires var queue := View(t.rows, QueueOf(c, c.links[d.handle]));
             var id := (c.nextDelivery + 1) % TWO32;
             && queue != [] && first.conn == Spent(c, d.handle)
             && View(first.table.rows, QueueOf(c, c.links[d.handle])) == queue[1..]
             && first.events == [Sent(d.channel, d.handle, id, queue[0])]
             && first.replies == [TransferReply(c, d, id, queue[0].body)]
    requires DrainOutcome(first.conn, first.table, d, rest)
    ensures DrainOutcome(c, t, d, Then(first, rest))
  {
    var l := QueueOf(c, c.links[d.handle]);
    var queue := View(t.rows, l);
    var n := Min(c.links[d.handle].credit, |queue|);
    assert QueueOf(first.conn, first.conn.links[d.handle]) == l;
    assert queue[1..][n - 1..] == queue[n..];
    SendsCons(c, d, queue, n, first, rest);
    SpentCons(c, d.handle, n, rest.conn);
  }

  /** An uninterrupted deliver loop sends exactly that. */
  lemma {:induction false} DrainExact(c: Conn, t: Table<Message>, d: Delivering)
    requires Valid(t) && c.delivering == Some(d) && Steady(c)
    ensures DrainOutcome(c, t, d, Drain(c, t))
    decreases c.links[d.handle].credit
  {
    var link := c.links[d.handle];
    var first := SendOne(c, t);
    FirstSend(c, t, d);
    if link.credit == 0 || View(t.rows, QueueOf(c, link)) == [] {
      assert c.links == c.links[d.handle := link];
    } else {
      DrainExact(first.conn, first.table, d);
      OutcomeCons(c, t, d, first, Drain(first.conn, first.table));
    }
  }

  /** Other queues keep their messages. */
  lemma {:induction false} DrainElsewhere(c: Conn, t: Table<Message>, namespace: Bytes, queue: Bytes)
    requires Valid(t) && Steady(c)
    requires c.delivering.Some? ==>
               var link := c.links[c.delivering.value.handle];
               LinkNamespace(c, link) != namespace || link.queue != queue
    ensures View(Drain(c, t).table.rows, InQueue(namespace, queue)) == View(t.rows, InQueue(namespace, queue))
    decreases c.delivering.Some?, if c.delivering.Some? then c.links[c.delivering.value.handle].credit else 0
  {
    if c.delivering.Some? {
      var l := InQueue(namespace, queue);
      var f := QueueFilter(c, c.links[c.delivering.value.handle]);
      assert forall m :: l(m) ==> !Where(f)(m);
      OldestIsLeast(t, Where(f));
      TakeView(t, Where(f), l);
      TakeValid(t, Where(f));
      var e := SendOne(c, t);
      DrainElsewhere(e.conn, e.table, namespace, queue);
    }
  }

  /** The new credit replaces the old, min(credit, queue length) transfers have gone out, oldest
      first, and the credit is less by as many. */
  ghost predicate FlowOutcome(c: Conn, t: Table<Message>, d: Delivering, credit: uint32, e: Effect)
    requires d.handle in c.links
  {
    var link := c.links[d.handle];
    var queue := View(t.rows, QueueOf(c, link));
    var n := Min(credit, |queue|);
    && e.status.Running? && SendsFirst(c, d, queue, n, e)
    && e.conn == c.(nextDelivery := (c.nextDelivery + n) % TWO32,
                    links := c.links[d.handle := link.(credit := credit - n)])
    && View(e.table.rows, QueueOf(c, link)) == queue[n..]
  }

  ghost function Granted(c: Conn, d: Delivering, credit: uint32): Conn
    requires d.handle in c.links
  {
    c.(links := c.links[d.handle := c.links[d.handle].(credit := credit)], delivering := Some(d))
  }

  lemma {:induction false} FlowDrains(c: Conn, t: Table<Message>, d: Delivering, credit: uint32)
    requires Valid(t) && c.delivering.None? && d.handle in c.links && !c.links[d.handle].receiver
    ensures FlowOutcome(c, t, d, credit, Drain(Granted(c, d, credit), t))
  {
    hide SendsFirst, SpentBy, Drain, View;
    var c1 := Granted(c, d, credit);
    var queue := View(t.rows, QueueOf(c, c.links[d.handle]));
    assert QueueOf(c1, c1.links[d.handle]) == QueueOf(c, c.links[d.handle]);
    DrainExact(c1, t, d);
    var n := Min(credit, |queue|);
    var e := Drain(c1, t);
    assert SendsFirst(c1, d, queue, n, e);
    SendsSame(c, c1, d, queue, n, e);
    FlowRest(c, c1, d.handle, credit, n, e.conn);
  }

  lemma {:induction false} SendsSame(c: Conn, c1: Conn, d: Delivering, queue: seq<Message>, n: nat, e: Effect)
    requires d.handle in c.links && d.handle in c1.links && n <= |queue|
    requires c1.nextDelivery == c.nextDelivery && c1.links[d.handle].handle == c.links[d.handle].handle
    requires SendsFirst(c1, d, queue, n, e)
    ensures SendsFirst(c, d, queue, n, e)
  {
  }

  /** A Flow on a sending link, as the whole of onFrame. */
  lemma {:induction false} FlowSendsExactly(env: Env, c: Conn, t: Table<Message>, f: Frame, fields: seq<Value>,
      rest: Bytes, now: int)
    requires Valid(t) && c.delivering.None?
    requires ParseDescribedList(f.body) == Ok(Described(0x13, fields, rest))
    requires FieldUint(fields, 0) in c.links && !c.links[FieldUint(fields, 0)].receiver
    ensures var d, credit := Delivering(f.channel, FieldUint(fields, 0)), FieldUint(fields, 5);
            var e := FrameEffect(env, c, t, f, now);
            && e.events != [] && e.events[0] == Credited(d.handle, credit)
            && FlowOutcome(c, t, d, credit, e.(events := e.events[1..]))
  {
    var d, credit := Delivering(f.channel, FieldUint(fields, 0)), FieldUint(fields, 5);
    assert Receive(env, c, t, f, now) == ReceiveFlow(c, t, f.channel, fields);
    if credit > 0 {
      FlowDrains(c, t, d, credit);
      var started := Effect(Granted(c, d, credit), t, [], [Credited(d.handle, credit)], Running);
      assert Receive(env, c, t, f, now) == started;
      AfterTheGrant(started, Drain(started.conn, t));
    }
  }

  lemma {:induction false} AfterTheGrant(started: Effect, e: Effect)
    requires started.replies == [] && |started.events| == 1
    ensures var all := Then(started, e);
            && all.events != [] && all.events[0] == started.events[0]
            && all.(events := all.events[1..]) == e
  {
    assert [] + e.replies == e.replies && (started.events + e.events)[1..] == e.events;
  }

  lemma {:induction false} FlowRest(c: Conn, c1: Conn, h: uint32, credit: uint32, n: nat, c2: Conn)
    requires c.delivering.None? && h in c.links && n <= credit
    requires c1.login == c.login && c1.nextDelivery == c.nextDelivery
    requires c1.links == c.links[h := c.links[h].(credit := credit)]
    requires SpentBy(c1, h, n, c2)
    ensures c2 == c.(nextDelivery := (c.nextDelivery + n) % TWO32,
                     links := c.links[h := c.links[h].(credit := credit - n)])
  {
    assert c2.links == c.links[h := c.links[h].(credit := credit - n)];
  }

  // ------------------------------ End to end ------------------------------

  /** A Transfer whose payload is a non-empty Data section stores exactly the data. */
  lemma {:induction false} TransferStores(env: Env, c: Conn, t: Table<Message>, f: Frame, fields: seq<Value>,
      data: Bytes, now: int)
    requires ParseDescribedList(f.body) == Ok(Described(PERF_TRANSFER, fields, EncodedData(data)))
    requires FieldUint(fields, 0) in c.links && 0 < |data| < TWO32
    ensures var link := c.links[FieldUint(fields, 0)];
            var m := Message(LinkNamespace(c, link), link.queue, data, [], false);
            var e := Receive(env, c, t, f, now);
            e.events == [Stored(m)] && e.table == Insert(t, m) && e.status.Running?
  {
    hide StoredBody, EncodedData, Insert, LinkNamespace, Opened, ReceiveAttach, ReceiveFlow;
    StoredFaithfully(data);
  }

  /** From client to client: a body sent in a Data section of a written transfer frame is stored
      as is, and whenever the stored message is sent on, by any connection, the receiving client
      reads the identical bytes, whatever follows on its stream. */
  lemma {:induction false} EndToEnd(env: Env, c: Conn, t: Table<Message>, channel: uint16, fields: seq<Value>,
      perf: Bytes, data: Bytes, now: int,
                 c2: Conn, t2: Table<Message>, wire: Bytes, tail: Bytes)
    requires IsPerformative(PERF_TRANSFER, fields, perf) && |perf| < TWO32 + 8
    requires FieldUint(WidenedAll(fields), 0) in c.links && 0 < |data| < TWO32
    requires c2.delivering.Some? && Steady(c2)
    requires var stored := Receive(env, c, t, Frame(channel, perf + EncodedData(data)), now).events;
             var sent := SendOne(c2, t2);
             |stored| == 1 && stored[0].Stored? && |sent.events| == 1 && sent.events[0].sent == stored[0].stored
             && Carries(wire, sent.replies[0]) && |wire| < TWO32
    ensures var r := ReadFrame(wire + tail);
            r.Ok? && r.value.rest == tail
            && var d := ParseDescribedList(r.value.frame.body);
               d.Ok? && d.value.code == PERF_TRANSFER && ExtractData(d.value.rest) == Ok(data)
  {
    CodecRoundTrip(PERF_TRANSFER, fields, perf, EncodedData(data));
    TransferStores(env, c, t, Frame(channel, perf + EncodedData(data)), WidenedAll(fields), data, now);
    SentCarries(c2, t2, wire, tail, data);
  }

  lemma {:induction false} SentCarries(c: Conn, t: Table<Message>, wire: Bytes, tail: Bytes, data: Bytes)
    requires c.delivering.Some? && Steady(c)
    requires var e := SendOne(c, t);
             |e.events| == 1 && e.events[0].sent.body == data && Carries(wire, e.replies[0]) && |wire| < TWO32
    ensures var r := ReadFrame(wire + tail);
            r.Ok? && r.value.rest == tail
            && var d := ParseDescribedList(r.value.frame.body);
               d.Ok? && d.value.code == PERF_TRANSFER && ExtractData(d.value.rest) == Ok(data)
  {
    var r := SendOne(c, t).replies[0];
    var handle, id := c.links[c.delivering.value.handle].handle, SendOne(c, t).conn.nextDelivery;
    assert IsTransfer(r.channel, handle, id, data, wire);
    TransferFidelity(r.channel, handle, id, data, wire, tail);
  }
}
