/** The session of internal/amqp/server.go: what one frame does to a connection and to the
    message table, as functions, and the class whose methods compute them step by step. */
module AmqpSession {
  import opened Outcomes
  import opened ByteStrings
  import opened Text
  import opened Tables
  import opened ServiceBus
  import opened AmqpEncoder
  import opened AmqpParser
  import opened AmqpFraming

  /** A row of the link table. `receiver` is the server's own role: it stores incoming transfers. */
  datatype Link = Link(name: Bytes, handle: uint32, receiver: bool, queue: Bytes, namespace: Bytes, credit: uint32)

  /** Where a connection is inside deliver: the channel and the link being served. */
  datatype Delivering = Delivering(channel: uint16, handle: uint32)

  /** What an Open leaves behind for later attaches. */
  datatype Login = Login(namespace: Bytes, sasToken: Bytes, sasKeyName: Bytes)

  datatype Conn = Conn(
    login: Login,
    links: map<uint32, Link>,
    nextDelivery: uint32,
    delivering: Option<Delivering>)

  const NEW_CONN := Conn(Login([], [], []), map[], 0, None)

  /** The parts of the surroundings that are not modelled: the namespace key at a time, the
      verification of a signed token against a key, and its signing. */
  datatype Env = Env(
    keyOf: (Bytes, int) -> Option<Bytes>,
    verify: (Bytes, Bytes, int) -> bool,
    sign: (Bytes, Bytes, Bytes, int) -> Bytes)

  datatype Status = Running | Closed | Crashed

  /** A frame sent back: a performative, then, for a transfer, a Data section. */
  datatype Reply = Reply(channel: uint16, code: byte, fields: seq<Value>, data: Option<Bytes>)

  /** What the history of a connection records. */
  datatype Event =
    | Admitted(link: Link, token: Bytes, now: int)
    | Credited(grant: uint32, credit: uint32)
    | Stored(stored: Message)
    | Sent(channel: uint16, handle: uint32, id: uint32, sent: Message)

  datatype Effect = Effect(conn: Conn, table: Table<Message>, replies: seq<Reply>, events: seq<Event>, status: Status)

  // --------------------------- Field accessors ---------------------------

  function FieldText(fields: seq<Value>, i: nat): Bytes {
    if i >= |fields| then []
    else if fields[i].Text? then fields[i].s
    else if fields[i].Binary? then fields[i].data
    else []
  }

  function FieldUint(fields: seq<Value>, i: nat): uint32 {
    if i >= |fields| then 0
    else if fields[i].Uint? then fields[i].n
    else if fields[i].Ulong? then fields[i].wide % TWO32
    else 0
  }

  function FieldBool(fields: seq<Value>, i: nat): bool {
    i < |fields| && fields[i].Bool? && fields[i].flag
  }

  /** A nil map reads like an empty one. */
  function FieldDict(fields: seq<Value>, i: nat): map<Bytes, Bytes> {
    if i < |fields| && fields[i].Dict? then fields[i].m else map[]
  }

  // -------------------------------- Open --------------------------------

  const SLASH: byte := 47

  function TrimBytes(s: Bytes): Bytes {
    TrimBoth(s, IsSpaceByte)
  }

  /** The host up to its first dot, else up to its first colon. */
  function HostName(host: Bytes): Bytes {
    var dot, colon := IndexOf(host, 46), IndexOf(host, 58);
    if dot > 0 then host[..dot] else if colon > 0 then host[..colon] else host
  }

  function TrimSBHost(host: Bytes): Bytes {
    HostName(TrimSuffix(TrimPrefix(TrimBytes(host), Ascii("sb://")), [SLASH]))
  }

  function EndpointName(v: Bytes): Bytes {
    var host := TrimPrefix(TrimPrefix(TrimPrefix(v, Ascii("sb://")), Ascii("amqp://")), Ascii("amqps://"));
    HostName(TrimSuffix(host, [SLASH]))
  }

  datatype Credentials = Credentials(login: Login, key: Bytes, keyName: Bytes, entity: Bytes)

  /** One `key=value` part of a connection string. */
  function ApplyPart(a: Credentials, part: Bytes): Credentials {
    var eq := IndexOf(part, 61);
    if eq < 0 then a
    else
      var k := MapSeq(TrimBytes(part[..eq]), LowerByte);
      var v := TrimBytes(part[eq + 1..]);
      if k == Ascii("endpoint") then
        a.(login := a.login.(namespace := EndpointName(v)))
      else if k == Ascii("sharedaccesskey") then a.(key := v)
      else if k == Ascii("sharedaccesskeyname") then a.(keyName := v, login := a.login.(sasKeyName := v))
      else if k == Ascii("sharedaccesssignature") then a.(login := a.login.(sasToken := v))
      else if k == Ascii("entitypath") then a.(entity := v)
      else a
  }

  function ApplyParts(a: Credentials, parts: seq<Bytes>): Credentials
    decreases |parts|
  {
    if parts == [] then a else ApplyParts(ApplyPart(a, parts[0]), parts[1..])
  }

  const HOUR := 3_600_000_000_000

  /** applyConnectionString: a string that carries only the key mints a signed token for an hour. */
  function ApplyConnectionString(env: Env, login: Login, cs: Bytes, now: int): Login {
    var a := ApplyParts(Credentials(login, [], [], []), Split(cs, 59));
    if a.login.sasToken == [] && a.key != [] && a.login.namespace != [] then
      var uri := Ascii("sb://") + a.login.namespace + Ascii(".servicebus.windows.net/") + TrimPrefix(a.entity, [SLASH]);
      a.login.(sasToken := env.sign(a.key, a.keyName, uri, now + HOUR))
    else a.login
  }

  /** The four connection properties that an Open looks at. */
  datatype Props = Props(
    connectionString: Option<Bytes>, signature: Option<Bytes>, token: Option<Bytes>, keyName: Option<Bytes>)

  function OpenProps(fields: seq<Value>): Props {
    var m := FieldDict(fields, 4);
    Props(Lookup(m, Ascii("connection-string")), Lookup(m, Ascii("SharedAccessSignature")),
          Lookup(m, Ascii("sas-token")), Lookup(m, Ascii("SharedAccessKeyName")))
  }

  function Lookup(m: map<Bytes, Bytes>, k: Bytes): Option<Bytes> {
    if k in m then Some(m[k]) else None
  }

  function Opened(env: Env, login: Login, fields: seq<Value>, now: int): Login {
    var p := OpenProps(fields);
    var l := login.(namespace := TrimSBHost(FieldText(fields, 1)));
    Override(if p.connectionString.Some? then ApplyConnectionString(env, l, p.connectionString.value, now) else l, p)
  }

  /** The properties that follow the connection string; "sas-token" only fills a gap. */
  function Override(l: Login, p: Props): Login {
    var l1 := if p.signature.Some? then l.(sasToken := p.signature.value) else l;
    var l2 := if p.token.Some? && l1.sasToken == [] then l1.(sasToken := p.token.value) else l1;
    if p.keyName.Some? then l2.(sasKeyName := p.keyName.value) else l2
  }

  // ------------------------------- Attach -------------------------------

  datatype Address = Address(namespace: Bytes, queue: Bytes)

  /** Target, else source, else link name; a leading "ns/" part overrides the session namespace. */
  function AttachAddress(login: Login, fields: seq<Value>): Address {
    var target, source := FieldText(fields, 5), FieldText(fields, 4);
    var named := if target != [] then target else if source != [] then source else FieldText(fields, 0);
    var queue := TrimPrefix(named, [SLASH]);
    var i := IndexOf(queue, SLASH);
    if i > 0 then Address(queue[..i], queue[i + 1..]) else Address(login.namespace, queue)
  }

  /** The checks of the attach case: a namespace, known, and a token that verifies now. */
  predicate Admits(env: Env, token: Bytes, namespace: Bytes, now: int) {
    && namespace != []
    && env.keyOf(namespace, now).Some?
    && TrimBytes(token) != []
    && env.verify(env.keyOf(namespace, now).value, token, now)
  }

  // --------------------------- One frame, one send ---------------------------

  function Quiet(c: Conn, t: Table<Message>): Effect {
    Effect(c, t, [], [], Running)
  }

  function Answer(c: Conn, t: Table<Message>, channel: uint16, code: byte, fields: seq<Value>): Effect {
    Effect(c, t, [Reply(channel, code, fields, None)], [], Running)
  }

  function Fail(c: Conn, t: Table<Message>, status: Status): Effect {
    Effect(c, t, [], [], status)
  }

  const OPEN_FIELDS: seq<Value> := [Text(Ascii("noctaxris-az")), Null, Uint(65536), Ushort(1)]
  const BEGIN_FIELDS: seq<Value> := [Ushort(0), Uint(0), Uint(2048), Uint(2048)]

  function ReceiveAttach(env: Env, c: Conn, t: Table<Message>, channel: uint16, fields: seq<Value>, now: int): Effect {
    var name, handle, role := FieldText(fields, 0), FieldUint(fields, 1), FieldBool(fields, 2);
    var a := AttachAddress(c.login, fields);
    if !Admits(env, c.login.sasToken, a.namespace, now) then Fail(c, t, Closed)
    else
      var link := Link(name, handle, !role, a.queue, a.namespace, 0);
      Effect(c.(links := c.links[handle := link]), t,
             [Reply(channel, 0x12,
                    [Text(name), Uint(handle), Bool(!role), Null, Null, Text(a.queue), Text(a.queue)], None)],
             [Admitted(link, c.login.sasToken, now)], Running)
  }

  function ReceiveFlow(c: Conn, t: Table<Message>, channel: uint16, fields: seq<Value>): Effect {
    var handle, credit := FieldUint(fields, 0), FieldUint(fields, 5);
    if handle !in c.links then Quiet(c, t)
    else
      var link := c.links[handle].(credit := credit);
      var c1 := c.(links := c.links[handle := link]);
      var c2 := if !link.receiver && credit > 0 then c1.(delivering := Some(Delivering(channel, handle))) else c1;
      Effect(c2, t, [], [Credited(handle, credit)], Running)
  }

  function LinkNamespace(c: Conn, link: Link): Bytes {
    if link.namespace == [] then c.login.namespace else link.namespace
  }

  function ReceiveTransfer(c: Conn, t: Table<Message>, channel: uint16, fields: seq<Value>, payload: Bytes): Effect {
    var handle, id := FieldUint(fields, 0), FieldUint(fields, 1);
    if handle !in c.links then Quiet(c, t)
    else
      match StoredBody(payload)
      case Ok(body) =>
        var m := Message(LinkNamespace(c, c.links[handle]), c.links[handle].queue, body, [], false);
        Effect(c, Insert(t, m), [Reply(channel, 0x15, [Bool(true), Uint(id), Uint(id), Bool(true)], None)],
               [Stored(m)], Running)
      case Panic => Fail(c, t, Crashed)
      case Err => Fail(c, t, Closed)
  }

  /** onFrame, up to its first dequeue: a Flow on a sending link leaves the connection delivering. */
  function Receive(env: Env, c: Conn, t: Table<Message>, f: Frame, now: int): Effect {
    if f.body == [] then Quiet(c, t)
    else
      match ParseDescribedList(f.body)
      case Err => Fail(c, t, Closed)
      case Panic => Fail(c, t, Crashed)
      case Ok(d) => Dispatch(env, c, t, f.channel, d, now)
  }

  function Dispatch(env: Env, c: Conn, t: Table<Message>, channel: uint16, d: Described, now: int): Effect {
    if d.code == 0x10 then Answer(c.(login := Opened(env, c.login, d.fields, now)), t, channel, 0x10, OPEN_FIELDS)
    else if d.code == 0x11 then Answer(c, t, channel, 0x11, BEGIN_FIELDS)
    else if d.code == 0x12 then ReceiveAttach(env, c, t, channel, d.fields, now)
    else if d.code == 0x13 then ReceiveFlow(c, t, channel, d.fields)
    else if d.code == PERF_TRANSFER then ReceiveTransfer(c, t, channel, d.fields, d.rest)
    else if d.code == 0x16 then
      var handle := FieldUint(d.fields, 0);
      Answer(c.(links := c.links - {handle}), t, channel, 0x16, [Uint(handle), Bool(true)])
    else if d.code == 0x17 || d.code == 0x18 then Answer(c, t, channel, d.code, [])
    else Quiet(c, t)  // a disposition, or an unknown performative
  }

  /** The delivering link exists, and is one on which the server sends. */
  ghost predicate Steady(c: Conn) {
    c.delivering.Some? ==> c.delivering.value.handle in c.links && !c.links[c.delivering.value.handle].receiver
  }

  function QueueFilter(c: Conn, link: Link): Filter {
    Plain(LinkNamespace(c, link), link.queue)
  }

  function Spent(c: Conn, handle: uint32): Conn
    requires handle in c.links && c.links[handle].credit > 0
  {
    c.(links := c.links[handle := c.links[handle].(credit := c.links[handle].credit - 1)],
       nextDelivery := (c.nextDelivery + 1) % TWO32)
  }

  /** One turn of the deliver loop. */
  function SendOne(c: Conn, t: Table<Message>): Effect
    requires c.delivering.Some? && Steady(c)
  {
    var d := c.delivering.value;
    var link := c.links[d.handle];
    var where := Where(QueueFilter(c, link));
    var o := Oldest(t.rows, where);
    if link.credit == 0 || o.None? then Quiet(c.(delivering := None), t)
    else
      var c1 := Spent(c, d.handle);
      var m := o.value.data;
      Effect(c1, Take(t, where),
             [Reply(d.channel, PERF_TRANSFER, TransferFields(link.handle, c1.nextDelivery), Some(m.body))],
             [Sent(d.channel, d.handle, c1.nextDelivery, m)], Running)
  }

  ghost function Then(e: Effect, next: Effect): Effect {
    Effect(next.conn, next.table, e.replies + next.replies, e.events + next.events, next.status)
  }

  /** deliver, when nothing else touches the table meanwhile. */
  ghost function Drain(c: Conn, t: Table<Message>): (e: Effect)
    requires Steady(c)
    ensures e.status.Running?
    decreases c.delivering.Some?, if c.delivering.Some? then c.links[c.delivering.value.handle].credit else 0
  {
    if c.delivering.None? then Quiet(c, t)
    else
      var e := SendOne(c, t);
      Then(e, Drain(e.conn, e.table))
  }

  lemma {:induction false} ReceiveSteady(env: Env, c: Conn, t: Table<Message>, f: Frame, now: int)
    requires c.delivering.None?
    ensures Steady(Receive(env, c, t, f, now).conn)
  {
  }

  ghost function Continued(e: Effect): Effect
    requires Steady(e.conn)
  {
    if e.conn.delivering.Some? then Then(e, Drain(e.conn, e.table)) else e
  }

  /** onFrame as a whole. */
  ghost function FrameEffect(env: Env, c: Conn, t: Table<Message>, f: Frame, now: int): Effect
    requires c.delivering.None?
  {
    ReceiveSteady(env, c, t, f, now);
    Continued(Receive(env, c, t, f, now))
  }

  // ------------------------------ The class ------------------------------

  /** `wire` is a frame that carries the reply. */
  ghost predicate Carries(wire: Bytes, r: Reply) {
    exists perf :: IsPerformative(r.code, r.fields, perf)
      && wire == WrittenFrame(Frame(r.channel, perf + if r.data.Some? then EncodedData(r.data.value) else []))
  }

  ghost predicate CarriesAll(wires: seq<Bytes>, replies: seq<Reply>) {
    && |wires| == |replies|
    && forall i :: 0 <= i < |wires| ==> Carries(wires[i], replies[i])
  }

  method Write(r: Reply) returns (wire: Bytes)
    ensures Carries(wire, r)
  {
    var perf := EncodePerformative(r.code, r.fields);
    wire := WrittenFrame(Frame(r.channel, perf + if r.data.Some? then EncodedData(r.data.value) else []));
  }

  class Session {
    const env: Env
    const store: Store
    var namespace: Bytes
    var sasToken: Bytes
    var sasKeyName: Bytes
    var links: map<uint32, Link>
    var nextDelivery: uint32

    constructor (env: Env, store: Store)
      ensures this.env == env && this.store == store && State(None) == NEW_CONN
    {
      this.env := env;
      this.store := store;
      namespace, sasToken, sasKeyName, links, nextDelivery := [], [], [], map[], 0;
    }

    /** The fields as one value; `d` is where the control is inside Deliver. */
    ghost function State(d: Option<Delivering>): Conn
      reads this
    {
      Conn(Login(namespace, sasToken, sasKeyName), links, nextDelivery, d)
    }

    /** The frames written, in order, and whether the connection goes on. */
    method OnFrame(f: Frame, now: int) returns (wires: seq<Bytes>, status: Status)
      modifies this, store
      ensures var e := FrameEffect(env, old(State(None)), old(store.messages), f, now);
              && State(None) == e.conn && store.messages == e.table && status == e.status
              && CarriesAll(wires, e.replies)
    {
      wires, status := [], Running;
      if f.body == [] { return; }
      var p := ParseDescribedList(f.body);
      if p.IsFailure() {
        return [], if p.Panic? then Crashed else Closed;
      }
      wires, status := Handle(f.channel, p.value, now);
    }

    method Handle(channel: uint16, d: Described, now: int) returns (wires: seq<Bytes>, status: Status)
      modifies this, store
      ensures var e := Dispatch(env, old(State(None)), old(store.messages), channel, d, now);
              Steady(e.conn) && var all := Continued(e);
              && State(None) == all.conn && store.messages == all.table && status == all.status
              && CarriesAll(wires, all.replies)
    {
      wires, status := [], Running;
      if d.code == 0x10 {
        Open(d.fields, now);
        wires := Reply1(channel, 0x10, OPEN_FIELDS);
      } else if d.code == 0x11 {
        wires := Reply1(channel, 0x11, BEGIN_FIELDS);
      } else if d.code == 0x12 {
        wires, status := Attach(channel, d.fields, now);
      } else if d.code == 0x13 {
        wires := Flow(channel, d.fields);
      } else if d.code == PERF_TRANSFER {
        wires, status := Transfer(channel, d.fields, d.rest);
      } else if d.code == 0x16 {
        var handle := FieldUint(d.fields, 0);
        links := links - {handle};
        wires := Reply1(channel, 0x16, [Uint(handle), Bool(true)]);
      } else if d.code == 0x17 || d.code == 0x18 {
        wires := Reply1(channel, d.code, []);
      }
    }

    method Reply1(channel: uint16, code: byte, fields: seq<Value>) returns (wires: seq<Bytes>)
      ensures CarriesAll(wires, [Reply(channel, code, fields, None)])
    {
      var wire := Write(Reply(channel, code, fields, None));
      wires := [wire];
    }

    method Open(fields: seq<Value>, now: int)
      modifies this
      ensures State(None) == old(State(None)).(login := Opened(env, old(State(None)).login, fields, now))
    {
      hide TrimSBHost, ApplyConnectionString, OpenProps, FieldText, Override;
      namespace := TrimSBHost(FieldText(fields, 1));
      var p := OpenProps(fields);
      if p.connectionString.Some? {
        var l := ApplyConnectionString(env, Login(namespace, sasToken, sasKeyName), p.connectionString.value, now);
        namespace, sasToken, sasKeyName := l.namespace, l.sasToken, l.sasKeyName;
      }
      ApplyProps(p);
    }

    method ApplyProps(p: Props)
      modifies this
      ensures State(None) == old(State(None)).(login := Override(old(State(None)).login, p))
    {
      if p.signature.Some? {
        sasToken := p.signature.value;
      }
      if p.token.Some? && sasToken == [] {
        sasToken := p.token.value;
      }
      if p.keyName.Some? {
        sasKeyName := p.keyName.value;
      }
    }

    method Attach(channel: uint16, fields: seq<Value>, now: int) returns (wires: seq<Bytes>, status: Status)
      modifies this
      ensures var e := ReceiveAttach(env, old(State(None)), old(store.messages), channel, fields, now);
              State(None) == e.conn && status == e.status && CarriesAll(wires, e.replies)
    {
      wires, status := [], Closed;
      var name, handle, role := FieldText(fields, 0), FieldUint(fields, 1), FieldBool(fields, 2);
      var a := AttachAddress(Login(namespace, sasToken, sasKeyName), fields);
      if a.namespace == [] { return; }
      var want := env.keyOf(a.namespace, now);
      if want.None? { return; }
      if TrimBytes(sasToken) == [] { return; }
      if !env.verify(want.value, sasToken, now) { return; }
      links := links[handle := Link(name, handle, !role, a.queue, a.namespace, 0)];
      wires := Reply1(channel, 0x12,
                      [Text(name), Uint(handle), Bool(!role), Null, Null, Text(a.queue), Text(a.queue)]);
      status := Running;
    }

    method Flow(channel: uint16, fields: seq<Value>) returns (wires: seq<Bytes>)
      modifies this, store
      ensures var e := ReceiveFlow(old(State(None)), old(store.messages), channel, fields);
              Steady(e.conn) && var all := Continued(e);
              State(None) == all.conn && store.messages == all.table && CarriesAll(wires, all.replies)
    {
      wires := [];
      var handle, credit := FieldUint(fields, 0), FieldUint(fields, 5);
      if handle in links {
        links := links[handle := links[handle].(credit := credit)];
        if !links[handle].receiver && credit > 0 {
          wires := Deliver(Delivering(channel, handle));
        }
      }
    }

    method Transfer(channel: uint16, fields: seq<Value>, payload: Bytes) returns (wires: seq<Bytes>, status: Status)
      modifies store
      ensures var e := ReceiveTransfer(State(None), old(store.messages), channel, fields, payload);
              store.messages == e.table && status == e.status && CarriesAll(wires, e.replies)
    {
      wires, status := [], Running;
      var handle, id := FieldUint(fields, 0), FieldUint(fields, 1);
      if handle !in links { return; }
      var body := StoredBody(payload);
      if body.IsFailure() {
        return [], if body.Panic? then Crashed else Closed;
      }
      var ns := if links[handle].namespace == [] then namespace else links[handle].namespace;
      store.EnqueueSB(ns, links[handle].queue, body.value);
      wires := Reply1(channel, 0x15, [Bool(true), Uint(id), Uint(id), Bool(true)]);
    }

    /** deliver: dequeue and send until the credit or the queue is used up. */
    method Deliver(d: Delivering) returns (wires: seq<Bytes>)
      requires d.handle in links && !links[d.handle].receiver
      modifies this, store
      ensures var e := Drain(old(State(Some(d))), old(store.messages));
              State(None) == e.conn && store.messages == e.table && CarriesAll(wires, e.replies)
    {
      wires := [];
      ghost var total := Drain(State(Some(d)), store.messages);
      ghost var sent: seq<Reply> := [];
      assert [] + total.replies == total.replies;
      var more := true;
      while more
        invariant d.handle in links && !links[d.handle].receiver
        invariant more ==> Resumes(total, sent, State(Some(d)), store.messages)
        invariant !more ==> total.conn == State(None) && total.table == store.messages && total.replies == sent
        invariant CarriesAll(wires, sent)
        decreases more, links[d.handle].credit
      {
        DrainTurn(total, sent, State(Some(d)), store.messages);
        ghost var e := SendOne(State(Some(d)), store.messages);
        var wire := SendNext(d);
        more := wire.Some?;
        if more {
          wires := wires + [wire.value];
          sent := sent + e.replies;
        }
      }
    }

    /** One turn of the loop: None when the credit or the queue is used up. */
    method SendNext(d: Delivering) returns (wire: Option<Bytes>)
      requires d.handle in links && !links[d.handle].receiver
      modifies this, store
      ensures var e := SendOne(old(State(Some(d))), old(store.messages));
              && store.messages == e.table
              && (wire.None? ==> e.replies == [] && State(None) == e.conn)
              && (wire.Some? ==> |e.replies| == 1 && Carries(wire.value, e.replies[0]) && State(Some(d)) == e.conn)
      ensures d.handle in links && !links[d.handle].receiver
      ensures wire.Some? ==> links[d.handle].credit < old(links)[d.handle].credit
    {
      hide Oldest, TransferFields, Carries;
      var link := links[d.handle];
      if link.credit == 0 { return None; }
      var body := store.DequeueSB(if link.namespace == [] then namespace else link.namespace, link.queue);
      if body.None? { return None; }
      nextDelivery := (nextDelivery + 1) % TWO32;
      var w := Write(Reply(d.channel, PERF_TRANSFER, TransferFields(link.handle, nextDelivery), body));
      links := links[d.handle := link.(credit := link.credit - 1)];
      wire := Some(w);
    }
  }

  /** `total` is what was sent so far followed by the rest of the drain. */
  ghost predicate Resumes(total: Effect, sent: seq<Reply>, c: Conn, t: Table<Message>) {
    Steady(c) && var rest := Drain(c, t);
    total.conn == rest.conn && total.table == rest.table && total.replies == sent + rest.replies
  }

  lemma {:induction false} DrainTurn(total: Effect, sent: seq<Reply>, c: Conn, t: Table<Message>)
    requires c.delivering.Some? && Resumes(total, sent, c, t)
    ensures var e := SendOne(c, t);
            if e.replies == [] then
              total.conn == e.conn == c.(delivering := None) && total.table == t && total.replies == sent
            else
              Resumes(total, sent + e.replies, e.conn, e.table)
  {
    var e := SendOne(c, t);
    var rest := Drain(e.conn, e.table);
    assert sent + (e.replies + rest.replies) == (sent + e.replies) + rest.replies;
  }
}
