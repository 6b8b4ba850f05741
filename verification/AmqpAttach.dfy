/** What an Attach asks for, read off its own fields: in every run the links are what the last
    attaches asked for, so messages leave only where they were asked for, a grant of credit sends
    those of the queue that was named, and a transfer is filed there. */
module AmqpAttach {
  import opened Outcomes
  import opened ByteStrings
  import opened Text
  import opened Tables
  import ServiceBus
  import opened AmqpEncoder
  import opened AmqpParser
  import opened AmqpFraming
  import opened AmqpPeer
  import opened AmqpSession
  import opened AmqpRuns
  import opened AmqpCredit
  import opened AmqpDelivery

  // ------------------------------ What a frame says ------------------------------

  /** The frame is the performative `code` with these fields. */
  ghost predicate IsFrame(f: Frame, code: byte, fields: seq<Value>) {
    var p := ParseDescribedList(f.body);
    p.Ok? && p.value.code == code && p.value.fields == fields
  }

  /** Field `i` is the text `s`; one that is missing or of another kind is the empty text. */
  ghost predicate HasText(fields: seq<Value>, i: nat, s: Bytes) {
    if i < |fields| && (fields[i].Text? || fields[i].Binary?) then fields[i] == Text(s) || fields[i] == Binary(s)
    else s == []
  }

  /** Field `i` is the number `n`, of 64 bits the low 32; one that is missing or of another kind is 0. */
  ghost predicate HasNumber(fields: seq<Value>, i: nat, n: uint32) {
    if i < |fields| && (fields[i].Uint? || fields[i].Ulong?) then
      fields[i] == Uint(n) || (fields[i].Ulong? && (fields[i].wide - n) % TWO32 == 0)
    else n == 0
  }

  /** The role field of an Attach, as the peer means it: true for a receiver. */
  ghost predicate HasRole(fields: seq<Value>, receives: bool) {
    receives <==> 2 < |fields| && fields[2] == Bool(true)
  }

  /** The text that an Attach names its queue by: its target, without one its source, without
      either the link name. */
  ghost predicate NamedBy(fields: seq<Value>, text: Bytes) {
    exists target, source :: HasText(fields, 5, target) && HasText(fields, 4, source) &&
      if target != [] then text == target
      else if source != [] then text == source
      else HasText(fields, 0, text)
  }

  /** After one leading slash: "namespace/queue", or a queue of the session's own namespace. */
  ghost predicate Denotes(text: Bytes, session: Bytes, namespace: Bytes, queue: Bytes) {
    exists path :: IsPath(text, path) &&
      if path == [] || path[0] == SLASH || SLASH !in path then namespace == session && queue == path
      else namespace != [] && SLASH !in namespace && path == namespace + [SLASH] + queue
  }

  ghost predicate IsPath(text: Bytes, path: Bytes) {
    text == [SLASH] + path || (text == path && (text == [] || text[0] != SLASH))
  }

  /** A request for a link: whether the peer will receive on it, and the queue it named. */
  datatype Ask = Ask(receives: bool, namespace: Bytes, queue: Bytes)

  ghost predicate Wants(fields: seq<Value>, session: Bytes, ask: Ask) {
    && HasRole(fields, ask.receives)
    && exists text :: NamedBy(fields, text) && Denotes(text, session, ask.namespace, ask.queue)
  }

  ghost predicate Attaches(f: Frame, h: uint32) {
    exists fields :: IsFrame(f, 0x12, fields) && HasNumber(fields, 1, h)
  }

  ghost predicate Detaches(f: Frame, h: uint32) {
    exists fields :: IsFrame(f, 0x16, fields) && HasNumber(fields, 0, h)
  }

  /** An Attach for handle `h` that makes this request. */
  ghost predicate Asks(f: Frame, session: Bytes, h: uint32, ask: Ask) {
    exists fields :: IsFrame(f, 0x12, fields) && HasNumber(fields, 1, h) && Wants(fields, session, ask)
  }

  // --------------------------- The fields determine it ---------------------------

  lemma {:induction false} TextIff(fields: seq<Value>, i: nat, s: Bytes)
    ensures HasText(fields, i, s) <==> s == FieldText(fields, i)
  {
  }

  lemma {:induction false} NumberIff(fields: seq<Value>, i: nat, n: uint32)
    ensures HasNumber(fields, i, n) <==> n == FieldUint(fields, i)
  {
  }

  lemma {:induction false} DenotesIff(text: Bytes, session: Bytes, namespace: Bytes, queue: Bytes)
    ensures Denotes(text, session, namespace, queue) <==>
              var path := TrimPrefix(text, [SLASH]);
              var i := IndexOf(path, SLASH);
              if i > 0 then namespace == path[..i] && queue == path[i + 1..] else namespace == session && queue == path
  {
    var path := TrimPrefix(text, [SLASH]);
    assert IsPath(text, path) && forall p :: IsPath(text, p) ==> p == path;
    var i := IndexOf(path, SLASH);
    if i > 0 {
      assert path == path[..i] + [SLASH] + path[i + 1..];
      if SLASH !in namespace && path == namespace + [SLASH] + queue {
        FirstIndex(namespace, SLASH, queue);
      }
    }
  }

  lemma {:induction false} WantsIff(fields: seq<Value>, login: Login, ask: Ask)
    ensures Wants(fields, login.namespace, ask) <==>
              && ask.receives == FieldBool(fields, 2)
              && AttachAddress(login, fields) == Address(ask.namespace, ask.queue)
  {
    var target, source, name := FieldText(fields, 5), FieldText(fields, 4), FieldText(fields, 0);
    var text := if target != [] then target else if source != [] then source else name;
    NamedIff(fields, text);
    DenotesIff(text, login.namespace, ask.namespace, ask.queue);
  }

  lemma {:induction false} NamedIff(fields: seq<Value>, text: Bytes)
    requires var target, source := FieldText(fields, 5), FieldText(fields, 4);
             text == if target != [] then target else if source != [] then source else FieldText(fields, 0)
    ensures NamedBy(fields, text) && forall other :: NamedBy(fields, other) ==> other == text
  {
    hide HasText, FieldText;
    forall i: nat, s ensures HasText(fields, i, s) <==> s == FieldText(fields, i) {
      TextIff(fields, i, s);
    }
    assert HasText(fields, 5, FieldText(fields, 5)) && HasText(fields, 4, FieldText(fields, 4));
  }

  // --------------------------------- One frame ---------------------------------

  /** The link gives the peer what it asked for; `receiver` is the server's own role. */
  ghost predicate Serves(link: Link, ask: Ask) {
    link.receiver == !ask.receives && link.namespace == ask.namespace && link.queue == ask.queue
  }

  ghost predicate HasLink(c: Conn, h: uint32, ask: Ask) {
    h in c.links && Serves(c.links[h], ask)
  }

  /** After a frame that keeps the connection, a link serves what the frame asks for, or what it
      served before and the frame is neither an Attach nor a Detach for it. */
  ghost predicate LinkFollows(c: Conn, f: Frame, c': Conn, h: uint32, ask: Ask) {
    HasLink(c', h, ask) <==>
      Asks(f, c.login.namespace, h, ask) || (HasLink(c, h, ask) && !Attaches(f, h) && !Detaches(f, h))
  }

  lemma {:induction false} ReceiveFollows(env: Env, c: Conn, t: Table<ServiceBus.Message>, f: Frame, now: int,
      h: uint32, ask: Ask)
    requires Receive(env, c, t, f, now).status.Running?
    ensures LinkFollows(c, f, Receive(env, c, t, f, now).conn, h, ask)
  {
    if f.body != [] {
      var d := ParseDescribedList(f.body).value;
      FrameIs(f, d);
      hide ParseDescribedList, IsFrame, Wants, HasNumber, Receive;
      WantsIff(d.fields, c.login, ask);
      NumberIff(d.fields, 1, h);
      NumberIff(d.fields, 0, h);
      DispatchFollows(env, c, t, f, d, now, h, ask);
    }
  }

  lemma {:induction false} FrameIs(f: Frame, d: Described)
    requires ParseDescribedList(f.body) == Ok(d)
    ensures forall code, fields :: IsFrame(f, code, fields) <==> code == d.code && fields == d.fields
  {
  }

  lemma {:induction false} DispatchFollows(env: Env, c: Conn, t: Table<ServiceBus.Message>, f: Frame, d: Described,
      now: int, h: uint32, ask: Ask)
    requires forall code, fields :: IsFrame(f, code, fields) <==> code == d.code && fields == d.fields
    requires Wants(d.fields, c.login.namespace, ask) <==>
               && ask.receives == FieldBool(d.fields, 2)
               && AttachAddress(c.login, d.fields) == Address(ask.namespace, ask.queue)
    requires HasNumber(d.fields, 1, h) <==> h == FieldUint(d.fields, 1)
    requires HasNumber(d.fields, 0, h) <==> h == FieldUint(d.fields, 0)
    requires Dispatch(env, c, t, f.channel, d, now).status.Running?
    ensures LinkFollows(c, f, Dispatch(env, c, t, f.channel, d, now).conn, h, ask)
  {
    hide IsFrame, Wants, HasNumber, FieldUint, FieldBool, FieldText, AttachAddress, Opened, StoredBody, Insert, Admits;
    assert Attaches(f, h) <==> d.code == 0x12 && h == FieldUint(d.fields, 1);
    assert Detaches(f, h) <==> d.code == 0x16 && h == FieldUint(d.fields, 0);
    assert Asks(f, c.login.namespace, h, ask) <==>
             d.code == 0x12 && h == FieldUint(d.fields, 1) && Wants(d.fields, c.login.namespace, ask);
  }

  // --------------------------------- Every run ---------------------------------

  /** The system after the first `n` actions. */
  ghost function At(env: Env, t0: Table<ServiceBus.Message>, actions: seq<Action>, n: nat): System
    requires n <= |actions|
  {
    Run(env, Start(t0), actions[..n])
  }

  /** In state `s` the action is a frame that connection `id` reads. */
  ghost predicate Reads(s: System, a: Action, id: nat) {
    a.Incoming? && a.id == id && Idle(s, id)
  }

  ghost predicate AsksIn(s: System, a: Action, id: nat, h: uint32, ask: Ask) {
    Reads(s, a, id) && Asks(a.f, s.conns[id].login.namespace, h, ask)
  }

  ghost predicate TouchesIn(s: System, a: Action, id: nat, h: uint32) {
    Reads(s, a, id) && (Attaches(a.f, h) || Detaches(a.f, h))
  }

  /** Action `k` asked for this on handle `h` of connection `id`, and until action `n` no Attach and
      no Detach for the handle followed. */
  ghost predicate AskedAt(env: Env, t0: Table<ServiceBus.Message>, actions: seq<Action>, k: nat, n: nat, id: nat,
      h: uint32, ask: Ask)
    requires n <= |actions|
  {
    && k < n && AsksIn(At(env, t0, actions, k), actions[k], id, h, ask)
    && forall i :: k < i < n ==> !TouchesIn(At(env, t0, actions, i), actions[i], id, h)
  }

  ghost predicate Stands(env: Env, t0: Table<ServiceBus.Message>, actions: seq<Action>, n: nat, id: nat, h: uint32,
      ask: Ask)
    requires n <= |actions|
  {
    exists k: nat :: AskedAt(env, t0, actions, k, n, id, h, ask)
  }

  lemma {:induction false} RunSnoc(env: Env, s: System, actions: seq<Action>, a: Action)
    ensures Run(env, s, actions + [a]) == Step(env, Run(env, s, actions), a)
    decreases |actions|
  {
    hide Step;
    if actions == [] {
      assert [a][1..] == [];
    } else {
      assert (actions + [a])[1..] == actions[1..] + [a];
      RunSnoc(env, Step(env, s, actions[0]), actions[1..], a);
    }
  }

  lemma {:induction false} AtNext(env: Env, t0: Table<ServiceBus.Message>, actions: seq<Action>, n: nat)
    requires n < |actions|
    ensures At(env, t0, actions, n + 1) == Step(env, At(env, t0, actions, n), actions[n])
  {
    hide Run, Step;
    assert actions[..n + 1] == actions[..n] + [actions[n]];
    RunSnoc(env, Start(t0), actions[..n], actions[n]);
  }

  lemma {:induction false} AtSafe(env: Env, t0: Table<ServiceBus.Message>, actions: seq<Action>, n: nat)
    requires Valid(t0) && n <= |actions|
    ensures Safe(env, At(env, t0, actions, n))
  {
    hide Run, Safe;
    EveryRun(env, t0, actions[..n], [], []);
  }

  lemma {:induction false} StandsNext(env: Env, t0: Table<ServiceBus.Message>, actions: seq<Action>, n: nat, id: nat,
      h: uint32, ask: Ask)
    requires n < |actions|
    ensures var s := At(env, t0, actions, n);
            Stands(env, t0, actions, n + 1, id, h, ask) <==>
              AsksIn(s, actions[n], id, h, ask)
              || (Stands(env, t0, actions, n, id, h, ask) && !TouchesIn(s, actions[n], id, h))
  {
    hide At, AsksIn, TouchesIn;
    if AsksIn(At(env, t0, actions, n), actions[n], id, h, ask) {
      assert AskedAt(env, t0, actions, n, n + 1, id, h, ask);
    }
    if Stands(env, t0, actions, n, id, h, ask) && !TouchesIn(At(env, t0, actions, n), actions[n], id, h) {
      var k: nat :| AskedAt(env, t0, actions, k, n, id, h, ask);
      assert AskedAt(env, t0, actions, k, n + 1, id, h, ask);
    }
    if Stands(env, t0, actions, n + 1, id, h, ask) {
      var k: nat :| AskedAt(env, t0, actions, k, n + 1, id, h, ask);
      if k < n {
        assert AskedAt(env, t0, actions, k, n, id, h, ask);
      }
    }
  }

  /** One action, for a connection that is there before and after. */
  lemma {:induction false} StepLinks(env: Env, s: System, a: Action, id: nat, h: uint32, ask: Ask)
    requires Valid(s.table) && id < s.accepted && id in s.conns && id in Step(env, s, a).conns
    ensures HasLink(Step(env, s, a).conns[id], h, ask) <==>
              AsksIn(s, a, id, h, ask) || (HasLink(s.conns[id], h, ask) && !TouchesIn(s, a, id, h))
  {
    hide Receive, SendOne, Asks, Attaches, Detaches, Valid, Logged, Steady;
    if Reads(s, a, id) {
      ReceiveFollows(env, s.conns[id], s.table, a.f, a.now, h, ask);
    } else if a == SendNext(id) && Busy(s, id) {
      SendLinks(s.conns[id], s.table, h, ask);
    }
  }

  lemma {:induction false} SendLinks(c: Conn, t: Table<ServiceBus.Message>, h: uint32, ask: Ask)
    requires c.delivering.Some? && Steady(c) && Valid(t)
    ensures HasLink(SendOne(c, t).conn, h, ask) <==> HasLink(c, h, ask)
  {
    SendOneEffect(c, t);
    hide SendOne, SendTakes;
  }

  /** Only a connection that has been accepted can have asked. */
  lemma {:induction false} StandsAccepted(env: Env, t0: Table<ServiceBus.Message>, actions: seq<Action>, n: nat,
      id: nat, h: uint32, ask: Ask)
    requires Valid(t0) && n <= |actions| && Stands(env, t0, actions, n, id, h, ask)
    ensures id < At(env, t0, actions, n).accepted
  {
    hide At, Step, Asks;
    var k: nat :| AskedAt(env, t0, actions, k, n, id, h, ask);
    AtSafe(env, t0, actions, k);
    hide ConnsOk, IdsOk, SendsOk, Valid;
    for i := k to n
      invariant id < At(env, t0, actions, i).accepted
    {
      AtNext(env, t0, actions, i);
      StepAccepts(env, At(env, t0, actions, i), actions[i]);
    }
  }

  /** In every run, at every moment, a connection has a link that serves a request exactly when the
      request stands: the last Attach for the handle made it, and no Detach has followed. */
  lemma {:induction false} LinksAreAsked(env: Env, t0: Table<ServiceBus.Message>, actions: seq<Action>, n: nat,
      id: nat, h: uint32, ask: Ask)
    requires Valid(t0) && n <= |actions| && id in At(env, t0, actions, n).conns
    ensures HasLink(At(env, t0, actions, n).conns[id], h, ask) <==> Stands(env, t0, actions, n, id, h, ask)
    decreases n
  {
    if n > 0 {
      var s, a := At(env, t0, actions, n - 1), actions[n - 1];
      AtNext(env, t0, actions, n - 1);
      AtSafe(env, t0, actions, n - 1);
      StandsNext(env, t0, actions, n - 1, id, h, ask);
      if id in s.conns {
        LinksAreAsked(env, t0, actions, n - 1, id, h, ask);
        hide At, Step, Stands, HasLink, AsksIn, TouchesIn;
        StepLinks(env, s, a, id, h, ask);
      } else {
        NewConnection(env, s, a, id);
        if Stands(env, t0, actions, n - 1, id, h, ask) {
          StandsAccepted(env, t0, actions, n - 1, id, h, ask);
        }
      }
    }
  }

  lemma {:induction false} NewConnection(env: Env, s: System, a: Action, id: nat)
    requires id !in s.conns && id in Step(env, s, a).conns
    ensures a == Accept && id == s.accepted && Step(env, s, a).conns[id].links == map[]
  {
    hide Receive, SendOne;
  }

  // ------------------------------- What is sent -------------------------------

  /** Entry `j` of the history is of action `n`. */
  ghost predicate LoggedBy(env: Env, t0: Table<ServiceBus.Message>, actions: seq<Action>, n: nat, j: nat) {
    n < |actions| && |At(env, t0, actions, n).log| <= j < |At(env, t0, actions, n + 1).log|
  }

  lemma {:induction false} LoggedOnce(env: Env, t0: Table<ServiceBus.Message>, actions: seq<Action>, end: nat, j: nat)
    requires end <= |actions| && j < |At(env, t0, actions, end).log|
    ensures exists n: nat :: n < end && LoggedBy(env, t0, actions, n, j)
              && At(env, t0, actions, n + 1).log <= At(env, t0, actions, end).log
    decreases end
  {
    AtNext(env, t0, actions, end - 1);
    StepAppends(env, At(env, t0, actions, end - 1), actions[end - 1]);
    hide At, Step;
    if j < |At(env, t0, actions, end - 1).log| {
      LoggedOnce(env, t0, actions, end - 1, j);
    } else {
      assert LoggedBy(env, t0, actions, end - 1, j);
    }
  }

  /** What one action adds to the history as a send is of a queue that its link serves. */
  lemma {:induction false} StepSends(env: Env, s: System, a: Action, j: nat)
    requires Safe(env, s) && |s.log| <= j < |Step(env, s, a).log| && Step(env, s, a).log[j].event.Sent?
    ensures var e := Step(env, s, a).log[j];
            e.conn in s.conns
            && HasLink(s.conns[e.conn], e.event.handle, Ask(true, e.event.sent.namespace, e.event.sent.queue))
  {
    assert Valid(s.table);
    hide Receive, SendOne, SendKeeps, Benign, Valid;
    if a.Incoming? {
      assert Idle(s, a.id);
      NothingSent(env, s, a.id, a.f, a.now, j);
    } else {
      assert a.SendNext? && Busy(s, a.id);
      SentServes(env, s, a.id, j);
    }
  }

  lemma {:induction false} NothingSent(env: Env, s: System, id: nat, f: Frame, now: int, j: nat)
    requires Idle(s, id)
    requires var s' := Commit(s, id, Receive(env, s.conns[id], s.table, f, now)); |s.log| <= j < |s'.log|
    ensures !Commit(s, id, Receive(env, s.conns[id], s.table, f, now)).log[j].event.Sent?
  {
    ReceiveBenign(env, s.conns[id], s.table, f, now);
    hide Receive, CreditKept, Steady;
  }

  lemma {:induction false} SentServes(env: Env, s: System, id: nat, j: nat)
    requires Safe(env, s) && Busy(s, id)
    requires var s' := Commit(s, id, SendOne(s.conns[id], s.table)); |s.log| <= j < |s'.log|
    ensures var e := Commit(s, id, SendOne(s.conns[id], s.table)).log[j];
            e.conn == id && e.event.Sent?
            && HasLink(s.conns[id], e.event.handle, Ask(true, e.event.sent.namespace, e.event.sent.queue))
  {
    var c := s.conns[id];
    SendOneEffect(c, s.table);
    LinkHasNamespace(env, s, id, c.delivering.value.handle);
    hide SendOne, Safe;
  }

  lemma {:induction false} LinkHasNamespace(env: Env, s: System, id: nat, h: uint32)
    requires Safe(env, s) && id in s.conns && h in s.conns[id].links
    ensures s.conns[id].links[h].namespace != [] && s.conns[id].links[h].handle == h
  {
    assert ConnOk(env, s.log, id, s.conns[id]);
    assert LinkOk(env, s.log, id, h, s.conns[id].links[h]);
  }

  /** In every run, a message is sent on a handle only while a request stands there in which the
      peer attached as a receiver and named the very namespace and queue the message is from. */
  lemma {:induction false} SentAsAsked(env: Env, t0: Table<ServiceBus.Message>, actions: seq<Action>, j: nat)
    requires Valid(t0) && j < |Run(env, Start(t0), actions).log|
    ensures var e := Run(env, Start(t0), actions).log[j];
            e.event.Sent? ==>
              exists n: nat :: LoggedBy(env, t0, actions, n, j)
                && Stands(env, t0, actions, n, e.conn, e.event.handle,
                          Ask(true, e.event.sent.namespace, e.event.sent.queue))
  {
    var end := Run(env, Start(t0), actions);
    assert actions[..|actions|] == actions;
    LoggedOnce(env, t0, actions, |actions|, j);
    var n: nat :| n < |actions| && LoggedBy(env, t0, actions, n, j) && At(env, t0, actions, n + 1).log <= end.log;
    hide Run;
    var e := end.log[j];
    if e.event.Sent? {
      var s := At(env, t0, actions, n);
      AtNext(env, t0, actions, n);
      AtSafe(env, t0, actions, n);
      hide At, Step, Safe, Stands;
      StepSends(env, s, actions[n], j);
      LinksAreAsked(env, t0, actions, n, e.conn, e.event.handle,
                    Ask(true, e.event.sent.namespace, e.event.sent.queue));
    }
  }

  // ------------------------------ What is delivered ------------------------------

  /** A Flow that grants `credit` on handle `h`. */
  ghost predicate Grants(f: Frame, h: uint32, credit: uint32) {
    exists fields :: IsFrame(f, 0x13, fields) && HasNumber(fields, 0, h) && HasNumber(fields, 5, credit)
  }

  /** A settled transfer with a one-byte tag, and a Data section. */
  function TransferOf(channel: uint16, h: uint32, id: uint32, body: Bytes): Reply {
    Reply(channel, 0x14, [Uint(h), Uint(id), Binary([1]), Null, Bool(true), Bool(false)], Some(body))
  }

  /** min(credit, length) transfers have gone out on the handle, with the oldest messages of the
      queue in order and the next delivery ids; they have left the queue, and no other. */
  ghost predicate Delivers(c: Conn, t: Table<ServiceBus.Message>, channel: uint16, h: uint32, credit: uint32, ask: Ask,
      e: Effect)
  {
    var queue := View(t.rows, ServiceBus.InQueue(ask.namespace, ask.queue));
    var n := Min(credit, |queue|);
    && e.status.Running? && |e.replies| == n
    && (forall i :: 0 <= i < n ==>
          e.replies[i] == TransferOf(channel, h, (c.nextDelivery + 1 + i) % TWO32, queue[i].body))
    && View(e.table.rows, ServiceBus.InQueue(ask.namespace, ask.queue)) == queue[n..]
    && forall ns, q :: ns != ask.namespace || q != ask.queue ==>
         View(e.table.rows, ServiceBus.InQueue(ns, q)) == View(t.rows, ServiceBus.InQueue(ns, q))
  }

  lemma {:induction false} FlowDelivers(env: Env, c: Conn, t: Table<ServiceBus.Message>, f: Frame, now: int, h: uint32,
      credit: uint32, ask: Ask)
    requires Valid(t) && c.delivering.None? && HasLink(c, h, ask) && ask.receives
    requires ask.namespace != [] && c.links[h].handle == h && Grants(f, h, credit)
    ensures Delivers(c, t, f.channel, h, credit, ask, FrameEffect(env, c, t, f, now))
  {
    var fields :| IsFrame(f, 0x13, fields) && HasNumber(fields, 0, h) && HasNumber(fields, 5, credit);
    var d := ParseDescribedList(f.body).value;
    NumberIff(fields, 0, h);
    NumberIff(fields, 5, credit);
    FlowSendsExactly(env, c, t, f, fields, d.rest, now);
    FlowElsewhere(env, c, t, f, d, now);
    hide FrameEffect, ParseDescribedList, Drain;
    OutcomeDelivers(c, t, Delivering(f.channel, h), credit, ask, FrameEffect(env, c, t, f, now));
  }

  lemma {:induction false} OutcomeDelivers(c: Conn, t: Table<ServiceBus.Message>, d: Delivering, credit: uint32,
      ask: Ask, e: Effect)
    requires HasLink(c, d.handle, ask) && ask.namespace != [] && c.links[d.handle].handle == d.handle
    requires e.events != [] && FlowOutcome(c, t, d, credit, e.(events := e.events[1..]))
    requires forall ns, q :: ns != ask.namespace || q != ask.queue ==>
               View(e.table.rows, ServiceBus.InQueue(ns, q)) == View(t.rows, ServiceBus.InQueue(ns, q))
    ensures Delivers(c, t, d.channel, d.handle, credit, ask, e)
  {
    hide View;
    assert QueueOf(c, c.links[d.handle]) == ServiceBus.InQueue(ask.namespace, ask.queue);
  }

  lemma {:induction false} FlowElsewhere(env: Env, c: Conn, t: Table<ServiceBus.Message>, f: Frame, d: Described,
      now: int)
    requires Valid(t) && c.delivering.None? && ParseDescribedList(f.body) == Ok(d) && d.code == 0x13
    requires var h := FieldUint(d.fields, 0); h in c.links && c.links[h].namespace != []
    ensures var link := c.links[FieldUint(d.fields, 0)];
            forall ns, q :: ns != link.namespace || q != link.queue ==>
              (View(FrameEffect(env, c, t, f, now).table.rows, ServiceBus.InQueue(ns, q))
               == View(t.rows, ServiceBus.InQueue(ns, q)))
  {
    var link := c.links[FieldUint(d.fields, 0)];
    var e := Receive(env, c, t, f, now);
    assert e == ReceiveFlow(c, t, f.channel, d.fields);
    ReceiveSteady(env, c, t, f, now);
    hide View, Drain, Receive, ParseDescribedList;
    forall ns, q | ns != link.namespace || q != link.queue
      ensures View(Drain(e.conn, t).table.rows, ServiceBus.InQueue(ns, q)) == View(t.rows, ServiceBus.InQueue(ns, q))
    {
      DrainElsewhere(e.conn, t, ns, q);
    }
  }

  /** In every run: while a request to receive stands, a Flow delivers the oldest messages of the
      queue that the Attach named. */
  lemma {:induction false} GrantIsServed(env: Env, t0: Table<ServiceBus.Message>, actions: seq<Action>, id: nat,
      h: uint32, ask: Ask, f: Frame, credit: uint32, now: int)
    requires Valid(t0) && Idle(Run(env, Start(t0), actions), id)
    requires ask.receives && Stands(env, t0, actions, |actions|, id, h, ask) && Grants(f, h, credit)
    ensures var s := Run(env, Start(t0), actions);
            Delivers(s.conns[id], s.table, f.channel, h, credit, ask, FrameEffect(env, s.conns[id], s.table, f, now))
  {
    var s := Run(env, Start(t0), actions);
    assert actions[..|actions|] == actions;
    LinksAreAsked(env, t0, actions, |actions|, id, h, ask);
    AtSafe(env, t0, actions, |actions|);
    LinkHasNamespace(env, s, id, h);
    assert Valid(s.table);
    hide Run, Safe, Stands, Grants, Delivers, FrameEffect;
    FlowDelivers(env, s.conns[id], s.table, f, now, h, credit, ask);
  }

  // -------------------------------- What is filed --------------------------------

  /** A Transfer on handle `h` whose Data section holds `data`, in any form a peer may choose. */
  ghost predicate CarriesData(f: Frame, h: uint32, id: uint32, data: Bytes) {
    exists fields, w, more ::
      && HasNumber(fields, 0, h) && HasNumber(fields, 1, id) && WireFits(w) && TextIn(Says(w)) == Some(data)
      && ParseDescribedList(f.body) == Ok(Described(PERF_TRANSFER, fields, [0x00, 0x53, 0x75] + WireBytes(w) + more))
  }

  /** The data is filed as one message at the end of the queue, every other queue keeps what it
      has, and the answer settles the delivery id. */
  ghost predicate Files(t: Table<ServiceBus.Message>, channel: uint16, id: uint32, data: Bytes, ask: Ask, e: Effect) {
    && e.status.Running? && e.replies == [Reply(channel, 0x15, [Bool(true), Uint(id), Uint(id), Bool(true)], None)]
    && forall ns, q :: View(e.table.rows, ServiceBus.InQueue(ns, q)) == View(t.rows, ServiceBus.InQueue(ns, q)) +
         if ns == ask.namespace && q == ask.queue then [ServiceBus.Message(ns, q, data, [], false)] else []
  }

  lemma {:induction false} TransferFiles(env: Env, c: Conn, t: Table<ServiceBus.Message>, f: Frame, now: int,
      h: uint32, id: uint32, data: Bytes, ask: Ask)
    requires c.delivering.None? && HasLink(c, h, ask) && ask.namespace != [] && data != []
    requires CarriesData(f, h, id, data)
    ensures Files(t, f.channel, id, data, ask, FrameEffect(env, c, t, f, now))
  {
    var fields, w, more :|
      && HasNumber(fields, 0, h) && HasNumber(fields, 1, id) && WireFits(w) && TextIn(Says(w)) == Some(data)
      && ParseDescribedList(f.body) == Ok(Described(PERF_TRANSFER, fields, [0x00, 0x53, 0x75] + WireBytes(w) + more));
    hide ParseDescribedList, WireBytes, WireFits, Says, StoredBody, FrameEffect, ExtractData;
    NumberIff(fields, 0, h);
    NumberIff(fields, 1, id);
    StoredData(w, more, data);
    var payload := [0x00, 0x53, 0x75] + WireBytes(w) + more;
    FrameStores(env, c, t, f, fields, payload, data, now);
    FiledThere(t, ServiceBus.Message(ask.namespace, ask.queue, data, [], false));
  }

  lemma {:induction false} StoredData(w: Wire, more: Bytes, data: Bytes)
    requires WireFits(w) && TextIn(Says(w)) == Some(data) && data != []
    ensures StoredBody([0x00, 0x53, 0x75] + WireBytes(w) + more) == Ok(data)
  {
    hide WireFits, Says, WireBytes, ExtractData;
    PeerDataReads(w, more);
  }

  lemma {:induction false} FrameStores(env: Env, c: Conn, t: Table<ServiceBus.Message>, f: Frame, fields: seq<Value>,
      payload: Bytes, data: Bytes, now: int)
    requires c.delivering.None? && FieldUint(fields, 0) in c.links && StoredBody(payload) == Ok(data)
    requires ParseDescribedList(f.body) == Ok(Described(PERF_TRANSFER, fields, payload))
    ensures var link, id := c.links[FieldUint(fields, 0)], FieldUint(fields, 1);
            var m := ServiceBus.Message(LinkNamespace(c, link), link.queue, data, [], false);
            FrameEffect(env, c, t, f, now)
            == Effect(c, Insert(t, m), [Reply(f.channel, 0x15, [Bool(true), Uint(id), Uint(id), Bool(true)], None)],
                      [Stored(m)], Running)
  {
    hide ParseDescribedList, StoredBody, FieldUint, Insert, LinkNamespace;
    assert Receive(env, c, t, f, now) == ReceiveTransfer(c, t, f.channel, fields, payload);
  }

  lemma {:induction false} FiledThere(t: Table<ServiceBus.Message>, m: ServiceBus.Message)
    ensures forall ns, q ::
              View(Insert(t, m).rows, ServiceBus.InQueue(ns, q)) == View(t.rows, ServiceBus.InQueue(ns, q)) +
              if ns == m.namespace && q == m.queue then [m] else []
  {
    hide View;
    forall ns, q
      ensures View(Insert(t, m).rows, ServiceBus.InQueue(ns, q)) == View(t.rows, ServiceBus.InQueue(ns, q)) +
                if ns == m.namespace && q == m.queue then [m] else []
    {
      InsertLane(t, m, ServiceBus.InQueue(ns, q));
    }
  }

  /** In every run: while a request stands, a Transfer on its handle is filed in the queue that the
      Attach named. */
  lemma {:induction false} TransferIsFiled(env: Env, t0: Table<ServiceBus.Message>, actions: seq<Action>, id: nat,
      h: uint32, ask: Ask, f: Frame, delivery: uint32, data: Bytes, now: int)
    requires Valid(t0) && Idle(Run(env, Start(t0), actions), id) && data != []
    requires Stands(env, t0, actions, |actions|, id, h, ask) && CarriesData(f, h, delivery, data)
    ensures var s := Run(env, Start(t0), actions);
            Files(s.table, f.channel, delivery, data, ask, FrameEffect(env, s.conns[id], s.table, f, now))
  {
    var s := Run(env, Start(t0), actions);
    assert actions[..|actions|] == actions;
    LinksAreAsked(env, t0, actions, |actions|, id, h, ask);
    AtSafe(env, t0, actions, |actions|);
    LinkHasNamespace(env, s, id, h);
    hide Run, Safe, Stands, CarriesData, Files, FrameEffect;
    TransferFiles(env, s.conns[id], s.table, f, now, h, delivery, data, ask);
  }

  /** A Flow, or a Transfer, for the handle. */
  ghost predicate Uses(f: Frame, h: uint32) {
    exists fields :: (IsFrame(f, 0x13, fields) || IsFrame(f, PERF_TRANSFER, fields)) && HasNumber(fields, 0, h)
  }

  /** In every run: on a handle on which no request stands, because none was made or a Detach has
      followed, a Flow or a Transfer does nothing. */
  lemma {:induction false} UnaskedIsIgnored(env: Env, t0: Table<ServiceBus.Message>, actions: seq<Action>, id: nat,
      h: uint32, f: Frame, now: int)
    requires Valid(t0) && Idle(Run(env, Start(t0), actions), id) && Uses(f, h)
    requires forall ask :: !Stands(env, t0, actions, |actions|, id, h, ask)
    ensures var s := Run(env, Start(t0), actions);
            FrameEffect(env, s.conns[id], s.table, f, now) == Effect(s.conns[id], s.table, [], [], Running)
  {
    var s := Run(env, Start(t0), actions);
    assert actions[..|actions|] == actions;
    var c := s.conns[id];
    hide Run, Stands;
    if h in c.links {
      LinksAreAsked(env, t0, actions, |actions|, id, h,
                    Ask(!c.links[h].receiver, c.links[h].namespace, c.links[h].queue));
    }
    NoLinkNothing(env, c, s.table, f, now, h);
  }

  lemma {:induction false} NoLinkNothing(env: Env, c: Conn, t: Table<ServiceBus.Message>, f: Frame, now: int, h: uint32)
    requires c.delivering.None? && h !in c.links && Uses(f, h)
    ensures FrameEffect(env, c, t, f, now) == Effect(c, t, [], [], Running)
  {
    var fields :| (IsFrame(f, 0x13, fields) || IsFrame(f, PERF_TRANSFER, fields)) && HasNumber(fields, 0, h);
    NumberIff(fields, 0, h);
    hide ParseDescribedList, StoredBody, FieldUint;
  }

  // ------------------------------- The Attach itself -------------------------------

  /** An Attach keeps the connection exactly when its namespace is known and the token verifies;
      then its answer names the queue and turns the role round, and the request stands. */
  lemma {:induction false} AttachIsAnswered(env: Env, c: Conn, t: Table<ServiceBus.Message>, f: Frame, h: uint32,
      ask: Ask, now: int)
    requires c.delivering.None? && Asks(f, c.login.namespace, h, ask)
    ensures var e := FrameEffect(env, c, t, f, now);
            && (e.status.Running? <==> Admits(env, c.login.sasToken, ask.namespace, now))
            && (e.status.Running? ==> HasLink(e.conn, h, ask) && e.table == t && e.conn.login == c.login)
            && (!e.status.Running? ==> e == Effect(c, t, [], [], Closed))
            && (e.status.Running? ==>
                  |e.replies| == 1 && e.replies[0].code == 0x12 && e.replies[0].data.None?
                  && exists name :: HasText(ParseDescribedList(f.body).value.fields, 0, name)
                       && e.replies[0].fields
                          == [Text(name), Uint(h), Bool(!ask.receives), Null, Null, Text(ask.queue), Text(ask.queue)])
  {
    var d := ParseDescribedList(f.body).value;
    WantsIff(d.fields, c.login, ask);
    NumberIff(d.fields, 1, h);
    TextIff(d.fields, 0, FieldText(d.fields, 0));
    assert Receive(env, c, t, f, now) == ReceiveAttach(env, c, t, f.channel, d.fields, now);
    hide Receive, ParseDescribedList, FieldText, FieldUint, FieldBool, AttachAddress, Admits, Wants, HasText;
  }

  /** An Attach that is admitted, and then a Flow. */
  lemma {:induction false} AttachThenFlow(env: Env, c: Conn, t: Table<ServiceBus.Message>, attach: Frame, flow: Frame,
      h: uint32, ask: Ask, credit: uint32, now: int, later: int)
    requires Valid(t) && c.delivering.None? && ask.receives && Asks(attach, c.login.namespace, h, ask)
    requires Admits(env, c.login.sasToken, ask.namespace, now) && Grants(flow, h, credit)
    ensures var c1 := FrameEffect(env, c, t, attach, now).conn;
            && c1.delivering.None? && c1.nextDelivery == c.nextDelivery
            && Delivers(c1, t, flow.channel, h, credit, ask, FrameEffect(env, c1, t, flow, later))
  {
    var d := ParseDescribedList(attach.body).value;
    WantsIff(d.fields, c.login, ask);
    NumberIff(d.fields, 1, h);
    assert Receive(env, c, t, attach, now) == ReceiveAttach(env, c, t, attach.channel, d.fields, now);
    var c1 := FrameEffect(env, c, t, attach, now).conn;
    assert HasLink(c1, h, ask) && c1.links[h].handle == h && c1.delivering.None?;
    hide Receive, ParseDescribedList, FrameEffect, Delivers, Grants;
    FlowDelivers(env, c1, t, flow, later, h, credit, ask);
  }
}
