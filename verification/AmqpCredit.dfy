/** Credit (section 2.6.7 of OASIS AMQP 1.0 Part 2) over interleaved runs: what a deliver loop
    sends while other connections take from the same queue. */
module AmqpCredit {
  import opened Outcomes
  import opened ByteStrings
  import opened Tables
  import ServiceBus
  import opened AmqpSession
  import opened AmqpRuns
  import opened AmqpDelivery

  /** The sends of connection `id` over link `handle`. */
  ghost function SentOver(log: seq<Entry>, id: nat, handle: uint32): nat {
    if log == [] then 0
    else
      var e := log[|log| - 1];
      SentOver(log[..|log| - 1], id, handle)
      + if e.conn == id && e.event.Sent? && e.event.handle == handle then 1 else 0
  }

  ghost predicate GrantsTo(e: Entry, id: nat, handle: uint32) {
    && e.conn == id
    && ((e.event.Admitted? && e.event.link.handle == handle) || (e.event.Credited? && e.event.grant == handle))
  }

  /** No attach and no Flow for the link. */
  ghost predicate NoGrant(log: seq<Entry>, id: nat, handle: uint32) {
    forall i :: 0 <= i < |log| ==> !GrantsTo(log[i], id, handle)
  }

  /** Without a grant the balance goes down by one for each send, and by nothing else. */
  lemma {:induction false} BalanceSpent(log: seq<Entry>, more: seq<Entry>, id: nat, handle: uint32)
    requires NoGrant(more, id, handle)
    ensures Balance(log + more, id, handle) == Balance(log, id, handle) - SentOver(more, id, handle)
    decreases |more|
  {
    if more == [] {
      assert log + more == log;
    } else {
      var init, e := more[..|more| - 1], more[|more| - 1];
      assert log + more == (log + init) + [e];
      BalanceAppend(log + init, e, id, handle);
      BalanceSpent(log, init, id, handle);
    }
  }

  lemma {:induction false} StepAppends(env: Env, s: System, a: Action)
    ensures s.log <= Step(env, s, a).log
  {
    hide Receive, SendOne, Steady;
  }

  lemma {:induction false} RunAppends(env: Env, s: System, actions: seq<Action>)
    ensures s.log <= Run(env, s, actions).log
    decreases |actions|
  {
    if actions != [] {
      StepAppends(env, s, actions[0]);
      RunAppends(env, Step(env, s, actions[0]), actions[1..]);
    }
  }

  lemma {:induction false} RunSafe(env: Env, s: System, actions: seq<Action>)
    requires Safe(env, s)
    ensures Safe(env, Run(env, s, actions))
    decreases |actions|
  {
    if actions != [] {
      StepSafe(env, s, actions[0]);
      RunSafe(env, Step(env, s, actions[0]), actions[1..]);
    }
  }

  /** What has been added to the history. */
  ghost function Since(s: System, later: System): seq<Entry>
    requires s.log <= later.log
  {
    later.log[|s.log|..]
  }

  /** The link's credit and the sends over it since make up the credit it had. */
  ghost predicate CreditAddsUp(s: System, later: System, id: nat, handle: uint32)
    requires s.log <= later.log && id in s.conns && handle in s.conns[id].links
  {
    id in later.conns && handle in later.conns[id].links ==>
      (later.conns[id].links[handle].credit + SentOver(Since(s, later), id, handle)
       == s.conns[id].links[handle].credit)
  }

  lemma {:induction false} BalancesAddUp(env: Env, s: System, later: System, id: nat, handle: uint32)
    requires Safe(env, s) && Safe(env, later) && s.log <= later.log && id in s.conns && handle in s.conns[id].links
    requires NoGrant(Since(s, later), id, handle)
    ensures CreditAddsUp(s, later, id, handle)
  {
    hide Safe, NoGrant;
    if id in later.conns && handle in later.conns[id].links {
      BalanceIs(env, s, id, handle);
      BalanceIs(env, later, id, handle);
      assert s.log + Since(s, later) == later.log;
      BalanceSpent(s.log, Since(s, later), id, handle);
    }
  }

  /** Between any two moments of any run with no attach and no Flow for a link in between. */
  lemma {:induction false} CreditIsSpent(env: Env, s: System, actions: seq<Action>, id: nat, handle: uint32)
    requires Safe(env, s) && id in s.conns && handle in s.conns[id].links
    requires s.log <= Run(env, s, actions).log && NoGrant(Since(s, Run(env, s, actions)), id, handle)
    ensures CreditAddsUp(s, Run(env, s, actions), id, handle)
  {
    RunSafe(env, s, actions);
    hide Run, Safe, NoGrant;
    BalancesAddUp(env, s, Run(env, s, actions), id, handle);
  }

  lemma {:induction false} BalanceIs(env: Env, s: System, id: nat, handle: uint32)
    requires Safe(env, s) && id in s.conns && handle in s.conns[id].links
    ensures s.conns[id].links[handle].credit == Balance(s.log, id, handle)
  {
    assert ConnOk(env, s.log, id, s.conns[id]);
    assert LinkOk(env, s.log, id, handle, s.conns[id].links[handle]);
  }

  // ----------------------------- One deliver loop -----------------------------

  /** No frame of the connection is read, and it is not dropped: so it is while it delivers. */
  predicate LeavesAlone(a: Action, id: nat) {
    match a
    case Accept => true
    case Incoming(x, _, _) => x != id
    case SendNext(_) => true
    case Drop(x) => x != id
  }

  predicate AllLeaveAlone(actions: seq<Action>, id: nat) {
    forall i :: 0 <= i < |actions| ==> LeavesAlone(actions[i], id)
  }

  /** Nothing but sends in the history of the connection. */
  ghost predicate OnlySends(log: seq<Entry>, id: nat) {
    forall i :: 0 <= i < |log| && log[i].conn == id ==> log[i].event.Sent?
  }

  /** The connection keeps its links, or is gone with a crash. */
  ghost predicate SameLinks(s: System, later: System, id: nat) {
    id in s.conns && id in later.conns ==> later.conns[id].links.Keys == s.conns[id].links.Keys
  }

  ghost predicate Quiescent(s: System, later: System, id: nat) {
    s.log <= later.log && OnlySends(Since(s, later), id) && SameLinks(s, later, id)
  }

  lemma {:induction false} CommitQuiescent(s: System, x: nat, e: Effect, id: nat)
    requires x != id && x in s.conns
    ensures Quiescent(s, Commit(s, x, e), id)
  {
    assert Since(s, Commit(s, x, e)) == Logged(x, e.events);
  }

  lemma {:induction false} SendQuiescent(s: System, id: nat, e: Effect)
    requires id in s.conns && SendKeeps(s.conns[id], e)
    ensures Quiescent(s, Commit(s, id, e), id)
  {
    assert Since(s, Commit(s, id, e)) == Logged(id, e.events);
  }

  lemma {:induction false} OwnSendQuiescent(s: System, id: nat)
    requires Valid(s.table) && Busy(s, id)
    ensures Quiescent(s, Commit(s, id, SendOne(s.conns[id], s.table)), id)
  {
    SendOneEffect(s.conns[id], s.table);
    hide SendOne, Commit, Quiescent;
    SendQuiescent(s, id, SendOne(s.conns[id], s.table));
  }

  lemma {:induction false} StepQuiescent(env: Env, s: System, a: Action, id: nat)
    requires Safe(env, s) && id in s.conns && LeavesAlone(a, id)
    ensures Quiescent(s, Step(env, s, a), id)
  {
    assert Valid(s.table);
    hide Receive, SendOne, SendKeeps, SendTakes, Commit, Quiescent, Safe, Valid, Steady;
    match a
    case Accept => Untouched(s, s.(conns := s.conns[s.accepted := NEW_CONN], accepted := s.accepted + 1), id);
    case Drop(x) => Untouched(s, s.(conns := s.conns - {x}), id);
    case Incoming(x, f, now) =>
      if Idle(s, x) {
        CommitQuiescent(s, x, Receive(env, s.conns[x], s.table, f, now), id);
      } else {
        Untouched(s, s, id);
      }
    case SendNext(x) =>
      if !Busy(s, x) {
        Untouched(s, s, id);
      } else if x == id {
        OwnSendQuiescent(s, id);
      } else {
        CommitQuiescent(s, x, SendOne(s.conns[x], s.table), id);
      }
  }

  lemma {:induction false} Untouched(s: System, later: System, id: nat)
    requires later.log == s.log && (id in s.conns && id in later.conns ==> later.conns[id] == s.conns[id])
    ensures Quiescent(s, later, id)
  {
  }

  /** A connection that is gone does not come back. */
  lemma {:induction false} GoneStaysGone(env: Env, s: System, actions: seq<Action>, id: nat)
    requires id < s.accepted && id !in s.conns
    ensures id !in Run(env, s, actions).conns && s.log <= Run(env, s, actions).log
    ensures OnlySends(Since(s, Run(env, s, actions)), id)
    decreases |actions|
  {
    RunAppends(env, s, actions);
    if actions != [] {
      var next := Step(env, s, actions[0]);
      GoneStep(env, s, actions[0], id);
      GoneStaysGone(env, next, actions[1..], id);
      SinceTwice(s, next, Run(env, s, actions), id);
    }
  }

  lemma {:induction false} GoneStep(env: Env, s: System, a: Action, id: nat)
    requires id < s.accepted && id !in s.conns
    ensures var next := Step(env, s, a);
            id < next.accepted && id !in next.conns && s.log <= next.log && OnlySends(Since(s, next), id)
  {
    hide Receive, SendOne, Steady;
  }

  lemma {:induction false} SinceTwice(s: System, mid: System, end: System, id: nat)
    requires s.log <= mid.log <= end.log && OnlySends(Since(s, mid), id) && OnlySends(Since(mid, end), id)
    ensures OnlySends(Since(s, end), id)
  {
    assert Since(s, end) == Since(s, mid) + Since(mid, end);
  }

  lemma {:induction false} RunQuiescent(env: Env, s: System, actions: seq<Action>, id: nat)
    requires Safe(env, s) && id in s.conns && AllLeaveAlone(actions, id)
    ensures Quiescent(s, Run(env, s, actions), id)
    decreases |actions|
  {
    if actions == [] {
      Untouched(s, s, id);
    } else {
      var next, end := Step(env, s, actions[0]), Run(env, s, actions);
      StepQuiescent(env, s, actions[0], id);
      StepSafe(env, s, actions[0]);
      StepAccepts(env, s, actions[0]);
      if id in next.conns {
        assert AllLeaveAlone(actions[1..], id);
        RunQuiescent(env, next, actions[1..], id);
      } else {
        GoneStaysGone(env, next, actions[1..], id);
      }
      SinceTwice(s, next, end, id);
    }
  }

  lemma {:induction false} StepAccepts(env: Env, s: System, a: Action)
    ensures s.accepted <= Step(env, s, a).accepted
  {
  }

  lemma {:induction false} SendsGrantNothing(log: seq<Entry>, id: nat, handle: uint32)
    requires OnlySends(log, id)
    ensures NoGrant(log, id, handle)
  {
  }

  /** While a connection delivers, whatever the others do: if it is still connected, it has the
      link, and the link's credit and the sends since make up the credit it started with. */
  lemma {:induction false} DeliverSpendsCredit(env: Env, s: System, actions: seq<Action>, id: nat, handle: uint32)
    requires Safe(env, s) && id in s.conns && handle in s.conns[id].links && AllLeaveAlone(actions, id)
    ensures var end := Run(env, s, actions);
            && s.log <= end.log && (id in end.conns ==> handle in end.conns[id].links)
            && CreditAddsUp(s, end, id, handle)
  {
    RunQuiescent(env, s, actions, id);
    hide Run, Safe, NoGrant, OnlySends, CreditAddsUp, AllLeaveAlone;
    SendsGrantNothing(Since(s, Run(env, s, actions)), id, handle);
    CreditIsSpent(env, s, actions, id, handle);
  }

  /** The queue that a delivering connection takes from, as it is now. */
  ghost function QueueNow(s: System, id: nat): seq<ServiceBus.Message>
    requires Busy(s, id)
  {
    var c := s.conns[id];
    View(s.table.rows, QueueOf(c, c.links[c.delivering.value.handle]))
  }

  ghost function CreditNow(s: System, id: nat): nat
    requires Busy(s, id)
  {
    s.conns[id].links[s.conns[id].delivering.value.handle].credit
  }

  /** A deliver loop ends at the look that finds no credit left or the queue empty, and at no other. */
  lemma {:induction false} DeliverEndsIff(env: Env, s: System, id: nat)
    requires Valid(s.table) && Busy(s, id)
    ensures var next := Step(env, s, SendNext(id));
            id in next.conns && (next.conns[id].delivering.None? <==> CreditNow(s, id) == 0 || QueueNow(s, id) == [])
  {
    var c := s.conns[id];
    FirstSend(c, s.table, c.delivering.value);
  }

  /** The whole of one deliver loop, from its start to its last look: it has sent as much as it had
      credit for, or less and then the queue was empty. */
  lemma {:induction false} DeliverSendsCreditOrAll(env: Env, s: System, actions: seq<Action>, end: System, id: nat)
    requires Safe(env, s) && Busy(s, id) && AllLeaveAlone(actions, id) && end == Run(env, s, actions)
    requires Busy(end, id) && end.conns[id].delivering == s.conns[id].delivering
    requires Idle(Step(env, end, SendNext(id)), id)
    ensures s.log <= end.log
    ensures var sent := SentOver(Since(s, end), id, s.conns[id].delivering.value.handle);
            sent <= CreditNow(s, id) && (sent == CreditNow(s, id) || QueueNow(end, id) == [])
  {
    RunSafe(env, s, actions);
    DeliverSpendsCredit(env, s, actions, id, s.conns[id].delivering.value.handle);
    assert Valid(end.table);
    hide Run, Safe, AllLeaveAlone, Step;
    DeliverEndsIff(env, end, id);
  }
}
