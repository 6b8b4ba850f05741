/** Event Hubs messages (internal/store/eventhubs.go): one transaction appends to the live table
    and to the capture log; dequeues take from the live table only. */
module EventHubs {
  import opened Outcomes
  import opened ByteStrings
  import opened Text
  import opened Tables

  datatype Event = Event(namespace: string, hub: string, partition: string, body: Bytes)

  /** The order that consumers see is per partition. */
  datatype Lane = Lane(namespace: string, hub: string, partition: string)

  function InLane(l: Lane): Event -> bool {
    (e: Event) => Lane(e.namespace, e.hub, e.partition) == l
  }

  /** The WHERE clause of a dequeue: an empty partition asks for any. */
  predicate Matches(namespace: string, hub: string, partition: string, e: Event) {
    e.namespace == namespace && e.hub == hub && (partition == "" || e.partition == partition)
  }

  function Where(namespace: string, hub: string, partition: string): Event -> bool {
    (e: Event) => Matches(namespace, hub, partition, e)
  }

  function Placed(namespace: string, hub: string, partition: string, body: Bytes): Event {
    Event(namespace, hub, if partition == "" then "0" else partition, body)
  }

  /** trimNonEmpty */
  function TrimNonEmpty(names: seq<string>): seq<string> {
    if names == [] then []
    else
      var t := TrimSpace(names[0]);
      (if t != "" then [t] else []) + TrimNonEmpty(names[1..])
  }

  predicate Listed(namespaces: seq<string>, hub: string, e: Event) {
    e.namespace in namespaces && e.hub == hub
  }

  function Select(rows: seq<Row<Event>>, p: Event -> bool): seq<Row<Event>> {
    if rows == [] then []
    else (if p(rows[0].data) then [rows[0]] else []) + Select(rows[1..], p)
  }

  function InHub(namespace: string, hub: string): Event -> bool {
    (e: Event) => e.namespace == namespace && e.hub == hub
  }

  /** `body` is that of the oldest live event of the part, which leaves its partition; the others
      keep all they have. Or the part is empty, and nothing changes. */
  ghost predicate HandsOut(before: Table<Event>, after: Table<Event>, body: Option<Bytes>, part: Event -> bool) {
    exists got: Option<Event> ::
      && body == (if got.Some? then Some(got.value.body) else None)
      && HandsOutHead(before, after, got, part)
      && forall lane :: LosesOnly(before, after, got, InLane(lane))
  }

  /** The partition gains the event at its end; every other one keeps what it has. */
  ghost predicate LaneGains(before: Table<Event>, after: Table<Event>, lane: Lane, body: Bytes) {
    exists e: Event ::
      && e.body == body && View(after.rows, InLane(lane)) == View(before.rows, InLane(lane)) + [e]
      && forall l: Lane :: l != lane ==> View(after.rows, InLane(l)) == View(before.rows, InLane(l))
  }

  class Store {
    var live: Table<Event>
    var captured: Table<Event>

    constructor ()
      ensures live == Table([], 0) && captured == Table([], 0)
    {
      live, captured := Table([], 0), Table([], 0);
    }

    method EnqueueEventHub(namespace: string, hub: string, partition: string, body: Bytes)
      modifies this
      ensures live == Insert(old(live), Placed(namespace, hub, partition, body))
      ensures captured == Insert(old(captured), Placed(namespace, hub, partition, body))
      ensures var lane := Lane(namespace, hub, if partition == "" then "0" else partition);
              LaneGains(old(live), live, lane, body) && LaneGains(old(captured), captured, lane, body)
    {
      Gained(live, Placed(namespace, hub, partition, body));
      Gained(captured, Placed(namespace, hub, partition, body));
      var p := partition;
      if p == "" { p := "0"; }
      live := Insert(live, Event(namespace, hub, p, body));
      captured := Insert(captured, Event(namespace, hub, p, body));
    }

    method DequeueEventHub(namespace: string, hub: string, partition: string) returns (body: Option<Bytes>)
      modifies this`live
      ensures live == Take(old(live), Where(namespace, hub, partition))
      ensures var o := Oldest(old(live).rows, Where(namespace, hub, partition));
              body == if o.Some? then Some(o.value.data.body) else None
      ensures Valid(old(live)) && partition != "" ==>
                HandsOut(old(live), live, body, InLane(Lane(namespace, hub, partition)))
      ensures Valid(old(live)) && partition == "" ==> HandsOut(old(live), live, body, InHub(namespace, hub))
    {
      if Valid(live) {
        HandsOutPart(live, namespace, hub, partition,
                     if partition != "" then InLane(Lane(namespace, hub, partition)) else InHub(namespace, hub));
      }
      match Oldest(live.rows, Where(namespace, hub, partition))
      case None => body := None;
      case Some(r) =>
        live := live.(rows := DeleteId(live.rows, r.id));
        body := Some(r.data.body);
    }

    method ListEventHubCapturedForNamespaces(names: seq<string>, hub: string) returns (out: seq<Row<Event>>)
      ensures out == Select(captured.rows, (e: Event) => Listed(TrimNonEmpty(names), hub, e))
    {
      var namespaces := TrimNonEmpty(names);
      ghost var p := (e: Event) => Listed(TrimNonEmpty(names), hub, e);
      out := [];
      for i := |captured.rows| downto 0
        invariant out == Select(captured.rows[i..], p)
      {
        assert captured.rows[i..][1..] == captured.rows[i + 1..];
        if Listed(namespaces, hub, captured.rows[i].data) {
          out := [captured.rows[i]] + out;
        }
      }
    }
  }

  lemma {:induction false} Gained(t: Table<Event>, e: Event)
    ensures LaneGains(t, Insert(t, e), Lane(e.namespace, e.hub, e.partition), e.body)
  {
    var own := Lane(e.namespace, e.hub, e.partition);
    forall lane: Lane
      ensures View(Insert(t, e).rows, InLane(lane)) == View(t.rows, InLane(lane)) + if own == lane then [e] else []
    {
      InsertLane(t, e, InLane(lane));
    }
  }

  lemma {:induction false} HandsOutPart(t: Table<Event>, namespace: string, hub: string, partition: string,
      part: Event -> bool)
    requires Valid(t) && forall e :: part(e) <==> Matches(namespace, hub, partition, e)
    ensures var p := Where(namespace, hub, partition); var o := Oldest(t.rows, p);
            HandsOut(t, Take(t, p), if o.Some? then Some(o.value.data.body) else None, part)
  {
    var p := Where(namespace, hub, partition);
    TakeHead(t, p, part);
    forall lane ensures LosesOnly(t, Take(t, p), Taken(t, p), InLane(lane)) {
      LaneRespected(namespace, hub, partition, lane);
      TakeLane(t, p, InLane(lane));
    }
  }

  /** A capture listing holds exactly the captured rows of the hub in one of the named namespaces,
      blanks around the names aside. */
  lemma {:induction false} ListingIsExact(t: Table<Event>, names: seq<string>, hub: string, r: Row<Event>)
    ensures r in Select(t.rows, (e: Event) => Listed(TrimNonEmpty(names), hub, e)) <==>
              r in t.rows && r.data.hub == hub && r.data.namespace != ""
              && exists n :: n in names && Wraps(n, r.data.namespace)
  {
    SelectIs(t.rows, (e: Event) => Listed(TrimNonEmpty(names), hub, e), r);
    TrimmedNames(names, r.data.namespace);
  }

  lemma {:induction false} SelectIs(rows: seq<Row<Event>>, p: Event -> bool, r: Row<Event>)
    ensures r in Select(rows, p) <==> r in rows && p(r.data)
  {
    if rows != [] {
      SelectIs(rows[1..], p, r);
    }
  }

  lemma {:induction false} TrimmedNames(names: seq<string>, name: string)
    ensures name in TrimNonEmpty(names) <==> name != "" && exists n :: n in names && Wraps(n, name)
  {
    hide TrimSpace, Wraps;
    if names != [] {
      TrimmedNames(names[1..], name);
      TrimSpaceIff(names[0], name);
      assert names == [names[0]] + names[1..];
    }
  }

  // --------------------------------- Runs ---------------------------------

  datatype Hubs = Hubs(live: Table<Event>, captured: Table<Event>)

  datatype Op =
    | Enqueue(namespace: string, hub: string, partition: string, body: Bytes)
    | Dequeue(namespace: string, hub: string, partition: string)

  function Apply(s: Hubs, op: Op): Hubs {
    match op
    case Enqueue(ns, hub, p, body) =>
      var e := Placed(ns, hub, p, body);
      Hubs(Insert(s.live, e), Insert(s.captured, e))
    case Dequeue(ns, hub, p) => s.(live := Take(s.live, Where(ns, hub, p)))
  }

  function Run(s: Hubs, ops: seq<Op>): Hubs
    decreases |ops|
  {
    if ops == [] then s else Run(Apply(s, ops[0]), ops[1..])
  }

  ghost function HandedOut(s: Hubs, op: Op, l: Event -> bool): seq<Event> {
    if op.Enqueue? then []
    else
      var o := Oldest(s.live.rows, Where(op.namespace, op.hub, op.partition));
      if o.Some? && l(o.value.data) then [o.value.data] else []
  }

  /** The events of a lane that a run hands out, in order. */
  ghost function Delivered(s: Hubs, ops: seq<Op>, l: Event -> bool): seq<Event>
    decreases |ops|
  {
    if ops == [] then [] else HandedOut(s, ops[0], l) + Delivered(Apply(s, ops[0]), ops[1..], l)
  }

  ghost predicate Balanced(s: Hubs, before: seq<Event>, lane: Lane) {
    Valid(s.live) && View(s.captured.rows, InLane(lane)) == before + View(s.live.rows, InLane(lane))
  }

  lemma {:induction false} LaneRespected(namespace: string, hub: string, partition: string, lane: Lane)
    ensures Respects(Where(namespace, hub, partition), InLane(lane))
  {
    var probe := Event(lane.namespace, lane.hub, lane.partition, []);
    forall e | InLane(lane)(e)
      ensures Where(namespace, hub, partition)(e) == Matches(namespace, hub, partition, probe)
    {
    }
  }

  lemma {:induction false} StepBalanced(s: Hubs, op: Op, before: seq<Event>, lane: Lane)
    requires Balanced(s, before, lane)
    ensures Balanced(Apply(s, op), before + HandedOut(s, op, InLane(lane)), lane)
  {
    hide Valid, Take, Oldest, Where, InLane, Placed;
    var l := InLane(lane);
    match op
    case Enqueue(ns, hub, p, body) =>
      var e := Placed(ns, hub, p, body);
      InsertValid(s.live, e);
      ViewAppend(s.live.rows, Row(s.live.next, e), l);
      ViewAppend(s.captured.rows, Row(s.captured.next, e), l);
    case Dequeue(ns, hub, p) =>
      LaneRespected(ns, hub, p, lane);
      TakeValid(s.live, Where(ns, hub, p));
      TakeView(s.live, Where(ns, hub, p), l);
  }

  /** Whatever mix of partitioned and unpartitioned dequeues, each partition's capture log is what
      was delivered from it followed by what is still live. */
  lemma {:induction false} RunBalanced(s: Hubs, ops: seq<Op>, before: seq<Event>, lane: Lane)
    requires Balanced(s, before, lane)
    ensures Balanced(Run(s, ops), before + Delivered(s, ops, InLane(lane)), lane)
    decreases |ops|
  {
    if ops == [] {
      assert before + [] == before;
    } else {
      var out := HandedOut(s, ops[0], InLane(lane));
      StepBalanced(s, ops[0], before, lane);
      RunBalanced(Apply(s, ops[0]), ops[1..], before + out, lane);
      var rest := Delivered(Apply(s, ops[0]), ops[1..], InLane(lane));
      assert before + (out + rest) == (before + out) + rest;
    }
  }

  const EMPTY := Hubs(Table([], 0), Table([], 0))

  /** From empty tables: captured = delivered ++ live, so live is always a suffix of captured. */
  lemma {:induction false} CapturedIsDeliveredThenLive(ops: seq<Op>, lane: Lane)
    ensures var s, l := Run(EMPTY, ops), InLane(lane);
            var live, captured := View(s.live.rows, l), View(s.captured.rows, l);
            && captured == Delivered(EMPTY, ops, l) + live
            && |live| <= |captured| && captured[|captured| - |live|..] == live
  {
    RunBalanced(EMPTY, ops, [], lane);
    var d := Delivered(EMPTY, ops, InLane(lane));
    assert [] + d == d;
  }

  /** The capture log only ever grows at its end. */
  lemma {:induction false} CaptureIsAppendOnly(s: Hubs, ops: seq<Op>)
    ensures s.captured.rows <= Run(s, ops).captured.rows
    decreases |ops|
  {
    if ops != [] {
      CaptureIsAppendOnly(Apply(s, ops[0]), ops[1..]);
    }
  }

  lemma {:induction false} SelectKeepsLane(rows: seq<Row<Event>>, p: Event -> bool, l: Event -> bool)
    requires forall e :: l(e) ==> p(e)
    ensures View(Select(rows, p), l) == View(rows, l)
  {
    if rows != [] {
      SelectKeepsLane(rows[1..], p, l);
      var rest := Select(rows[1..], p);
      if p(rows[0].data) {
        assert Select(rows, p) == [rows[0]] + rest && ([rows[0]] + rest)[1..] == rest;
      } else {
        assert Select(rows, p) == rest;
      }
    }
  }

  /** A listing that names a lane's namespace and hub shows all that was delivered from the lane
      and all that is live in it, in order, and nothing of the lane is missing. */
  lemma {:induction false} ListingShowsTheLane(ops: seq<Op>, names: seq<string>, hub: string, lane: Lane)
    requires lane.hub == hub && lane.namespace in TrimNonEmpty(names)
    ensures var s, l := Run(EMPTY, ops), InLane(lane);
            var listing := Select(s.captured.rows, (e: Event) => Listed(TrimNonEmpty(names), hub, e));
            View(listing, l) == Delivered(EMPTY, ops, l) + View(s.live.rows, l)
  {
    var namespaces := TrimNonEmpty(names);
    CapturedIsDeliveredThenLive(ops, lane);
    SelectKeepsLane(Run(EMPTY, ops).captured.rows, (e: Event) => Listed(TrimNonEmpty(names), hub, e), InLane(lane));
  }
}
