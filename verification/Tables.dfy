/** A SQLite table with an AUTOINCREMENT id: rows in insertion order, and the next id. */
module Tables {
  import opened Outcomes

  datatype Row<T> = Row(id: nat, data: T)

  datatype Table<T> = Table(rows: seq<Row<T>>, next: nat)

  /** Ids grow along the rows and are never reused. */
  ghost predicate Valid<T>(t: Table<T>) {
    && (forall i, j :: 0 <= i < j < |t.rows| ==> t.rows[i].id < t.rows[j].id)
    && (forall i :: 0 <= i < |t.rows| ==> t.rows[i].id < t.next)
  }

  function Insert<T>(t: Table<T>, d: T): Table<T> {
    Table(t.rows + [Row(t.next, d)], t.next + 1)
  }

  /** SELECT ... WHERE p ORDER BY id ASC LIMIT 1; OldestIsLeast says why this is it. */
  function Oldest<T>(rows: seq<Row<T>>, p: T -> bool): Option<Row<T>> {
    if rows == [] then None
    else if p(rows[0].data) then Some(rows[0])
    else Oldest(rows[1..], p)
  }

  /** DELETE ... WHERE id = ? */
  function DeleteId<T>(rows: seq<Row<T>>, id: nat): seq<Row<T>> {
    if rows == [] then []
    else if rows[0].id == id then DeleteId(rows[1..], id)
    else [rows[0]] + DeleteId(rows[1..], id)
  }

  /** The transaction shared by all dequeues: select the oldest match and delete it by id. */
  function Take<T>(t: Table<T>, p: T -> bool): Table<T> {
    match Oldest(t.rows, p)
    case None => t
    case Some(r) => t.(rows := DeleteId(t.rows, r.id))
  }

  /** The data of the rows satisfying `l`, oldest first. */
  ghost function View<T>(rows: seq<Row<T>>, l: T -> bool): seq<T> {
    if rows == [] then []
    else (if l(rows[0].data) then [rows[0].data] else []) + View(rows[1..], l)
  }

  /** A lane `l` never straddles the filter `p`: its rows are all candidates or all not. */
  ghost predicate Respects<T(!new)>(p: T -> bool, l: T -> bool) {
    (forall d :: l(d) ==> p(d)) || (forall d :: l(d) ==> !p(d))
  }

  lemma {:induction false} RestValid<T>(t: Table<T>)
    requires Valid(t) && t.rows != []
    ensures Valid(t.(rows := t.rows[1..])) && forall r :: r in t.rows[1..] ==> t.rows[0].id < r.id
  {
  }

  lemma {:induction false} OldestIsLeast<T>(t: Table<T>, p: T -> bool)
    requires Valid(t)
    ensures var o := Oldest(t.rows, p);
            if o.None? then forall r :: r in t.rows ==> !p(r.data)
            else o.value in t.rows && p(o.value.data)
                 && forall r :: r in t.rows && p(r.data) ==> o.value.id <= r.id
    decreases |t.rows|
  {
    if t.rows != [] {
      RestValid(t);
      InCons(t.rows);
      if !p(t.rows[0].data) {
        var rest := t.(rows := t.rows[1..]);
        hide Valid;
        OldestIsLeast(rest, p);
      }
    }
  }

  lemma {:induction false} InCons<T>(rows: seq<Row<T>>)
    requires rows != []
    ensures forall r :: r in rows <==> r == rows[0] || r in rows[1..]
  {
    assert rows == [rows[0]] + rows[1..];
  }

  lemma {:induction false} DeleteAbsent<T>(rows: seq<Row<T>>, id: nat)
    requires forall i :: 0 <= i < |rows| ==> rows[i].id != id
    ensures DeleteId(rows, id) == rows
  {
    if rows != [] {
      DeleteAbsent(rows[1..], id);
    }
  }

  lemma {:induction false} DeletedRow<T>(rows: seq<Row<T>>, id: nat, x: Row<T>)
    ensures x in DeleteId(rows, id) <==> x in rows && x.id != id
  {
    if rows != [] {
      DeletedRow(rows[1..], id, x);
      assert rows == [rows[0]] + rows[1..];
    }
  }

  lemma {:induction false} ConsValid<T>(r: Row<T>, t: Table<T>)
    requires Valid(t) && r.id < t.next
    requires forall x :: x in t.rows ==> r.id < x.id
    ensures Valid(t.(rows := [r] + t.rows))
  {
  }

  lemma {:induction false} DeleteValid<T>(t: Table<T>, id: nat)
    requires Valid(t)
    ensures Valid(t.(rows := DeleteId(t.rows, id)))
    decreases |t.rows|
  {
    if t.rows != [] {
      var rest := t.(rows := t.rows[1..]);
      RestValid(t);
      hide Valid;
      DeleteValid(rest, id);
      if t.rows[0].id != id {
        forall x | x in DeleteId(rest.rows, id) ensures t.rows[0].id < x.id {
          DeletedRow(rest.rows, id, x);
          var j :| 0 <= j < |rest.rows| && rest.rows[j] == x;
          assert t.rows[j + 1] == x;
        }
        ConsValid(t.rows[0], rest.(rows := DeleteId(rest.rows, id)));
      }
    }
  }

  lemma {:induction false} InsertValid<T>(t: Table<T>, d: T)
    requires Valid(t)
    ensures Valid(Insert(t, d))
  {
  }

  lemma {:induction false} TakeValid<T>(t: Table<T>, p: T -> bool)
    requires Valid(t)
    ensures Valid(Take(t, p))
  {
    if Oldest(t.rows, p).Some? {
      DeleteValid(t, Oldest(t.rows, p).value.id);
    }
  }

  lemma {:induction false} ViewAppend<T>(rows: seq<Row<T>>, r: Row<T>, l: T -> bool)
    ensures View(rows + [r], l) == View(rows, l) + (if l(r.data) then [r.data] else [])
  {
    if rows == [] {
      assert [r][1..] == [];
    } else {
      ViewAppend(rows[1..], r, l);
      assert (rows + [r])[1..] == rows[1..] + [r];
    }
  }

  lemma {:induction false} ViewNone<T>(rows: seq<Row<T>>, l: T -> bool)
    requires forall r :: r in rows ==> !l(r.data)
    ensures View(rows, l) == []
  {
    if rows != [] {
      assert rows[0] in rows;
      ViewNone(rows[1..], l);
    }
  }

  /** What a dequeue with filter `p` does to a lane that respects it: it hands out the lane's
      first element, or leaves the lane alone; and it finds nothing only when the lane, if a
      candidate, is empty. */
  lemma {:induction false} TakeView<T(!new)>(t: Table<T>, p: T -> bool, l: T -> bool)
    requires Valid(t) && Respects(p, l)
    ensures var o := Oldest(t.rows, p);
            if o.Some? && l(o.value.data) then View(t.rows, l) == [o.value.data] + View(Take(t, p).rows, l)
            else View(t.rows, l) == View(Take(t, p).rows, l)
                 && (o.None? && (forall d :: l(d) ==> p(d)) ==> View(t.rows, l) == [])
    decreases |t.rows|
  {
    if t.rows != [] {
      var rest := t.(rows := t.rows[1..]);
      RestValid(t);
      hide Valid;
      if p(t.rows[0].data) {
        DeleteAbsent(t.rows[1..], t.rows[0].id);
      } else {
        TakeView(rest, p, l);
        OldestIsLeast(rest, p);
      }
    }
  }

  /** The data that a dequeue with filter `p` hands out. */
  function Taken<T>(t: Table<T>, p: T -> bool): Option<T> {
    match Oldest(t.rows, p)
    case None => None
    case Some(r) => Some(r.data)
  }

  /** `got` is the head of the part, and leaves it; or the part is empty, and nothing changes. */
  ghost predicate HandsOutHead<T>(before: Table<T>, after: Table<T>, got: Option<T>, part: T -> bool) {
    var v := View(before.rows, part);
    if v == [] then got.None? && after == before else got == Some(v[0]) && View(after.rows, part) == v[1..]
  }

  /** A lane loses `got` from its front if that is of the lane, and nothing else. */
  ghost predicate LosesOnly<T>(before: Table<T>, after: Table<T>, got: Option<T>, lane: T -> bool) {
    View(before.rows, lane) == (if got.Some? && lane(got.value) then [got.value] else []) + View(after.rows, lane)
  }

  /** A dequeue with filter `p` hands out the head of the part that `p` selects. */
  lemma {:induction false} TakeHead<T(!new)>(t: Table<T>, p: T -> bool, part: T -> bool)
    requires Valid(t) && forall d :: part(d) <==> p(d)
    ensures HandsOutHead(t, Take(t, p), Taken(t, p), part)
  {
    OldestIsLeast(t, p);
    TakeView(t, p, part);
    if Oldest(t.rows, p).None? {
      assert Respects(p, part);
    }
  }

  lemma {:induction false} TakeLane<T(!new)>(t: Table<T>, p: T -> bool, lane: T -> bool)
    requires Valid(t) && Respects(p, lane)
    ensures LosesOnly(t, Take(t, p), Taken(t, p), lane)
  {
    TakeView(t, p, lane);
  }

  /** An insert goes to the end of the lanes that hold it, and leaves the others alone. */
  lemma {:induction false} InsertLane<T>(t: Table<T>, d: T, lane: T -> bool)
    ensures View(Insert(t, d).rows, lane) == View(t.rows, lane) + if lane(d) then [d] else []
  {
    ViewAppend(t.rows, Row(t.next, d), lane);
  }

  /** Two steps of a conservation law compose. */
  lemma {:induction false} Compose<T>(before: seq<T>, in1: seq<T>, out1: seq<T>, mid: seq<T>, in2: seq<T>,
      out2: seq<T>, after: seq<T>)
    requires before + in1 == out1 + mid && mid + in2 == out2 + after
    ensures before + (in1 + in2) == (out1 + out2) + after
  {
    assert before + (in1 + in2) == (before + in1) + in2;
    assert (out1 + mid) + in2 == out1 + (mid + in2);
    assert out1 + (out2 + after) == (out1 + out2) + after;
  }
}
