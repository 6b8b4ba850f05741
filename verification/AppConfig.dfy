/** App Configuration stores, key-values and snapshots (internal/store/app_observe.go). A SQLite
    table with a primary key is a map from that key to the other columns. */
module AppConfig {
  import opened Outcomes
  import opened Text
  import opened Listings

  datatype StoreId = StoreId(subscription: string, group: string, name: string)
  /** `tag` is the label column. */
  datatype KvKey = KvKey(store: string, key: string, tag: string)
  datatype SnapId = SnapId(store: string, name: string)
  datatype SnapKvKey = SnapKvKey(store: string, snapshot: string, key: string, tag: string)
  datatype Snap = Snap(status: string, createdAt: string)
  datatype Kv = Kv(store: string, key: string, tag: string, value: string)

  datatype Tables = Tables(
    stores: map<StoreId, string>,
    kvs: map<KvKey, string>,
    flags: map<SnapId, string>,
    snapshots: map<SnapId, Snap>,
    snapKvs: map<SnapKvKey, string>)

  /** A key-value inside one store or one snapshot. */
  datatype Item = Item(key: string, tag: string)

  /** The key-values of a store now. */
  function Live(kvs: map<KvKey, string>, store: string): map<Item, string> {
    map k | k in kvs && k.store == store :: Item(k.key, k.tag) := kvs[k]
  }

  /** The key-values that a snapshot reads back. */
  function Captured(rows: map<SnapKvKey, string>, id: SnapId): map<Item, string> {
    map r | r in rows && r.store == id.store && r.snapshot == id.name :: Item(r.key, r.tag) := rows[r]
  }

  /** Captured rows exist only under a snapshot. */
  ghost predicate Valid(t: Tables) {
    forall r :: r in t.snapKvs ==> SnapId(r.store, r.snapshot) in t.snapshots
  }

  predicate Matches(k: Item, keyFilter: string, labelFilter: string) {
    (keyFilter == "" || k.key == keyFilter) && (labelFilter == "" || k.tag == labelFilter)
  }

  /** `list` holds the rows of `m` that pass the filters, each once. */
  ghost predicate ListsExactly(list: seq<Kv>, store: string, m: map<Item, string>,
      keyFilter: string, labelFilter: string) {
    && Distinct(list)
    && (forall row :: row in list ==> Lists(row, store, m, keyFilter, labelFilter))
    && (forall row :: Lists(row, store, m, keyFilter, labelFilter) ==> row in list)
  }

  /** No two rows with one key and label. */
  ghost predicate Distinct(list: seq<Kv>) {
    forall i, j :: 0 <= i < j < |list| ==> ItemOf(list[i]) != ItemOf(list[j])
  }

  function ItemOf(row: Kv): Item {
    Item(row.key, row.tag)
  }

  ghost predicate Lists(row: Kv, store: string, m: map<Item, string>, keyFilter: string, labelFilter: string) {
    var k := ItemOf(row);
    row.store == store && k in m && Matches(k, keyFilter, labelFilter) && row.value == m[k]
  }

  // ------------------------------ What each call does ------------------------------

  datatype Op =
    | PutStore(id: StoreId, location: string)
    | SetKv(store: string, key: string, tag: string, value: string)
    | SetFlag(store: string, name: string, flag: string)
    | PutSnapshot(store: string, name: string, status: string, now: string)
    | Delete(id: StoreId)

  function Ready(status: string): string {
    if status == "" then "ready" else status
  }

  function Without(t: Tables, id: StoreId): Tables {
    Tables(t.stores - {id},
           map k | k in t.kvs && k.store != id.name :: t.kvs[k],
           map k | k in t.flags && k.store != id.name :: t.flags[k],
           map k | k in t.snapshots && k.store != id.name :: t.snapshots[k],
           map k | k in t.snapKvs && k.store != id.name :: t.snapKvs[k])
  }

  /** The rows of a new snapshot. */
  function Copies(kvs: map<KvKey, string>, id: SnapId): map<SnapKvKey, string> {
    map k | k in kvs && k.store == id.store :: SnapKvKey(id.store, id.name, k.key, k.tag) := kvs[k]
  }

  /** The tables after a call, and whether it reports success. */
  function Apply(t: Tables, op: Op): (Tables, bool) {
    match op
    case PutStore(id, location) => (t.(stores := t.stores[id := location]), true)
    case SetKv(store, key, tag, value) =>
      if store == "" || key == "" then (t, false) else (t.(kvs := t.kvs[KvKey(store, key, tag) := value]), true)
    case SetFlag(store, name, flag) => (t.(flags := t.flags[SnapId(store, name) := flag]), true)
    case PutSnapshot(store, name, status, now) =>
      var id := SnapId(store, name);
      if id in t.snapshots then (t.(snapshots := t.snapshots[id := t.snapshots[id].(status := Ready(status))]), true)
      else
        (t.(snapshots := t.snapshots[id := Snap(Ready(status), now)],
            snapKvs := t.snapKvs + Copies(t.kvs, id)), true)
    case Delete(id) => if id in t.stores then (Without(t, id), true) else (t, false)
  }

  // ---------------------------------- The store ----------------------------------

  class Store {
    var stores: map<StoreId, string>
    var kvs: map<KvKey, string>
    var flags: map<SnapId, string>
    var snapshots: map<SnapId, Snap>
    var snapKvs: map<SnapKvKey, string>

    constructor ()
      ensures State() == Tables(map[], map[], map[], map[], map[])
    {
      stores, kvs, flags, snapshots, snapKvs := map[], map[], map[], map[], map[];
    }

    ghost function State(): Tables
      reads this
    {
      Tables(stores, kvs, flags, snapshots, snapKvs)
    }

    method SetAppConfigKV(store: string, key: string, tag: string, value: string) returns (ok: bool)
      modifies this
      ensures (State(), ok) == Apply(old(State()), SetKv(store, key, tag, value))
    {
      if store == "" || key == "" { return false; }
      kvs := kvs[KvKey(store, key, tag) := value];
      ok := true;
    }

    method ListAppConfigKV(store: string, keyFilter: string) returns (list: seq<Kv>)
      ensures ListsExactly(list, store, Live(kvs, store), keyFilter, "") && Sorted(list, KeyOrder)
    {
      list := Rows(store, Live(kvs, store), keyFilter, "");
    }

    /** No label filter: all labels. */
    method ListAppConfigSnapshotKV(store: string, snapshot: string, labelFilter: string) returns (list: seq<Kv>)
      ensures ListsExactly(list, store, Captured(snapKvs, SnapId(store, snapshot)), "", labelFilter)
      ensures Sorted(list, KeyOrder)
    {
      list := Rows(store, Captured(snapKvs, SnapId(store, snapshot)), "", labelFilter);
    }

    /** INSERT, which fails on a row with the same primary key. */
    method InsertSnapshotKv(row: SnapKvKey, value: string) returns (ok: bool)
      modifies this`snapKvs
      ensures ok == (row !in old(snapKvs))
      ensures snapKvs == if ok then old(snapKvs)[row := value] else old(snapKvs)
    {
      if row in snapKvs { return false; }
      snapKvs := snapKvs[row := value];
      ok := true;
    }

    /** A new snapshot copies the key-values row by row; an existing one only changes status. */
    method UpsertAppConfigSnapshot(store: string, name: string, status: string, now: string) returns (ok: bool)
      requires Valid(State())
      modifies this
      ensures (State(), ok) == Apply(old(State()), PutSnapshot(store, name, status, now))
    {
      var st := if status == "" then "ready" else status;
      var id := SnapId(store, name);
      if id in snapshots {
        snapshots := snapshots[id := snapshots[id].(status := st)];
        return true;
      }
      snapshots := snapshots[id := Snap(st, now)];
      var rows := ListAppConfigKV(store, "");
      AllCopied(rows, kvs, id);
      ok := CopyRows(rows, id);
    }

    method CopyRows(rows: seq<Kv>, id: SnapId) returns (ok: bool)
      requires Distinct(rows) && forall i :: 0 <= i < |rows| ==> RowOf(rows[i], id) !in snapKvs
      modifies this`snapKvs
      ensures ok && snapKvs == old(snapKvs) + CopiesOf(rows, id)
    {
      ok := true;
      for i := 0 to |rows|
        invariant ok && snapKvs == old(snapKvs) + CopiesOf(rows[..i], id)
      {
        CopiedOnce(rows, i, id);
        assert rows[..i + 1][..i] == rows[..i];
        ok := InsertSnapshotKv(RowOf(rows[i], id), rows[i].value);
        if !ok { return; }
      }
      assert rows[..|rows|] == rows;
    }

    /** One transaction, rolled back when no store row matches. */
    method DeleteAppConfig(id: StoreId) returns (ok: bool)
      modifies this
      ensures (State(), ok) == Apply(old(State()), Delete(id))
    {
      var kvs0, flags0, snapshots0, snapKvs0 := kvs, flags, snapshots, snapKvs;
      snapKvs := map k | k in snapKvs && k.store != id.name :: snapKvs[k];
      snapshots := map k | k in snapshots && k.store != id.name :: snapshots[k];
      flags := map k | k in flags && k.store != id.name :: flags[k];
      kvs := map k | k in kvs && k.store != id.name :: kvs[k];
      if id !in stores {
        kvs, flags, snapshots, snapKvs := kvs0, flags0, snapshots0, snapKvs0;
        return false;
      }
      stores := stores - {id};
      ok := true;
    }
  }

  /** ORDER BY key, label */
  predicate KeyOrder(a: Kv, b: Kv) {
    Less(a.key, b.key) || (a.key == b.key && AtMost(a.tag, b.tag))
  }

  lemma {:induction false} KeyOrderIsOrder()
    ensures IsOrder(KeyOrder)
  {
    forall a, b ensures KeyOrder(a, b) || KeyOrder(b, a) {
      LessTotal(a.key, b.key);
      LessTotal(a.tag, b.tag);
    }
    forall a, b, c | KeyOrder(a, b) && KeyOrder(b, c) ensures KeyOrder(a, c) {
      if Less(a.key, b.key) && Less(b.key, c.key) {
        LessTransitive(a.key, b.key, c.key);
      }
      if Less(a.tag, b.tag) && Less(b.tag, c.tag) {
        LessTransitive(a.tag, b.tag, c.tag);
      }
    }
  }

  /** The rows of a query, ordered by key and label. */
  method Rows(store: string, m: map<Item, string>, keyFilter: string, labelFilter: string) returns (list: seq<Kv>)
    ensures ListsExactly(list, store, m, keyFilter, labelFilter) && Sorted(list, KeyOrder)
  {
    KeyOrderIsOrder();
    list := [];
    var left := m.Keys;
    ghost var done: map<Item, string> := map[];
    while left != {}
      invariant left <= m.Keys && done == m - left && Sorted(list, KeyOrder)
      invariant ListsExactly(list, store, done, keyFilter, labelFilter)
    {
      var k :| k in left;
      var row := Kv(store, k.key, k.tag, m[k]);
      ListOne(list, store, done, k, m[k], keyFilter, labelFilter, Place(list, row, KeyOrder));
      if (keyFilter == "" || k.key == keyFilter) && (labelFilter == "" || k.tag == labelFilter) {
        InsertedSorted(list, row, KeyOrder);
        list := Inserted(list, row, KeyOrder);
      }
      left, done := left - {k}, done[k := m[k]];
    }
    assert m - {} == m;
  }

  lemma {:induction false} PutDistinct(list: seq<Kv>, row: Kv, at: nat)
    requires Distinct(list) && at <= |list| && forall x :: x in list ==> ItemOf(x) != ItemOf(row)
    ensures Distinct(list[..at] + [row] + list[at..])
  {
    var longer := list[..at] + [row] + list[at..];
    forall i, j | 0 <= i < j < |longer| ensures ItemOf(longer[i]) != ItemOf(longer[j]) {
      if i != at {
        assert longer[i] == list[if i < at then i else i - 1];
      }
      if j != at {
        assert longer[j] == list[if j < at then j else j - 1];
      }
    }
  }

  lemma {:induction false} PutHas(list: seq<Kv>, row: Kv, at: nat, x: Kv)
    requires at <= |list|
    ensures x in list[..at] + [row] + list[at..] <==> x == row || x in list
  {
    assert list == list[..at] + list[at..];
  }

  /** One more key, its row put anywhere. */
  lemma {:induction false} ListOne(list: seq<Kv>, store: string, done: map<Item, string>, k: Item, value: string,
      keyFilter: string, labelFilter: string, at: nat)
    requires k !in done && at <= |list| && ListsExactly(list, store, done, keyFilter, labelFilter)
    ensures var row := Kv(store, k.key, k.tag, value);
            var longer := if Matches(k, keyFilter, labelFilter) then list[..at] + [row] + list[at..] else list;
            ListsExactly(longer, store, done[k := value], keyFilter, labelFilter)
  {
    var row := Kv(store, k.key, k.tag, value);
    if Matches(k, keyFilter, labelFilter) {
      PutDistinct(list, row, at);
      forall x ensures x in list[..at] + [row] + list[at..] <==> x == row || x in list {
        PutHas(list, row, at, x);
      }
    }
  }

  function RowOf(kv: Kv, id: SnapId): SnapKvKey {
    SnapKvKey(id.store, id.name, kv.key, kv.tag)
  }

  /** The rows inserted for a list of key-values. */
  function CopiesOf(list: seq<Kv>, id: SnapId): map<SnapKvKey, string> {
    if list == [] then map[]
    else CopiesOf(list[..|list| - 1], id)[RowOf(list[|list| - 1], id) := list[|list| - 1].value]
  }

  lemma {:induction false} CopiesOfKeys(list: seq<Kv>, id: SnapId, r: SnapKvKey)
    ensures r in CopiesOf(list, id) ==>
              exists i :: 0 <= i < |list| && r == RowOf(list[i], id) && CopiesOf(list, id)[r] == list[i].value
    ensures (exists i :: 0 <= i < |list| && r == RowOf(list[i], id)) ==> r in CopiesOf(list, id)
  {
    if list != [] {
      var init := list[..|list| - 1];
      CopiesOfKeys(init, id, r);
      if r in CopiesOf(list, id) && r != RowOf(list[|list| - 1], id) {
        var i :| 0 <= i < |init| && r == RowOf(init[i], id) && CopiesOf(init, id)[r] == init[i].value;
        assert r == RowOf(list[i], id) && CopiesOf(list, id)[r] == list[i].value;
      }
      if exists i :: 0 <= i < |list| && r == RowOf(list[i], id) {
        var i :| 0 <= i < |list| && r == RowOf(list[i], id);
        if i < |init| {
          assert r == RowOf(init[i], id);
        }
      }
    }
  }

  /** So no INSERT of the loop finds its row taken. */
  lemma {:induction false} CopiedOnce(list: seq<Kv>, i: nat, id: SnapId)
    requires i < |list| && Distinct(list)
    ensures RowOf(list[i], id) !in CopiesOf(list[..i], id)
  {
    CopiesOfKeys(list[..i], id, RowOf(list[i], id));
  }

  /** The loop inserts one row for every key-value of the store. */
  lemma {:induction false} AllCopied(list: seq<Kv>, kvs: map<KvKey, string>, id: SnapId)
    requires ListsExactly(list, id.store, Live(kvs, id.store), "", "")
    ensures Distinct(list) && CopiesOf(list, id) == Copies(kvs, id)
  {
    var live := Live(kvs, id.store);
    forall r | r in CopiesOf(list, id) ensures r in Copies(kvs, id) && Copies(kvs, id)[r] == CopiesOf(list, id)[r] {
      CopiesOfKeys(list, id, r);
      var i :| 0 <= i < |list| && r == RowOf(list[i], id) && CopiesOf(list, id)[r] == list[i].value;
      assert Lists(list[i], id.store, live, "", "");
      assert KvKey(id.store, r.key, r.tag) in kvs;
    }
    forall r | r in Copies(kvs, id) ensures r in CopiesOf(list, id) {
      var k := Item(r.key, r.tag);
      assert k in live && Matches(k, "", "");
      assert Kv(id.store, k.key, k.tag, live[k]) in list;
      CopiesOfKeys(list, id, r);
    }
  }

  // ------------------------------------ Runs ------------------------------------

  function Run(t: Tables, ops: seq<Op>): Tables
    decreases |ops|
  {
    if ops == [] then t else Run(Apply(t, ops[0]).0, ops[1..])
  }

  /** A delete that finds its store row deletes everything under the store's name. */
  predicate Deletes(t: Tables, op: Op, store: string) {
    op.Delete? && op.id.name == store && op.id in t.stores
  }

  predicate DeletedIn(t: Tables, ops: seq<Op>, store: string)
    decreases |ops|
  {
    ops != [] && (Deletes(t, ops[0], store) || DeletedIn(Apply(t, ops[0]).0, ops[1..], store))
  }

  lemma {:induction false} ApplyValid(t: Tables, op: Op)
    requires Valid(t)
    ensures Valid(Apply(t, op).0)
  {
  }

  /** Creating a snapshot captures the key-values of that moment. */
  lemma {:induction false} CreationCaptures(t: Tables, op: Op)
    requires Valid(t) && op.PutSnapshot? && SnapId(op.store, op.name) !in t.snapshots
    ensures var id := SnapId(op.store, op.name); var next := Apply(t, op).0;
            id in next.snapshots && Captured(next.snapKvs, id) == Live(t.kvs, op.store)
  {
    var id := SnapId(op.store, op.name);
    var got, want := Captured(Apply(t, op).0.snapKvs, id), Live(t.kvs, op.store);
    forall k | k in want ensures k in got && got[k] == want[k] {
      assert KvKey(op.store, k.key, k.tag) in t.kvs;
      assert SnapKvKey(op.store, op.name, k.key, k.tag) in Copies(t.kvs, id);
    }
    forall k | k in got ensures k in want {
      assert SnapKvKey(op.store, op.name, k.key, k.tag) in Copies(t.kvs, id);
    }
  }

  lemma {:induction false} OtherRowsStay(t: Tables, op: Op, id: SnapId, r: SnapKvKey)
    requires Valid(t) && id in t.snapshots && !Deletes(t, op, id.store) && r.store == id.store && r.snapshot == id.name
    ensures SameRow(t.snapKvs, Apply(t, op).0.snapKvs, r)
  {
  }

  /** No other call reaches a snapshot's rows, except a delete of its store name. */
  lemma {:induction false} StepFrozen(t: Tables, op: Op, id: SnapId)
    requires Valid(t) && id in t.snapshots && !Deletes(t, op, id.store)
    ensures var next := Apply(t, op).0; id in next.snapshots && Captured(next.snapKvs, id) == Captured(t.snapKvs, id)
  {
    hide Valid, Captured, SameRow;
    var before, after := t.snapKvs, Apply(t, op).0.snapKvs;
    forall r: SnapKvKey | r.store == id.store && r.snapshot == id.name ensures SameRow(before, after, r) {
      OtherRowsStay(t, op, id, r);
    }
    SameCapture(before, after, id);
  }

  ghost predicate SameRow(before: map<SnapKvKey, string>, after: map<SnapKvKey, string>, r: SnapKvKey) {
    (r in before <==> r in after) && (r in before ==> before[r] == after[r])
  }

  lemma {:induction false} SameCapture(before: map<SnapKvKey, string>, after: map<SnapKvKey, string>, id: SnapId)
    requires forall r: SnapKvKey :: r.store == id.store && r.snapshot == id.name ==> SameRow(before, after, r)
    ensures Captured(before, id) == Captured(after, id)
  {
    forall k: Item ensures k in Captured(before, id) <==> k in Captured(after, id) {
      assert SameRow(before, after, SnapKvKey(id.store, id.name, k.key, k.tag));
    }
    forall k | k in Captured(before, id) ensures Captured(before, id)[k] == Captured(after, id)[k] {
      assert SameRow(before, after, SnapKvKey(id.store, id.name, k.key, k.tag));
    }
  }

  /** Over every run in which its store name is not deleted, a snapshot reads back the same. */
  lemma {:induction false} RunFrozen(t: Tables, ops: seq<Op>, id: SnapId)
    requires Valid(t) && id in t.snapshots && !DeletedIn(t, ops, id.store)
    ensures id in Run(t, ops).snapshots && Captured(Run(t, ops).snapKvs, id) == Captured(t.snapKvs, id)
    decreases |ops|
  {
    if ops != [] {
      StepFrozen(t, ops[0], id);
      ApplyValid(t, ops[0]);
      RunFrozen(Apply(t, ops[0]).0, ops[1..], id);
    }
  }

  /** From its first PUT on, whatever key-values are written and however often the snapshot is PUT
      again, it reads back exactly the key-values present when it was created, until a delete
      finds a store of that name. */
  lemma {:induction false} SnapshotIsFrozen(t: Tables, put: Op, ops: seq<Op>)
    requires Valid(t) && put.PutSnapshot? && SnapId(put.store, put.name) !in t.snapshots
    requires !DeletedIn(Apply(t, put).0, ops, put.store)
    ensures Captured(Run(Apply(t, put).0, ops).snapKvs, SnapId(put.store, put.name)) == Live(t.kvs, put.store)
  {
    CreationCaptures(t, put);
    ApplyValid(t, put);
    RunFrozen(Apply(t, put).0, ops, SnapId(put.store, put.name));
  }

  lemma {:induction false} DeletedRows(t: Tables, id: StoreId, r: SnapKvKey, k: KvKey)
    ensures r in Without(t, id).snapKvs <==> r in t.snapKvs && r.store != id.name
    ensures r in Without(t, id).snapKvs ==> Without(t, id).snapKvs[r] == t.snapKvs[r]
    ensures k in Without(t, id).kvs <==> k in t.kvs && k.store != id.name
    ensures k in Without(t, id).kvs ==> Without(t, id).kvs[k] == t.kvs[k]
  {
  }

  ghost predicate Gone(t: Tables, snap: SnapId) {
    snap !in t.snapshots && Captured(t.snapKvs, snap) == map[] && Live(t.kvs, snap.store) == map[]
  }

  ghost predicate Kept(t: Tables, next: Tables, snap: SnapId) {
    && (snap in next.snapshots <==> snap in t.snapshots) && Captured(next.snapKvs, snap) == Captured(t.snapKvs, snap)
    && Live(next.kvs, snap.store) == Live(t.kvs, snap.store)
  }

  lemma {:induction false} SameNameGoes(t: Tables, id: StoreId, snap: SnapId)
    requires snap.store == id.name
    ensures Gone(Without(t, id), snap)
  {
    var next := Without(t, id);
    forall k: Item ensures k !in Captured(next.snapKvs, snap) && k !in Live(next.kvs, snap.store) {
      DeletedRows(t, id, SnapKvKey(snap.store, snap.name, k.key, k.tag), KvKey(snap.store, k.key, k.tag));
    }
  }

  lemma {:induction false} OtherNamesStay(t: Tables, id: StoreId, snap: SnapId)
    requires snap.store != id.name
    ensures Kept(t, Without(t, id), snap)
  {
    var next := Without(t, id);
    forall r: SnapKvKey | r.store == snap.store && r.snapshot == snap.name
      ensures SameRow(t.snapKvs, next.snapKvs, r)
    {
      DeletedRows(t, id, r, KvKey("", "", ""));
    }
    SameCapture(t.snapKvs, next.snapKvs, snap);
    SameLive(t, id, snap);
  }

  lemma {:induction false} SameLive(t: Tables, id: StoreId, snap: SnapId)
    requires snap.store != id.name
    ensures Live(Without(t, id).kvs, snap.store) == Live(t.kvs, snap.store)
  {
    var live, next := Live(t.kvs, snap.store), Live(Without(t, id).kvs, snap.store);
    forall k: Item ensures (k in live <==> k in next) && (k in live ==> live[k] == next[k]) {
      DeletedRows(t, id, SnapKvKey("", "", "", ""), KvKey(snap.store, k.key, k.tag));
    }
  }

  /** A delete that finds its row leaves nothing under the store's name, even what belongs to a
      store of that name in another subscription or group, and everything under other names; one
      that does not find it changes nothing. */
  lemma {:induction false} DeleteIsByName(t: Tables, id: StoreId, snap: SnapId)
    ensures var (next, ok) := Apply(t, Delete(id));
            if id !in t.stores then !ok && next == t
            else if snap.store == id.name then ok && Gone(next, snap)
            else ok && Kept(t, next, snap)
  {
    hide Without, Gone, Kept;
    if id in t.stores {
      if snap.store == id.name {
        SameNameGoes(t, id, snap);
      } else {
        OtherNamesStay(t, id, snap);
      }
    }
  }
}
