/** What the App Configuration listings show, read off the calls made before: a key-value lists with
    what was last written under its key and label, a snapshot with what was written when it was
    first PUT. */
module AppConfigHistory {
  import opened Outcomes
  import opened Text
  import opened AppConfig

  const EMPTY := Tables(map[], map[], map[], map[], map[])

  /** The store row was last put, and not deleted since. */
  predicate StoreThere(calls: seq<Op>, id: StoreId)
    decreases |calls|
  {
    if calls == [] then false
    else
      var call, before := calls[|calls| - 1], calls[..|calls| - 1];
      match call
      case PutStore(put, _) => put == id || StoreThere(before, id)
      case Delete(gone) => gone != id && StoreThere(before, id)
      case _ => StoreThere(before, id)
  }

  /** The call deletes a store of this name that is there: everything under the name goes. */
  predicate Clears(call: Op, before: seq<Op>, store: string) {
    call.Delete? && call.id.name == store && StoreThere(before, call.id)
  }

  /** The value last written under the key and label, unless the name was cleared since. */
  function LastWritten(calls: seq<Op>, store: string, key: string, tag: string): Option<string>
    decreases |calls|
  {
    if calls == [] then None
    else
      var call, before := calls[|calls| - 1], calls[..|calls| - 1];
      if call.SetKv? && call.store == store && call.key == key && call.tag == tag && store != "" && key != ""
      then Some(call.value)
      else if Clears(call, before, store) then None
      else LastWritten(before, store, key, tag)
  }

  /** What a PUT asks the status to be: without one, "ready". */
  predicate Asks(status: string, becomes: string) {
    becomes == if status != "" then status else "ready"
  }

  /** The status that the last PUT of a snapshot asked for. */
  ghost predicate LastStatus(calls: seq<Op>, id: SnapId, status: string)
    decreases |calls|
  {
    calls != [] &&
    var call, before := calls[|calls| - 1], calls[..|calls| - 1];
    if call.PutSnapshot? && call.store == id.store && call.name == id.name then Asks(call.status, status)
    else !Clears(call, before, id.store) && LastStatus(before, id, status)
  }

  lemma {:induction false} RunSnoc(t: Tables, calls: seq<Op>, call: Op)
    ensures Run(t, calls + [call]) == Apply(Run(t, calls), call).0
    decreases |calls|
  {
    hide Apply;
    if calls == [] {
      assert [call][1..] == [];
    } else {
      assert (calls + [call])[1..] == calls[1..] + [call];
      RunSnoc(Apply(t, calls[0]).0, calls[1..], call);
    }
  }

  /** The last call of a run, and the tables before it. */
  lemma {:induction false} LastCall(calls: seq<Op>)
    requires calls != []
    ensures Run(EMPTY, calls) == Apply(Run(EMPTY, calls[..|calls| - 1]), calls[|calls| - 1]).0
  {
    assert calls == calls[..|calls| - 1] + [calls[|calls| - 1]];
    RunSnoc(EMPTY, calls[..|calls| - 1], calls[|calls| - 1]);
  }

  lemma {:induction false} AlwaysValid(calls: seq<Op>)
    ensures Valid(Run(EMPTY, calls))
    decreases |calls|
  {
    if calls != [] {
      var before := calls[..|calls| - 1];
      AlwaysValid(before);
      LastCall(calls);
      ApplyValid(Run(EMPTY, before), calls[|calls| - 1]);
      hide Run, Apply, Valid;
    }
  }

  lemma {:induction false} StoreStep(t: Tables, call: Op, id: StoreId)
    ensures id in Apply(t, call).0.stores <==>
              (call.PutStore? && call.id == id) || (id in t.stores && call != Delete(id))
  {
  }

  function At<K, V>(m: map<K, V>, k: K): Option<V> {
    if k in m then Some(m[k]) else None
  }

  lemma {:induction false} ValueStep(t: Tables, call: Op, k: KvKey)
    ensures At(Apply(t, call).0.kvs, k) ==
              if call.SetKv? && KvKey(call.store, call.key, call.tag) == k && k.store != "" && k.key != ""
              then Some(call.value)
              else if call.Delete? && call.id in t.stores && call.id.name == k.store then None
              else At(t.kvs, k)
  {
  }

  /** The status in a snapshot's row. */
  function StatusOf(snap: Option<Snap>): Option<string> {
    if snap.Some? then Some(snap.value.status) else None
  }

  lemma {:induction false} StatusStep(t: Tables, call: Op, id: SnapId)
    ensures StatusOf(At(Apply(t, call).0.snapshots, id)) ==
              if call.PutSnapshot? && SnapId(call.store, call.name) == id then
                Some(if call.status != "" then call.status else "ready")
              else if call.Delete? && call.id in t.stores && call.id.name == id.store then None
              else StatusOf(At(t.snapshots, id))
  {
  }

  lemma {:induction false} StoresAre(calls: seq<Op>, id: StoreId)
    ensures id in Run(EMPTY, calls).stores <==> StoreThere(calls, id)
    decreases |calls|
  {
    if calls != [] {
      var before := calls[..|calls| - 1];
      hide Run, Apply;
      LastCall(calls);
      StoresAre(before, id);
      StoreStep(Run(EMPTY, before), calls[|calls| - 1], id);
    }
  }

  lemma {:induction false} ValuesAre(calls: seq<Op>, k: KvKey)
    ensures LastWritten(calls, k.store, k.key, k.tag) == At(Run(EMPTY, calls).kvs, k)
    decreases |calls|
  {
    if calls == [] {
      assert At(EMPTY.kvs, k) == None;
    } else {
      var call, before := calls[|calls| - 1], calls[..|calls| - 1];
      hide Run, Apply, At, StoreThere;
      LastCall(calls);
      ValuesAre(before, k);
      ValueStep(Run(EMPTY, before), call, k);
      if call.Delete? {
        StoresAre(before, call.id);
      }
    }
  }

  /** In every run from empty tables: a status is what the last PUT of the snapshot asked for. */
  lemma {:induction false} StatusIff(calls: seq<Op>, id: SnapId, status: string)
    ensures StatusOf(At(Run(EMPTY, calls).snapshots, id)) == Some(status) <==> LastStatus(calls, id, status)
    decreases |calls|
  {
    if calls == [] {
      assert At(EMPTY.snapshots, id) == None;
    } else {
      var call, before := calls[|calls| - 1], calls[..|calls| - 1];
      hide Run, Apply, At, StoreThere, StatusOf;
      LastCall(calls);
      StatusIff(before, id, status);
      StatusStep(Run(EMPTY, before), call, id);
      if call.Delete? {
        StoresAre(before, call.id);
      }
    }
  }

  /** In every run from empty tables: a key-value is listed exactly when it was the last written
      under its key and label, and passes the filter. */
  lemma {:induction false} ListedIff(calls: seq<Op>, list: seq<Kv>, row: Kv, keyFilter: string)
    requires ListsExactly(list, row.store, Live(Run(EMPTY, calls).kvs, row.store), keyFilter, "")
    ensures row in list <==>
              LastWritten(calls, row.store, row.key, row.tag) == Some(row.value)
              && (keyFilter == "" || keyFilter == row.key)
  {
    ValuesAre(calls, KvKey(row.store, row.key, row.tag));
    ListedRow(Run(EMPTY, calls).kvs, list, row, keyFilter);
  }

  lemma {:induction false} ListedRow(kvs: map<KvKey, string>, list: seq<Kv>, row: Kv, keyFilter: string)
    requires ListsExactly(list, row.store, Live(kvs, row.store), keyFilter, "")
    ensures var k := KvKey(row.store, row.key, row.tag);
            row in list <==> k in kvs && kvs[k] == row.value && (keyFilter == "" || keyFilter == row.key)
  {
    var live := Live(kvs, row.store);
    InLive(kvs, KvKey(row.store, row.key, row.tag));
    assert row in list <==> Lists(row, row.store, live, keyFilter, "");
  }

  lemma {:induction false} InLive(kvs: map<KvKey, string>, k: KvKey)
    ensures var live, item := Live(kvs, k.store), Item(k.key, k.tag);
            (item in live <==> k in kvs) && (item in live ==> live[item] == kvs[k])
  {
  }

  /** And in a snapshot, however its key-values change and however often it is PUT again, exactly
      when it was the last written before the first PUT, and passes the label filter. */
  lemma {:induction false} SnapshotListedIff(calls: seq<Op>, put: Op, more: seq<Op>, list: seq<Kv>, row: Kv,
      labelFilter: string)
    requires put.PutSnapshot? && put.store == row.store
    requires forall status :: !LastStatus(calls, SnapId(put.store, put.name), status)
    requires !DeletedIn(Apply(Run(EMPTY, calls), put).0, more, put.store)
    requires var end := Run(Apply(Run(EMPTY, calls), put).0, more);
             ListsExactly(list, row.store, Captured(end.snapKvs, SnapId(put.store, put.name)), "", labelFilter)
    ensures row in list <==>
              LastWritten(calls, row.store, row.key, row.tag) == Some(row.value)
              && (labelFilter == "" || labelFilter == row.tag)
  {
    var t := Run(EMPTY, calls);
    var id := SnapId(put.store, put.name);
    if id in t.snapshots {
      StatusIff(calls, id, t.snapshots[id].status);
      assert false;
    }
    AlwaysValid(calls);
    SnapshotIsFrozen(t, put, more);
    ValuesAre(calls, KvKey(row.store, row.key, row.tag));
    InLive(t.kvs, KvKey(row.store, row.key, row.tag));
    hide Run, Live, Captured, LastWritten;
    assert row in list <==> Lists(row, row.store, Live(t.kvs, row.store), "", labelFilter);
  }
}
