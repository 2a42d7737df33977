/** The store of pair records: a record is replaced only by one from a later log entry, so batches
    of logs may be handled by goroutines in any order. */
module Storage {
  import opened Evm
  import opened Protocol

  // ---- positions ----

  /** `NeedUpdate`: `new` comes later on the chain than `old`. */
  predicate NeedUpdate(old': LogState, new': LogState) {
    || new'.blockNumber > old'.blockNumber
    || (new'.blockNumber == old'.blockNumber && new'.txIndex > old'.txIndex)
    || (new'.blockNumber == old'.blockNumber && new'.txIndex == old'.txIndex && new'.logIndex > old'.logIndex)
  }

  /** `a` comes before `b` on the chain, in terms of the fields: blocks do not fall, in one block
      transactions do not fall, and in one transaction log entries rise. */
  ghost predicate ComesBefore(a: LogState, b: LogState) {
    && a.blockNumber <= b.blockNumber
    && (a.blockNumber == b.blockNumber ==> a.txIndex <= b.txIndex)
    && (a.blockNumber == b.blockNumber && a.txIndex == b.txIndex ==> a.logIndex < b.logIndex)
  }

  /** `a` is not further along the chain than `b`: no larger block, in the same block no larger
      transaction index, in the same transaction no larger log index. */
  ghost predicate NoLater(a: LogState, b: LogState) {
    && a.blockNumber <= b.blockNumber
    && (a.blockNumber == b.blockNumber ==> a.txIndex <= b.txIndex)
    && (a.blockNumber == b.blockNumber && a.txIndex == b.txIndex ==> a.logIndex <= b.logIndex)
  }

  predicate SamePosition(a: LogState, b: LogState) {
    a.blockNumber == b.blockNumber && a.txIndex == b.txIndex && a.logIndex == b.logIndex
  }

  /** Positions are totally ordered: any two compare, in one way, and the order is transitive. */
  lemma PositionsCompare(a: LogState, b: LogState, c: LogState)
    ensures NeedUpdate(a, b) <==> ComesBefore(a, b)
    ensures NeedUpdate(a, b) <==> !NoLater(b, a)
    ensures NeedUpdate(a, b) && NeedUpdate(b, c) ==> NeedUpdate(a, c)
    ensures NeedUpdate(a, b) || NeedUpdate(b, a) || SamePosition(a, b)
    ensures !(NeedUpdate(a, b) && NeedUpdate(b, a)) && (SamePosition(a, b) ==> !NeedUpdate(a, b))
  {
  }

  // ---- the store ----

  type Store = map<Address, PairRecord>

  function Put(store: Store, key: Address, record: PairRecord): Store {
    if key in store && !NeedUpdate(store[key].update, record.update) then store else store[key := record]
  }

  /** A record is taken if its key is new or the stored one comes before it, and in no other case; other
      keys are left alone. */
  lemma PutTakesLater(store: Store, key: Address, record: PairRecord)
    ensures var after := Put(store, key, record);
      && key in after
      && after[key] == (if key in store && !ComesBefore(store[key].update, record.update) then store[key] else record)
      && (forall a :: a != key ==> (a in after <==> a in store) && (a in store ==> after[a] == store[a]))
  {
  }

  /** Records under their own addresses, one after the other. */
  function PutAll(store: Store, records: seq<PairRecord>): Store
    decreases records
  {
    if records == [] then store else
      var last := records[|records| - 1];
      Put(PutAll(store, records[..|records| - 1]), last.address, last)
  }

  /** Records under given keys, one after the other. */
  function PutKeyed(store: Store, keys: seq<Address>, records: seq<PairRecord>): Store
    requires |keys| == |records|
    decreases records
  {
    if records == [] then store else
      var last := |records| - 1;
      Put(PutKeyed(store, keys[..last], records[..last]), keys[last], records[last])
  }

  function KeysOf(records: seq<PairRecord>): seq<Address> {
    seq(|records|, i requires 0 <= i < |records| => records[i].address)
  }

  class DatasStorage {
    var datas: Store

    constructor ()
      ensures datas == map[]
    {
      datas := map[];
    }

    method Store(keys: seq<Address>, records: seq<PairRecord>)
      modifies this
      ensures datas == if |keys| == |records| then PutKeyed(old(datas), keys, records) else old(datas)
    {
      if |records| == 0 || |keys| != |records| {
        return;
      }
      for i := 0 to |records|
        invariant datas == PutKeyed(old(datas), keys[..i], records[..i])
      {
        assert records[..i + 1][..i] == records[..i] && keys[..i + 1][..i] == keys[..i];
        if keys[i] in datas && !NeedUpdate(datas[keys[i]].update, records[i].update) {
          continue;
        }
        datas := datas[keys[i] := records[i]];
      }
      assert records[..|records|] == records && keys[..|records|] == keys;
    }
  }

  /** Keyed by their own addresses, as every caller does it. */
  lemma {:induction false} KeyedByAddress(store: Store, records: seq<PairRecord>)
    ensures PutKeyed(store, KeysOf(records), records) == PutAll(store, records)
    decreases records
  {
    if records != [] {
      var init := records[..|records| - 1];
      assert KeysOf(records)[..|records| - 1] == KeysOf(init);
      KeyedByAddress(store, init);
    }
  }

  // ---- what the store keeps ----

  /** The record of an address is one that was there before or one of those stored, and none of them
      is later. */
  ghost predicate KeepsLatest(before: Store, records: seq<PairRecord>, after: Store) {
    && (forall a :: a in before ==> a in after && NoLater(before[a].update, after[a].update))
    && (forall r :: r in records ==> r.address in after && NoLater(r.update, after[r.address].update))
    && (forall a :: a in after ==> Origin(before, records, a, after[a]))
  }

  ghost predicate Origin(before: Store, records: seq<PairRecord>, a: Address, r: PairRecord) {
    (a in before && r == before[a]) || (r in records && r.address == a)
  }

  lemma PutKeepsLatest(before: Store, records: seq<PairRecord>, mid: Store, last: PairRecord)
    requires KeepsLatest(before, records, mid)
    ensures KeepsLatest(before, records + [last], Put(mid, last.address, last))
  {
    var all, after := records + [last], Put(mid, last.address, last);
    forall r | r in all
      ensures r.address in after && NoLater(r.update, after[r.address].update)
    {
    }
    forall a | a in after
      ensures Origin(before, all, a, after[a])
    {
      if a in mid {
        assert Origin(before, records, a, mid[a]);
      }
    }
  }

  lemma {:induction false} PutAllKeepsLatest(before: Store, records: seq<PairRecord>)
    ensures KeepsLatest(before, records, PutAll(before, records))
    decreases records
  {
    if records != [] {
      var init, last := records[..|records| - 1], records[|records| - 1];
      PutAllKeepsLatest(before, init);
      PutKeepsLatest(before, init, PutAll(before, init), last);
      assert records == init + [last];
    }
  }

  lemma {:induction false} PutAllConcat(store: Store, a: seq<PairRecord>, b: seq<PairRecord>)
    ensures PutAll(store, a + b) == PutAll(PutAll(store, a), b)
    decreases b
  {
    if b == [] {
      assert a + b == a;
    } else {
      PutAllConcat(store, a, b[..|b| - 1]);
      assert (a + b)[..|a + b| - 1] == a + b[..|b| - 1];
    }
  }

  // ---- logs ----

  /** What unpacking the data of a Sync log yields. */
  datatype Unpacked = Malformed | Reserves(reserve0: nat, reserve1: nat)

  datatype Log = Log(address: Address, isSync: bool, data: Unpacked, blockNumber: nat, txIndex: nat, logIndex: nat)

  datatype Filtered = UnpackError | Datas(datas: Store)

  function RecordOf(log: Log, now: int): PairRecord
    requires log.data.Reserves?
  {
    PairRecord(log.address, 0, 0, log.data.reserve0, log.data.reserve1, false, 30,
               LogState(log.blockNumber, log.txIndex, log.logIndex, now))
  }

  datatype LastSync = NoSync | Last(log: Log)

  /** The last Sync log of an address in a batch. */
  function LastLog(logs: seq<Log>, a: Address): LastSync
    decreases logs
  {
    if logs == [] then NoSync else
      var last := logs[|logs| - 1];
      if last.isSync && last.address == a then Last(last) else LastLog(logs[..|logs| - 1], a)
  }

  /** One record for each address with a Sync log: that of its last one. */
  ghost predicate FilteredFrom(logs: seq<Log>, now: int, datas: Store) {
    forall a: Address ::
      match LastLog(logs, a)
      case NoSync => a !in datas
      case Last(log) => log.data.Reserves? && a in datas && datas[a] == RecordOf(log, now)
  }

  method FilterUniswapV2PairFromLog(logs: seq<Log>, now: int) returns (r: Filtered)
    ensures r == UnpackError <==> exists i :: 0 <= i < |logs| && logs[i].isSync && logs[i].data == Malformed
    ensures r.Datas? ==> FilteredFrom(logs, now, r.datas)
  {
    var datas: Store := map[];
    for n := 0 to |logs|
      invariant forall i :: 0 <= i < n && logs[i].isSync ==> logs[i].data.Reserves?
      invariant FilteredFrom(logs[..n], now, datas)
    {
      var log := logs[n];
      assert logs[..n + 1][..n] == logs[..n];
      if !log.isSync {
        continue;
      }
      if log.data == Malformed {
        return UnpackError;
      }
      datas := datas[log.address := RecordOf(log, now)];
    }
    assert logs[..|logs|] == logs;
    return Datas(datas);
  }

  // ---- convergence ----

  /** Sync logs of one address have increasing positions along the stream, and can be unpacked. */
  ghost predicate Ordered(logs: seq<Log>) {
    && (forall i :: 0 <= i < |logs| && logs[i].isSync ==> logs[i].data.Reserves?)
    && (forall i, j :: 0 <= i < j < |logs| && logs[i].isSync && logs[j].isSync && logs[i].address == logs[j].address ==>
          ComesBefore(At(logs[i]), At(logs[j])))
  }

  function At(log: Log): LogState {
    LogState(log.blockNumber, log.txIndex, log.logIndex, 0)
  }

  /** The record carries the address, the reserves and the position of the log; tokens and fee are
      filled in elsewhere. */
  ghost predicate Carries(record: PairRecord, log: Log) {
    && log.isSync && log.data.Reserves? && record.address == log.address
    && record.reserve0 == log.data.reserve0 && record.reserve1 == log.data.reserve1
    && SamePosition(record.update, At(log))
  }

  /** What a handler passes to the store for a batch: for each address of the batch a record, in any
      order, carrying its last log. */
  ghost predicate Delivers(batch: seq<Log>, delivery: seq<PairRecord>) {
    && (forall r :: r in delivery ==> LastLog(batch, r.address).Last? && Carries(r, LastLog(batch, r.address).log))
    && (forall a: Address :: LastLog(batch, a).Last? ==> exists r :: r in delivery && r.address == a)
  }

  /** A filtered record has the pair's own fee, no error mark, and the reserves and position of the last
      Sync log of its address; an address without one has no record. */
  lemma FilteredRecord(logs: seq<Log>, now: int, datas: Store, a: Address)
    requires FilteredFrom(logs, now, datas)
    ensures a in datas <==> LastLog(logs, a).Last?
    ensures a in datas ==>
      && datas[a].fee == 30 && !datas[a].error && datas[a].update.timestamp == now
      && Carries(datas[a], LastLog(logs, a).log)
  {
    if LastLog(logs, a).Last? {
      LastLogIsSync(logs, a);
    }
  }

  /** The values of the filtered map in any order, with tokens, fee and error mark filled in, deliver
      the batch. */
  lemma FilterDelivers(batch: seq<Log>, now: int, datas: Store, delivery: seq<PairRecord>)
    requires FilteredFrom(batch, now, datas)
    requires forall r :: r in delivery ==>
      && r.address in datas
      && r == datas[r.address].(token0 := r.token0, token1 := r.token1, fee := r.fee, error := r.error)
    requires forall a :: a in datas ==> exists r :: r in delivery && r.address == a
    ensures Delivers(batch, delivery)
  {
    forall r | r in delivery
      ensures LastLog(batch, r.address).Last? && Carries(r, LastLog(batch, r.address).log)
    {
      assert LastLog(batch, r.address).Last?;
      LastLogIsSync(batch, r.address);
    }
  }

  function Concat(batches: seq<seq<Log>>): seq<Log>
    decreases batches
  {
    if batches == [] then [] else Concat(batches[..|batches| - 1]) + batches[|batches| - 1]
  }

  /** The records in the order in which the handlers reach the store. */
  function Arrivals(deliveries: seq<seq<PairRecord>>, order: seq<nat>): seq<PairRecord>
    requires forall k :: 0 <= k < |order| ==> order[k] < |deliveries|
    decreases order
  {
    if order == [] then [] else
      Arrivals(deliveries, order[..|order| - 1]) + deliveries[order[|order| - 1]]
  }

  lemma {:induction false} LastLogIsSync(logs: seq<Log>, a: Address)
    requires LastLog(logs, a).Last?
    ensures var log := LastLog(logs, a).log; log in logs && log.isSync && log.address == a
    decreases logs
  {
    if !(logs[|logs| - 1].isSync && logs[|logs| - 1].address == a) {
      LastLogIsSync(logs[..|logs| - 1], a);
    }
  }

  lemma {:induction false} LastLogConcat(x: seq<Log>, y: seq<Log>, a: Address)
    ensures LastLog(x + y, a) == if LastLog(y, a).Last? then LastLog(y, a) else LastLog(x, a)
    decreases y
  {
    if y == [] {
      assert x + y == x;
    } else {
      LastLogConcat(x, y[..|y| - 1], a);
      assert (x + y)[..|x + y| - 1] == x + y[..|y| - 1];
    }
  }

  /** In an ordered stream the last log of an address is its latest, and the only one at its place. */
  lemma {:induction false} LastLogIsLatest(logs: seq<Log>, a: Address, i: nat)
    requires Ordered(logs) && i < |logs| && logs[i].isSync && logs[i].address == a
    ensures LastLog(logs, a).Last?
    ensures var last := LastLog(logs, a).log; logs[i] == last || ComesBefore(At(logs[i]), At(last))
    decreases logs
  {
    var init, final := logs[..|logs| - 1], logs[|logs| - 1];
    if final.isSync && final.address == a {
      assert i < |logs| - 1 ==> ComesBefore(At(logs[i]), At(final));
    } else {
      assert init[i] == logs[i];
      assert Ordered(init);
      LastLogIsLatest(init, a, i);
    }
  }

  /** The last log of an address in the whole stream is its last log in some batch. */
  lemma {:induction false} LastIsInSomeBatch(batches: seq<seq<Log>>, a: Address) returns (k: nat)
    requires LastLog(Concat(batches), a).Last?
    ensures k < |batches| && LastLog(batches[k], a) == LastLog(Concat(batches), a)
    decreases batches
  {
    var init, final := batches[..|batches| - 1], batches[|batches| - 1];
    LastLogConcat(Concat(init), final, a);
    if LastLog(final, a).Last? {
      k := |batches| - 1;
    } else {
      k := LastIsInSomeBatch(init, a);
    }
  }

  lemma {:induction false} BatchLogsAreLogs(batches: seq<seq<Log>>, k: nat, log: Log)
    requires k < |batches| && log in batches[k]
    ensures log in Concat(batches)
    decreases batches
  {
    if k < |batches| - 1 {
      BatchLogsAreLogs(batches[..|batches| - 1], k, log);
    }
  }

  lemma {:induction false} ArrivalsContain(deliveries: seq<seq<PairRecord>>, order: seq<nat>, r: PairRecord)
    requires forall k :: 0 <= k < |order| ==> order[k] < |deliveries|
    ensures r in Arrivals(deliveries, order) <==> exists k :: 0 <= k < |order| && r in deliveries[order[k]]
    decreases order
  {
    if order != [] {
      var init, last := order[..|order| - 1], order[|order| - 1];
      ArrivalsContain(deliveries, init, r);
      assert forall k :: 0 <= k < |init| ==> init[k] == order[k];
      if r in deliveries[last] {
        assert r in deliveries[order[|order| - 1]];
      }
    }
  }

  /** The handled stream: cut into batches, each filtered and delivered, reaching the store in an order
      that leaves no batch out. */
  ghost predicate Handled(logs: seq<Log>, batches: seq<seq<Log>>, deliveries: seq<seq<PairRecord>>, order: seq<nat>) {
    && Ordered(logs) && Concat(batches) == logs && |deliveries| == |batches|
    && (forall k :: 0 <= k < |batches| ==> Delivers(batches[k], deliveries[k]))
    && (forall k :: 0 <= k < |order| ==> order[k] < |deliveries|)
    && (forall k: nat :: k < |batches| ==> k in order)
  }

  /** Every arriving record carries a log of the stream. */
  lemma ArrivalCarriesLog(logs: seq<Log>, batches: seq<seq<Log>>, deliveries: seq<seq<PairRecord>>, order: seq<nat>,
                          r: PairRecord)
    returns (i: nat)
    requires Handled(logs, batches, deliveries, order) && r in Arrivals(deliveries, order)
    ensures i < |logs| && Carries(r, logs[i])
  {
    ArrivalsContain(deliveries, order, r);
    var k :| 0 <= k < |order| && r in deliveries[order[k]];
    var batch := batches[order[k]];
    assert Delivers(batch, deliveries[order[k]]);
    LastLogIsSync(batch, r.address);
    BatchLogsAreLogs(batches, order[k], LastLog(batch, r.address).log);
    i :| 0 <= i < |logs| && logs[i] == LastLog(batch, r.address).log;
  }

  /** The record of the latest log arrives. */
  lemma LatestArrives(logs: seq<Log>, batches: seq<seq<Log>>, deliveries: seq<seq<PairRecord>>, order: seq<nat>,
                      a: Address)
    returns (r: PairRecord)
    requires Handled(logs, batches, deliveries, order) && LastLog(logs, a).Last?
    ensures r in Arrivals(deliveries, order) && r.address == a && Carries(r, LastLog(logs, a).log)
  {
    var k := LastIsInSomeBatch(batches, a);
    assert Delivers(batches[k], deliveries[k]) && k in order;
    r :| r in deliveries[k] && r.address == a;
    ArrivalsContain(deliveries, order, r);
    var j :| 0 <= j < |order| && order[j] == k;
    assert r in deliveries[order[j]];
  }

  /** Nothing in the store is as late as the stream. */
  ghost predicate Precedes(store: Store, logs: seq<Log>) {
    forall i :: 0 <= i < |logs| && logs[i].isSync && logs[i].address in store ==>
      ComesBefore(store[logs[i].address].update, At(logs[i]))
  }

  /** However an ordered stream is cut into batches, and in whatever order the batches reach the store:
      in the end each address has the reserves and the position of its latest log, and addresses
      without logs have what they had. */
  lemma StoreConverges(before: Store, logs: seq<Log>, batches: seq<seq<Log>>, deliveries: seq<seq<PairRecord>>,
                       order: seq<nat>, a: Address)
    requires Handled(logs, batches, deliveries, order) && Precedes(before, logs)
    ensures var after := PutAll(before, Arrivals(deliveries, order));
      match LastLog(logs, a)
      case Last(log) => a in after && Carries(after[a], log)
      case NoSync => (a in after <==> a in before) && (a in before ==> after[a] == before[a])
  {
    hide Handled, LastLog, Arrivals, Concat;
    HandledIsOrdered(logs, batches, deliveries, order);
    var arrivals := Arrivals(deliveries, order);
    PutAllKeepsLatest(before, arrivals);
    var after := PutAll(before, arrivals);
    if a in after && !(a in before && after[a] == before[a]) {
      assert Origin(before, arrivals, a, after[a]);
      var i := ArrivalCarriesLog(logs, batches, deliveries, order, after[a]);
      LastLogIsLatest(logs, a, i);
    }
    if LastLog(logs, a).Last? {
      LatestWins(before, logs, batches, deliveries, order, a);
    }
  }

  lemma HandledIsOrdered(logs: seq<Log>, batches: seq<seq<Log>>, deliveries: seq<seq<PairRecord>>, order: seq<nat>)
    requires Handled(logs, batches, deliveries, order)
    ensures Ordered(logs) && forall k :: 0 <= k < |order| ==> order[k] < |deliveries|
  {
  }

  lemma LatestWins(before: Store, logs: seq<Log>, batches: seq<seq<Log>>, deliveries: seq<seq<PairRecord>>,
                   order: seq<nat>, a: Address)
    requires Handled(logs, batches, deliveries, order) && Precedes(before, logs) && LastLog(logs, a).Last?
    ensures var after := PutAll(before, Arrivals(deliveries, order));
      a in after && Carries(after[a], LastLog(logs, a).log)
  {
    hide Handled, LastLog, Arrivals, Concat, Ordered;
    HandledIsOrdered(logs, batches, deliveries, order);
    var arrivals, last := Arrivals(deliveries, order), LastLog(logs, a).log;
    PutAllKeepsLatest(before, arrivals);
    var after := PutAll(before, arrivals);
    var r := LatestArrives(logs, batches, deliveries, order, a);
    LastLogIsSync(logs, a);
    var j :| 0 <= j < |logs| && logs[j] == last;
    assert NoLater(r.update, after[a].update);
    assert Origin(before, arrivals, a, after[a]);
    if after[a] in arrivals && after[a].address == a {
      var i := ArrivalCarriesLog(logs, batches, deliveries, order, after[a]);
      LastLogIsLatest(logs, a, i);
      PositionsCompare(At(logs[i]), At(last), At(last));
    }
  }
}
