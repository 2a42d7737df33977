/** Writing the store to its file and reading it back. */
module DataKeeper {
  import opened Evm
  import opened Protocol
  import opened Storage
  import opened FileData

  /** The file that lists these records. */
  function FileText(records: seq<PairRecord>, casing: Casing): text
    decreases records
  {
    if records == [] then [] else
      FileText(records[..|records| - 1], casing) + (ToFileData(records[|records| - 1], casing) + ['\n'])
  }

  /** The records of a store but those under the keys in `rest`, each once, in some order. */
  ghost predicate ListsBut(records: seq<PairRecord>, store: Store, rest: set<Address>) {
    && (forall i :: 0 <= i < |records| ==> Listed(records[i], store, rest))
    && (forall a :: a in store && a !in rest ==> store[a] in records)
    && (forall i, j :: 0 <= i < j < |records| ==> records[i].address != records[j].address)
  }

  ghost predicate Listed(r: PairRecord, store: Store, rest: set<Address>) {
    r.address in store && r.address !in rest && store[r.address] == r
  }

  ghost predicate Lists(records: seq<PairRecord>, store: Store) {
    ListsBut(records, store, {})
  }

  lemma ListGrows(records: seq<PairRecord>, store: Store, rest: set<Address>, a: Address)
    requires ListsBut(records, store, rest) && a in rest && a in store && store[a].address == a
    ensures ListsBut(records + [store[a]], store, rest - {a})
  {
    var longer := records + [store[a]];
    assert longer[|records|] == store[a];
    forall i | 0 <= i < |longer|
      ensures Listed(longer[i], store, rest - {a})
    {
      if i < |records| {
        assert Listed(records[i], store, rest);
      }
    }
    forall i, j | 0 <= i < j < |longer|
      ensures longer[i].address != longer[j].address
    {
      assert Listed(records[i], store, rest);
    }
  }

  lemma FileGrows(records: seq<PairRecord>, r: PairRecord, casing: Casing)
    ensures FileText(records + [r], casing) == FileText(records, casing) + (ToFileData(r, casing) + ['\n'])
  {
    hide ToFileData;
    assert (records + [r])[..|records|] == records;
  }

  ghost predicate Keyed(store: Store) {
    forall a :: a in store ==> store[a].address == a
  }

  /** The loop of `writeData`, in the order in which the map happens to yield its records. */
  method WriteData(store: Store, casing: Casing) returns (dataBody: text, ghost records: seq<PairRecord>)
    requires Keyed(store)
    ensures Lists(records, store) && dataBody == FileText(records, casing)
  {
    dataBody, records := [], [];
    var rest := store.Keys;
    while rest != {}
      invariant rest <= store.Keys
      invariant ListsBut(records, store, rest)
      invariant dataBody == FileText(records, casing)
      decreases rest
    {
      hide ToFileData, FileText, ListsBut;
      var address :| address in rest;
      var data := store[address];
      ListGrows(records, store, rest, address);
      FileGrows(records, data, casing);
      rest := rest - {address};
      dataBody := dataBody + (ToFileData(data, casing) + ['\n']);
      records := records + [data];
    }
  }

  /** All records of a list of lines; empty lines are skipped. */
  function ParseLines(lines: seq<text>): Parsed<seq<PairRecord>>
    decreases lines
  {
    if lines == [] then Value([]) else
      var init :- ParseLines(lines[..|lines| - 1]);
      var line := lines[|lines| - 1];
      if line == [] then Value(init) else
        var record :- FromFileData(line);
        Value(init + [record])
  }

  lemma {:induction false} ParsePrefix(lines: seq<text>, n: nat)
    requires n <= |lines| && ParseLines(lines[..n]).Fail?
    ensures ParseLines(lines).Fail?
    decreases |lines| - n
  {
    if n == |lines| {
      assert lines[..n] == lines;
    } else {
      assert lines[..n + 1][..n] == lines[..n];
      ParsePrefix(lines, n + 1);
    }
  }

  /** `readData`: nothing is stored if a line cannot be parsed. */
  method ReadData(body: text, store: DatasStorage) returns (ok: bool)
    modifies store
    ensures match ParseLines(Split(body, '\n'))
            case Value(records) => ok && store.datas == PutAll(old(store.datas), records)
            case Fail => !ok && store.datas == old(store.datas)
  {
    hide FromFileData, Split, PutAll;
    var lines := Split(body, '\n');
    var ks: seq<Address>, vs: seq<PairRecord> := [], [];
    var i := 0;
    while i < |lines|
      invariant 0 <= i <= |lines|
      invariant store.datas == old(store.datas)
      invariant ParseLines(lines[..i]) == Value(vs) && ks == KeysOf(vs)
    {
      var line := lines[i];
      assert lines[..i + 1][..i] == lines[..i];
      if line == [] {
        i := i + 1;
        continue;
      }
      var data := FromFileData(line);
      if data.Fail? {
        ParsePrefix(lines, i + 1);
        return false;
      }
      ks := ks + [data.value.address];
      vs := vs + [data.value];
      i := i + 1;
    }
    assert lines[..i] == lines;
    KeyedByAddress(store.datas, vs);
    store.Store(ks, vs);
    return true;
  }

  // ---- the round trip ----

  function Lines(records: seq<PairRecord>, casing: Casing): seq<text> {
    seq(|records|, i requires 0 <= i < |records| => ToFileData(records[i], casing))
  }

  lemma {:induction false} FileSplits(records: seq<PairRecord>, casing: Casing, behind: text)
    requires forall i :: 0 <= i < |records| ==> Persistable(records[i])
    ensures Split(FileText(records, casing) + behind, '\n') == Lines(records, casing) + Split(behind, '\n')
    decreases records
  {
    hide ToFileData, Persistable, Split, FromFileData;
    if records == [] {
      assert FileText(records, casing) + behind == behind;
    } else {
      var init, last := records[..|records| - 1], records[|records| - 1];
      var line := ToFileData(last, casing);
      RecordRoundTrip(last, casing);
      FileSplits(init, casing, line + ['\n'] + behind);
      SplitStep(line, behind, '\n');
      assert FileText(records, casing) + behind == FileText(init, casing) + (line + ['\n'] + behind);
      assert Lines(records, casing) == Lines(init, casing) + [line];
    }
  }

  lemma {:induction false} LinesParse(records: seq<PairRecord>, casing: Casing)
    requires forall i :: 0 <= i < |records| ==> Persistable(records[i])
    ensures ParseLines(Lines(records, casing)) == Value(records)
    decreases records
  {
    hide ToFileData, Persistable, FromFileData;
    if records != [] {
      var init, last := records[..|records| - 1], records[|records| - 1];
      RecordRoundTrip(last, casing);
      LinesParse(init, casing);
      assert Lines(records, casing)[..|records| - 1] == Lines(init, casing);
      assert init + [last] == records;
    }
  }

  lemma {:induction false} StoreOfList(records: seq<PairRecord>)
    requires forall i, j :: 0 <= i < j < |records| ==> records[i].address != records[j].address
    ensures forall a :: a in PutAll(map[], records) <==> exists i :: 0 <= i < |records| && records[i].address == a
    ensures forall i :: 0 <= i < |records| ==>
              records[i].address in PutAll(map[], records) && PutAll(map[], records)[records[i].address] == records[i]
    decreases records
  {
    hide NeedUpdate;
    if records != [] {
      var init, last := records[..|records| - 1], records[|records| - 1];
      StoreOfList(init);
      assert forall i :: 0 <= i < |init| ==> init[i] == records[i] && init[i].address != last.address;
      assert last.address !in PutAll(map[], init);
    }
  }

  lemma ListIsStore(store: Store, records: seq<PairRecord>)
    requires Keyed(store) && Lists(records, store)
    ensures PutAll(map[], records) == store
  {
    hide PutAll;
    StoreOfList(records);
    var after := PutAll(map[], records);
    forall a | a in store
      ensures a in after && after[a] == store[a]
    {
      var i :| 0 <= i < |records| && records[i] == store[a];
    }
    forall i | 0 <= i < |records|
      ensures records[i].address in store
    {
      assert Listed(records[i], store, {});
    }
    assert after.Keys == store.Keys;
  }

  lemma FileParses(records: seq<PairRecord>, casing: Casing)
    requires forall i :: 0 <= i < |records| ==> Persistable(records[i])
    ensures ParseLines(Split(FileText(records, casing), '\n')) == Value(records)
  {
    hide FileText, Split, Persistable, FromFileData;
    FileSplits(records, casing, []);
    assert FileText(records, casing) + [] == FileText(records, casing);
    SplitFree([], '\n');
    LinesParse(records, casing);
    var lines := Lines(records, casing) + [[]];
    assert lines[..|lines| - 1] == Lines(records, casing);
    assert ParseLines(lines) == ParseLines(lines[..|lines| - 1]);
  }

  /** Whatever order the store was written in, splitting and parsing the file and storing the result
      into an empty store gives back the same store. */
  lemma StoreRoundTrip(store: Store, records: seq<PairRecord>, casing: Casing)
    requires Keyed(store) && Lists(records, store) && forall a :: a in store ==> Persistable(store[a])
    ensures var parsed := ParseLines(Split(FileText(records, casing), '\n'));
      parsed == Value(records) && PutAll(map[], records) == store
  {
    hide FileText, Split, Persistable, PutAll, ParseLines;
    forall i | 0 <= i < |records|
      ensures Persistable(records[i])
    {
      assert Listed(records[i], store, {});
    }
    FileParses(records, casing);
    ListIsStore(store, records);
  }
}
