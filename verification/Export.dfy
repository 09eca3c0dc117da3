/** Exporting the oracle's data from its byte-keyed store, and starting again from the export. */
module OracleExport {
  import opened MachineTypes
  import opened OracleTypes
  import opened ByteStore
  import opened OracleGenesis

  /** The values of the store, left decoded. */
  datatype Record =
    | DataSourceRecord(dataSource: DataSource)
    | OracleScriptRecord(oracleScript: OracleScript)
    | ReportInfoRecord(validator: Address, consecutiveMissed: uint64)
    | ResultRecord(hash: bytes)
    | ReportRecord(report: Report)
    | OtherRecord(value: bytes)

  type Store = map<bytes, Record>

  /** The tables an export is about. */
  datatype Tables = Tables(
    dataSources: map<int, DataSource>,
    oracleScripts: map<int, OracleScript>,
    missed: map<Address, uint64>,
    results: map<int, bytes>)

  predicate IsID(id: int) {
    1 <= id <= MAX_INT64
  }

  /** The records of one kind are exactly the entries of `table`, each under its identifier. */
  ghost predicate HoldsTable<T(!new)>(typed: map<Key, Record>, kind: Kind, table: map<int, T>, record: T -> Record) {
    && (forall id :: id in table ==> IsID(id))
    && (forall id: int64 :: KeyOf(kind, id) in typed <==> id in table)
    && (forall id: int64 :: id in table ==> typed[KeyOf(kind, id)] == record(table[id]))
  }

  /** `raw` is the byte store of `typed`, in which the four tables stand among other records. */
  ghost predicate Holds(raw: Store, typed: map<Key, Record>, t: Tables) {
    && Represents(raw, typed)
    && HoldsTable(typed, DataSources, t.dataSources, d => DataSourceRecord(d))
    && HoldsTable(typed, OracleScripts, t.oracleScripts, o => OracleScriptRecord(o))
    && HoldsTable(typed, Results, t.results, h => ResultRecord(h))
    && (forall v: bytes :: ReportInfoOf(v) in typed <==> Address(v) in t.missed)
    && (forall v: bytes :: Address(v) in t.missed ==>
          typed[ReportInfoOf(v)] == ReportInfoRecord(Address(v), t.missed[Address(v)]))
  }

  // ---------- scans list the tables ----------

  /** `ids` are the identifiers of `table` in ascending order. */
  ghost predicate InOrder<T>(ids: seq<int>, table: map<int, T>) {
    && (forall i, j :: 0 <= i < j < |ids| ==> ids[i] < ids[j])
    && (forall id :: id in ids <==> id in table)
  }

  function IdsIn(keys: seq<bytes>): (ids: seq<int>)
    requires forall k :: k in keys ==> |k| >= 1
    ensures |ids| == |keys| && forall i :: 0 <= i < |keys| ==> ids[i] == IdIn(keys[i])
  {
    seq(|keys|, i requires 0 <= i < |keys| => IdIn(keys[i]))
  }

  /** The bridge from bytes to tables: a prefix scan meets the entries of its table, each once, in the
      order of their identifiers. */
  lemma ScanListsTable<T(!new)>(raw: Store, typed: map<Key, Record>, kind: Kind, table: map<int, T>, record: T -> Record, keys: seq<bytes>)
    requires Represents(raw, typed) && HoldsTable(typed, kind, table, record) && IsScan(raw, [KindPrefix(kind)], keys)
    ensures forall k :: k in keys ==> |k| >= 1
    ensures InOrder(IdsIn(keys), table)
    ensures forall i :: 0 <= i < |keys| ==>
              && keys[i] in raw && IdIn(keys[i]) in table && raw[keys[i]] == record(table[IdIn(keys[i])])
  {
    hide KeyBytes, IdIn, KeyOf;
    ScanVisitsKindInOrder(raw, typed, kind, keys);
    forall i | 0 <= i < |keys|
      ensures && keys[i] in raw && IdIn(keys[i]) in table && raw[keys[i]] == record(table[IdIn(keys[i])])
    {
      assert keys[i] in keys;
      var id: int64 := IdIn(keys[i]);
      assert KeyOf(kind, id) in typed;
    }
    var ids := IdsIn(keys);
    forall id ensures id in ids <==> id in table {
      if id in table {
        IdsAreIDs(typed, kind, table, record, id);
        IdInKey(kind, id);
        var i :| 0 <= i < |keys| && keys[i] == KeyBytes(KeyOf(kind, id));
        assert ids[i] == id;
      }
    }
  }

  lemma IdsAreIDs<T(!new)>(typed: map<Key, Record>, kind: Kind, table: map<int, T>, record: T -> Record, id: int)
    requires HoldsTable(typed, kind, table, record) && id in table
    ensures IsID(id) && KeyOf(kind, id) in typed
  {
  }

  // ---------- the lists of an export ----------

  /** GetAllDataSources. */
  method GetAllDataSources(raw: Store, keys: seq<bytes>, ghost typed: map<Key, Record>, ghost t: Tables)
    returns (list: seq<DataSource>)
    requires Holds(raw, typed, t) && IsScan(raw, [KindPrefix(DataSources)], keys)
    ensures Numbered(list) == t.dataSources <==> GapFree(t.dataSources)
  {
    hide KeyBytes, Represents;
    ScanListsTable(raw, typed, DataSources, t.dataSources, d => DataSourceRecord(d), keys);
    list := [];
    for i := 0 to |keys|
      invariant |list| == i && forall j :: 0 <= j < i ==> list[j] == t.dataSources[IdIn(keys[j])]
    {
      list := list + [raw[keys[i]].dataSource];
    }
    RecordsRestoredIff(IdsIn(keys), t.dataSources, list);
  }

  /** GetAllOracleScripts. */
  method GetAllOracleScripts(raw: Store, keys: seq<bytes>, ghost typed: map<Key, Record>, ghost t: Tables)
    returns (list: seq<OracleScript>)
    requires Holds(raw, typed, t) && IsScan(raw, [KindPrefix(OracleScripts)], keys)
    ensures Numbered(list) == t.oracleScripts <==> GapFree(t.oracleScripts)
  {
    hide KeyBytes, Represents;
    ScanListsTable(raw, typed, OracleScripts, t.oracleScripts, o => OracleScriptRecord(o), keys);
    list := [];
    for i := 0 to |keys|
      invariant |list| == i && forall j :: 0 <= j < i ==> list[j] == t.oracleScripts[IdIn(keys[j])]
    {
      list := list + [raw[keys[i]].oracleScript];
    }
    RecordsRestoredIff(IdsIn(keys), t.oracleScripts, list);
  }

  const REPORT_INFO_PREFIX: byte := 0x06

  /** A scan over the report infos meets exactly those of the table. */
  lemma ScanListsInfos(raw: Store, typed: map<Key, Record>, t: Tables, keys: seq<bytes>)
    requires Holds(raw, typed, t) && IsScan(raw, [REPORT_INFO_PREFIX], keys)
    ensures forall b :: b in keys ==>
              && b in raw && raw[b].ReportInfoRecord?
              && raw[b].validator in t.missed && t.missed[raw[b].validator] == raw[b].consecutiveMissed
    ensures forall v :: v in t.missed ==>
              exists i :: 0 <= i < |keys| && keys[i] in raw && raw[keys[i]] == ReportInfoRecord(v, t.missed[v])
  {
    forall b | b in keys
      ensures && b in raw && raw[b].ReportInfoRecord?
              && raw[b].validator in t.missed && t.missed[raw[b].validator] == raw[b].consecutiveMissed
    {
      var k :| k in typed && KeyBytes(k) == b;
      FirstByteTellsKind(k);
      assert b[0] == REPORT_INFO_PREFIX;
      assert k == ReportInfoOf(k.validator);
    }
    forall v | v in t.missed
      ensures exists i :: 0 <= i < |keys| && keys[i] in raw && raw[keys[i]] == ReportInfoRecord(v, t.missed[v])
    {
      var k := ReportInfoOf(v.raw);
      assert Address(v.raw) in t.missed && k in typed;
      assert [REPORT_INFO_PREFIX] <= KeyBytes(k);
      var i :| 0 <= i < |keys| && keys[i] == KeyBytes(k);
      assert raw[keys[i]] == ReportInfoRecord(v, t.missed[v]);
    }
  }

  /** GetAllValidatorReportInfos. */
  method GetAllValidatorReportInfos(raw: Store, keys: seq<bytes>, ghost typed: map<Key, Record>, ghost t: Tables)
    returns (infos: seq<(Address, uint64)>)
    requires Holds(raw, typed, t) && IsScan(raw, [REPORT_INFO_PREFIX], keys)
    ensures InfoTable(infos) == t.missed
  {
    hide KeyBytes, HoldsTable, Represents;
    ScanListsInfos(raw, typed, t, keys);
    infos := [];
    for i := 0 to |keys|
      invariant |infos| == i
      invariant forall j :: 0 <= j < i ==> infos[j] == (raw[keys[j]].validator, raw[keys[j]].consecutiveMissed)
    {
      assert keys[i] in keys;
      infos := infos + [(raw[keys[i]].validator, raw[keys[i]].consecutiveMissed)];
    }
    forall v | v in t.missed ensures exists i :: 0 <= i < |infos| && infos[i] == (v, t.missed[v]) {
      var i :| 0 <= i < |keys| && keys[i] in raw && raw[keys[i]] == ReportInfoRecord(v, t.missed[v]);
      assert infos[i] == (v, t.missed[v]);
    }
    forall i | 0 <= i < |infos| ensures infos[i].0 in t.missed && t.missed[infos[i].0] == infos[i].1 {
      assert keys[i] in keys;
    }
    InfosRestored(infos, t.missed);
  }

  /** A list of entries of a table that leaves none out restores it. */
  lemma InfosRestored(infos: seq<(Address, uint64)>, missed: map<Address, uint64>)
    requires forall i :: 0 <= i < |infos| ==> infos[i].0 in missed && missed[infos[i].0] == infos[i].1
    requires forall v :: v in missed ==> exists i :: 0 <= i < |infos| && infos[i] == (v, missed[v])
    ensures InfoTable(infos) == missed
  {
    InfosAreEntries(infos, missed, |infos|);
    assert infos[..|infos|] == infos;
    forall v | v in missed ensures v in InfoTable(infos) {
      var i :| 0 <= i < |infos| && infos[i] == (v, missed[v]);
    }
  }

  lemma {:induction false} InfosAreEntries(infos: seq<(Address, uint64)>, missed: map<Address, uint64>, n: nat)
    requires n <= |infos|
    requires forall i :: 0 <= i < |infos| ==> infos[i].0 in missed && missed[infos[i].0] == infos[i].1
    ensures forall v :: v in InfoTable(infos[..n]) ==> v in missed && InfoTable(infos[..n])[v] == missed[v]
    ensures forall i :: 0 <= i < n ==> infos[i].0 in InfoTable(infos[..n])
  {
    if n > 0 {
      InfosAreEntries(infos, missed, n - 1);
      assert infos[..n][..n - 1] == infos[..n - 1];
    }
  }

  lemma ScanListsResults(raw: Store, typed: map<Key, Record>, t: Tables, keys: seq<bytes>)
    requires Holds(raw, typed, t) && IsScan(raw, [KindPrefix(Results)], keys)
    ensures forall k :: k in keys ==> |k| >= 1
    ensures InOrder(IdsIn(keys), t.results) && forall id :: id in t.results ==> id >= 1
    ensures forall i :: 0 <= i < |keys| ==>
              && keys[i] in raw && IdIn(keys[i]) in t.results && raw[keys[i]] == ResultRecord(t.results[IdIn(keys[i])])
  {
    hide KeyBytes, Represents, IdIn;
    ScanListsTable(raw, typed, Results, t.results, h => ResultRecord(h), keys);
  }

  /** GetAllResults: the identifier is read from the key, and every gap in front of a result is filled
      with nil. */
  method GetAllResults(raw: Store, keys: seq<bytes>, ghost typed: map<Key, Record>, ghost t: Tables)
    returns (results: seq<Option<bytes>>)
    requires Holds(raw, typed, t) && IsScan(raw, [KindPrefix(Results)], keys)
    ensures StoredResults(results) == t.results
    ensures |results| == HighestID(t.results)
  {
    hide *;
    ScanListsResults(raw, typed, t, keys);
    ghost var ids := IdsIn(keys);
    results := [];
    var previousReqID := 0;
    NothingFilled(t.results);
    for n := 0 to |keys|
      invariant previousReqID == (if n == 0 then 0 else ids[n - 1]) == |results|
      invariant Filled(results, t.results)
    {
      var currentReqID := IdIn(keys[n]);
      GapHasNoResults(ids, t.results, n, previousReqID);
      var diffReqIDCount := currentReqID - previousReqID;
      results := AppendNils(results, diffReqIDCount - 1, t.results);
      OneMoreFilled(results, t.results);
      results := results + [Some(raw[keys[n]].hash)];
      previousReqID := currentReqID;
    }
    LastIsHighest(ids, t.results);
    FilledRestores(results, t.results);
  }

  /** The inner loop: one nil for every skipped request. */
  method AppendNils(before: seq<Option<bytes>>, count: nat, ghost stored: map<int, bytes>) returns (results: seq<Option<bytes>>)
    requires Filled(before, stored) && forall id :: |before| < id <= |before| + count ==> id !in stored
    ensures Filled(results, stored) && |results| == |before| + count
  {
    hide Filled;
    results := before;
    for i := 0 to count
      invariant |results| == |before| + i && Filled(results, stored)
    {
      OneMoreFilled(results, stored);
      results := results + [None];
    }
  }

  lemma NothingFilled(stored: map<int, bytes>)
    ensures Filled([], stored)
  {
  }

  lemma OneMoreFilled(results: seq<Option<bytes>>, stored: map<int, bytes>)
    requires Filled(results, stored)
    ensures var id := |results| + 1; Filled(results + [if id in stored then Some(stored[id]) else None], stored)
  {
  }

  lemma FilledRestores(results: seq<Option<bytes>>, stored: map<int, bytes>)
    requires Filled(results, stored) && forall id :: id in stored ==> 1 <= id <= |results|
    ensures StoredResults(results) == stored
  {
  }

  /** Entry i is the result of request i + 1, or nil. */
  ghost predicate Filled(results: seq<Option<bytes>>, stored: map<int, bytes>) {
    forall i :: 0 <= i < |results| ==> results[i] == if i + 1 in stored then Some(stored[i + 1]) else None
  }

  ghost predicate IsHighest(ids: set<int>, n: nat) {
    (forall id :: id in ids ==> id <= n) && (n == 0 || n in ids)
  }

  /** The highest identifier of a table of positive ones, or 0. */
  ghost function HighestID<T>(table: map<int, T>): (n: nat)
    ensures forall id :: id in table ==> id <= n
    ensures n == 0 || n in table
  {
    HighestExists(table.Keys);
    var n: nat :| IsHighest(table.Keys, n);
    n
  }

  lemma {:induction false} HighestExists(ids: set<int>)
    ensures exists n: nat :: IsHighest(ids, n)
    decreases |ids|
  {
    if x :| x in ids {
      HighestExists(ids - {x});
      var n: nat :| IsHighest(ids - {x}, n);
      var m := if x > n then x else n;
      forall id | id in ids ensures id <= m {
        assert id == x || id in ids - {x};
      }
      assert IsHighest(ids, m);
    } else {
      assert IsHighest(ids, 0);
    }
  }

  lemma LastIsHighest<T>(ids: seq<int>, table: map<int, T>)
    requires InOrder(ids, table) && forall id :: id in table ==> id >= 1
    ensures HighestID(table) == if ids == [] then 0 else ids[|ids| - 1]
    ensures forall id :: id in table ==> 1 <= id <= HighestID(table)
  {
    if ids != [] {
      var last := ids[|ids| - 1];
      assert last in ids && forall k :: 0 <= k < |ids| ==> ids[k] <= last;
      assert HighestID(table) in ids;
    } else {
      assert forall id :: id in table ==> id in ids;
    }
  }

  lemma GapHasNoResults(ids: seq<int>, stored: map<int, bytes>, n: nat, previous: int)
    requires InOrder(ids, stored) && n < |ids| && (forall id :: id in stored ==> id >= 1)
    requires previous == if n == 0 then 0 else ids[n - 1]
    ensures previous < ids[n]
    ensures forall id :: previous < id < ids[n] ==> id !in stored
  {
    assert ids[n] in ids;
    forall k | 0 <= k < |ids| ensures !(previous < ids[k] < ids[n]) {
      if k < n - 1 {
        assert ids[k] < ids[n - 1];
      } else if k > n {
        assert ids[n] < ids[k];
      }
    }
  }

  // ---------- identifiers without gaps ----------

  /** Exported records come back under the same identifiers exactly if these had no gap. */
  lemma RecordsRestoredIff<T(!new)>(ids: seq<int>, table: map<int, T>, records: seq<T>)
    requires InOrder(ids, table)
    requires |records| == |ids| && forall i :: 0 <= i < |ids| ==> ids[i] in table && records[i] == table[ids[i]]
    ensures Numbered(records) == table <==> GapFree(table)
  {
    if Numbered(records) == table {
      assert UpTo(table, |records|);
    }
    if n: nat :| UpTo(table, n) {
      ScanWithoutGaps(ids, table, n);
      GapFreeRecordsAreRestored(ids, table, records);
    }
  }

  lemma GapFreeRecordsAreRestored<T>(ids: seq<int>, table: map<int, T>, records: seq<T>)
    requires InOrder(ids, table) && forall i :: 0 <= i < |ids| ==> ids[i] == i + 1
    requires |records| == |ids| && forall i :: 0 <= i < |ids| ==> ids[i] in table && records[i] == table[ids[i]]
    ensures Numbered(records) == table
  {
    hide Numbered;
    forall id ensures id in table <==> 1 <= id <= |ids| {
      if 1 <= id <= |ids| {
        assert ids[id - 1] in ids;
      }
      if id in table {
        var k :| 0 <= k < |ids| && ids[k] == id;
      }
    }
    var m := Numbered(records);
    forall id | id in m ensures m[id] == table[id] {
      assert ids[id - 1] == id;
    }
  }

  /** A scan of a table without gaps lists 1, 2, ... */
  lemma ScanWithoutGaps<T>(ids: seq<int>, table: map<int, T>, count: nat)
    requires InOrder(ids, table) && UpTo(table, count)
    ensures forall i :: 0 <= i < |ids| ==> ids[i] == i + 1
  {
    forall i | 0 <= i < |ids| ensures ids[i] == i + 1 {
      AtLeast(ids, i);
      if ids[i] > i + 1 {
        MissingBelow(ids, i, count);
      }
    }
  }

  lemma {:induction false} AtLeast(ids: seq<int>, i: nat)
    requires i < |ids| && forall a, b :: 0 <= a < b < |ids| ==> ids[a] < ids[b]
    requires forall id :: id in ids ==> id >= 1
    ensures ids[i] >= i + 1
  {
    assert ids[i] in ids;
    if i > 0 {
      AtLeast(ids, i - 1);
    }
  }

  /** In a gap-free ascending list nothing is skipped. */
  lemma {:induction false} MissingBelow(ids: seq<int>, i: nat, count: nat)
    requires i < |ids| && forall a, b :: 0 <= a < b < |ids| ==> ids[a] < ids[b]
    requires forall id :: id in ids <==> 1 <= id <= count
    ensures ids[i] <= i + 1
  {
    assert ids[i] in ids;
    if ids[i] > 1 {
      assert ids[i] - 1 in ids;
      assert forall a :: i <= a < |ids| ==> ids[a] >= ids[i];
      var k :| 0 <= k < |ids| && ids[k] == ids[i] - 1;
      MissingBelow(ids, k, count);
    }
  }

  // ---------- export and restart ----------

  /** ExportGenesis: one scan for each of the four lists. */
  method ExportGenesis(params: Params, raw: Store, dataSourceKeys: seq<bytes>, oracleScriptKeys: seq<bytes>,
                       reportInfoKeys: seq<bytes>, resultKeys: seq<bytes>, ghost typed: map<Key, Record>, ghost t: Tables)
    returns (data: GenesisState)
    requires Holds(raw, typed, t)
    requires IsScan(raw, [KindPrefix(DataSources)], dataSourceKeys)
    requires IsScan(raw, [KindPrefix(OracleScripts)], oracleScriptKeys)
    requires IsScan(raw, [REPORT_INFO_PREFIX], reportInfoKeys)
    requires IsScan(raw, [KindPrefix(Results)], resultKeys)
    ensures data.params == params
    ensures Numbered(data.dataSources) == t.dataSources <==> GapFree(t.dataSources)
    ensures Numbered(data.oracleScripts) == t.oracleScripts <==> GapFree(t.oracleScripts)
    ensures InfoTable(data.reportInfos) == t.missed
    ensures StoredResults(data.results) == t.results && |data.results| == HighestID(t.results)
  {
    hide *;
    var dataSources := GetAllDataSources(raw, dataSourceKeys, typed, t);
    var oracleScripts := GetAllOracleScripts(raw, oracleScriptKeys, typed, t);
    var reportInfos := GetAllValidatorReportInfos(raw, reportInfoKeys, typed, t);
    var results := GetAllResults(raw, resultKeys, typed, t);
    data := GenesisState(params, dataSources, oracleScripts, reportInfos, results);
  }

  /** Export, then InitGenesis: results and report infos always come back under the same identifiers
      and validators; data sources and scripts do exactly if their identifiers had no gap; the request
      count becomes the highest identifier with a result. */
  method RestartFromExport(params: Params, raw: Store, dataSourceKeys: seq<bytes>, oracleScriptKeys: seq<bytes>,
                           reportInfoKeys: seq<bytes>, resultKeys: seq<bytes>, ghost typed: map<Key, Record>, ghost t: Tables)
    returns (registry: Registry)
    requires Holds(raw, typed, t)
    requires IsScan(raw, [KindPrefix(DataSources)], dataSourceKeys)
    requires IsScan(raw, [KindPrefix(OracleScripts)], oracleScriptKeys)
    requires IsScan(raw, [REPORT_INFO_PREFIX], reportInfoKeys)
    requires IsScan(raw, [KindPrefix(Results)], resultKeys)
    ensures fresh(registry) && registry.Valid()
    ensures registry.dataSources == t.dataSources <==> GapFree(t.dataSources)
    ensures registry.oracleScripts == t.oracleScripts <==> GapFree(t.oracleScripts)
    ensures registry.missed == t.missed && registry.results == t.results
    ensures registry.requestCount == HighestID(t.results)
  {
    hide Holds, IsScan, GapFree, Numbered, InfoTable, StoredResults;
    var data := ExportGenesis(params, raw, dataSourceKeys, oracleScriptKeys, reportInfoKeys, resultKeys, typed, t);
    registry := new Registry();
    registry.InitGenesis(data);
  }

  /** What a registry has handed out has no gap, so all of it survives a restart. */
  lemma RegistryHasNoGaps(registry: Registry)
    requires registry.Valid()
    ensures GapFree(registry.dataSources) && GapFree(registry.oracleScripts)
  {
    assert UpTo(registry.dataSources, registry.dataSourceCount);
    assert UpTo(registry.oracleScripts, registry.oracleScriptCount);
  }

  /** The restored request count is right exactly if the newest request had a result, or there was
      no request. */
  lemma RequestCountRestoredIff(results: map<int, bytes>, requestCount: nat)
    requires forall id :: id in results ==> 1 <= id <= requestCount
    ensures HighestID(results) == requestCount <==> requestCount == 0 || requestCount in results
  {
  }
}
