/** Starting a chain from a genesis state. */
module OracleGenesis {
  import opened MachineTypes
  import opened OracleTypes
  import S = OracleState
  import T = OracleTheorems

  datatype GenesisState = GenesisState(
    params: Params,
    dataSources: seq<DataSource>,
    oracleScripts: seq<OracleScript>,
    reportInfos: seq<(Address, uint64)>,
    results: seq<Option<bytes>>)

  /** The records of a list under the identifiers 1, 2, ... */
  function Numbered<T>(records: seq<T>): (m: map<int, T>)
    ensures forall id :: id in m <==> 1 <= id <= |records|
    ensures forall id :: id in m ==> m[id] == records[id - 1]
  {
    if records == [] then map[]
    else Numbered(records[..|records| - 1])[|records| := records[|records| - 1]]
  }

  /** The results that InitGenesis stores: entry i belongs to request i + 1, nil to none. */
  function StoredResults(results: seq<Option<bytes>>): (m: map<int, bytes>)
    ensures forall id :: id in m <==> 1 <= id <= |results| && results[id - 1].Some?
    ensures forall id :: id in m ==> results[id - 1] == Some(m[id])
  {
    if results == [] then map[]
    else
      var n := |results| - 1;
      var before := StoredResults(results[..n]);
      if results[n].Some? then before[n + 1 := results[n].value] else before
  }

  /** Of two infos for the same validator the later one stays. */
  function InfoTable(infos: seq<(Address, uint64)>): map<Address, uint64> {
    if infos == [] then map[]
    else InfoTable(infos[..|infos| - 1])[infos[|infos| - 1].0 := infos[|infos| - 1].1]
  }

  /** The identifiers of the table are 1, 2, ..., n. */
  ghost predicate UpTo<T>(table: map<int, T>, n: nat) {
    forall id :: id in table <==> 1 <= id <= n
  }

  /** No identifier has been left out. */
  ghost predicate GapFree<T>(table: map<int, T>) {
    exists n :: UpTo(table, n)
  }

  /** The part of the keeper's store that genesis touches. */
  class Registry {
    var dataSourceCount: nat
    var dataSources: map<int, DataSource>
    var oracleScriptCount: nat
    var oracleScripts: map<int, OracleScript>
    var missed: map<Address, uint64>
    var results: map<int, bytes>
    var requestCount: nat

    constructor ()
      ensures Valid() && dataSources == map[] && oracleScripts == map[]
      ensures dataSourceCount == 0 && oracleScriptCount == 0
      ensures missed == map[] && results == map[] && requestCount == 0
    {
      dataSourceCount, oracleScriptCount, requestCount := 0, 0, 0;
      dataSources, oracleScripts, missed, results := map[], map[], map[], map[];
    }

    /** Identifiers are given out without gaps and never taken back. */
    ghost predicate Valid()
      reads this
    {
      UpTo(dataSources, dataSourceCount) && UpTo(oracleScripts, oracleScriptCount)
    }

    method AddDataSource(dataSource: DataSource) returns (id: nat)
      requires Valid()
      modifies this`dataSourceCount, this`dataSources
      ensures Valid() && id == old(dataSourceCount) + 1 && dataSourceCount == id
      ensures dataSources == old(dataSources)[id := dataSource]
    {
      dataSourceCount := dataSourceCount + 1;
      id := dataSourceCount;
      dataSources := dataSources[id := dataSource];
    }

    method AddOracleScript(oracleScript: OracleScript) returns (id: nat)
      requires Valid()
      modifies this`oracleScriptCount, this`oracleScripts
      ensures Valid() && id == old(oracleScriptCount) + 1 && oracleScriptCount == id
      ensures oracleScripts == old(oracleScripts)[id := oracleScript]
    {
      oracleScriptCount := oracleScriptCount + 1;
      id := oracleScriptCount;
      oracleScripts := oracleScripts[id := oracleScript];
    }

    method InitGenesis(data: GenesisState)
      requires Valid() && dataSourceCount == 0 && oracleScriptCount == 0
      requires missed == map[] && results == map[] && requestCount == 0
      modifies this
      ensures Valid()
      ensures dataSources == Numbered(data.dataSources) && oracleScripts == Numbered(data.oracleScripts)
      ensures missed == InfoTable(data.reportInfos)
      ensures results == StoredResults(data.results)
      ensures requestCount == |data.results|
    {
      AddAllDataSources(data.dataSources);
      AddAllOracleScripts(data.oracleScripts);
      for i := 0 to |data.reportInfos|
        modifies this`missed
        invariant missed == InfoTable(data.reportInfos[..i])
      {
        assert data.reportInfos[..i + 1][..i] == data.reportInfos[..i];
        missed := missed[data.reportInfos[i].0 := data.reportInfos[i].1];
      }
      assert data.reportInfos[..|data.reportInfos|] == data.reportInfos;
      for i := 0 to |data.results|
        modifies this`results
        invariant results == StoredResults(data.results[..i])
      {
        assert data.results[..i + 1][..i] == data.results[..i];
        if data.results[i].Some? {
          results := results[i + 1 := data.results[i].value];
        }
      }
      assert data.results[..|data.results|] == data.results;
      requestCount := |data.results|;
    }

    method AddAllDataSources(list: seq<DataSource>)
      requires Valid() && dataSourceCount == 0
      modifies this`dataSourceCount, this`dataSources
      ensures Valid() && dataSources == Numbered(list)
    {
      assert dataSources.Keys == {} by {
        assert forall id :: id !in dataSources;
      }
      for i := 0 to |list|
        invariant Valid() && dataSourceCount == i && dataSources == Numbered(list[..i])
      {
        assert list[..i + 1][..i] == list[..i];
        var _ := AddDataSource(list[i]);
      }
      assert list[..|list|] == list;
    }

    method AddAllOracleScripts(list: seq<OracleScript>)
      requires Valid() && oracleScriptCount == 0
      modifies this`oracleScriptCount, this`oracleScripts
      ensures Valid() && oracleScripts == Numbered(list)
    {
      assert oracleScripts.Keys == {} by {
        assert forall id :: id !in oracleScripts;
      }
      for i := 0 to |list|
        invariant Valid() && oracleScriptCount == i && oracleScripts == Numbered(list[..i])
      {
        assert list[..i + 1][..i] == list[..i];
        var _ := AddOracleScript(list[i]);
      }
      assert list[..|list|] == list;
    }
  }

  /** The oracle state right after InitGenesis: results, counters of misses and the request count
      are restored, but neither the requests nor the frontier of the expired ones. */
  ghost predicate StartsFrom(s: S.State, data: GenesisState) {
    && s.params == data.params
    && s.requestCount == |data.results| && s.requestLastExpired == 0
    && s.requests == map[] && s.reports == map[] && s.pending == []
    && s.results.Keys == StoredResults(data.results).Keys
    && s.missed == s.genesisMissed == InfoTable(data.reportInfos)
    && S.DistinctOperators(s.bonded) && s.height >= 0 && s.log == []
  }

  /** Request 1 is counted but missing, and the expiry loop will look for it next. */
  ghost predicate LooksForMissing(s: S.State) {
    s.requestLastExpired == 0 && s.requestCount >= 1 && 1 !in s.requests
  }

  lemma NoBlockEndsLooking(s: S.State, execute: S.Execute)
    requires S.EndBlock(s, execute).Returned?
    ensures !LooksForMissing(s)
  {
    hide S.ResolveAll;
  }

  lemma StepKeepsLooking(s: S.State, step: S.Step)
    requires LooksForMissing(s) && S.Allowed(s, step) && !step.FinishBlock?
    ensures S.Next(s, step).Returned? && LooksForMissing(S.Next(s, step).value)
  {
    hide S.PrepareRequest, S.ReportError, S.ValidReportMessage, S.ReportCount;
    match step
    case DeliverRequest(spec, ibcInfo, stream, prepare) => S.PrepareOnlyAddsRequest(s, spec, ibcInfo, stream, prepare);
    case _ =>
  }

  lemma {:induction false} PathKeepsLooking(states: seq<S.State>, steps: seq<S.Step>, i: nat)
    requires S.IsPath(states, steps) && i < |states| && LooksForMissing(states[0])
    requires forall k :: 0 <= k < i ==> !steps[k].FinishBlock?
    ensures LooksForMissing(states[i])
  {
    hide LooksForMissing, S.Next, S.Allowed;
    if i > 0 {
      PathKeepsLooking(states, steps, i - 1);
      assert S.Follows(states[i - 1], steps[i - 1], states[i - 1 + 1]);
      StepKeepsLooking(states[i - 1], steps[i - 1]);
    }
  }

  /** The first block of a chain started from an export, whatever transactions it carries, ends
      without a panic exactly if the export contained no results. */
  lemma FirstBlockEndsIff(states: seq<S.State>, steps: seq<S.Step>, data: GenesisState, execute: S.Execute)
    requires S.IsPath(states, steps) && StartsFrom(states[0], data)
    requires forall k :: 0 <= k < |steps| ==> !steps[k].FinishBlock?
    ensures S.EndBlock(states[|steps|], execute).Returned? <==> data.results == []
  {
    hide S.EndBlock, S.Follows;
    if data.results == [] {
      assert S.Genesis(states[0]);
      assert S.IsRun(states, steps);
      T.ChainNeverHalts(states, steps, |steps|, S.FinishBlock(execute));
    } else {
      PathKeepsLooking(states, steps, |steps|);
      if S.EndBlock(states[|steps|], execute).Returned? {
        NoBlockEndsLooking(states[|steps|], execute);
      }
    }
  }
}
