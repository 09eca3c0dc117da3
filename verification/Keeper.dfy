/** The oracle keeper: an object whose methods update the store step by step. Each method is
    proved to compute the function of the same name in OracleState. */
module OracleKeeper {
  import opened MachineTypes
  import opened OracleTypes
  import opened ExecutionEnvironment
  import opened Sampling
  import S = OracleState

  /** MsgReportData.ValidateBasic: the loop over the raw reports stops at the first repeated ID
      or oversized data. */
  method ValidateReportMessage(m: S.MsgReportData) returns (ok: bool)
    ensures ok <==> S.ValidReportMessage(m)
  {
    if !S.IsAddress(m.validator) || !S.IsAddress(m.reporter) || |m.rawReports| == 0 {
      return false;
    }
    var unique: set<ExternalID> := {};
    var ids := ExternalIDs(m.rawReports);
    for i := 0 to |m.rawReports|
      invariant unique == set id | id in ids[..i]
      invariant Distinct(ids[..i])
      invariant forall j :: 0 <= j < i ==> |m.rawReports[j].data| <= MAX_RAW_REPORT_DATA_SIZE
    {
      var r := m.rawReports[i];
      assert ids[..i + 1] == ids[..i] + [r.externalID];
      if r.externalID in unique {
        var j :| 0 <= j < i && ids[..i][j] == r.externalID;
        assert ids[j] == ids[i];
        return false;
      }
      unique := unique + {r.externalID};
      if |r.data| > MAX_RAW_REPORT_DATA_SIZE {
        return false;
      }
    }
    assert ids[..|ids|] == ids;
    return true;
  }

  class Keeper {
    const params: Params
    var height: int64
    var time: int64
    var bonded: seq<S.Bonded>
    var jailed: map<Address, bool>
    var requestCount: nat
    var requestLastExpired: nat
    var pending: seq<RequestID>
    var requests: map<RequestID, Request>
    var reports: map<RequestID, map<Address, Report>>
    var results: map<RequestID, S.Commitment>
    var missed: map<Address, uint64>
    var reporters: set<(Address, Address)>
    var dataSources: map<DataSourceID, DataSource>
    var oracleScripts: map<OracleScriptID, OracleScript>
    ghost const genesisMissed: map<Address, uint64>
    ghost var log: seq<S.Event>

    constructor (params: Params, height: int64, bonded: seq<S.Bonded>, jailed: map<Address, bool>,
                 dataSources: map<DataSourceID, DataSource>, oracleScripts: map<OracleScriptID, OracleScript>,
                 missed: map<Address, uint64>)
      requires S.DistinctOperators(bonded) && height >= 0
      ensures S.Genesis(Store()) && Store().params == params
      ensures Store().dataSources == dataSources && Store().oracleScripts == oracleScripts
      ensures Store().missed == missed
    {
      this.params, this.height, time := params, height, 0;
      this.bonded, this.jailed := bonded, jailed;
      this.dataSources, this.oracleScripts := dataSources, oracleScripts;
      requestCount, requestLastExpired, pending := 0, 0, [];
      requests, reports, results, reporters := map[], map[], map[], {};
      this.missed, genesisMissed := missed, missed;
      log := [];
    }

    ghost function Store(): S.State
      reads this
    {
      S.State(params, height, time, bonded, jailed, requestCount, requestLastExpired, pending, requests,
              reports, results, missed, reporters, dataSources, oracleScripts, genesisMissed, log)
    }

    function ReportsOf(id: RequestID): map<Address, Report>
      reads this
    {
      if id in reports then reports[id] else map[]
    }

    function GetReportCount(id: RequestID): nat
      reads this
    {
      |ReportsOf(id)|
    }

    /** The reports of a request in the order of some iteration over them. */
    method GetReports(id: RequestID) returns (listed: seq<Report>)
      requires S.Keyed(Store())
      ensures ListsReports(listed, ReportsOf(id))
    {
      listed := [];
      var stored := ReportsOf(id);
      var left := stored.Keys;
      while left != {}
        invariant left <= stored.Keys && |listed| + |left| == |stored|
        invariant forall v :: v in stored && v !in left ==> stored[v] in listed
        invariant forall i :: 0 <= i < |listed| ==> exists v :: v in stored && stored[v] == listed[i]
        decreases |left|
      {
        var v :| v in left;
        listed := listed + [stored[v]];
        left := left - {v};
      }
    }

    // ---------- reports ----------

    method AddReport(id: RequestID, report: Report) returns (error: Option<S.Error>)
      modifies this
      ensures error == S.ReportError(old(Store()), id, report)
      ensures Store() == if error.None? then S.SetReport(old(Store()), id, report) else old(Store())
    {
      if id !in requests {
        return Some(S.RequestNotFound);
      }
      var req := requests[id];
      if report.validator !in req.requestedValidators {
        return Some(S.ValidatorNotRequested);
      }
      if report.validator in ReportsOf(id) {
        return Some(S.ValidatorAlreadyReported);
      }
      if |report.rawReports| != |req.rawRequestIDs| {
        return Some(S.InvalidDataSourceCount);
      }
      for i := 0 to |report.rawReports|
        invariant forall j :: 0 <= j < i ==> report.rawReports[j].externalID in req.rawRequestIDs
      {
        if report.rawReports[i].externalID !in req.rawRequestIDs {
          return Some(S.RawRequestNotFound);
        }
      }
      reports := reports[id := ReportsOf(id)[report.validator := report]];
      return None;
    }

    method AddPendingRequest(id: RequestID)
      modifies this
      ensures Store() == S.AddPendingRequest(old(Store()), id)
    {
      pending := pending + [id];
      log := log + [S.Pended(id)];
    }

    method HandleReport(m: S.MsgReportData) returns (error: Option<S.Error>)
      modifies this
      ensures match S.HandleReport(old(Store()), m)
              case Err(e) => error == Some(e) && Store() == old(Store())
              case Ok(s) => error == None && Store() == s
    {
      if m.validator != m.reporter && (m.validator, m.reporter) !in reporters {
        return Some(S.ReporterNotAuthorized);
      }
      error := AddReport(m.requestID, Report(m.validator, m.requestID !in results, m.rawReports));
      if error.Some? {
        return;
      }
      var req := requests[m.requestID];
      if GetReportCount(m.requestID) == req.minCount {
        AddPendingRequest(m.requestID);
      }
    }

    method ReportTx(m: S.MsgReportData)
      modifies this
      ensures Store() == S.ReportTx(old(Store()), m)
    {
      var ok := ValidateReportMessage(m);
      if ok {
        var _ := HandleReport(m);
      }
    }

    // ---------- requests ----------

    /** The iteration over the bonded validators. A number of tokens past 64 bits panics. */
    method ListValidators() returns (r: Outcome<(seq<Address>, array<uint64>)>)
      ensures r.Returned? <==> forall b :: b in bonded ==> b.tokens <= MAX_UINT64
      ensures r.Returned? ==>
                && |r.value.0| == |bonded| && (forall i :: 0 <= i < |bonded| ==> r.value.0[i] == bonded[i].operator)
                && fresh(r.value.1) && r.value.1[..] == S.Powers(bonded)
    {
      var valOperators: seq<Address> := [];
      var valPowers := new uint64[|bonded|];
      for i := 0 to |bonded|
        invariant forall j :: 0 <= j < i ==> bonded[j].tokens <= MAX_UINT64
        invariant |valOperators| == i && forall j :: 0 <= j < i ==> valOperators[j] == bonded[j].operator
        invariant forall j :: 0 <= j < i ==> valPowers[j] == bonded[j].tokens
      {
        if bonded[i].tokens > MAX_UINT64 {
          return Panicked;
        }
        valOperators := valOperators + [bonded[i].operator];
        valPowers[i] := bonded[i].tokens;
      }
      assert forall b :: b in bonded ==> b.tokens <= MAX_UINT64;
      assert valPowers[..] == S.Powers(bonded);
      return Returned((valOperators, valPowers));
    }

    method GetRandomValidators(size: int64, stream: nat -> uint64) returns (r: Result<seq<Address>, S.Error>)
      ensures r == S.RandomValidators(Store(), size, stream)
    {
      hide AreDrawn, WithinWindow, Sample;
      var listed := ListValidators();
      if listed.Panicked? {
        return Err(S.Panic);
      }
      var (valOperators, valPowers) := listed.value;
      if |valOperators| < size {
        return Err(S.InsufficientValidators);
      }
      var rng := new Rng(stream);
      var luckies := ChooseK(rng, valPowers, size);
      SampleIsSound(S.Powers(bonded), size, stream, 0);
      assert luckies.Returned? ==> forall i :: 0 <= i < |luckies.value| ==> luckies.value[i] < |bonded|;
      hide S.Powers;
      if luckies.Panicked? || size < 0 {
        return Err(S.Panic);
      }
      var validators: seq<Address> := [];
      for i := 0 to |luckies.value|
        invariant validators == S.Operators(bonded, luckies.value[..i])
      {
        validators := validators + [valOperators[luckies.value[i]]];
      }
      assert luckies.value[..|luckies.value|] == luckies.value;
      return Ok(validators);
    }

    method AddRequest(req: Request) returns (id: RequestID)
      modifies this
      ensures id == old(requestCount) + 1
      ensures Store() == S.AddRequest(old(Store()), req)
    {
      requestCount := requestCount + 1;
      id := requestCount;
      requests := requests[id := req];
    }

    method PrepareRequest(spec: RequestPacket, ibcInfo: Option<IBCInfo>, stream: nat -> uint64, prepare: S.Prepare)
        returns (error: Option<S.Error>)
      modifies this
      ensures (Store(), error) == S.PrepareRequest(old(Store()), spec, ibcInfo, stream, prepare)
    {
      hide S.RandomValidators;
      if spec.askCount > params.maxAskCount {
        return Some(S.InvalidAskCount);
      }
      var chosen := GetRandomValidators(ToInt64(spec.askCount), stream);
      if chosen.Err? {
        return Some(chosen.error);
      }
      var req := Request(spec.oracleScriptID, spec.calldata, chosen.value, spec.minCount, height, time,
                         spec.clientID, ibcInfo, []);
      var env := new ExecEnv(req, time, ToInt64(params.maxRawRequestCount));
      if req.oracleScriptID !in oracleScripts {
        return Some(S.OracleScriptNotFound);
      }
      var exitCode, asks := RunPrepare(oracleScripts[req.oracleScriptID].filename, env, prepare);
      if exitCode != 0 {
        return Some(S.BadWasmExecution);
      }
      var collected := env.GetRawRequests();
      if collected.Panicked? {
        return Some(S.Panic);
      }
      var rawRequests := collected.value;
      for i := 0 to |rawRequests|
        invariant req.rawRequestIDs == S.RawRequestIDs(rawRequests[..i])
        invariant req == S.NewRequest(old(Store()), spec, ibcInfo, chosen.value).(rawRequestIDs := req.rawRequestIDs)
        invariant Store() == old(Store())
      {
        req := req.(rawRequestIDs := req.rawRequestIDs + [rawRequests[i].externalID]);
      }
      assert rawRequests[..|rawRequests|] == rawRequests;
      var _ := AddRequest(req);
      for i := 0 to |rawRequests|
        invariant forall j :: 0 <= j < i ==> rawRequests[j].dataSourceID in dataSources
        invariant Store() == S.AddRequest(old(Store()), req)
      {
        if rawRequests[i].dataSourceID !in dataSources {
          return Some(S.DataSourceNotFound);
        }
      }
      return None;
    }

    /** Runs the prepare function of a script: every raw request it asks for goes through the environment. */
    method RunPrepare(filename: bytes, env: ExecEnv, prepare: S.Prepare) returns (exitCode: int, ghost asks: seq<RawRequest>)
      requires env.rawRequests == []
      modifies env
      ensures exitCode == prepare(filename, old(env.Contents())).exitCode
      ensures env.Contents() == old(env.Contents()).(
                rawRequests := AskAll(prepare(filename, old(env.Contents())).asks, env.maxRawRequests))
    {
      var run := prepare(filename, env.Contents());
      asks := run.asks;
      for i := 0 to |run.asks|
        invariant env.Contents() == old(env.Contents()).(rawRequests := AskAll(run.asks[..i], env.maxRawRequests))
      {
        assert run.asks[..i + 1][..i] == run.asks[..i];
        env.AskExternalData(run.asks[i]);
      }
      assert run.asks[..|run.asks|] == run.asks;
      return run.exitCode, asks;
    }

    /** A transaction: when the message fails, what it wrote is rolled back. */
    method RequestTx(spec: RequestPacket, ibcInfo: Option<IBCInfo>, stream: nat -> uint64, prepare: S.Prepare)
      modifies this
      ensures Store() == S.RequestTx(old(Store()), spec, ibcInfo, stream, prepare)
    {
      hide S.RandomValidators, S.PrepareRequest;
      S.PrepareOnlyAddsRequest(Store(), spec, ibcInfo, stream, prepare);
      if ibcInfo.None? && !S.ValidRequestMessage(spec) {
        return;
      }
      var savedCount, savedRequests := requestCount, requests;
      var error := PrepareRequest(spec, ibcInfo, stream, prepare);
      if error.Some? {
        requestCount, requests := savedCount, savedRequests;
      }
    }

    // ---------- results ----------

    method SaveResult(id: RequestID, status: ResolveStatus, result: bytes) returns (res: ResponsePacket)
      requires id in requests
      modifies this
      ensures Store() == S.SaveResult(old(Store()), id, status, result)
      ensures res == S.CommitmentOf(old(Store()), id, status, result).response
    {
      var r := requests[id];
      var req := RequestPacket(r.clientID, r.oracleScriptID, r.calldata, r.minCount, ToUint64(|r.requestedValidators|));
      res := ResponsePacket(r.clientID, id, ToUint64(GetReportCount(id)), r.requestTime, time, status, result);
      results := results[id := S.Commitment(req, res)];
      log := log + [S.Saved(id, res)];
    }

    method ResolveRequest(id: RequestID, execute: S.Execute) returns (r: Outcome<()>)
      requires S.Keyed(Store())
      modifies this
      ensures match S.ResolveRequest(old(Store()), id, execute)
              case Panicked => r.Panicked? && Store() == old(Store())
              case Returned(s) => r.Returned? && Store() == s
    {
      if id !in requests {
        return Panicked;
      }
      var req := requests[id];
      var env := new ExecEnv(req, time, 0);
      var listed := GetReports(id);
      LoadedTableIsStoredTable(listed, ReportsOf(id));
      var _ := env.SetReports(listed);
      if req.oracleScriptID !in oracleScripts {
        return Panicked;
      }
      assert env.Contents() == S.ResolveView(Store(), id);
      var run := execute(oracleScripts[req.oracleScriptID].filename, env.Contents());
      if run.exitCode != 0 {
        var _ := SaveResult(id, Failure, []);
      } else {
        env.SetReturnData(run.retdata);
        var _ := SaveResult(id, Success, env.retdata);
      }
      return Returned(());
    }

    // ---------- infractions ----------

    method HandleValidatorReport(ghost id: RequestID, validator: Address, reported: bool)
      modifies this
      ensures Store() == S.HandleValidatorReport(old(Store()), id, validator, reported)
    {
      var count: uint64 := if validator in missed then missed[validator] else 0;
      if validator !in jailed || jailed[validator] {
        missed := missed[validator := 0];
        log := log + [S.Judged(id, validator, reported, false, false)];
        return;
      }
      if reported {
        count := 0;
      } else {
        count := S.Increment(count);
      }
      ghost var jailing := count > params.maxConsecutiveMisses;
      if count > params.maxConsecutiveMisses {
        jailed := jailed[validator := true];
        count := 0;
      }
      missed := missed[validator := count];
      log := log + [S.Judged(id, validator, reported, true, jailing)];
    }

    method UpdateReportInfos(id: RequestID)
      requires id in requests
      requires S.Keyed(Store())
      modifies this
      ensures Store() == S.UpdateReportInfos(old(Store()), id)
    {
      var reportedMap: set<Address> := {};
      var listed := GetReports(id);
      for i := 0 to |listed|
        invariant reportedMap == set j | 0 <= j < i :: listed[j].validator
      {
        reportedMap := reportedMap + {listed[i].validator};
      }
      assert forall v :: v in reportedMap <==> v in ReportsOf(id) by {
        forall v | v in ReportsOf(id) ensures v in reportedMap {
          var j :| 0 <= j < |listed| && listed[j] == ReportsOf(id)[v];
          assert listed[j].validator == v;
        }
      }
      var validators := requests[id].requestedValidators;
      for n := 0 to |validators|
        invariant Store() == S.JudgeFirst(old(Store()), id, validators, n)
      {
        HandleValidatorReport(id, validators[n], validators[n] in reportedMap);
      }
    }

    // ---------- the end of a block ----------

    /** One turn of the expiry loop, on a request that has expired. */
    method ExpireOne(currentReqID: nat, req: Request)
      requires S.Keyed(Store()) && currentReqID in requests && req == requests[currentReqID]
      modifies this
      ensures Store() == S.ExpireOne(old(Store()), currentReqID)
    {
      if GetReportCount(currentReqID) < req.minCount {
        var _ := SaveResult(currentReqID, Expired, []);
      }
      UpdateReportInfos(currentReqID);
      requestLastExpired := currentReqID;
    }

    method ProcessExpiredRequests() returns (r: Outcome<()>)
      requires S.Keyed(Store())
      modifies this
      ensures match S.ProcessExpiredRequests(old(Store()))
              case Panicked => r.Panicked?
              case Returned(s) => r.Returned? && Store() == s
    {
      hide S.ExpireOne;
      var currentReqID := requestLastExpired + 1;
      var lastReqID := requestCount;
      while currentReqID <= lastReqID
        invariant currentReqID == requestLastExpired + 1 && lastReqID == requestCount
        invariant reports == old(reports)
        invariant S.ProcessExpiredRequests(Store()) == S.ProcessExpiredRequests(old(Store()))
        decreases lastReqID + 1 - currentReqID
      {
        if currentReqID !in requests {
          return Panicked;
        }
        var req := requests[currentReqID];
        if ToInt64(req.requestHeight + ToInt64(params.expirationBlockCount)) > height {
          break;
        }
        ExpireOne(currentReqID, req);
        currentReqID := currentReqID + 1;
      }
      return Returned(());
    }

    method EndBlock(execute: S.Execute) returns (r: Outcome<()>)
      requires S.Keyed(Store())
      modifies this
      ensures match S.EndBlock(old(Store()), execute)
              case Panicked => r.Panicked?
              case Returned(s) => r.Returned? && Store() == s
    {
      hide S.ResolveRequest, S.ProcessExpiredRequests;
      var ids := pending;
      for i := 0 to |ids|
        invariant reports == old(reports)
        invariant S.ResolveAll(Store(), ids[i..], execute) == S.ResolveAll(old(Store()), ids, execute)
      {
        assert ids[i..][1..] == ids[i + 1..];
        S.ResolveOnlySaves(Store(), ids[i], execute);
        var resolved := ResolveRequest(ids[i], execute);
        if resolved.Panicked? {
          return Panicked;
        }
      }
      pending := [];
      r := ProcessExpiredRequests();
    }
  }
}
