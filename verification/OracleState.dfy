/** The oracle store as a value, and what each operation of the keeper makes of it. The methods
    of `Keeper` are proved to compute these functions; the properties of whole runs are proved
    about them. */
module OracleState {
  import opened MachineTypes
  import opened OracleTypes
  import opened ExecutionEnvironment
  import opened Sampling

  /** A bonded validator, as the staking module lists it: most powerful first. */
  datatype Bonded = Bonded(operator: Address, tokens: nat)

  /** What a result commits to. The store keeps its hash. */
  datatype Commitment = Commitment(request: RequestPacket, response: ResponsePacket)

  /** The history of a run, for stating properties; nothing in the store depends on it. */
  datatype Event =
    | Pended(id: RequestID)
    | Saved(id: RequestID, response: ResponsePacket)
    | Judged(id: RequestID, validator: Address, reported: bool, active: bool, jailing: bool)

  datatype State = State(
    params: Params,
    height: int64,
    time: int64,
    bonded: seq<Bonded>,
    jailed: map<Address, bool>, // the validators the staking module knows
    requestCount: nat,
    requestLastExpired: nat,
    pending: seq<RequestID>,
    requests: map<RequestID, Request>,
    reports: map<RequestID, map<Address, Report>>,
    results: map<RequestID, Commitment>,
    missed: map<Address, uint64>,
    reporters: set<(Address, Address)>,
    dataSources: map<DataSourceID, DataSource>,
    oracleScripts: map<OracleScriptID, OracleScript>,
    genesisMissed: map<Address, uint64>, // the miss counters the chain started with: history, like the log
    log: seq<Event>)

  datatype Error =
    | InvalidMessage
    | InvalidAskCount
    | InsufficientValidators
    | OracleScriptNotFound
    | BadWasmExecution
    | DataSourceNotFound
    | ReporterNotAuthorized
    | RequestNotFound
    | ValidatorNotRequested
    | ValidatorAlreadyReported
    | InvalidDataSourceCount
    | RawRequestNotFound
    | Panic // recovered by the transaction runner

  datatype MsgReportData = MsgReportData(
    requestID: RequestID, rawReports: seq<RawReport>, validator: Address, reporter: Address)

  /** An arbitrary run of a script's prepare function: the raw requests it asks for and its exit code. */
  datatype PrepareRun = PrepareRun(asks: seq<RawRequest>, exitCode: int)

  /** An arbitrary run of a script's execute function: its exit code and the return data it set. */
  datatype ExecuteRun = ExecuteRun(exitCode: int, retdata: bytes)

  type Prepare = (bytes, View) -> PrepareRun
  type Execute = (bytes, View) -> ExecuteRun

  // ---------- reports ----------

  function ReportsOf(s: State, id: RequestID): map<Address, Report> {
    if id in s.reports then s.reports[id] else map[]
  }

  /** Every report is stored under its own request and validator. */
  ghost predicate Keyed(s: State) {
    forall id, v :: id in s.reports && v in s.reports[id] ==> s.reports[id][v].validator == v
  }

  function ReportCount(s: State, id: RequestID): nat {
    |ReportsOf(s, id)|
  }

  /** Everything AddReport checks, in its order. */
  function ReportError(s: State, id: RequestID, report: Report): Option<Error> {
    if id !in s.requests then Some(RequestNotFound)
    else
      var req := s.requests[id];
      if report.validator !in req.requestedValidators then Some(ValidatorNotRequested)
      else if report.validator in ReportsOf(s, id) then Some(ValidatorAlreadyReported)
      else if |report.rawReports| != |req.rawRequestIDs| then Some(InvalidDataSourceCount)
      else if exists raw :: raw in report.rawReports && raw.externalID !in req.rawRequestIDs then Some(RawRequestNotFound)
      else None
  }

  function SetReport(s: State, id: RequestID, report: Report): State {
    s.(reports := s.reports[id := ReportsOf(s, id)[report.validator := report]])
  }

  predicate IsReporter(s: State, validator: Address, reporter: Address) {
    validator == reporter || (validator, reporter) in s.reporters
  }

  function AddPendingRequest(s: State, id: RequestID): State {
    s.(pending := s.pending + [id], log := s.log + [Pended(id)])
  }

  function HandleReport(s: State, m: MsgReportData): Result<State, Error> {
    var report := Report(m.validator, m.requestID !in s.results, m.rawReports);
    if !IsReporter(s, m.validator, m.reporter) then Err(ReporterNotAuthorized)
    else
      match ReportError(s, m.requestID, report)
      case Some(e) => Err(e)
      case None =>
        var s1 := SetReport(s, m.requestID, report);
        if ReportCount(s1, m.requestID) == s.requests[m.requestID].minCount
        then Ok(AddPendingRequest(s1, m.requestID))
        else Ok(s1)
  }

  // ---------- requests ----------

  /** The validators of the next request, drawn from the random stream. */
  function RandomValidators(s: State, size: int64, stream: nat -> uint64): Result<seq<Address>, Error> {
    if exists b :: b in s.bonded && b.tokens > MAX_UINT64 then Err(Panic)
    else if |s.bonded| < size then Err(InsufficientValidators)
    else
      match Sample(Powers(s.bonded), size, stream, 0)
      case Panicked => Err(Panic)
      case Returned(luckies) =>
        hide *;
        if size < 0 then Err(Panic) // make([]sdk.ValAddress, size)
        else
          SampleIsSound(Powers(s.bonded), size, stream, 0);
          Ok(Operators(s.bonded, luckies))
  }

  function Powers(bonded: seq<Bonded>): seq<uint64>
    requires forall b :: b in bonded ==> b.tokens <= MAX_UINT64
  {
    seq(|bonded|, i requires 0 <= i < |bonded| => bonded[i].tokens)
  }

  function Operators(bonded: seq<Bonded>, indexes: seq<nat>): seq<Address>
    requires forall i :: 0 <= i < |indexes| ==> indexes[i] < |bonded|
  {
    seq(|indexes|, i requires 0 <= i < |indexes| => bonded[indexes[i]].operator)
  }

  /** The request PrepareRequest builds, before its raw requests are known. */
  function NewRequest(s: State, spec: RequestPacket, ibcInfo: Option<IBCInfo>, validators: seq<Address>): Request {
    Request(spec.oracleScriptID, spec.calldata, validators, spec.minCount, s.height, s.time, spec.clientID, ibcInfo, [])
  }

  function PrepareView(s: State, req: Request): View {
    View(req, s.time, ToInt64(s.params.maxRawRequestCount), [], map[], [])
  }

  function RawRequestIDs(rawRequests: seq<RawRequest>): seq<ExternalID> {
    seq(|rawRequests|, i requires 0 <= i < |rawRequests| => rawRequests[i].externalID)
  }

  function AddRequest(s: State, req: Request): State {
    s.(requestCount := s.requestCount + 1, requests := s.requests[s.requestCount + 1 := req])
  }

  /** The state PrepareRequest leaves behind together with its error: a missing data source is
      noticed only after the request has been stored. */
  function PrepareRequest(s: State, spec: RequestPacket, ibcInfo: Option<IBCInfo>, stream: nat -> uint64,
                          prepare: Prepare): (State, Option<Error>)
  {
    if spec.askCount > s.params.maxAskCount then (s, Some(InvalidAskCount))
    else
      match RandomValidators(s, ToInt64(spec.askCount), stream)
      case Err(e) => (s, Some(e))
      case Ok(validators) =>
        var req := NewRequest(s, spec, ibcInfo, validators);
        if req.oracleScriptID !in s.oracleScripts then (s, Some(OracleScriptNotFound))
        else
          var view := PrepareView(s, req);
          var run := prepare(s.oracleScripts[req.oracleScriptID].filename, view);
          if run.exitCode != 0 then (s, Some(BadWasmExecution))
          else if view.maxRawRequests == 0 then (s, Some(Panic)) // GetRawRequests
          else
            var rawRequests := AskAll(run.asks, view.maxRawRequests);
            var s1 := AddRequest(s, req.(rawRequestIDs := RawRequestIDs(rawRequests)));
            if exists raw :: raw in rawRequests && raw.dataSourceID !in s.dataSources
            then (s1, Some(DataSourceNotFound))
            else (s1, None)
  }

  lemma PrepareOnlyAddsRequest(s: State, spec: RequestPacket, ibcInfo: Option<IBCInfo>, stream: nat -> uint64, prepare: Prepare)
    ensures var s1 := PrepareRequest(s, spec, ibcInfo, stream, prepare).0;
            || s1 == s
            || exists req :: s1 == AddRequest(s, req)
  {
    hide RandomValidators;
  }

  /** MsgRequestData.ValidateBasic, but for the format of the sender address. */
  predicate ValidRequestMessage(spec: RequestPacket) {
    && |spec.calldata| <= MAX_CALLDATA_SIZE
    && spec.minCount > 0
    && spec.askCount >= spec.minCount
    && |spec.clientID| <= MAX_CLIENT_ID_LENGTH
  }

  /** sdk.VerifyAddressFormat. */
  predicate IsAddress(a: Address) {
    |a.raw| == 20
  }

  /** MsgReportData.ValidateBasic. */
  ghost predicate ValidReportMessage(m: MsgReportData) {
    && IsAddress(m.validator) && IsAddress(m.reporter)
    && m.rawReports != []
    && Distinct(ExternalIDs(m.rawReports))
    && forall i :: 0 <= i < |m.rawReports| ==> |m.rawReports[i].data| <= MAX_RAW_REPORT_DATA_SIZE
  }

  // ---------- results ----------

  /** The request packet a result commits to. The code hands MinCount to the parameter called
      AskCount and the number of requested validators to the one called MinCount. */
  function CommittedPacket(r: Request): RequestPacket {
    RequestPacket(r.clientID, r.oracleScriptID, r.calldata, r.minCount, ToUint64(|r.requestedValidators|))
  }

  function CommitmentOf(s: State, id: RequestID, status: ResolveStatus, result: bytes): Commitment
    requires id in s.requests
  {
    var r := s.requests[id];
    Commitment(
      CommittedPacket(r),
      ResponsePacket(r.clientID, id, ToUint64(ReportCount(s, id)), r.requestTime, s.time, status, result))
  }

  function SaveResult(s: State, id: RequestID, status: ResolveStatus, result: bytes): State
    requires id in s.requests
  {
    var c := CommitmentOf(s, id, status, result);
    s.(results := s.results[id := c], log := s.log + [Saved(id, c.response)])
  }

  function ResolveView(s: State, id: RequestID): View
    requires id in s.requests
  {
    View(s.requests[id], s.time, 0, [], TableOf(ReportsOf(s, id)), [])
  }

  /** Panics if the request or its script is missing. */
  function ResolveRequest(s: State, id: RequestID, execute: Execute): Outcome<State> {
    if id !in s.requests || s.requests[id].oracleScriptID !in s.oracleScripts then Panicked
    else
      var run := execute(s.oracleScripts[s.requests[id].oracleScriptID].filename, ResolveView(s, id));
      if run.exitCode != 0 then Returned(SaveResult(s, id, Failure, []))
      else Returned(SaveResult(s, id, Success, run.retdata))
  }

  lemma ResolveOnlySaves(s: State, id: RequestID, execute: Execute)
    ensures var r := ResolveRequest(s, id, execute);
            r.Returned? ==> r.value == s.(results := r.value.results, log := r.value.log)
  {
  }

  function ResolveAll(s: State, ids: seq<RequestID>, execute: Execute): (r: Outcome<State>)
    ensures r.Returned? ==> r.value == s.(results := r.value.results, log := r.value.log)
    decreases |ids|
  {
    if ids == [] then Returned(s)
    else
      match ResolveRequest(s, ids[0], execute)
      case Panicked => Panicked
      case Returned(s1) => ResolveAll(s1, ids[1..], execute)
  }

  // ---------- infractions ----------

  function MissedBy(s: State, validator: Address): uint64 {
    CountIn(s.missed, validator)
  }

  /** GetValidatorReportInfoWithDefault. */
  function CountIn(missed: map<Address, uint64>, validator: Address): uint64 {
    if validator in missed then missed[validator] else 0
  }

  function Increment(count: uint64): uint64 {
    (count + 1) % TWO_TO_64
  }

  /** HandleValidatorReport; `id` is the request the verdict is about. */
  function HandleValidatorReport(s: State, id: RequestID, validator: Address, reported: bool): State {
    if validator !in s.jailed || s.jailed[validator] then
      s.(missed := s.missed[validator := 0], log := s.log + [Judged(id, validator, reported, false, false)])
    else
      var missed := if reported then 0 else Increment(MissedBy(s, validator));
      if missed > s.params.maxConsecutiveMisses then
        s.(jailed := s.jailed[validator := true], missed := s.missed[validator := 0],
           log := s.log + [Judged(id, validator, reported, true, true)])
      else
        s.(missed := s.missed[validator := missed],
           log := s.log + [Judged(id, validator, reported, true, false)])
  }

  /** The first n requested validators of request `id` have been judged. */
  function JudgeFirst(s: State, id: RequestID, validators: seq<Address>, n: nat): (r: State)
    requires n <= |validators|
    ensures r == s.(jailed := r.jailed, missed := r.missed, log := r.log)
  {
    if n == 0 then s
    else
      var s1 := JudgeFirst(s, id, validators, n - 1);
      HandleValidatorReport(s1, id, validators[n - 1], validators[n - 1] in ReportsOf(s1, id))
  }

  function UpdateReportInfos(s: State, id: RequestID): State
    requires id in s.requests
  {
    JudgeFirst(s, id, s.requests[id].requestedValidators, |s.requests[id].requestedValidators|)
  }

  // ---------- the end of a block ----------

  /** `req.RequestHeight + expirationBlockCount <= ctx.BlockHeight()` in 64-bit arithmetic. */
  predicate HasExpired(s: State, req: Request) {
    ToInt64(req.requestHeight + ToInt64(s.params.expirationBlockCount)) <= s.height
  }

  /** One turn of the expiry loop on request `id`. */
  function ExpireOne(s: State, id: RequestID): (r: State)
    requires id in s.requests && id >= 0
    ensures r == s.(results := r.results, jailed := r.jailed, missed := r.missed, log := r.log,
                    requestLastExpired := id)
  {
    var s1 := if ReportCount(s, id) < s.requests[id].minCount then SaveResult(s, id, Expired, []) else s;
    UpdateReportInfos(s1, id).(requestLastExpired := id)
  }

  function ProcessExpiredRequests(s: State): (r: Outcome<State>)
    ensures r.Returned? ==>
              r.value == s.(results := r.value.results, jailed := r.value.jailed, missed := r.value.missed,
                            log := r.value.log, requestLastExpired := r.value.requestLastExpired)
    decreases s.requestCount - s.requestLastExpired
  {
    if s.requestLastExpired >= s.requestCount then Returned(s)
    else
      var id := s.requestLastExpired + 1;
      if id !in s.requests then Panicked
      else if !HasExpired(s, s.requests[id]) then Returned(s)
      else ProcessExpiredRequests(ExpireOne(s, id))
  }

  function EndBlock(s: State, execute: Execute): Outcome<State> {
    match ResolveAll(s, s.pending, execute)
    case Panicked => Panicked
    case Returned(s1) => ProcessExpiredRequests(s1.(pending := []))
  }

  // ---------- runs ----------

  datatype Step =
    | BeginBlock(time: int64)
    | StakingChange(bonded: seq<Bonded>, jailed: map<Address, bool>)
    | ScriptChange(dataSources: map<DataSourceID, DataSource>, oracleScripts: map<OracleScriptID, OracleScript>)
    | ReporterChange(reporters: set<(Address, Address)>)
    | DeliverRequest(spec: RequestPacket, ibcInfo: Option<IBCInfo>, stream: nat -> uint64, prepare: Prepare)
    | DeliverReport(msg: MsgReportData)
    | FinishBlock(execute: Execute)

  /** The environment may change what belongs to it: the staking module keeps operators distinct,
      scripts and data sources are edited but never removed, and heights fit 64 bits. */
  ghost predicate Allowed(s: State, step: Step) {
    match step
    case BeginBlock(_) => s.height < MAX_INT64
    case StakingChange(bonded, _) => DistinctOperators(bonded)
    case ScriptChange(dataSources, oracleScripts) =>
      s.dataSources.Keys <= dataSources.Keys && s.oracleScripts.Keys <= oracleScripts.Keys
    case _ => true
  }

  ghost predicate DistinctOperators(bonded: seq<Bonded>) {
    forall i, j :: 0 <= i < j < |bonded| ==> bonded[i].operator != bonded[j].operator
  }

  /** A transaction: a failing message leaves the state unchanged. A request that arrives over IBC
      is not validated first. */
  function RequestTx(s: State, spec: RequestPacket, ibcInfo: Option<IBCInfo>, stream: nat -> uint64,
                     prepare: Prepare): State
  {
    if ibcInfo.None? && !ValidRequestMessage(spec) then s
    else
      var (s1, error) := PrepareRequest(s, spec, ibcInfo, stream, prepare);
      if error.Some? then s else s1
  }

  ghost function ReportTx(s: State, m: MsgReportData): State {
    if !ValidReportMessage(m) then s
    else
      match HandleReport(s, m)
      case Err(_) => s
      case Ok(s1) => s1
  }

  ghost function Next(s: State, step: Step): Outcome<State>
    requires Allowed(s, step)
  {
    match step
    case BeginBlock(time) => Returned(s.(height := s.height + 1, time := time))
    case StakingChange(bonded, jailed) => Returned(s.(bonded := bonded, jailed := jailed))
    case ScriptChange(dataSources, oracleScripts) =>
      Returned(s.(dataSources := dataSources, oracleScripts := oracleScripts))
    case ReporterChange(reporters) => Returned(s.(reporters := reporters))
    case DeliverRequest(spec, ibcInfo, stream, prepare) => Returned(RequestTx(s, spec, ibcInfo, stream, prepare))
    case DeliverReport(m) => Returned(ReportTx(s, m))
    case FinishBlock(execute) => EndBlock(s, execute)
  }

  /** A genesis without results: nothing has been requested yet. Miss counters may be carried over. */
  ghost predicate Genesis(s: State) {
    && s.requestCount == 0 && s.requestLastExpired == 0 && s.pending == []
    && s.requests == map[] && s.reports == map[] && s.results == map[] && s.genesisMissed == s.missed
    && DistinctOperators(s.bonded) && s.height >= 0 && s.log == []
  }

  /** A run of the chain: states[i + 1] follows states[i] by steps[i]. */
  ghost predicate IsRun(states: seq<State>, steps: seq<Step>) {
    IsPath(states, steps) && Genesis(states[0])
  }

  /** The same from any state. */
  ghost predicate IsPath(states: seq<State>, steps: seq<Step>) {
    && |states| == |steps| + 1
    && forall i :: 0 <= i < |steps| ==> Follows(states[i], steps[i], states[i + 1])
  }

  ghost predicate Follows(s: State, step: Step, next: State) {
    Allowed(s, step) && Next(s, step) == Returned(next)
  }
}
