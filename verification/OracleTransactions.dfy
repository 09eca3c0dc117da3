/** What a transaction makes of the store, decided from the message and the store alone, and where
    everything that is stored comes from. */
module OracleTransactions {
  import opened MachineTypes
  import opened OracleTypes
  import opened ExecutionEnvironment
  import opened Sampling
  import opened OracleState
  import opened OracleInvariants
  import opened OracleTheorems

  // ---------- drawing validators ----------

  /** The validators are those whose positions the stream picks, draw by draw, by their tokens. */
  lemma RandomValidatorsAreDrawn(s: State, size: int64, stream: nat -> uint64) returns (weights: seq<uint64>, picks: seq<nat>)
    requires RandomValidators(s, size, stream).Ok?
    ensures |weights| == |s.bonded| && forall i :: 0 <= i < |s.bonded| ==> weights[i] == s.bonded[i].tokens
    ensures AreDrawn(weights, size, stream, 0, picks)
    ensures var validators := RandomValidators(s, size, stream).value;
            && |validators| == |picks| == size && Distinct(picks)
            && forall i :: 0 <= i < |picks| ==> picks[i] < |s.bonded| && validators[i] == s.bonded[picks[i]].operator
  {
    weights := Powers(s.bonded);
    picks := Sample(weights, size, stream, 0).value;
    SampleIsSound(weights, size, stream, 0);
    SampleIsDrawn(weights, size, stream, 0);
    hide Sample, AreDrawn, WithinWindow;
  }

  /** When all tokens are positive and their total fits 64 bits, the drawing succeeds if and only if the
      wanted number lies between 0 and the number of bonded validators. */
  lemma DrawingSucceedsIff(s: State, size: int64, stream: nat -> uint64)
    requires forall b :: b in s.bonded ==> 0 < b.tokens <= MAX_UINT64
    requires Sum(Powers(s.bonded)) <= MAX_UINT64
    ensures RandomValidators(s, size, stream).Ok? <==> 0 <= size <= |s.bonded|
    ensures RandomValidators(s, size, stream) == Err(InsufficientValidators) <==> |s.bonded| < size
  {
    SamplePanicsIffTooMany(Powers(s.bonded), size, stream, 0);
    hide Sample;
  }

  // ---------- a request ----------

  /** The run of the prepare function for a new request: it sees the request with the height and time
      of the block, and nothing else but the limit. */
  function PreparedRun(s: State, spec: RequestPacket, ibcInfo: Option<IBCInfo>, validators: seq<Address>,
                       prepare: Prepare): PrepareRun
    requires spec.oracleScriptID in s.oracleScripts
  {
    var request := Request(spec.oracleScriptID, spec.calldata, validators, spec.minCount, s.height, s.time,
                           spec.clientID, ibcInfo, []);
    prepare(s.oracleScripts[spec.oracleScriptID].filename,
            View(request, s.time, ToInt64(s.params.maxRawRequestCount), [], map[], []))
  }

  /** A request message goes through: it is valid or came over IBC, asks for no more validators than
      allowed, they can be drawn, its script exists and exits with 0, and every kept ask names a data
      source that exists. */
  ghost predicate GoesThrough(s: State, spec: RequestPacket, ibcInfo: Option<IBCInfo>, stream: nat -> uint64,
                              prepare: Prepare)
  {
    && (ibcInfo.None? ==> |spec.calldata| <= 1024 && |spec.clientID| <= 128 && 0 < spec.minCount <= spec.askCount)
    && spec.askCount <= s.params.maxAskCount
    && RandomValidators(s, ToInt64(spec.askCount), stream).Ok?
    && spec.oracleScriptID in s.oracleScripts
    && ToInt64(s.params.maxRawRequestCount) != 0
    && var run := PreparedRun(s, spec, ibcInfo, RandomValidators(s, ToInt64(spec.askCount), stream).value, prepare);
    && run.exitCode == 0
    && forall ask :: ask in Kept(run.asks, ToInt64(s.params.maxRawRequestCount)) ==> ask.dataSourceID in s.dataSources
  }

  /** The request such a message leaves behind: it carries the height and time of this block, and the
      external IDs of the kept asks. */
  function StoredRequest(s: State, spec: RequestPacket, ibcInfo: Option<IBCInfo>, stream: nat -> uint64,
                         prepare: Prepare): (r: Request)
    requires RandomValidators(s, ToInt64(spec.askCount), stream).Ok? && spec.oracleScriptID in s.oracleScripts
  {
    var validators := RandomValidators(s, ToInt64(spec.askCount), stream).value;
    var asks := Kept(PreparedRun(s, spec, ibcInfo, validators, prepare).asks, ToInt64(s.params.maxRawRequestCount));
    Request(spec.oracleScriptID, spec.calldata, validators, spec.minCount, s.height, s.time, spec.clientID, ibcInfo,
            seq(|asks|, i requires 0 <= i < |asks| => asks[i].externalID))
  }

  /** A request message changes the store if and only if it goes through, and then the next ID holds
      its request and nothing else is different. */
  lemma RequestTxIff(s: State, spec: RequestPacket, ibcInfo: Option<IBCInfo>, stream: nat -> uint64, prepare: Prepare)
    ensures RequestTx(s, spec, ibcInfo, stream, prepare) != s <==> GoesThrough(s, spec, ibcInfo, stream, prepare)
    ensures GoesThrough(s, spec, ibcInfo, stream, prepare) ==>
              RequestTx(s, spec, ibcInfo, stream, prepare)
              == s.(requestCount := s.requestCount + 1,
                    requests := s.requests[s.requestCount + 1 := StoredRequest(s, spec, ibcInfo, stream, prepare)])
  {
    hide RandomValidators, AskAll, Kept, ToInt64;
    var drawn := RandomValidators(s, ToInt64(spec.askCount), stream);
    if drawn.Ok? && spec.oracleScriptID in s.oracleScripts {
      AskAllKeepsAPrefix(PreparedRun(s, spec, ibcInfo, drawn.value, prepare).asks, ToInt64(s.params.maxRawRequestCount));
    }
  }

  // ---------- a report ----------

  /** A report message is taken: it is well formed, its reporter is the validator itself or one of its
      reporters, and it answers exactly the raw requests of a request that asks this validator, which
      has not reported yet. */
  ghost predicate IsTaken(s: State, m: MsgReportData) {
    && |m.validator.raw| == 20 && |m.reporter.raw| == 20
    && (forall i :: 0 <= i < |m.rawReports| ==> |m.rawReports[i].data| <= 1024)
    && (m.reporter == m.validator || (m.validator, m.reporter) in s.reporters)
    && m.requestID in s.requests && m.validator in s.requests[m.requestID].requestedValidators
    && (m.requestID in s.reports ==> m.validator !in s.reports[m.requestID])
    && Answers(m.rawReports, s.requests[m.requestID].rawRequestIDs)
  }

  /** The store after a taken report: the report is there, marked as early if there is no result yet, and
      the request is pending if these are now exactly as many reports as it wants. */
  function WithReport(s: State, m: MsgReportData): State
    requires m.requestID in s.requests
  {
    var stored := if m.requestID in s.reports then s.reports[m.requestID] else map[];
    var more := stored[m.validator := Report(m.validator, m.requestID !in s.results, m.rawReports)];
    var reached := |stored| + 1 == s.requests[m.requestID].minCount;
    s.(reports := s.reports[m.requestID := more],
       pending := if reached then s.pending + [m.requestID] else s.pending,
       log := if reached then s.log + [Pended(m.requestID)] else s.log)
  }

  /** A report message changes the store if and only if it is taken, and then stores its report. */
  lemma ReportTxIff(s: State, m: MsgReportData)
    ensures ReportTx(s, m) != s <==> IsTaken(s, m)
    ensures IsTaken(s, m) ==> ReportTx(s, m) == WithReport(s, m)
  {
    var report := Report(m.validator, m.requestID !in s.results, m.rawReports);
    TakenIff(s, m, report);
    TakenOrNot(s, m, report);
    hide Answers, ReportError, IsTaken, ReportTx, AcceptReport;
    if IsTaken(s, m) {
      AcceptedIsStored(s, m, report);
      TakenIsNew(s, m);
    }
  }

  lemma TakenOrNot(s: State, m: MsgReportData, report: Report)
    requires report == Report(m.validator, m.requestID !in s.results, m.rawReports)
    ensures var passes := && ValidReportMessage(m) && IsReporter(s, m.validator, m.reporter)
                          && ReportError(s, m.requestID, report).None?;
            && (!passes ==> ReportTx(s, m) == s)
            && (passes ==> m.requestID in s.requests && ReportTx(s, m) == AcceptReport(s, m.requestID, report))
  {
    hide ValidReportMessage, ReportCount, SetReport, AddPendingRequest, IsReporter;
  }

  lemma AcceptedIsStored(s: State, m: MsgReportData, report: Report)
    requires report == Report(m.validator, m.requestID !in s.results, m.rawReports)
    requires m.requestID in s.requests && m.validator !in ReportsOf(s, m.requestID)
    ensures AcceptReport(s, m.requestID, report) == WithReport(s, m)
  {
    var stored := ReportsOf(s, m.requestID);
    OneMoreReport(stored, report);
    assert ReportsOf(SetReport(s, m.requestID, report), m.requestID) == stored[m.validator := report];
  }

  lemma TakenIff(s: State, m: MsgReportData, report: Report)
    requires report.validator == m.validator && report.rawReports == m.rawReports
    ensures IsTaken(s, m) <==>
              && ValidReportMessage(m) && IsReporter(s, m.validator, m.reporter)
              && ReportError(s, m.requestID, report).None?
    ensures IsTaken(s, m) ==> m.requestID in s.requests && m.validator !in ReportsOf(s, m.requestID)
  {
    if ValidReportMessage(m) && ReportError(s, m.requestID, report).None? {
      AcceptedReportAnswers(s, m.requestID, report);
    }
    if IsTaken(s, m) {
      AnsweringPasses(report.rawReports, s.requests[m.requestID].rawRequestIDs);
    }
    hide Answers, Distinct;
  }

  lemma SameMembersSameLength<T>(a: seq<T>, b: seq<T>)
    requires Distinct(a) && Distinct(b) && forall x :: x in a <==> x in b
    ensures |a| == |b|
  {
    DistinctCount(a);
    DistinctCount(b);
    assert (set x | x in a) == set x | x in b;
  }

  /** Distinct IDs that are the same on both sides are equally many. */
  lemma AnsweringPasses(rawReports: seq<RawReport>, rawRequestIDs: seq<ExternalID>)
    requires Answers(rawReports, rawRequestIDs)
    ensures |rawReports| == |rawRequestIDs| && rawReports != [] && Distinct(ExternalIDs(rawReports))
    ensures forall raw :: raw in rawReports ==> raw.externalID in rawRequestIDs
  {
    var ids := ExternalIDs(rawReports);
    SameMembersSameLength(ids, rawRequestIDs);
    forall raw | raw in rawReports ensures raw.externalID in rawRequestIDs {
      var i :| 0 <= i < |rawReports| && rawReports[i] == raw;
      assert ids[i] == raw.externalID;
    }
  }

  lemma TakenIsNew(s: State, m: MsgReportData)
    requires m.requestID in s.requests && m.validator !in ReportsOf(s, m.requestID)
    ensures WithReport(s, m) != s
  {
    ReportsWith(s, m);
    hide WithReport;
    assert m.validator in WithReport(s, m).reports[m.requestID];
  }

  // ---------- which error a message gets ----------

  /** The error of a request message that does not go through: the first of its checks that fails. */
  lemma RequestErrorIs(s: State, spec: RequestPacket, ibcInfo: Option<IBCInfo>, stream: nat -> uint64, prepare: Prepare)
    ensures var error := PrepareRequest(s, spec, ibcInfo, stream, prepare).1;
            var drawn := RandomValidators(s, ToInt64(spec.askCount), stream);
            var asked := spec.askCount <= s.params.maxAskCount;
            && (error == Some(InvalidAskCount) <==> !asked)
            && (asked && drawn.Err? ==> error == Some(drawn.error))
            && (error == Some(OracleScriptNotFound) <==>
                  asked && drawn.Ok? && spec.oracleScriptID !in s.oracleScripts)
            && (asked && drawn.Ok? && spec.oracleScriptID in s.oracleScripts ==>
                  var run := PreparedRun(s, spec, ibcInfo, drawn.value, prepare);
                  var limit := ToInt64(s.params.maxRawRequestCount);
                  && (error == Some(BadWasmExecution) <==> run.exitCode != 0)
                  && (error == Some(Panic) <==> run.exitCode == 0 && limit == 0)
                  && (error == Some(DataSourceNotFound) <==>
                        && run.exitCode == 0 && limit != 0
                        && exists ask :: ask in Kept(run.asks, limit) && ask.dataSourceID !in s.dataSources))
  {
    DrawingErrors(s, ToInt64(spec.askCount), stream);
    hide RandomValidators, AskAll, Kept, ToInt64;
    var drawn := RandomValidators(s, ToInt64(spec.askCount), stream);
    if drawn.Ok? && spec.oracleScriptID in s.oracleScripts {
      AskAllKeepsAPrefix(PreparedRun(s, spec, ibcInfo, drawn.value, prepare).asks, ToInt64(s.params.maxRawRequestCount));
    }
  }

  /** The drawing fails for too few validators, or else by a panic. */
  lemma DrawingErrors(s: State, size: int64, stream: nat -> uint64)
    ensures var drawn := RandomValidators(s, size, stream);
            && (drawn == Err(InsufficientValidators) <==>
                  |s.bonded| < size && forall b :: b in s.bonded ==> b.tokens <= MAX_UINT64)
            && (drawn.Err? && drawn != Err(InsufficientValidators) ==> drawn == Err(Panic))
  {
    hide Sample;
  }

  /** The error of a report message that is not taken, likewise. */
  lemma ReportErrorIs(s: State, m: MsgReportData)
    ensures var r := HandleReport(s, m);
            var speaks := m.reporter == m.validator || (m.validator, m.reporter) in s.reporters;
            && (r == Err(ReporterNotAuthorized) <==> !speaks)
            && (r == Err(RequestNotFound) <==> speaks && m.requestID !in s.requests)
            && (speaks && m.requestID in s.requests ==>
                  var req := s.requests[m.requestID];
                  var asked := m.validator in req.requestedValidators;
                  var again := m.requestID in s.reports && m.validator in s.reports[m.requestID];
                  && (r == Err(ValidatorNotRequested) <==> !asked)
                  && (r == Err(ValidatorAlreadyReported) <==> asked && again)
                  && (r == Err(InvalidDataSourceCount) <==> asked && !again && |m.rawReports| != |req.rawRequestIDs|)
                  && (r == Err(RawRequestNotFound) <==>
                        && asked && !again && |m.rawReports| == |req.rawRequestIDs|
                        && exists raw :: raw in m.rawReports && raw.externalID !in req.rawRequestIDs))
  {
    hide ReportCount, SetReport, AddPendingRequest;
  }

  // ---------- over whole runs ----------

  /** In every step of every run, a request message that does not go through and a report that is not
      taken change nothing; one that does, or is, changes exactly what it should. */
  lemma MessagesDecideTheirSteps(states: seq<State>, steps: seq<Step>, i: nat)
    requires IsRun(states, steps) && i < |steps|
    ensures steps[i].DeliverRequest? ==>
              var DeliverRequest(spec, ibcInfo, stream, prepare) := steps[i];
              && (states[i + 1] != states[i] <==> GoesThrough(states[i], spec, ibcInfo, stream, prepare))
              && (GoesThrough(states[i], spec, ibcInfo, stream, prepare) ==>
                    states[i + 1] == states[i].(
                      requestCount := states[i].requestCount + 1,
                      requests := states[i].requests[states[i].requestCount + 1 :=
                                                     StoredRequest(states[i], spec, ibcInfo, stream, prepare)]))
    ensures steps[i].DeliverReport? ==>
              && (states[i + 1] != states[i] <==> IsTaken(states[i], steps[i].msg))
              && (IsTaken(states[i], steps[i].msg) ==> states[i + 1] == WithReport(states[i], steps[i].msg))
  {
    assert Follows(states[i], steps[i], states[i + 1]);
    hide RequestTx, ReportTx, GoesThrough, IsTaken, WithReport, StoredRequest, EndBlock, IsRun;
    match steps[i]
    case DeliverRequest(spec, ibcInfo, stream, prepare) => RequestTxIff(states[i], spec, ibcInfo, stream, prepare);
    case DeliverReport(m) => ReportTxIff(states[i], m);
    case _ =>
  }

  /** Only request messages add requests, and only report messages add reports. */
  lemma StepFrame(s: State, step: Step)
    requires Allowed(s, step) && Next(s, step).Returned?
    ensures !step.DeliverRequest? ==> Next(s, step).value.requests == s.requests
    ensures !step.DeliverReport? ==> Next(s, step).value.reports == s.reports
  {
    hide RequestTx, ReportTx, GoesThrough, IsTaken, EndBlock, StoredRequest, Allowed;
    match step
    case DeliverRequest(spec, ibcInfo, stream, prepare) => RequestTxIff(s, spec, ibcInfo, stream, prepare);
    case DeliverReport(m) => ReportTxIff(s, m);
    case FinishBlock(execute) => EndBlockFrame(s, execute);
    case _ =>
  }

  /** Step j stored request `id`. */
  ghost predicate WasRequested(states: seq<State>, steps: seq<Step>, j: nat, id: RequestID, request: Request)
    requires |states| == |steps| + 1
  {
    && j < |steps| && steps[j].DeliverRequest?
    && var DeliverRequest(spec, ibcInfo, stream, prepare) := steps[j];
    && GoesThrough(states[j], spec, ibcInfo, stream, prepare)
    && id == states[j].requestCount + 1
    && request == StoredRequest(states[j], spec, ibcInfo, stream, prepare)
    && request.requestHeight == states[j].height && request.requestTime == states[j].time
    && request.ibcInfo == ibcInfo
  }

  /** Every stored request was left behind by an earlier message that went through, and carries the
      height and time of the block of that message. */
  lemma {:induction false} StoredRequestsWereRequested(states: seq<State>, steps: seq<Step>, i: nat, id: RequestID)
    requires IsRun(states, steps) && i < |states| && id in states[i].requests
    ensures exists j :: 0 <= j < i && WasRequested(states, steps, j, id, states[i].requests[id])
  {
    assert Genesis(states[0]);
    if i > 0 {
      var s := states[i - 1];
      OnlyRequestsAdd(states, steps, i - 1, id);
      hide IsRun, GoesThrough, StoredRequest;
      if id in s.requests && states[i].requests[id] == s.requests[id] {
        StoredRequestsWereRequested(states, steps, i - 1, id);
      }
    }
  }

  lemma OnlyRequestsAdd(states: seq<State>, steps: seq<Step>, i: nat, id: RequestID)
    requires IsRun(states, steps) && i < |steps| && id in states[i + 1].requests
    ensures || (id in states[i].requests && states[i + 1].requests[id] == states[i].requests[id])
            || WasRequested(states, steps, i, id, states[i + 1].requests[id])
  {
    MessagesDecideTheirSteps(states, steps, i);
    assert Follows(states[i], steps[i], states[i + 1]);
    StepFrame(states[i], steps[i]);
    hide Next, Allowed, GoesThrough, IsTaken, IsRun;
  }

  /** Step j stored this report of validator v for request `id`: a message whose reporter was entitled to
      speak for v in the state before it, and marked as early if there was no result then. */
  ghost predicate WasReported(states: seq<State>, steps: seq<Step>, j: nat, id: RequestID, v: Address, report: Report)
    requires |states| == |steps| + 1
  {
    && j < |steps| && steps[j].DeliverReport?
    && var m := steps[j].msg;
    && m.requestID == id && m.validator == v
    && (m.reporter == v || (v, m.reporter) in states[j].reporters)
    && IsTaken(states[j], m)
    && report == Report(v, id !in states[j].results, m.rawReports)
  }

  /** Every stored report was delivered by an earlier step whose reporter was entitled to it. */
  lemma {:induction false} StoredReportsWereReported(states: seq<State>, steps: seq<Step>, i: nat, id: RequestID, v: Address)
    requires IsRun(states, steps) && i < |states| && id in states[i].reports && v in states[i].reports[id]
    ensures exists j :: 0 <= j < i && WasReported(states, steps, j, id, v, states[i].reports[id][v])
  {
    assert Genesis(states[0]);
    if i > 0 {
      var s := states[i - 1];
      OnlyReportsAdd(states, steps, i - 1, id, v);
      hide IsRun, IsTaken;
      if id in s.reports && v in s.reports[id] && states[i].reports[id][v] == s.reports[id][v] {
        StoredReportsWereReported(states, steps, i - 1, id, v);
      }
    }
  }

  lemma OnlyReportsAdd(states: seq<State>, steps: seq<Step>, i: nat, id: RequestID, v: Address)
    requires IsRun(states, steps) && i < |steps| && id in states[i + 1].reports && v in states[i + 1].reports[id]
    ensures || (id in states[i].reports && v in states[i].reports[id] && states[i + 1].reports[id][v] == states[i].reports[id][v])
            || WasReported(states, steps, i, id, v, states[i + 1].reports[id][v])
  {
    MessagesDecideTheirSteps(states, steps, i);
    assert Follows(states[i], steps[i], states[i + 1]);
    StepFrame(states[i], steps[i]);
    hide Next, Allowed, GoesThrough, IsRun, StoredRequest, WithReport;
    if steps[i].DeliverReport? && IsTaken(states[i], steps[i].msg) {
      OneReportAdded(states[i], steps[i].msg, id, v);
    }
    hide Answers;
  }

  lemma OneReportAdded(s: State, m: MsgReportData, id: RequestID, v: Address)
    requires m.requestID in s.requests && id in WithReport(s, m).reports && v in WithReport(s, m).reports[id]
    ensures var report := WithReport(s, m).reports[id][v];
            || (id in s.reports && v in s.reports[id] && report == s.reports[id][v])
            || (id == m.requestID && v == m.validator && report == Report(v, id !in s.results, m.rawReports))
  {
    ReportsWith(s, m);
    hide WithReport;
  }

  lemma ReportsWith(s: State, m: MsgReportData)
    requires m.requestID in s.requests
    ensures WithReport(s, m).reports
         == s.reports[m.requestID :=
                        ReportsOf(s, m.requestID)[m.validator := Report(m.validator, m.requestID !in s.results, m.rawReports)]]
  {
  }
}
