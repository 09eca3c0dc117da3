/** What every step of the oracle keeps. */
module OracleInvariants {
  import opened MachineTypes
  import opened OracleTypes
  import opened ExecutionEnvironment
  import opened Sampling
  import opened OracleState

  // ---------- reading the history ----------

  /** How often request `id` has entered the pending list. */
  function PendedCount(log: seq<Event>, id: RequestID): nat {
    if log == [] then 0
    else PendedCount(log[..|log| - 1], id) + if log[|log| - 1] == Pended(id) then 1 else 0
  }

  /** The responses written for request `id`, oldest first. */
  function Saves(log: seq<Event>, id: RequestID): seq<ResponsePacket> {
    if log == [] then []
    else
      var e := log[|log| - 1];
      Saves(log[..|log| - 1], id) + if e.Saved? && e.id == id then [e.response] else []
  }

  /** The (request, validator) pairs judged so far, in order. */
  function Verdicts(log: seq<Event>): seq<(RequestID, Address)> {
    if log == [] then []
    else
      var e := log[|log| - 1];
      Verdicts(log[..|log| - 1]) + if e.Judged? then [(e.id, e.validator)] else []
  }

  /** The validator's current run of misses: verdicts since it last reported, was jailed, or was
      judged while inactive. Until the first of these the run goes on from what genesis says. */
  function MissRun(log: seq<Event>, start: map<Address, uint64>, validator: Address): nat {
    if log == [] then CountIn(start, validator)
    else
      var e := log[|log| - 1];
      if e.Judged? && e.validator == validator then
        if e.reported || !e.active || e.jailing then 0 else MissRun(log[..|log| - 1], start, validator) + 1
      else MissRun(log[..|log| - 1], start, validator)
  }

  /** A run of misses as the 64-bit counter holds it. */
  function Counter(run: nat): uint64 {
    run % TWO_TO_64
  }

  lemma CounterSteps(run: nat)
    ensures Increment(Counter(run)) == Counter(run + 1)
    ensures run < TWO_TO_64 ==> Counter(run) == run
  {
  }

  /** Every verdict so far jailed an active validator if and only if it was a miss that took the
      counter past the maximum. */
  ghost predicate JailingsExact(log: seq<Event>, start: map<Address, uint64>, maxMisses: uint64) {
    forall i :: 0 <= i < |log| && log[i].Judged? ==> JailingExact(log[..i], log[i], start, maxMisses)
  }

  predicate JailingExact(before: seq<Event>, e: Event, start: map<Address, uint64>, maxMisses: uint64)
    requires e.Judged?
  {
    e.jailing <==> e.active && !e.reported && Counter(MissRun(before, start, e.validator) + 1) > maxMisses
  }

  lemma LogGrows(log: seq<Event>, e: Event, id: RequestID)
    ensures PendedCount(log + [e], id) == PendedCount(log, id) + if e == Pended(id) then 1 else 0
    ensures Saves(log + [e], id) == Saves(log, id) + if e.Saved? && e.id == id then [e.response] else []
    ensures Verdicts(log + [e]) == Verdicts(log) + if e.Judged? then [(e.id, e.validator)] else []
  {
    assert (log + [e])[..|log|] == log;
  }

  lemma MissRunGrows(log: seq<Event>, e: Event, start: map<Address, uint64>, validator: Address)
    ensures MissRun(log + [e], start, validator)
         == if e.Judged? && e.validator == validator then
              if e.reported || !e.active || e.jailing then 0 else MissRun(log, start, validator) + 1
            else MissRun(log, start, validator)
  {
    assert (log + [e])[..|log|] == log;
  }

  // ---------- the invariants ----------

  /** Requests are exactly 1..requestCount in the order of their heights, and each keeps a script
      that exists and validators that differ. */
  ghost predicate Shape(s: State) {
    && (forall id :: id in s.requests <==> 1 <= id <= s.requestCount)
    && s.requestLastExpired <= s.requestCount
    && 0 <= s.height
    && (forall id :: id in s.requests ==> WellFormed(s, s.requests[id]))
    && (forall i, j :: i in s.requests && j in s.requests && i <= j ==>
          s.requests[i].requestHeight <= s.requests[j].requestHeight)
    && DistinctOperators(s.bonded)
  }

  ghost predicate WellFormed(s: State, req: Request) {
    && req.oracleScriptID in s.oracleScripts
    && 0 <= req.requestHeight <= s.height
    && Distinct(req.requestedValidators)
    && |req.requestedValidators| <= MAX_INT64
  }

  /** Reports come from requested validators and answer exactly the raw requests. */
  ghost predicate ReportsFit(s: State) {
    forall id :: id in s.reports ==> id in s.requests && AllFit(s.requests[id], s.reports[id])
  }

  ghost predicate AllFit(req: Request, stored: map<Address, Report>) {
    forall v :: v in stored ==>
      && v in req.requestedValidators
      && stored[v].validator == v
      && Answers(stored[v].rawReports, req.rawRequestIDs)
  }

  /** The external IDs are those of the raw requests, each once on both sides. */
  ghost predicate Answers(rawReports: seq<RawReport>, rawRequestIDs: seq<ExternalID>) {
    && rawReports != []
    && Distinct(ExternalIDs(rawReports))
    && Distinct(rawRequestIDs)
    && (forall x :: x in ExternalIDs(rawReports) <==> x in rawRequestIDs)
  }

  function Flagged(stored: map<Address, Report>): set<Address> {
    set v | v in stored && stored[v].inBeforeResolve
  }

  ghost predicate Reached(s: State, id: RequestID)
    requires id in s.requests
  {
    1 <= s.requests[id].minCount <= ReportCount(s, id)
  }

  /** The life of every request, while the requests of `todo` still wait to be resolved. */
  ghost predicate Life(s: State, todo: seq<RequestID>) {
    Distinct(todo) && forall id: RequestID :: LifeOf(s, todo, id)
  }

  ghost predicate LifeOf(s: State, todo: seq<RequestID>, id: RequestID) {
    var saves := Saves(s.log, id);
    if id !in s.requests then
      PendedCount(s.log, id) == 0 && saves == [] && id !in s.results && id !in s.reports && id !in todo
    else
      && PendedCount(s.log, id) == (if Reached(s, id) then 1 else 0)
      && (id in todo ==> Reached(s, id))
      && SavesFit(saves, Reached(s, id) && id !in todo, s.requests[id].minCount)
      && (saves != [] && saves[0].resolveStatus == Expired ==> id <= s.requestLastExpired)
      && (id <= s.requestLastExpired && s.requests[id].minCount >= 1 ==> saves != [])
      && (id in s.results <==> saves != [])
      && (saves != [] ==> s.results[id] == Commitment(CommittedPacket(s.requests[id]), saves[|saves| - 1]))
      && |Flagged(ReportsOf(s, id))| == (if saves == [] then ReportCount(s, id) else saves[0].ansCount)
  }

  /** At most one Expired response, then at most one Success or Failure, and nothing after it. */
  ghost predicate SavesFit(saves: seq<ResponsePacket>, resolved: bool, minCount: uint64) {
    && |saves| <= 2
    && (|saves| == 2 ==> resolved && saves[0].resolveStatus == Expired)
    && (resolved ==> saves != [] && IsFinal(saves[|saves| - 1]) && saves[|saves| - 1].ansCount >= minCount)
    && (!resolved && saves != [] ==> saves[0].resolveStatus == Expired)
    && (saves != [] && saves[0].resolveStatus == Expired ==> saves[0].ansCount < minCount)
  }

  predicate IsFinal(response: ResponsePacket) {
    response.resolveStatus == Success || response.resolveStatus == Failure
  }

  /** The verdicts that are due once the requests 1..n have expired: one for each requested
      validator of each of them, in order. */
  function Due(requests: map<RequestID, Request>, n: nat): seq<(RequestID, Address)>
    requires forall id :: 1 <= id <= n ==> id in requests
  {
    if n == 0 then []
    else Due(requests, n - 1) + PairsOf(n, requests[n].requestedValidators)
  }

  function PairsOf(id: RequestID, validators: seq<Address>): seq<(RequestID, Address)> {
    seq(|validators|, i requires 0 <= i < |validators| => (id, validators[i]))
  }

  ghost predicate Judging(s: State)
    requires Shape(s)
  {
    Verdicts(s.log) == Due(s.requests, s.requestLastExpired)
  }

  /** Counters and jailings agree with the history. */
  ghost predicate Misses(s: State) {
    && (forall v :: MissedBy(s, v) == Counter(MissRun(s.log, s.genesisMissed, v)))
    && JailingsExact(s.log, s.genesisMissed, s.params.maxConsecutiveMisses)
  }

  /** Requests at or below the last expired one have expired. */
  ghost predicate Frontier(s: State)
    requires Shape(s)
  {
    forall id :: 1 <= id <= s.requestLastExpired ==> HasExpired(s, s.requests[id])
  }

  ghost predicate Inv(s: State) {
    InvWith(s, s.pending)
  }

  ghost predicate InvWith(s: State, todo: seq<RequestID>) {
    && Shape(s)
    && ReportsFit(s)
    && Life(s, todo)
    && Judging(s)
    && Misses(s)
    && Frontier(s)
  }

  /** A request nobody touched keeps its life. */
  lemma LifeFrame(s: State, todo: seq<RequestID>, s1: State, todo1: seq<RequestID>, id: RequestID)
    requires LifeOf(s, todo, id)
    requires id in s.requests <==> id in s1.requests
    requires id in s.requests ==> s1.requests[id] == s.requests[id]
    requires id in s.reports <==> id in s1.reports
    requires ReportsOf(s1, id) == ReportsOf(s, id)
    requires id in s.results <==> id in s1.results
    requires id in s.results ==> s1.results[id] == s.results[id]
    requires PendedCount(s1.log, id) == PendedCount(s.log, id) && Saves(s1.log, id) == Saves(s.log, id)
    requires id in todo <==> id in todo1
    requires s.requestLastExpired <= s1.requestLastExpired
    requires s.requestLastExpired < id <= s1.requestLastExpired && id in s.requests && s.requests[id].minCount >= 1
             ==> Saves(s.log, id) != []
    ensures LifeOf(s1, todo1, id)
  {}

  lemma {:induction false} DueOnlyReadsPrefix(a: map<RequestID, Request>, b: map<RequestID, Request>, n: nat)
    requires forall id :: 1 <= id <= n ==> id in a && id in b && a[id] == b[id]
    ensures Due(a, n) == Due(b, n)
  {
    if n > 0 {
      DueOnlyReadsPrefix(a, b, n - 1);
    }
  }

  /** Steps that judge nobody keep the verdicts in line and the frontier behind them. */
  lemma VerdictFrame(s: State, s1: State)
    requires Shape(s) && Judging(s) && Frontier(s) && Shape(s1)
    requires s1.requestLastExpired == s.requestLastExpired
    requires forall id :: 1 <= id <= s.requestLastExpired ==> s1.requests[id] == s.requests[id]
    requires Verdicts(s1.log) == Verdicts(s.log)
    requires s1.params == s.params && s1.height >= s.height
    ensures Judging(s1) && Frontier(s1)
  {
    hide WellFormed, DistinctOperators, ToInt64;
    DueOnlyReadsPrefix(s.requests, s1.requests, s.requestLastExpired);
    forall id | 1 <= id <= s1.requestLastExpired ensures HasExpired(s1, s1.requests[id]) {
      assert HasExpired(s, s.requests[id]);
    }
  }

  lemma MissesFrame(s: State, s1: State)
    requires Misses(s) && s1.log == s.log && s1.missed == s.missed && s1.params == s.params
    requires s1.genesisMissed == s.genesisMissed
    ensures Misses(s1)
  {
    assert forall v :: MissedBy(s1, v) == MissedBy(s, v);
  }

  // ---------- requests ----------

  /** Whatever ChooseK draws, the validators of a request are different. */
  lemma RandomValidatorsDistinct(s: State, size: int64, stream: nat -> uint64)
    requires DistinctOperators(s.bonded) && RandomValidators(s, size, stream).Ok?
    ensures Distinct(RandomValidators(s, size, stream).value)
    ensures |RandomValidators(s, size, stream).value| == size
    ensures forall v :: v in RandomValidators(s, size, stream).value ==> exists b :: b in s.bonded && b.operator == v
  {
    SampleIsSound(Powers(s.bonded), size, stream, 0);
    var luckies := Sample(Powers(s.bonded), size, stream, 0).value;
    var chosen := Operators(s.bonded, luckies);
    forall i, j | 0 <= i < j < |chosen| ensures chosen[i] != chosen[j] {
      assert luckies[i] != luckies[j];
    }
    forall v | v in chosen ensures exists b :: b in s.bonded && b.operator == v {
      var i :| 0 <= i < |chosen| && chosen[i] == v;
      assert s.bonded[luckies[i]] in s.bonded;
    }
  }

  lemma AddRequestKeepsShape(s: State, req: Request)
    requires Shape(s) && WellFormed(s, req) && req.requestHeight == s.height
    ensures Shape(AddRequest(s, req))
  {
    var s1 := AddRequest(s, req);
    forall i, j | i in s1.requests && j in s1.requests && i <= j
      ensures s1.requests[i].requestHeight <= s1.requests[j].requestHeight
    {
      assert i in s.requests ==> WellFormed(s, s.requests[i]);
    }
    forall id | id in s1.requests ensures WellFormed(s1, s1.requests[id]) {
      assert id in s.requests ==> WellFormed(s, s.requests[id]);
    }
  }

  lemma AddRequestKeepsLife(s: State, req: Request)
    requires Shape(s) && Life(s, s.pending)
    ensures Life(AddRequest(s, req), s.pending)
  {
    var s1 := AddRequest(s, req);
    forall id: RequestID ensures LifeOf(s1, s.pending, id) {
      assert LifeOf(s, s.pending, id);
      assert ReportsOf(s1, id) == ReportsOf(s, id);
      if id == s1.requestCount {
        assert id !in s.requests;
        assert Flagged(ReportsOf(s1, id)) == {};
      }
    }
  }

  lemma AddRequestKeepsInv(s: State, req: Request)
    requires Inv(s) && WellFormed(s, req) && req.requestHeight == s.height
    ensures Inv(AddRequest(s, req))
  {
    hide Life, AllFit, Shape, Judging, Frontier, Misses;
    AddRequestKeepsShape(s, req);
    AddRequestKeepsOldRequests(s, req);
    AddRequestKeepsLife(s, req);
    VerdictFrame(s, AddRequest(s, req));
    MissesFrame(s, AddRequest(s, req));
  }

  lemma AddRequestKeepsOldRequests(s: State, req: Request)
    requires Shape(s)
    ensures forall id :: id in s.requests ==> id in AddRequest(s, req).requests && AddRequest(s, req).requests[id] == s.requests[id]
    ensures forall id :: 1 <= id <= s.requestLastExpired ==> AddRequest(s, req).requests[id] == s.requests[id]
  {}

  lemma RequestTxKeepsInv(s: State, spec: RequestPacket, ibcInfo: Option<IBCInfo>, stream: nat -> uint64, prepare: Prepare)
    requires Inv(s)
    ensures Inv(RequestTx(s, spec, ibcInfo, stream, prepare))
  {
    hide RandomValidators, AskAll, Life, Misses;
    var (s1, error) := PrepareRequest(s, spec, ibcInfo, stream, prepare);
    if error.None? {
      RandomValidatorsDistinct(s, ToInt64(spec.askCount), stream);
      AddRequestKeepsInv(s, s1.requests[s1.requestCount]);
    }
  }

  // ---------- reports ----------

  lemma CountOfMembers<T>(members: set<T>, listed: seq<T>)
    requires forall x :: x in members ==> x in listed
    ensures |members| <= |listed|
    decreases |listed|
  {
    if listed != [] {
      var last := listed[|listed| - 1];
      CountOfMembers(members - {last}, listed[..|listed| - 1]);
      assert members <= (members - {last}) + {last};
    } else {
      assert members == {};
    }
  }

  /** As many distinct members as the list is long: then the members are the whole list, and the
      list repeats nothing. */
  lemma Pigeonhole<T>(members: seq<T>, listed: seq<T>)
    requires Distinct(members) && |members| == |listed|
    requires forall x :: x in members ==> x in listed
    ensures Distinct(listed)
    ensures forall x :: x in members <==> x in listed
  {
    var m := set x | x in members;
    DistinctCount(members);
    forall i, j | 0 <= i < j < |listed| ensures listed[i] != listed[j] {
      if listed[i] == listed[j] {
        CountOfMembers(m, WithoutIndex(listed, j));
      }
    }
    forall i | 0 <= i < |listed| ensures listed[i] in members {
      if listed[i] !in members {
        CountOfMembers(m, WithoutIndex(listed, i));
      }
    }
  }

  lemma {:induction false} DistinctCount<T>(listed: seq<T>)
    requires Distinct(listed)
    ensures |set x | x in listed| == |listed|
  {
    if listed != [] {
      var n := |listed| - 1;
      DistinctCount(listed[..n]);
      assert (set x | x in listed) == (set x | x in listed[..n]) + {listed[n]};
    }
  }

  /** A report that passes ValidateBasic and AddReport has exactly the external IDs of the raw
      requests, which are then free of duplicates. */
  lemma AcceptedReportAnswers(s: State, id: RequestID, report: Report)
    requires report.rawReports != [] && Distinct(ExternalIDs(report.rawReports))
    requires ReportError(s, id, report).None?
    ensures Answers(report.rawReports, s.requests[id].rawRequestIDs)
  {
    var ids := ExternalIDs(report.rawReports);
    forall x | x in ids ensures x in s.requests[id].rawRequestIDs {
      var i :| 0 <= i < |ids| && ids[i] == x;
      assert report.rawReports[i] in report.rawReports;
    }
    Pigeonhole(ids, s.requests[id].rawRequestIDs);
  }

  lemma FlaggedGrows(stored: map<Address, Report>, report: Report)
    requires report.validator !in stored
    ensures |Flagged(stored[report.validator := report])|
         == |Flagged(stored)| + if report.inBeforeResolve then 1 else 0
  {
    var stored1 := stored[report.validator := report];
    if report.inBeforeResolve {
      assert Flagged(stored1) == Flagged(stored) + {report.validator};
    } else {
      assert Flagged(stored1) == Flagged(stored);
    }
  }

  lemma OneMoreReport(stored: map<Address, Report>, report: Report)
    requires report.validator !in stored
    ensures |stored[report.validator := report]| == |stored| + 1
    ensures |Flagged(stored[report.validator := report])|
         == |Flagged(stored)| + if report.inBeforeResolve then 1 else 0
  {
    var stored1 := stored[report.validator := report];
    assert stored1.Keys == stored.Keys + {report.validator};
    FlaggedGrows(stored, report);
  }

  /** The state after a report of a request has been stored, and the request has been put on the
      pending list if that report was the one that reached the minimum. */
  function AcceptReport(s: State, id: RequestID, report: Report): State
    requires id in s.requests
  {
    var s1 := SetReport(s, id, report);
    if ReportCount(s1, id) == s.requests[id].minCount then AddPendingRequest(s1, id) else s1
  }

  lemma AcceptReportPends(s: State, id: RequestID, report: Report)
    requires id in s.requests
    ensures var s1 := AcceptReport(s, id, report);
            || (s1.pending == s.pending && s1.log == s.log)
            || (s1.pending == s.pending + [id] && s1.log == s.log + [Pended(id)])
  {}

  lemma AcceptReportFrame(s: State, id: RequestID, report: Report, other: RequestID)
    requires id in s.requests && other != id
    ensures var s1 := AcceptReport(s, id, report);
            && s1 == s.(reports := s1.reports, pending := s1.pending, log := s1.log)
            && (other in s.reports <==> other in s1.reports) && ReportsOf(s1, other) == ReportsOf(s, other)
  {
    hide ReportCount;
  }

  lemma AcceptReportKeepsLifeOfOthers(s: State, id: RequestID, report: Report, other: RequestID)
    requires id in s.requests && other != id && LifeOf(s, s.pending, other)
    ensures LifeOf(AcceptReport(s, id, report), AcceptReport(s, id, report).pending, other)
  {
    hide LifeOf, AcceptReport, PendedCount, Saves;
    var s1 := AcceptReport(s, id, report);
    LogGrows(s.log, Pended(id), other);
    AcceptReportFrame(s, id, report, other);
    AcceptReportPends(s, id, report);
    LifeFrame(s, s.pending, s1, s1.pending, other);
  }

  lemma AcceptReportKeepsLifeOfItself(s: State, id: RequestID, report: Report)
    requires id in s.requests && LifeOf(s, s.pending, id)
    requires report.validator !in ReportsOf(s, id)
    requires report.inBeforeResolve <==> id !in s.results
    ensures LifeOf(AcceptReport(s, id, report), AcceptReport(s, id, report).pending, id)
  {
    hide Flagged, CommittedPacket, PendedCount, Saves;
    var s1 := AcceptReport(s, id, report);
    LogGrows(s.log, Pended(id), id);
    OneMoreReport(ReportsOf(s, id), report);
    assert ReportsOf(s1, id) == ReportsOf(s, id)[report.validator := report];
    assert ReportCount(s1, id) == ReportCount(s, id) + 1;
    AcceptReportPends(s, id, report);
    if ReportCount(s1, id) == s.requests[id].minCount {
      assert id in s1.pending;
      assert Saves(s1.log, id) == Saves(s.log, id);
    } else {
      assert s1.pending == s.pending;
    }
  }

  lemma AcceptReportKeepsInv(s: State, id: RequestID, report: Report)
    requires Inv(s) && ReportError(s, id, report).None?
    requires report.rawReports != [] && Distinct(ExternalIDs(report.rawReports))
    requires report.inBeforeResolve <==> id !in s.results
    ensures Inv(AcceptReport(s, id, report))
  {
    hide Life, Misses, ReportsFit, ReportError, Judging, Frontier, Verdicts, DistinctOperators, Distinct;
    AcceptReportKeepsFit(s, id, report);
    AcceptReportKeepsLife(s, id, report);
    AcceptReportKeepsMisses(s, id, report);
    LogGrows(s.log, Pended(id), id);
    VerdictFrame(s, AcceptReport(s, id, report));
  }

  lemma AcceptReportKeepsMisses(s: State, id: RequestID, report: Report)
    requires id in s.requests && Misses(s)
    ensures Misses(AcceptReport(s, id, report))
  {
    HistoryKeepsMisses(s, Pended(id), AddPendingRequest(SetReport(s, id, report), id));
    assert forall v :: MissedBy(SetReport(s, id, report), v) == MissedBy(s, v);
  }

  lemma AcceptReportKeepsLife(s: State, id: RequestID, report: Report)
    requires id in s.requests && Life(s, s.pending)
    requires report.validator !in ReportsOf(s, id)
    requires report.inBeforeResolve <==> id !in s.results
    ensures Life(AcceptReport(s, id, report), AcceptReport(s, id, report).pending)
  {
    hide LifeOf;
    var s1 := AcceptReport(s, id, report);
    forall other: RequestID ensures LifeOf(s1, s1.pending, other) {
      if other == id {
        AcceptReportKeepsLifeOfItself(s, id, report);
      } else {
        AcceptReportKeepsLifeOfOthers(s, id, report, other);
      }
    }
    PendingStaysDistinct(s, id, report);
  }

  lemma AcceptReportKeepsFit(s: State, id: RequestID, report: Report)
    requires ReportsFit(s) && ReportError(s, id, report).None?
    requires report.rawReports != [] && Distinct(ExternalIDs(report.rawReports))
    ensures id in s.requests && report.validator !in ReportsOf(s, id)
    ensures ReportsFit(AcceptReport(s, id, report))
  {
    hide Answers, AllFit;
    AcceptedReportAnswers(s, id, report);
    OneMoreFits(s.requests[id], ReportsOf(s, id), report);
    var s1 := AcceptReport(s, id, report);
    assert s1.reports == s.reports[id := ReportsOf(s, id)[report.validator := report]];
    assert s1.requests == s.requests;
  }

  lemma OneMoreFits(req: Request, stored: map<Address, Report>, report: Report)
    requires AllFit(req, stored) || stored == map[]
    requires report.validator in req.requestedValidators && Answers(report.rawReports, req.rawRequestIDs)
    ensures AllFit(req, stored[report.validator := report])
  {}

  lemma PendingStaysDistinct(s: State, id: RequestID, report: Report)
    requires id in s.requests && Life(s, s.pending) && report.validator !in ReportsOf(s, id)
    ensures Distinct(AcceptReport(s, id, report).pending)
  {
    OneMoreReport(ReportsOf(s, id), report);
    assert LifeOf(s, s.pending, id);
  }

  /** An event that is not a verdict changes no run of misses. */
  lemma HistoryKeepsMisses(s: State, e: Event, s1: State)
    requires Misses(s) && !e.Judged?
    requires s1.log == s.log + [e] && s1.missed == s.missed && s1.params == s.params && s1.genesisMissed == s.genesisMissed
    ensures Misses(s1)
  {
    hide JailingsExact, Counter;
    forall v ensures MissedBy(s1, v) == Counter(MissRun(s1.log, s1.genesisMissed, v)) {
      MissRunGrows(s.log, e, s.genesisMissed, v);
      assert MissedBy(s1, v) == MissedBy(s, v);
    }
    JailingsGrow(s.log, e, s.genesisMissed, s.params.maxConsecutiveMisses);
  }

  lemma ReportTxKeepsInv(s: State, m: MsgReportData)
    requires Inv(s)
    ensures Inv(ReportTx(s, m))
  {
    hide Inv;
    var report := Report(m.validator, m.requestID !in s.results, m.rawReports);
    if ValidReportMessage(m) && IsReporter(s, m.validator, m.reporter) && ReportError(s, m.requestID, report).None? {
      AcceptReportKeepsInv(s, m.requestID, report);
    }
  }

  // ---------- results ----------

  lemma ReportCountFits(s: State, id: RequestID)
    requires Shape(s) && ReportsFit(s) && id in s.requests
    ensures ReportCount(s, id) <= |s.requests[id].requestedValidators| <= MAX_INT64
  {
    assert WellFormed(s, s.requests[id]);
    CountOfMembers(ReportsOf(s, id).Keys, s.requests[id].requestedValidators);
  }

  lemma SaveKeepsLifeOfOthers(s: State, todo: seq<RequestID>, todo1: seq<RequestID>, id: RequestID,
                              status: ResolveStatus, result: bytes, other: RequestID)
    requires id in s.requests && other != id && LifeOf(s, todo, other)
    requires other in todo <==> other in todo1
    ensures LifeOf(SaveResult(s, id, status, result), todo1, other)
  {
    hide LifeOf, CommitmentOf;
    var s1 := SaveResult(s, id, status, result);
    LogGrows(s.log, Saved(id, s1.results[id].response), other);
    LifeFrame(s, todo, s1, todo1, other);
  }

  /** Resolving a waiting request writes its one Success or Failure. */
  lemma ResolveKeepsLifeOfItself(s: State, todo: seq<RequestID>, id: RequestID, status: ResolveStatus, result: bytes)
    requires id in s.requests && todo != [] && todo[0] == id && Distinct(todo) && LifeOf(s, todo, id)
    requires status == Success || status == Failure
    requires ReportCount(s, id) <= MAX_INT64
    ensures LifeOf(SaveResult(s, id, status, result), todo[1..], id)
  {
    var s1 := SaveResult(s, id, status, result);
    LogGrows(s.log, Saved(id, s1.results[id].response), id);
    assert ReportsOf(s1, id) == ReportsOf(s, id);
  }

  lemma ResolveKeepsLife(s: State, todo: seq<RequestID>, status: ResolveStatus, result: bytes)
    requires todo != [] && todo[0] in s.requests && Life(s, todo)
    requires status == Success || status == Failure
    requires ReportCount(s, todo[0]) <= MAX_INT64
    ensures Life(SaveResult(s, todo[0], status, result), todo[1..])
  {
    hide LifeOf;
    var s1 := SaveResult(s, todo[0], status, result);
    forall other: RequestID ensures LifeOf(s1, todo[1..], other) {
      if other == todo[0] {
        ResolveKeepsLifeOfItself(s, todo, other, status, result);
      } else {
        SaveKeepsLifeOfOthers(s, todo, todo[1..], todo[0], status, result, other);
      }
    }
  }

  lemma SaveKeepsTheRest(s: State, id: RequestID, status: ResolveStatus, result: bytes)
    requires Shape(s) && ReportsFit(s) && Judging(s) && Misses(s) && Frontier(s) && id in s.requests
    ensures var s1 := SaveResult(s, id, status, result);
            Shape(s1) && ReportsFit(s1) && Judging(s1) && Misses(s1) && Frontier(s1)
  {
    hide Misses, ReportsFit, Judging, Frontier, CommitmentOf, AllFit;
    var s1 := SaveResult(s, id, status, result);
    var e := Saved(id, s1.results[id].response);
    LogGrows(s.log, e, id);
    HistoryKeepsMisses(s, e, s1);
    assert Shape(s1);
    VerdictFrame(s, s1);
    SameReportsFit(s, s1);
  }

  lemma SameReportsFit(s: State, s1: State)
    requires ReportsFit(s) && s1.reports == s.reports && s1.requests == s.requests
    ensures ReportsFit(s1)
  {}

  /** Resolving the whole pending list never panics and leaves nothing to do. */
  lemma {:induction false} ResolveAllKeepsInv(s: State, todo: seq<RequestID>, execute: Execute)
    requires InvWith(s, todo)
    ensures ResolveAll(s, todo, execute).Returned?
    ensures InvWith(ResolveAll(s, todo, execute).value, [])
    decreases |todo|
  {
    hide Shape, ReportsFit, Judging, Misses, Frontier, CommitmentOf, Life;
    if todo != [] {
      var id := todo[0];
      WaitingRequestExists(s, todo);
      ReportCountFits(s, id);
      var s1 := ResolveRequest(s, id, execute).value;
      var run := execute(s.oracleScripts[s.requests[id].oracleScriptID].filename, ResolveView(s, id));
      var status := if run.exitCode != 0 then Failure else Success;
      var result := if run.exitCode != 0 then [] else run.retdata;
      assert s1 == SaveResult(s, id, status, result);
      ResolveKeepsLife(s, todo, status, result);
      SaveKeepsTheRest(s, id, status, result);
      ResolveAllKeepsInv(s1, todo[1..], execute);
    }
  }

  /** No MustGet can fail on a waiting request. */
  lemma WaitingRequestExists(s: State, todo: seq<RequestID>)
    requires Shape(s) && Life(s, todo) && todo != []
    ensures todo[0] in s.requests && s.requests[todo[0]].oracleScriptID in s.oracleScripts
  {
    assert LifeOf(s, todo, todo[0]);
    assert todo[0] in s.requests ==> WellFormed(s, s.requests[todo[0]]);
  }

  // ---------- verdicts ----------

  /** What one verdict writes: an event about this validator, and its new count of misses. */
  lemma VerdictIsLogged(s: State, id: RequestID, validator: Address, reported: bool)
      returns (e: Event, count: uint64)
    ensures var r := HandleValidatorReport(s, id, validator, reported);
            r == s.(jailed := r.jailed, missed := s.missed[validator := count], log := s.log + [e])
    ensures e.Judged? && e == Judged(id, validator, reported, e.active, e.jailing)
    ensures var missed := if reported then 0 else Increment(MissedBy(s, validator));
            && (e.jailing <==> e.active && missed > s.params.maxConsecutiveMisses)
            && count == if e.active && !e.jailing then missed else 0
    ensures e.active <==> validator in s.jailed && !s.jailed[validator]
    ensures HandleValidatorReport(s, id, validator, reported).jailed
         == if e.jailing then s.jailed[validator := true] else s.jailed
  {
    var active := validator in s.jailed && !s.jailed[validator];
    var missed := if reported then 0 else Increment(MissedBy(s, validator));
    e := Judged(id, validator, reported, active, active && missed > s.params.maxConsecutiveMisses);
    count := if active && !e.jailing then missed else 0;
  }

  /** The counter stays the current run of misses, and the jailing falls exactly on the miss that
      takes it past the maximum. */
  lemma VerdictKeepsMisses(s: State, id: RequestID, validator: Address, reported: bool)
    requires Misses(s)
    ensures Misses(HandleValidatorReport(s, id, validator, reported))
  {
    hide HandleValidatorReport, JailingsExact, Counter, Increment;
    var start, max := s.genesisMissed, s.params.maxConsecutiveMisses;
    var s1 := HandleValidatorReport(s, id, validator, reported);
    var e, count := VerdictIsLogged(s, id, validator, reported);
    CounterSteps(0);
    CounterSteps(MissRun(s.log, start, validator));
    forall v ensures MissedBy(s1, v) == Counter(MissRun(s1.log, start, v)) {
      MissRunGrows(s.log, e, start, v);
      assert MissedBy(s1, v) == if v == validator then count else MissedBy(s, v);
    }
    JailingsGrow(s.log, e, start, max);
  }

  lemma JailingsGrow(log: seq<Event>, e: Event, start: map<Address, uint64>, max: uint64)
    requires JailingsExact(log, start, max)
    requires e.Judged? ==> JailingExact(log, e, start, max)
    ensures JailingsExact(log + [e], start, max)
  {
    hide JailingExact;
    forall i | 0 <= i < |log + [e]| && (log + [e])[i].Judged? ensures JailingExact((log + [e])[..i], (log + [e])[i], start, max) {
      assert (log + [e])[..i] == log[..i];
      assert log[..|log|] == log;
    }
  }

  lemma {:induction false} JudgeFirstKeepsMisses(s: State, id: RequestID, validators: seq<Address>, n: nat)
    requires n <= |validators| && Misses(s)
    ensures Misses(JudgeFirst(s, id, validators, n))
  {
    hide Misses, HandleValidatorReport;
    if n > 0 {
      JudgeFirstKeepsMisses(s, id, validators, n - 1);
      var before := JudgeFirst(s, id, validators, n - 1);
      VerdictKeepsMisses(before, id, validators[n - 1], validators[n - 1] in ReportsOf(before, id));
    }
  }

  /** Judging some validators of a request adds their verdicts, in order ... */
  lemma {:induction false} JudgeFirstVerdicts(s: State, id: RequestID, validators: seq<Address>, n: nat)
    requires n <= |validators|
    ensures Verdicts(JudgeFirst(s, id, validators, n).log) == Verdicts(s.log) + PairsOf(id, validators[..n])
  {
    hide HandleValidatorReport;
    if n > 0 {
      JudgeFirstVerdicts(s, id, validators, n - 1);
      var before := JudgeFirst(s, id, validators, n - 1);
      var e, _ := VerdictIsLogged(before, id, validators[n - 1], validators[n - 1] in ReportsOf(before, id));
      LogGrows(before.log, e, id);
      assert PairsOf(id, validators[..n]) == PairsOf(id, validators[..n - 1]) + [(id, validators[n - 1])];
    }
  }

  /** ... and touches neither the pending list nor any result. */
  lemma {:induction false} JudgeFirstSavesNothing(s: State, id: RequestID, validators: seq<Address>, n: nat, x: RequestID)
    requires n <= |validators|
    ensures PendedCount(JudgeFirst(s, id, validators, n).log, x) == PendedCount(s.log, x)
    ensures Saves(JudgeFirst(s, id, validators, n).log, x) == Saves(s.log, x)
  {
    hide HandleValidatorReport;
    if n > 0 {
      JudgeFirstSavesNothing(s, id, validators, n - 1, x);
      var before := JudgeFirst(s, id, validators, n - 1);
      var e, _ := VerdictIsLogged(before, id, validators[n - 1], validators[n - 1] in ReportsOf(before, id));
      LogGrows(before.log, e, x);
    }
  }

  /** Judging the expired request `id` and counting it as expired keeps everything, if its life
      already is that of an expired request. */
  lemma JudgeKeepsInv(s: State, id: RequestID)
    requires Shape(s) && ReportsFit(s) && Judging(s) && Misses(s) && Frontier(s)
    requires id == s.requestLastExpired + 1 && id in s.requests && HasExpired(s, s.requests[id])
    requires Life(s.(requestLastExpired := id), [])
    ensures InvWith(UpdateReportInfos(s, id).(requestLastExpired := id), [])
  {
    hide Misses, ReportsFit, WellFormed, LifeOf, HasExpired, JudgeFirst;
    var validators := s.requests[id].requestedValidators;
    var judged := UpdateReportInfos(s, id);
    var s1 := judged.(requestLastExpired := id);
    JudgeFirstKeepsMisses(s, id, validators, |validators|);
    JudgeFirstVerdicts(s, id, validators, |validators|);
    assert validators[..|validators|] == validators;
    MissesFrame(judged, s1);
    SameReportsFit(s, s1);
    SameShape(s, s1);
    forall x: RequestID ensures LifeOf(s1, [], x) {
      JudgeFirstSavesNothing(s, id, validators, |validators|, x);
      LifeFrame(s.(requestLastExpired := id), [], s1, [], x);
    }
    SameExpiry(s, s1);
  }

  lemma SameShape(s: State, s1: State)
    requires Shape(s) && s1.requestLastExpired <= s.requestCount
    requires s1 == s.(results := s1.results, jailed := s1.jailed, missed := s1.missed, log := s1.log,
                      requestLastExpired := s1.requestLastExpired)
    ensures Shape(s1)
  {
    assert forall id :: id in s.requests ==> WellFormed(s, s.requests[id]);
  }

  lemma SameExpiry(s: State, s1: State)
    requires s1.params == s.params && s1.height == s.height
    ensures forall req {:trigger HasExpired(s1, req)} :: HasExpired(s1, req) <==> HasExpired(s, req)
  {}

  /** The state in which the expired request `id` is judged: with an Expired response if it is
      below its minimum. */
  function BeforeJudging(s: State, id: RequestID): State
    requires id in s.requests
  {
    if ReportCount(s, id) < s.requests[id].minCount then SaveResult(s, id, Expired, []) else s
  }

  /** A request below its minimum had no response yet, and now has its one Expired response. */
  lemma ExpireKeepsLifeOfItself(s: State, id: RequestID)
    requires id >= 0 && id in s.requests && LifeOf(s, [], id) && ReportCount(s, id) <= MAX_INT64
    requires id > s.requestLastExpired
    ensures LifeOf(BeforeJudging(s, id).(requestLastExpired := id), [], id)
  {
    if ReportCount(s, id) < s.requests[id].minCount {
      BelowMinimumExpires(s, id);
    } else {
      var s1 := s.(requestLastExpired := id);
      assert ReportsOf(s1, id) == ReportsOf(s, id);
    }
  }

  lemma BelowMinimumExpires(s: State, id: RequestID)
    requires id >= 0 && id in s.requests && LifeOf(s, [], id) && ReportCount(s, id) <= MAX_INT64
    requires id > s.requestLastExpired && ReportCount(s, id) < s.requests[id].minCount
    ensures LifeOf(SaveResult(s, id, Expired, []).(requestLastExpired := id), [], id)
  {
    var s1 := SaveResult(s, id, Expired, []);
    var response := s1.results[id].response;
    assert Saves(s.log, id) == [];
    LogGrows(s.log, Saved(id, response), id);
    assert ReportsOf(s1, id) == ReportsOf(s, id);
  }

  lemma ExpireKeepsLife(s: State, id: RequestID)
    requires id >= 0 && id == s.requestLastExpired + 1 && id in s.requests && Life(s, []) && ReportCount(s, id) <= MAX_INT64
    ensures Life(BeforeJudging(s, id).(requestLastExpired := id), [])
  {
    hide LifeOf, CommitmentOf;
    var s1 := BeforeJudging(s, id);
    var s2 := s1.(requestLastExpired := id);
    forall x: RequestID ensures LifeOf(s2, [], x) {
      if x == id {
        ExpireKeepsLifeOfItself(s, id);
      } else {
        if s1 != s {
          SaveKeepsLifeOfOthers(s, [], [], id, Expired, [], x);
        }
        LifeFrame(s1, [], s2, [], x);
      }
    }
  }

  lemma ExpireOneKeepsInv(s: State, id: RequestID)
    requires InvWith(s, []) && id == s.requestLastExpired + 1 && id in s.requests && HasExpired(s, s.requests[id])
    ensures InvWith(ExpireOne(s, id), [])
  {
    hide Shape, ReportsFit, Judging, Misses, Frontier, Life, UpdateReportInfos, CommitmentOf;
    ReportCountFits(s, id);
    var s1 := BeforeJudging(s, id);
    if s1 != s {
      SaveKeepsTheRest(s, id, Expired, []);
    }
    ExpireKeepsLife(s, id);
    JudgeKeepsInv(s1, id);
  }

  /** The expiry loop never panics, and stops exactly at the first request that has not expired. */
  lemma {:induction false} ExpiryKeepsInv(s: State)
    requires InvWith(s, [])
    ensures ProcessExpiredRequests(s).Returned?
    ensures var r := ProcessExpiredRequests(s).value;
            && InvWith(r, [])
            && s.requestLastExpired <= r.requestLastExpired <= r.requestCount
            && (r.requestLastExpired < r.requestCount ==> !HasExpired(r, r.requests[r.requestLastExpired + 1]))
    decreases s.requestCount - s.requestLastExpired
  {
    hide ReportsFit, Judging, Misses, Frontier, Life, ExpireOne, Shape, HasExpired;
    ShapeBounds(s);
    if s.requestLastExpired < s.requestCount {
      var id := s.requestLastExpired + 1;
      if HasExpired(s, s.requests[id]) {
        ExpireOneKeepsInv(s, id);
        ExpiryKeepsInv(ExpireOne(s, id));
        ShapeBounds(ProcessExpiredRequests(s).value);
      }
    }
  }

  lemma ShapeBounds(s: State)
    requires Shape(s)
    ensures s.requestLastExpired <= s.requestCount
    ensures s.requestLastExpired < s.requestCount ==> s.requestLastExpired + 1 in s.requests
  {}

  /** A block always ends: nothing the end blocker must find is missing, and every invariant is kept. */
  lemma {:induction false} EndBlockKeepsInv(s: State, execute: Execute)
    requires Inv(s)
    ensures EndBlock(s, execute).Returned?
    ensures var r := EndBlock(s, execute).value;
            && Inv(r) && r.pending == []
            && (r.requestLastExpired < r.requestCount ==> !HasExpired(r, r.requests[r.requestLastExpired + 1]))
  {
    hide ResolveAll, ProcessExpiredRequests, Judging, Frontier, Misses;
    ResolveAllKeepsInv(s, s.pending, execute);
    var s1 := ResolveAll(s, s.pending, execute).value;
    var s2 := s1.(pending := []);
    ClearPendingKeepsInv(s1);
    ExpiryKeepsInv(s2);
  }

  lemma ClearPendingKeepsInv(s: State)
    requires InvWith(s, [])
    ensures InvWith(s.(pending := []), [])
  {
    hide LifeOf, Judging, Frontier, Misses;
    var s1 := s.(pending := []);
    forall x: RequestID ensures LifeOf(s1, [], x) {
      LifeFrame(s, [], s1, [], x);
    }
    VerdictFrame(s, s1);
    MissesFrame(s, s1);
  }

  // ---------- the environment ----------

  /** New heights, validators, scripts and reporters keep every invariant. */
  lemma EnvironmentKeepsInv(s: State, s1: State)
    requires Inv(s)
    requires s1 == s.(height := s1.height, time := s1.time, bonded := s1.bonded, jailed := s1.jailed,
                      dataSources := s1.dataSources, oracleScripts := s1.oracleScripts, reporters := s1.reporters)
    requires s1.height >= s.height && DistinctOperators(s1.bonded) && s.oracleScripts.Keys <= s1.oracleScripts.Keys
    ensures Inv(s1)
  {
    hide LifeOf, Misses, Judging, Frontier, AllFit, DistinctOperators;
    forall id: RequestID ensures LifeOf(s1, s1.pending, id) {
      LifeFrame(s, s.pending, s1, s1.pending, id);
    }
    MissesFrame(s, s1);
    forall id | id in s1.requests ensures WellFormed(s1, s1.requests[id]) {
      assert WellFormed(s, s.requests[id]);
    }
    VerdictFrame(s, s1);
  }

  lemma GenesisHasInv(s: State)
    requires Genesis(s)
    ensures Inv(s)
  {}

  /** No allowed step panics, and every one keeps every invariant. */
  lemma {:induction false} NextKeepsInv(s: State, step: Step)
    requires Inv(s) && Allowed(s, step)
    ensures Next(s, step).Returned? && Inv(Next(s, step).value)
  {
    hide Inv, EndBlock, RequestTx, ReportTx;
    assert DistinctOperators(s.bonded) by { InvParts(s); }
    match step
    case DeliverRequest(spec, ibcInfo, stream, prepare) => RequestTxKeepsInv(s, spec, ibcInfo, stream, prepare);
    case DeliverReport(m) => ReportTxKeepsInv(s, m);
    case FinishBlock(execute) => EndBlockKeepsInv(s, execute);
    case _ => EnvironmentKeepsInv(s, Next(s, step).value);
  }

  lemma InvParts(s: State)
    requires Inv(s)
    ensures Shape(s) && ReportsFit(s) && Life(s, s.pending) && Judging(s) && Misses(s) && Frontier(s)
    ensures DistinctOperators(s.bonded)
  {}
}
