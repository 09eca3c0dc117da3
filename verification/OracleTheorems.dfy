/** What holds in every state of every run of the chain. */
module OracleTheorems {
  import opened MachineTypes
  import opened OracleTypes
  import opened ExecutionEnvironment
  import opened Sampling
  import opened OracleState
  import opened OracleInvariants

  lemma {:induction false} EveryStateHasInv(states: seq<State>, steps: seq<Step>, i: nat)
    requires IsRun(states, steps) && i < |states|
    ensures Inv(states[i])
  {
    hide Inv, Next, Allowed, Genesis;
    if i == 0 {
      GenesisHasInv(states[0]);
    } else {
      EveryStateHasInv(states, steps, i - 1);
      assert Follows(states[i - 1], steps[i - 1], states[i - 1 + 1]);
      NextKeepsInv(states[i - 1], steps[i - 1]);
    }
  }

  /** The chain never halts: whatever has happened, no allowed step panics. In particular every
      request and every script the end blocker must find is there. */
  lemma ChainNeverHalts(states: seq<State>, steps: seq<Step>, i: nat, step: Step)
    requires IsRun(states, steps) && i < |states| && Allowed(states[i], step)
    ensures Next(states[i], step).Returned?
  {
    hide Inv, Next, Allowed, Genesis;
    EveryStateHasInv(states, steps, i);
    NextKeepsInv(states[i], step);
  }

  // ---------- finality ----------

  /** Over a whole run a request enters the pending list at most once, and what is written for it
      is at most one Expired response followed by at most one Success or Failure. */
  lemma ResultsAreFinal(states: seq<State>, steps: seq<Step>, i: nat, id: RequestID)
    requires IsRun(states, steps) && i < |states|
    ensures PendedCount(states[i].log, id) <= 1
    ensures forall a, b :: 0 <= a < b < |Saves(states[i].log, id)| ==>
              && Saves(states[i].log, id)[a].resolveStatus == Expired
              && IsFinal(Saves(states[i].log, id)[b])
    ensures id in states[i].results <==> Saves(states[i].log, id) != []
  {
    EveryStateHasInv(states, steps, i);
    hide Inv, IsRun;
    InvParts(states[i]);
    assert LifeOf(states[i], states[i].pending, id);
  }

  /** `later` remembers everything of `earlier`: its history, requests and reports. */
  ghost predicate Remembers(earlier: State, later: State) {
    && earlier.log <= later.log && earlier.genesisMissed == later.genesisMissed && earlier.params == later.params
    && (forall id :: id in earlier.requests ==> id in later.requests && later.requests[id] == earlier.requests[id])
    && (forall id, v :: id in earlier.reports && v in earlier.reports[id] ==>
          && id in later.reports && v in later.reports[id]
          && later.reports[id][v] == earlier.reports[id][v])
  }

  lemma {:induction false} ResolveAllGrowsLog(s: State, ids: seq<RequestID>, execute: Execute)
    requires ResolveAll(s, ids, execute).Returned?
    ensures s.log <= ResolveAll(s, ids, execute).value.log
    decreases |ids|
  {
    hide CommitmentOf;
    if ids != [] {
      ResolveAllGrowsLog(ResolveRequest(s, ids[0], execute).value, ids[1..], execute);
    }
  }

  lemma {:induction false} JudgeFirstGrowsLog(s: State, id: RequestID, validators: seq<Address>, n: nat)
    requires n <= |validators|
    ensures s.log <= JudgeFirst(s, id, validators, n).log
  {
    hide HandleValidatorReport;
    if n > 0 {
      JudgeFirstGrowsLog(s, id, validators, n - 1);
      var before := JudgeFirst(s, id, validators, n - 1);
      var _, _ := VerdictIsLogged(before, id, validators[n - 1], validators[n - 1] in ReportsOf(before, id));
    }
  }

  lemma {:induction false} ExpiryGrowsLog(s: State)
    requires ProcessExpiredRequests(s).Returned?
    ensures s.log <= ProcessExpiredRequests(s).value.log
    decreases s.requestCount - s.requestLastExpired
  {
    hide CommitmentOf, JudgeFirst, HasExpired;
    var id := s.requestLastExpired + 1;
    if s.requestLastExpired < s.requestCount && HasExpired(s, s.requests[id]) {
      var s1 := BeforeJudging(s, id);
      JudgeFirstGrowsLog(s1, id, s1.requests[id].requestedValidators, |s1.requests[id].requestedValidators|);
      ExpiryGrowsLog(ExpireOne(s, id));
    }
  }

  lemma EndBlockRemembers(s: State, execute: Execute)
    requires EndBlock(s, execute).Returned?
    ensures Remembers(s, EndBlock(s, execute).value)
  {
    hide ResolveAll, ProcessExpiredRequests;
    var s1 := ResolveAll(s, s.pending, execute).value;
    ResolveAllGrowsLog(s, s.pending, execute);
    ExpiryGrowsLog(s1.(pending := []));
  }

  lemma RequestTxRemembers(s: State, spec: RequestPacket, ibcInfo: Option<IBCInfo>, stream: nat -> uint64, prepare: Prepare)
    requires Shape(s)
    ensures Remembers(s, RequestTx(s, spec, ibcInfo, stream, prepare))
  {
    hide RandomValidators, AskAll;
    var (s1, error) := PrepareRequest(s, spec, ibcInfo, stream, prepare);
    if error.None? {
      AddRequestKeepsOldRequests(s, s1.requests[s1.requestCount]);
    }
  }

  lemma AcceptReportRemembers(s: State, id: RequestID, report: Report)
    requires id in s.requests && report.validator !in ReportsOf(s, id)
    ensures Remembers(s, AcceptReport(s, id, report))
  {
    hide ReportCount;
    var s1 := AcceptReport(s, id, report);
    AcceptReportPends(s, id, report);
    assert s1.reports == s.reports[id := ReportsOf(s, id)[report.validator := report]];
    hide AcceptReport, AddPendingRequest;
  }

  lemma ReportTxRemembers(s: State, m: MsgReportData)
    ensures Remembers(s, ReportTx(s, m))
  {
    var report := Report(m.validator, m.requestID !in s.results, m.rawReports);
    if ReportError(s, m.requestID, report).None? {
      assert m.validator !in ReportsOf(s, m.requestID);
      AcceptReportRemembers(s, m.requestID, report);
    }
    hide ReportError, ValidReportMessage;
  }

  lemma NextRemembers(s: State, step: Step)
    requires Inv(s) && Allowed(s, step)
    ensures Next(s, step).Returned? && Remembers(s, Next(s, step).value)
  {
    hide RequestTx, ReportTx, EndBlock, Inv;
    NextKeepsInv(s, step);
    InvParts(s);
    match step
    case DeliverRequest(spec, ibcInfo, stream, prepare) => RequestTxRemembers(s, spec, ibcInfo, stream, prepare);
    case DeliverReport(m) => ReportTxRemembers(s, m);
    case FinishBlock(execute) => EndBlockRemembers(s, execute);
    case _ =>
  }

  /** Nothing is ever forgotten: later states extend the history, the requests and the reports. */
  lemma {:induction false} LaterStatesRemember(states: seq<State>, steps: seq<Step>, i: nat, j: nat)
    requires IsRun(states, steps) && i <= j < |states|
    ensures Remembers(states[i], states[j])
    decreases j
  {
    hide Inv, Next, Allowed, Genesis;
    if i < j {
      LaterStatesRemember(states, steps, i, j - 1);
      EveryStateHasInv(states, steps, j - 1);
      assert Follows(states[j - 1], steps[j - 1], states[j - 1 + 1]);
      NextRemembers(states[j - 1], steps[j - 1]);
    }
  }

  lemma {:induction false} SavesGrow(log: seq<Event>, later: seq<Event>, id: RequestID)
    requires log <= later
    ensures Saves(log, id) <= Saves(later, id)
    decreases |later|
  {
    if log != later {
      SavesGrow(log, later[..|later| - 1], id);
    } else {
      assert log == later;
    }
  }

  /** Once a Success or Failure has been stored for a request, the stored commitment is the same in
      every later state. */
  lemma FinalResultNeverChanges(states: seq<State>, steps: seq<Step>, i: nat, j: nat, id: RequestID)
    requires IsRun(states, steps) && i <= j < |states|
    requires id in states[i].results && IsFinal(states[i].results[id].response)
    ensures id in states[j].results && states[j].results[id] == states[i].results[id]
  {
    EveryStateHasInv(states, steps, i);
    EveryStateHasInv(states, steps, j);
    LaterStatesRemember(states, steps, i, j);
    hide Inv, IsRun, CommittedPacket;
    ResultIsLastSave(states[i], id);
    ResultIsLastSave(states[j], id);
    SavesGrow(states[i].log, states[j].log, id);
  }

  lemma ResultIsLastSave(s: State, id: RequestID)
    requires Inv(s)
    ensures id in s.results <==> Saves(s.log, id) != []
    ensures id in s.results ==>
              && id in s.requests
              && var saves := Saves(s.log, id);
              && s.results[id] == Commitment(CommittedPacket(s.requests[id]), saves[|saves| - 1])
              && (|saves| == 2 ==> saves[0].resolveStatus == Expired)
              && |saves| <= 2
  {
    InvParts(s);
    assert LifeOf(s, s.pending, id);
  }

  // ---------- expiry ----------

  /** The 64-bit expiry test agrees with the mathematical one exactly as long as the sum of height
      and expiration count fits an int64. */
  lemma ExpiryTestExactIff(s: State, req: Request)
    requires 0 <= req.requestHeight <= s.height
    ensures (HasExpired(s, req) <==> req.requestHeight + s.params.expirationBlockCount <= s.height)
       <==> req.requestHeight + s.params.expirationBlockCount <= MAX_INT64
  {}

  /** With an expiration count of 2^63 a request expires in its own block. */
  lemma HugeExpirationCountExpiresAtOnce(s: State, req: Request)
    requires s.params.expirationBlockCount == TWO_TO_63 && 0 <= req.requestHeight == s.height
    ensures HasExpired(s, req)
  {}

  /** The height at which the request expires has been reached. */
  predicate IsDue(s: State, req: Request) {
    req.requestHeight + s.params.expirationBlockCount <= s.height
  }

  /** That height is an int64. */
  predicate SumFits(s: State, req: Request) {
    req.requestHeight + s.params.expirationBlockCount <= MAX_INT64
  }

  /** The requests at or below requestLastExpired are precisely those that are due. */
  ghost predicate FrontierExact(s: State) {
    forall id :: id in s.requests ==> (id <= s.requestLastExpired <==> IsDue(s, s.requests[id]))
  }

  /** No sum wraps, or the scan stops in front of the ones that do. */
  ghost predicate ScanIsSafe(s: State) {
    || (forall id :: id in s.requests ==> SumFits(s, s.requests[id]))
    || (exists id :: id in s.requests && SumFits(s, s.requests[id]) && !IsDue(s, s.requests[id]))
  }

  /** The exact frontier: the scan of a block leaves precisely the requests that are due expired, if
      and only if the sum of height and expiration count fits an int64 for all requests, or for one
      that is not due. */
  lemma FrontierIsExactIff(states: seq<State>, steps: seq<Step>, i: nat)
    requires IsRun(states, steps) && i < |steps| && steps[i].FinishBlock?
    ensures states[i + 1].requests == states[i].requests
    ensures FrontierExact(states[i + 1]) <==> ScanIsSafe(states[i])
  {
    hide Inv, EndBlock, FrontierExact, ScanIsSafe;
    EveryStateHasInv(states, steps, i);
    assert Follows(states[i], steps[i], states[i + 1]);
    BlockFrontierIff(states[i], steps[i].execute);
  }

  /** The same request by request, when all sums fit. */
  lemma FrontierIsExact(states: seq<State>, steps: seq<Step>, i: nat, id: RequestID)
    requires IsRun(states, steps) && i < |steps| && steps[i].FinishBlock?
    requires forall x :: x in states[i].requests ==> SumFits(states[i], states[i].requests[x])
    ensures id in states[i + 1].requests <==> 1 <= id <= states[i + 1].requestCount
    ensures id in states[i + 1].requests ==>
              (id <= states[i + 1].requestLastExpired <==> IsDue(states[i + 1], states[i + 1].requests[id]))
  {
    EveryStateHasInv(states, steps, i + 1);
    FrontierIsExactIff(states, steps, i);
    InvParts(states[i + 1]);
    hide IsRun, Inv, IsDue, SumFits;
    assert ScanIsSafe(states[i]) && FrontierExact(states[i + 1]);
  }

  lemma BlockFrontierIff(s: State, execute: Execute)
    requires Inv(s)
    ensures EndBlock(s, execute).Returned?
    ensures EndBlock(s, execute).value.requests == s.requests
    ensures FrontierExact(EndBlock(s, execute).value) <==> ScanIsSafe(s)
  {
    hide Inv, EndBlock, FrontierExact, ScanIsSafe, Shape, Life, Judging, Misses, Frontier, HasExpired, ReportsFit;
    EndBlockKeepsInv(s, execute);
    EndBlockFrame(s, execute);
    var r := EndBlock(s, execute).value;
    InvParts(r);
    ScanIsSafeFrame(s, r);
    FrontierOf(r);
  }

  lemma ScanIsSafeFrame(s: State, r: State)
    requires r.requests == s.requests && r.params == s.params && r.height == s.height
    ensures ScanIsSafe(s) <==> ScanIsSafe(r)
  {
  }

  lemma EndBlockFrame(s: State, execute: Execute)
    requires EndBlock(s, execute).Returned?
    ensures var r := EndBlock(s, execute).value;
            r == s.(pending := [], results := r.results, jailed := r.jailed, missed := r.missed, log := r.log,
                    requestLastExpired := r.requestLastExpired)
  {
    hide ResolveAll, ProcessExpiredRequests;
  }

  /** A request whose sum fits has expired exactly if it is due; any other has, and is not. */
  lemma ExpiredOrWrapped(s: State, id: RequestID)
    requires Shape(s) && id in s.requests
    ensures HasExpired(s, s.requests[id]) <==> !SumFits(s, s.requests[id]) || IsDue(s, s.requests[id])
    ensures IsDue(s, s.requests[id]) ==> SumFits(s, s.requests[id])
  {
    assert WellFormed(s, s.requests[id]);
    ExpiryTestExactIff(s, s.requests[id]);
  }

  /** Later requests are due later, and their sums are no smaller. */
  lemma LaterIsDueLater(s: State, i: RequestID, j: RequestID)
    requires Shape(s) && i in s.requests && j in s.requests && i <= j
    ensures IsDue(s, s.requests[j]) ==> IsDue(s, s.requests[i])
    ensures SumFits(s, s.requests[j]) ==> SumFits(s, s.requests[i])
  {
  }

  lemma FrontierOf(s: State)
    requires Shape(s) && Frontier(s)
    requires s.requestLastExpired < s.requestCount ==> !HasExpired(s, s.requests[s.requestLastExpired + 1])
    ensures FrontierExact(s) <==> ScanIsSafe(s)
  {
    var last := s.requestLastExpired;
    assert Shape(s) && forall id :: id in s.requests <==> 1 <= id <= s.requestCount;
    assert forall id :: 1 <= id <= last ==> HasExpired(s, s.requests[id]);
    hide Shape, HasExpired, IsDue, SumFits, Frontier;
    forall id | id in s.requests
      ensures HasExpired(s, s.requests[id]) <==> !SumFits(s, s.requests[id]) || IsDue(s, s.requests[id])
      ensures IsDue(s, s.requests[id]) ==> SumFits(s, s.requests[id])
      ensures id > last ==> !IsDue(s, s.requests[id]) && last + 1 in s.requests
    {
      ExpiredOrWrapped(s, id);
      if id > last {
        ExpiredOrWrapped(s, last + 1);
        LaterIsDueLater(s, last + 1, id);
      }
    }
    if w :| w in s.requests && SumFits(s, s.requests[w]) && !IsDue(s, s.requests[w]) {
      forall id | id in s.requests && id <= last ensures IsDue(s, s.requests[id]) {
        LaterIsDueLater(s, id, w);
      }
    } else if u :| u in s.requests && !SumFits(s, s.requests[u]) {
      assert forall id :: id in s.requests ==> HasExpired(s, s.requests[id]);
      assert u <= last && !IsDue(s, s.requests[u]);
    }
  }

  // ---------- completeness ----------

  /** After a block has ended nothing is pending, and a request has a result if and only if it wants
      at least one report and has either reached its minimum or expired. */
  lemma ResultsAreComplete(states: seq<State>, steps: seq<Step>, i: nat, id: RequestID)
    requires IsRun(states, steps) && i < |steps| && steps[i].FinishBlock?
    ensures states[i + 1].pending == []
    ensures var s := states[i + 1];
            id in s.requests ==>
              (id in s.results <==>
               && s.requests[id].minCount >= 1
               && (ReportCount(s, id) >= s.requests[id].minCount || id <= s.requestLastExpired))
  {
    BlockLeavesLife(states, steps, i, id);
    hide IsRun;
  }

  /** After a block has ended a result is Success or Failure if and only if the minimum has been
      reached by the reports that are there now, in time or not. */
  lemma ResultIsFinalIffAnswered(states: seq<State>, steps: seq<Step>, i: nat, id: RequestID)
    requires IsRun(states, steps) && i < |steps| && steps[i].FinishBlock? && id in states[i + 1].results
    ensures var s := states[i + 1];
            && id in s.requests
            && (IsFinal(s.results[id].response) <==> ReportCount(s, id) >= s.requests[id].minCount)
            && (!IsFinal(s.results[id].response) <==> s.results[id].response.resolveStatus == Expired)
  {
    BlockLeavesLife(states, steps, i, id);
    hide IsRun;
  }

  lemma BlockLeavesLife(states: seq<State>, steps: seq<Step>, i: nat, id: RequestID)
    requires IsRun(states, steps) && i < |steps| && steps[i].FinishBlock?
    ensures states[i + 1].pending == [] && LifeOf(states[i + 1], [], id)
  {
    EveryStateHasInv(states, steps, i);
    assert Follows(states[i], steps[i], states[i + 1]);
    EndBlockKeepsInv(states[i], steps[i].execute);
    InvParts(states[i + 1]);
    hide Inv, IsRun, EndBlock, Judging, Misses, Shape, LifeOf;
  }

  /** A stored answer count tells whether the minimum was reached: Success and Failure only with at
      least MinCount answers, Expired only with fewer. */
  lemma AnswerCountsMatchStatus(states: seq<State>, steps: seq<Step>, i: nat, id: RequestID)
    requires IsRun(states, steps) && i < |states| && id in states[i].results
    ensures id in states[i].requests
    ensures var response := states[i].results[id].response;
            && (IsFinal(response) || response.resolveStatus == Expired)
            && (IsFinal(response) <==> response.ansCount >= states[i].requests[id].minCount)
  {
    EveryStateHasInv(states, steps, i);
    hide IsRun, Inv;
    InvParts(states[i]);
    assert LifeOf(states[i], states[i].pending, id);
  }

  /** InBeforeResolve is exact: in every state, the reports of a request flagged as made before
      its resolution are as many as the first response counted. */
  lemma FlaggedReportsMatchFirstAnswer(states: seq<State>, steps: seq<Step>, i: nat, id: RequestID)
    requires IsRun(states, steps) && i < |states| && id in states[i].results
    ensures Saves(states[i].log, id) != []
    ensures |Flagged(ReportsOf(states[i], id))| == Saves(states[i].log, id)[0].ansCount
  {
    EveryStateHasInv(states, steps, i);
    hide IsRun, Inv;
    InvParts(states[i]);
    assert LifeOf(states[i], states[i].pending, id);
  }

  // ---------- verdicts ----------

  lemma {:induction false} DueMembers(requests: map<RequestID, Request>, n: nat, id: RequestID, v: Address)
    requires forall x :: 1 <= x <= n ==> x in requests
    ensures (id, v) in Due(requests, n) <==> 1 <= id <= n && v in requests[id].requestedValidators
  {
    if n > 0 {
      DueMembers(requests, n - 1, id, v);
      var pairs, validators := PairsOf(n, requests[n].requestedValidators), requests[n].requestedValidators;
      assert (id, v) in pairs <==> id == n && v in validators by {
        if id == n && v in validators {
          var k :| 0 <= k < |validators| && validators[k] == v;
          assert pairs[k] == (id, v);
        }
      }
    }
  }

  lemma {:induction false} DueInOrder(requests: map<RequestID, Request>, n: nat)
    requires forall x :: 1 <= x <= n ==> x in requests && Distinct(requests[x].requestedValidators)
    ensures Distinct(Due(requests, n))
    ensures forall i, j :: 0 <= i < j < |Due(requests, n)| ==> Due(requests, n)[i].0 <= Due(requests, n)[j].0
    ensures forall i :: 0 <= i < |Due(requests, n)| ==> Due(requests, n)[i].0 <= n
  {
    if n > 0 {
      DueInOrder(requests, n - 1);
    }
  }

  /** Judged exactly once: the verdicts so far are those of every requested validator of every
      expired request, each exactly once, in the order of the requests. */
  lemma JudgedExactlyOnce(states: seq<State>, steps: seq<Step>, i: nat)
    requires IsRun(states, steps) && i < |states|
    ensures Distinct(Verdicts(states[i].log))
    ensures forall a, b :: 0 <= a < b < |Verdicts(states[i].log)| ==>
              Verdicts(states[i].log)[a].0 <= Verdicts(states[i].log)[b].0
    ensures forall id: RequestID, v :: (id, v) in Verdicts(states[i].log) <==>
              && 1 <= id <= states[i].requestLastExpired && id in states[i].requests
              && v in states[i].requests[id].requestedValidators
  {
    EveryStateHasInv(states, steps, i);
    var s := states[i];
    InvParts(s);
    assert forall x :: x in s.requests ==> WellFormed(s, s.requests[x]);
    DueInOrder(s.requests, s.requestLastExpired);
    forall id: RequestID, v
      ensures (id, v) in Verdicts(s.log) <==>
                && 1 <= id <= s.requestLastExpired && id in s.requests
                && v in s.requests[id].requestedValidators
    {
      DueMembers(s.requests, s.requestLastExpired, id, v);
    }
    hide *;
  }

  /** The miss counter is the current run of misses, as 64 bits hold it, and a validator is jailed
      exactly on the miss that takes the counter past the maximum; whatever counters and whatever
      maximum the chain started with. */
  lemma MissesMatchHistory(states: seq<State>, steps: seq<Step>, i: nat)
    requires IsRun(states, steps) && i < |states|
    ensures forall v :: MissedBy(states[i], v) == Counter(MissRun(states[i].log, states[0].missed, v))
    ensures JailingsExact(states[i].log, states[0].missed, states[0].params.maxConsecutiveMisses)
  {
    EveryStateHasInv(states, steps, i);
    LaterStatesRemember(states, steps, 0, i);
    assert Genesis(states[0]);
    hide IsRun, Inv, MissRun, JailingsExact, Counter, Genesis;
    InvParts(states[i]);
  }

  /** A validator whose counter starts at or below the maximum never exceeds it. Unless the maximum
      is the largest uint64, its counter is the run itself, and it is jailed exactly on the miss
      after the maximum. */
  lemma MissesStayWithinMaximum(states: seq<State>, steps: seq<Step>, i: nat, v: Address)
    requires IsRun(states, steps) && i < |states|
    requires MissedBy(states[0], v) <= states[0].params.maxConsecutiveMisses
    ensures var log, start, max := states[i].log, states[0].missed, states[0].params.maxConsecutiveMisses;
            && MissedBy(states[i], v) <= max
            && (max < MAX_UINT64 ==>
                  && MissedBy(states[i], v) == MissRun(log, start, v)
                  && forall k :: 0 <= k < |log| && log[k].Judged? && log[k].validator == v ==>
                       (log[k].jailing <==> log[k].active && !log[k].reported && MissRun(log[..k], start, v) == max))
  {
    var log, start, max := states[i].log, states[0].missed, states[0].params.maxConsecutiveMisses;
    MissesMatchHistory(states, steps, i);
    hide IsRun, MissRun, JailingsExact, Counter;
    if max < MAX_UINT64 {
      RunStaysWithinMaximum(log, start, max, v);
      CounterSteps(MissRun(log, start, v));
      forall k | 0 <= k < |log| && log[k].Judged? && log[k].validator == v
        ensures log[k].jailing <==> log[k].active && !log[k].reported && MissRun(log[..k], start, v) == max
      {
        JailingsPrefix(log, start, max, k);
        RunStaysWithinMaximum(log[..k], start, max, v);
        CounterSteps(MissRun(log[..k], start, v) + 1);
      }
    }
  }

  lemma JailingsPrefix(log: seq<Event>, start: map<Address, uint64>, max: uint64, k: nat)
    requires JailingsExact(log, start, max) && k < |log|
    ensures JailingsExact(log[..k], start, max)
    ensures log[k].Judged? ==> JailingExact(log[..k], log[k], start, max)
  {
    hide JailingExact;
    forall i | 0 <= i < k && log[i].Judged? ensures JailingExact(log[..k][..i], log[..k][i], start, max) {
      assert log[..k][..i] == log[..i];
    }
  }

  lemma {:induction false} RunStaysWithinMaximum(log: seq<Event>, start: map<Address, uint64>, max: uint64, v: Address)
    requires JailingsExact(log, start, max) && CountIn(start, v) <= max < MAX_UINT64
    ensures MissRun(log, start, v) <= max
  {
    if log != [] {
      var n := |log| - 1;
      JailingsPrefix(log, start, max, n);
      RunStaysWithinMaximum(log[..n], start, max, v);
      CounterSteps(MissRun(log[..n], start, v) + 1);
      hide JailingsExact, Counter;
    }
  }

  /** A miss by this active validator, whose counter stands at `count`, would jail it. */
  ghost predicate MissJails(s: State, validator: Address, count: uint64)
    requires validator in s.jailed && !s.jailed[validator]
  {
    HandleValidatorReport(s.(missed := s.missed[validator := count]), 0, validator, false).jailed[validator]
  }

  /** With the largest 64-bit maximum the counter wraps around before it can exceed it: nobody is
      ever jailed. With any smaller maximum some counter value leads to a jailing. */
  lemma JailingPossibleIff(s: State, validator: Address)
    requires validator in s.jailed && !s.jailed[validator]
    ensures (exists count: uint64 :: MissJails(s, validator, count)) <==> s.params.maxConsecutiveMisses < MAX_UINT64
  {
    forall count: uint64
      ensures MissJails(s, validator, count) <==> Increment(count) > s.params.maxConsecutiveMisses
    {}
    if s.params.maxConsecutiveMisses < MAX_UINT64 {
      assert MissJails(s, validator, s.params.maxConsecutiveMisses);
    }
  }

  /** The verdicts written from position `from` on say of each validator whether it has reported. */
  ghost predicate TrueVerdicts(s: State, log: seq<Event>, from: nat) {
    forall k :: from <= k < |log| && log[k].Judged? ==>
      (log[k].reported <==> log[k].validator in ReportsOf(s, log[k].id))
  }

  lemma {:induction false} ResolveAllJudgesNobody(s: State, ids: seq<RequestID>, execute: Execute, from: nat)
    requires ResolveAll(s, ids, execute).Returned? && TrueVerdicts(s, s.log, from)
    ensures TrueVerdicts(s, ResolveAll(s, ids, execute).value.log, from)
    decreases |ids|
  {
    hide CommitmentOf;
    if ids != [] {
      var s1 := ResolveRequest(s, ids[0], execute).value;
      assert s1.reports == s.reports && TrueVerdicts(s1, s1.log, from);
      hide TrueVerdicts, ResolveRequest;
      ResolveAllJudgesNobody(s1, ids[1..], execute, from);
      SameReportsSameTruth(s1, s, ResolveAll(s1, ids[1..], execute).value.log, from);
    }
  }

  lemma SameReportsSameTruth(s: State, s1: State, log: seq<Event>, from: nat)
    requires s.reports == s1.reports && TrueVerdicts(s, log, from)
    ensures TrueVerdicts(s1, log, from)
  {
    forall k | from <= k < |log| && log[k].Judged?
      ensures log[k].reported <==> log[k].validator in ReportsOf(s1, log[k].id)
    {
      assert ReportsOf(s, log[k].id) == ReportsOf(s1, log[k].id);
    }
  }

  lemma {:induction false} JudgeFirstTellsTheTruth(s: State, id: RequestID, validators: seq<Address>, n: nat, from: nat)
    requires n <= |validators| && TrueVerdicts(s, s.log, from)
    ensures TrueVerdicts(s, JudgeFirst(s, id, validators, n).log, from)
  {
    hide HandleValidatorReport;
    if n > 0 {
      JudgeFirstTellsTheTruth(s, id, validators, n - 1, from);
      var before := JudgeFirst(s, id, validators, n - 1);
      assert ReportsOf(before, id) == ReportsOf(s, id);
      var _, _ := VerdictIsLogged(before, id, validators[n - 1], validators[n - 1] in ReportsOf(before, id));
    }
  }

  lemma {:induction false} ExpiryTellsTheTruth(s: State, from: nat)
    requires ProcessExpiredRequests(s).Returned? && TrueVerdicts(s, s.log, from)
    ensures TrueVerdicts(s, ProcessExpiredRequests(s).value.log, from)
    decreases s.requestCount - s.requestLastExpired
  {
    hide CommitmentOf, JudgeFirst, HasExpired;
    var id := s.requestLastExpired + 1;
    if s.requestLastExpired < s.requestCount && HasExpired(s, s.requests[id]) {
      var s1, s2 := BeforeJudging(s, id), ExpireOne(s, id);
      SameReportsSameTruth(s, s1, s1.log, from);
      JudgeFirstTellsTheTruth(s1, id, s1.requests[id].requestedValidators, |s1.requests[id].requestedValidators|, from);
      SameReportsSameTruth(s1, s2, s2.log, from);
      ExpiryTellsTheTruth(s2, from);
      SameReportsSameTruth(s2, s, ProcessExpiredRequests(s2).value.log, from);
    }
  }

  /** Every verdict a block adds is right about whether the validator has reported by then. */
  lemma VerdictsAreTrue(s: State, execute: Execute)
    requires EndBlock(s, execute).Returned?
    ensures s.log <= EndBlock(s, execute).value.log
    ensures TrueVerdicts(s, EndBlock(s, execute).value.log, |s.log|)
  {
    hide ResolveAll, ProcessExpiredRequests;
    EndBlockRemembers(s, execute);
    var s1 := ResolveAll(s, s.pending, execute).value;
    var s2 := s1.(pending := []);
    ResolveAllJudgesNobody(s, s.pending, execute, |s.log|);
    SameReportsSameTruth(s, s2, s2.log, |s.log|);
    ExpiryTellsTheTruth(s2, |s.log|);
    SameReportsSameTruth(s2, s, ProcessExpiredRequests(s2).value.log, |s.log|);
  }

  // ---------- reports ----------

  /** The reports of every state are stored under their validators, as the keeper's methods expect. */
  lemma ReportsStayKeyed(states: seq<State>, steps: seq<Step>, i: nat)
    requires IsRun(states, steps) && i < |states|
    ensures Keyed(states[i])
  {
    EveryStateHasInv(states, steps, i);
    hide IsRun, Inv;
    InvParts(states[i]);
    forall id, v | id in states[i].reports && v in states[i].reports[id]
      ensures states[i].reports[id][v].validator == v
    {
      assert AllFit(states[i].requests[id], states[i].reports[id]);
    }
  }

  /** Every stored report comes from a requested validator and answers exactly the raw requests of
      its request. */
  lemma StoredReportsAnswer(states: seq<State>, steps: seq<Step>, i: nat, id: RequestID, v: Address)
    requires IsRun(states, steps) && i < |states| && v in ReportsOf(states[i], id)
    ensures id in states[i].requests && v in states[i].requests[id].requestedValidators
    ensures Answers(ReportsOf(states[i], id)[v].rawReports, states[i].requests[id].rawRequestIDs)
  {
    EveryStateHasInv(states, steps, i);
    hide IsRun, Inv, Answers;
    InvParts(states[i]);
    assert AllFit(states[i].requests[id], states[i].reports[id]);
  }

  lemma AnsweredRequestsAreAnswerable(rawReports: seq<RawReport>, rawRequestIDs: seq<ExternalID>)
    requires Answers(rawReports, rawRequestIDs)
    ensures rawRequestIDs != [] && Distinct(rawRequestIDs)
  {
    assert ExternalIDs(rawReports)[0] in ExternalIDs(rawReports);
  }

  /** A request whose script asked for the same external ID twice, or for nothing, can never be
      reported on, so it can only expire. */
  lemma UnanswerableRequestsOnlyExpire(states: seq<State>, steps: seq<Step>, i: nat, id: RequestID)
    requires IsRun(states, steps) && i < |states| && id in states[i].requests
    requires states[i].requests[id].rawRequestIDs == [] || !Distinct(states[i].requests[id].rawRequestIDs)
    ensures ReportCount(states[i], id) == 0
    ensures id in states[i].results ==> states[i].results[id].response.resolveStatus == Expired
  {
    if v :| v in ReportsOf(states[i], id) {
      StoredReportsAnswer(states, steps, i, id, v);
      AnsweredRequestsAreAnswerable(ReportsOf(states[i], id)[v].rawReports, states[i].requests[id].rawRequestIDs);
      assert false;
    }
    assert ReportsOf(states[i], id).Keys == {};
    EveryStateHasInv(states, steps, i);
    hide IsRun, Inv;
    InvParts(states[i]);
    assert LifeOf(states[i], states[i].pending, id);
  }

  /** At resolve time the script sees, for validator index and external ID, exactly the raw report
      this validator has stored, and counts exactly the stored reports. */
  lemma ResolveSeesExactlyTheReports(states: seq<State>, steps: seq<Step>, i: nat, id: RequestID,
                                     externalID: ExternalID, index: int64)
    requires IsRun(states, steps) && i < |states| && id in states[i].requests
    ensures var view := ResolveView(states[i], id);
            var validators := view.request.requestedValidators;
            var stored := ReportsOf(states[i], id);
            var (data, status) := view.GetExternalDataFull(externalID, index);
            && view.GetAnsCount() == ReportCount(states[i], id)
            && (data == None <==> status == -1)
            && (data == None <==>
                  !(&& 0 <= index < |validators| && validators[index] in stored
                    && externalID in states[i].requests[id].rawRequestIDs))
            && (data != None ==>
                  exists k :: 0 <= k < |stored[validators[index]].rawReports|
                              && stored[validators[index]].rawReports[k] == RawReport(externalID, status, data.value))
  {
    var s := states[i];
    var stored := ReportsOf(s, id);
    forall v | v in stored ensures Distinct(ExternalIDs(stored[v].rawReports)) {
      StoredReportsAnswer(states, steps, i, id, v);
    }
    ScriptSeesExactlyTheReports(ResolveView(s, id), stored, externalID, index);
    var validators := s.requests[id].requestedValidators;
    if 0 <= index < |validators| && validators[index] in stored {
      StoredReportsAnswer(states, steps, i, id, validators[index]);
      var rawReports := stored[validators[index]].rawReports;
      if externalID in ExternalIDs(rawReports) {
        var k :| 0 <= k < |rawReports| && ExternalIDs(rawReports)[k] == externalID;
        assert rawReports[k].externalID == externalID;
      }
    }
    hide IsRun;
  }

  // ---------- the committed request ----------

  /** The request packet a result commits to is the one that was submitted if and only if it asked
      for as many validators as its minimum: the two counts trade places. */
  lemma CommittedPacketMatchesIff(s: State, spec: RequestPacket, ibcInfo: Option<IBCInfo>, stream: nat -> uint64, prepare: Prepare)
    requires DistinctOperators(s.bonded)
    requires PrepareRequest(s, spec, ibcInfo, stream, prepare).1.None?
    ensures var s1 := PrepareRequest(s, spec, ibcInfo, stream, prepare).0;
            && s1.requestCount in s1.requests
            && var committed := CommittedPacket(s1.requests[s1.requestCount]);
            && committed.askCount == spec.minCount && committed.minCount == spec.askCount
            && (committed == spec <==> spec.askCount == spec.minCount)
  {
    hide RandomValidators, AskAll;
    RandomValidatorsDistinct(s, ToInt64(spec.askCount), stream);
  }
}
