/** A run of three blocks in which a request expires and is resolved afterwards: its only report
    arrives a block too late and is accepted all the same. */
module LateReport {
  import opened MachineTypes
  import opened OracleTypes
  import opened ExecutionEnvironment
  import opened Sampling
  import opened OracleState
  import opened OracleInvariants
  import opened OracleTheorems

  const VALIDATOR := Address([0, 0, 0, 0, 0, 0, 0, 0, 0, 0, 0, 0, 0, 0, 0, 0, 0, 0, 0, 0])
  const SPEC := RequestPacket([], 1, [], 1, 1)
  const REPORT := MsgReportData(1, [RawReport(7, 0, [])], VALIDATOR, VALIDATOR)

  /** One active validator, one script, one data source, and requests that expire one block after
      their own. */
  const START := State(
    Params(1, 1, 1, 10), 1, 0, [Bonded(VALIDATOR, 1)], map[VALIDATOR := false], 0, 0, [], map[], map[], map[], map[], {},
    map[1 := DataSource(VALIDATOR, [], [], [])], map[1 := OracleScript(VALIDATOR, [], [], [], [], [])], map[], [])

  function AskOnce(code: bytes, view: View): PrepareRun {
    PrepareRun([RawRequest(7, 1, [])], 0)
  }

  function Succeed(code: bytes, view: View): ExecuteRun {
    ExecuteRun(0, [])
  }

  function ZeroDraws(n: nat): uint64 {
    0
  }

  const STEPS: seq<Step> := [
    DeliverRequest(SPEC, None, ZeroDraws, AskOnce), FinishBlock(Succeed),
    BeginBlock(5), FinishBlock(Succeed),
    BeginBlock(10), DeliverReport(REPORT), FinishBlock(Succeed)]

  lemma OnlyValidatorIsDrawn()
    ensures RandomValidators(START, 1, ZeroDraws) == Ok([VALIDATOR])
  {
    var powers := Powers(START.bonded);
    assert powers == [1];
    assert Sum(powers) == 1 by {
      assert PrefixSum(powers, 1) == PrefixSum(powers, 0) + powers[0];
    }
    SamplePanicsIffTooMany(powers, 1, ZeroDraws, 0);
    SampleIsSound(powers, 1, ZeroDraws, 0);
    hide Sample;
    var luckies := Sample(powers, 1, ZeroDraws, 0).value;
    assert luckies == [0];
    assert Operators(START.bonded, luckies) == [VALIDATOR];
  }

  const REQUEST := Request(1, [], [VALIDATOR], 1, 1, 0, [], None, [7])

  lemma RequestIsStored()
    ensures RequestTx(START, SPEC, None, ZeroDraws, AskOnce) == START.(requestCount := 1, requests := map[1 := REQUEST])
  {
    OnlyValidatorIsDrawn();
    hide RandomValidators;
    var asks := AskOnce([], PrepareView(START, NewRequest(START, SPEC, None, [VALIDATOR]))).asks;
    assert AskAll(asks[..0], 1) == [];
    assert AskAll(asks, 1) == asks by { assert asks == [asks[0]]; }
    assert RawRequestIDs(asks) == [7];
  }

  lemma ReportIsAccepted(s: State)
    requires 1 in s.requests && s.requests[1] == REQUEST && 1 !in s.reports
    ensures ReportCount(ReportTx(s, REPORT), 1) == 1 && ReportTx(s, REPORT).requests == s.requests
  {
    assert ValidReportMessage(REPORT) by {
      assert Distinct(ExternalIDs(REPORT.rawReports));
    }
    var report := Report(VALIDATOR, 1 !in s.results, REPORT.rawReports);
    assert ReportError(s, 1, report).None?;
    hide ReportError, ValidReportMessage;
    var s1 := SetReport(s, 1, report);
    assert ReportsOf(s1, 1) == map[VALIDATOR := report];
    assert ReportCount(s1, 1) == 1;
    assert HandleReport(s, REPORT) == Ok(AddPendingRequest(s1, 1));
  }

  /** The run and what its steps do. */
  ghost predicate IsLateRun(states: seq<State>) {
    && |states| == 8 && IsRun(states, STEPS) && states[0] == START
    && states[1] == RequestTx(states[0], SPEC, None, ZeroDraws, AskOnce)
    && IsLateRest(states[1], states[2], states[3], states[4], states[5], states[6], states[7])
  }

  ghost predicate IsLateRest(s1: State, s2: State, s3: State, s4: State, s5: State, s6: State, s7: State) {
    && EndBlock(s1, Succeed) == Returned(s2)
    && s2.height < MAX_INT64 && s3 == s2.(height := s2.height + 1, time := 5)
    && EndBlock(s3, Succeed) == Returned(s4)
    && s4.height < MAX_INT64 && s5 == s4.(height := s4.height + 1, time := 10)
    && s6 == ReportTx(s5, REPORT)
    && EndBlock(s6, Succeed) == Returned(s7)
  }

  /** What a block leaves as it was. */
  lemma BlockKeeps(s: State, execute: Execute)
    requires EndBlock(s, execute).Returned?
    ensures var r := EndBlock(s, execute).value;
            r.reports == s.reports && r.requests == s.requests && r.params == s.params && r.height == s.height
  {
    EndBlockFrame(s, execute);
    hide EndBlock;
  }

  /** A request that expires without a report is resolved once the report has come: in this run it has
      no result after the first block, an Expired one after the second, and Success or Failure after the
      third. */
  lemma LateReportIsResolved() returns (states: seq<State>)
    ensures |states| == 8 && IsRun(states, STEPS)
    ensures 1 in states[2].requests && 1 !in states[2].results
    ensures 1 in states[4].results && states[4].results[1].response.resolveStatus == Expired
    ensures 1 in states[7].results && IsFinal(states[7].results[1].response)
  {
    hide IsLateRun, IsRun;
    states := WitnessRun();
    UpToFirstBlock(states);
    UpToExpiry(states);
    UpToTheEnd(states);
    RunOf(states);
  }

  lemma RunOf(states: seq<State>)
    requires IsLateRun(states)
    ensures |states| == 8 && IsRun(states, STEPS)
  {
  }

  /** The request waits, without a report. */
  ghost predicate Waiting(s: State, height: int64) {
    && 1 in s.requests && s.requests[1] == REQUEST && s.requests.Keys == {1} && s.reports == map[]
    && s.params == START.params && s.height == height
  }

  lemma UpToFirstBlock(states: seq<State>)
    requires IsLateRun(states)
    ensures |states| == 8 && Waiting(states[2], 1) && 1 !in states[2].results
  {
    hide IsRun, EndBlock, RequestTx, ReportTx;
    RequestIsStored();
    BlockKeeps(states[1], Succeed);
    FrontierIsExact(states, STEPS, 1, 1);
    ResultsAreComplete(states, STEPS, 1, 1);
  }

  lemma UpToExpiry(states: seq<State>)
    requires IsLateRun(states) && |states| == 8 && Waiting(states[2], 1)
    ensures Waiting(states[4], 2) && 1 in states[4].results && states[4].results[1].response.resolveStatus == Expired
  {
    hide IsRun, EndBlock, RequestTx, ReportTx;
    BlockKeeps(states[3], Succeed);
    FrontierIsExact(states, STEPS, 3, 1);
    ResultsAreComplete(states, STEPS, 3, 1);
    ResultIsFinalIffAnswered(states, STEPS, 3, 1);
  }

  lemma UpToTheEnd(states: seq<State>)
    requires IsLateRun(states) && |states| == 8 && Waiting(states[4], 2)
    ensures 1 in states[7].results && IsFinal(states[7].results[1].response)
  {
    hide IsRun, EndBlock, RequestTx, ReportTx, ReportsOf;
    ReportIsAccepted(states[5]);
    BlockKeeps(states[6], Succeed);
    SameReports(states[6], states[7], 1);
    ResultsAreComplete(states, STEPS, 6, 1);
    ResultIsFinalIffAnswered(states, STEPS, 6, 1);
  }

  lemma SameReports(s: State, s1: State, id: RequestID)
    requires s.reports == s1.reports
    ensures ReportsOf(s, id) == ReportsOf(s1, id)
  {
  }

  lemma WitnessRun() returns (states: seq<State>)
    ensures IsLateRun(states)
  {
    hide Next, Genesis, Allowed, EndBlock, RequestTx, ReportTx;
    assert Genesis(START) by { StartIsGenesis(); }
    states := [START];
    for n := 0 to 7
      invariant |states| == n + 1 && IsRun(states, STEPS[..n]) && states[0] == START
      invariant states[n].height <= n + 1
    {
      StepIsAllowed(states[n], n);
      var longer := Extend(states, STEPS[..n], STEPS[n]);
      assert STEPS[..n] + [STEPS[n]] == STEPS[..n + 1];
      HeightGrows(states[n], STEPS[n]);
      assert forall i :: 0 <= i <= n ==> longer[i] == states[i];
      states := longer;
    }
    assert STEPS[..7] == STEPS;
    StepsOfRun(states);
  }

  lemma StepIsAllowed(s: State, n: nat)
    requires n < 7 && s.height < 100
    ensures Allowed(s, STEPS[n])
  {
  }

  lemma HeightGrows(s: State, step: Step)
    requires Allowed(s, step) && Next(s, step).Returned?
    ensures Next(s, step).value.height <= s.height + 1
  {
    hide PrepareRequest, EndBlock, ReportError, ReportCount;
    match step
    case DeliverRequest(spec, ibcInfo, stream, prepare) => PrepareOnlyAddsRequest(s, spec, ibcInfo, stream, prepare);
    case FinishBlock(execute) => EndBlockFrame(s, execute);
    case _ =>
  }

  lemma StepsOfRun(states: seq<State>)
    requires |states| == 8 && IsRun(states, STEPS) && states[0] == START
    ensures IsLateRun(states)
  {
    hide EndBlock, RequestTx, ReportTx, Genesis;
    assert Follows(states[0], STEPS[0], states[0 + 1]) && Follows(states[1], STEPS[1], states[1 + 1]);
    assert Follows(states[2], STEPS[2], states[2 + 1]) && Follows(states[3], STEPS[3], states[3 + 1]);
    assert Follows(states[4], STEPS[4], states[4 + 1]) && Follows(states[5], STEPS[5], states[5 + 1]);
    assert Follows(states[6], STEPS[6], states[6 + 1]);
  }

  /** A run goes on by any allowed step. */
  lemma Extend(states: seq<State>, steps: seq<Step>, step: Step) returns (longer: seq<State>)
    requires IsRun(states, steps) && Allowed(states[|steps|], step)
    ensures |longer| == |states| + 1 && longer[..|states|] == states
    ensures IsRun(longer, steps + [step]) && Next(states[|steps|], step) == Returned(longer[|states|])
  {
    hide Next, Allowed, Genesis;
    ChainNeverHalts(states, steps, |steps|, step);
    var next := Next(states[|steps|], step).value;
    longer := states + [next];
    forall i | 0 <= i < |steps| + 1 ensures Follows(longer[i], (steps + [step])[i], longer[i + 1]) {
      if i < |steps| {
        assert Follows(states[i], steps[i], states[i + 1]);
      }
    }
  }

  lemma StartIsGenesis()
    ensures Genesis(START)
  {
  }
}
