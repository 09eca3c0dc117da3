/** What the end of a block writes, decided from the state in front of it. */
module OracleBlocks {
  import opened MachineTypes
  import opened OracleTypes
  import opened ExecutionEnvironment
  import opened OracleState
  import opened OracleInvariants
  import opened OracleTheorems
  import T = OracleTransactions

  // ---------- results ----------

  /** What every commitment to request `id` says: its packet with the two counts in each other's place, the
      reports there are now, the time of the request, and the time of this block. */
  ghost predicate Commits(s: State, id: RequestID, c: Commitment)
    requires id in s.requests
  {
    var req := s.requests[id];
    && c.request.clientID == req.clientID && c.request.oracleScriptID == req.oracleScriptID
    && c.request.calldata == req.calldata
    && c.request.askCount == req.minCount && c.request.minCount == |req.requestedValidators|
    && c.response.clientID == req.clientID && c.response.requestID == id
    && c.response.ansCount == (if id in s.reports then |s.reports[id]| else 0)
    && c.response.requestTime == req.requestTime && c.response.resolveTime == s.time
  }

  /** The run of the script that resolves request `id`: it sees the request, the time of the block and
      the reports. */
  function ResolvingRun(s: State, id: RequestID, execute: Execute): ExecuteRun
    requires id in s.requests && s.requests[id].oracleScriptID in s.oracleScripts
  {
    var req := s.requests[id];
    execute(s.oracleScripts[req.oracleScriptID].filename, View(req, s.time, 0, [], TableOf(ReportsOf(s, id)), []))
  }

  /** Success with the return data of the script if and only if it exits with 0, and Failure with
      nothing if and only if it does not. */
  ghost predicate IsAnswer(s: State, id: RequestID, execute: Execute, c: Commitment) {
    && id in s.requests && s.requests[id].oracleScriptID in s.oracleScripts
    && Commits(s, id, c)
    && var run := ResolvingRun(s, id, execute);
    && (c.response.resolveStatus == Success <==> run.exitCode == 0)
    && (c.response.resolveStatus == Failure <==> run.exitCode != 0)
    && c.response.result == if run.exitCode == 0 then run.retdata else []
  }

  ghost predicate IsExpiry(s: State, id: RequestID, c: Commitment) {
    && id in s.requests && Commits(s, id, c)
    && c.response.resolveStatus == Expired && c.response.result == []
    && c.response.ansCount < s.requests[id].minCount
  }

  /** `after` stores under `id` what `before` stores there. */
  ghost predicate SameResult(before: State, after: State, id: RequestID) {
    && (id in after.results <==> id in before.results)
    && (id in before.results ==> after.results[id] == before.results[id])
  }

  /** Nothing the end blocker must find is missing, and its counts fit 64 bits. */
  ghost predicate Resolvable(s: State, id: RequestID) {
    && id in s.requests && s.requests[id].oracleScriptID in s.oracleScripts
    && ReportCount(s, id) <= |s.requests[id].requestedValidators| <= MAX_INT64
  }

  lemma RequestsAreResolvable(s: State, id: RequestID)
    requires Shape(s) && ReportsFit(s) && id in s.requests
    ensures Resolvable(s, id)
  {
    ReportCountFits(s, id);
    assert WellFormed(s, s.requests[id]);
  }

  lemma SaveWrites(s: State, id: RequestID, status: ResolveStatus, result: bytes)
    requires Resolvable(s, id)
    ensures var r := SaveResult(s, id, status, result);
            && id in r.results && Commits(s, id, r.results[id])
            && r.results[id].response.resolveStatus == status && r.results[id].response.result == result
            && forall x :: x != id ==> SameResult(s, r, x)
  {
  }

  lemma ResolveWrites(s: State, id: RequestID, execute: Execute)
    requires Resolvable(s, id)
    ensures var r := ResolveRequest(s, id, execute);
            && r.Returned? && r.value == s.(results := r.value.results, log := r.value.log)
            && id in r.value.results && IsAnswer(s, id, execute, r.value.results[id])
            && forall x :: x != id ==> SameResult(s, r.value, x)
  {
    var run := ResolvingRun(s, id, execute);
    var status := if run.exitCode == 0 then Success else Failure;
    var result := if run.exitCode == 0 then run.retdata else [];
    SaveWrites(s, id, status, result);
    hide Commits, SameResult, CommitmentOf;
    assert ResolveRequest(s, id, execute) == Returned(SaveResult(s, id, status, result));
  }

  lemma AnswerFrame(s: State, s1: State, id: RequestID, execute: Execute, c: Commitment)
    requires s1 == s.(results := s1.results, log := s1.log)
    ensures IsAnswer(s1, id, execute, c) <==> IsAnswer(s, id, execute, c)
  {
    assert ReportsOf(s1, id) == ReportsOf(s, id);
  }

  lemma ResolvableFrame(s: State, s1: State, id: RequestID)
    requires s1.requests == s.requests && s1.reports == s.reports && s1.oracleScripts == s.oracleScripts
    ensures Resolvable(s1, id) <==> Resolvable(s, id)
    ensures ReportCount(s1, id) == ReportCount(s, id)
  {
  }

  lemma {:induction false} ResolveAllWrites(s: State, ids: seq<RequestID>, execute: Execute, id: RequestID)
    requires Distinct(ids) && forall x :: x in ids ==> Resolvable(s, x)
    ensures var r := ResolveAll(s, ids, execute);
            && r.Returned?
            && (id in ids ==> id in r.value.results && IsAnswer(s, id, execute, r.value.results[id]))
            && (id !in ids ==> SameResult(s, r.value, id))
    decreases |ids|
  {
    hide Resolvable, IsAnswer, ResolveRequest;
    if ids != [] {
      ResolveWrites(s, ids[0], execute);
      var s1 := ResolveRequest(s, ids[0], execute).value;
      forall x | x in ids[1..] ensures Resolvable(s1, x) {
        ResolvableFrame(s, s1, x);
      }
      ResolveAllWrites(s1, ids[1..], execute, id);
      var r := ResolveAll(s1, ids[1..], execute).value;
      assert ResolveAll(s, ids, execute) == Returned(r);
      if id in ids[1..] {
        AnswerFrame(s, s1, id, execute, r.results[id]);
      } else if id == ids[0] {
        assert SameResult(s1, r, id);
      } else {
        assert SameResult(s, s1, id) && SameResult(s1, r, id);
      }
    }
  }

  /** The scan writes an Expired response for each request it passes that is below its minimum, and
      leaves all other results alone. */
  lemma {:induction false} ExpiryWrites(s: State, id: RequestID)
    requires InvWith(s, [])
    ensures var r := ProcessExpiredRequests(s);
            && r.Returned?
            && (if s.requestLastExpired < id <= r.value.requestLastExpired && id in s.requests
                   && ReportCount(s, id) < s.requests[id].minCount
                then id in r.value.results && IsExpiry(s, id, r.value.results[id])
                else SameResult(s, r.value, id))
    decreases s.requestCount - s.requestLastExpired
  {
    hide InvWith, ExpireOne, HasExpired, IsExpiry;
    if s.requestLastExpired < s.requestCount {
      var x := s.requestLastExpired + 1;
      ScanBounds(s);
      if HasExpired(s, s.requests[x]) {
        ExpireOneKeepsInv(s, x);
        ExpireOneWrites(s, x);
        var s1 := ExpireOne(s, x);
        ExpiryWrites(s1, id);
        ExpiryKeepsInv(s1);
        ResolvableFrame(s, s1, id);
        var r := ProcessExpiredRequests(s1).value;
        assert ProcessExpiredRequests(s) == Returned(r);
        if id == x {
          assert SameResult(s1, r, id);
        } else {
          assert SameResult(s, s1, id);
          if id in r.results {
            ExpiryFrame(s, s1, id, r.results[id]);
          }
        }
      }
    }
  }

  lemma ScanBounds(s: State)
    requires InvWith(s, [])
    ensures s.requestLastExpired < s.requestCount ==> s.requestLastExpired + 1 in s.requests
    ensures forall id :: id in s.requests ==> Resolvable(s, id)
  {
    hide Resolvable, Life, Judging, Misses, Frontier, ReportsFit;
    forall id | id in s.requests ensures Resolvable(s, id) {
      RequestsAreResolvable(s, id);
    }
  }

  lemma ExpireOneWrites(s: State, id: RequestID)
    requires id >= 0 && Resolvable(s, id)
    ensures if ReportCount(s, id) < s.requests[id].minCount
            then id in ExpireOne(s, id).results && IsExpiry(s, id, ExpireOne(s, id).results[id])
            else SameResult(s, ExpireOne(s, id), id)
    ensures forall x :: x != id ==> SameResult(s, ExpireOne(s, id), x)
  {
    SaveWrites(s, id, Expired, []);
    hide JudgeFirst, SaveResult;
  }

  lemma ExpiryFrame(s: State, s1: State, id: RequestID, c: Commitment)
    requires s1.requests == s.requests && s1.reports == s.reports && s1.time == s.time
    ensures IsExpiry(s1, id, c) <==> IsExpiry(s, id, c)
  {
  }

  /** Everything a block writes: each pending request gets its answer, each request that expires now
      below its minimum gets an Expired response, and every other result stays as it was. */
  lemma EndBlockWrites(s: State, execute: Execute, id: RequestID)
    requires Inv(s)
    ensures var r := EndBlock(s, execute);
            && r.Returned?
            && (if id in s.pending then id in r.value.results && IsAnswer(s, id, execute, r.value.results[id])
                else if s.requestLastExpired < id <= r.value.requestLastExpired && id in s.requests
                        && ReportCount(s, id) < s.requests[id].minCount
                then id in r.value.results && IsExpiry(s, id, r.value.results[id])
                else SameResult(s, r.value, id))
  {
    hide Inv, InvWith, ResolveAll, ProcessExpiredRequests, IsAnswer, IsExpiry, ReportCount;
    PendingIsResolvable(s);
    ResolveAllWrites(s, s.pending, execute, id);
    OwnTodo(s);
    ResolveAllKeepsInv(s, s.pending, execute);
    var s1 := ResolveAll(s, s.pending, execute).value;
    var s2 := s1.(pending := []);
    ClearPendingKeepsInv(s1);
    ExpiryWrites(s2, id);
    var r := ProcessExpiredRequests(s2).value;
    ResolvableFrame(s, s2, id);
    if id in r.results {
      ExpiryFrame(s, s2, id, r.results[id]);
    }
  }

  lemma OwnTodo(s: State)
    requires Inv(s)
    ensures InvWith(s, s.pending)
  {
  }

  /** What is pending has reached its minimum, and everything it needs is there. */
  lemma PendingIsResolvable(s: State)
    requires Inv(s)
    ensures Distinct(s.pending)
    ensures forall id :: id in s.pending ==> id in s.requests && Resolvable(s, id) && ReportCount(s, id) >= s.requests[id].minCount
  {
    hide Resolvable, ReportCount, Judging, Misses, Frontier, ReportsFit, Shape;
    forall id | id in s.pending ensures id in s.requests && Resolvable(s, id) && ReportCount(s, id) >= s.requests[id].minCount {
      assert LifeOf(s, s.pending, id);
      RequestsAreResolvable(s, id);
    }
  }

  /** The same over whole runs. */
  lemma BlocksWrite(states: seq<State>, steps: seq<Step>, i: nat, id: RequestID)
    requires IsRun(states, steps) && i < |steps| && steps[i].FinishBlock?
    ensures var s, r, execute := states[i], states[i + 1], steps[i].execute;
            if id in s.pending then id in r.results && IsAnswer(s, id, execute, r.results[id])
            else if s.requestLastExpired < id <= r.requestLastExpired && id in s.requests
                    && ReportCount(s, id) < s.requests[id].minCount
            then id in r.results && IsExpiry(s, id, r.results[id])
            else SameResult(s, r, id)
  {
    EveryStateHasInv(states, steps, i);
    BlockFollows(states, steps, i);
    hide *;
    EndBlockWrites(states[i], steps[i].execute, id);
  }

  lemma BlockFollows(states: seq<State>, steps: seq<Step>, i: nat)
    requires IsRun(states, steps) && i < |steps| && steps[i].FinishBlock?
    ensures EndBlock(states[i], steps[i].execute) == Returned(states[i + 1])
  {
    assert Follows(states[i], steps[i], states[i + 1]);
    hide EndBlock;
  }

  /** Step j, the end of a block, wrote this result of request `id`. */
  ghost predicate WasWritten(states: seq<State>, steps: seq<Step>, j: nat, id: RequestID, c: Commitment)
    requires |states| == |steps| + 1
  {
    && j < |steps| && steps[j].FinishBlock?
    && c.response.resolveTime == states[j].time
    && if id in states[j].pending then IsAnswer(states[j], id, steps[j].execute, c)
       else states[j].requestLastExpired < id <= states[j + 1].requestLastExpired && IsExpiry(states[j], id, c)
  }

  /** Every stored result was written by the end of an earlier block, and carries its time. */
  lemma {:induction false} StoredResultsWereWritten(states: seq<State>, steps: seq<Step>, i: nat, id: RequestID)
    requires IsRun(states, steps) && i < |states| && id in states[i].results
    ensures exists j :: 0 <= j < i && WasWritten(states, steps, j, id, states[i].results[id])
  {
    assert Genesis(states[0]);
    if i > 0 {
      OnlyBlocksWrite(states, steps, i - 1, id);
      hide IsRun;
      if SameResult(states[i - 1], states[i], id) {
        StoredResultsWereWritten(states, steps, i - 1, id);
      }
    }
  }

  lemma OnlyBlocksWrite(states: seq<State>, steps: seq<Step>, i: nat, id: RequestID)
    requires IsRun(states, steps) && i < |steps|
    ensures || SameResult(states[i], states[i + 1], id)
            || (id in states[i + 1].results && WasWritten(states, steps, i, id, states[i + 1].results[id]))
  {
    assert Follows(states[i], steps[i], states[i + 1]);
    T.MessagesDecideTheirSteps(states, steps, i);
    hide RequestTx, ReportTx, EndBlock, T.GoesThrough, T.IsTaken, T.StoredRequest, ReportCount, ResolvingRun;
    if steps[i].FinishBlock? {
      BlocksWrite(states, steps, i, id);
    }
    hide IsRun;
  }

  /** Which block's time each response carries: the request was stored in a block of the request time, and
      the response written at the end of a later block, or of the same one, of the resolve time. */
  lemma ResponseTimes(states: seq<State>, steps: seq<Step>, i: nat, id: RequestID) returns (k: nat, j: nat)
    requires IsRun(states, steps) && i < |states| && id in states[i].results
    ensures k < j < i && id in states[i].requests
    ensures T.WasRequested(states, steps, k, id, states[i].requests[id])
    ensures WasWritten(states, steps, j, id, states[i].results[id])
    ensures states[i].results[id].response.requestTime == states[k].time
    ensures states[i].results[id].response.resolveTime == states[j].time
  {
    StoredResultsWereWritten(states, steps, i, id);
    hide T.GoesThrough, T.StoredRequest, ResolvingRun;
    j :| 0 <= j < i && WasWritten(states, steps, j, id, states[i].results[id]);
    T.StoredRequestsWereRequested(states, steps, j, id);
    k :| 0 <= k < j && T.WasRequested(states, steps, k, id, states[j].requests[id]);
    LaterStatesRemember(states, steps, j, i);
    hide IsRun;
  }

  // ---------- verdicts ----------

  /** Validator v is jailed by one of the verdicts from position `from` up to position `to`. */
  ghost predicate JailedBetween(log: seq<Event>, from: nat, to: nat, v: Address)
    requires to <= |log|
  {
    exists k :: from <= k < to && log[k].Judged? && log[k].validator == v && log[k].jailing
  }

  /** The verdicts from `from` on are about an active validator exactly if staking knows it, had not jailed it in
      the state `s` in front of them, and none of them has jailed it yet. */
  ghost predicate ActivityIsTrue(s: State, log: seq<Event>, from: nat) {
    forall k :: from <= k < |log| && log[k].Judged? ==>
      (log[k].active <==> IsActive(s.jailed, log[k].validator) && !JailedBetween(log, from, k, log[k].validator))
  }

  predicate IsActive(jailed: map<Address, bool>, v: Address) {
    v in jailed && !jailed[v]
  }

  /** Staking knows the same validators, and has jailed those of `s` and those of the verdicts since. */
  ghost predicate JailedByVerdicts(s: State, t: State, from: nat) {
    && t.jailed.Keys == s.jailed.Keys
    && forall v :: v in s.jailed ==> (t.jailed[v] <==> s.jailed[v] || JailedBetween(t.log, from, |t.log|, v))
  }

  ghost predicate Activity(s: State, t: State, from: nat) {
    from <= |t.log| && ActivityIsTrue(s, t.log, from) && JailedByVerdicts(s, t, from)
  }

  lemma JailedBetweenGrows(log: seq<Event>, e: Event, from: nat, to: nat, v: Address)
    requires from <= |log| && to <= |log|
    ensures JailedBetween(log + [e], from, to, v) <==> JailedBetween(log, from, to, v)
    ensures JailedBetween(log + [e], from, |log| + 1, v)
       <==> JailedBetween(log, from, |log|, v) || (e.Judged? && e.validator == v && e.jailing)
  {
    if JailedBetween(log, from, to, v) {
      var k :| from <= k < to && log[k].Judged? && log[k].validator == v && log[k].jailing;
      assert (log + [e])[k] == log[k];
    }
    if JailedBetween(log, from, |log|, v) {
      var k :| from <= k < |log| && log[k].Judged? && log[k].validator == v && log[k].jailing;
      assert (log + [e])[k] == log[k];
    }
    assert (log + [e])[|log|] == e;
  }

  lemma ActivityGrows(s: State, log: seq<Event>, e: Event, from: nat)
    requires from <= |log| && ActivityIsTrue(s, log, from)
    requires e.Judged? ==> (e.active <==> IsActive(s.jailed, e.validator) && !JailedBetween(log, from, |log|, e.validator))
    ensures ActivityIsTrue(s, log + [e], from)
  {
    hide JailedBetween;
    forall k | from <= k < |log + [e]| && (log + [e])[k].Judged?
      ensures var x := (log + [e])[k];
              x.active <==> IsActive(s.jailed, x.validator) && !JailedBetween(log + [e], from, k, x.validator)
    {
      JailedBetweenGrows(log, e, from, k, (log + [e])[k].validator);
    }
  }

  lemma SaveKeepsActivity(s: State, t: State, e: Event, t1: State, from: nat)
    requires Activity(s, t, from) && !e.Judged? && t1.jailed == t.jailed && t1.log == t.log + [e]
    ensures Activity(s, t1, from)
  {
    ActivityGrows(s, t.log, e, from);
    hide JailedBetween;
    forall v | v in s.jailed ensures t1.jailed[v] <==> s.jailed[v] || JailedBetween(t1.log, from, |t1.log|, v) {
      JailedBetweenGrows(t.log, e, from, 0, v);
    }
  }

  lemma VerdictKeepsActivity(s: State, t: State, id: RequestID, validator: Address, reported: bool, from: nat)
    requires Activity(s, t, from)
    ensures Activity(s, HandleValidatorReport(t, id, validator, reported), from)
  {
    var e, _ := VerdictIsLogged(t, id, validator, reported);
    var t1 := HandleValidatorReport(t, id, validator, reported);
    hide HandleValidatorReport, JailedBetween;
    ActivityGrows(s, t.log, e, from);
    forall v | v in s.jailed ensures t1.jailed[v] <==> s.jailed[v] || JailedBetween(t1.log, from, |t1.log|, v) {
      JailedBetweenGrows(t.log, e, from, 0, v);
    }
  }

  lemma {:induction false} JudgeFirstKeepsActivity(s: State, t: State, id: RequestID, validators: seq<Address>, n: nat, from: nat)
    requires n <= |validators| && Activity(s, t, from)
    ensures Activity(s, JudgeFirst(t, id, validators, n), from)
  {
    hide HandleValidatorReport, Activity;
    if n > 0 {
      JudgeFirstKeepsActivity(s, t, id, validators, n - 1, from);
      var before := JudgeFirst(t, id, validators, n - 1);
      VerdictKeepsActivity(s, before, id, validators[n - 1], validators[n - 1] in ReportsOf(before, id), from);
    }
  }

  lemma {:induction false} ExpiryKeepsActivity(s: State, t: State, from: nat)
    requires ProcessExpiredRequests(t).Returned? && Activity(s, t, from)
    ensures Activity(s, ProcessExpiredRequests(t).value, from)
    decreases t.requestCount - t.requestLastExpired
  {
    hide CommitmentOf, JudgeFirst, HasExpired, Activity;
    var id := t.requestLastExpired + 1;
    if t.requestLastExpired < t.requestCount && HasExpired(t, t.requests[id]) {
      var t1 := BeforeJudging(t, id);
      if t1 != t {
        SaveKeepsActivity(s, t, t1.log[|t1.log| - 1], t1, from);
      }
      var validators := t1.requests[id].requestedValidators;
      JudgeFirstKeepsActivity(s, t1, id, validators, |validators|, from);
      SameActivity(s, JudgeFirst(t1, id, validators, |validators|), ExpireOne(t, id), from);
      ExpiryKeepsActivity(s, ExpireOne(t, id), from);
    }
  }

  lemma SameActivity(s: State, t: State, t1: State, from: nat)
    requires Activity(s, t, from) && t1.jailed == t.jailed && t1.log == t.log
    ensures Activity(s, t1, from)
  {
  }

  lemma ResolveLogs(t: State, id: RequestID, execute: Execute) returns (e: Event)
    requires ResolveRequest(t, id, execute).Returned?
    ensures var t1 := ResolveRequest(t, id, execute).value;
            !e.Judged? && t1.jailed == t.jailed && t1.log == t.log + [e]
  {
    hide CommitmentOf;
    e := Saved(id, ResolveRequest(t, id, execute).value.results[id].response);
  }

  lemma {:induction false} ResolveAllKeepsActivity(s: State, t: State, ids: seq<RequestID>, execute: Execute, from: nat)
    requires ResolveAll(t, ids, execute).Returned? && Activity(s, t, from)
    ensures Activity(s, ResolveAll(t, ids, execute).value, from)
    decreases |ids|
  {
    hide ResolveRequest, Activity;
    if ids != [] {
      var t1 := ResolveRequest(t, ids[0], execute).value;
      var e := ResolveLogs(t, ids[0], execute);
      SaveKeepsActivity(s, t, e, t1, from);
      ResolveAllKeepsActivity(s, t1, ids[1..], execute, from);
    }
  }

  /** The verdicts of a block look at the staking module as it stands: each is about an active validator if and
      only if the validator was known and not jailed in front of the block, and no earlier verdict of the
      block has jailed it; and after the block exactly those are jailed that were, or that a verdict jailed. */
  lemma VerdictsKnowTheJailed(s: State, execute: Execute)
    requires EndBlock(s, execute).Returned?
    ensures var r := EndBlock(s, execute).value;
            && ActivityIsTrue(s, r.log, |s.log|)
            && r.jailed.Keys == s.jailed.Keys
            && forall v :: v in s.jailed ==> (r.jailed[v] <==> s.jailed[v] || JailedBetween(r.log, |s.log|, |r.log|, v))
  {
    assert Activity(s, s, |s.log|);
    hide ResolveAll, ProcessExpiredRequests, ActivityIsTrue, JailedBetween;
    ResolveAllKeepsActivity(s, s, s.pending, execute, |s.log|);
    var s1 := ResolveAll(s, s.pending, execute).value;
    SameActivity(s, s1, s1.(pending := []), |s.log|);
    ExpiryKeepsActivity(s, s1.(pending := []), |s.log|);
  }
}
