/**
 * Whole-command retry guarded by the domain-commit counter
 * (packages/tasq-cli/src/index.ts:845-884). An attempt is everything that happens
 * to the process's transactions while it runs, how it ends, and the jitter drawn
 * if it is retried. A transaction belongs to the attempt that submitted it.
 */
module Retry {
  import opened Common
  import opened Transactions

  const MAX_ATTEMPTS: nat := 7
  const BASE_DELAY_MS: nat := 100

  /** Transient is an error that matches SQLITE_BUSY or "database is locked". */
  datatype Ending = Returned(code: int) | Transient | Fatal

  datatype Attempt = Attempt(work: seq<Step>, ending: Ending, jitter: nat)

  datatype Outcome = Exit(code: int) | Threw

  /** The database state after the first n attempts. */
  function After(s: State, attempts: seq<Attempt>, n: nat): State
    requires n <= |attempts|
  {
    if n == 0 then s else TakeAll(After(s, attempts, n - 1), attempts[n - 1].work)
  }

  /** The counter moved during attempt k. */
  predicate Advances(s: State, attempts: seq<Attempt>, k: nat)
    requires k < |attempts|
  {
    After(s, attempts, k + 1).committedMutations > After(s, attempts, k).committedMutations
  }

  /** The loop ends with attempt k rather than replaying the command. */
  predicate Stops(s: State, attempts: seq<Attempt>, onboard: bool, k: nat)
    requires k < |attempts|
  {
    || !attempts[k].ending.Transient?
    || (Advances(s, attempts, k) && !onboard)
    || k + 1 == MAX_ATTEMPTS
  }

  function Pow2(n: nat): nat {
    if n == 0 then 1 else 2 * Pow2(n - 1)
  }

  function Slept(attempts: seq<Attempt>, n: nat): nat
    requires n <= |attempts|
  {
    if n == 0 then 0 else Slept(attempts, n - 1) + BASE_DELAY_MS * Pow2(n - 1) + attempts[n - 1].jitter
  }

  /** n backoffs are the doubling series plus less than 50 ms of jitter each. */
  lemma {:induction false} SleptBound(attempts: seq<Attempt>, n: nat)
    requires n <= |attempts| && forall k :: 0 <= k < n ==> attempts[k].jitter < 50
    ensures Slept(attempts, n) <= BASE_DELAY_MS * (Pow2(n) - 1) + 49 * n
  {
    if n > 0 {
      SleptBound(attempts, n - 1);
    }
  }

  function JitterSum(attempts: seq<Attempt>, n: nat): nat
    requires n <= |attempts|
  {
    if n == 0 then 0 else JitterSum(attempts, n - 1) + attempts[n - 1].jitter
  }

  /** n backoffs of 100 ms, doubling each time, and their jitter. */
  lemma {:induction false} SleptExactly(attempts: seq<Attempt>, n: nat)
    requires n <= |attempts|
    ensures Slept(attempts, n) == 100 * (Pow2(n) - 1) + JitterSum(attempts, n)
  {
    if n > 0 {
      SleptExactly(attempts, n - 1);
    }
  }

  lemma {:induction false} Pow2Monotone(m: nat, n: nat)
    requires m <= n
    ensures Pow2(m) <= Pow2(n)
  {
    if m < n {
      Pow2Monotone(m, n - 1);
    }
  }

  /** Six backoffs or fewer stay within the total. */
  lemma SleptWithinBound(attempts: seq<Attempt>, n: nat)
    requires n <= |attempts| && n < MAX_ATTEMPTS && forall k :: 0 <= k < n ==> attempts[k].jitter < 50
    ensures Slept(attempts, n) <= 6594
  {
    SleptBound(attempts, n);
    Pow2Monotone(n, 6);
    assert Pow2(6) == 64 by { assert Pow2(3) == 8; }
  }

  method RunWithRetry(
    s0: State, attempts: seq<Attempt>, onboard: bool, problemCode: Option<int>)
    returns (outcome: Outcome, used: nat, slept: nat, s: State)
    requires |attempts| >= MAX_ATTEMPTS
    requires forall k :: 0 <= k < |attempts| ==> attempts[k].jitter < 50
    ensures 1 <= used <= 7 && s == After(s0, attempts, used)
    ensures Stops(s0, attempts, onboard, used - 1)
    ensures used < 7 ==> !attempts[used - 1].ending.Transient? || (!onboard && Advances(s0, attempts, used - 1))
    ensures forall k :: 0 <= k < used - 1 ==>
      attempts[k].ending.Transient? && (onboard || !Advances(s0, attempts, k))
    ensures forall k :: 0 <= k < used - 1 ==> !Stops(s0, attempts, onboard, k)
    ensures slept == Slept(attempts, used - 1) && slept <= 6594
    ensures outcome ==
      match attempts[used - 1].ending
      case Returned(code) => Exit(code)
      case Fatal => Threw
      case Transient => Exit(if onboard && problemCode.Some? then problemCode.value else 3)
  {
    s, slept, used := s0, 0, 0;
    while true
      invariant 0 <= used < MAX_ATTEMPTS
      invariant s == After(s0, attempts, used) && slept == Slept(attempts, used)
      invariant forall k :: 0 <= k < used ==> !Stops(s0, attempts, onboard, k)
      invariant forall k :: 0 <= k < used ==> attempts[k].ending.Transient? && (onboard || !Advances(s0, attempts, k))
      decreases MAX_ATTEMPTS - used
    {
      SleptWithinBound(attempts, used);
      var committedBefore := s.committedMutations;
      var attempt := attempts[used];
      s := TakeAll(s, attempt.work);
      used := used + 1;
      match attempt.ending {
        case Returned(code) => return Exit(code), used, slept, s;
        case Fatal => return Threw, used, slept, s;
        case Transient =>
          var committedThisAttempt := s.committedMutations > committedBefore;
          if (committedThisAttempt && !onboard) || used == MAX_ATTEMPTS {
            outcome := Exit(if onboard && problemCode.Some? then problemCode.value else 3);
            return;
          }
          slept := slept + BASE_DELAY_MS * Pow2(used - 1) + attempt.jitter;
      }
    }
  }

  // ----- whose transactions commit

  predicate HasCommitted(s: State, i: nat) {
    InPhase(s, i, Committed) || InPhase(s, i, Resumed)
  }

  /** The run does domain work: it was opened for it, or such work was inlined into it. */
  predicate Carries(s: State, i: nat) {
    i < |s.txs| && (s.txs[i].domain || Inlined(i) in s.log)
  }

  /** This step hands domain work to run i: it submits the run for it, or calls from inside it while it runs. */
  predicate HandsWork(s: State, step: Step, i: nat) {
    && step.RunInTransaction?
    && if i == |s.txs| then |Take(s, step).txs| > i
       else step == RunInTransaction(Some(i), Inner(i)) && InPhase(s, i, Running)
  }

  predicate HandedAt(steps: seq<Step>, k: nat, i: nat) {
    k < |steps| && HandsWork(TakeAll(INITIAL, steps[..k]), steps[k], i)
  }

  lemma DomainAfter(s: State, step: Step, i: nat)
    requires i < |Take(s, step).txs|
    ensures Take(s, step).txs[i].domain == if i < |s.txs| then s.txs[i].domain else step.RunInTransaction?
    ensures i <= |s.txs|
  {
  }

  lemma InlinedAfter(s: State, step: Step, i: nat)
    ensures Inlined(i) in Take(s, step).log <==>
      Inlined(i) in s.log || (step == RunInTransaction(Some(i), Inner(i)) && InPhase(s, i, Running))
  {
    if step.Resume? && InPhase(s, step.tx, Committed) {
      CallsAreCalls(step.tx, s.txs[step.tx].callbacks);
    }
  }

  lemma CarriesAfter(s: State, step: Step, i: nat)
    requires LogAgrees(s) && i < |Take(s, step).txs|
    ensures Carries(Take(s, step), i) <==> Carries(s, i) || HandsWork(s, step, i)
  {
    DomainAfter(s, step, i);
    InlinedAfter(s, step, i);
  }

  lemma HandedSoFar(steps: seq<Step>, k: nat, i: nat)
    requires steps != []
    ensures var n := |steps| - 1;
      HandedAt(steps, k, i) <==>
        if k == n then HandsWork(TakeAll(INITIAL, steps[..n]), steps[n], i) else HandedAt(steps[..n], k, i)
  {
    var n := |steps| - 1;
    assert k < n ==> steps[..n][..k] == steps[..k];
  }

  lemma {:induction false} NothingYet(steps: seq<Step>, k: nat, i: nat)
    requires |TakeAll(INITIAL, steps).txs| <= i
    ensures !HandedAt(steps, k, i)
  {
    if steps != [] {
      var n := |steps| - 1;
      StepEvolves(TakeAll(INITIAL, steps[..n]), steps[n]);
      NothingYet(steps[..n], k, i);
      HandedSoFar(steps, k, i);
    }
  }

  /** In every run, a run does domain work exactly when some call handed it some. */
  lemma {:induction false} CarriesExactly(steps: seq<Step>, i: nat)
    requires i < |TakeAll(INITIAL, steps).txs|
    ensures Carries(TakeAll(INITIAL, steps), i) <==> exists k :: HandedAt(steps, k, i)
  {
    var n := |steps| - 1;
    var front := steps[..n];
    var s := TakeAll(INITIAL, front);
    RunsAreSafe(INITIAL, front);
    CarriesAfter(s, steps[n], i);
    if i < |s.txs| {
      CarriesExactly(front, i);
    }
    forall k: nat ensures HandedAt(steps, k, i) <==>
      if k == n then HandsWork(s, steps[n], i) else i < |s.txs| && HandedAt(front, k, i)
    {
      HandedSoFar(steps, k, i);
      if |s.txs| <= i { NothingYet(front, k, i); }
    }
    if HandsWork(s, steps[n], i) {
      assert HandedAt(steps, n, i);
    } else if Carries(s, i) {
      var k :| HandedAt(front, k, i);
      assert HandedAt(steps, k, i);
    }
  }

  predicate CommitsWork(s: State, i: nat) {
    HasCommitted(s, i) && Carries(s, i)
  }

  /** Some continuation commits domain work in this run, or it has been committed already. */
  ghost predicate MayCommitWork(s: State, i: nat) {
    exists later :: CommitsWork(TakeAll(s, later), i)
  }

  /** Committed but unreported, or waiting or running with everything it is nested in still running. */
  predicate Pending(s: State, i: nat)
    requires i < |s.txs|
  {
    s.txs[i].phase.Committed? || CanRun(s, i)
  }

  predicate CanRun(s: State, i: nat)
    requires i < |s.txs|
  {
    (s.txs[i].phase.Waiting? || s.txs[i].phase.Running?) && Open(s.txs, s.txs[i].handle)
  }

  /** Neither committed nor pending. */
  predicate Hopeless(s: State, i: nat) {
    i < |s.txs| && !s.txs[i].phase.Resumed? && !Pending(s, i)
  }

  /** Hopeless, or an operational run that committed without domain work. */
  predicate Spent(s: State, i: nat) {
    Hopeless(s, i) || (HasCommitted(s, i) && !Carries(s, i))
  }

  /**
   * Of the runs submitted between a and b, no domain run is pending at b, and an
   * operational one either committed without inlined work or cannot commit.
   */
  predicate LeavesNothing(a: State, b: State) {
    forall i :: |a.txs| <= i < |b.txs| ==> if b.txs[i].domain then !Pending(b, i) else Spent(b, i)
  }

  /** What a replay rests on: the queues and the counter are right. Every safe state is sane. */
  ghost predicate Sane(s: State) {
    Queued(s) && Counted(s)
  }

  lemma {:induction false} SaneRun(s: State, steps: seq<Step>)
    requires Sane(s)
    ensures Sane(TakeAll(s, steps))
  {
    if steps != [] {
      SaneRun(s, steps[..|steps| - 1]);
      StepKeepsQueues(TakeAll(s, steps[..|steps| - 1]), steps[|steps| - 1]);
      StepKeepsCount(TakeAll(s, steps[..|steps| - 1]), steps[|steps| - 1]);
    }
  }

  lemma {:induction false} CountedRun(s: State, steps: seq<Step>)
    requires Counted(s)
    ensures Counted(TakeAll(s, steps))
  {
    if steps != [] {
      CountedRun(s, steps[..|steps| - 1]);
      StepKeepsCount(TakeAll(s, steps[..|steps| - 1]), steps[|steps| - 1]);
    }
  }

  /** Resumed transactions stay resumed, and each new one adds to the count. */
  lemma {:induction false} ResumedOnlyGrow(txs: seq<Tx>, txs': seq<Tx>)
    requires AllEvolved(txs, txs')
    ensures Count(txs, ResumedDomain) <= Count(txs', ResumedDomain)
    ensures forall i :: |txs| <= i < |txs'| && ResumedDomain(txs'[i]) ==>
      Count(txs, ResumedDomain) < Count(txs', ResumedDomain)
    decreases |txs'|
  {
    if txs' != [] {
      var n := |txs'| - 1;
      if |txs| <= n {
        ResumedOnlyGrow(txs, txs'[..n]);
      } else {
        assert Evolved(txs[n], txs'[n]);
        ResumedOnlyGrow(txs[..n], txs'[..n]);
      }
    }
  }

  /** Work that left the counter and nothing of its own pending has no run that could commit domain work. */
  lemma OwnAreSpent(a: State, work: seq<Step>)
    requires Counted(a) && TakeAll(a, work).committedMutations <= a.committedMutations
    requires LeavesNothing(a, TakeAll(a, work))
    ensures var b := TakeAll(a, work);
      forall i :: |a.txs| <= i < |b.txs| ==> Spent(b, i)
  {
    CountedRun(a, work);
    RunEvolves(a, work);
    ResumedOnlyGrow(a.txs, TakeAll(a, work).txs);
  }

  // ----- what is spent stays so

  /** A handle that is closed is never open again. */
  lemma {:induction false} ClosedForGood(txs: seq<Tx>, txs': seq<Tx>, target: Handle)
    requires AllEvolved(txs, txs') && HandlesRight(txs)
    requires target.Inner? ==> target.tx < |txs| && Ran(txs[target.tx])
    requires Open(txs', target)
    ensures Open(txs, target)
    decreases if target.Root? then 0 else target.tx + 1
  {
    if target.Inner? {
      assert Evolved(txs[target.tx], txs'[target.tx]);
      ClosedForGood(txs, txs', txs[target.tx].handle);
    }
  }

  lemma StepKeepsHopeless(s: State, step: Step, i: nat)
    requires HandlesRight(s.txs) && Hopeless(s, i)
    ensures Hopeless(Take(s, step), i)
  {
    var s' := Take(s, step);
    StepEvolves(s, step);
    assert Evolved(s.txs[i], s'.txs[i]);
    if Open(s'.txs, s'.txs[i].handle) {
      ClosedForGood(s.txs, s'.txs, s.txs[i].handle);
    }
  }

  /** Work is inlined only into a running transaction. */
  lemma InlinedWhileRunning(s: State, step: Step, i: nat)
    requires i < |s.txs| && Inlined(i) in Take(s, step).log
    ensures Inlined(i) in s.log || s.txs[i].phase.Running?
  {
    if step.Resume? {
      if InPhase(s, step.tx, Committed) { CallsAreCalls(step.tx, s.txs[step.tx].callbacks); }
    }
  }

  lemma StepKeepsSpent(s: State, step: Step, i: nat)
    requires HandlesRight(s.txs) && Spent(s, i)
    ensures Spent(Take(s, step), i)
  {
    if Hopeless(s, i) {
      StepKeepsHopeless(s, step, i);
    } else {
      StepEvolves(s, step);
      assert Evolved(s.txs[i], Take(s, step).txs[i]);
      if Inlined(i) in Take(s, step).log { InlinedWhileRunning(s, step, i); }
    }
  }

  lemma {:induction false} SpentForGood(s: State, later: seq<Step>, i: nat)
    requires Queued(s) && Spent(s, i)
    ensures Queued(TakeAll(s, later)) && Spent(TakeAll(s, later), i)
  {
    if later != [] {
      var mid, step := TakeAll(s, later[..|later| - 1]), later[|later| - 1];
      SpentForGood(s, later[..|later| - 1], i);
      StepKeepsSpent(mid, step, i);
      StepKeepsQueues(mid, step);
    }
  }

  // ----- what is left pending can still commit

  predicate OnlyRuns(steps: seq<Step>) {
    forall k :: 0 <= k < |steps| ==> steps[k].Begin? || steps[k].Settle?
  }

  /** Beginning and settling other transactions leaves one as it is. */
  lemma {:induction false} OthersLeaveAlone(s: State, steps: seq<Step>, i: nat)
    requires i < |s.txs| && OnlyRuns(steps) && forall k :: 0 <= k < |steps| ==> steps[k].tx != i
    ensures |TakeAll(s, steps).txs| == |s.txs| && TakeAll(s, steps).txs[i] == s.txs[i]
  {
    if steps != [] {
      OthersLeaveAlone(s, steps[..|steps| - 1], i);
    }
  }

  predicate Above(target: Handle, i: nat) {
    target.Inner? ==> target.tx < i
  }

  /** Whether a handle is open depends on what it is nested in only. */
  lemma {:induction false} OpenFrame(txs: seq<Tx>, txs': seq<Tx>, target: Handle)
    requires |txs'| == |txs| && forall j :: 0 <= j < |txs| && !Above(target, j) ==> txs'[j] == txs[j]
    ensures Open(txs, target) <==> Open(txs', target)
    decreases if target.Root? then 0 else target.tx + 1
  {
    if target.Inner? && target.tx < |txs| && Above(txs[target.tx].handle, target.tx) {
      assert !Above(target, target.tx);
      OpenFrame(txs, txs', txs[target.tx].handle);
    }
  }

  lemma RunsAboveKeepOpen(s: State, steps: seq<Step>, target: Handle)
    requires OnlyRuns(steps) && forall k :: 0 <= k < |steps| ==> Above(target, steps[k].tx)
    ensures Open(TakeAll(s, steps).txs, target) <==> Open(s.txs, target)
  {
    RunsAddNothing(s, steps);
    forall j | 0 <= j < |s.txs| && !Above(target, j) ensures TakeAll(s, steps).txs[j] == s.txs[j] {
      OthersLeaveAlone(s, steps, j);
    }
    OpenFrame(s.txs, TakeAll(s, steps).txs, target);
  }

  lemma {:induction false} RunsAddNothing(s: State, steps: seq<Step>)
    requires OnlyRuns(steps)
    ensures |TakeAll(s, steps).txs| == |s.txs|
  {
    if steps != [] {
      RunsAddNothing(s, steps[..|steps| - 1]);
    }
  }

  /** A run whose turn has come is begun and settled: with a commit if its handle is open. */
  lemma BeginAndSettle(s: State, i: nat)
    requires HasTurn(s, i) && Above(s.txs[i].handle, i)
    ensures var s' := Take(Take(s, Begin(i)), Settle(i, true));
      i < |s'.txs| && Settled(s'.txs[i]) && (Open(s.txs, s.txs[i].handle) ==> s'.txs[i].phase.Committed?)
  {
    OpenFrame(s.txs, Take(s, Begin(i)).txs, s.txs[i].handle);
  }

  /** Steps that only begin and settle runs up to i, all of them after what i is nested in. */
  predicate ReachesUpTo(steps: seq<Step>, target: Handle, i: nat) {
    OnlyRuns(steps) && forall k :: 0 <= k < |steps| ==> steps[k].tx <= i && Above(target, steps[k].tx)
  }

  /** Settled, and with a commit if it was pending before. */
  predicate SettledFrom(s: State, s': State, i: nat)
    requires i < |s.txs|
  {
    i < |s'.txs| && Settled(s'.txs[i]) && (Pending(s, i) ==> HasCommitted(s', i))
  }

  lemma SettleRunning(s: State, i: nat)
    requires InPhase(s, i, Running)
    ensures SettledFrom(s, TakeAll(s, [Settle(i, true)]), i)
  {
    assert [] + [Settle(i, true)] == [Settle(i, true)];
    TakeOneMore(s, [], Settle(i, true));
  }

  /** Once the queue in front of it has run, a waiting transaction runs too. */
  lemma SettleWaiting(s: State, i: nat, front: seq<Step>)
    requires InPhase(s, i, Waiting) && Above(s.txs[i].handle, i)
    requires OnlyRuns(front) && forall k :: 0 <= k < |front| ==> front[k].tx < i && Above(s.txs[i].handle, front[k].tx)
    requires s.txs[i].prior.Some? ==>
      s.txs[i].prior.value < |TakeAll(s, front).txs| && Settled(TakeAll(s, front).txs[s.txs[i].prior.value])
    ensures SettledFrom(s, TakeAll(s, front + [Begin(i)] + [Settle(i, true)]), i)
  {
    OthersLeaveAlone(s, front, i);
    RunsAboveKeepOpen(s, front, s.txs[i].handle);
    BeginAndSettle(TakeAll(s, front), i);
    TakeOneMore(s, front, Begin(i));
    TakeOneMore(s, front + [Begin(i)], Settle(i, true));
  }

  /** Running the queue in front of a transaction settles it, with a commit if it is pending. */
  lemma {:induction false} CanSettle(s: State, i: nat) returns (later: seq<Step>)
    requires PriorsRight(s.txs) && HandlesRight(s.txs) && i < |s.txs|
    ensures ReachesUpTo(later, s.txs[i].handle, i)
    ensures SettledFrom(s, TakeAll(s, later), i)
  {
    if s.txs[i].phase.Running? {
      later := [Settle(i, true)];
      SettleRunning(s, i);
    } else if s.txs[i].phase.Waiting? {
      var front := [];
      assert IsLast(s.txs, s.txs[i].handle, i, s.txs[i].prior);
      if s.txs[i].prior.Some? {
        front := CanSettle(s, s.txs[i].prior.value);
      }
      SettleWaiting(s, i, front);
      later := front + [Begin(i)] + [Settle(i, true)];
    } else {
      later := [];
    }
  }

  /** A running transaction whose handle is open has work inlined and commits it. */
  lemma InlineAndSettle(s: State, i: nat)
    requires InPhase(s, i, Running) && Open(s.txs, s.txs[i].handle)
    ensures CommitsWork(TakeAll(s, [RunInTransaction(Some(i), Inner(i)), Settle(i, true)]), i)
  {
    TakeTwo(s, RunInTransaction(Some(i), Inner(i)), Settle(i, true));
  }

  /** A run that can still run can be brought to running. */
  lemma CanStart(s: State, i: nat) returns (front: seq<Step>)
    requires PriorsRight(s.txs) && HandlesRight(s.txs) && i < |s.txs| && CanRun(s, i)
    ensures var s' := TakeAll(s, front); InPhase(s', i, Running) && Open(s'.txs, s'.txs[i].handle)
  {
    front := [];
    if s.txs[i].phase.Waiting? {
      assert IsLast(s.txs, s.txs[i].handle, i, s.txs[i].prior);
      if s.txs[i].prior.Some? {
        front := CanSettle(s, s.txs[i].prior.value);
      }
      StartWaiting(s, i, front);
      front := front + [Begin(i)];
    }
  }

  lemma StartWaiting(s: State, i: nat, front: seq<Step>)
    requires InPhase(s, i, Waiting) && Above(s.txs[i].handle, i) && Open(s.txs, s.txs[i].handle)
    requires OnlyRuns(front) && forall k :: 0 <= k < |front| ==> front[k].tx < i && Above(s.txs[i].handle, front[k].tx)
    requires s.txs[i].prior.Some? ==>
      s.txs[i].prior.value < |TakeAll(s, front).txs| && Settled(TakeAll(s, front).txs[s.txs[i].prior.value])
    ensures var s' := TakeAll(s, front + [Begin(i)]); InPhase(s', i, Running) && Open(s'.txs, s'.txs[i].handle)
  {
    OthersLeaveAlone(s, front, i);
    RunsAboveKeepOpen(s, front, s.txs[i].handle);
    TakeOneMore(s, front, Begin(i));
    OpenFrame(TakeAll(s, front).txs, TakeAll(s, front + [Begin(i)]).txs, s.txs[i].handle);
  }

  lemma CanCarry(s: State, i: nat) returns (later: seq<Step>)
    requires PriorsRight(s.txs) && HandlesRight(s.txs) && i < |s.txs| && CanRun(s, i)
    ensures CommitsWork(TakeAll(s, later), i)
  {
    var front := CanStart(s, i);
    var tail := [RunInTransaction(Some(i), Inner(i)), Settle(i, true)];
    InlineAndSettle(TakeAll(s, front), i);
    TakeSplit(s, front, tail);
    later := front + tail;
  }

  lemma SpentNeverCommitsWork(s: State, i: nat)
    requires Queued(s) && Spent(s, i)
    ensures !MayCommitWork(s, i)
  {
    forall later ensures !CommitsWork(TakeAll(s, later), i) {
      SpentForGood(s, later, i);
    }
  }

  /** A domain run that is pending can commit, and so can an operational one that is not spent, with domain work. */
  lemma UnspentMayCommitWork(s: State, i: nat)
    requires Queued(s) && i < |s.txs| && (if s.txs[i].domain then Pending(s, i) else !Spent(s, i))
    ensures MayCommitWork(s, i)
  {
    if CanRun(s, i) {
      var later := CanCarry(s, i);
      assert CommitsWork(TakeAll(s, later), i);
    } else {
      assert CommitsWork(TakeAll(s, []), i);
    }
  }

  /**
   * The premise of a safe replay is exact: when the counter did not move, no run
   * submitted by the work can ever commit domain work, its own or inlined, if
   * and only if no domain run was left pending and every operational run
   * committed without inlined work or cannot commit.
   */
  lemma ReplayIsSafeExactly(a: State, work: seq<Step>)
    requires Sane(a) && TakeAll(a, work).committedMutations <= a.committedMutations
    ensures var b := TakeAll(a, work);
      (forall i :: |a.txs| <= i < |b.txs| ==> !MayCommitWork(b, i)) <==> LeavesNothing(a, b)
  {
    var b := TakeAll(a, work);
    SaneRun(a, work);
    if LeavesNothing(a, b) {
      OwnAreSpent(a, work);
      forall i | |a.txs| <= i < |b.txs| ensures !MayCommitWork(b, i) {
        SpentNeverCommitsWork(b, i);
      }
    } else {
      var i :| |a.txs| <= i < |b.txs| && !(if b.txs[i].domain then !Pending(b, i) else Spent(b, i));
      UnspentMayCommitWork(b, i);
    }
  }

  // ----- the loop

  /** The loop replayed attempt k, which had left no run that could still commit domain work, nor committed any. */
  predicate CleanReplay(s: State, attempts: seq<Attempt>, k: nat)
    requires k < |attempts|
  {
    !Stops(s, attempts, false, k) && LeavesNothing(After(s, attempts, k), After(s, attempts, k + 1))
  }

  /** The loop replayed the first n attempts, each cleanly. */
  predicate CleanReplays(s: State, attempts: seq<Attempt>, n: nat)
    requires n <= |attempts|
  {
    n == 0 || (CleanReplays(s, attempts, n - 1) && CleanReplay(s, attempts, n - 1))
  }

  function WorkOf(attempts: seq<Attempt>, n: nat): seq<Step>
    requires n <= |attempts|
  {
    if n == 0 then [] else WorkOf(attempts, n - 1) + attempts[n - 1].work
  }

  lemma {:induction false} AfterIsOneRun(s: State, attempts: seq<Attempt>, n: nat)
    requires n <= |attempts|
    ensures After(s, attempts, n) == TakeAll(s, WorkOf(attempts, n))
  {
    if n > 0 {
      AfterIsOneRun(s, attempts, n - 1);
      TakeSplit(s, WorkOf(attempts, n - 1), attempts[n - 1].work);
    }
  }

  lemma SaneAfter(s: State, attempts: seq<Attempt>, n: nat)
    requires Sane(s) && n <= |attempts|
    ensures Sane(After(s, attempts, n))
  {
    SaneRun(s, WorkOf(attempts, n));
    AfterIsOneRun(s, attempts, n);
  }

  lemma {:induction false} SpentAfter(s: State, attempts: seq<Attempt>, m: nat, n: nat, i: nat)
    requires m <= n <= |attempts| && Queued(After(s, attempts, m)) && Spent(After(s, attempts, m), i)
    ensures Queued(After(s, attempts, n)) && Spent(After(s, attempts, n), i)
  {
    if m < n {
      SpentAfter(s, attempts, m, n - 1, i);
      SpentForGood(After(s, attempts, n - 1), attempts[n - 1].work, i);
    }
  }

  /** No run of a cleanly replayed attempt commits domain work, during any later attempt or after the last. */
  lemma ReplayedAttemptNeverCommits(
    s: State, attempts: seq<Attempt>, k: nat, used: nat, later: seq<Step>, i: nat)
    requires Sane(s) && k < used <= |attempts| && CleanReplay(s, attempts, k)
    requires |After(s, attempts, k).txs| <= i < |After(s, attempts, k + 1).txs|
    ensures !CommitsWork(TakeAll(After(s, attempts, used), later), i)
  {
    ReplayedIsSpent(s, attempts, k, i);
    SpentForever(s, attempts, k + 1, used, later, i);
  }

  lemma SpentForever(s: State, attempts: seq<Attempt>, m: nat, n: nat, later: seq<Step>, i: nat)
    requires m <= n <= |attempts| && Queued(After(s, attempts, m)) && Spent(After(s, attempts, m), i)
    ensures !CommitsWork(TakeAll(After(s, attempts, n), later), i)
  {
    SpentAfter(s, attempts, m, n, i);
    SpentForGood(After(s, attempts, n), later, i);
  }

  lemma ReplayedIsSpent(s: State, attempts: seq<Attempt>, k: nat, i: nat)
    requires Sane(s) && k < |attempts| && CleanReplay(s, attempts, k)
    requires |After(s, attempts, k).txs| <= i < |After(s, attempts, k + 1).txs|
    ensures Queued(After(s, attempts, k + 1)) && Spent(After(s, attempts, k + 1), i)
  {
    SaneAfter(s, attempts, k);
    OwnAreSpent(After(s, attempts, k), attempts[k].work);
    SaneRun(After(s, attempts, k), attempts[k].work);
  }

  /**
   * Of all runs a command other than `onboard` submits in the attempts the loop
   * makes, only those of the last attempt ever commit domain work, their own or
   * inlined, then or later, provided each replayed attempt was clean.
   */
  lemma AtMostOneAttemptCommits(s: State, attempts: seq<Attempt>, used: nat, later: seq<Step>, i: nat)
    requires Sane(s) && 0 < used <= |attempts|
    requires CleanReplays(s, attempts, used - 1)
    requires |s.txs| <= i && CommitsWork(TakeAll(After(s, attempts, used), later), i)
    ensures |After(s, attempts, used - 1).txs| <= i
  {
    if i < |After(s, attempts, used - 1).txs| {
      EarlierNeverCommits(s, attempts, used - 1, used, later, i);
    }
  }

  /** By attempts: the runs of the first n, all replayed cleanly, never commit domain work. */
  lemma {:induction false} EarlierNeverCommits(
    s: State, attempts: seq<Attempt>, n: nat, used: nat, later: seq<Step>, i: nat)
    requires Sane(s) && n < used <= |attempts| && CleanReplays(s, attempts, n)
    requires |s.txs| <= i < |After(s, attempts, n).txs|
    ensures !CommitsWork(TakeAll(After(s, attempts, used), later), i)
  {
    if i < |After(s, attempts, n - 1).txs| {
      EarlierNeverCommits(s, attempts, n - 1, used, later, i);
    } else {
      ReplayedAttemptNeverCommits(s, attempts, n - 1, used, later, i);
    }
  }

  // ----- the premise is needed

  const QUEUE := Root(0)

  /** Two domain transactions are queued; the first rolls back, the second is still waiting. */
  const LEAVING: seq<Step> :=
    [RunInTransaction(None, QUEUE), RunInTransaction(None, QUEUE), Begin(0), Settle(0, false)]

  /** The leftover commits, and then the replay's own transaction does. */
  const REPLAY: seq<Step> :=
    [Begin(1), Settle(1, true), Resume(1), RunInTransaction(None, QUEUE), Begin(2), Settle(2, true), Resume(2)]

  function Domain(prior: Option<nat>, phase: Phase): Tx {
    Tx(QUEUE, true, prior, phase, [])
  }

  lemma LeavingRun()
    ensures TakeAll(INITIAL, LEAVING) == State(
      [Domain(None, RolledBack), Domain(Some(0), Waiting)], map[QUEUE := 1], 0, [Began(0), Ended(0, false)])
  {
    var a := RunInTransaction(None, QUEUE);
    var queued := State([Domain(None, Waiting), Domain(Some(0), Waiting)], map[QUEUE := 1], 0, []);
    assert LEAVING == [a, a] + [Begin(0), Settle(0, false)];
    TakeSplit(INITIAL, [a, a], [Begin(0), Settle(0, false)]);
    TakeTwo(INITIAL, a, a);
    assert Take(Take(INITIAL, a), a) == queued;
    TakeTwo(queued, Begin(0), Settle(0, false));
  }

  /** A waiting domain transaction without callbacks whose turn it is runs to its end. */
  lemma RunToEnd(s: State, i: nat)
    requires HasTurn(s, i) && s.txs[i].handle.Root? && s.txs[i].callbacks == []
    ensures var s' := TakeAll(s, [Begin(i), Settle(i, true), Resume(i)]);
      s'.txs == s.txs[i := s.txs[i].(phase := Resumed)] && s'.chains == s.chains
  {
    TakeThree(s, Begin(i), Settle(i, true), Resume(i));
  }

  lemma ReplayRun(s: State)
    requires |s.txs| == 2 && s.txs[0] == Domain(None, RolledBack) && s.txs[1] == Domain(Some(0), Waiting)
    requires QUEUE in s.chains && s.chains[QUEUE] == 1
    ensures var s' := TakeAll(s, REPLAY);
      |s'.txs| == 3 && s'.txs[1] == Domain(Some(0), Resumed) && s'.txs[2] == Domain(Some(1), Resumed)
  {
    var c := RunInTransaction(None, QUEUE);
    var first, second := [Begin(1), Settle(1, true), Resume(1)], [Begin(2), Settle(2, true), Resume(2)];
    assert REPLAY == first + [c] + second;
    TakeSplit(s, first + [c], second);
    TakeOneMore(s, first, c);
    RunToEnd(s, 1);
    var s1 := TakeAll(s, first);
    RunToEnd(Take(s1, c), 2);
  }

  /**
   * A transient attempt that leaves a queued domain transaction behind is
   * replayed, and both its leftover and the replay's own transaction commit.
   */
  lemma LeftoverCommitsBesideTheReplay()
    ensures var attempts := [Attempt(LEAVING, Transient, 0), Attempt(REPLAY, Returned(0), 0)];
      var s1, s2 := After(INITIAL, attempts, 1), After(INITIAL, attempts, 2);
      && !Stops(INITIAL, attempts, false, 0) && Stops(INITIAL, attempts, false, 1)
      && |s1.txs| == 2 && |s2.txs| == 3 && s2.txs[1].domain && s2.txs[2].domain
      && HasCommitted(s2, 1) && HasCommitted(s2, 2)
      && !LeavesNothing(INITIAL, s1)
  {
    var attempts := [Attempt(LEAVING, Transient, 0), Attempt(REPLAY, Returned(0), 0)];
    LeavingRun();
    assert Open(After(INITIAL, attempts, 1).txs, QUEUE);
    assert After(INITIAL, attempts, 1) == TakeAll(After(INITIAL, attempts, 0), LEAVING);
    ReplayRun(After(INITIAL, attempts, 1));
    assert After(INITIAL, attempts, 2) == TakeAll(After(INITIAL, attempts, 1), REPLAY);
    assert After(INITIAL, attempts, 1).txs[1].phase.Waiting?;
  }

  /** An operational transaction has domain work inlined, commits, and its caller resumes. */
  function Inlining(i: nat): seq<Step> {
    [RunOperational(QUEUE), Begin(i)] + [RunInTransaction(Some(i), Inner(i)), Settle(i, true)] + [Resume(i)]
  }

  lemma InliningRun(s: State, i: nat)
    requires i == |s.txs|
    requires var prior := Tail(s.chains, QUEUE); prior.Some? ==> prior.value < i && Settled(s.txs[prior.value])
    ensures var s' := TakeAll(s, Inlining(i));
      && s'.txs == s.txs + [Tx(QUEUE, false, Tail(s.chains, QUEUE), Resumed, [])]
      && s'.chains == s.chains[QUEUE := i] && s'.committedMutations == s.committedMutations
      && s'.log == s.log + [Began(i), Inlined(i), Ended(i, true)]
  {
    var t := Tx(QUEUE, false, Tail(s.chains, QUEUE), Running, []);
    var begun := State(s.txs + [t], s.chains[QUEUE := i], s.committedMutations, s.log + [Began(i)]);
    var a, b := [RunOperational(QUEUE), Begin(i)], [RunInTransaction(Some(i), Inner(i)), Settle(i, true)];
    TakeTwo(s, a[0], a[1]);
    assert Take(s, RunOperational(QUEUE)) == Submit(s, QUEUE, false);
    assert Take(Take(s, a[0]), a[1]) == begun;
    TakeTwo(begun, b[0], b[1]);
    TakeSplit(s, a, b);
    TakeOneMore(s, a + b, Resume(i));
    InlinedCommit(begun, i);
  }

  lemma InlinedCommit(s: State, i: nat)
    requires InPhase(s, i, Running) && s.txs[i].handle.Root? && s.txs[i].callbacks == [] && !s.txs[i].domain
    ensures var done := Take(Take(s, RunInTransaction(Some(i), Inner(i))), Settle(i, true));
      Take(done, Resume(i)) == s.(txs := s.txs[i := s.txs[i].(phase := Resumed)],
                                  log := s.log + [Inlined(i), Ended(i, true)])
  {
    assert Calls(i, []) == [];
  }

  /** Domain work inlined into operational transactions is not counted: it is replayed after it committed. */
  lemma InlinedWorkIsAppliedTwice()
    ensures var attempts := [Attempt(Inlining(0), Transient, 0), Attempt(Inlining(1), Returned(0), 0)];
      var s1, s2 := After(INITIAL, attempts, 1), After(INITIAL, attempts, 2);
      && !Stops(INITIAL, attempts, false, 0) && |s1.txs| == 1 && |s2.txs| == 2
      && CommitsWork(s2, 0) && CommitsWork(s2, 1)
      && !LeavesNothing(INITIAL, s1)
  {
    var attempts := [Attempt(Inlining(0), Transient, 0), Attempt(Inlining(1), Returned(0), 0)];
    InliningRun(INITIAL, 0);
    assert After(INITIAL, attempts, 1) == TakeAll(After(INITIAL, attempts, 0), Inlining(0));
    InliningRun(After(INITIAL, attempts, 1), 1);
    assert After(INITIAL, attempts, 2) == TakeAll(After(INITIAL, attempts, 1), Inlining(1));
    assert CommitsWork(After(INITIAL, attempts, 1), 0);
  }

  /** The opposite error: a counted savepoint that was undone stops a replay that would have been safe. */
  lemma UndoneWorkBlocksReplay()
    ensures var attempts := [Attempt(UNDISCIPLINED, Transient, 0)];
      Stops(INITIAL, attempts, false, 0) && OutermostCommits(After(INITIAL, attempts, 1)) == 0
  {
    var attempts := [Attempt(UNDISCIPLINED, Transient, 0)];
    UndoneSavepointIsCounted();
    assert After(INITIAL, attempts, 1) == TakeAll(After(INITIAL, attempts, 0), UNDISCIPLINED);
  }

  // ----- operational work

  /** Every domain transaction has settled, and the callers of committed ones have resumed. */
  predicate NoPendingDomain(s: State) {
    forall i :: 0 <= i < |s.txs| && s.txs[i].domain ==> Settled(s.txs[i]) && !s.txs[i].phase.Committed?
  }

  /**
   * Delivery bookkeeping never moves the counter, so it never blocks a replay.
   * Domain work inlined into it does not move the counter either, which makes
   * such a replay unsafe.
   */
  lemma {:induction false} OperationalWorkNeverCounts(s: State, steps: seq<Step>)
    requires NoPendingDomain(s)
    requires forall i :: 0 <= i < |steps| && steps[i].RunInTransaction? ==> Inlines(steps[i].scope, steps[i].target)
    ensures NoPendingDomain(TakeAll(s, steps))
    ensures TakeAll(s, steps).committedMutations == s.committedMutations
  {
    if steps != [] {
      OperationalWorkNeverCounts(s, steps[..|steps| - 1]);
    }
  }

  /** The exemption is real: an `onboard` attempt that committed is replayed. */
  lemma OnboardReplaysAfterACommit()
    ensures
      var work := [RunInTransaction(None, QUEUE), Begin(0), Settle(0, true), Resume(0)];
      var s := TakeAll(INITIAL, work);
      && s.committedMutations == 1 && HasCommitted(s, 0)
      && !Stops(INITIAL, [Attempt(work, Transient, 0)], true, 0)
      && Stops(INITIAL, [Attempt(work, Transient, 0)], false, 0)
  {
    var a := RunInTransaction(None, QUEUE);
    var work := [a, Begin(0), Settle(0, true), Resume(0)];
    assert work == [a, Begin(0)] + [Settle(0, true), Resume(0)];
    TakeSplit(INITIAL, [a, Begin(0)], [Settle(0, true), Resume(0)]);
    TakeTwo(INITIAL, a, Begin(0));
    TakeTwo(Take(Take(INITIAL, a), Begin(0)), Settle(0, true), Resume(0));
    var attempts := [Attempt(work, Transient, 0)];
    assert After(INITIAL, attempts, 1) == TakeAll(After(INITIAL, attempts, 0), work);
  }
}
