/**
 * Transaction queues, after-commit callbacks and the domain-commit counter
 * (packages/tasq-core/src/db.ts:49-146).
 *
 * A promise is a phase: a queued transaction begins once the promise it was
 * chained onto has settled, and its caller resumes some time after it
 * committed. Every call carries its async context: the transaction in whose
 * body it is made, if any. Contexts outlive their transaction, as detached
 * work does.
 */
module Transactions {
  import opened Common

  /** Refused is a run whose turn came when the transaction it was to be opened in had ended. */
  datatype Phase = Waiting | Running | Committed | RolledBack | Resumed | Refused

  /**
   * A handle the program opened, or the handle of one of its transactions; a run
   * on the latter is a savepoint inside that transaction.
   */
  datatype Handle = Root(id: nat) | Inner(tx: nat)

  /** `prior` is the run this one was chained onto; `domain` says whether it is counted. */
  datatype Tx = Tx(handle: Handle, domain: bool, prior: Option<nat>, phase: Phase, callbacks: seq<string>)

  datatype Entry =
    | Began(tx: nat)
    | Ended(tx: nat, committed: bool)
    | TurnedAway(tx: nat)
    | Inlined(tx: nat)
    | Registered(tx: nat, callback: string)
    | Called(tx: nat, callback: string)
    | CalledAtOnce(callback: string)

  /** `chains` is txChains: the last run submitted on each handle. */
  datatype State = State(txs: seq<Tx>, chains: map<Handle, nat>, committedMutations: nat, log: seq<Entry>)

  const INITIAL := State([], map[], 0, [])

  /** `scope` is what transactionScopes.getStore() finds: the enclosing transaction. */
  datatype Step =
    | RunInTransaction(scope: Option<nat>, target: Handle)
    | RunOperational(target: Handle)
    | RunAfterCommit(scope: Option<nat>, callback: string)
    | Begin(tx: nat)
    | Settle(tx: nat, commits: bool)
    | Resume(tx: nat)

  predicate Settled(t: Tx) {
    !t.phase.Waiting? && !t.phase.Running?
  }

  /** The body of this run has been entered. */
  predicate Ran(t: Tx) {
    !t.phase.Waiting? && !t.phase.Refused?
  }

  predicate HasBegun(s: State, i: nat) {
    i < |s.txs| && Ran(s.txs[i])
  }

  /** Everything this handle is nested in is still running. */
  predicate Open(txs: seq<Tx>, target: Handle)
    decreases if target.Root? then 0 else target.tx + 1
  {
    target.Root? ||
    (&& target.tx < |txs| && txs[target.tx].phase.Running?
     && (txs[target.tx].handle.Inner? ==> txs[target.tx].handle.tx < target.tx)
     && Open(txs, txs[target.tx].handle))
  }

  /** Code can run inside a body, and hold its handle, only once that body has begun. */
  predicate Entered(s: State, scope: Option<nat>) {
    scope.Some? ==> HasBegun(s, scope.value)
  }

  predicate Exists(s: State, target: Handle) {
    target.Inner? ==> HasBegun(s, target.tx)
  }

  function Tail(chains: map<Handle, nat>, target: Handle): Option<nat> {
    if target in chains then Some(chains[target]) else None
  }

  function Submit(s: State, target: Handle, domain: bool): State {
    s.(txs := s.txs + [Tx(target, domain, Tail(s.chains, target), Waiting, [])],
       chains := s.chains[target := |s.txs|])
  }

  /** Its turn has come: the run it was chained onto has settled. */
  predicate HasTurn(s: State, i: nat) {
    && i < |s.txs| && s.txs[i].phase.Waiting?
    && (s.txs[i].prior.Some? ==> s.txs[i].prior.value < |s.txs| && Settled(s.txs[s.txs[i].prior.value]))
  }

  predicate InPhase(s: State, i: nat, phase: Phase) {
    i < |s.txs| && s.txs[i].phase == phase
  }

  /** The list of this run's callbacks has not been gone through yet. */
  predicate Unflushed(s: State, i: nat) {
    HasBegun(s, i) && !s.txs[i].phase.Resumed?
  }

  /** A registration lands on the run's list; on a list that was gone through already nobody looks at it again. */
  function Listed(t: Tx, callback: string): Tx {
    if t.phase.Resumed? then t else t.(callbacks := t.callbacks + [callback])
  }

  function Calls(i: nat, callbacks: seq<string>): seq<Entry> {
    if callbacks == [] then [] else Calls(i, callbacks[..|callbacks| - 1]) + [Called(i, callbacks[|callbacks| - 1])]
  }

  /** The call is aimed at the very transaction it is made in. */
  predicate Inlines(scope: Option<nat>, target: Handle) {
    scope.Some? && target == Inner(scope.value)
  }

  function Take(s: State, step: Step): State {
    match step
    case RunInTransaction(scope, target) =>
      if !Entered(s, scope) || !Exists(s, target) then s
      else if Inlines(scope, target) then
        if InPhase(s, scope.value, Running) then s.(log := s.log + [Inlined(scope.value)]) else s
      else Submit(s, target, true)
    case RunOperational(target) =>
      if !Exists(s, target) then s else Submit(s, target, false)
    case RunAfterCommit(scope, callback) =>
      if !Entered(s, scope) then s
      else if scope.None? then s.(log := s.log + [CalledAtOnce(callback)])
      else
        s.(txs := s.txs[scope.value := Listed(s.txs[scope.value], callback)],
           log := s.log + [Registered(scope.value, callback)])
    case Begin(i) =>
      if !HasTurn(s, i) then s
      else if Open(s.txs, s.txs[i].handle)
      then s.(txs := s.txs[i := s.txs[i].(phase := Running)], log := s.log + [Began(i)])
      else s.(txs := s.txs[i := s.txs[i].(phase := Refused)], log := s.log + [TurnedAway(i)])
    case Settle(i, commits) =>
      if !InPhase(s, i, Running) then s
      else
        var done := commits && Open(s.txs, s.txs[i].handle);
        s.(txs := s.txs[i := s.txs[i].(phase := if done then Committed else RolledBack)],
           log := s.log + [Ended(i, done)])
    case Resume(i) =>
      if InPhase(s, i, Committed)
      then State(s.txs[i := s.txs[i].(phase := Resumed)], s.chains,
                 s.committedMutations + (if s.txs[i].domain then 1 else 0),
                 s.log + Calls(i, s.txs[i].callbacks))
      else s
  }

  function TakeAll(s: State, steps: seq<Step>): State {
    if steps == [] then s else Take(TakeAll(s, steps[..|steps| - 1]), steps[|steps| - 1])
  }

  // ----- what a run never changes

  /** The same transaction, further along. */
  predicate Evolved(t: Tx, t': Tx) {
    && t'.handle == t.handle && t'.domain == t.domain && t'.prior == t.prior
    && t.callbacks <= t'.callbacks
    && match t.phase
       case Waiting => true
       case Refused => t'.phase.Refused?
       case Running => Ran(t')
       case Committed => t'.phase.Committed? || t'.phase.Resumed?
       case RolledBack => t'.phase.RolledBack?
       case Resumed => t'.phase.Resumed?
  }

  ghost predicate AllEvolved(txs: seq<Tx>, txs': seq<Tx>) {
    |txs| <= |txs'| && forall i :: 0 <= i < |txs| ==> Evolved(txs[i], txs'[i])
  }

  lemma {:induction false} RunEvolves(s: State, steps: seq<Step>)
    ensures AllEvolved(s.txs, TakeAll(s, steps).txs)
  {
    if steps != [] {
      var mid := TakeAll(s, steps[..|steps| - 1]);
      RunEvolves(s, steps[..|steps| - 1]);
      StepEvolves(mid, steps[|steps| - 1]);
    }
  }

  lemma StepEvolves(s: State, step: Step)
    ensures AllEvolved(s.txs, Take(s, step).txs)
  {
  }

  lemma {:induction false} TakeOneMore(s: State, steps: seq<Step>, step: Step)
    ensures TakeAll(s, steps + [step]) == Take(TakeAll(s, steps), step)
  {
    assert (steps + [step])[..|steps|] == steps;
  }

  lemma {:induction false} TakeSplit(s: State, a: seq<Step>, b: seq<Step>)
    ensures TakeAll(s, a + b) == TakeAll(TakeAll(s, a), b)
  {
    if b == [] {
      assert a + b == a;
    } else {
      TakeSplit(s, a, b[..|b| - 1]);
      assert (a + b)[..|a + b| - 1] == a + b[..|b| - 1];
    }
  }

  lemma TakeTwo(s: State, a: Step, b: Step)
    ensures TakeAll(s, [a, b]) == Take(Take(s, a), b)
  {
    assert [a, b] == [] + [a] + [b];
    TakeOneMore(s, [], a);
    TakeOneMore(s, [] + [a], b);
  }

  lemma TakeThree(s: State, a: Step, b: Step, c: Step)
    ensures TakeAll(s, [a, b, c]) == Take(Take(Take(s, a), b), c)
  {
    assert [a, b, c] == [a, b] + [c];
    TakeTwo(s, a, b);
    TakeOneMore(s, [a, b], c);
  }

  // ----- order

  /** k is the last run before n on this handle. */
  predicate IsLast(txs: seq<Tx>, target: Handle, n: nat, k: Option<nat>)
    requires n <= |txs|
  {
    if k.None? then forall j :: 0 <= j < n ==> txs[j].handle != target
    else
      && k.value < n && txs[k.value].handle == target
      && forall j :: k.value < j < n ==> txs[j].handle != target
  }

  ghost predicate TailsRight(txs: seq<Tx>, chains: map<Handle, nat>) {
    forall target :: IsLast(txs, target, |txs|, Tail(chains, target))
  }

  /** Each run is chained onto the one submitted just before it on its handle. */
  ghost predicate PriorsRight(txs: seq<Tx>) {
    forall i :: 0 <= i < |txs| ==> IsLast(txs, txs[i].handle, i, txs[i].prior)
  }

  /** A run on a transaction's handle came after that transaction had begun. */
  ghost predicate HandlesRight(txs: seq<Tx>) {
    forall i :: 0 <= i < |txs| && txs[i].handle.Inner? ==>
      txs[i].handle.tx < i && Ran(txs[txs[i].handle.tx])
  }

  /** A run that has begun finds every earlier run on its handle settled. */
  ghost predicate Serial(txs: seq<Tx>) {
    forall i, j :: 0 <= i < j < |txs| && txs[i].handle == txs[j].handle && !txs[j].phase.Waiting? ==> Settled(txs[i])
  }

  ghost predicate Queued(s: State) {
    TailsRight(s.txs, s.chains) && PriorsRight(s.txs) && HandlesRight(s.txs) && Serial(s.txs)
  }

  /** Only phases and callbacks differ. */
  predicate SameShape(txs: seq<Tx>, txs': seq<Tx>) {
    |txs'| == |txs| && forall i :: 0 <= i < |txs| ==> txs'[i].handle == txs[i].handle && txs'[i].prior == txs[i].prior
  }

  lemma ShapeKeepsLast(txs: seq<Tx>, txs': seq<Tx>, target: Handle, n: nat, k: Option<nat>)
    requires SameShape(txs, txs') && n <= |txs| && IsLast(txs, target, n, k)
    ensures IsLast(txs', target, n, k)
  {
  }

  lemma ShapeKeepsQueues(txs: seq<Tx>, txs': seq<Tx>, chains: map<Handle, nat>)
    requires SameShape(txs, txs') && TailsRight(txs, chains) && PriorsRight(txs) && HandlesRight(txs)
    requires forall i :: 0 <= i < |txs| && Ran(txs[i]) ==> Ran(txs'[i])
    ensures TailsRight(txs', chains) && PriorsRight(txs') && HandlesRight(txs')
  {
    forall target ensures IsLast(txs', target, |txs'|, Tail(chains, target)) {
      ShapeKeepsLast(txs, txs', target, |txs|, Tail(chains, target));
    }
    forall i | 0 <= i < |txs'| ensures IsLast(txs', txs'[i].handle, i, txs'[i].prior) {
      ShapeKeepsLast(txs, txs', txs[i].handle, i, txs[i].prior);
    }
  }

  /** One more run on a handle makes it the last there and leaves the others' last runs. */
  lemma SubmitMovesTail(s: State, target: Handle, domain: bool, h: Handle)
    requires TailsRight(s.txs, s.chains)
    ensures var s' := Submit(s, target, domain);
      IsLast(s'.txs, h, |s'.txs|, Tail(s'.chains, h))
  {
    assert IsLast(s.txs, h, |s.txs|, Tail(s.chains, h));
  }

  lemma SubmitChains(s: State, target: Handle, domain: bool, i: nat)
    requires TailsRight(s.txs, s.chains) && PriorsRight(s.txs) && i <= |s.txs|
    ensures var txs' := Submit(s, target, domain).txs;
      IsLast(txs', txs'[i].handle, i, txs'[i].prior)
  {
    if i < |s.txs| {
      assert IsLast(s.txs, s.txs[i].handle, i, s.txs[i].prior);
    } else {
      assert IsLast(s.txs, target, |s.txs|, Tail(s.chains, target));
    }
  }

  lemma SubmitKeepsQueues(s: State, target: Handle, domain: bool)
    requires Queued(s) && Exists(s, target)
    ensures Queued(Submit(s, target, domain))
  {
    forall h { SubmitMovesTail(s, target, domain, h); }
    forall i | 0 <= i <= |s.txs| { SubmitChains(s, target, domain, i); }
  }

  lemma BeginIsSerial(s: State, j: nat)
    requires Queued(s) && HasTurn(s, j)
    ensures forall i :: 0 <= i < j && s.txs[i].handle == s.txs[j].handle ==> Settled(s.txs[i])
  {
    assert IsLast(s.txs, s.txs[j].handle, j, s.txs[j].prior);
  }

  /** Settling more runs and beginning none keeps the order. */
  lemma SettlingKeepsSerial(txs: seq<Tx>, txs': seq<Tx>)
    requires SameShape(txs, txs') && Serial(txs)
    requires forall i :: 0 <= i < |txs| ==>
      (Settled(txs[i]) ==> Settled(txs'[i])) && (txs[i].phase.Waiting? ==> txs'[i].phase.Waiting?)
    ensures Serial(txs')
  {
  }

  lemma BeginKeepsQueues(s: State, j: nat)
    requires Queued(s) && HasTurn(s, j)
    ensures Queued(Take(s, Begin(j)))
  {
    ShapeKeepsQueues(s.txs, Take(s, Begin(j)).txs, s.chains);
    BeginIsSerial(s, j);
  }

  lemma StepKeepsQueues(s: State, step: Step)
    requires Queued(s)
    ensures Queued(Take(s, step))
  {
    if step.Begin? {
      if HasTurn(s, step.tx) { BeginKeepsQueues(s, step.tx); }
    } else if step.RunInTransaction? || step.RunOperational? {
      if |Take(s, step).txs| > |s.txs| { SubmitKeepsQueues(s, step.target, step.RunInTransaction?); }
    } else {
      ShapeKeepsQueues(s.txs, Take(s, step).txs, s.chains);
      SettlingKeepsSerial(s.txs, Take(s, step).txs);
    }
  }

  // ----- callbacks

  /** The callbacks of run i that have been called, in call order. */
  function CalledBy(log: seq<Entry>, i: nat): seq<string> {
    if log == [] then []
    else
      var e := log[|log| - 1];
      CalledBy(log[..|log| - 1], i) + (if e.Called? && e.tx == i then [e.callback] else [])
  }

  predicate About(e: Entry, i: nat) {
    !e.CalledAtOnce? && e.tx == i
  }

  /** The log says of run i exactly what its phase says. */
  ghost predicate Logged(log: seq<Entry>, i: nat, t: Tx) {
    && (Began(i) in log <==> Ran(t))
    && (TurnedAway(i) in log <==> t.phase.Refused?)
    && (Ended(i, true) in log <==> t.phase.Committed? || t.phase.Resumed?)
    && (Ended(i, false) in log <==> t.phase.RolledBack?)
    && CalledBy(log, i) == if t.phase.Resumed? then t.callbacks else []
  }

  ghost predicate LogAgrees(s: State) {
    && (forall e :: e in s.log ==> e.CalledAtOnce? || e.tx < |s.txs|)
    && (forall i :: 0 <= i < |s.txs| ==> Logged(s.log, i, s.txs[i]))
  }

  lemma {:induction false} CalledConcat(a: seq<Entry>, b: seq<Entry>, j: nat)
    ensures CalledBy(a + b, j) == CalledBy(a, j) + CalledBy(b, j)
  {
    if b == [] {
      assert a + b == a;
    } else {
      var n := |b| - 1;
      CalledConcat(a, b[..n], j);
      assert (a + b)[..|a + b| - 1] == a + b[..n];
      var tail := if b[n].Called? && b[n].tx == j then [b[n].callback] else [];
      assert CalledBy(a, j) + CalledBy(b[..n], j) + tail == CalledBy(a, j) + (CalledBy(b[..n], j) + tail);
    }
  }

  lemma {:induction false} CalledAfter(log: seq<Entry>, e: Entry, j: nat)
    ensures CalledBy(log + [e], j) == CalledBy(log, j) + (if e.Called? && e.tx == j then [e.callback] else [])
  {
    assert (log + [e])[..|log|] == log;
  }

  lemma {:induction false} CalledByCalls(i: nat, callbacks: seq<string>, j: nat)
    ensures CalledBy(Calls(i, callbacks), j) == if i == j then callbacks else []
  {
    if callbacks != [] {
      var n := |callbacks| - 1;
      CalledByCalls(i, callbacks[..n], j);
      CalledAfter(Calls(i, callbacks[..n]), Called(i, callbacks[n]), j);
      assert callbacks == callbacks[..n] + [callbacks[n]];
    }
  }

  lemma {:induction false} CallsAreCalls(i: nat, callbacks: seq<string>)
    ensures forall e :: e in Calls(i, callbacks) ==> e.Called? && e.tx == i
  {
    if callbacks != [] {
      CallsAreCalls(i, callbacks[..|callbacks| - 1]);
    }
  }

  lemma CalledAfterAll(log: seq<Entry>, i: nat, callbacks: seq<string>, j: nat)
    ensures CalledBy(log + Calls(i, callbacks), j) == CalledBy(log, j) + (if i == j then callbacks else [])
  {
    CalledConcat(log, Calls(i, callbacks), j);
    CalledByCalls(i, callbacks, j);
  }

  /** A run the log does not mention has called nothing. */
  lemma {:induction false} UnmentionedCallsNothing(log: seq<Entry>, j: nat)
    requires forall e :: e in log ==> e.CalledAtOnce? || e.tx < j
    ensures CalledBy(log, j) == []
  {
    if log != [] {
      assert log[|log| - 1] in log;
      UnmentionedCallsNothing(log[..|log| - 1], j);
    }
  }

  /** An entry about another run, or about none, leaves what the log says of run j as it is. */
  lemma OthersStayLogged(log: seq<Entry>, e: Entry, j: nat, t: Tx)
    requires Logged(log, j, t) && !About(e, j)
    ensures Logged(log + [e], j, t)
  {
    CalledAfter(log, e, j);
  }

  lemma OneEntryKeepsLog(s: State, s': State, i: nat, e: Entry)
    requires LogAgrees(s) && i < |s.txs| && About(e, i)
    requires |s'.txs| == |s.txs| && s'.txs == s.txs[i := s'.txs[i]] && s'.log == s.log + [e]
    requires Logged(s'.log, i, s'.txs[i])
    ensures LogAgrees(s')
  {
    forall j | 0 <= j < |s'.txs| ensures Logged(s'.log, j, s'.txs[j]) {
      if j != i {
        OthersStayLogged(s.log, e, j, s.txs[j]);
      }
    }
  }

  lemma ResumeKeepsLog(s: State, i: nat)
    requires LogAgrees(s)
    ensures LogAgrees(Take(s, Resume(i)))
  {
    var s' := Take(s, Resume(i));
    if InPhase(s, i, Committed) {
      var callbacks := s.txs[i].callbacks;
      CallsAreCalls(i, callbacks);
      forall j | 0 <= j < |s'.txs| ensures Logged(s'.log, j, s'.txs[j]) {
        assert Logged(s.log, j, s.txs[j]);
        CalledAfterAll(s.log, i, callbacks, j);
      }
    }
  }

  lemma SubmitKeepsLog(s: State, target: Handle, domain: bool)
    requires LogAgrees(s)
    ensures LogAgrees(Submit(s, target, domain))
  {
    UnmentionedCallsNothing(s.log, |s.txs|);
    var s' := Submit(s, target, domain);
    forall j | 0 <= j < |s'.txs| ensures Logged(s'.log, j, s'.txs[j]) {
      if j < |s.txs| {
        assert Logged(s.log, j, s.txs[j]);
      }
    }
  }

  /** The entry a beginning adds. */
  function TurnEntry(s: State, i: nat): Entry
    requires i < |s.txs|
  {
    if Open(s.txs, s.txs[i].handle) then Began(i) else TurnedAway(i)
  }

  lemma TurnIsLogged(log: seq<Entry>, i: nat, t: Tx, e: Entry, t': Tx)
    requires Logged(log, i, t) && t.phase.Waiting?
    requires (e == Began(i) && t' == t.(phase := Running)) || (e == TurnedAway(i) && t' == t.(phase := Refused))
    ensures Logged(log + [e], i, t')
  {
    CalledAfter(log, e, i);
  }

  lemma BeginKeepsLog(s: State, i: nat)
    requires LogAgrees(s) && HasTurn(s, i)
    ensures LogAgrees(Take(s, Begin(i)))
  {
    var s', e := Take(s, Begin(i)), TurnEntry(s, i);
    assert Logged(s.log, i, s.txs[i]);
    TurnIsLogged(s.log, i, s.txs[i], e, s'.txs[i]);
    OneEntryKeepsLog(s, s', i, e);
  }

  lemma SettleKeepsLog(s: State, i: nat, commits: bool)
    requires LogAgrees(s) && InPhase(s, i, Running)
    ensures LogAgrees(Take(s, Settle(i, commits)))
  {
    var e := Ended(i, commits && Open(s.txs, s.txs[i].handle));
    assert Logged(s.log, i, s.txs[i]);
    CalledAfter(s.log, e, i);
    var s' := Take(s, Settle(i, commits));
    assert s'.log == s.log + [e] && s'.txs[i].callbacks == s.txs[i].callbacks;
    OneEntryKeepsLog(s, s', i, e);
  }

  lemma RegisterKeepsLog(s: State, i: nat, callback: string)
    requires LogAgrees(s) && HasBegun(s, i)
    ensures LogAgrees(Take(s, RunAfterCommit(Some(i), callback)))
  {
    var s', e := Take(s, RunAfterCommit(Some(i), callback)), Registered(i, callback);
    assert Logged(s.log, i, s.txs[i]);
    CalledAfter(s.log, e, i);
    OneEntryKeepsLog(s, s', i, e);
  }

  /** An entry that changes no transaction and records no beginning, end or queued call. */
  lemma NoteKeepsLog(s: State, e: Entry)
    requires LogAgrees(s) && (e.CalledAtOnce? || (e.Inlined? && e.tx < |s.txs|))
    ensures LogAgrees(s.(log := s.log + [e]))
  {
    forall j | 0 <= j < |s.txs| ensures Logged(s.log + [e], j, s.txs[j]) {
      assert Logged(s.log, j, s.txs[j]);
      CalledAfter(s.log, e, j);
    }
  }

  lemma StepKeepsLog(s: State, step: Step)
    requires LogAgrees(s)
    ensures LogAgrees(Take(s, step))
  {
    match step
    case RunInTransaction(scope, target) =>
      if Entered(s, scope) && Exists(s, target) {
        if !Inlines(scope, target) {
          SubmitKeepsLog(s, target, true);
        } else if InPhase(s, scope.value, Running) {
          NoteKeepsLog(s, Inlined(scope.value));
        }
      }
    case RunOperational(target) => if Exists(s, target) { SubmitKeepsLog(s, target, false); }
    case RunAfterCommit(scope, callback) =>
      if scope.None? {
        NoteKeepsLog(s, CalledAtOnce(callback));
      } else if HasBegun(s, scope.value) {
        RegisterKeepsLog(s, scope.value, callback);
      }
    case Begin(i) => if HasTurn(s, i) { BeginKeepsLog(s, i); }
    case Settle(i, commits) => if InPhase(s, i, Running) { SettleKeepsLog(s, i, commits); }
    case Resume(i) => ResumeKeepsLog(s, i);
  }

  // ----- the order of the log

  ghost predicate EarlierEnded(txs: seq<Tx>, j: nat, log: seq<Entry>) {
    && j < |txs|
    && forall i :: 0 <= i < j && txs[i].handle == txs[j].handle ==> IsOver(log, i)
  }

  predicate IsOver(log: seq<Entry>, i: nat) {
    Ended(i, true) in log || Ended(i, false) in log || TurnedAway(i) in log
  }

  /** What may stand after this log. */
  ghost predicate Legal(txs: seq<Tx>, log: seq<Entry>, e: Entry) {
    match e
    case Began(i) => EarlierEnded(txs, i, log)
    case TurnedAway(i) => EarlierEnded(txs, i, log)
    case Ended(i, _) => Began(i) in log
    case Inlined(i) => Began(i) in log
    case Registered(i, _) => Began(i) in log
    case Called(i, _) => Ended(i, true) in log
    case CalledAtOnce(_) => true
  }

  /**
   * A run begins only after every earlier one on its handle has ended, work is
   * inlined only into a run that has begun, and callbacks come only after their
   * commit.
   */
  ghost predicate InOrder(txs: seq<Tx>, log: seq<Entry>) {
    forall q :: 0 <= q < |log| ==> Legal(txs, log[..q], log[q])
  }

  lemma LegalKeepsOrder(txs: seq<Tx>, log: seq<Entry>, e: Entry)
    requires InOrder(txs, log) && Legal(txs, log, e)
    ensures InOrder(txs, log + [e])
  {
    var log' := log + [e];
    forall q | 0 <= q < |log'| ensures Legal(txs, log'[..q], log'[q]) {
      assert log'[..q] == if q < |log| then log[..q] else log;
    }
  }

  predicate HandlesKept(txs: seq<Tx>, txs': seq<Tx>) {
    |txs| <= |txs'| && forall i :: 0 <= i < |txs| ==> txs'[i].handle == txs[i].handle
  }

  lemma HandlesKeepOrder(txs: seq<Tx>, txs': seq<Tx>, log: seq<Entry>)
    requires HandlesKept(txs, txs') && InOrder(txs, log)
    ensures InOrder(txs', log)
  {
    forall q | 0 <= q < |log| ensures Legal(txs', log[..q], log[q]) {
      assert Legal(txs, log[..q], log[q]);
    }
  }

  lemma {:induction false} CallsKeepOrder(txs: seq<Tx>, log: seq<Entry>, i: nat, callbacks: seq<string>)
    requires InOrder(txs, log) && Ended(i, true) in log
    ensures InOrder(txs, log + Calls(i, callbacks))
  {
    if callbacks == [] {
      assert log + Calls(i, callbacks) == log;
    } else {
      var front := Calls(i, callbacks[..|callbacks| - 1]);
      CallsKeepOrder(txs, log, i, callbacks[..|callbacks| - 1]);
      LegalKeepsOrder(txs, log + front, Called(i, callbacks[|callbacks| - 1]));
      assert log + front + [Called(i, callbacks[|callbacks| - 1])] == log + Calls(i, callbacks);
    }
  }

  lemma BeginIsLegal(s: State, j: nat)
    requires Queued(s) && LogAgrees(s) && HasTurn(s, j)
    ensures Legal(s.txs, s.log, TurnEntry(s, j))
  {
    BeginIsSerial(s, j);
    forall i | 0 <= i < j && s.txs[i].handle == s.txs[j].handle
      ensures IsOver(s.log, i)
    {
      assert Logged(s.log, i, s.txs[i]);
    }
  }

  /** One more legal entry, with transactions whose handles are unchanged. */
  lemma EntryKeepsInOrder(s: State, txs': seq<Tx>, e: Entry)
    requires InOrder(s.txs, s.log) && Legal(s.txs, s.log, e) && HandlesKept(s.txs, txs')
    ensures InOrder(txs', s.log + [e])
  {
    LegalKeepsOrder(s.txs, s.log, e);
    HandlesKeepOrder(s.txs, txs', s.log + [e]);
  }

  lemma ResumeKeepsInOrder(s: State, i: nat)
    requires LogAgrees(s) && InOrder(s.txs, s.log) && InPhase(s, i, Committed)
    ensures InOrder(Take(s, Resume(i)).txs, Take(s, Resume(i)).log)
  {
    assert Logged(s.log, i, s.txs[i]);
    CallsKeepOrder(s.txs, s.log, i, s.txs[i].callbacks);
    HandlesKeepOrder(s.txs, Take(s, Resume(i)).txs, Take(s, Resume(i)).log);
  }

  lemma HasBegunIsLogged(s: State, i: nat)
    requires LogAgrees(s) && HasBegun(s, i)
    ensures Began(i) in s.log
  {
    assert Logged(s.log, i, s.txs[i]);
  }

  lemma BeginKeepsInOrder(s: State, i: nat)
    requires InOrder(s.txs, s.log) && HasTurn(s, i) && Legal(s.txs, s.log, TurnEntry(s, i))
    ensures InOrder(Take(s, Begin(i)).txs, Take(s, Begin(i)).log)
  {
    EntryKeepsInOrder(s, Take(s, Begin(i)).txs, TurnEntry(s, i));
  }

  lemma SettleKeepsInOrder(s: State, i: nat, commits: bool)
    requires LogAgrees(s) && InOrder(s.txs, s.log) && InPhase(s, i, Running)
    ensures InOrder(Take(s, Settle(i, commits)).txs, Take(s, Settle(i, commits)).log)
  {
    HasBegunIsLogged(s, i);
    EntryKeepsInOrder(s, Take(s, Settle(i, commits)).txs, Ended(i, commits && Open(s.txs, s.txs[i].handle)));
  }

  lemma InlineKeepsInOrder(s: State, i: nat)
    requires LogAgrees(s) && InOrder(s.txs, s.log) && HasBegun(s, i)
    ensures InOrder(s.txs, s.log + [Inlined(i)])
  {
    HasBegunIsLogged(s, i);
    LegalKeepsOrder(s.txs, s.log, Inlined(i));
  }

  lemma RegisterKeepsInOrder(s: State, i: nat, callback: string)
    requires LogAgrees(s) && InOrder(s.txs, s.log) && HasBegun(s, i)
    ensures var s' := Take(s, RunAfterCommit(Some(i), callback)); InOrder(s'.txs, s'.log)
  {
    HasBegunIsLogged(s, i);
    EntryKeepsInOrder(s, Take(s, RunAfterCommit(Some(i), callback)).txs, Registered(i, callback));
  }

  lemma QuietKeepsInOrder(s: State, s': State)
    requires InOrder(s.txs, s.log) && s'.log == s.log && HandlesKept(s.txs, s'.txs)
    ensures InOrder(s'.txs, s'.log)
  {
    HandlesKeepOrder(s.txs, s'.txs, s.log);
  }

  lemma StepKeepsInOrder(s: State, step: Step)
    requires LogAgrees(s) && InOrder(s.txs, s.log)
    requires step.Begin? && HasTurn(s, step.tx) ==> Legal(s.txs, s.log, TurnEntry(s, step.tx))
    ensures InOrder(Take(s, step).txs, Take(s, step).log)
  {
    match step
    case RunInTransaction(scope, target) =>
      if Take(s, step).log == s.log {
        QuietKeepsInOrder(s, Take(s, step));
      } else {
        InlineKeepsInOrder(s, scope.value);
      }
    case RunOperational(target) => QuietKeepsInOrder(s, Take(s, step));
    case RunAfterCommit(scope, callback) =>
      if scope.None? {
        LegalKeepsOrder(s.txs, s.log, CalledAtOnce(callback));
      } else if Entered(s, scope) {
        RegisterKeepsInOrder(s, scope.value, callback);
      }
    case Begin(i) => if HasTurn(s, i) { BeginKeepsInOrder(s, i); }
    case Settle(i, commits) => if InPhase(s, i, Running) { SettleKeepsInOrder(s, i, commits); }
    case Resume(i) => if InPhase(s, i, Committed) { ResumeKeepsInOrder(s, i); }
  }

  // ----- the counter

  function Count(txs: seq<Tx>, p: Tx -> bool): nat {
    if txs == [] then 0 else Count(txs[..|txs| - 1], p) + (if p(txs[|txs| - 1]) then 1 else 0)
  }

  lemma {:induction false} CountUpdate(txs: seq<Tx>, i: nat, t: Tx, p: Tx -> bool)
    requires i < |txs|
    ensures Count(txs[i := t], p) + (if p(txs[i]) then 1 else 0) == Count(txs, p) + (if p(t) then 1 else 0)
  {
    var n := |txs| - 1;
    if i == n {
      assert txs[i := t][..n] == txs[..n];
    } else {
      CountUpdate(txs[..n], i, t, p);
      assert txs[i := t][..n] == txs[..n][i := t];
    }
  }

  predicate ResumedDomain(t: Tx) {
    t.domain && t.phase.Resumed?
  }

  predicate CommittedDomain(t: Tx) {
    t.domain && (t.phase.Committed? || t.phase.Resumed?)
  }

  ghost predicate Counted(s: State) {
    s.committedMutations == Count(s.txs, ResumedDomain)
  }

  lemma StepKeepsCount(s: State, step: Step)
    requires Counted(s)
    ensures Counted(Take(s, step))
  {
    var s' := Take(s, step);
    if |s'.txs| > |s.txs| {
      assert s'.txs[..|s.txs|] == s.txs;
    } else if s'.txs != s.txs {
      var i := if step.RunAfterCommit? then step.scope.value else step.tx;
      assert s'.txs == s.txs[i := s'.txs[i]];
      CountUpdate(s.txs, i, s'.txs[i], ResumedDomain);
    }
  }

  // ----- all of it, over whole runs

  ghost predicate Safe(s: State) {
    Queued(s) && LogAgrees(s) && InOrder(s.txs, s.log) && Counted(s)
  }

  lemma StepIsSafe(s: State, step: Step)
    requires Safe(s)
    ensures Safe(Take(s, step))
  {
    StepKeepsQueues(s, step);
    StepKeepsLog(s, step);
    if step.Begin? && HasTurn(s, step.tx) { BeginIsLegal(s, step.tx); }
    StepKeepsInOrder(s, step);
    StepKeepsCount(s, step);
  }

  /**
   * In every run, transactions of a handle run in submission order without
   * overlap, callbacks run once, only after their commit, and never after a
   * rollback, and the counter counts resumed domain transactions.
   */
  lemma {:induction false} RunsAreSafe(s: State, steps: seq<Step>)
    requires Safe(s)
    ensures Safe(TakeAll(s, steps))
  {
    if steps != [] {
      RunsAreSafe(s, steps[..|steps| - 1]);
      StepIsSafe(TakeAll(s, steps[..|steps| - 1]), steps[|steps| - 1]);
    }
  }

  /** No committed transaction is still waiting for its caller. */
  predicate Quiescent(s: State) {
    forall i :: 0 <= i < |s.txs| ==> !s.txs[i].phase.Committed?
  }

  function DomainCommits(s: State): nat {
    Count(s.txs, CommittedDomain)
  }

  lemma {:induction false} SameCount(txs: seq<Tx>)
    requires forall i :: 0 <= i < |txs| ==> !txs[i].phase.Committed?
    ensures Count(txs, CommittedDomain) == Count(txs, ResumedDomain)
  {
    if txs != [] {
      SameCount(txs[..|txs| - 1]);
    }
  }

  /** Once the callers have resumed, the counter is exactly the number of domain commits. */
  lemma CounterIsExact(s: State)
    requires Safe(s) && Quiescent(s)
    ensures s.committedMutations == DomainCommits(s)
  {
    SameCount(s.txs);
  }

  // ----- savepoints: what is counted and called, and what lasts

  predicate OnRoot(t: Tx) {
    t.handle.Root?
  }

  predicate CommittedRoot(t: Tx) {
    CommittedDomain(t) && t.handle.Root?
  }

  predicate CommittedSavepoint(t: Tx) {
    CommittedDomain(t) && t.handle.Inner?
  }

  lemma {:induction false} CountSplits(txs: seq<Tx>)
    ensures Count(txs, CommittedDomain) == Count(txs, CommittedRoot) + Count(txs, CommittedSavepoint)
  {
    if txs != [] {
      CountSplits(txs[..|txs| - 1]);
    }
  }

  lemma {:induction false} NoneCounted(txs: seq<Tx>, p: Tx -> bool)
    ensures Count(txs, p) == 0 <==> forall i :: 0 <= i < |txs| ==> !p(txs[i])
  {
    if txs != [] {
      var n := |txs| - 1;
      NoneCounted(txs[..n], p);
      assert forall i :: 0 <= i < n ==> txs[i] == txs[..n][i];
    }
  }

  /** The committed outermost domain transactions: those on a handle the program opened. */
  function OutermostCommits(s: State): nat {
    Count(s.txs, CommittedRoot)
  }

  /**
   * Once the callers have resumed, the counter is the number of committed
   * outermost domain transactions if and only if no domain savepoint committed.
   */
  lemma CounterIsOutermostExactly(s: State)
    requires Safe(s) && Quiescent(s)
    ensures s.committedMutations == OutermostCommits(s) <==>
      forall i :: 0 <= i < |s.txs| ==> !CommittedSavepoint(s.txs[i])
  {
    CounterIsExact(s);
    CountsAgreeExactly(s.txs);
  }

  lemma CountsAgreeExactly(txs: seq<Tx>)
    ensures Count(txs, CommittedDomain) == Count(txs, CommittedRoot) <==>
      forall i :: 0 <= i < |txs| ==> !CommittedSavepoint(txs[i])
  {
    CountSplits(txs);
    NoneCounted(txs, CommittedSavepoint);
  }

  /** The run itself or, for a savepoint, the outermost transaction it is nested in. */
  function Outermost(txs: seq<Tx>, i: nat): (k: nat)
    requires HandlesRight(txs) && i < |txs|
    ensures k < |txs| && txs[k].handle.Root?
    decreases i
  {
    if txs[i].handle.Root? then i else Outermost(txs, txs[i].handle.tx)
  }

  /** The run and everything it is nested in has committed. */
  predicate Durable(txs: seq<Tx>, i: nat)
    decreases i
  {
    && i < |txs| && (txs[i].phase.Committed? || txs[i].phase.Resumed?)
    && (txs[i].handle.Inner? ==> txs[i].handle.tx < i && Durable(txs, txs[i].handle.tx))
  }

  /** The log records the commit of the run and of everything it is nested in. */
  ghost predicate DurableIn(txs: seq<Tx>, log: seq<Entry>, i: nat)
    decreases i
  {
    && i < |txs| && Ended(i, true) in log
    && (txs[i].handle.Inner? ==> txs[i].handle.tx < i && DurableIn(txs, log, txs[i].handle.tx))
  }

  /** Every callback was called after the commit of the outermost transaction and all between. */
  ghost predicate CallsLast(txs: seq<Tx>, log: seq<Entry>) {
    forall q :: 0 <= q < |log| && log[q].Called? ==> DurableIn(txs, log[..q], log[q].tx)
  }

  lemma {:induction false} DurableIsLogged(s: State, i: nat)
    requires LogAgrees(s) && HandlesRight(s.txs) && i < |s.txs|
    ensures Durable(s.txs, i) <==> DurableIn(s.txs, s.log, i)
    decreases i
  {
    assert Logged(s.log, i, s.txs[i]);
    if s.txs[i].handle.Inner? {
      DurableIsLogged(s, s.txs[i].handle.tx);
    }
  }

  /** Durability in the log depends on handles and on recorded commits only. */
  lemma {:induction false} DurableFrame(txs: seq<Tx>, txs': seq<Tx>, log: seq<Entry>, log': seq<Entry>, i: nat)
    requires HandlesKept(txs, txs') && i < |txs|
    requires forall k :: Ended(k, true) in log <==> Ended(k, true) in log'
    ensures DurableIn(txs, log, i) <==> DurableIn(txs', log', i)
    decreases i
  {
    if txs[i].handle.Inner? && txs[i].handle.tx < i {
      DurableFrame(txs, txs', log, log', txs[i].handle.tx);
    }
  }

  lemma HandlesKeepCallsLast(txs: seq<Tx>, txs': seq<Tx>, log: seq<Entry>)
    requires HandlesKept(txs, txs') && forall e :: e in log ==> e.CalledAtOnce? || e.tx < |txs|
    ensures CallsLast(txs, log) <==> CallsLast(txs', log)
  {
    forall q | 0 <= q < |log| && log[q].Called?
      ensures DurableIn(txs, log[..q], log[q].tx) <==> DurableIn(txs', log[..q], log[q].tx)
    {
      assert log[q] in log;
      DurableFrame(txs, txs', log[..q], log[..q], log[q].tx);
    }
  }

  /** One more entry matters only when it is a callback. */
  lemma OneMoreEntry(txs: seq<Tx>, log: seq<Entry>, e: Entry)
    ensures CallsLast(txs, log + [e]) <==> CallsLast(txs, log) && (e.Called? ==> DurableIn(txs, log, e.tx))
  {
    var longer := log + [e];
    assert longer[..|log|] == log && longer[|log|] == e;
    assert forall q :: 0 <= q < |log| ==> longer[..q] == log[..q] && longer[q] == log[q];
  }

  lemma {:induction false} CallsMatter(txs: seq<Tx>, log: seq<Entry>, i: nat, callbacks: seq<string>)
    requires i < |txs|
    ensures CallsLast(txs, log + Calls(i, callbacks)) <==>
      CallsLast(txs, log) && (callbacks != [] ==> DurableIn(txs, log, i))
  {
    if callbacks == [] {
      assert log + Calls(i, callbacks) == log;
    } else {
      var n := |callbacks| - 1;
      var front := log + Calls(i, callbacks[..n]);
      CallsMatter(txs, log, i, callbacks[..n]);
      CallsAreCalls(i, callbacks[..n]);
      DurableFrame(txs, txs, log, front, i);
      OneMoreEntry(txs, front, Called(i, callbacks[n]));
      assert front + [Called(i, callbacks[n])] == log + Calls(i, callbacks);
    }
  }

  /** This step calls callbacks although something their run is nested in has not committed. */
  predicate CallsEarly(s: State, step: Step) {
    step.Resume? && InPhase(s, step.tx, Committed) && s.txs[step.tx].callbacks != [] && !Durable(s.txs, step.tx)
  }

  /**
   * A step keeps callbacks behind the outermost commit if and only if it does
   * not resume the caller of a savepoint whose outer transactions have not all
   * committed.
   */
  lemma CallsStayLastExactly(s: State, step: Step)
    requires Safe(s) && CallsLast(s.txs, s.log)
    ensures CallsLast(Take(s, step).txs, Take(s, step).log) <==> !CallsEarly(s, step)
  {
    if step.Resume? {
      if InPhase(s, step.tx, Committed) { ResumeCallsLastExactly(s, step.tx); }
    } else {
      OtherStepsCallNothing(s, step);
    }
  }

  lemma ResumeCallsLastExactly(s: State, i: nat)
    requires LogAgrees(s) && HandlesRight(s.txs) && CallsLast(s.txs, s.log) && InPhase(s, i, Committed)
    ensures CallsLast(Take(s, Resume(i)).txs, Take(s, Resume(i)).log) <==> !CallsEarly(s, Resume(i))
  {
    var txs', callbacks := Take(s, Resume(i)).txs, s.txs[i].callbacks;
    CallsAreCalls(i, callbacks);
    HandlesKeepCallsLast(s.txs, txs', s.log + Calls(i, callbacks));
    CallsMatter(s.txs, s.log, i, callbacks);
    DurableIsLogged(s, i);
  }

  /** A step other than a resumption adds at most one entry, and no queued callback. */
  lemma OtherStepsLogOne(s: State, step: Step)
    requires !step.Resume?
    ensures var s' := Take(s, step);
      || s'.log == s.log
      || (|s'.log| == |s.log| + 1 && s'.log == s.log + [s'.log[|s.log|]] && !s'.log[|s.log|].Called?)
    ensures HandlesKept(s.txs, Take(s, step).txs)
  {
  }

  lemma OtherStepsCallNothing(s: State, step: Step)
    requires LogAgrees(s) && CallsLast(s.txs, s.log) && !step.Resume?
    ensures CallsLast(Take(s, step).txs, Take(s, step).log)
  {
    OtherStepsLogOne(s, step);
    NoteKeepsCallsLast(s, Take(s, step));
  }

  lemma NoteKeepsCallsLast(s: State, s': State)
    requires LogAgrees(s) && CallsLast(s.txs, s.log) && HandlesKept(s.txs, s'.txs)
    requires || s'.log == s.log
      || (|s'.log| == |s.log| + 1 && s'.log == s.log + [s'.log[|s.log|]] && !s'.log[|s.log|].Called?)
    ensures CallsLast(s'.txs, s'.log)
  {
    HandlesKeepCallsLast(s.txs, s'.txs, s.log);
    if s'.log != s.log {
      OneMoreEntry(s'.txs, s.log, s'.log[|s.log|]);
    }
  }

  /** Every call is aimed at a handle the program opened or at the very transaction it is made in. */
  predicate Disciplined(steps: seq<Step>) {
    forall i :: 0 <= i < |steps| ==>
      && (steps[i].RunInTransaction? ==> steps[i].target.Root? || Inlines(steps[i].scope, steps[i].target))
      && (steps[i].RunOperational? ==> steps[i].target.Root?)
  }

  lemma {:induction false} DisciplinedRunsStayOnRoots(steps: seq<Step>)
    requires Disciplined(steps)
    ensures forall i :: 0 <= i < |TakeAll(INITIAL, steps).txs| ==> OnRoot(TakeAll(INITIAL, steps).txs[i])
  {
    if steps != [] {
      DisciplinedRunsStayOnRoots(steps[..|steps| - 1]);
    }
  }

  /** Every callback called so far belongs to an outermost transaction that has committed. */
  ghost predicate OutermostCommittedFirst(txs: seq<Tx>, log: seq<Entry>) {
    HandlesRight(txs) &&
    forall e :: e in log && e.Called? ==> e.tx < |txs| && Ended(Outermost(txs, e.tx), true) in log
  }

  /**
   * In disciplined runs the counter is exact for outermost transactions once
   * callers have resumed, and every callback comes after the commit of the
   * outermost transaction it belongs to.
   */
  lemma DisciplinedRunsCountOutermost(steps: seq<Step>)
    requires Disciplined(steps)
    ensures var s := TakeAll(INITIAL, steps);
      && CallsLast(s.txs, s.log) && OutermostCommittedFirst(s.txs, s.log)
      && (Quiescent(s) ==> s.committedMutations == OutermostCommits(s))
  {
    var s := TakeAll(INITIAL, steps);
    DisciplinedRunsCallLast(steps);
    RunsAreSafe(INITIAL, steps);
    CalledWasDurable(s.txs, s.log);
    if Quiescent(s) {
      DisciplinedRunsStayOnRoots(steps);
      RootsCountExactly(s);
    }
  }

  lemma RootsCountExactly(s: State)
    requires Safe(s) && Quiescent(s) && forall i :: 0 <= i < |s.txs| ==> OnRoot(s.txs[i])
    ensures s.committedMutations == OutermostCommits(s)
  {
    CounterIsOutermostExactly(s);
  }

  lemma CalledWasDurable(txs: seq<Tx>, log: seq<Entry>)
    requires CallsLast(txs, log) && HandlesRight(txs)
    ensures OutermostCommittedFirst(txs, log)
  {
    forall e | e in log && e.Called? ensures e.tx < |txs| && Ended(Outermost(txs, e.tx), true) in log {
      var q :| 0 <= q < |log| && log[q] == e;
      assert DurableIn(txs, log[..q], e.tx);
      OutermostIsDurable(txs, log[..q], e.tx);
    }
  }

  lemma {:induction false} OutermostIsDurable(txs: seq<Tx>, log: seq<Entry>, i: nat)
    requires HandlesRight(txs) && DurableIn(txs, log, i)
    ensures Ended(Outermost(txs, i), true) in log
    decreases i
  {
    if txs[i].handle.Inner? {
      OutermostIsDurable(txs, log, txs[i].handle.tx);
    }
  }

  lemma {:induction false} DisciplinedRunsCallLast(steps: seq<Step>)
    requires Disciplined(steps)
    ensures CallsLast(TakeAll(INITIAL, steps).txs, TakeAll(INITIAL, steps).log)
  {
    if steps != [] {
      var front, step := steps[..|steps| - 1], steps[|steps| - 1];
      DisciplinedRunsCallLast(front);
      DisciplinedRunsStayOnRoots(front);
      RunsAreSafe(INITIAL, front);
      CallsStayLastExactly(TakeAll(INITIAL, front), step);
      assert step.Resume? && step.tx < |TakeAll(INITIAL, front).txs| ==> OnRoot(TakeAll(INITIAL, front).txs[step.tx]);
    }
  }

  const CHAINS := map[Root(0) := 0, Inner(0) := 1]

  /** A transaction is running. */
  const OPENED := State([Tx(Root(0), true, None, Running, [])], map[Root(0) := 0], 0, [Began(0)])

  /** A savepoint of it was opened through its handle, from outside its body. */
  const NESTED := State(
    [Tx(Root(0), true, None, Running, []), Tx(Inner(0), true, None, Running, [])], CHAINS, 0, [Began(0), Began(1)])

  /** The savepoint registered a callback and was released. */
  const RELEASED := State(
    [Tx(Root(0), true, None, Running, []), Tx(Inner(0), true, None, Committed, ["x"])],
    CHAINS, 0, [Began(0), Began(1), Registered(1, "x"), Ended(1, true)])

  lemma OpenedRun()
    ensures Take(Take(INITIAL, RunInTransaction(None, Root(0))), Begin(0)) == OPENED
  {
  }

  lemma NestedRun()
    ensures Take(Take(OPENED, RunInTransaction(None, Inner(0))), Begin(1)) == NESTED
  {
    assert Take(OPENED, RunInTransaction(None, Inner(0))) == Submit(OPENED, Inner(0), true);
  }

  lemma ReleasedRun()
    ensures Take(Take(NESTED, RunAfterCommit(Some(1), "x")), Settle(1, true)) == RELEASED
  {
    var pushed := Take(NESTED, RunAfterCommit(Some(1), "x"));
    assert NESTED.txs[1].callbacks + ["x"] == ["x"];
    assert pushed.txs == [NESTED.txs[0], NESTED.txs[1].(callbacks := ["x"])];
    assert Open(pushed.txs, Inner(0));
  }

  const UNDISCIPLINED: seq<Step> :=
    [RunInTransaction(None, Root(0)), Begin(0)] + [RunInTransaction(None, Inner(0)), Begin(1)]
    + [RunAfterCommit(Some(1), "x"), Settle(1, true)] + [Resume(1), Settle(0, false)]

  /** A savepoint is counted and its callback called, although the only outermost transaction rolls back. */
  lemma UndoneSavepointIsCounted()
    ensures var s := TakeAll(INITIAL, UNDISCIPLINED);
      && Quiescent(s) && s.committedMutations == 1 && OutermostCommits(s) == 0
      && Called(1, "x") in s.log && Ended(0, false) in s.log
      && |s.txs| == 2 && s.txs[0].phase.RolledBack? && s.txs[0].handle.Root?
  {
    var a, b := [RunInTransaction(None, Root(0)), Begin(0)], [RunInTransaction(None, Inner(0)), Begin(1)];
    var c, d := [RunAfterCommit(Some(1), "x"), Settle(1, true)], [Resume(1), Settle(0, false)];
    OpenedRun();
    NestedRun();
    ReleasedRun();
    TakeTwo(INITIAL, a[0], a[1]);
    TakeTwo(OPENED, b[0], b[1]);
    TakeTwo(NESTED, c[0], c[1]);
    TakeTwo(RELEASED, d[0], d[1]);
    FourPairs(INITIAL, OPENED, NESTED, RELEASED, a, b, c, d);
    UndoneEnd(RELEASED);
  }

  lemma FourPairs(
    s0: State, s1: State, s2: State, s3: State, a: seq<Step>, b: seq<Step>, c: seq<Step>, d: seq<Step>)
    requires TakeAll(s0, a) == s1 && TakeAll(s1, b) == s2 && TakeAll(s2, c) == s3
    ensures TakeAll(s0, a + b + c + d) == TakeAll(s3, d)
  {
    TakeSplit(s0, a, b);
    TakeSplit(s0, a + b, c);
    TakeSplit(s0, a + b + c, d);
  }

  lemma UndoneEnd(s: State)
    requires |s.txs| == 2 && s.committedMutations == 0
    requires s.txs[0] == Tx(Root(0), true, None, Running, [])
    requires s.txs[1] == Tx(Inner(0), true, None, Committed, ["x"])
    ensures var s' := Take(Take(s, Resume(1)), Settle(0, false));
      && Quiescent(s') && s'.committedMutations == 1 && OutermostCommits(s') == 0
      && Called(1, "x") in s'.log && Ended(0, false) in s'.log
      && |s'.txs| == 2 && s'.txs[0].phase.RolledBack? && s'.txs[0].handle.Root?
  {
    var resumed := Take(s, Resume(1));
    assert Calls(1, ["x"]) == [Called(1, "x")] by { assert ["x"][..0] == []; }
    assert resumed.log == s.log + [Called(1, "x")];
    var s' := Take(resumed, Settle(0, false));
    NoneCounted(s'.txs, CommittedRoot);
  }

  // ----- nested scopes

  /**
   * A call runs inline exactly when it is aimed at the transaction it is made
   * in; nothing is then queued or counted.
   */
  lemma InlinesExactly(s: State, scope: Option<nat>, target: Handle)
    requires Safe(s) && Entered(s, scope) && Exists(s, target)
    ensures var s' := Take(s, RunInTransaction(scope, target));
      && s'.committedMutations == s.committedMutations
      && (Inlines(scope, target) <==> s'.txs == s.txs && s'.chains == s.chains)
      && (Inlines(scope, target) ==> s'.log == s.log || s'.log == s.log + [Inlined(scope.value)])
      && (!Inlines(scope, target) ==>
            && |s'.txs| == |s.txs| + 1 && s'.txs[..|s.txs|] == s.txs
            && IsLast(s.txs, target, |s.txs|, s'.txs[|s.txs|].prior))
  {
    assert IsLast(s.txs, target, |s.txs|, Tail(s.chains, target));
  }

  lemma {:induction false} RunningUntilSettled(s: State, steps: seq<Step>, i: nat)
    requires InPhase(s, i, Running) && forall k :: 0 <= k < |steps| ==> !(steps[k].Settle? && steps[k].tx == i)
    ensures InPhase(TakeAll(s, steps), i, Running)
  {
    if steps != [] {
      RunningUntilSettled(s, steps[..|steps| - 1], i);
    }
  }

  /**
   * A call made inside a running transaction but aimed at the handle that
   * transaction was opened on is queued behind it: whatever happens next, it
   * begins only after the transaction has settled, so a body that waits for it
   * before settling waits for ever.
   */
  lemma RootCallWaitsForItsCaller(s: State, i: nat, steps: seq<Step>)
    requires Safe(s) && InPhase(s, i, Running)
    ensures var queued := Take(s, RunInTransaction(Some(i), s.txs[i].handle));
      var s' := TakeAll(queued, steps);
      var j := |s.txs|;
      && |queued.txs| == j + 1 && j < |s'.txs|
      && (!s'.txs[j].phase.Waiting? ==> Settled(s'.txs[i]))
      && ((forall k :: 0 <= k < |steps| ==> !(steps[k].Settle? && steps[k].tx == i)) ==> InPhase(s', j, Waiting))
  {
    var queued := Take(s, RunInTransaction(Some(i), s.txs[i].handle));
    RootCallIsQueued(s, i);
    BehindLater(queued, i, |s.txs|, steps);
    if forall k :: 0 <= k < |steps| ==> !(steps[k].Settle? && steps[k].tx == i) {
      RunningUntilSettled(queued, steps, i);
    }
  }

  lemma RootCallIsQueued(s: State, i: nat)
    requires Safe(s) && InPhase(s, i, Running)
    ensures var queued := Take(s, RunInTransaction(Some(i), s.txs[i].handle));
      && Safe(queued) && |queued.txs| == |s.txs| + 1
      && queued.txs[i] == s.txs[i] && queued.txs[|s.txs|].handle == s.txs[i].handle
  {
    var call := RunInTransaction(Some(i), s.txs[i].handle);
    StepIsSafe(s, call);
    HandleOfRunExists(s, i);
    assert Take(s, call) == Submit(s, s.txs[i].handle, true);
  }

  lemma HandleOfRunExists(s: State, i: nat)
    requires HandlesRight(s.txs) && i < |s.txs|
    ensures s.txs[i].handle != Inner(i) && Exists(s, s.txs[i].handle)
  {
  }

  lemma BehindLater(s: State, i: nat, j: nat, steps: seq<Step>)
    requires Safe(s) && i < j < |s.txs| && s.txs[i].handle == s.txs[j].handle
    ensures i < |TakeAll(s, steps).txs| && j < |TakeAll(s, steps).txs|
    ensures !TakeAll(s, steps).txs[j].phase.Waiting? ==> Settled(TakeAll(s, steps).txs[i])
  {
    var s' := TakeAll(s, steps);
    RunsAreSafe(s, steps);
    RunEvolves(s, steps);
    assert Evolved(s.txs[i], s'.txs[i]) && Evolved(s.txs[j], s'.txs[j]);
    assert Serial(s'.txs);
  }

  /** What the log says of a transaction, in every continuation. */
  lemma LoggedLater(s: State, i: nat, steps: seq<Step>)
    requires Safe(s) && i < |s.txs|
    ensures var s' := TakeAll(s, steps);
      && i < |s'.txs| && s.txs[i].callbacks <= s'.txs[i].callbacks
      && CalledBy(s'.log, i) == if s'.txs[i].phase.Resumed? then s'.txs[i].callbacks else []
  {
    var s' := TakeAll(s, steps);
    RunsAreSafe(s, steps);
    RunEvolves(s, steps);
    assert Evolved(s.txs[i], s'.txs[i]) && Logged(s'.log, i, s'.txs[i]);
  }

  /** The callback stands at place n of the run's list, which is called exactly when the caller resumes. */
  ghost predicate CalledInPlace(s: State, i: nat, n: nat, callback: string) {
    && i < |s.txs| && n < |s.txs[i].callbacks| && s.txs[i].callbacks[n] == callback
    && CalledBy(s.log, i) == if s.txs[i].phase.Resumed? then s.txs[i].callbacks else []
  }

  /** Once its caller has resumed, nothing changes a run any more. */
  lemma {:induction false} ResumedIsFinal(s: State, i: nat, steps: seq<Step>)
    requires InPhase(s, i, Resumed)
    ensures i < |TakeAll(s, steps).txs| && TakeAll(s, steps).txs[i] == s.txs[i]
  {
    if steps != [] {
      ResumedIsFinal(s, i, steps[..|steps| - 1]);
    }
  }

  /**
   * A callback registered in the context of a transaction, inlined work
   * included, stands on its list and is called exactly when its caller resumes,
   * in every continuation, if and only if the caller has not resumed yet when it
   * is registered. Later it is lost: what has been called never changes.
   */
  lemma RegisteredIsCalledExactly(s: State, i: nat, callback: string, steps: seq<Step>)
    requires Safe(s) && HasBegun(s, i)
    ensures var s' := TakeAll(Take(s, RunAfterCommit(Some(i), callback)), steps);
      && (Unflushed(s, i) <==> CalledInPlace(s', i, |s.txs[i].callbacks|, callback))
      && (!Unflushed(s, i) ==> CalledBy(s'.log, i) == s.txs[i].callbacks == CalledBy(s.log, i))
  {
    RegisteredIsListed(s, i, callback);
    LoggedAfterStep(s, RunAfterCommit(Some(i), callback), i, steps);
    if !Unflushed(s, i) {
      ResumedIsFinal(Take(s, RunAfterCommit(Some(i), callback)), i, steps);
      LoggedNow(s, i);
    }
  }

  lemma LoggedNow(s: State, i: nat)
    requires LogAgrees(s) && i < |s.txs|
    ensures CalledBy(s.log, i) == if s.txs[i].phase.Resumed? then s.txs[i].callbacks else []
  {
    assert Logged(s.log, i, s.txs[i]);
  }

  lemma LoggedAfterStep(s: State, step: Step, i: nat, steps: seq<Step>)
    requires Safe(s) && i < |Take(s, step).txs|
    ensures var s' := TakeAll(Take(s, step), steps);
      && i < |s'.txs| && Take(s, step).txs[i].callbacks <= s'.txs[i].callbacks
      && CalledBy(s'.log, i) == if s'.txs[i].phase.Resumed? then s'.txs[i].callbacks else []
  {
    StepIsSafe(s, step);
    LoggedLater(Take(s, step), i, steps);
  }

  lemma RegisteredIsListed(s: State, i: nat, callback: string)
    requires HasBegun(s, i)
    ensures var s' := Take(s, RunAfterCommit(Some(i), callback));
      |s'.txs| == |s.txs| && s'.txs[i] == Listed(s.txs[i], callback)
  {
  }

  // ----- callbacks outside any transaction

  /** The callbacks called at once, in order. */
  function CalledDirectly(log: seq<Entry>): seq<string> {
    if log == [] then []
    else
      var e := log[|log| - 1];
      CalledDirectly(log[..|log| - 1]) + (if e.CalledAtOnce? then [e.callback] else [])
  }

  /** The callbacks handed over outside any transaction, in order. */
  function Unscoped(steps: seq<Step>): seq<string> {
    if steps == [] then []
    else
      var step := steps[|steps| - 1];
      Unscoped(steps[..|steps| - 1]) + (if step.RunAfterCommit? && step.scope.None? then [step.callback] else [])
  }

  lemma {:induction false} DirectlyAfter(log: seq<Entry>, more: seq<Entry>)
    requires forall e :: e in more ==> !e.CalledAtOnce?
    ensures CalledDirectly(log + more) == CalledDirectly(log)
  {
    if more == [] {
      assert log + more == log;
    } else {
      DirectlyAfter(log, more[..|more| - 1]);
      assert (log + more)[..|log + more| - 1] == log + more[..|more| - 1];
    }
  }

  lemma StepCallsDirectly(s: State, step: Step)
    ensures CalledDirectly(Take(s, step).log) ==
      CalledDirectly(s.log) + (if step.RunAfterCommit? && step.scope.None? then [step.callback] else [])
  {
    var log, log' := s.log, Take(s, step).log;
    if step.Resume? {
      if InPhase(s, step.tx, Committed) {
        CallsAreCalls(step.tx, s.txs[step.tx].callbacks);
        DirectlyAfter(log, Calls(step.tx, s.txs[step.tx].callbacks));
      }
    } else if log' != log {
      OtherStepsLogOne(s, step);
      assert log'[..|log'| - 1] == log;
    }
  }

  /** In every run a callback handed over outside any transaction is called once, at once and in order. */
  lemma {:induction false} UnscopedRunAtOnce(steps: seq<Step>)
    ensures CalledDirectly(TakeAll(INITIAL, steps).log) == Unscoped(steps)
  {
    if steps != [] {
      UnscopedRunAtOnce(steps[..|steps| - 1]);
      StepCallsDirectly(TakeAll(INITIAL, steps[..|steps| - 1]), steps[|steps| - 1]);
    }
  }

  // ----- savepoints stay inside

  /** Run j is one of those that this handle is nested in. */
  predicate Encloses(txs: seq<Tx>, target: Handle, j: nat)
    decreases if target.Root? then 0 else target.tx + 1
  {
    && target.Inner?
    && (|| target.tx == j
        || (&& target.tx < |txs| && (txs[target.tx].handle.Inner? ==> txs[target.tx].handle.tx < target.tx)
            && Encloses(txs, txs[target.tx].handle, j)))
  }

  function PhaseOf(s: State, i: nat): Option<Phase> {
    if i < |s.txs| then Some(s.txs[i].phase) else None
  }

  ghost predicate AllRunning(txs: seq<Tx>, target: Handle) {
    forall j :: 0 <= j < |txs| && Encloses(txs, target, j) ==> txs[j].phase.Running?
  }

  lemma {:induction false} OpenExactly(txs: seq<Tx>, target: Handle)
    requires HandlesRight(txs) && (target.Inner? ==> target.tx < |txs|)
    ensures Open(txs, target) <==> AllRunning(txs, target)
    decreases if target.Root? then 0 else target.tx + 1
  {
    if target.Inner? {
      var outer := txs[target.tx].handle;
      OpenExactly(txs, outer);
      assert forall j :: 0 <= j < |txs| ==>
        (Encloses(txs, target, j) <==> j == target.tx || Encloses(txs, outer, j));
      assert Encloses(txs, target, target.tx);
    }
  }

  /**
   * A run whose turn has come enters its body, and one that asks to commit
   * commits, exactly when every run it is nested in is still running; otherwise
   * it is turned away or rolled back.
   */
  lemma NestsExactly(s: State, i: nat, commits: bool)
    requires Safe(s) && i < |s.txs|
    ensures HasTurn(s, i) ==> var phase := PhaseOf(Take(s, Begin(i)), i);
      phase == Some(if AllRunning(s.txs, s.txs[i].handle) then Running else Refused)
    ensures InPhase(s, i, Running) ==> var phase := PhaseOf(Take(s, Settle(i, commits)), i);
      phase == Some(if commits && AllRunning(s.txs, s.txs[i].handle) then Committed else RolledBack)
  {
    OpenExactly(s.txs, s.txs[i].handle);
  }

  // ----- callbacks run once, exactly when none comes late

  /** The callbacks registered in the context of run i, in order. */
  function RegisteredBy(log: seq<Entry>, i: nat): seq<string> {
    if log == [] then []
    else
      var e := log[|log| - 1];
      RegisteredBy(log[..|log| - 1], i) + (if e.Registered? && e.tx == i then [e.callback] else [])
  }

  /** Every callback registered with a run whose caller has resumed was called, once and in order; others were not. */
  ghost predicate RunOnce(s: State) {
    forall i :: 0 <= i < |s.txs| ==>
      CalledBy(s.log, i) == if s.txs[i].phase.Resumed? then RegisteredBy(s.log, i) else []
  }

  /** Every registration is on its run's list. */
  ghost predicate AllListed(s: State) {
    forall i :: 0 <= i < |s.txs| ==> RegisteredBy(s.log, i) == s.txs[i].callbacks
  }

  /** More was registered with run i than its list held when it was gone through. */
  ghost predicate Lost(s: State, i: nat) {
    InPhase(s, i, Resumed) && |RegisteredBy(s.log, i)| > |s.txs[i].callbacks|
  }

  /** A callback is registered in the context of a transaction whose caller has resumed. */
  predicate Late(s: State, step: Step) {
    step.RunAfterCommit? && step.scope.Some? && InPhase(s, step.scope.value, Resumed)
  }

  predicate LateIn(steps: seq<Step>) {
    steps != [] &&
    var front := steps[..|steps| - 1];
    LateIn(front) || Late(TakeAll(INITIAL, front), steps[|steps| - 1])
  }

  lemma {:induction false} RegisteredAfter(log: seq<Entry>, e: Entry, j: nat)
    ensures RegisteredBy(log + [e], j) ==
      RegisteredBy(log, j) + (if e.Registered? && e.tx == j then [e.callback] else [])
  {
    assert (log + [e])[..|log|] == log;
  }

  lemma {:induction false} NoneRegistered(log: seq<Entry>, more: seq<Entry>, j: nat)
    requires forall e :: e in more ==> !(e.Registered? && e.tx == j)
    ensures RegisteredBy(log + more, j) == RegisteredBy(log, j)
  {
    if more == [] {
      assert log + more == log;
    } else {
      var n := |more| - 1;
      NoneRegistered(log, more[..n], j);
      RegisteredAfter(log + more[..n], more[n], j);
      assert log + more[..n] + [more[n]] == log + more;
    }
  }

  /** What a step adds to the registrations of run j: the callback it registers with j, if any. */
  function Registers(s: State, step: Step, j: nat): seq<string> {
    if step.RunAfterCommit? && step.scope == Some(j) && HasBegun(s, j) then [step.callback] else []
  }

  lemma StepRegisters(s: State, step: Step, j: nat)
    ensures RegisteredBy(Take(s, step).log, j) == RegisteredBy(s.log, j) + Registers(s, step, j)
  {
    if step.Resume? {
      if InPhase(s, step.tx, Committed) {
        CallsAreCalls(step.tx, s.txs[step.tx].callbacks);
        NoneRegistered(s.log, Calls(step.tx, s.txs[step.tx].callbacks), j);
      }
    } else {
      OtherStepsLogOne(s, step);
      OneEntryRegisters(s, step, j);
    }
  }

  lemma OneEntryRegisters(s: State, step: Step, j: nat)
    requires !step.Resume?
    ensures RegisteredBy(Take(s, step).log, j) == RegisteredBy(s.log, j) + Registers(s, step, j)
  {
    var log, log' := s.log, Take(s, step).log;
    if log' != log {
      OtherStepsLogOne(s, step);
      RegisteredAfter(log, log'[|log|], j);
    }
  }

  lemma StepLists(s: State, step: Step, j: nat)
    requires j < |s.txs|
    ensures var s' := Take(s, step);
      j < |s'.txs| && s'.txs[j].callbacks ==
        s.txs[j].callbacks + (if s.txs[j].phase.Resumed? then [] else Registers(s, step, j))
  {
  }

  lemma {:induction false} UnmentionedRegistersNothing(log: seq<Entry>, j: nat)
    requires forall e :: e in log ==> e.CalledAtOnce? || e.tx < j
    ensures RegisteredBy(log, j) == []
  {
    if log != [] {
      assert log[|log| - 1] in log;
      UnmentionedRegistersNothing(log[..|log| - 1], j);
    }
  }

  lemma OnTimeKeepsListed(s: State, step: Step)
    requires LogAgrees(s) && AllListed(s) && !Late(s, step)
    ensures AllListed(Take(s, step))
  {
    var s' := Take(s, step);
    forall j | 0 <= j < |s'.txs| ensures RegisteredBy(s'.log, j) == s'.txs[j].callbacks {
      StepRegisters(s, step, j);
      if j < |s.txs| {
        StepLists(s, step, j);
      } else {
        UnmentionedRegistersNothing(s.log, j);
        NewRunIsEmpty(s, step, j);
      }
    }
  }

  lemma NewRunIsEmpty(s: State, step: Step, j: nat)
    requires |s.txs| <= j < |Take(s, step).txs|
    ensures Take(s, step).txs[j].callbacks == [] && Registers(s, step, j) == []
  {
  }

  lemma LateIsLost(s: State, step: Step)
    requires AllListed(s) && Late(s, step)
    ensures Lost(Take(s, step), step.scope.value)
  {
    StepRegisters(s, step, step.scope.value);
    StepLists(s, step, step.scope.value);
  }

  lemma StepKeepsLost(s: State, step: Step, i: nat)
    requires Lost(s, i)
    ensures Lost(Take(s, step), i)
  {
    StepRegisters(s, step, i);
    StepLists(s, step, i);
    StepEvolves(s, step);
    assert Evolved(s.txs[i], Take(s, step).txs[i]);
  }

  /** Without a late registration everything registered is listed; with one, something is lost for good. */
  lemma {:induction false} ListedOrLost(steps: seq<Step>) returns (i: nat)
    ensures !LateIn(steps) ==> AllListed(TakeAll(INITIAL, steps))
    ensures LateIn(steps) ==> Lost(TakeAll(INITIAL, steps), i)
  {
    i := 0;
    if steps != [] {
      var front, step := steps[..|steps| - 1], steps[|steps| - 1];
      i := ListedOrLost(front);
      var s := TakeAll(INITIAL, front);
      if LateIn(front) {
        StepKeepsLost(s, step, i);
      } else if Late(s, step) {
        LateIsLost(s, step);
        i := step.scope.value;
      } else {
        InitialRunsAgree(front);
        OnTimeKeepsListed(s, step);
      }
    }
  }

  lemma InitialRunsAgree(steps: seq<Step>)
    ensures LogAgrees(TakeAll(INITIAL, steps))
  {
    RunsAreSafe(INITIAL, steps);
  }

  /**
   * In every run, each callback registered with a transaction is called once, in
   * order, when its caller resumes, and never otherwise, if and only if none is
   * registered in the context of a transaction whose caller has resumed already.
   */
  lemma CallbacksRunOnceExactly(steps: seq<Step>)
    ensures RunOnce(TakeAll(INITIAL, steps)) <==> !LateIn(steps)
  {
    var i := ListedOrLost(steps);
    InitialRunsAgree(steps);
    if LateIn(steps) {
      LostIsNotOnce(TakeAll(INITIAL, steps), i);
    } else {
      ListedIsOnce(TakeAll(INITIAL, steps));
    }
  }

  lemma LostIsNotOnce(s: State, i: nat)
    requires LogAgrees(s) && Lost(s, i)
    ensures !RunOnce(s)
  {
    assert Logged(s.log, i, s.txs[i]);
  }

  lemma ListedIsOnce(s: State)
    requires LogAgrees(s) && AllListed(s)
    ensures RunOnce(s)
  {
    forall i | 0 <= i < |s.txs|
      ensures CalledBy(s.log, i) == if s.txs[i].phase.Resumed? then RegisteredBy(s.log, i) else []
    {
      assert Logged(s.log, i, s.txs[i]);
    }
  }

  /** A body starts a second transaction on the same handle without awaiting it, and commits. */
  const DETACHED := State(
    [Tx(Root(0), true, None, Committed, []), Tx(Root(0), true, Some(0), Waiting, [])],
    map[Root(0) := 1], 0, [Began(0), Ended(0, true)])

  /** Its caller resumes while the second one runs. */
  const OUTLIVED := State(
    [Tx(Root(0), true, None, Resumed, []), Tx(Root(0), true, Some(0), Running, [])],
    map[Root(0) := 1], 1, [Began(0), Ended(0, true), Began(1)])

  const BOTH_DONE := State(
    [Tx(Root(0), true, None, Resumed, []), Tx(Root(0), true, Some(0), Resumed, [])],
    map[Root(0) := 1], 2, [Began(0), Ended(0, true), Began(1), Ended(1, true)])

  lemma DetachedRun()
    ensures Take(Take(OPENED, RunInTransaction(Some(0), Root(0))), Settle(0, true)) == DETACHED
  {
    assert Take(OPENED, RunInTransaction(Some(0), Root(0))) == Submit(OPENED, Root(0), true);
  }

  lemma OutlivedRun()
    ensures Take(Take(DETACHED, Resume(0)), Begin(1)) == OUTLIVED
  {
    assert Calls(0, []) == [];
  }

  lemma BothDoneRun()
    ensures Take(Take(OUTLIVED, Settle(1, true)), Resume(1)) == BOTH_DONE
  {
    assert Calls(1, []) == [];
  }

  const ON_TIME: seq<Step> :=
    [RunInTransaction(None, Root(0)), Begin(0)] + [RunInTransaction(Some(0), Root(0)), Settle(0, true)]
    + [Resume(0), Begin(1)] + [Settle(1, true), Resume(1)]

  lemma BothDoneIsReached()
    ensures TakeAll(INITIAL, ON_TIME) == BOTH_DONE
  {
    var a, b := [RunInTransaction(None, Root(0)), Begin(0)], [RunInTransaction(Some(0), Root(0)), Settle(0, true)];
    var c, d := [Resume(0), Begin(1)], [Settle(1, true), Resume(1)];
    OpenedRun();
    DetachedRun();
    OutlivedRun();
    BothDoneRun();
    TakeTwo(INITIAL, a[0], a[1]);
    TakeTwo(OPENED, b[0], b[1]);
    TakeTwo(DETACHED, c[0], c[1]);
    TakeTwo(OUTLIVED, d[0], d[1]);
    FourPairs(INITIAL, OPENED, DETACHED, OUTLIVED, a, b, c, d);
  }

  /** Whatever the run so far, a callback registered after the caller resumed is never called. */
  lemma NeverCalledLater(before: seq<Step>, i: nat, callback: string, steps: seq<Step>)
    requires var s := TakeAll(INITIAL, before); InPhase(s, i, Resumed) && callback !in s.txs[i].callbacks
    ensures var s, s' := TakeAll(INITIAL, before), TakeAll(INITIAL, before + [RunAfterCommit(Some(i), callback)]);
      && s'.txs == s.txs && s'.committedMutations == s.committedMutations
      && Registered(i, callback) in s'.log && Called(i, callback) !in TakeAll(s', steps).log
  {
    TakeOneMore(INITIAL, before, RunAfterCommit(Some(i), callback));
    LateChangesTheLogOnly(TakeAll(INITIAL, before), i, callback);
    LateIsNeverCalled(before, i, callback, steps);
  }

  lemma LateChangesTheLogOnly(s: State, i: nat, callback: string)
    requires InPhase(s, i, Resumed)
    ensures Take(s, RunAfterCommit(Some(i), callback)) == s.(log := s.log + [Registered(i, callback)])
  {
    assert s.txs[i := s.txs[i]] == s.txs;
  }

  lemma LateIsNeverCalled(before: seq<Step>, i: nat, callback: string, steps: seq<Step>)
    requires var s := TakeAll(INITIAL, before); InPhase(s, i, Resumed) && callback !in s.txs[i].callbacks
    ensures var s := TakeAll(INITIAL, before);
      Called(i, callback) !in TakeAll(Take(s, RunAfterCommit(Some(i), callback)), steps).log
  {
    var s := TakeAll(INITIAL, before);
    CalledMeansCalledBy(TakeAll(Take(s, RunAfterCommit(Some(i), callback)), steps).log, i, callback);
    LateCallsNothing(before, i, callback, steps);
  }

  lemma LateCallsNothing(before: seq<Step>, i: nat, callback: string, steps: seq<Step>)
    requires InPhase(TakeAll(INITIAL, before), i, Resumed)
    ensures var s := TakeAll(INITIAL, before);
      CalledBy(TakeAll(Take(s, RunAfterCommit(Some(i), callback)), steps).log, i) == s.txs[i].callbacks
  {
    RunsAreSafe(INITIAL, before);
    RegisteredIsCalledExactly(TakeAll(INITIAL, before), i, callback, steps);
  }

  /** Two transactions commit, work left over from the first registers a callback, and nobody ever calls it. */
  lemma LateCallbackIsLost(steps: seq<Step>)
    ensures var s := TakeAll(INITIAL, ON_TIME + [RunAfterCommit(Some(0), "x")]);
      && s.committedMutations == 2 && s.txs == BOTH_DONE.txs
      && Registered(0, "x") in s.log && Called(0, "x") !in TakeAll(s, steps).log
  {
    BothDoneIsReached();
    NeverCalledLater(ON_TIME, 0, "x", steps);
  }

  lemma {:induction false} CalledMeansCalledBy(log: seq<Entry>, i: nat, callback: string)
    ensures Called(i, callback) in log ==> callback in CalledBy(log, i)
  {
    if log != [] {
      CalledMeansCalledBy(log[..|log| - 1], i, callback);
      assert Called(i, callback) in log ==>
        Called(i, callback) in log[..|log| - 1] || log[|log| - 1] == Called(i, callback);
    }
  }

  lemma ResumeCallsAll(s: State, i: nat)
    requires Safe(s) && InPhase(s, i, Committed)
    ensures Safe(Take(s, Resume(i))) && CalledBy(Take(s, Resume(i)).log, i) == s.txs[i].callbacks
  {
    StepIsSafe(s, Resume(i));
    ResumeLogs(s, i);
  }

  lemma ResumeLogs(s: State, i: nat)
    requires LogAgrees(s) && InPhase(s, i, Committed)
    ensures CalledBy(Take(s, Resume(i)).log, i) == s.txs[i].callbacks
  {
    assert Logged(s.log, i, s.txs[i]);
    CalledAfterAll(s.log, i, s.txs[i].callbacks, i);
  }

  // ----- the mutable process state

  class Queues {
    var s: State

    constructor ()
      ensures s == INITIAL && Safe(s)
    {
      s := INITIAL;
    }

    /** runSerializedTransaction up to its await. */
    method Enqueue(target: Handle, domain: bool) returns (tx: nat)
      requires Safe(s) && Exists(s, target)
      modifies this
      ensures s == Submit(old(s), target, domain) && Safe(s)
      ensures tx == |old(s).txs| && IsLast(old(s).txs, target, tx, s.txs[tx].prior)
    {
      tx := |s.txs|;
      var prior := Tail(s.chains, target);
      assert IsLast(s.txs, target, tx, prior);
      SubmitKeepsQueues(s, target, domain);
      SubmitKeepsLog(s, target, domain);
      HandlesKeepOrder(s.txs, Submit(s, target, domain).txs, s.log);
      assert Submit(s, target, domain).txs[..tx] == s.txs;
      s := s.(txs := s.txs + [Tx(target, domain, prior, Waiting, [])], chains := s.chains[target := tx]);
    }

    /** Inline when the call is aimed at the enclosing transaction, queued otherwise. */
    method CallInTransaction(scope: Option<nat>, target: Handle) returns (queued: Option<nat>)
      requires Safe(s) && Entered(s, scope) && Exists(s, target)
      modifies this
      ensures s == Take(old(s), RunInTransaction(scope, target)) && Safe(s)
      ensures queued == if Inlines(scope, target) then None else Some(|old(s).txs|)
    {
      if scope.Some? && target == Inner(scope.value) {
        StepIsSafe(s, RunInTransaction(scope, target));
        if s.txs[scope.value].phase.Running? {
          s := s.(log := s.log + [Inlined(scope.value)]);
        }
        return None;
      }
      var tx := Enqueue(target, true);
      return Some(tx);
    }

    /** The rest of runSerializedTransaction once the run has committed. */
    method CallerResumes(i: nat)
      requires Safe(s) && InPhase(s, i, Committed)
      modifies this
      ensures s == Take(old(s), Resume(i)) && Safe(s)
      ensures CalledBy(s.log, i) == old(s).txs[i].callbacks
    {
      ResumeCallsAll(s, i);
      var was, tx := s, s.txs[i];
      var log := CallEach(was.log, i, tx.callbacks);
      var counted := was.committedMutations + (if tx.domain then 1 else 0);
      var next := State(was.txs[i := tx.(phase := Resumed)], was.chains, counted, log);
      assert next == Take(was, Resume(i));
      s := next;
    }
  }

  method CallEach(log: seq<Entry>, i: nat, callbacks: seq<string>) returns (after: seq<Entry>)
    ensures after == log + Calls(i, callbacks)
  {
    after := log;
    for k := 0 to |callbacks|
      invariant after == log + Calls(i, callbacks[..k])
    {
      assert callbacks[..k + 1][..k] == callbacks[..k];
      after := after + [Called(i, callbacks[k])];
    }
    assert callbacks[..|callbacks|] == callbacks;
  }
}
