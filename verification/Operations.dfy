/**
 * Exactly-once operations of the cloud control plane: `exact` and `commitExact`
 * inside one write transaction
 * (packages/tasq-cloud-control-plane/src/index.ts:526-656, 730-840, 1028-1089).
 *
 * The domain tables and the effect of an operation on them are parameters, so
 * every result holds for tenant creation, principal registration and workspace
 * provisioning alike.
 */
module Operations {
  import opened Common

  /** The whole input of a call; its payload contains the operation id. */
  datatype Call<P> = Call(operationId: string, action: string, tenant: string, resource: string, payload: P)

  /** SHA-256 of the canonical payload, taken as collision-free. */
  datatype Digest<P> = Sha(operationId: string, payload: P)

  datatype OperationRow<P, R> = OperationRow(
    action: string, tenant: string, resource: string, inputDigest: Digest<P>, result: R)

  datatype AuditRow<P, R> =
    | OperationAudit(action: string, tenant: string, resource: string, inputDigest: Digest<P>, result: R)
    | OtherAudit(action: string, resource: string)

  datatype Ledger<D, P, R> = Ledger(
    domain: D, operations: map<string, OperationRow<P, R>>, audit: seq<AuditRow<P, R>>)

  datatype Outcome<R> = Committed(result: R) | Replayed(result: R) | Conflict | Refused

  function DigestOf<P>(c: Call<P>): Digest<P> {
    Sha(c.operationId, c.payload)
  }

  predicate SameInput<P(==), R>(row: OperationRow<P, R>, c: Call<P>) {
    row.action == c.action && row.tenant == c.tenant && row.resource == c.resource && row.inputDigest == DigestOf(c)
  }

  /** One write transaction; `effect` is None when a constraint or a check of the operation throws. */
  function Perform<D, P(==), R>(l: Ledger<D, P, R>, c: Call<P>, effect: D -> Option<(D, R)>)
    : (Ledger<D, P, R>, Outcome<R>)
  {
    if c.operationId in l.operations then
      var row := l.operations[c.operationId];
      if SameInput(row, c) then (l, Replayed(row.result)) else (l, Conflict)
    else
      match effect(l.domain)
      case None => (l, Refused)
      case Some((domain, result)) =>
        (Ledger(domain,
                l.operations[c.operationId := OperationRow(c.action, c.tenant, c.resource, DigestOf(c), result)],
                l.audit + [OperationAudit(c.action, c.tenant, c.resource, DigestOf(c), result)]),
         Committed(result))
  }

  /** A call, or any other method at work: it may rewrite the domain and append its own audit rows. */
  datatype Step<!D, P, R> =
    | Invoke(call: Call<P>, effect: D -> Option<(D, R)>)
    | Interfere(domain: D, notes: seq<(string, string)>)

  datatype Run<D, P, R> = Run(ledger: Ledger<D, P, R>, log: seq<(Call<P>, Outcome<R>)>)

  function Notes<P, R>(notes: seq<(string, string)>): seq<AuditRow<P, R>> {
    seq(|notes|, i requires 0 <= i < |notes| => OtherAudit(notes[i].0, notes[i].1))
  }

  function Take<D, P(==), R>(r: Run<D, P, R>, s: Step<D, P, R>): Run<D, P, R> {
    match s
    case Invoke(call, effect) =>
      var (ledger, outcome) := Perform(r.ledger, call, effect);
      Run(ledger, r.log + [(call, outcome)])
    case Interfere(domain, notes) =>
      Run(r.ledger.(domain := domain, audit := r.ledger.audit + Notes(notes)), r.log)
  }

  function TakeAll<D, P(==), R>(r: Run<D, P, R>, steps: seq<Step<D, P, R>>): Run<D, P, R> {
    if steps == [] then r else Take(TakeAll(r, steps[..|steps| - 1]), steps[|steps| - 1])
  }

  function CommitCount<P, R>(log: seq<(Call<P>, Outcome<R>)>, operationId: string): nat {
    if log == [] then 0
    else
      var (call, outcome) := log[|log| - 1];
      CommitCount(log[..|log| - 1], operationId)
      + (if call.operationId == operationId && outcome.Committed? then 1 else 0)
  }

  function AuditCount<P, R>(audit: seq<AuditRow<P, R>>, operationId: string): nat {
    if audit == [] then 0
    else
      var row := audit[|audit| - 1];
      AuditCount(audit[..|audit| - 1], operationId)
      + (if row.OperationAudit? && row.inputDigest.operationId == operationId then 1 else 0)
  }

  lemma {:induction false} NotesCountNothing<P, R>(
    audit: seq<AuditRow<P, R>>, notes: seq<(string, string)>, operationId: string)
    ensures AuditCount(audit + Notes<P, R>(notes), operationId) == AuditCount(audit, operationId)
  {
    var all := audit + Notes<P, R>(notes);
    if notes == [] {
      assert all == audit;
    } else {
      NotesCountNothing(audit, notes[..|notes| - 1], operationId);
      assert all[..|all| - 1] == audit + Notes<P, R>(notes[..|notes| - 1]);
    }
  }

  /** One operation row, one audit row and one committed call per operation id, or none of each. */
  ghost predicate Exact<D, P, R>(r: Run<D, P, R>, operationId: string) {
    var n := if operationId in r.ledger.operations then 1 else 0;
    CommitCount(r.log, operationId) == n && AuditCount(r.ledger.audit, operationId) == n
  }

  lemma StepKeepsExact<D, P, R>(r: Run<D, P, R>, s: Step<D, P, R>, operationId: string)
    requires Exact(r, operationId)
    ensures Exact(Take(r, s), operationId)
  {
    var r' := Take(r, s);
    match s
    case Interfere(domain, notes) => NotesCountNothing(r.ledger.audit, notes, operationId);
    case Invoke(call, effect) =>
      assert r'.log[..|r'.log| - 1] == r.log;
      if r'.ledger.audit != r.ledger.audit {
        assert r'.ledger.audit[..|r'.ledger.audit| - 1] == r.ledger.audit;
      }
  }

  /** Each operation id takes effect at most once in every run, whatever the other methods do. */
  lemma {:induction false} EffectsHappenOnce<D, P, R>(domain: D, steps: seq<Step<D, P, R>>, operationId: string)
    ensures Exact(TakeAll(Run(Ledger(domain, map[], []), []), steps), operationId)
  {
    if steps != [] {
      var front := steps[..|steps| - 1];
      EffectsHappenOnce(domain, front, operationId);
      StepKeepsExact(TakeAll(Run(Ledger(domain, map[], []), []), front), steps[|steps| - 1], operationId);
    }
  }

  lemma {:induction false} RowsAreStable<D, P, R>(r: Run<D, P, R>, steps: seq<Step<D, P, R>>, operationId: string)
    requires operationId in r.ledger.operations
    ensures operationId in TakeAll(r, steps).ledger.operations
    ensures TakeAll(r, steps).ledger.operations[operationId] == r.ledger.operations[operationId]
  {
    if steps != [] {
      RowsAreStable(r, steps[..|steps| - 1], operationId);
    }
  }

  /**
   * After a call committed, and after any further steps, the same input
   * changes nothing and returns the recorded result, while any other input
   * under that operation id changes nothing and fails.
   */
  lemma ReplayAfterCommit<D, P, R>(
    r: Run<D, P, R>, c: Call<P>, effect: D -> Option<(D, R)>, later: seq<Step<D, P, R>>,
    again: Call<P>, effect': D -> Option<(D, R)>)
    requires Perform(r.ledger, c, effect).1.Committed? && again.operationId == c.operationId
    ensures var l := TakeAll(Take(r, Invoke(c, effect)), later).ledger;
      Perform(l, again, effect') ==
        (l, if again == c then Replayed(Perform(r.ledger, c, effect).1.result) else Conflict)
  {
    RowsAreStable(Take(r, Invoke(c, effect)), later, c.operationId);
  }
}

/** provisionWorkspace as one instance of the exactly-once transaction. */
module Provisioning {
  import opened Common
  import opened Operations
  import W = Workspaces

  type Plane = Ledger<W.Db, string, W.Workspace>

  function Insert(key: W.Key, storage: string): W.Db -> Option<(W.Db, W.Workspace)> {
    (db: W.Db) =>
      if !W.MayProvision(db, key, storage) then None
      else
        var inserted := W.Workspace(W.Provisioning, storage, None, None, []);
        Some((W.Execute(db, W.InsertProvisioning(key, storage)), inserted))
  }

  /** The operation keeps the row as it was inserted, not as it is answered. */
  function Recorded(c: Call<string>, storage: string): OperationRow<string, W.Workspace> {
    OperationRow(c.action, c.tenant, c.resource, DigestOf(c), W.Workspace(W.Provisioning, storage, None, None, []))
  }

  function Audited(row: OperationRow<string, W.Workspace>): AuditRow<string, W.Workspace> {
    OperationAudit(row.action, row.tenant, row.resource, row.inputDigest, row.result)
  }

  class Provisioner {
    var plane: Plane

    constructor (plane: Plane)
      ensures this.plane == plane
    {
      this.plane := plane;
    }

    /**
     * A fresh operation inserts the row, records itself once and applies the
     * provisioner's answer; a replay returns the row as it is now; a conflict
     * or a refusal changes nothing.
     */
    method ProvisionWorkspace(
      key: W.Key, region: string, operationId: string, storage: string, answer: Option<W.Provisioned>)
      returns (r: Option<W.Workspace>)
      modifies this
      ensures Perform(old(plane), Call(operationId, "workspace.provision", key.0, key.1, region),
                      Insert(key, storage)).1.Committed? <==>
        && operationId !in old(plane).operations
        && key.0 in old(plane).domain.tenants && old(plane).domain.tenants[key.0].active
        && |set k | k in old(plane).domain.workspaces && k.0 == key.0
              && !old(plane).domain.workspaces[k].status.Deleted?|
             < old(plane).domain.tenants[key.0].maxWorkspaces
        && key !in old(plane).domain.workspaces
        && forall k :: k in old(plane).domain.workspaces ==> old(plane).domain.workspaces[k].storage != storage
      ensures var c := Call(operationId, "workspace.provision", key.0, key.1, region);
        var outcome := Perform(old(plane), c, Insert(key, storage)).1;
        && (outcome.Replayed? ==>
              plane == old(plane) &&
              r == Some(if key in plane.domain.workspaces then plane.domain.workspaces[key] else outcome.result))
        && (outcome.Conflict? || outcome.Refused? ==> plane == old(plane) && r == None)
        && (outcome.Committed? ==>
              && key in plane.domain.workspaces && r == Some(plane.domain.workspaces[key])
              && (if answer.Some? && answer.value.deployment != "" && answer.value.origin != ""
                    && 1 <= |answer.value.secrets| <= 32
                  then
                    r.value == W.Workspace(W.Ready, storage, Some(answer.value.deployment),
                                           Some(answer.value.origin), answer.value.secrets)
                  else r.value == W.Workspace(W.Failed, storage, None, None, []))
              && plane.domain == old(plane).domain.(workspaces := old(plane).domain.workspaces[key := r.value])
              && plane.operations == old(plane).operations[operationId := Recorded(c, storage)]
              && plane.audit == old(plane).audit + [Audited(Recorded(c, storage))])
    {
      var c := Call(operationId, "workspace.provision", key.0, key.1, region);
      var (transaction, outcome) := Perform(plane, c, Insert(key, storage));
      if outcome.Conflict? || outcome.Refused? {
        return None;
      }
      plane := transaction;
      if outcome.Replayed? {
        return Some(if key in plane.domain.workspaces then plane.domain.workspaces[key] else outcome.result);
      }
      plane := plane.(domain := W.Execute(plane.domain, W.ProvisionReturned(key, answer)));
      return Some(plane.domain.workspaces[key]);
    }
  }
}
