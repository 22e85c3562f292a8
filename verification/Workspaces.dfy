/**
 * Workspace lifecycle of the cloud control plane, statement by statement
 * (packages/tasq-cloud-control-plane/src/index.ts:658-709, 730-1022, 1392-1575).
 */
module Workspaces {
  import opened Common

  datatype Status = Provisioning | Ready | Failed | Suspended | Deleting | Deleted

  datatype Workspace = Workspace(
    status: Status,
    storage: string,
    deployment: Option<string>,
    origin: Option<string>,
    secrets: seq<string>)

  datatype Tenant = Tenant(active: bool, maxWorkspaces: nat)

  type Key = (string, string)

  /** A call that has read its row; `marked` once its first write is behind it. */
  datatype Stage = InReconcile(key: Key, marked: bool) | InDeletion(key: Key, marked: bool)

  /**
   * `calls` are the calls under way, each under an id of its own; `backups` are
   * the workspaces that had a backup requested, which may since have become
   * restorable.
   */
  datatype Db = Db(
    tenants: map<string, Tenant>,
    workspaces: map<Key, Workspace>,
    calls: map<nat, Stage>,
    backups: set<Key>)

  const EMPTY := Db(map[], map[], map[], {})

  /** What the provisioner answers; the control plane parses it before use. */
  datatype Provisioned = Provisioned(deployment: string, origin: string, secrets: seq<string>)

  predicate Parses(r: Provisioned) {
    r.deployment != "" && r.origin != "" && 1 <= |r.secrets| <= 32
  }

  datatype Step =
    | InsertTenant(t: string, quota: nat)
    | SuspendTenant(t: string)
    | InsertProvisioning(key: Key, storage: string)
    | ProvisionReturned(key: Key, answer: Option<Provisioned>)
    | ReconcileRead(call: nat, key: Key)
    | ReconcileMark(call: nat, key: Key)
    | ReconcileReturned(call: nat, key: Key, answer: Option<Provisioned>)
    | SuspendWorkspace(key: Key)
    | RotateSecrets(key: Key, replacements: seq<string>)
    | RequestBackup(key: Key)
    | Restore(key: Key, restored: Provisioned)
    | DeleteRead(call: nat, key: Key)
    | DeleteMark(call: nat, key: Key)
    | DeleteFinish(call: nat, key: Key)

  function Readied(row: Workspace, r: Provisioned): Workspace {
    row.(status := Ready, deployment := Some(r.deployment), origin := Some(r.origin), secrets := r.secrets)
  }

  /** Ready with the parsed answer, or failed when the call or the parse threw. */
  function Answered(row: Workspace, answer: Option<Provisioned>): Workspace {
    if answer.Some? && Parses(answer.value) then Readied(row, answer.value) else row.(status := Failed)
  }

  function Emptied(row: Workspace): Workspace {
    row.(status := Deleted, deployment := None, origin := None, secrets := [])
  }

  predicate IsAt(db: Db, call: nat, stage: Stage) {
    call in db.calls && db.calls[call] == stage
  }

  /** What reconcileWorkspace and deleteWorkspace accept at their read. */
  predicate Reconcilable(db: Db, key: Key) {
    key in db.workspaces && (db.workspaces[key].status.Provisioning? || db.workspaces[key].status.Failed?)
  }

  predicate Deletable(db: Db, key: Key) {
    && key in db.workspaces && db.workspaces[key].deployment.Some?
    && (db.workspaces[key].status.Ready? || db.workspaces[key].status.Deleting?)
  }

  function Put(db: Db, key: Key, row: Workspace): Db {
    db.(workspaces := db.workspaces[key := row])
  }

  /** The tenant's workspaces that count against its quota. */
  function Counted(db: Db, t: string): set<Key> {
    set k | k in db.workspaces && k.0 == t && !db.workspaces[k].status.Deleted?
  }

  /** The transaction of provisionWorkspace accepts this insert. */
  predicate MayProvision(db: Db, key: Key, storage: string) {
    && key.0 in db.tenants && db.tenants[key.0].active
    && |Counted(db, key.0)| < db.tenants[key.0].maxWorkspaces
    && key !in db.workspaces
    && forall k :: k in db.workspaces ==> db.workspaces[k].storage != storage
  }

  function Execute(db: Db, s: Step): Db {
    match s
    case InsertTenant(t, max) =>
      if t in db.tenants || !(1 <= max <= 10_000) then db
      else db.(tenants := db.tenants[t := Tenant(true, max)])
    case SuspendTenant(t) =>
      if t !in db.tenants || !db.tenants[t].active then db
      else db.(tenants := db.tenants[t := db.tenants[t].(active := false)],
               workspaces := map k | k in db.workspaces ::
                 var row := db.workspaces[k];
                 if k.0 == t && (row.status.Provisioning? || row.status.Ready? || row.status.Failed?)
                 then row.(status := Suspended) else row)
    case InsertProvisioning(key, storage) =>
      if MayProvision(db, key, storage)
      then Put(db, key, Workspace(Provisioning, storage, None, None, [])) else db
    case ProvisionReturned(key, answer) =>
      if key in db.workspaces && db.workspaces[key].status.Provisioning?
      then Put(db, key, Answered(db.workspaces[key], answer)) else db
    case ReconcileRead(call, key) =>
      if call !in db.calls && Reconcilable(db, key)
      then db.(calls := db.calls[call := InReconcile(key, false)]) else db
    case ReconcileMark(call, key) =>
      if IsAt(db, call, InReconcile(key, false)) && key in db.workspaces
      then Put(db, key, db.workspaces[key].(status := Provisioning)).(calls := db.calls[call := InReconcile(key, true)])
      else db
    case ReconcileReturned(call, key, answer) =>
      if IsAt(db, call, InReconcile(key, true)) && key in db.workspaces
      then Put(db, key, Answered(db.workspaces[key], answer)).(calls := db.calls - {call}) else db
    case SuspendWorkspace(key) =>
      if key in db.workspaces && db.workspaces[key].status.Ready?
      then Put(db, key, db.workspaces[key].(status := Suspended)) else db
    case RotateSecrets(key, secrets) =>
      if key in db.workspaces && db.workspaces[key].status.Ready? && 1 <= |secrets| <= 32
      then Put(db, key, db.workspaces[key].(secrets := secrets)) else db
    case RequestBackup(key) =>
      if key in db.workspaces && db.workspaces[key].status.Ready? && db.workspaces[key].deployment.Some?
      then db.(backups := db.backups + {key}) else db
    case Restore(key, answer) =>
      if key in db.backups && key in db.workspaces && Parses(answer)
      then Put(db, key, Readied(db.workspaces[key], answer)) else db
    case DeleteRead(call, key) =>
      if call !in db.calls && Deletable(db, key)
      then db.(calls := db.calls[call := InDeletion(key, db.workspaces[key].status.Deleting?)]) else db
    case DeleteMark(call, key) =>
      if !IsAt(db, call, InDeletion(key, false)) then db
      else
        var next := db.(calls := db.calls[call := InDeletion(key, true)]);
        if key in db.workspaces && db.workspaces[key].status.Ready?
        then Put(next, key, db.workspaces[key].(status := Deleting)) else next
    case DeleteFinish(call, key) =>
      if !IsAt(db, call, InDeletion(key, true)) then db
      else
        var next := db.(calls := db.calls - {call});
        if key in db.workspaces && db.workspaces[key].status.Deleting?
        then Put(next, key, Emptied(db.workspaces[key])) else next
  }

  function Exec(db: Db, steps: seq<Step>): Db {
    if steps == [] then db else Execute(Exec(db, steps[..|steps| - 1]), steps[|steps| - 1])
  }

  // ----- ready and deleted rows are well formed

  predicate WellFormedRow(w: Workspace) {
    && (w.status.Ready? ==> w.deployment.Some? && w.origin.Some? && w.secrets != [])
    && (w.status.Deleted? ==> w.deployment.None? && w.origin.None? && w.secrets == [])
  }

  ghost predicate WellFormed(db: Db) {
    forall k :: k in db.workspaces ==> WellFormedRow(db.workspaces[k])
  }

  /** Under every interleaving a ready workspace is fully described and a deleted one is empty. */
  lemma {:induction false} RunsAreWellFormed(steps: seq<Step>)
    ensures WellFormed(Exec(EMPTY, steps))
  {
    if steps != [] {
      RunsAreWellFormed(steps[..|steps| - 1]);
      StepKeepsWellFormed(Exec(EMPTY, steps[..|steps| - 1]), steps[|steps| - 1]);
    }
  }

  lemma StepKeepsWellFormed(db: Db, s: Step)
    requires WellFormed(db)
    ensures WellFormed(Execute(db, s))
  {
  }

  // ----- where a row's contents come from

  /** Statement i gave this answer for this workspace. */
  predicate AnsweredAt(steps: seq<Step>, i: nat, key: Key, a: Provisioned) {
    && i < |steps|
    && match steps[i]
       case ProvisionReturned(k, answer) => k == key && answer == Some(a)
       case ReconcileReturned(_, k, answer) => k == key && answer == Some(a)
       case Restore(k, answer) => k == key && answer == a
       case _ => false
  }

  /** The row describes the deployment of this answer. */
  predicate Holds(row: Workspace, a: Provisioned) {
    row.deployment == Some(a.deployment) && row.origin == Some(a.origin) && row.secrets == a.secrets
  }

  /** Deployment and origin are those of one answer; the secrets are its own or a later rotation's. */
  ghost predicate FromAnswer(steps: seq<Step>, key: Key, row: Workspace) {
    exists i, a :: AnsweredAt(steps, i, key, a)
      && row.deployment == Some(a.deployment) && row.origin == Some(a.origin)
      && (row.secrets == a.secrets || RotatedAfter(steps, i, key, row.secrets))
  }

  predicate RotatedAfter(steps: seq<Step>, i: nat, key: Key, secrets: seq<string>) {
    exists j :: i < j < |steps| && steps[j] == RotateSecrets(key, secrets)
  }

  /** The storage binding is the one of the insert. */
  predicate InsertedWith(steps: seq<Step>, key: Key, storage: string) {
    exists i :: 0 <= i < |steps| && steps[i] == InsertProvisioning(key, storage)
  }

  /** A row holds nothing of a deployment, or all of it from one answer. */
  ghost predicate Sourced(steps: seq<Step>, key: Key, row: Workspace) {
    && InsertedWith(steps, key, row.storage)
    && if row.deployment.None? then row.origin.None? && row.secrets == [] else FromAnswer(steps, key, row)
  }

  /** How one statement changes the contents of a row, besides its status. */
  lemma ContentsAfter(db: Db, s: Step, key: Key)
    requires key in Execute(db, s).workspaces
    ensures var row := Execute(db, s).workspaces[key];
      || (&& key in db.workspaces && row.storage == db.workspaces[key].storage
          && row.deployment == db.workspaces[key].deployment && row.origin == db.workspaces[key].origin
          && (row.secrets == db.workspaces[key].secrets || s == RotateSecrets(key, row.secrets)))
      || (s == InsertProvisioning(key, row.storage) && row.deployment.None? && row.origin.None? && row.secrets == [])
      || (key in db.workspaces && row.storage == db.workspaces[key].storage
          && row.deployment.None? && row.origin.None? && row.secrets == [])
      || (key in db.workspaces && row.storage == db.workspaces[key].storage
          && exists a :: AnsweredAt([s], 0, key, a) && Holds(row, a))
  {
    match s
    case ProvisionReturned(_, answer) => if answer.Some? { assert AnsweredAt([s], 0, s.key, answer.value); }
    case ReconcileReturned(_, _, answer) => if answer.Some? { assert AnsweredAt([s], 0, s.key, answer.value); }
    case Restore(_, answer) => assert AnsweredAt([s], 0, s.key, answer);
    case _ =>
  }

  /** Nothing is rotated before there is something to rotate. */
  lemma RotationNeedsADeployment(db: Db, s: Step, key: Key)
    requires WellFormed(db) && key in db.workspaces && db.workspaces[key].deployment.None?
    requires s.RotateSecrets? && s.key == key
    ensures Execute(db, s) == db
  {
  }

  lemma LongerRunSources(steps: seq<Step>, s: Step, key: Key, row: Workspace)
    requires Sourced(steps, key, row)
    ensures Sourced(steps + [s], key, row)
  {
    var longer := steps + [s];
    var i :| 0 <= i < |steps| && steps[i] == InsertProvisioning(key, row.storage);
    assert longer[i] == steps[i];
    if row.deployment.Some? {
      LongerRunAnswers(steps, s, key, row);
    }
  }

  lemma LongerRunAnswers(steps: seq<Step>, s: Step, key: Key, row: Workspace)
    requires FromAnswer(steps, key, row)
    ensures FromAnswer(steps + [s], key, row)
  {
    var longer := steps + [s];
    var i: nat, a :| AnsweredAt(steps, i, key, a)
      && row.deployment == Some(a.deployment) && row.origin == Some(a.origin)
      && (row.secrets == a.secrets || RotatedAfter(steps, i, key, row.secrets));
    assert longer[i] == steps[i] && AnsweredAt(longer, i, key, a);
    if RotatedAfter(steps, i, key, row.secrets) {
      var j :| i < j < |steps| && steps[j] == RotateSecrets(key, row.secrets);
      assert longer[j] == steps[j];
    }
  }

  lemma RotatedRowIsSourced(steps: seq<Step>, key: Key, before: Workspace, row: Workspace)
    requires Sourced(steps, key, before) && before.deployment.Some?
    requires row.storage == before.storage && row.deployment == before.deployment && row.origin == before.origin
    ensures Sourced(steps + [RotateSecrets(key, row.secrets)], key, row)
  {
    var longer := steps + [RotateSecrets(key, row.secrets)];
    LongerRunSources(steps, RotateSecrets(key, row.secrets), key, before);
    var i: nat, a :| AnsweredAt(steps, i, key, a)
      && before.deployment == Some(a.deployment) && before.origin == Some(a.origin)
      && (before.secrets == a.secrets || RotatedAfter(steps, i, key, before.secrets));
    assert longer[i] == steps[i] && AnsweredAt(longer, i, key, a);
    assert longer[|steps|] == RotateSecrets(key, row.secrets) && RotatedAfter(longer, i, key, row.secrets);
  }

  lemma AnsweredRowIsSourced(steps: seq<Step>, s: Step, key: Key, before: Workspace, row: Workspace, a: Provisioned)
    requires Sourced(steps, key, before) && row.storage == before.storage && AnsweredAt([s], 0, key, a)
    requires row.deployment == Some(a.deployment) && row.origin == Some(a.origin) && row.secrets == a.secrets
    ensures Sourced(steps + [s], key, row)
  {
    LongerRunSources(steps, s, key, before);
    assert (steps + [s])[|steps|] == s && AnsweredAt(steps + [s], |steps|, key, a);
  }

  lemma StepKeepsSourced(steps: seq<Step>, s: Step, db: Db, key: Key)
    requires WellFormed(db) && key in Execute(db, s).workspaces
    requires key in db.workspaces ==> Sourced(steps, key, db.workspaces[key])
    ensures Sourced(steps + [s], key, Execute(db, s).workspaces[key])
  {
    var row := Execute(db, s).workspaces[key];
    ContentsAfter(db, s, key);
    if key !in db.workspaces {
      assert (steps + [s])[|steps|] == InsertProvisioning(key, row.storage);
    } else {
      var before := db.workspaces[key];
      LongerRunSources(steps, s, key, before);
      if a :| AnsweredAt([s], 0, key, a) && Holds(row, a) && row.storage == before.storage {
        AnsweredRowIsSourced(steps, s, key, before, row, a);
      } else if row.deployment.Some? && row.secrets != before.secrets {
        RotatedRowIsSourced(steps, key, before, row);
      } else if row.secrets != before.secrets && before.deployment.None? {
        RotationNeedsADeployment(db, s, key);
      }
    }
  }

  /**
   * In every run a row's deployment and origin are those of one answer given for
   * that workspace, its secrets are that answer's or a later rotation's, and its
   * storage binding is that of its insert; or it holds no deployment at all.
   */
  lemma {:induction false} RowsComeFromAnswers(steps: seq<Step>, key: Key)
    requires key in Exec(EMPTY, steps).workspaces
    ensures Sourced(steps, key, Exec(EMPTY, steps).workspaces[key])
  {
    var front, s := steps[..|steps| - 1], steps[|steps| - 1];
    if key in Exec(EMPTY, front).workspaces {
      RowsComeFromAnswers(front, key);
    }
    RunsAreWellFormed(front);
    StepKeepsSourced(front, s, Exec(EMPTY, front), key);
    assert front + [s] == steps;
  }

  // ----- calls, tenants and backups come from their statements

  /** Statement i opened this call by reading a row that it accepts. */
  predicate OpenedAt(steps: seq<Step>, i: nat, call: nat, key: Key, deletion: bool) {
    && i < |steps| && steps[i] == (if deletion then DeleteRead(call, key) else ReconcileRead(call, key))
    && var db := Exec(EMPTY, steps[..i]);
       && call !in db.calls && key in db.workspaces
       && (if deletion then db.workspaces[key].deployment.Some? && db.workspaces[key].status in {Ready, Deleting}
           else db.workspaces[key].status in {Provisioning, Failed})
  }

  /** Its first write is behind a call: the mark came since, or it read a row already marked. */
  predicate MarkedSince(steps: seq<Step>, i: nat, call: nat, key: Key, deletion: bool)
    requires OpenedAt(steps, i, call, key, deletion)
  {
    if deletion
    then DeleteMark(call, key) in steps[i + 1..] || Exec(EMPTY, steps[..i]).workspaces[key].status.Deleting?
    else ReconcileMark(call, key) in steps[i + 1..]
  }

  lemma StageAfter(db: Db, s: Step, call: nat)
    requires call in Execute(db, s).calls
    ensures var stage := Execute(db, s).calls[call];
      if call in db.calls
      then
        var was := db.calls[call];
        var marks :=
          s == if was.InDeletion? then DeleteMark(call, was.key) else ReconcileMark(call, was.key);
        stage == was || (marks && stage == was.(marked := true))
      else
        && stage.key in db.workspaces
        && if stage.InDeletion?
           then
             && s == DeleteRead(call, stage.key) && db.workspaces[stage.key].deployment.Some?
             && db.workspaces[stage.key].status in {Ready, Deleting}
             && stage.marked == db.workspaces[stage.key].status.Deleting?
           else
             && s == ReconcileRead(call, stage.key)
             && db.workspaces[stage.key].status in {Provisioning, Failed} && !stage.marked
  {
  }

  lemma MarkIsTaken(db: Db, s: Step, call: nat)
    requires call in Execute(db, s).calls && call in db.calls && db.calls[call].key in db.workspaces
    requires if db.calls[call].InDeletion? then s == DeleteMark(call, db.calls[call].key)
             else s == ReconcileMark(call, db.calls[call].key)
    ensures Execute(db, s).calls[call].marked
  {
  }

  lemma RowStays(db: Db, s: Step, key: Key)
    requires key in db.workspaces
    ensures key in Execute(db, s).workspaces
  {
  }

  /**
   * In every run a call under way began by reading a row that it accepts, under
   * an id that was free, and is marked exactly when its mark came since or the
   * row it read was being deleted already.
   */
  lemma {:induction false} CallsComeFromReads(steps: seq<Step>, call: nat) returns (i: nat)
    requires call in Exec(EMPTY, steps).calls
    ensures var stage := Exec(EMPTY, steps).calls[call];
      && OpenedAt(steps, i, call, stage.key, stage.InDeletion?)
      && (stage.marked <==> MarkedSince(steps, i, call, stage.key, stage.InDeletion?))
      && stage.key in Exec(EMPTY, steps).workspaces
  {
    var n := |steps| - 1;
    var db, s := Exec(EMPTY, steps[..n]), steps[n];
    StageAfter(db, s, call);
    if call in db.calls {
      i := CallsComeFromReads(steps[..n], call);
      var key := db.calls[call].key;
      RowStays(db, s, key);
      assert steps[..n][..i] == steps[..i] && steps[i + 1..] == steps[..n][i + 1..] + [s];
      if s == DeleteMark(call, key) || s == ReconcileMark(call, key) {
        if (if db.calls[call].InDeletion? then s == DeleteMark(call, key) else s == ReconcileMark(call, key)) {
          MarkIsTaken(db, s, call);
        }
      }
    } else {
      i := n;
      RowStays(db, s, Execute(db, s).calls[call].key);
    }
  }

  /** So an answer or a deletion reaches a row only after the read and the mark of its own call. */
  lemma WritesFollowTheirCall(steps: seq<Step>, s: Step) returns (i: nat)
    requires s.ReconcileReturned? || s.DeleteFinish?
    requires Exec(EMPTY, steps + [s]) != Exec(EMPTY, steps)
    ensures OpenedAt(steps, i, s.call, s.key, s.DeleteFinish?)
    ensures MarkedSince(steps, i, s.call, s.key, s.DeleteFinish?)
  {
    ExecOne(EMPTY, steps, s);
    i := CallsComeFromReads(steps, s.call);
  }

  predicate TenantInsertedAt(steps: seq<Step>, i: nat, t: string) {
    i < |steps| && steps[i].InsertTenant? && steps[i].t == t && 1 <= steps[i].quota <= 10_000
  }

  lemma TenantAfter(db: Db, s: Step, t: string)
    ensures t in Execute(db, s).tenants <==> t in db.tenants || TenantInsertedAt([s], 0, t)
    ensures t in Execute(db, s).tenants ==>
      Execute(db, s).tenants[t].maxWorkspaces == if t in db.tenants then db.tenants[t].maxWorkspaces else s.quota
  {
  }

  /** A tenant exists exactly when it was inserted with an allowed quota, and it keeps such a quota. */
  lemma {:induction false} TenantsComeFromInserts(steps: seq<Step>, t: string)
    ensures t in Exec(EMPTY, steps).tenants <==> exists i :: TenantInsertedAt(steps, i, t)
    ensures t in Exec(EMPTY, steps).tenants ==>
      exists i: nat :: TenantInsertedAt(steps, i, t) && steps[i].quota == Exec(EMPTY, steps).tenants[t].maxWorkspaces
  {
    if steps != [] {
      var n := |steps| - 1;
      var front := steps[..n];
      TenantsComeFromInserts(front, t);
      TenantAfter(Exec(EMPTY, front), steps[n], t);
      if t in Exec(EMPTY, front).tenants {
        var i: nat :| TenantInsertedAt(front, i, t) && front[i].quota == Exec(EMPTY, front).tenants[t].maxWorkspaces;
        assert steps[i] == front[i] && TenantInsertedAt(steps, i, t);
      } else if TenantInsertedAt([steps[n]], 0, t) {
        assert TenantInsertedAt(steps, n, t);
      } else if i :| TenantInsertedAt(steps, i, t) {
        assert TenantInsertedAt(front, i, t);
      }
    }
  }

  predicate BackedUpAt(steps: seq<Step>, i: nat, key: Key) {
    && i < |steps| && steps[i] == RequestBackup(key)
    && var db := Exec(EMPTY, steps[..i]); key in db.workspaces && db.workspaces[key].status.Ready?
  }

  lemma BackupAfter(db: Db, s: Step, key: Key)
    requires WellFormed(db)
    ensures key in Execute(db, s).backups <==>
      || key in db.backups
      || (s == RequestBackup(key) && key in db.workspaces && db.workspaces[key].status.Ready?)
  {
    assert key in db.workspaces ==> WellFormedRow(db.workspaces[key]);
  }

  lemma BackedUpSoFar(steps: seq<Step>, i: nat, key: Key)
    requires i < |steps| - 1
    ensures BackedUpAt(steps[..|steps| - 1], i, key) <==> BackedUpAt(steps, i, key)
  {
    assert steps[..|steps| - 1][..i] == steps[..i];
  }

  /** A workspace is restorable exactly when a backup was requested while it was ready. */
  lemma {:induction false} BackupsComeFromRequests(steps: seq<Step>, key: Key)
    ensures key in Exec(EMPTY, steps).backups <==> exists i :: BackedUpAt(steps, i, key)
  {
    if steps != [] {
      var n := |steps| - 1;
      var front := steps[..n];
      RunsAreWellFormed(front);
      BackupsComeFromRequests(front, key);
      BackupAfter(Exec(EMPTY, front), steps[n], key);
      if key in Exec(EMPTY, front).backups {
        var i :| BackedUpAt(front, i, key);
        BackedUpSoFar(steps, i, key);
      } else if key in Exec(EMPTY, steps).backups {
        assert BackedUpAt(steps, n, key);
      } else if i: nat :| BackedUpAt(steps, i, key) && i < n {
        BackedUpSoFar(steps, i, key);
      }
    }
  }

  /** A rotation replaces the secrets of a ready row by any 1 to 32 others, and does nothing else. */
  lemma RotationExactly(db: Db, key: Key, secrets: seq<string>)
    requires key in db.workspaces
    ensures var db', row := Execute(db, RotateSecrets(key, secrets)), db.workspaces[key];
      var taken := row.status.Ready? && 0 < |secrets| < 33;
      && db' == db.(workspaces := db'.workspaces) && db'.workspaces.Keys == db.workspaces.Keys
      && db'.workspaces[key].secrets == (if taken then secrets else row.secrets)
      && db'.workspaces[key] == row.(secrets := db'.workspaces[key].secrets)
      && forall k :: k in db.workspaces && k != key ==> db'.workspaces[k] == db.workspaces[k]
  {
  }

  // ----- suspensions

  /**
   * Suspending a tenant suspends exactly its provisioning, ready and failed
   * workspaces and changes nothing else in any row.
   */
  lemma TenantSuspensionExactly(db: Db, t: string, key: Key)
    requires t in db.tenants && db.tenants[t].active && key in db.workspaces
    ensures var db' := Execute(db, SuspendTenant(t));
      && !db'.tenants[t].active && key in db'.workspaces
      && db'.workspaces[key] == db.workspaces[key].(status := db'.workspaces[key].status)
      && db'.workspaces[key].status ==
           if key.0 == t && db.workspaces[key].status in {Provisioning, Ready, Failed} then Suspended
           else db.workspaces[key].status
  {
  }

  /** The unguarded writes: they replace the status whatever it is. */
  predicate Overwrites(db: Db, s: Step, key: Key) {
    match s
    case ReconcileMark(call, k) => k == key && IsAt(db, call, InReconcile(key, false))
    case ReconcileReturned(call, k, _) => k == key && IsAt(db, call, InReconcile(key, true))
    case Restore(k, answer) => k == key && key in db.backups && Parses(answer)
    case _ => false
  }

  predicate IsSuspended(db: Db, key: Key) {
    key in db.workspaces && db.workspaces[key].status.Suspended?
  }

  /** One statement lifts a suspension exactly when it is an unguarded write to that workspace. */
  lemma SuspensionLiftedExactly(db: Db, s: Step, key: Key)
    requires IsSuspended(db, key)
    ensures !IsSuspended(Execute(db, s), key) <==> Overwrites(db, s, key)
  {
  }

  predicate OverwrittenIn(db: Db, steps: seq<Step>, key: Key) {
    steps != [] &&
    var front := steps[..|steps| - 1];
    OverwrittenIn(db, front, key) || Overwrites(Exec(db, front), steps[|steps| - 1], key)
  }

  /**
   * A suspension that overtakes provisionWorkspace stays: the guarded updates
   * of provisioning, rotation, suspension and deletion never lift it.
   */
  lemma {:induction false} SuspensionStays(db: Db, steps: seq<Step>, key: Key)
    requires IsSuspended(db, key) && !OverwrittenIn(db, steps, key)
    ensures IsSuspended(Exec(db, steps), key)
    ensures Exec(db, steps).workspaces[key] == db.workspaces[key]
  {
    if steps != [] {
      SuspensionStays(db, steps[..|steps| - 1], key);
      SuspendedRowStays(Exec(db, steps[..|steps| - 1]), steps[|steps| - 1], key);
    }
  }

  lemma SuspendedRowStays(db: Db, s: Step, key: Key)
    requires IsSuspended(db, key) && !Overwrites(db, s, key)
    ensures key in Execute(db, s).workspaces && Execute(db, s).workspaces[key] == db.workspaces[key]
  {
  }

  lemma {:induction false} ExecOne(db: Db, steps: seq<Step>, s: Step)
    ensures Exec(db, steps + [s]) == Execute(Exec(db, steps), s)
  {
    assert (steps + [s])[..|steps|] == steps;
  }

  const ANSWER := Provisioned("deployment", "https://origin/", ["secret"])

  /** A tenant with room for one workspace starts provisioning it. */
  lemma FirstInsert(k: Key) returns (steps: seq<Step>)
    requires k.0 == "t"
    ensures Exec(EMPTY, steps) ==
      Db(map["t" := Tenant(true, 1)], map[k := Workspace(Provisioning, "s1", None, None, [])], map[], {})
  {
    var a := [InsertTenant("t", 1)];
    assert a[..0] == [] && Exec(EMPTY, a) == Execute(EMPTY, a[0]);
    assert Counted(Exec(EMPTY, a), "t") == {};
    steps := a + [InsertProvisioning(k, "s1")];
    ExecOne(EMPTY, a, InsertProvisioning(k, "s1"));
  }

  /** A run of real calls in which a reconcile brings a suspended tenant's workspace back to ready. */
  lemma ReconcileCanLiftASuspension() returns (steps: seq<Step>)
    ensures var db := Exec(EMPTY, steps);
      && ("t", "w") in db.workspaces && db.workspaces[("t", "w")].status.Ready?
      && "t" in db.tenants && !db.tenants["t"].active
  {
    var key := ("t", "w");
    var c := ReconcileUnderWay(key);
    var d := c + [SuspendTenant("t")];
    steps := d + [ReconcileReturned(0, key, Some(ANSWER))];
    ExecOne(EMPTY, c, SuspendTenant("t"));
    ExecOne(EMPTY, d, ReconcileReturned(0, key, Some(ANSWER)));
  }

  /** A reconcile that has read and marked its row and waits for the provisioner. */
  lemma ReconcileUnderWay(k: Key) returns (steps: seq<Step>)
    requires k.0 == "t"
    ensures Exec(EMPTY, steps) ==
      Db(map["t" := Tenant(true, 1)], map[k := Workspace(Provisioning, "s1", None, None, [])],
         map[0 := InReconcile(k, true)], {})
  {
    var a := FirstInsert(k);
    var b := a + [ReconcileRead(0, k)];
    steps := b + [ReconcileMark(0, k)];
    ExecOne(EMPTY, a, ReconcileRead(0, k));
    ExecOne(EMPTY, b, ReconcileMark(0, k));
  }

  // ----- the quota

  ghost predicate WithinQuota(db: Db) {
    && (forall k :: k in db.workspaces ==> k.0 in db.tenants)
    && (forall t :: t in db.tenants ==> |Counted(db, t)| <= db.tenants[t].maxWorkspaces)
  }

  /** An unguarded write that brings a deleted workspace back. */
  predicate Revives(db: Db, s: Step, key: Key) {
    Overwrites(db, s, key) && key in db.workspaces && db.workspaces[key].status.Deleted?
  }

  function KeyOf(s: Step): Key {
    match s
    case InsertTenant(t, _) => (t, "")
    case SuspendTenant(t) => (t, "")
    case _ => s.key
  }

  /** What one statement may do to the counted workspaces of a tenant. */
  ghost predicate CountChanges(db: Db, db': Db, s: Step, t: string) {
    var before, after := Counted(db, t), Counted(db', t);
    if KeyOf(s).0 == t && Revives(db, s, KeyOf(s)) then KeyOf(s) !in before && after == before + {KeyOf(s)}
    else if s.InsertProvisioning? && s.key.0 == t && MayProvision(db, s.key, s.storage) then
      after == before + {s.key}
    else after <= before
  }

  lemma CountPut(db: Db, db': Db, key: Key, t: string)
    requires key in db'.workspaces && db'.workspaces == db.workspaces[key := db'.workspaces[key]]
    ensures Counted(db', t) ==
      if key.0 == t && !db'.workspaces[key].status.Deleted? then Counted(db, t) + {key} else Counted(db, t) - {key}
  {
  }

  predicate IsCounted(db: Db, key: Key) {
    key in db.workspaces && !db.workspaces[key].status.Deleted?
  }

  /** A statement about one workspace changes no other row and removes none. */
  lemma OneRowChanges(db: Db, s: Step)
    requires !s.InsertTenant? && !s.SuspendTenant?
    ensures var db' := Execute(db, s);
      && (s.key in db.workspaces ==> s.key in db'.workspaces)
      && (if s.key in db'.workspaces then db'.workspaces == db.workspaces[s.key := db'.workspaces[s.key]]
          else db'.workspaces == db.workspaces)
  {
  }

  /** A workspace comes to be counted only by an insert or by a revival. */
  lemma NewlyCounted(db: Db, s: Step)
    requires !s.InsertTenant? && !s.SuspendTenant?
    ensures s.InsertProvisioning? && MayProvision(db, s.key, s.storage) ==> IsCounted(Execute(db, s), s.key)
    ensures Revives(db, s, s.key) ==> IsCounted(Execute(db, s), s.key)
    ensures IsCounted(Execute(db, s), s.key) ==>
      || IsCounted(db, s.key)
      || Revives(db, s, s.key)
      || (s.InsertProvisioning? && MayProvision(db, s.key, s.storage))
  {
  }

  lemma CountAfter(db: Db, s: Step, t: string)
    ensures CountChanges(db, Execute(db, s), s, t)
  {
    var db' := Execute(db, s);
    if s.InsertTenant? || s.SuspendTenant? {
      assert Counted(db', t) == Counted(db, t);
    } else {
      OneRowChanges(db, s);
      NewlyCounted(db, s);
      CountFromRows(db, db', s, t);
    }
  }

  lemma CountFromRows(db: Db, db': Db, s: Step, t: string)
    requires !s.InsertTenant? && !s.SuspendTenant?
    requires s.key in db.workspaces ==> s.key in db'.workspaces
    requires if s.key in db'.workspaces then db'.workspaces == db.workspaces[s.key := db'.workspaces[s.key]]
      else db'.workspaces == db.workspaces
    requires s.InsertProvisioning? && MayProvision(db, s.key, s.storage) ==> IsCounted(db', s.key)
    requires Revives(db, s, s.key) ==> IsCounted(db', s.key)
    requires IsCounted(db', s.key) ==>
      || IsCounted(db, s.key)
      || Revives(db, s, s.key)
      || (s.InsertProvisioning? && MayProvision(db, s.key, s.storage))
    ensures CountChanges(db, db', s, t)
  {
    if s.key in db'.workspaces {
      CountPut(db, db', s.key, t);
    }
  }

  /** Tenants are never dropped, their quotas never change, and workspaces belong to known tenants. */
  ghost predicate TenantsKept(db: Db, db': Db) {
    && (forall t :: t in db.tenants ==> t in db'.tenants && db'.tenants[t].maxWorkspaces == db.tenants[t].maxWorkspaces)
    && (forall k :: k in db'.workspaces ==> k in db.workspaces || k.0 in db.tenants)
  }

  lemma TenantsAfter(db: Db, s: Step)
    ensures TenantsKept(db, Execute(db, s))
  {
  }

  lemma TenantQuota(db: Db, db': Db, s: Step, t: string)
    requires WithinQuota(db) && TenantsKept(db, db') && CountChanges(db, db', s, t) && t in db'.tenants
    ensures |Counted(db', t)| <= db'.tenants[t].maxWorkspaces <==>
      !(t == KeyOf(s).0 && Revives(db, s, KeyOf(s)) && |Counted(db, t)| == db.tenants[t].maxWorkspaces)
  {
    var before, after := Counted(db, t), Counted(db', t);
    if t !in db.tenants {
      assert before == {} && after == {};
    } else if after <= before {
      SubsetSize(after, before);
    }
  }

  /**
   * Starting within quota, a statement stays within quota unless it revives a
   * deleted workspace of a tenant that is already full.
   */
  lemma QuotaKeptExactly(db: Db, s: Step)
    requires WithinQuota(db)
    ensures WithinQuota(Execute(db, s)) <==>
      !(Revives(db, s, KeyOf(s)) && |Counted(db, KeyOf(s).0)| == db.tenants[KeyOf(s).0].maxWorkspaces)
  {
    TenantsAfter(db, s);
    forall t ensures CountChanges(db, Execute(db, s), s, t) { CountAfter(db, s, t); }
    QuotaFromCounts(db, Execute(db, s), s);
  }

  lemma QuotaFromCounts(db: Db, db': Db, s: Step)
    requires WithinQuota(db) && TenantsKept(db, db')
    requires forall t :: CountChanges(db, db', s, t)
    ensures WithinQuota(db') <==>
      !(Revives(db, s, KeyOf(s)) && |Counted(db, KeyOf(s).0)| == db.tenants[KeyOf(s).0].maxWorkspaces)
  {
    forall t | t in db'.tenants
      ensures |Counted(db', t)| <= db'.tenants[t].maxWorkspaces <==>
        !(t == KeyOf(s).0 && Revives(db, s, KeyOf(s)) && |Counted(db, t)| == db.tenants[t].maxWorkspaces)
    {
      TenantQuota(db, db', s, t);
    }
  }

  predicate RevivedIn(db: Db, steps: seq<Step>) {
    steps != [] &&
    var front := steps[..|steps| - 1];
    RevivedIn(db, front) || Revives(Exec(db, front), steps[|steps| - 1], KeyOf(steps[|steps| - 1]))
  }

  /** Runs in which no unguarded write lands on a deleted workspace stay within every quota. */
  lemma {:induction false} RunsStayWithinQuota(steps: seq<Step>)
    requires !RevivedIn(EMPTY, steps)
    ensures WithinQuota(Exec(EMPTY, steps))
  {
    if steps != [] {
      RunsStayWithinQuota(steps[..|steps| - 1]);
      QuotaKeptExactly(Exec(EMPTY, steps[..|steps| - 1]), steps[|steps| - 1]);
    }
  }

  // ----- calls served without interruption

  datatype Call =
    | Reconcile(call: nat, key: Key, answer: Option<Provisioned>)
    | Delete(call: nat, key: Key)
    | Single(step: Step)

  /** A call stops at its read when the workspace is not in a state it accepts. */
  function Serve(db: Db, c: Call): Db {
    match c
    case Reconcile(call, key, answer) =>
      if !Reconcilable(db, key) then db
      else
        var marked := Execute(Execute(db, ReconcileRead(call, key)), ReconcileMark(call, key));
        Execute(marked, ReconcileReturned(call, key, answer))
    case Delete(call, key) =>
      if !Deletable(db, key) then db
      else Execute(Execute(Execute(db, DeleteRead(call, key)), DeleteMark(call, key)), DeleteFinish(call, key))
    case Single(step) => Execute(db, step)
  }

  /** A call under an id of its own, and not a restore of a deleted workspace. */
  predicate Harmless(db: Db, c: Call) {
    match c
    case Reconcile(call, _, _) => call !in db.calls
    case Delete(call, _) => call !in db.calls
    case Single(step) =>
      && !step.ReconcileRead? && !step.ReconcileMark? && !step.ReconcileReturned?
      && (step.Restore? ==> !(step.key in db.workspaces && db.workspaces[step.key].status.Deleted?))
  }

  function ServeAll(calls: seq<Call>): Db {
    if calls == [] then EMPTY else Serve(ServeAll(calls[..|calls| - 1]), calls[|calls| - 1])
  }

  predicate AllHarmless(calls: seq<Call>) {
    calls == [] ||
    (AllHarmless(calls[..|calls| - 1]) && Harmless(ServeAll(calls[..|calls| - 1]), calls[|calls| - 1]))
  }

  lemma PutKeepsQuota(db: Db, key: Key, row: Workspace)
    requires WithinQuota(db) && IsCounted(db, key)
    ensures WithinQuota(Put(db, key, row))
  {
    forall t | t in db.tenants ensures |Counted(Put(db, key, row), t)| <= db.tenants[t].maxWorkspaces {
      CountPut(db, Put(db, key, row), key, t);
      assert Counted(Put(db, key, row), t) <= Counted(db, t);
      SubsetSize(Counted(Put(db, key, row), t), Counted(db, t));
    }
  }

  lemma ReconcileKeepsQuota(db: Db, call: nat, key: Key, answer: Option<Provisioned>)
    requires WithinQuota(db) && call !in db.calls
    ensures WithinQuota(Serve(db, Reconcile(call, key, answer)))
  {
    if Reconcilable(db, key) {
      ReconcileResult(db, call, key, answer);
      PutKeepsQuota(db, key, Answered(db.workspaces[key].(status := Provisioning), answer));
    }
  }

  lemma DeleteKeepsQuota(db: Db, call: nat, key: Key)
    requires WithinQuota(db)
    ensures WithinQuota(Serve(db, Delete(call, key)))
  {
    if Deletable(db, key) {
      var read := Execute(db, DeleteRead(call, key));
      QuotaKeptExactly(db, DeleteRead(call, key));
      QuotaKeptExactly(read, DeleteMark(call, key));
      QuotaKeptExactly(Execute(read, DeleteMark(call, key)), DeleteFinish(call, key));
    }
  }

  /**
   * When reconcile and delete are served whole and no deleted workspace is
   * restored, every run stays within every quota.
   */
  lemma {:induction false} AtomicCallsStayWithinQuota(calls: seq<Call>)
    requires AllHarmless(calls)
    ensures WithinQuota(ServeAll(calls))
  {
    if calls != [] {
      var front, c := calls[..|calls| - 1], calls[|calls| - 1];
      AtomicCallsStayWithinQuota(front);
      match c
      case Reconcile(call, key, answer) => ReconcileKeepsQuota(ServeAll(front), call, key, answer);
      case Delete(call, key) => DeleteKeepsQuota(ServeAll(front), call, key);
      case Single(step) => QuotaKeptExactly(ServeAll(front), step);
    }
  }

  lemma ReconcileResult(db: Db, call: nat, key: Key, answer: Option<Provisioned>)
    requires Reconcilable(db, key) && call !in db.calls
    ensures Serve(db, Reconcile(call, key, answer)) ==
      Put(db, key, Answered(db.workspaces[key].(status := Provisioning), answer))
  {
    var read := Execute(db, ReconcileRead(call, key));
    var marked := Execute(read, ReconcileMark(call, key));
    assert marked == Put(db, key, db.workspaces[key].(status := Provisioning)).(
      calls := db.calls[call := InReconcile(key, true)]);
    assert marked.calls - {call} == db.calls;
  }

  class WorkspacePlane {
    var db: Db

    constructor ()
      ensures db == EMPTY
    {
      db := EMPTY;
    }

    /** A ready workspace is returned as it is; a failed one is provisioned again. */
    method ReconcileWorkspace(call: nat, key: Key, answer: Option<Provisioned>) returns (r: Option<Workspace>)
      requires call !in db.calls
      modifies this
      ensures db == Serve(old(db), Reconcile(call, key, answer))
      ensures r.Some? <==>
        key in old(db).workspaces && old(db).workspaces[key].status in {Ready, Provisioning, Failed}
      ensures r.Some? && old(db).workspaces[key].status.Ready? ==>
        db == old(db) && r.value == old(db).workspaces[key]
      ensures r.Some? && !old(db).workspaces[key].status.Ready? ==>
        && db == old(db).(workspaces := old(db).workspaces[key := r.value])
        && r.value.storage == old(db).workspaces[key].storage
        && if answer.Some? && answer.value.deployment != "" && answer.value.origin != ""
             && 1 <= |answer.value.secrets| <= 32
           then r.value.status.Ready? && Holds(r.value, answer.value)
           else r.value == old(db).workspaces[key].(status := Failed)
      ensures r.None? ==> db == old(db)
      ensures old(WithinQuota(db)) ==> WithinQuota(db)
    {
      if key !in db.workspaces { return None; }
      if db.workspaces[key].status.Ready? { return Some(db.workspaces[key]); }
      if !Reconcilable(db, key) { return None; }
      if old(WithinQuota(db)) {
        ReconcileKeepsQuota(db, call, key, answer);
      }
      ReconcileResult(db, call, key, answer);
      db := Execute(db, ReconcileRead(call, key));
      db := Execute(db, ReconcileMark(call, key));
      db := Execute(db, ReconcileReturned(call, key, answer));
      return Some(db.workspaces[key]);
    }

    /** A deleted workspace keeps its row, empty, and frees its place in the quota. */
    method DeleteWorkspace(call: nat, key: Key, confirmed: bool) returns (deleted: bool)
      requires call !in db.calls
      modifies this
      ensures deleted <==>
        && confirmed && key in old(db).workspaces && old(db).workspaces[key].deployment.Some?
        && old(db).workspaces[key].status in {Ready, Deleting}
      ensures !deleted ==> db == old(db)
      ensures deleted ==>
        var emptied := Workspace(Deleted, old(db).workspaces[key].storage, None, None, []);
        && db == Serve(old(db), Delete(call, key))
        && db == old(db).(workspaces := old(db).workspaces[key := emptied])
      ensures deleted ==> Counted(db, key.0) == Counted(old(db), key.0) - {key}
    {
      if !confirmed || !Deletable(db, key) { return false; }
      db := Execute(db, DeleteRead(call, key));
      db := Execute(db, DeleteMark(call, key));
      db := Execute(db, DeleteFinish(call, key));
      return true;
    }
  }

  /** Provision and back up the only workspace. */
  lemma ReadyWithABackup(k: Key) returns (steps: seq<Step>)
    requires k.0 == "t"
    ensures Exec(EMPTY, steps) ==
      Db(map["t" := Tenant(true, 1)], map[k := Readied(Workspace(Provisioning, "s1", None, None, []), ANSWER)],
         map[], {k})
  {
    var b := FirstInsert(k);
    var c := b + [ProvisionReturned(k, Some(ANSWER))];
    steps := c + [RequestBackup(k)];
    ExecOne(EMPTY, b, ProvisionReturned(k, Some(ANSWER)));
    ExecOne(EMPTY, c, RequestBackup(k));
  }

  /** Then delete it. */
  lemma DeletedWithABackup(k: Key) returns (steps: seq<Step>)
    requires k.0 == "t"
    ensures Exec(EMPTY, steps) ==
      Db(map["t" := Tenant(true, 1)], map[k := Workspace(Deleted, "s1", None, None, [])], map[], {k})
  {
    var d := ReadyWithABackup(k);
    var e := d + [DeleteRead(0, k)];
    var f := e + [DeleteMark(0, k)];
    steps := f + [DeleteFinish(0, k)];
    ExecOne(EMPTY, d, DeleteRead(0, k));
    ExecOne(EMPTY, e, DeleteMark(0, k));
    ExecOne(EMPTY, f, DeleteFinish(0, k));
  }

  /** Then use the freed quota for another one. */
  lemma ReplacedAfterDeletion(k1: Key, k2: Key) returns (steps: seq<Step>)
    requires k1.0 == "t" && k2.0 == "t" && k1 != k2
    ensures Exec(EMPTY, steps) ==
      Db(map["t" := Tenant(true, 1)],
         map[k1 := Workspace(Deleted, "s1", None, None, []), k2 := Workspace(Provisioning, "s2", None, None, [])],
         map[], {k1})
  {
    var g := DeletedWithABackup(k1);
    assert Counted(Exec(EMPTY, g), "t") == {};
    steps := g + [InsertProvisioning(k2, "s2")];
    ExecOne(EMPTY, g, InsertProvisioning(k2, "s2"));
  }

  /** A run of real calls that ends over quota because a deleted workspace was restored. */
  lemma RestoreCanExceedTheQuota() returns (steps: seq<Step>)
    ensures !WithinQuota(Exec(EMPTY, steps))
  {
    var k1, k2 := ("t", "one"), ("t", "two");
    var h := ReplacedAfterDeletion(k1, k2);
    steps := h + [Restore(k1, ANSWER)];
    ExecOne(EMPTY, h, Restore(k1, ANSWER));
    assert Counted(Exec(EMPTY, steps), "t") == {k1, k2};
  }
}
