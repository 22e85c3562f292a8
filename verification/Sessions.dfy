/**
 * Human sessions of the cloud control plane and their revocation
 * (packages/tasq-cloud-control-plane/src/index.ts:658-709, 1028-1274).
 *
 * Every SQL statement outside a transaction is its own step, so issue,
 * recovery and device revocation interleave freely.
 */
module Sessions {
  import opened Common

  datatype TenantStatus = TenantActive | TenantSuspended

  datatype Tenant = Tenant(status: TenantStatus, epoch: nat)

  datatype Kind = Human | Workload | Support

  datatype Principal = Principal(kind: Kind, issuer: string, subject: string, active: bool, recovery: nat)

  datatype Device = Device(principal: string, active: bool, revision: nat)

  /** The row issueHumanSession reads before it inserts: who, and under which epochs. */
  datatype Identity = Identity(tenant: string, principal: string, device: string, epoch: nat, recovery: nat)

  datatype Session = Session(who: Identity, csrf: string, expiresAt: int, revoked: bool)

  /** `pending` keeps every identity read so far; any of them may still be inserted. */
  datatype Db = Db(
    tenants: map<string, Tenant>,
    principals: map<(string, string), Principal>,
    devices: map<(string, string), Device>,
    sessions: map<string, Session>,
    pending: set<Identity>)

  const EMPTY := Db(map[], map[], map[], map[], {})

  datatype Statement =
    | CreateTenant(t: string)
    | SuspendTenant(t: string)
    | RegisterPrincipal(t: string, p: string, kind: Kind, issuer: string, subject: string)
    | EnrollDevice(t: string, p: string, d: string)
    | RevokeDeviceRow(t: string, d: string, expectedRevision: nat)
    | RevokeDeviceSessions(t: string, d: string)
    | RecoverPrincipalRow(t: string, p: string)
    | RevokePrincipalSessions(t: string, p: string)
    | ReadIdentity(t: string, p: string, d: string, issuer: string, subject: string)
    | InsertSession(who: Identity, token: string, csrf: string, expiresAt: int)

  function RevokeWhere(sessions: map<string, Session>, hit: Identity -> bool): map<string, Session> {
    map k | k in sessions ::
      if hit(sessions[k].who) then sessions[k].(revoked := true) else sessions[k]
  }

  /** The join of issueHumanSession finds this row. */
  predicate Readable(db: Db, t: string, p: string, d: string, issuer: string, subject: string) {
    && t in db.tenants && db.tenants[t].status.TenantActive?
    && (t, p) in db.principals
    && db.principals[(t, p)].kind.Human? && db.principals[(t, p)].active
    && db.principals[(t, p)].issuer == issuer && db.principals[(t, p)].subject == subject
    && (t, d) in db.devices && db.devices[(t, d)].principal == p && db.devices[(t, d)].active
  }

  function CurrentIdentity(db: Db, t: string, p: string, d: string): Identity
    requires t in db.tenants && (t, p) in db.principals
  {
    Identity(t, p, d, db.tenants[t].epoch, db.principals[(t, p)].recovery)
  }

  /** The effect of one statement; a statement whose guard fails changes nothing. */
  function Execute(db: Db, s: Statement): Db {
    match s
    case CreateTenant(t) =>
      if t in db.tenants then db else db.(tenants := db.tenants[t := Tenant(TenantActive, 1)])
    case SuspendTenant(t) =>
      if t !in db.tenants || !db.tenants[t].status.TenantActive? then db
      else db.(tenants := db.tenants[t := Tenant(TenantSuspended, db.tenants[t].epoch + 1)],
               sessions := RevokeWhere(db.sessions, (who: Identity) => who.tenant == t))
    case RegisterPrincipal(t, p, kind, issuer, subject) =>
      if t !in db.tenants || (t, p) in db.principals
         || (exists q | q in db.principals ::
               q.0 == t && db.principals[q].issuer == issuer && db.principals[q].subject == subject)
      then db
      else db.(principals := db.principals[(t, p) := Principal(kind, issuer, subject, true, 1)])
    case EnrollDevice(t, p, d) =>
      if (t, p) !in db.principals || (t, d) in db.devices then db
      else db.(devices := db.devices[(t, d) := Device(p, true, 1)])
    case RevokeDeviceRow(t, d, expected) =>
      if (t, d) !in db.devices || !db.devices[(t, d)].active || db.devices[(t, d)].revision != expected then db
      else db.(devices := db.devices[(t, d) := db.devices[(t, d)].(active := false, revision := expected + 1)])
    case RevokeDeviceSessions(t, d) =>
      db.(sessions := RevokeWhere(db.sessions, (who: Identity) => who.tenant == t && who.device == d))
    case RecoverPrincipalRow(t, p) =>
      if (t, p) !in db.principals || !db.principals[(t, p)].kind.Human? || !db.principals[(t, p)].active then db
      else db.(principals :=
        db.principals[(t, p) := db.principals[(t, p)].(recovery := db.principals[(t, p)].recovery + 1)])
    case RevokePrincipalSessions(t, p) =>
      db.(sessions := RevokeWhere(db.sessions, (who: Identity) => who.tenant == t && who.principal == p))
    case ReadIdentity(t, p, d, issuer, subject) =>
      if Readable(db, t, p, d, issuer, subject)
      then db.(pending := db.pending + {CurrentIdentity(db, t, p, d)}) else db
    case InsertSession(who, token, csrf, expiresAt) =>
      if who !in db.pending || token in db.sessions then db
      else db.(sessions := db.sessions[token := Session(who, csrf, expiresAt, false)])
  }

  function Exec(db: Db, steps: seq<Statement>): Db {
    if steps == [] then db else Execute(Exec(db, steps[..|steps| - 1]), steps[|steps| - 1])
  }

  /** The rows an identity refers to still carry its epochs and are all active. */
  predicate Current(db: Db, who: Identity) {
    && who.tenant in db.tenants
    && (who.tenant, who.principal) in db.principals
    && (who.tenant, who.device) in db.devices
    && db.tenants[who.tenant] == Tenant(TenantActive, who.epoch)
    && db.principals[(who.tenant, who.principal)].active
    && db.principals[(who.tenant, who.principal)].recovery == who.recovery
    && db.devices[(who.tenant, who.device)].active
  }

  /** Current, and a human's: what the identity read establishes. */
  predicate Live(db: Db, who: Identity) {
    Current(db, who) && db.principals[(who.tenant, who.principal)].kind.Human?
  }

  /** authenticateSession; the CSRF token is checked when one is presented. */
  predicate Authenticates(db: Db, token: string, csrf: Option<string>, now: int) {
    && token in db.sessions
    && var s := db.sessions[token];
       && !s.revoked && now < s.expiresAt
       && Current(db, s.who)
       && (csrf.Some? ==> csrf.value == s.csrf)
  }

  /** A row that some later step can never make live again. */
  predicate Doomed(db: Db, who: Identity) {
    && who.tenant in db.tenants
    && (who.tenant, who.principal) in db.principals
    && (who.tenant, who.device) in db.devices
    && (|| db.tenants[who.tenant].status.TenantSuspended?
        || db.tenants[who.tenant].epoch > who.epoch
        || db.principals[(who.tenant, who.principal)].recovery > who.recovery
        || !db.devices[(who.tenant, who.device)].active)
  }

  /** This statement, executed in `db`, suspends, recovers or revokes what `who` rests on. */
  predicate Kills(db: Db, s: Statement, who: Identity) {
    match s
    case SuspendTenant(t) => t == who.tenant && t in db.tenants && db.tenants[t].status.TenantActive?
    case RecoverPrincipalRow(t, p) =>
      && t == who.tenant && p == who.principal && (t, p) in db.principals
      && db.principals[(t, p)].kind.Human? && db.principals[(t, p)].active
    case RevokeDeviceRow(t, d, expected) =>
      && t == who.tenant && d == who.device && (t, d) in db.devices
      && db.devices[(t, d)].active && db.devices[(t, d)].revision == expected
    case _ => false
  }

  /** Some statement of the run, in the state it executes in, kills `who`. */
  predicate Killed(db: Db, steps: seq<Statement>, who: Identity) {
    steps != [] &&
    var front := steps[..|steps| - 1];
    Killed(db, front, who) || Kills(Exec(db, front), steps[|steps| - 1], who)
  }

  // ----- what every statement keeps

  /** Every identity ever read, and every session's, is live or doomed. */
  ghost predicate Settled(db: Db) {
    && (forall who :: who in db.pending ==> Live(db, who) || Doomed(db, who))
    && (forall k :: k in db.sessions ==> db.sessions[k].who in db.pending)
  }

  lemma StepLiveness(db: Db, s: Statement, who: Identity)
    ensures Doomed(db, who) ==> Doomed(Execute(db, s), who)
    ensures Live(db, who) && !Kills(db, s, who) ==> Live(Execute(db, s), who)
    ensures Live(db, who) && Kills(db, s, who) ==> Doomed(Execute(db, s), who)
  {
  }

  lemma StepSettles(db: Db, s: Statement)
    requires Settled(db)
    ensures Settled(Execute(db, s))
  {
    var db' := Execute(db, s);
    forall who | who in db'.pending ensures Live(db', who) || Doomed(db', who) {
      StepLiveness(db, s, who);
    }
  }

  lemma {:induction false} RunSettles(steps: seq<Statement>)
    ensures Settled(Exec(EMPTY, steps))
  {
    if steps != [] {
      RunSettles(steps[..|steps| - 1]);
      StepSettles(Exec(EMPTY, steps[..|steps| - 1]), steps[|steps| - 1]);
    }
  }

  /** An identity that was live stays so exactly until a statement kills it, and never comes back. */
  lemma {:induction false} LiveUntilKilled(db: Db, steps: seq<Statement>, who: Identity)
    requires Live(db, who)
    ensures Killed(db, steps, who) ==> Doomed(Exec(db, steps), who)
    ensures !Killed(db, steps, who) ==> Live(Exec(db, steps), who)
  {
    if steps != [] {
      var front := steps[..|steps| - 1];
      LiveUntilKilled(db, front, who);
      StepLiveness(Exec(db, front), steps[|steps| - 1], who);
    }
  }

  lemma {:induction false} ExecSplit(db: Db, a: seq<Statement>, b: seq<Statement>)
    ensures Exec(db, a + b) == Exec(Exec(db, a), b)
  {
    if b == [] {
      assert a + b == a;
    } else {
      var front := b[..|b| - 1];
      ExecSplit(db, a, front);
      assert (a + b)[..|a + b| - 1] == a + front;
    }
  }

  /**
   * Revocation is final under every interleaving: once a statement has killed
   * what an earlier read rests on, no session carrying that read ever
   * authenticates, even when its row is inserted afterwards.
   */
  lemma RevocationIsFinal(
    before: seq<Statement>, kill: Statement, after: seq<Statement>,
    who: Identity, token: string, csrf: Option<string>, now: int)
    requires who in Exec(EMPTY, before).pending
    requires Kills(Exec(EMPTY, before), kill, who)
    ensures var db := Exec(EMPTY, before + [kill] + after);
      token in db.sessions && db.sessions[token].who == who ==> !Authenticates(db, token, csrf, now)
  {
    var read := Exec(EMPTY, before);
    RunSettles(before);
    StepLiveness(read, kill, who);
    assert (before + [kill])[..|before|] == before;
    DoomIsStable(Execute(read, kill), after, who);
    ExecSplit(EMPTY, before + [kill], after);
  }

  lemma {:induction false} DoomIsStable(db: Db, steps: seq<Statement>, who: Identity)
    requires Doomed(db, who)
    ensures Doomed(Exec(db, steps), who)
  {
    if steps != [] {
      DoomIsStable(db, steps[..|steps| - 1], who);
      StepLiveness(Exec(db, steps[..|steps| - 1]), steps[|steps| - 1], who);
    }
  }

  /**
   * In every reachable state a session authenticates exactly when its row is
   * not revoked, it has not expired, its CSRF token matches and no statement
   * since its identity read has killed that identity.
   */
  lemma AuthenticatesExactly(
    before: seq<Statement>, after: seq<Statement>, who: Identity, token: string, csrf: Option<string>, now: int)
    requires Live(Exec(EMPTY, before), who)
    ensures var db := Exec(EMPTY, before + after);
      token in db.sessions && db.sessions[token].who == who ==>
        (Authenticates(db, token, csrf, now) <==>
          (&& !db.sessions[token].revoked && now < db.sessions[token].expiresAt
           && (csrf.Some? ==> csrf.value == db.sessions[token].csrf)
           && !Killed(Exec(EMPTY, before), after, who)))
  {
    LiveUntilKilled(Exec(EMPTY, before), after, who);
    ExecSplit(EMPTY, before, after);
  }

  // ----- whose sessions they are

  /** Statement i of the run inserted this principal row. */
  predicate RegisteredAt(
    steps: seq<Statement>, i: nat, t: string, p: string, kind: Kind, issuer: string, subject: string)
  {
    && i < |steps| && steps[i] == RegisterPrincipal(t, p, kind, issuer, subject)
    && (t, p) !in Exec(EMPTY, steps[..i]).principals && (t, p) in Exec(EMPTY, steps[..i + 1]).principals
  }

  /** Statement i of the run inserted this device row. */
  predicate EnrolledAt(steps: seq<Statement>, i: nat, t: string, p: string, d: string) {
    && i < |steps| && steps[i] == EnrollDevice(t, p, d)
    && (t, d) !in Exec(EMPTY, steps[..i]).devices && (t, d) in Exec(EMPTY, steps[..i + 1]).devices
  }

  /** A principal row keeps its kind, issuer and subject from the statement that inserts it on. */
  lemma PrincipalAfter(db: Db, s: Statement, k: (string, string))
    requires k in Execute(db, s).principals
    ensures var row := Execute(db, s).principals[k];
      if k in db.principals
      then
        var recovered := db.principals[k].active && db.principals[k].kind.Human? && s == RecoverPrincipalRow(k.0, k.1);
        row == db.principals[k].(recovery := db.principals[k].recovery + (if recovered then 1 else 0))
      else s == RegisterPrincipal(k.0, k.1, row.kind, row.issuer, row.subject) && row.active && row.recovery == 1
  {
  }

  lemma DeviceAfter(db: Db, s: Statement, k: (string, string))
    requires k in Execute(db, s).devices
    ensures var row := Execute(db, s).devices[k];
      if k in db.devices
      then
        var row0 := db.devices[k];
        if row0.active && s == RevokeDeviceRow(k.0, k.1, row0.revision)
        then row == Device(row0.principal, false, row0.revision + 1) else row == row0
      else s == EnrollDevice(k.0, row.principal, k.1) && row.active && row.revision == 1
  {
  }

  lemma TenantAfter(db: Db, s: Statement, t: string)
    requires t in Execute(db, s).tenants
    ensures var row := Execute(db, s).tenants[t];
      if t in db.tenants
      then
        if db.tenants[t].status.TenantActive? && s == SuspendTenant(t)
        then row == Tenant(TenantSuspended, db.tenants[t].epoch + 1) else row == db.tenants[t]
      else s == CreateTenant(t) && row == Tenant(TenantActive, 1)
  {
  }

  /** A tenant row is active at its first epoch until the first suspension after its insert, and then never again. */
  lemma {:induction false} TenantsFollowTheRun(steps: seq<Statement>, t: string) returns (i: nat)
    requires t in Exec(EMPTY, steps).tenants
    ensures i < |steps| && steps[i] == CreateTenant(t) && t !in Exec(EMPTY, steps[..i]).tenants
    ensures Exec(EMPTY, steps).tenants[t] ==
      if SuspendTenant(t) in steps[i + 1..] then Tenant(TenantSuspended, 2) else Tenant(TenantActive, 1)
  {
    var n := |steps| - 1;
    TenantAfter(Exec(EMPTY, steps[..n]), steps[n], t);
    if t in Exec(EMPTY, steps[..n]).tenants {
      i := TenantsFollowTheRun(steps[..n], t);
      assert steps[..n][..i] == steps[..i] && steps[i + 1..] == steps[..n][i + 1..] + [steps[n]];
    } else {
      i := n;
    }
  }

  /** A principal row stays active and counts the recoveries of a human since its registration. */
  lemma {:induction false} PrincipalsFollowTheRun(steps: seq<Statement>, t: string, p: string) returns (i: nat)
    requires (t, p) in Exec(EMPTY, steps).principals
    ensures var row := Exec(EMPTY, steps).principals[(t, p)];
      && RegisteredAt(steps, i, t, p, row.kind, row.issuer, row.subject) && row.active
      && row.recovery ==
           1 + if row.kind.Human? then multiset(steps[i + 1..])[RecoverPrincipalRow(t, p)] else 0
  {
    var n := |steps| - 1;
    PrincipalAfter(Exec(EMPTY, steps[..n]), steps[n], (t, p));
    if (t, p) in Exec(EMPTY, steps[..n]).principals {
      i := PrincipalsFollowTheRun(steps[..n], t, p);
      assert steps[..n][..i] == steps[..i] && steps[..n][..i + 1] == steps[..i + 1];
      assert steps[i + 1..] == steps[..n][i + 1..] + [steps[n]];
    } else {
      i := n;
      assert steps[..n + 1] == steps;
    }
  }

  /** A device row is active until the first revocation of its revision 1 after its enrolment, and then never again. */
  lemma {:induction false} DevicesFollowTheRun(steps: seq<Statement>, t: string, d: string) returns (i: nat)
    requires (t, d) in Exec(EMPTY, steps).devices
    ensures var row := Exec(EMPTY, steps).devices[(t, d)];
      && EnrolledAt(steps, i, t, row.principal, d)
      && if RevokeDeviceRow(t, d, 1) in steps[i + 1..] then !row.active && row.revision == 2
         else row.active && row.revision == 1
  {
    var n := |steps| - 1;
    DeviceAfter(Exec(EMPTY, steps[..n]), steps[n], (t, d));
    if (t, d) in Exec(EMPTY, steps[..n]).devices {
      i := DevicesFollowTheRun(steps[..n], t, d);
      assert steps[..n][..i] == steps[..i] && steps[..n][..i + 1] == steps[..i + 1];
      assert steps[i + 1..] == steps[..n][i + 1..] + [steps[n]];
    } else {
      i := n;
      assert steps[..n + 1] == steps;
    }
  }

  /**
   * Registering a new principal, enrolling a new device for it and asking for its
   * identity works exactly for a human under an active tenant in which nobody
   * else has that issuer and subject.
   */
  lemma NewHumanSignsInExactly(db: Db, t: string, p: string, d: string, kind: Kind, issuer: string, subject: string)
    requires (t, p) !in db.principals && (t, d) !in db.devices
    ensures var registered := Execute(db, RegisterPrincipal(t, p, kind, issuer, subject));
      var read := Execute(Execute(registered, EnrollDevice(t, p, d)), ReadIdentity(t, p, d, issuer, subject));
      var works := kind.Human? && t in db.tenants && db.tenants[t].status.TenantActive?
        && forall q :: (t, q) in db.principals ==>
             !(db.principals[(t, q)].issuer == issuer && db.principals[(t, q)].subject == subject);
      read.pending == db.pending + if works then {Identity(t, p, d, db.tenants[t].epoch, 1)} else {}
  {
    if q :| q in db.principals && q.0 == t
            && db.principals[q].issuer == issuer && db.principals[q].subject == subject {
      assert q == (t, q.1);
    }
  }

  /**
   * Statement i read this identity: for the issuer and subject under which its
   * human principal was registered before, and for a device enrolled before for
   * that very principal, while tenant, principal and device were active.
   */
  ghost predicate ReadAt(steps: seq<Statement>, i: nat, who: Identity) {
    && i < |steps| && steps[i].ReadIdentity?
    && steps[i].t == who.tenant && steps[i].p == who.principal && steps[i].d == who.device
    && (exists r :: RegisteredAt(steps[..i], r, who.tenant, who.principal, Human, steps[i].issuer, steps[i].subject))
    && (exists e :: EnrolledAt(steps[..i], e, who.tenant, who.principal, who.device))
    && Live(Exec(EMPTY, steps[..i]), who)
  }

  /** An identity is added only by a read whose join it passes, field by field. */
  lemma PendingAfter(db: Db, s: Statement, who: Identity)
    requires who in Execute(db, s).pending && who !in db.pending
    ensures s.ReadIdentity? && s.t == who.tenant && s.p == who.principal && s.d == who.device && Live(db, who)
    ensures db.principals[(who.tenant, who.principal)].kind.Human?
    ensures db.principals[(who.tenant, who.principal)].issuer == s.issuer
    ensures db.principals[(who.tenant, who.principal)].subject == s.subject
    ensures db.devices[(who.tenant, who.device)].principal == who.principal
  {
  }

  lemma ReadAtTheEnd(steps: seq<Statement>, who: Identity)
    requires steps != [] && who in Exec(EMPTY, steps).pending && who !in Exec(EMPTY, steps[..|steps| - 1]).pending
    ensures ReadAt(steps, |steps| - 1, who)
  {
    var front := steps[..|steps| - 1];
    PendingAfter(Exec(EMPTY, front), steps[|steps| - 1], who);
    var r := PrincipalsFollowTheRun(front, who.tenant, who.principal);
    var e := DevicesFollowTheRun(front, who.tenant, who.device);
  }

  /**
   * In every run, every identity that was read, and so every session's, belongs
   * to the human registered under the very issuer and subject it was asked for,
   * and to a device enrolled for that human.
   */
  lemma {:induction false} IdentitiesAreJoined(steps: seq<Statement>, who: Identity) returns (i: nat)
    requires who in Exec(EMPTY, steps).pending
    ensures ReadAt(steps, i, who)
  {
    var n := |steps| - 1;
    if who in Exec(EMPTY, steps[..n]).pending {
      i := IdentitiesAreJoined(steps[..n], who);
      assert steps[..n][..i] == steps[..i];
    } else {
      i := n;
      ReadAtTheEnd(steps, who);
    }
  }

  lemma SessionsAreJoined(steps: seq<Statement>, token: string) returns (i: nat)
    requires token in Exec(EMPTY, steps).sessions
    ensures ReadAt(steps, i, Exec(EMPTY, steps).sessions[token].who)
  {
    RunSettles(steps);
    i := IdentitiesAreJoined(steps, Exec(EMPTY, steps).sessions[token].who);
  }

  predicate SameSubject(db: Db, q: (string, string), r: (string, string))
    requires q in db.principals && r in db.principals
  {
    && q.0 == r.0 && db.principals[q].issuer == db.principals[r].issuer
    && db.principals[q].subject == db.principals[r].subject
  }

  ghost predicate Unique(db: Db) {
    forall q, r :: q in db.principals && r in db.principals && SameSubject(db, q, r) ==> q == r
  }

  /** At most one principal of a tenant has a given issuer and subject. */
  lemma {:induction false} SubjectsAreUnique(steps: seq<Statement>)
    ensures Unique(Exec(EMPTY, steps))
  {
    if steps != [] {
      SubjectsAreUnique(steps[..|steps| - 1]);
      StepKeepsUnique(Exec(EMPTY, steps[..|steps| - 1]), steps[|steps| - 1]);
    }
  }

  lemma StepKeepsUnique(db: Db, s: Statement)
    requires Unique(db)
    ensures Unique(Execute(db, s))
  {
  }

  // ----- the operations, each run without interruption

  class ControlPlane {
    var db: Db

    constructor ()
      ensures db == EMPTY
    {
      db := EMPTY;
    }

    /** A session that was just issued authenticates with its own tokens until it expires. */
    method IssueHumanSession(
      t: string, p: string, d: string, issuer: string, subject: string,
      token: string, csrf: string, at: int, lifetimeMs: int)
      returns (issued: bool)
      requires token !in db.sessions
      modifies this
      ensures issued <==>
        && 60_000 <= lifetimeMs <= 86_400_000
        && t in old(db).tenants && old(db).tenants[t].status.TenantActive?
        && (t, p) in old(db).principals
        && old(db).principals[(t, p)].kind.Human? && old(db).principals[(t, p)].active
        && old(db).principals[(t, p)].issuer == issuer && old(db).principals[(t, p)].subject == subject
        && (t, d) in old(db).devices && old(db).devices[(t, d)].active && old(db).devices[(t, d)].principal == p
      ensures issued ==>
        && token in db.sessions
        && db.sessions[token].who ==
             Identity(t, p, d, old(db).tenants[t].epoch, old(db).principals[(t, p)].recovery)
        && db.sessions[token].csrf == csrf && db.sessions[token].expiresAt == at + lifetimeMs
        && !db.sessions[token].revoked && db.sessions == old(db).sessions[token := db.sessions[token]]
        && db == old(db).(sessions := db.sessions, pending := old(db).pending + {db.sessions[token].who})
      ensures issued ==> forall now :: Authenticates(db, token, Some(csrf), now) <==> now < at + lifetimeMs
      ensures issued ==> forall k, c, now :: k != token ==>
        (Authenticates(db, k, c, now) <==> Authenticates(old(db), k, c, now))
      ensures !issued ==> db == old(db)
    {
      if !(60_000 <= lifetimeMs <= 86_400_000) { return false; }
      if !Readable(db, t, p, d, issuer, subject) { return false; }
      var who := CurrentIdentity(db, t, p, d);
      db := Execute(db, ReadIdentity(t, p, d, issuer, subject));
      db := Execute(db, InsertSession(who, token, csrf, at + lifetimeMs));
      return true;
    }

    method AuthenticateSession(token: string, csrf: Option<string>, now: int) returns (r: Option<Identity>)
      ensures r.Some? <==> Authenticates(db, token, csrf, now)
      ensures r.Some? ==> r.value == db.sessions[token].who
    {
      if token !in db.sessions { return None; }
      var row := db.sessions[token];
      var who := row.who;
      if who.tenant !in db.tenants || (who.tenant, who.principal) !in db.principals
         || (who.tenant, who.device) !in db.devices { return None; }
      var tenant, principal := db.tenants[who.tenant], db.principals[(who.tenant, who.principal)];
      if row.revoked || row.expiresAt <= now || !tenant.status.TenantActive? || !principal.active
         || !db.devices[(who.tenant, who.device)].active
         || who.epoch != tenant.epoch || who.recovery != principal.recovery { return None; }
      if csrf.Some? && csrf.value != row.csrf { return None; }
      return Some(who);
    }

    /** After a successful suspension no session of the tenant authenticates; others are untouched. */
    method Suspend(t: string) returns (ok: bool)
      modifies this
      ensures ok <==> (t in old(db).tenants && old(db).tenants[t].status.TenantActive?)
      ensures ok ==> forall k, c, now :: k in db.sessions && db.sessions[k].who.tenant == t ==>
        !Authenticates(db, k, c, now)
      ensures ok ==>
        && db.tenants == old(db).tenants[t := Tenant(TenantSuspended, old(db).tenants[t].epoch + 1)]
        && db.sessions.Keys == old(db).sessions.Keys
        && (forall k :: k in db.sessions ==>
              var row := old(db).sessions[k];
              db.sessions[k] == row.(revoked := row.revoked || row.who.tenant == t))
        && db == old(db).(tenants := db.tenants, sessions := db.sessions)
      ensures forall k, c, now :: k in old(db).sessions && old(db).sessions[k].who.tenant != t ==>
        (Authenticates(db, k, c, now) <==> Authenticates(old(db), k, c, now))
      ensures !ok ==> db == old(db)
    {
      ok := t in db.tenants && db.tenants[t].status.TenantActive?;
      db := Execute(db, SuspendTenant(t));
    }

    method RevokeDevice(t: string, d: string, expectedRevision: nat) returns (ok: bool)
      modifies this
      ensures ok <==> ((t, d) in old(db).devices && old(db).devices[(t, d)].active
                       && old(db).devices[(t, d)].revision == expectedRevision)
      ensures ok ==> forall k, c, now ::
        k in db.sessions && db.sessions[k].who.tenant == t && db.sessions[k].who.device == d ==>
          db.sessions[k].revoked && !Authenticates(db, k, c, now)
      ensures ok ==>
        && db.devices == old(db).devices[
             (t, d) := Device(old(db).devices[(t, d)].principal, false, expectedRevision + 1)]
        && db == old(db).(devices := db.devices, sessions := db.sessions)
      ensures forall k, c, now ::
        k in old(db).sessions && !(old(db).sessions[k].who.tenant == t && old(db).sessions[k].who.device == d) ==>
          (Authenticates(db, k, c, now) <==> Authenticates(old(db), k, c, now))
      ensures !ok ==> db == old(db)
    {
      ok := (t, d) in db.devices && db.devices[(t, d)].active && db.devices[(t, d)].revision == expectedRevision;
      if !ok { return; }
      db := Execute(db, RevokeDeviceRow(t, d, expectedRevision));
      db := Execute(db, RevokeDeviceSessions(t, d));
    }

    method RecoverHuman(t: string, p: string) returns (revision: Option<nat>)
      modifies this
      ensures revision.Some? <==> ((t, p) in old(db).principals && old(db).principals[(t, p)].kind.Human?
                                   && old(db).principals[(t, p)].active)
      ensures revision.Some? ==> revision.value == old(db).principals[(t, p)].recovery + 1
      ensures revision.Some? ==> forall k, c, now ::
        k in db.sessions && db.sessions[k].who.tenant == t && db.sessions[k].who.principal == p ==>
          db.sessions[k].revoked && !Authenticates(db, k, c, now)
      ensures revision.Some? ==>
        && db.principals == old(db).principals[(t, p) := old(db).principals[(t, p)].(recovery := revision.value)]
        && db == old(db).(principals := db.principals, sessions := db.sessions)
      ensures forall k, c, now ::
        k in old(db).sessions && !(old(db).sessions[k].who.tenant == t && old(db).sessions[k].who.principal == p) ==>
          (Authenticates(db, k, c, now) <==> Authenticates(old(db), k, c, now))
      ensures revision.None? ==> db == old(db)
    {
      if (t, p) !in db.principals || !db.principals[(t, p)].kind.Human? || !db.principals[(t, p)].active {
        return None;
      }
      revision := Some(db.principals[(t, p)].recovery + 1);
      db := Execute(db, RecoverPrincipalRow(t, p));
      db := Execute(db, RevokePrincipalSessions(t, p));
    }
  }
}
