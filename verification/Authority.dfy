/**
 * The deny-by-default authorization evaluator
 * (packages/tasq-authority/src/index.ts:409-604).
 *
 * A digest is the value it was taken of, which is what injective canonical text
 * and a collision-free hash amount to. The action registry and the orders behind
 * localeCompare are parameters.
 */
module Authority {
  import opened Common
  import opened Sorting

  datatype ResourceKind = WorkspaceKind | CommitmentKind | ResourceKind | EffectKind | ReplicaKind

  datatype Resource = Resource(kind: ResourceKind, id: string)

  datatype EligibilityKind = NoEligibility | EffectApprover | EffectConnector

  datatype PrincipalKind = Human | Agent | Service | Runtime

  datatype ActionIdentity = ActionIdentity(uri: string, version: int, digest: string)

  datatype Action = Action(
    uri: string, version: int, digest: string,
    resourceKinds: set<ResourceKind>, senderRequired: bool, eligibility: EligibilityKind)

  type Registry = map<string, Action>

  datatype Subject = Subject(issuer: string, subject: string)

  datatype Identity = Identity(
    who: Subject, audience: seq<string>, authenticatedAt: int, notBefore: Option<int>, expiresAt: int,
    actor: Option<Subject>, senderBound: bool, upperBound: seq<ActionIdentity>)

  datatype Binding = Binding(workspace: string, principal: string, who: Subject, enabled: bool, createdAt: int)

  datatype Principal = Principal(id: string, workspace: string, kind: PrincipalKind, enabled: bool)

  datatype Bound = Bound(binding: Binding, principal: Principal)

  /** `digest` is what the record claims; the evaluator recomputes it. */
  datatype PermissionSet = PermissionSet(uri: string, version: int, digest: SetDigest, actions: seq<ActionIdentity>)

  datatype SetDigest = OfSet(uri: string, version: int, actions: seq<ActionIdentity>) | Foreign(text: string)

  datatype Scope = WholeWorkspace | Exact(resource: Resource)

  /** Status and validity window of a grant, a delegation or an eligibility. */
  datatype Window = Window(active: bool, notBefore: Option<int>, expiresAt: Option<int>, revision: int)

  datatype Grant = Grant(
    id: string, workspace: string, grantee: string,
    setUri: string, setVersion: int, setDigest: SetDigest, scope: Scope, window: Window)

  datatype Delegation = Delegation(
    id: string, workspace: string, subject: string, actor: string,
    actions: seq<ActionIdentity>, scope: Scope, window: Window)

  datatype Eligibility = Eligibility(
    id: string, workspace: string, principal: string, kind: EligibilityKind, window: Window)

  datatype Request = Request(
    requestId: string, workspace: string, serviceAudience: string,
    action: ActionIdentity, resource: Resource, identity: Identity,
    subject: Option<Bound>, actor: Option<Bound>,
    permissionSets: seq<PermissionSet>, subjectGrants: seq<Grant>, actorGrants: seq<Grant>,
    delegation: Option<Delegation>, eligibilities: seq<Eligibility>)

  datatype Reason =
    | Allowed
    | UnknownAction
    | ActionIdentityMismatch
    | ActionResourceMismatch
    | ServiceAudienceMismatch
    | IdentityNotYetValid
    | IdentityExpired
    | MembershipRequired
    | SubjectBindingMismatch
    | SubjectBindingNotYetValid
    | SubjectBindingDisabled
    | SubjectPrincipalDisabled
    | ActorBindingRequired
    | ActorBindingMismatch
    | ActorBindingNotYetValid
    | ActorBindingDisabled
    | ActorPrincipalDisabled
    | SenderConstraintRequired
    | TokenUpperBoundDenied
    | AuthoritySnapshotInvalid
    | SubjectGrantDenied
    | ActorGrantDenied
    | DelegationDenied
    | EffectEligibilityRequired

  /** The supporting grants are listed sorted and their set digests without repetition. */
  datatype Verdict = Verdict(reason: Reason, grantIds: multiset<string>, setDigests: set<SetDigest>)

  /** Digests are the values they were taken of. */
  datatype Decision = Decision(verdict: Verdict, requestDigest: Request, decisionId: (Request, int, Verdict))

  type SetKey = (string, int, SetDigest)

  /** localeCompare on ids, and the three-part order of permission sets. */
  datatype Orders = Orders(ids: (string, string) -> bool, sets: (SetKey, SetKey) -> bool)

  ghost predicate ValidOrders(o: Orders) {
    TotalOrder(o.ids) && TotalOrder(o.sets)
  }

  // ----- the small checks

  predicate ExactAction(i: ActionIdentity, a: Action) {
    i.uri == a.uri && i.version == a.version && i.digest == a.digest
  }

  predicate IsLive(w: Window, now: int) {
    && w.active
    && (w.notBefore.Some? ==> w.notBefore.value <= now)
    && (w.expiresAt.Some? ==> now < w.expiresAt.value)
  }

  predicate Covers(scope: Scope, resource: Resource) {
    scope.WholeWorkspace? || scope.resource == resource
  }

  predicate BindingMatches(b: Bound, workspace: string, who: Subject) {
    && b.binding.workspace == workspace && b.principal.workspace == workspace
    && b.binding.principal == b.principal.id && b.binding.who == who
  }

  predicate NamesAction(identities: seq<ActionIdentity>, a: Action) {
    exists i :: i in identities && ExactAction(i, a)
  }

  predicate ExactlyRegistered(registry: Registry, i: ActionIdentity) {
    i.uri in registry && ExactAction(i, registry[i.uri])
  }

  // ----- the authority snapshot

  function GrantId(): Grant -> string {
    (g: Grant) => g.id
  }

  function EligibilityId(): Eligibility -> string {
    (e: Eligibility) => e.id
  }

  function NameOf(p: PermissionSet): (string, int) {
    (p.uri, p.version)
  }

  function SetName(): PermissionSet -> (string, int) {
    (p: PermissionSet) => NameOf(p)
  }

  function FullKey(): PermissionSet -> SetKey {
    (p: PermissionSet) => (p.uri, p.version, p.digest)
  }

  /** The definition stored last under a name. */
  function Definition(sets: seq<PermissionSet>, name: (string, int)): (r: Option<PermissionSet>)
    ensures r.Some? ==> r.value in sets && NameOf(r.value) == name
    ensures r.None? ==> forall p :: p in sets ==> NameOf(p) != name
  {
    if sets == [] then None
    else if NameOf(sets[|sets| - 1]) == name then Some(sets[|sets| - 1])
    else Definition(sets[..|sets| - 1], name)
  }

  predicate SoundSet(registry: Registry, p: PermissionSet) {
    p.digest == OfSet(p.uri, p.version, p.actions) && forall i :: i in p.actions ==> ExactlyRegistered(registry, i)
  }

  /** A grant refers to a definition in the snapshot by its exact digest. */
  predicate Resolves(sets: seq<PermissionSet>, g: Grant) {
    var d := Definition(sets, (g.setUri, g.setVersion));
    d.Some? && d.value.digest == g.setDigest
  }

  predicate AllResolve(sets: seq<PermissionSet>, grants: seq<Grant>) {
    forall g :: g in grants ==> Resolves(sets, g)
  }

  ghost predicate SnapshotValid(registry: Registry, r: Request) {
    && SetsValid(registry, r.permissionSets)
    && DistinctKeys(r.subjectGrants + r.actorGrants, GrantId())
    && AllResolve(r.permissionSets, r.subjectGrants + r.actorGrants)
    && DistinctKeys(r.eligibilities, EligibilityId())
  }

  /** The map holds exactly the last definition of each name. */
  ghost predicate Mirrors(definitions: map<(string, int), PermissionSet>, sets: seq<PermissionSet>) {
    forall name ::
      Definition(sets, name) == if name in definitions then Some(definitions[name]) else None
  }

  /** Every definition has its own name and is sound. */
  ghost predicate SetsValid(registry: Registry, sets: seq<PermissionSet>) {
    DistinctKeys(sets, SetName()) && forall p :: p in sets ==> SoundSet(registry, p)
  }

  /** authoritySnapshot's loops over the definitions: fill the map, flip the flag. */
  method ReadDefinitions(registry: Registry, sets: seq<PermissionSet>)
    returns (definitions: map<(string, int), PermissionSet>, valid: bool)
    ensures Mirrors(definitions, sets)
    ensures valid <==> SetsValid(registry, sets)
  {
    definitions, valid := map[], true;
    for k := 0 to |sets|
      invariant Mirrors(definitions, sets[..k])
      invariant valid <==> SetsValid(registry, sets[..k])
    {
      var p := sets[k];
      OneMoreSet(registry, sets, k);
      MirrorOneMore(definitions, sets, k);
      if NameOf(p) in definitions { valid := false; }
      if !SoundSet(registry, p) { valid := false; }
      definitions := definitions[NameOf(p) := p];
    }
    assert sets[..|sets|] == sets;
  }

  lemma OneMoreSet(registry: Registry, sets: seq<PermissionSet>, k: nat)
    requires k < |sets|
    ensures SetsValid(registry, sets[..k + 1]) <==>
      SetsValid(registry, sets[..k]) && Definition(sets[..k], NameOf(sets[k])).None? && SoundSet(registry, sets[k])
  {
    assert sets[..k + 1] == sets[..k] + [sets[k]];
    OneMoreName(sets[..k], sets[k]);
  }

  lemma MirrorOneMore(definitions: map<(string, int), PermissionSet>, sets: seq<PermissionSet>, k: nat)
    requires k < |sets| && Mirrors(definitions, sets[..k])
    ensures NameOf(sets[k]) in definitions <==> Definition(sets[..k], NameOf(sets[k])).Some?
    ensures Mirrors(definitions[NameOf(sets[k]) := sets[k]], sets[..k + 1])
  {
    var longer := sets[..k + 1];
    assert longer[..|longer| - 1] == sets[..k];
  }

  lemma OneMoreName(sets: seq<PermissionSet>, p: PermissionSet)
    ensures DistinctKeys(sets + [p], SetName()) <==>
      DistinctKeys(sets, SetName()) && Definition(sets, NameOf(p)).None?
  {
    var all := sets + [p];
    if DistinctKeys(all, SetName()) {
      forall q | q in sets ensures NameOf(q) != NameOf(p) {
        var i :| 0 <= i < |sets| && sets[i] == q;
        assert SetName()(all[i]) != SetName()(all[|sets|]);
      }
      forall i, j | 0 <= i < j < |sets| ensures SetName()(sets[i]) != SetName()(sets[j]) {
        assert all[i] == sets[i] && all[j] == sets[j];
      }
    }
    if DistinctKeys(sets, SetName()) && Definition(sets, NameOf(p)).None? {
      forall i, j | 0 <= i < j < |all| ensures SetName()(all[i]) != SetName()(all[j]) {
        assert all[i] in sets;
      }
    }
  }

  ghost function KeySet<T, K>(s: seq<T>, key: T -> K): set<K> {
    set x | x in s :: key(x)
  }

  lemma DistinctWithLast<T, K(!new)>(init: seq<T>, last: T, key: T -> K)
    ensures DistinctKeys(init + [last], key) <==> DistinctKeys(init, key) && key(last) !in KeySet(init, key)
  {
    var s := init + [last];
    if DistinctKeys(s, key) {
      forall i, j | 0 <= i < j < |init| ensures key(init[i]) != key(init[j]) {
        assert init[i] == s[i] && init[j] == s[j];
      }
      forall x | x in init ensures key(x) != key(last) {
        var i :| 0 <= i < |init| && init[i] == x;
        assert s[i] == x && s[|init|] == last;
      }
    }
    if DistinctKeys(init, key) && key(last) !in KeySet(init, key) {
      forall i, j | 0 <= i < j < |s| ensures key(s[i]) != key(s[j]) {
        assert init[i] in init;
      }
    }
  }

  lemma KeySetWithLast<T, K>(init: seq<T>, last: T, key: T -> K)
    ensures KeySet(init + [last], key) == KeySet(init, key) + {key(last)}
  {
    assert last in init + [last];
  }

  /** Comparing the size of the id set with the list is a test for distinct ids. */
  lemma {:induction false} DistinctByCount<T, K(!new)>(s: seq<T>, key: T -> K)
    ensures |set x | x in s :: key(x)| <= |s|
    ensures |set x | x in s :: key(x)| == |s| <==> DistinctKeys(s, key)
  {
    KeySetSize(s, key);
    assert KeySet(s, key) == set x | x in s :: key(x);
  }

  lemma {:induction false} KeySetSize<T, K(!new)>(s: seq<T>, key: T -> K)
    ensures |KeySet(s, key)| <= |s|
    ensures |KeySet(s, key)| == |s| <==> DistinctKeys(s, key)
  {
    if s != [] {
      var init, last := s[..|s| - 1], s[|s| - 1];
      assert s == init + [last];
      KeySetSize(init, key);
      DistinctWithLast(init, last, key);
      KeySetWithLast(init, last, key);
    }
  }

  method AllDistinct<T(==), K(!new, ==)>(s: seq<T>, key: T -> K) returns (distinct: bool)
    ensures distinct <==> DistinctKeys(s, key)
  {
    DistinctByCount(s, key);
    distinct := |set x | x in s :: key(x)| == |s|;
  }

  /** authoritySnapshot as a whole. */
  method AuthoritySnapshot(registry: Registry, r: Request)
    returns (definitions: map<(string, int), PermissionSet>, valid: bool)
    ensures Mirrors(definitions, r.permissionSets)
    ensures valid <==> SnapshotValid(registry, r)
  {
    definitions, valid := ReadDefinitions(registry, r.permissionSets);
    var all := r.subjectGrants + r.actorGrants;
    var distinctGrants := AllDistinct(all, GrantId());
    var resolved := ResolveGrants(r.permissionSets, definitions, all);
    var distinctEligibilities := AllDistinct(r.eligibilities, EligibilityId());
    valid := valid && distinctGrants && resolved && distinctEligibilities;
  }

  method ResolveGrants(ghost sets: seq<PermissionSet>, definitions: map<(string, int), PermissionSet>, all: seq<Grant>)
    returns (valid: bool)
    requires Mirrors(definitions, sets)
    ensures valid <==> AllResolve(sets, all)
  {
    valid := true;
    for k := 0 to |all|
      invariant valid <==> AllResolve(sets, all[..k])
    {
      var g := all[k];
      var name := (g.setUri, g.setVersion);
      OneMoreGrant(sets, all, k);
      if name !in definitions || definitions[name].digest != g.setDigest {
        valid := false;
        assert !Resolves(sets, g);
      }
    }
    assert all[..|all|] == all;
  }

  lemma OneMoreGrant(sets: seq<PermissionSet>, all: seq<Grant>, k: nat)
    requires k < |all|
    ensures AllResolve(sets, all[..k + 1]) <==> AllResolve(sets, all[..k]) && Resolves(sets, all[k])
  {
    var shorter, longer := all[..k], all[..k + 1];
    assert longer == shorter + [all[k]];
    assert all[k] in longer && forall g :: g in shorter ==> g in longer;
  }

  // ----- supporting grants

  predicate Supports(r: Request, action: Action, principal: string, now: int, g: Grant) {
    && g.workspace == r.workspace && g.grantee == principal
    && IsLive(g.window, now) && Covers(g.scope, r.resource)
    && Resolves(r.permissionSets, g)
    && NamesAction(Definition(r.permissionSets, (g.setUri, g.setVersion)).value.actions, action)
  }

  function Supporting(r: Request, action: Action, principal: string, now: int, grants: seq<Grant>): (s: seq<Grant>)
    ensures forall g :: g in s <==> g in grants && Supports(r, action, principal, now, g)
  {
    if grants == [] then []
    else
      (if Supports(r, action, principal, now, grants[0]) then [grants[0]] else [])
      + Supporting(r, action, principal, now, grants[1..])
  }

  /** The supporting grant that sorts first by id. */
  function SupportingGrant(o: Orders, r: Request, action: Action, principal: string, now: int, grants: seq<Grant>)
    : (s: Option<Grant>)
    ensures s.Some? <==> exists g :: g in grants && Supports(r, action, principal, now, g)
    ensures s.Some? ==> s.value in grants && Supports(r, action, principal, now, s.value)
  {
    var matches := Supporting(r, action, principal, now, grants);
    var sorted := Sort(matches, GrantId(), o.ids);
    SameMembers(sorted, matches);
    if sorted == [] then
      assert matches == [] by { assert |matches| == |sorted|; }
      None
    else
      assert sorted[0] in sorted;
      Some(sorted[0])
  }

  // ----- the decision

  /** Everything checked before grants are looked at; None means it passed. */
  function Gate(registry: Registry, r: Request, now: int): (problem: Option<Reason>)
    ensures problem.None? ==> r.action.uri in registry && r.subject.Some?
    ensures problem.None? ==> (r.identity.actor.Some? <==> r.actor.Some?)
    ensures problem != Some(Allowed)
  {
    if r.action.uri !in registry then Some(UnknownAction)
    else
      var action := registry[r.action.uri];
      if !ExactAction(r.action, action) then Some(ActionIdentityMismatch)
      else if r.resource.kind !in action.resourceKinds then Some(ActionResourceMismatch)
      else if r.serviceAudience !in r.identity.audience then Some(ServiceAudienceMismatch)
      else if r.identity.notBefore.Some? && now < r.identity.notBefore.value then Some(IdentityNotYetValid)
      else if now < r.identity.authenticatedAt then Some(IdentityNotYetValid)
      else if now >= r.identity.expiresAt then Some(IdentityExpired)
      else if r.subject.None? then Some(MembershipRequired)
      else if !BindingMatches(r.subject.value, r.workspace, r.identity.who) then Some(SubjectBindingMismatch)
      else if now < r.subject.value.binding.createdAt then Some(SubjectBindingNotYetValid)
      else if !r.subject.value.binding.enabled then Some(SubjectBindingDisabled)
      else if !r.subject.value.principal.enabled then Some(SubjectPrincipalDisabled)
      else
        var actorProblem := ActorGate(r, now);
        if actorProblem.Some? then actorProblem
        else if action.senderRequired && !r.identity.senderBound then Some(SenderConstraintRequired)
        else if !NamesAction(r.identity.upperBound, action) then Some(TokenUpperBoundDenied)
        else None
  }

  function ActorGate(r: Request, now: int): Option<Reason> {
    if r.identity.actor.Some? then
      if r.actor.None? then Some(ActorBindingRequired)
      else if !BindingMatches(r.actor.value, r.workspace, r.identity.actor.value) then Some(ActorBindingMismatch)
      else if now < r.actor.value.binding.createdAt then Some(ActorBindingNotYetValid)
      else if !r.actor.value.binding.enabled then Some(ActorBindingDisabled)
      else if !r.actor.value.principal.enabled then Some(ActorPrincipalDisabled)
      else None
    else if r.actor.Some? then Some(ActorBindingMismatch)
    else None
  }

  predicate DelegationHolds(r: Request, action: Action, now: int)
    requires r.subject.Some? && r.actor.Some?
  {
    && r.delegation.Some?
    && var d := r.delegation.value;
       && d.workspace == r.workspace
       && d.subject == r.subject.value.principal.id && d.actor == r.actor.value.principal.id
       && IsLive(d.window, now) && Covers(d.scope, r.resource) && NamesAction(d.actions, action)
  }

  /** This principal may act under the action's eligibility rule. */
  predicate Eligible(r: Request, action: Action, now: int, p: Principal) {
    action.eligibility.NoEligibility? ||
    (&& (action.eligibility.EffectConnector? ==> p.kind.Service?)
     && exists e :: e in r.eligibilities && e.workspace == r.workspace && e.principal == p.id
          && e.kind == action.eligibility && IsLive(e.window, now))
  }

  function Deny(reason: Reason): Verdict {
    Verdict(reason, multiset{}, {})
  }

  /** What the evaluator looks up once the gate is passed. */
  datatype Findings = Findings(
    sound: bool, subject: Option<Grant>, delegated: bool, actor: Option<Grant>,
    delegation: bool, stray: bool, eligible: bool)

  /** The principal whose eligibility counts: the actor when there is one. */
  function Acting(registry: Registry, r: Request, now: int): Principal
    requires Gate(registry, r, now).None?
  {
    if r.identity.actor.Some? then r.actor.value.principal else r.subject.value.principal
  }

  function SubjectSupport(registry: Registry, o: Orders, r: Request, now: int): Option<Grant>
    requires Gate(registry, r, now).None?
  {
    SupportingGrant(o, r, registry[r.action.uri], r.subject.value.principal.id, now, r.subjectGrants)
  }

  function ActorSupport(registry: Registry, o: Orders, r: Request, now: int): Option<Grant>
    requires Gate(registry, r, now).None?
  {
    if r.identity.actor.None? then None
    else SupportingGrant(o, r, registry[r.action.uri], r.actor.value.principal.id, now, r.actorGrants)
  }

  predicate DelegationFound(registry: Registry, r: Request, now: int)
    requires Gate(registry, r, now).None?
  {
    r.identity.actor.Some? && DelegationHolds(r, registry[r.action.uri], now)
  }

  predicate EligibilityFound(registry: Registry, r: Request, now: int)
    requires Gate(registry, r, now).None?
  {
    Eligible(r, registry[r.action.uri], now, Acting(registry, r, now))
  }

  ghost function Find(registry: Registry, o: Orders, r: Request, now: int): Findings
    requires Gate(registry, r, now).None?
  {
    Findings(
      SnapshotValid(registry, r),
      SubjectSupport(registry, o, r, now),
      r.identity.actor.Some?,
      ActorSupport(registry, o, r, now),
      DelegationFound(registry, r, now),
      r.delegation.Some? || |r.actorGrants| > 0,
      EligibilityFound(registry, r, now))
  }

  /** The tail of the evaluator, in the order of its early returns. */
  function Conclude(f: Findings): (v: Verdict)
    ensures v.reason.Allowed? <==> Sufficient(f)
    ensures v.reason.Allowed? <==> v.grantIds != multiset{}
  {
    if !f.sound then Deny(AuthoritySnapshotInvalid)
    else if f.subject.None? then Deny(SubjectGrantDenied)
    else if f.delegated && f.actor.None? then Deny(ActorGrantDenied)
    else if f.delegated && !f.delegation then Deny(DelegationDenied)
    else if !f.delegated && f.stray then Deny(AuthoritySnapshotInvalid)
    else if !f.eligible then Deny(EffectEligibilityRequired)
    else
      Verdict(Allowed,
        multiset{f.subject.value.id} + (if f.delegated then multiset{f.actor.value.id} else multiset{}),
        {f.subject.value.setDigest} + (if f.delegated then {f.actor.value.setDigest} else {}))
  }

  predicate Sufficient(f: Findings) {
    && f.sound && f.subject.Some? && f.eligible
    && (if f.delegated then f.actor.Some? && f.delegation else !f.stray)
  }

  ghost function Evaluate(registry: Registry, o: Orders, r: Request, now: int): (v: Verdict)
    ensures v.reason.Allowed? <==> v.grantIds != multiset{}
  {
    var problem := Gate(registry, r, now);
    if problem.Some? then Deny(problem.value) else Conclude(Find(registry, o, r, now))
  }

  ghost predicate IsAllowed(registry: Registry, o: Orders, r: Request, now: int) {
    Evaluate(registry, o, r, now).reason.Allowed?
  }

  /** Who is asking is beyond doubt and the token reaches as far as the action. */
  predicate Admissible(registry: Registry, r: Request, now: int) {
    && ExactlyRegistered(registry, r.action)
    && var action := registry[r.action.uri];
       && r.resource.kind in action.resourceKinds
       && r.serviceAudience in r.identity.audience
       && r.identity.authenticatedAt <= now < r.identity.expiresAt
       && (r.identity.notBefore.Some? ==> r.identity.notBefore.value <= now)
       && Stands(r.subject, r.workspace, Some(r.identity.who), now) && r.subject.Some?
       && Stands(r.actor, r.workspace, r.identity.actor, now)
       && (action.senderRequired ==> r.identity.senderBound)
       && NamesAction(r.identity.upperBound, action)
  }

  /** A binding is present exactly when the identity asks for it, matches it, and is enabled by now. */
  predicate Stands(b: Option<Bound>, workspace: string, who: Option<Subject>, now: int) {
    && (b.Some? <==> who.Some?)
    && (b.Some? ==>
          && BindingMatches(b.value, workspace, who.value) && b.value.binding.createdAt <= now
          && b.value.binding.enabled && b.value.principal.enabled)
  }

  predicate Entitled(r: Request, action: Action, principal: string, now: int, grants: seq<Grant>) {
    exists g :: g in grants && Supports(r, action, principal, now, g)
  }

  /** Permission stated without any order of checks. */
  ghost predicate Authorized(registry: Registry, r: Request, now: int) {
    && Admissible(registry, r, now)
    && SnapshotValid(registry, r)
    && var action := registry[r.action.uri];
       && Entitled(r, action, r.subject.value.principal.id, now, r.subjectGrants)
       && if r.identity.actor.Some? then
            && Entitled(r, action, r.actor.value.principal.id, now, r.actorGrants)
            && DelegationHolds(r, action, now)
            && Eligible(r, action, now, r.actor.value.principal)
          else
            && r.delegation.None? && r.actorGrants == []
            && Eligible(r, action, now, r.subject.value.principal)
  }

  lemma GateExactly(registry: Registry, r: Request, now: int)
    ensures Gate(registry, r, now).None? <==> Admissible(registry, r, now)
  {
    assert ActorGate(r, now).None? <==> Stands(r.actor, r.workspace, r.identity.actor, now);
  }

  /** The evaluator allows exactly the requests that meet every condition. */
  lemma AllowedExactly(registry: Registry, o: Orders, r: Request, now: int)
    ensures IsAllowed(registry, o, r, now) <==> Authorized(registry, r, now)
  {
    GateExactly(registry, r, now);
    if Gate(registry, r, now).None? {
      SufficientExactly(registry, o, r, now);
    }
  }

  lemma SufficientExactly(registry: Registry, o: Orders, r: Request, now: int)
    requires Gate(registry, r, now).None? && Admissible(registry, r, now)
    ensures Sufficient(Find(registry, o, r, now)) <==> Authorized(registry, r, now)
  {
    var action := registry[r.action.uri];
    assert SubjectSupport(registry, o, r, now).Some? <==>
      Entitled(r, action, r.subject.value.principal.id, now, r.subjectGrants);
    if r.identity.actor.Some? {
      assert ActorSupport(registry, o, r, now).Some? <==>
        Entitled(r, action, r.actor.value.principal.id, now, r.actorGrants);
    }
  }

  /** What each denial claims about the request. */
  ghost predicate Fails(registry: Registry, r: Request, now: int, reason: Reason) {
    || FailsEarly(registry, r, now, reason)
    || (Admissible(registry, r, now) && reason.AuthoritySnapshotInvalid? && !SnapshotValid(registry, r))
    || (Admissible(registry, r, now) && SnapshotValid(registry, r)
        && FailsLate(r, registry[r.action.uri], now, reason))
  }

  /** The denials that are reached before grants are looked at. */
  predicate FailsEarly(registry: Registry, r: Request, now: int, reason: Reason) {
    match reason
    case UnknownAction => r.action.uri !in registry
    case ActionIdentityMismatch => !ExactlyRegistered(registry, r.action)
    case ActionResourceMismatch => r.action.uri in registry && r.resource.kind !in registry[r.action.uri].resourceKinds
    case ServiceAudienceMismatch => r.serviceAudience !in r.identity.audience
    case IdentityNotYetValid =>
      now < r.identity.authenticatedAt || (r.identity.notBefore.Some? && now < r.identity.notBefore.value)
    case IdentityExpired => r.identity.expiresAt <= now
    case MembershipRequired => r.subject.None?
    case SubjectBindingMismatch => r.subject.Some? && !BindingMatches(r.subject.value, r.workspace, r.identity.who)
    case SubjectBindingNotYetValid => r.subject.Some? && now < r.subject.value.binding.createdAt
    case SubjectBindingDisabled => r.subject.Some? && !r.subject.value.binding.enabled
    case SubjectPrincipalDisabled => r.subject.Some? && !r.subject.value.principal.enabled
    case ActorBindingRequired => r.identity.actor.Some? && r.actor.None?
    case ActorBindingMismatch =>
      r.actor.Some? && (r.identity.actor.None? || !BindingMatches(r.actor.value, r.workspace, r.identity.actor.value))
    case ActorBindingNotYetValid => r.actor.Some? && now < r.actor.value.binding.createdAt
    case ActorBindingDisabled => r.actor.Some? && !r.actor.value.binding.enabled
    case ActorPrincipalDisabled => r.actor.Some? && !r.actor.value.principal.enabled
    case SenderConstraintRequired =>
      r.action.uri in registry && registry[r.action.uri].senderRequired && !r.identity.senderBound
    case TokenUpperBoundDenied =>
      r.action.uri in registry && !NamesAction(r.identity.upperBound, registry[r.action.uri])
    case _ => false
  }

  /** The denials that are only reached by an admissible request with a valid snapshot. */
  predicate FailsLate(r: Request, action: Action, now: int, reason: Reason) {
    && r.subject.Some? && (r.identity.actor.Some? <==> r.actor.Some?)
    && match reason
       case AuthoritySnapshotInvalid => r.actor.None? && (r.delegation.Some? || r.actorGrants != [])
       case SubjectGrantDenied => !Entitled(r, action, r.subject.value.principal.id, now, r.subjectGrants)
       case ActorGrantDenied =>
         r.actor.Some? && !Entitled(r, action, r.actor.value.principal.id, now, r.actorGrants)
       case DelegationDenied => r.actor.Some? && !DelegationHolds(r, action, now)
       case EffectEligibilityRequired =>
         !Eligible(r, action, now, if r.actor.Some? then r.actor.value.principal else r.subject.value.principal)
       case _ => false
  }

  /** Every denial names a condition that really fails. */
  lemma DenialsAreTruthful(registry: Registry, o: Orders, r: Request, now: int)
    requires !IsAllowed(registry, o, r, now)
    ensures Fails(registry, r, now, Evaluate(registry, o, r, now).reason)
  {
    if Gate(registry, r, now).Some? {
      GateIsTruthful(registry, r, now);
    } else {
      GateExactly(registry, r, now);
      LateDenialsAreTruthful(registry, o, r, now);
    }
  }

  lemma GateIsTruthful(registry: Registry, r: Request, now: int)
    requires Gate(registry, r, now).Some?
    ensures FailsEarly(registry, r, now, Gate(registry, r, now).value)
  {
    ActorGateIsTruthful(registry, r, now);
  }

  lemma ActorGateIsTruthful(registry: Registry, r: Request, now: int)
    ensures ActorGate(r, now).Some? ==> FailsEarly(registry, r, now, ActorGate(r, now).value)
  {
  }

  lemma LateDenialsAreTruthful(registry: Registry, o: Orders, r: Request, now: int)
    requires Gate(registry, r, now).None? && Admissible(registry, r, now)
    ensures var reason := Conclude(Find(registry, o, r, now)).reason;
      !reason.Allowed? ==> Fails(registry, r, now, reason)
  {
    var f := Find(registry, o, r, now);
    if f.sound && !Sufficient(f) {
      UnsupportedMeansNotEntitled(registry, o, r, now);
      assert FailsLate(r, registry[r.action.uri], now, Conclude(f).reason);
    }
  }

  lemma UnsupportedMeansNotEntitled(registry: Registry, o: Orders, r: Request, now: int)
    requires Gate(registry, r, now).None?
    ensures SubjectSupport(registry, o, r, now).None? ==>
      !Entitled(r, registry[r.action.uri], r.subject.value.principal.id, now, r.subjectGrants)
    ensures r.actor.Some? && ActorSupport(registry, o, r, now).None? ==>
      !Entitled(r, registry[r.action.uri], r.actor.value.principal.id, now, r.actorGrants)
  {
  }

  /** g supports the principal and sorts first among the grants that do. */
  predicate LeastSupport(
    o: Orders, r: Request, action: Action, principal: string, now: int, grants: seq<Grant>, g: Grant)
  {
    && g in grants && Supports(r, action, principal, now, g)
    && forall x :: x in grants && Supports(r, action, principal, now, x) ==> o.ids(g.id, x.id)
  }

  /** Nothing is chosen exactly when nothing supports; otherwise the first-sorting support is. */
  lemma ChosenIsLeast(o: Orders, r: Request, action: Action, principal: string, now: int, grants: seq<Grant>)
    requires ValidOrders(o)
    ensures var chosen := SupportingGrant(o, r, action, principal, now, grants);
      && (chosen.None? <==> !Entitled(r, action, principal, now, grants))
      && (chosen.Some? ==> LeastSupport(o, r, action, principal, now, grants, chosen.value))
  {
    var matches := Supporting(r, action, principal, now, grants);
    var sorted := Sort(matches, GrantId(), o.ids);
    SortIsOrdered(matches, GrantId(), o.ids);
    SameMembers(sorted, matches);
    if sorted != [] {
      forall x | x in grants && Supports(r, action, principal, now, x) ensures o.ids(sorted[0].id, x.id) {
        assert x in sorted;
        var i :| 0 <= i < |sorted| && sorted[i] == x;
        assert i > 0 ==> o.ids(GrantId()(sorted[0]), GrantId()(sorted[i]));
      }
    }
  }

  /**
   * An allowance names exactly the supporting grants that sort first: the
   * subject's, and for a delegated request the actor's.
   */
  lemma AllowedNamesItsSupport(registry: Registry, o: Orders, r: Request, now: int) returns (s: Grant, a: Option<Grant>)
    requires ValidOrders(o) && IsAllowed(registry, o, r, now)
    ensures r.action.uri in registry && r.subject.Some?
    ensures a.Some? <==> r.identity.actor.Some?
    ensures LeastSupport(o, r, registry[r.action.uri], r.subject.value.principal.id, now, r.subjectGrants, s)
    ensures a.Some? ==> r.actor.Some?
    ensures a.Some? ==>
      LeastSupport(o, r, registry[r.action.uri], r.actor.value.principal.id, now, r.actorGrants, a.value)
    ensures var v := Evaluate(registry, o, r, now);
      && v.grantIds == multiset{s.id} + (if a.Some? then multiset{a.value.id} else multiset{})
      && v.setDigests == {s.setDigest} + (if a.Some? then {a.value.setDigest} else {})
  {
    var action := registry[r.action.uri];
    s := SubjectSupport(registry, o, r, now).value;
    a := ActorSupport(registry, o, r, now);
    ChosenIsLeast(o, r, action, r.subject.value.principal.id, now, r.subjectGrants);
    if a.Some? {
      ChosenIsLeast(o, r, action, r.actor.value.principal.id, now, r.actorGrants);
    }
  }

  /** The gate reads none of the authority records. */
  lemma GateIgnoresRecords(registry: Registry, r: Request, r': Request, now: int)
    requires r' == r.(permissionSets := r'.permissionSets, subjectGrants := r'.subjectGrants,
      actorGrants := r'.actorGrants, delegation := r'.delegation, eligibilities := r'.eligibilities)
    ensures Gate(registry, r', now) == Gate(registry, r, now)
  {
    assert ActorGate(r', now) == ActorGate(r, now);
  }

  // ----- delegation only narrows

  function Direct(r: Request): Request {
    r.(identity := r.identity.(actor := None), actor := None, actorGrants := [], delegation := None)
  }

  lemma FewerGrantsStillValid(registry: Registry, r: Request)
    requires SnapshotValid(registry, r)
    ensures SnapshotValid(registry, Direct(r))
  {
    var all := r.subjectGrants + r.actorGrants;
    assert r.subjectGrants + [] == r.subjectGrants;
    forall i, j | 0 <= i < j < |r.subjectGrants|
      ensures GrantId()(r.subjectGrants[i]) != GrantId()(r.subjectGrants[j])
    {
      assert all[i] == r.subjectGrants[i] && all[j] == r.subjectGrants[j];
    }
    forall g | g in r.subjectGrants ensures Resolves(r.permissionSets, g) {
      assert g in all;
    }
  }

  /**
   * If a delegated request is allowed, the subject's own direct request is
   * allowed exactly when the subject meets the action's eligibility rule; in
   * particular always when the action needs none.
   */
  lemma DelegationOnlyNarrows(registry: Registry, o: Orders, r: Request, now: int)
    requires r.identity.actor.Some? && IsAllowed(registry, o, r, now)
    ensures r.action.uri in registry && r.subject.Some?
    ensures IsAllowed(registry, o, Direct(r), now) <==>
      Eligible(r, registry[r.action.uri], now, r.subject.value.principal)
    ensures registry[r.action.uri].eligibility.NoEligibility? ==> IsAllowed(registry, o, Direct(r), now)
  {
    DirectGate(registry, r, now);
    DirectFindings(registry, o, r, now);
  }

  lemma DirectGate(registry: Registry, r: Request, now: int)
    requires Gate(registry, r, now).None?
    ensures Gate(registry, Direct(r), now).None?
  {
    assert ActorGate(r, now).None? && ActorGate(Direct(r), now).None?;
  }

  lemma DirectFindings(registry: Registry, o: Orders, r: Request, now: int)
    requires Gate(registry, r, now).None? && Gate(registry, Direct(r), now).None?
    requires Sufficient(Find(registry, o, r, now))
    ensures Sufficient(Find(registry, o, Direct(r), now)) <==>
      Eligible(r, registry[r.action.uri], now, r.subject.value.principal)
  {
    var f := Find(registry, o, Direct(r), now);
    assert f.sound by { FewerGrantsStillValid(registry, r); }
    assert f.subject.Some? by { DirectSupport(registry, o, r, now); }
    assert f.eligible <==> Eligible(r, registry[r.action.uri], now, r.subject.value.principal) by {
      DirectEligibility(registry, r, now);
    }
  }

  lemma DirectSupport(registry: Registry, o: Orders, r: Request, now: int)
    requires Gate(registry, r, now).None? && Gate(registry, Direct(r), now).None?
    requires SubjectSupport(registry, o, r, now).Some?
    ensures SubjectSupport(registry, o, Direct(r), now).Some?
  {
    var g := SubjectSupport(registry, o, r, now).value;
    assert Supports(Direct(r), registry[r.action.uri], r.subject.value.principal.id, now, g);
  }

  lemma DirectEligibility(registry: Registry, r: Request, now: int)
    requires Gate(registry, r, now).None? && Gate(registry, Direct(r), now).None?
    ensures EligibilityFound(registry, Direct(r), now) <==>
      Eligible(r, registry[r.action.uri], now, r.subject.value.principal)
  {
    assert Direct(r).eligibilities == r.eligibilities && Direct(r).workspace == r.workspace;
  }

  // ----- an actor may be eligible where its subject is not

  const APPROVE := ActionIdentity("urn:approve", 1, "d")

  /** A registry of one action that needs an approver. */
  const APPROVALS: Registry :=
    map["urn:approve" := Action("urn:approve", 1, "d", {EffectKind}, false, EffectApprover)]

  const ALWAYS := Window(true, None, None, 1)

  const APPROVING := PermissionSet("urn:set", 1, OfSet("urn:set", 1, [APPROVE]), [APPROVE])

  function Member(name: string): Bound {
    Bound(Binding("w", name, Subject("i", name), true, 0), Principal(name, "w", Human, true))
  }

  function MayApprove(id: string, name: string): Grant {
    Grant(id, "w", name, "urn:set", 1, APPROVING.digest, WholeWorkspace, ALWAYS)
  }

  /** Alice lets Bob approve for her; both hold the permission, only Bob is an approver. */
  const FOR_ALICE := Request(
    "r", "w", "service", APPROVE, Resource(EffectKind, "e"),
    Identity(Subject("i", "alice"), ["service"], 0, None, 10, Some(Subject("i", "bob")), true, [APPROVE]),
    Some(Member("alice")), Some(Member("bob")),
    [APPROVING], [MayApprove("g1", "alice")], [MayApprove("g2", "bob")],
    Some(Delegation("d", "w", "alice", "bob", [APPROVE], WholeWorkspace, ALWAYS)),
    [Eligibility("x", "w", "bob", EffectApprover, ALWAYS)])

  /** The delegated request is allowed, the same request made by the subject herself is not. */
  lemma DelegatedApprovalExceedsTheSubject(o: Orders)
    ensures IsAllowed(APPROVALS, o, FOR_ALICE, 5) && !IsAllowed(APPROVALS, o, Direct(FOR_ALICE), 5)
  {
    var r, action := FOR_ALICE, APPROVALS["urn:approve"];
    ApprovalIsAdmissible();
    ApprovalIsSound();
    ApprovalIsSupported("g1", "alice");
    ApprovalIsSupported("g2", "bob");
    assert r.subjectGrants[0] in r.subjectGrants && r.actorGrants[0] in r.actorGrants;
    assert Eligible(r, action, 5, Member("bob").principal) by { assert r.eligibilities[0] in r.eligibilities; }
    assert DelegationHolds(r, action, 5) by { assert [APPROVE][0] in [APPROVE]; }
    AllowedExactly(APPROVALS, o, r, 5);
    assert !Eligible(r, action, 5, Member("alice").principal);
    DelegationOnlyNarrows(APPROVALS, o, r, 5);
  }

  lemma ApprovalIsAdmissible()
    ensures Admissible(APPROVALS, FOR_ALICE, 5)
  {
    assert NamesAction([APPROVE], APPROVALS["urn:approve"]) by { assert [APPROVE][0] in [APPROVE]; }
  }

  lemma ApprovalIsSound()
    ensures SnapshotValid(APPROVALS, FOR_ALICE)
  {
    var r := FOR_ALICE;
    assert Definition([APPROVING], ("urn:set", 1)) == Some(APPROVING);
    assert SetsValid(APPROVALS, r.permissionSets);
    var all := r.subjectGrants + r.actorGrants;
    assert all == [MayApprove("g1", "alice"), MayApprove("g2", "bob")];
    assert AllResolve(r.permissionSets, all);
    assert "g1" != "g2" by { assert "g1"[1] != "g2"[1]; }
    assert DistinctKeys(all, GrantId());
  }

  lemma ApprovalIsSupported(id: string, name: string)
    ensures Supports(FOR_ALICE, APPROVALS["urn:approve"], name, 5, MayApprove(id, name))
  {
    assert Definition([APPROVING], ("urn:set", 1)) == Some(APPROVING);
    assert NamesAction(APPROVING.actions, APPROVALS["urn:approve"]) by { assert [APPROVE][0] in [APPROVE]; }
  }

  // ----- revocation never widens

  /** The same window, possibly revoked. */
  predicate Weakened(w: Window, w': Window) {
    w'.notBefore == w.notBefore && w'.expiresAt == w.expiresAt && (w'.active ==> w.active)
  }

  predicate WeakenedGrants(gs: seq<Grant>, gs': seq<Grant>) {
    |gs| == |gs'| && forall i :: 0 <= i < |gs| ==>
      Weakened(gs[i].window, gs'[i].window) && gs'[i] == gs[i].(window := gs'[i].window)
  }

  predicate WeakenedEligibilities(es: seq<Eligibility>, es': seq<Eligibility>) {
    |es| == |es'| && forall i :: 0 <= i < |es| ==>
      Weakened(es[i].window, es'[i].window) && es'[i] == es[i].(window := es'[i].window)
  }

  /** r' is r after any grants, its delegation or any eligibilities were revoked. */
  predicate Revokes(r: Request, r': Request) {
    && WeakenedGrants(r.subjectGrants, r'.subjectGrants)
    && WeakenedGrants(r.actorGrants, r'.actorGrants)
    && WeakenedEligibilities(r.eligibilities, r'.eligibilities)
    && (r.delegation.None? <==> r'.delegation.None?)
    && (r.delegation.Some? ==>
          && Weakened(r.delegation.value.window, r'.delegation.value.window)
          && r'.delegation.value == r.delegation.value.(window := r'.delegation.value.window))
    && r' == r.(subjectGrants := r'.subjectGrants, actorGrants := r'.actorGrants,
                delegation := r'.delegation, eligibilities := r'.eligibilities)
  }

  lemma SupportBeforeRevocation(
    r: Request, r': Request, action: Action, principal: string, now: int, gs: seq<Grant>, gs': seq<Grant>, g': Grant)
    requires r'.permissionSets == r.permissionSets && r'.workspace == r.workspace && r'.resource == r.resource
    requires WeakenedGrants(gs, gs') && g' in gs' && Supports(r', action, principal, now, g')
    ensures exists g :: g in gs && Supports(r, action, principal, now, g)
  {
    var i :| 0 <= i < |gs'| && gs'[i] == g';
    assert Supports(r, action, principal, now, gs[i]);
  }

  lemma EligibleBeforeRevocation(r: Request, r': Request, action: Action, now: int, p: Principal)
    requires r'.workspace == r.workspace && WeakenedEligibilities(r.eligibilities, r'.eligibilities)
    requires Eligible(r', action, now, p)
    ensures Eligible(r, action, now, p)
  {
    if !action.eligibility.NoEligibility? {
      var e' :| e' in r'.eligibilities && e'.workspace == r'.workspace && e'.principal == p.id
        && e'.kind == action.eligibility && IsLive(e'.window, now);
      var i :| 0 <= i < |r'.eligibilities| && r'.eligibilities[i] == e';
      var e := r.eligibilities[i];
      assert e in r.eligibilities && e.workspace == r.workspace && e.principal == p.id
        && e.kind == action.eligibility && IsLive(e.window, now);
    }
  }

  lemma SnapshotBeforeRevocation(registry: Registry, r: Request, r': Request)
    requires Revokes(r, r') && SnapshotValid(registry, r')
    ensures SnapshotValid(registry, r)
  {
    var all, all' := r.subjectGrants + r.actorGrants, r'.subjectGrants + r'.actorGrants;
    assert forall i :: 0 <= i < |all| ==> all'[i] == all[i].(window := all'[i].window);
    forall i, j | 0 <= i < j < |all| ensures GrantId()(all[i]) != GrantId()(all[j]) {
      assert GrantId()(all'[i]) != GrantId()(all'[j]);
    }
    forall g | g in all ensures Resolves(r.permissionSets, g) {
      var i :| 0 <= i < |all| && all[i] == g;
      assert all'[i] in all' && Resolves(r'.permissionSets, all'[i]);
    }
    forall i, j | 0 <= i < j < |r.eligibilities|
      ensures EligibilityId()(r.eligibilities[i]) != EligibilityId()(r.eligibilities[j])
    {
      assert EligibilityId()(r'.eligibilities[i]) != EligibilityId()(r'.eligibilities[j]);
    }
  }

  lemma SupportsBeforeRevocation(registry: Registry, o: Orders, r: Request, r': Request, now: int)
    requires Revokes(r, r') && Gate(registry, r, now).None? && Gate(registry, r', now).None?
    ensures SubjectSupport(registry, o, r', now).Some? ==> SubjectSupport(registry, o, r, now).Some?
    ensures ActorSupport(registry, o, r', now).Some? ==> ActorSupport(registry, o, r, now).Some?
  {
    var action := registry[r.action.uri];
    var s, a := SubjectSupport(registry, o, r', now), ActorSupport(registry, o, r', now);
    if s.Some? {
      SupportBeforeRevocation(
        r, r', action, r.subject.value.principal.id, now, r.subjectGrants, r'.subjectGrants, s.value);
    }
    if a.Some? {
      SupportBeforeRevocation(r, r', action, r.actor.value.principal.id, now, r.actorGrants, r'.actorGrants, a.value);
    }
  }

  lemma DelegationBeforeRevocation(registry: Registry, r: Request, r': Request, now: int)
    requires Revokes(r, r') && Gate(registry, r, now).None? && Gate(registry, r', now).None?
    ensures DelegationFound(registry, r', now) ==> DelegationFound(registry, r, now)
  {
  }

  lemma FindingsBeforeRevocation(registry: Registry, o: Orders, r: Request, r': Request, now: int)
    requires Revokes(r, r') && Gate(registry, r, now).None? && Gate(registry, r', now).None?
    requires Sufficient(Find(registry, o, r', now))
    ensures Sufficient(Find(registry, o, r, now))
  {
    var f, f' := Find(registry, o, r, now), Find(registry, o, r', now);
    assert f.sound by { SnapshotBeforeRevocation(registry, r, r'); }
    SupportsBeforeRevocation(registry, o, r, r', now);
    DelegationBeforeRevocation(registry, r, r', now);
    assert f.eligible by {
      EligibleBeforeRevocation(r, r', registry[r.action.uri], now, Acting(registry, r, now));
    }
    assert f.delegated == f'.delegated && f.stray == f'.stray;
  }

  /** Revoking any grant, delegation or eligibility never turns a denial into an allowance. */
  lemma RevocationNeverWidens(registry: Registry, o: Orders, r: Request, r': Request, now: int)
    requires Revokes(r, r') && IsAllowed(registry, o, r', now)
    ensures IsAllowed(registry, o, r, now)
  {
    GateIgnoresRecords(registry, r, r', now);
    FindingsBeforeRevocation(registry, o, r, r', now);
  }

  // ----- order of the supplied records

  /** The same request with its record lists in another order. */
  ghost predicate Permuted(r: Request, r': Request) {
    && multiset(r.permissionSets) == multiset(r'.permissionSets)
    && multiset(r.subjectGrants) == multiset(r'.subjectGrants)
    && multiset(r.actorGrants) == multiset(r'.actorGrants)
    && multiset(r.eligibilities) == multiset(r'.eligibilities)
    && r' == r.(permissionSets := r'.permissionSets, subjectGrants := r'.subjectGrants,
                actorGrants := r'.actorGrants, eligibilities := r'.eligibilities)
  }

  lemma DefinitionIsOrderFree(sets: seq<PermissionSet>, sets': seq<PermissionSet>, name: (string, int))
    requires multiset(sets) == multiset(sets') && DistinctKeys(sets, SetName())
    ensures Definition(sets, name) == Definition(sets', name)
  {
    SameMembers(sets, sets');
    var d, d' := Definition(sets, name), Definition(sets', name);
    if d.Some? && d'.Some? {
      var i :| 0 <= i < |sets| && sets[i] == d.value;
      assert d'.value in sets;
      var j :| 0 <= j < |sets| && sets[j] == d'.value;
      assert SetName()(sets[i]) == SetName()(sets[j]);
    }
  }

  lemma SnapshotIsOrderFree(registry: Registry, r: Request, r': Request)
    requires Permuted(r, r') && SnapshotValid(registry, r)
    ensures SnapshotValid(registry, r')
  {
    DistinctKeysOfPermutation(r.permissionSets, r'.permissionSets, SetName());
    SameMembers(r.permissionSets, r'.permissionSets);
    var all, all' := r.subjectGrants + r.actorGrants, r'.subjectGrants + r'.actorGrants;
    assert multiset(all) == multiset(all');
    DistinctKeysOfPermutation(all, all', GrantId());
    SameMembers(all, all');
    DistinctKeysOfPermutation(r.eligibilities, r'.eligibilities, EligibilityId());
    forall g | g in all' ensures Resolves(r'.permissionSets, g) {
      DefinitionIsOrderFree(r.permissionSets, r'.permissionSets, (g.setUri, g.setVersion));
      assert g in all;
    }
  }

  lemma SupportsIsOrderFree(r: Request, r': Request, action: Action, principal: string, now: int, g: Grant)
    requires Permuted(r, r') && DistinctKeys(r.permissionSets, SetName())
    ensures Supports(r, action, principal, now, g) <==> Supports(r', action, principal, now, g)
  {
    DefinitionIsOrderFree(r.permissionSets, r'.permissionSets, (g.setUri, g.setVersion));
  }

  lemma {:induction false} SupportingCount(
    r: Request, action: Action, principal: string, now: int, grants: seq<Grant>, g: Grant)
    ensures multiset(Supporting(r, action, principal, now, grants))[g]
         == if Supports(r, action, principal, now, g) then multiset(grants)[g] else 0
  {
    if grants != [] {
      SupportingCount(r, action, principal, now, grants[1..], g);
      assert grants == [grants[0]] + grants[1..];
    }
  }

  lemma SupportingIsOrderFree(
    r: Request, r': Request, action: Action, principal: string, now: int, gs: seq<Grant>, gs': seq<Grant>)
    requires Permuted(r, r') && DistinctKeys(r.permissionSets, SetName()) && multiset(gs) == multiset(gs')
    ensures multiset(Supporting(r, action, principal, now, gs)) == multiset(Supporting(r', action, principal, now, gs'))
  {
    var a := multiset(Supporting(r, action, principal, now, gs));
    var b := multiset(Supporting(r', action, principal, now, gs'));
    forall g ensures a[g] == b[g] {
      SupportsIsOrderFree(r, r', action, principal, now, g);
      SupportingCount(r, action, principal, now, gs, g);
      SupportingCount(r', action, principal, now, gs', g);
    }
  }

  lemma {:induction false} SupportingKeepsDistinctIds(
    r: Request, action: Action, principal: string, now: int, grants: seq<Grant>)
    requires DistinctKeys(grants, GrantId())
    ensures DistinctKeys(Supporting(r, action, principal, now, grants), GrantId())
  {
    if grants != [] {
      assert DistinctKeys(grants[1..], GrantId());
      SupportingKeepsDistinctIds(r, action, principal, now, grants[1..]);
      var rest := Supporting(r, action, principal, now, grants[1..]);
      forall j | 0 <= j < |rest| ensures GrantId()(rest[j]) != GrantId()(grants[0]) {
        assert rest[j] in rest && rest[j] in grants[1..];
        var k :| 0 <= k < |grants[1..]| && grants[1..][k] == rest[j];
        assert GrantId()(grants[0]) != GrantId()(grants[k + 1]);
      }
    }
  }

  /** With distinct ids the chosen supporting grant does not depend on the order. */
  lemma ChoiceIsOrderFree(
    o: Orders, r: Request, r': Request, action: Action, principal: string, now: int, gs: seq<Grant>, gs': seq<Grant>)
    requires ValidOrders(o) && Permuted(r, r') && DistinctKeys(r.permissionSets, SetName())
    requires multiset(gs) == multiset(gs') && DistinctKeys(gs, GrantId())
    ensures SupportingGrant(o, r, action, principal, now, gs) == SupportingGrant(o, r', action, principal, now, gs')
  {
    SupportingIsOrderFree(r, r', action, principal, now, gs, gs');
    SupportingKeepsDistinctIds(r, action, principal, now, gs);
    var a, b := Supporting(r, action, principal, now, gs), Supporting(r', action, principal, now, gs');
    SortForgetsOrder(a, b, GrantId(), o.ids);
  }

  lemma PartsHaveDistinctIds(a: seq<Grant>, b: seq<Grant>)
    requires DistinctKeys(a + b, GrantId())
    ensures DistinctKeys(a, GrantId()) && DistinctKeys(b, GrantId())
  {
    var all := a + b;
    forall i, j | 0 <= i < j < |a| ensures GrantId()(a[i]) != GrantId()(a[j]) {
      assert all[i] == a[i] && all[j] == a[j];
    }
    forall i, j | 0 <= i < j < |b| ensures GrantId()(b[i]) != GrantId()(b[j]) {
      assert all[|a| + i] == b[i] && all[|a| + j] == b[j];
    }
  }

  lemma EligibilityIsOrderFree(registry: Registry, r: Request, r': Request, now: int)
    requires Permuted(r, r') && Gate(registry, r, now).None? && Gate(registry, r', now).None?
    ensures EligibilityFound(registry, r, now) == EligibilityFound(registry, r', now)
  {
    SameMembers(r.eligibilities, r'.eligibilities);
    assert Acting(registry, r, now) == Acting(registry, r', now);
  }

  lemma SupportIsOrderFree(registry: Registry, o: Orders, r: Request, r': Request, now: int)
    requires ValidOrders(o) && Permuted(r, r') && Gate(registry, r, now).None? && Gate(registry, r', now).None?
    requires SnapshotValid(registry, r)
    ensures SubjectSupport(registry, o, r, now) == SubjectSupport(registry, o, r', now)
    ensures ActorSupport(registry, o, r, now) == ActorSupport(registry, o, r', now)
  {
    var action := registry[r.action.uri];
    PartsHaveDistinctIds(r.subjectGrants, r.actorGrants);
    ChoiceIsOrderFree(o, r, r', action, r.subject.value.principal.id, now, r.subjectGrants, r'.subjectGrants);
    if r.identity.actor.Some? {
      ChoiceIsOrderFree(o, r, r', action, r.actor.value.principal.id, now, r.actorGrants, r'.actorGrants);
    }
  }

  lemma SameLength<T>(s: seq<T>, t: seq<T>)
    requires multiset(s) == multiset(t)
    ensures |s| == |t|
  {
    assert |s| == |multiset(s)| == |multiset(t)| == |t|;
  }

  lemma FindingsAreOrderFree(registry: Registry, o: Orders, r: Request, r': Request, now: int)
    requires ValidOrders(o) && Permuted(r, r') && Gate(registry, r, now).None? && Gate(registry, r', now).None?
    requires SnapshotValid(registry, r) && SnapshotValid(registry, r')
    ensures Find(registry, o, r, now) == Find(registry, o, r', now)
  {
    SupportIsOrderFree(registry, o, r, r', now);
    EligibilityIsOrderFree(registry, r, r', now);
    SameLength(r.actorGrants, r'.actorGrants);
    assert DelegationFound(registry, r, now) == DelegationFound(registry, r', now);
  }

  /** Reordering the supplied records never changes the decision, its reason or its supporting grants. */
  lemma OrderNeverMatters(registry: Registry, o: Orders, r: Request, r': Request, now: int)
    requires ValidOrders(o) && Permuted(r, r')
    ensures Evaluate(registry, o, r, now) == Evaluate(registry, o, r', now)
  {
    GateIgnoresRecords(registry, r, r', now);
    if Gate(registry, r, now).None? {
      if SnapshotValid(registry, r) {
        SnapshotIsOrderFree(registry, r, r');
        FindingsAreOrderFree(registry, o, r, r', now);
      } else if SnapshotValid(registry, r') {
        SnapshotIsOrderFree(registry, r', r);
      }
    }
  }

  // ----- the request digest

  function Snapshot(o: Orders, r: Request): Request {
    r.(permissionSets := Sort(r.permissionSets, FullKey(), o.sets),
       subjectGrants := Sort(r.subjectGrants, GrantId(), o.ids),
       actorGrants := Sort(r.actorGrants, GrantId(), o.ids),
       eligibilities := Sort(r.eligibilities, EligibilityId(), o.ids))
  }

  ghost function Decide(registry: Registry, o: Orders, r: Request, now: int): Decision {
    var verdict := Evaluate(registry, o, r, now);
    var snapshot := Snapshot(o, r);
    Decision(verdict, snapshot, (snapshot, now, verdict))
  }

  ghost predicate DistinctSortKeys(r: Request) {
    && DistinctKeys(r.permissionSets, FullKey())
    && DistinctKeys(r.subjectGrants, GrantId())
    && DistinctKeys(r.actorGrants, GrantId())
    && DistinctKeys(r.eligibilities, EligibilityId())
  }

  /** With pairwise distinct sort keys, neither the request digest nor the decision id sees the order. */
  lemma DigestsAreOrderFree(registry: Registry, o: Orders, r: Request, r': Request, now: int)
    requires ValidOrders(o) && Permuted(r, r') && DistinctSortKeys(r)
    ensures Decide(registry, o, r, now) == Decide(registry, o, r', now)
  {
    OrderNeverMatters(registry, o, r, r', now);
    DigestIdentifiesRequest(o, r, r');
  }

  /** With pairwise distinct sort keys, two requests share a digest exactly when one reorders the other. */
  lemma DigestIdentifiesRequest(o: Orders, r: Request, r': Request)
    requires ValidOrders(o) && DistinctSortKeys(r)
    ensures Snapshot(o, r) == Snapshot(o, r') <==> Permuted(r, r')
  {
    if Permuted(r, r') {
      SortForgetsOrder(r.permissionSets, r'.permissionSets, FullKey(), o.sets);
      SortForgetsOrder(r.subjectGrants, r'.subjectGrants, GrantId(), o.ids);
      SortForgetsOrder(r.actorGrants, r'.actorGrants, GrantId(), o.ids);
      SortForgetsOrder(r.eligibilities, r'.eligibilities, EligibilityId(), o.ids);
    }
    if Snapshot(o, r) == Snapshot(o, r') {
      assert Snapshot(o, r).permissionSets == Snapshot(o, r').permissionSets;
      assert Snapshot(o, r).subjectGrants == Snapshot(o, r').subjectGrants;
      assert Snapshot(o, r).actorGrants == Snapshot(o, r').actorGrants;
      assert Snapshot(o, r).eligibilities == Snapshot(o, r').eligibilities;
    }
  }

  /** Two decisions share an id exactly when snapshot, time and verdict agree. */
  lemma DecisionIdIdentifies(registry: Registry, o: Orders, r: Request, r': Request, now: int, now': int)
    ensures Decide(registry, o, r, now).decisionId == Decide(registry, o, r', now').decisionId <==>
      && Snapshot(o, r) == Snapshot(o, r') && now == now'
      && Evaluate(registry, o, r, now) == Evaluate(registry, o, r', now')
    ensures Decide(registry, o, r, now).requestDigest == Snapshot(o, r)
    ensures Decide(registry, o, r, now).verdict == Evaluate(registry, o, r, now)
  {
  }

  // ----- the decision on the fields alone

  /** The grant g, through the definition p and its action i, lets this principal do what is asked. */
  predicate GrantApplies(r: Request, principal: string, now: int, g: Grant, p: PermissionSet, i: ActionIdentity) {
    && g.workspace == r.workspace && g.grantee == principal
    && g.window.active
    && (g.window.notBefore.Some? ==> g.window.notBefore.value <= now)
    && (g.window.expiresAt.Some? ==> now < g.window.expiresAt.value)
    && (g.scope.WholeWorkspace? || (g.scope.resource.kind == r.resource.kind && g.scope.resource.id == r.resource.id))
    && p.uri == g.setUri && p.version == g.setVersion && p.digest == g.setDigest
    && i in p.actions && i.uri == r.action.uri && i.version == r.action.version && i.digest == r.action.digest
  }

  ghost predicate Granted(r: Request, principal: string, now: int, grants: seq<Grant>) {
    exists g, p, i :: g in grants && p in r.permissionSets && GrantApplies(r, principal, now, g, p, i)
  }

  /** The delegation from subject to actor is in force and names the action. */
  ghost predicate Delegated(r: Request, subject: string, actor: string, now: int) {
    && r.delegation.Some?
    && var d := r.delegation.value;
       && d.workspace == r.workspace && d.subject == subject && d.actor == actor
       && d.window.active
       && (d.window.notBefore.Some? ==> d.window.notBefore.value <= now)
       && (d.window.expiresAt.Some? ==> now < d.window.expiresAt.value)
       && (d.scope.WholeWorkspace?
           || (d.scope.resource.kind == r.resource.kind && d.scope.resource.id == r.resource.id))
       && exists i :: i in d.actions
            && i.uri == r.action.uri && i.version == r.action.version && i.digest == r.action.digest
  }

  predicate EligibilityApplies(r: Request, kind: EligibilityKind, principal: string, now: int, e: Eligibility) {
    && e.workspace == r.workspace && e.principal == principal && e.kind == kind
    && e.window.active
    && (e.window.notBefore.Some? ==> e.window.notBefore.value <= now)
    && (e.window.expiresAt.Some? ==> now < e.window.expiresAt.value)
  }

  /** The rule of the action: none, an approver, or a service that is a connector. */
  ghost predicate MeetsRule(r: Request, kind: EligibilityKind, p: Principal, now: int) {
    || kind == NoEligibility
    || ((kind == EffectConnector ==> p.kind == Service)
        && exists e :: e in r.eligibilities && EligibilityApplies(r, kind, p.id, now, e))
  }

  /** A bound principal of this workspace for this issuer and subject, created by now and enabled throughout. */
  predicate BoundNow(b: Bound, workspace: string, who: Subject, now: int) {
    && b.binding.workspace == workspace && b.principal.workspace == workspace
    && b.binding.principal == b.principal.id
    && b.binding.who.issuer == who.issuer && b.binding.who.subject == who.subject
    && b.binding.createdAt <= now && b.binding.enabled && b.principal.enabled
  }

  /** Everything about the request that does not depend on grants. */
  ghost predicate WellAddressed(registry: Registry, r: Request, now: int) {
    && r.action.uri in registry
    && var a := registry[r.action.uri];
       && a.uri == r.action.uri && a.version == r.action.version && a.digest == r.action.digest
       && r.resource.kind in a.resourceKinds
       && r.serviceAudience in r.identity.audience
       && r.identity.authenticatedAt <= now < r.identity.expiresAt
       && (r.identity.notBefore.Some? ==> r.identity.notBefore.value <= now)
       && r.subject.Some? && BoundNow(r.subject.value, r.workspace, r.identity.who, now)
       && (r.actor.Some? <==> r.identity.actor.Some?)
       && (r.actor.Some? ==> BoundNow(r.actor.value, r.workspace, r.identity.actor.value, now))
       && (a.senderRequired ==> r.identity.senderBound)
       && exists i :: i in r.identity.upperBound
            && i.uri == r.action.uri && i.version == r.action.version && i.digest == r.action.digest
  }

  /** The records of the request are consistent with themselves and with the registry. */
  ghost predicate Consistent(registry: Registry, r: Request) {
    var grants := r.subjectGrants + r.actorGrants;
    && (forall i, j :: 0 <= i < j < |r.permissionSets| ==>
          || r.permissionSets[i].uri != r.permissionSets[j].uri
          || r.permissionSets[i].version != r.permissionSets[j].version)
    && (forall p :: p in r.permissionSets ==> p.digest == OfSet(p.uri, p.version, p.actions))
    && (forall p, i :: p in r.permissionSets && i in p.actions ==>
          i.uri in registry && registry[i.uri].uri == i.uri
          && registry[i.uri].version == i.version && registry[i.uri].digest == i.digest)
    && (forall i, j :: 0 <= i < j < |grants| ==> grants[i].id != grants[j].id)
    && (forall g :: g in grants ==>
          exists p :: p in r.permissionSets
            && p.uri == g.setUri && p.version == g.setVersion && p.digest == g.setDigest)
    && (forall i, j :: 0 <= i < j < |r.eligibilities| ==> r.eligibilities[i].id != r.eligibilities[j].id)
  }

  ghost predicate AllowedByFields(registry: Registry, r: Request, now: int) {
    && WellAddressed(registry, r, now) && Consistent(registry, r)
    && Granted(r, r.subject.value.principal.id, now, r.subjectGrants)
    && var rule := registry[r.action.uri].eligibility;
       if r.actor.Some? then
         && Granted(r, r.actor.value.principal.id, now, r.actorGrants)
         && Delegated(r, r.subject.value.principal.id, r.actor.value.principal.id, now)
         && MeetsRule(r, rule, r.actor.value.principal, now)
       else
         && r.delegation.None? && r.actorGrants == []
         && MeetsRule(r, rule, r.subject.value.principal, now)
  }

  lemma AddressedExactly(registry: Registry, r: Request, now: int)
    ensures Admissible(registry, r, now) <==> WellAddressed(registry, r, now)
  {
    if r.action.uri in registry {
      NamedOnFields(r.identity.upperBound, registry[r.action.uri]);
    }
  }

  lemma NamedOnFields(identities: seq<ActionIdentity>, a: Action)
    ensures NamesAction(identities, a) <==>
      exists i :: i in identities && i.uri == a.uri && i.version == a.version && i.digest == a.digest
  {
    if NamesAction(identities, a) {
      var i :| i in identities && ExactAction(i, a);
      assert i.uri == a.uri && i.version == a.version && i.digest == a.digest;
    }
    if i :| i in identities && i.uri == a.uri && i.version == a.version && i.digest == a.digest {
      assert ExactAction(i, a);
    }
  }

  /** With distinct names, a grant resolves exactly to the definition with its name and digest. */
  lemma ResolvesOnFields(sets: seq<PermissionSet>, g: Grant)
    requires DistinctKeys(sets, SetName())
    ensures Resolves(sets, g) <==>
      exists p :: p in sets && p.uri == g.setUri && p.version == g.setVersion && p.digest == g.setDigest
    ensures forall p :: p in sets && p.uri == g.setUri && p.version == g.setVersion ==>
      Definition(sets, (g.setUri, g.setVersion)) == Some(p)
  {
    forall p | p in sets && p.uri == g.setUri && p.version == g.setVersion
      ensures Definition(sets, (g.setUri, g.setVersion)) == Some(p)
    {
      OnlyDefinition(sets, p);
    }
    var d := Definition(sets, (g.setUri, g.setVersion));
    if d.Some? && d.value.digest == g.setDigest {
      assert d.value in sets && d.value.uri == g.setUri && d.value.version == g.setVersion;
    }
  }

  lemma OnlyDefinition(sets: seq<PermissionSet>, p: PermissionSet)
    requires DistinctKeys(sets, SetName()) && p in sets
    ensures Definition(sets, NameOf(p)) == Some(p)
  {
    var d := Definition(sets, NameOf(p));
    assert d.Some?;
    var i :| 0 <= i < |sets| && sets[i] == p;
    var j :| 0 <= j < |sets| && sets[j] == d.value;
    assert SetName()(sets[i]) == SetName()(sets[j]);
  }

  lemma NamesOnFields(sets: seq<PermissionSet>)
    ensures DistinctKeys(sets, SetName()) <==>
      forall i, j :: 0 <= i < j < |sets| ==> sets[i].uri != sets[j].uri || sets[i].version != sets[j].version
  {
    forall i, j | 0 <= i < j < |sets|
      ensures SetName()(sets[i]) != SetName()(sets[j]) <==>
        sets[i].uri != sets[j].uri || sets[i].version != sets[j].version
    {
    }
  }

  lemma IdsOnFields(grants: seq<Grant>, eligibilities: seq<Eligibility>)
    ensures DistinctKeys(grants, GrantId()) <==> forall i, j :: 0 <= i < j < |grants| ==> grants[i].id != grants[j].id
    ensures DistinctKeys(eligibilities, EligibilityId()) <==>
      forall i, j :: 0 <= i < j < |eligibilities| ==> eligibilities[i].id != eligibilities[j].id
  {
    assert forall i :: 0 <= i < |grants| ==> GrantId()(grants[i]) == grants[i].id;
    assert forall i :: 0 <= i < |eligibilities| ==> EligibilityId()(eligibilities[i]) == eligibilities[i].id;
  }

  lemma SetsOnFields(registry: Registry, sets: seq<PermissionSet>)
    ensures (forall p :: p in sets ==> SoundSet(registry, p)) <==>
      && (forall p :: p in sets ==> p.digest == OfSet(p.uri, p.version, p.actions))
      && (forall p, i :: p in sets && i in p.actions ==>
            i.uri in registry && registry[i.uri].uri == i.uri
            && registry[i.uri].version == i.version && registry[i.uri].digest == i.digest)
  {
  }

  lemma ConsistentExactly(registry: Registry, r: Request)
    ensures SnapshotValid(registry, r) <==> Consistent(registry, r)
  {
    NamesOnFields(r.permissionSets);
    SetsOnFields(registry, r.permissionSets);
    IdsOnFields(r.subjectGrants + r.actorGrants, r.eligibilities);
    if DistinctKeys(r.permissionSets, SetName()) {
      forall g ensures Resolves(r.permissionSets, g) <==>
        exists p :: p in r.permissionSets && p.uri == g.setUri && p.version == g.setVersion && p.digest == g.setDigest
      {
        ResolvesOnFields(r.permissionSets, g);
      }
    }
  }

  lemma SupportsOnFields(r: Request, action: Action, principal: string, now: int, g: Grant)
    requires DistinctKeys(r.permissionSets, SetName()) && ExactAction(r.action, action)
    ensures Supports(r, action, principal, now, g) <==>
      exists p, i :: p in r.permissionSets && GrantApplies(r, principal, now, g, p, i)
  {
    ResolvesOnFields(r.permissionSets, g);
    if Supports(r, action, principal, now, g) {
      var p := Definition(r.permissionSets, (g.setUri, g.setVersion)).value;
      var i :| i in p.actions && ExactAction(i, action);
      assert p in r.permissionSets && GrantApplies(r, principal, now, g, p, i);
    }
    if p, i :| p in r.permissionSets && GrantApplies(r, principal, now, g, p, i) {
      assert Definition(r.permissionSets, (g.setUri, g.setVersion)) == Some(p) && ExactAction(i, action);
    }
  }

  lemma GrantedExactly(r: Request, action: Action, principal: string, now: int, grants: seq<Grant>)
    requires DistinctKeys(r.permissionSets, SetName()) && ExactAction(r.action, action)
    ensures Entitled(r, action, principal, now, grants) <==> Granted(r, principal, now, grants)
  {
    if Entitled(r, action, principal, now, grants) {
      var g :| g in grants && Supports(r, action, principal, now, g);
      SupportsOnFields(r, action, principal, now, g);
    }
    if g, p, i :| g in grants && p in r.permissionSets && GrantApplies(r, principal, now, g, p, i) {
      SupportsOnFields(r, action, principal, now, g);
    }
  }

  lemma DelegatedExactly(r: Request, action: Action, now: int)
    requires r.subject.Some? && r.actor.Some? && ExactAction(r.action, action)
    ensures DelegationHolds(r, action, now) <==>
      Delegated(r, r.subject.value.principal.id, r.actor.value.principal.id, now)
  {
    if r.delegation.Some? {
      NamedOnFields(r.delegation.value.actions, action);
    }
  }

  lemma RuleExactly(r: Request, action: Action, now: int, p: Principal)
    ensures Eligible(r, action, now, p) <==> MeetsRule(r, action.eligibility, p, now)
  {
    if Eligible(r, action, now, p) && !action.eligibility.NoEligibility? {
      var e :| e in r.eligibilities && e.workspace == r.workspace && e.principal == p.id
        && e.kind == action.eligibility && IsLive(e.window, now);
      assert EligibilityApplies(r, action.eligibility, p.id, now, e);
    }
    if e :| e in r.eligibilities && EligibilityApplies(r, action.eligibility, p.id, now, e) {
      assert e.workspace == r.workspace && IsLive(e.window, now);
    }
  }

  /**
   * The evaluator allows a request if and only if its fields say so: who asks,
   * when, for what, under which grants, delegation and eligibility, each active
   * and between its bounds, each for this workspace and this resource.
   */
  lemma AllowedOnFields(registry: Registry, o: Orders, r: Request, now: int)
    ensures IsAllowed(registry, o, r, now) <==> AllowedByFields(registry, r, now)
  {
    AllowedExactly(registry, o, r, now);
    AddressedExactly(registry, r, now);
    ConsistentExactly(registry, r);
    if Admissible(registry, r, now) && SnapshotValid(registry, r) {
      AuthorizedOnFields(registry, r, now);
    }
  }

  lemma AuthorizedOnFields(registry: Registry, r: Request, now: int)
    requires Admissible(registry, r, now) && WellAddressed(registry, r, now)
    requires SnapshotValid(registry, r) && Consistent(registry, r)
    ensures Authorized(registry, r, now) <==> AllowedByFields(registry, r, now)
  {
    var action := registry[r.action.uri];
    GrantedExactly(r, action, r.subject.value.principal.id, now, r.subjectGrants);
    if r.actor.Some? {
      GrantedExactly(r, action, r.actor.value.principal.id, now, r.actorGrants);
      DelegatedExactly(r, action, now);
      RuleExactly(r, action, now, r.actor.value.principal);
    } else {
      RuleExactly(r, action, now, r.subject.value.principal);
    }
  }

  /** The grants an allowance names are in force for this workspace, resource and action, field by field. */
  lemma NamedGrantsApply(registry: Registry, o: Orders, r: Request, now: int) returns (s: Grant, a: Option<Grant>)
    requires ValidOrders(o) && IsAllowed(registry, o, r, now)
    ensures r.subject.Some? && s in r.subjectGrants
    ensures exists p, i :: p in r.permissionSets && GrantApplies(r, r.subject.value.principal.id, now, s, p, i)
    ensures (a.Some? <==> r.identity.actor.Some?) && (a.Some? ==> r.actor.Some? && a.value in r.actorGrants)
    ensures a.Some? ==>
      exists p, i :: p in r.permissionSets && GrantApplies(r, r.actor.value.principal.id, now, a.value, p, i)
    ensures Evaluate(registry, o, r, now).grantIds ==
      multiset{s.id} + (if a.Some? then multiset{a.value.id} else multiset{})
  {
    s, a := AllowedNamesItsSupport(registry, o, r, now);
    AllowedExactly(registry, o, r, now);
    SupportsOnFields(r, registry[r.action.uri], r.subject.value.principal.id, now, s);
    if a.Some? {
      SupportsOnFields(r, registry[r.action.uri], r.actor.value.principal.id, now, a.value);
    }
  }

  /** From the expiry of the last subject grant on, everything is denied. */
  lemma ExpiredGrantsDeny(registry: Registry, o: Orders, r: Request, now: int)
    requires forall g :: g in r.subjectGrants ==> g.window.expiresAt.Some? && g.window.expiresAt.value <= now
    ensures !IsAllowed(registry, o, r, now)
  {
    AllowedOnFields(registry, o, r, now);
  }

  // ----- time matters only at the boundaries

  predicate SameSide(boundary: int, now: int, now': int) {
    boundary <= now <==> boundary <= now'
  }

  predicate SameWindow(w: Window, now: int, now': int) {
    && (w.notBefore.Some? ==> SameSide(w.notBefore.value, now, now'))
    && (w.expiresAt.Some? ==> SameSide(w.expiresAt.value, now, now'))
  }

  /** No bound of any record of the request lies between the two times. */
  predicate NoBoundaryBetween(r: Request, now: int, now': int) {
    && SameSide(r.identity.authenticatedAt, now, now') && SameSide(r.identity.expiresAt, now, now')
    && (r.identity.notBefore.Some? ==> SameSide(r.identity.notBefore.value, now, now'))
    && (r.subject.Some? ==> SameSide(r.subject.value.binding.createdAt, now, now'))
    && (r.actor.Some? ==> SameSide(r.actor.value.binding.createdAt, now, now'))
    && (forall g :: g in r.subjectGrants ==> SameWindow(g.window, now, now'))
    && (forall g :: g in r.actorGrants ==> SameWindow(g.window, now, now'))
    && (r.delegation.Some? ==> SameWindow(r.delegation.value.window, now, now'))
    && (forall e :: e in r.eligibilities ==> SameWindow(e.window, now, now'))
  }

  lemma SameGate(registry: Registry, r: Request, now: int, now': int)
    requires NoBoundaryBetween(r, now, now')
    ensures Gate(registry, r, now) == Gate(registry, r, now')
  {
    assert ActorGate(r, now) == ActorGate(r, now');
  }

  lemma {:induction false} SameSupporting(
    r: Request, action: Action, principal: string, now: int, now': int, grants: seq<Grant>)
    requires forall g :: g in grants ==> SameWindow(g.window, now, now')
    ensures Supporting(r, action, principal, now, grants) == Supporting(r, action, principal, now', grants)
  {
    if grants != [] {
      assert grants[0] in grants;
      SameSupporting(r, action, principal, now, now', grants[1..]);
    }
  }

  lemma SameChoice(
    o: Orders, r: Request, action: Action, principal: string, now: int, now': int, grants: seq<Grant>)
    requires forall g :: g in grants ==> SameWindow(g.window, now, now')
    ensures SupportingGrant(o, r, action, principal, now, grants)
         == SupportingGrant(o, r, action, principal, now', grants)
  {
    SameSupporting(r, action, principal, now, now', grants);
  }

  lemma SameEligible(r: Request, action: Action, p: Principal, now: int, now': int)
    requires forall e :: e in r.eligibilities ==> SameWindow(e.window, now, now')
    ensures Eligible(r, action, now, p) <==> Eligible(r, action, now', p)
  {
  }

  /** Two times with no boundary of any record between them give the same verdict. */
  lemma TimeMattersAtBoundariesOnly(registry: Registry, o: Orders, r: Request, now: int, now': int)
    requires NoBoundaryBetween(r, now, now')
    ensures Evaluate(registry, o, r, now) == Evaluate(registry, o, r, now')
  {
    SameGate(registry, r, now, now');
    if Gate(registry, r, now).None? {
      SameFindings(registry, o, r, now, now');
    }
  }

  lemma SameFindings(registry: Registry, o: Orders, r: Request, now: int, now': int)
    requires NoBoundaryBetween(r, now, now') && Gate(registry, r, now).None? && Gate(registry, r, now').None?
    ensures Find(registry, o, r, now) == Find(registry, o, r, now')
  {
    var action := registry[r.action.uri];
    SameChoice(o, r, action, r.subject.value.principal.id, now, now', r.subjectGrants);
    if r.identity.actor.Some? {
      SameChoice(o, r, action, r.actor.value.principal.id, now, now', r.actorGrants);
      assert DelegationHolds(r, action, now) == DelegationHolds(r, action, now');
    }
    SameEligible(r, action, Acting(registry, r, now), now, now');
  }

  // ----- a denial names the first condition that fails

  /** The order in which the early conditions are checked. */
  function Rank(reason: Reason): nat {
    match reason
    case UnknownAction => 0
    case ActionIdentityMismatch => 1
    case ActionResourceMismatch => 2
    case ServiceAudienceMismatch => 3
    case IdentityNotYetValid => 4
    case IdentityExpired => 5
    case MembershipRequired => 6
    case SubjectBindingMismatch => 7
    case SubjectBindingNotYetValid => 8
    case SubjectBindingDisabled => 9
    case SubjectPrincipalDisabled => 10
    case ActorBindingRequired => 11
    case ActorBindingMismatch => 12
    case ActorBindingNotYetValid => 13
    case ActorBindingDisabled => 14
    case ActorPrincipalDisabled => 15
    case SenderConstraintRequired => 16
    case TokenUpperBoundDenied => 17
    case _ => 18
  }

  lemma GateNamesTheFirst(registry: Registry, r: Request, now: int, earlier: Reason)
    requires Gate(registry, r, now).None? || Rank(earlier) < Rank(Gate(registry, r, now).value)
    ensures !FailsEarly(registry, r, now, earlier)
  {
  }

  /** After the gate: the snapshot, the subject's grant, the actor's, the delegation or stray records, eligibility. */
  ghost predicate LateOrder(registry: Registry, r: Request, now: int, reason: Reason)
    requires Gate(registry, r, now).None?
  {
    var action := registry[r.action.uri];
    var sound := SnapshotValid(registry, r);
    var subject := Entitled(r, action, r.subject.value.principal.id, now, r.subjectGrants);
    var actor := r.actor.Some? ==> Entitled(r, action, r.actor.value.principal.id, now, r.actorGrants);
    var delegation := r.actor.Some? ==> DelegationHolds(r, action, now);
    var stray := r.actor.None? && (r.delegation.Some? || r.actorGrants != []);
    match reason
    case AuthoritySnapshotInvalid => !sound || (subject && stray)
    case SubjectGrantDenied => sound && !subject
    case ActorGrantDenied => sound && subject && !actor
    case DelegationDenied => sound && subject && actor && !delegation
    case EffectEligibilityRequired =>
      sound && subject && actor && delegation && !stray && !Eligible(r, action, now, Acting(registry, r, now))
    case Allowed =>
      sound && subject && actor && delegation && !stray && Eligible(r, action, now, Acting(registry, r, now))
    case _ => false
  }

  lemma LateReasonsAreInOrder(registry: Registry, o: Orders, r: Request, now: int)
    requires Gate(registry, r, now).None?
    ensures LateOrder(registry, r, now, Conclude(Find(registry, o, r, now)).reason)
  {
    UnsupportedMeansNotEntitled(registry, o, r, now);
    SupportedMeansEntitled(registry, o, r, now);
  }

  lemma SupportedMeansEntitled(registry: Registry, o: Orders, r: Request, now: int)
    requires Gate(registry, r, now).None?
    ensures SubjectSupport(registry, o, r, now).Some? ==>
      Entitled(r, registry[r.action.uri], r.subject.value.principal.id, now, r.subjectGrants)
    ensures r.actor.Some? && ActorSupport(registry, o, r, now).Some? ==>
      Entitled(r, registry[r.action.uri], r.actor.value.principal.id, now, r.actorGrants)
  {
  }

  /** The reason of a verdict is the first condition, in the order of the checks, that fails. */
  lemma ReasonIsTheFirst(registry: Registry, o: Orders, r: Request, now: int, earlier: Reason)
    ensures Gate(registry, r, now).None? ==> LateOrder(registry, r, now, Evaluate(registry, o, r, now).reason)
    ensures Rank(earlier) < Rank(Evaluate(registry, o, r, now).reason) ==> !FailsEarly(registry, r, now, earlier)
    ensures Rank(Evaluate(registry, o, r, now).reason) < 18 <==> Gate(registry, r, now).Some?
  {
    if Gate(registry, r, now).None? {
      LateReasonsAreInOrder(registry, o, r, now);
      LateRank(registry, r, now, Evaluate(registry, o, r, now).reason);
      GateNamesTheFirst(registry, r, now, earlier);
    } else {
      GateIsTruthful(registry, r, now);
      if Rank(earlier) < Rank(Gate(registry, r, now).value) {
        GateNamesTheFirst(registry, r, now, earlier);
      }
    }
  }

  lemma LateRank(registry: Registry, r: Request, now: int, reason: Reason)
    requires Gate(registry, r, now).None? && LateOrder(registry, r, now, reason)
    ensures Rank(reason) == 18
  {
  }
}
