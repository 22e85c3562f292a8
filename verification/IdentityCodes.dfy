/**
 * Authorization codes of the reference identity provider and the time window of
 * the tokens they buy
 * (packages/tasq-cloud-control-plane/src/reference-identity.ts:92-198 and
 * packages/tasq-cloud-control-plane/src/oidc-claims.ts). Codes are single use as
 * in section 4.1.2 of RFC 6749.
 */
module IdentityCodes {
  import opened Common

  const CAPACITY: nat := 1_024
  const CODE_LIFETIME_MS: int := 60_000

  datatype Record = Record(nonce: Option<string>, expiresAt: int)

  type Codes = map<string, Record>

  /** The codes that have not expired at `now`. */
  function Unexpired(codes: Codes, now: int): Codes {
    map c | c in codes && now < codes[c].expiresAt :: codes[c]
  }

  /** /authorize after the request itself was accepted. */
  function AfterAuthorize(codes: Codes, code: string, nonce: Option<string>, now: int): Codes {
    var kept := Unexpired(codes, now);
    if |kept| >= CAPACITY then kept else kept[code := Record(nonce, now + CODE_LIFETIME_MS)]
  }

  /** /token accepts this code for a request that read the clock at `now`; `credentials` are the other form fields. */
  predicate Redeemable(codes: Codes, code: string, credentials: bool, now: int) {
    credentials && code in codes && now < codes[code].expiresAt
  }

  // ----- the time window of an identity token

  datatype Claims = Claims(iat: int, exp: int, authTime: int, nonce: Option<string>)

  const FUTURE_SKEW_MS: int := 30_000

  function IdToken(now: int, nonce: Option<string>): Claims {
    var seconds := now / 1_000;
    Claims(seconds, seconds + 300, seconds, nonce)
  }

  predicate TemporalClaimsAccepted(c: Claims, observedAt: int) {
    && c.exp * 1_000 > observedAt
    && c.iat * 1_000 <= observedAt + FUTURE_SKEW_MS
    && c.authTime * 1_000 <= observedAt + FUTURE_SKEW_MS
    && c.exp - c.iat <= 300
  }

  /** A token minted at m is accepted exactly from 30 s before its whole second until 300 s after it. */
  lemma AcceptanceWindow(m: int, t: int, nonce: Option<string>)
    ensures TemporalClaimsAccepted(IdToken(m, nonce), t) <==>
      m - m % 1_000 - 30_000 <= t < m - m % 1_000 + 300_000
  {
    assert m == m / 1_000 * 1_000 + m % 1_000;
  }

  /**
   * Whatever its claims, a token is accepted during one interval: from 30 s
   * before the later of issue and authentication until it expires, if it expires
   * within 300 s of its issue, and never otherwise; so for less than 330 s.
   */
  lemma ClaimsAcceptedExactly(c: Claims, t: int, t': int)
    ensures TemporalClaimsAccepted(c, t) <==>
      && c.exp <= c.iat + 300 && t < c.exp * 1_000
      && (forall s :: s == c.iat || s == c.authTime ==> s * 1_000 - 30_000 <= t)
    ensures TemporalClaimsAccepted(c, t) && TemporalClaimsAccepted(c, t') ==> t' - t < 330_000
  {
  }

  class CodeStore {
    var codes: Codes
    /** The clock each token request read when it arrived. */
    var waiting: map<nat, int>

    constructor ()
      ensures codes == map[] && waiting == map[]
    {
      codes, waiting := map[], map[];
    }

    method PurgeExpired(now: int)
      modifies this`codes
      ensures codes == Unexpired(old(codes), now)
    {
      var left := codes.Keys;
      while left != {}
        invariant left <= codes.Keys <= old(codes).Keys
        invariant forall c :: c in codes ==> codes[c] == old(codes)[c]
        invariant forall c :: c in old(codes) && c !in left ==> (c in codes <==> now < old(codes)[c].expiresAt)
        invariant forall c :: c in left ==> c in codes
        decreases left
      {
        var c :| c in left;
        left := left - {c};
        if codes[c].expiresAt <= now {
          codes := codes - {c};
        }
      }
    }

    method Authorize(code: string, nonce: Option<string>, now: int) returns (issued: bool)
      modifies this`codes
      ensures codes == AfterAuthorize(old(codes), code, nonce, now)
      ensures issued <==> |Unexpired(old(codes), now)| < 1_024
      ensures issued ==> code in codes && codes[code].nonce == nonce && codes[code].expiresAt == now + 60_000
    {
      PurgeExpired(now);
      if |codes| >= CAPACITY { return false; }
      codes := codes[code := Record(nonce, now + CODE_LIFETIME_MS)];
      return true;
    }

    /** The first half of /token: the clock is read before the body is awaited. */
    method TokenArrives(request: nat, now: int)
      requires request !in waiting
      modifies this`waiting
      ensures waiting == old(waiting)[request := now]
    {
      waiting := waiting[request := now];
    }

    /** The second half of /token: the code is looked up once the body has arrived. */
    method TokenHandled(request: nat, code: string, credentials: bool) returns (token: Option<Claims>)
      requires request in waiting
      modifies this
      ensures waiting == old(waiting) - {request}
      ensures token.Some? <==> Redeemable(old(codes), code, credentials, old(waiting)[request])
      ensures token.Some? ==>
        && token.value == IdToken(old(waiting)[request], old(codes)[code].nonce)
        && codes == old(codes) - {code}
      ensures token.None? ==> codes == old(codes)
    {
      var now := waiting[request];
      waiting := waiting - {request};
      if !credentials || code !in codes || codes[code].expiresAt <= now { return None; }
      var record := codes[code];
      codes := codes - {code};
      return Some(IdToken(now, record.nonce));
    }
  }

  // ----- whole runs

  /** `at` is the clock when the step happens; a token request reads it on arrival only. */
  datatype Step =
    | AuthorizeStep(code: string, nonce: Option<string>, at: int)
    | ArriveStep(request: nat, at: int)
    | HandleStep(request: nat, code: string, credentials: bool, at: int)

  datatype Issue = Issue(at: int, nonce: Option<string>)

  /** `sampled` is the clock the request read, `at` the clock when it was handled. */
  datatype Redemption = Redemption(code: string, sampled: int, at: int, token: Claims)

  /** The store together with everything it ever issued and redeemed. */
  datatype History = History(
    codes: Codes, waiting: map<nat, int>, issued: map<string, Issue>, redeemed: seq<Redemption>)

  const NOTHING := History(map[], map[], map[], [])

  /** Handling this request now redeems the code. */
  predicate Redeems(h: History, request: nat, code: string, credentials: bool) {
    request in h.waiting && Redeemable(h.codes, code, credentials, h.waiting[request])
  }

  function Take(h: History, s: Step): History {
    match s
    case AuthorizeStep(code, nonce, at) =>
      h.(codes := AfterAuthorize(h.codes, code, nonce, at),
         issued := if |Unexpired(h.codes, at)| < CAPACITY then h.issued[code := Issue(at, nonce)] else h.issued)
    case ArriveStep(request, at) =>
      if request in h.waiting then h else h.(waiting := h.waiting[request := at])
    case HandleStep(request, code, credentials, at) =>
      if request !in h.waiting then h
      else if Redeems(h, request, code, credentials) then
        var sampled := h.waiting[request];
        History(h.codes - {code}, h.waiting - {request}, h.issued,
                h.redeemed + [Redemption(code, sampled, at, IdToken(sampled, h.codes[code].nonce))])
      else h.(waiting := h.waiting - {request})
  }

  function TakeAll(steps: seq<Step>): History {
    if steps == [] then NOTHING else Take(TakeAll(steps[..|steps| - 1]), steps[|steps| - 1])
  }

  /** The random generator never repeats a code. */
  predicate Fresh(steps: seq<Step>) {
    forall i, j :: 0 <= i < j < |steps| && steps[i].AuthorizeStep? && steps[j].AuthorizeStep? ==>
      steps[i].code != steps[j].code
  }

  /** A redemption of a code that was issued, read before the code expired, with the code's own nonce. */
  predicate Proper(h: History, r: Redemption) {
    && r.code in h.issued && r.code !in h.codes
    && r.sampled < h.issued[r.code].at + 60_000
    && r.token.nonce == h.issued[r.code].nonce
    && r.token.iat * 1_000 <= r.sampled < r.token.iat * 1_000 + 1_000
    && r.token.authTime == r.token.iat && r.token.exp == r.token.iat + 300
  }

  ghost predicate SingleUse(h: History) {
    && |h.codes| <= 1_024
    && (forall i, j :: 0 <= i < j < |h.redeemed| ==> h.redeemed[i].code != h.redeemed[j].code)
    && (forall i :: 0 <= i < |h.redeemed| ==> Proper(h, h.redeemed[i]))
    && (forall c :: c in h.codes ==>
          c in h.issued && h.codes[c] == Record(h.issued[c].nonce, h.issued[c].at + CODE_LIFETIME_MS))
  }

  lemma {:induction false} IssuedByAStep(steps: seq<Step>, code: string) returns (i: nat)
    requires code in TakeAll(steps).issued
    ensures i < |steps| && steps[i].AuthorizeStep? && steps[i].code == code
  {
    var front := steps[..|steps| - 1];
    if code in TakeAll(front).issued {
      i := IssuedByAStep(front, code);
    } else {
      i := |steps| - 1;
    }
  }

  lemma StepKeepsSingleUse(h: History, s: Step)
    requires SingleUse(h) && (s.AuthorizeStep? ==> s.code !in h.issued)
    ensures SingleUse(Take(h, s))
  {
    if s.AuthorizeStep? {
      AuthorizeKeepsSingleUse(h, s);
    } else if s.HandleStep? && Redeems(h, s.request, s.code, s.credentials) {
      RedemptionKeepsSingleUse(h, s);
    }
  }

  lemma AuthorizeKeepsSingleUse(h: History, s: Step)
    requires SingleUse(h) && s.AuthorizeStep? && s.code !in h.issued
    ensures SingleUse(Take(h, s))
  {
    var kept := Unexpired(h.codes, s.at);
    assert kept.Keys <= h.codes.Keys;
    SubsetSize(kept.Keys, h.codes.Keys);
    forall i | 0 <= i < |h.redeemed| ensures Proper(Take(h, s), h.redeemed[i]) {
      assert Proper(h, h.redeemed[i]);
    }
  }

  lemma RedemptionKeepsSingleUse(h: History, s: Step)
    requires SingleUse(h) && s.HandleStep? && Redeems(h, s.request, s.code, s.credentials)
    ensures SingleUse(Take(h, s))
  {
    var h' := Take(h, s);
    assert h'.codes.Keys == h.codes.Keys - {s.code};
    assert |h'.codes| == |h'.codes.Keys| <= |h.codes.Keys| == |h.codes|;
    forall i | 0 <= i < |h'.redeemed| ensures Proper(h', h'.redeemed[i]) {
      assert i < |h.redeemed| ==> Proper(h, h.redeemed[i]);
    }
  }

  /**
   * With a generator that never repeats, every run redeems each code at most
   * once and only for a request whose clock was read less than 60 s after the
   * issue, for a token with the nonce of its own authorize request, and never
   * stores more than 1024 codes.
   */
  lemma {:induction false} RunsAreSingleUse(steps: seq<Step>)
    requires Fresh(steps)
    ensures SingleUse(TakeAll(steps))
  {
    if steps != [] {
      var front, s := steps[..|steps| - 1], steps[|steps| - 1];
      RunsAreSingleUse(front);
      NewCodeIsUnissued(steps);
      StepKeepsSingleUse(TakeAll(front), s);
    }
  }

  lemma NewCodeIsUnissued(steps: seq<Step>)
    requires Fresh(steps) && steps != []
    ensures var s := steps[|steps| - 1];
      s.AuthorizeStep? ==> s.code !in TakeAll(steps[..|steps| - 1]).issued
  {
    var front, s := steps[..|steps| - 1], steps[|steps| - 1];
    if s.AuthorizeStep? && s.code in TakeAll(front).issued {
      var i := IssuedByAStep(front, s.code);
    }
  }

  // ----- when a code is still there

  predicate RedeemedIn(h: History, code: string) {
    exists i :: 0 <= i < |h.redeemed| && h.redeemed[i].code == code
  }

  /** Some authorize request came at or after this time, and purged what had expired by then. */
  predicate PurgedSince(steps: seq<Step>, time: int) {
    exists i :: 0 <= i < |steps| && steps[i].AuthorizeStep? && time <= steps[i].at
  }

  /** The clock does not run backwards. */
  predicate Monotone(steps: seq<Step>) {
    forall i, j :: 0 <= i < j < |steps| ==> steps[i].at <= steps[j].at
  }

  /** A code leaves the store only by being redeemed or by a purge at or after its expiry. */
  ghost predicate StoredExactly(h: History, steps: seq<Step>) {
    forall c :: c in h.issued ==>
      (c in h.codes <==> !RedeemedIn(h, c) && !PurgedSince(steps, h.issued[c].at + CODE_LIFETIME_MS))
  }

  lemma RedeemedStays(h: History, s: Step, code: string)
    requires RedeemedIn(h, code)
    ensures RedeemedIn(Take(h, s), code)
  {
    var i :| 0 <= i < |h.redeemed| && h.redeemed[i].code == code;
    assert Take(h, s).redeemed[i] == h.redeemed[i];
  }

  /** Which codes one step adds to the redeemed ones. */
  lemma RedeemedBy(h: History, s: Step, code: string)
    ensures RedeemedIn(Take(h, s), code) <==>
      || RedeemedIn(h, code)
      || (s.HandleStep? && code == s.code && Redeems(h, s.request, s.code, s.credentials))
  {
    var h' := Take(h, s);
    if RedeemedIn(h, code) {
      RedeemedStays(h, s, code);
    }
    if s.HandleStep? && Redeems(h, s.request, s.code, s.credentials) {
      assert h'.redeemed[|h.redeemed|].code == s.code;
      if i :| 0 <= i < |h'.redeemed| && h'.redeemed[i].code == code && code != s.code {
        assert h.redeemed[i].code == code;
      }
    }
  }

  lemma PurgedByOneMore(steps: seq<Step>, time: int)
    requires steps != []
    ensures var front, s := steps[..|steps| - 1], steps[|steps| - 1];
      PurgedSince(steps, time) <==> PurgedSince(front, time) || (s.AuthorizeStep? && time <= s.at)
  {
    var front := steps[..|steps| - 1];
    if PurgedSince(front, time) {
      var i :| 0 <= i < |front| && front[i].AuthorizeStep? && time <= front[i].at;
      assert steps[i] == front[i];
    }
    if PurgedSince(steps, time) {
      var i :| 0 <= i < |steps| && steps[i].AuthorizeStep? && time <= steps[i].at;
      assert i < |front| ==> front[i] == steps[i];
    }
  }

  /** Nothing that expires later than the present has been purged. */
  lemma NotPurgedYet(steps: seq<Step>, time: int)
    requires Monotone(steps) && steps != [] && steps[|steps| - 1].at < time
    ensures !PurgedSince(steps, time)
  {
  }

  lemma StepKeepsStored(steps: seq<Step>)
    requires Fresh(steps) && Monotone(steps) && steps != []
    requires StoredExactly(TakeAll(steps[..|steps| - 1]), steps[..|steps| - 1])
    requires SingleUse(TakeAll(steps[..|steps| - 1]))
    ensures StoredExactly(TakeAll(steps), steps)
  {
    var front, s := steps[..|steps| - 1], steps[|steps| - 1];
    var h, h' := TakeAll(front), TakeAll(steps);
    NewCodeIsUnissued(steps);
    forall c | c in h'.issued
      ensures c in h'.codes <==> !RedeemedIn(h', c) && !PurgedSince(steps, h'.issued[c].at + CODE_LIFETIME_MS)
    {
      RedeemedBy(h, s, c);
      PurgedByOneMore(steps, h'.issued[c].at + CODE_LIFETIME_MS);
      if c in h.issued {
        OldCodeStored(h, s, c);
      } else {
        assert s.AuthorizeStep? && c == s.code && c in h'.codes;
        NotPurgedYet(steps, s.at + CODE_LIFETIME_MS);
        UnissuedIsUnredeemed(h, c);
      }
    }
  }

  lemma UnissuedIsUnredeemed(h: History, code: string)
    requires SingleUse(h) && code !in h.issued
    ensures !RedeemedIn(h, code)
  {
    forall i | 0 <= i < |h.redeemed| ensures h.redeemed[i].code != code {
      assert Proper(h, h.redeemed[i]);
    }
  }

  /** One step keeps an issued code stored exactly unless it redeems it or purges it. */
  lemma OldCodeStored(h: History, s: Step, c: string)
    requires SingleUse(h) && c in h.issued && (s.AuthorizeStep? ==> s.code !in h.issued)
    ensures c in Take(h, s).issued && Take(h, s).issued[c] == h.issued[c]
    ensures c in Take(h, s).codes <==>
      && c in h.codes
      && !(s.HandleStep? && c == s.code && Redeems(h, s.request, s.code, s.credentials))
      && !(s.AuthorizeStep? && h.issued[c].at + CODE_LIFETIME_MS <= s.at)
  {
  }

  lemma {:induction false} RunsStoreExactly(steps: seq<Step>)
    requires Fresh(steps) && Monotone(steps)
    ensures StoredExactly(TakeAll(steps), steps)
  {
    if steps != [] {
      var front := steps[..|steps| - 1];
      RunsStoreExactly(front);
      RunsAreSingleUse(front);
      StepKeepsStored(steps);
    }
  }

  /**
   * With a clock that does not run backwards, handling a request with right
   * credentials redeems a code exactly when the code was issued and not yet
   * redeemed, the request had read the clock before the code expired, and no
   * authorize request has come since it expired. Capacity never costs a code.
   */
  lemma RedeemsExactly(steps: seq<Step>, request: nat, code: string)
    requires Fresh(steps) && Monotone(steps)
    ensures var h := TakeAll(steps);
      Redeems(h, request, code, true) <==>
        && request in h.waiting && code in h.issued && !RedeemedIn(h, code)
        && h.waiting[request] < h.issued[code].at + 60_000
        && !PurgedSince(steps, h.issued[code].at + 60_000)
  {
    RunsAreSingleUse(steps);
    RunsStoreExactly(steps);
  }

  /** Every waiting request read the clock at some step of the run. */
  lemma {:induction false} SampledInThePast(steps: seq<Step>, request: nat, now: int)
    requires Monotone(steps) && request in TakeAll(steps).waiting && steps != [] && steps[|steps| - 1].at <= now
    ensures TakeAll(steps).waiting[request] <= now
  {
    var front := steps[..|steps| - 1];
    if request in TakeAll(front).waiting {
      SampledInThePast(front, request, now);
    }
  }

  /** Handled within 60 s of the issue by the clock on the wall, an unredeemed code is always redeemed. */
  lemma PromptRequestRedeems(steps: seq<Step>, h: History, request: nat, code: string, now: int)
    requires Fresh(steps) && Monotone(steps) && steps != [] && steps[|steps| - 1].at <= now && h == TakeAll(steps)
    requires request in h.waiting && code in h.issued && now < h.issued[code].at + 60_000
    ensures Redeems(h, request, code, true) <==> !RedeemedIn(h, code)
  {
    SampledInThePast(steps, request, now);
    NotPurgedYet(steps, h.issued[code].at + CODE_LIFETIME_MS);
    RedeemsExactly(steps, request, code);
  }

  /** A body that stalls for an hour still redeems a code that expired after a minute. */
  lemma StalledBodyRedeemsLate(code: string)
    ensures var steps := [AuthorizeStep(code, None, 0), ArriveStep(0, 1), HandleStep(0, code, true, 3_600_000)];
      var h := TakeAll(steps);
      && Fresh(steps) && Monotone(steps)
      && |h.redeemed| == 1 && h.redeemed[0].code == code && code in h.issued
      && h.redeemed[0].at >= h.issued[code].at + CODE_LIFETIME_MS
  {
    var a, b, c := AuthorizeStep(code, None, 0), ArriveStep(0, 1), HandleStep(0, code, true, 3_600_000);
    assert [a, b, c][..2] == [a, b] && [a, b][..1] == [a] && [a][..0] == [];
    assert TakeAll([a]) == Take(NOTHING, a);
    assert TakeAll([a, b]) == Take(TakeAll([a]), b);
    assert TakeAll([a, b, c]) == Take(TakeAll([a, b]), c);
    assert Unexpired(NOTHING.codes, 0) == map[];
  }

  /** A generator that repeats a code lets it be redeemed twice, so freshness is needed. */
  lemma RepeatedCodeRedeemsTwice(code: string)
    ensures var a := AuthorizeStep(code, None, 0);
      var h1 := Take(Take(Take(NOTHING, a), ArriveStep(0, 0)), HandleStep(0, code, true, 0));
      var h2 := Take(Take(Take(h1, a), ArriveStep(1, 0)), HandleStep(1, code, true, 0));
      |h2.redeemed| == 2 && h2.redeemed[0].code == h2.redeemed[1].code == code
  {
    var a := AuthorizeStep(code, None, 0);
    var h1 := Take(Take(Take(NOTHING, a), ArriveStep(0, 0)), HandleStep(0, code, true, 0));
    assert Unexpired(NOTHING.codes, 0) == map[];
    assert h1.codes == map[];
    assert Unexpired(h1.codes, 0) == map[];
  }
}
