/** Logout and token checking (`internal/handlers/auth.go`, `internal/middleware/auth.go`):
    a logged-out token is blacklisted in Redis until it expires. Instants are nanoseconds;
    token expiry is in whole seconds. */
module Logout {
  const SECOND := 1_000_000_000
  const MAX_INT64 := 0x7FFF_FFFF_FFFF_FFFF

  /** The claims of a token. RequireAuth verifies the token it reads them from; Logout reads those
      of the request's header without verifying, so they may be any. */
  datatype Token = Token(jti: string, exp: int)

  /** Keys with the instant they expire at. */
  datatype State = State(now: int, redis: map<string, int>)

  predicate Alive(s: State, key: string) {
    key in s.redis && s.now < s.redis[key]
  }

  function BlacklistKey(jti: string): string { "blacklist:" + jti }

  /** RequireAuth: parsing rejects from `exp` on (section 4.1.4 of RFC 7519), then the handler's
      own expiry test and the blacklist follow. The blacklist is skipped when Redis fails. */
  predicate Accepts(s: State, t: Token, redisAnswers: bool) {
    && s.now < t.exp * SECOND
    && !(t.exp * SECOND < s.now)
    && (t.jti != "" && redisAnswers ==> !Alive(s, BlacklistKey(t.jti)))
  }

  /** time.Time.Unix: whole seconds, rounded down. */
  function Unix(now: int): int { now / SECOND }

  /** Go's int64 arithmetic. */
  function WrapInt64(x: int): int {
    var r := x % 0x1_0000_0000_0000_0000;
    if r <= MAX_INT64 then r else r - 0x1_0000_0000_0000_0000
  }

  /** The time to live Logout computes at `now`. */
  function LogoutTtl(now: int, exp: int): int { WrapInt64((exp - Unix(now)) * SECOND) }

  /** The time left until the expiry is a Go duration: at most some 292 years. */
  predicate Fits(now: int, exp: int) { (exp - Unix(now)) * SECOND <= MAX_INT64 }

  /** Logout reads the clock, and its SET reaches Redis `delay` later, or not at all: the handler
      reports success either way. */
  function LogoutToken(s: State, t: Token, delay: nat, setReached: bool): State {
    var ttl := LogoutTtl(s.now, t.exp);
    var later := s.now + delay;
    if ttl > 0 && setReached then State(later, s.redis[BlacklistKey(t.jti) := later + ttl]) else s.(now := later)
  }

  datatype Step =
    | Wait(duration: nat)
    | LogoutOf(token: Token, delay: nat, setReached: bool)
    | RevokeSession(token: Token)
    | SetOther(key: string, ttl: nat)
    | DeleteOther(key: string)
    | Evict

  /** Every other key the service writes or deletes starts differently. */
  predicate ValidStep(step: Step) {
    step.SetOther? || step.DeleteOther? ==> !("blacklist:" <= step.key)
  }

  /** Revoking a session by identifier writes under a longer prefix. Evict drops expired keys. Other
      writes that do not reach Redis are no steps. */
  function Next(s: State, step: Step): State
    requires ValidStep(step)
  {
    match step
    case Wait(d) => s.(now := s.now + d)
    case LogoutOf(t, delay, reached) => LogoutToken(s, t, delay, reached)
    case RevokeSession(t) =>
      if t.exp * SECOND > s.now then s.(redis := s.redis[BlacklistKey("jti:" + t.jti) := t.exp * SECOND]) else s
    case SetOther(key, ttl) => s.(redis := s.redis[key := s.now + ttl])
    case DeleteOther(key) => s.(redis := s.redis - {key})
    case Evict => s.(redis := map k | k in s.redis && s.now < s.redis[k] :: s.redis[k])
  }

  predicate ValidRun(steps: seq<Step>) {
    forall i :: 0 <= i < |steps| ==> ValidStep(steps[i])
  }

  function After(s: State, steps: seq<Step>): State
    requires ValidRun(steps)
    decreases |steps|
  {
    if steps == [] then s else Next(After(s, steps[..|steps| - 1]), steps[|steps| - 1])
  }

  /** The token is expired, or its blacklist key outlives it. */
  predicate Blocked(s: State, t: Token) {
    || t.exp * SECOND <= s.now
    || (BlacklistKey(t.jti) in s.redis && t.exp * SECOND <= s.redis[BlacklistKey(t.jti)])
  }

  lemma TtlFits(now: int, exp: int)
    requires Fits(now, exp) && now < exp * SECOND
    ensures LogoutTtl(now, exp) == exp * SECOND - Unix(now) * SECOND > 0
  {
    assert Unix(now) * SECOND <= now;
    assert (exp - Unix(now)) * SECOND == exp * SECOND - Unix(now) * SECOND;
  }

  /** Outside that range the computed time to live is off by a multiple of 2 to the 64; an expiry just
      beyond it makes it negative, and the logout stores nothing. */
  lemma TtlWraps(s: State, t: Token, delay: nat, setReached: bool)
    ensures var ttl, exact := LogoutTtl(s.now, t.exp), (t.exp - Unix(s.now)) * SECOND;
            && -MAX_INT64 - 1 <= ttl <= MAX_INT64
            && (exact - ttl) % 0x1_0000_0000_0000_0000 == 0
            && (MAX_INT64 < exact < 0x1_0000_0000_0000_0000 ==>
                  LogoutToken(s, t, delay, setReached) == s.(now := s.now + delay))
  {
  }

  /** A logout blocks the token exactly when its SET reaches Redis or the token was blocked
      anyway: rounding the clock down can only make the key live longer. */
  lemma LogoutBlocks(s: State, t: Token, delay: nat, setReached: bool)
    requires Fits(s.now, t.exp)
    ensures Blocked(LogoutToken(s, t, delay, setReached), t) <==> setReached || Blocked(s.(now := s.now + delay), t)
  {
    if s.now < t.exp * SECOND {
      TtlFits(s.now, t.exp);
      assert Unix(s.now) * SECOND <= s.now;
    }
  }

  /** Other keys live for their time to live until deleted, and never touch the blacklist. */
  lemma OtherKeysAreSeparate(s: State, key: string, ttl: nat, jti: string)
    requires !("blacklist:" <= key)
    ensures var written := Next(s, SetOther(key, ttl));
            var deleted := Next(written, DeleteOther(key));
            && (Alive(written, key) <==> ttl > 0) && !Alive(deleted, key)
            && (Alive(written, BlacklistKey(jti)) <==> Alive(s, BlacklistKey(jti)))
            && (Alive(deleted, BlacklistKey(jti)) <==> Alive(s, BlacklistKey(jti)))
  {
    assert "blacklist:" <= BlacklistKey(jti);
  }

  lemma BlacklistKeyInjective(a: string, b: string)
    requires BlacklistKey(a) == BlacklistKey(b)
    ensures a == b
  {
    assert a == BlacklistKey(a)[10..] && b == BlacklistKey(b)[10..];
  }

  /** The step replaces the token's blacklist entry by one that ends before the token expires: a
      logout whose header names the same identifier with claims of its own, or a session revocation
      whose longer prefix spells it. */
  predicate Shortens(s: State, step: Step, t: Token) {
    match step
    case LogoutOf(u, delay, reached) =>
      && reached && u.jti == t.jti
      && 0 < LogoutTtl(s.now, u.exp) < t.exp * SECOND - (s.now + delay)
    case RevokeSession(u) => "jti:" + u.jti == t.jti && s.now < u.exp * SECOND < t.exp * SECOND
    case _ => false
  }

  /** Exactly such a step unblocks a token. */
  lemma StepKeepsBlockedIff(s: State, step: Step, t: Token)
    requires ValidStep(step) && Blocked(s, t)
    ensures Blocked(Next(s, step), t) <==> !Shortens(s, step, t)
  {
    match step
    case LogoutOf(u, delay, reached) =>
      if BlacklistKey(u.jti) == BlacklistKey(t.jti) {
        BlacklistKeyInjective(u.jti, t.jti);
      }
    case RevokeSession(u) =>
      if BlacklistKey("jti:" + u.jti) == BlacklistKey(t.jti) {
        BlacklistKeyInjective("jti:" + u.jti, t.jti);
      }
    case SetOther(key, _) => assert "blacklist:" <= BlacklistKey(t.jti);
    case DeleteOther(key) => assert "blacklist:" <= BlacklistKey(t.jti);
    case _ =>
  }

  ghost predicate NeverShortens(s: State, steps: seq<Step>, t: Token)
    requires ValidRun(steps)
  {
    forall n: nat :: n < |steps| ==> !Shortens(After(s, steps[..n]), steps[n], t)
  }

  /** However long one waits, a check that reaches Redis refuses the token. */
  ghost predicate RefusedFrom(s: State, t: Token) {
    forall duration: nat :: !Accepts(Next(s, Wait(duration)), t, true)
  }

  lemma BlockedIsRefused(s: State, t: Token)
    requires Blocked(s, t) && t.jti != ""
    ensures RefusedFrom(s, t)
  {
  }

  /** After a shortening step one only has to wait. */
  lemma ShorteningReopens(s: State, step: Step, t: Token) returns (duration: nat)
    requires ValidStep(step) && Shortens(s, step, t)
    ensures Accepts(Next(Next(s, step), Wait(duration)), t, true)
  {
    var u := Next(s, step);
    assert BlacklistKey(t.jti) in u.redis && u.now < u.redis[BlacklistKey(t.jti)] < t.exp * SECOND;
    duration := u.redis[BlacklistKey(t.jti)] - u.now;
  }

  lemma AfterSnoc(s: State, steps: seq<Step>, n: nat)
    requires ValidRun(steps) && n < |steps|
    ensures ValidRun(steps[..n]) && ValidRun(steps[..n + 1])
    ensures After(s, steps[..n + 1]) == Next(After(s, steps[..n]), steps[n])
  {
    assert steps[..n + 1][..n] == steps[..n];
  }

  lemma {:induction false} RunKeepsBlocked(s: State, steps: seq<Step>, t: Token, n: nat)
    requires ValidRun(steps) && n <= |steps| && Blocked(s, t)
    requires NeverShortens(s, steps, t)
    ensures Blocked(After(s, steps[..n]), t)
  {
    if n == 0 {
    } else {
      RunKeepsBlocked(s, steps, t, n - 1);
      AfterSnoc(s, steps, n - 1);
      StepKeepsBlockedIff(After(s, steps[..n - 1]), steps[n - 1], t);
    }
  }

  /** Over whole runs: a blocked token is refused at every moment of the run, and however long one
      waits there, exactly when no step shortens its entry. */
  lemma RefusedThroughoutIff(s: State, steps: seq<Step>, t: Token)
    requires ValidRun(steps) && Blocked(s, t) && t.jti != ""
    ensures NeverShortens(s, steps, t) <==>
            forall n: nat :: n <= |steps| ==> RefusedFrom(After(s, steps[..n]), t)
  {
    if NeverShortens(s, steps, t) {
      forall n: nat | n <= |steps| ensures RefusedFrom(After(s, steps[..n]), t) {
        RunKeepsBlocked(s, steps, t, n);
        BlockedIsRefused(After(s, steps[..n]), t);
      }
    } else {
      var n: nat :| n < |steps| && Shortens(After(s, steps[..n]), steps[n], t);
      AfterSnoc(s, steps, n);
      var duration := ShorteningReopens(After(s, steps[..n]), steps[n], t);
      assert !RefusedFrom(After(s, steps[..n + 1]), t);
    }
  }

  /** After a logout whose SET reached Redis, over every run of whatever claims the other logouts
      carry: every later check that reaches Redis refuses the token exactly when no step of the run
      shortens its entry. */
  lemma NoGapAfterLogout(s: State, t: Token, delay: nat, steps: seq<Step>)
    requires ValidRun(steps) && t.jti != "" && Fits(s.now, t.exp)
    ensures var out := LogoutToken(s, t, delay, true);
            NeverShortens(out, steps, t) <==>
            forall n: nat :: n <= |steps| ==> RefusedFrom(After(out, steps[..n]), t)
  {
    LogoutBlocks(s, t, delay, true);
    RefusedThroughoutIff(LogoutToken(s, t, delay, true), steps, t);
  }

  /** What can be asked of a request beforehand: it does not name this identifier with an earlier
      expiry, nor with one too far away for a duration. */
  predicate NamesNoEarlierExpiry(step: Step, t: Token, now: int) {
    && (step.LogoutOf? && step.token.jti == t.jti ==> t.exp <= step.token.exp && Fits(now, step.token.exp))
    && (step.RevokeSession? && "jti:" + step.token.jti == t.jti ==> t.exp <= step.token.exp)
  }

  lemma {:induction false} ClockAdvances(s: State, steps: seq<Step>)
    requires ValidRun(steps)
    ensures s.now <= After(s, steps).now
    decreases |steps|
  {
    if steps == [] {
    } else {
      ClockAdvances(s, steps[..|steps| - 1]);
    }
  }

  /** That is enough, whatever the rest of the run does. */
  lemma LaterExpiriesNeverShorten(s: State, steps: seq<Step>, t: Token)
    requires ValidRun(steps) && forall i :: 0 <= i < |steps| ==> NamesNoEarlierExpiry(steps[i], t, s.now)
    ensures NeverShortens(s, steps, t)
  {
    forall n: nat | n < |steps| ensures !Shortens(After(s, steps[..n]), steps[n], t) {
      var u, step := After(s, steps[..n]), steps[n];
      ClockAdvances(s, steps[..n]);
      assert NamesNoEarlierExpiry(step, t, s.now);
      if step.LogoutOf? && step.token.jti == t.jti && u.now + step.delay < t.exp * SECOND {
        FitsLater(s.now, u.now, step.token.exp);
        TtlFits(u.now, step.token.exp);
        assert Unix(u.now) * SECOND <= u.now;
      }
    }
  }

  lemma FitsLater(now: int, later: int, exp: int)
    requires now <= later && Fits(now, exp)
    ensures Fits(later, exp)
  {
    assert Unix(now) <= Unix(later);
  }

  /** The condition matters: a logout naming the identifier with the next second as its expiry, and
      two seconds, and the logged-out token is accepted once more. */
  lemma EarlierExpiryReopens(s: State, t: Token)
    requires t.jti != "" && s.now + 2 * SECOND < t.exp * SECOND
    ensures var again := LogoutOf(Token(t.jti, Unix(s.now) + 1), 0, true);
            Accepts(After(LogoutToken(s, t, 0, true), [again, Wait(2 * SECOND)]), t, true)
  {
    var out := LogoutToken(s, t, 0, true);
    var again := LogoutOf(Token(t.jti, Unix(s.now) + 1), 0, true);
    var steps := [again, Wait(2 * SECOND)];
    assert ValidRun(steps);
    assert steps[..1] == [again] && steps[..1][..0] == [];
    AfterSnoc(out, steps, 0);
    AfterSnoc(out, steps, 1);
    assert steps[..0] == [] && steps[..2] == steps;
    assert LogoutTtl(out.now, Unix(out.now) + 1) == SECOND;
  }

  /** Before its expiry a logged-out token is refused exactly when it carries an identifier, Redis
      answers the check, and a SET with a time to live reached Redis or the token was on the
      blacklist already. The time to live is positive unless it overflows. */
  lemma LogoutRevokesIff(s: State, t: Token, delay: nat, setReached: bool, redisAnswers: bool)
    requires s.now + delay < t.exp * SECOND
    ensures !Accepts(LogoutToken(s, t, delay, setReached), t, redisAnswers) <==>
      && t.jti != "" && redisAnswers
      && ((setReached && LogoutTtl(s.now, t.exp) > 0) || Alive(s.(now := s.now + delay), BlacklistKey(t.jti)))
    ensures Fits(s.now, t.exp) ==> LogoutTtl(s.now, t.exp) > 0
  {
    if Fits(s.now, t.exp) {
      TtlFits(s.now, t.exp);
    }
  }

  /** Revoking a session by identifier does not stop its token: the key it writes is not the
      one the check reads. */
  lemma RevokeSessionIsNotLogout(s: State, t: Token)
    ensures forall up :: Accepts(Next(s, RevokeSession(t)), t, up) <==> Accepts(s, t, up)
  {
    assert |BlacklistKey("jti:" + t.jti)| == |BlacklistKey(t.jti)| + 4;
  }
}
