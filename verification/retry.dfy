/** The four retry policies. A policy decides, after a transient failure,
    whether the request may be issued again; it may sleep first. The sleep's
    interruption and the random draw of the exponential policy are inputs. */
module Retry {
  import opened Wrappers
  import opened JavaInt
  import opened Exceptions
  import opened TimeStrings

  datatype Policy =
    | NoRetry                                      // RetryPolicy.none()
    | Forever(sleepTime: Duration)                 // RetryForever
    | Standard(sleepTime: Duration, maxRetries: int)
    | ExponentialBackoff(baseSleepTime: Duration, maxSleepTime: Duration, maxRetries: int)

  /** What one `allowRetry` call observes of its surroundings: whether the
      thread is interrupted while it sleeps, and the raw value behind
      `ThreadLocalRandom.nextInt(bound)`, reduced into `[0, bound)`. */
  datatype Env = Env(interrupted: bool, draw: nat)

  /** One call of the default `RetryPolicy.sleep`. */
  datatype Sleeping = Sleeping(duration: Duration, returned: bool, interruptReasserted: bool)

  /** The outcome of `allowRetry`, with the sleep it performed, if any. */
  datatype Decision = Decision(allow: bool, sleep: Option<Sleeping>)

  const Deny := Decision(false, None)

  /** `RetryPolicy.sleep`: `TimeUnit.sleep` does nothing for a non-positive time;
      otherwise an interrupt aborts the sleep, which then re-asserts the
      interrupt and answers false. */
  function Sleep(time: Duration, interrupted: bool): (s: Sleeping)
    ensures s.duration == time
    ensures !interrupted ==> s.returned && !s.interruptReasserted
    ensures interrupted && time > 0 ==> !s.returned && s.interruptReasserted
  {
    if time > 0 && interrupted then Sleeping(time, false, true) else Sleeping(time, true, false)
  }

  function Pow2(k: nat): (p: nat)
    ensures p >= 1
  {
    if k == 0 then 1 else 2 * Pow2(k - 1)
  }

  /** Java's `1 << k` on an `int`: the shift distance is taken modulo 32 and
      a shift by 31 lands on the sign bit. */
  function ShiftOne(k: int): (r: int)
    ensures 0 <= k < 31 ==> r == Pow2(k)
  {
    var s := k % 32;
    if s == 31 then IntMin else Pow2(s)
  }

  function Min(a: int, b: int): int {
    if a <= b then a else b
  }

  function Max(a: int, b: int): int {
    if a >= b then a else b
  }

  /** The capped exponential sleep: `base * max(1, r)` with `r` drawn below
      `1 << (retryCount + 1)`, clamped to `maxSleep`. A bound that is not
      positive makes `nextInt` throw IllegalArgumentException. */
  function BackoffSleep(base: Duration, maxSleep: Duration, retryCount: int, draw: nat): (r: Result<Duration, Exc>)
    ensures r.Success? ==> r.value <= maxSleep
    ensures 0 <= retryCount < 30 ==> r.Success?
    ensures r.Success? && base >= 0 ==> r.value >= Min(base, maxSleep)
  {
    var bound := ShiftOne(Wrap32(retryCount + 1));
    if bound <= 0 then Failure(Exc(IllegalArgumentClass, "bound must be positive"))
    else
      var exponential := base * Max(1, draw % bound);
      MulAtLeast(base, Max(1, draw % bound));
      Success(if exponential > maxSleep then maxSleep else exponential)
  }

  lemma MulAtLeast(base: int, m: int)
    requires m >= 1
    ensures base >= 0 ==> base * m >= base
  {
  }

  /** `allowRetry(retryCount, elapsed)` of each policy, with the interrupt
      path answering false as every policy's catch clause intends. */
  function AllowRetry(p: Policy, retryCount: int, elapsed: Duration, env: Env): (r: Result<Decision, Exc>)
    ensures p.NoRetry? ==> r == Success(Deny)
    ensures (p.Standard? || p.ExponentialBackoff?) && retryCount >= p.maxRetries ==> r == Success(Deny)
    ensures r.Success? && r.value.sleep.Some? ==> r.value.allow == r.value.sleep.value.returned
    ensures r.Success? && r.value.allow ==> r.value.sleep.Some?
    ensures r.Failure? ==> p.ExponentialBackoff? && r.error.cls == IllegalArgumentClass
  {
    match p
    case NoRetry => Success(Deny)
    case Forever(t) =>
      var s := Sleep(t, env.interrupted);
      Success(Decision(s.returned, Some(s)))
    case Standard(t, maxRetries) =>
      if retryCount < maxRetries then
        var s := Sleep(t, env.interrupted);
        Success(Decision(s.returned, Some(s)))
      else Success(Deny)
    case ExponentialBackoff(base, maxSleep, maxRetries) =>
      if retryCount < maxRetries then
        var time :- BackoffSleep(base, maxSleep, retryCount, env.draw);
        var s := Sleep(time, env.interrupted);
        Success(Decision(s.returned, Some(s)))
      else Success(Deny)
  }

  /** `allowRetry` as the exponential and forever policies are written: they
      call `sleep`, ignore the boolean it returns and answer true, so an
      interrupt swallowed by `sleep` still allows the retry. */
  function AllowRetryAsWritten(p: Policy, retryCount: int, elapsed: Duration, env: Env): (r: Result<Decision, Exc>)
    ensures p.Forever? ==> r.Success? && r.value.allow
    ensures p.ExponentialBackoff? && 0 <= retryCount < p.maxRetries && retryCount < 30 ==> r.Success? && r.value.allow
    ensures p.ExponentialBackoff? && retryCount >= p.maxRetries ==> r == Success(Deny)
    ensures !p.Forever? && !p.ExponentialBackoff? ==> r == AllowRetry(p, retryCount, elapsed, env)
  {
    match p
    case Forever(t) => Success(Decision(true, Some(Sleep(t, env.interrupted))))
    case ExponentialBackoff(base, maxSleep, maxRetries) =>
      if retryCount < maxRetries then
        var time :- BackoffSleep(base, maxSleep, retryCount, env.draw);
        Success(Decision(true, Some(Sleep(time, env.interrupted))))
      else Success(Deny)
    case _ => AllowRetry(p, retryCount, elapsed, env)
  }

  /** An interrupted sleep of one second: as written, both sleeping policies
      still allow the retry; the corrected decision refuses it. */
  lemma InterruptedSleepStillRetriesAsWritten()
    ensures AllowRetryAsWritten(Forever(NanosPerSecond), 0, 0, Env(true, 0)).value.allow
    ensures !AllowRetry(Forever(NanosPerSecond), 0, 0, Env(true, 0)).value.allow
    ensures AllowRetryAsWritten(ExponentialBackoff(NanosPerSecond, NanosPerSecond, 3), 0, 0, Env(true, 1)).value.allow
    ensures !AllowRetry(ExponentialBackoff(NanosPerSecond, NanosPerSecond, 3), 0, 0, Env(true, 1)).value.allow
  {
  }

  /** The decision of every policy is independent of the elapsed time. */
  lemma ElapsedIgnored(p: Policy, retryCount: int, e1: Duration, e2: Duration, env: Env)
    ensures AllowRetry(p, retryCount, e1, env) == AllowRetry(p, retryCount, e2, env)
  {
  }

  /** `none()` refuses every count and elapsed time, and never sleeps. */
  lemma NoRetryRefusesAll()
    ensures forall c: int, e: Duration, env: Env :: AllowRetry(NoRetry, c, e, env) == Success(Deny)
  {
  }

  /** Retry forever: always sleeps the configured time, and allows the retry
      exactly when that sleep was not interrupted. */
  lemma ForeverDecision(t: Duration, retryCount: int, elapsed: Duration, env: Env)
    ensures var r := AllowRetry(Forever(t), retryCount, elapsed, env);
      && r.Success?
      && r.value.sleep == Some(Sleep(t, env.interrupted))
      && (r.value.allow <==> !(env.interrupted && t > 0))
  {
  }

  /** Below its cap the standard policy sleeps exactly `sleepTime` and answers
      what `sleep` answers. */
  lemma StandardDecision(t: Duration, maxRetries: int, retryCount: int, elapsed: Duration, env: Env)
    requires retryCount < maxRetries
    ensures var r := AllowRetry(Standard(t, maxRetries), retryCount, elapsed, env);
      && r.Success?
      && r.value.sleep == Some(Sleep(t, env.interrupted))
      && r.value.allow == Sleep(t, env.interrupted).returned
  {
  }

  /** Below its cap (and below the shift overflow) the exponential policy
      sleeps `min(base * max(1, r), maxSleep)` for some `r < 2^(retryCount+1)`,
      never more than `maxSleep` and, for a non-negative base, never less than
      `min(base, maxSleep)`. */
  lemma BackoffDecision(base: Duration, maxSleep: Duration, maxRetries: int, retryCount: int, elapsed: Duration, env: Env)
    requires 0 <= retryCount < maxRetries && retryCount + 1 < 31
    ensures var r := AllowRetry(ExponentialBackoff(base, maxSleep, maxRetries), retryCount, elapsed, env);
      && r.Success?
      && r.value.sleep.Some?
      && var d := r.value.sleep.value.duration;
      && (exists k :: 0 <= k < Pow2(retryCount + 1) && d == Min(base * Max(1, k), maxSleep))
      && d <= maxSleep
      && (base >= 0 ==> d >= Min(base, maxSleep))
  {
    var bound := ShiftOne(Wrap32(retryCount + 1));
    assert bound == Pow2(retryCount + 1);
    var k := env.draw % bound;
    assert 0 <= k < Pow2(retryCount + 1);
  }

  /** The policy constructors reject a missing (null) duration. */
  function NewStandard(sleepTime: Option<Duration>, maxRetries: int): (r: Result<Policy, Exc>)
    ensures r.Success? <==> sleepTime.Some?
    ensures r.Success? ==> r.value == Standard(sleepTime.value, maxRetries)
    ensures r.Failure? ==> r.error.cls == NullPointerClass
  {
    if sleepTime.None? then Failure(Exc(NullPointerClass, "sleepTime cannot be null"))
    else Success(Standard(sleepTime.value, maxRetries))
  }

  function NewForever(sleepTime: Option<Duration>): (r: Result<Policy, Exc>)
    ensures r.Success? <==> sleepTime.Some?
    ensures r.Success? ==> r.value == Forever(sleepTime.value)
    ensures r.Failure? ==> r.error.cls == NullPointerClass
  {
    if sleepTime.None? then Failure(Exc(NullPointerClass, "sleepTime cannot be null"))
    else Success(Forever(sleepTime.value))
  }

  function NewExponentialBackoff(base: Option<Duration>, maxSleep: Option<Duration>, maxRetries: int): (r: Result<Policy, Exc>)
    ensures r.Success? <==> base.Some? && maxSleep.Some?
    ensures r.Success? ==> r.value == ExponentialBackoff(base.value, maxSleep.value, maxRetries)
    ensures r.Failure? ==> r.error.cls == NullPointerClass
  {
    if base.None? then Failure(Exc(NullPointerClass, "baseSleepTime cannot be null"))
    else if maxSleep.None? then Failure(Exc(NullPointerClass, "maxSleepTime cannot be null"))
    else Success(ExponentialBackoff(base.value, maxSleep.value, maxRetries))
  }
}
