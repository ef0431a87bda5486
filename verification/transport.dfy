/** The request layer: `ApiRequest` (asynchronous requests with retries and
    the blocking `get` facade) and `SyncHandler` (the blocking read the cache
    uses). HTTP completions, clock readings and interrupts are inputs. */
module Transport {
  import opened Wrappers
  import opened JavaInt
  import opened Exceptions
  import opened Json
  import opened TimeStrings
  import opened Retry

  type Bytes = seq<bv8>

  datatype Method = HttpGet | HttpPut | HttpDelete

  /** A request URI: its path and its query parameters in order. */
  datatype Uri = Uri(path: string, query: seq<(string, string)>)

  /** An outgoing request; `token` is the X-Consul-Token header, if set. */
  datatype HttpRequest = HttpRequest(verb: Method, uri: Uri, body: Option<Bytes>, token: Option<string>)

  /** A received response. `body` is `None` when the entity cannot be read as
      JSON; `indexHeader` is the first X-Consul-Index header, if any. */
  datatype HttpResponse = HttpResponse(status: int, reason: string, body: Option<Json>, indexHeader: Option<string>)

  /** `ApiRequest.Response` / `SyncHandler.Response`. */
  datatype Response = Response(node: Json, consulIndex: int)

  /** How the HTTP client finished one attempt. */
  datatype Completion = Completed(response: HttpResponse) | Failed(exc: Exc) | Cancelled

  /** The state of the `CompletableFuture` a request returns. */
  datatype FutureState = Pending | Succeeded(response: Response) | Exceptional(exc: Exc)

  /** `getConsulIndex`: the X-Consul-Index header as an `int`, or -1 when the
      header is absent or not an integer. */
  function ConsulIndex(header: Option<string>): (i: int)
    ensures IsInt32(i)
    ensures header.None? ==> i == -1
    ensures header.Some? && ParseInt(header.value).None? ==> i == -1
    ensures header.Some? && ParseInt(header.value).Some? ==> i == ParseInt(header.value).value
  {
    if header.None? then -1
    else
      var p := ParseInt(header.value);
      if p.Some? then p.value else -1
  }

  /** The header a server writes for index `n` is read back as `n`. */
  lemma ConsulIndexRoundTrip(n: int)
    requires IsInt32(n)
    ensures ConsulIndex(Some(ToDecimal(n))) == n
    ensures ConsulIndex(None) == -1
  {
    ParseIntOfDecimal(n);
  }

  /** `exceptionCanBeRetried`: an instance of ConnectionClosedException,
      ConnectException or InterruptedIOException. */
  predicate CanBeRetried(e: Exc) {
    InstanceOf(e, ConnectionClosedClass) || InstanceOf(e, ConnectClass) || InstanceOf(e, InterruptedIOClass)
  }

  /** The retryable failures are exactly those three classes and their subclasses. */
  lemma RetryableClasses(e: Exc)
    ensures CanBeRetried(e) <==> e.cls in {ConnectionClosedClass, ConnectClass, HttpHostConnectClass,
                                           InterruptedIOClass, SocketTimeoutClass, ConnectTimeoutClass}
  {
  }

  datatype Classification = Ok2xx | RetryableFailure | PermanentFailure

  /** How `Callback.completed` treats a status code as written: it compares the
      raw code with 2 and with 5, leaving the computed status family unused. */
  function ClassifyAsWritten(status: int): (c: Classification)
    ensures c == Ok2xx <==> status == 2
    ensures c == RetryableFailure <==> status == 5
  {
    if status != 2 then (if status == 5 then RetryableFailure else PermanentFailure) else Ok2xx
  }

  /** The evidently intended classification by status family: 2xx succeeds,
      5xx may be retried, anything else fails for good. */
  function Classify(status: int): Classification {
    if 200 <= status <= 299 then Ok2xx
    else if 500 <= status <= 599 then RetryableFailure
    else PermanentFailure
  }

  /** The classification is the one `status / 100` (Java's truncating
      division) computes: family 2 succeeds, family 5 may be retried. */
  lemma ClassifyByFamily(status: int)
    ensures Classify(status) == Ok2xx <==> TruncDiv(status, 100) == 2
    ensures Classify(status) == RetryableFailure <==> TruncDiv(status, 100) == 5
    ensures Classify(status) == PermanentFailure <==> TruncDiv(status, 100) != 2 && TruncDiv(status, 100) != 5
  {
    TruncDivBounds(status, 100);
  }

  /** As written, a 200 answer is a permanent failure and a 503 is never retried. */
  lemma StatusCheckRejectsOk()
    ensures ClassifyAsWritten(200) == PermanentFailure && Classify(200) == Ok2xx
    ensures ClassifyAsWritten(503) == PermanentFailure && Classify(503) == RetryableFailure
  {
  }

  /** Which reading of the callback a run follows: the code as written
      (raw status comparison, and the `RetryForever`/`ExponentialBackoffRetry`
      sleeps that retry even when interrupted), or the corrected one. */
  datatype Reading = AsWritten | Corrected

  function ClassifyIn(reading: Reading, status: int): Classification {
    if reading.AsWritten? then ClassifyAsWritten(status) else Classify(status)
  }

  /** `internalRequest`: the configured policy, or `none()` when retries are disabled. */
  function PolicyFor(useRetryPolicy: bool, configured: Policy): (p: Policy)
    ensures !useRetryPolicy ==> p == NoRetry
    ensures useRetryPolicy ==> p == configured
  {
    if useRetryPolicy then configured else NoRetry
  }

  /** The request the supplier builds, with the token header set iff a token is configured. */
  function Stamp(request: HttpRequest, token: Option<string>): (r: HttpRequest)
    ensures r.token == token
    ensures r.verb == request.verb && r.uri == request.uri && r.body == request.body
  {
    request.(token := token)
  }

  /** The `allowRetry` of whichever policy the request runs under, called
      through the `RetryPolicy` interface. */
  type Decider = (int, Duration, Env) -> Result<Decision, Exc>

  /** The decider of one of the four policies under a reading. With retries
      disabled it always refuses; as written, `RetryForever` always allows;
      corrected, a retry is allowed only after a sleep that was not interrupted. */
  function DeciderOf(reading: Reading, p: Policy): (d: Decider)
    ensures forall c: int, e: Duration, env: Env :: p.NoRetry? ==> d(c, e, env) == Success(Deny)
    ensures forall c: int, e: Duration, env: Env ::
      reading.AsWritten? && p.Forever? ==> d(c, e, env).Success? && d(c, e, env).value.allow
    ensures forall c: int, e: Duration, env: Env ::
      reading.Corrected? && d(c, e, env).Success? && d(c, e, env).value.allow ==>
        d(c, e, env).value.sleep.Some? && d(c, e, env).value.sleep.value.returned
  {
    if reading.AsWritten? then
      (retryCount: int, elapsed: Duration, env: Env) => AllowRetryAsWritten(p, retryCount, elapsed, env)
    else
      (retryCount: int, elapsed: Duration, env: Env) => AllowRetry(p, retryCount, elapsed, env)
  }

  /** One attempt's completion, with the clock reading and the retry
      environment in effect if the policy is consulted about it. */
  datatype Attempt = Attempt(completion: Completion, now: int, env: Env)

  /** The result of running one logical request: the future's final state,
      every request sent, every `(retryCount, elapsed)` pair shown to the
      policy, and an exception the policy threw inside the callback (the
      future then never completes). */
  datatype Run = Run(future: FutureState, requests: seq<HttpRequest>, consulted: seq<(int, Duration)>, escaped: Option<Exc>)

  function ResponseOf(r: HttpResponse): Response
    requires r.body.Some?
  {
    Response(r.body.value, ConsulIndex(r.indexHeader))
  }

  /** Completion `c` is an answer the callback accepts: its status classifies
      as a success and its body is readable JSON. */
  predicate Answered(reading: Reading, c: Completion) {
    c.Completed? && ClassifyIn(reading, c.response.status) == Ok2xx && c.response.body.Some?
  }

  /** The failure a completion reports and whether it may be retried, or
      `None` when it completes the future successfully or is a cancellation. */
  function FailureOf(reading: Reading, c: Completion): (f: Option<(bool, Exc)>)
    ensures f.None? <==> c.Cancelled? || Answered(reading, c)
    ensures c.Failed? ==> f == Some((CanBeRetried(c.exc), c.exc))
    ensures c.Completed? && ClassifyIn(reading, c.response.status) != Ok2xx ==>
      f == Some((ClassifyIn(reading, c.response.status) == RetryableFailure, Exc(HttpResponseClass, c.response.reason)))
    ensures c.Completed? && ClassifyIn(reading, c.response.status) == Ok2xx && c.response.body.None? ==>
      f.Some? && !f.value.0 && f.value.1.cls == RuntimeClass
  {
    match c
    case Completed(resp) =>
      (match ClassifyIn(reading, resp.status)
       case Ok2xx =>
         if resp.body.Some? then None
         else
           var e := Exc(RuntimeClass, "Could not process json content");
           Some((CanBeRetried(e), e))
       case RetryableFailure => Some((true, Exc(HttpResponseClass, resp.reason)))
       case PermanentFailure => Some((false, Exc(HttpResponseClass, resp.reason))))
    case Failed(e) => Some((CanBeRetried(e), e))
    case Cancelled => None
  }

  /** The policy allowed a retry for attempt `a` when shown this count. */
  predicate Allowed(policy: Decider, retryCount: int, start: int, a: Attempt) {
    var d := policy(retryCount, a.now - start, a.env);
    d.Success? && d.value.allow
  }

  /** The policy was consulted about attempt `a`'s retryable failure and allowed a retry. */
  predicate Retried(reading: Reading, policy: Decider, retryCount: int, start: int, a: Attempt) {
    var f := FailureOf(reading, a.completion);
    f.Some? && f.value.0 && Allowed(policy, retryCount, start, a)
  }

  /** Completion `c` is an accepted answer, and `response` is made from it. */
  predicate SucceededWith(reading: Reading, c: Completion, response: Response) {
    Answered(reading, c) && response == ResponseOf(c.response)
  }

  /** What one completion leads to: the future is settled (or left pending
      because the policy threw), or the policy allowed another attempt.
      `consulted` is the `(retryCount, elapsed)` pair shown to the policy, if
      it was consulted before settling. */
  datatype Step =
    | Settle(future: FutureState, consulted: Option<(int, Duration)>, escaped: Option<Exc>)
    | Reissue(consult: (int, Duration))

  /** The pair a step showed the policy, if any. */
  function Consultation(s: Step): Option<(int, Duration)> {
    if s.Reissue? then Some(s.consult) else s.consulted
  }

  /** `Callback.completed`/`failed`/`cancelled` and `failOrRetry` for one
      completion: the policy is consulted only about a retryable failure, with
      the current count and the time elapsed since the first attempt. */
  function Handle(reading: Reading, policy: Decider, start: int, a: Attempt, retryCount: int): (s: Step)
    ensures s.Reissue? <==> Retried(reading, policy, retryCount, start, a)
    ensures Consultation(s).Some? <==> FailureOf(reading, a.completion).Some? && FailureOf(reading, a.completion).value.0
    ensures Consultation(s).Some? ==> Consultation(s).value == (retryCount, a.now - start)
    ensures s.Settle? && s.future.Succeeded? <==> Answered(reading, a.completion)
    ensures s.Settle? && s.future.Succeeded? ==> SucceededWith(reading, a.completion, s.future.response)
    ensures s.Settle? && s.future.Pending? ==> s.escaped.Some?
    ensures s.Settle? && a.completion.Cancelled? ==> s.future.Exceptional? && s.future.exc.cls == CancellationClass
  {
    var failure := FailureOf(reading, a.completion);
    if failure.None? then
      if a.completion.Cancelled? then Settle(Exceptional(Exc(CancellationClass, "")), None, None)
      else Settle(Succeeded(ResponseOf(a.completion.response)), None, None)
    else
      var (canRetry, e) := failure.value;
      if !canRetry then Settle(Exceptional(e), None, None)
      else
        var consult := (retryCount, a.now - start);
        var d := policy(retryCount, a.now - start, a.env);
        if d.Failure? then Settle(Pending, Some(consult), Some(d.error))
        else if !d.value.allow then Settle(Exceptional(e), Some(consult), None)
        else Reissue(consult)
  }

  /** How each attempt's completion is handled: `attempts[k]` is how attempt
      `k` ended, and `k` is also the retry count the policy is shown about it. */
  function Steps(reading: Reading, policy: Decider, start: int, attempts: seq<Attempt>): (steps: seq<Step>)
    ensures |steps| == |attempts|
    ensures forall k :: 0 <= k < |attempts| ==> steps[k] == Handle(reading, policy, start, attempts[k], k)
  {
    seq(|attempts|, k requires 0 <= k < |attempts| => Handle(reading, policy, start, attempts[k], k))
  }

  /** The retry loop from attempt `k` on: the request is sent, and its step
      either settles the future or sends it again. When the steps run out
      the last request is still in flight. Each retry rebuilds the request
      from the supplier and reuses the same future. */
  function Chain(sent: HttpRequest, steps: seq<Step>, k: nat): (r: Run)
    requires k <= |steps|
    decreases |steps| - k
    ensures 1 <= |r.requests| <= |steps| - k + 1
    ensures |r.requests| - 1 <= |r.consulted| <= |r.requests| && |r.consulted| <= |steps| - k
    ensures |r.requests| == |steps| - k + 1 ==> r.future.Pending? && r.escaped.None?
  {
    if k == |steps| then Run(Pending, [sent], [], None)
    else
      match steps[k]
      case Settle(future, consulted, escaped) =>
        Run(future, [sent], if consulted.Some? then [consulted.value] else [], escaped)
      case Reissue(consult) =>
        var rest := Chain(sent, steps, k + 1);
        Run(rest.future, [sent] + rest.requests, [consult] + rest.consulted, rest.escaped)
  }

  /** Every request the loop sends is the same rebuilt request. */
  lemma {:induction false} ChainResends(sent: HttpRequest, steps: seq<Step>, k: nat)
    requires k <= |steps|
    ensures forall q <- Chain(sent, steps, k).requests :: q == sent
    decreases |steps| - k
  {
    if k < |steps| && steps[k].Reissue? {
      ChainResends(sent, steps, k + 1);
    }
  }

  /** Every attempt before the last one sent ended in a step that sent the request again. */
  lemma {:induction false} ChainReissued(sent: HttpRequest, steps: seq<Step>, k: nat, j: int)
    requires k <= |steps|
    requires k <= j < k + |Chain(sent, steps, k).requests| - 1
    ensures j < |steps| && steps[j].Reissue?
    decreases |steps| - k
  {
    if k < j {
      ChainReissued(sent, steps, k + 1, j);
    }
  }

  /** The last attempt sent, if it completed, settled the run: the run's
      future and escaped exception are that step's. */
  lemma {:induction false} ChainSettles(sent: HttpRequest, steps: seq<Step>, k: nat)
    requires k <= |steps|
    ensures var r := Chain(sent, steps, k);
      var last := k + |r.requests| - 1;
      last < |steps| ==> steps[last].Settle? && r.future == steps[last].future && r.escaped == steps[last].escaped
    decreases |steps| - k
  {
    if k < |steps| && steps[k].Reissue? {
      ChainSettles(sent, steps, k + 1);
    }
  }

  /** The `i`-th pair shown to the policy was shown while handling attempt `k + i`. */
  lemma {:induction false} ChainConsults(sent: HttpRequest, steps: seq<Step>, k: nat, i: nat)
    requires k <= |steps|
    requires i < |Chain(sent, steps, k).consulted|
    ensures k + i < |steps| && Consultation(steps[k + i]) == Some(Chain(sent, steps, k).consulted[i])
    decreases |steps| - k
  {
    if 0 < i && steps[k].Reissue? {
      ChainConsults(sent, steps, k + 1, i - 1);
    }
  }


  /** `internalRequest` with the callback's retries: one logical request over
      the completions of its successive attempts. */
  function Execute(reading: Reading, policy: Decider, request: HttpRequest, token: Option<string>, start: int,
                   attempts: seq<Attempt>): (r: Run)
    ensures 1 <= |r.requests| <= |attempts| + 1
    ensures |r.requests| - 1 <= |r.consulted| <= |r.requests| && |r.consulted| <= |attempts|
    ensures |r.requests| == |attempts| + 1 ==> r.future.Pending? && r.escaped.None?
  {
    Chain(Stamp(request, token), Steps(reading, policy, start, attempts), 0)
  }

  /** Every attempt carries the X-Consul-Token header iff a token is
      configured, and the verb and URI the supplier builds. */
  lemma TokenOnEveryAttempt(reading: Reading, policy: Decider, request: HttpRequest, token: Option<string>,
                            start: int, attempts: seq<Attempt>)
    ensures var r := Execute(reading, policy, request, token, start, attempts);
      forall q <- r.requests :: q.token == token && q.uri == request.uri && q.verb == request.verb && q.body == request.body
  {
    ChainResends(Stamp(request, token), Steps(reading, policy, start, attempts), 0);
  }

  /** The policy is shown the counts `0, 1, ...` in order, each with the time
      elapsed since the first attempt started: the `i`-th consultation is
      about attempt `i`. */
  lemma ExecuteConsultsInOrder(reading: Reading, policy: Decider, request: HttpRequest, token: Option<string>,
                               start: int, attempts: seq<Attempt>, i: nat)
    requires i < |Execute(reading, policy, request, token, start, attempts).consulted|
    ensures i < |attempts|
    ensures Execute(reading, policy, request, token, start, attempts).consulted[i] == (i, attempts[i].now - start)
  {
    var steps := Steps(reading, policy, start, attempts);
    ChainConsults(Stamp(request, token), steps, 0, i);
    assert steps[i] == Handle(reading, policy, start, attempts[i], i);
  }

  /** A request is sent again only after a retryable failure that the
      policy, shown that attempt's count, allowed to be retried: every
      attempt `k` but the last was so retried. */
  lemma ExecuteRetriesOnlyWhenAllowed(reading: Reading, policy: Decider, request: HttpRequest, token: Option<string>,
                                      start: int, attempts: seq<Attempt>, k: nat)
    requires k < |Execute(reading, policy, request, token, start, attempts).requests| - 1
    ensures k < |attempts| && Retried(reading, policy, k, start, attempts[k])
  {
    var steps := Steps(reading, policy, start, attempts);
    ChainReissued(Stamp(request, token), steps, 0, k);
    assert steps[k] == Handle(reading, policy, start, attempts[k], k);
  }

  /** The last attempt sent, when it completed, was not one the policy
      allowed to be retried: the request stops being sent only when it settles. */
  lemma ExecuteStopsUnlessRetried(reading: Reading, policy: Decider, request: HttpRequest, token: Option<string>,
                                  start: int, attempts: seq<Attempt>)
    ensures var last := |Execute(reading, policy, request, token, start, attempts).requests| - 1;
      last < |attempts| ==> !Retried(reading, policy, last, start, attempts[last])
  {
    var steps := Steps(reading, policy, start, attempts);
    var r := Chain(Stamp(request, token), steps, 0);
    assert r == Execute(reading, policy, request, token, start, attempts);
    ChainSettles(Stamp(request, token), steps, 0);
    var last := |r.requests| - 1;
    if last < |attempts| {
      SettledNotRetried(reading, policy, start, attempts, last);
    }
  }

  /** An attempt whose step settles the future was not retried. */
  lemma SettledNotRetried(reading: Reading, policy: Decider, start: int, attempts: seq<Attempt>, k: nat)
    requires k < |attempts| && Steps(reading, policy, start, attempts)[k].Settle?
    ensures !Retried(reading, policy, k, start, attempts[k])
  {
    assert Steps(reading, policy, start, attempts)[k] == Handle(reading, policy, start, attempts[k], k);
  }

  /** The future succeeds exactly when the last attempt sent came back as an
      accepted answer, and then holds its body and the index from its header. */
  lemma ExecuteSucceedsOnlyOnAnswer(reading: Reading, policy: Decider, request: HttpRequest, token: Option<string>,
                                    start: int, attempts: seq<Attempt>)
    ensures var r := Execute(reading, policy, request, token, start, attempts);
      r.future.Succeeded? ==>
        && |r.requests| <= |attempts|
        && SucceededWith(reading, attempts[|r.requests| - 1].completion, r.future.response)
    ensures var r := Execute(reading, policy, request, token, start, attempts);
      |r.requests| <= |attempts| && Answered(reading, attempts[|r.requests| - 1].completion) ==> r.future.Succeeded?
  {
    var steps := Steps(reading, policy, start, attempts);
    var r := Chain(Stamp(request, token), steps, 0);
    assert r == Execute(reading, policy, request, token, start, attempts);
    ChainSettles(Stamp(request, token), steps, 0);
    var last := |r.requests| - 1;
    if last < |attempts| {
      SettledSucceeds(reading, policy, start, attempts, last);
    }
  }

  /** A settling step succeeds exactly on an accepted answer, with the response made from it. */
  lemma SettledSucceeds(reading: Reading, policy: Decider, start: int, attempts: seq<Attempt>, k: nat)
    requires k < |attempts| && Steps(reading, policy, start, attempts)[k].Settle?
    ensures var s := Steps(reading, policy, start, attempts)[k];
      s.future.Succeeded? <==> Answered(reading, attempts[k].completion)
    ensures var s := Steps(reading, policy, start, attempts)[k];
      s.future.Succeeded? ==> SucceededWith(reading, attempts[k].completion, s.future.response)
  {
    assert Steps(reading, policy, start, attempts)[k] == Handle(reading, policy, start, attempts[k], k);
  }

  /** As written, the future succeeds only on an answer whose raw status is 2
      and whose body is readable. */
  lemma AsWrittenSucceedsOnlyOnStatusTwo(policy: Decider, request: HttpRequest, token: Option<string>,
                                         start: int, attempts: seq<Attempt>)
    ensures var r := Execute(AsWritten, policy, request, token, start, attempts);
      r.future.Succeeded? ==>
        && |r.requests| <= |attempts|
        && attempts[|r.requests| - 1].completion.Completed?
        && attempts[|r.requests| - 1].completion.response.status == 2
        && attempts[|r.requests| - 1].completion.response.body.Some?
  {
    ExecuteSucceedsOnlyOnAnswer(AsWritten, policy, request, token, start, attempts);
  }

  /** As written, a request whose every attempt is answered 200 OK never
      succeeds, whatever the policy and the bodies. */
  lemma AsWrittenNeverSucceedsOnOk(policy: Decider, request: HttpRequest, token: Option<string>,
                                   start: int, attempts: seq<Attempt>)
    requires forall k :: 0 <= k < |attempts| ==>
      attempts[k].completion.Completed? && attempts[k].completion.response.status == StatusOk
    ensures !Execute(AsWritten, policy, request, token, start, attempts).future.Succeeded?
  {
    AsWrittenSucceedsOnlyOnStatusTwo(policy, request, token, start, attempts);
  }

  /** Corrected, the future succeeds only on a 2xx answer with a readable body,
      and the first attempt answered that way settles the request at once. */
  lemma CorrectedSucceedsOn2xx(policy: Decider, request: HttpRequest, token: Option<string>,
                               start: int, attempts: seq<Attempt>)
    ensures var r := Execute(Corrected, policy, request, token, start, attempts);
      r.future.Succeeded? ==>
        && |r.requests| <= |attempts|
        && attempts[|r.requests| - 1].completion.Completed?
        && 200 <= attempts[|r.requests| - 1].completion.response.status <= 299
        && attempts[|r.requests| - 1].completion.response.body.Some?
    ensures var r := Execute(Corrected, policy, request, token, start, attempts);
      0 < |attempts| && attempts[0].completion.Completed? && 200 <= attempts[0].completion.response.status <= 299
      && attempts[0].completion.response.body.Some? ==>
        |r.requests| == 1 && r.future == Succeeded(ResponseOf(attempts[0].completion.response))
  {
    ExecuteSucceedsOnlyOnAnswer(Corrected, policy, request, token, start, attempts);
    var steps := Steps(Corrected, policy, start, attempts);
    if 0 < |attempts| {
      assert steps[0] == Handle(Corrected, policy, start, attempts[0], 0);
    }
  }

  /** The future is left pending only while the last attempt is in flight,
      or when the policy threw inside the callback. */
  lemma ExecutePendingOnlyInFlightOrEscaped(reading: Reading, policy: Decider, request: HttpRequest,
                                            token: Option<string>, start: int, attempts: seq<Attempt>)
    ensures var r := Execute(reading, policy, request, token, start, attempts);
      r.future.Pending? <==> |r.requests| == |attempts| + 1 || r.escaped.Some?
  {
    var steps := Steps(reading, policy, start, attempts);
    var last := |Execute(reading, policy, request, token, start, attempts).requests| - 1;
    ChainSettles(Stamp(request, token), steps, 0);
    if last < |attempts| {
      assert steps[last] == Handle(reading, policy, start, attempts[last], last);
    }
  }

  /** With retries disabled a request is sent exactly once, whatever happens to it. */
  lemma NoRetrySendsOnce(reading: Reading, configured: Policy, request: HttpRequest, token: Option<string>,
                         start: int, attempts: seq<Attempt>)
    ensures |Execute(reading, DeciderOf(reading, PolicyFor(false, configured)), request, token, start, attempts).requests| == 1
  {
    var policy := DeciderOf(reading, NoRetry);
    var r := Execute(reading, policy, request, token, start, attempts);
    if |r.requests| > 1 {
      ExecuteRetriesOnlyWhenAllowed(reading, policy, request, token, start, attempts, 0);
    }
  }

  /** The outcome of a blocking wait: the value, or `null` (here `None`) with
      or without the interrupt re-asserted, or an exception. */
  datatype Outcome = Returned(response: Option<Response>, interruptReasserted: bool) | Threw(exc: Exc)

  /** Static `ApiRequest.get(future, time, unit, message, argument)`. `state` is
      the future's state when the wait ends; `interrupted` says whether an
      interrupt, rather than the deadline, ended a wait on a pending future. */
  function Await(state: FutureState, interrupted: bool, message: string, argument: string): (o: Outcome)
    ensures o.Returned? && o.response.Some? <==> state.Succeeded?
    ensures state.Succeeded? ==> o == Returned(Some(state.response), false)
    ensures state.Pending? ==> o == Returned(None, interrupted)
    ensures state.Exceptional? && InstanceOf(state.exc, CancellationClass) ==> o == Threw(state.exc)
    ensures state.Exceptional? && !InstanceOf(state.exc, CancellationClass) ==>
      o == Threw(Exc(RuntimeClass, message + argument))
  {
    match state
    case Pending => Returned(None, interrupted)
    case Succeeded(r) => Returned(Some(r), false)
    case Exceptional(e) =>
      if InstanceOf(e, CancellationClass) then Threw(e) else Threw(Exc(RuntimeClass, message + argument))
  }

  /** What a `SyncHandler` wait on the raw HTTP future observes. */
  datatype Arrival =
    | Arrived(response: HttpResponse)
    | ExecutionFailed(exc: Exc)
    | ArrivalCancelled
    | TimedOut
    | Interrupted

  const StatusOk: int := 200

  /** `SyncHandler.get`: a 200 answer becomes a response holding the body and
      the header index; another status, an execution failure or an unreadable
      body throws; a timeout answers `null`; an interrupt answers `null` and
      re-asserts the interrupt. */
  function SyncGet(a: Arrival, message: string, argument: string): (o: Outcome)
    ensures o.Returned? && o.response.Some? <==>
      a.Arrived? && a.response.status == StatusOk && a.response.body.Some?
    ensures o.Returned? && o.response.Some? ==> o.response.value == ResponseOf(a.response)
    ensures o.Returned? && o.response.None? <==> a.TimedOut? || a.Interrupted?
    ensures o.Returned? ==> (o.interruptReasserted <==> a.Interrupted?)
    ensures a.ExecutionFailed? ==> o == Threw(Exc(RuntimeClass, message + argument))
    ensures a.Arrived? && a.response.status != StatusOk ==> o.Threw? && o.exc.cls == RuntimeClass
  {
    match a
    case Arrived(resp) =>
      if resp.status != StatusOk then
        Threw(Exc(RuntimeClass, "org.apache.http.HttpException: HTTP/1.1 " + ToDecimal(resp.status) + " " + resp.reason))
      else if resp.body.None? then Threw(Exc(RuntimeClass, "Could not process json content"))
      else Returned(Some(ResponseOf(resp)), false)
    case ExecutionFailed(_) => Threw(Exc(RuntimeClass, message + argument))
    case ArrivalCancelled => Threw(Exc(CancellationClass, ""))
    case TimedOut => Returned(None, false)
    case Interrupted => Returned(None, true)
  }
}
