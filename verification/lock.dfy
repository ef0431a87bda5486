/** `CuratorLockImpl`: a lock is a key acquired with `acquire=<session>`.
    `acquire` retries within a time budget: it asks for the lock and, when
    refused, waits on the key with a blocking read until it changes. The
    server's answers and the time each round takes are inputs. */
module Locks {
  import opened Wrappers
  import opened JavaInt
  import opened Exceptions
  import opened Json
  import opened TimeStrings
  import opened Transport
  import opened Paths
  import opened ConsulClient

  const KeyValuePath: string := "/v1/kv"

  /** The key's URI with the given query parameters. */
  function LockUri(full: string, query: seq<(string, string)>, encode: string -> string): (u: Uri)
    ensures u.path == BuildUri(KeyValuePath, Some(full), -1, encode).path && u.query == query
  {
    Uri(BuildUri(KeyValuePath, Some(full), -1, encode).path, query)
  }

  /** `makeUri(mode)`: the key addressed with `<mode>=<session id>`. */
  function MakeUri(lockPath: NodePath, mode: string, sessionId: string, encode: string -> string): (r: Result<Uri, Exc>)
    ensures r.Success? <==> IsResolved(lockPath)
    ensures r.Failure? ==> r.error.cls == IllegalStateClass
    ensures r.Success? ==> r.value == LockUri(FullPath(lockPath).value, [(mode, sessionId)], encode)
  {
    var full :- FullPath(lockPath);
    Success(LockUri(full, [(mode, sessionId)], encode))
  }

  /** The blocking read of the key: the first one carries no parameters,
      later ones the last index seen and the remaining time in seconds. */
  function ReadUri(full: string, index: int, remaining: Duration, encode: string -> string): (u: Uri)
    ensures index < 0 ==> u.query == []
    ensures index >= 0 ==> u.query == [("index", ToDecimal(index)), ("wait", ToSeconds(remaining))]
  {
    LockUri(full, if index >= 0 then [("index", ToDecimal(index)), ("wait", ToSeconds(remaining))] else [], encode)
  }

  /** One round of the loop as the server and the clock play it: how the
      wait for the acquire answer ends, how the wait for the read ends, and
      the nanoseconds the round takes. */
  datatype Round = Round(put: Outcome, read: Outcome, elapsed: int)

  /** The requests of one round: the acquire, then the read unless the
      round ended first. */
  datatype Sent = Sent(acquire: Uri, read: Option<Uri>)

  datatype LockOutcome = Acquired | NotAcquired | Escaped(exc: Exc) | Unfinished

  datatype Acquisition = Acquisition(outcome: LockOutcome, sent: seq<Sent>)

  /** The server granted the lock in this round. */
  predicate Granted(r: Round) {
    r.put.Returned? && r.put.response.Some? && AsBoolean(r.put.response.value.node)
  }

  /** The key's holder as the read of this round reports it. */
  predicate HeldBy(r: Round, sessionId: string)
    requires r.read.Returned? && r.read.response.Some? && RequireFirstChild(r.read.response.value.node).Success?
  {
    var first := RequireFirstChild(r.read.response.value.node).value;
    Has(first, "Session") && AsText(Get(first, "Session").value) == sessionId
  }

  /** The round ran to its end and the loop goes on to the next. */
  predicate Completes(r: Round, sessionId: string) {
    && r.put.Returned? && r.put.response.Some? && !AsBoolean(r.put.response.value.node)
    && r.read.Returned? && r.read.response.Some?
    && RequireFirstChild(r.read.response.value.node).Success?
    && !HeldBy(r, sessionId)
  }

  /** The index the read of a round answered with. */
  function ReadIndex(r: Round): int {
    if r.read.Returned? && r.read.response.Some? then r.read.response.value.consulIndex else -1
  }

  /** The budget left when round `j` starts, the loop having started round
      `k` with `remaining`. */
  function RemainingAt(remaining: Duration, rounds: seq<Round>, k: nat, j: nat): Duration
    requires k <= j <= |rounds|
    decreases j
  {
    if j == k then remaining else RemainingAt(remaining, rounds, k, j - 1) - rounds[j - 1].elapsed
  }

  /** The index the read of round `j` carries. */
  function IndexAt(index: int, rounds: seq<Round>, k: nat, j: nat): int
    requires k <= j <= |rounds|
  {
    if j == k then index else ReadIndex(rounds[j - 1])
  }

  /** The round ended the loop without an answer or found the key held by
      this very session. */
  predicate GaveUp(r: Round, sessionId: string) {
    || (r.put.Returned? && r.put.response.None?)
    || (r.read.Returned? && r.read.response.None?)
    || (r.read.Returned? && r.read.response.Some? && RequireFirstChild(r.read.response.value.node).Success?
        && HeldBy(r, sessionId))
  }

  /** How one round ends: the loop stops with an outcome, or goes on with
      the index the read answered with. */
  datatype RoundEnd = Stop(outcome: LockOutcome, sent: Sent) | Continue(sent: Sent, nextIndex: int)

  /** One pass of the loop body for the resolved key `full`. */
  function PlayRound(full: string, sessionId: string, encode: string -> string, r: Round, remaining: Duration, index: int): (e: RoundEnd)
    ensures e.sent.acquire == LockUri(full, [("acquire", sessionId)], encode)
    ensures e.sent.read.Some? ==> e.sent.read.value == ReadUri(full, index, remaining, encode)
    ensures e.Continue? <==> Completes(r, sessionId)
    ensures e.Continue? ==> e.nextIndex == ReadIndex(r)
    ensures e.Stop? ==> !e.outcome.Unfinished?
    ensures e.Stop? ==> (e.outcome.Acquired? <==> Granted(r))
    ensures e.Stop? && e.outcome.Acquired? ==> e.sent.read.None?
    ensures e.Stop? && e.outcome.NotAcquired? ==> GaveUp(r, sessionId)
    ensures r.put.Returned? && (r.put.response.Some? ==> !AsBoolean(r.put.response.value.node)) && GaveUp(r, sessionId) ==>
      e.Stop? && e.outcome.NotAcquired?
    ensures e.Stop? && e.outcome.Escaped? ==>
      r.put.Threw? || r.read.Threw? || (r.read.Returned? && r.read.response.Some? && RequireFirstChild(r.read.response.value.node).Failure?)
  {
    var acquire := LockUri(full, [("acquire", sessionId)], encode);
    if r.put.Threw? then Stop(Escaped(r.put.exc), Sent(acquire, None))
    else if r.put.response.None? then Stop(NotAcquired, Sent(acquire, None))
    else if AsBoolean(r.put.response.value.node) then Stop(Acquired, Sent(acquire, None))
    else
      var sent := Sent(acquire, Some(ReadUri(full, index, remaining, encode)));
      if r.read.Threw? then Stop(Escaped(r.read.exc), sent)
      else if r.read.response.None? then Stop(NotAcquired, sent)
      else
        var first := RequireFirstChild(r.read.response.value.node);
        if first.Failure? then Stop(Escaped(first.error), sent)
        else if HeldBy(r, sessionId) then Stop(NotAcquired, sent)
        else Continue(sent, r.read.response.value.consulIndex)
  }

  /** `acquire`, from round `k` on with `remaining` nanoseconds and the last
      index `index`. A refusal is followed by a read of the key; the loop
      stops when the lock is granted, a wait ends without an answer, the
      key is held by this very session, or the budget is spent. A wait that
      fails, an answer that is not a one-element array and an unresolved
      lock path throw. `Unfinished` marks rounds running out. */
  function Acquire(lockPath: NodePath, sessionId: string, encode: string -> string,
                   rounds: seq<Round>, k: nat, remaining: Duration, index: int): (a: Acquisition)
    requires k <= |rounds|
    ensures k + |a.sent| <= |rounds|
    ensures remaining <= 0 ==> a == Acquisition(NotAcquired, [])
    ensures remaining > 0 && k < |rounds| && !IsResolved(lockPath) ==> a.outcome.Escaped? && a.sent == []
    ensures a.outcome.Unfinished? ==> k + |a.sent| == |rounds|
    decreases |rounds| - k
  {
    if remaining <= 0 then Acquisition(NotAcquired, [])
    else if k == |rounds| then Acquisition(Unfinished, [])
    else if !IsResolved(lockPath) then Acquisition(Escaped(FullPath(lockPath).error), [])
    else
      match PlayRound(FullPath(lockPath).value, sessionId, encode, rounds[k], remaining, index)
      case Stop(outcome, sent) => Acquisition(outcome, [sent])
      case Continue(sent, nextIndex) =>
        var rest := Acquire(lockPath, sessionId, encode, rounds, k + 1, remaining - rounds[k].elapsed, nextIndex);
        Acquisition(rest.outcome, [sent] + rest.sent)
  }

  /** The lock is acquired exactly when the last round played was granted,
      and that round sent no read. */
  lemma {:induction false} AcquiredOnlyWhenGranted(lockPath: NodePath, sessionId: string, encode: string -> string,
                                                   rounds: seq<Round>, k: nat, remaining: Duration, index: int)
    requires k <= |rounds|
    ensures var a := Acquire(lockPath, sessionId, encode, rounds, k, remaining, index);
      && (a.outcome.Acquired? <==> |a.sent| > 0 && Granted(rounds[k + |a.sent| - 1]))
      && (a.outcome.Acquired? ==> a.sent[|a.sent| - 1].read.None?)
    decreases |rounds| - k
  {
    if remaining > 0 && k < |rounds| && IsResolved(lockPath) && Completes(rounds[k], sessionId) {
      var e := PlayRound(FullPath(lockPath).value, sessionId, encode, rounds[k], remaining, index);
      AcquiredOnlyWhenGranted(lockPath, sessionId, encode, rounds, k + 1, remaining - rounds[k].elapsed, e.nextIndex);
      assert !Granted(rounds[k]);
    }
  }

  /** The budget from round `k` equals the budget from round `k + 1` once
      round `k`'s time is taken off. */
  lemma {:induction false} RemainingShift(remaining: Duration, rounds: seq<Round>, k: nat, j: nat)
    requires k < j <= |rounds|
    ensures RemainingAt(remaining, rounds, k, j) == RemainingAt(remaining - rounds[k].elapsed, rounds, k + 1, j)
    decreases j
  {
    if j > k + 1 {
      RemainingShift(remaining, rounds, k, j - 1);
    }
  }

  /** Every round but the last ran to its end, and each started with budget
      left. */
  lemma {:induction false} AcquireRounds(lockPath: NodePath, sessionId: string, encode: string -> string,
                                         rounds: seq<Round>, k: nat, remaining: Duration, index: int)
    requires k <= |rounds|
    ensures var a := Acquire(lockPath, sessionId, encode, rounds, k, remaining, index);
      && (forall j :: k <= j < k + |a.sent| - 1 ==> Completes(rounds[j], sessionId))
      && (forall j :: k <= j < k + |a.sent| ==> RemainingAt(remaining, rounds, k, j) > 0)
    decreases |rounds| - k
  {
    var a := Acquire(lockPath, sessionId, encode, rounds, k, remaining, index);
    if remaining > 0 && k < |rounds| && IsResolved(lockPath) && Completes(rounds[k], sessionId) {
      var e := PlayRound(FullPath(lockPath).value, sessionId, encode, rounds[k], remaining, index);
      var next := remaining - rounds[k].elapsed;
      var rest := Acquire(lockPath, sessionId, encode, rounds, k + 1, next, e.nextIndex);
      AcquireRounds(lockPath, sessionId, encode, rounds, k + 1, next, e.nextIndex);
      assert |a.sent| == 1 + |rest.sent|;
      forall j | k < j < k + |a.sent|
        ensures RemainingAt(remaining, rounds, k, j) > 0
      {
        RemainingShift(remaining, rounds, k, j);
      }
    }
  }

  /** The requests of a round started with `index` and `remaining`: the
      acquire asks for `acquire=<session>` on the key, and the read, if
      any, carries that index and budget. */
  predicate SentAsAsked(sent: Sent, full: string, sessionId: string, encode: string -> string, index: int, remaining: Duration) {
    && sent.acquire == LockUri(full, [("acquire", sessionId)], encode)
    && (sent.read.Some? ==> sent.read.value == ReadUri(full, index, remaining, encode))
  }

  /** Every round's requests: the read carries the index the previous
      round's read answered with (the initial one in the first round) and
      the budget left when the round started. */
  lemma {:induction false} AcquireRequests(lockPath: NodePath, sessionId: string, encode: string -> string,
                                           rounds: seq<Round>, k: nat, remaining: Duration, index: int)
    requires k <= |rounds|
    ensures var a := Acquire(lockPath, sessionId, encode, rounds, k, remaining, index);
      forall j :: k <= j < k + |a.sent| ==>
        SentAsAsked(a.sent[j - k], FullPath(lockPath).value, sessionId, encode, IndexAt(index, rounds, k, j), RemainingAt(remaining, rounds, k, j))
    decreases |rounds| - k
  {
    var a := Acquire(lockPath, sessionId, encode, rounds, k, remaining, index);
    if remaining > 0 && k < |rounds| && IsResolved(lockPath) {
      var full := FullPath(lockPath).value;
      var e := PlayRound(full, sessionId, encode, rounds[k], remaining, index);
      assert a.sent[0] == e.sent;
      assert SentAsAsked(e.sent, full, sessionId, encode, index, remaining);
      if e.Continue? {
        var next := remaining - rounds[k].elapsed;
        var rest := Acquire(lockPath, sessionId, encode, rounds, k + 1, next, e.nextIndex);
        AcquireRequests(lockPath, sessionId, encode, rounds, k + 1, next, e.nextIndex);
        forall j | k < j < k + |a.sent|
          ensures SentAsAsked(a.sent[j - k], full, sessionId, encode, IndexAt(index, rounds, k, j), RemainingAt(remaining, rounds, k, j))
        {
          RemainingShift(remaining, rounds, k, j);
          assert a.sent[j - k] == rest.sent[j - (k + 1)];
          assert IndexAt(index, rounds, k, j) == IndexAt(e.nextIndex, rounds, k + 1, j);
        }
      }
    }
  }

  /** The first read of a fresh loop (index -1) carries no parameters. */
  lemma FirstReadUnindexed(lockPath: NodePath, sessionId: string, encode: string -> string, rounds: seq<Round>, remaining: Duration)
    requires |rounds| > 0
    ensures var a := Acquire(lockPath, sessionId, encode, rounds, 0, remaining, -1);
      |a.sent| > 0 && a.sent[0].read.Some? ==> a.sent[0].read.value.query == []
  {
    AcquireRequests(lockPath, sessionId, encode, rounds, 0, remaining, -1);
  }

  /** Why a loop that sent something ended without the lock: a wait ended
      without an answer, the key is held by this session, or the budget
      ran out after a complete round. */
  lemma {:induction false} AcquireGivesUp(lockPath: NodePath, sessionId: string, encode: string -> string,
                                          rounds: seq<Round>, k: nat, remaining: Duration, index: int)
    requires k <= |rounds|
    ensures var a := Acquire(lockPath, sessionId, encode, rounds, k, remaining, index);
      a.outcome.NotAcquired? && |a.sent| > 0 ==>
        var last := rounds[k + |a.sent| - 1];
        || GaveUp(last, sessionId)
        || (Completes(last, sessionId) && RemainingAt(remaining, rounds, k, k + |a.sent|) <= 0)
    decreases |rounds| - k
  {
    var a := Acquire(lockPath, sessionId, encode, rounds, k, remaining, index);
    if remaining > 0 && k < |rounds| && IsResolved(lockPath) && Completes(rounds[k], sessionId) {
      var e := PlayRound(FullPath(lockPath).value, sessionId, encode, rounds[k], remaining, index);
      var next := remaining - rounds[k].elapsed;
      var rest := Acquire(lockPath, sessionId, encode, rounds, k + 1, next, e.nextIndex);
      AcquireGivesUp(lockPath, sessionId, encode, rounds, k + 1, next, e.nextIndex);
      if a.outcome.NotAcquired? && |rest.sent| == 0 {
        assert RemainingAt(remaining, rounds, k, k + 1) == next;
      } else if |rest.sent| > 0 {
        RemainingShift(remaining, rounds, k, k + |a.sent|);
      }
    }
  }

  /** When each round takes at least a nanosecond, the loop ends within
      `remaining` rounds. */
  lemma {:induction false} AcquireTerminates(lockPath: NodePath, sessionId: string, encode: string -> string,
                                             rounds: seq<Round>, k: nat, remaining: Duration, index: int)
    requires k <= |rounds| && |rounds| - k >= remaining
    requires forall j :: k <= j < |rounds| ==> rounds[j].elapsed >= 1
    ensures !Acquire(lockPath, sessionId, encode, rounds, k, remaining, index).outcome.Unfinished?
    decreases |rounds| - k
  {
    if remaining > 0 && IsResolved(lockPath) && Completes(rounds[k], sessionId) {
      var e := PlayRound(FullPath(lockPath).value, sessionId, encode, rounds[k], remaining, index);
      AcquireTerminates(lockPath, sessionId, encode, rounds, k + 1, remaining - rounds[k].elapsed, e.nextIndex);
    }
  }

  /** `release`: an unawaited put of `release=<session>` on the key. */
  function Release(lockPath: NodePath, sessionId: string, encode: string -> string): (r: Result<Uri, Exc>)
    ensures r.Success? <==> IsResolved(lockPath)
    ensures r.Success? ==> r.value.query == [("release", sessionId)]
    ensures r.Success? ==> r.value.path == MakeUri(lockPath, "acquire", sessionId, encode).value.path
  {
    MakeUri(lockPath, "release", sessionId, encode)
  }
}
