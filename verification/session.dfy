/** `Session`: the Consul session behind locks. A background check creates a
    session while none is held and renews it otherwise, every two thirds of
    the TTL; each answer drives a CONNECTED / SUSPENDED / LOST state machine
    whose clock is an input. The scheduler, the HTTP client, the JSON writer
    and ISO-8601 `Duration.parse` are left out or passed in. */
module Sessions {
  import opened Wrappers
  import opened JavaInt
  import opened Exceptions
  import opened Json
  import opened TimeStrings
  import opened Transport
  import opened ConsulClient

  datatype SessionState = Connected | Suspended | Lost

  /** The id meaning "no session". */
  const ErrorSessionId: string := ""

  const CreateSessionPath: string := "/v1/session/create"
  const DeleteSessionPath: string := "/v1/session/delete"
  const RenewSessionPath: string := "/v1/session/renew"

  /** An `Instant` as nanoseconds on the session's clock. */
  type Instant = int

  /** The constructor arguments that never change. */
  datatype Config = Config(name: string, ttlString: string, checks: seq<string>, lockDelay: string, maxCloseSession: Duration)

  datatype Session = Session(
    config: Config,
    sessionLength: Duration,
    ttl: Duration,
    sessionId: string,
    startOfSuspended: Option<Instant>)

  /** The constructor: both `ttl` and `sessionLength` are the parsed TTL
      string, and a string `TimeStrings.parse` rejects makes it throw. */
  function NewSession(config: Config): (r: Result<Session, Exc>)
    ensures r.Success? <==> Parse(config.ttlString).Success?
    ensures r.Failure? ==> r.error == Parse(config.ttlString).error
    ensures r.Success? ==>
      && r.value.config == config
      && r.value.ttl == r.value.sessionLength == Parse(config.ttlString).value
      && r.value.sessionId == ErrorSessionId
      && r.value.startOfSuspended.None?
  {
    var length :- Parse(config.ttlString);
    Success(Session(config, length, length, ErrorSessionId, None))
  }

  /** A session update together with the states reported to the client, in order. */
  datatype Update = Update(session: Session, reported: seq<SessionState>)

  /** `setSessionId(newId)` at clock reading `now`. A real id reports
      CONNECTED and ends any suspension; the error id starts a suspension, or
      continues one and reports LOST once it has lasted `sessionLength`. */
  function SetSessionId(s: Session, newId: string, now: Instant): (u: Update)
    ensures u.session.config == s.config && u.session.sessionLength == s.sessionLength && u.session.ttl == s.ttl
    ensures u.session.sessionId == newId
    ensures |u.reported| == 1
    ensures newId != ErrorSessionId ==> u.reported[0] == Connected && u.session.startOfSuspended.None?
    ensures newId == ErrorSessionId && s.startOfSuspended.None? ==>
      u.reported[0] == Suspended && u.session.startOfSuspended == Some(now)
    ensures newId == ErrorSessionId && s.startOfSuspended.Some? ==>
      && u.session.startOfSuspended == s.startOfSuspended
      && u.reported[0] != Connected
      && (u.reported[0] == Lost <==> now - s.startOfSuspended.value >= s.sessionLength)
  {
    if newId == ErrorSessionId then
      if s.startOfSuspended.None? then
        Update(s.(sessionId := newId, startOfSuspended := Some(now)), [Suspended])
      else
        var elapsed := now - s.startOfSuspended.value;
        Update(s.(sessionId := newId), [if elapsed >= s.sessionLength then Lost else Suspended])
    else
      Update(s.(sessionId := newId, startOfSuspended := None), [Connected])
  }

  /** Failures observed at the given clock readings, one after another. */
  function Failures(s: Session, times: seq<Instant>): (u: Update)
    ensures |u.reported| == |times|
    ensures |times| > 0 ==> u.session.sessionId == ErrorSessionId
    ensures u.session.sessionLength == s.sessionLength && u.session.ttl == s.ttl && u.session.config == s.config
    decreases |times|
  {
    if |times| == 0 then Update(s, [])
    else
      var first := SetSessionId(s, ErrorSessionId, times[0]);
      var rest := Failures(first.session, times[1..]);
      Update(rest.session, first.reported + rest.reported)
  }

  /** During a suspension every failure keeps its start and reports LOST
      exactly when `sessionLength` has passed since it, SUSPENDED before. */
  lemma {:induction false} FailuresDuringSuspension(s: Session, times: seq<Instant>)
    requires s.startOfSuspended.Some?
    ensures Failures(s, times).session.startOfSuspended == s.startOfSuspended
    ensures forall k :: 0 <= k < |times| ==>
      Failures(s, times).reported[k] ==
        (if times[k] - s.startOfSuspended.value >= s.sessionLength then Lost else Suspended)
    decreases |times|
  {
    if |times| > 0 {
      var first := SetSessionId(s, ErrorSessionId, times[0]);
      FailuresDuringSuspension(first.session, times[1..]);
      var rest := Failures(first.session, times[1..]);
      forall k | 0 <= k < |times|
        ensures Failures(s, times).reported[k] ==
          (if times[k] - s.startOfSuspended.value >= s.sessionLength then Lost else Suspended)
      {
        if k > 0 {
          assert Failures(s, times).reported[k] == rest.reported[k - 1];
          assert times[1..][k - 1] == times[k];
        }
      }
    }
  }

  /** A run of failures from a connected session: the first reports
      SUSPENDED and starts the suspension; each later one reports LOST
      exactly when `sessionLength` has passed since that first failure. */
  lemma FailuresFromConnected(s: Session, times: seq<Instant>)
    requires s.startOfSuspended.None? && |times| > 0
    ensures Failures(s, times).session.startOfSuspended == Some(times[0])
    ensures Failures(s, times).reported[0] == Suspended
    ensures forall k :: 1 <= k < |times| ==>
      Failures(s, times).reported[k] == (if times[k] - times[0] >= s.sessionLength then Lost else Suspended)
  {
    var first := SetSessionId(s, ErrorSessionId, times[0]);
    FailuresDuringSuspension(first.session, times[1..]);
    var rest := Failures(first.session, times[1..]);
    forall k | 1 <= k < |times|
      ensures Failures(s, times).reported[k] == (if times[k] - times[0] >= s.sessionLength then Lost else Suspended)
    {
      assert Failures(s, times).reported[k] == rest.reported[k - 1];
      assert times[1..][k - 1] == times[k];
    }
  }

  /** With a clock that never goes back, LOST is final under failures. */
  lemma LostStaysLost(s: Session, times: seq<Instant>, i: nat, j: nat)
    requires s.startOfSuspended.Some?
    requires forall a, b :: 0 <= a <= b < |times| ==> times[a] <= times[b]
    requires i <= j < |times| && Failures(s, times).reported[i] == Lost
    ensures Failures(s, times).reported[j] == Lost
  {
    FailuresDuringSuspension(s, times);
  }

  /** Whatever failures came before, a real id reconnects, and the next
      failure starts a new suspension at its own instant. */
  lemma SuccessReconnects(s: Session, times: seq<Instant>, id: string, now: Instant, later: Instant)
    requires id != ErrorSessionId
    ensures var back := SetSessionId(Failures(s, times).session, id, now);
      && back.reported == [Connected]
      && SetSessionId(back.session, ErrorSessionId, later).reported == [Suspended]
      && SetSessionId(back.session, ErrorSessionId, later).session.startOfSuspended == Some(later)
  {
  }

  /** The body of a create request. */
  function CreateBody(config: Config): (body: Json)
    ensures Get(body, "Name") == Some(JStr(config.name))
    ensures Get(body, "TTL") == Some(JStr(config.ttlString))
    ensures Has(body, "Checks") <==> |config.checks| > 0
    ensures Has(body, "Checks") ==> Elements(Get(body, "Checks").value) == seq(|config.checks|, k requires 0 <= k < |config.checks| => JStr(config.checks[k]))
    ensures Has(body, "LockDelay") <==> config.lockDelay != ""
    ensures Has(body, "LockDelay") ==> Get(body, "LockDelay") == Some(JStr(config.lockDelay))
  {
    var fields := map["Name" := JStr(config.name), "TTL" := JStr(config.ttlString)];
    var checks := seq(|config.checks|, k requires 0 <= k < |config.checks| => JStr(config.checks[k]));
    var withChecks := if |config.checks| > 0 then fields["Checks" := JArr(checks)] else fields;
    JObj(if config.lockDelay != "" then withChecks["LockDelay" := JStr(config.lockDelay)] else withChecks)
  }

  /** What a session check sends. */
  datatype Action =
    | Create(uri: Uri, body: Json)
    | Renew(uri: Uri, id: string)

  /** The delay, in milliseconds, after which the check runs again:
      two thirds of the current TTL. */
  function RescheduleMillis(ttl: Duration): (ms: int)
    ensures ttl > 0 ==> 0 <= ms * NanosPerMilli < ttl
    ensures ttl > 0 ==> ms <= ToMillis(ttl)
  {
    ToMillis(TruncDiv(ttl * 2, 3))
  }

  datatype Check = Check(action: Action, delayMillis: int)

  /** `checkSession`: create when no session is held, renew the held one
      otherwise, and in both cases run again after two thirds of the TTL. */
  function CheckSession(s: Session, encode: string -> string): (c: Check)
    ensures c.action.Create? <==> s.sessionId == ErrorSessionId
    ensures c.action.Create? ==> c.action.uri == Uri(CreateSessionPath, []) && c.action.body == CreateBody(s.config)
    ensures c.action.Renew? ==> c.action.id == s.sessionId && c.action.uri.query == []
    ensures c.delayMillis == RescheduleMillis(s.ttl)
  {
    var action :=
      if s.sessionId == ErrorSessionId then Create(BuildUri(CreateSessionPath, None, -1, encode), CreateBody(s.config))
      else Renew(BuildUri(RenewSessionPath, Some(s.sessionId), -1, encode), s.sessionId);
    Check(action, RescheduleMillis(s.ttl))
  }

  /** The completion of a create: `whenComplete` sets the returned `ID`, or
      the error id on failure, and `exceptionally` sets the error id once
      more on failure. An answer without `ID` makes the `whenComplete`
      action throw into a stage nobody reads, so nothing changes. */
  function CreateCompleted(s: Session, answer: Option<Json>, now: Instant): (u: Update)
    ensures u.session.sessionLength == s.sessionLength && u.session.ttl == s.ttl
    ensures answer.None? ==> |u.reported| == 2 && u.session.sessionId == ErrorSessionId
    ensures answer.Some? && !Has(answer.value, "ID") ==> u == Update(s, [])
    ensures answer.Some? && Has(answer.value, "ID") ==> u == SetSessionId(s, AsText(Get(answer.value, "ID").value), now)
  {
    if answer.None? then Failures(s, [now, now])
    else
      var id := Get(answer.value, "ID");
      if id.None? then Update(s, [])
      else SetSessionId(s, AsText(id.value), now)
  }

  /** A failed create from a connected session reports SUSPENDED and then,
      at the same instant, LOST only for a non-positive session length. */
  lemma FailedCreateReportsTwice(s: Session, now: Instant)
    requires s.startOfSuspended.None?
    ensures CreateCompleted(s, None, now).reported ==
      [Suspended, if s.sessionLength <= 0 then Lost else Suspended]
  {
    FailuresFromConnected(s, [now, now]);
  }

  /** The completion of a renew issued for `id`. An answer whose `TTL` parses
      to a different duration replaces the TTL; the id the renew was issued
      for is then set again. A failed renew sets the error id. `parseIso`
      stands for `Duration.parse`, `None` when it throws. */
  function RenewCompleted(s: Session, id: string, answer: Option<Json>, parseIso: string -> Option<Duration>, now: Instant): (u: Update)
    ensures u.session.sessionLength == s.sessionLength && u.session.config == s.config
    ensures answer.None? ==> u == SetSessionId(s, ErrorSessionId, now)
    ensures answer.Some? ==> u.session.sessionId == id && u.reported == SetSessionId(s, id, now).reported
    ensures answer.Some? && Has(answer.value, "TTL") && parseIso(AsText(Get(answer.value, "TTL").value)).Some? ==>
      u.session.ttl == parseIso(AsText(Get(answer.value, "TTL").value)).value
    ensures answer.Some? && !(Has(answer.value, "TTL") && parseIso(AsText(Get(answer.value, "TTL").value)).Some?) ==>
      u.session.ttl == s.ttl
  {
    if answer.None? then SetSessionId(s, ErrorSessionId, now)
    else
      var field := Get(answer.value, "TTL");
      var parsed := if field.Some? then parseIso(AsText(field.value)) else None;
      var s' := if parsed.Some? && parsed.value != s.ttl then s.(ttl := parsed.value) else s;
      SetSessionId(s', id, now)
  }

  /** Consul answers a renew with an array, which has no `TTL` field: the
      TTL is then never replaced. */
  lemma ArrayAnswerKeepsTtl(s: Session, id: string, items: seq<Json>, parseIso: string -> Option<Duration>, now: Instant)
    ensures RenewCompleted(s, id, Some(JArr(items)), parseIso, now).session.ttl == s.ttl
  {
  }

  /** How the bounded wait for the delete ends. */
  datatype CloseWait = Deleted | WaitTimedOut | WaitInterrupted | DeleteFailed

  /** The result of `close`: the session without an id, the delete it sent
      (if any), and whether the thread's interrupt flag was cleared. */
  datatype Closing = Closing(session: Session, delete: Option<Uri>, interruptCleared: bool)

  /** `close`: forget the id and, if one was held, delete it on the server,
      waiting at most `maxCloseSession`. No outcome of that wait escapes; an
      interrupt is consumed. */
  function Close(s: Session, wait: CloseWait, encode: string -> string): (c: Closing)
    ensures c.session == s.(sessionId := ErrorSessionId)
    ensures c.delete.Some? <==> s.sessionId != ErrorSessionId
    ensures c.delete.Some? ==> c.delete.value == BuildUri(DeleteSessionPath, Some(s.sessionId), -1, encode)
    ensures c.interruptCleared <==> s.sessionId != ErrorSessionId && wait == WaitInterrupted
  {
    var closed := s.(sessionId := ErrorSessionId);
    if s.sessionId == ErrorSessionId then Closing(closed, None, false)
    else Closing(closed, Some(BuildUri(DeleteSessionPath, Some(s.sessionId), -1, encode)), wait == WaitInterrupted)
  }

  /** After `close` the next check creates a fresh session. */
  lemma CloseThenCreates(s: Session, wait: CloseWait, encode: string -> string)
    ensures CheckSession(Close(s, wait, encode).session, encode).action.Create?
    ensures Close(Close(s, wait, encode).session, wait, encode).delete.None?
  {
  }

  /** A renew that completes after `close` sets the closed session's id
      again, since the completion carries the id it was issued for. */
  lemma RenewAfterCloseRestoresId(s: Session, wait: CloseWait, answer: Json, parseIso: string -> Option<Duration>, now: Instant, encode: string -> string)
    requires s.sessionId != ErrorSessionId
    ensures var closed := Close(s, wait, encode).session;
      var u := RenewCompleted(closed, CheckSession(s, encode).action.id, Some(answer), parseIso, now);
      u.session.sessionId == s.sessionId && u.reported == [Connected]
  {
  }

  /** No transition ever changes the session length. */
  lemma SessionLengthFixed(s: Session, id: string, answer: Option<Json>, parseIso: string -> Option<Duration>, now: Instant, wait: CloseWait, encode: string -> string)
    ensures SetSessionId(s, id, now).session.sessionLength == s.sessionLength
    ensures CreateCompleted(s, answer, now).session.sessionLength == s.sessionLength
    ensures RenewCompleted(s, id, answer, parseIso, now).session.sessionLength == s.sessionLength
    ensures Close(s, wait, encode).session.sessionLength == s.sessionLength
  {
  }
}
