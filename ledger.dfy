/**
 * The server-side violation ledger (log_event.php): one request validates
 * the event, finds or opens the exam session, records the violation,
 * recounts the violations since the session started and turns the count
 * into an action, ending the session from the third violation on.
 *
 * The two tables are sequences of rows, the database clock NOW() is the
 * argument `now`, and `dbOk` says whether the transaction got through; a
 * failed transaction is rolled back in full.
 */
module Ledger {
  import opened Wrappers
  import opened PhpRuntime
  import opened Protocol
  import Auth

  const StartSession := "start_session"
  const ExamIdKey := "exam_id"
  const ExamSessionIdKey := "exam_session_id"
  const MaxEventTypeLength := 50
  const MaxDetailsLength := 1000

  const BadMethodError := "Invalid request method"
  const NotAuthenticatedError := "User not authenticated"
  const NoExamError := "No active exam session"
  const BadDataError := "Invalid request data"
  const BadEventTypeError := "Invalid event type"
  const ServerError := "Internal server error"

  const TerminatedMessage := "Exam terminated due to multiple violations"
  const FinalWarningMessage := "Final Warning: One more violation will terminate the exam"
  const WarningMessage := "Warning: Next violation will escalate"
  const LoggedMessage := "Violation logged"
  const SessionStartedMessage := "Session started"

  /** A row of exam_sessions. */
  datatype SessionRow = SessionRow(sessionId: nat, userId: int, examId: int, startedAt: int,
                                   endedAt: Option<int>, endedReason: Option<string>)

  /** A row of exam_violations. */
  datatype ViolationRow = ViolationRow(userId: int, examId: int, eventType: string, eventTime: int,
                                       details: Option<string>)

  datatype Tables = Tables(sessions: seq<SessionRow>, violations: seq<ViolationRow>)

  /** The decoded JSON body: the `event_type` and `details` members, each absent or a string. */
  datatype Payload = Payload(eventType: Option<string>, details: Option<string>)

  /** The JSON reply: `success` true with its data, or false with an error message. */
  datatype Response = Done(data: Directive) | Error(error: string)

  /** A request that passed validation, with its inputs normalised. */
  datatype Event = Event(userId: int, examId: int, eventType: string, details: Option<string>)

  /** What one request does: the tables afterwards, the reply, and the session id written to $_SESSION, if any. */
  datatype Outcome = Outcome(tables: Tables, response: Response, sessionWrite: Option<nat>)

  const ValidEventTypes: seq<string> :=
    ["blur", "visibilitychange", "cursor_out", "cursor_leave", "mouseleave",
     "fullscreen_exit", "devtools_shortcut", "start_session"]

  /** isValidEventType: strict membership in the closed list of event types. */
  function IsValidEventType(t: string): (r: bool)
    ensures r ==> 0 < |t| <= MaxEventTypeLength && !IsTrimChar(t[0]) && !IsTrimChar(t[|t| - 1])
  {
    t in ValidEventTypes
  }

  /**
   * The details text: trimmed, then cut to its first 1000 characters; absent
   * details stay absent.
   */
  function CleanDetails(d: Option<string>): (r: Option<string>)
    ensures r.Some? <==> d.Some?
    ensures d.Some? ==> var t := Trim(d.value);
      && |r.value| <= MaxDetailsLength && |r.value| <= |t| && r.value == t[..|r.value|]
      && (|t| <= MaxDetailsLength ==> r.value == t)
      && (|t| > MaxDetailsLength ==> |r.value| == MaxDetailsLength)
  {
    match d
    case Some(text) => Some(Prefix(Trim(text), MaxDetailsLength))
    case None => None
  }

  /**
   * The validation ladder. The first failing check decides the error:
   * request method, logged-in user, exam in the session, body with an event
   * type, and a known event type after trimming and cutting to 50 characters.
   */
  function Validate(requestMethod: string, vars: map<string, Value>, body: Option<Payload>): (r: Result<Event, string>)
    ensures requestMethod != "POST" ==> r == Failure(BadMethodError)
    ensures requestMethod == "POST" && !IsSet(vars, Auth.UserIdKey) ==> r == Failure(NotAuthenticatedError)
    ensures requestMethod == "POST" && IsSet(vars, Auth.UserIdKey) && !IsSet(vars, ExamIdKey) ==>
      r == Failure(NoExamError)
    ensures requestMethod == "POST" && IsSet(vars, Auth.UserIdKey) && IsSet(vars, ExamIdKey)
            && (body.None? || body.value.eventType.None?)
            ==> r == Failure(BadDataError)
    ensures r.Success? ==>
      && requestMethod == "POST" && IsSet(vars, Auth.UserIdKey) && IsSet(vars, ExamIdKey)
      && body.Some? && body.value.eventType.Some?
      && r.value.userId == IntCast(vars[Auth.UserIdKey]) && r.value.examId == IntCast(vars[ExamIdKey])
      && IsValidEventType(r.value.eventType) && r.value.eventType == Prefix(Trim(body.value.eventType.value), MaxEventTypeLength)
      && r.value.details == CleanDetails(body.value.details)
    ensures r.Failure? && requestMethod == "POST" && IsSet(vars, Auth.UserIdKey) && IsSet(vars, ExamIdKey)
            && body.Some? && body.value.eventType.Some? ==>
      r == Failure(BadEventTypeError) && !IsValidEventType(Prefix(Trim(body.value.eventType.value), MaxEventTypeLength))
  {
    if requestMethod != "POST" then Failure(BadMethodError)
    else if !IsSet(vars, Auth.UserIdKey) then Failure(NotAuthenticatedError)
    else if !IsSet(vars, ExamIdKey) then Failure(NoExamError)
    else if body.None? || body.value.eventType.None? then Failure(BadDataError)
    else
      var eventType := Prefix(Trim(body.value.eventType.value), MaxEventTypeLength);
      var details := CleanDetails(body.value.details);
      if !IsValidEventType(eventType) then Failure(BadEventTypeError)
      else Success(Event(IntCast(vars[Auth.UserIdKey]), IntCast(vars[ExamIdKey]), eventType, details))
  }

  // ---------------------------------------------------------------- queries

  predicate IsOpenFor(row: SessionRow, userId: int, examId: int) {
    row.userId == userId && row.examId == examId && row.endedAt.None?
  }

  /** The session lookup with LIMIT 1, taken as the first open session of the user in this exam, from index `from` on. */
  function FirstOpenFrom(rows: seq<SessionRow>, userId: int, examId: int, from: nat): (r: Option<nat>)
    requires from <= |rows|
    ensures r.Some? ==> from <= r.value < |rows| && IsOpenFor(rows[r.value], userId, examId)
                        && forall j :: from <= j < r.value ==> !IsOpenFor(rows[j], userId, examId)
    ensures r.None? ==> forall j :: from <= j < |rows| ==> !IsOpenFor(rows[j], userId, examId)
    decreases |rows| - from
  {
    if from == |rows| then None
    else if IsOpenFor(rows[from], userId, examId) then Some(from)
    else FirstOpenFrom(rows, userId, examId, from + 1)
  }

  function FirstOpen(rows: seq<SessionRow>, userId: int, examId: int): Option<nat> {
    FirstOpenFrom(rows, userId, examId, 0)
  }

  predicate CountsFor(v: ViolationRow, userId: int, examId: int, since: int) {
    v.userId == userId && v.examId == examId && v.eventTime >= since
  }

  /** COUNT(*) of the violations of this user in this exam at or after `since`. */
  function CountSince(vs: seq<ViolationRow>, userId: int, examId: int, since: int): (c: nat)
    ensures c <= |vs|
    decreases |vs|
  {
    if |vs| == 0 then 0
    else CountSince(vs[..|vs| - 1], userId, examId, since) + (if CountsFor(vs[|vs| - 1], userId, examId, since) then 1 else 0)
  }

  lemma CountAppend(vs: seq<ViolationRow>, v: ViolationRow, userId: int, examId: int, since: int)
    ensures CountSince(vs + [v], userId, examId, since)
         == CountSince(vs, userId, examId, since) + (if CountsFor(v, userId, examId, since) then 1 else 0)
  {
    assert (vs + [v])[..|vs|] == vs;
  }

  /** When no violation of this user in this exam is as recent as `since`, the count is zero. */
  lemma {:induction false} CountNoneRecent(vs: seq<ViolationRow>, userId: int, examId: int, since: int)
    requires forall i :: 0 <= i < |vs| ==> !CountsFor(vs[i], userId, examId, since)
    ensures CountSince(vs, userId, examId, since) == 0
    decreases |vs|
  {
    if |vs| > 0 {
      CountNoneRecent(vs[..|vs| - 1], userId, examId, since);
    }
  }

  /** The UPDATE that ends a session: only the open row with this id and user gets an end time and the reason "terminated". */
  function EndSession(rows: seq<SessionRow>, sessionId: nat, userId: int, now: int): (r: seq<SessionRow>)
    ensures |r| == |rows|
  {
    seq(|rows|, i requires 0 <= i < |rows| =>
      if rows[i].sessionId == sessionId && rows[i].userId == userId && rows[i].endedAt.None?
      then rows[i].(endedAt := Some(now), endedReason := Some("terminated"))
      else rows[i])
  }

  /** The message of the violation path, chosen by the same ladder as the action. */
  function ViolationMessage(count: int): (r: string)
    ensures r == TerminatedMessage <==> ActionFor(count) == End
    ensures r == LoggedMessage <==> ActionFor(count) == Ok
    ensures ActionFor(count) == Warn ==> (r == FinalWarningMessage <==> count == 2)
  {
    if count >= 3 then TerminatedMessage
    else if count == 2 then FinalWarningMessage
    else if count == 1 then WarningMessage
    else LoggedMessage
  }

  /** Session ids are the auto-increment values 1, 2, 3, ... in insertion order, and an end time always comes with a reason. */
  ghost predicate ValidTables(t: Tables) {
    forall i :: 0 <= i < |t.sessions| ==>
      t.sessions[i].sessionId == i + 1 && (t.sessions[i].endedAt.None? <==> t.sessions[i].endedReason.None?)
  }

  // ---------------------------------------------------------------- the request, as a function

  /** The session a non-start event is charged to: the first open one, or a new one opened now. */
  function ChargedSession(t: Tables, ev: Event, now: int): SessionRow {
    match FirstOpen(t.sessions, ev.userId, ev.examId)
    case Some(i) => t.sessions[i]
    case None => SessionRow(|t.sessions| + 1, ev.userId, ev.examId, now, None, None)
  }

  /** The sessions after a non-start event has found or opened its session. */
  function SessionsWithCharged(t: Tables, ev: Event, now: int): seq<SessionRow> {
    if FirstOpen(t.sessions, ev.userId, ev.examId).Some? then t.sessions
    else t.sessions + [ChargedSession(t, ev, now)]
  }

  /** The transaction for a validated event, when the database gets through it. */
  function Apply(t: Tables, ev: Event, now: int): (o: Outcome)
    ensures o.response.Done? && o.response.data.sessionId.Some?
    ensures o.response.data.action == ActionFor(o.response.data.violations)
  {
    if ev.eventType == StartSession then
      var id := |t.sessions| + 1;
      var count := CountSince(t.violations, ev.userId, ev.examId, now);
      Outcome(Tables(t.sessions + [SessionRow(id, ev.userId, ev.examId, now, None, None)], t.violations),
              Done(Directive(count, ActionFor(count), SessionStartedMessage, Some(id))),
              Some(id))
    else
      var charged := ChargedSession(t, ev, now);
      var sessions := SessionsWithCharged(t, ev, now);
      var violations := t.violations + [ViolationRow(ev.userId, ev.examId, ev.eventType, now, ev.details)];
      var count := CountSince(violations, ev.userId, ev.examId, charged.startedAt);
      Outcome(Tables(if count >= 3 then EndSession(sessions, charged.sessionId, ev.userId, now) else sessions,
                     violations),
              Done(Directive(count, ActionFor(count), ViolationMessage(count), Some(charged.sessionId))),
              if FirstOpen(t.sessions, ev.userId, ev.examId).Some? then None else Some(charged.sessionId))
  }

  /** What one request to log_event.php does to the tables and what it answers. */
  function Process(t: Tables, requestMethod: string, vars: map<string, Value>, body: Option<Payload>,
                   now: int, dbOk: bool): (o: Outcome)
    ensures o.response.Done? <==> Validate(requestMethod, vars, body).Success? && dbOk
    ensures o.response.Error? ==> o.tables == t && o.sessionWrite.None?
    ensures o.response.Done? ==> o.response.data.action == ActionFor(o.response.data.violations)
  {
    match Validate(requestMethod, vars, body)
    case Failure(e) => Outcome(t, Error(e), None)
    case Success(ev) =>
      if !dbOk then Outcome(t, Error(ServerError), None) else Apply(t, ev, now)
  }

  // ---------------------------------------------------------------- properties of a request

  /** Every transaction keeps the auto-increment ids and the pairing of end time and reason. */
  lemma ApplyKeepsTablesValid(t: Tables, ev: Event, now: int)
    requires ValidTables(t)
    ensures ValidTables(Apply(t, ev, now).tables)
  {
    if ev.eventType != StartSession {
      var charged := ChargedSession(t, ev, now);
      var sessions := SessionsWithCharged(t, ev, now);
      assert ValidTables(Tables(sessions, t.violations));
      var ended := EndSession(sessions, charged.sessionId, ev.userId, now);
      assert ValidTables(Tables(ended, t.violations));
    }
  }

  lemma ProcessKeepsTablesValid(t: Tables, requestMethod: string, vars: map<string, Value>, body: Option<Payload>,
                                now: int, dbOk: bool)
    requires ValidTables(t)
    ensures ValidTables(Process(t, requestMethod, vars, body, now, dbOk).tables)
  {
    var v := Validate(requestMethod, vars, body);
    if v.Success? && dbOk {
      ApplyKeepsTablesValid(t, v.value, now);
    }
  }

  /** Ending a session keeps the ids and gives the ended row both an end time and a reason. */
  lemma EndSessionKeepsValid(rows: seq<SessionRow>, vs: seq<ViolationRow>, sessionId: nat, userId: int, now: int)
    requires ValidTables(Tables(rows, vs))
    ensures forall vs' :: ValidTables(Tables(EndSession(rows, sessionId, userId, now), vs'))
  {
  }

  /** A rejected request, or one whose transaction failed, writes nothing and answers success = false. */
  lemma RejectionWritesNothing(t: Tables, requestMethod: string, vars: map<string, Value>, body: Option<Payload>,
                               now: int, dbOk: bool)
    requires Validate(requestMethod, vars, body).Failure? || !dbOk
    ensures var o := Process(t, requestMethod, vars, body, now, dbOk);
      o.tables == t && o.response.Error? && o.sessionWrite.None?
  {
  }

  /**
   * start_session always opens one more session, started now, even when one
   * is open already; it records no violation and changes no existing row.
   */
  lemma StartSessionOpensNewSession(t: Tables, ev: Event, now: int)
    requires ev.eventType == StartSession
    ensures var o := Apply(t, ev, now);
      && |o.tables.sessions| == |t.sessions| + 1
      && o.tables.sessions[..|t.sessions|] == t.sessions
      && o.tables.sessions[|t.sessions|] == SessionRow(|t.sessions| + 1, ev.userId, ev.examId, now, None, None)
      && o.tables.violations == t.violations
      && o.response.data.sessionId == Some(|t.sessions| + 1)
      && o.response.data.violations == CountSince(t.violations, ev.userId, ev.examId, now)
      && o.sessionWrite == Some(|t.sessions| + 1)
  {
    var o := Apply(t, ev, now);
    assert o.tables.sessions == t.sessions + [SessionRow(|t.sessions| + 1, ev.userId, ev.examId, now, None, None)];
  }

  /** Two start_session requests in a row open two different sessions, and both stay open. */
  lemma StartSessionTwice(t: Tables, ev: Event, now1: int, now2: int)
    requires ev.eventType == StartSession
    ensures var o1 := Apply(t, ev, now1);
            var o2 := Apply(o1.tables, ev, now2);
      && o1.response.data.sessionId != o2.response.data.sessionId
      && |o2.tables.sessions| == |t.sessions| + 2
      && IsOpenFor(o2.tables.sessions[|t.sessions|], ev.userId, ev.examId)
      && IsOpenFor(o2.tables.sessions[|t.sessions| + 1], ev.userId, ev.examId)
  {
    StartSessionOpensNewSession(t, ev, now1);
    var o1 := Apply(t, ev, now1);
    StartSessionOpensNewSession(o1.tables, ev, now2);
    var o2 := Apply(o1.tables, ev, now2);
    assert o2.tables.sessions[|t.sessions|] == o2.tables.sessions[..|o1.tables.sessions|][|t.sessions|];
  }

  /**
   * Any other accepted event appends exactly one violation, stamped now, and
   * opens a session first only when none is open; the count it returns is
   * the recount over the violations since that session started, and it
   * includes the new event unless the session started in the future.
   */
  lemma ViolationIsRecordedAndCounted(t: Tables, ev: Event, now: int)
    requires ev.eventType != StartSession
    ensures var o := Apply(t, ev, now);
            var charged := ChargedSession(t, ev, now);
      && o.tables.violations == t.violations + [ViolationRow(ev.userId, ev.examId, ev.eventType, now, ev.details)]
      && |o.tables.sessions| == |t.sessions| + (if FirstOpen(t.sessions, ev.userId, ev.examId).Some? then 0 else 1)
      && o.response.data.violations == CountSince(o.tables.violations, ev.userId, ev.examId, charged.startedAt)
      && o.response.data.violations
         == CountSince(t.violations, ev.userId, ev.examId, charged.startedAt) + (if charged.startedAt <= now then 1 else 0)
      && (charged.startedAt <= now ==> o.response.data.violations >= 1 && o.response.data.action != Ok)
      && (o.response.data.violations < 3 ==>
            o.tables.sessions == t.sessions + (if FirstOpen(t.sessions, ev.userId, ev.examId).Some? then []
                                               else [SessionRow(|t.sessions| + 1, ev.userId, ev.examId, now, None, None)]))
  {
    var charged := ChargedSession(t, ev, now);
    CountAppend(t.violations, ViolationRow(ev.userId, ev.examId, ev.eventType, now, ev.details),
                ev.userId, ev.examId, charged.startedAt);
  }

  /**
   * From the third counted violation on the reply is `end`, and the ending
   * UPDATE touches only the charged session: it is closed with reason
   * "terminated" and every other row is left as it was.
   */
  lemma TerminationEndsOnlyChargedSession(t: Tables, ev: Event, now: int)
    requires ValidTables(t)
    requires ev.eventType != StartSession
    requires Apply(t, ev, now).response.data.violations >= 3
    ensures var o := Apply(t, ev, now);
            var sessions := SessionsWithCharged(t, ev, now);
            var i := ChargedSession(t, ev, now).sessionId - 1;
      && o.response.data.action == End
      && 0 <= i < |o.tables.sessions| == |sessions|
      && o.tables.sessions[i].endedAt == Some(now) && o.tables.sessions[i].endedReason == Some("terminated")
      && forall j :: 0 <= j < |sessions| && j != i ==> o.tables.sessions[j] == sessions[j]
  {
    var charged := ChargedSession(t, ev, now);
    var sessions := SessionsWithCharged(t, ev, now);
    assert forall j :: 0 <= j < |sessions| ==> sessions[j].sessionId == j + 1;
    assert sessions[charged.sessionId - 1] == charged;
  }

  /**
   * The counting window restarts with the session. Once the session that
   * reached three violations has been ended, the next violation of that
   * user, at a later time than every earlier one, opens a new session and
   * counts as the first: the answer is `warn`, not `end`.
   */
  lemma NextViolationAfterTerminationRestarts(t: Tables, ev: Event, now: int)
    requires ev.eventType != StartSession
    requires FirstOpen(t.sessions, ev.userId, ev.examId).None?
    requires forall i :: 0 <= i < |t.violations| && t.violations[i].userId == ev.userId && t.violations[i].examId == ev.examId
               ==> t.violations[i].eventTime < now
    ensures var o := Apply(t, ev, now);
      o.response.data.violations == 1 && o.response.data.action == Warn
      && |o.tables.sessions| == |t.sessions| + 1
  {
    CountNoneRecent(t.violations, ev.userId, ev.examId, now);
    CountAppend(t.violations, ViolationRow(ev.userId, ev.examId, ev.eventType, now, ev.details), ev.userId, ev.examId, now);
  }

  /** The event types the detector reports: all accepted except `focus` and `visibility_poll`. */
  lemma ClientEventTypes()
    ensures IsValidEventType("visibilitychange") && IsValidEventType("blur") && IsValidEventType("cursor_leave")
    ensures IsValidEventType("fullscreen_exit") && IsValidEventType("devtools_shortcut") && IsValidEventType("start_session")
    ensures !IsValidEventType("focus") && !IsValidEventType("visibility_poll")
  {
  }

  /** `focus` survives trimming and cutting unchanged, and is not on the list. */
  lemma FocusIsNotListed()
    ensures Prefix(Trim("focus"), MaxEventTypeLength) == "focus" && !IsValidEventType("focus")
  {
    TrimUntouched("focus");
    ClientEventTypes();
  }

  /** Any event type that is off the list after trimming and cutting is refused, whatever the details. */
  lemma UnlistedIsRefused(vars: map<string, Value>, eventType: string, details: Option<string>)
    requires IsSet(vars, Auth.UserIdKey) && IsSet(vars, ExamIdKey)
    requires !IsValidEventType(Prefix(Trim(eventType), MaxEventTypeLength))
    ensures Validate("POST", vars, Some(Payload(Some(eventType), details))) == Failure(BadEventTypeError)
  {
  }

  /** A `focus` report from a logged-in exam taker is refused as an invalid event type. */
  lemma FocusIsRefused(vars: map<string, Value>, details: Option<string>)
    requires IsSet(vars, Auth.UserIdKey) && IsSet(vars, ExamIdKey)
    ensures Validate("POST", vars, Some(Payload(Some("focus"), details))) == Failure(BadEventTypeError)
  {
    FocusIsNotListed();
    UnlistedIsRefused(vars, "focus", details);
  }

  // ---------------------------------------------------------------- the request, step by step

  /** $_SESSION after the request: the exam session id is written when a session was opened. */
  function WithSessionWrite(vars: map<string, Value>, write: Option<nat>): map<string, Value> {
    match write
    case Some(id) => vars[ExamSessionIdKey := Int(id)]
    case None => vars
  }

  /** The two tables of the database. */
  class ViolationLedger {
    var sessions: seq<SessionRow>
    var violations: seq<ViolationRow>

    ghost predicate Valid()
      reads this
    {
      ValidTables(Tables(sessions, violations))
    }

    constructor ()
      ensures Valid() && sessions == [] && violations == []
    {
      sessions, violations := [], [];
    }

    /** The request handler: the validation ladder, then the transaction. */
    method LogEvent(requestMethod: string, body: Option<Payload>, session: Auth.PhpSession, now: int, dbOk: bool)
      returns (response: Response)
      requires Valid()
      modifies this, session
      ensures Valid()
      ensures var o := Process(old(Tables(sessions, violations)), requestMethod, old(session.vars), body, now, dbOk);
        && Tables(sessions, violations) == o.tables
        && response == o.response
        && session.vars == WithSessionWrite(old(session.vars), o.sessionWrite)
    {
      var checked := Validate(requestMethod, session.vars, body);
      if checked.Failure? {
        return Error(checked.error);
      }
      if !dbOk {
        return Error(ServerError);
      }
      response := Record(checked.value, session, now);
    }

    /** INSERT INTO exam_sessions, then the new id into $_SESSION['exam_session_id']. */
    method OpenSession(ev: Event, session: Auth.PhpSession, now: int) returns (id: nat)
      requires Valid()
      modifies this`sessions, session
      ensures Valid()
      ensures id == |old(sessions)| + 1
      ensures sessions == old(sessions) + [SessionRow(id, ev.userId, ev.examId, now, None, None)]
      ensures session.vars == old(session.vars)[ExamSessionIdKey := Int(id)]
    {
      id := |sessions| + 1;
      sessions := sessions + [SessionRow(id, ev.userId, ev.examId, now, None, None)];
      session.vars := session.vars[ExamSessionIdKey := Int(id)];
    }

    /**
     * The violation path: INSERT INTO exam_violations, the recount since the
     * session started, and the decision, with the UPDATE that ends the
     * session from the third violation on.
     */
    method LogViolation(ev: Event, sessionId: nat, startedAt: int, now: int) returns (response: Response)
      requires Valid()
      modifies this`sessions, this`violations
      ensures Valid()
      ensures violations == old(violations) + [ViolationRow(ev.userId, ev.examId, ev.eventType, now, ev.details)]
      ensures var count := CountSince(violations, ev.userId, ev.examId, startedAt);
        && sessions == (if count >= 3 then EndSession(old(sessions), sessionId, ev.userId, now) else old(sessions))
        && response == Done(Directive(count, ActionFor(count), ViolationMessage(count), Some(sessionId)))
    {
      EndSessionKeepsValid(sessions, violations, sessionId, ev.userId, now);
      violations := violations + [ViolationRow(ev.userId, ev.examId, ev.eventType, now, ev.details)];
      var count := CountSince(violations, ev.userId, ev.examId, startedAt);
      var action := Ok;
      var message := LoggedMessage;
      if count >= 3 {
        sessions := EndSession(sessions, sessionId, ev.userId, now);
        action := End;
        message := TerminatedMessage;
      } else if count == 2 {
        action := Warn;
        message := FinalWarningMessage;
      } else if count == 1 {
        action := Warn;
        message := WarningMessage;
      }
      response := Done(Directive(count, action, message, Some(sessionId)));
    }

    /** The transaction for a validated event: find or open the session, log, recount, decide. */
    method Record(ev: Event, session: Auth.PhpSession, now: int) returns (response: Response)
      requires Valid()
      modifies this, session
      ensures Valid()
      ensures var o := Apply(old(Tables(sessions, violations)), ev, now);
        && Tables(sessions, violations) == o.tables
        && response == o.response
        && session.vars == WithSessionWrite(old(session.vars), o.sessionWrite)
    {
      ghost var t0 := Tables(sessions, violations);
      ghost var vars0 := session.vars;
      ghost var charged := ChargedSession(t0, ev, now);
      ApplyKeepsTablesValid(t0, ev, now);
      var found := FirstOpen(sessions, ev.userId, ev.examId);
      var sessionId: Option<nat> := None;
      var startedAt := 0;
      if found.Some? {
        sessionId := Some(sessions[found.value].sessionId);
        startedAt := sessions[found.value].startedAt;
      }

      if ev.eventType == StartSession {
        var id := OpenSession(ev, session, now);
        sessionId, startedAt := Some(id), now;
      }

      if sessionId.None? || sessionId.value == 0 {
        var id := OpenSession(ev, session, now);
        sessionId, startedAt := Some(id), now;
      }

      if ev.eventType == StartSession {
        var count := CountSince(violations, ev.userId, ev.examId, startedAt);
        var action := Ok;
        if count >= 3 {
          action := End;
        } else if count >= 1 {
          action := Warn;
        }
        assert action == ActionFor(count);
        response := Done(Directive(count, action, SessionStartedMessage, sessionId));
        assert Apply(t0, ev, now) == Outcome(Tables(sessions, violations), response, sessionId);
        return;
      }
      assert sessionId == Some(charged.sessionId) && startedAt == charged.startedAt;
      assert sessions == SessionsWithCharged(t0, ev, now);
      response := LogViolation(ev, sessionId.value, startedAt, now);
    }
  }
}
