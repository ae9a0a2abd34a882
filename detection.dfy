/**
 * The browser-side cheating detector of the exam page (assets/js/detection.js).
 *
 * Time is the integer `now` (milliseconds) each handler receives, the browser's
 * fullscreen and visibility state are boolean inputs, timers are explicit tick
 * methods, and a report to the server is recorded in the outbox `sent`; the
 * reply to that report is an input that is either the server's directive or a
 * failure.
 */
module Detection {
  import opened Wrappers
  import opened Protocol

  /** Events closer together than this many milliseconds collapse into one violation. */
  const DebounceMs := 2000
  /** Seconds the user is given to return to fullscreen. */
  const CountdownSeconds := 15

  const FullscreenExit := "fullscreen_exit"
  const ExitDetected := "Fullscreen exit detected"
  const ReturnTimedOut := "Failed to return to fullscreen within 15 seconds"

  /** The event types and details of the reports. */
  const StartSessionEvent := "start_session"
  const SessionStartDetails := "Session started by client"
  const VisibilityEvent := "visibilitychange"
  const VisibilityDetails := "Tab switch or window blur detected"
  const BlurEvent := "blur"
  const BlurDetails := "Window blur detected"
  const FocusEvent := "focus"
  const FocusDetails := "Tab switch detected on focus"
  const VisibilityPollEvent := "visibility_poll"
  const VisibilityPollDetails := "Tab visibility changed - possible tab switch"
  const CursorLeaveEvent := "cursor_leave"
  const CursorLeaveDetails := "Mouse left the browser window"
  const DevtoolsEvent := "devtools_shortcut"
  const DevtoolsDetails := "Developer tools access attempted"

  /** An entry of the in-memory debugging log. */
  datatype LogEntry =
    | Suppressed(time: int, event: string, description: string)
    | Counted(time: int, event: string, description: string, violationCount: nat)
    | TerminatedEntry(time: int)

  /** The body of one request sent to the server. */
  datatype Report = Report(eventType: string, details: string)

  /** How the request ended: the `data` of a successful reply, or the error that made it fail. */
  datatype Reply = Answered(data: Directive) | Failed(message: string)

  /**
   * The directive reportViolation makes up when the request fails. It is
   * called after the counter was incremented, so `violationCount` already
   * includes the current event.
   */
  function FallbackDirective(violationCount: nat, message: string): (d: Directive)
    ensures d.action == ActionFor(violationCount)
    ensures d.violations == violationCount + 1
    ensures d.message == message && d.sessionId == None
  {
    Directive(violationCount + 1,
              if violationCount >= 3 then End else if violationCount >= 1 then Warn else Ok,
              message, None)
  }

  /** What reportViolation returns: the server's directive, or the fallback when the request failed. */
  function ReportOutcome(reply: Reply, violationCount: nat): (d: Directive)
    ensures reply.Answered? ==> d == reply.data
    ensures reply.Failed? ==> && d.action == ActionFor(violationCount) && d.violations == violationCount + 1
                              && d.message == reply.message
  {
    match reply
    case Answered(d) => d
    case Failed(m) => FallbackDirective(violationCount, m)
  }

  /**
   * Whether an accepted violation with this count and this reply terminates
   * the exam: when the server says `end`, or from the third violation on.
   */
  function Escalates(reply: Reply, violationCount: nat): (r: bool)
    ensures r <==> (reply.Answered? && reply.data.action == End) || violationCount >= 3
  {
    ReportOutcome(reply, violationCount).action == End || violationCount >= 3
  }

  /**
   * A lost connection never makes the detector more lenient: whatever the
   * server would have answered, a failed report terminates exactly from the
   * third violation on, and terminates whenever some answer would have
   * because of the local count.
   */
  lemma OfflineIsNoLaxer(reply: Reply, violationCount: nat, message: string)
    ensures Escalates(Failed(message), violationCount) <==> violationCount >= 3
    ensures violationCount >= 3 ==> Escalates(reply, violationCount)
  {
  }

  /** The keys whose default action is suppressed and which count as a devtools attempt: F12, Ctrl+Shift+I, Ctrl+Shift+J and Ctrl+u. */
  function IsDevtoolsKey(key: string, ctrl: bool, shift: bool): (r: bool)
    ensures r ==> key == "F12" || key == "I" || key == "J" || key == "u"
    ensures key == "F12" ==> r
    ensures !ctrl ==> (r <==> key == "F12")
    ensures ctrl && !shift ==> (r <==> key == "F12" || key == "u")
    ensures ctrl && shift ==> (r <==> key != "U" && key != "i" && key != "j" && (key == "F12" || key == "I" || key == "J" || key == "u"))
  {
    key == "F12" || (ctrl && shift && (key == "I" || key == "J")) || (ctrl && key == "u")
  }

  class CheatingDetector {
    var violationCount: nat
    var warningLevel: nat
    var terminated: bool
    var fullscreenInitialized: bool
    /** The fullscreen state seen by the previous check; None until the first one. */
    var lastIsFullscreen: Option<bool>
    var lastViolationTime: int
    /** The seconds left on the running fullscreen countdown; None when no countdown runs. */
    var countdown: Option<int>
    var logs: seq<LogEntry>
    /** The requests sent to the server, oldest first. */
    var sent: seq<Report>
    /** The visibility remembered by the visibility poller. */
    var lastVisibilityHidden: bool

    /**
     * The escalation ladder: until termination every accepted violation has
     * shown one warning, so at most two; the terminating violation shows
     * none, so afterwards exactly one warning fewer than violations.
     */
    ghost predicate Valid()
      reads this
    {
      && (if terminated then warningLevel + 1 == violationCount && violationCount <= 3
          else warningLevel == violationCount && violationCount <= 2)
      && (countdown.Some? ==> 1 <= countdown.value <= CountdownSeconds)
    }

    /** The state between counting a violation and acting on the reply to its report. */
    ghost predicate Pending()
      reads this
    {
      && !terminated && warningLevel + 1 == violationCount && violationCount <= 3
      && (countdown.Some? ==> 1 <= countdown.value <= CountdownSeconds)
    }

    /** Detection starts only once fullscreen was entered, and stops for good at termination. */
    function ReadyToDetect(): (r: bool)
      reads this
      ensures r ==> fullscreenInitialized
      ensures terminated ==> !r
    {
      fullscreenInitialized && !terminated
    }

    /** Nothing the escalation ladder tracks has changed. */
    twostate predicate Unmoved()
      reads this
    {
      && violationCount == old(violationCount) && warningLevel == old(warningLevel)
      && terminated == old(terminated) && lastViolationTime == old(lastViolationTime)
      && logs == old(logs) && sent == old(sent)
    }

    /** Nothing at all has changed apart from, possibly, the fullscreen and visibility memories. */
    twostate predicate Quiet()
      reads this
    {
      Unmoved() && countdown == old(countdown)
    }

    /**
     * The effect of handleViolation(event, description) at time `now` whose
     * report got `reply`, on everything but the countdown.
     */
    twostate predicate Violation(new event: string, new description: string, now: int, new reply: Reply)
      reads this
    {
      if old(terminated) then Unmoved()
      else if now - old(lastViolationTime) < DebounceMs then
        && violationCount == old(violationCount) && lastViolationTime == old(lastViolationTime)
        && sent == old(sent) && logs == old(logs) + [Suppressed(now, event, description)]
        && !terminated && warningLevel == old(warningLevel)
      else
        && violationCount == old(violationCount) + 1 && lastViolationTime == now
        && sent == old(sent) + [Report(event, description)]
        && (terminated <==> Escalates(reply, violationCount))
        && logs == old(logs) + [Counted(now, event, description, violationCount)]
                            + (if terminated then [TerminatedEntry(now)] else [])
        && warningLevel == old(warningLevel) + (if terminated then 0 else 1)
    }

    /** The whole effect of handleViolation: the countdown stops only when this call terminates the exam. */
    twostate predicate Handled(new event: string, new description: string, now: int, new reply: Reply)
      reads this
    {
      && Violation(event, description, now, reply)
      && countdown == (if terminated && !old(terminated) then None else old(countdown))
    }

    /**
     * The effect of checkFullscreen(isFullscreen) at time `now` whose report
     * got `reply`, on everything but the fullscreen memory. Nothing happens
     * before the detector is armed, on the first check, or when the state did
     * not change; leaving fullscreen is a violation and starts the countdown
     * unless one runs or the violation terminated the exam; returning to
     * fullscreen clears the countdown.
     */
    twostate predicate FullscreenChecked(isFullscreen: bool, now: int, new reply: Reply)
      reads this
    {
      if !old(fullscreenInitialized) || old(lastIsFullscreen).None? || old(lastIsFullscreen) == Some(isFullscreen) then
        Quiet()
      else if !isFullscreen then
        && Violation(FullscreenExit, ExitDetected, now, reply)
        && countdown == (if terminated && !old(terminated) then None
                         else if old(countdown).None? then Some(CountdownSeconds) else old(countdown))
      else
        Unmoved() && countdown == None
    }

    constructor (hidden: bool)
      ensures Valid() && !ReadyToDetect()
      ensures violationCount == 0 && warningLevel == 0 && !terminated && !fullscreenInitialized
      ensures lastIsFullscreen == None && lastViolationTime == 0 && countdown == None
      ensures logs == [] && sent == [] && lastVisibilityHidden == hidden
    {
      violationCount, warningLevel, terminated, fullscreenInitialized := 0, 0, false, false;
      lastIsFullscreen, lastViolationTime, countdown := None, 0, None;
      logs, sent, lastVisibilityHidden := [], [], hidden;
    }

    /** The click on "Start Exam in Fullscreen": when fullscreen was entered, arm the detector and ask the server for a session. */
    method EnterFullscreen(entered: bool)
      requires Valid()
      modifies this`fullscreenInitialized, this`sent
      ensures Valid()
      ensures fullscreenInitialized == (old(fullscreenInitialized) || entered)
      ensures sent == old(sent) + (if entered then [Report(StartSessionEvent, SessionStartDetails)] else [])
    {
      if entered {
        fullscreenInitialized := true;
        sent := sent + [Report(StartSessionEvent, SessionStartDetails)];
      }
    }

    /** The start of fullscreen monitoring after the grace period: one check, then the current state is remembered. */
    method StartMonitoring(isFullscreen: bool, now: int, reply: Reply)
      requires Valid()
      modifies this`violationCount, this`lastViolationTime, this`logs, this`sent,
               this`terminated, this`warningLevel, this`countdown, this`lastIsFullscreen
      ensures Valid()
      ensures FullscreenChecked(isFullscreen, now, reply)
      ensures lastIsFullscreen == Some(isFullscreen)
    {
      CheckFullscreen(isFullscreen, now, reply);
      lastIsFullscreen := Some(isFullscreen);
    }

    method ShowWarning()
      modifies this`warningLevel
      ensures warningLevel == if terminated then old(warningLevel) else old(warningLevel) + 1
    {
      if terminated {
        return;
      }
      warningLevel := warningLevel + 1;
    }

    method StartCountdown()
      modifies this`countdown
      ensures countdown == Some(CountdownSeconds)
    {
      countdown := Some(CountdownSeconds);
    }

    method ClearCountdown()
      modifies this`countdown
      ensures countdown == None
    {
      countdown := None;
    }

    /** terminateExam: the first call terminates, stops the countdown and logs once; later calls do nothing. */
    method TerminateExam(now: int)
      modifies this`terminated, this`countdown, this`logs
      ensures terminated
      ensures old(terminated) ==> countdown == old(countdown) && logs == old(logs)
      ensures !old(terminated) ==> countdown == None && logs == old(logs) + [TerminatedEntry(now)]
    {
      if terminated {
        return;
      }
      terminated := true;
      ClearCountdown();
      logs := logs + [TerminatedEntry(now)];
    }

    /** The part of handleViolation that runs before the report's reply: termination guard, debounce, count, log, send. */
    method Accept(event: string, description: string, now: int) returns (accepted: bool)
      requires Valid()
      modifies this`violationCount, this`lastViolationTime, this`logs, this`sent
      ensures accepted <==> !old(terminated) && now - old(lastViolationTime) >= DebounceMs
      ensures accepted ==> Pending()
      ensures !accepted ==> Valid()
      ensures accepted ==>
        && violationCount == old(violationCount) + 1 && lastViolationTime == now
        && logs == old(logs) + [Counted(now, event, description, violationCount)]
        && sent == old(sent) + [Report(event, description)]
      ensures !accepted ==>
        && violationCount == old(violationCount) && lastViolationTime == old(lastViolationTime) && sent == old(sent)
        && logs == if terminated then old(logs) else old(logs) + [Suppressed(now, event, description)]
    {
      if terminated {
        return false;
      }
      if now - lastViolationTime < DebounceMs {
        logs := logs + [Suppressed(now, event, description)];
        return false;
      }
      lastViolationTime := now;
      violationCount := violationCount + 1;
      logs := logs + [Counted(now, event, description, violationCount)];
      sent := sent + [Report(event, description)];
      accepted := true;
    }

    /** The part of handleViolation that runs once the reply is in: obey `end`, otherwise warn on 1 and 2, terminate from 3. */
    method Escalate(reply: Reply, now: int)
      requires Pending()
      modifies this`terminated, this`warningLevel, this`countdown, this`logs
      ensures Valid()
      ensures terminated <==> Escalates(reply, violationCount)
      ensures terminated ==> warningLevel == old(warningLevel) && countdown == None && logs == old(logs) + [TerminatedEntry(now)]
      ensures !terminated ==> warningLevel == old(warningLevel) + 1 && countdown == old(countdown) && logs == old(logs)
    {
      var result := ReportOutcome(reply, violationCount);
      if result.action == End {
        TerminateExam(now);
        return;
      }
      if violationCount == 1 {
        ShowWarning();
      } else if violationCount == 2 {
        ShowWarning();
      } else if violationCount >= 3 {
        TerminateExam(now);
      }
    }

    method HandleViolation(event: string, description: string, now: int, reply: Reply)
      requires Valid()
      modifies this`violationCount, this`lastViolationTime, this`logs, this`sent,
               this`terminated, this`warningLevel, this`countdown
      ensures Valid()
      ensures Handled(event, description, now, reply)
    {
      var accepted := Accept(event, description, now);
      if accepted {
        Escalate(reply, now);
      }
    }

    /**
     * checkFullscreen: reports a fullscreen exit and starts the countdown if
     * none runs, clears the countdown on return, and remembers the state. The
     * report's reply is acted on after the synchronous part, as the browser does.
     */
    method CheckFullscreen(isFullscreen: bool, now: int, reply: Reply)
      requires Valid()
      modifies this`violationCount, this`lastViolationTime, this`logs, this`sent,
               this`terminated, this`warningLevel, this`countdown, this`lastIsFullscreen
      ensures Valid()
      ensures FullscreenChecked(isFullscreen, now, reply)
      ensures lastIsFullscreen == if old(fullscreenInitialized) then Some(isFullscreen) else old(lastIsFullscreen)
    {
      if !fullscreenInitialized {
        return;
      }
      if lastIsFullscreen.None? {
        lastIsFullscreen := Some(isFullscreen);
        return;
      }
      var accepted := false;
      if lastIsFullscreen.value && !isFullscreen {
        accepted := Accept(FullscreenExit, ExitDetected, now);
        if countdown.None? {
          StartCountdown();
        }
      }
      if !lastIsFullscreen.value && isFullscreen {
        ClearCountdown();
      }
      lastIsFullscreen := Some(isFullscreen);
      if accepted {
        Escalate(reply, now);
      }
    }

    /** One second of the fullscreen countdown: count down, and on reaching zero stop and report the failed return. */
    method CountdownTick(now: int, reply: Reply)
      requires Valid()
      modifies this`violationCount, this`lastViolationTime, this`logs, this`sent,
               this`terminated, this`warningLevel, this`countdown
      ensures Valid()
      ensures old(countdown).None? ==> Quiet()
      ensures old(countdown).Some? && old(countdown).value > 1 ==>
        Unmoved() && countdown == Some(old(countdown).value - 1)
      ensures old(countdown) == Some(1) ==>
        Violation(FullscreenExit, ReturnTimedOut, now, reply) && countdown == None
    {
      if countdown.None? {
        return;
      }
      var secondsLeft := countdown.value - 1;
      if secondsLeft <= 0 {
        ClearCountdown();
        HandleViolation(FullscreenExit, ReturnTimedOut, now, reply);
      } else {
        countdown := Some(secondsLeft);
      }
    }

    /** The periodic fullscreen re-check, which runs only while armed and not terminated. */
    method FullscreenPoll(isFullscreen: bool, now: int, reply: Reply)
      requires Valid()
      modifies this`violationCount, this`lastViolationTime, this`logs, this`sent,
               this`terminated, this`warningLevel, this`countdown, this`lastIsFullscreen
      ensures Valid()
      ensures old(ReadyToDetect()) ==> FullscreenChecked(isFullscreen, now, reply) && lastIsFullscreen == Some(isFullscreen)
      ensures !old(ReadyToDetect()) ==> Quiet() && lastIsFullscreen == old(lastIsFullscreen)
    {
      if !terminated && fullscreenInitialized {
        CheckFullscreen(isFullscreen, now, reply);
      }
    }

    /** The visibilitychange listener: a hidden document counts once armed. */
    method OnVisibilityChange(hidden: bool, now: int, reply: Reply)
      requires Valid()
      modifies this`violationCount, this`lastViolationTime, this`logs, this`sent,
               this`terminated, this`warningLevel, this`countdown
      ensures Valid()
      ensures old(ReadyToDetect()) && hidden ==>
        Handled(VisibilityEvent, VisibilityDetails, now, reply)
      ensures !(old(ReadyToDetect()) && hidden) ==> Quiet()
    {
      if !ReadyToDetect() {
        return;
      }
      if hidden {
        HandleViolation(VisibilityEvent, VisibilityDetails, now, reply);
      }
    }

    /** The window blur listener. */
    method OnBlur(now: int, reply: Reply)
      requires Valid()
      modifies this`violationCount, this`lastViolationTime, this`logs, this`sent,
               this`terminated, this`warningLevel, this`countdown
      ensures Valid()
      ensures old(ReadyToDetect()) ==> Handled(BlurEvent, BlurDetails, now, reply)
      ensures !old(ReadyToDetect()) ==> Quiet()
    {
      if !ReadyToDetect() {
        return;
      }
      HandleViolation(BlurEvent, BlurDetails, now, reply);
    }

    /**
     * The window focus listener: when armed, it looks at the visibility
     * 100 ms later (`hiddenLater`, at time `now`) and reports a `focus` event
     * when the document is hidden.
     */
    method OnFocus(hiddenLater: bool, now: int, reply: Reply)
      requires Valid()
      modifies this`violationCount, this`lastViolationTime, this`logs, this`sent,
               this`terminated, this`warningLevel, this`countdown
      ensures Valid()
      ensures old(ReadyToDetect()) && hiddenLater ==> Handled(FocusEvent, FocusDetails, now, reply)
      ensures !(old(ReadyToDetect()) && hiddenLater) ==> Quiet()
    {
      if !ReadyToDetect() {
        return;
      }
      if hiddenLater {
        HandleViolation(FocusEvent, FocusDetails, now, reply);
      }
    }

    /** The 200 ms visibility poller: reports a visible-to-hidden transition and remembers the visibility, while armed. */
    method VisibilityPoll(hidden: bool, now: int, reply: Reply)
      requires Valid()
      modifies this`violationCount, this`lastViolationTime, this`logs, this`sent,
               this`terminated, this`warningLevel, this`countdown, this`lastVisibilityHidden
      ensures Valid()
      ensures !old(ReadyToDetect()) ==> Quiet() && lastVisibilityHidden == old(lastVisibilityHidden)
      ensures old(ReadyToDetect()) ==> lastVisibilityHidden == hidden
      ensures old(ReadyToDetect()) && hidden && !old(lastVisibilityHidden) ==>
        Handled(VisibilityPollEvent, VisibilityPollDetails, now, reply)
      ensures !(hidden && !old(lastVisibilityHidden)) ==> Quiet()
    {
      if !ReadyToDetect() {
        return;
      }
      if hidden && !lastVisibilityHidden {
        HandleViolation(VisibilityPollEvent, VisibilityPollDetails, now, reply);
      }
      lastVisibilityHidden := hidden;
    }

    /** The mouseout listener: leaving with no related target means the cursor left the window. */
    method OnMouseOut(hasRelatedTarget: bool, now: int, reply: Reply)
      requires Valid()
      modifies this`violationCount, this`lastViolationTime, this`logs, this`sent,
               this`terminated, this`warningLevel, this`countdown
      ensures Valid()
      ensures old(ReadyToDetect()) && !hasRelatedTarget ==>
        Handled(CursorLeaveEvent, CursorLeaveDetails, now, reply)
      ensures !(old(ReadyToDetect()) && !hasRelatedTarget) ==> Quiet()
    {
      if !ReadyToDetect() {
        return;
      }
      if !hasRelatedTarget {
        HandleViolation(CursorLeaveEvent, CursorLeaveDetails, now, reply);
      }
    }

    /** The keydown listener: a devtools key is always suppressed, and counts once armed. */
    method OnKeyDown(key: string, ctrl: bool, shift: bool, now: int, reply: Reply) returns (preventDefault: bool)
      requires Valid()
      modifies this`violationCount, this`lastViolationTime, this`logs, this`sent,
               this`terminated, this`warningLevel, this`countdown
      ensures Valid()
      ensures preventDefault == IsDevtoolsKey(key, ctrl, shift)
      ensures preventDefault && old(ReadyToDetect()) ==>
        Handled(DevtoolsEvent, DevtoolsDetails, now, reply)
      ensures !(preventDefault && old(ReadyToDetect())) ==> Quiet()
    {
      preventDefault := IsDevtoolsKey(key, ctrl, shift);
      if preventDefault {
        if !ReadyToDetect() {
          return;
        }
        HandleViolation(DevtoolsEvent, DevtoolsDetails, now, reply);
      }
    }

    /** The contextmenu listener: the menu is always suppressed and nothing is counted. */
    method OnContextMenu() returns (preventDefault: bool)
      ensures preventDefault
    {
      preventDefault := true;
    }
  }
}
