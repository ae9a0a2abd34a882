# Exam integrity monitor — a Dafny model

This project models the core of an online exam site that tries to stop
cheating. The core has two halves: a browser-side detector and a server-side
violation ledger. Around them sit the exam page, registration, the login
session and the base-path configuration.

- **Detector** (`detection.dfy`, class `Detection.CheatingDetector`): the
  exam page's `CheatingDetector`. Every watched event goes through one
  handler:
  - one 2000 ms debounce is shared by all kinds of event;
  - a counted event is reported to the server;
  - the detector warns on the first and second counted violations;
  - it terminates on the third, or when the server answers `end`;
  - termination is absorbing.

  A fullscreen exit starts a 15-second countdown, and running out of time
  reports a second exit. Time is the integer `now`. The browser's fullscreen
  and visibility states are boolean inputs. Timers are explicit tick methods.
  A report is appended to the outbox `sent`, and its reply is an input: the
  server's directive, or a failure that yields the offline fallback directive.
- **Ledger** (`ledger.dfy`): the `log_event.php` request handler.
  - An ordered validation ladder comes first.
  - Then one transaction runs over the tables `exam_sessions` and
    `exam_violations`:
    - find or open the session;
    - append the violation;
    - recount since the session started;
    - decide `ok`/`warn`/`end`;
    - from three violations on, end the session.
  - The pure function `Process` states what one request does.
  - The class `ViolationLedger` performs it step by step and is proved equal
    to `Process`.
- **Protocol** (`protocol.dfy`): the reply's directive, and the count-to-action
  law both sides share.
- **Exam page** (`exam.dfy`, class `Exam.ExamManager`):
  - forward-only navigation;
  - the answers map;
  - the score loop;
  - the one-second countdown with its MM:SS text and low-time warning;
  - the submitted form.
- **Registration** (`registration.dfy`):
  - normalisation of the posted form;
  - the four-rung error ladder;
  - the duplicate-email check;
  - the insert and the session writes on success.

  The email syntax check and the password hash are parameters.
- **Login session** (`auth.dfy`): `$_SESSION` as a map with the login and
  logout operations and the `isLoggedIn` reads.
- **Configuration** (`config.dfy`): the project base path
  derived from the script directory, and the guarded definitions of
  `BASE_URL` and `BASE_PATH`.
- **PHP built-ins** (`php_runtime.dfy`): the few built-ins these scripts
  rely on. They are `trim`, `substr`, `strtolower`, `empty`, `str_replace`,
  `strpos`, `rtrim`, `isset` and the `(int)` cast. JavaScript's `String(n)`
  for integers is also here.

Behaviours of the code that the model keeps:

- The client reports the event types `focus` and `visibility_poll`. The
  server's whitelist rejects both, so those reports end on the client's
  offline fallback.
- `start_session` opens a new session even when one is already open.
  Nothing enforces a single open session per user and exam.
- The offline fallback reports `violations` as the local count plus one,
  although the local count already includes the current event.
- `reportViolation` never throws: it catches its own failures and returns the
  fallback. So the catch branch of `handleViolation`
  (assets/js/detection.js:427-443) cannot run and is not modelled separately.
- The periodic pollers are not stopped by termination; they are only gated by
  `readyToDetect`. A `fullscreenchange` event still reaches `checkFullscreen`
  after termination, and can still start a countdown.
- No PHP file cited here writes `$_SESSION['exam_id']`, so unless another
  script does, every report is answered with "No active exam session". The
  model keeps `exam_id` as an ordinary session key that may or may not be set.

## Model

| member | source | states |
|---|---|---|
| Protocol.ActionFor | log_event.php:174-194 | no violation is `ok`, one or two are `warn`, three or more are `end` |
| Protocol.EscalationIsMonotone | log_event.php:174-194 | more violations never give a milder action; once `end`, always `end` |
| PhpRuntime.Trim | log_event.php:64 | trim never lengthens a string and leaves no trim character at either end |
| PhpRuntime.TrimIsTrimmed | log_event.php:64 | trim removes the trim characters at both ends and nothing else: the result is the contiguous piece that follows the leading trim characters, only trim characters lie after it, and it neither starts nor ends with one |
| PhpRuntime.TrimmedAtUnique | log_event.php:64 | only one piece of a string has that property, so it pins down trim's result |
| PhpRuntime.TrimUntouched | log_event.php:64 | a string with no trim character at either end comes back unchanged |
| PhpRuntime.Prefix | log_event.php:64-65 | substr($s, 0, n) is a prefix of the string: all of it when it has at most n characters, otherwise exactly its first n |
| PhpRuntime.ToLower | auth/register.php:39 | strtolower keeps the length, maps each character and leaves no capital |
| PhpRuntime.Empty | auth/register.php:45 | empty() holds for "" and "0" and for no other string |
| PhpRuntime.ContainsOccurs | includes/config.php:14-22 | strpos($s, $pat) !== false holds exactly when the pattern occurs at some position of the string |
| PhpRuntime.ReplaceAll | includes/config.php:10-21 | str_replace with a replacement no longer than the pattern never lengthens the string, and one of equal length keeps the length |
| PhpRuntime.RTrim | includes/config.php:25-27 | rtrim removes only the trailing run of the given character and leaves none at the end |
| PhpRuntime.IntCast | result.php:19-21 | a missing value casts to 0, and a string of digits alone casts to the number it spells |
| PhpRuntime.DecimalString | assets/js/exam.js:143-144 | String(n) starts with a minus sign exactly for a negative number, and every other character is a digit |
| PhpRuntime.DecimalRoundTrip | result.php:19-21 | the (int) cast reads back the integer that String(n) wrote |
| Detection.FallbackDirective | assets/js/detection.js:358-363 | the offline directive follows the ok/warn/end law on the local count and reports that count plus one |
| Detection.ReportOutcome | assets/js/detection.js:332-364 | the server's directive when the request succeeds; otherwise the ok/warn/end law on the local count, that count plus one and the error message |
| Detection.Escalates | assets/js/detection.js:403-425 | an accepted violation terminates exactly when the outcome says `end` or the local count is 3 or more |
| Detection.OfflineIsNoLaxer | assets/js/detection.js:355-425 | with the reply failed, the detector terminates exactly from the third violation, and from the third it terminates whatever the reply |
| Detection.IsDevtoolsKey | assets/js/detection.js:214-216 | exactly F12, Ctrl+Shift+I, Ctrl+Shift+J and Ctrl+u match; case matters |
| Detection.CheatingDetector.ReadyToDetect | assets/js/detection.js:31-33 | detection needs fullscreen to have been entered and stops for good at termination |
| Detection.CheatingDetector.constructor | assets/js/detection.js:7-28 | starts with no violation, no warning, not armed, no fullscreen memory and empty logs |
| Detection.CheatingDetector.EnterFullscreen | assets/js/detection.js:66-92 | entering fullscreen arms the detector and sends one start_session report; failing changes nothing |
| Detection.CheatingDetector.StartMonitoring | assets/js/detection.js:107-126 | the initial check has the whole effect of checkFullscreen on the count, logs, reports, termination, warnings and countdown, and then the current fullscreen state is remembered |
| Detection.CheatingDetector.ShowWarning | assets/js/detection.js:476-480 | raises the warning level by one unless terminated |
| Detection.CheatingDetector.StartCountdown | assets/js/detection.js:260-261 | a new countdown starts at 15 seconds |
| Detection.CheatingDetector.ClearCountdown | assets/js/detection.js:307-317 | no countdown runs afterwards |
| Detection.CheatingDetector.TerminateExam | assets/js/detection.js:510-576 | the first call terminates, stops the countdown and logs one termination entry; later calls change nothing |
| Detection.CheatingDetector.Accept | assets/js/detection.js:372-403 | accepts exactly when not terminated and 2000 ms past the last counted violation; an accepted event adds one to the count, stamps the time, logs and sends one report; a debounced one only logs a suppressed entry |
| Detection.CheatingDetector.Escalate | assets/js/detection.js:403-425 | terminates exactly on an `end` reply or a count of 3 or more, otherwise shows one more warning; the warning ladder invariant is kept |
| Detection.CheatingDetector.HandleViolation | assets/js/detection.js:372-444 | the whole handler: absorbing termination, debounce, count plus one, one log entry and one report, and warn-or-terminate; the countdown stops only when this call terminates |
| Detection.CheatingDetector.CheckFullscreen | assets/js/detection.js:224-258 | nothing happens before arming; the first check only records; fullscreen to windowed is one violation and starts a countdown only if none runs and the exam was not terminated by it; windowed to fullscreen clears the countdown; once armed the state is always remembered |
| Detection.CheatingDetector.CountdownTick | assets/js/detection.js:295-304 | one second less, and at zero the countdown stops and one more fullscreen_exit is handled |
| Detection.CheatingDetector.FullscreenPoll | assets/js/detection.js:121-125 | while armed and not terminated the periodic check has the whole effect of checkFullscreen and remembers the state; otherwise nothing changes |
| Detection.CheatingDetector.OnVisibilityChange | assets/js/detection.js:131-136 | a hidden document is a violation once armed; otherwise nothing changes |
| Detection.CheatingDetector.OnBlur | assets/js/detection.js:140-143 | a blur is a violation once armed; otherwise nothing changes |
| Detection.CheatingDetector.OnFocus | assets/js/detection.js:147-154 | a focus followed by a hidden document is a `focus` violation once armed |
| Detection.CheatingDetector.VisibilityPoll | assets/js/detection.js:157-165 | only a visible-to-hidden change is a violation, and the visibility is remembered while armed |
| Detection.CheatingDetector.OnMouseOut | assets/js/detection.js:194-202 | leaving with no related target is a cursor_leave violation once armed |
| Detection.CheatingDetector.OnKeyDown | assets/js/detection.js:212-221 | a devtools key is always suppressed and is a violation once armed; other keys change nothing |
| Detection.CheatingDetector.OnContextMenu | assets/js/detection.js:205-208 | the context menu is always suppressed |
| Ledger.IsValidEventType | log_event.php:216-228 | every listed type is 1 to 50 characters long with no trim character at either end, so trimming and cutting leave it as it is |
| Ledger.CleanDetails | log_event.php:65 | details are present exactly when posted; then they are the trimmed text: all of it when it has at most 1000 characters, otherwise exactly its first 1000 |
| Ledger.Validate | log_event.php:38-70 | the first failing check decides the error (method, user, exam, body, event type); on success the ids are the cast session values, the event type is the trimmed, cut, listed type and the details are the cleaned posted details |
| Ledger.FirstOpenFrom | log_event.php:79-90 | the session lookup finds the first open session of the user in the exam, or none exists |
| Ledger.CountSince | log_event.php:166-172 | the count never exceeds the number of violation rows |
| Ledger.CountAppend | log_event.php:159-172 | appending one violation adds one to the count exactly when it is in the window |
| Ledger.CountNoneRecent | log_event.php:166-172 | with no violation in the window the count is zero |
| Ledger.ViolationMessage | log_event.php:174-194 | the terminated message exactly when the action is `end`, the logged message exactly when it is `ok`, and among warnings the final one exactly on the second violation |
| Ledger.EndSession | log_event.php:178-187 | the ending UPDATE keeps the number of session rows |
| Ledger.Apply | log_event.php:72-204 | a validated event always succeeds with a session id, and its action follows the ok/warn/end law on its count |
| Ledger.Process | log_event.php:38-213 | success exactly when validation passes and the database gets through; an error writes nothing |
| Ledger.ApplyKeepsTablesValid | log_event.php:94-187 | session ids stay 1, 2, 3, ... and an end time always comes with a reason |
| Ledger.ProcessKeepsTablesValid | log_event.php:38-213 | the same for any request |
| Ledger.EndSessionKeepsValid | log_event.php:178-187 | ending a session keeps the ids and pairs the end time with its reason |
| Ledger.RejectionWritesNothing | log_event.php:206-213 | a rejected or failed request writes no table and no session key |
| Ledger.StartSessionOpensNewSession | log_event.php:94-157 | start_session appends exactly one open session started now, adds no violation, changes no existing row and answers with the new id |
| Ledger.StartSessionTwice | log_event.php:94-110 | two start_session requests leave two different open sessions |
| Ledger.ViolationIsRecordedAndCounted | log_event.php:112-172 | another event opens a session only when none is open, appends exactly one violation stamped now, and answers the recount, which is at least 1 and not `ok`; below 3 the old session rows are kept and the only new row is the opened session with the next id, started now and open |
| Ledger.TerminationEndsOnlyChargedSession | log_event.php:174-194 | from 3 counted violations the answer is `end` and only the charged session is ended, with reason "terminated" |
| Ledger.NextViolationAfterTerminationRestarts | log_event.php:166-194 | after a session has ended, the next violation opens a new session and counts as the first |
| Ledger.ClientEventTypes | log_event.php:215-228 | the client's types are accepted except `focus` and `visibility_poll` |
| Ledger.FocusIsNotListed | log_event.php:64-70 | `focus` is unchanged by trimming and cutting and is off the list |
| Ledger.UnlistedIsRefused | log_event.php:64-70 | a type off the list after trimming and cutting is refused as an invalid event type |
| Ledger.FocusIsRefused | log_event.php:64-70 | a logged-in `focus` report is refused as an invalid event type |
| Ledger.ViolationLedger.LogEvent | log_event.php:38-213 | the tables, the reply and the session after the request are those `Process` gives |
| Ledger.ViolationLedger.OpenSession | log_event.php:112-131 | inserts one session row with the next id and stores that id in the session |
| Ledger.ViolationLedger.LogViolation | log_event.php:159-204 | appends the violation; the reply has the recount, its action and message; from 3 the session is ended |
| Ledger.ViolationLedger.Record | log_event.php:78-204 | the transaction's effect is the one `Apply` gives |
| Exam.IsCorrect | assets/js/exam.js:167 | an unanswered question is never correct |
| Exam.Score | assets/js/exam.js:165-171 | the score is at most the number of questions |
| Exam.CountScore | assets/js/exam.js:165-171 | the forEach loop computes the number of correctly answered questions |
| Exam.ScoreWithoutAnswers | assets/js/exam.js:165-171 | with no answers the score is 0 |
| Exam.ScoreAllCorrect | assets/js/exam.js:165-171 | with every answer correct the score is the number of questions |
| Exam.ScoreOneAnswer | assets/js/exam.js:98-112 | saving one answer moves the score by at most one, and not at all past the last question |
| Exam.ScoreSameBelow | assets/js/exam.js:165-171 | the score depends only on the answers to existing questions |
| Exam.Minutes | assets/js/exam.js:137 | Math.floor(t / 60): minutes * 60 <= t < minutes * 60 + 60 |
| Exam.Seconds | assets/js/exam.js:138 | JavaScript's t % 60: in (-60, 60), and for t >= 0 it completes minutes * 60 + seconds = t |
| Exam.PadStart2 | assets/js/exam.js:142-144 | padStart(2, '0'): at least two characters, the original at the end, zeros before it |
| Exam.PaddedReadsBack | assets/js/exam.js:143-144 | a number below 100 shows as two digits that read back as the number |
| Exam.TwoDigitFields | assets/js/exam.js:137-144 | below 100 minutes both fields of the timer are two characters wide |
| Exam.TimerText | assets/js/exam.js:136-144 | the timer text is at least five characters, and below 100 minutes exactly MM:SS |
| Exam.TimerWarning | assets/js/exam.js:148-150 | for a non-negative time the warning shows exactly while the display reads 01:00 or less |
| Exam.TimerTextReadsBack | assets/js/exam.js:136-144 | below 100 minutes the text is MM:SS, and its fields read back as minutes and seconds that make up the time again |
| Exam.ExamManager.constructor | assets/js/exam.js:7-28 | index 0, no answers, the full duration left, the timer running and nothing submitted |
| Exam.ExamManager.NextQuestion | assets/js/exam.js:114-119 | moves on only while a later question exists, so the index stays valid |
| Exam.ExamManager.SaveAnswer | assets/js/exam.js:106-112 | writes only the current question's answer, and only when an option is checked |
| Exam.ExamManager.OnAnswerChange | assets/js/exam.js:98-103 | a change of an `answer` radio writes only the current question's answer |
| Exam.ExamManager.UpdateTimerDisplay | assets/js/exam.js:136-151 | the warning class is added at 60 seconds or less and never removed |
| Exam.ExamManager.SubmitExam | assets/js/exam.js:159-191 | stops the timer and submits `1`, the score, the question count, the whole seconds taken and `completed` |
| Exam.ExamManager.TimeUp | assets/js/exam.js:153-157 | stops the timer and submits |
| Exam.ExamManager.Tick | assets/js/exam.js:124-131 | exactly one second less, and at zero or below the exam is submitted and the timer stops; a stopped timer changes nothing |
| Exam.ExamManager.NextClick | assets/js/exam.js:84-87 | saves the checked option, then moves on |
| Exam.ExamManager.SubmitClick | assets/js/exam.js:90-95 | without confirmation nothing changes; with it the checked option is saved and the exam submitted |
| Registration.Normalise | auth/register.php:37-42 | neither the name nor the email starts or ends with a trim character, the email has no capital, and the passwords are kept as posted (the `?? ''` default included) |
| Registration.NormalisedName | auth/register.php:39 | the name is the posted name with only its leading and trailing trim characters removed |
| Registration.NormalisedEmail | auth/register.php:40 | the email is the same trimmed piece of the posted email, with strtolower applied |
| Registration.LadderError | auth/register.php:44-59 | no error exactly when all three fields are non-empty, the email is valid, the password has at least 6 characters and matches its confirmation |
| Registration.LadderIsFirstFailure | auth/register.php:44-59 | the ladder yields exactly one error, that of the first failing rung in the order missing field, invalid email, short password, mismatch |
| Registration.ZeroNameIsMissing | auth/register.php:45 | a name of "0" counts as missing, as PHP's empty() says |
| Registration.EmailTaken | auth/register.php:61-73 | no email is taken in an empty table, and the email of the last inserted row is taken |
| Registration.LoginWritesLogIn | auth/register.php:96-99 | the session writes leave the visitor logged in with the new id, name, email and time |
| Registration.Submit | auth/register.php:27-131 | an error changes neither the table nor the session; the table only ever grows by one appended row |
| Registration.SubmitKeepsUsersValid | auth/register.php:61-99 | registration keeps ids 1, 2, 3, ..., unique emails and lower-case emails |
| Registration.InsertKeepsUsersValid | auth/register.php:78-89 | inserting a free, lower-case email keeps the table valid |
| Registration.LoggedInIsRedirected | auth/register.php:27-31 | a logged-in visitor is redirected and nothing changes |
| Registration.DuplicateEmailRefused | auth/register.php:61-73 | a registered email is refused with its own message and nothing is inserted |
| Registration.DatabaseFailureIsGeneric | auth/register.php:127-131 | a database failure yields the one generic message and changes nothing |
| Registration.SuccessLogsIn | auth/register.php:78-99 | success inserts one user with the normalised name and email and logs the visitor in as that user |
| Registration.SecondRegistrationRefused | auth/register.php:61-75 | registering the same form again finds the email taken |
| Registration.UserTable.Insert | auth/register.php:78-99 | appends the user with the next id and writes the four session keys |
| Registration.UserTable.Register | auth/register.php:27-131 | the table, the session and the page after the request are those `Submit` gives |
| Config.StripIsReplace | includes/config.php:13-22 | a guarded removal is the same as an unguarded one |
| Config.GuardsDoNotMatter | includes/config.php:13-22 | the strpos guards do not change the stripped directory |
| Config.StripKeepsOut | includes/config.php:13-22 | a removal brings in no character |
| Config.StrippedDir | includes/config.php:9-22 | the stripped directory contains no backslash |
| Config.BasePath | includes/config.php:25-27 | the base path is the stripped directory with only trailing slashes removed and contains no backslash; a stripped directory of exactly "/" is kept as "/", any other ends without a slash |
| Config.BasePathDetermined | includes/config.php:25-27 | those facts fix the base path: any string meeting them is the base path |
| Config.RootOrNoTrailingSlash | includes/config.php:25-27 | the base path is "/" or does not end in a slash |
| Config.PlainDirectoryUnchanged | includes/config.php:13-27 | a directory naming none of the three folders and without a trailing slash comes back unchanged, apart from backslashes |
| Config.DefineOnce | includes/config.php:30-35 | define() guarded by defined(): an existing constant keeps its value and nothing else changes |
| Config.Configure | includes/config.php:30-35 | both constants are defined afterwards, an existing one keeps its value, and no other constant changes |
| Config.BothConstantsAgree | includes/config.php:30-35 | on a fresh table, BASE_URL and BASE_PATH both hold the base path |
| Config.FirstDefinitionWins | includes/config.php:30-35 | loading the configuration again, from any script, changes nothing |
| Auth.LoggedIn | includes/auth.php:12-14 | being logged in needs both keys in the session, so an empty session is logged out |
| Auth.PhpSession.IsLoggedIn | includes/auth.php:12-14 | logged in exactly when neither getUserId nor getUserName answers null |
| Auth.PhpSession.constructor | includes/auth.php:7 | the session holds the given map |
| Auth.PhpSession.GetUserId | includes/auth.php:30-32 | the stored user id, or null exactly when it is not set |
| Auth.PhpSession.GetUserName | includes/auth.php:37-39 | the stored user name, or null exactly when it is not set |
| Auth.PhpSession.LoginUser | includes/auth.php:44-47 | writes only user_id and user_name; with both non-null the visitor is logged in as them |
| Auth.PhpSession.LogoutUser | includes/auth.php:52-55 | the session is empty, nobody is logged in and both getters return null |

## Left out

- DOM and presentation are not modelled: modals, banners, the countdown text, disabling and cloning inputs, `renderQuestion`, `escapeHtml`, the progress bar (a float), the warning prefixes of `showWarning`, and the PHP templates and static pages.
- `fetch`, JSON transport and the `await` interleaving are left out. Events are handled one at a time. The reply to a report is a parameter, acted on right after the synchronous part of the handler.
- The 100 ms delay of the focus listener is left out. Its visibility check is the input `hiddenLater`.
- Clocks are left out. `Date.now()`, `NOW()` and `time()` are the argument `now`, and ISO time strings in the log are that integer.
- The `window` globals (`exam_session_id`, `examAnswers`, `examTimer`) are left out. Stopping the exam timer from `terminateExam` is therefore not modelled.
- `submitExamAsCheated` is never called by the code and is not modelled.
- MySQL mechanics are left out: prepared statements, transactions and rollback. A failed statement is the single input `dbOk`, taken before any write. A failure midway that leaves `$_SESSION['exam_session_id']` written is not modelled.
- Row ids are modelled as `|rows| + 1`, and the table invariants (`ValidTables`, `ValidUsers`) expect ids 1, 2, 3, … without gaps. MySQL `AUTO_INCREMENT` can skip ids (after a rollback, say), so a real table may hold ids the model never assigns.
- Ledger.FirstOpenFrom: `LIMIT 1` without `ORDER BY` may return any open row; the model takes the first in insertion order.
- Column collation is not modelled. Email and event-type comparisons are exact.
- `started_at` is compared as an integer, not as a DATETIME string.
- PhpRuntime.DecimalString: JavaScript's `String(n)` writes integers of magnitude 1e21 or more in exponent form; the model writes plain decimal for every integer, so its contract covers only magnitudes below 1e21.
- PHP's `(int)` cast is modelled for plain decimal integers. Exponent and hexadecimal forms and overflow to `PHP_INT_MAX` are not modelled.
- Strings are sequences of characters. `strlen`, `substr` and `strtolower` work on bytes in PHP, so multi-byte input is not modelled.
- `password_hash` and `filter_var(FILTER_VALIDATE_EMAIL)` are the parameters `hash` and `emailValid`. `dirname` is applied before the model, which takes the script directory.
- The registration log insert (`registration_logs`) is non-fatal and writes a table outside the model, so it is left out. The `refresh` header is left out too.
- `requireLogin`, `hashPassword` and `verifyPassword` of includes/auth.php are redirects or library calls and are not modelled. `session_destroy` is modelled only as emptying the map.
- Exam.ExamManager.DisplayedTime: the timer element's text is not stored. It is the function `DisplayedTime` of `timeRemaining`, which `updateTimerDisplay` rewrites after every change.
