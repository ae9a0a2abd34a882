/**
 * The registration page (auth/register.php): a visitor who is already
 * logged in is sent to the exam page; a POST is normalised, checked by an
 * ordered ladder, checked against the registered emails, and on success
 * inserted and logged in.
 *
 * The email syntax check, FILTER_VALIDATE_EMAIL, and the password hash are
 * the parameters `emailValid` and `hash`; `now` is time(); `dbOk` says
 * whether the database statements get through.
 */
module Registration {
  import opened Wrappers
  import opened PhpRuntime
  import Auth

  const UserEmailKey := "user_email"
  const LastActivityKey := "last_activity"
  const MinPasswordLength := 6

  const AllFieldsRequired := "All fields are required."
  const InvalidEmail := "Please enter a valid email address."
  const ShortPassword := "Password must be at least 6 characters long."
  const PasswordMismatch := "Passwords do not match."
  const EmailRegistered := "Email already registered. Please login instead."
  const UnexpectedError := "An unexpected error occurred. Please try again later."
  const Registered := "Registration successful! Redirecting to exam page..."

  /** The posted fields; an absent field is None and reads as "" (the ?? '' default). */
  datatype Form = Form(name: Option<string>, email: Option<string>, password: Option<string>, confirmPassword: Option<string>)

  /** The form after normalisation. */
  datatype Entry = Entry(name: string, email: string, password: string, confirmPassword: string)

  /** A row of the users table. */
  datatype UserRow = UserRow(userId: nat, name: string, email: string, passwordHash: string)

  /** What the page does: redirect to the exam page, or show the form with an error or a success message. */
  datatype Page = RedirectToExam | Shown(error: string, success: string)

  /** The result of one request: the users table, the session and the page. */
  datatype Step = Step(users: seq<UserRow>, vars: map<string, Value>, page: Page)

  /** One rung of the validation ladder: whether it passes, and its message when it does not. */
  datatype Check = Check(passes: bool, message: string)

  /** Lower-casing changes no trim character, so a trimmed string stays trimmed. */
  lemma LowerKeepsTrimmed(s: string)
    requires s == [] || (!IsTrimChar(s[0]) && !IsTrimChar(s[|s| - 1]))
    ensures var l := ToLower(s); l == [] || (!IsTrimChar(l[0]) && !IsTrimChar(l[|l| - 1]))
  {
  }

  /** `r` is the trimmed piece of `s`, which starts after its leading trim characters, with its capitals lowered. */
  predicate LowerOfTrimmed(r: string, s: string) {
    var k := LeadingTrim(s);
    k + |r| <= |s| && TrimmedAt(s[k..k + |r|], s, k) && r == ToLower(s[k..k + |r|])
  }

  lemma LowerSlice(s: string, t: string, k: nat)
    requires TrimmedAt(t, s, k) && k == LeadingTrim(s)
    ensures LowerOfTrimmed(ToLower(t), s)
    ensures var r := ToLower(t); r == [] || (!IsTrimChar(r[0]) && !IsTrimChar(r[|r| - 1]))
    ensures var r := ToLower(t); forall i :: 0 <= i < |r| ==> !('A' <= r[i] <= 'Z')
  {
    LowerKeepsTrimmed(t);
  }

  /**
   * The name and the email are trimmed, the email is lower-cased, and the
   * passwords are kept exactly as posted.
   */
  function Normalise(f: Form): (e: Entry)
    ensures e.name == [] || (!IsTrimChar(e.name[0]) && !IsTrimChar(e.name[|e.name| - 1]))
    ensures e.email == [] || (!IsTrimChar(e.email[0]) && !IsTrimChar(e.email[|e.email| - 1]))
    ensures forall i :: 0 <= i < |e.email| ==> !('A' <= e.email[i] <= 'Z')
    ensures e.password == f.password.GetOr("") && e.confirmPassword == f.confirmPassword.GetOr("")
  {
    var name := Trim(f.name.GetOr(""));
    var trimmed := Trim(f.email.GetOr(""));
    LowerKeepsTrimmed(trimmed);
    var email := ToLower(trimmed);
    assert email == [] || (!IsTrimChar(email[0]) && !IsTrimChar(email[|email| - 1]));
    Entry(name, email, f.password.GetOr(""), f.confirmPassword.GetOr(""))
  }

  /** The name is the posted name with only its leading and trailing trim characters removed. */
  lemma NormalisedName(f: Form)
    ensures var posted := f.name.GetOr(""); TrimmedAt(Normalise(f).name, posted, LeadingTrim(posted))
  {
    TrimIsTrimmed(f.name.GetOr(""));
  }

  /** The email is the same piece of the posted email, lower-cased. */
  lemma NormalisedEmail(f: Form)
    ensures LowerOfTrimmed(Normalise(f).email, f.email.GetOr(""))
  {
    var posted := f.email.GetOr("");
    TrimIsTrimmed(posted);
    LowerSlice(posted, Trim(posted), LeadingTrim(posted));
  }

  /** The rungs of the ladder, in the order the page tries them. */
  function Checks(e: Entry, emailValid: string -> bool): (cs: seq<Check>)
    ensures |cs| == 4
  {
    [Check(!(Empty(e.name) || Empty(e.email) || Empty(e.password)), AllFieldsRequired),
     Check(emailValid(e.email), InvalidEmail),
     Check(|e.password| >= MinPasswordLength, ShortPassword),
     Check(e.password == e.confirmPassword, PasswordMismatch)]
  }

  /** The index of the first rung that fails, if any. */
  function FirstFailing(cs: seq<Check>, from: nat): (r: Option<nat>)
    requires from <= |cs|
    ensures r.Some? ==> from <= r.value < |cs| && !cs[r.value].passes
                        && forall j :: from <= j < r.value ==> cs[j].passes
    ensures r.None? ==> forall j :: from <= j < |cs| ==> cs[j].passes
    decreases |cs| - from
  {
    if from == |cs| then None
    else if !cs[from].passes then Some(from)
    else FirstFailing(cs, from + 1)
  }

  /** The if/elseif ladder of the page, as written. */
  function LadderError(e: Entry, emailValid: string -> bool): (r: Option<string>)
    ensures r.None? <==> && !Empty(e.name) && !Empty(e.email) && !Empty(e.password)
                         && emailValid(e.email) && |e.password| >= MinPasswordLength
                         && e.password == e.confirmPassword
  {
    if Empty(e.name) || Empty(e.email) || Empty(e.password) then Some(AllFieldsRequired)
    else if !emailValid(e.email) then Some(InvalidEmail)
    else if |e.password| < MinPasswordLength then Some(ShortPassword)
    else if e.password != e.confirmPassword then Some(PasswordMismatch)
    else None
  }

  /** The ladder yields exactly one error: the message of the first rung that fails. */
  lemma LadderIsFirstFailure(e: Entry, emailValid: string -> bool)
    ensures LadderError(e, emailValid) == match FirstFailing(Checks(e, emailValid), 0)
                                         case Some(i) => Some(Checks(e, emailValid)[i].message)
                                         case None => None
  {
    var cs := Checks(e, emailValid);
    assert cs[0].passes == !(Empty(e.name) || Empty(e.email) || Empty(e.password));
    assert cs[1].passes == emailValid(e.email);
    assert cs[2].passes == (|e.password| >= MinPasswordLength);
    assert cs[3].passes == (e.password == e.confirmPassword);
    assert FirstFailing(cs, 4) == None;
  }

  /** PHP's empty() makes a name of "0" as missing as an empty one. */
  lemma ZeroNameIsMissing(f: Form, emailValid: string -> bool)
    requires f.name == Some("0")
    ensures LadderError(Normalise(f), emailValid) == Some(AllFieldsRequired)
  {
    TrimUntouched("0");
  }

  /** SELECT user_id FROM users WHERE email = ? finds a row. */
  function EmailTaken(users: seq<UserRow>, email: string): (r: bool)
    ensures users == [] ==> !r
    ensures |users| > 0 && users[|users| - 1].email == email ==> r
  {
    exists i :: 0 <= i < |users| && users[i].email == email
  }

  /** The session after a successful registration: the new id, the name, the email and the time. */
  function LoginWrites(vars: map<string, Value>, userId: nat, e: Entry, now: int): map<string, Value> {
    vars[Auth.UserIdKey := Int(userId)][Auth.UserNameKey := Str(e.name)][UserEmailKey := Str(e.email)][LastActivityKey := Int(now)]
  }

  /** The four writes leave the visitor logged in as the new user. */
  lemma LoginWritesLogIn(vars: map<string, Value>, userId: nat, e: Entry, now: int)
    ensures var v := LoginWrites(vars, userId, e, now);
      && Auth.LoggedIn(v)
      && v[Auth.UserIdKey] == Int(userId) && v[Auth.UserNameKey] == Str(e.name)
      && v[UserEmailKey] == Str(e.email) && v[LastActivityKey] == Int(now)
  {
  }

  /** What one request to register.php does. */
  function Submit(users: seq<UserRow>, vars: map<string, Value>, requestMethod: string, f: Form, now: int,
                  dbOk: bool, emailValid: string -> bool, hash: string -> string): (s: Step)
    ensures s.page.Shown? && s.page.error != "" ==> s.users == users && s.vars == vars && s.page.success == ""
    ensures s.users != users ==> |s.users| == |users| + 1 && s.users[..|users|] == users
  {
    if Auth.LoggedIn(vars) then Step(users, vars, RedirectToExam)
    else if requestMethod != "POST" then Step(users, vars, Shown("", ""))
    else
      var e := Normalise(f);
      match LadderError(e, emailValid)
      case Some(msg) => Step(users, vars, Shown(msg, ""))
      case None =>
        if !dbOk then Step(users, vars, Shown(UnexpectedError, ""))
        else if EmailTaken(users, e.email) then Step(users, vars, Shown(EmailRegistered, ""))
        else
          var id := |users| + 1;
          Step(users + [UserRow(id, e.name, e.email, hash(e.password))], LoginWrites(vars, id, e, now), Shown("", Registered))
  }

  /** Ids are the auto-increment values 1, 2, 3, ...; emails are unique and free of capitals. */
  ghost predicate ValidUsers(users: seq<UserRow>) {
    && (forall i :: 0 <= i < |users| ==> users[i].userId == i + 1)
    && (forall i, j :: 0 <= i < j < |users| ==> users[i].email != users[j].email)
    && (forall i, k :: 0 <= i < |users| && 0 <= k < |users[i].email| ==> !('A' <= users[i].email[k] <= 'Z'))
  }

  // ---------------------------------------------------------------- properties of a request

  /** Registration never creates a second account for an email, and keeps the ids and the lower-case emails. */
  lemma SubmitKeepsUsersValid(users: seq<UserRow>, vars: map<string, Value>, requestMethod: string, f: Form, now: int,
                              dbOk: bool, emailValid: string -> bool, hash: string -> string)
    requires ValidUsers(users)
    ensures ValidUsers(Submit(users, vars, requestMethod, f, now, dbOk, emailValid, hash).users)
  {
    var e := Normalise(f);
    var s := Submit(users, vars, requestMethod, f, now, dbOk, emailValid, hash);
    if !Auth.LoggedIn(vars) && requestMethod == "POST" && LadderError(e, emailValid).None? && dbOk
       && !EmailTaken(users, e.email) {
      InsertKeepsUsersValid(users, e, hash);
      assert s.users == users + [UserRow(|users| + 1, e.name, e.email, hash(e.password))];
    } else {
      assert s.users == users;
    }
  }

  /** Inserting an entry whose email is free and lower-case keeps the table valid. */
  lemma InsertKeepsUsersValid(users: seq<UserRow>, e: Entry, hash: string -> string)
    requires ValidUsers(users) && !EmailTaken(users, e.email)
    requires forall k :: 0 <= k < |e.email| ==> !('A' <= e.email[k] <= 'Z')
    ensures ValidUsers(users + [UserRow(|users| + 1, e.name, e.email, hash(e.password))])
  {
    var grown := users + [UserRow(|users| + 1, e.name, e.email, hash(e.password))];
    forall i, j | 0 <= i < j < |grown|
      ensures grown[i].email != grown[j].email
    {
      if j == |users| {
        assert grown[i] == users[i];
      }
    }
  }

  /** A visitor already logged in is redirected and nothing else happens. */
  lemma LoggedInIsRedirected(users: seq<UserRow>, vars: map<string, Value>, requestMethod: string, f: Form, now: int,
                             dbOk: bool, emailValid: string -> bool, hash: string -> string)
    requires Auth.LoggedIn(vars)
    ensures Submit(users, vars, requestMethod, f, now, dbOk, emailValid, hash) == Step(users, vars, RedirectToExam)
  {
  }

  /** An email that is already registered is refused with its own message and nothing is inserted. */
  lemma DuplicateEmailRefused(users: seq<UserRow>, vars: map<string, Value>, f: Form, now: int,
                              emailValid: string -> bool, hash: string -> string)
    requires !Auth.LoggedIn(vars)
    requires LadderError(Normalise(f), emailValid).None?
    requires EmailTaken(users, Normalise(f).email)
    ensures Submit(users, vars, "POST", f, now, true, emailValid, hash) == Step(users, vars, Shown(EmailRegistered, ""))
  {
  }

  /** A database failure leaves the single generic message and changes nothing. */
  lemma DatabaseFailureIsGeneric(users: seq<UserRow>, vars: map<string, Value>, f: Form, now: int,
                                 emailValid: string -> bool, hash: string -> string)
    requires !Auth.LoggedIn(vars)
    requires LadderError(Normalise(f), emailValid).None?
    ensures Submit(users, vars, "POST", f, now, false, emailValid, hash) == Step(users, vars, Shown(UnexpectedError, ""))
  {
  }

  /**
   * A successful registration inserts one user with the normalised name and
   * email, and leaves the visitor logged in as that new user, with the
   * session holding the new id, the name and the email.
   */
  lemma SuccessLogsIn(users: seq<UserRow>, vars: map<string, Value>, f: Form, now: int,
                      emailValid: string -> bool, hash: string -> string)
    requires !Auth.LoggedIn(vars)
    requires LadderError(Normalise(f), emailValid).None?
    requires !EmailTaken(users, Normalise(f).email)
    ensures var s := Submit(users, vars, "POST", f, now, true, emailValid, hash);
            var e := Normalise(f);
      && s.page == Shown("", Registered)
      && s.users == users + [UserRow(|users| + 1, e.name, e.email, hash(e.password))]
      && Auth.LoggedIn(s.vars)
      && s.vars[Auth.UserIdKey] == Int(|users| + 1)
      && s.vars[Auth.UserNameKey] == Str(e.name)
      && s.vars[UserEmailKey] == Str(e.email)
      && s.vars[LastActivityKey] == Int(now)
      && EmailTaken(s.users, e.email)
  {
    var e := Normalise(f);
    var id := |users| + 1;
    var s := Submit(users, vars, "POST", f, now, true, emailValid, hash);
    assert s == Step(users + [UserRow(id, e.name, e.email, hash(e.password))], LoginWrites(vars, id, e, now), Shown("", Registered));
    assert s.users[|users|].email == e.email;
    LoginWritesLogIn(vars, id, e, now);
  }

  /** Registering the same form twice in a row: a second attempt from a fresh session finds the email taken. */
  lemma SecondRegistrationRefused(users: seq<UserRow>, vars: map<string, Value>, f: Form, now1: int, now2: int,
                                  emailValid: string -> bool, hash: string -> string)
    requires !Auth.LoggedIn(vars)
    requires LadderError(Normalise(f), emailValid).None?
    requires !EmailTaken(users, Normalise(f).email)
    ensures var s1 := Submit(users, vars, "POST", f, now1, true, emailValid, hash);
            var s2 := Submit(s1.users, map[], "POST", f, now2, true, emailValid, hash);
      s2.page == Shown(EmailRegistered, "") && s2.users == s1.users
  {
    SuccessLogsIn(users, vars, f, now1, emailValid, hash);
  }

  // ---------------------------------------------------------------- the request, step by step

  /** The users table. */
  class UserTable {
    var users: seq<UserRow>

    ghost predicate Valid()
      reads this
    {
      ValidUsers(users)
    }

    constructor ()
      ensures Valid() && users == []
    {
      users := [];
    }

    /** The successful branch: insert the user, then write the four session keys one by one. */
    method Insert(e: Entry, session: Auth.PhpSession, now: int, hash: string -> string)
      requires Valid() && !EmailTaken(users, e.email)
      requires forall k :: 0 <= k < |e.email| ==> !('A' <= e.email[k] <= 'Z')
      modifies this, session
      ensures Valid()
      ensures users == old(users) + [UserRow(|old(users)| + 1, e.name, e.email, hash(e.password))]
      ensures session.vars == LoginWrites(old(session.vars), |old(users)| + 1, e, now)
    {
      InsertKeepsUsersValid(users, e, hash);
      var userId := |users| + 1;
      users := users + [UserRow(userId, e.name, e.email, hash(e.password))];
      session.vars := session.vars[Auth.UserIdKey := Int(userId)];
      session.vars := session.vars[Auth.UserNameKey := Str(e.name)];
      session.vars := session.vars[UserEmailKey := Str(e.email)];
      session.vars := session.vars[LastActivityKey := Int(now)];
    }

    /** The page's request handling. */
    method Register(requestMethod: string, f: Form, session: Auth.PhpSession, now: int, dbOk: bool,
                    emailValid: string -> bool, hash: string -> string) returns (page: Page)
      requires Valid()
      modifies this, session
      ensures Valid()
      ensures Submit(old(users), old(session.vars), requestMethod, f, now, dbOk, emailValid, hash)
              == Step(users, session.vars, page)
    {
      ghost var vars0 := session.vars;
      ghost var expected := Submit(users, vars0, requestMethod, f, now, dbOk, emailValid, hash);
      if session.IsLoggedIn() {
        return RedirectToExam;
      }
      if requestMethod != "POST" {
        return Shown("", "");
      }
      var e := Normalise(f);
      var error := LadderError(e, emailValid);
      if error.Some? {
        return Shown(error.value, "");
      }
      if !dbOk {
        return Shown(UnexpectedError, "");
      }
      var taken := EmailTaken(users, e.email);
      if taken {
        return Shown(EmailRegistered, "");
      }
      assert expected == Step(users + [UserRow(|users| + 1, e.name, e.email, hash(e.password))],
                              LoginWrites(vars0, |users| + 1, e, now), Shown("", Registered));
      Insert(e, session, now, hash);
      page := Shown("", Registered);
    }
  }
}
