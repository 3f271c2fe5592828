/** The rule-bearing parts of the account routes in app/auth/auth.py:
    the password rules of registration and of the password reset, the
    challenge codes behind account activation and password reset with
    their expiry windows, who may update which account, and the guard of
    the pending-e-mail route. Password hashing is a library call and
    arrives as a parameter; times are datetimes in microseconds. */
module AuthRoutes {
  import opened Types
  import opened Users
  import opened AuthUtils

  // Password rules

  /** The special characters both routes require one of. */
  const SpecialChars: string := "!@#$%^&*()-_=+[]{}|;:'\",.<>?/"

  /** The characters registration allows: ASCII letters, digits and the
      special characters. */
  predicate AllowedChar(c: char)
  {
    IsAsciiAlnum(c) || c in SpecialChars
  }

  /** Python's `str.isdigit`, `str.isupper` and `str.islower` for one
      character. They cover all of Unicode, which is not modelled; what the
      rules need is that they agree with ASCII on ASCII characters. */
  datatype CharClasses = CharClasses(isDigit: char -> bool, isUpper: char -> bool, isLower: char -> bool)

  ghost predicate AsciiFaithful(cls: CharClasses)
  {
    forall c: char :: c as int < 128 ==>
      && (cls.isDigit(c) <==> '0' <= c <= '9')
      && (cls.isUpper(c) <==> 'A' <= c <= 'Z')
      && (cls.isLower(c) <==> 'a' <= c <= 'z')
  }

  predicate HasDigit(pw: string, cls: CharClasses) { exists i :: 0 <= i < |pw| && cls.isDigit(pw[i]) }
  predicate HasUpper(pw: string, cls: CharClasses) { exists i :: 0 <= i < |pw| && cls.isUpper(pw[i]) }
  predicate HasLower(pw: string, cls: CharClasses) { exists i :: 0 <= i < |pw| && cls.isLower(pw[i]) }
  predicate HasSpecial(pw: string) { exists i :: 0 <= i < |pw| && pw[i] in SpecialChars }
  predicate AllAllowed(pw: string) { forall i :: 0 <= i < |pw| ==> AllowedChar(pw[i]) }

  /** The strength rules both routes share: at least eight characters, a
      digit, an upper-case letter, a lower-case letter and a special one. */
  predicate Strong(pw: string, cls: CharClasses)
  {
    |pw| >= 8 && HasDigit(pw, cls) && HasUpper(pw, cls) && HasLower(pw, cls) && HasSpecial(pw)
  }

  /** Why a password was refused. Registration reports the character set
      on its own and every other rule with one shared message (`Weak`);
      the reset reports each rule separately. */
  datatype PasswordError = Mismatch | BadCharset | Weak | TooShort | NoDigit | NoUpper | NoLower | NoSpecial

  /** The checks of `register_user`: the character set first, then the
      strength rules. `None` means accepted. */
  function RegisterPasswordCheck(pw: string, cls: CharClasses): (r: Option<PasswordError>)
    ensures r.None? <==> AllAllowed(pw) && Strong(pw, cls)
    ensures r == Some(BadCharset) <==> !AllAllowed(pw)
    ensures r.Some? ==> r.value == BadCharset || r.value == Weak
  {
    if !AllAllowed(pw) then Some(BadCharset)
    else if |pw| < 8 then Some(Weak)
    else if !HasDigit(pw, cls) then Some(Weak)
    else if !HasUpper(pw, cls) then Some(Weak)
    else if !HasLower(pw, cls) then Some(Weak)
    else if !HasSpecial(pw) then Some(Weak)
    else None
  }

  /** The checks of `reset_password_submit`: the confirmation first, then
      length, digit, upper, lower and special in that order, each with its
      own message; there is no character-set rule. */
  function ResetPasswordCheck(pw: string, confirm: string, cls: CharClasses): (r: Option<PasswordError>)
    ensures r.None? <==> pw == confirm && Strong(pw, cls)
    ensures pw != confirm <==> r == Some(Mismatch)
    ensures r != Some(BadCharset) && r != Some(Weak)
    ensures r == Some(TooShort) <==> pw == confirm && |pw| < 8
    ensures r == Some(NoDigit) <==> pw == confirm && |pw| >= 8 && !HasDigit(pw, cls)
    ensures r == Some(NoUpper) <==> pw == confirm && |pw| >= 8 && HasDigit(pw, cls) && !HasUpper(pw, cls)
    ensures r == Some(NoLower) <==>
      pw == confirm && |pw| >= 8 && HasDigit(pw, cls) && HasUpper(pw, cls) && !HasLower(pw, cls)
    ensures r == Some(NoSpecial) <==>
      pw == confirm && |pw| >= 8 && HasDigit(pw, cls) && HasUpper(pw, cls) && HasLower(pw, cls) && !HasSpecial(pw)
    ensures r == Some(NoSpecial) ==> Strong(pw + "!", cls)
  {
    if pw != confirm then Some(Mismatch)
    else if |pw| < 8 then Some(TooShort)
    else if !HasDigit(pw, cls) then Some(NoDigit)
    else if !HasUpper(pw, cls) then Some(NoUpper)
    else if !HasLower(pw, cls) then Some(NoLower)
    else if !HasSpecial(pw) then
      AppendSpecialKeepsClasses(pw, cls);
      Some(NoSpecial)
    else None
  }

  /** Appending a character keeps every class a password already has. */
  lemma AppendSpecialKeepsClasses(pw: string, cls: CharClasses)
    requires |pw| >= 8 && HasDigit(pw, cls) && HasUpper(pw, cls) && HasLower(pw, cls)
    ensures Strong(pw + "!", cls)
  {
    var p := pw + "!";
    var d :| 0 <= d < |pw| && cls.isDigit(pw[d]);
    var u :| 0 <= u < |pw| && cls.isUpper(pw[u]);
    var l :| 0 <= l < |pw| && cls.isLower(pw[l]);
    assert p[d] == pw[d] && p[u] == pw[u] && p[l] == pw[l];
    assert p[|pw|] == '!' == SpecialChars[0];
  }

  /** Registration's verdict depends only on ASCII: any two ways of
      classifying Unicode that agree on ASCII give the same answer. */
  lemma RegisterIgnoresNonAscii(pw: string, c1: CharClasses, c2: CharClasses)
    requires AsciiFaithful(c1) && AsciiFaithful(c2)
    ensures RegisterPasswordCheck(pw, c1) == RegisterPasswordCheck(pw, c2)
  {
    if AllAllowed(pw) {
      assert forall i :: 0 <= i < |pw| ==> pw[i] as int < 128 by {
        forall i | 0 <= i < |pw| ensures pw[i] as int < 128 {
          assert AllowedChar(pw[i]);
          if pw[i] in SpecialChars {
            var k :| 0 <= k < |SpecialChars| && SpecialChars[k] == pw[i];
          }
        }
      }
      SameClassesOnAscii(pw, c1, c2);
    }
  }

  lemma SameClassesOnAscii(pw: string, c1: CharClasses, c2: CharClasses)
    requires AsciiFaithful(c1) && AsciiFaithful(c2)
    requires forall i :: 0 <= i < |pw| ==> pw[i] as int < 128
    ensures HasDigit(pw, c1) == HasDigit(pw, c2)
    ensures HasUpper(pw, c1) == HasUpper(pw, c2)
    ensures HasLower(pw, c1) == HasLower(pw, c2)
  {
    forall i | 0 <= i < |pw|
      ensures c1.isDigit(pw[i]) == c2.isDigit(pw[i])
      ensures c1.isUpper(pw[i]) == c2.isUpper(pw[i])
      ensures c1.isLower(pw[i]) == c2.isLower(pw[i])
    {
      var c := pw[i];
      assert c as int < 128;
    }
  }

  /** Every password registration accepts is accepted by the reset. */
  lemma RegisteredPasswordResettable(pw: string, cls: CharClasses)
    requires RegisterPasswordCheck(pw, cls).None?
    ensures ResetPasswordCheck(pw, pw, cls).None?
  {
  }

  /** The converse fails: the reset has no character-set rule, so a
      password containing a space passes it and fails registration. */
  lemma ResetIsLaxerThanRegister(cls: CharClasses)
    requires AsciiFaithful(cls)
    ensures RegisterPasswordCheck("Abcdef1! ", cls) == Some(BadCharset)
    ensures ResetPasswordCheck("Abcdef1! ", "Abcdef1! ", cls).None?
  {
    var p := "Abcdef1! ";
    assert !AllowedChar(p[8]) by {
      assert p[8] == ' ';
      SpaceNotSpecial();
    }
    assert cls.isDigit(p[6]) && cls.isUpper(p[0]) && cls.isLower(p[1]);
    assert p[7] == SpecialChars[0];
  }

  lemma SpaceNotSpecial()
    ensures ' ' !in SpecialChars
  {
  }

  // Challenge codes: activation and password reset

  /** One row of the challenge-code table. `callFrom` says which flow the
      code belongs to; the code itself is unique in the table. */
  datatype Challenge = Challenge(code: string, callFrom: Option<string>, userId: string, createdAt: int)

  const Microsecond: int := 1
  const Minute: int := 60 * 1_000_000 * Microsecond

  /** `timedelta(minutes=5)`: activation links and the reset page. */
  const ShortWindow: int := 5 * Minute

  /** `timedelta(hours=24)`: the reset submission. */
  const LongWindow: int := 24 * 60 * Minute

  /** `created_at < datetime.now() - window`: strictly older than the window. */
  predicate Expired(ch: Challenge, now: int, window: int)
  {
    ch.createdAt < now - window
  }

  /** The first code row with this code and purpose. */
  function FindChallenge(codes: seq<Challenge>, code: string, purpose: string): (r: Option<Challenge>)
    ensures r.None? <==> forall c :: c in codes ==> c.code != code || c.callFrom != Some(purpose)
    ensures r.Some? ==> r.value in codes && r.value.code == code && r.value.callFrom == Some(purpose)
  {
    if |codes| == 0 then None
    else if codes[0].code == code && codes[0].callFrom == Some(purpose) then Some(codes[0])
    else FindChallenge(codes[1..], code, purpose)
  }

  /** `session.delete(challenge)`. */
  function DeleteChallenge(codes: seq<Challenge>, ch: Challenge): (r: seq<Challenge>)
    ensures forall c :: c in r <==> c in codes && c != ch
  {
    Filter(codes, c => c != ch)
  }

  /** The code column is unique. */
  ghost predicate UniqueCodes(codes: seq<Challenge>)
  {
    forall i, j :: 0 <= i < |codes| && 0 <= j < |codes| && codes[i].code == codes[j].code ==> i == j
  }

  /** Every user with id `id` with `isActive` set, the rest unchanged. */
  function ActivateUser(users: seq<User>, id: string): (r: seq<User>)
    ensures |r| == |users|
    ensures forall i :: 0 <= i < |users| ==>
      r[i] == if users[i].id == id then users[i].(isActive := true) else users[i]
  {
    if |users| == 0 then [] else
      [if users[0].id == id then users[0].(isActive := true) else users[0]] + ActivateUser(users[1..], id)
  }

  /** The page `activate_user` renders. */
  datatype ActivationPage = InvalidLink | ExpiredLink | UserMissing | Activated(alreadyActivated: bool)

  datatype Activation = Activation(page: ActivationPage, codes: seq<Challenge>, users: seq<User>)

  /** `activate_user(code)`: an unknown code changes nothing; a code older
      than five minutes is deleted; a code whose user is gone is kept; for an
      active user the code is deleted and `already_activated` is reported;
      otherwise the user becomes active and the code is deleted. */
  function Activate(codes: seq<Challenge>, users: seq<User>, code: string, now: int): (r: Activation)
    ensures var ch := FindChallenge(codes, code, "register");
      && (ch.None? ==> r == Activation(InvalidLink, codes, users))
      && (ch.Some? && Expired(ch.value, now, ShortWindow) ==>
            r == Activation(ExpiredLink, DeleteChallenge(codes, ch.value), users))
      && (ch.Some? && !Expired(ch.value, now, ShortWindow) && FindUser(users, ch.value.userId).None? ==>
            r == Activation(UserMissing, codes, users))
      && (ch.Some? && !Expired(ch.value, now, ShortWindow) && FindUser(users, ch.value.userId).Some? ==>
            r.page.Activated?)
    ensures r.page.Activated? ==>
      var ch := FindChallenge(codes, code, "register").value;
      && FindChallenge(codes, code, "register").Some? && !Expired(ch, now, ShortWindow)
      && r.codes == DeleteChallenge(codes, ch)
      && (r.page.alreadyActivated <==> FindUser(users, ch.userId).value.isActive)
      && r.users == (if r.page.alreadyActivated then users else ActivateUser(users, ch.userId))
  {
    match FindChallenge(codes, code, "register")
    case None => Activation(InvalidLink, codes, users)
    case Some(ch) =>
      if Expired(ch, now, ShortWindow) then Activation(ExpiredLink, DeleteChallenge(codes, ch), users)
      else
        match FindUser(users, ch.userId)
        case None => Activation(UserMissing, codes, users)
        case Some(user) =>
          if user.isActive then Activation(Activated(true), DeleteChallenge(codes, ch), users)
          else Activation(Activated(false), DeleteChallenge(codes, ch), ActivateUser(users, ch.userId))
  }

  /** An activation link works once: once the code has been used, or
      found expired, the same link is invalid. */
  lemma ActivationSingleUse(codes: seq<Challenge>, users: seq<User>, code: string, now: int, later: int)
    requires UniqueCodes(codes)
    requires Activate(codes, users, code, now).page.Activated? || Activate(codes, users, code, now).page == ExpiredLink
    ensures var r := Activate(codes, users, code, now);
      Activate(r.codes, r.users, code, later).page == InvalidLink
  {
    var ch := FindChallenge(codes, code, "register").value;
    var r := Activate(codes, users, code, now);
    forall c | c in r.codes ensures c.code != code || c.callFrom != Some("register") {
    }
  }

  /** A code exactly five minutes old still activates. */
  lemma ActivationWindowInclusive(codes: seq<Challenge>, users: seq<User>, code: string, now: int)
    requires FindChallenge(codes, code, "register").Some?
    requires FindChallenge(codes, code, "register").value.createdAt == now - ShortWindow
    ensures Activate(codes, users, code, now).page != ExpiredLink
  {
  }

  /** The page `reset_password_page` renders. */
  datatype ResetPage = ResetInvalidLink | ResetExpiredLink | ResetUserMissing | ResetForm(username: string, email: string)

  /** `reset_password_page(code)`: the five-minute window; an expired code
      is deleted. */
  function ShowResetPage(codes: seq<Challenge>, users: seq<User>, code: string, now: int): (r: (ResetPage, seq<Challenge>))
    ensures var ch := FindChallenge(codes, code, "reset_password");
      && (ch.None? ==> r == (ResetInvalidLink, codes))
      && (ch.Some? && Expired(ch.value, now, ShortWindow) ==> r == (ResetExpiredLink, DeleteChallenge(codes, ch.value)))
      && (ch.Some? && !Expired(ch.value, now, ShortWindow) ==> r.1 == codes)
      && (ch.Some? && !Expired(ch.value, now, ShortWindow) && FindUser(users, ch.value.userId).None? ==>
            r.0 == ResetUserMissing)
      && (ch.Some? && !Expired(ch.value, now, ShortWindow) && FindUser(users, ch.value.userId).Some? ==>
            r.0.ResetForm?)
    ensures r.0.ResetForm? ==>
      var ch := FindChallenge(codes, code, "reset_password").value;
      && FindChallenge(codes, code, "reset_password").Some?
      && FindUser(users, ch.userId).Some?
      && r.0 == ResetForm(FindUser(users, ch.userId).value.username, FindUser(users, ch.userId).value.email)
  {
    match FindChallenge(codes, code, "reset_password")
    case None => (ResetInvalidLink, codes)
    case Some(ch) =>
      if Expired(ch, now, ShortWindow) then (ResetExpiredLink, DeleteChallenge(codes, ch))
      else
        match FindUser(users, ch.userId)
        case None => (ResetUserMissing, codes)
        case Some(u) => (ResetForm(u.username, u.email), codes)
  }

  /** Why `reset_password_submit` refused, with the status it raises. */
  datatype SubmitFailure = BadPassword(e: PasswordError) | InvalidCode | ExpiredCode | NoSuchUser

  function SubmitStatus(f: SubmitFailure): int
  {
    if f == NoSuchUser then 404 else 400
  }

  datatype Submit = Submit(failure: Option<SubmitFailure>, codes: seq<Challenge>, users: seq<User>)

  /** Every user with id `id` gets the new hash. */
  function SetPassword(users: seq<User>, id: string, hash: string): (r: seq<User>)
    ensures |r| == |users|
    ensures forall i :: 0 <= i < |users| ==>
      r[i] == if users[i].id == id then users[i].(passwordHash := hash) else users[i]
  {
    if |users| == 0 then [] else
      [if users[0].id == id then users[0].(passwordHash := hash) else users[0]] + SetPassword(users[1..], id, hash)
  }

  /** `reset_password_submit(code)`: the password rules before anything
      else, then the code (400 when unknown), the 24-hour window (an expired
      code is deleted, 400), the user (404); on success the password hash
      is replaced and the code deleted. */
  function ResetSubmit(codes: seq<Challenge>, users: seq<User>, code: string, pw: string, confirm: string,
                       now: int, cls: CharClasses, hashPw: string -> string): (r: Submit)
    ensures ResetPasswordCheck(pw, confirm, cls).Some? ==>
      r == Submit(Some(BadPassword(ResetPasswordCheck(pw, confirm, cls).value)), codes, users)
    ensures r.failure.None? <==>
      && ResetPasswordCheck(pw, confirm, cls).None?
      && FindChallenge(codes, code, "reset_password").Some?
      && !Expired(FindChallenge(codes, code, "reset_password").value, now, LongWindow)
      && FindUser(users, FindChallenge(codes, code, "reset_password").value.userId).Some?
    ensures r.failure.None? ==>
      var ch := FindChallenge(codes, code, "reset_password").value;
      r.codes == DeleteChallenge(codes, ch) && r.users == SetPassword(users, ch.userId, hashPw(pw))
    ensures r.failure == Some(ExpiredCode) ==>
      FindChallenge(codes, code, "reset_password").Some? &&
      r.codes == DeleteChallenge(codes, FindChallenge(codes, code, "reset_password").value) && r.users == users
  {
    match ResetPasswordCheck(pw, confirm, cls)
    case Some(e) => Submit(Some(BadPassword(e)), codes, users)
    case None =>
      match FindChallenge(codes, code, "reset_password")
      case None => Submit(Some(InvalidCode), codes, users)
      case Some(ch) =>
        if Expired(ch, now, LongWindow) then Submit(Some(ExpiredCode), DeleteChallenge(codes, ch), users)
        else
          match FindUser(users, ch.userId)
          case None => Submit(Some(NoSuchUser), codes, users)
          case Some(_) => Submit(None, DeleteChallenge(codes, ch), SetPassword(users, ch.userId, hashPw(pw)))
  }

  /** The two reset steps disagree about expiry: a code between five
      minutes and a day old is accepted by the submission, yet the page
      reports it expired and deletes it, after which the submission finds
      no code. */
  lemma ResetWindowsDisagree(codes: seq<Challenge>, users: seq<User>, code: string, pw: string,
                             cls: CharClasses, hashPw: string -> string, now: int)
    requires UniqueCodes(codes)
    requires ResetPasswordCheck(pw, pw, cls).None?
    requires FindChallenge(codes, code, "reset_password").Some?
    requires var ch := FindChallenge(codes, code, "reset_password").value;
      now - LongWindow <= ch.createdAt < now - ShortWindow && FindUser(users, ch.userId).Some?
    ensures ResetSubmit(codes, users, code, pw, pw, now, cls, hashPw).failure.None?
    ensures var (page, codes') := ShowResetPage(codes, users, code, now);
      && page == ResetExpiredLink
      && ResetSubmit(codes', users, code, pw, pw, now, cls, hashPw).failure == Some(InvalidCode)
  {
    var ch := FindChallenge(codes, code, "reset_password").value;
    var codes' := DeleteChallenge(codes, ch);
    forall c | c in codes' ensures c.code != code || c.callFrom != Some("reset_password") {
    }
  }

  // update_user_basic_info

  /** The fields a `UserUpdate` body sets; `None` is a field left unset. */
  datatype UserUpdate = UserUpdate(
    username: Option<string>,
    email: Option<string>,
    realName: Option<string>,
    password: Option<string>)

  /** `user_db.sqlmodel_update(...)` with the fields that were set. A set
      password is hashed only when it is non-empty: an empty one is stored
      as it is. */
  function ApplyUpdate(u: User, upd: UserUpdate, hashPw: string -> string): (r: User)
    ensures r.id == u.id && r.isSuperuser == u.isSuperuser && r.isActive == u.isActive
    ensures r.username == (if upd.username.Some? then upd.username.value else u.username)
    ensures r.email == (if upd.email.Some? then upd.email.value else u.email)
    ensures r.realName == (if upd.realName.Some? then upd.realName else u.realName)
    ensures upd.password.None? ==> r.passwordHash == u.passwordHash
    ensures upd.password.Some? && upd.password.value != "" ==> r.passwordHash == hashPw(upd.password.value)
    ensures upd.password == Some("") ==> r.passwordHash == ""
  {
    var u1 := if upd.username.Some? then u.(username := upd.username.value) else u;
    var u2 := if upd.email.Some? then u1.(email := upd.email.value) else u1;
    var u3 := if upd.realName.Some? then u2.(realName := upd.realName) else u2;
    if upd.password.Some? then
      u3.(passwordHash := if upd.password.value != "" then hashPw(upd.password.value) else "")
    else u3
  }

  /** Every user with id `id` replaced by its update. */
  function ReplaceUser(users: seq<User>, id: string, upd: UserUpdate, hashPw: string -> string): (r: seq<User>)
    ensures |r| == |users|
    ensures forall i :: 0 <= i < |users| ==>
      r[i] == if users[i].id == id then ApplyUpdate(users[i], upd, hashPw) else users[i]
  {
    if |users| == 0 then [] else
      [if users[0].id == id then ApplyUpdate(users[0], upd, hashPw) else users[0]]
      + ReplaceUser(users[1..], id, upd, hashPw)
  }

  /** `update_user_basic_info`: the target defaults to the caller; another
      user's account needs a superuser (403); an unknown target is a 404; a
      non-empty new e-mail must pass `email_format_check` (400). */
  function UpdateUserBasicInfo(caller: User, userPk: Option<string>, users: seq<User>, upd: UserUpdate,
                               hashPw: string -> string): (r: Result<(User, seq<User>)>)
    ensures var target := if userPk.Some? then userPk.value else caller.id;
      && (target != caller.id && !caller.isSuperuser <==> r == Err(Http(403)))
      && (r == Err(Http(404)) <==> (target == caller.id || caller.isSuperuser) && FindUser(users, target).None?)
      && (r.Ok? ==>
            && FindUser(users, target).Some?
            && r.value.0 == ApplyUpdate(FindUser(users, target).value, upd, hashPw)
            && r.value.1 == ReplaceUser(users, target, upd, hashPw))
      && (r.Ok? && upd.email.Some? && upd.email.value != "" ==> EmailFormatCheck(upd.email.value))
      && (var permitted := target == caller.id || caller.isSuperuser;
          var badEmail := upd.email.Some? && upd.email.value != "" && !EmailFormatCheck(upd.email.value);
          permitted && FindUser(users, target).Some? && !badEmail ==> r.Ok?)
      && (r == Err(Http(400)) <==>
            (target == caller.id || caller.isSuperuser) && FindUser(users, target).Some?
            && upd.email.Some? && upd.email.value != "" && !EmailFormatCheck(upd.email.value))
  {
    var target := if userPk.Some? then userPk.value else caller.id;
    if caller.id != target && !caller.isSuperuser then Err(Http(403))
    else
      match FindUser(users, target)
      case None => Err(Http(404))
      case Some(u) =>
        if upd.email.Some? && upd.email.value != "" && !EmailFormatCheck(upd.email.value) then Err(Http(400))
        else Ok((ApplyUpdate(u, upd, hashPw), ReplaceUser(users, target, upd, hashPw)))
  }

  /** Only the target account changes; everyone else's row is untouched. */
  lemma UpdateTouchesOnlyTarget(caller: User, userPk: Option<string>, users: seq<User>, upd: UserUpdate,
                                hashPw: string -> string)
    requires UpdateUserBasicInfo(caller, userPk, users, upd, hashPw).Ok?
    ensures var users' := UpdateUserBasicInfo(caller, userPk, users, upd, hashPw).value.1;
      var target := if userPk.Some? then userPk.value else caller.id;
      && |users'| == |users|
      && (forall i :: 0 <= i < |users| && users[i].id != target ==> users'[i] == users[i])
      && (forall i :: 0 <= i < |users| && users[i].id == target ==> users'[i].id == target)
  {
  }

  // send_email_pending_endpoint

  /** The fields of an e-mail history row the route reads and writes. */
  datatype EmailHistory = EmailHistory(id: string, senderId: string, status: string, attachments: seq<string>)

  /** What the route answers. */
  datatype PendingOutcome =
    | HistoryNotFound            // 404
    | AlreadySent                // "already sent, nothing to do"
    | NotSender                  // 403
    | AttachmentMissing          // 404
    | Queued(history: EmailHistory)

  /** `send_email_pending_endpoint`: an e-mail already sent successfully is
      never queued again, whoever asks; otherwise only its sender or a
      superuser may queue it, every attachment must still exist, and the
      row's status becomes `sent`. */
  function SendPending(history: Option<EmailHistory>, caller: User, fileIds: set<string>): (r: PendingOutcome)
    ensures history.None? <==> r == HistoryNotFound
    ensures history.Some? && history.value.status == "success" ==> r == AlreadySent
    ensures r.Queued? <==>
      && history.Some? && history.value.status != "success"
      && (history.value.senderId == caller.id || caller.isSuperuser)
      && (forall a :: a in history.value.attachments ==> a in fileIds)
    ensures r.Queued? ==> r.history == history.value.(status := "sent")
  {
    if history.None? then HistoryNotFound
    else
      var h := history.value;
      if h.status == "success" then AlreadySent
      else if h.senderId != caller.id && !caller.isSuperuser then NotSender
      else if exists a :: a in h.attachments && a !in fileIds then AttachmentMissing
      else Queued(h.(status := "sent"))
  }

  /** Queuing is a one-way step towards `sent`: queuing the queued row
      again queues it again with the same result, and never moves a
      successful row. */
  lemma PendingGuardStable(h: EmailHistory, caller: User, fileIds: set<string>)
    requires SendPending(Some(h), caller, fileIds).Queued?
    ensures var h' := SendPending(Some(h), caller, fileIds).history;
      SendPending(Some(h'), caller, fileIds) == Queued(h')
    ensures SendPending(Some(h.(status := "success")), caller, fileIds) == AlreadySent
  {
  }
}
