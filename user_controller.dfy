/** Account rules: registration, e-mail activation, the login decision chain and the
    refresh-token exchange (`src/app/controllers/userController.js`). */
module UserController {
  import opened Common
  import opened Text
  import opened Seqs
  import opened Foreign
  import opened Collections

  const MinPasswordLength: nat := 8
  const MaxPasswordLength: nat := 30
  const MinNameLength: nat := 3
  const MaxNameLength: nat := 30

  /** The status `duplicateChecker` refuses a taken e-mail with (the helper is not part of this model). */
  const DuplicateStatus: nat := 409

  /** Front-end routes the activation link redirects to (the base URL is configuration). */
  const LoginPath: string := "/login"
  const ExpiredPath: string := "/expired-credentials"

  /** `maxAge` of the refresh cookie: seven days in milliseconds. */
  const RefreshCookieMaxAge: nat := 7 * 24 * 60 * 60 * 1000

  // ---------------------------------------------------------------- password and e-mail policy

  /** The password rules registration and login share, applied to the password with every
      whitespace character removed: 8 to 30 UTF-16 code units (JavaScript's `length`), at
      least one of `a`-`z`, at least one digit. The length rule is checked first. */
  function PasswordPolicy(password: string): (r: Option<Reason>)
    ensures r.None? <==>
      var p := StripSpaces(password);
      MinPasswordLength <= Utf16Length(p) <= MaxPasswordLength && HasLowerLetter(p) && HasDigit(p)
    ensures r == Some(PasswordLength) <==>
      !(MinPasswordLength <= Utf16Length(StripSpaces(password)) <= MaxPasswordLength)
    ensures r.Some? ==> r == Some(PasswordLength) || r == Some(PasswordCharset)
  {
    var p := StripSpaces(password);
    if Utf16Length(p) < MinPasswordLength || Utf16Length(p) > MaxPasswordLength then Some(PasswordLength)
    else if !HasLowerLetter(p) || !HasDigit(p) then Some(PasswordCharset)
    else None
  }

  /** Whitespace anywhere in a password is invisible to the policy. */
  lemma PolicyIgnoresWhitespace(a: string, b: string, c: char)
    requires IsSpace(c)
    ensures PasswordPolicy(a + [c] + b) == PasswordPolicy(a + b)
  {
    StripDropsSpace(a, b, c);
  }

  /** A password with no lower-case ASCII letter is refused however long it is ("PASSWORD1"
      is one); when its length is within bounds the refusal is the character rule's. */
  lemma UpperCaseOnlyPasswordRefused(password: string)
    requires forall i :: 0 <= i < |password| ==> !('a' <= password[i] <= 'z')
    ensures PasswordPolicy(password).Some?
    ensures MinPasswordLength <= Utf16Length(StripSpaces(password)) <= MaxPasswordLength ==>
      PasswordPolicy(password) == Some(PasswordCharset)
  {
    var p := StripSpaces(password);
    forall i | 0 <= i < |p| ensures !('a' <= p[i] <= 'z') {
      assert p[i] in password;
    }
  }

  /** A character above U+FFFF counts twice towards the length rule: a lower-case letter, a
      digit and three such characters (as in "a1" and three emoji) make five characters but
      eight code units, and the password is accepted. */
  lemma SurrogatePairsCountTwice(p: string)
    requires |p| == 5 && 'a' <= p[0] <= 'z' && IsDigit(p[1])
    requires forall i :: 2 <= i < 5 ==> p[i] as int > 0xFFFF
    ensures |p| < MinPasswordLength && PasswordPolicy(p) == None
  {
    FiveCharactersEightUnits(p);
    assert NoSpaces(p);
    assert StripSpaces(p) == p;
  }

  lemma FiveCharactersEightUnits(p: string)
    requires |p| == 5 && p[0] as int <= 0xFFFF && p[1] as int <= 0xFFFF
    requires forall i :: 2 <= i < 5 ==> p[i] as int > 0xFFFF
    ensures Utf16Length(p) == 8
  {
    assert p[4..][1..] == [] && p[3..][1..] == p[4..] && p[2..][1..] == p[3..];
    assert p[1..][1..] == p[2..];
    assert Utf16Length(p[4..]) == 2;
    assert Utf16Length(p[3..]) == 4;
    assert Utf16Length(p[2..]) == 6;
    assert Utf16Length(p[1..]) == 7;
  }

  /** `email.trim().replace(/\s+/g, "").toLowerCase()`: the login form of an e-mail. */
  function NormalizeLoginEmail(email: string): (r: string)
    ensures r == Lower(StripSpaces(email))
    ensures NoSpaces(r) && IsLowerAscii(r)
  {
    StripAfterTrim(email);
    var stripped := StripSpaces(email);
    LowerIsLower(stripped);
    LowerKeepsSpaceless(stripped);
    Lower(StripSpaces(Trim(email)))
  }

  // ---------------------------------------------------------------- registration

  /** A registration that passed every check: the validated name, the lower-cased e-mail
      and the whitespace-stripped password. */
  datatype Registrant = Registrant(name: string, email: string, password: string)

  /** The checks `handleCreateUser` runs before writing, in source order: required fields,
      the name length, the e-mail format (after lower-casing), the duplicate lookup, then
      the password policy. */
  function ValidateRegistration(
    users: seq<User>, name: Option<string>, email: Option<string>, password: Option<string>,
    isEmail: string -> bool): (r: Response<Registrant>)
    ensures !r.Redirect?
    ensures r == Fail(400, MissingField) <==> !Present(name) || !Present(email) || !Present(password)
    ensures r == Fail(400, InvalidName) <==>
      Present(name) && Present(email) && Present(password)
      && !(MinNameLength <= Utf16Length(name.value) <= MaxNameLength)
    ensures r == Fail(400, InvalidEmail) <==>
      Present(name) && Present(email) && Present(password)
      && MinNameLength <= Utf16Length(name.value) <= MaxNameLength
      && !isEmail(Lower(email.value))
    ensures r == Fail(DuplicateStatus, DuplicateEmail) <==>
      Present(name) && Present(email) && Present(password)
      && MinNameLength <= Utf16Length(name.value) <= MaxNameLength
      && isEmail(Lower(email.value))
      && FindFirst(users, UserWithEmail(Lower(email.value))).Some?
    ensures r.Ok? <==>
      Present(name) && Present(email) && Present(password)
      && MinNameLength <= Utf16Length(name.value) <= MaxNameLength
      && isEmail(Lower(email.value))
      && FindFirst(users, UserWithEmail(Lower(email.value))).None?
      && PasswordPolicy(password.value).None?
    ensures r.Ok? ==> r.value == Registrant(name.value, Lower(email.value), StripSpaces(password.value))
    ensures r.Fail? && r.reason in {PasswordLength, PasswordCharset} <==>
      Present(name) && Present(email) && Present(password)
      && MinNameLength <= Utf16Length(name.value) <= MaxNameLength
      && isEmail(Lower(email.value))
      && FindFirst(users, UserWithEmail(Lower(email.value))).None?
      && PasswordPolicy(password.value).Some?
    ensures r.Fail? && r.reason in {PasswordLength, PasswordCharset} ==>
      r.status == 400 && Some(r.reason) == PasswordPolicy(password.value)
  {
    if !Present(name) || !Present(email) || !Present(password) then Fail(400, MissingField)
    else match ValidateString(name.value, MinNameLength, MaxNameLength)
      case None => Fail(400, InvalidName)
      case Some(processedName) =>
        var processedEmail := Lower(email.value);
        if !isEmail(processedEmail) then Fail(400, InvalidEmail)
        else if FindFirst(users, UserWithEmail(processedEmail)).Some? then Fail(DuplicateStatus, DuplicateEmail)
        else match PasswordPolicy(password.value)
          case Some(reason) => Fail(400, reason)
          case None => Ok(Registrant(processedName, processedEmail, StripSpaces(password.value)))
  }

  /** A taken e-mail is refused before the password is looked at, whatever the password. */
  lemma DuplicateBeforePassword(
    users: seq<User>, name: string, email: string, password: string, isEmail: string -> bool)
    requires email != "" && password != ""
    requires MinNameLength <= Utf16Length(name) <= MaxNameLength && isEmail(Lower(email))
    requires exists i :: 0 <= i < |users| && users[i].email == Some(Lower(email))
    ensures ValidateRegistration(users, Some(name), Some(email), Some(password), isEmail)
      == Fail(DuplicateStatus, DuplicateEmail)
  {
    var i :| 0 <= i < |users| && users[i].email == Some(Lower(email));
    assert UserWithEmail(Lower(email))(users[i]);
  }

  /** `handleCreateUser`. The user is inserted before the verification e-mail is sent; a
      failed dispatch answers 500 but leaves the user stored. */
  method HandleCreateUser(
    db: Db, name: Option<string>, email: Option<string>, password: Option<string>,
    isEmail: string -> bool, code: string, now: int, acknowledged: bool, mailSent: bool)
    returns (r: Response<()>)
    requires IsHexCode(code, 16)
    modifies db
    ensures db.posts == old(db.posts) && db.comments == old(db.comments)
    ensures var v := ValidateRegistration(old(db.users), name, email, password, isEmail);
      v.Fail? ==> r == Fail(v.status, v.reason) && db.users == old(db.users)
    ensures ValidateRegistration(old(db.users), name, email, password, isEmail).Ok? && !acknowledged ==>
      r == Fail(500, WriteNotAcknowledged) && db.users == old(db.users)
    ensures ValidateRegistration(old(db.users), name, email, password, isEmail).Ok? && acknowledged ==>
      && r == (if mailSent then Ok(()) else Fail(500, MailFailed))
      && |db.users| == |old(db.users)| + 1
      && db.users[..|old(db.users)|] == old(db.users)
      && var u := db.users[|old(db.users)|];
      && u.user_id == NewUserId(|old(db.users)|, code)
      && u.name == Some(name.value)
      && u.email == Some(Lower(email.value))
      && u.password == Some(Hash(StripSpaces(password.value)))
      && u.avatar == Avatar(Some(""), Some(""))
      && u.googleId.None? && u.role == "user"
      && !u.banned_user && !u.deleted_user && !u.email_verified
      && u.createdAt == now
    ensures r.Ok? ==> |db.users| == |old(db.users)| + 1
    ensures NumberedUsers(old(db.users)) ==> NumberedUsers(db.users)
  {
    var v := ValidateRegistration(db.users, name, email, password, isEmail);
    if v.Fail? {
      return Fail(v.status, v.reason);
    }
    var reg := v.value;
    var count := |db.users|;
    var newUser := User(
      NewUserId(count, code), None, Some(reg.name), Some(reg.email), Some(Hash(reg.password)),
      Avatar(Some(""), Some("")), "user", false, false, false, now);
    if !acknowledged {
      return Fail(500, WriteNotAcknowledged);
    }
    if NumberedUsers(db.users) {
      AppendKeepsNumbering(db.users, newUser, code);
    }
    db.users := db.users + [newUser];
    if !mailSent {
      return Fail(500, MailFailed);
    }
    r := Ok(());
  }

  // ---------------------------------------------------------------- activation

  /** `handleActivateUserAccount`: only `email_verified` of the user named by the token
      changes, and an already verified user is left untouched. */
  method HandleActivateUserAccount(db: Db, token: Option<string>, verify: string -> Verdict)
    returns (r: Response<()>)
    modifies db
    ensures db.posts == old(db.posts) && db.comments == old(db.comments)
    ensures !Present(token) ==> r == Fail(404, CredentialMissing) && db.users == old(db.users)
    ensures Present(token) && verify(token.value) == Expired ==>
      r == Redirect(ExpiredPath) && db.users == old(db.users)
    ensures Present(token) && verify(token.value) == Invalid ==>
      r == Fail(500, TokenRejected) && db.users == old(db.users)
    ensures Present(token) && verify(token.value) == Verified(Falsy) ==>
      r == Fail(404, FalsyPayload) && db.users == old(db.users)
    ensures Present(token) && verify(token.value).Verified? && verify(token.value).payload.Object? ==>
      var f := FindFirst(old(db.users), UserWithId(verify(token.value).payload.claims.user_id));
      && (f.None? ==> r == Fail(404, UserNotFound) && db.users == old(db.users))
      && (f.Some? ==> r == Redirect(LoginPath))
      && (f.Some? && old(db.users)[f.value].email_verified ==> db.users == old(db.users))
      && (f.Some? ==> db.users == old(db.users)[f.value := old(db.users)[f.value].(email_verified := true)])
    ensures |db.users| == |old(db.users)|
    ensures forall i :: 0 <= i < |db.users| ==> db.users[i].user_id == old(db.users)[i].user_id
    ensures NumberedUsers(old(db.users)) ==> NumberedUsers(db.users)
  {
    if !Present(token) {
      return Fail(404, CredentialMissing);
    }
    match verify(token.value)
    case Expired =>
      r := Redirect(ExpiredPath);
    case Invalid =>
      r := Fail(500, TokenRejected);
    case Verified(Falsy) =>
      r := Fail(404, FalsyPayload);
    case Verified(Object(decoded)) =>
      match FindFirst(db.users, UserWithId(decoded.user_id))
      case None =>
        r := Fail(404, UserNotFound);
      case Some(k) =>
        if !db.users[k].email_verified {
          db.users := db.users[k := db.users[k].(email_verified := true)];
        }
        r := Redirect(LoginPath);
  }

  // ---------------------------------------------------------------- login

  /** The refresh cookie: `httpOnly`, `secure`, `sameSite: "none"`, seven days. */
  datatype Cookie = Cookie(
    name: string, value: Token, maxAge: nat, httpOnly: bool, secure: bool, sameSite: string)

  /** A successful login: the claims returned as `data`, the access token in the body and
      the refresh token in its cookie. */
  datatype Session = Session(data: Claims, accessToken: Token, refreshCookie: Cookie)

  /** Steps 1 to 3 of the login chain: both fields present, the normalised e-mail well
      formed, the password within policy. */
  predicate LoginFormOk(email: Option<string>, password: Option<string>, isEmail: string -> bool) {
    Present(email) && Present(password) && isEmail(NormalizeLoginEmail(email.value))
    && PasswordPolicy(password.value).None?
  }

  /** The account `findOne({ email })` returns for a login. */
  function LoginAccount(users: seq<User>, email: string): (r: Option<User>)
    ensures r.None? <==>
      forall i :: 0 <= i < |users| ==> users[i].email != Some(NormalizeLoginEmail(email))
    ensures r.Some? ==> r.value in users && r.value.email == Some(NormalizeLoginEmail(email))
  {
    match FindFirst(users, UserWithEmail(NormalizeLoginEmail(email)))
    case None => None
    case Some(k) => Some(users[k])
  }

  /** Steps 4 and 5: the account exists and the raw password matches its stored digest. */
  predicate CredentialsMatch(users: seq<User>, email: string, password: string) {
    var account := LoginAccount(users, email);
    account.Some? && account.value.password.Some? && Compare(password, account.value.password.value)
  }

  /** The session minted for an account: claims `{ user_id, role }`, a 10-minute access
      token and a 7-day refresh token. */
  function SessionFor(u: User): Session {
    var claims := LoginClaims(u.user_id, u.role);
    Session(
      claims,
      Token(claims, AccessSecret, "10m"),
      Cookie("refreshToken", Token(claims, RefreshSecret, "7d"), RefreshCookieMaxAge, true, true, "none"))
  }

  /** `handleLoginUser`. Eight checks run in a fixed order and the first that fails decides
      the answer. An unverified account triggers a fresh verification e-mail; `mailSent` is
      whether that dispatch succeeded. Each clause below names one outcome and exactly the
      inputs that lead to it. */
  function HandleLoginUser(
    users: seq<User>, email: Option<string>, password: Option<string>,
    isEmail: string -> bool, mailSent: bool): (r: Response<Session>)
    ensures !r.Redirect?
    ensures r == Fail(400, MissingField) <==> !Present(email) || !Present(password)
    ensures r == Fail(400, InvalidEmail) <==>
      Present(email) && Present(password) && !isEmail(NormalizeLoginEmail(email.value))
    ensures r.Fail? && r.reason in {PasswordLength, PasswordCharset} <==>
      Present(email) && Present(password) && isEmail(NormalizeLoginEmail(email.value))
      && PasswordPolicy(password.value).Some?
    ensures r.Fail? && r.reason in {PasswordLength, PasswordCharset} ==>
      r.status == 400 && Some(r.reason) == PasswordPolicy(password.value)
    ensures r == Fail(400, UnknownEmail) <==>
      LoginFormOk(email, password, isEmail) && LoginAccount(users, email.value).None?
    ensures r == Fail(500, NoPasswordHash) <==>
      LoginFormOk(email, password, isEmail) && LoginAccount(users, email.value).Some?
      && LoginAccount(users, email.value).value.password.None?
    ensures r == Fail(401, WrongPassword) <==>
      LoginFormOk(email, password, isEmail) && LoginAccount(users, email.value).Some?
      && LoginAccount(users, email.value).value.password.Some?
      && !Compare(password.value, LoginAccount(users, email.value).value.password.value)
    ensures r == Fail(401, UnverifiedAccount) <==>
      LoginFormOk(email, password, isEmail) && CredentialsMatch(users, email.value, password.value)
      && !LoginAccount(users, email.value).value.email_verified && mailSent
    ensures r == Fail(500, MailFailed) <==>
      LoginFormOk(email, password, isEmail) && CredentialsMatch(users, email.value, password.value)
      && !LoginAccount(users, email.value).value.email_verified && !mailSent
    ensures r == Fail(401, BannedAccount) <==>
      LoginFormOk(email, password, isEmail) && CredentialsMatch(users, email.value, password.value)
      && LoginAccount(users, email.value).value.email_verified
      && LoginAccount(users, email.value).value.banned_user
    ensures r == Fail(401, DeletedAccount) <==>
      LoginFormOk(email, password, isEmail) && CredentialsMatch(users, email.value, password.value)
      && LoginAccount(users, email.value).value.email_verified
      && !LoginAccount(users, email.value).value.banned_user
      && LoginAccount(users, email.value).value.deleted_user
    ensures r.Ok? <==>
      LoginFormOk(email, password, isEmail) && CredentialsMatch(users, email.value, password.value)
      && LoginAccount(users, email.value).value.email_verified
      && !LoginAccount(users, email.value).value.banned_user
      && !LoginAccount(users, email.value).value.deleted_user
    ensures r.Ok? ==> r == Ok(SessionFor(LoginAccount(users, email.value).value))
  {
    if !Present(email) || !Present(password) then Fail(400, MissingField)
    else
      var normalized := NormalizeLoginEmail(email.value);
      if !isEmail(normalized) then Fail(400, InvalidEmail)
      else match PasswordPolicy(password.value)
        case Some(reason) => Fail(400, reason)
        case None =>
          match LoginAccount(users, email.value)
          case None => Fail(400, UnknownEmail)
          case Some(u) =>
            if u.password.None? then Fail(500, NoPasswordHash)
            else if !Compare(password.value, u.password.value) then Fail(401, WrongPassword)
            else if !u.email_verified then
              (if mailSent then Fail(401, UnverifiedAccount) else Fail(500, MailFailed))
            else if u.banned_user then Fail(401, BannedAccount)
            else if u.deleted_user then Fail(401, DeletedAccount)
            else Ok(SessionFor(u))
  }

  /** The session carries exactly the account's `user_id` and `role`, under the access
      secret for 10 minutes and the refresh secret for 7 days, in an `httpOnly`, `secure`,
      cross-site cookie that lives 604800000 ms. */
  lemma SessionShape(u: User)
    ensures var s := SessionFor(u);
      && s.data == Claims(Some(u.user_id), Some(u.role), None)
      && s.accessToken == Token(s.data, AccessSecret, "10m")
      && s.refreshCookie.value == Token(s.data, RefreshSecret, "7d")
      && s.refreshCookie.maxAge == 604800000
      && s.refreshCookie.httpOnly && s.refreshCookie.secure && s.refreshCookie.sameSite == "none"
  {
  }

  /** Registration stores the digest of the whitespace-stripped password while login
      compares the raw one, so an account registered with a password containing whitespace
      can never pass the password check with that password. Stated for ASCII passwords of at
      most 72 characters, which bcrypt reads whole. */
  lemma {:induction false} WhitespacePasswordLocksOut(
    users: seq<User>, email: string, password: string, i: nat, isEmail: string -> bool, mailSent: bool)
    requires LoginFormOk(Some(email), Some(password), isEmail)
    requires LoginAccount(users, email).Some?
    requires LoginAccount(users, email).value.password == Some(Hash(StripSpaces(password)))
    requires i < |password| && IsSpace(password[i])
    requires IsAscii(password) && |password| <= BcryptKeyBytes
    ensures HandleLoginUser(users, Some(email), Some(password), isEmail, mailSent) == Fail(401, WrongPassword)
  {
    var stripped := StripSpaces(password);
    forall k | 0 <= k < |stripped| ensures stripped[k] as int < 0x80 {
      assert stripped[k] in password;
    }
    StripSpacesChanges(password, i);
    CompareShortAsciiExact(password, stripped);
  }

  /** Without whitespace, the stored digest accepts the password it was made from. */
  lemma {:induction false} SpacelessPasswordMatches(
    users: seq<User>, email: string, password: string)
    requires NoSpaces(password)
    requires LoginAccount(users, email).Some?
    requires LoginAccount(users, email).value.password == Some(Hash(StripSpaces(password)))
    ensures CredentialsMatch(users, email, password)
  {
  }

  /** The checks run in order: an unverified account is answered as unverified even when it
      is also banned and deleted. */
  lemma UnverifiedComesBeforeBanned(
    users: seq<User>, email: string, password: string, isEmail: string -> bool)
    requires LoginFormOk(Some(email), Some(password), isEmail)
    requires CredentialsMatch(users, email, password)
    requires !LoginAccount(users, email).value.email_verified
    requires LoginAccount(users, email).value.banned_user && LoginAccount(users, email).value.deleted_user
    ensures HandleLoginUser(users, Some(email), Some(password), isEmail, true) == Fail(401, UnverifiedAccount)
  {
  }

  // ---------------------------------------------------------------- refresh

  /** `handleRefreshToken`: a new 10-minute access token whose payload nests the decoded
      refresh claims under `user`; the refresh token itself is not rotated. Errors thrown by
      `jwt.verify` carry no status, so the central responder answers them with 500. */
  function HandleRefreshToken(cookie: Option<string>, verify: string -> Verdict): (r: Response<Token>)
    ensures !r.Redirect?
    ensures r == Fail(404, CredentialMissing) <==> !Present(cookie)
    ensures r == Fail(500, TokenRejected) <==>
      Present(cookie) && (verify(cookie.value) == Expired || verify(cookie.value) == Invalid)
    ensures r == Fail(401, FalsyPayload) <==> Present(cookie) && verify(cookie.value) == Verified(Falsy)
    ensures r.Ok? <==>
      Present(cookie) && verify(cookie.value).Verified? && verify(cookie.value).payload.Object?
    ensures r.Ok? ==>
      var decoded := verify(cookie.value).payload.claims;
      r.value.secret == AccessSecret && r.value.ttl == "10m"
      && r.value.payload.user == Some(decoded)
      && Requester(r.value.payload) == decoded
  {
    if !Present(cookie) then Fail(404, CredentialMissing)
    else match verify(cookie.value)
      case Expired => Fail(500, TokenRejected)
      case Invalid => Fail(500, TokenRejected)
      case Verified(Falsy) => Fail(401, FalsyPayload)
      case Verified(Object(decoded)) => Ok(Token(RefreshedClaims(decoded), AccessSecret, "10m"))
  }

  /** A login's refresh cookie, exchanged, yields an access token that the content handlers
      resolve to the same claims as the login's own access token. */
  lemma RefreshKeepsIdentity(
    users: seq<User>, email: string, password: string, isEmail: string -> bool,
    cookie: string, verify: string -> Verdict)
    requires HandleLoginUser(users, Some(email), Some(password), isEmail, true).Ok?
    requires cookie != ""
    requires verify(cookie) ==
      Verified(Object(HandleLoginUser(users, Some(email), Some(password), isEmail, true).value.refreshCookie.value.payload))
    ensures var s := HandleLoginUser(users, Some(email), Some(password), isEmail, true).value;
      && HandleRefreshToken(Some(cookie), verify).Ok?
      && Requester(HandleRefreshToken(Some(cookie), verify).value.payload) == Requester(s.accessToken.payload)
  {
  }
}
