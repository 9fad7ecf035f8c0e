/**
 * Each handler of controllers/authController.js as a transition on the
 * three tables: given the tables and the request, the tables afterwards and
 * the response. The database calls of one request are taken to run in the
 * order they are written, one after the other.
 */
module AuthSpec {
  import opened Wrappers
  import opened Collaborators
  import opened AuthValidators
  import opened AuthDb
  import Rows
  import Otp

  const OTP_LIFETIME_MS: nat := 10 * 60000          // OTP_EXPIRY_MINUTES
  const RESET_MAX_AGE_MS: nat := 60 * 60 * 1000

  const EMAIL_TAKEN := "Email already exists"
  const REGISTERED := "User registered successfully."
  const BAD_CREDENTIALS := "Invalid credentials"
  const BAD_OTP := "Invalid or expired OTP"
  const INVALID_USER := "Invalid user"
  const OTP_VERIFIED := "OTP verified successfully"
  const USER_NOT_FOUND := "User not found"
  const OTP_RESENT := "OTP Resent Successfully."
  const RESET_SENT := "Reset link sent to your email."
  const BAD_RESET := "Invalid or expired token"
  const RESET_EXPIRED := "Token expired"
  const RESET_INVALID := "Invalid token"
  const PASSWORD_UPDATED := "Password Updated Successfully."
  const UNAUTHORIZED := "Unauthorized"
  const PROFILE_UPDATED := "Profile updated successfully"
  const EMAIL_VERIFIED := "Email verified successfully."

  /** The user object signup answers with: `{ id: this.lastID, fullname, email, phone }`. */
  datatype PublicUser = PublicUser(id: int, fullname: string, email: string, phone: Option<string>)

  datatype Body =
    | Error(error: string)
    | Invalid(errors: seq<FieldError>)
    | Registered(user: PublicUser, token: string, message: string)
    | SignedIn(row: User, token: string)
    | OtpVerified(message: string, token: string, row: User)
    | Message(message: string)

  /** A JSON reply, or none at all when the handler's callback throws. */
  datatype Response = Reply(status: int, body: Body) | NoReply

  datatype Outcome = Outcome(db: Db, resp: Response)

  /** `generateToken(user)`. */
  function SessionToken(s: Services, u: User, now: nat): (token: string)
    ensures SoundJwt(s) ==> ' ' !in token && s.verify(token, now) == Some(SessionClaims(u.id, u.email, now))
  {
    s.sign(SessionClaims(u.id, u.email, now))
  }

  /** POST /signup. `otpStored` is false when the OTP insert fails; that failure is only logged. */
  function Signup(db: Db, req: SignupRequest, now: nat, draw: nat, salt: string, otpStored: bool, s: Services): (o: Outcome)
    requires draw < Otp.OTP_SPAN
    ensures WellFormed(db) ==> WellFormed(o.db)
  {
    var errors := SignupErrors(req, s.isEmail);
    if errors != [] then Outcome(db, Reply(422, Invalid(errors)))
    else if FindUser(db.users, req.email).Some? then Outcome(db, Reply(422, Error(EMAIL_TAKEN)))
    else
      var email := req.email.value;
      var id := db.nextUserId;
      var user := User(id, req.fullname, email, req.phone, s.hash(req.password.value, salt), None);
      var otp := OtpRow(email, Otp.GenerateOtp(draw), now + OTP_LIFETIME_MS);
      Outcome(
        db.(users := db.users + [user], nextUserId := id + 1,
            otps := if otpStored then db.otps + [otp] else db.otps),
        Reply(201, Registered(PublicUser(id, req.fullname.value, email, req.phone), SessionToken(s, user, now), REGISTERED)))
  }

  /** POST /login. It only reads the tables. */
  function Login(db: Db, req: LoginRequest, now: nat, s: Services): (r: Response)
    ensures r.Reply? && r.status in {200, 401, 422}
    ensures r.status == 422 <==> !LoginValid(req, s.isEmail)
    ensures r.status == 200 ==>
              && r.body.SignedIn? && r.body.row in db.users && req.email == Some(r.body.row.email)
              && req.password.Some? && s.compare(req.password.value, r.body.row.password)
  {
    var errors := LoginErrors(req, s.isEmail);
    if errors != [] then Reply(422, Invalid(errors))
    else match FindUser(db.users, req.email)
      case None => Reply(401, Error(BAD_CREDENTIALS))
      case Some(i) =>
        if !s.compare(req.password.value, db.users[i].password) then Reply(401, Error(BAD_CREDENTIALS))
        else Reply(200, SignedIn(db.users[i], SessionToken(s, db.users[i], now)))
  }

  /** POST /verify-otp. A wrong or late code deletes every OTP row of the email. */
  function VerifyOtp(db: Db, req: OtpRequest, now: nat, s: Services): (o: Outcome)
    ensures WellFormed(db) ==> WellFormed(o.db)
  {
    match FindOtp(db.otps, req.email)
    case None => Outcome(db, Reply(400, Error(BAD_OTP)))
    case Some(k) =>
      var row := db.otps[k];
      if now > row.expiresAt || req.otp != Some(row.otp) then
        Outcome(db.(otps := Rows.Delete(db.otps, OtpEmail, row.email)), Reply(400, Error(BAD_OTP)))
      else match FindUser(db.users, req.email)
        case None => Outcome(db, Reply(400, Error(INVALID_USER)))
        case Some(i) =>
          var u := db.users[i];
          ReplaceUserKeepsWellFormed(db, i, u.(emailVerifiedAt := Some(now)));
          Outcome(
            db.(users := db.users[i := u.(emailVerifiedAt := Some(now))],
                otps := Rows.Delete(db.otps, OtpEmail, row.email)),
            Reply(200, OtpVerified(OTP_VERIFIED, SessionToken(s, u, now), u)))
  }

  /** POST /resend-otp: replace the email's OTP rows by one fresh row. */
  function ResendOtp(db: Db, req: EmailRequest, now: nat, draw: nat): (o: Outcome)
    requires draw < Otp.OTP_SPAN
    ensures o.db.users == db.users && o.db.nextUserId == db.nextUserId && o.db.resets == db.resets
  {
    match FindUser(db.users, req.email)
    case None => Outcome(db, Reply(404, Error(USER_NOT_FOUND)))
    case Some(_) =>
      var email := req.email.value;
      var otp := OtpRow(email, Otp.GenerateOtp(draw), now + OTP_LIFETIME_MS);
      Outcome(db.(otps := Rows.Delete(db.otps, OtpEmail, email) + [otp]), Reply(201, Message(OTP_RESENT)))
  }

  /** POST /forgot-password: replace the email's reset rows by one fresh signed token. */
  function ForgotPassword(db: Db, req: EmailRequest, now: nat, s: Services): (o: Outcome)
    ensures o.db.users == db.users && o.db.nextUserId == db.nextUserId && o.db.otps == db.otps
  {
    match FindUser(db.users, req.email)
    case None => Outcome(db, Reply(404, Error(USER_NOT_FOUND)))
    case Some(_) =>
      var email := req.email.value;
      var row := ResetRow(email, s.sign(ResetClaims(email, now)), now);
      Outcome(db.(resets := Rows.Delete(db.resets, ResetEmail, email) + [row]), Reply(200, Message(RESET_SENT)))
  }

  /**
   * POST /password/update. The stored row is checked for age only; the
   * submitted token is checked by signature only. A missing password makes
   * bcrypt.hash throw inside the callback, and nothing is answered.
   */
  function UpdatePassword(db: Db, req: PasswordUpdateRequest, now: nat, salt: string, s: Services): (o: Outcome)
    ensures WellFormed(db) ==> WellFormed(o.db)
  {
    match FindReset(db.resets, req.email)
    case None => Outcome(db, Reply(400, Error(BAD_RESET)))
    case Some(k) =>
      var row := db.resets[k];
      if now - row.createdAt > RESET_MAX_AGE_MS then
        Outcome(db.(resets := Rows.Delete(db.resets, ResetEmail, row.email)), Reply(400, Error(RESET_EXPIRED)))
      else if req.token.None? || s.verify(req.token.value, now).None? then
        Outcome(db, Reply(400, Error(RESET_INVALID)))
      else if req.password.None? then
        Outcome(db, NoReply)
      else
        var hashed := s.hash(req.password.value, salt);
        var users := (match FindUser(db.users, req.email)
          case None => db.users
          case Some(i) =>
            ReplaceUserKeepsWellFormed(db, i, db.users[i].(password := hashed));
            db.users[i := db.users[i].(password := hashed)]);
        Outcome(db.(users := users, resets := Rows.Delete(db.resets, ResetEmail, row.email)),
                Reply(201, Message(PASSWORD_UPDATED)))
  }

  /** POST /updateProfile for the caller whose token carried `userId`: COALESCE on name and phone. */
  function UpdateProfile(db: Db, userId: Option<int>, name: Option<string>, phone: Option<string>): (o: Outcome)
    ensures WellFormed(db) ==> WellFormed(o.db)
  {
    if userId.None? || userId.value == 0 then Outcome(db, Reply(401, Error(UNAUTHORIZED)))
    else match FindUserById(db.users, userId.value)
      case None => Outcome(db, Reply(404, Error(USER_NOT_FOUND)))
      case Some(i) =>
        var u := db.users[i];
        var u' := u.(name := Coalesce(name, u.name), phone := Coalesce(phone, u.phone));
        ReplaceUserKeepsWellFormed(db, i, u');
        Outcome(db.(users := db.users[i := u']), Reply(200, Message(PROFILE_UPDATED)))
  }

  /** POST /verify-email: marks any existing user verified; the token field is never read. */
  function VerifyEmail(db: Db, req: VerifyEmailRequest, now: nat): (o: Outcome)
    ensures WellFormed(db) ==> WellFormed(o.db)
  {
    match FindUser(db.users, req.email)
    case None => Outcome(db, Reply(404, Error(USER_NOT_FOUND)))
    case Some(i) =>
      var u' := db.users[i].(emailVerifiedAt := Some(now));
      ReplaceUserKeepsWellFormed(db, i, u');
      Outcome(db.(users := db.users[i := u']), Reply(200, Message(EMAIL_VERIFIED)))
  }
}
