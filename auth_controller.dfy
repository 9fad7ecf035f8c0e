/**
 * The auth controller over the live tables. Each handler reads and writes
 * the tables in the order controllers/authController.js issues its queries,
 * and is proved to end in the state and response that AuthSpec gives.
 */
module AuthHandlers {
  import opened Wrappers
  import opened Collaborators
  import opened AuthValidators
  import opened AuthDb
  import opened AuthSpec
  import Rows
  import Otp

  class AuthController {
    const services: Services
    var users: seq<User>
    var nextUserId: int
    var otpCache: seq<OtpRow>
    var resetTokens: seq<ResetRow>

    function State(): Db
      reads this
    {
      Db(users, nextUserId, otpCache, resetTokens)
    }

    ghost predicate Valid()
      reads this
    {
      WellFormed(State())
    }

    /** The controller over the tables as they are when the server starts. */
    constructor (services: Services, initial: Db)
      requires WellFormed(initial)
      ensures Valid() && State() == initial && this.services == services
    {
      this.services := services;
      users := initial.users;
      nextUserId := initial.nextUserId;
      otpCache := initial.otps;
      resetTokens := initial.resets;
    }

    method Signup(req: SignupRequest, now: nat, draw: nat, salt: string, otpStored: bool) returns (resp: Response)
      requires Valid() && draw < Otp.OTP_SPAN
      modifies this
      ensures Valid()
      ensures Outcome(State(), resp) == AuthSpec.Signup(old(State()), req, now, draw, salt, otpStored, services)
    {
      ghost var before := State();
      var errors := SignupErrors(req, services.isEmail);
      if errors != [] {
        return Reply(422, Invalid(errors));
      }
      if FindUser(users, req.email).Some? {
        return Reply(422, Error(EMAIL_TAKEN));
      }
      ghost var expected := AuthSpec.Signup(before, req, now, draw, salt, otpStored, services);
      var hashed := services.hash(req.password.value, salt);
      var id := nextUserId;
      var user := User(id, req.fullname, req.email.value, req.phone, hashed, None);
      users := users + [user];
      nextUserId := id + 1;
      var otp := Otp.GenerateOtp(draw);
      var expiry := now + OTP_LIFETIME_MS;
      if otpStored {
        otpCache := otpCache + [OtpRow(req.email.value, otp, expiry)];
      }
      var token := SessionToken(services, user, now);
      resp := Reply(201, Registered(PublicUser(id, req.fullname.value, req.email.value, req.phone), token, REGISTERED));
      assert users == expected.db.users && otpCache == expected.db.otps;
      assert State() == expected.db && resp == expected.resp;
    }

    method Login(req: LoginRequest, now: nat) returns (resp: Response)
      requires Valid()
      ensures resp == AuthSpec.Login(State(), req, now, services)
    {
      var errors := LoginErrors(req, services.isEmail);
      if errors != [] {
        return Reply(422, Invalid(errors));
      }
      var found := FindUser(users, req.email);
      if found.None? {
        return Reply(401, Error(BAD_CREDENTIALS));
      }
      var user := users[found.value];
      var isValid := services.compare(req.password.value, user.password);
      if !isValid {
        return Reply(401, Error(BAD_CREDENTIALS));
      }
      resp := Reply(200, SignedIn(user, SessionToken(services, user, now)));
    }

    method VerifyOtp(req: OtpRequest, now: nat) returns (resp: Response)
      requires Valid()
      modifies this
      ensures Valid()
      ensures Outcome(State(), resp) == AuthSpec.VerifyOtp(old(State()), req, now, services)
    {
      ghost var expected := AuthSpec.VerifyOtp(State(), req, now, services);
      var found := FindOtp(otpCache, req.email);
      if found.None? {
        return Reply(400, Error(BAD_OTP));
      }
      var row := otpCache[found.value];
      if now > row.expiresAt || req.otp != Some(row.otp) {
        otpCache := Rows.Delete(otpCache, OtpEmail, row.email);
        assert State() == expected.db;
        return Reply(400, Error(BAD_OTP));
      }
      var u := FindUser(users, req.email);
      if u.None? {
        return Reply(400, Error(INVALID_USER));
      }
      var user := users[u.value];
      users := users[u.value := user.(emailVerifiedAt := Some(now))];
      otpCache := Rows.Delete(otpCache, OtpEmail, row.email);
      resp := Reply(200, OtpVerified(OTP_VERIFIED, SessionToken(services, user, now), user));
      assert State() == expected.db && resp == expected.resp;
    }

    method ResendOtp(req: EmailRequest, now: nat, draw: nat) returns (resp: Response)
      requires Valid() && draw < Otp.OTP_SPAN
      modifies this
      ensures Valid()
      ensures Outcome(State(), resp) == AuthSpec.ResendOtp(old(State()), req, now, draw)
    {
      if FindUser(users, req.email).None? {
        return Reply(404, Error(USER_NOT_FOUND));
      }
      var otp := Otp.GenerateOtp(draw);
      var expiry := now + OTP_LIFETIME_MS;
      otpCache := Rows.Delete(otpCache, OtpEmail, req.email.value);
      otpCache := otpCache + [OtpRow(req.email.value, otp, expiry)];
      resp := Reply(201, Message(OTP_RESENT));
    }

    method ForgotPassword(req: EmailRequest, now: nat) returns (resp: Response)
      requires Valid()
      modifies this
      ensures Valid()
      ensures Outcome(State(), resp) == AuthSpec.ForgotPassword(old(State()), req, now, services)
    {
      if FindUser(users, req.email).None? {
        return Reply(404, Error(USER_NOT_FOUND));
      }
      var resetToken := services.sign(ResetClaims(req.email.value, now));
      resetTokens := Rows.Delete(resetTokens, ResetEmail, req.email.value);
      resetTokens := resetTokens + [ResetRow(req.email.value, resetToken, now)];
      resp := Reply(200, Message(RESET_SENT));
    }

    method UpdatePassword(req: PasswordUpdateRequest, now: nat, salt: string) returns (resp: Response)
      requires Valid()
      modifies this
      ensures Valid()
      ensures Outcome(State(), resp) == AuthSpec.UpdatePassword(old(State()), req, now, salt, services)
    {
      var found := FindReset(resetTokens, req.email);
      if found.None? {
        return Reply(400, Error(BAD_RESET));
      }
      var row := resetTokens[found.value];
      var age := now - row.createdAt;
      if age > RESET_MAX_AGE_MS {
        resetTokens := Rows.Delete(resetTokens, ResetEmail, row.email);
        return Reply(400, Error(RESET_EXPIRED));
      }
      if req.token.None? || services.verify(req.token.value, now).None? {
        return Reply(400, Error(RESET_INVALID));
      }
      if req.password.None? {
        return NoReply;
      }
      var hashed := services.hash(req.password.value, salt);
      var u := FindUser(users, req.email);
      if u.Some? {
        ReplaceUserKeepsWellFormed(State(), u.value, users[u.value].(password := hashed));
        users := users[u.value := users[u.value].(password := hashed)];
      }
      resetTokens := Rows.Delete(resetTokens, ResetEmail, row.email);
      resp := Reply(201, Message(PASSWORD_UPDATED));
    }

    /** The handler behind `authenticate`: `userId` is the `id` claim of `req.user`. */
    method UpdateProfile(userId: Option<int>, name: Option<string>, phone: Option<string>) returns (resp: Response)
      requires Valid()
      modifies this
      ensures Valid()
      ensures Outcome(State(), resp) == AuthSpec.UpdateProfile(old(State()), userId, name, phone)
    {
      if userId.None? || userId.value == 0 {
        return Reply(401, Error(UNAUTHORIZED));
      }
      var found := FindUserById(users, userId.value);
      if found.None? {
        return Reply(404, Error(USER_NOT_FOUND));
      }
      var u := users[found.value];
      users := users[found.value := u.(name := Coalesce(name, u.name), phone := Coalesce(phone, u.phone))];
      resp := Reply(200, Message(PROFILE_UPDATED));
    }

    method VerifyEmail(req: VerifyEmailRequest, now: nat) returns (resp: Response)
      requires Valid()
      modifies this
      ensures Valid()
      ensures Outcome(State(), resp) == AuthSpec.VerifyEmail(old(State()), req, now)
    {
      var found := FindUser(users, req.email);
      if found.None? {
        return Reply(404, Error(USER_NOT_FOUND));
      }
      users := users[found.value := users[found.value].(emailVerifiedAt := Some(now))];
      resp := Reply(200, Message(EMAIL_VERIFIED));
    }
  }
}
