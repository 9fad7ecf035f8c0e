/**
 * What the auth handlers promise, proved of the transitions in AuthSpec:
 * each handler's outcomes case by case, the table invariant every handler
 * keeps, and the flows that chain several requests.
 */
module AuthProperties {
  import opened Wrappers
  import opened Collaborators
  import opened AuthValidators
  import opened AuthDb
  import opened AuthSpec
  import Rows
  import Otp

  // ---------------------------------------------------------------- signup

  /** A body the /signup chains reject is answered 422 with the errors, and no table changes. */
  lemma SignupRejectsInvalid(db: Db, req: SignupRequest, now: nat, draw: nat, salt: string, otpStored: bool, s: Services)
    requires draw < Otp.OTP_SPAN && !SignupValid(req, s.isEmail)
    ensures var o := Signup(db, req, now, draw, salt, otpStored, s);
            o.db == db && o.resp == Reply(422, Invalid(SignupErrors(req, s.isEmail)))
            && SignupErrors(req, s.isEmail) != []
  {
  }

  /** Signing up with an email that is already registered is answered 422 and changes no table. */
  lemma SignupRejectsDuplicate(db: Db, req: SignupRequest, now: nat, draw: nat, salt: string, otpStored: bool, s: Services)
    requires draw < Otp.OTP_SPAN && SignupValid(req, s.isEmail) && HasUser(db.users, req.email.value)
    ensures Signup(db, req, now, draw, salt, otpStored, s) == Outcome(db, Reply(422, Error(EMAIL_TAKEN)))
  {
  }

  /**
   * A successful signup adds exactly one user, under a fresh id, with the
   * hashed password and no verification time; it adds one OTP row expiring
   * ten minutes later (unless that insert failed); it answers 201 with the
   * id and a session token.
   */
  lemma SignupCreatesAccount(db: Db, req: SignupRequest, now: nat, draw: nat, salt: string, otpStored: bool, s: Services)
    requires draw < Otp.OTP_SPAN && SignupValid(req, s.isEmail) && !HasUser(db.users, req.email.value)
    ensures var o := Signup(db, req, now, draw, salt, otpStored, s);
            var e := req.email.value;
            var id := db.nextUserId;
            && |o.db.users| == |db.users| + 1 && o.db.users[..|db.users|] == db.users
            && o.db.users[|db.users|] == User(id, req.fullname, e, req.phone, s.hash(req.password.value, salt), None)
            && (WellFormed(db) ==> forall i :: 0 <= i < |db.users| ==> db.users[i].id < id)
            && o.db.nextUserId == id + 1
            && o.db.otps == db.otps + (if otpStored then [OtpRow(e, Otp.GenerateOtp(draw), now + 10 * 60 * 1000)] else [])
            && o.db.resets == db.resets
            && o.resp == Reply(201, Registered(PublicUser(id, req.fullname.value, e, req.phone),
                                               s.sign(SessionClaims(id, e, now)), REGISTERED))
  {
    var o := Signup(db, req, now, draw, salt, otpStored, s);
    assert o.db.users[..|db.users|] == db.users;
  }

  /** Whether the OTP row was stored does not change the response. */
  lemma SignupResponseIgnoresOtpInsert(db: Db, req: SignupRequest, now: nat, draw: nat, salt: string, s: Services)
    requires draw < Otp.OTP_SPAN
    ensures Signup(db, req, now, draw, salt, true, s).resp == Signup(db, req, now, draw, salt, false, s).resp
    ensures Signup(db, req, now, draw, salt, true, s).db.users == Signup(db, req, now, draw, salt, false, s).db.users
  {
  }

  // ----------------------------------------------------------------- login

  /**
   * Login answers the same 401 "Invalid credentials" for an unknown email
   * and for a wrong password, and 200 with the row and a session token
   * otherwise. (Login returns no tables: it changes none.)
   */
  lemma LoginOutcomes(db: Db, req: LoginRequest, now: nat, s: Services)
    requires LoginValid(req, s.isEmail)
    ensures var f := FindUser(db.users, req.email);
            var r := Login(db, req, now, s);
            && (r == Reply(401, Error(BAD_CREDENTIALS))
                <==> !HasUser(db.users, req.email.value) || !s.compare(req.password.value, db.users[f.value].password))
            && (r != Reply(401, Error(BAD_CREDENTIALS))
                ==> r == Reply(200, SignedIn(db.users[f.value], s.sign(SessionClaims(db.users[f.value].id, req.email.value, now)))))
  {
  }

  /** The failure answer carries nothing that tells the two failure causes apart. */
  lemma LoginFailuresIndistinguishable(db1: Db, db2: Db, req1: LoginRequest, req2: LoginRequest, now: nat, s: Services)
    requires LoginValid(req1, s.isEmail) && LoginValid(req2, s.isEmail)
    requires !HasUser(db1.users, req1.email.value)
    requires FindUser(db2.users, req2.email).Some?
    requires !s.compare(req2.password.value, db2.users[FindUser(db2.users, req2.email).value].password)
    ensures Login(db1, req1, now, s) == Login(db2, req2, now, s)
  {
  }

  // ------------------------------------------------------------ verify-otp

  /** The OTP row verify-otp looks at: the first one stored for the email. */
  function FirstOtp(db: Db, e: string): OtpRow
    requires Rows.Select(db.otps, OtpEmail, e) != []
  {
    Rows.Select(db.otps, OtpEmail, e)[0]
  }

  /** Without an OTP row for the email, verify-otp answers 400 and changes nothing. */
  lemma VerifyOtpWithoutRow(db: Db, req: OtpRequest, now: nat, s: Services)
    requires req.email.None? || Rows.Select(db.otps, OtpEmail, req.email.value) == []
    ensures VerifyOtp(db, req, now, s) == Outcome(db, Reply(400, Error(BAD_OTP)))
  {
  }

  /**
   * A late or wrong code is answered 400 and deletes every OTP row of the
   * email, so a wrong guess uses the code up; other emails' rows and the
   * other tables stay as they were.
   */
  lemma VerifyOtpFailureConsumes(db: Db, req: OtpRequest, now: nat, s: Services)
    requires req.email.Some? && Rows.Select(db.otps, OtpEmail, req.email.value) != []
    requires var row := FirstOtp(db, req.email.value); now > row.expiresAt || req.otp != Some(row.otp)
    ensures var o := VerifyOtp(db, req, now, s);
            var e := req.email.value;
            && o.resp == Reply(400, Error(BAD_OTP))
            && Rows.Select(o.db.otps, OtpEmail, e) == []
            && (forall e' :: e' != e ==> Rows.Select(o.db.otps, OtpEmail, e') == Rows.Select(db.otps, OtpEmail, e'))
            && o.db.users == db.users && o.db.resets == db.resets
  {
    var e := req.email.value;
    Rows.FirstIsSelectHead(db.otps, OtpEmail, e);
    Rows.SelectDeleteSame(db.otps, OtpEmail, e);
    forall e' | e' != e
      ensures Rows.Select(Rows.Delete(db.otps, OtpEmail, e), OtpEmail, e') == Rows.Select(db.otps, OtpEmail, e')
    {
      Rows.SelectDeleteOther(db.otps, OtpEmail, e, e');
    }
  }

  /** A good code for an email that has no user is answered "Invalid user" and the OTP row stays. */
  lemma VerifyOtpWithoutUser(db: Db, req: OtpRequest, now: nat, s: Services)
    requires req.email.Some? && Rows.Select(db.otps, OtpEmail, req.email.value) != []
    requires var row := FirstOtp(db, req.email.value); now <= row.expiresAt && req.otp == Some(row.otp)
    requires !HasUser(db.users, req.email.value)
    ensures VerifyOtp(db, req, now, s) == Outcome(db, Reply(400, Error(INVALID_USER)))
  {
    Rows.FirstIsSelectHead(db.otps, OtpEmail, req.email.value);
  }

  /**
   * A good code in time marks the user verified now, deletes the email's
   * OTP rows and answers 200 with a session token and the row as read
   * before the update.
   */
  lemma VerifyOtpSucceeds(db: Db, req: OtpRequest, now: nat, s: Services)
    requires req.email.Some? && Rows.Select(db.otps, OtpEmail, req.email.value) != []
    requires var row := FirstOtp(db, req.email.value); now <= row.expiresAt && req.otp == Some(row.otp)
    requires HasUser(db.users, req.email.value)
    ensures var o := VerifyOtp(db, req, now, s);
            var i := FindUser(db.users, req.email).value;
            var u := db.users[i];
            && o.db.users == db.users[i := u.(emailVerifiedAt := Some(now))]
            && Rows.Select(o.db.otps, OtpEmail, req.email.value) == []
            && o.db.resets == db.resets
            && o.resp == Reply(200, OtpVerified(OTP_VERIFIED, s.sign(SessionClaims(u.id, u.email, now)), u))
    ensures var o := VerifyOtp(db, req, now, s);
            forall e' :: e' != req.email.value ==> Rows.Select(o.db.otps, OtpEmail, e') == Rows.Select(db.otps, OtpEmail, e')
  {
    var e := req.email.value;
    Rows.FirstIsSelectHead(db.otps, OtpEmail, e);
    Rows.SelectDeleteSame(db.otps, OtpEmail, e);
    var otps := VerifyOtp(db, req, now, s).db.otps;
    assert otps == Rows.Delete(db.otps, OtpEmail, e);
    forall e' | e' != e ensures Rows.Select(otps, OtpEmail, e') == Rows.Select(db.otps, OtpEmail, e') {
      Rows.SelectDeleteOther(db.otps, OtpEmail, e, e');
    }
  }

  /**
   * Every verify-otp attempt except the "Invalid user" one leaves no OTP for
   * the email: the next attempt, with any code at any time, is answered 400
   * and changes nothing. In particular a code verifies at most once.
   */
  lemma VerifyOtpLeavesNoCode(db: Db, req: OtpRequest, now: nat, code: Option<string>, later: nat, s: Services)
    requires VerifyOtp(db, req, now, s).resp != Reply(400, Error(INVALID_USER))
    ensures var o := VerifyOtp(db, req, now, s);
            VerifyOtp(o.db, OtpRequest(req.email, code), later, s) == Outcome(o.db, Reply(400, Error(BAD_OTP)))
  {
    var o := VerifyOtp(db, req, now, s);
    if req.email.Some? {
      var e := req.email.value;
      Rows.FirstIsSelectHead(db.otps, OtpEmail, e);
      if Rows.Select(db.otps, OtpEmail, e) != [] {
        var row := db.otps[FindOtp(db.otps, req.email).value];
        if o.db.otps != db.otps {
          assert o.db.otps == Rows.Delete(db.otps, OtpEmail, e);
          Rows.SelectDeleteSame(db.otps, OtpEmail, e);
        }
      }
    }
  }

  // ----------------------------------------------- resend-otp, forgot-password

  /** resend-otp for an email without a user is answered 404 and changes nothing. */
  lemma ResendOtpUnknownUser(db: Db, req: EmailRequest, now: nat, draw: nat)
    requires draw < Otp.OTP_SPAN && (req.email.None? || !HasUser(db.users, req.email.value))
    ensures ResendOtp(db, req, now, draw) == Outcome(db, Reply(404, Error(USER_NOT_FOUND)))
  {
  }

  /**
   * resend-otp for a registered email leaves exactly one OTP row for it, a
   * fresh six-digit code expiring ten minutes later; the rows of every other
   * email are untouched.
   */
  lemma ResendOtpReplaces(db: Db, req: EmailRequest, now: nat, draw: nat)
    requires draw < Otp.OTP_SPAN && req.email.Some? && HasUser(db.users, req.email.value)
    ensures var o := ResendOtp(db, req, now, draw);
            var e := req.email.value;
            && Rows.Select(o.db.otps, OtpEmail, e) == [OtpRow(e, Otp.GenerateOtp(draw), now + 10 * 60 * 1000)]
            && |Otp.GenerateOtp(draw)| == 6
            && (forall e' :: e' != e ==> Rows.Select(o.db.otps, OtpEmail, e') == Rows.Select(db.otps, OtpEmail, e'))
            && o.resp == Reply(201, Message(OTP_RESENT))
  {
    var e := req.email.value;
    var row := OtpRow(e, Otp.GenerateOtp(draw), now + OTP_LIFETIME_MS);
    var otps := ResendOtp(db, req, now, draw).db.otps;
    ResendOtpStores(db, req, now, draw);
    Otp.GenerateOtpWellFormed(draw);
    Rows.ReplaceByKey(db.otps, OtpEmail, row);
    assert Rows.Select(otps, OtpEmail, e) == [row];
    forall e' | e' != e ensures Rows.Select(otps, OtpEmail, e') == Rows.Select(db.otps, OtpEmail, e') {
    }
  }

  /** The tables resend-otp writes for a registered email. */
  lemma ResendOtpStores(db: Db, req: EmailRequest, now: nat, draw: nat)
    requires draw < Otp.OTP_SPAN && req.email.Some? && HasUser(db.users, req.email.value)
    ensures var e := req.email.value;
      ResendOtp(db, req, now, draw).db.otps == Rows.Delete(db.otps, OtpEmail, e) + [OtpRow(e, Otp.GenerateOtp(draw), now + 10 * 60 * 1000)]
    ensures ResendOtp(db, req, now, draw).resp == Reply(201, Message(OTP_RESENT))
  {
  }

  /** forgot-password for an email without a user is answered 404 and changes nothing. */
  lemma ForgotPasswordUnknownUser(db: Db, req: EmailRequest, now: nat, s: Services)
    requires req.email.None? || !HasUser(db.users, req.email.value)
    ensures ForgotPassword(db, req, now, s) == Outcome(db, Reply(404, Error(USER_NOT_FOUND)))
  {
  }

  /**
   * forgot-password for a registered email leaves exactly one reset row for
   * it, holding a token signed for that email and created now; the rows of
   * every other email are untouched.
   */
  lemma ForgotPasswordReplaces(db: Db, req: EmailRequest, now: nat, s: Services)
    requires req.email.Some? && HasUser(db.users, req.email.value)
    ensures var o := ForgotPassword(db, req, now, s);
            var e := req.email.value;
            && Rows.Select(o.db.resets, ResetEmail, e) == [ResetRow(e, s.sign(ResetClaims(e, now)), now)]
            && (forall e' :: e' != e ==> Rows.Select(o.db.resets, ResetEmail, e') == Rows.Select(db.resets, ResetEmail, e'))
            && o.resp == Reply(200, Message(RESET_SENT))
  {
    var e := req.email.value;
    var row := ResetRow(e, s.sign(ResetClaims(e, now)), now);
    var resets := ForgotPassword(db, req, now, s).db.resets;
    ForgotPasswordStores(db, req, now, s);
    Rows.ReplaceByKey(db.resets, ResetEmail, row);
    assert Rows.Select(resets, ResetEmail, e) == [row];
    forall e' | e' != e ensures Rows.Select(resets, ResetEmail, e') == Rows.Select(db.resets, ResetEmail, e') {
    }
  }

  /** The tables forgot-password writes for a registered email. */
  lemma ForgotPasswordStores(db: Db, req: EmailRequest, now: nat, s: Services)
    requires req.email.Some? && HasUser(db.users, req.email.value)
    ensures var e := req.email.value;
      ForgotPassword(db, req, now, s).db.resets == Rows.Delete(db.resets, ResetEmail, e) + [ResetRow(e, s.sign(ResetClaims(e, now)), now)]
    ensures ForgotPassword(db, req, now, s).resp == Reply(200, Message(RESET_SENT))
  {
  }

  // -------------------------------------------------------- password/update

  /** The reset row password/update looks at: the first one stored for the email. */
  function FirstReset(db: Db, e: string): ResetRow
    requires Rows.Select(db.resets, ResetEmail, e) != []
  {
    Rows.Select(db.resets, ResetEmail, e)[0]
  }

  /** Without a reset row for the email, password/update answers 400 and changes nothing. */
  lemma UpdatePasswordWithoutRow(db: Db, req: PasswordUpdateRequest, now: nat, salt: string, s: Services)
    requires req.email.None? || Rows.Select(db.resets, ResetEmail, req.email.value) == []
    ensures UpdatePassword(db, req, now, salt, s) == Outcome(db, Reply(400, Error(BAD_RESET)))
  {
  }

  /** A reset row older than an hour is deleted (with every other row of the email) and answered 400. */
  lemma UpdatePasswordExpired(db: Db, req: PasswordUpdateRequest, now: nat, salt: string, s: Services)
    requires req.email.Some? && Rows.Select(db.resets, ResetEmail, req.email.value) != []
    requires now - FirstReset(db, req.email.value).createdAt > 3600000
    ensures var o := UpdatePassword(db, req, now, salt, s);
            && o.resp == Reply(400, Error(RESET_EXPIRED))
            && Rows.Select(o.db.resets, ResetEmail, req.email.value) == []
            && o.db.users == db.users && o.db.otps == db.otps
    ensures var o := UpdatePassword(db, req, now, salt, s);
            forall e' :: e' != req.email.value ==> Rows.Select(o.db.resets, ResetEmail, e') == Rows.Select(db.resets, ResetEmail, e')
  {
    var e := req.email.value;
    Rows.FirstIsSelectHead(db.resets, ResetEmail, e);
    Rows.SelectDeleteSame(db.resets, ResetEmail, e);
    var resets := UpdatePassword(db, req, now, salt, s).db.resets;
    assert resets == Rows.Delete(db.resets, ResetEmail, e);
    forall e' | e' != e ensures Rows.Select(resets, ResetEmail, e') == Rows.Select(db.resets, ResetEmail, e') {
      Rows.SelectDeleteOther(db.resets, ResetEmail, e, e');
    }
  }

  /** A fresh row with a token that is missing or fails verification: 400, and the row is kept. */
  lemma UpdatePasswordBadToken(db: Db, req: PasswordUpdateRequest, now: nat, salt: string, s: Services)
    requires req.email.Some? && Rows.Select(db.resets, ResetEmail, req.email.value) != []
    requires now - FirstReset(db, req.email.value).createdAt <= 3600000
    requires req.token.None? || s.verify(req.token.value, now).None?
    ensures UpdatePassword(db, req, now, salt, s) == Outcome(db, Reply(400, Error(RESET_INVALID)))
  {
    Rows.FirstIsSelectHead(db.resets, ResetEmail, req.email.value);
  }

  /** A fresh row and a token that verifies, but no password: bcrypt throws and nothing is answered. */
  lemma UpdatePasswordWithoutPassword(db: Db, req: PasswordUpdateRequest, now: nat, salt: string, s: Services)
    requires req.email.Some? && Rows.Select(db.resets, ResetEmail, req.email.value) != []
    requires now - FirstReset(db, req.email.value).createdAt <= 3600000
    requires req.token.Some? && s.verify(req.token.value, now).Some? && req.password.None?
    ensures UpdatePassword(db, req, now, salt, s) == Outcome(db, NoReply)
  {
    Rows.FirstIsSelectHead(db.resets, ResetEmail, req.email.value);
  }

  /**
   * A fresh row, a token that verifies and a password: the user's hash is
   * replaced by the hash of the new password (when the user still exists),
   * nothing else of any user changes, the email's reset rows are deleted,
   * and the answer is 201.
   */
  lemma UpdatePasswordSucceeds(db: Db, req: PasswordUpdateRequest, now: nat, salt: string, s: Services)
    requires req.email.Some? && Rows.Select(db.resets, ResetEmail, req.email.value) != []
    requires now - FirstReset(db, req.email.value).createdAt <= 3600000
    requires req.token.Some? && s.verify(req.token.value, now).Some? && req.password.Some?
    ensures var o := UpdatePassword(db, req, now, salt, s);
            var f := FindUser(db.users, req.email);
            && o.db.users == (if f.None? then db.users
                              else db.users[f.value := db.users[f.value].(password := s.hash(req.password.value, salt))])
            && Rows.Select(o.db.resets, ResetEmail, req.email.value) == []
            && o.db.otps == db.otps && o.db.nextUserId == db.nextUserId
            && o.resp == Reply(201, Message(PASSWORD_UPDATED))
    ensures var o := UpdatePassword(db, req, now, salt, s);
            forall e' :: e' != req.email.value ==> Rows.Select(o.db.resets, ResetEmail, e') == Rows.Select(db.resets, ResetEmail, e')
  {
    var e := req.email.value;
    Rows.FirstIsSelectHead(db.resets, ResetEmail, e);
    Rows.SelectDeleteSame(db.resets, ResetEmail, e);
    var resets := UpdatePassword(db, req, now, salt, s).db.resets;
    assert resets == Rows.Delete(db.resets, ResetEmail, e);
    forall e' | e' != e ensures Rows.Select(resets, ResetEmail, e') == Rows.Select(db.resets, ResetEmail, e') {
      Rows.SelectDeleteOther(db.resets, ResetEmail, e, e');
    }
  }

  /**
   * The stored token is never compared with the submitted one: two
   * databases whose reset rows differ only in their tokens get the same
   * answer and the same users table.
   */
  lemma UpdatePasswordIgnoresStoredToken(db: Db, db': Db, req: PasswordUpdateRequest, now: nat, salt: string, s: Services)
    requires db'.users == db.users && |db'.resets| == |db.resets|
    requires forall j :: 0 <= j < |db.resets| ==>
               db'.resets[j].email == db.resets[j].email && db'.resets[j].createdAt == db.resets[j].createdAt
    ensures UpdatePassword(db', req, now, salt, s).resp == UpdatePassword(db, req, now, salt, s).resp
    ensures UpdatePassword(db', req, now, salt, s).db.users == UpdatePassword(db, req, now, salt, s).db.users
  {
    if req.email.None? {
      UpdatePasswordWithoutRow(db, req, now, salt, s);
      UpdatePasswordWithoutRow(db', req, now, salt, s);
    } else {
      var e := req.email.value;
      Rows.FirstSameKeys(db.resets, ResetEmail, db'.resets, ResetEmail, e);
      Rows.FirstIsSelectHead(db.resets, ResetEmail, e);
      Rows.FirstIsSelectHead(db'.resets, ResetEmail, e);
      if Rows.Select(db.resets, ResetEmail, e) == [] {
        UpdatePasswordWithoutRow(db, req, now, salt, s);
        UpdatePasswordWithoutRow(db', req, now, salt, s);
      } else {
        var k := Rows.First(db.resets, ResetEmail, e).value;
        assert FirstReset(db', e).createdAt == FirstReset(db, e).createdAt by {
          assert FirstReset(db', e) == db'.resets[k];
          assert FirstReset(db, e) == db.resets[k];
        }
        if now - FirstReset(db, e).createdAt > 3600000 {
          UpdatePasswordExpired(db, req, now, salt, s);
          UpdatePasswordExpired(db', req, now, salt, s);
        } else if req.token.None? || s.verify(req.token.value, now).None? {
          UpdatePasswordBadToken(db, req, now, salt, s);
          UpdatePasswordBadToken(db', req, now, salt, s);
        } else if req.password.None? {
          UpdatePasswordWithoutPassword(db, req, now, salt, s);
          UpdatePasswordWithoutPassword(db', req, now, salt, s);
        } else {
          UpdatePasswordSucceeds(db, req, now, salt, s);
          UpdatePasswordSucceeds(db', req, now, salt, s);
        }
      }
    }
  }

  // ------------------------------------------------ updateProfile, verify-email

  /** updateProfile without a usable id in the token is 401; for an id with no row, 404; no table changes. */
  lemma UpdateProfileRejects(db: Db, userId: Option<int>, name: Option<string>, phone: Option<string>)
    requires userId.None? || userId.value == 0 || forall i :: 0 <= i < |db.users| ==> db.users[i].id != userId.value
    ensures var o := UpdateProfile(db, userId, name, phone);
            && o.db == db
            && o.resp == (if userId.None? || userId.value == 0 then Reply(401, Error(UNAUTHORIZED))
                          else Reply(404, Error(USER_NOT_FOUND)))
  {
  }

  /**
   * updateProfile of the caller's row changes only its name and phone, each
   * only when supplied; its id, email, password and verification time stay,
   * and so does every other row and table.
   */
  lemma UpdateProfileChangesOnlyNameAndPhone(db: Db, i: nat, name: Option<string>, phone: Option<string>)
    requires WellFormed(db) && i < |db.users|
    ensures var u := db.users[i];
            var o := UpdateProfile(db, Some(u.id), name, phone);
            && |o.db.users| == |db.users|
            && (forall j :: 0 <= j < |db.users| && j != i ==> o.db.users[j] == db.users[j])
            && o.db.users[i].id == u.id && o.db.users[i].email == u.email
            && o.db.users[i].password == u.password && o.db.users[i].emailVerifiedAt == u.emailVerifiedAt
            && o.db.users[i].name == (if name.Some? then name else u.name)
            && o.db.users[i].phone == (if phone.Some? then phone else u.phone)
            && o.db.otps == db.otps && o.db.resets == db.resets && o.db.nextUserId == db.nextUserId
            && o.resp == Reply(200, Message(PROFILE_UPDATED))
  {
    assert FindUserById(db.users, db.users[i].id) == Some(i);
  }

  /** verify-email marks any registered email verified, whatever the token; an unknown one is 404. */
  lemma VerifyEmailMarksUser(db: Db, req: VerifyEmailRequest, now: nat)
    ensures var o := VerifyEmail(db, req, now);
            && (req.email.None? || !HasUser(db.users, req.email.value) ==> o == Outcome(db, Reply(404, Error(USER_NOT_FOUND))))
            && (req.email.Some? && HasUser(db.users, req.email.value) ==>
                  var i := FindUser(db.users, req.email).value;
                  && o.db.users == db.users[i := db.users[i].(emailVerifiedAt := Some(now))]
                  && o.db.otps == db.otps && o.db.resets == db.resets
                  && o.resp == Reply(200, Message(EMAIL_VERIFIED)))
    ensures forall t :: VerifyEmail(db, req.(token := t), now) == VerifyEmail(db, req, now)
  {
  }

  // ------------------------------------------------ the invariant every handler keeps

  /** Under Consistent, an email without a user has no OTP and no reset row. */
  lemma NoRowsWithoutUser(db: Db, e: string)
    requires Consistent(db) && !HasUser(db.users, e)
    ensures Rows.Select(db.otps, OtpEmail, e) == [] && Rows.Select(db.resets, ResetEmail, e) == []
  {
    forall j | 0 <= j < |db.otps| ensures db.otps[j].email != e {
      assert HasUser(db.users, db.otps[j].email);
    }
    forall j | 0 <= j < |db.resets| ensures db.resets[j].email != e {
      assert HasUser(db.users, db.resets[j].email);
    }
    Rows.FirstIsSelectHead(db.otps, OtpEmail, e);
    Rows.FirstIsSelectHead(db.resets, ResetEmail, e);
  }

  /** The OTP and reset rows of `db2` are rows of `db`, and every email with a user in `db` still has one. */
  predicate RowsFrom(db: Db, db2: Db) {
    && (forall i :: 0 <= i < |db2.otps| ==> db2.otps[i] in db.otps)
    && (forall i :: 0 <= i < |db2.resets| ==> db2.resets[i] in db.resets)
  }

  /** Consistency carries over when rows only disappear and no user's email changes. */
  lemma KeepsConsistent(db: Db, db2: Db)
    requires Consistent(db) && WellFormed(db2)
    requires Rows.AtMostOnePerKey(db2.otps, OtpEmail) && Rows.AtMostOnePerKey(db2.resets, ResetEmail)
    requires RowsFrom(db, db2)
    requires forall e :: HasUser(db.users, e) ==> HasUser(db2.users, e)
    ensures Consistent(db2)
  {
    forall i | 0 <= i < |db2.otps| ensures HasUser(db2.users, db2.otps[i].email) {
      var j :| 0 <= j < |db.otps| && db.otps[j] == db2.otps[i];
      assert HasUser(db.users, db.otps[j].email);
    }
    forall i | 0 <= i < |db2.resets| ensures HasUser(db2.users, db2.resets[i].email) {
      var j :| 0 <= j < |db.resets| && db.resets[j] == db2.resets[i];
      assert HasUser(db.users, db.resets[j].email);
    }
  }

  /** Deleting an email's OTP rows, and editing users without losing an email, keeps Consistent. */
  lemma DeleteOtpsKeepsConsistent(db: Db, e: string, users: seq<User>)
    requires Consistent(db) && WellFormed(db.(users := users))
    requires forall x :: HasUser(db.users, x) ==> HasUser(users, x)
    ensures Consistent(db.(users := users, otps := Rows.Delete(db.otps, OtpEmail, e)))
  {
    Rows.DeleteKeepsAtMostOne(db.otps, OtpEmail, e);
    KeepsConsistent(db, db.(users := users, otps := Rows.Delete(db.otps, OtpEmail, e)));
  }

  /** Deleting an email's reset rows, and editing users without losing an email, keeps Consistent. */
  lemma DeleteResetsKeepsConsistent(db: Db, e: string, users: seq<User>)
    requires Consistent(db) && WellFormed(db.(users := users))
    requires forall x :: HasUser(db.users, x) ==> HasUser(users, x)
    ensures Consistent(db.(users := users, resets := Rows.Delete(db.resets, ResetEmail, e)))
  {
    Rows.DeleteKeepsAtMostOne(db.resets, ResetEmail, e);
    KeepsConsistent(db, db.(users := users, resets := Rows.Delete(db.resets, ResetEmail, e)));
  }

  /** Adding an OTP row for a registered email that has none keeps Consistent. */
  lemma AppendOtpKeepsConsistent(db: Db, row: OtpRow)
    requires Consistent(db) && HasUser(db.users, row.email) && Rows.Select(db.otps, OtpEmail, row.email) == []
    ensures Consistent(db.(otps := db.otps + [row]))
  {
    Rows.AppendKeepsAtMostOne(db.otps, OtpEmail, row);
    forall i | 0 <= i < |db.otps| + 1 ensures HasUser(db.users, (db.otps + [row])[i].email) {
      if i < |db.otps| {
        assert (db.otps + [row])[i] == db.otps[i];
      }
    }
  }

  /** Replacing a registered email's OTP rows by one row keeps Consistent. */
  lemma ReplaceOtpKeepsConsistent(db: Db, row: OtpRow)
    requires Consistent(db) && HasUser(db.users, row.email)
    ensures Consistent(db.(otps := Rows.Delete(db.otps, OtpEmail, row.email) + [row]))
  {
    var kept := db.(otps := Rows.Delete(db.otps, OtpEmail, row.email));
    DeleteOtpsKeepsConsistent(db, row.email, db.users);
    assert kept == db.(users := db.users, otps := Rows.Delete(db.otps, OtpEmail, row.email));
    Rows.SelectDeleteSame(db.otps, OtpEmail, row.email);
    AppendOtpKeepsConsistent(kept, row);
  }

  /** Adding a reset row for a registered email that has none keeps Consistent. */
  lemma AppendResetKeepsConsistent(db: Db, row: ResetRow)
    requires Consistent(db) && HasUser(db.users, row.email) && Rows.Select(db.resets, ResetEmail, row.email) == []
    ensures Consistent(db.(resets := db.resets + [row]))
  {
    Rows.AppendKeepsAtMostOne(db.resets, ResetEmail, row);
    forall i | 0 <= i < |db.resets| + 1 ensures HasUser(db.users, (db.resets + [row])[i].email) {
      if i < |db.resets| {
        assert (db.resets + [row])[i] == db.resets[i];
      }
    }
  }

  /** Replacing a registered email's reset rows by one row keeps Consistent. */
  lemma ReplaceResetKeepsConsistent(db: Db, row: ResetRow)
    requires Consistent(db) && HasUser(db.users, row.email)
    ensures Consistent(db.(resets := Rows.Delete(db.resets, ResetEmail, row.email) + [row]))
  {
    var kept := db.(resets := Rows.Delete(db.resets, ResetEmail, row.email));
    DeleteResetsKeepsConsistent(db, row.email, db.users);
    assert kept == db.(users := db.users, resets := Rows.Delete(db.resets, ResetEmail, row.email));
    Rows.SelectDeleteSame(db.resets, ResetEmail, row.email);
    AppendResetKeepsConsistent(kept, row);
  }

  /** Appending a user keeps every existing email registered. */
  lemma AppendUserKeepsEmails(users: seq<User>, u: User)
    ensures forall e :: HasUser(users, e) ==> HasUser(users + [u], e)
    ensures HasUser(users + [u], u.email)
  {
    assert (users + [u])[|users|] == u;
    forall e | HasUser(users, e) ensures HasUser(users + [u], e) {
      var j :| 0 <= j < |users| && users[j].email == e;
      assert (users + [u])[j] == users[j];
    }
  }

  /**
   * Signup keeps Consistent: the new email had no OTP row (it had no user),
   * so after the insert it has exactly one, and its user now exists.
   */
  lemma SignupKeepsConsistent(db: Db, req: SignupRequest, now: nat, draw: nat, salt: string, otpStored: bool, s: Services)
    requires draw < Otp.OTP_SPAN && Consistent(db)
    ensures Consistent(Signup(db, req, now, draw, salt, otpStored, s).db)
  {
    var o := Signup(db, req, now, draw, salt, otpStored, s);
    if SignupValid(req, s.isEmail) && !HasUser(db.users, req.email.value) {
      var e := req.email.value;
      var u := User(db.nextUserId, req.fullname, e, req.phone, s.hash(req.password.value, salt), None);
      var row := OtpRow(e, Otp.GenerateOtp(draw), now + OTP_LIFETIME_MS);
      SignupStores(db, req, now, draw, salt, otpStored, s);
      NoRowsWithoutUser(db, e);
      AppendUserKeepsEmails(db.users, u);
      if otpStored {
        Rows.AppendKeepsAtMostOne(db.otps, OtpEmail, row);
        assert (db.otps + [row])[|db.otps|] == row;
        forall i | 0 <= i < |o.db.otps| ensures HasUser(o.db.users, o.db.otps[i].email) {
          if i < |db.otps| {
            assert o.db.otps[i] == db.otps[i];
          }
        }
      }
      KeepsConsistentOnSignup(db, o.db);
    }
  }

  /** The tables a successful signup writes. */
  lemma SignupStores(db: Db, req: SignupRequest, now: nat, draw: nat, salt: string, otpStored: bool, s: Services)
    requires draw < Otp.OTP_SPAN && SignupValid(req, s.isEmail) && !HasUser(db.users, req.email.value)
    ensures var o := Signup(db, req, now, draw, salt, otpStored, s);
            var e := req.email.value;
            && o.db.users == db.users + [User(db.nextUserId, req.fullname, e, req.phone, s.hash(req.password.value, salt), None)]
            && o.db.otps == db.otps + (if otpStored then [OtpRow(e, Otp.GenerateOtp(draw), now + OTP_LIFETIME_MS)] else [])
            && o.db.resets == db.resets
  {
  }

  /** Consistency after signup, once the new OTP rows are known to belong to users. */
  lemma KeepsConsistentOnSignup(db: Db, db2: Db)
    requires Consistent(db) && WellFormed(db2) && db2.resets == db.resets
    requires Rows.AtMostOnePerKey(db2.otps, OtpEmail)
    requires forall i :: 0 <= i < |db2.otps| ==> HasUser(db2.users, db2.otps[i].email)
    requires forall e :: HasUser(db.users, e) ==> HasUser(db2.users, e)
    ensures Consistent(db2)
  {
    forall i | 0 <= i < |db2.resets| ensures HasUser(db2.users, db2.resets[i].email) {
      assert HasUser(db.users, db.resets[i].email);
    }
  }

  /** verify-otp keeps Consistent: it only deletes OTP rows and marks a user verified. */
  lemma VerifyOtpKeepsConsistent(db: Db, req: OtpRequest, now: nat, s: Services)
    requires Consistent(db)
    ensures Consistent(VerifyOtp(db, req, now, s).db)
  {
    var o := VerifyOtp(db, req, now, s);
    match FindOtp(db.otps, req.email)
    case None =>
    case Some(k) =>
      var row := db.otps[k];
      if now > row.expiresAt || req.otp != Some(row.otp) {
        assert o.db == db.(users := db.users, otps := Rows.Delete(db.otps, OtpEmail, row.email));
        DeleteOtpsKeepsConsistent(db, row.email, db.users);
      } else {
        match FindUser(db.users, req.email)
        case None =>
        case Some(i) =>
          var u := db.users[i].(emailVerifiedAt := Some(now));
          ReplaceUserKeepsWellFormed(db, i, u);
          assert o.db == db.(users := db.users[i := u], otps := Rows.Delete(db.otps, OtpEmail, row.email));
          DeleteOtpsKeepsConsistent(db, row.email, db.users[i := u]);
      }
  }

  /** resend-otp keeps Consistent: the email's rows are replaced by one, for a registered email. */
  lemma ResendOtpKeepsConsistent(db: Db, req: EmailRequest, now: nat, draw: nat)
    requires draw < Otp.OTP_SPAN && Consistent(db)
    ensures Consistent(ResendOtp(db, req, now, draw).db)
  {
    if req.email.Some? && HasUser(db.users, req.email.value) {
      var row := OtpRow(req.email.value, Otp.GenerateOtp(draw), now + OTP_LIFETIME_MS);
      ResendOtpStores(db, req, now, draw);
      ReplaceOtpKeepsConsistent(db, row);
      assert ResendOtp(db, req, now, draw).db == db.(otps := Rows.Delete(db.otps, OtpEmail, row.email) + [row]);
    }
  }

  /** forgot-password keeps Consistent: the email's rows are replaced by one, for a registered email. */
  lemma ForgotPasswordKeepsConsistent(db: Db, req: EmailRequest, now: nat, s: Services)
    requires Consistent(db)
    ensures Consistent(ForgotPassword(db, req, now, s).db)
  {
    if req.email.Some? && HasUser(db.users, req.email.value) {
      var e := req.email.value;
      var row := ResetRow(e, s.sign(ResetClaims(e, now)), now);
      ForgotPasswordStores(db, req, now, s);
      ReplaceResetKeepsConsistent(db, row);
      assert ForgotPassword(db, req, now, s).db == db.(resets := Rows.Delete(db.resets, ResetEmail, e) + [row]);
    }
  }

  /** password/update keeps Consistent: it only deletes reset rows and rehashes a password. */
  lemma UpdatePasswordKeepsConsistent(db: Db, req: PasswordUpdateRequest, now: nat, salt: string, s: Services)
    requires Consistent(db)
    ensures Consistent(UpdatePassword(db, req, now, salt, s).db)
  {
    var o := UpdatePassword(db, req, now, salt, s);
    match FindReset(db.resets, req.email)
    case None =>
    case Some(k) =>
      var e := db.resets[k].email;
      if now - db.resets[k].createdAt > RESET_MAX_AGE_MS {
        assert o.db == db.(users := db.users, resets := Rows.Delete(db.resets, ResetEmail, e));
        DeleteResetsKeepsConsistent(db, e, db.users);
      } else if req.token.Some? && s.verify(req.token.value, now).Some? && req.password.Some? {
        var i := FindUser(db.users, req.email).value;
        var u := db.users[i].(password := s.hash(req.password.value, salt));
        ReplaceUserKeepsWellFormed(db, i, u);
        assert o.db == db.(users := db.users[i := u], resets := Rows.Delete(db.resets, ResetEmail, e));
        DeleteResetsKeepsConsistent(db, e, db.users[i := u]);
      }
  }

  /** updateProfile keeps Consistent: it touches one user's name and phone. */
  lemma UpdateProfileKeepsConsistent(db: Db, userId: Option<int>, name: Option<string>, phone: Option<string>)
    requires Consistent(db)
    ensures Consistent(UpdateProfile(db, userId, name, phone).db)
  {
    var o := UpdateProfile(db, userId, name, phone);
    if o.db != db {
      var i := FindUserById(db.users, userId.value).value;
      var u := db.users[i];
      ReplaceUserKeepsWellFormed(db, i, u.(name := Coalesce(name, u.name), phone := Coalesce(phone, u.phone)));
      KeepsConsistent(db, o.db);
    }
  }

  /** verify-email keeps Consistent: it touches one user's verification time. */
  lemma VerifyEmailKeepsConsistent(db: Db, req: VerifyEmailRequest, now: nat)
    requires Consistent(db)
    ensures Consistent(VerifyEmail(db, req, now).db)
  {
    var o := VerifyEmail(db, req, now);
    if o.db != db {
      var i := FindUser(db.users, req.email).value;
      ReplaceUserKeepsWellFormed(db, i, db.users[i].(emailVerifiedAt := Some(now)));
      KeepsConsistent(db, o.db);
    }
  }

  // ------------------------------------------------------------- whole flows

  /** A user appended under a new email is the one FindUser finds for it. */
  lemma AppendedUserFound(users: seq<User>, u: User)
    requires !HasUser(users, u.email)
    ensures FindUser(users + [u], Some(u.email)) == Some(|users|)
  {
    AppendUserKeepsEmails(users, u);
    forall j | 0 <= j < |users| ensures (users + [u])[j].email != u.email {
      assert (users + [u])[j] == users[j];
    }
  }

  /** The row signup adds is the one FindUser finds for its email afterwards. */
  lemma SignupUserFound(db: Db, req: SignupRequest, now: nat, draw: nat, salt: string, otpStored: bool, s: Services)
    requires draw < Otp.OTP_SPAN && SignupValid(req, s.isEmail) && !HasUser(db.users, req.email.value)
    ensures FindUser(Signup(db, req, now, draw, salt, otpStored, s).db.users, req.email) == Some(|db.users|)
  {
    var u := User(db.nextUserId, req.fullname, req.email.value, req.phone, s.hash(req.password.value, salt), None);
    SignupStores(db, req, now, draw, salt, otpStored, s);
    AppendedUserFound(db.users, u);
  }

  /**
   * Signing up and then submitting the mailed code within ten minutes
   * verifies the new account: the answer is 200 and the new row is marked
   * verified at the second request's time.
   */
  lemma SignupThenVerifyOtp(db: Db, req: SignupRequest, now: nat, draw: nat, salt: string, now2: nat, s: Services)
    requires draw < Otp.OTP_SPAN && Consistent(db)
    requires SignupValid(req, s.isEmail) && !HasUser(db.users, req.email.value)
    requires now <= now2 <= now + 10 * 60 * 1000
    ensures var o1 := Signup(db, req, now, draw, salt, true, s);
            var o2 := VerifyOtp(o1.db, OtpRequest(req.email, Some(Otp.GenerateOtp(draw))), now2, s);
            && o2.resp.Reply? && o2.resp.status == 200
            && |o2.db.users| == |db.users| + 1
            && o2.db.users[|db.users|].email == req.email.value
            && o2.db.users[|db.users|].emailVerifiedAt == Some(now2)
  {
    var o1 := Signup(db, req, now, draw, salt, true, s);
    var e := req.email.value;
    var row := OtpRow(e, Otp.GenerateOtp(draw), now + OTP_LIFETIME_MS);
    SignupStores(db, req, now, draw, salt, true, s);
    SignupUserFound(db, req, now, draw, salt, true, s);
    AppendUserKeepsEmails(db.users, o1.db.users[|db.users|]);
    assert Rows.Select(o1.db.otps, OtpEmail, e) == [row] by {
      NoRowsWithoutUser(db, e);
      Rows.SelectAppend(db.otps, OtpEmail, row, e);
    }
    VerifyOtpSucceeds(o1.db, OtpRequest(req.email, Some(Otp.GenerateOtp(draw))), now2, s);
  }

  /** Signing up and then logging in with the same email and password succeeds with the new row. */
  lemma SignupThenLogin(db: Db, req: SignupRequest, now: nat, draw: nat, salt: string, otpStored: bool, now2: nat, s: Services)
    requires draw < Otp.OTP_SPAN && SoundBcrypt(s)
    requires SignupValid(req, s.isEmail) && !HasUser(db.users, req.email.value)
    ensures var o1 := Signup(db, req, now, draw, salt, otpStored, s);
            var u := o1.db.users[|db.users|];
            && LoginValid(LoginRequest(req.email, req.password), s.isEmail)
            && Login(o1.db, LoginRequest(req.email, req.password), now2, s) == Reply(200, SignedIn(u, SessionToken(s, u, now2)))
  {
    SignupStores(db, req, now, draw, salt, otpStored, s);
    SignupUserFound(db, req, now, draw, salt, otpStored, s);
  }

  /**
   * forgot-password, then password/update with the token it signed, before
   * that token expires: the answer is 201, and logging in with the new
   * password then succeeds.
   */
  lemma ResetThenLogin(db: Db, e: string, now: nat, pw: string, salt: string, now2: nat, now3: nat, s: Services)
    requires SoundJwt(s) && SoundBcrypt(s)
    requires HasUser(db.users, e) && e != "" && s.isEmail(e) && pw != ""
    requires now <= now2 && now2 / 1000 < now / 1000 + RESET_LIFETIME_S
    ensures var o1 := ForgotPassword(db, EmailRequest(Some(e)), now, s);
            var token := s.sign(ResetClaims(e, now));
            var o2 := UpdatePassword(o1.db, PasswordUpdateRequest(Some(e), Some(pw), Some(pw), Some(token)), now2, salt, s);
            && o2.resp == Reply(201, Message(PASSWORD_UPDATED))
            && Login(o2.db, LoginRequest(Some(e), Some(pw)), now3, s).Reply?
            && Login(o2.db, LoginRequest(Some(e), Some(pw)), now3, s).status == 200
  {
    var o1 := ForgotPassword(db, EmailRequest(Some(e)), now, s);
    var token := s.sign(ResetClaims(e, now));
    var req2 := PasswordUpdateRequest(Some(e), Some(pw), Some(pw), Some(token));
    assert FirstReset(o1.db, e) == ResetRow(e, token, now) by {
      ForgotPasswordReplaces(db, EmailRequest(Some(e)), now, s);
    }
    ResetTokenFresh(e, now, now2, s);
    UpdatePasswordSucceeds(o1.db, req2, now2, salt, s);
    var o2 := UpdatePassword(o1.db, req2, now2, salt, s);
    LoginAfterRehash(o1.db, o2.db, e, pw, salt, now3, s);
  }

  /** The reset token, presented before its `exp`, verifies and its row is not yet an hour old. */
  lemma ResetTokenFresh(e: string, now: nat, now2: nat, s: Services)
    requires SoundJwt(s) && now <= now2 && now2 / 1000 < now / 1000 + RESET_LIFETIME_S
    ensures now2 - now <= RESET_MAX_AGE_MS
    ensures s.verify(s.sign(ResetClaims(e, now)), now2) == Some(ResetClaims(e, now))
  {
    assert now2 / 1000 <= now / 1000 + 3599;
    assert now2 < (now2 / 1000 + 1) * 1000;
    assert (now / 1000) * 1000 <= now;
  }

  /** After a user's hash is replaced by the hash of `pw`, logging in with `pw` succeeds. */
  lemma LoginAfterRehash(db: Db, db2: Db, e: string, pw: string, salt: string, now: nat, s: Services)
    requires SoundBcrypt(s) && e != "" && s.isEmail(e) && pw != "" && HasUser(db.users, e)
    requires var i := FindUser(db.users, Some(e)).value;
             db2.users == db.users[i := db.users[i].(password := s.hash(pw, salt))]
    ensures Login(db2, LoginRequest(Some(e), Some(pw)), now, s).Reply?
    ensures Login(db2, LoginRequest(Some(e), Some(pw)), now, s).status == 200
  {
    var i := FindUser(db.users, Some(e)).value;
    Rows.FirstSameKeys(db.users, UserEmail, db2.users, UserEmail, e);
    assert FindUser(db2.users, Some(e)) == Some(i);
    assert s.compare(pw, db2.users[i].password);
  }

  // ------------------------------------- validator chains the handlers never read

  /** Every code the server generates meets the declared `otp` length rule. */
  lemma GeneratedOtpFitsRule(draw: nat, e: string, isEmail: string -> bool)
    requires draw < Otp.OTP_SPAN && e != "" && isEmail(e)
    ensures OtpRequestValid(OtpRequest(Some(e), Some(Otp.GenerateOtp(draw))), isEmail)
  {
    Otp.GenerateOtpWellFormed(draw);
  }

  /**
   * The declared length rule on `otp` does not gate verify-otp: a code of
   * the wrong length, which the rule rejects, is still checked against the
   * stored six-digit code and consumes it, answered 400 rather than 422.
   */
  lemma OtpRuleNotEnforced(db: Db, req: OtpRequest, now: nat, s: Services)
    requires req.email.Some? && Rows.Select(db.otps, OtpEmail, req.email.value) != []
    requires |FirstOtp(db, req.email.value).otp| == 6
    requires req.otp.Some? && |req.otp.value| != 6
    ensures !OtpRequestValid(req, s.isEmail)
    ensures var o := VerifyOtp(db, req, now, s);
            o.resp == Reply(400, Error(BAD_OTP)) && Rows.Select(o.db.otps, OtpEmail, req.email.value) == []
  {
    VerifyOtpFailureConsumes(db, req, now, s);
  }

  /**
   * The declared rules of password/update do not gate it: a password shorter
   * than eight characters is stored, whatever the confirmation says.
   */
  lemma PasswordRuleNotEnforced(db: Db, req: PasswordUpdateRequest, now: nat, salt: string, s: Services)
    requires req.email.Some? && Rows.Select(db.resets, ResetEmail, req.email.value) != []
    requires now - FirstReset(db, req.email.value).createdAt <= 3600000
    requires req.token.Some? && s.verify(req.token.value, now).Some?
    requires req.password.Some? && |req.password.value| < 8
    requires HasUser(db.users, req.email.value)
    ensures !PasswordUpdateValid(req, s.isEmail)
    ensures var o := UpdatePassword(db, req, now, salt, s);
            var i := FindUser(db.users, req.email).value;
            o.resp == Reply(201, Message(PASSWORD_UPDATED)) && o.db.users[i].password == s.hash(req.password.value, salt)
  {
    UpdatePasswordSucceeds(db, req, now, salt, s);
  }
}
