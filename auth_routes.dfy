/**
 * The two routes of routes/auth.js that run behind the `authenticate`
 * middleware: /updateProfile and /logout. A rejected request is answered
 * by the middleware and never reaches the handler; an admitted one reaches
 * it with the decoded claims as `req.user`.
 */
module AuthRoutes {
  import opened Wrappers
  import opened Collaborators
  import opened AuthDb
  import opened AuthSpec
  import opened BearerAuth
  import AuthHandlers

  const LOGGED_OUT: string := "Logged out successfully."

  /** POST /updateProfile: `authenticate`, then the handler with the claims' `id`. */
  function UpdateProfileRoute(db: Db, header: Option<string>, name: Option<string>, phone: Option<string>,
                              now: nat, s: Services): (o: Outcome)
    ensures Authenticate(header, s.verify, now).Rejected? ==> o.db == db && o.resp.Reply? && o.resp.status == 401
    ensures WellFormed(db) ==> WellFormed(o.db)
  {
    match Authenticate(header, s.verify, now)
    case Rejected(status, error) => Outcome(db, Reply(status, Error(error)))
    case Admitted(user) => UpdateProfile(db, user.id, name, phone)
  }

  /** POST /logout: `authenticate`, then a fixed message. */
  function LogoutRoute(header: Option<string>, now: nat, s: Services): (r: Response)
    ensures r.Reply? && (r.status == 200 <==> Authenticate(header, s.verify, now).Admitted?)
  {
    match Authenticate(header, s.verify, now)
    case Rejected(status, error) => Reply(status, Error(error))
    case Admitted(_) => Reply(200, Message(LOGGED_OUT))
  }

  /** /updateProfile against the live tables: the gate first, then the controller's handler. */
  method HandleUpdateProfile(ctrl: AuthHandlers.AuthController, header: Option<string>,
                             name: Option<string>, phone: Option<string>, now: nat) returns (resp: Response)
    requires ctrl.Valid()
    modifies ctrl
    ensures ctrl.Valid()
    ensures Outcome(ctrl.State(), resp) == UpdateProfileRoute(old(ctrl.State()), header, name, phone, now, ctrl.services)
  {
    var gate := Authenticate(header, ctrl.services.verify, now);
    match gate
    case Rejected(status, error) =>
      resp := Reply(status, Error(error));
    case Admitted(user) =>
      resp := ctrl.UpdateProfile(user.id, name, phone);
  }

  /** A header "Bearer <t>" with a space-free `t` passes all of `t` to verification. */
  lemma WholeToken(t: string)
    requires ' ' !in t
    ensures t[..SeparatorAt(t, ' ')] == t
  {
    assert forall j :: 0 <= j < |t| ==> t[j] != ' ';
    assert t[..|t|] == t;
  }

  /** A session token, presented before it expires, is admitted with the claims it was signed with. */
  lemma SessionTokenAdmitted(id: int, e: string, issued: nat, now: nat, s: Services)
    requires SoundJwt(s) && now / 1000 < issued / 1000 + SESSION_LIFETIME_S
    ensures Authenticate(Some(BEARER_PREFIX + s.sign(SessionClaims(id, e, issued))), s.verify, now)
            == Admitted(SessionClaims(id, e, issued))
  {
    var t := s.sign(SessionClaims(id, e, issued));
    WholeToken(t);
    AuthenticateBearer(t, s.verify, now);
  }

  /**
   * The token signup returns opens /updateProfile for the new account until
   * it expires: the route then does exactly what the handler does for that id.
   */
  lemma SessionTokenOpensProfile(db: Db, id: int, e: string, issued: nat, now: nat,
                                 name: Option<string>, phone: Option<string>, s: Services)
    requires SoundJwt(s) && now / 1000 < issued / 1000 + SESSION_LIFETIME_S
    ensures UpdateProfileRoute(db, Some(BEARER_PREFIX + s.sign(SessionClaims(id, e, issued))), name, phone, now, s)
            == UpdateProfile(db, Some(id), name, phone)
  {
    SessionTokenAdmitted(id, e, issued, now, s);
  }

  /**
   * A password-reset token is a valid JWT and passes `authenticate`, but it
   * carries no `id`, so /updateProfile answers 401 "Unauthorized" and
   * changes nothing.
   */
  lemma ResetTokenCannotUpdateProfile(db: Db, e: string, issued: nat, now: nat,
                                      name: Option<string>, phone: Option<string>, s: Services)
    requires SoundJwt(s) && now / 1000 < issued / 1000 + RESET_LIFETIME_S
    ensures Authenticate(Some(BEARER_PREFIX + s.sign(ResetClaims(e, issued))), s.verify, now).Admitted?
    ensures UpdateProfileRoute(db, Some(BEARER_PREFIX + s.sign(ResetClaims(e, issued))), name, phone, now, s)
            == Outcome(db, Reply(401, Error(UNAUTHORIZED)))
  {
    var t := s.sign(ResetClaims(e, issued));
    WholeToken(t);
    AuthenticateBearer(t, s.verify, now);
  }

  /** Without a "Bearer " header neither route reaches its handler: 401 "No token provided". */
  lemma NoTokenNoHandler(db: Db, header: Option<string>, name: Option<string>, phone: Option<string>, now: nat, s: Services)
    requires header.None? || |header.value| < |BEARER_PREFIX| || header.value[..|BEARER_PREFIX|] != BEARER_PREFIX
    ensures UpdateProfileRoute(db, header, name, phone, now, s) == Outcome(db, Reply(401, Error(NO_TOKEN)))
    ensures LogoutRoute(header, now, s) == Reply(401, Error(NO_TOKEN))
  {
  }
}
