/**
 * The three tables the auth handlers use (config/database.js): `users`,
 * whose email column is UNIQUE, `otp_cache` and `password_reset_tokens`,
 * which have no uniqueness on email. Each table is its rows in rowid order;
 * the surrogate ids of the two token tables are never read and are left out.
 * Timestamps are integer milliseconds.
 */
module AuthDb {
  import opened Wrappers
  import Rows

  datatype User = User(
    id: int, name: Option<string>, email: string, phone: Option<string>,
    password: string,                  // the bcrypt hash
    emailVerifiedAt: Option<int>)

  datatype OtpRow = OtpRow(email: string, otp: string, expiresAt: int)

  datatype ResetRow = ResetRow(email: string, token: string, createdAt: int)

  datatype Db = Db(users: seq<User>, nextUserId: int, otps: seq<OtpRow>, resets: seq<ResetRow>)

  // The columns the handlers look rows up by.
  function UserEmail(u: User): string { u.email }
  function UserId(u: User): int { u.id }
  function OtpEmail(r: OtpRow): string { r.email }
  function ResetEmail(r: ResetRow): string { r.email }

  /** `SELECT * FROM users WHERE email = ?`; a missing email binds NULL and matches no row. */
  function FindUser(users: seq<User>, email: Option<string>): (r: Option<nat>)
    ensures r.Some? ==> r.value < |users| && email == Some(users[r.value].email)
    ensures r.None? <==> email.None? || !HasUser(users, email.value)
  {
    if email.None? then None else Rows.First(users, UserEmail, email.value)
  }

  /** `... FROM users WHERE id = ?`. */
  function FindUserById(users: seq<User>, id: int): (r: Option<nat>)
    ensures r.Some? ==> r.value < |users| && users[r.value].id == id
    ensures r.None? <==> forall i :: 0 <= i < |users| ==> users[i].id != id
  {
    Rows.First(users, UserId, id)
  }

  /** `SELECT * FROM otp_cache WHERE email = ?`: the first such row. */
  function FindOtp(otps: seq<OtpRow>, email: Option<string>): (r: Option<nat>)
    ensures r.Some? ==> r.value < |otps| && email == Some(otps[r.value].email)
    ensures r.None? <==> email.None? || Rows.Select(otps, OtpEmail, email.value) == []
  {
    if email.None? then None
    else
      Rows.FirstIsSelectHead(otps, OtpEmail, email.value);
      Rows.First(otps, OtpEmail, email.value)
  }

  /** `SELECT * FROM password_reset_tokens WHERE email = ?`: the first such row. */
  function FindReset(resets: seq<ResetRow>, email: Option<string>): (r: Option<nat>)
    ensures r.Some? ==> r.value < |resets| && email == Some(resets[r.value].email)
    ensures r.None? <==> email.None? || Rows.Select(resets, ResetEmail, email.value) == []
  {
    if email.None? then None
    else
      Rows.FirstIsSelectHead(resets, ResetEmail, email.value);
      Rows.First(resets, ResetEmail, email.value)
  }

  ghost predicate HasUser(users: seq<User>, email: string) {
    exists i :: 0 <= i < |users| && users[i].email == email
  }

  /**
   * What the database itself guarantees of `users`: AUTOINCREMENT ids below
   * the next one to be handed out, in increasing rowid order, and the UNIQUE
   * email column.
   */
  ghost predicate WellFormed(db: Db) {
    && db.nextUserId >= 1
    && (forall i :: 0 <= i < |db.users| ==> 1 <= db.users[i].id < db.nextUserId)
    && (forall i, j :: 0 <= i < j < |db.users| ==> db.users[i].id < db.users[j].id)
    && (forall i, j :: 0 <= i < j < |db.users| ==> db.users[i].email != db.users[j].email)
  }

  /**
   * What the handlers maintain on top of that, starting from empty token
   * tables: at most one OTP row and one reset row per email, each for an
   * email that has a user.
   */
  ghost predicate Consistent(db: Db) {
    && WellFormed(db)
    && Rows.AtMostOnePerKey(db.otps, OtpEmail)
    && Rows.AtMostOnePerKey(db.resets, ResetEmail)
    && (forall i :: 0 <= i < |db.otps| ==> HasUser(db.users, db.otps[i].email))
    && (forall i :: 0 <= i < |db.resets| ==> HasUser(db.users, db.resets[i].email))
  }

  /** Replacing one user row by one with the same id and email keeps the table well formed. */
  lemma ReplaceUserKeepsWellFormed(db: Db, i: nat, u: User)
    requires i < |db.users|
    requires u.id == db.users[i].id && u.email == db.users[i].email
    ensures WellFormed(db) ==> WellFormed(db.(users := db.users[i := u]))
    ensures forall e :: HasUser(db.users[i := u], e) <==> HasUser(db.users, e)
  {
    var users' := db.users[i := u];
    forall e | HasUser(db.users, e) ensures HasUser(users', e) {
      var k :| 0 <= k < |db.users| && db.users[k].email == e;
      assert users'[k].email == e;
    }
  }
}
