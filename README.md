# Emsats backend: authentication and generic tables, in Dafny

This project models the request handling core of the Emsats backend, an
Express server over SQLite. It has two parts.

- **Authentication.** Signup, login, OTP verification and resend, the
  forgotten-password flow, profile update and e-mail verification. These run
  over three tables: `users`, `otp_cache` and `password_reset_tokens`.
  - The validator chains that guard the routes are modelled.
  - So is the bearer-token middleware that guards `/updateProfile` and
    `/logout`.
  - So is the six-digit OTP generator.
- **Generic tables.** The CRUD controller factory that every other table
  route is built from: `index`, `store`, `show`, `update` and `destroy` over
  one table.

## How the model is organised

- `wrappers.dfy`: `Option`, and SQL's `COALESCE` on it.
- `collaborators.dfy`: what the handlers call but do not own.
  - `validator.js` `isEmail`, bcrypt `hash`/`compare` and JWT `sign`/`verify`
    are uninterpreted functions, held in the `Services` value.
  - `SoundBcrypt` and `SoundJwt` state the two properties of the real
    libraries that the flow lemmas rely on:
    - bcrypt accepts the password a hash was made from;
    - a signed token verifies until its `exp` and contains no space.
- `otp.js` as `otp.dfy`: `generateOTP` with the random draw as an integer
  parameter in `[0, 900000)`, decimal rendering and parsing, and the lemmas
  on them.
- `validators.dfy`: every validator chain of `routes/auth.js`.
  - Each is a predicate saying what the route accepts.
  - Each has an error-list function that is empty exactly when the request
    is valid.
- `bearer.dfy`: the `authenticate` middleware, with JavaScript's
  `split(' ')` written out.
- `rows.dfy`: a table as a sequence of rows in rowid order. It defines
  `First` (what `db.get` returns), `Select`, and `Delete` (`DELETE ... WHERE
  key = ?`), with their algebra.
- `auth_db.dfy`: the three tables, lookups, and two invariants.
  - `WellFormed` is what SQLite itself guarantees: AUTOINCREMENT ids and the
    UNIQUE e-mail column.
  - `Consistent` is what the handlers maintain on top of that: at most one
    OTP row and one reset row per e-mail, each for an e-mail that has a user.
- `auth_spec.dfy`: each handler as a pure transition from the tables and the
  request to the new tables and the response.
- `auth_controller.dfy`: the controller as a class whose fields are the three
  tables.
  - Each method updates the fields in the order the handler issues its
    queries.
  - Each method is proved to end in the state and response that the
    transition in `auth_spec.dfy` gives.
- `auth_properties.dfy`: the behaviour of each handler, the preservation of
  `Consistent` by every handler, and multi-request flows. The flows are
  signup then verify, signup then login, and forgot-password then update
  then login.
- `auth_routes.dfy`: `/updateProfile` and `/logout` behind `authenticate`,
  and what session and reset tokens can open.
- `crud.dfy`: the generic table as a class.
  - The rows are a map from id to record.
  - `sequence` is the table's `sqlite_sequence` entry, the largest id any INSERT has given. AUTOINCREMENT picks one past both it and the largest id present.
  - A map from each non-id column to its DEFAULT gives the table's schema.

Clock readings are integer milliseconds passed in as `now`, one reading per request. JWT times are
whole seconds, as jsonwebtoken computes them.

## Model

| member | source | states |
|---|---|---|
| Otp.GenerateOtpWellFormed | utils/otp.js:5-8 | the OTP is 6 decimal digits, the first not '0'; parsed back it is 100000 + draw, so it lies in [100000, 999999] |
| Otp.GenerateOtp | utils/otp.js:7 | the code is exactly six characters, all decimal digits |
| Otp.DecimalString | utils/otp.js:7 | `toString` of a natural number renders at least one character |
| Otp.GenerateOtpInjective | utils/otp.js:7 | different draws give different codes, and equal draws equal codes |
| Otp.DecimalRoundTrip | utils/otp.js:7 | `toString` of a natural number is all digits and parses back to the same number |
| Otp.DecimalStringDigits | utils/otp.js:7 | the rendering of a natural number is all digits, with no leading zero for a positive number |
| Otp.DecimalStringLength | utils/otp.js:7 | a number in [10^(k-1), 10^k) renders in exactly k digits |
| Otp.OtpValue | controllers/authController.js:18 | `100000 + draw` lies in [100000, 999999] for every draw below 900000 |
| Collaborators.SessionClaims | controllers/authController.js:10-16 | `generateToken` signs the user's id and email, issued at the current second and expiring 24 hours later |
| Collaborators.ResetClaims | controllers/authController.js:147 | the reset token signs the e-mail only, with no id, and expires one hour after issue |
| AuthValidators.Require | routes/auth.js:18-60 | one validator contributes no error exactly when its check passes |
| AuthValidators.SignupErrors | routes/auth.js:24-30 | no error exactly when fullname is a non-empty string, email is a non-empty string that passes isEmail, password has at least 8 characters and password_confirmation equals it; every error names one of those four fields; a missing fullname fails both notEmpty and isString |
| AuthValidators.LoginErrors | routes/auth.js:18-22 | no error exactly when email is a non-empty string that passes isEmail and password is non-empty; errors name only those fields |
| AuthValidators.OtpRequestErrors | routes/auth.js:43-47 | no error exactly when email is a non-empty string that passes isEmail and otp has exactly 6 characters |
| AuthValidators.PasswordUpdateErrors | routes/auth.js:54-60 | no error exactly when email is a non-empty string that passes isEmail, password has at least 8 characters, the confirmation equals it and token is non-empty |
| AuthValidators.EmailRequestErrors | routes/auth.js:32-35 | no error exactly when email is a non-empty string that passes isEmail (the same chain guards /resend-otp at lines 49-52) |
| AuthValidators.VerifyEmailRequestErrors | routes/auth.js:37-41 | no error exactly when email is a non-empty string that passes isEmail and token is non-empty |
| BearerAuth.Split | middleware/auth.js:14 | `split` always yields at least one piece |
| BearerAuth.SplitHead | middleware/auth.js:14 | the first piece of a split is the text up to the first separator |
| BearerAuth.SplitAfterWord | middleware/auth.js:14 | splitting "w t" with w free of separators gives w followed by the pieces of t |
| BearerAuth.SplitJoin | middleware/auth.js:14 | joining the pieces of a split with the separator gives back the original string |
| BearerAuth.SeparatorAt | middleware/auth.js:14 | the position of the first separator, or the length when there is none |
| BearerAuth.BearerToken | middleware/auth.js:14 | for a header starting "Bearer ", the second piece of `split(' ')` is the text after the prefix up to the next space, or to the end |
| BearerAuth.Authenticate | middleware/auth.js:6-28 | a missing header, or one not starting with "Bearer " (with the space), is rejected with 401 "No token provided"; every rejection is 401 |
| BearerAuth.BearerTokenShape | middleware/auth.js:14 | the token taken from "Bearer t" is t up to its first space |
| BearerAuth.AuthenticateBearer | middleware/auth.js:14-22 | "Bearer t" is admitted with exactly the claims verify returns for that token, and otherwise rejected with 401 "Invalid or expired token" |
| AuthRoutes.UpdateProfileRoute | routes/auth.js:62 | a request the middleware rejects gets a 401 and changes no table; the tables stay well formed |
| AuthRoutes.LogoutRoute | routes/auth.js:64 | /logout always replies, with 200 exactly when the middleware admits the request |
| AuthRoutes.HandleUpdateProfile | routes/auth.js:62 | runs the gate and then the controller's handler, ending in the state and response of UpdateProfileRoute |
| AuthRoutes.WholeToken | middleware/auth.js:14 | a token without spaces is taken whole from the header |
| AuthRoutes.SessionTokenAdmitted | middleware/auth.js:16-22 | a session token presented before it expires is admitted with the claims it was signed with |
| AuthRoutes.SessionTokenOpensProfile | routes/auth.js:62 | with such a token, /updateProfile does exactly what the handler does for the token's user id |
| AuthRoutes.ResetTokenCannotUpdateProfile | controllers/authController.js:203-206 | a reset token passes the middleware but carries no id, so /updateProfile answers 401 "Unauthorized" and changes nothing |
| AuthRoutes.NoTokenNoHandler | routes/auth.js:62-64 | without a "Bearer " header neither handler runs; both routes answer 401 "No token provided" and no table changes |
| Wrappers.Coalesce | controllers/authController.js:210-211 | `COALESCE(?, col)`: a given value replaces the column, a missing one keeps the column as it is |
| AuthDb.FindUser | controllers/authController.js:28 | the user row found has the requested e-mail; none is found exactly when the e-mail is missing or no user has it |
| AuthDb.FindUserById | controllers/authController.js:208-213 | the row found has the requested id; none is found exactly when no row has it |
| AuthDb.FindOtp | controllers/authController.js:92 | the OTP row found has the requested e-mail; none is found exactly when the e-mail is missing or has no OTP row |
| AuthDb.FindReset | controllers/authController.js:170 | the reset row found has the requested e-mail; none is found exactly when the e-mail is missing or has no reset row |
| AuthDb.ReplaceUserKeepsWellFormed | config/database.js:22-29 | rewriting a user row without changing its id or e-mail keeps ids and the UNIQUE e-mail column intact, and keeps the set of registered e-mails |
| AuthSpec.SessionToken | controllers/authController.js:10-16 | with a sound JWT library the token holds no space and verifies, before it expires, to the claims { id, email } signed with the 24-hour lifetime |
| AuthSpec.Login | controllers/authController.js:64-85 | login always replies, with 200, 401 or 422; 422 exactly when the e-mail/password rules fail; a 200 carries a stored user row whose e-mail is the one given and whose hash the given password matches |
| AuthSpec.Signup | controllers/authController.js:21-61 | signup keeps the users table well formed |
| AuthSpec.VerifyOtp | controllers/authController.js:88-114 | verify-otp keeps the users table well formed |
| AuthSpec.ResendOtp | controllers/authController.js:117-137 | resend-otp touches only otp_cache |
| AuthSpec.ForgotPassword | controllers/authController.js:140-163 | forgot-password touches only password_reset_tokens |
| AuthSpec.UpdatePassword | controllers/authController.js:166-198 | password update keeps the users table well formed |
| AuthSpec.UpdateProfile | controllers/authController.js:201-225 | profile update keeps the users table well formed |
| AuthSpec.VerifyEmail | controllers/authController.js:228-247 | verify-email keeps the users table well formed |
| AuthHandlers.AuthController.constructor | config/database.js:22-47 | the controller starts over the given well-formed tables |
| AuthHandlers.AuthController.Signup | controllers/authController.js:21-61 | validation, duplicate check, user insert, OTP insert and reply in the handler's order reach the tables and response of AuthSpec.Signup; the tables stay well formed |
| AuthHandlers.AuthController.Login | controllers/authController.js:64-85 | answers what AuthSpec.Login gives and modifies nothing |
| AuthHandlers.AuthController.VerifyOtp | controllers/authController.js:88-114 | ends in the tables and response of AuthSpec.VerifyOtp |
| AuthHandlers.AuthController.ResendOtp | controllers/authController.js:117-137 | DELETE then INSERT end in the tables and response of AuthSpec.ResendOtp |
| AuthHandlers.AuthController.ForgotPassword | controllers/authController.js:140-163 | DELETE then INSERT end in the tables and response of AuthSpec.ForgotPassword |
| AuthHandlers.AuthController.UpdatePassword | controllers/authController.js:166-198 | ends in the tables and response of AuthSpec.UpdatePassword |
| AuthHandlers.AuthController.UpdateProfile | controllers/authController.js:201-225 | ends in the tables and response of AuthSpec.UpdateProfile |
| AuthHandlers.AuthController.VerifyEmail | controllers/authController.js:228-247 | ends in the tables and response of AuthSpec.VerifyEmail |
| AuthProperties.SignupRejectsInvalid | controllers/authController.js:23-24 | a request failing the signup chain gets 422 with the chain's (non-empty) error list and changes nothing |
| AuthProperties.SignupRejectsDuplicate | controllers/authController.js:28-30 | signup for a registered e-mail gets 422 "Email already exists" and changes no table |
| AuthProperties.SignupCreatesAccount | controllers/authController.js:32-53 | exactly one user row is appended, with a fresh id, the full name, e-mail, phone, the password's hash and no verification time; one OTP row expiring 10 minutes later is added iff its insert succeeds; reset rows are untouched; the reply is 201 with the new id and a session token |
| AuthProperties.SignupResponseIgnoresOtpInsert | controllers/authController.js:43-53 | a failed OTP insert changes neither the response nor the users table |
| AuthProperties.LoginOutcomes | controllers/authController.js:71-79 | a valid login gets 401 "Invalid credentials" exactly when the e-mail is unknown or the password does not match, and otherwise 200 with the user row and a session token |
| AuthProperties.LoginFailuresIndistinguishable | controllers/authController.js:73-76 | an unknown e-mail and a wrong password get identical responses |
| AuthProperties.VerifyOtpWithoutRow | controllers/authController.js:92-93 | with no OTP row for the e-mail the reply is 400 "Invalid or expired OTP" and nothing changes |
| AuthProperties.VerifyOtpFailureConsumes | controllers/authController.js:95-97 | an expired OTP or a wrong code deletes every OTP row of that e-mail, leaves other e-mails' rows and the other tables alone, and replies 400 |
| AuthProperties.VerifyOtpWithoutUser | controllers/authController.js:100-101 | a correct code for an e-mail without a user gets 400 "Invalid user" and leaves every table, the OTP row included, as it was |
| AuthProperties.VerifyOtpSucceeds | controllers/authController.js:100-107 | a correct, unexpired code marks that user verified now, deletes the e-mail's OTP rows, leaves every other e-mail's OTP rows as they were, and replies 200 with a session token and the user row as read |
| AuthProperties.VerifyOtpLeavesNoCode | controllers/authController.js:92-107 | after any attempt except "Invalid user", the next attempt, with any code at any time, gets 400 and changes nothing: a code verifies at most once |
| AuthProperties.ResendOtpUnknownUser | controllers/authController.js:121-122 | resend for an unknown e-mail gets 404 "User not found" and changes nothing |
| AuthProperties.ResendOtpReplaces | controllers/authController.js:124-130 | afterwards the e-mail has exactly one OTP row, a fresh six-digit code expiring 10 minutes later; every other e-mail's rows are untouched; the reply is 201 |
| AuthProperties.ResendOtpStores | controllers/authController.js:127-128 | the OTP table afterwards is the old one without the e-mail's rows, plus the new row at the end |
| AuthProperties.ForgotPasswordUnknownUser | controllers/authController.js:144-145 | forgot-password for an unknown e-mail gets 404 "User not found" and changes nothing |
| AuthProperties.ForgotPasswordReplaces | controllers/authController.js:147-155 | afterwards the e-mail has exactly one reset row, holding a token signed for that e-mail and created now; every other e-mail's rows are untouched; the reply is 200 |
| AuthProperties.ForgotPasswordStores | controllers/authController.js:149-152 | the reset table afterwards is the old one without the e-mail's rows, plus the new row at the end |
| AuthProperties.UpdatePasswordWithoutRow | controllers/authController.js:170-171 | with no reset row the reply is 400 "Invalid or expired token" and nothing changes |
| AuthProperties.UpdatePasswordExpired | controllers/authController.js:173-177 | a row older than 3,600,000 ms is deleted with all of that e-mail's reset rows, every other e-mail's reset rows are kept as they were, the reply is 400 "Token expired", and the users and OTP tables are unchanged |
| AuthProperties.UpdatePasswordBadToken | controllers/authController.js:179-183 | a submitted token that is missing or fails verification gets 400 "Invalid token" and every table, the reset row included, is kept |
| AuthProperties.UpdatePasswordWithoutPassword | controllers/authController.js:185 | with a fresh row and a valid token but no password, bcrypt throws inside the callback: no reply and no change |
| AuthProperties.UpdatePasswordSucceeds | controllers/authController.js:185-191 | the user's password becomes the hash of the new one (no row changes when the user is gone), the e-mail's reset rows are deleted and every other e-mail's are kept as they were, the OTP table is untouched, and the reply is 201 |
| AuthProperties.UpdatePasswordIgnoresStoredToken | controllers/authController.js:170-185 | the stored token never matters: tables that differ only in it give the same response and users table |
| AuthProperties.UpdateProfileRejects | controllers/authController.js:206-216 | a missing or zero id gets 401 "Unauthorized", an id with no row gets 404 "User not found"; neither changes anything |
| AuthProperties.UpdateProfileChangesOnlyNameAndPhone | controllers/authController.js:208-218 | only the caller's row changes, and only name and phone, each only when supplied; id, e-mail, password and verification time are kept; the reply is 200 |
| AuthProperties.VerifyEmailMarksUser | controllers/authController.js:233-240 | an unknown e-mail gets 404 and changes nothing; a known one is marked verified now with 200; the token field never changes the outcome |
| AuthProperties.NoRowsWithoutUser | config/database.js:22-47 | in consistent tables an e-mail without a user has no OTP and no reset rows |
| AuthProperties.KeepsConsistent | config/database.js:22-47 | consistency carries over when rows only disappear and registered e-mails stay registered |
| AuthProperties.DeleteOtpsKeepsConsistent | controllers/authController.js:96 | deleting an e-mail's OTP rows keeps the tables consistent |
| AuthProperties.DeleteResetsKeepsConsistent | controllers/authController.js:175 | deleting an e-mail's reset rows keeps the tables consistent |
| AuthProperties.AppendOtpKeepsConsistent | controllers/authController.js:43-49 | adding an OTP row for a registered e-mail that has none keeps the tables consistent |
| AuthProperties.ReplaceOtpKeepsConsistent | controllers/authController.js:127-128 | replacing a registered e-mail's OTP rows by one row keeps the tables consistent |
| AuthProperties.AppendResetKeepsConsistent | controllers/authController.js:150-152 | adding a reset row for a registered e-mail that has none keeps the tables consistent |
| AuthProperties.ReplaceResetKeepsConsistent | controllers/authController.js:149-152 | replacing a registered e-mail's reset rows by one row keeps the tables consistent |
| AuthProperties.AppendUserKeepsEmails | controllers/authController.js:34-36 | appending a user keeps every registered e-mail registered and registers the new one |
| AuthProperties.SignupStores | controllers/authController.js:32-49 | the tables a successful signup writes: one user appended, one OTP row appended iff stored, resets unchanged |
| AuthProperties.KeepsConsistentOnSignup | controllers/authController.js:34-49 | consistency carries over to tables that only gain users and whose OTP rows all belong to registered e-mails |
| AuthProperties.SignupKeepsConsistent | controllers/authController.js:21-61 | signup keeps the tables consistent |
| AuthProperties.VerifyOtpKeepsConsistent | controllers/authController.js:88-114 | verify-otp keeps the tables consistent |
| AuthProperties.ResendOtpKeepsConsistent | controllers/authController.js:117-137 | resend-otp keeps the tables consistent |
| AuthProperties.ForgotPasswordKeepsConsistent | controllers/authController.js:140-163 | forgot-password keeps the tables consistent |
| AuthProperties.UpdatePasswordKeepsConsistent | controllers/authController.js:166-198 | password update keeps the tables consistent |
| AuthProperties.UpdateProfileKeepsConsistent | controllers/authController.js:201-225 | profile update keeps the tables consistent |
| AuthProperties.VerifyEmailKeepsConsistent | controllers/authController.js:228-247 | verify-email keeps the tables consistent |
| AuthProperties.AppendedUserFound | controllers/authController.js:100 | a user appended under a new e-mail is the row a later lookup of that e-mail finds |
| AuthProperties.SignupUserFound | controllers/authController.js:34-36 | after signup, looking up the e-mail finds the new row |
| AuthProperties.SignupThenVerifyOtp | controllers/authController.js:40-107 | the code signup issued, submitted within 10 minutes, verifies with 200 and marks the new account verified at that time |
| AuthProperties.SignupThenLogin | controllers/authController.js:32-79 | right after signup, the same e-mail and password log in with 200 |
| AuthProperties.ResetThenLogin | controllers/authController.js:147-191 | forgot-password, then the update with the token it signed within its hour, gets 201, after which the new password logs in with 200 |
| AuthProperties.ResetTokenFresh | controllers/authController.js:147-180 | a reset token within its JWT hour is also within the stored row's 3,600,000 ms age, and verifies to its claims |
| AuthProperties.LoginAfterRehash | controllers/authController.js:75-187 | after the password hash of a user is replaced, the new password logs in with 200 |
| AuthProperties.GeneratedOtpFitsRule | routes/auth.js:45 | every generated code passes the six-character rule of /verify-otp |
| AuthProperties.OtpRuleNotEnforced | routes/auth.js:43-47 | a code of the wrong length breaks the declared rule, yet it is only compared: it gets 400, not 422, and consumes the e-mail's OTP |
| AuthProperties.PasswordRuleNotEnforced | routes/auth.js:54-60 | a new password shorter than 8 characters breaks the declared rule, yet it is hashed and stored with 201 |
| Rows.First | controllers/authController.js:92 | `db.get` finds a row with the key and no earlier one has it; nothing is found exactly when no row has the key |
| Rows.Select | controllers/authController.js:92 | the selected rows are rows of the table with the key, and every such row is selected |
| Rows.Delete | controllers/authController.js:96 | the rows kept are rows of the table without the key, every row without the key is kept, and the table does not grow |
| Rows.FirstIsSelectHead | controllers/authController.js:92 | `db.get` returns the first row of the rows with that key, and none when there are none |
| Rows.SelectDeleteSame | controllers/authController.js:96 | after `DELETE ... WHERE email = ?` no row has that e-mail |
| Rows.SelectDeleteOther | controllers/authController.js:96 | the delete leaves the rows of every other e-mail as they were, in order |
| Rows.ReplaceByKey | controllers/authController.js:127-128 | delete then append leaves exactly the new row under its key and every other key's rows unchanged |
| Crud.SortedIds | utils/crudController.js:7 | the ids of the table, each once, in ascending order |
| Crud.Listing | utils/crudController.js:6-15 | `SELECT *` gives one row per id, in ascending id order, each carrying its own id |
| Crud.ListingComplete | utils/crudController.js:6-15 | every row of the table appears in the listing |
| Crud.Inserted | utils/crudController.js:27 | the inserted row has the body's values in the body's columns, the DEFAULT in the others, and its id |
| Crud.Updated | utils/crudController.js:78 | the updated row has the body's values in the named columns and its old values elsewhere |
| Crud.Largest | utils/crudController.js:29 | the largest id present in a non-empty table, the one AUTOINCREMENT looks at |
| Crud.AutoId | utils/crudController.js:29 | the id AUTOINCREMENT gives is above the largest id ever inserted and above every id present, and is the least such id |
| Crud.InsertId | utils/crudController.js:29 | without an id (or with NULL) AUTOINCREMENT chooses an id no row has and above every id ever inserted; an integer id in the body is the row's id; a text id fails |
| Crud.SequenceAfterInsert | utils/crudController.js:29 | after an INSERT the sequence is the larger of the old sequence and the new id |
| Crud.CrudController.constructor | utils/crudController.js:3 | the controller starts over the given table |
| Crud.CrudController.Index | utils/crudController.js:6-15 | 200 with as many rows as the table holds, every listed row a row of the table, every table row listed; nothing changes |
| Crud.CrudController.Show | utils/crudController.js:46-60 | 200 exactly when the id is present, with that row (carrying that id); otherwise 404 "<table> not found" |
| Crud.CrudController.Store | utils/crudController.js:18-43 | an empty body is 400 and inserts nothing; otherwise exactly one row is inserted, with the body's values, defaults elsewhere and its id, leaving every other row alone, and the reply is 201 with that row as a later show returns it; the sequence becomes the larger of its old value and the new id; a key not spelled exactly as a column, an id already taken or not an integer, or a rejected constraint is 500 with no change |
| Crud.CrudController.Update | utils/crudController.js:63-92 | an absent id is 404 with no change; otherwise the named columns take the body's values, every other column and every other row is kept, and the reply is the re-read row; for a present id every other outcome is 500 "Failed to update", with no change (an empty body, a key not spelled exactly as a column, a bad new id or a rejected constraint); the sequence never changes, even when the body moves the row to a higher id |
| Crud.CrudController.Destroy | utils/crudController.js:95-113 | an absent id is 404 with no change; otherwise only that row is removed, the reply is 200 "<table> deleted successfully", and a later show of the id is 404; the sequence is unchanged |

## Left out

- Crud.CrudController.Store: the inserted row holds the body's keys and the new id, and also every other column at its DEFAULT. That is what the re-read `SELECT *` at utils/crudController.js:35-40 returns.
- Crud.CrudController.Store: a body key is accepted only when it is spelled exactly like a column (or `id`). SQLite matches column names case-insensitively and ignores blanks around them, so a key such as `NAME`, `ID` or `name ` fills the column `name` or `id` in the source where the model answers 500 with no change. That matching is left out.
- Crud.CrudController.Update: the same exact-spelling test applies to the `SET key = ?` clauses, so a differently cased or padded column name is 500 in the model and an update in the source.
- Crud.AutoId: SQLite fails an INSERT with SQLITE_FULL once the sequence or the largest id reaches 2^63 - 1. Ids here are unbounded, so that failure is left out.
- One clock reading per request: verifyOtp reads the clock twice (controllers/authController.js:95 for the expiry test, :103 for `email_verified_at`), and forgotPassword twice (:147 for the token, :152 for `created_at`). The model uses one reading `now` for both.
- Crud.CrudController.Index: the ascending id order of the listing is stated on `Crud.Listing`, not on `Index` itself.
- Storage failures: every `err` branch of a query callback that answers 500 is left out. The failures it covers are the disk, locking, and the re-reads after a write. Two kinds are kept:
  - the signup OTP insert (`otpStored`), whose failure is only logged;
  - constraint rejection in the generic tables (`accepted`), which stands for NOT NULL, UNIQUE, CHECK and foreign keys, since the schema of each table is not part of this model.
- The 500 answers of the `try`/`catch` blocks in each handler and in `authenticate` are left out: with the collaborators as total functions nothing in the modelled code throws. The exception is bcrypt on a missing password, which throws inside a `db.get` callback: the rejected promise is not handled, which on current Node versions ends the process. The model records it as no reply and no change.
- Scheduling: sqlite3 callbacks run when the database answers. The model runs the queries of one request in the order they are written, and runs requests one at a time.
  - The un-awaited DELETE before INSERT (controllers/authController.js:127-128, 149-150) is therefore sequential.
  - So are the UPDATE and DELETE of a successful verify-otp.
- The auth request bodies are modelled as optional strings. Numbers, booleans, arrays and objects in them are left out.
  - For the validators, a missing field reads as the empty string.
  - JSON `null` and an absent field are both `None`. The one place this differs from the source: `password_confirmation: null` with no `password` also gets a mismatch error in the source (`null === undefined` is false); the model's 422 list leaves that entry out. The password rule already fails there, so the status is 422 either way. The mirror case is the same: `password: null` with no `password_confirmation` gets a mismatch error in the source (`undefined === null` is false) that the model leaves out, and the status is again 422.
  - `isLength` of validator.js counts code points, and ignores U+FE0E and U+FE0F. A Dafny string is a sequence of code points, so the model differs only on those two variation selectors, which it counts.
- The generic-table bodies carry `Null`, integers and text. Floats, booleans, arrays and objects in them are left out, and so is SQLite's conversion of numeric text in an INTEGER column.
- E-mail addresses are compared exactly as stored. The source normalises nothing, and `isEmail` is an uninterpreted predicate except that the empty string, which is also what a missing e-mail reads as, always fails it.
- bcrypt, JWT and `isEmail` are uninterpreted, and the salt is a parameter. `SoundBcrypt` and `SoundJwt` are assumed only by the flow lemmas that name them.
- `Math.random` is replaced by the draw, an integer below 900000, chosen by the caller. The floating-point multiplication and `Math.floor` are left out.
- ISO-8601 timestamps are integer milliseconds. `new Date(...)` parsing and formatting are left out.
- The UPDATE statements of the auth handlers change every row with that e-mail. The model changes the first, which is the only one under the UNIQUE e-mail column.
- Users created with a NULL e-mail or password by other routes are left out: the users table holds strings only.
- The generic tables' `:id` parameter is an integer. SQLite's conversion of a numeric text id, or any other text id, is left out.
- The `GET /users` route (routes/auth.js:66-79) calls a hosted database client; it is left out.
- `logout` itself replies with a constant, and appears only in `AuthRoutes.LogoutRoute`.
- utils/email.js is not part of this model: it sends mail, and no auth handler calls it.
- The schema scripts (config/resetDatabase.js, config/seed.js), the table creation in config/database.js and the route wiring in index.js and routes/*.js are left out. What they contribute is taken as parameters:
  - the UNIQUE e-mail column and AUTOINCREMENT, as `AuthDb.WellFormed`;
  - each table's columns and defaults, as the `columns` of `Crud.CrudController`.
- The validator chains of /verify-otp, /password/update, /forgot-password, /resend-otp and /verify-email are modelled, but their handlers never read the result. The handlers are modelled that way, and `OtpRuleNotEnforced` and `PasswordRuleNotEnforced` show the consequence.
