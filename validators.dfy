/**
 * The express-validator chains that routes/auth.js declares in front of the
 * auth handlers. A request body field is absent (or JSON null) or a string.
 * Every failing check of every chain adds one error, in declaration order,
 * which is what `validationResult(req).array()` returns.
 */
module AuthValidators {
  import opened Wrappers

  datatype Check = NotEmpty | IsString | IsEmail | MinLength(min: nat) | ExactLength(len: nat) | SameAs(other: string)

  /** One entry of `errors.array()`: the field and the check it failed ('Invalid value'). */
  datatype FieldError = FieldError(path: string, check: Check)

  datatype SignupRequest = SignupRequest(
    fullname: Option<string>, email: Option<string>, password: Option<string>,
    passwordConfirmation: Option<string>, phone: Option<string>)
  datatype LoginRequest = LoginRequest(email: Option<string>, password: Option<string>)
  datatype OtpRequest = OtpRequest(email: Option<string>, otp: Option<string>)
  datatype EmailRequest = EmailRequest(email: Option<string>)
  datatype VerifyEmailRequest = VerifyEmailRequest(email: Option<string>, token: Option<string>)
  datatype PasswordUpdateRequest = PasswordUpdateRequest(
    email: Option<string>, password: Option<string>,
    passwordConfirmation: Option<string>, token: Option<string>)

  /** The validators' string view of a field: a missing field reads as "". */
  function Text(v: Option<string>): string {
    if v.Some? then v.value else ""
  }

  function Require(path: string, ok: bool, check: Check): (r: seq<FieldError>)
    ensures ok <==> r == []
  {
    if ok then [] else [FieldError(path, check)]
  }

  // The individual checks. A missing email reads as "", like every other field,
  // and validator.js answers false for isEmail(""), whatever else it accepts.
  predicate NotEmptyOk(v: Option<string>) { Text(v) != "" }
  predicate IsStringOk(v: Option<string>) { v.Some? }
  predicate IsEmailOk(v: Option<string>, isEmail: string -> bool) { Text(v) != "" && isEmail(Text(v)) }
  predicate MinLengthOk(v: Option<string>, min: nat) { |Text(v)| >= min }
  predicate ExactLengthOk(v: Option<string>, len: nat) { |Text(v)| == len }

  // What each route accepts, stated field by field.

  predicate SignupValid(b: SignupRequest, isEmail: string -> bool) {
    && b.fullname.Some? && b.fullname.value != ""
    && b.email.Some? && b.email.value != "" && isEmail(b.email.value)
    && b.password.Some? && |b.password.value| >= 8
    && b.passwordConfirmation == b.password
  }

  predicate LoginValid(b: LoginRequest, isEmail: string -> bool) {
    && b.email.Some? && b.email.value != "" && isEmail(b.email.value)
    && b.password.Some? && b.password.value != ""
  }

  predicate OtpRequestValid(b: OtpRequest, isEmail: string -> bool) {
    && b.email.Some? && b.email.value != "" && isEmail(b.email.value)
    && b.otp.Some? && |b.otp.value| == 6
  }

  predicate EmailRequestValid(b: EmailRequest, isEmail: string -> bool) {
    b.email.Some? && b.email.value != "" && isEmail(b.email.value)
  }

  predicate VerifyEmailRequestValid(b: VerifyEmailRequest, isEmail: string -> bool) {
    && b.email.Some? && b.email.value != "" && isEmail(b.email.value)
    && b.token.Some? && b.token.value != ""
  }

  predicate PasswordUpdateValid(b: PasswordUpdateRequest, isEmail: string -> bool) {
    && b.email.Some? && b.email.value != "" && isEmail(b.email.value)
    && b.password.Some? && |b.password.value| >= 8
    && b.passwordConfirmation == b.password
    && b.token.Some? && b.token.value != ""
  }

  /** POST /signup: fullname notEmpty + isString, email isEmail, password isLength(min 8), confirmation custom. */
  function SignupErrors(b: SignupRequest, isEmail: string -> bool): (r: seq<FieldError>)
    ensures r == [] <==> SignupValid(b, isEmail)
    ensures forall e :: e in r ==> e.path in {"fullname", "email", "password", "password_confirmation"}
    ensures b.fullname.None? ==> FieldError("fullname", NotEmpty) in r && FieldError("fullname", IsString) in r
  {
    Require("fullname", NotEmptyOk(b.fullname), NotEmpty)
    + Require("fullname", IsStringOk(b.fullname), IsString)
    + Require("email", IsEmailOk(b.email, isEmail), IsEmail)
    + Require("password", MinLengthOk(b.password, 8), MinLength(8))
    + Require("password_confirmation", b.passwordConfirmation == b.password, SameAs("password"))
  }

  /** POST /login: email isEmail, password notEmpty. */
  function LoginErrors(b: LoginRequest, isEmail: string -> bool): (r: seq<FieldError>)
    ensures r == [] <==> LoginValid(b, isEmail)
    ensures forall e :: e in r ==> e.path in {"email", "password"}
  {
    Require("email", IsEmailOk(b.email, isEmail), IsEmail)
    + Require("password", NotEmptyOk(b.password), NotEmpty)
  }

  /** POST /verify-otp: email isEmail, otp isLength(min 6, max 6). The handler never reads these. */
  function OtpRequestErrors(b: OtpRequest, isEmail: string -> bool): (r: seq<FieldError>)
    ensures r == [] <==> OtpRequestValid(b, isEmail)
  {
    Require("email", IsEmailOk(b.email, isEmail), IsEmail)
    + Require("otp", ExactLengthOk(b.otp, 6), ExactLength(6))
  }

  /** POST /password/update: email, password isLength(min 8), confirmation, token notEmpty. Never read. */
  function PasswordUpdateErrors(b: PasswordUpdateRequest, isEmail: string -> bool): (r: seq<FieldError>)
    ensures r == [] <==> PasswordUpdateValid(b, isEmail)
  {
    Require("email", IsEmailOk(b.email, isEmail), IsEmail)
    + Require("password", MinLengthOk(b.password, 8), MinLength(8))
    + Require("password_confirmation", b.passwordConfirmation == b.password, SameAs("password"))
    + Require("token", NotEmptyOk(b.token), NotEmpty)
  }

  /** POST /forgot-password and POST /resend-otp: email isEmail. Never read by either handler. */
  function EmailRequestErrors(b: EmailRequest, isEmail: string -> bool): (r: seq<FieldError>)
    ensures r == [] <==> EmailRequestValid(b, isEmail)
  {
    Require("email", IsEmailOk(b.email, isEmail), IsEmail)
  }

  /** POST /verify-email: email isEmail, token notEmpty. Never read by the handler. */
  function VerifyEmailRequestErrors(b: VerifyEmailRequest, isEmail: string -> bool): (r: seq<FieldError>)
    ensures r == [] <==> VerifyEmailRequestValid(b, isEmail)
  {
    Require("email", IsEmailOk(b.email, isEmail), IsEmail)
    + Require("token", NotEmptyOk(b.token), NotEmpty)
  }
}
