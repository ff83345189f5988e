/** The POST handlers `/register`, `/login`, `/forgotpassword`, `/reset/:token` and the
    GET `/reset/:token` validation, each a pure transition from the users table (plus the
    request, the clock and the other outside inputs) to an outcome and the next table. */
module Handlers {
  import opened Options
  import opened Bytes
  import opened Hex
  import opened PasswordHash
  import opened UsersTable

  /** A reset token expires one hour after it is issued */
  const ResetWindowMs: int := 3600000

  /** `crypto.randomBytes(20)` */
  const TokenBytes: nat := 20

  type Entropy = s: seq<byte> | |s| == TokenBytes witness seq(TokenBytes, i => 0 as byte)

  /** `crypto.randomBytes(20).toString('hex')` */
  function TokenOf(entropy: Entropy): (token: string)
    ensures |token| == 2 * TokenBytes
    ensures AllHexDigits(token)
    ensures Decode(token) == Some(entropy)
  {
    DecodeEncode(entropy);
    Encode(entropy)
  }

  /** What a handler answers and the table it leaves behind */
  datatype Response<O> = Response(outcome: O, users: Table)

  // ---------------------------------------------------------------- register

  datatype RegisterOutcome =
    | Created        // renders 'secrets'
    | AlreadyExists  // 'Email already exists. Try logging in.'

  /** POST /register */
  function Register(t: Table, email: string, password: string): (r: Response<RegisterOutcome>)
    ensures r.outcome == AlreadyExists <==> exists i :: 0 <= i < |t| && t[i].email == email
    ensures r.outcome == AlreadyExists ==> r.users == t
    ensures r.outcome == Created ==> r.users == t + [NewUser(email, Hash(password))]
    ensures UniqueEmails(t) ==> UniqueEmails(r.users)
  {
    match Select(t, EmailIs(email))
    case Some(_) => Response(AlreadyExists, t)
    case None => Response(Created, t + [NewUser(email, Hash(password))])
  }

  // ---------------------------------------------------------------- login

  datatype LoginOutcome =
    | Success   // redirect to /chat
    | Mismatch  // 'Incorrect Information'
    | NotFound  // 'User not found'

  /** POST /login: the password is checked against the first row with the email */
  function Login(t: Table, email: string, password: string): (r: Response<LoginOutcome>)
    ensures r.users == t
    ensures r.outcome == NotFound <==> forall i :: 0 <= i < |t| ==> t[i].email != email
    ensures r.outcome == Success <==> exists i :: FirstMatch(t, EmailIs(email), i) && Verify(password, t[i].password)
    ensures UniqueEmails(t) ==>
      (r.outcome == Success <==> exists i :: 0 <= i < |t| && t[i].email == email && Verify(password, t[i].password))
  {
    match Select(t, EmailIs(email))
    case None => Response(NotFound, t)
    case Some(i) => Response(if Verify(password, t[i].password) then Success else Mismatch, t)
  }

  // ---------------------------------------------------------------- forgot password

  /** The result of `transporter.sendMail`, which the model does not perform */
  datatype Delivery = Delivered | DeliveryFailed

  datatype ForgotOutcome =
    | MailSent(recipient: string) // 'An e-mail has been sent to <recipient> ...'
    | SendFailed                  // sendMail threw: 500, after the token was stored
    | NoAccount                   // 'No account with that email address exists.'

  /** POST /forgotpassword: store a fresh token and its expiry on the account, then mail it */
  function ForgotPassword(t: Table, email: string, entropy: Entropy, now: int, mail: Delivery): (r: Response<ForgotOutcome>)
    ensures r.outcome == NoAccount <==> forall i :: 0 <= i < |t| ==> t[i].email != email
    ensures r.outcome == NoAccount ==> r.users == t
    ensures r.outcome != NoAccount ==> r.outcome == (if mail == Delivered then MailSent(email) else SendFailed)
    ensures |r.users| == |t|
    ensures forall i :: 0 <= i < |t| && t[i].email != email ==> r.users[i] == t[i]
    ensures r.outcome != NoAccount ==>
      forall i :: 0 <= i < |t| && t[i].email == email ==>
        r.users[i] == t[i].(resetToken := Some(TokenOf(entropy)), resetExpires := Some(now + ResetWindowMs))
  {
    match Select(t, EmailIs(email))
    case None => Response(NoAccount, t)
    case Some(i) =>
      var token := TokenOf(entropy);
      var users := Update(t, email, SetReset(token, now + ResetWindowMs));
      // the UPDATE is awaited before the mail is sent, so it stands whatever the send does
      Response(if mail == Delivered then MailSent(t[i].email) else SendFailed, users)
  }

  // ---------------------------------------------------------------- reset link

  datatype ValidateOutcome =
    | ShowResetForm(token: string) // renders 'reset' with the token
    | LinkInvalid                  // 'Password reset token is invalid or has expired.'

  /** GET /reset/:token */
  function ValidateResetToken(t: Table, token: string, now: int): (r: Response<ValidateOutcome>)
    ensures r.users == t
    ensures r.outcome.ShowResetForm? <==> exists i :: 0 <= i < |t| && Live(t[i], token, now)
    ensures r.outcome.ShowResetForm? ==> r.outcome.token == token
  {
    match Select(t, LiveToken(token, now))
    case None => Response(LinkInvalid, t)
    case Some(_) => Response(ShowResetForm(token), t)
  }

  // ---------------------------------------------------------------- reset submission

  datatype ResetOutcome =
    | Updated         // 'Your password has been updated.'
    | PasswordsDiffer // 'Passwords do not match.'
    | TokenRejected   // 'Password reset token is invalid or has expired.'

  /** POST /reset/:token: the passwords are compared before the table is read; then the
      first row holding the live token is found and every row with that row's email gets
      the new verifier and has both reset columns cleared */
  function ResetPassword(t: Table, token: string, password: string, confirmPassword: string, now: int): (r: Response<ResetOutcome>)
    ensures r.outcome == PasswordsDiffer <==> password != confirmPassword
    ensures password != confirmPassword ==> r.users == t
    ensures password == confirmPassword ==>
      (r.outcome == Updated <==> exists i :: 0 <= i < |t| && Live(t[i], token, now))
    ensures r.outcome != Updated ==> r.users == t
    ensures r.outcome == Updated ==>
      exists i :: FirstMatch(t, LiveToken(token, now), i) &&
        |r.users| == |t| &&
        (forall j :: 0 <= j < |t| && t[j].email != t[i].email ==> r.users[j] == t[j]) &&
        (forall j :: 0 <= j < |t| && t[j].email == t[i].email ==>
           r.users[j] == t[j].(password := Hash(password), resetToken := None, resetExpires := None))
  {
    if password != confirmPassword then Response(PasswordsDiffer, t)
    else match Select(t, LiveToken(token, now))
      case None => Response(TokenRejected, t)
      case Some(i) => Response(Updated, Update(t, t[i].email, SetPassword(Hash(password))))
  }
}
