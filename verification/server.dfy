/** The server handling one request at a time: a request is one of the five routes,
    stamped with the clock reading at which it is served. */
module Server {
  import opened PasswordHash
  import opened UsersTable
  import opened Handlers

  datatype Request =
    | PostRegister(email: string, password: string)
    | PostLogin(email: string, password: string)
    | PostForgotPassword(email: string, entropy: Entropy, mail: Delivery)
    | GetReset(token: string)
    | PostReset(token: string, password: string, confirmPassword: string)

  datatype Event = Event(request: Request, at: int)

  /** The table after serving one request */
  function Step(t: Table, e: Event): Table
  {
    match e.request
    case PostRegister(email, password) => Register(t, email, password).users
    case PostLogin(email, password) => Login(t, email, password).users
    case PostForgotPassword(email, entropy, mail) => ForgotPassword(t, email, entropy, e.at, mail).users
    case GetReset(token) => ValidateResetToken(t, token, e.at).users
    case PostReset(token, password, confirm) => ResetPassword(t, token, password, confirm, e.at).users
  }

  /** The table after serving the requests of `trace` in order */
  function Run(t: Table, trace: seq<Event>): Table
    decreases |trace|
  {
    if |trace| == 0 then t else Run(Step(t, trace[0]), trace[1..])
  }

  /** Every token the trace issues is held by no row when it is issued */
  ghost predicate IssuesFreshTokens(t: Table, trace: seq<Event>)
    decreases |trace|
  {
    |trace| == 0 ||
    ((trace[0].request.PostForgotPassword? ==> Fresh(t, TokenOf(trace[0].request.entropy)))
     && IssuesFreshTokens(Step(t, trace[0]), trace[1..]))
  }
}
