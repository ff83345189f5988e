/** The `users` table as a value: a sequence of rows, the WHERE clauses the handlers
    query it with, `rows[0]` of a SELECT, and the two UPDATE statements. */
module UsersTable {
  import opened Options
  import opened PasswordHash

  /** One row: `email`, `password` (the verifier), `reset_password_token`,
      `reset_password_expires` (milliseconds since the epoch). None is SQL NULL. */
  datatype User = User(email: string, password: Verifier, resetToken: Option<string>, resetExpires: Option<int>)

  type Table = seq<User>

  /** The row INSERT INTO users (email, password) creates: both reset columns NULL */
  function NewUser(email: string, verifier: Verifier): (u: User)
    ensures u.email == email && u.password == verifier
    ensures u.resetToken.None? && u.resetExpires.None?
  {
    User(email, verifier, None, None)
  }

  /** The reset token of `u` is `token` and has not expired at `now`.
      A NULL column never satisfies the comparison, as in SQL. */
  predicate Live(u: User, token: string, now: int)
  {
    u.resetToken == Some(token) && u.resetExpires.Some? && u.resetExpires.value > now
  }

  /** The WHERE clauses of the handlers' SELECTs */
  datatype Query =
    | EmailIs(email: string)            // WHERE email = $1
    | LiveToken(token: string, now: int) // WHERE reset_password_token = $1 AND reset_password_expires > NOW()

  predicate Matches(u: User, q: Query)
  {
    match q
    case EmailIs(e) => u.email == e
    case LiveToken(token, now) => Live(u, token, now)
  }

  /** Row `i` is the first row of `t` the query selects */
  ghost predicate FirstMatch(t: Table, q: Query, i: int)
  {
    0 <= i < |t| && Matches(t[i], q) && forall j :: 0 <= j < i ==> !Matches(t[j], q)
  }

  /** `result.rows[0]`: the index of the first selected row, or None when
      `result.rows.length` is 0 */
  function Select(t: Table, q: Query): (r: Option<nat>)
    ensures r.Some? ==> FirstMatch(t, q, r.value)
    ensures r.None? <==> forall j :: 0 <= j < |t| ==> !Matches(t[j], q)
  {
    if |t| == 0 then None
    else if Matches(t[0], q) then Some(0)
    else match Select(t[1..], q)
      case None => None
      case Some(k) => Some(k + 1)
  }

  /** The SET lists of the two UPDATE statements */
  datatype Assignment =
    | SetReset(token: string, expires: int) // SET reset_password_token = $1, reset_password_expires = $2
    | SetPassword(verifier: Verifier)       // SET password = $1, reset_password_token = NULL, reset_password_expires = NULL

  /** The row after the assignment: the email never changes, and the
      columns the SET list does not name keep their values */
  function Assign(u: User, a: Assignment): (v: User)
    ensures v.email == u.email
    ensures a.SetReset? ==> v.password == u.password
    ensures a.SetReset? ==> v.resetToken == Some(a.token) && v.resetExpires == Some(a.expires)
    ensures a.SetPassword? ==> v.password == a.verifier && v.resetToken.None? && v.resetExpires.None?
  {
    match a
    case SetReset(token, expires) => u.(resetToken := Some(token), resetExpires := Some(expires))
    case SetPassword(verifier) => u.(password := verifier, resetToken := None, resetExpires := None)
  }

  /** UPDATE users SET ... WHERE email = `email`: every row with that email is
      assigned, every other row is left alone, and no row is added or removed */
  function Update(t: Table, email: string, a: Assignment): (r: Table)
    ensures |r| == |t|
    ensures forall i :: 0 <= i < |t| && t[i].email == email ==> r[i] == Assign(t[i], a)
    ensures forall i :: 0 <= i < |t| && t[i].email != email ==> r[i] == t[i]
  {
    seq(|t|, i requires 0 <= i < |t| => if t[i].email == email then Assign(t[i], a) else t[i])
  }

  /** No two rows share an email; the register handler checks this before inserting */
  ghost predicate UniqueEmails(t: Table)
  {
    forall i, j :: 0 <= i < j < |t| ==> t[i].email != t[j].email
  }

  /** The token and its expiry are both NULL or both set */
  ghost predicate Paired(u: User)
  {
    u.resetToken.Some? <==> u.resetExpires.Some?
  }

  ghost predicate ResetFieldsPaired(t: Table)
  {
    forall i :: 0 <= i < |t| ==> Paired(t[i])
  }

  /** The invariant every handler preserves */
  ghost predicate Consistent(t: Table)
  {
    UniqueEmails(t) && ResetFieldsPaired(t)
  }

  /** No two rows hold the same reset token. This holds only while every issued
      token is fresh, which the source leaves to the randomness of the token. */
  ghost predicate UniqueTokens(t: Table)
  {
    forall i, j :: 0 <= i < j < |t| && t[i].resetToken.Some? ==> t[i].resetToken != t[j].resetToken
  }

  /** No row holds `token` */
  ghost predicate Fresh(t: Table, token: string)
  {
    forall i :: 0 <= i < |t| ==> t[i].resetToken != Some(token)
  }
}
