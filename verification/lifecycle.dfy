/** Properties of the account state machine that relate several requests: the table
    invariants every route keeps, and the life of a reset token from issue to use. */
module Lifecycle {
  import opened Options
  import opened PasswordHash
  import opened UsersTable
  import opened Handlers
  import opened Server

  // ---------------------------------------------------------------- invariants

  /** A row after an UPDATE keeps its token and expiry paired */
  lemma UpdateKeepsPaired(t: Table, email: string, a: Assignment)
    requires ResetFieldsPaired(t)
    ensures ResetFieldsPaired(Update(t, email, a))
  {
    var r := Update(t, email, a);
    forall i | 0 <= i < |r|
      ensures Paired(r[i])
    {
      if t[i].email == email {
        assert r[i] == Assign(t[i], a);
      }
    }
  }

  /** An UPDATE never changes an email, so it keeps emails unique */
  lemma UpdateKeepsUniqueEmails(t: Table, email: string, a: Assignment)
    requires UniqueEmails(t)
    ensures UniqueEmails(Update(t, email, a))
  {
    var r := Update(t, email, a);
    assert forall i :: 0 <= i < |r| ==> r[i].email == t[i].email;
  }

  /** Registration keeps the invariant: it inserts only a new email, with NULL reset columns */
  lemma RegisterKeepsConsistent(t: Table, email: string, password: string)
    requires Consistent(t)
    ensures Consistent(Register(t, email, password).users)
  {
    var r := Register(t, email, password);
    if r.outcome == Created {
      assert Paired(NewUser(email, Hash(password)));
    }
  }

  /** Issuing a token keeps the invariant: it sets token and expiry together */
  lemma ForgotPasswordKeepsConsistent(t: Table, email: string, entropy: Entropy, now: int, mail: Delivery)
    requires Consistent(t)
    ensures Consistent(ForgotPassword(t, email, entropy, now, mail).users)
  {
    if Select(t, EmailIs(email)).Some? {
      var a := SetReset(TokenOf(entropy), now + ResetWindowMs);
      UpdateKeepsPaired(t, email, a);
      UpdateKeepsUniqueEmails(t, email, a);
      assert ForgotPassword(t, email, entropy, now, mail).users == Update(t, email, a);
    }
  }

  /** A reset submission keeps the invariant: it clears token and expiry together */
  lemma ResetPasswordKeepsConsistent(t: Table, token: string, password: string, confirm: string, now: int)
    requires Consistent(t)
    ensures Consistent(ResetPassword(t, token, password, confirm, now).users)
  {
    var i := Select(t, LiveToken(token, now));
    if password == confirm && i.Some? {
      var a := SetPassword(Hash(password));
      UpdateKeepsPaired(t, t[i.value].email, a);
      UpdateKeepsUniqueEmails(t, t[i.value].email, a);
      assert ResetPassword(t, token, password, confirm, now).users == Update(t, t[i.value].email, a);
    }
  }

  /** Every route keeps emails unique and reset fields paired */
  lemma StepKeepsConsistent(t: Table, e: Event)
    requires Consistent(t)
    ensures Consistent(Step(t, e))
  {
    match e.request
    case PostRegister(email, password) =>
      RegisterKeepsConsistent(t, email, password);
    case PostLogin(_, _) =>
    case PostForgotPassword(email, entropy, mail) =>
      ForgotPasswordKeepsConsistent(t, email, entropy, e.at, mail);
    case GetReset(_) =>
    case PostReset(token, password, confirm) =>
      ResetPasswordKeepsConsistent(t, token, password, confirm, e.at);
  }

  /** Any sequence of requests keeps the invariant */
  lemma {:induction false} RunKeepsConsistent(t: Table, trace: seq<Event>)
    requires Consistent(t)
    ensures Consistent(Run(t, trace))
    decreases |trace|
  {
    if |trace| > 0 {
      StepKeepsConsistent(t, trace[0]);
      RunKeepsConsistent(Step(t, trace[0]), trace[1..]);
    }
  }

  /** Every table the server can reach from an empty one is consistent */
  lemma ReachableIsConsistent(trace: seq<Event>)
    ensures Consistent(Run([], trace))
  {
    RunKeepsConsistent([], trace);
  }

  /** With unique emails, a route that issues only fresh tokens keeps tokens unique */
  lemma StepKeepsUniqueTokens(t: Table, e: Event)
    requires UniqueEmails(t) && UniqueTokens(t)
    requires e.request.PostForgotPassword? ==> Fresh(t, TokenOf(e.request.entropy))
    ensures UniqueTokens(Step(t, e))
  {
    match e.request
    case PostRegister(email, password) =>
    case PostLogin(_, _) =>
    case PostForgotPassword(email, entropy, mail) =>
    case GetReset(_) =>
    case PostReset(token, password, confirm) =>
  }

  /** Tokens stay unique along any trace that issues only fresh tokens */
  lemma {:induction false} RunKeepsUniqueTokens(t: Table, trace: seq<Event>)
    requires Consistent(t) && UniqueTokens(t)
    requires IssuesFreshTokens(t, trace)
    ensures UniqueTokens(Run(t, trace))
    decreases |trace|
  {
    if |trace| > 0 {
      StepKeepsUniqueTokens(t, trace[0]);
      StepKeepsConsistent(t, trace[0]);
      RunKeepsUniqueTokens(Step(t, trace[0]), trace[1..]);
    }
  }

  // ---------------------------------------------------------------- register and login

  /** Registering an email a second time is refused and changes nothing */
  lemma RegisterTwice(t: Table, email: string, password: string, again: string)
    ensures var r1 := Register(t, email, password);
            var r2 := Register(r1.users, email, again);
            r2.outcome == AlreadyExists && r2.users == r1.users
  {
    var r1 := Register(t, email, password);
    if r1.outcome == Created {
      assert r1.users[|t|].email == email;
    }
  }

  /** A freshly registered account logs in with exactly the passwords whose bcrypt key
      is that of its password */
  lemma RegisterThenLogin(t: Table, email: string, password: string, attempt: string)
    requires Register(t, email, password).outcome == Created
    ensures var u := Register(t, email, password).users;
            Login(u, email, attempt).outcome == (if Key(attempt) == Key(password) then Success else Mismatch)
  {
    var u := Register(t, email, password).users;
    assert FirstMatch(u, EmailIs(email), |t|);
  }

  /** bcrypt reads only the first 72 bytes of a password, so a login attempt that shares
      the registered password's first 72 characters succeeds whatever follows them */
  lemma LoginIgnoresPast72(t: Table, email: string, prefix: string, rest: string, otherRest: string)
    requires |prefix| >= KeyLimit
    requires Register(t, email, prefix + rest).outcome == Created
    ensures Login(Register(t, email, prefix + rest).users, email, prefix + otherRest).outcome == Success
  {
    LongPasswordsCollide(prefix, otherRest, rest);
    RegisterThenLogin(t, email, prefix + rest, prefix + otherRest);
  }

  // ---------------------------------------------------------------- issuing a token

  /** The table a forgot-password request leaves is the same whether or not the mail
      goes out: the token is stored before the mail is sent */
  lemma StoredBeforeMail(t: Table, email: string, entropy: Entropy, now: int)
    ensures ForgotPassword(t, email, entropy, now, Delivered).users
         == ForgotPassword(t, email, entropy, now, DeliveryFailed).users
  {
  }

  /** A token issued at `now` for a fresh token validates at exactly the times strictly
      before `now + ResetWindowMs` */
  lemma IssuedTokenWindow(t: Table, email: string, entropy: Entropy, now: int, mail: Delivery, at: int)
    requires exists i :: 0 <= i < |t| && t[i].email == email
    requires Fresh(t, TokenOf(entropy))
    ensures var u := ForgotPassword(t, email, entropy, now, mail).users;
            ValidateResetToken(u, TokenOf(entropy), at).outcome.ShowResetForm? <==> at < now + ResetWindowMs
  {
    var r := ForgotPassword(t, email, entropy, now, mail);
    var token := TokenOf(entropy);
    var i :| 0 <= i < |t| && t[i].email == email;
    assert r.outcome != NoAccount;
    if at < now + ResetWindowMs {
      assert Live(r.users[i], token, at);
    }
    if exists j :: 0 <= j < |r.users| && Live(r.users[j], token, at) {
      var j :| 0 <= j < |r.users| && Live(r.users[j], token, at);
      assert t[j].email == email;
    }
  }

  /** Issuing a new token for an account replaces its previous one: the previous token no longer
      opens a reset form at any time, provided no other row held it */
  lemma NewTokenReplacesOld(t: Table, i: int, previous: string, entropy: Entropy, now: int, mail: Delivery, at: int)
    requires 0 <= i < |t| && t[i].resetToken == Some(previous)
    requires UniqueTokens(t)
    requires previous != TokenOf(entropy)
    ensures var u := ForgotPassword(t, t[i].email, entropy, now, mail).users;
            u[i].resetToken == Some(TokenOf(entropy)) &&
            ValidateResetToken(u, previous, at).outcome == LinkInvalid
  {
    var u := ForgotPassword(t, t[i].email, entropy, now, mail).users;
    forall j | 0 <= j < |u|
      ensures !Live(u[j], previous, at)
    {
      if j != i && t[j].email != t[i].email {
        if j < i {
          assert t[j].resetToken != t[i].resetToken;
        } else {
          assert t[i].resetToken != t[j].resetToken;
        }
      }
    }
  }

  // ---------------------------------------------------------------- using a token

  /** The row a live token selects, when tokens are unique, is the one holding it */
  lemma LiveTokenSelectsHolder(t: Table, i: int, token: string, now: int)
    requires UniqueTokens(t)
    requires 0 <= i < |t| && Live(t[i], token, now)
    ensures Select(t, LiveToken(token, now)) == Some(i)
  {
  }

  /** Submitting matching passwords with a live token updates the holder's password:
      afterwards the new password logs in, every password with another bcrypt key is
      refused, and the token no longer resets anything */
  lemma ResetThenLogin(t: Table, i: int, token: string, password: string, now: int, attempt: string, later: int, next: string)
    requires UniqueTokens(t)
    requires 0 <= i < |t| && Live(t[i], token, now)
    ensures var r := ResetPassword(t, token, password, password, now);
            r.outcome == Updated &&
            Login(r.users, t[i].email, attempt).outcome == (if Key(attempt) == Key(password) then Success else Mismatch) &&
            ResetPassword(r.users, token, next, next, later).outcome == TokenRejected
  {
    LiveTokenSelectsHolder(t, i, token, now);
    var r := ResetPassword(t, token, password, password, now);
    var k := Select(r.users, EmailIs(t[i].email)).value;
    assert r.users[k].password == Hash(password);
    forall j | 0 <= j < |r.users|
      ensures !Live(r.users[j], token, later)
    {
      if t[j].email != t[i].email {
        if j < i {
          assert t[j].resetToken != t[i].resetToken;
        } else if j > i {
          assert t[i].resetToken != t[j].resetToken;
        }
      }
    }
  }

  /** A token is used at most once: after one successful reset, a second submission
      with the same token is rejected, whenever it comes */
  lemma ResetIsSingleUse(t: Table, token: string, password: string, now: int, again: string, confirmAgain: string, later: int)
    requires UniqueTokens(t)
    requires ResetPassword(t, token, password, password, now).outcome == Updated
    ensures var u := ResetPassword(t, token, password, password, now).users;
            ResetPassword(u, token, again, confirmAgain, later).outcome != Updated
  {
    var i :| 0 <= i < |t| && Live(t[i], token, now);
    if again == confirmAgain {
      ResetThenLogin(t, i, token, password, now, password, later, again);
    }
  }

  // ---------------------------------------------------------------- a whole session

  /** Register, log in, ask for a reset, reset within the hour, log in with the new
      password, and try the link again: every answer is the expected one */
  lemma AccountSession(email: string, pw1: string, wrong: string, pw2: string, pw3: string,
                          entropy: Entropy, t0: int, t1: int, t2: int)
    requires Key(wrong) != Key(pw1)
    requires t0 <= t1 < t0 + ResetWindowMs
    ensures var s1 := Register([], email, pw1);
            var s2 := ForgotPassword(s1.users, email, entropy, t0, Delivered);
            var s3 := ResetPassword(s2.users, TokenOf(entropy), pw2, pw2, t1);
            && s1.outcome == Created
            && Login(s1.users, email, pw1).outcome == Success
            && Login(s1.users, email, wrong).outcome == Mismatch
            && s2.outcome == MailSent(email)
            && ValidateResetToken(s2.users, TokenOf(entropy), t1).outcome == ShowResetForm(TokenOf(entropy))
            && s3.outcome == Updated
            && Login(s3.users, email, pw2).outcome == Success
            && ResetPassword(s3.users, TokenOf(entropy), pw3, pw3, t2).outcome == TokenRejected
  {
    var s1 := Register([], email, pw1);
    assert s1.users == [NewUser(email, Hash(pw1))];
    RegisterThenLogin([], email, pw1, pw1);
    RegisterThenLogin([], email, pw1, wrong);
    IssuedTokenWindow(s1.users, email, entropy, t0, Delivered, t1);
    var s2 := ForgotPassword(s1.users, email, entropy, t0, Delivered);
    assert |s2.users| == 1 && Live(s2.users[0], TokenOf(entropy), t1);
    ResetThenLogin(s2.users, 0, TokenOf(entropy), pw2, t1, pw2, t2, pw3);
  }
}
