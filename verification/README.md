# Account state machine of the ChatApp authentication server

This project models, in Dafny, the account logic of the ChatApp Express server
(`index.js`): registration, login, the forgot-password request that issues a
one-hour reset token, the reset-link check, and the reset submission. Each route
handler is a pure function from the `users` table (a `seq<User>`, one element per
SQL row, in the order `rows[0]` would see them), the request's fields and the outside
inputs (the clock reading `now` in milliseconds, the 20 random bytes of the token,
the result of sending the mail) to an outcome and the next table.

Modules, leaves first:

- `Options`: the `Option` type used for SQL NULL and for "no row".
- `Bytes`: the octet type.
- `Hex`: lower-case hex encoding of bytes, which turns the 20 random bytes into the
  40-character token, with its decoder as the inverse.
- `Utf8`: the UTF-8 encoding through which a password string reaches bcrypt.
- `PasswordHash`: bcrypt as a symbolic term over its key, the first 72 bytes of the
  password's UTF-8 encoding. `Hash(p)` stands for the stored verifier and `Verify(p, v)`
  recomputes and compares. A password verifies against its own hash. Another password
  verifies exactly when its key is the same: never when both encodings fit in 72 bytes,
  and always when the two passwords share their first 72 characters.
- `UsersTable`: the `User` row, the two WHERE clauses (`Query`), `Select` (the index of
  `rows[0]`), the two UPDATE statements (`Assignment`, `Update`) and the table invariants.
- `Handlers`: the five handlers and their outcome types.
- `Server`: the server serving a trace of timestamped requests one at a time. `Step`
  stands for the route table that dispatches a request to its handler, and `Run` for
  serving the requests in order. Neither carries a contract of its own; the `Run*` and
  `Reachable*` lemmas state what they preserve.
- `Lifecycle`: lemmas that relate several requests. They cover the invariants every route
  keeps and the token's life from issue to single use.

Points of the code worth noting:

- The reset-link check answers with the reset form carrying the token, not with the account's email.
- The reset submission reads the row and then runs a separate UPDATE keyed by that row's
  email. It is not an atomic compare-and-clear. The model is sequential. In a
  sequential run this consumes the token exactly once, provided no other row holds
  the same token.
- Registration does not check that the email or password is non-empty.
- A failed mail send is a server error (HTTP 500) that comes after the token was stored.
  The model calls this outcome `SendFailed`.

## Model

| member | source | states |
|---|---|---|
| Hex.Encode | index.js:106 | the token has two lower-case hex digits per random byte |
| Hex.Decode | index.js:106 | a string decodes exactly when it has even length and only lower-case hex digits, into half as many bytes |
| Hex.DecodeEncode | index.js:106 | decoding a token gives back the random bytes it was made from |
| Hex.EncodeDecode | index.js:106 | every well-formed hex string is the token of the bytes it decodes to |
| Hex.EncodeInjective | index.js:106 | distinct random bytes give distinct tokens |
| Handlers.TokenOf | index.js:106 | a token drawn from 20 random bytes is 40 hex characters long and determines those bytes |
| PasswordHash.VerifyHash | index.js:84 | a password verifies against the verifier stored for it |
| Utf8.Encode | index.js:84 | a string of n characters encodes to between n and 4n bytes |
| Utf8.EncodeAppend | index.js:84 | the encoding of a concatenation is the concatenation of the encodings |
| Utf8.EncodeInjective | index.js:84 | distinct passwords have distinct UTF-8 encodings |
| PasswordHash.KeyIgnoresSuffix | index.js:84 | once a password's encoding reaches 72 bytes, appending anything leaves its bcrypt key unchanged |
| PasswordHash.VerifyIffSameKey | index.js:84 | a password verifies against another's hash exactly when their bcrypt keys are equal |
| PasswordHash.ShortPasswordsDistinct | index.js:84 | when both encodings fit in 72 bytes, a password verifies against another's hash exactly when the two are equal |
| PasswordHash.LongPasswordsCollide | index.js:84 | two passwords sharing their first 72 characters verify against each other's hash, whatever follows |
| UsersTable.Select | index.js:81-83 | the selected row is the first row the WHERE clause accepts, and there is none exactly when no row matches |
| Handlers.Register | index.js:60-75 | AlreadyExists exactly when some row has the email, leaving the table alone; otherwise one row with the password's hash and NULL reset columns is appended; unique emails stay unique |
| Handlers.Login | index.js:78-97 | the table never changes; NotFound exactly when no row has the email; Success exactly when the password verifies against the first such row (with unique emails: against the row of that email) |
| Handlers.ForgotPassword | index.js:100-140 | NoAccount exactly when no row has the email, leaving the table alone; otherwise the account's rows get the token and `now + 3600000`, every other row is unchanged, and the answer names the recipient exactly when the mail went out |
| Handlers.ValidateResetToken | index.js:43-56 | the table never changes; the reset form is shown exactly when some row holds the token with an expiry strictly after `now` |
| Handlers.ResetPassword | index.js:143-165 | differing passwords give PasswordsDiffer whatever the token, with the table unchanged; otherwise Updated exactly when some row holds the live token, and then the rows of the first such row's email get the new hash and NULL reset columns while all other rows are unchanged |
| Lifecycle.UpdateKeepsPaired | index.js:109 | neither UPDATE can leave a token without its expiry or the reverse |
| Lifecycle.UpdateKeepsUniqueEmails | index.js:156 | neither UPDATE can make two rows share an email |
| Lifecycle.RegisterKeepsConsistent | index.js:63-68 | registration keeps emails unique and reset columns paired |
| Lifecycle.ForgotPasswordKeepsConsistent | index.js:109 | issuing a token keeps emails unique and reset columns paired |
| Lifecycle.ResetPasswordKeepsConsistent | index.js:156 | a reset submission keeps emails unique and reset columns paired |
| Lifecycle.StepKeepsConsistent | index.js:60-165 | every route keeps emails unique and reset columns paired |
| Lifecycle.RunKeepsConsistent | index.js:60-165 | any sequence of requests keeps emails unique and reset columns paired |
| Lifecycle.ReachableIsConsistent | index.js:60-165 | every table reachable from an empty one has unique emails and paired reset columns |
| Lifecycle.StepKeepsUniqueTokens | index.js:106-109 | with unique emails, a route that issues a token no row holds keeps tokens unique |
| Lifecycle.RunKeepsUniqueTokens | index.js:106-109 | tokens stay unique along any trace whose issued tokens are fresh |
| Lifecycle.RegisterTwice | index.js:63-65 | registering an email again gives AlreadyExists and changes nothing |
| Lifecycle.RegisterThenLogin | index.js:84-85 | a new account logs in with exactly the passwords whose bcrypt key equals its password's |
| Lifecycle.LoginIgnoresPast72 | index.js:84-85 | a login attempt sharing the registered password's first 72 characters succeeds whatever follows |
| Lifecycle.StoredBeforeMail | index.js:109 | the stored token is the same whether or not the mail is delivered |
| Lifecycle.IssuedTokenWindow | index.js:46 | a fresh token issued at t validates at t' exactly when t' < t + 3600000 (the expiry of line 107 compared strictly) |
| Lifecycle.NewTokenReplacesOld | index.js:109 | a new token overwrites the account's token, and the previous one no longer validates at any time |
| Lifecycle.LiveTokenSelectsHolder | index.js:152-154 | with unique tokens, the reset lookup selects the row holding the live token |
| Lifecycle.ResetThenLogin | index.js:152-159 | after a reset with a live token, the new password logs in, every password with a different bcrypt key gets Mismatch, and the same token is rejected |
| Lifecycle.ResetIsSingleUse | index.js:156 | after one successful reset, any later submission with the same token is not Updated |
| Lifecycle.AccountSession | index.js:60-165 | register, login with the right password and with one whose bcrypt key differs, forgot-password, reset within the hour, login with the new password, and reusing the link all give the expected answers |

## Left out

- Express routing, EJS rendering, static files, body parsing and `app.listen`: web plumbing.
- dotenv, the environment-variable check, debug logging and the pg connection: process setup and I/O.
- The 500 "Server error" answers for database exceptions are not modelled. Each query is assumed to succeed.
- bcrypt's salt, cost factor 10 and constant-time comparison are left out. `Hash` is deterministic in the model, and one-wayness is not stated.
- PasswordHash.VerifyIffSameKey: beyond the 72-byte limit, the model assumes bcrypt is collision-free: two distinct keys never verify against each other.
- PasswordHash.Hash: the key is the first 72 bytes of the UTF-8 encoding. The model does not cover how the native binding treats an embedded NUL character, or how Node converts a JavaScript string with an unpaired surrogate (a Dafny `char` is always a Unicode scalar value).
- Lifecycle.RegisterThenLogin: its Mismatch half rests on the collision-free assumption stated for `PasswordHash.VerifyIffSameKey`.
- Lifecycle.ResetThenLogin: its Mismatch half rests on the same collision-free key assumption.
- Lifecycle.AccountSession: its Mismatch step rests on the same collision-free key assumption.
- `crypto.randomBytes` is left out. The 20 bytes are an input, and the model does not check that a token is fresh. Lemmas that need unique tokens assume freshness.
- The nodemailer transport and the mail text with its reset link are left out. Only whether the send succeeded is modelled, and it happens after the UPDATE.
- Concurrent requests and the race between the SELECT and the UPDATE of the reset submission are left out: the model serves one request at a time.
- The expiry is computed from the server's `Date.now()` but compared against the database's `NOW()`. The model uses one clock for both and does not model time zones or the column's precision.
- `SELECT` without `ORDER BY` returns rows in an order the database chooses. The model takes the table's order for `rows[0]`.
