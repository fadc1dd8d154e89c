# Pinger backend core, modelled in Dafny

Pinger lets users register HTTP endpoints ("monitors") and shows whether
each one answers. This project models two services of its NestJS backend:

- **`MonitorsService`** (`monitors.dfy`, module `Monitors`). The monitor
  table is a class with a map field keyed by id and an autoincrement
  counter. The model covers the CRUD methods and `handleCron`, the periodic
  tick. A tick reads the active monitors once, then walks them in order.
  For each monitor it probes the URL and writes `up` or `down`. A probe
  that throws, or a write that fails, lands in the catch block, which
  writes `down`. If the catch block's own write throws, the error leaves
  the tick and the remaining monitors are not visited. The tick is
  specified by the pure function `Tick`, and the method `HandleCron` is
  proved to produce exactly its table and outcome. The lemmas are stated
  about `Tick` and `TickFrom`.
- **`AuthService`** (`auth.dfy`, module `Auth`). The user table is a class
  with a map keyed by email and an index from id to email. `register`
  lowercases the email, checks it against the domain allow-list and
  refuses existing accounts. A new account is stored as a pending `USER`.
  `login` refuses unknown emails and wrong passwords as Unauthorized, and
  after that refuses unapproved accounts as Forbidden. `updatePassword`
  checks the request and replaces one password hash. Every exception
  becomes an `AuthError` value that carries the service's exact message.

`wrappers.dfy` holds the `Option` and `Result` types both modules use.

Calls the model cannot see are passed in as parameters:

- Tick: the outcome of each `fetch` and of each Prisma `update` is read
  from a `TickOracle`. The oracle is indexed by the monitor's position in
  the snapshot: the probe result, whether the try-block write is accepted,
  and whether the catch-block write is accepted. A separate flag says
  whether the snapshot read succeeded, and the tick's timestamp is a
  parameter too.
- Accounts: `bcrypt.compare` and `jwtService.sign` are function-typed
  parameters. Nothing is assumed about them beyond what each lemma states
  as its precondition. What `bcrypt.hash` returns is a plain string
  parameter (`hashed`). bcrypt salts every call, so the model does not
  tie the hash to the password.

The model follows the code in two places where one might expect otherwise:

- The tick probes the monitors one after another, not concurrently.
- An error raised by the catch block's `down` write, such as Prisma's
  record-not-found when the monitor was deleted mid-tick, is not absorbed.
  It ends the tick, and the monitors after it keep their previous status.
  This is stated by `Monitors.DoubleWriteFailureEscapes` and
  `Monitors.TickFromRecords`.

## Model

| member | source | states |
|---|---|---|
| Monitors.InIdOrder | packages/backend/src/monitors/monitors.service.ts:63-67 | the listing holds every row exactly once, each row's own stored value, in strictly ascending id order |
| Monitors.ActiveSnapshot | packages/backend/src/monitors/monitors.service.ts:17-19 | the tick's snapshot holds exactly the active rows, each once, unchanged, and all of them are active |
| Monitors.Classify | packages/backend/src/monitors/monitors.service.ts:28 | a response is classified `up` exactly when its `ok` flag is set, otherwise `down`, never `pending` |
| Monitors.Stamp | packages/backend/src/monitors/monitors.service.ts:34-40 | a status write changes only `status` and `lastChecked`: id, name, url and isActive are kept |
| Monitors.WrittenStatus | packages/backend/src/monitors/monitors.service.ts:22-53 | a handled monitor ends `up` if and only if its probe returned a response with `ok` set and the try-block write was accepted; it never ends `pending` |
| Monitors.Handled | packages/backend/src/monitors/monitors.service.ts:22-53 | a monitor is handled when its probe returned a response and the try-block write was accepted, and whenever the catch-block write is accepted; a probe that threw is handled exactly when the catch-block write is accepted; a handled monitor had at least one write accepted |
| Monitors.CheckMonitor | packages/backend/src/monitors/monitors.service.ts:22-53 | one loop iteration keeps the table's key set; it succeeds if and only if the row still exists and either the try-block or the catch-block write lands; on success exactly that row is stamped with `WrittenStatus` and the tick's time; on failure the table is unchanged |
| Monitors.TickFrom | packages/backend/src/monitors/monitors.service.ts:21-54 | the loop never adds or removes rows, never reports a read failure, and an escaped error names a position of the snapshot |
| Monitors.Tick | packages/backend/src/monitors/monitors.service.ts:14-55 | a tick never adds or removes rows; it reports a read failure exactly when the snapshot read fails, and then it writes nothing; an escaped error names a position of the snapshot |
| Monitors.TickFromKeepsIdentity | packages/backend/src/monitors/monitors.service.ts:34-52 | after any tick, every row keeps its id, name, url and isActive |
| Monitors.TickFromUntouched | packages/backend/src/monitors/monitors.service.ts:21-54 | a row that no remaining snapshot entry names is left exactly as it was |
| Monitors.TickFromRecords | packages/backend/src/monitors/monitors.service.ts:21-54 | the loop is sequential: each monitor before the stop position is written once, with its `WrittenStatus` and the tick's time; each monitor from the stop position on is untouched |
| Monitors.TickFromOutcome | packages/backend/src/monitors/monitors.service.ts:21-54 | the tick completes if and only if every monitor is handled; an escaped error stops at the first monitor where no write landed |
| Monitors.TickLeavesInactiveAlone | packages/backend/src/monitors/monitors.service.ts:17-19 | an inactive monitor is never probed or written, whatever the oracle says |
| Monitors.TickWhenStoreAcceptsEveryWrite | packages/backend/src/monitors/monitors.service.ts:14-55 | when every write is accepted, the tick completes and every active monitor is stamped with the tick's time; it is `up` exactly when its probe returned `ok`, and no active monitor stays `pending` |
| Monitors.FailedProbeIsWrittenDown | packages/backend/src/monitors/monitors.service.ts:41-52 | a probe that throws (network error or the 5-second abort) is written `down`, and the loop continues with the next monitor |
| Monitors.DoubleWriteFailureEscapes | packages/backend/src/monitors/monitors.service.ts:41-52 | when both the try-block and the catch-block writes fail, the error ends the tick at that monitor and leaves the table as the earlier monitors left it |
| Monitors.ApplyUpdate | packages/backend/src/monitors/monitors.service.ts:73-78 | an update replaces exactly the fields present in the DTO and keeps the others, including id, status and lastChecked; the row's identity changes if and only if some present field differs |
| Monitors.ApplyUpdateIdempotent | packages/backend/src/monitors/monitors.service.ts:73-78 | applying the same update twice equals applying it once |
| Monitors.MonitorsService.constructor | packages/backend/src/monitors/monitors.service.ts:11 | the service starts with an empty, well-formed table |
| Monitors.MonitorsService.HandleCron | packages/backend/src/monitors/monitors.service.ts:14-55 | the method's new table and outcome are exactly `Tick` of the old table; the table stays keyed by id and the id counter is unchanged |
| Monitors.MonitorsService.CheckOne | packages/backend/src/monitors/monitors.service.ts:22-53 | the loop body's effect on the table and its success flag are exactly `CheckMonitor` of the old table |
| Monitors.MonitorsService.Create | packages/backend/src/monitors/monitors.service.ts:57-61 | a new row gets a fresh id, the DTO's name and url, isActive defaulting to true, status `pending` and no last check; no other row changes |
| Monitors.MonitorsService.FindAll | packages/backend/src/monitors/monitors.service.ts:63-67 | returns every stored row once, in ascending id order |
| Monitors.MonitorsService.FindOne | packages/backend/src/monitors/monitors.service.ts:69-71 | returns nothing if and only if no row has that id; otherwise returns exactly the row stored under that id |
| Monitors.MonitorsService.Update | packages/backend/src/monitors/monitors.service.ts:73-78 | a missing id is an error and changes nothing; otherwise only that row is replaced, by `ApplyUpdate`, and returned |
| Monitors.MonitorsService.Remove | packages/backend/src/monitors/monitors.service.ts:80-82 | a missing id is an error and changes nothing; otherwise exactly that row is deleted and returned |
| Auth.LowerChar | packages/backend/src/auth/auth.service.ts:44 | maps `A`-`Z` to the matching lower-case letter and leaves every other character unchanged |
| Auth.Lower | packages/backend/src/auth/auth.service.ts:44 | lowercasing keeps the length, lowercases each character in place and leaves no upper-case letter |
| Auth.LowerOfLower | packages/backend/src/auth/auth.service.ts:44 | a string with no upper-case letter is its own lowercase |
| Auth.LowerIdempotent | packages/backend/src/auth/auth.service.ts:44 | lowercasing twice is lowercasing once |
| Auth.AnyEndsWith | packages/backend/src/auth/auth.service.ts:47 | the `some`/`endsWith` test holds if and only if some listed suffix ends the email |
| Auth.EndsWithMeansSuffix | packages/backend/src/auth/auth.service.ts:47 | `endsWith` holds if and only if the string is some prefix followed by the suffix |
| Auth.IsDomainValid | packages/backend/src/auth/auth.service.ts:46-47 | an email passes the allow-list if and only if it ends with `@outlook.com`, `@hotmail.com` or `@gmail.com` |
| Auth.AllowedDomainsAreLower | packages/backend/src/auth/auth.service.ts:46 | none of the three allowed suffixes contains an upper-case letter |
| Auth.LowerKeepsLowerSuffix | packages/backend/src/auth/auth.service.ts:44-47 | lowercasing an email keeps any lower-case suffix it ends with |
| Auth.LoweringKeepsAllowedDomain | packages/backend/src/auth/auth.service.ts:44-47 | an email that already ends with an allowed suffix still passes the allow-list after lowercasing |
| Auth.ForeignDomainRefused | packages/backend/src/auth/auth.service.spec.ts:129-139 | `hacker@virus.com` fails the allow-list |
| Auth.GmailAccepted | packages/backend/src/auth/auth.service.spec.ts:109-127 | `novo@gmail.com` passes the allow-list |
| Auth.HotmailAccepted | packages/backend/src/auth/auth.service.ts:46-47 | `test@hotmail.com` passes the allow-list |
| Auth.Login | packages/backend/src/auth/auth.service.ts:16-41 | login is refused as Unauthorized if and only if the email is unknown or the password does not match; it succeeds if and only if, in addition, the account is approved; on success the token is signed over id, email and role, and the returned user has name, email and role but no password |
| Auth.WrongPasswordBeforeApproval | packages/backend/src/auth/auth.service.ts:21-27 | a wrong password on a pending account is Unauthorized, not Forbidden: the password is checked first |
| Auth.LoginIsCaseSensitive | packages/backend/src/auth/auth.service.ts:17-19 | when all stored emails are lower case, an email with an upper-case letter matches no account, whatever the password |
| Auth.RegisterCheck | packages/backend/src/auth/auth.service.ts:46-63 | registration may go ahead if and only if the lowercased email is in an allowed domain and not yet stored; otherwise it is a BadRequest whose message names the failed domain test, a pending account, or an approved one |
| Auth.Registered | packages/backend/src/auth/auth.service.ts:67-75 | registration stores one row under the lowercased email (a new row, growing the table by one, when that email was not stored, which `RegisterCheck` guarantees before `Register` calls it), holding the hash, the name, role `USER` and not approved; every other row is unchanged |
| Auth.FreshAccountIsPending | packages/backend/src/auth/auth.service.ts:73 | a freshly registered account, given the right password, is refused as Forbidden until approved |
| Auth.MixedCaseRegistrationCannotLogIn | packages/backend/src/auth/auth.service.ts:17-19 | as written, an account registered with an upper-case letter in its email is refused as Unauthorized when it logs in with that same email and the right password |
| Auth.LoginNormalized | packages/backend/src/auth/auth.service.ts:16-41 | corrected login: succeeds if and only if the lowercased email is stored, the password matches and the account is approved |
| Auth.LoginNormalizedIgnoresCase | packages/backend/src/auth/auth.service.ts:17-19 | the corrected login gives the same answer for an email and for its lowercase |
| Auth.LoginNormalizedAgreesOnLowerCase | packages/backend/src/auth/auth.service.ts:16-41 | on a lower-case email the corrected login is the login as written |
| Auth.RegisteredAccountIsFoundByNormalizedLogin | packages/backend/src/auth/auth.service.ts:44 | with the corrected login, a fresh account logging in with the exact email it registered with is found, and refused only as pending |
| Auth.Missing | packages/backend/src/auth/auth.service.ts:85 | defines JavaScript's `!value` on an optional string: absent or empty |
| Auth.PasswordChangeCheck | packages/backend/src/auth/auth.service.ts:85-96 | a missing or empty password field is a BadRequest, checked first, and is the only BadRequest (an empty string counts as missing); then an unknown user is Unauthorized "Usuário não encontrado."; then a wrong current password is Unauthorized "A senha atual está incorreta."; the change goes ahead if and only if both fields are present, the user exists and the current password matches |
| Auth.WithPassword | packages/backend/src/auth/auth.service.ts:100-103 | a password change replaces only that user's password, and no other row or field |
| Auth.NewPasswordLogsIn | packages/backend/src/auth/auth.service.ts:98-103 | after a password change, an approved user logs in with the new password |
| Auth.AuthService.constructor | packages/backend/src/auth/auth.service.ts:11-14 | the service starts with an empty, well-formed user table |
| Auth.AuthService.FindById | packages/backend/src/auth/auth.service.ts:89 | finds the user with that id, or nothing if and only if no user has it |
| Auth.AuthService.Register | packages/backend/src/auth/auth.service.ts:43-82 | on a `RegisterCheck` error, returns it and changes nothing; otherwise stores `Registered` with the given hash under a fresh id and returns the review message; every stored email stays lower case and equal to its key |
| Auth.AuthService.UpdatePassword | packages/backend/src/auth/auth.service.ts:84-106 | on a `PasswordChangeCheck` error for that id's user, returns it and changes nothing; otherwise replaces only that user's password with the given hash of the new one and returns the success message |

## Left out

- Network probing (`fetch` with `AbortSignal.timeout(5000)`) is not modelled: each probe's result, or its exception, is an oracle value.
- The cron schedule (every 10 minutes), overlapping ticks and logging are not modelled; one call of `HandleCron` is one tick.
- Prisma is not modelled as a database: each table is a map, and the autoincrement is a counter that hands out 1, 2, 3, and so on.
- A row deleted concurrently during a tick is not modelled as a separate event: its effect, a write that throws, is what the write oracle says.
- `Monitors.MonitorsService.HandleCron`: one timestamp serves the whole tick, whereas the code reads the clock at each write.
- `Monitors.ActiveSnapshot`: `findMany` without `orderBy` returns rows in an order the database chooses; the model fixes ascending id.
- `Auth.Lower`: only ASCII `A`-`Z` are lowercased; JavaScript's `toLowerCase` also maps other Unicode letters.
- bcrypt (salt, cost 10) and JWT signing are not modelled: the hash is a string parameter, and comparison and signing are opaque function parameters.
- The controllers, the DTO validation classes, `createdAt` and the frontend are not part of this model.
- `Auth.Login` is a function over the table rather than a class method, because login does not change state.

## Findings

| source | as written | input that shows it | evidently intended | confidence | as-written member | corrected member |
|---|---|---|---|---|---|---|
| packages/backend/src/auth/auth.service.ts:17-19 | `register` stores the email lowercased, but `login` looks up the email exactly as typed | register `Ana@gmail.com` / `123`; an administrator approves; log in with `Ana@gmail.com` / `123`: Unauthorized "Email ou senha incorretos." | login lowercases the email before the lookup, as `register` does | medium, not executed | Auth.MixedCaseRegistrationCannotLogIn | Auth.LoginNormalized |
