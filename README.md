# Student-score backend: a Dafny model of its record store and handlers

The backend keeps one JSON document, `{ users: { [username]: account } }`.
Each account holds a password hash, stored under the field `password`, and an
ordered list of student records. A student record has an `id`, a `name` and
six score keys: `diemTX1`..`diemTX4`, `diemGK` and `diemCK`. A bearer-token
middleware answers 401 when there is no token and 403 when the token does
not verify. Otherwise it passes the decoded claim on. Each route handler then
runs one load-mutate-save cycle. It loads the whole document, creating
`{ users: {} }` first when the file is missing. It changes the loaded copy in
place, and it writes the whole copy back only on success.

The model has three modules:

- `Records` (`records.dfy`) holds the document's datatypes and the pure list
  and score operations: `findIndex`, the delete filter and the spread merge of
  two score maps.
- `Tokens` (`tokens.dfy`) holds the middleware as functions. It takes the
  token out of the `Authorization` header, makes the 401/403/proceed
  decision around a token-verifier oracle, and turns a claim into the key it
  looks up. JavaScript turns a missing username into the key `"undefined"`.
- `Server` (`server.dfy`) holds class `Server`. Its field `store` is the
  backing file, or None while the file does not exist. Its field `users` is
  the document the current handler loaded and is changing. There is one
  method per handler, and each method states the whole new state on every
  path: which account changes, that nothing is written on a failure path
  beyond the initial empty file, and what is returned. A few client methods
  (`RegisterTwice`, `AddThenList`, `DeleteTwice`, `LoginThenList`) chain
  handler calls.

Some behaviours of the code are easy to miss, and the model keeps them:

- The hash is stored as `password`, and accounts have no `username` field.
- Login therefore signs a claim with no username (see Findings).
- A stored account may lack `students`. The list handler answers `[]` for it.
  The add, update and delete handlers throw a TypeError on it, which Express
  answers with a 500.
- An empty `Authorization` header is falsy, so `"" && …` yields `""`. That
  value is not `null`, so the verifier is still called. The answer is 403
  when the verifier rejects the empty token, as `jwt.verify` does, and never
  401.

## Model

| member | source | states |
|---|---|---|
| `Records.NewStudent` | server.js:121-128 | the added record has the given id and name, exactly the six score keys, and every score unset |
| `Records.StudentsOrEmpty` | server.js:103-104 | the list answer is the account's `students`, or `[]` when the field is absent |
| `Records.FindIndex` | server.js:145-149 | -1 exactly when no record has the id; otherwise the index of the first record with the id |
| `Records.WithoutId` | server.js:170 | the filter's result has exactly the records whose id differs from the target, and it is never longer than the input |
| `Records.WithoutIdConcat` | server.js:170 | the filter distributes over concatenation, so the kept records stay in their relative order |
| `Records.WithoutIdSingleton` | server.js:170 | one record is kept exactly when its id differs from the target |
| `Records.WithoutIdSameLength` | server.js:169-174 | the length is unchanged exactly when no record has the id, and then the list itself is unchanged |
| `Records.WithoutIdIdempotent` | server.js:169-176 | filtering twice equals filtering once, so a second delete of the same id removes nothing |
| `Records.Merge` | server.js:151-154 | each key of the update takes its new value; every other old key keeps its value, including unset; no key is lost; an absent update changes nothing |
| `Tokens.Split` | server.js:38 | `split(' ')` gives at least one piece, no piece contains the separator, and there is exactly one piece when the string has no separator |
| `Tokens.JoinSplit` | server.js:38 | joining the pieces with the separator gives back the original header |
| `Tokens.SplitCons` | server.js:38 | a separator-free prefix, then the separator, is split off as the first piece |
| `Tokens.ExtractToken` | server.js:37-38 | no header gives no token; an empty header is itself the token; otherwise a token exists exactly when the header has a space, and the token has no space |
| `Tokens.BearerRoundTrip` | server.js:37-38 | a header `<scheme> <token>`, with no space in `<scheme>` or `<token>`, gives back exactly `<token>` |
| `Tokens.SecondPiece` | server.js:38 | for any header `<first> <rest>` with no space in `<first>`, the token is the part of `<rest>` before its first space, possibly empty |
| `Tokens.EmptyHeaderForbidden` | server.js:37-48 | an empty header reaches the verifier and, when the verifier rejects the empty token, gets 403 |
| `Tokens.AuthenticateStatus` | server.js:40-49 | a stopped request gets 401 exactly when there is no token and 403 exactly when the verifier rejects the token |
| `Tokens.AuthStatus` | server.js:40-49 | no token is answered with 401, a rejected token with 403 |
| `Tokens.Authenticate` | server.js:36-53 | 401 exactly when there is no token; 403 exactly when the verifier rejects the token; otherwise proceed with the verified claim |
| `Tokens.NoTokenIgnoresVerifier` | server.js:37-43 | a missing header, or a non-empty one without a space, gives 401 whatever the verifier says |
| `Tokens.BearerHeaderOutcome` | server.js:37-51 | for `Bearer <token>` with no space in `<token>`, the request proceeds with the verifier's claim when it accepts, and gets 403 when it rejects |
| `Tokens.UserKey` | server.js:100-101 | the lookup key is the claim's username, or `"undefined"` when the claim has none |
| `Server.FailureStatus` | server.js:58-178 | duplicate name and bad credentials give 400, a missing account or student gives 404, and a thrown TypeError gives 500 |
| `Server.LoginOutcome` | server.js:79-92 | success exactly when the name exists and the hash oracle accepts; every failure is the one InvalidCredentials; a success carries no username |
| `Server.LoginFailureStatus` | server.js:81-88 | every failed login is answered with 400 |
| `Server.UnknownUserLikeWrongPassword` | server.js:81-88 | an unknown name and a wrong password give the identical answer |
| `Server.LoginClaimMissesAccount` | server.js:91 | a successful login's claim resolves to `"undefined"`, which is no account unless one has that name |
| `Server.IntendedLoginOutcome` | server.js:91-92 | corrected login: same success condition and failure, and the claim resolves to the name logged in with |
| `Server.IntendedLoginAgrees` | server.js:79-92 | the written and corrected logins fail on the same inputs with the same answer; the corrected claim finds the account |
| `Server.Server.Loaded` | server.js:15-21 | the loaded document is the stored one, or the empty users map when nothing is stored |
| `Server.Server.constructor` | server.js:12 | the server starts with the given backing file |
| `Server.Server.ReadDb` | server.js:15-22 | a missing file is first written as the empty document; the handler then gets the stored document; an existing file is not changed |
| `Server.Server.WriteDb` | server.js:24-26 | the file becomes exactly the loaded document |
| `Server.Server.Register` | server.js:58-73 | a taken name gives DuplicateUsername and no write; otherwise exactly one account `{password: hashed, students: []}` is added, all other accounts are kept, and the result is written |
| `Server.Server.Login` | server.js:76-93 | the answer is the login decision on the loaded document; nothing is written except the initial empty file |
| `Server.Server.ListStudents` | server.js:98-109 | AccountNotFound when the claim's key is not a user; otherwise that account's records in order, or `[]`; no write |
| `Server.Server.AddStudent` | server.js:112-132 | one new record, with all scores unset, is appended at the end of the account's list; earlier records and other accounts are kept; AccountNotFound or TypeError write nothing |
| `Server.Server.UpdateScores` | server.js:135-157 | only the first record with the id changes, and only its scores, which become the merge; StudentNotFound, AccountNotFound or TypeError write nothing |
| `Server.Server.DeleteStudent` | server.js:160-178 | every record with the id is dropped and the rest keep their order; StudentNotFound exactly when the length is unchanged, with no write |
| `Server.RegisterTwice` | server.js:62-71 | the second registration of a name fails, and the first one's account is what the file holds |
| `Server.AddThenList` | server.js:98-132 | after a successful add, the list is the earlier records followed by the new one, named as given with every score unset |
| `Server.DeleteTwice` | server.js:160-178 | the second delete of an id always fails, with StudentNotFound after a successful first delete |
| `Server.LoginThenList` | server.js:58-109 | for a new name, when no account is named `"undefined"`: register, then login with the right password, then list; the login succeeds but the list finds no account |

## Findings

| source | as written | input that shows it | evidently intended | confidence | as-written member | corrected member |
|---|---|---|---|---|---|---|
| server.js:91-92 | the token is signed with `{ username: user.username }`, but an account has no `username` field, so the claim and the echoed name are absent; `db.users[undefined]` then looks up the key `"undefined"` | `register("alice", pw)`, `login("alice", pw)`, then `GET /api/users/students` with the issued token: the answer is 404 | sign `{ username }` with the name from the request body, so later requests find the caller's own account | high (not executed) | `Server.LoginOutcome` (shown by `Server.LoginClaimMissesAccount` and `Server.LoginThenList`) | `Server.IntendedLoginOutcome` (proved by `Server.IntendedLoginAgrees`) |

`Server.Server.Login` keeps the written behaviour. The handlers take the claim
as a parameter, so they behave the same whichever login issued it.

## Left out

- Express routing, `cors`, `body-parser` and `app.listen` are transport plumbing. The 200/201 success statuses are not part of the results.
- `fs` and JSON are left out: the file is the value `store`. A malformed or unreadable file and a failed disk write are not modelled.
- `JSON.stringify` drops `undefined` score entries when it writes. The model keeps them as None. `Unset` treats an absent key and a None entry alike.
- `bcrypt.hash` is replaced by the `hashed` parameter of `Register`. `bcrypt.compare` is replaced by the `compare` oracle.
- `jwt.sign`, `jwt.verify` and the one-hour expiry are foreign crypto. Verification is the `verify` oracle, and a login's token is represented by the claim it signs.
- `Date.now()` is the `now` parameter. `parseInt` is replaced by an `int` id, so a `NaN` id is not modelled. A `NaN` id would match no record, just like an absent id.
- Concurrency is left out: the lost update between `readDb` and `writeDb` across the `await` in register.
- Score values are `real`s with no arithmetic. Other JSON values in a score update, and a `scores` body that is a string or an array, are not modelled.
- The model treats `users` as a plain map. In JavaScript, a name such as `"constructor"` or `"__proto__"` resolves to an inherited property of the object.
- A request body without `username`, `password` or `name` is not modelled: these are `string` parameters.
- `console` logging is left out.
