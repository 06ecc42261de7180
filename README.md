# Student records backend: sessions and student table, in Dafny

This project models the two services of the Flask backend's `routes` package.

- **The session service** (`backend/routes/auth.py`) keeps a `users` table. Each row holds at most one opaque session token and its expiry. The operations are registration, login, logout and the `token_required` guard, which reads a `Bearer` header, looks the token up and clears an expired token lazily. The `admin_required` role check completes it.
- **The student service** (`backend/routes/alunos.py`) keeps the `alunos` table in storage order, together with its AUTO_INCREMENT counter. The operations are the validator `validar_aluno` and the five handlers: list, create, read, partial update and delete.
- **The decorator stacks** of alunos.py are written out as an explicit composition: `token_required`, then `admin_required` on the routes that write, then the handler.
- **The two layers of `except` clauses** turn a handler's `abort` into the status the client sees. The model keeps both statuses side by side.

Modules:

- `Common` (common.dfy) holds `Option` and `FirstWhere`. `FirstWhere` is `fetchone()` over a query in storage order.
- `Text` (text.dfy) holds the Python `str` methods the code relies on: `strip`, `lower` and `isdigit`, over ASCII.
- `Auth` (auth.dfy, for `backend/routes/auth.py`) follows a two-part pattern:
  - Pure transition functions (`RegisterSpec`, `LoginSpec`, `LogoutSpec`, `AuthenticateSpec`) give the next table and the answer. Lemmas relate several calls of these functions.
  - The class `UserTable` holds the table. Each of its methods is proved equal to its transition function and keeps the invariant `WellFormed`.
- `Alunos` (alunos.dfy, for `backend/routes/alunos.py`) uses the same pattern:
  - `Validar`, `Listar` and `Obter` are functions.
  - `CadastrarSpec`, `EditarSpec` and `ExcluirSpec` are the transitions.
  - The class `Registry` holds the rows and the counter. Its methods keep the invariant `Consistent`: ids increasing, unique `matricula` and `email`, and the validator's format rules.
  - The update method builds its `SET` list with the loop of the source (`Registry.Assignments`). That loop is proved to give the row described by `Patched`.
- `Routes` (routes.dfy) composes the guard with each handler. `Intended` is the status the code means, taken from the code each `abort` names. `Observed` is the status that reaches the client.

Inputs the code gets from outside are parameters:

- the bcrypt hash of a new password;
- the token `uuid4()` would produce;
- `datetime.now()`, as integer seconds.

`bcrypt.checkpw` is the uninterpreted function field `UserTable.checkPw`.

In four places the code does something other than what a reader of its messages and routes would expect. The model follows the code:

- A duplicate `matricula` or `email` gives 400, not 409 (alunos.py:142-144, 232-234).
- A token whose expiry equals the current time still authenticates, because the comparison at auth.py:175 is strict. A NULL expiry never expires.
- A missing student means 404, but the client gets 500 (see Findings).
- Update trims the e-mail but does not lower-case it (alunos.py:215). Create lower-cases it (alunos.py:130).

## Model

| member | source | states |
|---|---|---|
| Text.IsSpace | backend/routes/alunos.py:56 | the whitespace `str.strip()` removes, over ASCII: TAB, LF, VT, FF, CR, the separators 0x1C-0x1F and SPACE |
| Text.IsBlank | backend/routes/alunos.py:56 | the `not str(...).strip()` test: every character is whitespace, the empty string included; `Text.Strip` is empty exactly then |
| Text.TrimStart | backend/routes/alunos.py:56 | `lstrip()` keeps no leading whitespace, and everything it dropped was whitespace |
| Text.TrimEnd | backend/routes/alunos.py:56 | `rstrip()` keeps no trailing whitespace, and everything it dropped was whitespace |
| Text.TrimStartIsSuffix | backend/routes/alunos.py:56 | what `lstrip()` leaves is a suffix of its argument |
| Text.TrimEndIsPrefix | backend/routes/alunos.py:56 | what `rstrip()` leaves is a prefix of its argument |
| Text.Strip | backend/routes/alunos.py:56 | `strip()` is no longer than its argument and neither starts nor ends with whitespace; it is empty exactly when the argument is blank, which is the `not ....strip()` test. Which slice it is: see `Text.StripIsMiddle` |
| Text.StripIsMiddle | backend/routes/alunos.py:56 | `strip()` is the slice `s[i..j]` of its argument whose prefix `s[..i]` and suffix `s[j..]` are all whitespace, so it removes exactly the leading and trailing whitespace |
| Text.LowerChar | backend/routes/alunos.py:130 | one character of `lower()`: an upper-case letter becomes the lower-case letter 32 code points above it, no upper-case letter is left, and other characters are kept |
| Text.Lower | backend/routes/alunos.py:130 | `lower()` keeps the length, turns every upper-case letter into its lower-case letter in the same place, leaves no upper-case letter, and keeps every other character in place |
| Text.StripKeeps | backend/routes/alunos.py:127-130 | a non-space character such as '@' is in `s.strip()` exactly when it is in `s` |
| Text.StripNoSpace | backend/routes/alunos.py:128 | a string with no whitespace is its own `strip()` |
| Text.LowerKeeps | backend/routes/alunos.py:130 | `lower()` keeps a character that is not an upper-case letter, so '@' survives it |
| Text.IsDigits | backend/routes/alunos.py:63 | ASCII `str.isdigit()`: non-empty and made only of '0'..'9', so `"".isdigit()` is false |
| Text.DigitsStripped | backend/routes/alunos.py:128 | an `isdigit()` string is its own `strip()`, so the stored `matricula` is the one validated |
| Auth.FirstWord | backend/routes/auth.py:158 | the text up to the first space: a prefix with no space, followed by a space or the end |
| Auth.BearerToken | backend/routes/auth.py:154-158 | a token is read exactly when the header is present and starts with `Bearer `; it is the next space-free word after the prefix |
| Auth.BearerRoundTrip | backend/routes/auth.py:158 | a space-free token sent as `Bearer <token>` is read back unchanged |
| Auth.FirstWordWhole | backend/routes/auth.py:158 | a string with no space is its own first word |
| Auth.Blank | backend/routes/auth.py:36 | the `not username or not password` test: the value is missing or the empty string; `Auth.RegisterSpec` and `Auth.LoginSpec` answer 400 exactly then |
| Auth.Expired | backend/routes/auth.py:175 | the expiry test: a non-NULL expiry strictly before now; `Auth.LoginThenAuthenticate` and `Auth.ExpiredTokenRevoked` state its consequences |
| Auth.FindByName | backend/routes/auth.py:80-81 | the row found has the username, and no row has it when none is found |
| Auth.FindByToken | backend/routes/auth.py:165-171 | the first row in storage order holding the token, or none when no row holds it |
| Common.FirstWhere | backend/routes/auth.py:80-81 | `fetchone()` over a query in storage order: the index of the first element satisfying the condition, or none exactly when no element satisfies it |
| Auth.SetSession | backend/routes/auth.py:91-94 | the `UPDATE ... WHERE id` of login: every row with that id gets the new token and expiry; every other row, and every identity and hash, is unchanged |
| Auth.ClearToken | backend/routes/auth.py:130-133 | the `UPDATE ... WHERE token` of logout: every row holding the token gets a NULL token and a NULL expiry, no row holds the token afterwards, and every other row, and every identity and hash, is unchanged |
| Auth.ClearId | backend/routes/auth.py:177 | the `UPDATE ... WHERE id` of the lazy expiry: the row with that id gets a NULL token and a NULL expiry; every other row, and every identity and hash, is unchanged |
| Auth.Holders | backend/routes/auth.py:135 | the `rowcount` of the clearing UPDATE is at most the number of rows; `Auth.HoldersPositive` gives when it is positive |
| Auth.HoldersPositive | backend/routes/auth.py:130-135 | the `rowcount` of the clearing UPDATE is positive exactly when some row holds the token |
| Auth.RegisterSpec | backend/routes/auth.py:24-61 | the status is one of 201, 400 and 409. It is 400 exactly when the username or password is missing or empty, and 409 exactly when the username is taken; on either error the table is unchanged. On 201 one row is appended with the next id, the given hash, the role defaulting to 'user', and no session |
| Auth.LoginSpec | backend/routes/auth.py:63-111 | 400 exactly for a missing or empty username or password, and 401 for an unknown user or wrong password; a refusal changes nothing. A token is issued exactly when the user exists and `checkpw` accepts; then that account gets the fresh token with expiry now + 3600, and the answer carries the token, the expiry and the account's role |
| Auth.LogoutSpec | backend/routes/auth.py:113-145 | a bad header gives 401 with no change. Otherwise every row holding the token is cleared, none holds it afterwards, and the status is 200 exactly when some row held it, else 401 |
| Auth.AuthenticateSpec | backend/routes/auth.py:147-186 | a bad header or an unknown token gives 401 with no change. An expired token has its account's token cleared and gives 401. Otherwise the guard passes the account's (id, username, role) and the table is unchanged |
| Auth.AdminRequired | backend/routes/auth.py:195-206 | the handler runs exactly when the role is 'admin'; otherwise the answer is 403 |
| Auth.RegisterKeepsWellFormed | backend/routes/auth.py:46-55 | registration keeps ids increasing and below the counter, usernames unique, and token and expiry set together |
| Auth.LoginTouchesOnlyAccount | backend/routes/auth.py:86-95 | a successful login sets the found account's session to (fresh token, now + 3600) and leaves every other row unchanged |
| Auth.ClearTokenKeepsInvariants | backend/routes/auth.py:130-132 | clearing the session of every row holding a token keeps the table invariant and token uniqueness |
| Auth.ClearIdKeepsInvariants | backend/routes/auth.py:176-178 | clearing the session of one account by id keeps the table invariant and token uniqueness |
| Auth.LoginKeepsWellFormed | backend/routes/auth.py:91-95 | login keeps the table invariant |
| Auth.LoginKeepsTokensDistinct | backend/routes/auth.py:86-95 | when the fresh token is held by nobody, no two accounts share a token after login |
| Auth.LogoutKeepsInvariants | backend/routes/auth.py:130-134 | logout keeps the table invariant and token uniqueness |
| Auth.AuthenticateKeepsInvariants | backend/routes/auth.py:175-178 | the lazy expiry keeps the table invariant and token uniqueness |
| Auth.RegisterThenLogin | backend/routes/auth.py:46-103 | a freshly registered account whose password matches its hash logs in at once, and gets its registered role back |
| Auth.ReLoginRevokesOldToken | backend/routes/auth.py:91-94 | logging in again overwrites the account's previous token, which then belongs to nobody and is refused with 401 |
| Auth.LoginThenAuthenticate | backend/routes/auth.py:175 | a token just issued authenticates its account at any time up to now + 3600 inclusive, and is refused after |
| Auth.ExpiredTokenRevoked | backend/routes/auth.py:175-179 | an expired token is refused with 401 and its account loses the session, so presenting it again is refused as unknown at any time |
| Auth.AuthenticateNoSliding | backend/routes/auth.py:181-186 | a successful check changes nothing, so the expiry is not extended; the identity passed is that of an unexpired row holding the token |
| Auth.LogoutTwice | backend/routes/auth.py:135-139 | a second logout with the same header is answered 401 and changes nothing |
| Auth.LogoutRevokes | backend/routes/auth.py:130-134 | after logout the token no longer authenticates |
| Auth.UserTable.constructor | backend/routes/auth.py:46-48 | an empty users table whose ids start at 1 |
| Auth.UserTable.Register | backend/routes/auth.py:24-61 | the new table and status are those of `RegisterSpec`, and the invariant holds |
| Auth.UserTable.Login | backend/routes/auth.py:63-111 | the new table and answer are those of `LoginSpec`, and the invariant holds |
| Auth.UserTable.Logout | backend/routes/auth.py:113-145 | the new table and status are those of `LogoutSpec`, and the invariant holds |
| Auth.UserTable.TokenRequired | backend/routes/auth.py:147-186 | the new table and guard decision are those of `AuthenticateSpec`, and the invariant holds |
| Alunos.Pos | backend/routes/alunos.py:49 | the position of each field in the fixed order nome, matricula, curso, email |
| Alunos.Put | backend/routes/alunos.py:221 | one `campo = %s` assignment sets that field and keeps the id and the other fields |
| Alunos.SameRow | backend/routes/alunos.py:221 | rows that agree on the id and the four fields are equal |
| Alunos.Code | backend/routes/alunos.py:52-64 | the status each abort names: 404 exactly for not found, 500 exactly for a database error, 400 otherwise |
| Alunos.Filled | backend/routes/alunos.py:56 | the create-time field test: the key is present and its value is not blank after `strip()` |
| Alunos.EmailOk | backend/routes/alunos.py:60 | an e-mail, when sent, contains '@' |
| Alunos.MatriculaOk | backend/routes/alunos.py:63 | a `matricula`, when sent, is all digits |
| Alunos.AllFilled | backend/routes/alunos.py:54-57 | the create-time loop over nome, matricula, curso, email passes: every one of the four fields is filled |
| Alunos.Validar | backend/routes/alunos.py:47-64 | the body is accepted exactly when it is present and non-empty, all four fields are present and non-blank (on create only), '@' is in any e-mail sent, and any `matricula` sent is all digits. Every rejection is a 400. An absent or empty body is rejected as "no data". On create, a missing or blank field is reported before the e-mail and `matricula` checks, as the first such field in the order nome, matricula, curso, email |
| Alunos.IndexOfId | backend/routes/alunos.py:164-170 | the row found has the id, and no row has it when none is found |
| Alunos.Patched | backend/routes/alunos.py:211-215 | each field present in the body is replaced by its stripped value, the other fields and the id are kept |
| Alunos.Clash | backend/routes/alunos.py:142 | the INSERT's IntegrityError: some stored row has the same `matricula` or the same e-mail |
| Alunos.NewRecord | backend/routes/alunos.py:123-131 | the row the INSERT stores: the four fields stripped and the e-mail lower-cased; `Alunos.NewRecordWellFormed` and `Alunos.NewRecordRowOk` state its properties |
| Alunos.Collides | backend/routes/alunos.py:232-234 | the UPDATE's IntegrityError: the row patched with the body repeats the `matricula` or e-mail of some other row |
| Alunos.SentInOrder | backend/routes/alunos.py:212-214 | after scanning the first k fields, the list holds exactly the scanned fields present in the body, in the order of the scan |
| Alunos.SentValuesMatch | backend/routes/alunos.py:213-215 | the values list has one entry per collected field, the stripped body value of that field |
| Alunos.SentApplied | backend/routes/alunos.py:212-221 | applying the assignments collected from the first k fields sets exactly those scanned fields present in the body to their stripped values and keeps every other field |
| Alunos.NothingSent | backend/routes/alunos.py:217 | the full scan collects nothing exactly when the body has none of the four fields |
| Alunos.SentIsPatch | backend/routes/alunos.py:208-221 | the full scan collects each field present in the body once, in the order nome, matricula, curso, email, each with its stripped value, and applying the result gives the patched row |
| Alunos.SetClause | backend/routes/alunos.py:220-224 | applying the `SET` assignments keeps the row's id |
| Alunos.Window | backend/routes/alunos.py:81-86 | `LIMIT n OFFSET o` gives at most n rows, namely rows o, o+1, ... of the table in storage order |
| Alunos.Listar | backend/routes/alunos.py:70-108 | page and per_page default to 1 and 10. The listing fails with a database error exactly when LIMIT or OFFSET is negative or above 2^64 - 1, the range MySQL accepts. Otherwise it holds the rows from offset (page-1)*per_page in storage order, exactly min(per_page, rows left after the offset) of them, with total equal to the size of the whole table |
| Alunos.Obter | backend/routes/alunos.py:158-187 | a row with the id is returned, and "not found" is returned exactly when no row has the id |
| Alunos.CadastrarSpec | backend/routes/alunos.py:114-153 | validation errors and collisions change nothing and are 400s; "already registered" happens exactly for a valid body whose normalised row collides. Success appends exactly the normalised row under the counter's id, advances the counter, and returns that id |
| Alunos.CadastrarSpecApplies | backend/routes/alunos.py:123-144 | once the body is valid, create aborts with "already registered" exactly when the normalised row collides, and otherwise appends it under the counter's id and advances the counter |
| Alunos.EditarSpec | backend/routes/alunos.py:193-243 | the update transition: an abort leaves the table unchanged. Its outcomes one by one: see `Alunos.EditarOutcomes` |
| Alunos.EditarOutcomes | backend/routes/alunos.py:193-243 | the table keeps its length and rows with other ids never change. A validation error is reported first. Then 404 exactly when no row has the id; then 400 "nothing to update" exactly when the body has none of the four fields; then 400 "already registered" exactly when the patched row repeats another row's `matricula` or e-mail. Success happens exactly in the remaining case, and replaces the row by the patched row |
| Alunos.EditarSpecApplies | backend/routes/alunos.py:207-234 | once the body is valid, the id is found and some field is sent, the update aborts with "already registered" exactly on a collision, and otherwise writes the patched row and keeps the table invariant |
| Alunos.ExcluirSpec | backend/routes/alunos.py:249-277 | the result is 404 exactly when no row has the id, and then nothing changes; otherwise that row is cut out, one row fewer |
| Alunos.NewRecordWellFormed | backend/routes/alunos.py:123-131 | the row create stores from a valid body has non-empty name and course, the validated `matricula`, an e-mail with '@' and no upper-case letter |
| Alunos.PatchedWellFormed | backend/routes/alunos.py:211-215 | a row patched from a valid update body keeps the format rules |
| Alunos.NewRecordRowOk | backend/routes/alunos.py:123-131 | the row create stores from a valid body satisfies the format rules and carries the given id |
| Alunos.AppendKeepsConsistent | backend/routes/alunos.py:125-132 | appending a well-formed row under the counter's id that collides with no row keeps the table invariant |
| Alunos.ReplaceKeepsConsistent | backend/routes/alunos.py:220-224 | replacing a row by a well-formed row with the same id that collides with no other row keeps the table invariant |
| Alunos.CutKeepsConsistent | backend/routes/alunos.py:260-261 | deleting a row keeps the invariant and removes exactly the rows with its id |
| Alunos.CadastrarKeepsConsistent | backend/routes/alunos.py:114-153 | create keeps the table invariant, whatever its outcome |
| Alunos.EditarKeepsConsistent | backend/routes/alunos.py:193-243 | update keeps the table invariant, whatever its outcome |
| Alunos.ExcluirKeepsConsistent | backend/routes/alunos.py:249-277 | delete keeps the invariant, and afterwards the table holds exactly the old rows with another id |
| Alunos.CreatedThenRead | backend/routes/alunos.py:123-140 | the id create returns was unknown before, and reading it afterwards returns the stored, normalised row |
| Alunos.EditedThenRead | backend/routes/alunos.py:220-224 | after a successful update, reading the id returns the old row patched with the body |
| Alunos.DeletedThenRead | backend/routes/alunos.py:260-261 | after a delete, whatever its outcome, reading the id is "not found" |
| Alunos.PagesArePrefix | backend/routes/alunos.py:76-87 | reading pages 1 to k lists the first k*per_page rows in storage order, each once |
| Alunos.RowOnItsPage | backend/routes/alunos.py:76-87 | row i appears at position i mod per_page on page i div per_page + 1 |
| Alunos.Registry.constructor | backend/routes/alunos.py:125-132 | an empty table whose ids start at 1 |
| Alunos.Registry.Cadastrar | backend/routes/alunos.py:114-153 | the new rows, counter and outcome are those of `CadastrarSpec`, and the invariant holds |
| Alunos.Registry.Assignments | backend/routes/alunos.py:208-218 | the loop collects exactly the fields present in the body, each once and in the order nome, matricula, curso, email, with one value per field: its stripped body value. The list is empty exactly when the body has none of the four fields, and applying it gives the patched row |
| Alunos.Registry.Editar | backend/routes/alunos.py:193-243 | the new rows and outcome are those of `EditarSpec`; the counter is unchanged and the invariant holds |
| Alunos.Registry.ApplyUpdate | backend/routes/alunos.py:207-234 | the dynamic UPDATE for a valid body and a found id: the new rows and outcome are those of `EditarSpec`; the counter is unchanged and the invariant holds |
| Alunos.Registry.Excluir | backend/routes/alunos.py:249-277 | the new rows and outcome are those of `ExcluirSpec`; the counter is unchanged and the invariant holds |
| Routes.Gatekeep | backend/routes/auth.py:181-205 | the handler runs exactly when the guard passes and, on an admin route, the role is 'admin'. It runs as the identity the guard found; a guard refusal keeps its status, and a role refusal is 403 |
| Routes.RouteCode | backend/routes/alunos.py:142-150 | a route's own `except` clauses answer 400 exactly for an IntegrityError and 500 for every other abort |
| Routes.Observed | backend/routes/auth.py:186-189 | the client sees the success status, or 500 for every abort: the route's own `except` clauses turn an abort into 400 or 500, and `token_required`'s `except Exception` then answers any exception 500 |
| Routes.Intended | backend/routes/alunos.py:142-144 | the status the code means: the success status, or the code of the abort, which is 404 exactly for not found and 500 exactly for a database error |
| Routes.WritesNeedAdmin | backend/routes/alunos.py:111-113 | a write reaches its handler exactly when the token authenticates an admin. A refusal is 401 or 403, and an authenticated non-admin gets 403 |
| Routes.NoHeaderRefused | backend/routes/auth.py:154-156 | without a usable bearer header every route answers 401 |
| Routes.RouteLayerFlattens | backend/routes/alunos.py:182-184 | every abort other than "already registered" leaves the route as 500. This differs from the code it names exactly for the client errors |
| Routes.MissingReadObserved500 | backend/routes/alunos.py:171-184 | reading a missing id means 404, but leaves the route and reaches the client as 500 |
| Routes.DuplicateCreateObserved500 | backend/routes/auth.py:186-189 | a create that repeats a `matricula` means 400 and leaves the route as 400, but reaches the client as 500 |
| Routes.IntendedVersusObserved | backend/routes/auth.py:186-189 | intended and observed statuses differ exactly on aborts that are not database errors |
| Routes.Listar | backend/routes/alunos.py:68-108 | the guard's update of the users table happens, and the users id counter is unchanged. A refusal is answered directly; otherwise the reply is that of `Alunos.Listar` over the current rows |
| Routes.Cadastrar | backend/routes/alunos.py:111-153 | the guard's update of the users table happens, and the users id counter is unchanged. A refusal, including 403 for a non-admin, leaves the student table unchanged. Otherwise the table and the reply follow `CadastrarSpec` with success status 201 |
| Routes.Obter | backend/routes/alunos.py:156-187 | the guard's update of the users table happens, and the users id counter is unchanged. A refusal is answered directly; otherwise the reply is that of `Alunos.Obter` |
| Routes.Editar | backend/routes/alunos.py:190-243 | the guard's update of the users table happens, and the users id counter is unchanged. A refusal leaves the student table unchanged; otherwise the table and the reply follow `EditarSpec`, and the student counter is unchanged |
| Routes.Excluir | backend/routes/alunos.py:246-277 | the guard's update of the users table happens, and the users id counter is unchanged. A refusal leaves the student table unchanged; otherwise the table and the reply follow `ExcluirSpec`, and the student counter is unchanged |

## Left out

- HTTP, JSON and logging are not modelled. This covers Flask request parsing, response bodies and messages, logging, CORS, and the blueprint error handlers' formatting (alunos.py:27-45). A reply is reduced to its status and payload.
- The database is an in-memory table. Connections, commits and `close()` in `finally` are not modelled. The only database error modelled is the one a LIMIT or OFFSET outside MySQL's unsigned 64-bit range raises (negative, or above 2^64 - 1). Other failures are not modelled: an unreachable server, or any other exception answered by the 500 branches of register, login, logout and the guard itself.
- Uniqueness of `username`, `matricula` and `email` is assumed to be enforced by UNIQUE constraints, compared by exact equality; collation effects are not modelled. Storage order is taken to be id order, since the SELECTs have no ORDER BY.
- Auto-increment gaps are not modelled. A failed INSERT does not advance the counter in the model; MySQL may consume an id there.
- bcrypt, `uuid4()` and `datetime.now()` are parameters or an uninterpreted function. Time is in whole seconds. Sub-second precision, DATETIME rounding and the ISO-8601 text of `expires_at` are not modelled.
- Request bodies are maps from strings to strings. Bodies that are not JSON objects are not modelled (registration and login would raise before their `try`). Neither are JSON values that are not strings, for example the `str(...)` conversions or a `.strip()` on a number, or a `role` sent as null.
- `str.strip`, `str.lower` and `str.isdigit` are modelled over ASCII. Python's Unicode whitespace, case mappings and digit classes are approximated.
- Concurrent requests are not modelled: every operation runs alone.
- Auth.LoginKeepsTokensDistinct: holds only when the fresh token is held by no account. The code never checks this; it relies on `uuid4()`.
- Auth.UserTable.TokenRequired: models the guard up to the handler call. Setting `request.user_*` is the identity in `Pass`.
- Routes.Listar: `type=int` parse failures of `page` and `per_page` appear as absent arguments, which take their defaults.
- The frontend, the application factory, the hash script and the database bootstrap are not part of this model.

## Findings

| source | as written | input that shows it | evidently intended | confidence | as-written member | corrected member |
|---|---|---|---|---|---|---|
| backend/routes/alunos.py:171-184 | `abort(404)` is raised inside the `try`, so `except Exception` catches it and re-raises it as `abort(500)`. The same happens to the 400s of `validar_aluno` and to the "nothing to update" 400 | `GET /api/v1/alunos/999` with a valid token, when no student has id 999 | 404 "Aluno não encontrado" (and 400 for invalid bodies) | high; not executed | Routes.MissingReadObserved500 | Routes.Intended |
| backend/routes/auth.py:186-189 | `token_required` calls the handler inside its own `try ... except Exception`. Any HTTPException the handler raises is therefore answered 500, including the deliberate 400 for an IntegrityError | `POST /api/v1/alunos/` as admin with a `matricula` already stored | 400 "Matrícula ou email já cadastrados" | high; not executed | Routes.DuplicateCreateObserved500 | Routes.Intended |
