# Users service: a Dafny model of the user controller

This project models the user resource handler of a small Express + PostgreSQL service
(`src/controllers/userController.js`). The handler has five operations:

- list users, paginated;
- get a user by identity;
- create a user;
- update a user;
- delete a user.

The handler talks to one `users` table. The model makes that table explicit: a map from
integer identity to a stored record, plus the identity sequence that numbers new rows.
The SQL statements the handler issues become explicit rules:

- `INSERT` under a unique constraint either adds one row or reports a unique violation.
- `UPDATE ... COALESCE` is a field-by-field merge.
- `RETURNING` is a projection that leaves out the password.
- `DELETE` removes one row, or matches nothing.

Every operation answers with a `Response`: 200, 201, 400, 404, 409 or 500, each with its
payload.

Files and modules:

- `wrappers.dfy` (`Wrappers`): `Option`, for absent request fields, unparsable query
  parameters and nullable columns.
- `validation.dfy` (`Validation`): the email check, proved equal to the language of the
  source's regular expression; the phone check; the create and update validation cascades,
  each specified as "the first broken rule in check order".
- `pagination.dfy` (`Pagination`): the `|| default` rule for page and limit, the offset,
  ceiling division, the page metadata, the ascending order of identities (proved to be the
  only ascending listing) and the `LIMIT`/`OFFSET` window.
- `users_table.dfy` (`UsersTable`): the stored record, the public projection, the unique
  constraint, and the rows written by `INSERT` and `UPDATE ... COALESCE`.
- `user_controller.dfy` (`UserController`):
  - each handler as a transition function from the table to a new table and a response,
    with contracts stating what it promises;
  - class `UserService`, which holds the table in its fields `rows` and `nextId`. Its five
    methods run the handlers' early-return branches on that state and are proved to match
    the transitions.
- `controller_properties.dfy` (`ControllerProperties`): properties across requests,
  such as create-then-get, a second create with the same email, update-then-get and
  delete-then-get, plus the standard request scenarios.

Inputs the handler does not control are parameters:

- `fault`: the database fails with an error other than a unique violation.
- `hash`: the salted bcrypt hasher.
- `now`: the database clock that fills `created_at`.
- `PathId`: the `:id` path segment, either an integer or text that the integer cast rejects.

The password never appears in a response by construction: `PublicUser` and `DeletedUser`
have no password field.

Where the code's behaviour is unconventional, the model follows the code:

- The list answers 404 whenever its page window is empty, for example a page past the last
  one, not only when the table is empty (`PastLastPageIsNotFound`).
- `page` and `limit` are not forced to be positive. `parseInt(x) || d` replaces only NaN and
  0, so negative values pass through to the query. PostgreSQL rejects a negative `LIMIT` or
  `OFFSET`, and the handler turns that error into 500.
- Update validates only truthy fields, but `COALESCE` overwrites with every non-null field.
  A name or email sent as `""` is therefore written without validation
  (`EmptyEmailIsStoredByUpdate`).
- On create, a unique violation answers 409 whichever unique constraint fired. If the
  sequence hands out an identity that is already present, the primary key fires and the
  answer is also 409. A violated insert still uses up the sequence value, because
  PostgreSQL sequences are not rolled back.

## Model

| member | source | states |
|---|---|---|
| Validation.EmailCheckMatchesPattern | src/controllers/userController.js:6-9 | the direct email check accepts exactly the strings matching `^[^\s@]+@[^\s@]+\.[^\s@]+$`: one `@`, a non-empty local part, a `.` in the domain with text on both sides, no whitespace |
| Validation.IsValidPhone | src/controllers/userController.js:12-14 | a present phone is valid iff it has at least seven characters |
| Validation.ValidateCreate | src/controllers/userController.js:78-89 | create passes iff no rule is broken; otherwise the answer is a broken rule, and every rule checked earlier (required fields, then email format, then phone length >= 7 if a phone was given, then password length >= 8) holds |
| Validation.ValidateUpdate | src/controllers/userController.js:119-130 | update passes iff no truthy field breaks its rule; otherwise the answer is the first broken one, in the order email, phone, new password |
| Pagination.OrDefault | src/controllers/userController.js:20-21 | JavaScript `parseInt(x) or d` (logical or): NaN or 0 gives the default, every other integer (negative ones included) is kept; the result is never 0 |
| Pagination.Offset | src/controllers/userController.js:22 | page 1 starts at record 0, each page starts `limit` records after the previous one, and for a positive limit the offset is negative iff the page is below 1 |
| Pagination.CeilDiv | src/controllers/userController.js:28 | `Math.ceil(n / d)` for d > 0 is the least page count whose pages hold all n records |
| Pagination.Paginate | src/controllers/userController.js:28-47 | metadata: total users, total pages as a ceiling, current page, page size, next page exactly when page < totalPages (as page + 1), previous page exactly when page > 1 (as page - 1) |
| Pagination.PageLinksAtEnds | src/controllers/userController.js:45-46 | on a page 1..totalPages, nextPage is null iff it is the last page and prevPage is null iff it is page 1 |
| Pagination.ShownPageIsCounted | src/controllers/userController.js:22-36 | a window that starts inside the table belongs to a page between 1 and the page count |
| Pagination.PastLastPageStartsPastEnd | src/controllers/userController.js:22-28 | a page beyond totalPages has an offset at or past the last record |
| Pagination.SortedIds | src/controllers/userController.js:32 | `ORDER BY id`: the identities, strictly ascending, each exactly once |
| Pagination.SortedIdsIsTheAscendingOrder | src/controllers/userController.js:32 | any strictly ascending listing of the identities is that order |
| Pagination.Window | src/controllers/userController.js:31-34 | `LIMIT l OFFSET o`: at most l entries, entry i is position o + i, empty iff o is past the end, full whenever enough rows remain |
| UsersTable.Public | src/controllers/userController.js:97 | the `RETURNING` projection carries the identity and every stored column except the password hash |
| UsersTable.NewUser | src/controllers/userController.js:96-98 | the inserted row holds name, email, phone, address and country as sent, the given hash and the database time |
| UsersTable.Merge | src/controllers/userController.js:139 | the `COALESCE` row satisfies `Coalesced` (present fields written, absent ones kept, hash only for a truthy password, creation time kept) and is the only row that does |
| UsersTable.PublicDropsOnlyPassword | src/controllers/userController.js:96-103 | two records have the same `RETURNING` projection iff they differ at most in the password hash |
| UserController.WindowRows | src/controllers/userController.js:31-39 | the rows of a window are the public views of the table rows at ascending identities o, o + 1, ... |
| UserController.WindowIsListedPage | src/controllers/userController.js:31-48 | a window starting inside the table is a valid 200 listing: at most `limit` rows in id order, with correct metadata and 1 <= page <= totalPages |
| UserController.GetAllUsersResult | src/controllers/userController.js:19-56 | 500 iff a database fault or a negative limit/offset; 404 iff the offset is at or past the end of the table; otherwise 200 with the listing above |
| UserController.GetUserByIdResult | src/controllers/userController.js:59-71 | 200 with the stored record minus password iff the id is present; 404 iff absent; 500 on a fault or a non-integer id |
| UserController.CreateUserResult | src/controllers/userController.js:74-112 | 400 iff validation fails, with that rule, table unchanged; 409 iff a unique constraint is violated, rows unchanged; 500 on a fault; else exactly one new row under a fresh id holding the fields sent and `hash(password)`, answered 201 without password; the constraint invariant is preserved |
| UserController.UpdateUserResult | src/controllers/userController.js:115-156 | 400 iff a supplied field is invalid; 500 on a fault or a non-integer id; 404 iff the id is absent; 409 iff the merged email belongs to another row; all leave the table unchanged; else only that row changes, by the COALESCE merge (absent fields kept, supplied fields written, hash only for a truthy password), answered 200 without password |
| UserController.DeleteUserResult | src/controllers/userController.js:159-171 | 500 on a fault or a non-integer id; 404 iff the id is absent, table unchanged; else exactly that row is removed, the others are untouched, and the answer echoes id, name and email |
| UserController.UserService.GetAllUsers | src/controllers/userController.js:19-56 | the service's list answers as GetAllUsersResult on its current rows and changes nothing |
| UserController.UserService.GetUserById | src/controllers/userController.js:59-71 | the service's read answers as GetUserByIdResult on its current rows |
| UserController.UserService.CreateUser | src/controllers/userController.js:74-112 | the new rows, sequence and response are those of CreateUserResult on the old state; the table invariant is kept |
| UserController.UserService.UpdateUser | src/controllers/userController.js:115-156 | the new rows and response are those of UpdateUserResult on the old state; the table invariant is kept |
| UserController.UserService.DeleteUser | src/controllers/userController.js:159-171 | the new rows and response are those of DeleteUserResult on the old state; the table invariant is kept |
| ControllerProperties.CreatedUserReadsBack | src/controllers/userController.js:96-104 | after a 201, getting that id returns exactly the record the create answered |
| ControllerProperties.SameEmailConflicts | src/controllers/userController.js:96-108 | after a successful create, any valid create with the same email answers 409 and leaves the rows unchanged, whatever its other fields |
| ControllerProperties.UpdateKeepsOmittedFields | src/controllers/userController.js:138-148 | after a 200 update, re-fetching shows omitted fields unchanged and supplied ones as sent, and every other id reads as before |
| ControllerProperties.CreateConflictMeansEmailTaken | src/controllers/userController.js:96-108 | on a table keeping its invariant, a valid unfaulted create answers 409 iff the email is already stored |
| ControllerProperties.DeletedUserIsGone | src/controllers/userController.js:162-166 | after a 200 delete, getting or deleting the same id answers 404 |
| ControllerProperties.PastLastPageIsNotFound | src/controllers/userController.js:28-50 | a page beyond the last answers 404 even when the table has rows |
| ControllerProperties.EmptyEmailIsStoredByUpdate | src/controllers/userController.js:120-140 | an update with email `""` bypasses the format check and stores the empty email |
| ControllerProperties.SampleEmailIsValid | src/controllers/userController.js:8 | `a@x.com` matches the email shape |
| ControllerProperties.DuplicateCreateScenario | src/controllers/userController.js:74-112 | on an empty table, creating {A, a@x.com, longenough1} answers 201 with id 1 and no password, and repeating it answers 409 |
| ControllerProperties.ShortPasswordScenario | src/controllers/userController.js:87-89 | create with password `short` answers 400 for the password length and changes nothing |
| ControllerProperties.UpdateUnknownIdScenario | src/controllers/userController.js:142-144 | updating an absent id 7 with {name: B} answers 404 |
| ControllerProperties.EmptyTableListScenario | src/controllers/userController.js:36-50 | listing an empty table never answers 200, and with default parameters answers 404 |

## Left out

- `db.js` (pool construction, environment loading, connection logging) and `src/routes/userRoutes.js` (route wiring) have no decision logic and are not part of this model.
- `index.js` starts the server and serves its own older `/users` handlers (no format checks, no pagination, passwords stored as sent). It does not mount the controller's router. Those handlers are not part of this model, which covers `src/controllers/userController.js` as written.
- Express `req`/`res`, `async`/`await` and `console` logging are left out. A response is a `Response` value. The message texts are represented by the `ValidationError` tag and the response constructor.
- bcrypt's salting and cost factor are left out. The hasher is the `hash` parameter of each call, with the random salt folded into it.
- The database's other failures (connectivity, other constraint kinds) are left out. They are the `fault` input. A faulted create is modelled as failing before the sequence advances.
- `parseInt` string parsing is left out: the query parameters arrive already parsed, as `Option<int>`. The parsing of the path segment is also left out: it arrives as a `PathId`.
- JavaScript's dynamic types are left out. Body fields are strings or absent. Numbers, arrays or objects sent in JSON are not modelled.
- String lengths count Unicode scalar values. JavaScript's `.length` counts UTF-16 code units, so the two differ only for characters outside the Basic Multilingual Plane.
- There are no integer width limits: the 32-bit identity column, the 64-bit `LIMIT`/`OFFSET` and floating-point `Math.ceil` for very large counts are all unbounded here.
- Concurrency is left out. Requests are applied to the table one at a time.
- In getAllUsers, a fault in the count query and a fault in the page query both answer 500. The model does not say which of the two failed.
