# Email collector: list page and email API, modelled in Dafny

This project models the core of a small Next.js tool. The tool keeps a list
of email addresses behind a PIN gate. The model has three parts.

- **The list page** (`src/app/page.tsx`):
  - the PIN gate and logout;
  - the client-side search, which derives the shown list `emails` from the
    master list `allEmails`;
  - the checks made before an address is submitted;
  - the text and the file name of an export.
- **The `/api/emails` route** (`src/app/api/emails/route.ts`):
  - GET lists the table newest first;
  - POST validates, normalises and inserts one address;
  - DELETE empties the table.
- **The `/api/emails/reorder` route** (`src/app/api/emails/reorder/route.ts`):
  PUT writes one `sort_order` value per entry of the `emailOrders` array,
  inside a single transaction.

Modules, one per file:

- `Text`: the ASCII meaning of `trim`, `toLowerCase`, `includes` and
  `join`, with `Split` as the reference inverse of `Join`.
- `EmailFormat`: `validateEmail`. It holds the pattern
  `^[^\s@]+@[^\s@]+\.[^\s@]+$` as it reads (`MatchesPattern`, an existential
  over where the `@` and the `.` fall). It also holds a direct check on
  characters (`ValidateEmail`). They are proved equivalent.
- `ClientPage`: the page's pure helpers and the class `HomePage`. The
  class holds the component state fields, and its methods are the event
  handlers.
- `EmailsRoute`: the class `EmailsTable`. Its fields are the rows and the
  AUTO_INCREMENT counter. Its methods are the GET, POST and DELETE handlers.
- `ReorderRoute`: the class `OrderTable`. Its field is the `sort_order`
  column, a map from row id to order value. Its method `Put` is the PUT
  handler: a loop of per-entry updates over a saved snapshot, which is
  restored on failure.
- `Http` and `Wrappers`: the reply record (status, `success`, text) and `Option`.

Failures of the database and of request parsing are parameters. A `DbFault`
or a `Fault` says whether the connection, BEGIN, a given UPDATE, the INSERT
or COMMIT fails, and with what error code. The current time a new row
receives is a parameter too.

## Notes on the code

- The reorder route has no existence check. An entry naming a missing id
  changes nothing and does not abort the batch.
- POST does not assign any `sort_order`.
- GET orders by `created_at` descending, not by sort order.
- The page's search matches the address only, not a password.
- No drag, touch or optimistic-reorder code exists in these files.

## Model

| member | source | states |
|---|---|---|
| `Text.TrimStart` | src/app/page.tsx:143 | the result is a suffix of the input; everything dropped is whitespace; the result does not start with whitespace |
| `Text.TrimEnd` | src/app/page.tsx:143 | the result is a prefix of the input; everything dropped is whitespace; the result does not end with whitespace |
| `Text.ToLower` | src/app/page.tsx:125 | `toLowerCase`: same length, each upper-case letter replaced in place by its lower-case counterpart, every other character kept in place |
| `Text.Trim` | src/app/page.tsx:143 | `trim`: a slice of the input with only whitespace before and after it, and no whitespace at either end |
| `Text.TrimEnds` | src/app/page.tsx:143 | a string with no whitespace at either end is its own trim |
| `Text.TrimIdempotent` | src/app/page.tsx:143 | trimming twice is trimming once |
| `Text.TrimEmptyIffBlank` | src/app/page.tsx:118 | `trim` gives the empty string exactly when every character is whitespace |
| `Text.TrimNoSpace` | src/app/page.tsx:143 | a string without whitespace is unchanged by `trim` |
| `Text.TrimLowerCommute` | src/app/api/emails/route.ts:38 | the route's `toLowerCase().trim()` equals the page's `trim().toLowerCase()` |
| `Text.ToLowerIdempotent` | src/app/page.tsx:125 | lower-casing is idempotent |
| `Text.Includes` | src/app/page.tsx:125 | `includes` is true exactly when the needle occurs at some index of the text |
| `Text.Join` | src/app/page.tsx:216 | `join`: empty for no pieces, otherwise text that starts with the first piece |
| `Text.SplitJoin` | src/app/page.tsx:216 | splitting a join at the separator gives the pieces back, in order, when no piece contains the separator |
| `Text.JoinLength` | src/app/page.tsx:216 | a join is as long as its pieces plus one separator between each pair |
| `Text.JoinEndsWithLast` | src/app/page.tsx:216 | a join ends with its last piece, so no separator trails it |
| `EmailFormat.IndexOf` | src/app/page.tsx:136 | the result is the index of the first occurrence of the character, or the length when it does not occur |
| `EmailFormat.MatchesPattern` | src/app/page.tsx:136 | the regular expression read as written: some `@` and some later `.` split the string into three non-empty runs without whitespace or `@`; such a string has at least five characters and neither starts nor ends with `@` |
| `EmailFormat.ValidateEmail` | src/app/page.tsx:135-138 | `validateEmail` as a check on characters; an accepted address has at least five characters and neither starts nor ends with `@` |
| `EmailFormat.ValidateEmailSound` | src/app/page.tsx:135-138 | every string the character check accepts matches the pattern |
| `EmailFormat.ValidateEmailComplete` | src/app/page.tsx:135-138 | every string matching the pattern passes the character check: no whitespace, exactly one `@` with something before it, and a `.` after it with a character on each side |
| `EmailFormat.ValidateEmailMatchesPattern` | src/app/page.tsx:135-138 | the character check and the pattern accept exactly the same strings |
| `EmailFormat.ValidEmailIsTrimmed` | src/app/page.tsx:136 | an accepted address is its own trim |
| `ClientPage.SearchMatches` | src/app/page.tsx:124-126 | the search test; the empty query matches every entry, and a query longer than the address never matches it |
| `ClientPage.FilterView` | src/app/page.tsx:124-126 | the filtered list is a subsequence of the master list, no longer than it; each entry occurs in it as often as in the master list when the query matches it, and not at all otherwise |
| `ClientPage.SearchView` | src/app/page.tsx:115-127 | the shown list is never longer than the master list, and shows no entry more often than it occurs there |
| `ClientPage.SearchViewSpec` | src/app/page.tsx:115-127 | a blank query shows the master list unchanged; any other query shows, in master order, exactly the entries whose lower-cased address contains the lower-cased query |
| `ClientPage.SearchIgnoresCase` | src/app/page.tsx:125 | lower-casing the address or the query beforehand does not change whether an entry matches |
| `ClientPage.UntrimmedQueryMatches` | src/app/page.tsx:118-126 | matching uses the untrimmed query, so a query holding whitespace matches no address without whitespace |
| `ClientPage.DecideSubmit` | src/app/page.tsx:143-153 | what is sent is a valid address that trimming and lower-casing leave unchanged; a rejection carries "Email tidak boleh kosong" or "Format email tidak valid" |
| `ClientPage.DecideSubmitCases` | src/app/page.tsx:143-153 | submission works on the trimmed, lower-cased input; a blank input is rejected as empty; any other input is sent exactly when it matches the pattern, and otherwise rejected as invalid |
| `ClientPage.SubmittedIsNormal` | src/app/page.tsx:143-162 | a value the page sends is accepted unchanged when submitted again, and the route's normalisation stores it verbatim |
| `ClientPage.ExportContent` | src/app/page.tsx:216 | the export text of an empty list is empty; otherwise it is as long as the addresses plus one separator per gap |
| `ClientPage.ExportLines` | src/app/page.tsx:216 | for a non-empty list whose addresses hold no line break, splitting the export text at line breaks gives the addresses back in shown order |
| `ClientPage.ExportNoTrailingNewline` | src/app/page.tsx:216 | when the last address is non-empty and holds no line break, the export text does not end in a newline |
| `ClientPage.Sanitize` | src/app/page.tsx:222 | sanitising keeps the length and the letters and digits in place, and turns every other character into `_` |
| `ClientPage.SanitizeSpec` | src/app/page.tsx:222 | sanitising is idempotent |
| `ClientPage.ExportFilename` | src/app/page.tsx:221-223 | the name is `email-list.txt` exactly when there is no query; otherwise its length is the prefix's, the query's and `.txt`'s together |
| `ClientPage.ExportFilenameSpec` | src/app/page.tsx:221-223 | with a query the name starts with `email-list-search-`, ends with `.txt` and carries the sanitised query between them; only letters, digits, `_`, `-` and `.` occur in it |
| `ClientPage.HomePage.constructor` | src/app/page.tsx:13-25 | the initial state: signed out, every text field empty, both lists empty, database not initialised |
| `ClientPage.HomePage.HandlePinSubmit` | src/app/page.tsx:49-61 | the PIN `230299` signs in and clears the error; a wrong PIN keeps the sign-in state and sets a non-empty error; the PIN field is emptied on both branches |
| `ClientPage.HomePage.HandleLogout` | src/app/page.tsx:63-75 | signed out; PIN, error, input, message and query are empty; both lists are empty; the database flag is cleared |
| `ClientPage.HomePage.HandleSearch` | src/app/page.tsx:115-128 | the query is stored as given, and the shown list becomes what the query selects from the master list |
| `ClientPage.HomePage.ClearSearch` | src/app/page.tsx:130-133 | the query is empty and the master list is shown; a second call changes nothing |
| `ClientPage.HomePage.HandleSubmit` | src/app/page.tsx:140-153 | a rejected input sets the matching message and yields no request; an accepted one yields the normalised address and leaves the message |
| `ClientPage.HomePage.HandleExport` | src/app/page.tsx:215-223 | the download holds the export text of the shown list, under the name derived from the query |
| `EmailsRoute.Falsy` | src/app/api/emails/route.ts:26 | `!email` holds of exactly `undefined`, `null`, `false`, `0` and `""` |
| `EmailsRoute.StoredForm` | src/app/api/emails/route.ts:38 | the stored value is the page's normal form `trim().toLowerCase()` of the input: no longer than it, with no upper-case letter and no whitespace at either end |
| `EmailsRoute.InsertErrorReply` | src/app/api/emails/route.ts:46-63 | an INSERT error is a failure; it is a 409 "Email already exists" exactly when its code is `23505`, and otherwise a 500 "Failed to add email" |
| `EmailsRoute.InsertNewest` | src/app/api/emails/route.ts:8 | inserting into a newest-first sequence keeps it newest first and adds exactly that row |
| `EmailsRoute.SortNewestFirst` | src/app/api/emails/route.ts:8 | the result holds every row exactly once, ordered by `created_at` descending |
| `EmailsRoute.BlankStoresEmpty` | src/app/api/emails/route.ts:26-38 | a non-empty address made only of whitespace passes the missing-value check, and any whitespace-only address is stored as the empty string |
| `EmailsRoute.StoredFormIdempotent` | src/app/api/emails/route.ts:38 | normalising a stored value again leaves it unchanged |
| `EmailsRoute.AppendKeepsUnique` | src/app/api/emails/route.ts:36-39 | appending a row with a fresh id and an address not yet present keeps ids and addresses unique |
| `EmailsRoute.EmailsTable.constructor` | lib/db.ts:40-47 | a new table is empty, with the AUTO_INCREMENT counter at 1 |
| `EmailsRoute.EmailsTable.Get` | src/app/api/emails/route.ts:5-19 | with no failure, the reply is a success and the data is every row exactly once, newest first; otherwise a 500 with no data |
| `EmailsRoute.EmailsTable.Post` | src/app/api/emails/route.ts:22-64 | an unreadable body is a 500; a falsy `email` is a 400 "Email is required"; a truthy non-string is a 500; a duplicate is a 409; any other error is a 500; success appends exactly one row holding `toLowerCase().trim()` of the input; addresses stay unique; on every failure the table is unchanged |
| `EmailsRoute.EmailsTable.Delete` | src/app/api/emails/route.ts:67-84 | with no failure the table is empty and the reply a success; otherwise a 500 and the table is unchanged |
| `ReorderRoute.Apply` | src/app/api/emails/reorder/route.ts:24-27 | one UPDATE sets the order value of the row it names, if that row exists, and changes no other row and no set of rows |
| `ReorderRoute.ApplyAll` | src/app/api/emails/reorder/route.ts:23-28 | the updates in array order; they never add or remove a row |
| `ReorderRoute.Commits` | src/app/api/emails/reorder/route.ts:16-31 | only an array body can commit; an empty array commits unless BEGIN or COMMIT fails |
| `ReorderRoute.ApplyAllUntouched` | src/app/api/emails/reorder/route.ts:23-28 | a row that no entry names keeps its order value |
| `ReorderRoute.ApplyAllLastWins` | src/app/api/emails/reorder/route.ts:23-28 | updates run in array order, so the last entry naming a row decides that row's order value |
| `ReorderRoute.ApplyAllUnknownIds` | src/app/api/emails/reorder/route.ts:23-28 | entries naming ids with no row change nothing |
| `ReorderRoute.OrderTable.Put` | src/app/api/emails/reorder/route.ts:5-51 | an unreadable body is a 500; a missing or non-array `emailOrders` is a 400; the batch succeeds exactly when every entry applies and neither BEGIN, an UPDATE nor COMMIT fails; on success every entry's update is reflected in array order; on any failure the column is as it was |

## Left out

- Drag and touch reordering, and the optimistic splice and renumbering of the shown list: no code for them exists in these files.
- Browser and framework effects of the page: `localStorage`, `fetch`, the `setTimeout` that clears the message, `confirm()`, the Blob and link download, and the `loading` flag.
- The network halves of `initializeDatabase`, `fetchEmails`, `handleDelete`, `handleClearAll` and `handleSubmit`. `HomePage.HandleSubmit` stops where the request would be sent.
- The list refreshes after a mutation (`src/app/page.tsx:170-173`, `198-201`, `241-242`). Their outcome depends on React's deferred state updates and on a stale closure.
- Unicode: `trim`, `toLowerCase` and `\s` are modelled on ASCII whitespace and ASCII letters only. Strings are sequences of Unicode scalar values. JavaScript counts a character outside the Basic Multilingual Plane as two UTF-16 code units, and `replace` without the `u` flag replaces each of them, so `Sanitize` and `ExportFilename` give one `_` where the page gives two for such a character.
- JSON numbers in a request body are integers. `NaN` and fractions are not modelled; a fraction would be truthy anyway.
- Database driver details:
  - `lib/db.ts` opens a mysql2 connection, but the routes use `$1` placeholders, call `release()`, and test the PostgreSQL duplicate-key code `23505`.
  - The model follows the routes' intended logic. A duplicate INSERT raises an error with code `23505`.
- The tables in `lib/db.ts` and `scripts/setup-db.js` declare no `sort_order` column. The reorder route's column is therefore modelled on its own, as a map from row id to order value. A row added by POST gets no order value in the model.
- The UNIQUE constraint is modelled as exact string equality. Column collation and the `VARCHAR(255)` length limit are not modelled.
- `EmailsTable.Post`: a failed INSERT leaves the AUTO_INCREMENT counter unchanged. Some engines consume an id on a failed insert.
- `EmailsTable.Get`: SQL leaves the order of rows with equal `created_at` unspecified. The contract promises only a newest-first permutation of the rows, and the body picks one such order.
- Errors raised by ROLLBACK or by `release()` itself are not modelled.
- `OrderTable.Put`: an entry the loop cannot destructure (`null`), or whose UPDATE the database refuses, is modelled as `Malformed`. The model does not tell these cases apart.
- `OrderTable.Put`: an entry without `sort_order` writes NULL, which the integer map cannot represent. An entry without `id`, and any non-object entry other than `null`, updates no row, as an `Assignment` to an absent id does.
- `ExportLines`, `ExportNoTrailingNewline`: the route can store an empty address (a non-empty whitespace-only POST) or one holding a line break (`" X\nY "` stores `"x\ny"`). For such lists the export text can end in a newline, or split into more lines than there are addresses, exactly as `join('\n')` gives; the two lemmas hold only under their stated conditions.
- Not part of this model: the search route, whose matching is SQL `LIKE` inside the database; the per-id delete and edit routes; the health and keep-alive routes; the endpoint and database test scripts; `email-list-clean.tsx`; the layout; `next.config.ts`; the page's JSX.
