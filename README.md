# Guestbook API: a verified model of its query builder and handlers

The guestbook is a small web service. Users register with an email address
and password and activate their account with an emailed token. They then
post public or private messages, list, view, edit, delete and search them,
and upvote other users' public messages. Everything goes through one
database helper, `Database` in `db.py`. It composes parameterized
PostgreSQL statements from dictionaries of column/value pairs using
psycopg2's `sql` composables.

This project models that helper, the handlers built on it and the
credential check every message handler depends on. The modules are:

- `Outcomes`: Option and Result.
- `Sql`: values, rows, and the statement tree psycopg2 composes: text fragments, identifiers and literals. It also holds `_compose_kv_and` and the facts about it: every value is bound as a literal, in order, and no value ever becomes SQL text.
- `Like`: PostgreSQL's `LIKE` with its default `\` escape. It shows that `%term%` means "term occurs as a substring" for terms without wildcards, and that wildcards in a term are not escaped.
- `Queries`: the five statements `db.py` composes (`get`, `get_contains`, `write`, `update`, `delete`). For each it gives the parameters bound, the identifiers named, and the fact that parentheses balance.
- `Conditions`: the WHERE clause of `get` as a condition tree. It proves that the tree prints exactly the fragments `get` emits and that it parses the way PostgreSQL parses them, with AND binding tighter than OR. It then states which rows the clause admits.
- `Store`: the database as a class. It has a map from table names to rows, one id sequence per table, per-column UNIQUE constraints, column defaults, and a log of the calls made. `Get`, `GetOne`, `GetContains`, `Write`, `Update` and `Delete` are specified through pure functions on rows. The lemmas prove that ids stay unique, that inserts which leave the id to the sequence keep every id at or below it, and that unique columns stay unique.
- `Http`: responses. A response is a reply with a status and body, a raised `HTTPException` (status, detail, headers), or an uncaught error, which the framework turns into a 500.
- `Dependencies`: `validate_user`.
- `Messages`: the seven message handlers.
- `Accounts`: `activate` and `register`.

Each handler is a method over the `Database` object. Its postcondition ties the response, the new tables and id sequences to pure functions of the old tables, and lists the statements the handler sends, in order. Lemmas about those functions prove the promises of the service:

- Only visible messages are listed or found.
- Only the owner edits or deletes a message.
- A user upvotes a message at most once, and never their own or a private message.
- Posting and then viewing, or editing and then viewing, shows the new text.
- A duplicate email is refused.
- A new account cannot log in until it is activated.
- The mailed token activates exactly the new account, and only once.
- After activation the account logs in with its password.

Three points about the search's WHERE clause:

- A comment in the search handler (`routers/messages.py:81-83`) says that combining `contains` with `where` and `or_where` returns rows beyond "visible and matching". The code as written wraps the `where`/`or_where` group in its own parentheses (`db.py:54-69`). `Conditions.SingleKeyIntersects` proves that with one `contains` key, which is what the search handler passes, the clause admits exactly the visible rows whose message matches.
- With two or more `contains` keys, the AND attaches only to the last `LIKE`. `Conditions.MultiKeyBypassesWhere` shows that a row matching the first pattern is admitted whatever the filter says. No handler passes more than one key.
- The contains group is emitted without surrounding parentheses (`" where {}"`, `db.py:48-49`), so its OR-joined terms are not wrapped in parentheses.

## Model

| member | source | states |
|---|---|---|
| Sql.ComposeKv | db.py:28-34 | the composed list is empty exactly when there are no pairs |
| Sql.ComposeKvFacts | db.py:28-34 | the composed list binds exactly the pairs' values as literals and names exactly their columns, both in dict order |
| Sql.ComposeKvLayout | db.py:28-34 | pair i renders as its identifier, the joiner and its literal at pieces 4i..4i+2, a separator follows every pair but the last, and n pairs render as exactly 4n-1 pieces |
| Sql.ComposeKvNoParens | db.py:28-34 | a list composed with a non-parenthesis separator and joiner holds no parenthesis |
| Sql.ParensFacts | db.py:52-69 | wrapping a piece in `(...)` binds and names nothing new and keeps it balanced |
| Like.SurroundMeansOccurs | db.py:44-46 | `x like '%v%'` holds exactly when v occurs as a substring of x, for a term with no `%`, `_` or `\` |
| Like.PercentTermMatchesAll | db.py:44-46 | the term is not escaped: searching for `%` matches every string |
| Like.UnderscoreTermIsWildcard | db.py:44-46 | the term is not escaped: searching for `_` matches every non-empty string, whether or not `_` occurs in it, and only the empty string fails |
| Queries.Zip | db.py:170-171 | `zip(columns, values)` pairs columns with values position by position and stops at the shorter list |
| Queries.Select | db.py:36-72 | `get` starts with SELECT and, when the limit is truthy, ends with the limit bound as a literal |
| Queries.SelectParams | db.py:36-72 | `get` binds the contains patterns, then the where values, then the or_where values (only when where is given), then the limit (only when truthy), and nothing else |
| Queries.SelectIdents | db.py:36-72 | `get` names the columns, the table, then the contains, where and or_where columns (or_where only when where is given) |
| Queries.SelectBalanced | db.py:36-72 | every parenthesis `get` emits is matched, for every combination of where, or_where, contains and limit |
| Queries.SelectContaining | db.py:125-139 | `get_contains` starts with SELECT and, when the limit is truthy, ends with the limit bound as a literal |
| Queries.SelectContainingFacts | db.py:125-139 | `get_contains` binds `%search%` once per column, then the limit; names columns, table, then each column again; balanced |
| Queries.SelectContainingIsGet | db.py:125-139 | for a non-empty column list `get_contains` renders the same statement as `get` with a contains dict mapping every column to the term |
| Queries.Insert | db.py:144-154 | `write` starts with INSERT INTO and the table and ends with RETURNING id |
| Queries.InsertFacts | db.py:144-154 | `write` binds exactly the values, names the table then the columns, and is balanced |
| Queries.UpdateStmt | db.py:160-187 | `update` starts with UPDATE, the table and SET |
| Queries.UpdateFacts | db.py:160-187 | `update` binds the zipped values then the where values, names the table, the zipped columns and the where columns, and is balanced |
| Queries.DeleteStmt | db.py:194-208 | `delete` starts with DELETE FROM and the table |
| Queries.DeleteFacts | db.py:194-208 | `delete` binds the where values, names the table then the where columns; with no where it deletes the whole table |
| Conditions.SelectCond | db.py:44-69 | there is no condition exactly when neither where nor contains is given |
| Conditions.SelectCondParsed | db.py:44-69 | the condition tree for every combination respects SQL precedence, with no bare OR directly under an AND |
| Conditions.WhereClauseMeaning | db.py:44-69 | the fragments `get` emits after the column list are exactly ` where ` followed by the printed condition tree, or nothing when there is no condition |
| Conditions.NoFilterWhenAbsent | db.py:44-64 | no WHERE clause is emitted exactly when neither where nor contains is given |
| Conditions.OrWhereNeedsWhere | db.py:64-69 | without where, or_where is ignored |
| Conditions.FilterMeaning | db.py:51-66 | the where/or_where filter admits a row iff all where pairs equal it or all or_where pairs equal it |
| Conditions.SelectCondMeaning | db.py:44-69 | which rows the clause admits, for every combination: the filter alone; or some earlier LIKE holds, or the last LIKE holds and the filter holds |
| Conditions.SingleKeyIntersects | db.py:44-69 | with one contains key, the clause admits a row iff it matches the pattern and passes the filter |
| Conditions.MultiKeyBypassesWhere | db.py:44-69 | with two or more contains keys, a row matching the first pattern is admitted whatever the filter says |
| Store.Capped | db.py:71-72 | `limit` caps the rows only when truthy; a negative limit is an error; a positive one keeps the first rows |
| Store.Updated | db.py:173-192 | an UPDATE changes exactly the rows all where pairs equal, overwriting the assigned columns, in place |
| Store.Kept | db.py:196-212 | a DELETE keeps exactly the rows the where does not select; kept plus deleted is the original count |
| Store.Fetch | db.py:36-117 | `get` can fail only on a negative limit, and every row it returns has exactly the selected columns |
| Store.FetchMeaning | db.py:36-117 | `get` fails iff the limit is truthy and negative; every row returned is a projection of an admitted row; at most limit rows; when no limit applies or fewer rows than the limit come back, every admitted row appears |
| Store.FirstMatchMeaning | db.py:119-123 | `get_one` finds a row iff some row equals all where pairs, and returns the projection of such a row |
| Store.FirstMatchUnique | db.py:119-123 | looked up by a unique column, `get_one` returns that very row |
| Store.Database.Get | db.py:36-117 | `get` on a known table returns the filtered, projected, capped rows and changes no table; an unknown table is an error |
| Store.Database.GetOne | db.py:119-123 | `get_one` is `get` with limit 1, returning the first row or None |
| Store.Database.GetContains | db.py:125-142 | `get_contains` returns the rows where some column contains the term; an empty column list is a malformed statement |
| Store.Database.Write | db.py:144-158 | `write` inserts the row and returns its id: the next id of the sequence, or the id the columns give, which leaves the sequence alone; a NULL id or a unique clash fails and leaves the rows alone, and a clash still uses up a drawn id; a malformed column/value list fails without touching anything; an insert that leaves the id to the sequence keeps the store valid |
| Store.Database.Update | db.py:160-192 | `update` rewrites the matching rows and returns how many matched; an empty or repeated column list is a malformed statement |
| Store.Database.Delete | db.py:194-212 | `delete` removes the matching rows and returns how many there were, keeping the store valid |
| Store.Inserting | db.py:144-158 | a failed insert leaves the rows alone; a successful one appends exactly one row after the old ones; the sequence advances by at most one |
| Store.NewRowHolds | db.py:144-154 | an inserted row holds each given value in its column, the new id, and the defaults elsewhere |
| Store.GivenRowHolds | db.py:144-154 | a row inserted with its own id holds each given value in its column and the defaults elsewhere |
| Store.ExplicitIdInsert | db.py:144-158 | an insert naming `id` does not advance the sequence; a NULL id is refused with nothing changed; on success the given id is returned and the row appended; ids stay unique |
| Store.InsertingKeepsValid | db.py:144-158 | an insert that leaves the id to the sequence keeps ids at or below the sequence and unique columns unique |
| Store.InsertThenFind | db.py:144-158 | after a successful insert, `get_one` by the returned id finds the new row with the values written |
| Store.DuplicateRefused | db.py:144-158 | inserting a value already present in the id or a unique column fails and leaves the rows alone: with a unique violation, or a not-null violation when the given id is NULL; it uses up an id only when the sequence draws one |
| Store.UpdatedKeepsValid | db.py:160-192 | an update that assigns neither the id nor a unique column keeps the table valid |
| Store.KeptKeepsValid | db.py:194-212 | a delete keeps the table valid |
| Store.NoneMatchKeepsAll | db.py:160-212 | when nothing matches, update and delete leave the rows unchanged |
| Dependencies.Authenticated | dependencies.py:21-31 | an accepted login is the id of a user row with that email, active, whose hash the password verifies |
| Dependencies.AuthenticatedMeaning | dependencies.py:21-31 | credentials are accepted iff the user with that email is active and the password verifies against its hash |
| Dependencies.AuthenticatedRow | dependencies.py:21-31 | for a known email, the answer is that user's id exactly when active and verified, None otherwise |
| Dependencies.InactiveRefused | dependencies.py:26-31 | an inactive account is refused whatever the password |
| Dependencies.ValidateUser | dependencies.py:21-31 | returns the user's id, raises 401 with `WWW-Authenticate: Basic`, changes no table or sequence, and sends exactly one SELECT of the user by email |
| Messages.VisibleFilter | routers/messages.py:149-151 | the where/or_where pair admits a message iff it is public or private and owned by the requester |
| Messages.AllMessages | routers/messages.py:121-153 | listing either replies 200 with rows showing exactly id, message and created_at, or fails |
| Messages.AllMessagesMeaning | routers/messages.py:121-153 | listing fails iff num is negative; lists only visible messages, at most num when num is positive, and when num is 0 or fewer than num come back, every visible one |
| Messages.GetAllMessages | routers/messages.py:121-153 | the handler answers the listing of the guestbook table, changes nothing, and sends exactly one SELECT with the visibility filter and num as limit |
| Messages.SearchResult | routers/messages.py:78-89 | search either replies 200 with rows showing exactly id, message and created_at, or fails |
| Messages.SearchResultMeaning | routers/messages.py:78-89 | for a term with no `%`, `_` or `\`: search fails iff num is negative; returns only visible messages containing the term, at most num when num is positive, and when num is 0 or fewer than num come back, all of them |
| Messages.SearchMessages | routers/messages.py:78-89 | the handler answers the search result, changes nothing, and sends exactly one SELECT with the visibility filter, the `message` pattern and num as limit |
| Messages.ViewAnswer | routers/messages.py:102-118 | viewing either replies 200 with exactly id, message and created_at, or raises 404 or 403 without headers |
| Messages.ViewAbsent | routers/messages.py:107-112 | viewing an unknown id is a 404 |
| Messages.ViewFound | routers/messages.py:107-118 | a private message of another user is a 403; otherwise id, message and created_at are shown |
| Messages.DisclosedProjected | routers/messages.py:107-118 | the decision depends only on the columns the handler selects |
| Messages.ViewMessage | routers/messages.py:102-118 | the handler answers the view decision, changes nothing, and sends exactly one SELECT of the message by id |
| Messages.WriteMessage | routers/messages.py:44-50 | posting inserts message, author and privacy flag, advances the sequence as the insert does and replies with the new id, keeping the store valid; it sends exactly one INSERT |
| Messages.PostedRow | routers/messages.py:47-48 | the posted row holds the message, the author, the flag and the default created_at |
| Messages.PostThenView | routers/messages.py:44-50 | after posting, the author viewing the returned id sees the message |
| Messages.EditZip | routers/messages.py:70-71 | the edit assigns exactly message and private |
| Messages.EditAbsent | routers/messages.py:62-67 | editing an unknown id is a 404 |
| Messages.EditFound | routers/messages.py:62-75 | only the author may edit; anyone else gets a 403 |
| Messages.UpdateMessage | routers/messages.py:53-75 | a refused edit changes nothing and sends only the owner lookup; an allowed one sends the lookup then the UPDATE, rewrites the message and privacy of that id and reports the count; no sequence moves |
| Messages.EditedRow | routers/messages.py:70-71 | an edit keeps id, author and created_at |
| Messages.EditThenView | routers/messages.py:53-75 | after editing, the author viewing the message sees the new text |
| Messages.OwnedMeaning | routers/messages.py:159 | the delete selects a row iff it has that id and belongs to the requester |
| Messages.DeleteOwnOnly | routers/messages.py:159 | a delete removes only the requester's message with that id |
| Messages.DeleteMessage | routers/messages.py:156-165 | deleting nothing is a 400 with the tables untouched; otherwise the count is reported and the store stays valid; exactly one DELETE is sent and no sequence moves |
| Messages.DeletedThenGone | routers/messages.py:156-165 | after a successful delete, viewing that id is a 404 for everyone |
| Messages.VoteMeaning | routers/messages.py:31-32 | the vote lookup selects exactly this user's vote on this message |
| Messages.VoteLookup | routers/messages.py:31-34 | the lookup finds a row iff the user already voted for the message |
| Messages.UpvoteAbsent | routers/messages.py:20-25 | upvoting an unknown id is a 404 |
| Messages.UpvoteFound | routers/messages.py:20-36 | one's own or a private message is a 403; a second vote is a 403; otherwise the vote goes ahead |
| Messages.VoteRow | routers/messages.py:38-39 | the vote row records the user and the message |
| Messages.UpvoteKeepsSingle | routers/messages.py:31-39 | an accepted vote keeps every (user, message) pair to at most one vote |
| Messages.SecondUpvoteRefused | routers/messages.py:31-39 | after a vote is recorded, the same user voting again is refused |
| Messages.UpvoteLookups | routers/messages.py:20-34 | before deciding, an upvote sends one or two SELECTs and nothing else: the message lookup, then the vote lookup only for someone else's public message |
| Messages.UpvoteChecks | routers/messages.py:20-36 | the two lookups give the refusal decision and change nothing; the vote lookup is sent only after the message lookup, and always when the vote goes ahead |
| Messages.Upvote | routers/messages.py:14-41 | a refused vote changes no table and no sequence and sends only the lookups; an accepted one sends the two lookups and the INSERT, inserts the vote, advances the upvotes sequence as the insert does and confirms; the store stays valid |
| Accounts.ActivationTarget | routers/accounts.py:30-36 | the user to activate is the one the token row holds; otherwise a 403 for an unknown token, a crash for a vanished user, or a 403 for an active one |
| Accounts.ActivationChecks | routers/accounts.py:30-36 | the lookups give the activation decision (an unknown token is a 403, a vanished user fails, an active user is a 403) and change nothing; the user lookup is sent only for a known token |
| Accounts.Activate | routers/accounts.py:25-48 | a refused activation changes nothing and sends only the lookups; otherwise the lookups and one UPDATE are sent, that user is marked active and the count is reported; no sequence moves |
| Accounts.MarkActive | routers/accounts.py:39-41 | the update sets the user's active flag and activation time, sends exactly that UPDATE and replies with the number of rows updated |
| Accounts.ActivatedRow | routers/accounts.py:39-40 | activation sets a truthy active flag and changes no other column |
| Accounts.ActivatedFound | routers/accounts.py:34-40 | after activation, looking the user up by id finds a row whose active flag is truthy |
| Accounts.ActivateOnce | routers/accounts.py:33-45 | the same token used again is refused as already activated |
| Accounts.ActivateThenLogIn | routers/accounts.py:39-41 | after activation the user logs in exactly when the password verifies |
| Accounts.WriteAccount | routers/accounts.py:66-71 | the user insert, then the token insert for the new id; each sequence advances as its insert does; the user row stays if the token insert fails or the tokens table is missing |
| Accounts.Register | routers/accounts.py:51-85 | invalid input is a 400 with nothing sent, a duplicate email a 406, a failed mail a 500 with the link; otherwise 201; the mail carries the activation link; the inserts sent and the new rows and sequences are those of the user and token inserts |
| Accounts.RegisteredRow | routers/accounts.py:66-67 | the user row holds the email, the hash and the default activity flag |
| Accounts.TokenRow | routers/accounts.py:70-71 | the token row holds the token and the new user's id |
| Accounts.DuplicateEmailRefused | routers/accounts.py:82-84 | an email already registered is refused with 406 and no row is added |
| Accounts.RegisteredInactive | routers/accounts.py:66-67 | a new account cannot log in before activation |
| Accounts.TokenHeld | routers/accounts.py:69-71 | the stored token leads back to the new user |
| Accounts.NewUserFound | routers/accounts.py:66-67 | the new user is found by its id with the default activity flag |
| Accounts.RegisterThenActivate | routers/accounts.py:66-73 | the mailed token activates exactly the newly registered user |

## Left out

- Connection handling is not modelled: `Database.open`/`close`, `get_db`, the environment lookup and cursor creation. Each handler receives the `Database` object.
- The debug `print` of the composed statement in `get` is output only.
- The models do not render statements to text (`as_string`) or quote identifiers. A statement is the sequence of its fragments, identifiers and literals.
- Password hashing and verification (bcrypt through passlib) are parameters: `hashed` in `Accounts.Register` and `verify` in `Dependencies.ValidateUser`.
- Mail sending (`prep_and_send`, SMTP) is the `delivered` parameter of `Accounts.Register`. The message text is left out.
- The uuid4 token and the request's base URL are parameters of `Accounts.Register`.
- Pydantic's `EmailStr` check and normalisation are the `email: Option<string>` parameter. None stands for a failed validation.
- FastAPI's own request validation (the 8-16 character password bounds, a non-integer id) is left out. It answers 422 before any handler runs.
- Columns are not checked against a schema. A column a row lacks reads as NULL: `get` projects it as NULL, and a `where` on it matches nothing. An insert or update that names it adds it to the row and succeeds. PostgreSQL raises UndefinedColumn in all of these cases, and the handlers would answer 500.
- Every column's type is left out. `'true'` and `'now()'` are stored as the literal strings `activate` passes, and `created_at` comes from a per-table default row.
- The database's own clock is left out.
- Python's cross-type equality is left out: `1 == True` is true in Python, but `Int(1)` and `Bool(true)` differ in the model.
- Rows come back in insertion order. The database gives no order without ORDER BY, and the model fixes one.
- Only per-column UNIQUE constraints are modelled, not composite ones. `Store.Database.Update` does not check them: the invariant lemmas require the assignment to avoid unique columns.
- Transactions and concurrency are left out. After a failed statement the model takes no account of the aborted transaction.
- A pattern ending in a lone `\` is treated as a literal backslash, where PostgreSQL raises an error.
- SQL NULL comparisons are two-valued in the model: a comparison with NULL is false. This is exact for the negation-free conditions `get` builds.
- `get_most_upvoted_messages` reads the `top_messages` view, which is defined in the database schema. The schema is not part of this model.
- `routers/test.py` and `main.py` are not part of this model.
- Store.Database.Write: the store stays valid (every id at or below its table's sequence) only for inserts that leave the id to the sequence; an explicit id above the sequence breaks that bound, and for those `Store.ExplicitIdInsert` proves only that ids stay unique.
- Messages.Upvote: when the `upvotes` table is missing it states only that no vote is confirmed, not which error is raised.
- Accounts.Activate: when the `users` table is missing it states only that nothing is activated.
