# Journal: a Dafny model of the journaling web application

The application lets users register, log in and keep a private journal: each
entry has a title, a content, a comma-separated `tags` string and two
timestamps, and belongs to the user who wrote it. Every page except register,
login and logout needs a logged-in session; view, edit and delete of an entry also
check that it exists (404 otherwise) and then that the session user owns it.
The index lists the user's entries newest first, the profile counts them and
the export downloads them as a CSV file.

The model has seven modules, one file each:

- `Options` (options.dfy): the `Option` datatype, for nullable columns and the session slot.
- `Tags` (tags.dfy): `Entry.tag_list` and the Python string operations it uses
  (`split(",")`, `strip`, `",".join`), with the parser's structural properties.
- `Forms` (forms.dfy): the WTForms validators the handlers depend on, as predicates.
- `Accounts` (accounts.dfy): the `User` class with `set_password` and
  `check_password` over an abstract key-derivation function.
- `Entries` (entries.dfy): the `Entry` row, its timestamps on creation and edit,
  the owner query, the newest-first order and the CSV row shape.
- `Journal` (journal.dfy): a `Store` class holding the users table, the entries
  table, the session slot and a clock, with one method per route of `app.py`.
- `Scenario` (scenario.dfy): client code that drives the store through two users
  and one entry, using only the handlers' specifications.

Modelling choices:

- A handler returns a `Response`: a redirect with the flash message it sets, a
  rendered page with the data passed to its template, a CSV download, a 404, or
  `ServerError` where the handler would crash.
- `app.py` reads `user.id` without checking that the session user exists
  (app.py:29-31, 108-113, 132-135, 151-154, 179-182, 200-202). Only `profile`
  checks it (app.py:89-92). A Flask session is a client cookie that can outlive
  the database, so the model does not tie the session to the users table in
  `Valid()`. Those handlers return `ServerError` when the user is missing.
  `SessionSound()` is kept apart from `Valid()`: it says the session names a
  stored user, and every handler preserves it. Under it, no handler returns
  `ServerError`.
- `add_entry` looks the user up only after the form validates (app.py:107-108).
  So an invalid form with a stale session re-renders the form and does not crash.
- Timestamps come from a clock of natural numbers held by the store and
  advanced by `Tick`. On an edit, `updated_at` is refreshed only when title,
  content or tags actually changed. That is when SQLAlchemy issues an UPDATE and
  runs the `onupdate` hook.
- Ids are allocated from counters starting at 1, so a new id is never in use.

Behaviour worth noting:

- `logout` does not check the session; it empties it whatever it held (app.py:74-78).
- A taken username redirects back to the register route with a warning (app.py:42-44).
- A missing entry id is a 404 before any ownership check (app.py:131, 150, 178).
- Entries with equal `created_at` come back in no particular order, because SQL `ORDER BY` promises none (app.py:31).
- No maximum length is checked for title, tags or username. SQLite does not enforce `String(n)` (models.py:9, 11, 23), and the forms check no maximum (forms.py:6-20).

## Model

| member | source | states |
|---|---|---|
| `Tags.TrimLeft` | models.py:19 | the left half of `strip` never lengthens the string and leaves it empty or starting with a non-whitespace character |
| `Tags.TrimRight` | models.py:19 | the right half of `strip` never lengthens the string and leaves it empty or ending with a non-whitespace character |
| `Tags.TrimLeftSpec` | models.py:19 | the left half of `strip` removes a prefix made only of whitespace and stops at the first non-whitespace character |
| `Tags.TrimRightSpec` | models.py:19 | the right half of `strip` removes a suffix made only of whitespace and stops at the last non-whitespace character |
| `Tags.Strip` | models.py:19 | `str.strip` leaves no whitespace at either end and never lengthens the string |
| `Tags.StripInfix` | models.py:19 | the stripped string is an infix of the input, and everything cut from either side is whitespace |
| `Tags.StripEmptyIff` | models.py:19 | a piece strips to the empty string exactly when it is all whitespace, so those are the pieces `tag_list()` drops |
| `Tags.StripOfStripped` | models.py:19 | a string with no whitespace at either end is left unchanged by `strip` |
| `Tags.StripKeepsNoComma` | models.py:19 | stripping a piece of the split cannot bring a comma into it |
| `Tags.Split` | models.py:19 | `split(",")` yields one more piece than there are commas, and no piece contains a comma |
| `Tags.Clean` | models.py:19 | stripping the pieces and dropping empty ones yields at most as many elements as pieces, each a non-empty, stripped, comma-free tag |
| `Tags.TagList` | models.py:18-19 | every element of `tag_list()` is non-empty, has no comma and equals its own strip; there are at most commas + 1 of them |
| `Tags.Join` | models.py:19 | the `,`-join, the inverse of `split(",")` used by the round trips below, starts with the first piece and is at least as long as the commas between the pieces |
| `Tags.JoinSplit` | models.py:19 | joining the pieces of a split with `,` gives back the original `tags` string |
| `Tags.SplitConcat` | models.py:19 | a comma cuts the split in two: `split(a + "," + b)` is `split(a)` followed by `split(b)` |
| `Tags.SplitNoComma` | models.py:19 | a string without a comma splits into itself alone |
| `Tags.SplitJoin` | models.py:19 | splitting comma-free pieces joined with `,` gives the pieces back |
| `Tags.CleanConcat` | models.py:19 | the filter-and-strip step distributes over concatenation of piece lists, so it keeps the pieces' order |
| `Tags.TagListOfPiece` | models.py:19 | a comma-free string yields its stripped self, or nothing when that is empty |
| `Tags.TagListConcat` | models.py:19 | the tags of `a + "," + b` are the tags of `a` followed by the tags of `b`; with `TagListOfPiece` this says `tag_list()` is exactly the stripped non-empty segments in left-to-right order |
| `Tags.TagListOfDefault` | models.py:11 | the column default `tags = ""` yields no tags |
| `Tags.TagListOfJoin` | models.py:19 | parsing the `,`-join of any list of tags gives that list back |
| `Tags.TagListIdempotent` | models.py:19 | joining `tag_list()` with `,` and parsing again yields the same list |
| `Tags.TagListConsSpace` | models.py:19 | leading whitespace does not change the tags |
| `Tags.TagListConsOther` | models.py:19 | a string starting with a character that is neither whitespace nor a comma has at least one tag |
| `Tags.TagListConsComma` | models.py:19 | a leading comma adds only an empty piece, which yields no tag |
| `Tags.TagListEmptyIff` | models.py:19 | an entry has no tags exactly when its `tags` string holds only whitespace and commas |
| `Tags.TagListExample` | models.py:19 | `"outdoors, hiking"` parses to `["outdoors", "hiking"]` |
| `Forms.CredentialsFormStrips` | forms.py:6-14 | `LoginForm` and `RegisterForm` accept a submission exactly when it is a POST, the username strips to something non-empty and has at least three characters, and the password strips to something non-empty |
| `Forms.EntryFormStrips` | forms.py:16-20 | `EntryForm` accepts a submission exactly when it is a POST and the title and content strip to something non-empty; the tags field is never checked |
| `Forms.DataRequiredStrips` | forms.py:6-20 | the `DataRequired` check passes exactly when the stripped field is non-empty |
| `Accounts.Derive` | models.py:27-28 | `generate_password_hash` keeps the salt it was given, and the hash it returns accepts the password it was made from |
| `Accounts.OnlyThePasswordVerifies` | models.py:27-31 | with a collision-free derivation, `check_password` after `set_password(p)` accepts `p` and nothing else |
| `Accounts.User.constructor` | models.py:21-24 | a new user has the given id and username and no password hash yet |
| `Accounts.User.OnlyThePasswordChecks` | models.py:30-31 | once `set_password(p)` has stored the salted hash, and the derivation is collision-free for that salt, `check_password` accepts `p` and no other password |
| `Accounts.User.SetPassword` | models.py:27-28 | `set_password` stores the salted hash of the password, after which `check_password` of that password holds |
| `Entries.NewEntry` | app.py:109-114 | a new entry holds the submitted title, content and tags, is owned by the session user, and has `created_at` and `updated_at` both set to the current time, the column defaults of models.py:12-13 |
| `Entries.Edited` | app.py:160-162 | an edit sets title, content and tags to the submitted values and leaves every other column except `updated_at` unchanged; when one of the three values differs from the stored one, `updated_at` becomes the current time (the `onupdate` hook of models.py:13) |
| `Entries.EditKeepsStamps` | models.py:12-13 | an edit keeps `created_at`, never moves `updated_at` backwards and keeps the timestamps ordered and no later than the clock |
| `Entries.EditWithSameValues` | models.py:13 | re-submitting the stored values changes nothing, not even `updated_at` |
| `Entries.OwnedAmong` | app.py:31 | the owner filter restricted to some keys holds exactly the rows with those keys whose `user_id` is the owner's |
| `Entries.Owned` | app.py:31 | `filter_by(user_id=uid)` holds exactly the rows of the table whose `user_id` is `uid` |
| `Entries.OwnedAmongStep` | app.py:31 | scanning one more key adds that row when the user owns it, and nothing else |
| `Entries.OwnedAmongCount` | app.py:94 | scanning one more key raises the multiset and the count of owned rows by that row exactly when the user owns it |
| `Entries.Insert` | app.py:31 | inserting into a newest-first listing keeps it newest-first and adds exactly that row |
| `Entries.SortNewestFirst` | app.py:31 | `order_by(created_at.desc())` yields a permutation of the rows ordered by non-increasing `created_at` |
| `Entries.ExportRow` | app.py:209 | an entry's CSV row has one field per header column and starts with the entry's id |
| `Entries.ExportRows` | app.py:208-209 | the export writes one row per entry, in the given order, each the 6-field row of that entry |
| `Entries.ListingOfOwned` | app.py:31 | a listing of the owned rows holds each of them once and nothing else, so its length is their count |
| `Entries.ExportOfOwned` | app.py:202-209 | an export is the header `ID, Title, Content, Tags, Created At, Updated At` followed by one 6-field row per owned entry: every owned entry has its row, and every row after the header is the row of an owned entry |
| `Entries.ListingAndExportAgree` | app.py:202-209 | the index listing (app.py:31) and the export of the same user's entries have the same entries: each listed entry has its row in the export, each exported row is the row of a listed entry, and the export has one more row, the header |
| `Journal.Store.constructor` | app.py:13-18 | the store starts with empty tables and the client's session |
| `Journal.Store.Tick` | models.py:12-13 | the clock advances by one and the tables stay valid |
| `Journal.Store.SelectOwned` | app.py:202 | the query returns each of the user's entries exactly once, in no particular order |
| `Journal.Store.CountOwned` | app.py:94 | the count query returns the number of the user's entries |
| `Journal.Store.Register` | app.py:38-53 | an invalid form re-renders; a taken username leaves the users unchanged; otherwise exactly one user is added with a fresh id and the submitted password, so usernames stay unique |
| `Journal.Store.Login` | app.py:59-69 | the session becomes the username exactly when the form is valid, the user exists and the password checks; otherwise the session is unchanged |
| `Journal.Store.Logout` | app.py:74-78 | the session is empty afterwards, whatever it held |
| `Journal.Store.Profile` | app.py:84-95 | no session redirects to login; a missing user redirects to login; otherwise the page shows the number of the user's entries, and the handler never crashes |
| `Journal.Store.Index` | app.py:24-32 | no session redirects to login; otherwise the page lists exactly the session user's entries, each once, ordered by non-increasing `created_at` |
| `Journal.Store.AddEntry` | app.py:101-120 | no session redirects to login; an invalid form re-renders; a valid one adds exactly one entry under a fresh id, owned by the session user, with the submitted fields and both timestamps from the clock, and leaves every existing entry unchanged; when nothing is added, the id counter is unchanged too |
| `Journal.Store.ViewEntry` | app.py:126-139 | no session redirects to login; a missing id is a 404 before ownership is looked at; another user's entry is refused; only the owner gets the entry |
| `Journal.Store.EditEntry` | app.py:145-167 | the same gates in the same order; a non-owner changes nothing; the owner's valid edit changes only that entry's title, content and tags (and `updated_at`); no other entry changes |
| `Journal.Store.DeleteEntry` | app.py:173-189 | the same gates in the same order; a non-owner changes nothing; the owner's delete removes exactly that id and keeps every other entry |
| `Journal.Store.ExportEntries` | app.py:195-217 | no session redirects to login; otherwise the download is the header followed by one row per entry of the session user |
| `Scenario.AliceLogsIn` | app.py:38-69 | registering and then logging in with the right password gives a valid store whose session is that user; in between, the body checks that a wrong password leaves the session empty |
| `Scenario.AliceWritesAnEntry` | app.py:101-118 | an entry added with tags `"outdoors, hiking"` belongs to the session user and keeps that tags string, which `Tags.TagListExample` parses to two tags |
| `Scenario.BobLogsIn` | app.py:38-69 | a second user registers with a different id, logs in, and neither the first user nor any entry changes |
| `Scenario.BobIsRefused` | app.py:126-189 | with bob logged in, viewing and deleting alice's entry are both refused: the store stays valid, the entries table is unchanged and the entry is still alice's |

## Left out

- Flask plumbing is not modelled: URL routing, the HTTP method of a route (a GET to `/delete/<id>` is a 405 before the handler runs), `url_for`, the wording of flash messages, templates and the colour palette. A response names its redirect target, the meaning of its flash message and the data given to its template.
- `send_file` is not modelled: the `BytesIO` encoding, the `text/csv` mimetype and the `journal_entries.csv` file name.
- `csv.writer` quoting and the text rendering of integers and datetimes are not modelled. The export is a sequence of rows of typed fields.
- The SQLAlchemy/SQLite store is not modelled: `db.create_all`, transactions, and the `backref` relationship. The tables are in-memory maps.
- SQLite may reuse the largest rowid after that row is deleted. The model's counters never reuse an id.
- werkzeug's hashing algorithm and its random salt are not modelled. They become a key-derivation function given to the store, with the salt as a parameter of `Register`.
- The CSRF token of `validate_on_submit` is not modelled. A form is valid when the request is a POST (`post`) and the field validators pass.
- `datetime.utcnow` is not modelled: timestamps come from a natural-number clock. A new row reads the clock once for both stamps, so `created_at == updated_at`; the two column defaults of models.py:12-13 call `utcnow` separately, so a stored row's stamps can differ by microseconds.
- `Entries.EditKeepsStamps`: the model's clock never runs backwards, so `updated_at` never decreases and never falls before `created_at`; `utcnow` can be set back on a real host, and then an edit could store an earlier `updated_at`.
- `Tags.Strip`: Python's `str.strip` removes every Unicode whitespace character; the model removes space, tab, newline and carriage return only. `Forms.DataRequiredStrips` inherits the same whitespace set.
- Concurrent requests and the session signing secret are out of scope. One request is handled at a time.
- The re-rendered edit form after an invalid POST shows the submitted values. The model's `EditPage` carries the stored entry only.
- Entries with no owner (`user_id` is nullable) are representable but never created by any handler.
