# Online Notes Manager — a Dafny model of its core

Online Notes Manager is a Flask application for writing notes. A registered
user keeps notes and categories in SQLite, and every read or write of a note or
a category is scoped by the note's id and its owner's id. A guest keeps notes
in the browser's localStorage instead. When a guest logs in, the browser posts
those notes to the server, and a reconciler inserts each one unless it was
synced before. On the dashboard, a timer shows a one-time popup for every note
whose reminder time has come.

This project models that core in Dafny and proves properties of the model:

- `models.dfy` (module `Models`): the three tables and every query and
  statement on them. The tables are sequences in rowid order, with an
  AUTOINCREMENT counter each. The reads are functions. The writes are methods
  of the class `Store`, each specified by a function of the old tables. The
  proved properties:
  - owner scoping: a user's writes never touch another user's rows;
  - the listing order (pinned first, newest first) and that the listing is a
    permutation of the user's rows;
  - the duplicate check of the synced insert.
- `sync.dfy` (module `Sync`): the reconciler `sync_local_to_cloud` and the
  route that feeds it. It covers:
  - validation, which is three-valued: pass, fail, or raise;
  - the timestamp normalisation;
  - an entry that raises, which ends the request after the inserts made
    before it.

  The loop is a `while` over the store. It is proved equal to a fold of one
  step per entry, and the batch lemmas are proved about that fold:
  - accepted entries land;
  - the first raising entry ends the batch;
  - a repeated sync adds nothing;
  - a note repeated inside a batch lands once;
  - every added row is trimmed, unpinned, and has no category.
- `notes.dfy`, `categories.dfy` and `auth.dfy` (modules `NoteRoutes`,
  `CategoryRoutes` and `AuthRoutes`): the route handlers. Each takes the form or
  JSON body, applies the route's checks in the source's order, and calls the
  store.
- `utils.dfy` (module `Utils`): `validate_required`, `slugify`,
  `sanitize_text` and `json_response`.
- `guest_notes.dfy` (module `GuestNotes`): the guest note list of
  `static/js/main.js`. It is a class whose `notes` field the operations change
  in place.
- `reminders.js` becomes `reminders.dfy` (module `Reminders`): the
  `checkReminders` loop over the note cards and the persisted list of fired ids.
- `strings.dfy`, `seqs.dfy`, `json.dfy` and `wrappers.dfy` hold the shared
  pieces:
  - Python's `strip`, JavaScript's `trim` and SQLite's text order;
  - filtering and sorting of rows;
  - the parsed-JSON value type;
  - `Option`.

The clock, ISO-8601 parsing, password hashing, id generation and `new Date`
are parameters of the operations that use them.

The category a note points at is not checked against its owner. The listings
join it by id alone, so the model does the same (`Models.CategoryName`).

## Model

| member | source | states |
|---|---|---|
| Strings.StripSet | app_modules/notes.py:59-60 | `str.strip()`: the result is the part of the input after its leading whitespace run, and all that follows it is whitespace. It is empty exactly when the input is all whitespace, and otherwise starts and ends with a non-whitespace character |
| Strings.StripSetOf | app_modules/notes.py:59-60 | the strip is determined by its parts: whitespace, then a middle that neither starts nor ends with whitespace, then whitespace, strips to that middle |
| Strings.StripSetIdempotent | app_modules/utils.py:89-92 | stripping a stripped string changes nothing |
| Strings.LexLeReflexive | app_modules/models.py:147 | under `ORDER BY name`, every name sorts no later than itself |
| Strings.LexLeTotal | app_modules/models.py:147 | any two names are ordered one way or the other |
| Strings.LexLeTransitive | app_modules/models.py:147 | the name order chains |
| Strings.LexLeAntisymmetric | app_modules/models.py:147 | two names that each sort no later than the other are equal |
| Strings.LowerAscii | app_modules/models.py:124 | LIKE's case folding keeps the length and folds each ASCII capital to its lower-case letter |
| Strings.ReplaceAll | app_modules/sync.py:14 | `replace("Z", "+00:00")` leaves no "Z"; a string without "Z" is unchanged; no character appears that was in neither input |
| Strings.ReplaceAllAppend | app_modules/sync.py:14 | replacing works piece by piece over a concatenation |
| Strings.ReplaceFirst | static/js/reminders.js:63 | `replace("Reminder:", "")` leaves text without the label unchanged, and removes a leading label exactly once |
| Seqs.FirstWhere | app_modules/models.py:22-25 | `fetchone()` finds a row exactly when one matches, and returns the first match |
| Seqs.Filter | static/js/main.js:60 | `filter` keeps exactly the elements that pass the test and never grows the list |
| Seqs.FilterMultiset | app_modules/models.py:70 | a WHERE clause keeps every copy of a selected row and no copy of another |
| Seqs.FilterAppend | static/js/main.js:60 | filtering keeps the relative order of the kept elements |
| Seqs.FilterKeepsAll | static/js/main.js:60 | when every element passes, filtering changes nothing |
| Seqs.FilterDropsOne | static/js/main.js:60 | when exactly one element fails, filtering cuts out just that element |
| Seqs.FilterSorted | app_modules/models.py:123-125 | selecting rows from an ordered listing keeps it ordered |
| Seqs.AppendSorted | app_modules/models.py:198 | appending a row whose key exceeds every key keeps the table in key order |
| Seqs.InsertBy | app_modules/models.py:71 | inserting into an ordered list gives an ordered list with exactly one more copy of the new element |
| Seqs.SortBy | app_modules/models.py:71 | ORDER BY returns the same rows, in order |
| Utils.ValidateRequired | app_modules/utils.py:100-110 | true exactly when every field is a string holding a non-whitespace character |
| Utils.CollapseShape | app_modules/utils.py:91 | after `re.sub(r"[\s_-]+", "-")`: no whitespace or underscore is left; no two hyphens touch; a leading hyphen comes from a leading separator; every other character came from the input |
| Utils.CollapseChars | app_modules/utils.py:91 | every collapsed character is a hyphen or a non-separator of the input |
| Utils.CollapseHyphens | app_modules/utils.py:91 | collapsing never leaves two adjacent hyphens |
| Utils.Slugify | app_modules/utils.py:81-93 | None or "" gives "". Otherwise the slug holds only a-z, 0-9 and "-", has no hyphen at either end, and has no two hyphens in a row. Its letters and digits are exactly those of the lower-cased text, in order; since every other character is a hyphen, this is the slug without its hyphens |
| Utils.CollapseKeepsLetters | app_modules/utils.py:91 | collapsing separator runs into hyphens keeps every letter and digit, in order |
| Utils.SlugKeepsLetters | app_modules/utils.py:89-92 | no step of slugify (strip, dropping other characters, collapsing, stripping hyphens) drops or reorders a letter or digit of the lower-cased text |
| Utils.SlugChars | app_modules/utils.py:89-91 | lowering, dropping `[^\w\s-]` and collapsing leave only slug characters |
| Utils.HyphensStripped | app_modules/utils.py:92 | `strip("-")` keeps the collapsed string's guarantees and removes the end hyphens |
| Utils.SlugifyExample | app_modules/utils.py:84 | 'My New Category' becomes 'my-new-category', as the docstring says |
| Utils.HtmlEscape | app_modules/utils.py:77 | no `<`, `>`, `"` or `'` survives escaping; whitespace-only text is unchanged |
| Utils.UnescapeEscapeChar | app_modules/utils.py:77 | unescaping undoes the escape of one character, whatever follows it |
| Utils.UnescapeEscape | app_modules/utils.py:77 | escaping loses nothing: unescape after escape gives the input back |
| Utils.SanitizeText | app_modules/utils.py:69-78 | None, "" and whitespace-only text give "". Otherwise the result has no `<`, `>`, quote or apostrophe, and no whitespace at either end. It is the escape of the stripped text, so unescaping it gives the stripped text back: no character is lost |
| Utils.HtmlEscapeAppend | app_modules/utils.py:77 | escaping distributes over concatenation |
| Utils.StripEscape | app_modules/utils.py:77-78 | stripping after escaping is escaping after stripping: escaping leaves whitespace alone, and an entity starts with "&" and ends with ";" |
| Utils.StripKeepsChars | app_modules/utils.py:78 | stripping adds no character |
| Utils.JsonResponse | app_modules/utils.py:117-125 | the payload's keys are the keyword arguments plus "status"; "status" holds the status; every keyword argument keeps its value |
| Models.PinFlag | app_modules/models.py:57 | `int(pinned)` is 0 or 1, and 1 exactly for True |
| Models.UserById | app_modules/models.py:19-29 | a user is found exactly when one has the id, and it is that user |
| Models.UserByUsername | app_modules/models.py:32-42 | a user is found exactly when one has the name, and it is a user with that name |
| Models.UserByUsernameUnique | app_modules/models.py:32-42 | since usernames are UNIQUE, looking up a user's name returns that very user |
| Models.NoteById | app_modules/models.py:78-87 | a note is found exactly when a row has both the id and the owner, and it is that row |
| Models.NoteByIdFinds | app_modules/models.py:78-87 | every stored note is found by its own id and owner |
| Models.NoteByIdOwnerOnly | app_modules/models.py:78-87 | another user's note is never found |
| Models.OwnedNotes | app_modules/models.py:70 | exactly the notes of the user |
| Models.NoteBeforeIsTotalPreorder | app_modules/models.py:71 | `pinned DESC, updated_at DESC` compares any two notes and chains |
| Models.PinnedFirst | app_modules/models.py:71 | in a listing, every pinned note comes before every unpinned one |
| Models.CategoryName | app_modules/models.py:67-69 | the LEFT JOIN gives a name exactly when a category with the note's category id exists, and it is that category's name |
| Models.ListRows | app_modules/models.py:65-74 | the listed rows are a permutation of the selected notes, in listing order, each joined with its category name |
| Models.NotesByUser | app_modules/models.py:62-75 | the rows are the user's notes, each as often as stored, pinned first then newest first |
| Models.SearchNotes | app_modules/models.py:114-128 | a note is listed exactly when the user owns it and its title or content contains the query; the rows are in listing order |
| Models.SearchWithinListing | app_modules/models.py:114-128 | a search never shows a note the full listing would not show |
| Models.MatchesIgnoresCase | app_modules/models.py:124 | the search matches the same notes whatever the case of the query's ASCII letters |
| Models.UpdatedNotes | app_modules/models.py:90-101 | only the row with the id and owner takes the new fields and a new updated_at; id, owner and created_at never change |
| Models.UpdateKeepsValid | app_modules/models.py:93-99 | an update keeps the table's keys ordered and below the counter |
| Models.DeletedNotes | app_modules/models.py:104-111 | exactly the rows other than the one with the id and owner remain |
| Models.UpdateMissingIsNoop | app_modules/models.py:90-101 | an update of a note the user does not own changes nothing |
| Models.DeleteMissingIsNoop | app_modules/models.py:104-111 | a delete of a note the user does not own changes nothing |
| Models.UpdateIsolation | app_modules/models.py:95-97 | an update leaves every other user's notes exactly as they were |
| Models.DeleteIsolation | app_modules/models.py:107-110 | a delete leaves every other user's notes exactly as they were |
| Models.DeleteRemovesOne | app_modules/models.py:104-111 | deleting a stored note removes exactly that row and keeps the others in order |
| Models.CategoryBeforeIsTotalPreorder | app_modules/models.py:147 | `ORDER BY name ASC` compares any two categories and chains |
| Models.OwnedCategories | app_modules/models.py:147 | exactly the categories of the user |
| Models.CategoriesOf | app_modules/models.py:144-149 | the user's categories, each as often as stored, in name order |
| Models.RenamedCategories | app_modules/categories.py:51-54 | only the category with the id and owner takes the new name |
| Models.DeletedCategories | app_modules/categories.py:67-70 | exactly the categories other than the one with the id and owner remain |
| Models.CategoryWritesIsolated | app_modules/categories.py:50-70 | renaming or deleting leaves every other user's categories exactly as they were |
| Models.InsertSynced | app_modules/models.py:156-182 | afterwards a row with the note's owner, title, content and created_at exists. If one existed before, nothing changes; otherwise exactly one unpinned row without category or reminder is appended |
| Models.InsertSyncedIdempotent | app_modules/models.py:156-182 | inserting the same synced note twice equals inserting it once, whatever the clock reads the second time |
| Models.AppendNoteValid | app_modules/models.py:216-227 | appending a row with the counter's id keeps the table's keys ordered and below the counter |
| Models.InsertSyncedValid | app_modules/models.py:175-181 | the synced insert keeps the notes-table invariant |
| Models.Store.constructor | app_modules/models.py:189-233 | the tables start empty, with every counter at 1 |
| Models.Store.InsertUser | app_modules/auth.py:42-46 | one user with the next id is appended; nothing else changes |
| Models.Store.CreateNote | app_modules/models.py:49-59 | one note with the next id and both timestamps set to now is appended |
| Models.Store.UpdateNote | app_modules/models.py:90-101 | the notes become UpdatedNotes of the old notes; the invariant holds |
| Models.Store.DeleteNote | app_modules/models.py:104-111 | the notes become DeletedNotes of the old notes |
| Models.Store.CreateCategory | app_modules/models.py:135-141 | one category with the next id is appended |
| Models.Store.RenameCategory | app_modules/categories.py:51-55 | the categories become RenamedCategories of the old ones |
| Models.Store.DeleteCategory | app_modules/categories.py:67-71 | the categories become DeletedCategories of the old ones; notes keep their category ids |
| Models.Store.InsertSyncedNote | app_modules/models.py:156-182 | the notes table and its counter become InsertSynced of the old ones |
| NoteRoutes.DraftOf | app_modules/notes.py:59-63 | title and content are stripped, and each is empty exactly when the field was blank. `pinned` holds exactly for "on". A reminder is never "" |
| NoteRoutes.DashboardOf | app_modules/notes.py:34-49 | the query is stripped. A blank query lists exactly NotesByUser (every note of the user); otherwise exactly SearchNotes for the query (every owned note that matches). The rows are always the user's own, in listing order, and the categories are exactly CategoriesOf the user |
| NoteRoutes.Create | app_modules/notes.py:57-78 | an empty note is refused exactly when title and content are both blank, and nothing is stored; otherwise one note is appended |
| NoteRoutes.Edit | app_modules/notes.py:89-111 | "not found" exactly when the user does not own the note, with nothing changed; otherwise the note is updated with the stripped form |
| NoteRoutes.EditAcceptsEmpty | app_modules/notes.py:95-110 | unlike create, edit stores a note whose title and content are both empty |
| NoteRoutes.Delete | app_modules/notes.py:128-135 | "not found" exactly when the user does not own the note; otherwise exactly one row goes |
| NoteRoutes.PinDraft | app_modules/notes.py:148-158 | the write-back keeps title, content, category and reminder, and flips the pinned flag |
| NoteRoutes.PinFlips | app_modules/notes.py:143-160 | pin flips the owned note's flag, sets updated_at, and touches no other row |
| NoteRoutes.PinTwice | app_modules/notes.py:143-160 | pinning twice restores the note except for updated_at |
| NoteRoutes.Pin | app_modules/notes.py:143-160 | 404 exactly for a note the user does not own; otherwise the reply is the new flag and the notes are PinnedNotes of the old ones |
| NoteRoutes.ShownTitle | app_modules/notes.py:199 | `title or "Untitled"` is never empty and is the title when there is one |
| NoteRoutes.DownloadOf | app_modules/notes.py:198-208 | the file is the shown title, a blank line, then the content; its name is the shown title plus ".txt" |
| NoteRoutes.DownloadRoundTrip | app_modules/notes.py:202 | for a one-line title, the file's first line is the title and everything after the blank line is the content |
| CategoryRoutes.NameField | app_modules/categories.py:26-27 | a body that is not a JSON object fails (it has no `get`); a missing name reads as ""; otherwise the read fails exactly when the name is not a string, and gives the name when it is one |
| CategoryRoutes.CheckName | app_modules/categories.py:26-30 | three outcomes: a crash exactly for a body that is not an object or a non-string name; a 400 exactly for a blank one; otherwise the non-empty stripped name |
| CategoryRoutes.ApiGetCategories | app_modules/categories.py:15-17 | exactly the user's categories, each as often as the table holds it and no other row, in name order |
| CategoryRoutes.ApiCreateCategory | app_modules/categories.py:25-33 | the name is checked as above; on success one category with the stripped name is appended, and a duplicate name is allowed |
| CategoryRoutes.ApiRenameCategory | app_modules/categories.py:41-57 | the name is checked as above; on success only the user's own category is renamed, and success is reported even if none matched |
| CategoryRoutes.ApiDeleteCategory | app_modules/categories.py:65-73 | only the user's own category goes; success is always reported; notes are untouched |
| CategoryRoutes.DeletedCategoryDangles | app_modules/categories.py:67-70 | after a delete, a note that pointed at the category is listed without a category name |
| AuthRoutes.Register | app_modules/auth.py:17-49 | refusals come in order: missing fields, then a password mismatch, then a taken name, each iff its condition. Only on success is a user appended, holding the stripped name and the hash of the stripped password |
| AuthRoutes.Login | app_modules/auth.py:58-79 | missing fields iff either field is blank; the same "invalid" iff the name is unknown or the password does not verify; a logged-in user has that name and a verifying hash |
| AuthRoutes.LoginIffCredentials | app_modules/auth.py:67-79 | with unique names, login succeeds exactly when some user has the name and the password verifies against their hash |
| AuthRoutes.RegisterThenLogin | app_modules/auth.py:19-79 | whoever registers can log in with the same name and password |
| GuestNotes.GuestBook.constructor | static/js/main.js:9-17 | the book holds the loaded list |
| GuestNotes.GuestBook.CreateNote | static/js/main.js:30-43 | exactly one note, with a trimmed title and content, is appended at the end |
| GuestNotes.GuestBook.FindIndex | static/js/main.js:48 | `findIndex`: -1 exactly when no note has the id; otherwise the first position holding it |
| GuestNotes.GuestBook.UpdateNote | static/js/main.js:46-55 | an unknown id changes nothing. Otherwise only the first note with the id gets the trimmed title and content, keeping its id and created_at |
| GuestNotes.GuestBook.DeleteNote | static/js/main.js:58-63 | exactly the notes without the id remain, in order |
| GuestNotes.GuestBook.SaveFromEditor | static/js/main.js:137-159 | the handler gets past its empty-note alert exactly when title or content is not blank, and nothing changes otherwise. Without an edit id a new note is appended. With one, an unknown id changes nothing (the editor is still cleared), and otherwise only the first note with the id gets the trimmed title and content |
| GuestNotes.DeleteRemovesOne | static/js/main.js:58-63 | deleting a unique id removes exactly that note from between its neighbours |
| GuestNotes.DeleteUnknownIsNoop | static/js/main.js:60 | deleting an id no note has changes nothing |
| GuestNotes.CreateThenDelete | static/js/main.js:30-63 | creating a note with a fresh id and then deleting it restores the list |
| Reminders.RunExtends | static/js/reminders.js:57-77 | the fired list only grows, by one id per popup shown |
| Reminders.RunFiresOnce | static/js/reminders.js:68-75 | a fired list without repeats stays without repeats: no reminder fires twice |
| Reminders.RunFiresOnlyDue | static/js/reminders.js:63-75 | each new id and its popup come from a card whose reminder time has come, and the popup is "Reminder: " + its title |
| Reminders.RunCoversDue | static/js/reminders.js:57-77 | after a check, every due card's id is in the fired list |
| Reminders.RunQuiet | static/js/reminders.js:69 | when every due card has fired already, a check shows nothing and changes nothing |
| Reminders.RunTwiceIsQuiet | static/js/reminders.js:85-87 | the repeated timer check at the same time shows no popup |
| Reminders.ReminderLog.constructor | static/js/reminders.js:8-14 | the log holds the stored list |
| Reminders.ReminderLog.CheckReminders | static/js/reminders.js:50-78 | no cards means nothing happens; otherwise the new list and the popups are those of the card-by-card check `Run` |
| Sync.FieldIn | app_modules/sync.py:27 | `field in note`: on a dict, key membership; None exactly for values without an `in` test |
| Sync.CheckFields | app_modules/sync.py:26-30 | passes exactly for a dict holding every listed field with a str, int or float value; a dict never raises |
| Sync.ValidateLocalNote | app_modules/sync.py:19-32 | passes exactly the well-formed dicts; only a non-dict can raise |
| Sync.ValidateNonContainerRaises | app_modules/sync.py:27 | validating null, a boolean or a number raises |
| Sync.ValidateString | app_modules/sync.py:26-30 | a string entry raises exactly when it contains "title", and is skipped otherwise |
| Sync.NormalizeTimestamp | app_modules/sync.py:7-16 | a string that parses, with "Z" read as "+00:00", gives its ISO form; anything else gives the current UTC time |
| Sync.ZuluIsUtc | app_modules/sync.py:14 | "...Z" and "...+00:00" normalise alike |
| Sync.ClassifySpec | app_modules/sync.py:48-60 | an entry raises exactly when Aborts holds and is inserted exactly when Accepts holds, with its stripped title and content (not both empty) and its normalised created_at |
| Sync.ClassifyIgnoresClock | app_modules/sync.py:59-60 | an entry whose created_at parses is handled the same at any time |
| Sync.ClassifyShaped | app_modules/sync.py:52-57 | an accepted entry has a stripped title and content that are not both empty |
| Sync.SyncBatch | app_modules/sync.py:45-46 | a falsy or non-list batch changes nothing |
| Sync.AbortedStaysPut | app_modules/sync.py:48-69 | once an entry has raised, later entries change nothing |
| Sync.SyncOnlyAppends | app_modules/sync.py:48-69 | the reconciler only appends rows |
| Sync.AcceptedEntriesLand | app_modules/sync.py:48-69 | malformed and empty entries do not stop the batch: when none raises, every accepted entry's note is in the table afterwards |
| Sync.AbortEndsBatch | app_modules/sync.py:48-69 | the first entry that raises ends the request, and the table keeps what the entries before it inserted |
| Sync.ReplayChangesNothing | app_modules/sync.py:48-69 | replaying entries whose notes are all stored already changes nothing |
| Sync.SyncTwiceAddsNothing | app_modules/sync.py:35-69 | a second sync of the same batch adds no row, provided no entry raises and every accepted created_at parses |
| Sync.RepeatInBatchIsNoop | app_modules/sync.py:48-69 | a note repeated later in the same batch is inserted once |
| Sync.SyncedRowsShape | app_modules/sync.py:52-69 | every row a batch adds is the user's, trimmed, not empty, unpinned, and has no category or reminder |
| Sync.SyncLocalToCloud | app_modules/sync.py:35-69 | the store's notes, counter and abort flag after the loop are those of SyncBatch on the old table; users and categories are unchanged |
| Sync.NotesField | app_modules/notes.py:176-177 | `data.get("notes", [])`: fails exactly when the body is not a dict, and a missing key gives an empty list |
| Sync.MissingNotesIsNoop | app_modules/notes.py:176-179 | a body without "notes" changes nothing |
| Sync.SyncRoute | app_modules/notes.py:169-181 | a non-dict body fails before any write. Otherwise the notes become those of SyncBatch on the body's "notes", and the reply fails exactly when an entry raised |

## Left out

- Strings.LowerAscii: LIKE folds ASCII letters only, and so does the model. A query containing `%` or `_` is not modelled: the model treats it as literal text, whereas SQLite reads them as wildcards.
- Strings.StripSet: the model knows only ASCII whitespace. Python's `str.strip()` and JavaScript's `trim()` also remove Unicode spaces.
- Utils.Slugify: ASCII only. Python's `lower()` and `\w` also fold and keep non-ASCII letters and digits; the model drops them.
- Sync.NormalizeTimestamp: the work of `datetime.fromisoformat(...).isoformat()` and `datetime.utcnow()` is the parameter `parseIso` and the clock; ISO-8601 itself is not modelled.
- `to_iso`, `now_iso` and `format_timestamp` (app_modules/utils.py:28-62): none of the modelled code calls them.
- `hash_password` and `verify_password` (app_modules/utils.py:14-21), and werkzeug's hashing in auth.py: hashing is an opaque parameter `hash` / `verify`.
- `logout` (app_modules/auth.py:88-92), the GET branches that render templates, `flash` messages and redirects: these are session and presentation only. A refusal is returned as an outcome value instead.
- Models.Store.InsertUser: requires the name to be free, which register checks just before. A concurrent second insert, which UNIQUE would reject with an exception, is not modelled.
- Concurrent requests: every route is one atomic step against the store.
- SQLite foreign keys: SQLite does not enforce them by default and the code does not turn them on, so no referential check is modelled. A deleted category stays referenced by its notes.
- The category form field is `Option<int>`. The model does not follow how SQLite coerces a non-numeric category text under INTEGER affinity.
- The order of rows that tie under ORDER BY is unspecified in SQL. The model fixes one order; the contracts state only the ORDER BY order and that the rows are a permutation.
- Request bodies that are not JSON at all (`request.json` / `get_json()` failing) are not modelled. The category and sync routes receive the parsed JSON value, which may be any value and not only an object.
- Reminders.Card: every card has a title. A due card without a `.note-title` element makes `querySelector(...).textContent` (static/js/reminders.js:73) throw, which stops the rest of the check before its id is recorded; the model does not represent such a card.
- `loadNotes`/`saveNotes` (static/js/main.js:9-22) are the identity here. The fallback for an unparsable localStorage value is not modelled, and neither is `loadTriggered`'s in static/js/reminders.js:8-14.
- `generateId` (static/js/main.js:25-27) and `new Date().toISOString()` are parameters. Uniqueness of generated ids is not assumed; the guest lemmas that need a fresh id say so.
- `renderNotes`, `attachNoteButtons`, `loadNoteIntoEditor`, `initGuestMode` (static/js/main.js:66-130, 163-171), `showReminderPopup` and the timer set-up (static/js/reminders.js:31-47, 81-90): DOM, popups and timers. The editor's edit id is a parameter, with "" meaning unset.
- Reminders.ParseReminder: `new Date(ts)` is the parameter `parse`. It yields an invalid date rather than throwing, and a comparison with an invalid date is false, so such a reminder never fires.
