/**
 * The SQLite store behind the application (app_modules/models.py): three tables
 * (users, categories, notes) with AUTOINCREMENT primary keys, the queries that
 * read them and the statements that change them. Every statement that touches a
 * note or a category is scoped by its owner (`WHERE id = ? AND user_id = ?`).
 *
 * Tables are sequences of rows in insertion order (rowid order). Read-only
 * queries are functions of those sequences; the statements that write are
 * methods of the class Store, whose fields are the tables and the next value of
 * each AUTOINCREMENT counter. CURRENT_TIMESTAMP is a parameter `now`.
 */
module Models {
  import opened Wrappers
  import opened Strings
  import Seqs

  datatype User = User(id: int, username: string, passwordHash: string)

  datatype Category = Category(id: int, userId: int, name: string)

  datatype Note = Note(
    id: int,
    userId: int,
    title: string,
    content: string,
    categoryId: Option<int>,
    pinned: int,
    reminder: Option<string>,
    createdAt: string,
    updatedAt: string)

  /** What a caller of create_note / update_note supplies for a note. */
  datatype Draft = Draft(
    title: string,
    content: string,
    categoryId: Option<int>,
    pinned: bool,
    reminder: Option<string>)

  /** One row of `SELECT n.*, c.name AS category_name ... LEFT JOIN categories c`. */
  datatype NoteRow = NoteRow(note: Note, categoryName: Option<string>)

  // ---------------------------------------------------------------------------
  // Table invariants: AUTOINCREMENT keys grow with the rowid and stay below the
  // counter, usernames are UNIQUE, and pinned is stored as int(bool).
  // ---------------------------------------------------------------------------

  predicate UserIdLess(a: User, b: User) { a.id < b.id }
  predicate CategoryIdLess(a: Category, b: Category) { a.id < b.id }
  predicate NoteIdLess(a: Note, b: Note) { a.id < b.id }

  ghost predicate UsersValid(users: seq<User>, nextId: int)
  {
    && nextId >= 1
    && Seqs.SortedBy(users, UserIdLess)
    && (forall i :: 0 <= i < |users| ==> 1 <= users[i].id < nextId)
    && (forall i, j :: 0 <= i < j < |users| ==> users[i].username != users[j].username)
  }

  ghost predicate CategoriesValid(categories: seq<Category>, nextId: int)
  {
    && nextId >= 1
    && Seqs.SortedBy(categories, CategoryIdLess)
    && (forall i :: 0 <= i < |categories| ==> 1 <= categories[i].id < nextId)
  }

  ghost predicate NotesValid(notes: seq<Note>, nextId: int)
  {
    && nextId >= 1
    && Seqs.SortedBy(notes, NoteIdLess)
    && (forall i :: 0 <= i < |notes| ==> 1 <= notes[i].id < nextId)
    && (forall i :: 0 <= i < |notes| ==> notes[i].pinned == 0 || notes[i].pinned == 1)
  }

  /** Python's int(b) for a bool. */
  function PinFlag(b: bool): (n: int)
    ensures n == 0 || n == 1
    ensures n == 1 <==> b
  {
    if b then 1 else 0
  }

  // ---------------------------------------------------------------------------
  // Users
  // ---------------------------------------------------------------------------

  /** get_user_by_id: `SELECT ... FROM users WHERE id = ?`, fetchone(). */
  function UserById(users: seq<User>, id: int): (r: Option<User>)
    ensures r.Some? <==> exists i :: 0 <= i < |users| && users[i].id == id
    ensures r.Some? ==> r.value in users && r.value.id == id
  {
    Seqs.FirstWhere(users, (u: User) => u.id == id)
  }

  /** get_user_by_username: `SELECT ... FROM users WHERE username = ?`, fetchone(). */
  function UserByUsername(users: seq<User>, username: string): (r: Option<User>)
    ensures r.Some? <==> exists i :: 0 <= i < |users| && users[i].username == username
    ensures r.Some? ==> r.value in users && r.value.username == username
  {
    Seqs.FirstWhere(users, (u: User) => u.username == username)
  }

  /** Because usernames are UNIQUE, the lookup by username finds the one user with that name. */
  lemma UserByUsernameUnique(users: seq<User>, nextId: int, i: int)
    requires UsersValid(users, nextId)
    requires 0 <= i < |users|
    ensures UserByUsername(users, users[i].username) == Some(users[i])
  {
    assert forall k :: 0 <= k < |users| && k != i ==> users[k].username != users[i].username;
  }

  // ---------------------------------------------------------------------------
  // Notes: the owner guard and the queries
  // ---------------------------------------------------------------------------

  /** `WHERE id = ? AND user_id = ?` */
  predicate Guarded(n: Note, id: int, userId: int)
  {
    n.id == id && n.userId == userId
  }

  /** get_note_by_id: the row with that id, but only if the user owns it. */
  function NoteById(notes: seq<Note>, id: int, userId: int): (r: Option<Note>)
    ensures r.Some? <==> exists i :: 0 <= i < |notes| && Guarded(notes[i], id, userId)
    ensures r.Some? ==> r.value in notes && r.value.id == id && r.value.userId == userId
  {
    Seqs.FirstWhere(notes, (n: Note) => Guarded(n, id, userId))
  }

  /** Under the table invariant the guarded row is unique, so NoteById finds exactly it. */
  lemma NoteByIdFinds(notes: seq<Note>, nextId: int, i: int)
    requires NotesValid(notes, nextId)
    requires 0 <= i < |notes|
    ensures NoteById(notes, notes[i].id, notes[i].userId) == Some(notes[i])
  {
    assert forall k :: 0 <= k < |notes| && k != i ==> notes[k].id != notes[i].id by {
      forall k | 0 <= k < |notes| && k != i ensures notes[k].id != notes[i].id {
        assert k < i ==> NoteIdLess(notes[k], notes[i]);
        assert i < k ==> NoteIdLess(notes[i], notes[k]);
      }
    }
  }

  /** Another user's note is never returned, whatever id is asked for. */
  lemma NoteByIdOwnerOnly(notes: seq<Note>, id: int, userId: int)
    requires forall i :: 0 <= i < |notes| && notes[i].id == id ==> notes[i].userId != userId
    ensures NoteById(notes, id, userId) == None
  {
  }

  /** `WHERE n.user_id = ?` */
  function OwnedNotes(notes: seq<Note>, userId: int): (r: seq<Note>)
    ensures forall n :: n in r <==> n in notes && n.userId == userId
  {
    Seqs.Filter(notes, (n: Note) => n.userId == userId)
  }

  /** `ORDER BY n.pinned DESC, n.updated_at DESC`: a sorts no later than b. */
  predicate NoteBefore(a: Note, b: Note)
  {
    a.pinned > b.pinned || (a.pinned == b.pinned && LexLe(b.updatedAt, a.updatedAt))
  }

  lemma NoteBeforeIsTotalPreorder()
    ensures Seqs.TotalPreorder(NoteBefore)
  {
    forall a: Note, b: Note ensures NoteBefore(a, b) || NoteBefore(b, a) {
      LexLeTotal(a.updatedAt, b.updatedAt);
    }
    forall a: Note, b: Note, c: Note | NoteBefore(a, b) && NoteBefore(b, c)
      ensures NoteBefore(a, c)
    {
      if a.pinned == b.pinned == c.pinned {
        LexLeTransitive(c.updatedAt, b.updatedAt, a.updatedAt);
      }
    }
  }

  /** A pinned note is listed before every unpinned one. */
  lemma PinnedFirst(rows: seq<NoteRow>, i: int, j: int)
    requires forall a, b :: 0 <= a < b < |rows| ==> NoteBefore(rows[a].note, rows[b].note)
    requires 0 <= i < |rows| && 0 <= j < |rows|
    requires rows[i].note.pinned == 1 && rows[j].note.pinned == 0
    ensures i < j
  {
    assert !NoteBefore(rows[j].note, rows[i].note);
  }

  /** `c.name` of the LEFT JOIN: the name of the category whose id the note holds, if any. */
  function CategoryName(categories: seq<Category>, categoryId: Option<int>): (r: Option<string>)
    ensures categoryId.None? ==> r.None?
    ensures r.Some? <==> categoryId.Some? && exists i :: 0 <= i < |categories| && categories[i].id == categoryId.value
    ensures r.Some? ==> exists i :: 0 <= i < |categories| && categories[i].id == categoryId.value && categories[i].name == r.value
  {
    if categoryId.None? then None
    else
      var c := Seqs.FirstWhere(categories, (c: Category) => c.id == categoryId.value);
      if c.None? then None else Some(c.value.name)
  }

  function JoinRows(notes: seq<Note>, categories: seq<Category>): seq<NoteRow>
  {
    seq(|notes|, i requires 0 <= i < |notes| => NoteRow(notes[i], CategoryName(categories, notes[i].categoryId)))
  }

  /** The notes of a sequence of joined rows. */
  function NotesOf(rows: seq<NoteRow>): seq<Note>
  {
    seq(|rows|, i requires 0 <= i < |rows| => rows[i].note)
  }

  /** The rows of `query` joined and ordered as both note listings do. */
  function ListRows(selected: seq<Note>, categories: seq<Category>): (rows: seq<NoteRow>)
    ensures multiset(NotesOf(rows)) == multiset(selected)
    ensures forall a, b :: 0 <= a < b < |rows| ==> NoteBefore(rows[a].note, rows[b].note)
    ensures forall k :: 0 <= k < |rows| ==>
      rows[k].note in selected && rows[k].categoryName == CategoryName(categories, rows[k].note.categoryId)
  {
    NoteBeforeIsTotalPreorder();
    var sorted := Seqs.SortBy(selected, NoteBefore);
    var rows := JoinRows(sorted, categories);
    assert NotesOf(rows) == sorted;
    assert forall k :: 0 <= k < |rows| ==> rows[k].note in multiset(sorted);
    rows
  }

  /** get_notes_by_user: every note the user owns, once each, pinned first, newest first. */
  function NotesByUser(notes: seq<Note>, categories: seq<Category>, userId: int): (rows: seq<NoteRow>)
    ensures multiset(NotesOf(rows)) == multiset(OwnedNotes(notes, userId))
    ensures forall a, b :: 0 <= a < b < |rows| ==> NoteBefore(rows[a].note, rows[b].note)
    ensures forall k :: 0 <= k < |rows| ==> rows[k].note in notes && rows[k].note.userId == userId
  {
    ListRows(OwnedNotes(notes, userId), categories)
  }

  /** `n.title LIKE ? OR n.content LIKE ?` with the pattern `%query%`. */
  predicate Matches(n: Note, query: string)
  {
    LikeContains(n.title, query) || LikeContains(n.content, query)
  }

  /** search_notes: the user's notes whose title or content contains the query, ordered as above. */
  function SearchNotes(notes: seq<Note>, categories: seq<Category>, userId: int, query: string): (rows: seq<NoteRow>)
    ensures forall n :: n in multiset(NotesOf(rows)) <==> n in notes && n.userId == userId && Matches(n, query)
    ensures forall a, b :: 0 <= a < b < |rows| ==> NoteBefore(rows[a].note, rows[b].note)
    ensures forall k :: 0 <= k < |rows| ==> rows[k].note.userId == userId && Matches(rows[k].note, query)
  {
    var selected := Seqs.Filter(notes, (n: Note) => n.userId == userId && Matches(n, query));
    ListRows(selected, categories)
  }

  /** Every search result is also listed by NotesByUser, with no more copies. */
  lemma {:induction false} SearchWithinListing(notes: seq<Note>, categories: seq<Category>, userId: int, query: string)
    ensures multiset(NotesOf(SearchNotes(notes, categories, userId, query)))
      <= multiset(NotesOf(NotesByUser(notes, categories, userId)))
  {
    var keepS := (n: Note) => n.userId == userId && Matches(n, query);
    var keepO := (n: Note) => n.userId == userId;
    Seqs.FilterMultiset(notes, keepS);
    Seqs.FilterMultiset(notes, keepO);
    assert multiset(Seqs.Filter(notes, keepS)) <= multiset(Seqs.Filter(notes, keepO));
  }

  /** The matching test is ASCII-case-insensitive, as SQLite's LIKE is. */
  lemma MatchesIgnoresCase(n: Note, query: string)
    ensures Matches(n, query) == Matches(n, LowerAscii(query))
  {
    var q := LowerAscii(query);
    assert LowerAscii(q) == q;
  }

  // ---------------------------------------------------------------------------
  // Notes: the writes, as functions of the table
  // ---------------------------------------------------------------------------

  /** The row INSERT INTO notes creates, with both timestamps set to CURRENT_TIMESTAMP. */
  function NewNote(id: int, userId: int, d: Draft, now: string): Note
  {
    Note(id, userId, d.title, d.content, d.categoryId, PinFlag(d.pinned), d.reminder, now, now)
  }

  /** The SET clause of update_note applied to one row. */
  function Edited(n: Note, d: Draft, now: string): Note
  {
    n.(title := d.title, content := d.content, categoryId := d.categoryId,
       pinned := PinFlag(d.pinned), reminder := d.reminder, updatedAt := now)
  }

  /** update_note: the guarded row takes the new fields; every other row is unchanged. */
  function UpdatedNotes(notes: seq<Note>, id: int, userId: int, d: Draft, now: string): (r: seq<Note>)
    ensures |r| == |notes|
    ensures forall i :: 0 <= i < |notes| && !Guarded(notes[i], id, userId) ==> r[i] == notes[i]
    ensures forall i :: 0 <= i < |notes| && Guarded(notes[i], id, userId) ==>
      && r[i].title == d.title && r[i].content == d.content && r[i].categoryId == d.categoryId
      && r[i].pinned == PinFlag(d.pinned) && r[i].reminder == d.reminder && r[i].updatedAt == now
    ensures forall i :: 0 <= i < |notes| ==>
      r[i].id == notes[i].id && r[i].userId == notes[i].userId && r[i].createdAt == notes[i].createdAt
  {
    if notes == [] then []
    else
      [if Guarded(notes[0], id, userId) then Edited(notes[0], d, now) else notes[0]]
        + UpdatedNotes(notes[1..], id, userId, d, now)
  }

  /** An UPDATE keeps every id where it was, so the table invariant still holds. */
  lemma UpdateKeepsValid(notes: seq<Note>, nextId: int, id: int, userId: int, d: Draft, now: string)
    requires NotesValid(notes, nextId)
    ensures NotesValid(UpdatedNotes(notes, id, userId, d, now), nextId)
  {
    var r := UpdatedNotes(notes, id, userId, d, now);
    assert forall i :: 0 <= i < |r| ==> r[i].id == notes[i].id;
    forall a, b | 0 <= a < b < |r| ensures NoteIdLess(r[a], r[b]) {
      assert NoteIdLess(notes[a], notes[b]);
    }
  }

  /** delete_note: every row except the guarded one, in order. */
  function DeletedNotes(notes: seq<Note>, id: int, userId: int): (r: seq<Note>)
    ensures forall n :: n in r <==> n in notes && !Guarded(n, id, userId)
  {
    Seqs.Filter(notes, (n: Note) => !Guarded(n, id, userId))
  }

  /** An UPDATE whose guard matches no row changes nothing. */
  lemma {:induction false} UpdateMissingIsNoop(notes: seq<Note>, id: int, userId: int, d: Draft, now: string)
    requires NoteById(notes, id, userId).None?
    ensures UpdatedNotes(notes, id, userId, d, now) == notes
  {
    var r := UpdatedNotes(notes, id, userId, d, now);
    assert forall i :: 0 <= i < |notes| ==> !Guarded(notes[i], id, userId);
    assert forall i :: 0 <= i < |notes| ==> r[i] == notes[i];
  }

  /** A DELETE whose guard matches no row changes nothing. */
  lemma DeleteMissingIsNoop(notes: seq<Note>, id: int, userId: int)
    requires NoteById(notes, id, userId).None?
    ensures DeletedNotes(notes, id, userId) == notes
  {
    Seqs.FilterKeepsAll(notes, (n: Note) => !Guarded(n, id, userId));
  }

  /** Updating one user's note leaves every other user's notes exactly as they were. */
  lemma {:induction false} UpdateIsolation(notes: seq<Note>, id: int, userId: int, d: Draft, now: string, other: int)
    requires other != userId
    ensures OwnedNotes(UpdatedNotes(notes, id, userId, d, now), other) == OwnedNotes(notes, other)
  {
    if notes != [] {
      UpdateIsolation(notes[1..], id, userId, d, now, other);
      var r := UpdatedNotes(notes, id, userId, d, now);
      assert r[1..] == UpdatedNotes(notes[1..], id, userId, d, now);
      assert r == [r[0]] + r[1..];
      assert notes == [notes[0]] + notes[1..];
      assert r[0].userId == notes[0].userId;
      assert notes[0].userId == other ==> r[0] == notes[0];
    }
  }

  /** Deleting one user's note leaves every other user's notes exactly as they were. */
  lemma {:induction false} DeleteIsolation(notes: seq<Note>, id: int, userId: int, other: int)
    requires other != userId
    ensures OwnedNotes(DeletedNotes(notes, id, userId), other) == OwnedNotes(notes, other)
  {
    if notes != [] {
      DeleteIsolation(notes[1..], id, userId, other);
      var keepD := (n: Note) => !Guarded(n, id, userId);
      var keepO := (n: Note) => n.userId == other;
      var head: seq<Note> := if keepD(notes[0]) then [notes[0]] else [];
      assert notes == [notes[0]] + notes[1..];
      assert DeletedNotes(notes, id, userId) == head + DeletedNotes(notes[1..], id, userId);
      Seqs.FilterAppend(head, DeletedNotes(notes[1..], id, userId), keepO);
      assert Seqs.Filter(head, keepO) == if keepO(notes[0]) then [notes[0]] else [] by {
        if head != [] { assert head[1..] == []; }
      }
    }
  }

  /** Deleting a note the table holds removes exactly that row and keeps the rest in order. */
  lemma DeleteRemovesOne(notes: seq<Note>, nextId: int, i: int)
    requires NotesValid(notes, nextId)
    requires 0 <= i < |notes|
    ensures DeletedNotes(notes, notes[i].id, notes[i].userId) == notes[..i] + notes[i + 1..]
  {
    var keep := (n: Note) => !Guarded(n, notes[i].id, notes[i].userId);
    forall k | 0 <= k < |notes| && k != i ensures keep(notes[k]) {
      assert k < i ==> NoteIdLess(notes[k], notes[i]);
      assert i < k ==> NoteIdLess(notes[i], notes[k]);
    }
    Seqs.FilterDropsOne(notes, keep, i);
  }

  // ---------------------------------------------------------------------------
  // Categories
  // ---------------------------------------------------------------------------

  /** `ORDER BY name ASC` */
  predicate CategoryBefore(a: Category, b: Category)
  {
    LexLe(a.name, b.name)
  }

  lemma CategoryBeforeIsTotalPreorder()
    ensures Seqs.TotalPreorder(CategoryBefore)
  {
    forall a: Category, b: Category ensures CategoryBefore(a, b) || CategoryBefore(b, a) {
      LexLeTotal(a.name, b.name);
    }
    forall a: Category, b: Category, c: Category | CategoryBefore(a, b) && CategoryBefore(b, c)
      ensures CategoryBefore(a, c)
    {
      LexLeTransitive(a.name, b.name, c.name);
    }
  }

  /** `WHERE user_id = ?` on categories */
  function OwnedCategories(categories: seq<Category>, userId: int): (r: seq<Category>)
    ensures forall c :: c in r <==> c in categories && c.userId == userId
  {
    Seqs.Filter(categories, (c: Category) => c.userId == userId)
  }

  /** get_categories: the user's categories, each once, in name order. */
  function CategoriesOf(categories: seq<Category>, userId: int): (r: seq<Category>)
    ensures multiset(r) == multiset(OwnedCategories(categories, userId))
    ensures Seqs.SortedBy(r, CategoryBefore)
    ensures forall k :: 0 <= k < |r| ==> r[k] in categories && r[k].userId == userId
  {
    CategoryBeforeIsTotalPreorder();
    var r := Seqs.SortBy(OwnedCategories(categories, userId), CategoryBefore);
    assert forall k :: 0 <= k < |r| ==> r[k] in multiset(r);
    r
  }

  /** `UPDATE categories SET name = ? WHERE id = ? AND user_id = ?` */
  function RenamedCategories(categories: seq<Category>, id: int, userId: int, name: string): (r: seq<Category>)
    ensures |r| == |categories|
    ensures forall i :: 0 <= i < |categories| ==>
      r[i] == if categories[i].id == id && categories[i].userId == userId
              then categories[i].(name := name) else categories[i]
  {
    if categories == [] then []
    else
      var c := categories[0];
      [if c.id == id && c.userId == userId then c.(name := name) else c]
        + RenamedCategories(categories[1..], id, userId, name)
  }

  /** `DELETE FROM categories WHERE id = ? AND user_id = ?` */
  function DeletedCategories(categories: seq<Category>, id: int, userId: int): (r: seq<Category>)
    ensures forall c :: c in r <==> c in categories && !(c.id == id && c.userId == userId)
  {
    Seqs.Filter(categories, (c: Category) => !(c.id == id && c.userId == userId))
  }

  /** Renaming or deleting a category changes no other user's categories. */
  lemma {:induction false} CategoryWritesIsolated(categories: seq<Category>, id: int, userId: int, name: string, other: int)
    requires other != userId
    ensures OwnedCategories(RenamedCategories(categories, id, userId, name), other) == OwnedCategories(categories, other)
    ensures OwnedCategories(DeletedCategories(categories, id, userId), other) == OwnedCategories(categories, other)
  {
    if categories != [] {
      CategoryWritesIsolated(categories[1..], id, userId, name, other);
      var c := categories[0];
      assert categories == [c] + categories[1..];
      var r := RenamedCategories(categories, id, userId, name);
      assert r == [r[0]] + RenamedCategories(categories[1..], id, userId, name);
      var keepD := (x: Category) => !(x.id == id && x.userId == userId);
      var keepO := (x: Category) => x.userId == other;
      var head: seq<Category> := if keepD(c) then [c] else [];
      assert DeletedCategories(categories, id, userId) == head + DeletedCategories(categories[1..], id, userId);
      Seqs.FilterAppend(head, DeletedCategories(categories[1..], id, userId), keepO);
      assert Seqs.Filter(head, keepO) == if keepO(c) then [c] else [] by {
        if head != [] { assert head[1..] == []; }
      }
    }
  }

  // ---------------------------------------------------------------------------
  // insert_synced_note
  // ---------------------------------------------------------------------------

  /** The notes table together with its AUTOINCREMENT counter. */
  datatype NoteTable = NoteTable(rows: seq<Note>, nextId: int)

  /** The duplicate test: same owner, title, content and created_at. */
  predicate SameOrigin(n: Note, userId: int, title: string, content: string, createdAt: string)
  {
    n.userId == userId && n.title == title && n.content == content && n.createdAt == createdAt
  }

  predicate HasDuplicate(rows: seq<Note>, userId: int, title: string, content: string, createdAt: string)
  {
    exists i :: 0 <= i < |rows| && SameOrigin(rows[i], userId, title, content, createdAt)
  }

  /** The row a synced note becomes: no category, unpinned, no reminder, the client's created_at. */
  function SyncedNote(id: int, userId: int, title: string, content: string, createdAt: string, now: string): Note
  {
    Note(id, userId, title, content, None, 0, None, createdAt, now)
  }

  /**
   * insert_synced_note: skip the note when a row with the same origin exists,
   * otherwise append it. Either way such a row exists afterwards.
   */
  function InsertSynced(t: NoteTable, userId: int, title: string, content: string, createdAt: string, now: string): (r: NoteTable)
    ensures HasDuplicate(r.rows, userId, title, content, createdAt)
    ensures HasDuplicate(t.rows, userId, title, content, createdAt) ==> r == t
    ensures !HasDuplicate(t.rows, userId, title, content, createdAt) ==>
      r.rows == t.rows + [SyncedNote(t.nextId, userId, title, content, createdAt, now)] && r.nextId == t.nextId + 1
  {
    if HasDuplicate(t.rows, userId, title, content, createdAt) then t
    else
      var rows := t.rows + [SyncedNote(t.nextId, userId, title, content, createdAt, now)];
      assert SameOrigin(rows[|rows| - 1], userId, title, content, createdAt);
      NoteTable(rows, t.nextId + 1)
  }

  /** Syncing the same note twice inserts it once, whatever the clock says the second time. */
  lemma InsertSyncedIdempotent(t: NoteTable, userId: int, title: string, content: string, createdAt: string, now1: string, now2: string)
    ensures InsertSynced(InsertSynced(t, userId, title, content, createdAt, now1), userId, title, content, createdAt, now2)
      == InsertSynced(t, userId, title, content, createdAt, now1)
  {
  }

  /** Appending a note with the counter's id keeps the notes-table invariant. */
  lemma AppendNoteValid(notes: seq<Note>, nextId: int, n: Note)
    requires NotesValid(notes, nextId)
    requires n.id == nextId && (n.pinned == 0 || n.pinned == 1)
    ensures NotesValid(notes + [n], nextId + 1)
  {
    assert forall k :: 0 <= k < |notes| ==> NoteIdLess(notes[k], n);
    Seqs.AppendSorted(notes, n, NoteIdLess);
    var r := notes + [n];
    assert forall k :: 0 <= k < |r| ==> r[k] == n || r[k] == notes[k];
  }

  /** A synced insert keeps the notes-table invariant. */
  lemma InsertSyncedValid(t: NoteTable, userId: int, title: string, content: string, createdAt: string, now: string)
    requires NotesValid(t.rows, t.nextId)
    ensures NotesValid(InsertSynced(t, userId, title, content, createdAt, now).rows,
                       InsertSynced(t, userId, title, content, createdAt, now).nextId)
  {
    if !HasDuplicate(t.rows, userId, title, content, createdAt) {
      AppendNoteValid(t.rows, t.nextId, SyncedNote(t.nextId, userId, title, content, createdAt, now));
    }
  }

  // ---------------------------------------------------------------------------
  // The database
  // ---------------------------------------------------------------------------

  class Store {
    var users: seq<User>
    var categories: seq<Category>
    var notes: seq<Note>
    var nextUserId: int
    var nextCategoryId: int
    var nextNoteId: int

    ghost predicate Valid()
      reads this
    {
      && UsersValid(users, nextUserId)
      && CategoriesValid(categories, nextCategoryId)
      && NotesValid(notes, nextNoteId)
    }

    /** create_tables on a fresh database: three empty tables, every counter at 1. */
    constructor ()
      ensures Valid()
      ensures users == [] && categories == [] && notes == []
      ensures nextUserId == 1 && nextCategoryId == 1 && nextNoteId == 1
    {
      users, categories, notes := [], [], [];
      nextUserId, nextCategoryId, nextNoteId := 1, 1, 1;
    }

    /** `INSERT INTO users (username, password_hash)`: the caller has checked the name is free. */
    method InsertUser(username: string, passwordHash: string) returns (id: int)
      requires Valid()
      requires UserByUsername(users, username).None?
      modifies this
      ensures Valid()
      ensures id == old(nextUserId)
      ensures users == old(users) + [User(id, username, passwordHash)]
      ensures nextUserId == old(nextUserId) + 1
      ensures categories == old(categories) && notes == old(notes)
      ensures nextCategoryId == old(nextCategoryId) && nextNoteId == old(nextNoteId)
    {
      id := nextUserId;
      var u := User(id, username, passwordHash);
      assert forall k :: 0 <= k < |users| ==> UserIdLess(users[k], u) && users[k].username != username;
      Seqs.AppendSorted(users, u, UserIdLess);
      users := users + [u];
      assert forall k :: 0 <= k < |users| ==> users[k] == u || users[k] == old(users)[k];
      nextUserId := nextUserId + 1;
    }

    /** create_note */
    method CreateNote(userId: int, d: Draft, now: string) returns (id: int)
      requires Valid()
      modifies this
      ensures Valid()
      ensures id == old(nextNoteId)
      ensures notes == old(notes) + [NewNote(id, userId, d, now)]
      ensures nextNoteId == old(nextNoteId) + 1
      ensures users == old(users) && categories == old(categories)
      ensures nextUserId == old(nextUserId) && nextCategoryId == old(nextCategoryId)
    {
      id := nextNoteId;
      AppendNoteValid(notes, nextNoteId, NewNote(id, userId, d, now));
      notes := notes + [NewNote(id, userId, d, now)];
      nextNoteId := nextNoteId + 1;
    }

    /** update_note */
    method UpdateNote(id: int, userId: int, d: Draft, now: string)
      requires Valid()
      modifies this
      ensures Valid()
      ensures notes == UpdatedNotes(old(notes), id, userId, d, now)
      ensures users == old(users) && categories == old(categories)
      ensures nextUserId == old(nextUserId) && nextCategoryId == old(nextCategoryId) && nextNoteId == old(nextNoteId)
    {
      UpdateKeepsValid(notes, nextNoteId, id, userId, d, now);
      notes := UpdatedNotes(notes, id, userId, d, now);
    }

    /** delete_note */
    method DeleteNote(id: int, userId: int)
      requires Valid()
      modifies this
      ensures Valid()
      ensures notes == DeletedNotes(old(notes), id, userId)
      ensures users == old(users) && categories == old(categories)
      ensures nextUserId == old(nextUserId) && nextCategoryId == old(nextCategoryId) && nextNoteId == old(nextNoteId)
    {
      Seqs.FilterSorted(notes, (n: Note) => !Guarded(n, id, userId), NoteIdLess);
      notes := DeletedNotes(notes, id, userId);
      assert forall k :: 0 <= k < |notes| ==> notes[k] in old(notes);
    }

    /** create_category */
    method CreateCategory(userId: int, name: string) returns (id: int)
      requires Valid()
      modifies this
      ensures Valid()
      ensures id == old(nextCategoryId)
      ensures categories == old(categories) + [Category(id, userId, name)]
      ensures nextCategoryId == old(nextCategoryId) + 1
      ensures users == old(users) && notes == old(notes)
      ensures nextUserId == old(nextUserId) && nextNoteId == old(nextNoteId)
    {
      id := nextCategoryId;
      var c := Category(id, userId, name);
      assert forall k :: 0 <= k < |categories| ==> CategoryIdLess(categories[k], c);
      Seqs.AppendSorted(categories, c, CategoryIdLess);
      categories := categories + [c];
      assert forall k :: 0 <= k < |categories| ==> categories[k] == c || categories[k] == old(categories)[k];
      nextCategoryId := nextCategoryId + 1;
    }

    /** The rename statement of the category API. */
    method RenameCategory(id: int, userId: int, name: string)
      requires Valid()
      modifies this
      ensures Valid()
      ensures categories == RenamedCategories(old(categories), id, userId, name)
      ensures users == old(users) && notes == old(notes)
      ensures nextUserId == old(nextUserId) && nextCategoryId == old(nextCategoryId) && nextNoteId == old(nextNoteId)
    {
      var before := categories;
      categories := RenamedCategories(categories, id, userId, name);
      assert Seqs.SortedBy(categories, CategoryIdLess) by {
        forall a, b | 0 <= a < b < |categories| ensures CategoryIdLess(categories[a], categories[b]) {
          assert CategoryIdLess(before[a], before[b]);
        }
      }
    }

    /** The delete statement of the category API. Notes keep the id of a deleted category. */
    method DeleteCategory(id: int, userId: int)
      requires Valid()
      modifies this
      ensures Valid()
      ensures categories == DeletedCategories(old(categories), id, userId)
      ensures users == old(users) && notes == old(notes)
      ensures nextUserId == old(nextUserId) && nextCategoryId == old(nextCategoryId) && nextNoteId == old(nextNoteId)
    {
      Seqs.FilterSorted(categories, (c: Category) => !(c.id == id && c.userId == userId), CategoryIdLess);
      categories := DeletedCategories(categories, id, userId);
      assert forall k :: 0 <= k < |categories| ==> categories[k] in old(categories);
    }

    /** insert_synced_note */
    method InsertSyncedNote(userId: int, title: string, content: string, createdAt: string, now: string)
      requires Valid()
      modifies this
      ensures Valid()
      ensures NoteTable(notes, nextNoteId)
        == InsertSynced(NoteTable(old(notes), old(nextNoteId)), userId, title, content, createdAt, now)
      ensures users == old(users) && categories == old(categories)
      ensures nextUserId == old(nextUserId) && nextCategoryId == old(nextCategoryId)
    {
      var t := InsertSynced(NoteTable(notes, nextNoteId), userId, title, content, createdAt, now);
      InsertSyncedValid(NoteTable(notes, nextNoteId), userId, title, content, createdAt, now);
      notes, nextNoteId := t.rows, t.nextId;
    }
  }
}
