/**
 * The note routes (app_modules/notes.py) for a logged-in user: the dashboard
 * listing, create, edit, delete, the pin toggle and the plain-text download.
 * Each route reads form fields, checks them, and calls the store with the
 * current user's id; the user id is therefore a parameter of every route.
 *
 * A form field is `Option<string>` (None when the browser did not send it).
 * The category select sends an id or an empty string; SQLite's INTEGER
 * affinity turns the id into a number, so that field is `Option<int>` with
 * None for both "not sent" and "empty".
 */
module NoteRoutes {
  import opened Wrappers
  import opened Strings
  import opened Models

  /** `request.form.get(name, "")` */
  function FormText(field: Option<string>): (s: string)
    ensures field.Some? ==> s == field.value
    ensures field.None? ==> s == ""
  {
    if field.None? then "" else field.value
  }

  /** `value if value else None` */
  function NonEmpty(field: Option<string>): (r: Option<string>)
    ensures r.Some? <==> field.Some? && field.value != ""
    ensures r.Some? ==> r == field
  {
    if field.Some? && field.value != "" then field else None
  }

  datatype NoteForm = NoteForm(
    title: Option<string>,
    content: Option<string>,
    categoryId: Option<int>,
    pinned: Option<string>,
    reminder: Option<string>)

  /** What create and edit pass to the store: stripped text, the checkbox, a reminder only if non-empty. */
  function DraftOf(form: NoteForm): (d: Draft)
    ensures Stripped(d.title) && Stripped(d.content)
    ensures d.title == [] <==> IsBlank(FormText(form.title))
    ensures d.content == [] <==> IsBlank(FormText(form.content))
    ensures d.pinned <==> form.pinned == Some("on")
    ensures d.reminder.Some? ==> d.reminder.value != ""
    ensures d.categoryId == form.categoryId
  {
    StripShape(FormText(form.title));
    StripShape(FormText(form.content));
    Draft(Strip(FormText(form.title)), Strip(FormText(form.content)), form.categoryId,
          form.pinned == Some("on"), NonEmpty(form.reminder))
  }

  // ---------------------------------------------------------------------------
  // Dashboard
  // ---------------------------------------------------------------------------

  datatype Dashboard = Dashboard(query: string, notes: seq<NoteRow>, categories: seq<Category>)

  /** dashboard: the stripped query picks between the full listing and a search. */
  function DashboardOf(notes: seq<Note>, categories: seq<Category>, userId: int, q: Option<string>): (r: Dashboard)
    ensures r.query == Strip(FormText(q))
    ensures r.query == [] <==> IsBlank(FormText(q))
    ensures forall k :: 0 <= k < |r.notes| ==> r.notes[k].note.userId == userId && r.notes[k].note in notes
    ensures forall a, b :: 0 <= a < b < |r.notes| ==> NoteBefore(r.notes[a].note, r.notes[b].note)
    ensures r.query == [] ==> multiset(NotesOf(r.notes)) == multiset(OwnedNotes(notes, userId))
    ensures r.query != [] ==> forall k :: 0 <= k < |r.notes| ==> Matches(r.notes[k].note, r.query)
    ensures forall k :: 0 <= k < |r.categories| ==> r.categories[k].userId == userId
    ensures r.query != [] ==> r.notes == SearchNotes(notes, categories, userId, r.query)
    ensures r.query == [] ==> r.notes == NotesByUser(notes, categories, userId)
    ensures r.categories == CategoriesOf(categories, userId)
  {
    var query := Strip(FormText(q));
    var rows := if query != [] then SearchNotes(notes, categories, userId, query) else NotesByUser(notes, categories, userId);
    RowsInNotesOf(rows);
    Dashboard(query, rows, CategoriesOf(categories, userId))
  }

  lemma RowsInNotesOf(rows: seq<NoteRow>)
    ensures forall k :: 0 <= k < |rows| ==> rows[k].note in multiset(NotesOf(rows))
  {
    forall k | 0 <= k < |rows| ensures rows[k].note in multiset(NotesOf(rows)) {
      assert NotesOf(rows)[k] == rows[k].note;
    }
  }

  // ---------------------------------------------------------------------------
  // Create, edit, delete
  // ---------------------------------------------------------------------------

  datatype Outcome = Saved | EmptyNote | NotFound

  /** A note is empty when both the stripped title and the stripped content are. */
  predicate EmptyForm(form: NoteForm)
  {
    IsBlank(FormText(form.title)) && IsBlank(FormText(form.content))
  }

  /** create (POST): an empty note is refused and nothing is stored; otherwise one row is added. */
  method Create(store: Store, userId: int, form: NoteForm, now: string) returns (out: Outcome)
    requires store.Valid()
    modifies store
    ensures store.Valid()
    ensures out != NotFound
    ensures out == EmptyNote <==> EmptyForm(form)
    ensures out == EmptyNote ==> store.notes == old(store.notes) && store.nextNoteId == old(store.nextNoteId)
    ensures out == Saved ==>
      && store.notes == old(store.notes) + [NewNote(old(store.nextNoteId), userId, DraftOf(form), now)]
      && store.nextNoteId == old(store.nextNoteId) + 1
    ensures store.users == old(store.users) && store.categories == old(store.categories)
    ensures store.nextUserId == old(store.nextUserId) && store.nextCategoryId == old(store.nextCategoryId)
  {
    var d := DraftOf(form);
    if d.title == [] && d.content == [] {
      return EmptyNote;
    }
    var _ := store.CreateNote(userId, d, now);
    out := Saved;
  }

  /** edit (POST): nothing happens unless the user owns the note; there is no empty check here. */
  method Edit(store: Store, noteId: int, userId: int, form: NoteForm, now: string) returns (out: Outcome)
    requires store.Valid()
    modifies store
    ensures store.Valid()
    ensures out != EmptyNote
    ensures out == NotFound <==> NoteById(old(store.notes), noteId, userId).None?
    ensures out == NotFound ==> store.notes == old(store.notes)
    ensures out == Saved ==> store.notes == UpdatedNotes(old(store.notes), noteId, userId, DraftOf(form), now)
    ensures store.users == old(store.users) && store.categories == old(store.categories)
    ensures store.nextUserId == old(store.nextUserId) && store.nextCategoryId == old(store.nextCategoryId)
    ensures store.nextNoteId == old(store.nextNoteId)
  {
    if NoteById(store.notes, noteId, userId).None? {
      return NotFound;
    }
    store.UpdateNote(noteId, userId, DraftOf(form), now);
    out := Saved;
  }

  /** An owned note can be edited to an empty title and content: edit does not check. */
  lemma EditAcceptsEmpty(notes: seq<Note>, nextId: int, i: int, form: NoteForm, now: string)
    requires NotesValid(notes, nextId) && 0 <= i < |notes|
    requires EmptyForm(form)
    ensures var r := UpdatedNotes(notes, notes[i].id, notes[i].userId, DraftOf(form), now);
      r[i].title == [] && r[i].content == []
  {
  }

  /** delete: the row goes only when get_note_by_id finds it for this user. */
  method Delete(store: Store, noteId: int, userId: int) returns (out: Outcome)
    requires store.Valid()
    modifies store
    ensures store.Valid()
    ensures out != EmptyNote
    ensures out == NotFound <==> NoteById(old(store.notes), noteId, userId).None?
    ensures out == NotFound ==> store.notes == old(store.notes)
    ensures out == Saved ==>
      store.notes == DeletedNotes(old(store.notes), noteId, userId) && |store.notes| == |old(store.notes)| - 1
    ensures store.users == old(store.users) && store.categories == old(store.categories)
    ensures store.nextUserId == old(store.nextUserId) && store.nextCategoryId == old(store.nextCategoryId)
    ensures store.nextNoteId == old(store.nextNoteId)
  {
    if NoteById(store.notes, noteId, userId).None? {
      return NotFound;
    }
    ghost var i :| 0 <= i < |store.notes| && Guarded(store.notes[i], noteId, userId);
    DeleteRemovesOne(store.notes, store.nextNoteId, i);
    store.DeleteNote(noteId, userId);
    out := Saved;
  }

  // ---------------------------------------------------------------------------
  // Pin toggle
  // ---------------------------------------------------------------------------

  /** The update pin sends: the stored fields as they are, pinned flipped (`0 if note["pinned"] else 1`). */
  function PinDraft(n: Note): (d: Draft)
    ensures d.pinned <==> n.pinned == 0
    ensures d.title == n.title && d.content == n.content && d.categoryId == n.categoryId && d.reminder == n.reminder
  {
    Draft(n.title, n.content, n.categoryId, n.pinned == 0, n.reminder)
  }

  /** The notes table after pin: unchanged when the user does not own the note. */
  function PinnedNotes(notes: seq<Note>, noteId: int, userId: int, now: string): seq<Note>
  {
    match NoteById(notes, noteId, userId)
    case None => notes
    case Some(n) => UpdatedNotes(notes, noteId, userId, PinDraft(n), now)
  }

  /** Pinning flips the flag of the owned note and keeps everything but updated_at. */
  lemma PinFlips(notes: seq<Note>, nextId: int, i: int, now: string)
    requires NotesValid(notes, nextId) && 0 <= i < |notes|
    ensures var r := PinnedNotes(notes, notes[i].id, notes[i].userId, now);
      && |r| == |notes|
      && r[i] == notes[i].(pinned := 1 - notes[i].pinned, updatedAt := now)
      && forall k :: 0 <= k < |notes| && k != i ==> r[k] == notes[k]
  {
    NoteByIdFinds(notes, nextId, i);
    forall k | 0 <= k < |notes| && k != i ensures notes[k].id != notes[i].id {
      assert k < i ==> NoteIdLess(notes[k], notes[i]);
      assert i < k ==> NoteIdLess(notes[i], notes[k]);
    }
  }

  /** Pinning twice restores the pinned flag and every other field except updated_at. */
  lemma PinTwice(notes: seq<Note>, nextId: int, i: int, now1: string, now2: string)
    requires NotesValid(notes, nextId) && 0 <= i < |notes|
    ensures var r := PinnedNotes(PinnedNotes(notes, notes[i].id, notes[i].userId, now1), notes[i].id, notes[i].userId, now2);
      r == notes[i := notes[i].(updatedAt := now2)]
  {
    var n := notes[i];
    var once := PinnedNotes(notes, n.id, n.userId, now1);
    PinFlips(notes, nextId, i, now1);
    NoteByIdFinds(notes, nextId, i);
    UpdateKeepsValid(notes, nextId, n.id, n.userId, PinDraft(n), now1);
    PinFlips(once, nextId, i, now2);
    var twice := PinnedNotes(once, n.id, n.userId, now2);
    var expected := notes[i := n.(updatedAt := now2)];
    assert |twice| == |expected|;
    forall k | 0 <= k < |twice| ensures twice[k] == expected[k] {
      if k != i {
        assert twice[k] == once[k] == notes[k];
      }
    }
  }

  /** The JSON reply of pin: 404 for a note the user does not own, else the new state. */
  datatype PinReply = PinNotFound | PinState(pinned: bool)

  /** pin: read the note, flip, write it back with its other fields. */
  method Pin(store: Store, noteId: int, userId: int, now: string) returns (reply: PinReply)
    requires store.Valid()
    modifies store
    ensures store.Valid()
    ensures store.notes == PinnedNotes(old(store.notes), noteId, userId, now)
    ensures reply == PinNotFound <==> NoteById(old(store.notes), noteId, userId).None?
    ensures reply.PinState? ==>
      NoteById(old(store.notes), noteId, userId).Some? && (reply.pinned <==> NoteById(old(store.notes), noteId, userId).value.pinned == 0)
    ensures store.users == old(store.users) && store.categories == old(store.categories)
    ensures store.nextUserId == old(store.nextUserId) && store.nextCategoryId == old(store.nextCategoryId)
    ensures store.nextNoteId == old(store.nextNoteId)
  {
    var found := NoteById(store.notes, noteId, userId);
    if found.None? {
      return PinNotFound;
    }
    var note := found.value;
    var newState := note.pinned == 0;
    store.UpdateNote(noteId, userId, PinDraft(note), now);
    reply := PinState(newState);
  }

  // ---------------------------------------------------------------------------
  // Download
  // ---------------------------------------------------------------------------

  /** `note["title"] or "Untitled"` */
  function ShownTitle(n: Note): (t: string)
    ensures t != []
    ensures n.title != [] ==> t == n.title
  {
    if n.title == [] then "Untitled" else n.title
  }

  datatype Download = Download(text: string, fileName: string)

  /** download_note's body and attachment name: the title, a blank line, the content. */
  function DownloadOf(n: Note): (r: Download)
    ensures |r.text| == |ShownTitle(n)| + 2 + |n.content|
    ensures r.text[..|ShownTitle(n)|] == ShownTitle(n)
    ensures r.text[|ShownTitle(n)|] == '\n' && r.text[|ShownTitle(n)| + 1] == '\n'
    ensures r.text[|ShownTitle(n)| + 2..] == n.content
    ensures r.fileName == ShownTitle(n) + ".txt"
  {
    Download(ShownTitle(n) + "\n\n" + n.content, ShownTitle(n) + ".txt")
  }

  /** The length of the first line of s (up to the first newline, or all of s). */
  function LineEnd(s: string): (k: nat)
    ensures k <= |s|
    ensures forall j :: 0 <= j < k ==> s[j] != '\n'
    ensures k < |s| ==> s[k] == '\n'
  {
    if s == [] || s[0] == '\n' then 0 else 1 + LineEnd(s[1..])
  }

  /** A reader of the file gets the note back: the first line is the title, the rest after the blank line is the content. */
  lemma DownloadRoundTrip(n: Note)
    requires '\n' !in n.title
    ensures var text := DownloadOf(n).text;
      var k := LineEnd(text);
      && k + 2 <= |text|
      && text[..k] == ShownTitle(n)
      && text[k + 2..] == n.content
  {
    var t := ShownTitle(n);
    var text := DownloadOf(n).text;
    assert forall j :: 0 <= j < |t| ==> text[j] == t[j] && t[j] != '\n';
    LineEndAt(text, |t|);
  }

  lemma {:induction false} LineEndAt(s: string, k: nat)
    requires k < |s| && s[k] == '\n'
    requires forall j :: 0 <= j < k ==> s[j] != '\n'
    ensures LineEnd(s) == k
  {
    if k > 0 {
      LineEndAt(s[1..], k - 1);
    }
  }
}
