/**
 * Guest mode (static/js/main.js): without an account, notes live in the
 * browser's localStorage as one JSON list. The list is the field `notes` of a
 * GuestBook; loading and saving it are the identity here, so each operation
 * changes the field in place. generateId() and `new Date().toISOString()` are
 * parameters.
 */
module GuestNotes {
  import opened Strings
  import Seqs

  datatype GuestNote = GuestNote(id: string, title: string, content: string, createdAt: string)

  /** The note has the given id (`n => n.id === id`). */
  predicate HasId(n: GuestNote, id: string)
  {
    n.id == id
  }

  /** `title.trim()` leaves nothing on either side and nothing inside changes. */
  predicate Trimmed(s: string)
  {
    s == [] || (s[0] !in JsWhitespace && s[|s| - 1] !in JsWhitespace)
  }

  class GuestBook {
    var notes: seq<GuestNote>

    constructor (saved: seq<GuestNote>)
      ensures notes == saved
    {
      notes := saved;
    }

    /** createNote: exactly one note, trimmed, appended at the end. */
    method CreateNote(title: string, content: string, id: string, now: string)
      modifies this
      ensures notes == old(notes) + [GuestNote(id, Trim(title), Trim(content), now)]
      ensures Trimmed(notes[|notes| - 1].title) && Trimmed(notes[|notes| - 1].content)
    {
      notes := notes + [GuestNote(id, Trim(title), Trim(content), now)];
    }

    /** Array.prototype.findIndex with `n.id === id`: the first position holding the id, or -1. */
    method FindIndex(id: string) returns (index: int)
      ensures -1 <= index < |notes|
      ensures index == -1 <==> forall k :: 0 <= k < |notes| ==> !HasId(notes[k], id)
      ensures index != -1 ==> Seqs.FirstAt(notes, (n: GuestNote) => HasId(n, id), index)
    {
      index := 0;
      while index < |notes|
        invariant 0 <= index <= |notes|
        invariant forall k :: 0 <= k < index ==> !HasId(notes[k], id)
      {
        if notes[index].id == id {
          return;
        }
        index := index + 1;
      }
      index := -1;
    }

    /**
     * updateNote: the first note with the id gets the trimmed title and
     * content and keeps its id and created_at; an unknown id changes nothing.
     */
    method UpdateNote(id: string, title: string, content: string) returns (index: int)
      modifies this
      ensures -1 <= index < |old(notes)| && |notes| == |old(notes)|
      ensures index == -1 <==> forall k :: 0 <= k < |old(notes)| ==> !HasId(old(notes)[k], id)
      ensures index == -1 ==> notes == old(notes)
      ensures index != -1 ==>
        && Seqs.FirstAt(old(notes), (n: GuestNote) => HasId(n, id), index)
        && notes == old(notes)[index := old(notes)[index].(title := Trim(title), content := Trim(content))]
    {
      index := FindIndex(id);
      if index != -1 {
        notes := notes[index := notes[index].(title := Trim(title), content := Trim(content))];
      }
    }

    /** deleteNote: every note with the id goes, and the others keep their order. */
    method DeleteNote(id: string)
      modifies this
      ensures notes == Seqs.Filter(old(notes), (n: GuestNote) => !HasId(n, id))
      ensures forall n :: n in notes <==> n in old(notes) && n.id != id
    {
      notes := Seqs.Filter(notes, (n: GuestNote) => !HasId(n, id));
    }

    /**
     * The save button of initEditor: refuse a note whose title and content
     * both trim to nothing; otherwise update the note being edited (editId
     * non-empty) or create a new one. accepted is false exactly when the
     * handler alerts and returns early; when it is true the editor is cleared,
     * even if editId names no stored note and nothing changes. index is the
     * position updated, or -1.
     */
    method SaveFromEditor(title: string, content: string, editId: string, newId: string, now: string)
      returns (accepted: bool, index: int)
      modifies this
      ensures accepted <==> !(Trim(title) == [] && Trim(content) == [])
      ensures !accepted ==> notes == old(notes)
      ensures accepted && editId == "" ==> notes == old(notes) + [GuestNote(newId, Trim(title), Trim(content), now)]
      ensures !(accepted && editId != "") ==> index == -1
      ensures accepted && editId != "" ==>
        && -1 <= index < |old(notes)|
        && (index == -1 <==> forall k :: 0 <= k < |old(notes)| ==> !HasId(old(notes)[k], editId))
        && (index == -1 ==> notes == old(notes))
        && (index != -1 ==>
          && Seqs.FirstAt(old(notes), (n: GuestNote) => HasId(n, editId), index)
          && notes == old(notes)[index := old(notes)[index].(title := Trim(title), content := Trim(content))])
    {
      index := -1;
      if Trim(title) == [] && Trim(content) == [] {
        return false, -1;
      }
      if editId != "" {
        index := UpdateNote(editId, title, content);
      } else {
        CreateNote(title, content, newId, now);
      }
      accepted := true;
    }
  }

  /** Deleting the id of exactly one note removes that note from between its neighbours and nothing else. */
  lemma DeleteRemovesOne(notes: seq<GuestNote>, i: int)
    requires 0 <= i < |notes|
    requires forall k :: 0 <= k < |notes| && k != i ==> notes[k].id != notes[i].id
    ensures Seqs.Filter(notes, (n: GuestNote) => !HasId(n, notes[i].id)) == notes[..i] + notes[i + 1..]
  {
    var keep := (n: GuestNote) => !HasId(n, notes[i].id);
    forall k | 0 <= k < |notes| && k != i ensures keep(notes[k]) {
    }
    Seqs.FilterDropsOne(notes, keep, i);
  }

  /** Deleting an id that no note has changes nothing. */
  lemma DeleteUnknownIsNoop(notes: seq<GuestNote>, id: string)
    requires forall k :: 0 <= k < |notes| ==> notes[k].id != id
    ensures Seqs.Filter(notes, (n: GuestNote) => !HasId(n, id)) == notes
  {
    Seqs.FilterKeepsAll(notes, (n: GuestNote) => !HasId(n, id));
  }

  /** Creating and then deleting the new note's id restores the list, when that id was fresh. */
  lemma CreateThenDelete(notes: seq<GuestNote>, n: GuestNote)
    requires forall k :: 0 <= k < |notes| ==> notes[k].id != n.id
    ensures Seqs.Filter(notes + [n], (m: GuestNote) => !HasId(m, n.id)) == notes
  {
    var s := notes + [n];
    assert forall k :: 0 <= k < |notes| ==> s[k] == notes[k];
    DeleteRemovesOne(s, |notes|);
    assert s[..|notes|] == notes;
  }
}
