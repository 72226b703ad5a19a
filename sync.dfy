/**
 * The sync reconciler (app_modules/sync.py): a logged-in user's browser posts
 * the notes it kept in localStorage as guest, and each entry is validated,
 * trimmed, skipped when empty, given a normalised timestamp and inserted unless
 * the same note was synced before.
 *
 * The batch is parsed JSON and can hold anything. Python's `field in note`
 * behaves differently for a dict, a string, a list and a number, and a title
 * or content that passes validation without being a string makes `.strip()`
 * raise; that exception ends the whole request after the entries before it
 * were committed. Both are modelled: validation is three-valued, and an entry
 * either is skipped, aborts the batch, or is accepted.
 *
 * The clock and ISO-8601 parsing are parameters (a Clock): `parseIso` stands
 * for `datetime.fromisoformat(..).isoformat()` and is None where it raises,
 * `utcNow(i)` and `dbNow(i)` are `datetime.utcnow()` and CURRENT_TIMESTAMP
 * while the i-th entry is handled.
 */
module Sync {
  import opened Wrappers
  import opened Strings
  import opened Json
  import opened Models

  datatype Clock = Clock(parseIso: string -> Option<string>, utcNow: nat -> string, dbNow: nat -> string)

  /** The outcome of validate_local_note: True, False, or an exception escaping it. */
  datatype Check = Pass | Fail | Raise

  const Required: seq<string> := ["title", "content", "created_at"]

  /** Python's `field in note`; None where the `in` test itself raises TypeError. */
  function FieldIn(field: string, note: Value): (r: Option<bool>)
    ensures note.Object? ==> r == Some(field in note.fields)
    ensures r.None? <==> !(note.Object? || note.Str? || note.List?)
  {
    match note
    case Object(fields) => Some(field in fields)
    case Str(s) => Some(Contains(s, field))
    case List(items) => Some(Str(field) in items)
    case _ => None
  }

  /** The loop of validate_local_note over the remaining required fields. */
  function CheckFields(note: Value, fields: seq<string>): (r: Check)
    ensures r == Pass <==> (fields != [] ==> note.Object?) && forall k :: 0 <= k < |fields| ==> fields[k] in note.fields && IsScalar(note.fields[fields[k]])
    ensures note.Object? ==> r != Raise
  {
    if fields == [] then Pass
    else match FieldIn(fields[0], note)
      case None => Raise
      case Some(false) => Fail
      case Some(true) =>
        // `note[field]` on a string or a list raises TypeError
        if !note.Object? then Raise
        else if !IsScalar(note.fields[fields[0]]) then Fail
        else
          var r := CheckFields(note, fields[1..]);
          assert forall k :: 1 <= k < |fields| ==> fields[k] == fields[1..][k - 1];
          r
  }

  /** The entry is a dict holding every required field with a str, int or float value. */
  predicate WellFormed(note: Value)
  {
    note.Object? && HasScalar(note.fields, "title") && HasScalar(note.fields, "content") && HasScalar(note.fields, "created_at")
  }

  predicate HasScalar(fields: map<string, Value>, f: string)
  {
    f in fields && IsScalar(fields[f])
  }

  /**
   * validate_local_note: passes exactly the dicts holding title, content and
   * created_at as str, int or float (a JSON boolean counts as an int); any
   * other dict fails, and only a non-dict can make it raise.
   */
  function ValidateLocalNote(note: Value): (r: Check)
    ensures r == Pass <==> WellFormed(note)
    ensures r == Raise ==> !note.Object?
  {
    var r := CheckFields(note, Required);
    assert Required[0] == "title" && Required[1] == "content" && Required[2] == "created_at";
    r
  }

  /** null, a boolean and a number have no `in` test: validating one raises. */
  lemma ValidateNonContainerRaises(note: Value)
    requires note.Null? || note.Bool? || note.Int? || note.Float?
    ensures ValidateLocalNote(note) == Raise
  {
  }

  /** A string only raises when it contains "title", since then `note["title"]` is evaluated. */
  lemma ValidateString(s: string)
    ensures ValidateLocalNote(Str(s)) == (if Contains(s, "title") then Raise else Fail)
  {
  }

  /**
   * normalize_timestamp: parse the value with "Z" read as "+00:00"; on any
   * failure (a non-string value included) fall back to the current UTC time.
   */
  function NormalizeTimestamp(ts: Value, parseIso: string -> Option<string>, now: string): (r: string)
    ensures ts.Str? && parseIso(ReplaceAll(ts.s, 'Z', "+00:00")).Some? ==> r == parseIso(ReplaceAll(ts.s, 'Z', "+00:00")).value
    ensures !ts.Str? || parseIso(ReplaceAll(ts.s, 'Z', "+00:00")).None? ==> r == now
  {
    if ts.Str? then
      match parseIso(ReplaceAll(ts.s, 'Z', "+00:00"))
      case Some(iso) => iso
      case None => now
    else now
  }

  /** A trailing "Z" and a trailing "+00:00" normalise to the same instant. */
  lemma {:induction false} ZuluIsUtc(a: string, parseIso: string -> Option<string>, now: string)
    requires 'Z' !in a
    ensures NormalizeTimestamp(Str(a + "Z"), parseIso, now) == NormalizeTimestamp(Str(a + "+00:00"), parseIso, now)
  {
    var utc := "+00:00";
    assert 'Z' !in utc;
    calc {
      ReplaceAll(a + "Z", 'Z', utc);
      { ReplaceAllAppend(a, "Z", 'Z', utc); }
      ReplaceAll(a, 'Z', utc) + ReplaceAll("Z", 'Z', utc);
      { assert ReplaceAll("Z", 'Z', utc) == utc + ReplaceAll([], 'Z', utc); }
      a + utc;
    }
    calc {
      ReplaceAll(a + utc, 'Z', utc);
      { ReplaceAllAppend(a, utc, 'Z', utc); }
      ReplaceAll(a, 'Z', utc) + ReplaceAll(utc, 'Z', utc);
      a + utc;
    }
  }

  /** What the loop body of sync_local_to_cloud does with one entry. */
  datatype Step = Skipped | Aborted | Accepted(title: string, content: string, createdAt: string)

  /** The entry makes the loop body raise: in validation, or at `.strip()` of a non-string title or content. */
  predicate Aborts(note: Value)
  {
    || ValidateLocalNote(note) == Raise
    || (WellFormed(note) && !(note.fields["title"].Str? && note.fields["content"].Str?))
  }

  /** The entry is inserted (unless a duplicate): valid, string title and content, not both blank. */
  predicate Accepts(note: Value)
  {
    && WellFormed(note)
    && note.fields["title"].Str? && note.fields["content"].Str?
    && !(IsBlank(note.fields["title"].s) && IsBlank(note.fields["content"].s))
  }

  /** The loop body of sync_local_to_cloud on one entry, before the insert. */
  function Classify(note: Value, parseIso: string -> Option<string>, now: string): Step
  {
    match ValidateLocalNote(note)
    case Raise => Aborted
    case Fail => Skipped
    case Pass =>
      var t, c := note.fields["title"], note.fields["content"];
      if !(t.Str? && c.Str?) then Aborted
      else
        var title, content := Strip(t.s), Strip(c.s);
        if title == [] && content == [] then Skipped
        else Accepted(title, content, NormalizeTimestamp(note.fields["created_at"], parseIso, now))
  }

  /**
   * An entry raises exactly when Aborts says so and is inserted exactly when
   * Accepts says so, with its stripped title and content and its normalised
   * created_at.
   */
  lemma ClassifySpec(note: Value, parseIso: string -> Option<string>, now: string)
    ensures var r := Classify(note, parseIso, now);
      && (r.Aborted? <==> Aborts(note))
      && (r.Accepted? <==> Accepts(note))
      && (r.Accepted? ==>
        && r.title == Strip(note.fields["title"].s) && r.content == Strip(note.fields["content"].s)
        && !(r.title == [] && r.content == [])
        && r.createdAt == NormalizeTimestamp(note.fields["created_at"], parseIso, now))
  {
  }

  /** The entry's created_at is a string that parses, so its normalised form does not depend on the clock. */
  predicate TimestampParses(note: Value, parseIso: string -> Option<string>)
  {
    note.Object? && "created_at" in note.fields && note.fields["created_at"].Str?
      && parseIso(ReplaceAll(note.fields["created_at"].s, 'Z', "+00:00")).Some?
  }

  lemma ClassifyIgnoresClock(note: Value, parseIso: string -> Option<string>, now1: string, now2: string)
    requires TimestampParses(note, parseIso)
    ensures Classify(note, parseIso, now1) == Classify(note, parseIso, now2)
  {
  }

  /** An inserting step carries a stripped title and content that are not both empty. */
  predicate ShapedStep(s: Step)
  {
    s.Accepted? ==> Stripped(s.title) && Stripped(s.content) && !(s.title == [] && s.content == [])
  }

  lemma ClassifyShaped(note: Value, parseIso: string -> Option<string>, now: string)
    ensures ShapedStep(Classify(note, parseIso, now))
  {
    var s := Classify(note, parseIso, now);
    if s.Accepted? {
      assert s.title == StripSet(note.fields["title"].s, PyWhitespace);
      assert s.content == StripSet(note.fields["content"].s, PyWhitespace);
    }
  }

  // ---------------------------------------------------------------------------
  // The batch
  // ---------------------------------------------------------------------------

  /** The notes table after some entries, and whether an entry has raised. */
  datatype Progress = Progress(table: NoteTable, aborted: bool)

  /** What one step does to the table; `now` is CURRENT_TIMESTAMP at the insert. */
  function Apply(t: NoteTable, userId: int, s: Step, now: string): Progress
  {
    match s
    case Aborted => Progress(t, true)
    case Skipped => Progress(t, false)
    case Accepted(title, content, createdAt) => Progress(InsertSynced(t, userId, title, content, createdAt, now), false)
  }

  /** The loop after the first n steps; the i-th insert reads the database clock at i, and nothing runs after a step raises. */
  function Fold(t: NoteTable, userId: int, steps: seq<Step>, dbNow: nat -> string, n: nat): Progress
    requires n <= |steps|
  {
    if n == 0 then Progress(t, false)
    else
      var p := Fold(t, userId, steps, dbNow, n - 1);
      if p.aborted then p else Apply(p.table, userId, steps[n - 1], dbNow(n - 1))
  }

  /**
   * The step of every entry, the i-th reading the clock at i. Classifying an
   * entry reads neither the table nor the other entries, so the loop is the
   * fold of Apply over these steps.
   */
  function Steps(items: seq<Value>, clock: Clock): (r: seq<Step>)
    ensures |r| == |items|
  {
    seq(|items|, k requires 0 <= k < |items| => Classify(items[k], clock.parseIso, clock.utcNow(k)))
  }

  lemma StepsClassify(items: seq<Value>, clock: Clock)
    ensures forall k :: 0 <= k < |items| ==> Steps(items, clock)[k] == Classify(items[k], clock.parseIso, clock.utcNow(k))
  {
  }

  /** The state after the loop has been through items[..n]. */
  function SyncPrefix(t: NoteTable, userId: int, items: seq<Value>, clock: Clock, n: nat): Progress
    requires n <= |items|
  {
    Fold(t, userId, Steps(items, clock), clock.dbNow, n)
  }

  /** sync_local_to_cloud: a falsy or non-list batch returns at once. */
  function SyncBatch(t: NoteTable, userId: int, batch: Value, clock: Clock): (p: Progress)
    ensures !(batch.List? && batch.items != []) ==> p == Progress(t, false)
  {
    if !(batch.List? && batch.items != []) then Progress(t, false)
    else SyncPrefix(t, userId, batch.items, clock, |batch.items|)
  }

  /** If the step inserts, a row with its origin is in rows. */
  predicate LandedStep(rows: seq<Note>, userId: int, s: Step)
  {
    s.Accepted? ==> HasDuplicate(rows, userId, s.title, s.content, s.createdAt)
  }

  /** If the entry is accepted, a row with its origin is in rows. */
  predicate Landed(rows: seq<Note>, userId: int, note: Value, parseIso: string -> Option<string>, now: string)
  {
    LandedStep(rows, userId, Classify(note, parseIso, now))
  }

  lemma LandedGrows(a: seq<Note>, b: seq<Note>, userId: int, s: Step)
    requires a <= b && LandedStep(a, userId, s)
    ensures LandedStep(b, userId, s)
  {
    if s.Accepted? {
      var j :| 0 <= j < |a| && SameOrigin(a[j], userId, s.title, s.content, s.createdAt);
      assert b[j] == a[j];
    }
  }

  /** One step raises exactly when it is Aborted, only appends, and leaves its note in the table. */
  lemma ApplyFacts(t: NoteTable, userId: int, s: Step, now: string)
    ensures Apply(t, userId, s, now).aborted <==> s.Aborted?
    ensures t.rows <= Apply(t, userId, s, now).table.rows
    ensures LandedStep(Apply(t, userId, s, now).table.rows, userId, s)
  {
  }

  /** What a well-shaped step appends has the shape of a synced note. */
  lemma ApplyShape(t: NoteTable, userId: int, s: Step, now: string)
    requires ShapedStep(s)
    ensures ShapedFrom(Apply(t, userId, s, now).table.rows, |t.rows|, userId)
  {
    if s.Accepted? {
      InsertShape(t, userId, s.title, s.content, s.createdAt, now);
    }
  }

  /** A synced insert only appends, and what it appends has the shape of a synced note. */
  lemma InsertShape(t: NoteTable, userId: int, title: string, content: string, createdAt: string, now: string)
    requires Stripped(title) && Stripped(content) && !(title == [] && content == [])
    ensures t.rows <= InsertSynced(t, userId, title, content, createdAt, now).rows
    ensures ShapedFrom(InsertSynced(t, userId, title, content, createdAt, now).rows, |t.rows|, userId)
  {
    var r := InsertSynced(t, userId, title, content, createdAt, now).rows;
    if !HasDuplicate(t.rows, userId, title, content, createdAt) {
      assert r[|t.rows|] == SyncedNote(t.nextId, userId, title, content, createdAt, now);
    }
  }

  /** While the loop runs, the next step is applied to the table so far. */
  lemma FoldNext(t: NoteTable, userId: int, steps: seq<Step>, dbNow: nat -> string, i: nat)
    requires i < |steps| && !Fold(t, userId, steps, dbNow, i).aborted
    ensures Fold(t, userId, steps, dbNow, i + 1) == Apply(Fold(t, userId, steps, dbNow, i).table, userId, steps[i], dbNow(i))
  {
  }

  /** Once a step has raised, the remaining steps change nothing. */
  lemma {:induction false} AbortedStaysPut(t: NoteTable, userId: int, steps: seq<Step>, dbNow: nat -> string, m: nat, n: nat)
    requires m <= n <= |steps|
    requires Fold(t, userId, steps, dbNow, m).aborted
    ensures Fold(t, userId, steps, dbNow, n) == Fold(t, userId, steps, dbNow, m)
    decreases n
  {
    if n > m {
      AbortedStaysPut(t, userId, steps, dbNow, m, n - 1);
    }
  }

  /** Rows are only ever appended: the table before is a prefix of the table after. */
  lemma {:induction false} SyncOnlyAppends(t: NoteTable, userId: int, steps: seq<Step>, dbNow: nat -> string, n: nat)
    requires n <= |steps|
    ensures t.rows <= Fold(t, userId, steps, dbNow, n).table.rows
  {
    if n > 0 {
      SyncOnlyAppends(t, userId, steps, dbNow, n - 1);
      var p := Fold(t, userId, steps, dbNow, n - 1);
      if !p.aborted {
        ApplyFacts(p.table, userId, steps[n - 1], dbNow(n - 1));
      }
    }
  }

  /** While no step raises, the loop keeps running and every inserting step's note is in the table. */
  lemma {:induction false} StepsLand(t: NoteTable, userId: int, steps: seq<Step>, dbNow: nat -> string, n: nat)
    requires n <= |steps|
    requires forall k :: 0 <= k < n ==> !steps[k].Aborted?
    ensures !Fold(t, userId, steps, dbNow, n).aborted
    ensures forall k :: 0 <= k < n ==> LandedStep(Fold(t, userId, steps, dbNow, n).table.rows, userId, steps[k])
  {
    if n > 0 {
      StepsLand(t, userId, steps, dbNow, n - 1);
      var p := Fold(t, userId, steps, dbNow, n - 1);
      var q := Apply(p.table, userId, steps[n - 1], dbNow(n - 1));
      ApplyFacts(p.table, userId, steps[n - 1], dbNow(n - 1));
      forall k | 0 <= k < n - 1 ensures LandedStep(q.table.rows, userId, steps[k]) {
        LandedGrows(p.table.rows, q.table.rows, userId, steps[k]);
      }
    }
  }

  /** Steps that do not raise and whose notes are all in the table already change nothing. */
  lemma {:induction false} StepsReplay(t: NoteTable, userId: int, steps: seq<Step>, dbNow: nat -> string, n: nat)
    requires n <= |steps|
    requires forall k :: 0 <= k < n ==> !steps[k].Aborted? && LandedStep(t.rows, userId, steps[k])
    ensures Fold(t, userId, steps, dbNow, n) == Progress(t, false)
  {
    if n > 0 {
      StepsReplay(t, userId, steps, dbNow, n - 1);
    }
  }

  /** Well-shaped steps only append rows with the shape of a synced note. */
  lemma {:induction false} StepsShape(t: NoteTable, userId: int, steps: seq<Step>, dbNow: nat -> string, n: nat)
    requires n <= |steps|
    requires forall k :: 0 <= k < n ==> ShapedStep(steps[k])
    ensures |t.rows| <= |Fold(t, userId, steps, dbNow, n).table.rows|
    ensures ShapedFrom(Fold(t, userId, steps, dbNow, n).table.rows, |t.rows|, userId)
  {
    if n > 0 {
      StepsShape(t, userId, steps, dbNow, n - 1);
      var p := Fold(t, userId, steps, dbNow, n - 1);
      if !p.aborted {
        var q := Apply(p.table, userId, steps[n - 1], dbNow(n - 1));
        ApplyFacts(p.table, userId, steps[n - 1], dbNow(n - 1));
        ApplyShape(p.table, userId, steps[n - 1], dbNow(n - 1));
        ShapedExtend(p.table.rows, q.table.rows, |t.rows|, userId);
      }
    }
  }

  /**
   * A skipped or malformed entry does not stop the batch: when no entry of
   * items[..n] raises, the loop is still running after them, and every entry
   * among them that is accepted has its note in the table.
   */
  lemma AcceptedEntriesLand(t: NoteTable, userId: int, items: seq<Value>, clock: Clock, n: nat)
    requires n <= |items|
    requires forall k :: 0 <= k < n ==> !Aborts(items[k])
    ensures !SyncPrefix(t, userId, items, clock, n).aborted
    ensures forall k :: 0 <= k < n ==>
      Landed(SyncPrefix(t, userId, items, clock, n).table.rows, userId, items[k], clock.parseIso, clock.utcNow(k))
  {
    StepsClassify(items, clock);
    StepsLand(t, userId, Steps(items, clock), clock.dbNow, n);
  }

  /** The first entry that raises ends the batch: the table is what the entries before it made. */
  lemma AbortEndsBatch(t: NoteTable, userId: int, items: seq<Value>, clock: Clock, k: nat)
    requires k < |items| && Aborts(items[k])
    requires forall j :: 0 <= j < k ==> !Aborts(items[j])
    ensures SyncPrefix(t, userId, items, clock, |items|)
      == Progress(SyncPrefix(t, userId, items, clock, k).table, true)
  {
    AcceptedEntriesLand(t, userId, items, clock, k);
    var steps := Steps(items, clock);
    StepsClassify(items, clock);
    assert steps[k] == Classify(items[k], clock.parseIso, clock.utcNow(k));
    AbortEnds(t, userId, steps, clock.dbNow, k);
  }

  /** A raising step after a running prefix ends the loop with the prefix's table. */
  lemma AbortEnds(t: NoteTable, userId: int, steps: seq<Step>, dbNow: nat -> string, k: nat)
    requires k < |steps| && steps[k].Aborted? && !Fold(t, userId, steps, dbNow, k).aborted
    ensures Fold(t, userId, steps, dbNow, |steps|) == Progress(Fold(t, userId, steps, dbNow, k).table, true)
  {
    AbortedStaysPut(t, userId, steps, dbNow, k + 1, |steps|);
  }

  /** Every entry can be replayed: it does not raise, and if accepted its created_at parses. */
  predicate Replayable(note: Value, parseIso: string -> Option<string>)
  {
    !Aborts(note) && (Accepts(note) ==> TimestampParses(note, parseIso))
  }

  /**
   * Replaying entries whose notes are all in the table already changes nothing.
   * (The clocks may differ from the first run's.)
   */
  lemma ReplayChangesNothing(t: NoteTable, userId: int, items: seq<Value>, clock: Clock, firstNow: nat -> string)
    requires forall k :: 0 <= k < |items| ==> Replayable(items[k], clock.parseIso)
    requires forall k :: 0 <= k < |items| ==> Landed(t.rows, userId, items[k], clock.parseIso, firstNow(k))
    ensures SyncPrefix(t, userId, items, clock, |items|) == Progress(t, false)
  {
    var steps := Steps(items, clock);
    StepsClassify(items, clock);
    forall k | 0 <= k < |items| ensures !steps[k].Aborted? && LandedStep(t.rows, userId, steps[k]) {
      assert Replayable(items[k], clock.parseIso) && Landed(t.rows, userId, items[k], clock.parseIso, firstNow(k));
      if Accepts(items[k]) {
        ClassifyIgnoresClock(items[k], clock.parseIso, firstNow(k), clock.utcNow(k));
      }
    }
    StepsReplay(t, userId, steps, clock.dbNow, |items|);
  }

  /**
   * Syncing the same batch twice adds nothing the second time, provided no
   * entry raises and every accepted entry's created_at parses (otherwise the
   * fallback timestamp differs between the two runs).
   */
  lemma SyncTwiceAddsNothing(t: NoteTable, userId: int, batch: Value, clock1: Clock, clock2: Clock)
    requires clock1.parseIso == clock2.parseIso
    requires batch.List? ==> forall k :: 0 <= k < |batch.items| ==> Replayable(batch.items[k], clock1.parseIso)
    ensures var once := SyncBatch(t, userId, batch, clock1);
      SyncBatch(once.table, userId, batch, clock2) == Progress(once.table, false)
  {
    if batch.List? && batch.items != [] {
      var items := batch.items;
      AcceptedEntriesLand(t, userId, items, clock1, |items|);
      ReplayChangesNothing(SyncBatch(t, userId, batch, clock1).table, userId, items, clock2, clock1.utcNow);
    }
  }

  /** A note repeated later in the same batch is inserted once: the repeat changes nothing. */
  lemma RepeatInBatchIsNoop(t: NoteTable, userId: int, items: seq<Value>, clock: Clock, j: nat, k: nat)
    requires j < k < |items| && items[j] == items[k]
    requires forall i :: 0 <= i < k ==> !Aborts(items[i])
    requires Accepts(items[k]) && TimestampParses(items[k], clock.parseIso)
    ensures SyncPrefix(t, userId, items, clock, k + 1) == SyncPrefix(t, userId, items, clock, k)
  {
    var steps := Steps(items, clock);
    StepsClassify(items, clock);
    StepsLand(t, userId, steps, clock.dbNow, k);
    ClassifyIgnoresClock(items[k], clock.parseIso, clock.utcNow(j), clock.utcNow(k));
    assert steps[k] == steps[j];
  }

  /** The shape of a row the reconciler adds: the user's, trimmed, non-empty, no category, unpinned, no reminder. */
  predicate SyncedShape(n: Note, userId: int)
  {
    && n.userId == userId
    && n.categoryId.None? && n.pinned == 0 && n.reminder.None?
    && Stripped(n.title) && Stripped(n.content)
    && !(n.title == [] && n.content == [])
  }

  /** Every row from position `from` on has the shape of a synced note. */
  predicate ShapedFrom(rows: seq<Note>, from: int, userId: int)
  {
    forall i :: 0 <= from <= i < |rows| ==> SyncedShape(rows[i], userId)
  }

  lemma ShapedExtend(a: seq<Note>, b: seq<Note>, from: int, userId: int)
    requires 0 <= from <= |a| && a <= b
    requires ShapedFrom(a, from, userId) && ShapedFrom(b, |a|, userId)
    ensures ShapedFrom(b, from, userId)
  {
    forall i | from <= i < |b| ensures SyncedShape(b[i], userId) {
      if i < |a| { assert b[i] == a[i]; }
    }
  }

  /** Every row a batch adds has the shape of a synced note. */
  lemma SyncedRowsShape(t: NoteTable, userId: int, items: seq<Value>, clock: Clock, n: nat)
    requires n <= |items|
    ensures |t.rows| <= |SyncPrefix(t, userId, items, clock, n).table.rows|
    ensures ShapedFrom(SyncPrefix(t, userId, items, clock, n).table.rows, |t.rows|, userId)
  {
    var steps := Steps(items, clock);
    StepsClassify(items, clock);
    forall k | 0 <= k < n ensures ShapedStep(steps[k]) {
      ClassifyShaped(items[k], clock.parseIso, clock.utcNow(k));
    }
    StepsShape(t, userId, steps, clock.dbNow, n);
  }

  /**
   * sync_local_to_cloud, entry by entry against the store. `aborted` reports
   * the exception that ends the request; the inserts made before it remain.
   */
  method SyncLocalToCloud(store: Store, userId: int, localNotes: Value, clock: Clock) returns (aborted: bool)
    requires store.Valid()
    modifies store
    ensures store.Valid()
    ensures Progress(NoteTable(store.notes, store.nextNoteId), aborted)
      == SyncBatch(NoteTable(old(store.notes), old(store.nextNoteId)), userId, localNotes, clock)
    ensures store.users == old(store.users) && store.categories == old(store.categories)
    ensures store.nextUserId == old(store.nextUserId) && store.nextCategoryId == old(store.nextCategoryId)
  {
    aborted := false;
    if !(localNotes.List? && localNotes.items != []) {
      return;
    }
    var items := localNotes.items;
    ghost var t0 := NoteTable(store.notes, store.nextNoteId);
    ghost var steps := Steps(items, clock);
    var i := 0;
    while i < |items| && !aborted
      invariant 0 <= i <= |items|
      invariant store.Valid()
      invariant Progress(NoteTable(store.notes, store.nextNoteId), aborted) == Fold(t0, userId, steps, clock.dbNow, i)
      invariant store.users == old(store.users) && store.categories == old(store.categories)
      invariant store.nextUserId == old(store.nextUserId) && store.nextCategoryId == old(store.nextCategoryId)
    {
      ghost var before := NoteTable(store.notes, store.nextNoteId);
      var step := Classify(items[i], clock.parseIso, clock.utcNow(i));
      assert step == steps[i];
      FoldNext(t0, userId, steps, clock.dbNow, i);
      if step.Aborted? {
        aborted := true;
      } else if step.Accepted? {
        store.InsertSyncedNote(userId, step.title, step.content, step.createdAt, clock.dbNow(i));
      }
      assert Progress(NoteTable(store.notes, store.nextNoteId), aborted) == Apply(before, userId, step, clock.dbNow(i));
      i := i + 1;
    }
    if aborted {
      AbortedStaysPut(t0, userId, steps, clock.dbNow, i, |items|);
    }
  }

  // ---------------------------------------------------------------------------
  // The route that receives the batch (app_modules/notes.py, sync)
  // ---------------------------------------------------------------------------

  /** `data.get("notes", [])` on the parsed body; None where `.get` raises because the body is not a dict. */
  function NotesField(body: Value): (r: Option<Value>)
    ensures r.None? <==> !body.Object?
    ensures body.Object? && "notes" !in body.fields ==> r == Some(List([]))
    ensures body.Object? && "notes" in body.fields ==> r == Some(body.fields["notes"])
  {
    if !body.Object? then None
    else if "notes" in body.fields then Some(body.fields["notes"])
    else Some(List([]))
  }

  /** A body without "notes" reaches the reconciler as an empty list, which changes nothing. */
  lemma MissingNotesIsNoop(t: NoteTable, userId: int, body: Value, clock: Clock)
    requires body.Object? && "notes" !in body.fields
    ensures SyncBatch(t, userId, NotesField(body).value, clock) == Progress(t, false)
  {
  }

  /** 200 {"status": "success"}, or an exception (500) from the body or from an entry. */
  datatype SyncReply = SyncSuccess | SyncCrash

  /**
   * The sync route: read the batch out of the body and reconcile it. A body
   * that is not a dict fails before any write; an entry that raises fails
   * the request after the inserts before it.
   */
  method SyncRoute(store: Store, userId: int, body: Value, clock: Clock) returns (reply: SyncReply)
    requires store.Valid()
    modifies store
    ensures store.Valid()
    ensures !body.Object? ==> reply == SyncCrash && store.notes == old(store.notes) && store.nextNoteId == old(store.nextNoteId)
    ensures body.Object? ==>
      Progress(NoteTable(store.notes, store.nextNoteId), reply == SyncCrash)
        == SyncBatch(NoteTable(old(store.notes), old(store.nextNoteId)), userId, NotesField(body).value, clock)
    ensures store.users == old(store.users) && store.categories == old(store.categories)
    ensures store.nextUserId == old(store.nextUserId) && store.nextCategoryId == old(store.nextCategoryId)
  {
    var localNotes := NotesField(body);
    if localNotes.None? {
      return SyncCrash;
    }
    var aborted := SyncLocalToCloud(store, userId, localNotes.value, clock);
    reply := if aborted then SyncCrash else SyncSuccess;
  }
}
