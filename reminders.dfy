/**
 * The reminder check of the logged-in dashboard (static/js/reminders.js).
 * Each note card may show a reminder; once its time has come, a popup shows
 * once and the note's id joins the "triggered_reminders" list kept in
 * localStorage, so the 30-second timer never shows it again. The list is the
 * field `triggered` of a ReminderLog; the cards on the page, the current time
 * and `new Date(ts)` are parameters.
 */
module Reminders {
  import opened Wrappers
  import opened Strings

  /** What `new Date(ts)` yields: an invalid date, or milliseconds since the epoch. */
  datatype Instant = Invalid | At(ms: int)

  /** A `.note-card`: its data-note-id, the text of its title, and the text of its `.note-reminder` element if it has one. */
  datatype Card = Card(noteId: string, title: string, reminderText: Option<string>)

  /** parseReminder: an empty string is no reminder; anything else becomes a Date (which never throws). */
  function ParseReminder(ts: string, parse: string -> Instant): (r: Option<Instant>)
    ensures r.None? <==> ts == []
    ensures r.Some? ==> r.value == parse(ts)
  {
    if ts == [] then None else Some(parse(ts))
  }

  /** The reminder time of a card: its text without the first "Reminder:" label, trimmed, then parsed. */
  function ReminderTime(card: Card, parse: string -> Instant): Option<Instant>
  {
    match card.reminderText
    case None => None
    case Some(text) => ParseReminder(Trim(ReplaceFirst(text, "Reminder:", "")), parse)
  }

  /**
   * The card's time has come: `now >= reminderTime`. A comparison with an
   * invalid date is false in JavaScript, so an unparsable reminder is never due.
   */
  predicate Due(card: Card, now: int, parse: string -> Instant)
  {
    match ReminderTime(card, parse)
    case Some(At(t)) => now >= t
    case _ => false
  }

  function Message(card: Card): string
  {
    "Reminder: " + card.title
  }

  /** The triggered list after a check, and the popups shown during it, in order. */
  datatype Outcome = Outcome(triggered: seq<string>, popups: seq<string>)

  /** The card fires now: it is due and its id has not fired before. */
  predicate Fires(card: Card, triggered: seq<string>, now: int, parse: string -> Instant)
  {
    Due(card, now, parse) && card.noteId !in triggered
  }

  /** checkReminders over the cards in page order, starting from the stored list t0. */
  function Run(t0: seq<string>, cards: seq<Card>, now: int, parse: string -> Instant): Outcome
  {
    if cards == [] then Outcome(t0, [])
    else
      var o := Run(t0, cards[..|cards| - 1], now, parse);
      var card := cards[|cards| - 1];
      if Fires(card, o.triggered, now, parse)
      then Outcome(o.triggered + [card.noteId], o.popups + [Message(card)])
      else o
  }

  predicate NoDuplicates(s: seq<string>)
  {
    forall i, j :: 0 <= i < j < |s| ==> s[i] != s[j]
  }

  /** The stored list only grows, by exactly one id per popup. */
  lemma {:induction false} RunExtends(t0: seq<string>, cards: seq<Card>, now: int, parse: string -> Instant)
    ensures var o := Run(t0, cards, now, parse);
      |t0| <= |o.triggered| && o.triggered[..|t0|] == t0 && |o.popups| == |o.triggered| - |t0|
  {
    if cards != [] {
      RunExtends(t0, cards[..|cards| - 1], now, parse);
      var o := Run(t0, cards[..|cards| - 1], now, parse);
      assert (o.triggered + [cards[|cards| - 1].noteId])[..|t0|] == o.triggered[..|t0|];
    }
  }

  /** A reminder fires at most once: a list without repeats stays without repeats. */
  lemma {:induction false} RunFiresOnce(t0: seq<string>, cards: seq<Card>, now: int, parse: string -> Instant)
    requires NoDuplicates(t0)
    ensures NoDuplicates(Run(t0, cards, now, parse).triggered)
  {
    if cards != [] {
      RunFiresOnce(t0, cards[..|cards| - 1], now, parse);
    }
  }

  /** Some card among cards is due, carries the id, and shows the message. */
  predicate FiredBy(cards: seq<Card>, id: string, message: string, now: int, parse: string -> Instant)
  {
    exists k :: 0 <= k < |cards| && cards[k].noteId == id && Due(cards[k], now, parse) && message == Message(cards[k])
  }

  /** Every id added, and the popup shown with it, comes from a card that is due. */
  lemma {:induction false} RunFiresOnlyDue(t0: seq<string>, cards: seq<Card>, now: int, parse: string -> Instant)
    ensures var o := Run(t0, cards, now, parse);
      && |o.popups| == |o.triggered| - |t0|
      && forall j :: |t0| <= j < |o.triggered| ==> FiredBy(cards, o.triggered[j], o.popups[j - |t0|], now, parse)
  {
    RunExtends(t0, cards, now, parse);
    if cards != [] {
      var prefix := cards[..|cards| - 1];
      var last := cards[|cards| - 1];
      RunFiresOnlyDue(t0, prefix, now, parse);
      var o := Run(t0, cards, now, parse);
      var p := Run(t0, prefix, now, parse);
      forall j | |t0| <= j < |p.triggered|
        ensures FiredBy(cards, p.triggered[j], p.popups[j - |t0|], now, parse)
      {
        FiredByPrefix(prefix, cards, p.triggered[j], p.popups[j - |t0|], now, parse);
      }
      if Fires(last, p.triggered, now, parse) {
        assert o == Outcome(p.triggered + [last.noteId], p.popups + [Message(last)]);
        assert cards[|cards| - 1] == last;
        assert FiredBy(cards, last.noteId, Message(last), now, parse);
        forall j | |t0| <= j < |o.triggered|
          ensures FiredBy(cards, o.triggered[j], o.popups[j - |t0|], now, parse)
        {
          if j < |p.triggered| {
            assert o.triggered[j] == p.triggered[j] && o.popups[j - |t0|] == p.popups[j - |t0|];
          } else {
            assert o.triggered[j] == last.noteId && o.popups[j - |t0|] == Message(last);
          }
        }
      } else {
        assert o == p;
      }
    }
  }

  /** A card that explains a popup still explains it when more cards follow. */
  lemma FiredByPrefix(prefix: seq<Card>, cards: seq<Card>, id: string, message: string, now: int, parse: string -> Instant)
    requires prefix <= cards
    requires FiredBy(prefix, id, message, now, parse)
    ensures FiredBy(cards, id, message, now, parse)
  {
    var k :| 0 <= k < |prefix| && prefix[k].noteId == id && Due(prefix[k], now, parse) && message == Message(prefix[k]);
    assert cards[k] == prefix[k];
  }

  /** After a check, every due card's id is in the list, whether it fired now or earlier. */
  lemma {:induction false} RunCoversDue(t0: seq<string>, cards: seq<Card>, now: int, parse: string -> Instant)
    ensures var o := Run(t0, cards, now, parse);
      forall k :: 0 <= k < |cards| && Due(cards[k], now, parse) ==> cards[k].noteId in o.triggered
  {
    if cards != [] {
      var prefix := cards[..|cards| - 1];
      RunCoversDue(t0, prefix, now, parse);
      RunExtends(t0, prefix, now, parse);
      var o := Run(t0, cards, now, parse);
      var p := Run(t0, prefix, now, parse);
      assert forall x :: x in p.triggered ==> x in o.triggered;
      forall k | 0 <= k < |cards| && Due(cards[k], now, parse) ensures cards[k].noteId in o.triggered {
        if k < |prefix| {
          assert cards[k] == prefix[k];
        }
      }
    }
  }

  /** When every due card has fired already, a check shows nothing and changes nothing. */
  lemma {:induction false} RunQuiet(t: seq<string>, cards: seq<Card>, now: int, parse: string -> Instant)
    requires forall k :: 0 <= k < |cards| && Due(cards[k], now, parse) ==> cards[k].noteId in t
    ensures Run(t, cards, now, parse) == Outcome(t, [])
  {
    if cards != [] {
      var prefix := cards[..|cards| - 1];
      assert forall k :: 0 <= k < |prefix| ==> prefix[k] == cards[k];
      RunQuiet(t, prefix, now, parse);
    }
  }

  /** The 30-second timer repeats the check: at the same time, the second one shows no popup. */
  lemma RunTwiceIsQuiet(t0: seq<string>, cards: seq<Card>, now: int, parse: string -> Instant)
    ensures var o := Run(t0, cards, now, parse);
      Run(o.triggered, cards, now, parse) == Outcome(o.triggered, [])
  {
    RunCoversDue(t0, cards, now, parse);
    RunQuiet(Run(t0, cards, now, parse).triggered, cards, now, parse);
  }

  class ReminderLog {
    /** The "triggered_reminders" list in localStorage. */
    var triggered: seq<string>

    constructor (stored: seq<string>)
      ensures triggered == stored
    {
      triggered := stored;
    }

    /**
     * checkReminders: walk the cards in page order; each card with a parsable,
     * due reminder whose id has not fired yet shows a popup and joins the
     * list. No cards on the page means nothing happens at all.
     */
    method CheckReminders(cards: seq<Card>, now: int, parse: string -> Instant) returns (popups: seq<string>)
      modifies this
      ensures cards == [] ==> triggered == old(triggered) && popups == []
      ensures triggered == Run(old(triggered), cards, now, parse).triggered
      ensures popups == Run(old(triggered), cards, now, parse).popups
    {
      popups := [];
      if |cards| == 0 {
        return;
      }
      ghost var t0 := triggered;
      var i := 0;
      while i < |cards|
        invariant 0 <= i <= |cards|
        invariant Outcome(triggered, popups) == Run(t0, cards[..i], now, parse)
      {
        var card := cards[i];
        assert cards[..i + 1][..i] == cards[..i];
        var reminderTime := ReminderTime(card, parse);
        if reminderTime.Some? && card.noteId !in triggered {
          if reminderTime.value.At? && now >= reminderTime.value.ms {
            popups := popups + [Message(card)];
            triggered := triggered + [card.noteId];
          }
        }
        i := i + 1;
      }
      assert cards[..i] == cards;
    }
  }
}
