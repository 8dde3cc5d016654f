/** How the pieces run together: `onLoad` (ensure today's note, then load
    and position the cursor), the debounced save of an edit, and the
    day-by-day life of a note that the deletion countdown describes. */
module Lifecycle {
  import opened Wrappers
  import opened Notes
  import opened TodaysNote
  import opened Save
  import opened Navigation
  import opened Display
  import opened Debounce

  /** The in-memory state after a load: `allNotes` and the cursor. */
  datatype Session = Session(notes: History, nav: Nav)

  /** `onLoad`: `addNoteForTodayIfMissing`, then `fetchDailyNotes`, whose
      callback runs `initDailyNotes` from the fresh state on what the
      first step stored. */
  function OnLoad(read: Option<History>, today: string): (s: Session)
    ensures Inv(s.nav, |s.notes|)
    ensures s.nav.index == |s.notes| - 1 && !s.nav.canGoForward
    ensures HasDate(s.notes, today)
  {
    var notes := EnsureToday(read, today);
    Session(notes, InitDailyNotes(Fresh, |notes|))
  }

  /** On a day's first load the page opens on a blank, writable note for
      today, with the back button shown exactly when older notes exist. */
  lemma FirstLoadOfDayOpensBlankToday(read: Option<History>, today: string)
    requires !HasDate(Stored(read), today)
    ensures var s := OnLoad(read, today);
      var v := Render(s.notes, s.nav, today);
      && v.editable && v.content == "" && v.date == today
      && (v.showBack <==> |Stored(read)| > 0)
      && !v.showForward
  {
  }

  /** The store after the debounce timer fires: the pending text, if any,
      goes through `saveDailyNote` against a fresh read. `None` means no
      write happened. */
  function FlushEdits(read: Option<History>, t: Timer): Option<History> {
    match Fire(t).saved
    case None => None
    case Some(text) => SaveDailyNote(read, text)
  }

  /** A burst of edits on a loaded history rewrites only the last note's
      text, with the last edit, and keeps every date. */
  lemma BurstRewritesLastNoteOnly(read: Option<History>, t: Timer, texts: seq<string>)
    requires 0 < |Stored(read)| <= Cap
    requires |texts| > 0
    ensures var w := FlushEdits(read, Edits(t, texts));
      var h := Stored(read);
      && w.Some? && |w.value| == |h|
      && w.value[..|h| - 1] == h[..|h| - 1]
      && w.value[|h| - 1] == Note(h[|h| - 1].date, texts[|texts| - 1])
  {
    BurstSavesLastTextOnce(t, texts);
    var h := Stored(read);
    var w := SaveDailyNote(read, texts[|texts| - 1]).value;
    assert w[..|h| - 1] == h[..|h| - 1];
  }

  /** One day in the widget's intended life: the day's first load appends
      its note, and a save with that day's text follows (with the capped
      eviction). */
  function DayCycle(h: History, day: string, text: string): (r: History)
    requires !HasDate(h, day)
    ensures |r| == if |h| < Cap then |h| + 1 else Cap
  {
    var loaded := EnsureToday(Some(h), day);
    SaveCapped(Some(loaded), text).value
  }

  /** The countdown the display evidently intends: how many more day
      cycles the note at `index` survives, with the cap of 10. */
  function EntriesUntilDeleteIntended(index: int, n: int): int {
    index + 1 + (Cap - n)
  }

  /** The intended count is exact: a note whose count is 1 is evicted by
      the next day cycle; any other note survives it, with its count one
      lower at its new position. */
  lemma DayCycleCountsDown(h: History, index: int, day: string, text: string)
    requires |h| <= Cap && 0 <= index < |h|
    requires !HasDate(h, day)
    ensures EntriesUntilDeleteIntended(index, |h|) >= 1
    ensures EntriesUntilDeleteIntended(index, |h|) == 1 ==>
      index == 0 && DayCycle(h, day, text) == h[1..] + [Note(day, text)]
    ensures EntriesUntilDeleteIntended(index, |h|) > 1 ==>
      var r := DayCycle(h, day, text);
      var j := if |h| == Cap then index - 1 else index;
      && 0 <= j < |r| && r[j] == h[index]
      && EntriesUntilDeleteIntended(j, |r|) == EntriesUntilDeleteIntended(index, |h|) - 1
  {
  }

  /** The count as written goes negative on a full history: viewing the
      oldest of 10 notes shows -3, yet the next day cycle evicts it. */
  lemma EntriesUntilDeleteAsWrittenMisleads(h: History, day: string, text: string)
    requires |h| == Cap && !HasDate(h, day)
    ensures EntriesUntilDelete(0, |h|) == -3
    ensures EntriesUntilDeleteIntended(0, |h|) == 1
    ensures DayCycle(h, day, text) == h[1..] + [Note(day, text)]
  {
  }
}
