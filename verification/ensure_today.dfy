/** `addNoteForTodayIfMissing`: on load, make sure the history holds a note
    for today's date label, appending a blank one when it does not. */
module TodaysNote {
  import opened Wrappers
  import opened Notes

  /** The note created for a day on its first load: dated today, empty. */
  function BlankNote(today: string): Note {
    Note(today, "")
  }

  /** The array the callback writes back with `chrome.storage.sync.set`, or
      `None` when it resolves without writing. An absent key and an empty
      array both take the first branch; otherwise `find` decides. */
  function EnsureTodayWrite(read: Option<History>, today: string): (w: Option<History>)
    ensures w.None? <==> HasDate(Stored(read), today)
    ensures w.Some? ==> w.value == Stored(read) + [BlankNote(today)]
  {
    if read.None? || |read.value| == 0 then
      Some([BlankNote(today)])
    else if FindByDate(read.value, today).None? then
      Some(read.value + [BlankNote(today)])
    else
      None
  }

  /** The stored history once the callback has resolved. */
  function EnsureToday(read: Option<History>, today: string): (h: History)
    ensures HasDate(h, today)
    ensures HasDate(Stored(read), today) ==> h == Stored(read)
    ensures !HasDate(Stored(read), today) ==> h == Stored(read) + [BlankNote(today)]
  {
    match EnsureTodayWrite(read, today)
    case Some(written) =>
      assert written[|written| - 1].date == today;
      written
    case None => Stored(read)
  }

  /** Running the check a second time on the same day finds today's note
      and writes nothing, so the history is the one the first run left. */
  lemma EnsureTodayIdempotent(read: Option<History>, today: string)
    ensures EnsureTodayWrite(Some(EnsureToday(read, today)), today) == None
    ensures EnsureToday(Some(EnsureToday(read, today)), today) == EnsureToday(read, today)
  {
  }

  /** The blank note is appended only when no note carries today's label,
      so one note per day survives the check. */
  lemma EnsureTodayKeepsUniqueDates(read: Option<History>, today: string)
    requires UniqueDates(Stored(read))
    ensures UniqueDates(EnsureToday(read, today))
  {
  }
}
