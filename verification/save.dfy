/** `saveDailyNote`: re-read the history, evict the oldest note once when
    the history is over the cap, and overwrite the last note's text. */
module Save {
  import opened Wrappers
  import opened Notes

  /** The number of notes the save path tries to keep. */
  const Cap: nat := 10

  /** `newNotes.shift()` when the copy holds more than `Cap` notes: a single
      eviction, never a loop. */
  function EvictOnce(h: History): History {
    if |h| > Cap then h[1..] else h
  }

  /** `newNotes[newNotes.length - 1].content = text`. */
  function OverwriteLast(h: History, text: string): History
    requires |h| > 0
  {
    h[..|h| - 1] + [Note(h[|h| - 1].date, text)]
  }

  /** The array written back by the save callback, or `None` when the
      callback throws before `set`: spreading an absent key and indexing
      `length - 1` of an empty array both raise a TypeError. */
  function SaveDailyNote(read: Option<History>, text: string): (w: Option<History>)
    ensures w.None? <==> |Stored(read)| == 0
    ensures w.Some? ==>
      var h := Stored(read);
      var k := if |h| > Cap then 1 else 0;
      && |w.value| == |h| - k
      && (forall i | 0 <= i < |w.value| :: w.value[i].date == h[i + k].date)
      && (forall i | 0 <= i < |w.value| - 1 :: w.value[i] == h[i + k])
      && w.value[|w.value| - 1].content == text
  {
    if read.None? || |read.value| == 0 then None
    else Some(OverwriteLast(EvictOnce(read.value), text))
  }

  /** Saving again before another note is appended: the second save evicts
      nothing (the first left at most `Cap` notes) and its text replaces the
      first one's, as if only the second save had happened. */
  lemma SaveTwiceKeepsLastText(read: Option<History>, first: string, second: string)
    requires 0 < |Stored(read)| <= Cap + 1
    ensures SaveDailyNote(read, first).Some?
    ensures SaveDailyNote(Some(SaveDailyNote(read, first).value), second)
         == SaveDailyNote(read, second)
  {
  }

  /** A save neither adds a date nor duplicates one, so one note per day
      survives it. */
  lemma SaveKeepsUniqueDates(read: Option<History>, text: string)
    requires UniqueDates(Stored(read))
    requires |Stored(read)| > 0
    ensures SaveDailyNote(read, text).Some?
    ensures UniqueDates(SaveDailyNote(read, text).value)
  {
  }

  /** The save that follows more than one missed eviction leaves the
      history above the cap: twelve notes become eleven. */
  lemma SaveAsWrittenExceedsCap(read: Option<History>, text: string)
    requires |Stored(read)| == Cap + 2
    ensures SaveDailyNote(read, text).Some?
    ensures |SaveDailyNote(read, text).value| == Cap + 1
  {
  }

  /** The save with the eviction the "limit to 10 notes" comment intends:
      drop oldest notes until at most `Cap` remain, then overwrite the last
      note's text. */
  function SaveCapped(read: Option<History>, text: string): (w: Option<History>)
    ensures w.None? <==> |Stored(read)| == 0
    ensures w.Some? ==>
      var h := Stored(read);
      var k := if |h| > Cap then |h| - Cap else 0;
      && |w.value| == |h| - k
      && (forall i | 0 <= i < |w.value| :: w.value[i].date == h[i + k].date)
      && (forall i | 0 <= i < |w.value| - 1 :: w.value[i] == h[i + k])
      && w.value[|w.value| - 1].content == text
  {
    if read.None? || |read.value| == 0 then None
    else
      var h := read.value;
      var kept := if |h| > Cap then h[|h| - Cap..] else h;
      Some(OverwriteLast(kept, text))
  }

  /** The capped save never leaves more than `Cap` notes behind. */
  lemma SaveCappedWithinCap(read: Option<History>, text: string)
    requires |Stored(read)| > 0
    ensures SaveCapped(read, text).Some?
    ensures |SaveCapped(read, text).value| <= Cap
    ensures |Stored(read)| >= Cap ==> |SaveCapped(read, text).value| == Cap
  {
  }

  /** While at most one eviction is due, the single `shift` already does
      what the capped save does. */
  lemma SaveCappedAgreesUpToOneOver(read: Option<History>, text: string)
    requires |Stored(read)| <= Cap + 1
    ensures SaveCapped(read, text) == SaveDailyNote(read, text)
  {
  }
}
