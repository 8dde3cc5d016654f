/** `renderCurrentNote` and `updateEntriesUntilDelete`: the values the page
    shows for the note under the cursor. */
module Display {
  import opened Notes
  import opened Navigation

  /** The "Deletes after … more entries" count, with the constant 6 the
      source uses (not the save cap of 10). */
  function EntriesUntilDelete(index: int, n: int): int {
    index + 1 + (6 - n)
  }

  /** The singular is used exactly when the count is one. */
  function EntryWord(count: int): (w: string)
    ensures count == 1 ==> w == "entry"
    ensures count != 1 ==> w == "entries"
  {
    if count == 1 then "entry" else "entries"
  }

  /** The textarea is writable only for the note dated today. */
  predicate Editable(note: Note, today: string) {
    note.date == today
  }

  /** What one render puts on the page. */
  datatype View = View(
    content: string,
    editable: bool,
    date: string,
    showBack: bool,
    showForward: bool,
    deletesIn: int,
    deletesWord: string)

  /** `renderCurrentNote` for the cursor `s` over the loaded history `h`.
      The source reads `currentNote.date`, so the cursor has to be on a note. */
  function Render(h: History, s: Nav, today: string): (v: View)
    requires 0 <= s.index < |h|
    ensures v.date == h[s.index].date && v.content == h[s.index].content
    ensures v.editable <==> v.date == today
    ensures v.showBack == s.canGoBack && v.showForward == s.canGoForward
    ensures v.deletesIn == s.index + 7 - |h|
    ensures v.deletesIn == 1 ==> v.deletesWord == "entry"
    ensures v.deletesIn != 1 ==> v.deletesWord == "entries"
  {
    var note := h[s.index];
    var count := EntriesUntilDelete(s.index, |h|);
    View(note.content, Editable(note, today), note.date,
         s.canGoBack, s.canGoForward, count, EntryWord(count))
  }

  /** Each step back shows one entry fewer before deletion, each step
      forward one more. */
  lemma EntriesUntilDeleteFollowsCursor(s: Nav, n: int)
    requires Inv(s, n)
    ensures s.canGoBack ==>
      EntriesUntilDelete(GoBack(s).index, n) == EntriesUntilDelete(s.index, n) - 1
    ensures s.canGoForward ==>
      EntriesUntilDelete(GoForward(s, n).index, n) == EntriesUntilDelete(s.index, n) + 1
  {
  }
}
