# Daily-note history engine

A Dafny model of the logic inside the callbacks of `interface.js`, a
browser-extension page that keeps one journal note per calendar day in the extension's
synchronized storage under the key `dailyNotes`. The model lifts that logic out
as pure functions over a history `seq<Note>` (oldest first), with today's
date label passed in as a parameter:

- `notes.dfy` (`Notes`): the `Note` record, the `History`, the date lookup
  that `Array.prototype.find` performs, and the one-note-per-day predicate.
- `ensure_today.dfy` (`TodaysNote`): `addNoteForTodayIfMissing`, which appends a
  blank note dated today when no note carries that label.
- `save.dfy` (`Save`): `saveDailyNote`, which evicts the oldest note once when the
  history holds more than 10 notes and overwrites the last note's text.
- `navigation.dfy` (`Navigation`): the cursor `(index, canGoBack, canGoForward)`,
  `initDailyNotes`, `goBack`, `goForward`, and clicks that only reach the engine
  while their button is visible.
- `display.dfy` (`Display`): `renderCurrentNote` and the "Deletes after … more
  entries" count of `updateEntriesUntilDelete`.
- `debounce.dfy` (`Debounce`): `writeToNote` as a single pending-save slot that
  every edit overwrites.
- `lifecycle.dfy` (`Lifecycle`): `onLoad` end to end, an edit burst flushed to the
  store, and the day-by-day life of a note that the deletion count describes.

Store reads are `Option<History>`: `None` is an absent `dailyNotes` key, which
`addNoteForTodayIfMissing` treats like an empty array. A callback that would
throw (spreading an absent key or indexing an empty array in `saveDailyNote`)
is modelled as a save that writes nothing.

The code truncates nothing to 1000 characters, evicts with one `shift` rather
than a loop, computes the deletion count with the constant 6, and clamps no
cursor move (the buttons are hidden instead); the model does the same.

## Model

| member | source | states |
|---|---|---|
| Notes.FindByDate | interface.js:41 | `find` by date returns a note exactly when some note carries the label, and then the first such note |
| TodaysNote.EnsureTodayWrite | interface.js:31-55 | no write exactly when a note is already dated today; otherwise the write is the old history (absent key or empty array read as empty) followed by one blank note for today |
| TodaysNote.EnsureToday | interface.js:33-51 | afterwards today's note exists; the history is unchanged if it existed and gains exactly one blank note for today if not |
| TodaysNote.EnsureTodayIdempotent | interface.js:41-49 | of `EnsureTodayWrite`/`EnsureToday`: a second check on the same day writes nothing and leaves the history the first check produced |
| TodaysNote.EnsureTodayKeepsUniqueDates | interface.js:41-47 | of `EnsureToday`: a history with one note per date keeps that property |
| Save.SaveDailyNote | interface.js:111-121 | writes nothing exactly when the stored history is absent or empty; otherwise at most the first note is evicted, and only when there are more than 10; every remaining note keeps its date, all but the last keep their text, and the last gets the new text |
| Save.SaveTwiceKeepsLastText | interface.js:113-118 | of `SaveDailyNote`: two saves with no append in between (at most 11 notes) equal one save of the second text |
| Save.SaveKeepsUniqueDates | interface.js:113-118 | of `SaveDailyNote`: a save keeps one note per date |
| Save.SaveAsWrittenExceedsCap | interface.js:114-117 | of `SaveDailyNote`: a save on 12 notes leaves 11, above the cap of 10 |
| Save.SaveCapped | interface.js:114-118 | the intended save: evicts oldest notes until at most 10 remain, keeps dates and texts of the rest, sets the last note's text |
| Save.SaveCappedWithinCap | interface.js:114 | of `SaveCapped`: the intended save never leaves more than 10 notes, and exactly 10 when there were at least 10 |
| Save.SaveCappedAgreesUpToOneOver | interface.js:115-117 | of `SaveCapped` against `SaveDailyNote`: with at most 11 notes the single `shift` and the intended save agree |
| Navigation.InitDailyNotes | interface.js:70-76 | the cursor goes to the newest note; from the fresh state the cursor invariant holds, forward is off and back is on exactly when there is more than one note |
| Navigation.GoBackKeepsInv | interface.js:123-129 | of `GoBack`: with the back button shown, the cursor moves one note older, forward turns on, back turns off exactly when the oldest note is reached, and the invariant holds |
| Navigation.GoForwardKeepsInv | interface.js:133-139 | of `GoForward`: with the forward button shown, the cursor moves one note newer, back turns on, forward turns off exactly when the newest note is reached, and the invariant holds |
| Navigation.RunKeepsInv | interface.js:22-28 | of `Press` and `Run`: any sequence of clicks on visible buttons keeps the cursor on a note with each button shown exactly when it has somewhere to go |
| Navigation.BackClicks | interface.js:123-129 | of `Run` over `GoBack`: k back clicks with k older notes available move the cursor k notes older |
| Navigation.ForwardClicks | interface.js:133-139 | of `Run` over `GoForward`: k forward clicks with k newer notes available move the cursor k notes newer |
| Navigation.BackToOldestAndForwardToNewest | interface.js:70-139 | of `InitDailyNotes`, `GoBack` and `GoForward`: after load, going back all the way reaches the oldest note with back hidden, and going forward all the way returns to the newest with forward hidden |
| Display.Render | interface.js:80-102 | the view shows the note under the cursor, is editable exactly when that note is dated today, shows each button exactly when its flag is on, and shows the count `index + 7 - N` followed by "entry" when it is 1 and "entries" otherwise |
| Display.EntriesUntilDeleteFollowsCursor | interface.js:57-60 | of `EntriesUntilDelete` with `GoBack`/`GoForward`: each step back lowers the count by one and each step forward raises it by one |
| Debounce.EditCancelsPending | interface.js:104-109 | of `WriteToNote` and `Fire`: an edit replaces whatever save was pending, and firing then saves exactly that edit's text and leaves nothing pending |
| Debounce.EditsKeepLastText | interface.js:104-109 | of `Edits`: after any burst of edits the one pending save carries the last edit's text |
| Debounce.BurstSavesLastTextOnce | interface.js:104-109 | of `Edits` and `Fire`: a burst followed by a quiet period saves once, with the last text, and nothing more |
| Lifecycle.OnLoad | interface.js:11-13 | after load today's note exists, the cursor is on the newest note, forward is off and the cursor invariant holds |
| Lifecycle.FirstLoadOfDayOpensBlankToday | interface.js:81-89 | of `OnLoad` and `Render`: the first load of a day shows a blank, editable note for today, with back shown exactly when older notes exist |
| Lifecycle.BurstRewritesLastNoteOnly | interface.js:104-121 | of `FlushEdits`: a flushed burst on a history within the cap rewrites only the last note, with the last text, keeping its date and every other note |
| Lifecycle.DayCycle | interface.js:114-118 | one day (append today's note, then the intended save) grows the history by one until it holds 10 notes, then keeps it at 10 |
| Lifecycle.DayCycleCountsDown | interface.js:57-60 | of `EntriesUntilDeleteIntended` against `DayCycle`: with the cap of 10 in the count, a note with count 1 is evicted by the next day and any other note survives it with its count one lower |
| Lifecycle.EntriesUntilDeleteAsWrittenMisleads | interface.js:57-60 | of `EntriesUntilDelete` against `DayCycle`: on a full history the count as written shows -3 for the oldest note, which the next day evicts |

The helpers the lemmas above specify model these lines of `interface.js`:
`Navigation.GoBack` lines 123-129, `Navigation.GoForward` lines 133-139,
`Navigation.Press` and `Navigation.Run` lines 22-28 (a click reaches the engine
only while its button is visible, lines 90-100), `Display.EntriesUntilDelete`
lines 57-60, `Display.EntryWord` line 61, `Save.EvictOnce` lines 115-117,
`Save.OverwriteLast` line 118, `Debounce.WriteToNote` lines 105-108,
`Debounce.Fire` and `Lifecycle.FlushEdits` lines 106-108, and
`Lifecycle.EntriesUntilDeleteIntended` lines 57-60 with the cap of line 115
in place of the constant 6.

## Left out

- Storage calls (`chrome.storage.sync.get`/`set`), the Promise and callback plumbing, and write failures: the store is only the input and output of the pure functions.
- The DOM (`getElementById`, class toggling, event-listener wiring in `addTextEventListeners`): `Render` returns the values instead.
- Date formatting with `Intl.DateTimeFormat`: today's label is an opaque string parameter.
- Real timers: the 300 ms quiet period is not modelled, only the single pending slot it guards.
- Interleavings of asynchronous callbacks: two racing ensure-today checks appending two notes for the same day, a save racing a load, a click arriving before the history has loaded, and a page left open across midnight.
- Display.Render: requires the cursor to be on a note, because the source reads `currentNote.date` and throws otherwise.
- Navigation.GoBackKeepsInv: requires the back button to be shown; the source does no bounds check, so a back click at the oldest note would move the cursor to -1.
- Navigation.GoForwardKeepsInv: requires the forward button to be shown, for the same reason at the newest note.
- Character cap: the code never truncates text to 1000 characters, so no bound on a note's length is modelled.

## Findings

| source | as written | input that shows it | evidently intended | confidence | as-written member | corrected member |
|---|---|---|---|---|---|---|
| interface.js:114-117 | one `shift` when the history holds more than 10 notes | the widget opened on 12 different days without typing (each load appends a note), then one edit: 11 notes are stored | the comment "limit to 10 notes": at most 10 notes after a save | medium, not executed | Save.SaveAsWrittenExceedsCap | Save.SaveCapped |
| interface.js:57-60 | count `index + 1 + (6 - N)` | 10 stored notes, viewing the oldest: "Deletes after -3 more entries", yet the next day's save evicts it | `index + 1 + (10 - N)`, the number of days the note still survives under the cap of 10 | medium, not executed | Lifecycle.EntriesUntilDeleteAsWrittenMisleads | Lifecycle.DayCycleCountsDown |

`Save.SaveDailyNote` and `Display.Render` model the code as written. The day-by-day
model `Lifecycle.DayCycle` uses the corrected `Save.SaveCapped` and the corrected
count `Lifecycle.EntriesUntilDeleteIntended`; `Save.SaveCappedAgreesUpToOneOver`
shows that both saves agree on every history the daily cycle produces.
