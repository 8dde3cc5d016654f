/** The data model of the daily-note widget: notes, the persisted history,
    and the date lookup every other module relies on. */
module Notes {
  import opened Wrappers

  /** One day's journal entry: a calendar-day label and the text typed for it. */
  datatype Note = Note(date: string, content: string)

  /** The persisted `dailyNotes` array, oldest first. */
  type History = seq<Note>

  /** Some note of `h` carries the date label `d`. */
  predicate HasDate(h: History, d: string) {
    exists i | 0 <= i < |h| :: h[i].date == d
  }

  /** No date label occurs twice: one note per day. */
  predicate UniqueDates(h: History) {
    forall i, j | 0 <= i < j < |h| :: h[i].date != h[j].date
  }

  /** The history a read of the `dailyNotes` key yields; an absent key is
      treated like an empty history. */
  function Stored(read: Option<History>): (h: History)
    ensures read.Some? ==> h == read.value
    ensures read.None? ==> |h| == 0
  {
    match read
    case None => []
    case Some(notes) => notes
  }

  /** `notes.find(note => note.date === d)`: the first note dated `d`, if any. */
  function FindByDate(h: History, d: string): (r: Option<Note>)
    ensures r.Some? <==> HasDate(h, d)
    ensures r.Some? ==>
      r.value.date == d &&
      exists i | 0 <= i < |h| :: h[i] == r.value && !HasDate(h[..i], d)
  {
    if |h| == 0 then None
    else if h[0].date == d then
      assert !HasDate(h[..0], d);
      Some(h[0])
    else
      var r := FindByDate(h[1..], d);
      assert HasDate(h[1..], d) ==> HasDate(h, d);
      assert HasDate(h, d) ==> HasDate(h[1..], d) by {
        if HasDate(h, d) {
          var i :| 0 <= i < |h| && h[i].date == d;
          assert h[1..][i - 1].date == d;
        }
      }
      if r.Some? then
        var i :| 0 <= i < |h| - 1 && h[1..][i] == r.value && !HasDate(h[1..][..i], d);
        assert h[i + 1] == r.value;
        assert h[..i + 1] == [h[0]] + h[1..][..i];
        assert !HasDate(h[..i + 1], d);
        r
      else
        r
  }
}
