/** `writeToNote`: every edit cancels the pending save timer and arms a new
    one carrying the latest text; the timer's callback saves that text. The
    300 ms delay itself is not modelled, only the single pending slot. */
module Debounce {
  import opened Wrappers

  /** The save timer: none armed, or one armed with the text it will save. */
  datatype Timer = Idle | Pending(text: string)

  /** `clearTimeout` followed by `setTimeout`: whatever was pending is
      dropped and the new text takes the slot. */
  function WriteToNote(t: Timer, text: string): (r: Timer)
    ensures r.Pending? && r.text == text
  {
    Pending(text)
  }

  /** A burst of edits with no quiet period between them. */
  function Edits(t: Timer, texts: seq<string>): Timer
    decreases |texts|
  {
    if |texts| == 0 then t else Edits(WriteToNote(t, texts[0]), texts[1..])
  }

  /** The timer firing: the text to hand to the save, if one was armed. */
  datatype Fired = Fired(after: Timer, saved: Option<string>)

  function Fire(t: Timer): (f: Fired)
    ensures f.after == Idle
    ensures f.saved.Some? <==> t.Pending?
    ensures t.Pending? ==> f.saved.value == t.text
  {
    match t
    case Idle => Fired(Idle, None)
    case Pending(text) => Fired(Idle, Some(text))
  }

  /** An edit cancels whatever was pending: the timer it leaves does not
      depend on the one before, and firing it saves exactly its text. */
  lemma EditCancelsPending(t: Timer, u: Timer, text: string)
    ensures WriteToNote(t, text) == WriteToNote(u, text)
    ensures Fire(WriteToNote(t, text)) == Fired(Idle, Some(text))
  {
  }

  /** However many edits a burst holds, one timer is left armed and it
      carries the last edit's text. */
  lemma {:induction false} EditsKeepLastText(t: Timer, texts: seq<string>)
    requires |texts| > 0
    ensures Edits(t, texts) == Pending(texts[|texts| - 1])
    decreases |texts|
  {
    if |texts| > 1 {
      EditsKeepLastText(WriteToNote(t, texts[0]), texts[1..]);
    }
  }

  /** A burst followed by one quiet period saves exactly once, with the
      last text, and leaves nothing to save afterwards. */
  lemma BurstSavesLastTextOnce(t: Timer, texts: seq<string>)
    requires |texts| > 0
    ensures Fire(Edits(t, texts)).saved == Some(texts[|texts| - 1])
    ensures Fire(Fire(Edits(t, texts)).after).saved == None
  {
    EditsKeepLastText(t, texts);
  }
}
