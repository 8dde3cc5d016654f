/** The cursor over the loaded history (`currentNoteIndex`, `canGoBack`,
    `canGoForward`) and the three transitions that move it. The history
    length `n` is fixed once the notes are loaded. */
module Navigation {

  /** The cursor and the two affordance flags the back and forward buttons
      follow. */
  datatype Nav = Nav(index: int, canGoBack: bool, canGoForward: bool)

  /** The state before the notes arrive: both flags false. The source holds
      `null` in the index; `InitDailyNotes` overwrites it, so 0 stands in. */
  const Fresh := Nav(0, false, false)

  /** The cursor is on a note and each flag is on exactly when its
      direction has a note to move to. */
  predicate Inv(s: Nav, n: int) {
    && 0 <= s.index < n
    && (s.canGoBack <==> s.index > 0)
    && (s.canGoForward <==> s.index < n - 1)
  }

  /** `initDailyNotes`: put the cursor on the newest note. It only ever
      switches `canGoBack` on and leaves `canGoForward` alone, so the
      invariant holds when it starts from the fresh state. */
  function InitDailyNotes(s: Nav, n: int): (r: Nav)
    ensures r.index == n - 1
    ensures !s.canGoForward ==> !r.canGoForward
    ensures s == Fresh && n >= 1 ==> Inv(r, n) && (r.canGoBack <==> n > 1)
  {
    Nav(n - 1, if n - 1 > 0 then true else s.canGoBack, s.canGoForward)
  }

  /** `goBack`: no bounds check; the back button is hidden when the flag
      is off. */
  function GoBack(s: Nav): Nav {
    Nav(s.index - 1, if s.index - 1 == 0 then false else s.canGoBack, true)
  }

  /** `goForward` over a history of `n` notes: no bounds check; the forward
      button is hidden when the flag is off. */
  function GoForward(s: Nav, n: int): Nav {
    Nav(s.index + 1, true, if s.index + 1 == n - 1 then false else s.canGoForward)
  }

  /** A step back from a state whose back button is shown. */
  lemma GoBackKeepsInv(s: Nav, n: int)
    requires Inv(s, n) && s.canGoBack
    ensures Inv(GoBack(s), n)
    ensures GoBack(s).index == s.index - 1
    ensures GoBack(s).canGoForward
    ensures !GoBack(s).canGoBack <==> GoBack(s).index == 0
  {
  }

  /** A step forward from a state whose forward button is shown. */
  lemma GoForwardKeepsInv(s: Nav, n: int)
    requires Inv(s, n) && s.canGoForward
    ensures Inv(GoForward(s, n), n)
    ensures GoForward(s, n).index == s.index + 1
    ensures GoForward(s, n).canGoBack
    ensures !GoForward(s, n).canGoForward <==> GoForward(s, n).index == n - 1
  {
  }

  /** A click on one of the two navigation buttons. */
  datatype Click = Back | Forward

  /** A click reaches the engine only when its button is visible. */
  function Press(s: Nav, n: int, c: Click): Nav {
    match c
    case Back => if s.canGoBack then GoBack(s) else s
    case Forward => if s.canGoForward then GoForward(s, n) else s
  }

  /** The state after a session's clicks, in order. */
  function Run(s: Nav, n: int, clicks: seq<Click>): Nav
    decreases |clicks|
  {
    if |clicks| == 0 then s else Run(Press(s, n, clicks[0]), n, clicks[1..])
  }

  /** Whatever the user clicks, the cursor stays on a note and the buttons
      match the notes around it. */
  lemma {:induction false} RunKeepsInv(s: Nav, n: int, clicks: seq<Click>)
    requires Inv(s, n)
    ensures Inv(Run(s, n, clicks), n)
    decreases |clicks|
  {
    if |clicks| > 0 {
      var next := Press(s, n, clicks[0]);
      if clicks[0] == Back && s.canGoBack {
        GoBackKeepsInv(s, n);
      } else if clicks[0] == Forward && s.canGoForward {
        GoForwardKeepsInv(s, n);
      }
      RunKeepsInv(next, n, clicks[1..]);
    }
  }

  /** `k` copies of the same click. */
  function Repeat(c: Click, k: nat): (cs: seq<Click>)
    ensures |cs| == k
    ensures forall i | 0 <= i < k :: cs[i] == c
  {
    if k == 0 then [] else [c] + Repeat(c, k - 1)
  }

  /** Clicking back `k` times moves the cursor `k` notes toward the oldest,
      as long as there are `k` older notes. */
  lemma {:induction false} BackClicks(s: Nav, n: int, k: nat)
    requires Inv(s, n) && k <= s.index
    ensures Inv(Run(s, n, Repeat(Back, k)), n)
    ensures Run(s, n, Repeat(Back, k)).index == s.index - k
    decreases k
  {
    if k > 0 {
      GoBackKeepsInv(s, n);
      assert Repeat(Back, k)[1..] == Repeat(Back, k - 1);
      BackClicks(GoBack(s), n, k - 1);
    }
  }

  /** Clicking forward `k` times moves the cursor `k` notes toward the
      newest, as long as there are `k` newer notes. */
  lemma {:induction false} ForwardClicks(s: Nav, n: int, k: nat)
    requires Inv(s, n) && k <= n - 1 - s.index
    ensures Inv(Run(s, n, Repeat(Forward, k)), n)
    ensures Run(s, n, Repeat(Forward, k)).index == s.index + k
    decreases k
  {
    if k > 0 {
      GoForwardKeepsInv(s, n);
      assert Repeat(Forward, k)[1..] == Repeat(Forward, k - 1);
      ForwardClicks(GoForward(s, n), n, k - 1);
    }
  }

  /** From a fresh load of `n` notes, going back as far as possible reaches
      the oldest note with the back button hidden, and going forward as far
      as possible from there returns to the newest note with the forward
      button hidden. */
  lemma BackToOldestAndForwardToNewest(n: int)
    requires n >= 1
    ensures var oldest := Run(InitDailyNotes(Fresh, n), n, Repeat(Back, n - 1));
      && oldest == Nav(0, false, n > 1)
      && Run(oldest, n, Repeat(Forward, n - 1)) == Nav(n - 1, n > 1, false)
  {
    var start := InitDailyNotes(Fresh, n);
    BackClicks(start, n, n - 1);
    var oldest := Run(start, n, Repeat(Back, n - 1));
    ForwardClicks(oldest, n, n - 1);
  }
}
