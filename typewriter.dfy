/** The typing effect of the Mr. Goose sidebar webview: `typeDialog` starts a
    pass over a text, and its inner `type` step reveals one character per
    timer step, posting a sound cue every few characters. */
module Typewriter {

  /** Characters between two sound cues: `index % 3` in src/extension.ts,
      `index % 6` in the older compiled out/extension.js. */
  type CuePeriod = p: nat | p > 0 witness 1

  /** The `soundNumber` of every `playDialogSound` message. */
  const SoundNumber: nat := 1

  /** The script state the typing effect reads and writes: the text and
      callback captured by the current `type` closure (`hasCallback` says
      whether a callback was passed), the shared `index`, the dialog's text,
      `isDialogPlaying`, whether a `setTimeout` step is scheduled
      (`typingTimeout`), the sound numbers posted so far and the number of
      callback runs. */
  datatype Dialog = Dialog(text: string, hasCallback: bool, index: nat, shown: string,
                           playing: bool, pending: bool, sounds: seq<nat>, callbacks: nat)

  /** The state when the script starts: nothing typed, no step scheduled. */
  const Initial: Dialog := Dialog("", false, 0, "", false, false, [], 0)

  /** What the typing effect keeps true between events: the dialog shows
      the first `index` characters of the text, and the dialog is marked as
      playing exactly while a step is scheduled. */
  ghost predicate Consistent(d: Dialog) {
    d.index <= |d.text| && d.shown == d.text[..d.index] && d.playing == d.pending
  }

  /** One run of `type`: reveal the next character and schedule the next
      step, or, at the end of the text, stop playing and run the callback. */
  function AfterType(d: Dialog, period: CuePeriod): Dialog {
    if d.index < |d.text| then
      var index := d.index + 1;
      d.(shown := d.shown + [d.text[d.index]], index := index,
         sounds := if index % period == 0 then d.sounds + [SoundNumber] else d.sounds,
         pending := true)
    else
      d.(playing := false, callbacks := if d.hasCallback then d.callbacks + 1 else d.callbacks)
  }

  /** `typeDialog(text, callback)`: cancel the scheduled step, restart at
      index 0 with an empty dialog, mark the dialog as playing and run the
      first step at once. */
  function AfterTypeDialog(d: Dialog, text: string, hasCallback: bool, period: CuePeriod): Dialog {
    AfterType(Dialog(text, hasCallback, 0, "", true, false, d.sounds, d.callbacks), period)
  }

  /** The scheduled `setTimeout` step fires; without one nothing happens. */
  function AfterTimer(d: Dialog, period: CuePeriod): Dialog {
    if d.pending then AfterType(d.(pending := false), period) else d
  }

  /** `n` timer steps in a row. */
  function AfterTimers(d: Dialog, n: nat, period: CuePeriod): Dialog
    decreases n
  {
    if n == 0 then d else AfterTimer(AfterTimers(d, n - 1, period), period)
  }

  /** The cues posted while revealing the first `n` characters: one after
      each character whose 1-based position is a multiple of `period`. */
  function Cues(n: nat, period: CuePeriod): seq<nat>
    decreases n
  {
    if n == 0 then [] else Cues(n - 1, period) + (if n % period == 0 then [SoundNumber] else [])
  }

  /** The state a pass over `text` reaches after the first step and `k`
      timer steps: the first `k + 1` characters are shown and the next step
      is scheduled, or, once `k` reaches the end of the text, the whole text
      is shown, the dialog has stopped and the callback has run once. */
  function PassState(d: Dialog, text: string, hasCallback: bool, period: CuePeriod, k: nat): Dialog
    requires k <= |text|
  {
    if k < |text| then
      Dialog(text, hasCallback, k + 1, text[..k + 1], true, true, d.sounds + Cues(k + 1, period), d.callbacks)
    else
      Dialog(text, hasCallback, |text|, text, false, false, d.sounds + Cues(|text|, period),
             if hasCallback then d.callbacks + 1 else d.callbacks)
  }

  /** `typeDialog` followed by `k` timer steps, step by step. */
  lemma {:induction false} PassSteps(d: Dialog, text: string, hasCallback: bool, period: CuePeriod, k: nat)
    requires k <= |text|
    ensures AfterTimers(AfterTypeDialog(d, text, hasCallback, period), k, period) ==
            PassState(d, text, hasCallback, period, k)
    decreases k
  {
    if k == 0 {
      PassFirst(d, text, hasCallback, period);
    } else {
      PassSteps(d, text, hasCallback, period, k - 1);
      PassNext(d, text, hasCallback, period, k);
    }
  }

  /** The first step, which `typeDialog` runs itself. */
  lemma PassFirst(d: Dialog, text: string, hasCallback: bool, period: CuePeriod)
    ensures AfterTypeDialog(d, text, hasCallback, period) == PassState(d, text, hasCallback, period, 0)
  {
    assert Cues(0, period) == [];
    if |text| > 0 {
      assert [text[0]] == text[..1];
      assert d.sounds + Cues(1, period) == d.sounds + (if 1 % period == 0 then [SoundNumber] else []);
    } else {
      assert text[..0] == text;
    }
  }

  /** Each timer step of a pass in progress moves to the next pass state. */
  lemma PassNext(d: Dialog, text: string, hasCallback: bool, period: CuePeriod, k: nat)
    requires 0 < k <= |text|
    ensures AfterTimer(PassState(d, text, hasCallback, period, k - 1), period) ==
            PassState(d, text, hasCallback, period, k)
  {
    var e := PassState(d, text, hasCallback, period, k - 1);
    if k < |text| {
      assert text[..k] + [text[k]] == text[..k + 1];
      assert e.sounds + (if (k + 1) % period == 0 then [SoundNumber] else []) == d.sounds + Cues(k + 1, period);
    } else {
      assert text[..k] == text;
    }
  }

  /** A full pass: `|text|` timer steps after `typeDialog` the whole text is
      shown, the dialog has stopped with no step scheduled, `|text| / period`
      cues were posted and the callback, when given, ran exactly once. */
  lemma FullPass(d: Dialog, text: string, hasCallback: bool, period: CuePeriod)
    ensures var e := AfterTimers(AfterTypeDialog(d, text, hasCallback, period), |text|, period);
      e.shown == text && e.index == |text| && !e.playing && !e.pending &&
      e.sounds == d.sounds + Cues(|text|, period) && |e.sounds| == |d.sounds| + |text| / period &&
      e.callbacks == if hasCallback then d.callbacks + 1 else d.callbacks
  {
    PassSteps(d, text, hasCallback, period, |text|);
    CuesCount(|text|, period);
  }

  /** Before the end of the text, every timer step keeps the dialog playing
      and the callback not yet run. */
  lemma PassInProgress(d: Dialog, text: string, hasCallback: bool, period: CuePeriod, k: nat)
    requires k < |text|
    ensures var e := AfterTimers(AfterTypeDialog(d, text, hasCallback, period), k, period);
      e.shown == text[..k + 1] && e.index == k + 1 && e.playing && e.pending && e.callbacks == d.callbacks
  {
    PassSteps(d, text, hasCallback, period, k);
  }

  /** Once no step is scheduled, timer steps change nothing: the completion
      branch, and with it the callback, runs only once per pass. */
  lemma {:induction false} StoppedStaysStopped(d: Dialog, n: nat, period: CuePeriod)
    requires !d.pending
    ensures AfterTimers(d, n, period) == d
    decreases n
  {
    if n > 0 {
      StoppedStaysStopped(d, n - 1, period);
    }
  }

  /** `typeDialog` leaves a consistent state whatever came before. */
  lemma TypeDialogConsistent(d: Dialog, text: string, hasCallback: bool, period: CuePeriod)
    ensures Consistent(AfterTypeDialog(d, text, hasCallback, period))
  {
    PassSteps(d, text, hasCallback, period, 0);
  }

  /** A timer step keeps the state consistent. */
  lemma TimerConsistent(d: Dialog, period: CuePeriod)
    requires Consistent(d)
    ensures Consistent(AfterTimer(d, period))
    ensures AfterTimer(d, period).index == if d.pending && d.index < |d.text| then d.index + 1 else d.index
  {
    if d.pending && d.index < |d.text| {
      assert d.text[..d.index] + [d.text[d.index]] == d.text[..d.index + 1];
    }
  }

  lemma DivStep(n: nat, period: CuePeriod)
    requires n > 0
    ensures n / period == (n - 1) / period + (if n % period == 0 then 1 else 0)
  {
    var q, r := (n - 1) / period, (n - 1) % period;
    assert n - 1 == q * period + r;
    if r == period - 1 {
      assert n == (q + 1) * period;
      DivModUnique(n, period, q + 1, 0);
    } else {
      assert n == q * period + (r + 1);
      DivModUnique(n, period, q, r + 1);
    }
  }

  lemma MulLe(a: int, b: int, p: nat)
    requires a <= b
    ensures a * p <= b * p
  {
    var d := b - a;
    assert b * p == a * p + d * p;
  }

  lemma DivModUnique(n: nat, period: CuePeriod, q: int, r: int)
    requires n == q * period + r && 0 <= r < period
    ensures n / period == q && n % period == r
  {
    var q0 := n / period;
    if q0 < q {
      MulLe(q0 + 1, q, period);
    } else if q < q0 {
      MulLe(q + 1, q0, period);
    }
  }

  /** A pass over `n` characters posts `n / period` cues, all with sound 1. */
  lemma {:induction false} CuesCount(n: nat, period: CuePeriod)
    ensures |Cues(n, period)| == n / period
    ensures forall i :: 0 <= i < |Cues(n, period)| ==> Cues(n, period)[i] == SoundNumber
    decreases n
  {
    if n > 0 {
      CuesCount(n - 1, period);
      DivStep(n, period);
    }
  }

  /** The globals of the sidebar script that the typing effect updates in
      place; `State` reads them as a `Dialog`. */
  class DialogWebview {
    const cuePeriod: CuePeriod
    var text: string
    var hasCallback: bool
    var index: nat
    var shown: string
    var playing: bool
    var pending: bool
    var sounds: seq<nat>
    var callbacks: nat

    function State(): Dialog
      reads this
    {
      Dialog(text, hasCallback, index, shown, playing, pending, sounds, callbacks)
    }

    constructor (cuePeriod: CuePeriod)
      ensures this.cuePeriod == cuePeriod && State() == Initial
    {
      this.cuePeriod := cuePeriod;
      text, hasCallback, index, shown := "", false, 0, "";
      playing, pending, sounds, callbacks := false, false, [], 0;
    }

    /** The `type` closure. */
    method Type()
      modifies this
      ensures State() == AfterType(old(State()), cuePeriod)
    {
      if index < |text| {
        shown := shown + [text[index]];
        index := index + 1;
        if index % cuePeriod == 0 {
          sounds := sounds + [SoundNumber];
        }
        pending := true;
      } else {
        playing := false;
        if hasCallback {
          callbacks := callbacks + 1;
        }
      }
    }

    /** `typeDialog(text, callback)`. */
    method TypeDialog(text: string, hasCallback: bool)
      modifies this
      ensures State() == AfterTypeDialog(old(State()), text, hasCallback, cuePeriod)
      ensures Consistent(State())
    {
      if pending {
        pending := false;
      }
      index := 0;
      shown := "";
      playing := true;
      this.text, this.hasCallback := text, hasCallback;
      Type();
      TypeDialogConsistent(old(State()), text, hasCallback, cuePeriod);
    }

    /** The scheduled step fires. */
    method TimerFires()
      modifies this
      ensures State() == AfterTimer(old(State()), cuePeriod)
    {
      if pending {
        pending := false;
        Type();
      }
    }

    /** `dialogElement.textContent = ""`: empties the dialog and nothing else. */
    method ClearDialog()
      modifies this
      ensures State() == old(State()).(shown := "")
    {
      shown := "";
    }

    /** `clearTimeout(typingTimeout)`. */
    method CancelStep()
      modifies this
      ensures State() == old(State()).(pending := false)
    {
      pending := false;
    }
  }
}
