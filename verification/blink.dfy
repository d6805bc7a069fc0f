/**
  The frame-counted blink of the segmentation view: a focus click starts a
  blink, the counter advances once per rendered frame while blinking, and
  the first time the segmentation panel is drawn with the counter at or
  above the duration the blink ends and the output image's alpha is
  restored from the distance image. The end-of-blink check and the click
  handling live inside the panel, which is drawn only in blend mode 5 with
  its tree node open; the tick runs on every frame. The restore itself is
  not modelled here; a frame reports whether it happened.
 */
module Blinking {

  /** Frames a blink lasts; the window never changes it. */
  const BlinkDuration: int := 10

  datatype Blink = Blink(inBlink: bool, counter: int)

  /** The state of a freshly created window. */
  const Idle := Blink(false, 0)

  /** The blink check at the top of the segmentation panel: a blink whose
      counter has reached the duration ends, its counter resets to 0, and the
      alpha restore is requested; any other state is left alone. */
  function EndBlink(b: Blink): (Blink, bool)
  {
    if b.inBlink && b.counter >= BlinkDuration then (Idle, true) else (b, false)
  }

  /** A left click on the mask view starts a blink with counter 0, but only
      when no blink is running and paint mode is off. */
  function StartBlink(b: Blink, leftClick: bool, painting: bool): Blink
  {
    if leftClick && !b.inBlink && !painting then Blink(true, 0) else b
  }

  /** The end-of-frame tick: the counter advances by one exactly when a blink
      is running. */
  function FrameTick(b: Blink): Blink
  {
    if b.inBlink then b.(counter := b.counter + 1) else b
  }

  /** The states a window can be in between frames: idle with counter 0, or
      blinking with a counter of at least 1. The counter has no upper bound:
      while the panel is not drawn it keeps rising past the duration. */
  predicate Consistent(b: Blink)
  {
    if b.inBlink then b.counter >= 1 else b.counter == 0
  }

  /** What one frame brings: whether the segmentation panel is drawn, and
      whether a left click with paint mode off landed on the mask view (only
      possible when the panel is drawn). */
  datatype FrameInput = FrameInput(panelShown: bool, focusClick: bool)

  /** One rendered frame. With the panel drawn: the blink check, then a click
      that may start a blink, then the tick. With the panel hidden: the tick
      alone, and any click flag is ignored. Returns the new state and whether
      the alpha restore happened. The frame keeps the state consistent, and a
      drawn frame brings the counter back within the duration; it restores
      exactly when the panel is drawn and a running blink has reached its
      duration; a running blink that does not end advances by one; a blink
      starts exactly on a focus click in a drawn frame that finds no blink
      running after the check, and then stands at 1 after its first frame; an idle window without such a click stays as
      it is. */
  function Frame(b: Blink, f: FrameInput): (r: (Blink, bool))
    ensures Consistent(b) ==> Consistent(r.0)
    ensures Consistent(b) && f.panelShown ==> r.0.counter <= BlinkDuration
    ensures r.1 <==> f.panelShown && b.inBlink && b.counter >= BlinkDuration
    ensures r.1 ==> !r.0.inBlink || f.focusClick
    ensures b.inBlink && !r.1 ==> r.0 == Blink(true, b.counter + 1)
    ensures !b.inBlink && r.0.inBlink ==> f.panelShown && f.focusClick && r.0.counter == 1
    ensures !b.inBlink && !(f.panelShown && f.focusClick) ==> r.0 == b && !r.1
    ensures f.panelShown && f.focusClick && !EndBlink(b).0.inBlink ==> r.0 == Blink(true, 1)
  {
    if f.panelShown then
      var (b1, restored) := EndBlink(b);
      (FrameTick(StartBlink(b1, f.focusClick, false)), restored)
    else
      (FrameTick(b), false)
  }

  /** Clicks while a blink is still running change nothing. */
  lemma ClickDuringBlinkIgnored(b: Blink)
    requires b.inBlink && b.counter < BlinkDuration
    ensures Frame(b, FrameInput(true, true)) == Frame(b, FrameInput(true, false))
  {
  }

  /** The number of restores over a run of frames. */
  function Restores(b: Blink, frames: seq<FrameInput>): nat
    decreases |frames|
  {
    if |frames| == 0 then 0
    else
      var (b1, restored) := Frame(b, frames[0]);
      (if restored then 1 else 0) + Restores(b1, frames[1..])
  }

  /** The state after a run of frames. */
  function RunFrames(b: Blink, frames: seq<FrameInput>): Blink
    decreases |frames|
  {
    if |frames| == 0 then b else RunFrames(Frame(b, frames[0]).0, frames[1..])
  }

  /** Restores and the final state split at any point of a run. */
  lemma {:induction false} RunAppend(b: Blink, xs: seq<FrameInput>, ys: seq<FrameInput>)
    ensures Restores(b, xs + ys) == Restores(b, xs) + Restores(RunFrames(b, xs), ys)
    ensures RunFrames(b, xs + ys) == RunFrames(RunFrames(b, xs), ys)
    decreases |xs|
  {
    if |xs| == 0 {
      assert xs + ys == ys;
    } else {
      assert (xs + ys)[0] == xs[0];
      assert (xs + ys)[1..] == xs[1..] + ys;
      RunAppend(Frame(b, xs[0]).0, xs[1..], ys);
    }
  }

  /** Holds when no frame of the run carries a focus click. */
  predicate NoFocusClicks(frames: seq<FrameInput>)
  {
    forall i | 0 <= i < |frames| :: !frames[i].focusClick
  }

  /** `k` frames with the panel drawn and no click. */
  function Quiet(k: nat): (s: seq<FrameInput>)
    ensures |s| == k && forall i | 0 <= i < k :: s[i] == FrameInput(true, false)
  {
    seq(k, _ => FrameInput(true, false))
  }

  /** `k` frames with the panel not drawn. */
  function Hidden(k: nat): (s: seq<FrameInput>)
    ensures |s| == k && forall i | 0 <= i < k :: s[i] == FrameInput(false, false)
  {
    seq(k, _ => FrameInput(false, false))
  }

  /** Without focus clicks an idle window stays idle and never restores,
      whether or not the panel is drawn. */
  lemma {:induction false} IdleStaysIdle(frames: seq<FrameInput>)
    requires NoFocusClicks(frames)
    ensures Restores(Idle, frames) == 0
    ensures RunFrames(Idle, frames) == Idle
    decreases |frames|
  {
    if |frames| > 0 {
      assert NoFocusClicks(frames[1..]) by {
        forall i | 0 <= i < |frames| - 1 ensures !frames[1..][i].focusClick {
          assert frames[1..][i] == frames[i + 1];
        }
      }
      IdleStaysIdle(frames[1..]);
    }
  }

  /** A running blink with counter c, left for k drawn frames without
      clicks, restores exactly once if k exceeds the frames it has left (at
      the first drawn frame when c already reached the duration) and not at
      all otherwise; after the restore the window is idle. */
  lemma {:induction false} BlinkRestoresOnce(b: Blink, k: nat)
    requires b.inBlink && b.counter >= 1
    ensures Restores(b, Quiet(k)) == if k > 0 && k > BlinkDuration - b.counter then 1 else 0
    ensures k > 0 && k > BlinkDuration - b.counter ==> RunFrames(b, Quiet(k)) == Idle
    ensures !(k > 0 && k > BlinkDuration - b.counter) ==> RunFrames(b, Quiet(k)) == Blink(true, b.counter + k)
    decreases k
  {
    if k > 0 {
      assert Quiet(k)[1..] == Quiet(k - 1);
      if b.counter >= BlinkDuration {
        IdleStaysIdle(Quiet(k - 1));
      } else {
        BlinkRestoresOnce(Blink(true, b.counter + 1), k - 1);
      }
    }
  }

  /** While the panel is not drawn a running blink never restores and its
      counter rises by one per frame, past the duration if need be. */
  lemma {:induction false} HiddenDelaysRestore(b: Blink, k: nat)
    requires b.inBlink
    ensures Restores(b, Hidden(k)) == 0
    ensures RunFrames(b, Hidden(k)) == Blink(true, b.counter + k)
    decreases k
  {
    if k > 0 {
      assert Hidden(k)[1..] == Hidden(k - 1);
      HiddenDelaysRestore(Blink(true, b.counter + 1), k - 1);
    }
  }

  /** From idle, a focus click followed by k drawn frames without clicks
      restores the alpha exactly once when k reaches the duration, and never
      before. */
  lemma ClickThenWait(k: nat)
    ensures Restores(Idle, [FrameInput(true, true)] + Quiet(k)) == if k >= BlinkDuration then 1 else 0
  {
    var frames := [FrameInput(true, true)] + Quiet(k);
    assert frames[1..] == Quiet(k);
    assert Frame(Idle, FrameInput(true, true)) == (Blink(true, 1), false);
    BlinkRestoresOnce(Blink(true, 1), k);
  }

  /** From idle, a focus click followed by k frames with the panel hidden
      leaves the counter at k + 1, beyond the duration for k >= 10, with no
      restore; the next drawn frame then restores exactly when k + 1 reached
      the duration. */
  lemma ClickHideThenShow(k: nat)
    ensures var run := [FrameInput(true, true)] + Hidden(k);
      && RunFrames(Idle, run) == Blink(true, k + 1)
      && Restores(Idle, run) == 0
      && Restores(Idle, run + Quiet(1)) == if k + 1 >= BlinkDuration then 1 else 0
  {
    var run := [FrameInput(true, true)] + Hidden(k);
    assert run[1..] == Hidden(k);
    assert Frame(Idle, FrameInput(true, true)) == (Blink(true, 1), false);
    HiddenDelaysRestore(Blink(true, 1), k);
    RunAppend(Idle, run, Quiet(1));
    BlinkRestoresOnce(Blink(true, k + 1), 1);
  }
}
