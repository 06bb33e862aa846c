/**
 * The timing extractor: one animated image becomes one row of booleans,
 * one entry per 400-unit time slot, or is rejected when its frames do not
 * add up to the expected total duration.
 */
module Timing {
  import opened Common

  /** The only total frame duration an image may have. */
  const TotalDuration: nat := 19684800
  /** The time slot each output entry stands for. */
  const Quantum: nat := 400
  /** The length of a row whose every frame lasts a whole number of slots. */
  const SlotCount: nat := 49212

  /** A decoded frame: whether the sampled pixel is black, and how long the frame is shown. */
  datatype Frame = Frame(black: bool, duration: nat)

  /** The sum of the frame durations. */
  function TotalOf(frames: seq<Frame>): nat
  {
    if |frames| == 0 then 0 else TotalOf(frames[..|frames| - 1]) + frames[|frames| - 1].duration
  }

  /** The number of whole slots the frames fill, each frame's duration truncated to a multiple of the slot. */
  function SlotsOf(frames: seq<Frame>): nat
  {
    if |frames| == 0 then 0 else SlotsOf(frames[..|frames| - 1]) + frames[|frames| - 1].duration / Quantum
  }

  /** The part of each duration that is lost to truncation, summed. */
  function LeftoverOf(frames: seq<Frame>): nat
  {
    if |frames| == 0 then 0 else LeftoverOf(frames[..|frames| - 1]) + frames[|frames| - 1].duration % Quantum
  }

  function Repeat(b: bool, n: nat): seq<bool>
  {
    seq(n, _ => b)
  }

  /** Each frame's colour, repeated once per whole slot of its duration, in frame order. */
  function Resample(frames: seq<Frame>): (row: seq<bool>)
    ensures |row| == SlotsOf(frames)
  {
    if |frames| == 0 then []
    else
      var last := frames[|frames| - 1];
      Resample(frames[..|frames| - 1]) + Repeat(last.black, last.duration / Quantum)
  }

  /** What the extractor returns for one image: a row, or nothing when the total duration is off. */
  function TimingArray(frames: seq<Frame>): Option<seq<bool>>
  {
    if TotalOf(frames) == TotalDuration then Some(Resample(frames)) else None
  }

  /** The extractor: sum the durations, reject a wrong total, else build the row frame by frame. */
  method GetTimingArray(frames: seq<Frame>) returns (row: Option<seq<bool>>)
    ensures row.None? <==> TotalOf(frames) != TotalDuration
    ensures row == TimingArray(frames)
  {
    var duration := 0;
    for i := 0 to |frames|
      invariant duration == TotalOf(frames[..i])
    {
      assert frames[..i + 1][..i] == frames[..i];
      duration := duration + frames[i].duration;
    }
    assert frames[..|frames|] == frames;
    if duration != TotalDuration {
      return None;
    }
    var output: seq<bool> := [];
    for i := 0 to |frames|
      invariant output == Resample(frames[..i])
    {
      assert frames[..i + 1][..i] == frames[..i];
      output := output + Repeat(frames[i].black, frames[i].duration / Quantum);
    }
    return Some(output);
  }

  /** Resampling two runs of frames one after the other gives the first row followed by the second. */
  lemma {:induction false} ResampleAppend(xs: seq<Frame>, ys: seq<Frame>)
    ensures Resample(xs + ys) == Resample(xs) + Resample(ys)
  {
    if |ys| == 0 {
      assert xs + ys == xs;
    } else {
      var init := ys[..|ys| - 1];
      assert (xs + ys)[..|xs + ys| - 1] == xs + init;
      ResampleAppend(xs, init);
    }
  }

  /** Frame `j` owns slot `i`: the slots before it end at or before `i`, its own slots pass `i`. */
  ghost predicate SlotOwner(frames: seq<Frame>, i: int, j: int)
  {
    0 <= j < |frames| && SlotsOf(frames[..j]) <= i < SlotsOf(frames[..j + 1])
  }

  /** Entry `i` of the row is the colour of the frame whose slots cover `i`. */
  lemma {:induction false} ResampleAt(frames: seq<Frame>, i: nat)
    requires i < |Resample(frames)|
    ensures exists j :: SlotOwner(frames, i, j) && Resample(frames)[i] == frames[j].black
  {
    var n := |frames| - 1;
    var init := frames[..n];
    var head := Resample(init);
    var tail := Repeat(frames[n].black, frames[n].duration / Quantum);
    assert Resample(frames) == head + tail;
    if i < |head| {
      ResampleAt(init, i);
      var j :| SlotOwner(init, i, j) && head[i] == init[j].black;
      assert init[..j] == frames[..j] && init[..j + 1] == frames[..j + 1];
      assert SlotOwner(frames, i, j) && Resample(frames)[i] == frames[j].black;
    } else {
      assert frames[..n + 1] == frames;
      assert SlotOwner(frames, i, n);
      assert Resample(frames)[i] == tail[i - |head|];
    }
  }

  lemma {:induction false} SlotsAndLeftover(frames: seq<Frame>)
    ensures Quantum * SlotsOf(frames) + LeftoverOf(frames) == TotalOf(frames)
  {
    if |frames| > 0 {
      SlotsAndLeftover(frames[..|frames| - 1]);
    }
  }

  lemma {:induction false} LeftoverZero(frames: seq<Frame>)
    ensures LeftoverOf(frames) == 0 <==> forall j :: 0 <= j < |frames| ==> frames[j].duration % Quantum == 0
  {
    if |frames| > 0 {
      var init := frames[..|frames| - 1];
      LeftoverZero(init);
      assert forall j :: 0 <= j < |init| ==> init[j] == frames[j];
    }
  }

  /**
   * An accepted row never exceeds 49212 entries, and it has exactly that many
   * precisely when every frame lasts a multiple of 400.
   */
  lemma AcceptedLength(frames: seq<Frame>)
    requires TimingArray(frames).Some?
    ensures |TimingArray(frames).value| <= SlotCount
    ensures |TimingArray(frames).value| == SlotCount
            <==> forall j :: 0 <= j < |frames| ==> frames[j].duration % Quantum == 0
  {
    SlotsAndLeftover(frames);
    LeftoverZero(frames);
  }
}
