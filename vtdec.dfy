/** The VideoToolbox decoder's own bookkeeping: the PTS order of its reorder
    queue, the output format it prefers, how it sizes the queue and how it
    pops decoded frames off the queue and hands them downstream. */
module Vtdec {
  import opened GstTypes
  import opened VtdecReorderDepth

  // ---------------------------------------------------------------------
  // Frames and their order

  /** `GST_CLOCK_TIME_NONE`. */
  const ClockTimeNone: nat := 0xFFFF_FFFF_FFFF_FFFF

  /** The frame flags vtdec adds above GstVideoCodecFrameFlags. */
  const FlagSkip: nat := 0x400
  const FlagDrop: nat := 0x800
  const FlagError: nat := 0x1000

  /** A decoded frame on the reorder queue: its number, its flags and, when
      it has an output buffer, that buffer's PTS. */
  datatype Frame = Frame(systemFrameNumber: nat, flags: nat, outputPts: Option<nat>)

  /** `flags & mask` is non-zero, for a single-bit `mask`. */
  predicate HasFlag(f: Frame, mask: nat)
    requires mask > 0
  {
    (f.flags / mask) % 2 == 1
  }

  /** The PTS the comparator reads: the output buffer's, or none. */
  function PtsOf(f: Frame): nat
  {
    match f.outputPts
    case None => ClockTimeNone
    case Some(pts) => pts
  }

  /** `sort_frames_by_pts`: frames without a valid PTS compare equal to
      everything; otherwise -1, 0 or 1 by PTS. */
  function ComparePts(f1: Frame, f2: Frame): (r: int)
    ensures -1 <= r <= 1
    ensures PtsOf(f1) == ClockTimeNone || PtsOf(f2) == ClockTimeNone ==> r == 0
  {
    var pts1 := PtsOf(f1);
    var pts2 := PtsOf(f2);
    if pts1 == ClockTimeNone || pts2 == ClockTimeNone then 0
    else if pts1 < pts2 then -1
    else if pts1 == pts2 then 0
    else 1
  }

  /** Between frames with valid PTS the comparator is the PTS order. */
  lemma ComparePtsIsPtsOrder(f1: Frame, f2: Frame)
    requires PtsOf(f1) != ClockTimeNone && PtsOf(f2) != ClockTimeNone
    ensures ComparePts(f1, f2) < 0 <==> PtsOf(f1) < PtsOf(f2)
    ensures ComparePts(f1, f2) == 0 <==> PtsOf(f1) == PtsOf(f2)
    ensures ComparePts(f1, f2) > 0 <==> PtsOf(f1) > PtsOf(f2)
  {
  }

  /** Swapping the arguments negates the result, and a frame equals itself. */
  lemma ComparePtsAntisymmetric(f1: Frame, f2: Frame)
    ensures ComparePts(f1, f2) == -ComparePts(f2, f1)
    ensures ComparePts(f1, f1) == 0
  {
  }

  /** A frame without a PTS compares equal to two frames that are not equal
      to each other, so the comparator is not a total preorder when such a
      frame is queued. */
  lemma ComparePtsNotTransitive(f1: Frame, f2: Frame, f3: Frame)
    requires f2.outputPts.None?
    requires PtsOf(f1) != ClockTimeNone && PtsOf(f3) != ClockTimeNone && PtsOf(f1) < PtsOf(f3)
    ensures ComparePts(f1, f2) == 0 && ComparePts(f2, f3) == 0 && ComparePts(f1, f3) == -1
  {
  }

  // ---------------------------------------------------------------------
  // The preferred output format

  /** The GstVideoFormat values the choice looks at; `OtherFormat` is any
      other value `gst_video_format_from_string` may return. */
  datatype VideoFormat =
    | FormatUnknown
    | Nv12
    | Ayuv64
    | Argb64Be
    | Rgba64Le
    | OtherFormat(code: nat)

  /** Whether `get_preferred_video_format` returns `f` when it meets it:
      NV12 for other codecs; AYUV64, ARGB64_BE and, where the platform has
      it, RGBA64_LE for ProRes. */
  predicate Acceptable(f: VideoFormat, prores: bool, have64RgbaLe: bool)
    ensures !prores ==> (Acceptable(f, prores, have64RgbaLe) <==> f == Nv12)
    ensures prores && Acceptable(f, prores, have64RgbaLe) ==> f != Nv12
    ensures f == Rgba64Le && Acceptable(f, prores, have64RgbaLe) ==> have64RgbaLe
  {
    match f
    case Nv12 => !prores
    case Ayuv64 => prores
    case Argb64Be => prores
    case Rgba64Le => have64RgbaLe && prores
    case _ => false
  }

  /** `get_preferred_video_format` over the strings of the "format" list:
      the first entry whose format is acceptable, else UNKNOWN. */
  method GetPreferredVideoFormat(formats: seq<string>, fromString: string -> VideoFormat,
                                 prores: bool, have64RgbaLe: bool)
    returns (vfmt: VideoFormat)
    ensures vfmt == FormatUnknown <==>
      forall i :: 0 <= i < |formats| ==> !Acceptable(fromString(formats[i]), prores, have64RgbaLe)
    ensures vfmt != FormatUnknown ==>
      exists i :: 0 <= i < |formats| && vfmt == fromString(formats[i]) &&
        Acceptable(vfmt, prores, have64RgbaLe) &&
        forall j :: 0 <= j < i ==> !Acceptable(fromString(formats[j]), prores, have64RgbaLe)
  {
    var i := 0;
    while i < |formats|
      invariant i <= |formats|
      invariant forall j :: 0 <= j < i ==> !Acceptable(fromString(formats[j]), prores, have64RgbaLe)
    {
      vfmt := fromString(formats[i]);
      match vfmt {
        case Nv12 =>
          if !prores {
            return;
          }
        case Ayuv64 =>
          if prores {
            return;
          }
        case Argb64Be =>
          if prores {
            return;
          }
        case Rgba64Le =>
          if have64RgbaLe {
            if prores {
              return;
            }
          }
        case _ =>
      }
      i := i + 1;
    }
    vfmt := FormatUnknown;
  }

  // ---------------------------------------------------------------------
  // Draining the reorder queue

  /** What happened to a popped frame: released, dropped or finished
      (pushed downstream). */
  datatype Action = Release(frame: Frame) | Drop(frame: Frame) | Finish(frame: Frame)

  /** The state after a drain: the flow return, the frames handled in
      order, and what is left on the queue. */
  datatype DrainResult = DrainResult(ret: FlowReturn, actions: seq<Action>, remaining: seq<Frame>)

  /** The handling of one popped frame and the flow return after it; the
      result of `gst_video_decoder_finish_frame` is `finish`. */
  function Dispatch(f: Frame, flush: bool, finish: Frame -> FlowReturn): (r: (Action, FlowReturn))
    ensures r.0.frame == f
    ensures r.0.Finish? <==> !flush && !HasFlag(f, FlagError) && !HasFlag(f, FlagSkip) && !HasFlag(f, FlagDrop)
    ensures r.0.Drop? <==> !flush && !HasFlag(f, FlagError) && !HasFlag(f, FlagSkip) && HasFlag(f, FlagDrop)
    ensures r.0.Finish? ==> r.1 == finish(f)
    ensures !r.0.Finish? ==> (r.1 == FlowError <==> HasFlag(f, FlagError)) && (r.1 == FlowOk <==> !HasFlag(f, FlagError))
  {
    if HasFlag(f, FlagError) then (Release(f), FlowError)
    else if flush || HasFlag(f, FlagSkip) then (Release(f), FlowOk)
    else if HasFlag(f, FlagDrop) then (Drop(f), FlowOk)
    else (Finish(f), finish(f))
  }

  /** Whether the loop pops again with `n` frames queued. */
  predicate KeepPopping(n: nat, reorderQueueLength: int, drain: bool, flush: bool)
  {
    n >= reorderQueueLength || drain || flush
  }

  /** The pop/dispatch loop of `gst_vtdec_push_frames_if_needed`, from a
      flow return of OK: pop while the queue is long enough or a drain or
      flush is asked for, stop on an empty queue or a non-OK result. */
  function Drain(queue: seq<Frame>, reorderQueueLength: int, drain: bool, flush: bool,
                 finish: Frame -> FlowReturn): DrainResult
    decreases |queue|
  {
    if !KeepPopping(|queue|, reorderQueueLength, drain, flush) || queue == [] then
      DrainResult(FlowOk, [], queue)
    else
      var step := Dispatch(queue[0], flush, finish);
      if step.1 != FlowOk then DrainResult(step.1, [step.0], queue[1..])
      else
        var rest := Drain(queue[1..], reorderQueueLength, drain, flush, finish);
        DrainResult(rest.ret, [step.0] + rest.actions, rest.remaining)
  }

  /** The loop pops from the head only: what remains is a suffix of the
      queue, and one action was taken per frame popped. */
  lemma {:induction false} DrainPopsFromHead(queue: seq<Frame>, reorderQueueLength: int, drain: bool, flush: bool,
                                             finish: Frame -> FlowReturn)
    ensures var r := Drain(queue, reorderQueueLength, drain, flush, finish);
            |r.remaining| <= |queue| && r.remaining == queue[|queue| - |r.remaining|..] &&
            |r.actions| == |queue| - |r.remaining|
    decreases |queue|
  {
    if queue != [] && KeepPopping(|queue|, reorderQueueLength, drain, flush) &&
       Dispatch(queue[0], flush, finish).1 == FlowOk {
      DrainPopsFromHead(queue[1..], reorderQueueLength, drain, flush, finish);
    }
  }

  /** A drain that already handled `done` before reaching `r`. */
  function Resume(done: seq<Action>, r: DrainResult): DrainResult
  {
    DrainResult(r.ret, done + r.actions, r.remaining)
  }

  /** A pop whose outcome is not OK ends the drain with that outcome and
      leaves the rest of the queue. */
  lemma DrainPopStops(queue: seq<Frame>, reorderQueueLength: int, drain: bool, flush: bool,
                      finish: Frame -> FlowReturn, done: seq<Action>)
    requires KeepPopping(|queue|, reorderQueueLength, drain, flush) && queue != []
    requires Dispatch(queue[0], flush, finish).1 != FlowOk
    ensures Resume(done, Drain(queue, reorderQueueLength, drain, flush, finish))
         == DrainResult(Dispatch(queue[0], flush, finish).1, done + [Dispatch(queue[0], flush, finish).0], queue[1..])
  {
    var step := Dispatch(queue[0], flush, finish);
    assert Drain(queue, reorderQueueLength, drain, flush, finish) == DrainResult(step.1, [step.0], queue[1..]);
  }

  /** A pop whose outcome is OK carries on with the rest of the queue. */
  lemma DrainPopContinues(queue: seq<Frame>, reorderQueueLength: int, drain: bool, flush: bool,
                          finish: Frame -> FlowReturn, done: seq<Action>)
    requires KeepPopping(|queue|, reorderQueueLength, drain, flush) && queue != []
    requires Dispatch(queue[0], flush, finish).1 == FlowOk
    ensures Resume(done, Drain(queue, reorderQueueLength, drain, flush, finish))
         == Resume(done + [Dispatch(queue[0], flush, finish).0], Drain(queue[1..], reorderQueueLength, drain, flush, finish))
  {
    var rest := Drain(queue[1..], reorderQueueLength, drain, flush, finish);
    Associative(done, [Dispatch(queue[0], flush, finish).0], rest.actions);
  }

  /** An OK drain or flush empties the queue. */
  lemma {:induction false} DrainOrFlushEmptiesQueue(queue: seq<Frame>, reorderQueueLength: int,
                                                    drain: bool, flush: bool, finish: Frame -> FlowReturn)
    requires drain || flush
    requires Drain(queue, reorderQueueLength, drain, flush, finish).ret == FlowOk
    ensures Drain(queue, reorderQueueLength, drain, flush, finish).remaining == []
    decreases |queue|
  {
    if queue != [] {
      DrainOrFlushEmptiesQueue(queue[1..], reorderQueueLength, drain, flush, finish);
    }
  }

  /** Without drain or flush, an OK result leaves fewer frames queued than
      the reorder depth (or none at all). */
  lemma {:induction false} DrainLeavesShortQueue(queue: seq<Frame>, reorderQueueLength: int,
                                                 finish: Frame -> FlowReturn)
    requires Drain(queue, reorderQueueLength, false, false, finish).ret == FlowOk
    ensures var rest := Drain(queue, reorderQueueLength, false, false, finish).remaining;
            |rest| < reorderQueueLength || rest == []
    decreases |queue|
  {
    if queue != [] && KeepPopping(|queue|, reorderQueueLength, false, false) {
      DrainLeavesShortQueue(queue[1..], reorderQueueLength, finish);
    }
  }

  /** Each popped frame, in queue order, is handled as `Dispatch` says, and
      every frame but the last one handled had an OK outcome. */
  lemma {:induction false} DrainHandlesHeadInOrder(queue: seq<Frame>, reorderQueueLength: int,
                                                   drain: bool, flush: bool, finish: Frame -> FlowReturn)
    ensures var r := Drain(queue, reorderQueueLength, drain, flush, finish);
            |r.actions| <= |queue| &&
            forall i :: 0 <= i < |r.actions| ==>
              r.actions[i] == Dispatch(queue[i], flush, finish).0 &&
              (i < |r.actions| - 1 ==> Dispatch(queue[i], flush, finish).1 == FlowOk)
    decreases |queue|
  {
    DrainPopsFromHead(queue, reorderQueueLength, drain, flush, finish);
    if queue != [] && KeepPopping(|queue|, reorderQueueLength, drain, flush) {
      var step := Dispatch(queue[0], flush, finish);
      if step.1 == FlowOk {
        DrainHandlesHeadInOrder(queue[1..], reorderQueueLength, drain, flush, finish);
        var r := Drain(queue, reorderQueueLength, drain, flush, finish);
        var rest := Drain(queue[1..], reorderQueueLength, drain, flush, finish);
        assert r.actions == [step.0] + rest.actions;
        forall i | 1 <= i < |r.actions|
          ensures r.actions[i] == Dispatch(queue[i], flush, finish).0
          ensures i < |r.actions| - 1 ==> Dispatch(queue[i], flush, finish).1 == FlowOk
        {
          assert r.actions[i] == rest.actions[i - 1];
          assert queue[1..][i - 1] == queue[i];
        }
      }
    }
  }

  /** The flow return is the outcome of the last frame handled, or OK when
      none was popped. */
  lemma {:induction false} DrainReturnsLastOutcome(queue: seq<Frame>, reorderQueueLength: int,
                                                   drain: bool, flush: bool, finish: Frame -> FlowReturn)
    ensures var r := Drain(queue, reorderQueueLength, drain, flush, finish);
            |r.actions| <= |queue| &&
            r.ret == if r.actions == [] then FlowOk else Dispatch(queue[|r.actions| - 1], flush, finish).1
    decreases |queue|
  {
    DrainPopsFromHead(queue, reorderQueueLength, drain, flush, finish);
    if queue != [] && KeepPopping(|queue|, reorderQueueLength, drain, flush) {
      var step := Dispatch(queue[0], flush, finish);
      if step.1 == FlowOk {
        DrainReturnsLastOutcome(queue[1..], reorderQueueLength, drain, flush, finish);
        var rest := Drain(queue[1..], reorderQueueLength, drain, flush, finish);
        if rest.actions != [] {
          assert queue[1..][|rest.actions| - 1] == queue[|rest.actions|];
        }
      }
    }
  }

  /** A frame flagged ERROR ends the loop with GST_FLOW_ERROR, and a flush
      never pushes a frame downstream. */
  lemma ErrorFrameStopsDrain(queue: seq<Frame>, reorderQueueLength: int,
                             drain: bool, flush: bool, finish: Frame -> FlowReturn, i: nat)
    requires i < |queue| && i < |Drain(queue, reorderQueueLength, drain, flush, finish).actions|
    requires HasFlag(queue[i], FlagError)
    ensures var r := Drain(queue, reorderQueueLength, drain, flush, finish);
            i == |r.actions| - 1 && r.ret == FlowError && r.actions[i] == Release(queue[i])
  {
    DrainHandlesHeadInOrder(queue, reorderQueueLength, drain, flush, finish);
    DrainReturnsLastOutcome(queue, reorderQueueLength, drain, flush, finish);
  }

  /** A flush only releases frames, and ends OK or with an error frame. */
  lemma FlushOnlyReleases(queue: seq<Frame>, reorderQueueLength: int, drain: bool,
                          finish: Frame -> FlowReturn)
    ensures var r := Drain(queue, reorderQueueLength, drain, true, finish);
            |r.actions| <= |queue| &&
            (forall i :: 0 <= i < |r.actions| ==> r.actions[i] == Release(queue[i])) &&
            (r.ret == FlowOk || r.ret == FlowError)
  {
    DrainHandlesHeadInOrder(queue, reorderQueueLength, drain, true, finish);
    DrainReturnsLastOutcome(queue, reorderQueueLength, drain, true, finish);
  }

  // ---------------------------------------------------------------------
  // The decoder object

  /** The codec types the dispatch tells apart. */
  datatype CodecType = H264 | Hevc | OtherCodec(fourcc: nat)

  /** The state of a `GstVtdec` these steps read and write: the video
      info's size and frame rate, the reorder queue and its length. */
  class VtdecState {
    var width: nat
    var height: nat
    var fpsN: nat
    var fpsD: nat
    var reorderQueue: seq<Frame>
    var reorderQueueLength: int
    /** The latency last handed to `gst_video_decoder_set_latency` (as both
        minimum and maximum); `None` while it was never set. */
    var latency: Option<nat>

    /** The reorder depth stays within what the two computations write. */
    ghost predicate Valid()
      reads this
    {
      0 <= reorderQueueLength <= MaxDpbFrames
    }

    /** A fresh element: GObject zero-fills the instance, so the queue is
        empty and its length 0. */
    constructor(width: nat, height: nat, fpsN: nat, fpsD: nat)
      ensures this.width == width && this.height == height
      ensures this.fpsN == fpsN && this.fpsD == fpsD
      ensures reorderQueue == [] && reorderQueueLength == 0 && latency == None
      ensures Valid()
    {
      this.width := width;
      this.height := height;
      this.fpsN := fpsN;
      this.fpsD := fpsD;
      reorderQueue := [];
      reorderQueueLength := 0;
      latency := None;
    }

    /** `gst_vtdec_compute_reorder_queue_length`: H.264 always writes the
        length (0 on failure), HEVC writes it only on success, any other
        codec gets 0 and success. */
    method ComputeReorderQueueLength(codec: CodecType, codecData: seq<Byte>) returns (ok: bool)
      requires Valid()
      requires codec == Hevc ==> width * height <= MaxGint
      modifies this
      ensures width == old(width) && height == old(height)
      ensures fpsN == old(fpsN) && fpsD == old(fpsD) && reorderQueue == old(reorderQueue)
      ensures latency == old(latency)
      ensures Valid()
      ensures codec == H264 ==>
        (ok, reorderQueueLength) == H264DecodePictureBufferLength(codecData, width, height)
      ensures codec == Hevc ==>
        ok == HevcDecodePictureBufferLength(width, height).Some? &&
        reorderQueueLength ==
          (if ok then HevcDecodePictureBufferLength(width, height).value else old(reorderQueueLength))
      ensures codec.OtherCodec? ==> ok && reorderQueueLength == 0
    {
      match codec {
        case H264 =>
          var r := H264DecodePictureBufferLength(codecData, width, height);
          reorderQueueLength := r.1;
          ok := r.0;
        case Hevc =>
          var r := HevcDecodePictureBufferLength(width, height);
          if r.Some? {
            reorderQueueLength := r.value;
          }
          ok := r.Some?;
        case OtherCodec(_) =>
          reorderQueueLength := 0;
          ok := true;
      }
    }

    /** `gst_vtdec_set_latency`: with a known frame rate the decoder's
        latency becomes the reorder queue's length in frame durations;
        without one nothing is set. */
    method SetLatency()
      requires Valid()
      modifies this
      ensures width == old(width) && height == old(height) && fpsN == old(fpsN) && fpsD == old(fpsD)
      ensures reorderQueue == old(reorderQueue) && reorderQueueLength == old(reorderQueueLength)
      ensures Valid()
      ensures fpsN == 0 ==> latency == old(latency)
      ensures fpsN != 0 ==> latency == Latency(fpsN, fpsD, reorderQueueLength)
    {
      if fpsN == 0 {
        return;
      }
      var frameDuration := FrameDuration(fpsN, fpsD);
      latency := Some((frameDuration * reorderQueueLength) % Two64);
    }

    /** The pop/dispatch loop of `gst_vtdec_push_frames_if_needed`: the
        queue loses the frames the loop handles, and the flow return and
        the handling are those of `Drain`. */
    method PushFramesIfNeeded(drain: bool, flush: bool, finish: Frame -> FlowReturn)
      returns (ret: FlowReturn, actions: seq<Action>)
      modifies this
      ensures DrainResult(ret, actions, reorderQueue)
           == Drain(old(reorderQueue), reorderQueueLength, drain, flush, finish)
      ensures width == old(width) && height == old(height) && fpsN == old(fpsN) && fpsD == old(fpsD)
      ensures reorderQueueLength == old(reorderQueueLength) && latency == old(latency)
    {
      ret := FlowOk;
      actions := [];
      ghost var goal := Drain(reorderQueue, reorderQueueLength, drain, flush, finish);
      while KeepPopping(|reorderQueue|, reorderQueueLength, drain, flush)
        invariant ret == FlowOk
        invariant goal == Resume(actions, Drain(reorderQueue, reorderQueueLength, drain, flush, finish))
        invariant width == old(width) && height == old(height) && fpsN == old(fpsN) && fpsD == old(fpsD)
        invariant reorderQueueLength == old(reorderQueueLength) && latency == old(latency)
        decreases |reorderQueue|
      {
        ghost var queue := reorderQueue;
        ghost var done := actions;
        // g_async_queue_try_pop
        var frame: Option<Frame> := None;
        if reorderQueue != [] {
          frame := Some(reorderQueue[0]);
          reorderQueue := reorderQueue[1..];
        }
        if frame.Some? {
          var f := frame.value;
          if HasFlag(f, FlagError) {
            actions := actions + [Release(f)];
            ret := FlowError;
          } else if flush || HasFlag(f, FlagSkip) {
            actions := actions + [Release(f)];
          } else if HasFlag(f, FlagDrop) {
            actions := actions + [Drop(f)];
          } else {
            ret := finish(f);
            actions := actions + [Finish(f)];
          }
          assert (actions, ret) == (done + [Dispatch(f, flush, finish).0], Dispatch(f, flush, finish).1);
          if ret == FlowOk {
            DrainPopContinues(queue, reorderQueueLength, drain, flush, finish, done);
          } else {
            DrainPopStops(queue, reorderQueueLength, drain, flush, finish, done);
          }
        }
        if frame.None? || ret != FlowOk {
          break;
        }
      }
    }
  }
}
