/** How the VideoToolbox decoder sizes its reorder queue and its latency:
    the avcC header fields it reads, the MaxDpbMbs table of ITU-T H.264
    Table A-1, the H.264 and H.265 decoded picture buffer depths and the
    latency those depths add. */
module VtdecReorderDepth {
  import opened GstTypes

  // ---------------------------------------------------------------------
  // The AVCDecoderConfigurationRecord header

  /** What `parse_h264_profile_and_level_from_codec_data` reports: the
      profile and level bytes, or which of its two checks failed. */
  datatype AvcCHeader =
    | ProfileAndLevel(profile: Byte, level: Byte)
    | AvcCTooSmall
    | WrongAvcCVersion

  /** The first bytes of an AVCDecoderConfigurationRecord (section 5.3.3.1
      of ISO/IEC 14496-15): configurationVersion 1, AVCProfileIndication,
      profile_compatibility and AVCLevelIndication, then the rest. */
  function AvcCRecord(profile: Byte, compat: Byte, level: Byte, rest: seq<Byte>): seq<Byte>
  {
    [1, profile, compat, level] + rest
  }

  /** The header check: at least 7 bytes, version byte 1; the profile is
      byte 1 and the level byte 3. */
  function ParseH264ProfileAndLevel(data: seq<Byte>): (r: AvcCHeader)
    ensures r.ProfileAndLevel? <==> |data| >= 7 && data[0] == 1
    ensures r == AvcCTooSmall <==> |data| < 7
  {
    if |data| < 7 then AvcCTooSmall
    else if data[0] != 1 then WrongAvcCVersion
    else ProfileAndLevel(data[1], data[3])
  }

  /** Encoding a record and parsing it back gives its profile and level,
      whenever the record is as long as the check demands. */
  lemma ParseAvcCRecord(profile: Byte, compat: Byte, level: Byte, rest: seq<Byte>)
    requires |rest| >= 3
    ensures ParseH264ProfileAndLevel(AvcCRecord(profile, compat, level, rest))
         == ProfileAndLevel(profile, level)
  {
    var data := AvcCRecord(profile, compat, level, rest);
    assert data[0] == 1 && data[1] == profile && data[3] == level;
  }

  /** Conversely every accepted buffer is such a record of what was parsed. */
  lemma ParsedIsAvcCRecord(data: seq<Byte>)
    requires ParseH264ProfileAndLevel(data).ProfileAndLevel?
    ensures var h := ParseH264ProfileAndLevel(data);
            |data| >= 7 && data == AvcCRecord(h.profile, data[2], h.level, data[4..])
  {
    var h := ParseH264ProfileAndLevel(data);
    assert data == data[..4] + data[4..];
    assert data[..4] == [1, h.profile, data[2], h.level];
  }

  // ---------------------------------------------------------------------
  // MaxDpbMbs

  /** The level codes `get_dpb_max_mb_s_from_level` knows. */
  const KnownLevels: set<int> := {10, 11, 12, 13, 20, 21, 22, 30, 31, 32, 40, 41, 42, 50, 51, 52}

  /** MaxDpbMbs per level_idc (ITU-T H.264 Table A-1); -1 for any other
      code. */
  function DpbMaxMbsFromLevel(level: int): (r: int)
    ensures r == -1 <==> level !in KnownLevels
    ensures r != -1 ==> 396 <= r <= 184320
  {
    match level
    case 10 => 396
    case 11 => 900
    case 12 => 2376
    case 13 => 2376
    case 20 => 2376
    case 21 => 4752
    case 22 => 8100
    case 30 => 8100
    case 31 => 18000
    case 32 => 20480
    case 40 => 32768
    case 41 => 32768
    case 42 => 34816
    case 50 => 110400
    case 51 => 184320
    case 52 => 184320
    case _ => -1
  }

  /** A higher level never allows a smaller decoded picture buffer. */
  lemma DpbMaxMbsMonotone(a: int, b: int)
    requires a in KnownLevels && b in KnownLevels && a <= b
    ensures DpbMaxMbsFromLevel(a) <= DpbMaxMbsFromLevel(b)
  {
  }

  // ---------------------------------------------------------------------
  // The H.264 reorder depth

  /** The cap `max_dpb_size_frames`. */
  const MaxDpbFrames: nat := 16

  /** `GST_ROUND_UP_16 (n) / 16`: the number of 16-sample macroblocks. */
  function MacroblocksFor(n: nat): (m: nat)
    ensures n <= 16 * m < n + 16
    ensures n > 0 ==> m > 0
  {
    (n + 15) / 16
  }

  /** What `compute_h264_decode_picture_buffer_length` returns and leaves in
      its out-parameter, given the codec data and the picture size. */
  function H264DecodePictureBufferLength(codecData: seq<Byte>, width: nat, height: nat): (r: (bool, nat))
    ensures r.1 <= MaxDpbFrames
    ensures !r.0 ==> r.1 == 0
    ensures r.0 <==>
      ParseH264ProfileAndLevel(codecData).ProfileAndLevel? && width != 0 && height != 0 &&
      (ParseH264ProfileAndLevel(codecData).profile == 66 ||
       ParseH264ProfileAndLevel(codecData).level in KnownLevels)
  {
    match ParseH264ProfileAndLevel(codecData)
    case AvcCTooSmall => (false, 0)
    case WrongAvcCVersion => (false, 0)
    case ProfileAndLevel(profile, level) =>
      if width == 0 || height == 0 then (false, 0)
      else if profile == 66 then (true, 0)
      else
        var maxDpbMbs := DpbMaxMbsFromLevel(level);
        if maxDpbMbs == -1 then (false, 0)
        else (true, FramesInDpb(maxDpbMbs, width, height))
  }

  /** `MIN (max_dpb_mb_s / (width_in_mb_s * height_in_mb_s), 16)`. */
  function FramesInDpb(maxDpbMbs: nat, width: nat, height: nat): (len: nat)
    requires width > 0 && height > 0
    ensures len <= MaxDpbFrames
  {
    var widthInMbs := MacroblocksFor(width);
    var heightInMbs := MacroblocksFor(height);
    PositiveProduct(widthInMbs, heightInMbs);
    var frames := maxDpbMbs / (widthInMbs * heightInMbs);
    if frames < MaxDpbFrames then frames else MaxDpbFrames
  }

  /** Outside the baseline profile, a successful depth is the largest number
      of pictures of this size, at most 16, whose macroblocks fit into
      MaxDpbMbs (sections A.3.1 item h and A.3.2 item f of ITU-T H.264). */
  lemma H264LengthFitsDpb(codecData: seq<Byte>, width: nat, height: nat)
    requires H264DecodePictureBufferLength(codecData, width, height).0
    requires ParseH264ProfileAndLevel(codecData).profile != 66
    ensures var len := H264DecodePictureBufferLength(codecData, width, height).1;
            var maxDpbMbs := DpbMaxMbsFromLevel(ParseH264ProfileAndLevel(codecData).level);
            var mbs := MacroblocksFor(width) * MacroblocksFor(height);
            mbs > 0 && len * mbs <= maxDpbMbs &&
            (len == MaxDpbFrames || maxDpbMbs < (len + 1) * mbs)
  {
    var maxDpbMbs := DpbMaxMbsFromLevel(ParseH264ProfileAndLevel(codecData).level);
    var mbs := MacroblocksFor(width) * MacroblocksFor(height);
    PositiveProduct(MacroblocksFor(width), MacroblocksFor(height));
    CappedQuotient(maxDpbMbs, mbs, MaxDpbFrames);
  }

  /** `a * b` is positive when both factors are. */
  lemma PositiveProduct(a: nat, b: nat)
    requires a > 0 && b > 0
    ensures a * b > 0
  {
  }

  /** `min (m / d, cap)` is the largest count up to `cap` of `d`s within `m`. */
  lemma CappedQuotient(m: nat, d: nat, cap: nat)
    requires d > 0
    ensures var len := if m / d < cap then m / d else cap;
            len * d <= m && (len == cap || m < (len + 1) * d)
  {
    var q := m / d;
    assert q * d <= m < (q + 1) * d;
    if cap < q {
      MultiplyMonotone(cap, q, d);
    }
  }

  /** Multiplication by `d` keeps the order. */
  lemma MultiplyMonotone(a: nat, b: nat, d: nat)
    requires a <= b
    ensures a * d <= b * d
  {
  }

  /** Baseline streams have no B-frames, so nothing is reordered. */
  lemma H264BaselineNeedsNoReorder(codecData: seq<Byte>, width: nat, height: nat)
    requires ParseH264ProfileAndLevel(codecData).ProfileAndLevel?
    requires ParseH264ProfileAndLevel(codecData).profile == 66
    requires width != 0 && height != 0
    ensures H264DecodePictureBufferLength(codecData, width, height) == (true, 0)
  {
  }

  // ---------------------------------------------------------------------
  // The H.265 reorder depth

  /** MaxLumaPs of the highest level (ITU-T H.265 Table A.8), used for
      every stream. */
  const MaxLumaPs: nat := 35651584

  /** maxDpbPicBuf of section A.4.2 of ITU-T H.265. */
  const MaxDpbPicBuf: nat := 6

  /** What `compute_hevc_decode_picture_buffer_length` writes: nothing when
      a dimension is 0, else maxDpbSize of section A.4.2 capped at 16. */
  function HevcDecodePictureBufferLength(width: nat, height: nat): (r: Option<nat>)
    requires width * height <= MaxGint
    ensures r.None? <==> width == 0 || height == 0
    ensures r.Some? ==> r.value in {16, 12, 8, 6}
  {
    if width == 0 || height == 0 then None
    else
      var picSizeInSamplesY := width * height;
      var maxDpbSize :=
        if picSizeInSamplesY <= MaxLumaPs / 4 then MaxDpbPicBuf * 4
        else if picSizeInSamplesY <= MaxLumaPs / 2 then MaxDpbPicBuf * 2
        else if picSizeInSamplesY <= (3 * MaxLumaPs) / 4 then (MaxDpbPicBuf * 4) / 3
        else MaxDpbPicBuf;
      Some(if maxDpbSize < 16 then maxDpbSize else 16)
  }

  /** A larger picture never gets a deeper buffer. */
  lemma HevcLengthNonIncreasing(w1: nat, h1: nat, w2: nat, h2: nat)
    requires 0 < w1 * h1 <= w2 * h2 <= MaxGint
    ensures HevcDecodePictureBufferLength(w2, h2).value <= HevcDecodePictureBufferLength(w1, h1).value
  {
    assert w1 != 0 && h1 != 0 && w2 != 0 && h2 != 0;
  }

  /** Up to MaxLumaPs, the pictures of the buffer never hold more luma
      samples than six pictures of the largest size. */
  lemma HevcLengthBoundsSamples(width: nat, height: nat)
    requires 0 < width * height <= MaxLumaPs
    ensures HevcDecodePictureBufferLength(width, height).value * (width * height) <= MaxDpbPicBuf * MaxLumaPs
  {
    var pic := width * height;
    assert width != 0 && height != 0;
    var len := HevcDecodePictureBufferLength(width, height).value;
    if pic <= MaxLumaPs / 4 {
      assert len == 16;
    } else if pic <= MaxLumaPs / 2 {
      assert len == 12;
    } else if pic <= (3 * MaxLumaPs) / 4 {
      assert len == 8;
    } else {
      assert len == 6;
    }
  }

  // ---------------------------------------------------------------------
  // Latency

  /** A second in nanoseconds (`GST_SECOND`). */
  const Second: nat := 1_000_000_000

  /** `GstClockTime` is a `guint64`. */
  const Two64: nat := 0x1_0000_0000_0000_0000

  /** `gst_util_uint64_scale (GST_SECOND, fps_d, fps_n)`, rounding down. */
  function FrameDuration(fpsN: nat, fpsD: nat): (d: nat)
    requires fpsN != 0
    ensures d * fpsN <= Second * fpsD < (d + 1) * fpsN
  {
    Second * fpsD / fpsN
  }

  /** The latency `gst_vtdec_set_latency` reports: none when the frame rate
      is unknown, else the frame duration times the queue length as a
      `guint64` product. */
  function Latency(fpsN: nat, fpsD: nat, reorderQueueLength: nat): (r: Option<nat>)
    ensures r.None? <==> fpsN == 0
    ensures r.Some? ==> r.value < Two64
  {
    if fpsN == 0 then None
    else Some((FrameDuration(fpsN, fpsD) * reorderQueueLength) % Two64)
  }

  /** At one frame per second or faster, the latency of a reorder queue of
      at most 16 frames is exactly that many frame durations, at most 16
      seconds. */
  lemma LatencyIsQueueOfFrames(fpsN: nat, fpsD: nat, reorderQueueLength: nat)
    requires 0 < fpsN && fpsD <= fpsN && reorderQueueLength <= MaxDpbFrames
    ensures Latency(fpsN, fpsD, reorderQueueLength)
         == Some(FrameDuration(fpsN, fpsD) * reorderQueueLength)
    ensures FrameDuration(fpsN, fpsD) * reorderQueueLength <= MaxDpbFrames * Second
  {
    var d := FrameDuration(fpsN, fpsD);
    MultiplyMonotone(fpsD, fpsN, Second);
    assert d <= Second by {
      if d > Second {
        MultiplyMonotone(Second + 1, d, fpsN);
      }
    }
    MultiplyMonotone(d, Second, reorderQueueLength);
    MultiplyMonotone(reorderQueueLength, MaxDpbFrames, Second);
  }
}
