/** The in-place rewrite of an H.265 byte stream into the length-prefixed
    sample layout of ISO/IEC 14496-15 with four-byte NAL unit length fields
    (`_h265_convert_byte_stream_to_hvc`). */
module H265HvcConvert {
  import opened GstTypes
  import opened H265NalScan

  /** How a conversion ends.  `Converted` is the source's TRUE, `MapFailed`
      and `ZeroSizeUnit` its two FALSE returns, and `StartCodeAssertion` the
      abort of `g_assert (nal_body - nal_start_code == 4)`. */
  datatype ConvertResult = Converted | MapFailed | ZeroSizeUnit | StartCodeAssertion

  /** The four-byte start code, the only form the rewrite can replace. */
  const StartCode4: seq<Byte> := [0, 0, 0, 1]

  // ---------------------------------------------------------------------
  // Specification of the rewrite

  /** The rewrite loop run on the bytes `x` that lie at and after its
      cursor: the outcome and what those bytes become.  The scanner only
      ever reads bytes after the cursor, which earlier steps leave as they
      were, so this one function describes every remaining iteration; on a
      failure the units before the failing one stay rewritten and the rest
      is left alone. */
  function ReframeRest(x: seq<Byte>): (r: (ConvertResult, seq<Byte>))
    requires |x| < Two32
    ensures |r.1| == |x|
    ensures r.0 != MapFailed
    decreases |x|
  {
    if x == [] then (Converted, x)
    else
      match Scan(x)
      case None => (Converted, x)
      case Some(u) =>
        if u.size == 0 then (ZeroSizeUnit, x)
        else if u.start != 4 then (StartCodeAssertion, x)
        else
          var rest := ReframeRest(x[4 + u.size..]);
          (rest.0, BigEndian32(u.size) + x[4..4 + u.size] + rest.1)
  }

  /** The whole conversion of a mapped buffer: the loop started at the
      buffer's first byte. */
  function Reframe(s: seq<Byte>): (r: (ConvertResult, seq<Byte>))
    requires |s| < Two32
  {
    ReframeRest(s)
  }

  // ---------------------------------------------------------------------
  // The two layouts

  /** An Annex B stream: each payload after a four-byte start code. */
  function ToAnnexB(ps: seq<seq<Byte>>): (s: seq<Byte>)
  {
    if ps == [] then [] else StartCode4 + ps[0] + ToAnnexB(ps[1..])
  }

  /** Every payload fits a `guint32` length field. */
  predicate LengthsFit(ps: seq<seq<Byte>>)
  {
    forall i :: 0 <= i < |ps| ==> |ps[i]| < Two32
  }

  /** A length-prefixed stream: each payload after its big-endian length. */
  function ToLengthPrefixed(ps: seq<seq<Byte>>): (t: seq<Byte>)
    requires LengthsFit(ps)
  {
    if ps == [] then [] else BigEndian32(|ps[0]|) + ps[0] + ToLengthPrefixed(ps[1..])
  }

  /** Splits a length-prefixed stream back into its payloads; `None` when a
      length field runs past the end. */
  function ParseLengthPrefixed(t: seq<Byte>): (r: Option<seq<seq<Byte>>>)
    decreases |t|
  {
    if t == [] then Some([])
    else if |t| < 4 then None
    else
      var n := ReadBigEndian32(t[..4]);
      if |t| < 4 + n then None
      else match ParseLengthPrefixed(t[4 + n..])
        case None => None
        case Some(rest) => Some([t[4..4 + n]] + rest)
  }

  /** The length-prefixed layout decodes to the payloads it was built from. */
  lemma {:induction false} ParseToLengthPrefixed(ps: seq<seq<Byte>>)
    requires LengthsFit(ps)
    ensures ParseLengthPrefixed(ToLengthPrefixed(ps)) == Some(ps)
  {
    if ps != [] {
      var t := ToLengthPrefixed(ps);
      var n := |ps[0]|;
      assert t[..4] == BigEndian32(n);
      assert t[4..4 + n] == ps[0];
      assert t[4 + n..] == ToLengthPrefixed(ps[1..]);
      ParseToLengthPrefixed(ps[1..]);
      assert [ps[0]] + ps[1..] == ps;
    }
  }

  /** A payload the scanner delimits exactly: not empty and with no
      start-code prefix 00 00 01 inside it. */
  predicate WellFormedPayload(p: seq<Byte>)
  {
    && |p| > 0
    && forall i :: 0 <= i && i + 3 <= |p| ==> !(p[i] == 0 && p[i + 1] == 0 && p[i + 2] == 1)
  }

  // ---------------------------------------------------------------------
  // The rewrite is correct

  /** The three parts of a concatenation, read back by slicing. */
  lemma SliceParts(a: seq<Byte>, b: seq<Byte>, c: seq<Byte>)
    ensures var x := a + b + c;
      && x[..|a|] == a && x[|a|..|a| + |b|] == b && x[|a| + |b|..] == c
  {
  }

  /** A sequence is its three consecutive slices. */
  lemma ThreeSlices(x: seq<Byte>, i: nat, j: nat)
    requires i <= j <= |x|
    ensures x == x[..i] + x[i..j] + x[j..]
  {
  }

  /** A well-formed payload after a four-byte start code, followed by the
      end of the slice or by another four-byte start code and payload, scans
      to exactly that payload. */
  lemma ScanOneUnit(p: seq<Byte>, tail: seq<Byte>)
    requires WellFormedPayload(p)
    requires tail == [] || (|tail| >= 5 && tail[..4] == StartCode4)
    ensures var s := StartCode4 + p + tail; Scan(s) == Some(NalUnit(4, |p|))
  {
    var s := StartCode4 + p + tail;
    assert s[..4] == StartCode4;
    assert LeadingStartCodeLength(s) == 4;
    forall k | 4 < k <= |s| && 7 <= k && k < 8 + |p|
      ensures !EndsStartCode(s, k)
    {
      if k <= 4 + |p| {
        assert s[k - 3] == p[k - 7] && s[k - 2] == p[k - 6] && s[k - 1] == p[k - 5];
      } else if tail != [] {
        assert s[4 + |p|] == 0 && s[5 + |p|] == 0 && s[6 + |p|] == 0;
      }
    }
    if tail == [] {
      assert FindStartCode(s, 4, 4) == None;
    } else {
      var k := 8 + |p|;
      assert s[k - 4..k] == StartCode4;
      FindStartCodeFirst(s, 4, 4, k);
      assert StartCodeBegin(s, 4, k) == k - 4;
    }
  }

  /** A well-formed Annex B stream with four-byte start codes converts, and
      the result is the length-prefixed layout of the same payloads. */
  lemma {:induction false} ReframeAnnexB(ps: seq<seq<Byte>>)
    requires forall i :: 0 <= i < |ps| ==> WellFormedPayload(ps[i])
    requires |ToAnnexB(ps)| < Two32
    ensures LengthsFit(ps)
    ensures Reframe(ToAnnexB(ps)) == (Converted, ToLengthPrefixed(ps))
    decreases |ps|
  {
    if ps != [] {
      var p := ps[0];
      var tail := ToAnnexB(ps[1..]);
      assert WellFormedPayload(p);
      assert tail == [] || (|tail| >= 5 && tail[..4] == StartCode4) by {
        if ps[1..] != [] {
          assert WellFormedPayload(ps[1..][0]);
          SliceParts(StartCode4, ps[1..][0], ToAnnexB(ps[1..][1..]));
        }
      }
      ScanOneUnit(p, tail);
      SliceParts(StartCode4, p, tail);
      assert forall i :: 0 <= i < |ps[1..]| ==> WellFormedPayload(ps[1..][i]) by {
        forall i | 0 <= i < |ps[1..]| ensures WellFormedPayload(ps[1..][i]) {
          assert ps[1..][i] == ps[i + 1];
        }
      }
      ReframeAnnexB(ps[1..]);
      assert LengthsFit(ps) by {
        assert forall i :: 1 <= i < |ps| ==> ps[i] == ps[1..][i - 1];
      }
    }
  }

  /** One length-prefixed record in front of a decodable stream. */
  lemma ParseRecord(p: seq<Byte>, o: seq<Byte>)
    requires |p| < Two32 && ParseLengthPrefixed(o).Some?
    ensures ParseLengthPrefixed(BigEndian32(|p|) + p + o) == Some([p] + ParseLengthPrefixed(o).value)
  {
    SliceParts(BigEndian32(|p|), p, o);
  }

  /** A slice that opens with a four-byte start code begins with 00 00 00 01. */
  lemma LeadingFour(x: seq<Byte>)
    requires |x| >= 4 && LeadingStartCodeLength(x) == 4
    ensures x[..4] == StartCode4
  {
  }

  /** A successful rewrite of bytes that hold at least one unit yields
      length-prefixed records, and putting four-byte start codes back in
      front of those payloads gives the original bytes. */
  lemma {:induction false} ReframeRestDecodes(x: seq<Byte>)
    requires |x| < Two32
    requires ReframeRest(x).0 == Converted
    requires x == [] || Scan(x).Some?
    ensures ParseLengthPrefixed(ReframeRest(x).1).Some?
    ensures ToAnnexB(ParseLengthPrefixed(ReframeRest(x).1).value) == x
    decreases |x|
  {
    if x != [] {
      var n := Scan(x).value.size;
      var p := x[4..4 + n];
      var tail := x[4 + n..];
      ScanStart(x);
      LeadingFour(x);
      ThreeSlices(x, 4, 4 + n);
      if tail != [] {
        ScanFollowedByStartCode(x);
        ScanNoUnit(tail);
      }
      ReframeRestDecodes(tail);
      ParseRecord(p, ReframeRest(tail).1);
      var rest := ParseLengthPrefixed(ReframeRest(tail).1).value;
      assert ([p] + rest)[1..] == rest;
    }
  }

  /** Nothing is lost: a buffer that converts is either one bare start code
      (left as it is) or an Annex B stream with four-byte start codes whose
      payloads the output carries as length-prefixed records. */
  lemma ReframeDecodes(s: seq<Byte>)
    requires |s| < Two32
    requires Reframe(s).0 == Converted
    ensures |s| > 0 && Scan(s).None? ==> Reframe(s).1 == s
    ensures s == [] || Scan(s).Some? ==>
      && ParseLengthPrefixed(Reframe(s).1).Some?
      && ToAnnexB(ParseLengthPrefixed(Reframe(s).1).value) == s
  {
    if s == [] || Scan(s).Some? {
      ReframeRestDecodes(s);
    }
  }

  // ---------------------------------------------------------------------
  // Edge cases the source keeps

  /** A buffer that is only a start code converts and is left unchanged. */
  lemma StartCodeOnlyIsConverted(s: seq<Byte>)
    requires s == [0, 0, 0, 1] || s == [0, 0, 1]
    ensures Reframe(s) == (Converted, s)
  {
    ScanNoUnit(s);
  }

  /** Two start codes with nothing between them, and something after them,
      are a zero-size unit.  (With nothing after them the second start code
      ends the buffer and is absorbed as a four-byte payload.) */
  lemma ZeroSizeUnitFails(tail: seq<Byte>)
    requires 0 < |tail| < Two32 - 8
    ensures Reframe(StartCode4 + StartCode4 + tail).0 == ZeroSizeUnit
  {
    var s := StartCode4 + StartCode4 + tail;
    SliceParts(StartCode4, StartCode4, tail);
    assert LeadingStartCodeLength(s) == 4;
    assert !EndsStartCode(s, 7);
    FindStartCodeFirst(s, 4, 4, 8);
    assert StartCodeBegin(s, 4, 8) == 4;
    assert Scan(s) == Some(NalUnit(4, 0));
  }

  /** A stream that opens with a three-byte start code and a non-empty unit
      trips the assertion. */
  lemma ThreeByteStartCodeAborts(b: Byte, tail: seq<Byte>)
    requires b != 0 && |tail| < Two32 - 4
    ensures Reframe([0, 0, 1, b] + tail).0 == StartCodeAssertion
  {
    var s := [0, 0, 1, b] + tail;
    assert s[..3] == [0, 0, 1];
    ScanStart(s);
    assert s[3] == b;
    match FindStartCode(s, 3, 3)
    case Some(k) =>
      if k < |s| {
        assert k != 6;
        assert StartCodeBegin(s, 3, k) > 3;
      }
    case None =>
  }

  /** The size test comes before the assertion: an empty unit behind a
      three-byte start code fails cleanly instead of aborting. */
  lemma EmptyThreeByteUnitFails(tail: seq<Byte>)
    requires 0 < |tail| < Two32 - 6
    ensures Reframe([0, 0, 1, 0, 0, 1] + tail).0 == ZeroSizeUnit
  {
    var s := [0, 0, 1, 0, 0, 1] + tail;
    assert s[..3] == [0, 0, 1] && s[3] == 0 && s[4] == 0 && s[5] == 1;
    assert LeadingStartCodeLength(s) == 3;
    assert FindStartCode(s, 3, 5) == Some(6);
    assert FindStartCode(s, 3, 3) == FindStartCode(s, 3, 4) == FindStartCode(s, 3, 5);
    assert StartCodeBegin(s, 3, 6) == 3;
    assert Scan(s) == Some(NalUnit(3, 0));
  }

  /** A stream that does not open with a start code, including one of only
      one or two bytes, trips the assertion too: the unit then starts at
      offset 0, not 4. */
  lemma NoStartCodeAborts(s: seq<Byte>)
    requires 0 < |s| < Two32
    requires |s| < 3 || LeadingStartCodeLength(s) == 0
    ensures Reframe(s).0 == StartCodeAssertion
  {
    ScanStart(s);
    if |s| >= 3 {
      ScanNoUnit(s);
      match FindStartCode(s, 0, 0)
      case Some(k) =>
        if k < |s| {
          assert k != 3;
          assert StartCodeBegin(s, 0, k) > 0;
        }
      case None =>
    }
  }

  /** One unrolling of the conversion at a unit behind a 4-byte start code. */
  lemma ReframeUnit(x: seq<Byte>, n: nat)
    requires 0 < |x| < Two32 && Scan(x) == Some(NalUnit(4, n)) && n > 0
    ensures ReframeRest(x) == (ReframeRest(x[4 + n..]).0, BigEndian32(n) + x[4..4 + n] + ReframeRest(x[4 + n..]).1)
  {
  }

  /** A start code ending the slice after a well-formed payload is scanned
      as part of that payload. */
  lemma ScanTrailingStartCode(p: seq<Byte>)
    requires WellFormedPayload(p)
    ensures Scan(StartCode4 + p + StartCode4) == Some(NalUnit(4, |p| + 4))
  {
    var s := StartCode4 + p + StartCode4;
    SliceParts(StartCode4, p, StartCode4);
    assert LeadingStartCodeLength(s) == 4;
    forall k | 4 < k < |s| && 7 <= k
      ensures !EndsStartCode(s, k)
    {
      if k <= 4 + |p| {
        assert s[k - 3] == p[k - 7] && s[k - 2] == p[k - 6] && s[k - 1] == p[k - 5];
      } else {
        assert s[k - 1] == 0;
      }
    }
    FindStartCodeFirst(s, 4, 4, |s|);
  }

  /** A start code whose last byte is the buffer's last byte is not taken
      as the start of another unit: it is absorbed into the payload before
      it, so `00 00 00 01 p 00 00 00 01` becomes a single record of
      `|p| + 4` bytes. */
  lemma TrailingStartCodeAbsorbed(p: seq<Byte>)
    requires WellFormedPayload(p) && |p| < Two32 - 8
    ensures Reframe(StartCode4 + p + StartCode4) == (Converted, BigEndian32(|p| + 4) + p + StartCode4)
  {
    var s := StartCode4 + p + StartCode4;
    SliceParts(StartCode4, p, StartCode4);
    assert s[4..|s|] == s[4..4 + |p|] + s[4 + |p|..];
    assert s[|s|..] == [];
    Associative(BigEndian32(|p| + 4), p, StartCode4);
    var e := ReframeRest(s[|s|..]);
    assert e == (Converted, []);
    ScanTrailingStartCode(p);
    ReframeUnit(s, |p| + 4);
    var body := s[4..|s|];
    assert body == p + StartCode4;
    assert BigEndian32(|p| + 4) + body + [] == BigEndian32(|p| + 4) + p + StartCode4;
    assert ReframeRest(s) == (Converted, BigEndian32(|p| + 4) + body + []);
  }

  /** Two 4-byte start codes and nothing else: the second ends the buffer,
      so it is the four-byte payload of a single unit rather than the start
      of an empty one. */
  lemma StartCodePairAbsorbed()
    ensures Reframe(StartCode4 + StartCode4) == (Converted, BigEndian32(4) + StartCode4)
  {
    var s := StartCode4 + StartCode4;
    assert s == [0, 0, 0, 1, 0, 0, 0, 1];
    assert LeadingStartCodeLength(s) == 4;
    assert !EndsStartCode(s, 7) && EndsStartCode(s, 8);
    assert FindStartCode(s, 4, 7) == Some(8);
    assert FindStartCode(s, 4, 5) == FindStartCode(s, 4, 6) == FindStartCode(s, 4, 7);
    assert Scan(s) == Some(NalUnit(4, 4));
    assert s[4..8] == StartCode4 && s[8..] == [];
    assert ReframeRest(s) == (Converted, BigEndian32(4) + StartCode4 + []);
    assert BigEndian32(4) + StartCode4 + [] == BigEndian32(4) + StartCode4;
  }

  // ---------------------------------------------------------------------
  // The rewrite as the element runs it

  /** Where the rewrite stops at the unit in front of the cursor, it leaves
      the bytes from the cursor on as they are. */
  lemma RestStops(x: seq<Byte>)
    requires 0 < |x| < Two32
    requires Scan(x).None? || Scan(x).value.size == 0 || Scan(x).value.start != 4
    ensures ReframeRest(x).1 == x
    ensures ReframeRest(x).0 ==
      if Scan(x).None? then Converted
      else if Scan(x).value.size == 0 then ZeroSizeUnit
      else StartCodeAssertion
  {
  }

  /** One step of the loop: after the start code of the unit in front of the
      cursor is replaced, the bytes before the new cursor and the rewrite of
      those after it make up the same result. */
  lemma RestAdvance(pre: seq<Byte>, x: seq<Byte>, n: nat, after: seq<Byte>, next: nat)
    requires 0 < |x| && |pre| + |x| < Two32
    requires Scan(x) == Some(NalUnit(4, n)) && n > 0
    requires after == pre + BigEndian32(n) + x[4..] && next == |pre| + 4 + n
    ensures |after| == |pre + x| && next <= |after|
    ensures Completion(after, next) == Completion(pre + x, |pre|)
  {
    var head := pre + BigEndian32(n);
    var mid := x[4..4 + n];
    var tail := x[4 + n..];
    DropSplit(x, 4, 4 + n);
    Associative(head, mid, tail);
    SplitAppend(head + mid, tail);
    SplitAppend(pre, x);
    var rest := ReframeRest(tail);
    assert ReframeRest(x) == (rest.0, BigEndian32(n) + mid + rest.1);
    Associative(pre, BigEndian32(n) + mid, rest.1);
    Associative(pre, BigEndian32(n), mid);
  }

  /** The two halves of a concatenation, read back by slicing. */
  lemma SplitAppend(a: seq<Byte>, b: seq<Byte>)
    ensures (a + b)[..|a|] == a && (a + b)[|a|..] == b
  {
  }

  /** A suffix is its first part followed by the rest. */
  lemma DropSplit(x: seq<Byte>, i: nat, j: nat)
    requires i <= j <= |x|
    ensures x[i..] == x[i..j] + x[j..]
  {
  }

  /** The outcome of the conversion seen from the loop with the cursor at
      `pos` in the buffer `s`: the bytes before `pos` are final, and the
      rewrite of those from `pos` on follows them.  The loop keeps
      `goal == Completion(buf[..], pos)` for the `goal` it started with. */
  function Completion(s: seq<Byte>, pos: nat): (ConvertResult, seq<Byte>)
    requires pos <= |s| < Two32
  {
    (ReframeRest(s[pos..]).0, s[..pos] + ReframeRest(s[pos..]).1)
  }

  /** The loop starts at offset 0 of the untouched buffer. */
  lemma ResumeStart(s: seq<Byte>)
    requires |s| < Two32
    ensures Reframe(s) == Completion(s, 0)
  {
    assert s[0..] == s && s[..0] + ReframeRest(s).1 == ReframeRest(s).1;
  }

  /** With the cursor at the end, the buffer is the converted result. */
  lemma ResumeEnd(goal: (ConvertResult, seq<Byte>), s: seq<Byte>)
    requires |s| < Two32 && goal == Completion(s, |s|)
    ensures goal == (Converted, s)
  {
    assert s[|s|..] == [] && s[..|s|] + [] == s;
  }

  /** Where the loop leaves early, the buffer as it stands is the result. */
  lemma ResumeStop(goal: (ConvertResult, seq<Byte>), s: seq<Byte>, pos: nat)
    requires pos < |s| < Two32 && goal == Completion(s, pos)
    requires var u := Scan(s[pos..]); u.None? || u.value.size == 0 || u.value.start != 4
    ensures var u := Scan(s[pos..]);
      goal == (if u.None? then Converted else if u.value.size == 0 then ZeroSizeUnit else StartCodeAssertion, s)
  {
    RestStops(s[pos..]);
    assert s[..pos] + s[pos..] == s;
  }

  /** One rewritten unit moves the cursor past it and keeps the state. */
  lemma ResumeAdvance(goal: (ConvertResult, seq<Byte>), s: seq<Byte>, pos: nat, n: nat, t: seq<Byte>, next: nat)
    requires pos < |s| < Two32 && goal == Completion(s, pos)
    requires Scan(s[pos..]) == Some(NalUnit(4, n)) && n > 0
    requires t == s[..pos] + BigEndian32(n) + s[pos + 4..] && next == pos + 4 + n
    ensures |t| == |s| && pos < next <= |t| && goal == Completion(t, next)
  {
    var x := s[pos..];
    assert s[pos + 4..] == x[4..];
    assert s[..pos] + x == s;
    RestAdvance(s[..pos], x, n, t, next);
  }

  /** The advancing branch of the loop body: the 4-byte start code of a
      unit of `size` bytes at `pos` is overwritten with the size. */
  method AdvanceUnit(buf: array<Byte>, pos: nat, size: nat, ghost goal: (ConvertResult, seq<Byte>))
    returns (next: nat)
    requires pos < buf.Length < Two32 && goal == Completion(buf[..], pos)
    requires Scan(buf[pos..]) == Some(NalUnit(4, size)) && size > 0
    modifies buf
    ensures next == pos + 4 + size
    ensures pos < next <= buf.Length && goal == Completion(buf[..], next)
  {
    ghost var s := buf[..];
    assert s[pos..] == buf[pos..];
    StartCodeToSize(buf, pos, size);
    next := pos + 4 + size;
    ResumeAdvance(goal, s, pos, size, buf[..], next);
  }

  /** One pass of the loop body: scan the unit at `pos`; stop on no unit, a
      zero size or a start code that is not 4 bytes long, otherwise
      overwrite the start code with the size and move past the payload. */
  method RewriteUnit(buf: array<Byte>, pos: nat, ghost goal: (ConvertResult, seq<Byte>))
    returns (stop: bool, r: ConvertResult, next: nat)
    requires pos < buf.Length < Two32 && goal == Completion(buf[..], pos)
    modifies buf
    ensures stop ==> goal == (r, buf[..])
    ensures !stop ==> pos < next <= buf.Length && goal == Completion(buf[..], next)
  {
    ghost var s := buf[..];
    var found, start, size := NextNal(buf, pos, buf.Length - pos);
    assert buf[..] == s;
    assert buf[pos..pos + (buf.Length - pos)] == s[pos..];
    if !found || size == 0 || start != 4 {
      ResumeStop(goal, s, pos);
      stop := true;
      next := pos;
      if !found {
        r := Converted;
      } else if size == 0 {
        r := ZeroSizeUnit;
      } else {
        r := StartCodeAssertion;
      }
      return;
    }
    next := AdvanceUnit(buf, pos, size, goal);
    stop, r := false, Converted;
  }

  /** `_h265_convert_byte_stream_to_hvc`: `mapOk` is whether
      `gst_buffer_map` succeeded.  The buffer is rewritten in place; on a
      zero-size unit the units before it stay rewritten. */
  method ConvertByteStreamToHvc(buf: array<Byte>, mapOk: bool) returns (r: ConvertResult)
    requires buf.Length < Two32
    modifies buf
    ensures !mapOk ==> r == MapFailed && buf[..] == old(buf[..])
    ensures mapOk ==> (r, buf[..]) == Reframe(old(buf[..]))
  {
    if !mapOk {
      return MapFailed;
    }
    ghost var goal := Reframe(buf[..]);
    ResumeStart(buf[..]);
    var pos := 0;
    while pos < buf.Length
      invariant pos <= buf.Length
      invariant goal == Completion(buf[..], pos)
      decreases buf.Length - pos
    {
      var stop, result, next := RewriteUnit(buf, pos, goal);
      if stop {
        return result;
      }
      pos := next;
    }
    ResumeEnd(goal, buf[..]);
    r := Converted;
  }
}
