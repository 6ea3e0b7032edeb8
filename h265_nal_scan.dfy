/** The Annex B scanner of the VA-API H.265 encoder element
    (`_h265_byte_stream_next_nal`) and the big-endian size store
    (`_start_code_to_size`).

    A slice of an H.265 byte stream (ITU-T H.265 Annex B, section B.2) is a
    sequence of NAL units, each preceded by a start code `00 00 01` or
    `00 00 00 01`.  The scanner reports where the payload of the first unit
    starts and how long it is. */
module H265NalScan {
  import opened GstTypes

  /** One unit reported by the scanner: its payload offset within the slice
      and its payload length (`nal_size`). */
  datatype NalUnit = NalUnit(start: nat, size: nat)

  // ---------------------------------------------------------------------
  // Specification of the scanner

  /** The three bytes just before index `k` are the start-code prefix 00 00 01. */
  predicate EndsStartCode(s: seq<Byte>, k: nat)
    requires 3 <= k <= |s|
  {
    s[k - 3] == 0 && s[k - 2] == 0 && s[k - 1] == 1
  }

  /** Length of the start code that opens a slice of at least three bytes:
      3 for 00 00 01, 4 for 00 00 00 01, and 0 when the slice opens with
      neither. */
  function LeadingStartCodeLength(s: seq<Byte>): nat
    requires |s| >= 3
  {
    if s[0] == 0 && s[1] == 0 then
      if s[2] == 1 then 3
      else if s[2] == 0 && |s| >= 4 && s[3] == 1 then 4
      else 0
    else 0
  }

  /** The first index `k` with `cur < k <= |s|` at which a start-code prefix
      ends, counting only prefixes that lie wholly at or after `start`. */
  function FindStartCode(s: seq<Byte>, start: nat, cur: nat): (r: Option<nat>)
    requires start <= cur <= |s|
    ensures r.Some? ==> cur < r.value <= |s| && start + 3 <= r.value && EndsStartCode(s, r.value)
    decreases |s| - cur
  {
    if cur == |s| then None
    else if start + 3 <= cur + 1 && EndsStartCode(s, cur + 1) then Some(cur + 1)
    else FindStartCode(s, start, cur + 1)
  }

  /** Where a start code whose prefix ends at `k` begins: a zero byte just
      before the prefix makes it the four-byte form, unless that byte lies
      before `start`. */
  function StartCodeBegin(s: seq<Byte>, start: nat, k: nat): nat
    requires start + 3 <= k <= |s|
  {
    if start + 4 <= k && s[k - 4] == 0 then k - 4 else k - 3
  }

  /** What `_h265_byte_stream_next_nal` reports for a non-empty slice:
      `None` when the slice holds nothing after its start code. */
  function Scan(s: seq<Byte>): (r: Option<NalUnit>)
    requires |s| > 0
    ensures r.Some? ==> r.value.start + r.value.size <= |s|
  {
    if |s| < 3 then Some(NalUnit(0, |s|))
    else
      var start := LeadingStartCodeLength(s);
      match FindStartCode(s, start, start)
      case Some(k) =>
        if k < |s| then Some(NalUnit(start, StartCodeBegin(s, start, k) - start))
        else Some(NalUnit(start, |s| - start))
      case None =>
        if start >= |s| then None else Some(NalUnit(start, |s| - start))
  }

  /** Start position: the whole of a slice shorter than three bytes is one
      unit at offset 0; otherwise the unit follows the leading start code. */
  lemma ScanStart(s: seq<Byte>)
    requires |s| > 0
    ensures |s| < 3 ==> Scan(s) == Some(NalUnit(0, |s|))
    ensures |s| >= 3 && Scan(s).Some? ==> Scan(s).value.start == LeadingStartCodeLength(s)
    ensures |s| >= 3 && s[..3] == [0, 0, 1] && |s| > 3 ==> Scan(s).Some? && Scan(s).value.start == 3
    ensures |s| >= 4 && s[..4] == [0, 0, 0, 1] && |s| > 4 ==> Scan(s).Some? && Scan(s).value.start == 4
  {
  }

  /** "No unit" happens exactly when the slice is nothing but a start code. */
  lemma ScanNoUnit(s: seq<Byte>)
    requires |s| > 0
    ensures Scan(s).None? <==> |s| >= 3 && LeadingStartCodeLength(s) == |s|
  {
  }

  /** The payload holds no start-code prefix that ends before the slice ends;
      a prefix ending exactly at the slice end is absorbed into the payload. */
  lemma ScanPayloadHasNoStartCode(s: seq<Byte>, k: nat)
    requires |s| > 0 && Scan(s).Some?
    requires Scan(s).value.start + 3 <= k < |s|
    requires k <= Scan(s).value.start + Scan(s).value.size + 2
    ensures !EndsStartCode(s, k)
  {
    var start := Scan(s).value.start;
    FindStartCodeIsFirst(s, start, start, k);
  }

  /** A unit that stops before the slice end is followed by a start code of
      which at least one more byte follows, so the rest of the slice again
      scans to a unit. */
  lemma ScanFollowedByStartCode(s: seq<Byte>)
    requires |s| > 0 && Scan(s).Some?
    requires Scan(s).value.start + Scan(s).value.size < |s|
    ensures var rest := s[Scan(s).value.start + Scan(s).value.size..];
      && |rest| >= 4
      && (LeadingStartCodeLength(rest) == 3 || LeadingStartCodeLength(rest) == 4)
      && LeadingStartCodeLength(rest) < |rest|
    ensures var u := Scan(s).value;
      u.size > 0 && LeadingStartCodeLength(s[u.start + u.size..]) == 3 ==> s[u.start + u.size - 1] != 0
  {
    var u := Scan(s).value;
    var k := FindStartCode(s, u.start, u.start).value;
    var rest := s[u.start + u.size..];
    assert u.start + u.size == StartCodeBegin(s, u.start, k);
    if u.start + u.size == k - 4 {
      assert rest[..4] == [0, 0, 0, 1];
    } else {
      assert rest[..3] == [0, 0, 1];
    }
  }

  /** No start-code prefix ends between `cur` and the one found, nor after
      `cur` at all when none is found. */
  lemma {:induction false} FindStartCodeIsFirst(s: seq<Byte>, start: nat, cur: nat, k: nat)
    requires start <= cur < k <= |s| && start + 3 <= k
    requires FindStartCode(s, start, cur).None? || k < FindStartCode(s, start, cur).value
    ensures !EndsStartCode(s, k)
    decreases |s| - cur
  {
    if k > cur + 1 {
      FindStartCodeIsFirst(s, start, cur + 1, k);
    }
  }

  /** The first prefix end found from `cur` is any prefix end after which no
      earlier one exists. */
  lemma {:induction false} FindStartCodeFirst(s: seq<Byte>, start: nat, cur: nat, k: nat)
    requires start <= cur < k <= |s| && start + 3 <= k && EndsStartCode(s, k)
    requires forall j :: cur < j < k && start + 3 <= j ==> !EndsStartCode(s, j)
    ensures FindStartCode(s, start, cur) == Some(k)
    decreases k - cur
  {
    if cur + 1 < k {
      FindStartCodeFirst(s, start, cur + 1, k);
    }
  }

  // ---------------------------------------------------------------------
  // The rolling register

  /** Four bytes packed most significant first into a `guint32`. */
  function Pack(b3: Byte, b2: Byte, b1: Byte, b0: Byte): nat
  {
    b3 as int * 0x100_0000 + b2 as int * 0x1_0000 + b1 as int * 0x100 + b0 as int
  }

  /** The byte `i` of the slice as seen by the register: bytes before `start`
      were never shifted in, so they read as the initial 0xFF. */
  function RegisterByte(s: seq<Byte>, start: nat, i: int): Byte
    requires i < |s|
  {
    if start <= i then s[i] else 0xFF
  }

  /** The register `flag` after the bytes `s[start..cur]` were shifted in
      one at a time, starting from 0xFFFFFFFF: `(flag << 8) | b` on a
      `guint32` is `(flag * 0x100 + b) % 0x1_0000_0000`. */
  function Window(s: seq<Byte>, start: nat, cur: nat): nat
    requires start <= cur <= |s|
    decreases cur - start
  {
    if cur == start then 0xFFFF_FFFF
    else (Window(s, start, cur - 1) * 0x100 + s[cur - 1]) % 0x1_0000_0000
  }

  /** Shifting a byte in drops the top byte and appends the new one. */
  lemma ShiftIn(b3: Byte, b2: Byte, b1: Byte, b0: Byte, x: Byte)
    ensures (Pack(b3, b2, b1, b0) * 0x100 + x) % 0x1_0000_0000 == Pack(b2, b1, b0, x)
  {
    var low := Pack(b2, b1, b0, x);
    assert Pack(b3, b2, b1, b0) * 0x100 + x == b3 as int * 0x1_0000_0000 + low;
    DropHighWord(b3, low);
  }

  /** Adding a multiple of 2^32 to a 32-bit value leaves it modulo 2^32. */
  lemma DropHighWord(k: nat, low: nat)
    requires low < 0x1_0000_0000
    ensures (k * 0x1_0000_0000 + low) % 0x1_0000_0000 == low
  {
    var q := (k * 0x1_0000_0000 + low) / 0x1_0000_0000;
    var r := (k * 0x1_0000_0000 + low) % 0x1_0000_0000;
    assert (q - k) * 0x1_0000_0000 == low - r;
  }

  /** The register holds the last four bytes read, most recent lowest, with
      0xFF for positions before `start`. */
  lemma {:induction false} WindowPacked(s: seq<Byte>, start: nat, cur: nat)
    requires start <= cur <= |s|
    ensures Window(s, start, cur) == Pack(RegisterByte(s, start, cur - 4), RegisterByte(s, start, cur - 3),
                                          RegisterByte(s, start, cur - 2), RegisterByte(s, start, cur - 1))
    decreases cur - start
  {
    if cur > start {
      WindowPacked(s, start, cur - 1);
      ShiftIn(RegisterByte(s, start, cur - 5), RegisterByte(s, start, cur - 4),
              RegisterByte(s, start, cur - 3), RegisterByte(s, start, cur - 2), s[cur - 1]);
    }
  }

  /** `(flag & 0x00FFFFFF) == 1` tests the low three bytes for 00 00 01 and
      `flag == 1` all four bytes for 00 00 00 01. */
  lemma MaskTests(b3: Byte, b2: Byte, b1: Byte, b0: Byte)
    ensures Pack(b3, b2, b1, b0) % 0x100_0000 == 1 <==> b2 == 0 && b1 == 0 && b0 == 1
    ensures Pack(b3, b2, b1, b0) == 1 <==> b3 == 0 && b2 == 0 && b1 == 0 && b0 == 1
  {
  }

  /** The two register tests recognise a start-code prefix ending at `cur`,
      and its four-byte form, among the bytes read since `start`. */
  lemma WindowMatch(s: seq<Byte>, start: nat, cur: nat)
    requires start <= cur <= |s|
    ensures Window(s, start, cur) % 0x100_0000 == 1 <==> start + 3 <= cur && EndsStartCode(s, cur)
    ensures Window(s, start, cur) == 1 <==> start + 4 <= cur && s[cur - 4] == 0 && EndsStartCode(s, cur)
  {
    WindowPacked(s, start, cur);
    MaskTests(RegisterByte(s, start, cur - 4), RegisterByte(s, start, cur - 3),
              RegisterByte(s, start, cur - 2), RegisterByte(s, start, cur - 1));
  }

  /** Reading the byte at `cur` into the register: the mask test on the new
      value decides whether the search stops at `cur + 1`, and the full
      test whether the start code found there has four bytes. */
  lemma RegisterStep(s: seq<Byte>, start: nat, cur: nat)
    requires start <= cur < |s|
    ensures Window(s, start, cur + 1) == (Window(s, start, cur) * 0x100 + s[cur]) % 0x1_0000_0000
    ensures var w := Window(s, start, cur + 1);
      && (w % 0x100_0000 == 1 ==> start + 3 <= cur + 1 && FindStartCode(s, start, cur) == Some(cur + 1))
      && (w == 1 ==> start + 4 <= cur + 1)
      && (w % 0x100_0000 == 1 ==> (w == 1 <==> StartCodeBegin(s, start, cur + 1) == cur - 3))
      && (w % 0x100_0000 != 1 ==> FindStartCode(s, start, cur) == FindStartCode(s, start, cur + 1))
  {
    WindowMatch(s, start, cur + 1);
  }

  /** The scan result once the search for the next prefix stopped at `k`. */
  lemma ScanFoundAt(s: seq<Byte>, k: nat)
    requires |s| >= 3
    requires FindStartCode(s, LeadingStartCodeLength(s), LeadingStartCodeLength(s)) == Some(k)
    ensures var start := LeadingStartCodeLength(s);
      Scan(s) == Some(NalUnit(start, (if k < |s| then StartCodeBegin(s, start, k) else |s|) - start))
  {
  }

  /** The scan result when no further prefix exists. */
  lemma ScanNotFound(s: seq<Byte>)
    requires |s| >= 3
    requires FindStartCode(s, LeadingStartCodeLength(s), LeadingStartCodeLength(s)) == None
    ensures var start := LeadingStartCodeLength(s);
      Scan(s) == if start >= |s| then None else Some(NalUnit(start, |s| - start))
  {
  }

  // ---------------------------------------------------------------------
  // The scanner as the element runs it

  /** The opening test of `_h265_byte_stream_next_nal`: the offset of the
      first byte after a leading 00 00 01 or 00 00 00 01. */
  method SkipStartCode(buf: array<Byte>, off: nat, len: nat) returns (start: nat)
    requires 3 <= len && off + len <= buf.Length
    ensures start == 3 <==> buf[off] == 0 && buf[off + 1] == 0 && buf[off + 2] == 1
    ensures start == 4 <==> 4 <= len && buf[off] == 0 && buf[off + 1] == 0 && buf[off + 2] == 0 && buf[off + 3] == 1
    ensures start == 0 || start == 3 || start == 4
    ensures start == LeadingStartCodeLength(buf[off..off + len])
  {
    ghost var s := buf[off..off + len];
    assert s[0] == buf[off] && s[1] == buf[off + 1] && s[2] == buf[off + 2];
    assert len >= 4 ==> s[3] == buf[off + 3];
    start := 0;
    if buf[off] == 0 && buf[off + 1] == 0 {
      if buf[off + 2] == 1 {
        start := 3;
      } else if buf[off + 2] == 0 && len >= 4 && buf[off + 3] == 1 {
        start := 4;
      }
    }
  }

  /** `_h265_byte_stream_next_nal` on `buf[off..off + len]`: advances a
      cursor byte by byte, keeping the last four bytes read in a `guint32`
      register.  `found` is false where the source returns NULL; `start` is
      relative to `off`. */
  method NextNal(buf: array<Byte>, off: nat, len: nat) returns (found: bool, start: nat, size: nat)
    requires 0 < len < Two32 && off + len <= buf.Length
    ensures (if found then Some(NalUnit(start, size)) else None) == Scan(buf[off..off + len])
    ensures !found ==> size == 0
  {
    ghost var s := buf[off..off + len];
    if len < 3 {
      return true, 0, len;
    }
    start := SkipStartCode(buf, off, len);
    var cur := start;
    var flag: nat := 0xFFFF_FFFF;
    size := 0;
    ghost var prefixEnd: Option<nat> := None;
    while cur < len
      invariant start <= cur <= len
      invariant flag == Window(s, start, cur)
      invariant FindStartCode(s, start, start) == FindStartCode(s, start, cur)
      invariant prefixEnd == None
      decreases len - cur
    {
      assert buf[off + cur] == s[cur];
      RegisterStep(s, start, cur);
      flag := (flag * 0x100 + buf[off + cur]) % 0x1_0000_0000;
      cur := cur + 1;
      if flag % 0x100_0000 == 1 {
        if flag == 1 {
          size := cur - 4 - start;
        } else {
          size := cur - 3 - start;
        }
        prefixEnd := Some(cur);
        ScanFoundAt(s, cur);
        break;
      }
    }
    if prefixEnd.None? {
      ScanNotFound(s);
    }
    if cur >= len {
      size := len - start;
      if start >= len {
        found := false;
        size := 0;
        return;
      }
    }
    found := true;
  }

  // ---------------------------------------------------------------------
  // The length field

  /** A `guint32` stored as four bytes, most significant first, as
      `_start_code_to_size` writes it (byte `i` from the top is
      `(n >> (24 - 8 * i)) & 0xFF`). */
  function BigEndian32(n: nat): (b: seq<Byte>)
    requires n < Two32
    ensures |b| == 4 && ReadBigEndian32(b) == n
  {
    var r3 := n % 0x100_0000;
    var r2 := r3 % 0x1_0000;
    [n / 0x100_0000, r3 / 0x1_0000, r2 / 0x100, r2 % 0x100]
  }

  /** Four bytes read back most significant first. */
  function ReadBigEndian32(b: seq<Byte>): (n: nat)
    requires |b| == 4
    ensures n < Two32
  {
    Pack(b[0], b[1], b[2], b[3])
  }

  /** Euclidean division by one of the byte-place constants. */
  lemma DivModPlace(n: int, k: int, q: int, r: int)
    requires k == 0x100 || k == 0x1_0000 || k == 0x100_0000
    requires 0 <= r < k && n == q * k + r
    ensures n / k == q && n % k == r
  {
    if k == 0x100 {
      assert n == q * 0x100 + r;
    } else if k == 0x1_0000 {
      assert n == q * 0x1_0000 + r;
    } else {
      assert n == q * 0x100_0000 + r;
    }
  }

  /** Every four-byte field is the encoding of the value it reads as. */
  lemma BigEndian32OfRead(b: seq<Byte>)
    requires |b| == 4
    ensures BigEndian32(ReadBigEndian32(b)) == b
  {
    var n := ReadBigEndian32(b);
    var r2 := b[2] as int * 0x100 + b[3] as int;
    var r3 := b[1] as int * 0x1_0000 + r2;
    DivModPlace(n, 0x100_0000, b[0], r3);
    DivModPlace(r3, 0x1_0000, b[1], r2);
    DivModPlace(r2, 0x100, b[2], b[3]);
  }

  /** A length below 256 is three zero bytes and the length. */
  lemma BigEndian32Small(n: nat)
    requires n < 0x100
    ensures BigEndian32(n) == [0, 0, 0, n]
  {
  }

  /** `_start_code_to_size`: overwrites the four bytes at `off` with `size`,
      most significant first; no other byte changes. */
  method StartCodeToSize(code: array<Byte>, off: nat, size: nat)
    requires off + 4 <= code.Length && size < Two32
    modifies code
    ensures code[..] == old(code[..])[..off] + BigEndian32(size) + old(code[..])[off + 4..]
  {
    var r3 := size % 0x100_0000;
    var r2 := r3 % 0x1_0000;
    code[off] := size / 0x100_0000;
    code[off + 1] := r3 / 0x1_0000;
    code[off + 2] := r2 / 0x100;
    code[off + 3] := r2 % 0x100;
  }
}
