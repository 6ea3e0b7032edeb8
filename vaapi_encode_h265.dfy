/** The decisions of the VA-API H.265 encoder element around its encoder:
    which profile downstream allows at most (`find_best_profile`), whether
    the output is length-prefixed `hvc1` or an Annex B byte stream
    (`gst_vaapiencode_h265_get_caps`), and when a coded buffer is rewritten
    (`gst_vaapiencode_h265_alloc_buffer`). */
module VaapiEncodeH265 {
  import opened GstTypes
  import opened H265NalScan
  import opened H265HvcConvert

  // ---------------------------------------------------------------------
  // Caps as the element reads them

  /** A `GValue` as far as the element looks at it: a string (`None` is a
      NULL string), a `GST_TYPE_LIST` of values, or anything else. */
  datatype Value =
    | StringValue(str: Option<string>)
    | ListValue(items: seq<Value>)
    | OtherValue

  /** A caps structure: its fields by name. */
  type Structure = map<string, Value>

  /** `GST_VAAPI_PROFILE_UNKNOWN`: profiles are codes and 0 is the unknown
      one, which is what `if (!profile)` tests. */
  const UnknownProfile: nat := 0

  // ---------------------------------------------------------------------
  // The best profile

  /** The accumulator `FindBestProfileData`. */
  datatype BestProfile = BestProfile(profile: nat, score: nat)

  /** The profile a value names: `parse` is
      `gst_vaapi_utils_h265_get_profile_from_string`; values that are not a
      non-NULL string name none. */
  function ProfileOf(parse: string -> nat, v: Value): nat
  {
    if v.StringValue? && v.str.Some? then parse(v.str.value) else UnknownProfile
  }

  /** `find_best_profile_value`: `score` is
      `gst_vaapi_utils_h265_get_profile_score`.  A profile replaces the best
      so far unless its score is lower, so on a tie the later one wins. */
  function ConsiderValue(parse: string -> nat, score: nat -> nat, data: BestProfile, v: Value): BestProfile
  {
    var p := ProfileOf(parse, v);
    if p == UnknownProfile then data
    else if score(p) < data.score then data
    else BestProfile(p, score(p))
  }

  /** One value either leaves the best so far or replaces it with itself and
      its score; the best score never drops, and a known profile scoring at
      least as high as the best so far always takes over. */
  lemma ConsiderValueKeepsOrTakes(parse: string -> nat, score: nat -> nat, data: BestProfile, v: Value)
    ensures var r := ConsiderValue(parse, score, data, v);
      && (r == data || r == BestProfile(ProfileOf(parse, v), score(ProfileOf(parse, v))))
      && r.score >= data.score
      && (ProfileOf(parse, v) != UnknownProfile && score(ProfileOf(parse, v)) >= data.score
          ==> r.profile == ProfileOf(parse, v))
  {
  }

  /** The values `find_best_profile` hands on from one structure: its
      "profile" field if that is a string, the members of the field if it
      is a list, and nothing otherwise. */
  function ProfileValues(s: Structure): seq<Value>
  {
    if "profile" !in s then []
    else
      match s["profile"]
      case StringValue(_) => [s["profile"]]
      case ListValue(items) => items
      case OtherValue => []
  }

  /** All values visited, structure by structure, in order. */
  function Candidates(caps: seq<Structure>): seq<Value>
  {
    if caps == [] then [] else Candidates(caps[..|caps| - 1]) + ProfileValues(caps[|caps| - 1])
  }

  /** The accumulator after visiting `vs` in order, starting from the
      unknown profile with score 0. */
  function FoldBest(parse: string -> nat, score: nat -> nat, vs: seq<Value>): BestProfile
  {
    if vs == [] then BestProfile(UnknownProfile, 0)
    else ConsiderValue(parse, score, FoldBest(parse, score, vs[..|vs| - 1]), vs[|vs| - 1])
  }

  /** Folding one more value is one more step. */
  lemma FoldBestSnoc(parse: string -> nat, score: nat -> nat, vs: seq<Value>, v: Value)
    ensures FoldBest(parse, score, vs + [v]) == ConsiderValue(parse, score, FoldBest(parse, score, vs), v)
  {
    assert (vs + [v])[..|vs|] == vs;
  }

  /** The accumulator holds the unknown profile only with score 0, and
      otherwise a profile together with its own score. */
  lemma {:induction false} FoldBestConsistent(parse: string -> nat, score: nat -> nat, vs: seq<Value>)
    ensures var b := FoldBest(parse, score, vs);
      if b.profile == UnknownProfile then b.score == 0 else b.score == score(b.profile)
  {
    if vs != [] {
      FoldBestConsistent(parse, score, vs[..|vs| - 1]);
    }
  }

  /** The result is the unknown profile exactly when no visited value names
      a profile the parser knows. */
  lemma {:induction false} FoldBestUnknownIff(parse: string -> nat, score: nat -> nat, vs: seq<Value>)
    ensures FoldBest(parse, score, vs).profile == UnknownProfile
        <==> forall i :: 0 <= i < |vs| ==> ProfileOf(parse, vs[i]) == UnknownProfile
  {
    if vs != [] {
      var init := vs[..|vs| - 1];
      FoldBestUnknownIff(parse, score, init);
      assert forall i :: 0 <= i < |init| ==> init[i] == vs[i];
      if FoldBest(parse, score, init).profile == UnknownProfile {
        FoldBestConsistent(parse, score, init);
      }
    }
  }

  /** A known result has a score at least that of every parsed profile, and
      it is named by a value after which no parsed profile scores as high:
      among equal scores the last one visited wins. */
  lemma {:induction false} FoldBestIsLastMaximum(parse: string -> nat, score: nat -> nat, vs: seq<Value>)
    requires FoldBest(parse, score, vs).profile != UnknownProfile
    ensures var b := FoldBest(parse, score, vs);
      && b.score == score(b.profile)
      && (forall j :: 0 <= j < |vs| && ProfileOf(parse, vs[j]) != UnknownProfile ==>
            score(ProfileOf(parse, vs[j])) <= b.score)
      && exists i :: 0 <= i < |vs| && ProfileOf(parse, vs[i]) == b.profile
            && forall j :: i < j < |vs| && ProfileOf(parse, vs[j]) != UnknownProfile ==>
                 score(ProfileOf(parse, vs[j])) < b.score
  {
    var init := vs[..|vs| - 1];
    var v := vs[|vs| - 1];
    var b0 := FoldBest(parse, score, init);
    var b := FoldBest(parse, score, vs);
    FoldBestConsistent(parse, score, init);
    FoldBestConsistent(parse, score, vs);
    assert forall j :: 0 <= j < |init| ==> init[j] == vs[j];
    var p := ProfileOf(parse, v);
    assert vs == init + [v];
    FoldBestSnoc(parse, score, init, v);
    if p != UnknownProfile && score(p) >= b0.score {
      // the last value becomes the best
      assert b == BestProfile(p, score(p));
      if b0.profile != UnknownProfile {
        FoldBestIsLastMaximum(parse, score, init);
      } else {
        FoldBestUnknownIff(parse, score, init);
      }
      assert ProfileOf(parse, vs[|vs| - 1]) == b.profile;
    } else {
      // the best is unchanged and comes from the earlier values
      assert b == b0;
      FoldBestIsLastMaximum(parse, score, init);
      var i :| 0 <= i < |init| && ProfileOf(parse, init[i]) == b0.profile
            && forall j :: i < j < |init| && ProfileOf(parse, init[j]) != UnknownProfile ==>
                 score(ProfileOf(parse, init[j])) < b0.score;
      assert ProfileOf(parse, vs[i]) == b.profile;
    }
  }

  /** `find_best_profile` on the allowed caps. */
  function BestProfileOf(parse: string -> nat, score: nat -> nat, caps: seq<Structure>): nat
  {
    FoldBest(parse, score, Candidates(caps)).profile
  }

  /** A value is visited exactly when it is the "profile" string of some
      structure or a member of a "profile" list. */
  lemma {:induction false} CandidatesFromStructures(caps: seq<Structure>, v: Value)
    ensures v in Candidates(caps) <==> exists i :: 0 <= i < |caps| && v in ProfileValues(caps[i])
  {
    if caps != [] {
      var init := caps[..|caps| - 1];
      CandidatesFromStructures(init, v);
      assert forall i :: 0 <= i < |init| ==> init[i] == caps[i];
      if v in ProfileValues(caps[|caps| - 1]) {
        assert v in Candidates(caps);
      }
    }
  }

  /** One more member of a "profile" list. */
  lemma FoldBestSnocSlice(parse: string -> nat, score: nat -> nat, before: seq<Value>, items: seq<Value>, j: nat)
    requires j < |items|
    ensures FoldBest(parse, score, before + items[..j + 1])
         == ConsiderValue(parse, score, FoldBest(parse, score, before + items[..j]), items[j])
  {
    assert before + items[..j + 1] == before + items[..j] + [items[j]];
    FoldBestSnoc(parse, score, before + items[..j], items[j]);
  }

  /** The values visited up to structure `i` inclusive. */
  lemma CandidatesSnoc(caps: seq<Structure>, i: nat)
    requires i < |caps|
    ensures Candidates(caps[..i + 1]) == Candidates(caps[..i]) + ProfileValues(caps[i])
  {
    assert caps[..i + 1][..i] == caps[..i];
  }

  /** `find_best_profile`: the outer loop over the structures, the inner one
      over the members of a "profile" list. */
  method FindBestProfile(parse: string -> nat, score: nat -> nat, caps: seq<Structure>) returns (profile: nat)
    ensures profile == BestProfileOf(parse, score, caps)
  {
    var data := BestProfile(UnknownProfile, 0);
    var i := 0;
    while i < |caps|
      invariant i <= |caps|
      invariant data == FoldBest(parse, score, Candidates(caps[..i]))
    {
      var structure := caps[i];
      ghost var before := Candidates(caps[..i]);
      CandidatesSnoc(caps, i);
      if "profile" in structure {
        var value := structure["profile"];
        match value
        case StringValue(_) =>
          FoldBestSnoc(parse, score, before, value);
          data := ConsiderValue(parse, score, data, value);
        case ListValue(items) =>
          var j := 0;
          assert before + items[..j] == before;
          while j < |items|
            invariant j <= |items|
            invariant data == FoldBest(parse, score, before + items[..j])
          {
            FoldBestSnocSlice(parse, score, before, items, j);
            data := ConsiderValue(parse, score, data, items[j]);
            j := j + 1;
          }
          assert items[..j] == items;
        case OtherValue =>
          assert before + ProfileValues(structure) == before;
      } else {
        assert before + ProfileValues(structure) == before;
      }
      i := i + 1;
    }
    assert caps[..i] == caps;
    profile := data.profile;
  }

  // ---------------------------------------------------------------------
  // The stream format

  /** What the search takes from one structure: the "stream-format" string
      when the field is string-typed and the string is not NULL. */
  function StreamFormatOf(s: Structure): Option<string>
  {
    if "stream-format" in s && s["stream-format"].StringValue? then s["stream-format"].str else None
  }

  /** The search in `gst_vaapiencode_h265_get_caps`: the first structure
      that yields a stream format decides. */
  function FirstStreamFormat(caps: seq<Structure>): (r: Option<string>)
    ensures r.None? <==> forall i :: 0 <= i < |caps| ==> StreamFormatOf(caps[i]).None?
  {
    if caps == [] then None
    else if StreamFormatOf(caps[0]).Some? then StreamFormatOf(caps[0])
    else
      assert forall i :: 1 <= i < |caps| ==> caps[i] == caps[1..][i - 1];
      FirstStreamFormat(caps[1..])
  }

  /** The search yields `f` exactly when some structure yields `f` and no
      structure before it yields anything. */
  lemma FirstStreamFormatIsFirst(caps: seq<Structure>, f: string)
    ensures FirstStreamFormat(caps) == Some(f) <==>
      exists i :: 0 <= i < |caps| && StreamFormatOf(caps[i]) == Some(f)
        && forall k :: 0 <= k < i ==> StreamFormatOf(caps[k]).None?
  {
    if FirstStreamFormat(caps) == Some(f) {
      FirstStreamFormatFound(caps, f);
    }
    if exists i :: 0 <= i < |caps| && StreamFormatOf(caps[i]) == Some(f)
        && forall k :: 0 <= k < i ==> StreamFormatOf(caps[k]).None? {
      var i :| 0 <= i < |caps| && StreamFormatOf(caps[i]) == Some(f)
        && forall k :: 0 <= k < i ==> StreamFormatOf(caps[k]).None?;
      FirstStreamFormatTakesFirst(caps, f, i);
    }
  }

  /** A found format comes from a structure with none before it. */
  lemma {:induction false} FirstStreamFormatFound(caps: seq<Structure>, f: string)
    requires FirstStreamFormat(caps) == Some(f)
    ensures exists i :: 0 <= i < |caps| && StreamFormatOf(caps[i]) == Some(f)
                     && forall k :: 0 <= k < i ==> StreamFormatOf(caps[k]).None?
  {
    if StreamFormatOf(caps[0]).Some? {
      assert StreamFormatOf(caps[0]) == Some(f);
    } else {
      FirstStreamFormatFound(caps[1..], f);
      var i :| 0 <= i < |caps[1..]| && StreamFormatOf(caps[1..][i]) == Some(f)
        && forall k :: 0 <= k < i ==> StreamFormatOf(caps[1..][k]).None?;
      assert forall k :: 1 <= k < i + 1 ==> caps[k] == caps[1..][k - 1];
      assert StreamFormatOf(caps[i + 1]) == Some(f);
    }
  }

  /** The first structure that yields a format decides the search. */
  lemma {:induction false} FirstStreamFormatTakesFirst(caps: seq<Structure>, f: string, i: nat)
    requires i < |caps| && StreamFormatOf(caps[i]) == Some(f)
    requires forall k :: 0 <= k < i ==> StreamFormatOf(caps[k]).None?
    ensures FirstStreamFormat(caps) == Some(f)
    decreases i
  {
    if i > 0 {
      assert forall k :: 0 <= k < i - 1 ==> caps[1..][k] == caps[k + 1];
      FirstStreamFormatTakesFirst(caps[1..], f, i - 1);
    }
  }

  /** How `gst_vaapiencode_h265_alloc_buffer` ends: it returns a flow code,
      with the output buffer kept or cleared, or the conversion's assertion
      aborts. */
  datatype AllocOutcome = Returned(flow: FlowReturn, bufferKept: bool) | Aborted

  /** The outcome of `gst_vaapiencode_h265_alloc_buffer` once the parent
      class allocated the buffer with `parentRet`, for a conversion that
      ends with `c`.  A buffer is rewritten only for `hvc1` output after a
      successful allocation, and a failed rewrite clears the buffer and
      fails the allocation. */
  function AllocOutcomeOf(parentRet: FlowReturn, isHvc: bool, c: ConvertResult): (r: AllocOutcome)
    ensures r == Returned(FlowOk, true) <==> parentRet == FlowOk && (!isHvc || c == Converted)
    ensures r == Aborted <==> parentRet == FlowOk && isHvc && c == StartCodeAssertion
    ensures parentRet == FlowOk && isHvc && (c == MapFailed || c == ZeroSizeUnit)
            ==> r == Returned(FlowError, false)
    ensures parentRet != FlowOk ==> r == Returned(parentRet, true)
  {
    if parentRet != FlowOk then Returned(parentRet, true)
    else if !isHvc then Returned(FlowOk, true)
    else if c == Converted then Returned(FlowOk, true)
    else if c == StartCodeAssertion then Aborted
    else Returned(FlowError, false)
  }

  /** The element's own state: whether its output is `hvc1`, and whether
      the base class must produce codec data. */
  class VaapiEncodeH265 {
    var isHvc: bool
    var needCodecData: bool

    /** A new element: GObject instances start zeroed. */
    constructor ()
      ensures !isHvc && !needCodecData
    {
      isHvc := false;
      needCodecData := false;
    }

    /** The stream-format part of `gst_vaapiencode_h265_get_caps`:
        `allowedCaps` is what `gst_pad_get_allowed_caps` returned (`None`
        for NULL); the result is the "stream-format" set on the caps. */
    method GetCaps(allowedCaps: Option<seq<Structure>>) returns (streamFormat: string)
      modifies this
      ensures isHvc == if allowedCaps.Some? then FirstStreamFormat(allowedCaps.value) == Some("hvc1") else old(isHvc)
      ensures needCodecData == isHvc
      ensures streamFormat == if isHvc then "hvc1" else "byte-stream"
    {
      if allowedCaps.Some? {
        var caps := allowedCaps.value;
        var found: Option<string> := None;
        var i := 0;
        while found.None? && i < |caps|
          invariant i <= |caps|
          invariant FirstStreamFormat(caps) == if found.Some? then found else FirstStreamFormat(caps[i..])
        {
          assert caps[i..][1..] == caps[i + 1..];
          var structure := caps[i];
          if "stream-format" in structure && structure["stream-format"].StringValue? {
            found := structure["stream-format"].str;
          }
          i := i + 1;
        }
        isHvc := found.Some? && found.value == "hvc1";
      }
      streamFormat := if isHvc then "hvc1" else "byte-stream";
      needCodecData := isHvc;
    }

    /** `gst_vaapiencode_h265_alloc_buffer` after the parent class filled
        `buf` and returned `parentRet`; `mapOk` is whether mapping the
        buffer for the conversion succeeds. */
    method AllocBuffer(parentRet: FlowReturn, buf: array<Byte>, mapOk: bool) returns (r: AllocOutcome)
      requires buf.Length < Two32
      modifies buf
      ensures parentRet != FlowOk || !isHvc ==> buf[..] == old(buf[..])
      ensures parentRet == FlowOk && isHvc && !mapOk ==> buf[..] == old(buf[..])
      ensures parentRet == FlowOk && isHvc && mapOk ==> buf[..] == Reframe(old(buf[..])).1
      ensures r == AllocOutcomeOf(parentRet, isHvc,
                     if mapOk then Reframe(old(buf[..])).0 else MapFailed)
    {
      if parentRet != FlowOk {
        return Returned(parentRet, true);
      }
      if !isHvc {
        return Returned(FlowOk, true);
      }
      var c := ConvertByteStreamToHvc(buf, mapOk);
      if c == Converted {
        return Returned(FlowOk, true);
      } else if c == StartCodeAssertion {
        return Aborted;
      }
      return Returned(FlowError, false);
    }
  }
}
