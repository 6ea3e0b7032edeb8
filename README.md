# H.265 hvc1 reframing, profile choice and VideoToolbox reorder bookkeeping

This project models two pieces of GStreamer's hardware codec elements and proves properties of them.

**The VA-API H.265 encoder (`gst/vaapi/gstvaapiencode_h265.c`).** When downstream asks for the
`hvc1` stream format, the encoder rewrites each coded buffer in place. The buffer goes from the
Annex B byte stream of ITU-T H.265 (each NAL unit behind a `00 00 01` or `00 00 00 01` start code)
to the length-prefixed layout of ISO/IEC 14496-15, where each unit sits behind a 4-byte big-endian
length. The model covers:

- the scanner `_h265_byte_stream_next_nal`, with its rolling 32-bit `flag` register;
- the big-endian size store `_start_code_to_size`;
- the rewrite loop `_h265_convert_byte_stream_to_hvc`;
- the profile choice `find_best_profile` (a "max by score" over the profile strings of the allowed caps);
- the `stream-format` decision of `get_caps`;
- the conversion gate of `alloc_buffer`.

Modules `H265NalScan`, `H265HvcConvert` and `VaapiEncodeH265`. The scanner and the rewrite are
methods over an `array` of bytes. Each is proved equal to a specification function (`Scan`,
`Reframe`), and lemmas then show what those functions do:

- the round trip back to the Annex B units;
- the big-endian round trip;
- the first-start-code property of the scan;
- the error outcomes.

**The VideoToolbox decoder (`subprojects/gst-plugins-bad/sys/applemedia/vtdec.c`).** Modules
`VtdecReorderDepth` and `Vtdec` cover:

- the avcC header check;
- the MaxDpbMbs table of ITU-T H.264 Table A-1;
- the H.264 reorder depth (sections A.3.1 item h and A.3.2 item f of ITU-T H.264);
- the H.265 reorder depth (section A.4.2 of ITU-T H.265);
- the codec dispatch and the latency arithmetic;
- the PTS comparator of the reorder queue;
- the preferred output format;
- the loop that pops decoded frames off the reorder queue and releases, drops or finishes them.

The decoder state that these steps read and write is the class `Vtdec.VtdecState`.

Some consequences of the code that the model makes explicit:

- On equal profile scores the *later* profile wins: the code skips a candidate only when its
  score is strictly smaller than the best so far (gstvaapiencode_h265.c:104).
- The scanner asserts `len != 0` (gstvaapiencode_h265.c:235), so `NextNal` requires `len > 0`.
- Two 4-byte start codes with nothing between them make the conversion fail only when more
  bytes follow (`ZeroSizeUnitFails`). `00 00 00 01 00 00 00 01` alone is one unit whose 4-byte payload
  is the second start code, because a start code ending at the slice end is absorbed into the
  payload (gstvaapiencode_h265.c:264-265); `StartCodePairAbsorbed` states this case and
  `TrailingStartCodeAbsorbed` the general one.
- A buffer that is only a start code converts successfully and is left unchanged, so not every
  converted buffer is free of start codes.
- A non-empty unit that is not behind a 4-byte start code is not rejected gracefully: it trips
  the `g_assert (nal_body - nal_start_code == 4)` (gstvaapiencode_h265.c:305). That unit may be
  behind a 3-byte start code (`ThreeByteStartCodeAborts`), or behind no start code at all. The
  second case includes a buffer shorter than 3 bytes, where the scanner leaves the start length
  at 0 (gstvaapiencode_h265.c:235-251, `NoStartCodeAborts`). The model makes this the outcome
  `StartCodeAssertion`. An empty unit never gets that far: the size test at
  gstvaapiencode_h265.c:302-303 comes first, so `00 00 01 00 00 01` followed by more bytes fails
  cleanly (`EmptyThreeByteUnitFails`).
- The latency `frame_duration * reorder_queue_length` is a `guint64` product, and the model
  reduces it modulo 2^64 as C does.

## Model

| member | source | states |
|---|---|---|
| H265NalScan.FindStartCode | gst/vaapi/gstvaapiencode_h265.c:254-263 | a start code found by the forward scan ends after the cursor, inside the slice, at least 3 bytes after the unit start |
| H265NalScan.Scan | gst/vaapi/gstvaapiencode_h265.c:226-271 | a reported unit lies within the slice: start + size <= len |
| H265NalScan.ScanStart | gst/vaapi/gstvaapiencode_h265.c:235-251 | below 3 bytes the unit is the whole slice at offset 0; otherwise it starts after the leading start code: 3 after `00 00 01`, 4 after `00 00 00 01`, 0 when neither matches |
| H265NalScan.ScanNoUnit | gst/vaapi/gstvaapiencode_h265.c:264-269 | the scanner reports no unit exactly when the slice is a leading start code and nothing else |
| H265NalScan.ScanPayloadHasNoStartCode | gst/vaapi/gstvaapiencode_h265.c:254-263 | no `00 00 01` begins inside the reported payload: the size stops at the first later start code |
| H265NalScan.ScanFollowedByStartCode | gst/vaapi/gstvaapiencode_h265.c:254-263 | when the unit stops before the slice end, what follows is a 3- or 4-byte start code with more bytes after it; a `00` just before `00 00 01` belongs to the start code, so a non-empty payload followed by a 3-byte start code does not end in `00` |
| H265NalScan.FindStartCodeIsFirst | gst/vaapi/gstvaapiencode_h265.c:254-263 | no start code ends between the cursor and the one the scan finds |
| H265NalScan.FindStartCodeFirst | gst/vaapi/gstvaapiencode_h265.c:254-263 | the first start code ending after the cursor is the one the scan finds |
| H265NalScan.ShiftIn | gst/vaapi/gstvaapiencode_h265.c:255 | shifting the 32-bit register left by 8 and or-ing in the next byte drops the oldest byte and appends the new one |
| H265NalScan.WindowPacked | gst/vaapi/gstvaapiencode_h265.c:254-255 | after any number of steps the register holds the last four bytes read, with 0xFF for positions before the unit start |
| H265NalScan.MaskTests | gst/vaapi/gstvaapiencode_h265.c:256-257 | `flag & 0x00FFFFFF == 1` tests for `00 00 01` in the low three bytes; `flag == 1` tests for `00 00 00 01` |
| H265NalScan.WindowMatch | gst/vaapi/gstvaapiencode_h265.c:256-257 | the register matches the 3-byte mask exactly when a start code ends at the cursor after the unit start, and equals 1 exactly when a fourth `00` precedes it |
| H265NalScan.RegisterStep | gst/vaapi/gstvaapiencode_h265.c:254-263 | one loop step: the register update, a match reports that start code as the first, and the size excludes 4 or 3 start-code bytes as the register equals 1 or not |
| H265NalScan.ScanFoundAt | gst/vaapi/gstvaapiencode_h265.c:256-261 | when the scan finds a start code before the slice end, the size runs up to its first byte; one ending at the slice end is absorbed |
| H265NalScan.ScanNotFound | gst/vaapi/gstvaapiencode_h265.c:264-269 | when no start code follows, the size runs to the slice end, or there is no unit if the start is at the end |
| H265NalScan.SkipStartCode | gst/vaapi/gstvaapiencode_h265.c:242-251 | the payload offset is 3 exactly when the slice opens with `00 00 01`, 4 exactly when it opens with `00 00 00 01` (and has 4 bytes), and 0 otherwise |
| H265NalScan.NextNal | gst/vaapi/gstvaapiencode_h265.c:226-271 | the loop over the buffer reports exactly the unit `Scan` specifies, or none, with size 0 when there is none |
| H265NalScan.BigEndian32 | gst/vaapi/gstvaapiencode_h265.c:273-280 | the four bytes of a 32-bit size, most significant first, read back as that size |
| H265NalScan.BigEndian32OfRead | gst/vaapi/gstvaapiencode_h265.c:273-280 | encoding the value read from any four bytes gives those bytes back |
| H265NalScan.BigEndian32Small | gst/vaapi/gstvaapiencode_h265.c:273-280 | a size below 256 is written as `00 00 00 size` |
| H265NalScan.StartCodeToSize | gst/vaapi/gstvaapiencode_h265.c:273-280 | the four bytes at the start code become the big-endian size, and no other byte changes |
| H265HvcConvert.ReframeRest | gst/vaapi/gstvaapiencode_h265.c:295-310 | the conversion of a buffer, or of the unconverted rest at the loop's cursor, keeps its length and never reports a map failure |
| H265HvcConvert.ParseToLengthPrefixed | gst/vaapi/gstvaapiencode_h265.c:306-307 | reading back a length-prefixed buffer, one 4-byte length and payload at a time, gives the units it was built from |
| H265HvcConvert.ParseRecord | gst/vaapi/gstvaapiencode_h265.c:306-307 | one big-endian length and its payload, followed by a readable rest, parse as that unit and then the rest |
| H265HvcConvert.ScanOneUnit | gst/vaapi/gstvaapiencode_h265.c:226-271 | on `00 00 00 01` + payload, followed by nothing or by a further 4-byte start code and at least one more byte, the scanner reports the payload at offset 4 |
| H265HvcConvert.ReframeAnnexB | gst/vaapi/gstvaapiencode_h265.c:295-310 | an Annex B stream of well-formed units behind 4-byte start codes converts successfully to exactly the length-prefixed layout of those units |
| H265HvcConvert.ReframeRestDecodes | gst/vaapi/gstvaapiencode_h265.c:295-310 | a successful rewrite reads back as length-prefixed units whose Annex B form is the original rest |
| H265HvcConvert.ReframeDecodes | gst/vaapi/gstvaapiencode_h265.c:295-310 | a successful conversion either leaves a start-code-only buffer unchanged or yields length-prefixed units that rebuild the original byte stream |
| H265HvcConvert.StartCodeOnlyIsConverted | gst/vaapi/gstvaapiencode_h265.c:295-301 | a buffer that is only a 3- or 4-byte start code converts successfully and unchanged |
| H265HvcConvert.ZeroSizeUnitFails | gst/vaapi/gstvaapiencode_h265.c:302-303 | a buffer opening with two 4-byte start codes and followed by at least one more byte (any buffer under 2^32 bytes) makes the conversion fail on a zero-size unit |
| H265HvcConvert.ThreeByteStartCodeAborts | gst/vaapi/gstvaapiencode_h265.c:305 | a buffer opening with `00 00 01` and a non-zero byte trips the 4-byte start code assertion, whatever follows (any buffer under 2^32 bytes) |
| H265HvcConvert.EmptyThreeByteUnitFails | gst/vaapi/gstvaapiencode_h265.c:302-305 | `00 00 01 00 00 01` followed by at least one more byte (any buffer under 2^32 bytes) fails on the zero-size unit: the size test comes before the start-code assertion |
| H265HvcConvert.NoStartCodeAborts | gst/vaapi/gstvaapiencode_h265.c:235-251 | a non-empty buffer that does not open with a start code, including one of 1 or 2 bytes, leaves the start length at 0 and so trips the 4-byte start code assertion of :305 (any buffer under 2^32 bytes) |
| H265HvcConvert.StartCodePairAbsorbed | gst/vaapi/gstvaapiencode_h265.c:264-265 | `00 00 00 01 00 00 00 01` alone converts successfully to one record of length 4 whose payload is the second start code |
| H265HvcConvert.ScanTrailingStartCode | gst/vaapi/gstvaapiencode_h265.c:264-265 | on `00 00 00 01` + well-formed payload + `00 00 00 01` ending the slice, the scanner reports one unit at offset 4 whose size counts the trailing start code |
| H265HvcConvert.TrailingStartCodeAbsorbed | gst/vaapi/gstvaapiencode_h265.c:264-265 | a start code ending exactly at the buffer end is absorbed into the last payload and its size counts it, for any well-formed payload (any buffer under 2^32 bytes) |
| H265HvcConvert.RestStops | gst/vaapi/gstvaapiencode_h265.c:298-305 | with no unit the loop ends successfully; on a zero size or a start code not 4 bytes long it stops with that outcome, leaving the rest untouched |
| H265HvcConvert.RestAdvance | gst/vaapi/gstvaapiencode_h265.c:305-307 | one rewrite step replaces the start code by the size and moves the cursor by exactly 4 + size, leaving the outcome for the whole buffer unchanged |
| H265HvcConvert.ResumeStart | gst/vaapi/gstvaapiencode_h265.c:295-297 | with the cursor at the start of the untouched buffer, the outcome still to come is the whole conversion |
| H265HvcConvert.ResumeEnd | gst/vaapi/gstvaapiencode_h265.c:299-310 | with the cursor at the end of the buffer, the buffer as it stands is the converted result and the outcome is success |
| H265HvcConvert.ResumeStop | gst/vaapi/gstvaapiencode_h265.c:299-305 | where the scan finds no unit, a zero size or a start code not 4 bytes long, the buffer as it stands is final, with success, failure or the assertion respectively |
| H265HvcConvert.ResumeAdvance | gst/vaapi/gstvaapiencode_h265.c:305-307 | overwriting the 4-byte start code with the size and moving the cursor to the end of the payload keeps the outcome still to come unchanged |
| H265HvcConvert.AdvanceUnit | gst/vaapi/gstvaapiencode_h265.c:305-307 | rewrites one start code in place and returns the cursor just past the payload, keeping the outcome still to come unchanged |
| H265HvcConvert.RewriteUnit | gst/vaapi/gstvaapiencode_h265.c:299-308 | one pass of the loop either stops with the final outcome and buffer or advances the cursor strictly, keeping the outcome still to come unchanged |
| H265HvcConvert.ConvertByteStreamToHvc | gst/vaapi/gstvaapiencode_h265.c:282-318 | a failed map returns FALSE with the buffer untouched; otherwise the in-place loop produces exactly the outcome and bytes of `Reframe`, including units already rewritten before a failure |
| VaapiEncodeH265.ConsiderValueKeepsOrTakes | gst/vaapi/gstvaapiencode_h265.c:88-108 | `find_best_profile_value` either keeps the best so far or replaces it with the value's profile and score; the best score never drops, and a known profile scoring at least as high always takes over |
| VaapiEncodeH265.FoldBestSnoc | gst/vaapi/gstvaapiencode_h265.c:88-108 | the accumulator after one more value is `find_best_profile_value` applied to it |
| VaapiEncodeH265.FoldBestConsistent | gst/vaapi/gstvaapiencode_h265.c:103-107 | the kept score is the kept profile's score, or 0 with the unknown profile |
| VaapiEncodeH265.FoldBestUnknownIff | gst/vaapi/gstvaapiencode_h265.c:94-107 | the result is UNKNOWN if and only if no visited value is a string that parses to a profile |
| VaapiEncodeH265.FoldBestIsLastMaximum | gst/vaapi/gstvaapiencode_h265.c:104-107 | a known result scores at least every parsed profile, and it was parsed from a value after which only strictly lower scores follow: ties go to the later profile |
| VaapiEncodeH265.CandidatesFromStructures | gst/vaapi/gstvaapiencode_h265.c:119-133 | the visited values are exactly the string "profile" fields and the members of "profile" lists of the structures |
| VaapiEncodeH265.CandidatesSnoc | gst/vaapi/gstvaapiencode_h265.c:119-133 | visiting one more structure appends its profile values |
| VaapiEncodeH265.FoldBestSnocSlice | gst/vaapi/gstvaapiencode_h265.c:128-131 | one more member of a "profile" list is one more `find_best_profile_value` step |
| VaapiEncodeH265.FindBestProfile | gst/vaapi/gstvaapiencode_h265.c:110-135 | the nested loops return the profile of the fold over all visited values, in caps order |
| VaapiEncodeH265.FirstStreamFormat | gst/vaapi/gstvaapiencode_h265.c:183-190 | no stream format is found exactly when no structure has a string-typed, non-NULL "stream-format" |
| VaapiEncodeH265.FirstStreamFormatFound | gst/vaapi/gstvaapiencode_h265.c:183-190 | a found stream format comes from a structure that yields it with no structure before it yielding one |
| VaapiEncodeH265.FirstStreamFormatTakesFirst | gst/vaapi/gstvaapiencode_h265.c:183-190 | the first structure that yields a stream format decides the search |
| VaapiEncodeH265.FirstStreamFormatIsFirst | gst/vaapi/gstvaapiencode_h265.c:183-190 | the chosen stream format is that of the first structure with a string-typed, non-NULL "stream-format", if any |
| VaapiEncodeH265.VaapiEncodeH265.GetCaps | gst/vaapi/gstvaapiencode_h265.c:176-197 | `is_hvc` becomes "the first string stream-format is hvc1", or stays as it was without allowed caps; `need_codec_data` equals `is_hvc`; the caps ask for hvc1 or byte-stream accordingly |
| VaapiEncodeH265.VaapiEncodeH265.AllocBuffer | gst/vaapi/gstvaapiencode_h265.c:320-351 | the buffer is converted only when the parent allocation succeeded and `is_hvc` holds; the result and the buffer are those of the conversion |
| VaapiEncodeH265.AllocOutcomeOf | gst/vaapi/gstvaapiencode_h265.c:331-351 | the result is OK with the buffer kept iff the parent succeeded and either `is_hvc` is false or the conversion succeeded; the process aborts exactly when the parent succeeded, `is_hvc` holds and the conversion reaches a non-empty unit that is not behind a 4-byte start code (a 3-byte start code, no start code at all, or a buffer shorter than 3 bytes); a failed map or a zero-size unit clears the buffer and returns ERROR; a parent failure is passed on with the buffer kept |
| VtdecReorderDepth.ParseH264ProfileAndLevel | subprojects/gst-plugins-bad/sys/applemedia/vtdec.c:1069-1115 | the header parses iff it has at least 7 bytes and version byte 1; below 7 bytes the error is "too small" |
| VtdecReorderDepth.ParseAvcCRecord | subprojects/gst-plugins-bad/sys/applemedia/vtdec.c:1083-1097 | a record built from version 1, profile, compatibility and level bytes and at least 3 more bytes parses back to that profile and level |
| VtdecReorderDepth.ParsedIsAvcCRecord | subprojects/gst-plugins-bad/sys/applemedia/vtdec.c:1083-1097 | every accepted buffer is such a record of the profile (byte 1) and level (byte 3) it reports |
| VtdecReorderDepth.DpbMaxMbsFromLevel | subprojects/gst-plugins-bad/sys/applemedia/vtdec.c:1117-1153 | -1 exactly for the codes outside the 16 known levels, and otherwise a value between 396 and 184320 |
| VtdecReorderDepth.DpbMaxMbsMonotone | subprojects/gst-plugins-bad/sys/applemedia/vtdec.c:1120-1151 | over the known levels the table never decreases |
| VtdecReorderDepth.MacroblocksFor | subprojects/gst-plugins-bad/sys/applemedia/vtdec.c:1184-1185 | the count of 16-sample macroblocks rounds up: it covers the size with less than one macroblock to spare, and is positive for a positive size |
| VtdecReorderDepth.FramesInDpb | subprojects/gst-plugins-bad/sys/applemedia/vtdec.c:1211-1212 | the number of whole frames that fit the DPB is capped at 16 |
| VtdecReorderDepth.H264DecodePictureBufferLength | subprojects/gst-plugins-bad/sys/applemedia/vtdec.c:1176-1214 | it succeeds iff the header parses, both dimensions are non-zero, and the profile is 66 or the level is known; on failure the length left is 0; the length never exceeds 16 |
| VtdecReorderDepth.H264LengthFitsDpb | subprojects/gst-plugins-bad/sys/applemedia/vtdec.c:1202-1212 | outside profile 66 the length is the largest count, up to 16, of pictures of ceil(w/16)*ceil(h/16) macroblocks that fit in MaxDpbMbs |
| VtdecReorderDepth.H264BaselineNeedsNoReorder | subprojects/gst-plugins-bad/sys/applemedia/vtdec.c:1197-1200 | profile 66 with a non-zero size succeeds with length 0 |
| VtdecReorderDepth.HevcDecodePictureBufferLength | subprojects/gst-plugins-bad/sys/applemedia/vtdec.c:1216-1242 | it fails (writing nothing) iff a dimension is 0; otherwise the length is 16, 12, 8 or 6 |
| VtdecReorderDepth.HevcLengthNonIncreasing | subprojects/gst-plugins-bad/sys/applemedia/vtdec.c:1230-1240 | a picture with more luma samples never gets a deeper buffer |
| VtdecReorderDepth.HevcLengthBoundsSamples | subprojects/gst-plugins-bad/sys/applemedia/vtdec.c:1230-1240 | up to MaxLumaPs samples per picture, length times picture size never exceeds 6 * MaxLumaPs (the buffer of section A.4.2) |
| VtdecReorderDepth.Latency | subprojects/gst-plugins-bad/sys/applemedia/vtdec.c:1244-1262 | no latency is set iff fps_n is 0; a latency set fits a `GstClockTime` |
| VtdecReorderDepth.FrameDuration | subprojects/gst-plugins-bad/sys/applemedia/vtdec.c:1255-1256 | the frame duration is the whole number of nanoseconds in fps_d/fps_n seconds, rounded down |
| VtdecReorderDepth.LatencyIsQueueOfFrames | subprojects/gst-plugins-bad/sys/applemedia/vtdec.c:1255-1257 | at 1 frame/s or faster and a queue of at most 16, the latency is exactly length frame durations, at most 16 seconds |
| Vtdec.ComparePts | subprojects/gst-plugins-bad/sys/applemedia/vtdec.c:940-963 | the result is -1, 0 or 1, and 0 whenever either frame lacks a valid PTS |
| Vtdec.ComparePtsIsPtsOrder | subprojects/gst-plugins-bad/sys/applemedia/vtdec.c:957-962 | between frames with valid PTS the sign of the result is the PTS order, in all three directions |
| Vtdec.ComparePtsAntisymmetric | subprojects/gst-plugins-bad/sys/applemedia/vtdec.c:940-963 | cmp(a,b) = -cmp(b,a) and cmp(a,a) = 0 |
| Vtdec.ComparePtsNotTransitive | subprojects/gst-plugins-bad/sys/applemedia/vtdec.c:954-955 | a frame without PTS compares equal to two frames with different PTS, so "compares equal" is not transitive |
| Vtdec.Acceptable | subprojects/gst-plugins-bad/sys/applemedia/vtdec.c:291-312 | for other codecs exactly NV12 is taken; for ProRes never NV12, and RGBA64_LE only where the platform has it |
| Vtdec.GetPreferredVideoFormat | subprojects/gst-plugins-bad/sys/applemedia/vtdec.c:282-315 | UNKNOWN iff no entry is acceptable (NV12 for non-ProRes; AYUV64, ARGB64_BE and, when supported, RGBA64_LE for ProRes); otherwise the first acceptable entry |
| Vtdec.Dispatch | subprojects/gst-plugins-bad/sys/applemedia/vtdec.c:1049-1061 | the action is taken on the popped frame; it is finished exactly when not flushing and none of the ERROR, SKIP and DROP flags is set, and then the flow return is `finish_frame`'s; it is dropped exactly when not flushing and, of the three flags, only DROP is set; otherwise the return is ERROR exactly for an ERROR-flagged frame and OK for the rest |
| Vtdec.Drain | subprojects/gst-plugins-bad/sys/applemedia/vtdec.c:1042-1066 | the pop/dispatch loop as a function of the queue; its contract is given by the `Drain*` lemmas below |
| Vtdec.DrainPopsFromHead | subprojects/gst-plugins-bad/sys/applemedia/vtdec.c:1042-1066 | the loop pops from the head only: what is left is a suffix of the queue, with one action per popped frame |
| Vtdec.DrainPopStops | subprojects/gst-plugins-bad/sys/applemedia/vtdec.c:1044-1064 | a pop whose outcome is not OK ends the loop with that outcome, the popped frame's action appended and the rest of the queue left |
| Vtdec.DrainPopContinues | subprojects/gst-plugins-bad/sys/applemedia/vtdec.c:1044-1064 | a pop whose outcome is OK appends the popped frame's action and continues with the rest of the queue |
| Vtdec.DrainOrFlushEmptiesQueue | subprojects/gst-plugins-bad/sys/applemedia/vtdec.c:1042-1066 | with drain or flush set, an OK result leaves the queue empty |
| Vtdec.DrainLeavesShortQueue | subprojects/gst-plugins-bad/sys/applemedia/vtdec.c:1042-1043 | without drain or flush, an OK result leaves fewer frames than reorder_queue_length, or none |
| Vtdec.DrainHandlesHeadInOrder | subprojects/gst-plugins-bad/sys/applemedia/vtdec.c:1049-1061 | the i-th action is the handling of the i-th queued frame (ERROR first, then flush/SKIP release, then DROP, else finish), and all but the last had an OK outcome |
| Vtdec.DrainReturnsLastOutcome | subprojects/gst-plugins-bad/sys/applemedia/vtdec.c:1049-1064 | the result is the outcome of the last handled frame, or OK when nothing was popped |
| Vtdec.ErrorFrameStopsDrain | subprojects/gst-plugins-bad/sys/applemedia/vtdec.c:1050-1052 | a popped frame flagged ERROR is released, is the last one handled, and the result is GST_FLOW_ERROR |
| Vtdec.FlushOnlyReleases | subprojects/gst-plugins-bad/sys/applemedia/vtdec.c:1053-1054 | a flush only releases frames and ends with OK or ERROR, never finishing a frame |
| Vtdec.VtdecState.constructor | subprojects/gst-plugins-bad/sys/applemedia/vtdec.c:200 | a new decoder has an empty reorder queue and reorder length 0 |
| Vtdec.VtdecState.ComputeReorderQueueLength | subprojects/gst-plugins-bad/sys/applemedia/vtdec.c:1155-1174 | H.264 always writes its length; HEVC writes only on success; other codecs get 0 and success; the length stays within 0..16 |
| Vtdec.VtdecState.SetLatency | subprojects/gst-plugins-bad/sys/applemedia/vtdec.c:1244-1262 | with an unknown frame rate (fps_n 0) the decoder's latency is left as it was; otherwise it becomes the reorder length in frame durations (`Latency`, whose meaning `LatencyIsQueueOfFrames` states); nothing else changes |
| Vtdec.VtdecState.PushFramesIfNeeded | subprojects/gst-plugins-bad/sys/applemedia/vtdec.c:1042-1066 | the pop/dispatch loop leaves exactly the queue, the actions and the flow return of `Drain` |

## Left out

- Buffers of 4 GiB or more: the scanner's length is a `guint32`, so the conversion requires a buffer shorter than 2^32 bytes.
- `gst_buffer_map` and `gst_buffer_unmap`: mapping is the parameter `mapOk`, and unmapping has no effect in the model.
- The `g_assert` in the scanner on a zero length and on NULL pointers: a zero length is a precondition of `NextNal`.
- The `g_assert` on 4-byte start codes in the rewrite: the model returns the outcome `StartCodeAssertion` instead of aborting the process. Units rewritten before it stay rewritten, as in the code. Builds with `G_DISABLE_ASSERT`, where the assertion is compiled out and the size is written over the first 4 bytes at the start-code position before the loop goes on, are not modelled.
- The profile parser and score table `gst_vaapi_utils_h265_*` are external. They are the function parameters `parse` (0 for UNKNOWN) and `score`.
- GValue type tests: a caps field is a `Value` that is a string (possibly NULL), a list, or any other type.
- The rest of `get_caps`: building the caps from a string, and the profile, level and tier fields it adds afterwards. These are GStreamer glue.
- `alloc_buffer`'s `g_return_val_if_fail (encoder != NULL)`: the encoder is taken to exist.
- The parent class's `alloc_buffer`: it is the parameter `parentRet`.
- `gst_buffer_replace (out_buffer_ptr, NULL)`: modelled as `bufferKept == false`.
- VideoToolbox and CoreMedia sessions, format descriptions and buffer wrapping are foreign APIs.
- Negotiation, caps building, texture caches, context handling and type registration are GStreamer glue.
- The session output callback that flags frames and inserts them into the queue runs on another thread and is not part of this model. Frames arrive already flagged, and the queue is modelled as owned by the drain loop.
- The prelude of `gst_vtdec_push_frames_if_needed` is not modelled: reconfigure/negotiate and `VTDecompressionSessionWaitForAsynchronousFrames`.
- `gst_video_decoder_release_frame`, `drop_frame` and `finish_frame` are recorded as `Action`s.
- Vtdec.VtdecState.PushFramesIfNeeded: the result of `finish_frame` is a function `finish` of the frame, not of downstream state that may change between calls.
- `gst_video_format_from_string` is the parameter `fromString`.
- `GST_VTUTIL_HAVE_64RGBALE` is the parameter `have64RgbaLe`.
- `g_warn_if_reached` only logs, so the model continues the search as the code does.
- The entries of the "format" list are taken to be strings.
- `GstVideoInfo` parsing from caps is not modelled: width, height and frame rate are fields of `VtdecState`, set by its constructor, as non-negative integers.
- `width * height` as a `gint` can overflow. The HEVC depth requires the product to fit in a `gint` rather than modelling the overflow.
- VtdecReorderDepth.H264DecodePictureBufferLength: `GST_ROUND_UP_16 (width)`, the macroblock counts and their product are `int` in the code (vtdec.c:1184-1185, 1211) but unbounded integers here. Where the product exceeds 2^31 - 1 (for instance 2^20 x 2^20 at a level other than Baseline) the C arithmetic overflows, in practice wrapping to 0 and dividing by zero, while the model returns success with length 0. The same holds for `Vtdec.VtdecState.ComputeReorderQueueLength` on the H.264 path.
- The intermediate `*length = 0` store in the H.264 depth is not modelled separately: the function gives the value left in the out-parameter at return.
- `gst_util_uint64_scale`'s 128-bit intermediate: `Second * fps_d` always fits in 64 bits, so only the rounded-down quotient is modelled.
- `gst_video_decoder_set_latency` is recorded in the field `latency`; what the base class does with it is not modelled.
- Logging and element-error messages are side effects only.
