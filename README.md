# Kaldi segmentation scripts and small tools, modelled in Dafny

This project models the parts of the Kaldi speech recognition toolkit that cut recordings into utterance segments, plus the small command-line tools used around them. Every file is modelled in its own imperative form: loops become `while` loops with invariants, and objects whose fields change become classes. Each method is proved against a specification function, and lemmas state what the source promises about that function.

* **Frame-level resegmentation (the `JointResegmenter` classes).**
  * One version is speech-based (`segmentation_nonoise_with_analysis.py`). The other is silence-based and handles two channels (`segmentation_joint.py`).
  * Every frame of a recording carries a class code. Runs of speech codes become initial segments, marked by start markers `S` and end markers `E`. The segments are padded with non-speech frames until a target non-speech proportion is reached. Neighbouring segments are merged at ranked boundaries. Segments above a hard length cap are split, and noise-only (or silence-only) segments are removed. The segments are then printed with zero-padded utterance ids.
  * For two-channel recordings, `segmentation_joint.py` maps each pair of channel labels to joint class codes.
* **Segment post-processing scripts.**
  * `post_process_segments_with_VAD.py` cuts the pauses that a voice activity detector rejects.
  * `get_RTTM_segments.py` turns reference RTTM files into segments.
  * `merge_pred.py` merges frame predictions.
  * `durations2segments.py` cuts recordings into fixed-length segments.
* **CTM scripts.**
  * `filter_ctm_using_segments.py` keeps the words that fall inside segments.
  * `ctm2text.py` and `ctm2text_and_segments.py` turn word timings into transcripts, and into new segments for inserted fillers.
  * `add_fillers_to_transcription.py` puts hypothesised fillers into reference transcripts.
* **Kaldi binaries.**
  * `combine-conf` combines per-frame confidences across systems.
  * `get-pdf-counts-on-ali` builds a histogram of pdf ids.
  * `diff-int-vectors` measures agreement between integer vectors.
  * `pdf-post-to-align-pdf-post` turns posteriors into an alignment.
  * `post-decode` picks the best pdf per frame.

How values are represented:

* Times are whole frames, or exact reals where the source works in seconds.
* Files and tables are sequences of parsed records, and the text a script prints is a sequence of lines.
* A process exit is an `Outcome` value carrying the status code.

## Model

| member | source | states |
|---|---|---|
| FrameCodes.TransitionType | egs/babel/s5/local/segmentation_nonoise_with_analysis.py:818-841 | the rank is 0..9 (0..5 for the silence-based chain); for the speech-based chain it is at most 5 exactly when both frames are covered, 6-7 exactly when a covered frame is followed by an absorbable one, 8-9 exactly when an absorbable frame is followed by a covered one |
| FrameCodes.TransitionTypeIsFirstTier | egs/babel/s5/local/segmentation_joint.py:308-322 | the rank returned is a tier that holds the pair and no earlier tier of the chain holds it |
| FrameCodes.JointTiersNested | egs/babel/s5/local/segmentation_joint.py:311-320 | the silence-based tiers are nested: a pair in tier k is in every later tier up to 4 |
| FrameCodes.NonoiseTiersNested | egs/babel/s5/local/segmentation_nonoise_with_analysis.py:821-840 | the speech-based tiers 0..5 are nested and a pair in tier 5 is in tiers 6..9 as well |
| FrameCodes.CoveredCodes | egs/babel/s5/local/segmentation_nonoise_with_analysis.py:196-212 | an input code is covered exactly when it is a segment code, and an absorbable code plus 9 is a covered code |
| Markers.CountsBalance | egs/babel/s5/local/segmentation_nonoise_with_analysis.py:288 | well-formed markers (the left-to-right scan never trips its asserts) have as many starts as ends |
| Markers.PrefixBalance | egs/babel/s5/local/segmentation_nonoise_with_analysis.py:336-349 | up to frame k the start count exceeds the end count by one exactly when frame k is inside a segment |
| Markers.CoveredIff | egs/babel/s5/local/segmentation_nonoise_with_analysis.py:336-349 | under well-formed markers a frame is in a segment exactly when it lies before the end of the segment opened at the last start marker before it |
| Markers.SegmentInterior | egs/babel/s5/local/segmentation_nonoise_with_analysis.py:855-859 | every frame from a start marker to its segment's end is covered and holds no other start marker |
| Markers.SegmentEnds | egs/babel/s5/local/segmentation_nonoise_with_analysis.py:860 | a segment of well-formed markers ends at an end marker within the recording, after its start |
| Markers.MergeAt | egs/babel/s5/local/segmentation_nonoise_with_analysis.py:603-606 | clearing both markers at a boundary keeps the markers well formed, leaves every frame's coverage as it was and lowers both counts by one |
| Markers.RemoveSegment | egs/babel/s5/local/segmentation_nonoise_with_analysis.py:740-744 | clearing a segment's start and end markers keeps them well formed and uncovers exactly that segment's frames |
| Markers.SplitAt | egs/babel/s5/local/segmentation_nonoise_with_analysis.py:703-705 | setting both markers at an interior frame of a segment keeps them well formed and every frame's coverage, and raises both counts by one |
| Markers.AbsorbAfter | egs/babel/s5/local/segmentation_nonoise_with_analysis.py:372-395 | absorbing the frame after a segment end (as its own segment or by sliding the end) keeps the markers well formed and covers exactly that one frame more |
| Markers.AbsorbBefore | egs/babel/s5/local/segmentation_nonoise_with_analysis.py:396-409 | absorbing the frame before a segment start (as its own segment or by sliding the start) keeps the markers well formed and covers exactly that one frame more |
| Markers.SaturatedCoversAll | egs/babel/s5/local/segmentation_nonoise_with_analysis.py:362-413 | when no marker can absorb a frame, either no frame or every frame is in a segment |
| Markers.ScanBack | egs/babel/s5/local/segmentation_nonoise_with_analysis.py:546-553 | the backward scan returns the last start marker before the boundary, or -1 |
| Markers.ScanForward | egs/babel/s5/local/segmentation_nonoise_with_analysis.py:557-561 | the forward scan returns the first end marker from its position, or one past the last position |
| Markers.EndOwner | egs/babel/s5/local/segmentation_nonoise_with_analysis.py:737-740 | every end marker closes the segment opened at the last start marker before it |
| InitialSegments.GetInitialSegments | egs/babel/s5/local/segmentation_nonoise_with_analysis.py:259-288 | S is set exactly at the first frame of each run of one segment code and E exactly just past the run (E[N] when the last frame has one); the markers are well formed, cover exactly the segment-code frames and balance |
| InitialSegments.RunsCoverage | egs/babel/s5/local/segmentation_joint.py:66-95 | with run markers a frame is inside a segment exactly when its code is a segment code |
| InitialSegments.SegmentsAreRuns | egs/babel/s5/local/segmentation_nonoise_with_analysis.py:260-284 | each initial segment is a maximal run of one segment code: every frame carries the first frame's code and the frames just outside carry another |
| InitialSegments.RunMarkersPadded | egs/babel/s5/local/segmentation_nonoise_with_analysis.py:285-288 | run markers are well formed, sit at code transitions, cover exactly the covered codes and balance |
| Padding.ScanSegments | egs/babel/s5/local/segmentation_nonoise_with_analysis.py:330-349 | the opening scan counts exactly the frames inside segments and lists every marker position, in increasing order |
| Padding.TargetFrames | egs/babel/s5/local/segmentation_nonoise_with_analysis.py:356 | the target is int(frames / (1 - proportion)) with the proportion propNum/propDen: the largest t with t(1 - proportion) <= frames, never below frames |
| Padding.PadSegments | egs/babel/s5/local/segmentation_nonoise_with_analysis.py:361-413 | the padding loop keeps the markers well formed and balanced with each absorbed frame converted to its code + 9, never uncovers a frame, counts exactly the covered frames, never goes past the target (or past the starting count when that already reaches it, in which case nothing changes) and ends at the target or with no frame absorbable |
| Padding.PadPass | egs/babel/s5/local/segmentation_nonoise_with_analysis.py:365-413 | a pass that changes something covers more frames and stops at the target, never beyond it; a pass that changes nothing leaves the state as it was and no marker able to absorb a frame |
| Padding.PadAt | egs/babel/s5/local/segmentation_nonoise_with_analysis.py:371-409 | a work-list visit changes something exactly when it covers more frames, and then covers exactly one more: either the frame after an end that is not a start is absorbed as PadAfter states or the frame before a start that is not an end is absorbed as PadBefore states, every other frame and marker unchanged; one that changes nothing leaves a marker that cannot absorb |
| Padding.PadAfter | egs/babel/s5/local/segmentation_nonoise_with_analysis.py:372-395 | at an end that is not a start the frame after the segment gets code B+9 and a new end follows it; when its input code differs from the segment's last frame it becomes a one-frame segment of its own (a start there, a new work-list entry), otherwise the old end is removed and the entry moves on; every other frame and marker is unchanged; otherwise nothing changes |
| Padding.PadBefore | egs/babel/s5/local/segmentation_nonoise_with_analysis.py:396-409 | at a start that is not an end the frame before the segment gets code B+9 and a new start precedes it; when its input code differs from the segment's first frame it becomes a one-frame segment of its own (an end at the old start, a new work-list entry), otherwise the old start is removed and the entry moves back; every other frame and marker is unchanged |
| Padding.AbsorbAfterCodes | egs/babel/s5/local/segmentation_nonoise_with_analysis.py:372-378 | the frame after a segment end that is not a start has its input code and that code is absorbable (the source's assert), and converting it keeps the padded relations |
| Padding.AbsorbBeforeCodes | egs/babel/s5/local/segmentation_nonoise_with_analysis.py:396-400 | the frame before a segment start that is not an end has its input code, absorbable (the source's assert), and converting it keeps the padded relations |
| Padding.SegmentFramesKept | egs/babel/s5/local/segmentation_nonoise_with_analysis.py:361-413 | a frame inside an initial segment is still inside a segment after padding |
| Boundaries.FindBoundaries | egs/babel/s5/local/segmentation_nonoise_with_analysis.py:486-529 | the two-index walk lists every boundary (a position holding both a start and an end) with its own score and transition type, ranked by type, then score, then position |
| Boundaries.InsertRanked | egs/babel/s5/local/segmentation_nonoise_with_analysis.py:521-526 | appending and re-sorting keeps every entry and adds exactly the new one |
| Boundaries.InsertKeepsRanked | egs/babel/s5/local/segmentation_nonoise_with_analysis.py:521-526 | the two stable sorts put an entry with a later position after every entry of equal key, so the list stays ranked by (type, score, position) |
| Boundaries.InsertedPositions | egs/babel/s5/local/segmentation_nonoise_with_analysis.py:518-526 | re-sorting after an append adds exactly the new boundary's position to the positions held |
| Boundaries.BoundaryNeighbours | egs/babel/s5/local/segmentation_nonoise_with_analysis.py:506-515 | at a matched boundary the previous start and the next end exist and are the ends of the two segments meeting there (the source's asserts) |
| Boundaries.TruePositionsEnumerate | egs/babel/s5/local/segmentation_nonoise_with_analysis.py:459-460 | the list comprehension lists exactly the true positions, in increasing order, one per true entry |
| Merging.TileMarkers | egs/babel/s5/local/segmentation_nonoise_with_analysis.py:466-478 | the sorted de-duplicated position lists mark 0 and every marker position as a start and N and every marker position as an end |
| Merging.TiledShape | egs/babel/s5/local/segmentation_nonoise_with_analysis.py:466-482 | the tiled markers are well formed, balanced and cover every frame |
| Merging.TileUniform | egs/babel/s5/local/segmentation_nonoise_with_analysis.py:466-478 | the padded coverage does not change inside a tile |
| Merging.MergeBoundary | egs/babel/s5/local/segmentation_nonoise_with_analysis.py:534-607 | one boundary of the merge loop computes exactly the merge action: skip a stale boundary, drop a long non-speech tile, join three when they fit below the cap, else join two when they fit |
| Merging.MergeStep | egs/babel/s5/local/segmentation_nonoise_with_analysis.py:534-607 | every merge action keeps the merge invariant (markers only cleared, well formed, lengths below the cap where joined) |
| Merging.RankedEarlier | egs/babel/s5/local/segmentation_nonoise_with_analysis.py:521-526 | an earlier ranked boundary is at another position and never at the end of a non-speech tile that starts at a later one (gap-start tiers rank before gap-end tiers) |
| Merging.GapTileIsPause | egs/babel/s5/local/segmentation_nonoise_with_analysis.py:466-478 | under the policy the tile holding an uncovered frame is the maximal silence/noise run through that frame |
| Merging.MergeDone | egs/babel/s5/local/segmentation_nonoise_with_analysis.py:531-609 | once every boundary is processed the counts balance, markers were only cleared, each segment is a candidate segment or below the cap, coverage is unchanged without the policy and under it every frame is covered except those in long pauses |
| Merging.PolicyCoverage | egs/babel/s5/local/segmentation_nonoise_with_analysis.py:564-575 | a frame's tile is a long gap starting at a boundary exactly when the frame lies in a long pause |
| Merging.MergeSegments | egs/babel/s5/local/segmentation_nonoise_with_analysis.py:456-609 | the merged markers are well formed and balanced, a subset of the candidate markers, every segment a candidate segment or shorter than maxFrames; without the policy coverage is unchanged, with it a frame is covered exactly when it is not in a silence/noise run that does not start the recording and is longer than minInter |
| Splitting.Pieces | egs/babel/s5/local/segmentation_nonoise_with_analysis.py:694 | the intended piece count is the ceiling of len/hard: (k-1)·hard < len <= k·hard, and 2 <= k <= len |
| Splitting.PiecesAgree | egs/babel/s5/local/segmentation_nonoise_with_analysis.py:694 | for caps of at most 100000 frames int(len/hard + 0.99999) is the ceiling |
| Splitting.PiecesAsWrittenTooFew | egs/babel/s5/local/segmentation_nonoise_with_analysis.py:694 | a 200001-frame segment under a 200000-frame cap gets one piece as written, so it is not cut |
| Splitting.PieceFacts | egs/babel/s5/local/segmentation_nonoise_with_analysis.py:701 | frames per piece lie between 1 and the cap, the pieces fit in the segment and the last piece is at least as long as the others |
| Splitting.CutPoints | egs/babel/s5/local/segmentation_nonoise_with_analysis.py:701-703 | the cuts are n + i·f for i in 1..k-1, one per piece after the first |
| Splitting.CutPointsInside | egs/babel/s5/local/segmentation_nonoise_with_analysis.py:701-703 | every cut lies strictly inside the segment |
| Splitting.CutSegment | egs/babel/s5/local/segmentation_nonoise_with_analysis.py:701-705 | both markers are set exactly at the cuts, keeping the markers well formed and coverage unchanged; the segment then ends at its first cut |
| Splitting.SplitLongSegments | egs/babel/s5/local/segmentation_nonoise_with_analysis.py:680-708 | as intended (Finding 1): markers stay well formed and balanced, coverage is unchanged, new markers come in start/end pairs inside an over-long segment, and afterwards every segment is within the cap or (speech-based chain) has no silence/noise frame |
| Removal.RemoveSegmentsWithout | egs/babel/s5/local/segmentation_nonoise_with_analysis.py:710-746 | a segment is dropped exactly when none of its frames has a wanted code; its frames become uncovered, the others keep their markers and ends |
| Removal.RemoveNoiseOnly | egs/babel/s5/local/segmentation_nonoise_with_analysis.py:729-746 | exactly the segments holding a speech frame (6-8) survive, with their ends; coverage only shrinks, a speech frame in a segment stays in one, and the counts balance |
| Removal.RemoveSilenceOnly | egs/babel/s5/local/segmentation_nonoise_with_analysis.py:710-727 | exactly the segments holding a frame that is not plain silence (0-2) survive; converted silence counts as non-silence |
| Restriction.Restricted | egs/babel/s5/local/segmentation_nonoise_with_analysis.py:225-232 | the cut markers are well formed and balanced, agree with the old ones below n, keep every frame's coverage and set E[n] exactly when a segment is open across the cut |
| Restriction.RestrictFacts | egs/babel/s5/local/segmentation_joint.py:40-47 | the count test sum(S) == sum(E) + 1 fires exactly when a segment is open across the cut and not ended there, and the fix-up keeps the markers well formed |
| Emission.PrintSegments | egs/babel/s5/local/segmentation_nonoise_with_analysis.py:843-871 | status 1 exactly when there is no segment; otherwise every segment once as (start, end), ascending and disjoint with end > start, covering exactly the frames inside segments |
| Emission.ListedSegments | egs/babel/s5/local/segmentation_joint.py:334-365 | a listing of well-formed markers is disjoint and ascending and covers exactly the frames inside segments |
| Emission.PrintNamed | egs/babel/s5/local/segmentation_nonoise_with_analysis.py:843-891 | the segments as above, then the least padding width for the last end in hundredths and one line per segment with its id |
| ZeroPadding.PaddingWidth | egs/babel/s5/local/segmentation_nonoise_with_analysis.py:876-880 | the multiply-by-ten loop returns one more than the exponent of the least power of ten that is at least the value |
| ZeroPadding.LeastWidthUnique | egs/babel/s5/local/segmentation_joint.py:357-361 | exactly one width meets both bounds of the least-power test |
| ZeroPadding.PaddedWidth | egs/babel/s5/local/segmentation_nonoise_with_analysis.py:881-888 | a number below ten to the w-th power is printed by "%0wd" in exactly w characters |
| ZeroPadding.NameSegments | egs/babel/s5/local/segmentation_nonoise_with_analysis.py:873-891 | the width is the least that holds the last segment's end in hundredths and each segment gets its line, in order |
| ChannelCodes.IsolatedCodes | egs/babel/s5/local/segmentation_joint.py:484-497 | the loop codes a channel alone, label by label |
| ChannelCodes.IsolatedMeaning | egs/babel/s5/local/segmentation_joint.py:484-497 | a channel coded alone gets one input code per frame whose class and last digit are both the frame's label |
| ChannelCodes.JointCodes | egs/babel/s5/local/segmentation_joint.py:499-537 | the two loops produce the joint codes of every frame of the longer channel |
| ChannelCodes.JointMeaning | egs/babel/s5/local/segmentation_joint.py:499-537 | both channels get one input code per frame of channel 1: 3·own + other, with channel 2 silent past its end |
| ChannelCodes.Ordered | egs/babel/s5/local/segmentation_joint.py:471-478 | the pair is swapped exactly so that the first channel is not the shorter one |
| ChannelCodes.IsolatedPairDropped | egs/babel/s5/local/segmentation_joint.py:482-545 | as written, channels of 42 and 1 frames are coded alone and no run is made for either |
| ChannelCodes.PairJobsCoverBoth | egs/babel/s5/local/segmentation_joint.py:480-545 | as intended, each channel of the pair is run once on one input code per frame, channel 2 cut back to its own length |
| SegmentationNonoise.JointResegmenter.constructor | egs/babel/s5/local/segmentation_nonoise_with_analysis.py:176-193 | a new resegmenter keeps the input codes as both B and A, has no start or end marker (N start slots, N+1 end slots) and takes the frame limits and the noise-removal choice from its options |
| SegmentationNonoise.JointResegmenter.GetInitialSegments | egs/babel/s5/local/segmentation_nonoise_with_analysis.py:259-288 | the object's S and E are the run markers of the speech codes and balance; A and B are unchanged |
| SegmentationNonoise.JointResegmenter.SetNonspeechProportion | egs/babel/s5/local/segmentation_nonoise_with_analysis.py:329-416 | B is unchanged, the codes and markers stay padded and balanced, no covered frame is lost, the covered count never passes the target, and the target is reached unless nothing more can be absorbed |
| SegmentationNonoise.JointResegmenter.MergeSegments | egs/babel/s5/local/segmentation_nonoise_with_analysis.py:456-609 | the object's markers after the merge, as for Merging.MergeSegments |
| SegmentationNonoise.JointResegmenter.SplitLongSegments | egs/babel/s5/local/segmentation_nonoise_with_analysis.py:680-708 | as intended (Finding 1): coverage is unchanged and every segment ends within the cap or has no silence/noise frame |
| SegmentationNonoise.JointResegmenter.RemoveNoiseOnlySegments | egs/babel/s5/local/segmentation_nonoise_with_analysis.py:729-746 | a start survives exactly when its segment holds a speech frame; surviving segments keep their ends |
| SegmentationNonoise.JointResegmenter.RemoveSilenceOnlySegments | egs/babel/s5/local/segmentation_nonoise_with_analysis.py:710-727 | a start survives exactly when its segment holds a frame that is not plain silence |
| SegmentationNonoise.JointResegmenter.RemoveOnlySegments | egs/babel/s5/local/segmentation_nonoise_with_analysis.py:251-257 | noise-only segments are dropped when asked for, else silence-only ones under the pause policy, else nothing changes |
| SegmentationNonoise.JointResegmenter.SegmentPhases | egs/babel/s5/local/segmentation_nonoise_with_analysis.py:234-251 | after the first four phases each segment is within the cap or pause-free, and a frame is covered exactly when its code is covered (no policy) or it is not in a long pause (policy) |
| SegmentationNonoise.JointResegmenter.Resegment | egs/babel/s5/local/segmentation_nonoise_with_analysis.py:234-257 | as intended (Finding 1): every segment is within the cap or pause-free, holds speech when noise-only segments are removed, a non-silence frame under the pause policy, and only frames allowed by the policy are covered |
| SegmentationNonoise.JointResegmenter.Restrict | egs/babel/s5/local/segmentation_nonoise_with_analysis.py:225-232 | the object is cut to n frames; E[n] is set exactly when a segment is open across the cut; coverage of the kept frames is unchanged |
| SegmentationNonoise.JointResegmenter.PrintSegments | egs/babel/s5/local/segmentation_nonoise_with_analysis.py:843-891 | status 1 exactly when no segment is left; otherwise the disjoint ascending segments covering exactly the segment frames, printed with the least width |
| SegmentationNonoise.CoverageKept | egs/babel/s5/local/segmentation_nonoise_with_analysis.py:456-708 | merging without the pause policy and splitting leave a frame covered exactly when its code is covered |
| SegmentationNonoise.KeptInside | egs/babel/s5/local/segmentation_nonoise_with_analysis.py:710-746 | removal only shrinks coverage, so every covered frame still has a covered code, or is outside a long pause |
| SegmentationJoint.JointResegmenter.constructor | egs/babel/s5/local/segmentation_joint.py:15-27 | a new resegmenter keeps the input codes as both B and A, has no start or end marker (N start slots, N+1 end slots) and takes the frame limits from its options |
| SegmentationJoint.JointResegmenter.GetInitialSegments | egs/babel/s5/local/segmentation_joint.py:66-95 | the object's S and E are set exactly at the starts and ends of the runs of one non-silence code (adjacent runs of two such codes share a position), cover exactly those frames and balance |
| SegmentationJoint.JointResegmenter.SetSilenceProportion | egs/babel/s5/local/segmentation_joint.py:97-157 | only silence frames are absorbed (converted to code + 9), no covered frame is lost, the covered count never passes the target, and the target is reached unless nothing more can be absorbed |
| SegmentationJoint.JointResegmenter.MergeSegments | egs/babel/s5/local/segmentation_joint.py:223-263 | markers are only cleared, stay well formed and balanced, every segment keeps its end or is shorter than maxFrames, and every frame's coverage is unchanged |
| SegmentationJoint.JointResegmenter.SplitLongSegments | egs/babel/s5/local/segmentation_joint.py:265-288 | as intended (Findings 1 and 7): every segment longer than the cap is cut, so afterwards no segment exceeds hardMaxFrames; coverage is unchanged |
| SegmentationJoint.JointResegmenter.RemoveNoiseOnlySegments | egs/babel/s5/local/segmentation_joint.py:290-306 | exactly the segments holding a speech frame survive, so a speech frame in a segment stays in one |
| SegmentationJoint.JointResegmenter.Resegment | egs/babel/s5/local/segmentation_joint.py:49-64 | as intended (Findings 1 and 7): every segment is at most hardMaxFrames long and holds a speech frame, only covered-code frames are in segments, and every speech frame of the channel is in a segment |
| SegmentationJoint.JointResegmenter.Restrict | egs/babel/s5/local/segmentation_joint.py:40-47 | as for the speech-based variant's restrict |
| SegmentationJoint.JointResegmenter.PrintSegments | egs/babel/s5/local/segmentation_joint.py:324-372 | status 1 exactly when no segment is left; otherwise the disjoint ascending segments, printed with the least width |
| SegmentationJoint.CoverageKept | egs/babel/s5/local/segmentation_joint.py:223-288 | merging and splitting leave a frame covered exactly when its code is covered |
| SegmentationJoint.RunJob | egs/babel/s5/local/segmentation_joint.py:538-545 | as intended (Finding 2): one run resegments, cuts back when asked and prints; it exits with status 1 exactly when no frame of the (cut-back) recording is left in a segment; otherwise it prints, for the job's file, disjoint segments holding exactly the frames in segments, each at most hardMaxFrames long, each one not cut short holding a speech frame of the job's codes; frames in segments carry covered padded codes, and every speech frame of the channel is in one |
| SegmentationJoint.JobExitIff | egs/babel/s5/local/segmentation_joint.py:349-351 | a run whose kept frames hold a speech frame of the channel prints; a run that is not cut back exits exactly when its codes hold no speech frame |
| SegmentationJoint.CutSegments | egs/babel/s5/local/segmentation_joint.py:40-44 | cutting the markers back to the first n frames keeps every printed segment within the cap, keeps speech in every segment that is not cut short, and keeps every remaining frame covered |
| SegmentationJoint.ResegmentPair | egs/babel/s5/local/segmentation_joint.py:470-545 | as intended (Finding 2): the first job of the pair coding is run; the second is run only when the first printed, since an exit ends the script; each outcome is its job's run, with every guarantee of a run, and when both run they cover both recordings |
| VadFilter.MarkRecording | egs/babel/s5b/local/post_process_segments_with_VAD.py:87-118 | the per-line updates of one recording leave A true exactly on the lines' frames, S on their starts and E on their ends |
| VadFilter.MarkLine | egs/babel/s5b/local/post_process_segments_with_VAD.py:106-115 | one segment line extends the arrays to the marks of one more line |
| VadFilter.MarksConsistent | egs/babel/s5b/local/post_process_segments_with_VAD.py:106-115 | the markers the lines give agree with the in-segment frames: every stretch of in-segment frames begins at a start and ends at an end |
| VadFilter.ReadVad | egs/babel/s5b/local/post_process_segments_with_VAD.py:132-151 | reading a VAD file leaves B true exactly on the frames of its lines (in frames, with the padding applied) |
| VadFilter.VadLine | egs/babel/s5b/local/post_process_segments_with_VAD.py:142-151 | one VAD line grows B to its end and marks its frames |
| VadFilter.Classify | egs/babel/s5b/local/post_process_segments_with_VAD.py:214-226 | the class array is computed frame by frame as the class function states |
| VadFilter.ClassesMeaning | egs/babel/s5b/local/post_process_segments_with_VAD.py:214-226 | class 2 exactly for in-segment frames outside the VAD (including past its end), 1 for in-segment frames inside it, 0 for frames outside every segment |
| VadFilter.RunBounds | egs/babel/s5b/local/post_process_segments_with_VAD.py:230-233 | every frame of a run of 2s sees the run's own first frame and end |
| VadFilter.RepairRun | egs/babel/s5b/local/post_process_segments_with_VAD.py:230-263 | one run of 2s is found, then removed with its markers repaired in the four cases, or kept; the repair invariant advances to the run's end |
| VadFilter.RepairMarkers | egs/babel/s5b/local/post_process_segments_with_VAD.py:237-256 | both sides out clears S[n] and E[p]; left out moves S from n to p; right out moves E from p to n; both in sets E[n] and S[p] |
| VadFilter.FillRun | egs/babel/s5b/local/post_process_segments_with_VAD.py:236 | the frames of the run get the value, the others keep theirs |
| VadFilter.RemoveRuns | egs/babel/s5b/local/post_process_segments_with_VAD.py:228-267 | the loop yields exactly the kept frames and the repaired start and end markers |
| VadFilter.KeptBoundariesMarked | egs/babel/s5b/local/post_process_segments_with_VAD.py:237-256 | after the repair every stretch of kept frames begins at a start marker and ends at an end marker |
| VadFilter.PiecesWellFormed | egs/babel/s5b/local/post_process_segments_with_VAD.py:269-286 | every piece begins at a kept frame with a start marker or after a non-kept frame, and extends to the first end marker or non-kept frame |
| VadFilter.PiecesAscending | egs/babel/s5b/local/post_process_segments_with_VAD.py:269-286 | the pieces read off are disjoint and ascending |
| VadFilter.PiecesCover | egs/babel/s5b/local/post_process_segments_with_VAD.py:269-286 | every frame where a piece may start lies in some piece |
| VadFilter.LongerMeaning | egs/babel/s5b/local/post_process_segments_with_VAD.py:277-278 | exactly the pieces longer than the minimum in frames are kept |
| VadFilter.ReadSegments | egs/babel/s5b/local/post_process_segments_with_VAD.py:269-286 | the reading loop yields exactly the long pieces |
| VadFilter.FilteredFacts | egs/babel/s5b/local/post_process_segments_with_VAD.py:212-297 | every output segment is longer than the minimum, ascends without overlap and lies on in-segment frames that the VAD accepts or that sit in a kept rejected run |
| VadFilter.PrintSegments | egs/babel/s5b/local/post_process_segments_with_VAD.py:212-304 | status 1 exactly when no segment is left; otherwise the filtered segments printed with the least width |
| VadFilter.RunLimitAsWritten | egs/babel/s5b/local/post_process_segments_with_VAD.py:234 | as written, a run's frame count is compared with the threshold in seconds unchanged |
| VadFilter.RunLimit | egs/babel/s5b/local/post_process_segments_with_VAD.py:31-34 | the corrected limit is the threshold in seconds over the frame shift |
| VadFilter.MinFrames | egs/babel/s5b/local/post_process_segments_with_VAD.py:277 | the minimum segment length in frames is the minimum in seconds over the frame shift |
| VadFilter.GapRemovedIffLong | egs/babel/s5b/local/post_process_segments_with_VAD.py:234 | with the corrected limit a rejected run is removed exactly when it lasts longer than the threshold in seconds or touches the edge or an out-of-segment frame |
| VadFilter.ShortGapCutAsWritten | egs/babel/s5b/local/post_process_segments_with_VAD.py:234 | as written, a 2-frame rejected pause inside a segment is cut out under the default 1-second threshold; with the corrected limit it is kept |
| VadFilter.GroupsFlatten | egs/babel/s5b/local/post_process_segments_with_VAD.py:87-175 | grouping the lines by consecutive recording ids loses and reorders no line |
| VadFilter.GroupsMaximal | egs/babel/s5b/local/post_process_segments_with_VAD.py:101 | neighbouring groups belong to different recordings |
| VadFilter.PostProcess | egs/babel/s5b/local/post_process_segments_with_VAD.py:78-204 | as intended (Finding 5): succeeds exactly when the input is non-empty and every recording group has a VAD file and keeps a segment, then prints each group's filtered segments in input order; otherwise status 1 |
| VadFilter.FinishRecording | egs/babel/s5b/local/post_process_segments_with_VAD.py:119-155 | reading a recording's VAD file and printing fails with status 1 exactly when the file is missing or no segment is left |
| VadFilter.FinishLast | egs/babel/s5b/local/post_process_segments_with_VAD.py:177-204 | the last recording is printed after the loop, which completes the output for every group |
| VadFilter.AddLine | egs/babel/s5b/local/post_process_segments_with_VAD.py:101-118 | a line of the current recording extends the marks by that line |
| VadFilter.GroupsAdvance | egs/babel/s5b/local/post_process_segments_with_VAD.py:101-174 | each line either extends the current group or closes it and opens the next, leaving earlier groups as they were |
| RttmSegments.Fill | egs/babel/s5b/local/resegment/get_RTTM_segments.py:57 | n copies of the label, none when n is not positive |
| RttmSegments.PlaceMeaning | egs/babel/s5b/local/resegment/get_RTTM_segments.py:51-67 | labels are only appended: "0" fills the gap up to the record's start, then the record's label ("2" LEXEME, "0" NON-LEX other, "1" other NON-LEX and NON-SPEECH) for its duration, from the current end when the record overlaps |
| RttmSegments.PlaceRecord | egs/babel/s5b/local/resegment/get_RTTM_segments.py:51-67 | the branches of the reading loop append exactly the record's placement |
| RttmSegments.SwitchFile | egs/babel/s5b/local/resegment/get_RTTM_segments.py:16-49 | at a record of another file the current labels are stored and the new file starts empty or continues from its stored labels |
| RttmSegments.ReadRecord | egs/babel/s5b/local/resegment/get_RTTM_segments.py:11-67 | SPEAKER records are skipped and any other record goes to its file, keeping every file's labels equal to its records placed in order |
| RttmSegments.ReadRttm | egs/babel/s5b/local/resegment/get_RTTM_segments.py:6-70 | as intended, every file named by a counted record gets exactly its records' labels; with no such record there is no file and the script fails |
| RttmSegments.UnseenEmpty | egs/babel/s5b/local/resegment/get_RTTM_segments.py:14-15 | a file named only by SPEAKER records has no labels |
| RttmSegments.RevisitedFileGarbled | egs/babel/s5b/local/resegment/get_RTTM_segments.py:41-49 | as written, a file met again after another file gets its stored labels glued to the new ones ("22" "2" for two speech frames), so its first frame is lost as speech |
| RttmSegments.InSegment | egs/babel/s5b/local/resegment/get_RTTM_segments.py:113-118 | a frame is in a segment exactly when its label is "2", or "1" with noise kept |
| RttmSegments.FindSegments | egs/babel/s5b/local/resegment/get_RTTM_segments.py:125-137 | the walk lists exactly the maximal true runs as disjoint, ascending, non-adjacent (start, end) pairs with end > start; none exactly when no frame is true |
| RttmSegments.MaximalRunsFrom | egs/babel/s5b/local/resegment/get_RTTM_segments.py:125-137 | runs that are each maximal, separated and cover every true frame are the maximal runs |
| RttmSegments.PrintSegments | egs/babel/s5b/local/resegment/get_RTTM_segments.py:121-159 | status 1 exactly when no frame is in a segment; otherwise the maximal runs printed with the least width |
| RttmSegments.PrintAll | egs/babel/s5b/local/resegment/get_RTTM_segments.py:117-119 | succeeds exactly when every listed file has an in-segment frame, each file printed for its own frames, in listing order |
| RttmSegments.PrintedUpToMeaning | egs/babel/s5b/local/resegment/get_RTTM_segments.py:117-119 | each file printed so far has a segment frame and is printed for its own frames |
| RttmSegments.LabelFrames | egs/babel/s5b/local/resegment/get_RTTM_segments.py:117-118 | each listed file's in-segment frames come from its own labels |
| RttmSegments.GetRttmSegments | egs/babel/s5b/local/resegment/get_RTTM_segments.py:72-119 | as intended (Finding 4): succeeds exactly when some record names a file and every file has an in-segment frame; then prints every file's maximal runs; otherwise status 1 |
| MergePred.Sil | egs/babel/s5b/local/merge_pred.py:52 | n copies of "SIL" |
| MergePred.MergeRunFits | egs/babel/s5b/local/merge_pred.py:51-54 | a run of lines merges exactly when every utterance has a prediction and no line starts before the end of what is placed; the merge then ends with the last utterance's tokens |
| MergePred.MergeRunPlaces | egs/babel/s5b/local/merge_pred.py:51-54 | every utterance's tokens sit at its start frame in the merged prediction |
| MergePred.MergeRunSil | egs/babel/s5b/local/merge_pred.py:52 | every frame of the merged prediction that no utterance covers is "SIL" |
| MergePred.RunStart | egs/babel/s5b/local/merge_pred.py:37-41 | the run of a line begins after the last change of recording id before it |
| MergePred.FlushedAlternate | egs/babel/s5b/local/merge_pred.py:37-41 | consecutive files written are for different recordings, and the last one is not for the current line's recording |
| MergePred.FitStep | egs/babel/s5b/local/merge_pred.py:37-54 | a line that fits extends the files written by the previous recording exactly at a change of id; a line that does not fit makes the whole input fail |
| MergePred.AddLine | egs/babel/s5b/local/merge_pred.py:44-55 | one line's body succeeds exactly when its prediction exists and its start is not inside the placed prediction, and then yields the extended prediction |
| MergePred.MergePredictions | egs/babel/s5b/local/merge_pred.py:28-62 | succeeds exactly when there is a line and every line fits; the output is one prediction per change of recording plus the last recording's, each the merge of its run; otherwise status 1 |
| DurationsSegments.TableMeaning | egs/wsj/s5/utils/durations2segments.py:34-37 | the durations table holds exactly the ids of the lines, each with the duration of the last line for that id |
| DurationsSegments.ReadDurations | egs/wsj/s5/utils/durations2segments.py:34-37 | the reading loop builds that table |
| DurationsSegments.Chunks | egs/wsj/s5/utils/durations2segments.py:52-65 | every chunk lies inside the recording and is non-empty |
| DurationsSegments.ChunksTile | egs/wsj/s5/utils/durations2segments.py:52-65 | the chunks of a recording tile [0, duration) contiguously; all but the last are one segment length long and the last is shorter than one and a half lengths; a zero duration gives no chunk |
| DurationsSegments.NextChunk | egs/wsj/s5/utils/durations2segments.py:54-56 | the loop's end (the minimum, overridden by the duration when under one and a half lengths remain) is the next chunk and makes progress |
| DurationsSegments.SegmentRecording | egs/wsj/s5/utils/durations2segments.py:51-65 | one recording's loop prints one line per chunk, in order, with the open end -1 on the last chunk |
| DurationsSegments.MaxDuration | egs/wsj/s5/utils/durations2segments.py:39 | the result is one of the durations and no duration exceeds it |
| DurationsSegments.IdsFitWidth | egs/wsj/s5/utils/durations2segments.py:43-60 | with the width chosen from the largest duration, every number printed in an id fits the zero-padding width exactly |
| DurationsSegments.SegmentAll | egs/wsj/s5/utils/durations2segments.py:51-65 | every recording of the table, in its iteration order (each id once), gets its chunk lines |
| DurationsSegments.Durations2Segments | egs/wsj/s5/utils/durations2segments.py:34-65 | an empty durations file fails; otherwise the width is the least w with the largest duration at most 10^(w-1), and every recording, each once in the table's iteration order, is chunked |
| CtmCommon.StrLessTransitive | egs/babel/s5b/local/filter_ctm_using_segments.py:81 | the recording-id comparison the cursor uses is transitive |
| CtmCommon.StrLessTotal | egs/babel/s5b/local/filter_ctm_using_segments.py:81 | any two different recording ids are ordered one way or the other |
| CtmCommon.StrLessAsymmetric | egs/babel/s5b/local/filter_ctm_using_segments.py:81 | no two recording ids are each before the other |
| CtmFilter.Advance | egs/babel/s5b/local/filter_ctm_using_segments.py:81-89 | the cursor stops at the first segment from its position that is not wholly before the word, and every segment skipped is; None means every remaining segment is before the word |
| CtmFilter.SeekSegment | egs/babel/s5b/local/filter_ctm_using_segments.py:81-89 | the segment-reading loop reaches exactly that segment, or the end of the file |
| CtmFilter.Run | egs/babel/s5b/local/filter_ctm_using_segments.py:62-92 | while the script runs, its cursor is always a segment of the file |
| CtmFilter.FailurePersists | egs/babel/s5b/local/filter_ctm_using_segments.py:82-86 | once the segments file has run out the script has exited, whatever lines follow |
| CtmFilter.FilterCtm | egs/babel/s5b/local/filter_ctm_using_segments.py:62-92 | the script exits with status 1 exactly when the segments run out (or there is no first segment) and otherwise writes the lines the cursor pass keeps |
| CtmFilter.KeptOverlap | egs/babel/s5b/local/filter_ctm_using_segments.py:91-92 | every line written is an input line partially or completely inside some segment |
| CtmFilter.CursorFirst | egs/babel/s5b/local/filter_ctm_using_segments.py:72-89 | with sorted CTM lines the cursor rests on the first segment that is not wholly before the latest word |
| CtmFilter.KeepAtCursor | egs/babel/s5b/local/filter_ctm_using_segments.py:91 | at that segment of a sorted segments file, the keep test holds exactly when some segment overlaps the word |
| CtmFilter.FilterExact | egs/babel/s5b/local/filter_ctm_using_segments.py:20-23 | with both files sorted, the output is exactly the CTM lines partially or completely inside some segment, unchanged and in input order |
| CtmFilter.FilterFailsIff | egs/babel/s5b/local/filter_ctm_using_segments.py:62-86 | with sorted CTM lines the script fails exactly when the segments file is empty or every segment lies before the last CTM line |
| CtmFilter.FailureAtWord | egs/babel/s5b/local/filter_ctm_using_segments.py:81-86 | the word at which the segments run out lies after every segment |
| CtmText.TakeEnd | egs/wsj/s5/utils/ctm2text.py:89-94 | the words a segment takes are the longest run from the cursor of words from an earlier recording or of its own recording starting no later than its end |
| CtmText.Next | egs/wsj/s5/utils/ctm2text.py:71-94 | a skipped segment leaves the cursor where it is; any other moves it past exactly the words it takes |
| CtmText.Transcripts | egs/wsj/s5/utils/ctm2text.py:65-99 | one transcript per segment |
| CtmText.PrintSegment | egs/wsj/s5/utils/ctm2text.py:66-99 | one segment's body advances the cursor as Next says and prints the line of the words between the old and the new cursor |
| CtmText.TakeWords | egs/wsj/s5/utils/ctm2text.py:88-94 | the inner loop collects exactly the words of the run the segment takes |
| CtmText.CtmToText | egs/wsj/s5/utils/ctm2text.py:16-26 | an option value other than true, True, false or False exits with status 1; otherwise the output is one pass over the segments with the shared cursor |
| CtmText.SegmentStep | egs/wsj/s5/utils/ctm2text.py:65-99 | each segment's line is cut from the CTM between its cursor and the next |
| CtmText.CursorForward | egs/wsj/s5/utils/ctm2text.py:62-94 | the CTM cursor never moves back |
| CtmText.PrintedTranscripts | egs/wsj/s5/utils/ctm2text.py:96-99 | the printed words, read line after line, are the transcripts' words in segment order |
| CtmText.ConcatPieces | egs/wsj/s5/utils/ctm2text.py:88-94 | pieces cut between ascending cursors, one after another, are the CTM words up to the last cursor |
| CtmText.PrintedWordsConsumed | egs/wsj/s5/utils/ctm2text.py:62-99 | every CTM word the cursor passes is printed exactly once and in order; no other word is printed |
| CtmText.WholeOneLinePerSegment | egs/wsj/s5/utils/ctm2text.py:74-75 | with whole transcripts every segment gets exactly one line, its id and its words, in segment order |
| CtmText.NoEmptyLines | egs/wsj/s5/utils/ctm2text.py:96-99 | without whole transcripts no empty transcript is printed and no segment gets two lines |
| CtmTextSegments.Trunc | egs/wsj/s5/utils/ctm2text_and_segments.py:82 | "%d" of a time truncates toward zero: the result is the integer part, on both sides of zero |
| CtmTextSegments.UttIdWidth | egs/wsj/s5/utils/ctm2text_and_segments.py:82 | times below 10000 seconds give ids of one shape: the recording followed by two six-digit fields |
| CtmTextSegments.FirstFillerInverted | egs/wsj/s5/utils/ctm2text_and_segments.py:110-120 | for an early word of the first segment the as-written span takes its lower bound from the last segment of the file and ends before it starts; the corrected span holds the word |
| CtmTextSegments.LaterRecordingInverted | egs/wsj/s5/utils/ctm2text_and_segments.py:115 | a filler of a later recording before its first segment takes as written its lower bound from the previous recording's last segment (an inverted span, 100.0 to 1.8), while the corrected span runs from 0.7 to 1.8 |
| CtmTextSegments.FillerHoldsWord | egs/wsj/s5/utils/ctm2text_and_segments.py:110-117 | the new segment for an inserted filler holds the start of the word, ends no later than the segment's start, and does not reach back into the previous segment of the same recording |
| CtmTextSegments.CtmToTextAndSegments | egs/wsj/s5/utils/ctm2text_and_segments.py:14-17 | as intended (Findings 6 and 8): an option value other than true or false is refused with status 2; otherwise the text and segments files are the lines every segment writes, in segment order, and their lines pair up by utterance id |
| CtmTextSegments.Paired | egs/wsj/s5/utils/ctm2text_and_segments.py:117-135 | each text line is written with a segments line carrying the same utterance id |
| CtmTextSegments.EntriesStep | egs/wsj/s5/utils/ctm2text_and_segments.py:80-135 | each segment's body appends exactly its own lines to both files and moves the cursor as in the plain transcripts |
| CtmTextSegments.WriteSegment | egs/wsj/s5/utils/ctm2text_and_segments.py:81-135 | one segment's body writes the filler pairs of its early words and then its own pair, and leaves the cursor past the words it takes |
| CtmTextSegments.TakeSegment | egs/wsj/s5/utils/ctm2text_and_segments.py:106-127 | the inner loop takes the same words as the plain transcripts, writing a pair for each early word and gathering the others into the transcript |
| CtmTextSegments.TakeWord | egs/wsj/s5/utils/ctm2text_and_segments.py:110-126 | a word starting more than 0.01 s before its segment gets a filler pair of its own; any other word goes to the transcript |
| CtmTextSegments.FillerLines | egs/wsj/s5/utils/ctm2text_and_segments.py:115-123 | as intended (Findings 6 and 8): the filler's text and segments lines carry the id built from its widened span, clipped only by a previous segment of the same recording |
| CtmTextSegments.TakenWordsPrinted | egs/wsj/s5/utils/ctm2text_and_segments.py:106-135 | every word a segment takes is printed exactly once, on a filler line or in the segment's transcript |
| CtmTextSegments.FlatRearranged | egs/wsj/s5/utils/ctm2text_and_segments.py:80-135 | lines written segment after segment, each a rearrangement of that segment's words, are a rearrangement of all those words |
| CtmTextSegments.WordsPrintedOnce | egs/wsj/s5/utils/ctm2text_and_segments.py:78-135 | every CTM word the cursor passes is printed exactly once over the whole text file, and no other word is |
| AddFillers.FindFrom | egs/wsj/s5/utils/add_fillers_to_transcription.py:87-88 | the scan stops at the first line from its start that begins with the marker, or at the end of the file |
| AddFillers.TagClosesIff | egs/wsj/s5/utils/add_fillers_to_transcription.py:98 | the search for a closing bracket and quote succeeds exactly when the word holds one at or after the position |
| AddFillers.PickFailsIff | egs/wsj/s5/utils/add_fillers_to_transcription.py:96-101 | reading the count section fails exactly when one of its lines does not have two fields |
| AddFillers.PickCount | egs/wsj/s5/utils/add_fillers_to_transcription.py:96-101 | exactly the first num-fillers candidate words (neither the total nor a quoted tag) are taken, all of them when there are fewer; a repeated word leaves fewer distinct entries |
| AddFillers.PickWords | egs/wsj/s5/utils/add_fillers_to_transcription.py:98-99 | a word is a top insertion exactly when some taken count line carries it |
| AddFillers.PickCounts | egs/wsj/s5/utils/add_fillers_to_transcription.py:99 | a top insertion's count is the count on one of the taken lines that carry it |
| AddFillers.SkipToCounts | egs/wsj/s5/utils/add_fillers_to_transcription.py:85-91 | the reader is left on the line after the count marker, or at the end of the file |
| AddFillers.ReadTopInsertions | egs/wsj/s5/utils/add_fillers_to_transcription.py:84-109 | reading the insertion list exits with status 1 exactly when a count line lacks two fields, and otherwise yields the top insertions and the first location line |
| AddFillers.CountStep | egs/wsj/s5/utils/add_fillers_to_transcription.py:96-101 | each loop turn reads the next count line of the section |
| AddFillers.ReadCountLine | egs/wsj/s5/utils/add_fillers_to_transcription.py:97-100 | one count line fails without two fields and otherwise takes its word while fewer than num-fillers are taken |
| AddFillers.QuoteFromFirst | egs/wsj/s5/utils/add_fillers_to_transcription.py:268 | the quote search finds the first double quote from its start |
| AddFillers.LastQuoteLast | egs/wsj/s5/utils/add_fillers_to_transcription.py:268 | the backward search finds the last double quote |
| AddFillers.QuotedFillerName | egs/wsj/s5/utils/add_fillers_to_transcription.py:266-270 | a quoted word gives its text in angle brackets when its count is above the threshold and the unknown word otherwise |
| AddFillers.FillerNameFailsIff | egs/wsj/s5/utils/add_fillers_to_transcription.py:266-268 | naming the filler fails exactly for a frequent word with fewer than two double quotes |
| AddFillers.FillerNameBracketed | egs/wsj/s5/utils/add_fillers_to_transcription.py:266-270 | every filler name is in angle brackets |
| AddFillers.HumanEndFirst | egs/wsj/s5/utils/add_fillers_to_transcription.py:208-210 | the human cursor stops at the first line that is neither from an earlier recording nor starting at or before the location |
| AddFillers.ResegEndFirst | egs/wsj/s5/utils/add_fillers_to_transcription.py:219-223 | the decoded cursor stops at the first line that is neither from an earlier recording nor starting before the location |
| AddFillers.SegEndFirst | egs/wsj/s5/utils/add_fillers_to_transcription.py:230-234 | the segment cursor stops at the first segment that is neither from an earlier recording nor ending before the location |
| AddFillers.Process | egs/wsj/s5/utils/add_fillers_to_transcription.py:184-238 | one location line keeps all three cursors inside their files |
| AddFillers.Place | egs/wsj/s5/utils/add_fillers_to_transcription.py:240-304 | placing a filler moves no cursor |
| AddFillers.AddFillers | egs/wsj/s5/utils/add_fillers_to_transcription.py:84-333 | the program exits with status 1 exactly when the inputs make it fail, and otherwise writes the lines and counters the location pass and the remaining human lines give |
| AddFillers.Locations | egs/wsj/s5/utils/add_fillers_to_transcription.py:183-333 | the loop over location lines and the final pass give exactly that result |
| AddFillers.WriteRest | egs/wsj/s5/utils/add_fillers_to_transcription.py:321-332 | the remaining human lines are written and the line counters set |
| AddFillers.AppendHumans | egs/wsj/s5/utils/add_fillers_to_transcription.py:321-323 | the human lines after the cursor are appended in order |
| AddFillers.ProcessLine | egs/wsj/s5/utils/add_fillers_to_transcription.py:184-318 | the loop body goes on, stops or fails exactly as one location line does, with the same cursors, lines and counters |
| AddFillers.PlaceLine | egs/wsj/s5/utils/add_fillers_to_transcription.py:240-304 | the filler placement of the loop body fails exactly when it does in the model and never stops the loop |
| AddFillers.RunLine | egs/wsj/s5/utils/add_fillers_to_transcription.py:183-318 | one loop turn extends the result of the location lines before it, and a stop or failure settles the result of the whole list |
| AddFillers.AdvanceHuman | egs/wsj/s5/utils/add_fillers_to_transcription.py:208-210 | the human loop writes exactly the human lines it passes |
| AddFillers.AdvanceReseg | egs/wsj/s5/utils/add_fillers_to_transcription.py:219-223 | the decoded loop moves exactly to the first line not before the location |
| AddFillers.AdvanceSeg | egs/wsj/s5/utils/add_fillers_to_transcription.py:230-234 | the segment loop moves exactly to the first segment not ended before the location |
| AddFillers.LineOutcome | egs/wsj/s5/utils/add_fillers_to_transcription.py:183-319 | a location line that stops or fails the loop fixes the result of the whole list |
| AddFillers.Stays | egs/wsj/s5/utils/add_fillers_to_transcription.py:224-225 | once the loop has stopped or failed, later location lines change nothing |
| AddFillers.OutCount | egs/wsj/s5/utils/add_fillers_to_transcription.py:328-332 | every output line is a human line or a filler |
| AddFillers.RunAccounted | egs/wsj/s5/utils/add_fillers_to_transcription.py:183-319 | throughout the loop the output holds the human lines before the human cursor, in order, and as many fillers as counted, each from a decoded line |
| AddFillers.ResultAccounted | egs/wsj/s5/utils/add_fillers_to_transcription.py:321-332 | on success every human line is written once and in order, every other line is a counted filler made from a decoded line renamed to a bracketed name, and the output count is their sum |
| AddFillers.FinishAccounted | egs/wsj/s5/utils/add_fillers_to_transcription.py:321-332 | writing the remaining human lines completes that account |
| AddFillers.FillerAddedIff | egs/wsj/s5/utils/add_fillers_to_transcription.py:240-304 | an insertion adds one filler exactly when its word is a top insertion and it lies outside the segments or its neighbouring human and decoded words agree; otherwise nothing changes |
| AddFillers.HaltIff | egs/wsj/s5/utils/add_fillers_to_transcription.py:219-225 | the location loop stops exactly when the decoded cursor runs past the end of the decoded CTM |
| AddFillers.LineWidths | egs/wsj/s5/utils/add_fillers_to_transcription.py:186-202 | a location line of any width but six or seven fields fails; a substitution adds no filler and only counts itself |
| CombineConf.SecondarySystems | src/bin/combine-conf.cc:47-53 | the usage is accepted exactly for an even argument count of at least 4, and then names (count - 4) / 2 secondary systems |
| CombineConf.FirstMissing | src/bin/combine-conf.cc:108-142 | the system loop stops at the first secondary system lacking the utterance, and every system before it has it |
| CombineConf.Fitting | src/bin/combine-conf.cc:114-128 | only secondary vectors of the primary's length take part |
| CombineConf.WinnerUnique | src/bin/combine-conf.cc:129-134 | each frame's output comes from one system: the first with the largest weight |
| CombineConf.PrimaryOnly | src/bin/combine-conf.cc:105-106 | with no secondary system taking part the output is the primary system's vectors |
| CombineConf.CombinedIsMax | src/bin/combine-conf.cc:129-134 | every output weight is at least every participating system's weight at that frame |
| CombineConf.WinnersCombine | src/bin/combine-conf.cc:105-134 | a winning system at every frame makes the output the combination |
| CombineConf.TakeLarger | src/bin/combine-conf.cc:129-134 | the frame loop takes the new system's pdf and weight exactly where its weight is strictly larger, and keeps the rest |
| CombineConf.WinnerStep | src/bin/combine-conf.cc:129-134 | folding in one more system keeps each frame's winner unless the new weight is strictly larger, in which case the new system wins |
| CombineConf.CombineUtterance | src/bin/combine-conf.cc:105-143 | one utterance's output is the primary's vectors combined with the fitting secondaries before the first missing one; a missing system adds one to the missing count and each misfit one to the mismatch count |
| CombineConf.KeptExactly | src/bin/combine-conf.cc:101-104 | an utterance is written exactly when the primary system has weights of its length |
| CombineConf.CombineAll | src/bin/combine-conf.cc:90-174 | every kept utterance is written with its combined vectors, in reading order; the counters are the sums over utterances; the status is 0 exactly when something was written and the failures are fewer than the clean utterances |
| PdfCounts.UttFrames | src/bin/get-pdf-counts-on-ali.cc:67-73 | each frame pairs its pdf with its weight |
| PdfCounts.ReachBounds | src/bin/get-pdf-counts-on-ali.cc:74-76 | the histogram reaches past every pdf seen and no further than the largest |
| PdfCounts.HistogramTotal | src/bin/get-pdf-counts-on-ali.cc:73-80 | the histogram counts every frame above the threshold exactly once |
| PdfCounts.TallyBeyond | src/bin/get-pdf-counts-on-ali.cc:74-76 | no frame is counted at or beyond the histogram's length |
| PdfCounts.CountFrame | src/bin/get-pdf-counts-on-ali.cc:74-79 | adding a frame grows the histogram to its pdf and counts it when its weight is above the threshold, keeping the histogram exact |
| PdfCounts.CountUtterance | src/bin/get-pdf-counts-on-ali.cc:73-80 | after one utterance's frame loop the histogram is exact for the frames read so far |
| PdfCounts.GetPdfCounts | src/bin/get-pdf-counts-on-ali.cc:43-82 | fewer than 2 or more than 3 arguments exit with status 1; a weights vector of another length fails; otherwise "Counts" is written with, for each pdf, the number of frames aligned to it with weight above the threshold (weight 1 when no weights are read) |
| DiffIntVectors.Score | src/bin/diff-int-vectors.cc:68-72 | the score loop counts the positions where the vectors agree |
| DiffIntVectors.AgreementBounds | src/bin/diff-int-vectors.cc:68-72 | the score is at most the size and equals it exactly when the vectors are identical |
| DiffIntVectors.FractionMeaning | src/bin/diff-int-vectors.cc:73 | the written value is NaN for empty vectors and otherwise lies in [0, 1], being 1 exactly when the vectors are identical |
| DiffIntVectors.StepsPartition | src/bin/diff-int-vectors.cc:56-74 | every key read is written, missing or mismatched, and the three counts add up to the keys read |
| DiffIntVectors.DiffAll | src/bin/diff-int-vectors.cc:41-77 | any argument count but 3 exits with status 1; otherwise a value is written for every key with an equal-length vector in the second table, every key counts as done, and the status is 0 exactly when a key was read |
| AlignPdfPost.FirstMatchMeaning | src/bin/pdf-post-to-align-pdf-post.cc:73-79 | the entry loop finds the first entry with the aligned pdf, and finds nothing only when no entry has it |
| AlignPdfPost.LookupFrame | src/bin/pdf-post-to-align-pdf-post.cc:72-79 | one frame's weight is the found posterior or stays 0, and the posterior slot holds it or the not-found mark -1 |
| AlignPdfPost.ZeroCountFull | src/bin/pdf-post-to-align-pdf-post.cc:80-88 | the zero-posterior count reaches the frame count exactly when no frame has a usable posterior |
| AlignPdfPost.ConvertUtterance | src/bin/pdf-post-to-align-pdf-post.cc:67-84 | frame i becomes the single pair of its aligned pdf and that pdf's posterior, 0 when none is found (or the found posterior is the mark itself); the count is the number of such frames |
| AlignPdfPost.AlignedStep | src/bin/pdf-post-to-align-pdf-post.cc:54-58 | an utterance is processed exactly when it has an alignment |
| AlignPdfPost.WrittenStep | src/bin/pdf-post-to-align-pdf-post.cc:85-97 | writing one more utterance keeps outputs, averages and the error count in step with the aligned utterances |
| AlignPdfPost.AlignAll | src/bin/pdf-post-to-align-pdf-post.cc:25-104 | 3 to 5 arguments are accepted (else status 1); a length mismatch is fatal; every aligned utterance is written with its weights and average as the arguments ask, unaligned ones are counted, all-zero ones are errors, and the status is 0 exactly when some utterance was done |
| PostDecode.Chosen | src/bin/post-decode.cc:50-58 | the inner loop settles on the first entry after the first with the largest positive posterior, or none when no such entry is positive |
| PostDecode.ScanFrame | src/bin/post-decode.cc:50-58 | one frame's inner loop leaves that entry's pdf and weight, or what the slots held |
| PostDecode.DecodeUtteranceAsWritten | src/bin/post-decode.cc:49-59 | the frame loop as written produces the as-written alignment and the chosen weights |
| PostDecode.AsWrittenFacts | src/bin/post-decode.cc:49-59 | as written, position 0 of a multi-frame alignment holds the last frame's first pdf, and every other position the best entry after the first, or 0 |
| PostDecode.AsWrittenMisdecodes | src/bin/post-decode.cc:51 | a two-frame input the code decodes as 7, 8 where the highest posteriors give 5, 8 |
| PostDecode.Best | src/bin/post-decode.cc:14-15 | the first entry of highest posterior among the frame's entries |
| PostDecode.DecodeUtterance | src/bin/post-decode.cc:49-59 | the corrected frame loop writes each frame's highest-posterior pdf and its posterior |
| PostDecode.DecodedIsArgMax | src/bin/post-decode.cc:14-15 | each frame's decoded pdf has the highest posterior of the frame and is its first such entry |
| PostDecode.DecodeAll | src/bin/post-decode.cc:25-71 | as intended (Finding 3): 2 or 3 arguments are accepted (else status 1); every utterance is decoded and written, with weights when a third argument is given, and the status is 0 exactly when some utterance was done |
| InitialSegments.MarkFrame | egs/babel/s5/local/segmentation_nonoise_with_analysis.py:260-284 | one frame's turn sets its start marker exactly when a run of segment codes opens there and adds an end marker when one closes there, leaving every other marker as it was |
| Padding.ScanPosition | egs/babel/s5/local/segmentation_nonoise_with_analysis.py:336-348 | one position of the scan records each marker found there and tracks whether the next frame is inside a segment |
| Boundaries.WalkStep | egs/babel/s5/local/segmentation_nonoise_with_analysis.py:491-528 | each comparison of the two-index walk keeps the walk invariant and makes progress |
| Boundaries.RecordBoundary | egs/babel/s5/local/segmentation_nonoise_with_analysis.py:506-527 | a position that is both a segment end and a segment start is scored, ranked and passed |
| Merging.MarkAll | egs/babel/s5/local/segmentation_nonoise_with_analysis.py:475-478 | the marker is set at every listed position and only there |
| Emission.SegmentEnd | egs/babel/s5/local/segmentation_nonoise_with_analysis.py:855-860 | the inner scan stops at the segment's end marker, past its start, without passing another start |
| VadFilter.MarkFrames | egs/babel/s5b/local/post_process_segments_with_VAD.py:106-113 | one segment line grows the speech array to its end and marks its frames |
| VadFilter.MarkStart | egs/babel/s5b/local/post_process_segments_with_VAD.py:106-114 | one segment line grows the start array and marks its start |
| VadFilter.MarkEnd | egs/babel/s5b/local/post_process_segments_with_VAD.py:106-115 | one segment line grows the end array to one past its end and marks its end |
| VadFilter.TakeLine | egs/babel/s5b/local/post_process_segments_with_VAD.py:87-118 | one input line either prints the recording just closed (or stops the script when it cannot) and opens the next, or extends the current recording's frames |
| VadFilter.RemoveAt | egs/babel/s5b/local/post_process_segments_with_VAD.py:229-267 | one turn of the repair loop handles a whole run of code 2 or one frame, and keeps the repaired prefix as the run rules say |
| VadFilter.ReadFrom | egs/babel/s5b/local/post_process_segments_with_VAD.py:271-285 | one turn of the reading loop yields the long enough pieces starting at its frame and moves to the frame the script looks at next |
| VadFilter.ScanPiece | egs/babel/s5b/local/post_process_segments_with_VAD.py:274-276 | the inner scan stops at the first frame not kept or holding an end marker |
| RttmSegments.ReadCounted | egs/babel/s5b/local/resegment/get_RTTM_segments.py:41-67 | a counted record switches to its file when another is current and places its labels, keeping the reader's state in step with the records read |
| RttmSegments.RunEnd | egs/babel/s5b/local/resegment/get_RTTM_segments.py:128-130 | the inner scan stops just past the last frame of the run |

## Left out

Left out across the whole project:

- I/O is not modelled: option parsing, file opening, glob listings, Kaldi table readers and writers, and stderr logs, warnings, timers and statistics counters. Each program takes its inputs as already-parsed sequences and maps and returns what it would write.
- Malformed input lines are not modelled. These are lines with too few fields or numbers that do not parse, on which Python raises an exception. Every line is taken as well formed.
- Floating point is not modelled. Times in seconds are exact reals or whole hundredths and frame counts are whole frames. `int(x / frame_shift)` conversions, `%.2f` / `%.3f` formatting and float rounding in general are not captured.
- Several scripts sort their input first, with a stable sort by (recording, start time). This applies to `ctm2text.py` 53-60, `ctm2text_and_segments.py` 69-76 and `add_fillers_to_transcription.py` 135-137, 153-155 and 170-171. Their inputs are taken already in that order.
- When the order of a Python dict or of a glob listing matters, that order is a parameter. This applies to the recordings in `durations2segments.py` and the reference files in `get_RTTM_segments.py`.

The segmentation scripts:

- The `Analysis` class of `segmentation_nonoise_with_analysis.py` is not modelled. This covers confusion matrices against a reference RTTM, the per-phase statistics and the verbose reports, which only write to stderr. The reference padding in the constructor goes with it.
- `read_rttm_file` of `segmentation_nonoise_with_analysis.py` is not modelled. It only feeds that analysis; the labelling rule it shares is modelled from `get_RTTM_segments.py`.
- `set_silence_proportion_slow` is not modelled, because nothing calls it.
- Channel-file pairing in `segmentation_joint.py` (glob patterns and regular expressions over file names) is not modelled. The pair loop takes the two channels' labels and names. An exit inside a pair ends the whole script, so no later pair is run; the model covers one pair, and the lines printed for earlier pairs are not part of its outcome.
- SegmentationNonoise.JointResegmenter.constructor: the noise-removal option is a boolean. The source leaves the attribute unset, and fails later, for a value other than "true" or "false".
- SegmentationNonoise.JointResegmenter.Resegment and SegmentationJoint.JointResegmenter.Resegment require at least one frame, because the source reads the last frame's code. They require a hard cap of at least one frame, because the source divides by it. They require a target proportion below one, given as a fraction `propNum / propDen`, because the source divides by one minus it.
- SegmentationJoint.ResegmentPair requires labels 0, 1 or 2, non-empty channels and two different channel names. Other labels add no code in the source either.

The post-processing scripts:

- VadFilter.PostProcess requires segment lines with 0 <= start < end and VAD spans with non-negative frames. A negative padded VAD start, which Python would take as a slice from the end, is not modelled.
- DurationsSegments.Durations2Segments requires a positive segment length, because the source loops forever otherwise. The `end + 0.01` comparison and the `%.2f` times are modelled on whole hundredths.
- MergePred.MergePredictions takes the prediction files as a map from utterance id to labels.

The CTM scripts:

- CtmTextSegments.UttIdWidth holds for times below 10000 seconds, where `%06d` of hundredths is exactly six digits.
- AddFillers.AddFillers does not model failures of `int(...)` on the counts column. Its statistics are returned rather than printed to stderr.

The Kaldi binaries:

- PdfCounts.GetPdfCounts requires non-negative pdf ids. A negative id is compared as unsigned in the source and would grow the counts vector without bound. A weights vector of the wrong length fails the size assertion in the vector copy, which aborts the process; this is modelled as status -1.
- PostDecode.DecodeAll requires every frame to have at least one entry, because the source reads entry 0 of each frame unchecked. PostDecode.DecodeUtteranceAsWritten requires the same.
- DiffIntVectors and AlignPdfPost compute their ratios over exact reals. The NaN of 0/0 is modelled as a missing value.
- CombineConf.CombineAll does not return the utterance totals that the source only logs.
- PostDecode.DecodeAll: a run with two arguments is modelled as decoding without weights, as the usage text advertises. The source at `post-decode.cc` 30-32 reads the third argument without checking the count. Kaldi's ParseOptions is not part of this model, so whether that read fails, ending in the catch that returns -1 at lines 72-74, is not captured.

Fatal exits after partial output:

- VadFilter.PostProcess: an Exit outcome carries only the status. The groups the source has already printed before a missing VAD file or an empty group are not part of the outcome.
- RttmSegments.GetRttmSegments: an Exit outcome carries only the status. The runs of files already printed before a file without an in-segment frame are not part of the outcome.
- RttmSegments.PrintAll: an Exit outcome carries only the status. The runs already printed for earlier files are not part of the outcome.
- MergePred.MergePredictions: an Exit outcome carries only the status. The recordings already written before an utterance without a prediction file or an overlapping line are not part of the outcome.
- CtmFilter.FilterCtm: an Exit outcome carries only the status. The words already written before the segments run out are not part of the outcome.
- AlignPdfPost.AlignAll: an Exit outcome carries only the status. The utterances already written before one whose alignment has another length are not part of the outcome.

## Findings

| source | as written | input that shows it | evidently intended | confidence | as-written member | corrected member |
|---|---|---|---|---|---|---|
| egs/babel/s5/local/segmentation_nonoise_with_analysis.py:694 | the number of pieces is `int(len / hard + 0.99999)`, which falls short of the ceiling when len/hard is just above a whole number | a 200001-frame segment with a 200000-frame cap gets one piece and stays longer than the cap | `ceil(len / hard)` pieces, so that every piece is within the cap | not executed | Splitting.PiecesAsWrittenTooFew | Splitting.PiecesAgree |
| egs/babel/s5/local/segmentation_joint.py:538-545 | the two resegmenter runs sit inside the `else` of the length test, so channels whose lengths differ by more than 40 frames are coded alone and never resegmented or printed | channels of 42 frames and 1 frame | both channels resegmented and printed after either coding | not executed | ChannelCodes.IsolatedPairDropped | ChannelCodes.PairJobsCoverBoth |
| src/bin/post-decode.cc:51 | `alignment[0]` is overwritten with each frame's first pdf, and entry 0 of a frame is never compared with the others | frames [(5, 0.9)] and [(7, 0.2), (8, 0.8)] give the alignment [7, 8] | each frame gets the pdf with the highest posterior: 5 and 8 | not executed | PostDecode.AsWrittenMisdecodes | PostDecode.DecodedIsArgMax |
| egs/babel/s5b/local/resegment/get_RTTM_segments.py:41-49 | a file met again after another file reloads its stored labels and appends them, with everything placed since, to the file without a separator | one speech frame each for file a, then b, then a leaves the words "22" "2" for a | the labels ["2", "2"] for a | not executed | RttmSegments.RevisitedFileGarbled | RttmSegments.ReadRttm |
| egs/babel/s5b/local/post_process_segments_with_VAD.py:234 | the run length in frames is compared with `--non-speech-threshold`, a value in seconds | with the default 1-second threshold and 10 ms frames, a 2-frame pause that the VAD rejects inside a segment is cut out | compare with the threshold over the frame shift (100 frames), keeping the pause | not executed | VadFilter.ShortGapCutAsWritten | VadFilter.GapRemovedIffLong |
| egs/wsj/s5/utils/ctm2text_and_segments.py:115 | a filler before the first segment takes its lower bound from `segments_lines[seg_ptr-1]`, which for the first segment is the last segment of the file | segments u1 a 5-10 and u2 a 50-100, filler a 1.0-1.5: the new segment runs from 100.0 to 1.8 | no lower bound from a segment that does not exist: the segment runs from 0.7 to 1.8 | not executed | CtmTextSegments.FirstFillerInverted | CtmTextSegments.FillerHoldsWord |
| egs/babel/s5/local/segmentation_joint.py:275 | the same piece count `int(len / hard + 0.99999)` in the joint resegmenter's split, which falls short of the ceiling when len/hard is just above a whole number | a 200001-frame segment with a 200000-frame cap gets one piece and stays longer than the cap | `ceil(len / hard)` pieces, so that every piece is within the cap | not executed | Splitting.PiecesAsWrittenTooFew | Splitting.PiecesAgree |
| egs/wsj/s5/utils/ctm2text_and_segments.py:115 | a filler before the first segment of a later recording takes its lower bound from `segments_lines[seg_ptr-1]`, the last segment of the previous recording | segments u1 a 50-100 and u2 b 5-10, filler b 1.0-1.5: the new segment runs from 100.0 to 1.8 | clip only against a previous segment of the same recording: the segment runs from 0.7 to 1.8 | not executed | CtmTextSegments.LaterRecordingInverted | CtmTextSegments.FillerHoldsWord |
