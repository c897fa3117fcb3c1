/**
 * The resegmenter of one channel of a two-channel conversation. Its codes
 * combine both channels' predictions (see ChannelCodes); it holds the codes
 * B, their working copy A, and the segment markers S and E, and runs the
 * phases of resegment on them in place. It has no pause policy and always
 * drops the segments without speech.
 */
module SegmentationJoint {
  import opened Markers
  import opened FrameCodes
  import opened SegmentState
  import opened Outcomes
  import InitialSegments
  import Padding
  import Merging
  import Splitting
  import Removal
  import Restriction
  import Emission
  import ZeroPadding
  import ChannelCodes

  class JointResegmenter {
    var B: seq<int>
    var A: seq<int>
    var S: seq<bool>
    var E: seq<bool>
    const fileId: string
    /** Soft length cap of merging and hard cap of splitting, in frames. */
    const maxFrames: int
    const hardMaxFrames: int
    /** The silence proportion as the fraction propNum / propDen. */
    const propNum: nat
    const propDen: nat

    /** No frame is in a segment yet. */
    predicate Unsegmented()
      reads this
    {
      S == seq(|A|, _ => false) && E == seq(|A| + 1, _ => false)
    }

    constructor (codes: seq<int>, f: string, maxFrames: int, hardMaxFrames: int, propNum: nat, propDen: nat)
      ensures B == codes && A == codes && Unsegmented()
      ensures this.fileId == f && this.maxFrames == maxFrames && this.hardMaxFrames == hardMaxFrames
      ensures this.propNum == propNum && this.propDen == propDen
    {
      B, A := codes, codes;
      S, E := seq(|codes|, _ => false), seq(|codes| + 1, _ => false);
      fileId := f;
      this.maxFrames, this.hardMaxFrames := maxFrames, hardMaxFrames;
      this.propNum, this.propDen := propNum, propDen;
    }

    /** Every run of one segment code (noise or speech of this channel) becomes a segment. */
    method GetInitialSegments()
      modifies this
      requires |A| >= 1 && (forall i :: 0 <= i < |A| ==> InputCode(A[i])) && Unsegmented()
      ensures A == old(A) && B == old(B) && |S| == |A| && |E| == |A| + 1
      ensures forall i :: 0 <= i < |A| ==> (S[i] <==> InitialSegments.RunStart(Joint, A, i))
      ensures forall j :: 0 <= j <= |A| ==> (E[j] <==> InitialSegments.RunEnd(Joint, A, j))
      ensures Padded(Joint, A, A, S, E) && CountTrue(S) == CountTrue(E)
    {
      var S', E' := InitialSegments.GetInitialSegments(Joint, A);
      S, E := S', E';
    }

    /**
     * Pads segments with neighbouring silence until the segments hold
     * int(frames / (1 - proportion)) frames, and stops there, or until
     * nothing more can be absorbed.
     */
    method SetSilenceProportion()
      modifies this
      requires A == B && Padded(Joint, A, B, S, E) && propNum < propDen
      ensures B == old(B) && Padded(Joint, A, B, S, E) && CountTrue(S) == CountTrue(E)
      ensures forall i :: 0 <= i < |A| && Open(old(S), old(E), i) ==> Open(S, E, i)
      ensures CoveredCount(S, E) >= Padding.TargetFrames(CoveredCount(old(S), old(E)), propNum, propDen) || Saturated(S, E)
      ensures CoveredCount(old(S), old(E)) <= CoveredCount(S, E) <= Padding.TargetFrames(CoveredCount(old(S), old(E)), propNum, propDen)
    {
      var frames, active := Padding.ScanSegments(S, E);
      var target := Padding.TargetFrames(frames, propNum, propDen);
      var A', S', E', total := Padding.PadSegments(Joint, B, S, E, active, frames, target);
      A, S, E := A', S', E';
    }

    /** Joins segments at ranked boundaries while the joined segment stays below maxFrames. */
    method MergeSegments()
      modifies this
      requires Padded(Joint, A, B, S, E) && |A| >= 1
      ensures A == old(A) && B == old(B)
      ensures WellFormed(S, E) && |S| == |A| && CountTrue(S) == CountTrue(E)
      ensures forall x :: 0 <= x < |A| && S[x] ==> old(S)[x]
      ensures forall x :: 0 <= x <= |A| && E[x] ==> old(E)[x]
      ensures forall s :: 0 <= s < |A| && S[s] ==> SegEnd(E, s) == SegEnd(old(E), s) || SegEnd(E, s) - s < maxFrames
      ensures forall x :: 0 <= x < |A| ==> Open(S, E, x) == Open(old(S), old(E), x)
    {
      var S', E' := Merging.MergeSegments(Joint, A, B, S, E, 0, maxFrames);
      S, E := S', E';
    }

    /** Cuts every segment longer than hardMaxFrames into equal pieces. */
    method SplitLongSegments()
      modifies this
      requires WellFormed(S, E) && |S| == |A| && hardMaxFrames >= 1
      ensures A == old(A) && B == old(B)
      ensures WellFormed(S, E) && |S| == |A| && CountTrue(S) == CountTrue(E)
      ensures forall x :: 0 <= x < |A| ==> Open(S, E, x) == Open(old(S), old(E), x)
      ensures Splitting.CutsInside(Joint, A, old(S), old(E), S, E, hardMaxFrames)
      ensures forall s :: 0 <= s < |A| && S[s] ==> SegEnd(E, s) - s <= hardMaxFrames
    {
      var S', E' := Splitting.SplitLongSegments(Joint, A, S, E, hardMaxFrames);
      S, E := S', E';
    }

    /** Drops the segments without a speech frame of this channel. */
    method RemoveNoiseOnlySegments()
      modifies this
      requires WellFormed(S, E) && |S| == |A|
      ensures A == old(A) && B == old(B)
      ensures WellFormed(S, E) && |S| == |A| && CountTrue(S) == CountTrue(E)
      ensures forall x :: 0 <= x < |A| ==>
        S[x] == (old(S)[x] && exists i :: x <= i < SegEnd(old(E), x) && 0 <= i < |A| && Speech(A[i]))
      ensures forall x :: 0 <= x < |A| && Open(S, E, x) ==> Open(old(S), old(E), x)
      ensures forall s :: 0 <= s < |A| && S[s] ==> old(S)[s] && SegEnd(E, s) == SegEnd(old(E), s)
      ensures forall s :: 0 <= s < |A| && S[s] ==> exists i :: s <= i < SegEnd(E, s) && 0 <= i < |A| && Speech(A[i])
      ensures forall x :: 0 <= x < |A| && Open(old(S), old(E), x) && Speech(A[x]) ==> Open(S, E, x)
    {
      var S', E' := Removal.RemoveNoiseOnly(A, S, E);
      S, E := S', E';
    }

    /**
     * The whole resegmentation: every segment is at most hardMaxFrames long
     * and holds a speech frame of this channel, only frames whose code is
     * covered are in segments, and every speech frame of this channel is in
     * one.
     */
    method Resegment()
      modifies this
      requires |A| >= 1 && (forall i :: 0 <= i < |A| ==> InputCode(A[i])) && A == B && Unsegmented()
      requires propNum < propDen && hardMaxFrames >= 1
      ensures B == old(B) && CodesTrack(Joint, A, B)
      ensures WellFormed(S, E) && |S| == |A| && CountTrue(S) == CountTrue(E)
      ensures forall s :: 0 <= s < |A| && S[s] ==> SegEnd(E, s) - s <= hardMaxFrames
      ensures forall s :: 0 <= s < |A| && S[s] ==> exists i :: s <= i < SegEnd(E, s) && 0 <= i < |A| && Speech(A[i])
      ensures forall x :: 0 <= x < |A| && Open(S, E, x) ==> Covered(Joint, A[x])
      ensures forall x :: 0 <= x < |A| && Speech(B[x]) ==> Open(S, E, x)
    {
      GetInitialSegments();
      SetSilenceProportion();
      ghost var S1, E1 := S, E;
      MergeSegments();
      ghost var S2, E2 := S, E;
      SplitLongSegments();
      ghost var S3, E3 := S, E;
      CoverageKept(A, S1, E1, S2, E2, S3, E3);
      SpeechCovered(A, B, S3, E3);
      RemoveNoiseOnlySegments();
    }

    /** Cuts the recording back to its first n frames, closing a segment left open across the cut. */
    method Restrict(n: int)
      modifies this
      requires WellFormed(S, E) && |A| == |B| == |S| && 0 <= n <= |S|
      ensures B == old(B)[..n] && A == old(A)[..n]
      ensures |S| == n && WellFormed(S, E)
      ensures forall x :: 0 <= x < n ==> S[x] == old(S)[x] && E[x] == old(E)[x]
      ensures E[n] == (old(E)[n] || Open(old(S), old(E), n - 1))
      ensures forall x :: -1 <= x < n ==> Open(S, E, x) == Open(old(S), old(E), x)
      ensures (S, E) == Restriction.Restricted(old(S), old(E), n)
    {
      var S', E' := S[..n], E[..n + 1];
      if CountTrue(S') == CountTrue(E') + 1 {
        E' := E'[n := true];
      }
      ghost var SE := Restriction.Restricted(S, E, n);
      assert (S', E') == SE;
      B, A, S, E := B[..n], A[..n], S', E';
    }

    /**
     * The segments as (start, end) frame pairs with their printed lines, or
     * exit status 1 when there are none; hundredths is the frame shift in
     * hundredths of a second.
     */
    method PrintSegments(hundredths: int, sep: (string, string)) returns (r: Outcome<ZeroPadding.Printed>)
      requires WellFormed(S, E)
      ensures r.Done? <==> exists s :: 0 <= s < |S| && S[s]
      ensures r.Exit? ==> r.code == 1
      ensures r.Done? ==> Emission.ListsSegments(S, E, r.value.segments) && Emission.Disjoint(r.value.segments, |S|)
      ensures r.Done? ==> forall x :: 0 <= x < |S| ==> (Open(S, E, x) <==> Emission.InSomePair(r.value.segments, x))
      ensures r.Done? ==> ZeroPadding.PrintedAs(r.value, fileId, r.value.segments, hundredths, sep)
    {
      r := Emission.PrintNamed(S, E, fileId, hundredths, sep);
    }
  }

  /** Where coverage follows the padded codes, every speech frame is covered and kept its code. */
  lemma SpeechCovered(A: seq<int>, B: seq<int>, S: seq<bool>, E: seq<bool>)
    requires CodesTrack(Joint, A, B) && Shaped(S, E) && |S| == |A|
    requires forall x :: 0 <= x < |A| ==> (Open(S, E, x) <==> Covered(Joint, A[x]))
    ensures forall x :: 0 <= x < |A| && Speech(B[x]) ==> Open(S, E, x) && Speech(A[x])
  {
    forall x | 0 <= x < |A| && Speech(B[x])
      ensures Open(S, E, x) && Speech(A[x])
    {
      CoveredCodes(Joint, B[x]);
    }
  }

  /** Merging and splitting leave the padded coverage as it was. */
  lemma CoverageKept(A: seq<int>, S1: seq<bool>, E1: seq<bool>, S2: seq<bool>, E2: seq<bool>,
                     S3: seq<bool>, E3: seq<bool>)
    requires CoverageMatchesCodes(Joint, A, S1, E1) && Shaped(S2, E2) && Shaped(S3, E3) && |S2| == |S3| == |A|
    requires forall x :: 0 <= x < |A| ==> Open(S2, E2, x) == Open(S1, E1, x)
    requires forall x :: 0 <= x < |A| ==> Open(S3, E3, x) == Open(S2, E2, x)
    ensures forall x :: 0 <= x < |A| ==> (Open(S3, E3, x) <==> Covered(Joint, A[x]))
  {
    forall x | 0 <= x < |A|
      ensures Open(S3, E3, x) <==> Covered(Joint, A[x])
    {
      assert CoveredAt(Joint, A, S1, E1, x);
    }
  }

  /** The number of frames a job prints: all of its codes, or the cut-back length. */
  function JobFrames(job: ChannelCodes.Job): int
  {
    if job.restrictTo.Some? then job.restrictTo.value else |job.codes|
  }

  /**
   * What the run of a job prints, given the codes padding left in its
   * frames and the final markers S, E: exit status 1 exactly when no frame
   * is left in a segment, or, for the job's file, disjoint segments of the
   * job's (cut-back) recording holding exactly the frames the markers put
   * in segments. Those frames have covered padded codes, every frame the
   * input codes call speech of this channel is among them, each segment is
   * at most hardMaxFrames long, and every segment the cut did not shorten
   * holds a speech frame.
   */
  ghost predicate JobPrinted(job: ChannelCodes.Job, hardMaxFrames: int, padded: seq<int>,
                             S: seq<bool>, E: seq<bool>, r: Outcome<ZeroPadding.Printed>)
  {
    JobCodes(job, padded) && JobMarkers(job, padded, S, E) && JobExit(S, E, r) &&
    JobSegments(job, hardMaxFrames, padded, S, E, r)
  }

  /** padded holds the job's codes after padding, over the frames the job prints. */
  ghost predicate JobCodes(job: ChannelCodes.Job, padded: seq<int>)
  {
    |padded| == JobFrames(job) <= |job.codes| && CodesTrack(Joint, padded, job.codes[..|padded|])
  }

  /** The markers put only covered padded codes in segments, and every speech frame of the channel. */
  ghost predicate JobMarkers(job: ChannelCodes.Job, padded: seq<int>, S: seq<bool>, E: seq<bool>)
  {
    |padded| <= |job.codes| && WellFormed(S, E) && |S| == |padded| &&
    (forall x :: 0 <= x < |padded| && Open(S, E, x) ==> Covered(Joint, padded[x])) &&
    (forall x :: 0 <= x < |padded| && Speech(job.codes[x]) ==> Open(S, E, x))
  }

  /** The printer exits, with status 1, exactly when no frame is left in a segment. */
  ghost predicate JobExit(S: seq<bool>, E: seq<bool>, r: Outcome<ZeroPadding.Printed>)
  {
    Shaped(S, E) && (r.Exit? <==> forall x :: 0 <= x < |S| ==> !Open(S, E, x)) && (r.Exit? ==> r.code == 1)
  }

  /**
   * The printed segments belong to the job's file, are disjoint, hold
   * exactly the frames in segments, stay within the cap and, unless the
   * cut shortened them, hold a speech frame.
   */
  ghost predicate JobSegments(job: ChannelCodes.Job, hardMaxFrames: int, padded: seq<int>,
                              S: seq<bool>, E: seq<bool>, r: Outcome<ZeroPadding.Printed>)
  {
    |padded| <= |job.codes| && Shaped(S, E) && |S| == |padded| &&
    (r.Done? ==>
      var segs := r.value.segments;
      r.value.reco == job.file && Emission.Disjoint(segs, |padded|) &&
      (forall x :: 0 <= x < |padded| ==> (Open(S, E, x) <==> Emission.InSomePair(segs, x))) &&
      (forall k :: 0 <= k < |segs| ==> segs[k].1 - segs[k].0 <= hardMaxFrames) &&
      (forall k :: 0 <= k < |segs| && (job.restrictTo.None? || segs[k].1 < |padded|) ==>
        exists i :: segs[k].0 <= i < segs[k].1 && Speech(job.codes[i])) &&
      (forall x :: 0 <= x < |padded| && Emission.InSomePair(segs, x) ==> Covered(Joint, padded[x])))
  }

  /**
   * A run that is not cut back exits exactly when its codes hold no speech
   * frame of the channel; a cut-back run whose kept frames hold speech
   * prints.
   */
  lemma JobExitIff(job: ChannelCodes.Job, hardMaxFrames: int, padded: seq<int>,
                   S: seq<bool>, E: seq<bool>, r: Outcome<ZeroPadding.Printed>)
    requires JobPrinted(job, hardMaxFrames, padded, S, E, r)
    ensures (exists x :: 0 <= x < |padded| && Speech(job.codes[x])) ==> r.Done?
    ensures job.restrictTo.None? ==> (r.Exit? <==> forall x :: 0 <= x < |padded| ==> !Speech(job.codes[x]))
  {
    if x :| 0 <= x < |padded| && Speech(job.codes[x]) {
      assert Open(S, E, x);
    }
    if job.restrictTo.None? && r.Done? {
      var segs := r.value.segments;
      var x :| 0 <= x < |padded| && Open(S, E, x);
      assert Emission.InSomePair(segs, x);
      var k :| 0 <= k < |segs| && segs[k].0 <= x < segs[k].1;
      var i :| segs[k].0 <= i < segs[k].1 && Speech(job.codes[i]);
      assert Emission.InSomePair(segs, i);
    }
  }

  /**
   * Runs one job of a pair: resegments the job's codes, cuts them back when
   * the job says so, and prints the segments. padded, S and E are the job's
   * codes after padding and its final markers, cut back like them.
   */
  method RunJob(job: ChannelCodes.Job, maxFrames: int, hardMaxFrames: int, propNum: nat, propDen: nat,
                hundredths: int, sep: (string, string))
    returns (r: Outcome<ZeroPadding.Printed>, ghost padded: seq<int>, ghost S: seq<bool>, ghost E: seq<bool>)
    requires |job.codes| >= 1 && forall i :: 0 <= i < |job.codes| ==> InputCode(job.codes[i])
    requires job.restrictTo.Some? ==> 0 <= job.restrictTo.value <= |job.codes|
    requires propNum < propDen && hardMaxFrames >= 1
    ensures JobPrinted(job, hardMaxFrames, padded, S, E, r)
  {
    var seg := new JointResegmenter(job.codes, job.file, maxFrames, hardMaxFrames, propNum, propDen);
    seg.Resegment();
    ghost var A0, S0, E0 := seg.A, seg.S, seg.E;
    assert Resegmented(A0, S0, E0, job.codes, hardMaxFrames);
    if job.restrictTo.Some? {
      seg.Restrict(job.restrictTo.value);
      ghost var A, S', E', B := seg.A, seg.S, seg.E, seg.B;
      r := seg.PrintSegments(hundredths, sep);
      padded, S, E := A, S', E';
      JobPrintedFrom(job, hardMaxFrames, A0, S0, E0, A, S', E', B, r);
    } else {
      r := seg.PrintSegments(hundredths, sep);
      padded, S, E := A0, S0, E0;
      JobPrintedFrom(job, hardMaxFrames, A0, S0, E0, A0, S0, E0, job.codes, r);
    }
  }

  /** What Resegment leaves, stated on values: codes, markers, cap, speech and coverage. */
  ghost predicate Resegmented(A0: seq<int>, S0: seq<bool>, E0: seq<bool>, codes: seq<int>, hard: int)
  {
    CodesTrack(Joint, A0, codes) && WellFormed(S0, E0) && |S0| == |A0| &&
    (forall s :: 0 <= s < |A0| && S0[s] ==> SegEnd(E0, s) - s <= hard) &&
    (forall s :: 0 <= s < |A0| && S0[s] ==> exists i :: s <= i < SegEnd(E0, s) && 0 <= i < |A0| && Speech(A0[i])) &&
    (forall x :: 0 <= x < |A0| && Open(S0, E0, x) ==> Covered(Joint, A0[x])) &&
    (forall x :: 0 <= x < |A0| && Speech(codes[x]) ==> Open(S0, E0, x))
  }

  /** The facts the phases of a run leave, stated on values, give what the job prints. */
  lemma JobPrintedFrom(job: ChannelCodes.Job, hard: int, A0: seq<int>, S0: seq<bool>, E0: seq<bool>,
                       A: seq<int>, S: seq<bool>, E: seq<bool>, B: seq<int>, r: Outcome<ZeroPadding.Printed>)
    requires job.restrictTo.Some? ==> 0 <= job.restrictTo.value <= |job.codes|
    requires Resegmented(A0, S0, E0, job.codes, hard)
    requires job.restrictTo.None? ==> (A, S, E, B) == (A0, S0, E0, job.codes)
    requires job.restrictTo.Some? ==>
      var n := job.restrictTo.value;
      B == job.codes[..n] && A == A0[..n] && |S| == n && WellFormed(S, E) &&
      (forall x :: 0 <= x < n ==> S[x] == S0[x] && E[x] == E0[x]) &&
      (forall x :: -1 <= x < n ==> Open(S, E, x) == Open(S0, E0, x))
    requires WellFormed(S, E)
    requires r.Done? <==> exists s :: 0 <= s < |S| && S[s]
    requires r.Exit? ==> r.code == 1
    requires r.Done? ==> r.value.reco == job.file
    requires r.Done? ==> Emission.ListsSegments(S, E, r.value.segments) && Emission.Disjoint(r.value.segments, |S|)
    requires r.Done? ==> forall x :: 0 <= x < |S| ==> (Open(S, E, x) <==> Emission.InSomePair(r.value.segments, x))
    ensures JobPrinted(job, hard, A, S, E, r)
  {
    CutMarkers(job, A0, S0, E0, A, S, E, hard);
    ExitIffNoSegment(S, E, r);
    PrintedSegments(job, hard, A0, S0, E0, A, S, E, r);
  }

  /** Cutting the markers back to the frames the job prints keeps covered codes and speech frames in segments. */
  lemma CutMarkers(job: ChannelCodes.Job, A0: seq<int>, S0: seq<bool>, E0: seq<bool>,
                   A: seq<int>, S: seq<bool>, E: seq<bool>, hard: int)
    requires Resegmented(A0, S0, E0, job.codes, hard)
    requires |A| == JobFrames(job) <= |A0| && A == A0[..|A|] && WellFormed(S, E) && |S| == |A|
    requires forall x :: 0 <= x < |A| ==> Open(S, E, x) == Open(S0, E0, x)
    ensures JobCodes(job, A) && JobMarkers(job, A, S, E)
  {
  }

  /** The listing printed for the cut-back markers meets what the job prints. */
  lemma PrintedSegments(job: ChannelCodes.Job, hard: int, A0: seq<int>, S0: seq<bool>, E0: seq<bool>,
                        A: seq<int>, S: seq<bool>, E: seq<bool>, r: Outcome<ZeroPadding.Printed>)
    requires Resegmented(A0, S0, E0, job.codes, hard)
    requires |A| <= |A0| && A == A0[..|A|] && WellFormed(S, E) && |S| == |A|
    requires job.restrictTo.None? ==> S == S0 && E == E0
    requires forall x :: 0 <= x < |A| ==> S[x] == S0[x] && E[x] == E0[x]
    requires forall x :: 0 <= x < |A| ==> Open(S, E, x) == Open(S0, E0, x)
    requires r.Done? ==> r.value.reco == job.file
    requires r.Done? ==> Emission.ListsSegments(S, E, r.value.segments) && Emission.Disjoint(r.value.segments, |S|)
    requires r.Done? ==> forall x :: 0 <= x < |S| ==> (Open(S, E, x) <==> Emission.InSomePair(r.value.segments, x))
    ensures JobSegments(job, hard, A, S, E, r)
  {
    if r.Done? {
      var segs := r.value.segments;
      CutSegments(A0, S0, E0, A, S, E, segs, job.codes, hard, job.restrictTo.Some?);
      forall k | 0 <= k < |segs| && (job.restrictTo.None? || segs[k].1 < |A|)
        ensures exists i :: segs[k].0 <= i < segs[k].1 && Speech(job.codes[i])
      {
        assert !job.restrictTo.Some? || segs[k].1 < |A|;
      }
    }
  }

  /** The printer exits exactly when no frame is left in a segment. */
  lemma ExitIffNoSegment(S: seq<bool>, E: seq<bool>, r: Outcome<ZeroPadding.Printed>)
    requires WellFormed(S, E)
    requires r.Done? <==> exists s :: 0 <= s < |S| && S[s]
    ensures r.Exit? <==> forall x :: 0 <= x < |S| ==> !Open(S, E, x)
  {
    if r.Done? {
      var s :| 0 <= s < |S| && S[s];
      assert 0 <= s < |S| && Open(S, E, s);
      assert exists x :: 0 <= x < |S| && Open(S, E, x);
    } else {
      forall x | 0 <= x < |S| ensures !Open(S, E, x) {
        if Open(S, E, x) {
          CoveredHasStart(S, E, x);
        }
      }
    }
  }

  /**
   * The segments listed after cutting the resegmented markers back to n
   * frames (or not cutting them) keep the guarantees of Resegment: the
   * cap, speech in every segment the cut left whole, and covered codes.
   */
  lemma CutSegments(A0: seq<int>, S0: seq<bool>, E0: seq<bool>, A: seq<int>, S: seq<bool>, E: seq<bool>,
                    segs: seq<(int, int)>, codes: seq<int>, hard: int, cut: bool)
    requires CodesTrack(Joint, A0, codes) && WellFormed(S0, E0) && |S0| == |A0|
    requires forall s :: 0 <= s < |A0| && S0[s] ==> SegEnd(E0, s) - s <= hard
    requires forall s :: 0 <= s < |A0| && S0[s] ==> exists i :: s <= i < SegEnd(E0, s) && 0 <= i < |A0| && Speech(A0[i])
    requires forall x :: 0 <= x < |A0| && Open(S0, E0, x) ==> Covered(Joint, A0[x])
    requires |A| <= |A0| && A == A0[..|A|] && WellFormed(S, E) && |S| == |A|
    requires !cut ==> S == S0 && E == E0
    requires forall x :: 0 <= x < |A| ==> S[x] == S0[x] && E[x] == E0[x]
    requires forall x :: 0 <= x < |A| ==> Open(S, E, x) == Open(S0, E0, x)
    requires Emission.ListsSegments(S, E, segs) && Emission.Disjoint(segs, |A|)
    requires forall x :: 0 <= x < |A| ==> (Open(S, E, x) <==> Emission.InSomePair(segs, x))
    ensures forall k :: 0 <= k < |segs| ==> segs[k].1 - segs[k].0 <= hard
    ensures forall k :: 0 <= k < |segs| && (!cut || segs[k].1 < |A|) ==>
      exists i :: segs[k].0 <= i < segs[k].1 && Speech(codes[i])
    ensures forall x :: 0 <= x < |A| && Emission.InSomePair(segs, x) ==> Covered(Joint, A[x])
  {
    forall k | 0 <= k < |segs|
      ensures segs[k].1 - segs[k].0 <= hard
      ensures !cut || segs[k].1 < |A| ==> exists i :: segs[k].0 <= i < segs[k].1 && Speech(codes[i])
    {
      var s := segs[k].0;
      NextEndCut(E0, E, |A|, s + 1);
      if !cut || segs[k].1 < |A| {
        var i :| s <= i < SegEnd(E0, s) && 0 <= i < |A0| && Speech(A0[i]);
        assert Speech(codes[i]);
      }
    }
  }

  /**
   * Scanning a cut-back end array finds no later end than the full one,
   * and the same end when it stops before the cut.
   */
  lemma NextEndCut(E0: seq<bool>, E: seq<bool>, n: int, from: int)
    requires |E| == n + 1 <= |E0| && 0 <= from <= n + 1
    requires forall x :: 0 <= x < n ==> E[x] == E0[x]
    ensures NextEnd(E, from) <= n ==> NextEnd(E, from) <= NextEnd(E0, from)
    ensures NextEnd(E, from) < n ==> NextEnd(E0, from) == NextEnd(E, from)
  {
    var p := NextEnd(E, from);
    if p < n {
      NextEndUnique(E0, from, p);
    }
  }

  /**
   * The pair loop of main for one conversation, with the runs as
   * evidently intended: every channel's recording is resegmented and its
   * segments printed, whether the channels were coded jointly or alone.
   * A run that finds no segment exits the whole script, so the second
   * channel is run only when the first one printed. states holds each
   * run's padded codes and final markers.
   */
  method ResegmentPair(A1: seq<int>, f1: string, A2: seq<int>, f2: string,
                       maxFrames: int, hardMaxFrames: int, propNum: nat, propDen: nat,
                       hundredths: int, sep: (string, string))
    returns (out: seq<(string, Outcome<ZeroPadding.Printed>)>, ghost states: seq<(seq<int>, seq<bool>, seq<bool>)>)
    requires ChannelCodes.AllLabels(A1) && ChannelCodes.AllLabels(A2) && f1 != f2
    requires |A1| >= 1 && |A2| >= 1
    requires propNum < propDen && hardMaxFrames >= 1
    ensures 1 <= |out| <= 2 && (|out| == 1 <==> out[0].1.Exit?)
    ensures |out| == 2 ==> {out[0].0, out[1].0} == {f1, f2}
    ensures var jobs := ChannelCodes.PairJobs(A1, f1, A2, f2);
      |states| == |out| &&
      forall k :: 0 <= k < |out| ==>
        out[k].0 == jobs[k].file && JobPrinted(jobs[k], hardMaxFrames, states[k].0, states[k].1, states[k].2, out[k].1)
  {
    var jobs := ChannelCodes.PairJobs(A1, f1, A2, f2);
    ChannelCodes.PairJobsCoverBoth(A1, f1, A2, f2);
    var r, padded, S, E := RunJob(jobs[0], maxFrames, hardMaxFrames, propNum, propDen, hundredths, sep);
    out, states := [(jobs[0].file, r)], [(padded, S, E)];
    if r.Done? {
      r, padded, S, E := RunJob(jobs[1], maxFrames, hardMaxFrames, propNum, propDen, hundredths, sep);
      out, states := out + [(jobs[1].file, r)], states + [(padded, S, E)];
    }
  }
}
