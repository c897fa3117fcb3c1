/**
 * The speech-based resegmenter of one recording. It holds the recording's
 * frame codes B, their working copy A (padding converts absorbed frames
 * to code + 9), and the segment markers S (start at frame i) and E (end
 * before frame j), and runs the phases of resegment on them in place.
 */
module SegmentationNonoise {
  import opened Markers
  import opened FrameCodes
  import opened SegmentState
  import opened Outcomes
  import InitialSegments
  import Padding
  import Merging
  import Splitting
  import Removal
  import Restriction
  import Emission
  import ZeroPadding

  class JointResegmenter {
    var B: seq<int>
    var A: seq<int>
    var S: seq<bool>
    var E: seq<bool>
    const fileId: string
    /** Soft length cap of merging and hard cap of splitting, in frames. */
    const maxFrames: int
    const hardMaxFrames: int
    /** Minimum inter-utterance pause in frames; above 0 it switches on the pause policy. */
    const minInter: int
    const removeNoise: bool
    /** The non-speech proportion as the fraction propNum / propDen. */
    const propNum: nat
    const propDen: nat

    /** No frame is in a segment yet. */
    predicate Unsegmented()
      reads this
    {
      S == seq(|A|, _ => false) && E == seq(|A| + 1, _ => false)
    }

    constructor (codes: seq<int>, f: string, maxFrames: int, hardMaxFrames: int, minInter: int,
                 removeNoise: bool, propNum: nat, propDen: nat)
      ensures B == codes && A == codes && Unsegmented()
      ensures this.fileId == f && this.maxFrames == maxFrames && this.hardMaxFrames == hardMaxFrames
      ensures this.minInter == minInter && this.removeNoise == removeNoise
      ensures this.propNum == propNum && this.propDen == propDen
    {
      B, A := codes, codes;
      S, E := seq(|codes|, _ => false), seq(|codes| + 1, _ => false);
      fileId := f;
      this.maxFrames, this.hardMaxFrames, this.minInter := maxFrames, hardMaxFrames, minInter;
      this.removeNoise, this.propNum, this.propDen := removeNoise, propNum, propDen;
    }

    /** Every run of one segment code becomes a segment. */
    method GetInitialSegments()
      modifies this
      requires |A| >= 1 && (forall i :: 0 <= i < |A| ==> InputCode(A[i])) && Unsegmented()
      ensures A == old(A) && B == old(B) && |S| == |A| && |E| == |A| + 1
      ensures forall i :: 0 <= i < |A| ==> (S[i] <==> InitialSegments.RunStart(Nonoise, A, i))
      ensures forall j :: 0 <= j <= |A| ==> (E[j] <==> InitialSegments.RunEnd(Nonoise, A, j))
      ensures Padded(Nonoise, A, A, S, E) && CountTrue(S) == CountTrue(E)
    {
      var S', E' := InitialSegments.GetInitialSegments(Nonoise, A);
      S, E := S', E';
    }

    /**
     * Pads segments with neighbouring silence or noise until the segments
     * hold int(speech frames / (1 - proportion)) frames, and stops there,
     * or until nothing more can be absorbed.
     */
    method SetNonspeechProportion()
      modifies this
      requires A == B && Padded(Nonoise, A, B, S, E) && propNum < propDen
      ensures B == old(B) && Padded(Nonoise, A, B, S, E) && CountTrue(S) == CountTrue(E)
      ensures forall i :: 0 <= i < |A| && Open(old(S), old(E), i) ==> Open(S, E, i)
      ensures CoveredCount(S, E) >= Padding.TargetFrames(CoveredCount(old(S), old(E)), propNum, propDen) || Saturated(S, E)
      ensures CoveredCount(old(S), old(E)) <= CoveredCount(S, E) <= Padding.TargetFrames(CoveredCount(old(S), old(E)), propNum, propDen)
    {
      var frames, active := Padding.ScanSegments(S, E);
      var target := Padding.TargetFrames(frames, propNum, propDen);
      var A', S', E', total := Padding.PadSegments(Nonoise, B, S, E, active, frames, target);
      A, S, E := A', S', E';
    }

    /**
     * Joins segments at ranked boundaries while the joined segment stays
     * below maxFrames; with a positive minInter, first drops the long pauses.
     */
    method MergeSegments()
      modifies this
      requires Padded(Nonoise, A, B, S, E) && |A| >= 1
      ensures A == old(A) && B == old(B)
      ensures WellFormed(S, E) && |S| == |A| && CountTrue(S) == CountTrue(E)
      ensures var C := Merging.Candidates(old(S), old(E), minInter > 0);
        (forall x :: 0 <= x < |A| && S[x] ==> C.0[x]) &&
        (forall x :: 0 <= x <= |A| && E[x] ==> C.1[x]) &&
        (forall s :: 0 <= s < |A| && S[s] ==> SegEnd(E, s) == SegEnd(C.1, s) || SegEnd(E, s) - s < maxFrames)
      ensures minInter <= 0 ==> forall x :: 0 <= x < |A| ==> Open(S, E, x) == Open(old(S), old(E), x)
      ensures minInter > 0 ==> forall x :: 0 <= x < |A| ==> (Open(S, E, x) <==> !Merging.LongPause(Nonoise, A, minInter, x))
    {
      var S', E' := Merging.MergeSegments(Nonoise, A, B, S, E, minInter, maxFrames);
      S, E := S', E';
    }

    /** Cuts every segment longer than hardMaxFrames that holds a pause into equal pieces. */
    method SplitLongSegments()
      modifies this
      requires WellFormed(S, E) && |S| == |A| && hardMaxFrames >= 1
      ensures A == old(A) && B == old(B)
      ensures WellFormed(S, E) && |S| == |A| && CountTrue(S) == CountTrue(E)
      ensures forall x :: 0 <= x < |A| ==> Open(S, E, x) == Open(old(S), old(E), x)
      ensures Splitting.CutsInside(Nonoise, A, old(S), old(E), S, E, hardMaxFrames)
      ensures forall s :: 0 <= s < |A| && S[s] ==> Splitting.SplitDone(Nonoise, A, E, hardMaxFrames, s)
    {
      var S', E' := Splitting.SplitLongSegments(Nonoise, A, S, E, hardMaxFrames);
      S, E := S', E';
    }

    /** Drops the segments without a speech frame. */
    method RemoveNoiseOnlySegments()
      modifies this
      requires WellFormed(S, E) && |S| == |A|
      ensures A == old(A) && B == old(B)
      ensures WellFormed(S, E) && |S| == |A| && CountTrue(S) == CountTrue(E)
      ensures forall x :: 0 <= x < |A| ==>
        S[x] == (old(S)[x] && exists i :: x <= i < SegEnd(old(E), x) && 0 <= i < |A| && Speech(A[i]))
      ensures forall x :: 0 <= x < |A| && Open(S, E, x) ==> Open(old(S), old(E), x)
      ensures forall s :: 0 <= s < |A| && S[s] ==> old(S)[s] && SegEnd(E, s) == SegEnd(old(E), s)
      ensures forall s :: 0 <= s < |A| && S[s] ==> exists i :: s <= i < SegEnd(E, s) && 0 <= i < |A| && Speech(A[i])
    {
      var S', E' := Removal.RemoveNoiseOnly(A, S, E);
      S, E := S', E';
    }

    /** Drops the segments made only of silence. */
    method RemoveSilenceOnlySegments()
      modifies this
      requires WellFormed(S, E) && |S| == |A|
      ensures A == old(A) && B == old(B)
      ensures WellFormed(S, E) && |S| == |A| && CountTrue(S) == CountTrue(E)
      ensures forall x :: 0 <= x < |A| ==>
        S[x] == (old(S)[x] && exists i :: x <= i < SegEnd(old(E), x) && 0 <= i < |A| && !Silence(A[i]))
      ensures forall x :: 0 <= x < |A| && Open(S, E, x) ==> Open(old(S), old(E), x)
      ensures forall s :: 0 <= s < |A| && S[s] ==> old(S)[s] && SegEnd(E, s) == SegEnd(old(E), s)
      ensures forall s :: 0 <= s < |A| && S[s] ==> exists i :: s <= i < SegEnd(E, s) && 0 <= i < |A| && !Silence(A[i])
    {
      var S', E' := Removal.RemoveSilenceOnly(A, S, E);
      S, E := S', E';
    }

    /**
     * The whole resegmentation: every segment ends up within the hard cap or
     * pause-free, holds speech when noise-only segments are removed, and
     * holds a non-silence frame when the pause policy removes silence-only
     * segments; a frame is in a segment only if its code is covered (no
     * policy) or it is not in a long pause (policy).
     */
    method Resegment()
      modifies this
      requires |A| >= 1 && (forall i :: 0 <= i < |A| ==> InputCode(A[i])) && A == B && Unsegmented()
      requires propNum < propDen && hardMaxFrames >= 1
      ensures B == old(B) && CodesTrack(Nonoise, A, B)
      ensures WellFormed(S, E) && |S| == |A| && CountTrue(S) == CountTrue(E)
      ensures forall s :: 0 <= s < |A| && S[s] ==> Splitting.SplitDone(Nonoise, A, E, hardMaxFrames, s)
      ensures removeNoise ==>
        forall s :: 0 <= s < |A| && S[s] ==> exists i :: s <= i < SegEnd(E, s) && 0 <= i < |A| && Speech(A[i])
      ensures !removeNoise && minInter > 0 ==>
        forall s :: 0 <= s < |A| && S[s] ==> exists i :: s <= i < SegEnd(E, s) && 0 <= i < |A| && !Silence(A[i])
      ensures minInter <= 0 ==> forall x :: 0 <= x < |A| && Open(S, E, x) ==> Covered(Nonoise, A[x])
      ensures !removeNoise && minInter <= 0 ==> forall x :: 0 <= x < |A| ==> (Open(S, E, x) <==> Covered(Nonoise, A[x]))
      ensures minInter > 0 ==> forall x :: 0 <= x < |A| && Open(S, E, x) ==> !Merging.LongPause(Nonoise, A, minInter, x)
    {
      SegmentPhases();
      ghost var S3, E3 := S, E;
      RemoveOnlySegments();
      KeptDone(A, hardMaxFrames, S3, E3, S, E);
      KeptInside(A, minInter, S3, E3, S, E);
    }

    /**
     * The phases of resegment before removal: initial segments, padding,
     * merging and splitting.
     */
    method SegmentPhases()
      modifies this
      requires |A| >= 1 && (forall i :: 0 <= i < |A| ==> InputCode(A[i])) && A == B && Unsegmented()
      requires propNum < propDen && hardMaxFrames >= 1
      ensures B == old(B) && CodesTrack(Nonoise, A, B)
      ensures WellFormed(S, E) && |S| == |A| && CountTrue(S) == CountTrue(E)
      ensures forall s :: 0 <= s < |A| && S[s] ==> Splitting.SplitDone(Nonoise, A, E, hardMaxFrames, s)
      ensures minInter <= 0 ==> forall x :: 0 <= x < |A| ==> (Open(S, E, x) <==> Covered(Nonoise, A[x]))
      ensures minInter > 0 ==> forall x :: 0 <= x < |A| ==> (Open(S, E, x) <==> !Merging.LongPause(Nonoise, A, minInter, x))
    {
      GetInitialSegments();
      SetNonspeechProportion();
      ghost var S1, E1 := S, E;
      MergeSegments();
      ghost var S2, E2 := S, E;
      SplitLongSegments();
      if minInter <= 0 {
        CoverageKept(A, S1, E1, S2, E2, S, E);
      }
    }

    /**
     * The last phase of resegment: noise-only segments are dropped when
     * asked for, otherwise silence-only ones when the pause policy is on.
     */
    method RemoveOnlySegments()
      modifies this
      requires WellFormed(S, E) && |S| == |A|
      ensures A == old(A) && B == old(B)
      ensures WellFormed(S, E) && |S| == |A| && CountTrue(S) == CountTrue(E)
      ensures forall x :: 0 <= x < |A| && S[x] ==> old(S)[x]
      ensures forall x :: 0 <= x < |A| && Open(S, E, x) ==> Open(old(S), old(E), x)
      ensures forall s :: 0 <= s < |A| && S[s] ==> SegEnd(E, s) == SegEnd(old(E), s)
      ensures removeNoise ==>
        forall s :: 0 <= s < |A| && S[s] ==> exists i :: s <= i < SegEnd(E, s) && 0 <= i < |A| && Speech(A[i])
      ensures !removeNoise && minInter > 0 ==>
        forall s :: 0 <= s < |A| && S[s] ==> exists i :: s <= i < SegEnd(E, s) && 0 <= i < |A| && !Silence(A[i])
      ensures !removeNoise && minInter <= 0 ==> S == old(S) && E == old(E)
    {
      if removeNoise {
        RemoveNoiseOnlySegments();
      } else if minInter > 0 {
        RemoveSilenceOnlySegments();
      } else {
        CountsBalance(S, E);
      }
    }

    /** Cuts the recording back to its first n frames, closing a segment left open across the cut. */
    method Restrict(n: int)
      modifies this
      requires WellFormed(S, E) && |A| == |B| == |S| && 0 <= n <= |S|
      ensures B == old(B)[..n] && A == old(A)[..n]
      ensures |S| == n && WellFormed(S, E)
      ensures forall x :: 0 <= x < n ==> S[x] == old(S)[x] && E[x] == old(E)[x]
      ensures E[n] == (old(E)[n] || Open(old(S), old(E), n - 1))
      ensures forall x :: -1 <= x < n ==> Open(S, E, x) == Open(old(S), old(E), x)
      ensures (S, E) == Restriction.Restricted(old(S), old(E), n)
    {
      var S', E' := S[..n], E[..n + 1];
      if CountTrue(S') == CountTrue(E') + 1 {
        E' := E'[n := true];
      }
      ghost var SE := Restriction.Restricted(S, E, n);
      assert (S', E') == SE;
      B, A, S, E := B[..n], A[..n], S', E';
    }

    /**
     * The segments as (start, end) frame pairs with their printed lines, or
     * exit status 1 when there are none; hundredths is the frame shift in
     * hundredths of a second.
     */
    method PrintSegments(hundredths: int, sep: (string, string)) returns (r: Outcome<ZeroPadding.Printed>)
      requires WellFormed(S, E)
      ensures r.Done? <==> exists s :: 0 <= s < |S| && S[s]
      ensures r.Exit? ==> r.code == 1
      ensures r.Done? ==> Emission.ListsSegments(S, E, r.value.segments) && Emission.Disjoint(r.value.segments, |S|)
      ensures r.Done? ==> forall x :: 0 <= x < |S| ==> (Open(S, E, x) <==> Emission.InSomePair(r.value.segments, x))
      ensures r.Done? ==> ZeroPadding.PrintedAs(r.value, fileId, r.value.segments, hundredths, sep)
    {
      r := Emission.PrintNamed(S, E, fileId, hundredths, sep);
    }
  }

  /** A segment that survives removal keeps its end, so it is still within the hard cap or pause-free. */
  lemma KeptDone(A: seq<int>, hardMaxFrames: int, S3: seq<bool>, E3: seq<bool>, S: seq<bool>, E: seq<bool>)
    requires |S3| == |A| && |E3| == |A| + 1 && |E| == |A| + 1 && |S| == |A|
    requires forall s :: 0 <= s < |A| && S3[s] ==> Splitting.SplitDone(Nonoise, A, E3, hardMaxFrames, s)
    requires forall x :: 0 <= x < |A| && S[x] ==> S3[x]
    requires forall s :: 0 <= s < |A| && S[s] ==> SegEnd(E, s) == SegEnd(E3, s)
    ensures forall s :: 0 <= s < |A| && S[s] ==> Splitting.SplitDone(Nonoise, A, E, hardMaxFrames, s)
  {
  }

  /** Merging without the pause policy and splitting leave the padded coverage as it was. */
  lemma CoverageKept(A: seq<int>, S1: seq<bool>, E1: seq<bool>, S2: seq<bool>, E2: seq<bool>,
                     S3: seq<bool>, E3: seq<bool>)
    requires CoverageMatchesCodes(Nonoise, A, S1, E1) && Shaped(S2, E2) && Shaped(S3, E3) && |S2| == |S3| == |A|
    requires forall x :: 0 <= x < |A| ==> Open(S2, E2, x) == Open(S1, E1, x)
    requires forall x :: 0 <= x < |A| ==> Open(S3, E3, x) == Open(S2, E2, x)
    ensures forall x :: 0 <= x < |A| ==> (Open(S3, E3, x) <==> Covered(Nonoise, A[x]))
  {
    forall x | 0 <= x < |A|
      ensures Open(S3, E3, x) <==> Covered(Nonoise, A[x])
    {
      assert CoveredAt(Nonoise, A, S1, E1, x);
    }
  }

  /** Removal only shrinks coverage, so what holds of every covered frame before it holds after. */
  lemma KeptInside(A: seq<int>, minInter: int, S3: seq<bool>, E3: seq<bool>, S: seq<bool>, E: seq<bool>)
    requires Shaped(S3, E3) && Shaped(S, E) && |S| == |S3| == |A|
    requires forall x :: 0 <= x < |A| && Open(S, E, x) ==> Open(S3, E3, x)
    requires minInter <= 0 ==> forall x :: 0 <= x < |A| ==> (Open(S3, E3, x) <==> Covered(Nonoise, A[x]))
    requires minInter > 0 ==> forall x :: 0 <= x < |A| ==> (Open(S3, E3, x) <==> !Merging.LongPause(Nonoise, A, minInter, x))
    ensures minInter <= 0 ==> forall x :: 0 <= x < |A| && Open(S, E, x) ==> Covered(Nonoise, A[x])
    ensures minInter > 0 ==> forall x :: 0 <= x < |A| && Open(S, E, x) ==> !Merging.LongPause(Nonoise, A, minInter, x)
  {
  }
}
