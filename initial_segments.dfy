/**
 * The first phase of the resegmenter: every maximal run of one segment code
 * becomes a segment.
 */
module InitialSegments {
  import opened Markers
  import opened FrameCodes
  import opened SegmentState

  /** A segment starts at frame i: a segment code that differs from the previous frame's code. */
  predicate RunStart(v: Variant, A: seq<int>, i: int)
    requires 0 <= i < |A|
  {
    SegmentCode(v, A[i]) && (i == 0 || A[i - 1] != A[i])
  }

  /** A segment ends at position j: the previous frame has a segment code that does not continue at j. */
  predicate RunEnd(v: Variant, A: seq<int>, j: int)
    requires 0 <= j <= |A|
  {
    0 < j && SegmentCode(v, A[j - 1]) && (j == |A| || A[j - 1] != A[j])
  }

  /**
   * Sets S at the first frame of each run of one segment code and E just
   * past its last frame (E[N] when the last frame has a segment code).
   */
  method GetInitialSegments(v: Variant, A: seq<int>) returns (S: seq<bool>, E: seq<bool>)
    requires |A| >= 1 && forall i :: 0 <= i < |A| ==> InputCode(A[i])
    ensures |S| == |A| && |E| == |A| + 1
    ensures forall i :: 0 <= i < |A| ==> (S[i] <==> RunStart(v, A, i))
    ensures forall j :: 0 <= j <= |A| ==> (E[j] <==> RunEnd(v, A, j))
    ensures Padded(v, A, A, S, E)
    ensures CountTrue(S) == CountTrue(E)
  {
    var N := |A|;
    S := seq(N, _ => false);
    E := seq(N + 1, _ => false);
    for i := 0 to N
      invariant |S| == N && |E| == N + 1
      invariant forall k :: 0 <= k < i ==> (S[k] <==> RunStart(v, A, k))
      invariant forall k :: 0 <= k < i ==> (E[k] <==> RunEnd(v, A, k))
      invariant forall k :: i <= k < N ==> !S[k]
      invariant forall k :: i <= k <= N ==> !E[k]
    {
      S, E := MarkFrame(v, A, i, S, E);
    }
    if SegmentCode(v, A[N - 1]) {
      E := E[N := true];
    }
    RunMarkersPadded(v, A, S, E);
  }

  /** Frame i opens a run of segment codes, closes one, or both, as its code differs from the previous frame's. */
  method MarkFrame(v: Variant, A: seq<int>, i: nat, S: seq<bool>, E: seq<bool>) returns (S': seq<bool>, E': seq<bool>)
    requires i < |A| == |S| && |E| == |A| + 1
    ensures |S'| == |S| && |E'| == |E|
    ensures S'[i] == RunStart(v, A, i) && E'[i] == (RunEnd(v, A, i) || E[i])
    ensures forall k :: 0 <= k < |S| && k != i ==> S'[k] == S[k]
    ensures forall k :: 0 <= k < |E| && k != i ==> E'[k] == E[k]
  {
    S', E' := S[i := false], E;
    if i > 0 && A[i - 1] != A[i] {
      if SegmentCode(v, A[i]) {
        if SegmentCode(v, A[i - 1]) {
          S' := S[i := true];
          E' := E[i := true];
        } else {
          S' := S[i := true];
        }
      } else {
        if SegmentCode(v, A[i - 1]) {
          E' := E[i := true];
        }
      }
    } else if i == 0 && SegmentCode(v, A[i]) {
      S' := S[i := true];
    }
  }

  /** Markers at the runs of segment codes are well formed, cover the covered codes and balance. */
  lemma RunMarkersPadded(v: Variant, A: seq<int>, S: seq<bool>, E: seq<bool>)
    requires |A| >= 1 && forall i :: 0 <= i < |A| ==> InputCode(A[i])
    requires |S| == |A| && |E| == |A| + 1
    requires forall i :: 0 <= i < |A| ==> (S[i] <==> RunStart(v, A, i))
    requires forall j :: 0 <= j <= |A| ==> (E[j] <==> RunEnd(v, A, j))
    ensures Padded(v, A, A, S, E)
    ensures CountTrue(S) == CountTrue(E)
  {
    var N := |A|;
    forall i | 0 <= i < N ensures Open(S, E, i) <==> SegmentCode(v, A[i]) {
      RunsCoverage(v, A, S, E, i);
    }
    assert WellFormed(S, E);
    forall i | 0 <= i < N ensures Open(S, E, i) <==> Covered(v, A[i]) {
      CoveredCodes(v, A[i]);
    }
    CountsBalance(S, E);
  }


  /** With run markers, a frame is inside a segment exactly when its code is a segment code. */
  lemma {:induction false} RunsCoverage(v: Variant, A: seq<int>, S: seq<bool>, E: seq<bool>, i: int)
    requires |S| == |A| && |E| == |A| + 1
    requires forall k :: 0 <= k < |A| ==> (S[k] <==> RunStart(v, A, k))
    requires forall k :: 0 <= k <= |A| ==> (E[k] <==> RunEnd(v, A, k))
    requires 0 <= i < |A|
    ensures Open(S, E, i) <==> SegmentCode(v, A[i])
    decreases i
  {
    if i > 0 {
      RunsCoverage(v, A, S, E, i - 1);
    }
  }

  /** The frames of an initial segment all carry its first frame's code. */
  lemma {:induction false} RunInterior(v: Variant, A: seq<int>, S: seq<bool>, E: seq<bool>, s: int, x: int)
    requires |S| == |A| && |E| == |A| + 1
    requires forall k :: 0 <= k < |A| ==> (S[k] <==> RunStart(v, A, k))
    requires forall k :: 0 <= k <= |A| ==> (E[k] <==> RunEnd(v, A, k))
    requires 0 <= s < |A| && S[s] && s <= x < SegEnd(E, s)
    ensures x < |A| && A[x] == A[s]
    decreases x - s
  {
    if x > s {
      RunInterior(v, A, S, E, s, x - 1);
      assert !E[x];
    }
  }

  /**
   * Each initial segment is a maximal run of one code: all its frames carry
   * its first frame's code, and the frames just outside it carry another one.
   */
  lemma SegmentsAreRuns(v: Variant, A: seq<int>, S: seq<bool>, E: seq<bool>, s: int)
    requires |S| == |A| && |E| == |A| + 1
    requires forall k :: 0 <= k < |A| ==> (S[k] <==> RunStart(v, A, k))
    requires forall k :: 0 <= k <= |A| ==> (E[k] <==> RunEnd(v, A, k))
    requires 0 <= s < |A| && S[s]
    ensures SegmentCode(v, A[s]) && (s == 0 || A[s - 1] != A[s])
    ensures SegEnd(E, s) <= |A|
    ensures forall x :: s <= x < SegEnd(E, s) ==> A[x] == A[s]
    ensures SegEnd(E, s) == |A| || A[SegEnd(E, s)] != A[s]
  {
    var e := SegEnd(E, s);
    if e == |A| + 1 {
      RunInterior(v, A, S, E, s, |A|);
      assert false;
    }
    forall x | s <= x < e ensures A[x] == A[s] {
      RunInterior(v, A, S, E, s, x);
    }
    RunInterior(v, A, S, E, s, e - 1);
  }
}
