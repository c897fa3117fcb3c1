/**
 * Relations between the codes of a recording and its segment markers that
 * the resegmenter's phases establish and rely on.
 */
module SegmentState {
  import opened Markers
  import opened FrameCodes

  /** Every frame of B is an input code and every frame of A is B's code, or B's code + 9 for an absorbed frame. */
  predicate CodesTrack(v: Variant, A: seq<int>, B: seq<int>)
  {
    |A| == |B| &&
    forall i :: 0 <= i < |A| ==>
      InputCode(B[i]) && (A[i] == B[i] || (Absorbable(v, B[i]) && A[i] == B[i] + 9))
  }

  /** Frame i is inside a segment exactly when its code is covered. */
  predicate CoveredAt(v: Variant, A: seq<int>, S: seq<bool>, E: seq<bool>, i: int)
    requires Shaped(S, E) && |A| == |S| && 0 <= i < |A|
  {
    Open(S, E, i) <==> Covered(v, A[i])
  }

  /** The frames inside segments are exactly the frames whose code is covered. */
  predicate CoverageMatchesCodes(v: Variant, A: seq<int>, S: seq<bool>, E: seq<bool>)
  {
    Shaped(S, E) && |A| == |S| &&
    forall i :: 0 <= i < |A| ==> CoveredAt(v, A, S, E, i)
  }

  /** A marker at interior position j separates two different codes or sits on a converted frame. */
  predicate TransitionAt(A: seq<int>, S: seq<bool>, E: seq<bool>, j: int)
    requires Shaped(S, E) && |A| == |S| && 0 < j < |A|
  {
    (S[j] || E[j]) ==> A[j - 1] != A[j] || 9 <= A[j]
  }

  /** Each interior marker position separates two different codes or sits on a converted frame. */
  predicate MarkersAtTransitions(A: seq<int>, S: seq<bool>, E: seq<bool>)
  {
    Shaped(S, E) && |A| == |S| &&
    forall j :: 0 < j < |A| ==> TransitionAt(A, S, E, j)
  }

  /** What holds from the initial segmentation until merging starts. */
  predicate Padded(v: Variant, A: seq<int>, B: seq<int>, S: seq<bool>, E: seq<bool>)
  {
    WellFormed(S, E) && |A| == |S| && CodesTrack(v, A, B) &&
    CoverageMatchesCodes(v, A, S, E) && MarkersAtTransitions(A, S, E)
  }

  /**
   * At a boundary b (both markers set) of padded markers the frames on both
   * sides are covered, so the transition type is defined there.
   */
  lemma BoundaryFramesCovered(v: Variant, A: seq<int>, B: seq<int>, S: seq<bool>, E: seq<bool>, b: int)
    requires Padded(v, A, B, S, E) && 0 < b < |A| && S[b] && E[b]
    ensures Covered(v, A[b - 1]) && Covered(v, A[b])
    ensures A[b - 1] != A[b] || 9 <= A[b]
  {
    assert Open(S, E, b - 1);
    assert Open(S, E, b);
    assert TransitionAt(A, S, E, b) && CoveredAt(v, A, S, E, b - 1) && CoveredAt(v, A, S, E, b);
  }
}
