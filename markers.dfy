/**
 * Segment markers shared by every segmenter of the recipe.
 *
 * A recording of N frames carries two boolean arrays: `S` (N entries) marks
 * the first frame of a segment and `E` (N + 1 entries) marks the position just
 * past its last frame. A segment is the span from a true entry of `S` to the
 * next true entry of `E`.
 */
module Markers {

  /** Number of true entries, counted from the left. */
  function CountTrue(s: seq<bool>): (r: nat)
    ensures r <= |s|
    ensures r == 0 <==> forall i :: 0 <= i < |s| ==> !s[i]
  {
    if s == [] then 0 else CountTrue(s[..|s| - 1]) + (if s[|s| - 1] then 1 else 0)
  }

  lemma {:induction false} CountTrueAppend(s: seq<bool>, t: seq<bool>)
    ensures CountTrue(s + t) == CountTrue(s) + CountTrue(t)
    decreases |t|
  {
    if t == [] {
      assert s + t == s;
    } else {
      assert (s + t)[..|s + t| - 1] == s + t[..|t| - 1];
      CountTrueAppend(s, t[..|t| - 1]);
    }
  }

  /** Setting one false entry to true adds exactly one to the count. */
  lemma CountTrueSet(s: seq<bool>, k: int)
    requires 0 <= k < |s| && !s[k]
    ensures CountTrue(s[k := true]) == CountTrue(s) + 1
  {
    assert s == s[..k] + [false] + s[k + 1..];
    assert s[k := true] == s[..k] + [true] + s[k + 1..];
    CountTrueAppend(s[..k] + [false], s[k + 1..]);
    CountTrueAppend(s[..k], [false]);
    CountTrueAppend(s[..k] + [true], s[k + 1..]);
    CountTrueAppend(s[..k], [true]);
  }

  /** Setting one true entry to false removes exactly one from the count. */
  lemma CountTrueClear(s: seq<bool>, k: int)
    requires 0 <= k < |s| && s[k]
    ensures CountTrue(s[k := false]) + 1 == CountTrue(s)
  {
    assert s[k := false][k := true] == s;
    CountTrueSet(s[k := false], k);
  }

  predicate Shaped(S: seq<bool>, E: seq<bool>)
  {
    |E| == |S| + 1
  }

  /**
   * Whether frame i lies inside a segment: the value of `in_segment` after a
   * left-to-right scan has processed frame i (an end marker closes the
   * segment, a start marker opens one). Open(S, E, -1) is false.
   */
  function Open(S: seq<bool>, E: seq<bool>, i: int): bool
    requires Shaped(S, E) && -1 <= i < |S|
    decreases i + 1
  {
    i >= 0 && (S[i] || (Open(S, E, i - 1) && !E[i]))
  }

  /**
   * The scan never meets an end marker outside a segment, never meets a start
   * marker inside a segment that is not closed at the same position, and ends
   * outside every segment.
   */
  predicate WellFormed(S: seq<bool>, E: seq<bool>)
  {
    Shaped(S, E) &&
    !E[0] &&
    (forall i :: 0 <= i < |S| && E[i + 1] ==> Open(S, E, i)) &&
    (forall i :: -1 <= i < |S| - 1 && S[i + 1] ==> E[i + 1] || !Open(S, E, i)) &&
    (Open(S, E, |S| - 1) ==> E[|S|])
  }

  /** The first position at or after `from` holding an end marker, or |E|. */
  function NextEnd(E: seq<bool>, from: int): (p: int)
    requires 0 <= from <= |E|
    ensures from <= p <= |E|
    ensures p < |E| ==> E[p]
    ensures forall q :: from <= q < p ==> !E[q]
    decreases |E| - from
  {
    if from == |E| || E[from] then from else NextEnd(E, from + 1)
  }

  /** The end of the segment opened at s. */
  function SegEnd(E: seq<bool>, s: int): int
    requires 0 <= s < |E|
  {
    NextEnd(E, s + 1)
  }

  /** The last position at or before `upto` holding a start marker, or -1. */
  function LastStart(S: seq<bool>, upto: int): (p: int)
    requires -1 <= upto < |S|
    ensures -1 <= p <= upto
    ensures p >= 0 ==> S[p]
    ensures forall q :: p < q <= upto ==> !S[q]
    decreases upto + 1
  {
    if upto == -1 || S[upto] then upto else LastStart(S, upto - 1)
  }

  /** NextEnd is determined by the first true entry it meets. */
  lemma NextEndUnique(E: seq<bool>, from: int, p: int)
    requires 0 <= from <= p <= |E|
    requires p < |E| ==> E[p]
    requires forall q :: from <= q < p ==> !E[q]
    ensures NextEnd(E, from) == p
  {
  }

  /** LastStart is determined by the last true entry it meets. */
  lemma LastStartUnique(S: seq<bool>, upto: int, p: int)
    requires -1 <= p <= upto < |S|
    requires p >= 0 ==> S[p]
    requires forall q :: p < q <= upto ==> !S[q]
    ensures LastStart(S, upto) == p
  {
  }

  /** Open only depends on the markers up to the frame: agreeing from k on keeps it agreeing. */
  lemma {:induction false} OpenAgree(S: seq<bool>, E: seq<bool>, S2: seq<bool>, E2: seq<bool>, k: int, i: int)
    requires Shaped(S, E) && Shaped(S2, E2) && |S2| == |S|
    requires -1 <= k <= i < |S|
    requires Open(S, E, k) == Open(S2, E2, k)
    requires forall j :: k < j <= i ==> S[j] == S2[j] && E[j] == E2[j]
    ensures Open(S, E, i) == Open(S2, E2, i)
    decreases i - k
  {
    if i > k {
      OpenAgree(S, E, S2, E2, k, i - 1);
    }
  }

  /** Frames past k agree when Open agrees at k and the markers agree past k. */
  lemma OpenAgreeAll(S: seq<bool>, E: seq<bool>, S2: seq<bool>, E2: seq<bool>, k: int)
    requires Shaped(S, E) && Shaped(S2, E2) && |S2| == |S|
    requires -1 <= k < |S|
    requires Open(S, E, k) == Open(S2, E2, k)
    requires forall j :: k < j < |S| ==> S[j] == S2[j] && E[j] == E2[j]
    ensures forall j :: k <= j < |S| ==> Open(S, E, j) == Open(S2, E2, j)
  {
    forall j | k < j < |S| ensures Open(S, E, j) == Open(S2, E2, j) {
      OpenAgree(S, E, S2, E2, k, j);
    }
  }

  /** Equal markers up to (and including) frame k give equal Open up to k. */
  lemma OpenPrefix(S: seq<bool>, E: seq<bool>, S2: seq<bool>, E2: seq<bool>, k: int)
    requires Shaped(S, E) && Shaped(S2, E2) && |S2| == |S|
    requires -1 <= k < |S|
    requires forall j :: 0 <= j <= k ==> S[j] == S2[j] && E[j] == E2[j]
    ensures forall j :: -1 <= j <= k ==> Open(S, E, j) == Open(S2, E2, j)
  {
    forall j | -1 <= j <= k ensures Open(S, E, j) == Open(S2, E2, j) {
      OpenAgree(S, E, S2, E2, -1, j);
    }
  }

  /**
   * Before and after frame k the counts of markers differ by one exactly
   * when frame k is inside a segment.
   */
  lemma {:induction false} PrefixBalance(S: seq<bool>, E: seq<bool>, k: int)
    requires WellFormed(S, E) && -1 <= k < |S|
    ensures CountTrue(S[..k + 1]) == CountTrue(E[..k + 1]) + (if Open(S, E, k) then 1 else 0)
    decreases k + 1
  {
    if k >= 0 {
      PrefixBalance(S, E, k - 1);
      assert S[..k + 1][..k] == S[..k];
      assert E[..k + 1][..k] == E[..k];
    }
  }

  /** Well-formed markers have as many starts as ends (the recipe's `sum(S) == sum(E)`). */
  lemma CountsBalance(S: seq<bool>, E: seq<bool>)
    requires WellFormed(S, E)
    ensures CountTrue(S) == CountTrue(E)
  {
    var N := |S|;
    PrefixBalance(S, E, N - 1);
    assert S[..N] == S;
    assert E[..N + 1] == E;
    assert E[..N + 1][..N] == E[..N];
  }

  /** Inside-segment flags of all frames. */
  function Coverage(S: seq<bool>, E: seq<bool>): (c: seq<bool>)
    requires Shaped(S, E)
    ensures |c| == |S| && forall i :: 0 <= i < |S| ==> c[i] == Open(S, E, i)
  {
    seq(|S|, i requires 0 <= i < |S| => Open(S, E, i))
  }

  /** Number of frames inside segments. */
  function CoveredCount(S: seq<bool>, E: seq<bool>): nat
    requires Shaped(S, E)
  {
    CountTrue(Coverage(S, E))
  }

  /** Inside a well-formed segment: every frame is covered and no start marker occurs. */
  lemma {:induction false} SegmentInterior(S: seq<bool>, E: seq<bool>, s: int, x: int)
    requires WellFormed(S, E) && 0 <= s < |S| && S[s]
    requires s <= x < SegEnd(E, s)
    ensures x < |S| && Open(S, E, x)
    ensures x > s ==> !S[x]
    decreases x - s
  {
    if x > s {
      SegmentInterior(S, E, s, x - 1);
      assert !E[x];
    }
  }

  /** A segment of well-formed markers ends within the recording. */
  lemma SegmentEnds(S: seq<bool>, E: seq<bool>, s: int)
    requires WellFormed(S, E) && 0 <= s < |S| && S[s]
    ensures s < SegEnd(E, s) <= |S| && E[SegEnd(E, s)]
  {
    var e := SegEnd(E, s);
    if e == |S| + 1 {
      SegmentInterior(S, E, s, |S|);
    }
  }

  /** Outside a segment Open stays false until the next start marker. */
  lemma {:induction false} ClosedUntilStart(S: seq<bool>, E: seq<bool>, k: int, x: int)
    requires Shaped(S, E) && -1 <= k <= x < |S| && !Open(S, E, k)
    requires forall q :: k < q <= x ==> !S[q]
    ensures !Open(S, E, x)
    decreases x - k
  {
    if x > k {
      ClosedUntilStart(S, E, k, x - 1);
    }
  }

  /** A covered frame belongs to the segment opened at the last start marker before it. */
  lemma {:induction false} CoveredHasStart(S: seq<bool>, E: seq<bool>, x: int)
    requires Shaped(S, E) && 0 <= x < |S| && Open(S, E, x)
    ensures LastStart(S, x) >= 0
    ensures forall q :: LastStart(S, x) < q <= x ==> !E[q]
    decreases x
  {
    if !S[x] {
      CoveredHasStart(S, E, x - 1);
    }
  }

  /** Under well-formed markers, a frame is covered exactly when some segment spans it. */
  lemma CoveredIff(S: seq<bool>, E: seq<bool>, x: int)
    requires WellFormed(S, E) && 0 <= x < |S|
    ensures Open(S, E, x) <==> LastStart(S, x) >= 0 && x < SegEnd(E, LastStart(S, x))
  {
    var s := LastStart(S, x);
    if Open(S, E, x) {
      CoveredHasStart(S, E, x);
      var e := SegEnd(E, s);
      assert e < |E| ==> E[e];
    } else if s >= 0 && x < SegEnd(E, s) {
      SegmentInterior(S, E, s, x);
    }
  }

  // ---------------------------------------------------------------------------
  // How NextEnd reacts to a single changed end marker.

  lemma NextEndClear(E: seq<bool>, from: int, b: int)
    requires 0 <= from <= |E| && 0 <= b < |E| && E[b]
    ensures NextEnd(E[b := false], from) ==
      (if from <= b && NextEnd(E, from) == b then NextEnd(E, b + 1) else NextEnd(E, from))
  {
    var E2 := E[b := false];
    var p := NextEnd(E, from);
    if from <= b && p == b {
      var r := NextEnd(E, b + 1);
      NextEndUnique(E2, from, r);
    } else {
      if p < |E| { assert p != b; }
      if b < p { assert from > b; }
      NextEndUnique(E2, from, p);
    }
  }

  lemma NextEndSet(E: seq<bool>, from: int, q: int)
    requires 0 <= from <= |E| && 0 <= q < |E|
    ensures NextEnd(E[q := true], from) ==
      (if from <= q < NextEnd(E, from) then q else NextEnd(E, from))
  {
    var E2 := E[q := true];
    var p := NextEnd(E, from);
    if from <= q < p {
      NextEndUnique(E2, from, q);
    } else {
      NextEndUnique(E2, from, p);
    }
  }

  // ---------------------------------------------------------------------------
  // Local marker updates that keep the markers well formed.

  /**
   * Sufficient conditions for well-formedness after a change confined to
   * positions lo..hi: the conditions hold in the window, and Open agrees with
   * the old markers outside frames lo-1 .. hi-1.
   */
  lemma WellFormedFromWindow(S: seq<bool>, E: seq<bool>, S2: seq<bool>, E2: seq<bool>, lo: int, hi: int)
    requires WellFormed(S, E) && Shaped(S2, E2) && |S2| == |S|
    requires 0 <= lo <= hi <= |S|
    requires forall x :: 0 <= x <= |S| && !(lo <= x <= hi) ==> E2[x] == E[x]
    requires forall x :: 0 <= x < |S| && !(lo <= x <= hi) ==> S2[x] == S[x]
    requires forall x :: -1 <= x < |S| && !(lo - 1 <= x < hi) ==> Open(S2, E2, x) == Open(S, E, x)
    requires forall j :: lo <= j <= hi && E2[j] ==> Open(S2, E2, j - 1)
    requires forall i :: lo <= i <= hi && i < |S| && S2[i] ==> E2[i] || !Open(S2, E2, i - 1)
    requires Open(S2, E2, |S| - 1) ==> E2[|S|]
    ensures WellFormed(S2, E2)
  {
  }

  /**
   * Merging at a boundary b (start and end marker at the same position):
   * clearing both keeps the markers well formed and leaves every frame's
   * coverage unchanged.
   */
  lemma MergeAt(S: seq<bool>, E: seq<bool>, b: int)
    requires WellFormed(S, E) && 0 < b < |S| && S[b] && E[b]
    ensures WellFormed(S[b := false], E[b := false])
    ensures forall x :: -1 <= x < |S| ==> Open(S[b := false], E[b := false], x) == Open(S, E, x)
    ensures CountTrue(S[b := false]) + 1 == CountTrue(S) && CountTrue(E[b := false]) + 1 == CountTrue(E)
  {
    var S2, E2 := S[b := false], E[b := false];
    OpenPrefix(S, E, S2, E2, b - 1);
    assert Open(S, E, b - 1);
    assert Open(S2, E2, b) == Open(S, E, b);
    OpenAgreeAll(S, E, S2, E2, b);
    WellFormedFromWindow(S, E, S2, E2, b, b);
    CountTrueClear(S, b);
    CountTrueClear(E, b);
  }

  /**
   * Removing the segment opened at s: clearing its start marker and its end
   * marker keeps the markers well formed and uncovers exactly its frames.
   */
  lemma RemoveSegment(S: seq<bool>, E: seq<bool>, s: int)
    requires WellFormed(S, E) && 0 <= s < |S| && S[s]
    ensures SegEnd(E, s) <= |S|
    ensures WellFormed(S[s := false], E[SegEnd(E, s) := false])
    ensures forall x :: -1 <= x < |S| ==>
      Open(S[s := false], E[SegEnd(E, s) := false], x) == (Open(S, E, x) && !(s <= x < SegEnd(E, s)))
    ensures CountTrue(S[s := false]) + 1 == CountTrue(S)
    ensures CountTrue(E[SegEnd(E, s) := false]) + 1 == CountTrue(E)
  {
    var e := SegEnd(E, s);
    SegmentEnds(S, E, s);
    var S2, E2 := S[s := false], E[e := false];
    OpenPrefix(S, E, S2, E2, s - 1);
    assert !Open(S2, E2, s);
    forall x | s <= x < e
      ensures Open(S, E, x) && (x > s ==> !S2[x])
    {
      SegmentInterior(S, E, s, x);
    }
    forall x | s <= x < e
      ensures !Open(S2, E2, x)
    {
      ClosedUntilStart(S2, E2, s, x);
    }
    if e < |S| {
      assert Open(S2, E2, e) == Open(S, E, e);
      OpenAgreeAll(S, E, S2, E2, e);
    }
    WellFormedFromWindow(S, E, S2, E2, s, e);
    CountTrueClear(S, s);
    CountTrueClear(E, e);
  }

  /**
   * Cutting the segment opened at s at an interior frame q (start and end
   * marker at q) keeps the markers well formed and every frame's coverage.
   */
  lemma SplitAt(S: seq<bool>, E: seq<bool>, s: int, q: int)
    requires WellFormed(S, E) && 0 <= s < |S| && S[s] && s < q < SegEnd(E, s)
    ensures q < |S| && !S[q] && !E[q]
    ensures WellFormed(S[q := true], E[q := true])
    ensures forall x :: -1 <= x < |S| ==> Open(S[q := true], E[q := true], x) == Open(S, E, x)
    ensures CountTrue(S[q := true]) == CountTrue(S) + 1 && CountTrue(E[q := true]) == CountTrue(E) + 1
  {
    SegmentInterior(S, E, s, q);
    SegmentInterior(S, E, s, q - 1);
    var S2, E2 := S[q := true], E[q := true];
    OpenPrefix(S, E, S2, E2, q - 1);
    OpenAgreeAll(S, E, S2, E2, q);
    WellFormedFromWindow(S, E, S2, E2, q, q);
    CountTrueSet(S, q);
    CountTrueSet(E, q);
  }

  // ---------------------------------------------------------------------------
  // Absorbing one uncovered frame next to a segment.

  /** Markers after absorbing frame n, just past a segment ending at n. */
  function AbsorbedAfter(S: seq<bool>, E: seq<bool>, n: int, own: bool): (SE: (seq<bool>, seq<bool>))
    requires Shaped(S, E) && 0 <= n < |S|
  {
    if own then (S[n := true], E[n + 1 := true]) else (S, E[n := false][n + 1 := true])
  }

  /** Markers after absorbing frame n - 1, just before a segment starting at n. */
  function AbsorbedBefore(S: seq<bool>, E: seq<bool>, n: int, own: bool): (SE: (seq<bool>, seq<bool>))
    requires Shaped(S, E) && 0 < n < |S|
  {
    if own then (S[n - 1 := true], E[n := true]) else (S[n := false][n - 1 := true], E)
  }

  /** Covering one more frame adds one to the count of covered frames. */
  lemma CoverOneMore(S: seq<bool>, E: seq<bool>, S2: seq<bool>, E2: seq<bool>, m: int)
    requires Shaped(S, E) && Shaped(S2, E2) && |S2| == |S| && 0 <= m < |S| && !Open(S, E, m)
    requires forall x :: 0 <= x < |S| ==> Open(S2, E2, x) == (Open(S, E, x) || x == m)
    ensures CoveredCount(S2, E2) == CoveredCount(S, E) + 1
  {
    assert Coverage(S2, E2) == Coverage(S, E)[m := true];
    CountTrueSet(Coverage(S, E), m);
  }

  lemma AbsorbAfterOwn(S: seq<bool>, E: seq<bool>, n: int)
    requires WellFormed(S, E) && 0 <= n < |S| && E[n] && !S[n]
    ensures WellFormed(S[n := true], E[n + 1 := true])
    ensures forall x :: -1 <= x < |S| ==> Open(S[n := true], E[n + 1 := true], x) == (Open(S, E, x) || x == n)
  {
    var S2, E2 := S[n := true], E[n + 1 := true];
    assert Open(S, E, n - 1) && !Open(S, E, n);
    OpenPrefix(S, E, S2, E2, n - 1);
    assert Open(S2, E2, n);
    if n + 1 < |S| {
      assert Open(S2, E2, n + 1) == Open(S, E, n + 1);
      OpenAgreeAll(S, E, S2, E2, n + 1);
    }
    WellFormedFromWindow(S, E, S2, E2, n, n + 1);
  }

  lemma AbsorbAfterSlide(S: seq<bool>, E: seq<bool>, n: int)
    requires WellFormed(S, E) && 0 <= n < |S| && E[n] && !S[n]
    ensures WellFormed(S, E[n := false][n + 1 := true])
    ensures forall x :: -1 <= x < |S| ==> Open(S, E[n := false][n + 1 := true], x) == (Open(S, E, x) || x == n)
  {
    var S2, E2 := S, E[n := false][n + 1 := true];
    assert Open(S, E, n - 1);
    OpenPrefix(S, E, S2, E2, n - 1);
    assert Open(S2, E2, n);
    if n + 1 < |S| {
      assert Open(S2, E2, n + 1) == Open(S, E, n + 1);
      OpenAgreeAll(S, E, S2, E2, n + 1);
    }
    WellFormedFromWindow(S, E, S2, E2, n, n + 1);
  }

  /**
   * Absorbing frame n after a segment that ends at n: either frame n becomes
   * a segment of its own (`own`) or the segment's end moves from n to n + 1.
   * Either way exactly frame n becomes covered.
   */
  lemma AbsorbAfter(S: seq<bool>, E: seq<bool>, n: int, own: bool)
    requires WellFormed(S, E) && 0 <= n < |S| && E[n] && !S[n]
    ensures n > 0 && !Open(S, E, n) && !E[n + 1]
    ensures WellFormed(AbsorbedAfter(S, E, n, own).0, AbsorbedAfter(S, E, n, own).1)
    ensures forall x :: -1 <= x < |S| ==>
      Open(AbsorbedAfter(S, E, n, own).0, AbsorbedAfter(S, E, n, own).1, x) == (Open(S, E, x) || x == n)
    ensures CoveredCount(AbsorbedAfter(S, E, n, own).0, AbsorbedAfter(S, E, n, own).1) == CoveredCount(S, E) + 1
  {
    assert Open(S, E, n - 1);
    var (S2, E2) := AbsorbedAfter(S, E, n, own);
    if own { AbsorbAfterOwn(S, E, n); } else { AbsorbAfterSlide(S, E, n); }
    CoverOneMore(S, E, S2, E2, n);
  }

  lemma AbsorbBeforeOwn(S: seq<bool>, E: seq<bool>, n: int)
    requires WellFormed(S, E) && 0 < n < |S| && S[n] && !E[n]
    ensures WellFormed(S[n - 1 := true], E[n := true])
    ensures forall x :: -1 <= x < |S| ==> Open(S[n - 1 := true], E[n := true], x) == (Open(S, E, x) || x == n - 1)
  {
    var S2, E2 := S[n - 1 := true], E[n := true];
    assert !Open(S, E, n - 1);
    OpenPrefix(S, E, S2, E2, n - 2);
    assert Open(S2, E2, n) == Open(S, E, n);
    OpenAgreeAll(S, E, S2, E2, n);
    WellFormedFromWindow(S, E, S2, E2, n - 1, n);
  }

  lemma AbsorbBeforeSlide(S: seq<bool>, E: seq<bool>, n: int)
    requires WellFormed(S, E) && 0 < n < |S| && S[n] && !E[n]
    ensures WellFormed(S[n := false][n - 1 := true], E)
    ensures forall x :: -1 <= x < |S| ==> Open(S[n := false][n - 1 := true], E, x) == (Open(S, E, x) || x == n - 1)
  {
    var S2, E2 := S[n := false][n - 1 := true], E;
    assert !Open(S, E, n - 1);
    OpenPrefix(S, E, S2, E2, n - 2);
    assert Open(S2, E2, n - 1);
    assert Open(S2, E2, n) == Open(S, E, n);
    OpenAgreeAll(S, E, S2, E2, n);
    WellFormedFromWindow(S, E, S2, E2, n - 1, n);
  }

  /**
   * Absorbing frame n - 1 before a segment that starts at n: either frame
   * n - 1 becomes a segment of its own (`own`) or the segment's start moves
   * from n to n - 1. Either way exactly frame n - 1 becomes covered.
   */
  lemma AbsorbBefore(S: seq<bool>, E: seq<bool>, n: int, own: bool)
    requires WellFormed(S, E) && 0 < n < |S| && S[n] && !E[n]
    ensures !Open(S, E, n - 1) && !S[n - 1]
    ensures WellFormed(AbsorbedBefore(S, E, n, own).0, AbsorbedBefore(S, E, n, own).1)
    ensures forall x :: -1 <= x < |S| ==>
      Open(AbsorbedBefore(S, E, n, own).0, AbsorbedBefore(S, E, n, own).1, x) == (Open(S, E, x) || x == n - 1)
    ensures CoveredCount(AbsorbedBefore(S, E, n, own).0, AbsorbedBefore(S, E, n, own).1) == CoveredCount(S, E) + 1
  {
    var (S2, E2) := AbsorbedBefore(S, E, n, own);
    if own { AbsorbBeforeOwn(S, E, n); } else { AbsorbBeforeSlide(S, E, n); }
    CoverOneMore(S, E, S2, E2, n - 1);
  }

  /** Whether padding can absorb a frame at marker position n (either side). */
  predicate CanAbsorb(S: seq<bool>, E: seq<bool>, n: int)
    requires Shaped(S, E) && 0 <= n <= |S|
  {
    (E[n] && n < |S| && !S[n]) || (n < |S| && S[n] && n > 0 && !E[n])
  }

  /** No marker position can absorb a frame. */
  predicate Saturated(S: seq<bool>, E: seq<bool>)
    requires Shaped(S, E)
  {
    forall n :: 0 <= n <= |S| ==> !CanAbsorb(S, E, n)
  }

  /** Every start marker before position k is at frame 0 when nothing can be absorbed. */
  lemma {:induction false} SaturatedFirstStart(S: seq<bool>, E: seq<bool>, k: int)
    requires WellFormed(S, E) && Saturated(S, E) && 0 <= k < |S| && S[k]
    ensures S[0]
    decreases k
  {
    if k > 0 {
      assert !CanAbsorb(S, E, k);
      assert Open(S, E, k - 1);
      CoveredHasStart(S, E, k - 1);
      SaturatedFirstStart(S, E, LastStart(S, k - 1));
    }
  }

  lemma {:induction false} SaturatedOpen(S: seq<bool>, E: seq<bool>, x: int)
    requires WellFormed(S, E) && Saturated(S, E) && 0 <= x < |S| && S[0]
    ensures Open(S, E, x)
    decreases x
  {
    if x > 0 {
      SaturatedOpen(S, E, x - 1);
      assert !CanAbsorb(S, E, x);
    }
  }

  /**
   * When no frame can be absorbed, either no segment is left or the
   * segments cover the whole recording.
   */
  lemma SaturatedCoversAll(S: seq<bool>, E: seq<bool>)
    requires WellFormed(S, E) && Saturated(S, E)
    ensures CoveredCount(S, E) == 0 || CoveredCount(S, E) == |S|
  {
    var c := Coverage(S, E);
    if exists k :: 0 <= k < |S| && S[k] {
      var k :| 0 <= k < |S| && S[k];
      SaturatedFirstStart(S, E, k);
      forall x | 0 <= x < |S| ensures c[x] {
        SaturatedOpen(S, E, x);
      }
      AllTrueCount(c);
    } else {
      forall x | 0 <= x < |S| ensures !c[x] {
        ClosedUntilStart(S, E, -1, x);
      }
    }
  }

  lemma {:induction false} AllTrueCount(c: seq<bool>)
    requires forall x :: 0 <= x < |c| ==> c[x]
    ensures CountTrue(c) == |c|
    decreases |c|
  {
    if c != [] {
      AllTrueCount(c[..|c| - 1]);
    }
  }

  /** The backward scan from b: the start of the segment left of b, or -1. */
  method ScanBack(S: seq<bool>, b: int) returns (p: int)
    requires 0 <= b <= |S|
    ensures p == LastStart(S, b - 1)
  {
    p := b - 1;
    while p >= 0
      invariant -1 <= p < b
      invariant forall q :: p < q < b ==> !S[q]
    {
      if S[p] {
        break;
      }
      p := p - 1;
    }
    LastStartUnique(S, b - 1, p);
  }

  /** The forward scan from `from`: the first end marker, or one past the last position. */
  method ScanForward(E: seq<bool>, from: int) returns (p: int)
    requires 0 <= from <= |E|
    ensures p == NextEnd(E, from)
  {
    p := from;
    while p <= |E| - 1
      invariant from <= p <= |E|
      invariant forall q :: from <= q < p ==> !E[q]
    {
      if E[p] {
        break;
      }
      p := p + 1;
    }
    NextEndUnique(E, from, p);
  }

  /** A segment ending at c is the one started by the last start before c. */
  lemma SegmentOwner(S: seq<bool>, E: seq<bool>, s: int, c: int)
    requires WellFormed(S, E) && 0 <= s < |S| && S[s] && SegEnd(E, s) == c
    ensures s < c <= |S| && LastStart(S, c - 1) == s
  {
    SegmentEnds(S, E, s);
    forall q | s < q <= c - 1
      ensures !S[q]
    {
      SegmentInterior(S, E, s, q);
    }
    LastStartUnique(S, c - 1, s);
  }

  /** Every end marker closes the segment of the last start before it. */
  lemma EndOwner(S: seq<bool>, E: seq<bool>, x: int)
    requires WellFormed(S, E) && 0 <= x <= |S| && E[x]
    ensures x >= 1 && LastStart(S, x - 1) >= 0 && SegEnd(E, LastStart(S, x - 1)) == x
  {
    CoveredHasStart(S, E, x - 1);
    NextEndUnique(E, LastStart(S, x - 1) + 1, x);
  }
}
