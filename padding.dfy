/**
 * The second phase of the resegmenter: segments are padded with absorbable
 * frames (non-speech in the speech-based segmenter, silence in the
 * silence-based one), one frame at a time and round-robin over the marker
 * positions, until the segments hold a target number of frames.
 */
module Padding {
  import opened Markers
  import opened FrameCodes
  import opened SegmentState

  /** A marker position: an end marker, or a start marker of a frame. */
  predicate MarkerAt(S: seq<bool>, E: seq<bool>, n: int)
    requires Shaped(S, E) && 0 <= n <= |S|
  {
    E[n] || (n < |S| && S[n])
  }

  /**
   * The scan that opens the padding: counts the frames inside segments and
   * lists every marker position in increasing order (a position that holds
   * both markers is listed twice). The scan's asserts hold for well-formed
   * markers.
   */
  method ScanSegments(S: seq<bool>, E: seq<bool>) returns (frames: nat, active: seq<int>)
    requires WellFormed(S, E)
    ensures frames == CoveredCount(S, E)
    ensures forall k :: 0 <= k < |active| ==> 0 <= active[k] <= |S| && MarkerAt(S, E, active[k])
    ensures forall n :: 0 <= n <= |S| && MarkerAt(S, E, n) ==> n in active
    ensures forall k, l :: 0 <= k < l < |active| ==> active[k] <= active[l]
  {
    var N := |S|;
    var inSegment := false;
    frames, active := 0, [];
    ghost var c := Coverage(S, E);
    for n := 0 to N + 1
      invariant inSegment == (n <= N && Open(S, E, n - 1))
      invariant frames == CountTrue(c[..if n <= N then n else N])
      invariant Listed(S, E, active, n)
    {
      var found;
      found, inSegment := ScanPosition(S, E, n, inSegment);
      ListedStep(S, E, active, found, n);
      active := active + found;
      if n < N {
        CountPrefixStep(c, n);
        if inSegment {
          frames := frames + 1;
        }
      }
    }
    assert c[..N] == c;
  }

  lemma CountPrefixStep(c: seq<bool>, n: nat)
    requires n < |c|
    ensures CountTrue(c[..n + 1]) == CountTrue(c[..n]) + (if c[n] then 1 else 0)
  {
    assert c[..n + 1][..n] == c[..n];
  }

  /** The marker positions before n, each listed, in increasing order. */
  predicate Listed(S: seq<bool>, E: seq<bool>, active: seq<int>, n: int)
    requires Shaped(S, E)
  {
    (forall k :: 0 <= k < |active| ==> 0 <= active[k] < n && active[k] <= |S| && MarkerAt(S, E, active[k])) &&
    (forall m :: 0 <= m < n && m <= |S| && MarkerAt(S, E, m) ==> m in active) &&
    (forall k, l :: 0 <= k < l < |active| ==> active[k] <= active[l])
  }

  lemma ListedStep(S: seq<bool>, E: seq<bool>, active: seq<int>, found: seq<int>, n: int)
    requires Shaped(S, E) && 0 <= n <= |S| && Listed(S, E, active, n)
    requires forall k :: 0 <= k < |found| ==> found[k] == n
    requires |found| > 0 <==> MarkerAt(S, E, n)
    ensures Listed(S, E, active + found, n + 1)
  {
    var a := active + found;
    forall m | 0 <= m < n + 1 && m <= |S| && MarkerAt(S, E, m)
      ensures m in a
    {
      if m == n {
        assert a[|active|] == n;
      } else {
        assert m in active;
      }
    }
  }

  /** One position of the scan: the markers found there, and whether the next frame is inside a segment. */
  method ScanPosition(S: seq<bool>, E: seq<bool>, n: int, inSegment: bool) returns (found: seq<int>, inSegment': bool)
    requires WellFormed(S, E) && 0 <= n <= |S| && inSegment == Open(S, E, n - 1)
    ensures inSegment' == (n < |S| && Open(S, E, n))
    ensures forall k :: 0 <= k < |found| ==> found[k] == n
    ensures |found| > 0 <==> MarkerAt(S, E, n)
  {
    ScanStep(S, E, n);
    found, inSegment' := [], inSegment;
    if E[n] {
      assert inSegment';
      inSegment' := false;
      found := found + [n];
    }
    if n < |S| && S[n] {
      assert !inSegment';
      inSegment' := true;
      found := found + [n];
    }
    if n == |S| {
      assert !inSegment';
    }
  }

  /** What one step of the scan needs from well-formed markers. */
  lemma ScanStep(S: seq<bool>, E: seq<bool>, n: int)
    requires WellFormed(S, E) && 0 <= n <= |S|
    ensures n < |S| ==> (E[n] ==> Open(S, E, n - 1)) && (S[n] && !E[n] ==> !Open(S, E, n - 1))
    ensures n < |S| ==> Open(S, E, n) == (S[n] || (Open(S, E, n - 1) && !E[n]))
    ensures n == |S| ==> E[n] == Open(S, E, n - 1)
  {
  }

  /**
   * Target number of segment frames for a proportion `propNum / propDen` of
   * padding: the source's int(frames / (1 - proportion)), the largest t with
   * t * (1 - proportion) <= frames.
   */
  function TargetFrames(frames: nat, propNum: nat, propDen: nat): (t: nat)
    requires propNum < propDen
    ensures t >= frames
    ensures t * (propDen - propNum) <= frames * propDen < (t + 1) * (propDen - propNum)
  {
    FloorDiv(frames * propDen, propDen - propNum, frames);
    (frames * propDen) / (propDen - propNum)
  }

  lemma FloorDiv(x: nat, y: nat, a: nat)
    requires y > 0 && a * y <= x
    ensures (x / y) * y <= x < (x / y + 1) * y
    ensures a <= x / y
  {
    var q, r := x / y, x % y;
    assert x == q * y + r && 0 <= r < y;
  }

  /**
   * The padding loop. Each pass visits the work-list entries present when the
   * pass starts; at an end marker not shared with a start it absorbs the
   * frame after the segment, at a start marker not shared with an end it
   * absorbs the frame before it. An absorbed frame of code c becomes c + 9;
   * if its code differs from its neighbour inside the segment it becomes a
   * segment of its own, otherwise the marker slides over it. The loop stops
   * at the target or after a pass that changed nothing.
   */
  method PadSegments(v: Variant, B: seq<int>, S0: seq<bool>, E0: seq<bool>,
                     active0: seq<int>, frames: nat, target: int)
    returns (A: seq<int>, S: seq<bool>, E: seq<bool>, total: nat)
    requires Padded(v, B, B, S0, E0)
    requires frames == CoveredCount(S0, E0)
    requires forall k :: 0 <= k < |active0| ==> 0 <= active0[k] <= |S0|
    requires forall n :: 0 <= n <= |S0| && MarkerAt(S0, E0, n) ==> n in active0
    ensures Padded(v, A, B, S, E)
    ensures forall i :: 0 <= i < |A| && Open(S0, E0, i) ==> Open(S, E, i)
    ensures total == CoveredCount(S, E) && total >= frames
    ensures total >= target || Saturated(S, E)
    ensures total <= (if frames < target then target else frames)
    ensures frames >= target ==> A == B && S == S0 && E == E0
    ensures CountTrue(S) == CountTrue(E)
  {
    var N := |B|;
    A, S, E, total := B, S0, E0, frames;
    var active := active0;
    CountTrueBound(Coverage(S, E));
    while total < target
      invariant PadInvariant(v, B, frames, A, S, E, active, total)
      invariant total <= (if frames < target then target else frames)
      invariant frames >= target ==> A == B && S == S0 && E == E0
      decreases N - total
    {
      var changed;
      A, S, E, active, total, changed := PadPass(v, B, frames, A, S, E, active, total, target);
      if !changed {
        break;
      }
    }
    SegmentFramesKept(v, B, S0, E0, A, S, E);
    CountsBalance(S, E);
  }

  /**
   * One pass of the padding loop over the work-list entries present when it
   * starts; it stops early at the target. A pass that changes nothing leaves
   * no marker that can absorb a frame.
   */
  method PadPass(v: Variant, B: seq<int>, ghost frames: nat,
                 A: seq<int>, S: seq<bool>, E: seq<bool>, active: seq<int>, total: nat, target: int)
    returns (A': seq<int>, S': seq<bool>, E': seq<bool>, active': seq<int>, total': nat, changed: bool)
    requires PadInvariant(v, B, frames, A, S, E, active, total) && total < target
    ensures PadInvariant(v, B, frames, A', S', E', active', total')
    ensures changed ==> total < total' <= target
    ensures !changed ==> (A', S', E', active', total') == (A, S, E, active, total) && Saturated(S, E)
  {
    A', S', E', active', total', changed := A, S, E, active, total, false;
    var len := |active|;
    for i := 0 to len
      invariant PadInvariant(v, B, frames, A', S', E', active', total')
      invariant |active'| >= len
      invariant changed ==> total' > total
      invariant total' < target
      invariant !changed ==> (A', S', E', active', total') == (A, S, E, active, total)
      invariant !changed ==> forall k :: 0 <= k < i ==> !CanAbsorb(S, E, active[k])
    {
      var c;
      A', S', E', active', total', c := PadAt(v, B, frames, A', S', E', active', total', i);
      changed := changed || c;
      if total' >= target {
        break;
      }
    }
    if !changed {
      NoneAbsorbs(v, B, frames, A, S, E, active, total);
    }
  }

  /** When no listed marker can absorb a frame, no marker at all can. */
  lemma NoneAbsorbs(v: Variant, B: seq<int>, frames: nat, A: seq<int>, S: seq<bool>, E: seq<bool>, active: seq<int>, total: nat)
    requires PadInvariant(v, B, frames, A, S, E, active, total)
    requires forall k :: 0 <= k < |active| ==> !CanAbsorb(S, E, active[k])
    ensures Saturated(S, E)
  {
    forall n | 0 <= n <= |S| ensures !CanAbsorb(S, E, n) {
      if MarkerAt(S, E, n) {
        var k :| 0 <= k < |active| && active[k] == n;
      }
    }
  }

  lemma CountTrueBound(c: seq<bool>)
    ensures CountTrue(c) <= |c|
  {
  }

  /**
   * Padding never takes a frame out of a segment: a frame inside an initial
   * segment has a covered input code, which is never converted.
   */
  lemma SegmentFramesKept(v: Variant, B: seq<int>, S0: seq<bool>, E0: seq<bool>, A: seq<int>, S: seq<bool>, E: seq<bool>)
    requires Padded(v, B, B, S0, E0) && Padded(v, A, B, S, E)
    ensures forall i :: 0 <= i < |A| && Open(S0, E0, i) ==> Open(S, E, i)
  {
    forall i | 0 <= i < |A| && Open(S0, E0, i) ensures Open(S, E, i) {
      assert CoveredAt(v, B, S0, E0, i) && CoveredAt(v, A, S, E, i);
    }
  }

  /** What the padding loop keeps: the padded relations, the frame count and the work-list. */
  predicate PadInvariant(v: Variant, B: seq<int>, frames: nat,
                         A: seq<int>, S: seq<bool>, E: seq<bool>, active: seq<int>, total: nat)
  {
    Padded(v, A, B, S, E) &&
    total == CoveredCount(S, E) && frames <= total <= |A| &&
    (forall k :: 0 <= k < |active| ==> 0 <= active[k] <= |A|) &&
    (forall n :: 0 <= n <= |A| && MarkerAt(S, E, n) ==> n in active)
  }

  /**
   * One visit of work-list entry i: absorb the frame after a segment ending
   * there, then the frame before a segment starting there. After the
   * first absorption the entry is not a start without an end, so at most
   * one applies and a visit covers at most one more frame.
   */
  method PadAt(v: Variant, B: seq<int>, ghost frames: nat,
               A: seq<int>, S: seq<bool>, E: seq<bool>, active: seq<int>, total: nat, i: int)
    returns (A': seq<int>, S': seq<bool>, E': seq<bool>, active': seq<int>, total': nat, changed: bool)
    requires PadInvariant(v, B, frames, A, S, E, active, total)
    requires 0 <= i < |active|
    ensures PadInvariant(v, B, frames, A', S', E', active', total')
    ensures |active'| >= |active|
    ensures changed <==> total' > total
    ensures changed ==> total' == total + 1
    ensures !changed ==> (A', S', E', active', total') == (A, S, E, active, total) && !CanAbsorb(S, E, active[i])
    ensures changed ==> (0 < active[i] < |A| == |B| &&
      var n := active[i];
      var own := B[n - 1] != B[n];
      (E[n] && !S[n] && A' == A[n := B[n] + 9] && (S', E') == AbsorbedAfter(S, E, n, own)) ||
      (S[n] && !E[n] && A' == A[n - 1 := B[n - 1] + 9] && (S', E') == AbsorbedBefore(S, E, n, own)))
  {
    var n := active[i];
    A', S', E', active', total', changed := PadAfter(v, B, frames, A, S, E, active, total, i);
    if n < |A'| && S'[n] && n > 0 && !E'[n] {
      A', S', E', active', total', changed := PadBefore(v, B, frames, A', S', E', active', total', i);
    }
  }

  /** The frame after a segment ending at work-list entry i is absorbed, when that entry is an end and not a start. */
  method PadAfter(v: Variant, B: seq<int>, ghost frames: nat,
                  A: seq<int>, S: seq<bool>, E: seq<bool>, active: seq<int>, total: nat, i: int)
    returns (A': seq<int>, S': seq<bool>, E': seq<bool>, active': seq<int>, total': nat, changed: bool)
    requires PadInvariant(v, B, frames, A, S, E, active, total)
    requires 0 <= i < |active|
    ensures PadInvariant(v, B, frames, A', S', E', active', total')
    ensures |active'| >= |active| && |A'| == |A|
    ensures changed <==> total' > total
    ensures changed ==> total' == total + 1 && (E'[active[i]] || active[i] == |A| || !S'[active[i]])
    ensures changed ==> (0 < active[i] < |A| == |B| &&
      var n := active[i];
      var own := B[n - 1] != B[n];
      E[n] && !S[n] && A' == A[n := B[n] + 9] && (S', E') == AbsorbedAfter(S, E, n, own) &&
      active' == (if own then active + [n + 1] else active[i := n + 1]))
    ensures !changed ==> ((A', S', E', active', total') == (A, S, E, active, total) &&
                          !(E[active[i]] && active[i] < |A| && !S[active[i]]))
  {
    var N := |A|;
    A', S', E', active', total', changed := A, S, E, active, total, false;
    var n := active'[i];
    if E'[n] && n < N && !S'[n] {
      PadAfterStep(v, B, frames, A', S', E', active', total', i, B[n - 1] != B[n]);
      A' := A'[n := B[n] + 9];
      if B[n - 1] != B[n] {
        S' := S'[n := true];
        active' := active' + [n + 1];
      } else {
        E' := E'[n := false];
        active' := active'[i := n + 1];
      }
      E' := E'[n + 1 := true];
      total' := total' + 1;
      changed := true;
    }
  }

  /** The frame before a segment starting at work-list entry i is absorbed, when that entry is a start and not an end. */
  method PadBefore(v: Variant, B: seq<int>, ghost frames: nat,
                   A: seq<int>, S: seq<bool>, E: seq<bool>, active: seq<int>, total: nat, i: int)
    returns (A': seq<int>, S': seq<bool>, E': seq<bool>, active': seq<int>, total': nat, changed: bool)
    requires PadInvariant(v, B, frames, A, S, E, active, total)
    requires 0 <= i < |active| && 0 < active[i] < |A| && S[active[i]] && !E[active[i]]
    ensures PadInvariant(v, B, frames, A', S', E', active', total')
    ensures |active'| >= |active| && total' == total + 1 && changed
    ensures |A| == |B| &&
      var n := active[i];
      var own := B[n - 1] != B[n];
      A' == A[n - 1 := B[n - 1] + 9] && (S', E') == AbsorbedBefore(S, E, n, own) &&
      active' == (if own then active + [n - 1] else active[i := n - 1])
  {
    var n := active[i];
    PadBeforeStep(v, B, frames, A, S, E, active, total, i, B[n - 1] != B[n]);
    A', S', E', active' := A[n - 1 := B[n - 1] + 9], S, E, active;
    if B[n - 1] != B[n] {
      E' := E'[n := true];
      active' := active' + [n - 1];
    } else {
      S' := S'[n := false];
      active' := active'[i := n - 1];
    }
    S' := S'[n - 1 := true];
    total' := total + 1;
    changed := true;
  }

  /** Absorbing the frame after the segment ending at work-list entry i keeps the loop invariant. */
  lemma PadAfterStep(v: Variant, B: seq<int>, frames: nat,
                     A: seq<int>, S: seq<bool>, E: seq<bool>, active: seq<int>, total: nat, i: int, own: bool)
    requires PadInvariant(v, B, frames, A, S, E, active, total)
    requires 0 <= i < |active| && active[i] < |A| && E[active[i]] && !S[active[i]]
    ensures var n := active[i];
      n > 0 && A[n] == B[n] && Absorbable(v, B[n]) &&
      PadInvariant(v, B, frames, A[n := B[n] + 9], AbsorbedAfter(S, E, n, own).0, AbsorbedAfter(S, E, n, own).1,
                   if own then active + [n + 1] else active[i := n + 1], total + 1)
  {
    var n := active[i];
    AbsorbAfter(S, E, n, own);
    AbsorbAfterCodes(v, A, B, S, E, n, own);
    var (S2, E2) := AbsorbedAfter(S, E, n, own);
    CountTrueBound(Coverage(S2, E2));
    AfterWorkList(S, E, active, i, own);
  }

  /** After absorbing past the end marker active[i], the work list still lists every marker. */
  lemma AfterWorkList(S: seq<bool>, E: seq<bool>, active: seq<int>, i: int, own: bool)
    requires Shaped(S, E) && forall k :: 0 <= k < |active| ==> 0 <= active[k] <= |S|
    requires 0 <= i < |active| && active[i] < |S| && E[active[i]] && !S[active[i]]
    requires forall m :: 0 <= m <= |S| && MarkerAt(S, E, m) ==> m in active
    ensures var n := active[i];
      var active2 := if own then active + [n + 1] else active[i := n + 1];
      (forall k :: 0 <= k < |active2| ==> 0 <= active2[k] <= |S|) &&
      forall m :: 0 <= m <= |S| && MarkerAt(AbsorbedAfter(S, E, n, own).0, AbsorbedAfter(S, E, n, own).1, m) ==> m in active2
  {
    var n := active[i];
    var (S2, E2) := AbsorbedAfter(S, E, n, own);
    AfterMarkers(S, E, n, own);
    WorkListUpdate(S, E, S2, E2, active, i, n + 1, own);
  }

  /** Absorbing after n adds no marker except at n + 1, and drops the one at n unless the frame becomes its own segment. */
  lemma AfterMarkers(S: seq<bool>, E: seq<bool>, n: int, own: bool)
    requires Shaped(S, E) && 0 <= n < |S| && E[n] && !S[n]
    ensures var (S2, E2) := AbsorbedAfter(S, E, n, own);
      Shaped(S2, E2) && |S2| == |S| &&
      forall m :: 0 <= m <= |S| && MarkerAt(S2, E2, m) && m != n + 1 ==> MarkerAt(S, E, m) && (own || m != n)
  {
  }

  /** Absorbing the frame before the segment starting at work-list entry i keeps the loop invariant. */
  lemma PadBeforeStep(v: Variant, B: seq<int>, frames: nat,
                      A: seq<int>, S: seq<bool>, E: seq<bool>, active: seq<int>, total: nat, i: int, own: bool)
    requires PadInvariant(v, B, frames, A, S, E, active, total)
    requires 0 <= i < |active| && 0 < active[i] < |A| && S[active[i]] && !E[active[i]]
    ensures var n := active[i];
      A[n - 1] == B[n - 1] && Absorbable(v, B[n - 1]) &&
      PadInvariant(v, B, frames, A[n - 1 := B[n - 1] + 9], AbsorbedBefore(S, E, n, own).0, AbsorbedBefore(S, E, n, own).1,
                   if own then active + [n - 1] else active[i := n - 1], total + 1)
  {
    var n := active[i];
    AbsorbBefore(S, E, n, own);
    AbsorbBeforeCodes(v, A, B, S, E, n, own);
    var (S2, E2) := AbsorbedBefore(S, E, n, own);
    CountTrueBound(Coverage(S2, E2));
    BeforeWorkList(S, E, active, i, own);
  }

  /** After absorbing before the start marker active[i], the work list still lists every marker. */
  lemma BeforeWorkList(S: seq<bool>, E: seq<bool>, active: seq<int>, i: int, own: bool)
    requires Shaped(S, E) && forall k :: 0 <= k < |active| ==> 0 <= active[k] <= |S|
    requires 0 <= i < |active| && 0 < active[i] < |S| && S[active[i]] && !E[active[i]]
    requires forall m :: 0 <= m <= |S| && MarkerAt(S, E, m) ==> m in active
    ensures var n := active[i];
      var active2 := if own then active + [n - 1] else active[i := n - 1];
      (forall k :: 0 <= k < |active2| ==> 0 <= active2[k] <= |S|) &&
      forall m :: 0 <= m <= |S| && MarkerAt(AbsorbedBefore(S, E, n, own).0, AbsorbedBefore(S, E, n, own).1, m) ==> m in active2
  {
    var n := active[i];
    var (S2, E2) := AbsorbedBefore(S, E, n, own);
    WorkListUpdate(S, E, S2, E2, active, i, n - 1, own);
  }

  /**
   * The work-list keeps every marker position when the new markers are old
   * ones, or the new position; an entry replaced in place must not be a
   * marker any more.
   */
  lemma WorkListUpdate(S: seq<bool>, E: seq<bool>, S2: seq<bool>, E2: seq<bool>,
                       active: seq<int>, i: int, p: int, own: bool)
    requires Shaped(S, E) && Shaped(S2, E2) && |S2| == |S| && 0 <= i < |active|
    requires forall m :: 0 <= m <= |S| && MarkerAt(S, E, m) ==> m in active
    requires forall m :: 0 <= m <= |S| && MarkerAt(S2, E2, m) && m != p ==>
      MarkerAt(S, E, m) && (own || m != active[i])
    ensures forall m :: 0 <= m <= |S| && MarkerAt(S2, E2, m) ==>
      m in (if own then active + [p] else active[i := p])
  {
    var active2 := if own then active + [p] else active[i := p];
    forall m | 0 <= m <= |S| && MarkerAt(S2, E2, m) ensures m in active2 {
      if m == p {
        assert active2[if own then |active| else i] == m;
      } else {
        var k :| 0 <= k < |active| && active[k] == m;
        assert active2[k] == m;
      }
    }
  }

  /**
   * Converting one uncovered absorbable frame m to m's code + 9 keeps the
   * padded relations when the new markers cover exactly one frame more and
   * add marker positions only at m and m + 1.
   */
  lemma ConvertKeepsPadded(v: Variant, A: seq<int>, B: seq<int>, S: seq<bool>, E: seq<bool>,
                           S2: seq<bool>, E2: seq<bool>, m: int)
    requires Padded(v, A, B, S, E) && WellFormed(S2, E2) && |S2| == |S|
    requires 0 <= m < |A| && A[m] == B[m] && Absorbable(v, B[m])
    requires forall x :: -1 <= x < |S| ==> Open(S2, E2, x) == (Open(S, E, x) || x == m)
    requires forall j :: 0 <= j < |S| && S2[j] && !S[j] ==> j == m || j == m + 1
    requires forall j :: 0 <= j <= |S| && E2[j] && !E[j] ==> j == m || j == m + 1
    ensures Padded(v, A[m := B[m] + 9], B, S2, E2)
  {
    CoveredCodes(v, B[m]);
    var A2 := A[m := B[m] + 9];
    assert CodesTrack(v, A2, B);
    forall i | 0 <= i < |A| ensures CoveredAt(v, A2, S2, E2, i) {
      assert CoveredAt(v, A, S, E, i);
    }
    forall j | 0 < j < |A| ensures TransitionAt(A2, S2, E2, j) {
      if j != m && j != m + 1 && (S2[j] || E2[j]) {
        assert TransitionAt(A, S, E, j);
      }
    }
  }

  /** The frame after a segment end that is not a start is unconverted and absorbable. */
  lemma AbsorbAfterCodes(v: Variant, A: seq<int>, B: seq<int>, S: seq<bool>, E: seq<bool>, n: int, own: bool)
    requires Padded(v, A, B, S, E) && 0 <= n < |A| && E[n] && !S[n]
    ensures n > 0 && A[n] == B[n] && Absorbable(v, B[n])
    ensures Padded(v, A[n := B[n] + 9], B, AbsorbedAfter(S, E, n, own).0, AbsorbedAfter(S, E, n, own).1)
  {
    AbsorbAfter(S, E, n, own);
    var (S2, E2) := AbsorbedAfter(S, E, n, own);
    assert CoveredAt(v, A, S, E, n);
    AfterChanges(S, E, n, own);
    ConvertKeepsPadded(v, A, B, S, E, S2, E2, n);
  }

  /** The frame before a segment start that is not an end is unconverted and absorbable. */
  lemma AbsorbBeforeCodes(v: Variant, A: seq<int>, B: seq<int>, S: seq<bool>, E: seq<bool>, n: int, own: bool)
    requires Padded(v, A, B, S, E) && 0 < n < |A| && S[n] && !E[n]
    ensures A[n - 1] == B[n - 1] && Absorbable(v, B[n - 1])
    ensures Padded(v, A[n - 1 := B[n - 1] + 9], B, AbsorbedBefore(S, E, n, own).0, AbsorbedBefore(S, E, n, own).1)
  {
    AbsorbBefore(S, E, n, own);
    var SE := AbsorbedBefore(S, E, n, own);
    assert CoveredAt(v, A, S, E, n - 1);
    BeforeChanges(S, E, n, own);
    ConvertKeepsPadded(v, A, B, S, E, SE.0, SE.1, n - 1);
  }

  /** Absorbing before n sets markers only at n - 1 and n. */
  lemma BeforeChanges(S: seq<bool>, E: seq<bool>, n: int, own: bool)
    requires Shaped(S, E) && 0 < n < |S|
    ensures var (S2, E2) := AbsorbedBefore(S, E, n, own);
      |S2| == |S| && |E2| == |E| &&
      (forall j :: 0 <= j < |S| && S2[j] && !S[j] ==> j == n - 1 || j == n) &&
      (forall j :: 0 <= j <= |S| && E2[j] && !E[j] ==> j == n - 1 || j == n)
  {
  }

  /** Absorbing after n sets markers only at n and n + 1. */
  lemma AfterChanges(S: seq<bool>, E: seq<bool>, n: int, own: bool)
    requires Shaped(S, E) && 0 <= n < |S|
    ensures var (S2, E2) := AbsorbedAfter(S, E, n, own);
      |S2| == |S| && |E2| == |E| &&
      (forall j :: 0 <= j < |S| && S2[j] && !S[j] ==> j == n || j == n + 1) &&
      (forall j :: 0 <= j <= |S| && E2[j] && !E[j] ==> j == n || j == n + 1)
  {
  }
}
