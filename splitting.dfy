/**
 * split_long_segments: every segment longer than the hard cap is cut into
 * equal pieces; the speech-based segmenter leaves alone long segments with no
 * silence or noise frame. Each frame position is visited in turn, so the
 * pieces are visited again and cut further when still too long.
 */
module Splitting {
  import opened Markers
  import opened FrameCodes

  /**
   * The piece count as the source computes it, int(len / hard + 0.99999),
   * evaluated exactly over the rationals.
   */
  function PiecesAsWritten(len: int, hard: int): int
    requires hard >= 1
  {
    (100000 * len + 99999 * hard) / (100000 * hard)
  }

  /**
   * With a hard cap above 100000 frames the formula rounds a length just
   * over the cap down to one piece, so no cut is made and the segment stays
   * longer than the cap.
   */
  lemma PiecesAsWrittenTooFew()
    ensures 200001 > 200000 && PiecesAsWritten(200001, 200000) == 1
  {
    assert 100000 * 200001 + 99999 * 200000 == 39999900000;
    assert 39999900000 / 20000000000 == 1;
  }

  /** The evidently intended piece count, the ceiling of len / hard. */
  function Pieces(len: int, hard: int): (k: int)
    requires hard >= 1 && len > hard
    ensures 2 <= k <= len
    ensures (k - 1) * hard < len <= k * hard
  {
    CeilFacts(len, hard);
    (len + hard - 1) / hard
  }

  lemma CeilFacts(len: int, hard: int)
    requires hard >= 1 && len > hard
    ensures var k := (len + hard - 1) / hard;
      2 <= k <= len && (k - 1) * hard < len <= k * hard
  {
    var k := (len + hard - 1) / hard;
    var m := (len + hard - 1) % hard;
    assert k * hard + m == len + hard - 1 && 0 <= m < hard;
    assert (k - 1) * hard == k * hard - hard;
    assert len <= k * hard;
    if k <= 1 {
      MulAtMost(k, 1, hard);
    }
    if k > len {
      MulAtMost(len + 1, k, hard);
      assert (len + 1) * hard == len * hard + hard;
      MulAtMost(1, hard, len);
    }
  }

  lemma MulAtMost(a: int, b: int, c: nat)
    requires a <= b
    ensures a * c <= b * c
  {
  }

  /**
   * For caps of at most 100000 frames the source's formula is the ceiling,
   * so the two agree wherever the cap is realistic.
   */
  lemma PiecesAgree(len: int, hard: int)
    requires 1 <= hard <= 100000 && len > hard
    ensures PiecesAsWritten(len, hard) == Pieces(len, hard)
  {
    var q, m := len / hard, len % hard;
    assert len == q * hard + m && 0 <= m < hard;
    var D := 100000 * hard;
    var rest := 100000 * m + 99999 * hard;
    assert 100000 * len + 99999 * hard == q * D + rest;
    if m == 0 {
      assert 0 <= rest < D;
      assert (len + hard - 1) == q * hard + (hard - 1);
      DivPlus(q, hard, hard - 1);
      DivPlus(q, D, rest);
    } else {
      assert D <= rest < 2 * D;
      assert (len + hard - 1) == (q + 1) * hard + (m - 1);
      DivPlus(q + 1, hard, m - 1);
      assert q * D + rest == (q + 1) * D + (rest - D);
      DivPlus(q + 1, D, rest - D);
    }
  }

  lemma DivPlus(q: int, d: int, r: int)
    requires d >= 1 && 0 <= r < d
    ensures (q * d + r) / d == q
  {
    var z, m := (q * d + r) / d, (q * d + r) % d;
    assert (z - q) * d == r - m;
    MulSmall(z - q, d);
  }

  lemma MulSmall(a: int, d: int)
    requires d >= 1 && -d < a * d < d
    ensures a == 0
  {
    if a >= 1 {
      MulAtLeast(a, d);
    } else if a <= -1 {
      MulAtLeast(-a, d);
    }
  }

  lemma {:induction false} MulAtLeast(a: int, d: int)
    requires a >= 1 && d >= 1
    ensures a * d >= d
    decreases a
  {
    if a > 1 {
      MulAtLeast(a - 1, d);
      assert a * d == (a - 1) * d + d;
    }
  }

  /** Frames per piece: at least one and at most the cap, and the pieces fit in the segment. */
  lemma PieceFacts(len: int, hard: int)
    requires hard >= 1 && len > hard
    ensures var k := Pieces(len, hard); var f := len / k;
      1 <= f <= hard && k * f <= len && len - (k - 1) * f >= f
  {
    var k := Pieces(len, hard);
    var f := len / k;
    var m := len % k;
    assert len == k * f + m && 0 <= m < k;
    assert len - (k - 1) * f == f + m;
  }

  /** The frames in [lo, hi) hold no silence or noise code. */
  predicate NoPause(v: Variant, A: seq<int>, lo: int, hi: int)
    requires 0 <= lo <= hi <= |A|
  {
    forall i :: lo <= i < hi ==> !Absorbable(v, A[i])
  }

  /** A segment the split leaves alone: within the cap, or for the speech-based segmenter free of silence and noise. */
  predicate SplitDone(v: Variant, A: seq<int>, E: seq<bool>, hard: int, s: int)
    requires 0 <= s < |A| && |E| == |A| + 1
  {
    var p := SegEnd(E, s);
    p - s <= hard || (v.Nonoise? && p <= |A| && NoPause(v, A, s, p))
  }

  /** New markers come in start/end pairs strictly inside an original segment that was too long. */
  predicate CutsInside(v: Variant, A: seq<int>, S: seq<bool>, E: seq<bool>, S': seq<bool>, E': seq<bool>, hard: int)
    requires Shaped(S, E) && Shaped(S', E') && |S'| == |S| == |A|
  {
    (forall x :: 0 <= x <= |S| ==> (E[x] ==> E'[x])) &&
    (forall x :: 0 <= x < |S| ==> (S[x] ==> S'[x])) &&
    (forall x :: 0 <= x < |S| && S'[x] && !S[x] ==> E'[x] && !E[x] && InLongSegment(v, A, S, E, hard, x)) &&
    (forall x :: 0 <= x <= |S| && E'[x] && !E[x] ==> x < |S| && S'[x] && !S[x])
  }

  /** Frame x is strictly inside an original segment longer than the cap (holding a pause, for the speech-based segmenter). */
  predicate InLongSegment(v: Variant, A: seq<int>, S: seq<bool>, E: seq<bool>, hard: int, x: int)
    requires Shaped(S, E) && |S| == |A| && 0 <= x < |S|
  {
    var s := LastStart(S, x);
    0 <= s < x < SegEnd(E, s) <= |S| && SegEnd(E, s) - s > hard &&
    (v.Nonoise? ==> !NoPause(v, A, s, SegEnd(E, s)))
  }

  /** The cut positions n + f, n + 2f, ..., n + (k - 1)f. */
  function CutPoints(n: int, f: int, k: int): (cs: seq<int>)
    ensures |cs| == if k >= 1 then k - 1 else 0
    ensures forall j :: 0 <= j < |cs| ==> cs[j] == n + (j + 1) * f
    decreases k
  {
    if k <= 1 then [] else CutPoints(n, f, k - 1) + [n + (k - 1) * f]
  }

  /** Every cut lies strictly inside the segment when the pieces fit in it. */
  lemma CutPointsInside(n: int, f: int, k: int, p: int)
    requires 1 <= f && 1 <= k && k * f <= p - n
    ensures forall c :: c in CutPoints(n, f, k) ==> n < c < p
  {
    var cs := CutPoints(n, f, k);
    forall c | c in cs ensures n < c < p {
      var j :| 0 <= j < |cs| && cs[j] == c;
      MulBelow(j + 1, k, f);
    }
  }

  lemma MulBelow(i: int, k: int, f: int)
    requires 1 <= i < k && 1 <= f
    ensures f <= i * f < k * f
  {
    MulAtLeast(i, f);
    MulAtLeast(k - i, f);
    assert k * f == i * f + (k - i) * f;
  }

  /**
   * The inner loop of the split: start and end markers at each cut of the
   * segment starting at n, which then ends at n + f.
   */
  method CutSegment(S: seq<bool>, E: seq<bool>, n: int, p: int, k: int, f: int)
    returns (S': seq<bool>, E': seq<bool>)
    requires WellFormed(S, E) && 0 <= n < |S| && S[n] && p == SegEnd(E, n)
    requires 2 <= k && 1 <= f && k * f <= p - n
    ensures WellFormed(S', E') && |S'| == |S|
    ensures forall x :: -1 <= x < |S| ==> Open(S', E', x) == Open(S, E, x)
    ensures forall x :: 0 <= x < |S| ==> S'[x] == (S[x] || x in CutPoints(n, f, k))
    ensures forall x :: 0 <= x <= |S| ==> E'[x] == (E[x] || x in CutPoints(n, f, k))
    ensures SegEnd(E', n) == n + f
  {
    S', E' := S, E;
    ghost var cuts: seq<int> := [];
    ghost var last := n;
    for i := 1 to k
      invariant CutInvariant(S, E, S', E', n, p, f, cuts, last)
      invariant cuts == CutPoints(n, f, i) && last == n + (i - 1) * f
    {
      var q := n + i * f;
      NextCut(n, p, i, k, f, last);
      CutStep(S, E, S', E', n, p, f, cuts, last, q);
      S' := S'[q := true];
      E' := E'[q := true];
      cuts, last := cuts + [q], q;
    }
  }

  /** The next cut lies f frames after the last one and before the segment's end. */
  lemma NextCut(n: int, p: int, i: int, k: int, f: int, last: int)
    requires 1 <= i < k && 1 <= f && k * f <= p - n && last == n + (i - 1) * f
    ensures n + i * f == last + f && n + i * f < p && n < n + i * f
  {
    MulBelow(i, k, f);
    assert i * f == (i - 1) * f + f;
  }

  /** What the inner split loop keeps: the cuts so far are marked and the last piece starts at `last` and ends at p. */
  predicate CutInvariant(S: seq<bool>, E: seq<bool>, S': seq<bool>, E': seq<bool>, n: int, p: int, f: int,
                         cuts: seq<int>, last: int)
    requires WellFormed(S, E)
  {
    WellFormed(S', E') && |S'| == |S| && 0 <= n <= last < |S| &&
    (forall x :: -1 <= x < |S| ==> Open(S', E', x) == Open(S, E, x)) &&
    Marked(S, E, S', E', cuts) &&
    S'[last] && SegEnd(E', last) == p &&
    (last > n ==> SegEnd(E', n) == n + f)
  }

  /** S' and E' are S and E with markers added at the positions in `cuts`. */
  predicate Marked(S: seq<bool>, E: seq<bool>, S': seq<bool>, E': seq<bool>, cuts: seq<int>)
    requires Shaped(S, E) && Shaped(S', E') && |S'| == |S|
  {
    (forall x :: 0 <= x < |S| ==> S'[x] == (S[x] || x in cuts)) &&
    (forall x :: 0 <= x <= |S| ==> E'[x] == (E[x] || x in cuts))
  }

  /** One cut of the inner split loop, f frames into the last piece. */
  lemma CutStep(S: seq<bool>, E: seq<bool>, S': seq<bool>, E': seq<bool>, n: int, p: int, f: int,
                cuts: seq<int>, last: int, q: int)
    requires WellFormed(S, E) && 1 <= f && q == last + f && q < p
    requires CutInvariant(S, E, S', E', n, p, f, cuts, last)
    ensures 0 <= q < |S| && CutInvariant(S, E, S'[q := true], E'[q := true], n, p, f, cuts + [q], q)
  {
    SplitAt(S', E', last, q);
    MarkedStep(S, E, S', E', cuts, q);
    CutEnds(S', E', n, p, f, last, q);
  }

  lemma MarkedStep(S: seq<bool>, E: seq<bool>, S': seq<bool>, E': seq<bool>, cuts: seq<int>, q: int)
    requires Shaped(S, E) && Shaped(S', E') && |S'| == |S| && 0 <= q < |S|
    requires Marked(S, E, S', E', cuts)
    ensures Marked(S, E, S'[q := true], E'[q := true], cuts + [q])
  {
  }

  /** The new cut ends the previous piece and starts the last one, which still ends at p. */
  lemma CutEnds(S: seq<bool>, E: seq<bool>, n: int, p: int, f: int, last: int, q: int)
    requires WellFormed(S, E) && 0 <= n <= last < |S| && S[last] && SegEnd(E, last) == p
    requires 1 <= f && q == last + f && q < p
    requires last > n ==> SegEnd(E, n) == n + f
    ensures q < |S| && SegEnd(E[q := true], q) == p && SegEnd(E[q := true], n) == n + f
  {
    SegmentEnds(S, E, last);
    NextEndUnique(E, q + 1, p);
    NextEndSet(E, q + 1, q);
    NextEndSet(E, n + 1, q);
  }

  /**
   * split_long_segments: every start marker is visited in frame order; a
   * segment longer than the cap (holding a silence or noise frame, for the
   * speech-based segmenter) is cut into Pieces(len, hard) pieces of
   * len / pieces frames, the last taking the remainder. The pieces are
   * visited again, so a last piece still over the cap is cut further.
   */
  method SplitLongSegments(v: Variant, A: seq<int>, S: seq<bool>, E: seq<bool>, hard: int)
    returns (S': seq<bool>, E': seq<bool>)
    requires WellFormed(S, E) && |S| == |A| && hard >= 1
    ensures WellFormed(S', E') && |S'| == |S| && CountTrue(S') == CountTrue(E')
    ensures forall x :: 0 <= x < |S| ==> Open(S', E', x) == Open(S, E, x)
    ensures CutsInside(v, A, S, E, S', E', hard)
    ensures forall s :: 0 <= s < |S| && S'[s] ==> SplitDone(v, A, E', hard, s)
  {
    S', E' := S, E;
    for n := 0 to |S|
      invariant WellFormed(S', E') && |S'| == |S|
      invariant forall x :: -1 <= x < |S| ==> Open(S', E', x) == Open(S, E, x)
      invariant CutsInside(v, A, S, E, S', E', hard)
      invariant forall s :: 0 <= s < n && S'[s] ==> SplitDone(v, A, E', hard, s)
    {
      if S'[n] {
        var p := ScanForward(E', n + 1);
        SegmentEnds(S', E', n);
        var len := p - n;
        if len > hard {
          if v.Nonoise? && NoPause(v, A, n, p) {
            continue;
          }
          var k := Pieces(len, hard);
          var f := len / k;
          PieceFacts(len, hard);
          CutPointsInside(n, f, k, p);
          ghost var S1, E1 := S', E';
          S', E' := CutSegment(S', E', n, p, k, f);
          CutsStep(v, A, S, E, S1, E1, S', E', hard, n, p, CutPoints(n, f, k));
          DoneStep(v, A, S1, E1, S', E', hard, n, p, f, CutPoints(n, f, k));
        }
      }
    }
    CountsBalance(S', E');
  }

  /** Markers that close a segment starting before n end it at or before n when n starts one. */
  lemma EndBeforeStart(S: seq<bool>, E: seq<bool>, s: int, n: int)
    requires WellFormed(S, E) && 0 <= s < n < |S| && S[s] && S[n]
    ensures SegEnd(E, s) <= n
  {
    if SegEnd(E, s) > n {
      SegmentInterior(S, E, s, n);
    }
  }

  /** A frame strictly inside a current segment too long for the cap lies in an original long segment. */
  lemma InsideOriginal(v: Variant, A: seq<int>, S: seq<bool>, E: seq<bool>, S1: seq<bool>, E1: seq<bool>,
                       hard: int, n: int, p: int, x: int)
    requires WellFormed(S, E) && WellFormed(S1, E1) && |S1| == |S| == |A|
    requires forall y :: -1 <= y < |S| ==> Open(S1, E1, y) == Open(S, E, y)
    requires CutsInside(v, A, S, E, S1, E1, hard)
    requires 0 <= n < |S| && S1[n] && p == SegEnd(E1, n) && p - n > hard
    requires p <= |S| && (v.Nonoise? ==> !NoPause(v, A, n, p))
    requires n < x < p
    ensures InLongSegment(v, A, S, E, hard, x)
  {
    SegmentInterior(S1, E1, n, x);
    forall q | n < q <= x ensures !S[q] {
      SegmentInterior(S1, E1, n, q);
    }
    CoveredIff(S, E, x);
    var s0 := LastStart(S, x);
    SegmentEnds(S, E, s0);
    var e := SegEnd(E, s0);
    assert s0 <= n;
    assert e >= p;
    if v.Nonoise? {
      var i :| n <= i < p && Absorbable(v, A[i]);
      assert s0 <= i < e;
    }
  }

  /** Cutting the segment [n, p) keeps every added marker inside an original long segment. */
  lemma CutsStep(v: Variant, A: seq<int>, S: seq<bool>, E: seq<bool>, S1: seq<bool>, E1: seq<bool>,
                 S2: seq<bool>, E2: seq<bool>, hard: int, n: int, p: int, cs: seq<int>)
    requires WellFormed(S, E) && WellFormed(S1, E1) && Shaped(S2, E2) && |S2| == |S1| == |S| == |A|
    requires forall y :: -1 <= y < |S| ==> Open(S1, E1, y) == Open(S, E, y)
    requires CutsInside(v, A, S, E, S1, E1, hard)
    requires 0 <= n < |S| && S1[n] && p == SegEnd(E1, n) && p - n > hard
    requires p <= |S| && (v.Nonoise? ==> !NoPause(v, A, n, p))
    requires forall x :: 0 <= x < |S| ==> S2[x] == (S1[x] || x in cs)
    requires forall x :: 0 <= x <= |S| ==> E2[x] == (E1[x] || x in cs)
    requires forall c :: c in cs ==> n < c < p
    ensures CutsInside(v, A, S, E, S2, E2, hard)
  {
    forall x | 0 <= x < |S| && x in cs ensures !S[x] && !E[x] && InLongSegment(v, A, S, E, hard, x) {
      SegmentInterior(S1, E1, n, x);
      InsideOriginal(v, A, S, E, S1, E1, hard, n, p, x);
    }
  }

  /** After cutting at n, the segment at n and every segment before it is within the cap or left alone. */
  lemma DoneStep(v: Variant, A: seq<int>, S1: seq<bool>, E1: seq<bool>, S2: seq<bool>, E2: seq<bool>,
                 hard: int, n: int, p: int, f: int, cs: seq<int>)
    requires WellFormed(S1, E1) && Shaped(S2, E2) && |S2| == |S1| == |A|
    requires 0 <= n < |S1| && S1[n]
    requires forall s :: 0 <= s < n && S1[s] ==> SplitDone(v, A, E1, hard, s)
    requires forall x :: 0 <= x < |S1| ==> S2[x] == (S1[x] || x in cs)
    requires forall x :: 0 <= x <= |S1| ==> E2[x] == (E1[x] || x in cs)
    requires forall c :: c in cs ==> n < c < p
    requires SegEnd(E2, n) == n + f && f <= hard
    ensures forall s :: 0 <= s <= n && S2[s] ==> SplitDone(v, A, E2, hard, s)
  {
    forall s | 0 <= s < n && S2[s] ensures SplitDone(v, A, E2, hard, s) {
      EndBeforeStart(S1, E1, s, n);
      NextEndUnique(E2, s + 1, SegEnd(E1, s));
    }
  }
}
