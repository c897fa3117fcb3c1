/**
 * remove_noise_only_segments and remove_silence_only_segments: each start
 * marker is visited in frame order, its segment is scanned up to the next
 * end marker, and the segment is dropped (its start and its end marker
 * cleared) when no frame of it has a wanted code: a speech code for the
 * noise-only pass, any code outside plain silence for the silence-only pass.
 */
module Removal {
  import opened Markers
  import opened FrameCodes

  /** Some frame in [lo, hi) has a code satisfying `wanted`. */
  predicate HasCode(A: seq<int>, lo: int, hi: int, wanted: int -> bool)
  {
    exists i :: lo <= i < hi && 0 <= i < |A| && wanted(A[i])
  }

  /** The segment starting at s survives: it holds a wanted frame. */
  predicate Kept(A: seq<int>, E: seq<bool>, s: int, wanted: int -> bool)
    requires 0 <= s < |E|
  {
    HasCode(A, s, SegEnd(E, s), wanted)
  }

  /** The end marker at x survives: the segment it closes is kept. */
  predicate EndKept(A: seq<int>, S: seq<bool>, E: seq<bool>, x: int, wanted: int -> bool)
    requires Shaped(S, E) && 0 <= x <= |S|
  {
    x >= 1 && LastStart(S, x - 1) >= 0 && Kept(A, E, LastStart(S, x - 1), wanted)
  }

  /** Start marker x after the segments starting before n have been decided. */
  predicate StartDecided(A: seq<int>, S: seq<bool>, E: seq<bool>, S': seq<bool>, n: int, x: int, wanted: int -> bool)
    requires Shaped(S, E) && |S'| == |S| && 0 <= x < |S|
  {
    S'[x] == (S[x] && (x >= n || Kept(A, E, x, wanted)))
  }

  /** End marker x after the segments starting before n have been decided. */
  predicate EndDecided(A: seq<int>, S: seq<bool>, E: seq<bool>, E': seq<bool>, n: int, x: int, wanted: int -> bool)
    requires Shaped(S, E) && |E'| == |E| && 0 <= x <= |S|
  {
    E'[x] == (E[x] && (x == 0 || LastStart(S, x - 1) >= n || EndKept(A, S, E, x, wanted)))
  }

  /** Frame x after the segments starting before n have been decided. */
  predicate OpenDecided(A: seq<int>, S: seq<bool>, E: seq<bool>, S': seq<bool>, E': seq<bool>, n: int, x: int,
                        wanted: int -> bool)
    requires Shaped(S, E) && Shaped(S', E') && |S'| == |S| && 0 <= x < |S|
  {
    Open(S', E', x) == (Open(S, E, x) && (LastStart(S, x) >= n || (LastStart(S, x) >= 0 && Kept(A, E, LastStart(S, x), wanted))))
  }

  /** What the removal loop keeps after visiting the frames before n. */
  predicate RemoveInvariant(A: seq<int>, S: seq<bool>, E: seq<bool>, S': seq<bool>, E': seq<bool>, n: int,
                            wanted: int -> bool)
    requires WellFormed(S, E)
  {
    WellFormed(S', E') && |S'| == |S| &&
    (forall x :: 0 <= x < |S| ==> StartDecided(A, S, E, S', n, x, wanted)) &&
    (forall x :: 0 <= x <= |S| ==> EndDecided(A, S, E, E', n, x, wanted)) &&
    (forall x :: 0 <= x < |S| ==> OpenDecided(A, S, E, S', E', n, x, wanted))
  }

  /**
   * The loop shared by both removal passes: a segment is dropped exactly when
   * none of its frames has a wanted code; the frames it covered are then
   * outside every segment.
   */
  method RemoveSegmentsWithout(A: seq<int>, S: seq<bool>, E: seq<bool>, wanted: int -> bool)
    returns (S': seq<bool>, E': seq<bool>)
    requires WellFormed(S, E) && |S| == |A|
    ensures WellFormed(S', E') && |S'| == |S| && CountTrue(S') == CountTrue(E')
    ensures forall x :: 0 <= x < |S| ==> S'[x] == (S[x] && Kept(A, E, x, wanted))
    ensures forall x :: 0 <= x <= |S| ==> E'[x] == (E[x] && EndKept(A, S, E, x, wanted))
    ensures forall x :: 0 <= x < |S| ==>
      Open(S', E', x) == (Open(S, E, x) && LastStart(S, x) >= 0 && Kept(A, E, LastStart(S, x), wanted))
    ensures forall s :: 0 <= s < |S| && S'[s] ==> SegEnd(E', s) == SegEnd(E, s)
  {
    S', E' := S, E;
    RemoveInit(A, S, E, wanted);
    for n := 0 to |S|
      invariant RemoveInvariant(A, S, E, S', E', n, wanted)
    {
      if S'[n] {
        SameSegment(A, S, E, S', E', n, wanted);
        var p := n;
        var saw := false;
        while p <= |S|
          invariant n <= p <= SegEnd(E', n)
          invariant saw == HasCode(A, n, p, wanted)
        {
          if E'[p] && p != n {
            break;
          }
          if wanted(A[p]) {
            saw := true;
          }
          p := p + 1;
        }
        assert E'[p];
        if !saw {
          RemoveStep(A, S, E, S', E', n, wanted);
          S' := S'[n := false];
          E' := E'[p := false];
        } else {
          KeepStep(A, S, E, S', E', n, wanted);
        }
      } else {
        SkipStep(A, S, E, S', E', n, wanted);
      }
    }
    RemoveDone(A, S, E, S', E', wanted);
    forall s | 0 <= s < |S| && S'[s] ensures SegEnd(E', s) == SegEnd(E, s) {
      KeptEnd(A, S, E, S', E', s, wanted);
    }
  }

  /** A surviving segment keeps its end marker and so its length. */
  lemma KeptEnd(A: seq<int>, S: seq<bool>, E: seq<bool>, S': seq<bool>, E': seq<bool>, s: int, wanted: int -> bool)
    requires WellFormed(S, E) && |S| == |A| && |E'| == |E| && |S'| == |S| && 0 <= s < |S|
    requires S'[s] == (S[s] && Kept(A, E, s, wanted))
    requires forall x :: 0 <= x <= |S| ==> E'[x] == (E[x] && EndKept(A, S, E, x, wanted))
    requires S'[s]
    ensures SegEnd(E', s) == SegEnd(E, s)
  {
    var e := SegEnd(E, s);
    SegmentOwner(S, E, s, e);
    SegmentEnds(S, E, s);
    assert E'[e];
    NextEndUnique(E', s + 1, e);
  }

  lemma RemoveInit(A: seq<int>, S: seq<bool>, E: seq<bool>, wanted: int -> bool)
    requires WellFormed(S, E) && |S| == |A|
    ensures RemoveInvariant(A, S, E, S, E, 0, wanted)
  {
    forall x | 0 <= x <= |S| ensures EndDecided(A, S, E, E, 0, x, wanted) {
      if E[x] && x > 0 && LastStart(S, x - 1) < 0 {
        EndOwner(S, E, x);
      }
    }
    forall x | 0 <= x < |S| ensures OpenDecided(A, S, E, S, E, 0, x, wanted) {
      if Open(S, E, x) {
        CoveredHasStart(S, E, x);
      }
    }
  }

  /** At an undecided start marker the segment is still the original one. */
  lemma SameSegment(A: seq<int>, S: seq<bool>, E: seq<bool>, S': seq<bool>, E': seq<bool>, n: int, wanted: int -> bool)
    requires WellFormed(S, E) && |S| == |A| && 0 <= n < |S|
    requires RemoveInvariant(A, S, E, S', E', n, wanted) && S'[n]
    ensures S[n] && SegEnd(E', n) == SegEnd(E, n) <= |S|
  {
    assert StartDecided(A, S, E, S', n, n, wanted);
    SegmentEnds(S, E, n);
    var p := SegEnd(E, n);
    forall q | n < q <= p ensures E'[q] == E[q] {
      assert EndDecided(A, S, E, E', n, q, wanted);
      if E[q] {
        EndOwner(S, E, q);
        SegmentOwner(S, E, LastStart(S, q - 1), q);
      }
    }
    NextEndUnique(E', n + 1, p);
  }

  /** Frames in [n, SegEnd) belong to the segment of n; no other end marker has n as its owner. */
  lemma OwnedBy(S: seq<bool>, E: seq<bool>, n: int, x: int)
    requires WellFormed(S, E) && 0 <= n < |S| && S[n] && 0 <= x < |S|
    ensures (n <= x < SegEnd(E, n)) ==> LastStart(S, x) == n
    ensures LastStart(S, x) == n && x >= SegEnd(E, n) ==> !Open(S, E, x)
  {
    if n <= x < SegEnd(E, n) {
      forall q | n < q <= x ensures !S[q] {
        SegmentInterior(S, E, n, q);
      }
      LastStartUnique(S, x, n);
    }
    CoveredIff(S, E, x);
  }

  /** Dropping the segment at n keeps the loop invariant. */
  lemma RemoveStep(A: seq<int>, S: seq<bool>, E: seq<bool>, S': seq<bool>, E': seq<bool>, n: int, wanted: int -> bool)
    requires WellFormed(S, E) && |S| == |A| && 0 <= n < |S|
    requires RemoveInvariant(A, S, E, S', E', n, wanted) && S'[n]
    requires !Kept(A, E, n, wanted)
    ensures SegEnd(E', n) <= |S|
    ensures RemoveInvariant(A, S, E, S'[n := false], E'[SegEnd(E', n) := false], n + 1, wanted)
  {
    var m := n + 1;
    SameSegment(A, S, E, S', E', n, wanted);
    var p := SegEnd(E, n);
    RemoveSegment(S', E', n);
    var S2, E2 := S'[n := false], E'[p := false];
    forall x | 0 <= x < |S| ensures StartDecided(A, S, E, S2, m, x, wanted) {
      assert StartDecided(A, S, E, S', n, x, wanted);
    }
    forall x | 0 <= x <= |S| ensures EndDecided(A, S, E, E2, m, x, wanted) {
      assert EndDecided(A, S, E, E', n, x, wanted);
      if E[x] {
        EndOwner(S, E, x);
        SegmentOwner(S, E, n, p);
      }
    }
    forall x | 0 <= x < |S| ensures OpenDecided(A, S, E, S2, E2, m, x, wanted) {
      assert OpenDecided(A, S, E, S', E', n, x, wanted);
      OwnedBy(S, E, n, x);
    }
  }

  /** Keeping the segment at n keeps the loop invariant. */
  lemma KeepStep(A: seq<int>, S: seq<bool>, E: seq<bool>, S': seq<bool>, E': seq<bool>, n: int, wanted: int -> bool)
    requires WellFormed(S, E) && |S| == |A| && 0 <= n < |S|
    requires RemoveInvariant(A, S, E, S', E', n, wanted) && S'[n]
    requires SegEnd(E', n) == SegEnd(E, n) && Kept(A, E, n, wanted)
    ensures RemoveInvariant(A, S, E, S', E', n + 1, wanted)
  {
    var m := n + 1;
    forall x | 0 <= x < |S| ensures StartDecided(A, S, E, S', m, x, wanted) {
      assert StartDecided(A, S, E, S', n, x, wanted);
    }
    forall x | 0 <= x <= |S| ensures EndDecided(A, S, E, E', m, x, wanted) {
      assert EndDecided(A, S, E, E', n, x, wanted);
    }
    forall x | 0 <= x < |S| ensures OpenDecided(A, S, E, S', E', m, x, wanted) {
      assert OpenDecided(A, S, E, S', E', n, x, wanted);
    }
  }

  /** A frame holding no start marker leaves the invariant as it is. */
  lemma SkipStep(A: seq<int>, S: seq<bool>, E: seq<bool>, S': seq<bool>, E': seq<bool>, n: int, wanted: int -> bool)
    requires WellFormed(S, E) && |S| == |A| && 0 <= n < |S|
    requires RemoveInvariant(A, S, E, S', E', n, wanted) && !S'[n]
    ensures RemoveInvariant(A, S, E, S', E', n + 1, wanted)
  {
    var m := n + 1;
    assert StartDecided(A, S, E, S', n, n, wanted);
    forall x | 0 <= x < |S| ensures StartDecided(A, S, E, S', m, x, wanted) {
      assert StartDecided(A, S, E, S', n, x, wanted);
    }
    forall x | 0 <= x <= |S| ensures EndDecided(A, S, E, E', m, x, wanted) {
      assert EndDecided(A, S, E, E', n, x, wanted);
    }
    forall x | 0 <= x < |S| ensures OpenDecided(A, S, E, S', E', m, x, wanted) {
      assert OpenDecided(A, S, E, S', E', n, x, wanted);
    }
  }

  lemma RemoveDone(A: seq<int>, S: seq<bool>, E: seq<bool>, S': seq<bool>, E': seq<bool>, wanted: int -> bool)
    requires WellFormed(S, E) && |S| == |A|
    requires RemoveInvariant(A, S, E, S', E', |S|, wanted)
    ensures CountTrue(S') == CountTrue(E')
    ensures forall x :: 0 <= x < |S| ==> S'[x] == (S[x] && Kept(A, E, x, wanted))
    ensures forall x :: 0 <= x <= |S| ==> E'[x] == (E[x] && EndKept(A, S, E, x, wanted))
    ensures forall x :: 0 <= x < |S| ==>
      Open(S', E', x) == (Open(S, E, x) && LastStart(S, x) >= 0 && Kept(A, E, LastStart(S, x), wanted))
  {
    CountsBalance(S', E');
    forall x | 0 <= x < |S| ensures S'[x] == (S[x] && Kept(A, E, x, wanted)) {
      assert StartDecided(A, S, E, S', |S|, x, wanted);
    }
    forall x | 0 <= x <= |S| ensures E'[x] == (E[x] && EndKept(A, S, E, x, wanted)) {
      assert EndDecided(A, S, E, E', |S|, x, wanted);
    }
    forall x | 0 <= x < |S|
      ensures Open(S', E', x) == (Open(S, E, x) && LastStart(S, x) >= 0 && Kept(A, E, LastStart(S, x), wanted))
    {
      assert OpenDecided(A, S, E, S', E', |S|, x, wanted);
    }
  }

  /**
   * remove_noise_only_segments: exactly the segments holding a speech frame
   * (codes 6 to 8) survive.
   */
  method RemoveNoiseOnly(A: seq<int>, S: seq<bool>, E: seq<bool>) returns (S': seq<bool>, E': seq<bool>)
    requires WellFormed(S, E) && |S| == |A|
    ensures WellFormed(S', E') && |S'| == |S| && CountTrue(S') == CountTrue(E')
    ensures forall x :: 0 <= x < |S| ==>
      S'[x] == (S[x] && exists i :: x <= i < SegEnd(E, x) && 0 <= i < |A| && Speech(A[i]))
    ensures forall x :: 0 <= x <= |S| ==> E'[x] == (E[x] && EndKept(A, S, E, x, Speech))
    ensures forall x :: 0 <= x < |S| && Open(S', E', x) ==> Open(S, E, x)
    ensures forall s :: 0 <= s < |S| && S'[s] ==> S[s] && SegEnd(E', s) == SegEnd(E, s)
    ensures forall s :: 0 <= s < |S| && S'[s] ==> exists i :: s <= i < SegEnd(E', s) && 0 <= i < |A| && Speech(A[i])
    ensures forall x :: 0 <= x < |S| && Open(S, E, x) && Speech(A[x]) ==> Open(S', E', x)
  {
    S', E' := RemoveSegmentsWithout(A, S, E, Speech);
    forall x | 0 <= x < |S|
      ensures S'[x] == (S[x] && exists i :: x <= i < SegEnd(E, x) && 0 <= i < |A| && Speech(A[i]))
    {
      assert Kept(A, E, x, Speech) == HasCode(A, x, SegEnd(E, x), Speech);
    }
    forall x | 0 <= x < |S| && Open(S, E, x) && Speech(A[x])
      ensures Open(S', E', x)
    {
      CoveredIff(S, E, x);
      assert HasCode(A, LastStart(S, x), SegEnd(E, LastStart(S, x)), Speech);
    }
  }

  /**
   * remove_silence_only_segments: exactly the segments holding a frame whose
   * code is not plain silence (0 to 2) survive; converted silence (9 to 11)
   * counts as non-silence.
   */
  method RemoveSilenceOnly(A: seq<int>, S: seq<bool>, E: seq<bool>) returns (S': seq<bool>, E': seq<bool>)
    requires WellFormed(S, E) && |S| == |A|
    ensures WellFormed(S', E') && |S'| == |S| && CountTrue(S') == CountTrue(E')
    ensures forall x :: 0 <= x < |S| ==>
      S'[x] == (S[x] && exists i :: x <= i < SegEnd(E, x) && 0 <= i < |A| && !Silence(A[i]))
    ensures forall x :: 0 <= x <= |S| ==> E'[x] == (E[x] && EndKept(A, S, E, x, NotSilence))
    ensures forall x :: 0 <= x < |S| && Open(S', E', x) ==> Open(S, E, x)
    ensures forall s :: 0 <= s < |S| && S'[s] ==> S[s] && SegEnd(E', s) == SegEnd(E, s)
    ensures forall s :: 0 <= s < |S| && S'[s] ==> exists i :: s <= i < SegEnd(E', s) && 0 <= i < |A| && !Silence(A[i])
  {
    S', E' := RemoveSegmentsWithout(A, S, E, NotSilence);
    forall x | 0 <= x < |S|
      ensures S'[x] == (S[x] && exists i :: x <= i < SegEnd(E, x) && 0 <= i < |A| && !Silence(A[i]))
    {
      assert Kept(A, E, x, NotSilence) == HasCode(A, x, SegEnd(E, x), NotSilence);
    }
  }

  predicate NotSilence(c: int) { !Silence(c) }
}
