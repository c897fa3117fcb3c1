/**
 * print_segments: the segments are read off the markers as (start, end)
 * frame pairs in increasing order; a recording without segments ends the
 * program with status 1. The zero-padding width of the printed times is the
 * number of digits found by multiplying by ten until the largest end time
 * (in hundredths of a second) is reached.
 */
module Emission {
  import opened Markers
  import opened Outcomes
  import opened ZeroPadding

  /** segs lists every segment of the markers once, as (start, end), by increasing start. */
  predicate ListsSegments(S: seq<bool>, E: seq<bool>, segs: seq<(int, int)>)
    requires Shaped(S, E)
  {
    (forall k :: 0 <= k < |segs| ==> 0 <= segs[k].0 < |S| && S[segs[k].0] && segs[k].1 == SegEnd(E, segs[k].0)) &&
    (forall s :: 0 <= s < |S| && S[s] ==> exists k :: 0 <= k < |segs| && segs[k].0 == s) &&
    (forall k, l :: 0 <= k < l < |segs| ==> segs[k].0 < segs[l].0)
  }

  /** Pairs with end > start, each ending at or before the next one starts. */
  predicate Disjoint(segs: seq<(int, int)>, N: int)
  {
    (forall k :: 0 <= k < |segs| ==> 0 <= segs[k].0 < segs[k].1 <= N) &&
    (forall k :: 0 <= k < |segs| - 1 ==> segs[k].1 <= segs[k + 1].0)
  }

  /** Frame x lies in one of the listed pairs. */
  predicate InSomePair(segs: seq<(int, int)>, x: int)
  {
    exists k :: 0 <= k < |segs| && segs[k].0 <= x < segs[k].1
  }

  /**
   * The listing of well-formed markers is disjoint and ascending, and the
   * frames it covers are exactly the frames inside segments.
   */
  lemma ListedSegments(S: seq<bool>, E: seq<bool>, segs: seq<(int, int)>)
    requires WellFormed(S, E) && ListsSegments(S, E, segs)
    ensures Disjoint(segs, |S|)
    ensures forall x :: 0 <= x < |S| ==> (Open(S, E, x) <==> InSomePair(segs, x))
  {
    forall k | 0 <= k < |segs| ensures 0 <= segs[k].0 < segs[k].1 <= |S| {
      SegmentEnds(S, E, segs[k].0);
    }
    forall k | 0 <= k < |segs| - 1 ensures segs[k].1 <= segs[k + 1].0 {
      EndBeforeNext(S, E, segs[k].0, segs[k + 1].0);
    }
    forall x | 0 <= x < |S| ensures Open(S, E, x) <==> InSomePair(segs, x) {
      CoveredIff(S, E, x);
      if Open(S, E, x) {
        var s := LastStart(S, x);
        var k :| 0 <= k < |segs| && segs[k].0 == s;
        assert segs[k].0 <= x < segs[k].1;
      }
      if InSomePair(segs, x) {
        var k :| 0 <= k < |segs| && segs[k].0 <= x < segs[k].1;
        SegmentInterior(S, E, segs[k].0, x);
      }
    }
  }

  /** A segment ends at or before the next start marker. */
  lemma EndBeforeNext(S: seq<bool>, E: seq<bool>, s: int, t: int)
    requires WellFormed(S, E) && 0 <= s < t < |S| && S[s] && S[t]
    ensures SegEnd(E, s) <= t
  {
    if SegEnd(E, s) > t {
      SegmentInterior(S, E, s, t);
    }
  }

  /** What the emitting loop keeps: the segments starting before n are listed, in order. */
  predicate EmitInvariant(S: seq<bool>, E: seq<bool>, segs: seq<(int, int)>, n: int)
    requires Shaped(S, E)
  {
    0 <= n <= |S| + 1 &&
    (forall k :: 0 <= k < |segs| ==> 0 <= segs[k].0 < n && segs[k].0 < |S| && S[segs[k].0] && segs[k].1 == SegEnd(E, segs[k].0)) &&
    (forall s :: 0 <= s < n && s < |S| && S[s] ==> exists k :: 0 <= k < |segs| && segs[k].0 == s) &&
    (forall k, l :: 0 <= k < l < |segs| ==> segs[k].0 < segs[l].0)
  }

  /**
   * The emitting loop: from each start marker the end is found by scanning
   * forward, and the scan resumes at the end (or just past it when no
   * segment starts there).
   */
  method PrintSegments(S: seq<bool>, E: seq<bool>) returns (r: Outcome<seq<(int, int)>>)
    requires WellFormed(S, E)
    ensures r.Done? <==> exists s :: 0 <= s < |S| && S[s]
    ensures r.Exit? ==> r.code == 1
    ensures r.Done? ==> ListsSegments(S, E, r.value) && Disjoint(r.value, |S|)
    ensures r.Done? ==> forall x :: 0 <= x < |S| ==> (Open(S, E, x) <==> InSomePair(r.value, x))
  {
    var N := |S|;
    var segs: seq<(int, int)> := [];
    var n := 0;
    while n < N
      invariant EmitInvariant(S, E, segs, n)
      decreases N - n
    {
      if S[n] {
        var p := SegmentEnd(S, E, n);
        EmitStep(S, E, segs, n);
        segs := segs + [(n, p)];
        if p < N && S[p] {
          n := p - 1;
        } else {
          n := p;
        }
      } else {
        EmitSkip(S, E, segs, n);
      }
      n := n + 1;
    }
    EmitDone(S, E, segs, n);
    if |segs| == 0 {
      return Exit(1);
    }
    r := Done(segs);
  }

  /** When the loop has passed every frame, the list holds every segment and is empty exactly when there is none. */
  lemma EmitDone(S: seq<bool>, E: seq<bool>, segs: seq<(int, int)>, n: int)
    requires WellFormed(S, E) && EmitInvariant(S, E, segs, n) && n >= |S|
    ensures ListsSegments(S, E, segs) && Disjoint(segs, |S|)
    ensures forall x :: 0 <= x < |S| ==> (Open(S, E, x) <==> InSomePair(segs, x))
    ensures |segs| == 0 <==> !exists s :: 0 <= s < |S| && S[s]
  {
    ListedSegments(S, E, segs);
    if |segs| > 0 {
      assert S[segs[0].0];
    }
  }

  /** The inner scan of the emitting loop: the end of the segment starting at n; no start marker is passed. */
  method SegmentEnd(S: seq<bool>, E: seq<bool>, n: int) returns (p: int)
    requires WellFormed(S, E) && 0 <= n < |S| && S[n]
    ensures p == SegEnd(E, n) && n < p <= |S| && E[p]
  {
    SegmentEnds(S, E, n);
    p := n + 1;
    while p < |S| && !E[p]
      invariant n < p <= SegEnd(E, n)
    {
      SegmentInterior(S, E, n, p);
      assert !S[p];
      p := p + 1;
    }
    assert E[p];
  }

  lemma EmitSkip(S: seq<bool>, E: seq<bool>, segs: seq<(int, int)>, n: int)
    requires WellFormed(S, E) && 0 <= n < |S| && !S[n] && EmitInvariant(S, E, segs, n)
    ensures EmitInvariant(S, E, segs, n + 1)
  {
  }

  /** Listing the segment at n and resuming at its end keeps the loop invariant. */
  lemma EmitStep(S: seq<bool>, E: seq<bool>, segs: seq<(int, int)>, n: int)
    requires WellFormed(S, E) && 0 <= n < |S| && S[n] && EmitInvariant(S, E, segs, n)
    ensures var p := SegEnd(E, n);
      EmitInvariant(S, E, segs + [(n, p)], if p < |S| && S[p] then p else p + 1)
  {
    SegmentEnds(S, E, n);
    var p := SegEnd(E, n);
    var next := if p < |S| && S[p] then p else p + 1;
    var segs' := segs + [(n, p)];
    forall s | 0 <= s < next && s < |S| && S[s] ensures exists k :: 0 <= k < |segs'| && segs'[k].0 == s {
      if s < n {
        var k :| 0 <= k < |segs| && segs[k].0 == s;
        assert segs'[k].0 == s;
      } else {
        if s > n {
          SegmentInterior(S, E, n, s);
        }
        assert segs'[|segs'| - 1].0 == s;
      }
    }
  }

  /**
   * The whole of print_segments: the segments, then the width from the last
   * end in hundredths of a second and one line per segment.
   */
  method PrintNamed(S: seq<bool>, E: seq<bool>, fileId: string, hundredths: int, sep: (string, string))
    returns (r: Outcome<Printed>)
    requires WellFormed(S, E)
    ensures r.Done? <==> exists s :: 0 <= s < |S| && S[s]
    ensures r.Exit? ==> r.code == 1
    ensures r.Done? ==> ListsSegments(S, E, r.value.segments) && Disjoint(r.value.segments, |S|)
    ensures r.Done? ==> forall x :: 0 <= x < |S| ==> (Open(S, E, x) <==> InSomePair(r.value.segments, x))
    ensures r.Done? ==> PrintedAs(r.value, fileId, r.value.segments, hundredths, sep)
  {
    var segs := PrintSegments(S, E);
    if segs.Exit? {
      return Exit(segs.code);
    }
    var o := NameSegments(fileId, segs.value, hundredths, sep);
    r := Done(o);
  }
}
