/**
 * Boundary candidates of merge_segments: positions holding both a start and
 * an end marker, each with the score and the transition type that decide
 * the order in which merging is tried.
 */
module Boundaries {
  import opened Markers
  import opened FrameCodes

  /** r lists the indices of the true entries of s in increasing order. */
  predicate Enumerates(r: seq<int>, s: seq<bool>)
  {
    (forall k :: 0 <= k < |r| ==> 0 <= r[k] < |s| && s[r[k]]) &&
    (forall k, l :: 0 <= k < l < |r| ==> r[k] < r[l]) &&
    (forall x :: 0 <= x < |s| && s[x] ==> x in r)
  }

  /** Indices of the true entries, in increasing order (`[i for i, val in enumerate(s) if val]`). */
  function TruePositions(s: seq<bool>): seq<int>
  {
    if s == [] then []
    else TruePositions(s[..|s| - 1]) + (if s[|s| - 1] then [|s| - 1] else [])
  }

  /** The positions are exactly the true entries, in increasing order, one per true entry. */
  lemma {:induction false} TruePositionsEnumerate(s: seq<bool>)
    ensures Enumerates(TruePositions(s), s) && |TruePositions(s)| == CountTrue(s)
  {
    if s != [] {
      var s' := s[..|s| - 1];
      TruePositionsEnumerate(s');
      EnumeratesSnoc(TruePositions(s'), s);
    }
  }

  /** Listing the last position after the positions of the prefix, when it is true, enumerates the whole sequence. */
  lemma EnumeratesSnoc(r: seq<int>, s: seq<bool>)
    requires |s| > 0 && Enumerates(r, s[..|s| - 1])
    ensures Enumerates(r + (if s[|s| - 1] then [|s| - 1] else []), s)
  {
    var n := |s| - 1;
    var r' := r + (if s[n] then [n] else []);
    forall k | 0 <= k < |r'|
      ensures 0 <= r'[k] < |s| && s[r'[k]]
    {
      if k < |r| {
        assert s[..n][r[k]] == s[r[k]];
      }
    }
    forall x | 0 <= x < |s| && s[x]
      ensures x in r'
    {
      if x < n {
        assert s[..n][x];
        var k :| 0 <= k < |r| && r[k] == x;
        assert r'[k] == x;
      } else {
        assert r'[|r|] == x;
      }
    }
  }

  /** Entries of an increasing list never decrease. */
  lemma Increasing(r: seq<int>, k: int, l: int)
    requires forall a, b :: 0 <= a < b < |r| ==> r[a] < r[b]
    requires 0 <= k < |r| && 0 <= l < |r|
    ensures r[k] <= r[l] <==> k <= l
  {
  }

  /** In an enumeration of the true entries of s, the entry before r[i] is the last true entry before r[i]. */
  lemma PreviousPosition(r: seq<int>, s: seq<bool>, i: int)
    requires Enumerates(r, s) && 0 < i < |r|
    ensures r[i - 1] == LastStart(s, r[i] - 1)
  {
    Increasing(r, i - 1, i);
    forall q | r[i - 1] < q <= r[i] - 1
      ensures !s[q]
    {
      if s[q] {
        var m :| 0 <= m < |r| && r[m] == q;
        Increasing(r, m, i - 1);
        Increasing(r, m, i);
      }
    }
    LastStartUnique(s, r[i] - 1, r[i - 1]);
  }

  /** In an enumeration of the true entries of s, the entry after r[j] is the first true entry after r[j]. */
  lemma NextPosition(r: seq<int>, s: seq<bool>, j: int)
    requires Enumerates(r, s) && 0 <= j < |r| - 1
    ensures r[j + 1] == NextEnd(s, r[j] + 1)
  {
    Increasing(r, j, j + 1);
    forall q | r[j] + 1 <= q < r[j + 1]
      ensures !s[q]
    {
      if s[q] {
        var m :| 0 <= m < |r| && r[m] == q;
        Increasing(r, m, j);
        Increasing(r, m, j + 1);
      }
    }
    NextEndUnique(s, r[j] + 1, r[j + 1]);
  }

  /** A boundary: a frame that both starts a segment and ends the previous one. */
  predicate IsBoundary(S: seq<bool>, E: seq<bool>, b: int)
  {
    Shaped(S, E) && 0 < b < |S| && S[b] && E[b]
  }

  /** A boundary with its score and its transition type. */
  datatype Boundary = Boundary(pos: int, score: int, tier: int)

  /** The smaller of the lengths of the two segments that meet at b. */
  function Score(S: seq<bool>, E: seq<bool>, b: int): int
    requires Shaped(S, E) && 0 < b < |S|
  {
    var left := b - LastStart(S, b - 1);
    var right := NextEnd(E, b + 1) - b;
    if left <= right then left else right
  }

  function BoundaryAt(v: Variant, A: seq<int>, S: seq<bool>, E: seq<bool>, b: int): Boundary
    requires IsBoundary(S, E, b) && |A| == |S| && TransitionDefined(v, A[b - 1], A[b])
  {
    Boundary(b, Score(S, E, b), TransitionType(v, A[b - 1], A[b]))
  }

  /** The transition type is defined if b is a boundary. */
  predicate CodesAt(v: Variant, A: seq<int>, S: seq<bool>, E: seq<bool>, b: int)
    requires |A| == |S| && 0 < b < |S|
  {
    IsBoundary(S, E, b) ==> TransitionDefined(v, A[b - 1], A[b])
  }

  /** Transition types are defined at every boundary. */
  predicate BoundaryCodes(v: Variant, A: seq<int>, S: seq<bool>, E: seq<bool>)
  {
    |A| == |S| && forall b :: 0 < b < |S| ==> CodesAt(v, A, S, E, b)
  }

  /** e is the boundary at its position, with that position's score and transition type. */
  predicate Recorded(v: Variant, A: seq<int>, S: seq<bool>, E: seq<bool>, e: Boundary)
    requires BoundaryCodes(v, A, S, E)
  {
    IsBoundary(S, E, e.pos) && (assert CodesAt(v, A, S, E, e.pos); e == BoundaryAt(v, A, S, E, e.pos))
  }

  /** The (tier, score) key of a is at most that of b. */
  predicate KeyLe(a: Boundary, b: Boundary)
  {
    a.tier < b.tier || (a.tier == b.tier && a.score <= b.score)
  }

  /** Strict order of the ranking: by tier, then by score, then by position. */
  predicate Before(a: Boundary, b: Boundary)
  {
    a.tier < b.tier || (a.tier == b.tier && (a.score < b.score || (a.score == b.score && a.pos < b.pos)))
  }

  predicate Ranked(bs: seq<Boundary>)
  {
    forall i, j :: 0 <= i < j < |bs| ==> Before(bs[i], bs[j])
  }

  /** Positions held by a list of boundaries. */
  function Positions(bs: seq<Boundary>): set<int>
  {
    set e | e in bs :: e.pos
  }

  /**
   * The list after appending x and sorting stably by score and then stably
   * by tier: x lands after every entry whose (tier, score) key is at most its
   * own and before the others.
   */
  function InsertRanked(bs: seq<Boundary>, x: Boundary): (r: seq<Boundary>)
    ensures multiset(r) == multiset(bs) + multiset{x}
  {
    if bs == [] || KeyLe(bs[|bs| - 1], x) then bs + [x]
    else
      var init, last := bs[..|bs| - 1], bs[|bs| - 1];
      assert bs == init + [last];
      InsertRanked(init, x) + [last]
  }

  /**
   * Inserting a boundary whose position is past every listed one keeps the
   * list ranked: the stable sorts put it after the entries of equal key.
   */
  lemma {:induction false} InsertKeepsRanked(bs: seq<Boundary>, x: Boundary)
    requires Ranked(bs) && forall e :: e in bs ==> e.pos < x.pos
    ensures Ranked(InsertRanked(bs, x))
    decreases |bs|
  {
    if bs == [] || KeyLe(bs[|bs| - 1], x) {
      var r := bs + [x];
      forall i, j | 0 <= i < j < |r|
        ensures Before(r[i], r[j])
      {
        if j == |bs| {
          assert bs[i] in bs;
          if i < |bs| - 1 {
            assert Before(bs[i], bs[|bs| - 1]);
          }
        }
      }
    } else {
      var init, last := bs[..|bs| - 1], bs[|bs| - 1];
      assert bs == init + [last];
      assert forall e :: e in init ==> e in bs;
      InsertKeepsRanked(init, x);
      var r' := InsertRanked(init, x);
      forall e | e in r'
        ensures Before(e, last)
      {
        assert e in multiset(r');
        if e != x {
          assert e in multiset(init);
          var k :| 0 <= k < |init| && init[k] == e;
          assert Before(bs[k], bs[|bs| - 1]);
        }
      }
      var r := r' + [last];
      forall i, j | 0 <= i < j < |r|
        ensures Before(r[i], r[j])
      {
        if j == |r'| {
          assert r'[i] in r';
        }
      }
    }
  }

  /** Inserting x adds exactly its position to the positions held. */
  lemma InsertedPositions(bs: seq<Boundary>, x: Boundary)
    ensures Positions(InsertRanked(bs, x)) == Positions(bs) + {x.pos}
    ensures forall e :: e in InsertRanked(bs, x) ==> e in bs || e == x
  {
    var r := InsertRanked(bs, x);
    assert forall e :: e in r <==> e in multiset(r);
    assert forall e :: e in bs <==> e in multiset(bs);
  }

  /**
   * The boundary list of merge_segments: a two-index walk over the sorted
   * start and end positions finds each position present in both; each is
   * appended with its score and transition type and the list is re-sorted.
   * The result holds every boundary, each with its own score and type,
   * ranked by type, then score, then position.
   */
  method FindBoundaries(v: Variant, A: seq<int>, S: seq<bool>, E: seq<bool>) returns (ranked: seq<Boundary>)
    requires WellFormed(S, E) && BoundaryCodes(v, A, S, E)
    ensures Ranked(ranked)
    ensures forall e :: e in ranked ==> Recorded(v, A, S, E, e)
    ensures forall b :: IsBoundary(S, E, b) ==> b in Positions(ranked)
  {
    var starts := TruePositions(S);
    var ends := TruePositions(E);
    TruePositionsEnumerate(S);
    TruePositionsEnumerate(E);
    CountsBalance(S, E);
    assert |starts| == |ends|;
    ranked := [];
    var i, j := 0, 0;
    while i < |starts| && j < |ends|
      invariant Walk(v, A, S, E, starts, ends, i, j, ranked)
      decreases |starts| - i + |ends| - j
    {
      i, j, ranked := WalkStep(v, A, S, E, starts, ends, i, j, ranked);
    }
    WalkDone(v, A, S, E, starts, ends, i, j, ranked);
  }

  /**
   * What the walk keeps: the indices never pass a position of the other
   * list unseen, the list is ranked and holds recorded boundaries lying
   * before the start index, and every boundary before both indices is in
   * the list.
   */
  ghost predicate Walk(v: Variant, A: seq<int>, S: seq<bool>, E: seq<bool>, starts: seq<int>, ends: seq<int>,
                 i: int, j: int, ranked: seq<Boundary>)
  {
    WellFormed(S, E) && BoundaryCodes(v, A, S, E) &&
    Enumerates(starts, S) && Enumerates(ends, E) &&
    0 <= i <= |starts| && 0 <= j <= |ends| &&
    (i < |starts| && j > 0 ==> ends[j - 1] < starts[i]) &&
    (j < |ends| && i > 0 ==> starts[i - 1] < ends[j]) &&
    Ranked(ranked) &&
    (forall e :: e in ranked ==> Recorded(v, A, S, E, e)) &&
    (i < |starts| ==> forall e :: e in ranked ==> e.pos < starts[i]) &&
    (forall b :: IsBoundary(S, E, b) && Below(starts, i, b) && Below(ends, j, b) ==> b in Positions(ranked))
  }

  /** One comparison of the walk: advance past an unmatched end, an unmatched start, or a boundary. */
  method WalkStep(v: Variant, A: seq<int>, S: seq<bool>, E: seq<bool>, starts: seq<int>, ends: seq<int>,
                  i: int, j: int, ranked: seq<Boundary>) returns (i': int, j': int, ranked': seq<Boundary>)
    requires Walk(v, A, S, E, starts, ends, i, j, ranked) && i < |starts| && j < |ends|
    ensures Walk(v, A, S, E, starts, ends, i', j', ranked')
    ensures |starts| - i' + |ends| - j' < |starts| - i + |ends| - j
  {
    if ends[j] < starts[i] {
      SkipEnd(S, E, starts, ends, i, j, Positions(ranked));
      i', j', ranked' := i, j + 1, ranked;
    } else if ends[j] > starts[i] {
      SkipStart(S, E, starts, ends, i, j, Positions(ranked));
      i', j', ranked' := i + 1, j, ranked;
    } else {
      ranked' := RecordBoundary(v, A, S, E, starts, ends, i, j, ranked);
      i', j' := i + 1, j + 1;
    }
  }

  /** When one list is exhausted, every boundary has been found. */
  lemma WalkDone(v: Variant, A: seq<int>, S: seq<bool>, E: seq<bool>, starts: seq<int>, ends: seq<int>,
                 i: int, j: int, ranked: seq<Boundary>)
    requires Walk(v, A, S, E, starts, ends, i, j, ranked) && (i == |starts| || j == |ends|)
    ensures forall b :: IsBoundary(S, E, b) ==> b in Positions(ranked)
  {
    forall c | IsBoundary(S, E, c)
      ensures Below(starts, i, c) && Below(ends, j, c)
    {
      var m :| 0 <= m < |starts| && starts[m] == c;
      var n :| 0 <= n < |ends| && ends[n] == c;
      if i < |starts| {
        Increasing(ends, n, j - 1);
        Increasing(starts, m, i);
      }
      if j < |ends| {
        Increasing(starts, m, i - 1);
        Increasing(ends, n, j);
      }
    }
  }

  /**
   * The matching case of the walk: starts[i] == ends[j] is a boundary; its
   * score is taken from the neighbouring entries of the two lists and it is
   * inserted into the ranking.
   */
  method RecordBoundary(v: Variant, A: seq<int>, S: seq<bool>, E: seq<bool>, starts: seq<int>, ends: seq<int>,
                        i: int, j: int, ranked: seq<Boundary>) returns (ranked': seq<Boundary>)
    requires Walk(v, A, S, E, starts, ends, i, j, ranked)
    requires i < |starts| && j < |ends| && ends[j] == starts[i]
    ensures Walk(v, A, S, E, starts, ends, i + 1, j + 1, ranked')
  {
    var b := ends[j];
    BoundaryNeighbours(S, E, starts, ends, i, j);
    assert CodesAt(v, A, S, E, b);
    var score := Min(starts[i] - starts[i - 1], ends[j + 1] - ends[j]);
    var x := Boundary(b, score, TransitionType(v, A[b - 1], A[b]));
    assert x == BoundaryAt(v, A, S, E, b);
    InsertedPositions(ranked, x);
    InsertKeepsRanked(ranked, x);
    MatchStep(S, E, starts, ends, i, j, Positions(ranked));
    ranked' := InsertRanked(ranked, x);
  }

  /** b lies before the entry r[i], or r is exhausted. */
  predicate Below(r: seq<int>, i: int, b: int)
    requires 0 <= i <= |r|
  {
    i < |r| ==> b < r[i]
  }

  /** Passing an end position that is not a start position misses no boundary. */
  lemma SkipEnd(S: seq<bool>, E: seq<bool>, starts: seq<int>, ends: seq<int>, i: int, j: int, found: set<int>)
    requires Enumerates(starts, S) && Enumerates(ends, E)
    requires 0 <= i < |starts| && 0 <= j < |ends| && ends[j] < starts[i]
    requires i > 0 ==> starts[i - 1] < ends[j]
    requires forall b :: IsBoundary(S, E, b) && Below(starts, i, b) && Below(ends, j, b) ==> b in found
    ensures j + 1 < |ends| ==> ends[j] < ends[j + 1]
    ensures forall b :: IsBoundary(S, E, b) && Below(starts, i, b) && Below(ends, j + 1, b) ==> b in found
  {
    forall b | IsBoundary(S, E, b) && Below(starts, i, b) && Below(ends, j + 1, b)
      ensures b in found
    {
      var m :| 0 <= m < |starts| && starts[m] == b;
      var n :| 0 <= n < |ends| && ends[n] == b;
      Increasing(starts, m, i);
      Increasing(ends, n, j);
      if j + 1 < |ends| {
        Increasing(ends, n, j + 1);
      }
      if n == j {
        Increasing(starts, m, i - 1);
      }
    }
  }

  /** Passing a start position that is not an end position misses no boundary. */
  lemma SkipStart(S: seq<bool>, E: seq<bool>, starts: seq<int>, ends: seq<int>, i: int, j: int, found: set<int>)
    requires Enumerates(starts, S) && Enumerates(ends, E)
    requires 0 <= i < |starts| && 0 <= j < |ends| && ends[j] > starts[i]
    requires j > 0 ==> ends[j - 1] < starts[i]
    requires forall b :: IsBoundary(S, E, b) && Below(starts, i, b) && Below(ends, j, b) ==> b in found
    ensures i + 1 < |starts| ==> starts[i] < starts[i + 1]
    ensures forall b :: IsBoundary(S, E, b) && Below(starts, i + 1, b) && Below(ends, j, b) ==> b in found
  {
    forall b | IsBoundary(S, E, b) && Below(starts, i + 1, b) && Below(ends, j, b)
      ensures b in found
    {
      var m :| 0 <= m < |starts| && starts[m] == b;
      var n :| 0 <= n < |ends| && ends[n] == b;
      Increasing(starts, m, i);
      Increasing(ends, n, j);
      if i + 1 < |starts| {
        Increasing(starts, m, i + 1);
      }
      if m == i {
        Increasing(ends, n, j - 1);
      }
    }
  }

  /** Recording the boundary at starts[i] == ends[j] misses no boundary. */
  lemma MatchStep(S: seq<bool>, E: seq<bool>, starts: seq<int>, ends: seq<int>, i: int, j: int, found: set<int>)
    requires Enumerates(starts, S) && Enumerates(ends, E)
    requires 0 <= i < |starts| && 0 <= j < |ends| && ends[j] == starts[i]
    requires forall b :: IsBoundary(S, E, b) && Below(starts, i, b) && Below(ends, j, b) ==> b in found
    ensures i + 1 < |starts| ==> starts[i] < starts[i + 1]
    ensures j + 1 < |ends| ==> ends[j] < ends[j + 1]
    ensures forall b :: IsBoundary(S, E, b) && Below(starts, i + 1, b) && Below(ends, j + 1, b) ==> b in found + {starts[i]}
  {
    forall b | IsBoundary(S, E, b) && Below(starts, i + 1, b) && Below(ends, j + 1, b)
      ensures b in found + {starts[i]}
    {
      var m :| 0 <= m < |starts| && starts[m] == b;
      Increasing(starts, m, i);
      if i + 1 < |starts| {
        Increasing(starts, m, i + 1);
      }
      if j + 1 < |ends| {
        Increasing(ends, j, j + 1);
      }
    }
  }

  function Min(a: int, b: int): int
  {
    if a <= b then a else b
  }

  /**
   * At a boundary found at starts[i] == ends[j] there is an earlier start
   * and a later end, and they are the ends of the two segments meeting there.
   */
  lemma BoundaryNeighbours(S: seq<bool>, E: seq<bool>, starts: seq<int>, ends: seq<int>, i: int, j: int)
    requires WellFormed(S, E) && Enumerates(starts, S) && Enumerates(ends, E)
    requires 0 <= i < |starts| && 0 <= j < |ends| && starts[i] == ends[j]
    ensures 0 < starts[i] < |S|
    ensures 0 < i && j + 1 < |ends|
    ensures starts[i - 1] == LastStart(S, starts[i] - 1) && ends[j + 1] == NextEnd(E, starts[i] + 1)
  {
    var b := starts[i];
    assert b > 0 by { assert !E[0]; }
    assert Open(S, E, b - 1);
    CoveredHasStart(S, E, b - 1);
    var ls := LastStart(S, b - 1);
    var m :| 0 <= m < |starts| && starts[m] == ls;
    Increasing(starts, m, i);
    PreviousPosition(starts, S, i);
    SegmentEnds(S, E, b);
    var e := SegEnd(E, b);
    var n :| 0 <= n < |ends| && ends[n] == e;
    Increasing(ends, j, n);
    NextPosition(ends, E, j);
  }
}
