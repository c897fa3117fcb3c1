/**
 * merge_segments: boundaries are tried in ranked order and the two segments
 * meeting at one are joined when the joined segment stays below the length
 * cap. Under the inter-utterance policy of the speech-based segmenter every
 * marker position first becomes a boundary, so the segments tile the
 * recording; a tile of unconverted silence or noise is then dropped when it
 * is longer than the policy's minimum, or joined with both neighbours.
 */
module Merging {
  import opened Markers
  import opened FrameCodes
  import opened SegmentState
  import opened Boundaries

  // ---------------------------------------------------------------------------
  // Tiling.

  /**
   * Markers after the tiling step: 0 and every marker position become starts,
   * N and every marker position become ends (a start already set at 0 is
   * kept; an end at 0 cannot occur in well-formed markers).
   */
  function Tiled(S: seq<bool>, E: seq<bool>): (SE: (seq<bool>, seq<bool>))
    requires Shaped(S, E)
    ensures Shaped(SE.0, SE.1) && |SE.0| == |S|
  {
    (seq(|S|, x requires 0 <= x < |S| => x == 0 || S[x] || E[x]),
     seq(|S| + 1, x requires 0 <= x <= |S| => x == |S| || E[x] || (0 < x < |S| && S[x])))
  }

  /** Markers whose segments tile the recording: inside it every start is an end and vice versa. */
  predicate TileShaped(S: seq<bool>, E: seq<bool>)
  {
    Shaped(S, E) && |S| >= 1 && S[0] && E[|S|] && !E[0] &&
    forall x :: 0 < x < |S| ==> (S[x] <==> E[x])
  }

  lemma {:induction false} TileOpen(S: seq<bool>, E: seq<bool>, x: int)
    requires TileShaped(S, E) && 0 <= x < |S|
    ensures Open(S, E, x)
    decreases x
  {
    if x > 0 && !S[x] {
      TileOpen(S, E, x - 1);
    }
  }

  /** The tiled markers are well formed, cover every frame and keep every old marker. */
  lemma TiledShape(S: seq<bool>, E: seq<bool>)
    requires WellFormed(S, E) && |S| >= 1
    ensures TileShaped(Tiled(S, E).0, Tiled(S, E).1)
    ensures WellFormed(Tiled(S, E).0, Tiled(S, E).1)
    ensures forall x :: 0 <= x < |S| ==> Open(Tiled(S, E).0, Tiled(S, E).1, x)
  {
    var (S1, E1) := Tiled(S, E);
    forall x | 0 <= x < |S|
      ensures Open(S1, E1, x)
    {
      TileOpen(S1, E1, x);
    }
  }

  /**
   * The tiling step as the source performs it: the sorted distinct positions
   * of {0} + starts + ends + {N} lose their last entry to become the starts
   * and their first entry to become the ends, and each listed position is
   * marked.
   */
  method TileMarkers(S: seq<bool>, E: seq<bool>) returns (S': seq<bool>, E': seq<bool>)
    requires Shaped(S, E) && |S| >= 1
    ensures (S', E') == Tiled(S, E)
  {
    var N := |S|;
    var mask := seq(N + 1, x requires 0 <= x <= N => x == 0 || x == N || (x < N && S[x]) || E[x]);
    var marks := TruePositions(mask);
    TruePositionsEnumerate(mask);
    MarkList(mask, marks);
    S' := MarkAll(S, marks[..|marks| - 1]);
    E' := MarkAll(E, marks[1..]);
    MarkedTiles(S, E, mask, marks[..|marks| - 1], marks[1..], S', E');
  }

  /** Marking the mask positions below the end as starts and those above 0 as ends gives the tiling. */
  lemma MarkedTiles(S: seq<bool>, E: seq<bool>, mask: seq<bool>, ps: seq<int>, qs: seq<int>, S': seq<bool>, E': seq<bool>)
    requires Shaped(S, E) && |S| >= 1 && |mask| == |S| + 1
    requires forall x :: 0 <= x <= |S| ==> mask[x] == (x == 0 || x == |S| || (x < |S| && S[x]) || E[x])
    requires forall x :: x in ps <==> 0 <= x < |S| && mask[x]
    requires forall x :: x in qs <==> 0 < x <= |S| && mask[x]
    requires |S'| == |S| && forall x :: 0 <= x < |S| ==> S'[x] == (S[x] || x in ps)
    requires |E'| == |E| && forall x :: 0 <= x < |E| ==> E'[x] == (E[x] || x in qs)
    ensures (S', E') == Tiled(S, E)
  {
    assert S' == Tiled(S, E).0;
    assert E' == Tiled(S, E).1;
  }

  /** Sets the marker at every listed position. */
  method MarkAll(M: seq<bool>, ps: seq<int>) returns (M': seq<bool>)
    requires forall k :: 0 <= k < |ps| ==> 0 <= ps[k] < |M|
    ensures |M'| == |M|
    ensures forall x :: 0 <= x < |M| ==> M'[x] == (M[x] || x in ps)
  {
    M' := M;
    for k := 0 to |ps|
      invariant |M'| == |M|
      invariant forall x :: 0 <= x < |M| ==> M'[x] == (M[x] || x in ps[..k])
    {
      M' := M'[ps[k] := true];
    }
    assert ps[..|ps|] == ps;
  }

  /** The sorted marker list without its last entry holds the marks below the end, without its first those above 0. */
  lemma MarkList(mask: seq<bool>, marks: seq<int>)
    requires |mask| >= 2 && mask[0] && mask[|mask| - 1] && Enumerates(marks, mask)
    ensures |marks| >= 2
    ensures forall x :: x in marks[..|marks| - 1] <==> 0 <= x < |mask| - 1 && mask[x]
    ensures forall x :: x in marks[1..] <==> 0 < x < |mask| && mask[x]
  {
    var N := |mask| - 1;
    var first :| 0 <= first < |marks| && marks[first] == 0;
    var last :| 0 <= last < |marks| && marks[last] == N;
    Increasing(marks, 0, first);
    Increasing(marks, last, |marks| - 1);
    forall x
      ensures x in marks[..|marks| - 1] <==> 0 <= x < N && mask[x]
      ensures x in marks[1..] <==> 0 < x <= N && mask[x]
    {
      MarkListAt(mask, marks, x);
    }
  }

  lemma MarkListAt(mask: seq<bool>, marks: seq<int>, x: int)
    requires |mask| >= 2 && Enumerates(marks, mask) && |marks| >= 2
    requires marks[0] == 0 && marks[|marks| - 1] == |mask| - 1
    ensures x in marks[..|marks| - 1] <==> 0 <= x < |mask| - 1 && mask[x]
    ensures x in marks[1..] <==> 0 < x < |mask| && mask[x]
  {
    if x in marks {
      var m :| 0 <= m < |marks| && marks[m] == x;
      Increasing(marks, m, |marks| - 1);
      Increasing(marks, 0, m);
      assert x < |mask| - 1 ==> m < |marks| - 1 && marks[..|marks| - 1][m] == x;
      assert x > 0 ==> m > 0 && marks[1..][m - 1] == x;
    }
  }

  /** Within a tile, LastStart finds the tile's start exactly for the frames the tile spans. */
  lemma TileContains(S: seq<bool>, E: seq<bool>, b: int, x: int)
    requires TileShaped(S, E) && 0 <= b < |S| && S[b] && 0 <= x < |S|
    ensures LastStart(S, x) == b <==> b <= x < NextEnd(E, b + 1)
  {
    var t := NextEnd(E, b + 1);
    if b <= x < t {
      LastStartUnique(S, x, b);
    }
  }

  /** Padded markers do not change inside a tile, so neither does coverage. */
  lemma {:induction false} TileUniform(S: seq<bool>, E: seq<bool>, b: int, x: int)
    requires Shaped(S, E) && 0 <= b <= x < |S| && Tiled(S, E).0[b]
    requires x < NextEnd(Tiled(S, E).1, b + 1)
    ensures Open(S, E, x) == Open(S, E, b)
    decreases x - b
  {
    if x > b {
      assert !Tiled(S, E).1[x];
      TileUniform(S, E, b, x - 1);
    }
  }

  // ---------------------------------------------------------------------------
  // The state of a merge run.

  /** The inputs of one merge: padded codes and markers and the options. */
  datatype Run = Run(v: Variant, A: seq<int>, B: seq<int>, S0: seq<bool>, E0: seq<bool>,
                     policy: bool, minInter: int, maxFrames: int)

  predicate RunOk(r: Run)
  {
    Padded(r.v, r.A, r.B, r.S0, r.E0) && |r.A| >= 1 && (r.policy ==> r.v.Nonoise?)
  }

  /** Markers when the boundary list is built: tiled under the policy, the padded ones otherwise. */
  function Candidates(S0: seq<bool>, E0: seq<bool>, policy: bool): (SE: (seq<bool>, seq<bool>))
    requires Shaped(S0, E0)
    ensures Shaped(SE.0, SE.1) && |SE.0| == |S0|
  {
    if policy then Tiled(S0, E0) else (S0, E0)
  }

  function Starts1(r: Run): seq<bool>
    requires RunOk(r)
  {
    Candidates(r.S0, r.E0, r.policy).0
  }

  function Ends1(r: Run): seq<bool>
    requires RunOk(r)
  {
    Candidates(r.S0, r.E0, r.policy).1
  }

  /** Under the policy, g starts a tile of unconverted silence or noise. */
  predicate GapStart(r: Run, g: int)
  {
    r.policy && 0 <= g < |r.A| && Absorbable(r.v, r.A[g])
  }

  /** The tile starting at g is non-speech longer than the policy's minimum. */
  predicate LongGap(r: Run, g: int)
    requires RunOk(r)
  {
    GapStart(r, g) && NextEnd(Ends1(r), g + 1) - g > r.minInter
  }

  /** The tile ending at x is a non-speech tile whose boundary has been processed. */
  predicate GapBefore(r: Run, done: set<int>, x: int)
    requires RunOk(r) && 0 <= x <= |r.A|
  {
    r.policy && x > 0 &&
    var g := LastStart(Starts1(r), x - 1);
    g >= 0 && g in done && GapStart(r, g)
  }

  /**
   * What the merge keeps at marker position x: markers are only ever
   * cleared, a cleared marker is a processed boundary or the end of a
   * processed non-speech tile, an unprocessed boundary still holding its end
   * marker holds its start marker, and an end not shared with a start sits
   * on a silence or noise frame.
   */
  predicate MarkersAt(r: Run, S: seq<bool>, E: seq<bool>, done: set<int>, x: int)
    requires RunOk(r) && Shaped(S, E) && |S| == |r.A| && 0 <= x <= |S|
  {
    var S1, E1 := Starts1(r), Ends1(r);
    (x < |S| ==> (S[x] ==> S1[x]) && (S1[x] && !S[x] ==> x in done || GapBefore(r, done, x))) &&
    (E[x] ==> E1[x]) && (E1[x] && !E[x] ==> x in done || GapBefore(r, done, x)) &&
    (0 < x < |S| && S1[x] && E[x] && x !in done ==> S[x]) &&
    (x < |S| && E[x] && !S[x] ==> Absorbable(r.v, r.A[x]))
  }

  /**
   * Coverage of frame x: without the policy it never changes; under the
   * policy a frame is outside every segment exactly when its tile is a long
   * non-speech tile already processed.
   */
  predicate CoverAt(r: Run, S: seq<bool>, E: seq<bool>, done: set<int>, x: int)
    requires RunOk(r) && Shaped(S, E) && |S| == |r.A| && 0 <= x < |S|
  {
    if r.policy then
      var g := LastStart(Starts1(r), x);
      Open(S, E, x) <==> !(g in done && LongGap(r, g))
    else Open(S, E, x) == Open(r.S0, r.E0, x)
  }

  /** A segment is one of the tiles the merge started from, or shorter than the cap. */
  predicate LengthAt(r: Run, S: seq<bool>, E: seq<bool>, s: int)
    requires RunOk(r) && Shaped(S, E) && |S| == |r.A| && 0 <= s < |S|
  {
    S[s] ==> SegEnd(E, s) == NextEnd(Ends1(r), s + 1) || SegEnd(E, s) - s < r.maxFrames
  }

  predicate MarkersInv(r: Run, S: seq<bool>, E: seq<bool>, done: set<int>)
    requires RunOk(r) && Shaped(S, E) && |S| == |r.A|
  {
    forall x :: 0 <= x <= |S| ==> MarkersAt(r, S, E, done, x)
  }

  predicate CoverInv(r: Run, S: seq<bool>, E: seq<bool>, done: set<int>)
    requires RunOk(r) && Shaped(S, E) && |S| == |r.A|
  {
    forall x :: 0 <= x < |S| ==> CoverAt(r, S, E, done, x)
  }

  predicate LengthInv(r: Run, S: seq<bool>, E: seq<bool>)
    requires RunOk(r) && Shaped(S, E) && |S| == |r.A|
  {
    forall s :: 0 <= s < |S| ==> LengthAt(r, S, E, s)
  }

  /** What holds after the boundaries in done have been processed. */
  predicate MergeInv(r: Run, S: seq<bool>, E: seq<bool>, done: set<int>)
  {
    RunOk(r) && WellFormed(S, E) && |S| == |r.A| &&
    (forall x :: x in done ==> IsBoundary(Starts1(r), Ends1(r), x)) &&
    MarkersInv(r, S, E, done) && CoverInv(r, S, E, done) && LengthInv(r, S, E)
  }

  // ---------------------------------------------------------------------------
  // Facts about tiles of the padded markers.

  /**
   * A non-speech tile starting at boundary b follows a covered frame, and
   * unless it reaches the end of the recording it is followed by a padded
   * start on a covered frame.
   */
  lemma GapFacts(r: Run, b: int)
    requires RunOk(r) && r.policy && 0 < b < |r.A| && Starts1(r)[b] && Absorbable(r.v, r.A[b])
    ensures Covered(r.v, r.A[b - 1])
    ensures var t := NextEnd(Ends1(r), b + 1);
      b < t <= |r.A| &&
      (t < |r.A| ==> r.S0[t] && Starts1(r)[t] && Absorbable(r.v, r.A[t - 1]) && Covered(r.v, r.A[t]))
  {
    var v, A, S0, E0 := r.v, r.A, r.S0, r.E0;
    TiledShape(S0, E0);
    var E1 := Ends1(r);
    assert CoveredAt(v, A, S0, E0, b);
    assert !S0[b] && E0[b];
    assert Open(S0, E0, b - 1);
    assert CoveredAt(v, A, S0, E0, b - 1);
    var t := NextEnd(E1, b + 1);
    assert t <= |A|;
    if t < |A| {
      TileUniform(S0, E0, b, t - 1);
      assert CoveredAt(v, A, S0, E0, t - 1);
      assert E1[t];
      assert Open(S0, E0, t);
      assert CoveredAt(v, A, S0, E0, t);
    }
  }

  /** The tile after a non-speech tile starts on a covered frame. */
  lemma AfterGap(r: Run, g: int, b: int)
    requires RunOk(r) && r.policy && 0 <= g < b < |r.A| && Starts1(r)[g] && Starts1(r)[b]
    requires LastStart(Starts1(r), b - 1) == g && Absorbable(r.v, r.A[g])
    ensures Covered(r.v, r.A[b])
  {
    var v, A, S0, E0 := r.v, r.A, r.S0, r.E0;
    TiledShape(S0, E0);
    TileContains(Starts1(r), Ends1(r), g, b - 1);
    TileUniform(S0, E0, g, b - 1);
    assert CoveredAt(v, A, S0, E0, g);
    assert CoveredAt(v, A, S0, E0, b - 1);
    assert Open(S0, E0, b);
    assert CoveredAt(v, A, S0, E0, b);
  }

  /** The transition type is defined at every boundary the merge ranks. */
  lemma BoundaryCodesHold(r: Run)
    requires RunOk(r)
    ensures BoundaryCodes(r.v, r.A, Starts1(r), Ends1(r))
  {
    var v, A, S0, E0 := r.v, r.A, r.S0, r.E0;
    var S1, E1 := Starts1(r), Ends1(r);
    if r.policy {
      TiledShape(S0, E0);
    }
    forall b | 0 < b < |A|
      ensures CodesAt(v, A, S1, E1, b)
    {
      if IsBoundary(S1, E1, b) {
        if r.policy {
          assert TransitionAt(A, S0, E0, b);
          assert CoveredAt(v, A, S0, E0, b) && CoveredAt(v, A, S0, E0, b - 1);
          if S0[b] {
            assert Open(S0, E0, b);
          } else {
            assert E0[b] && Open(S0, E0, b - 1);
          }
        } else {
          BoundaryFramesCovered(v, A, r.B, S0, E0, b);
        }
      }
    }
  }

  /** The merge starts from the markers of the boundary list, with nothing processed. */
  lemma MergeInvInit(r: Run)
    requires RunOk(r)
    ensures MergeInv(r, Starts1(r), Ends1(r), {})
  {
    var v, A, S0, E0 := r.v, r.A, r.S0, r.E0;
    var S1, E1 := Starts1(r), Ends1(r);
    if r.policy {
      TiledShape(S0, E0);
    } else {
      forall x | 0 <= x < |A| && E0[x] && !S0[x]
        ensures Absorbable(v, A[x])
      {
        assert CoveredAt(v, A, S0, E0, x);
      }
    }
    forall x | 0 <= x <= |A|
      ensures MarkersAt(r, S1, E1, {}, x)
    {
    }
  }

  // ---------------------------------------------------------------------------
  // Segments around one boundary.

  /** Clearing the end marker at b leaves the end of every segment not ending at b. */
  lemma UnaffectedEnd(S: seq<bool>, E: seq<bool>, s: int, b: int)
    requires WellFormed(S, E) && 0 <= s < |S| && S[s] && 0 < b <= |S| && E[b]
    requires s != LastStart(S, b - 1)
    ensures NextEnd(E[b := false], s + 1) == NextEnd(E, s + 1)
  {
    NextEndClear(E, s + 1, b);
    if s + 1 <= b && NextEnd(E, s + 1) == b {
      SegmentOwner(S, E, s, b);
    }
  }

  // ---------------------------------------------------------------------------
  // One boundary.

  /**
   * What the merge does at boundary b, as stated by the source: under the
   * policy a boundary whose end marker is gone is skipped; a non-speech
   * segment starting at b is dropped when longer than the minimum, joined
   * with both neighbours when the three fit below the cap; otherwise the two
   * segments meeting at b are joined when they fit below the cap.
   */
  function MergeAction(r: Run, S: seq<bool>, E: seq<bool>, b: int): (SE: (seq<bool>, seq<bool>))
    requires WellFormed(S, E) && |S| == |r.A| && 0 < b < |S| && (r.policy || E[b]) && (E[b] ==> S[b])
    ensures |SE.0| == |S| && |SE.1| == |E|
  {
    if r.policy && !E[b] then (S, E)
    else
      SegmentEnds(S, E, b);
      var ls, p := LastStart(S, b - 1), SegEnd(E, b);
      if r.policy && Absorbable(r.v, r.A[b]) then
        if p - b > r.minInter then (S[b := false], E[p := false])
        else if (b - ls) + (NextEnd(E, p + 1) - b) < r.maxFrames then JoinThree(S, E, b, p)
        else (S, E)
      else if p - ls < r.maxFrames then (S[b := false], E[b := false])
      else (S, E)
  }

  /** Processing b changes nothing: the invariant holds with b processed when b's tile is not a long gap. */
  lemma KeepStep(r: Run, S: seq<bool>, E: seq<bool>, done: set<int>, b: int)
    requires MergeInv(r, S, E, done) && IsBoundary(Starts1(r), Ends1(r), b) && !LongGap(r, b)
    ensures MergeInv(r, S, E, done + {b})
  {
    forall x | 0 <= x <= |S|
      ensures MarkersAt(r, S, E, done + {b}, x)
    {
      assert MarkersAt(r, S, E, done, x);
    }
    forall x | 0 <= x < |S|
      ensures CoverAt(r, S, E, done + {b}, x)
    {
      assert CoverAt(r, S, E, done, x);
    }
  }

  /** Joining the two segments at b keeps the invariant when they fit below the cap. */
  lemma PlainStep(r: Run, S: seq<bool>, E: seq<bool>, done: set<int>, b: int)
    requires MergeInv(r, S, E, done) && IsBoundary(Starts1(r), Ends1(r), b) && b !in done
    requires S[b] && E[b] && !LongGap(r, b)
    requires SegEnd(E, b) - LastStart(S, b - 1) < r.maxFrames
    ensures MergeInv(r, S[b := false], E[b := false], done + {b})
  {
    var S', E' := S[b := false], E[b := false];
    MergeAt(S, E, b);
    forall x | 0 <= x <= |S|
      ensures MarkersAt(r, S', E', done + {b}, x)
    {
      assert MarkersAt(r, S, E, done, x);
    }
    forall x | 0 <= x < |S|
      ensures CoverAt(r, S', E', done + {b}, x)
    {
      assert CoverAt(r, S, E, done, x);
    }
    PlainLengths(r, S, E, b);
  }

  lemma PlainLengths(r: Run, S: seq<bool>, E: seq<bool>, b: int)
    requires RunOk(r) && WellFormed(S, E) && |S| == |r.A| && LengthInv(r, S, E)
    requires 0 < b < |S| && S[b] && E[b]
    requires SegEnd(E, b) - LastStart(S, b - 1) < r.maxFrames
    ensures LengthInv(r, S[b := false], E[b := false])
  {
    var S', E' := S[b := false], E[b := false];
    EndOwner(S, E, b);
    var ls := LastStart(S, b - 1);
    forall s | 0 <= s < |S|
      ensures LengthAt(r, S', E', s)
    {
      if S'[s] {
        assert LengthAt(r, S, E, s);
        if s == ls {
          NextEndClear(E, s + 1, b);
        } else {
          UnaffectedEnd(S, E, s, b);
        }
      }
    }
  }

  /** Under the policy, a non-speech tile at b ends where the live segment at b ends. */
  lemma TileEndFacts(r: Run, S: seq<bool>, E: seq<bool>, done: set<int>, b: int)
    requires MergeInv(r, S, E, done) && IsBoundary(Starts1(r), Ends1(r), b) && b !in done
    requires S[b] && E[b] && GapStart(r, b) && NextEnd(Ends1(r), b + 1) !in done
    ensures var t := NextEnd(Ends1(r), b + 1);
      SegEnd(E, b) == t && t <= |S| && (t < |S| ==> S[t] && E[t])
  {
    TiledShape(r.S0, r.E0);
    var S1, E1 := Starts1(r), Ends1(r);
    var t := NextEnd(E1, b + 1);
    TileContains(S1, E1, b, t - 1);
    assert MarkersAt(r, S, E, done, t);
    forall q | b + 1 <= q < t
      ensures !E[q]
    {
      assert MarkersAt(r, S, E, done, q);
    }
    NextEndUnique(E, b + 1, t);
  }

  /** Dropping the long non-speech segment at b keeps the invariant. */
  lemma DropStep(r: Run, S: seq<bool>, E: seq<bool>, done: set<int>, b: int)
    requires MergeInv(r, S, E, done) && IsBoundary(Starts1(r), Ends1(r), b)
    requires S[b] && E[b] && LongGap(r, b) && SegEnd(E, b) == NextEnd(Ends1(r), b + 1)
    ensures SegEnd(E, b) <= |S|
    ensures MergeInv(r, S[b := false], E[SegEnd(E, b) := false], done + {b})
  {
    RemoveSegment(S, E, b);
    DropMarkers(r, S, E, done, b);
    DropCover(r, S, E, done, b);
    DropLengths(r, S, E, b);
  }

  lemma DropMarkers(r: Run, S: seq<bool>, E: seq<bool>, done: set<int>, b: int)
    requires RunOk(r) && WellFormed(S, E) && |S| == |r.A| && MarkersInv(r, S, E, done)
    requires IsBoundary(Starts1(r), Ends1(r), b) && S[b] && E[b] && GapStart(r, b)
    requires SegEnd(E, b) == NextEnd(Ends1(r), b + 1)
    ensures SegEnd(E, b) <= |S|
    ensures MarkersInv(r, S[b := false], E[SegEnd(E, b) := false], done + {b})
  {
    TiledShape(r.S0, r.E0);
    SegmentEnds(S, E, b);
    var p := SegEnd(E, b);
    var S', E' := S[b := false], E[p := false];
    TileContains(Starts1(r), Ends1(r), b, p - 1);
    forall x | 0 <= x <= |S|
      ensures MarkersAt(r, S', E', done + {b}, x)
    {
      assert MarkersAt(r, S, E, done, x);
    }
  }

  lemma DropCover(r: Run, S: seq<bool>, E: seq<bool>, done: set<int>, b: int)
    requires RunOk(r) && WellFormed(S, E) && |S| == |r.A| && CoverInv(r, S, E, done)
    requires IsBoundary(Starts1(r), Ends1(r), b) && S[b] && LongGap(r, b)
    requires SegEnd(E, b) == NextEnd(Ends1(r), b + 1)
    ensures SegEnd(E, b) <= |S|
    ensures CoverInv(r, S[b := false], E[SegEnd(E, b) := false], done + {b})
  {
    TiledShape(r.S0, r.E0);
    RemoveSegment(S, E, b);
    var S', E' := S[b := false], E[SegEnd(E, b) := false];
    forall x | 0 <= x < |S|
      ensures CoverAt(r, S', E', done + {b}, x)
    {
      assert CoverAt(r, S, E, done, x);
      TileContains(Starts1(r), Ends1(r), b, x);
    }
  }

  lemma DropLengths(r: Run, S: seq<bool>, E: seq<bool>, b: int)
    requires RunOk(r) && WellFormed(S, E) && |S| == |r.A| && LengthInv(r, S, E)
    requires 0 <= b < |S| && S[b]
    ensures SegEnd(E, b) <= |S|
    ensures LengthInv(r, S[b := false], E[SegEnd(E, b) := false])
  {
    SegmentOwner(S, E, b, SegEnd(E, b));
    var p := SegEnd(E, b);
    SegmentEnds(S, E, b);
    var S', E' := S[b := false], E[p := false];
    forall s | 0 <= s < |S|
      ensures LengthAt(r, S', E', s)
    {
      if S'[s] {
        assert LengthAt(r, S, E, s);
        UnaffectedEnd(S, E, s, p);
      }
    }
  }

  /** Markers after joining the segment starting at b with both neighbours; t is where it ends. */
  function JoinThree(S: seq<bool>, E: seq<bool>, b: int, t: int): (SE: (seq<bool>, seq<bool>))
    requires Shaped(S, E) && 0 <= b < |S| && b < t <= |S|
    ensures |SE.0| == |S| && |SE.1| == |E|
  {
    if t < |S| then (S[t := false][b := false], E[t := false][b := false])
    else (S[b := false], E[b := false])
  }

  /** Joining a short non-speech segment at b with both neighbours keeps the invariant. */
  lemma ThreeStep(r: Run, S: seq<bool>, E: seq<bool>, done: set<int>, b: int)
    requires MergeInv(r, S, E, done) && IsBoundary(Starts1(r), Ends1(r), b) && b !in done
    requires S[b] && E[b] && GapStart(r, b) && !LongGap(r, b)
    requires SegEnd(E, b) == NextEnd(Ends1(r), b + 1) <= |S|
    requires SegEnd(E, b) < |S| ==> S[SegEnd(E, b)] && E[SegEnd(E, b)]
    requires NextEnd(E, SegEnd(E, b) + 1) - LastStart(S, b - 1) < r.maxFrames
    ensures SegEnd(E, b) <= |S|
    ensures MergeInv(r, JoinThree(S, E, b, SegEnd(E, b)).0, JoinThree(S, E, b, SegEnd(E, b)).1, done + {b})
  {
    SegmentEnds(S, E, b);
    ThreeKeepsOpen(S, E, b);
    ThreeMarkers(r, S, E, done, b);
    ThreeCover(r, S, E, done, b);
    ThreeLengths(r, S, E, b);
  }

  /** The three-way join keeps the markers well formed and every frame's coverage. */
  lemma ThreeKeepsOpen(S: seq<bool>, E: seq<bool>, b: int)
    requires WellFormed(S, E) && 0 < b < |S| && S[b] && E[b]
    requires SegEnd(E, b) < |S| ==> S[SegEnd(E, b)] && E[SegEnd(E, b)]
    ensures SegEnd(E, b) <= |S|
    ensures var SE := JoinThree(S, E, b, SegEnd(E, b));
      WellFormed(SE.0, SE.1) &&
      forall x :: -1 <= x < |S| ==> Open(SE.0, SE.1, x) == Open(S, E, x)
  {
    SegmentEnds(S, E, b);
    var t := SegEnd(E, b);
    if t < |S| {
      MergeAt(S, E, t);
      MergeAt(S[t := false], E[t := false], b);
    } else {
      MergeAt(S, E, b);
    }
  }

  lemma ThreeMarkers(r: Run, S: seq<bool>, E: seq<bool>, done: set<int>, b: int)
    requires RunOk(r) && WellFormed(S, E) && |S| == |r.A| && MarkersInv(r, S, E, done)
    requires IsBoundary(Starts1(r), Ends1(r), b) && S[b] && E[b] && GapStart(r, b)
    requires SegEnd(E, b) == NextEnd(Ends1(r), b + 1) <= |S|
    ensures MarkersInv(r, JoinThree(S, E, b, SegEnd(E, b)).0, JoinThree(S, E, b, SegEnd(E, b)).1, done + {b})
  {
    TiledShape(r.S0, r.E0);
    var t := SegEnd(E, b);
    var (S', E') := JoinThree(S, E, b, t);
    TileContains(Starts1(r), Ends1(r), b, t - 1);
    forall x | 0 <= x <= |S|
      ensures MarkersAt(r, S', E', done + {b}, x)
    {
      assert MarkersAt(r, S, E, done, x);
    }
  }

  lemma ThreeCover(r: Run, S: seq<bool>, E: seq<bool>, done: set<int>, b: int)
    requires RunOk(r) && WellFormed(S, E) && |S| == |r.A| && CoverInv(r, S, E, done)
    requires 0 < b < |S| && S[b] && E[b] && b !in done && !LongGap(r, b)
    requires SegEnd(E, b) < |S| ==> S[SegEnd(E, b)] && E[SegEnd(E, b)]
    ensures SegEnd(E, b) <= |S|
    ensures CoverInv(r, JoinThree(S, E, b, SegEnd(E, b)).0, JoinThree(S, E, b, SegEnd(E, b)).1, done + {b})
  {
    ThreeKeepsOpen(S, E, b);
    var (S', E') := JoinThree(S, E, b, SegEnd(E, b));
    forall x | 0 <= x < |S|
      ensures CoverAt(r, S', E', done + {b}, x)
    {
      assert CoverAt(r, S, E, done, x);
    }
  }

  lemma ThreeLengths(r: Run, S: seq<bool>, E: seq<bool>, b: int)
    requires RunOk(r) && WellFormed(S, E) && |S| == |r.A| && LengthInv(r, S, E)
    requires 0 < b < |S| && S[b] && E[b]
    requires SegEnd(E, b) < |S| ==> S[SegEnd(E, b)] && E[SegEnd(E, b)]
    requires SegEnd(E, b) <= |S| && NextEnd(E, SegEnd(E, b) + 1) - LastStart(S, b - 1) < r.maxFrames
    ensures LengthInv(r, JoinThree(S, E, b, SegEnd(E, b)).0, JoinThree(S, E, b, SegEnd(E, b)).1)
  {
    var t := SegEnd(E, b);
    var (S', E') := JoinThree(S, E, b, t);
    forall s | 0 <= s < |S|
      ensures LengthAt(r, S', E', s)
    {
      ThreeLengthAt(r, S, E, b, s);
    }
  }

  lemma ThreeLengthAt(r: Run, S: seq<bool>, E: seq<bool>, b: int, s: int)
    requires RunOk(r) && WellFormed(S, E) && |S| == |r.A| && LengthInv(r, S, E)
    requires 0 < b < |S| && S[b] && E[b]
    requires SegEnd(E, b) < |S| ==> S[SegEnd(E, b)] && E[SegEnd(E, b)]
    requires SegEnd(E, b) <= |S| && NextEnd(E, SegEnd(E, b) + 1) - LastStart(S, b - 1) < r.maxFrames
    requires 0 <= s < |S|
    ensures LengthAt(r, JoinThree(S, E, b, SegEnd(E, b)).0, JoinThree(S, E, b, SegEnd(E, b)).1, s)
  {
    var t := SegEnd(E, b);
    var (S', E') := JoinThree(S, E, b, t);
    ThreeLeftEnd(S, E, b);
    if S'[s] && s != LastStart(S, b - 1) {
      assert LengthAt(r, S, E, s);
      ThreeOtherEnd(S, E, b, s);
    }
  }

  /** After the three-way join, the segment before b ends where the segment after the gap ended. */
  lemma ThreeLeftEnd(S: seq<bool>, E: seq<bool>, b: int)
    requires WellFormed(S, E) && 0 < b < |S| && S[b] && E[b]
    requires SegEnd(E, b) < |S| ==> S[SegEnd(E, b)] && E[SegEnd(E, b)]
    ensures SegEnd(E, b) <= |S|
    ensures var t, ls := SegEnd(E, b), LastStart(S, b - 1);
      0 <= ls < b &&
      NextEnd(JoinThree(S, E, b, t).1, ls + 1) == (if t < |S| then NextEnd(E, t + 1) else t)
  {
    SegmentEnds(S, E, b);
    EndOwner(S, E, b);
    var t := SegEnd(E, b);
    var ls := LastStart(S, b - 1);
    if t < |S| {
      var Ea := E[t := false];
      NextEndClear(E, ls + 1, t);
      NextEndClear(E, b + 1, t);
      NextEndClear(Ea, ls + 1, b);
    } else {
      NextEndClear(E, ls + 1, b);
    }
  }

  /** The three-way join leaves the end of every other segment. */
  lemma ThreeOtherEnd(S: seq<bool>, E: seq<bool>, b: int, s: int)
    requires WellFormed(S, E) && 0 < b < |S| && S[b] && E[b]
    requires SegEnd(E, b) < |S| ==> S[SegEnd(E, b)] && E[SegEnd(E, b)]
    requires 0 <= s < |S| && S[s] && s != b && s != SegEnd(E, b) && s != LastStart(S, b - 1)
    ensures SegEnd(E, b) <= |S|
    ensures NextEnd(JoinThree(S, E, b, SegEnd(E, b)).1, s + 1) == NextEnd(E, s + 1)
  {
    SegmentEnds(S, E, b);
    EndOwner(S, E, b);
    var t := SegEnd(E, b);
    var ls := LastStart(S, b - 1);
    if b < s < t {
      SegmentInterior(S, E, b, s);
    }
    if t < |S| {
      MergeAt(S, E, t);
      var Sa, Ea := S[t := false], E[t := false];
      LastStartUnique(Sa, b - 1, ls);
      SegmentOwner(S, E, b, t);
      UnaffectedEnd(S, E, s, t);
      UnaffectedEnd(Sa, Ea, s, b);
    } else {
      UnaffectedEnd(S, E, s, b);
    }
  }

  /** Under the policy, a boundary whose end marker is gone follows a processed non-speech tile, so it starts speech. */
  lemma SkipFacts(r: Run, S: seq<bool>, E: seq<bool>, done: set<int>, b: int)
    requires MergeInv(r, S, E, done) && IsBoundary(Starts1(r), Ends1(r), b) && b !in done
    requires r.policy && !E[b]
    ensures !GapStart(r, b)
  {
    assert MarkersAt(r, S, E, done, b);
    AfterGap(r, LastStart(Starts1(r), b - 1), b);
  }

  /** Each action keeps the merge invariant, with b added to the processed boundaries. */
  lemma MergeStep(r: Run, S: seq<bool>, E: seq<bool>, done: set<int>, b: int)
    requires MergeInv(r, S, E, done) && IsBoundary(Starts1(r), Ends1(r), b) && b !in done
    requires GapStart(r, b) ==> NextEnd(Ends1(r), b + 1) !in done
    ensures (r.policy || E[b]) && (E[b] ==> S[b])
    ensures MergeInv(r, MergeAction(r, S, E, b).0, MergeAction(r, S, E, b).1, done + {b})
  {
    assert MarkersAt(r, S, E, done, b);
    if r.policy && !E[b] {
      SkipFacts(r, S, E, done, b);
      KeepStep(r, S, E, done, b);
    } else {
      SegmentEnds(S, E, b);
      var ls, p := LastStart(S, b - 1), SegEnd(E, b);
      if r.policy && Absorbable(r.v, r.A[b]) {
        TileEndFacts(r, S, E, done, b);
        if p - b > r.minInter {
          DropStep(r, S, E, done, b);
        } else if (b - ls) + (NextEnd(E, p + 1) - b) < r.maxFrames {
          ThreeStep(r, S, E, done, b);
        } else {
          KeepStep(r, S, E, done, b);
        }
      } else if p - ls < r.maxFrames {
        PlainStep(r, S, E, done, b);
      } else {
        KeepStep(r, S, E, done, b);
      }
    }
  }

  /**
   * One boundary of the merge loop as the source performs it, with scans
   * for the segment lengths; the source's check on the frame after the
   * right segment is an assertion here.
   */
  method MergeBoundary(v: Variant, A: seq<int>, S: seq<bool>, E: seq<bool>, b: int,
                       policy: bool, minInter: int, maxFrames: int, ghost r: Run, ghost done: set<int>)
    returns (S': seq<bool>, E': seq<bool>)
    requires r.v == v && r.A == A && r.policy == policy && r.minInter == minInter && r.maxFrames == maxFrames
    requires MergeInv(r, S, E, done) && 0 < b < |S| && (policy || E[b]) && (E[b] ==> S[b])
    ensures (S', E') == MergeAction(r, S, E, b)
  {
    S', E' := S, E;
    if policy && !E[b] {
      return;
    }
    var ls := ScanBack(S, b);
    var segLen := b - ls;
    var p := ScanForward(E, b + 1);
    SegmentEnds(S, E, b);
    if v.Nonoise? {
      assert MarkersAt(r, S, E, done, p);
      assert minInter == 0 || p == |A| || S[p] || Absorbable(v, A[p]);
    }
    if policy && Absorbable(v, A[b]) {
      if p - b > minInter {
        S' := S'[b := false];
        E' := E'[p := false];
        return;
      }
      var t := p;
      p := ScanForward(E, p + 1);
      segLen := segLen + (p - b);
      if segLen < maxFrames {
        if t < |A| {
          S' := S'[t := false];
          E' := E'[t := false];
        }
        S' := S'[b := false];
        E' := E'[b := false];
        return;
      }
    }
    segLen := segLen + (p - b);
    if segLen < maxFrames {
      S' := S'[b := false];
      E' := E'[b := false];
    }
  }

  /**
   * The ranking brings each boundary once, and under the policy a
   * non-speech tile's start (tier 6 or 7) before the boundary ending it
   * (tier 8 or 9).
   */
  lemma RankedNext(r: Run, ranked: seq<Boundary>, k: int)
    requires RunOk(r) && BoundaryCodes(r.v, r.A, Starts1(r), Ends1(r))
    requires Ranked(ranked) && forall e :: e in ranked ==> Recorded(r.v, r.A, Starts1(r), Ends1(r), e)
    requires 0 <= k < |ranked|
    ensures var b, done := ranked[k].pos, Positions(ranked[..k]);
      IsBoundary(Starts1(r), Ends1(r), b) && b !in done &&
      (GapStart(r, b) ==> NextEnd(Ends1(r), b + 1) !in done)
  {
    var S1, E1 := Starts1(r), Ends1(r);
    var b := ranked[k].pos;
    assert ranked[k] in ranked;
    forall e | e in ranked[..k]
      ensures e.pos != b
      ensures GapStart(r, b) ==> e.pos != NextEnd(E1, b + 1)
    {
      var m :| 0 <= m < k && ranked[m] == e;
      RankedEarlier(r, ranked, m, k);
    }
  }

  /** An earlier entry of the ranking is at another position, and never at the end of a non-speech tile starting at a later entry. */
  lemma RankedEarlier(r: Run, ranked: seq<Boundary>, m: int, k: int)
    requires RunOk(r) && BoundaryCodes(r.v, r.A, Starts1(r), Ends1(r))
    requires Ranked(ranked) && forall e :: e in ranked ==> Recorded(r.v, r.A, Starts1(r), Ends1(r), e)
    requires 0 <= m < k < |ranked|
    ensures ranked[k].pos < |r.A|
    ensures ranked[m].pos != ranked[k].pos
    ensures GapStart(r, ranked[k].pos) ==> ranked[m].pos != NextEnd(Ends1(r), ranked[k].pos + 1)
  {
    var S1, E1 := Starts1(r), Ends1(r);
    var b := ranked[k].pos;
    assert ranked[m] in ranked && ranked[k] in ranked;
    assert Before(ranked[m], ranked[k]);
    if GapStart(r, b) {
      GapFacts(r, b);
      assert ranked[k].tier <= 7;
    }
  }


  // ---------------------------------------------------------------------------
  // The whole merge.

  /** First frame of the maximal run of silence/noise frames through x. */
  function PauseStart(v: Variant, A: seq<int>, x: int): (lo: int)
    requires 0 <= x < |A|
    ensures 0 <= lo <= x
    decreases x
  {
    if x > 0 && Absorbable(v, A[x - 1]) then PauseStart(v, A, x - 1) else x
  }

  /** One past the last frame of the maximal run of silence/noise frames through x. */
  function PauseEnd(v: Variant, A: seq<int>, x: int): (hi: int)
    requires 0 <= x < |A|
    ensures x < hi <= |A|
    decreases |A| - x
  {
    if x + 1 < |A| && Absorbable(v, A[x + 1]) then PauseEnd(v, A, x + 1) else x + 1
  }

  /**
   * Frame x is silence or noise in a maximal such run that does not begin
   * the recording and is longer than minInter frames.
   */
  predicate LongPause(v: Variant, A: seq<int>, minInter: int, x: int)
    requires 0 <= x < |A|
  {
    Absorbable(v, A[x]) && PauseStart(v, A, x) > 0 && PauseEnd(v, A, x) - PauseStart(v, A, x) > minInter
  }

  lemma {:induction false} PauseStartUnique(v: Variant, A: seq<int>, x: int, lo: int)
    requires 0 <= lo <= x < |A|
    requires forall q :: lo <= q < x ==> Absorbable(v, A[q])
    requires lo == 0 || !Absorbable(v, A[lo - 1])
    ensures PauseStart(v, A, x) == lo
    decreases x
  {
    if x > lo {
      PauseStartUnique(v, A, x - 1, lo);
    }
  }

  lemma {:induction false} PauseEndUnique(v: Variant, A: seq<int>, x: int, hi: int)
    requires 0 <= x < hi <= |A|
    requires forall q :: x < q < hi ==> Absorbable(v, A[q])
    requires hi == |A| || !Absorbable(v, A[hi])
    ensures PauseEnd(v, A, x) == hi
    decreases |A| - x
  {
    if x + 1 < hi {
      PauseEndUnique(v, A, x + 1, hi);
    }
  }

  /** Under the policy, the tile holding an uncovered frame is the maximal silence/noise run through it. */
  lemma GapTileIsPause(r: Run, x: int)
    requires RunOk(r) && r.policy && 0 <= x < |r.A| && !Open(r.S0, r.E0, x)
    ensures var g := LastStart(Starts1(r), x);
      g >= 0 && PauseStart(r.v, r.A, x) == g && PauseEnd(r.v, r.A, x) == NextEnd(Ends1(r), g + 1)
  {
    GapTileInside(r, x);
    GapTileLeft(r, x);
    GapTileRight(r, x);
    var g := LastStart(Starts1(r), x);
    PauseStartUnique(r.v, r.A, x, g);
    PauseEndUnique(r.v, r.A, x, NextEnd(Ends1(r), g + 1));
  }

  /** Every frame of the tile holding an uncovered frame is silence or noise. */
  lemma GapTileInside(r: Run, x: int)
    requires RunOk(r) && r.policy && 0 <= x < |r.A| && !Open(r.S0, r.E0, x)
    ensures var g := LastStart(Starts1(r), x); var t := NextEnd(Ends1(r), g + 1);
      0 <= g <= x < t <= |r.A| && forall q :: g <= q < t ==> Absorbable(r.v, r.A[q])
  {
    var v, A, S0, E0 := r.v, r.A, r.S0, r.E0;
    TiledShape(S0, E0);
    var S1, E1 := Starts1(r), Ends1(r);
    var g := LastStart(S1, x);
    var t := NextEnd(E1, g + 1);
    TileContains(S1, E1, g, x);
    forall q | g <= q < t
      ensures Absorbable(v, A[q])
    {
      TileUniform(S0, E0, g, q);
      assert CoveredAt(v, A, S0, E0, q);
    }
  }

  /** The frame before that tile, if any, is neither silence nor noise. */
  lemma GapTileLeft(r: Run, x: int)
    requires RunOk(r) && r.policy && 0 <= x < |r.A| && !Open(r.S0, r.E0, x)
    ensures var g := LastStart(Starts1(r), x);
      0 <= g <= x && (g == 0 || !Absorbable(r.v, r.A[g - 1]))
  {
    var v, A, S0, E0 := r.v, r.A, r.S0, r.E0;
    TiledShape(S0, E0);
    var S1, E1 := Starts1(r), Ends1(r);
    var g := LastStart(S1, x);
    TileContains(S1, E1, g, x);
    TileUniform(S0, E0, g, x);
    if g > 0 {
      assert !S0[g] && E0[g];
      assert CoveredAt(v, A, S0, E0, g - 1);
    }
  }

  /** The frame after that tile, if any, is neither silence nor noise. */
  lemma GapTileRight(r: Run, x: int)
    requires RunOk(r) && r.policy && 0 <= x < |r.A| && !Open(r.S0, r.E0, x)
    ensures var g := LastStart(Starts1(r), x); var t := NextEnd(Ends1(r), g + 1);
      0 <= g && t <= |r.A| && (t == |r.A| || !Absorbable(r.v, r.A[t]))
  {
    var v, A, S0, E0 := r.v, r.A, r.S0, r.E0;
    TiledShape(S0, E0);
    var S1, E1 := Starts1(r), Ends1(r);
    var g := LastStart(S1, x);
    var t := NextEnd(E1, g + 1);
    TileContains(S1, E1, g, x);
    TileUniform(S0, E0, g, x);
    assert t <= |A|;
    if t < |A| {
      NextTileOpen(S0, E0, g, t);
      assert CoveredAt(v, A, S0, E0, t);
    }
  }

  /** The tile after an uncovered tile begins inside a segment. */
  lemma NextTileOpen(S: seq<bool>, E: seq<bool>, g: int, t: int)
    requires WellFormed(S, E) && 0 <= g < t < |S| && Tiled(S, E).0[g] && !Open(S, E, g)
    requires t == NextEnd(Tiled(S, E).1, g + 1)
    ensures Open(S, E, t)
  {
    TileUniform(S, E, g, t - 1);
    assert Tiled(S, E).1[t];
  }


  /**
   * With every boundary processed, the invariant says what the merge
   * produced: markers only cleared, each segment a candidate segment or
   * below the cap, coverage unchanged without the policy and under it every
   * frame covered except those in long pauses.
   */
  lemma MergeDone(r: Run, S: seq<bool>, E: seq<bool>, done: set<int>)
    requires MergeInv(r, S, E, done)
    requires forall b :: IsBoundary(Starts1(r), Ends1(r), b) ==> b in done
    ensures CountTrue(S) == CountTrue(E)
    ensures forall x :: 0 <= x < |S| && S[x] ==> Starts1(r)[x]
    ensures forall x :: 0 <= x <= |S| && E[x] ==> Ends1(r)[x]
    ensures forall s :: 0 <= s < |S| && S[s] ==> SegEnd(E, s) == SegEnd(Ends1(r), s) || SegEnd(E, s) - s < r.maxFrames
    ensures !r.policy ==> forall x :: 0 <= x < |S| ==> Open(S, E, x) == Open(r.S0, r.E0, x)
    ensures r.policy ==> forall x :: 0 <= x < |S| ==> (Open(S, E, x) <==> !LongPause(r.v, r.A, r.minInter, x))
  {
    CountsBalance(S, E);
    forall x | 0 <= x <= |S|
      ensures x < |S| && S[x] ==> Starts1(r)[x]
      ensures E[x] ==> Ends1(r)[x]
    {
      assert MarkersAt(r, S, E, done, x);
    }
    forall s | 0 <= s < |S| && S[s]
      ensures SegEnd(E, s) == SegEnd(Ends1(r), s) || SegEnd(E, s) - s < r.maxFrames
    {
      assert LengthAt(r, S, E, s);
    }
    forall x | 0 <= x < |S|
      ensures !r.policy ==> Open(S, E, x) == Open(r.S0, r.E0, x)
      ensures r.policy ==> (Open(S, E, x) <==> !LongPause(r.v, r.A, r.minInter, x))
    {
      assert CoverAt(r, S, E, done, x);
      if r.policy {
        PolicyCoverage(r, x);
      }
    }
  }

  /** Under the policy, a frame's tile is a long gap with a boundary at its start exactly when the frame is in a long pause. */
  lemma PolicyCoverage(r: Run, x: int)
    requires RunOk(r) && r.policy && 0 <= x < |r.A|
    ensures var g := LastStart(Starts1(r), x);
      g >= 0 && ((IsBoundary(Starts1(r), Ends1(r), g) && LongGap(r, g)) <==> LongPause(r.v, r.A, r.minInter, x))
  {
    var v, A, S0, E0 := r.v, r.A, r.S0, r.E0;
    TiledShape(S0, E0);
    var S1, E1 := Starts1(r), Ends1(r);
    var g := LastStart(S1, x);
    TileContains(S1, E1, g, x);
    TileUniform(S0, E0, g, x);
    assert CoveredAt(v, A, S0, E0, g) && CoveredAt(v, A, S0, E0, x);
    if !Open(S0, E0, x) {
      GapTileIsPause(r, x);
    }
  }

  /**
   * merge_segments. Under the inter-utterance policy (the speech-based
   * segmenter with a positive minimum) the markers are tiled first; then
   * every boundary is processed once, in ranked order.
   */
  method MergeSegments(v: Variant, A: seq<int>, ghost B: seq<int>, S0: seq<bool>, E0: seq<bool>,
                       minInter: int, maxFrames: int) returns (S: seq<bool>, E: seq<bool>)
    requires Padded(v, A, B, S0, E0) && |A| >= 1
    ensures WellFormed(S, E) && |S| == |A| && CountTrue(S) == CountTrue(E)
    ensures var C := Candidates(S0, E0, v.Nonoise? && minInter > 0);
      (forall x :: 0 <= x < |A| && S[x] ==> C.0[x]) &&
      (forall x :: 0 <= x <= |A| && E[x] ==> C.1[x]) &&
      (forall s :: 0 <= s < |A| && S[s] ==> SegEnd(E, s) == SegEnd(C.1, s) || SegEnd(E, s) - s < maxFrames)
    ensures !(v.Nonoise? && minInter > 0) ==> forall x :: 0 <= x < |A| ==> Open(S, E, x) == Open(S0, E0, x)
    ensures v.Nonoise? && minInter > 0 ==> forall x :: 0 <= x < |A| ==> (Open(S, E, x) <==> !LongPause(v, A, minInter, x))
  {
    var policy := v.Nonoise? && minInter > 0;
    ghost var r := Run(v, A, B, S0, E0, policy, minInter, maxFrames);
    S, E := S0, E0;
    if policy {
      S, E := TileMarkers(S0, E0);
    }
    BoundaryCodesHold(r);
    MergeInvInit(r);
    var ranked := FindBoundaries(v, A, S, E);
    ghost var done: set<int> := {};
    for k := 0 to |ranked|
      invariant MergeInv(r, S, E, done) && done == Positions(ranked[..k])
    {
      var b := ranked[k].pos;
      RankedNext(r, ranked, k);
      MergeStep(r, S, E, done, b);
      S, E := MergeBoundary(v, A, S, E, b, policy, minInter, maxFrames, r, done);
      done := done + {b};
      PositionsSnoc(ranked, k);
    }
    assert ranked[..|ranked|] == ranked;
    MergeDone(r, S, E, done);
  }

  lemma PositionsSnoc(bs: seq<Boundary>, k: int)
    requires 0 <= k < |bs|
    ensures Positions(bs[..k + 1]) == Positions(bs[..k]) + {bs[k].pos}
  {
    assert bs[..k + 1] == bs[..k] + [bs[k]];
  }
}
