/**
 * The VAD post-filter of segments. The segment lines of one recording mark
 * its frames in A (in a segment), S (a segment starts here) and E (a segment
 * ends here); the recording's VAD file marks B (speech by the VAD). Frames
 * are classified, runs of in-segment frames the VAD rejects are removed or
 * kept, the start and end markers are repaired around removed runs, and the
 * segments are read off again. Times are frame numbers: the conversion of
 * seconds (and of the VAD's hundredths plus padding) to frames happens
 * before the model.
 */
module VadFilter {
  import opened Outcomes
  import opened ZeroPadding

  /** A start and an end frame, end exclusive. */
  type Span = (int, int)

  predicate ValidSpans(spans: seq<Span>)
  {
    forall k :: 0 <= k < |spans| ==> 0 <= spans[k].0 < spans[k].1
  }

  predicate Covered(spans: seq<Span>, x: int)
  {
    exists k :: 0 <= k < |spans| && spans[k].0 <= x < spans[k].1
  }

  predicate StartsAt(spans: seq<Span>, x: int)
  {
    exists k :: 0 <= k < |spans| && spans[k].0 == x
  }

  predicate EndsAt(spans: seq<Span>, x: int)
  {
    exists k :: 0 <= k < |spans| && spans[k].1 == x
  }

  lemma SpanStep(spans: seq<Span>, k: nat)
    requires k < |spans|
    ensures forall x :: Covered(spans[..k + 1], x) <==> (Covered(spans[..k], x) || spans[k].0 <= x < spans[k].1)
    ensures forall x :: StartsAt(spans[..k + 1], x) <==> (StartsAt(spans[..k], x) || spans[k].0 == x)
    ensures forall x :: EndsAt(spans[..k + 1], x) <==> (EndsAt(spans[..k], x) || spans[k].1 == x)
  {
    var s1, s0 := spans[..k + 1], spans[..k];
    forall x
      ensures Covered(s1, x) <==> (Covered(s0, x) || spans[k].0 <= x < spans[k].1)
      ensures StartsAt(s1, x) <==> (StartsAt(s0, x) || spans[k].0 == x)
      ensures EndsAt(s1, x) <==> (EndsAt(s0, x) || spans[k].1 == x)
    {
      assert s1[k] == spans[k];
      assert forall j :: 0 <= j < k ==> s1[j] == s0[j];
    }
  }

  // ---------------------------------------------------------------- reading

  /**
   * The sizes of A (and S) and of E, and the frame i reached, after the
   * given segment lines: a line ending past i grows A and S by the
   * difference and E by one more; i becomes the line's end either way.
   */
  function Grown(spans: seq<Span>): (int, int, int)
  {
    if |spans| == 0 then (0, 0, 0)
    else
      var g := Grown(spans[..|spans| - 1]);
      var en := spans[|spans| - 1].1;
      if en > g.2 then (g.0 + en - g.2, g.1 + en - g.2 + 1, en) else (g.0, g.1, en)
  }

  lemma {:induction false} GrownFacts(spans: seq<Span>)
    requires ValidSpans(spans)
    ensures 0 <= Grown(spans).2 <= Grown(spans).0 <= Grown(spans).1
    ensures |spans| > 0 ==> Grown(spans).0 < Grown(spans).1 && Grown(spans).2 == spans[|spans| - 1].1
    ensures forall k :: 0 <= k < |spans| ==> spans[k].1 <= Grown(spans).0
  {
    if |spans| > 0 {
      var init := spans[..|spans| - 1];
      assert forall k :: 0 <= k < |init| ==> init[k] == spans[k];
      GrownFacts(init);
    }
  }

  /** The in-segment frames of the lines: frame x is in a segment iff some line covers it. */
  function SpanFrames(spans: seq<Span>): seq<bool>
    requires ValidSpans(spans)
  {
    GrownFacts(spans);
    seq(Grown(spans).0, x => Covered(spans, x))
  }

  function SpanStarts(spans: seq<Span>): seq<bool>
    requires ValidSpans(spans)
  {
    GrownFacts(spans);
    seq(Grown(spans).0, x => StartsAt(spans, x))
  }

  function SpanEnds(spans: seq<Span>): seq<bool>
    requires ValidSpans(spans)
  {
    GrownFacts(spans);
    seq(Grown(spans).1, x => EndsAt(spans, x))
  }

  /**
   * The per-line updates of main for one recording's lines: grow the
   * arrays up to the line's end, mark its frames in A, its start in S and
   * its end in E.
   */
  method MarkRecording(spans: seq<Span>) returns (A: seq<bool>, S: seq<bool>, E: seq<bool>)
    requires ValidSpans(spans)
    ensures A == SpanFrames(spans) && S == SpanStarts(spans) && E == SpanEnds(spans)
  {
    A, S, E := [], [], [];
    var i := 0;
    for k := 0 to |spans|
      invariant ValidSpans(spans[..k])
      invariant A == SpanFrames(spans[..k]) && S == SpanStarts(spans[..k]) && E == SpanEnds(spans[..k])
      invariant i == Grown(spans[..k]).2
    {
      A, S, E := MarkLine(spans, k, spans[k].0, spans[k].1, A, S, E, i);
      i := spans[k].1;
    }
    assert spans[..|spans|] == spans;
  }

  method MarkLine(ghost spans: seq<Span>, ghost k: nat, st: int, en: int, A: seq<bool>, S: seq<bool>, E: seq<bool>, i: int)
    returns (A': seq<bool>, S': seq<bool>, E': seq<bool>)
    requires k < |spans| && ValidSpans(spans) && spans[k] == (st, en)
    requires A == SpanFrames(spans[..k]) && S == SpanStarts(spans[..k]) && E == SpanEnds(spans[..k])
    requires i == Grown(spans[..k]).2
    ensures A' == SpanFrames(spans[..k + 1]) && S' == SpanStarts(spans[..k + 1]) && E' == SpanEnds(spans[..k + 1])
  {
    assert spans[..k + 1][..k] == spans[..k];
    GrownFacts(spans[..k]);
    GrownFacts(spans[..k + 1]);
    SpanStep(spans, k);
    A' := MarkFrames(spans, k, st, en, A, i);
    S' := MarkStart(spans, k, st, en, S, i);
    E' := MarkEnd(spans, k, en, E, i);
  }

  /** Grows A up to the line's end and marks the line's frames. */
  method MarkFrames(ghost spans: seq<Span>, ghost k: nat, st: int, en: int, A: seq<bool>, i: int) returns (A': seq<bool>)
    requires k < |spans| && ValidSpans(spans) && spans[k] == (st, en) && spans[..k + 1][..k] == spans[..k]
    requires A == SpanFrames(spans[..k]) && i == Grown(spans[..k]).2
    ensures A' == SpanFrames(spans[..k + 1])
  {
    GrownFacts(spans[..k]);
    GrownFacts(spans[..k + 1]);
    SpanStep(spans, k);
    var G := A;
    if en > i {
      G := G + seq(en - i, _ => false);
    }
    assert |G| == Grown(spans[..k + 1]).0 && en <= |G|;
    assert forall x :: 0 <= x < |G| ==> G[x] == Covered(spans[..k], x);
    A' := G[..st] + seq(en - st, _ => true) + G[en..];
    forall x | 0 <= x < |A'|
      ensures A'[x] == Covered(spans[..k + 1], x)
    {
      if x < st {
        assert A'[x] == G[x];
      } else if x >= en {
        assert A'[x] == G[x];
      }
    }
  }

  /** Grows S up to the line's end and marks the line's start. */
  method MarkStart(ghost spans: seq<Span>, ghost k: nat, st: int, en: int, S: seq<bool>, i: int) returns (S': seq<bool>)
    requires k < |spans| && ValidSpans(spans) && spans[k] == (st, en) && spans[..k + 1][..k] == spans[..k]
    requires S == SpanStarts(spans[..k]) && i == Grown(spans[..k]).2
    ensures S' == SpanStarts(spans[..k + 1])
  {
    GrownFacts(spans[..k]);
    GrownFacts(spans[..k + 1]);
    SpanStep(spans, k);
    S' := S;
    if en > i {
      S' := S' + seq(en - i, _ => false);
    }
    S' := S'[st := true];
  }

  /** Grows E up to one past the line's end and marks the line's end. */
  method MarkEnd(ghost spans: seq<Span>, ghost k: nat, en: int, E: seq<bool>, i: int) returns (E': seq<bool>)
    requires k < |spans| && ValidSpans(spans) && spans[k].1 == en && spans[..k + 1][..k] == spans[..k]
    requires E == SpanEnds(spans[..k]) && i == Grown(spans[..k]).2
    ensures E' == SpanEnds(spans[..k + 1])
  {
    GrownFacts(spans[..k]);
    GrownFacts(spans[..k + 1]);
    SpanStep(spans, k);
    E' := E;
    if en > i {
      E' := E' + seq(en - i + 1, _ => false);
    }
    E' := E'[en := true];
  }

  /** The VAD array's size and the frame j reached after the given VAD lines, grown as for A but without the extra frame. */
  function VadGrown(vads: seq<Span>): (int, int)
  {
    if |vads| == 0 then (0, 0)
    else
      var g := VadGrown(vads[..|vads| - 1]);
      var ve := vads[|vads| - 1].1;
      if ve > g.1 then (g.0 + ve - g.1, ve) else (g.0, ve)
  }

  predicate ValidVad(vads: seq<Span>)
  {
    forall k :: 0 <= k < |vads| ==> 0 <= vads[k].0 && 0 <= vads[k].1
  }

  lemma {:induction false} VadGrownFacts(vads: seq<Span>)
    requires ValidVad(vads)
    ensures 0 <= VadGrown(vads).1 <= VadGrown(vads).0
    ensures forall k :: 0 <= k < |vads| ==> vads[k].1 <= VadGrown(vads).0
  {
    if |vads| > 0 {
      var init := vads[..|vads| - 1];
      assert forall k :: 0 <= k < |init| ==> init[k] == vads[k];
      VadGrownFacts(init);
    }
  }

  /** The VAD frames: frame x is speech iff some VAD line covers it. */
  function VadFrames(vads: seq<Span>): seq<bool>
    requires ValidVad(vads)
  {
    VadGrownFacts(vads);
    seq(VadGrown(vads).0, x => Covered(vads, x))
  }

  /**
   * Reading a VAD file: grow B up to each line's end, then mark the line's
   * frames (a line whose end is not past its start marks nothing).
   */
  method ReadVad(vads: seq<Span>) returns (B: seq<bool>)
    requires ValidVad(vads)
    ensures B == VadFrames(vads)
  {
    B := [];
    var j := 0;
    for k := 0 to |vads|
      invariant ValidVad(vads[..k]) && B == VadFrames(vads[..k]) && j == VadGrown(vads[..k]).1
    {
      B := VadLine(vads, k, B, j);
      j := vads[k].1;
    }
    assert vads[..|vads|] == vads;
  }

  method VadLine(vads: seq<Span>, k: nat, B: seq<bool>, j: int) returns (B': seq<bool>)
    requires k < |vads| && ValidVad(vads)
    requires B == VadFrames(vads[..k]) && j == VadGrown(vads[..k]).1
    ensures B' == VadFrames(vads[..k + 1])
  {
    assert vads[..k + 1][..k] == vads[..k];
    VadGrownFacts(vads[..k]);
    VadGrownFacts(vads[..k + 1]);
    SpanStep(vads, k);
    var vs, ve := vads[k].0, vads[k].1;
    B' := B;
    if ve > j {
      B' := B' + seq(ve - j, _ => false);
    }
    if vs < ve {
      B' := B'[..vs] + seq(ve - vs, _ => true) + B'[ve..];
    }
  }

  /**
   * The markers agree with A: a segment begins at each in-segment frame
   * whose left neighbour is out (or absent), and one ends at each position
   * whose left neighbour is in and which is out (or past the end).
   */
  predicate Consistent(A: seq<bool>, S: seq<bool>, E: seq<bool>)
  {
    |S| == |A| && |E| > |A| &&
    (forall x :: 0 <= x < |A| && A[x] && LeftOut(A, x) ==> S[x]) &&
    (forall x :: 0 < x <= |A| && A[x - 1] && RightOut(A, x) ==> E[x])
  }

  predicate LeftOut(A: seq<bool>, n: int)
    requires 0 <= n <= |A|
  {
    n == 0 || !A[n - 1]
  }

  predicate RightOut(A: seq<bool>, p: int)
    requires 0 <= p
  {
    p >= |A| || !A[p]
  }

  /** The markers the lines of a recording give agree with its in-segment frames. */
  lemma MarksConsistent(spans: seq<Span>)
    requires ValidSpans(spans) && |spans| > 0
    ensures Consistent(SpanFrames(spans), SpanStarts(spans), SpanEnds(spans))
  {
    GrownFacts(spans);
    var A, S, E := SpanFrames(spans), SpanStarts(spans), SpanEnds(spans);
    forall x | 0 <= x < |A| && A[x] && LeftOut(A, x)
      ensures S[x]
    {
      var k :| 0 <= k < |spans| && spans[k].0 <= x < spans[k].1;
      assert spans[k].0 < x ==> Covered(spans, x - 1);
    }
    forall x | 0 < x <= |A| && A[x - 1] && RightOut(A, x)
      ensures E[x]
    {
      var k :| 0 <= k < |spans| && spans[k].0 <= x - 1 < spans[k].1;
      assert spans[k].1 > x ==> Covered(spans, x);
    }
  }

  // ---------------------------------------------------------------- classes

  /** 2 for an in-segment frame the VAD rejects (or that lies past the VAD's end), 1 for one it accepts, 0 out of segments. */
  function FrameClass(inSegment: bool, inVad: bool): int
  {
    if inSegment && !inVad then 2 else if inSegment then 1 else 0
  }

  function Classes(A: seq<bool>, B: seq<bool>): seq<int>
  {
    seq(|A|, x requires 0 <= x < |A| => FrameClass(A[x], x < |B| && B[x]))
  }

  method Classify(A: seq<bool>, B: seq<bool>) returns (C: seq<int>)
    ensures C == Classes(A, B)
  {
    C := seq(|A|, _ => 0);
    for n := 0 to |A|
      invariant |C| == |A| && forall x :: 0 <= x < n ==> C[x] == FrameClass(A[x], x < |B| && B[x])
    {
      if A[n] && (n >= |B| || !B[n]) {
        C := C[n := 2];
      } else if A[n] && B[n] {
        C := C[n := 1];
      } else {
        C := C[n := 0];
      }
    }
  }

  /** The classes of a recording, read back in terms of its segment lines and VAD lines. */
  lemma ClassesMeaning(spans: seq<Span>, vads: seq<Span>, x: int)
    requires ValidSpans(spans) && ValidVad(vads) && 0 <= x < |SpanFrames(spans)|
    ensures var C := Classes(SpanFrames(spans), VadFrames(vads));
      (C[x] == 2 <==> Covered(spans, x) && !Covered(vads, x)) &&
      (C[x] == 1 <==> Covered(spans, x) && Covered(vads, x)) &&
      (C[x] == 0 <==> !Covered(spans, x))
  {
    VadGrownFacts(vads);
    var A, B := SpanFrames(spans), VadFrames(vads);
    GrownFacts(spans);
    assert A[x] == Covered(spans, x);
    assert (x < |B| && B[x]) == Covered(vads, x);
    assert Classes(A, B)[x] == FrameClass(A[x], x < |B| && B[x]);
  }

  // ---------------------------------------------------------------- runs

  /** Where the run of 2s containing or following x ends. */
  function RunTo(C: seq<int>, x: nat): (p: nat)
    requires x <= |C|
    ensures x <= p <= |C| && (p == |C| || C[p] != 2)
    ensures forall q :: x <= q < p ==> C[q] == 2
    decreases |C| - x
  {
    if x < |C| && C[x] == 2 then RunTo(C, x + 1) else x
  }

  /** Where the run of 2s ending just before x starts. */
  function RunFrom(C: seq<int>, x: nat): (n: nat)
    requires x <= |C|
    ensures n <= x && (n == 0 || C[n - 1] != 2)
    ensures forall q :: n <= q < x ==> C[q] == 2
  {
    if x > 0 && C[x - 1] == 2 then RunFrom(C, x - 1) else x
  }

  predicate RunStartAt(C: seq<int>, x: int)
  {
    0 <= x < |C| && C[x] == 2 && (x == 0 || C[x - 1] != 2)
  }

  predicate RunEndAt(C: seq<int>, x: int)
  {
    0 < x <= |C| && C[x - 1] == 2 && (x == |C| || C[x] != 2)
  }

  /**
   * The run [n, p) is removed when it is longer than limit frames, or when
   * either neighbour is out of segment or absent.
   */
  predicate Removed(A: seq<bool>, n: int, p: int, limit: real)
    requires 0 <= n <= p
    requires n <= |A|
  {
    (p - n) as real > limit || LeftOut(A, n) || RightOut(A, p)
  }

  /** C holds the classes of the frames of A. */
  predicate ClassesOf(A: seq<bool>, C: seq<int>)
  {
    |C| == |A| && forall x :: 0 <= x < |A| ==> 0 <= C[x] <= 2 && (C[x] == 0 <==> !A[x])
  }

  /** A frame is kept when the VAD accepts it, or when its rejected run is not removed. */
  predicate Kept(C: seq<int>, A: seq<bool>, limit: real, x: int)
    requires |C| == |A| && 0 <= x < |C|
  {
    C[x] == 1 || (C[x] == 2 && !Removed(A, RunFrom(C, x), RunTo(C, x), limit))
  }

  /**
   * The start marker after the repair: cleared at the start of a run whose
   * left side is out, set at the end of a removed run whose right side is
   * in, unchanged elsewhere.
   */
  function StartAfter(C: seq<int>, A: seq<bool>, S: seq<bool>, limit: real, x: int): bool
    requires |C| == |A| == |S| && 0 <= x < |S|
  {
    if RunStartAt(C, x) && LeftOut(A, x) then false
    else if RunEndAt(C, x) && Removed(A, RunFrom(C, x), x, limit) && !RightOut(A, x) then true
    else S[x]
  }

  /**
   * The end marker after the repair: cleared at the end of a run whose
   * right side is out, set at the start of a removed run whose left side is
   * in, unchanged elsewhere.
   */
  function EndAfter(C: seq<int>, A: seq<bool>, E: seq<bool>, limit: real, x: int): bool
    requires |C| == |A| < |E| && 0 <= x < |E|
  {
    if RunEndAt(C, x) && RightOut(A, x) then false
    else if RunStartAt(C, x) && Removed(A, x, RunTo(C, x), limit) && !LeftOut(A, x) then true
    else E[x]
  }

  function KeptFrames(C: seq<int>, A: seq<bool>, limit: real): seq<bool>
    requires |C| == |A|
  {
    seq(|C|, x requires 0 <= x < |C| => Kept(C, A, limit, x))
  }

  function StartsAfter(C: seq<int>, A: seq<bool>, S: seq<bool>, limit: real): seq<bool>
    requires |C| == |A| == |S|
  {
    seq(|S|, x requires 0 <= x < |S| => StartAfter(C, A, S, limit, x))
  }

  function EndsAfter(C: seq<int>, A: seq<bool>, E: seq<bool>, limit: real): seq<bool>
    requires |C| == |A| < |E|
  {
    seq(|E|, x requires 0 <= x < |E| => EndAfter(C, A, E, limit, x))
  }

  /** The run-removal loop has passed the frames below n (and n itself unless a run starts there). */
  predicate RepairedUpTo(C: seq<int>, A: seq<bool>, S0: seq<bool>, E0: seq<bool>, limit: real, n: int,
                         K: seq<int>, S: seq<bool>, E: seq<bool>)
    requires |C| == |A| == |S0| < |E0| && 0 <= n <= |C|
  {
    |K| == |C| && |S| == |S0| && |E| == |E0| &&
    (forall x :: 0 <= x < n ==> K[x] == if Kept(C, A, limit, x) then 1 else 0) &&
    (forall x :: n <= x < |K| ==> K[x] == C[x]) &&
    (forall x :: 0 <= x < |S| ==> S[x] == if Passed(C, n, x) then StartAfter(C, A, S0, limit, x) else S0[x]) &&
    (forall x :: 0 <= x < |E| ==> E[x] == if Passed(C, n, x) then EndAfter(C, A, E0, limit, x) else E0[x])
  }

  predicate Passed(C: seq<int>, n: int, x: int)
  {
    x < n || (x == n && !(0 <= n < |C| && C[n] == 2))
  }

  /** Every frame of a run sees the run's own bounds. */
  lemma RunBounds(C: seq<int>, n: nat, p: nat)
    requires RunStartAt(C, n) && n < p <= |C| && p == RunTo(C, n)
    ensures forall x :: n <= x < p ==> RunFrom(C, x) == n && RunTo(C, x) == p
    ensures RunFrom(C, p) == n
  {
    forall x | n <= x <= p
      ensures RunFrom(C, x) == n && (x < p ==> RunTo(C, x) == p)
    {
      var m := RunFrom(C, x);
      if x < p {
        var q := RunTo(C, x);
      }
    }
  }

  /** The repaired markers at the bounds of a run [n, p) and inside it. */
  lemma RunMarkers(C: seq<int>, A: seq<bool>, S0: seq<bool>, E0: seq<bool>, limit: real, n: nat, p: nat)
    requires |C| == |A| == |S0| < |E0| && RunStartAt(C, n) && n < p <= |C| && p == RunTo(C, n)
    ensures StartAfter(C, A, S0, limit, n) == (!LeftOut(A, n) && S0[n])
    ensures p < |S0| ==> StartAfter(C, A, S0, limit, p) == ((Removed(A, n, p, limit) && !RightOut(A, p)) || S0[p])
    ensures EndAfter(C, A, E0, limit, p) == (!RightOut(A, p) && E0[p])
    ensures EndAfter(C, A, E0, limit, n) == ((Removed(A, n, p, limit) && !LeftOut(A, n)) || E0[n])
    ensures forall x :: n < x < p ==> StartAfter(C, A, S0, limit, x) == S0[x] && EndAfter(C, A, E0, limit, x) == E0[x]
    ensures forall x :: n <= x < p ==> Kept(C, A, limit, x) == !Removed(A, n, p, limit)
  {
    RunBounds(C, n, p);
  }

  /** Clearing or keeping the run [n, p) with markers set as RunMarkers says moves the loop's state from n to p. */
  lemma RepairedStep(C: seq<int>, A: seq<bool>, S0: seq<bool>, E0: seq<bool>, limit: real, n: nat, p: nat,
                     K: seq<int>, S: seq<bool>, E: seq<bool>, K': seq<int>, S': seq<bool>, E': seq<bool>)
    requires |C| == |A| == |S0| < |E0| && RunStartAt(C, n) && n < p <= |C| && p == RunTo(C, n)
    requires RepairedUpTo(C, A, S0, E0, limit, n, K, S, E)
    requires |K'| == |K| && forall x :: 0 <= x < |K| ==> K'[x] == if n <= x < p then (if Removed(A, n, p, limit) then 0 else 1) else K[x]
    requires |S'| == |S| && S'[n] == StartAfter(C, A, S0, limit, n)
    requires p < |S| ==> S'[p] == StartAfter(C, A, S0, limit, p)
    requires forall x :: 0 <= x < |S| && x != n && x != p ==> S'[x] == S[x]
    requires |E'| == |E| && E'[n] == EndAfter(C, A, E0, limit, n) && E'[p] == EndAfter(C, A, E0, limit, p)
    requires forall x :: 0 <= x < |E| && x != n && x != p ==> E'[x] == E[x]
    ensures RepairedUpTo(C, A, S0, E0, limit, p, K', S', E')
  {
    RunMarkers(C, A, S0, E0, limit, n, p);
    assert forall x :: 0 <= x < |S| ==> (Passed(C, p, x) <==> x <= p);
    assert forall x :: 0 <= x < |S| ==> (Passed(C, n, x) <==> x < n);
  }

  /** Writes v into the frames [n, p) of the class array. */
  method FillRun(K: seq<int>, n: nat, p: nat, v: int) returns (K': seq<int>)
    requires n <= p <= |K|
    ensures |K'| == |K| && forall x :: 0 <= x < |K| ==> K'[x] == if n <= x < p then v else K[x]
  {
    K' := K[..n] + seq(p - n, _ => v) + K[p..];
  }

  /**
   * One run of 2s starting at n: find its end p, then remove it (clearing
   * its frames and repairing the markers in the four cases, whose expected
   * markers the script asserts) or keep it.
   */
  method RepairRun(C: seq<int>, A: seq<bool>, S0: seq<bool>, E0: seq<bool>, limit: real, n: int,
                   K: seq<int>, S: seq<bool>, E: seq<bool>)
    returns (p: int, K': seq<int>, S': seq<bool>, E': seq<bool>)
    requires ClassesOf(A, C) && Consistent(A, S0, E0) && 0 <= n < |C|
    requires RepairedUpTo(C, A, S0, E0, limit, n, K, S, E) && RunStartAt(C, n)
    ensures n < p <= |C| && (p == |C| || C[p] != 2)
    ensures RepairedUpTo(C, A, S0, E0, limit, p, K', S', E')
  {
    p := n + 1;
    while p < |K| && K[p] == 2
      invariant n < p <= |K| && forall q :: n <= q < p ==> C[q] == 2
    {
      p := p + 1;
    }
    assert p == RunTo(C, n);
    RunMarkers(C, A, S0, E0, limit, n, p);
    assert S[n] == S0[n] && E[n] == E0[n] && E[p] == E0[p] && (p < |S| ==> S[p] == S0[p]);
    assert LeftOut(A, n) ==> S[n];
    assert RightOut(A, p) ==> E[p];
    K', S', E' := RepairMarkers(A, n, p, limit, K, S, E);
    RepairedStep(C, A, S0, E0, limit, n, p, K, S, E, K', S', E');
  }

  /**
   * The run [n, p) is cleared when it is too long or touches non-speech on
   * either side, and merged into the speech around it otherwise; the segment
   * markers at its two ends move accordingly.
   */
  method RepairMarkers(A: seq<bool>, n: nat, p: nat, limit: real, K: seq<int>, S: seq<bool>, E: seq<bool>)
    returns (K': seq<int>, S': seq<bool>, E': seq<bool>)
    requires n < p <= |A| == |K| == |S| < |E|
    requires LeftOut(A, n) ==> S[n]
    requires RightOut(A, p) ==> E[p]
    ensures |K'| == |K| && forall x :: 0 <= x < |K| ==> K'[x] == if n <= x < p then (if Removed(A, n, p, limit) then 0 else 1) else K[x]
    ensures |S'| == |S| && S'[n] == (!LeftOut(A, n) && S[n])
    ensures p < |S| ==> S'[p] == ((Removed(A, n, p, limit) && !RightOut(A, p)) || S[p])
    ensures forall x :: 0 <= x < |S| && x != n && x != p ==> S'[x] == S[x]
    ensures |E'| == |E| && E'[p] == (!RightOut(A, p) && E[p])
    ensures E'[n] == ((Removed(A, n, p, limit) && !LeftOut(A, n)) || E[n])
    ensures forall x :: 0 <= x < |E| && x != n && x != p ==> E'[x] == E[x]
  {
    if (p - n) as real > limit || p >= |A| || !A[p] || n == 0 || !A[n - 1] {
      K' := FillRun(K, n, p, 0);
      if (n == 0 || !A[n - 1]) && (p >= |A| || !A[p]) {
        S' := S[n := false];
        E' := E[p := false];
      } else if n == 0 || !A[n - 1] {
        S' := S[n := false][p := true];
        E' := E;
      } else if p >= |A| || !A[p] {
        S' := S;
        E' := E[p := false][n := true];
      } else {
        S' := S[p := true];
        E' := E[n := true];
      }
    } else {
      K' := FillRun(K, n, p, 1);
      S', E' := S, E;
    }
  }

  /**
   * The run-removal loop of print_segments. True and False written back
   * into the class array are 1 and 0 here; the result is the kept frames
   * and the repaired markers.
   */
  method RemoveRuns(A: seq<bool>, C: seq<int>, S: seq<bool>, E: seq<bool>, limit: real)
    returns (kept: seq<bool>, S': seq<bool>, E': seq<bool>)
    requires ClassesOf(A, C) && Consistent(A, S, E)
    ensures kept == KeptFrames(C, A, limit)
    ensures S' == StartsAfter(C, A, S, limit) && E' == EndsAfter(C, A, E, limit)
  {
    var K := C;
    S', E' := S, E;
    var n := 0;
    while n < |K|
      invariant 0 <= n <= |C| && (n < |C| && C[n] == 2 ==> RunStartAt(C, n))
      invariant RepairedUpTo(C, A, S, E, limit, n, K, S', E')
    {
      n, K, S', E' := RemoveAt(C, A, S, E, limit, n, K, S', E');
    }
    kept := seq(|K|, x requires 0 <= x < |K| => K[x] == 1);
    RepairedAll(C, A, S, E, limit, K, S', E', kept);
  }

  /** One step of the repair: a whole run of code 2 at n, or the single frame n otherwise. */
  method RemoveAt(C: seq<int>, A: seq<bool>, S0: seq<bool>, E0: seq<bool>, limit: real, n: int,
                    K: seq<int>, S: seq<bool>, E: seq<bool>)
    returns (n': int, K': seq<int>, S': seq<bool>, E': seq<bool>)
    requires ClassesOf(A, C) && Consistent(A, S0, E0) && 0 <= n < |C|
    requires (C[n] == 2 ==> RunStartAt(C, n)) && RepairedUpTo(C, A, S0, E0, limit, n, K, S, E)
    ensures n < n' <= |C| && (n' < |C| && C[n'] == 2 ==> RunStartAt(C, n'))
    ensures RepairedUpTo(C, A, S0, E0, limit, n', K', S', E')
  {
    if K[n] == 2 {
      n', K', S', E' := RepairRun(C, A, S0, E0, limit, n, K, S, E);
    } else {
      PassStep(C, A, S0, E0, limit, n, K, S, E);
      K', S', E' := K[n := if K[n] == 1 then 1 else 0], S, E;
      n' := n + 1;
    }
  }

  /** Once every frame is passed, the state holds the kept frames and the repaired markers. */
  lemma RepairedAll(C: seq<int>, A: seq<bool>, S0: seq<bool>, E0: seq<bool>, limit: real,
                    K: seq<int>, S: seq<bool>, E: seq<bool>, kept: seq<bool>)
    requires |C| == |A| == |S0| < |E0| && RepairedUpTo(C, A, S0, E0, limit, |C|, K, S, E)
    requires |kept| == |K| && forall x :: 0 <= x < |K| ==> kept[x] == (K[x] == 1)
    ensures kept == KeptFrames(C, A, limit)
    ensures S == StartsAfter(C, A, S0, limit) && E == EndsAfter(C, A, E0, limit)
  {
    assert forall x :: 0 <= x < |S| ==> Passed(C, |C|, x);
    forall x | 0 <= x < |E|
      ensures E[x] == EndAfter(C, A, E0, limit, x)
    {
      if x <= |C| {
        assert Passed(C, |C|, x);
      }
    }
  }

  /** A frame outside the runs of 2s becomes 1 or 0 as it is, and the markers at it were left alone. */
  lemma PassStep(C: seq<int>, A: seq<bool>, S0: seq<bool>, E0: seq<bool>, limit: real, n: nat,
                 K: seq<int>, S: seq<bool>, E: seq<bool>)
    requires ClassesOf(A, C) && |S0| == |A| < |E0| && n < |C| && C[n] != 2
    requires RepairedUpTo(C, A, S0, E0, limit, n, K, S, E)
    ensures RepairedUpTo(C, A, S0, E0, limit, n + 1, K[n := if K[n] == 1 then 1 else 0], S, E)
    ensures n + 1 < |C| && C[n + 1] == 2 ==> RunStartAt(C, n + 1)
  {
    assert forall x :: 0 <= x < |E| ==> (Passed(C, n, x) <==> x <= n);
    assert n + 1 < |S| && C[n + 1] != 2 ==> StartAfter(C, A, S0, limit, n + 1) == S0[n + 1];
    assert (n + 1 >= |C| || C[n + 1] != 2) ==> EndAfter(C, A, E0, limit, n + 1) == E0[n + 1];
  }

  /**
   * After the repair, every stretch of kept frames begins at a start marker
   * and ends at an end marker, provided the markers agreed with A before.
   */
  lemma KeptBoundariesMarked(A: seq<bool>, C: seq<int>, S: seq<bool>, E: seq<bool>, limit: real)
    requires ClassesOf(A, C) && Consistent(A, S, E)
    ensures var K, S', E' := KeptFrames(C, A, limit), StartsAfter(C, A, S, limit), EndsAfter(C, A, E, limit);
      (forall x :: 0 <= x < |K| && K[x] && (x == 0 || !K[x - 1]) ==> S'[x]) &&
      (forall x :: 0 < x <= |K| && K[x - 1] && (x == |K| || !K[x]) ==> E'[x])
  {
    var K := KeptFrames(C, A, limit);
    forall x | 0 <= x < |K| && K[x] && (x == 0 || !K[x - 1])
      ensures StartAfter(C, A, S, limit, x)
    {
      KeptStartMarked(A, C, S, E, limit, x);
    }
    forall x | 0 < x <= |K| && K[x - 1] && (x == |K| || !K[x])
      ensures EndAfter(C, A, E, limit, x)
    {
      KeptEndMarked(A, C, S, E, limit, x);
    }
  }

  /** A kept frame after one that is not kept (or at the start) carries a start marker after the repair. */
  lemma KeptStartMarked(A: seq<bool>, C: seq<int>, S: seq<bool>, E: seq<bool>, limit: real, x: nat)
    requires ClassesOf(A, C) && Consistent(A, S, E) && x < |C|
    requires Kept(C, A, limit, x) && (x == 0 || !Kept(C, A, limit, x - 1))
    ensures StartAfter(C, A, S, limit, x)
  {
  }

  /** A kept frame before one that is not kept (or at the end) is followed by an end marker after the repair. */
  lemma KeptEndMarked(A: seq<bool>, C: seq<int>, S: seq<bool>, E: seq<bool>, limit: real, x: nat)
    requires ClassesOf(A, C) && Consistent(A, S, E) && 0 < x <= |C|
    requires Kept(C, A, limit, x - 1) && (x == |C| || !Kept(C, A, limit, x))
    ensures EndAfter(C, A, E, limit, x)
  {
  }

  // ---------------------------------------------------------------- pieces

  /** A segment may begin at a kept frame that has a start marker or follows a frame that is not kept. */
  predicate IsStart(K: seq<bool>, S: seq<bool>, x: int)
    requires |S| == |K|
  {
    0 <= x < |K| && K[x] && (S[x] || x == 0 || !K[x - 1])
  }

  /** From q on, the first position that is past the end, not kept, or an end marker. */
  function Stop(K: seq<bool>, E: seq<bool>, q: nat): (p: nat)
    requires q <= |K| < |E|
    ensures q <= p <= |K| && (p == |K| || !K[p] || E[p])
    ensures forall y :: q <= y < p ==> K[y] && !E[y]
    decreases |K| - q
  {
    if q == |K| || !K[q] || E[q] then q else Stop(K, E, q + 1)
  }

  /** The segments read off from pos on: each from a start to its stop, the search resuming at the stop. */
  function Pieces(K: seq<bool>, S: seq<bool>, E: seq<bool>, pos: nat): seq<Span>
    requires |S| == |K| < |E|
    decreases if pos <= |K| then |K| - pos else 0
  {
    if pos >= |K| then []
    else if IsStart(K, S, pos) then
      var p := Stop(K, E, pos + 1);
      [(pos, p)] + Pieces(K, S, E, p)
    else Pieces(K, S, E, pos + 1)
  }

  predicate Ascending(segs: seq<Span>)
  {
    forall i, j :: 0 <= i < j < |segs| ==> segs[i].1 <= segs[j].0
  }

  /**
   * A piece from pos on: it starts at a start, holds only kept frames
   * without an end marker after its first, and stops at the first frame
   * past the end, not kept, or marked as an end.
   */
  predicate PieceAt(K: seq<bool>, S: seq<bool>, E: seq<bool>, pos: int, s: Span)
    requires |S| == |K| < |E|
  {
    pos <= s.0 < s.1 <= |K| && IsStart(K, S, s.0) &&
    (forall y :: s.0 <= y < s.1 ==> K[y]) &&
    (forall y :: s.0 < y < s.1 ==> !E[y]) &&
    (s.1 == |K| || !K[s.1] || E[s.1])
  }

  lemma {:induction false} PiecesWellFormed(K: seq<bool>, S: seq<bool>, E: seq<bool>, pos: nat)
    requires |S| == |K| < |E|
    ensures forall s :: s in Pieces(K, S, E, pos) ==> PieceAt(K, S, E, pos, s)
    decreases if pos <= |K| then |K| - pos else 0
  {
    if pos < |K| {
      if IsStart(K, S, pos) {
        var p := Stop(K, E, pos + 1);
        PiecesWellFormed(K, S, E, p);
        assert Pieces(K, S, E, pos) == [(pos, p)] + Pieces(K, S, E, p);
      } else {
        PiecesWellFormed(K, S, E, pos + 1);
      }
    }
  }

  /** The pieces are disjoint and ascending. */
  lemma {:induction false} PiecesAscending(K: seq<bool>, S: seq<bool>, E: seq<bool>, pos: nat)
    requires |S| == |K| < |E|
    ensures Ascending(Pieces(K, S, E, pos))
    decreases if pos <= |K| then |K| - pos else 0
  {
    if pos < |K| {
      if IsStart(K, S, pos) {
        var p := Stop(K, E, pos + 1);
        var rest := Pieces(K, S, E, p);
        PiecesAscending(K, S, E, p);
        PiecesWellFormed(K, S, E, p);
        var ps := [(pos, p)] + rest;
        assert Pieces(K, S, E, pos) == ps;
        forall i, j | 0 <= i < j < |ps|
          ensures ps[i].1 <= ps[j].0
        {
          assert ps[j] == rest[j - 1] && rest[j - 1] in rest;
          if i > 0 {
            assert ps[i] == rest[i - 1];
          }
        }
      } else {
        PiecesAscending(K, S, E, pos + 1);
      }
    }
  }

  /** Every start from pos on lies in some piece. */
  lemma {:induction false} PiecesCover(K: seq<bool>, S: seq<bool>, E: seq<bool>, pos: nat, x: int)
    requires |S| == |K| < |E| && pos <= x && IsStart(K, S, x)
    ensures exists s :: s in Pieces(K, S, E, pos) && s.0 <= x < s.1
    decreases if pos <= |K| then |K| - pos else 0
  {
    if IsStart(K, S, pos) {
      var p := Stop(K, E, pos + 1);
      var ps := Pieces(K, S, E, pos);
      assert ps == [(pos, p)] + Pieces(K, S, E, p);
      if x < p {
        assert ps[0] in ps;
      } else {
        PiecesCover(K, S, E, p, x);
        var s :| s in Pieces(K, S, E, p) && s.0 <= x < s.1;
        assert s in ps;
      }
    } else {
      PiecesCover(K, S, E, pos + 1, x);
    }
  }

  /** The pieces longer than minFrames frames, in order. */
  function Longer(ps: seq<Span>, minFrames: real): seq<Span>
  {
    if |ps| == 0 then []
    else (if (ps[0].1 - ps[0].0) as real > minFrames then [ps[0]] else []) + Longer(ps[1..], minFrames)
  }

  /** Longer keeps exactly the long pieces. */
  lemma {:induction false} LongerMeaning(ps: seq<Span>, minFrames: real)
    ensures forall s :: s in Longer(ps, minFrames) <==> s in ps && (s.1 - s.0) as real > minFrames
  {
    if |ps| > 0 {
      LongerMeaning(ps[1..], minFrames);
      assert forall s :: s in ps <==> s == ps[0] || s in ps[1..];
    }
  }

  /** Longer keeps ascending pieces ascending. */
  lemma {:induction false} LongerAscending(ps: seq<Span>, minFrames: real)
    requires Ascending(ps)
    ensures Ascending(Longer(ps, minFrames))
  {
    if |ps| > 0 {
      var rest := ps[1..];
      AscendingTail(ps);
      LongerAscending(rest, minFrames);
      LongerMeaning(rest, minFrames);
      var Lr := Longer(rest, minFrames);
      if (ps[0].1 - ps[0].0) as real > minFrames {
        var L := [ps[0]] + Lr;
        assert Longer(ps, minFrames) == L;
        forall i, j | 0 <= i < j < |L|
          ensures L[i].1 <= L[j].0
        {
          assert L[j] == Lr[j - 1] && Lr[j - 1] in Lr;
          if i > 0 {
            assert L[i] == Lr[i - 1];
          }
        }
      } else {
        assert Longer(ps, minFrames) == Lr;
      }
    }
  }

  /** The tail of ascending pieces ascends and starts after the head ends. */
  lemma AscendingTail(ps: seq<Span>)
    requires Ascending(ps) && |ps| > 0
    ensures Ascending(ps[1..]) && forall s :: s in ps[1..] ==> ps[0].1 <= s.0
  {
    var rest := ps[1..];
    forall i, j | 0 <= i < j < |rest|
      ensures rest[i].1 <= rest[j].0
    {
      assert rest[i] == ps[i + 1] && rest[j] == ps[j + 1];
    }
    forall s | s in rest
      ensures ps[0].1 <= s.0
    {
      var m :| 0 <= m < |rest| && rest[m] == s;
      assert ps[m + 1] == s;
    }
  }

  /**
   * The segment-reading loop of print_segments: a start scans forward to
   * its stop, a long enough piece is appended, and the scan resumes at the
   * stop when that frame is kept or has a start marker, else just past it.
   */
  method ReadSegments(K: seq<bool>, S: seq<bool>, E: seq<bool>, minFrames: real) returns (segs: seq<Span>)
    requires |S| == |K| < |E|
    ensures segs == Longer(Pieces(K, S, E, 0), minFrames)
  {
    segs := [];
    var n := 0;
    while n < |K|
      invariant 0 <= n <= |K| + 1
      invariant segs + Longer(Pieces(K, S, E, n), minFrames) == Longer(Pieces(K, S, E, 0), minFrames)
      decreases |K| + 1 - n
    {
      var found, next := ReadFrom(K, S, E, minFrames, n);
      Regroup(segs, found, Longer(Pieces(K, S, E, next), minFrames), Longer(Pieces(K, S, E, n), minFrames));
      segs := segs + found;
      n := next;
    }
    assert Pieces(K, S, E, n) == [];
  }

  lemma Regroup(a: seq<Span>, b: seq<Span>, c: seq<Span>, d: seq<Span>)
    requires d == b + c
    ensures a + d == (a + b) + c
  {
  }

  /**
   * One pass of the reading loop at frame n: a start scans forward to its
   * stop and yields the piece when it is long enough; the next frame looked
   * at is the stop itself when that is kept or has a start marker, else the
   * frame after it.
   */
  method ReadFrom(K: seq<bool>, S: seq<bool>, E: seq<bool>, minFrames: real, n: nat) returns (found: seq<Span>, next: nat)
    requires |S| == |K| < |E| && n < |K|
    ensures n < next <= |K| + 1
    ensures Longer(Pieces(K, S, E, n), minFrames) == found + Longer(Pieces(K, S, E, next), minFrames)
  {
    found := [];
    next := n;
    if (S[n] && K[n]) || ((n == 0 || !K[n - 1]) && K[n]) {
      var p := ScanPiece(K, E, n);
      PieceStep(K, S, E, minFrames, n, p);
      if (p - n) as real > minFrames {
        found := [(n, p)];
      }
      if p < |K| && (K[p] || S[p]) {
        next := p - 1;
      } else {
        next := p;
      }
    }
    next := next + 1;
  }

  /** The scan from a start n to its stop. */
  method ScanPiece(K: seq<bool>, E: seq<bool>, n: nat) returns (p: nat)
    requires n < |K| < |E|
    ensures p == Stop(K, E, n + 1)
  {
    p := n + 1;
    while p < |K| && K[p] && !E[p]
      invariant n < p <= |K| && Stop(K, E, n + 1) == Stop(K, E, p)
    {
      p := p + 1;
    }
  }

  /** The piece from a start n to its stop p, and where the reading resumes after it. */
  lemma PieceStep(K: seq<bool>, S: seq<bool>, E: seq<bool>, minFrames: real, n: nat, p: nat)
    requires |S| == |K| < |E| && IsStart(K, S, n) && p == Stop(K, E, n + 1)
    ensures Longer(Pieces(K, S, E, n), minFrames) ==
      (if (p - n) as real > minFrames then [(n, p)] else []) + Longer(Pieces(K, S, E, p), minFrames)
    ensures !(p < |K| && (K[p] || S[p])) ==> Pieces(K, S, E, p + 1) == Pieces(K, S, E, p)
  {
    var ps := Pieces(K, S, E, n);
    assert ps == [(n, p)] + Pieces(K, S, E, p);
    assert ps[1..] == Pieces(K, S, E, p);
  }

  // ---------------------------------------------------------------- a recording

  /** The segments print_segments reads off for one recording, with limit and minFrames in frames. */
  function Filtered(spans: seq<Span>, vads: seq<Span>, limit: real, minFrames: real): seq<Span>
    requires ValidSpans(spans) && ValidVad(vads) && |spans| > 0
  {
    MarksConsistent(spans);
    var A, S, E := SpanFrames(spans), SpanStarts(spans), SpanEnds(spans);
    var C := Classes(A, VadFrames(vads));
    Longer(Pieces(KeptFrames(C, A, limit), StartsAfter(C, A, S, limit), EndsAfter(C, A, E, limit), 0), minFrames)
  }

  /**
   * Every output segment of a recording is longer than minFrames, lies
   * within one stretch of in-segment frames that are either accepted by the
   * VAD or in a rejected run that was kept, and the segments ascend without
   * overlap.
   */
  lemma FilteredFacts(spans: seq<Span>, vads: seq<Span>, limit: real, minFrames: real)
    requires ValidSpans(spans) && ValidVad(vads) && |spans| > 0
    ensures var segs := Filtered(spans, vads, limit, minFrames);
      var A := SpanFrames(spans);
      var C := Classes(A, VadFrames(vads));
      Ascending(segs) &&
      forall s :: s in segs ==>
        0 <= s.0 < s.1 <= |A| && (s.1 - s.0) as real > minFrames &&
        forall y :: s.0 <= y < s.1 ==> Covered(spans, y) && Kept(C, A, limit, y)
  {
    MarksConsistent(spans);
    var A, S, E := SpanFrames(spans), SpanStarts(spans), SpanEnds(spans);
    var C := Classes(A, VadFrames(vads));
    assert ClassesOf(A, C);
    KeptPiecesFacts(A, C, S, E, limit, minFrames);
    GrownFacts(spans);
    assert forall y :: 0 <= y < |A| ==> A[y] == Covered(spans, y);
  }

  /** The long pieces read off the kept frames and repaired markers ascend, and lie on kept in-segment frames. */
  lemma KeptPiecesFacts(A: seq<bool>, C: seq<int>, S: seq<bool>, E: seq<bool>, limit: real, minFrames: real)
    requires ClassesOf(A, C) && |S| == |A| < |E|
    ensures var segs := Longer(Pieces(KeptFrames(C, A, limit), StartsAfter(C, A, S, limit), EndsAfter(C, A, E, limit), 0), minFrames);
      Ascending(segs) &&
      forall s :: s in segs ==>
        0 <= s.0 < s.1 <= |A| && (s.1 - s.0) as real > minFrames &&
        forall y :: s.0 <= y < s.1 ==> A[y] && Kept(C, A, limit, y)
  {
    var K := KeptFrames(C, A, limit);
    var segs := Longer(Pieces(K, StartsAfter(C, A, S, limit), EndsAfter(C, A, E, limit), 0), minFrames);
    LongPieces(K, StartsAfter(C, A, S, limit), EndsAfter(C, A, E, limit), minFrames);
    forall s, y | s in segs && s.0 <= y < s.1
      ensures A[y] && Kept(C, A, limit, y)
    {
      assert K[y];
    }
  }

  /** The long pieces are ascending, long enough, and made of marked frames only. */
  lemma LongPieces(K: seq<bool>, S: seq<bool>, E: seq<bool>, minFrames: real)
    requires |S| == |K| < |E|
    ensures var segs := Longer(Pieces(K, S, E, 0), minFrames);
      Ascending(segs) &&
      forall s :: s in segs ==>
        0 <= s.0 < s.1 <= |K| && (s.1 - s.0) as real > minFrames && forall y :: s.0 <= y < s.1 ==> K[y]
  {
    var ps := Pieces(K, S, E, 0);
    PiecesWellFormed(K, S, E, 0);
    PiecesAscending(K, S, E, 0);
    LongerMeaning(ps, minFrames);
    LongerAscending(ps, minFrames);
    forall s | s in Longer(ps, minFrames)
      ensures 0 <= s.0 < s.1 <= |K| && forall y :: s.0 <= y < s.1 ==> K[y]
    {
      assert PieceAt(K, S, E, 0, s);
    }
  }

  /**
   * print_segments for one recording, given the marker arrays main built:
   * classify, remove or keep the runs the VAD rejects, read the segments
   * off, and name them. With no segment left the script stops with status
   * 1 (its last end time is never set).
   */
  method PrintSegments(A: seq<bool>, B: seq<bool>, S: seq<bool>, E: seq<bool>, reco: string,
                       ghost spans: seq<Span>, ghost vads: seq<Span>, limit: real, minFrames: real,
                       hundredths: int, sep: (string, string))
    returns (r: Outcome<Printed>)
    requires ValidSpans(spans) && ValidVad(vads) && |spans| > 0
    requires A == SpanFrames(spans) && S == SpanStarts(spans) && E == SpanEnds(spans) && B == VadFrames(vads)
    ensures r.Exit? <==> |Filtered(spans, vads, limit, minFrames)| == 0
    ensures r.Exit? ==> r.code == 1
    ensures r.Done? ==> PrintedAs(r.value, reco, Filtered(spans, vads, limit, minFrames), hundredths, sep)
  {
    MarksConsistent(spans);
    var C := Classify(A, B);
    var kept, S', E' := RemoveRuns(A, C, S, E, limit);
    var segs := ReadSegments(kept, S', E', minFrames);
    if |segs| == 0 {
      return Exit(1);
    }
    var o := NameSegments(reco, segs, hundredths, sep);
    r := Done(o);
  }

  // ---------------------------------------------------------------- the threshold

  /**
   * The run limit in frames as the script computes it: the threshold, given
   * in seconds, is compared with a run's length in frames unchanged.
   */
  function RunLimitAsWritten(thresholdSeconds: real, frameShift: real): (limit: real)
    requires frameShift > 0.0
    ensures limit == thresholdSeconds
  {
    thresholdSeconds
  }

  /** The run limit in frames: the threshold in seconds over the frame shift, as for the minimum segment length. */
  function RunLimit(thresholdSeconds: real, frameShift: real): (limit: real)
    requires frameShift > 0.0
    ensures limit * frameShift == thresholdSeconds
  {
    thresholdSeconds / frameShift
  }

  /** The minimum segment length in frames. */
  function MinFrames(minSeconds: real, frameShift: real): (m: real)
    requires frameShift > 0.0
    ensures m * frameShift == minSeconds
  {
    minSeconds / frameShift
  }

  /**
   * With the corrected limit, a rejected run inside a segment is removed
   * exactly when it lasts longer than the threshold in seconds.
   */
  lemma GapRemovedIffLong(A: seq<bool>, n: nat, p: nat, thresholdSeconds: real, frameShift: real)
    requires frameShift > 0.0 && n <= p && n <= |A|
    ensures Removed(A, n, p, RunLimit(thresholdSeconds, frameShift)) <==>
      ((p - n) as real * frameShift > thresholdSeconds || LeftOut(A, n) || RightOut(A, p))
  {
    var limit := RunLimit(thresholdSeconds, frameShift);
    var len := (p - n) as real;
    assert len > limit <==> len * frameShift > limit * frameShift;
  }

  /**
   * As written, with the default threshold of one second and frames of
   * 10 ms, a pause of two frames (0.02 seconds) that the VAD rejects in the
   * middle of one segment is cut out; with the limit in frames it is kept.
   */
  lemma ShortGapCutAsWritten()
    ensures var A := seq(10, _ => true);
      var C := Classes(A, [true, true, true, true, false, false, true, true, true, true]);
      !Kept(C, A, RunLimitAsWritten(1.0, 0.01), 4) && Kept(C, A, RunLimit(1.0, 0.01), 4)
  {
    var A := seq(10, _ => true);
    var C := Classes(A, [true, true, true, true, false, false, true, true, true, true]);
    assert C == [1, 1, 1, 1, 2, 2, 1, 1, 1, 1];
    assert RunFrom(C, 4) == 4;
    assert RunTo(C, 5) == 6;
    assert RunTo(C, 4) == 6;
  }

  // ---------------------------------------------------------------- main

  /** A segment line of the input, its times already in frames. */
  type Line = (string, Span)

  predicate ValidLines(lines: seq<Line>)
  {
    forall k :: 0 <= k < |lines| ==> 0 <= lines[k].1.0 < lines[k].1.1
  }

  /** The input lines grouped into maximal runs of consecutive lines of one recording. */
  function Groups(lines: seq<Line>): seq<(string, seq<Span>)>
  {
    if |lines| == 0 then []
    else
      var g := Groups(lines[..|lines| - 1]);
      var l := lines[|lines| - 1];
      if |g| > 0 && g[|g| - 1].0 == l.0 then g[..|g| - 1] + [(l.0, g[|g| - 1].1 + [l.1])]
      else g + [(l.0, [l.1])]
  }

  /** The lines of one group: each of its spans with the group's recording. */
  function Tag(reco: string, spans: seq<Span>): seq<Line>
  {
    seq(|spans|, k requires 0 <= k < |spans| => (reco, spans[k]))
  }

  /** The lines of all groups, in order. */
  function Flatten(groups: seq<(string, seq<Span>)>): seq<Line>
  {
    if |groups| == 0 then []
    else Flatten(groups[..|groups| - 1]) + Tag(groups[|groups| - 1].0, groups[|groups| - 1].1)
  }

  /** Grouping loses and reorders no line. */
  lemma {:induction false} GroupsFlatten(lines: seq<Line>)
    ensures Flatten(Groups(lines)) == lines
  {
    if |lines| > 0 {
      var init := lines[..|lines| - 1];
      var l := lines[|lines| - 1];
      GroupsFlatten(init);
      var g := Groups(init);
      if |g| > 0 && g[|g| - 1].0 == l.0 {
        FlattenJoin(g, l);
      } else {
        FlattenNew(g, l);
      }
      assert lines == init + [l];
    }
  }

  /** A line joining the last group is flattened after that group's lines. */
  lemma FlattenJoin(g: seq<(string, seq<Span>)>, l: Line)
    requires |g| > 0 && g[|g| - 1].0 == l.0
    ensures Flatten(g[..|g| - 1] + [(l.0, g[|g| - 1].1 + [l.1])]) == Flatten(g) + [l]
  {
    var last := g[|g| - 1];
    var init := g[..|g| - 1];
    var G := init + [(l.0, last.1 + [l.1])];
    assert G[..|G| - 1] == init;
    TagSnoc(l.0, last.1, l.1);
    assert (l.0, l.1) == l;
    calc {
      Flatten(G);
      Flatten(init) + Tag(l.0, last.1 + [l.1]);
      Flatten(init) + (Tag(last.0, last.1) + [l]);
      Flatten(init) + Tag(last.0, last.1) + [l];
      Flatten(g) + [l];
    }
  }

  lemma TagSnoc(reco: string, spans: seq<Span>, x: Span)
    ensures Tag(reco, spans + [x]) == Tag(reco, spans) + [(reco, x)]
  {
    forall k | 0 <= k < |spans| + 1
      ensures Tag(reco, spans + [x])[k] == (Tag(reco, spans) + [(reco, x)])[k]
    {
      if k < |spans| {
        assert (spans + [x])[k] == spans[k];
      }
    }
  }

  /** A line opening a new group is flattened after all earlier lines. */
  lemma FlattenNew(g: seq<(string, seq<Span>)>, l: Line)
    ensures Flatten(g + [(l.0, [l.1])]) == Flatten(g) + [l]
  {
    var G := g + [(l.0, [l.1])];
    assert G[..|G| - 1] == g;
    assert Tag(l.0, [l.1]) == [l];
  }

  /** Every group is non-empty, and the last group is the last line's recording. */
  lemma GroupsNonEmpty(lines: seq<Line>)
    ensures forall t :: 0 <= t < |Groups(lines)| ==> |Groups(lines)[t].1| > 0
    ensures |lines| > 0 ==> |Groups(lines)| > 0 && Groups(lines)[|Groups(lines)| - 1].0 == lines[|lines| - 1].0
  {
    GroupsNonEmptyUpTo(lines, |lines|);
    assert lines[..|lines|] == lines;
  }

  predicate NonEmptyGroups(G: seq<(string, seq<Span>)>)
  {
    forall t :: 0 <= t < |G| ==> |G[t].1| > 0
  }

  lemma {:induction false} GroupsNonEmptyUpTo(lines: seq<Line>, k: nat)
    requires k <= |lines|
    ensures NonEmptyGroups(Groups(lines[..k]))
    ensures k > 0 ==> |Groups(lines[..k])| > 0 && Groups(lines[..k])[|Groups(lines[..k])| - 1].0 == lines[k - 1].0
  {
    if k > 0 {
      GroupsNonEmptyUpTo(lines, k - 1);
      GroupsNext(lines, k - 1);
      var g := Groups(lines[..k - 1]);
      var G := Groups(lines[..k]);
      assert forall t :: 0 <= t < |G| - 1 ==> G[t] == g[t];
    } else {
      assert lines[..0] == [];
    }
  }

  /** Neighbouring groups belong to different recordings: the groups are maximal. */
  lemma {:induction false} GroupsMaximal(lines: seq<Line>)
    ensures forall t :: 0 < t < |Groups(lines)| ==> Groups(lines)[t - 1].0 != Groups(lines)[t].0
  {
    if |lines| > 0 {
      var k := |lines| - 1;
      GroupsMaximal(lines[..k]);
      GroupsNext(lines, k);
      assert lines[..k + 1] == lines;
      var g := Groups(lines[..k]);
      var G := Groups(lines);
      var name := lines[k].0;
      assert forall t :: 0 <= t < |g| ==> G[t].0 == g[t].0;
      NamesAlternate(g, G, name);
    }
  }

  /** Extending or appending the last group keeps neighbouring groups' recordings distinct. */
  lemma NamesAlternate(g: seq<(string, seq<Span>)>, G: seq<(string, seq<Span>)>, name: string)
    requires forall t :: 0 < t < |g| ==> g[t - 1].0 != g[t].0
    requires |G| == |g| || |G| == |g| + 1
    requires forall t :: 0 <= t < |g| ==> G[t].0 == g[t].0
    requires |G| == |g| + 1 ==> G[|g|].0 == name && (|g| == 0 || g[|g| - 1].0 != name)
    ensures forall t :: 0 < t < |G| ==> G[t - 1].0 != G[t].0
  {
  }

  /** The spans of the lines of a group are valid when all lines are. */
  lemma GroupsValid(lines: seq<Line>)
    requires ValidLines(lines)
    ensures forall g :: g in Groups(lines) ==> ValidSpans(g.1)
  {
    GroupsFlatten(lines);
    var G := Groups(lines);
    forall t, k | 0 <= t < |G| && 0 <= k < |G[t].1|
      ensures 0 <= G[t].1[k].0 < G[t].1[k].1
    {
      FlattenHas(G, t, k);
    }
  }

  /** Each span of a group appears as a line of the flattened groups. */
  lemma {:induction false} FlattenHas(G: seq<(string, seq<Span>)>, t: nat, k: nat)
    requires t < |G| && k < |G[t].1|
    ensures (G[t].0, G[t].1[k]) in Flatten(G)
  {
    var init := G[..|G| - 1];
    if t < |G| - 1 {
      FlattenHas(init, t, k);
      assert init[t] == G[t];
    } else {
      assert Tag(G[t].0, G[t].1)[k] == (G[t].0, G[t].1[k]);
    }
  }

  /** A group of lines the script prints: its VAD file exists and some segment survives. */
  predicate GroupPrints(g: (string, seq<Span>), vads: map<string, seq<Span>>, limit: real, minFrames: real)
  {
    g.0 in vads && ValidSpans(g.1) && |g.1| > 0 && ValidVad(vads[g.0]) &&
    |Filtered(g.1, vads[g.0], limit, minFrames)| > 0
  }

  /** The printed form of one group. */
  predicate GroupPrinted(o: Printed, g: (string, seq<Span>), vads: map<string, seq<Span>>, limit: real, minFrames: real,
                         hundredths: int, sep: (string, string))
  {
    GroupPrints(g, vads, limit, minFrames) &&
    PrintedAs(o, g.0, Filtered(g.1, vads[g.0], limit, minFrames), hundredths, sep)
  }

  /**
   * The main loop: the lines of one recording grow its marker arrays; when
   * the recording changes, and after the last line, the recording's VAD
   * file is read and its segments printed. A missing VAD file, an empty
   * input, or a recording with no segment left stops the script with
   * status 1. vads maps each recording that has a VAD file to its lines,
   * in frames with the padding applied.
   */
  method PostProcess(lines: seq<Line>, vads: map<string, seq<Span>>, thresholdSeconds: real, minSeconds: real,
                     frameShift: real, hundredths: int, sep: (string, string))
    returns (r: Outcome<seq<Printed>>)
    requires ValidLines(lines) && frameShift > 0.0
    requires forall f :: f in vads ==> ValidVad(vads[f])
    ensures var limit, minFrames := RunLimit(thresholdSeconds, frameShift), MinFrames(minSeconds, frameShift);
      r.Done? <==> |lines| > 0 && forall g :: g in Groups(lines) ==> GroupPrints(g, vads, limit, minFrames)
    ensures r.Exit? ==> r.code == 1
    ensures var limit, minFrames := RunLimit(thresholdSeconds, frameShift), MinFrames(minSeconds, frameShift);
      r.Done? ==> (|r.value| == |Groups(lines)| &&
        forall t :: 0 <= t < |r.value| ==> GroupPrinted(r.value[t], Groups(lines)[t], vads, limit, minFrames, hundredths, sep))
  {
    var limit, minFrames := RunLimit(thresholdSeconds, frameShift), MinFrames(minSeconds, frameShift);
    if |lines| == 0 {
      return Exit(1);
    }
    var out: seq<Printed> := [];
    var prev := lines[0].0;
    ghost var cur: seq<Span> := [];
    var A, S, E, i := [], [], [], 0;
    NoMarks();
    for k := 0 to |lines|
      invariant MarksOf(cur, A, S, E, i) && (k > 0 ==> |cur| > 0)
      invariant k == 0 ==> cur == [] && out == [] && prev == lines[0].0
      invariant k > 0 ==> |Groups(lines[..k])| == |out| + 1 && Groups(lines[..k])[|out|] == (prev, cur)
      invariant PrintedSoFar(out, Groups(lines[..k]), vads, limit, minFrames, hundredths, sep)
    {
      var stop;
      stop, out, prev, cur, A, S, E, i := TakeLine(lines, k, out, prev, cur, A, S, E, i, vads, limit, minFrames, hundredths, sep);
      if stop {
        return Exit(1);
      }
    }
    assert lines[..|lines|] == lines;
    r := FinishLast(lines, out, prev, cur, A, S, E, vads, limit, minFrames, hundredths, sep);
  }

  /**
   * One input line: a change of recording prints the recording just closed
   * (or stops the script when it cannot be printed), then the line's span
   * joins the current recording.
   */
  method TakeLine(lines: seq<Line>, k: nat, out: seq<Printed>, prev: string, ghost cur: seq<Span>,
                  A: seq<bool>, S: seq<bool>, E: seq<bool>, i: int, vads: map<string, seq<Span>>, limit: real, minFrames: real,
                  hundredths: int, sep: (string, string))
    returns (stop: bool, out': seq<Printed>, prev': string, ghost cur': seq<Span>, A': seq<bool>, S': seq<bool>, E': seq<bool>, i': int)
    requires ValidLines(lines) && k < |lines| && forall f :: f in vads ==> ValidVad(vads[f])
    requires MarksOf(cur, A, S, E, i) && (k > 0 ==> |cur| > 0)
    requires k == 0 ==> cur == [] && out == [] && prev == lines[0].0
    requires k > 0 ==> |Groups(lines[..k])| == |out| + 1 && Groups(lines[..k])[|out|] == (prev, cur)
    requires PrintedSoFar(out, Groups(lines[..k]), vads, limit, minFrames, hundredths, sep)
    ensures stop ==> (prev, cur) in Groups(lines) && !GroupPrints((prev, cur), vads, limit, minFrames)
    ensures !stop ==> MarksOf(cur', A', S', E', i') && |cur'| > 0
    ensures !stop ==> |Groups(lines[..k + 1])| == |out'| + 1 && Groups(lines[..k + 1])[|out'|] == (prev', cur')
    ensures !stop ==> PrintedSoFar(out', Groups(lines[..k + 1]), vads, limit, minFrames, hundredths, sep)
  {
    var reco, span := lines[k].0, lines[k].1;
    GroupsAdvance(lines, k, |out|, prev, cur);
    SoFarKept(out, Groups(lines[..k]), Groups(lines[..k + 1]), vads, limit, minFrames, hundredths, sep);
    out', cur', A', S', E', i' := out, cur, A, S, E, i;
    if reco != prev {
      var o := FinishRecording(prev, cur, A, S, E, vads, limit, minFrames, hundredths, sep);
      if o.Exit? {
        GroupClosed(lines, k, |out|, prev, cur);
        return true, out', prev, cur', A', S', E', i';
      }
      SoFarExtended(out, o.value, Groups(lines[..k + 1]), vads, limit, minFrames, hundredths, sep);
      out' := out + [o.value];
      cur', A', S', E', i' := [], [], [], [], 0;
      NoMarks();
    }
    A', S', E', i' := AddLine(cur', span.0, span.1, A', S', E', i');
    stop, cur', prev' := false, cur' + [span], reco;
  }

  /** A group that the next line's change of recording closes is a group of the whole input. */
  lemma GroupClosed(lines: seq<Line>, k: nat, m: nat, prev: string, cur: seq<Span>)
    requires k < |lines| && lines[k].0 != prev
    requires |Groups(lines[..k + 1])| == m + 2 && Groups(lines[..k + 1])[m] == (prev, cur)
    ensures (prev, cur) in Groups(lines)
  {
    GroupsPrefix(lines, k + 1, |lines|);
    assert lines[..|lines|] == lines;
    assert Groups(lines)[m] == (prev, cur);
  }

  /** After the last line: print the last recording, which completes the output. */
  method FinishLast(lines: seq<Line>, out: seq<Printed>, prev: string, ghost cur: seq<Span>,
                    A: seq<bool>, S: seq<bool>, E: seq<bool>, vads: map<string, seq<Span>>, limit: real, minFrames: real,
                    hundredths: int, sep: (string, string))
    returns (r: Outcome<seq<Printed>>)
    requires ValidSpans(cur) && |cur| > 0 && forall f :: f in vads ==> ValidVad(vads[f])
    requires A == SpanFrames(cur) && S == SpanStarts(cur) && E == SpanEnds(cur)
    requires |Groups(lines)| == |out| + 1 && Groups(lines)[|out|] == (prev, cur)
    requires PrintedSoFar(out, Groups(lines), vads, limit, minFrames, hundredths, sep)
    ensures r.Done? <==> forall g :: g in Groups(lines) ==> GroupPrints(g, vads, limit, minFrames)
    ensures r.Exit? ==> r.code == 1
    ensures r.Done? ==> PrintedSoFar(r.value, Groups(lines), vads, limit, minFrames, hundredths, sep) && |r.value| == |Groups(lines)|
  {
    var o := FinishRecording(prev, cur, A, S, E, vads, limit, minFrames, hundredths, sep);
    if o.Exit? {
      assert (prev, cur) in Groups(lines);
      return Exit(1);
    }
    var out' := out + [o.value];
    SoFarExtended(out, o.value, Groups(lines), vads, limit, minFrames, hundredths, sep);
    AllGroupsPrint(out', Groups(lines), vads, limit, minFrames, hundredths, sep);
    r := Done(out');
  }

  lemma SoFarExtended(out: seq<Printed>, o: Printed, G: seq<(string, seq<Span>)>, vads: map<string, seq<Span>>,
                      limit: real, minFrames: real, hundredths: int, sep: (string, string))
    requires PrintedSoFar(out, G, vads, limit, minFrames, hundredths, sep) && |out| < |G|
    requires GroupPrinted(o, G[|out|], vads, limit, minFrames, hundredths, sep)
    ensures PrintedSoFar(out + [o], G, vads, limit, minFrames, hundredths, sep)
  {
    assert forall t :: 0 <= t < |out| ==> (out + [o])[t] == out[t];
  }

  /** When every group has been printed, every group prints. */
  lemma AllGroupsPrint(out: seq<Printed>, G: seq<(string, seq<Span>)>, vads: map<string, seq<Span>>,
                       limit: real, minFrames: real, hundredths: int, sep: (string, string))
    requires PrintedSoFar(out, G, vads, limit, minFrames, hundredths, sep) && |out| == |G|
    ensures forall g :: g in G ==> GroupPrints(g, vads, limit, minFrames)
  {
    forall g | g in G
      ensures GroupPrints(g, vads, limit, minFrames)
    {
      var t :| 0 <= t < |G| && G[t] == g;
      assert GroupPrinted(out[t], g, vads, limit, minFrames, hundredths, sep);
    }
  }

  /** The marker arrays and the frame reached after the lines spans. */
  predicate MarksOf(spans: seq<Span>, A: seq<bool>, S: seq<bool>, E: seq<bool>, i: int)
  {
    ValidSpans(spans) && A == SpanFrames(spans) && S == SpanStarts(spans) && E == SpanEnds(spans) && i == Grown(spans).2
  }

  /** The printed groups so far, one per group of G. */
  predicate PrintedSoFar(out: seq<Printed>, G: seq<(string, seq<Span>)>, vads: map<string, seq<Span>>, limit: real, minFrames: real,
                         hundredths: int, sep: (string, string))
  {
    |out| <= |G| && forall t :: 0 <= t < |out| ==> GroupPrinted(out[t], G[t], vads, limit, minFrames, hundredths, sep)
  }

  lemma SoFarKept(out: seq<Printed>, G: seq<(string, seq<Span>)>, G': seq<(string, seq<Span>)>, vads: map<string, seq<Span>>,
                  limit: real, minFrames: real, hundredths: int, sep: (string, string))
    requires PrintedSoFar(out, G, vads, limit, minFrames, hundredths, sep) && |out| <= |G'|
    requires forall t :: 0 <= t < |out| ==> G'[t] == G[t]
    ensures PrintedSoFar(out, G', vads, limit, minFrames, hundredths, sep)
  {
  }

  /** One segment line of the current recording marks the arrays. */
  method AddLine(ghost spans: seq<Span>, st: int, en: int, A: seq<bool>, S: seq<bool>, E: seq<bool>, i: int)
    returns (A': seq<bool>, S': seq<bool>, E': seq<bool>, i': int)
    requires MarksOf(spans, A, S, E, i) && 0 <= st < en
    ensures MarksOf(spans + [(st, en)], A', S', E', i')
  {
    var spans' := spans + [(st, en)];
    assert spans'[..|spans|] == spans;
    A', S', E' := MarkLine(spans', |spans|, st, en, A, S, E, i);
    i' := en;
    assert spans'[..|spans| + 1] == spans';
  }

  /** The marker arrays of no line are empty. */
  lemma NoMarks()
    ensures SpanFrames([]) == [] && SpanStarts([]) == [] && SpanEnds([]) == [] && Grown([]).2 == 0
  {
  }

  /**
   * The main loop's view of the groups: line k either extends the current
   * group (prev, cur), the m-th, or, from another recording, closes it and
   * opens the next; the groups before the m-th stay as they were.
   */
  lemma GroupsAdvance(lines: seq<Line>, k: nat, m: nat, prev: string, cur: seq<Span>)
    requires k < |lines|
    requires k == 0 ==> cur == [] && m == 0 && prev == lines[0].0
    requires k > 0 ==> |Groups(lines[..k])| == m + 1 && Groups(lines[..k])[m] == (prev, cur)
    ensures var G := Groups(lines[..k + 1]);
      if lines[k].0 == prev then |G| == m + 1 && G[m] == (prev, cur + [lines[k].1])
      else |G| == m + 2 && G[m] == (prev, cur) && G[m + 1] == (lines[k].0, [lines[k].1])
    ensures forall t :: 0 <= t < m ==> Groups(lines[..k + 1])[t] == Groups(lines[..k])[t]
  {
    GroupsNext(lines, k);
    if k == 0 {
      assert lines[..0] == [];
      assert Groups(lines[..0]) == [];
      assert cur + [lines[k].1] == [lines[k].1];
    } else {
      GroupsNonEmptyUpTo(lines, k);
    }
  }

  /** One more line either extends the last group or opens a new one. */
  lemma GroupsNext(lines: seq<Line>, k: nat)
    requires k < |lines|
    ensures var G := Groups(lines[..k]);
      Groups(lines[..k + 1]) ==
        if |G| > 0 && G[|G| - 1].0 == lines[k].0 then G[..|G| - 1] + [(lines[k].0, G[|G| - 1].1 + [lines[k].1])]
        else G + [(lines[k].0, [lines[k].1])]
  {
    assert lines[..k + 1][..k] == lines[..k];
  }

  /** Later lines leave every group but the last one unchanged. */
  lemma {:induction false} GroupsPrefix(lines: seq<Line>, k: nat, j: nat)
    requires k <= j <= |lines|
    ensures |Groups(lines[..k])| <= |Groups(lines[..j])|
    ensures forall t :: 0 <= t < |Groups(lines[..k])| - 1 ==> Groups(lines[..j])[t] == Groups(lines[..k])[t]
    decreases j - k
  {
    if k < j {
      GroupsNext(lines, k);
      GroupsPrefix(lines, k + 1, j);
    }
  }

  /** At a change of recording, or after the last line: read the recording's VAD file and print its segments. */
  method FinishRecording(reco: string, ghost spans: seq<Span>, A: seq<bool>, S: seq<bool>, E: seq<bool>,
                         vads: map<string, seq<Span>>, limit: real, minFrames: real,
                         hundredths: int, sep: (string, string))
    returns (r: Outcome<Printed>)
    requires ValidSpans(spans) && |spans| > 0 && forall f :: f in vads ==> ValidVad(vads[f])
    requires A == SpanFrames(spans) && S == SpanStarts(spans) && E == SpanEnds(spans)
    ensures r.Exit? <==> !GroupPrints((reco, spans), vads, limit, minFrames)
    ensures r.Exit? ==> r.code == 1
    ensures r.Done? ==> GroupPrinted(r.value, (reco, spans), vads, limit, minFrames, hundredths, sep)
  {
    if reco !in vads {
      return Exit(1);
    }
    var B := ReadVad(vads[reco]);
    r := PrintSegments(A, B, S, E, reco, spans, vads[reco], limit, minFrames, hundredths, sep);
  }
}
