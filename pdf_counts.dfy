/**
 * get-pdf-counts-on-ali: one histogram, written under the key "Counts", of
 * the pdf ids of all aligned frames whose weight is above a threshold. The
 * histogram grows on demand to cover every pdf id seen, including frames
 * that fail the threshold. Weights are modelled as reals.
 */
module PdfCounts {
  import opened Outcomes

  /** The weights of one utterance: the given ones when a weights table is used and has the key, else 1 per frame. */
  function UttWeights(u: (string, seq<int>), weights: Option<map<string, seq<real>>>): seq<real>
  {
    if weights.Some? && u.0 in weights.value then weights.value[u.0] else seq(|u.1|, _ => 1.0)
  }

  /** Every weights vector that is read has the alignment's length (copying one of another length is an error). */
  predicate WeightsFit(alis: seq<(string, seq<int>)>, weights: Option<map<string, seq<real>>>)
  {
    forall k :: 0 <= k < |alis| ==> |UttWeights(alis[k], weights)| == |alis[k].1|
  }

  /** The (pdf, weight) pairs of one utterance. */
  function UttFrames(ali: seq<int>, w: seq<real>): (F: seq<(int, real)>)
    requires |w| == |ali|
    ensures |F| == |ali| && forall i :: 0 <= i < |ali| ==> F[i] == (ali[i], w[i])
  {
    seq(|ali|, i requires 0 <= i < |ali| => (ali[i], w[i]))
  }

  /** All frames of the alignments, utterance after utterance. */
  function Frames(alis: seq<(string, seq<int>)>, weights: Option<map<string, seq<real>>>): seq<(int, real)>
    requires WeightsFit(alis, weights)
  {
    if |alis| == 0 then []
    else
      var last := alis[|alis| - 1];
      Frames(alis[..|alis| - 1], weights) + UttFrames(last.1, UttWeights(last, weights))
  }

  /** The number of frames aligned to pdf a with weight above the threshold. */
  function Tally(F: seq<(int, real)>, threshold: real, a: int): nat
  {
    if |F| == 0 then 0
    else Tally(F[..|F| - 1], threshold, a) + (if F[|F| - 1].0 == a && F[|F| - 1].1 > threshold then 1 else 0)
  }

  /** The histogram's length: one more than the largest pdf id seen, or 0. */
  function Reach(F: seq<(int, real)>): nat
  {
    if |F| == 0 then 0
    else
      var r := Reach(F[..|F| - 1]);
      if F[|F| - 1].0 + 1 > r then F[|F| - 1].0 + 1 else r
  }

  /** The number of frames with weight above the threshold. */
  function Above(F: seq<(int, real)>, threshold: real): nat
  {
    if |F| == 0 then 0 else Above(F[..|F| - 1], threshold) + (if F[|F| - 1].1 > threshold then 1 else 0)
  }

  predicate Histogram(counts: seq<int>, F: seq<(int, real)>, threshold: real)
  {
    |counts| == Reach(F) && forall a :: 0 <= a < |counts| ==> counts[a] == Tally(F, threshold, a)
  }

  /** The histogram reaches past every pdf id seen, and only as far as the largest. */
  lemma {:induction false} ReachBounds(F: seq<(int, real)>)
    requires forall i :: 0 <= i < |F| ==> F[i].0 >= 0
    ensures forall i :: 0 <= i < |F| ==> F[i].0 < Reach(F)
    ensures Reach(F) == 0 || exists i :: 0 <= i < |F| && F[i].0 == Reach(F) - 1
  {
    if |F| > 0 {
      var init := F[..|F| - 1];
      ReachBounds(init);
      if Reach(init) > 0 && Reach(F) == Reach(init) {
        var i :| 0 <= i < |init| && init[i].0 == Reach(init) - 1;
        assert F[i] == init[i];
      }
    }
  }

  /** Sum of the tallies of pdfs 0 .. m-1. */
  function SumTally(F: seq<(int, real)>, threshold: real, m: nat): nat
  {
    if m == 0 then 0 else SumTally(F, threshold, m - 1) + Tally(F, threshold, m - 1)
  }

  lemma {:induction false} SumTallySnoc(F: seq<(int, real)>, f: (int, real), threshold: real, m: nat)
    ensures SumTally(F + [f], threshold, m) == SumTally(F, threshold, m) + (if 0 <= f.0 < m && f.1 > threshold then 1 else 0)
  {
    assert (F + [f])[..|F + [f]| - 1] == F;
    if m > 0 {
      SumTallySnoc(F, f, threshold, m - 1);
    }
  }

  /** The histogram accounts for every frame above the threshold exactly once. */
  lemma {:induction false} HistogramTotal(F: seq<(int, real)>, threshold: real, m: nat)
    requires forall i :: 0 <= i < |F| ==> 0 <= F[i].0 < m
    ensures SumTally(F, threshold, m) == Above(F, threshold)
  {
    if |F| == 0 {
      SumTallyEmpty(F, threshold, m);
    } else {
      var init, last := F[..|F| - 1], F[|F| - 1];
      HistogramTotal(init, threshold, m);
      assert F == init + [last];
      SumTallySnoc(init, last, threshold, m);
    }
  }

  lemma {:induction false} SumTallyEmpty(F: seq<(int, real)>, threshold: real, m: nat)
    requires |F| == 0
    ensures SumTally(F, threshold, m) == 0
  {
    if m > 0 {
      SumTallyEmpty(F, threshold, m - 1);
    }
  }

  /** Adding one frame: grow the histogram to cover its pdf, count it when its weight is above the threshold. */
  method CountFrame(counts: seq<int>, ghost F: seq<(int, real)>, a: int, w: real, threshold: real)
    returns (counts': seq<int>)
    requires a >= 0 && Histogram(counts, F, threshold)
    ensures Histogram(counts', F + [(a, w)], threshold)
  {
    counts' := counts;
    ghost var G := F + [(a, w)];
    assert G[..|G| - 1] == F;
    while |counts'| <= a
      invariant |counts| <= |counts'| && (|counts'| == |counts| || |counts'| <= a + 1)
      invariant forall b :: 0 <= b < |counts'| ==> counts'[b] == Tally(F, threshold, b)
      decreases a - |counts'|
    {
      TallyBeyond(F, threshold, |counts'|);
      counts' := counts' + [0];
    }
    if w > threshold {
      counts' := counts'[a := counts'[a] + 1];
    }
  }

  /** No frame is aligned to a pdf at or beyond the histogram's length. */
  lemma {:induction false} TallyBeyond(F: seq<(int, real)>, threshold: real, a: int)
    requires a >= Reach(F)
    ensures Tally(F, threshold, a) == 0
  {
    if |F| > 0 {
      TallyBeyond(F[..|F| - 1], threshold, a);
    }
  }

  /** The frame loop of one utterance. */
  method CountUtterance(counts: seq<int>, ghost done: seq<(int, real)>, ali: seq<int>, w: seq<real>, threshold: real)
    returns (counts': seq<int>)
    requires |w| == |ali| && (forall j :: 0 <= j < |ali| ==> ali[j] >= 0) && Histogram(counts, done, threshold)
    ensures Histogram(counts', done + UttFrames(ali, w), threshold)
  {
    counts' := counts;
    ghost var U := UttFrames(ali, w);
    assert done + U[..0] == done;
    for j := 0 to |ali|
      invariant Histogram(counts', done + U[..j], threshold)
    {
      counts' := CountFrame(counts', done + U[..j], ali[j], w[j], threshold);
      assert done + U[..j] + [(ali[j], w[j])] == done + U[..j + 1];
    }
    assert U[..|ali|] == U;
  }

  /**
   * The tool: with 2 arguments no weights are read, with 3 the weights
   * table is used; any other count is a usage error (exit 1). A weights
   * vector of the wrong length is an error (exit -1).
   */
  method GetPdfCounts(numArgs: int, alis: seq<(string, seq<int>)>, weightTable: map<string, seq<real>>, threshold: real)
    returns (r: Outcome<(string, seq<int>)>)
    requires forall k, j :: 0 <= k < |alis| && 0 <= j < |alis[k].1| ==> alis[k].1[j] >= 0
    ensures numArgs < 2 || numArgs > 3 ==> r == Exit(1)
    ensures 2 <= numArgs <= 3 ==>
      var weights := if numArgs == 3 then Some(weightTable) else None;
      (r.Exit? <==> !WeightsFit(alis, weights)) && (r.Exit? ==> r.code == -1) &&
      (r.Done? ==> r.value.0 == "Counts" && Histogram(r.value.1, Frames(alis, weights), threshold))
  {
    if numArgs < 2 || numArgs > 3 {
      return Exit(1);
    }
    var weights := if numArgs == 3 then Some(weightTable) else None;
    var counts: seq<int> := [];
    for k := 0 to |alis|
      invariant WeightsFit(alis[..k], weights)
      invariant Histogram(counts, Frames(alis[..k], weights), threshold)
    {
      var key, ali := alis[k].0, alis[k].1;
      var w: seq<real>;
      if weights.Some? && key in weights.value {
        w := weights.value[key];
        if |w| != |ali| {
          assert !WeightsFit(alis, weights) by {
            assert alis[k] == (key, ali);
          }
          return Exit(-1);
        }
      } else {
        w := seq(|ali|, _ => 1.0);
      }
      assert w == UttWeights(alis[k], weights);
      counts := CountUtterance(counts, Frames(alis[..k], weights), ali, w, threshold);
      assert alis[..k + 1][..k] == alis[..k];
    }
    assert alis[..|alis|] == alis;
    r := Done(("Counts", counts));
  }
}
