/**
 * merge_pred: concatenates the per-utterance phone predictions of each
 * recording into one prediction for the recording, padding with "SIL" from
 * the end of what is already placed to each utterance's start frame. The
 * segments file is read in order; a run of consecutive lines of the same
 * recording forms that recording's prediction, written when the recording id
 * changes and once more after the last line.
 */
module MergePred {
  import opened Outcomes

  /** One segments-file line: utterance, recording and start frame (start time over frame shift, truncated). */
  datatype Seg = Seg(utt: string, reco: string, start: int)

  function Sil(n: nat): (s: seq<string>)
    ensures |s| == n && forall q :: 0 <= q < n ==> s[q] == "SIL"
  {
    seq(n, _ => "SIL")
  }

  /**
   * One line added to a prediction: pad with "SIL" up to the line's start,
   * then append its utterance's tokens. None when the utterance has no
   * prediction file or the line starts before the end of what is placed.
   */
  function Extend(prev: Option<seq<string>>, s: Seg, preds: map<string, seq<string>>): Option<seq<string>>
  {
    if prev.None? || s.utt !in preds || s.start < |prev.value| then None
    else Some(prev.value + Sil(s.start - |prev.value|) + preds[s.utt])
  }

  /** The prediction of a run of lines. */
  function MergeRun(run: seq<Seg>, preds: map<string, seq<string>>): Option<seq<string>>
  {
    if |run| == 0 then Some([]) else Extend(MergeRun(run[..|run| - 1], preds), run[|run| - 1], preds)
  }

  /** A run can be merged when its utterances have predictions and no line starts inside the previous one. */
  predicate Fits(run: seq<Seg>, preds: map<string, seq<string>>)
  {
    (forall j :: 0 <= j < |run| ==> run[j].utt in preds) &&
    (|run| > 0 ==> run[0].start >= 0) &&
    (forall j :: 0 <= j < |run| - 1 ==> run[j + 1].start >= run[j].start + |preds[run[j].utt]|)
  }

  /** A run merges exactly when it fits; the merged prediction then ends with the last utterance's tokens. */
  lemma {:induction false} MergeRunFits(run: seq<Seg>, preds: map<string, seq<string>>)
    ensures MergeRun(run, preds).Some? <==> Fits(run, preds)
    ensures MergeRun(run, preds).Some? && |run| > 0 ==>
      |MergeRun(run, preds).value| == run[|run| - 1].start + |preds[run[|run| - 1].utt]|
  {
    if |run| > 0 {
      var init := run[..|run| - 1];
      var s := run[|run| - 1];
      MergeRunFits(init, preds);
      assert forall j :: 0 <= j < |init| ==> init[j] == run[j];
      if |init| > 0 {
        assert Fits(run, preds) <==>
          (Fits(init, preds) && s.utt in preds && s.start >= init[|init| - 1].start + |preds[init[|init| - 1].utt]|);
      }
    }
  }

  /** Where a line's tokens sit in a merged prediction. */
  predicate PlacedAt(p: seq<string>, s: Seg, preds: map<string, seq<string>>)
  {
    s.utt in preds && 0 <= s.start && s.start + |preds[s.utt]| <= |p| &&
    p[s.start..s.start + |preds[s.utt]|] == preds[s.utt]
  }

  /** Every utterance's tokens sit at its start frame in the merged prediction. */
  lemma {:induction false} MergeRunPlaces(run: seq<Seg>, preds: map<string, seq<string>>)
    requires MergeRun(run, preds).Some?
    ensures forall j :: 0 <= j < |run| ==> PlacedAt(MergeRun(run, preds).value, run[j], preds)
  {
    if |run| > 0 {
      var init := run[..|run| - 1];
      var s := run[|run| - 1];
      MergeRunPlaces(init, preds);
      var prev := MergeRun(init, preds).value;
      var p := MergeRun(run, preds).value;
      assert p == prev + Sil(s.start - |prev|) + preds[s.utt];
      forall j | 0 <= j < |run| ensures PlacedAt(p, run[j], preds) {
        if j < |init| {
          assert run[j] == init[j] && PlacedAt(prev, init[j], preds);
          assert p[..|prev|] == prev;
          assert p[run[j].start..run[j].start + |preds[run[j].utt]|] == prev[run[j].start..run[j].start + |preds[run[j].utt]|];
        } else {
          assert p[s.start..] == preds[s.utt];
        }
      }
    }
  }

  predicate Covered(run: seq<Seg>, preds: map<string, seq<string>>, q: int)
  {
    exists j :: 0 <= j < |run| && run[j].utt in preds && run[j].start <= q < run[j].start + |preds[run[j].utt]|
  }

  /** Every frame of the merged prediction that no utterance covers is "SIL". */
  lemma {:induction false} MergeRunSil(run: seq<Seg>, preds: map<string, seq<string>>)
    requires MergeRun(run, preds).Some?
    ensures forall q :: 0 <= q < |MergeRun(run, preds).value| && !Covered(run, preds, q) ==>
      MergeRun(run, preds).value[q] == "SIL"
  {
    if |run| > 0 {
      var init := run[..|run| - 1];
      var s := run[|run| - 1];
      MergeRunSil(init, preds);
      var prev := MergeRun(init, preds).value;
      var p := MergeRun(run, preds).value;
      assert p == prev + Sil(s.start - |prev|) + preds[s.utt];
      forall q | 0 <= q < |p| && !Covered(run, preds, q) ensures p[q] == "SIL" {
        CoveredGrows(run, preds, q);
        if q < |prev| {
          assert p[q] == prev[q];
        }
      }
    }
  }

  /** A frame covered by a run's first lines or by its last line is covered by the run. */
  lemma CoveredGrows(run: seq<Seg>, preds: map<string, seq<string>>, q: int)
    requires |run| > 0
    ensures Covered(run[..|run| - 1], preds, q) ==> Covered(run, preds, q)
    ensures var s := run[|run| - 1];
      s.utt in preds && s.start <= q < s.start + |preds[s.utt]| ==> Covered(run, preds, q)
  {
    var init := run[..|run| - 1];
    if Covered(init, preds, q) {
      var j :| 0 <= j < |init| && init[j].utt in preds && init[j].start <= q < init[j].start + |preds[init[j].utt]|;
      assert run[j] == init[j];
    }
  }

  // ---------------------------------------------------------------- runs

  /** The first line of the run of same-recording lines that ends with line i. */
  function RunStart(segs: seq<Seg>, i: nat): (j: nat)
    requires i < |segs|
    ensures j <= i
    ensures forall k :: j <= k <= i ==> segs[k].reco == segs[i].reco
    ensures j == 0 || segs[j - 1].reco != segs[i].reco
  {
    if i == 0 || segs[i - 1].reco != segs[i].reco then i else RunStart(segs, i - 1)
  }

  /** The prediction of line i's run so far, line i included. */
  function Current(segs: seq<Seg>, preds: map<string, seq<string>>, i: nat): Option<seq<string>>
    requires i < |segs|
  {
    MergeRun(segs[RunStart(segs, i)..i + 1], preds)
  }

  /** What line i's run had placed before line i: nothing at a change of recording. */
  function Before(segs: seq<Seg>, preds: map<string, seq<string>>, i: nat): Option<seq<string>>
    requires i < |segs|
  {
    if i == 0 || segs[i - 1].reco != segs[i].reco then Some([]) else Current(segs, preds, i - 1)
  }

  lemma CurrentStep(segs: seq<Seg>, preds: map<string, seq<string>>, i: nat)
    requires i < |segs|
    ensures Current(segs, preds, i) == Extend(Before(segs, preds, i), segs[i], preds)
  {
    var j := RunStart(segs, i);
    var run := segs[j..i + 1];
    assert run[..|run| - 1] == segs[j..i];
    assert Current(segs, preds, i) == Extend(MergeRun(segs[j..i], preds), segs[i], preds);
    if i > 0 && segs[i - 1].reco == segs[i].reco {
      assert j == RunStart(segs, i - 1);
      assert Before(segs, preds, i) == MergeRun(segs[j..i], preds);
    } else {
      assert j == i;
    }
  }

  /** Every line so far fitted onto its run. */
  predicate AllFit(segs: seq<Seg>, preds: map<string, seq<string>>, n: nat)
    requires n <= |segs|
  {
    forall i :: 0 <= i < n ==> Current(segs, preds, i).Some?
  }

  /** The files written while reading the first n lines: one per change of recording id. */
  function Flushed(segs: seq<Seg>, preds: map<string, seq<string>>, n: nat): seq<(string, seq<string>)>
    requires n <= |segs| && AllFit(segs, preds, n)
  {
    if n <= 1 then []
    else
      Flushed(segs, preds, n - 1) +
      (if segs[n - 1].reco != segs[n - 2].reco then [(segs[n - 2].reco, Current(segs, preds, n - 2).value)] else [])
  }

  /**
   * Consecutive files written are for different recordings, and the last one
   * written is not for line n - 1's recording, so the final write after the
   * loop continues the alternation.
   */
  lemma {:induction false} FlushedAlternate(segs: seq<Seg>, preds: map<string, seq<string>>, n: nat)
    requires n <= |segs| && AllFit(segs, preds, n)
    ensures forall t :: 0 <= t < |Flushed(segs, preds, n)| - 1 ==>
      Flushed(segs, preds, n)[t].0 != Flushed(segs, preds, n)[t + 1].0
    ensures n >= 1 && |Flushed(segs, preds, n)| > 0 ==>
      Flushed(segs, preds, n)[|Flushed(segs, preds, n)| - 1].0 != segs[n - 1].reco
  {
    if n > 1 {
      FlushedAlternate(segs, preds, n - 1);
    }
  }

  /** Line i's check, given that the lines before it fitted. */
  lemma FitStep(segs: seq<Seg>, preds: map<string, seq<string>>, i: nat)
    requires i < |segs| && AllFit(segs, preds, i)
    ensures Current(segs, preds, i).Some? ==>
      AllFit(segs, preds, i + 1) &&
      Flushed(segs, preds, i + 1) == Flushed(segs, preds, i) +
        (if i > 0 && segs[i].reco != segs[i - 1].reco then [(segs[i - 1].reco, Current(segs, preds, i - 1).value)] else [])
    ensures Current(segs, preds, i).None? ==> !AllFit(segs, preds, |segs|)
  {
  }

  /**
   * One line's body: open its prediction file, pad with "SIL" up to its
   * start, check that the start is where the placed prediction ends, append.
   */
  method AddLine(pred: seq<string>, s: Seg, preds: map<string, seq<string>>) returns (ok: bool, next: seq<string>)
    ensures ok <==> Extend(Some(pred), s, preds).Some?
    ensures ok ==> Extend(Some(pred), s, preds) == Some(next)
  {
    next := pred;
    if s.utt !in preds {
      return false, next;
    }
    if s.start > |next| {
      next := next + Sil(s.start - |next|);
    }
    if s.start != |next| {
      return false, next;
    }
    assert next == pred + Sil(s.start - |pred|);
    next := next + preds[s.utt];
    ok := true;
  }

  /**
   * merge_pred's main: reads the lines in order; when the recording id
   * changes the previous recording's prediction is written and restarted.
   * Exit 1 when an utterance has no prediction file, when a line starts
   * before the end of what its run has placed, or when there are no lines.
   */
  method MergePredictions(segs: seq<Seg>, preds: map<string, seq<string>>)
    returns (r: Outcome<seq<(string, seq<string>)>>)
    ensures r.Exit? ==> r.code == 1
    ensures r.Done? <==> |segs| > 0 && AllFit(segs, preds, |segs|)
    ensures r.Done? ==>
      r.value == Flushed(segs, preds, |segs|) + [(segs[|segs| - 1].reco, Current(segs, preds, |segs| - 1).value)]
  {
    var written: seq<(string, seq<string>)> := [];
    var pred: seq<string> := [];
    var prevReco: Option<string> := None;
    for i := 0 to |segs|
      invariant AllFit(segs, preds, i)
      invariant written == Flushed(segs, preds, i)
      invariant i == 0 ==> prevReco == None && pred == []
      invariant i > 0 ==> prevReco == Some(segs[i - 1].reco) && Current(segs, preds, i - 1) == Some(pred)
    {
      var s := segs[i];
      if prevReco.Some? && s.reco != prevReco.value {
        written := written + [(prevReco.value, pred)];
        pred := [];
      }
      CurrentStep(segs, preds, i);
      FitStep(segs, preds, i);
      assert Before(segs, preds, i) == Some(pred);
      var ok;
      ok, pred := AddLine(pred, s, preds);
      if !ok {
        return Exit(1);
      }
      prevReco := Some(s.reco);
    }
    if prevReco.None? {
      return Exit(1);
    }
    r := Done(written + [(prevReco.value, pred)]);
  }
}
