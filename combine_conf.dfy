/**
 * combine-conf: for every utterance of the primary system, the per-frame
 * alignment and confidence of the system that is most confident at that
 * frame. Secondary systems are tried in order; one with vectors of the wrong
 * length is skipped, and the first one missing the utterance ends the search.
 * Weights are modelled as reals (they are only compared and copied).
 */
module CombineConf {
  import opened Outcomes

  /** A secondary system's alignments and weights by utterance key. */
  datatype System = System(ali: map<string, seq<int>>, weights: map<string, seq<real>>)

  /** An utterance written by the tool. */
  datatype Written = Written(key: string, ali: seq<int>, weights: seq<real>)

  /** The number of secondary systems named by the arguments, or None when the usage is wrong. */
  function SecondarySystems(numArgs: int): (r: Option<nat>)
    ensures r.Some? <==> numArgs >= 4 && numArgs % 2 == 0
    ensures r.Some? ==> 2 * r.value + 4 == numArgs
  {
    if numArgs < 4 || numArgs % 2 != 0 then None else Some((numArgs - 4) / 2)
  }

  predicate Present(key: string, s: System)
  {
    key in s.ali && key in s.weights
  }

  predicate Fits(key: string, s: System, n: int)
    requires Present(key, s)
  {
    |s.ali[key]| == n && |s.weights[key]| == n
  }

  /** The index of the first secondary system from m on that lacks the key, or |others|. */
  function FirstMissing(key: string, others: seq<System>, m: nat): (f: nat)
    requires m <= |others|
    ensures m <= f <= |others|
    ensures forall j :: m <= j < f ==> Present(key, others[j])
    ensures f < |others| ==> !Present(key, others[f])
    decreases |others| - m
  {
    if m == |others| then m
    else if !Present(key, others[m]) then m
    else FirstMissing(key, others, m + 1)
  }

  /** The vectors of the first m secondary systems that have the key with n frames. */
  function Fitting(key: string, others: seq<System>, n: int, m: nat): (C: seq<(seq<int>, seq<real>)>)
    requires m <= |others| && forall j :: 0 <= j < m ==> Present(key, others[j])
    ensures forall k :: 0 <= k < |C| ==> |C[k].0| == n && |C[k].1| == n
  {
    if m == 0 then []
    else
      Fitting(key, others, n, m - 1) +
      (if Fits(key, others[m - 1], n) then [(others[m - 1].ali[key], others[m - 1].weights[key])] else [])
  }

  /** How many of the first m secondary systems have the key with the wrong length. */
  function Misfits(key: string, others: seq<System>, n: int, m: nat): nat
    requires m <= |others| && forall j :: 0 <= j < m ==> Present(key, others[j])
  {
    if m == 0 then 0
    else Misfits(key, others, n, m - 1) + (if Fits(key, others[m - 1], n) then 0 else 1)
  }

  /** The systems that take part for one utterance: the primary, then the fitting secondaries before the first missing one. */
  function Participants(key: string, ali0: seq<int>, w0: seq<real>, others: seq<System>): seq<(seq<int>, seq<real>)>
  {
    [(ali0, w0)] + Fitting(key, others, |ali0|, FirstMissing(key, others, 0))
  }

  predicate Aligned(C: seq<(seq<int>, seq<real>)>, n: int)
  {
    forall k :: 0 <= k < |C| ==> |C[k].0| == n && |C[k].1| == n
  }

  /**
   * At frame i the output (a, x) comes from system k, whose weight is the
   * largest of all systems and strictly larger than every earlier system's.
   */
  predicate Winner(C: seq<(seq<int>, seq<real>)>, i: int, k: int, a: int, x: real)
    requires 0 <= i && forall k' :: 0 <= k' < |C| ==> i < |C[k'].0| && i < |C[k'].1|
  {
    0 <= k < |C| && a == C[k].0[i] && x == C[k].1[i] &&
    (forall j :: 0 <= j < |C| ==> C[j].1[i] <= x) &&
    (forall j :: 0 <= j < k ==> C[j].1[i] < x)
  }

  /** Some system wins frame i with output (a, x). */
  predicate HasWinner(C: seq<(seq<int>, seq<real>)>, i: int, a: int, x: real)
    requires 0 <= i && forall k' :: 0 <= k' < |C| ==> i < |C[k'].0| && i < |C[k'].1|
  {
    exists k :: 0 <= k < |C| && Winner(C, i, k, a, x)
  }

  /** Each frame's output comes from a winning system. */
  predicate Combined(C: seq<(seq<int>, seq<real>)>, ali: seq<int>, w: seq<real>)
  {
    |ali| == |w| && Aligned(C, |ali|) &&
    forall i :: 0 <= i < |ali| ==> HasWinner(C, i, ali[i], w[i])
  }

  /** The winner of a frame is unique: the first system with the largest weight. */
  lemma WinnerUnique(C: seq<(seq<int>, seq<real>)>, i: int, k1: int, k2: int, a1: int, x1: real, a2: int, x2: real)
    requires 0 <= i && forall k' :: 0 <= k' < |C| ==> i < |C[k'].0| && i < |C[k'].1|
    requires Winner(C, i, k1, a1, x1) && Winner(C, i, k2, a2, x2)
    ensures k1 == k2 && a1 == a2 && x1 == x2
  {
    assert C[k2].1[i] <= x1 && C[k1].1[i] <= x2;
  }

  /** With no secondary system taking part, the output is the primary system's vectors. */
  lemma {:induction false} PrimaryOnly(C: seq<(seq<int>, seq<real>)>, ali: seq<int>, w: seq<real>)
    requires |C| == 1 && Combined(C, ali, w)
    ensures ali == C[0].0 && w == C[0].1
  {
    forall i | 0 <= i < |ali|
      ensures ali[i] == C[0].0[i] && w[i] == C[0].1[i]
    {
      assert HasWinner(C, i, ali[i], w[i]);
      var k :| 0 <= k < |C| && Winner(C, i, k, ali[i], w[i]);
      assert k == 0;
    }
  }

  /** The output weight of every frame is at least every participating system's weight there. */
  lemma CombinedIsMax(C: seq<(seq<int>, seq<real>)>, ali: seq<int>, w: seq<real>, i: int, j: int)
    requires Combined(C, ali, w) && 0 <= i < |ali| && 0 <= j < |C|
    ensures C[j].1[i] <= w[i]
  {
    assert HasWinner(C, i, ali[i], w[i]);
    var k :| 0 <= k < |C| && Winner(C, i, k, ali[i], w[i]);
  }

  /** A winning system for every frame makes the output combined. */
  lemma WinnersCombine(C: seq<(seq<int>, seq<real>)>, ali: seq<int>, w: seq<real>, win: seq<int>)
    requires |ali| == |w| == |win| && Aligned(C, |ali|)
    requires forall i :: 0 <= i < |ali| ==> Winner(C, i, win[i], ali[i], w[i])
    ensures Combined(C, ali, w)
  {
    forall i | 0 <= i < |ali|
      ensures HasWinner(C, i, ali[i], w[i])
    {
      assert 0 <= win[i] < |C| && Winner(C, i, win[i], ali[i], w[i]);
    }
  }

  /** The inner frame loop: a frame takes the new system's pdf and weight when its weight is strictly larger. */
  method TakeLarger(ali: seq<int>, w: seq<real>, a: seq<int>, x: seq<real>) returns (ali': seq<int>, w': seq<real>)
    requires |ali| == |w| == |a| == |x|
    ensures |ali'| == |w'| == |ali|
    ensures forall i :: 0 <= i < |ali| ==>
      if x[i] > w[i] then ali'[i] == a[i] && w'[i] == x[i] else ali'[i] == ali[i] && w'[i] == w[i]
  {
    ali', w' := ali, w;
    for i := 0 to |ali|
      invariant |ali'| == |w'| == |ali|
      invariant forall j :: 0 <= j < i ==>
        if x[j] > w[j] then ali'[j] == a[j] && w'[j] == x[j] else ali'[j] == ali[j] && w'[j] == w[j]
      invariant forall j :: i <= j < |ali| ==> ali'[j] == ali[j] && w'[j] == w[j]
    {
      if x[i] > w'[i] {
        w' := w'[i := x[i]];
        ali' := ali'[i := a[i]];
      }
    }
  }

  /** Appending a system keeps the old winner unless the new system's weight is strictly larger. */
  lemma WinnerStep(C: seq<(seq<int>, seq<real>)>, n: int, s: (seq<int>, seq<real>), i: int, k: int, a: int, x: real)
    requires Aligned(C, n) && |s.0| == n && |s.1| == n && 0 <= i < n
    requires Winner(C, i, k, a, x)
    ensures Aligned(C + [s], n)
    ensures s.1[i] > x ==> Winner(C + [s], i, |C|, s.0[i], s.1[i])
    ensures !(s.1[i] > x) ==> Winner(C + [s], i, k, a, x)
  {
  }

  /** The winners after folding in one more system with vectors (a, x). */
  lemma WinnersStep(C: seq<(seq<int>, seq<real>)>, n: int, a: seq<int>, x: seq<real>,
                    ali1: seq<int>, w1: seq<real>, win1: seq<int>, ali: seq<int>, w: seq<real>)
    returns (win: seq<int>)
    requires Aligned(C, n) && |a| == n && |x| == n && |ali1| == n && |w1| == n && |win1| == n
    requires forall i :: 0 <= i < n ==> Winner(C, i, win1[i], ali1[i], w1[i])
    requires |ali| == n && |w| == n
    requires forall i :: 0 <= i < n ==>
      if x[i] > w1[i] then ali[i] == a[i] && w[i] == x[i] else ali[i] == ali1[i] && w[i] == w1[i]
    ensures |win| == n && Aligned(C + [(a, x)], n)
    ensures forall i :: 0 <= i < n ==> Winner(C + [(a, x)], i, win[i], ali[i], w[i])
  {
    win := seq(n, i requires 0 <= i < n => if x[i] > w1[i] then |C| else win1[i]);
    forall i | 0 <= i < n
      ensures Winner(C + [(a, x)], i, win[i], ali[i], w[i])
    {
      WinnerStep(C, n, (a, x), i, win1[i], ali1[i], w1[i]);
    }
  }

  /**
   * One utterance: starts from the primary system's vectors and folds in the
   * secondary systems in order, skipping those of the wrong length and
   * stopping at the first one missing the utterance.
   */
  method CombineUtterance(key: string, ali0: seq<int>, w0: seq<real>, others: seq<System>)
    returns (ali: seq<int>, w: seq<real>, missing: nat, mismatch: nat)
    requires |w0| == |ali0|
    ensures |ali| == |ali0| && Combined(Participants(key, ali0, w0, others), ali, w)
    ensures missing == (if FirstMissing(key, others, 0) < |others| then 1 else 0)
    ensures mismatch == Misfits(key, others, |ali0|, FirstMissing(key, others, 0))
  {
    var n := |ali0|;
    ali, w := ali0, w0;
    missing, mismatch := 0, 0;
    ghost var C: seq<(seq<int>, seq<real>)> := [(ali0, w0)];
    ghost var win: seq<int> := seq(n, _ => 0);
    ghost var f := FirstMissing(key, others, 0);
    var sys := 0;
    while sys < |others|
      invariant 0 <= sys <= f && missing == 0
      invariant C == [(ali0, w0)] + Fitting(key, others, n, sys) && Aligned(C, n)
      invariant mismatch == Misfits(key, others, n, sys)
      invariant |ali| == n && |w| == n && |win| == n
      invariant forall i :: 0 <= i < n ==> Winner(C, i, win[i], ali[i], w[i])
      decreases |others| - sys
    {
      var s := others[sys];
      if key in s.ali && key in s.weights {
        var a, x := s.ali[key], s.weights[key];
        if |a| != n || |x| != n {
          mismatch := mismatch + 1;
          sys := sys + 1;
          continue;
        }
        ghost var ali1, w1 := ali, w;
        ali, w := TakeLarger(ali, w, a, x);
        win := WinnersStep(C, n, a, x, ali1, w1, win, ali, w);
        C := C + [(a, x)];
        sys := sys + 1;
      } else {
        missing := missing + 1;
        break;
      }
    }
    assert sys == f;
    assert C == Participants(key, ali0, w0, others);
    WinnersCombine(C, ali, w, win);
  }

  /** The primary system has weights of the right length for this utterance. */
  predicate PrimaryOk(u: (string, seq<int>), weights0: map<string, seq<real>>)
  {
    u.0 in weights0 && |weights0[u.0]| == |u.1|
  }

  /** The utterances that are written, in reading order. */
  function Kept(primary: seq<(string, seq<int>)>, weights0: map<string, seq<real>>): (K: seq<(string, seq<int>)>)
    ensures forall t :: 0 <= t < |K| ==> PrimaryOk(K[t], weights0)
    ensures |K| <= |primary|
  {
    if |primary| == 0 then []
    else
      var last := primary[|primary| - 1];
      Kept(primary[..|primary| - 1], weights0) + (if PrimaryOk(last, weights0) then [last] else [])
  }

  /** What one utterance adds to the missing counter. */
  function MissingOf(u: (string, seq<int>), weights0: map<string, seq<real>>, others: seq<System>): nat
  {
    if u.0 !in weights0 then 1
    else if |weights0[u.0]| != |u.1| then 0
    else if FirstMissing(u.0, others, 0) < |others| then 1 else 0
  }

  /** What one utterance adds to the mismatch counter. */
  function MismatchOf(u: (string, seq<int>), weights0: map<string, seq<real>>, others: seq<System>): nat
  {
    if u.0 !in weights0 then 0
    else if |weights0[u.0]| != |u.1| then 1
    else Misfits(u.0, others, |u.1|, FirstMissing(u.0, others, 0))
  }

  function MissingCount(primary: seq<(string, seq<int>)>, weights0: map<string, seq<real>>, others: seq<System>): nat
  {
    if |primary| == 0 then 0
    else MissingCount(primary[..|primary| - 1], weights0, others) + MissingOf(primary[|primary| - 1], weights0, others)
  }

  function MismatchCount(primary: seq<(string, seq<int>)>, weights0: map<string, seq<real>>, others: seq<System>): nat
  {
    if |primary| == 0 then 0
    else MismatchCount(primary[..|primary| - 1], weights0, others) + MismatchOf(primary[|primary| - 1], weights0, others)
  }

  /** A written utterance: the key of a kept utterance and its combined vectors. */
  predicate WrittenFor(o: Written, u: (string, seq<int>), weights0: map<string, seq<real>>, others: seq<System>)
    requires PrimaryOk(u, weights0)
  {
    o.key == u.0 && |o.ali| == |u.1| && Combined(Participants(u.0, u.1, weights0[u.0], others), o.ali, o.weights)
  }

  /** An utterance is written exactly when the primary system has weights of its length. */
  lemma {:induction false} KeptExactly(primary: seq<(string, seq<int>)>, weights0: map<string, seq<real>>, u: (string, seq<int>))
    ensures u in Kept(primary, weights0) <==> u in primary && PrimaryOk(u, weights0)
  {
    if |primary| > 0 {
      var init, last := primary[..|primary| - 1], primary[|primary| - 1];
      KeptExactly(init, weights0, u);
      assert primary == init + [last];
    }
  }

  /**
   * The tool over all utterances of the primary system: writes the combined
   * vectors of each utterance whose primary weights are present and of the
   * right length, counts missing and mismatched vectors, and succeeds when
   * something was written and the failures are fewer than the clean
   * utterances.
   */
  method CombineAll(primary: seq<(string, seq<int>)>, weights0: map<string, seq<real>>, others: seq<System>)
    returns (out: seq<Written>, nSuccess: nat, nMissing: nat, nMismatch: nat, status: int)
    ensures nSuccess == |out| == |Kept(primary, weights0)|
    ensures forall t :: 0 <= t < |out| ==> WrittenFor(out[t], Kept(primary, weights0)[t], weights0, others)
    ensures nMissing == MissingCount(primary, weights0, others)
    ensures nMismatch == MismatchCount(primary, weights0, others)
    ensures status == 0 <==> nSuccess != 0 && nMissing + nMismatch < nSuccess - nMissing - nMismatch
    ensures status == 0 || status == 1
  {
    out, nSuccess, nMissing, nMismatch := [], 0, 0, 0;
    for k := 0 to |primary|
      invariant nSuccess == |out| == |Kept(primary[..k], weights0)|
      invariant forall t :: 0 <= t < |out| ==> WrittenFor(out[t], Kept(primary[..k], weights0)[t], weights0, others)
      invariant nMissing == MissingCount(primary[..k], weights0, others)
      invariant nMismatch == MismatchCount(primary[..k], weights0, others)
    {
      assert primary[..k + 1][..k] == primary[..k];
      var key, ali0 := primary[k].0, primary[k].1;
      if key in weights0 {
        var w0 := weights0[key];
        if |w0| == |ali0| {
          var ali, w, missing, mismatch := CombineUtterance(key, ali0, w0, others);
          out := out + [Written(key, ali, w)];
          nSuccess := nSuccess + 1;
          nMissing, nMismatch := nMissing + missing, nMismatch + mismatch;
        } else {
          nMismatch := nMismatch + 1;
        }
      } else {
        nMissing := nMissing + 1;
      }
    }
    assert primary[..|primary|] == primary;
    status := if nSuccess != 0 && nMissing + nMismatch < nSuccess - nMissing - nMismatch then 0 else 1;
  }
}
