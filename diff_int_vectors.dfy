/**
 * diff-int-vectors: for every key of the first table that the second also
 * holds with a vector of the same length, the fraction of positions where
 * the two integer vectors agree. Floating-point division is modelled on
 * reals; two empty vectors give 0 / 0, which is NaN.
 */
module DiffIntVectors {

  /** A written value: score / size, or NaN for empty vectors. */
  datatype Value = Ratio(r: real) | NaN

  /** The number of positions where the vectors agree. */
  function Agreement(v1: seq<int>, v2: seq<int>): nat
    requires |v1| == |v2|
  {
    if |v1| == 0 then 0
    else Agreement(v1[..|v1| - 1], v2[..|v2| - 1]) + (if v1[|v1| - 1] == v2[|v2| - 1] then 1 else 0)
  }

  /** The score loop. */
  method Score(v1: seq<int>, v2: seq<int>) returns (score: int)
    requires |v1| == |v2|
    ensures score == Agreement(v1, v2)
  {
    score := 0;
    for i := 0 to |v1|
      invariant score == Agreement(v1[..i], v2[..i])
    {
      assert v1[..i + 1][..i] == v1[..i] && v2[..i + 1][..i] == v2[..i];
      score := score + if v1[i] == v2[i] then 1 else 0;
    }
    assert v1[..|v1|] == v1 && v2[..|v2|] == v2;
  }

  /** The score is at most the size, and reaches it exactly when the vectors are identical. */
  lemma {:induction false} AgreementBounds(v1: seq<int>, v2: seq<int>)
    requires |v1| == |v2|
    ensures Agreement(v1, v2) <= |v1|
    ensures Agreement(v1, v2) == |v1| <==> v1 == v2
  {
    if |v1| > 0 {
      var n := |v1| - 1;
      AgreementBounds(v1[..n], v2[..n]);
      assert v1 == v1[..n] + [v1[n]] && v2 == v2[..n] + [v2[n]];
      if Agreement(v1, v2) == |v1| {
        assert v1[..n] == v2[..n] && v1[n] == v2[n];
      }
    }
  }

  /** The value written for two vectors of one length. */
  function Fraction(score: int, size: int): Value
  {
    if size == 0 then NaN else Ratio(score as real / size as real)
  }

  /** The written value lies in [0, 1] and is 1 exactly when the (non-empty) vectors are identical. */
  lemma FractionMeaning(v1: seq<int>, v2: seq<int>)
    requires |v1| == |v2|
    ensures var f := Fraction(Agreement(v1, v2), |v1|);
      (f.NaN? <==> |v1| == 0) &&
      (f.Ratio? ==> 0.0 <= f.r <= 1.0 && (f.r == 1.0 <==> v1 == v2))
  {
    AgreementBounds(v1, v2);
    if |v1| > 0 {
      DivAtMostOne(Agreement(v1, v2) as real, |v1| as real);
    }
  }

  /** For a positive size, the ratio lies in [0, 1] and is 1 exactly when the score is the size. */
  lemma DivAtMostOne(a: real, n: real)
    requires 0.0 <= a <= n && n > 0.0
    ensures 0.0 <= a / n <= 1.0
    ensures a / n == 1.0 <==> a == n
  {
    assert a / n * n == a;
  }

  /** The outcome of one key of the first table. */
  datatype Step = Written(key: string, value: Value) | Missing | Mismatch

  function StepFor(u: (string, seq<int>), reader2: map<string, seq<int>>): Step
  {
    if u.0 !in reader2 then Missing
    else if |reader2[u.0]| != |u.1| then Mismatch
    else Written(u.0, Fraction(Agreement(u.1, reader2[u.0]), |u.1|))
  }

  /** The written (key, value) pairs for the keys of the first table, in order. */
  function WrittenOf(reader1: seq<(string, seq<int>)>, reader2: map<string, seq<int>>): seq<(string, Value)>
  {
    if |reader1| == 0 then []
    else
      var s := StepFor(reader1[|reader1| - 1], reader2);
      WrittenOf(reader1[..|reader1| - 1], reader2) + (if s.Written? then [(s.key, s.value)] else [])
  }

  function CountSteps(reader1: seq<(string, seq<int>)>, reader2: map<string, seq<int>>, missing: bool): nat
  {
    if |reader1| == 0 then 0
    else
      var s := StepFor(reader1[|reader1| - 1], reader2);
      CountSteps(reader1[..|reader1| - 1], reader2, missing) +
      (if (missing && s.Missing?) || (!missing && s.Mismatch?) then 1 else 0)
  }

  /** Every key is written, missing or mismatched: the three counts add up to the number of keys read. */
  lemma {:induction false} StepsPartition(reader1: seq<(string, seq<int>)>, reader2: map<string, seq<int>>)
    ensures |WrittenOf(reader1, reader2)| + CountSteps(reader1, reader2, true) + CountSteps(reader1, reader2, false) == |reader1|
  {
    if |reader1| > 0 {
      StepsPartition(reader1[..|reader1| - 1], reader2);
    }
  }

  /**
   * The tool: exactly 3 arguments (else exit 1); every key of the first
   * table is counted as done; the exit status is 0 exactly when at least one
   * key was read.
   */
  method DiffAll(numArgs: int, reader1: seq<(string, seq<int>)>, reader2: map<string, seq<int>>)
    returns (written: seq<(string, Value)>, numDone: nat, numMissing: nat, numMismatch: nat, status: int)
    ensures numArgs != 3 ==> status == 1 && written == []
    ensures numArgs == 3 ==>
      written == WrittenOf(reader1, reader2) && numDone == |reader1| &&
      numMissing == CountSteps(reader1, reader2, true) && numMismatch == CountSteps(reader1, reader2, false) &&
      (status == 0 <==> numDone != 0) && (status == 0 || status == 1)
  {
    written, numDone, numMissing, numMismatch := [], 0, 0, 0;
    if numArgs != 3 {
      return written, numDone, numMissing, numMismatch, 1;
    }
    while numDone < |reader1|
      invariant numDone <= |reader1|
      invariant written == WrittenOf(reader1[..numDone], reader2)
      invariant numMissing == CountSteps(reader1[..numDone], reader2, true)
      invariant numMismatch == CountSteps(reader1[..numDone], reader2, false)
    {
      assert reader1[..numDone + 1][..numDone] == reader1[..numDone];
      var key, v1 := reader1[numDone].0, reader1[numDone].1;
      if key !in reader2 {
        numMissing := numMissing + 1;
        numDone := numDone + 1;
        continue;
      }
      var v2 := reader2[key];
      if |v1| != |v2| {
        numMismatch := numMismatch + 1;
        numDone := numDone + 1;
        continue;
      }
      var size := |v1|;
      var score := Score(v1, v2);
      written := written + [(key, if size == 0 then NaN else Ratio(score as real / size as real))];
      numDone := numDone + 1;
    }
    assert reader1[..|reader1|] == reader1;
    status := if numDone != 0 then 0 else 1;
  }
}
