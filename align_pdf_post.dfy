/**
 * pdf-post-to-align-pdf-post: for every frame of an utterance, the posterior
 * that the frame's posterior list gives to the frame's aligned pdf (the
 * first entry with that pdf), as a one-entry posterior, together with a
 * per-frame weights vector and its average. A frame with no such entry gets
 * 0. Posteriors are modelled as reals; -1 is the source's "not found" mark.
 */
module AlignPdfPost {
  import opened Outcomes

  /** The posterior of the first entry of a frame's list with pdf a. */
  function FirstMatch(entries: seq<(int, real)>, a: int): (m: Option<real>)
    ensures m.Some? ==> exists j :: 0 <= j < |entries| && entries[j] == (a, m.value)
  {
    if |entries| == 0 then None
    else if entries[0].0 == a then Some(entries[0].1)
    else FirstMatch(entries[1..], a)
  }

  /** FirstMatch finds the first entry with pdf a, and finds nothing only when no entry has it. */
  lemma {:induction false} FirstMatchMeaning(entries: seq<(int, real)>, a: int)
    ensures FirstMatch(entries, a).None? <==> forall j :: 0 <= j < |entries| ==> entries[j].0 != a
    ensures FirstMatch(entries, a).Some? ==>
      exists j :: 0 <= j < |entries| && entries[j] == (a, FirstMatch(entries, a).value) &&
        forall j' :: 0 <= j' < j ==> entries[j'].0 != a
  {
    if |entries| > 0 && entries[0].0 != a {
      FirstMatchMeaning(entries[1..], a);
      if FirstMatch(entries, a).Some? {
        var j :| 0 <= j < |entries[1..]| && entries[1..][j] == (a, FirstMatch(entries, a).value) &&
          forall j' :: 0 <= j' < j ==> entries[1..][j'].0 != a;
        assert entries[j + 1] == (a, FirstMatch(entries, a).value);
        assert forall j' :: 0 <= j' < j + 1 ==> entries[j'].0 != a by {
          forall j' | 0 <= j' < j + 1 ensures entries[j'].0 != a {
            if j' > 0 {
              assert entries[j'] == entries[1..][j' - 1];
            }
          }
        }
      }
    }
  }

  /** The entry loop of one frame: the posterior found (the weights vector keeps 0 when none is). */
  method LookupFrame(entries: seq<(int, real)>, a: int) returns (weight: real, post: real)
    ensures weight == (if FirstMatch(entries, a).Some? then FirstMatch(entries, a).value else 0.0)
    ensures post == (if FirstMatch(entries, a).Some? then FirstMatch(entries, a).value else -1.0)
  {
    weight, post := 0.0, -1.0;
    for j := 0 to |entries|
      invariant FirstMatch(entries, a) == FirstMatch(entries[j..], a)
      invariant weight == 0.0 && post == -1.0
    {
      if entries[j].0 == a {
        weight := entries[j].1;
        post := weight;
        return;
      }
      assert entries[j..][1..] == entries[j + 1..];
    }
  }

  /** A frame counts as having zero posterior when the lookup left the "not found" mark. */
  predicate ZeroPost(m: Option<real>)
  {
    m.None? || m.value == -1.0
  }

  function ZeroCount(post: seq<seq<(int, real)>>, ali: seq<int>, n: nat): nat
    requires n <= |post| == |ali|
  {
    if n == 0 then 0 else ZeroCount(post, ali, n - 1) + (if ZeroPost(FirstMatch(post[n - 1], ali[n - 1])) then 1 else 0)
  }

  /** Every frame counts as zero-posterior exactly when the zero count reaches the frame count. */
  lemma {:induction false} ZeroCountFull(post: seq<seq<(int, real)>>, ali: seq<int>, n: nat)
    requires n <= |post| == |ali|
    ensures ZeroCount(post, ali, n) <= n
    ensures ZeroCount(post, ali, n) == n <==> forall i :: 0 <= i < n ==> ZeroPost(FirstMatch(post[i], ali[i]))
  {
    if n > 0 {
      ZeroCountFull(post, ali, n - 1);
    }
  }

  /** What one utterance produces. */
  datatype UttOut = UttOut(key: string, alignPost: seq<(int, real)>, weights: seq<real>)

  /**
   * The frame loop of one utterance: frame i becomes the single pair
   * (ali[i], posterior of ali[i]), 0 when no usable entry is found.
   */
  method ConvertUtterance(post: seq<seq<(int, real)>>, ali: seq<int>)
    returns (alignPost: seq<(int, real)>, weights: seq<real>, nZero: nat)
    requires |post| == |ali|
    ensures |alignPost| == |weights| == |ali|
    ensures forall i :: 0 <= i < |ali| ==>
      var m := FirstMatch(post[i], ali[i]);
      alignPost[i] == (ali[i], if ZeroPost(m) then 0.0 else m.value) &&
      weights[i] == (if m.Some? then m.value else 0.0)
    ensures nZero == ZeroCount(post, ali, |ali|)
  {
    alignPost := seq(|ali|, i requires 0 <= i < |ali| => (ali[i], 1.0));
    weights := seq(|ali|, _ => 0.0);
    nZero := 0;
    for i := 0 to |ali|
      invariant |alignPost| == |weights| == |ali|
      invariant forall k :: 0 <= k < i ==>
        var m := FirstMatch(post[k], ali[k]);
        alignPost[k] == (ali[k], if ZeroPost(m) then 0.0 else m.value) &&
        weights[k] == (if m.Some? then m.value else 0.0)
      invariant forall k :: i <= k < |ali| ==> alignPost[k].0 == ali[k]
      invariant nZero == ZeroCount(post, ali, i)
    {
      var w, p := LookupFrame(post[i], ali[i]);
      weights := weights[i := w];
      if p == -1.0 {
        nZero := nZero + 1;
        p := 0.0;
      }
      alignPost := alignPost[i := (ali[i], p)];
    }
  }

  /** The sum of a weights vector. */
  function Sum(w: seq<real>): real
  {
    if |w| == 0 then 0.0 else Sum(w[..|w| - 1]) + w[|w| - 1]
  }

  /** The average weight written with 5 arguments; None stands for the NaN of 0 / 0. */
  function Average(w: seq<real>): Option<real>
  {
    if |w| == 0 then None else Some(Sum(w) / (|w| as real))
  }

  datatype Report = Report(written: seq<UttOut>, averages: seq<Option<real>>,
                           weightsWritten: bool, averagesWritten: bool,
                           nDone: nat, nErr: nat, nNoAli: nat, status: int)

  /** An utterance whose alignment and posterior differ in length stops the tool with an error. */
  predicate SizesAgree(posts: seq<(string, seq<seq<(int, real)>>)>, alis: map<string, seq<int>>)
  {
    forall k :: 0 <= k < |posts| && posts[k].0 in alis ==> |alis[posts[k].0]| == |posts[k].1|
  }

  /** The utterances that have an alignment, in reading order. */
  function Aligned(posts: seq<(string, seq<seq<(int, real)>>)>, alis: map<string, seq<int>>): (A: seq<(string, seq<seq<(int, real)>>)>)
    ensures |A| <= |posts|
    ensures forall t :: 0 <= t < |A| ==> A[t].0 in alis && A[t] in posts
  {
    if |posts| == 0 then []
    else
      var last := posts[|posts| - 1];
      Aligned(posts[..|posts| - 1], alis) + (if last.0 in alis then [last] else [])
  }

  /** An aligned utterance none of whose frames has a usable posterior. */
  predicate AllZero(u: (string, seq<seq<(int, real)>>), alis: map<string, seq<int>>)
  {
    u.0 in alis && |alis[u.0]| == |u.1| &&
    forall i :: 0 <= i < |u.1| ==> ZeroPost(FirstMatch(u.1[i], alis[u.0][i]))
  }

  /** The number of utterances of A that are all zero. */
  function ErrCount(A: seq<(string, seq<seq<(int, real)>>)>, alis: map<string, seq<int>>): nat
  {
    if |A| == 0 then 0
    else ErrCount(A[..|A| - 1], alis) + (if AllZero(A[|A| - 1], alis) then 1 else 0)
  }

  /** The utterance written for an aligned one. */
  predicate WrittenFor(o: UttOut, u: (string, seq<seq<(int, real)>>), ali: seq<int>)
  {
    |ali| == |u.1| && o.key == u.0 && |o.alignPost| == |o.weights| == |ali| &&
    forall i :: 0 <= i < |ali| ==>
      var m := FirstMatch(u.1[i], ali[i]);
      o.alignPost[i] == (ali[i], if ZeroPost(m) then 0.0 else m.value) &&
      o.weights[i] == (if m.Some? then m.value else 0.0)
  }

  /** The written utterances and averages correspond one to one to the aligned utterances A. */
  predicate WrittenAll(written: seq<UttOut>, averages: seq<Option<real>>,
                       A: seq<(string, seq<seq<(int, real)>>)>, alis: map<string, seq<int>>)
  {
    |written| == |averages| == |A| &&
    forall t :: 0 <= t < |A| ==>
      A[t].0 in alis && WrittenFor(written[t], A[t], alis[A[t].0]) && averages[t] == Average(written[t].weights)
  }

  /** Reading one more utterance extends Aligned by it exactly when it has an alignment. */
  lemma AlignedStep(posts: seq<(string, seq<seq<(int, real)>>)>, alis: map<string, seq<int>>, k: nat)
    requires k < |posts|
    ensures Aligned(posts[..k + 1], alis) ==
      Aligned(posts[..k], alis) + (if posts[k].0 in alis then [posts[k]] else [])
  {
    assert posts[..k + 1][..k] == posts[..k];
  }

  /** Reading one more utterance keeps the sizes in agreement when its own sizes agree. */
  lemma SizesStep(posts: seq<(string, seq<seq<(int, real)>>)>, alis: map<string, seq<int>>, k: nat)
    requires k < |posts| && SizesAgree(posts[..k], alis)
    requires posts[k].0 in alis ==> |alis[posts[k].0]| == |posts[k].1|
    ensures SizesAgree(posts[..k + 1], alis)
  {
    forall t | 0 <= t < k + 1 && posts[t].0 in alis
      ensures |alis[posts[t].0]| == |posts[t].1|
    {
      if t < k {
        assert posts[..k + 1][t] == posts[..k][t];
      }
    }
  }

  /** Appending the output of one aligned utterance keeps the correspondence and the error count. */
  lemma WrittenStep(written: seq<UttOut>, averages: seq<Option<real>>,
                    A: seq<(string, seq<seq<(int, real)>>)>, alis: map<string, seq<int>>,
                    u: (string, seq<seq<(int, real)>>), o: UttOut, nErr: nat, nZero: nat)
    requires WrittenAll(written, averages, A, alis)
    requires nErr == ErrCount(A, alis)
    requires u.0 in alis && WrittenFor(o, u, alis[u.0])
    requires nZero == ZeroCount(u.1, alis[u.0], |u.1|)
    ensures WrittenAll(written + [o], averages + [Average(o.weights)], A + [u], alis)
    ensures (if nZero == |u.1| then nErr + 1 else nErr) == ErrCount(A + [u], alis)
  {
    assert (A + [u])[..|A|] == A;
    ZeroCountFull(u.1, alis[u.0], |u.1|);
  }

  /**
   * The tool: 3 to 5 arguments (else exit 1); an utterance without
   * alignment is skipped and counted; one whose alignment has another length
   * is fatal (exit -1); every other utterance is written and counted as done,
   * and as an error too when no frame had a usable posterior. The exit status
   * is 0 exactly when some utterance was done.
   */
  method AlignAll(numArgs: int, posts: seq<(string, seq<seq<(int, real)>>)>, alis: map<string, seq<int>>)
    returns (r: Outcome<Report>)
    ensures numArgs < 3 || numArgs > 5 ==> r == Exit(1)
    ensures 3 <= numArgs <= 5 ==> (r.Exit? <==> !SizesAgree(posts, alis)) && (r.Exit? ==> r.code == -1)
    ensures r.Done? ==>
      var rep := r.value;
      var A := Aligned(posts, alis);
      rep.weightsWritten == (numArgs >= 4) && rep.averagesWritten == (numArgs == 5) &&
      rep.nDone == |A| && rep.nNoAli == |posts| - |A| &&
      WrittenAll(rep.written, rep.averages, A, alis) &&
      rep.nErr == ErrCount(A, alis) &&
      (rep.status == 0 <==> rep.nDone != 0) && (rep.status == 0 || rep.status == 1)
  {
    if numArgs < 3 || numArgs > 5 {
      return Exit(1);
    }
    var written: seq<UttOut> := [];
    var averages: seq<Option<real>> := [];
    var nDone, nErr, nNoAli := 0, 0, 0;
    ghost var A: seq<(string, seq<seq<(int, real)>>)> := [];
    for k := 0 to |posts|
      invariant SizesAgree(posts[..k], alis)
      invariant A == Aligned(posts[..k], alis)
      invariant nDone == |A| && nNoAli == k - nDone
      invariant WrittenAll(written, averages, A, alis)
      invariant nErr == ErrCount(A, alis)
    {
      AlignedStep(posts, alis, k);
      var key, post := posts[k].0, posts[k].1;
      if key !in alis {
        SizesStep(posts, alis, k);
        nNoAli := nNoAli + 1;
        continue;
      }
      var ali := alis[key];
      if |ali| != |post| {
        assert !SizesAgree(posts, alis) by {
          assert posts[k].0 in alis && |alis[posts[k].0]| != |posts[k].1|;
        }
        return Exit(-1);
      }
      SizesStep(posts, alis, k);
      var alignPost, weights, nZero := ConvertUtterance(post, ali);
      var o := UttOut(key, alignPost, weights);
      WrittenStep(written, averages, A, alis, posts[k], o, nErr, nZero);
      if nZero == |post| {
        nErr := nErr + 1;
      }
      written := written + [o];
      averages := averages + [Average(weights)];
      nDone := nDone + 1;
      A := A + [posts[k]];
    }
    assert posts[..|posts|] == posts;
    var status := if nDone != 0 then 0 else 1;
    r := Done(Report(written, averages, numArgs >= 4, numArgs == 5, nDone, nErr, nNoAli, status));
  }
}
