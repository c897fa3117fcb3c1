/**
 * post-decode: posterior decoding. For each frame the tool picks a pdf from
 * the frame's posterior list and writes the picks as an alignment, and
 * optionally the picked posteriors as a weights vector. Posteriors are
 * modelled as reals. The code as written and the decoding its usage text
 * promises (the entry of highest posterior) are both modelled here.
 */
module PostDecode {
  import opened Outcomes

  /** Every frame has at least one posterior entry (the code reads entry 0 of each). */
  predicate FramesNonEmpty(post: seq<seq<(int, real)>>)
  {
    forall i :: 0 <= i < |post| ==> |post[i]| > 0
  }

  // ---------------------------------------------------------------- as written

  /**
   * The entry the inner loop settles on among entries[1..n]: a running
   * maximum that starts at 0 and moves only on a strictly larger posterior.
   * None when no entry after the first is positive.
   */
  function Chosen(entries: seq<(int, real)>, n: nat): (c: Option<nat>)
    requires n <= |entries|
    ensures c.None? ==> forall j :: 1 <= j < n ==> entries[j].1 <= 0.0
    ensures c.Some? ==>
      1 <= c.value < n && entries[c.value].1 > 0.0 &&
      (forall j :: 1 <= j < n ==> entries[j].1 <= entries[c.value].1) &&
      (forall j :: 1 <= j < c.value ==> entries[j].1 < entries[c.value].1)
  {
    if n <= 1 then None
    else
      var prev := Chosen(entries, n - 1);
      var best := if prev.Some? then entries[prev.value].1 else 0.0;
      if entries[n - 1].1 > best then Some(n - 1) else prev
  }

  /** The pdf and weight the code leaves at position i of frame i's own entries (0 when none). */
  function ChosenPdf(entries: seq<(int, real)>): int
  {
    var c := Chosen(entries, |entries|);
    if c.Some? then entries[c.value].0 else 0
  }

  function ChosenWeight(entries: seq<(int, real)>): real
  {
    var c := Chosen(entries, |entries|);
    if c.Some? then entries[c.value].1 else 0.0
  }

  /**
   * The alignment as written: every frame first stores its entry-0 pdf in
   * alignment[0], then the inner loop may store its pick in alignment[i].
   */
  function AsWrittenAlignment(post: seq<seq<(int, real)>>): (ali: seq<int>)
    requires FramesNonEmpty(post)
  {
    seq(|post|, i requires 0 <= i < |post| =>
      if i == 0 && |post| >= 2 then post[|post| - 1][0].0
      else if i == 0 && Chosen(post[0], |post[0]|).None? then post[0][0].0
      else ChosenPdf(post[i]))
  }

  /**
   * The inner loop of one frame: a running maximum from 0 over the entries
   * after the first; the pdf and weight slots keep what they held (pdf0, 0)
   * unless some entry is larger.
   */
  method ScanFrame(entries: seq<(int, real)>, pdf0: int) returns (pdf: int, weight: real)
    requires |entries| > 0
    ensures var c := Chosen(entries, |entries|);
      pdf == (if c.Some? then entries[c.value].0 else pdf0) &&
      weight == (if c.Some? then entries[c.value].1 else 0.0)
  {
    var maxWeight := 0.0;
    pdf, weight := pdf0, 0.0;
    for j := 1 to |entries|
      invariant var c := Chosen(entries, j);
        maxWeight == weight == (if c.Some? then entries[c.value].1 else 0.0) &&
        pdf == (if c.Some? then entries[c.value].0 else pdf0)
    {
      if entries[j].1 > maxWeight {
        maxWeight := entries[j].1;
        weight := entries[j].1;
        pdf := entries[j].0;
      }
    }
  }

  /** The frame loop as written. */
  method DecodeUtteranceAsWritten(post: seq<seq<(int, real)>>) returns (alignment: seq<int>, weights: seq<real>)
    requires FramesNonEmpty(post)
    ensures alignment == AsWrittenAlignment(post)
    ensures |weights| == |post| && forall i :: 0 <= i < |post| ==> weights[i] == ChosenWeight(post[i])
  {
    alignment := seq(|post|, _ => 0);
    weights := seq(|post|, _ => 0.0);
    for i := 0 to |post|
      invariant |alignment| == |weights| == |post|
      invariant forall k :: 0 < k < i ==> alignment[k] == ChosenPdf(post[k])
      invariant forall k :: i <= k < |post| && k > 0 ==> alignment[k] == 0
      invariant i >= 2 ==> alignment[0] == post[i - 1][0].0
      invariant i == 1 ==> alignment[0] == (if Chosen(post[0], |post[0]|).None? then post[0][0].0 else ChosenPdf(post[0]))
      invariant forall k :: 0 <= k < i ==> weights[k] == ChosenWeight(post[k])
    {
      var entries := post[i];
      alignment := alignment[0 := entries[0].0];
      var pdf, weight := ScanFrame(entries, alignment[i]);
      alignment := alignment[i := pdf];
      weights := weights[i := weight];
    }
  }

  /**
   * What the code as written promises: positions after the first hold each
   * frame's pick among its entries after the first (0 when none of them is
   * positive), and with two or more frames position 0 holds the entry-0 pdf
   * of the last frame, whatever frame 0's posteriors are.
   */
  lemma AsWrittenFacts(post: seq<seq<(int, real)>>)
    requires FramesNonEmpty(post)
    ensures |AsWrittenAlignment(post)| == |post|
    ensures |post| >= 2 ==> AsWrittenAlignment(post)[0] == post[|post| - 1][0].0
    ensures forall i :: 0 < i < |post| ==>
      (Chosen(post[i], |post[i]|).None? ==> AsWrittenAlignment(post)[i] == 0) &&
      (Chosen(post[i], |post[i]|).Some? ==>
         exists j :: 1 <= j < |post[i]| && AsWrittenAlignment(post)[i] == post[i][j].0 &&
           (forall j' :: 1 <= j' < |post[i]| ==> post[i][j'].1 <= post[i][j].1))
  {
    forall i | 0 < i < |post| && Chosen(post[i], |post[i]|).Some?
      ensures exists j :: (1 <= j < |post[i]| && AsWrittenAlignment(post)[i] == post[i][j].0 &&
        (forall j' :: 1 <= j' < |post[i]| ==> post[i][j'].1 <= post[i][j].1))
    {
      var j := Chosen(post[i], |post[i]|).value;
      assert AsWrittenAlignment(post)[i] == post[i][j].0;
    }
  }

  /**
   * Two frames where frame 0's only entry has posterior 0.9: the code as
   * written reports frame 0 as pdf 7 (frame 1's first entry), and frame 1 as
   * pdf 8, while the highest-posterior decoding gives 5 and 8.
   */
  lemma AsWrittenMisdecodes()
    ensures var post := [[(5, 0.9)], [(7, 0.2), (8, 0.8)]];
      AsWrittenAlignment(post) == [7, 8] && Decoded(post) == [(5, 0.9), (8, 0.8)]
  {
    var post := [[(5, 0.9)], [(7, 0.2), (8, 0.8)]];
    assert Chosen(post[1], 2) == Some(1);
    assert Best(post[0], 1) == 0;
    assert Best(post[1], 2) == 1;
  }

  // ---------------------------------------------------------------- corrected

  /**
   * The index of the first entry of highest posterior among entries[..n].
   */
  function Best(entries: seq<(int, real)>, n: nat): (b: nat)
    requires 1 <= n <= |entries|
    ensures b < n
    ensures forall j :: 0 <= j < n ==> entries[j].1 <= entries[b].1
    ensures forall j :: 0 <= j < b ==> entries[j].1 < entries[b].1
  {
    if n == 1 then 0
    else
      var prev := Best(entries, n - 1);
      if entries[n - 1].1 > entries[prev].1 then n - 1 else prev
  }

  /** The highest-posterior entry of every frame, as the usage text describes. */
  function Decoded(post: seq<seq<(int, real)>>): (d: seq<(int, real)>)
    requires FramesNonEmpty(post)
    ensures |d| == |post|
  {
    seq(|post|, i requires 0 <= i < |post| => post[i][Best(post[i], |post[i]|)])
  }

  /** The corrected frame loop: the running maximum starts at entry 0 and is written at position i. */
  method DecodeUtterance(post: seq<seq<(int, real)>>) returns (alignment: seq<int>, weights: seq<real>)
    requires FramesNonEmpty(post)
    ensures |alignment| == |weights| == |post|
    ensures forall i :: 0 <= i < |post| ==> (alignment[i], weights[i]) == Decoded(post)[i]
  {
    alignment := seq(|post|, _ => 0);
    weights := seq(|post|, _ => 0.0);
    for i := 0 to |post|
      invariant |alignment| == |weights| == |post|
      invariant forall k :: 0 <= k < i ==> (alignment[k], weights[k]) == Decoded(post)[k]
    {
      var entries := post[i];
      var best := 0;
      for j := 1 to |entries|
        invariant best == Best(entries, j)
      {
        if entries[j].1 > entries[best].1 {
          best := j;
        }
      }
      alignment := alignment[i := entries[best].0];
      weights := weights[i := entries[best].1];
    }
  }

  /** The decoded pick of each frame has the highest posterior of the frame, and is its first such entry. */
  lemma DecodedIsArgMax(post: seq<seq<(int, real)>>, i: nat)
    requires FramesNonEmpty(post) && i < |post|
    ensures exists j :: (0 <= j < |post[i]| && Decoded(post)[i] == post[i][j] &&
      (forall j' :: 0 <= j' < |post[i]| ==> post[i][j'].1 <= post[i][j].1) &&
      (forall j' :: 0 <= j' < j ==> post[i][j'].1 < post[i][j].1))
  {
    var j := Best(post[i], |post[i]|);
    assert Decoded(post)[i] == post[i][j];
  }

  datatype Report = Report(written: seq<(string, seq<int>, seq<real>)>, weightsWritten: bool, nDone: nat, status: int)

  /**
   * The tool: 2 or 3 arguments (else exit 1); every utterance is decoded and
   * written, with its weights when a third argument names a weights output;
   * the exit status is 0 exactly when some utterance was done.
   */
  method DecodeAll(numArgs: int, posts: seq<(string, seq<seq<(int, real)>>)>) returns (r: Outcome<Report>)
    requires forall k :: 0 <= k < |posts| ==> FramesNonEmpty(posts[k].1)
    ensures numArgs < 2 || numArgs > 3 <==> r == Exit(1)
    ensures r.Done? ==>
      var rep := r.value;
      rep.weightsWritten == (numArgs == 3) && rep.nDone == |rep.written| == |posts| &&
      (forall k :: 0 <= k < |posts| ==>
        rep.written[k].0 == posts[k].0 && |rep.written[k].1| == |rep.written[k].2| == |posts[k].1| &&
        forall i :: 0 <= i < |posts[k].1| ==> (rep.written[k].1[i], rep.written[k].2[i]) == Decoded(posts[k].1)[i]) &&
      (rep.status == 0 <==> |posts| != 0) && (rep.status == 0 || rep.status == 1)
  {
    if numArgs < 2 || numArgs > 3 {
      return Exit(1);
    }
    var written: seq<(string, seq<int>, seq<real>)> := [];
    var nDone := 0;
    for k := 0 to |posts|
      invariant nDone == |written| == k
      invariant forall t :: 0 <= t < k ==>
        written[t].0 == posts[t].0 && |written[t].1| == |written[t].2| == |posts[t].1| &&
        forall i :: 0 <= i < |posts[t].1| ==> (written[t].1[i], written[t].2[i]) == Decoded(posts[t].1)[i]
    {
      var alignment, weights := DecodeUtterance(posts[k].1);
      written := written + [(posts[k].0, alignment, weights)];
      nDone := nDone + 1;
    }
    var status := if nDone != 0 then 0 else 1;
    r := Done(Report(written, numArgs == 3, nDone, status));
  }
}
