/**
 * The frame codes the silence-based segmenter reads for a pair of channels
 * of one conversation. Each channel's prediction is a label per frame:
 * 0 silence, 1 noise, 2 speech. Channel 1 (the longer) gets the joint code
 * 3 * own + other, channel 2 the mirrored code 3 * own + other from its own
 * side; past channel 2's end channel 1 reads channel 2 as silent and
 * channel 2 is silent itself. When the lengths differ by more than 40 frames
 * each channel is coded alone, as 4 * label (the code of both channels
 * carrying the same label). Labels other than 0, 1 and 2 add no code.
 */
module ChannelCodes {
  import opened FrameCodes
  import opened Outcomes

  predicate Label(a: int) { 0 <= a <= 2 }

  predicate AllLabels(A: seq<int>)
  {
    forall i :: 0 <= i < |A| ==> Label(A[i])
  }

  /** The code of one frame coded alone. */
  function IsolatedCode(a: int): seq<int>
  {
    if a == 0 then [0] else if a == 1 then [4] else if a == 2 then [8] else []
  }

  /** The codes of the first k frames of a channel coded alone. */
  function Isolated(A: seq<int>, k: int): seq<int>
    requires 0 <= k <= |A|
  {
    if k == 0 then [] else Isolated(A, k - 1) + IsolatedCode(A[k - 1])
  }

  /** The loop that codes a channel alone, appending one code per label. */
  method IsolatedCodes(A: seq<int>) returns (B: seq<int>)
    ensures B == Isolated(A, |A|)
  {
    B := [];
    for i := 0 to |A|
      invariant B == Isolated(A, i)
    {
      if A[i] == 0 {
        B := B + [0];
      } else if A[i] == 1 {
        B := B + [4];
      } else if A[i] == 2 {
        B := B + [8];
      }
    }
  }

  /**
   * A channel coded alone keeps one code per frame, and the code's class
   * (silence, noise, speech) is the frame's label on both digits.
   */
  lemma {:induction false} IsolatedMeaning(A: seq<int>, k: int)
    requires AllLabels(A) && 0 <= k <= |A|
    ensures |Isolated(A, k)| == k
    ensures forall i :: 0 <= i < k ==>
      InputCode(Isolated(A, k)[i]) && Isolated(A, k)[i] / 3 == A[i] && Isolated(A, k)[i] % 3 == A[i]
    decreases k
  {
    if k > 0 {
      IsolatedMeaning(A, k - 1);
    }
  }

  /** The two codes of frame i of channel 1 and channel 2 while both channels have frames. */
  function PairCodes(a1: int, a2: int): (seq<int>, seq<int>)
  {
    if Label(a1) && Label(a2) then ([3 * a1 + a2], [3 * a2 + a1]) else ([], [])
  }

  /** The two codes of a frame past channel 2's end. */
  function TailCodes(a1: int): (seq<int>, seq<int>)
  {
    if Label(a1) then ([3 * a1], [a1]) else ([], [])
  }

  /** The joint codes of the first k frames of both channels. */
  function Joint(A1: seq<int>, A2: seq<int>, k: int): (seq<int>, seq<int>)
    requires |A2| <= |A1| && 0 <= k <= |A1|
  {
    if k == 0 then ([], [])
    else
      var prev := Joint(A1, A2, k - 1);
      var here := if k - 1 < |A2| then PairCodes(A1[k - 1], A2[k - 1]) else TailCodes(A1[k - 1]);
      (prev.0 + here.0, prev.1 + here.1)
  }

  /** The two loops of the joint coding: over the common frames, then over channel 1's extra frames. */
  method JointCodes(A1: seq<int>, A2: seq<int>) returns (B1: seq<int>, B2: seq<int>)
    requires |A2| <= |A1|
    ensures (B1, B2) == Joint(A1, A2, |A1|)
  {
    B1, B2 := [], [];
    for i := 0 to |A2|
      invariant (B1, B2) == Joint(A1, A2, i)
    {
      var a1, a2 := A1[i], A2[i];
      ghost var B1', B2' := B1, B2;
      if a1 == 0 && a2 == 0 { B1, B2 := B1 + [0], B2 + [0]; }
      if a1 == 0 && a2 == 1 { B1, B2 := B1 + [1], B2 + [3]; }
      if a1 == 0 && a2 == 2 { B1, B2 := B1 + [2], B2 + [6]; }
      if a1 == 1 && a2 == 0 { B1, B2 := B1 + [3], B2 + [1]; }
      if a1 == 1 && a2 == 1 { B1, B2 := B1 + [4], B2 + [4]; }
      if a1 == 1 && a2 == 2 { B1, B2 := B1 + [5], B2 + [7]; }
      if a1 == 2 && a2 == 0 { B1, B2 := B1 + [6], B2 + [2]; }
      if a1 == 2 && a2 == 1 { B1, B2 := B1 + [7], B2 + [5]; }
      if a1 == 2 && a2 == 2 { B1, B2 := B1 + [8], B2 + [8]; }
      assert B1 == B1' + PairCodes(a1, a2).0 && B2 == B2' + PairCodes(a1, a2).1;
      assert Joint(A1, A2, i + 1) == (Joint(A1, A2, i).0 + PairCodes(a1, a2).0, Joint(A1, A2, i).1 + PairCodes(a1, a2).1);
    }
    for i := |A2| to |A1|
      invariant (B1, B2) == Joint(A1, A2, i)
    {
      var a1 := A1[i];
      ghost var B1', B2' := B1, B2;
      if a1 == 0 { B1, B2 := B1 + [0], B2 + [0]; }
      if a1 == 1 { B1, B2 := B1 + [3], B2 + [1]; }
      if a1 == 2 { B1, B2 := B1 + [6], B2 + [2]; }
      assert B1 == B1' + TailCodes(a1).0 && B2 == B2' + TailCodes(a1).1;
      assert Joint(A1, A2, i + 1) == (Joint(A1, A2, i).0 + TailCodes(a1).0, Joint(A1, A2, i).1 + TailCodes(a1).1);
    }
  }

  /** The other channel's label as channel 1's code carries it: silence past channel 2's end. */
  function Other(A2: seq<int>, i: int): int
  {
    if 0 <= i < |A2| then A2[i] else 0
  }

  /**
   * With valid labels both channels get one code per frame of channel 1; a
   * code's class (code / 3) is the channel's own label and its last digit
   * (code % 3) the other channel's; past channel 2's end channel 2 is silent.
   */
  lemma {:induction false} JointMeaning(A1: seq<int>, A2: seq<int>, k: int)
    requires |A2| <= |A1| && AllLabels(A1) && AllLabels(A2) && 0 <= k <= |A1|
    ensures |Joint(A1, A2, k).0| == k && |Joint(A1, A2, k).1| == k
    ensures forall i :: 0 <= i < k ==> Packs(Joint(A1, A2, k).0[i], A1[i], Other(A2, i))
    ensures forall i :: 0 <= i < k ==> Packs(Joint(A1, A2, k).1[i], Other(A2, i), A1[i])
    decreases k
  {
    if k > 0 {
      JointMeaning(A1, A2, k - 1);
      var a, b := A1[k - 1], Other(A2, k - 1);
      CodeDigits(a, b);
      CodeDigits(b, a);
      JointStep(A1, A2, k);
      var prev, J := Joint(A1, A2, k - 1), Joint(A1, A2, k);
      forall i | 0 <= i < k
        ensures Packs(J.0[i], A1[i], Other(A2, i)) && Packs(J.1[i], Other(A2, i), A1[i])
      {
        if i < k - 1 {
          assert J.0[i] == prev.0[i] && J.1[i] == prev.1[i];
        }
      }
    }
  }

  /** With valid labels frame k - 1 adds exactly one code to each channel. */
  lemma JointStep(A1: seq<int>, A2: seq<int>, k: int)
    requires |A2| <= |A1| && AllLabels(A1) && AllLabels(A2) && 0 < k <= |A1|
    ensures Joint(A1, A2, k).0 == Joint(A1, A2, k - 1).0 + [3 * A1[k - 1] + Other(A2, k - 1)]
    ensures Joint(A1, A2, k).1 == Joint(A1, A2, k - 1).1 + [3 * Other(A2, k - 1) + A1[k - 1]]
  {
    var a := A1[k - 1];
    assert Label(a);
    var prev := Joint(A1, A2, k - 1);
    if k - 1 < |A2| {
      var b := A2[k - 1];
      assert Label(b);
      assert PairCodes(a, b) == ([3 * a + b], [3 * b + a]);
      assert Joint(A1, A2, k) == (prev.0 + PairCodes(a, b).0, prev.1 + PairCodes(a, b).1);
    } else {
      assert TailCodes(a) == ([3 * a], [a]);
      assert Joint(A1, A2, k) == (prev.0 + TailCodes(a).0, prev.1 + TailCodes(a).1);
    }
  }

  /** Code c is the input code whose own-channel label is hi and whose other-channel label is lo. */
  predicate Packs(c: int, hi: int, lo: int)
  {
    InputCode(c) && c / 3 == hi && c % 3 == lo
  }

  /** A pair of labels packs into one input code, from which both labels come back. */
  lemma CodeDigits(a: int, b: int)
    requires Label(a) && Label(b)
    ensures Packs(3 * a + b, a, b)
  {
  }

  /** One resegmentation run of the pair: codes, the recording it is printed for, and an optional cut-back length. */
  datatype Job = Job(codes: seq<int>, file: string, restrictTo: Option<int>)

  /** The pair ordered so that the first channel is not the shorter one. */
  function Ordered(A1: seq<int>, f1: string, A2: seq<int>, f2: string): (o: (seq<int>, string, seq<int>, string))
    ensures |o.2| <= |o.0|
    ensures (o.0, o.1, o.2, o.3) == (A1, f1, A2, f2) || (o.0, o.1, o.2, o.3) == (A2, f2, A1, f1)
  {
    if |A1| < |A2| then (A2, f2, A1, f1) else (A1, f1, A2, f2)
  }

  /**
   * The runs main performs for a pair as written: the resegment-and-print
   * calls sit inside the joint branch, so a pair whose lengths differ by
   * more than 40 frames is coded alone and then nothing is run.
   */
  function PairJobsAsWritten(A1: seq<int>, f1: string, A2: seq<int>, f2: string): seq<Job>
  {
    var (X1, g1, X2, g2) := Ordered(A1, f1, A2, f2);
    if |X1| - |X2| > 40 then []
    else
      var B := Joint(X1, X2, |X1|);
      [Job(B.0, g1, None), Job(B.1, g2, Some(|X2|))]
  }

  /** Two channels of 42 and 1 frames get no run at all, and nothing is printed for either. */
  lemma IsolatedPairDropped()
    ensures var A1, A2 := seq(42, _ => 0), [0];
      |A1| - |A2| > 40 && PairJobsAsWritten(A1, "a", A2, "b") == []
  {
  }

  /**
   * The runs as evidently intended (the speech-based script's main does
   * this): both branches code the channels, then both channels are
   * resegmented and printed, channel 2 cut back to its own length.
   */
  function PairJobs(A1: seq<int>, f1: string, A2: seq<int>, f2: string): (jobs: seq<Job>)
  {
    var (X1, g1, X2, g2) := Ordered(A1, f1, A2, f2);
    if |X1| - |X2| > 40 then
      [Job(Isolated(X1, |X1|), g1, None), Job(Isolated(X2, |X2|), g2, Some(|X2|))]
    else
      var B := Joint(X1, X2, |X1|);
      [Job(B.0, g1, None), Job(B.1, g2, Some(|X2|))]
  }

  /**
   * Every channel of the pair is run once: one job for each recording, each
   * with one input code per frame of its channel (channel 2's cut back to its
   * own length).
   */
  lemma PairJobsCoverBoth(A1: seq<int>, f1: string, A2: seq<int>, f2: string)
    requires AllLabels(A1) && AllLabels(A2) && f1 != f2
    ensures var jobs := PairJobs(A1, f1, A2, f2);
      |jobs| == 2 && {jobs[0].file, jobs[1].file} == {f1, f2} &&
      jobs[0].restrictTo == None && jobs[1].restrictTo.Some? &&
      |jobs[0].codes| == |Ordered(A1, f1, A2, f2).0| &&
      jobs[1].restrictTo.value == |Ordered(A1, f1, A2, f2).2| <= |jobs[1].codes| &&
      (forall j, i :: 0 <= j < 2 && 0 <= i < |jobs[j].codes| ==> InputCode(jobs[j].codes[i]))
  {
    var (X1, g1, X2, g2) := Ordered(A1, f1, A2, f2);
    if |X1| - |X2| > 40 {
      IsolatedMeaning(X1, |X1|);
      IsolatedMeaning(X2, |X2|);
    } else {
      JointMeaning(X1, X2, |X1|);
    }
  }
}
