/**
 * Turning a CTM file into one transcript per segment: a single cursor
 * walks the sorted CTM words while the sorted segments are visited in
 * turn, and each segment takes the words that start before it ends.
 */
module CtmText {
  import opened Outcomes
  import opened CtmCommon

  /** A CTM line after reading: recording, start, end (start plus duration) and word. */
  datatype CtmWord = CtmWord(file: string, start: real, end: real, word: string)

  /** A line of the text file: the utterance id followed by its words. */
  datatype TextLine = TextLine(utt: string, words: seq<string>)

  /** The next word lies at or after the end of the segment (or there is none). */
  predicate EndsBefore(ctm: seq<CtmWord>, p: nat, seg: Seg)
  {
    p >= |ctm| || (ctm[p].file == seg.file && seg.e <= ctm[p].start)
  }

  /** The next word starts inside the segment but ends at or after its end (or there is none). */
  predicate Straddles(ctm: seq<CtmWord>, p: nat, seg: Seg)
  {
    p >= |ctm| || (ctm[p].file == seg.file && seg.s < ctm[p].start && seg.e <= ctm[p].end)
  }

  /** The segment takes no word. */
  predicate Skipped(ctm: seq<CtmWord>, p: nat, seg: Seg)
  {
    EndsBefore(ctm, p, seg) || Straddles(ctm, p, seg)
  }

  /** A word is taken by a segment from a later recording, or of its own recording up to its end. */
  predicate Takes(w: CtmWord, seg: Seg)
  {
    StrLess(w.file, seg.file) || (w.file == seg.file && w.start <= seg.e)
  }

  /** The end of the run of words from p on that the segment takes. */
  function TakeEnd(ctm: seq<CtmWord>, seg: Seg, p: nat): (q: nat)
    requires p <= |ctm|
    ensures p <= q <= |ctm|
    ensures forall i :: p <= i < q ==> Takes(ctm[i], seg)
    ensures q < |ctm| ==> !Takes(ctm[q], seg)
    decreases |ctm| - p
  {
    if p < |ctm| && Takes(ctm[p], seg) then TakeEnd(ctm, seg, p + 1) else p
  }

  /**
   * The cursor after a segment: unmoved when the segment is skipped,
   * otherwise past every word the segment takes and no further.
   */
  function Next(ctm: seq<CtmWord>, seg: Seg, p: nat): (q: nat)
    requires p <= |ctm|
    ensures p <= q <= |ctm|
    ensures Skipped(ctm, p, seg) ==> q == p
    ensures !Skipped(ctm, p, seg) ==> (forall i :: p <= i < q ==> Takes(ctm[i], seg)) && (q < |ctm| ==> !Takes(ctm[q], seg))
  {
    if Skipped(ctm, p, seg) then p else TakeEnd(ctm, seg, p)
  }

  /** The CTM cursor before segment i. */
  function Cursor(ctm: seq<CtmWord>, segs: seq<Seg>, i: nat): (p: nat)
    requires i <= |segs|
    ensures p <= |ctm|
  {
    if i == 0 then 0 else Next(ctm, segs[i - 1], Cursor(ctm, segs, i - 1))
  }

  function WordsOf(ws: seq<CtmWord>): seq<string>
  {
    seq(|ws|, k requires 0 <= k < |ws| => ws[k].word)
  }

  /** The words of segment i's transcript. */
  function Transcript(ctm: seq<CtmWord>, segs: seq<Seg>, i: nat): seq<string>
    requires i < |segs|
  {
    WordsOf(ctm[Cursor(ctm, segs, i)..Cursor(ctm, segs, i + 1)])
  }

  /** The line printed for a segment: its words if any, the bare id only for whole transcripts. */
  function LineFor(seg: Seg, ws: seq<string>, whole: bool): seq<TextLine>
  {
    if |ws| > 0 then [TextLine(seg.utt, ws)] else if whole then [TextLine(seg.utt, [])] else []
  }

  /** The transcript of every segment, in segment order. */
  function Transcripts(ctm: seq<CtmWord>, segs: seq<Seg>): (ts: seq<seq<string>>)
    ensures |ts| == |segs|
  {
    seq(|segs|, i requires 0 <= i < |segs| => Transcript(ctm, segs, i))
  }

  /** The lines printed for the first i segments, given their transcripts. */
  function Lines(segs: seq<Seg>, ts: seq<seq<string>>, whole: bool, i: nat): seq<TextLine>
    requires |ts| == |segs| && i <= |segs|
  {
    if i == 0 then [] else Lines(segs, ts, whole, i - 1) + LineFor(segs[i - 1], ts[i - 1], whole)
  }

  /** The accepted spellings of the --get-whole-transcripts option. */
  predicate ValidFlag(option: string)
  {
    option == "true" || option == "True" || option == "false" || option == "False"
  }

  predicate FlagSet(option: string)
  {
    option == "true" || option == "True"
  }

  /**
   * The conversion: an unknown option value ends the script with status 1;
   * otherwise one pass over the segments with the shared CTM cursor.
   */
  method CtmToText(option: string, ctm: seq<CtmWord>, segs: seq<Seg>) returns (r: Outcome<seq<TextLine>>)
    ensures r.Exit? <==> !ValidFlag(option)
    ensures r.Exit? ==> r.code == 1
    ensures r.Done? ==> r.value == Lines(segs, Transcripts(ctm, segs), FlagSet(option), |segs|)
  {
    if !(option == "true" || option == "True" || option == "false" || option == "False") {
      return Exit(1);
    }
    var whole := false;
    if option == "true" || option == "True" {
      whole := true;
    }
    var ptr := 0;
    var out := [];
    for i := 0 to |segs|
      invariant ptr == Cursor(ctm, segs, i)
      invariant out == Lines(segs, Transcripts(ctm, segs), whole, i)
    {
      var lines, q := PrintSegment(ctm, segs[i], ptr, whole);
      SegmentStep(ctm, segs, whole, i);
      out := out + lines;
      ptr := q;
    }
    return Done(out);
  }

  lemma SegmentStep(ctm: seq<CtmWord>, segs: seq<Seg>, whole: bool, i: nat)
    requires i < |segs|
    ensures Cursor(ctm, segs, i + 1) == Next(ctm, segs[i], Cursor(ctm, segs, i))
    ensures Lines(segs, Transcripts(ctm, segs), whole, i + 1) ==
      Lines(segs, Transcripts(ctm, segs), whole, i) + LineFor(segs[i], WordsOf(ctm[Cursor(ctm, segs, i)..Cursor(ctm, segs, i + 1)]), whole)
  {
    assert Transcripts(ctm, segs)[i] == Transcript(ctm, segs, i);
  }

  /**
   * One segment: the two skip tests, else the words it takes; the line
   * printed for it and the cursor after it.
   */
  method PrintSegment(ctm: seq<CtmWord>, seg: Seg, ptr: nat, whole: bool) returns (lines: seq<TextLine>, q: nat)
    requires ptr <= |ctm|
    ensures q == Next(ctm, seg, ptr)
    ensures lines == LineFor(seg, WordsOf(ctm[ptr..q]), whole)
  {
    lines := [];
    q := ptr;
    if ptr >= |ctm| || (ctm[ptr].file == seg.file && seg.e <= ctm[ptr].start) {
      if whole {
        lines := [TextLine(seg.utt, [])];
      }
    } else if ptr >= |ctm| || (ctm[ptr].file == seg.file && seg.s < ctm[ptr].start && seg.e <= ctm[ptr].end) {
      if whole {
        lines := [TextLine(seg.utt, [])];
      }
    } else {
      var text := TakeWords(ctm, seg, ptr);
      q := ptr + |text|;
      if |text| == 0 && whole {
        lines := [TextLine(seg.utt, [])];
      } else if |text| > 0 {
        lines := [TextLine(seg.utt, text)];
      }
    }
  }

  /** The words the segment takes from the cursor on. */
  method TakeWords(ctm: seq<CtmWord>, seg: Seg, p: nat) returns (text: seq<string>)
    requires p <= |ctm|
    ensures text == WordsOf(ctm[p..TakeEnd(ctm, seg, p)])
  {
    text := [];
    var q := p;
    while q < |ctm| && (StrLess(ctm[q].file, seg.file) || (ctm[q].file == seg.file && ctm[q].start <= seg.e))
      invariant p <= q <= |ctm|
      invariant TakeEnd(ctm, seg, p) == TakeEnd(ctm, seg, q)
      invariant text == WordsOf(ctm[p..q])
      decreases |ctm| - q
    {
      text := text + [ctm[q].word];
      q := q + 1;
    }
  }

  /** The CTM cursor only moves forward. */
  lemma {:induction false} CursorForward(ctm: seq<CtmWord>, segs: seq<Seg>, i: nat, j: nat)
    requires i <= j <= |segs|
    ensures Cursor(ctm, segs, i) <= Cursor(ctm, segs, j)
    decreases j - i
  {
    if i < j {
      CursorForward(ctm, segs, i, j - 1);
    }
  }

  function Flat(lines: seq<TextLine>): seq<string>
  {
    if |lines| == 0 then [] else Flat(lines[..|lines| - 1]) + lines[|lines| - 1].words
  }

  lemma {:induction false} FlatAppend(a: seq<TextLine>, b: seq<TextLine>)
    ensures Flat(a + b) == Flat(a) + Flat(b)
    decreases |b|
  {
    if |b| == 0 {
      assert a + b == a;
    } else {
      var b', last := b[..|b| - 1], b[|b| - 1];
      assert (a + b)[..|a + b| - 1] == a + b';
      assert (a + b)[|a + b| - 1] == last;
      FlatAppend(a, b');
      assert Flat(a + b) == Flat(a + b') + last.words;
      assert Flat(b) == Flat(b') + last.words;
    }
  }

  lemma WordsOfAppend(a: seq<CtmWord>, b: seq<CtmWord>)
    ensures WordsOf(a + b) == WordsOf(a) + WordsOf(b)
  {
  }

  lemma WordsOfSplit(ctm: seq<CtmWord>, a: nat, b: nat)
    requires a <= b <= |ctm|
    ensures WordsOf(ctm[..b]) == WordsOf(ctm[..a]) + WordsOf(ctm[a..b])
  {
    assert ctm[..b] == ctm[..a] + ctm[a..b];
  }

  lemma FlatJoin(a: seq<TextLine>, b: seq<TextLine>, u: seq<string>, w: seq<string>)
    requires Flat(a) == u && Flat(b) == w
    ensures Flat(a + b) == u + w
  {
    FlatAppend(a, b);
  }

  lemma FlatLineFor(seg: Seg, t: seq<string>, whole: bool)
    ensures Flat(LineFor(seg, t, whole)) == t
  {
    if |t| > 0 {
      assert Flat([TextLine(seg.utt, t)]) == Flat([]) + t;
    }
  }

  /** The words of the first i transcripts, one after another. */
  function Concat(ts: seq<seq<string>>, i: nat): seq<string>
    requires i <= |ts|
  {
    if i == 0 then [] else Concat(ts, i - 1) + ts[i - 1]
  }

  /** Read line after line, the printed words are the transcripts' words in order. */
  lemma {:induction false} PrintedTranscripts(segs: seq<Seg>, ts: seq<seq<string>>, whole: bool, i: nat)
    requires |ts| == |segs| && i <= |segs|
    ensures Flat(Lines(segs, ts, whole, i)) == Concat(ts, i)
  {
    if i > 0 {
      PrintedTranscripts(segs, ts, whole, i - 1);
      var prev := Lines(segs, ts, whole, i - 1);
      var line := LineFor(segs[i - 1], ts[i - 1], whole);
      assert Lines(segs, ts, whole, i) == prev + line;
      assert Concat(ts, i) == Concat(ts, i - 1) + ts[i - 1];
      FlatLineFor(segs[i - 1], ts[i - 1], whole);
      FlatJoin(prev, line, Concat(ts, i - 1), ts[i - 1]);
    } else {
      assert Flat([]) == [];
    }
  }

  /** The k-th transcript is the words between the k-th and the next cursor. */
  predicate PieceAt(ctm: seq<CtmWord>, cs: seq<nat>, ts: seq<seq<string>>, k: nat)
    requires k < |ts| && |cs| == |ts| + 1
  {
    cs[k] <= cs[k + 1] <= |ctm| && ts[k] == WordsOf(ctm[cs[k]..cs[k + 1]])
  }

  /** Pieces cut from the CTM between ascending cursors, one after another, are the CTM up to the last cursor. */
  lemma {:induction false} ConcatPieces(ctm: seq<CtmWord>, cs: seq<nat>, ts: seq<seq<string>>, i: nat)
    requires |cs| == |ts| + 1 && cs[0] == 0 && i <= |ts|
    requires forall k :: 0 <= k < |ts| ==> PieceAt(ctm, cs, ts, k)
    ensures cs[i] <= |ctm| && Concat(ts, i) == WordsOf(ctm[..cs[i]])
  {
    if i > 0 {
      ConcatPieces(ctm, cs, ts, i - 1);
      assert PieceAt(ctm, cs, ts, i - 1);
      WordsOfSplit(ctm, cs[i - 1], cs[i]);
    } else {
      assert WordsOf(ctm[..0]) == [];
    }
  }

  /** The transcripts, one after another, are the CTM words before the cursor. */
  lemma TranscriptsConsumed(ctm: seq<CtmWord>, segs: seq<Seg>)
    ensures Concat(Transcripts(ctm, segs), |segs|) == WordsOf(ctm[..Cursor(ctm, segs, |segs|)])
  {
    var cs := seq(|segs| + 1, k requires 0 <= k <= |segs| => Cursor(ctm, segs, k));
    var ts := Transcripts(ctm, segs);
    forall k | 0 <= k < |ts|
      ensures PieceAt(ctm, cs, ts, k)
    {
      assert ts[k] == Transcript(ctm, segs, k);
    }
    ConcatPieces(ctm, cs, ts, |segs|);
  }

  /**
   * Every word the cursor has passed is printed exactly once, in sorted
   * order: the printed words, read line after line, are the CTM words
   * before the cursor.
   */
  lemma PrintedWordsConsumed(ctm: seq<CtmWord>, segs: seq<Seg>, whole: bool)
    ensures Flat(Lines(segs, Transcripts(ctm, segs), whole, |segs|)) == WordsOf(ctm[..Cursor(ctm, segs, |segs|)])
  {
    PrintedTranscripts(segs, Transcripts(ctm, segs), whole, |segs|);
    TranscriptsConsumed(ctm, segs);
  }

  /** With whole transcripts every segment gets exactly one line, in segment order. */
  lemma {:induction false} WholeOneLinePerSegment(segs: seq<Seg>, ts: seq<seq<string>>, i: nat)
    requires |ts| == |segs| && i <= |segs|
    ensures |Lines(segs, ts, true, i)| == i
    ensures forall k :: 0 <= k < i ==> Lines(segs, ts, true, i)[k] == TextLine(segs[k].utt, ts[k])
  {
    if i > 0 {
      WholeOneLinePerSegment(segs, ts, i - 1);
    }
  }

  /** Without whole transcripts no empty transcript is printed, and no segment gets two lines. */
  lemma {:induction false} NoEmptyLines(segs: seq<Seg>, ts: seq<seq<string>>, i: nat)
    requires |ts| == |segs| && i <= |segs|
    ensures forall l :: l in Lines(segs, ts, false, i) ==> |l.words| > 0
    ensures |Lines(segs, ts, false, i)| <= i
  {
    if i > 0 {
      NoEmptyLines(segs, ts, i - 1);
    }
  }
}
