/**
 * Turning a CTM file with added fillers into a text file and a new
 * segments file: the segments are matched as for the plain transcripts,
 * with utterance ids rebuilt from the times, and a word lying before its
 * segment becomes a segment of its own.
 */
module CtmTextSegments {
  import opened Outcomes
  import opened CtmCommon
  import opened ZeroPadding
  import opened CtmText

  /** A line of the new segments file. */
  datatype OutSeg = OutSeg(utt: string, file: string, st: real, en: real)

  /** An utterance written to both files: its recording, span and words. */
  datatype Entry = Entry(file: string, st: real, en: real, words: seq<string>)

  /** Its text line: the id rebuilt from the span, then the words. */
  function TextOf(e: Entry): TextLine
  {
    TextLine(UttId(e.file, e.st, e.en), e.words)
  }

  /** Its segments line: the same id, the recording and the span. */
  function SegLineOf(e: Entry): OutSeg
  {
    OutSeg(UttId(e.file, e.st, e.en), e.file, e.st, e.en)
  }

  /** "%d" of a float: the integer part, truncated toward zero. */
  function Trunc(x: real): (n: int)
    ensures 0.0 <= x ==> n as real <= x < n as real + 1.0
    ensures x < 0.0 ==> n as real - 1.0 < x <= n as real
  {
    if x >= 0.0 then x.Floor else -((-x).Floor)
  }

  /** The utterance id: recording, then start and end in hundredths, each "%06d". */
  function UttId(file: string, st: real, en: real): string
  {
    file + "-" + ZeroPad(Trunc(st * 100.0), 6) + "-" + ZeroPad(Trunc(en * 100.0), 6)
  }

  /** Times below 10000 seconds give ids of a fixed shape: two six-digit fields. */
  lemma UttIdWidth(file: string, st: real, en: real)
    requires 0.0 <= st < 10000.0 && 0.0 <= en < 10000.0
    ensures |UttId(file, st, en)| == |file| + 14
  {
    assert Pow10(6) == 1000000 by {
      assert Pow10(3) == 1000;
    }
    PaddedWidth(Trunc(st * 100.0), 6);
    PaddedWidth(Trunc(en * 100.0), 6);
  }

  /** Python's max and min of two values. */
  function Max(a: real, b: real): real
  {
    if b > a then b else a
  }

  function Min(a: real, b: real): real
  {
    if b < a then b else a
  }

  /** A word starting more than 0.01 s before its segment is an inserted filler outside the segments. */
  predicate Early(w: CtmWord, seg: Seg)
  {
    w.start - seg.s < -0.01
  }

  /**
   * The new segment for an early word of segment i, as written: the word
   * widened by 0.3 s on each side, clipped at the end of the segment at
   * index i - 1 in Python's sense, which for i == 0 is the last segment.
   */
  function FillerSpanAsWritten(segs: seq<Seg>, i: nat, w: CtmWord): (real, real)
    requires i < |segs|
  {
    var prev := if i == 0 then segs[|segs| - 1] else segs[i - 1];
    (Max(w.start - 0.3, prev.e), Min(w.end + 0.3, segs[i].s))
  }

  /**
   * The new segment for an early word of segment i: the word widened by
   * 0.3 s on each side, clipped at the adjacent segments of the same
   * recording.
   */
  function FillerSpan(segs: seq<Seg>, i: nat, w: CtmWord): (real, real)
    requires i < |segs|
  {
    var lo := w.start - 0.3;
    (if i > 0 && segs[i - 1].file == segs[i].file then Max(lo, segs[i - 1].e) else lo, Min(w.end + 0.3, segs[i].s))
  }

  /**
   * The first segment's filler: the as-written lower bound comes from the
   * last segment and the new segment ends before it starts.
   */
  lemma FirstFillerInverted()
    ensures var segs := [Seg("u1", "a", 5.0, 10.0), Seg("u2", "a", 50.0, 100.0)];
      var w := CtmWord("a", 1.0, 1.5, "uh");
      !Skipped([w], 0, segs[0]) && Takes(w, segs[0]) && Early(w, segs[0]) &&
      FillerSpanAsWritten(segs, 0, w) == (100.0, 1.8) && FillerSpan(segs, 0, w) == (0.7, 1.8)
  {
    assert !StrLess("a", "a") by {
      StrLessIrreflexive("a");
    }
  }

  /**
   * The first segment of a later recording: the as-written lower bound
   * comes from the last segment of the recording before, and the new
   * segment ends before it starts.
   */
  lemma LaterRecordingInverted()
    ensures var segs := [Seg("u1", "a", 50.0, 100.0), Seg("u2", "b", 5.0, 10.0)];
      var w := CtmWord("b", 1.0, 1.5, "uh");
      Cursor([w], segs, 1) == 0 && !Skipped([w], 0, segs[1]) && Takes(w, segs[1]) && Early(w, segs[1]) &&
      FillerSpanAsWritten(segs, 1, w) == (100.0, 1.8) && FillerSpan(segs, 1, w) == (0.7, 1.8)
  {
    assert !StrLess("b", "b") by {
      StrLessIrreflexive("b");
    }
  }

  /**
   * The new segment holds the start of the word and stays between the
   * previous segment of the recording and the segment itself, whenever
   * that previous segment ends before the word.
   */
  lemma FillerHoldsWord(segs: seq<Seg>, i: nat, w: CtmWord)
    requires i < |segs|
    requires Early(w, segs[i]) && w.start <= w.end
    requires i > 0 && segs[i - 1].file == segs[i].file ==> segs[i - 1].e <= w.start
    ensures FillerSpan(segs, i, w).0 <= w.start < FillerSpan(segs, i, w).1 <= segs[i].s
    ensures i > 0 && segs[i - 1].file == segs[i].file ==> segs[i - 1].e <= FillerSpan(segs, i, w).0
  {
  }

  function FillerEntry(segs: seq<Seg>, i: nat, w: CtmWord): Entry
    requires i < |segs|
  {
    var sp := FillerSpan(segs, i, w);
    Entry(segs[i].file, sp.0, sp.1, [w.word])
  }

  /** The filler entries for the early words among the words segment i takes, in order. */
  function Fillers(segs: seq<Seg>, i: nat, ws: seq<CtmWord>): seq<Entry>
    requires i < |segs|
  {
    if |ws| == 0 then []
    else Fillers(segs, i, ws[..|ws| - 1]) + (if Early(ws[|ws| - 1], segs[i]) then [FillerEntry(segs, i, ws[|ws| - 1])] else [])
  }

  /** The words of the segment's own transcript: those taken that are not early. */
  function Regular(seg: Seg, ws: seq<CtmWord>): seq<string>
  {
    if |ws| == 0 then []
    else Regular(seg, ws[..|ws| - 1]) + (if Early(ws[|ws| - 1], seg) then [] else [ws[|ws| - 1].word])
  }

  /** The segment's own line pair: printed when it has words, or for whole transcripts. */
  function SegmentEntries(seg: Seg, text: seq<string>, whole: bool): seq<Entry>
  {
    if |text| > 0 || whole then [Entry(seg.file, seg.s, seg.e, text)] else []
  }

  /** The words segment i takes, by the cursor rules of the plain transcripts. */
  function Taken(ctm: seq<CtmWord>, segs: seq<Seg>, i: nat): seq<CtmWord>
    requires i < |segs|
  {
    ctm[Cursor(ctm, segs, i)..Cursor(ctm, segs, i + 1)]
  }

  /** What segment i writes for the words it takes: a pair per early word, then its own pair. */
  function SegmentOutput(segs: seq<Seg>, i: nat, ws: seq<CtmWord>, whole: bool): seq<Entry>
    requires i < |segs|
  {
    Fillers(segs, i, ws) + SegmentEntries(segs[i], Regular(segs[i], ws), whole)
  }

  /** What every segment writes, in segment order. */
  function Outputs(ctm: seq<CtmWord>, segs: seq<Seg>, whole: bool): (outs: seq<seq<Entry>>)
    ensures |outs| == |segs|
  {
    seq(|segs|, k requires 0 <= k < |segs| => SegmentOutput(segs, k, Taken(ctm, segs, k), whole))
  }

  /** The line pairs of the first i outputs, one after another. */
  function Entries(outs: seq<seq<Entry>>, i: nat): seq<Entry>
    requires i <= |outs|
  {
    if i == 0 then [] else Entries(outs, i - 1) + outs[i - 1]
  }

  function TextsOf(es: seq<Entry>): seq<TextLine>
  {
    seq(|es|, k requires 0 <= k < |es| => TextOf(es[k]))
  }

  function SegsOf(es: seq<Entry>): seq<OutSeg>
  {
    seq(|es|, k requires 0 <= k < |es| => SegLineOf(es[k]))
  }

  lemma OfAppend(a: seq<Entry>, b: seq<Entry>)
    ensures TextsOf(a + b) == TextsOf(a) + TextsOf(b)
    ensures SegsOf(a + b) == SegsOf(a) + SegsOf(b)
  {
    forall k | 0 <= k < |a + b|
      ensures TextsOf(a + b)[k] == (TextsOf(a) + TextsOf(b))[k] && SegsOf(a + b)[k] == (SegsOf(a) + SegsOf(b))[k]
    {
      if k < |a| {
        assert (a + b)[k] == a[k];
      } else {
        assert (a + b)[k] == b[k - |a|];
      }
    }
  }

  /**
   * The conversion: an option value other than true or false is refused
   * by the argument parser with status 2; otherwise one pass over the
   * segments with the shared CTM cursor, writing text and segments lines.
   */
  method CtmToTextAndSegments(option: string, ctm: seq<CtmWord>, segs: seq<Seg>)
    returns (r: Outcome<(seq<TextLine>, seq<OutSeg>)>)
    ensures r.Exit? <==> option != "true" && option != "false"
    ensures r.Exit? ==> r.code == 2
    ensures r.Done? ==> r.value.0 == TextsOf(Entries(Outputs(ctm, segs, option == "true"), |segs|))
    ensures r.Done? ==> r.value.1 == SegsOf(Entries(Outputs(ctm, segs, option == "true"), |segs|))
    ensures r.Done? ==> |r.value.0| == |r.value.1| && forall k :: 0 <= k < |r.value.0| ==> r.value.0[k].utt == r.value.1[k].utt
  {
    if option != "true" && option != "false" {
      return Exit(2);
    }
    var whole := option == "true";
    var texts: seq<TextLine> := [];
    var outSegs: seq<OutSeg> := [];
    var ptr := 0;
    ghost var outs := Outputs(ctm, segs, whole);
    for i := 0 to |segs|
      invariant ptr == Cursor(ctm, segs, i)
      invariant texts == TextsOf(Entries(outs, i))
      invariant outSegs == SegsOf(Entries(outs, i))
    {
      var ft, fs, q := WriteSegment(ctm, segs, i, ptr, whole);
      EntriesStep(ctm, segs, whole, i, texts, outSegs, ft, fs);
      texts := texts + ft;
      outSegs := outSegs + fs;
      ptr := q;
    }
    Paired(Entries(outs, |segs|));
    return Done((texts, outSegs));
  }

  /** A text line and the segments line written with it carry the same utterance id. */
  lemma Paired(es: seq<Entry>)
    ensures |TextsOf(es)| == |SegsOf(es)|
    ensures forall k :: 0 <= k < |es| ==> TextsOf(es)[k].utt == SegsOf(es)[k].utt
  {
  }

  /** Appending what segment i writes keeps the lines written so far equal to the specification. */
  lemma EntriesStep(ctm: seq<CtmWord>, segs: seq<Seg>, whole: bool, i: nat,
                    texts: seq<TextLine>, outSegs: seq<OutSeg>, ft: seq<TextLine>, fs: seq<OutSeg>)
    requires i < |segs|
    requires texts == TextsOf(Entries(Outputs(ctm, segs, whole), i)) && outSegs == SegsOf(Entries(Outputs(ctm, segs, whole), i))
    requires var p := Cursor(ctm, segs, i);
      var out := SegmentOutput(segs, i, ctm[p..Next(ctm, segs[i], p)], whole);
      ft == TextsOf(out) && fs == SegsOf(out)
    ensures Cursor(ctm, segs, i + 1) == Next(ctm, segs[i], Cursor(ctm, segs, i))
    ensures texts + ft == TextsOf(Entries(Outputs(ctm, segs, whole), i + 1))
    ensures outSegs + fs == SegsOf(Entries(Outputs(ctm, segs, whole), i + 1))
  {
    var outs := Outputs(ctm, segs, whole);
    assert outs[i] == SegmentOutput(segs, i, Taken(ctm, segs, i), whole);
    assert Entries(outs, i + 1) == Entries(outs, i) + outs[i];
    OfAppend(Entries(outs, i), outs[i]);
  }

  /**
   * One segment: the two skip tests, else the words it takes; the lines
   * written for it and the cursor after it.
   */
  method WriteSegment(ctm: seq<CtmWord>, segs: seq<Seg>, i: nat, ptr: nat, whole: bool)
    returns (ft: seq<TextLine>, fs: seq<OutSeg>, q: nat)
    requires i < |segs| && ptr <= |ctm|
    ensures q == Next(ctm, segs[i], ptr)
    ensures ft == TextsOf(SegmentOutput(segs, i, ctm[ptr..q], whole))
    ensures fs == SegsOf(SegmentOutput(segs, i, ctm[ptr..q], whole))
  {
    var seg := segs[i];
    var utt := UttId(seg.file, seg.s, seg.e);
    var text: seq<string> := [];
    ft, fs, q := [], [], ptr;
    if ptr >= |ctm| || (ctm[ptr].file == seg.file && seg.e <= ctm[ptr].start) {
    } else if ptr >= |ctm| || (ctm[ptr].file == seg.file && seg.s < ctm[ptr].start && seg.e <= ctm[ptr].end) {
    } else {
      ft, fs, text, q := TakeSegment(ctm, segs, i, ptr);
    }
    ghost var fillers := Fillers(segs, i, ctm[ptr..q]);
    ghost var own := SegmentEntries(seg, text, whole);
    OfAppend(fillers, own);
    if |text| > 0 || whole {
      assert own == [Entry(seg.file, seg.s, seg.e, text)];
      assert TextsOf(own) == [TextLine(utt, text)] && SegsOf(own) == [OutSeg(utt, seg.file, seg.s, seg.e)];
      ft := ft + [TextLine(utt, text)];
      fs := fs + [OutSeg(utt, seg.file, seg.s, seg.e)];
    } else {
      assert TextsOf(own) == [] && SegsOf(own) == [];
    }
  }

  /**
   * The words segment i takes from the cursor on: a text and a segments
   * line for each early word, the others gathered into the transcript.
   */
  method TakeSegment(ctm: seq<CtmWord>, segs: seq<Seg>, i: nat, p: nat)
    returns (ft: seq<TextLine>, fs: seq<OutSeg>, text: seq<string>, q: nat)
    requires i < |segs| && p <= |ctm|
    ensures q == TakeEnd(ctm, segs[i], p)
    ensures ft == TextsOf(Fillers(segs, i, ctm[p..q])) && fs == SegsOf(Fillers(segs, i, ctm[p..q]))
    ensures text == Regular(segs[i], ctm[p..q])
  {
    var seg := segs[i];
    ft, fs, text := [], [], [];
    q := p;
    ghost var es: seq<Entry> := [];
    while q < |ctm| && Takes(ctm[q], seg)
      invariant p <= q <= |ctm|
      invariant TakeEnd(ctm, seg, p) == TakeEnd(ctm, seg, q)
      invariant es == Fillers(segs, i, ctm[p..q])
      invariant ft == TextsOf(es) && fs == SegsOf(es)
      invariant text == Regular(seg, ctm[p..q])
      decreases |ctm| - q
    {
      ghost var extra := if Early(ctm[q], seg) then [FillerEntry(segs, i, ctm[q])] else [];
      TakenStep(ctm, segs, i, p, q);
      OfAppend(es, extra);
      var t, o, words := TakeWord(segs, i, ctm[q]);
      ft, fs, text := ft + t, fs + o, text + words;
      es := es + extra;
      q := q + 1;
    }
  }

  /** One taken word: its own filler lines when it starts early, otherwise a word of the transcript. */
  method TakeWord(segs: seq<Seg>, i: nat, w: CtmWord) returns (t: seq<TextLine>, o: seq<OutSeg>, words: seq<string>)
    requires i < |segs|
    ensures var extra := if Early(w, segs[i]) then [FillerEntry(segs, i, w)] else [];
      t == TextsOf(extra) && o == SegsOf(extra) && words == if Early(w, segs[i]) then [] else [w.word]
  {
    if w.start - segs[i].s < -0.01 {
      var t1, o1 := FillerLines(segs, i, w);
      t, o, words := [t1], [o1], [];
    } else {
      t, o, words := [], [], [w.word];
    }
  }

  /** The text and segments lines of an early word: the widened, clipped span and the id built from it. */
  method FillerLines(segs: seq<Seg>, i: nat, w: CtmWord) returns (t: TextLine, o: OutSeg)
    requires i < |segs|
    ensures t == TextOf(FillerEntry(segs, i, w)) && o == SegLineOf(FillerEntry(segs, i, w))
  {
    var seg := segs[i];
    var lo := w.start - 0.3;
    if i > 0 && segs[i - 1].file == seg.file {
      lo := Max(lo, segs[i - 1].e);
    }
    var hi := Min(w.end + 0.3, seg.s);
    assert Entry(seg.file, lo, hi, [w.word]) == FillerEntry(segs, i, w);
    var utt := UttId(seg.file, lo, hi);
    o := OutSeg(utt, seg.file, lo, hi);
    t := TextLine(utt, [w.word]);
  }

  lemma TakenStep(ctm: seq<CtmWord>, segs: seq<Seg>, i: nat, p: nat, q: nat)
    requires i < |segs| && p <= q < |ctm|
    ensures Fillers(segs, i, ctm[p..q + 1]) == Fillers(segs, i, ctm[p..q]) + (if Early(ctm[q], segs[i]) then [FillerEntry(segs, i, ctm[q])] else [])
    ensures Regular(segs[i], ctm[p..q + 1]) == Regular(segs[i], ctm[p..q]) + (if Early(ctm[q], segs[i]) then [] else [ctm[q].word])
  {
    assert ctm[p..q + 1] == ctm[p..q] + [ctm[q]];
    TakenSnoc(segs, i, ctm[p..q], ctm[q]);
  }

  lemma TakenSnoc(segs: seq<Seg>, i: nat, ws: seq<CtmWord>, w: CtmWord)
    requires i < |segs|
    ensures Fillers(segs, i, ws + [w]) == Fillers(segs, i, ws) + (if Early(w, segs[i]) then [FillerEntry(segs, i, w)] else [])
    ensures Regular(segs[i], ws + [w]) == Regular(segs[i], ws) + (if Early(w, segs[i]) then [] else [w.word])
  {
    assert (ws + [w])[..|ws|] == ws;
  }

  /** The words of the text lines, one line after another. */
  function EntryWords(es: seq<Entry>): seq<string>
  {
    if |es| == 0 then [] else EntryWords(es[..|es| - 1]) + es[|es| - 1].words
  }

  lemma {:induction false} EntryWordsAppend(a: seq<Entry>, b: seq<Entry>)
    ensures EntryWords(a + b) == EntryWords(a) + EntryWords(b)
    decreases |b|
  {
    if |b| == 0 {
      assert a + b == a;
    } else {
      var b' := b[..|b| - 1];
      assert (a + b)[..|a + b| - 1] == a + b';
      assert (a + b)[|a + b| - 1] == b[|b| - 1];
      EntryWordsAppend(a, b');
      calc {
        EntryWords(a + b);
        EntryWords(a + b') + b[|b| - 1].words;
        EntryWords(a) + EntryWords(b') + b[|b| - 1].words;
        EntryWords(a) + EntryWords(b);
      }
    }
  }

  /** Sending one more word to either side keeps the two sides together a rearrangement of all words. */
  lemma SplitStep(a: seq<string>, r: seq<string>, all: seq<string>, x: string, toA: bool)
    requires multiset(a) + multiset(r) == multiset(all)
    ensures toA ==> multiset(a + [x]) + multiset(r) == multiset(all + [x])
    ensures !toA ==> multiset(a) + multiset(r + [x]) == multiset(all + [x])
  {
  }

  lemma {:induction false} FillerWords(segs: seq<Seg>, i: nat, ws: seq<CtmWord>)
    requires i < |segs|
    ensures multiset(EntryWords(Fillers(segs, i, ws))) + multiset(Regular(segs[i], ws)) == multiset(WordsOf(ws))
  {
    if |ws| > 0 {
      var init := ws[..|ws| - 1];
      FillerWords(segs, i, init);
      assert ws == init + [ws[|ws| - 1]];
      FillerWordsStep(segs, i, init, ws[|ws| - 1]);
    } else {
      assert WordsOf(ws) == [];
    }
  }

  lemma FillerWordsStep(segs: seq<Seg>, i: nat, init: seq<CtmWord>, w: CtmWord)
    requires i < |segs|
    requires multiset(EntryWords(Fillers(segs, i, init))) + multiset(Regular(segs[i], init)) == multiset(WordsOf(init))
    ensures multiset(EntryWords(Fillers(segs, i, init + [w]))) + multiset(Regular(segs[i], init + [w])) == multiset(WordsOf(init + [w]))
  {
    WordsOfAppend(init, [w]);
    var F := Fillers(segs, i, init);
    var extra := if Early(w, segs[i]) then [FillerEntry(segs, i, w)] else [];
    TakenSnoc(segs, i, init, w);
    EntryWordsAppend(F, extra);
    var R := Regular(segs[i], init);
    assert WordsOf(init + [w]) == WordsOf(init) + [w.word];
    if Early(w, segs[i]) {
      assert EntryWords(extra) == EntryWords([]) + [w.word];
      SplitStep(EntryWords(F), R, WordsOf(init), w.word, true);
    } else {
      assert EntryWords(extra) == [];
      SplitStep(EntryWords(F), R, WordsOf(init), w.word, false);
    }
  }

  /** Every word a segment takes is printed once: on a filler line of its own or in the segment's transcript. */
  lemma TakenWordsPrinted(segs: seq<Seg>, i: nat, ws: seq<CtmWord>, whole: bool)
    requires i < |segs|
    ensures multiset(EntryWords(SegmentOutput(segs, i, ws, whole))) == multiset(WordsOf(ws))
  {
    FillerWords(segs, i, ws);
    var text := Regular(segs[i], ws);
    EntryWordsAppend(Fillers(segs, i, ws), SegmentEntries(segs[i], text, whole));
    if |text| > 0 || whole {
      assert EntryWords(SegmentEntries(segs[i], text, whole)) == EntryWords([]) + text;
    }
  }

  /** Entry k's words are a rearrangement of word list k. */
  predicate RearrangedAt(outs: seq<seq<Entry>>, ws: seq<seq<string>>, k: nat)
    requires k < |outs| == |ws|
  {
    multiset(EntryWords(outs[k])) == multiset(ws[k])
  }

  /** Rearrangements written one after another are a rearrangement of their sources one after another. */
  lemma {:induction false} FlatRearranged(outs: seq<seq<Entry>>, ws: seq<seq<string>>, i: nat)
    requires |outs| == |ws| && i <= |outs|
    requires forall k :: 0 <= k < |outs| ==> RearrangedAt(outs, ws, k)
    ensures multiset(EntryWords(Entries(outs, i))) == multiset(Concat(ws, i))
  {
    if i > 0 {
      FlatRearranged(outs, ws, i - 1);
      assert RearrangedAt(outs, ws, i - 1);
      EntryWordsAppend(Entries(outs, i - 1), outs[i - 1]);
    } else {
      assert EntryWords([]) == [];
    }
  }

  /** The words printed for all segments are a rearrangement of the words the segments take. */
  lemma EntriesWords(ctm: seq<CtmWord>, segs: seq<Seg>, whole: bool)
    ensures multiset(EntryWords(Entries(Outputs(ctm, segs, whole), |segs|))) == multiset(Concat(Transcripts(ctm, segs), |segs|))
  {
    var outs := Outputs(ctm, segs, whole);
    var ts := Transcripts(ctm, segs);
    forall k | 0 <= k < |segs|
      ensures RearrangedAt(outs, ts, k)
    {
      assert ts[k] == Transcript(ctm, segs, k);
      TakenWordsPrinted(segs, k, Taken(ctm, segs, k), whole);
    }
    FlatRearranged(outs, ts, |segs|);
  }

  /**
   * Every CTM word the cursor passes is printed exactly once, either on
   * its own filler line or in its segment's transcript.
   */
  lemma WordsPrintedOnce(ctm: seq<CtmWord>, segs: seq<Seg>, whole: bool)
    ensures multiset(EntryWords(Entries(Outputs(ctm, segs, whole), |segs|))) == multiset(WordsOf(ctm[..Cursor(ctm, segs, |segs|)]))
  {
    EntriesWords(ctm, segs, whole);
    TranscriptsConsumed(ctm, segs);
  }
}
