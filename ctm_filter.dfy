/**
 * Keeping the CTM hypotheses that fall inside a segments file: one pass
 * over the CTM lines with a cursor into the segments, both files being
 * read in order.
 */
module CtmFilter {
  import opened Outcomes
  import opened CtmCommon

  /** A CTM line: recording, start time and duration, kept verbatim. */
  datatype Word = Word(file: string, channel: string, start: real, dur: real, text: string)

  /** The segment lies wholly before the word: an earlier recording, or ending before the word starts. */
  predicate Behind(seg: Seg, w: Word)
  {
    StrLess(seg.file, w.file) || (seg.file == w.file && seg.e < w.start)
  }

  /** The word is written out when it meets the cursor segment. */
  predicate Keep(seg: Seg, w: Word)
  {
    seg.file == w.file && w.start + w.dur >= seg.s
  }

  /** The word is partially or completely inside the segment. */
  predicate Overlaps(seg: Seg, w: Word)
  {
    seg.file == w.file && seg.s <= w.start + w.dur && w.start <= seg.e
  }

  predicate OverlapsAny(w: Word, segs: seq<Seg>)
  {
    exists i :: 0 <= i < |segs| && Overlaps(segs[i], w)
  }

  /** The CTM lines sorted by recording, then start time. */
  predicate WordLe(a: Word, b: Word)
  {
    StrLess(a.file, b.file) || (a.file == b.file && a.start <= b.start)
  }

  predicate SortedWords(words: seq<Word>)
  {
    forall i, j :: 0 <= i < j < |words| ==> WordLe(words[i], words[j])
  }

  /** The segments sorted by recording, then start time. */
  predicate SortedSegs(segs: seq<Seg>)
  {
    forall i, j :: 0 <= i < j < |segs| ==> StrLess(segs[i].file, segs[j].file) || (segs[i].file == segs[j].file && segs[i].s <= segs[j].s)
  }

  /**
   * Moving the cursor from segment j to the first segment that is not
   * behind the word; None when the segments run out first.
   */
  function Advance(segs: seq<Seg>, j: nat, w: Word): (r: Option<nat>)
    requires j < |segs|
    ensures r.Some? ==> j <= r.value < |segs| && !Behind(segs[r.value], w)
    ensures r.Some? ==> forall i :: j <= i < r.value ==> Behind(segs[i], w)
    ensures r.None? ==> forall i :: j <= i < |segs| ==> Behind(segs[i], w)
    decreases |segs| - j
  {
    if !Behind(segs[j], w) then Some(j)
    else if j + 1 < |segs| then Advance(segs, j + 1, w)
    else None
  }

  datatype FilterState = FilterState(cursor: nat, kept: seq<Word>)

  /** The cursor and the lines written after the first k CTM lines; None once the segments ran out. */
  function Run(words: seq<Word>, segs: seq<Seg>, k: nat): (r: Option<FilterState>)
    requires k <= |words|
    ensures r.Some? ==> r.value.cursor < |segs|
  {
    if k == 0 then
      if |segs| == 0 then None else Some(FilterState(0, []))
    else
      match Run(words, segs, k - 1)
      case None => None
      case Some(st) =>
        match Advance(segs, st.cursor, words[k - 1])
        case None => None
        case Some(c) =>
          Some(FilterState(c, st.kept + (if Keep(segs[c], words[k - 1]) then [words[k - 1]] else [])))
  }

  /** Once the segments have run out the script has stopped. */
  lemma {:induction false} FailurePersists(words: seq<Word>, segs: seq<Seg>, k: nat, n: nat)
    requires k <= n <= |words|
    requires Run(words, segs, k).None?
    ensures Run(words, segs, n).None?
    decreases n - k
  {
    if k < n {
      FailurePersists(words, segs, k + 1, n);
    }
  }

  /**
   * The filter: the segments file is read up to the segment a word may
   * fall in, and the word is written when it does. A missing first
   * segment, or running out of segments, ends the script with status 1.
   */
  method FilterCtm(words: seq<Word>, segs: seq<Seg>) returns (r: Outcome<seq<Word>>)
    ensures r.Exit? <==> Run(words, segs, |words|).None?
    ensures r.Exit? ==> r.code == 1
    ensures r.Done? ==> r.value == Run(words, segs, |words|).value.kept
  {
    if |segs| == 0 {
      return Exit(1);
    }
    var j := 0;
    var out := [];
    for k := 0 to |words|
      invariant Run(words, segs, k) == Some(FilterState(j, out))
    {
      var w := words[k];
      var e := w.dur + w.start;
      var next := SeekSegment(segs, j, w);
      if next.None? {
        FailurePersists(words, segs, k + 1, |words|);
        return Exit(1);
      }
      ghost var st := FilterState(j, out);
      j := next.value;
      assert Run(words, segs, k + 1) == Some(FilterState(j, st.kept + (if Keep(segs[j], w) then [w] else [])));
      if segs[j].file == w.file && e >= segs[j].s {
        out := out + [w];
      } else {
        assert out == st.kept + [];
      }
    }
    return Done(out);
  }

  /** The segments file read on until a segment is not behind the word; None at its end. */
  method SeekSegment(segs: seq<Seg>, j0: nat, w: Word) returns (r: Option<nat>)
    requires j0 < |segs|
    ensures r == Advance(segs, j0, w)
  {
    var j := j0;
    while StrLess(segs[j].file, w.file) || (segs[j].file == w.file && segs[j].e < w.start)
      invariant j0 <= j < |segs|
      invariant Advance(segs, j0, w) == Advance(segs, j, w)
      decreases |segs| - j
    {
      if j + 1 == |segs| {
        return None;
      }
      j := j + 1;
    }
    return Some(j);
  }

  /** Every line written is an input line inside some segment. */
  lemma {:induction false} KeptOverlap(words: seq<Word>, segs: seq<Seg>, k: nat)
    requires k <= |words|
    requires Run(words, segs, k).Some?
    ensures forall w :: w in Run(words, segs, k).value.kept ==> w in words && OverlapsAny(w, segs)
  {
    if k > 0 {
      var st := Run(words, segs, k - 1).value;
      KeptOverlap(words, segs, k - 1);
      var c := Advance(segs, st.cursor, words[k - 1]).value;
      if Keep(segs[c], words[k - 1]) {
        assert Overlaps(segs[c], words[k - 1]);
      }
    }
  }

  lemma BehindMonotone(seg: Seg, a: Word, b: Word)
    requires Behind(seg, a) && WordLe(a, b)
    ensures Behind(seg, b)
  {
    if StrLess(seg.file, a.file) && StrLess(a.file, b.file) {
      StrLessTransitive(seg.file, a.file, b.file);
    }
  }

  /** With sorted CTM lines the cursor rests on the first segment not behind the latest word. */
  lemma {:induction false} CursorFirst(words: seq<Word>, segs: seq<Seg>, k: nat)
    requires SortedWords(words)
    requires 0 < k <= |words|
    requires Run(words, segs, k).Some?
    ensures forall i :: 0 <= i < Run(words, segs, k).value.cursor ==> Behind(segs[i], words[k - 1])
    ensures !Behind(segs[Run(words, segs, k).value.cursor], words[k - 1])
  {
    var j0 := Run(words, segs, k - 1).value.cursor;
    if k > 1 {
      CursorFirst(words, segs, k - 1);
      forall i | 0 <= i < j0
        ensures Behind(segs[i], words[k - 1])
      {
        BehindMonotone(segs[i], words[k - 2], words[k - 1]);
      }
    }
  }

  /** At the first segment not behind the word, the keep test is exactly overlap with some segment. */
  lemma KeepAtCursor(segs: seq<Seg>, c: nat, w: Word)
    requires SortedSegs(segs)
    requires c < |segs|
    requires forall i :: 0 <= i < c ==> Behind(segs[i], w)
    requires !Behind(segs[c], w)
    ensures Keep(segs[c], w) <==> OverlapsAny(w, segs)
  {
    if Keep(segs[c], w) {
      assert Overlaps(segs[c], w);
    }
    if OverlapsAny(w, segs) {
      var i :| 0 <= i < |segs| && Overlaps(segs[i], w);
      if i < c {
        StrLessIrreflexive(w.file);
        assert false;
      }
    }
  }

  /** The CTM lines that lie inside some segment, in input order. */
  function Overlapping(words: seq<Word>, segs: seq<Seg>): seq<Word>
  {
    if |words| == 0 then []
    else Overlapping(words[..|words| - 1], segs) + (if OverlapsAny(words[|words| - 1], segs) then [words[|words| - 1]] else [])
  }

  lemma {:induction false} RunOverlapping(words: seq<Word>, segs: seq<Seg>, k: nat)
    requires SortedWords(words) && SortedSegs(segs)
    requires k <= |words|
    requires Run(words, segs, k).Some?
    ensures Run(words, segs, k).value.kept == Overlapping(words[..k], segs)
  {
    if k > 0 {
      RunOverlapping(words, segs, k - 1);
      RunKeptStep(words, segs, k);
      OverlappingStep(words, segs, k);
      KeepAtRun(words, segs, k);
    }
  }

  /** One more word adds itself to the kept words when its segment keeps it. */
  lemma RunKeptStep(words: seq<Word>, segs: seq<Seg>, k: nat)
    requires 0 < k <= |words| && Run(words, segs, k).Some?
    ensures Run(words, segs, k - 1).Some?
    ensures var st := Run(words, segs, k).value;
      st.kept == Run(words, segs, k - 1).value.kept + (if Keep(segs[st.cursor], words[k - 1]) then [words[k - 1]] else [])
  {
  }

  lemma OverlappingStep(words: seq<Word>, segs: seq<Seg>, k: nat)
    requires 0 < k <= |words|
    ensures Overlapping(words[..k], segs) == Overlapping(words[..k - 1], segs) + (if OverlapsAny(words[k - 1], segs) then [words[k - 1]] else [])
  {
    assert words[..k][..k - 1] == words[..k - 1];
  }

  /** The segment the cursor lands on keeps the word exactly when some segment overlaps it. */
  lemma KeepAtRun(words: seq<Word>, segs: seq<Seg>, k: nat)
    requires SortedWords(words) && SortedSegs(segs)
    requires 0 < k <= |words| && Run(words, segs, k).Some?
    ensures Keep(segs[Run(words, segs, k).value.cursor], words[k - 1]) <==> OverlapsAny(words[k - 1], segs)
  {
    CursorFirst(words, segs, k);
    KeepAtCursor(segs, Run(words, segs, k).value.cursor, words[k - 1]);
  }

  /**
   * With both files sorted, the output is exactly the CTM lines that are
   * partially or completely inside some segment, unchanged and in order.
   */
  lemma FilterExact(words: seq<Word>, segs: seq<Seg>)
    requires SortedWords(words) && SortedSegs(segs)
    requires Run(words, segs, |words|).Some?
    ensures Run(words, segs, |words|).value.kept == Overlapping(words, segs)
  {
    RunOverlapping(words, segs, |words|);
    assert words[..|words|] == words;
  }

  lemma {:induction false} FailureAllBehind(words: seq<Word>, segs: seq<Seg>, k: nat)
    requires SortedWords(words)
    requires k <= |words| && |segs| > 0
    requires Run(words, segs, k).None?
    ensures k > 0 && forall i :: 0 <= i < |segs| ==> Behind(segs[i], words[k - 1])
  {
    if Run(words, segs, k - 1).None? {
      FailureAllBehind(words, segs, k - 1);
      AllBehindNext(segs, words[k - 2], words[k - 1], |segs|);
    } else {
      FailureAtWord(words, segs, k);
    }
  }

  /** The word at which the run fails lies after every segment. */
  lemma FailureAtWord(words: seq<Word>, segs: seq<Seg>, k: nat)
    requires SortedWords(words)
    requires 0 < k <= |words| && Run(words, segs, k - 1).Some? && Run(words, segs, k).None?
    ensures forall i :: 0 <= i < |segs| ==> Behind(segs[i], words[k - 1])
  {
    var j0 := Run(words, segs, k - 1).value.cursor;
    assert Advance(segs, j0, words[k - 1]).None?;
    if k > 1 {
      CursorFirst(words, segs, k - 1);
      AllBehindNext(segs, words[k - 2], words[k - 1], j0);
    }
  }

  /** Segments behind a word are behind every later word. */
  lemma AllBehindNext(segs: seq<Seg>, a: Word, b: Word, n: nat)
    requires WordLe(a, b) && n <= |segs|
    requires forall i :: 0 <= i < n ==> Behind(segs[i], a)
    ensures forall i :: 0 <= i < n ==> Behind(segs[i], b)
  {
    forall i | 0 <= i < n
      ensures Behind(segs[i], b)
    {
      BehindMonotone(segs[i], a, b);
    }
  }

  /**
   * With sorted CTM lines the script fails exactly when the segments
   * file is empty or every segment lies behind the last CTM line.
   */
  lemma FilterFailsIff(words: seq<Word>, segs: seq<Seg>)
    requires SortedWords(words)
    ensures Run(words, segs, |words|).None? <==>
      (|segs| == 0 || (|words| > 0 && forall i :: 0 <= i < |segs| ==> Behind(segs[i], words[|words| - 1])))
  {
    if |segs| > 0 {
      if Run(words, segs, |words|).None? {
        FailureAllBehind(words, segs, |words|);
      } else if |words| > 0 {
        CursorFirst(words, segs, |words|);
      }
    }
  }
}
