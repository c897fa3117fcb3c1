/**
 * get_RTTM_segments: turns the records of an RTTM reference into one label
 * per frame and file ("0" silence, "1" noise, "2" speech), then prints the
 * maximal runs of in-segment frames of every file as segments named by the
 * file and their zero-padded times. Record times arrive here already
 * converted to frames (time over frame shift, rounded).
 */
module RttmSegments {
  import opened Outcomes
  import opened ZeroPadding

  datatype Kind = Speaker | Lexeme | NonLex | NonSpeech | OtherKind

  /** One RTTM record: type, file, start and duration in frames, and category. */
  datatype Record = Record(kind: Kind, file: string, start: int, duration: int, category: string)

  /** ["x"] * n in Python: n copies of a label, none when n is not positive. */
  function Fill(mark: string, n: int): (s: seq<string>)
    ensures |s| == (if n > 0 then n else 0) && forall q :: 0 <= q < |s| ==> s[q] == mark
  {
    if n > 0 then seq(n, _ => mark) else []
  }

  /** The label a record's frames get: none for types other than the three below. */
  function LabelOf(r: Record): Option<string>
  {
    match r.kind
    case Lexeme => Some("2")
    case NonLex => if r.category == "other" then Some("0") else Some("1")
    case NonSpeech => Some("1")
    case _ => None
  }

  /** One record added to a file's labels: "0" up to its start, then its label for its duration. */
  function Place(labels: seq<string>, r: Record): seq<string>
  {
    labels + Fill("0", r.start - |labels|) + (if LabelOf(r).Some? then Fill(LabelOf(r).value, r.duration) else [])
  }

  /**
   * Labels are only appended: the gap before the record's start is "0",
   * and the record's label follows from its start or, when it overlaps what
   * is already labelled, from the current end.
   */
  lemma PlaceMeaning(labels: seq<string>, r: Record)
    ensures var p := Place(labels, r);
      var from := if r.start > |labels| then r.start else |labels|;
      p[..|labels|] == labels &&
      |p| == from + (if LabelOf(r).Some? && r.duration > 0 then r.duration else 0) &&
      (forall q :: |labels| <= q < from ==> p[q] == "0") &&
      (forall q :: from <= q < |p| ==> p[q] == LabelOf(r).value)
  {
    var p := Place(labels, r);
    assert p[..|labels|] == labels;
  }

  predicate Counted(r: Record)
  {
    r.kind != Speaker
  }

  /** The labels of one file: its records placed in reading order; SPEAKER records are skipped. */
  function FileLabels(records: seq<Record>, f: string): seq<string>
  {
    if |records| == 0 then []
    else
      var prev := FileLabels(records[..|records| - 1], f);
      var r := records[|records| - 1];
      if Counted(r) && r.file == f then Place(prev, r) else prev
  }

  /** The files that have at least one record other than SPEAKER. */
  function Seen(records: seq<Record>): set<string>
  {
    set k | 0 <= k < |records| && Counted(records[k]) :: records[k].file
  }

  lemma ReadStep(records: seq<Record>, k: nat)
    requires k < |records|
    ensures forall f :: (FileLabels(records[..k + 1], f) ==
      (if Counted(records[k]) && records[k].file == f then Place(FileLabels(records[..k], f), records[k])
       else FileLabels(records[..k], f)))
    ensures Seen(records[..k + 1]) == Seen(records[..k]) + (if Counted(records[k]) then {records[k].file} else {})
  {
    assert records[..k + 1][..k] == records[..k];
    var s1, s0 := records[..k + 1], records[..k];
    assert forall j :: 0 <= j < k ==> s1[j] == s0[j];
  }

  /** The record's labels appended to a file's list, as the branches of the reading loop do it. */
  method PlaceRecord(labels: seq<string>, rec: Record) returns (next: seq<string>)
    ensures next == Place(labels, rec)
  {
    next := labels;
    var i := |next|;
    if i < rec.start {
      next := next + Fill("0", rec.start - i);
    }
    if rec.kind == NonLex {
      if rec.category == "other" {
        next := next + Fill("0", rec.duration);
      } else {
        next := next + Fill("1", rec.duration);
      }
    }
    if rec.kind == Lexeme {
      next := next + Fill("2", rec.duration);
    }
    if rec.kind == NonSpeech {
      next := next + Fill("1", rec.duration);
    }
  }

  /** The labels of every file so far: the stored lists, with the current file's list in place of its stored one. */
  function View(files: map<string, seq<string>>, current: Option<string>, thisFile: seq<string>): map<string, seq<string>>
  {
    if current.Some? then files[current.value := thisFile] else files
  }

  /** A file without any counted record has no labels. */
  lemma {:induction false} UnseenEmpty(records: seq<Record>, f: string)
    requires f !in Seen(records)
    ensures FileLabels(records, f) == []
  {
    if |records| > 0 {
      var init := records[..|records| - 1];
      assert Seen(init) <= Seen(records) by {
        forall g | g in Seen(init) ensures g in Seen(records) {
          var k :| 0 <= k < |init| && Counted(init[k]) && init[k].file == g;
          assert records[k] == init[k];
        }
      }
      UnseenEmpty(init, f);
      assert !(Counted(records[|records| - 1]) && records[|records| - 1].file == f);
    }
  }

  /** The view holds exactly the files seen so far, each with its labels so far. */
  predicate ViewRight(records: seq<Record>, k: nat, V: map<string, seq<string>>)
    requires k <= |records|
  {
    V.Keys == Seen(records[..k]) && forall g :: g in V ==> V[g] == FileLabels(records[..k], g)
  }

  /** A counted record of file f adds f to the view, or extends its labels. */
  lemma ViewStep(records: seq<Record>, k: nat, V0: map<string, seq<string>>, V1: map<string, seq<string>>,
                  V2: map<string, seq<string>>)
    requires k < |records| && Counted(records[k]) && ViewRight(records, k, V0)
    requires var f := records[k].file; V1 == if f in V0 then V0 else V0[f := []]
    requires records[k].file in V1 && V2 == V1[records[k].file := Place(V1[records[k].file], records[k])]
    ensures ViewRight(records, k + 1, V2)
  {
    ReadStep(records, k);
    var f := records[k].file;
    if f !in V0 {
      UnseenEmpty(records[..k], f);
    }
    assert V1[f] == FileLabels(records[..k], f);
    assert V2.Keys == V0.Keys + {f};
    forall g | g in V2 ensures V2[g] == FileLabels(records[..k + 1], g) {
      if g != f {
        assert V2[g] == V0[g];
      }
    }
  }

  /**
   * A record of another file: the current list is stored when it is not
   * empty, and the new file starts empty or continues from its stored list.
   */
  method SwitchFile(files: map<string, seq<string>>, current: Option<string>, thisFile: seq<string>, f: string)
    returns (files': map<string, seq<string>>, thisFile': seq<string>)
    requires current != Some(f)
    requires current.Some? ==> current.value in files && files[current.value] <= thisFile
    requires current.None? ==> thisFile == []
    ensures f in files' && files'[f] == thisFile'
    ensures var V := View(files, current, thisFile);
      View(files', Some(f), thisFile') == (if f in V then V else V[f := []])
  {
    files' := files;
    thisFile' := thisFile;
    if thisFile' != [] {
      files' := files'[current.value := thisFile'];
      thisFile' := [];
    } else if current.Some? {
      assert files[current.value] == [];
      assert files == View(files, current, thisFile);
    }
    if f !in files' {
      files' := files'[f := []];
    } else {
      thisFile' := files'[f];
    }
  }

  /** The reader's state after records[..k]: the view is right, and the current file's stored list is a prefix of its labels. */
  predicate ReaderAt(records: seq<Record>, k: nat, files: map<string, seq<string>>, current: Option<string>,
                     thisFile: seq<string>)
    requires k <= |records|
  {
    && ViewRight(records, k, View(files, current, thisFile))
    && (current.None? <==> Seen(records[..k]) == {})
    && (current.None? ==> thisFile == [] && files == map[])
    && (current.Some? ==> current.value in files && files[current.value] <= thisFile)
  }

  /** A SPEAKER record changes neither the labels nor the files seen. */
  lemma SkipStep(records: seq<Record>, k: nat, files: map<string, seq<string>>, current: Option<string>,
                 thisFile: seq<string>)
    requires k < |records| && !Counted(records[k]) && ReaderAt(records, k, files, current, thisFile)
    ensures ReaderAt(records, k + 1, files, current, thisFile)
  {
    ReadStep(records, k);
  }

  /** A counted record: switch to its file when another one is current, then place its labels. */
  method ReadCounted(records: seq<Record>, k: nat, files: map<string, seq<string>>, current: Option<string>,
                     thisFile: seq<string>)
    returns (files': map<string, seq<string>>, thisFile': seq<string>)
    requires k < |records| && Counted(records[k]) && ReaderAt(records, k, files, current, thisFile)
    ensures ReaderAt(records, k + 1, files', Some(records[k].file), thisFile')
  {
    ghost var V0 := View(files, current, thisFile);
    var rec := records[k];
    files', thisFile' := files, thisFile;
    if current != Some(rec.file) {
      files', thisFile' := SwitchFile(files', current, thisFile', rec.file);
    }
    ghost var before := thisFile';
    ghost var V1 := View(files', Some(rec.file), thisFile');
    thisFile' := PlaceRecord(thisFile', rec);
    PlaceMeaning(before, rec);
    ViewStep(records, k, V0, V1, View(files', Some(rec.file), thisFile'));
    ReadStep(records, k);
  }

  /** One pass of the reading loop: SPEAKER records are skipped, any other record goes to its file. */
  method ReadRecord(records: seq<Record>, k: nat, files: map<string, seq<string>>, current: Option<string>,
                    thisFile: seq<string>)
    returns (files': map<string, seq<string>>, current': Option<string>, thisFile': seq<string>)
    requires k < |records| && ReaderAt(records, k, files, current, thisFile)
    ensures ReaderAt(records, k + 1, files', current', thisFile')
  {
    if records[k].kind == Speaker {
      SkipStep(records, k, files, current, thisFile);
      files', current', thisFile' := files, current, thisFile;
    } else {
      files', thisFile' := ReadCounted(records, k, files, current, thisFile);
      current' := Some(records[k].file);
    }
  }

  /**
   * The reading loop, as the script evidently intends: a file's labels are
   * kept while its records are read, and when another file's record comes
   * they are stored; a file met again continues from its stored labels.
   * With no record other than SPEAKER there is no file to write and the
   * script fails.
   */
  method ReadRttm(records: seq<Record>) returns (r: Option<map<string, seq<string>>>)
    ensures r.None? <==> Seen(records) == {}
    ensures r.Some? ==>
      r.value.Keys == Seen(records) && forall f :: f in r.value ==> r.value[f] == FileLabels(records, f)
  {
    var files: map<string, seq<string>> := map[];
    var current: Option<string> := None;
    var thisFile: seq<string> := [];
    for k := 0 to |records|
      invariant ReaderAt(records, k, files, current, thisFile)
    {
      files, current, thisFile := ReadRecord(records, k, files, current, thisFile);
    }
    assert records[..|records|] == records;
    if current.None? {
      return None;
    }
    files := files[current.value := thisFile];
    r := Some(files);
  }

  // ---------------------------------------------------------------- as written

  /**
   * A temporary reference file's words after its header: writing a list
   * joins it with spaces and no separator before it, so the first word
   * written after earlier words sticks to the last of them.
   */
  datatype RefText = RefText(words: seq<string>, endsWithSeparator: bool)

  function AppendJoined(t: RefText, labels: seq<string>): RefText
  {
    if |labels| == 0 then t
    else if t.endsWithSeparator || |t.words| == 0 then RefText(t.words + labels, false)
    else RefText(t.words[..|t.words| - 1] + [t.words[|t.words| - 1] + labels[0]] + labels[1..], false)
  }

  datatype Reader = Reader(files: map<string, RefText>, current: Option<string>, thisFile: seq<string>)

  /**
   * One record as the script handles it: on a change of file the previous
   * file's whole list is written (appended, when that file was opened for
   * appending); a file met again is reopened for appending after its words
   * are read back.
   */
  function StepAsWritten(st: Reader, r: Record): Reader
  {
    if !Counted(r) then st
    else
      var flushed :=
        if st.current != Some(r.file) && st.thisFile != [] && st.current.Some? && st.current.value in st.files
        then Reader(st.files[st.current.value := AppendJoined(st.files[st.current.value], st.thisFile)], st.current, [])
        else st;
      var reopened :=
        if st.current == Some(r.file) then flushed
        else if r.file !in flushed.files then Reader(flushed.files[r.file := RefText([], true)], Some(r.file), flushed.thisFile)
        else Reader(flushed.files, Some(r.file), flushed.files[r.file].words);
      Reader(reopened.files, reopened.current, Place(reopened.thisFile, r))
  }

  function ReadAllAsWritten(records: seq<Record>): Reader
  {
    if |records| == 0 then Reader(map[], None, [])
    else StepAsWritten(ReadAllAsWritten(records[..|records| - 1]), records[|records| - 1])
  }

  /** The words of every temporary file after the last record's list is written. */
  function RefFilesAsWritten(records: seq<Record>): map<string, seq<string>>
  {
    var st := ReadAllAsWritten(records);
    var files := if st.current.Some? && st.current.value in st.files
      then st.files[st.current.value := AppendJoined(st.files[st.current.value], st.thisFile)] else st.files;
    map f | f in files :: files[f].words
  }

  lemma PlaceOneSpeech(labels: seq<string>, r: Record)
    requires r.kind == Lexeme && r.start == |labels| && r.duration == 1
    ensures Place(labels, r) == labels + ["2"]
  {
    assert Fill("0", r.start - |labels|) == [];
    assert Fill("2", 1) == ["2"];
  }

  function Example(): seq<Record>
  {
    [Record(Lexeme, "a", 0, 1, "lex"), Record(Lexeme, "b", 0, 1, "lex"), Record(Lexeme, "a", 1, 1, "lex")]
  }

  lemma ExampleRead1()
    ensures ReadAllAsWritten(Example()[..1]) == Reader(map["a" := RefText([], true)], Some("a"), ["2"])
  {
    var rs := Example()[..1];
    assert rs[..0] == [];
    PlaceOneSpeech([], rs[0]);
  }

  lemma ExampleRead2()
    ensures ReadAllAsWritten(Example()[..2]) ==
      Reader(map["a" := RefText(["2"], false), "b" := RefText([], true)], Some("b"), ["2"])
  {
    var rs := Example()[..2];
    assert rs[..1] == Example()[..1];
    ExampleRead1();
    PlaceOneSpeech([], rs[1]);
    assert AppendJoined(RefText([], true), ["2"]) == RefText(["2"], false);
  }

  lemma ExampleRead3()
    ensures ReadAllAsWritten(Example()).current == Some("a")
    ensures ReadAllAsWritten(Example()).files["a"] == RefText(["2"], false)
    ensures ReadAllAsWritten(Example()).thisFile == ["2", "2"]
  {
    var rs := Example();
    assert rs[..2] == Example()[..2];
    ExampleRead2();
    PlaceOneSpeech(["2"], rs[2]);
  }

  lemma GlueExample()
    ensures AppendJoined(RefText(["2"], false), ["2", "2"]) == RefText(["22", "2"], false)
  {
    assert "2" + "2" == "22";
    assert ["2", "2"][1..] == ["2"];
    assert ["2"][..0] + ["22"] + ["2"] == ["22", "2"];
  }

  lemma ExampleLabels()
    ensures FileLabels(Example(), "a") == ["2", "2"]
  {
    var rs := Example();
    assert rs[..2][..1] == rs[..1] && rs[..1][..0] == [];
    PlaceOneSpeech([], rs[0]);
    PlaceOneSpeech(["2"], rs[2]);
    assert FileLabels(rs[..1], "a") == ["2"];
    assert FileLabels(rs[..2], "a") == ["2"];
  }

  /**
   * File a, then file b, then a again, one speech frame each: the script
   * leaves the words "22" "2" for a (frame 0's label written twice and glued
   * to frame 1's), so frame 0 is not speech, while a's records label both
   * frames "2".
   */
  lemma RevisitedFileGarbled()
    ensures RefFilesAsWritten(Example())["a"] == ["22", "2"]
    ensures FileLabels(Example(), "a") == ["2", "2"]
  {
    ExampleRead3();
    GlueExample();
    ExampleLabels();
  }

  // ---------------------------------------------------------------- runs

  /** A frame is in a segment when it is speech, or noise too when noise is kept. */
  function InSegment(labels: seq<string>, keepNoise: bool): (A: seq<bool>)
    ensures |A| == |labels|
    ensures forall q :: 0 <= q < |labels| ==> (A[q] <==> labels[q] == "2" || (keepNoise && labels[q] == "1"))
  {
    seq(|labels|, q requires 0 <= q < |labels| => labels[q] == "2" || (keepNoise && labels[q] == "1"))
  }

  /**
   * segs are exactly the maximal runs of true frames of A: each is a
   * non-empty true stretch bounded by false frames or the ends, they
   * ascend with gaps between them, and every true frame lies in one.
   */
  predicate MaximalRuns(A: seq<bool>, segs: seq<(int, int)>)
  {
    (forall k :: 0 <= k < |segs| ==>
      0 <= segs[k].0 < segs[k].1 <= |A| &&
      (forall f :: segs[k].0 <= f < segs[k].1 ==> A[f]) &&
      (segs[k].0 == 0 || !A[segs[k].0 - 1]) &&
      (segs[k].1 == |A| || !A[segs[k].1])) &&
    (forall k :: 0 <= k < |segs| - 1 ==> segs[k].1 < segs[k + 1].0) &&
    (forall f :: 0 <= f < |A| && A[f] ==> exists k :: 0 <= k < |segs| && segs[k].0 <= f < segs[k].1)
  }

  /** One run of true frames, bounded by false frames or the ends. */
  predicate RunOf(A: seq<bool>, seg: (int, int))
  {
    0 <= seg.0 < seg.1 <= |A| &&
    (forall f :: seg.0 <= f < seg.1 ==> A[f]) &&
    (seg.0 == 0 || !A[seg.0 - 1]) &&
    (seg.1 == |A| || !A[seg.1])
  }

  /** Every true frame before n lies in one of segs. */
  predicate CoveredBelow(A: seq<bool>, segs: seq<(int, int)>, n: int)
  {
    forall f :: 0 <= f < n && f < |A| && A[f] ==> exists k :: 0 <= k < |segs| && segs[k].0 <= f < segs[k].1
  }

  lemma MaximalRunsFrom(A: seq<bool>, segs: seq<(int, int)>)
    requires forall k :: 0 <= k < |segs| ==> RunOf(A, segs[k])
    requires forall k :: 0 <= k < |segs| - 1 ==> segs[k].1 < segs[k + 1].0
    requires CoveredBelow(A, segs, |A|)
    ensures MaximalRuns(A, segs)
  {
    forall k | 0 <= k < |segs| ensures RunOf(A, segs[k]) { }
  }

  /** A new run [n, p) covers its own frames and keeps the earlier ones covered. */
  lemma CoverRun(A: seq<bool>, segs: seq<(int, int)>, n: int, p: int)
    requires 0 <= n < p && CoveredBelow(A, segs, n)
    ensures CoveredBelow(A, segs + [(n, p)], p)
  {
    var segs' := segs + [(n, p)];
    forall f | 0 <= f < p && f < |A| && A[f]
      ensures exists k :: 0 <= k < |segs'| && segs'[k].0 <= f < segs'[k].1
    {
      if f < n {
        var k :| 0 <= k < |segs| && segs[k].0 <= f < segs[k].1;
        assert segs'[k] == segs[k];
      } else {
        assert segs'[|segs|] == (n, p);
      }
    }
  }

  /** What the walk of print_segments knows when it reaches frame n. */
  predicate WalkInv(A: seq<bool>, segs: seq<(int, int)>, n: int)
  {
    0 <= n <= |A| + 1 &&
    (0 < n < |A| ==> !A[n - 1] || !A[n]) &&
    (forall k :: 0 <= k < |segs| ==> RunOf(A, segs[k]) && segs[k].1 <= n) &&
    (forall k :: 0 <= k < |segs| - 1 ==> segs[k].1 < segs[k + 1].0) &&
    CoveredBelow(A, segs, n)
  }

  /** A run found at n is recorded, and the walk resumes at its end. */
  lemma WalkRun(A: seq<bool>, segs: seq<(int, int)>, n: int, p: int)
    requires WalkInv(A, segs, n) && n < |A| && A[n] && (n == 0 || !A[n - 1])
    requires n < p <= |A| && (forall f :: n <= f < p ==> A[f]) && (p == |A| || !A[p])
    ensures WalkInv(A, segs + [(n, p)], if p < |A| then p else p + 1)
  {
    assert |segs| > 0 ==> segs[|segs| - 1].1 < n;
    CoverRun(A, segs, n, p);
    var segs' := segs + [(n, p)];
    assert RunOf(A, (n, p));
    assert forall k :: 0 <= k < |segs| ==> segs'[k] == segs[k];
  }

  /** A frame that does not start a run is passed over: it is not in a segment, or already covered. */
  lemma WalkSkip(A: seq<bool>, segs: seq<(int, int)>, n: int)
    requires WalkInv(A, segs, n) && n < |A| && !(A[n] && (n == 0 || !A[n - 1]))
    ensures WalkInv(A, segs, n + 1)
  {
  }

  /** The inner scan: p runs from a run's first frame to just past its last. */
  method RunEnd(A: seq<bool>, n: int) returns (p: int)
    requires 0 <= n < |A| && A[n]
    ensures n < p <= |A| && (forall f :: n <= f < p ==> A[f]) && (p == |A| || !A[p])
  {
    p := n + 1;
    while p < |A| && A[p]
      invariant n < p <= |A|
      invariant forall f :: n <= f < p ==> A[f]
    {
      p := p + 1;
    }
  }

  /** At the end of the walk the runs found are the maximal runs, and there are none only when no frame is true. */
  lemma WalkDone(A: seq<bool>, segs: seq<(int, int)>, n: int)
    requires WalkInv(A, segs, n) && n >= |A|
    ensures MaximalRuns(A, segs)
    ensures |segs| == 0 <==> forall f :: 0 <= f < |A| ==> !A[f]
  {
    MaximalRunsFrom(A, segs);
    if |segs| > 0 {
      assert A[segs[0].0];
    }
  }

  /** The walk of print_segments: from each run's first frame, p scans to the run's end. */
  method FindSegments(A: seq<bool>) returns (segs: seq<(int, int)>)
    ensures MaximalRuns(A, segs)
    ensures |segs| == 0 <==> forall f :: 0 <= f < |A| ==> !A[f]
  {
    segs := [];
    var n := 0;
    while n < |A|
      invariant WalkInv(A, segs, n)
      decreases |A| + 1 - n
    {
      if A[n] && (n == 0 || !A[n - 1]) {
        var p := RunEnd(A, n);
        WalkRun(A, segs, n, p);
        segs := segs + [(n, p)];
        if p < |A| {
          n := p - 1;
        } else {
          n := p;
        }
      } else {
        WalkSkip(A, segs, n);
      }
      n := n + 1;
    }
    WalkDone(A, segs, n);
  }

  /** Some frame of A is in a segment. */
  predicate HasSegmentFrame(A: seq<bool>)
  {
    exists q :: 0 <= q < |A| && A[q]
  }

  /**
   * A file's output: its segments are the maximal runs of A, at least one;
   * the width is the least that holds the last run's end in hundredths; one
   * line per run.
   */
  predicate PrintedFor(o: Printed, A: seq<bool>, f: string, hundredths: int, sep: (string, string))
  {
    MaximalRuns(A, o.segments) && PrintedAs(o, f, o.segments, hundredths, sep)
  }

  /**
   * print_segments for one file: no run is fatal (exit 1); otherwise the
   * width follows the last run's end and each run gives one line.
   * hundredths is the frame shift in hundredths of a second.
   */
  method PrintSegments(A: seq<bool>, f: string, hundredths: int, sep: (string, string)) returns (r: Outcome<Printed>)
    ensures r.Exit? <==> !HasSegmentFrame(A)
    ensures r.Exit? ==> r.code == 1
    ensures r.Done? ==> PrintedFor(r.value, A, f, hundredths, sep)
  {
    var segs := FindSegments(A);
    if |segs| == 0 {
      return Exit(1);
    }
    var o := NameSegments(f, segs, hundredths, sep);
    r := Done(o);
  }

  /** The first k listed files are printed, each with at least one in-segment frame. */
  predicate PrintedUpTo(out: seq<Printed>, frames: seq<seq<bool>>, order: seq<string>, k: nat, hundredths: int,
                        sep: (string, string))
    requires k <= |order| == |frames|
  {
    |out| == k &&
    (k > 0 ==>
      PrintedUpTo(out[..k - 1], frames, order, k - 1, hundredths, sep) &&
      HasSegmentFrame(frames[k - 1]) && PrintedFor(out[k - 1], frames[k - 1], order[k - 1], hundredths, sep))
  }

  /** Each file printed so far is printed for its own frames. */
  lemma {:induction false} PrintedUpToMeaning(out: seq<Printed>, frames: seq<seq<bool>>, order: seq<string>, k: nat,
                                             hundredths: int, sep: (string, string), j: nat)
    requires k <= |order| == |frames| && PrintedUpTo(out, frames, order, k, hundredths, sep) && j < k
    ensures HasSegmentFrame(frames[j]) && PrintedFor(out[j], frames[j], order[j], hundredths, sep)
  {
    if j < k - 1 {
      PrintedUpToMeaning(out[..k - 1], frames, order, k - 1, hundredths, sep, j);
    }
  }

  /** The loop over the listed files, stopping at the first without segments; frames[k] are the k-th file's in-segment frames. */
  method PrintAll(frames: seq<seq<bool>>, order: seq<string>, hundredths: int, sep: (string, string))
    returns (r: Outcome<seq<Printed>>)
    requires |frames| == |order|
    ensures r.Exit? ==> r.code == 1
    ensures r.Done? <==> forall k :: 0 <= k < |order| ==> HasSegmentFrame(frames[k])
    ensures r.Done? ==> PrintedUpTo(r.value, frames, order, |order|, hundredths, sep)
  {
    var out: seq<Printed> := [];
    for k := 0 to |order|
      invariant PrintedUpTo(out, frames, order, k, hundredths, sep)
    {
      var printed := PrintSegments(frames[k], order[k], hundredths, sep);
      if printed.Exit? {
        return Exit(1);
      }
      assert (out + [printed.value])[..k] == out;
      out := out + [printed.value];
    }
    forall j | 0 <= j < |order|
      ensures HasSegmentFrame(frames[j])
    {
      PrintedUpToMeaning(out, frames, order, |order|, hundredths, sep, j);
    }
    r := Done(out);
  }

  /**
   * The script: read the records into per-file labels, then print the
   * segments of every file in the order the temporary files are listed.
   * Exit 1 when no record names a file or when a file has no in-segment
   * frame.
   */
  method GetRttmSegments(records: seq<Record>, order: seq<string>, keepNoise: bool, hundredths: int, sep: (string, string))
    returns (r: Outcome<seq<Printed>>)
    requires forall k :: 0 <= k < |order| ==> order[k] in Seen(records)
    requires forall f :: f in Seen(records) ==> f in order
    ensures r.Exit? ==> r.code == 1
    ensures r.Done? <==>
      Seen(records) != {} && forall k :: 0 <= k < |order| ==> HasSegmentFrame(InSegment(FileLabels(records, order[k]), keepNoise))
    ensures r.Done? ==> PrintedUpTo(r.value, LabelFrames(records, order, keepNoise), order, |order|, hundredths, sep)
  {
    var read := ReadRttm(records);
    if read.None? {
      return Exit(1);
    }
    var files := read.value;
    var frames := seq(|order|, k requires 0 <= k < |order| => InSegment(files[order[k]], keepNoise));
    assert frames == LabelFrames(records, order, keepNoise);
    r := PrintAll(frames, order, hundredths, sep);
  }

  /** The in-segment frames of each listed file. */
  function LabelFrames(records: seq<Record>, order: seq<string>, keepNoise: bool): (frames: seq<seq<bool>>)
    ensures |frames| == |order| && forall k :: 0 <= k < |order| ==> frames[k] == InSegment(FileLabels(records, order[k]), keepNoise)
  {
    seq(|order|, k requires 0 <= k < |order| => InSegment(FileLabels(records, order[k]), keepNoise))
  }
}
