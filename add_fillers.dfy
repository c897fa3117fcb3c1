/**
 * Adding fillers to a human transcription: the most frequent words the
 * decoder inserted (read from an insertion list) are written back into
 * the human CTM as filler words, at the places the decoder inserted them,
 * while the human CTM, the decoded CTM and the segments are walked with
 * three cursors.
 */
module AddFillers {
  import opened Outcomes
  import opened CtmCommon

  /** A CTM line, human or decoded: recording, channel, start, duration and word. */
  datatype CtmLine = CtmLine(file: string, channel: string, start: real, dur: real, word: string)

  /**
   * A line of the insertion list: its text, its whitespace-separated
   * fields, and the numbers the script reads from them (the count in
   * field 0 of a count line, the start and end in fields 2 and 3 of a
   * location line).
   */
  datatype ListLine = ListLine(text: string, fields: seq<string>, count: int, s: real, e: real)

  /** The counters written to the error stream at the end. */
  datatype Stats = Stats(insertions: nat, substitutions: nat, addedInside: nat, addedOutside: nat,
                         humanLines: nat, resegLines: nat, outLines: nat)

  const NoStats := Stats(0, 0, 0, 0, 0, 0, 0)

  // ---------------------------------------------------------------------
  // The insertion list: the count section and the top insertions
  // ---------------------------------------------------------------------

  /** What a regular expression anchored at the start of the line matches: a prefix. */
  predicate StartsWith(text: string, prefix: string)
  {
    |prefix| <= |text| && text[..|prefix|] == prefix
  }

  /** The first line from p on that starts with the marker, or the end of the list. */
  function FindFrom(ins: seq<ListLine>, p: nat, marker: string): (q: nat)
    requires p <= |ins|
    ensures p <= q <= |ins|
    ensures forall k :: p <= k < q ==> !StartsWith(ins[k].text, marker)
    ensures q < |ins| ==> StartsWith(ins[q].text, marker)
    decreases |ins| - p
  {
    if p == |ins| || StartsWith(ins[p].text, marker) then p else FindFrom(ins, p + 1, marker)
  }

  /** The line after the count marker; at the end of the list reading goes on returning nothing. */
  function CountsStart(ins: seq<ListLine>): (c: nat)
    ensures c <= |ins|
  {
    var m := FindFrom(ins, 0, "<Counts>");
    if m == |ins| then m else m + 1
  }

  /** Where the count section ends: the location marker or the end of the list. */
  function CountsEnd(ins: seq<ListLine>): (c: nat)
    ensures CountsStart(ins) <= c <= |ins|
  {
    FindFrom(ins, CountsStart(ins), "<Locations>")
  }

  /** The first location line: the one after the location marker. */
  function LocationsStart(ins: seq<ListLine>): (c: nat)
    ensures CountsEnd(ins) <= c <= |ins|
  {
    var m := CountsEnd(ins);
    if m == |ins| then m else m + 1
  }

  /** A quoted tag such as "<noise>": a quote and an angle bracket, then a closing bracket and quote later on. */
  predicate QuotedTag(w: string)
  {
    |w| >= 4 && w[0] == '"' && w[1] == '<' && TagCloses(w, 2)
  }

  /** Some position from k on holds a closing bracket followed by a quote. */
  predicate TagCloses(w: string, k: nat)
    decreases |w| - k
  {
    k + 1 < |w| && ((w[k] == '>' && w[k + 1] == '"') || TagCloses(w, k + 1))
  }

  /** The scan for the closing bracket and quote finds one exactly when there is one. */
  lemma {:induction false} TagClosesIff(w: string, k: nat)
    ensures TagCloses(w, k) <==> exists j :: k <= j < |w| - 1 && w[j] == '>' && w[j + 1] == '"'
    decreases |w| - k
  {
    if k + 1 < |w| {
      TagClosesIff(w, k + 1);
      if !(w[k] == '>' && w[k + 1] == '"') && !TagCloses(w, k + 1) {
        forall j | k <= j < |w| - 1
          ensures !(w[j] == '>' && w[j + 1] == '"')
        {
          if j > k {
            assert k + 1 <= j;
          }
        }
      }
    }
  }

  /** A word that may become a filler: neither the total nor a tag. */
  predicate Candidate(w: string)
  {
    w != "\"ALL\"" && !QuotedTag(w)
  }

  /** How many top insertions have been taken, and the words taken with their counts. */
  datatype Picked = Picked(n: nat, top: map<string, int>)

  /**
   * The count lines read in order: each must have two fields; a candidate
   * word is taken, with its count, while fewer than numFillers have been
   * taken, a repeated word overwriting its count. None when a line does
   * not have two fields.
   */
  function Pick(ls: seq<ListLine>, numFillers: int): Option<Picked>
  {
    if |ls| == 0 then Some(Picked(0, map[])) else PickLine(Pick(ls[..|ls| - 1], numFillers), ls[|ls| - 1], numFillers)
  }

  /** One count line read after the ones before it. */
  function PickLine(before: Option<Picked>, l: ListLine, numFillers: int): Option<Picked>
  {
    match before
    case None => None
    case Some(pk) =>
      if |l.fields| != 2 then None
      else if pk.n < numFillers && Candidate(l.fields[1]) then Some(Picked(pk.n + 1, pk.top[l.fields[1] := l.count]))
      else Some(pk)
  }

  /** Count line j has a candidate word. */
  predicate Eligible(l: ListLine)
  {
    |l.fields| == 2 && Candidate(l.fields[1])
  }

  /** The number of count lines with a candidate word. */
  function Eligibles(ls: seq<ListLine>): nat
  {
    if |ls| == 0 then 0 else Eligibles(ls[..|ls| - 1]) + (if Eligible(ls[|ls| - 1]) then 1 else 0)
  }

  /** Count line j is taken: it has a candidate word and fewer than numFillers candidates come before it. */
  predicate Selected(ls: seq<ListLine>, j: nat, numFillers: int)
    requires j < |ls|
  {
    Eligible(ls[j]) && Eligibles(ls[..j]) < numFillers
  }

  /** Reading the count lines fails exactly when one of them does not have two fields. */
  lemma {:induction false} PickFailsIff(ls: seq<ListLine>, numFillers: int)
    ensures Pick(ls, numFillers).None? <==> exists j :: 0 <= j < |ls| && |ls[j].fields| != 2
  {
    if |ls| > 0 {
      var init := ls[..|ls| - 1];
      PickFailsIff(init, numFillers);
      if Pick(init, numFillers).None? {
        var j :| 0 <= j < |init| && |init[j].fields| != 2;
        assert ls[j] == init[j];
      } else if |ls[|ls| - 1].fields| == 2 {
        forall j | 0 <= j < |ls|
          ensures |ls[j].fields| == 2
        {
          if j < |init| {
            assert ls[j] == init[j];
          }
        }
      }
    }
  }

  /** Exactly the first numFillers candidates are taken (all of them when there are fewer). */
  lemma {:induction false} PickCount(ls: seq<ListLine>, numFillers: int)
    requires Pick(ls, numFillers).Some?
    ensures var n := Pick(ls, numFillers).value.n;
      n == (if Eligibles(ls) < numFillers then Eligibles(ls) else if numFillers < 0 then 0 else numFillers)
    ensures |Pick(ls, numFillers).value.top.Keys| <= Pick(ls, numFillers).value.n
  {
    if |ls| > 0 {
      var init := ls[..|ls| - 1];
      PickCount(init, numFillers);
      var pk := Pick(init, numFillers).value;
      var l := ls[|ls| - 1];
      if pk.n < numFillers && Candidate(l.fields[1]) {
        assert pk.top[l.fields[1] := l.count].Keys == pk.top.Keys + {l.fields[1]};
      }
    }
  }

  /** A word is a top insertion exactly when some taken count line carries it. */
  lemma {:induction false} PickWords(ls: seq<ListLine>, numFillers: int, w: string)
    requires Pick(ls, numFillers).Some?
    ensures w in Pick(ls, numFillers).value.top <==>
      exists j :: 0 <= j < |ls| && Selected(ls, j, numFillers) && ls[j].fields[1] == w
  {
    if |ls| > 0 {
      var init := ls[..|ls| - 1];
      var last := |ls| - 1;
      PickWords(init, numFillers, w);
      PickCount(init, numFillers);
      assert ls[..last] == init;
      forall j | 0 <= j < |init|
        ensures Selected(ls, j, numFillers) == Selected(init, j, numFillers)
      {
        assert ls[..j] == init[..j];
      }
      if w in Pick(ls, numFillers).value.top && w !in Pick(init, numFillers).value.top {
        assert Selected(ls, last, numFillers) && ls[last].fields[1] == w;
      }
      if exists j :: 0 <= j < |ls| && Selected(ls, j, numFillers) && ls[j].fields[1] == w {
        var j :| 0 <= j < |ls| && Selected(ls, j, numFillers) && ls[j].fields[1] == w;
        if j < last {
          assert Selected(init, j, numFillers) && init[j].fields[1] == w;
        }
      }
    }
  }

  /** A taken word's count is the count on one of the lines that carry it. */
  lemma {:induction false} PickCounts(ls: seq<ListLine>, numFillers: int, w: string)
    requires Pick(ls, numFillers).Some? && w in Pick(ls, numFillers).value.top
    ensures exists j :: 0 <= j < |ls| && Selected(ls, j, numFillers) && ls[j].fields[1] == w && Pick(ls, numFillers).value.top[w] == ls[j].count
  {
    var init := ls[..|ls| - 1];
    var last := |ls| - 1;
    PickCount(init, numFillers);
    assert ls[..last] == init;
    if w in Pick(init, numFillers).value.top && Pick(ls, numFillers).value.top[w] == Pick(init, numFillers).value.top[w] {
      PickCounts(init, numFillers, w);
      var j :| 0 <= j < |init| && Selected(init, j, numFillers) && init[j].fields[1] == w && Pick(init, numFillers).value.top[w] == init[j].count;
      assert ls[..j] == init[..j];
      assert Selected(ls, j, numFillers) && ls[j] == init[j];
    } else {
      assert Selected(ls, last, numFillers);
    }
  }

  /** Skips the lines before the count marker and the marker itself. */
  method SkipToCounts(ins: seq<ListLine>) returns (p: nat)
    ensures p == CountsStart(ins)
  {
    p := 0;
    while p < |ins| && !StartsWith(ins[p].text, "<Counts>")
      invariant p <= |ins|
      invariant FindFrom(ins, 0, "<Counts>") == FindFrom(ins, p, "<Counts>")
      decreases |ins| - p
    {
      p := p + 1;
    }
    if p < |ins| {
      p := p + 1;
    }
  }

  /** A count line with the wrong number of fields fails the whole section. */
  lemma PickFailsLater(ls: seq<ListLine>, j: nat, numFillers: int)
    requires j <= |ls| && Pick(ls[..j], numFillers).None?
    ensures Pick(ls, numFillers).None?
  {
    PickFailsIff(ls[..j], numFillers);
    var k :| 0 <= k < j && |ls[..j][k].fields| != 2;
    PickFailsIff(ls, numFillers);
    assert |ls[k].fields| != 2;
  }

  /**
   * Reads the insertion list up to the location lines: skips to the count
   * marker, then takes the top insertions from the count lines. A count
   * line without exactly two fields ends the program with status 1.
   */
  method ReadTopInsertions(ins: seq<ListLine>, numFillers: int) returns (r: Outcome<(map<string, int>, nat)>)
    ensures var ls := ins[CountsStart(ins)..CountsEnd(ins)];
      (r.Exit? <==> Pick(ls, numFillers).None?) &&
      (r.Exit? ==> r.code == 1) &&
      (r.Done? ==> r.value == (Pick(ls, numFillers).value.top, LocationsStart(ins)))
  {
    var p := SkipToCounts(ins);
    ghost var cs := p;
    ghost var ce := CountsEnd(ins);
    var n := 0;
    var top: map<string, int> := map[];
    while p < |ins| && !StartsWith(ins[p].text, "<Locations>")
      invariant cs <= p <= ce
      invariant FindFrom(ins, p, "<Locations>") == ce
      invariant Pick(ins[cs..p], numFillers) == Some(Picked(n, top))
      decreases |ins| - p
    {
      CountStep(ins, cs, p, numFillers);
      var ok, n', top' := ReadCountLine(ins[p], n, top, numFillers);
      if !ok {
        PickFailsLater(ins[cs..ce], p + 1 - cs, numFillers);
        return Exit(1);
      }
      n, top := n', top';
      p := p + 1;
    }
    if p < |ins| {
      p := p + 1;
    }
    return Done((top, p));
  }

  /** The count section read one more line. */
  lemma CountStep(ins: seq<ListLine>, cs: nat, p: nat, numFillers: int)
    requires cs <= p < |ins| && p < FindFrom(ins, p, "<Locations>")
    ensures Pick(ins[cs..p + 1], numFillers) == PickLine(Pick(ins[cs..p], numFillers), ins[p], numFillers)
    ensures ins[cs..FindFrom(ins, p, "<Locations>")][..p + 1 - cs] == ins[cs..p + 1]
  {
    assert ins[cs..p + 1][..p - cs] == ins[cs..p];
  }

  /** One count line: fails without two fields, otherwise takes a candidate word while fewer than numFillers are taken. */
  method ReadCountLine(l: ListLine, n: nat, top: map<string, int>, numFillers: int)
    returns (ok: bool, n': nat, top': map<string, int>)
    ensures ok <==> PickLine(Some(Picked(n, top)), l, numFillers).Some?
    ensures ok ==> PickLine(Some(Picked(n, top)), l, numFillers) == Some(Picked(n', top'))
  {
    if |l.fields| != 2 {
      return false, n, top;
    }
    var w := l.fields[1];
    ok, n', top' := true, n, top;
    if n < numFillers && w != "\"ALL\"" && !QuotedTag(w) {
      top' := top[w := l.count];
      n' := n + 1;
    }
  }

  // ---------------------------------------------------------------------
  // Filler names
  // ---------------------------------------------------------------------

  /** The first double quote at or after i, or the length of the word. */
  function QuoteFrom(w: string, i: nat): (q: nat)
    requires i <= |w|
    ensures i <= q <= |w|
    decreases |w| - i
  {
    if i == |w| || w[i] == '"' then i else QuoteFrom(w, i + 1)
  }

  /** QuoteFrom finds the first quote from i on. */
  lemma {:induction false} QuoteFromFirst(w: string, i: nat)
    requires i <= |w|
    ensures var q := QuoteFrom(w, i);
      (forall k :: i <= k < q ==> w[k] != '"') && (q < |w| ==> w[q] == '"')
    decreases |w| - i
  {
    if i < |w| && w[i] != '"' {
      QuoteFromFirst(w, i + 1);
    }
  }

  /** The last double quote of the word, or -1. */
  function LastQuote(w: string): (q: int)
    ensures -1 <= q < |w|
  {
    if |w| == 0 then -1 else if w[|w| - 1] == '"' then |w| - 1 else LastQuote(w[..|w| - 1])
  }

  /** LastQuote finds the last quote. */
  lemma {:induction false} LastQuoteLast(w: string)
    ensures var q := LastQuote(w);
      (forall k :: q < k < |w| ==> w[k] != '"') && (q >= 0 ==> w[q] == '"')
  {
    if |w| > 0 && w[|w| - 1] != '"' {
      LastQuoteLast(w[..|w| - 1]);
    }
  }

  /**
   * The text between the first and the last double quote, as a search
   * for a quote, any text, and a quote finds it; None when the word has
   * fewer than two quotes.
   */
  function Quoted(w: string): Option<string>
  {
    var a := QuoteFrom(w, 0);
    var b := LastQuote(w);
    if a < b then Some(w[a + 1..b]) else None
  }

  /**
   * The filler written for an inserted word: the quoted text in angle
   * brackets when the word was inserted more often than the threshold,
   * otherwise the unknown word. None when a frequent word has no quoted text.
   */
  function FillerName(w: string, count: int, threshold: int): Option<string>
  {
    if count > threshold then
      match Quoted(w)
      case None => None
      case Some(x) => Some("<" + x + ">")
    else Some("<unk>")
  }

  /** A quoted word gives its text in angle brackets, whatever the text holds. */
  lemma QuotedFillerName(x: string, count: int, threshold: int)
    ensures FillerName("\"" + x + "\"", count, threshold) == Some(if count > threshold then "<" + x + ">" else "<unk>")
  {
    var w := "\"" + x + "\"";
    assert QuoteFrom(w, 0) == 0;
    assert LastQuote(w) == |w| - 1;
    assert w[1..|w| - 1] == x;
  }

  /** The name is missing exactly for a frequent word with fewer than two quotes. */
  lemma FillerNameFailsIff(w: string, count: int, threshold: int)
    ensures FillerName(w, count, threshold).None? <==>
      count > threshold && !exists a, b :: 0 <= a < b < |w| && w[a] == '"' && w[b] == '"'
  {
    var a := QuoteFrom(w, 0);
    var b := LastQuote(w);
    QuoteFromFirst(w, 0);
    LastQuoteLast(w);
    if a < b {
      assert w[a] == '"' && w[b] == '"';
    }
  }

  /** What a filler's word looks like: angle brackets around it. */
  predicate Bracketed(name: string)
  {
    |name| >= 2 && name[0] == '<' && name[|name| - 1] == '>'
  }

  /** Every filler name is bracketed. */
  lemma FillerNameBracketed(w: string, count: int, threshold: int)
    requires FillerName(w, count, threshold).Some?
    ensures Bracketed(FillerName(w, count, threshold).value)
  {
  }

  // ---------------------------------------------------------------------
  // The location lines and the three cursors
  // ---------------------------------------------------------------------

  /** The script's inputs besides the insertion list, already sorted by recording, channel and start. */
  datatype Sources = Sources(human: seq<CtmLine>, reseg: seq<CtmLine>, segs: seq<Seg>, top: map<string, int>, threshold: int)

  /** An output line: a human CTM line passed through, or a filler made from a decoded line. */
  datatype Out = Human(line: CtmLine) | Filler(line: CtmLine)

  datatype Cursors = Cursors(human: nat, reseg: nat, seg: nat)

  /** The cursors, the lines written so far and the counters. */
  datatype Progress = Progress(at: Cursors, out: seq<Out>, stats: Stats)

  /** After a location line: go on, stop reading locations, or end the program with status 1. */
  datatype Step = Go(p: Progress) | Halt(p: Progress) | Fail

  /** The cursors stay within their files. */
  predicate Fits(src: Sources, c: Cursors)
  {
    c.human <= |src.human| && c.reseg <= |src.reseg| && c.seg <= |src.segs|
  }

  /** A human line at or before the location: an earlier recording, or the same one starting no later. */
  predicate HumanBefore(h: CtmLine, f: string, s: real)
  {
    StrLess(h.file, f) || (h.file == f && h.start <= s)
  }

  /** A decoded line before the location: an earlier recording, or the same one starting earlier. */
  predicate ResegBefore(r: CtmLine, f: string, s: real)
  {
    StrLess(r.file, f) || (r.file == f && r.start < s)
  }

  /** A segment ended before the location: an earlier recording, or the same one ending earlier. */
  predicate SegBefore(g: Seg, f: string, s: real)
  {
    StrLess(g.file, f) || (g.file == f && g.e < s)
  }

  /** The human cursor moved past every line at or before the location. */
  function HumanEnd(h: seq<CtmLine>, p: nat, f: string, s: real): (q: nat)
    requires p <= |h|
    ensures p <= q <= |h|
    decreases |h| - p
  {
    if p < |h| && HumanBefore(h[p], f, s) then HumanEnd(h, p + 1, f, s) else p
  }

  /** HumanEnd stops at the first line from p on that is not before the location. */
  lemma {:induction false} HumanEndFirst(h: seq<CtmLine>, p: nat, f: string, s: real)
    requires p <= |h|
    ensures var q := HumanEnd(h, p, f, s);
      (forall k :: p <= k < q ==> HumanBefore(h[k], f, s)) && (q < |h| ==> !HumanBefore(h[q], f, s))
    decreases |h| - p
  {
    if p < |h| && HumanBefore(h[p], f, s) {
      HumanEndFirst(h, p + 1, f, s);
    }
  }

  /** The decoded cursor moved past every line before the location. */
  function ResegEnd(r: seq<CtmLine>, p: nat, f: string, s: real): (q: nat)
    requires p <= |r|
    ensures p <= q <= |r|
    decreases |r| - p
  {
    if p < |r| && ResegBefore(r[p], f, s) then ResegEnd(r, p + 1, f, s) else p
  }

  /** ResegEnd stops at the first line from p on that is not before the location. */
  lemma {:induction false} ResegEndFirst(r: seq<CtmLine>, p: nat, f: string, s: real)
    requires p <= |r|
    ensures var q := ResegEnd(r, p, f, s);
      (forall k :: p <= k < q ==> ResegBefore(r[k], f, s)) && (q < |r| ==> !ResegBefore(r[q], f, s))
    decreases |r| - p
  {
    if p < |r| && ResegBefore(r[p], f, s) {
      ResegEndFirst(r, p + 1, f, s);
    }
  }

  /** The segment cursor moved past every segment ended before the location. */
  function SegEnd(g: seq<Seg>, p: nat, f: string, s: real): (q: nat)
    requires p <= |g|
    ensures p <= q <= |g|
    decreases |g| - p
  {
    if p < |g| && SegBefore(g[p], f, s) then SegEnd(g, p + 1, f, s) else p
  }

  /** SegEnd stops at the first segment from p on that is not ended before the location. */
  lemma {:induction false} SegEndFirst(g: seq<Seg>, p: nat, f: string, s: real)
    requires p <= |g|
    ensures var q := SegEnd(g, p, f, s);
      (forall k :: p <= k < q ==> SegBefore(g[k], f, s)) && (q < |g| ==> !SegBefore(g[q], f, s))
    decreases |g| - p
  {
    if p < |g| && SegBefore(g[p], f, s) {
      SegEndFirst(g, p + 1, f, s);
    }
  }

  /** Human lines written as they are. */
  function Tag(ls: seq<CtmLine>): seq<Out>
  {
    seq(|ls|, k requires 0 <= k < |ls| => Human(ls[k]))
  }

  /** The written lines, without telling human lines from fillers. */
  function Untag(os: seq<Out>): seq<CtmLine>
  {
    seq(|os|, k requires 0 <= k < |os| => os[k].line)
  }

  /** A location line: six fields for an insertion, seven for a substitution whose last field is a quoted tag. */
  predicate WellFormed(l: ListLine)
  {
    |l.fields| == 6 || (|l.fields| == 7 && QuotedTag(l.fields[6]))
  }

  /** The decoded line at the cursor is the located word: same start and end to within a millionth, same recording. */
  predicate Matches(r: CtmLine, l: ListLine)
    requires |l.fields| >= 1
  {
    Abs(l.s - r.start) < 0.000001 && Abs(l.e - r.dur - r.start) < 0.000001 && l.fields[0] == r.file
  }

  function Abs(x: real): real
  {
    if x < 0.0 then -x else x
  }

  /** No segment of the recording reaches the located word: the next segment is in another recording or starts after the word ends. */
  predicate Outside(g: seq<Seg>, sp: nat, f: string, e: real)
  {
    sp >= |g| || g[sp].file != f || g[sp].s > e
  }

  /** The human words around the human cursor are the decoded words around the located word. */
  predicate NeighboursAgree(h: seq<CtmLine>, r: seq<CtmLine>, hp: nat, rp: nat)
  {
    1 <= hp < |h| && 1 <= rp && rp + 1 < |r| && h[hp - 1].word == r[rp - 1].word && h[hp].word == r[rp + 1].word
  }

  /**
   * One location line: the human lines up to it are written; the decoded
   * cursor moves to it (stopping the whole loop at the end of the decoded
   * CTM); the segment cursor moves to it; the decoded line must be the
   * located word. Then an insertion may add its filler.
   */
  function Process(src: Sources, p: Progress, l: ListLine): (r: Step)
    requires Fits(src, p.at)
    ensures !r.Fail? ==> Fits(src, r.p.at)
  {
    if !WellFormed(l) then Fail
    else
      var f, s := l.fields[0], l.s;
      var stats := if |l.fields| == 6 then p.stats.(insertions := p.stats.insertions + 1)
                   else p.stats.(substitutions := p.stats.substitutions + 1);
      var hp := HumanEnd(src.human, p.at.human, f, s);
      var out := p.out + Tag(src.human[p.at.human..hp]);
      var rp := ResegEnd(src.reseg, p.at.reseg, f, s);
      if rp == |src.reseg| then Halt(Progress(Cursors(hp, rp, p.at.seg), out, stats))
      else
        var sp := SegEnd(src.segs, p.at.seg, f, s);
        if !Matches(src.reseg[rp], l) then Fail
        else Place(src, Progress(Cursors(hp, rp, sp), out, stats), l)
  }

  /**
   * An insertion of a top word gets a filler when it lies outside the
   * segments, or inside one with the neighbouring words agreeing; the
   * filler is the decoded line with the filler name as its word.
   */
  function Place(src: Sources, q: Progress, l: ListLine): (r: Step)
    requires Fits(src, q.at) && q.at.reseg < |src.reseg| && WellFormed(l)
    ensures !r.Fail? ==> r.p.at == q.at
  {
    if |l.fields| == 7 then Go(q)
    else
      var w := l.fields[5];
      var outside := Outside(src.segs, q.at.seg, l.fields[0], l.e);
      if w !in src.top || (!outside && !NeighboursAgree(src.human, src.reseg, q.at.human, q.at.reseg)) then Go(q)
      else
        match FillerName(w, src.top[w], src.threshold)
        case None => Fail
        case Some(name) =>
          var line := src.reseg[q.at.reseg].(word := name);
          var stats := if outside then q.stats.(addedOutside := q.stats.addedOutside + 1)
                       else q.stats.(addedInside := q.stats.addedInside + 1);
          Go(Progress(q.at, q.out + [Filler(line)], stats))
  }

  const Start := Progress(Cursors(0, 0, 0), [], NoStats)

  /** The location lines read in order; once stopped or failed, later lines change nothing. */
  function Run(src: Sources, ls: seq<ListLine>, n: nat): (r: Step)
    requires n <= |ls|
    ensures !r.Fail? ==> Fits(src, r.p.at)
  {
    if n == 0 then Go(Start) else Then(src, Run(src, ls, n - 1), ls[n - 1])
  }

  /** The next location line after a step: processed only while the loop goes on. */
  function Then(src: Sources, r: Step, l: ListLine): (r': Step)
    requires !r.Fail? ==> Fits(src, r.p.at)
    ensures !r'.Fail? ==> Fits(src, r'.p.at)
  {
    if r.Go? then Process(src, r.p, l) else r
  }

  /** The human lines after the last location are written, and the line counts are set. */
  function Finish(src: Sources, p: Progress): Progress
    requires Fits(src, p.at)
  {
    var out := p.out + Tag(src.human[p.at.human..]);
    Progress(p.at, out, p.stats.(humanLines := |src.human|, resegLines := |src.reseg|, outLines := |out|))
  }

  /** The whole script on its inputs: the written lines with their origin, and the counters; None for exit status 1. */
  function Result(ins: seq<ListLine>, human: seq<CtmLine>, reseg: seq<CtmLine>, segs: seq<Seg>,
                  numFillers: int, threshold: int): Option<Progress>
  {
    match Pick(ins[CountsStart(ins)..CountsEnd(ins)], numFillers)
    case None => None
    case Some(pk) =>
      var src := Sources(human, reseg, segs, pk.top, threshold);
      var locs := ins[LocationsStart(ins)..];
      Conclude(src, Run(src, locs, |locs|))
  }

  /** After the last location line: nothing on failure, otherwise the finished output. */
  function Conclude(src: Sources, r: Step): Option<Progress>
    requires !r.Fail? ==> Fits(src, r.p.at)
  {
    if r.Fail? then None else Some(Finish(src, r.p))
  }

  // ---------------------------------------------------------------------
  // The script
  // ---------------------------------------------------------------------

  datatype Status = Continue | Stopped | Failed

  /**
   * The whole script: the top insertions, then the location lines with
   * the three cursors, then the human lines left over. Every error the
   * script can meet in these steps ends it with status 1.
   */
  method AddFillers(ins: seq<ListLine>, human: seq<CtmLine>, reseg: seq<CtmLine>, segs: seq<Seg>,
                    numFillers: int, threshold: int)
    returns (r: Outcome<(seq<CtmLine>, Stats)>)
    ensures var res := Result(ins, human, reseg, segs, numFillers, threshold);
      (r.Exit? <==> res.None?) &&
      (r.Exit? ==> r.code == 1) &&
      (r.Done? ==> r.value.0 == Untag(res.value.out) && r.value.1 == res.value.stats)
  {
    var t := ReadTopInsertions(ins, numFillers);
    if t.Exit? {
      return Exit(1);
    }
    var top, lo := t.value.0, t.value.1;
    var src := Sources(human, reseg, segs, top, threshold);
    var locs := ins[lo..];
    assert Result(ins, human, reseg, segs, numFillers, threshold) == Conclude(src, Run(src, locs, |locs|));
    r := Locations(src, locs);
  }

  /** The location lines from `lo` on, then the human lines left over. */
  method Locations(src: Sources, locs: seq<ListLine>) returns (r: Outcome<(seq<CtmLine>, Stats)>)
    ensures var res := Conclude(src, Run(src, locs, |locs|));
      (r.Exit? <==> res.None?) &&
      (r.Exit? ==> r.code == 1) &&
      (r.Done? ==> r.value.0 == Untag(res.value.out) && r.value.1 == res.value.stats)
  {
    var k := 0;
    var hp: nat, rp: nat, sp: nat := 0, 0, 0;
    var out: seq<CtmLine> := [];
    var stats := NoStats;
    ghost var tagged: seq<Out> := [];
    while k < |locs|
      invariant k <= |locs|
      invariant Fits(src, Cursors(hp, rp, sp)) && out == Untag(tagged)
      invariant Run(src, locs, k) == Go(Progress(Cursors(hp, rp, sp), tagged, stats))
      decreases |locs| - k
    {
      var status, hp', rp', sp', out', stats', tagged' := RunLine(src, locs, k, hp, rp, sp, out, stats, locs[k], tagged);
      if status == Failed {
        return Exit(1);
      }
      hp, rp, sp, out, stats, tagged := hp', rp', sp', out', stats', tagged';
      if status == Stopped {
        r := WriteRest(src, hp, rp, sp, stats, out, tagged);
        return;
      }
      k := k + 1;
    }
    r := WriteRest(src, hp, rp, sp, stats, out, tagged);
  }

  /** After the location lines: the human lines left over are written and the line counts set. */
  method WriteRest(src: Sources, hp: nat, rp: nat, sp: nat, stats: Stats, out: seq<CtmLine>, ghost tagged: seq<Out>)
    returns (r: Outcome<(seq<CtmLine>, Stats)>)
    requires Fits(src, Cursors(hp, rp, sp)) && out == Untag(tagged)
    ensures var p := Finish(src, Progress(Cursors(hp, rp, sp), tagged, stats));
      r == Done((Untag(p.out), p.stats))
  {
    var out' := AppendHumans(src.human, hp, out);
    UntagTag(tagged, src.human[hp..]);
    var stats := stats.(humanLines := |src.human|, resegLines := |src.reseg|, outLines := |out'|);
    return Done((out', stats));
  }

  /** The human lines after the last location, written in order. */
  method AppendHumans(human: seq<CtmLine>, hp: nat, out: seq<CtmLine>) returns (out': seq<CtmLine>)
    requires hp <= |human|
    ensures out' == out + human[hp..]
  {
    out' := out;
    var i := hp;
    while i < |human|
      invariant hp <= i <= |human|
      invariant out' == out + human[hp..i]
    {
      assert human[hp..i + 1] == human[hp..i] + [human[i]];
      out' := out' + [human[i]];
      i := i + 1;
    }
  }

  /** One location line, as the loop body runs it: the status says whether to go on, stop, or exit with status 1. */
  method ProcessLine(src: Sources, hp: nat, rp: nat, sp: nat, out: seq<CtmLine>, stats: Stats, l: ListLine, ghost tagged: seq<Out>)
    returns (status: Status, hp': nat, rp': nat, sp': nat, out': seq<CtmLine>, stats': Stats)
    requires Fits(src, Cursors(hp, rp, sp)) && out == Untag(tagged)
    ensures var r := Process(src, Progress(Cursors(hp, rp, sp), tagged, stats), l);
      (status == Failed <==> r.Fail?) && (status == Stopped <==> r.Halt?) &&
      (!r.Fail? ==> r.p.at == Cursors(hp', rp', sp') && r.p.stats == stats' && out' == Untag(r.p.out))
  {
    hp', rp', sp', out', stats' := hp, rp, sp, out, stats;
    if |l.fields| == 6 {
      stats' := stats.(insertions := stats.insertions + 1);
    } else if |l.fields| == 7 {
      stats' := stats.(substitutions := stats.substitutions + 1);
      if !QuotedTag(l.fields[6]) {
        return Failed, hp', rp', sp', out', stats';
      }
    } else {
      return Failed, hp', rp', sp', out', stats';
    }
    var f, s, e := l.fields[0], l.s, l.e;
    var moved;
    hp', moved := AdvanceHuman(src.human, hp, f, s);
    out' := out + moved;
    UntagTag(tagged, moved);
    rp' := AdvanceReseg(src.reseg, rp, f, s);
    if rp' == |src.reseg| {
      return Stopped, hp', rp', sp', out', stats';
    }
    sp' := AdvanceSeg(src.segs, sp, f, s);
    var r := src.reseg[rp'];
    if !(Abs(s - r.start) < 0.000001 && Abs(e - r.dur - r.start) < 0.000001 && f == r.file) {
      return Failed, hp', rp', sp', out', stats';
    }
    status, out', stats' := PlaceLine(src, hp', rp', sp', stats', out', l, tagged + Tag(moved));
  }

  /** An insertion of a top word may add its filler after the located decoded line. */
  method PlaceLine(src: Sources, hp: nat, rp: nat, sp: nat, stats: Stats, out: seq<CtmLine>, l: ListLine, ghost tagged: seq<Out>)
    returns (status: Status, out': seq<CtmLine>, stats': Stats)
    requires Fits(src, Cursors(hp, rp, sp)) && rp < |src.reseg| && WellFormed(l) && out == Untag(tagged)
    ensures var r := Place(src, Progress(Cursors(hp, rp, sp), tagged, stats), l);
      (status == Failed <==> r.Fail?) && status != Stopped &&
      (!r.Fail? ==> r.p.stats == stats' && out' == Untag(r.p.out))
  {
    status, out', stats' := Continue, out, stats;
    var r := src.reseg[rp];
    var f, e := l.fields[0], l.e;
    if |l.fields| == 6 {
      var w := l.fields[5];
      var outside := sp >= |src.segs| || src.segs[sp].file != f || src.segs[sp].s > e;
      var adds := if outside then w in src.top
                  else w in src.top && NeighboursAgree(src.human, src.reseg, hp, rp);
      if adds {
        var name := FillerName(w, src.top[w], src.threshold);
        if name.None? {
          return Failed, out', stats';
        }
        if outside {
          stats' := stats'.(addedOutside := stats'.addedOutside + 1);
        } else {
          stats' := stats'.(addedInside := stats'.addedInside + 1);
        }
        UntagFiller(tagged, r.(word := name.value));
        out' := out' + [r.(word := name.value)];
      }
    }
  }

  /** The loop body: one location line run from the state the lines before it reached. */
  method RunLine(src: Sources, ghost locs: seq<ListLine>, ghost k: nat,
                 hp: nat, rp: nat, sp: nat, out: seq<CtmLine>, stats: Stats, l: ListLine, ghost tagged: seq<Out>)
    returns (status: Status, hp': nat, rp': nat, sp': nat, out': seq<CtmLine>, stats': Stats, ghost tagged': seq<Out>)
    requires k < |locs| && l == locs[k]
    requires Fits(src, Cursors(hp, rp, sp)) && out == Untag(tagged)
    requires Run(src, locs, k) == Go(Progress(Cursors(hp, rp, sp), tagged, stats))
    ensures status != Failed ==> Fits(src, Cursors(hp', rp', sp')) && out' == Untag(tagged')
    ensures status == Failed ==> Run(src, locs, |locs|) == Fail
    ensures status == Stopped ==> Run(src, locs, |locs|) == Halt(Progress(Cursors(hp', rp', sp'), tagged', stats'))
    ensures status == Continue ==> Run(src, locs, k + 1) == Go(Progress(Cursors(hp', rp', sp'), tagged', stats'))
  {
    LineOutcome(src, locs, k);
    ghost var step := Run(src, locs, k + 1);
    status, hp', rp', sp', out', stats' := ProcessLine(src, hp, rp, sp, out, stats, l, tagged);
    tagged' := if step.Fail? then [] else step.p.out;
  }

  /** One more location line either keeps going or settles the result of the whole list. */
  lemma LineOutcome(src: Sources, ls: seq<ListLine>, k: nat)
    requires k < |ls| && Run(src, ls, k).Go?
    ensures Run(src, ls, k + 1) == Process(src, Run(src, ls, k).p, ls[k])
    ensures !Run(src, ls, k + 1).Go? ==> Run(src, ls, |ls|) == Run(src, ls, k + 1)
  {
    assert Run(src, ls, k + 1) == Then(src, Run(src, ls, k), ls[k]);
    if !Run(src, ls, k + 1).Go? {
      Stays(src, ls, k + 1, |ls|);
    }
  }

  /** Writes the human lines at or before the location and moves the human cursor past them. */
  method AdvanceHuman(h: seq<CtmLine>, p: nat, f: string, s: real) returns (q: nat, moved: seq<CtmLine>)
    requires p <= |h|
    ensures q == HumanEnd(h, p, f, s) && moved == h[p..q]
  {
    q, moved := p, [];
    while q < |h| && (StrLess(h[q].file, f) || (h[q].file == f && h[q].start <= s))
      invariant p <= q <= |h|
      invariant HumanEnd(h, p, f, s) == HumanEnd(h, q, f, s)
      invariant moved == h[p..q]
      decreases |h| - q
    {
      assert h[p..q + 1] == h[p..q] + [h[q]];
      moved := moved + [h[q]];
      q := q + 1;
    }
  }

  /** Moves the decoded cursor past the lines before the location. */
  method AdvanceReseg(r: seq<CtmLine>, p: nat, f: string, s: real) returns (q: nat)
    requires p <= |r|
    ensures q == ResegEnd(r, p, f, s)
  {
    q := p;
    while q < |r| && (StrLess(r[q].file, f) || (r[q].file == f && r[q].start < s))
      invariant p <= q <= |r|
      invariant ResegEnd(r, p, f, s) == ResegEnd(r, q, f, s)
      decreases |r| - q
    {
      q := q + 1;
    }
  }

  /** Moves the segment cursor past the segments ended before the location. */
  method AdvanceSeg(g: seq<Seg>, p: nat, f: string, s: real) returns (q: nat)
    requires p <= |g|
    ensures q == SegEnd(g, p, f, s)
  {
    q := p;
    while q < |g| && (StrLess(g[q].file, f) || (g[q].file == f && g[q].e < s))
      invariant p <= q <= |g|
      invariant SegEnd(g, p, f, s) == SegEnd(g, q, f, s)
      decreases |g| - q
    {
      q := q + 1;
    }
  }

  lemma UntagTag(os: seq<Out>, ls: seq<CtmLine>)
    ensures Untag(os + Tag(ls)) == Untag(os) + ls
  {
    assert Untag(os + Tag(ls)) == Untag(os) + Untag(Tag(ls));
  }

  lemma UntagFiller(os: seq<Out>, line: CtmLine)
    ensures Untag(os + [Filler(line)]) == Untag(os) + [line]
  {
  }

  /** Once the loop has stopped or failed, the location lines after change nothing. */
  lemma {:induction false} Stays(src: Sources, ls: seq<ListLine>, k: nat, j: nat)
    requires k <= j <= |ls| && !Run(src, ls, k).Go?
    ensures Run(src, ls, j) == Run(src, ls, k)
    decreases j
  {
    if j > k {
      Stays(src, ls, k, j - 1);
    }
  }

  // ---------------------------------------------------------------------
  // What the output holds
  // ---------------------------------------------------------------------

  /** The human lines among the output lines, in order. */
  function Humans(os: seq<Out>): (hs: seq<CtmLine>)
    ensures |hs| <= |os|
  {
    if |os| == 0 then []
    else Humans(os[..|os| - 1]) + (if os[|os| - 1].Human? then [os[|os| - 1].line] else [])
  }

  /** The number of fillers among the output lines. */
  function Fillers(os: seq<Out>): nat
  {
    if |os| == 0 then 0
    else Fillers(os[..|os| - 1]) + (if os[|os| - 1].Filler? then 1 else 0)
  }

  /** Every output line is a human line or a filler. */
  lemma {:induction false} OutCount(os: seq<Out>)
    ensures |os| == |Humans(os)| + Fillers(os)
    decreases |os|
  {
    if |os| > 0 {
      OutCount(os[..|os| - 1]);
    }
  }

  lemma {:induction false} HumansAppend(a: seq<Out>, b: seq<Out>)
    ensures Humans(a + b) == Humans(a) + Humans(b)
    ensures Fillers(a + b) == Fillers(a) + Fillers(b)
    decreases |b|
  {
    if |b| == 0 {
      assert a + b == a;
    } else {
      var b' := b[..|b| - 1];
      assert (a + b)[..|a + b| - 1] == a + b';
      HumansAppend(a, b');
    }
  }

  /** Human lines passed through are all human lines and no filler. */
  lemma {:induction false} TagHumans(ls: seq<CtmLine>)
    ensures Humans(Tag(ls)) == ls && Fillers(Tag(ls)) == 0
    decreases |ls|
  {
    if |ls| > 0 {
      assert Tag(ls)[..|ls| - 1] == Tag(ls[..|ls| - 1]);
      TagHumans(ls[..|ls| - 1]);
      assert ls[..|ls| - 1] + [ls[|ls| - 1]] == ls;
    }
  }

  /** A filler is a decoded line with only its word replaced, by a bracketed name. */
  predicate FromDecoded(reseg: seq<CtmLine>, line: CtmLine)
  {
    Bracketed(line.word) && exists j :: 0 <= j < |reseg| && reseg[j].(word := line.word) == line
  }

  /**
   * The output so far holds the human lines before the human cursor, in
   * order, and as many fillers as the counters say, each made from a
   * decoded line.
   */
  predicate Accounted(src: Sources, p: Progress)
  {
    Fits(src, p.at) &&
    Humans(p.out) == src.human[..p.at.human] &&
    Fillers(p.out) == p.stats.addedInside + p.stats.addedOutside &&
    forall i :: 0 <= i < |p.out| && p.out[i].Filler? ==> FromDecoded(src.reseg, p.out[i].line)
  }

  lemma PlaceAccounted(src: Sources, q: Progress, l: ListLine)
    requires Accounted(src, q) && q.at.reseg < |src.reseg| && WellFormed(l)
    ensures !Place(src, q, l).Fail? ==> Accounted(src, Place(src, q, l).p)
  {
    var r := Place(src, q, l);
    if !r.Fail? && r.p.out != q.out {
      var w := l.fields[5];
      var name := FillerName(w, src.top[w], src.threshold).value;
      var line := src.reseg[q.at.reseg].(word := name);
      assert r.p.out == q.out + [Filler(line)];
      HumansAppend(q.out, [Filler(line)]);
      assert Humans([Filler(line)]) == [] && Fillers([Filler(line)]) == 1;
      FillerNameBracketed(w, src.top[w], src.threshold);
      assert src.reseg[q.at.reseg].(word := line.word) == line;
      assert FromDecoded(src.reseg, line);
    }
  }

  /** Passing the human lines up to a new human cursor keeps the account. */
  lemma AdvanceAccounted(src: Sources, p: Progress, c: Cursors, stats: Stats)
    requires Accounted(src, p) && Fits(src, c) && p.at.human <= c.human
    requires stats.addedInside == p.stats.addedInside && stats.addedOutside == p.stats.addedOutside
    ensures Accounted(src, Progress(c, p.out + Tag(src.human[p.at.human..c.human]), stats))
  {
    var moved := src.human[p.at.human..c.human];
    var out := p.out + Tag(moved);
    HumansAppend(p.out, Tag(moved));
    TagHumans(moved);
    assert src.human[..p.at.human] + moved == src.human[..c.human];
    forall i | 0 <= i < |out| && out[i].Filler?
      ensures FromDecoded(src.reseg, out[i].line)
    {
      assert i < |p.out|;
    }
  }

  lemma ProcessAccounted(src: Sources, p: Progress, l: ListLine)
    requires Accounted(src, p)
    ensures !Process(src, p, l).Fail? ==> Accounted(src, Process(src, p, l).p)
  {
    if WellFormed(l) {
      var f, s := l.fields[0], l.s;
      var stats := if |l.fields| == 6 then p.stats.(insertions := p.stats.insertions + 1)
                   else p.stats.(substitutions := p.stats.substitutions + 1);
      var hp := HumanEnd(src.human, p.at.human, f, s);
      var out := p.out + Tag(src.human[p.at.human..hp]);
      var rp := ResegEnd(src.reseg, p.at.reseg, f, s);
      if rp == |src.reseg| {
        assert Process(src, p, l) == Halt(Progress(Cursors(hp, rp, p.at.seg), out, stats));
        AdvanceAccounted(src, p, Cursors(hp, rp, p.at.seg), stats);
      } else {
        var sp := SegEnd(src.segs, p.at.seg, f, s);
        var q := Progress(Cursors(hp, rp, sp), out, stats);
        assert !Process(src, p, l).Fail? ==> Process(src, p, l) == Place(src, q, l);
        AdvanceAccounted(src, p, Cursors(hp, rp, sp), stats);
        PlaceAccounted(src, q, l);
      }
    }
  }

  lemma {:induction false} RunAccounted(src: Sources, ls: seq<ListLine>, n: nat)
    requires n <= |ls|
    ensures !Run(src, ls, n).Fail? ==> Accounted(src, Run(src, ls, n).p)
  {
    if n == 0 {
      assert Humans([]) == [] == src.human[..0];
    } else {
      var before := Run(src, ls, n - 1);
      RunAccounted(src, ls, n - 1);
      if before.Go? {
        ProcessAccounted(src, before.p, ls[n - 1]);
      }
    }
  }

  /**
   * When the script ends with status 0, every human line is written once
   * and in order, the other lines are the counted fillers, each a decoded
   * line renamed to a bracketed filler, and the output count is the sum.
   */
  lemma ResultAccounted(ins: seq<ListLine>, human: seq<CtmLine>, reseg: seq<CtmLine>, segs: seq<Seg>,
                        numFillers: int, threshold: int)
    ensures var res := Result(ins, human, reseg, segs, numFillers, threshold);
      res.Some? ==>
        Humans(res.value.out) == human &&
        |res.value.out| == |human| + res.value.stats.addedInside + res.value.stats.addedOutside &&
        res.value.stats.outLines == |res.value.out| &&
        res.value.stats.humanLines == |human| && res.value.stats.resegLines == |reseg| &&
        forall i :: 0 <= i < |res.value.out| && res.value.out[i].Filler? ==> FromDecoded(reseg, res.value.out[i].line)
  {
    var res := Result(ins, human, reseg, segs, numFillers, threshold);
    if res.Some? {
      var pk := Pick(ins[CountsStart(ins)..CountsEnd(ins)], numFillers).value;
      var src := Sources(human, reseg, segs, pk.top, threshold);
      var locs := ins[LocationsStart(ins)..];
      var r := Run(src, locs, |locs|);
      RunAccounted(src, locs, |locs|);
      assert res.value == Finish(src, r.p);
      FinishAccounted(src, r.p);
    }
  }

  /** Writing the remaining human lines completes an accounted output. */
  lemma FinishAccounted(src: Sources, p: Progress)
    requires Accounted(src, p)
    ensures var q := Finish(src, p);
      Humans(q.out) == src.human &&
      |q.out| == |src.human| + q.stats.addedInside + q.stats.addedOutside &&
      q.stats.outLines == |q.out| && q.stats.humanLines == |src.human| && q.stats.resegLines == |src.reseg| &&
      forall i :: 0 <= i < |q.out| && q.out[i].Filler? ==> FromDecoded(src.reseg, q.out[i].line)
  {
    var rest := src.human[p.at.human..];
    var out := p.out + Tag(rest);
    HumansAppend(p.out, Tag(rest));
    TagHumans(rest);
    assert src.human[..p.at.human] + rest == src.human;
    OutCount(out);
    forall i | 0 <= i < |out| && out[i].Filler?
      ensures FromDecoded(src.reseg, out[i].line)
    {
      assert i < |p.out|;
    }
  }

  /**
   * An insertion line that passes the checks adds a filler exactly when
   * its word is a top insertion and it lies outside the segments or its
   * neighbours agree; a substitution never adds one.
   */
  lemma FillerAddedIff(src: Sources, q: Progress, l: ListLine)
    requires Fits(src, q.at) && q.at.reseg < |src.reseg| && WellFormed(l) && !Place(src, q, l).Fail?
    ensures var r := Place(src, q, l);
      var adds := |l.fields| == 6 && l.fields[5] in src.top &&
                  (Outside(src.segs, q.at.seg, l.fields[0], l.e) || NeighboursAgree(src.human, src.reseg, q.at.human, q.at.reseg));
      (adds ==> Fillers(r.p.out) == Fillers(q.out) + 1 && Humans(r.p.out) == Humans(q.out) &&
                r.p.stats.addedInside + r.p.stats.addedOutside == q.stats.addedInside + q.stats.addedOutside + 1) &&
      (!adds ==> r.p == q)
  {
    var r := Place(src, q, l);
    if r.p.out != q.out {
      var w := l.fields[5];
      var line := src.reseg[q.at.reseg].(word := FillerName(w, src.top[w], src.threshold).value);
      HumansAppend(q.out, [Filler(line)]);
      assert Humans([Filler(line)]) == [] && Fillers([Filler(line)]) == 1;
    }
  }

  /** The location loop halts exactly when the decoded cursor runs past the end of the decoded CTM. */
  lemma HaltIff(src: Sources, p: Progress, l: ListLine)
    requires Fits(src, p.at)
    ensures Process(src, p, l).Halt? <==>
      WellFormed(l) && ResegEnd(src.reseg, p.at.reseg, l.fields[0], l.s) == |src.reseg|
  {
  }

  /** A line of any width but 6 or 7 fails; a substitution adds no filler. */
  lemma LineWidths(src: Sources, p: Progress, l: ListLine)
    requires Fits(src, p.at)
    ensures |l.fields| != 6 && |l.fields| != 7 ==> Process(src, p, l).Fail?
    ensures var r := Process(src, p, l);
      |l.fields| == 7 && !r.Fail? ==>
        Fillers(r.p.out) == Fillers(p.out) && r.p.stats == p.stats.(substitutions := p.stats.substitutions + 1)
  {
    var r := Process(src, p, l);
    if |l.fields| == 7 && !r.Fail? {
      var moved := src.human[p.at.human..HumanEnd(src.human, p.at.human, l.fields[0], l.s)];
      HumansAppend(p.out, Tag(moved));
      TagHumans(moved);
    }
  }
}
