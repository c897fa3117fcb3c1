/**
 * Zero-padded decimal numbers as Python's "%0Nd" prints them, the
 * multiply-by-ten loop the segmenting scripts use to choose N, and the
 * segment lines they print: an utterance id made of the recording and the
 * start and end times in hundredths of a second, the recording, and the
 * start and end (here as frames; the times in seconds are the frames times
 * the frame shift).
 */
module ZeroPadding {
  function Pow10(k: nat): (p: nat)
    ensures p >= 1
  {
    if k == 0 then 1 else 10 * Pow10(k - 1)
  }

  /** The least width whose power of ten reaches n, as the multiply-by-ten loop finds it. */
  predicate LeastWidth(w: nat, n: int)
  {
    w >= 1 && n <= Pow10(w - 1) && (w == 1 || Pow10(w - 2) < n)
  }

  /**
   * The multiply-by-ten loop: the digit count is one more than the exponent
   * of the least power of ten that is at least maxEnd.
   */
  method PaddingWidth(maxEnd: int) returns (numDigits: nat)
    ensures LeastWidth(numDigits, maxEnd)
  {
    numDigits := 1;
    var i := 1;
    while i < maxEnd
      invariant numDigits >= 1 && i == Pow10(numDigits - 1)
      invariant numDigits == 1 || Pow10(numDigits - 2) < maxEnd
      decreases maxEnd - i
    {
      i := i * 10;
      numDigits := numDigits + 1;
    }
  }

  lemma {:induction false} Pow10Grows(a: nat, b: nat)
    requires a < b
    ensures Pow10(a) < Pow10(b)
    decreases b
  {
    if b - 1 > a {
      Pow10Grows(a, b - 1);
    }
  }

  /** Only one width meets both bounds: the least power of ten reaching n. */
  lemma LeastWidthUnique(n: int, w1: nat, w2: nat)
    requires LeastWidth(w1, n) && LeastWidth(w2, n)
    ensures w1 == w2
  {
    if w1 < w2 {
      Pow10Grows(w1 - 1, w2 - 1);
      if w1 - 1 < w2 - 2 {
        Pow10Grows(w1 - 1, w2 - 2);
      }
    } else if w2 < w1 {
      if w2 - 1 < w1 - 2 {
        Pow10Grows(w2 - 1, w1 - 2);
      }
    }
  }

  /** The decimal digits of n. */
  function Decimal(n: nat): (s: string)
    ensures |s| >= 1
  {
    if n < 10 then [Digit(n)] else Decimal(n / 10) + [Digit(n % 10)]
  }

  function Digit(d: nat): char
    requires d < 10
  {
    "0123456789"[d]
  }

  lemma {:induction false} DecimalLength(n: nat, k: nat)
    requires k >= 1 && n < Pow10(k)
    ensures |Decimal(n)| <= k
  {
    if n >= 10 {
      DecimalLength(n / 10, k - 1);
    }
  }

  /**
   * "%0wd": n in decimal, left-padded with zeros to at least w characters;
   * a negative number keeps its sign in front of the zeros.
   */
  function ZeroPad(n: int, w: nat): (s: string)
    ensures |s| >= w
  {
    if n < 0 then ['-'] + PadDigits(-n, if w == 0 then 0 else w - 1) else PadDigits(n, w)
  }

  function PadDigits(n: nat, w: nat): (s: string)
    ensures |s| >= w
  {
    var digits := Decimal(n);
    if |digits| >= w then digits else seq(w - |digits|, _ => '0') + digits
  }

  /** A number below ten to the w-th power is printed in exactly w characters. */
  lemma PaddedWidth(n: nat, w: nat)
    requires w >= 1 && n < Pow10(w)
    ensures |ZeroPad(n, w)| == w
  {
    DecimalLength(n, w);
  }

  datatype SegmentLine = SegmentLine(uttId: string, reco: string, start: int, end: int)

  /** A recording's printed segments, the width chosen for them and one line per segment. */
  datatype Printed = Printed(reco: string, segments: seq<(int, int)>, width: nat, lines: seq<SegmentLine>)

  /** The line of segment seg: the id joins the recording and both times in hundredths, padded to width w. */
  function LineOf(reco: string, seg: (int, int), hundredths: int, w: nat, sep: (string, string)): SegmentLine
  {
    SegmentLine(reco + sep.0 + ZeroPad(seg.0 * hundredths, w) + sep.1 + ZeroPad(seg.1 * hundredths, w), reco, seg.0, seg.1)
  }

  /**
   * The printed form of segs: the width is the least that holds the last
   * segment's end in hundredths, and each segment has its line, in order.
   */
  predicate PrintedAs(o: Printed, reco: string, segs: seq<(int, int)>, hundredths: int, sep: (string, string))
  {
    o.reco == reco && o.segments == segs && |segs| > 0 &&
    LeastWidth(o.width, segs[|segs| - 1].1 * hundredths) &&
    |o.lines| == |segs| &&
    forall t :: 0 <= t < |segs| ==> o.lines[t] == LineOf(reco, segs[t], hundredths, o.width, sep)
  }

  /** The printing step: the width follows the last end time, then a line is written per segment. */
  method NameSegments(reco: string, segs: seq<(int, int)>, hundredths: int, sep: (string, string)) returns (o: Printed)
    requires |segs| > 0
    ensures PrintedAs(o, reco, segs, hundredths, sep)
  {
    var w := PaddingWidth(segs[|segs| - 1].1 * hundredths);
    var lines: seq<SegmentLine> := [];
    for t := 0 to |segs|
      invariant |lines| == t
      invariant forall t' :: 0 <= t' < t ==> lines[t'] == LineOf(reco, segs[t'], hundredths, w, sep)
    {
      lines := lines + [LineOf(reco, segs[t], hundredths, w, sep)];
    }
    o := Printed(reco, segs, w, lines);
  }
}
