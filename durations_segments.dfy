/**
 * durations2segments: cuts every recording of a durations table into
 * consecutive chunks of a fixed length, the last chunk absorbing a remainder
 * shorter than half a chunk, and names each chunk by its recording and
 * zero-padded times. Times are integer hundredths of a second throughout.
 */
module DurationsSegments {
  import opened Outcomes
  import opened ZeroPadding

  // ---------------------------------------------------------------- table

  /** The durations table: each later line for an id replaces the earlier one. */
  function Table(lines: seq<(string, int)>): map<string, int>
  {
    if |lines| == 0 then map[]
    else Table(lines[..|lines| - 1])[lines[|lines| - 1].0 := lines[|lines| - 1].1]
  }

  /** The table holds exactly the ids of the lines, each with the duration of its last line. */
  lemma TableMeaning(lines: seq<(string, int)>)
    ensures Table(lines).Keys == set k | 0 <= k < |lines| :: lines[k].0
    ensures forall id :: id in Table(lines) ==>
      exists k :: 0 <= k < |lines| && lines[k] == (id, Table(lines)[id]) &&
        forall k' :: k < k' < |lines| ==> lines[k'].0 != id
  {
    TableKeys(lines);
    forall id | id in Table(lines)
      ensures exists k :: 0 <= k < |lines| && lines[k] == (id, Table(lines)[id]) && forall k' :: k < k' < |lines| ==> lines[k'].0 != id
    {
      TableLast(lines, id);
    }
  }

  lemma {:induction false} TableKeys(lines: seq<(string, int)>)
    ensures Table(lines).Keys == set k | 0 <= k < |lines| :: lines[k].0
  {
    if |lines| > 0 {
      var init := lines[..|lines| - 1];
      TableKeys(init);
      assert Table(lines).Keys == Table(init).Keys + {lines[|lines| - 1].0};
      assert (set k | 0 <= k < |lines| :: lines[k].0) == (set k | 0 <= k < |init| :: init[k].0) + {lines[|lines| - 1].0} by {
        forall k | 0 <= k < |init| ensures init[k] == lines[k] { }
      }
    }
  }

  lemma {:induction false} TableLast(lines: seq<(string, int)>, id: string)
    requires id in Table(lines)
    ensures exists k :: 0 <= k < |lines| && lines[k] == (id, Table(lines)[id]) && forall k' :: k < k' < |lines| ==> lines[k'].0 != id
  {
    var n := |lines| - 1;
    var init := lines[..n];
    if id == lines[n].0 {
      assert lines[n] == (id, Table(lines)[id]);
    } else {
      TableLast(init, id);
      var k :| 0 <= k < |init| && init[k] == (id, Table(init)[id]) &&
        forall k' :: k < k' < |init| ==> init[k'].0 != id;
      assert lines[k] == init[k];
      forall k' | k < k' < |lines| ensures lines[k'].0 != id {
        if k' < n { assert lines[k'] == init[k']; }
      }
    }
  }

  /** The reading loop: one table entry per line, later lines overwriting. */
  method ReadDurations(lines: seq<(string, int)>) returns (durations: map<string, int>)
    ensures durations == Table(lines)
  {
    durations := map[];
    for k := 0 to |lines|
      invariant durations == Table(lines[..k])
    {
      assert lines[..k + 1][..k] == lines[..k];
      durations := durations[lines[k].0 := lines[k].1];
    }
    assert lines[..|lines|] == lines;
  }

  // ---------------------------------------------------------------- chunks

  /**
   * The chunks of a recording from start on: a chunk ends at the recording's
   * end once less than one and a half chunk lengths remain, else one chunk
   * length later.
   */
  function Chunks(start: int, duration: int, len: int): (c: seq<(int, int)>)
    requires len > 0
    ensures forall k :: 0 <= k < |c| ==> start <= c[k].0 < c[k].1 <= duration
    decreases duration - start
  {
    if start >= duration then []
    else
      var end := if 2 * (duration - start) < 3 * len then duration else start + len;
      [(start, end)] + Chunks(end, duration, len)
  }

  /**
   * The chunks from start tile [start, duration): they are contiguous, end at
   * the duration, every chunk but the last is exactly len long, and the last
   * is shorter than one and a half lengths.
   */
  lemma {:induction false} ChunksTile(start: int, duration: int, len: int)
    requires len > 0
    ensures var c := Chunks(start, duration, len);
      (|c| == 0 <==> start >= duration) &&
      (|c| > 0 ==>
         c[0].0 == start && c[|c| - 1].1 == duration && 2 * (c[|c| - 1].1 - c[|c| - 1].0) < 3 * len) &&
      (forall k :: 0 <= k < |c| - 1 ==> c[k].1 == c[k + 1].0 && c[k].1 - c[k].0 == len)
    decreases duration - start
  {
    if start < duration {
      var end := if 2 * (duration - start) < 3 * len then duration else start + len;
      ChunksTile(end, duration, len);
      var c := Chunks(start, duration, len);
      var rest := Chunks(end, duration, len);
      assert c == [(start, end)] + rest;
      forall k | 0 <= k < |c| - 1 ensures c[k].1 == c[k + 1].0 && c[k].1 - c[k].0 == len {
        if k > 0 {
          assert c[k] == rest[k - 1] && c[k + 1] == rest[k];
        }
      }
    }
  }

  // ---------------------------------------------------------------- lines

  datatype Separators = Separators(first: string, second: string, third: string)

  /**
   * One output line: utterance id, recording, start, and the printed end:
   * one hundredth past the chunk's end, or -1 for a chunk ending the recording.
   */
  datatype SegLine = SegLine(uttId: string, reco: string, start: int, end: int)

  /** The id: recording, start, end plus one hundredth and duration, zero-padded to width w. */
  function UttId(reco: string, start: int, end: int, duration: int, w: nat, sep: Separators): string
  {
    reco + sep.first + ZeroPad(start, w) + sep.second + ZeroPad(end + 1, w) + sep.third + ZeroPad(duration, w)
  }

  function LineFor(reco: string, chunk: (int, int), duration: int, w: nat, sep: Separators): SegLine
  {
    SegLine(UttId(reco, chunk.0, chunk.1, duration, w, sep), reco, chunk.0,
            if chunk.1 != duration then chunk.1 + 1 else -1)
  }

  /** The loop's chunk end agrees with Chunks, and the chunk is appended to those done. */
  lemma NextChunk(start: int, end: int, duration: int, len: int, done: seq<(int, int)>)
    requires len > 0 && start < duration
    requires end == if 2 * (duration - start) < 3 * len then duration
                    else if start + len < duration then start + len else duration
    requires Chunks(0, duration, len) == done + Chunks(start, duration, len)
    ensures Chunks(0, duration, len) == (done + [(start, end)]) + Chunks(end, duration, len)
    ensures start < end
  {
    assert Chunks(start, duration, len) == [(start, end)] + Chunks(end, duration, len);
  }

  /** out holds one line per chunk of Chunks(0, duration, len), in order. */
  predicate RecordingOut(out: seq<SegLine>, reco: string, duration: int, len: int, w: nat, sep: Separators)
    requires len > 0
  {
    var c := Chunks(0, duration, len);
    |out| == |c| && forall k :: 0 <= k < |c| ==> out[k] == LineFor(reco, c[k], duration, w, sep)
  }

  /** The chunking loop of one recording. */
  method SegmentRecording(reco: string, duration: int, len: int, w: nat, sep: Separators) returns (out: seq<SegLine>)
    requires len > 0
    ensures RecordingOut(out, reco, duration, len, w, sep)
  {
    out := [];
    ghost var done: seq<(int, int)> := [];
    var start := 0;
    while start < duration
      invariant 0 <= start
      invariant Chunks(0, duration, len) == done + Chunks(start, duration, len)
      invariant |out| == |done|
      invariant forall k :: 0 <= k < |done| ==> out[k] == LineFor(reco, done[k], duration, w, sep)
      decreases duration - start
    {
      var end := if start + len < duration then start + len else duration;
      if 2 * (duration - start) < 3 * len {
        end := duration;
      }
      NextChunk(start, end, duration, len, done);
      out := out + [LineFor(reco, (start, end), duration, w, sep)];
      done := done + [(start, end)];
      start := end;
    }
  }

  // ---------------------------------------------------------------- whole file

  /** The largest duration of the table, over the ids listed in order. */
  function MaxDuration(order: seq<string>, durations: map<string, int>): (m: int)
    requires |order| > 0 && forall k :: 0 <= k < |order| ==> order[k] in durations
    ensures exists k :: 0 <= k < |order| && m == durations[order[k]]
    ensures forall k :: 0 <= k < |order| ==> durations[order[k]] <= m
  {
    if |order| == 1 then durations[order[0]]
    else
      var rest := MaxDuration(order[1..], durations);
      assert forall k :: 1 <= k < |order| ==> order[k] == order[1..][k - 1];
      if durations[order[0]] >= rest then durations[order[0]] else rest
  }

  /** Every number a recording's ids print fits the padding width, so all ids have the same shape. */
  lemma IdsFitWidth(order: seq<string>, durations: map<string, int>, len: int, w: nat, k: nat)
    requires |order| > 0 && forall k :: 0 <= k < |order| ==> order[k] in durations
    requires len > 0 && w >= 1 && MaxDuration(order, durations) <= Pow10(w - 1)
    requires k < |order|
    ensures var d := durations[order[k]];
      forall c :: c in Chunks(0, d, len) ==>
        |ZeroPad(c.0, w)| == w && |ZeroPad(c.1 + 1, w)| == w && |ZeroPad(d, w)| == w
  {
    var d := durations[order[k]];
    assert d <= MaxDuration(order, durations);
    assert Pow10(w - 1) + 1 < Pow10(w);
    forall c | c in Chunks(0, d, len)
      ensures |ZeroPad(c.0, w)| == w && |ZeroPad(c.1 + 1, w)| == w && |ZeroPad(d, w)| == w
    {
      var cs := Chunks(0, d, len);
      var j :| 0 <= j < |cs| && cs[j] == c;
      PaddedWidth(c.0, w);
      PaddedWidth(c.1 + 1, w);
      PaddedWidth(d, w);
    }
  }

  /** The loop over recordings, in the table's iteration order. */
  method SegmentAll(order: seq<string>, durations: map<string, int>, len: int, w: nat, sep: Separators)
    returns (out: seq<seq<SegLine>>)
    requires len > 0 && forall k :: 0 <= k < |order| ==> order[k] in durations
    requires forall j, k :: 0 <= j < k < |order| ==> order[j] != order[k]
    ensures |out| == |order|
    ensures forall k :: 0 <= k < |order| ==> RecordingOut(out[k], order[k], durations[order[k]], len, w, sep)
  {
    out := [];
    for k := 0 to |order|
      invariant |out| == k
      invariant forall k' :: 0 <= k' < k ==> RecordingOut(out[k'], order[k'], durations[order[k']], len, w, sep)
    {
      var recoLines := SegmentRecording(order[k], durations[order[k]], len, w, sep);
      out := out + [recoLines];
    }
  }

  /**
   * The program: an empty durations file fails (the maximum of nothing);
   * otherwise the width comes from the largest duration and every recording,
   * in the table's iteration order, is chunked in turn.
   */
  method Durations2Segments(lines: seq<(string, int)>, order: seq<string>, len: int, sep: Separators)
    returns (r: Option<(nat, seq<seq<SegLine>>)>)
    requires len > 0
    requires forall k :: 0 <= k < |order| ==> order[k] in Table(lines)
    requires forall id :: id in Table(lines) ==> id in order
    requires forall j, k :: 0 <= j < k < |order| ==> order[j] != order[k]
    ensures r.None? <==> |lines| == 0
    ensures r.Some? ==>
      var (w, out) := r.value;
      var table := Table(lines);
      |order| > 0 && w >= 1 && MaxDuration(order, table) <= Pow10(w - 1) &&
      (w == 1 || Pow10(w - 2) < MaxDuration(order, table)) &&
      |out| == |order| &&
      forall k :: 0 <= k < |order| ==> RecordingOut(out[k], order[k], table[order[k]], len, w, sep)
  {
    var durations := ReadDurations(lines);
    if |lines| == 0 {
      return None;
    }
    assert lines[|lines| - 1].0 in durations;
    var maxEnd := MaxDuration(order, durations);
    var w := PaddingWidth(maxEnd);
    var out := SegmentAll(order, durations, len, w, sep);
    r := Some((w, out));
  }
}
