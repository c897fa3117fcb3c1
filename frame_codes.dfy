/**
 * Frame codes of the joint resegmenter.
 *
 * Input codes are 0..8. In the speech-based segmenter they are read as
 * silence (0..2), noise (3..5) and speech (6..8); in the silence-based
 * segmenter they are joint codes `3 * this_channel + other_channel` of two
 * channels labelled 0 (silence), 1 (noise), 2 (speech). Padding converts an
 * absorbed frame of input code c into code c + 9.
 */
module FrameCodes {

  /** The speech-based segmenter and the older silence-based one. */
  datatype Variant = Nonoise | Joint

  predicate Silence(c: int) { 0 <= c <= 2 }
  predicate Noise(c: int) { 3 <= c <= 5 }
  predicate Speech(c: int) { 6 <= c <= 8 }
  predicate InputCode(c: int) { 0 <= c <= 8 }

  /** Codes that a frame may carry in the given variant. */
  predicate Code(v: Variant, c: int)
  {
    match v
    case Nonoise => 0 <= c <= 14
    case Joint => 0 <= c <= 11
  }

  /** Input codes that start segments in the initial pass. */
  predicate SegmentCode(v: Variant, c: int)
  {
    match v
    case Nonoise => Speech(c)
    case Joint => InputCode(c) && !Silence(c)
  }

  /** Input codes that padding may absorb into a segment. */
  predicate Absorbable(v: Variant, c: int)
  {
    match v
    case Nonoise => Silence(c) || Noise(c)
    case Joint => Silence(c)
  }

  /** Codes of frames that belong to segments once padding is done: segment codes and converted codes. */
  predicate Covered(v: Variant, c: int)
  {
    Code(v, c) && !Absorbable(v, c)
  }

  lemma CoveredCodes(v: Variant, c: int)
    requires InputCode(c)
    ensures Covered(v, c) <==> SegmentCode(v, c)
    ensures Absorbable(v, c) ==> Covered(v, c + 9) && c + 9 != c
  {
  }

  /** Codes whose pairs form the symmetric tiers 0..5 of the speech-based segmenter. */
  function NonoiseTierCodes(k: int): set<int>
    requires 0 <= k <= 5
  {
    if k == 0 then {6, 7}
    else if k == 1 then {6, 7, 8}
    else if k == 2 then {6, 7, 8, 12, 13}
    else if k == 3 then {6, 7, 8, 12, 13, 14}
    else if k == 4 then {6, 7, 8, 12, 13, 14, 9, 10}
    else {6, 7, 8, 9, 10, 11, 12, 13, 14}
  }

  /** Codes whose pairs form the tiers 0..4 of the silence-based segmenter. */
  function JointTierCodes(k: int): set<int>
    requires 0 <= k <= 4
  {
    if k == 0 then {6, 7}
    else if k == 1 then {6, 7, 8}
    else if k == 2 then {6, 7, 8, 3}
    else if k == 3 then {6, 7, 8, 3, 4}
    else {6, 7, 8, 3, 4, 9, 10}
  }

  /** Speech or converted codes (THIS_SPEECH_PLUS). */
  predicate SpeechPlus(c: int) { 6 <= c <= 14 }

  /** Whether the pair (prev, cur) belongs to tier k of the variant's chain. */
  predicate InTier(v: Variant, k: int, prev: int, cur: int)
  {
    match v
    case Nonoise =>
      if 0 <= k <= 5 then prev in NonoiseTierCodes(k) && cur in NonoiseTierCodes(k)
      else if k == 6 then SpeechPlus(prev) && (SpeechPlus(cur) || Noise(cur))
      else if k == 7 then SpeechPlus(prev) && (SpeechPlus(cur) || Silence(cur))
      else if k == 8 then (SpeechPlus(prev) || Noise(prev)) && SpeechPlus(cur)
      else if k == 9 then (SpeechPlus(prev) || Silence(prev)) && SpeechPlus(cur)
      else false
    case Joint =>
      if 0 <= k <= 4 then prev in JointTierCodes(k) && cur in JointTierCodes(k)
      else k == 5
  }

  /**
   * The pairs for which transition_type returns: the two codes differ or the
   * later one is converted, and the chain's last tier is reachable (the
   * speech-based chain never sees two silence/noise frames, the
   * silence-based one never sees a silence frame).
   */
  predicate TransitionDefined(v: Variant, prev: int, cur: int)
  {
    Code(v, prev) && Code(v, cur) &&
    (prev != cur || 9 <= cur) &&
    (v.Nonoise? ==> !(Absorbable(v, prev) && Absorbable(v, cur))) &&
    (v.Joint? ==> !Silence(prev) && !Silence(cur))
  }

  /**
   * Rank of the transition between two neighbouring frames: the first tier
   * of the chain that holds the pair. A smaller rank means the two sides are
   * more alike, so merging across that boundary is preferred.
   */
  function TransitionType(v: Variant, prev: int, cur: int): (t: int)
    requires TransitionDefined(v, prev, cur)
    ensures 0 <= t <= (if v.Nonoise? then 9 else 5)
    ensures v.Nonoise? ==> (t <= 5 <==> Covered(v, prev) && Covered(v, cur))
    ensures v.Nonoise? ==> (6 <= t <= 7 <==> Covered(v, prev) && Absorbable(v, cur))
    ensures v.Nonoise? ==> (8 <= t <= 9 <==> Absorbable(v, prev) && Covered(v, cur))
  {
    if (prev == 6 || prev == 7) && (cur == 6 || cur == 7) then 0
    else if Speech(prev) && Speech(cur) then 1
    else match v
      case Nonoise =>
        if (Speech(prev) || prev == 12 || prev == 13) && (Speech(cur) || cur == 12 || cur == 13) then 2
        else if (Speech(prev) || 12 <= prev <= 14) && (Speech(cur) || 12 <= cur <= 14) then 3
        else if (Speech(prev) || 12 <= prev <= 14 || prev == 9 || prev == 10)
             && (Speech(cur) || 12 <= cur <= 14 || cur == 9 || cur == 10) then 4
        else if SpeechPlus(prev) && SpeechPlus(cur) then 5
        else if SpeechPlus(prev) && Noise(cur) then 6
        else if SpeechPlus(prev) && Silence(cur) then 7
        else if Noise(prev) && SpeechPlus(cur) then 8
        else 9
      case Joint =>
        if (Speech(prev) || prev == 3) && (Speech(cur) || cur == 3) then 2
        else if (Speech(prev) || prev == 3 || prev == 4) && (Speech(cur) || cur == 3 || cur == 4) then 3
        else if (Speech(prev) || prev == 3 || prev == 4 || prev == 9 || prev == 10)
             && (Speech(cur) || cur == 3 || cur == 4 || cur == 9 || cur == 10) then 4
        else 5
  }

  /**
   * The transition type is the first tier of the variant's chain that holds
   * the pair of codes.
   */
  lemma TransitionTypeIsFirstTier(v: Variant, prev: int, cur: int)
    requires TransitionDefined(v, prev, cur)
    ensures InTier(v, TransitionType(v, prev, cur), prev, cur)
    ensures forall k :: 0 <= k < TransitionType(v, prev, cur) ==> !InTier(v, k, prev, cur)
  {
  }

  /** The tiers of the silence-based chain are nested: a pair in tier k is in every later symmetric tier. */
  lemma JointTiersNested(k: int, l: int, prev: int, cur: int)
    requires 0 <= k <= l <= 4 && InTier(Joint, k, prev, cur)
    ensures InTier(Joint, l, prev, cur)
  {
  }

  /** The tiers of the speech-based chain are nested up to tier 5, and tier 5 lies inside tiers 6..9. */
  lemma NonoiseTiersNested(k: int, l: int, prev: int, cur: int)
    requires 0 <= k <= l <= 9 && (k <= 5 || k == l) && InTier(Nonoise, k, prev, cur)
    ensures InTier(Nonoise, l, prev, cur)
  {
  }
}
