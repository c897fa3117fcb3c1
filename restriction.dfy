/**
 * restrict: the second channel of a pair is resegmented over the longer
 * channel's length and then cut back to its own length; a segment left open
 * by the cut is closed at the new end.
 */
module Restriction {
  import opened Markers

  /**
   * The markers cut to the first n frames, with E[n] set when the counts of
   * start and end markers then differ by one.
   */
  function Restricted(S: seq<bool>, E: seq<bool>, n: int): (SE: (seq<bool>, seq<bool>))
    requires WellFormed(S, E) && 0 <= n <= |S|
    ensures |SE.0| == n && WellFormed(SE.0, SE.1)
    ensures forall x :: 0 <= x < n ==> SE.0[x] == S[x] && SE.1[x] == E[x]
    ensures SE.1[n] == (E[n] || Open(S, E, n - 1))
    ensures forall x :: -1 <= x < n ==> Open(SE.0, SE.1, x) == Open(S, E, x)
    ensures CountTrue(SE.0) == CountTrue(SE.1)
  {
    RestrictFacts(S, E, n);
    var S', E' := S[..n], E[..n + 1];
    if CountTrue(S') == CountTrue(E') + 1 then (S', E'[n := true]) else (S', E')
  }

  /** The count test of restrict fires exactly when a segment is open across the cut. */
  lemma RestrictFacts(S: seq<bool>, E: seq<bool>, n: int)
    requires WellFormed(S, E) && 0 <= n <= |S|
    ensures CountTrue(S[..n]) == CountTrue(E[..n + 1]) + 1 <==> Open(S, E, n - 1) && !E[n]
    ensures var S', E' := S[..n], E[..n + 1];
      var E2 := if CountTrue(S') == CountTrue(E') + 1 then E'[n := true] else E';
      WellFormed(S', E2) && CountTrue(S') == CountTrue(E2) &&
      forall x :: -1 <= x < n ==> Open(S', E2, x) == Open(S, E, x)
  {
    var S', E' := S[..n], E[..n + 1];
    PrefixBalance(S, E, n - 1);
    assert S[..n - 1 + 1] == S';
    assert E' == E[..n] + [E[n]];
    CountTrueAppend(E[..n], [E[n]]);
    assert CountTrue([E[n]]) == if E[n] then 1 else 0 by {
      assert [E[n]][..0] == [];
    }
    var E2 := if CountTrue(S') == CountTrue(E') + 1 then E'[n := true] else E';
    forall x | -1 <= x < n ensures Open(S', E2, x) == Open(S, E, x) {
      OpenTruncated(S, E, S', E2, x);
    }
    if CountTrue(S') == CountTrue(E') + 1 {
      CountTrueSet(E', n);
    }
  }

  /** Open at x depends only on the markers at positions up to x. */
  lemma {:induction false} OpenTruncated(S: seq<bool>, E: seq<bool>, S2: seq<bool>, E2: seq<bool>, x: int)
    requires Shaped(S, E) && Shaped(S2, E2) && -1 <= x < |S2| <= |S|
    requires forall j :: 0 <= j <= x ==> S2[j] == S[j] && E2[j] == E[j]
    ensures Open(S2, E2, x) == Open(S, E, x)
    decreases x + 1
  {
    if x >= 0 {
      OpenTruncated(S, E, S2, E2, x - 1);
    }
  }
}
