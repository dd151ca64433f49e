// Maximum search, threshold test and boundary scan over a series of scores
// (the specification side of EntropyDetection::EntropyIsAboveThreshold and
// EntropyDetection::FindStartEnd).

module Boundaries {

  /** A window stays inside the repeat while its score is at least this fraction of the maximum. */
  const BoundaryRatio: real := 0.8

  /**
   * Index of the maximum, as `std::max_element` returns it: the FIRST index
   * holding the largest value.
   */
  function MaxElementIndex(s: seq<real>): (k: nat)
    requires |s| > 0
    ensures k < |s|
    ensures forall j :: 0 <= j < |s| ==> s[j] <= s[k]
    ensures forall j :: 0 <= j < k ==> s[j] < s[k]
  {
    if |s| == 1 then 0
    else
      var k := MaxElementIndex(s[..|s| - 1]);
      if s[|s| - 1] > s[k] then |s| - 1 else k
  }

  /** The largest value of a non-empty series. */
  function MaxValue(s: seq<real>): real
    requires |s| > 0
  {
    s[MaxElementIndex(s)]
  }

  /**
   * The threshold test: the maximum exceeds t exactly when some value does,
   * so raising the threshold can turn a true result false but never the
   * reverse.
   */
  lemma ThresholdTest(s: seq<real>, t: real, t2: real)
    requires |s| > 0
    ensures MaxValue(s) > t <==> exists j :: 0 <= j < |s| && s[j] > t
    ensures t <= t2 && MaxValue(s) > t2 ==> MaxValue(s) > t
  {
  }

  /** The value a window must reach to be inside the repeat: 0.8 times the maximum. */
  function Cutoff(s: seq<real>): real
    requires |s| > 0
  {
    BoundaryRatio * MaxValue(s)
  }

  /** The backward scan from the maximum reaches index 0 without meeting a value below the cutoff. */
  predicate LeftRunsOff(s: seq<real>)
    requires |s| > 0
  {
    forall j :: 0 <= j <= MaxElementIndex(s) ==> s[j] >= Cutoff(s)
  }

  /** The forward scan from the maximum reaches the last index without meeting a value below the cutoff. */
  predicate RightRunsOff(s: seq<real>)
    requires |s| > 0
  {
    forall j :: MaxElementIndex(s) <= j < |s| ==> s[j] >= Cutoff(s)
  }

  /**
   * The outcome of the boundary scan, with i the first index of the maximum:
   * - start: if the backward scan runs off index 0 then 1, otherwise one past
   *   the nearest index left of i whose value is below the cutoff;
   * - end: if the forward scan runs off the last index then |s| - 2, otherwise
   *   one before the nearest index right of i whose value is below the cutoff;
   * - every index from start to i and from i to end holds at least the cutoff;
   * - the flag is the incoming flag, set when either scan runs off an edge.
   */
  predicate ValidBoundaries(s: seq<real>, flagIn: bool, start: nat, end: nat, flag: bool)
    requires |s| >= 2
  {
    var i := MaxElementIndex(s);
    && (if LeftRunsOff(s) then start == 1 else 0 < start <= i && s[start - 1] < Cutoff(s))
    && (forall j :: start <= j <= i ==> s[j] >= Cutoff(s))
    && (if RightRunsOff(s) then end == |s| - 2 else i <= end < |s| - 1 && s[end + 1] < Cutoff(s))
    && (forall j :: i <= j <= end ==> s[j] >= Cutoff(s))
    && flag == (flagIn || LeftRunsOff(s) || RightRunsOff(s))
  }

  /**
   * The boundaries are determined by the series and the incoming flag; they
   * never sit on the first or the last index, and the flag once set stays set.
   */
  lemma BoundariesDetermined(s: seq<real>, flagIn: bool, start1: nat, end1: nat, flag1: bool,
                             start2: nat, end2: nat, flag2: bool)
    requires |s| >= 2
    requires ValidBoundaries(s, flagIn, start1, end1, flag1)
    requires ValidBoundaries(s, flagIn, start2, end2, flag2)
    ensures start1 == start2 && end1 == end2 && flag1 == flag2
    ensures 1 <= start1 && end1 <= |s| - 2
    ensures flagIn ==> flag1
  {
  }

  /**
   * When the maximum sits at the first index the left edge is flagged, and
   * when it sits at the last index the right edge is flagged.
   */
  lemma MaxAtEdgeFlagged(s: seq<real>, flagIn: bool, start: nat, end: nat, flag: bool)
    requires |s| >= 2 && MaxValue(s) >= 0.0
    requires ValidBoundaries(s, flagIn, start, end, flag)
    ensures MaxElementIndex(s) == 0 ==> LeftRunsOff(s) && start == 1 && flag
    ensures MaxElementIndex(s) == |s| - 1 ==> RightRunsOff(s) && end == |s| - 2 && flag
  {
  }

  /**
   * The span can come out inverted: for the series [1, 0] the maximum is at
   * index 0, the left retreat moves start to 1 while the right scan stops at
   * index 0, so start = 1 > end = 0.
   */
  lemma InvertedSpan(start: nat, end: nat, flag: bool)
    requires ValidBoundaries([1.0, 0.0], false, start, end, flag)
    ensures start == 1 && end == 0 && flag
  {
  }
}
