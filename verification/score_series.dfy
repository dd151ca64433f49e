// The series of window scores (EntropyDetection::CalculateEntropyWindow),
// defined as a specification: window k starts at offset k*step, windows are
// produced while the offset is strictly below |nucs| - size, and a score
// above the ceiling 0.8 is stored as 0.

module ScoreSeries {
  import opened DinucScore

  /** A window score above this ceiling is stored as 0. */
  const ScoreCeiling: real := 0.8

  /** The value stored for a window score: the score itself, or 0 when it exceeds the ceiling. */
  function Clip(score: real): (v: real)
    ensures v <= ScoreCeiling
    ensures score <= ScoreCeiling ==> v == score
    ensures score > ScoreCeiling ==> v == 0.0
  {
    if score > ScoreCeiling then 0.0 else score
  }

  /**
   * Offset of the k-th window, k * step, written as the window loop reaches
   * it: by adding step k times.
   */
  function Offset(step: nat, k: nat): nat {
    if k == 0 then 0 else Offset(step, k - 1) + step
  }

  lemma {:induction false} OffsetIsMultiple(step: nat, k: nat)
    ensures Offset(step, k) == k * step
  {
    if k > 0 {
      OffsetIsMultiple(step, k - 1);
      assert k * step == (k - 1) * step + step;
    }
  }

  lemma {:induction false} OffsetMonotone(step: nat, k: nat, j: nat)
    ensures Offset(step, k) <= Offset(step, k + j)
    decreases j
  {
    if j > 0 {
      OffsetMonotone(step, k, j - 1);
    }
  }

  /** The k-th window: the size bases starting at offset k*step. */
  function WindowAt(nucs: string, size: nat, step: nat, k: nat): string
    requires Offset(step, k) + size <= |nucs|
  {
    nucs[Offset(step, k) .. Offset(step, k) + size]
  }

  /** Window k is produced: its offset is strictly below |nucs| - size. */
  predicate Produced(nucs: string, size: int, step: nat, k: nat) {
    Offset(step, k) < |nucs| - size
  }

  /**
   * What the window loop needs: the window fits (|nucs| >= size, otherwise
   * the unsigned bound wraps), a scored window has at least two bases, the
   * step is positive, and every produced window has its codes in range.
   */
  ghost predicate SeriesConfig(code: char -> int, nucs: string, size: int, step: int) {
    && 0 <= size <= |nucs|
    && (size < |nucs| ==> 2 <= size)
    && 0 < step
    && forall k: nat :: Produced(nucs, size, step, k) ==>
         PairCodesInRange(code, WindowAt(nucs, size, step, k))
  }

  /** The value stored for produced window k: its clipped score. */
  ghost function StoredScore(code: char -> int, log2: real -> real, nucs: string, size: int, step: int, k: nat): real
    requires SeriesConfig(code, nucs, size, step) && Produced(nucs, size, step, k)
  {
    Clip(WindowScore(code, log2, WindowAt(nucs, size, step, k)))
  }

  /** A produced window ends strictly before the last base, has size bases, and its stored value is its clipped score. */
  lemma StoredScoreOfWindow(code: char -> int, log2: real -> real, nucs: string, size: int, step: int, k: nat)
    requires SeriesConfig(code, nucs, size, step) && Produced(nucs, size, step, k)
    ensures Offset(step, k) + size < |nucs| && |WindowAt(nucs, size, step, k)| == size
    ensures StoredScore(code, log2, nucs, size, step, k) == Clip(WindowScore(code, log2, WindowAt(nucs, size, step, k)))
  {
  }

  /** Number of windows produced from window k on. */
  function WindowsFrom(nucs: string, size: int, step: nat, k: nat): nat
    requires 0 < step
    decreases |nucs| - size - Offset(step, k)
  {
    if Produced(nucs, size, step, k) then 1 + WindowsFrom(nucs, size, step, k + 1) else 0
  }

  /** Counting from window k, the j-th further window is produced exactly when j is below the count. */
  lemma {:induction false} WindowsFromAt(nucs: string, size: int, step: nat, k: nat, j: nat)
    requires 0 < step
    ensures j < WindowsFrom(nucs, size, step, k) <==> Produced(nucs, size, step, k + j)
    decreases j
  {
    if Produced(nucs, size, step, k) {
      if j > 0 {
        WindowsFromAt(nucs, size, step, k + 1, j - 1);
        assert k + 1 + (j - 1) == k + j;
      }
    } else {
      OffsetMonotone(step, k, j);
    }
  }

  /** The whole series, as the window loop leaves `_entropy_window`: one stored score per produced window. */
  ghost function Series(code: char -> int, log2: real -> real, nucs: string, size: int, step: int): seq<real>
    requires SeriesConfig(code, nucs, size, step)
  {
    seq(WindowsFrom(nucs, size, step, 0), k requires 0 <= k < WindowsFrom(nucs, size, step, 0) =>
      WindowsFromAt(nucs, size, step, 0, k);
      StoredScore(code, log2, nucs, size, step, k))
  }

  /**
   * Window k is in the series exactly when its offset k*step is strictly
   * below |nucs| - size, so the window ends strictly before the last base and
   * the window ending at the final base is never produced; its stored value
   * is the clipped score of the length-size substring at that offset.
   */
  lemma SeriesWindow(code: char -> int, log2: real -> real, nucs: string, size: int, step: int, k: nat)
    requires SeriesConfig(code, nucs, size, step)
    ensures k < |Series(code, log2, nucs, size, step)| <==> Offset(step, k) < |nucs| - size
    ensures k < |Series(code, log2, nucs, size, step)| ==>
      && Offset(step, k) + size < |nucs|
      && |WindowAt(nucs, size, step, k)| == size
      && Series(code, log2, nucs, size, step)[k] == Clip(WindowScore(code, log2, WindowAt(nucs, size, step, k)))
  {
    ghost var series := Series(code, log2, nucs, size, step);
    assert k < |series| <==> Produced(nucs, size, step, k) by {
      WindowsFromAt(nucs, size, step, 0, k);
    }
    if k < |series| {
      assert series[k] == StoredScore(code, log2, nucs, size, step, k);
      StoredScoreOfWindow(code, log2, nucs, size, step, k);
    }
  }

  /** Appending the stored value of produced window k to the first k values gives the first k + 1. */
  lemma SeriesExtends(code: char -> int, log2: real -> real, nucs: string, size: int, step: int, k: nat)
    requires SeriesConfig(code, nucs, size, step) && Produced(nucs, size, step, k)
    ensures Offset(step, k) + size < |nucs|
    ensures |WindowAt(nucs, size, step, k)| >= 2 && PairCodesInRange(code, WindowAt(nucs, size, step, k))
    ensures k < |Series(code, log2, nucs, size, step)|
    ensures Series(code, log2, nucs, size, step)[..k + 1] ==
      Series(code, log2, nucs, size, step)[..k] + [Clip(WindowScore(code, log2, WindowAt(nucs, size, step, k)))]
  {
    SeriesWindow(code, log2, nucs, size, step, k);
  }

  /**
   * The series holds ceil((|nucs| - size) / step) values, one per offset
   * 0, step, 2*step, ... strictly below |nucs| - size; it is non-empty exactly
   * when |nucs| > size.
   */
  lemma SeriesLength(code: char -> int, log2: real -> real, nucs: string, size: int, step: int)
    requires SeriesConfig(code, nucs, size, step)
    ensures |Series(code, log2, nucs, size, step)| ==
      if |nucs| > size then (|nucs| - size - 1) / step + 1 else 0
    ensures |Series(code, log2, nucs, size, step)| > 0 <==> |nucs| > size
  {
    var n := |Series(code, log2, nucs, size, step)|;
    WindowsFromAt(nucs, size, step, 0, n);
    if n > 0 {
      WindowsFromAt(nucs, size, step, 0, n - 1);
      assert Offset(step, n) == Offset(step, n - 1) + step;
      OffsetIsMultiple(step, n - 1);
      var r := |nucs| - size - 1 - Offset(step, n - 1);
      DivUnique(|nucs| - size - 1, step, n - 1, r);
    }
  }

  /** Euclidean division is unique: a quotient and remainder in range are the ones `/` gives. */
  lemma DivUnique(x: int, d: int, q: int, r: int)
    requires 0 <= r < d && x == q * d + r
    ensures x / d == q
  {
    var q2, r2 := x / d, x % d;
    assert x == q2 * d + r2;
    assert (q - q2) * d == q * d - q2 * d;
    if q > q2 {
      MulAtLeast(q - q2, d);
    } else if q < q2 {
      assert (q2 - q) * d == q2 * d - q * d;
      MulAtLeast(q2 - q, d);
    }
  }

  lemma MulAtLeast(a: int, d: int)
    requires a >= 1 && d > 0
    ensures a * d >= d
  {
  }

  /** No stored value exceeds the ceiling 0.8. */
  lemma SeriesBelowCeiling(code: char -> int, log2: real -> real, nucs: string, size: int, step: int)
    requires SeriesConfig(code, nucs, size, step)
    ensures forall j :: 0 <= j < |Series(code, log2, nucs, size, step)| ==>
      Series(code, log2, nucs, size, step)[j] <= ScoreCeiling
  {
  }
}
