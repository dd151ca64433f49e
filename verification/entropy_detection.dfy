// The entropy-based repeat detector (class EntropyDetection of
// src/EntropyDetection.cpp): the reference sequence and window
// configuration it is built with, and the series of window scores that
// CalculateEntropyWindow rebuilds in place.
//
// The nucleotide-to-number mapping and the logarithm come from code outside
// this model and are passed in as functions: `code` maps a base to its number
// and `log2` is the base-2 logarithm (`log(x)/log(2)`). The threshold of
// EntropyIsAboveThreshold is a run-time parameter and is passed in too.

module EntropyDetection {
  import opened DinucScore
  import opened ScoreSeries
  import opened Boundaries

  class EntropyDetection {
    /** The candidate sequence (`_nucs`). */
    const nucs: string
    /** Length of each scored window (`_window_size`). */
    const windowSize: int
    /** Distance between the starts of consecutive windows (`_window_step`). */
    const windowStep: int
    /** The score series (`_entropy_window`). */
    var entropyWindow: seq<real>

    constructor (nucleotides: string, size: int, step: int)
      ensures nucs == nucleotides && windowSize == size && windowStep == step
      ensures entropyWindow == []
    {
      nucs := nucleotides;
      windowSize := size;
      windowStep := step;
      entropyWindow := [];
    }

    /**
     * Counts the pairs (i, i+1) with i < |windowNucs| - 2 that hold no 'N'
     * into a 44-slot table, then accumulates -p*log2(p) over its non-empty
     * slots and returns (4 - entropy) / 4.
     */
    method EntropyOneWindowDinuc(windowNucs: string, code: char -> int, log2: real -> real) returns (score: real)
      requires |windowNucs| >= 2 && PairCodesInRange(code, windowNucs)
      ensures score == WindowScore(code, log2, windowNucs)
    {
      var windowLength := |windowNucs|;
      var kmerCounts := new int[TableSize](_ => 0);
      var subseqs := 0;
      var i := 0;
      while i < windowLength - 2
        invariant 0 <= i <= windowLength - 2
        invariant kmerCounts[..] == CountTable(code, windowNucs, i)
        invariant subseqs == PairCount(windowNucs, i)
      {
        var nuc1 := windowNucs[i];
        var nuc2 := windowNucs[i + 1];
        ghost var before := kmerCounts[..];
        CountStep(code, windowNucs, i);
        if nuc1 != 'N' && nuc2 != 'N' {
          var slot := Slot(code(nuc1), code(nuc2));
          kmerCounts[slot] := kmerCounts[slot] + 1;
          subseqs := subseqs + 1;
          assert kmerCounts[..] == before[slot := before[slot] + 1];
        }
        i := i + 1;
      }
      ghost var table := kmerCounts[..];
      var entropy := 0.0;
      var j := 0;
      while j < kmerCounts.Length
        invariant 0 <= j <= kmerCounts.Length
        invariant kmerCounts[..] == table
        invariant entropy == EntropyUpTo(log2, table, subseqs, j)
      {
        var count := kmerCounts[j];
        if count != 0 {
          var p := count as real / subseqs as real;
          entropy := entropy + MinusPlogP(log2, p);
        }
        j := j + 1;
      }
      score := (4.0 - entropy) / 4.0;
    }

    /**
     * Rebuilds the series from empty: one value per window of windowSize
     * bases at offsets 0, windowStep, 2*windowStep, ... strictly below
     * |nucs| - windowSize, each the window's score or 0 when the score
     * exceeds 0.8.
     */
    method CalculateEntropyWindow(code: char -> int, log2: real -> real)
      requires SeriesConfig(code, nucs, windowSize, windowStep)
      modifies this`entropyWindow
      ensures entropyWindow == Series(code, log2, nucs, windowSize, windowStep)
    {
      entropyWindow := [];
      ghost var series := Series(code, log2, nucs, windowSize, windowStep);
      var i := 0;
      ghost var k: nat := 0;
      while i < |nucs| - windowSize
        invariant i == Offset(windowStep, k)
        invariant k <= |series| && entropyWindow == series[..k]
        decreases |nucs| - windowSize - i
      {
        SeriesExtends(code, log2, nucs, windowSize, windowStep, k);
        var windowNucleotides := nucs[i .. i + windowSize];
        assert windowNucleotides == WindowAt(nucs, windowSize, windowStep, k);
        var entropy := EntropyOneWindowDinuc(windowNucleotides, code, log2);
        if entropy > ScoreCeiling {
          entropy := 0.0;
        }
        entropyWindow := entropyWindow + [entropy];
        i := i + windowStep;
        k := k + 1;
      }
      SeriesWindow(code, log2, nucs, windowSize, windowStep, k);
      assert series[..k] == series;
    }

    /**
     * Rebuilds the series and reports whether its maximum exceeds the
     * threshold. The series is non-empty because |nucs| > windowSize.
     */
    method EntropyIsAboveThreshold(code: char -> int, log2: real -> real, threshold: real) returns (above: bool)
      requires SeriesConfig(code, nucs, windowSize, windowStep) && windowSize < |nucs|
      modifies this`entropyWindow
      ensures entropyWindow == Series(code, log2, nucs, windowSize, windowStep)
      ensures |entropyWindow| > 0 && (above <==> MaxValue(entropyWindow) > threshold)
    {
      CalculateEntropyWindow(code, log2);
      SeriesLength(code, log2, nucs, windowSize, windowStep);
      above := entropyWindow[MaxElementIndex(entropyWindow)] > threshold;
    }

    /**
     * Finds the repeat's span in the current series around the first index of
     * its maximum. The incoming flag is the caller's `*repetitive_end`; the
     * returned flag is what it holds afterwards (set, never cleared).
     */
    method FindStartEnd(repetitiveEndIn: bool) returns (start: nat, end: nat, repetitiveEnd: bool)
      requires |entropyWindow| >= 2 && MaxValue(entropyWindow) >= 0.0
      ensures ValidBoundaries(entropyWindow, repetitiveEndIn, start, end, repetitiveEnd)
    {
      var window := entropyWindow;
      var indexOfMax := MaxElementIndex(window);
      var maxEntropy := window[indexOfMax];
      var cutoff := BoundaryRatio * maxEntropy;
      repetitiveEnd := repetitiveEndIn;
      // Scan left from the maximum until a value falls below the cutoff.
      var starti: int := indexOfMax;
      while starti >= 0
        invariant -1 <= starti <= indexOfMax
        invariant forall j :: starti < j <= indexOfMax ==> window[j] >= cutoff
      {
        if window[starti] < cutoff {
          break;
        }
        starti := starti - 1;
      }
      assert LeftRunsOff(window) <==> starti < 0;
      start := starti + 1;
      if start == 0 {
        start := start + 1;
        repetitiveEnd := true;
      }
      // Scan right from the maximum until a value falls below the cutoff.
      var e: int := indexOfMax;
      while e < |window|
        invariant indexOfMax <= e <= |window|
        invariant forall j :: indexOfMax <= j < e ==> window[j] >= cutoff
      {
        if window[e] < cutoff {
          break;
        }
        e := e + 1;
      }
      assert RightRunsOff(window) <==> e == |window|;
      e := e - 1;
      if e == |window| - 1 {
        e := e - 1;
        repetitiveEnd := true;
      }
      end := e;
    }
  }

  /**
   * Because of the clip at 0.8, a threshold of 0.8 or more is never exceeded:
   * the detector can only report a repeat for thresholds below the ceiling.
   */
  lemma CeilingSilencesDetector(code: char -> int, log2: real -> real, nucs: string, size: int, step: int, threshold: real)
    requires SeriesConfig(code, nucs, size, step) && size < |nucs|
    requires threshold >= ScoreCeiling
    ensures |Series(code, log2, nucs, size, step)| > 0
    ensures !(MaxValue(Series(code, log2, nucs, size, step)) > threshold)
  {
    SeriesLength(code, log2, nucs, size, step);
    SeriesBelowCeiling(code, log2, nucs, size, step);
  }
}
