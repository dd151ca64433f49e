// Dinucleotide-entropy score of one window (EntropyDetection::EntropyOneWindowDinuc).
//
// The score of a window is defined here as a specification: the pair-count
// table the C++ pair loop builds, the number of pairs it counts, and the sum
// of -p*log2(p) over the non-empty slots. The method that computes it with
// loops lives in the class EntropyDetection.EntropyDetection.

module DinucScore {

  /** Number of slots of the pair-count table; every slot starts at 0. */
  const TableSize: nat := 44

  /** A base code as the nucleotide-to-number mapping gives it for A, C, G and T. */
  predicate IsBaseCode(c: int) {
    0 <= c < 4
  }

  /** The pair starting at position i is counted: neither of its two bases is 'N'. */
  predicate PairCounted(w: string, i: nat)
    requires i + 1 < |w|
  {
    w[i] != 'N' && w[i + 1] != 'N'
  }

  /**
   * What the pair loop needs of the mapping: every pair it visits and counts
   * (positions i < |w| - 2) is made of two bases whose codes lie in 0..3.
   */
  predicate PairCodesInRange(code: char -> int, w: string) {
    forall i {:trigger PairCounted(w, i)} :: 0 <= i < |w| - 2 && PairCounted(w, i) ==>
      IsBaseCode(code(w[i])) && IsBaseCode(code(w[i + 1]))
  }

  /** Table slot of a dinucleotide, `code1 + code2*10`; it lies in 0..33, inside the table. */
  function Slot(code1: int, code2: int): (s: nat)
    requires IsBaseCode(code1) && IsBaseCode(code2)
    ensures s <= 33 && s < TableSize
  {
    code1 + code2 * 10
  }

  /**
   * Both codes can be read back from a slot, so the 16 dinucleotides occupy
   * 16 distinct slots.
   */
  lemma SlotDecodes(code1: int, code2: int)
    requires IsBaseCode(code1) && IsBaseCode(code2)
    ensures Slot(code1, code2) % 10 == code1 && Slot(code1, code2) / 10 == code2
  {
  }

  /** A slot of the table that a dinucleotide can occupy. */
  ghost predicate IsDinucleotideSlot(j: int) {
    exists a, b :: IsBaseCode(a) && IsBaseCode(b) && j == Slot(a, b)
  }

  /** Number of pairs counted among the first n pairs visited; never more than n. */
  function PairCount(w: string, n: nat): (c: nat)
    requires n + 2 <= |w|
    ensures c <= n
  {
    if n == 0 then 0
    else PairCount(w, n - 1) + (if PairCounted(w, n - 1) then 1 else 0)
  }

  /** Every entry of a table lies between 0 and total. */
  predicate Bounded(t: seq<int>, total: int) {
    forall j :: 0 <= j < |t| ==> 0 <= t[j] <= total
  }

  /**
   * The pair-count table after the first n pairs: a pair with an 'N' leaves
   * it alone, any other pair adds one to its slot. Every entry is bounded by
   * the number of counted pairs.
   */
  ghost function CountTable(code: char -> int, w: string, n: nat): (t: seq<int>)
    requires n + 2 <= |w| && PairCodesInRange(code, w)
    ensures |t| == TableSize
    ensures Bounded(t, PairCount(w, n))
  {
    if n == 0 then seq(TableSize, _ => 0)
    else
      var t := CountTable(code, w, n - 1);
      if PairCounted(w, n - 1) then
        var s := Slot(code(w[n - 1]), code(w[n]));
        t[s := t[s] + 1]
      else t
  }

  /** One step of the pair loop: pair i either leaves table and count alone or adds one to its slot. */
  lemma CountStep(code: char -> int, w: string, i: nat)
    requires i + 3 <= |w| && PairCodesInRange(code, w)
    ensures !PairCounted(w, i) ==>
      CountTable(code, w, i + 1) == CountTable(code, w, i) && PairCount(w, i + 1) == PairCount(w, i)
    ensures PairCounted(w, i) ==>
      && IsBaseCode(code(w[i])) && IsBaseCode(code(w[i + 1]))
      && CountTable(code, w, i + 1) == CountTable(code, w, i)[Slot(code(w[i]), code(w[i + 1])) :=
           CountTable(code, w, i)[Slot(code(w[i]), code(w[i + 1]))] + 1]
      && PairCount(w, i + 1) == PairCount(w, i) + 1
  {
  }

  /**
   * The entropy contribution of one outcome of probability p, in bits. It
   * vanishes where log2(p) is 0 (p = 1) and is never negative for a
   * probability, where log2(p) <= 0.
   */
  function MinusPlogP(log2: real -> real, p: real): (h: real)
    ensures log2(p) == 0.0 ==> h == 0.0
    ensures p >= 0.0 && log2(p) <= 0.0 ==> h >= 0.0
    ensures p > 0.0 && log2(p) < 0.0 ==> h > 0.0
  {
    -1.0 * p * log2(p)
  }

  /** Entropy accumulated over the first k slots of a table of counts out of total. */
  ghost function EntropyUpTo(log2: real -> real, t: seq<int>, total: int, k: nat): real
    requires k <= |t| && Bounded(t, total)
  {
    if k == 0 then 0.0
    else
      EntropyUpTo(log2, t, total, k - 1)
      + (if t[k - 1] != 0 then MinusPlogP(log2, t[k - 1] as real / total as real) else 0.0)
  }

  /** The score `(4 - H) / 4` of a window of at least two bases. */
  ghost function WindowScore(code: char -> int, log2: real -> real, w: string): real
    requires |w| >= 2 && PairCodesInRange(code, w)
  {
    var n := |w| - 2;
    (4.0 - EntropyUpTo(log2, CountTable(code, w, n), PairCount(w, n), TableSize)) / 4.0
  }

  ghost function Sum(s: seq<int>): int {
    if s == [] then 0 else s[0] + Sum(s[1..])
  }

  lemma {:induction false} SumIncrement(s: seq<int>, j: nat)
    requires j < |s|
    ensures Sum(s[j := s[j] + 1]) == Sum(s) + 1
  {
    if j == 0 {
      assert s[j := s[j] + 1][1..] == s[1..];
    } else {
      assert s[j := s[j] + 1][1..] == s[1..][j - 1 := s[j] + 1];
      SumIncrement(s[1..], j - 1);
    }
  }

  lemma {:induction false} SumZeros(n: nat)
    ensures Sum(seq(n, _ => 0)) == 0
  {
    if n > 0 {
      assert seq(n, _ => 0)[1..] == seq(n - 1, _ => 0);
      SumZeros(n - 1);
    }
  }

  lemma EmptyTableSum(code: char -> int, w: string)
    requires 2 <= |w| && PairCodesInRange(code, w)
    ensures Sum(CountTable(code, w, 0)) == 0
  {
    SumZeros(TableSize);
  }

  lemma TableSumStep(code: char -> int, w: string, i: nat)
    requires i + 3 <= |w| && PairCodesInRange(code, w)
    ensures Sum(CountTable(code, w, i + 1)) == Sum(CountTable(code, w, i)) + PairCount(w, i + 1) - PairCount(w, i)
  {
    CountStep(code, w, i);
    if PairCounted(w, i) {
      SumIncrement(CountTable(code, w, i), Slot(code(w[i]), code(w[i + 1])));
    }
  }

  /** After the pair loop the table entries add up to the number of counted pairs (`subseqs`). */
  lemma {:induction false} TableSumIsPairCount(code: char -> int, w: string, n: nat)
    requires n + 2 <= |w| && PairCodesInRange(code, w)
    ensures Sum(CountTable(code, w, n)) == PairCount(w, n)
  {
    if n == 0 {
      EmptyTableSum(code, w);
    } else {
      TableSumIsPairCount(code, w, n - 1);
      TableSumStep(code, w, n - 1);
    }
  }

  /** Only the 16 dinucleotide slots of the 44 can hold a non-zero count. */
  lemma {:induction false} OnlyDinucleotideSlots(code: char -> int, w: string, n: nat)
    requires n + 2 <= |w| && PairCodesInRange(code, w)
    ensures forall j :: 0 <= j < TableSize && CountTable(code, w, n)[j] != 0 ==> IsDinucleotideSlot(j)
  {
    if n > 0 {
      OnlyDinucleotideSlots(code, w, n - 1);
      if PairCounted(w, n - 1) {
        var a, b := code(w[n - 1]), code(w[n]);
        assert IsDinucleotideSlot(Slot(a, b));
      }
    }
  }

  /** No pair is counted exactly when no visited pair is free of 'N'. */
  lemma {:induction false} PairCountZero(w: string, n: nat)
    requires n + 2 <= |w|
    ensures PairCount(w, n) == 0 <==> forall i :: 0 <= i < n ==> !PairCounted(w, i)
  {
    if n > 0 {
      PairCountZero(w, n - 1);
    }
  }

  /** Slots that hold no count contribute nothing to the entropy. */
  lemma {:induction false} EntropyOfEmptySlots(log2: real -> real, t: seq<int>, total: int, k: nat)
    requires k <= |t| && Bounded(t, total)
    requires forall j :: 0 <= j < k ==> t[j] == 0
    ensures EntropyUpTo(log2, t, total, k) == 0.0
  {
    if k > 0 {
      EntropyOfEmptySlots(log2, t, total, k - 1);
    }
  }

  /**
   * A window in which no visited pair is free of 'N' (an all-'N' window, or a
   * window of length 2 where the loop visits nothing) never divides by the
   * zero pair count and scores exactly 1.
   */
  lemma NoPairsScoresOne(code: char -> int, log2: real -> real, w: string)
    requires |w| >= 2 && PairCodesInRange(code, w)
    requires forall i :: 0 <= i < |w| - 2 ==> !PairCounted(w, i)
    ensures PairCount(w, |w| - 2) == 0
    ensures WindowScore(code, log2, w) == 1.0
  {
    var n := |w| - 2;
    PairCountZero(w, n);
    var t := CountTable(code, w, n);
    EntropyOfEmptySlots(log2, t, 0, TableSize);
  }

  /** A window made only of 'N' scores exactly 1. */
  lemma AllUnknownScoresOne(code: char -> int, log2: real -> real, w: string)
    requires |w| >= 2
    requires forall i :: 0 <= i < |w| ==> w[i] == 'N'
    ensures PairCodesInRange(code, w)
    ensures WindowScore(code, log2, w) == 1.0
  {
    NoPairsScoresOne(code, log2, w);
  }

  /** When every counted pair falls into slot s, the table holds all counts in s. */
  lemma {:induction false} OneSlotTable(code: char -> int, w: string, n: nat, s: nat)
    requires n + 2 <= |w| && PairCodesInRange(code, w) && s < TableSize
    requires forall i :: 0 <= i < n && PairCounted(w, i) ==> Slot(code(w[i]), code(w[i + 1])) == s
    ensures CountTable(code, w, n) == seq(TableSize, j => if j == s then PairCount(w, n) else 0)
  {
    if n > 0 {
      OneSlotTable(code, w, n - 1, s);
    }
  }

  /** A non-zero count divided by itself is the probability 1. */
  lemma DivSelf(x: real)
    requires x != 0.0
    ensures x / x == 1.0
  {
  }

  /** Entropy of a table whose only non-empty slot s holds all total counts. */
  lemma {:induction false} EntropyOfOneSlot(log2: real -> real, t: seq<int>, total: int, s: nat, k: nat)
    requires k <= |t| && s < |t| && Bounded(t, total)
    requires forall j :: 0 <= j < |t| && j != s ==> t[j] == 0
    requires t[s] == total
    ensures EntropyUpTo(log2, t, total, k) == if s < k && total != 0 then MinusPlogP(log2, 1.0) else 0.0
  {
    if k > 0 {
      EntropyOfOneSlot(log2, t, total, s, k - 1);
      if k - 1 == s && total != 0 {
        assert t[s] as real == total as real && total as real != 0.0;
        DivSelf(total as real);
      }
    }
  }

  /**
   * If every counted pair of the window is the same dinucleotide, its slot
   * has p = 1 and contributes -1*log2(1) = 0, so the window scores exactly 1.
   */
  lemma OneClassScoresOne(code: char -> int, log2: real -> real, w: string, s: nat)
    requires log2(1.0) == 0.0
    requires |w| >= 2 && PairCodesInRange(code, w) && s < TableSize
    requires forall i :: 0 <= i < |w| - 2 && PairCounted(w, i) ==> Slot(code(w[i]), code(w[i + 1])) == s
    ensures WindowScore(code, log2, w) == 1.0
  {
    var n := |w| - 2;
    OneSlotTable(code, w, n, s);
    EntropyOfOneSlot(log2, CountTable(code, w, n), PairCount(w, n), s, TableSize);
  }

  /** A homopolymer window (one base, other than 'N', repeated) scores exactly 1. */
  lemma HomopolymerScoresOne(code: char -> int, log2: real -> real, w: string, b: char)
    requires log2(1.0) == 0.0
    requires |w| >= 2 && b != 'N' && IsBaseCode(code(b))
    requires forall i :: 0 <= i < |w| ==> w[i] == b
    ensures PairCodesInRange(code, w)
    ensures WindowScore(code, log2, w) == 1.0
  {
    OneClassScoresOne(code, log2, w, Slot(code(b), code(b)));
  }

  /** Half of a positive total, as a probability, is 0.5. */
  lemma HalfRatio(c: int, total: int)
    requires total > 0 && 2 * c == total
    ensures c as real / total as real == 0.5
  {
    assert total as real == 2.0 * c as real;
  }

  /** Entropy of a table whose two non-empty slots s1 and s2 each hold half of total. */
  lemma {:induction false} EntropyOfTwoSlots(log2: real -> real, t: seq<int>, total: int, s1: nat, s2: nat, k: nat)
    requires k <= |t| && s1 < |t| && s2 < |t| && s1 != s2 && Bounded(t, total) && total > 0
    requires 2 * t[s1] == total && 2 * t[s2] == total
    requires forall j :: 0 <= j < |t| && j != s1 && j != s2 ==> t[j] == 0
    ensures EntropyUpTo(log2, t, total, k) ==
      (if s1 < k then MinusPlogP(log2, 0.5) else 0.0) + (if s2 < k then MinusPlogP(log2, 0.5) else 0.0)
  {
    if k > 0 {
      EntropyOfTwoSlots(log2, t, total, s1, s2, k - 1);
      if k - 1 == s1 {
        HalfRatio(t[s1], total);
      } else if k - 1 == s2 {
        HalfRatio(t[s2], total);
      }
    }
  }

  /** The window alternates between the bases x and y, starting with x. */
  predicate Alternating(w: string, x: char, y: char) {
    forall i :: 0 <= i < |w| ==> w[i] == if i % 2 == 0 then x else y
  }

  /** Every base of an alternating window is x or y, so its pairs have codes in range. */
  lemma AlternatingInRange(code: char -> int, w: string, x: char, y: char)
    requires Alternating(w, x, y) && IsBaseCode(code(x)) && IsBaseCode(code(y))
    ensures PairCodesInRange(code, w)
  {
    forall i | 0 <= i < |w| ensures IsBaseCode(code(w[i])) {
      assert w[i] == x || w[i] == y;
    }
  }

  /** A table whose only possibly non-empty slots are a, holding ca, and b, holding cb. */
  predicate TwoSlotTable(t: seq<int>, a: nat, b: nat, ca: int, cb: int) {
    && a < |t| && b < |t| && a != b && t[a] == ca && t[b] == cb
    && forall j :: 0 <= j < |t| && j != a && j != b ==> t[j] == 0
  }

  /** Adding one to slot a or to slot b keeps the two-slot shape. */
  lemma TwoSlotBump(t: seq<int>, a: nat, b: nat, ca: int, cb: int)
    requires TwoSlotTable(t, a, b, ca, cb)
    ensures TwoSlotTable(t[a := t[a] + 1], a, b, ca + 1, cb)
    ensures TwoSlotTable(t[b := t[b] + 1], a, b, ca, cb + 1)
  {
  }

  /** Before any pair is visited, the table has the two-slot shape with both counts 0. */
  lemma EmptyTwoSlotTable(code: char -> int, w: string, a: nat, b: nat)
    requires 2 <= |w| && PairCodesInRange(code, w) && a < TableSize && b < TableSize && a != b
    ensures TwoSlotTable(CountTable(code, w, 0), a, b, 0, 0)
  {
  }

  /** Two more pairs of an alternating window, xy and then yx, add one to each of the two slots. */
  lemma AlternatingTwoPairs(code: char -> int, w: string, x: char, y: char, n: nat, c: int)
    requires Alternating(w, x, y) && n + 4 <= |w| && n % 2 == 0
    requires x != 'N' && y != 'N' && IsBaseCode(code(x)) && IsBaseCode(code(y))
    requires PairCodesInRange(code, w)
    requires TwoSlotTable(CountTable(code, w, n), Slot(code(x), code(y)), Slot(code(y), code(x)), c, c)
    ensures PairCount(w, n + 2) == PairCount(w, n) + 2
    ensures TwoSlotTable(CountTable(code, w, n + 2), Slot(code(x), code(y)), Slot(code(y), code(x)), c + 1, c + 1)
  {
    var a, b := Slot(code(x), code(y)), Slot(code(y), code(x));
    assert w[n] == x && w[n + 1] == y && w[n + 2] == x by {
      assert (n + 1) % 2 == 1 && (n + 2) % 2 == 0;
    }
    var t0 := CountTable(code, w, n);
    CountStep(code, w, n);
    TwoSlotBump(t0, a, b, c, c);
    var t1 := CountTable(code, w, n + 1);
    CountStep(code, w, n + 1);
    TwoSlotBump(t1, a, b, c + 1, c);
  }

  /**
   * The table after the first 2m pairs of an alternating window: every pair is
   * counted, the m pairs xy fill one slot, the m pairs yx fill another, and
   * nothing else is counted.
   */
  lemma {:induction false} AlternatingTable(code: char -> int, w: string, x: char, y: char, m: nat)
    requires Alternating(w, x, y) && 2 * m + 2 <= |w|
    requires x != 'N' && y != 'N' && IsBaseCode(code(x)) && IsBaseCode(code(y)) && code(x) != code(y)
    requires PairCodesInRange(code, w)
    ensures PairCount(w, 2 * m) == 2 * m
    ensures TwoSlotTable(CountTable(code, w, 2 * m), Slot(code(x), code(y)), Slot(code(y), code(x)), m, m)
  {
    if m == 0 {
      SlotDecodes(code(x), code(y));
      SlotDecodes(code(y), code(x));
      EmptyTwoSlotTable(code, w, Slot(code(x), code(y)), Slot(code(y), code(x)));
    } else {
      var n := 2 * (m - 1);
      AlternatingTable(code, w, x, y, m - 1);
      AlternatingTwoPairs(code, w, x, y, n, m - 1);
      assert n + 2 == 2 * m;
    }
  }

  /**
   * A strictly alternating window of two distinct bases and even length, such
   * as "ATATAT", fills two slots with equally many pairs. With log2(0.5) = -1
   * its entropy is 1 bit and it scores exactly 0.75, below the 0.8 ceiling.
   */
  lemma AlternatingScoresThreeQuarters(code: char -> int, log2: real -> real, w: string, x: char, y: char)
    requires log2(0.5) == -1.0
    requires Alternating(w, x, y) && |w| >= 4 && |w| % 2 == 0
    requires x != 'N' && y != 'N' && IsBaseCode(code(x)) && IsBaseCode(code(y)) && code(x) != code(y)
    ensures PairCodesInRange(code, w)
    ensures WindowScore(code, log2, w) == 0.75
  {
    var m := (|w| - 2) / 2;
    SlotDecodes(code(x), code(y));
    SlotDecodes(code(y), code(x));
    AlternatingInRange(code, w, x, y);
    AlternatingTable(code, w, x, y, m);
    assert 2 * m == |w| - 2;
    EntropyOfTwoSlots(log2, CountTable(code, w, 2 * m), 2 * m, Slot(code(x), code(y)), Slot(code(y), code(x)), TableSize);
  }

  /** The first n pairs' table and count depend only on the first n + 1 bases. */
  lemma {:induction false} CountsDependOnPrefix(code: char -> int, w1: string, w2: string, n: nat)
    requires n + 2 <= |w1| && n + 2 <= |w2|
    requires PairCodesInRange(code, w1) && PairCodesInRange(code, w2)
    requires w1[..n + 1] == w2[..n + 1]
    ensures CountTable(code, w1, n) == CountTable(code, w2, n)
    ensures PairCount(w1, n) == PairCount(w2, n)
  {
    if n > 0 {
      assert w1[..n] == w1[..n + 1][..n] && w2[..n] == w2[..n + 1][..n];
      CountsDependOnPrefix(code, w1, w2, n - 1);
      assert w1[n - 1] == w1[..n + 1][n - 1] && w1[n] == w1[..n + 1][n];
      assert w2[n - 1] == w2[..n + 1][n - 1] && w2[n] == w2[..n + 1][n];
    }
  }

  /**
   * The pair loop stops before the final pair (|w| - 2, |w| - 1): the last
   * base of a window never affects its score, whatever it is replaced by.
   */
  lemma FinalBaseIgnored(code: char -> int, log2: real -> real, w: string, b: char)
    requires |w| >= 2 && PairCodesInRange(code, w)
    ensures PairCodesInRange(code, w[..|w| - 1] + [b])
    ensures WindowScore(code, log2, w[..|w| - 1] + [b]) == WindowScore(code, log2, w)
  {
    var v := w[..|w| - 1] + [b];
    forall i | 0 <= i < |v| - 2 && PairCounted(v, i)
      ensures IsBaseCode(code(v[i])) && IsBaseCode(code(v[i + 1]))
    {
      assert v[i] == w[i] && v[i + 1] == w[i + 1];
      assert PairCounted(w, i);
    }
    assert v[..|w| - 1] == w[..|w| - 1];
    CountsDependOnPrefix(code, v, w, |w| - 2);
  }
}
