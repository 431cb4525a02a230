/** The bitset cells of `Sudoku.java`: the digit `d` (1..9) is the bit
    `1 << (d - 1)`, and a cell holds the set of digits still possible there. */
module SudokuBits {
  import opened Common

  /** A cell value. The solver keeps every cell within `ALL_DIGITS`, so sixteen
      bits hold the Java `int` exactly. */
  type Cell = bv16

  /** `DIGITS`: the nine single-digit bitsets, in ascending order. */
  const DIGITS: seq<Cell> := [1, 2, 4, 8, 16, 32, 64, 128, 256]

  /** `ALL_DIGITS`, the bit string `111111111`: any digit is possible. */
  const ALL_DIGITS: Cell := 0x1FF

  /** A single-digit bitset: one of `DIGITS`. */
  predicate Single(d: Cell)
  {
    d == 1 || d == 2 || d == 4 || d == 8 || d == 16 || d == 32 || d == 64 || d == 128 || d == 256
  }

  lemma InDigits(d: Cell)
    ensures d in DIGITS <==> Single(d)
  {
    if d in DIGITS {
      var k :| 0 <= k < 9 && DIGITS[k] == d;
      assert k == 0 || k == 1 || k == 2 || k == 3 || k == 4 || k == 5 || k == 6 || k == 7 || k == 8;
    }
    if Single(d) {
      if d == 1 { assert DIGITS[0] == d; }
      else if d == 2 { assert DIGITS[1] == d; }
      else if d == 4 { assert DIGITS[2] == d; }
      else if d == 8 { assert DIGITS[3] == d; }
      else if d == 16 { assert DIGITS[4] == d; }
      else if d == 32 { assert DIGITS[5] == d; }
      else if d == 64 { assert DIGITS[6] == d; }
      else if d == 128 { assert DIGITS[7] == d; }
      else { assert DIGITS[8] == d; }
    }
  }

  /** A cell value the tables `NUM_DIGITS` and `HIGHEST_DIGIT` cover. */
  predicate IsCell(v: Cell)
  {
    v <= ALL_DIGITS
  }

  /** Every digit `x` allows, `y` allows too. */
  predicate Within(x: Cell, y: Cell)
  {
    x & y == x
  }

  /** Cell `x` does not allow digit `d`: the test `(x & d) == 0`. */
  predicate Lacks(x: Cell, d: Cell)
  {
    x & d == 0
  }

  /** Whether the cell allows digit `k + 1`. */
  function Has(v: Cell, k: int): bool
    requires 0 <= k < 9
  {
    v & Bit(k) != 0
  }

  /** `1 << k`, the bitset of digit `k + 1`. */
  function Bit(k: int): Cell
    requires 0 <= k < 9
  {
    if k == 0 then 1 else if k == 1 then 2 else if k == 2 then 4 else if k == 3 then 8
    else if k == 4 then 16 else if k == 5 then 32 else if k == 6 then 64 else if k == 7 then 128
    else 256
  }

  lemma DigitBits()
    ensures forall k :: 0 <= k < 9 ==> DIGITS[k] == Bit(k)
  {
  }

  /** `NUM_DIGITS[v]`: `Integer.bitCount(v)`, counted over the nine digit
      bits (the table covers `0 <= v <= ALL_DIGITS`, the only cells the solver
      makes). */
  function NumDigits(v: Cell): (n: nat)
    ensures n <= 9
  {
    CountFrom(v, 0)
  }

  /** The bit count written out term by term. */
  function BitSum(v: Cell): nat
  {
    (if v & 1 != 0 then 1 else 0) + (if v & 2 != 0 then 1 else 0) + (if v & 4 != 0 then 1 else 0)
    + (if v & 8 != 0 then 1 else 0) + (if v & 16 != 0 then 1 else 0) + (if v & 32 != 0 then 1 else 0)
    + (if v & 64 != 0 then 1 else 0) + (if v & 128 != 0 then 1 else 0) + (if v & 256 != 0 then 1 else 0)
  }

  /** `HIGHEST_DIGIT[v]`: `Integer.highestOneBit(v)` over the nine digit bits,
      zero for zero. */
  function HighestDigit(v: Cell): Cell
  {
    if v & 256 != 0 then 256
    else if v & 128 != 0 then 128
    else if v & 64 != 0 then 64
    else if v & 32 != 0 then 32
    else if v & 16 != 0 then 16
    else if v & 8 != 0 then 8
    else if v & 4 != 0 then 4
    else if v & 2 != 0 then 2
    else if v & 1 != 0 then 1
    else 0
  }

  /** The digits a cell allows, in ascending order. */
  function DigitsOf(v: Cell): seq<Cell>
  {
    Filter(Allows(v), DIGITS)
  }

  /** The test `(d & v) > 0`. */
  function Allows(v: Cell): Cell -> bool
  {
    d => v & d != 0
  }

  /** The bit count is the number of digits the cell allows. */
  lemma NumDigitsCounts(v: Cell)
    requires IsCell(v)
    ensures NumDigits(v) == |DigitsOf(v)|
  {
    assert DigitsOf(v) == DigitsFrom(v, 0) by {
      DigitsFromFilter(v, 0);
      assert DIGITS[0..] == DIGITS;
    }
    CountFromLength(v, 0);
  }

  lemma NumDigitsSum(v: Cell)
    ensures NumDigits(v) == BitSum(v)
  {
    CountHead(v);
    CountMiddle(v);
    CountTail(v);
  }

  lemma CountHead(v: Cell)
    ensures CountFrom(v, 0) == (if v & 1 != 0 then 1 else 0) + (if v & 2 != 0 then 1 else 0)
      + (if v & 4 != 0 then 1 else 0) + CountFrom(v, 3)
  {
    assert CountFrom(v, 2) == (if v & 4 != 0 then 1 else 0) + CountFrom(v, 3);
    assert CountFrom(v, 1) == (if v & 2 != 0 then 1 else 0) + CountFrom(v, 2);
  }

  lemma CountMiddle(v: Cell)
    ensures CountFrom(v, 3) == (if v & 8 != 0 then 1 else 0) + (if v & 16 != 0 then 1 else 0)
      + (if v & 32 != 0 then 1 else 0) + CountFrom(v, 6)
  {
    assert CountFrom(v, 5) == (if v & 32 != 0 then 1 else 0) + CountFrom(v, 6);
    assert CountFrom(v, 4) == (if v & 16 != 0 then 1 else 0) + CountFrom(v, 5);
  }

  lemma CountTail(v: Cell)
    ensures CountFrom(v, 6) == (if v & 64 != 0 then 1 else 0) + (if v & 128 != 0 then 1 else 0)
      + (if v & 256 != 0 then 1 else 0)
  {
    assert CountFrom(v, 8) == (if v & 256 != 0 then 1 else 0);
    assert CountFrom(v, 7) == (if v & 128 != 0 then 1 else 0) + CountFrom(v, 8);
  }

  /** The digits of `v` among `DIGITS[k..]`. */
  function DigitsFrom(v: Cell, k: nat): seq<Cell>
    requires k <= 9
    decreases 9 - k
  {
    if k == 9 then [] else (if Has(v, k) then [Bit(k)] else []) + DigitsFrom(v, k + 1)
  }

  function CountFrom(v: Cell, k: nat): (n: nat)
    requires k <= 9
    ensures n <= 9 - k
    decreases 9 - k
  {
    if k == 9 then 0 else (if Has(v, k) then 1 else 0) + CountFrom(v, k + 1)
  }

  lemma {:induction false} CountFromLength(v: Cell, k: nat)
    requires k <= 9
    ensures |DigitsFrom(v, k)| == CountFrom(v, k)
    decreases 9 - k
  {
    if k < 9 {
      CountFromLength(v, k + 1);
    }
  }

  lemma {:induction false} DigitsFromFilter(v: Cell, k: nat)
    requires k <= 9
    ensures Filter(Allows(v), DIGITS[k..]) == DigitsFrom(v, k)
    decreases 9 - k
  {
    if k < 9 {
      DigitsFromFilter(v, k + 1);
      assert DIGITS[k..][1..] == DIGITS[k + 1..];
      DigitBits();
    }
  }

  /** The highest set bit is the greatest digit the cell allows, and zero when
      it allows none. */
  lemma HighestIsGreatest(v: Cell)
    requires IsCell(v)
    ensures v == 0 <==> HighestDigit(v) == 0
    ensures v != 0 ==> HighestDigit(v) in DigitsOf(v)
    ensures forall d :: d in DigitsOf(v) ==> d <= HighestDigit(v)
  {
    HighestBit(v);
    if v != 0 {
      DigitsOfMembers(v, HighestDigit(v));
    }
    HighestAbove(v);
  }

  lemma HighestAbove(v: Cell)
    requires IsCell(v)
    ensures forall d :: d in DigitsOf(v) ==> d <= HighestDigit(v)
  {
    forall d | d in DigitsOf(v) ensures d <= HighestDigit(v) {
      assert Single(d) && v & d != 0 by {
        DigitsOfMembers(v, d);
      }
      HighestUpper(v, d);
    }
  }

  lemma HighestUpper(v: Cell, d: Cell)
    requires Single(d) && v & d != 0
    ensures d <= HighestDigit(v)
  {
  }

  /** The cell allows exactly the digits whose bits it has. */
  lemma {:induction false} DigitsOfMembers(v: Cell, d: Cell)
    ensures d in DigitsOf(v) <==> Single(d) && v & d != 0
  {
    FilterMembers(Allows(v), DIGITS, d);
    InDigits(d);
    if Single(d) && v & d != 0 {
      assert Allows(v)(d);
      assert d in DIGITS;
    }
  }

  lemma HighestBit(v: Cell)
    requires IsCell(v)
    ensures v == 0 <==> HighestDigit(v) == 0
    ensures v != 0 ==> Single(HighestDigit(v)) && v & HighestDigit(v) != 0
    ensures forall d :: Single(d) && v & d != 0 ==> d <= HighestDigit(v)
  {
  }

  /** No digit means the empty cell. */
  lemma NoDigits(v: Cell)
    requires IsCell(v)
    ensures NumDigits(v) == 0 <==> v == 0
  {
    NumDigitsSum(v);
  }

  /** One digit means a single-digit cell. */
  lemma OneDigit(v: Cell)
    requires IsCell(v)
    ensures NumDigits(v) == 1 <==> Single(v)
  {
    NumDigitsSum(v);
  }

  /** Every single-digit bitset is within `ALL_DIGITS`. */
  lemma DigitsBelowAll(d: Cell)
    requires Single(d)
    ensures IsCell(d) && d != 0 && Within(d, ALL_DIGITS)
  {
  }

  /** A digit the cell allows is one of its bits: clearing it leaves a cell
      within the old one that lacks the digit. */
  lemma ClearBits(v: Cell, d: Cell)
    requires IsCell(v) && Single(d) && !Lacks(v, d)
    ensures Within(d, v)
    ensures IsCell(v - d) && Lacks(v - d, d) && Within(v - d, v)
  {
  }

  /** Clearing a digit the cell allows removes exactly one candidate. */
  lemma ClearCount(v: Cell, d: Cell)
    requires IsCell(v) && Single(d) && !Lacks(v, d)
    ensures NumDigits(v) >= 1 && NumDigits(v - d) == NumDigits(v) - 1
  {
    NumDigitsSum(v);
    NumDigitsSum(v - d);
    ClearSum(v, d);
  }

  lemma ClearSum(v: Cell, d: Cell)
    requires Single(d) && !Lacks(v, d)
    ensures BitSum(v - d) == BitSum(v) - 1
  {
    if d == 1 || d == 2 || d == 4 {
      ClearLow(v, d);
    } else if d == 8 || d == 16 || d == 32 {
      ClearMiddle(v, d);
    } else {
      ClearHigh(v, d);
    }
  }

  lemma ClearLow(v: Cell, d: Cell)
    requires (d == 1 || d == 2 || d == 4) && !Lacks(v, d)
    ensures BitSum(v - d) == BitSum(v) - 1
  {
    if d == 1 { assert BitSum(v - d) == BitSum(v) - 1; }
    else if d == 2 { assert BitSum(v - d) == BitSum(v) - 1; }
    else { assert BitSum(v - d) == BitSum(v) - 1; }
  }

  lemma ClearMiddle(v: Cell, d: Cell)
    requires (d == 8 || d == 16 || d == 32) && !Lacks(v, d)
    ensures BitSum(v - d) == BitSum(v) - 1
  {
    if d == 8 { assert BitSum(v - d) == BitSum(v) - 1; }
    else if d == 16 { assert BitSum(v - d) == BitSum(v) - 1; }
    else { assert BitSum(v - d) == BitSum(v) - 1; }
  }

  lemma ClearHigh(v: Cell, d: Cell)
    requires (d == 64 || d == 128 || d == 256) && !Lacks(v, d)
    ensures BitSum(v - d) == BitSum(v) - 1
  {
    if d == 64 { assert BitSum(v - d) == BitSum(v) - 1; }
    else if d == 128 { assert BitSum(v - d) == BitSum(v) - 1; }
    else { assert BitSum(v - d) == BitSum(v) - 1; }
  }

  /** A two-digit cell splits into its highest digit and the other one. */
  lemma PairDigits(v: Cell)
    requires IsCell(v) && NumDigits(v) == 2
    ensures Single(HighestDigit(v)) && Single(v - HighestDigit(v))
    ensures HighestDigit(v) != v - HighestDigit(v)
    ensures HighestDigit(v) | (v - HighestDigit(v)) == v
  {
    NumDigitsSum(v);
  }

  /** A digit of `a | b` is a digit of `a` or of `b`. */
  lemma OrLacksBoth(a: Cell, b: Cell, d: Cell)
    ensures Lacks(a | b, d) <==> Lacks(a, d) && Lacks(b, d)
  {
    assert (a | b) & d == (a & d) | (b & d);
  }

  /** A single-digit cell allows only its own digit. */
  lemma SingleAllows(x: Cell, d: Cell)
    requires Single(x) && Single(d)
    ensures !Lacks(x, d) <==> x == d
  {
  }

  lemma OrCell(a: Cell, b: Cell)
    requires IsCell(a) && IsCell(b)
    ensures IsCell(a | b)
  {
  }

  /** Within `ALL_DIGITS`, a cell is `ALL_DIGITS` exactly when it allows
      every digit. */
  lemma AllAllowed(x: Cell)
    requires IsCell(x)
    ensures x == ALL_DIGITS <==> forall d :: Single(d) ==> !Lacks(x, d)
  {
    if forall d :: Single(d) ==> !Lacks(x, d) {
      assert !Lacks(x, 1) && !Lacks(x, 2) && !Lacks(x, 4) && !Lacks(x, 8) && !Lacks(x, 16);
      assert !Lacks(x, 32) && !Lacks(x, 64) && !Lacks(x, 128) && !Lacks(x, 256);
    }
  }
}
