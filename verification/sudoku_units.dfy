/** The unit check of `verify` in `Sudoku.java`: the or of a unit's cells,
    and why comparing it with `ALL_DIGITS` tests for a permutation of the
    digits. */
module SudokuUnits {
  import opened Common
  import opened SudokuTables
  import opened SudokuBits

  /** `unit_digits`: the bitwise or of the cells of `u[..j]`. */
  function UnitDigits(g: seq<Cell>, u: seq<int>, j: nat): Cell
    requires |g| == 81 && InGrid(u) && j <= |u|
  {
    if j == 0 then 0 else UnitDigits(g, u, j - 1) | g[u[j - 1]]
  }

  /** The cells of the squares of `u`, in order. */
  function Cells(g: seq<Cell>, u: seq<int>): (cs: seq<Cell>)
    requires |g| == 81 && InGrid(u)
    ensures |cs| == |u| && forall j :: 0 <= j < |u| ==> cs[j] == g[u[j]]
  {
    seq(|u|, j requires 0 <= j < |u| => g[u[j]])
  }

  /** The or of a unit allows a digit exactly when one of its squares does. */
  lemma {:induction false} UnitDigitsAllow(g: seq<Cell>, u: seq<int>, j: nat, d: Cell)
    requires |g| == 81 && InGrid(u) && j <= |u|
    ensures !Lacks(UnitDigits(g, u, j), d) <==> exists i :: 0 <= i < j && !Lacks(g[u[i]], d)
  {
    if j > 0 {
      var y, c := UnitDigits(g, u, j - 1), g[u[j - 1]];
      assert Lacks(UnitDigits(g, u, j), d) <==> Lacks(y, d) && Lacks(c, d) by {
        assert UnitDigits(g, u, j) == y | c;
        OrLacksBoth(y, c, d);
      }
      UnitDigitsAllow(g, u, j - 1, d);
      assert (exists i :: 0 <= i < j && !Lacks(g[u[i]], d))
        <==> (exists i :: 0 <= i < j - 1 && !Lacks(g[u[i]], d)) || !Lacks(c, d) by {
        if i :| 0 <= i < j && !Lacks(g[u[i]], d) {
          assert i < j - 1 || !Lacks(c, d);
        }
      }
    }
  }

  lemma {:induction false} UnitDigitsCell(g: seq<Cell>, u: seq<int>, j: nat)
    requires |g| == 81 && InGrid(u) && j <= |u|
    requires forall i :: 0 <= i < j ==> Single(g[u[i]])
    ensures IsCell(UnitDigits(g, u, j))
  {
    if j > 0 {
      UnitDigitsCell(g, u, j - 1);
      DigitsBelowAll(g[u[j - 1]]);
      OrCell(UnitDigits(g, u, j - 1), g[u[j - 1]]);
    }
  }

  /** The test `unit_digits == ALL_DIGITS` on a unit of nine single-digit
      squares holds exactly when the unit is a permutation of the digits. */
  lemma UnitPermutation(g: seq<Cell>, u: seq<int>)
    requires |g| == 81 && InGrid(u) && |u| == 9
    requires forall j :: 0 <= j < 9 ==> Single(g[u[j]])
    ensures UnitDigits(g, u, 9) == ALL_DIGITS <==> multiset(Cells(g, u)) == multiset(DIGITS)
  {
    UnitCoversAll(g, u);
    DigitsPermutation(Cells(g, u));
  }

  /** The or of nine single-digit squares is `ALL_DIGITS` exactly when every
      digit occurs among them. */
  lemma UnitCoversAll(g: seq<Cell>, u: seq<int>)
    requires |g| == 81 && InGrid(u) && |u| == 9
    requires forall j :: 0 <= j < 9 ==> Single(g[u[j]])
    ensures UnitDigits(g, u, 9) == ALL_DIGITS <==> forall d :: Single(d) ==> d in Cells(g, u)
  {
    var cs := Cells(g, u);
    var x := UnitDigits(g, u, 9);
    UnitDigitsCell(g, u, 9);
    AllAllowed(x);
    forall d | Single(d) ensures !Lacks(x, d) <==> d in cs {
      UnitDigitsAllow(g, u, 9, d);
      forall i | 0 <= i < 9 ensures !Lacks(g[u[i]], d) <==> cs[i] == d {
        SingleAllows(g[u[i]], d);
      }
    }
  }

  /** Nine single digits include every digit exactly when they are a
      permutation of `DIGITS`. */
  lemma DigitsPermutation(cs: seq<Cell>)
    requires |cs| == 9 && forall i :: 0 <= i < 9 ==> Single(cs[i])
    ensures (forall d :: Single(d) ==> d in cs) <==> multiset(cs) == multiset(DIGITS)
  {
    if forall d :: Single(d) ==> d in cs {
      AllDigitsPermutation(cs);
    } else {
      var d :| Single(d) && d !in cs;
      InDigits(d);
      assert d in multiset(DIGITS) && d !in multiset(cs);
    }
  }

  lemma AllDigitsPermutation(cs: seq<Cell>)
    requires |cs| == 9 && forall i :: 0 <= i < 9 ==> Single(cs[i])
    requires forall d :: Single(d) ==> d in cs
    ensures multiset(cs) == multiset(DIGITS)
  {
    assert ToSet(cs) == ToSet(DIGITS) by {
      forall i | 0 <= i < 9 ensures cs[i] in DIGITS {
        InDigits(cs[i]);
      }
      forall d | d in DIGITS ensures d in cs {
        InDigits(d);
      }
    }
    assert Distinct(DIGITS) by {
      DigitsDistinct();
    }
    DistinctCardinality(DIGITS);
    DistinctCardinality(cs);
    SameElements(cs, DIGITS);
  }

  lemma DigitsDistinct()
    ensures Distinct(DIGITS)
  {
    DigitBits();
    forall i, j | 0 <= i < j < 9 ensures DIGITS[i] != DIGITS[j] {
      BitsDiffer(i, j);
    }
  }

  lemma BitsDiffer(i: int, j: int)
    requires 0 <= i < j < 9
    ensures Bit(i) != Bit(j)
  {
  }
}
