/** Backtracking search over the propagation routines of `Sudoku.java`, the
    square it branches on, and the check that a grid solves a puzzle. */
module SudokuSearch {
  import opened Common
  import opened SudokuTables
  import opened SudokuBits
  import opened Sudoku
  import opened SudokuUnits

  /** No square is left with a choice: each holds one digit, or none. */
  predicate Settled(g: Grid)
    requires |g| == 81
  {
    forall i :: 0 <= i < 81 ==> NumDigits(g[i]) <= 1
  }

  // ------------------------------------------------------------ select_square

  /** `NUM_DIGITS[grid[s]]` for every square. */
  function Counts(g: Grid): (cs: seq<nat>)
    requires |g| == 81
    ensures |cs| == 81 && forall i :: 0 <= i < 81 ==> cs[i] == NumDigits(g[i])
  {
    seq(81, i requires 0 <= i < 81 => NumDigits(g[i]))
  }

  /** `select_square(grid)`: an unfilled square with the fewest candidates,
      or -1 when every square is settled. The scan returns the first square
      with two candidates at once; otherwise it keeps the first square with
      the least count. */
  function SelectSquare(g: Grid): (r: int)
    requires Valid(g)
    ensures r == -1 <==> Settled(g)
    ensures r != -1 ==> 0 <= r < 81 && NumDigits(g[r]) >= 2
    ensures r != -1 ==> forall i :: 0 <= i < 81 && NumDigits(g[i]) >= 2 ==> NumDigits(g[r]) <= NumDigits(g[i])
    ensures r != -1 ==> forall i :: 0 <= i < r ==> NumDigits(g[i]) < 2 || NumDigits(g[r]) < NumDigits(g[i])
  {
    var cs := Counts(g);
    var r := SelectFrom(cs, 0, -1, N + 1);
    assert r == -1 <==> Settled(g) by {
      assert Settled(g) <==> forall i :: 0 <= i < |cs| ==> cs[i] < 2;
    }
    r
  }

  /** The loop of `select_square` over the counts from square `s` on, with
      the best square so far and its count `min` (`N + 1` while there is
      none). Counts never exceed `N`. */
  function SelectFrom(cs: seq<nat>, s: nat, square: int, min: int): (r: int)
    requires s <= |cs| && forall i :: 0 <= i < |cs| ==> cs[i] <= N
    requires square == -1 ==> min == N + 1 && forall i :: 0 <= i < s ==> cs[i] < 2
    requires square != -1 ==> 0 <= square < s && min == cs[square] > 2
    requires square != -1 ==> forall i :: 0 <= i < s && cs[i] >= 2 ==> min <= cs[i]
    requires square != -1 ==> forall i :: 0 <= i < square ==> cs[i] < 2 || min < cs[i]
    ensures r == -1 <==> forall i :: 0 <= i < |cs| ==> cs[i] < 2
    ensures r != -1 ==> 0 <= r < |cs| && cs[r] >= 2
    ensures r != -1 ==> forall i :: 0 <= i < |cs| && cs[i] >= 2 ==> cs[r] <= cs[i]
    ensures r != -1 ==> forall i :: 0 <= i < r ==> cs[i] < 2 || cs[r] < cs[i]
    decreases |cs| - s
  {
    if s == |cs| then square
    else
      var c := cs[s];
      if c == 2 then
        assert forall i :: 0 <= i < s ==> cs[i] != 2;
        s
      else if c > 1 && c < min then SelectFrom(cs, s + 1, s, c)
      else SelectFrom(cs, s + 1, square, min)
  }

  // ------------------------------------------------------------------ search

  /** `search(grid)`: `None` for Java's `null`. A settled grid is returned as
      it is; otherwise the digits of the chosen square are tried in ascending
      order, each on a copy of the grid, and the first success is returned. */
  function Search(g: Grid): (r: Option<Grid>)
    requires Valid(g)
    ensures r.Some? ==> Narrows(g, Step(true, r.value)) && Settled(r.value)
    decreases Candidates(g), 2
  {
    var s := SelectSquare(g);
    if s == -1 then Some(g)
    else
      var xs := Attempts(g, s);
      FirstSomeIsFirst(xs);
      FirstSome(xs)
  }

  /** The outcome of each pass of the `for (int d: DIGITS)` loop of `search`,
      digit by digit. */
  function Attempts(g: Grid, s: int): (xs: seq<Option<Grid>>)
    requires Valid(g) && 0 <= s < 81 && NumDigits(g[s]) >= 2
    ensures |xs| == 9
    ensures forall k :: 0 <= k < 9 && xs[k].Some? ==> Narrows(g, Step(true, xs[k].value)) && Settled(xs[k].value)
    decreases Candidates(g), 1
  {
    seq(9, k requires 0 <= k < 9 => Attempt(g, s, k))
  }

  /** One pass of that loop: when digit `k + 1` is possible at `s`, search on
      the grid `fill` leaves; a failed `fill` hands `null` to `search`. */
  function Attempt(g: Grid, s: int, k: nat): (r: Option<Grid>)
    requires Valid(g) && 0 <= s < 81 && NumDigits(g[s]) >= 2 && k < 9
    ensures r.Some? ==> Narrows(g, Step(true, r.value)) && Settled(r.value)
    decreases Candidates(g), 0
  {
    if !Has(g[s], k) then None
    else
      BitSingle(k);
      var f := Fill(g, s, Bit(k));
      if !f.ok then None
      else
        var r := Search(f.grid);
        if r.Some? then
          NarrowsChain(g, f, Step(true, r.value));
          r
        else None
  }

  lemma BitSingle(k: int)
    requires 0 <= k < 9
    ensures Single(Bit(k))
  {
  }

  /** The digits are tried in ascending order and the first success is
      returned: `search` finds a grid exactly when some digit's attempt does,
      and then it is the attempt of the least such digit. */
  lemma SearchFirst(g: Grid)
    requires Valid(g) && SelectSquare(g) != -1
    ensures var xs := Attempts(g, SelectSquare(g));
      Search(g).Some? <==> exists j :: 0 <= j < 9 && xs[j].Some?
    ensures var xs := Attempts(g, SelectSquare(g));
      Search(g).Some? ==> exists j :: 0 <= j < 9 && Search(g) == xs[j] && forall i :: 0 <= i < j ==> xs[i].None?
  {
    var xs := Attempts(g, SelectSquare(g));
    var r := FirstSome(xs);
    assert Search(g) == r;
    FirstSomeIsFirst(xs);
    assert |xs| == 9;
  }

  /** A grid with no empty square searches to a solved grid: one digit in
      every square, each a digit the square allowed. */
  lemma SearchSolves(g: Grid)
    requires Valid(g) && (forall i :: 0 <= i < 81 ==> g[i] != 0) && Search(g).Some?
    ensures forall i :: 0 <= i < 81 ==> Single(Search(g).value[i]) && Within(Search(g).value[i], g[i])
  {
    var h := Search(g).value;
    forall i | 0 <= i < 81 ensures Single(h[i]) {
      assert h[i] != 0 && IsCell(h[i]) && NumDigits(h[i]) <= 1;
      NoDigits(h[i]);
      OneDigit(h[i]);
    }
  }

  // ------------------------------------------------------------------ verify

  /** Unit `k` of `ALL_UNITS` or-s to `ALL_DIGITS`. */
  predicate UnitCovers(g: Grid, k: int)
    requires |g| == 81 && 0 <= k < 27
  {
    UnitsInRange(k);
    UnitDigits(g, AllUnits()[k], 9) == ALL_DIGITS
  }

  /** Every square holds one digit, and every square the puzzle fills holds
      the puzzle's digit. */
  predicate SquareAgrees(g: Grid, puzzle: Grid, s: int)
    requires |g| == 81 && |puzzle| == 81 && 0 <= s < 81
  {
    NumDigits(g[s]) == 1 && (NumDigits(puzzle[s]) == 1 ==> g[s] == puzzle[s])
  }

  /** `verify(grid, puzzle)`: `grid` is non-null, every square agrees with
      the puzzle and every unit or-s to `ALL_DIGITS`. */
  method Verify(g: Option<Grid>, puzzle: Grid) returns (ok: bool)
    requires |puzzle| == 81 && (g.Some? ==> |g.value| == 81)
    ensures ok <==> (g.Some? && (forall s :: 0 <= s < 81 ==> SquareAgrees(g.value, puzzle, s))
                     && forall k :: 0 <= k < 27 ==> UnitCovers(g.value, k))
  {
    if g.None? {
      return false;
    }
    ok := SquaresAgree(g.value, puzzle);
    if !ok {
      return;
    }
    ok := UnitsCover(g.value);
  }

  /** The first loop of `verify`: every square agrees with the puzzle. */
  method SquaresAgree(grid: Grid, puzzle: Grid) returns (ok: bool)
    requires |puzzle| == 81 && |grid| == 81
    ensures ok <==> forall s :: 0 <= s < 81 ==> SquareAgrees(grid, puzzle, s)
  {
    var s := 0;
    while s < 81
      invariant 0 <= s <= 81
      invariant forall t :: 0 <= t < s ==> SquareAgrees(grid, puzzle, t)
    {
      if NumDigits(grid[s]) != 1 || (NumDigits(puzzle[s]) == 1 && grid[s] != puzzle[s]) {
        assert !SquareAgrees(grid, puzzle, s);
        return false;
      }
      s := s + 1;
    }
    return true;
  }

  /** The second loop of `verify`: every unit or-s to `ALL_DIGITS`. */
  method UnitsCover(grid: Grid) returns (ok: bool)
    requires |grid| == 81
    ensures ok <==> forall k :: 0 <= k < 27 ==> UnitCovers(grid, k)
  {
    var k := 0;
    while k < 27
      invariant 0 <= k <= 27
      invariant forall m :: 0 <= m < k ==> UnitCovers(grid, m)
    {
      var covers := CoversUnit(grid, k);
      if !covers {
        return false;
      }
      CoversStep(grid, k);
      k := k + 1;
    }
    return true;
  }

  /** The loop step of `UnitsCover`: one more unit is covered. */
  lemma CoversStep(grid: Grid, k: int)
    requires |grid| == 81 && 0 <= k < 27 && UnitCovers(grid, k)
    requires forall m :: 0 <= m < k ==> UnitCovers(grid, m)
    ensures forall m :: 0 <= m < k + 1 ==> UnitCovers(grid, m)
  {
    forall m | 0 <= m < k + 1
      ensures UnitCovers(grid, m)
    {
      if m < k {
        assert UnitCovers(grid, m);
      }
    }
  }

  /** One unit's test in `verify`: its squares or to `ALL_DIGITS`. */
  method CoversUnit(grid: Grid, k: int) returns (covers: bool)
    requires |grid| == 81 && 0 <= k < 27
    ensures covers <==> UnitCovers(grid, k)
  {
    var unitDigits := OrUnit(grid, k);
    covers := unitDigits == ALL_DIGITS;
  }

  /** The inner loop of `verify`: `unit_digits |= grid[s]` over unit `k`. */
  method OrUnit(grid: Grid, k: int) returns (unitDigits: Cell)
    requires |grid| == 81 && 0 <= k < 27
    ensures unitDigits == ALL_DIGITS <==> UnitCovers(grid, k)
  {
    UnitsInRange(k);
    var u := AllUnits()[k];
    unitDigits := 0;
    var j := 0;
    while j < 9
      invariant 0 <= j <= 9
      invariant unitDigits == UnitDigits(grid, u, j)
    {
      unitDigits := unitDigits | grid[u[j]];
      j := j + 1;
    }
  }
}
