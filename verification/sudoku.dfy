/** The solver of `Sudoku.java`: constraint propagation by `fill` and
    `eliminate` (with arc consistency, dual consistency and naked pairs),
    backtracking search, and the checks around it.

    The Java code mutates one `int[81]` in place and reports failure by
    returning `null` or `false`, leaving whatever it had already changed. Each
    routine here returns the grid it leaves behind together with that flag. */
module Sudoku {
  import opened Common
  import opened SudokuTables
  import opened SudokuBits

  /** A grid: one cell per square, row by row. */
  type Grid = seq<Cell>

  predicate Valid(g: Grid)
  {
    |g| == 81 && forall i :: 0 <= i < 81 ==> IsCell(g[i])
  }

  /** The total number of candidate digits: the measure every propagation step
      lowers or keeps. */
  function Candidates(g: seq<Cell>): nat
  {
    Total(NumDigits, g)
  }

  lemma CandidatesUpdate(g: seq<Cell>, i: nat, v: Cell)
    requires i < |g|
    ensures Candidates(g[i := v]) == Candidates(g) - NumDigits(g[i]) + NumDigits(v)
  {
    TotalUpdate(NumDigits, g, i, v);
  }

  /** `b` allows no digit that `a` did not: solving only clears bits. */
  predicate Shrinks(a: Grid, b: Grid)
  {
    |a| == |b| && forall i :: 0 <= i < |a| ==> Within(b[i], a[i])
  }

  /** No square that had a candidate in `a` is empty in `b`. */
  predicate KeepsNonempty(a: Grid, b: Grid)
  {
    |a| == |b| && forall i :: 0 <= i < |a| && a[i] != 0 ==> b[i] != 0
  }

  /** The grid a propagation routine leaves, and whether it succeeded. */
  datatype Step = Step(ok: bool, grid: Grid)

  /** What every propagation step guarantees: the grid stays valid and only
      loses candidates, and on success no square was emptied. */
  predicate Narrows(g: Grid, r: Step)
  {
    Valid(r.grid) && Shrinks(g, r.grid) && Candidates(r.grid) <= Candidates(g)
    && (r.ok ==> KeepsNonempty(g, r.grid))
  }

  lemma NarrowsChain(g: Grid, a: Step, b: Step)
    requires Valid(g) && Narrows(g, a) && Narrows(a.grid, b) && (b.ok ==> a.ok)
    ensures Narrows(g, b)
  {
    forall i | 0 <= i < 81 ensures Within(b.grid[i], g[i]) {
      AndSubset(b.grid[i], a.grid[i], g[i]);
    }
  }

  lemma AndSubset(x: Cell, y: Cell, z: Cell)
    requires Within(x, y) && Within(y, z)
    ensures Within(x, z)
  {
  }

  lemma AndZero(x: Cell, y: Cell, d: Cell)
    requires Within(x, y) && Lacks(y, d)
    ensures Lacks(x, d)
  {
  }

  /** A cell within a single digit holds that digit or nothing. */
  lemma WithinDigit(x: Cell, d: Cell)
    requires Single(d) && Within(x, d)
    ensures x == d || x == 0
  {
  }

  /** `PEERS[s]` as the solver uses it. */
  function PeerList(s: int): (ps: seq<int>)
    requires 0 <= s < 81
    ensures |ps| == 20 && forall i :: 0 <= i < 20 ==> 0 <= ps[i] < 81
    ensures forall x :: x in ps <==> ArePeers(s, x)
  {
    PeersCount(s);
    PeersMembers(s);
    var ps := Peers(s);
    assert forall i :: 0 <= i < |ps| ==> 0 <= ps[i] < 81 by {
      forall i | 0 <= i < |ps| ensures 0 <= ps[i] < 81 {
        assert ps[i] in ps;
        assert ArePeers(s, ps[i]);
      }
    }
    ps
  }

  /** `UNITS[s]` as the solver uses it: the row, the column and the block of
      `s`, all squares of the grid. */
  function UnitList(s: int): (us: seq<seq<int>>)
    requires 0 <= s < 81
    ensures us == Units(s)
    ensures |us| == 3 && forall i :: 0 <= i < 3 ==> InGrid(us[i])
  {
    var us := [RowUnit(s / 9), ColUnit(s % 9), BlockUnit(s / 9 / 3, s % 9 / 3)];
    assert us == Units(s) by {
      UnitsOf(s);
    }
    UnitsInGrid(s, us);
    us
  }

  lemma UnitsInGrid(s: int, us: seq<seq<int>>)
    requires 0 <= s < 81
    requires us == [RowUnit(s / 9), ColUnit(s % 9), BlockUnit(s / 9 / 3, s % 9 / 3)]
    ensures |us| == 3 && forall i :: 0 <= i < 3 ==> InGrid(us[i])
  {
    assert InGrid(us[0]) by {
      forall k | 0 <= k < 9 ensures 0 <= us[0][k] < 81 {
        RowMembers(s / 9, us[0][k]);
      }
    }
    assert InGrid(us[1]) by {
      forall k | 0 <= k < 9 ensures 0 <= us[1][k] < 81 {
        ColMembers(s % 9, us[1][k]);
      }
    }
    assert InGrid(us[2]) by {
      forall k | 0 <= k < 9 ensures 0 <= us[2][k] < 81 {
        BlockMembers(s / 9 / 3, s % 9 / 3, us[2][k]);
      }
    }
  }

  // ------------------------------------------------------------ propagation

  /** `eliminate(grid, s, d)`: take `d` out of square `s`, then run the three
      consistency checks. It is a no-op when `d` is already gone, and `d` is
      gone from `s` afterwards. */
  function Eliminate(g: Grid, s: int, d: Cell): (r: Step)
    requires Valid(g) && 0 <= s < 81 && Single(d)
    ensures Narrows(g, r)
    ensures Lacks(r.grid[s], d)
    ensures Lacks(g[s], d) ==> r == Step(true, g)
    decreases Candidates(g), 0, 0
  {
    if Lacks(g[s], d) then Step(true, g)
    else
      var g1 := g[s := g[s] - d];
      ClearInGrid(g, s, d);
      ClearFewer(g, s, d);
      var a := Arc(g1, s);
      if !a.ok then
        Cleared(g, s, d, g1, a);
        a
      else
        var b := DualUnits(a.grid, s, d, 0);
        NarrowsChain(g1, a, b);
        if !b.ok then
          Cleared(g, s, d, g1, b);
          b
        else
          var c := NakedPairs(b.grid, s);
          NarrowsChain(g1, b, c);
          Cleared(g, s, d, g1, c);
          c
  }

  /** Clearing a digit the square allows removes one candidate. */
  lemma ClearInGrid(g: Grid, s: int, d: Cell)
    requires Valid(g) && 0 <= s < 81 && Single(d) && !Lacks(g[s], d)
    ensures Valid(g[s := g[s] - d])
    ensures Within(g[s] - d, g[s]) && Lacks(g[s] - d, d)
  {
    ClearBits(g[s], d);
    UpdateValid(g, s, g[s] - d);
  }

  lemma ClearFewer(g: Grid, s: int, d: Cell)
    requires Valid(g) && 0 <= s < 81 && Single(d) && !Lacks(g[s], d)
    ensures Candidates(g[s := g[s] - d]) < Candidates(g)
  {
    ClearCount(g[s], d);
    Fewer(g, s, g[s] - d);
  }

  lemma Fewer(g: Grid, s: int, w: Cell)
    requires |g| == 81 && 0 <= s < 81 && NumDigits(w) < NumDigits(g[s])
    ensures Candidates(g[s := w]) < Candidates(g)
  {
    CandidatesUpdate(g, s, w);
  }

  lemma UpdateValid(g: Grid, s: int, w: Cell)
    requires Valid(g) && 0 <= s < 81 && IsCell(w)
    ensures Valid(g[s := w])
  {
  }

  /** Clearing `d` from `s` and propagating narrows the original grid, provided
      square `s` is not left empty on success. */
  lemma Cleared(g: Grid, s: int, d: Cell, g1: Grid, r: Step)
    requires Valid(g) && 0 <= s < 81
    requires Valid(g1) && g1 == g[s := g1[s]] && Within(g1[s], g[s]) && Lacks(g1[s], d)
    requires Candidates(g1) <= Candidates(g)
    requires Narrows(g1, r) && (r.ok ==> r.grid[s] != 0)
    ensures Narrows(g, r) && Lacks(r.grid[s], d)
  {
    assert Shrinks(g, r.grid) by {
      forall i | 0 <= i < 81 ensures Within(r.grid[i], g[i]) {
        if i == s {
          AndSubset(r.grid[i], g1[i], g[i]);
        } else {
          assert g1[i] == g[i];
        }
      }
    }
    assert Lacks(r.grid[s], d) by {
      AndZero(r.grid[s], g1[s], d);
    }
    assert r.ok ==> KeepsNonempty(g, r.grid) by {
      if r.ok {
        forall i | 0 <= i < 81 && g[i] != 0 ensures r.grid[i] != 0 {
          if i != s {
            assert g1[i] == g[i];
          }
        }
      }
    }
  }

  /** `arc_consistent(grid, s)`: a square with two or more candidates is fine,
      one with a single candidate is filled with it, and an empty one fails. */
  function Arc(g: Grid, s: int): (r: Step)
    requires Valid(g) && 0 <= s < 81
    ensures Narrows(g, r)
    ensures g[s] == 0 ==> !r.ok
    ensures r.ok ==> r.grid[s] != 0
    decreases Candidates(g), 3, 0
  {
    var count := NumDigits(g[s]);
    NoDigits(g[s]);
    if count >= 2 then Step(true, g)
    else if count == 1 then
      OneDigit(g[s]);
      Fill(g, s, g[s])
    else Step(false, g)
  }

  /** `fill(grid, s, d)`: fail at once when `d` is not a candidate of `s`;
      otherwise set `s` to `d` and eliminate `d` from every peer. On success
      `s` holds exactly `d` and no peer allows `d`. */
  function Fill(g: Grid, s: int, d: Cell): (r: Step)
    requires Valid(g) && 0 <= s < 81 && (d == 0 || Single(d))
    ensures Narrows(g, r)
    ensures Lacks(g[s], d) ==> r == Step(false, g)
    ensures !Lacks(g[s], d) ==> Candidates(r.grid) <= Candidates(g) - NumDigits(g[s]) + 1
    ensures r.grid[s] == d || Lacks(r.grid[s], d)
    ensures r.ok ==> r.grid[s] == d && forall p :: ArePeers(s, p) ==> Lacks(r.grid[p], d)
    decreases Candidates(g), 2, 0
  {
    if Lacks(g[s], d) then Step(false, g)
    else
      var g1 := g[s := d];
      SetInGrid(g, s, d);
      var r := FillPeers(g1, s, d, 0);
      Filled(g, s, d, g1, r);
      r
  }

  /** Setting a square to one of its digits leaves that one candidate. */
  lemma SetInGrid(g: Grid, s: int, d: Cell)
    requires Valid(g) && 0 <= s < 81 && Single(d) && !Lacks(g[s], d)
    ensures Valid(g[s := d]) && Within(d, g[s])
    ensures Candidates(g[s := d]) == Candidates(g) - NumDigits(g[s]) + 1
  {
    assert Within(d, g[s]) by {
      ClearBits(g[s], d);
    }
    assert IsCell(d) && NumDigits(d) == 1 by {
      DigitsBelowAll(d);
      OneDigit(d);
    }
    UpdateValid(g, s, d);
    CandidatesUpdate(g, s, d);
  }

  lemma Filled(g: Grid, s: int, d: Cell, g1: Grid, r: Step)
    requires Valid(g) && 0 <= s < 81 && Single(d) && Within(d, g[s])
    requires Valid(g1) && g1 == g[s := d]
    requires Candidates(g1) <= Candidates(g)
    requires Narrows(g1, r)
    requires r.ok ==> forall j :: 0 <= j < 20 ==> Lacks(r.grid[PeerList(s)[j]], d)
    ensures Narrows(g, r)
    ensures r.grid[s] == d || Lacks(r.grid[s], d)
    ensures r.ok ==> r.grid[s] == d && forall p :: ArePeers(s, p) ==> Lacks(r.grid[p], d)
  {
    assert Shrinks(g, r.grid) by {
      forall i | 0 <= i < 81 ensures Within(r.grid[i], g[i]) {
        if i == s {
          AndSubset(r.grid[i], g1[i], g[i]);
        } else {
          assert g1[i] == g[i];
        }
      }
    }
    assert r.grid[s] == d || r.grid[s] == 0 by {
      WithinDigit(r.grid[s], d);
    }
    assert r.ok ==> KeepsNonempty(g, r.grid) by {
      if r.ok {
        forall i | 0 <= i < 81 && g[i] != 0 ensures r.grid[i] != 0 {
          if i != s {
            assert g1[i] == g[i];
          } else {
            assert g1[i] == d;
          }
        }
      }
    }
    assert r.ok ==> forall p :: ArePeers(s, p) ==> Lacks(r.grid[p], d) by {
      if r.ok {
        forall p | ArePeers(s, p) ensures Lacks(r.grid[p], d) {
          var ps := PeerList(s);
          assert p in ps;
          var j :| 0 <= j < 20 && ps[j] == p;
        }
      }
    }
  }

  /** The loop of `fill` over `PEERS[s]` from position `i`. */
  function FillPeers(g: Grid, s: int, d: Cell, i: nat): (r: Step)
    requires Valid(g) && 0 <= s < 81 && Single(d) && i <= 20
    ensures Narrows(g, r)
    ensures r.ok ==> forall j :: i <= j < 20 ==> Lacks(r.grid[PeerList(s)[j]], d)
    decreases Candidates(g), 1, 20 - i
  {
    if i == 20 then Step(true, g)
    else
      var e := Eliminate(g, PeerList(s)[i], d);
      if !e.ok then e
      else
        var r := FillPeers(e.grid, s, d, i + 1);
        FillPeersStep(g, e, r, s, d, i);
        r
  }

  /** With `d` already gone from every peer, the loop of `fill` changes nothing. */
  lemma {:induction false} FillPeersQuiet(g: Grid, s: int, d: Cell, i: nat)
    requires Valid(g) && 0 <= s < 81 && Single(d) && i <= 20
    requires forall j :: i <= j < 20 ==> Lacks(g[PeerList(s)[j]], d)
    ensures FillPeers(g, s, d, i) == Step(true, g)
    decreases 20 - i
  {
    if i < 20 {
      var p := PeerList(s)[i];
      assert Eliminate(g, p, d) == Step(true, g);
      FillPeersQuiet(g, s, d, i + 1);
    }
  }

  /** With `d` allowed at `s` and gone from every peer, `fill` only sets
      `grid[s] = d`. */
  lemma FillQuiet(g: Grid, s: int, d: Cell)
    requires Valid(g) && 0 <= s < 81 && Single(d) && !Lacks(g[s], d)
    requires forall p :: ArePeers(s, p) ==> Lacks(g[p], d)
    ensures Fill(g, s, d) == Step(true, g[s := d])
  {
    SetInGrid(g, s, d);
    var ps := PeerList(s);
    forall j | 0 <= j < 20 ensures Lacks(g[s := d][ps[j]], d) {
      assert ps[j] in ps;
    }
    FillPeersQuiet(g[s := d], s, d, 0);
  }

  /** `fill` checks only the digit it places: the other digits leave `s`
      unchecked, so a unit whose last place for `e` was `s` ends with none. */
  lemma FillDropsPlace(g: Grid, s: int, d: Cell, e: Cell, u: seq<int>)
    requires Valid(g) && 0 <= s < 81 && Single(d) && Single(e) && d != e
    requires !Lacks(g[s], d) && !Lacks(g[s], e)
    requires forall p :: ArePeers(s, p) ==> Lacks(g[p], d)
    requires InGrid(u) && s in u && forall k :: 0 <= k < |u| && u[k] != s ==> Lacks(g[u[k]], e)
    ensures !NoPlace(g, u, e)
    ensures Fill(g, s, d).ok && NoPlace(Fill(g, s, d).grid, u, e)
  {
    FillQuiet(g, s, d);
    assert Lacks(d, e) by {
      SingleAllows(d, e);
    }
  }

  /** One more peer of the loop of `fill` lacks `d`, and the grid only narrows. */
  lemma FillPeersStep(g: Grid, e: Step, r: Step, s: int, d: Cell, i: nat)
    requires Valid(g) && 0 <= s < 81 && i < 20
    requires Narrows(g, e) && e.ok && Lacks(e.grid[PeerList(s)[i]], d) && Narrows(e.grid, r)
    requires r.ok ==> forall j :: i + 1 <= j < 20 ==> Lacks(r.grid[PeerList(s)[j]], d)
    ensures Narrows(g, r)
    ensures r.ok ==> forall j :: i <= j < 20 ==> Lacks(r.grid[PeerList(s)[j]], d)
  {
    NarrowsChain(g, e, r);
    var ps := PeerList(s);
    AndZero(r.grid[ps[i]], e.grid[ps[i]], d);
  }

  /** No square of `u` allows `d`. */
  predicate NoPlace(g: Grid, u: seq<int>, d: Cell)
    requires |g| == 81 && InGrid(u)
  {
    forall k :: 0 <= k < |u| ==> Lacks(g[u[k]], d)
  }

  /** How many squares of `u` allow `d`. */
  function PlaceCount(g: Grid, u: seq<int>, d: Cell): nat
    requires |g| == 81 && InGrid(u)
  {
    if u == [] then 0 else (if Lacks(g[u[0]], d) then 0 else 1) + PlaceCount(g, u[1..], d)
  }

  /** The scan of `dual_consistent` over one unit: how many squares allow `d`,
      counting no further than two, and the square found when there is just
      one. */
  function Places(g: Grid, u: seq<int>, d: Cell): (r: (nat, int))
    requires |g| == 81 && InGrid(u)
    ensures r.0 == (if PlaceCount(g, u, d) < 2 then PlaceCount(g, u, d) else 2)
    ensures r.0 == 0 <==> NoPlace(g, u, d)
    ensures r.0 == 1 ==> r.1 in u && !Lacks(g[r.1], d) && forall k :: 0 <= k < |u| && u[k] != r.1 ==> Lacks(g[u[k]], d)
  {
    if u == [] then (0, -1)
    else
      var rest := Places(g, u[1..], d);
      assert forall k :: 1 <= k < |u| ==> u[k] == u[1..][k - 1];
      if !Lacks(g[u[0]], d) then
        if rest.0 == 0 then (1, u[0]) else (2, u[0])
      else rest
  }

  /** `dual_consistent(grid, s, d)` from unit `i` of `UNITS[s]` on: each unit
      needs a place for `d`, and a unit with a single place gets `d` filled in
      there. */
  function DualUnits(g: Grid, s: int, d: Cell, i: nat): (r: Step)
    requires Valid(g) && 0 <= s < 81 && Single(d) && i <= 3
    ensures Narrows(g, r)
    ensures DualKept(g, r, UnitList(s), d, i)
    decreases Candidates(g), 3, 3 - i
  {
    if i == 3 then Step(true, g)
    else
      var u := UnitList(s)[i];
      var places := Places(g, u, d);
      if places.0 == 0 then Step(false, g)
      else if places.0 == 1 then
        var f := Fill(g, places.1, d);
        if !f.ok then f
        else
          var r := DualUnits(f.grid, s, d, i + 1);
          NarrowsChain(g, f, r);
          KeepsDigit(f.grid, r, places.1, d);
          DualRest(g, f.grid, r, UnitList(s), d, i);
          r
      else
        var r := DualUnits(g, s, d, i + 1);
        DualRest(g, g, r, UnitList(s), d, i);
        r
  }

  /** What `dual_consistent` makes sure of for units `i` on of the units
      `us` of a square, measured against the grid `g` it started from: on
      success every such unit had a place for `d`, and a unit whose only
      place was square `p` ends with `d` filled in at `p`. */
  predicate DualKept(g: Grid, r: Step, us: seq<seq<int>>, d: Cell, i: nat)
    requires |g| == 81 && |r.grid| == 81 && |us| == 3 && forall j :: 0 <= j < 3 ==> InGrid(us[j])
  {
    r.ok ==> forall j :: i <= j < 3 ==>
      && !NoPlace(g, us[j], d)
      && (Places(g, us[j], d).0 == 1 ==> r.grid[Places(g, us[j], d).1] == d)
  }

  /** `DualKept` for the grid `g1` that `DualUnits` continued from, with what
      it did for unit `i`, gives `DualKept` for the grid `g` it started from. */
  lemma DualRest(g: Grid, g1: Grid, r: Step, us: seq<seq<int>>, d: Cell, i: nat)
    requires |g| == 81 && |r.grid| == 81 && Shrinks(g, g1) && i < 3
    requires |us| == 3 && forall j :: 0 <= j < 3 ==> InGrid(us[j])
    requires r.ok ==> !NoPlace(g, us[i], d)
    requires r.ok && Places(g, us[i], d).0 == 1 ==> r.grid[Places(g, us[i], d).1] == d
    requires DualKept(g1, r, us, d, i + 1)
    ensures DualKept(g, r, us, d, i)
  {
    if r.ok {
      forall j | i < j < 3
        ensures !NoPlace(g, us[j], d)
        ensures Places(g, us[j], d).0 == 1 ==> r.grid[Places(g, us[j], d).1] == d
      {
        DualRestUnit(g, g1, r, us[j], d);
      }
    }
  }

  lemma DualRestUnit(g: Grid, g1: Grid, r: Step, u: seq<int>, d: Cell)
    requires |g| == 81 && |r.grid| == 81 && Shrinks(g, g1) && InGrid(u)
    requires !NoPlace(g1, u, d)
    requires Places(g1, u, d).0 == 1 ==> r.grid[Places(g1, u, d).1] == d
    ensures !NoPlace(g, u, d)
    ensures Places(g, u, d).0 == 1 ==> r.grid[Places(g, u, d).1] == d
  {
    NoPlaceStays(g, g1, u, d);
    if Places(g, u, d).0 == 1 {
      OnePlaceStays(g, g1, u, d);
    }
  }

  /** A digit filled in stays filled in through a narrowing that succeeds. */
  lemma KeepsDigit(a: Grid, r: Step, p: int, d: Cell)
    requires |a| == 81 && 0 <= p < 81 && Single(d) && a[p] == d && Narrows(a, r)
    ensures r.ok ==> r.grid[p] == d
  {
    if r.ok {
      WithinDigit(r.grid[p], d);
    }
  }

  /** A unit with no place for `d` has none in a narrower grid either. */
  lemma NoPlaceStays(g: Grid, g1: Grid, u: seq<int>, d: Cell)
    requires |g| == 81 && Shrinks(g, g1) && InGrid(u)
    ensures NoPlace(g, u, d) ==> NoPlace(g1, u, d)
  {
    forall k | 0 <= k < |u| && Lacks(g[u[k]], d) ensures Lacks(g1[u[k]], d) {
      AndZero(g1[u[k]], g[u[k]], d);
    }
  }

  /** A unit with a single place for `d` keeps that place, and no other, in a
      narrower grid that still has a place. */
  lemma {:induction false} OnePlaceStays(g: Grid, g1: Grid, u: seq<int>, d: Cell)
    requires |g| == 81 && Shrinks(g, g1) && InGrid(u)
    requires Places(g, u, d).0 == 1 && !NoPlace(g1, u, d)
    ensures Places(g1, u, d) == Places(g, u, d)
  {
    assert InGrid(u[1..]);
    assert forall k :: 1 <= k < |u| ==> u[k] == u[1..][k - 1];
    if !Lacks(g[u[0]], d) {
      assert Places(g, u[1..], d).0 == 0;
      NoPlaceStays(g, g1, u[1..], d);
    } else {
      AndZero(g1[u[0]], g[u[0]], d);
      assert !NoPlace(g1, u[1..], d) by {
        var k :| 0 <= k < |u| && !Lacks(g1[u[k]], d);
        assert k != 0 && u[1..][k - 1] == u[k];
      }
      OnePlaceStays(g, g1, u[1..], d);
    }
  }

  /** `naked_pairs(grid, s)`: when `s` has exactly two candidates and a peer
      has the same two, they are removed from the other squares of every unit
      the two share. Other squares are left alone. */
  function NakedPairs(g: Grid, s: int): (r: Step)
    requires Valid(g) && 0 <= s < 81
    ensures Narrows(g, r)
    ensures NumDigits(g[s]) != 2 ==> r == Step(true, g)
    decreases Candidates(g), 4, 0
  {
    var val := g[s];
    if NumDigits(val) != 2 then Step(true, g)
    else PairPeers(g, s, val, 0)
  }

  /** The loop of `naked_pairs` over `PEERS[s]` from position `i`, `val` being
      the pair read from `s` before the loop. */
  function PairPeers(g: Grid, s: int, val: Cell, i: nat): (r: Step)
    requires Valid(g) && 0 <= s < 81 && IsCell(val) && NumDigits(val) == 2 && i <= 20
    ensures Narrows(g, r)
    decreases Candidates(g), 3, 20 - i
  {
    if i == 20 then Step(true, g)
    else
      var s2 := PeerList(s)[i];
      if g[s2] == val then
        var c := PairUnits(g, s, s2, val, UnitList(s), 0);
        if !c.ok then c
        else
          var r := PairPeers(c.grid, s, val, i + 1);
          NarrowsChain(g, c, r);
          r
      else PairPeers(g, s, val, i + 1)
  }

  /** The loop over `UNITS[s]` (here `us`) from unit `j`, for the naked pair
      `s`, `s2`: every unit holding `s2` loses both digits of the pair outside
      the pair's own squares. */
  function PairUnits(g: Grid, s: int, s2: int, val: Cell, us: seq<seq<int>>, j: nat): (r: Step)
    requires Valid(g) && 0 <= s < 81 && IsCell(val) && NumDigits(val) == 2
    requires forall k :: 0 <= k < |us| ==> InGrid(us[k])
    requires j <= |us|
    ensures Narrows(g, r)
    ensures r.ok ==> forall k :: j <= k < |us| && s2 in us[k] ==> PairCleared(r.grid, s, s2, us[k], val, 0)
    decreases Candidates(g), 2, |us| - j
  {
    if j == |us| then Step(true, g)
    else
      var u := us[j];
      if Member(s2, u, |u|) then
        var c := PairCells(g, s, s2, u, val, 0);
        if !c.ok then c
        else
          var r := PairUnits(c.grid, s, s2, val, us, j + 1);
          NarrowsChain(g, c, r);
          Untouched(c.grid, r.grid, u, val);
          r
      else
        assert u[..|u|] == u;
        PairUnits(g, s, s2, val, us, j + 1)
  }

  /** No square of `u` from position `k` on, other than `s` and `s2`, allows
      a digit of `val`. */
  predicate PairCleared(g: Grid, s: int, s2: int, u: seq<int>, val: Cell, k: nat)
    requires |g| == 81 && InGrid(u)
  {
    forall m :: k <= m < |u| && u[m] != s && u[m] != s2 ==> Lacks(g[u[m]], val)
  }

  /** Shrinking keeps a digit out of the squares it was already out of. */
  lemma Untouched(a: Grid, b: Grid, u: seq<int>, val: Cell)
    requires |a| == 81 && Shrinks(a, b) && InGrid(u)
    ensures forall m :: 0 <= m < |u| && Lacks(a[u[m]], val) ==> Lacks(b[u[m]], val)
  {
    forall m | 0 <= m < |u| && Lacks(a[u[m]], val) ensures Lacks(b[u[m]], val) {
      AndZero(b[u[m]], a[u[m]], val);
    }
  }

  /** The loop over the squares of unit `u` from position `k`: both digits of
      the pair are eliminated from every square other than `s` and `s2`. */
  function PairCells(g: Grid, s: int, s2: int, u: seq<int>, val: Cell, k: nat): (r: Step)
    requires Valid(g) && 0 <= s < 81 && IsCell(val) && NumDigits(val) == 2
    requires InGrid(u) && k <= |u|
    ensures Narrows(g, r)
    ensures r.ok ==> PairCleared(r.grid, s, s2, u, val, k)
    decreases Candidates(g), 1, |u| - k
  {
    if k == |u| then Step(true, g)
    else
      var s3 := u[k];
      if s3 != s && s3 != s2 then
        var c := PairCell(g, s3, val);
        if !c.ok then c
        else
          var r := PairCells(c.grid, s, s2, u, val, k + 1);
          PairLink(g, c, r, s, s2, u, val, k);
          r
      else
        var r := PairCells(g, s, s2, u, val, k + 1);
        PairClearedStep(r, g, s, s2, u, val, k);
        r
  }

  lemma PairLink(g: Grid, c: Step, r: Step, s: int, s2: int, u: seq<int>, val: Cell, k: nat)
    requires Valid(g) && Narrows(g, c) && c.ok && InGrid(u) && k < |u| && Narrows(c.grid, r)
    requires Lacks(c.grid[u[k]], val)
    requires r.ok ==> PairCleared(r.grid, s, s2, u, val, k + 1)
    ensures Narrows(g, r)
    ensures r.ok ==> PairCleared(r.grid, s, s2, u, val, k)
  {
    NarrowsChain(g, c, r);
    PairClearedStep(r, c.grid, s, s2, u, val, k);
  }

  lemma PairClearedStep(r: Step, c: Grid, s: int, s2: int, u: seq<int>, val: Cell, k: nat)
    requires Valid(c) && InGrid(u) && k < |u| && Narrows(c, r)
    requires u[k] != s && u[k] != s2 ==> Lacks(c[u[k]], val)
    requires r.ok ==> PairCleared(r.grid, s, s2, u, val, k + 1)
    ensures r.ok ==> PairCleared(r.grid, s, s2, u, val, k)
  {
    if u[k] != s && u[k] != s2 {
      AndZero(r.grid[u[k]], c[u[k]], val);
    }
  }

  /** The body of the innermost loop of `naked_pairs`: eliminate the higher
      digit of the pair from `s3`, then the lower one. */
  function PairCell(g: Grid, s3: int, val: Cell): (r: Step)
    requires Valid(g) && 0 <= s3 < 81 && IsCell(val) && NumDigits(val) == 2
    ensures Narrows(g, r)
    ensures r.ok ==> Lacks(r.grid[s3], val)
    decreases Candidates(g), 0, 2
  {
    PairHigh(val);
    var e := Eliminate(g, s3, HighestDigit(val));
    if !e.ok then e
    else
      var r := PairLow(e.grid, s3, val);
      NarrowsChain(g, e, r);
      r
  }

  /** The second elimination of the pair, `val - d`, once `d` is gone. */
  function PairLow(g: Grid, s3: int, val: Cell): (r: Step)
    requires Valid(g) && 0 <= s3 < 81 && IsCell(val) && NumDigits(val) == 2
    requires Lacks(g[s3], HighestDigit(val))
    ensures Narrows(g, r)
    ensures r.ok ==> Lacks(r.grid[s3], val)
    decreases Candidates(g), 0, 1
  {
    PairLowDigit(val);
    var r := Eliminate(g, s3, val - HighestDigit(val));
    PairLowDone(g[s3], r.grid[s3], val);
    r
  }

  lemma PairHigh(val: Cell)
    requires IsCell(val) && NumDigits(val) == 2
    ensures Single(HighestDigit(val))
  {
    PairDigits(val);
  }

  lemma PairLowDigit(val: Cell)
    requires IsCell(val) && NumDigits(val) == 2
    ensures Single(val - HighestDigit(val))
  {
    PairDigits(val);
  }

  /** Clearing the higher digit of a pair and then the lower one clears both. */
  lemma PairLowDone(x: Cell, y: Cell, val: Cell)
    requires IsCell(val) && NumDigits(val) == 2
    requires Lacks(x, HighestDigit(val)) && Within(y, x) && Lacks(y, val - HighestDigit(val))
    ensures Lacks(y, val)
  {
    var d, d2 := HighestDigit(val), val - HighestDigit(val);
    assert d | d2 == val by {
      PairDigits(val);
    }
    assert Lacks(y, d) by {
      AndZero(y, x, d);
    }
    OrLacks(y, d, d2);
  }

  lemma OrLacks(y: Cell, d: Cell, d2: Cell)
    requires Lacks(y, d) && Lacks(y, d2)
    ensures Lacks(y, d | d2)
  {
  }
}
