/** The square, unit and peer tables of `Sudoku.java`. Squares are numbered
    0..80 row by row; a unit is a row, a column or a 3x3 block. */
module SudokuTables {
  import opened Common

  /** Number of cells on a side of the grid. */
  const N: int := 9

  /** `IntStream.range(0, n)`: the rows, the columns and the squares. */
  function Range(n: nat): (r: seq<int>)
    ensures |r| == n && forall i :: 0 <= i < n ==> r[i] == i
  {
    seq(n, i requires 0 <= i < n => i)
  }

  function Blocks(): seq<seq<int>> { [[0, 1, 2], [3, 4, 5], [6, 7, 8]] }

  /** A list of squares of the grid. */
  predicate InGrid(u: seq<int>)
  {
    forall k :: 0 <= k < |u| ==> 0 <= u[k] < 81
  }

  /** `cross(rows, cols)`: the square `N * r + c` for every `r` of `rows` and,
      within it, every `c` of `cols`. */
  function Cross(rows: seq<int>, cols: seq<int>): seq<int>
  {
    if rows == [] then [] else CrossRow(rows[0], cols) + Cross(rows[1..], cols)
  }

  /** The squares of row `r` in the columns `cols`. */
  function CrossRow(r: int, cols: seq<int>): (s: seq<int>)
    ensures |s| == |cols| && forall j :: 0 <= j < |cols| ==> s[j] == N * r + cols[j]
  {
    seq(|cols|, j requires 0 <= j < |cols| => N * r + cols[j])
  }

  /** `member(item, array, end)`: whether `item` occurs among the first `end`
      entries. */
  function Member(item: int, arr: seq<int>, end: nat): (r: bool)
    requires end <= |arr|
    ensures r <==> item in arr[..end]
  {
    if end == 0 then false
    else
      assert arr[..end] == arr[..end - 1] + [arr[end - 1]];
      Member(item, arr, end - 1) || arr[end - 1] == item
  }

  /** `ALL_UNITS`: the nine rows, then the nine columns, then the nine blocks
      with the block row outermost. */
  function AllUnits(): (r: seq<seq<int>>)
    ensures |r| == 3 * N
  {
    seq(3 * N, k requires 0 <= k < 3 * N =>
      if k < N then Cross([k], Range(N))
      else if k < 2 * N then Cross(Range(N), [k - N])
      else Cross(Blocks()[(k - 2 * N) / 3], Blocks()[(k - 2 * N) % 3]))
  }

  /** The unit closed forms. */
  function RowUnit(r: int): (u: seq<int>)
    ensures |u| == 9 && forall j :: 0 <= j < 9 ==> u[j] == 9 * r + j
  {
    seq(9, j requires 0 <= j < 9 => 9 * r + j)
  }

  function ColUnit(c: int): (u: seq<int>)
    ensures |u| == 9 && forall i :: 0 <= i < 9 ==> u[i] == 9 * i + c
  {
    seq(9, i requires 0 <= i < 9 => 9 * i + c)
  }

  function BlockUnit(a: int, b: int): (u: seq<int>)
    ensures |u| == 9 && forall k :: 0 <= k < 9 ==> u[k] == 9 * (3 * a + k / 3) + 3 * b + k % 3
  {
    seq(9, k requires 0 <= k < 9 => 9 * (3 * a + k / 3) + 3 * b + k % 3)
  }

  function ColumnOf(rows: seq<int>, c: int): (s: seq<int>)
    ensures |s| == |rows| && forall i :: 0 <= i < |rows| ==> s[i] == N * rows[i] + c
  {
    seq(|rows|, i requires 0 <= i < |rows| => N * rows[i] + c)
  }

  lemma {:induction false} CrossColumn(rows: seq<int>, c: int)
    ensures Cross(rows, [c]) == ColumnOf(rows, c)
  {
    if rows != [] {
      CrossColumn(rows[1..], c);
      assert Cross(rows, [c]) == [N * rows[0] + c] + ColumnOf(rows[1..], c);
    }
  }

  /** The tables hold, in order, the rows, the columns and the blocks. */
  lemma {:induction false} AllUnitsShape()
    ensures forall r :: 0 <= r < 9 ==> AllUnits()[r] == RowUnit(r)
    ensures forall c :: 0 <= c < 9 ==> AllUnits()[9 + c] == ColUnit(c)
    ensures forall a, b :: 0 <= a < 3 && 0 <= b < 3 ==> AllUnits()[18 + 3 * a + b] == BlockUnit(a, b)
  {
    forall r | 0 <= r < 9 ensures AllUnits()[r] == RowUnit(r) {
      RowAt(r);
    }
    forall c | 0 <= c < 9 ensures AllUnits()[9 + c] == ColUnit(c) {
      ColAt(c);
    }
    forall a, b | 0 <= a < 3 && 0 <= b < 3 ensures AllUnits()[18 + 3 * a + b] == BlockUnit(a, b) {
      BlockAt(a, b);
    }
  }

  lemma {:induction false} RowAt(r: int)
    requires 0 <= r < 9
    ensures AllUnits()[r] == RowUnit(r)
  {
    assert AllUnits()[r] == Cross([r], Range(N));
    assert Cross([r], Range(N)) == CrossRow(r, Range(N)) + [];
  }

  lemma {:induction false} ColAt(c: int)
    requires 0 <= c < 9
    ensures AllUnits()[9 + c] == ColUnit(c)
  {
    assert AllUnits()[9 + c] == Cross(Range(N), [c]);
    CrossColumn(Range(N), c);
    ColumnOfRange(c);
  }

  lemma ColumnOfRange(c: int)
    ensures ColumnOf(Range(N), c) == ColUnit(c)
  {
    var col := ColumnOf(Range(N), c);
    assert forall i :: 0 <= i < 9 ==> col[i] == ColUnit(c)[i];
  }

  lemma {:induction false} BlockAt(a: int, b: int)
    requires 0 <= a < 3 && 0 <= b < 3
    ensures AllUnits()[18 + 3 * a + b] == BlockUnit(a, b)
  {
    var k := 18 + 3 * a + b;
    assert (k - 18) / 3 == a && (k - 18) % 3 == b;
    assert AllUnits()[k] == Cross(Blocks()[a], Blocks()[b]);
    BlockShape(a, b);
  }

  lemma {:induction false} BlockShape(a: int, b: int)
    requires 0 <= a < 3 && 0 <= b < 3
    ensures Cross(Blocks()[a], Blocks()[b]) == BlockUnit(a, b)
  {
    var rs, cs := Blocks()[a], Blocks()[b];
    assert rs == [3 * a, 3 * a + 1, 3 * a + 2] && cs == [3 * b, 3 * b + 1, 3 * b + 2];
    assert Cross(rs, cs) == CrossRow(3 * a, cs) + CrossRow(3 * a + 1, cs) + CrossRow(3 * a + 2, cs) by {
      assert Cross(rs, cs) == CrossRow(3 * a, cs) + Cross(rs[1..], cs);
      assert Cross(rs[1..], cs) == CrossRow(3 * a + 1, cs) + Cross(rs[2..], cs);
      assert Cross(rs[2..], cs) == CrossRow(3 * a + 2, cs) + Cross(rs[3..], cs);
      assert rs[3..] == [];
    }
    forall i | 3 * a <= i < 3 * a + 3 ensures CrossRow(i, cs) == BlockRow(i, b) {
      assert forall k :: 0 <= k < 3 ==> CrossRow(i, cs)[k] == BlockRow(i, b)[k];
    }
    BlockRows(a, b);
  }

  // ------------------------------------------------------ where a square lies

  lemma {:induction false} RowMembers(r: int, x: int)
    requires 0 <= r < 9
    ensures x in RowUnit(r) <==> 0 <= x < 81 && x / 9 == r
  {
    if 0 <= x < 81 && x / 9 == r {
      assert RowUnit(r)[x % 9] == x;
    }
  }

  lemma {:induction false} ColMembers(c: int, x: int)
    requires 0 <= c < 9
    ensures x in ColUnit(c) <==> 0 <= x < 81 && x % 9 == c
  {
    if 0 <= x < 81 && x % 9 == c {
      assert ColUnit(c)[x / 9] == x;
    }
  }

  lemma {:induction false} BlockMembers(a: int, b: int, x: int)
    requires 0 <= a < 3 && 0 <= b < 3
    ensures x in BlockUnit(a, b) <==> 0 <= x < 81 && x / 9 / 3 == a && x % 9 / 3 == b
  {
    if x in BlockUnit(a, b) {
      var k :| 0 <= k < 9 && BlockUnit(a, b)[k] == x;
      BlockCoordinates(a, b, k);
      var q, m := 3 * a + k / 3, 3 * b + k % 3;
      assert x / 9 == q && x % 9 == m;
      assert q / 3 == a && m / 3 == b;
    }
    if 0 <= x < 81 && x / 9 / 3 == a && x % 9 / 3 == b {
      var q, m := x / 9, x % 9;
      assert x == 9 * q + m;
      assert q == 3 * a + q % 3 && m == 3 * b + m % 3;
      var k := 3 * (q % 3) + m % 3;
      assert k / 3 == q % 3 && k % 3 == m % 3;
      BlockCoordinates(a, b, k);
      assert BlockUnit(a, b)[k] == 9 * (3 * a + q % 3) + 3 * b + m % 3;
    }
  }

  /** The `k`-th square of a block sits in row `3a + k/3` and column `3b + k%3`. */
  lemma {:induction false} BlockCoordinates(a: int, b: int, k: int)
    requires 0 <= a < 3 && 0 <= b < 3 && 0 <= k < 9
    ensures var x := BlockUnit(a, b)[k];
      0 <= x < 81 && x / 9 == 3 * a + k / 3 && x % 9 == 3 * b + k % 3
  {
  }

  /** `UNITS[s]`: the units that contain `s`, in table order. */
  function Units(s: int): seq<seq<int>>
  {
    Filter(HasSquare(s), AllUnits())
  }

  /** The test `member(s, u)`. */
  function HasSquare(s: int): seq<int> -> bool
  {
    (u: seq<int>) => Member(s, u, |u|)
  }

  /** Every square lies in exactly three units: its row, its column and its
      block. */
  lemma {:induction false} UnitsOf(s: int)
    requires 0 <= s < 81
    ensures Units(s) == [RowUnit(s / 9), ColUnit(s % 9), BlockUnit(s / 9 / 3, s % 9 / 3)]
  {
    RowsFilter(s);
    ColsFilter(s);
    BlocksFilter(s);
    FilterThirds(HasSquare(s), AllUnits(), RowUnit(s / 9), ColUnit(s % 9), BlockUnit(s / 9 / 3, s % 9 / 3));
  }

  /** Filtering 27 units piecewise, nine at a time. */
  lemma {:induction false} FilterThirds<T>(p: T -> bool, all: seq<T>, x: T, y: T, z: T)
    requires |all| == 27
    requires Filter(p, all[..9]) == [x] && Filter(p, all[9..18]) == [y] && Filter(p, all[18..]) == [z]
    ensures Filter(p, all) == [x, y, z]
  {
    assert all == all[..9] + all[9..18] + all[18..];
    FilterAppend(p, all[..9] + all[9..18], all[18..]);
    FilterAppend(p, all[..9], all[9..18]);
    assert [x] + [y] + [z] == [x, y, z];
  }

  lemma {:induction false} RowsFilter(s: int)
    requires 0 <= s < 81
    ensures Filter(HasSquare(s), AllUnits()[..9]) == [RowUnit(s / 9)]
  {
    var rows := AllUnits()[..9];
    forall r | 0 <= r < 9 ensures rows[r] == RowUnit(r) && (HasSquare(s)(rows[r]) <==> r == s / 9) {
      RowAt(r);
      RowMembers(r, s);
    }
    FilterOne(HasSquare(s), rows, s / 9);
  }

  lemma {:induction false} ColsFilter(s: int)
    requires 0 <= s < 81
    ensures Filter(HasSquare(s), AllUnits()[9..18]) == [ColUnit(s % 9)]
  {
    var cols := AllUnits()[9..18];
    forall c | 0 <= c < 9 ensures cols[c] == ColUnit(c) && (HasSquare(s)(cols[c]) <==> c == s % 9) {
      ColAt(c);
      ColMembers(c, s);
    }
    FilterOne(HasSquare(s), cols, s % 9);
  }

  lemma {:induction false} BlocksFilter(s: int)
    requires 0 <= s < 81
    ensures Filter(HasSquare(s), AllUnits()[18..]) == [BlockUnit(s / 9 / 3, s % 9 / 3)]
  {
    var blocks := AllUnits()[18..];
    var a, b := s / 9 / 3, s % 9 / 3;
    var j := 3 * a + b;
    forall k | 0 <= k < 9 ensures HasSquare(s)(blocks[k]) <==> k == j {
      BlockIndex(k);
      BlockMembers(k / 3, k % 3, s);
      assert k == 3 * (k / 3) + k % 3;
    }
    assert blocks[j] == BlockUnit(a, b) by {
      BlockIndex(j);
      assert j / 3 == a && j % 3 == b;
    }
    FilterOne(HasSquare(s), blocks, j);
  }

  lemma {:induction false} BlockIndex(k: int)
    requires 0 <= k < 9
    ensures |AllUnits()| == 27 && AllUnits()[18..][k] == BlockUnit(k / 3, k % 3)
  {
    assert 18 + 3 * (k / 3) + k % 3 == 18 + k;
    BlockAt(k / 3, k % 3);
  }


  // ------------------------------------------------------------------ peers

  /** One unit of the peer-table loop: each square of `u` other than `s` that
      is not listed yet is appended. */
  function AddPeers(acc: seq<int>, u: seq<int>, s: int): seq<int>
    decreases |u|
  {
    if u == [] then acc
    else AddPeers(if u[0] != s && !Member(u[0], acc, |acc|) then acc + [u[0]] else acc, u[1..], s)
  }

  function PeersFrom(acc: seq<int>, us: seq<seq<int>>, s: int): seq<int>
    decreases |us|
  {
    if us == [] then acc else PeersFrom(AddPeers(acc, us[0], s), us[1..], s)
  }

  /** `PEERS[s]`: the squares sharing a unit with `s`, in the order the units
      list them. */
  function Peers(s: int): seq<int>
  {
    PeersFrom([], Units(s), s)
  }

  /** The peer loop keeps the list duplicate-free and collects exactly the
      other squares of the unit. */
  lemma {:induction false} AddPeersMembers(acc: seq<int>, u: seq<int>, s: int)
    requires Distinct(acc)
    ensures Distinct(AddPeers(acc, u, s))
    ensures forall x :: x in AddPeers(acc, u, s) <==> x in acc || (x in u && x != s)
    decreases |u|
  {
    if u != [] {
      var x := u[0];
      var next := if x != s && !Member(x, acc, |acc|) then acc + [x] else acc;
      assert Distinct(next);
      AddPeersMembers(next, u[1..], s);
      assert u == [x] + u[1..];
    }
  }

  lemma {:induction false} PeersFromMembers(acc: seq<int>, us: seq<seq<int>>, s: int)
    requires Distinct(acc)
    ensures Distinct(PeersFrom(acc, us, s))
    ensures forall x :: x in PeersFrom(acc, us, s) <==> x in acc || (x != s && exists i :: 0 <= i < |us| && x in us[i])
    decreases |us|
  {
    if us != [] {
      AddPeersMembers(acc, us[0], s);
      PeersFromMembers(AddPeers(acc, us[0], s), us[1..], s);
      forall x ensures (exists i :: 0 <= i < |us| && x in us[i]) <==> x in us[0] || exists i :: 0 <= i < |us[1..]| && x in us[1..][i] {
        if i :| 0 <= i < |us| && x in us[i] {
          if i > 0 {
            assert x in us[1..][i - 1];
          }
        }
      }
    }
  }

  /** Two squares are peers when they are distinct and share a row, a column
      or a block. */
  predicate ArePeers(s: int, x: int)
  {
    0 <= x < 81 && x != s && (x / 9 == s / 9 || x % 9 == s % 9 || (x / 9 / 3 == s / 9 / 3 && x % 9 / 3 == s % 9 / 3))
  }

  /** `PEERS[s]` lists each peer of `s` once, and nothing else. */
  lemma {:induction false} PeersMembers(s: int)
    requires 0 <= s < 81
    ensures Distinct(Peers(s))
    ensures forall x :: x in Peers(s) <==> ArePeers(s, x)
  {
    UnitsOf(s);
    PeersFromMembers([], Units(s), s);
    forall x ensures x in Peers(s) <==> ArePeers(s, x) {
      PeerAt(s, x);
    }
  }

  lemma PeerAt(s: int, x: int)
    requires 0 <= s < 81
    ensures x in Peers(s) <==> ArePeers(s, x)
  {
    var R, C, B := RowUnit(s / 9), ColUnit(s % 9), BlockUnit(s / 9 / 3, s % 9 / 3);
    UnitsOf(s);
    PeersFromMembers([], [R, C, B], s);
    InThree(R, C, B, x);
    PeerUnits(s, x);
  }

  /** A peer is another square of the row, the column or the block. */
  lemma PeerUnits(s: int, x: int)
    requires 0 <= s < 81
    ensures (x != s && (x in RowUnit(s / 9) || x in ColUnit(s % 9) || x in BlockUnit(s / 9 / 3, s % 9 / 3))) <==> ArePeers(s, x)
  {
    RowMembers(s / 9, x);
    ColMembers(s % 9, x);
    BlockMembers(s / 9 / 3, s % 9 / 3, x);
  }

  lemma InThree<T>(a: seq<T>, b: seq<T>, c: seq<T>, x: T)
    ensures (exists i :: 0 <= i < |[a, b, c]| && x in [a, b, c][i]) <==> x in a || x in b || x in c
  {
    var us := [a, b, c];
    if x in a { assert x in us[0]; }
    if x in b { assert x in us[1]; }
    if x in c { assert x in us[2]; }
  }

  // ----------------------------------------------------- the order of the peers

  /** The squares of row `i` in block column `b`. */
  function BlockRow(i: int, b: int): (u: seq<int>)
    ensures |u| == 3 && forall k :: 0 <= k < 3 ==> u[k] == 9 * i + 3 * b + k
  {
    seq(3, k requires 0 <= k < 3 => 9 * i + 3 * b + k)
  }

  /** The rest of the row of `s`, left to right. */
  function RowRest(s: int): seq<int>
    requires 0 <= s < 81
  {
    RowUnit(s / 9)[..s % 9] + RowUnit(s / 9)[s % 9 + 1..]
  }

  /** The rest of the column of `s`, top to bottom. */
  function ColRest(s: int): seq<int>
    requires 0 <= s < 81
  {
    ColUnit(s % 9)[..s / 9] + ColUnit(s % 9)[s / 9 + 1..]
  }

  /** The squares of block row `i` that are in neither the row nor the column
      of `s`. */
  function Others(i: int, s: int): seq<int>
    requires 0 <= s < 81
  {
    if i == s / 9 then [] else BlockRow(i, s % 9 / 3)[..s % 3] + BlockRow(i, s % 9 / 3)[s % 3 + 1..]
  }

  /** The squares of the block of `s` in neither its row nor its column. */
  function BlockRest(s: int): seq<int>
    requires 0 <= s < 81
  {
    var a := s / 9 / 3;
    Others(3 * a, s) + Others(3 * a + 1, s) + Others(3 * a + 2, s)
  }

  /** `PEERS[s]` has the 20 entries the table has room for. */
  lemma {:induction false} PeersCount(s: int)
    requires 0 <= s < 81
    ensures |Peers(s)| == 20
  {
    PeersClosedForm(s);
    ClosedFormLength(s);
  }

  lemma {:induction false} ClosedFormLength(s: int)
    requires 0 <= s < 81
    ensures |RowRest(s) + ColRest(s) + BlockRest(s)| == 20
  {
    var a := s / 9 / 3;
    var n0, n1, n2 := |Others(3 * a, s)|, |Others(3 * a + 1, s)|, |Others(3 * a + 2, s)|;
    assert n0 + n1 + n2 == 4 by {
      OthersLength(3 * a, s);
      OthersLength(3 * a + 1, s);
      OthersLength(3 * a + 2, s);
      assert 3 * a <= s / 9 < 3 * a + 3;
    }
    assert |RowRest(s)| == 8 && |ColRest(s)| == 8;
  }

  lemma {:induction false} OthersLength(i: int, s: int)
    requires 0 <= s < 81
    ensures |Others(i, s)| == if i == s / 9 then 0 else 2
  {
  }

  /** `PEERS[s]` lists the rest of the row, then the rest of the column, then
      the four remaining squares of the block. */
  lemma {:induction false} PeersClosedForm(s: int)
    requires 0 <= s < 81
    ensures Peers(s) == RowRest(s) + ColRest(s) + BlockRest(s)
  {
    var R, C, B := RowUnit(s / 9), ColUnit(s % 9), BlockUnit(s / 9 / 3, s % 9 / 3);
    assert Peers(s) == AddPeers(AddPeers(AddPeers([], R, s), C, s), B, s) by {
      UnitsOf(s);
      PeersFromThree([], R, C, B, s);
    }
    assert AddPeers([], R, s) == RowRest(s) by { RowStep(s); }
    assert AddPeers(RowRest(s), C, s) == RowRest(s) + ColRest(s) by { ColStep(s); }
    BlockStep(s);
  }

  lemma {:induction false} PeersFromThree(acc: seq<int>, x: seq<int>, y: seq<int>, z: seq<int>, s: int)
    ensures PeersFrom(acc, [x, y, z], s) == AddPeers(AddPeers(AddPeers(acc, x, s), y, s), z, s)
  {
    var a1 := AddPeers(acc, x, s);
    var a2 := AddPeers(a1, y, s);
    assert [x, y, z][1..] == [y, z] && [y, z][1..] == [z] && [z][1..] == [];
    assert PeersFrom(acc, [x, y, z], s) == PeersFrom(a1, [y, z], s);
    assert PeersFrom(a1, [y, z], s) == PeersFrom(a2, [z], s);
    assert PeersFrom(a2, [z], s) == PeersFrom(AddPeers(a2, z, s), [], s);
  }

  /** Whether `x` would be a new peer for the list `acc`. */
  function Fresh(acc: seq<int>, s: int): int -> bool
  {
    x => x != s && x !in acc
  }

  /** On a unit without repeats, the peer loop appends the unit's new squares
      in order. */
  lemma {:induction false} AddPeersFilter(acc: seq<int>, u: seq<int>, s: int)
    requires Distinct(u)
    ensures AddPeers(acc, u, s) == acc + Filter(Fresh(acc, s), u)
    decreases |u|
  {
    if u != [] {
      var x, rest := u[0], u[1..];
      assert Distinct(rest) && x !in rest by {
        assert forall i :: 0 <= i < |rest| ==> rest[i] == u[i + 1];
      }
      assert Member(x, acc, |acc|) <==> x in acc by {
        assert acc[..|acc|] == acc;
      }
      if x != s && x !in acc {
        assert AddPeers(acc, u, s) == AddPeers(acc + [x], rest, s);
        AddPeersFilter(acc + [x], rest, s);
        FreshKept(acc, u, s);
      } else {
        assert AddPeers(acc, u, s) == AddPeers(acc, rest, s);
        AddPeersFilter(acc, rest, s);
        FilterHead(Fresh(acc, s), u);
      }
    }
  }

  /** A new square heads the filtered unit, and the squares after it are
      new for the longer list exactly when they are new for the shorter one. */
  lemma FreshKept(acc: seq<int>, u: seq<int>, s: int)
    requires u != [] && u[0] != s && u[0] !in acc && u[0] !in u[1..]
    ensures acc + [u[0]] + Filter(Fresh(acc + [u[0]], s), u[1..]) == acc + Filter(Fresh(acc, s), u)
  {
    var x, rest := u[0], u[1..];
    assert Filter(Fresh(acc + [x], s), rest) == Filter(Fresh(acc, s), rest) by {
      forall i | 0 <= i < |rest| ensures Fresh(acc + [x], s)(rest[i]) == Fresh(acc, s)(rest[i]) {
        assert rest[i] != x;
      }
      FilterAgree(Fresh(acc + [x], s), Fresh(acc, s), rest);
    }
    FilterHead(Fresh(acc, s), u);
    assert acc + [x] + Filter(Fresh(acc, s), rest) == acc + ([x] + Filter(Fresh(acc, s), rest));
  }

  lemma {:induction false} RowStep(s: int)
    requires 0 <= s < 81
    ensures AddPeers([], RowUnit(s / 9), s) == RowRest(s)
  {
    var R := RowUnit(s / 9);
    AddPeersFilter([], R, s);
    assert R[s % 9] == s;
    FilterDropsOne(Fresh([], s), R, s % 9);
    assert [] + Filter(Fresh([], s), R) == Filter(Fresh([], s), R);
  }

  lemma {:induction false} RowRestMembers(s: int, x: int)
    requires 0 <= s < 81
    ensures x in RowRest(s) <==> 0 <= x < 81 && x / 9 == s / 9 && x != s
  {
    WithoutMembers(RowUnit(s / 9), s % 9, x);
    RowMembers(s / 9, x);
  }

  lemma {:induction false} ColRestMembers(s: int, x: int)
    requires 0 <= s < 81
    ensures x in ColRest(s) <==> 0 <= x < 81 && x % 9 == s % 9 && x != s
  {
    var C := ColUnit(s % 9);
    assert Distinct(C);
    WithoutMembers(C, s / 9, x);
    ColMembers(s % 9, x);
  }

  lemma {:induction false} ColStep(s: int)
    requires 0 <= s < 81
    ensures AddPeers(RowRest(s), ColUnit(s % 9), s) == RowRest(s) + ColRest(s)
  {
    var C, A := ColUnit(s % 9), RowRest(s);
    assert Distinct(C);
    AddPeersFilter(A, C, s);
    forall i | 0 <= i < 9 && i != s / 9 ensures Fresh(A, s)(C[i]) {
      assert C[i] / 9 == i;
      RowRestMembers(s, C[i]);
    }
    FilterDropsOne(Fresh(A, s), C, s / 9);
  }

  /** After the row and the column, a square is new exactly when it is in
      neither. */
  lemma {:induction false} FreshAfterRowCol(s: int, y: int)
    requires 0 <= s < 81 && 0 <= y < 81
    ensures Fresh(RowRest(s) + ColRest(s), s)(y) <==> y / 9 != s / 9 && y % 9 != s % 9
  {
    RowRestMembers(s, y);
    ColRestMembers(s, y);
    assert y == 9 * (y / 9) + y % 9 && s == 9 * (s / 9) + s % 9;
  }

  /** A predicate that, on the grid, holds exactly off the row and the
      column of `s`: after the row and the column, the peer loop's test. */
  predicate OffRowCol(p: int -> bool, s: int)
  {
    forall y :: 0 <= y < 81 ==> (p(y) <==> y / 9 != s / 9 && y % 9 != s % 9)
  }

  lemma FreshOffRowCol(s: int)
    requires 0 <= s < 81
    ensures OffRowCol(Fresh(RowRest(s) + ColRest(s), s), s)
  {
    forall y | 0 <= y < 81
      ensures Fresh(RowRest(s) + ColRest(s), s)(y) <==> y / 9 != s / 9 && y % 9 != s % 9
    {
      FreshAfterRowCol(s, y);
    }
  }

  lemma {:induction false} OthersBy(p: int -> bool, s: int, i: int)
    requires 0 <= s < 81 && 0 <= i < 9 && OffRowCol(p, s)
    ensures Filter(p, BlockRow(i, s % 9 / 3)) == Others(i, s)
  {
    var b := s % 9 / 3;
    var u := BlockRow(i, b);
    assert s % 9 == 3 * b + s % 3;
    forall k | 0 <= k < 3 ensures p(u[k]) <==> i != s / 9 && k != s % 3 {
      BlockRowCell(i, b, k);
    }
    if i == s / 9 {
      FilterDropsAll(p, u);
    } else {
      FilterDropsOne(p, u, s % 3);
    }
  }

  lemma {:induction false} BlockRowCell(i: int, b: int, k: int)
    requires 0 <= i < 9 && 0 <= b < 3 && 0 <= k < 3
    ensures var x := BlockRow(i, b)[k]; 0 <= x < 81 && x / 9 == i && x % 9 == 3 * b + k
  {
  }

  lemma {:induction false} BlockRows(a: int, b: int)
    requires 0 <= a < 3 && 0 <= b < 3
    ensures BlockUnit(a, b) == BlockRow(3 * a, b) + BlockRow(3 * a + 1, b) + BlockRow(3 * a + 2, b)
  {
    var u, v := BlockUnit(a, b), BlockRow(3 * a, b) + BlockRow(3 * a + 1, b) + BlockRow(3 * a + 2, b);
    forall k | 0 <= k < 9 ensures u[k] == v[k] {
      assert k == 3 * (k / 3) + k % 3;
      assert v[k] == BlockRow(3 * a + k / 3, b)[k % 3];
    }
  }

  lemma {:induction false} BlockDistinct(a: int, b: int)
    requires 0 <= a < 3 && 0 <= b < 3
    ensures Distinct(BlockUnit(a, b))
  {
    var u := BlockUnit(a, b);
    forall i, j | 0 <= i < j < 9 ensures u[i] != u[j] {
      BlockCoordinates(a, b, i);
      BlockCoordinates(a, b, j);
      assert i == 3 * (i / 3) + i % 3 && j == 3 * (j / 3) + j % 3;
    }
  }

  lemma {:induction false} BlockStep(s: int)
    requires 0 <= s < 81
    ensures AddPeers(RowRest(s) + ColRest(s), BlockUnit(s / 9 / 3, s % 9 / 3), s) == RowRest(s) + ColRest(s) + BlockRest(s)
  {
    BlockAddPeers(s);
    FreshOffRowCol(s);
    BlockFiltered(Fresh(RowRest(s) + ColRest(s), s), s);
  }

  /** The peer loop over the block of `s` appends the block's new squares. */
  lemma BlockAddPeers(s: int)
    requires 0 <= s < 81
    ensures var A, u := RowRest(s) + ColRest(s), BlockUnit(s / 9 / 3, s % 9 / 3);
      AddPeers(A, u, s) == A + Filter(Fresh(A, s), u)
  {
    var a, b := s / 9 / 3, s % 9 / 3;
    assert 0 <= a < 3 && 0 <= b < 3;
    BlockDistinct(a, b);
    AddPeersFilter(RowRest(s) + ColRest(s), BlockUnit(a, b), s);
  }

  /** Off the row and the column of `s`, its block holds the rest of its block. */
  lemma BlockFiltered(p: int -> bool, s: int)
    requires 0 <= s < 81 && OffRowCol(p, s)
    ensures Filter(p, BlockUnit(s / 9 / 3, s % 9 / 3)) == BlockRest(s)
  {
    var a, b := s / 9 / 3, s % 9 / 3;
    assert 0 <= a < 3 && 0 <= b < 3;
    BlockFilterSplit(p, a, b);
    OthersBy(p, s, 3 * a);
    OthersBy(p, s, 3 * a + 1);
    OthersBy(p, s, 3 * a + 2);
  }

  /** Filtering a block is filtering its three rows. */
  lemma BlockFilterSplit(p: int -> bool, a: int, b: int)
    requires 0 <= a < 3 && 0 <= b < 3
    ensures Filter(p, BlockUnit(a, b)) == Filter(p, BlockRow(3 * a, b)) + Filter(p, BlockRow(3 * a + 1, b)) + Filter(p, BlockRow(3 * a + 2, b))
  {
    BlockRows(a, b);
    FilterOver3(p, BlockUnit(a, b), BlockRow(3 * a, b), BlockRow(3 * a + 1, b), BlockRow(3 * a + 2, b));
  }

  lemma FilterOver3<T>(p: T -> bool, u: seq<T>, x: seq<T>, y: seq<T>, z: seq<T>)
    requires u == x + y + z
    ensures Filter(p, u) == Filter(p, x) + Filter(p, y) + Filter(p, z)
  {
    FilterAppend(p, x + y, z);
    FilterAppend(p, x, y);
  }

  /** Every table unit holds nine squares of the grid. */
  lemma {:induction false} UnitsInRange(k: int)
    requires 0 <= k < 27
    ensures |AllUnits()[k]| == 9 && forall j :: 0 <= j < 9 ==> 0 <= AllUnits()[k][j] < 81
  {
    var u := AllUnits()[k];
    if k < 9 {
      RowAt(k);
      forall j | 0 <= j < 9 ensures 0 <= u[j] < 81 { RowMembers(k, u[j]); }
    } else if k < 18 {
      ColAt(k - 9);
      forall j | 0 <= j < 9 ensures 0 <= u[j] < 81 { ColMembers(k - 9, u[j]); }
    } else {
      var a, b := (k - 18) / 3, (k - 18) % 3;
      BlockAt(a, b);
      forall j | 0 <= j < 9 ensures 0 <= u[j] < 81 { BlockMembers(a, b, u[j]); }
    }
  }

  // ------------------------------------------------------------- unit tests

  /** The units of square 19 the unit tests expect. */
  lemma UnitsOf19()
    ensures Units(19) == [[18, 19, 20, 21, 22, 23, 24, 25, 26], [1, 10, 19, 28, 37, 46, 55, 64, 73], [0, 1, 2, 9, 10, 11, 18, 19, 20]]
  {
    var x, y, z := RowUnit(2), ColUnit(1), BlockUnit(0, 0);
    assert Units(19) == [x, y, z] by {
      UnitsOf(19);
      assert 19 / 9 == 2 && 19 % 9 == 1 && 19 / 9 / 3 == 0 && 19 % 9 / 3 == 0;
    }
    Row2();
    Col1();
    Block00();
    SameThree(Units(19), RowUnit(2), ColUnit(1), BlockUnit(0, 0),
      [18, 19, 20, 21, 22, 23, 24, 25, 26], [1, 10, 19, 28, 37, 46, 55, 64, 73], [0, 1, 2, 9, 10, 11, 18, 19, 20]);
  }

  lemma SameThree<T>(u: seq<T>, x: T, y: T, z: T, x': T, y': T, z': T)
    requires u == [x, y, z] && x == x' && y == y' && z == z'
    ensures u == [x', y', z']
  {
  }

  lemma Row2()
    ensures RowUnit(2) == [18, 19, 20, 21, 22, 23, 24, 25, 26]
  {
    var u, w := RowUnit(2), [18, 19, 20, 21, 22, 23, 24, 25, 26];
    forall i | 0 <= i < 9 ensures u[i] == w[i] {
      assert i == 0 || i == 1 || i == 2 || i == 3 || i == 4 || i == 5 || i == 6 || i == 7 || i == 8;
    }
  }

  lemma Col1()
    ensures ColUnit(1) == [1, 10, 19, 28, 37, 46, 55, 64, 73]
  {
    var u, w := ColUnit(1), [1, 10, 19, 28, 37, 46, 55, 64, 73];
    forall i | 0 <= i < 9 ensures u[i] == w[i] {
      assert i == 0 || i == 1 || i == 2 || i == 3 || i == 4 || i == 5 || i == 6 || i == 7 || i == 8;
    }
  }

  lemma Block00()
    ensures BlockUnit(0, 0) == [0, 1, 2, 9, 10, 11, 18, 19, 20]
  {
    var u, w := BlockUnit(0, 0), [0, 1, 2, 9, 10, 11, 18, 19, 20];
    forall i | 0 <= i < 9 ensures u[i] == w[i] {
      assert i == 0 || i == 1 || i == 2 || i == 3 || i == 4 || i == 5 || i == 6 || i == 7 || i == 8;
    }
  }

  /** The peers of square 19 the unit tests expect, written as the row part,
      the column part and the block part of the expected array. */
  lemma PeersOf19()
    ensures Peers(19) == [18, 20, 21, 22, 23, 24, 25, 26] + [1, 10, 28, 37, 46, 55, 64, 73] + [0, 2, 9, 11]
  {
    PeersClosedForm(19);
    RowRest19();
    ColRest19();
    BlockRest19();
  }

  lemma RowRest19()
    ensures RowRest(19) == [18, 20, 21, 22, 23, 24, 25, 26]
  {
    Row2();
    assert 19 / 9 == 2 && 19 % 9 == 1;
  }

  lemma ColRest19()
    ensures ColRest(19) == [1, 10, 28, 37, 46, 55, 64, 73]
  {
    Col1();
    assert 19 / 9 == 2 && 19 % 9 == 1;
  }

  lemma BlockRest19()
    ensures BlockRest(19) == [0, 2, 9, 11]
  {
    assert 19 / 9 == 2 && 19 % 9 / 3 == 0 && 19 / 9 / 3 == 0 && 19 % 3 == 1;
    assert BlockRow(0, 0) == [0, 1, 2];
    assert BlockRow(1, 0) == [9, 10, 11];
    assert Others(0, 19) == [0, 2];
    assert Others(1, 19) == [9, 11];
    assert Others(2, 19) == [];
  }
}
