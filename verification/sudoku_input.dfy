/** Reading puzzles and starting the solver on them: `parseGrid`, the
    reversed puzzles of `readFile`, `initialize`, and the one-character square
    picture that `rowString` draws. */
module SudokuInput {
  import opened Common
  import opened SudokuBits
  import opened Sudoku

  // --------------------------------------------------------------- parseGrid

  /** A character that stands for a square: a digit `1`-`9`, or `0` / `.` for
      an open square. Every other character is skipped. */
  predicate GridChar(c: char)
  {
    ('1' <= c <= '9') || c == '0' || c == '.'
  }

  /** The characters of a puzzle line that `parseGrid` reads. */
  function GridChars(text: string): (cs: seq<char>)
    ensures forall i :: 0 <= i < |cs| ==> GridChar(cs[i])
  {
    FilterPasses(GridChar, text);
    Filter(GridChar, text)
  }

  /** `DIGITS[c - '1']` for a digit, `ALL_DIGITS` for an open square. */
  function CellOf(c: char): (v: Cell)
    requires GridChar(c)
    ensures '1' <= c <= '9' ==> Single(v) && v == Bit(c as int - '1' as int)
    ensures !('1' <= c <= '9') ==> v == ALL_DIGITS
  {
    if '1' <= c <= '9' then Bit(c as int - '1' as int) else ALL_DIGITS
  }

  /** The cells the loop of `parseGrid` stores, one per square character, in
      the order they appear. */
  function ParseCells(text: string): (cells: seq<Cell>)
    ensures |cells| == |GridChars(text)|
    ensures forall i :: 0 <= i < |cells| ==> cells[i] == CellOf(GridChars(text)[i])
  {
    if text == [] then []
    else
      var rest := ParseCells(text[1..]);
      if GridChar(text[0]) then [CellOf(text[0])] + rest else rest
  }

  /** `parseGrid(gridstring)`. A 82nd square character overruns the 81-entry
      array. With Java assertions on (`assertions`), fewer than 81 square
      characters fail `assert s == N * N`; with them off the rest of the grid
      keeps Java's default 0. */
  function ParseGrid(text: string, assertions: bool): (r: Result<Grid>)
    ensures r.Error? <==> |GridChars(text)| > 81 || (assertions && |GridChars(text)| < 81)
    ensures |GridChars(text)| > 81 ==> r == Error("ArrayIndexOutOfBoundsException")
    ensures |GridChars(text)| <= 81 && r.Error? ==> r == Error("AssertionError")
    ensures r.Ok? ==> |r.value| == 81
    ensures r.Ok? ==> forall i :: 0 <= i < |GridChars(text)| ==> r.value[i] == CellOf(GridChars(text)[i])
    ensures r.Ok? ==> forall i :: |GridChars(text)| <= i < 81 ==> r.value[i] == 0
  {
    var cells := ParseCells(text);
    if |cells| > 81 then Error("ArrayIndexOutOfBoundsException")
    else if assertions && |cells| < 81 then Error("AssertionError")
    else Ok(cells + seq(81 - |cells|, _ => 0))
  }

  /** A cell `parseGrid` can produce: a digit, an open square, or the 0 left
      where the line ran short. */
  predicate PuzzleCell(v: Cell)
  {
    v == 0 || Single(v) || v == ALL_DIGITS
  }

  predicate Puzzle(p: Grid)
  {
    |p| == 81 && forall i :: 0 <= i < 81 ==> PuzzleCell(p[i])
  }

  lemma ParsedIsPuzzle(text: string, assertions: bool)
    requires ParseGrid(text, assertions).Ok?
    ensures Puzzle(ParseGrid(text, assertions).value)
    ensures assertions ==> forall i :: 0 <= i < 81 ==> ParseGrid(text, assertions).value[i] != 0
  {
    var g := ParseGrid(text, assertions).value;
    var n := |GridChars(text)|;
    forall i | 0 <= i < 81 ensures PuzzleCell(g[i]) && (assertions ==> g[i] != 0) {
      if i < n {
        assert g[i] == CellOf(GridChars(text)[i]);
      }
    }
  }

  /** `readFile` with `reversePuzzle`: the reversed line of a complete puzzle
      parses to the reversed grid, so it is the same puzzle turned by 180
      degrees. */
  lemma ReversedPuzzle(text: string, assertions: bool)
    requires |GridChars(text)| == 81
    ensures ParseGrid(text, assertions).Ok? && ParseGrid(Rev(text), assertions).Ok?
    ensures ParseGrid(Rev(text), assertions).value == Rev(ParseGrid(text, assertions).value)
  {
    FilterRev(GridChar, text);
    var g, h := ParseGrid(text, assertions).value, ParseGrid(Rev(text), assertions).value;
    forall i | 0 <= i < 81 ensures h[i] == Rev(g)[i] {
      ReversedSquare(GridChars(text), GridChars(Rev(text)), g, h, i);
    }
  }

  lemma ReversedSquare(cs: seq<char>, rs: seq<char>, g: Grid, h: Grid, i: int)
    requires |cs| == 81 && rs == Rev(cs) && 0 <= i < 81
    requires forall k :: 0 <= k < 81 ==> GridChar(cs[k])
    requires |g| == 81 && forall k :: 0 <= k < 81 ==> g[k] == CellOf(cs[k])
    requires |h| == 81 && forall k :: 0 <= k < 81 ==> GridChar(rs[k]) && h[k] == CellOf(rs[k])
    ensures h[i] == Rev(g)[i]
  {
    var j := 80 - i;
    assert rs[i] == cs[j];
    assert Rev(g)[i] == g[j];
    assert h[i] == CellOf(rs[i]) && g[j] == CellOf(cs[j]);
  }

  // --------------------------------------------------------------- rowString

  /** `Integer.numberOfTrailingZeros` of a single digit: its index in
      `DIGITS`. */
  function DigitIndex(d: Cell): (k: int)
    requires Single(d)
    ensures 0 <= k < 9 && Bit(k) == d
  {
    if d == 1 then 0 else if d == 2 then 1 else if d == 4 then 2 else if d == 8 then 3
    else if d == 16 then 4 else if d == 32 then 5 else if d == 64 then 6 else if d == 128 then 7
    else 8
  }

  /** The character `rowString` draws for a square: `.` when every digit is
      open, `?` when the square is empty or undecided, else its digit. */
  function SquareChar(v: Cell): (c: char)
    requires IsCell(v)
    ensures c == '.' <==> v == ALL_DIGITS
    ensures c == '?' <==> v != ALL_DIGITS && !Single(v)
    ensures Single(v) ==> '1' <= c <= '9' && Bit(c as int - '1' as int) == v
  {
    NineDigits(v);
    OneDigit(v);
    if NumDigits(v) == 9 then '.'
    else if NumDigits(v) != 1 then '?'
    else ('1' as int + DigitIndex(v)) as char
  }

  /** Nine digits are open exactly in `ALL_DIGITS`. */
  lemma NineDigits(v: Cell)
    requires IsCell(v)
    ensures NumDigits(v) == 9 <==> v == ALL_DIGITS
  {
    NumDigitsSum(v);
    if BitSum(v) == 9 {
      AllAllowed(v);
      assert !Lacks(v, 1) && !Lacks(v, 2) && !Lacks(v, 4) && !Lacks(v, 8) && !Lacks(v, 16);
      assert !Lacks(v, 32) && !Lacks(v, 64) && !Lacks(v, 128) && !Lacks(v, 256);
    }
  }

  /** The squares of a grid as `rowString` draws them, row after row. */
  function Picture(g: Grid): (text: string)
    requires Valid(g)
    ensures |text| == 81 && forall i :: 0 <= i < 81 ==> text[i] == SquareChar(g[i])
  {
    seq(81, i requires 0 <= i < 81 => SquareChar(g[i]))
  }

  /** Reading back the picture of a puzzle whose squares are digits or open
      gives back the puzzle, with or without assertions. */
  lemma ParsePicture(p: Grid, assertions: bool)
    requires Valid(p) && forall i :: 0 <= i < 81 ==> Single(p[i]) || p[i] == ALL_DIGITS
    ensures ParseGrid(Picture(p), assertions) == Ok(p)
  {
    var text := Picture(p);
    forall i | 0 <= i < 81 ensures GridChar(text[i]) && CellOf(text[i]) == p[i] {
      ReadSquare(p[i]);
    }
    FilterKeepsAll(GridChar, text);
    assert |GridChars(text)| == 81;
    var g := ParseGrid(text, assertions).value;
    assert g == p;
  }

  /** The character drawn for a digit or an open square reads back as that
      square. */
  lemma ReadSquare(v: Cell)
    requires Single(v) || v == ALL_DIGITS
    ensures IsCell(v) && GridChar(SquareChar(v)) && CellOf(SquareChar(v)) == v
  {
    if Single(v) {
      DigitsBelowAll(v);
    }
  }

  // -------------------------------------------------------------- initialize

  /** The grid where every digit is still possible. */
  function Open(): (g: Grid)
    ensures Valid(g) && forall i :: 0 <= i < 81 ==> g[i] == ALL_DIGITS
  {
    seq(81, _ => ALL_DIGITS)
  }

  /** A clue square still holds its digit, or has lost it for good: the grid
      never offers a different single answer there. */
  predicate ClueKept(g: Grid, p: Grid, s: int)
    requires |g| == 81 && |p| == 81 && 0 <= s < 81
  {
    Single(p[s]) ==> g[s] == p[s] || Lacks(g[s], p[s])
  }

  /** `initialize(puzzle)`: start from the open grid and `fill` each square
      the puzzle does not leave open, in square order, ignoring whether the
      fill succeeds; the squares a failed fill already changed stay changed. */
  function Initialize(p: Grid): (g: Grid)
    requires Puzzle(p)
    ensures Valid(g)
    ensures forall s :: 0 <= s < 81 ==> ClueKept(g, p, s)
  {
    InitFrom(Open(), p, 0)
  }

  /** The loop of `initialize` from square `s` on. */
  function InitFrom(g: Grid, p: Grid, s: nat): (r: Grid)
    requires Valid(g) && Puzzle(p) && s <= 81
    requires forall t :: 0 <= t < s ==> ClueKept(g, p, t)
    ensures Valid(r)
    ensures forall t :: 0 <= t < 81 ==> ClueKept(r, p, t)
    decreases 81 - s
  {
    if s == 81 then g
    else if p[s] == ALL_DIGITS then InitFrom(g, p, s + 1)
    else
      var f := Fill(g, s, p[s]);
      KeepClues(g, f.grid, p, s);
      InitFrom(f.grid, p, s + 1)
  }

  /** A fill at `s` keeps the clues before `s` and leaves `s` itself with
      its clue or without it. */
  lemma KeepClues(g: Grid, h: Grid, p: Grid, s: int)
    requires Valid(g) && Shrinks(g, h) && Puzzle(p) && 0 <= s < 81
    requires forall t :: 0 <= t < s ==> ClueKept(g, p, t)
    requires h[s] == p[s] || Lacks(h[s], p[s])
    ensures forall t :: 0 <= t <= s ==> ClueKept(h, p, t)
  {
    forall t | 0 <= t < s ensures ClueKept(h, p, t) {
      if Single(p[t]) {
        assert Within(h[t], g[t]);
        assert g[t] == p[t] || Lacks(g[t], p[t]) by {
          assert ClueKept(g, p, t);
        }
        if g[t] == p[t] {
          WithinDigit(h[t], p[t]);
        } else {
          AndZero(h[t], g[t], p[t]);
        }
      }
    }
  }

  /** A puzzle with no clue leaves the open grid as it is. */
  lemma InitializeOpen(p: Grid)
    requires Puzzle(p) && forall i :: 0 <= i < 81 ==> p[i] == ALL_DIGITS
    ensures Initialize(p) == Open()
  {
    OpenFrom(p, 0);
  }

  lemma {:induction false} OpenFrom(p: Grid, s: nat)
    requires Puzzle(p) && s <= 81 && forall i :: 0 <= i < 81 ==> p[i] == ALL_DIGITS
    ensures InitFrom(Open(), p, s) == Open()
    decreases 81 - s
  {
    if s < 81 {
      OpenFrom(p, s + 1);
    }
  }
}
