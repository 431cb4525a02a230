/** Sorted word lists and the `bisect` lookups the palindrome programs make in
    them: the words that start with a prefix are found between `bisect(prefix)`
    and `bisect(prefix + 'zzzz')`. */
module SortedWords {
  import opened Common

  /** `bisect.bisect_left(ws, x)`: the number of leading words below `x`. On a
      sorted list this is the insertion point the binary search finds. */
  function BisectLeft(ws: seq<string>, x: string): (r: nat)
    ensures r <= |ws|
    ensures forall i :: 0 <= i < r ==> LexLess(ws[i], x)
    ensures SortedLex(ws) ==> forall i :: r <= i < |ws| ==> LexLe(x, ws[i])
  {
    if ws == [] then 0
    else if !LexLess(ws[0], x) then
      BelowFirst(ws, x);
      0
    else
      SortedTail(ws);
      1 + BisectLeft(ws[1..], x)
  }

  /** `bisect.bisect_right(ws, x)` (the plain `bisect.bisect`): the number of
      leading words not above `x`. */
  function BisectRight(ws: seq<string>, x: string): (r: nat)
    ensures r <= |ws|
    ensures forall i :: 0 <= i < r ==> LexLe(ws[i], x)
    ensures SortedLex(ws) ==> forall i :: r <= i < |ws| ==> LexLess(x, ws[i])
  {
    if ws == [] then 0
    else if !LexLe(ws[0], x) then
      AboveFirst(ws, x);
      0
    else
      SortedTail(ws);
      1 + BisectRight(ws[1..], x)
  }

  lemma SortedTail(ws: seq<string>)
    requires ws != []
    ensures SortedLex(ws) ==> SortedLex(ws[1..])
  {
    if SortedLex(ws) {
      forall i, j | 0 <= i < j < |ws[1..]| ensures LexLe(ws[1..][i], ws[1..][j]) {
        assert ws[1..][i] == ws[i + 1] && ws[1..][j] == ws[j + 1];
      }
    }
  }

  lemma LexLeTransitive(a: string, b: string, c: string)
    requires LexLe(a, b) && LexLe(b, c)
    ensures LexLe(a, c)
  {
    if a != b && b != c {
      LexLessTransitive(a, b, c);
    }
  }

  lemma BelowFirst(ws: seq<string>, x: string)
    requires ws != [] && !LexLess(ws[0], x)
    ensures SortedLex(ws) ==> forall i :: 0 <= i < |ws| ==> LexLe(x, ws[i])
  {
    LexLessTotal(ws[0], x);
    if SortedLex(ws) {
      forall i | 0 <= i < |ws| ensures LexLe(x, ws[i]) {
        if i > 0 {
          LexLeTransitive(x, ws[0], ws[i]);
        }
      }
    }
  }

  lemma AboveFirst(ws: seq<string>, x: string)
    requires ws != [] && !LexLe(ws[0], x)
    ensures SortedLex(ws) ==> forall i :: 0 <= i < |ws| ==> LexLess(x, ws[i])
  {
    LexLessTotal(ws[0], x);
    if SortedLex(ws) {
      forall i | 0 <= i < |ws| ensures LexLess(x, ws[i]) {
        if i > 0 && ws[0] != ws[i] {
          LexLessTransitive(x, ws[0], ws[i]);
        }
      }
    }
  }

  /** The upper bound of every prefix lookup. */
  function Zzzz(prefix: string): string { prefix + "zzzz" }

  /** A string that starts with `p` is not below `p`. */
  lemma {:induction false} PrefixNotBelow(w: string, p: string)
    requires StartsWith(w, p)
    ensures LexLe(p, w)
    ensures w != p ==> LexLess(p, w)
  {
    if p != [] {
      assert StartsWith(w[1..], p[1..]);
      PrefixNotBelow(w[1..], p[1..]);
      assert w == [w[0]] + w[1..] && p == [p[0]] + p[1..];
    }
  }

  /** Everything between `p` and `p + 'zzzz'` starts with `p`: the soundness of
      the lookup range. */
  lemma {:induction false} BetweenStartsWith(w: string, p: string, tail: string)
    requires LexLe(p, w) && LexLe(w, p + tail)
    ensures StartsWith(w, p)
  {
    if p != [] {
      assert (p + tail)[1..] == p[1..] + tail;
      if w != [] && w[0] == p[0] {
        BetweenStartsWith(w[1..], p[1..], tail);
        assert w[..|p|] == [w[0]] + w[1..][..|p| - 1];
        assert p == [p[0]] + p[1..];
      }
    }
  }

  /** Comparing a word that starts with `p` against `p + tail` compares what
      follows `p` against `tail`. */
  lemma {:induction false} CommonPrefixCompare(w: string, p: string, tail: string)
    requires StartsWith(w, p)
    ensures LexLe(w, p + tail) <==> LexLe(w[|p|..], tail)
  {
    if p != [] {
      assert (p + tail)[1..] == p[1..] + tail;
      assert StartsWith(w[1..], p[1..]);
      CommonPrefixCompare(w[1..], p[1..], tail);
      assert w[1..][|p| - 1..] == w[|p|..];
      if w == p + tail {
        assert w[|p|..] == tail;
      }
      if w[|p|..] == tail {
        assert w == w[..|p|] + w[|p|..];
      }
      if w[1..] == p[1..] + tail {
        assert w == [w[0]] + w[1..];
      }
    } else {
      assert p + tail == tail;
    }
  }

  /** The lookup range holds exactly the words that start with `p` and do not
      continue it with more than `'zzzz'`. */
  lemma InLookupRange(w: string, p: string)
    ensures LexLe(p, w) && LexLe(w, Zzzz(p)) <==> StartsWith(w, p) && LexLe(w[|p|..], "zzzz")
  {
    if LexLe(p, w) && LexLe(w, Zzzz(p)) {
      BetweenStartsWith(w, p, "zzzz");
    }
    if StartsWith(w, p) {
      PrefixNotBelow(w, p);
      CommonPrefixCompare(w, p, "zzzz");
    }
  }

  /** A word that continues `p` with `'zzzz'` and then more letters lies above
      the range. */
  lemma PastZzzz(w: string, p: string)
    requires StartsWith(w, Zzzz(p)) && |w| > |p| + 4
    ensures !LexLe(w, Zzzz(p))
  {
    PrefixNotBelow(w, Zzzz(p));
    LexLessAsymmetric(Zzzz(p), w);
  }

  /** In a sorted list, the slice between the two bisections holds exactly the
      words of the range. */
  lemma SliceMembers(ws: seq<string>, lo: string, hi: string, lowInclusive: bool, w: string)
    requires SortedLex(ws)
    ensures var a := if lowInclusive then BisectLeft(ws, lo) else BisectRight(ws, lo);
            var b := BisectRight(ws, hi);
            a <= b ==> (w in ws[a..b] <==> w in ws && (if lowInclusive then LexLe(lo, w) else LexLess(lo, w)) && LexLe(w, hi))
  {
    var a := if lowInclusive then BisectLeft(ws, lo) else BisectRight(ws, lo);
    var b := BisectRight(ws, hi);
    if a <= b {
      if w in ws[a..b] {
        var i := SlicePick(ws, a, b, w);
        LowAt(ws, lo, lowInclusive, i);
        HighAt(ws, hi, i);
      }
      if w in ws && (if lowInclusive then LexLe(lo, w) else LexLess(lo, w)) && LexLe(w, hi) {
        var i := SlicePick(ws, 0, |ws|, w);
        LowAt(ws, lo, lowInclusive, i);
        HighAt(ws, hi, i);
        SliceAt(ws, a, b, i);
      }
    }
  }

  /** A position of `w` in the slice `s[a..b]`. */
  lemma SlicePick<T>(s: seq<T>, a: int, b: int, w: T) returns (i: int)
    requires 0 <= a <= b <= |s| && w in s[a..b]
    ensures a <= i < b && s[i] == w
  {
    var j :| 0 <= j < b - a && s[a..b][j] == w;
    i := a + j;
  }

  /** The element at a position of the slice `s[a..b]` is in the slice. */
  lemma SliceAt<T>(s: seq<T>, a: int, b: int, i: int)
    requires 0 <= a <= i < b <= |s|
    ensures s[i] in s[a..b]
  {
    assert s[a..b][i - a] == s[i];
  }

  /** Position `i` is at or past the lower bisection exactly when its word
      is above `lo`. */
  lemma LowAt(ws: seq<string>, lo: string, lowInclusive: bool, i: int)
    requires SortedLex(ws) && 0 <= i < |ws|
    ensures var a := if lowInclusive then BisectLeft(ws, lo) else BisectRight(ws, lo);
            a <= i <==> if lowInclusive then LexLe(lo, ws[i]) else LexLess(lo, ws[i])
  {
    if lowInclusive {
      if i < BisectLeft(ws, lo) {
        LexLessAsymmetric(ws[i], lo);
      }
    } else {
      if i < BisectRight(ws, lo) {
        if ws[i] == lo {
          LexLessIrreflexive(lo);
        } else {
          LexLessAsymmetric(ws[i], lo);
        }
      }
    }
  }

  /** Position `i` is before the upper bisection exactly when its word is at
      most `hi`. */
  lemma HighAt(ws: seq<string>, hi: string, i: int)
    requires SortedLex(ws) && 0 <= i < |ws|
    ensures i < BisectRight(ws, hi) <==> LexLe(ws[i], hi)
  {
    if i >= BisectRight(ws, hi) {
      LexLessAsymmetric(hi, ws[i]);
    }
  }

  /** The lower bound never passes the upper one. */
  lemma BisectOrdered(ws: seq<string>, lo: string, hi: string, lowInclusive: bool)
    requires SortedLex(ws) && LexLe(lo, hi)
    ensures (if lowInclusive then BisectLeft(ws, lo) else BisectRight(ws, lo)) <= BisectRight(ws, hi)
  {
    var a := if lowInclusive then BisectLeft(ws, lo) else BisectRight(ws, lo);
    var b := BisectRight(ws, hi);
    if b < a {
      if lowInclusive {
        LexLessAsymmetric(ws[b], lo);
        LexLeTransitive(ws[b], lo, hi);
      } else {
        LexLeTransitive(ws[b], lo, hi);
      }
      LexLessAsymmetric(hi, ws[b]);
    }
  }

  lemma ZzzzAbove(p: string)
    ensures LexLe(p, Zzzz(p)) && LexLess(p, Zzzz(p))
  {
    assert StartsWith(Zzzz(p), p);
    PrefixNotBelow(Zzzz(p), p);
  }
}
