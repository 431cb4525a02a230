/** Definitions shared by the models of the individual scripts: error results,
    Python-style strings, slices, splitting and ordering, and the permutation
    oracle that stands in for `random.shuffle` / `random.sample`. */
module Common {

  datatype Option<T> = None | Some(value: T)

  /** The outcome of a Python call that may raise: `Error` names the exception. */
  datatype Result<T> = Ok(value: T) | Error(exc: string)

  // ---------------------------------------------------------------- sequences

  /** `x[::-1]` */
  function Rev<T>(s: seq<T>): (r: seq<T>)
    ensures |r| == |s|
    ensures forall i :: 0 <= i < |s| ==> r[i] == s[|s| - 1 - i]
  {
    if s == [] then [] else Rev(s[1..]) + [s[0]]
  }

  /** Reversal keeps the members. */
  lemma RevMember<T>(s: seq<T>, x: T)
    ensures x in Rev(s) <==> x in s
  {
    if x in s {
      var i :| 0 <= i < |s| && s[i] == x;
      assert Rev(s)[|s| - 1 - i] == x;
    }
  }

  lemma RevRev<T>(s: seq<T>)
    ensures Rev(Rev(s)) == s
  {
    assert forall i :: 0 <= i < |s| ==> Rev(Rev(s))[i] == s[i];
  }

  lemma RevAppend<T>(a: seq<T>, b: seq<T>)
    ensures Rev(a + b) == Rev(b) + Rev(a)
  {
    assert forall i :: 0 <= i < |a + b| ==> Rev(a + b)[i] == (Rev(b) + Rev(a))[i];
  }

  predicate IsPalindrome<T(==)>(s: seq<T>) { s == Rev(s) }

  /** `''.join(ws)` */
  function Concat(ws: seq<string>): (r: string)
    ensures |r| == SumLengths(ws)
  {
    if ws == [] then [] else ws[0] + Concat(ws[1..])
  }

  function SumLengths(ws: seq<string>): nat
  {
    if ws == [] then 0 else |ws[0]| + SumLengths(ws[1..])
  }

  lemma {:induction false} ConcatAppend(a: seq<string>, b: seq<string>)
    ensures Concat(a + b) == Concat(a) + Concat(b)
  {
    if a == [] {
      assert a + b == b;
    } else {
      assert (a + b)[1..] == a[1..] + b;
      ConcatAppend(a[1..], b);
    }
  }

  lemma ConcatSingle(w: string)
    ensures Concat([w]) == w
  {
    assert [w][1..] == [];
  }

  lemma ConcatCons(w: string, ws: seq<string>)
    ensures Concat([w] + ws) == w + Concat(ws)
  {
    assert ([w] + ws)[1..] == ws;
  }

  lemma ConcatSnoc(ws: seq<string>, w: string)
    ensures Concat(ws + [w]) == Concat(ws) + w
  {
    ConcatAppend(ws, [w]);
    ConcatSingle(w);
  }

  predicate StartsWith<T(==)>(s: seq<T>, p: seq<T>) { |p| <= |s| && s[..|p|] == p }

  predicate EndsWith<T(==)>(s: seq<T>, q: seq<T>) { |q| <= |s| && s[|s| - |q|..] == q }

  lemma EndsWithRev<T>(s: seq<T>, q: seq<T>)
    ensures EndsWith(s, q) <==> StartsWith(Rev(s), Rev(q))
  {
    if EndsWith(s, q) {
      assert Rev(s)[..|q|] == Rev(q);
    }
    if StartsWith(Rev(s), Rev(q)) {
      forall i | 0 <= i < |q|
        ensures s[|s| - |q|..][i] == q[i]
      {
        assert Rev(s)[|q| - 1 - i] == Rev(q)[|q| - 1 - i];
      }
    }
  }

  /** No element occurs twice. */
  predicate Distinct<T(==)>(s: seq<T>) { forall i, j :: 0 <= i < j < |s| ==> s[i] != s[j] }

  function ToSet<T>(s: seq<T>): set<T> { set x | x in s }

  lemma {:induction false} DistinctCardinality<T>(s: seq<T>)
    ensures |ToSet(s)| <= |s|
    ensures Distinct(s) <==> |ToSet(s)| == |s|
  {
    if s != [] {
      DistinctCardinality(s[1..]);
      assert ToSet(s) == {s[0]} + ToSet(s[1..]);
      if s[0] in s[1..] {
        assert ToSet(s) == ToSet(s[1..]);
        var k :| 0 <= k < |s[1..]| && s[1..][k] == s[0];
        assert s[0] == s[k + 1];
      } else {
        assert Distinct(s) <==> Distinct(s[1..]);
      }
    }
  }

  lemma {:induction false} DistinctCount<T>(s: seq<T>, x: T)
    requires Distinct(s)
    ensures multiset(s)[x] == if x in s then 1 else 0
  {
    if s != [] {
      assert s == [s[0]] + s[1..];
      DistinctCount(s[1..], x);
      assert forall k :: 0 <= k < |s[1..]| ==> s[1..][k] == s[k + 1] != s[0];
    }
  }

  /** The first present element: a loop that stops at its first success. */
  function FirstSome<T>(xs: seq<Option<T>>): Option<T>
  {
    if xs == [] then None else if xs[0].Some? then xs[0] else FirstSome(xs[1..])
  }

  /** The scan succeeds exactly when some element is present, and then it
      returns the first one. */
  lemma {:induction false} FirstSomeIsFirst<T>(xs: seq<Option<T>>)
    ensures FirstSome(xs).Some? <==> exists j :: 0 <= j < |xs| && xs[j].Some?
    ensures FirstSome(xs).Some? ==>
      exists j :: 0 <= j < |xs| && FirstSome(xs) == xs[j] && forall i :: 0 <= i < j ==> xs[i].None?
  {
    if xs != [] {
      FirstSomeIsFirst(xs[1..]);
      if xs[0].Some? {
        assert FirstSome(xs) == xs[0];
      } else {
        if j :| 0 <= j < |xs| && xs[j].Some? {
          assert xs[1..][j - 1] == xs[j];
        }
        if FirstSome(xs).Some? {
          var j :| 0 <= j < |xs[1..]| && FirstSome(xs[1..]) == xs[1..][j] && forall i :: 0 <= i < j ==> xs[1..][i].None?;
          assert forall i :: 0 < i < j + 1 ==> xs[i] == xs[1..][i - 1];
          assert FirstSome(xs) == xs[j + 1];
        }
      }
    }
  }

  /** `sum(f(x) for x in s)`. */
  function Total<T>(f: T -> nat, s: seq<T>): nat
  {
    if s == [] then 0 else f(s[0]) + Total(f, s[1..])
  }

  /** Replacing one element changes the total by the difference of its terms. */
  lemma {:induction false} TotalUpdate<T>(f: T -> nat, s: seq<T>, i: nat, v: T)
    requires i < |s|
    ensures Total(f, s[i := v]) == Total(f, s) - f(s[i]) + f(v)
  {
    if i == 0 {
      assert s[i := v][1..] == s[1..];
    } else {
      TotalUpdate(f, s[1..], i - 1, v);
      assert s[i := v][1..] == s[1..][i - 1 := v];
    }
  }

  /** Two duplicate-free sequences with the same elements are permutations
      of each other. */
  lemma SameElements<T>(a: seq<T>, b: seq<T>)
    requires Distinct(a) && Distinct(b) && ToSet(a) == ToSet(b)
    ensures multiset(a) == multiset(b)
  {
    forall x ensures multiset(a)[x] == multiset(b)[x] {
      assert x in a <==> x in b by {
        assert x in a <==> x in ToSet(a);
        assert x in b <==> x in ToSet(b);
      }
      DistinctCount(a, x);
      DistinctCount(b, x);
    }
  }

  /** The elements `p` keeps, in order: `[x for x in s if p(x)]`. */
  function Filter<T>(p: T -> bool, s: seq<T>): (r: seq<T>)
    ensures |r| <= |s|
  {
    if s == [] then [] else (if p(s[0]) then [s[0]] else []) + Filter(p, s[1..])
  }

  lemma {:induction false} FilterMembers<T>(p: T -> bool, s: seq<T>, x: T)
    ensures x in Filter(p, s) <==> x in s && p(x)
  {
    if s != [] {
      FilterMembers(p, s[1..], x);
      assert s == [s[0]] + s[1..];
    }
  }

  lemma {:induction false} FilterAppend<T>(p: T -> bool, a: seq<T>, b: seq<T>)
    ensures Filter(p, a + b) == Filter(p, a) + Filter(p, b)
  {
    if a != [] {
      assert (a + b)[1..] == a[1..] + b;
      FilterAppend(p, a[1..], b);
    } else {
      assert a + b == b;
    }
  }

  /** Every element a filter keeps passes it. */
  lemma {:induction false} FilterPasses<T>(p: T -> bool, s: seq<T>)
    ensures forall i :: 0 <= i < |Filter(p, s)| ==> p(Filter(p, s)[i])
  {
    var r := Filter(p, s);
    forall i | 0 <= i < |r| ensures p(r[i]) {
      assert r[i] in r;
      FilterMembers(p, s, r[i]);
    }
  }

  /** Filtering commutes with reversal. */
  lemma {:induction false} FilterRev<T>(p: T -> bool, s: seq<T>)
    ensures Filter(p, Rev(s)) == Rev(Filter(p, s))
  {
    if s != [] {
      FilterRev(p, s[1..]);
      assert Rev(s) == Rev(s[1..]) + [s[0]];
      FilterAppend(p, Rev(s[1..]), [s[0]]);
      assert Filter(p, [s[0]]) == if p(s[0]) then [s[0]] else [];
      RevAppend(if p(s[0]) then [s[0]] else [], Filter(p, s[1..]));
    }
  }

  /** One step of the filter. */
  lemma FilterHead<T>(p: T -> bool, s: seq<T>)
    requires s != []
    ensures Filter(p, s) == (if p(s[0]) then [s[0]] else []) + Filter(p, s[1..])
  {
  }

  lemma {:induction false} FilterAgree<T>(p: T -> bool, q: T -> bool, s: seq<T>)
    requires forall i :: 0 <= i < |s| ==> p(s[i]) == q(s[i])
    ensures Filter(p, s) == Filter(q, s)
  {
    if s != [] {
      FilterAgree(p, q, s[1..]);
    }
  }

  lemma {:induction false} FilterKeepsAll<T>(p: T -> bool, s: seq<T>)
    requires forall i :: 0 <= i < |s| ==> p(s[i])
    ensures Filter(p, s) == s
  {
    if s != [] {
      FilterKeepsAll(p, s[1..]);
    }
  }

  lemma {:induction false} FilterDropsAll<T>(p: T -> bool, s: seq<T>)
    requires forall i :: 0 <= i < |s| ==> !p(s[i])
    ensures Filter(p, s) == []
  {
    if s != [] {
      FilterDropsAll(p, s[1..]);
    }
  }

  /** Keeping exactly the `j`-th element leaves it alone. */
  lemma {:induction false} FilterOne<T>(p: T -> bool, s: seq<T>, j: nat)
    requires j < |s| && p(s[j])
    requires forall i :: 0 <= i < |s| && i != j ==> !p(s[i])
    ensures Filter(p, s) == [s[j]]
  {
    var pre, post := s[..j], s[j + 1..];
    assert Filter(p, pre) == [] by {
      assert forall i :: 0 <= i < |pre| ==> pre[i] == s[i];
      FilterDropsAll(p, pre);
    }
    assert Filter(p, post) == [] by {
      assert forall i :: 0 <= i < |post| ==> post[i] == s[j + 1 + i];
      FilterDropsAll(p, post);
    }
    FilterAround(p, s, j);
  }

  /** Filtering out exactly the `j`-th element deletes it. */
  lemma {:induction false} FilterDropsOne<T>(p: T -> bool, s: seq<T>, j: nat)
    requires j < |s| && !p(s[j])
    requires forall i :: 0 <= i < |s| && i != j ==> p(s[i])
    ensures Filter(p, s) == s[..j] + s[j + 1..]
  {
    var pre, post := s[..j], s[j + 1..];
    assert Filter(p, pre) == pre by {
      assert forall i :: 0 <= i < |pre| ==> pre[i] == s[i];
      FilterKeepsAll(p, pre);
    }
    assert Filter(p, post) == post by {
      assert forall i :: 0 <= i < |post| ==> post[i] == s[j + 1 + i];
      FilterKeepsAll(p, post);
    }
    assert Filter(p, s) == Filter(p, pre) + Filter(p, post) by {
      FilterAround(p, s, j);
      assert Filter(p, pre) + [] == Filter(p, pre);
    }
  }

  /** Deleting the `j`-th element of a duplicate-free sequence removes exactly
      that value. */
  lemma WithoutMembers<T>(u: seq<T>, j: nat, x: T)
    requires j < |u| && Distinct(u)
    ensures x in u[..j] + u[j + 1..] <==> x in u && x != u[j]
  {
    assert u == u[..j] + [u[j]] + u[j + 1..];
    if x in u[..j] + u[j + 1..] {
      var k :| 0 <= k < |u[..j] + u[j + 1..]| && (u[..j] + u[j + 1..])[k] == x;
      if k < j {
        assert x == u[k];
      } else {
        assert x == u[k + 1];
      }
    }
  }

  lemma {:induction false} FilterAround<T>(p: T -> bool, s: seq<T>, j: nat)
    requires j < |s|
    ensures Filter(p, s) == Filter(p, s[..j]) + (if p(s[j]) then [s[j]] else []) + Filter(p, s[j + 1..])
  {
    assert s == s[..j] + [s[j]] + s[j + 1..];
    FilterAppend(p, s[..j] + [s[j]], s[j + 1..]);
    FilterAppend(p, s[..j], [s[j]]);
    assert Filter(p, [s[j]]) == (if p(s[j]) then [s[j]] else []) + Filter(p, []);
  }

  // -------------------------------------------------------------- characters

  predicate IsUpper(c: char) { 'A' <= c <= 'Z' }
  predicate IsLower(c: char) { 'a' <= c <= 'z' }
  predicate IsLetter(c: char) { IsUpper(c) || IsLower(c) }
  predicate IsDigit(c: char) { '0' <= c <= '9' }

  /** ASCII `str.lower` on one character. */
  function Lower(c: char): (r: char)
    ensures IsUpper(c) ==> IsLower(r) && r as int == c as int + 32
    ensures !IsUpper(c) ==> r == c
  {
    if IsUpper(c) then (c as int + 32) as char else c
  }

  /** ASCII `str.upper` on one character. */
  function Upper(c: char): (r: char)
    ensures IsLower(c) ==> IsUpper(r) && r as int == c as int - 32
    ensures !IsLower(c) ==> r == c
  {
    if IsLower(c) then (c as int - 32) as char else c
  }

  function LowerStr(s: string): (r: string)
    ensures |r| == |s| && forall i :: 0 <= i < |s| ==> r[i] == Lower(s[i])
  {
    seq(|s|, i requires 0 <= i < |s| => Lower(s[i]))
  }

  function UpperStr(s: string): (r: string)
    ensures |r| == |s| && forall i :: 0 <= i < |s| ==> r[i] == Upper(s[i])
  {
    seq(|s|, i requires 0 <= i < |s| => Upper(s[i]))
  }

  /** Whitespace as Python's `str.isspace` sees it. */
  predicate IsSpace(c: char)
  {
    var n := c as int;
    (9 <= n <= 13) || (28 <= n <= 32) || n == 0x85 || n == 0xA0 || n == 0x1680
    || (0x2000 <= n <= 0x200A) || n == 0x2028 || n == 0x2029 || n == 0x202F
    || n == 0x205F || n == 0x3000
  }

  // ----------------------------------------------------- canonical forms

  /** Delete every character that `keep` rejects and lower-case the rest: the
      shape shared by the three `canonical`/`letters` functions of the palindrome
      programs, which differ only in which characters they keep. */
  function Canonical(keep: char -> bool, s: string): (r: string)
    ensures |r| <= |s|
    ensures forall i :: 0 <= i < |r| ==> !IsUpper(r[i])
    ensures (forall c :: keep(c) ==> keep(Lower(c))) ==> forall i :: 0 <= i < |r| ==> keep(r[i])
  {
    if s == [] then [] else (if keep(s[0]) then [Lower(s[0])] else []) + Canonical(keep, s[1..])
  }

  lemma {:induction false} CanonicalAppend(keep: char -> bool, a: string, b: string)
    ensures Canonical(keep, a + b) == Canonical(keep, a) + Canonical(keep, b)
  {
    if a != [] {
      assert (a + b)[1..] == a[1..] + b;
      CanonicalAppend(keep, a[1..], b);
    } else {
      assert a + b == b;
    }
  }

  /** Canonicalising twice changes nothing when lowering a kept character keeps it. */
  lemma {:induction false} CanonicalIdempotent(keep: char -> bool, s: string)
    requires forall c :: keep(c) ==> keep(Lower(c))
    ensures Canonical(keep, Canonical(keep, s)) == Canonical(keep, s)
  {
    if s != [] {
      var head := if keep(s[0]) then [Lower(s[0])] else [];
      CanonicalAppend(keep, head, Canonical(keep, s[1..]));
      CanonicalIdempotent(keep, s[1..]);
      if keep(s[0]) {
        assert head[1..] == [];
        assert Canonical(keep, head) == [Lower(Lower(s[0]))] + Canonical(keep, []);
      }
    }
  }

  /** Canonicalising deletes exactly the rejected characters and lower-cases
      what is left. */
  lemma {:induction false} CanonicalIsLowerFilter(keep: char -> bool, s: string)
    ensures Canonical(keep, s) == LowerStr(Filter(keep, s))
  {
    if s != [] {
      CanonicalIsLowerFilter(keep, s[1..]);
      var head := if keep(s[0]) then [s[0]] else [];
      LowerStrAppend(head, Filter(keep, s[1..]));
    }
  }

  lemma LowerStrAppend(a: string, b: string)
    ensures LowerStr(a + b) == LowerStr(a) + LowerStr(b)
  {
  }

  /** A string whose characters are all kept is only lower-cased. */
  lemma {:induction false} CanonicalKeepsAll(keep: char -> bool, s: string)
    requires forall i :: 0 <= i < |s| ==> keep(s[i])
    ensures Canonical(keep, s) == LowerStr(s)
  {
    if s != [] {
      CanonicalKeepsAll(keep, s[1..]);
      assert LowerStr(s) == [Lower(s[0])] + LowerStr(s[1..]);
    }
  }

  /** A string whose characters are all rejected vanishes. */
  lemma {:induction false} CanonicalDropsAll(keep: char -> bool, s: string)
    requires forall i :: 0 <= i < |s| ==> !keep(s[i])
    ensures Canonical(keep, s) == []
  {
    if s != [] {
      CanonicalDropsAll(keep, s[1..]);
    }
  }

  lemma {:induction false} CanonicalRev(keep: char -> bool, s: string)
    ensures Canonical(keep, Rev(s)) == Rev(Canonical(keep, s))
  {
    if s != [] {
      CanonicalRev(keep, s[1..]);
      assert Rev(s) == Rev(s[1..]) + [s[0]];
      CanonicalAppend(keep, Rev(s[1..]), [s[0]]);
      var head := if keep(s[0]) then [Lower(s[0])] else [];
      assert Canonical(keep, [s[0]]) == head + Canonical(keep, []);
      RevAppend(head, Canonical(keep, s[1..]));
      assert Rev(head) == head;
    }
  }

  // ------------------------------------------------------------------ slices

  /** Python's normalisation of one slice bound against a length `n`. */
  function SliceBound(i: int, n: nat): (r: nat)
    ensures r <= n
    ensures 0 <= i <= n ==> r == i
    ensures i < 0 && -i <= n ==> r == n + i
  {
    if i < 0 then (if n + i < 0 then 0 else n + i) else if i > n then n else i
  }

  /** `s[i:j]` with Python's treatment of negative and out-of-range bounds. */
  function Slice<T>(s: seq<T>, i: int, j: int): (r: seq<T>)
    ensures |r| <= |s|
    ensures 0 <= i <= j <= |s| ==> r == s[i..j]
    ensures 0 <= j <= i ==> r == []
  {
    var a := SliceBound(i, |s|);
    var b := SliceBound(j, |s|);
    if a < b then s[a..b] else []
  }

  /** `s[i:]` */
  function From<T>(s: seq<T>, i: int): (r: seq<T>)
    ensures 0 <= i <= |s| ==> r == s[i..]
    ensures i >= |s| ==> r == []
    ensures i < 0 && -i <= |s| ==> r == s[|s| + i..]
  {
    Slice(s, i, |s|)
  }

  /** `s[:j]` */
  function Upto<T>(s: seq<T>, j: int): (r: seq<T>)
    ensures 0 <= j <= |s| ==> r == s[..j]
    ensures j >= |s| ==> r == s
    ensures j < 0 && -j <= |s| ==> r == s[..|s| + j]
  {
    Slice(s, 0, j)
  }

  // --------------------------------------------------------------- splitting

  /** `sep.join(ws)` */
  function Join(ws: seq<string>, sep: string): string
  {
    if ws == [] then [] else if |ws| == 1 then ws[0] else ws[0] + sep + Join(ws[1..], sep)
  }

  /** `s.split(sep)` for a non-empty separator: scans left to right, cutting at
      every non-overlapping occurrence of `sep`. */
  function Split(s: string, sep: string): (r: seq<string>)
    requires sep != []
    ensures |r| >= 1
    ensures Join(r, sep) == s
    decreases |s|
  {
    if s == [] then [[]]
    else if StartsWith(s, sep) then
      var rest := Split(s[|sep|..], sep);
      JoinEmptyHead(rest, sep);
      assert s == sep + s[|sep|..];
      [[]] + rest
    else
      var rest := Split(s[1..], sep);
      JoinGrowHead([s[0]], rest, sep);
      assert s == [s[0]] + s[1..];
      [[s[0]] + rest[0]] + rest[1..]
  }

  /** An empty first part joins to the separator in front. */
  lemma JoinEmptyHead(ws: seq<string>, sep: string)
    requires |ws| >= 1
    ensures Join([[]] + ws, sep) == sep + Join(ws, sep)
  {
    assert ([[]] + ws)[1..] == ws;
  }

  /** Text put before the first part is put before the whole join. */
  lemma JoinGrowHead(w: string, ws: seq<string>, sep: string)
    requires |ws| >= 1
    ensures Join([w + ws[0]] + ws[1..], sep) == w + Join(ws, sep)
  {
    var r := [w + ws[0]] + ws[1..];
    assert r[1..] == ws[1..];
    if |ws| > 1 {
      assert Join(r, sep) == (w + ws[0]) + sep + Join(ws[1..], sep);
    }
  }

  lemma SplitWithoutSeparator(s: string, sep: char)
    requires sep !in s
    ensures Split(s, [sep]) == [s]
  {
    if s != [] {
      assert !StartsWith(s, [sep]) by { assert s[0] != sep; }
      SplitWithoutSeparator(s[1..], sep);
    }
  }

  /** Trailing and leading whitespace removed: `s.strip()`. */
  function Strip(s: string): (r: string)
    ensures |r| <= |s|
    ensures r != [] ==> !IsSpace(r[0]) && !IsSpace(r[|r| - 1])
    ensures var k := |s| - |TrimLeft(s)|; k + |r| <= |s| && r == s[k..k + |r|]
    ensures forall i :: 0 <= i < |s| - |TrimLeft(s)| ==> IsSpace(s[i])
    ensures forall i :: |s| - |TrimLeft(s)| + |r| <= i < |s| ==> IsSpace(s[i])
  {
    TrimRight(TrimLeft(s))
  }

  function TrimLeft(s: string): (r: string)
    ensures |r| <= |s| && r == s[|s| - |r|..]
    ensures r != [] ==> !IsSpace(r[0])
    ensures forall i :: 0 <= i < |s| - |r| ==> IsSpace(s[i])
  {
    if s != [] && IsSpace(s[0]) then TrimLeft(s[1..]) else s
  }

  function TrimRight(s: string): (r: string)
    ensures |r| <= |s| && r == s[..|r|]
    ensures r != [] ==> !IsSpace(r[|r| - 1])
    ensures forall i :: |r| <= i < |s| ==> IsSpace(s[i])
    ensures s != [] && !IsSpace(s[0]) ==> r != [] && r[0] == s[0]
  {
    if s != [] && IsSpace(s[|s| - 1]) then TrimRight(s[..|s| - 1]) else s
  }

  // ---------------------------------------------------------------- ordering

  /** Python's `<` on strings: lexicographic by code point. */
  predicate LexLess(a: string, b: string)
  {
    if a == [] then b != []
    else if b == [] then false
    else if a[0] != b[0] then a[0] < b[0]
    else LexLess(a[1..], b[1..])
  }

  predicate LexLe(a: string, b: string) { a == b || LexLess(a, b) }

  lemma LexLessIrreflexive(a: string)
    ensures !LexLess(a, a)
  {
  }

  lemma {:induction false} LexLessTransitive(a: string, b: string, c: string)
    requires LexLess(a, b) && LexLess(b, c)
    ensures LexLess(a, c)
  {
    if a != [] && b != [] && c != [] && a[0] == b[0] && b[0] == c[0] {
      LexLessTransitive(a[1..], b[1..], c[1..]);
    }
  }

  lemma {:induction false} LexLessTotal(a: string, b: string)
    ensures a == b || LexLess(a, b) || LexLess(b, a)
  {
    if a != [] && b != [] && a[0] == b[0] {
      LexLessTotal(a[1..], b[1..]);
      if a[1..] == b[1..] {
        assert a == [a[0]] + a[1..] && b == [b[0]] + b[1..];
      }
    }
  }

  lemma {:induction false} LexLessAsymmetric(a: string, b: string)
    requires LexLess(a, b)
    ensures !LexLess(b, a)
  {
    if a != [] && b != [] && a[0] == b[0] {
      LexLessAsymmetric(a[1..], b[1..]);
    }
  }

  predicate SortedLex(ws: seq<string>)
  {
    forall i, j :: 0 <= i < j < |ws| ==> LexLe(ws[i], ws[j])
  }

  // --------------------------------------------------- randomness as oracles

  /** `p` lists each of 0..n-1 exactly once. */
  predicate IsPermutation(p: seq<nat>, n: nat)
  {
    && |p| == n
    && (forall i :: 0 <= i < n ==> p[i] < n)
    && (forall i, j :: 0 <= i < j < n ==> p[i] != p[j])
  }

  /** An unspecified permutation of 0..n-1: the oracle's proposal `p` when it is
      one, the identity otherwise. Every permutation is some oracle's answer,
      so this covers every outcome of `random.shuffle`. */
  function AsPermutation(p: seq<nat>, n: nat): (r: seq<nat>)
    ensures IsPermutation(r, n)
    ensures IsPermutation(p, n) ==> r == p
  {
    if IsPermutation(p, n) then p else seq(n, i requires 0 <= i < n => i as nat)
  }

  /** An unspecified reordering of `s`, as `random.shuffle` makes it: the
      oracle's proposal `q` when it is one, `s` itself otherwise. */
  function Shuffled<T(==)>(q: seq<T>, s: seq<T>): (r: seq<T>)
    ensures multiset(r) == multiset(s)
    ensures multiset(q) == multiset(s) ==> r == q
  {
    if multiset(q) == multiset(s) then q else s
  }

  /** An unspecified sample of `k` elements of `s` taken without replacement,
      as `random.sample` draws it: the oracle's proposal `q` when it is one,
      the first `k` elements otherwise. */
  function Sampled<T(==)>(q: seq<T>, s: seq<T>, k: nat): (r: seq<T>)
    requires k <= |s|
    ensures |r| == k && multiset(r) <= multiset(s)
    ensures |q| == k && multiset(q) <= multiset(s) ==> r == q
  {
    if |q| == k && multiset(q) <= multiset(s) then q
    else
      assert s == s[..k] + s[k..];
      s[..k]
  }

  lemma SumLengthsSnoc(ws: seq<string>, w: string)
    ensures SumLengths(ws + [w]) == SumLengths(ws) + |w|
  {
    ConcatSnoc(ws, w);
  }

  /** Placing a word not already among `a + b` between them keeps them distinct. */
  lemma PlaceDistinct(a: seq<string>, b: seq<string>, w: string)
    requires Distinct(a + b) && w !in ToSet(a + b)
    ensures Distinct(a + [w] + b) && ToSet(a + [w] + b) == ToSet(a + b) + {w}
  {
    var s := a + [w] + b;
    forall i, j | 0 <= i < j < |s| ensures s[i] != s[j] {
      if i == |a| {
        assert s[j] == (a + b)[j - 1];
      } else if j == |a| {
        assert s[i] == (a + b)[i];
      } else {
        var i' := if i < |a| then i else i - 1;
        var j' := if j < |a| then j else j - 1;
        assert s[i] == (a + b)[i'] && s[j] == (a + b)[j'];
      }
    }
  }

  lemma AppendAssoc<T>(a: seq<T>, b: seq<T>, c: seq<T>)
    ensures a + b + c == a + (b + c)
  {
  }

  /** An element of either part is an element of the concatenation. */
  lemma InAppend<T>(x: T, a: seq<T>, b: seq<T>)
    ensures x in a + b <==> x in a || x in b
  {
  }

  /** Appending a word not already in `a` keeps it distinct. */
  lemma AppendDistinct(a: seq<string>, w: string)
    requires Distinct(a) && w !in ToSet(a)
    ensures Distinct(a + [w]) && ToSet(a + [w]) == ToSet(a) + {w}
  {
    assert a + [] == a;
    PlaceDistinct(a, [], w);
    assert a + [w] + [] == a + [w];
  }

  /** Taking a word out of a distinct sequence leaves the rest distinct. */
  lemma UnplaceDistinct(a: seq<string>, b: seq<string>, w: string)
    requires Distinct(a + [w] + b)
    ensures Distinct(a + b) && w !in ToSet(a + b) && ToSet(a + [w] + b) - {w} == ToSet(a + b)
  {
    var s := a + [w] + b;
    forall i, j | 0 <= i < j < |a + b| ensures (a + b)[i] != (a + b)[j] {
      var i' := if i < |a| then i else i + 1;
      var j' := if j < |a| then j else j + 1;
      assert s[i'] == (a + b)[i] && s[j'] == (a + b)[j];
    }
    forall k | 0 <= k < |a + b| ensures (a + b)[k] != w {
      var k' := if k < |a| then k else k + 1;
      assert s[k'] == (a + b)[k] && s[|a|] == w;
    }
  }
}
