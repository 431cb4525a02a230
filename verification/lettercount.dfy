/** `py/lettercount.py`: letter and n-gram statistics over Google Books word
    counts.  File reading, HTML rendering and printing are outside the
    model; the word counts arrive as already-parsed records. */
module LetterCount {
  import opened Common
  import opened Ngrams

  // ----------------------------------------------------------- histogram

  /** The sum of the second components. */
  function SumVals<K>(items: seq<(K, int)>): int
  {
    if items == [] then 0 else items[0].1 + SumVals(items[1..])
  }

  /** The total of the values paired with key `k`. */
  function CountOf<K(==)>(items: seq<(K, int)>, k: K): int
  {
    if items == [] then 0 else (if items[0].0 == k then items[0].1 else 0) + CountOf(items[1..], k)
  }

  /** The loop of `histogram` (and of the identical `counter`) from
      `items[0]` on, over the `Counter` `C`: `C[key] += val`. */
  function HistogramFrom<K(==)>(items: seq<(K, int)>, C: map<K, int>): map<K, int>
  {
    if items == [] then C
    else
      var k := items[0].0;
      HistogramFrom(items[1..], C[k := (if k in C then C[k] else 0) + items[0].1])
  }

  /** `histogram(items)` and `counter(pairs)` */
  function Histogram<K(==)>(items: seq<(K, int)>): map<K, int>
  {
    HistogramFrom(items, map[])
  }

  lemma {:induction false} HistogramFromCounts<K>(items: seq<(K, int)>, C: map<K, int>, k: K)
    ensures k in HistogramFrom(items, C) <==> k in C || exists i :: 0 <= i < |items| && items[i].0 == k
    ensures k in HistogramFrom(items, C) ==>
              HistogramFrom(items, C)[k] == (if k in C then C[k] else 0) + CountOf(items, k)
  {
    if items != [] {
      var k0 := items[0].0;
      HistogramFromCounts(items[1..], C[k0 := (if k0 in C then C[k0] else 0) + items[0].1], k);
      if exists i :: 0 <= i < |items[1..]| && items[1..][i].0 == k {
        var i :| 0 <= i < |items[1..]| && items[1..][i].0 == k;
        assert items[i + 1].0 == k;
      }
      if exists i :: 0 <= i < |items| && items[i].0 == k {
        var i :| 0 <= i < |items| && items[i].0 == k;
        if i > 0 {
          assert items[1..][i - 1].0 == k;
        }
      }
    }
  }

  /** A key gets an entry exactly when some pair carries it, and the entry is
      the sum of that key's values. */
  lemma HistogramCounts<K>(items: seq<(K, int)>, k: K)
    ensures k in Histogram(items) <==> exists i :: 0 <= i < |items| && items[i].0 == k
    ensures k in Histogram(items) ==> Histogram(items)[k] == CountOf(items, k)
  {
    HistogramFromCounts(items, map[], k);
  }

  /** The entries of `m` for the listed keys, added up. */
  function SumAt<K>(m: map<K, int>, ks: seq<K>): int
    requires ToSet(ks) <= m.Keys
  {
    if ks == [] then 0 else m[ks[0]] + SumAt(m, ks[1..])
  }

  /** `CountOf` summed over the listed keys. */
  function SumCounts<K(==)>(items: seq<(K, int)>, ks: seq<K>): int
  {
    if ks == [] then 0 else CountOf(items, ks[0]) + SumCounts(items, ks[1..])
  }

  /** `v` counted once for each listed key equal to `a`. */
  function Hits<K(==)>(ks: seq<K>, a: K, v: int): int
  {
    if ks == [] then 0 else (if ks[0] == a then v else 0) + Hits(ks[1..], a, v)
  }

  lemma {:induction false} HitsOnce<K>(ks: seq<K>, a: K, v: int)
    requires Distinct(ks) && a in ks
    ensures Hits(ks, a, v) == v
  {
    if ks[0] == a {
      HitsNone(ks[1..], a, v);
    } else {
      HitsOnce(ks[1..], a, v);
    }
  }

  lemma {:induction false} HitsNone<K>(ks: seq<K>, a: K, v: int)
    requires a !in ks
    ensures Hits(ks, a, v) == 0
  {
    if ks != [] {
      HitsNone(ks[1..], a, v);
    }
  }

  lemma {:induction false} SumCountsCons<K>(items: seq<(K, int)>, ks: seq<K>)
    requires items != []
    ensures SumCounts(items, ks) == Hits(ks, items[0].0, items[0].1) + SumCounts(items[1..], ks)
  {
    if ks != [] {
      SumCountsCons(items, ks[1..]);
    }
  }

  /** Summed over a duplicate-free list of keys that covers every pair, the
      per-key counts add up to the sum of all values. */
  lemma {:induction false} SumCountsTotal<K>(items: seq<(K, int)>, ks: seq<K>)
    requires Distinct(ks) && forall i :: 0 <= i < |items| ==> items[i].0 in ks
    ensures SumCounts(items, ks) == SumVals(items)
  {
    if items == [] {
      SumCountsEmpty(ks);
    } else {
      SumCountsCons(items, ks);
      HitsOnce(ks, items[0].0, items[0].1);
      assert forall i :: 0 <= i < |items[1..]| ==> items[1..][i] == items[i + 1];
      SumCountsTotal(items[1..], ks);
    }
  }

  lemma {:induction false} SumCountsEmpty<K>(ks: seq<K>)
    ensures SumCounts([], ks) == 0
  {
    if ks != [] {
      SumCountsEmpty(ks[1..]);
    }
  }

  lemma {:induction false} SumAtCounts<K>(items: seq<(K, int)>, ks: seq<K>)
    requires ToSet(ks) <= Histogram(items).Keys
    ensures SumAt(Histogram(items), ks) == SumCounts(items, ks)
  {
    if ks != [] {
      assert ks[0] in ToSet(ks);
      HistogramCounts(items, ks[0]);
      assert ToSet(ks[1..]) <= ToSet(ks);
      SumAtCounts(items, ks[1..]);
    }
  }

  /** The grand total of a histogram, taken over its keys listed once each,
      equals the sum of the input values. */
  lemma HistogramTotal<K>(items: seq<(K, int)>, ks: seq<K>)
    requires Distinct(ks) && ToSet(ks) == Histogram(items).Keys
    ensures SumAt(Histogram(items), ks) == SumVals(items)
  {
    SumAtCounts(items, ks);
    forall i | 0 <= i < |items| ensures items[i].0 in ks {
      HistogramCounts(items, items[i].0);
      assert items[i].0 in ToSet(ks);
    }
    SumCountsTotal(items, ks);
  }

  // ------------------------------------------------------ read_year_file

  /** `word.isalpha()`: non-empty and all ASCII letters. */
  predicate IsAlpha(w: string)
  {
    w != [] && forall i :: 0 <= i < |w| ==> IsLetter(w[i])
  }

  /** The word field with any `_POS` tag removed: `word[:word.index('_')]`
      when it holds an underscore. */
  function Untagged(w: string): (r: string)
    ensures '_' !in r
    ensures '_' !in w ==> r == w
    ensures '_' in w ==> |r| < |w| && w[..|r|] == r && w[|r|] == '_'
  {
    if w == [] then []
    else if w[0] == '_' then []
    else [w[0]] + Untagged(w[1..])
  }

  /** The key one record contributes to: its untagged word upper-cased, if
      that is all-alphabetic. */
  function Key(w: string): (r: Option<string>)
    ensures r.Some? <==> IsAlpha(Untagged(w))
    ensures r.Some? ==> r.value == UpperStr(Untagged(w))
                        && r.value != [] && forall i :: 0 <= i < |r.value| ==> IsUpper(r.value[i])
  {
    var t := Untagged(w);
    if IsAlpha(t) then Some(UpperStr(t)) else None
  }

  lemma UntaggedCat()
    ensures Untagged("cat_NOUN") == "cat"
  {
    assert "cat_NOUN" == "cat" + "_NOUN";
    UntaggedTag("cat", "_NOUN");
  }

  /** A word followed by a tag is the word. */
  lemma {:induction false} UntaggedTag(w: string, tag: string)
    requires '_' !in w && tag != [] && tag[0] == '_'
    ensures Untagged(w + tag) == w
  {
    if w != [] {
      assert (w + tag)[1..] == w[1..] + tag;
      UntaggedTag(w[1..], tag);
    }
  }

  /** A tagged word loses its tag. */
  lemma KeyTagged()
    ensures Key("cat_NOUN") == Some("CAT")
  {
    UntaggedCat();
    CatUpper();
  }

  lemma CatUpper()
    ensures IsAlpha("cat") && UpperStr("cat") == "CAT"
  {
    assert IsAlpha("cat");
    assert UpperStr("cat") == "CAT";
  }

  /** A word with an apostrophe, or a bare tag, is dropped. */
  lemma KeyDropped()
    ensures Key("don't") == None
    ensures Key("_NOUN") == None
  {
    assert Untagged("don't")[3] == '\'';
  }

  /** One parsed line: the word field and the `word_count` field (`c1`). */
  datatype Record = Record(word: string, c1: int)

  /** The loop of `read_year_file` over parsed lines, starting from `dic`. */
  function ReadYear(lines: seq<Record>, dic: map<string, int>): map<string, int>
  {
    if lines == [] then dic
    else
      match Key(lines[0].word)
      case None => ReadYear(lines[1..], dic)
      case Some(w) => ReadYear(lines[1..], dic[w := (if w in dic then dic[w] else 0) + lines[0].c1])
  }

  /** The `(key, c1)` pairs of the lines that are kept. */
  function Kept(lines: seq<Record>): seq<(string, int)>
  {
    if lines == [] then []
    else (match Key(lines[0].word)
          case None => []
          case Some(w) => [(w, lines[0].c1)]) + Kept(lines[1..])
  }

  /** `read_year_file` is a histogram of the kept lines on top of `dic`. */
  lemma {:induction false} ReadYearHistogram(lines: seq<Record>, dic: map<string, int>)
    ensures ReadYear(lines, dic) == HistogramFrom(Kept(lines), dic)
  {
    if lines != [] {
      KeptCons(lines);
      match Key(lines[0].word)
      case None =>
        ReadYearHistogram(lines[1..], dic);
        assert Kept(lines) == Kept(lines[1..]);
      case Some(w) =>
        ReadYearHistogram(lines[1..], dic[w := (if w in dic then dic[w] else 0) + lines[0].c1]);
        assert Kept(lines)[1..] == Kept(lines[1..]);
    }
  }

  /** The `c1` total of the lines whose key is `w`. */
  function Total(lines: seq<Record>, w: string): int
  {
    if lines == [] then 0
    else (if Key(lines[0].word) == Some(w) then lines[0].c1 else 0) + Total(lines[1..], w)
  }

  /** The first line's contribution to `Kept`. */
  function Head(line: Record): seq<(string, int)>
  {
    match Key(line.word)
    case None => []
    case Some(v) => [(v, line.c1)]
  }

  lemma KeptCons(lines: seq<Record>)
    requires lines != []
    ensures Kept(lines) == Head(lines[0]) + Kept(lines[1..])
  {
  }

  lemma {:induction false} KeptTotal(lines: seq<Record>, w: string)
    ensures CountOf(Kept(lines), w) == Total(lines, w)
  {
    if lines != [] {
      KeptTotal(lines[1..], w);
      KeptCons(lines);
      CountAppend(Head(lines[0]), Kept(lines[1..]), w);
    }
  }

  lemma {:induction false} KeptKeysSound(lines: seq<Record>, w: string, i: int)
    requires 0 <= i < |Kept(lines)| && Kept(lines)[i].0 == w
    ensures exists j :: 0 <= j < |lines| && Key(lines[j].word) == Some(w)
  {
    KeptCons(lines);
    var head := Head(lines[0]);
    if i < |head| {
      assert Key(lines[0].word) == Some(w);
    } else {
      assert Kept(lines[1..])[i - |head|].0 == w;
      KeptKeysSound(lines[1..], w, i - |head|);
      var j :| 0 <= j < |lines[1..]| && Key(lines[1..][j].word) == Some(w);
      assert Key(lines[j + 1].word) == Some(w);
    }
  }

  lemma {:induction false} KeptKeysComplete(lines: seq<Record>, w: string, i: int)
    requires 0 <= i < |lines| && Key(lines[i].word) == Some(w)
    ensures exists j :: 0 <= j < |Kept(lines)| && Kept(lines)[j].0 == w
  {
    KeptCons(lines);
    var head := Head(lines[0]);
    if i == 0 {
      assert Kept(lines)[0].0 == w;
    } else {
      assert Key(lines[1..][i - 1].word) == Some(w);
      KeptKeysComplete(lines[1..], w, i - 1);
      var j :| 0 <= j < |Kept(lines[1..])| && Kept(lines[1..])[j].0 == w;
      assert Kept(lines)[|head| + j].0 == w;
    }
  }

  lemma KeptKeys(lines: seq<Record>, w: string)
    ensures (exists i :: 0 <= i < |Kept(lines)| && Kept(lines)[i].0 == w)
            <==> exists i :: 0 <= i < |lines| && Key(lines[i].word) == Some(w)
  {
    if i :| 0 <= i < |Kept(lines)| && Kept(lines)[i].0 == w {
      KeptKeysSound(lines, w, i);
    }
    if i :| 0 <= i < |lines| && Key(lines[i].word) == Some(w) {
      KeptKeysComplete(lines, w, i);
    }
  }

  lemma {:induction false} CountAppend<K>(a: seq<(K, int)>, b: seq<(K, int)>, k: K)
    ensures CountOf(a + b, k) == CountOf(a, k) + CountOf(b, k)
  {
    if a != [] {
      assert (a + b)[1..] == a[1..] + b;
      CountAppend(a[1..], b, k);
    } else {
      assert a + b == b;
    }
  }

  /** After `read_year_file`, a word has an entry exactly when it had one
      before or some line's key is that word, and the entry is the earlier
      count plus the `c1` of every such line. */
  lemma ReadYearCounts(lines: seq<Record>, dic: map<string, int>, w: string)
    ensures w in ReadYear(lines, dic) <==>
              w in dic || exists i :: 0 <= i < |lines| && Key(lines[i].word) == Some(w)
    ensures w in ReadYear(lines, dic) ==>
              ReadYear(lines, dic)[w] == (if w in dic then dic[w] else 0) + Total(lines, w)
  {
    ReadYearHistogram(lines, dic);
    HistogramFromCounts(Kept(lines), dic, w);
    KeptTotal(lines, w);
    KeptKeys(lines, w);
  }

  // -------------------------------------------------------------- substr

  /** `substr(word, pos, length)`: the `length` letters starting at a
      non-negative `pos`, or ending at the negative position `pos` (-1 is
      the last letter), or `None` when they do not fit. */
  function Substr(word: string, pos: int, length: int): (r: Option<string>)
    ensures 0 <= pos && 0 <= length ==>
              (r.Some? <==> pos + length <= |word|)
              && (r.Some? ==> r.value == word[pos..pos + length])
    ensures pos < 0 && 0 <= length ==>
              (r.Some? <==> -pos + length - 1 <= |word|)
              && (r.Some? ==> r.value == word[|word| + pos + 1 - length..|word| + pos + 1])
  {
    var W := |word|;
    if pos >= 0 && pos + length <= W then Some(Slice(word, pos, pos + length))
    else if pos < 0 && -pos + length - 1 <= W then Some(Slice(word, W + pos + 1 - length, W + pos + 1))
    else None
  }

  /** The slice of a negative position has the asked length and ends with
      the letter `pos` places from the end. */
  lemma SubstrFromEnd(word: string, pos: int, length: int)
    requires pos < 0 && 1 <= length && -pos + length - 1 <= |word|
    ensures Substr(word, pos, length).Some?
    ensures |Substr(word, pos, length).value| == length
    ensures Substr(word, pos, length).value[length - 1] == word[|word| + pos]
  {
  }

  /** A negative `length` from a non-negative position is read as a slice
      bound counted from the end, as Python does: `substr('abcdef', 4, -5)`
      is `'e'`, not empty. */
  lemma SubstrNegativeLength()
    ensures Substr("abcdef", 4, -5) == Some("e")
  {
    assert SliceBound(-1, 6) == 5;
    assert Slice("abcdef", 4, -1) == "abcdef"[4..5] == "e";
  }

  // -------------------------------------------------------------- pieces

  /** The pieces from position `i` on. */
  function PiecesFrom(word: string, i: nat): (r: seq<(string, nat, nat)>)
    requires i <= |word|
    ensures |r| == if i == |word| then 0 else 2 * (|word| - i) - 1
    decreases |word| - i
  {
    if i == |word| then []
    else
      [([word[i]], i, |word|)]
      + (if i + 1 < |word| then [(word[i..i + 2], i, |word|)] else [])
      + PiecesFrom(word, i + 1)
  }

  /** `list(pieces(word))`: the 1- and 2-letter grams as `(s, i, L)`. */
  function Pieces(word: string): (r: seq<(string, nat, nat)>)
    ensures |r| == if word == [] then 0 else 2 * |word| - 1
  {
    PiecesFrom(word, 0)
  }

  lemma {:induction false} PiecesFromAt(word: string, i: nat, j: nat)
    requires i <= j < |word|
    ensures 2 * (j - i) < |PiecesFrom(word, i)|
    ensures PiecesFrom(word, i)[2 * (j - i)] == ([word[j]], j, |word|)
    ensures j + 1 < |word| ==> PiecesFrom(word, i)[2 * (j - i) + 1] == (word[j..j + 2], j, |word|)
    decreases j - i
  {
    if i < j {
      PiecesFromAt(word, i + 1, j);
    }
  }

  /** The even pieces are the letters at each position and the odd pieces
      the adjacent pairs, so the 2-letter pieces are `ngrams(word, 2)`. */
  lemma PiecesAt(word: string)
    ensures forall j :: 0 <= j < |word| ==> Pieces(word)[2 * j] == ([word[j]], j, |word|)
    ensures forall j :: 0 <= j < |word| - 1 ==> Pieces(word)[2 * j + 1] == (word[j..j + 2], j, |word|)
    ensures |word| >= 2 ==>
              var r := Pieces(word);
              seq(|word| - 1, j requires 0 <= j < |word| - 1 => r[2 * j + 1].0) == NGrams(word, 2)
  {
    forall j | 0 <= j < |word| ensures Pieces(word)[2 * j] == ([word[j]], j, |word|) {
      PiecesFromAt(word, 0, j);
    }
    forall j | 0 <= j < |word| - 1 ensures Pieces(word)[2 * j + 1] == (word[j..j + 2], j, |word|) {
      PiecesFromAt(word, 0, j);
    }
  }

  // ----------------------------------------------------------------- num

  /** `needle` occurs in `hay` at position `i`. */
  predicate OccursAt(hay: string, needle: string, i: int)
  {
    0 <= i && i + |needle| <= |hay| && hay[i..i + |needle|] == needle
  }

  /** `hay.index(needle)` searched from `from`: the first occurrence. */
  function Find(hay: string, needle: string, from: nat): (r: Option<nat>)
    ensures r.Some? ==> from <= r.value && OccursAt(hay, needle, r.value)
                        && forall i :: from <= i < r.value ==> !OccursAt(hay, needle, i)
    ensures r.None? ==> forall i :: from <= i ==> !OccursAt(hay, needle, i)
    decreases |hay| + 1 - from
  {
    if from + |needle| > |hay| then None
    else if hay[from..from + |needle|] == needle then Some(from)
    else Find(hay, needle, from + 1)
  }

  /** `num(ch)`: the position of `ch.lower()` in the alphabet; `str.index`
      raises `ValueError` when it is not there. */
  function Num(ch: string): (r: Result<nat>)
    ensures r.Error? <==> forall i :: !OccursAt(Alphabet, LowerStr(ch), i)
    ensures r.Error? ==> r == Error("ValueError")
    ensures r.Ok? ==> OccursAt(Alphabet, LowerStr(ch), r.value)
                      && forall i :: 0 <= i < r.value ==> !OccursAt(Alphabet, LowerStr(ch), i)
  {
    match Find(Alphabet, LowerStr(ch), 0)
    case Some(i) => Ok(i)
    case None => Error("ValueError")
  }

  /** On one character `num` maps 'a' and 'A' to 0, ..., 'z' and 'Z' to 25,
      and raises on anything else. */
  lemma NumLetter(c: char)
    ensures IsLetter(c) ==> Num([c]) == Ok(Index(c))
    ensures !IsLetter(c) ==> Num([c]) == Error("ValueError")
  {
    if IsLetter(c) {
      NumOfLetter(c);
    } else {
      NumOfOther(c);
    }
  }

  lemma NumOfLetter(c: char)
    requires IsLetter(c)
    ensures Num([c]) == Ok(Index(c))
  {
    AlphabetCodes();
    var lc := LowerStr([c]);
    assert lc == [Lower(c)];
    assert Alphabet[Index(c)..Index(c) + 1] == lc;
    assert OccursAt(Alphabet, lc, Index(c));
    var v := Num([c]).value;
    assert Alphabet[v..v + 1][0] == Alphabet[v];
  }

  lemma NumOfOther(c: char)
    requires !IsLetter(c)
    ensures Num([c]) == Error("ValueError")
  {
    AlphabetCodes();
    var lc := LowerStr([c]);
    assert lc == [Lower(c)];
    forall i | 0 <= i < 26 ensures !OccursAt(Alphabet, lc, i) {
      assert Alphabet[i..i + 1][0] == Alphabet[i];
    }
  }

  /** Because `str.index` searches for a substring, `num` also accepts the
      empty string and runs of consecutive letters. */
  lemma NumSubstrings()
    ensures Num("") == Ok(0)
    ensures Num("Bc") == Ok(1)
  {
    AlphabetCodes();
    assert LowerStr("Bc") == "bc";
    assert Alphabet[0..2][0] == 'a';
    assert !OccursAt(Alphabet, "bc", 0);
    assert Alphabet[1..3] == "bc";
    assert OccursAt(Alphabet, "bc", 1);
    assert OccursAt(Alphabet, "", 0);
  }

  // ------------------------------------------------------------- columns

  /** A column header field: `ANY` or a number. */
  datatype Field = Any | At(n: int)

  /** `wordlengths`: `range(1, 10)`. */
  const WordLengths: seq<int> := [1, 2, 3, 4, 5, 6, 7, 8, 9]

  /** `[col(k, start, start+n-1) for k in lengths for start in range(1, 2+k-n)]` */
  function Spans(lengths: seq<int>, n: int): (r: seq<seq<Field>>)
    ensures forall x: seq<Field> | x in r ::
              |x| == 3 && x[0].At? && x[1].At? && x[2].At? && x[0].n in lengths
              && 1 <= x[1].n && x[2].n == x[1].n + n - 1 && x[2].n <= x[0].n
  {
    if lengths == [] then []
    else
      var k := lengths[0];
      var m := if 1 + k - n < 0 then 0 else 1 + k - n;
      Span(k, n, m) + Spans(lengths[1..], n)
  }

  /** `[col(k, start, start+n-1) for start in range(1, 1+m)]` */
  function Span(k: int, n: int, m: nat): (r: seq<seq<Field>>)
    requires m == 0 || m <= 1 + k - n
    ensures |r| == m
    ensures forall i :: 0 <= i < m ==> r[i] == [At(k), At(i + 1), At(i + n)]
  {
    if m == 0 then [] else Span(k, n, m - 1) + [[At(k), At(m), At(m + n - 1)]]
  }

  lemma {:induction false} SpansCover(lengths: seq<int>, n: int, k: int, s: int)
    requires k in lengths && 1 <= s <= 1 + k - n
    ensures [At(k), At(s), At(s + n - 1)] in Spans(lengths, n)
  {
    var k0 := lengths[0];
    var m := if 1 + k0 - n < 0 then 0 else 1 + k0 - n;
    var here := Span(k0, n, m);
    var rest := Spans(lengths[1..], n);
    assert Spans(lengths, n) == here + rest;
    if k == k0 {
      assert here[s - 1] == [At(k), At(s), At(s + n - 1)];
      InAppend([At(k), At(s), At(s + n - 1)], here, rest);
    } else {
      SpansCover(lengths[1..], n, k, s);
      InAppend([At(k), At(s), At(s + n - 1)], here, rest);
    }
  }

  /** `[col(k, ANY) for k in lengths]` */
  function Heads(lengths: seq<int>): (r: seq<seq<Field>>)
    ensures forall x: seq<Field> | x in r :: |x| == 2 && x[0] != Any
  {
    if lengths == [] then [] else [[At(lengths[0]), Any]] + Heads(lengths[1..])
  }

  lemma {:induction false} HeadsMember(lengths: seq<int>, k: int)
    ensures [At(k), Any] in Heads(lengths) <==> k in lengths
  {
    if lengths != [] {
      HeadsMember(lengths[1..], k);
      assert Heads(lengths) == [[At(lengths[0]), Any]] + Heads(lengths[1..]);
      assert k in lengths <==> k == lengths[0] || k in lengths[1..];
    }
  }

  /** `[col(ANY, start, start+n-1) for start in wordlengths]` */
  function Starts(wordlengths: seq<int>, n: int): (r: seq<seq<Field>>)
    ensures forall x | x in r :: |x| == 3 && x[0] == Any
  {
    if wordlengths == [] then []
    else [[Any, At(wordlengths[0]), At(wordlengths[0] + n - 1)]] + Starts(wordlengths[1..], n)
  }

  /** `[col(ANY, -k, -k+n-1) for k in ks if -k+n-1 < 0]` */
  function Ends(ks: seq<int>, n: int): (r: seq<seq<Field>>)
    ensures forall c | c in r :: |c| == 3 && c[0] == Any
  {
    if ks == [] then []
    else (if -ks[0] + n - 1 < 0 then [[Any, At(-ks[0]), At(-ks[0] + n - 1)]] else []) + Ends(ks[1..], n)
  }

  lemma {:induction false} StartsMember(wordlengths: seq<int>, n: int, s: int, e: int)
    ensures [Any, At(s), At(e)] in Starts(wordlengths, n) <==> s in wordlengths && e == s + n - 1
  {
    if wordlengths != [] {
      StartsMember(wordlengths[1..], n, s, e);
      assert Starts(wordlengths, n)
        == [[Any, At(wordlengths[0]), At(wordlengths[0] + n - 1)]] + Starts(wordlengths[1..], n);
      assert s in wordlengths <==> s == wordlengths[0] || s in wordlengths[1..];
    }
  }

  lemma {:induction false} EndsMember(ks: seq<int>, n: int, s: int, e: int)
    ensures [Any, At(s), At(e)] in Ends(ks, n) <==> -s in ks && e == s + n - 1 && e < 0
  {
    if ks != [] {
      EndsMember(ks[1..], n, s, e);
      var here := if -ks[0] + n - 1 < 0 then [[Any, At(-ks[0]), At(-ks[0] + n - 1)]] else [];
      assert Ends(ks, n) == here + Ends(ks[1..], n);
      assert -s in ks <==> -s == ks[0] || -s in ks[1..];
    }
  }

  /** `[k for k in wordlengths if k >= n]`: the word lengths an n-gram fits. */
  function LengthsFrom(n: int, wordlengths: seq<int>): (r: seq<int>)
    ensures forall k :: k in r <==> k in wordlengths && k >= n
  {
    if wordlengths == [] then []
    else
      var rest := LengthsFrom(n, wordlengths[1..]);
      assert forall k :: k in wordlengths <==> k == wordlengths[0] || k in wordlengths[1..];
      (if wordlengths[0] >= n then [wordlengths[0]] else []) + rest
  }

  /** `columns(n, wordlengths)`: the table columns for n-grams. */
  function Columns(n: int, wordlengths: seq<int>): (r: seq<seq<Field>>)
    ensures r != [] && r[0] == [Any, Any]
  {
    var lengths := LengthsFrom(n, wordlengths);
    [[Any, Any]] + Heads(lengths) + Spans(lengths, n) + Starts(wordlengths, n) + Ends(Rev(lengths), n)
  }

  /** `(k, ANY)` is a column exactly for the word lengths `k >= n`. */
  lemma ColumnsByLength(n: int, wordlengths: seq<int>, k: int)
    ensures [At(k), Any] in Columns(n, wordlengths) <==> k in wordlengths && k >= n
  {
    var lengths := LengthsFrom(n, wordlengths);
    HeadsMember(lengths, k);
    var x := [At(k), Any];
    assert x !in Spans(lengths, n);
    assert x !in Starts(wordlengths, n);
    assert x !in Ends(Rev(lengths), n);
  }

  /** `(k, s, e)` is a column exactly when `k` is a word length `>= n` and
      the n-gram from letter `s` to letter `e` fits in a word of length `k`. */
  lemma ColumnsBySpan(n: int, wordlengths: seq<int>, k: int, s: int, e: int)
    ensures [At(k), At(s), At(e)] in Columns(n, wordlengths) <==>
              k in wordlengths && k >= n && 1 <= s && e == s + n - 1 && e <= k
  {
    var lengths := LengthsFrom(n, wordlengths);
    var x := [At(k), At(s), At(e)];
    var inSpans := x in Spans(lengths, n);
    assert x in Columns(n, wordlengths) <==> inSpans by {
      ColumnsParts(n, wordlengths, x);
      assert x !in Heads(lengths);
      assert x !in Starts(wordlengths, n);
      assert x !in Ends(Rev(lengths), n);
    }
    SpansOfLengths(lengths, n, wordlengths, k, s, e);
  }

  lemma SpansOfLengths(lengths: seq<int>, n: int, wordlengths: seq<int>, k: int, s: int, e: int)
    requires forall k :: k in lengths <==> k in wordlengths && k >= n
    ensures [At(k), At(s), At(e)] in Spans(lengths, n) <==>
              k in wordlengths && k >= n && 1 <= s && e == s + n - 1 && e <= k
  {
    assert k in lengths <==> k in wordlengths && k >= n;
    SpansShape(lengths, n, k, s, e);
    if k in lengths && 1 <= s && e == s + n - 1 && e <= k {
      SpansCover(lengths, n, k, s);
    }
  }

  lemma SpansShape(lengths: seq<int>, n: int, k: int, s: int, e: int)
    ensures [At(k), At(s), At(e)] in Spans(lengths, n) ==>
              k in lengths && 1 <= s && e == s + n - 1 && e <= k
  {
    var x := [At(k), At(s), At(e)];
    if x in Spans(lengths, n) {
      assert x[0].n == k && x[1].n == s && x[2].n == e;
    }
  }

  /** `(ANY, s, e)` is a column exactly when the n-gram runs from letter `s`
      to letter `e` and either `s` is a word length, or `-s` is a word
      length `>= n` counted from the end and the n-gram stops before the last
      letter's end (`e < 0`). */
  lemma ColumnsAnchored(n: int, wordlengths: seq<int>, s: int, e: int)
    ensures [Any, At(s), At(e)] in Columns(n, wordlengths) <==>
              e == s + n - 1 && (s in wordlengths || (-s in wordlengths && -s >= n && e < 0))
  {
    var lengths := LengthsFrom(n, wordlengths);
    var x := [Any, At(s), At(e)];
    var inStarts := x in Starts(wordlengths, n);
    var inEnds := x in Ends(Rev(lengths), n);
    assert x in Columns(n, wordlengths) <==> inStarts || inEnds by {
      ColumnsParts(n, wordlengths, x);
      assert x !in Heads(lengths);
      assert x !in Spans(lengths, n);
    }
    assert inStarts <==> s in wordlengths && e == s + n - 1 by {
      StartsMember(wordlengths, n, s, e);
    }
    assert inEnds <==> -s in wordlengths && -s >= n && e == s + n - 1 && e < 0 by {
      EndsOfLengths(lengths, n, wordlengths, s, e);
    }
  }

  lemma ColumnsParts(n: int, wordlengths: seq<int>, x: seq<Field>)
    ensures var lengths := LengthsFrom(n, wordlengths);
            x in Columns(n, wordlengths) <==>
              x == [Any, Any] || x in Heads(lengths) || x in Spans(lengths, n)
              || x in Starts(wordlengths, n) || x in Ends(Rev(lengths), n)
  {
  }

  lemma EndsOfLengths(lengths: seq<int>, n: int, wordlengths: seq<int>, s: int, e: int)
    requires forall k :: k in lengths <==> k in wordlengths && k >= n
    ensures [Any, At(s), At(e)] in Ends(Rev(lengths), n) <==> -s in wordlengths && -s >= n && e == s + n - 1 && e < 0
  {
    var inLengths := -s in lengths;
    assert inLengths <==> -s in wordlengths && -s >= n;
    RevMember(lengths, -s);
    assert -s in Rev(lengths) <==> inLengths;
    EndsMember(Rev(lengths), n, s, e);
  }
}
