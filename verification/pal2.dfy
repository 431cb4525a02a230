/** The word-by-word palindrome search of `pal2.py`: canonical forms and the
    Panama test, a dictionary of sorted words and reversed words with random
    prefix lookups, and a search state whose `diff` counts the letters the
    left side has in excess of the right. */
module Pal2 {
  import opened Common
  import opened SortedWords

  // ------------------------------------------------------ checking a phrase

  /** The characters the canonical form deletes: ``-* \t\n\r.,;!?:()`"'``. */
  predicate IsPunct(c: char) { c in "-* \t\n\r.,;!?:()`\"'" }

  predicate Kept(c: char) { !IsPunct(c) }

  /** `canonical(word)`: punctuation and blanks deleted, the rest lower-cased. */
  function CanonicalForm(word: string): (r: string)
    ensures |r| <= |word|
    ensures forall i :: 0 <= i < |r| ==> !IsPunct(r[i]) && !IsUpper(r[i])
  {
    assert forall c :: Kept(c) ==> Kept(Lower(c));
    Canonical(Kept, word)
  }

  /** The canonical form is the lower-cased word with exactly the punctuation
      characters removed. */
  lemma CanonicalFormExactly(word: string)
    ensures CanonicalForm(word) == LowerStr(Filter(Kept, word))
  {
    CanonicalIsLowerFilter(Kept, word);
  }

  /** `is_palindrome(s)`: the canonical form reads the same both ways. */
  predicate IsPalindromeText(s: string) { IsPalindrome(CanonicalForm(s)) }

  /** A text is a palindrome exactly when its reversal is. */
  lemma PalindromeUnderReversal(s: string)
    ensures IsPalindromeText(s) <==> IsPalindromeText(Rev(s))
  {
    CanonicalRev(Kept, s);
    RevRev(CanonicalForm(s));
  }

  /** `phrases(s)`: the comma-separated phrases, each stripped. */
  function Phrases(s: string): (r: seq<string>)
    ensures |r| == |Split(s, ",")| >= 1
    ensures forall i :: 0 <= i < |r| ==> r[i] == Strip(Split(s, ",")[i])
  {
    var parts := Split(s, ",");
    seq(|parts|, i requires 0 <= i < |parts| => Strip(parts[i]))
  }

  /** `is_unique(seq)`: no element is lost by making a set of the sequence. */
  predicate IsUnique<T(==)>(xs: seq<T>) { |xs| == |ToSet(xs)| }

  lemma IsUniqueIffDistinct<T>(xs: seq<T>)
    ensures IsUnique(xs) <==> Distinct(xs)
  {
    DistinctCardinality(xs);
  }

  /** `is_panama(s)` */
  function IsPanama(s: string): (r: bool)
    ensures r <==> IsPalindrome(CanonicalForm(s)) && Distinct(Phrases(s))
  {
    IsUniqueIffDistinct(Phrases(s));
    IsPalindromeText(s) && IsUnique(Phrases(s))
  }

  lemma UniqueExamples()
    ensures IsUnique([1, 2, 3]) && !IsUnique([1, 2, 2])
    ensures Rev("foo") == "oof"
  {
    IsUniqueIffDistinct([1, 2, 3]);
    IsUniqueIffDistinct([1, 2, 2]);
    assert [1, 2, 2][1] == [1, 2, 2][2];
  }

  /** 'radars' is not a palindrome. */
  lemma RadarsExample()
    ensures !IsPalindromeText("radars")
  {
    var s := "radars";
    assert forall i :: 0 <= i < |s| ==> IsLower(s[i]);
    assert forall c :: IsLower(c) ==> Kept(c);
    CanonicalKeepsAll(Kept, s);
    assert LowerStr(s) == s;
    assert Rev(s)[0] == 's' != s[0];
  }

  // --------------------------------------------------------- the dictionary

  /** A `PalDict`: `k` bounds the size of a lookup, `words` and `rwords` are the
      sorted canonical words and their reversals, `truename` maps a canonical
      word to its original spelling, and `tryharder` also offers the
      dictionary words that are prefixes of the lookup string. */
  datatype PalDict = PalDict(
    k: nat,
    words: seq<string>,
    rwords: seq<string>,
    truename: map<string, string>,
    tryharder: bool)

  /** The sorted order the constructor establishes. */
  predicate Sorted(d: PalDict) { SortedLex(d.words) && SortedLex(d.rwords) }

  /** What the random calls of one lookup return: the proposal for
      `random.sample` and the proposal for `random.shuffle`. */
  datatype Draw = Draw(sample: seq<string>, shuffle: seq<string>)

  /** The words of the lookup range `[bisect_left(prefix), bisect(prefix + 'zzzz'))`. */
  function Pool(words: seq<string>, prefix: string): (pool: seq<string>)
    requires SortedLex(words)
    ensures |pool| <= |words|
    ensures forall w :: w in pool <==> w in words && StartsWith(w, prefix) && LexLe(w[|prefix|..], "zzzz")
  {
    ZzzzAbove(prefix);
    BisectOrdered(words, prefix, Zzzz(prefix), true);
    forall w ensures w in words[BisectLeft(words, prefix)..BisectRight(words, Zzzz(prefix))] <==>
      w in words && StartsWith(w, prefix) && LexLe(w[|prefix|..], "zzzz")
    {
      SliceMembers(words, prefix, Zzzz(prefix), true, w);
      InLookupRange(w, prefix);
    }
    words[BisectLeft(words, prefix)..BisectRight(words, Zzzz(prefix))]
  }

  /** The random part of `_k_startingwith`: all of the range when it holds at
      most `k` words, else a sample of `k` of them, in shuffled order. */
  function Sample(d: PalDict, words: seq<string>, prefix: string, draw: Draw): (r: seq<string>)
    requires SortedLex(words)
    ensures var pool := Pool(words, prefix);
      && (|pool| <= d.k ==> multiset(r) == multiset(pool))
      && (|pool| > d.k ==> |r| == d.k && multiset(r) <= multiset(pool))
  {
    var pool := Pool(words, prefix);
    var picked := if d.k >= |pool| then pool else Sampled(draw.sample, pool, d.k);
    Shuffled(draw.shuffle, picked)
  }

  /** With `tryharder`, a prefix `prefix[0:i]` (3 <= i < len(prefix)) is offered
      when it is a word; for the reversed list, when its reversal is one. */
  predicate OffersPrefix(d: PalDict, words: seq<string>, w: string)
  {
    (words == d.words && w in d.truename) || (words == d.rwords && Rev(w) in d.truename)
  }

  function PrefixWords(d: PalDict, words: seq<string>, prefix: string): (r: seq<string>)
    ensures forall w :: w in r <==>
      exists i :: 3 <= i < |prefix| && w == prefix[..i] && OffersPrefix(d, words, w)
  {
    PrefixWordsFrom(d, words, prefix, 3)
  }

  function PrefixWordsFrom(d: PalDict, words: seq<string>, prefix: string, i: nat): (r: seq<string>)
    ensures forall w :: w in r <==>
      exists j :: i <= j < |prefix| && w == prefix[..j] && OffersPrefix(d, words, w)
    decreases |prefix| - i
  {
    if i >= |prefix| then []
    else
      var rest := PrefixWordsFrom(d, words, prefix, i + 1);
      var w := prefix[..i];
      if OffersPrefix(d, words, w) then [w] + rest else rest
  }

  /** `_k_startingwith(words, prefix)` */
  function KStartingWith(d: PalDict, words: seq<string>, prefix: string, draw: Draw): (r: seq<string>)
    requires SortedLex(words)
    ensures var s := Sample(d, words, prefix, draw);
      |s| <= |r| && r[..|s|] == s
    ensures !d.tryharder ==> r == Sample(d, words, prefix, draw)
    ensures d.tryharder ==> forall w :: w in r[|Sample(d, words, prefix, draw)|..] <==>
      exists i :: 3 <= i < |prefix| && w == prefix[..i] && OffersPrefix(d, words, w)
  {
    var s := Sample(d, words, prefix, draw);
    if d.tryharder then
      assert (s + PrefixWords(d, words, prefix))[|s|..] == PrefixWords(d, words, prefix);
      s + PrefixWords(d, words, prefix)
    else s
  }

  /** Without `tryharder` a lookup returns only words that start with the
      prefix, all of them when there are at most `k`, and none when no word
      starts with it. */
  lemma KStartingWithSound(d: PalDict, words: seq<string>, prefix: string, draw: Draw)
    requires SortedLex(words) && !d.tryharder
    ensures var r := KStartingWith(d, words, prefix, draw);
      && (forall w :: w in r ==> w in words && StartsWith(w, prefix))
      && (|Pool(words, prefix)| <= d.k ==>
            forall w :: w in r <==> w in words && StartsWith(w, prefix) && LexLe(w[|prefix|..], "zzzz"))
      && (|Pool(words, prefix)| > d.k ==> |r| == d.k)
      && ((forall w :: w in words ==> !StartsWith(w, prefix)) ==> r == [])
  {
    var r := KStartingWith(d, words, prefix, draw);
    var pool := Pool(words, prefix);
    forall w | w in r ensures w in words && StartsWith(w, prefix) {
      assert w in multiset(r);
      assert w in multiset(pool);
    }
    assert r != [] ==> r[0] in r;
    if |pool| <= d.k {
      forall w ensures w in r <==> w in pool {
        assert w in r <==> w in multiset(r);
        assert w in pool <==> w in multiset(pool);
      }
    }
  }

  /** A word equal to the prefix is in range; a word continuing the prefix with
      'zzzz' and more is not. */
  lemma LookupRangeEdges(words: seq<string>, prefix: string, w: string)
    requires SortedLex(words)
    ensures prefix in words ==> prefix in Pool(words, prefix)
    ensures StartsWith(w, Zzzz(prefix)) && |w| > |prefix| + 4 ==> w !in Pool(words, prefix)
  {
    assert StartsWith(prefix, prefix);
    assert prefix[|prefix|..] == [];
    if StartsWith(w, Zzzz(prefix)) && |w| > |prefix| + 4 {
      PastZzzz(w, prefix);
      InLookupRange(w, prefix);
    }
  }

  /** A one-word dictionary in which 'okla' is also a known word. */
  function OklahomaDict(tryharder: bool): PalDict
  {
    PalDict(1000, ["oklahoma"], ["amohalko"], map["oklahoma" := "Oklahoma", "okla" := "Okla"], tryharder)
  }

  lemma OklahomaPool(tryharder: bool, draw: Draw)
    ensures SortedLex(OklahomaDict(tryharder).words)
    ensures Sample(OklahomaDict(tryharder), OklahomaDict(tryharder).words, "oklahoma", draw) == ["oklahoma"]
  {
    var d := OklahomaDict(tryharder);
    var p: string := "oklahoma";
    OklahomaOnly();
    var r := Sample(d, d.words, p, draw);
    assert multiset(r) == multiset{p};
    assert |r| == 1 && r[0] in multiset(r);
  }

  lemma OklahomaOnly()
    ensures SortedLex(["oklahoma"])
    ensures Pool(["oklahoma"], "oklahoma") == ["oklahoma"]
  {
    var ws: seq<string> := ["oklahoma"];
    var p: string := "oklahoma";
    assert SortedLex(ws);
    LookupRangeEdges(ws, p, p);
    var pool := Pool(ws, p);
    assert p in pool && |pool| <= 1;
    assert pool == [pool[0]] && pool[0] in pool;
  }

  /** A lookup of 'oklahoma' finds the word itself, and with `tryharder` also
      the word 'okla' that is a prefix of it. */
  lemma OklahomaExample(draw: Draw)
    ensures var d := OklahomaDict(false);
      KStartingWith(d, d.words, "oklahoma", draw) == ["oklahoma"]
    ensures var d := OklahomaDict(true);
      var r := KStartingWith(d, d.words, "oklahoma", draw);
      "oklahoma" in r && "okla" in r
  {
    OklahomaPool(false, draw);
    OklahomaPool(true, draw);
    var p: string := "oklahoma";
    var d := OklahomaDict(true);
    assert p[..4] == "okla";
    assert OffersPrefix(d, d.words, p[..4]);
    var r := KStartingWith(d, d.words, p, draw);
    assert r[..1] == ["oklahoma"];
    assert r[0] in r;
  }

  /** `startswith(prefix)` */
  function StartsWithLookup(d: PalDict, prefix: string, draw: Draw): seq<string>
    requires Sorted(d)
  {
    KStartingWith(d, d.words, prefix, draw)
  }

  /** `endswith(rsuffix)`: reversed words that start with `rsuffix`, turned
      back. */
  function EndsWithLookup(d: PalDict, rsuffix: string, draw: Draw): (r: seq<string>)
    requires Sorted(d)
    ensures var found := KStartingWith(d, d.rwords, rsuffix, draw);
      |r| == |found| && forall i :: 0 <= i < |r| ==> r[i] == Rev(found[i])
  {
    var found := KStartingWith(d, d.rwords, rsuffix, draw);
    seq(|found|, i requires 0 <= i < |found| => Rev(found[i]))
  }

  /** Without `tryharder`, `startswith` offers dictionary words that start
      with the prefix and `endswith` words that end with the reversal of its
      argument: asking for 'gni' finds words ending in 'ing'. */
  lemma LookupsSound(d: PalDict, s: string, draw: Draw)
    requires Sorted(d) && !d.tryharder
    ensures forall w :: w in StartsWithLookup(d, s, draw) ==> w in d.words && StartsWith(w, s)
    ensures forall w :: w in EndsWithLookup(d, s, draw) ==> Rev(w) in d.rwords && EndsWith(w, Rev(s))
  {
    KStartingWithSound(d, d.words, s, draw);
    KStartingWithSound(d, d.rwords, s, draw);
    var found := KStartingWith(d, d.rwords, s, draw);
    var r := EndsWithLookup(d, s, draw);
    forall w | w in r ensures Rev(w) in d.rwords && EndsWith(w, Rev(s)) {
      var i :| 0 <= i < |r| && r[i] == w;
      assert found[i] in found;
      RevRev(found[i]);
      RevRev(s);
      EndsWithRev(w, Rev(s));
    }
  }

  /** `reversible_words()`, in the insertion order of the dictionary it
      builds: for each reversed word `rw` that is itself a word and not a
      palindrome, the pair (reverse(rw), rw) unless that key is present. */
  function Reversibles(rws: seq<string>, truename: map<string, string>): (r: seq<(string, string)>)
    ensures Distinct(Firsts(r))
    ensures forall i :: 0 <= i < |r| ==>
      r[i].1 in rws && r[i].1 in truename && r[i].0 == Rev(r[i].1) && r[i].0 != r[i].1
    ensures forall rw :: rw in rws && rw in truename && Rev(rw) != rw ==> Rev(rw) in Firsts(r)
  {
    if rws == [] then []
    else
      var front := Reversibles(rws[..|rws| - 1], truename);
      var rw := rws[|rws| - 1];
      assert forall x :: x in rws <==> x in rws[..|rws| - 1] || x == rw by {
        assert rws == rws[..|rws| - 1] + [rw];
      }
      if rw in truename && Rev(rw) != rw && Rev(rw) !in Firsts(front) then
        assert Firsts(front + [(Rev(rw), rw)]) == Firsts(front) + [Rev(rw)];
        front + [(Rev(rw), rw)]
      else front
  }

  function Firsts(ps: seq<(string, string)>): (r: seq<string>)
    ensures |r| == |ps| && forall i :: 0 <= i < |ps| ==> r[i] == ps[i].0
  {
    seq(|ps|, i requires 0 <= i < |ps| => ps[i].0)
  }

  // --------------------------------------------------------------- search

  datatype Side = Left | Right

  /** `factor[dir]` */
  function Factor(side: Side): int { if side == Left then 1 else -1 }

  /** A stack entry: `('added', dir, '?', word)` or
      `('trying', dir, substr, candidates)`. */
  datatype Frame = Added(side: Side, word: string) | Trying(side: Side, substr: string, candidates: seq<string>)

  /** A `Panama` search state. `seen` is the key set of the `seen` dictionary;
      `best` is the length of the best palindrome reported. */
  datatype Panama = Panama(
    left: seq<string>,
    right: seq<string>,
    best: int,
    seen: set<string>,
    diff: int,
    stack: seq<Frame>,
    usedReversibles: bool,
    pd: PalDict)

  function Words(st: Panama, side: Side): seq<string>
  {
    if side == Left then st.left else st.right
  }

  function WithWords(st: Panama, side: Side, ws: seq<string>): Panama
  {
    if side == Left then st.(left := ws) else st.(right := ws)
  }

  /** The invariant of every reachable state: `diff` is the number of left
      letters minus the number of right letters, and `seen` holds exactly the
      words placed, none of them twice. */
  predicate Consistent(st: Panama)
  {
    && st.diff == SumLengths(st.left) - SumLengths(st.right)
    && Distinct(st.left + st.right)
    && st.seen == ToSet(st.left + st.right)
  }

  /** `add(dir, word)`: returns whether the word was placed. */
  function Add(st: Panama, side: Side, word: string): (r: (bool, Panama))
    ensures word in st.seen ==> r == (false, st)
    ensures r.1.pd == st.pd && r.1.best == st.best && r.1.usedReversibles == st.usedReversibles
    ensures word !in st.seen ==>
      && r.0
      && Words(r.1, side) == Words(st, side) + [word]
      && r.1.diff == st.diff + Factor(side) * |word|
      && r.1.seen == st.seen + {word}
      && r.1.stack == st.stack + [Added(side, word)]
  {
    if word in st.seen then (false, st)
    else
      var moved := WithWords(st, side, Words(st, side) + [word]);
      (true, moved.(diff := st.diff + Factor(side) * |word|, seen := st.seen + {word},
                    stack := st.stack + [Added(side, word)]))
  }

  /** `remove(dir, word)`, with the exceptions of its `pop`, `assert` and `del`. */
  function Remove(st: Panama, side: Side, word: string): (r: Result<Panama>)
    ensures r.Ok? <==> Words(st, side) != [] && Words(st, side)[|Words(st, side)| - 1] == word
                       && word in st.seen && st.stack != []
    ensures r.Ok? ==>
      && Words(r.value, side) == Words(st, side)[..|Words(st, side)| - 1]
      && r.value.diff == st.diff - Factor(side) * |word|
      && r.value.seen == st.seen - {word}
      && r.value.stack == st.stack[..|st.stack| - 1]
  {
    var ws := Words(st, side);
    if ws == [] then Error("IndexError")
    else if ws[|ws| - 1] != word then Error("AssertionError")
    else if word !in st.seen then Error("KeyError")
    else if st.stack == [] then Error("IndexError")
    else
      var moved := WithWords(st, side, ws[..|ws| - 1]);
      Ok(moved.(diff := st.diff - Factor(side) * |word|, seen := st.seen - {word},
                stack := st.stack[..|st.stack| - 1]))
  }

  /** `remove` right after a successful `add` restores the state exactly. */
  lemma RemoveAfterAdd(st: Panama, side: Side, word: string)
    requires word !in st.seen
    ensures Remove(Add(st, side, word).1, side, word) == Ok(st)
  {
    var r := Add(st, side, word).1;
    assert Words(r, side)[..|Words(r, side)| - 1] == Words(st, side);
    assert r.stack[..|r.stack| - 1] == st.stack;
    assert st.seen + {word} - {word} == st.seen;
  }

  /** `add` keeps the state consistent. */
  lemma AddConsistent(st: Panama, side: Side, word: string)
    ensures Consistent(st) ==> Consistent(Add(st, side, word).1)
  {
    if Consistent(st) && word !in st.seen {
      var r := Add(st, side, word).1;
      SumLengthsSnoc(Words(st, side), word);
      var all := st.left + st.right;
      if side == Left {
        assert r.left + r.right == st.left + [word] + st.right;
        PlaceDistinct(st.left, st.right, word);
      } else {
        assert r.left + r.right == all + [word];
        PlaceDistinct(all, [], word);
        assert all + [word] + [] == all + [word];
      }
    }
  }

  /** Taking the last word off one side keeps the state consistent. */
  lemma RemoveConsistent(st: Panama, side: Side, word: string)
    requires Consistent(st) && Remove(st, side, word).Ok?
    ensures Consistent(Remove(st, side, word).value)
  {
    var r := Remove(st, side, word).value;
    var ws := Words(st, side);
    assert ws == ws[..|ws| - 1] + [word];
    SumLengthsSnoc(ws[..|ws| - 1], word);
    if side == Left {
      assert st.left + st.right == r.left + [word] + r.right;
      UnplaceDistinct(r.left, r.right, word);
    } else {
      assert st.left + st.right == (r.left + r.right) + [word] + [];
      UnplaceDistinct(r.left + r.right, [], word);
      assert r.left + r.right + [] == r.left + r.right;
    }
  }

  /** The true names of `ws` in order, or `KeyError` when one is missing. */
  function TrueNames(tn: map<string, string>, ws: seq<string>): (r: Result<seq<string>>)
    ensures r.Ok? <==> forall w :: w in ws ==> w in tn
    ensures r.Error? ==> r.exc == "KeyError"
    ensures r.Ok? ==> |r.value| == |ws| && forall i :: 0 <= i < |ws| ==> r.value[i] == tn[ws[i]]
  {
    if ws == [] then Ok([])
    else if ws[0] !in tn then Error("KeyError")
    else
      match TrueNames(tn, ws[1..])
      case Error(e) => Error(e)
      case Ok(rest) => Ok([tn[ws[0]]] + rest)
  }


  /** `len(self)` */
  function Size(st: Panama): nat { |st.left| + |st.right| }

  /** `str(self)`: the true names of the left words, then those of the right
      words in reverse order. */
  function Phrase(st: Panama): (r: Result<string>)
    ensures r.Ok? <==> forall w :: w in st.left + st.right ==> w in st.pd.truename
    ensures r.Error? ==> r.exc == "KeyError"
  {
    match TrueNames(st.pd.truename, st.left)
    case Error(e) => Error(e)
    case Ok(lefts) =>
      match TrueNames(st.pd.truename, st.right)
      case Error(e) => Error(e)
      case Ok(rights) => Ok(Join(lefts + Rev(rights), ", "))
  }

  /** `report()`, without its output: past 13333 phrases `tryharder` goes on;
      a state longer than the best, and either past 12500 phrases or 500 past
      the best, becomes the best once `str(self)` has named every word and
      the phrase has passed `assert is_panama(...)`. */
  function Report(st: Panama): (r: Result<Panama>)
    ensures r.Ok? ==> r.value == st.(best := r.value.best, pd := st.pd.(tryharder := r.value.pd.tryharder))
    ensures r.Ok? ==> (r.value.pd.tryharder <==> st.pd.tryharder || Size(st) > 13333)
    ensures r.Ok? ==>
      (r.value.best != st.best <==> Size(st) > st.best && (Size(st) > 12500 || Size(st) > st.best + 500))
    ensures r.Ok? && r.value.best != st.best ==>
      r.value.best == Size(st) && Phrase(st).Ok? && IsPanama(Phrase(st).value)
    ensures r.Error? <==>
      && Size(st) > st.best && (Size(st) > 12500 || Size(st) > st.best + 500)
      && (Phrase(st).Error? || !IsPanama(Phrase(st).value))
    ensures r.Error? ==> r.exc == if Phrase(st).Error? then "KeyError" else "AssertionError"
  {
    var n := Size(st);
    var pd := if n > 13333 then st.pd.(tryharder := true) else st.pd;
    if n > st.best && (n > 12500 || n > st.best + 500) then
      match Phrase(st)
      case Error(e) => Error(e)
      case Ok(p) => if IsPanama(p) then Ok(st.(pd := pd, best := n)) else Error("AssertionError")
    else Ok(st.(pd := pd))
  }

  /** A second report right after a successful one changes nothing, and a
      report keeps the state consistent. */
  lemma ReportSettles(st: Panama)
    ensures var r := Report(st); r.Ok? ==> Report(r.value) == Ok(r.value)
    ensures var r := Report(st); r.Ok? && Consistent(st) ==> Consistent(r.value)
  {
    var r := Report(st);
    if r.Ok? {
      assert Size(r.value) == Size(st);
      assert r.value.pd.tryharder ==> r.value.pd == r.value.pd.(tryharder := true);
    }
  }

  /** The loop of `add_reversibles` over the pairs `ps`. */
  function AddPairs(st: Panama, ps: seq<(string, string)>): (r: Panama)
    ensures Consistent(st) ==> Consistent(r)
    ensures r.pd == st.pd && r.usedReversibles == st.usedReversibles
    ensures st.left <= r.left && st.right <= r.right
    decreases |ps|
  {
    if ps == [] then st
    else
      var (w, rw) := ps[0];
      var next := if w !in st.seen && rw !in st.seen then Add(Add(st, Left, w).1, Right, rw).1 else st;
      AddTwiceConsistent(st, w, rw);
      AddPairs(next, ps[1..])
  }

  lemma AddTwiceConsistent(st: Panama, w: string, rw: string)
    ensures Consistent(st) ==> Consistent(Add(Add(st, Left, w).1, Right, rw).1)
  {
    if Consistent(st) {
      AddConsistent(st, Left, w);
      AddConsistent(Add(st, Left, w).1, Right, rw);
    }
  }

  /** `add_reversibles()`: place every reversible pair not yet seen, then clear
      the stack. */
  function AddReversibles(st: Panama): (r: Panama)
    ensures Consistent(st) ==> Consistent(r)
    ensures r.stack == [] && r.usedReversibles
    ensures r.pd == st.pd && st.left <= r.left && st.right <= r.right
  {
    AddPairs(st, Reversibles(st.pd.rwords, st.pd.truename)).(usedReversibles := true, stack := [])
  }

  /** `consider_candidates()`, with the exception raised when the longer side
      has no word to take the missing letters from and those of `report`. */
  function ConsiderCandidates(st: Panama, draw: Draw): (r: Result<Panama>)
    requires Sorted(st.pd)
    ensures (st.diff > 0 && st.left == []) || (st.diff < 0 && st.right == []) ==> r == Error("IndexError")
    ensures r.Error? && r.exc == "IndexError" ==> (st.diff > 0 && st.left == []) || (st.diff < 0 && st.right == [])
    ensures r.Ok? ==> Sorted(r.value.pd) && r.value.stack != []
    ensures r.Ok? ==> st.left <= r.value.left && st.right <= r.value.right
  {
    if st.diff > 0 then
      if st.left == [] then Error("IndexError")
      else
        var substr := From(st.left[|st.left| - 1], -st.diff);
        Push(st, Trying(Right, substr, EndsWithLookup(st.pd, substr, draw)))
    else if st.diff < 0 then
      if st.right == [] then Error("IndexError")
      else
        var substr := Rev(Upto(st.right[|st.right| - 1], -st.diff));
        Push(st, Trying(Left, substr, StartsWithLookup(st.pd, substr, draw)))
    else if st.usedReversibles then
      Push(st, Trying(Left, [], StartsWithLookup(st.pd, [], draw)))
    else
      match Report(st)
      case Error(e) => Error(e)
      case Ok(reported) =>
        var st1 := AddReversibles(reported);
        Push(st1, Trying(Left, [], StartsWithLookup(st1.pd, [], draw)))
  }

  /** In a consistent state only `report` can make `consider_candidates`
      raise, and the state stays consistent. */
  lemma ConsiderCandidatesConsistent(st: Panama, draw: Draw)
    requires Sorted(st.pd) && Consistent(st)
    ensures var r := ConsiderCandidates(st, draw);
      && (r.Ok? ==> Consistent(r.value))
      && (r.Error? ==> r.exc == "KeyError" || r.exc == "AssertionError")
  {
    ConsistentSides(st);
    if st.diff == 0 && !st.usedReversibles {
      ReportSettles(st);
    }
  }

  /** `consider_candidates` pushes exactly one `trying` frame: for the right
      side with the last `diff` letters of `left[-1]` when the left is longer,
      for the left side with the reversed first `-diff` letters of `right[-1]`
      when the right is longer. Only when both sides balance for the first
      time do the reversible words go in, and the stack starts afresh. */
  lemma ConsiderCandidatesFrame(st: Panama, draw: Draw)
    requires Sorted(st.pd) && ConsiderCandidates(st, draw).Ok?
    ensures var r := ConsiderCandidates(st, draw).value;
      var top := r.stack[|r.stack| - 1];
      && top.Trying?
      && (st.diff != 0 || st.usedReversibles ==> r.stack[..|r.stack| - 1] == st.stack)
      && (st.diff != 0 || st.usedReversibles ==> r.left == st.left && r.right == st.right)
      && (st.diff == 0 && !st.usedReversibles ==> |r.stack| == 1)
      && (st.diff == 0 ==> top.side == Left && top.substr == [])
      && (st.diff > 0 ==> top.side == Right && top.substr == From(st.left[|st.left| - 1], -st.diff)
                          && top.candidates == EndsWithLookup(st.pd, top.substr, draw))
      && (st.diff < 0 ==> top.side == Left && top.substr == Rev(Upto(st.right[|st.right| - 1], -st.diff))
                          && top.candidates == StartsWithLookup(st.pd, top.substr, draw))
  {
    if st.diff > 0 {
      FrameRight(st, draw);
    } else if st.diff < 0 {
      FrameLeft(st, draw);
    } else {
      FrameBalanced(st, draw);
    }
  }

  lemma FrameRight(st: Panama, draw: Draw)
    requires Sorted(st.pd) && st.diff > 0 && ConsiderCandidates(st, draw).Ok?
    ensures var r := ConsiderCandidates(st, draw).value;
      var substr := From(st.left[|st.left| - 1], -st.diff);
      && r.stack == st.stack + [Trying(Right, substr, EndsWithLookup(st.pd, substr, draw))]
      && r.left == st.left && r.right == st.right
  {
  }

  lemma FrameLeft(st: Panama, draw: Draw)
    requires Sorted(st.pd) && st.diff < 0 && ConsiderCandidates(st, draw).Ok?
    ensures var r := ConsiderCandidates(st, draw).value;
      var substr := Rev(Upto(st.right[|st.right| - 1], -st.diff));
      && r.stack == st.stack + [Trying(Left, substr, StartsWithLookup(st.pd, substr, draw))]
      && r.left == st.left && r.right == st.right
  {
  }

  lemma FrameBalanced(st: Panama, draw: Draw)
    requires Sorted(st.pd) && st.diff == 0 && ConsiderCandidates(st, draw).Ok?
    ensures var r := ConsiderCandidates(st, draw).value;
      var top := r.stack[|r.stack| - 1];
      && top.Trying? && top.side == Left && top.substr == []
      && (st.usedReversibles ==> r.stack[..|r.stack| - 1] == st.stack && r.left == st.left && r.right == st.right)
      && (!st.usedReversibles ==> |r.stack| == 1)
  {
  }

  /** Push a frame, reporting first when its missing letters read the same
      both ways. */
  function Push(st: Panama, f: Frame): (r: Result<Panama>)
    ensures r.Error? <==> f.Trying? && f.substr == Rev(f.substr) && Report(st).Error?
    ensures r.Ok? ==> r.value.left == st.left && r.value.right == st.right && r.value.seen == st.seen
    ensures r.Ok? ==> r.value.diff == st.diff && r.value.usedReversibles == st.usedReversibles
    ensures r.Ok? ==> r.value.stack == st.stack + [f]
    ensures r.Ok? ==> r.value.pd.words == st.pd.words && r.value.pd.rwords == st.pd.rwords
  {
    if f.Trying? && f.substr == Rev(f.substr) then
      match Report(st)
      case Error(e) => Error(e)
      case Ok(st1) => Ok(st1.(stack := st1.stack + [f]))
    else Ok(st.(stack := st.stack + [f]))
  }

  /** In a consistent state the longer side has a word. */
  lemma ConsistentSides(st: Panama)
    requires Consistent(st)
    ensures st.diff > 0 ==> st.left != []
    ensures st.diff < 0 ==> st.right != []
  {
  }

  /** The words `add` places, in order, when offered `ws` with the words of
      `seen` already placed: each one not seen before. */
  function Unseen(seen: set<string>, ws: seq<string>): (r: seq<string>)
    decreases |ws|
  {
    if ws == [] then []
    else if ws[0] in seen then Unseen(seen, ws[1..])
    else [ws[0]] + Unseen(seen + {ws[0]}, ws[1..])
  }

  /** Distinct words none of which was placed are all placed. */
  lemma {:induction false} UnseenAll(seen: set<string>, ws: seq<string>)
    requires Distinct(ws) && forall w :: w in ws ==> w !in seen
    ensures Unseen(seen, ws) == ws
    decreases |ws|
  {
    if ws != [] {
      assert forall k :: 1 <= k < |ws| ==> ws[k] != ws[0];
      assert forall w :: w in ws[1..] ==> w !in seen + {ws[0]};
      UnseenAll(seen + {ws[0]}, ws[1..]);
    }
  }

  /** A word offered twice is placed once. */
  lemma UnseenRepeat(w: string)
    ensures Unseen({}, [w, w]) == [w]
  {
    assert [w, w][1..] == [w];
    assert Unseen({w}, [w]) == Unseen({w}, []);
    assert {} + {w} == {w};
  }

  /** The loops of `__init__`: add every word of `ws` to one side. */
  function AddAll(st: Panama, side: Side, ws: seq<string>): (r: Panama)
    ensures Consistent(st) ==> Consistent(r)
    ensures StackMatches(st.stack, st.left, st.right) ==> StackMatches(r.stack, r.left, r.right)
    ensures r.pd == st.pd && r.usedReversibles == st.usedReversibles
    ensures Words(r, side) == Words(st, side) + Unseen(st.seen, ws)
    ensures side == Left ==> r.right == st.right
    ensures side == Right ==> r.left == st.left
    decreases |ws|
  {
    if ws == [] then st
    else
      var next := Add(st, side, ws[0]).1;
      AddConsistent(st, side, ws[0]);
      AddMatches(st, side, ws[0]);
      AddUnseen(st, side, ws);
      AddAll(next, side, ws[1..])
  }

  /** Offering the first word, then the rest, places the unseen words. */
  lemma AddUnseen(st: Panama, side: Side, ws: seq<string>)
    requires ws != []
    ensures var next := Add(st, side, ws[0]).1;
      Words(next, side) + Unseen(next.seen, ws[1..]) == Words(st, side) + Unseen(st.seen, ws)
  {
    if ws[0] !in st.seen {
      var u := Unseen(st.seen + {ws[0]}, ws[1..]);
      assert Unseen(st.seen, ws) == [ws[0]] + u;
      AppendAssoc(Words(st, side), [ws[0]], u);
    }
  }

  /** `[canonical(word) for word in ws]` */
  function Canonicals(ws: seq<string>): (r: seq<string>)
    ensures |r| == |ws| && forall i :: 0 <= i < |ws| ==> r[i] == CanonicalForm(ws[i])
  {
    if ws == [] then [] else [CanonicalForm(ws[0])] + Canonicals(ws[1..])
  }

  /** `[canonical(reversestr(rword)) for rword in ws]` */
  function Backwards(ws: seq<string>): (r: seq<string>)
    ensures |r| == |ws| && forall i :: 0 <= i < |ws| ==> r[i] == CanonicalForm(Rev(ws[i]))
  {
    if ws == [] then [] else [CanonicalForm(Rev(ws[0]))] + Backwards(ws[1..])
  }

  /** The words the constructor places on the left, ... */
  function InitLeft(L: string): seq<string>
  {
    Unseen({}, Canonicals(Split(L, ",")))
  }

  /** ... and those it then places on the right. */
  function InitRight(L: string, R: string): seq<string>
  {
    Unseen(ToSet(InitLeft(L)), Backwards(Split(Rev(R), ",")))
  }

  /** When the canonical phrases of `L` and `R` are all different, the
      constructor places every one of them. */
  lemma InitDistinctPhrases(L: string, R: string)
    requires Distinct(Canonicals(Split(L, ",")) + Backwards(Split(Rev(R), ",")))
    ensures InitLeft(L) == Canonicals(Split(L, ","))
    ensures InitRight(L, R) == Backwards(Split(Rev(R), ","))
  {
    UnseenPair(Canonicals(Split(L, ",")), Backwards(Split(Rev(R), ",")));
  }

  /** Words offered to one side and then the other, all different, are all placed. */
  lemma UnseenPair(ls: seq<string>, rs: seq<string>)
    requires Distinct(ls + rs)
    ensures Unseen({}, ls) == ls && Unseen(ToSet(ls), rs) == rs
  {
    var all := ls + rs;
    forall i, j | 0 <= i < j < |ls| ensures ls[i] != ls[j] {
      assert ls[i] == all[i] && ls[j] == all[j];
    }
    UnseenAll({}, ls);
    forall i, j | 0 <= i < j < |rs| ensures rs[i] != rs[j] {
      assert rs[i] == all[|ls| + i] && rs[j] == all[|ls| + j];
    }
    forall w | w in rs ensures w !in ToSet(ls) {
      var j :| 0 <= j < |rs| && rs[j] == w;
      forall i | 0 <= i < |ls| ensures ls[i] != w {
        assert ls[i] == all[i] && w == all[|ls| + j];
      }
    }
    UnseenAll(ToSet(ls), rs);
  }

  /** `Panama(L, R)`: the comma-separated phrases of `L` go on the left and
      those of `R`, read backwards, on the right, each in canonical form and
      each only if not placed already; then the first candidates are pushed,
      which may add the reversible words to both sides when they balance. */
  function Init(L: string, R: string, pd: PalDict, draw: Draw): (r: Result<Panama>)
    requires Sorted(pd)
    ensures r.Ok? ==> Consistent(r.value) && Sorted(r.value.pd)
    ensures r.Ok? ==> StackMatches(r.value.stack, r.value.left, r.value.right)
    ensures r.Error? ==> r.exc == "KeyError" || r.exc == "AssertionError"
    ensures r.Ok? ==> InitLeft(L) <= r.value.left && InitRight(L, R) <= r.value.right
    ensures r.Ok? && SumLengths(InitLeft(L)) != SumLengths(InitRight(L, R)) ==>
      r.value.left == InitLeft(L) && r.value.right == InitRight(L, R)
  {
    var st0 := Panama([], [], 0, {}, 0, [], false, pd);
    assert Consistent(st0);
    var st1 := AddAll(st0, Left, Canonicals(Split(L, ",")));
    assert st1.left + st1.right == InitLeft(L);
    var st2 := AddAll(st1, Right, Backwards(Split(Rev(R), ",")));
    InitSides(st1, st2, L, R);
    ConsiderCandidatesConsistent(st2, draw);
    var r := ConsiderCandidates(st2, draw);
    if r.Ok? then
      ConsiderMatches(st2, draw);
      ConsiderCandidatesFrame(st2, draw);
      r
    else r
  }

  lemma InitSides(st1: Panama, st2: Panama, L: string, R: string)
    requires Consistent(st1) && st1.left == InitLeft(L) && st1.right == []
    requires st2 == AddAll(st1, Right, Backwards(Split(Rev(R), ",")))
    ensures st2.left == InitLeft(L) && st2.right == InitRight(L, R)
    ensures Consistent(st2) && st2.diff == SumLengths(InitLeft(L)) - SumLengths(InitRight(L, R))
  {
    assert st1.left + st1.right == InitLeft(L);
  }

  /** The `added` frames of the stack, read from the top, name the last words
      of the sides in the order they were placed: the invariant that lets
      every `remove` of the search succeed. */
  ghost predicate StackMatches(stack: seq<Frame>, left: seq<string>, right: seq<string>)
    decreases |stack|
  {
    if stack == [] then true
    else
      var below := stack[..|stack| - 1];
      match stack[|stack| - 1]
      case Trying(_, _, _) => StackMatches(below, left, right)
      case Added(side, w) =>
        if side == Left then left != [] && left[|left| - 1] == w && StackMatches(below, left[..|left| - 1], right)
        else right != [] && right[|right| - 1] == w && StackMatches(below, left, right[..|right| - 1])
  }

  lemma StackMatchesTop(below: seq<Frame>, f: Frame, left: seq<string>, right: seq<string>)
    ensures StackMatches(below + [f], left, right) <==>
      match f
      case Trying(_, _, _) => StackMatches(below, left, right)
      case Added(side, w) =>
        if side == Left then left != [] && left[|left| - 1] == w && StackMatches(below, left[..|left| - 1], right)
        else right != [] && right[|right| - 1] == w && StackMatches(below, left, right[..|right| - 1])
  {
    assert (below + [f])[..|below|] == below;
  }

  lemma AddMatches(st: Panama, side: Side, w: string)
    ensures StackMatches(st.stack, st.left, st.right) ==>
      var r := Add(st, side, w).1; StackMatches(r.stack, r.left, r.right)
  {
    if w !in st.seen {
      var r := Add(st, side, w).1;
      StackMatchesTop(st.stack, Added(side, w), r.left, r.right);
      if side == Left {
        assert r.left[..|r.left| - 1] == st.left;
      } else {
        assert r.right[..|r.right| - 1] == st.right;
      }
    }
  }

  lemma ConsiderMatches(st: Panama, draw: Draw)
    requires Sorted(st.pd) && ConsiderCandidates(st, draw).Ok? && StackMatches(st.stack, st.left, st.right)
    ensures var r := ConsiderCandidates(st, draw).value; StackMatches(r.stack, r.left, r.right)
  {
    var r := ConsiderCandidates(st, draw).value;
    ConsiderCandidatesFrame(st, draw);
    var below := r.stack[..|r.stack| - 1];
    var top := r.stack[|r.stack| - 1];
    assert r.stack == below + [top];
    StackMatchesTop(below, top, r.left, r.right);
    if st.diff == 0 && !st.usedReversibles {
      assert below == [];
    }
  }

  /** `search(steps)`. `done` is the 'done' it returns when the stack runs
      out; in a state built by the constructor only `report` raises. */
  method Search(start: Panama, steps: nat, draws: nat -> Draw) returns (r: Result<Panama>, done: bool)
    requires Sorted(start.pd) && Consistent(start) && StackMatches(start.stack, start.left, start.right)
    ensures r.Ok? ==> Consistent(r.value) && Sorted(r.value.pd) && StackMatches(r.value.stack, r.value.left, r.value.right)
    ensures r.Error? ==> !done && (r.exc == "KeyError" || r.exc == "AssertionError")
    ensures done ==> r.Ok? && r.value.stack == []
    ensures steps == 0 ==> r == Ok(start) && !done
  {
    var st := start;
    done := false;
    var i := 0;
    while i < steps
      invariant 0 <= i <= steps
      invariant Consistent(st) && Sorted(st.pd) && StackMatches(st.stack, st.left, st.right)
      invariant i == 0 ==> st == start
    {
      if st.stack == [] {
        return Ok(st), true;
      }
      var next := Step(st, draws(i));
      if next.Error? {
        return next, false;
      }
      st := next.value;
      i := i + 1;
    }
    r := Ok(st);
  }

  /** One pass of the loop of `search` on a non-empty stack: undo the word
      added last, try the next candidate of the top frame, or pop the frame
      when it has none. */
  method Step(st: Panama, draw: Draw) returns (r: Result<Panama>)
    requires Sorted(st.pd) && Consistent(st) && StackMatches(st.stack, st.left, st.right) && st.stack != []
    ensures r.Ok? ==> Consistent(r.value) && Sorted(r.value.pd) && StackMatches(r.value.stack, r.value.left, r.value.right)
    ensures r.Error? ==> r.exc == "KeyError" || r.exc == "AssertionError"
  {
    var below := st.stack[..|st.stack| - 1];
    var top := st.stack[|st.stack| - 1];
    assert st.stack == below + [top];
    StackMatchesTop(below, top, st.left, st.right);
    match top {
      case Added(side, w) =>
        assert w in st.left + st.right;
        RemoveConsistent(st, side, w);
        r := Remove(st, side, w);
      case Trying(side, substr, candidates) =>
        if candidates == [] {
          r := Ok(st.(stack := below));
        } else {
          r := TryNext(st, below, side, substr, candidates, draw);
        }
    }
  }

  /** Take the last candidate off the top frame and add it; when it is placed,
      consider the candidates for the new state. */
  method TryNext(st: Panama, below: seq<Frame>, side: Side, substr: string, candidates: seq<string>, draw: Draw)
    returns (r: Result<Panama>)
    requires Sorted(st.pd) && Consistent(st) && candidates != []
    requires st.stack == below + [Trying(side, substr, candidates)]
    requires StackMatches(below, st.left, st.right)
    ensures r.Ok? ==> Consistent(r.value) && Sorted(r.value.pd) && StackMatches(r.value.stack, r.value.left, r.value.right)
    ensures r.Error? ==> r.exc == "KeyError" || r.exc == "AssertionError"
  {
    var w := candidates[|candidates| - 1];
    var popped := Trying(side, substr, candidates[..|candidates| - 1]);
    StackMatchesTop(below, popped, st.left, st.right);
    var cur := st.(stack := below + [popped]);
    assert Consistent(cur) && Sorted(cur.pd);
    var (added, next) := Add(cur, side, w);
    AddConsistent(cur, side, w);
    AddMatches(cur, side, w);
    if !added {
      return Ok(next);
    }
    ConsiderCandidatesConsistent(next, draw);
    r := ConsiderCandidates(next, draw);
    if r.Ok? {
      ConsiderMatches(next, draw);
    }
  }
}
