/** The first palindrome search, `pal.py`: alphanumeric canonical forms, a
    random prefix lookup that excludes the prefix itself and draws with
    replacement, and a search whose `backtrack` pops from the side the sign of
    `diff` names. */
module Pal {
  import opened Common
  import opened SortedWords
  import Pal2

  // ------------------------------------------------------ checking a phrase

  predicate IsAlnum(c: char) { IsLetter(c) || IsDigit(c) }

  /** `canonical(word)`: only ASCII letters and digits kept, lower-cased. */
  function CanonicalForm(word: string): (r: string)
    ensures |r| <= |word|
    ensures forall i :: 0 <= i < |r| ==> IsLower(r[i]) || IsDigit(r[i])
  {
    Canonical(IsAlnum, word)
  }

  lemma CanonicalFormExactly(word: string)
    ensures CanonicalForm(word) == LowerStr(Filter(IsAlnum, word))
  {
    CanonicalIsLowerFilter(IsAlnum, word);
  }

  /** `is_palindrome(phrase)`: the test is on the canonical form. */
  predicate IsPalindromePhrase(p: string) { IsPalindrome(CanonicalForm(p)) }

  /** Case and punctuation do not count: "Aa" is a palindrome phrase although
      its characters are not a palindrome. */
  lemma CaseBlindPalindrome()
    ensures IsPalindromePhrase("Aa") && !IsPalindrome("Aa")
  {
    CanonicalFormExactly("Aa");
    assert Filter(IsAlnum, "Aa") == "Aa" by {
      assert Filter(IsAlnum, "a") == "a" by {
        assert Filter(IsAlnum, "a"[1..]) == [];
      }
      assert "Aa"[1..] == "a";
    }
    assert LowerStr("Aa") == "aa";
    assert Rev("aa") == "aa" by {
      assert Rev("aa")[0] == 'a' && Rev("aa")[1] == 'a';
    }
    assert Rev("Aa")[0] == 'a';
  }

  /** `is_panama(p)`: it must also end with 'Panama'. Its `is_unique` counts
      the keys of `dict(zip(seq, seq))`, which are the distinct phrases. */
  function IsPanama(p: string): (r: bool)
    ensures r <==> EndsWith(p, "Panama") && IsPalindrome(CanonicalForm(p)) && Distinct(Pal2.Phrases(p))
  {
    Pal2.IsUniqueIffDistinct(Pal2.Phrases(p));
    EndsWith(p, "Panama") && IsPalindromePhrase(p) && Pal2.IsUnique(Pal2.Phrases(p))
  }

  // --------------------------------------------------------------- lookups

  /** The words strictly above `prefix` and not above `prefix + 'zzzz'`. */
  function Pool(words: seq<string>, prefix: string): (pool: seq<string>)
    requires SortedLex(words)
    ensures forall w :: w in pool <==>
      w in words && StartsWith(w, prefix) && w != prefix && LexLe(w[|prefix|..], "zzzz")
  {
    ZzzzAbove(prefix);
    BisectOrdered(words, prefix, Zzzz(prefix), false);
    forall w ensures w in words[BisectRight(words, prefix)..BisectRight(words, Zzzz(prefix))] <==>
      w in words && StartsWith(w, prefix) && w != prefix && LexLe(w[|prefix|..], "zzzz")
    {
      SliceMembers(words, prefix, Zzzz(prefix), false, w);
      InLookupRange(w, prefix);
      if LexLess(prefix, w) {
        LexLessIrreflexive(w);
      }
    }
    words[BisectRight(words, prefix)..BisectRight(words, Zzzz(prefix))]
  }

  /** What the random calls of one lookup return: the proposal for
      `random.shuffle` and the numbers behind the `randrange` draws. */
  datatype Draw = Draw(shuffle: seq<string>, picks: seq<nat>)

  /** `k_startingwith(k, words, prefix)` */
  function KStartingWith(k: nat, words: seq<string>, prefix: string, draw: Draw): (r: seq<string>)
    requires SortedLex(words)
    ensures forall w :: w in r ==> w in Pool(words, prefix)
    ensures |Pool(words, prefix)| <= k ==> multiset(r) == multiset(Pool(words, prefix))
    ensures |Pool(words, prefix)| > k ==> |r| == k
  {
    var pool := Pool(words, prefix);
    if k >= |pool| then
      var r := Shuffled(draw.shuffle, pool);
      assert forall w :: w in r ==> w in multiset(pool);
      r
    else
      WithReplacement(pool, k, draw.picks)
  }

  /** `k` calls of `random.randrange` over the pool: the `i`-th word is the
      pool's entry at the `i`-th draw modulo the pool's size. */
  function WithReplacement(pool: seq<string>, k: nat, picks: seq<nat>): (r: seq<string>)
    requires pool != []
    ensures |r| == k
    ensures forall w :: w in r ==> w in pool
    ensures forall i :: 0 <= i < k && i < |picks| ==> r[i] == pool[picks[i] % |pool|]
  {
    seq(k, i requires 0 <= i < k => pool[(if i < |picks| then picks[i] else 0) % |pool|])
  }

  /** Draws with replacement can repeat a word: when the range is larger
      than `k`, the draws `0` and `n` pick the same word twice. */
  lemma DrawsMayRepeat(k: nat, words: seq<string>, prefix: string, n: nat)
    requires SortedLex(words) && n == |Pool(words, prefix)| && 2 <= k < n
    ensures var r := KStartingWith(k, words, prefix, Draw([], [0, n]));
      |r| == k && r[0] == r[1]
  {
    var r := WithReplacement(Pool(words, prefix), k, [0, n]);
    assert KStartingWith(k, words, prefix, Draw([], [0, n])) == r;
    assert r[0] == r[1] by {
      assert [0, n][1] % n == 0 % n;
    }
  }

  /** A dictionary of canonical words `fw` and reversed words `bw`, both sorted. */
  datatype PalDict = PalDict(fw: seq<string>, bw: seq<string>, truename: map<string, string>)

  predicate Sorted(d: PalDict) { SortedLex(d.fw) && SortedLex(d.bw) }

  // --------------------------------------------------------------- search

  /** A `Panama` state. `right` holds reversed words; `seen` holds the left
      words and the right words turned forwards. A stack entry is a missing
      substring with the candidate words still to try. */
  datatype Panama = Panama(
    left: seq<string>,
    right: seq<string>,
    seen: set<string>,
    diff: int,
    best: int,
    stack: seq<(string, seq<string>)>,
    pd: PalDict)

  function RevAll(ws: seq<string>): (r: seq<string>)
    ensures |r| == |ws| && forall i :: 0 <= i < |ws| ==> r[i] == Rev(ws[i])
  {
    seq(|ws|, i requires 0 <= i < |ws| => Rev(ws[i]))
  }

  function Words(st: Panama): seq<string> { st.left + RevAll(st.right) }

  /** What every step keeps: `diff` counts the left letters in excess of the
      right, and `seen` holds exactly the words placed, none twice. */
  predicate Tracked(st: Panama)
  {
    && st.diff == SumLengths(st.left) - SumLengths(st.right)
    && Distinct(Words(st))
    && st.seen == ToSet(Words(st))
  }

  /** `Panama(L, R)`: the ', '-separated phrases of `L` forwards, those of `R`
      in reverse order and each reversed, all in canonical form. */
  function Init(L: string, R: string, pd: PalDict): (st: Panama)
    ensures st.diff == SumLengths(st.left) - SumLengths(st.right)
    ensures st.seen == ToSet(Words(st))
    ensures |st.left| == |Split(L, ", ")| && |st.right| == |Split(R, ", ")|
    ensures forall i :: 0 <= i < |st.left| ==> st.left[i] == CanonicalForm(Split(L, ", ")[i])
    ensures forall i :: 0 <= i < |st.right| ==>
      st.right[i] == CanonicalForm(Rev(Rev(Split(R, ", "))[i]))
  {
    var left := Canonicals(Split(L, ", "));
    var right := Backwards(Rev(Split(R, ", ")));
    ConcatLength(left);
    ConcatLength(right);
    Panama(left, right, ToSet(left + RevAll(right)), |Concat(left)| - |Concat(right)|, 0, [], pd)
  }

  /** `[canonical(reverse(w)) for w in ws]` */
  function Backwards(ws: seq<string>): (r: seq<string>)
    ensures |r| == |ws|
    ensures forall i :: 0 <= i < |ws| ==> r[i] == CanonicalForm(Rev(ws[i]))
  {
    if ws == [] then [] else [CanonicalForm(Rev(ws[0]))] + Backwards(ws[1..])
  }

  /** `[canonical(w) for w in ws]` */
  function Canonicals(ws: seq<string>): (r: seq<string>)
    ensures |r| == |ws| && forall i :: 0 <= i < |ws| ==> r[i] == CanonicalForm(ws[i])
  {
    if ws == [] then [] else [CanonicalForm(ws[0])] + Canonicals(ws[1..])
  }

  lemma ConcatLength(ws: seq<string>)
    ensures |Concat(ws)| == SumLengths(ws)
  {
  }

  /** `missing(k)`: the letters the shorter side lacks and the candidates for
      them. With `diff == 0` the slice `[-0:]` takes the whole last word. */
  function Missing(st: Panama, k: nat, draw: Draw): (r: Result<(string, seq<string>)>)
    requires Sorted(st.pd)
    ensures r.Error? <==> (st.diff >= 0 && st.left == []) || (st.diff < 0 && st.right == [])
  {
    if st.diff >= 0 then
      if st.left == [] then Error("IndexError")
      else
        var substr := From(st.left[|st.left| - 1], -st.diff);
        Ok((substr, KStartingWith(k, st.pd.bw, substr, draw)))
    else
      if st.right == [] then Error("IndexError")
      else
        var substr := From(st.right[|st.right| - 1], st.diff);
        Ok((substr, KStartingWith(k, st.pd.fw, substr, draw)))
  }

  /** `s[-d:]` for `d >= 0`: the last `d` letters, or all of `s` when `d` is 0
      or too large. */
  lemma LastLetters(s: string, d: nat)
    ensures From(s, -(d as int)) == if 0 < d <= |s| then s[|s| - d..] else s
  {
  }

  /** The substring is the missing tail of the longer side's last word, the
      whole word when the sides balance, and the candidates come from the
      other side's list. */
  lemma MissingSubstring(st: Panama, k: nat, draw: Draw)
    requires Sorted(st.pd)
    ensures var r := Missing(st, k, draw);
      st.diff >= 0 && st.left != [] ==>
        var w := st.left[|st.left| - 1];
        && r.Ok?
        && r.value.0 == (if 0 < st.diff <= |w| then w[|w| - st.diff..] else w)
        && r.value.1 == KStartingWith(k, st.pd.bw, r.value.0, draw)
    ensures var r := Missing(st, k, draw);
      st.diff < 0 && st.right != [] ==>
        var w := st.right[|st.right| - 1];
        && r.Ok?
        && r.value.0 == (if -st.diff <= |w| then w[|w| + st.diff..] else w)
        && r.value.1 == KStartingWith(k, st.pd.fw, r.value.0, draw)
  {
    if st.diff >= 0 && st.left != [] {
      LastLetters(st.left[|st.left| - 1], st.diff);
    }
    if st.diff < 0 && st.right != [] {
      LastLetters(st.right[|st.right| - 1], -st.diff);
    }
  }

  /** `extend(word, k)`: a word goes to the right when the left is at least as
      long (its forward form is what `seen` records), otherwise to the left;
      an already seen word changes nothing. */
  function Extend(st: Panama, word: string, k: nat, draw: Draw): (r: Result<Panama>)
    requires Sorted(st.pd)
    ensures r.Ok? ==> r.value.best == st.best && r.value.pd == st.pd
    ensures st.diff >= 0 && Rev(word) in st.seen ==> r == Ok(st)
    ensures st.diff < 0 && word in st.seen ==> r == Ok(st)
    ensures st.diff >= 0 && Rev(word) !in st.seen && r.Ok? ==>
      && r.value == st.(diff := st.diff - |word|, seen := st.seen + {Rev(word)}, right := st.right + [word],
                        stack := r.value.stack)
      && Pushes(st.stack, r.value.stack)
    ensures st.diff < 0 && word !in st.seen && r.Ok? ==>
      && r.value == st.(diff := st.diff + |word|, seen := st.seen + {word}, left := st.left + [word],
                        stack := r.value.stack)
      && Pushes(st.stack, r.value.stack)
  {
    if st.diff >= 0 then
      var fword := Rev(word);
      if fword in st.seen then Ok(st)
      else Place(st.(diff := st.diff - |fword|, seen := st.seen + {fword}, right := st.right + [word]), k, draw)
    else
      if word in st.seen then Ok(st)
      else Place(st.(diff := st.diff + |word|, seen := st.seen + {word}, left := st.left + [word]), k, draw)
  }

  /** `after` is `before` with one more entry on top. */
  predicate Pushes<E(==)>(before: seq<E>, after: seq<E>)
  {
    |after| == |before| + 1 && after[..|before|] == before
  }

  /** Push `missing(k)` for the state reached. */
  function Place(st: Panama, k: nat, draw: Draw): (r: Result<Panama>)
    requires Sorted(st.pd)
    ensures r.Ok? ==> r.value == st.(stack := r.value.stack) && Pushes(st.stack, r.value.stack)
    ensures r.Error? <==> Missing(st, k, draw).Error?
  {
    match Missing(st, k, draw)
    case Error(e) => Error(e)
    case Ok(m) => Ok(st.(stack := st.stack + [m]))
  }

  /** `backtrack()`: with `diff >= 0` the last left word comes off, otherwise
      the last right word, whichever side the last `extend` used; 0 with no
      change when that side is empty. */
  function Backtrack(st: Panama): (r: Result<(int, Panama)>)
    ensures st.diff >= 0 && st.left == [] ==> r == Ok((0, st))
    ensures st.diff < 0 && st.right == [] ==> r == Ok((0, st))
    ensures r.Ok? && r.value.0 == 0 ==> r.value.1 == st
    ensures r.Ok? ==> r.value.1.best == st.best && r.value.1.pd == st.pd
    ensures r.Ok? && r.value.0 != 0 ==> r.value.0 == 1 && st.stack != []
    ensures r.Ok? && r.value.0 != 0 && st.diff >= 0 ==>
      var word := st.left[|st.left| - 1];
      r.value.1 == st.(left := st.left[..|st.left| - 1], diff := st.diff - |word|,
                       seen := st.seen - {word}, stack := st.stack[..|st.stack| - 1])
    ensures r.Ok? && r.value.0 != 0 && st.diff < 0 ==>
      var word := st.right[|st.right| - 1];
      r.value.1 == st.(right := st.right[..|st.right| - 1], diff := st.diff + |word|,
                       seen := st.seen - {Rev(word)}, stack := st.stack[..|st.stack| - 1])
  {
    if st.diff >= 0 then
      if st.left == [] then Ok((0, st))
      else
        var word := st.left[|st.left| - 1];
        if word !in st.seen then Error("KeyError")
        else if st.stack == [] then Error("IndexError")
        else
          Ok((1, st.(left := st.left[..|st.left| - 1], diff := st.diff - |word|, seen := st.seen - {word},
                     stack := st.stack[..|st.stack| - 1])))
    else
      if st.right == [] then Ok((0, st))
      else
        var word := st.right[|st.right| - 1];
        if Rev(word) !in st.seen then Error("KeyError")
        else if st.stack == [] then Error("IndexError")
        else
          Ok((1, st.(right := st.right[..|st.right| - 1], diff := st.diff + |word|, seen := st.seen - {Rev(word)},
                     stack := st.stack[..|st.stack| - 1])))
  }

  /** Backtracking right after an extension undoes it exactly when the
      extension flipped the sign of `diff`, so that the popped side is the one
      extended. */
  lemma BacktrackUndoesExtend(st: Panama, word: string, k: nat, draw: Draw)
    requires Sorted(st.pd)
    ensures var e := Extend(st, word, k, draw);
      e.Ok? ==>
        (Backtrack(e.value) == Ok((1, st)) <==>
           || (st.diff >= 0 && Rev(word) !in st.seen && st.diff - |word| < 0)
           || (st.diff < 0 && word !in st.seen && st.diff + |word| >= 0))
  {
    var e := Extend(st, word, k, draw);
    if e.Ok? {
      if (st.diff >= 0 && Rev(word) in st.seen) || (st.diff < 0 && word in st.seen) {
        PopChanges(st);
      } else if st.diff >= 0 {
        if e.value.diff < 0 {
          UndoRight(st, word, e.value);
        } else {
          PopChanges(e.value);
        }
      } else {
        if e.value.diff >= 0 {
          UndoLeft(st, word, e.value);
        } else {
          PopChanges(e.value);
        }
      }
    }
  }

  /** A backtrack that pops a word never returns the state it started from,
      nor one with the same words on the side it did not pop. */
  lemma PopChanges(x: Panama)
    ensures var b := Backtrack(x); b.Ok? && b.value.0 == 1 ==>
      && b.value.1 != x
      && (x.diff >= 0 ==> |b.value.1.left| == |x.left| - 1)
      && (x.diff < 0 ==> |b.value.1.right| == |x.right| - 1)
  {
  }

  lemma UndoRight(st: Panama, word: string, x: Panama)
    requires Rev(word) !in st.seen
    requires x == st.(diff := st.diff - |word|, seen := st.seen + {Rev(word)}, right := st.right + [word],
                      stack := x.stack)
    requires Pushes(st.stack, x.stack) && x.diff < 0
    ensures Backtrack(x) == Ok((1, st))
  {
    var w := x.right[|x.right| - 1];
    assert w == word;
    assert Rev(w) in x.seen;
    var y := x.(right := x.right[..|x.right| - 1], diff := x.diff + |w|, seen := x.seen - {Rev(w)},
                stack := x.stack[..|x.stack| - 1]);
    assert !(x.diff >= 0) && x.right != [] && x.stack != [];
    assert Backtrack(x).Ok?;
    assert Backtrack(x).value.0 == 1;
    assert Backtrack(x).value.1 == y;
    assert y.right == st.right && y.stack == st.stack && y.seen == st.seen && y.diff == st.diff;
    assert y == st;
  }

  lemma UndoLeft(st: Panama, word: string, x: Panama)
    requires word !in st.seen
    requires x == st.(diff := st.diff + |word|, seen := st.seen + {word}, left := st.left + [word],
                      stack := x.stack)
    requires Pushes(st.stack, x.stack) && x.diff >= 0
    ensures Backtrack(x) == Ok((1, st))
  {
    assert x.left[|x.left| - 1] == word;
    assert x.left[..|x.left| - 1] == st.left;
    assert x.stack[..|x.stack| - 1] == st.stack;
    assert x.seen - {word} == st.seen;
    assert x.diff - |word| == st.diff;
  }

  /** When the sign of `diff` survives the extension, backtracking pops the
      other side: with the left two letters ahead, adding a one-letter word on
      the right and backtracking removes the left word instead. */
  lemma BacktrackNotInverse(pd: PalDict, draw: Draw)
    requires Sorted(pd)
    ensures var st := Panama(["ab"], [], {"ab"}, 2, 0, [("", [])], pd);
      var e := Extend(st, "x", 0, draw);
      && e.Ok?
      && e.value.right == ["x"]
      && Backtrack(e.value).Ok?
      && Backtrack(e.value).value.1.left == []
      && Backtrack(e.value).value.1.right == ["x"]
  {
    var st := Panama(["ab"], [], {"ab"}, 2, 0, [("", [])], pd);
    assert Rev("x") == "x";
    assert "x" != "ab";
    assert Missing(st.(diff := 1, seen := {"ab", "x"}, right := ["x"]), 0, draw).Ok?;
  }

  /** `extend` keeps the state tracked. */
  lemma ExtendTracked(st: Panama, word: string, k: nat, draw: Draw)
    requires Sorted(st.pd) && Tracked(st)
    ensures var e := Extend(st, word, k, draw); e.Ok? ==> Tracked(e.value)
  {
    var e := Extend(st, word, k, draw);
    if e.Ok? && e.value != st {
      if st.diff >= 0 {
        PushRightTracked(st, word, e.value);
      } else {
        PushLeftTracked(st, word, e.value);
      }
    }
  }

  lemma PushRightTracked(st: Panama, word: string, x: Panama)
    requires Tracked(st) && Rev(word) !in st.seen
    requires x == st.(diff := st.diff - |word|, seen := st.seen + {Rev(word)}, right := st.right + [word],
                      stack := x.stack)
    ensures Tracked(x)
  {
    SumLengthsSnoc(st.right, word);
    WordsPushRight(st, word, x);
    AppendDistinct(Words(st), Rev(word));
  }

  lemma WordsPushRight(st: Panama, word: string, x: Panama)
    requires x.left == st.left && x.right == st.right + [word]
    ensures Words(x) == Words(st) + [Rev(word)]
  {
    RevAllSnoc(st.right, word);
    assert Words(x) == st.left + (RevAll(st.right) + [Rev(word)]);
  }

  lemma RevAllSnoc(ws: seq<string>, w: string)
    ensures RevAll(ws + [w]) == RevAll(ws) + [Rev(w)]
  {
    assert forall i :: 0 <= i < |ws| ==> RevAll(ws + [w])[i] == (RevAll(ws) + [Rev(w)])[i];
  }

  lemma PushLeftTracked(st: Panama, word: string, x: Panama)
    requires Tracked(st) && word !in st.seen
    requires x == st.(diff := st.diff + |word|, seen := st.seen + {word}, left := st.left + [word],
                      stack := x.stack)
    ensures Tracked(x)
  {
    SumLengthsSnoc(st.left, word);
    assert Words(x) == st.left + [word] + RevAll(st.right);
    PlaceDistinct(st.left, RevAll(st.right), word);
  }

  /** On a tracked state `del seen[...]` finds its key, so `backtrack` raises
      nothing while the stack has an entry to pop. */
  lemma BacktrackSucceeds(st: Panama)
    requires Tracked(st) && st.stack != []
    ensures Backtrack(st).Ok?
  {
    if st.diff >= 0 && st.left != [] {
      assert st.left[|st.left| - 1] in Words(st);
    }
    if st.diff < 0 && st.right != [] {
      assert RevAll(st.right)[|st.right| - 1] in Words(st);
    }
  }

  /** `backtrack` keeps the state tracked. */
  lemma BacktrackTracked(st: Panama)
    requires Tracked(st)
    ensures var b := Backtrack(st); b.Ok? ==> Tracked(b.value.1)
  {
    var b := Backtrack(st);
    if b.Ok? && b.value.0 == 1 {
      if st.diff >= 0 {
        PopLeftTracked(st, b.value.1);
      } else {
        PopRightTracked(st, b.value.1);
      }
    }
  }

  lemma PopLeftTracked(st: Panama, x: Panama)
    requires Tracked(st) && st.left != []
    requires var word := st.left[|st.left| - 1];
      x == st.(left := st.left[..|st.left| - 1], diff := st.diff - |word|,
               seen := st.seen - {word}, stack := x.stack)
    ensures Tracked(x)
  {
    var word := st.left[|st.left| - 1];
    assert st.left == x.left + [word];
    SumLengthsSnoc(x.left, word);
    assert Words(st) == x.left + [word] + RevAll(x.right);
    UnplaceDistinct(x.left, RevAll(x.right), word);
  }

  lemma PopRightTracked(st: Panama, x: Panama)
    requires Tracked(st) && st.right != []
    requires var word := st.right[|st.right| - 1];
      x == st.(right := st.right[..|st.right| - 1], diff := st.diff + |word|,
               seen := st.seen - {Rev(word)}, stack := x.stack)
    ensures Tracked(x)
  {
    var word := st.right[|st.right| - 1];
    assert st.right == x.right + [word];
    SumLengthsSnoc(x.right, word);
    assert RevAll(st.right) == RevAll(x.right) + [Rev(word)];
    assert Words(st) == Words(x) + [Rev(word)] + [];
    UnplaceDistinct(Words(x), [], Rev(word));
    assert Words(x) + [] == Words(x);
  }

  /** The number of words placed, `len(self)`. */
  function Size(st: Panama): nat { |st.left| + |st.right| }

  /** `str(self)`: the true names of the left words, a `*****` marker, then
      those of the right words turned forwards, in reading order. */
  function Phrase(st: Panama): (r: Result<string>)
    ensures r.Ok? <==> forall w :: w in Words(st) ==> w in st.pd.truename
    ensures r.Error? ==> r.exc == "KeyError"
  {
    var forwards := Rev(RevAll(st.right));
    WordsForwards(st);
    match Pal2.TrueNames(st.pd.truename, st.left)
    case Error(e) => Error(e)
    case Ok(lefts) =>
      match Pal2.TrueNames(st.pd.truename, forwards)
      case Error(e) => Error(e)
      case Ok(rights) => Ok(Join(lefts + ["*****"] + rights, ", "))
  }

  /** The right words turned forwards, in either order, are the placed words
      that are not on the left. */
  lemma WordsForwards(st: Panama)
    ensures forall w :: w in Words(st) <==> w in st.left || w in Rev(RevAll(st.right))
  {
    forall w ensures w in RevAll(st.right) <==> w in Rev(RevAll(st.right)) {
      RevMember(RevAll(st.right), w);
    }
  }

  /** `report()`, without its output: a state more than 200 words past the
      best so far becomes the best, after `str(self)` has named every word and
      the phrase has passed `assert is_panama(...)`. */
  function Report(st: Panama): (r: Result<Panama>)
    ensures r.Ok? ==> r.value == st.(best := r.value.best)
    ensures r.Ok? ==> (r.value.best != st.best <==> Size(st) > st.best + 200)
    ensures r.Ok? && r.value.best != st.best ==>
      r.value.best == Size(st) && Phrase(st).Ok? && IsPanama(Phrase(st).value)
    ensures r.Error? <==> Size(st) > st.best + 200 && (Phrase(st).Error? || !IsPanama(Phrase(st).value))
    ensures r.Error? ==> r.exc == if Phrase(st).Error? then "KeyError" else "AssertionError"
  {
    if Size(st) <= st.best + 200 then Ok(st)
    else
      match Phrase(st)
      case Error(e) => Error(e)
      case Ok(p) => if IsPanama(p) then Ok(st.(best := Size(st))) else Error("AssertionError")
  }

  /** A second report right after a successful one changes nothing, and a
      report keeps the state tracked. */
  lemma ReportSettles(st: Panama)
    ensures var r := Report(st); r.Ok? ==> Report(r.value) == Ok(r.value)
    ensures var r := Report(st); r.Ok? && Tracked(st) ==> Tracked(r.value)
  {
    var r := Report(st);
    if r.Ok? {
      assert Size(r.value) == Size(st);
      assert Words(r.value) == Words(st);
    }
  }

  /** `search(k)`: start from the current missing substring and, while the
      stack is not empty, extend with the next candidate of the top entry or
      backtrack when it has none. `fuel` bounds the number of rounds; the
      draws of round `i` come from `draws(i)`. */
  method Search(start: Panama, k: nat, fuel: nat, draws: nat -> Draw) returns (r: Result<Panama>)
    requires Sorted(start.pd)
    ensures r.Ok? ==> r.value.pd == start.pd
    ensures r.Ok? && Tracked(start) ==> Tracked(r.value)
    ensures Missing(start, k, draws(0)).Error? ==> r.Error?
  {
    var m := Missing(start, k, draws(0));
    if m.Error? {
      return Error(m.exc);
    }
    var st := start.(stack := [m.value]);
    var i := 0;
    while i < fuel && st.stack != []
      invariant Sorted(st.pd) && st.pd == start.pd
      invariant Tracked(start) ==> Tracked(st)
    {
      var next, stop := Round(st, k, draws(i + 1));
      if next.Error? || stop {
        return next;
      }
      st := next.value;
      i := i + 1;
    }
    return Ok(st);
  }

  /** One round of the `while stack` loop: report when the top substring is
      a palindrome, then extend with the top entry's last candidate or, when
      it has none, backtrack. `stop` is the return of a failed backtrack. */
  method Round(st: Panama, k: nat, draw: Draw) returns (r: Result<Panama>, stop: bool)
    requires Sorted(st.pd) && st.stack != []
    ensures r.Ok? ==> r.value.pd == st.pd
    ensures r.Ok? && Tracked(st) ==> Tracked(r.value)
    ensures stop ==> r.Ok? && r.value.stack != [] && Backtrack(r.value) == Ok((0, r.value))
    ensures var top := st.stack[|st.stack| - 1].0;
      IsPalindromePhrase(top) && Report(st).Error? ==> r == Error(Report(st).exc) && !stop
    ensures var top := st.stack[|st.stack| - 1].0;
      r.Ok? ==> r.value.best == if IsPalindromePhrase(top) then Report(st).value.best else st.best
  {
    var substr := st.stack[|st.stack| - 1].0;
    var cur := st;
    if IsPalindromePhrase(substr) {
      ReportSettles(cur);
      var rep := Report(cur);
      if rep.Error? {
        return Error(rep.exc), false;
      }
      cur := rep.value;
    }
    r, stop := Advance(cur, k, draw);
  }

  /** The second half of a round: extend with the top entry's last candidate
      or, when it has none, backtrack. */
  method Advance(st: Panama, k: nat, draw: Draw) returns (r: Result<Panama>, stop: bool)
    requires Sorted(st.pd) && st.stack != []
    ensures r.Ok? ==> r.value.pd == st.pd && r.value.best == st.best
    ensures r.Ok? && Tracked(st) ==> Tracked(r.value)
    ensures stop ==> r.Ok? && r.value.stack != [] && Backtrack(r.value) == Ok((0, r.value))
    ensures st.stack[|st.stack| - 1].1 != [] ==> !stop
  {
    var (substr, words) := st.stack[|st.stack| - 1];
    if words != [] {
      var word := words[|words| - 1];
      var cur := st.(stack := st.stack[..|st.stack| - 1] + [(substr, words[..|words| - 1])]);
      if Tracked(cur) {
        ExtendTracked(cur, word, k, draw);
      }
      return Extend(cur, word, k, draw), false;
    }
    if Tracked(st) {
      BacktrackTracked(st);
    }
    var b := Backtrack(st);
    if b.Error? {
      return Error(b.exc), false;
    }
    if b.value.0 == 0 {
      return Ok(st), true;
    }
    return Ok(b.value.1), false;
  }

  /** A repeated seed phrase, as in `Panama('a, a')`, leaves `seen` with one
      key for two words: the first backtrack deletes it and the second raises
      `KeyError`. */
  lemma RepeatedSeedRaises(pd: PalDict, e: (string, seq<string>))
    ensures var st := Panama(["a", "a"], [], {"a"}, 2, 0, [e, e], pd);
      && Backtrack(st) == Ok((1, Panama(["a"], [], {}, 1, 0, [e], pd)))
      && Backtrack(Panama(["a"], [], {}, 1, 0, [e], pd)) == Error("KeyError")
  {
    var st := Panama(["a", "a"], [], {"a"}, 2, 0, [e, e], pd);
    assert st.left[..1] == ["a"];
    assert [e, e][..1] == [e];
    assert {"a"} - {"a"} == {};
  }
}
