/** The letter-by-letter palindrome search of `pal3.py`: a dictionary of phrases
    keyed by their letters with prefix and suffix counters, and a search state
    whose left and right halves always mirror each other. */
module Pal3 {
  import opened Common

  // ----------------------------------------------------------- phrase keys

  /** `prefixes(p)`: the non-empty prefixes of `p`, shortest first. */
  function Prefixes(p: string): (r: seq<string>)
    ensures |r| == |p|
    ensures forall i :: 0 <= i < |r| ==> |r[i]| == i + 1 && StartsWith(p, r[i])
  {
    seq(|p|, i requires 0 <= i < |p| => p[..i + 1])
  }

  /** `suffixes(p)`: the non-empty suffixes of `p`, shortest first. */
  function Suffixes(p: string): (r: seq<string>)
    ensures |r| == |p|
    ensures forall i :: 0 <= i < |r| ==> |r[i]| == i + 1 && EndsWith(p, r[i])
  {
    seq(|p|, i requires 0 <= i < |p| => p[|p| - i - 1..])
  }

  lemma PrefixesComplete(p: string, x: string)
    ensures x in Prefixes(p) <==> x != [] && StartsWith(p, x)
  {
    if x != [] && StartsWith(p, x) {
      assert Prefixes(p)[|x| - 1] == x;
    }
  }

  lemma SuffixesComplete(p: string, x: string)
    ensures x in Suffixes(p) <==> x != [] && EndsWith(p, x)
  {
    if x != [] && EndsWith(p, x) {
      assert Suffixes(p)[|x| - 1] == x;
    }
  }

  /** Each non-empty prefix of a phrase is counted once in its prefix list. */
  lemma PrefixMultiplicity(p: string, x: string)
    ensures multiset(Prefixes(p))[x] == if x != [] && StartsWith(p, x) then 1 else 0
  {
    PrefixesComplete(p, x);
    DistinctCount(Prefixes(p), x);
  }

  lemma SuffixMultiplicity(p: string, x: string)
    ensures multiset(Suffixes(p))[x] == if x != [] && EndsWith(p, x) then 1 else 0
  {
    SuffixesComplete(p, x);
    DistinctCount(Suffixes(p), x);
  }

  /** What the `\W` class does not match: ASCII letters, digits and `_`. */
  predicate IsWordChar(c: char) { IsLetter(c) || IsDigit(c) || c == '_' }

  /** `letters(phrase)`: non-word characters deleted, the rest lower-cased. */
  function Letters(phrase: string): (r: string)
    ensures forall i :: 0 <= i < |r| ==> IsWordChar(r[i]) && !IsUpper(r[i])
  {
    Canonical(IsWordChar, phrase)
  }

  /** `letters` on a word followed by a run of non-word characters. */
  lemma LettersPieces(word: string, gap: string, rest: string)
    requires forall i :: 0 <= i < |word| ==> IsWordChar(word[i])
    requires forall i :: 0 <= i < |gap| ==> !IsWordChar(gap[i])
    ensures Letters(word + gap + rest) == LowerStr(word) + Letters(rest)
  {
    CanonicalAppend(IsWordChar, word + gap, rest);
    CanonicalAppend(IsWordChar, word, gap);
    CanonicalKeepsAll(IsWordChar, word);
    CanonicalDropsAll(IsWordChar, gap);
  }

  lemma LettersWord(word: string)
    requires forall i :: 0 <= i < |word| ==> IsWordChar(word[i])
    ensures Letters(word) == LowerStr(word)
  {
    CanonicalKeepsAll(IsWordChar, word);
  }

  /** The examples of the unit test of `letters`. */
  lemma LettersExamples()
    ensures Letters("a man") == "aman"
    ensures Letters("an elk") == "anelk"
    ensures Letters("Mr. T") == "mrt"
    ensures Letters("Donald E. Knuth") == "donaldeknuth"
  {
    LettersAMan();
    LettersAnElk();
    LettersMrT();
    LettersKnuth();
  }

  lemma LettersAMan()
    ensures Letters("a man") == "aman"
  {
    assert "a man" == "a" + " " + "man";
    LettersTwoWords("a", " ", "man");
    assert LowerStr("a") == "a";
    assert LowerStr("man") == "man";
  }

  lemma LettersAnElk()
    ensures Letters("an elk") == "anelk"
  {
    assert "an elk" == "an" + " " + "elk";
    LettersTwoWords("an", " ", "elk");
    assert LowerStr("an") == "an";
    assert LowerStr("elk") == "elk";
  }

  lemma LettersMrT()
    ensures Letters("Mr. T") == "mrt"
  {
    assert "Mr. T" == "Mr" + ". " + "T";
    LettersTwoWords("Mr", ". ", "T");
    assert LowerStr("Mr") == "mr";
    assert LowerStr("T") == "t";
  }

  lemma LettersTwoWords(w1: string, gap: string, w2: string)
    requires forall i :: 0 <= i < |w1| ==> IsWordChar(w1[i])
    requires forall i :: 0 <= i < |gap| ==> !IsWordChar(gap[i])
    requires forall i :: 0 <= i < |w2| ==> IsWordChar(w2[i])
    ensures Letters(w1 + gap + w2) == LowerStr(w1) + LowerStr(w2)
  {
    LettersPieces(w1, gap, w2);
    LettersWord(w2);
  }

  lemma LettersEKnuth()
    ensures Letters("E. Knuth") == "eknuth"
  {
    assert "E. Knuth" == "E" + ". " + "Knuth";
    LettersTwoWords("E", ". ", "Knuth");
    assert LowerStr("E") == "e";
    assert LowerStr("Knuth") == "knuth";
    assert "e" + "knuth" == "eknuth";
  }

  lemma LettersKnuth()
    ensures Letters("Donald E. Knuth") == "donaldeknuth"
  {
    LettersEKnuth();
    DonaldPieces();
    LettersPieces("Donald", " ", "E. Knuth");
    LowerDonald();
  }

  lemma DonaldPieces()
    ensures "Donald E. Knuth" == "Donald" + " " + "E. Knuth"
    ensures "donald" + "eknuth" == "donaldeknuth"
  {
  }

  lemma LowerDonald()
    ensures LowerStr("Donald") == "donald"
  {
  }
  // --------------------------------------------------------- the dictionary

  /** A `PhraseDict`: `phrase` maps letters to the original phrase, `keys` lists
      the keys in insertion order, and the two counters count the non-empty
      prefixes and suffixes of all keys. */
  datatype PhraseDict = PhraseDict(
    phrase: map<string, string>,
    keys: seq<string>,
    prefixes: multiset<string>,
    suffixes: multiset<string>)

  function Key(line: string): string { Letters(Strip(line)) }

  /** The dictionary entries after inserting every stripped line in order. */
  function Entries(lines: seq<string>): (m: map<string, string>)
    ensures forall k :: k in m <==> k in KeysOf(lines)
    ensures forall k :: k in m ==> Key(m[k]) == k
  {
    if lines == [] then map[]
    else
      var last := lines[|lines| - 1];
      StripIdempotent(last);
      KeysOfLast(lines);
      Entries(lines[..|lines| - 1])[Key(last) := Strip(last)]
  }

  lemma KeysOfLast(lines: seq<string>)
    requires lines != []
    ensures forall k :: k in KeysOf(lines) <==> k in KeysOf(lines[..|lines| - 1]) || k == Key(lines[|lines| - 1])
  {
    assert KeysOf(lines) == KeysOf(lines[..|lines| - 1]) + [Key(lines[|lines| - 1])];
  }

  /** The key of every line. */
  function KeysOf(lines: seq<string>): (ks: seq<string>)
    ensures |ks| == |lines| && forall i :: 0 <= i < |lines| ==> ks[i] == Key(lines[i])
  {
    if lines == [] then [] else KeysOf(lines[..|lines| - 1]) + [Key(lines[|lines| - 1])]
  }

  lemma StripIdempotent(s: string)
    ensures Strip(Strip(s)) == Strip(s)
  {
    var r := Strip(s);
    if r != [] {
      assert TrimLeft(r) == r;
      assert TrimRight(r) == r;
    }
  }

  /** Later lines overwrite earlier ones with the same key. */
  lemma {:induction false} EntriesLastWins(lines: seq<string>, i: nat)
    requires i < |lines|
    requires forall j :: i < j < |lines| ==> Key(lines[j]) != Key(lines[i])
    ensures Entries(lines)[Key(lines[i])] == Strip(lines[i])
  {
    if i < |lines| - 1 {
      EntriesLastWins(lines[..|lines| - 1], i);
    }
  }

  function Keys(lines: seq<string>): (ks: seq<string>)
    ensures Distinct(ks)
    ensures forall k :: k in ks <==> k in Entries(lines)
  {
    if lines == [] then []
    else
      var front := Keys(lines[..|lines| - 1]);
      var k := Key(lines[|lines| - 1]);
      if k in front then front else front + [k]
  }

  function PrefixCounter(ks: seq<string>): multiset<string>
  {
    if ks == [] then multiset{} else PrefixCounter(ks[..|ks| - 1]) + multiset(Prefixes(ks[|ks| - 1]))
  }

  function SuffixCounter(ks: seq<string>): multiset<string>
  {
    if ks == [] then multiset{} else SuffixCounter(ks[..|ks| - 1]) + multiset(Suffixes(ks[|ks| - 1]))
  }

  /** How many of `ks` start with the non-empty string `x`. */
  function NumStartingWith(ks: seq<string>, x: string): nat
  {
    if ks == [] then 0
    else NumStartingWith(ks[..|ks| - 1], x) + if x != [] && StartsWith(ks[|ks| - 1], x) then 1 else 0
  }

  function NumEndingWith(ks: seq<string>, x: string): nat
  {
    if ks == [] then 0
    else NumEndingWith(ks[..|ks| - 1], x) + if x != [] && EndsWith(ks[|ks| - 1], x) then 1 else 0
  }

  lemma {:induction false} PrefixCounterCounts(ks: seq<string>, x: string)
    ensures PrefixCounter(ks)[x] == NumStartingWith(ks, x)
  {
    if ks != [] {
      PrefixCounterCounts(ks[..|ks| - 1], x);
      PrefixMultiplicity(ks[|ks| - 1], x);
    }
  }

  lemma {:induction false} SuffixCounterCounts(ks: seq<string>, x: string)
    ensures SuffixCounter(ks)[x] == NumEndingWith(ks, x)
  {
    if ks != [] {
      SuffixCounterCounts(ks[..|ks| - 1], x);
      SuffixMultiplicity(ks[|ks| - 1], x);
    }
  }

  /** `PhraseDict(lines)`. */
  function MakeDict(lines: seq<string>): (d: PhraseDict)
    ensures d.phrase == Entries(lines) && Distinct(d.keys)
    ensures forall k :: k in d.keys <==> k in d.phrase
    ensures forall x :: d.prefixes[x] == NumStartingWith(d.keys, x)
    ensures forall x :: d.suffixes[x] == NumEndingWith(d.keys, x)
  {
    var ks := Keys(lines);
    var d := PhraseDict(Entries(lines), ks, PrefixCounter(ks), SuffixCounter(ks));
    assert forall x :: d.prefixes[x] == NumStartingWith(d.keys, x) by {
      forall x { PrefixCounterCounts(ks, x); }
    }
    assert forall x :: d.suffixes[x] == NumEndingWith(d.keys, x) by {
      forall x { SuffixCounterCounts(ks, x); }
    }
    d
  }

  // --------------------------------------------------------- search states

  /** A `Panama` state: complete phrases `left` and `right`, the partial
      phrases `L` and `R` in the middle, and `used`, the set of complete
      phrases (the attribute `set`). */
  datatype State = State(left: seq<string>, L: string, R: string, right: seq<string>, used: set<string>)

  /** The left half read forwards equals the right half read backwards. */
  predicate Mirror(st: State)
  {
    Concat(st.left) + st.L == Rev(st.R + Concat(st.right))
  }

  /** `Mirror` is the constructor's assertion `cat(left + [L]) == cat([R] + right)[::-1]`. */
  lemma MirrorIsAssertion(st: State)
    ensures Mirror(st) <==> Concat(st.left + [st.L]) == Rev(Concat([st.R] + st.right))
  {
    ConcatSnoc(st.left, st.L);
    ConcatCons(st.R, st.right);
  }

  /** `is_palindrome`, which raises `IndexError` when it has to look at a
      missing `left[-1]` or `right[0]`. */
  function IsPal(st: State): (r: Result<bool>)
    ensures r.Error? <==>
      (st.L == [] && st.left == []) ||
      (!(st.L == [] && EndsWith(st.left[|st.left| - 1], st.R)) && st.R == [] && st.right == [])
    ensures r == Ok(true) <==>
      (st.L == [] && st.left != [] && EndsWith(st.left[|st.left| - 1], st.R)) ||
      (!(st.L == [] && st.left == []) && st.R == [] && st.right != [] && StartsWith(st.right[0], st.L))
  {
    if st.L == [] && st.left == [] then Error("IndexError")
    else if st.L == [] && EndsWith(st.left[|st.left| - 1], st.R) then Ok(true)
    else if st.R == [] then (if st.right == [] then Error("IndexError") else Ok(StartsWith(st.right[0], st.L)))
    else Ok(false)
  }

  /** The invariant of every state the search visits. */
  predicate Good(st: State) { Mirror(st) && (st.L != [] || st.left != []) }

  lemma GoodIsPalDefined(st: State)
    requires Good(st)
    ensures IsPal(st).Ok?
  {
    if st.R == [] && st.right == [] {
      assert st.R + Concat(st.right) == [];
    }
  }

  lemma SuffixOfEnd(a: string, b: string, x: string)
    requires EndsWith(b, x)
    ensures EndsWith(a + b, x)
  {
    assert (a + b)[|a + b| - |x|..] == b[|b| - |x|..];
  }

  lemma PrefixOfStart(a: string, b: string, x: string)
    requires StartsWith(a, x)
    ensures StartsWith(a + b, x)
  {
    assert (a + b)[..|x|] == a[..|x|];
  }

  /** A string that ends both with `x` and with `x` reversed makes `x` a palindrome. */
  lemma BothEnds(s: string, x: string)
    requires EndsWith(s, x) && EndsWith(s, Rev(x))
    ensures IsPalindrome(x)
  {
  }

  lemma BothStarts(s: string, x: string)
    requires StartsWith(s, x) && StartsWith(s, Rev(x))
    ensures IsPalindrome(x)
  {
  }

  /** The left-hand case of `is_palindrome`, on the joined strings. */
  lemma JoinedPalLeft(cl: string, cr: string, R: string)
    requires cl == Rev(cr) + Rev(R) && EndsWith(cl, R)
    ensures IsPalindrome(cl + cr)
  {
    assert EndsWith(cl, Rev(R));
    BothEnds(cl, R);
    RevAppend(cl, cr);
    RevAppend(Rev(cr), Rev(R));
    RevRev(cr);
    RevRev(R);
  }

  /** The right-hand case of `is_palindrome`, on the joined strings. */
  lemma JoinedPalRight(cl: string, cr: string, L: string)
    requires cl + L == Rev(cr) && StartsWith(cr, L)
    ensures IsPalindrome(cl + cr)
  {
    RevRev(cr);
    RevAppend(cl, L);
    assert cr == Rev(L) + Rev(cl);
    assert StartsWith(cr, Rev(L));
    BothStarts(cr, L);
    RevAppend(cl, cr);
    assert Rev(cl + cr) == Rev(cr) + Rev(cl) == cl + L + Rev(cl);
    assert cl + cr == cl + (L + Rev(cl));
  }

  /** The point of `check`: in a state that mirrors, a palindrome verdict means
      that the complete phrases `left + right` spell a palindrome. */
  lemma PalVerdictSound(st: State)
    requires Mirror(st) && IsPal(st) == Ok(true)
    ensures IsPalindrome(Concat(st.left + st.right))
  {
    var cl, cr := Concat(st.left), Concat(st.right);
    ConcatAppend(st.left, st.right);
    RevAppend(st.R, cr);
    if st.L == [] && st.left != [] && EndsWith(st.left[|st.left| - 1], st.R) {
      var last := st.left[|st.left| - 1];
      assert st.left == st.left[..|st.left| - 1] + [last];
      ConcatSnoc(st.left[..|st.left| - 1], last);
      SuffixOfEnd(Concat(st.left[..|st.left| - 1]), last, st.R);
      assert cl == cl + st.L;
      JoinedPalLeft(cl, cr, st.R);
    } else {
      assert st.R == [] && st.right != [] && StartsWith(st.right[0], st.L);
      assert st.right == [st.right[0]] + st.right[1..];
      ConcatCons(st.right[0], st.right[1..]);
      PrefixOfStart(st.right[0], Concat(st.right[1..]), st.L);
      assert st.R + cr == cr;
      JoinedPalRight(cl, cr, st.L);
    }
  }

  /** `Panama(left, L, R, right)`: the mirror assertion, then `check`. */
  function Init(left: seq<string>, L: string, R: string, right: seq<string>): (r: Result<(State, seq<string>)>)
    ensures r.Ok? <==> Mirror(State(left, L, R, right, {})) && (L != [] || left != [])
    ensures r.Ok? ==> Good(r.value.0) && r.value.0 == State(left, L, R, right, ToSet(left + right))
    ensures r.Ok? && r.value.1 != [] ==> IsPalindrome(Concat(r.value.1))
  {
    var st := State(left, L, R, right, ToSet(left + right));
    MirrorIsAssertion(st);
    if Concat(left + [L]) != Rev(Concat([R] + right)) then Error("AssertionError")
    else
      if L != [] || left != [] then GoodIsPalDefined(st); InitCheck(st) else InitCheck(st)
  }

  function InitCheck(st: State): (r: Result<(State, seq<string>)>)
    ensures r.Ok? <==> IsPal(st).Ok?
    ensures r.Ok? ==> r.value.0 == st
    ensures r.Ok? && Mirror(st) && r.value.1 != [] ==> IsPalindrome(Concat(r.value.1))
  {
    match Check(st, [])
    case Error(e) => Error(e)
    case Ok(best) => Ok((st, best))
  }

  /** `check`: records `left + right` as the best palindrome when the state is
      a palindrome with more complete phrases than the current best. */
  function Check(st: State, best: seq<string>): (r: Result<seq<string>>)
    ensures r.Error? <==> IsPal(st).Error?
    ensures r.Ok? && r.value != best ==> IsPal(st) == Ok(true) && |r.value| > |best| && r.value == st.left + st.right
    ensures r.Ok? && IsPal(st) == Ok(true) && |st.left| + |st.right| > |best| ==> r.value == st.left + st.right
    ensures r.Ok? && Mirror(st) && r.value != best ==> IsPalindrome(Concat(r.value))
  {
    match IsPal(st)
    case Error(e) => Error(e)
    case Ok(p) =>
      if p && |st.left| + |st.right| > |best| then
        if Mirror(st) then PalVerdictSound(st); Ok(st.left + st.right) else Ok(st.left + st.right)
      else Ok(best)
  }

  /** `do(act)`: ',' finishes the left phrase, ';' the right one, and any other
      character is appended to `L` and prepended to `R`. */
  function Do(st: State, act: char): (r: State)
    ensures Mirror(st) ==> Mirror(r)
    ensures Good(st) ==> Good(r)
  {
    if act == ',' then
      ConcatSnoc(st.left, st.L);
      State(st.left + [st.L], [], st.R, st.right, st.used + {st.L})
    else if act == ';' then
      ConcatCons(st.R, st.right);
      State(st.left, st.L, [], [st.R] + st.right, st.used + {st.R})
    else
      RevAppend([act], st.R + Concat(st.right));
      assert [act] + st.R + Concat(st.right) == [act] + (st.R + Concat(st.right));
      State(st.left, st.L + [act], [act] + st.R, st.right, st.used)
  }

  /** `undo(act)`, with the exceptions its assertions, `pop` and `remove` raise. */
  function Undo(st: State, act: char): (r: Result<State>)
    ensures act != ',' && act != ';' ==> r.Ok?
    ensures act == ',' ==> (r.Ok? <==> st.L == [] && st.left != [] && st.left[|st.left| - 1] in st.used)
    ensures act == ';' ==> (r.Ok? <==> st.R == [] && st.right != [] && st.right[0] in st.used)
  {
    if act == ',' then
      if st.L != [] then Error("AssertionError")
      else if st.left == [] then Error("IndexError")
      else
        var L := st.left[|st.left| - 1];
        if L !in st.used then Error("KeyError")
        else Ok(State(st.left[..|st.left| - 1], L, st.R, st.right, st.used - {L}))
    else if act == ';' then
      if st.R != [] then Error("AssertionError")
      else if st.right == [] then Error("IndexError")
      else
        var R := st.right[0];
        if R !in st.used then Error("KeyError")
        else Ok(State(st.left, st.L, R, st.right[1..], st.used - {R}))
    else
      Ok(State(st.left, Upto(st.L, -1), From(st.R, 1), st.right, st.used))
  }

  /** The condition under which `undo` exactly reverses `do`. */
  predicate Reversible(st: State, act: char)
  {
    (act == ',' ==> st.L !in st.used) && (act == ';' ==> st.R !in st.used)
  }

  lemma DoUndo(st: State, act: char)
    ensures Undo(Do(st, act), act) == Ok(st) <==> Reversible(st, act)
  {
    var r := Do(st, act);
    if act == ',' {
      assert r.left[..|r.left| - 1] == st.left;
      if st.L in st.used {
        assert Undo(r, act).value.used != st.used;
      }
    } else if act == ';' {
      assert r.right[1..] == st.right;
      if st.R in st.used {
        assert Undo(r, act).value.used != st.used;
      }
    } else {
      assert Upto(st.L + [act], -1) == st.L;
      assert From([act] + st.R, 1) == st.R;
    }
  }

  // ---------------------------------------------------- applicable actions

  /** `alphabet`, the lower-case letters in order. */
  function Alphabet(): (r: string)
    ensures |r| == 26 && forall i :: 0 <= i < 26 ==> r[i] as int == 'a' as int + i
  {
    seq(26, i requires 0 <= i < 26 => ('a' as int + i) as char)
  }

  lemma AlphabetFacts(c: char)
    ensures Increasing(Alphabet())
    ensures c in Alphabet() <==> IsLower(c)
  {
    if IsLower(c) {
      assert Alphabet()[c as int - 'a' as int] == c;
    }
  }

  lemma AlphabetLiteral()
    ensures Alphabet() == "abcdefghijklmnopqrstuvwxyz"
  {
  }

  /** `is_allowed(phrase)`: a dictionary key not yet used. */
  predicate IsAllowed(st: State, d: PhraseDict, phrase: string)
  {
    phrase in d.phrase && phrase !in st.used
  }

  /** `score(A)`: how many keys continue `L` with `A` times how many keys end
      with `A` followed by `R`. */
  function Score(st: State, d: PhraseDict, c: char): int
  {
    d.prefixes[st.L + [c]] * d.suffixes[[c] + st.R]
  }

  /** Ascending by key, ties broken by character: the order a stable sort
      gives to an input in ascending character order. */
  predicate Le(key: char -> int, a: char, b: char)
  {
    key(a) < key(b) || (key(a) == key(b) && a < b)
  }
  predicate OrderedBy(key: char -> int, s: seq<char>)
  {
    forall i, j :: 0 <= i < j < |s| ==> Le(key, s[i], s[j])
  }
  function InsertByKey(key: char -> int, s: seq<char>, x: char): (r: seq<char>)
    ensures multiset(r) == multiset(s) + multiset{x}
  {
    if s == [] then [x]
    else if key(s[0]) > key(x) then [x] + s
    else
      assert s == [s[0]] + s[1..];
      [s[0]] + InsertByKey(key, s[1..], x)
  }

  lemma {:induction false} InsertByKeyOrdered(key: char -> int, s: seq<char>, x: char)
    requires OrderedBy(key, s) && forall y :: y in s ==> y < x
    ensures OrderedBy(key, InsertByKey(key, s, x))
  {
    if s == [] {
    } else if key(s[0]) > key(x) {
      var r := [x] + s;
      forall i, j | 0 <= i < j < |r| ensures Le(key, r[i], r[j]) {
        if i > 0 {
          assert r[i] == s[i - 1] && r[j] == s[j - 1];
        } else if j > 1 {
          assert Le(key, s[0], s[j - 1]);
        }
      }
    } else {
      var t := InsertByKey(key, s[1..], x);
      forall i, j | 0 <= i < j < |s[1..]| ensures Le(key, s[1..][i], s[1..][j]) {
        assert s[1..][i] == s[i + 1] && s[1..][j] == s[j + 1];
      }
      forall y | y in s[1..] ensures y < x {
        assert y in s;
      }
      InsertByKeyOrdered(key, s[1..], x);
      var r := [s[0]] + t;
      forall i, j | 0 <= i < j < |r| ensures Le(key, r[i], r[j]) {
        if i > 0 {
          assert r[i] == t[i - 1] && r[j] == t[j - 1];
        } else {
          assert r[j] in multiset(t);
          if r[j] != x {
            assert r[j] in s[1..];
            var k :| 0 <= k < |s[1..]| && s[1..][k] == r[j];
            assert s[k + 1] == r[j];
          } else {
            assert s[0] in s;
          }
        }
      }
    }
  }

  predicate Increasing(s: seq<char>) { forall i, j :: 0 <= i < j < |s| ==> s[i] < s[j] }

  function SortByKey(key: char -> int, s: seq<char>): (r: seq<char>)
    requires Increasing(s)
    ensures multiset(r) == multiset(s)
    ensures OrderedBy(key, r)
  {
    if s == [] then []
    else
      var front := s[..|s| - 1];
      var t := SortByKey(key, front);
      assert s == front + [s[|s| - 1]];
      forall y | y in t ensures y < s[|s| - 1] {
        assert y in multiset(front);
        var k :| 0 <= k < |front| && front[k] == y;
      }
      InsertByKeyOrdered(key, t, s[|s| - 1]);
      InsertByKey(key, t, s[|s| - 1])
  }

  function KeepPositive(key: char -> int, s: seq<char>): (r: seq<char>)
    ensures forall c :: c in r <==> c in s && key(c) > 0
  {
    if s == [] then []
    else
      var t := KeepPositive(key, s[1..]);
      assert forall c :: c in s <==> c == s[0] || c in s[1..];
      if key(s[0]) > 0 then [s[0]] + t else t
  }

  lemma {:induction false} KeepPositiveOrdered(key: char -> int, s: seq<char>)
    requires OrderedBy(key, s)
    ensures OrderedBy(key, KeepPositive(key, s))
  {
    if s != [] {
      forall i, j | 0 <= i < j < |s[1..]| ensures Le(key, s[1..][i], s[1..][j]) {
        assert s[1..][i] == s[i + 1] && s[1..][j] == s[j + 1];
      }
      KeepPositiveOrdered(key, s[1..]);
      var t := KeepPositive(key, s[1..]);
      if key(s[0]) > 0 {
        var r := [s[0]] + t;
        forall i, j | 0 <= i < j < |r| ensures Le(key, r[i], r[j]) {
          if i > 0 {
            assert r[i] == t[i - 1] && r[j] == t[j - 1];
          } else {
            assert r[j] in t;
            var k :| 0 <= k < |s[1..]| && s[1..][k] == r[j];
            assert s[k + 1] == r[j];
          }
        }
      }
    }
  }

  /** The relative order of actions in `applicable_actions`: ',' first, then
      ';', then letters by ascending score and letter. */
  predicate Precedes(st: State, d: PhraseDict, a: char, b: char)
  {
    (a == ',' && b != ',')
    || (a == ';' && IsLower(b))
    || (IsLower(a) && IsLower(b) &&
        (Score(st, d, a) < Score(st, d, b) || (Score(st, d, a) == Score(st, d, b) && a < b)))
  }

  function ApplicableActions(st: State, d: PhraseDict): (r: seq<char>)
    ensures ',' in r <==> IsAllowed(st, d, st.L)
    ensures ';' in r <==> IsAllowed(st, d, st.R)
    ensures forall c :: IsLower(c) ==> (c in r <==> Score(st, d, c) > 0)
    ensures forall c :: c in r ==> c == ',' || c == ';' || IsLower(c)
  {
    forall c ensures c in LetterActions(st, d) <==> IsLower(c) && Score(st, d, c) > 0 {
      LetterActionsMembers(st, d, c);
    }
    FinishActions(st, d) + LetterActions(st, d)
  }

  function ScoreOf(st: State, d: PhraseDict): char -> int
  {
    c => Score(st, d, c)
  }

  function FinishActions(st: State, d: PhraseDict): seq<char>
  {
    (if IsAllowed(st, d, st.L) then [','] else []) + (if IsAllowed(st, d, st.R) then [';'] else [])
  }

  /** The letters with a positive score, sorted by score. */
  function LetterActions(st: State, d: PhraseDict): seq<char>
  {
    AlphabetFacts('a');
    KeepPositive(ScoreOf(st, d), SortByKey(ScoreOf(st, d), Alphabet()))
  }

  lemma LetterActionsMembers(st: State, d: PhraseDict, c: char)
    ensures c in LetterActions(st, d) <==> IsLower(c) && Score(st, d, c) > 0
  {
    AlphabetFacts(c);
    assert c in SortByKey(ScoreOf(st, d), Alphabet()) <==> c in multiset(Alphabet());
  }

  lemma LetterActionsOrdered(st: State, d: PhraseDict)
    ensures var l := LetterActions(st, d);
      forall i, j :: 0 <= i < j < |l| ==> Le(ScoreOf(st, d), l[i], l[j]) && IsLower(l[i]) && IsLower(l[j])
  {
    AlphabetFacts('a');
    KeepPositiveOrdered(ScoreOf(st, d), SortByKey(ScoreOf(st, d), Alphabet()));
    var l := LetterActions(st, d);
    forall i | 0 <= i < |l| ensures IsLower(l[i]) {
      LetterActionsMembers(st, d, l[i]);
    }
  }

  lemma ApplicableActionsOrdered(st: State, d: PhraseDict)
    ensures var r := ApplicableActions(st, d);
      forall i, j :: 0 <= i < j < |r| ==> Precedes(st, d, r[i], r[j])
  {
    var f, l := FinishActions(st, d), LetterActions(st, d);
    var r := ApplicableActions(st, d);
    assert r == f + l;
    forall i, j | 0 <= i < j < |f + l| ensures Precedes(st, d, (f + l)[i], (f + l)[j]) {
      ActionPairOrdered(st, d, f, l, i, j);
    }
  }

  lemma ActionPairOrdered(st: State, d: PhraseDict, f: seq<char>, l: seq<char>, i: nat, j: nat)
    requires f == FinishActions(st, d) && l == LetterActions(st, d)
    requires i < j < |f + l|
    ensures Precedes(st, d, (f + l)[i], (f + l)[j])
  {
    if j < |f| {
      FinishPairOrdered(st, d, i, j);
    } else if i < |f| {
      FinishBeforeLetter(st, d, i, j - |f|);
    } else {
      LetterPairOrdered(st, d, i - |f|, j - |f|);
    }
  }

  lemma FinishPairOrdered(st: State, d: PhraseDict, i: nat, j: nat)
    requires i < j < |FinishActions(st, d)|
    ensures Precedes(st, d, FinishActions(st, d)[i], FinishActions(st, d)[j])
  {
  }
  lemma LetterPairOrdered(st: State, d: PhraseDict, i: nat, j: nat)
    requires i < j < |LetterActions(st, d)|
    ensures Precedes(st, d, LetterActions(st, d)[i], LetterActions(st, d)[j])
  {
    LetterActionsOrdered(st, d);
  }
  lemma FinishBeforeLetter(st: State, d: PhraseDict, i: nat, j: nat)
    requires i < |FinishActions(st, d)| && j < |LetterActions(st, d)|
    ensures Precedes(st, d, FinishActions(st, d)[i], LetterActions(st, d)[j])
  {
    LetterActionsMembers(st, d, LetterActions(st, d)[j]);
  }
  /** Every action on offer can be undone exactly. */
  lemma ApplicableReversible(st: State, d: PhraseDict, act: char)
    requires act in ApplicableActions(st, d)
    ensures Reversible(st, act)
  {
  }

  /** The default `Panama()` state, "a man, a plan, a canal, Panama". */
  function DefaultState(): State
  {
    State(["aman", "aplan"], "aca", "", ["acanal", "panama"], {})
  }

  lemma DefaultMirrors()
    ensures Mirror(DefaultState())
  {
    var st := DefaultState();
    ConcatCons("aman", ["aplan"]);
    ConcatSingle("aplan");
    ConcatCons("acanal", ["panama"]);
    ConcatSingle("panama");
    assert ["aman"] + ["aplan"] == st.left;
    assert ["acanal"] + ["panama"] == st.right;
    var l: string := "amanaplanaca";
    var r: string := "acanalpanama";
    assert Concat(st.left) + st.L == l;
    assert st.R + Concat(st.right) == r;
    RevByIndex(r, l);
  }

  lemma RevByIndex(s: string, t: string)
    requires |s| == |t| && forall i :: 0 <= i < |s| ==> t[i] == s[|s| - 1 - i]
    ensures Rev(s) == t
  {
  }

  /** The tests of the constructor: the default state is accepted and is a
      palindrome; "acadd"/"dd" is not; "maya"/"ayam" is. */
  lemma PanamaExamples()
    ensures Init(["aman", "aplan"], "aca", "", ["acanal", "panama"]).Ok?
    ensures IsPal(DefaultState()) == Ok(true)
    ensures IsPal(State(["aman", "aplan"], "acadd", "dd", ["acanal", "panama"], {})) == Ok(false)
    ensures IsPal(State(["maya"], "", "", ["ayam"], {})) == Ok(true)
  {
    DefaultMirrors();
    assert StartsWith("acanal", "aca");
    assert !EndsWith("aplan", "dd");
    assert EndsWith("maya", "");
  }

  // ---------------------------------------------------------------- search

  /** An entry of the search stack: a reminder to undo an action, or the
      actions still to try from some state. */
  datatype Command = UndoCommand(act: char) | DoCommand(acts: seq<char>)

  /** `stack` unwinds from `cur` back to `start`: each undo reminder reverses
      the action that led to the state above it, each pending action list is
      on offer in the state it belongs to, and every state on the way is Good. */
  ghost predicate Unwinds(stack: seq<Command>, cur: State, start: State, d: PhraseDict)
    decreases |stack|
  {
    Good(cur) &&
    if stack == [] then cur == start
    else
      var top := stack[|stack| - 1];
      var below := stack[..|stack| - 1];
      match top
      case DoCommand(acts) =>
        AllApplicable(acts, cur, d) && Unwinds(below, cur, start, d)
      case UndoCommand(a) =>
        Undo(cur, a).Ok? && cur == Do(Undo(cur, a).value, a)
        && Reversible(Undo(cur, a).value, a) && Unwinds(below, Undo(cur, a).value, start, d)
  }

  /** Every pending action is one `cur` allows. */
  ghost predicate AllApplicable(acts: seq<char>, cur: State, d: PhraseDict)
  {
    forall a :: a in acts ==> a in ApplicableActions(cur, d)
  }

  lemma UnwindsDoTop(below: seq<Command>, acts: seq<char>, cur: State, start: State, d: PhraseDict)
    ensures Unwinds(below + [DoCommand(acts)], cur, start, d) <==>
      Good(cur) && AllApplicable(acts, cur, d) && Unwinds(below, cur, start, d)
  {
    assert (below + [DoCommand(acts)])[..|below|] == below;
  }

  lemma UnwindsUndoTop(below: seq<Command>, a: char, cur: State, start: State, d: PhraseDict)
    ensures Unwinds(below + [UndoCommand(a)], cur, start, d) <==>
      Good(cur) && Undo(cur, a).Ok? && cur == Do(Undo(cur, a).value, a)
      && Reversible(Undo(cur, a).value, a) && Unwinds(below, Undo(cur, a).value, start, d)
  {
    assert (below + [UndoCommand(a)])[..|below|] == below;
  }

  /** Trying the last pending action keeps the stack unwinding to the start. */
  lemma PushStep(stack: seq<Command>, acts: seq<char>, cur: State, start: State, d: PhraseDict)
    requires acts != [] && Unwinds(stack + [DoCommand(acts)], cur, start, d)
    ensures var act := acts[|acts| - 1];
      Unwinds(stack + [DoCommand(acts[..|acts| - 1])] + [UndoCommand(act)] + [DoCommand(ApplicableActions(Do(cur, act), d))],
              Do(cur, act), start, d)
  {
    var act := acts[|acts| - 1];
    var next := Do(cur, act);
    var s1 := stack + [DoCommand(acts[..|acts| - 1])];
    var s2 := s1 + [UndoCommand(act)];
    UnwindsDoTop(stack, acts, cur, start, d);
    UnwindsDoTop(stack, acts[..|acts| - 1], cur, start, d);
    assert act in acts;
    ApplicableReversible(cur, d, act);
    DoUndo(cur, act);
    assert Unwinds(s1, cur, start, d);
    assert Undo(next, act) == Ok(cur);
    assert Good(next);
    UnwindsUndoTop(s1, act, next, start, d);
    assert Unwinds(s2, next, start, d);
    UnwindsDoTop(s2, ApplicableActions(next, d), next, start, d);
  }

  /** `search(steps)`, with `best` kept alongside the state. `drained` reports
      that the stack ran empty, in which case the state is the starting one. */
  /** The best list after `check` on a good state keeps the loop's promises:
      it only ever grows, and it spells a palindrome. */
  function Improve(st: State, best: seq<string>, best0: seq<string>): (b: seq<string>)
    requires Good(st)
    requires |best| >= |best0| && (best != best0 ==> |best| > |best0|)
    requires best != [] ==> IsPalindrome(Concat(best))
    ensures |b| >= |best0| && (b != best0 ==> |b| > |best0|)
    ensures b != [] ==> IsPalindrome(Concat(b))
    ensures Check(st, best) == Ok(b)
  {
    GoodIsPalDefined(st);
    Check(st, best).value
  }

  method Search(start: State, best0: seq<string>, d: PhraseDict, steps: nat)
    returns (st: State, best: seq<string>, drained: bool)
    requires Good(start)
    requires best0 != [] ==> IsPalindrome(Concat(best0))
    ensures drained ==> st == start
    ensures Good(st)
    ensures |best| >= |best0|
    ensures best != best0 ==> |best| > |best0|
    ensures best != [] ==> IsPalindrome(Concat(best))
  {
    var stack := [DoCommand(ApplicableActions(start, d))];
    st, best, drained := start, best0, false;
    var i := 0;
    while i < steps
      invariant 0 <= i <= steps
      invariant Unwinds(stack, st, start, d)
      invariant drained ==> st == start
      invariant |best| >= |best0| && (best != best0 ==> |best| > |best0|)
      invariant best != [] ==> IsPalindrome(Concat(best))
    {
      if stack == [] {
        drained := true;
        return;
      }
      var command := stack[|stack| - 1];
      stack := stack[..|stack| - 1];
      match command {
        case UndoCommand(a) =>
          st := Undo(st, a).value;
        case DoCommand(acts) =>
          if acts != [] {
            var act := acts[|acts| - 1];
            PushStep(stack, acts, st, start, d);
            st := Do(st, act);
            var b := Improve(st, best, best0);
            best := b;
            stack := stack + [DoCommand(acts[..|acts| - 1])] + [UndoCommand(act)] + [DoCommand(ApplicableActions(st, d))];
          }
      }
      i := i + 1;
    }
  }
}
