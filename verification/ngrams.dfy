/** `py/ngrams.py`: word segmentation, Caesar and substitution ciphers, and
    hill climbing.  The probability models (`Pw`, `cPw`, `logP3letters`)
    are floating-point estimates read from data files; here each is a
    parameter returning a `real`, so every property holds for any scoring. */
module Ngrams {
  import opened Common

  // -------------------------------------------------------- segmentation

  /** `splits(text, L)`: every way to cut a non-empty first word of at most
      `L` characters off the front of `text`, shortest first. */
  function Splits(text: string, L: int): (r: seq<(string, string)>)
    ensures |r| == if L <= 0 then 0 else if L < |text| then L else |text|
    ensures forall i :: 0 <= i < |r| ==>
              |r[i].0| == i + 1 && |r[i].0| <= L && r[i].0 + r[i].1 == text
  {
    var n := if L <= 0 then 0 else if L < |text| then L else |text|;
    seq(n, i requires 0 <= i < n => (text[..i + 1], text[i + 1..]))
  }

  /** The longest first word `segment` tries. */
  const MaxWord := 20

  /** The position `max(xs, key=score)` returns: the first element whose
      score no element exceeds. */
  function MaxIndex<T>(xs: seq<T>, score: T -> real): (k: nat)
    requires xs != []
    ensures k < |xs|
    ensures forall j :: 0 <= j < |xs| ==> score(xs[j]) <= score(xs[k])
    ensures forall j :: 0 <= j < k ==> score(xs[j]) < score(xs[k])
  {
    if |xs| == 1 then 0
    else
      var m := MaxIndex(xs[..|xs| - 1], score);
      assert forall j :: 0 <= j < |xs| - 1 ==> xs[..|xs| - 1][j] == xs[j];
      if score(xs[|xs| - 1]) > score(xs[m]) then |xs| - 1 else m
  }

  /** `segment(text)`: the best-scoring segmentation of `text` among those
      that split off a first word of at most 20 letters and segment the
      rest the same way.  Whatever the score, the words spell `text`. */
  function Segment(text: string, pw: seq<string> -> real): (r: seq<string>)
    ensures Concat(r) == text
    ensures forall k :: 0 <= k < |r| ==> 0 < |r[k]| <= MaxWord
    decreases |text|, 1
  {
    if text == [] then []
    else
      var cands := Candidates(text, pw);
      cands[MaxIndex(cands, pw)]
  }

  /** The generator of `segment`: `[first] + segment(rem)` for each split. */
  function Candidates(text: string, pw: seq<string> -> real): (r: seq<seq<string>>)
    requires text != []
    ensures |r| == |Splits(text, MaxWord)| > 0
    ensures forall i :: 0 <= i < |r| ==>
              r[i] != [] && r[i][0] == Splits(text, MaxWord)[i].0
              && Concat(r[i]) == text && forall k :: 0 <= k < |r[i]| ==> 0 < |r[i][k]| <= MaxWord
    decreases |text|, 0
  {
    var sp := Splits(text, MaxWord);
    var r := seq(|sp|, i requires 0 <= i < |sp| => [sp[i].0] + Segment(sp[i].1, pw));
    assert forall i :: 0 <= i < |r| ==> Concat(r[i]) == text by {
      forall i | 0 <= i < |r| ensures Concat(r[i]) == text {
        ConcatCons(sp[i].0, Segment(sp[i].1, pw));
      }
    }
    r
  }

  /** `segment('') == []`. */
  lemma SegmentEmpty(pw: seq<string> -> real)
    ensures Segment([], pw) == []
  {
  }

  /** A non-empty text's segmentation is the first candidate of maximal
      score. */
  lemma SegmentBest(text: string, pw: seq<string> -> real) returns (k: nat)
    requires text != []
    ensures var cands := Candidates(text, pw);
            && k < |cands| && Segment(text, pw) == cands[k]
            && (forall j :: 0 <= j < |cands| ==> pw(cands[j]) <= pw(cands[k]))
            && (forall j :: 0 <= j < k ==> pw(cands[j]) < pw(cands[k]))
  {
    k := MaxIndex(Candidates(text, pw), pw);
  }

  /** Python's `<` on lists of strings: the first differing word decides,
      and a proper prefix is smaller. */
  predicate ListLess(a: seq<string>, b: seq<string>)
  {
    if a == [] then b != []
    else if b == [] then false
    else if a[0] != b[0] then LexLess(a[0], b[0])
    else ListLess(a[1..], b[1..])
  }

  /** Python's `<` on `(log P, words)` tuples. */
  predicate PairLess(a: (real, seq<string>), b: (real, seq<string>))
  {
    a.0 < b.0 || (a.0 == b.0 && ListLess(a.1, b.1))
  }

  /** The position `max(xs)` returns for a list of tuples: the first element
      no later element is greater than at the time it is reached. */
  function MaxPairIndex(xs: seq<(real, seq<string>)>): (k: nat)
    requires xs != []
    ensures k < |xs|
    ensures forall j :: 0 <= j < |xs| ==> xs[j].0 <= xs[k].0
  {
    if |xs| == 1 then 0
    else
      var m := MaxPairIndex(xs[..|xs| - 1]);
      assert forall j :: 0 <= j < |xs| - 1 ==> xs[..|xs| - 1][j] == xs[j];
      if PairLess(xs[m], xs[|xs| - 1]) then |xs| - 1 else m
  }

  /** The sum of the conditional log-probabilities of `words`, each given
      the word before it and the first given `prev`. */
  function LogP(words: seq<string>, prev: string, lp: (string, string) -> real): real
  {
    if words == [] then 0.0 else lp(words[0], prev) + LogP(words[1..], words[0], lp)
  }

  /** `combine(Pfirst, first, (Prem, rem))` */
  function Combine(pfirst: real, first: string, rest: (real, seq<string>)): (r: (real, seq<string>))
    ensures r.1 == [first] + rest.1 && r.0 == pfirst + rest.0
  {
    (pfirst + rest.0, [first] + rest.1)
  }

  /** Combining the first word's log-probability after `prev` with a scored
      rest that starts after the first word yields a scored segmentation of
      the whole that spells the first word followed by the rest. */
  lemma CombineScores(prev: string, first: string, rest: (real, seq<string>), lp: (string, string) -> real)
    requires rest.0 == LogP(rest.1, first, lp)
    ensures var r := Combine(lp(first, prev), first, rest);
      r.0 == LogP(r.1, prev, lp) && Concat(r.1) == first + Concat(rest.1) && r.1[0] == first
  {
    var r := Combine(lp(first, prev), first, rest);
    assert r.1[1..] == rest.1;
    ConcatCons(first, rest.1);
  }

  /** `segment2(text, prev)` with `lp(w, prev)` for `log10(cPw(w, prev))`:
      the best `(log P(words), words)` over the same splits as `segment`.
      The words spell `text` and the number paired with them is exactly
      their log-probability. */
  function Segment2(text: string, prev: string, lp: (string, string) -> real): (r: (real, seq<string>))
    ensures Concat(r.1) == text
    ensures r.0 == LogP(r.1, prev, lp)
    ensures forall k :: 0 <= k < |r.1| ==> 0 < |r.1[k]| <= MaxWord
    decreases |text|, 2
  {
    if text == [] then (0.0, [])
    else
      var cands := Candidates2(text, prev, lp);
      cands[MaxPairIndex(cands)]
  }

  /** The candidate list of `segment2`. */
  function Candidates2(text: string, prev: string, lp: (string, string) -> real): (r: seq<(real, seq<string>)>)
    requires text != []
    ensures |r| == |Splits(text, MaxWord)| > 0
    ensures forall i :: 0 <= i < |r| ==>
              r[i].1 != [] && r[i].1[0] == Splits(text, MaxWord)[i].0
              && Concat(r[i].1) == text && r[i].0 == LogP(r[i].1, prev, lp)
              && forall k :: 0 <= k < |r[i].1| ==> 0 < |r[i].1[k]| <= MaxWord
    decreases |text|, 1
  {
    var n := |Splits(text, MaxWord)|;
    seq(n, i requires 0 <= i < n => Candidate2(text, prev, lp, i))
  }

  /** `combine(log10(cPw(first, prev)), first, segment2(rem, first))` for
      the `i`-th split. */
  function Candidate2(text: string, prev: string, lp: (string, string) -> real, i: nat): (r: (real, seq<string>))
    requires i < |Splits(text, MaxWord)|
    ensures r.1 != [] && r.1[0] == Splits(text, MaxWord)[i].0
    ensures Concat(r.1) == text && r.0 == LogP(r.1, prev, lp)
    ensures forall k :: 0 <= k < |r.1| ==> 0 < |r.1[k]| <= MaxWord
    decreases |text|, 0
  {
    var sp := Splits(text, MaxWord)[i];
    var rest := Segment2(sp.1, sp.0, lp);
    CombineScores(prev, sp.0, rest, lp);
    Combine(lp(sp.0, prev), sp.0, rest)
  }

  /** No candidate of `segment2` has a higher log-probability than the
      chosen one. */
  lemma Segment2Best(text: string, prev: string, lp: (string, string) -> real)
    ensures text == [] ==> Segment2(text, prev, lp) == (0.0, [])
    ensures text != [] ==>
              var cands := Candidates2(text, prev, lp);
              Segment2(text, prev, lp) in cands
              && forall j :: 0 <= j < |cands| ==> cands[j].0 <= Segment2(text, prev, lp).0
  {
    if text != [] {
      var cands := Candidates2(text, prev, lp);
      var k := MaxPairIndex(cands);
      assert Segment2(text, prev, lp) == cands[k];
    }
  }

  /** "words is the best segmentation": no way of cutting `text` into words
      of 1 to `MaxWord` characters has a higher log-probability than the
      result of `segment2`. */
  lemma {:induction false} Segment2Optimal(text: string, prev: string, lp: (string, string) -> real, ws: seq<string>)
    requires Concat(ws) == text
    requires forall k :: 0 <= k < |ws| ==> 0 < |ws[k]| <= MaxWord
    ensures LogP(ws, prev, lp) <= Segment2(text, prev, lp).0
    decreases |text|
  {
    if ws != [] {
      var w := ws[0];
      var rest := Concat(ws[1..]);
      assert text == w + rest;
      var i := |w| - 1;
      var sp := Splits(text, MaxWord);
      assert i < |sp|;
      assert sp[i].0 == w && sp[i].1 == rest by {
        assert sp[i].0 + sp[i].1 == w + rest && |sp[i].0| == |w|;
        assert sp[i].0 == (w + rest)[..|w|];
      }
      Segment2Optimal(rest, w, lp, ws[1..]);
      var cands := Candidates2(text, prev, lp);
      assert cands[i] == Candidate2(text, prev, lp, i);
      assert cands[i].0 == lp(w, prev) + Segment2(rest, w, lp).0;
      Segment2Best(text, prev, lp);
    }
  }

  // ------------------------------------------------------------- ciphers

  /** `alphabet` */
  const Alphabet: string := "abcdefghijklmnopqrstuvwxyz"

  /** The `k`-th character of the alphabet is the `k`-th code after 'a'. */
  lemma AlphabetCodes()
    ensures |Alphabet| == 26
    ensures forall k :: 0 <= k < 26 ==> Alphabet[k] == ('a' as int + k) as char
  {
    forall k | 0 <= k < 26 ensures Alphabet[k] == ('a' as int + k) as char {
      assert k in {0, 1, 2, 3, 4, 5, 6, 7, 8, 9, 10, 11, 12, 13, 14, 15, 16, 17, 18, 19, 20, 21, 22, 23, 24, 25};
    }
  }

  /** `ul(text)`: the upper-cased text followed by the lower-cased text. */
  function Ul(text: string): (r: string)
    ensures |r| == 2 * |text|
    ensures forall k :: 0 <= k < |text| ==> r[k] == Upper(text[k]) && r[|text| + k] == Lower(text[k])
  {
    UpperStr(text) + LowerStr(text)
  }

  /** One entry of `string.maketrans(frm, to)` applied to `c`: the partner
      of the last occurrence of `c` in `frm` (later pairs overwrite earlier
      ones), or `c` itself. */
  function TransChar(c: char, frm: string, to: string): (r: char)
    requires |frm| == |to|
    ensures c !in frm ==> r == c
  {
    if frm == [] then c
    else if frm[|frm| - 1] == c then to[|frm| - 1]
    else TransChar(c, frm[..|frm| - 1], to[..|frm| - 1])
  }

  lemma {:induction false} TransCharAt(c: char, frm: string, to: string, k: nat)
    requires |frm| == |to| && Distinct(frm) && k < |frm| && frm[k] == c
    ensures TransChar(c, frm, to) == to[k]
  {
    if k < |frm| - 1 {
      assert frm[|frm| - 1] != c;
      TransCharAt(c, frm[..|frm| - 1], to[..|frm| - 1], k);
    }
  }

  /** `msg.translate(string.maketrans(frm, to))` for tables of equal length. */
  function Translate(msg: string, frm: string, to: string): (r: string)
    requires |frm| == |to|
    ensures |r| == |msg| && forall i :: 0 <= i < |msg| ==> r[i] == TransChar(msg[i], frm, to)
  {
    seq(|msg|, i requires 0 <= i < |msg| => TransChar(msg[i], frm, to))
  }

  /** The position of a letter in the alphabet. */
  function Index(c: char): (k: nat)
    requires IsLetter(c)
    ensures k < 26
  {
    if IsLower(c) then c as int - 'a' as int else c as int - 'A' as int
  }

  /** What `encode` does to one character under a 26-letter key. */
  function Cipher(c: char, key: string): char
    requires |key| == 26
  {
    if IsLower(c) then Lower(key[Index(c)])
    else if IsUpper(c) then Upper(key[Index(c)])
    else c
  }

  lemma UlAlphabet()
    ensures |Ul(Alphabet)| == 52 && Distinct(Ul(Alphabet))
    ensures forall k :: 0 <= k < 26 ==> Ul(Alphabet)[k] == ('A' as int + k) as char
    ensures forall j :: 26 <= j < 52 ==> Ul(Alphabet)[j] == ('a' as int + (j - 26)) as char
  {
    var u := Ul(Alphabet);
    assert forall j :: 0 <= j < 52 ==> u[j] as int == 'A' as int + j + (if j < 26 then 0 else 6) by {
      AlphabetCodes();
    }
    assert Distinct(u) by {
      forall i, j | 0 <= i < j < 52 ensures u[i] != u[j] {
        assert u[i] as int < u[j] as int;
      }
    }
    AlphabetCodes();
  }

  /** `encode(msg, key)`: `maketrans` raises `ValueError` unless the key has
      26 characters; otherwise the i-th lower-case letter becomes the
      lower-cased `key[i]`, the i-th upper-case letter the upper-cased
      `key[i]`, and every other character stays. */
  function Encode(msg: string, key: string): (r: Result<string>)
    ensures r.Error? <==> |key| != 26
    ensures r.Error? ==> r == Error("ValueError")
    ensures r.Ok? ==> |r.value| == |msg|
                      && forall i :: 0 <= i < |msg| ==> r.value[i] == Cipher(msg[i], key)
  {
    var frm := Ul(Alphabet);
    if |key| != 26 then Error("ValueError")
    else
      var out := Translate(msg, frm, Ul(key));
      assert forall i :: 0 <= i < |msg| ==> out[i] == Cipher(msg[i], key) by {
        forall i | 0 <= i < |msg| ensures out[i] == Cipher(msg[i], key) {
          UlAlphabet();
          var c := msg[i];
          if IsLower(c) {
            TransCharAt(c, frm, Ul(key), 26 + Index(c));
          } else if IsUpper(c) {
            TransCharAt(c, frm, Ul(key), Index(c));
          } else {
            assert c !in frm;
          }
        }
      }
      Ok(out)
  }

  /** The key `shift` builds: `alphabet[n:] + alphabet[:n]`. */
  function ShiftKey(n: int): (key: string)
    ensures |key| == 26
    ensures 0 <= n <= 26 ==> forall k :: 0 <= k < 26 ==> key[k] == Alphabet[Rot(k, n)]
    ensures n >= 26 || n <= -26 ==> key == Alphabet
  {
    Rotated(Alphabet, n);
    From(Alphabet, n) + Upto(Alphabet, n)
  }

  /** `s[n:] + s[:n]` keeps the length; it is `s` itself for a shift of a
      whole length or more either way, and a rotation by `n` otherwise. */
  lemma Rotated<T>(s: seq<T>, n: int)
    ensures |From(s, n) + Upto(s, n)| == |s|
    ensures n >= |s| || n <= -|s| ==> From(s, n) + Upto(s, n) == s
    ensures 0 <= n <= |s| ==> forall k :: 0 <= k < |s| ==>
      (From(s, n) + Upto(s, n))[k] == s[if k + n < |s| then k + n else k + n - |s|]
  {
    if n >= |s| {
      assert From(s, n) == [] && Upto(s, n) == s;
    } else if n <= -|s| {
      assert From(s, n) == s && Upto(s, n) == [];
    } else if 0 <= n {
      assert From(s, n) == s[n..] && Upto(s, n) == s[..n];
    } else {
      assert |From(s, n)| == -n && |Upto(s, n)| == |s| + n;
    }
  }

  /** `(k + n) % 26` for `0 <= k < 26` and `0 <= n <= 26`. */
  function Rot(k: int, n: int): int
  {
    if k + n < 26 then k + n else k + n - 26
  }

  /** The `k`-th letter of the alphabet in either case. */
  function Letter(k: int, upper: bool): (c: char)
    requires 0 <= k < 26
    ensures IsLetter(c) && Index(c) == k && IsUpper(c) == upper
  {
    if upper then ('A' as int + k) as char else ('a' as int + k) as char
  }

  /** A letter is the letter of its own position and case. */
  lemma LetterIndex(c: char)
    requires IsLetter(c)
    ensures Letter(Index(c), IsUpper(c)) == c
  {
  }

  /** The Caesar shift of one character, stated on alphabet positions: a
      letter moves `n` places on, wrapping at 'z', and keeps its case. */
  function Caesar(c: char, n: int): char
    requires 0 <= n <= 26
  {
    if IsLetter(c) then Letter(Rot(Index(c), n), IsUpper(c)) else c
  }

  /** The rotated key makes `encode` the Caesar shift. */
  lemma CipherShift(c: char, n: int)
    requires 0 <= n <= 26
    ensures Cipher(c, ShiftKey(n)) == Caesar(c, n)
  {
    if IsLetter(c) {
      AlphabetCodes();
      var k := Rot(Index(c), n);
      assert ShiftKey(n)[Index(c)] == ('a' as int + k) as char;
    }
  }

  /** The plain alphabet as key changes nothing. */
  lemma CipherAlphabet(c: char)
    ensures Cipher(c, Alphabet) == c
  {
    if IsLetter(c) {
      AlphabetCodes();
      assert Alphabet[Index(c)] == ('a' as int + Index(c)) as char;
    }
  }

  /** `shift(msg, n)`: the Caesar cipher.  The key always has 26 letters, so
      it never raises; for `0 <= n <= 26` each letter moves `n` places on
      around the alphabet, keeping its case. */
  function Shift(msg: string, n: int): (r: string)
    ensures |r| == |msg|
    ensures 0 <= n <= 26 ==> forall i :: 0 <= i < |msg| ==> r[i] == Caesar(msg[i], n)
    ensures n >= 26 || n <= -26 ==> r == msg
  {
    var r := Encode(msg, ShiftKey(n)).value;
    ShiftCases(msg, n);
    r
  }

  lemma ShiftCases(msg: string, n: int)
    ensures 0 <= n <= 26 ==> forall i :: 0 <= i < |msg| ==> Encode(msg, ShiftKey(n)).value[i] == Caesar(msg[i], n)
    ensures n >= 26 || n <= -26 ==> Encode(msg, ShiftKey(n)).value == msg
  {
    if 0 <= n <= 26 {
      ShiftCaesar(msg, n);
    }
    if n >= 26 || n <= -26 {
      ShiftPlain(msg, n);
    }
  }

  /** A rotated key moves each letter `n` places on. */
  lemma ShiftCaesar(msg: string, n: int)
    requires 0 <= n <= 26
    ensures forall i :: 0 <= i < |msg| ==> Encode(msg, ShiftKey(n)).value[i] == Caesar(msg[i], n)
  {
    forall i | 0 <= i < |msg| ensures Encode(msg, ShiftKey(n)).value[i] == Caesar(msg[i], n) {
      CipherShift(msg[i], n);
    }
  }

  /** A shift by a whole turn or more leaves the message as it is. */
  lemma ShiftPlain(msg: string, n: int)
    requires n >= 26 || n <= -26
    ensures Encode(msg, ShiftKey(n)).value == msg
  {
    var r := Encode(msg, ShiftKey(n)).value;
    forall i | 0 <= i < |msg| ensures r[i] == msg[i] {
      CipherAlphabet(msg[i]);
    }
  }

  /** Shifting by `n` and then by `26 - n` restores the message. */
  lemma ShiftRoundTrip(msg: string, n: int)
    requires 0 <= n <= 26
    ensures Shift(Shift(msg, n), 26 - n) == msg
  {
    var s := Shift(msg, n);
    var t := Shift(s, 26 - n);
    forall i | 0 <= i < |msg| ensures t[i] == msg[i] {
      CaesarInverse(msg[i], n);
    }
  }

  lemma CaesarInverse(c: char, n: int)
    requires 0 <= n <= 26
    ensures Caesar(Caesar(c, n), 26 - n) == c
  {
    if IsLetter(c) {
      var k := Rot(Index(c), n);
      var d := Letter(k, IsUpper(c));
      assert Caesar(d, 26 - n) == Letter(Rot(k, 26 - n), IsUpper(c));
      assert Rot(k, 26 - n) == Index(c);
      LetterIndex(c);
    }
  }

  // ------------------------------------------------------------- letters

  /** `just_letters(text)`: lower-case the text and drop everything but a-z. */
  function JustLetters(text: string): (r: string)
    ensures forall i :: 0 <= i < |r| ==> IsLower(r[i])
  {
    FilterPasses(IsLower, LowerStr(text));
    Filter(IsLower, LowerStr(text))
  }

  /** `just_letters` keeps exactly the ASCII letters of the text, in order,
      lower-cased, so it is idempotent. */
  lemma {:induction false} JustLettersLetters(text: string)
    ensures JustLetters(text) == LowerStr(Filter(IsLetter, text))
    ensures JustLetters(JustLetters(text)) == JustLetters(text)
  {
    JustLettersFilter(text);
    var r := JustLetters(text);
    assert LowerStr(r) == r;
    FilterKeepsAll(IsLower, r);
  }

  lemma {:induction false} JustLettersFilter(text: string)
    ensures Filter(IsLower, LowerStr(text)) == LowerStr(Filter(IsLetter, text))
  {
    if text != [] {
      JustLettersFilter(text[1..]);
      assert LowerStr(text)[1..] == LowerStr(text[1..]);
      var head := if IsLetter(text[0]) then [text[0]] else [];
      LowerStrAppend(head, Filter(IsLetter, text[1..]));
    }
  }

  /** The length of the longest prefix of `s` made of a-z, when `letters`,
      or of anything else, when not. */
  function Lead(s: string, letters: bool): (n: nat)
    ensures n <= |s|
    ensures forall i :: 0 <= i < n ==> IsLower(s[i]) == letters
    ensures n < |s| ==> IsLower(s[n]) != letters
  {
    if s == [] || IsLower(s[0]) != letters then 0 else 1 + Lead(s[1..], letters)
  }

  /** `re.findall('[a-z]+', s)`: the maximal runs of a-z, left to right. */
  function Runs(s: string): (r: seq<string>)
    ensures forall k :: 0 <= k < |r| ==> r[k] != [] && forall i :: 0 <= i < |r[k]| ==> IsLower(r[k][i])
    decreases |s|
  {
    var g := Lead(s, false);
    if g == |s| then []
    else
      var t := s[g..];
      var w := Lead(t, true);
      [t[..w]] + Runs(t[w..])
  }

  /** The text between the runs: before the first, between neighbours, and
      after the last. */
  function Gaps(s: string): (r: seq<string>)
    decreases |s|
  {
    var g := Lead(s, false);
    if g == |s| then [s]
    else
      var t := s[g..];
      var w := Lead(t, true);
      [s[..g]] + Gaps(t[w..])
  }

  /** The text holds no a-z. */
  predicate NoLetters(x: string)
  {
    forall i :: 0 <= i < |x| ==> !IsLower(x[i])
  }

  /** Gaps and words alternating: `gaps[0] + words[0] + gaps[1] + ...`. */
  function Weave(gaps: seq<string>, words: seq<string>): string
    requires |gaps| == |words| + 1
  {
    if words == [] then gaps[0] else gaps[0] + words[0] + Weave(gaps[1..], words[1..])
  }

  /** The runs are maximal: `s` is the runs woven with gaps that hold no
      a-z, and the gaps between two runs are not empty. */
  lemma RunsMaximal(s: string)
    ensures |Gaps(s)| == |Runs(s)| + 1
    ensures Weave(Gaps(s), Runs(s)) == s
    ensures forall k :: 0 <= k < |Gaps(s)| ==> NoLetters(Gaps(s)[k])
    ensures forall k :: 0 < k < |Runs(s)| ==> Gaps(s)[k] != []
  {
    GapsCount(s);
    RunsWeave(s);
    GapsLetterFree(s);
    GapsInner(s);
  }

  lemma {:induction false} GapsCount(s: string)
    ensures |Gaps(s)| == |Runs(s)| + 1
    decreases |s|
  {
    var g := Lead(s, false);
    if g < |s| {
      var t := s[g..];
      GapsCount(t[Lead(t, true)..]);
    }
  }

  lemma WeaveCons(gap: string, word: string, gaps: seq<string>, words: seq<string>)
    requires |gaps| == |words| + 1
    ensures Weave([gap] + gaps, [word] + words) == gap + word + Weave(gaps, words)
  {
    assert ([gap] + gaps)[1..] == gaps && ([word] + words)[1..] == words;
  }

  lemma CutTwice(s: string, g: nat, w: nat)
    requires g <= |s| && w <= |s| - g
    ensures s == s[..g] + s[g..][..w] + s[g..][w..]
  {
  }

  lemma {:induction false} RunsWeave(s: string)
    ensures |Gaps(s)| == |Runs(s)| + 1 && Weave(Gaps(s), Runs(s)) == s
    decreases |s|
  {
    GapsCount(s);
    var g := Lead(s, false);
    if g < |s| {
      var t := s[g..];
      var w := Lead(t, true);
      var rest := t[w..];
      RunsWeave(rest);
      assert Runs(s) == [t[..w]] + Runs(rest);
      assert Gaps(s) == [s[..g]] + Gaps(rest);
      WeaveCons(s[..g], t[..w], Gaps(rest), Runs(rest));
      CutTwice(s, g, w);
    }
  }

  lemma {:induction false} GapsLetterFree(s: string)
    ensures forall k :: 0 <= k < |Gaps(s)| ==> NoLetters(Gaps(s)[k])
    decreases |s|
  {
    var g := Lead(s, false);
    if g < |s| {
      var t := s[g..];
      var rest := t[Lead(t, true)..];
      GapsLetterFree(rest);
      assert Gaps(s) == [s[..g]] + Gaps(rest);
      NoLettersCons(s[..g], Gaps(rest));
    }
  }

  lemma NoLettersCons(x: string, r: seq<string>)
    requires NoLetters(x) && forall k :: 0 <= k < |r| ==> NoLetters(r[k])
    ensures forall k :: 0 <= k < |[x] + r| ==> NoLetters(([x] + r)[k])
  {
    forall k | 0 <= k < |[x] + r| ensures NoLetters(([x] + r)[k]) {
      if k > 0 {
        assert ([x] + r)[k] == r[k - 1];
      }
    }
  }

  lemma {:induction false} GapsInner(s: string)
    ensures forall k :: 0 < k < |Runs(s)| ==> k < |Gaps(s)| && Gaps(s)[k] != []
    decreases |s|
  {
    GapsCount(s);
    var g := Lead(s, false);
    if g < |s| {
      var t := s[g..];
      var w := Lead(t, true);
      var rest := t[w..];
      GapsInner(rest);
      GapsCount(rest);
      assert Runs(s) == [t[..w]] + Runs(rest);
      assert Gaps(s) == [s[..g]] + Gaps(rest);
      if Runs(rest) != [] {
        assert Lead(rest, false) < |rest|;
        assert !IsLower(rest[0]);
        assert Gaps(rest)[0] == rest[..Lead(rest, false)];
      }
    }
  }

  /** Joined together, the runs are the a-z characters of `s`. */
  lemma {:induction false} RunsLetters(s: string)
    ensures Concat(Runs(s)) == Filter(IsLower, s)
    decreases |s|
  {
    var g := Lead(s, false);
    if g == |s| {
      FilterDropsAll(IsLower, s);
    } else {
      var rest := RunsRest(s);
      RunsLetters(rest);
    }
  }

  /** What is left after the first run, and what the filter and the runs
      both make of the text up to there. */
  lemma RunsRest(s: string) returns (rest: string)
    requires Lead(s, false) < |s|
    ensures |rest| < |s|
    ensures exists run :: Concat(Runs(s)) == run + Concat(Runs(rest)) && Filter(IsLower, s) == run + Filter(IsLower, rest)
  {
    var g := Lead(s, false);
    var t := s[g..];
    var w := Lead(t, true);
    rest := t[w..];
    var run := t[..w];
    assert Concat(Runs(s)) == run + Concat(Runs(rest)) by {
      assert Runs(s) == [run] + Runs(rest);
      ConcatCons(run, Runs(rest));
    }
    assert Filter(IsLower, s) == run + Filter(IsLower, rest) by {
      FilterSkip(s, g);
      FilterTake(t, w);
    }
  }

  /** Leading characters outside a-z leave nothing in the filter. */
  lemma {:induction false} FilterSkip(s: string, g: nat)
    requires g <= |s| && forall i :: 0 <= i < g ==> !IsLower(s[i])
    ensures Filter(IsLower, s) == Filter(IsLower, s[g..])
    decreases g
  {
    if g > 0 {
      assert Filter(IsLower, s) == Filter(IsLower, s[1..]);
      assert s[1..][g - 1..] == s[g..];
      FilterSkip(s[1..], g - 1);
    }
  }

  /** A leading run of a-z is kept whole by the filter. */
  lemma {:induction false} FilterTake(s: string, w: nat)
    requires w <= |s| && forall i :: 0 <= i < w ==> IsLower(s[i])
    ensures Filter(IsLower, s) == s[..w] + Filter(IsLower, s[w..])
    decreases w
  {
    if w > 0 {
      assert Filter(IsLower, s) == [s[0]] + Filter(IsLower, s[1..]);
      assert s[1..][w - 1..] == s[w..];
      FilterTake(s[1..], w - 1);
      assert s[..w] == [s[0]] + s[1..][..w - 1];
    }
  }

  /** `allwords(text)`: the maximal a-z runs of the lower-cased text. */
  function AllWords(text: string): (r: seq<string>)
    ensures Concat(r) == JustLetters(text)
    ensures forall k :: 0 <= k < |r| ==> r[k] != [] && forall i :: 0 <= i < |r[k]| ==> IsLower(r[k][i])
  {
    RunsLetters(LowerStr(text));
    Runs(LowerStr(text))
  }

  // -------------------------------------------------------------- ngrams

  /** `ngrams(seq, n)`: `seq[i:i+n]` for `i in range(1 + len(seq) - n)`. */
  function NGrams<T>(s: seq<T>, n: int): (r: seq<seq<T>>)
    ensures |r| == if 1 + |s| - n < 0 then 0 else 1 + |s| - n
    ensures 0 <= n ==> forall i :: 0 <= i < |r| ==> |r[i]| == n && r[i] == s[i..i + n]
  {
    var m := if 1 + |s| - n < 0 then 0 else 1 + |s| - n;
    var r := seq(m, i requires 0 <= i < m => Slice(s, i, i + n));
    assert 0 <= n ==> forall i :: 0 <= i < m ==> r[i] == s[i..i + n] by {
      if 0 <= n {
        forall i | 0 <= i < m ensures r[i] == s[i..i + n] {
          assert 0 <= i <= i + n <= |s|;
          assert r[i] == Slice(s, i, i + n);
        }
      }
    }
    r
  }

  /** For `1 <= n <= len(seq)` the grams overlap: the first element of each
      gram followed by the tail of the last gram spells the sequence again. */
  lemma NGramsRebuild<T>(s: seq<T>, n: int)
    requires 1 <= n <= |s|
    ensures var r := NGrams(s, n);
            seq(|r|, i requires 0 <= i < |r| => r[i][0]) + r[|r| - 1][1..] == s
  {
    var r := NGrams(s, n);
    var heads := seq(|r|, i requires 0 <= i < |r| => r[i][0]);
    assert heads == s[..|r|];
    assert r[|r| - 1][1..] == s[|r|..];
    assert s == s[..|r|] + s[|r|..];
  }

  // ---------------------------------------------------------- hillclimb

  /** `hillclimb(x, f, neighbors, steps)`: for `steps` rounds take the next
      candidate of the current neighbourhood and move to it when it scores
      strictly higher, restarting the neighbourhood there.  `next()` on an
      exhausted neighbourhood raises `StopIteration`.  The result never
      scores lower than the start, and strictly higher unless it is the
      start; with neighbourhoods of at least `steps` candidates it never
      raises. */
  method Hillclimb<X(==)>(x0: X, f: X -> real, neighbors: X -> seq<X>, steps: nat) returns (r: Result<X>)
    ensures r.Error? ==> r == Error("StopIteration")
    ensures r.Ok? ==> f(r.value) >= f(x0) && (r.value != x0 ==> f(r.value) > f(x0))
    ensures (forall y :: |neighbors(y)| >= steps) ==> r.Ok?
  {
    var x := x0;
    var fx := f(x0);
    var hood := neighbors(x);
    var i := 0;
    while i < steps
      invariant 0 <= i <= steps
      invariant fx == f(x) && f(x) >= f(x0) && (x != x0 ==> f(x) > f(x0))
      invariant (forall y :: |neighbors(y)| >= steps) ==> |hood| >= steps - i
    {
      if hood == [] {
        return Error("StopIteration");
      }
      var x2 := hood[0];
      hood := hood[1..];
      var fx2 := f(x2);
      if fx2 > fx {
        x, fx := x2, fx2;
        hood := neighbors(x);
      }
      i := i + 1;
    }
    return Ok(x);
  }
}
