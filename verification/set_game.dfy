/** The card game SET (`SET.py`): the deck, dealing, what makes three cards
    a set, finding the first set in a layout, and the tallies of sets and
    no-sets gathered while playing a game out from a given deck order. */
module SetGame {
  import opened Common

  // -------------------------------------------------------------------- cards

  /** `[c + t for c in cs for t in ts]`: every letter of `cs` in front of
      every string of `ts`, letters outermost. */
  function Prod(cs: string, ts: seq<string>): (r: seq<string>)
    ensures |r| == |cs| * |ts|
    ensures cs != [] ==> forall i :: 0 <= i < |ts| ==> r[i] == [cs[0]] + ts[i]
  {
    if cs == [] then []
    else seq(|ts|, i requires 0 <= i < |ts| => [cs[0]] + ts[i]) + Prod(cs[1..], ts)
  }

  /** A string is in the product exactly when it is a letter of `cs` in
      front of a string of `ts`. */
  lemma {:induction false} ProdMember(cs: string, ts: seq<string>, x: string)
    ensures x in Prod(cs, ts) <==> |x| >= 1 && x[0] in cs && x[1..] in ts
  {
    if cs != [] {
      var r := Prod(cs, ts);
      var rest := Prod(cs[1..], ts);
      assert r == r[..|ts|] + rest;
      ProdMember(cs[1..], ts, x);
      assert |x| >= 1 ==> (x[0] in cs <==> x[0] == cs[0] || x[0] in cs[1..]) by {
        assert cs == [cs[0]] + cs[1..];
      }
      if |x| >= 1 && x[0] == cs[0] && x[1..] in ts {
        var i :| 0 <= i < |ts| && ts[i] == x[1..];
        assert r[i] == x;
      }
      if x in r[..|ts|] {
        var i :| 0 <= i < |ts| && r[..|ts|][i] == x;
        assert x[1..] == ts[i];
      }
    }
  }

  lemma {:induction false} ProdDistinct(cs: string, ts: seq<string>)
    requires Distinct(cs) && Distinct(ts)
    ensures Distinct(Prod(cs, ts))
  {
    if cs != [] {
      var r := Prod(cs, ts);
      var first := r[..|ts|];
      var rest := Prod(cs[1..], ts);
      assert r == first + rest;
      assert Distinct(cs[1..]) by {
        assert forall i :: 0 <= i < |cs| - 1 ==> cs[1..][i] == cs[i + 1];
      }
      ProdDistinct(cs[1..], ts);
      forall i, j | 0 <= i < j < |r| ensures r[i] != r[j] {
        if j < |ts| {
          assert first[i][1..] == ts[i] && first[j][1..] == ts[j];
        } else if i < |ts| {
          assert r[j] in rest;
          ProdMember(cs[1..], ts, r[j]);
          assert r[i][0] == cs[0];
        } else {
          assert r[i] == rest[i - |ts|] && r[j] == rest[j - |ts|];
        }
      }
    }
  }

  const NUMBERS := "123"
  const COLORS := "RGP"
  const SHADES := "@O="
  const SYMBOLS := "0SD"

  /** A card the program builds: a number, a color, a shade and a symbol. */
  predicate IsCard(c: string)
  {
    |c| == 4 && c[0] in NUMBERS && c[1] in COLORS && c[2] in SHADES && c[3] in SYMBOLS
  }

  /** `CARDS`. */
  function Cards(): seq<string>
  {
    Prod4(NUMBERS, COLORS, SHADES, SYMBOLS)
  }

  /** Four nested products: a string of four letters, one from each list. */
  function Prod4(a: string, b: string, c: string, d: string): seq<string>
  {
    Prod(a, Prod(b, Prod(c, Prod(d, [[]]))))
  }

  lemma Prod4Distinct(a: string, b: string, c: string, d: string)
    requires Distinct(a) && Distinct(b) && Distinct(c) && Distinct(d)
    ensures Distinct(Prod4(a, b, c, d))
  {
    assert Distinct<string>([[]]);
    ProdDistinct(d, [[]]);
    ProdDistinct(c, Prod(d, [[]]));
    ProdDistinct(b, Prod(c, Prod(d, [[]])));
    ProdDistinct(a, Prod(b, Prod(c, Prod(d, [[]]))));
  }

  lemma Prod4Length(a: string, b: string, c: string, d: string)
    ensures |Prod4(a, b, c, d)| == |a| * (|b| * (|c| * |d|))
  {
    var p1 := Prod(d, [[]]);
    var p2 := Prod(c, p1);
    assert |p2| == |c| * |d|;
    var p3 := Prod(b, p2);
    assert |p3| == |b| * (|c| * |d|);
  }

  lemma Prod4Members(a: string, b: string, c: string, d: string, x: string)
    ensures x in Prod4(a, b, c, d) <==> |x| == 4 && x[0] in a && x[1] in b && x[2] in c && x[3] in d
  {
    ProdMember(a, Prod(b, Prod(c, Prod(d, [[]]))), x);
    if |x| >= 1 {
      var y := x[1..];
      ProdMember(b, Prod(c, Prod(d, [[]])), y);
      if |y| >= 1 {
        var z := y[1..];
        ProdMember(c, Prod(d, [[]]), z);
        if |z| >= 1 {
          var w := z[1..];
          ProdMember(d, [[]], w);
          assert |w| >= 1 ==> (w[1..] in [[]] <==> w[1..] == []);
          assert |x| == 4 ==> x[1] == y[0] && x[2] == z[0] && x[3] == w[0];
        }
      }
    }
  }

  /** `CARDS` holds 81 distinct cards. */
  lemma CardsDistinct()
    ensures |Cards()| == 81 && Distinct(Cards())
  {
    Prod4Distinct(NUMBERS, COLORS, SHADES, SYMBOLS);
    Prod4Length(NUMBERS, COLORS, SHADES, SYMBOLS);
  }

  /** Every card is in `CARDS`, and nothing else is. */
  lemma CardsMembers(x: string)
    ensures x in Cards() <==> IsCard(x)
  {
    Prod4Members(NUMBERS, COLORS, SHADES, SYMBOLS, x);
  }

  // --------------------------------------------------------------------- deal

  /** `deal(n, deck)`: pop `n` cards off the end of the deck. The cards come
      out last card first; popping an empty deck raises `IndexError`. */
  function Deal(n: nat, deck: seq<string>): (r: Result<(seq<string>, seq<string>)>)
    ensures r.Ok? <==> n <= |deck|
    ensures r.Error? ==> r == Error("IndexError")
    ensures r.Ok? ==> r.value.1 == deck[..|deck| - n] && r.value.0 == Rev(deck[|deck| - n..])
  {
    if n == 0 then Ok(([], deck))
    else if deck == [] then Error("IndexError")
    else
      match Deal(n - 1, deck[..|deck| - 1])
      case Error(e) => Error(e)
      case Ok(d) =>
        var top := deck[..|deck| - 1];
        assert top[..|top| - (n - 1)] == deck[..|deck| - n];
        assert deck[|deck| - n..] == top[|top| - (n - 1)..] + [deck[|deck| - 1]];
        RevAppend(top[|top| - (n - 1)..], [deck[|deck| - 1]]);
        Ok(([deck[|deck| - 1]] + d.0, d.1))
  }

  // ------------------------------------------------------------------- is_set

  /** Every card has its four features (`is_set` reads `card[f]`). */
  predicate WellSized(cards: seq<string>)
  {
    forall i :: 0 <= i < |cards| ==> |cards[i]| >= 4
  }

  /** The values feature `f` takes among `cards`. */
  function Values(cards: seq<string>, f: nat): set<char>
    requires f < 4 && WellSized(cards)
  {
    set i | 0 <= i < |cards| :: cards[i][f]
  }

  /** `is_set(cards)`: no feature takes exactly two values. */
  function IsSet(cards: seq<string>): (b: bool)
    requires WellSized(cards)
    ensures !b <==> exists f :: 0 <= f < 4 && |Values(cards, f)| == 2
  {
    IsSetFrom(cards, 0)
  }

  /** The loop of `is_set` from feature `f` on. */
  function IsSetFrom(cards: seq<string>, f: nat): (b: bool)
    requires f <= 4 && WellSized(cards)
    ensures !b <==> exists g :: f <= g < 4 && |Values(cards, g)| == 2
    decreases 4 - f
  {
    if f == 4 then true
    else if |Values(cards, f)| == 2 then false
    else
      IsSetFrom(cards, f + 1)
  }

  /** Three values, all the same or all different. */
  predicate SameOrDistinct(x: char, y: char, z: char)
  {
    (x == y && y == z) || (x != y && y != z && x != z)
  }

  /** Three cards make a set exactly when every feature is all the same or
      all different on them. */
  lemma IsSetThree(a: string, b: string, c: string)
    requires |a| >= 4 && |b| >= 4 && |c| >= 4
    ensures IsSet([a, b, c]) <==> forall f :: 0 <= f < 4 ==> SameOrDistinct(a[f], b[f], c[f])
  {
    forall f | 0 <= f < 4 ensures |Values([a, b, c], f)| == 2 <==> !SameOrDistinct(a[f], b[f], c[f]) {
      var vs := Values([a, b, c], f);
      assert vs == {a[f], b[f], c[f]} by {
        assert [a, b, c][0] == a && [a, b, c][1] == b && [a, b, c][2] == c;
      }
    }
  }

  /** The two `is_set` cases the script checks itself with. */
  lemma IsSetExamples()
    ensures IsSet(["3R=O", "2R=S", "1R=D"])
    ensures !IsSet(["3R=0", "2R=S", "1R@D"])
  {
    IsSetThree("3R=O", "2R=S", "1R=D");
    IsSetThree("3R=0", "2R=S", "1R@D");
    assert !SameOrDistinct("3R=0"[2], "2R=S"[2], "1R@D"[2]);
  }

  // ----------------------------------------------------------------- find_set

  /** Cards `i < j < k` of the layout make a set. */
  predicate SetAt(layout: seq<string>, i: int, j: int, k: int)
    requires WellSized(layout)
  {
    0 <= i < j < k < |layout| && IsSet([layout[i], layout[j], layout[k]])
  }

  /** `(i, j, k)` comes before `(a, b, c)` in `itertools.combinations` order. */
  predicate Before(i: int, j: int, k: int, a: int, b: int, c: int)
  {
    i < a || (i == a && j < b) || (i == a && j == b && k < c)
  }

  /** The loop of `find_set` over `itertools.combinations(layout, 3)`: the
      positions of the first combination that is a set. */
  function FirstSet(layout: seq<string>): (r: Option<(nat, nat, nat)>)
    requires WellSized(layout)
    ensures r.None? <==> forall i, j, k :: !SetAt(layout, i, j, k)
    ensures r.Some? ==> SetAt(layout, r.value.0, r.value.1, r.value.2)
    ensures r.Some? ==> forall i, j, k :: SetAt(layout, i, j, k) ==> !Before(i, j, k, r.value.0, r.value.1, r.value.2)
  {
    FirstFromI(layout, 0)
  }

  /** Combinations whose first position is at least `i`. */
  function FirstFromI(layout: seq<string>, i: nat): (r: Option<(nat, nat, nat)>)
    requires WellSized(layout)
    ensures r.None? <==> forall a, b, c :: a >= i ==> !SetAt(layout, a, b, c)
    ensures r.Some? ==> r.value.0 >= i && SetAt(layout, r.value.0, r.value.1, r.value.2)
    ensures r.Some? ==> forall a, b, c :: a >= i && SetAt(layout, a, b, c) ==> !Before(a, b, c, r.value.0, r.value.1, r.value.2)
    decreases |layout| - i
  {
    if i >= |layout| then None
    else
      match FirstFromJ(layout, i, i + 1)
      case Some(jk) => Some((i, jk.0, jk.1))
      case None => FirstFromI(layout, i + 1)
  }

  /** Combinations starting at `i` whose second position is at least `j`. */
  function FirstFromJ(layout: seq<string>, i: nat, j: nat): (r: Option<(nat, nat)>)
    requires WellSized(layout)
    requires i < j
    ensures r.None? <==> forall b, c :: b >= j ==> !SetAt(layout, i, b, c)
    ensures r.Some? ==> r.value.0 >= j && SetAt(layout, i, r.value.0, r.value.1)
    ensures r.Some? ==> forall b, c :: b >= j && SetAt(layout, i, b, c) ==> !Before(i, b, c, i, r.value.0, r.value.1)
    decreases |layout| - j
  {
    if j >= |layout| then None
    else
      match FirstFromK(layout, i, j, j + 1)
      case Some(k) => Some((j, k))
      case None => FirstFromJ(layout, i, j + 1)
  }

  /** Combinations starting at `i`, `j` whose third position is at least `k`. */
  function FirstFromK(layout: seq<string>, i: nat, j: nat, k: nat): (r: Option<nat>)
    requires WellSized(layout)
    requires i < j < k
    ensures r.None? <==> forall c :: c >= k ==> !SetAt(layout, i, j, c)
    ensures r.Some? ==> r.value >= k && SetAt(layout, i, j, r.value)
    ensures r.Some? ==> forall c :: k <= c < r.value ==> !SetAt(layout, i, j, c)
    decreases |layout| - k
  {
    if k >= |layout| then None
    else if IsSet([layout[i], layout[j], layout[k]]) then
      assert SetAt(layout, i, j, k);
      Some(k)
    else FirstFromK(layout, i, j, k + 1)
  }

  /** `find_set(layout)`: the cards of the first combination that is a set,
      or `()`. */
  function FindSet(layout: seq<string>): (s: seq<string>)
    requires WellSized(layout)
    ensures s == [] <==> forall i, j, k :: !SetAt(layout, i, j, k)
    ensures s != [] ==> |s| == 3 && (forall n :: 0 <= n < 3 ==> s[n] in layout) && IsSet(s)
  {
    match FirstSet(layout)
    case None => []
    case Some(t) => [layout[t.0], layout[t.1], layout[t.2]]
  }

  // -------------------------------------------------------------------- tally

  /** `{True: sets, False: nosets}` for one layout size. */
  datatype Counts = Counts(sets: nat, nosets: nat)

  /** `Tallies()`: a missing size reads as no sets and no no-sets. */
  function Count(t: map<nat, Counts>, size: nat): Counts
  {
    if size in t then t[size] else Counts(0, 0)
  }

  /** `tally(tallies, layout)`: find a set and count it, or count its absence,
      under the size of the layout. */
  function Tally(t: map<nat, Counts>, layout: seq<string>): (r: (map<nat, Counts>, seq<string>))
    requires WellSized(layout)
    ensures r.1 == FindSet(layout)
    ensures r.1 != [] ==> Count(r.0, |layout|) == Count(t, |layout|).(sets := Count(t, |layout|).sets + 1)
    ensures r.1 == [] ==> Count(r.0, |layout|) == Count(t, |layout|).(nosets := Count(t, |layout|).nosets + 1)
    ensures forall size :: size != |layout| ==> Count(r.0, size) == Count(t, size)
  {
    var s := FindSet(layout);
    var c := Count(t, |layout|);
    (t[|layout| := if s != [] then c.(sets := c.sets + 1) else c.(nosets := c.nosets + 1)], s)
  }

  /** Every count of every size, added up. */
  function Total(t: map<nat, Counts>, sizes: seq<nat>): nat
  {
    if sizes == [] then 0 else Count(t, sizes[0]).sets + Count(t, sizes[0]).nosets + Total(t, sizes[1..])
  }

  /** A tally adds one to the grand total over any list of distinct sizes
      that includes the layout's size. */
  lemma {:induction false} TallyAddsOne(t: map<nat, Counts>, layout: seq<string>, sizes: seq<nat>)
    requires WellSized(layout)
    requires Distinct(sizes) && |layout| in sizes
    ensures Total(Tally(t, layout).0, sizes) == Total(t, sizes) + 1
  {
    if sizes[0] == |layout| {
      TotalSame(Tally(t, layout).0, t, sizes[1..], |layout|);
    } else {
      assert Distinct(sizes[1..]) by {
        assert forall i :: 0 <= i < |sizes| - 1 ==> sizes[1..][i] == sizes[i + 1];
      }
      TallyAddsOne(t, layout, sizes[1..]);
    }
  }

  lemma {:induction false} TotalSame(t: map<nat, Counts>, u: map<nat, Counts>, sizes: seq<nat>, skip: nat)
    requires skip !in sizes && forall size :: size != skip ==> Count(t, size) == Count(u, size)
    ensures Total(t, sizes) == Total(u, sizes)
  {
    if sizes != [] {
      TotalSame(t, u, sizes[1..], skip);
    }
  }

  // ---------------------------------------------------------------- game play

  /** `layout.remove(card)`: drop the first occurrence. */
  function Remove(layout: seq<string>, card: string): (r: seq<string>)
    requires card in layout
    ensures |r| == |layout| - 1 && multiset(r) == multiset(layout) - multiset{card}
  {
    assert layout == [layout[0]] + layout[1..];
    if layout[0] == card then layout[1..]
    else [layout[0]] + Remove(layout[1..], card)
  }

  /** `for card in s: layout.remove(card)`. */
  function RemoveAll(layout: seq<string>, s: seq<string>): (r: seq<string>)
    requires multiset(s) <= multiset(layout)
    ensures |r| == |layout| - |s| && multiset(r) == multiset(layout) - multiset(s)
    decreases |s|
  {
    if s == [] then layout
    else
      assert s == [s[0]] + s[1..];
      assert s[0] in multiset(layout);
      var l := Remove(layout, s[0]);
      assert multiset(s[1..]) <= multiset(l);
      RemoveAll(l, s[1..])
  }

  /** A sequence splits around one of its elements. */
  lemma MultisetAround(s: seq<string>, i: int)
    requires 0 <= i < |s|
    ensures multiset(s) == multiset(s[..i]) + multiset{s[i]} + multiset(s[i + 1..])
  {
    assert s == s[..i] + [s[i]] + s[i + 1..];
  }

  /** Three positions `i < j < k` of a sequence hold three of its elements. */
  lemma PickThree(s: seq<string>, i: int, j: int, k: int)
    requires 0 <= i < j < k < |s|
    ensures multiset([s[i], s[j], s[k]]) <= multiset(s)
  {
    MultisetAround(s, k);
    var s1 := s[..k];
    assert s1[j] == s[j];
    MultisetAround(s1, j);
    var s2 := s1[..j];
    assert s2[i] == s[i];
    MultisetAround(s2, i);
    assert multiset([s[i], s[j], s[k]]) == multiset{s[i]} + multiset{s[j]} + multiset{s[k]};
  }

  /** The cards of a found set are three cards of the layout. */
  lemma FoundInLayout(layout: seq<string>)
    requires WellSized(layout) && FindSet(layout) != []
    ensures multiset(FindSet(layout)) <= multiset(layout)
  {
    var t := FirstSet(layout).value;
    PickThree(layout, t.0, t.1, t.2);
  }

  /** Cards taken from a deck of full cards are full cards. */
  lemma WellSizedPart(s: seq<string>, t: seq<string>)
    requires WellSized(s) && multiset(t) <= multiset(s)
    ensures WellSized(t)
  {
    forall n | 0 <= n < |t| ensures |t[n]| >= 4 {
      assert t[n] in multiset(t);
      assert t[n] in s;
    }
  }

  /** What `deal` hands out and leaves behind are full cards. */
  lemma WellSizedDeal(n: nat, deck: seq<string>)
    requires WellSized(deck) && n <= |deck|
    ensures WellSized(Deal(n, deck).value.0) && WellSized(Deal(n, deck).value.1)
  {
    var d := Deal(n, deck).value;
    forall m | 0 <= m < |d.0| ensures |d.0[m]| >= 4 {
      assert d.0[m] == deck[|deck| - n..][n - 1 - m];
    }
  }

  /** The layout after a found set is taken out. */
  function AfterTally(layout: seq<string>, s: seq<string>): (rest: seq<string>)
    requires WellSized(layout) && s == FindSet(layout)
    ensures WellSized(rest)
    ensures s != [] ==> |rest| == |layout| - 3 && multiset(rest) == multiset(layout) - multiset(s)
    ensures s == [] ==> rest == layout
  {
    if s == [] then layout
    else
      FoundInLayout(layout);
      var rest := RemoveAll(layout, s);
      WellSizedPart(layout, rest);
      rest
  }

  /** The body of the loop up to the deal: tally the layout, then take out
      the set it found. */
  function TallyAndTake(t: map<nat, Counts>, layout: seq<string>): (r: (map<nat, Counts>, seq<string>, bool))
    requires WellSized(layout)
    ensures r.0 == Tally(t, layout).0 && r.2 == (FindSet(layout) != [])
    ensures WellSized(r.1)
    ensures r.2 ==> |r.1| == |layout| - 3 && multiset(r.1) == multiset(layout) - multiset(FindSet(layout))
    ensures !r.2 ==> r.1 == layout
  {
    var (t1, s) := Tally(t, layout);
    (t1, AfterTally(layout, s), s != [])
  }

  lemma DealShort(deck: seq<string>)
    requires deck != [] && Deal(3, deck).Error?
    ensures |deck| % 3 != 0
  {
  }

  lemma ThreeLess(m: int)
    ensures (m - 3) % 3 == m % 3
  {
  }

  /** The `while deck` loop of `tally_game_play`: tally the layout, take a
      found set out of it, and deal three more cards when the layout is
      under twelve or had no set. It ends with no error exactly when the
      deck holds a multiple of three cards. */
  function Play(t: map<nat, Counts>, layout: seq<string>, deck: seq<string>): (r: Result<map<nat, Counts>>)
    requires WellSized(layout) && WellSized(deck)
    ensures r.Ok? <==> |deck| % 3 == 0
    ensures r.Error? ==> r == Error("IndexError")
    decreases |deck|, |layout|
  {
    if deck == [] then Ok(t)
    else
      var step := TallyAndTake(t, layout);
      if |step.1| < 12 || !step.2 then
        var dealt := Deal(3, deck);
        if dealt.Error? then
          assert |deck| % 3 != 0 by { DealShort(deck); }
          Error(dealt.exc)
        else
          WellSizedDeal(3, deck);
          ThreeLess(|deck|);
          Play(step.0, step.1 + dealt.value.0, dealt.value.1)
      else Play(step.0, step.1, deck)
  }

  /** One game of `tally_game_play` from a shuffled deck: deal twelve, then
      play until the deck is empty. From any deck of a multiple of three
      cards, twelve or more, no `deal` runs short. */
  function GamePlay(t: map<nat, Counts>, deck: seq<string>): (r: Result<map<nat, Counts>>)
    requires WellSized(deck)
    ensures r.Ok? <==> |deck| >= 12 && |deck| % 3 == 0
    ensures r.Error? ==> r == Error("IndexError")
  {
    match Deal(12, deck)
    case Error(e) => Error(e)
    case Ok(d) =>
      WellSizedDeal(12, deck);
      var m := |deck|;
      ThreeLess(m); ThreeLess(m - 3); ThreeLess(m - 6); ThreeLess(m - 9);
      Play(t, d.0, d.1)
  }

  /** A game from a shuffle of `CARDS` never runs out of cards. */
  lemma ShuffledGame(t: map<nat, Counts>, deck: seq<string>)
    requires multiset(deck) == multiset(Cards())
    ensures WellSized(deck) && GamePlay(t, deck).Ok?
  {
    CardsDistinct();
    assert |deck| == |multiset(deck)| == |multiset(Cards())| == 81;
    forall n | 0 <= n < |deck| ensures |deck[n]| >= 4 {
      assert deck[n] in multiset(Cards());
      CardsMembers(deck[n]);
    }
  }
}
