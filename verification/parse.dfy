/** `py/parse.py`: a bottom-up backtracking parser.  The forest starts as the
    words of a sentence; at each position, and for each rule in grammar
    order, a matching stretch of the forest is replaced by a node, and the
    search recurses until the forest is one `S` node. */
module Parse {
  import opened Common

  /** A forest item: a word of the sentence, or a tuple `(lhs, subsequence)`. */
  datatype Tree = Word(w: string) | Node(lhs: string, kids: seq<Tree>)

  /** A grammar alternative: a bare symbol, or a list of symbols. */
  datatype Rhs = One(sym: string) | Many(syms: seq<string>)

  /** The grammar dictionary, its keys in insertion order. */
  type Grammar = seq<(string, seq<Rhs>)>

  /** `category(forest)` */
  function Category(t: Tree): string
  {
    if t.Node? then t.lhs else "word"
  }

  /** `mklist(x)` */
  function MkList(x: Rhs): seq<string>
  {
    if x.Many? then x.syms else [x.sym]
  }

  /** One position of `match`: the item's category, or the item itself, is the symbol. */
  predicate Fits(t: Tree, sym: string)
  {
    Category(t) == sym || t == Word(sym)
  }

  /** `match(forest, rhs)`: false at the first item that does not fit, and an
      `IndexError` when the forest runs out while every item so far fits. */
  function Match(sub: seq<Tree>, rhs: seq<string>): (r: Result<bool>)
    ensures r == Ok(true) <==> |rhs| <= |sub| && forall i :: 0 <= i < |rhs| ==> Fits(sub[i], rhs[i])
    ensures r.Error? <==> |sub| < |rhs| && forall i :: 0 <= i < |sub| ==> Fits(sub[i], rhs[i])
    ensures r.Error? ==> r == Error("IndexError")
  {
    MatchFrom(sub, rhs, 0)
  }

  function MatchFrom(sub: seq<Tree>, rhs: seq<string>, i: nat): (r: Result<bool>)
    requires i <= |rhs| && i <= |sub| + 1
    requires forall k :: 0 <= k < i && k < |sub| ==> Fits(sub[k], rhs[k])
    requires i <= |sub|
    ensures r == Ok(true) <==> |rhs| <= |sub| && forall k :: i <= k < |rhs| ==> Fits(sub[k], rhs[k])
    ensures r.Error? <==> |sub| < |rhs| && forall k :: i <= k < |sub| ==> Fits(sub[k], rhs[k])
    ensures r.Error? ==> r == Error("IndexError")
    decreases |rhs| - i
  {
    if i == |rhs| then Ok(true)
    else if i == |sub| then Error("IndexError")
    else if !Fits(sub[i], rhs[i]) then Ok(false)
    else MatchFrom(sub, rhs, i + 1)
  }

  /** `forest[i:i+n]`, clipped at the end like a Python slice. */
  function Slice(f: seq<Tree>, i: nat, n: nat): (r: seq<Tree>)
    requires i <= |f|
    ensures |r| == if i + n <= |f| then n else |f| - i
  {
    if i + n <= |f| then f[i..i + n] else f[i..]
  }

  // ------------------------------------------------------------- the grammar

  /** The script's grammar, with its `'Comjunction'` typo kept. */
  const Wumpus: Grammar := [
    ("Noun", [One("stench"), One("wumpus")]),
    ("Verb", [One("is"), One("smell")]),
    ("Adjective", [One("dead"), One("smelly")]),
    ("Adverb", [One("left"), One("back")]),
    ("Pronoun", [One("me"), One("you")]),
    ("Name", [One("John"), One("Mary")]),
    ("Article", [One("the"), One("a")]),
    ("Preposition", [One("to"), One("in")]),
    ("Conjunction", [One("and"), One("or")]),
    ("Digit", [One("0"), One("1")]),
    ("S", [Many(["NP", "VP"]), Many(["S", "Comjunction", "S"])]),
    ("NP", [One("Pronoun"), One("Noun"), Many(["Article", "Noun"]), Many(["Digit", "Digit"]),
            Many(["NP", "PP"]), Many(["NP", "RelClause"])]),
    ("VP", [One("Verb"), Many(["VP", "NP"]), Many(["VP", "Adjective"]), Many(["VP", "PP"]),
            Many(["VP", "Adverb"])]),
    ("PP", [Many(["Preposition", "NP"])]),
    ("RelClause", [Many(["that", "VP"])])
  ]

  // ------------------------------------------------------------- termination

  /** How many one-symbol rules can still rewrite an item of this category
      on top of each other: a word can become a `Noun`, which can become an
      `NP`. */
  function Rank(c: string): nat
  {
    if c in {"Noun", "Pronoun", "Verb"} then 1
    else if c in {"S", "NP", "VP", "PP", "RelClause", "Adjective", "Adverb", "Name", "Article", "Preposition", "Conjunction", "Digit"} then 0
    else 2
  }

  function Pot(t: Tree): nat
  {
    if t.Word? then 2 else Rank(t.lhs)
  }

  function SumPot(f: seq<Tree>): nat
  {
    if f == [] then 0 else Pot(f[0]) + SumPot(f[1..])
  }

  lemma {:induction false} SumPotAppend(a: seq<Tree>, b: seq<Tree>)
    ensures SumPot(a + b) == SumPot(a) + SumPot(b)
  {
    if a != [] {
      assert (a + b)[1..] == a[1..] + b;
      SumPotAppend(a[1..], b);
    } else {
      assert a + b == b;
    }
  }

  /** A rule that can never loop: it is not empty, and when it has a single
      symbol it lowers the rank of whatever it rewrites. */
  predicate RankedRule(lhs: string, rhs: seq<string>)
  {
    |rhs| >= 1 && (|rhs| == 1 ==> Rank(lhs) < 2 && Rank(lhs) < Rank(rhs[0]))
  }

  /** The condition under which `parse` always stops: no empty rule and no
      cycle of one-symbol rules. */
  predicate Ranked(g: Grammar)
  {
    forall k, m :: 0 <= k < |g| && 0 <= m < |g[k].1| ==> RankedAt(g, k, m)
  }

  /** Alternative `m` of key `k` is a rule that can never loop. */
  predicate RankedAt(g: Grammar, k: nat, m: nat)
    requires k < |g| && m < |g[k].1|
  {
    RankedRule(g[k].0, MkList(g[k].1[m]))
  }

  lemma WumpusRanked()
    ensures Ranked(Wumpus)
  {
    forall k, m | 0 <= k < 10 && 0 <= m < |Wumpus[k].1|
      ensures RankedAt(Wumpus, k, m)
    {
      assert k in {0, 1, 2, 3, 4, 5, 6, 7, 8, 9};
    }
    forall k, m | 10 <= k < |Wumpus| && 0 <= m < |Wumpus[k].1|
      ensures RankedAt(Wumpus, k, m)
    {
      assert k in {10, 11, 12, 13, 14};
    }
  }

  // --------------------------------------------------------------- reduction

  /** `forest2[i:i+n] = [(lhs, subsequence)]` */
  function Reduce(f: seq<Tree>, i: nat, lhs: string, rhs: seq<string>): (r: seq<Tree>)
    requires RankedRule(lhs, rhs) && i + |rhs| <= |f|
    requires forall k :: 0 <= k < |rhs| ==> Fits(f[i + k], rhs[k])
    ensures |r| < |f| || (|r| == |f| && SumPot(r) < SumPot(f))
    ensures |r| == |f| - |rhs| + 1
  {
    var r := f[..i] + [Node(lhs, f[i..i + |rhs|])] + f[i + |rhs|..];
    assert |rhs| == 1 ==> SumPot(r) < SumPot(f) by {
      if |rhs| == 1 {
        assert f == f[..i] + [f[i]] + f[i + 1..];
        SumPotAppend(f[..i] + [f[i]], f[i + 1..]);
        SumPotAppend(f[..i], [f[i]]);
        SumPotAppend(f[..i] + [Node(lhs, f[i..i + 1])], f[i + 1..]);
        SumPotAppend(f[..i], [Node(lhs, f[i..i + 1])]);
        assert Fits(f[i + 0], rhs[0]);
      }
    }
    r
  }

  /** The words under a tree, left to right. */
  function Yield(t: Tree): seq<string>
    decreases t, 1
  {
    match t
    case Word(w) => [w]
    case Node(_, kids) => Yields(kids)
  }

  function Yields(f: seq<Tree>): seq<string>
    decreases f, 0
  {
    if f == [] then [] else Yield(f[0]) + Yields(f[1..])
  }

  lemma {:induction false} YieldsAppend(a: seq<Tree>, b: seq<Tree>)
    ensures Yields(a + b) == Yields(a) + Yields(b)
  {
    if a != [] {
      assert (a + b)[1..] == a[1..] + b;
      YieldsAppend(a[1..], b);
    } else {
      assert a + b == b;
    }
  }

  /** A reduction keeps the sentence: the forest's words, in order, are unchanged. */
  lemma ReduceYields(f: seq<Tree>, i: nat, lhs: string, rhs: seq<string>)
    requires RankedRule(lhs, rhs) && i + |rhs| <= |f|
    requires forall k :: 0 <= k < |rhs| ==> Fits(f[i + k], rhs[k])
    ensures Yields(Reduce(f, i, lhs, rhs)) == Yields(f)
    ensures |Reduce(f, i, lhs, rhs)| <= |f|
  {
    var n := |rhs|;
    assert f == f[..i] + f[i..i + n] + f[i + n..];
    YieldsAppend(f[..i] + f[i..i + n], f[i + n..]);
    YieldsAppend(f[..i], f[i..i + n]);
    YieldsAppend(f[..i] + [Node(lhs, f[i..i + n])], f[i + n..]);
    YieldsAppend(f[..i], [Node(lhs, f[i..i + n])]);
    assert [Node(lhs, f[i..i + n])][1..] == [];
  }

  // ------------------------------------------------------------------ search

  /** The rule `g[k].1[m]` applies at position `i`. */
  predicate Applies(f: seq<Tree>, g: Grammar, i: int, k: int, m: int)
  {
    0 <= i < |f| && 0 <= k < |g| && 0 <= m < |g[k].1|
    && i + |MkList(g[k].1[m])| <= |f|
    && forall j :: 0 <= j < |MkList(g[k].1[m])| ==> Fits(f[i + j], MkList(g[k].1[m])[j])
  }

  function Step(f: seq<Tree>, g: Grammar, i: int, k: int, m: int): seq<Tree>
    requires Ranked(g) && Applies(f, g, i, k, m)
  {
    assert RankedAt(g, k, m);
    Reduce(f, i, g[k].0, MkList(g[k].1[m]))
  }

  /** Some chain of reductions turns the forest into a single `S` node: the
      reference definition `parse` is checked against. */
  ghost predicate Derivable(f: seq<Tree>, g: Grammar)
    requires Ranked(g)
    decreases |f|, SumPot(f)
  {
    (|f| == 1 && Category(f[0]) == "S")
    || exists i, k, m | Applies(f, g, i, k, m) :: Derivable(Step(f, g, i, k, m), g)
  }

  /** `(i, k, m)` comes at or after `(i0, k0, m0)` in the search order. */
  predicate NotBefore(i: int, k: int, m: int, i0: int, k0: int, m0: int)
  {
    i > i0 || (i == i0 && (k > k0 || (k == k0 && m >= m0)))
  }

  /** `parse(forest, grammar)`, an exception being an `Error` and `None`
      meaning that the search failed. */
  function ParseForest(f: seq<Tree>, g: Grammar): (r: Result<Option<Tree>>)
    requires Ranked(g)
    ensures r.Ok? && r.value.Some? ==>
      Category(r.value.value) == "S" && Yield(r.value.value) == Yields(f) && Derivable(f, g)
    ensures r == Ok(None) ==> !Derivable(f, g)
    ensures |f| == 1 && Category(f[0]) == "S" ==> r == Ok(Some(f[0]))
    decreases |f|, SumPot(f), 1, 0, 0, 0
  {
    if |f| == 1 && Category(f[0]) == "S" then
      assert Yields(f) == Yield(f[0]) + Yields([]);
      Ok(Some(f[0]))
    else
      TryFrom(f, g, 0, 0, 0)
  }

  /** The loops of `parse` from position `i`, key `k`, alternative `m` on. */
  function TryFrom(f: seq<Tree>, g: Grammar, i: nat, k: nat, m: nat): (r: Result<Option<Tree>>)
    requires Ranked(g) && k <= |g| && (k < |g| ==> m <= |g[k].1|)
    ensures r.Ok? && r.value.Some? ==>
      Category(r.value.value) == "S" && Yield(r.value.value) == Yields(f) && Derivable(f, g)
    ensures r == Ok(None) ==> NoneFrom(f, g, i, k, m)
    decreases |f|, SumPot(f), 0, |f| - i, |g| - k, if k < |g| then |g[k].1| - m else 0
  {
    if i >= |f| then Ok(None)
    else if k == |g| then
      var r := TryFrom(f, g, i + 1, 0, 0);
      assert r == Ok(None) ==> NoneFrom(f, g, i, k, m) by {
        if r == Ok(None) { NoneNextPosition(f, g, i); }
      }
      r
    else if m == |g[k].1| then
      var r := TryFrom(f, g, i, k + 1, 0);
      assert r == Ok(None) ==> NoneFrom(f, g, i, k, m) by {
        if r == Ok(None) { NoneNextKey(f, g, i, k); }
      }
      r
    else
      var rhs := MkList(g[k].1[m]);
      var sub := Slice(f, i, |rhs|);
      match Match(sub, rhs)
      case Error(e) => Error(e)
      case Ok(fits) =>
        if !fits then
          var r := TryFrom(f, g, i, k, m + 1);
          assert r == Ok(None) ==> NoneFrom(f, g, i, k, m) by {
            if r == Ok(None) { NoneNextAlternative(f, g, i, k, m); }
          }
          r
        else
          assert forall j :: 0 <= j < |rhs| ==> sub[j] == f[i + j];
          assert Applies(f, g, i, k, m);
          var f2 := Step(f, g, i, k, m);
          var r := ParseForest(f2, g);
          if r.Error? || r.value.Some? then
            assert RankedAt(g, k, m);
            ReduceYields(f, i, g[k].0, rhs);
            r
          else
            var r' := TryFrom(f, g, i, k, m + 1);
            assert r' == Ok(None) ==> NoneFrom(f, g, i, k, m) by {
              if r' == Ok(None) { NoneNextAlternative(f, g, i, k, m); }
            }
            r'
  }

  /** No rule at or after `(i, k, m)` in the search order leads to a
      derivation. */
  ghost predicate NoneFrom(f: seq<Tree>, g: Grammar, i: int, k: int, m: int)
    requires Ranked(g)
  {
    forall i', k', m' :: NotBefore(i', k', m', i, k, m) && Applies(f, g, i', k', m') ==> !Derivable(Step(f, g, i', k', m'), g)
  }

  lemma NoneNextPosition(f: seq<Tree>, g: Grammar, i: int)
    requires Ranked(g) && NoneFrom(f, g, i + 1, 0, 0)
    ensures NoneFrom(f, g, i, |g|, 0)
  {
    forall i', k', m' | NotBefore(i', k', m', i, |g|, 0) && Applies(f, g, i', k', m')
      ensures !Derivable(Step(f, g, i', k', m'), g)
    {
      assert NotBefore(i', k', m', i + 1, 0, 0);
    }
  }

  lemma NoneNextKey(f: seq<Tree>, g: Grammar, i: int, k: int)
    requires Ranked(g) && 0 <= k < |g| && NoneFrom(f, g, i, k + 1, 0)
    ensures NoneFrom(f, g, i, k, |g[k].1|)
  {
    forall i', k', m' | NotBefore(i', k', m', i, k, |g[k].1|) && Applies(f, g, i', k', m')
      ensures !Derivable(Step(f, g, i', k', m'), g)
    {
      assert NotBefore(i', k', m', i, k + 1, 0);
    }
  }

  lemma NoneNextAlternative(f: seq<Tree>, g: Grammar, i: int, k: int, m: int)
    requires Ranked(g) && NoneFrom(f, g, i, k, m + 1)
    requires Applies(f, g, i, k, m) ==> !Derivable(Step(f, g, i, k, m), g)
    ensures NoneFrom(f, g, i, k, m)
  {
  }

  // --------------------------------------------------------------- examples

  /** An `Article` node at the end of the forest fits the first symbol of
      `['Article', 'Noun']`, so `match` reads past the end. */
  lemma MatchRunsOut()
    ensures Match([Node("Article", [Word("the")])], ["Article", "Noun"]) == Error("IndexError")
  {
    assert Fits(Node("Article", [Word("the")]), "Article");
  }

  /** Alternative `m` of key `k` does not fit at position `i`. */
  predicate Misfit(f: seq<Tree>, g: Grammar, i: nat, k: nat, m: nat)
    requires i <= |f| && k < |g| && m < |g[k].1|
  {
    Match(Slice(f, i, |MkList(g[k].1[m])|), MkList(g[k].1[m])) == Ok(false)
  }

  /** Alternatives `m0` to `m1` of key `k` that do not fit at `i` are passed over. */
  lemma {:induction false} SkipAlternatives(f: seq<Tree>, g: Grammar, i: nat, k: nat, m0: nat, m1: nat)
    requires Ranked(g) && i < |f| && k < |g| && m0 <= m1 <= |g[k].1|
    requires forall m :: m0 <= m < m1 ==> Misfit(f, g, i, k, m)
    ensures TryFrom(f, g, i, k, m0) == TryFrom(f, g, i, k, m1)
    decreases m1 - m0
  {
    if m0 < m1 {
      SkipAlternatives(f, g, i, k, m0, m1 - 1);
      SkipOne(f, g, i, k, m1 - 1);
    }
  }

  lemma SkipOne(f: seq<Tree>, g: Grammar, i: nat, k: nat, m: nat)
    requires Ranked(g) && i < |f| && k < |g| && m < |g[k].1|
    requires Misfit(f, g, i, k, m)
    ensures TryFrom(f, g, i, k, m) == TryFrom(f, g, i, k, m + 1)
  {
  }

  /** Keys `k0` to `k1` none of whose alternatives fit at `i` are passed over. */
  lemma {:induction false} SkipKeys(f: seq<Tree>, g: Grammar, i: nat, k0: nat, k1: nat)
    requires Ranked(g) && i < |f| && k0 <= k1 <= |g|
    requires forall k, m :: k0 <= k < k1 && 0 <= m < |g[k].1| ==> Misfit(f, g, i, k, m)
    ensures TryFrom(f, g, i, k0, 0) == TryFrom(f, g, i, k1, 0)
    decreases k1 - k0
  {
    if k0 < k1 {
      SkipKeys(f, g, i, k0, k1 - 1);
      SkipAlternatives(f, g, i, k1 - 1, 0, |g[k1 - 1].1|);
      NextKey(f, g, i, k1 - 1);
    }
  }

  lemma NextKey(f: seq<Tree>, g: Grammar, i: nat, k: nat)
    requires Ranked(g) && i < |f| && k < |g|
    ensures TryFrom(f, g, i, k, |g[k].1|) == TryFrom(f, g, i, k + 1, 0)
  {
  }

  /** `parse(['the'])` raises: after `the` becomes an `Article`, the rule
      `NP -> Article Noun` meets the end of the forest. */
  lemma LoneArticleRaises()
    ensures Ranked(Wumpus) && ParseForest([Word("the")], Wumpus) == Error("IndexError")
  {
    WumpusRanked();
    TheSkipsSix();
    ArticleNodeRaises();
    TheBecomesArticle();
  }

  lemma TheSkipsSix()
    requires Ranked(Wumpus)
    ensures TryFrom([Word("the")], Wumpus, 0, 0, 0) == TryFrom([Word("the")], Wumpus, 0, 6, 0)
  {
    var f := [Word("the")];
    forall k, m | 0 <= k < 6 && 0 <= m < |Wumpus[k].1|
      ensures Misfit(f, Wumpus, 0, k, m)
    {
      assert k in {0, 1, 2, 3, 4, 5};
    }
    SkipKeys(f, Wumpus, 0, 0, 6);
  }

  lemma TheBecomesArticle()
    requires Ranked(Wumpus)
    ensures ParseForest([Node("Article", [Word("the")])], Wumpus).Error? ==>
      TryFrom([Word("the")], Wumpus, 0, 6, 0) == ParseForest([Node("Article", [Word("the")])], Wumpus)
  {
    var f := [Word("the")];
    assert Wumpus[6].0 == "Article" && MkList(Wumpus[6].1[0]) == ["the"];
    assert Applies(f, Wumpus, 0, 6, 0);
    assert Step(f, Wumpus, 0, 6, 0) == [Node("Article", f)] by {
      ReduceWhole(f, "Article", ["the"]);
    }
    if ParseForest(Step(f, Wumpus, 0, 6, 0), Wumpus).Error? {
      FitRaises(f, Wumpus, 0, 6, 0);
    }
  }

  /** A rule that applies hands an exception of the reduced forest's parse back. */
  lemma FitRaises(f: seq<Tree>, g: Grammar, i: nat, k: nat, m: nat)
    requires Ranked(g) && Applies(f, g, i, k, m)
    requires ParseForest(Step(f, g, i, k, m), g).Error?
    ensures TryFrom(f, g, i, k, m) == ParseForest(Step(f, g, i, k, m), g)
  {
    var rhs := MkList(g[k].1[m]);
    assert Slice(f, i, |rhs|) == f[i..i + |rhs|];
    assert Match(f[i..i + |rhs|], rhs) == Ok(true);
  }

  /** A rule covering the whole forest leaves a single node. */
  lemma ReduceWhole(f: seq<Tree>, lhs: string, rhs: seq<string>)
    requires RankedRule(lhs, rhs) && |rhs| == |f|
    requires forall k :: 0 <= k < |rhs| ==> Fits(f[k], rhs[k])
    ensures Reduce(f, 0, lhs, rhs) == [Node(lhs, f)]
  {
    assert f[..0] == [] && f[0..|rhs|] == f && f[|rhs|..] == [];
  }

  lemma ArticleNodeRaises()
    requires Ranked(Wumpus)
    ensures ParseForest([Node("Article", [Word("the")])], Wumpus) == Error("IndexError")
  {
    var f := [Node("Article", [Word("the")])];
    forall k, m | 0 <= k < 11 && 0 <= m < |Wumpus[k].1|
      ensures Misfit(f, Wumpus, 0, k, m)
    {
      assert k in {0, 1, 2, 3, 4, 5, 6, 7, 8, 9, 10};
    }
    SkipKeys(f, Wumpus, 0, 0, 11);
    ArticleNodeAtNP();
  }

  lemma ArticleNodeAtNP()
    requires Ranked(Wumpus)
    ensures TryFrom([Node("Article", [Word("the")])], Wumpus, 0, 11, 0) == Error("IndexError")
  {
    var f := [Node("Article", [Word("the")])];
    assert MkList(Wumpus[11].1[2]) == ["Article", "Noun"] && Slice(f, 0, 2) == f;
    MatchRunsOut();
    SkipAlternatives(f, Wumpus, 0, 11, 0, 2);
  }

  /** The typo in `S -> S Comjunction S`: no rule builds a `Comjunction`
      node, so only the literal word "Comjunction" can fill the middle
      slot, and a `Conjunction` node (from "and" or "or") never does. */
  lemma ComjunctionTypo(sub: seq<Tree>)
    ensures MkList(Wumpus[10].1[1]) == ["S", "Comjunction", "S"]
    ensures forall k :: 0 <= k < |Wumpus| ==> Wumpus[k].0 != "Comjunction"
    ensures Match(sub, ["S", "Comjunction", "S"]) == Ok(true) ==>
      sub[1] == Word("Comjunction") || (sub[1].Node? && sub[1].lhs == "Comjunction")
    ensures |sub| >= 2 && sub[1].Node? && sub[1].lhs == "Conjunction" ==>
      Match(sub, ["S", "Comjunction", "S"]) == Ok(false)
  {
    forall k | 0 <= k < |Wumpus| ensures Wumpus[k].0 != "Comjunction" {
      assert k in {0, 1, 2, 3, 4, 5, 6, 7, 8, 9, 10, 11, 12, 13, 14};
    }
    if |sub| >= 2 && sub[1].Node? && sub[1].lhs == "Conjunction" {
      assert !Fits(sub[1], "Comjunction");
    }
  }
}
