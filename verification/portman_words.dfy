/** The string helpers of `ipynb/portman.py` and the `startswith` table that
    maps each prefix to the unused words it begins. */
module PortmanWords {
  import opened Common

  /** `x` is a non-empty proper prefix of `w`. */
  predicate ProperPrefix(x: string, w: string)
  {
    1 <= |x| < |w| && w[..|x|] == x
  }

  /** `x` is a non-empty proper suffix of `w`. */
  predicate ProperSuffix(x: string, w: string)
  {
    1 <= |x| < |w| && w[|w| - |x|..] == x
  }

  /** `x` occurs in `s` at position `i`. */
  predicate OccursAt(x: string, s: string, i: int)
  {
    0 <= i && i + |x| <= |s| && s[i..i + |x|] == x
  }

  ghost predicate IsSubstring(x: string, s: string)
  {
    exists i :: OccursAt(x, s, i)
  }

  // ----------------------------------------------------- suffixes, prefixes

  /** `suffixes(word)`: the non-empty proper suffixes, longest first. */
  function Suffixes(w: string): (r: seq<string>)
    ensures |r| == if w == [] then 0 else |w| - 1
    ensures forall k :: 0 <= k < |r| ==> ProperSuffix(r[k], w) && |r[k]| == |w| - 1 - k
  {
    if |w| <= 1 then [] else seq(|w| - 1, k requires 0 <= k < |w| - 1 => w[k + 1..])
  }

  /** `prefixes(word)`: the non-empty proper prefixes, shortest first. */
  function Prefixes(w: string): (r: seq<string>)
    ensures |r| == if w == [] then 0 else |w| - 1
    ensures forall k :: 0 <= k < |r| ==> ProperPrefix(r[k], w) && |r[k]| == k + 1
  {
    if |w| <= 1 then [] else seq(|w| - 1, k requires 0 <= k < |w| - 1 => w[..k + 1])
  }

  /** Every proper suffix is listed, at the place its length gives it. */
  lemma SuffixesComplete(w: string, x: string)
    ensures x in Suffixes(w) <==> ProperSuffix(x, w)
  {
    if ProperSuffix(x, w) {
      assert Suffixes(w)[|w| - 1 - |x|] == x;
    }
  }

  /** Every proper prefix is listed, at the place its length gives it. */
  lemma PrefixesComplete(w: string, x: string)
    ensures x in Prefixes(w) <==> ProperPrefix(x, w)
  {
    if ProperPrefix(x, w) {
      assert Prefixes(w)[|x| - 1] == x;
    }
  }

  lemma PrefixesDistinct(w: string)
    ensures Distinct(Prefixes(w))
  {
    var r := Prefixes(w);
    forall i, j | 0 <= i < j < |r| ensures r[i] != r[j] {
      assert |r[i]| != |r[j]|;
    }
  }

  // --------------------------------------------------------------- subparts

  /** `subparts(word)`: the substrings `word[i:j]` with `i < j`, where `j`
      stops one short of the end when `i` is 0 (`range(i + 1, len(word) +
      (i > 0))`). */
  function Subparts(w: string): set<string>
  {
    set i, j | 0 <= i < j <= |w| && (i > 0 || j < |w|) :: w[i..j]
  }

  /** The bounds of `subparts` leave out exactly the empty string and the
      word itself. */
  lemma SubpartsMeaning(w: string, x: string)
    ensures x in Subparts(w) <==> x != [] && x != w && IsSubstring(x, w)
  {
    if x in Subparts(w) {
      var i, j :| 0 <= i < j <= |w| && (i > 0 || j < |w|) && w[i..j] == x;
      assert OccursAt(x, w, i);
    }
    if x != [] && x != w && IsSubstring(x, w) {
      var i :| OccursAt(x, w, i);
      assert w[i..i + |x|] in Subparts(w);
    }
  }

  // ----------------------------------------------------------------- splits

  /** An `(excess, pre, suf)` triple: `pre` starts the word, `suf` ends it,
      and `excess` letters lie between. */
  datatype Split = Split(excess: int, pre: string, suf: string)

  predicate IsSplit(w: string, t: Split)
  {
    && 0 <= t.excess && 1 <= |t.pre| && |t.pre| + t.excess < |w|
    && t.pre == w[..|t.pre|] && t.suf == w[|t.pre| + t.excess..]
  }

  /** `splits(word)`: every split, by ascending excess and then ascending
      length of `pre`. */
  function Splits(w: string): (r: seq<Split>)
    ensures forall t :: t in r <==> IsSplit(w, t)
    ensures forall t :: t in r ==> t.pre != [] && t.suf != [] && |t.pre| + t.excess + |t.suf| == |w|
  {
    SplitsFrom(w, 0)
  }

  /** The outer loop, from `excess == e` on. */
  function SplitsFrom(w: string, e: nat): (r: seq<Split>)
    ensures forall t :: t in r <==> IsSplit(w, t) && t.excess >= e
    decreases |w| - e
  {
    if e + 1 >= |w| then [] else SplitsAt(w, e, 1) + SplitsFrom(w, e + 1)
  }

  /** The inner loop for excess `e`, from `i` on. */
  function SplitsAt(w: string, e: nat, i: nat): (r: seq<Split>)
    requires 1 <= i
    ensures forall t :: t in r <==> IsSplit(w, t) && t.excess == e && |t.pre| >= i
    decreases |w| - i
  {
    if i + e >= |w| then [] else [Split(e, w[..i], w[i + e..])] + SplitsAt(w, e, i + 1)
  }

  // --------------------------------------------------------- the multimap

  /** A missing key reads as the empty set, as with `defaultdict(set)` and
      `dict.get(key, ())`. */
  function Get<K, V>(m: map<K, set<V>>, k: K): set<V>
  {
    if k in m then m[k] else {}
  }

  /** No key maps to the empty set. */
  predicate Tidy<K, V>(m: map<K, set<V>>)
  {
    forall k :: k in m ==> m[k] != {}
  }

  /** `multimap(pairs)`: each key to the set of values paired with it. */
  function Multimap<K(!new), V(!new)>(pairs: seq<(K, V)>): (r: map<K, set<V>>)
    ensures Tidy(r)
    ensures forall k, v :: v in Get(r, k) <==> (k, v) in pairs
  {
    if pairs == [] then map[]
    else
      var m := Multimap(pairs[..|pairs| - 1]);
      var p := pairs[|pairs| - 1];
      assert forall q :: q in pairs <==> q in pairs[..|pairs| - 1] || q == p by {
        assert pairs == pairs[..|pairs| - 1] + [p];
      }
      m[p.0 := Get(m, p.0) + {p.1}]
  }

  /** Two tidy tables that agree on every key are the same map. */
  lemma TidyEqual<K, V>(a: map<K, set<V>>, b: map<K, set<V>>)
    requires Tidy(a) && Tidy(b)
    requires forall k :: Get(a, k) == Get(b, k)
    ensures a == b
  {
    forall k ensures k in a <==> k in b {
      assert Get(a, k) == Get(b, k);
    }
    forall k | k in a ensures a[k] == b[k] {
      assert Get(a, k) == Get(b, k);
    }
  }

  // ------------------------------------------------------ compute_startswith

  /** The words of `ws` that `pre` properly begins. */
  function StartingWith(ws: set<string>, pre: string): set<string>
  {
    set w | w in ws && ProperPrefix(pre, w)
  }

  /** The `(pre, w)` pairs of `compute_startswith`, word by word. */
  function PrefixPairs(words: seq<string>): (r: seq<(string, string)>)
    ensures forall p, w :: (p, w) in r <==> w in words && ProperPrefix(p, w)
  {
    if words == [] then []
    else
      var w := words[|words| - 1];
      var rest := PrefixPairs(words[..|words| - 1]);
      var pres := Prefixes(w);
      var mine := seq(|pres|, k requires 0 <= k < |pres| => (pres[k], w));
      forall p ensures (p, w) in mine <==> ProperPrefix(p, w) {
        PrefixesComplete(w, p);
        if p in pres {
          var k :| 0 <= k < |pres| && pres[k] == p;
          assert mine[k] == (p, w);
        }
      }
      assert words == words[..|words| - 1] + [w];
      rest + mine
  }

  /** `compute_startswith(words)` */
  function ComputeStartswith(words: seq<string>): (r: map<string, set<string>>)
    ensures Tidy(r)
    ensures forall pre :: Get(r, pre) == StartingWith(ToSet(words), pre)
  {
    var r := Multimap(PrefixPairs(words));
    forall pre ensures Get(r, pre) == StartingWith(ToSet(words), pre) {
      forall w ensures w in Get(r, pre) <==> w in StartingWith(ToSet(words), pre) {
        assert w in Get(r, pre) <==> (pre, w) in PrefixPairs(words);
      }
    }
    r
  }

  // ------------------------------------------------------------------- used

  /** The word set with its dynamic parts: `W.unused` and `W.startswith`. */
  datatype Wordset = Wordset(all: set<string>, unused: set<string>, startswith: map<string, set<string>>)

  /** The invariant `used` maintains: `startswith` is the table of the unused
      words, with no emptied key left behind. */
  ghost predicate Tracks(ws: Wordset)
  {
    && ws.unused <= ws.all && Tidy(ws.startswith)
    && forall pre :: Get(ws.startswith, pre) == StartingWith(ws.unused, pre)
  }

  /** `used(W, word)`: fails its assertion for a word outside `W`; takes an
      unused word out of `unused` and out of `startswith[pre]` for each of its
      prefixes, deleting keys that become empty. */
  function Used(ws: Wordset, word: string): (r: Result<Wordset>)
    ensures word !in ws.all ==> r == Error("AssertionError")
    ensures word in ws.all && word !in ws.unused ==> r == Ok(ws)
    ensures r.Ok? ==> r.value.all == ws.all && r.value.unused == ws.unused - {word}
  {
    if word !in ws.all then Error("AssertionError")
    else if word !in ws.unused then Ok(ws)
    else
      match RemoveFrom(ws.startswith, word, Prefixes(word))
      case Error(e) => Error(e)
      case Ok(sw) => Ok(Wordset(ws.all, ws.unused - {word}, sw))
  }

  /** The loop of `used` over the prefixes `pres`: `remove` raises `KeyError`
      when the word is not under the key. */
  function RemoveFrom(sw: map<string, set<string>>, word: string, pres: seq<string>): (r: Result<map<string, set<string>>>)
    requires Distinct(pres)
    ensures r.Ok? <==> forall i :: 0 <= i < |pres| ==> word in Get(sw, pres[i])
    ensures r.Error? ==> r == Error("KeyError")
    ensures r.Ok? ==> forall k :: Get(r.value, k) == if k in pres then Get(sw, k) - {word} else Get(sw, k)
    ensures r.Ok? && Tidy(sw) ==> Tidy(r.value)
  {
    if pres == [] then Ok(sw)
    else
      var pre := pres[0];
      if word !in Get(sw, pre) then Error("KeyError")
      else
        var left := Get(sw, pre) - {word};
        var sw1 := if left == {} then map k | k in sw && k != pre :: sw[k] else sw[pre := left];
        assert forall k :: k != pre ==> Get(sw1, k) == Get(sw, k);
        assert Get(sw1, pre) == left;
        assert forall i :: 1 <= i < |pres| ==> pres[i] != pre && pres[i] == pres[1..][i - 1];
        RemoveFrom(sw1, word, pres[1..])
  }

  /** `used` keeps the invariant: on a tracked word set it succeeds for every
      word of `W`, and the table still lists exactly the unused words under
      each prefix. */
  lemma UsedTracks(ws: Wordset, word: string)
    requires Tracks(ws) && word in ws.all
    ensures Used(ws, word).Ok? && Tracks(Used(ws, word).value)
  {
    if word in ws.unused {
      var pres := Prefixes(word);
      PrefixesDistinct(word);
      forall i | 0 <= i < |pres| ensures word in Get(ws.startswith, pres[i]) {
        assert word in StartingWith(ws.unused, pres[i]);
      }
      var sw := RemoveFrom(ws.startswith, word, pres).value;
      forall pre ensures Get(sw, pre) == StartingWith(ws.unused - {word}, pre) {
        PrefixesComplete(word, pre);
      }
    }
  }

  /** The same in the terms of the program: after `used`, `startswith` is the
      very map `compute_startswith` would build from the remaining words. */
  lemma UsedRecomputes(ws: Wordset, word: string, rest: seq<string>)
    requires Tracks(ws) && word in ws.all && ToSet(rest) == ws.unused - {word}
    ensures Used(ws, word).Ok? && Used(ws, word).value.startswith == ComputeStartswith(rest)
  {
    UsedTracks(ws, word);
    var sw := Used(ws, word).value.startswith;
    TidyEqual(sw, ComputeStartswith(rest));
  }
}
