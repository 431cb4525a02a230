/** Paths of `(overlap, word)` steps, the string `portman` spells from them,
    and the table of bridges `build_bridges` makes (`ipynb/portman.py`). */
module PortmanSteps {
  import opened Common
  import opened PortmanWords

  /** An `(overlap, word)` pair. */
  datatype Step = Step(overlap: int, word: string)

  /** `portman(P)`: each step contributes `word[overlap:]`. */
  function Portman(p: seq<Step>): string
  {
    if p == [] then [] else Portman(p[..|p| - 1]) + From(p[|p| - 1].word, p[|p| - 1].overlap)
  }

  /** Step `s` may come after `prev`: its first `overlap` letters are the last
      `overlap` letters of `prev`. */
  predicate Follows(prev: string, s: Step)
  {
    0 <= s.overlap <= |prev| && s.overlap <= |s.word| && s.word[..s.overlap] == prev[|prev| - s.overlap..]
  }

  /** A portmantout path: the first word starts from nothing and every other
      step follows the word before it. */
  predicate IsPath(p: seq<Step>)
  {
    (p != [] ==> p[0].overlap == 0) && forall i :: 1 <= i < |p| ==> Follows(p[i - 1].word, p[i])
  }

  lemma PortmanSnoc(p: seq<Step>, s: Step)
    ensures Portman(p + [s]) == Portman(p) + From(s.word, s.overlap)
  {
    assert (p + [s])[..|p|] == p;
  }

  /** The string of a path begins with the string of each of its prefixes. */
  lemma {:induction false} PortmanPrefix(p: seq<Step>, k: nat)
    requires k <= |p|
    ensures StartsWith(Portman(p), Portman(p[..k]))
  {
    if k < |p| {
      var q := p[..|p| - 1];
      assert q[..k] == p[..k];
      PortmanPrefix(q, k);
    } else {
      assert p[..k] == p;
    }
  }

  /** The string of a path ends with the path's last word. */
  lemma {:induction false} PathEnds(p: seq<Step>)
    requires IsPath(p) && p != []
    ensures EndsWith(Portman(p), p[|p| - 1].word)
  {
    var q, s := p[..|p| - 1], p[|p| - 1];
    assert p == q + [s];
    if q == [] {
      assert Portman(p) == From(s.word, 0) == s.word;
    } else {
      assert IsPath(q);
      PathEnds(q);
      assert Portman(p) == Portman(q) + From(s.word, s.overlap);
      EndsFollow(Portman(q), q[|q| - 1].word, s);
    }
  }

  /** A string ending in `prev`, extended by a step that follows `prev`,
      ends in the step's word. */
  lemma EndsFollow(a: string, prev: string, s: Step)
    requires EndsWith(a, prev) && Follows(prev, s)
    ensures EndsWith(a + From(s.word, s.overlap), s.word)
  {
    var o := s.overlap;
    assert a[|a| - o..] == s.word[..o] by {
      assert a[|a| - |prev|..] == prev;
      assert a[|a| - o..] == prev[|prev| - o..];
    }
    var b := a + s.word[o..];
    assert b[|b| - |s.word|..] == a[|a| - o..] + s.word[o..];
    assert s.word == s.word[..o] + s.word[o..];
  }

  /** Every word of a path occurs in the string `portman` makes of it. */
  lemma PathContains(p: seq<Step>, i: int)
    requires IsPath(p) && 0 <= i < |p|
    ensures IsSubstring(p[i].word, Portman(p))
  {
    var q := p[..i + 1];
    assert IsPath(q) by {
      assert forall j :: 0 <= j < |q| ==> q[j] == p[j];
    }
    PathEnds(q);
    PortmanPrefix(p, i + 1);
    var a := Portman(q);
    var w := p[i].word;
    assert OccursAt(w, Portman(p), |a| - |w|) by {
      assert Portman(p)[..|a|] == a;
      assert Portman(p)[|a| - |w|..|a|] == a[|a| - |w|..];
    }
  }

  // ---------------------------------------------------------------- bridges

  /** An excess letter count and the steps that cross it. */
  datatype Bridge = Bridge(excess: int, steps: seq<Step>)

  /** One entry of `bridges[pre]`, a dict that keeps insertion order. */
  datatype Entry = Entry(key: string, bridge: Bridge)

  type Row = seq<Entry>

  /** `bridges[pre][suf]`, or `None` when `suf` is not a key. */
  function Lookup(row: Row, k: string): (r: Option<Bridge>)
    ensures r.Some? ==> Entry(k, r.value) in row
    ensures r.None? ==> forall e :: e in row ==> e.key != k
  {
    if row == [] then None
    else if row[0].key == k then Some(row[0].bridge)
    else Lookup(row[1..], k)
  }

  /** `bridges[pre][suf] = b`: the entry is replaced in place, or appended. */
  function Store(row: Row, k: string, b: Bridge): (r: Row)
    ensures Lookup(r, k) == Some(b)
    ensures forall k2 :: k2 != k ==> Lookup(r, k2) == Lookup(row, k2)
    ensures forall e :: e in r ==> e in row || e == Entry(k, b)
  {
    if row == [] then [Entry(k, b)]
    else if row[0].key == k then [Entry(k, b)] + row[1..]
    else [row[0]] + Store(row[1..], k, b)
  }

  /** What the bridge stored under `bridges[pre][suf]` promises: its first
      word starts with `pre` and overlaps it entirely, its steps follow one
      another, its words come from `words`, and the letters it adds end with
      `suf`, `excess` of them before `suf`; `suf` is a proper suffix of its
      last word. */
  predicate BridgeOk(pre: string, suf: string, b: Bridge, words: seq<string>)
  {
    && |b.steps| > 0 && pre != [] && suf != []
    && b.steps[0].overlap == |pre| && StartsWith(b.steps[0].word, pre)
    && (forall i :: 1 <= i < |b.steps| ==> Follows(b.steps[i - 1].word, b.steps[i]))
    && (forall i :: 0 <= i < |b.steps| ==> b.steps[i].word in words)
    && EndsWith(Portman(b.steps), suf) && ProperSuffix(suf, b.steps[|b.steps| - 1].word)
    && b.excess == |Portman(b.steps)| - |suf|
  }

  /** Every stored bridge keeps its promise. */
  predicate WellFormed(bs: map<string, Row>, words: seq<string>)
  {
    forall pre, e :: pre in bs && e in bs[pre] ==> BridgeOk(pre, e.key, e.bridge, words)
  }

  /** `bridges[pre][suf]` exists with at most `excess` letters. */
  predicate Covers(bs: map<string, Row>, pre: string, suf: string, excess: int)
  {
    pre in bs && Lookup(bs[pre], suf).Some? && Lookup(bs[pre], suf).value.excess <= excess
  }

  /** The arguments of one `try_bridge` call. */
  datatype Candidate = Candidate(pre: string, suf: string, excess: int, word: string, step2: Option<Step>)

  /** The bridge a candidate would store. */
  function BridgeOf(c: Candidate): Bridge
  {
    Bridge(c.excess, [Step(|c.pre|, c.word)] + if c.step2.Some? then [c.step2.value] else [])
  }

  /** `try_bridge(bridges, pre, suf, excess, word, step2)`: store the
      candidate's bridge when `bridges[pre]` has no `suf` yet or only one
      with more excess; a tie keeps the older bridge. */
  function TryBridge(bs: map<string, Row>, c: Candidate): (r: map<string, Row>)
    ensures Covers(r, c.pre, c.suf, c.excess)
    ensures forall pre, suf, e :: Covers(bs, pre, suf, e) ==> Covers(r, pre, suf, e)
    ensures c.pre in bs && Lookup(bs[c.pre], c.suf).Some? && Lookup(bs[c.pre], c.suf).value.excess <= c.excess ==> r == bs
    ensures forall pre, e :: pre in r && e in r[pre] ==> (pre in bs && e in bs[pre]) || (pre == c.pre && e == Entry(c.suf, BridgeOf(c)))
  {
    var row := if c.pre in bs then bs[c.pre] else [];
    var prior := Lookup(row, c.suf);
    if prior.None? || c.excess < prior.value.excess then bs[c.pre := Store(row, c.suf, BridgeOf(c))]
    else bs
  }

  /** The `try_bridge` calls of a loop, in order. */
  function TryAll(bs: map<string, Row>, cs: seq<Candidate>): (r: map<string, Row>)
    ensures forall i :: 0 <= i < |cs| ==> Covers(r, cs[i].pre, cs[i].suf, cs[i].excess)
    ensures forall pre, suf, e :: Covers(bs, pre, suf, e) ==> Covers(r, pre, suf, e)
    ensures forall pre, e :: pre in r && e in r[pre] ==>
              (pre in bs && e in bs[pre]) || exists i :: 0 <= i < |cs| && pre == cs[i].pre && e == Entry(cs[i].suf, BridgeOf(cs[i]))
    decreases |cs|
  {
    if cs == [] then bs
    else
      var r := TryAll(TryBridge(bs, cs[0]), cs[1..]);
      assert forall i :: 1 <= i < |cs| ==> cs[i] == cs[1..][i - 1];
      r
  }

  /** Trying only bridges that keep their promise keeps every stored bridge's
      promise. */
  lemma TryAllWellFormed(bs: map<string, Row>, cs: seq<Candidate>, ws: seq<string>)
    requires WellFormed(bs, ws)
    requires forall i :: 0 <= i < |cs| ==> BridgeOk(cs[i].pre, cs[i].suf, BridgeOf(cs[i]), ws)
    ensures WellFormed(TryAll(bs, cs), ws)
  {
  }

  // ------------------------------------------------------------ build_bridges

  /** A word short enough to bridge with: at most `maxlen` letters, one more
      when its last letter is in `end`. */
  predicate ShortWord(w: string, maxlen: int, end: string)
    requires w != []
  {
    |w| <= maxlen + if w[|w| - 1] in end then 1 else 0
  }

  /** `shortwords`, in the order of the word list. */
  function ShortWords(words: seq<string>, maxlen: int, end: string): (r: seq<string>)
    requires [] !in words
    ensures forall w :: w in r <==> w in words && ShortWord(w, maxlen, end)
  {
    var short := w => w != [] && ShortWord(w, maxlen, end);
    forall w ensures w in Filter(short, words) <==> w in words && short(w) {
      FilterMembers(short, words, w);
    }
    Filter(short, words)
  }

  /** A one-word bridge from a split of a short word. */
  predicate OneWordCandidate(ws: seq<string>, c: Candidate)
  {
    c.word in ws && c.step2 == None && IsSplit(c.word, Split(c.excess, c.pre, c.suf))
  }

  /** The two-word candidate made from `word1`, its suffix of length `k`,
      and `word2`. */
  function Pair(word1: string, k: int, word2: string): Candidate
    requires word1 != [] && word2 != []
  {
    Candidate([word1[0]], [word2[|word2| - 1]], |word1| + |word2| - k - 2, word1, Some(Step(k, word2)))
  }

  /** A two-word bridge: `word2` begins with a proper suffix of `word1`, and
      the first letter of `word1` differs from the last letter of `word2`. */
  predicate TwoWordCandidate(ws: seq<string>, c: Candidate)
  {
    && c.word in ws && c.step2.Some? && c.step2.value.word in ws
    && 1 <= c.step2.value.overlap < |c.word|
    && ProperPrefix(c.word[|c.word| - c.step2.value.overlap..], c.step2.value.word)
    && c == Pair(c.word, c.step2.value.overlap, c.step2.value.word) && c.pre != c.suf
  }

  /** The `try_bridge` calls for the splits of one word. */
  function SplitCandidates(w: string): (cs: seq<Candidate>)
    ensures forall c :: c in cs <==> c.word == w && c.step2 == None && IsSplit(w, Split(c.excess, c.pre, c.suf))
  {
    var ts := Splits(w);
    var cs := seq(|ts|, k requires 0 <= k < |ts| => Candidate(ts[k].pre, ts[k].suf, ts[k].excess, w, None));
    forall c: Candidate | c.word == w && c.step2 == None && IsSplit(w, Split(c.excess, c.pre, c.suf)) ensures c in cs {
      var t := Split(c.excess, c.pre, c.suf);
      assert t in ts;
      var k :| 0 <= k < |ts| && ts[k] == t;
      assert cs[k] == c;
    }
    cs
  }

  /** The one-word loop of `build_bridges`, word by word. */
  function OneWordCandidates(ws: seq<string>): (cs: seq<Candidate>)
    ensures forall c :: c in cs <==> OneWordCandidate(ws, c)
  {
    if ws == [] then []
    else
      assert ws == [ws[0]] + ws[1..];
      SplitCandidates(ws[0]) + OneWordCandidates(ws[1..])
  }

  /** The innermost two-word loop: `word2` over `word2s`, skipping the pairs
      whose ends are the same letter. */
  function PairCandidates(word1: string, k: int, word2s: seq<string>): (cs: seq<Candidate>)
    requires word1 != [] && [] !in word2s
    ensures forall c :: c in cs <==>
              c.step2.Some? && c.step2.value.word in word2s && c == Pair(word1, k, c.step2.value.word) && c.pre != c.suf
  {
    if word2s == [] then []
    else
      assert word2s == [word2s[0]] + word2s[1..];
      var c := Pair(word1, k, word2s[0]);
      (if c.pre != c.suf then [c] else []) + PairCandidates(word1, k, word2s[1..])
  }

  /** The words of `ws` that the table `ss` lists under `suf`, in the order
      of `ws`. */
  function Listed(ss: map<string, set<string>>, suf: string, ws: seq<string>): (r: seq<string>)
    ensures forall w :: w in r <==> w in ws && w in Get(ss, suf)
  {
    var listed := w => w in Get(ss, suf);
    forall w ensures w in Filter(listed, ws) <==> w in ws && listed(w) {
      FilterMembers(listed, ws, w);
    }
    Filter(listed, ws)
  }

  /** `c` is the candidate the two-word loops make for `word1` from one of
      its proper suffixes and a word of `ws` that `ss` lists under it. */
  predicate PairFrom(word1: string, ss: map<string, set<string>>, ws: seq<string>, c: Candidate)
  {
    && word1 != [] && c.step2.Some? && 1 <= c.step2.value.overlap < |word1|
    && c.step2.value.word in ws && c.step2.value.word in Get(ss, word1[|word1| - c.step2.value.overlap..])
    && c.step2.value.word != [] && c == Pair(word1, c.step2.value.overlap, c.step2.value.word) && c.pre != c.suf
  }

  /** The middle two-word loop: `suf` over proper suffixes of `word1`. */
  function SuffixCandidates(word1: string, sufs: seq<string>, ss: map<string, set<string>>, ws: seq<string>): (cs: seq<Candidate>)
    requires word1 != [] && [] !in ws
    requires forall i :: 0 <= i < |sufs| ==> ProperSuffix(sufs[i], word1)
    ensures forall c :: c in cs <==> PairFrom(word1, ss, ws, c) && word1[|word1| - c.step2.value.overlap..] in sufs
  {
    if sufs == [] then []
    else
      var suf := sufs[0];
      assert sufs == [suf] + sufs[1..];
      assert ProperSuffix(suf, word1);
      assert word1[|word1| - |suf|..] == suf;
      PairCandidates(word1, |suf|, Listed(ss, suf, ws)) + SuffixCandidates(word1, sufs[1..], ss, ws)
  }

  /** The two-word loops of `build_bridges`, `word1` over `rest`. */
  function TwoWordCandidates(rest: seq<string>, ss: map<string, set<string>>, ws: seq<string>): (cs: seq<Candidate>)
    requires [] !in rest && [] !in ws
    ensures forall c :: c in cs <==> c.word in rest && PairFrom(c.word, ss, ws, c)
  {
    if rest == [] then []
    else
      var word1 := rest[0];
      assert rest == [word1] + rest[1..];
      var sufs := Suffixes(word1);
      forall x | ProperSuffix(x, word1) ensures x in sufs {
        SuffixesComplete(word1, x);
      }
      SuffixCandidates(word1, sufs, ss, ws) + TwoWordCandidates(rest[1..], ss, ws)
  }

  /** A one-word candidate makes a bridge that keeps its promise. */
  lemma OneWordOk(ws: seq<string>, c: Candidate)
    requires OneWordCandidate(ws, c)
    ensures BridgeOk(c.pre, c.suf, BridgeOf(c), ws)
  {
    var w := c.word;
    var steps := BridgeOf(c).steps;
    assert steps == [Step(|c.pre|, w)];
    PortmanSnoc([], Step(|c.pre|, w));
    assert Portman(steps) == w[|c.pre|..];
  }

  /** A two-word candidate makes a bridge that keeps its promise. */
  lemma TwoWordOk(ws: seq<string>, c: Candidate)
    requires TwoWordCandidate(ws, c)
    ensures BridgeOk(c.pre, c.suf, BridgeOf(c), ws)
  {
    var w1, s2 := c.word, c.step2.value;
    var k, w2 := s2.overlap, s2.word;
    var steps := BridgeOf(c).steps;
    assert steps == [Step(1, w1)] + [s2];
    PortmanSnoc([], Step(1, w1));
    PortmanSnoc([Step(1, w1)], s2);
    assert Follows(w1, s2);
    var a := Portman(steps);
    assert a == w1[1..] + w2[k..];
    assert a[|a| - 1..] == [w2[|w2| - 1]];
  }

  /** `build_bridges(W, maxlen, end)`: every bridge it stores keeps its
      promise, and for every one-word or two-word candidate made from the
      short words there is a stored bridge for the same `pre` and `suf` with
      no more excess. An empty word makes `w[-1]` fail. */
  function BuildBridges(words: seq<string>, maxlen: int, end: string): (r: Result<map<string, Row>>)
    ensures r.Error? <==> [] in words
    ensures r.Error? ==> r == Error("IndexError")
    ensures r.Ok? ==> WellFormed(r.value, ShortWords(words, maxlen, end))
    ensures r.Ok? ==> forall c :: OneWordCandidate(ShortWords(words, maxlen, end), c) ==> Covers(r.value, c.pre, c.suf, c.excess)
    ensures r.Ok? ==> forall c :: TwoWordCandidate(ShortWords(words, maxlen, end), c) ==> Covers(r.value, c.pre, c.suf, c.excess)
  {
    if [] in words then Error("IndexError")
    else
      var short := ShortWords(words, maxlen, end);
      var ones := OneWordCandidates(short);
      var twos := TwoWordCandidates(short, ComputeStartswith(short), short);
      var bs := TryAll(map[], ones);
      BridgesSound(short, ones, twos);
      BridgesComplete(short, ones, twos);
      Ok(TryAll(bs, twos))
  }

  lemma BridgesSound(short: seq<string>, ones: seq<Candidate>, twos: seq<Candidate>)
    requires [] !in short
    requires ones == OneWordCandidates(short) && twos == TwoWordCandidates(short, ComputeStartswith(short), short)
    ensures WellFormed(TryAll(TryAll(map[], ones), twos), short)
  {
    forall i | 0 <= i < |ones| ensures BridgeOk(ones[i].pre, ones[i].suf, BridgeOf(ones[i]), short) {
      OneWordOk(short, ones[i]);
    }
    TryAllWellFormed(map[], ones, short);
    forall i | 0 <= i < |twos| ensures BridgeOk(twos[i].pre, twos[i].suf, BridgeOf(twos[i]), short) {
      TwoWordIs(short, twos[i]);
      TwoWordOk(short, twos[i]);
    }
    TryAllWellFormed(TryAll(map[], ones), twos, short);
  }

  lemma BridgesComplete(short: seq<string>, ones: seq<Candidate>, twos: seq<Candidate>)
    requires [] !in short
    requires ones == OneWordCandidates(short) && twos == TwoWordCandidates(short, ComputeStartswith(short), short)
    ensures forall c :: OneWordCandidate(short, c) ==> Covers(TryAll(TryAll(map[], ones), twos), c.pre, c.suf, c.excess)
    ensures forall c :: TwoWordCandidate(short, c) ==> Covers(TryAll(TryAll(map[], ones), twos), c.pre, c.suf, c.excess)
  {
    var bs := TryAll(map[], ones);
    forall c | OneWordCandidate(short, c) ensures Covers(bs, c.pre, c.suf, c.excess) {
      var i :| 0 <= i < |ones| && ones[i] == c;
    }
    forall c | TwoWordCandidate(short, c) ensures c in twos {
      TwoWordIs(short, c);
    }
    forall c | TwoWordCandidate(short, c) ensures Covers(TryAll(bs, twos), c.pre, c.suf, c.excess) {
      var i :| 0 <= i < |twos| && twos[i] == c;
    }
  }

  /** The two-word loops make exactly the two-word candidates. */
  lemma TwoWordIs(short: seq<string>, c: Candidate)
    requires [] !in short
    ensures c in TwoWordCandidates(short, ComputeStartswith(short), short) <==> TwoWordCandidate(short, c)
  {
    var ss := ComputeStartswith(short);
    assert c in TwoWordCandidates(short, ss, short) <==> c.word in short && PairFrom(c.word, ss, short, c);
    if c.step2.Some? && 1 <= c.step2.value.overlap < |c.word| {
      var w2 := c.step2.value.word;
      var suf := c.word[|c.word| - c.step2.value.overlap..];
      StartsListed(short, suf, w2);
      PairFromIs(short, ss, c);
    }
  }

  lemma PairFromIs(short: seq<string>, ss: map<string, set<string>>, c: Candidate)
    requires c.step2.Some? && 1 <= c.step2.value.overlap < |c.word|
    requires var w2 := c.step2.value.word; var suf := c.word[|c.word| - c.step2.value.overlap..];
      w2 in Get(ss, suf) <==> w2 in short && ProperPrefix(suf, w2)
    ensures c.word in short && PairFrom(c.word, ss, short, c) <==> TwoWordCandidate(short, c)
  {
    if TwoWordCandidate(short, c) {
      assert PairFrom(c.word, ss, short, c);
    }
  }

  /** The `startswith` table of the short words lists under `suf` the short
      words `suf` properly begins. */
  lemma StartsListed(short: seq<string>, suf: string, w: string)
    ensures w in Get(ComputeStartswith(short), suf) <==> w in short && ProperPrefix(suf, w)
  {
    assert Get(ComputeStartswith(short), suf) == StartingWith(ToSet(short), suf);
  }
}
