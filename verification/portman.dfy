/** `natalie`, the greedy portmantout builder of `ipynb/portman.py`, with
    the two kinds of step it takes (`unused_step`, `bridging_steps`) and the
    precomputed `subwords`. Python set iteration order is stood in for by the
    order of the word list `words`. */
module Portman {
  import opened Common
  import opened PortmanWords
  import opened PortmanSteps

  // ---------------------------------------------------------------- subwords

  /** `subwords(W)`: the words of `W` that are a subpart of a word of `W`. */
  function Subwords(words: seq<string>): (r: set<string>)
    ensures forall x :: x in r <==> x in words && exists w :: w in words && x in Subparts(w)
  {
    set w, x | w in words && x in Subparts(w) && x in words :: x
  }

  /** A subword lies inside a longer word of `W`. */
  lemma SubwordInside(words: seq<string>, x: string) returns (w: string)
    requires x in Subwords(words)
    ensures w in words && |x| < |w| && IsSubstring(x, w)
  {
    w :| w in words && x in Subparts(w);
    SubpartsMeaning(w, x);
    var i :| OccursAt(x, w, i);
  }

  lemma SubstringTransitive(x: string, y: string, z: string)
    requires IsSubstring(x, y) && IsSubstring(y, z)
    ensures IsSubstring(x, z)
  {
    var i :| OccursAt(x, y, i);
    var j :| OccursAt(y, z, j);
    forall k | 0 <= k < |x| ensures z[j + i + k] == x[k] {
      assert y[i..i + |x|][k] == y[i + k];
      assert z[j..j + |y|][i + k] == z[j + i + k];
    }
    assert z[j + i..j + i + |x|] == x;
    assert OccursAt(x, z, j + i);
  }

  /** The length of the longest word. */
  function MaxLen(words: seq<string>): (n: nat)
    ensures forall i :: 0 <= i < |words| ==> |words[i]| <= n
  {
    if words == [] then 0
    else
      var n := MaxLen(words[1..]);
      assert forall i :: 1 <= i < |words| ==> words[i] == words[1..][i - 1];
      if |words[0]| > n then |words[0]| else n
  }

  /** A string that contains every word of `W` outside `subwords(W)`
      contains every word of `W`: each subword lies in a longer word, and the
      chain of longer words ends at a word that is not a subword. */
  lemma {:induction false} AllCovered(words: seq<string>, s: string, x: string)
    requires forall w :: w in words && w !in Subwords(words) ==> IsSubstring(w, s)
    requires x in words
    ensures IsSubstring(x, s)
    decreases MaxLen(words) - |x|
  {
    if x in Subwords(words) {
      var w := SubwordInside(words, x);
      AllCovered(words, s, w);
      SubstringTransitive(x, w, s);
    }
  }

  // ------------------------------------------------------------- unused_step

  /** `first(...)` over a set: the first element of `order` that is in `s`. */
  function FirstIn(order: seq<string>, s: set<string>): (r: Option<string>)
    ensures r.Some? ==> r.value in s && r.value in order
    ensures r.None? <==> forall x :: x in order ==> x !in s
  {
    if order == [] then None
    else if order[0] in s then Some(order[0])
    else
      assert forall x :: x in order ==> x == order[0] || x in order[1..];
      FirstIn(order[1..], s)
  }

  /** `startswith[suf]` holds a word of `order`. */
  ghost predicate Offers(sw: map<string, set<string>>, suf: string, order: seq<string>)
  {
    exists x :: x in order && x in Get(sw, suf)
  }

  /** `unused_step(W, prev_word)`: a step onto an unused word through the
      longest proper suffix of `prev_word` that begins one, or `[]`. */
  function UnusedStep(sw: map<string, set<string>>, prev: string, order: seq<string>): (r: seq<Step>)
    ensures r == [] <==> forall suf :: ProperSuffix(suf, prev) ==> !Offers(sw, suf, order)
    ensures r != [] ==> |r| == 1 && 1 <= r[0].overlap < |prev|
    ensures r != [] ==> r[0].word in order && r[0].word in Get(sw, prev[|prev| - r[0].overlap..])
    ensures r != [] ==> forall suf :: ProperSuffix(suf, prev) && |suf| > r[0].overlap ==> !Offers(sw, suf, order)
  {
    var sufs := Suffixes(prev);
    forall suf | ProperSuffix(suf, prev) ensures suf in sufs {
      SuffixesComplete(prev, suf);
    }
    UnusedStepFrom(sw, prev, sufs, 0, order)
  }

  /** The loop of `unused_step` from the suffix `sufs[k]` on. */
  function UnusedStepFrom(sw: map<string, set<string>>, prev: string, sufs: seq<string>, k: nat, order: seq<string>): (r: seq<Step>)
    requires sufs == Suffixes(prev) && k <= |sufs|
    requires forall suf :: ProperSuffix(suf, prev) && |suf| > |prev| - 1 - k ==> !Offers(sw, suf, order)
    ensures r == [] <==> forall suf :: ProperSuffix(suf, prev) ==> !Offers(sw, suf, order)
    ensures r != [] ==> |r| == 1 && 1 <= r[0].overlap < |prev| && r[0].word in order
    ensures r != [] ==> r[0].word in Get(sw, prev[|prev| - r[0].overlap..])
    ensures r != [] ==> forall suf :: ProperSuffix(suf, prev) && |suf| > r[0].overlap ==> !Offers(sw, suf, order)
    decreases |sufs| - k
  {
    if k == |sufs| then
      assert forall suf :: ProperSuffix(suf, prev) ==> |suf| > |prev| - 1 - k;
      []
    else
      var suf := sufs[k];
      match FirstIn(order, Get(sw, suf))
      case Some(u) =>
        assert ProperSuffix(suf, prev);
        [Step(|suf|, u)]
      case None =>
        forall t | ProperSuffix(t, prev) && |t| > |prev| - 1 - (k + 1) ensures !Offers(sw, t, order) {
          if |t| == |suf| {
            assert t == suf;
          }
        }
        UnusedStepFrom(sw, prev, sufs, k + 1, order)
  }

  // ---------------------------------------------------------- bridging_steps

  /** Python's `<` on `(overlap, word)` tuples. */
  predicate StepLess(a: Step, b: Step)
  {
    a.overlap < b.overlap || (a.overlap == b.overlap && LexLess(a.word, b.word))
  }

  /** Python's `<` on tuples of steps: the first differing step decides, and
      a tuple that runs out first is the smaller. */
  predicate StepsLess(a: seq<Step>, b: seq<Step>)
  {
    if a == [] then b != []
    else if b == [] then false
    else if a[0] != b[0] then StepLess(a[0], b[0])
    else StepsLess(a[1..], b[1..])
  }

  /** Python's `<` on bridges `(excess, step, ...)`. */
  predicate BridgeLess(a: Bridge, b: Bridge)
  {
    a.excess < b.excess || (a.excess == b.excess && StepsLess(a.steps, b.steps))
  }

  lemma StepLessOrder(x: Step, y: Step, z: Step)
    ensures StepLess(x, y) && StepLess(y, z) ==> StepLess(x, z)
    ensures !StepLess(x, x)
  {
    LexLessIrreflexive(x.word);
    if StepLess(x, y) && StepLess(y, z) && x.overlap == y.overlap == z.overlap {
      LexLessTransitive(x.word, y.word, z.word);
    }
  }

  lemma {:induction false} StepsLessTransitive(a: seq<Step>, b: seq<Step>, c: seq<Step>)
    requires StepsLess(a, b) && StepsLess(b, c)
    ensures StepsLess(a, c)
  {
    if a != [] && b != [] && c != [] {
      if a[0] == b[0] && b[0] == c[0] {
        StepsLessTransitive(a[1..], b[1..], c[1..]);
      } else if a[0] != b[0] && b[0] != c[0] {
        StepLessOrder(a[0], b[0], c[0]);
        StepLessOrder(a[0], a[0], a[0]);
      }
    }
  }

  lemma {:induction false} StepsLessIrreflexive(a: seq<Step>)
    ensures !StepsLess(a, a)
  {
    if a != [] {
      StepsLessIrreflexive(a[1..]);
    }
  }

  lemma {:induction false} StepsLessTotal(a: seq<Step>, b: seq<Step>)
    ensures a == b || StepsLess(a, b) || StepsLess(b, a)
  {
    if a != [] && b != [] {
      if a[0] == b[0] {
        StepsLessTotal(a[1..], b[1..]);
        if a[1..] == b[1..] {
          assert a == [a[0]] + a[1..] && b == [b[0]] + b[1..];
        }
      } else {
        LexLessTotal(a[0].word, b[0].word);
      }
    }
  }

  /** Python's `<` on bridges is a strict total order. */
  lemma BridgeLessOrder(a: Bridge, b: Bridge, c: Bridge)
    ensures BridgeLess(a, b) && BridgeLess(b, c) ==> BridgeLess(a, c)
    ensures a == b || BridgeLess(a, b) || BridgeLess(b, a)
    ensures !BridgeLess(a, a)
  {
    StepsLessIrreflexive(a.steps);
    if BridgeLess(a, b) && BridgeLess(b, c) && a.excess == b.excess == c.excess {
      StepsLessTransitive(a.steps, b.steps, c.steps);
    }
    StepsLessTotal(a.steps, b.steps);
  }

  /** A bridge `bridges[suf][entry.key]` as `bridging_steps` sees it. */
  datatype Choice = Choice(suf: string, entry: Entry)

  /** The bridges `bridging_steps` chooses among: stored under a proper
      suffix of `prev`, and leading to a key that `startswith` still lists
      words under. */
  predicate Eligible(bs: map<string, Row>, sw: map<string, set<string>>, prev: string, c: Choice)
  {
    ProperSuffix(c.suf, prev) && c.suf in bs && c.entry in bs[c.suf] && Get(sw, c.entry.key) != {}
  }

  /** The inner loop of `bridging_steps` over `bridges[suf]`. */
  function RowChoices(suf: string, row: Row, sw: map<string, set<string>>): (r: seq<Choice>)
    ensures forall c :: c in r <==> c.suf == suf && c.entry in row && Get(sw, c.entry.key) != {}
  {
    if row == [] then []
    else
      assert row == [row[0]] + row[1..];
      (if Get(sw, row[0].key) != {} then [Choice(suf, row[0])] else []) + RowChoices(suf, row[1..], sw)
  }

  /** The outer loop of `bridging_steps` over the suffixes in `sufs`. */
  function SuffixChoices(bs: map<string, Row>, sw: map<string, set<string>>, sufs: seq<string>): (r: seq<Choice>)
    ensures forall c :: c in r <==> c.suf in sufs && c.suf in bs && c.entry in bs[c.suf] && Get(sw, c.entry.key) != {}
  {
    if sufs == [] then []
    else
      assert sufs == [sufs[0]] + sufs[1..];
      (if sufs[0] in bs then RowChoices(sufs[0], bs[sufs[0]], sw) else []) + SuffixChoices(bs, sw, sufs[1..])
  }

  /** The generator `bridging_steps` hands to `min`. */
  function Choices(bs: map<string, Row>, sw: map<string, set<string>>, prev: string): (r: seq<Choice>)
    ensures forall c :: c in r <==> Eligible(bs, sw, prev, c)
  {
    forall suf ensures suf in Suffixes(prev) <==> ProperSuffix(suf, prev) {
      SuffixesComplete(prev, suf);
    }
    SuffixChoices(bs, sw, Suffixes(prev))
  }

  /** `min` from the running minimum `m` over `cs`: a later item replaces it
      only when strictly smaller. */
  function MinFrom(m: Choice, cs: seq<Choice>): (r: Choice)
    ensures r == m || r in cs
    ensures !BridgeLess(m.entry.bridge, r.entry.bridge)
    ensures forall c :: c in cs ==> !BridgeLess(c.entry.bridge, r.entry.bridge)
    decreases |cs|
  {
    if cs == [] then
      BridgeLessOrder(m.entry.bridge, m.entry.bridge, m.entry.bridge);
      m
    else
      var m1 := if BridgeLess(cs[0].entry.bridge, m.entry.bridge) then cs[0] else m;
      var r := MinFrom(m1, cs[1..]);
      BridgeLessOrder(m.entry.bridge, m1.entry.bridge, r.entry.bridge);
      BridgeLessOrder(cs[0].entry.bridge, m.entry.bridge, r.entry.bridge);
      BridgeLessOrder(cs[0].entry.bridge, r.entry.bridge, m.entry.bridge);
      BridgeLessOrder(r.entry.bridge, m.entry.bridge, m.entry.bridge);
      assert cs == [cs[0]] + cs[1..];
      r
  }

  /** `bridging_steps(W, prev_word)`: the least eligible bridge, whose
      `steps` are taken; `min` of nothing raises `ValueError`. The least
      bridge has the least excess. */
  function BridgingSteps(bs: map<string, Row>, sw: map<string, set<string>>, prev: string): (r: Result<Choice>)
    ensures r.Error? <==> forall c :: !Eligible(bs, sw, prev, c)
    ensures r.Error? ==> r == Error("ValueError")
    ensures r.Ok? ==> Eligible(bs, sw, prev, r.value)
    ensures r.Ok? ==> forall c :: Eligible(bs, sw, prev, c) ==> !BridgeLess(c.entry.bridge, r.value.entry.bridge)
    ensures r.Ok? ==> forall c :: Eligible(bs, sw, prev, c) ==> r.value.entry.bridge.excess <= c.entry.bridge.excess
  {
    var cs := Choices(bs, sw, prev);
    if cs == [] then Error("ValueError")
    else
      var m := MinFrom(cs[0], cs[1..]);
      assert forall c :: c in cs ==> c == cs[0] || c in cs[1..];
      Ok(m)
  }

  // ----------------------------------------------------------------- natalie

  /** The words a path visits. */
  function WordsOf(p: seq<Step>): set<string>
  {
    set i | 0 <= i < |p| :: p[i].word
  }

  /** The loop of `natalie` that appends `steps` and calls `used` on each
      word: the words leave `unused`, and the table keeps up. */
  function ApplySteps(ws: Wordset, steps: seq<Step>): (r: Wordset)
    requires Tracks(ws) && forall i :: 0 <= i < |steps| ==> steps[i].word in ws.all
    ensures Tracks(r) && r.all == ws.all && r.unused == ws.unused - WordsOf(steps)
    ensures (forall i :: 0 <= i < |steps| ==> steps[i].word !in ws.unused) ==> r == ws
    decreases |steps|
  {
    if steps == [] then ws
    else
      var w := steps[0].word;
      UsedTracks(ws, w);
      var r := ApplySteps(Used(ws, w).value, steps[1..]);
      assert WordsOf(steps) == {w} + WordsOf(steps[1..]) by {
        assert forall i :: 1 <= i < |steps| ==> steps[i] == steps[1..][i - 1];
      }
      r
  }

  /** Steps that each follow the word before them, the first one following
      the end of a path, extend the path. */
  lemma PathAppend(p: seq<Step>, steps: seq<Step>)
    requires IsPath(p) && p != [] && steps != [] && Follows(p[|p| - 1].word, steps[0])
    requires forall i :: 1 <= i < |steps| ==> Follows(steps[i - 1].word, steps[i])
    ensures IsPath(p + steps)
  {
    var q := p + steps;
    forall i | 1 <= i < |q| ensures Follows(q[i - 1].word, q[i]) {
      if i > |p| {
        assert q[i - 1] == steps[i - 1 - |p|] && q[i] == steps[i - |p|];
      }
    }
  }

  /** Every word of a path is still there after it is extended. */
  lemma WordsOfGrow(p: seq<Step>, q: seq<Step>)
    requires |p| <= |q| && q[..|p|] == p
    ensures WordsOf(p) <= WordsOf(q)
  {
    forall w | w in WordsOf(p) ensures w in WordsOf(q) {
      var i :| 0 <= i < |p| && p[i].word == w;
      assert q[i] == p[i];
    }
  }

  /** `unused_step(W, word) or bridging_steps(W, word)`. */
  function NextSteps(sw: map<string, set<string>>, bs: map<string, Row>, prev: string, words: seq<string>): (r: Result<seq<Step>>)
    ensures UnusedStep(sw, prev, words) != [] ==> r == Ok(UnusedStep(sw, prev, words))
    ensures UnusedStep(sw, prev, words) == [] ==> r.Error? == BridgingSteps(bs, sw, prev).Error?
    ensures UnusedStep(sw, prev, words) == [] && r.Ok? ==> r.value == BridgingSteps(bs, sw, prev).value.entry.bridge.steps
    ensures r.Error? ==> r == Error("ValueError")
  {
    var us := UnusedStep(sw, prev, words);
    if us != [] then Ok(us)
    else
      match BridgingSteps(bs, sw, prev)
      case Error(e) => Error(e)
      case Ok(c) => Ok(c.entry.bridge.steps)
  }

  /** The steps of one round follow the previous word and one another, use
      words of `W`, and either take an unused word or end where an unused
      step is at hand. */
  lemma NextStepsSound(ws: Wordset, bs: map<string, Row>, short: seq<string>, words: seq<string>, prev: string, steps: seq<Step>)
    requires Tracks(ws) && ws.all == ToSet(words) && (forall w :: w in short ==> w in words) && WellFormed(bs, short)
    requires NextSteps(ws.startswith, bs, prev, words) == Ok(steps)
    ensures steps != [] && Follows(prev, steps[0])
    ensures forall i :: 1 <= i < |steps| ==> Follows(steps[i - 1].word, steps[i])
    ensures forall i :: 0 <= i < |steps| ==> steps[i].word in ws.all
    ensures || (exists i :: 0 <= i < |steps| && steps[i].word in ws.unused)
            || UnusedStep(ws.startswith, steps[|steps| - 1].word, words) != []
  {
    if UnusedStep(ws.startswith, prev, words) != [] {
      UnusedStepTaken(ws, prev, words, steps);
    } else {
      var c := BridgingSteps(bs, ws.startswith, prev).value;
      BridgeTaken(ws, bs, short, words, [Step(0, prev)], c);
    }
  }

  /** What the loop of `natalie` decreases: twice the number of unused words,
      plus one while no unused step is at hand. */
  function Measure(ws: Wordset, prev: string, words: seq<string>): nat
  {
    2 * |ws.unused| + if UnusedStep(ws.startswith, prev, words) == [] then 1 else 0
  }

  lemma MeasureBounds(ws: Wordset, prev: string, words: seq<string>)
    ensures Measure(ws, prev, words) <= 2 * |ws.unused| + 1
    ensures UnusedStep(ws.startswith, prev, words) != [] ==> Measure(ws, prev, words) == 2 * |ws.unused|
    ensures UnusedStep(ws.startswith, prev, words) == [] ==> Measure(ws, prev, words) == 2 * |ws.unused| + 1
  {
  }

  /** The `while W.unused` loop of `natalie` from path `p`: take an unused
      step when there is one, else the steps of the least bridge, until no
      word is unused. It ends: an unused step uses up a word, and a bridge
      either uses one up or ends in a suffix that begins an unused word, so
      that the next step is an unused step. */
  function Extend(ws: Wordset, bs: map<string, Row>, short: seq<string>, words: seq<string>, p: seq<Step>): (r: Result<seq<Step>>)
    requires Tracks(ws) && ws.all == ToSet(words) && (forall w :: w in short ==> w in words)
    requires WellFormed(bs, short) && IsPath(p) && p != []
    ensures r.Error? ==> r == Error("ValueError")
    ensures r.Ok? ==> IsPath(r.value) && |p| <= |r.value| && r.value[..|p|] == p
    ensures r.Ok? ==> ws.unused <= WordsOf(r.value)
    decreases Measure(ws, p[|p| - 1].word, words)
  {
    if ws.unused == {} then Ok(p)
    else
      match NextSteps(ws.startswith, bs, p[|p| - 1].word, words)
      case Error(e) => Error(e)
      case Ok(steps) =>
        Progress(ws, bs, short, words, p, steps);
        var ws2 := ApplySteps(ws, steps);
        Grown(ws, p, steps, ws2, Extend(ws2, bs, short, words, p + steps))
  }

  /** The steps of one round extend the path with words of `W`, and the
      round lowers the measure. */
  lemma Progress(ws: Wordset, bs: map<string, Row>, short: seq<string>, words: seq<string>, p: seq<Step>, steps: seq<Step>)
    requires Tracks(ws) && ws.all == ToSet(words) && (forall w :: w in short ==> w in words)
    requires WellFormed(bs, short) && IsPath(p) && p != [] && ws.unused != {}
    requires NextSteps(ws.startswith, bs, p[|p| - 1].word, words) == Ok(steps)
    ensures steps != [] && IsPath(p + steps)
    ensures forall i :: 0 <= i < |steps| ==> steps[i].word in ws.all
    ensures Measure(ApplySteps(ws, steps), steps[|steps| - 1].word, words) < Measure(ws, p[|p| - 1].word, words)
  {
    var prev := p[|p| - 1].word;
    if UnusedStep(ws.startswith, prev, words) != [] {
      ProgressUnused(ws, words, p, steps);
    } else {
      var c := BridgingSteps(bs, ws.startswith, prev).value;
      ProgressBridge(ws, bs, short, words, p, c, c.entry.bridge.steps);
    }
  }

  lemma ProgressUnused(ws: Wordset, words: seq<string>, p: seq<Step>, steps: seq<Step>)
    requires Tracks(ws) && ws.all == ToSet(words) && IsPath(p) && p != []
    requires steps == UnusedStep(ws.startswith, p[|p| - 1].word, words) && steps != []
    ensures steps != [] && IsPath(p + steps)
    ensures forall i :: 0 <= i < |steps| ==> steps[i].word in ws.all
    ensures Measure(ApplySteps(ws, steps), steps[|steps| - 1].word, words) < Measure(ws, p[|p| - 1].word, words)
  {
    UnusedStepTaken(ws, p[|p| - 1].word, words, steps);
    PathAppend(p, steps);
    OneUnusedApplied(ws, steps);
    MeasureBounds(ws, p[|p| - 1].word, words);
    MeasureBounds(ApplySteps(ws, steps), steps[0].word, words);
  }

  /** Taking one unused word lowers the count of unused words by one. */
  lemma OneUnusedApplied(ws: Wordset, steps: seq<Step>)
    requires Tracks(ws) && |steps| == 1 && steps[0].word in ws.unused
    ensures forall i :: 0 <= i < |steps| ==> steps[i].word in ws.all
    ensures |ApplySteps(ws, steps).unused| == |ws.unused| - 1
  {
    assert WordsOf(steps) == {steps[0].word};
  }

  lemma ProgressBridge(ws: Wordset, bs: map<string, Row>, short: seq<string>, words: seq<string>, p: seq<Step>, c: Choice, steps: seq<Step>)
    requires Tracks(ws) && ws.all == ToSet(words) && (forall w :: w in short ==> w in words)
    requires WellFormed(bs, short) && IsPath(p) && p != []
    requires UnusedStep(ws.startswith, p[|p| - 1].word, words) == []
    requires Eligible(bs, ws.startswith, p[|p| - 1].word, c) && steps == c.entry.bridge.steps
    ensures steps != [] && IsPath(p + steps) && (forall i :: 0 <= i < |steps| ==> steps[i].word in ws.all)
    ensures Measure(ApplySteps(ws, steps), steps[|steps| - 1].word, words) < Measure(ws, p[|p| - 1].word, words)
  {
    BridgeTaken(ws, bs, short, words, p, c);
    PathAppend(p, steps);
    var ws2 := ApplySteps(ws, steps);
    var last := steps[|steps| - 1].word;
    MeasureBounds(ws, p[|p| - 1].word, words);
    if exists i :: 0 <= i < |steps| && steps[i].word in ws.unused {
      var i :| 0 <= i < |steps| && steps[i].word in ws.unused;
      assert steps[i].word in WordsOf(steps);
      assert ws2.unused < ws.unused;
      MeasureBounds(ws2, last, words);
    } else {
      assert ws2 == ws;
      MeasureBounds(ws, last, words);
    }
  }

  /** The result of the loop after `steps`, with what it promises about `p`. */
  function Grown(ws: Wordset, p: seq<Step>, steps: seq<Step>, ws2: Wordset, r: Result<seq<Step>>): (r': Result<seq<Step>>)
    requires ws2.unused == ws.unused - WordsOf(steps)
    requires r.Ok? ==> |p + steps| <= |r.value| && r.value[..|p + steps|] == p + steps && ws2.unused <= WordsOf(r.value)
    ensures r' == r
    ensures r.Ok? ==> |p| <= |r.value| && r.value[..|p|] == p && ws.unused <= WordsOf(r.value)
  {
    if r.Ok? then
      var q := r.value;
      assert q[..|p|] == (p + steps)[..|p|] == p;
      WordsOfGrow(p + steps, q);
      assert WordsOf(steps) <= WordsOf(p + steps) by {
        forall w | w in WordsOf(steps) ensures w in WordsOf(p + steps) {
          var i :| 0 <= i < |steps| && steps[i].word == w;
          assert (p + steps)[|p| + i] == steps[i];
        }
      }
      r
    else r
  }

  /** An unused step follows `prev` and uses up an unused word. */
  lemma UnusedStepTaken(ws: Wordset, prev: string, words: seq<string>, us: seq<Step>)
    requires Tracks(ws) && us == UnusedStep(ws.startswith, prev, words) && us != []
    ensures |us| == 1 && Follows(prev, us[0]) && us[0].word in ws.unused && us[0].word in ws.all
  {
    var suf := prev[|prev| - us[0].overlap..];
    assert us[0].word in StartingWith(ws.unused, suf);
  }

  /** The steps of an eligible bridge follow `prev` and one another, use
      words of `W`, and either use up an unused word or end in a suffix that
      begins one, so that an unused step comes next. */
  lemma BridgeTaken(ws: Wordset, bs: map<string, Row>, short: seq<string>, words: seq<string>, p: seq<Step>, c: Choice)
    requires Tracks(ws) && ws.all == ToSet(words) && (forall w :: w in short ==> w in words)
    requires WellFormed(bs, short) && p != [] && Eligible(bs, ws.startswith, p[|p| - 1].word, c)
    ensures var steps := c.entry.bridge.steps;
      && steps != [] && Follows(p[|p| - 1].word, steps[0])
      && (forall i :: 1 <= i < |steps| ==> Follows(steps[i - 1].word, steps[i]))
      && (forall i :: 0 <= i < |steps| ==> steps[i].word in ws.all)
    ensures var steps := c.entry.bridge.steps;
      steps != [] && (forall i :: 0 <= i < |steps| ==> steps[i].word !in ws.unused) ==>
        UnusedStep(ws.startswith, steps[|steps| - 1].word, words) != []
  {
    var prev := p[|p| - 1].word;
    var b := c.entry.bridge;
    assert BridgeOk(c.suf, c.entry.key, b, short);
    assert prev[|prev| - |c.suf|..] == c.suf;
    var x :| x in Get(ws.startswith, c.entry.key);
    assert x in ws.unused;
    assert Offers(ws.startswith, c.entry.key, words);
  }

  /** The default `maxlen` and `end` of `build_bridges`. */
  const MAXLEN := 5
  const END := "qujvz"

  /** `natalie(W, start)`: precompute the tables, start from `start` (or the
      first unused word when `start` is missing or empty) and extend until no
      word is unused. On success the path is a portmantout path and every
      word of `W` is a substring of the string `portman` makes of it. An
      empty word fails in `build_bridges`, a start outside `W` (or no word to
      start from) fails the assertion of `used`, and a missing bridge makes
      `min` fail. */
  function Natalie(words: seq<string>, start: Option<string>): (r: Result<seq<Step>>)
    ensures [] in words ==> r == Error("IndexError")
    ensures [] !in words && start.Some? && start.value != [] && start.value !in words ==> r == Error("AssertionError")
    ensures r.Error? ==> r.exc == "IndexError" || r.exc == "AssertionError" || r.exc == "ValueError"
    ensures r.Ok? ==> r.value != []
    ensures r.Ok? && start.Some? && start.value != [] ==> r.value[0] == Step(0, start.value)
    ensures r.Ok? ==> IsPath(r.value) && forall w :: w in words ==> IsSubstring(w, Portman(r.value))
  {
    match BuildBridges(words, MAXLEN, END)
    case Error(e) => Error(e)
    case Ok(bs) =>
      var sub := Subwords(words);
      var ws := Precompute(words, sub);
      var word := if start.Some? && start.value != [] then start else FirstIn(words, ws.unused);
      if word.None? || word.value !in ws.all then Error("AssertionError")
      else
        UsedTracks(ws, word.value);
        var r := Extend(Used(ws, word.value).value, bs, ShortWords(words, MAXLEN, END), words, [Step(0, word.value)]);
        assert r.Ok? ==> forall w :: w in words ==> IsSubstring(w, Portman(r.value)) by {
          if r.Ok? {
            assert r.value[0] == Step(0, word.value);
            assert word.value in WordsOf(r.value);
            NatalieCovers(words, r.value);
          }
        }
        r
  }

  /** The dynamic part of `precompute(W)`: `unused` is `W - subwords`, and
      `startswith` is built from it. */
  function Precompute(words: seq<string>, sub: set<string>): (ws: Wordset)
    ensures Tracks(ws) && ws.all == ToSet(words) && ws.unused == ToSet(words) - sub
  {
    var keep := w => w !in sub;
    var unused := Filter(keep, words);
    forall w ensures w in unused <==> w in words && w !in sub {
      FilterMembers(keep, words, w);
    }
    Wordset(ToSet(words), ToSet(words) - sub, ComputeStartswith(unused))
  }

  /** A path that visits every word outside `subwords(W)` spells a string
      that contains every word of `W`. */
  lemma NatalieCovers(words: seq<string>, p: seq<Step>)
    requires IsPath(p) && ToSet(words) - Subwords(words) <= WordsOf(p)
    ensures forall w :: w in words ==> IsSubstring(w, Portman(p))
  {
    forall w | w in words && w !in Subwords(words) ensures IsSubstring(w, Portman(p)) {
      assert w in WordsOf(p);
      var i :| 0 <= i < |p| && p[i].word == w;
      PathContains(p, i);
    }
    forall w | w in words ensures IsSubstring(w, Portman(p)) {
      AllCovered(words, Portman(p), w);
    }
  }
}
