/** `py/ibol.py`: single-linkage clustering of barcode genomes by edit
    distance.  The script's global `neighbors` dictionary (genome number to
    a dictionary of neighbour number to distance) is an explicit parameter
    here, and its mutable `unclustered` set is threaded through as state. */
module Ibol {
  import opened Common

  /** `max_distance`: the distance of two genomes with no recorded edit distance. */
  const MaxDistance := 26

  /** The `neighbors` dictionary: its keys in insertion order, and for each
      key the `(neighbour, distance)` items of its inner dictionary in order. */
  datatype Neighbors = Neighbors(keys: seq<int>, rows: map<int, seq<(int, int)>>)

  /** A dictionary: the key order lists exactly the keys, once each, and no
      inner dictionary repeats a neighbour. */
  predicate WellFormed(nb: Neighbors)
  {
    && Distinct(nb.keys)
    && nb.rows.Keys == ToSet(nb.keys)
    && (forall g | g in nb.rows :: Distinct(Firsts(nb.rows[g])))
  }

  /** Edit distances are never negative. */
  predicate NonNegative(nb: Neighbors)
  {
    forall g, e | g in nb.rows && e in nb.rows[g] :: e.1 >= 0
  }

  function Firsts(row: seq<(int, int)>): (r: seq<int>)
    ensures |r| == |row| && forall k :: 0 <= k < |r| ==> r[k] == row[k].0
  {
    if row == [] then [] else [row[0].0] + Firsts(row[1..])
  }

  function Min(a: int, b: int): int { if a <= b then a else b }
  function Max(a: int, b: int): int { if a <= b then b else a }

  // ------------------------------------------------------------------ dist

  /** `row.get(j, default)` on an inner dictionary. */
  function GetOr(row: seq<(int, int)>, j: int, default: int): (r: int)
    ensures (j, r) in row || (r == default && forall e | e in row :: e.0 != j)
    ensures Distinct(Firsts(row)) ==> forall e | e in row && e.0 == j :: r == e.1
  {
    if row == [] then default
    else if row[0].0 == j then row[0].1
    else
      var r := GetOr(row[1..], j, default);
      assert Distinct(Firsts(row)) ==> forall e | e in row && e.0 == j :: r == e.1 by {
        if Distinct(Firsts(row)) {
          assert Firsts(row[1..]) == Firsts(row)[1..];
        }
      }
      r
  }

  /** `dist` looks up `neighbors[min(i, j)]`, which raises unless that key exists. */
  predicate Defined(nb: Neighbors, i: int, j: int)
  {
    i == j || Min(i, j) in nb.rows
  }

  /** `dist(i, j)`: 0 for a genome and itself, otherwise the distance the
      smaller genome records for the larger, or `max_distance` if none. */
  function Dist(nb: Neighbors, i: int, j: int): (r: int)
    requires Defined(nb, i, j)
    ensures i == j ==> r == 0
    ensures i != j ==> (Max(i, j), r) in nb.rows[Min(i, j)]
                       || (r == MaxDistance && forall e | e in nb.rows[Min(i, j)] :: e.0 != Max(i, j))
  {
    if i == j then 0 else GetOr(nb.rows[Min(i, j)], Max(i, j), MaxDistance)
  }

  /** Both orders of a pair look up the same entry, so `dist` is symmetric,
      and it is never negative when the recorded distances are not. */
  lemma DistSymmetric(nb: Neighbors, i: int, j: int)
    requires Defined(nb, i, j)
    ensures Defined(nb, j, i) && Dist(nb, i, j) == Dist(nb, j, i)
    ensures NonNegative(nb) ==> Dist(nb, i, j) >= 0
  {
  }

  /** In a symmetric dictionary (`neighbors[i][j] = neighbors[j][i]`, as the
      data file is read) the distance is whatever either genome records. */
  lemma DistRecorded(nb: Neighbors, i: int, j: int, v: int)
    requires WellFormed(nb) && i != j && i in nb.rows && j in nb.rows
    requires (j, v) in nb.rows[i] && (i, v) in nb.rows[j]
    ensures Dist(nb, i, j) == v
  {
    var r := GetOr(nb.rows[Min(i, j)], Max(i, j), MaxDistance);
    if i < j {
      assert (j, v) in nb.rows[i];
    } else {
      assert (i, v) in nb.rows[j];
    }
  }

  // ------------------------------------------------------------------ near

  /** Every pair drawn from `g` and `c` can be measured. */
  predicate DefinedTo(nb: Neighbors, g: int, c: set<int>)
  {
    forall g2 | g2 in c :: Defined(nb, g, g2)
  }

  /** What `near` decides: `g` is within `d` of some member of `c` and within
      `dc` of every member; an empty cluster counts as one distance of 0. */
  predicate Near(nb: Neighbors, g: int, c: set<int>, d: int, dc: int)
    requires DefinedTo(nb, g, c)
  {
    && (c == {} ==> 0 <= d && 0 <= dc)
    && (c != {} ==> (exists g2 | g2 in c :: Dist(nb, g, g2) <= d)
                    && (forall g2 | g2 in c :: Dist(nb, g, g2) <= dc))
  }

  /** `min(xs)` of a non-empty list. */
  function MinOf(xs: seq<int>): (r: int)
    requires xs != []
    ensures r in xs && forall x | x in xs :: r <= x
  {
    if |xs| == 1 then xs[0]
    else
      assert xs == [xs[0]] + xs[1..];
      Min(xs[0], MinOf(xs[1..]))
  }

  /** `max(xs)` of a non-empty list. */
  function MaxOf(xs: seq<int>): (r: int)
    requires xs != []
    ensures r in xs && forall x | x in xs :: x <= r
  {
    if |xs| == 1 then xs[0]
    else
      assert xs == [xs[0]] + xs[1..];
      Max(xs[0], MaxOf(xs[1..]))
  }

  /** `[dist(g, g2) for g2 in cs]` */
  function Distances(nb: Neighbors, g: int, cs: seq<int>): (r: seq<int>)
    requires DefinedTo(nb, g, ToSet(cs))
    ensures |r| == |cs| && forall k :: 0 <= k < |r| ==> r[k] == Dist(nb, g, cs[k])
  {
    if cs == [] then [] else [Dist(nb, g, cs[0])] + Distances(nb, g, cs[1..])
  }

  /** `near(g, cluster, d, dc)` with the cluster listed in iteration order:
      the min and max of the distance list, or of `[0]` when it is empty,
      against `d` and `dc`.  It decides `Near` of the listed set, so the
      iteration order does not matter. */
  function NearOf(nb: Neighbors, g: int, cs: seq<int>, d: int, dc: int): (r: bool)
    requires DefinedTo(nb, g, ToSet(cs))
    ensures r <==> Near(nb, g, ToSet(cs), d, dc)
  {
    var ds := Distances(nb, g, cs);
    var list := if ds == [] then [0] else ds;
    assert cs != [] ==> cs[0] in ToSet(cs);
    assert forall g2 | g2 in ToSet(cs) :: Dist(nb, g, g2) in ds by {
      forall g2 | g2 in ToSet(cs) ensures Dist(nb, g, g2) in ds {
        var k :| 0 <= k < |cs| && cs[k] == g2;
        assert ds[k] == Dist(nb, g, g2);
      }
    }
    MinOf(list) <= d && MaxOf(list) <= dc
  }

  // --------------------------------------------------------------- closure

  /** The mutable state of one `closure` call: the cluster `s` being built
      and the shared `unclustered` set. */
  datatype State = State(s: set<int>, u: set<int>)

  /** Both sets hold only genomes that are keys of `neighbors`. */
  predicate Keyed(nb: Neighbors, st: State)
  {
    st.s <= nb.rows.Keys && st.u <= nb.rows.Keys
  }

  lemma KeyedDefined(nb: Neighbors, g: int, c: set<int>)
    requires g in nb.rows && c <= nb.rows.Keys
    ensures DefinedTo(nb, g, c)
  {
  }

  lemma SubsetSize(a: set<int>, b: set<int>)
    requires a <= b
    ensures |a| <= |b|
  {
    assert b == a + (b - a);
  }

  /** `closure(g, s, unclustered, d, dc)`: if `g` is unclustered, not yet in
      `s` and near `s`, move it from `unclustered` into `s` and continue
      from each of its neighbours in turn.  Genomes only ever move from the
      unclustered set into the cluster. */
  function Closure(nb: Neighbors, g: int, st: State, d: int, dc: int): (r: State)
    requires Keyed(nb, st)
    ensures Keyed(nb, r)
    ensures r.u <= st.u
    ensures r.s == st.s + (st.u - r.u)
    decreases |st.u|, 0, 0
  {
    if g !in st.s && g in st.u && (KeyedDefined(nb, g, st.s); Near(nb, g, st.s, d, dc)) then
      assert |st.u - {g}| < |st.u| by {
        assert st.u == (st.u - {g}) + {g};
      }
      ClosureAll(nb, nb.rows[g], State(st.s + {g}, st.u - {g}), d, dc)
    else
      st
  }

  /** The `for g2 in neighbors[g]` loop of `closure`. */
  function ClosureAll(nb: Neighbors, row: seq<(int, int)>, st: State, d: int, dc: int): (r: State)
    requires Keyed(nb, st)
    ensures Keyed(nb, r)
    ensures r.u <= st.u
    ensures r.s == st.s + (st.u - r.u)
    decreases |st.u|, 1, |row|
  {
    if row == [] then st
    else
      var st1 := Closure(nb, row[0].0, st, d, dc);
      SubsetSize(st1.u, st.u);
      ClosureAll(nb, row[1..], st1, d, dc)
  }

  /** Within `dc` of every other member. */
  predicate Tight(nb: Neighbors, s: set<int>, dc: int)
  {
    s <= nb.rows.Keys && forall a, b | a in s && b in s && a != b :: Dist(nb, a, b) <= dc
  }

  /** Within `d` of another member, unless alone. */
  predicate Linked(nb: Neighbors, s: set<int>, d: int)
  {
    s <= nb.rows.Keys && forall a | a in s :: s == {a} || exists b | b in s :: b != a && Dist(nb, a, b) <= d
  }

  /** The promise of `cluster`'s doc string, for the cluster being built. */
  predicate Good(nb: Neighbors, st: State, d: int, dc: int)
  {
    Keyed(nb, st) && Tight(nb, st.s, dc) && Linked(nb, st.s, d)
  }

  /** Adding a genome within `dc` of every member keeps the cluster tight. */
  lemma TightAdd(nb: Neighbors, g: int, s: set<int>, dc: int)
    requires Tight(nb, s, dc) && g in nb.rows
    requires forall g2 | g2 in s :: Dist(nb, g, g2) <= dc
    ensures Tight(nb, s + {g}, dc)
  {
    forall a, b | a in s + {g} && b in s + {g} && a != b
      ensures Dist(nb, a, b) <= dc
    {
      if b == g {
        DistSymmetric(nb, g, a);
      }
    }
  }

  /** Adding an outside genome within `d` of some member, or to an empty
      cluster, keeps the cluster linked. */
  lemma LinkedAdd(nb: Neighbors, g: int, s: set<int>, d: int)
    requires Linked(nb, s, d) && g in nb.rows && g !in s
    requires s != {} ==> exists g2 | g2 in s :: Dist(nb, g, g2) <= d
    ensures Linked(nb, s + {g}, d)
  {
    var s' := s + {g};
    if s == {} {
      assert s' == {g};
    } else {
      var b0 :| b0 in s && Dist(nb, g, b0) <= d;
      forall a | a in s'
        ensures s' == {a} || exists b | b in s' :: b != a && Dist(nb, a, b) <= d
      {
        if a == g {
          assert b0 in s' && b0 != a;
        } else if s == {a} {
          assert a == b0 by { assert b0 in {a}; }
          DistSymmetric(nb, g, a);
          assert g in s' && g != a && Dist(nb, a, g) <= d;
        } else {
          var b :| b in s && b != a && Dist(nb, a, b) <= d;
          assert b in s';
        }
      }
    }
  }

  /** One move of `closure` keeps the cluster tight and linked. */
  lemma AddGood(nb: Neighbors, g: int, st: State, d: int, dc: int)
    requires Good(nb, st, d, dc) && g !in st.s && g in st.u
    requires DefinedTo(nb, g, st.s) && Near(nb, g, st.s, d, dc)
    ensures Good(nb, State(st.s + {g}, st.u - {g}), d, dc)
  {
    TightAdd(nb, g, st.s, dc);
    LinkedAdd(nb, g, st.s, d);
  }

  /** `closure` keeps the cluster tight and linked. */
  lemma {:induction false} ClosureGood(nb: Neighbors, g: int, st: State, d: int, dc: int)
    requires Good(nb, st, d, dc)
    ensures Good(nb, Closure(nb, g, st, d, dc), d, dc)
    decreases |st.u|, 0, 0
  {
    if g !in st.s && g in st.u {
      KeyedDefined(nb, g, st.s);
      if Near(nb, g, st.s, d, dc) {
        AddGood(nb, g, st, d, dc);
        assert |st.u - {g}| < |st.u| by {
          assert st.u == (st.u - {g}) + {g};
        }
        ClosureAllGood(nb, nb.rows[g], State(st.s + {g}, st.u - {g}), d, dc);
      }
    }
  }

  lemma {:induction false} ClosureAllGood(nb: Neighbors, row: seq<(int, int)>, st: State, d: int, dc: int)
    requires Good(nb, st, d, dc)
    ensures Good(nb, ClosureAll(nb, row, st, d, dc), d, dc)
    decreases |st.u|, 1, |row|
  {
    if row != [] {
      var st1 := Closure(nb, row[0].0, st, d, dc);
      ClosureGood(nb, row[0].0, st, d, dc);
      SubsetSize(st1.u, st.u);
      ClosureAllGood(nb, row[1..], st1, d, dc);
    }
  }

  /** Started from an empty cluster, `closure` always takes `g` itself when
      `g` is unclustered and both thresholds are at least 0, and takes
      nothing at all when either threshold is negative. */
  lemma ClosureStart(nb: Neighbors, g: int, u: set<int>, d: int, dc: int)
    requires u <= nb.rows.Keys && g in u
    ensures 0 <= d && 0 <= dc ==> g in Closure(nb, g, State({}, u), d, dc).s
    ensures !(0 <= d && 0 <= dc) ==> Closure(nb, g, State({}, u), d, dc) == State({}, u)
  {
    KeyedDefined(nb, g, {});
  }

  // --------------------------------------------------------------- cluster

  /** All the genomes of a list of clusters. */
  function Union(cs: seq<set<int>>): set<int>
  {
    if cs == [] then {} else cs[0] + Union(cs[1..])
  }

  lemma {:induction false} UnionMember(cs: seq<set<int>>, i: nat)
    requires i < |cs|
    ensures cs[i] <= Union(cs)
  {
    if i > 0 {
      UnionMember(cs[1..], i - 1);
    }
  }

  /** No genome is in two clusters. */
  predicate Disjoint(cs: seq<set<int>>)
  {
    forall i, j :: 0 <= i < j < |cs| ==> cs[i] !! cs[j]
  }

  /** `sum(len(c) for c in clusters)` */
  function SumSizes(cs: seq<set<int>>): nat
  {
    if cs == [] then 0 else |cs[0]| + SumSizes(cs[1..])
  }

  /** The list comprehension of `cluster` from the key `gs[0]` on, with the
      unclustered set as it stands when that key is reached. */
  function ClusterFrom(nb: Neighbors, gs: seq<int>, u: set<int>, d: int, dc: int): (r: seq<set<int>>)
    requires u <= nb.rows.Keys
    ensures Union(r) <= u
    ensures |r| <= |gs|
  {
    if gs == [] then []
    else if gs[0] in u then
      var st := Closure(nb, gs[0], State({}, u), d, dc);
      [st.s] + ClusterFrom(nb, gs[1..], st.u, d, dc)
    else
      ClusterFrom(nb, gs[1..], u, d, dc)
  }

  /** `cluster(neighbors, d, dc)` */
  function Cluster(nb: Neighbors, d: int, dc: int): (r: seq<set<int>>)
    requires WellFormed(nb)
    ensures Union(r) <= ToSet(nb.keys)
  {
    ClusterFrom(nb, nb.keys, ToSet(nb.keys), d, dc)
  }

  lemma {:induction false} ClusterFromDisjoint(nb: Neighbors, gs: seq<int>, u: set<int>, d: int, dc: int)
    requires u <= nb.rows.Keys
    ensures Disjoint(ClusterFrom(nb, gs, u, d, dc))
  {
    if gs != [] {
      if gs[0] in u {
        var st := Closure(nb, gs[0], State({}, u), d, dc);
        var rest := ClusterFrom(nb, gs[1..], st.u, d, dc);
        ClusterFromDisjoint(nb, gs[1..], st.u, d, dc);
        var r := [st.s] + rest;
        forall i, j | 0 <= i < j < |r|
          ensures r[i] !! r[j]
        {
          if i == 0 {
            UnionMember(rest, j - 1);
          } else {
            assert r[i] == rest[i - 1] && r[j] == rest[j - 1];
          }
        }
      } else {
        ClusterFromDisjoint(nb, gs[1..], u, d, dc);
      }
    }
  }

  lemma {:induction false} ClusterFromGood(nb: Neighbors, gs: seq<int>, u: set<int>, d: int, dc: int)
    requires u <= nb.rows.Keys
    ensures forall c | c in ClusterFrom(nb, gs, u, d, dc) :: Tight(nb, c, dc) && Linked(nb, c, d)
  {
    if gs != [] {
      if gs[0] in u {
        var st := Closure(nb, gs[0], State({}, u), d, dc);
        ClosureGood(nb, gs[0], State({}, u), d, dc);
        ClusterFromGood(nb, gs[1..], st.u, d, dc);
      } else {
        ClusterFromGood(nb, gs[1..], u, d, dc);
      }
    }
  }

  lemma {:induction false} ClusterFromCovers(nb: Neighbors, gs: seq<int>, u: set<int>, d: int, dc: int)
    requires u <= nb.rows.Keys && 0 <= d && 0 <= dc
    ensures ToSet(gs) * u <= Union(ClusterFrom(nb, gs, u, d, dc))
    ensures forall c | c in ClusterFrom(nb, gs, u, d, dc) :: c != {}
  {
    if gs != [] {
      if gs[0] in u {
        var st := Closure(nb, gs[0], State({}, u), d, dc);
        ClosureStart(nb, gs[0], u, d, dc);
        ClusterFromCovers(nb, gs[1..], st.u, d, dc);
        assert ToSet(gs) == {gs[0]} + ToSet(gs[1..]);
      } else {
        ClusterFromCovers(nb, gs[1..], u, d, dc);
        assert ToSet(gs) == {gs[0]} + ToSet(gs[1..]);
      }
    }
  }

  lemma {:induction false} ClusterFromEmpty(nb: Neighbors, gs: seq<int>, u: set<int>, d: int, dc: int)
    requires u <= nb.rows.Keys && ToSet(gs) <= u && Distinct(gs) && !(0 <= d && 0 <= dc)
    ensures ClusterFrom(nb, gs, u, d, dc) == seq(|gs|, k => {})
  {
    if gs != [] {
      ClosureStart(nb, gs[0], u, d, dc);
      assert ToSet(gs[1..]) <= u;
      ClusterFromEmpty(nb, gs[1..], u, d, dc);
    }
  }

  lemma {:induction false} SumSizesDisjoint(cs: seq<set<int>>)
    requires Disjoint(cs)
    ensures SumSizes(cs) == |Union(cs)|
  {
    if cs != [] {
      assert Disjoint(cs[1..]) by {
        forall i, j | 0 <= i < j < |cs[1..]| ensures cs[1..][i] !! cs[1..][j] {
          assert cs[1..][i] == cs[i + 1] && cs[1..][j] == cs[j + 1];
        }
      }
      SumSizesDisjoint(cs[1..]);
      forall x | x in Union(cs[1..]) ensures x !in cs[0] {
        var j := UnionIndex(cs[1..], x);
        assert cs[1..][j] == cs[j + 1];
      }
    }
  }

  lemma {:induction false} UnionIndex(cs: seq<set<int>>, x: int) returns (j: nat)
    requires x in Union(cs)
    ensures j < |cs| && x in cs[j]
  {
    if x in cs[0] {
      j := 0;
    } else {
      j := UnionIndex(cs[1..], x);
      j := j + 1;
    }
  }

  /** With both thresholds at least 0, the clusters partition the genomes:
      no genome in two clusters, every genome in one, none empty, so the
      sizes add up to the number of genomes; every member is within `dc`
      of every other member and within `d` of another unless it is alone. */
  lemma ClusterPartition(nb: Neighbors, d: int, dc: int)
    requires WellFormed(nb) && 0 <= d && 0 <= dc
    ensures Disjoint(Cluster(nb, d, dc))
    ensures Union(Cluster(nb, d, dc)) == ToSet(nb.keys)
    ensures SumSizes(Cluster(nb, d, dc)) == |nb.keys|
    ensures forall c | c in Cluster(nb, d, dc) :: c != {} && Tight(nb, c, dc) && Linked(nb, c, d)
  {
    assert ToSet(nb.keys) <= nb.rows.Keys;
    ClusterFromDisjoint(nb, nb.keys, ToSet(nb.keys), d, dc);
    ClusterFromCovers(nb, nb.keys, ToSet(nb.keys), d, dc);
    ClusterFromGood(nb, nb.keys, ToSet(nb.keys), d, dc);
    SumSizesDisjoint(Cluster(nb, d, dc));
    DistinctCardinality(nb.keys);
  }

  /** With a negative threshold not even a lone genome is near the empty
      cluster: every key yields an empty cluster. */
  lemma ClusterNegative(nb: Neighbors, d: int, dc: int)
    requires WellFormed(nb) && !(0 <= d && 0 <= dc)
    ensures Cluster(nb, d, dc) == seq(|nb.keys|, k => {})
  {
    assert ToSet(nb.keys) <= nb.rows.Keys;
    ClusterFromEmpty(nb, nb.keys, ToSet(nb.keys), d, dc);
  }

  // ------------------------------------------------------ diameter, margin

  /** Every pair of listed genomes can be measured. */
  predicate AllDefined(nb: Neighbors, cs: seq<int>)
  {
    forall i, j | i in cs && j in cs :: Defined(nb, i, j)
  }

  /** `[dist(i, j) for i in xs for j in bs]` */
  function AllDists(nb: Neighbors, xs: seq<int>, bs: seq<int>): (r: seq<int>)
    requires forall i, j | i in xs && j in bs :: Defined(nb, i, j)
    ensures forall i, j | i in xs && j in bs :: Dist(nb, i, j) in r
    ensures forall x | x in r :: exists i, j | i in xs && j in bs :: x == Dist(nb, i, j)
  {
    if xs == [] then []
    else
      var row := Distances(nb, xs[0], bs);
      assert forall j | j in bs :: Dist(nb, xs[0], j) in row by {
        forall j | j in bs ensures Dist(nb, xs[0], j) in row {
          var k :| 0 <= k < |bs| && bs[k] == j;
          assert row[k] == Dist(nb, xs[0], j);
        }
      }
      row + AllDists(nb, xs[1..], bs)
  }

  /** `diameter(cluster)`: the largest distance between two listed genomes,
      0 for an empty cluster. */
  function Diameter(nb: Neighbors, cs: seq<int>): (r: int)
    requires AllDefined(nb, cs)
    ensures forall i, j | i in cs && j in cs :: Dist(nb, i, j) <= r
    ensures cs == [] ==> r == 0
    ensures cs != [] ==> exists i, j | i in cs && j in cs :: Dist(nb, i, j) == r
  {
    var ds := AllDists(nb, cs, cs);
    assert cs != [] ==> Dist(nb, cs[0], cs[0]) in ds;
    MaxOf(if ds == [] then [0] else ds)
  }

  /** `diameter(set()) == 0` */
  lemma DiameterEmpty(nb: Neighbors)
    ensures Diameter(nb, []) == 0
  {
  }

  /** `diameter([a, b]) == dist(a, b)`, because recorded distances are
      never negative. */
  lemma DiameterPair(nb: Neighbors, a: int, b: int)
    requires NonNegative(nb) && Defined(nb, a, b)
    ensures AllDefined(nb, [a, b]) && Diameter(nb, [a, b]) == Dist(nb, a, b)
  {
    DistSymmetric(nb, a, b);
    PairDiameter(nb, a, b);
  }

  lemma PairDiameter(nb: Neighbors, a: int, b: int)
    requires Defined(nb, a, b) && Dist(nb, a, b) >= 0 && Dist(nb, b, a) == Dist(nb, a, b)
    ensures AllDefined(nb, [a, b]) && Diameter(nb, [a, b]) == Dist(nb, a, b)
  {
    var r := Diameter(nb, [a, b]);
    assert Dist(nb, a, b) <= r;
    var i, j :| i in [a, b] && j in [a, b] && Dist(nb, i, j) == r;
    assert i == a || i == b;
    assert j == a || j == b;
  }

  /** A recorded neighbour `e.0` of member `g` lies outside the cluster. */
  predicate Exit(nb: Neighbors, cs: seq<int>, g: int, e: (int, int))
  {
    g in cs && g in nb.rows && e in nb.rows[g] && e.0 !in cs
  }

  /** `[d for g2, d in row if g2 not in cluster]` */
  function OutsideRow(row: seq<(int, int)>, cs: seq<int>): (r: seq<int>)
    ensures forall e | e in row && e.0 !in cs :: e.1 in r
    ensures forall x | x in r :: exists e | e in row :: e.0 !in cs && e.1 == x
  {
    if row == [] then []
    else (if row[0].0 !in cs then [row[0].1] else []) + OutsideRow(row[1..], cs)
  }

  /** `[d for g in gs for g2, d in neighbors[g].items() if g2 not in cluster]` */
  function Outside(nb: Neighbors, gs: seq<int>, cs: seq<int>): (r: seq<int>)
    requires forall g | g in gs :: g in nb.rows
    ensures forall g, e | g in gs && e in nb.rows[g] && e.0 !in cs :: e.1 in r
    ensures forall x | x in r :: exists g, e | g in gs && e in nb.rows[g] :: e.0 !in cs && e.1 == x
  {
    if gs == [] then []
    else
      var g0 := gs[0];
      assert g0 in gs;
      var here := OutsideRow(nb.rows[g0], cs);
      var rest := Outside(nb, gs[1..], cs);
      assert forall x | x in here :: exists g, e | g in gs && e in nb.rows[g] :: e.0 !in cs && e.1 == x by {
        forall x | x in here ensures exists g, e | g in gs && e in nb.rows[g] :: e.0 !in cs && e.1 == x {
          var e :| e in nb.rows[g0] && e.0 !in cs && e.1 == x;
          assert g0 in gs && e in nb.rows[g0] && e.0 !in cs && e.1 == x;
        }
      }
      assert forall g | g in gs[1..] :: g in gs;
      here + rest
  }

  /** `margin(cluster)`: the shortest recorded distance from a member to a
      genome outside the cluster, or `max_distance` when no member records
      an outside neighbour. */
  function Margin(nb: Neighbors, cs: seq<int>): (r: int)
    requires forall g | g in cs :: g in nb.rows
    ensures forall g, e | Exit(nb, cs, g, e) :: r <= e.1
    ensures (exists g, e :: Exit(nb, cs, g, e) && e.1 == r)
            || (r == MaxDistance && forall g, e :: !Exit(nb, cs, g, e))
  {
    var ds := Outside(nb, cs, cs);
    var r := MinOf(if ds == [] then [MaxDistance] else ds);
    assert ds != [] ==> exists g, e :: Exit(nb, cs, g, e) && e.1 == r by {
      if ds != [] {
        var g, e :| g in cs && e in nb.rows[g] && e.0 !in cs && e.1 == r;
        assert Exit(nb, cs, g, e);
      }
    }
    r
  }

  // ----------------------------------------------------------------- histo

  /** An element of `histo`'s input: a plain item, or an `(item, count)` tuple. */
  datatype Item<K> = Plain(key: K) | Counted(key: K, n: int)

  /** What an item adds to its key's bar. */
  function Weight<K>(it: Item<K>): int
  {
    if it.Plain? then 1 else it.n
  }

  /** The total weight of the items with key `k`: the reference count. */
  function CountOf<K(==)>(items: seq<Item<K>>, k: K): int
  {
    if items == [] then 0
    else (if items[0].key == k then Weight(items[0]) else 0) + CountOf(items[1..], k)
  }

  /** The loop of `histo` from `items[0]` on, over the `defaultdict` `D`. */
  function HistoFrom<K(==)>(items: seq<Item<K>>, D: map<K, int>): (r: map<K, int>)
  {
    if items == [] then D
    else
      var k := items[0].key;
      HistoFrom(items[1..], D[k := (if k in D then D[k] else 0) + Weight(items[0])])
  }

  /** `histo(items)` */
  function Histo<K(==)>(items: seq<Item<K>>): (r: map<K, int>)
  {
    HistoFrom(items, map[])
  }

  lemma {:induction false} HistoFromCounts<K>(items: seq<Item<K>>, D: map<K, int>, k: K)
    ensures k in HistoFrom(items, D) <==> k in D || exists i :: 0 <= i < |items| && items[i].key == k
    ensures k in HistoFrom(items, D) ==>
              HistoFrom(items, D)[k] == (if k in D then D[k] else 0) + CountOf(items, k)
  {
    if items != [] {
      var k0 := items[0].key;
      var D' := D[k0 := (if k0 in D then D[k0] else 0) + Weight(items[0])];
      HistoFromCounts(items[1..], D', k);
      if exists i :: 0 <= i < |items[1..]| && items[1..][i].key == k {
        var i :| 0 <= i < |items[1..]| && items[1..][i].key == k;
        assert items[i + 1].key == k;
      }
      if exists i :: 0 <= i < |items| && items[i].key == k {
        var i :| 0 <= i < |items| && items[i].key == k;
        if i > 0 {
          assert items[1..][i - 1].key == k;
        }
      }
    }
  }

  /** The histogram has a bar for exactly the keys that occur, and each bar
      is its key's count: plain items add 1, `(item, n)` tuples add `n`. */
  lemma HistoCounts<K>(items: seq<Item<K>>, k: K)
    ensures k in Histo(items) <==> exists i :: 0 <= i < |items| && items[i].key == k
    ensures k in Histo(items) ==> Histo(items)[k] == CountOf(items, k)
  {
    HistoFromCounts(items, map[], k);
  }

  /** Tuples and plain items mix: `histo(['a', ('a', 3), 'b'])` is `{a: 4, b: 1}`. */
  lemma HistoExample()
    ensures Histo([Plain('a'), Counted('a', 3), Plain('b')]) == map['a' := 4, 'b' := 1]
  {
    var xs := [Plain('a'), Counted('a', 3), Plain('b')];
    assert xs[1..] == [Counted('a', 3), Plain('b')];
    assert xs[1..][1..] == [Plain('b')];
    assert HistoFrom([Plain('b')], map['a' := 4]) == map['a' := 4, 'b' := 1];
    assert map['a' := 1]['a' := 1 + 3] == map['a' := 4];
    assert HistoFrom(xs[1..], map['a' := 1]) == HistoFrom([Plain('b')], map['a' := 4]);
  }
}
