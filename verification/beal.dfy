/** The search for counterexamples to Beal's conjecture (`beal.py`): the
    list of exponents, the tables of powers and of their roots, exact and
    modulo a prime, and the two searches, whose printed lines are returned
    here as a list of reports. */
module Beal {
  import opened Common

  // ------------------------------------------------------------ arithmetic

  /** `a ** x` */
  function Pow(a: int, x: nat): int
  {
    if x == 0 then 1 else a * Pow(a, x - 1)
  }

  predicate IsPrime(n: int)
  {
    n >= 2 && forall d :: 2 <= d < n ==> n % d != 0
  }

  /** A multiple of `d` leaves no remainder. */
  lemma MultipleMod(d: int, k: int)
    requires d > 0
    ensures (d * k) % d == 0
  {
    ModUnique(d * k, d, k, 0);
  }

  /** The remainder is the only `r` with `0 <= r < d` and `n == d * q + r`. */
  lemma ModUnique(n: int, d: int, q: int, r: int)
    requires d > 0 && 0 <= r < d && n == d * q + r
    ensures n % d == r
  {
    var q', r' := n / d, n % d;
    assert d * (q - q') == r' - r;
    if q - q' >= 1 {
      MulAtLeast(d, q - q');
    } else if q - q' <= -1 {
      MulAtLeast(d, q' - q);
    }
  }

  /** Adding remainders and reducing gives the remainder of the sum. */
  lemma ModAdd(u: int, w: int, p: int)
    requires p > 0
    ensures (u % p + w % p) % p == (u + w) % p
  {
    var s := u % p + w % p;
    var t := s % p;
    assert s == p * (s / p) + t;
    assert u + w == p * (u / p + w / p + s / p) + t;
    ModUnique(u + w, p, u / p + w / p + s / p, t);
  }

  lemma {:induction false} MulAtLeast(d: int, m: int)
    requires d > 0 && m >= 1
    ensures d * m >= d
    decreases m
  {
    if m > 1 {
      MulAtLeast(d, m - 1);
      assert d * m == d * (m - 1) + d;
    }
  }

  /** A number whose remainder by `d` is 0 is a multiple of `d`. */
  lemma ModMultiple(n: int, d: int) returns (k: int)
    requires d > 0 && n % d == 0
    ensures n == d * k
  {
    k := n / d;
  }

  lemma {:induction false} DividesTransitive(e: int, d: int, n: int)
    requires e > 0 && d > 0 && d % e == 0 && n % d == 0
    ensures n % e == 0
  {
    var m := ModMultiple(d, e);
    var k := ModMultiple(n, d);
    assert n == e * (m * k);
    MultipleMod(e, m * k);
  }

  /** Every number from 2 up that is not prime has a prime divisor below it. */
  lemma {:induction false} PrimeDivisor(n: int) returns (d: int)
    requires n >= 2 && !IsPrime(n)
    ensures 2 <= d < n && n % d == 0 && IsPrime(d)
    decreases n
  {
    var e :| 2 <= e < n && n % e == 0;
    if IsPrime(e) {
      d := e;
    } else {
      d := PrimeDivisor(e);
      DividesTransitive(d, e, n);
    }
  }

  // --------------------------------------------------------- exponents_upto

  /** An entry of `exponents_upto(max_x)`: 3 and 4 when `max_x` reaches them,
      and every prime from 5 up to but not including `max_x`. */
  predicate Listed(v: int, maxx: int)
  {
    (v == 3 && maxx >= 3) || (v == 4 && maxx >= 4) || (5 <= v < maxx && IsPrime(v))
  }

  predicate Increasing(s: seq<int>)
  {
    forall i, j :: 0 <= i < j < |s| ==> s[i] < s[j]
  }

  /** `not any(x % p == 0 for p in exponents)` */
  predicate NoDivisor(x: int, exps: seq<int>)
    requires forall i :: 0 <= i < |exps| ==> exps[i] > 0
  {
    forall i :: 0 <= i < |exps| ==> x % exps[i] != 0
  }

  /** `exponents_upto(max_x)`: 3 and 4, then the odd numbers below `max_x`
      that no earlier entry divides, which are exactly the primes there. */
  function ExponentsUpto(maxx: int): (r: seq<int>)
    ensures Increasing(r)
    ensures forall v :: v in r <==> Listed(v, maxx)
  {
    var init := if maxx >= 4 then [3, 4] else if maxx == 3 then [3] else [];
    ExponentsFrom(maxx, 5, init)
  }

  /** The loop of `exponents_upto` from the odd number `x` on. */
  function ExponentsFrom(maxx: int, x: int, exps: seq<int>): (r: seq<int>)
    requires x >= 5 && x % 2 == 1
    requires Increasing(exps) && forall v :: v in exps <==> Listed(v, maxx) && v < x
    ensures Increasing(r)
    ensures forall v :: v in r <==> Listed(v, maxx)
    decreases maxx - x
  {
    if x >= maxx then exps
    else
      assert forall i :: 0 <= i < |exps| ==> exps[i] > 0 by {
        forall i | 0 <= i < |exps| ensures exps[i] > 0 {
          assert exps[i] in exps;
          assert Listed(exps[i], maxx);
        }
      }
      PrimeIffNoDivisor(maxx, x, exps);
      assert !IsPrime(x + 1) by {
        assert (x + 1) % 2 == 0;
      }
      var next := if NoDivisor(x, exps) then exps + [x] else exps;
      assert Increasing(next) by {
        forall i | 0 <= i < |exps| ensures exps[i] < x {
          assert exps[i] in exps;
        }
      }
      ExponentsFrom(maxx, x + 2, next)
  }

  /** At an odd `x` from 5 up, no earlier entry divides `x` exactly when `x`
      is prime: an odd composite has an odd prime divisor below it. */
  lemma PrimeIffNoDivisor(maxx: int, x: int, exps: seq<int>)
    requires 5 <= x < maxx && x % 2 == 1
    requires forall v :: v in exps <==> Listed(v, maxx) && v < x
    requires forall i :: 0 <= i < |exps| ==> exps[i] > 0
    ensures NoDivisor(x, exps) <==> IsPrime(x)
  {
    if IsPrime(x) {
      forall i | 0 <= i < |exps| ensures x % exps[i] != 0 {
        assert exps[i] in exps;
      }
    } else {
      var d := PrimeDivisor(x);
      assert d != 2 && d != 4;
      assert d in exps;
      var i :| 0 <= i < |exps| && exps[i] == d;
    }
  }

  /** The script's own checks of `exponents_upto`. */
  lemma ExponentsExamples()
    ensures ExponentsUpto(2) == [] && ExponentsUpto(3) == [3] && ExponentsUpto(4) == [3, 4]
  {
  }

  // ------------------------------------------------------------- the tables

  /** The exponents tried for base `a`: just 3 for base 1. */
  function ExponentsFor(a: int, maxx: int): (r: seq<int>)
    ensures forall i :: 0 <= i < |r| ==> r[i] >= 3
  {
    if a != 1 then
      var e := ExponentsUpto(maxx);
      assert forall i :: 0 <= i < |e| ==> Listed(e[i], maxx) by {
        forall i | 0 <= i < |e| ensures Listed(e[i], maxx) {
          assert e[i] in e;
        }
      }
      e
    else [3]
  }

  /** `x` is an exponent tried for base `a`. */
  predicate Tried(a: int, x: int, maxx: int)
  {
    if a != 1 then Listed(x, maxx) else x == 3
  }

  lemma TriedIsListed(a: int, x: int, maxx: int)
    ensures x in ExponentsFor(a, maxx) <==> Tried(a, x, maxx)
  {
  }

  /** `[A ** x for x in exps]` */
  function Powers(a: int, exps: seq<int>): (r: seq<int>)
    requires forall i :: 0 <= i < |exps| ==> exps[i] >= 0
    ensures |r| == |exps| && forall i :: 0 <= i < |exps| ==> r[i] == Pow(a, exps[i])
  {
    seq(|exps|, i requires 0 <= i < |exps| => Pow(a, exps[i]))
  }

  /** `make_Apowers(max_A, max_x)`: every base from 1 to `max_A` with the list
      of its powers. */
  function MakeApowers(maxA: int, maxx: int): (m: map<int, seq<int>>)
    ensures forall a :: a in m <==> 1 <= a <= maxA
    ensures forall a, v :: a in m ==> (v in m[a] <==> exists x :: Tried(a, x, maxx) && v == Pow(a, x))
  {
    var m := map a | 1 <= a <= maxA :: Powers(a, ExponentsFor(a, maxx));
    forall a, v | a in m ensures v in m[a] <==> exists x :: Tried(a, x, maxx) && v == Pow(a, x) {
      var exps := ExponentsFor(a, maxx);
      if v in m[a] {
        var i :| 0 <= i < |exps| && m[a][i] == v;
        assert exps[i] in exps;
      }
      if x :| Tried(a, x, maxx) && v == Pow(a, x) {
        TriedIsListed(a, x, maxx);
        var i :| 0 <= i < |exps| && exps[i] == x;
        assert m[a][i] == v;
      }
    }
    m
  }

  /** `make_Czroots(Apowers)`, whose keys are the bases 1 to `n` in that
      order: every power listed maps to its base, and where two bases share
      a power the later (larger) base wins. */
  function MakeCzroots(ap: map<int, seq<int>>, n: int): (cz: map<int, int>)
    requires forall a :: 1 <= a <= n ==> a in ap
    ensures forall v :: v in cz <==> exists a :: 1 <= a <= n && v in ap[a]
    ensures forall v :: v in cz ==> 1 <= cz[v] <= n && v in ap[cz[v]]
    ensures forall a, v :: 1 <= a <= n && v in ap[a] ==> v in cz && a <= cz[v]
  {
    var cz := Roots(ap, n);
    forall v ensures v in cz <==> exists a :: 1 <= a <= n && v in ap[a] {
      if v in cz {
        RootsSound(ap, n, v);
      }
      if a :| 1 <= a <= n && v in ap[a] {
        RootsLast(ap, n, a, v);
      }
    }
    forall v | v in cz ensures 1 <= cz[v] <= n && v in ap[cz[v]] {
      RootsSound(ap, n, v);
    }
    forall a, v | 1 <= a <= n && v in ap[a] ensures v in cz && a <= cz[v] {
      RootsLast(ap, n, a, v);
    }
    cz
  }

  /** The dictionary comprehension of `make_Czroots` after the bases 1 to
      `n`: each later base overwrites the entries of the earlier ones. */
  function Roots(ap: map<int, seq<int>>, n: int): map<int, int>
    requires forall a :: 1 <= a <= n ==> a in ap
    decreases n
  {
    if n < 1 then map[] else Roots(ap, n - 1) + map v | v in ap[n] :: n
  }

  lemma {:induction false} RootsSound(ap: map<int, seq<int>>, n: int, v: int)
    requires forall a :: 1 <= a <= n ==> a in ap
    requires v in Roots(ap, n)
    ensures 1 <= Roots(ap, n)[v] <= n && v in ap[Roots(ap, n)[v]]
    decreases n
  {
    if v !in ap[n] {
      RootsSound(ap, n - 1, v);
    }
  }

  lemma {:induction false} RootsLast(ap: map<int, seq<int>>, n: int, a: int, v: int)
    requires forall b :: 1 <= b <= n ==> b in ap
    requires 1 <= a <= n && v in ap[a]
    ensures v in Roots(ap, n) && a <= Roots(ap, n)[v]
    decreases n
  {
    if v !in ap[n] {
      RootsLast(ap, n - 1, a, v);
    }
  }

  /** `pow(A, x, p)`, for a positive modulus. */
  function PowMod(a: int, x: nat, p: int): (r: int)
    requires p > 0
    ensures 0 <= r < p
  {
    Pow(a, x) % p
  }

  /** `make_Apowers_modp(max_A, max_x, p)`: every base with its list of
      (power mod `p`, exponent) pairs. */
  function MakeApowersModp(maxA: int, maxx: int, p: int): (m: map<int, seq<(int, nat)>>)
    requires p > 0
    ensures forall a :: a in m <==> 1 <= a <= maxA
    ensures forall a, v, x :: a in m ==> ((v, x) in m[a] <==> Tried(a, x, maxx) && v == PowMod(a, x, p))
  {
    var m := map a | 1 <= a <= maxA ::
      var exps := ExponentsFor(a, maxx);
      seq(|exps|, i requires 0 <= i < |exps| => (PowMod(a, exps[i], p), exps[i] as nat));
    forall a, v, x | a in m ensures (v, x) in m[a] <==> Tried(a, x, maxx) && v == PowMod(a, x, p) {
      var exps := ExponentsFor(a, maxx);
      TriedIsListed(a, x, maxx);
      if (v, x) in m[a] {
        var i :| 0 <= i < |exps| && m[a][i] == (v, x);
        assert exps[i] in exps;
      }
      if Tried(a, x, maxx) && v == PowMod(a, x, p) {
        var i :| 0 <= i < |exps| && exps[i] == x;
        assert m[a][i] == (v, x);
      }
    }
    m
  }

  /** `make_Czroots_modp(Apowers)` over the bases 1 to `n`: a multimap from
      each residue to the (base, exponent) pairs that leave it. */
  function MakeCzrootsModp(ap: map<int, seq<(int, nat)>>, n: int): (cz: map<int, seq<(int, nat)>>)
    requires forall a :: 1 <= a <= n ==> a in ap
    ensures forall v :: v in cz ==> cz[v] != []
    ensures forall v, c, z :: (c, z) in Get(cz, v) <==> 1 <= c <= n && (v, z) in ap[c]
    decreases n
  {
    if n < 1 then map[]
    else
      var prior := MakeCzrootsModp(ap, n - 1);
      AppendAll(prior, n, ap[n])
  }

  /** The residues of a missing key: `Czroots[Czp]` on the `defaultdict`. */
  function Get(cz: map<int, seq<(int, nat)>>, v: int): seq<(int, nat)>
  {
    if v in cz then cz[v] else []
  }

  /** `for (Axp, x) in pairs: Czroots[Axp].append((A, x))` */
  function AppendAll(cz: map<int, seq<(int, nat)>>, a: int, pairs: seq<(int, nat)>): (r: map<int, seq<(int, nat)>>)
    requires forall v :: v in cz ==> cz[v] != []
    ensures forall v :: v in r ==> r[v] != []
    ensures forall v, c, z :: (c, z) in Get(r, v) <==> (c, z) in Get(cz, v) || (c == a && (v, z) in pairs)
    decreases |pairs|
  {
    if pairs == [] then cz
    else
      var v := pairs[0].0;
      var next := cz[v := Get(cz, v) + [(a, pairs[0].1)]];
      assert forall q :: q in pairs <==> q == pairs[0] || q in pairs[1..];
      AppendAll(next, a, pairs[1..])
  }

  // ------------------------------------------------------------- greatest common divisor

  /** `gcd(a, b)` by Euclid's algorithm. */
  function Gcd(a: nat, b: nat): nat
    decreases b
  {
    if b == 0 then a else Gcd(b, a % b)
  }

  lemma {:induction false} GcdDivides(a: nat, b: nat)
    requires a > 0 || b > 0
    ensures Gcd(a, b) > 0 && a % Gcd(a, b) == 0 && b % Gcd(a, b) == 0
    decreases b
  {
    if b == 0 {
      MultipleMod(a, 1);
      MultipleMod(a, 0);
    } else {
      var g := Gcd(b, a % b);
      GcdDivides(b, a % b);
      var u := ModMultiple(b, g);
      var w := ModMultiple(a % b, g);
      RemainderMultiple(a, b, g, u, w);
    }
  }

  /** If `g` divides `b` and `a % b`, it divides `a`. */
  lemma RemainderMultiple(a: int, b: int, g: int, u: int, w: int)
    requires b > 0 && g > 0 && b == g * u && a % b == g * w
    ensures a % g == 0
  {
    var q := a / b;
    assert a == b * q + a % b;
    assert b * q == g * (u * q);
    assert a == g * (u * q + w);
    MultipleMod(g, u * q + w);
  }

  lemma {:induction false} GcdGreatest(a: nat, b: nat, d: int)
    requires d > 0 && a % d == 0 && b % d == 0
    ensures Gcd(a, b) % d == 0
    decreases b
  {
    if b != 0 {
      var s := ModMultiple(a, d);
      var t := ModMultiple(b, d);
      assert a % b == d * (s - t * (a / b)) by {
        assert a % b == a - b * (a / b);
        assert b * (a / b) == d * (t * (a / b));
      }
      MultipleMod(d, s - t * (a / b));
      GcdGreatest(b, a % b, d);
    }
  }

  /** `gcd(A, B) == 1` holds exactly when no number from 2 up divides both. */
  lemma Coprime(a: nat, b: nat)
    requires a > 0 || b > 0
    ensures Gcd(a, b) == 1 <==> forall d :: d >= 2 ==> !(a % d == 0 && b % d == 0)
  {
    GcdDivides(a, b);
    if Gcd(a, b) == 1 {
      forall d | d >= 2 ensures !(a % d == 0 && b % d == 0) {
        if a % d == 0 && b % d == 0 {
          GcdGreatest(a, b, d);
        }
      }
    }
  }

  /** The script's own checks of `gcd`. */
  lemma GcdExamples()
    ensures Gcd(3, 6) == 3 && Gcd(3, 7) == 1
  {
  }

  // ----------------------------------------------------------------- iteration

  /** The items of `f(x)` for each `x` in turn: a nested loop. */
  function FlatMap<X, T>(xs: seq<X>, f: X -> seq<T>): seq<T>
  {
    if xs == [] then [] else f(xs[0]) + FlatMap(xs[1..], f)
  }

  lemma {:induction false} FlatMapMember<X, T>(xs: seq<X>, f: X -> seq<T>, t: T)
    ensures t in FlatMap(xs, f) <==> exists i :: 0 <= i < |xs| && t in f(xs[i])
  {
    if xs != [] {
      FlatMapMember(xs[1..], f, t);
      if i :| 1 <= i < |xs| && t in f(xs[i]) {
        assert xs[1..][i - 1] == xs[i];
      }
      if j :| 0 <= j < |xs[1..]| && t in f(xs[1..][j]) {
        assert xs[1..][j] == xs[j + 1];
      }
    }
  }

  /** The position whose items contain a given item of a `FlatMap`. */
  lemma FlatMapPick<X, T>(xs: seq<X>, f: X -> seq<T>, t: T) returns (i: int)
    requires t in FlatMap(xs, f)
    ensures 0 <= i < |xs| && t in f(xs[i])
  {
    FlatMapMember(xs, f, t);
    i :| 0 <= i < |xs| && t in f(xs[i]);
  }

  /** `combinations(range(lo, n + 1), 2)`, in order. */
  function PairsFrom(lo: int, n: int): seq<(int, int)>
    decreases n - lo
  {
    if lo > n then [] else seq(n - lo, k requires 0 <= k < n - lo => (lo, lo + 1 + k)) + PairsFrom(lo + 1, n)
  }

  lemma {:induction false} PairsMember(lo: int, n: int, a: int, b: int)
    ensures (a, b) in PairsFrom(lo, n) <==> lo <= a < b <= n
    decreases n - lo
  {
    if lo <= n {
      PairsMember(lo + 1, n, a, b);
      var first := seq(n - lo, k requires 0 <= k < n - lo => (lo, lo + 1 + k));
      if a == lo && a < b <= n {
        assert first[b - lo - 1] == (a, b);
      }
    }
  }

  /** `product(xs, ys)`, in order. */
  function Product<X, Y>(xs: seq<X>, ys: seq<Y>): seq<(X, Y)>
  {
    FlatMap(xs, x => seq(|ys|, j requires 0 <= j < |ys| => (x, ys[j])))
  }

  lemma ProductMember<X, Y>(xs: seq<X>, ys: seq<Y>, x: X, y: Y)
    ensures (x, y) in Product(xs, ys) <==> x in xs && y in ys
  {
    var f := (x: X) => seq(|ys|, j requires 0 <= j < |ys| => (x, ys[j]));
    FlatMapMember(xs, f, (x, y));
    if x in xs && y in ys {
      var i :| 0 <= i < |xs| && xs[i] == x;
      var j :| 0 <= j < |ys| && ys[j] == y;
      assert f(xs[i])[j] == (x, y);
    }
  }

  /** A table entry, or nothing for a base the table does not have. */
  function Row<T>(ap: map<int, seq<T>>, a: int): seq<T>
  {
    if a in ap then ap[a] else []
  }

  // -------------------------------------------------------------------- beal

  /** One printed line of `beal`: `A ** x + B ** y == C ** z`, given by the
      powers themselves (the script recovers the exponents with a
      floating-point logarithm). */
  datatype Report = Report(a: int, pa: int, b: int, pb: int, c: int)
  {
    /** The left-hand side `Ax + By`. */
    function Sum(): int { pa + pb }
  }

  /** `v` is a power of `c` that the tables list. */
  ghost predicate PowerOf(v: int, c: int, maxx: int)
  {
    exists z :: Tried(c, z, maxx) && v == Pow(c, z)
  }

  /** `Czroots[v] == c`: `v` is a listed power of `c`, and of no larger base. */
  ghost predicate RootOf(v: int, c: int, maxA: int, maxx: int)
  {
    1 <= c <= maxA && PowerOf(v, c, maxx) && forall e :: c < e <= maxA ==> !PowerOf(v, e, maxx)
  }

  /** What `beal` reports: coprime bases `A < B` with listed powers whose sum
      is a listed power of the base the root table gives. */
  ghost predicate BealReport(maxA: int, maxx: int, r: Report)
  {
    1 <= r.a < r.b <= maxA && Gcd(r.a, r.b) == 1
    && PowerOf(r.pa, r.a, maxx) && PowerOf(r.pb, r.b, maxx)
    && RootOf(r.Sum(), r.c, maxA, maxx)
  }

  /** The body of the inner loop: report `Ax + By` when the root table has it. */
  function Check(cz: map<int, int>, a: int, b: int): ((int, int)) -> seq<Report>
  {
    (v: (int, int)) => if v.0 + v.1 in cz then [Report(a, v.0, b, v.1, cz[v.0 + v.1])] else []
  }

  /** The reports for one pair of bases: `for (Ax, By) in product(...)`. */
  function PairReports(ap: map<int, seq<int>>, cz: map<int, int>, a: int, b: int): seq<Report>
  {
    FlatMap(Product(Row(ap, a), Row(ap, b)), Check(cz, a, b))
  }

  lemma PairReportsMember(ap: map<int, seq<int>>, cz: map<int, int>, a: int, b: int, r: Report)
    ensures r in PairReports(ap, cz, a, b) <==>
      r.a == a && r.b == b && r.pa in Row(ap, a) && r.pb in Row(ap, b) && r.Sum() in cz && r.c == cz[r.Sum()]
  {
    var prod := Product(Row(ap, a), Row(ap, b));
    FlatMapMember(prod, Check(cz, a, b), r);
    ProductMember(Row(ap, a), Row(ap, b), r.pa, r.pb);
    if r in PairReports(ap, cz, a, b) {
      var j :| 0 <= j < |prod| && r in Check(cz, a, b)(prod[j]);
      CheckMember(cz, a, b, prod[j], r);
      assert prod[j] in prod;
    }
    if r.a == a && r.b == b && r.pa in Row(ap, a) && r.pb in Row(ap, b) && r.Sum() in cz && r.c == cz[r.Sum()] {
      var j :| 0 <= j < |prod| && prod[j] == (r.pa, r.pb);
      CheckMember(cz, a, b, prod[j], r);
    }
  }

  /** What one `(Ax, By)` pair reports. */
  lemma CheckMember(cz: map<int, int>, a: int, b: int, v: (int, int), r: Report)
    ensures r in Check(cz, a, b)(v) <==>
      r == Report(a, v.0, b, v.1, r.c) && v.0 + v.1 in cz && r.c == cz[v.0 + v.1]
  {
  }

  /** The body of the outer loop: the reports of a coprime pair. */
  function ForPair(ap: map<int, seq<int>>, cz: map<int, int>): ((int, int)) -> seq<Report>
  {
    (ab: (int, int)) => if ab.0 >= 0 && ab.1 >= 0 && Gcd(ab.0, ab.1) == 1 then PairReports(ap, cz, ab.0, ab.1) else []
  }

  lemma SearchMember(ap: map<int, seq<int>>, cz: map<int, int>, n: int, r: Report)
    ensures r in FlatMap(PairsFrom(1, n), ForPair(ap, cz)) <==>
      1 <= r.a < r.b <= n && Gcd(r.a, r.b) == 1 && r in PairReports(ap, cz, r.a, r.b)
  {
    var pairs := PairsFrom(1, n);
    FlatMapMember(pairs, ForPair(ap, cz), r);
    PairsMember(1, n, r.a, r.b);
    if i :| 0 <= i < |pairs| && r in ForPair(ap, cz)(pairs[i]) {
      PairsMember(1, n, pairs[i].0, pairs[i].1);
      PairReportsMember(ap, cz, pairs[i].0, pairs[i].1, r);
    }
    if 1 <= r.a < r.b <= n && Gcd(r.a, r.b) == 1 && r in PairReports(ap, cz, r.a, r.b) {
      var i :| 0 <= i < |pairs| && pairs[i] == (r.a, r.b);
      assert r in ForPair(ap, cz)(pairs[i]);
    }
  }

  /** `beal(max_A, max_x)`, its printed lines returned in order. */
  function BealSearch(maxA: int, maxx: int): seq<Report>
  {
    var ap := MakeApowers(maxA, maxx);
    FlatMap(PairsFrom(1, maxA), ForPair(ap, MakeCzroots(ap, maxA)))
  }

  /** `beal` reports exactly the solutions the tables allow: each report is
      a true equation `A ** x + B ** y == C ** z` with coprime `A < B`, and
      every such equation whose `C` is the root table's entry is reported. */
  lemma BealReports(maxA: int, maxx: int, r: Report)
    ensures r in BealSearch(maxA, maxx) <==> BealReport(maxA, maxx, r)
  {
    if r in BealSearch(maxA, maxx) {
      BealSound(maxA, maxx, r);
    }
    if BealReport(maxA, maxx, r) {
      BealComplete(maxA, maxx, r);
    }
  }

  lemma BealSound(maxA: int, maxx: int, r: Report)
    requires r in BealSearch(maxA, maxx)
    ensures BealReport(maxA, maxx, r)
  {
    var ap := MakeApowers(maxA, maxx);
    var cz := MakeCzroots(ap, maxA);
    SearchMember(ap, cz, maxA, r);
    SoundPowers(maxA, maxx, r);
    SoundRoot(maxA, maxx, r);
  }

  /** The powers a report of a pair of bases adds are listed powers. */
  lemma SoundPowers(maxA: int, maxx: int, r: Report)
    requires 1 <= r.a < r.b <= maxA
    requires r in PairReports(MakeApowers(maxA, maxx), MakeCzroots(MakeApowers(maxA, maxx), maxA), r.a, r.b)
    ensures PowerOf(r.pa, r.a, maxx) && PowerOf(r.pb, r.b, maxx)
  {
    var ap := MakeApowers(maxA, maxx);
    PairReportsMember(ap, MakeCzroots(ap, maxA), r.a, r.b, r);
    InPowers(maxA, maxx, r.a, r.pa);
    InPowers(maxA, maxx, r.b, r.pb);
  }

  /** The base a report of a pair of bases gives is the root of the sum. */
  lemma SoundRoot(maxA: int, maxx: int, r: Report)
    requires 1 <= r.a < r.b <= maxA
    requires r in PairReports(MakeApowers(maxA, maxx), MakeCzroots(MakeApowers(maxA, maxx), maxA), r.a, r.b)
    ensures RootOf(r.Sum(), r.c, maxA, maxx)
  {
    var ap := MakeApowers(maxA, maxx);
    ReportedSum(ap, MakeCzroots(ap, maxA), r);
    CzRoot(maxA, maxx, r.Sum(), r.c);
  }

  /** A report names the root table's entry for its sum. */
  lemma ReportedSum(ap: map<int, seq<int>>, cz: map<int, int>, r: Report)
    requires r in PairReports(ap, cz, r.a, r.b)
    ensures r.Sum() in cz && cz[r.Sum()] == r.c
  {
    PairReportsMember(ap, cz, r.a, r.b, r);
  }

  /** An entry of the root table names the root of its key. */
  lemma CzRoot(maxA: int, maxx: int, v: int, c: int)
    requires var cz := MakeCzroots(MakeApowers(maxA, maxx), maxA); v in cz && cz[v] == c
    ensures RootOf(v, c, maxA, maxx)
  {
    CzLookup(maxA, maxx, v, c);
  }

  lemma BealComplete(maxA: int, maxx: int, r: Report)
    requires BealReport(maxA, maxx, r)
    ensures r in BealSearch(maxA, maxx)
  {
    var ap := MakeApowers(maxA, maxx);
    var cz := MakeCzroots(ap, maxA);
    InPowers(maxA, maxx, r.a, r.pa);
    InPowers(maxA, maxx, r.b, r.pb);
    CzLookup(maxA, maxx, r.Sum(), r.c);
    PairReportsMember(ap, cz, r.a, r.b, r);
    assert r in PairReports(ap, cz, r.a, r.b);
    SearchMember(ap, cz, maxA, r);
  }

  /** The root table gives `c` for `v` exactly when `c` is the largest base
      with `v` among its listed powers. */
  lemma CzLookup(maxA: int, maxx: int, v: int, c: int)
    ensures var cz := MakeCzroots(MakeApowers(maxA, maxx), maxA);
      v in cz && cz[v] == c <==> RootOf(v, c, maxA, maxx)
  {
    var ap := MakeApowers(maxA, maxx);
    var cz := MakeCzroots(ap, maxA);
    if v in cz && cz[v] == c {
      InPowers(maxA, maxx, c, v);
      forall e | c < e <= maxA ensures !PowerOf(v, e, maxx) {
        InPowers(maxA, maxx, e, v);
      }
    }
    if RootOf(v, c, maxA, maxx) {
      InPowers(maxA, maxx, c, v);
      InPowers(maxA, maxx, cz[v], v);
    }
  }

  lemma InPowers(maxA: int, maxx: int, a: int, v: int)
    requires 1 <= a <= maxA
    ensures a in MakeApowers(maxA, maxx) && (v in MakeApowers(maxA, maxx)[a] <==> PowerOf(v, a, maxx))
  {
  }

  // --------------------------------------------------------------- beal_modp

  /** One printed line of `beal_modp`: `A ** x + B ** y == C ** z`. */
  datatype ModReport = ModReport(a: int, x: nat, b: int, y: nat, c: int, z: nat)

  /** A solution within the search's bounds: coprime bases `A < B`, listed
      exponents, a base `C` up to `max_A`, and an exact equation. */
  predicate Solution(maxA: int, maxx: int, r: ModReport)
  {
    1 <= r.a < r.b <= maxA && Gcd(r.a, r.b) == 1
    && Tried(r.a, r.x, maxx) && Tried(r.b, r.y, maxx)
    && 1 <= r.c <= maxA && Tried(r.c, r.z, maxx)
    && Pow(r.a, r.x) + Pow(r.b, r.y) == Pow(r.c, r.z)
  }

  /** `for (C, z) in Czroots[Czp]: if lhs == C ** z: print(...)` */
  function Exact(a: int, x: nat, b: int, y: nat): ((int, nat)) -> seq<ModReport>
  {
    (cz: (int, nat)) => if Pow(a, x) + Pow(b, y) == Pow(cz.0, cz.1) then [ModReport(a, x, b, y, cz.0, cz.1)] else []
  }

  /** A report of the exact check comes from a listed root and is a true equation. */
  lemma ExactSound(a: int, x: nat, b: int, y: nat, roots: seq<(int, nat)>, r: ModReport)
    requires r in FlatMap(roots, Exact(a, x, b, y))
    ensures r.a == a && r.x == x && r.b == b && r.y == y && (r.c, r.z) in roots
    ensures Pow(a, x) + Pow(b, y) == Pow(r.c, r.z)
  {
    var j := FlatMapPick(roots, Exact(a, x, b, y), r);
    assert roots[j] in roots;
  }

  /** Every listed root that completes a true equation is reported. */
  lemma ExactComplete(a: int, x: nat, b: int, y: nat, roots: seq<(int, nat)>, r: ModReport)
    requires r.a == a && r.x == x && r.b == b && r.y == y && (r.c, r.z) in roots
    requires Pow(a, x) + Pow(b, y) == Pow(r.c, r.z)
    ensures r in FlatMap(roots, Exact(a, x, b, y))
  {
    var j :| 0 <= j < |roots| && roots[j] == (r.c, r.z);
    assert r in Exact(a, x, b, y)(roots[j]);
    FlatMapMember(roots, Exact(a, x, b, y), r);
  }

  /** `(Axp + Byp) % p`: the residue of a sum of two residues. */
  function SumMod(u: int, w: int, p: int): int
    requires p > 0
  {
    (u + w) % p
  }

  /** The body of the inner loop: look up the residue of the sum, then check
      each candidate root exactly. */
  function CheckModp(cz: map<int, seq<(int, nat)>>, p: int, a: int, b: int): (((int, nat), (int, nat))) -> seq<ModReport>
  {
    (v: ((int, nat), (int, nat))) =>
      if p <= 0 then []
      else
        var czp := SumMod(v.0.0, v.1.0, p);
        if czp in cz then FlatMap(cz[czp], Exact(a, v.0.1, b, v.1.1)) else []
  }

  lemma CheckModpAt(cz: map<int, seq<(int, nat)>>, p: int, a: int, b: int, v: ((int, nat), (int, nat)))
    requires p > 0
    ensures CheckModp(cz, p, a, b)(v) == FlatMap(Get(cz, SumMod(v.0.0, v.1.0, p)), Exact(a, v.0.1, b, v.1.1))
  {
  }

  /** The reports for one pair of bases. */
  function ModPairReports(ap: map<int, seq<(int, nat)>>, cz: map<int, seq<(int, nat)>>, p: int, a: int, b: int): seq<ModReport>
  {
    FlatMap(Product(Row(ap, a), Row(ap, b)), CheckModp(cz, p, a, b))
  }

  /** A report of one pair comes from a row entry of each base whose
      residues sum to the residue of the root, and its equation holds. */
  lemma ModPairSound(ap: map<int, seq<(int, nat)>>, cz: map<int, seq<(int, nat)>>, p: int, a: int, b: int, r: ModReport)
      returns (u: int, w: int)
    requires p > 0 && r in ModPairReports(ap, cz, p, a, b)
    ensures r.a == a && r.b == b && Pow(a, r.x) + Pow(b, r.y) == Pow(r.c, r.z)
    ensures (u, r.x) in Row(ap, a) && (w, r.y) in Row(ap, b) && (r.c, r.z) in Get(cz, SumMod(u, w, p))
  {
    var prod := Product(Row(ap, a), Row(ap, b));
    var f := CheckModp(cz, p, a, b);
    var j := FlatMapPick(prod, f, r);
    var v := prod[j];
    u, w := v.0.0, v.1.0;
    assert v in prod;
    ProductMember(Row(ap, a), Row(ap, b), v.0, v.1);
    CheckModpAt(cz, p, a, b, v);
    ExactSound(a, v.0.1, b, v.1.1, Get(cz, SumMod(u, w, p)), r);
  }

  /** Every exact equation whose residues are found in the tables is reported. */
  lemma ModPairComplete(ap: map<int, seq<(int, nat)>>, cz: map<int, seq<(int, nat)>>, p: int, a: int, b: int, r: ModReport, u: int, w: int, k: int)
    requires p > 0 && r.a == a && r.b == b && Pow(a, r.x) + Pow(b, r.y) == Pow(r.c, r.z)
    requires (u, r.x) in Row(ap, a) && (w, r.y) in Row(ap, b) && k == SumMod(u, w, p) && (r.c, r.z) in Get(cz, k)
    ensures r in ModPairReports(ap, cz, p, a, b)
  {
    var prod := Product(Row(ap, a), Row(ap, b));
    var f := CheckModp(cz, p, a, b);
    ProductMember(Row(ap, a), Row(ap, b), (u, r.x), (w, r.y));
    var j :| 0 <= j < |prod| && prod[j] == ((u, r.x), (w, r.y));
    ExactComplete(a, r.x, b, r.y, Get(cz, SumMod(u, w, p)), r);
    CheckModpAt(cz, p, a, b, prod[j]);
    assert r in f(prod[j]);
    FlatMapMember(prod, f, r);
  }

  /** The body of the outer loop: the reports of a coprime pair. */
  function ForModPair(ap: map<int, seq<(int, nat)>>, cz: map<int, seq<(int, nat)>>, p: int): ((int, int)) -> seq<ModReport>
  {
    (ab: (int, int)) => if ab.0 >= 0 && ab.1 >= 0 && Gcd(ab.0, ab.1) == 1 then ModPairReports(ap, cz, p, ab.0, ab.1) else []
  }

  lemma ModSearchMember(ap: map<int, seq<(int, nat)>>, cz: map<int, seq<(int, nat)>>, p: int, n: int, r: ModReport)
    requires p > 0
    ensures r in FlatMap(PairsFrom(1, n), ForModPair(ap, cz, p)) <==>
      1 <= r.a < r.b <= n && Gcd(r.a, r.b) == 1 && r in ModPairReports(ap, cz, p, r.a, r.b)
  {
    var pairs := PairsFrom(1, n);
    FlatMapMember(pairs, ForModPair(ap, cz, p), r);
    PairsMember(1, n, r.a, r.b);
    if i :| 0 <= i < |pairs| && r in ForModPair(ap, cz, p)(pairs[i]) {
      PairsMember(1, n, pairs[i].0, pairs[i].1);
      var _, _ := ModPairSound(ap, cz, p, pairs[i].0, pairs[i].1, r);
    }
    if 1 <= r.a < r.b <= n && Gcd(r.a, r.b) == 1 && r in ModPairReports(ap, cz, p, r.a, r.b) {
      var i :| 0 <= i < |pairs| && pairs[i] == (r.a, r.b);
      assert r in ForModPair(ap, cz, p)(pairs[i]);
    }
  }

  /** `beal_modp(max_A, max_x, p)`, its printed lines returned in order; a
      modulus below `max_A` fails the opening assertion. */
  function BealModp(maxA: int, maxx: int, p: int): (r: Result<seq<ModReport>>)
    ensures r.Error? <==> p < maxA
    ensures r.Error? ==> r == Error("AssertionError")
  {
    if p < maxA then Error("AssertionError")
    else if maxA < 1 then Ok([])
    else
      var ap := MakeApowersModp(maxA, maxx, p);
      Ok(FlatMap(PairsFrom(1, maxA), ForModPair(ap, MakeCzrootsModp(ap, maxA), p)))
  }

  /** `beal_modp` reports exactly the true equations in its range: the
      residue filter lets every solution through, and the exact check
      keeps out everything else. */
  lemma BealModpReports(maxA: int, maxx: int, p: int, r: ModReport)
    requires p >= maxA
    ensures r in BealModp(maxA, maxx, p).value <==> Solution(maxA, maxx, r)
  {
    if maxA >= 1 {
      if r in BealModp(maxA, maxx, p).value {
        ModpSound(maxA, maxx, p, r);
      }
      if Solution(maxA, maxx, r) {
        ModpComplete(maxA, maxx, p, r);
      }
    }
  }

  lemma ModpSound(maxA: int, maxx: int, p: int, r: ModReport)
    requires 1 <= maxA <= p && r in BealModp(maxA, maxx, p).value
    ensures Solution(maxA, maxx, r)
  {
    var ap := MakeApowersModp(maxA, maxx, p);
    var cz := MakeCzrootsModp(ap, maxA);
    ModSearchMember(ap, cz, p, maxA, r);
    var u, w := ModPairSound(ap, cz, p, r.a, r.b, r);
    assert (u, r.x) in ap[r.a] && (w, r.y) in ap[r.b];
    assert 1 <= r.c <= maxA && (SumMod(u, w, p), r.z) in ap[r.c];
  }

  lemma ApModpEntry(maxA: int, maxx: int, p: int, a: int, x: nat)
    requires p > 0 && 1 <= a <= maxA && Tried(a, x, maxx)
    ensures (PowMod(a, x, p), x) in Row(MakeApowersModp(maxA, maxx, p), a)
  {
  }

  lemma CzModpEntry(ap: map<int, seq<(int, nat)>>, n: int, v: int, c: int, z: nat)
    requires forall a :: 1 <= a <= n ==> a in ap
    requires 1 <= c <= n && (v, z) in Row(ap, c)
    ensures (c, z) in Get(MakeCzrootsModp(ap, n), v)
  {
  }

  /** A true equation survives the residue filter: the residues of its two
      powers add up to the residue of its root. */
  lemma ResidueSum(a: int, x: nat, b: int, y: nat, c: int, z: nat, p: int) returns (k: int)
    requires p > 0 && Pow(a, x) + Pow(b, y) == Pow(c, z)
    ensures k == PowMod(c, z, p) && k == SumMod(PowMod(a, x, p), PowMod(b, y, p), p)
  {
    ModAdd(Pow(a, x), Pow(b, y), p);
    k := PowMod(c, z, p);
  }

  lemma ModpComplete(maxA: int, maxx: int, p: int, r: ModReport)
    requires 1 <= maxA <= p && Solution(maxA, maxx, r)
    ensures r in BealModp(maxA, maxx, p).value
  {
    var ap := MakeApowersModp(maxA, maxx, p);
    var cz := MakeCzrootsModp(ap, maxA);
    ModpPair(maxA, maxx, p, r);
    ModSearchMember(ap, cz, p, maxA, r);
  }

  /** A solution is among the reports of its own pair of bases. */
  lemma ModpPair(maxA: int, maxx: int, p: int, r: ModReport)
    requires 1 <= maxA <= p && Solution(maxA, maxx, r)
    ensures var ap := MakeApowersModp(maxA, maxx, p);
      r in ModPairReports(ap, MakeCzrootsModp(ap, maxA), p, r.a, r.b)
  {
    var ap := MakeApowersModp(maxA, maxx, p);
    var _ := ResidueSum(r.a, r.x, r.b, r.y, r.c, r.z, p);
    var u, w, k := ModpRoute(maxA, maxx, p, r.a, r.x, r.b, r.y, r.c, r.z);
    ModPairComplete(ap, MakeCzrootsModp(ap, maxA), p, r.a, r.b, r, u, w, k);
  }

  /** The table entries an equation whose residues agree passes through: a
      row entry for each of its two powers, and its root under the residue
      of their sum. */
  lemma ModpRoute(maxA: int, maxx: int, p: int, a: int, x: nat, b: int, y: nat, c: int, z: nat) returns (u: int, w: int, k: int)
    requires p > 0 && 1 <= a <= maxA && 1 <= b <= maxA && 1 <= c <= maxA
    requires Tried(a, x, maxx) && Tried(b, y, maxx) && Tried(c, z, maxx)
    requires SumMod(PowMod(a, x, p), PowMod(b, y, p), p) == PowMod(c, z, p)
    ensures k == SumMod(u, w, p)
    ensures var ap := MakeApowersModp(maxA, maxx, p);
      && (u, x) in Row(ap, a) && (w, y) in Row(ap, b)
      && (c, z) in Get(MakeCzrootsModp(ap, maxA), k)
  {
    var ap := MakeApowersModp(maxA, maxx, p);
    ApModpEntry(maxA, maxx, p, a, x);
    ApModpEntry(maxA, maxx, p, b, y);
    ApModpEntry(maxA, maxx, p, c, z);
    u, w, k := PowMod(a, x, p), PowMod(b, y, p), PowMod(c, z, p);
    CzModpEntry(ap, maxA, k, c, z);
  }
}
