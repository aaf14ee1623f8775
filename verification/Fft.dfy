/** The recursive strided fast Fourier transform and its inverse, over exact complex numbers. */
module Fft {

  // ---------------------------------------------------------------- complex numbers

  datatype Complex = Complex(re: real, im: real)

  const ZERO := Complex(0.0, 0.0)
  const ONE := Complex(1.0, 0.0)

  function Add(a: Complex, b: Complex): Complex {
    Complex(a.re + b.re, a.im + b.im)
  }

  function Sub(a: Complex, b: Complex): Complex {
    Complex(a.re - b.re, a.im - b.im)
  }

  function Mul(a: Complex, b: Complex): Complex {
    Complex(a.re * b.re - a.im * b.im, a.re * b.im + a.im * b.re)
  }

  function Neg(a: Complex): Complex {
    Complex(-a.re, -a.im)
  }

  /** A natural number as a complex one. */
  function Real(n: nat): Complex {
    Complex(n as real, 0.0)
  }

  lemma Additive(a: Complex, b: Complex, c: Complex, d: Complex)
    ensures Add(Add(a, b), Add(c, d)) == Add(Add(a, c), Add(b, d))
    ensures Add(a, ZERO) == a && Add(ZERO, a) == a
    ensures Add(a, Neg(b)) == Sub(a, b) && Add(a, Neg(a)) == ZERO
  {
  }

  lemma AddFour(a: Complex, b: Complex, c: Complex, d: Complex)
    ensures Add(Add(Add(a, b), c), d) == Add(Add(a, c), Add(b, d))
  {
  }

  lemma Commutes(a: Complex, b: Complex)
    ensures Mul(a, b) == Mul(b, a) && Mul(a, ONE) == a && Mul(a, ZERO) == ZERO && Mul(a, Neg(ONE)) == Neg(a)
    ensures Mul(a, Neg(b)) == Neg(Mul(a, b))
  {
  }

  lemma Associates(a: Complex, b: Complex, c: Complex)
    ensures Mul(a, Mul(b, c)) == Mul(Mul(a, b), c)
  {
    assert a.re * (b.re * c.re - b.im * c.im) - a.im * (b.re * c.im + b.im * c.re)
        == (a.re * b.re - a.im * b.im) * c.re - (a.re * b.im + a.im * b.re) * c.im;
    assert a.re * (b.re * c.im + b.im * c.re) + a.im * (b.re * c.re - b.im * c.im)
        == (a.re * b.re - a.im * b.im) * c.im + (a.re * b.im + a.im * b.re) * c.re;
  }

  lemma Distributes(a: Complex, b: Complex, c: Complex)
    ensures Mul(a, Add(b, c)) == Add(Mul(a, b), Mul(a, c))
  {
  }

  // ---------------------------------------------------------------- sums

  function Sum(f: int -> Complex, n: nat): Complex {
    if n == 0 then ZERO else Add(Sum(f, n - 1), f(n - 1))
  }

  lemma {:induction false} SumSame(f: int -> Complex, g: int -> Complex, n: nat)
    requires forall i :: 0 <= i < n ==> f(i) == g(i)
    ensures Sum(f, n) == Sum(g, n)
  {
    if n > 0 {
      SumSame(f, g, n - 1);
    }
  }

  lemma {:induction false} SumZero(f: int -> Complex, n: nat)
    requires forall i :: 0 <= i < n ==> f(i) == ZERO
    ensures Sum(f, n) == ZERO
  {
    if n > 0 {
      SumZero(f, n - 1);
    }
  }

  lemma {:induction false} SumAdd(f: int -> Complex, g: int -> Complex, h: int -> Complex, n: nat)
    requires forall i :: 0 <= i < n ==> h(i) == Add(f(i), g(i))
    ensures Sum(h, n) == Add(Sum(f, n), Sum(g, n))
  {
    if n > 0 {
      SumAdd(f, g, h, n - 1);
    }
  }

  lemma {:induction false} SumScale(c: Complex, f: int -> Complex, h: int -> Complex, n: nat)
    requires forall i :: 0 <= i < n ==> h(i) == Mul(c, f(i))
    ensures Sum(h, n) == Mul(c, Sum(f, n))
  {
    hide Add, Mul;
    if n == 0 {
      Commutes(c, c);
    } else {
      SumScale(c, f, h, n - 1);
      Distributes(c, Sum(f, n - 1), f(n - 1));
    }
  }

  /** The even and the odd terms. */
  lemma {:induction false} SumSplit(f: int -> Complex, e: int -> Complex, o: int -> Complex, n: nat)
    requires forall i :: 0 <= i < n ==> e(i) == f(2 * i) && o(i) == f(2 * i + 1)
    ensures Sum(f, 2 * n) == Add(Sum(e, n), Sum(o, n))
  {
    if n > 0 {
      SumSplit(f, e, o, n - 1);
      hide Add;
      assert Sum(f, 2 * n) == Add(Add(Sum(f, 2 * (n - 1)), f(2 * (n - 1))), f(2 * (n - 1) + 1));
      AddFour(Sum(e, n - 1), Sum(o, n - 1), e(n - 1), o(n - 1));
    }
  }

  /** The first m terms and the following n. */
  lemma {:induction false} SumConcat(f: int -> Complex, g: int -> Complex, m: nat, n: nat)
    requires forall i :: 0 <= i < n ==> g(i) == f(m + i)
    ensures Sum(f, m + n) == Add(Sum(f, m), Sum(g, n))
  {
    if n > 0 {
      SumConcat(f, g, m, n - 1);
      assert g(n - 1) == f(m + n - 1);
    }
  }

  /** A sum with one term that is not zero. */
  lemma {:induction false} SumOnly(f: int -> Complex, n: nat, k: nat)
    requires k < n && forall i :: 0 <= i < n && i != k ==> f(i) == ZERO
    ensures Sum(f, n) == f(k)
  {
    if k == n - 1 {
      SumZero(f, n - 1);
    } else {
      SumOnly(f, n - 1, k);
    }
  }

  /** The sum of row i of a table, and of column j. */
  function Row(f: (int, int) -> Complex, i: int, n: nat): Complex {
    Sum(j => f(i, j), n)
  }

  function Column(f: (int, int) -> Complex, j: int, m: nat): Complex {
    Sum(i => f(i, j), m)
  }

  lemma {:induction false} SumSwap(f: (int, int) -> Complex, rows: int -> Complex, columns: int -> Complex, m: nat, n: nat)
    requires forall i :: 0 <= i < m ==> rows(i) == Row(f, i, n)
    requires forall j :: 0 <= j < n ==> columns(j) == Column(f, j, m)
    ensures Sum(rows, m) == Sum(columns, n)
  {
    if n == 0 {
      SumZero(rows, m);
    } else {
      var before, last := i => Row(f, i, n - 1), i => f(i, n - 1);
      SumSwap(f, before, columns, m, n - 1);
      SumAdd(before, last, rows, m);
    }
  }

  // ---------------------------------------------------------------- roots of unity

  /** The library functions cos and sin and the constant TWO_PI, taken as exact. */
  datatype Trig = Trig(cos: real -> real, sin: real -> real, twoPi: real)

  /** The addition theorems and the values at 0 and pi. */
  ghost predicate Laws(t: Trig) {
    && (forall a, b :: t.cos(a + b) == t.cos(a) * t.cos(b) - t.sin(a) * t.sin(b))
    && (forall a, b :: t.sin(a + b) == t.sin(a) * t.cos(b) + t.cos(a) * t.sin(b))
    && t.cos(0.0) == 1.0 && t.sin(0.0) == 0.0
    && t.cos(t.twoPi / 2.0) == -1.0 && t.sin(t.twoPi / 2.0) == 0.0
  }

  lemma AdditionTheorems(t: Trig, a: real, b: real)
    requires Laws(t)
    ensures t.cos(a + b) == t.cos(a) * t.cos(b) - t.sin(a) * t.sin(b)
    ensures t.sin(a + b) == t.sin(a) * t.cos(b) + t.cos(a) * t.sin(b)
  {
  }

  /** The angle a / n of the full turn p. */
  function Turn(p: real, a: real, n: real): real
    requires n > 0.0
  {
    p * a / n
  }

  /** The root of unity exp(-2 pi i a / n). */
  function Root(t: Trig, n: nat, a: int): Complex
    requires 0 < n
  {
    var angle := Turn(t.twoPi, a as real, n as real);
    Complex(t.cos(angle), -t.sin(angle))
  }

  lemma RootAdd(t: Trig, n: nat, a: int, b: int)
    requires Laws(t) && 0 < n
    ensures Root(t, n, a + b) == Mul(Root(t, n, a), Root(t, n, b))
  {
    hide Laws, Turn;
    TurnAdd(t.twoPi, a as real, b as real, n as real);
    AdditionTheorems(t, Turn(t.twoPi, a as real, n as real), Turn(t.twoPi, b as real, n as real));
  }

  lemma TurnAdd(p: real, a: real, b: real, n: real)
    requires n > 0.0
    ensures Turn(p, a + b, n) == Turn(p, a, n) + Turn(p, b, n)
  {
    assert p * (a + b) == p * a + p * b;
  }

  lemma RootDouble(t: Trig, n: nat, a: int)
    requires 0 < n
    ensures Root(t, 2 * n, 2 * a) == Root(t, n, a)
  {
    hide Turn;
    TurnDouble(t.twoPi, a as real, n as real);
    assert (2 * n) as real == 2.0 * n as real && (2 * a) as real == 2.0 * a as real;
  }

  lemma TurnDouble(p: real, a: real, n: real)
    requires n > 0.0
    ensures Turn(p, 2.0 * a, 2.0 * n) == Turn(p, a, n)
  {
    var q := p * a / n;
    assert q * n == p * a;
    assert p * (2.0 * a) == q * (2.0 * n);
  }

  lemma RootZero(t: Trig, n: nat)
    requires Laws(t) && 0 < n
    ensures Root(t, n, 0) == ONE
  {
  }

  lemma RootHalf(t: Trig, m: nat)
    requires Laws(t) && 0 < m
    ensures Root(t, 2 * m, m) == Neg(ONE)
  {
    TurnHalf(t.twoPi, m as real);
    assert (2 * m) as real == 2.0 * m as real;
    hide Turn;
  }

  lemma TurnHalf(p: real, r: real)
    requires r > 0.0
    ensures Turn(p, r, 2.0 * r) == p / 2.0
  {
    assert p * r == p / 2.0 * (2.0 * r);
  }

  lemma MinusOneSquared()
    ensures Mul(Neg(ONE), Neg(ONE)) == ONE
  {
  }

  lemma RootWhole(t: Trig, m: nat)
    requires Laws(t) && 0 < m
    ensures Root(t, 2 * m, 2 * m) == ONE
  {
    hide *;
    RootHalf(t, m);
    RootAdd(t, 2 * m, m, m);
    MinusOneSquared();
  }

  /** A whole turn leads back. */
  lemma RootPeriod(t: Trig, m: nat, a: int)
    requires Laws(t) && 0 < m
    ensures Root(t, 2 * m, a + 2 * m) == Root(t, 2 * m, a)
  {
    hide *;
    RootWhole(t, m);
    RootAdd(t, 2 * m, a, 2 * m);
    Commutes(Root(t, 2 * m, a), ONE);
  }

  lemma {:induction false} RootTurns(t: Trig, m: nat, q: int)
    requires Laws(t) && 0 < m
    ensures Root(t, 2 * m, 2 * m * q) == ONE
    decreases if q < 0 then -q else q
  {
    hide Laws, Root, Turn;
    if q == 0 {
      RootZero(t, 2 * m);
    } else if q > 0 {
      RootTurns(t, m, q - 1);
      RootPeriod(t, m, 2 * m * (q - 1));
      assert 2 * m * (q - 1) + 2 * m == 2 * m * q;
    } else {
      RootTurns(t, m, q + 1);
      RootPeriod(t, m, 2 * m * q);
      assert 2 * m * q + 2 * m == 2 * m * (q + 1);
    }
  }

  // ---------------------------------------------------------------- the discrete Fourier transform

  /** How often sample j turns at frequency k. */
  function Phase(j: int, k: int): int {
    j * k
  }

  /** The terms of frequency k of the transform of s. */
  function Term(t: Trig, s: seq<Complex>, k: int): int -> Complex {
    j => if 0 <= j < |s| then Mul(s[j], Root(t, |s|, Phase(j, k))) else ZERO
  }

  /** The sum of s[j] * exp(-2 pi i j k / |s|). */
  function Dft(t: Trig, s: seq<Complex>, k: int): Complex {
    Sum(Term(t, s, k), |s|)
  }

  function Evens(s: seq<Complex>): seq<Complex> {
    seq(|s| / 2, j requires 0 <= j < |s| / 2 => s[2 * j])
  }

  function Odds(s: seq<Complex>): seq<Complex> {
    seq(|s| / 2, j requires 0 <= j < |s| / 2 => s[2 * j + 1])
  }

  lemma TermAt(t: Trig, s: seq<Complex>, k: int, j: int)
    requires 0 <= j < |s|
    ensures Term(t, s, k)(j) == Mul(s[j], Root(t, |s|, Phase(j, k)))
  {
  }

  lemma Phases(j: int, k: int, m: int)
    ensures Phase(2 * j, k) == 2 * Phase(j, k)
    ensures Phase(2 * j + 1, k) == 2 * Phase(j, k) + k
    ensures Phase(j, k + m) == Phase(j, k) + m * j
    ensures Phase(0, k) == 0
  {
  }

  /** The even terms of a transform are the terms of the transform of the even samples. */
  lemma EvenTerm(t: Trig, s: seq<Complex>, m: nat, k: int, j: int)
    requires |s| == 2 * m && 0 <= j < m
    ensures Term(t, s, k)(2 * j) == Term(t, Evens(s), k)(j)
  {
    Phases(j, k, m);
    TermAt(t, s, k, 2 * j);
    TermAt(t, Evens(s), k, j);
    RootDouble(t, m, Phase(j, k));
  }

  /** The odd terms carry one more factor. */
  lemma OddTerm(t: Trig, s: seq<Complex>, m: nat, k: int, j: int)
    requires Laws(t) && |s| == 2 * m && 0 <= j < m
    ensures Term(t, s, k)(2 * j + 1) == Mul(Root(t, 2 * m, k), Term(t, Odds(s), k)(j))
  {
    hide *;
    OddsAt(s, m, j);
    Phases(j, k, m);
    TermAt(t, s, k, 2 * j + 1);
    TermAt(t, Odds(s), k, j);
    OddFactor(t, s[2 * j + 1], m, Phase(j, k), k);
  }

  lemma OddsAt(s: seq<Complex>, m: nat, j: nat)
    requires |s| == 2 * m && j < m
    ensures |Odds(s)| == m && Odds(s)[j] == s[2 * j + 1]
  {
  }

  lemma OddFactor(t: Trig, c: Complex, m: nat, a: int, k: int)
    requires Laws(t) && 0 < m
    ensures Mul(c, Root(t, 2 * m, 2 * a + k)) == Mul(Root(t, 2 * m, k), Mul(c, Root(t, m, a)))
  {
    hide *;
    RootDouble(t, m, a);
    RootAdd(t, 2 * m, 2 * a, k);
    Associates(c, Root(t, m, a), Root(t, 2 * m, k));
    Commutes(Mul(c, Root(t, m, a)), Root(t, 2 * m, k));
  }

  /** Decimation in time: any transform of even length from the two of half the length. */
  lemma Decimation(t: Trig, s: seq<Complex>, m: nat, k: int)
    requires Laws(t) && 0 < m && |s| == 2 * m
    ensures Dft(t, s, k) == Add(Dft(t, Evens(s), k), Mul(Root(t, 2 * m, k), Dft(t, Odds(s), k)))
  {
    hide Laws, Root, Term, Sum, Add, Mul;
    var f, e, o := Term(t, s, k), Term(t, Evens(s), k), Term(t, Odds(s), k);
    var r := Root(t, 2 * m, k);
    var p, q := i => f(2 * i), i => f(2 * i + 1);
    forall i | 0 <= i < m
      ensures p(i) == e(i) && q(i) == Mul(r, o(i))
    {
      EvenTerm(t, s, m, k, i);
      OddTerm(t, s, m, k, i);
    }
    SumSplit(f, p, q, m);
    SumSame(p, e, m);
    SumScale(r, o, q, m);
  }

  /** A transform of one sample or an even number of them has that number as its period. */
  lemma DftPeriod(t: Trig, s: seq<Complex>, k: int)
    requires Laws(t) && (|s| % 2 == 0 || |s| == 1)
    ensures Dft(t, s, k + |s|) == Dft(t, s, k)
  {
    var f, g := Term(t, s, k + |s|), Term(t, s, k);
    hide Laws, Root, Term, Sum, Mul, Phase;
    forall j | 0 <= j < |s|
      ensures f(j) == g(j)
    {
      TermAt(t, s, k + |s|, j);
      TermAt(t, s, k, j);
      Phases(j, k, |s|);
      Phases(j, k + |s|, 0);
      if |s| > 1 {
        PhasePeriod(t, |s| / 2, Phase(j, k), j);
      }
    }
    SumSame(f, g, |s|);
  }

  lemma PhasePeriod(t: Trig, m: nat, a: int, q: int)
    requires Laws(t) && 0 < m
    ensures Root(t, 2 * m, a + 2 * m * q) == Root(t, 2 * m, a)
  {
    hide *;
    RootTurns(t, m, q);
    RootAdd(t, 2 * m, a, 2 * m * q);
    Commutes(Root(t, 2 * m, a), ONE);
  }

  /** The butterfly: both outputs from one product. */
  lemma Butterfly(t: Trig, s: seq<Complex>, m: nat, k: int)
    requires Laws(t) && |s| == 2 * m && (m == 1 || (0 < m && m % 2 == 0))
    ensures var e, p := Dft(t, Evens(s), k), Mul(Root(t, 2 * m, k), Dft(t, Odds(s), k));
      Dft(t, s, k) == Add(e, p) && Dft(t, s, k + m) == Sub(e, p)
  {
    hide Laws, Root, Term, Sum, Mul, Dft;
    var o := Dft(t, Odds(s), k);
    Decimation(t, s, m, k);
    Decimation(t, s, m, k + m);
    DftPeriod(t, Evens(s), k);
    DftPeriod(t, Odds(s), k);
    RootAdd(t, 2 * m, k, m);
    RootHalf(t, m);
    Commutes(Root(t, 2 * m, k), ONE);
    assert Root(t, 2 * m, k + m) == Neg(Root(t, 2 * m, k));
    Commutes(o, Root(t, 2 * m, k));
    Commutes(o, Neg(Root(t, 2 * m, k)));
    Additive(Dft(t, Evens(s), k), Mul(Root(t, 2 * m, k), o), ZERO, ZERO);
  }

  // ---------------------------------------------------------------- orthogonality

  /** The lengths the transform accepts: 2, 4, 8, ... */
  predicate Size(n: nat) {
    n == 2 || (n > 2 && n % 2 == 0 && Size(n / 2))
  }

  function Powers(t: Trig, n: nat, d: int): int -> Complex
    requires 0 < n
  {
    k => Root(t, n, Phase(k, d))
  }

  lemma PowersAt(t: Trig, n: nat, d: int, k: int)
    requires 0 < n
    ensures Powers(t, n, d)(k) == Root(t, n, Phase(k, d))
  {
  }

  /** For odd d the two halves of the circle cancel. */
  lemma OddPowers(t: Trig, m: nat, d: int)
    requires Laws(t) && 0 < m && d % 2 == 1
    ensures Sum(Powers(t, 2 * m, d), 2 * m) == ZERO
  {
    hide *;
    var f := Powers(t, 2 * m, d);
    var g := k => f(m + k);
    forall k | 0 <= k < m
      ensures g(k) == Mul(Neg(ONE), f(k))
    {
      HalfTurn(t, m, k, d);
      PowersAt(t, 2 * m, d, k);
      PowersAt(t, 2 * m, d, m + k);
    }
    Cancel(f, g, m);
  }

  lemma Cancel(f: int -> Complex, g: int -> Complex, m: nat)
    requires forall k :: 0 <= k < m ==> g(k) == f(m + k) == Mul(Neg(ONE), f(k))
    ensures Sum(f, 2 * m) == ZERO
  {
    hide *;
    SumConcat(f, g, m, m);
    SumScale(Neg(ONE), f, g, m);
    Commutes(Sum(f, m), ONE);
    Commutes(Neg(ONE), Sum(f, m));
    Additive(Sum(f, m), Sum(f, m), ZERO, ZERO);
  }

  lemma HalfTurn(t: Trig, m: nat, k: int, d: int)
    requires Laws(t) && 0 < m && d % 2 == 1
    ensures Root(t, 2 * m, Phase(m + k, d)) == Mul(Neg(ONE), Root(t, 2 * m, Phase(k, d)))
  {
    hide *;
    var q := d / 2;
    PhaseHalf(m, k, q);
    RootTurns(t, m, q);
    RootHalf(t, m);
    RootAdd(t, 2 * m, Phase(k, d) + m, 2 * m * q);
    RootAdd(t, 2 * m, Phase(k, d), m);
    Commutes(Root(t, 2 * m, Phase(k, d) + m), ONE);
    Commutes(Root(t, 2 * m, Phase(k, d)), Neg(ONE));
  }

  lemma PhaseHalf(m: int, k: int, q: int)
    ensures Phase(m + k, 2 * q + 1) == Phase(k, 2 * q + 1) + m + 2 * m * q
  {
  }

  /** The n-th roots of unity to the power d add up to n for d = 0, and to nothing otherwise. */
  lemma {:induction false} Orthogonality(t: Trig, n: nat, d: int)
    requires Laws(t) && Size(n) && 0 < n + d && d < n
    ensures Sum(Powers(t, n, d), n) == if d == 0 then Real(n) else ZERO
    decreases n
  {
    hide Laws, Sum, Powers, Add, Real;
    var m := n / 2;
    if d % 2 == 1 {
      OddPowers(t, m, d);
    } else {
      var e := d / 2;
      assert n == 2 * m && d == 2 * e;
      EvenPowers(t, m, e);
      if n == 2 {
        SumOfOne(t);
      } else {
        Orthogonality(t, m, e);
      }
      AddReals(m);
    }
  }

  lemma AddReals(m: nat)
    ensures Add(Real(m), Real(m)) == Real(2 * m)
    ensures Add(ZERO, ZERO) == ZERO && Real(1) == ONE
  {
    hide *;
    TwiceReal(m);
    RealOne();
    Additive(ZERO, ZERO, ZERO, ZERO);
  }

  lemma TwiceReal(m: nat)
    ensures Add(Real(m), Real(m)) == Real(2 * m)
  {
    assert (m + m) as real == m as real + m as real;
  }

  lemma RealOne()
    ensures Real(1) == ONE
  {
  }

  lemma SumOfOne(t: Trig)
    requires Laws(t)
    ensures Sum(Powers(t, 1, 0), 1) == ONE
  {
    RootZero(t, 1);
    assert Sum(Powers(t, 1, 0), 0) == ZERO;
  }

  /** For even d the two halves of the circle are the same smaller circle. */
  lemma EvenPowers(t: Trig, m: nat, e: int)
    requires Laws(t) && 0 < m
    ensures Sum(Powers(t, 2 * m, 2 * e), 2 * m) == Add(Sum(Powers(t, m, e), m), Sum(Powers(t, m, e), m))
  {
    hide *;
    var f, h := Powers(t, 2 * m, 2 * e), Powers(t, m, e);
    var g := k => f(m + k);
    forall k | 0 <= k < m
      ensures f(k) == h(k) && g(k) == h(k)
    {
      SmallerCircle(t, m, k, e);
      PowersAt(t, 2 * m, 2 * e, k);
      PowersAt(t, 2 * m, 2 * e, m + k);
      PowersAt(t, m, e, k);
    }
    SumConcat(f, g, m, m);
    SumSame(f, h, m);
    SumSame(g, h, m);
  }

  lemma SmallerCircle(t: Trig, m: nat, k: int, e: int)
    requires Laws(t) && 0 < m
    ensures Root(t, 2 * m, Phase(k, 2 * e)) == Root(t, m, Phase(k, e))
    ensures Root(t, 2 * m, Phase(m + k, 2 * e)) == Root(t, m, Phase(k, e))
  {
    hide *;
    PhaseDouble(m, k, e);
    RootDouble(t, m, Phase(k, e));
    PhasePeriod(t, m, 2 * Phase(k, e), e);
  }

  lemma PhaseDouble(m: int, k: int, e: int)
    ensures Phase(k, 2 * e) == 2 * Phase(k, e)
    ensures Phase(m + k, 2 * e) == 2 * Phase(k, e) + 2 * m * e
  {
  }

  // ---------------------------------------------------------------- the inverse transform

  /** Division by the number of points. */
  function Div(a: Complex, n: nat): Complex
    requires 0 < n
  {
    Complex(a.re / n as real, a.im / n as real)
  }

  /** The inverse transform: conjugate roots of unity, divided by the number of points. */
  function Idft(t: Trig, s: seq<Complex>, i: int): Complex
    requires 0 < |s|
  {
    Div(Dft(t, s, -i), |s|)
  }

  function Spectrum(t: Trig, s: seq<Complex>): seq<Complex> {
    seq(|s|, k => Dft(t, s, k))
  }

  function Inverse(t: Trig, s: seq<Complex>): seq<Complex> {
    if s == [] then [] else seq(|s|, i => Idft(t, s, i))
  }

  /** The product terms of a transform of a transform: sample j at frequency g * k, back at frequency -g * i. */
  function Cell(t: Trig, s: seq<Complex>, g: int, i: int): (int, int) -> Complex {
    (k, j) => if 0 <= j < |s| then Mul(s[j], Root(t, |s|, Phase(k, g * (j - i)))) else ZERO
  }

  /** The samples of s transformed at the frequencies 0, g, 2 g, ... */
  function Sampled(t: Trig, s: seq<Complex>, g: int): (r: seq<Complex>)
    ensures |r| == |s|
  {
    seq(|s|, k => Dft(t, s, g * k))
  }

  /** Term k of the second transform is row k of the cells. */
  lemma RowOfCells(t: Trig, s: seq<Complex>, g: int, i: int, k: int)
    requires Laws(t) && 0 <= k < |s|
    ensures Term(t, Sampled(t, s, g), -g * i)(k) == Row(Cell(t, s, g, i), k, |s|)
  {
    hide Laws, Mul, Root, Sum, Phase, Dft;
    var n := |s|;
    var f, c := Term(t, s, g * k), Cell(t, s, g, i);
    var h := j => c(k, j);
    var r := Root(t, n, Phase(k, -g * i));
    TermAt(t, Sampled(t, s, g), -g * i, k);
    forall j | 0 <= j < n
      ensures h(j) == Mul(r, f(j))
    {
      CellFactors(t, s[j], n, g, i, j, k);
    }
    SumScale(r, f, h, n);
    DftIsSum(t, s, g * k);
    Commutes(Dft(t, s, g * k), r);
  }

  lemma DftIsSum(t: Trig, s: seq<Complex>, k: int)
    ensures Dft(t, s, k) == Sum(Term(t, s, k), |s|)
  {
  }

  lemma CellFactors(t: Trig, c: Complex, n: nat, g: int, i: int, j: int, k: int)
    requires Laws(t) && 0 < n
    ensures Mul(c, Root(t, n, Phase(k, g * (j - i))))
         == Mul(Root(t, n, Phase(k, -g * i)), Mul(c, Root(t, n, Phase(j, g * k))))
  {
    hide *;
    PhaseSum(g, i, j, k);
    RootAdd(t, n, Phase(j, g * k), Phase(k, -g * i));
    Associates(c, Root(t, n, Phase(j, g * k)), Root(t, n, Phase(k, -g * i)));
    Commutes(Mul(c, Root(t, n, Phase(j, g * k))), Root(t, n, Phase(k, -g * i)));
  }

  lemma PhaseSum(g: int, i: int, j: int, k: int)
    ensures Phase(k, g * (j - i)) == Phase(j, g * k) + Phase(k, -g * i)
  {
    assert k * (g * (j - i)) == j * (g * k) + k * (-g * i);
  }

  /** Column j of the cells: n times sample i for j = i, nothing otherwise. */
  lemma ColumnOfCells(t: Trig, s: seq<Complex>, g: int, i: int, j: int)
    requires Laws(t) && Size(|s|) && 0 <= i < |s| && 0 <= j < |s| && (g == 1 || g == -1)
    ensures Column(Cell(t, s, g, i), j, |s|) == if j == i then Mul(s[i], Real(|s|)) else ZERO
  {
    var n := |s|;
    var d := g * (j - i);
    var p, c := Powers(t, n, d), Cell(t, s, g, i);
    var h := k => c(k, j);
    forall k | 0 <= k < n
      ensures h(k) == Mul(s[j], p(k))
    {
      PowersAt(t, n, d, k);
    }
    hide *;
    SumScale(s[j], p, h, n);
    Orthogonality(t, n, d);
    Commutes(s[j], s[j]);
  }

  /** Transforming at frequencies g * k and back at -g * i multiplies sample i by the number of points. */
  lemma ThereAndBack(t: Trig, s: seq<Complex>, g: int, i: int)
    requires Laws(t) && Size(|s|) && 0 <= i < |s| && (g == 1 || g == -1)
    ensures Dft(t, Sampled(t, s, g), -g * i) == Mul(s[i], Real(|s|))
  {
    hide Laws, Size, Sampled, Term, Sum, Mul, Real, Row, Column, Cell;
    var n := |s|;
    var c := Cell(t, s, g, i);
    var f := Term(t, Sampled(t, s, g), -g * i);
    var columns := j => Column(c, j, n);
    forall k | 0 <= k < n
      ensures f(k) == Row(c, k, n)
    {
      RowOfCells(t, s, g, i, k);
    }
    SumSwap(c, f, columns, n, n);
    forall j | 0 <= j < n
      ensures columns(j) == if j == i then Mul(s[i], Real(n)) else ZERO
    {
      ColumnOfCells(t, s, g, i, j);
    }
    SumOnly(columns, n, i);
  }

  lemma DivMul(a: Complex, n: nat)
    requires 0 < n
    ensures Div(a, n) == Mul(Complex(1.0 / n as real, 0.0), a)
  {
    var r := n as real;
    assert a.re / r == 1.0 / r * a.re && a.im / r == 1.0 / r * a.im;
  }

  lemma DivCancels(a: Complex, n: nat)
    requires 0 < n
    ensures Div(Mul(a, Real(n)), n) == a
  {
    var r := n as real;
    assert a.re * r / r == a.re && a.im * r / r == a.im;
  }

  /** Transforms are linear: a transform of divided samples is the divided transform. */
  lemma DftDiv(t: Trig, s: seq<Complex>, u: seq<Complex>, n: nat, k: int)
    requires 0 < n && |u| == |s| && forall i :: 0 <= i < |s| ==> u[i] == Div(s[i], n)
    ensures Dft(t, u, k) == Div(Dft(t, s, k), n)
  {
    hide Term, Mul, Root, Div, Sum, Phase;
    var f, h := Term(t, s, k), Term(t, u, k);
    var c := Complex(1.0 / n as real, 0.0);
    forall j | 0 <= j < |s|
      ensures h(j) == Mul(c, f(j))
    {
      TermAt(t, s, k, j);
      TermAt(t, u, k, j);
      DivMul(s[j], n);
      Associates(c, s[j], Root(t, |s|, Phase(j, k)));
    }
    SumScale(c, f, h, |s|);
    DivMul(Dft(t, s, k), n);
  }

  /** The inverse transform undoes the transform. */
  lemma InverseOfSpectrum(t: Trig, s: seq<Complex>)
    requires Laws(t) && Size(|s|)
    ensures Inverse(t, Spectrum(t, s)) == s
  {
    hide Laws, Dft, Mul, Div, Real;
    assert Spectrum(t, s) == Sampled(t, s, 1);
    forall i | 0 <= i < |s|
      ensures Inverse(t, Spectrum(t, s))[i] == s[i]
    {
      ThereAndBack(t, s, 1, i);
      DivCancels(s[i], |s|);
    }
  }

  /** The transform undoes the inverse transform. */
  lemma SpectrumOfInverse(t: Trig, s: seq<Complex>)
    requires Laws(t) && Size(|s|)
    ensures Spectrum(t, Inverse(t, s)) == s
  {
    hide Laws, Dft, Mul, Div, Real;
    var n := |s|;
    forall k | 0 <= k < n
      ensures Spectrum(t, Inverse(t, s))[k] == s[k]
    {
      DftDiv(t, Sampled(t, s, -1), Inverse(t, s), n, k);
      ThereAndBack(t, s, -1, k);
      DivCancels(s[k], n);
    }
  }

  // ---------------------------------------------------------------- stride classes

  /** Index of element j of the stride class at offset with distance delta. */
  function At(offset: nat, delta: nat, j: nat): nat {
    offset + j * delta
  }

  predicate InClass(p: int, offset: nat, delta: nat, n: nat) {
    exists j: nat :: j < n && p == At(offset, delta, j)
  }

  predicate Fits(offset: nat, delta: nat, n: nat, length: nat) {
    forall j: nat :: j < n ==> At(offset, delta, j) < length
  }

  /** The samples of a stride class. */
  function Stride(a: seq<Complex>, offset: nat, delta: nat, n: nat): (r: seq<Complex>)
    requires Fits(offset, delta, n, |a|)
    ensures |r| == n
  {
    seq(n, j requires 0 <= j < n => a[At(offset, delta, j)])
  }

  /** From a to b only elements of the stride class changed. */
  ghost predicate OnlyClass(a: seq<Complex>, b: seq<Complex>, offset: nat, delta: nat, n: nat) {
    |a| == |b| && forall p :: 0 <= p < |a| && !InClass(p, offset, delta, n) ==> b[p] == a[p]
  }

  /** Elements lo to hi - 1 of the stride class hold the transform of s. */
  ghost predicate Transformed(t: Trig, b: seq<Complex>, s: seq<Complex>, offset: nat, delta: nat, lo: nat, hi: nat) {
    Fits(offset, delta, hi, |b|) && forall j: nat :: lo <= j < hi ==> b[At(offset, delta, j)] == Dft(t, s, j)
  }

  lemma AtInjective(offset: nat, delta: nat, i: nat, j: nat)
    requires 0 < delta && i != j
    ensures At(offset, delta, i) != At(offset, delta, j)
  {
    var lo, hi := if i < j then i else j, if i < j then j else i;
    assert hi * delta == lo * delta + (hi - lo) * delta;
    assert (hi - lo) * delta >= delta by {
      Grows(hi - lo, delta);
    }
  }

  lemma Grows(k: nat, delta: nat)
    requires 0 < k
    ensures k * delta >= delta
  {
    assert k * delta == (k - 1) * delta + delta;
  }

  /** Each class is the two classes of twice the distance. */
  lemma Halves(offset: nat, delta: nat, j: nat)
    ensures At(offset, 2 * delta, j) == At(offset, delta, 2 * j)
    ensures At(offset + delta, 2 * delta, j) == At(offset, delta, 2 * j + 1)
  {
    assert j * (2 * delta) == 2 * j * delta;
    assert (2 * j + 1) * delta == 2 * j * delta + delta;
  }

  lemma HalvesFit(offset: nat, delta: nat, m: nat, length: nat)
    requires Fits(offset, delta, 2 * m, length)
    ensures Fits(offset, 2 * delta, m, length) && Fits(offset + delta, 2 * delta, m, length)
  {
    var odd, twice := offset + delta, 2 * delta;
    forall j: nat | j < m
      ensures At(offset, twice, j) < length && At(odd, twice, j) < length
    {
      Halves(offset, delta, j);
    }
  }

  lemma HalvesApart(offset: nat, delta: nat, m: nat, j: nat)
    requires 0 < delta
    ensures !InClass(At(offset, 2 * delta, j), offset + delta, 2 * delta, m)
  {
    hide At;
    var odd, twice := offset + delta, 2 * delta;
    forall i: nat | i < m
      ensures At(odd, twice, i) != At(offset, twice, j)
    {
      Halves(offset, delta, i);
      Halves(offset, delta, j);
      AtInjective(offset, delta, 2 * i + 1, 2 * j);
    }
  }

  lemma HalfInWhole(p: int, offset: nat, delta: nat, m: nat)
    requires InClass(p, offset, 2 * delta, m) || InClass(p, offset + delta, 2 * delta, m)
    ensures InClass(p, offset, delta, 2 * m)
  {
    hide At;
    if InClass(p, offset, 2 * delta, m) {
      var j: nat :| j < m && p == At(offset, 2 * delta, j);
      Halves(offset, delta, j);
    } else {
      var j: nat :| j < m && p == At(offset + delta, 2 * delta, j);
      Halves(offset, delta, j);
    }
  }

  /** What the two recursive calls leave of an array, seen from the whole class. */
  lemma OnlyHalves(a: seq<Complex>, b: seq<Complex>, c: seq<Complex>, offset: nat, delta: nat, m: nat)
    requires OnlyClass(a, b, offset, 2 * delta, m) && OnlyClass(b, c, offset + delta, 2 * delta, m)
    ensures OnlyClass(a, c, offset, delta, 2 * m)
  {
    forall p | 0 <= p < |a| && !InClass(p, offset, delta, 2 * m)
      ensures c[p] == a[p]
    {
      if InClass(p, offset, 2 * delta, m) || InClass(p, offset + delta, 2 * delta, m) {
        HalfInWhole(p, offset, delta, m);
      }
    }
  }

  /** The second recursive call leaves the result of the first one alone. */
  lemma FirstHalfSurvives(t: Trig, b: seq<Complex>, c: seq<Complex>, s: seq<Complex>, offset: nat, delta: nat, m: nat)
    requires 0 < delta && Transformed(t, b, s, offset, 2 * delta, 0, m)
    requires OnlyClass(b, c, offset + delta, 2 * delta, m)
    ensures Transformed(t, c, s, offset, 2 * delta, 0, m)
  {
    hide At, Dft, InClass;
    var twice := 2 * delta;
    forall j: nat | j < m
      ensures c[At(offset, twice, j)] == b[At(offset, twice, j)]
    {
      HalvesApart(offset, delta, m, j);
    }
  }

  lemma StrideHalves(a: seq<Complex>, offset: nat, delta: nat, m: nat)
    requires Fits(offset, delta, 2 * m, |a|)
    ensures Fits(offset, 2 * delta, m, |a|) && Fits(offset + delta, 2 * delta, m, |a|)
    ensures Evens(Stride(a, offset, delta, 2 * m)) == Stride(a, offset, 2 * delta, m)
    ensures Odds(Stride(a, offset, delta, 2 * m)) == Stride(a, offset + delta, 2 * delta, m)
  {
    HalvesFit(offset, delta, m, |a|);
    hide At;
    var odd, twice := offset + delta, 2 * delta;
    forall j: nat | j < m
      ensures At(offset, twice, j) == At(offset, delta, 2 * j) && At(odd, twice, j) == At(offset, delta, 2 * j + 1)
    {
      Halves(offset, delta, j);
    }
  }

  // ---------------------------------------------------------------- fft_rec

  /** One round of the loop: results for frequencies k and k + m. */
  lemma StoreKeeps(t: Trig, a: seq<Complex>, b: seq<Complex>, s: seq<Complex>,
                   offset: nat, delta: nat, m: nat, k: nat, lo: Complex, hi: Complex)
    requires 0 < delta && k < m && Fits(offset, delta, 2 * m, |a|)
    requires b == a[At(offset, delta, k + m) := hi][At(offset, delta, k) := lo]
    requires lo == Dft(t, s, k) && hi == Dft(t, s, k + m)
    requires Transformed(t, a, s, offset, delta, 0, k) && Transformed(t, a, s, offset, delta, m, m + k)
    ensures Transformed(t, b, s, offset, delta, 0, k + 1) && Transformed(t, b, s, offset, delta, m, m + k + 1)
    ensures OnlyClass(a, b, offset, delta, 2 * m)
  {
    hide At, Dft;
    AtInjective(offset, delta, k, k + m);
    forall j: nat | j < 2 * m && j != k && j != k + m
      ensures b[At(offset, delta, j)] == a[At(offset, delta, j)]
    {
      AtInjective(offset, delta, j, k);
      AtInjective(offset, delta, j, k + m);
    }
  }

  lemma OnlyClassTrans(a: seq<Complex>, b: seq<Complex>, c: seq<Complex>, offset: nat, delta: nat, n: nat)
    requires OnlyClass(a, b, offset, delta, n) && OnlyClass(b, c, offset, delta, n)
    ensures OnlyClass(a, c, offset, delta, n)
  {
  }

  /** The loop of fft_rec: from the two half transforms in XX, the whole one in X. */
  method Combine(t: Trig, N: nat, offset: nat, delta: nat, X: array<Complex>, XX: array<Complex>, ghost s: seq<Complex>)
    requires Laws(t) && N > 2 && Size(N) && 0 < delta && X != XX && |s| == N
    requires Fits(offset, delta, N, X.Length) && Fits(offset, delta, N, XX.Length)
    requires Transformed(t, XX[..], Evens(s), offset, 2 * delta, 0, N / 2)
    requires Transformed(t, XX[..], Odds(s), offset + delta, 2 * delta, 0, N / 2)
    modifies X
    ensures Transformed(t, X[..], s, offset, delta, 0, N)
    ensures OnlyClass(old(X[..]), X[..], offset, delta, N)
  {
    hide Laws, Dft, Root, Mul, At, InClass;
    var N2 := N / 2;
    for k := 0 to N2
      invariant Transformed(t, X[..], s, offset, delta, 0, k)
      invariant Transformed(t, X[..], s, offset, delta, N2, N2 + k)
      invariant OnlyClass(old(X[..]), X[..], offset, delta, N)
    {
      ghost var before := X[..];
      var k00, k10 := At(offset, delta, k), At(offset, delta, 2 * k);
      var k01, k11 := At(offset, delta, k + N2), At(offset, delta, 2 * k + 1);
      var angle := Turn(t.twoPi, k as real, N as real);
      var cs, sn := t.cos(angle), t.sin(angle);
      var tmp0 := cs * XX[k11].re + sn * XX[k11].im;
      var tmp1 := cs * XX[k11].im - sn * XX[k11].re;
      Product(t, N, k, XX[k11], tmp0, tmp1);
      Halves(offset, delta, k);
      Butterfly(t, s, N2, k);
      X[k01] := Complex(XX[k10].re - tmp0, XX[k10].im - tmp1);
      X[k00] := Complex(XX[k10].re + tmp0, XX[k10].im + tmp1);
      StoreKeeps(t, before, X[..], s, offset, delta, N2, k, Dft(t, s, k), Dft(t, s, k + N2));
      OnlyClassTrans(old(X[..]), before, X[..], offset, delta, N);
    }
  }

  /** fft_rec: the transform of a stride class of x into the same class of X, with XX as scratch. */
  method FftRec(t: Trig, N: nat, offset: nat, delta: nat, x: array<Complex>, X: array<Complex>, XX: array<Complex>)
    requires Laws(t) && Size(N) && 0 < delta && x != X && x != XX && X != XX
    requires Fits(offset, delta, N, x.Length) && Fits(offset, delta, N, X.Length) && Fits(offset, delta, N, XX.Length)
    modifies X, XX
    ensures Transformed(t, X[..], Stride(x[..], offset, delta, N), offset, delta, 0, N)
    ensures OnlyClass(old(X[..]), X[..], offset, delta, N) && OnlyClass(old(XX[..]), XX[..], offset, delta, N)
    decreases N
  {
    var N2 := N / 2;
    ghost var s := Stride(x[..], offset, delta, N);
    if N != 2 {
      hide Laws, Dft, Root, Mul, At, InClass, OnlyClass, Transformed, Stride, Fits, Evens, Odds;
      StrideHalves(x[..], offset, delta, N2);
      HalvesFit(offset, delta, N2, X.Length);
      HalvesFit(offset, delta, N2, XX.Length);
      ghost var X0, XX0 := X[..], XX[..];
      FftRec(t, N2, offset, 2 * delta, x, XX, X);
      ghost var X1, XX1 := X[..], XX[..];
      FftRec(t, N2, offset + delta, 2 * delta, x, XX, X);
      ghost var X2, XX2 := X[..], XX[..];
      FirstHalfSurvives(t, XX1, XX2, Evens(s), offset, delta, N2);
      OnlyHalves(X0, X1, X2, offset, delta, N2);
      OnlyHalves(XX0, XX1, XX2, offset, delta, N2);
      Combine(t, N, offset, delta, X, XX, s);
      OnlyClassTrans(X0, X2, X[..], offset, delta, N);
    } else {
      TwoPoints(t, offset, delta, x, X);
    }
  }

  /** The 2-point transform. */
  method TwoPoints(t: Trig, offset: nat, delta: nat, x: array<Complex>, X: array<Complex>)
    requires Laws(t) && 0 < delta && x != X
    requires Fits(offset, delta, 2, x.Length) && Fits(offset, delta, 2, X.Length)
    modifies X
    ensures Transformed(t, X[..], Stride(x[..], offset, delta, 2), offset, delta, 0, 2)
    ensures OnlyClass(old(X[..]), X[..], offset, delta, 2)
  {
    ghost var s := Stride(x[..], offset, delta, 2);
    hide Laws, Dft, Root, Mul, InClass;
    assert At(offset, delta, 0) == offset && At(offset, delta, 1) == offset + delta;
    var k00, k01 := offset, offset + delta;
    DftOfTwo(t, s);
    X[k01] := Complex(x[k00].re - x[k01].re, x[k00].im - x[k01].im);
    X[k00] := Complex(x[k00].re + x[k01].re, x[k00].im + x[k01].im);
    hide At;
    StoreKeeps(t, old(X[..]), X[..], s, offset, delta, 1, 0, Dft(t, s, 0), Dft(t, s, 1));
  }

  lemma DftOfTwo(t: Trig, s: seq<Complex>)
    requires Laws(t) && |s| == 2
    ensures Dft(t, s, 0) == Add(s[0], s[1]) && Dft(t, s, 1) == Sub(s[0], s[1])
  {
    hide Laws, Root, Mul, Phase, Add, Sub;
    Butterfly(t, s, 1, 0);
    DftOfOne(t, Evens(s));
    DftOfOne(t, Odds(s));
    RootZero(t, 2);
    Commutes(s[1], ONE);
    Commutes(ONE, s[1]);
  }

  lemma DftOfOne(t: Trig, s: seq<Complex>)
    requires Laws(t) && |s| == 1
    ensures Dft(t, s, 0) == s[0]
  {
    TermAt(t, s, 0, 0);
    Phases(0, 0, 0);
    RootZero(t, 1);
    Commutes(s[0], ONE);
    Additive(s[0], ZERO, ZERO, ZERO);
    hide Laws, Root, Mul, Phase, Add;
    var f := Term(t, s, 0);
    assert Sum(f, 0) == ZERO;
    assert Sum(f, 1) == Add(Sum(f, 0), f(0));
  }

  /** fft: the transform of the first N samples of x into the first N elements of X. */
  method Fft(t: Trig, N: nat, x: array<Complex>, X: array<Complex>)
    requires Laws(t) && Size(N) && x != X && N <= x.Length && N <= X.Length
    modifies X
    ensures X[..N] == Spectrum(t, x[..N])
    ensures X[N..] == old(X[N..])
  {
    var XX := new Complex[N](_ => ZERO);
    hide Laws, Dft, OnlyClass, Transformed, Stride, Spectrum;
    FftRec(t, N, 0, 1, x, X, XX);
    WholeClass(t, x[..], old(X[..]), X[..], N);
    assert X[N..] == X[..][N..];
  }

  /** The stride class at 0 with distance 1. */
  lemma WholeClass(t: Trig, x: seq<Complex>, a: seq<Complex>, b: seq<Complex>, n: nat)
    requires n <= |x| && n <= |a| && Fits(0, 1, n, |x|) && OnlyClass(a, b, 0, 1, n)
    requires Transformed(t, b, Stride(x, 0, 1, n), 0, 1, 0, n)
    ensures b[..n] == Spectrum(t, x[..n]) && b[n..] == a[n..]
  {
    hide Dft;
    forall j: nat
      ensures At(0, 1, j) == j
    {
    }
    hide At;
    assert Stride(x, 0, 1, n) == x[..n];
    forall k: nat | k < n
      ensures b[k] == Dft(t, x[..n], k)
    {
      assert b[At(0, 1, k)] == Dft(t, x[..n], k);
    }
    forall k: nat | n <= k < |a|
      ensures b[k] == a[k]
    {
      assert !InClass(k, 0, 1, n);
    }
  }

  /** ifft: the inverse transform of the first N elements of X into the first N of x. */
  method Ifft(t: Trig, N: nat, x: array<Complex>, X: array<Complex>)
    requires Laws(t) && Size(N) && x != X && N <= x.Length && N <= X.Length
    modifies x
    ensures x[..N] == Inverse(t, X[..N])
    ensures x[N..] == old(x[N..])
  {
    hide Laws, Dft, Div;
    Fft(t, N, X, x);
    ghost var s, y := X[..N], x[..];
    assert forall k: int :: 0 <= k < N ==> y[k] == y[..N][k];
    DivideAndReverse(N, x);
    forall k: int | 0 <= k < N
      ensures x[k] == Idft(t, s, k)
    {
      MirrorFrequency(t, s, k);
      assert x[k] == Div(y[Mirror(k, N)], N);
    }
  }

  /** Index -i modulo n. */
  function Mirror(i: int, n: int): int {
    if i == 0 then 0 else n - i
  }

  /** z is y with the elements outside i .. n - i, and the middle one, divided by n and mirrored. */
  ghost predicate Turned(y: seq<Complex>, z: seq<Complex>, n: nat, i: nat) {
    && 0 < i <= n <= |y| && |z| == |y|
    && (forall k: int :: 0 <= k < n && (k < i || n - i < k || 2 * k == n) ==> z[k] == Div(y[Mirror(k, n)], n))
    && (forall k: int :: i <= k <= n - i && 2 * k != n ==> z[k] == y[k])
    && (forall k: int :: n <= k < |y| ==> z[k] == y[k])
  }

  lemma TurnedStart(y: seq<Complex>, n: nat, m: nat)
    requires 0 < m && n == 2 * m && n <= |y|
    ensures Turned(y, y[0 := Div(y[0], n)][m := Div(y[m], n)], n, 1)
  {
    hide Div;
  }

  lemma TurnedStep(y: seq<Complex>, z: seq<Complex>, n: nat, i: nat)
    requires Turned(y, z, n, i) && 2 * i < n
    ensures Turned(y, z[i := Div(z[n - i], n)][n - i := Div(z[i], n)], n, i + 1)
  {
    hide Div;
  }

  /** The second part of ifft: division by N, exchange of elements i and N - i. */
  method DivideAndReverse(N: nat, x: array<Complex>)
    requires Size(N) && N <= x.Length
    modifies x
    ensures forall k: int :: 0 <= k < N ==> x[k] == Div(old(x[Mirror(k, N)]), N)
    ensures x[N..] == old(x[N..])
  {
    var N2 := N / 2;
    assert 0 < N2 && N == 2 * N2;
    TurnedStart(x[..], N, N2);
    hide Div, Size, Turned, Mirror;
    ghost var y := x[..];
    x[0] := Div(x[0], N);
    x[N2] := Div(x[N2], N);
    for i := 1 to N2
      invariant Turned(y, x[..], N, i)
    {
      TurnedStep(y, x[..], N, i);
      var tmp := Div(x[i], N);
      x[i] := Div(x[N - i], N);
      x[N - i] := tmp;
    }
    TurnedEnd(y, x[..], N, N2);
  }

  lemma TurnedEnd(y: seq<Complex>, z: seq<Complex>, n: nat, m: nat)
    requires n == 2 * m && Turned(y, z, n, m)
    ensures forall k: int :: 0 <= k < n ==> z[k] == Div(y[Mirror(k, n)], n)
    ensures z[n..] == y[n..]
  {
    hide Div;
  }

  /** Frequency -k is frequency |s| - k. */
  lemma MirrorFrequency(t: Trig, s: seq<Complex>, k: int)
    requires Laws(t) && |s| % 2 == 0 && 0 <= k < |s|
    ensures Dft(t, s, Mirror(k, |s|)) == Dft(t, s, -k)
  {
    hide Dft;
    if k > 0 {
      DftPeriod(t, s, -k);
    }
  }

  lemma Product(t: Trig, n: nat, k: nat, c: Complex, re: real, im: real)
    requires 0 < n
    requires var a := Turn(t.twoPi, k as real, n as real);
      re == t.cos(a) * c.re + t.sin(a) * c.im && im == t.cos(a) * c.im - t.sin(a) * c.re
    ensures Mul(Root(t, n, k), c) == Complex(re, im)
  {
  }
}
