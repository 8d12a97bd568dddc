/** The twisted Edwards curve arithmetic of the wire peer: recovering x from y,
    addition with both denominators inverted by a power, and double-and-add. The
    curve is a parameter; `Ed25519` supplies the one the program uses. */
module Edwards {
  import opened NumberTheory
  import Bits

  datatype Point = Point(x: int, y: int)

  /** The prime, the curve constant, and the number whose square is -1. */
  datatype Curve = Curve(p: int, d: int, root: int)

  const Identity := Point(0, 1)

  /** The even square root candidate for x, whatever y is. */
  function RecoverX(c: Curve, y: int): int
    requires c.p > 2
  {
    var xx := (y * y - 1) * PowMod(c.d * y * y + 1, c.p - 2, c.p);
    var x := PowMod(xx, (c.p + 3) / 8, c.p);
    var x' := if (x * x - xx) % c.p != 0 then x * c.root % c.p else x;
    if x' % 2 != 0 then c.p - x' else x'
  }

  function Cross(c: Curve, P: Point, Q: Point): int
    requires c.p > 2
  {
    c.d * P.x * Q.x * P.y * Q.y % c.p
  }

  function Add(c: Curve, P: Point, Q: Point): (R: Point)
    requires c.p > 2
    ensures 0 <= R.x < c.p && 0 <= R.y < c.p
  {
    var t := Cross(c, P, Q);
    Point((P.x * Q.y + Q.x * P.y) * PowMod(1 + t, c.p - 2, c.p) % c.p,
          (P.y * Q.y + P.x * Q.x) * PowMod(1 - t, c.p - 2, c.p) % c.p)
  }

  function Mul(c: Curve, P: Point, e: nat): (R: Point)
    requires c.p > 2
    ensures 0 <= R.x < c.p && 0 <= R.y < c.p
    decreases e
  {
    if e == 0 then Identity else
      var Q := Mul(c, P, e / 2);
      var D := Add(c, Q, Q);
      if e % 2 == 1 then Add(c, D, P) else D
  }

  predicate OnCurve(c: Curve, P: Point)
    requires c.p > 2
  {
    && 0 <= P.x < c.p && 0 <= P.y < c.p
    && (-P.x * P.x + P.y * P.y - 1 - c.d * P.x * P.x * P.y * P.y) % c.p == 0
  }

  ghost predicate NotSquare(c: Curve)
    requires c.p > 2
  {
    forall s :: (s * s - c.d) % c.p != 0
  }

  /** What is asked of a curve: a prime that leaves 5 modulo 8, a root of -1, and a
      constant that is no square, which is what makes the addition law complete. */
  ghost predicate Sound(c: Curve) {
    && IsPrime(c.p) && c.p % 8 == 5
    && (c.root * c.root + 1) % c.p == 0
    && NotSquare(c)
  }

  /** The one group axiom taken on trust. */
  ghost predicate Associative(c: Curve)
    requires c.p > 2
  {
    forall P, Q, R ::
      OnCurve(c, P) && OnCurve(c, Q) && OnCurve(c, R) ==>
        Add(c, Add(c, P, Q), R) == Add(c, P, Add(c, Q, R))
  }

  // ---- completeness: the denominators never vanish ----------------------------------

  lemma CurveForm(d: int, x: int, y: int)
    ensures d * x * x * y * y == d * (x * y) * (x * y)
    ensures -x * x == -(x * x)
  {
    assert d * x * x * y * y == d * (x * x * y * y);
    assert x * x * y * y == (x * y) * (x * y);
    assert d * (x * y) * (x * y) == d * ((x * y) * (x * y));
  }

  /** The curve equation as a congruence. */
  lemma Equation(c: Curve, P: Point)
    requires c.p > 2 && OnCurve(c, P)
    ensures Cong(P.y * P.y - P.x * P.x, 1 + c.d * (P.x * P.y) * (P.x * P.y), c.p)
  {
    CurveForm(c.d, P.x, P.y);
    CongZero(P.y * P.y - P.x * P.x, 1 + c.d * (P.x * P.y) * (P.x * P.y), c.p);
  }

  /** d times a square is a square only when both are zero. */
  lemma SquareRatio(c: Curve, a: int, b: int)
    requires Sound(c) && Cong(b * b, c.d * (a * a), c.p)
    ensures a % c.p == 0
  {
    if a % c.p != 0 {
      var p, w := c.p, PowMod(a, c.p - 2, c.p);
      Inverse(p, a);
      var s := b * w;
      CongMul(a * w, 1, a * w, 1, p);
      CongMul(b * b, c.d * (a * a), w * w, w * w, p);
      Interchange(b, w, b, w);
      assert (c.d * (a * a)) * (w * w) == c.d * ((a * w) * (a * w)) by {
        Interchange(a, a, w, w);
      }
      CongMul(c.d, c.d, (a * w) * (a * w), 1, p);
      CongZero(s * s, c.d, p);
    }
  }

  /** (i x + s T y)^2, on the curve and with T^2 = 1. */
  lemma SumSquared(p: int, i: int, x: int, y: int, T: int, sign: int, f: int)
    requires p > 0 && Cong(i * i, -1, p) && Cong(T * T, 1, p) && Cong(y * y - x * x, 1 + f, p)
    requires sign == 1 || sign == -1
    ensures Cong((i * x + sign * (T * y)) * (i * x + sign * (T * y)), 1 + f + sign * (2 * (i * (T * (x * y)))), p)
  {
    hide Residue;
    var cross := sign * (2 * (i * (T * (x * y))));
    SquareOfSum(i * x, T * y, sign);
    Interchange(i, x, i, x);
    Interchange(T, y, T, y);
    Interchange(i, x, T, y);
    assert (i * T) * (x * y) == i * (T * (x * y));
    var r := i * x + sign * (T * y);
    assert r * r == (i * i) * (x * x) + (T * T) * (y * y) + cross;
    Combine(i * i, -1, x * x, T * T, 1, y * y, cross, p);
    assert -1 * (x * x) + 1 * (y * y) + cross == (y * y - x * x) + cross;
    CongAdd(y * y - x * x, 1 + f, cross, cross, p);
  }

  /** d (m (i u + s v))^2, for v^2 - u^2 = 1 + g. */
  lemma ScaledSquare(p: int, i: int, u: int, v: int, m: int, d: int, sign: int, g: int)
    requires p > 0 && Cong(i * i, -1, p) && Cong(v * v - u * u, 1 + g, p)
    requires sign == 1 || sign == -1
    ensures var a := m * (i * u + sign * v);
            Cong(d * (a * a), (d * m * m) * (1 + g + sign * (2 * (i * (u * v)))), p)
  {
    hide Residue;
    var w, f := i * u + sign * v, d * m * m;
    var cross := sign * (2 * (i * (u * v)));
    Interchange(m, w, m, w);
    assert d * ((m * m) * (w * w)) == f * (w * w);
    SquareOfSum(i * u, v, sign);
    Interchange(i, u, i, u);
    assert (i * u) * v == i * (u * v);
    assert w * w == (i * i) * (u * u) + 1 * (v * v) + cross;
    Combine(i * i, -1, u * u, 1, 1, v * v, cross, p);
    assert -1 * (u * u) + 1 * (v * v) + cross == (v * v - u * u) + cross;
    CongAdd(v * v - u * u, 1 + g, cross, cross, p);
    CongMul(f, f, w * w, 1 + g + cross, p);
  }

  /** If the cross term were a square root of 1, d would be a square. */
  lemma CrossSquare(c: Curve, P: Point, Q: Point, T: int, sign: int)
    requires Sound(c) && OnCurve(c, P) && OnCurve(c, Q)
    requires T == c.d * (P.x * P.y) * (Q.x * Q.y) && Cong(T * T, 1, c.p)
    requires sign == 1 || sign == -1
    ensures ((P.x * P.y) * (c.root * Q.x + sign * Q.y)) % c.p == 0
  {
    hide Residue, OnCurve;
    var p, i, d := c.p, c.root, c.d;
    var m, n := P.x * P.y, Q.x * Q.y;
    var f, g := d * m * m, d * n * n;
    var a, b := m * (i * Q.x + sign * Q.y), i * P.x + sign * (T * P.y);
    CongZero(i * i, -1, p);
    Equation(c, P);
    Equation(c, Q);
    SumSquared(p, i, P.x, P.y, T, sign, f);
    ScaledSquare(p, i, Q.x, Q.y, m, d, sign, g);
    var cross := sign * (2 * (i * (T * m)));
    CrossProducts(d, m, n);
    SpreadProduct(f, g, n, sign, i, T * T, T * m);
    CongAdd(T * T, 1, f + cross, f + cross, p);
    SquareRatio(c, a, b);
  }

  lemma SquareOfSum(a: int, b: int, sign: int)
    requires sign == 1 || sign == -1
    ensures (a + sign * b) * (a + sign * b) == a * a + b * b + sign * (2 * (a * b))
  {
  }

  lemma CrossProducts(d: int, m: int, n: int)
    ensures (d * m * m) * (d * n * n) == (d * m * n) * (d * m * n)
    ensures (d * m * m) * n == (d * m * n) * m
  {
  }

  lemma SpreadProduct(f: int, g: int, n: int, sign: int, i: int, fg: int, fn: int)
    requires f * g == fg && f * n == fn && (sign == 1 || sign == -1)
    ensures f * (1 + g + sign * (2 * (i * n))) == f + fg + sign * (2 * (i * fn))
  {
    assert f * (i * n) == i * (f * n);
    Distribute(1 + g, sign * (2 * (i * n)), f);
  }

  lemma Combine(a: int, a': int, x: int, b: int, b': int, y: int, z: int, p: int)
    requires p > 0 && Cong(a, a', p) && Cong(b, b', p)
    ensures Cong(a * x + b * y + z, a' * x + b' * y + z, p)
  {
    CongMul(a, a', x, x, p);
    CongMul(b, b', y, y, p);
    CongAdd(a * x, a' * x, b * y, b' * y, p);
    CongAdd(a * x + b * y, a' * x + b' * y, z, z, p);
  }

  lemma OddPrime(c: Curve, a: int)
    requires Sound(c) && (2 * a) % c.p == 0
    ensures a % c.p == 0
  {
    var p := c.p;
    assert IsPrime(p) && p > 2;
    hide *;
    TwoNotZero(p);
    Euclid(p, 2, a);
  }

  lemma TwoNotZero(p: int)
    requires p > 2
    ensures 2 % p == 2
  {
    ModUnique(2, p, 0, 2);
  }

  lemma ProductVanishes(a: int, b: int, p: int)
    requires p > 0 && a % p == 0
    ensures (a * b) % p == 0
  {
    CongMul(a, 0, b, b, p);
  }

  lemma UnitFactor(T: int, m: int, r: int, p: int)
    requires p > 1 && T == m * r && Cong(T * T, 1, p)
    ensures m % p != 0
  {
    assert 1 % p == 1;
    if m % p == 0 {
      ProductVanishes(m, r, p);
      ProductVanishes(T, T, p);
    }
  }

  lemma BothSigns(c: Curve, m: int, a: int, b: int)
    requires Sound(c) && m % c.p != 0
    requires (m * (a + 1 * b)) % c.p == 0 && (m * (a + -1 * b)) % c.p == 0
    ensures b % c.p == 0
  {
    Euclid(c.p, m, a + 1 * b);
    Euclid(c.p, m, a + -1 * b);
    CongSub(a + 1 * b, 0, a + -1 * b, 0, c.p);
    assert (a + 1 * b) - (a + -1 * b) == 2 * b;
    OddPrime(c, b);
  }

  lemma PullOut(d: int, m: int, u: int, v: int)
    ensures d * m * (u * v) == m * (d * (u * v)) == v * (d * m * u)
  {
    assert d * m * (u * v) == (d * m * u) * v;
  }

  /** The cross term of two curve points never squares to 1. */
  lemma CrossNotUnit(c: Curve, P: Point, Q: Point, T: int)
    requires Sound(c) && OnCurve(c, P) && OnCurve(c, Q)
    requires T == c.d * (P.x * P.y) * (Q.x * Q.y)
    ensures !Cong(T * T, 1, c.p)
  {
    if Cong(T * T, 1, c.p) {
      var m, n := P.x * P.y, Q.x * Q.y;
      PullOut(c.d, m, Q.x, Q.y);
      UnitFactor(T, m, c.d * n, c.p);
      UnitFactor(T, Q.y, c.d * m * Q.x, c.p);
      CrossSquare(c, P, Q, T, 1);
      CrossSquare(c, P, Q, T, -1);
      BothSigns(c, m, c.root * Q.x, Q.y);
    }
  }

  lemma UnitSquare(t: int, r: int, p: int)
    requires p > 1 && (r == 1 || r == -1) && Cong(t, r, p)
    ensures Cong(t * t, 1, p)
  {
    CongMul(t, r, t, r, p);
  }

  lemma CrossForm(d: int, x: int, u: int, y: int, v: int)
    ensures d * x * u * y * v == d * (x * y) * (u * v)
  {
    assert d * x * u * y * v == d * (x * u * y * v);
    assert x * u * y * v == (x * y) * (u * v);
  }

  /** Both denominators of an addition are invertible. */
  lemma Complete(c: Curve, P: Point, Q: Point)
    requires Sound(c) && OnCurve(c, P) && OnCurve(c, Q)
    ensures var t := Cross(c, P, Q);
            && (1 + t) % c.p != 0 && (1 - t) % c.p != 0
            && Cong(t, c.d * (P.x * P.y) * (Q.x * Q.y), c.p)
  {
    var p, t := c.p, Cross(c, P, Q);
    var T := c.d * (P.x * P.y) * (Q.x * Q.y);
    CrossForm(c.d, P.x, Q.x, P.y, Q.y);
    CongMod(T, p);
    CrossNotUnit(c, P, Q, T);
    CongMul(t, T, t, T, p);
    CongZero(t, -1, p);
    CongZero(1, t, p);
    if (1 + t) % p == 0 {
      UnitSquare(t, -1, p);
    }
    if (1 - t) % p == 0 {
      UnitSquare(t, 1, p);
    }
  }

  // ---- closure ------------------------------------------------------------------------

  /** The quotient form of an addition: denominator times coordinate is the numerator. */
  lemma Fraction(p: int, n: int, u: int)
    requires IsPrime(p) && u % p != 0
    ensures Cong(u * (n * PowMod(u, p - 2, p) % p), n, p)
  {
    var w := PowMod(u, p - 2, p);
    Inverse(p, u);
    CongMod(n * w, p);
    CongMul(u, u, n * w % p, n * w, p);
    CongMul(u * w, 1, n, n, p);
    assert u * (n * w) == (u * w) * n;
  }

  lemma Foil(a: int, b: int, c: int, d: int)
    ensures (a + b) * (c + d) == a * c + a * d + b * c + b * d
  {
    Distribute(a, b, c + d);
    Distribute(c, d, a);
    Distribute(c, d, b);
  }

  lemma EdwardsIdentity(f: int, g: int)
    ensures (1 + f * g) * ((1 + f) * (1 + g)) - (1 - f * g) * (1 - f * g)
            == f * ((1 + g) * (1 + g)) + g * ((1 + f) * (1 + f))
  {
    var h := f * g;
    Foil(1, f, 1, g);
    Foil(1, h, 1 + h, f + g);
    Foil(1, h, 1, h);
    Foil(1, -h, 1, -h);
    Foil(1, g, 1, g);
    Foil(1, f, 1, f);
    Foil(0, f, 1 + 2 * g, g * g);
    Foil(0, g, 1 + 2 * f, f * f);
    Foil(0, h, f, g);
    assert f * (g * g) == h * g;
    assert g * (f * f) == h * f;
  }

  lemma NumeratorSquares(x1: int, y1: int, x2: int, y2: int)
    ensures var N, M := x1 * y2 + x2 * y1, y1 * y2 + x1 * x2;
            var a, b, c, d := x1 * x1, y1 * y1, x2 * x2, y2 * y2;
            var k := (x1 * y1) * (x2 * y2);
            N * N == a * d + c * b + 2 * k && M * M == b * d + a * c + 2 * k
  {
    Foil(x1 * y2, x2 * y1, x1 * y2, x2 * y1);
    Foil(y1 * y2, x1 * x2, y1 * y2, x1 * x2);
    Interchange(x1, y2, x1, y2);
    Interchange(x2, y1, x2, y1);
    Interchange(y1, y2, y1, y2);
    Interchange(x1, x2, x1, x2);
    Interchange(x1, y2, y1, x2);
    Interchange(y1, y2, x1, x2);
  }

  lemma NumeratorProduct(x1: int, y1: int, x2: int, y2: int)
    ensures (x1 * y2 + x2 * y1) * (y1 * y2 + x1 * x2)
            == (x1 * y1) * (y2 * y2 + x2 * x2) + (x2 * y2) * (y1 * y1 + x1 * x1)
  {
    Foil(x1 * y2, x2 * y1, y1 * y2, x1 * x2);
    Interchange(x1, y2, y1, y2);
    Interchange(x1, y2, x1, x2);
    Interchange(x2, y1, y1, y2);
    Interchange(x2, y1, x1, x2);
    Interchange(x2, y1, x2, x1);
    Interchange(x1, x1, y2, x2);
    Interchange(x2, y2, y1, y1);
    Foil(0, x1 * y1, y2 * y2, x2 * x2);
    Foil(0, x2 * y2, y1 * y1, x1 * x1);
  }

  lemma SumOfSquares(x: int, y: int)
    ensures (y * y + x * x) * (y * y + x * x) == (y * y - x * x) * (y * y - x * x) + 4 * ((x * y) * (x * y))
  {
    Foil(y * y, x * x, y * y, x * x);
    Foil(y * y, -(x * x), y * y, -(x * x));
    Interchange(x, y, x, y);
  }

  /** (1+T)^2 M^2 - (1-T)^2 N^2, regrouped. */
  lemma LeftSide(T: int, N: int, M: int, e: int, s: int, k: int)
    requires M * M - N * N == e && M * M + N * N == s + 4 * k
    ensures ((1 + T) * M) * ((1 + T) * M) - ((1 - T) * N) * ((1 - T) * N)
            == (1 + T * T) * e + 2 * (T * s) + 8 * (T * k)
  {
    Interchange(1 + T, M, 1 + T, M);
    Interchange(1 - T, N, 1 - T, N);
    Foil(1, T, 1, T);
    Foil(1, -T, 1, -T);
    var a, b, t := M * M, N * N, T * T;
    Foil(1 + t, 2 * T, a, 0);
    Foil(1 + t, -(2 * T), b, 0);
    Foil(1 + t, 0, a, -b);
    Foil(2 * T, 0, a, b);
    Foil(2 * T, 0, s, 4 * k);
  }

  lemma CrossSumSquared(m: int, n: int, s1: int, s2: int)
    ensures (m * s2 + n * s1) * (m * s2 + n * s1)
            == (m * m) * (s2 * s2) + (n * n) * (s1 * s1) + 2 * ((m * n) * (s1 * s2))
  {
    Foil(m * s2, n * s1, m * s2, n * s1);
    Interchange(m, s2, m, s2);
    Interchange(n, s1, n, s1);
    Interchange(m, s2, n, s1);
  }

  lemma SpreadScale(d: int, r: int, a: int, b: int, x: int)
    requires r == a + b + 2 * x
    ensures d * r == d * a + d * b + 2 * (d * x)
  {
  }

  lemma SquareOfCrossSum(d: int, m: int, n: int, s1: int, s2: int)
    ensures d * ((m * s2 + n * s1) * (m * s2 + n * s1))
            == (d * m * m) * (s2 * s2) + (d * n * n) * (s1 * s1) + 2 * ((d * m * n) * (s1 * s2))
  {
    CrossSumSquared(m, n, s1, s2);
    var a, b, x := (m * m) * (s2 * s2), (n * n) * (s1 * s1), (m * n) * (s1 * s2);
    var r := m * s2 + n * s1;
    SpreadScale(d, r * r, a, b, x);
    Associate(d, m, m, s2 * s2);
    Associate(d, n, n, s1 * s1);
    Associate(d, m, n, s1 * s2);
  }

  /** d (N M)^2, regrouped. */
  lemma RightSide(d: int, m: int, n: int, s1: int, s2: int, q1: int, q2: int)
    requires s1 * s1 == q1 + 4 * (m * m) && s2 * s2 == q2 + 4 * (n * n)
    ensures var r := m * s2 + n * s1;
            var T := d * m * n;
            d * (r * r) == (d * m * m) * q2 + (d * n * n) * q1 + 8 * (T * (m * n)) + 2 * (T * (s1 * s2))
  {
    SquareOfCrossSum(d, m, n, s1, s2);
    Distribute(q2, 4 * (n * n), d * m * m);
    Distribute(q1, 4 * (m * m), d * n * n);
    FourFactors(d, m, n);
  }

  lemma Associate(d: int, a: int, b: int, x: int)
    ensures d * ((a * b) * x) == (d * a * b) * x
  {
  }

  lemma FourFactors(d: int, m: int, n: int)
    ensures (d * m * m) * (4 * (n * n)) == 4 * ((d * m * n) * (m * n))
    ensures (d * n * n) * (4 * (m * m)) == 4 * ((d * m * n) * (m * n))
  {
    assert (d * m * m) * (n * n) == (d * m * n) * (m * n);
    assert (d * n * n) * (m * m) == (d * m * n) * (m * n);
  }

  lemma SubstituteEquations(f: int, g: int, e1: int, e2: int, p: int)
    requires p > 0 && Cong(e1, 1 + f, p) && Cong(e2, 1 + g, p)
    ensures Cong((1 + f * g) * (e1 * e2) - (f * (e2 * e2) + g * (e1 * e1)), (1 - f * g) * (1 - f * g), p)
  {
    hide Residue;
    CongMul(e1, 1 + f, e2, 1 + g, p);
    CongMul(e1, 1 + f, e1, 1 + f, p);
    CongMul(e2, 1 + g, e2, 1 + g, p);
    CongMul(1 + f * g, 1 + f * g, e1 * e2, (1 + f) * (1 + g), p);
    CongMul(f, f, e2 * e2, (1 + g) * (1 + g), p);
    CongMul(g, g, e1 * e1, (1 + f) * (1 + f), p);
    CongAdd(f * (e2 * e2), f * ((1 + g) * (1 + g)), g * (e1 * e1), g * ((1 + f) * (1 + f)), p);
    CongSub((1 + f * g) * (e1 * e2), (1 + f * g) * ((1 + f) * (1 + g)),
            f * (e2 * e2) + g * (e1 * e1), f * ((1 + g) * (1 + g)) + g * ((1 + f) * (1 + f)), p);
    EdwardsIdentity(f, g);
  }

  /** The numerators satisfy the curve equation cleared of denominators. */
  lemma ClearedEquation(c: Curve, P: Point, Q: Point)
    requires c.p > 2 && OnCurve(c, P) && OnCurve(c, Q)
    ensures var N, M := P.x * Q.y + Q.x * P.y, P.y * Q.y + P.x * Q.x;
            var T := c.d * (P.x * P.y) * (Q.x * Q.y);
            Cong(((1 + T) * M) * ((1 + T) * M) - ((1 - T) * N) * ((1 - T) * N) - c.d * ((N * M) * (N * M)),
                 (1 - T * T) * (1 - T * T), c.p)
  {
    hide Residue, OnCurve;
    var x1, y1, x2, y2, d := P.x, P.y, Q.x, Q.y, c.d;
    var m, n := x1 * y1, x2 * y2;
    var T, f, g := d * m * n, d * m * m, d * n * n;
    var e1, e2 := y1 * y1 - x1 * x1, y2 * y2 - x2 * x2;
    var s := (y1 * y1 + x1 * x1) * (y2 * y2 + x2 * x2);
    Equation(c, P);
    Equation(c, Q);
    LeftNumerators(x1, y1, x2, y2, T);
    RightNumerators(d, x1, y1, x2, y2);
    CrossProducts(d, m, n);
    SubstituteEquations(f, g, e1, e2, c.p);
    Difference(T * T, f * g, e1 * e2, 2 * (T * s), 8 * (T * (m * n)), f * (e2 * e2) + g * (e1 * e1));
  }

  lemma LeftNumerators(x1: int, y1: int, x2: int, y2: int, T: int)
    ensures var N, M := x1 * y2 + x2 * y1, y1 * y2 + x1 * x2;
            ((1 + T) * M) * ((1 + T) * M) - ((1 - T) * N) * ((1 - T) * N)
            == (1 + T * T) * ((y1 * y1 - x1 * x1) * (y2 * y2 - x2 * x2))
               + 2 * (T * ((y1 * y1 + x1 * x1) * (y2 * y2 + x2 * x2))) + 8 * (T * ((x1 * y1) * (x2 * y2)))
  {
    var N, M := x1 * y2 + x2 * y1, y1 * y2 + x1 * x2;
    var e, s := (y1 * y1 - x1 * x1) * (y2 * y2 - x2 * x2), (y1 * y1 + x1 * x1) * (y2 * y2 + x2 * x2);
    NumeratorSquares(x1, y1, x2, y2);
    Foil(y1 * y1, -(x1 * x1), y2 * y2, -(x2 * x2));
    Foil(y1 * y1, x1 * x1, y2 * y2, x2 * x2);
    LeftSide(T, N, M, e, s, (x1 * y1) * (x2 * y2));
  }

  lemma RightNumerators(d: int, x1: int, y1: int, x2: int, y2: int)
    ensures var N, M := x1 * y2 + x2 * y1, y1 * y2 + x1 * x2;
            var m, n := x1 * y1, x2 * y2;
            var e1, e2 := y1 * y1 - x1 * x1, y2 * y2 - x2 * x2;
            var T := d * m * n;
            d * ((N * M) * (N * M))
            == (d * m * m) * (e2 * e2) + (d * n * n) * (e1 * e1) + 8 * (T * (m * n))
               + 2 * (T * ((y1 * y1 + x1 * x1) * (y2 * y2 + x2 * x2)))
  {
    var e1, e2 := y1 * y1 - x1 * x1, y2 * y2 - x2 * x2;
    NumeratorProduct(x1, y1, x2, y2);
    SumOfSquares(x1, y1);
    SumOfSquares(x2, y2);
    RightSide(d, x1 * y1, x2 * y2, y1 * y1 + x1 * x1, y2 * y2 + x2 * x2, e1 * e1, e2 * e2);
  }

  lemma Difference(t: int, h: int, e: int, u: int, v: int, w: int)
    requires t == h
    ensures (1 + t) * e + u + v - (w + v + u) == (1 + h) * e - w
    ensures (1 - t) * (1 - t) == (1 - h) * (1 - h)
  {
  }

  lemma ClearDenominators(p: int, d: int, u: int, v: int, x: int, y: int)
    ensures ((u * v) * (u * v)) * (-x * x + y * y - 1 - d * x * x * y * y)
            == (u * (v * y)) * (u * (v * y)) - (v * (u * x)) * (v * (u * x))
               - d * (((u * x) * (v * y)) * ((u * x) * (v * y)))
               - (u * v) * (u * v)
  {
    var k := u * v;
    assert u * (v * y) == k * y && v * (u * x) == k * x;
    Interchange(u, x, v, y);
    Interchange(k, y, k, y);
    Interchange(k, x, k, x);
    Interchange(k, x * y, k, x * y);
    Interchange(x, y, x, y);
    var w := k * k;
    assert d * (w * ((x * x) * (y * y))) == w * (d * x * x * y * y) by {
      assert d * x * x * y * y == d * ((x * x) * (y * y));
    }
    Foil(w, 0, y * y - x * x, -1 - d * x * x * y * y);
    Foil(w, 0, y * y, -(x * x));
    Foil(w, 0, -1, -(d * x * x * y * y));
  }

  lemma QuotientEquation(p: int, d: int, u: int, v: int, x: int, y: int, A: int, B: int, C: int, D: int)
    requires p > 0 && Cong(u * (v * y), A, p) && Cong(v * (u * x), B, p)
    requires Cong((u * x) * (v * y), C, p) && Cong(u * v, D, p)
    requires Cong(A * A - B * B - d * (C * C), D * D, p)
    ensures Cong(((u * v) * (u * v)) * (-x * x + y * y - 1 - d * x * x * y * y), 0, p)
  {
    hide Residue;
    var a, b, e, k := u * (v * y), v * (u * x), (u * x) * (v * y), u * v;
    CongMul(a, A, a, A, p);
    CongMul(b, B, b, B, p);
    CongMul(e, C, e, C, p);
    CongMul(d, d, e * e, C * C, p);
    CongMul(k, D, k, D, p);
    CongSub(a * a, A * A, b * b, B * B, p);
    CongSub(a * a - b * b, A * A - B * B, d * (e * e), d * (C * C), p);
    CongSub(a * a - b * b - d * (e * e), D * D, k * k, D * D, p);
    ClearDenominators(p, d, u, v, x, y);
  }

  lemma ClosureStep(p: int, d: int, u: int, v: int, x: int, y: int, T: int, N: int, M: int)
    requires p > 0 && Cong(u, 1 + T, p) && Cong(v, 1 - T, p) && Cong(u * x, N, p) && Cong(v * y, M, p)
    requires Cong(((1 + T) * M) * ((1 + T) * M) - ((1 - T) * N) * ((1 - T) * N) - d * ((N * M) * (N * M)),
                  (1 - T * T) * (1 - T * T), p)
    ensures Cong(((u * v) * (u * v)) * (-x * x + y * y - 1 - d * x * x * y * y), 0, p)
  {
    hide Residue;
    CongMul(u, 1 + T, v * y, M, p);
    CongMul(v, 1 - T, u * x, N, p);
    CongMul(u * x, N, v * y, M, p);
    CongMul(u, 1 + T, v, 1 - T, p);
    Foil(1, T, 1, -T);
    QuotientEquation(p, d, u, v, x, y, (1 + T) * M, (1 - T) * N, N * M, 1 - T * T);
  }

  lemma CancelSquare(p: int, u: int, v: int, z: int)
    requires IsPrime(p) && u % p != 0 && v % p != 0 && Cong(((u * v) * (u * v)) * z, 0, p)
    ensures z % p == 0
  {
    Euclid(p, (u * v) * (u * v), z);
    if z % p != 0 {
      Euclid(p, u * v, u * v);
      Euclid(p, u, v);
    }
  }

  /** Adding two points of the curve gives a point of the curve. */
  lemma AddOnCurve(c: Curve, P: Point, Q: Point)
    requires Sound(c) && OnCurve(c, P) && OnCurve(c, Q)
    ensures OnCurve(c, Add(c, P, Q))
  {
    var p, t, R := c.p, Cross(c, P, Q), Add(c, P, Q);
    var T := c.d * (P.x * P.y) * (Q.x * Q.y);
    var N, M := P.x * Q.y + Q.x * P.y, P.y * Q.y + P.x * Q.x;
    Complete(c, P, Q);
    Fraction(p, N, 1 + t);
    Fraction(p, M, 1 - t);
    CongAdd(1, 1, t, T, p);
    CongSub(1, 1, t, T, p);
    ClearedEquation(c, P, Q);
    ClosureStep(p, c.d, 1 + t, 1 - t, R.x, R.y, T, N, M);
    CancelSquare(p, 1 + t, 1 - t, -R.x * R.x + R.y * R.y - 1 - c.d * R.x * R.x * R.y * R.y);
  }

  // ---- the group as the code uses it ----------------------------------------------------

  lemma IdentityCoordinates(p: int, d: int, x: int, y: int)
    requires p > 1 && 0 <= x < p && 0 <= y < p
    ensures d * x * 0 * y * 1 % p == 0 && d * 0 * x * 1 * y % p == 0
    ensures (x * 1 + 0 * y) * (1 % p) % p == x && (0 * y + x * 1) * (1 % p) % p == x
    ensures (y * 1 + x * 0) * (1 % p) % p == y && (1 * y + 0 * x) * (1 % p) % p == y
  {
    assert d * x * 0 * y * 1 == 0 && d * 0 * x * 1 * y == 0;
    SmallResidue(0, p);
    SmallResidue(1, p);
    SmallResidue(x, p);
    SmallResidue(y, p);
  }

  lemma AddIdentity(c: Curve, P: Point)
    requires Sound(c) && OnCurve(c, P)
    ensures Add(c, P, Identity) == P && Add(c, Identity, P) == P
  {
    PowOne(c.p - 2);
    IdentityCoordinates(c.p, c.d, P.x, P.y);
  }

  lemma IdentityOnCurve(c: Curve)
    requires c.p > 2
    ensures OnCurve(c, Identity)
  {
    assert -0 * 0 + 1 * 1 - 1 - c.d * 0 * 0 * 1 * 1 == 0;
  }

  lemma AddCommutes(c: Curve, P: Point, Q: Point)
    requires c.p > 2
    ensures Add(c, P, Q) == Add(c, Q, P)
  {
    CrossForm(c.d, P.x, Q.x, P.y, Q.y);
    CrossForm(c.d, Q.x, P.x, Q.y, P.y);
    assert c.d * (P.x * P.y) * (Q.x * Q.y) == c.d * (Q.x * Q.y) * (P.x * P.y);
  }

  /** Adding P to itself e times: what a scalar multiple means. */
  function Repeat(c: Curve, P: Point, e: nat): Point
    requires c.p > 2
  {
    if e == 0 then Identity else Add(c, Repeat(c, P, e - 1), P)
  }

  lemma {:induction false} RepeatOnCurve(c: Curve, P: Point, e: nat)
    requires Sound(c) && OnCurve(c, P)
    ensures OnCurve(c, Repeat(c, P, e))
  {
    IdentityOnCurve(c);
    if e > 0 {
      RepeatOnCurve(c, P, e - 1);
      AddOnCurve(c, Repeat(c, P, e - 1), P);
    }
  }

  lemma {:induction false} RepeatAdd(c: Curve, P: Point, e: nat, f: nat)
    requires Sound(c) && Associative(c) && OnCurve(c, P)
    ensures Repeat(c, P, e + f) == Add(c, Repeat(c, P, e), Repeat(c, P, f))
  {
    hide Add, Cross, OnCurve, Mul;
    RepeatOnCurve(c, P, e);
    if f == 0 {
      AddIdentity(c, Repeat(c, P, e));
    } else {
      RepeatAdd(c, P, e, f - 1);
      RepeatOnCurve(c, P, f - 1);
    }
  }

  lemma {:induction false} RepeatTimes(c: Curve, P: Point, e: nat, f: nat)
    requires Sound(c) && Associative(c) && OnCurve(c, P)
    ensures e * f >= 0 && Repeat(c, P, e * f) == Repeat(c, Repeat(c, P, e), f)
  {
    hide Add, Cross, OnCurve, Mul;
    if f > 0 {
      RepeatTimes(c, P, e, f - 1);
      Distribute(f - 1, 1, e);
      RepeatAdd(c, P, e * (f - 1), e);
    }
  }

  /** Double-and-add is repeated addition. */
  lemma {:induction false} MulIsRepeat(c: Curve, P: Point, e: nat)
    requires Sound(c) && Associative(c) && OnCurve(c, P)
    ensures Mul(c, P, e) == Repeat(c, P, e)
    decreases e
  {
    if e > 0 {
      MulIsRepeat(c, P, e / 2);
      RepeatAdd(c, P, e / 2, e / 2);
    }
  }

  lemma RepeatSplit(c: Curve, P: Point, n: nat, q: nat, r: nat)
    requires Sound(c) && Associative(c) && OnCurve(c, P) && Repeat(c, P, n) == Identity
    ensures n * q >= 0 && Repeat(c, P, n * q + r) == Repeat(c, P, r)
  {
    hide Add, Cross, OnCurve, Mul;
    RepeatTimes(c, P, n, q);
    RepeatIdentity(c, q);
    RepeatAdd(c, P, n * q, r);
    RepeatOnCurve(c, P, r);
    AddIdentity(c, Repeat(c, P, r));
  }

  /** Scalars of a point whose n-fold sum is the identity matter only modulo n. */
  lemma RepeatReduced(c: Curve, P: Point, n: nat, e: nat)
    requires Sound(c) && Associative(c) && OnCurve(c, P)
    requires n > 0 && Repeat(c, P, n) == Identity
    ensures Repeat(c, P, e) == Repeat(c, P, e % n)
  {
    hide *;
    Bits.DivMod(e, n);
    RepeatSplit(c, P, n, e / n, e % n);
  }

  lemma {:induction false} RepeatIdentity(c: Curve, e: nat)
    requires Sound(c)
    ensures Repeat(c, Identity, e) == Identity
  {
    hide Add, Cross, OnCurve, Mul;
    IdentityOnCurve(c);
    if e > 0 {
      RepeatIdentity(c, e - 1);
      AddIdentity(c, Identity);
    }
  }

  // ---- recovering x ---------------------------------------------------------------------

  /** The exponent (p + 3) / 8 takes a square to a root of it or of its negative. */
  lemma RootUpToSign(c: Curve, xx: int, x0: int)
    requires Sound(c) && Cong(xx, x0 * x0, c.p)
    ensures var x := PowMod(xx, (c.p + 3) / 8, c.p);
            Cong(x * x, xx, c.p) || Cong(x * x, -xx, c.p)
  {
    var p, m, h := c.p, (c.p + 3) / 8, (c.p - 1) / 2;
    var r, x, z := Pow(xx, m), PowMod(xx, m, p), Pow(x0, h);
    CongMod(r, p);
    CongMul(x, r, x, r, p);
    CongPow(xx, x0 * x0, m, p);
    CongMul(r, Pow(x0 * x0, m), r, Pow(x0 * x0, m), p);
    PowProduct(x0, x0, m);
    PowAdd(x0, m, m);
    PowAdd(x0, 2 * m, 2 * m);
    PowAdd(x0, 2, h);
    assert 4 * m == 2 + h;
    assert Pow(x0, 2) == x0 * x0 by { assert Pow(x0, 1) == x0 * Pow(x0, 0); }
    assert Cong(x * x, (x0 * x0) * z, p);
    SquareRootOfOne(p, x0, h);
    if x0 % p == 0 {
      CongMul(x0, 0, x0, 0, p);
      CongMul(x0 * x0, 0, z, z, p);
    } else if Cong(z, 1, p) {
      CongMul(x0 * x0, xx, z, 1, p);
    } else {
      CongMul(x0 * x0, xx, z, -1, p);
    }
  }

  lemma SquareRootOfOne(p: int, a: int, h: nat)
    requires IsPrime(p) && p - 1 == 2 * h
    ensures a % p == 0 || Cong(Pow(a, h), 1, p) || Cong(Pow(a, h), -1, p)
  {
    if a % p != 0 {
      var z := Pow(a, h);
      PowAdd(a, h, h);
      Fermat(p, a);
      CongZero(z * z, 1, p);
      assert (z - 1) * (z + 1) == z * z - 1;
      Euclid(p, z - 1, z + 1);
      CongZero(z, 1, p);
      CongZero(z, -1, p);
    }
  }

  /** d y^2 + 1 is invertible, so y determines x^2. */
  lemma DenominatorOfY(c: Curve, y: int)
    requires Sound(c)
    ensures (c.d * y * y + 1) % c.p != 0
  {
    var s := c.d * y * y;
    assert s == c.d * (y * y);
    SmallResidue(1, c.p);
    if (s + 1) % c.p == 0 {
      RootOverY(c, y, s);
    }
  }

  lemma SmallResidue(a: int, p: int)
    requires 0 <= a < p
    ensures a % p == a
  {
  }

  lemma RootOverY(c: Curve, y: int, s: int)
    requires Sound(c) && s == c.d * (y * y) && (s + 1) % c.p == 0
    ensures 1 % c.p == 0
  {
    var p, i := c.p, c.root;
    CongZero(s, -1, p);
    CongZero(i * i, -1, p);
    SquareRatio(c, y, i);
    ProductVanishes(y, c.d * y, p);
    assert y * (c.d * y) == s;
    CongSub(s + 1, 0, s, 0, p);
  }

  lemma XSquared(c: Curve, P: Point)
    requires Sound(c) && OnCurve(c, P)
    ensures Cong((P.y * P.y - 1) * PowMod(c.d * P.y * P.y + 1, c.p - 2, c.p), P.x * P.x, c.p)
  {
    var p, x, y := c.p, P.x, P.y;
    var u := c.d * y * y + 1;
    DenominatorOfY(c, y);
    Inverse(p, u);
    XEquation(c.d, x, y);
    var z := -x * x + y * y - 1 - c.d * x * x * y * y;
    CongZero(z, 0, p);
    CongMul(-1, -1, z, 0, p);
    CongAdd(y * y - 1, y * y - 1, -z, 0, p);
    assert (x * x) * u == y * y - 1 + -z;
    DivideOut(p, x * x, u, y * y - 1, PowMod(u, p - 2, p));
  }

  lemma DivideOut(p: int, a: int, u: int, n: int, w: int)
    requires p > 0 && Cong(a * u, n, p) && Cong(u * w, 1, p)
    ensures Cong(n * w, a, p)
  {
    hide Residue;
    CongMul(a * u, n, w, w, p);
    CongMul(a, a, u * w, 1, p);
    assert (a * u) * w == a * (u * w);
  }

  lemma XEquation(d: int, x: int, y: int)
    ensures (x * x) * (d * y * y + 1) - (y * y - 1) == -(-x * x + y * y - 1 - d * x * x * y * y)
  {
    CurveForm(d, x, y);
    Distribute(d * y * y, 1, x * x);
    assert (d * y * y) * (x * x) == d * x * x * y * y;
  }

  /** Whether or not it had to be multiplied by the root of -1, the candidate squares right. */
  lemma CandidateSquares(c: Curve, xx: int, x0: int)
    requires Sound(c) && Cong(xx, x0 * x0, c.p)
    ensures var x := PowMod(xx, (c.p + 3) / 8, c.p);
            var r := if (x * x - xx) % c.p != 0 then x * c.root % c.p else x;
            0 <= r < c.p && Cong(r * r, x0 * x0, c.p)
  {
    var x := PowMod(xx, (c.p + 3) / 8, c.p);
    RootUpToSign(c, xx, x0);
    CongZero(x * x, xx, c.p);
    if (x * x - xx) % c.p != 0 {
      TimesRoot(c, x, xx);
    }
  }

  /** On a curve point's y, the recovered x is the even one of the two roots. */
  lemma RecoverXCorrect(c: Curve, P: Point)
    requires Sound(c) && OnCurve(c, P)
    ensures RecoverX(c, P.y) == if P.x % 2 == 0 then P.x else c.p - P.x
  {
    var xx := (P.y * P.y - 1) * PowMod(c.d * P.y * P.y + 1, c.p - 2, c.p);
    var x := PowMod(xx, (c.p + 3) / 8, c.p);
    var r := if (x * x - xx) % c.p != 0 then x * c.root % c.p else x;
    XSquared(c, P);
    CandidateSquares(c, xx, P.x);
    EqualSquares(c.p, r, P.x);
    EvenRoot(c.p, r, P.x);
  }

  lemma EvenRoot(p: int, r: int, x: int)
    requires p % 8 == 5 && 0 <= r < p && 0 <= x < p && (r == x || r == p - x)
    ensures (if r % 2 != 0 then p - r else r) == if x % 2 == 0 then x else p - x
  {
  }

  lemma TimesRoot(c: Curve, x: int, xx: int)
    requires Sound(c) && Cong(x * x, -xx, c.p)
    ensures var r := x * c.root % c.p; Cong(r * r, xx, c.p)
  {
    var p, i := c.p, c.root;
    var r := x * i % p;
    CongMod(x * i, p);
    CongMul(r, x * i, r, x * i, p);
    Interchange(x, i, x, i);
    CongZero(i * i, -1, p);
    CongMul(x * x, -xx, i * i, -1, p);
  }

  lemma SumVanishes(p: int, a: int, b: int)
    requires p > 0 && 0 <= a < p && 0 <= b < p && (a + b) % p == 0
    ensures a == p - b || (a == 0 && b == 0)
  {
    if a + b < p {
      ModUnique(a + b, p, 0, a + b);
    } else {
      ModUnique(a + b, p, 1, a + b - p);
    }
  }

  lemma DifferenceOfSquares(a: int, b: int)
    ensures (a - b) * (a + b) == a * a - b * b
  {
  }

  lemma EuclidDifference(p: int, a: int, b: int)
    requires IsPrime(p) && (a * a - b * b) % p == 0
    ensures (a - b) % p == 0 || (a + b) % p == 0
  {
    hide *;
    DifferenceOfSquares(a, b);
    Euclid(p, a - b, a + b);
  }

  lemma EqualSquares(p: int, a: int, b: int)
    requires IsPrime(p) && 0 <= a < p && 0 <= b < p && Cong(a * a, b * b, p)
    ensures a == b || a == p - b
  {
    CongZero(a * a, b * b, p);
    EuclidDifference(p, a, b);
    if (a - b) % p == 0 {
      CongZero(a, b, p);
      SmallResidue(a, p);
      SmallResidue(b, p);
    } else {
      SumVanishes(p, a, b);
    }
  }

  lemma HalfPower(p: int, s: int)
    requires IsPrime(p) && p % 2 == 1 && s % p != 0
    ensures Cong(Pow(s * s, (p - 1) / 2), 1, p)
  {
    var h := (p - 1) / 2;
    Fermat(p, s);
    PowProduct(s, s, h);
    PowAdd(s, h, h);
    assert h + h == p - 1;
  }

  /** (2 j)^h is (1 + j)^(p-1), which is 1. */
  lemma PowerOfTwiceRoot(p: int, j: int, h: nat)
    requires IsPrime(p) && p % 8 == 5 && Cong(j * j, -1, p) && h == (p - 1) / 2
    ensures Cong(Pow(2, h) * Pow(j, h), 1, p)
  {
    hide Residue;
    var s := (1 + j) * (1 + j);
    assert s == 1 + 2 * j + j * j;
    CongAdd(1 + 2 * j, 1 + 2 * j, j * j, -1, p);
    OnePlusRoot(p, j);
    assert p % 2 == 1;
    HalfPower(p, 1 + j);
    CongPow(s, 2 * j, h, p);
    PowProduct(2, j, h);
  }

  lemma NegatedOne(p: int, a: int, b: int)
    requires p > 0 && Cong(a * b, 1, p) && Cong(b, -1, p)
    ensures Cong(a, -1, p)
  {
    CongMul(a, a, b, -1, p);
    CongSub(0, 0, a * b, 1, p);
    CongSub(0, 0, a * -1, a * b, p);
    assert 0 - a * -1 == a;
  }

  /** 2^((p-1)/2) is -1, because (1 + j)^2 is 2 j and j^((p-1)/2) is -1 where 4 does not
      divide (p-1)/2. */
  lemma TwoToHalf(p: int, j: int)
    requires IsPrime(p) && p % 8 == 5 && (j * j + 1) % p == 0
    ensures Cong(Pow(2, (p - 1) / 2), -1, p)
  {
    var h := (p - 1) / 2;
    CongZero(j * j, -1, p);
    assert h % 4 == 2;
    hide Residue;
    PowerOfTwiceRoot(p, j, h);
    RootPower(p, j, h);
    NegatedOne(p, Pow(2, h), Pow(j, h));
  }

  /** In a field with 5 modulo 8 elements, 2^((p-1)/4) squares to -1. */
  lemma RootOfMinusOne(p: int, j: int)
    requires IsPrime(p) && p % 8 == 5 && (j * j + 1) % p == 0
    ensures var i := PowMod(2, (p - 1) / 4, p); (i * i + 1) % p == 0
  {
    var h, q := (p - 1) / 2, (p - 1) / 4;
    TwoToHalf(p, j);
    var i := PowMod(2, q, p);
    CongMod(Pow(2, q), p);
    CongMul(i, Pow(2, q), i, Pow(2, q), p);
    PowAdd(2, q, q);
    assert q + q == h;
    CongZero(i * i, -1, p);
  }

  /** -1 being a square and 2 none, minus twice a square is none. */
  lemma MinusTwiceSquare(p: int, j: int, t: int, d: int, s: int)
    requires IsPrime(p) && p % 8 == 5 && (j * j + 1) % p == 0
    requires (-2 * t * t - d) % p == 0 && t % p != 0
    ensures (s * s - d) % p != 0
  {
    if (s * s - d) % p == 0 {
      var u, h := j * t, (p - 1) / 2;
      SquareIsTwice(p, j, t, d, s);
      NonZeroFactors(p, j, t, s);
      HalfPower(p, s);
      HalfPower(p, u);
      TwoToHalf(p, j);
      CongPow(s * s, 2 * (u * u), h, p);
      PowProduct(2, u * u, h);
      CongMul(Pow(2, h), -1, Pow(u * u, h), 1, p);
      CongZero(1, -1, p);
    }
  }

  lemma SquareIsTwice(p: int, j: int, t: int, d: int, s: int)
    requires p > 2 && (j * j + 1) % p == 0 && (-2 * t * t - d) % p == 0 && (s * s - d) % p == 0
    ensures Cong(s * s, 2 * ((j * t) * (j * t)), p)
  {
    CongZero(s * s, d, p);
    CongZero(-2 * t * t, d, p);
    CongZero(j * j, -1, p);
    CongMul(j * j, -1, -2 * t * t, -2 * t * t, p);
    TwiceRegroup(j, t);
    CongMul(-1, -1, j * j * (-2 * t * t), -1 * (-2 * t * t), p);
    assert -1 * (-1 * (-2 * t * t)) == -2 * t * t;
  }

  lemma TwiceRegroup(j: int, t: int)
    ensures -1 * (j * j * (-2 * t * t)) == 2 * ((j * t) * (j * t))
  {
    Interchange(j, j, t, t);
    assert -2 * t * t == -2 * (t * t);
    Distribute(j * j, -1, 1);
    assert j * j * (-2 * (t * t)) == -2 * (j * j * (t * t)) by { Regroup(j * j, -2, t * t); }
  }

  lemma SquareOfZero(p: int, s: int, n: int)
    requires p > 0 && Cong(s * s, n, p) && s % p == 0
    ensures n % p == 0
  {
    CongZero(s, 0, p);
    CongMul(s, 0, s, 0, p);
    CongZero(n, 0, p);
  }

  lemma RootNotZero(p: int, j: int)
    requires p > 2 && (j * j + 1) % p == 0
    ensures j % p != 0
  {
    if j % p == 0 {
      CongZero(j * j, -1, p);
      SquareOfZero(p, j, -1);
      CongZero(0, -1, p);
      CongZero(-1, 0, p);
    }
  }

  lemma NonZeroFactors(p: int, j: int, t: int, s: int)
    requires IsPrime(p) && p % 8 == 5 && (j * j + 1) % p == 0 && t % p != 0
    requires Cong(s * s, 2 * ((j * t) * (j * t)), p)
    ensures (j * t) % p != 0 && s % p != 0
  {
    hide Residue;
    RootNotZero(p, j);
    var u := j * t;
    assert u % p != 0 by {
      if u % p == 0 {
        Euclid(p, j, t);
      }
    }
    if s % p == 0 {
      TwiceSquareNotZero(p, u);
      SquareOfZero(p, s, 2 * (u * u));
    }
  }

  lemma TwiceSquareNotZero(p: int, u: int)
    requires IsPrime(p) && p > 2 && u % p != 0
    ensures (2 * (u * u)) % p != 0
  {
    if (2 * (u * u)) % p == 0 {
      Euclid(p, 2, u * u);
      Euclid(p, u, u);
    }
  }

  lemma OnePlusRoot(p: int, j: int)
    requires IsPrime(p) && p % 8 == 5 && Cong(j * j, -1, p)
    ensures (1 + j) % p != 0
  {
    if (1 + j) % p == 0 {
      hide IsPrime, Residue;
      CongZero(j, -1, p);
      CongMul(j, -1, j, -1, p);
      TwoNotZero(p);
      CongZero(1, -1, p);
    }
  }

  lemma {:induction false} RootPower(p: int, j: int, h: nat)
    requires p > 2 && Cong(j * j, -1, p) && h % 4 == 2
    ensures Cong(Pow(j, h), -1, p)
  {
    assert Pow(j, 2) == j * j by { assert Pow(j, 1) == j * Pow(j, 0); }
    if h > 2 {
      RootPower(p, j, h - 4);
      PowAdd(j, 2, 2);
      PowAdd(j, 4, h - 4);
      CongMul(j * j, -1, j * j, -1, p);
      CongMul(Pow(j, 4), 1, Pow(j, h - 4), -1, p);
    }
  }
}
