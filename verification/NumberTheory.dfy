/** Modular arithmetic over a prime: what the curve functions lean on when they
    divide by raising to the power `p - 2` and take roots by raising to `(p + 3) / 8`. */
module NumberTheory {

  function Pow(b: int, e: nat): int {
    if e == 0 then 1 else b * Pow(b, e - 1)
  }

  /** Python's three-argument `pow`, for a positive modulus. */
  function PowMod(b: int, e: nat, m: int): int
    requires m > 0
  {
    Pow(b, e) % m
  }

  ghost predicate IsPrime(p: int) {
    2 <= p && forall k :: 2 <= k < p ==> p % k != 0
  }

  function Residue(a: int, p: int): int
    requires p > 0
  {
    a % p
  }

  ghost predicate Cong(a: int, b: int, p: int)
    requires p > 0
  {
    Residue(a, p) == Residue(b, p)
  }

  lemma Distribute(a: int, b: int, c: int)
    ensures (a + b) * c == a * c + b * c
  {
  }

  lemma Interchange(a: int, b: int, c: int, d: int)
    ensures (a * b) * (c * d) == (a * c) * (b * d)
  {
    assert (a * b) * (c * d) == a * (b * c) * d;
    assert (a * c) * (b * d) == a * (c * b) * d;
  }

  lemma Regroup(a: int, b: int, c: int)
    ensures (a * b) * c == (a * c) * b
  {
  }

  lemma SmallMultiple(k: int, p: int)
    requires p > 0 && k != 0
    ensures k * p >= p || k * p <= -p
  {
    if k > 0 {
      Distribute(k - 1, 1, p);
    } else {
      Distribute(-k - 1, 1, p);
    }
  }

  // ---- congruences ------------------------------------------------------------

  lemma ModUnique(a: int, p: int, q: int, r: int)
    requires p > 0 && a == q * p + r && 0 <= r < p
    ensures a % p == r
  {
    var k := q - a / p;
    assert k * p == a % p - r by {
      assert (a / p) * p + a % p == a;
      Distribute(q, -(a / p), p);
    }
    if k != 0 {
      SmallMultiple(k, p);
    }
  }

  lemma ModShift(a: int, k: int, p: int)
    requires p > 0
    ensures (a + k * p) % p == a % p
  {
    assert a + k * p == (a / p + k) * p + a % p;
    ModUnique(a + k * p, p, a / p + k, a % p);
  }

  lemma ModMultiple(k: int, p: int)
    requires p > 0
    ensures (k * p) % p == 0
  {
    ModUnique(k * p, p, k, 0);
  }

  lemma CongShift(a: int, b: int, k: int, p: int)
    requires p > 0 && a == b + k * p
    ensures Cong(a, b, p)
  {
    ModShift(b, k, p);
  }

  lemma CongDiff(a: int, b: int, p: int) returns (k: int)
    requires p > 0 && Cong(a, b, p)
    ensures a == b + k * p
  {
    k := a / p - b / p;
  }

  lemma CongZero(a: int, b: int, p: int)
    requires p > 0
    ensures Cong(a, b, p) <==> (a - b) % p == 0
  {
    if Cong(a, b, p) {
      var k := CongDiff(a, b, p);
      ModMultiple(k, p);
    }
    if (a - b) % p == 0 {
      CongShift(a, b, (a - b) / p, p);
    }
  }

  lemma CongMod(a: int, p: int)
    requires p > 0
    ensures Cong(a % p, a, p)
  {
    CongShift(a, a % p, a / p, p);
  }

  lemma CongAdd(a: int, a': int, b: int, b': int, p: int)
    requires p > 0 && Cong(a, a', p) && Cong(b, b', p)
    ensures Cong(a + b, a' + b', p)
  {
    var k := CongDiff(a, a', p);
    var l := CongDiff(b, b', p);
    assert a + b == a' + b' + (k + l) * p;
    CongShift(a + b, a' + b', k + l, p);
  }

  lemma CongSub(a: int, a': int, b: int, b': int, p: int)
    requires p > 0 && Cong(a, a', p) && Cong(b, b', p)
    ensures Cong(a - b, a' - b', p)
  {
    var k := CongDiff(a, a', p);
    var l := CongDiff(b, b', p);
    assert a - b == a' - b' + (k - l) * p;
    CongShift(a - b, a' - b', k - l, p);
  }

  lemma Expand(a: int, b: int, k: int, l: int, p: int)
    ensures (a + k * p) * (b + l * p) == a * b + (a * l + (k * b + k * (l * p))) * p
  {
    Distribute(a, k * p, b + l * p);
    Distribute(b, l * p, a);
    Distribute(b, l * p, k);
    Distribute(a * l, k * b + k * (l * p), p);
    Distribute(k * b, k * (l * p), p);
    assert (k * p) * (b + l * p) == (k * (b + l * p)) * p;
  }

  lemma CongMul(a: int, a': int, b: int, b': int, p: int)
    requires p > 0 && Cong(a, a', p) && Cong(b, b', p)
    ensures Cong(a * b, a' * b', p)
  {
    var k := CongDiff(a, a', p);
    var l := CongDiff(b, b', p);
    Expand(a', b', k, l, p);
    CongShift(a * b, a' * b', a' * l + (k * b' + k * (l * p)), p);
  }

  lemma {:induction false} CongPow(a: int, a': int, e: nat, p: int)
    requires p > 0 && Cong(a, a', p)
    ensures Cong(Pow(a, e), Pow(a', e), p)
  {
    if e > 0 {
      CongPow(a, a', e - 1, p);
      CongMul(a, a', Pow(a, e - 1), Pow(a', e - 1), p);
    }
  }

  // ---- powers -----------------------------------------------------------------

  lemma {:induction false} PowAdd(b: int, e: nat, f: nat)
    ensures Pow(b, e + f) == Pow(b, e) * Pow(b, f)
  {
    if e > 0 {
      PowAdd(b, e - 1, f);
      assert Pow(b, e + f) == b * (Pow(b, e - 1) * Pow(b, f));
    }
  }

  lemma {:induction false} PowProduct(a: int, b: int, e: nat)
    ensures Pow(a * b, e) == Pow(a, e) * Pow(b, e)
  {
    if e > 0 {
      PowProduct(a, b, e - 1);
      Interchange(a, b, Pow(a, e - 1), Pow(b, e - 1));
    }
  }

  lemma {:induction false} PowOne(e: nat)
    ensures Pow(1, e) == 1
  {
    if e > 0 {
      PowOne(e - 1);
    }
  }

  // ---- primes: Euclid's lemma and Fermat's little theorem ---------------------

  lemma {:induction false} EuclidReduced(p: int, a: int, b: int)
    requires IsPrime(p) && 0 < a < p && (a * b) % p == 0
    ensures b % p == 0
    decreases a
  {
    if a > 1 {
      var q, r := p / a, p % a;
      assert r != 0;
      var k := a * b / p;
      assert a * b == k * p;
      assert r * b == (b - q * k) * p by {
        assert p == q * a + r;
        assert r * b == p * b - q * (a * b);
      }
      ModMultiple(b - q * k, p);
      EuclidReduced(p, r, b);
    }
  }

  /** A prime that divides a product divides one of its factors. */
  lemma Euclid(p: int, a: int, b: int)
    requires IsPrime(p) && (a * b) % p == 0
    ensures a % p == 0 || b % p == 0
  {
    if a % p != 0 {
      CongMod(a, p);
      CongMul(a % p, a, b, b, p);
      EuclidReduced(p, a % p, b);
    }
  }

  lemma CancelLeft(p: int, a: int, b: int, c: int)
    requires IsPrime(p) && a % p != 0 && Cong(a * b, a * c, p)
    ensures Cong(b, c, p)
  {
    CongZero(a * b, a * c, p);
    assert a * b - a * c == a * (b - c);
    Euclid(p, a, b - c);
    CongZero(b, c, p);
  }

  function Choose(n: nat, k: nat): nat {
    if k == 0 then 1 else if n == 0 then 0 else Choose(n - 1, k - 1) + Choose(n - 1, k)
  }

  lemma {:induction false} ChooseAbove(n: nat, k: nat)
    requires k > n
    ensures Choose(n, k) == 0
  {
    if n > 0 {
      ChooseAbove(n - 1, k - 1);
      ChooseAbove(n - 1, k);
    }
  }

  lemma {:induction false} ChooseDiagonal(n: nat)
    ensures Choose(n, n) == 1
  {
    if n > 0 {
      ChooseDiagonal(n - 1);
      ChooseAbove(n - 1, n);
    }
  }

  lemma AbsorptionStep(n: int, k: int, c: int, d: int, a: int, b: int)
    requires c == a + b && (k - 1) * c == (n - 1) * a && k * d == (n - 1) * b
    ensures k * (c + d) == n * c
  {
    assert k * (c + d) == (k - 1) * c + c + k * d;
    assert (n - 1) * a + (n - 1) * b == (n - 1) * c;
  }

  lemma {:induction false} Absorption(n: nat, k: nat)
    requires n >= 1 && k >= 1
    ensures k * Choose(n, k) == n * Choose(n - 1, k - 1)
  {
    if n == 1 {
      if k >= 2 {
        ChooseAbove(1, k);
        ChooseAbove(0, k - 1);
      } else {
        assert Choose(1, 1) == Choose(0, 0) + Choose(0, 1) == 1;
      }
    } else if k == 1 {
      Absorption(n - 1, 1);
      assert Choose(n, 1) == 1 + Choose(n - 1, 1);
    } else {
      Absorption(n - 1, k - 1);
      Absorption(n - 1, k);
      AbsorptionStep(n, k, Choose(n - 1, k - 1), Choose(n - 1, k), Choose(n - 2, k - 2), Choose(n - 2, k - 1));
    }
  }

  /** The first `k + 1` terms of the expansion of `(x + 1)^n`. */
  function BinomialPrefix(n: nat, x: int, k: nat): int {
    Choose(n, k) * Pow(x, k) + if k == 0 then 0 else BinomialPrefix(n, x, k - 1)
  }

  lemma BinomialTerm(c: int, d: int, x: int, y: int, s: int, t: int)
    ensures (c + d) * (x * y) + (s + x * t) == d * (x * y) + s + x * (c * y + t)
  {
    Distribute(c, d, x * y);
    assert c * (x * y) == x * (c * y);
  }

  lemma {:induction false} BinomialStep(n: nat, x: int, k: nat)
    requires n >= 1
    ensures BinomialPrefix(n, x, k) ==
            BinomialPrefix(n - 1, x, k) + if k == 0 then 0 else x * BinomialPrefix(n - 1, x, k - 1)
  {
    if k > 0 {
      BinomialStep(n, x, k - 1);
      var c, d := Choose(n - 1, k - 1), Choose(n - 1, k);
      BinomialTerm(c, d, x, Pow(x, k - 1), BinomialPrefix(n - 1, x, k - 1),
                   if k == 1 then 0 else BinomialPrefix(n - 1, x, k - 2));
    }
  }

  lemma {:induction false} BinomialTheorem(n: nat, x: int)
    ensures BinomialPrefix(n, x, n) == Pow(x + 1, n)
  {
    if n > 0 {
      var s := BinomialPrefix(n - 1, x, n - 1);
      BinomialStep(n, x, n);
      BinomialTheorem(n - 1, x);
      NoTermAbove(n - 1, x);
      assert Pow(x + 1, n) == (x + 1) * Pow(x + 1, n - 1);
      hide Pow, BinomialPrefix, Choose;
      Distribute(x, 1, s);
    }
  }

  lemma NoTermAbove(n: nat, x: int)
    ensures BinomialPrefix(n, x, n + 1) == BinomialPrefix(n, x, n)
  {
    ChooseAbove(n, n + 1);
    var y := Pow(x, n + 1);
    assert BinomialPrefix(n, x, n + 1) == 0 * y + BinomialPrefix(n, x, n);
  }

  lemma DividesCofactor(p: int, k: int, c: int, d: int) returns (m: int)
    requires IsPrime(p) && 0 < k < p && k * c == d * p
    ensures c == m * p
  {
    ModMultiple(d, p);
    EuclidReduced(p, k, c);
    m := c / p;
  }

  lemma PrimeDividesChoose(p: int, k: nat) returns (m: int)
    requires IsPrime(p) && 0 < k < p
    ensures Choose(p, k) == m * p
  {
    Absorption(p, k);
    m := DividesCofactor(p, k, Choose(p, k), Choose(p - 1, k - 1));
  }

  lemma {:induction false} PrimePrefix(p: int, x: int, k: nat)
    requires IsPrime(p) && k < p
    ensures Cong(BinomialPrefix(p, x, k), 1, p)
  {
    if k > 0 {
      PrimePrefix(p, x, k - 1);
      var m := PrimeDividesChoose(p, k);
      Regroup(m, p, Pow(x, k));
      CongShift(BinomialPrefix(p, x, k), BinomialPrefix(p, x, k - 1), m * Pow(x, k), p);
    } else {
      assert BinomialPrefix(p, x, 0) == 1 * 1;
    }
  }

  lemma {:induction false} FermatNat(p: int, x: nat)
    requires IsPrime(p)
    ensures Cong(Pow(x, p), x, p)
  {
    if x == 0 {
      assert Pow(0, p) == 0;
    } else {
      FermatNat(p, x - 1);
      BinomialTheorem(p, x - 1);
      PrimePrefix(p, x - 1, p - 1);
      ChooseDiagonal(p);
      CongAdd(Pow(x - 1, p), x - 1, BinomialPrefix(p, x - 1, p - 1), 1, p);
    }
  }

  /** Fermat's little theorem. */
  lemma Fermat(p: int, a: int)
    requires IsPrime(p) && a % p != 0
    ensures Cong(Pow(a, p - 1), 1, p)
  {
    var r := a % p;
    FermatNat(p, r);
    assert Pow(r, p) == r * Pow(r, p - 1);
    CongMod(r, p);
    CancelLeft(p, r, Pow(r, p - 1), 1);
    CongMod(a, p);
    CongPow(r, a, p - 1, p);
  }

  /** Raising to `p - 2` inverts whatever is not a multiple of `p`. */
  lemma Inverse(p: int, a: int)
    requires IsPrime(p) && a % p != 0
    ensures Cong(a * PowMod(a, p - 2, p), 1, p)
  {
    Fermat(p, a);
    CongMod(Pow(a, p - 2), p);
    CongMul(a, a, PowMod(a, p - 2, p), Pow(a, p - 2), p);
    assert Pow(a, p - 1) == a * Pow(a, p - 2);
  }
}
