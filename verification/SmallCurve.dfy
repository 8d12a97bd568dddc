/** The hypotheses of the signature theorems can all be met at once: the curve over the
    field with five elements and constant 2 has four points, which form a cyclic group,
    and the base point taken here has order 2. */
module SmallCurve {
  import opened NumberTheory
  import opened Bits
  import opened Edwards
  import opened Ed25519

  const CURVE := Curve(5, 2, 2)

  function Zeros(m: seq<Byte>): seq<Byte> {
    [0, 0, 0, 0]
  }

  const SCHEME := Scheme(CURVE, Point(0, 4), 2, 2, Zeros)

  /** The multiples of (2, 0). */
  function Multiple(i: nat): Point
    requires i < 4
  {
    if i == 0 then Point(0, 1) else if i == 1 then Point(2, 0) else if i == 2 then Point(0, 4) else Point(3, 0)
  }

  lemma FiveIsPrime()
    ensures IsPrime(5)
  {
  }

  lemma NoRootOfTwo(s: int)
    ensures (s * s - 2) % 5 != 0
  {
    var q, r := s / 5, s % 5;
    assert s == 5 * q + r;
    assert s * s - 2 == 5 * (5 * q * q + 2 * q * r) + (r * r - 2);
    ModShift(r * r - 2, 5 * q * q + 2 * q * r, 5);
    if r == 0 {
    } else if r == 1 {
    } else if r == 2 {
    } else if r == 3 {
    } else {
    }
  }

  lemma Residues(x: int, y: int)
    requires 0 <= x < 5 && 0 <= y < 5 && (-x * x + y * y - 1 - 2 * x * x * y * y) % 5 == 0
    ensures (x == 0 && (y == 1 || y == 4)) || (y == 0 && (x == 2 || x == 3))
  {
    if x == 0 {
    } else if x == 1 {
    } else if x == 2 {
    } else if x == 3 {
    } else {
    }
  }

  lemma PointsAreMultiples(P: Point)
    requires OnCurve(CURVE, P)
    ensures exists i: nat :: i < 4 && P == Multiple(i)
  {
    Residues(P.x, P.y);
    assert P == Multiple(0) || P == Multiple(1) || P == Multiple(2) || P == Multiple(3);
  }

  lemma PowersOfOne()
    ensures PowMod(1, 3, 5) == 1
  {
    PowOne(3);
  }

  /** Where one coordinate of each point is zero, so is the cross term. */
  lemma AddFlat(P: Point, Q: Point)
    requires Cross(CURVE, P, Q) == 0
    ensures Add(CURVE, P, Q) == Point((P.x * Q.y + Q.x * P.y) % 5, (P.y * Q.y + P.x * Q.x) % 5)
  {
    PowersOfOne();
    var a, b := P.x * Q.y + Q.x * P.y, P.y * Q.y + P.x * Q.x;
    assert a * 1 == a && b * 1 == b;
    hide PowMod, Cross;
  }

  lemma CrossIsZero(i: nat, j: nat)
    requires i < 4 && j < 4
    ensures Cross(CURVE, Multiple(i), Multiple(j)) == 0
  {
  }

  lemma SumTable(i: nat, j: nat)
    requires i < 4 && j < 4
    ensures var P, Q := Multiple(i), Multiple(j);
            Point((P.x * Q.y + Q.x * P.y) % 5, (P.y * Q.y + P.x * Q.x) % 5) == Multiple((i + j) % 4)
  {
    if i == 0 {
    } else if i == 1 {
    } else if i == 2 {
    } else {
    }
  }

  lemma AddMultiples(i: nat, j: nat)
    requires i < 4 && j < 4
    ensures Add(CURVE, Multiple(i), Multiple(j)) == Multiple((i + j) % 4)
  {
    hide Add, Cross, Multiple;
    CrossIsZero(i, j);
    AddFlat(Multiple(i), Multiple(j));
    SumTable(i, j);
  }

  lemma Reassociate(i: nat, j: nat, k: nat)
    requires i < 4 && j < 4 && k < 4
    ensures Add(CURVE, Add(CURVE, Multiple(i), Multiple(j)), Multiple(k))
         == Add(CURVE, Multiple(i), Add(CURVE, Multiple(j), Multiple(k)))
  {
    hide Add, Multiple;
    AddMultiples(i, j);
    AddMultiples(j, k);
    AddMultiples((i + j) % 4, k);
    AddMultiples(i, (j + k) % 4);
    SumsModuloFour(i, j, k);
  }

  lemma SumsModuloFour(i: nat, j: nat, k: nat)
    requires i < 4 && j < 4 && k < 4
    ensures ((i + j) % 4 + k) % 4 == (i + (j + k) % 4) % 4
  {
  }

  lemma SmallAssociative()
    ensures Associative(CURVE)
  {
    forall P, Q, R | OnCurve(CURVE, P) && OnCurve(CURVE, Q) && OnCurve(CURVE, R)
      ensures Add(CURVE, Add(CURVE, P, Q), R) == Add(CURVE, P, Add(CURVE, Q, R))
    {
      hide Add, OnCurve, Multiple;
      PointsAreMultiples(P);
      PointsAreMultiples(Q);
      PointsAreMultiples(R);
      var i: nat :| i < 4 && P == Multiple(i);
      var j: nat :| j < 4 && Q == Multiple(j);
      var k: nat :| k < 4 && R == Multiple(k);
      Reassociate(i, j, k);
    }
  }

  lemma TwiceBase()
    ensures Mul(CURVE, Multiple(2), 2) == Identity
  {
    hide Add;
    AddMultiples(0, 0);
    AddMultiples(0, 2);
    AddMultiples(2, 2);
    assert Mul(CURVE, Multiple(2), 1) == Multiple(2);
  }

  lemma SmallSound()
    ensures Sound(CURVE)
  {
    FiveIsPrime();
    forall s
      ensures (s * s - CURVE.d) % CURVE.p != 0
    {
      NoRootOfTwo(s);
    }
  }

  lemma SmallWellFormed()
    ensures SCHEME.WellFormed()
  {
    assert Exp2(3) == 8;
    Exp2Add(3, 12);
    Exp2Add(15, 1);
  }

  /** One scheme meets them all. */
  lemma HypothesesHold()
    ensures SCHEME.WellFormed() && Sound(SCHEME.curve) && OnCurve(SCHEME.curve, SCHEME.base)
    ensures SCHEME.GroupHypotheses() && IsPrime(SCHEME.order) && SCHEME.base != Identity
  {
    SmallSound();
    SmallWellFormed();
    SmallAssociative();
    TwiceBase();
    hide Sound, Associative, Mul, SCHEME.WellFormed;
  }
}
