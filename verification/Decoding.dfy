/** What 32 bytes say about a point, without the function that decodes them: its second
    coordinate, the parity of its first, and nothing else. The program does not reduce the
    coordinates it reads, so this starts with what reducing them leaves alone. */
module Decoding {
  import opened NumberTheory
  import opened Bits
  import opened Digits
  import opened Edwards
  import opened Ed25519
  import opened Wrappers

  function Reduced(c: Curve, P: Point): (R: Point)
    requires c.p > 2
    ensures 0 <= R.x < c.p && 0 <= R.y < c.p
  {
    Point(P.x % c.p, P.y % c.p)
  }

  // ---- the curve functions only see residues ------------------------------------------------

  lemma ProductOfResidues(a: int, b: int, p: int)
    requires p > 0
    ensures Cong((a % p) * (b % p), a * b, p)
  {
    CongMod(a, p);
    CongMod(b, p);
    CongMul(a % p, a, b % p, b, p);
  }

  lemma CrossReduced(c: Curve, P: Point, Q: Point)
    requires c.p > 2
    ensures Cross(c, P, Q) == Cross(c, Reduced(c, P), Reduced(c, Q))
  {
    var p, S, T := c.p, Reduced(c, P), Reduced(c, Q);
    CrossForm(c.d, P.x, Q.x, P.y, Q.y);
    CrossForm(c.d, S.x, T.x, S.y, T.y);
    ProductOfResidues(P.x, P.y, p);
    ProductOfResidues(Q.x, Q.y, p);
    CongMul(c.d, c.d, S.x * S.y, P.x * P.y, p);
    CongMul(c.d * (S.x * S.y), c.d * (P.x * P.y), T.x * T.y, Q.x * Q.y, p);
  }

  lemma NumeratorReduced(a: int, b: int, x: int, y: int, w: int, p: int)
    requires p > 0
    ensures (a * b + x * y) * w % p == ((a % p) * (b % p) + (x % p) * (y % p)) * w % p
  {
    ProductOfResidues(a, b, p);
    ProductOfResidues(x, y, p);
    CongAdd((a % p) * (b % p), a * b, (x % p) * (y % p), x * y, p);
    CongMul((a % p) * (b % p) + (x % p) * (y % p), a * b + x * y, w, w, p);
  }

  lemma AddReduced(c: Curve, P: Point, Q: Point)
    requires c.p > 2
    ensures Add(c, P, Q) == Add(c, Reduced(c, P), Reduced(c, Q))
  {
    var p, t := c.p, Cross(c, P, Q);
    CrossReduced(c, P, Q);
    NumeratorReduced(P.x, Q.y, Q.x, P.y, PowMod(1 + t, p - 2, p), p);
    NumeratorReduced(P.y, Q.y, P.x, Q.x, PowMod(1 - t, p - 2, p), p);
    hide Cross, PowMod;
  }

  lemma {:induction false} MulReduced(c: Curve, P: Point, e: nat)
    requires c.p > 2
    ensures Mul(c, P, e) == Mul(c, Reduced(c, P), e)
    decreases e
  {
    if e > 0 {
      MulReduced(c, P, e / 2);
      var D := Add(c, Mul(c, P, e / 2), Mul(c, P, e / 2));
      AddReduced(c, D, P);
      AddReduced(c, D, Reduced(c, P));
      ReducedTwice(c, P);
      hide Add, Reduced;
    }
  }

  lemma ReducedTwice(c: Curve, P: Point)
    requires c.p > 2
    ensures Reduced(c, Reduced(c, P)) == Reduced(c, P)
  {
    CongMod(P.x, c.p);
    CongMod(P.y, c.p);
  }

  lemma EquationReduced(c: Curve, P: Point)
    requires c.p > 2
    ensures (-P.x * P.x + P.y * P.y - 1 - c.d * P.x * P.x * P.y * P.y) % c.p == 0 <==> OnCurve(c, Reduced(c, P))
  {
    var p, R := c.p, Reduced(c, P);
    var m, n := P.x * P.y, R.x * R.y;
    CurveForm(c.d, P.x, P.y);
    CurveForm(c.d, R.x, R.y);
    ProductOfResidues(P.x, P.x, p);
    ProductOfResidues(P.y, P.y, p);
    ProductOfResidues(P.x, P.y, p);
    CongMul(c.d, c.d, n, m, p);
    CongMul(c.d * n, c.d * m, n, m, p);
    CongSub(R.y * R.y, P.y * P.y, R.x * R.x, P.x * P.x, p);
    CongSub(R.y * R.y - R.x * R.x, P.y * P.y - P.x * P.x, 1, 1, p);
    CongSub(R.y * R.y - R.x * R.x - 1, P.y * P.y - P.x * P.x - 1, c.d * n * n, c.d * m * m, p);
  }

  /** The even root candidate for a given square. */
  function EvenRootOf(c: Curve, xx: int): int
    requires c.p > 2
  {
    var x := PowMod(xx, (c.p + 3) / 8, c.p);
    var x' := if (x * x - xx) % c.p != 0 then x * c.root % c.p else x;
    if x' % 2 != 0 then c.p - x' else x'
  }

  lemma RecoverForm(c: Curve, y: int)
    requires c.p > 2
    ensures RecoverX(c, y) == EvenRootOf(c, (y * y - 1) * PowMod(c.d * y * y + 1, c.p - 2, c.p))
  {
    hide PowMod;
  }

  lemma EvenRootCongruent(c: Curve, a: int, b: int)
    requires c.p > 2 && Cong(a, b, c.p)
    ensures EvenRootOf(c, a) == EvenRootOf(c, b)
  {
    CongPow(a, b, (c.p + 3) / 8, c.p);
    var x := PowMod(b, (c.p + 3) / 8, c.p);
    assert x == PowMod(a, (c.p + 3) / 8, c.p);
    CongSub(x * x, x * x, a, b, c.p);
    hide PowMod;
  }

  lemma RecoverReduced(c: Curve, y: int)
    requires c.p > 2
    ensures RecoverX(c, y) == RecoverX(c, y % c.p)
  {
    var p, z := c.p, y % c.p;
    ProductOfResidues(y, y, p);
    CongSub(z * z, y * y, 1, 1, p);
    CongMul(c.d, c.d, z * z, y * y, p);
    assert c.d * z * z == c.d * (z * z) && c.d * y * y == c.d * (y * y);
    CongAdd(c.d * z * z, c.d * y * y, 1, 1, p);
    CongPow(c.d * z * z + 1, c.d * y * y + 1, p - 2, p);
    var v, w := PowMod(c.d * z * z + 1, p - 2, p), PowMod(c.d * y * y + 1, p - 2, p);
    assert v == w;
    hide RecoverX, EvenRootOf, PowMod, Residue;
    CongMul(z * z - 1, y * y - 1, w, w, p);
    EvenRootCongruent(c, (z * z - 1) * w, (y * y - 1) * w);
    RecoverForm(c, y);
    RecoverForm(c, z);
  }

  // ---- what bytes spell ----------------------------------------------------------------------

  /** The bytes spell a point of the curve: their last bit is the parity of the first
      coordinate, which zero need not match, and the others count the second coordinate,
      which need not be reduced. */
  ghost predicate Spells(s: Scheme, raw: seq<Byte>, P: Point)
    requires s.WellFormed()
  {
    var v, half := LittleValue(raw), Exp2(8 * s.size - 1);
    && |raw| == s.size && OnCurve(s.curve, P)
    && P.y == v % half % s.curve.p
    && (P.x == 0 || P.x % 2 == v / half)
  }

  lemma TopBitApart(raw: seq<Byte>)
    requires raw != []
    ensures var top, v := 8 * |raw| - 1, LittleValue(raw);
            SumBits(raw, 0, top) == v % Exp2(top) && ByteBit(raw, top) == v / Exp2(top)
  {
    var top := 8 * |raw| - 1;
    SumIsValue(raw);
    var low, bit := LastBit(raw, 0, 8 * |raw|);
    DivUnique(LittleValue(raw), Exp2(top), bit, low);
  }

  lemma RecoveredIsEven(c: Curve, y: int)
    requires c.p > 2 && c.p % 2 == 1
    ensures 0 <= RecoverX(c, y) < c.p && RecoverX(c, y) % 2 == 0
  {
    RecoverForm(c, y);
    var xx := (y * y - 1) * PowMod(c.d * y * y + 1, c.p - 2, c.p);
    var x := PowMod(xx, (c.p + 3) / 8, c.p);
    var x' := if (x * x - xx) % c.p != 0 then x * c.root % c.p else x;
    assert RecoverX(c, y) == if x' % 2 != 0 then c.p - x' else x';
    assert 0 <= x' < c.p by { DivMod(x * c.root, c.p); }
    hide *;
    EvenOf(c.p, x');
  }

  lemma EvenOf(p: int, r: int)
    requires p % 2 == 1 && 0 <= r < p
    ensures var e := if r % 2 != 0 then p - r else r; 0 <= e < p && e % 2 == 0
  {
  }

  /** The root with the parity the bytes ask for, taken modulo p. */
  lemma RootReduced(p: int, x: int, sign: nat)
    requires p > 2 && p % 2 == 1 && 0 <= x < p && x % 2 == 0 && sign < 2
    ensures var chosen := if x % 2 != sign then p - x else x;
            chosen % p == if chosen == p then 0 else chosen
    ensures var r := (if x % 2 != sign then p - x else x) % p; 0 <= r < p && (r == 0 || r % 2 == sign)
  {
    var chosen := if x % 2 != sign then p - x else x;
    if chosen == p {
      ModUnique(p, p, 1, 0);
    } else {
      ModUnique(chosen, p, 0, chosen);
    }
  }

  /** The decoder's answer, with its parts named. */
  lemma DecodeForm(s: Scheme, raw: seq<Byte>) returns (y: nat, sign: nat, x: int)
    requires s.WellFormed() && |raw| == s.size
    ensures y == LittleValue(raw) % Exp2(8 * s.size - 1) && sign == LittleValue(raw) / Exp2(8 * s.size - 1) < 2
    ensures x == if RecoverX(s.curve, y) % 2 != sign then s.curve.p - RecoverX(s.curve, y) else RecoverX(s.curve, y)
    ensures s.Decode(raw) == if OnCurve(s.curve, Reduced(s.curve, Point(x, y))) then Some(Point(x, y)) else None
  {
    TopBitApart(raw);
    SumBitsBounds(raw, 0, 8 * s.size - 1);
    y, sign := SumBits(raw, 0, 8 * s.size - 1), ByteBit(raw, 8 * s.size - 1);
    hide SumBits, ByteBit, RecoverX, OnCurve, Reduced, Exp2, LittleValue;
    x := if RecoverX(s.curve, y) % 2 != sign then s.curve.p - RecoverX(s.curve, y) else RecoverX(s.curve, y);
    DecodeParts(s, raw, x, y);
  }

  lemma DecodeParts(s: Scheme, raw: seq<Byte>, x: int, y: nat)
    requires s.WellFormed() && |raw| == s.size && y == SumBits(raw, 0, 8 * s.size - 1)
    requires var root := RecoverX(s.curve, y);
             x == if root % 2 != ByteBit(raw, 8 * s.size - 1) then s.curve.p - root else root
    ensures s.Decode(raw) == if OnCurve(s.curve, Reduced(s.curve, Point(x, y))) then Some(Point(x, y)) else None
  {
    EquationReduced(s.curve, Point(x, y));
    hide SumBits, ByteBit, RecoverX, OnCurve, Reduced, Exp2, LittleValue;
  }

  lemma DecodedIsSpelled(s: Scheme, raw: seq<Byte>)
    requires s.WellFormed() && Sound(s.curve) && |raw| == s.size && s.Decode(raw).Some?
    ensures Spells(s, raw, Reduced(s.curve, s.Decode(raw).value))
  {
    assert s.curve.p % 2 == 1;
    var y, sign, x := DecodeForm(s, raw);
    hide s.Decode, RecoverX, OnCurve, Sound, Exp2, LittleValue;
    RecoveredIsEven(s.curve, y);
    RootReduced(s.curve.p, RecoverX(s.curve, y), sign);
  }

  lemma SpelledIsDecoded(s: Scheme, raw: seq<Byte>, P: Point)
    requires s.WellFormed() && Sound(s.curve) && Spells(s, raw, P)
    ensures s.Decode(raw).Some? && Reduced(s.curve, s.Decode(raw).value) == P
  {
    assert s.curve.p % 2 == 1;
    var y, sign, x := DecodeForm(s, raw);
    RecoverReduced(s.curve, y);
    RecoverXCorrect(s.curve, P);
    assert 0 <= P.x < s.curve.p;
    hide s.Decode, RecoverX, OnCurve, Sound, Exp2, LittleValue;
    ChosenResidue(s.curve.p, P.x, sign);
  }

  lemma ChosenResidue(p: int, x: int, sign: nat)
    requires p % 2 == 1 && 0 <= x < p && sign < 2 && (x == 0 || x % 2 == sign)
    ensures var r := if x % 2 == 0 then x else p - x;
            (if r % 2 != sign then p - r else r) % p == x
  {
    if x == 0 && sign == 1 {
      ModUnique(p, p, 1, 0);
    } else {
      ModUnique(x, p, 0, x);
    }
  }

  /** Decoding succeeds exactly on bytes that spell a point, and gives that point; no bytes
      spell two. */
  lemma DecodeMeaning(s: Scheme, raw: seq<Byte>, P: Point)
    requires s.WellFormed() && Sound(s.curve) && |raw| == s.size
    ensures Spells(s, raw, P) <==> s.Decode(raw).Some? && Reduced(s.curve, s.Decode(raw).value) == P
  {
    if Spells(s, raw, P) {
      SpelledIsDecoded(s, raw, P);
    }
    if s.Decode(raw).Some? {
      DecodedIsSpelled(s, raw);
    }
  }

  /** Encoding writes the second coordinate and the parity of the first, as one number. */
  lemma EncodeMeaning(s: Scheme, P: Point)
    requires s.WellFormed() && P.x >= 0 && 0 <= P.y < s.curve.p
    ensures LittleValue(s.Encode(P)) == P.y + Exp2(8 * s.size - 1) * (P.x % 2)
  {
    var raw, top := s.Encode(P), 8 * s.size - 1;
    EncodedY(s, P);
    EncodedBit(s, P, top);
    SumIsValue(raw);
  }
}
