/** The constants the wire peer computes at import time, and the proof that they make a
    sound scheme once 2^255 - 19 is prime. The base point is not computed here: its two
    coordinates are certified by the equations that define them. */
module Curve25519 {
  import opened NumberTheory
  import opened Bits
  import opened Edwards
  import opened Ed25519

  const P := 57896044618658097711785492504343953926634992332820282019728792003956564819949
  const ORDER := 7237005577332262213973186563042994240857116359379907606001950938285454250989

  function CurveConstant(p: int): int
    requires p > 2
  {
    -121665 * PowMod(121666, p - 2, p) % p
  }

  function RootConstant(p: int): int
    requires p > 2
  {
    PowMod(2, (p - 1) / 4, p)
  }

  function BaseY(p: int): int
    requires p > 2
  {
    4 * PowMod(5, p - 2, p) % p
  }

  function TheCurve(p: int): Curve
    requires p > 2
  {
    Curve(p, CurveConstant(p), RootConstant(p))
  }

  function TheScheme(p: int, hash: seq<Byte> -> seq<Byte>): Scheme
    requires p > 2
  {
    var c := TheCurve(p);
    Scheme(c, Point(RecoverX(c, BaseY(p)), BaseY(p)), ORDER, 32, hash)
  }

  // ---- certified values ---------------------------------------------------------------

  const D_VALUE := 37095705934669439343138083508754565189542113879843219016388785533085940283555
  const BASE_X := 15112221349535400772501151409588531511454012693041857206046113283949847762202
  const BASE_Y := 46316835694926478169428394003475163141307993866256225615783033603165251855960
  const ROOT_OF_MINUS_ONE := 19681161376707505956807079304988542015446066515923890162744021073123829784752

  /** A number whose square, doubled and negated, is the curve constant. */
  const HALF_ROOT := 27573809246520661279681833144618793423008616164714534656296138071950070290413

  lemma SmallPowers()
    ensures Exp2(3) == 8 && Exp2(4) == 16
  {
  }

  lemma LargePowers()
    ensures Exp2(252) == 7237005577332262213973186563042994240829374041602535252466099000494570602496
    ensures Exp2(255) == 8 * Exp2(252) && Exp2(256) == 16 * Exp2(252)
  {
    hide Exp2;
    SmallPowers();
    Exp2Add(4, 4);
    Exp2Add(8, 8);
    Exp2Add(16, 16);
    Exp2Add(32, 32);
    Exp2Add(64, 64);
    Exp2Add(128, 64);
    Exp2Add(192, 32);
    Exp2Add(224, 16);
    Exp2Add(240, 8);
    Exp2Add(248, 4);
    Exp2Add(252, 3);
    Exp2Add(252, 4);
  }

  lemma FieldSize()
    ensures P == Exp2(255) - 19 && ORDER == Exp2(252) + 27742317777372353535851937790883648493
    ensures ORDER < Exp2(256) && P % 8 == 5
  {
    hide Exp2;
    LargePowers();
  }

  /** A fraction a / b modulo p, computed by a power, is the number v with v b = a. */
  lemma FractionValue(p: int, a: int, b: int, v: int)
    requires IsPrime(p) && b % p != 0 && 0 <= v < p && (v * b - a) % p == 0
    ensures a * PowMod(b, p - 2, p) % p == v
  {
    var w := PowMod(b, p - 2, p);
    Inverse(p, b);
    CongZero(v * b, a, p);
    DivideOut(p, v, b, a, w);
    SmallResidue(v, p);
  }

  lemma ConstantOfCurve(p: int)
    requires p == P && IsPrime(p)
    ensures CurveConstant(p) == D_VALUE
  {
    SmallResidue(121666, p);
    assert D_VALUE * 121666 - -121665 == 77955 * P;
    ModMultiple(77955, p);
    FractionValue(p, -121665, 121666, D_VALUE);
  }

  lemma BaseYValue(p: int)
    requires p == P && IsPrime(p)
    ensures BaseY(p) == BASE_Y
  {
    SmallResidue(5, p);
    assert BASE_Y * 5 - 4 == 4 * P;
    ModMultiple(4, p);
    FractionValue(p, 4, 5, BASE_Y);
  }

  /** The curve constant is -2 t^2, and 2 is no square because 2^((p-1)/2) is -1. */
  lemma ConstantIsNoSquare(p: int)
    requires p == P && IsPrime(p)
    ensures NotSquare(TheCurve(p))
  {
    FieldSize();
    ConstantOfCurve(p);
    var j, t := ROOT_OF_MINUS_ONE, HALF_ROOT;
    assert j * j + 1 == 6690407189080634018507799843845558368979872843924222843531373839242004886245 * P;
    ModMultiple(6690407189080634018507799843845558368979872843924222843531373839242004886245, p);
    assert -2 * t * t - D_VALUE == -26264832472458141391038000542012667830466692914787870688954060217296582412457 * P;
    ModMultiple(-26264832472458141391038000542012667830466692914787870688954060217296582412457, p);
    SmallResidue(t, p);
    forall s
      ensures (s * s - D_VALUE) % p != 0
    {
      MinusTwiceSquare(p, j, t, D_VALUE, s);
    }
  }

  lemma RootSquares(p: int)
    requires p == P && IsPrime(p)
    ensures p % 8 == 5 && (RootConstant(p) * RootConstant(p) + 1) % p == 0
  {
    FieldSize();
    var j := ROOT_OF_MINUS_ONE;
    assert j * j + 1 == 6690407189080634018507799843845558368979872843924222843531373839242004886245 * P;
    ModMultiple(6690407189080634018507799843845558368979872843924222843531373839242004886245, p);
    RootOfMinusOne(p, j);
  }

  lemma BasePointOnCurve(p: int, i: int)
    requires p == P
    ensures OnCurve(Curve(p, D_VALUE, i), Point(BASE_X, BASE_Y))
  {
    var x, y, d := BASE_X, BASE_Y, D_VALUE;
    assert d * x * x * y * y == 18174313490317712024646865158609588537060384262895844969311361496899583497099711082626307882715066085333845827835954528204799659470420627464345249031621762392083046279295461894273148760722669189638623923934739185982636874738571806046783925776061779171948415468044685013258967469374901460101090282144446408297810648945591683867222376276407423217739020818801880918369383555168323552000;
    assert -x * x + y * y - 1 - d * x * x * y * y == -313912869351021175552095638354475319435719866822403256103793839727111434695402522007437748672709022944181123840026140012976076642505601989877288187536393899427418215919658923821043034718165221043996317890960162518762831745378375357102403309936170782468110973434315685750709096189645234905588967493870803545 * P;
    ModMultiple(-313912869351021175552095638354475319435719866822403256103793839727111434695402522007437748672709022944181123840026140012976076642505601989877288187536393899427418215919658923821043034718165221043996317890960162518762831745378375357102403309936170782468110973434315685750709096189645234905588967493870803545, p);
  }

  /** Whatever the digest function, the program's constants make a sound scheme once the
      modulus is prime. */
  lemma SchemeSound(hash: seq<Byte> -> seq<Byte>)
    requires IsPrime(P) && forall m :: |hash(m)| == 64
    ensures var s := TheScheme(P, hash);
            && s.WellFormed() && Sound(s.curve) && OnCurve(s.curve, s.base)
            && s.base == Point(BASE_X, BASE_Y)
  {
    FieldSize();
    ConstantOfCurve(P);
    ConstantIsNoSquare(P);
    BaseYValue(P);
    RootSquares(P);
    BasePointOnCurve(P, RootConstant(P));
    RecoverXCorrect(TheCurve(P), Point(BASE_X, BASE_Y));
  }

  /** Ed25519 itself: `ed25519_verify(ed25519_public(seed), ed25519_sign(seed, m), m)`. */
  lemma Ed25519Correct(hash: seq<Byte> -> seq<Byte>, seed: seq<Byte>, message: seq<Byte>)
    requires IsPrime(P) && forall m :: |hash(m)| == 64
    requires TheScheme(P, hash).WellFormed() ==> TheScheme(P, hash).GroupHypotheses()
    ensures var s := TheScheme(P, hash);
            && s.WellFormed()
            && s.Verify(s.Public(seed), s.Sign(seed, message), message)
  {
    SchemeSound(hash);
    VerifyAcceptsSignature(TheScheme(P, hash), seed, message);
  }
}
