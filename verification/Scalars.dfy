/** Which scalars verification accepts in place of the one signing wrote: it does not
    compare the scalar with the group order, as section 5.1.7 of RFC 8032 asks, so every
    scalar that leaves the same remainder is accepted, and no other. */
module Scalars {
  import opened NumberTheory
  import opened Bits
  import opened Edwards
  import opened Ed25519
  import Curve25519

  // ---- multiples of the base point -----------------------------------------------------

  ghost predicate Ready(s: Scheme) {
    s.WellFormed() && Sound(s.curve) && OnCurve(s.curve, s.base) && s.GroupHypotheses()
  }

  lemma BaseOrder(s: Scheme)
    requires Ready(s)
    ensures Repeat(s.curve, s.base, s.order) == Identity
  {
    ReadyParts(s);
    hide *;
    MulIsRepeat(s.curve, s.base, s.order);
  }

  lemma ReadyParts(s: Scheme)
    requires Ready(s)
    ensures s.WellFormed() && Sound(s.curve) && OnCurve(s.curve, s.base) && Associative(s.curve)
    ensures s.order > 0 && s.curve.p > 2 && Mul(s.curve, s.base, s.order) == Identity
  {
  }

  /** The base point has no smaller order than a prime one, unless it is the identity. */
  lemma OnlyMultiples(s: Scheme, n: nat)
    requires Ready(s) && IsPrime(s.order) && s.base != Identity
    requires Repeat(s.curve, s.base, n) == Identity
    ensures n % s.order == 0
  {
    ReadyParts(s);
    if n % s.order != 0 {
      var w := PowMod(n, s.order - 2, s.order);
      hide Ready, Add, OnCurve, Mul, Sound, PowMod, Cong, Associative, Repeat;
      Inverse(s.order, n);
      RepeatTimes(s.curve, s.base, n, w);
      RepeatIdentity(s.curve, w);
      BaseOrder(s);
      RepeatReduced(s.curve, s.base, s.order, n * w);
      OneModulo(s.order, n * w);
      RepeatOnce(s);
    }
  }

  lemma OneModulo(p: int, a: int)
    requires p > 1 && Cong(a, 1, p)
    ensures a % p == 1
  {
    ModUnique(1, p, 0, 1);
  }

  lemma RepeatOnce(s: Scheme)
    requires Ready(s)
    ensures Repeat(s.curve, s.base, 1) == s.base
  {
    var c, B := s.curve, s.base;
    ReadyParts(s);
    hide Add, OnCurve, Mul, Sound, Ready, Associative;
    assert Repeat(c, B, 1) == Add(c, Repeat(c, B, 0), B);
    IdentityOnCurve(c);
    AddCommutes(c, Identity, B);
    AddIdentity(c, B);
  }

  /** Two multiples of the base point are the same point exactly when their scalars leave the
      same remainder modulo the order. */
  lemma SameMultiple(s: Scheme, a: nat, b: nat)
    requires Ready(s) && IsPrime(s.order) && s.base != Identity
    ensures Repeat(s.curve, s.base, a) == Repeat(s.curve, s.base, b) <==> a % s.order == b % s.order
  {
    ReadyParts(s);
    hide *;
    if a % s.order == b % s.order {
      SameRemainder(s, a, b);
    }
    if Repeat(s.curve, s.base, a) == Repeat(s.curve, s.base, b) {
      SamePoint(s, a, b);
    }
  }

  lemma SamePoint(s: Scheme, a: nat, b: nat)
    requires Ready(s) && IsPrime(s.order) && s.base != Identity
    requires Repeat(s.curve, s.base, a) == Repeat(s.curve, s.base, b)
    ensures s.order > 0 && a % s.order == b % s.order
  {
    ReadyParts(s);
    hide *;
    var m := Complement(b, s.order);
    var P, Q := Repeat(s.curve, s.base, a + m), Repeat(s.curve, s.base, b + m);
    assert Q == Identity by { OnlyMultiplesBack(s, b + m); }
    assert P == Q by {
      RepeatAdd(s.curve, s.base, a, m);
      RepeatAdd(s.curve, s.base, b, m);
    }
    OnlyMultiples(s, a + m);
    SameComplement(a, b, m, s.order);
  }

  lemma SameRemainder(s: Scheme, a: nat, b: nat)
    requires Ready(s) && a % s.order == b % s.order
    ensures Repeat(s.curve, s.base, a) == Repeat(s.curve, s.base, b)
  {
    ReadyParts(s);
    hide *;
    BaseOrder(s);
    RepeatReduced(s.curve, s.base, s.order, a);
    RepeatReduced(s.curve, s.base, s.order, b);
  }

  lemma OnlyMultiplesBack(s: Scheme, n: nat)
    requires Ready(s) && n % s.order == 0
    ensures Repeat(s.curve, s.base, n) == Identity
  {
    ReadyParts(s);
    assert Repeat(s.curve, s.base, 0) == Identity;
    hide *;
    BaseOrder(s);
    RepeatReduced(s.curve, s.base, s.order, n);
  }

  lemma Complement(b: nat, n: int) returns (m: nat)
    requires n > 0
    ensures (b + m) % n == 0
  {
    m := n - b % n;
    DivMod(b, n);
    assert b + m == (b / n + 1) * n by { Distribute(b / n, 1, n); }
    ModMultiple(b / n + 1, n);
  }

  lemma SameComplement(a: nat, b: nat, m: int, n: int)
    requires n > 0 && (a + m) % n == 0 && (b + m) % n == 0
    ensures a % n == b % n
  {
    CongZero(a + m, 0, n);
    CongZero(b + m, 0, n);
    CongSub(a + m, b + m, m, m, n);
  }

  // ---- what verification accepts ---------------------------------------------------------

  /** The scalar a signature carries. */
  function ScalarOf(s: Scheme, signature: seq<Byte>): nat
    requires s.WellFormed() && |signature| == 2 * s.size
  {
    SumBitsBounds(signature[s.size..], 0, 8 * s.size);
    SumBits(signature[s.size..], 0, 8 * s.size)
  }

  /** Keeping a signature's point and replacing its scalar's bytes, verification comes down
      to whether the two scalars give the same multiple of the base point. */
  lemma VerifyMeans(s: Scheme, seed: seq<Byte>, message: seq<Byte>, raw: seq<Byte>)
    requires Ready(s) && |raw| == s.size
    ensures var sig := s.Sign(seed, message);
            |sig| == 2 * s.size && ScalarOf(s, sig) < s.order
    ensures var sig := s.Sign(seed, message); var other := sig[..s.size] + raw;
            s.Verify(s.Public(seed), other, message)
            <==> Repeat(s.curve, s.base, ScalarOf(s, other)) == Repeat(s.curve, s.base, ScalarOf(s, sig))
  {
    var c, B := s.curve, s.base;
    var a := s.Clamped(seed);
    var A := Mul(c, B, a);
    var r := s.HashNumber(s.hash(seed)[s.size..] + message);
    var R := Mul(c, B, r);
    var pub, rbytes := s.Encode(A), s.Encode(R);
    var k := s.HashNumber(rbytes + pub + message);
    var S := Response(r, k, a, s.order);
    var sig := s.Sign(seed, message);
    var other := rbytes + raw;
    assert sig == rbytes + ToLittleEndian(S, s.size);
    assert sig[..s.size] == rbytes && sig[s.size..] == ToLittleEndian(S, s.size);
    assert other[..s.size] == rbytes && other[s.size..] == raw;
    SignatureEquation(s, a, r, k);
    PointRoundTrip(s, A);
    PointRoundTrip(s, R);
    LittleEndianRoundTrip(S, s.size);
    SumBitsBounds(raw, 0, 8 * s.size);
    var S' := ScalarOf(s, other);
    assert s.Verify(s.Public(seed), other, message) <==> s.Encode(Mul(c, B, S')) == s.Encode(Mul(c, B, S));
    hide *;
    SameEncoding(s, S', S);
  }

  lemma SameEncoding(s: Scheme, a: nat, b: nat)
    requires Ready(s)
    ensures var P, Q := Mul(s.curve, s.base, a), Mul(s.curve, s.base, b);
            && (s.Encode(P) == s.Encode(Q) <==> P == Q)
            && (P == Q <==> Repeat(s.curve, s.base, a) == Repeat(s.curve, s.base, b))
  {
    hide *;
    ReadyParts(s);
    MulIsRepeat(s.curve, s.base, a);
    MulIsRepeat(s.curve, s.base, b);
    RepeatOnCurve(s.curve, s.base, a);
    RepeatOnCurve(s.curve, s.base, b);
    PointRoundTrip(s, Mul(s.curve, s.base, a));
    PointRoundTrip(s, Mul(s.curve, s.base, b));
  }

  /** Every scalar with the right remainder is accepted. */
  lemma CongruentAccepted(s: Scheme, seed: seq<Byte>, message: seq<Byte>, sig: seq<Byte>, raw: seq<Byte>)
    requires Ready(s) && sig == s.Sign(seed, message) && |raw| == s.size && |sig| == 2 * s.size
    requires ScalarOf(s, sig[..s.size] + raw) % s.order == ScalarOf(s, sig) % s.order
    ensures s.Verify(s.Public(seed), sig[..s.size] + raw, message)
  {
    ReadyParts(s);
    hide *;
    VerifyMeans(s, seed, message, raw);
    SameRemainder(s, ScalarOf(s, sig[..s.size] + raw), ScalarOf(s, sig));
  }

  /** With a base point of prime order, those are all: beside the point of a signature made,
      verification accepts exactly the scalars that leave its scalar as their remainder. */
  lemma AcceptedExactly(s: Scheme, seed: seq<Byte>, message: seq<Byte>, raw: seq<Byte>)
    requires Ready(s) && IsPrime(s.order) && s.base != Identity && |raw| == s.size
    ensures |s.Sign(seed, message)| == 2 * s.size
    ensures s.Verify(s.Public(seed), s.Sign(seed, message)[..s.size] + raw, message)
       <==> ScalarOf(s, s.Sign(seed, message)[..s.size] + raw) % s.order == ScalarOf(s, s.Sign(seed, message))
  {
    VerifyMeans(s, seed, message, raw);
    var sig := s.Sign(seed, message);
    var a, b := ScalarOf(s, sig[..s.size] + raw), ScalarOf(s, sig);
    assert s.order > 0 && b < s.order;
    SmallResidue(b, s.order);
    hide *;
    SameMultiple(s, a, b);
  }

  /** A signature with the order added to its scalar. */
  function Second(s: Scheme, sig: seq<Byte>): (r: seq<Byte>)
    requires s.WellFormed() && |sig| == 2 * s.size && ScalarOf(s, sig) + s.order < Exp2(8 * s.size)
    ensures |r| == 2 * s.size
  {
    sig[..s.size] + ToLittleEndian(ScalarOf(s, sig) + s.order, s.size)
  }

  /** It is accepted too, although its scalar is not below the order. */
  ghost predicate SecondAccepted(s: Scheme, publicKey: seq<Byte>, sig: seq<Byte>, message: seq<Byte>)
    requires s.WellFormed()
  {
    && |sig| == 2 * s.size && ScalarOf(s, sig) + s.order < Exp2(8 * s.size)
    && s.Verify(publicKey, Second(s, sig), message)
    && ScalarOf(s, Second(s, sig)) == ScalarOf(s, sig) + s.order
  }

  /** So a signature is not the only one, wherever twice the order fits the scalar's bytes. */
  lemma SecondSignature(s: Scheme, seed: seq<Byte>, message: seq<Byte>)
    requires Ready(s) && 2 * s.order <= Exp2(8 * s.size)
    ensures SecondAccepted(s, s.Public(seed), s.Sign(seed, message), message)
  {
    ReadyParts(s);
    VerifyMeans(s, seed, message, ToLittleEndian(0, s.size));
    hide *;
    SecondOf(s, seed, message, s.Sign(seed, message));
  }

  lemma SecondOf(s: Scheme, seed: seq<Byte>, message: seq<Byte>, sig: seq<Byte>)
    requires Ready(s) && 2 * s.order <= Exp2(8 * s.size)
    requires sig == s.Sign(seed, message) && |sig| == 2 * s.size && ScalarOf(s, sig) < s.order
    ensures SecondAccepted(s, s.Public(seed), sig, message)
  {
    ReadyParts(s);
    hide *;
    var raw := SecondBytes(s, sig);
    OneMore(ScalarOf(s, sig), s.order);
    CongruentAccepted(s, seed, message, sig, raw);
    FoldSecond(s, s.Public(seed), sig, message);
  }

  lemma SecondBytes(s: Scheme, sig: seq<Byte>) returns (raw: seq<Byte>)
    requires s.WellFormed() && 2 * s.order <= Exp2(8 * s.size)
    requires |sig| == 2 * s.size && ScalarOf(s, sig) < s.order
    ensures |raw| == s.size && ScalarOf(s, sig) + s.order < Exp2(8 * s.size)
    ensures Second(s, sig) == sig[..s.size] + raw && ScalarOf(s, Second(s, sig)) == ScalarOf(s, sig) + s.order
  {
    hide ScalarOf, Exp2, SumBits, ToLittleEndian;
    var n := ScalarOf(s, sig) + s.order;
    raw := ToLittleEndian(n, s.size);
    LittleEndianRoundTrip(n, s.size);
    NewScalar(s, sig, raw, n);
  }

  lemma FoldSecond(s: Scheme, publicKey: seq<Byte>, sig: seq<Byte>, message: seq<Byte>)
    requires s.WellFormed() && |sig| == 2 * s.size && ScalarOf(s, sig) + s.order < Exp2(8 * s.size)
    requires s.Verify(publicKey, Second(s, sig), message)
    requires ScalarOf(s, Second(s, sig)) == ScalarOf(s, sig) + s.order
    ensures SecondAccepted(s, publicKey, sig, message)
  {
    hide ScalarOf, Exp2, Second, s.Verify, s.WellFormed;
  }

  lemma OneMore(a: int, p: int)
    requires p > 0
    ensures (a + p) % p == a % p
  {
    ModShift(a, 1, p);
  }

  lemma NewScalar(s: Scheme, sig: seq<Byte>, raw: seq<Byte>, n: nat)
    requires s.WellFormed() && |sig| == 2 * s.size && |raw| == s.size && SumBits(raw, 0, 8 * s.size) == n
    ensures ScalarOf(s, sig[..s.size] + raw) == n
  {
    assert (sig[..s.size] + raw)[s.size..] == raw;
  }

  lemma TwiceTheOrder()
    ensures 2 * Curve25519.ORDER <= Exp2(256)
  {
    hide Exp2;
    Curve25519.LargePowers();
  }

  /** The program's own scheme is such a one. */
  lemma SecondEd25519Signature(hash: seq<Byte> -> seq<Byte>, seed: seq<Byte>, message: seq<Byte>)
    requires IsPrime(Curve25519.P) && forall m :: |hash(m)| == 64
    requires var s := Curve25519.TheScheme(Curve25519.P, hash); s.WellFormed() ==> s.GroupHypotheses()
    ensures var s := Curve25519.TheScheme(Curve25519.P, hash);
            s.WellFormed() && SecondAccepted(s, s.Public(seed), s.Sign(seed, message), message)
  {
    var s := Curve25519.TheScheme(Curve25519.P, hash);
    Curve25519.SchemeSound(hash);
    TwiceTheOrder();
    assert s.order == Curve25519.ORDER && s.size == 32;
    assert Ready(s);
    hide *;
    SecondSignature(s, seed, message);
  }
}
