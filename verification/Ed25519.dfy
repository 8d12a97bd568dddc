/** Ed25519 signatures (RFC 8032, section 5.1) as the wire peer computes them: key
    derivation, signing and verification over the curve functions of `Edwards`. */
module Ed25519 {
  import opened NumberTheory
  import opened Bits
  import opened Edwards
  import opened Wrappers

  /** The parameters of one EdDSA instance. `size` is the number of bytes of an encoded
      point; `hash` stands for SHA-512, of which only the digest length matters. */
  datatype Scheme = Scheme(curve: Curve, base: Point, order: int, size: nat,
                           hash: seq<Byte> -> seq<Byte>)
  {
    ghost predicate WellFormed() {
      && curve.p > 2 && size >= 2
      && curve.p <= Exp2(8 * size - 1)
      && 0 < order <= Exp2(8 * size)
      && (forall m :: |hash(m)| == 2 * size)
    }

    // ---- points as bytes -----------------------------------------------------------

    function PointBits(P: Point): (bits: seq<nat>)
      requires WellFormed() && P.x >= 0 && P.y >= 0
      ensures |bits| == 8 * size
      ensures forall i :: 0 <= i < |bits| ==> bits[i] < 2
    {
      seq(8 * size - 1, i requires 0 <= i => Bit(P.y, i)) + [P.x % 2]
    }

    function Encode(P: Point): (r: seq<Byte>)
      requires WellFormed() && P.x >= 0 && P.y >= 0
      ensures |r| == size
    {
      var bits := PointBits(P);
      seq(size, i requires 0 <= i < size => PackByte(bits, 8 * i))
    }

    function Decode(raw: seq<Byte>): Option<Point>
      requires WellFormed() && |raw| == size
    {
      var y := SumBits(raw, 0, 8 * size - 1);
      var x := RecoverX(curve, y);
      var x' := if x % 2 != ByteBit(raw, 8 * size - 1) then curve.p - x else x;
      if (-x' * x' + y * y - 1 - curve.d * x' * x' * y * y) % curve.p != 0
      then None else Some(Point(x', y))
    }

    // ---- keys and signatures -------------------------------------------------------

    /** The 512 bits of a digest as a number. */
    function HashNumber(m: seq<Byte>): nat
      requires WellFormed()
    {
      SumBitsBounds(hash(m), 0, 16 * size);
      SumBits(hash(m), 0, 16 * size)
    }

    function Clamped(seed: seq<Byte>): nat
      requires WellFormed()
    {
      SumBitsBounds(hash(seed), 3, 8 * size - 2);
      Exp2(8 * size - 2) + SumBits(hash(seed), 3, 8 * size - 2)
    }

    function Public(seed: seq<Byte>): seq<Byte>
      requires WellFormed()
    {
      Encode(Mul(curve, base, Clamped(seed)))
    }

    function Sign(seed: seq<Byte>, message: seq<Byte>): (sig: seq<Byte>)
      requires WellFormed()
    {
      var h := hash(seed);
      var a := Clamped(seed);
      var public := Encode(Mul(curve, base, a));
      var r := HashNumber(h[size..] + message);
      var R := Encode(Mul(curve, base, r));
      var k := HashNumber(R + public + message);
      var S := Response(r, k, a, order);
      R + ToLittleEndian(S, size)
    }

    predicate Verify(publicKey: seq<Byte>, signature: seq<Byte>, message: seq<Byte>)
      requires WellFormed()
    {
      |signature| == 2 * size && |publicKey| == size &&
      match (Decode(signature[..size]), Decode(publicKey))
      case (Some(R), Some(A)) =>
        SumBitsBounds(signature[size..], 0, 8 * size);
        var S := SumBits(signature[size..], 0, 8 * size);
        var k := HashNumber(signature[..size] + publicKey + message);
        Encode(Mul(curve, base, S)) == Encode(Add(curve, R, Mul(curve, A, k)))
      case _ => false
    }

    /** The named hypotheses about the group, beyond the field: the addition law is
        associative, and `order` copies of the base point sum to the identity. */
    ghost predicate GroupHypotheses()
      requires WellFormed()
    {
      && Associative(curve)
      && Mul(curve, base, order) == Identity
    }
  }

  /** The scalar a signature carries: r + k a, reduced. */
  function Response(r: nat, k: nat, a: nat, n: int): (S: nat)
    requires n > 0
    ensures S < n
  {
    (r + k * a) % n
  }

  function PackByte(bits: seq<nat>, at: nat): Byte
    requires at + 8 <= |bits|
    requires forall i :: 0 <= i < |bits| ==> bits[i] < 2
  {
    SumShiftedBits(bits, at, 8);
    DivideExp2(0, 8, 8);
    SumShifted(bits, at, 8)
  }

  // ---- points survive their encoding ------------------------------------------------

  lemma EncodedBit(s: Scheme, P: Point, i: nat)
    requires s.WellFormed() && P.x >= 0 && P.y >= 0 && i < 8 * s.size
    ensures ByteBit(s.Encode(P), i) == if i < 8 * s.size - 1 then Bit(P.y, i) else P.x % 2
  {
    var bits := s.PointBits(P);
    var at := 8 * (i / 8);
    SumShiftedBits(bits, at, 8);
    assert s.Encode(P)[i / 8] == PackByte(bits, at);
    assert bits[at + i % 8] == bits[i];
  }

  lemma EncodedY(s: Scheme, P: Point)
    requires s.WellFormed() && P.x >= 0 && 0 <= P.y < s.curve.p
    ensures SumBits(s.Encode(P), 0, 8 * s.size - 1) == P.y
  {
    var raw, top := s.Encode(P), 8 * s.size - 1;
    forall i | 0 <= i < top
      ensures ByteBit(raw, i) == Bit(P.y, i)
    {
      EncodedBit(s, P, i);
    }
    SumBitsOf(raw, P.y, top);
    SmallResidue(P.y, Exp2(top));
  }

  lemma ChosenRoot(p: int, x: int)
    requires p % 2 == 1 && 0 <= x < p
    ensures var r := if x % 2 == 0 then x else p - x;
            (if r % 2 != x % 2 then p - r else r) == x
  {
  }

  lemma DecodesTo(s: Scheme, raw: seq<Byte>, P: Point)
    requires s.WellFormed() && |raw| == s.size
    requires P.y == SumBits(raw, 0, 8 * s.size - 1) && OnCurve(s.curve, P)
    requires var x := RecoverX(s.curve, P.y);
             P.x == if x % 2 != ByteBit(raw, 8 * s.size - 1) then s.curve.p - x else x
    ensures s.Decode(raw) == Some(P)
  {
    hide SumBits, ByteBit, RecoverX;
  }

  /** Decoding undoes encoding on every reduced point of the curve. */
  lemma PointRoundTrip(s: Scheme, P: Point)
    requires s.WellFormed() && Sound(s.curve) && OnCurve(s.curve, P)
    ensures s.Decode(s.Encode(P)) == Some(P)
  {
    var top := 8 * s.size - 1;
    EncodedY(s, P);
    EncodedBit(s, P, top);
    RecoverXCorrect(s.curve, P);
    assert s.curve.p % 2 == 1;
    ChosenRoot(s.curve.p, P.x);
    var raw := s.Encode(P);
    assert ByteBit(raw, top) == P.x % 2;
    hide SumBits, ByteBit, RecoverX, OnCurve, Sound, Bit, s.Encode, s.Decode;
    DecodesTo(s, raw, P);
  }

  // ---- scalars ----------------------------------------------------------------------

  /** A private scalar has its top bit set and is a multiple of the cofactor 8. */
  lemma ClampedScalar(s: Scheme, seed: seq<Byte>)
    requires s.WellFormed()
    ensures Exp2(8 * s.size - 2) <= s.Clamped(seed) < Exp2(8 * s.size - 1)
    ensures s.Clamped(seed) % 8 == 0
  {
    var n := 8 * s.size - 2;
    SumBitsBounds(s.hash(seed), 3, n);
    Exp2Add(3, n - 3);
    assert Exp2(3) == 8;
    ModMultiple(Exp2(n - 3), 8);
    CongAdd(8 * Exp2(n - 3), 0, SumBits(s.hash(seed), 3, n), 0, 8);
  }

  lemma TimesCommuted(c: Curve, B: Point, a: nat, k: nat)
    requires Sound(c) && Associative(c) && OnCurve(c, B)
    ensures k * a >= 0 && Repeat(c, B, k * a) == Repeat(c, Repeat(c, B, a), k)
  {
    assert c.p > 2;
    hide Sound, Associative, OnCurve, Add, Repeat;
    RepeatTimes(c, B, a, k);
    assert k * a == a * k;
  }

  /** The response, as a remainder of one number. */
  lemma ResponseOf(r: nat, k: nat, a: nat, n: int) returns (e: nat)
    requires n > 0
    ensures k * a >= 0 && e == r + k * a && Response(r, k, a, n) == e % n
  {
    e := r + k * a;
  }

  lemma RepeatRemainder(c: Curve, B: Point, n: nat, e: nat, z: nat)
    requires Sound(c) && Associative(c) && OnCurve(c, B) && n > 0 && Repeat(c, B, n) == Identity
    requires z == e % n
    ensures Repeat(c, B, z) == Repeat(c, B, e)
  {
    RepeatReduced(c, B, n, e);
  }

  lemma ResponseEquation(c: Curve, B: Point, n: nat, a: nat, r: nat, k: nat)
    requires Sound(c) && Associative(c) && OnCurve(c, B) && n > 0 && Repeat(c, B, n) == Identity
    ensures Repeat(c, B, Response(r, k, a, n)) == Add(c, Repeat(c, B, r), Repeat(c, Repeat(c, B, a), k))
  {
    assert c.p > 2;
    hide Sound, Associative, OnCurve, Add, Repeat, Response;
    var e := ResponseOf(r, k, a, n);
    RepeatRemainder(c, B, n, e, Response(r, k, a, n));
    TimesCommuted(c, B, a, k);
    RepeatAdd(c, B, r, k * a);
  }

  /** The equation verification checks: S B = R + k A when S = r + k a modulo the order. */
  lemma SignatureEquation(s: Scheme, a: nat, r: nat, k: nat)
    requires s.WellFormed() && Sound(s.curve) && OnCurve(s.curve, s.base) && s.GroupHypotheses()
    ensures var B := s.base;
            var A := Mul(s.curve, B, a);
            var R := Mul(s.curve, B, r);
            && OnCurve(s.curve, A) && OnCurve(s.curve, R)
            && Mul(s.curve, B, Response(r, k, a, s.order)) == Add(s.curve, R, Mul(s.curve, A, k))
  {
    var c, B, n := s.curve, s.base, s.order;
    assert c.p > 2 && n > 0 && Associative(c) && Mul(c, B, n) == Identity;
    hide Sound, Associative, OnCurve, Add, Repeat, Mul, Response;
    MulIsRepeat(c, B, a);
    MulIsRepeat(c, B, r);
    MulIsRepeat(c, B, n);
    RepeatOnCurve(c, B, a);
    RepeatOnCurve(c, B, r);
    MulIsRepeat(c, Repeat(c, B, a), k);
    MulIsRepeat(c, B, Response(r, k, a, n));
    ResponseEquation(c, B, n, a, r, k);
  }

  // ---- the theorem --------------------------------------------------------------------

  /** Verification accepts every signature that signing makes. */
  lemma VerifyAcceptsSignature(s: Scheme, seed: seq<Byte>, message: seq<Byte>)
    requires s.WellFormed() && Sound(s.curve) && OnCurve(s.curve, s.base) && s.GroupHypotheses()
    ensures s.Verify(s.Public(seed), s.Sign(seed, message), message)
  {
    var c, B := s.curve, s.base;
    var a := s.Clamped(seed);
    var A := Mul(c, B, a);
    var r := s.HashNumber(s.hash(seed)[s.size..] + message);
    var R := Mul(c, B, r);
    var pub, rbytes := s.Encode(A), s.Encode(R);
    var k := s.HashNumber(rbytes + pub + message);
    var S := Response(r, k, a, s.order);
    var sig := s.Sign(seed, message);
    assert sig == rbytes + ToLittleEndian(S, s.size);
    assert sig[..s.size] == rbytes && sig[s.size..] == ToLittleEndian(S, s.size);
    SignatureEquation(s, a, r, k);
    PointRoundTrip(s, A);
    PointRoundTrip(s, R);
    LittleEndianRoundTrip(S, s.size);
  }
}
