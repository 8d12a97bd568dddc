/** What verifying and signing come to in digests, numbers and points: which number a digest
    is, which equation a signature is accepted for, and what a signature made consists of. */
module SignatureMeaning {
  import opened Bits
  import opened Decoding
  import opened Digits
  import opened Edwards
  import opened Ed25519
  import NT = NumberTheory

  // ---- the number of a digest ---------------------------------------------------------------

  /** The bytes of the number are the digest. */
  lemma DigestNumber(s: Scheme, m: seq<Byte>)
    requires s.WellFormed()
    ensures s.HashNumber(m) < Exp2(16 * s.size)
    ensures ToLittleEndian(s.HashNumber(m), 2 * s.size) == s.hash(m)
  {
    SumIsValue(s.hash(m));
    LittleWritten(s.hash(m));
  }

  /** k is the number whose little-endian bytes are the digest of m. */
  ghost predicate IsDigest(s: Scheme, k: nat, m: seq<Byte>)
    requires s.WellFormed()
  {
    k < Exp2(8 * (2 * s.size)) && ToLittleEndian(k, 2 * s.size) == s.hash(m)
  }

  lemma OneNumber(s: Scheme, k: nat, m: seq<Byte>)
    requires s.WellFormed()
    ensures IsDigest(s, k, m) <==> k == s.HashNumber(m)
  {
    DigestNumber(s, m);
    SumIsValue(s.hash(m));
    if IsDigest(s, k, m) {
      LittleRead(k, 2 * s.size);
    }
  }

  // ---- verification -------------------------------------------------------------------------

  lemma SameEncoding(s: Scheme, P: Point, Q: Point)
    requires s.WellFormed() && Sound(s.curve) && OnCurve(s.curve, P) && OnCurve(s.curve, Q)
    ensures s.Encode(P) == s.Encode(Q) <==> P == Q
  {
    PointRoundTrip(s, P);
    PointRoundTrip(s, Q);
    hide OnCurve, Sound, s.Encode, s.Decode;
  }

  /** The equation S B = R + k A. */
  ghost predicate Balances(s: Scheme, S: nat, R: Point, k: nat, A: Point)
    requires s.WellFormed()
  {
    Repeat(s.curve, s.base, S) == Add(s.curve, R, Repeat(s.curve, A, k))
  }

  lemma CheckedPoints(s: Scheme, S: nat, k: nat, R': Point, A': Point)
    requires s.WellFormed() && Sound(s.curve) && Associative(s.curve) && OnCurve(s.curve, s.base)
    requires R'.x >= 0 && R'.y >= 0 && A'.x >= 0 && A'.y >= 0
    requires OnCurve(s.curve, Reduced(s.curve, R')) && OnCurve(s.curve, Reduced(s.curve, A'))
    ensures s.Encode(Mul(s.curve, s.base, S)) == s.Encode(Add(s.curve, R', Mul(s.curve, A', k)))
       <==> Balances(s, S, Reduced(s.curve, R'), k, Reduced(s.curve, A'))
  {
    var c, R, A := s.curve, Reduced(s.curve, R'), Reduced(s.curve, A');
    MulReduced(c, A', k);
    MulIsRepeat(c, A, k);
    MulIsRepeat(c, s.base, S);
    var kA := Mul(c, A', k);
    assert Reduced(c, kA) == kA by { Small(c, kA); }
    assert Reduced(c, R) == R by { ReducedTwice(c, R'); }
    AddReduced(c, R', kA);
    AddReduced(c, R, kA);
    hide Reduced, Sound, Associative, OnCurve, Add, Mul, Repeat, s.Encode;
    RepeatOnCurve(c, A, k);
    RepeatOnCurve(c, s.base, S);
    AddOnCurve(c, R, kA);
    SameEncoding(s, Repeat(c, s.base, S), Add(c, R, kA));
  }

  lemma Small(c: Curve, P: Point)
    requires c.p > 2 && 0 <= P.x < c.p && 0 <= P.y < c.p
    ensures Reduced(c, P) == P
  {
    SmallResidue(P.x, c.p);
    SmallResidue(P.y, c.p);
  }

  lemma DecodedCoordinates(s: Scheme, raw: seq<Byte>)
    requires s.WellFormed() && |raw| == s.size && s.Decode(raw).Some? && Sound(s.curve)
    ensures s.Decode(raw).value.x >= 0 && s.Decode(raw).value.y >= 0
    ensures OnCurve(s.curve, Reduced(s.curve, s.Decode(raw).value))
  {
    assert s.curve.p % 2 == 1;
    var y, sign, x := DecodeForm(s, raw);
    hide s.Decode, RecoverX, OnCurve, Sound, Exp2, LittleValue;
    RecoveredIsEven(s.curve, y);
  }

  /** The function's own body, with the sums replaced by the values of the bytes. */
  lemma VerifyForm(s: Scheme, publicKey: seq<Byte>, signature: seq<Byte>, message: seq<Byte>)
    requires s.WellFormed() && |signature| == 2 * s.size && |publicKey| == s.size && Sound(s.curve)
    ensures var R, A := s.Decode(signature[..s.size]), s.Decode(publicKey);
            (R.Some? ==> R.value.x >= 0 && R.value.y >= 0) && (A.Some? ==> A.value.x >= 0 && A.value.y >= 0)
            && (s.Verify(publicKey, signature, message) <==>
                R.Some? && A.Some?
                && s.Encode(Mul(s.curve, s.base, LittleValue(signature[s.size..])))
                   == s.Encode(Add(s.curve, R.value,
                               Mul(s.curve, A.value, s.HashNumber(signature[..s.size] + publicKey + message)))))
  {
    SumIsValue(signature[s.size..]);
    var R, A := s.Decode(signature[..s.size]), s.Decode(publicKey);
    if R.Some? { DecodedCoordinates(s, signature[..s.size]); }
    if A.Some? { DecodedCoordinates(s, publicKey); }
    hide s.Decode, s.Encode, s.HashNumber, SumBits, LittleValue, Sound;
  }

  /** A signature is accepted exactly when the key and the signature have their lengths, spell
      curve points A and R, and the number S of its second half satisfies S B = R + k A, where
      k is the number of the digest of R, the key and the message. */
  lemma VerifyMeaning(s: Scheme, publicKey: seq<Byte>, signature: seq<Byte>, message: seq<Byte>, k: nat)
    requires s.WellFormed() && Sound(s.curve) && Associative(s.curve) && OnCurve(s.curve, s.base)
    requires |signature| >= s.size ==> IsDigest(s, k, signature[..s.size] + publicKey + message)
    ensures s.Verify(publicKey, signature, message)
       <==> |signature| == 2 * s.size && |publicKey| == s.size
            && exists A, R :: Spells(s, publicKey, A) && Spells(s, signature[..s.size], R)
                              && Balances(s, LittleValue(signature[s.size..]), R, k, A)
  {
    if |signature| == 2 * s.size && |publicKey| == s.size {
      VerifyForm(s, publicKey, signature, message);
      OneNumber(s, k, signature[..s.size] + publicKey + message);
      var R', A' := s.Decode(signature[..s.size]), s.Decode(publicKey);
      hide s.Verify, s.Decode, s.Encode, s.HashNumber, IsDigest, Spells, Balances, Sound, Associative, OnCurve;
      hide LittleValue, Reduced;
      forall P
        ensures Spells(s, publicKey, P) <==> A'.Some? && Reduced(s.curve, A'.value) == P
        ensures Spells(s, signature[..s.size], P) <==> R'.Some? && Reduced(s.curve, R'.value) == P
      {
        DecodeMeaning(s, publicKey, P);
        DecodeMeaning(s, signature[..s.size], P);
      }
      if R'.Some? && A'.Some? {
        DecodedCoordinates(s, publicKey);
        DecodedCoordinates(s, signature[..s.size]);
        CheckedPoints(s, LittleValue(signature[s.size..]), k, R'.value, A'.value);
      }
    }
  }

  /** For given points of the curve: verification accepts R and S for A exactly when
      S B = R + k A. */
  lemma VerifyExactly(s: Scheme, A: Point, R: Point, S: nat, k: nat, message: seq<Byte>)
    requires s.WellFormed() && Sound(s.curve) && Associative(s.curve) && OnCurve(s.curve, s.base)
    requires OnCurve(s.curve, A) && OnCurve(s.curve, R) && S < Exp2(8 * s.size)
    requires IsDigest(s, k, s.Encode(R) + s.Encode(A) + message)
    ensures s.Verify(s.Encode(A), s.Encode(R) + ToLittleEndian(S, s.size), message)
       <==> Repeat(s.curve, s.base, S) == Add(s.curve, R, Repeat(s.curve, A, k))
  {
    var a, r, t := s.Encode(A), s.Encode(R), ToLittleEndian(S, s.size);
    var sig := r + t;
    assert sig[..s.size] == r && sig[s.size..] == t;
    LittleRead(S, s.size);
    PointRoundTrip(s, A);
    PointRoundTrip(s, R);
    Small(s.curve, A);
    Small(s.curve, R);
    assert Balances(s, S, R, k, A) <==> Repeat(s.curve, s.base, S) == Add(s.curve, R, Repeat(s.curve, A, k));
    hide s.Verify, s.Decode, s.Encode, IsDigest, Spells, Balances, Sound, Associative, OnCurve, Repeat, Add;
    hide LittleValue, Reduced, ToLittleEndian, Exp2;
    VerifyMeaning(s, a, sig, message, k);
    forall P
      ensures Spells(s, a, P) <==> P == A
      ensures Spells(s, r, P) <==> P == R
    {
      DecodeMeaning(s, a, P);
      DecodeMeaning(s, r, P);
    }
  }

  // ---- signing ------------------------------------------------------------------------------

  /** a has the digest's bits 3 to n - 1, bit n for n = 8 size - 2, and no others. */
  ghost predicate ClampedFrom(s: Scheme, a: nat, digest: seq<Byte>)
    requires s.WellFormed() && |digest| == 2 * s.size
  {
    && a < Exp2(8 * s.size)
    && forall i :: 0 <= i < 8 * s.size ==>
         Bit(a, i) == if i == 8 * s.size - 2 then 1 else if 3 <= i < 8 * s.size - 2 then ByteBit(digest, i) else 0
  }

  lemma ClampedBits(s: Scheme, seed: seq<Byte>)
    requires s.WellFormed()
    ensures ClampedFrom(s, s.Clamped(seed), s.hash(seed))
  {
    var h, n, a := s.hash(seed), 8 * s.size - 2, s.Clamped(seed);
    SumHasBits(h, 3, n, 0);
    var low := SumBits(h, 3, n);
    assert a == low + 1 * Exp2(n);
    TopBit(low, 1, n);
    Exp2Grows(n + 1, 8 * s.size);
    hide SumBits, Exp2, Bit, ByteBit, s.Clamped;
    forall i | 0 <= i < 8 * s.size
      ensures Bit(a, i) == if i == n then 1 else if 3 <= i < n then ByteBit(h, i) else 0
    {
      SumHasBits(h, 3, n, i);
      if i < n {
        BitAddHigh(low, 1, n, i);
      } else if i > n {
        HighBit(a, n + 1, i);
      }
    }
  }

  lemma {:induction false} Exp2Grows(m: nat, n: nat)
    requires m <= n
    ensures Exp2(m) <= Exp2(n)
  {
    if m < n {
      Exp2Grows(m, n - 1);
    }
  }

  /** One number has those bits. */
  lemma OneClamped(s: Scheme, a: nat, seed: seq<Byte>)
    requires s.WellFormed() && ClampedFrom(s, a, s.hash(seed))
    ensures a == s.Clamped(seed)
  {
    ClampedBits(s, seed);
    hide Exp2, Bit, ByteBit, s.Clamped;
    BitsDecide(a, s.Clamped(seed), s.size);
  }

  /** What a signature made is: for the clamped scalar a of the seed's digest, the nonce r of
      its other half and the message, and k of R, the public key and the message, it is R = r B
      followed by the remainder S of r + k a modulo the order; and the public key is a B. */
  lemma SignMeaning(s: Scheme, seed: seq<Byte>, message: seq<Byte>, a: nat, r: nat, k: nat)
    returns (S: nat, q: int)
    requires s.WellFormed() && Sound(s.curve) && Associative(s.curve) && OnCurve(s.curve, s.base)
    requires ClampedFrom(s, a, s.hash(seed))
    requires IsDigest(s, r, s.hash(seed)[s.size..] + message)
    requires var A, R := Repeat(s.curve, s.base, a), Repeat(s.curve, s.base, r);
             A.x >= 0 && A.y >= 0 && R.x >= 0 && R.y >= 0
             && IsDigest(s, k, s.Encode(R) + s.Encode(A) + message)
    ensures var A, R := Repeat(s.curve, s.base, a), Repeat(s.curve, s.base, r);
            && s.Public(seed) == s.Encode(A)
            && S < s.order && S + q * s.order == r + k * a
            && s.Sign(seed, message) == s.Encode(R) + ToLittleEndian(S, s.size)
  {
    OneClamped(s, a, seed);
    OneNumber(s, r, s.hash(seed)[s.size..] + message);
    MulIsRepeat(s.curve, s.base, a);
    MulIsRepeat(s.curve, s.base, r);
    OneNumber(s, k, s.Encode(Repeat(s.curve, s.base, r)) + s.Encode(Repeat(s.curve, s.base, a)) + message);
    S := Response(r, k, a, s.order);
    hide s.Encode, Mul, Repeat, Sound, Associative, OnCurve, IsDigest, ClampedFrom, s.Clamped, s.HashNumber;
    SignForm(s, seed, message, a, r, k);
    q := ResponseQuotient(r, k, a, s.order);
  }

  lemma SignForm(s: Scheme, seed: seq<Byte>, message: seq<Byte>, a: nat, r: nat, k: nat)
    requires s.WellFormed() && a == s.Clamped(seed) && r == s.HashNumber(s.hash(seed)[s.size..] + message)
    requires k == s.HashNumber(s.Encode(Mul(s.curve, s.base, r)) + s.Encode(Mul(s.curve, s.base, a)) + message)
    ensures s.Public(seed) == s.Encode(Mul(s.curve, s.base, a))
    ensures s.Sign(seed, message)
            == s.Encode(Mul(s.curve, s.base, r)) + ToLittleEndian(Response(r, k, a, s.order), s.size)
  {
    hide s.Encode, Mul, s.Clamped, s.HashNumber, Response, ToLittleEndian, Exp2;
  }

  lemma ResponseQuotient(r: nat, k: nat, a: nat, n: int) returns (q: int)
    requires n > 0
    ensures Response(r, k, a, n) + q * n == r + k * a
  {
    var e := ResponseOf(r, k, a, n);
    DivMod(e, n);
    q := e / n;
  }

  // ---- the sum of two points ------------------------------------------------------------------

  /** The addition law of the curve, cleared of its denominators, which are units. */
  lemma AdditionLaw(c: Curve, P: Point, Q: Point)
    requires Sound(c) && OnCurve(c, P) && OnCurve(c, Q)
    ensures var R, t := Add(c, P, Q), c.d * P.x * Q.x * P.y * Q.y;
            && ((1 + t) * R.x - (P.x * Q.y + Q.x * P.y)) % c.p == 0 && (1 + t) % c.p != 0
            && ((1 - t) * R.y - (P.y * Q.y + P.x * Q.x)) % c.p == 0 && (1 - t) % c.p != 0
            && 0 <= R.x < c.p && 0 <= R.y < c.p
  {
    var p, t, T, R := c.p, Cross(c, P, Q), c.d * P.x * Q.x * P.y * Q.y, Add(c, P, Q);
    Complete(c, P, Q);
    NT.CongMod(T, p);
    ClearedFraction(p, P.x * Q.y + Q.x * P.y, 1 + t, 1 + T, 1, t, T);
    ClearedFraction(p, P.y * Q.y + P.x * Q.x, 1 - t, 1 - T, -1, t, T);
  }

  lemma ClearedFraction(p: int, n: int, u: int, v: int, sign: int, t: int, T: int)
    requires NT.IsPrime(p) && u % p != 0 && NT.Cong(t, T, p)
    requires (sign == 1 && u == 1 + t && v == 1 + T) || (sign == -1 && u == 1 - t && v == 1 - T)
    ensures v % p != 0
    ensures (v * (n * NT.PowMod(u, p - 2, p) % p) - n) % p == 0
  {
    var x := n * NT.PowMod(u, p - 2, p) % p;
    Fraction(p, n, u);
    if sign == 1 {
      NT.CongAdd(1, 1, t, T, p);
    } else {
      NT.CongSub(1, 1, t, T, p);
    }
    assert NT.Cong(u, v, p);
    NT.CongMul(u, v, x, x, p);
    NT.CongZero(v * x, n, p);
  }
}
