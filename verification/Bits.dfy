/** Bytes and the bits inside them: little-endian sums, shifts and masks as the
    signature code writes them, and the fact that each undoes the other. */
module Bits {
  import NT = NumberTheory

  type Byte = b: int | 0 <= b < 256

  function Exp2(n: nat): (r: int)
    ensures r >= 1
  {
    if n == 0 then 1 else 2 * Exp2(n - 1)
  }

  /** `(v >> i) & 1` of a non-negative number. */
  function Bit(v: nat, i: nat): (b: nat)
    ensures b < 2
  {
    (v / Exp2(i)) % 2
  }

  /** Bit `i` of a byte string, least significant bit of each byte first. */
  function ByteBit(h: seq<Byte>, i: nat): (b: nat)
    requires i < 8 * |h|
    ensures b < 2
  {
    Bit(h[i / 8], i % 8)
  }

  /** The sum of `2^i` times bit `i` of `h`, for `lo <= i < hi`. */
  function SumBits(h: seq<Byte>, lo: nat, hi: nat): int
    requires lo <= hi <= 8 * |h|
    decreases hi - lo
  {
    if lo == hi then 0 else SumBits(h, lo, hi - 1) + Exp2(hi - 1) * ByteBit(h, hi - 1)
  }

  /** The sum of `bits[at + j] << j` for `j < n`. */
  function SumShifted(bits: seq<nat>, at: nat, n: nat): int
    requires at + n <= |bits|
  {
    if n == 0 then 0 else SumShifted(bits, at, n - 1) + bits[at + n - 1] * Exp2(n - 1)
  }

  /** `int.to_bytes(size, "little")`. */
  function ToLittleEndian(v: nat, size: nat): (r: seq<Byte>)
    requires v < Exp2(8 * size)
    ensures |r| == size
    decreases size
  {
    if size == 0 then [] else
      DivideExp2(v, 8, 8 * size);
      [v % 256] + ToLittleEndian(v / 256, size - 1)
  }

  // ---- powers of two ------------------------------------------------------------

  lemma {:induction false} Exp2Add(m: nat, n: nat)
    ensures Exp2(m + n) == Exp2(m) * Exp2(n)
  {
    if m > 0 {
      Exp2Add(m - 1, n);
    }
  }

  lemma NonNegative(k: int, a: int)
    requires a > 0
    ensures k >= 0 ==> k * a >= 0
  {
  }

  lemma DivideBelow(v: int, a: int, b: int)
    requires a > 0 && 0 <= v < a * b
    ensures v / a < b
  {
    var k := v / a - b;
    DivMod(v, a);
    NT.Distribute(b, k, a);
    NonNegative(k, a);
  }

  lemma DivideExp2(v: nat, m: nat, n: nat)
    requires m <= n && v < Exp2(n)
    ensures v / Exp2(m) < Exp2(n - m)
    ensures Exp2(8) == 256
  {
    Exp2Add(m, n - m);
    DivideBelow(v, Exp2(m), Exp2(n - m));
    assert Exp2(8) == 2 * (2 * (2 * (2 * Exp2(4)))) && Exp2(4) == 16;
  }

  lemma DivUnique(a: int, p: int, q: int, r: int)
    requires p > 0 && a == q * p + r && 0 <= r < p
    ensures a / p == q && a % p == r
  {
    NT.ModUnique(a, p, q, r);
    var k := a / p - q;
    NT.Distribute(a / p, -q, p);
    assert k * p == 0;
    if k != 0 {
      NT.SmallMultiple(k, p);
    }
  }

  lemma DivShift(s: int, e: int, k: int)
    requires e > 0
    ensures (s + k * e) / e == s / e + k
  {
    NT.Distribute(s / e, k, e);
    DivUnique(s + k * e, e, s / e + k, s % e);
  }

  lemma EvenShift(x: int, k: int)
    ensures (x + 2 * k) % 2 == x % 2
  {
  }

  lemma DivMod(v: int, e: int)
    requires e > 0
    ensures v == v % e + (v / e) * e && 0 <= v % e < e
    ensures v >= 0 ==> v / e >= 0
  {
  }

  lemma HighMultiple(b: nat, m: nat, j: nat) returns (k: int)
    requires j < m
    ensures b * Exp2(m) == (2 * k) * Exp2(j)
  {
    Exp2Add(j, m - j);
    var e, h := Exp2(j), Exp2(m - j - 1);
    k := b * h;
    assert Exp2(m) == e * (2 * h);
    assert b * (e * (2 * h)) == 2 * (b * h) * e;
  }

  /** Adding a multiple of a higher power of two leaves a bit alone. */
  lemma BitAddHigh(s: nat, b: nat, m: nat, j: nat)
    requires j < m
    ensures s + b * Exp2(m) >= 0
    ensures Bit(s + b * Exp2(m), j) == Bit(s, j)
  {
    var k := HighMultiple(b, m, j);
    DivShift(s, Exp2(j), 2 * k);
    EvenShift(s / Exp2(j), k);
  }

  lemma RemainderBound(r': int, r: int, a: int, b: int)
    requires 0 <= r' < b && 0 <= r < a
    ensures 0 <= r' * a + r < a * b
  {
    NonNegative(b - 1 - r', a);
    NonNegative(r', a);
    NT.Distribute(b - 1, -r', a);
    NT.Distribute(b, -1, a);
  }

  lemma DivDiv(v: int, a: int, b: int)
    requires a > 0 && b > 0
    ensures a * b > 0 && (v / a) / b == v / (a * b)
  {
    var q, r := v / a, v % a;
    var q', r' := q / b, q % b;
    RemainderBound(r', r, a, b);
    assert v == q' * (a * b) + (r' * a + r) by {
      NT.Distribute(q' * b, r', a);
      assert (q' * b) * a == q' * (a * b);
    }
    DivUnique(v, a * b, q', r' * a + r);
  }

  lemma BitShift(v: nat, m: nat, j: nat)
    ensures v / Exp2(m) >= 0
    ensures Bit(v / Exp2(m), j) == Bit(v, m + j)
  {
    Exp2Add(m, j);
    DivMod(v, Exp2(m));
    DivDiv(v, Exp2(m), Exp2(j));
  }

  lemma BitOfRemainder(v: nat, m: nat, j: nat)
    requires j < m
    ensures Bit(v % Exp2(m), j) == Bit(v, j)
  {
    var e := Exp2(m);
    DivMod(v, e);
    BitAddHigh(v % e, v / e, m, j);
  }

  // ---- sums of bits -------------------------------------------------------------

  lemma ModDouble(v: nat, n: nat)
    ensures v % Exp2(n + 1) == v % Exp2(n) + Exp2(n) * Bit(v, n)
  {
    var e := Exp2(n);
    var q, r := v / e, v % e;
    var h, b := q / 2, q % 2;
    assert v == h * (2 * e) + (e * b + r) by {
      assert q == 2 * h + b;
      NT.Distribute(2 * h, b, e);
    }
    assert e * b <= e;
    DivUnique(v, 2 * e, h, e * b + r);
  }

  /** Summing the bits a number shares with a byte string gives back its low bits. */
  lemma {:induction false} SumBitsOf(h: seq<Byte>, v: nat, n: nat)
    requires n <= 8 * |h|
    requires forall i :: 0 <= i < n ==> ByteBit(h, i) == Bit(v, i)
    ensures SumBits(h, 0, n) == v % Exp2(n)
  {
    if n > 0 {
      SumBitsOf(h, v, n - 1);
      ModDouble(v, n - 1);
    }
  }

  lemma AddMultiple(s: int, e: int, f: int, b: int)
    requires e > 0 && f > 0 && s % e == 0 && 0 <= b < 2
    ensures 0 <= (e * f) * b <= e * f && (s + (e * f) * b) % e == 0
  {
    NonNegative(f, e);
    if b == 1 {
      NT.ModShift(s, f, e);
    } else {
      assert (e * f) * b == 0;
    }
  }

  lemma {:induction false} SumBitsBounds(h: seq<Byte>, lo: nat, hi: nat)
    requires lo <= hi <= 8 * |h|
    ensures 0 <= SumBits(h, lo, hi) <= Exp2(hi) - Exp2(lo)
    ensures SumBits(h, lo, hi) % Exp2(lo) == 0
    decreases hi - lo
  {
    if lo < hi {
      SumBitsBounds(h, lo, hi - 1);
      var s, b := SumBits(h, lo, hi - 1), ByteBit(h, hi - 1);
      Exp2Add(lo, hi - 1 - lo);
      AddMultiple(s, Exp2(lo), Exp2(hi - 1 - lo), b);
    }
  }

  lemma {:induction false} SumShiftedBits(bits: seq<nat>, at: nat, n: nat)
    requires at + n <= |bits|
    requires forall i :: 0 <= i < |bits| ==> bits[i] < 2
    ensures 0 <= SumShifted(bits, at, n) < Exp2(n)
    ensures forall j :: 0 <= j < n ==> Bit(SumShifted(bits, at, n), j) == bits[at + j]
  {
    if n > 0 {
      SumShiftedBits(bits, at, n - 1);
      var s, b := SumShifted(bits, at, n - 1), bits[at + n - 1];
      var sum := SumShifted(bits, at, n);
      assert sum == s + b * Exp2(n - 1);
      TopBit(s, b, n - 1);
      hide Exp2, Bit, SumShifted;
      forall j | 0 <= j < n
        ensures Bit(sum, j) == bits[at + j]
      {
        if j < n - 1 {
          BitAddHigh(s, b, n - 1, j);
        }
      }
    }
  }

  lemma TopBit(s: nat, b: nat, m: nat)
    requires s < Exp2(m) && b < 2
    ensures 0 <= s + b * Exp2(m) < Exp2(m + 1) && Bit(s + b * Exp2(m), m) == b
  {
    assert b == 0 || b == 1;
    DivUnique(s + b * Exp2(m), Exp2(m), b, s);
  }

  lemma {:induction false} LittleEndianBits(v: nat, size: nat, i: nat)
    requires v < Exp2(8 * size) && i < 8 * size
    ensures ByteBit(ToLittleEndian(v, size), i) == Bit(v, i)
    decreases size
  {
    DivideExp2(v, 8, 8 * size);
    if i < 8 {
      BitOfRemainder(v, 8, i);
    } else {
      LittleEndianBits(v / 256, size - 1, i - 8);
      BitShift(v, 8, i - 8);
      var r := ToLittleEndian(v, size);
      assert r[i / 8] == ToLittleEndian(v / 256, size - 1)[(i - 8) / 8];
    }
  }

  /** Reading little-endian bytes bit by bit gives back the number written. */
  lemma LittleEndianRoundTrip(v: nat, size: nat)
    requires v < Exp2(8 * size)
    ensures SumBits(ToLittleEndian(v, size), 0, 8 * size) == v
  {
    forall i | 0 <= i < 8 * size
      ensures ByteBit(ToLittleEndian(v, size), i) == Bit(v, i)
    {
      LittleEndianBits(v, size, i);
    }
    SumBitsOf(ToLittleEndian(v, size), v, 8 * size);
    DivUnique(v, Exp2(8 * size), 0, v);
  }
}
