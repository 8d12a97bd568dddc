/** Numbers by their bits and bytes, said directly: positional values, and what the sums and
    shifts of the signature code come to. */
module Digits {
  import opened Bits
  import NT = NumberTheory

  /** The value of a little-endian byte string, position by position. */
  function LittleValue(b: seq<Byte>): nat {
    if b == [] then 0 else b[0] + 256 * LittleValue(b[1..])
  }

  lemma EightBits(n: nat)
    ensures Exp2(8) == 256 && Exp2(8 * (n + 1)) == 256 * Exp2(8 * n)
  {
    DivideExp2(0, 8, 8);
    Exp2Add(8, 8 * n);
  }

  lemma {:induction false} LittleBound(b: seq<Byte>)
    ensures LittleValue(b) < Exp2(8 * |b|)
  {
    if b != [] {
      LittleBound(b[1..]);
      EightBits(|b| - 1);
      hide Exp2;
    }
  }

  /** Writing the value of a byte string gives the byte string back. */
  lemma {:induction false} LittleWritten(b: seq<Byte>)
    ensures LittleValue(b) < Exp2(8 * |b|)
    ensures ToLittleEndian(LittleValue(b), |b|) == b
  {
    LittleBound(b);
    if b != [] {
      var v, rest := LittleValue(b), LittleValue(b[1..]);
      LittleWritten(b[1..]);
      DivUnique(v, 256, rest, b[0]);
      DivideExp2(v, 8, 8 * |b|);
      hide Exp2;
      assert b == [b[0]] + b[1..];
    }
  }

  /** The value of what was written is the number written. */
  lemma {:induction false} LittleRead(v: nat, size: nat)
    requires v < Exp2(8 * size)
    ensures LittleValue(ToLittleEndian(v, size)) == v
    decreases size
  {
    if size > 0 {
      DivideExp2(v, 8, 8 * size);
      LittleRead(v / 256, size - 1);
      var r := ToLittleEndian(v, size);
      assert r[0] == v % 256 && r[1..] == ToLittleEndian(v / 256, size - 1);
      hide Exp2;
    }
  }

  /** Summing all the bits of a byte string gives its little-endian value. */
  lemma SumIsValue(b: seq<Byte>)
    ensures SumBits(b, 0, 8 * |b|) == LittleValue(b)
  {
    LittleWritten(b);
    LittleEndianRoundTrip(LittleValue(b), |b|);
  }

  // ---- bits ---------------------------------------------------------------------------

  lemma HighBit(v: nat, hi: nat, i: nat)
    requires v < Exp2(hi) && hi <= i
    ensures Bit(v, i) == 0
  {
    Exp2Add(hi, i - hi);
    NonNegative(Exp2(i - hi) - 1, Exp2(hi));
    NT.Distribute(Exp2(i - hi) - 1, 1, Exp2(hi));
    assert v < Exp2(i);
    DivUnique(v, Exp2(i), 0, v);
  }

  lemma LastBit(h: seq<Byte>, lo: nat, hi: nat) returns (s: nat, b: nat)
    requires lo < hi <= 8 * |h|
    ensures SumBits(h, lo, hi - 1) == s && ByteBit(h, hi - 1) == b < 2
    ensures s < Exp2(hi - 1) && SumBits(h, lo, hi) == s + b * Exp2(hi - 1)
  {
    SumBitsBounds(h, lo, hi - 1);
    s, b := SumBits(h, lo, hi - 1), ByteBit(h, hi - 1);
    NT.Distribute(b, 0, Exp2(hi - 1));
  }

  /** A sum of bits from lo to hi has exactly those bits of the byte string, and no other. */
  lemma {:induction false} SumHasBits(h: seq<Byte>, lo: nat, hi: nat, i: nat)
    requires lo <= hi <= 8 * |h|
    ensures 0 <= SumBits(h, lo, hi) < Exp2(hi)
    ensures Bit(SumBits(h, lo, hi), i) == if lo <= i < hi then ByteBit(h, i) else 0
    decreases hi - lo
  {
    SumBitsBounds(h, lo, hi);
    if lo == hi {
      HighBit(0, 0, i);
    } else {
      var s, b := LastBit(h, lo, hi);
      if i < hi - 1 {
        SumHasBits(h, lo, hi - 1, i);
      }
      hide Exp2, Bit, ByteBit, SumBits;
      if i >= hi {
        HighBit(SumBits(h, lo, hi), hi, i);
      } else if i < hi - 1 {
        BitAddHigh(s, b, hi - 1, i);
      } else {
        TopBit(s, b, hi - 1);
      }
    }
  }

  /** Its bits decide a number of so many bytes. */
  lemma BitsDecide(a: nat, b: nat, size: nat)
    requires a < Exp2(8 * size) && b < Exp2(8 * size)
    requires forall i :: 0 <= i < 8 * size ==> Bit(a, i) == Bit(b, i)
    ensures a == b
  {
    var h := ToLittleEndian(a, size);
    forall i | 0 <= i < 8 * size
      ensures ByteBit(h, i) == Bit(a, i)
    {
      LittleEndianBits(a, size, i);
    }
    hide Exp2, Bit, ByteBit, SumBits, ToLittleEndian;
    SumBitsOf(h, a, 8 * size);
    SumBitsOf(h, b, 8 * size);
    DivUnique(a, Exp2(8 * size), 0, a);
    DivUnique(b, Exp2(8 * size), 0, b);
  }
}
