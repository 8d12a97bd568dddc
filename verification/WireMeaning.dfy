/** What the bytes of a frame are, position by position and bit by bit (RFC 6455, sections 5.2
    and 5.3), and what a run of frames that is not a whole message leaves a reader with. */
module WireMeaning {
  import opened Bits
  import opened Wire
  import opened Wrappers

  // ---- masking -------------------------------------------------------------------------------

  /** c is the exclusive or of a and b. */
  predicate IsXor(c: Byte, a: Byte, b: Byte) {
    forall i :: 0 <= i < 8 ==> Bit(c, i) == (Bit(a, i) + Bit(b, i)) % 2
  }

  lemma {:induction false} XorBitsAt(a: nat, b: nat, n: nat, i: nat)
    requires i < n
    ensures Bit(XorBits(a, b, n), i) == (Bit(a, i) + Bit(b, i)) % 2
  {
    hide Bit, XorBits, Exp2;
    XorStep(a, b, n);
    var h, bit := XorBits(a / 2, b / 2, n - 1), (a % 2 + b % 2) % 2;
    Halves(bit, h);
    if i == 0 {
      LowestBit(bit + 2 * h);
      LowestBit(a);
      LowestBit(b);
    } else {
      XorBitsAt(a / 2, b / 2, n - 1, i - 1);
      HigherBit(bit + 2 * h, i);
      HigherBit(a, i);
      HigherBit(b, i);
    }
  }

  lemma LowestBit(v: nat)
    ensures Bit(v, 0) == v % 2
  {
  }

  lemma HigherBit(v: nat, i: nat)
    requires i > 0
    ensures Bit(v, i) == Bit(v / 2, i - 1)
  {
    BitShift(v, 1, i - 1);
    assert Exp2(1) == 2 * Exp2(0) && Exp2(0) == 1;
  }

  lemma XorMeaning(a: Byte, b: Byte)
    ensures IsXor(Xor(a, b), a, b)
  {
    forall i | 0 <= i < 8
      ensures Bit(Xor(a, b), i) == (Bit(a, i) + Bit(b, i)) % 2
    {
      XorBitsAt(a, b, 8, i);
    }
  }

  // ---- a frame, byte by byte ------------------------------------------------------------------

  /** Bytes, most significant first, as one number. */
  function Big(b: seq<Byte>, n: nat): nat
    requires n <= |b|
  {
    if n == 0 then 0 else 256 * Big(b, n - 1) + b[n - 1]
  }

  lemma {:induction false} BigIsFromBig(b: seq<Byte>, n: nat)
    requires n <= |b|
    ensures FromBig(b[..n]) == Big(b, n)
  {
    if n > 0 {
      BigIsFromBig(b, n - 1);
      assert b[..n][..n - 1] == b[..n - 1];
    }
  }

  lemma BigWritten(n: nat, size: nat)
    requires n < Pow256(size)
    ensures Big(ToBig(n, size), size) == n
  {
    BigRoundTrip(n, size);
    BigIsFromBig(ToBig(n, size), size);
    assert ToBig(n, size)[..size] == ToBig(n, size);
  }

  /** How many bytes stand in front of the mask or, without one, of the payload. */
  function HeaderSize(form: LengthForm): nat {
    match form
    case Seven => 2
    case Sixteen => 4
    case SixtyFour => 10
  }

  /** The first byte is the final bit, the reserved bits and the opcode; the second the mask bit
      and the length, or 126 or 127 before a length of two or eight bytes. */
  ghost predicate HeaderSpelled(e: seq<Byte>, f: Frame) {
    var n := |f.payload|;
    && |e| >= HeaderSize(f.form)
    && e[0] == (if f.fin then 128 else 0) + 16 * f.rsv + f.opcode
    && e[1] == (if f.mask.Some? then 128 else 0)
               + (match f.form case Seven => n case Sixteen => 126 case SixtyFour => 127)
    && (f.form.Sixteen? ==> Big(e[2..4], 2) == n)
    && (f.form.SixtyFour? ==> Big(e[2..10], 8) == n)
  }

  /** From there on it is the mask, and the payload with each byte against its mask byte; or,
      without a mask, the payload. */
  ghost predicate BodySpelled(rest: seq<Byte>, mask: Option<Mask>, payload: seq<Byte>) {
    match mask
    case None => rest == payload
    case Some(m) =>
      && |rest| == 4 + |payload| && rest[..4] == m
      && forall j :: 0 <= j < |payload| ==> IsXor(rest[4 + j], payload[j], m[j % 4])
  }

  /** The bytes of a frame. */
  ghost predicate Spelled(e: seq<Byte>, f: Frame) {
    HeaderSpelled(e, f) && BodySpelled(e[HeaderSize(f.form)..], f.mask, f.payload)
  }

  lemma LengthSpelled(f: Frame)
    requires Fits(f)
    ensures var l, n := LengthBytes(f), |f.payload|;
            && |l| == HeaderSize(f.form) - 1
            && l[0] == (if f.mask.Some? then 128 else 0)
                       + (match f.form case Seven => n case Sixteen => 126 case SixtyFour => 127)
            && (f.form.Sixteen? ==> Big(l[1..], 2) == n)
            && (f.form.SixtyFour? ==> Big(l[1..], 8) == n)
  {
    hide ToBig, Big, Pow256;
    var n := |f.payload|;
    if f.form.Sixteen? {
      BigWritten(n, 2);
      assert LengthBytes(f)[1..] == ToBig(n, 2);
    } else if f.form.SixtyFour? {
      BigWritten(n, 8);
      assert LengthBytes(f)[1..] == ToBig(n, 8);
    }
  }

  lemma MaskedSpelled(mask: Mask, payload: seq<Byte>)
    ensures BodySpelled(mask + Masked(mask, payload), Some(mask), payload)
  {
    var body := Masked(mask, payload);
    forall j | 0 <= j < |payload|
      ensures IsXor((mask + body)[4 + j], payload[j], mask[j % 4])
    {
      XorMeaning(payload[j], mask[j % 4]);
    }
    hide IsXor, Masked;
    assert (mask + body)[..4] == mask;
  }

  lemma TailSpelled(f: Frame)
    ensures BodySpelled(MaskBytes(f) + Body(f), f.mask, f.payload)
  {
    if f.mask.Some? {
      MaskedSpelled(f.mask.value, f.payload);
      hide BodySpelled;
    } else {
      assert [] + f.payload == f.payload;
    }
  }

  lemma HeaderFirst(first: Byte, l: seq<Byte>, rest: seq<Byte>)
    requires |l| >= 1
    ensures var e := [first] + l + rest;
            && |e| >= 1 + |l| && e[0] == first && e[1] == l[0] && e[1 + |l|..] == rest
            && (|l| == 3 ==> e[2..4] == l[1..]) && (|l| == 9 ==> e[2..10] == l[1..])
  {
  }

  lemma Grouped(first: Byte, l: seq<Byte>, m: seq<Byte>, b: seq<Byte>)
    ensures [first] + l + m + b == [first] + l + (m + b)
  {
  }

  lemma EncodeParts(f: Frame) returns (first: Byte, l: seq<Byte>, rest: seq<Byte>)
    requires Fits(f)
    ensures first == (if f.fin then 128 else 0) + 16 * f.rsv + f.opcode
    ensures l == LengthBytes(f) && rest == MaskBytes(f) + Body(f) && Encode(f) == [first] + l + rest
  {
    FirstByteParses(f.fin, f.rsv, f.opcode);
    first, l, rest := (if f.fin then 128 else 0) + 16 * f.rsv + f.opcode, LengthBytes(f), MaskBytes(f) + Body(f);
    Grouped(first, l, MaskBytes(f), Body(f));
    hide LengthBytes, MaskBytes, Body;
  }

  /** The encoding of a frame is its bytes as the standard lays them out. */
  lemma EncodeSpelled(f: Frame)
    requires Fits(f)
    ensures Spelled(Encode(f), f)
  {
    hide LengthBytes, Body, Encode, Fits, Big, MaskBytes, BodySpelled;
    var first, l, rest := EncodeParts(f);
    LengthSpelled(f);
    TailSpelled(f);
    HeaderFirst(first, l, rest);
  }

  // ---- parsing and encoding undo each other ------------------------------------------------------

  lemma {:induction false} BigUnread(b: seq<Byte>)
    ensures ToBig(FromBig(b), |b|) == b
  {
    if b != [] {
      BigUnread(b[..|b| - 1]);
      LastDigit(FromBig(b[..|b| - 1]), b[|b| - 1]);
      assert b == b[..|b| - 1] + [b[|b| - 1]];
    }
  }

  lemma LastDigit(q: nat, r: Byte)
    ensures (256 * q + r) / 256 == q && (256 * q + r) % 256 == r
  {
  }

  lemma FirstByteWritten(b: Byte)
    ensures (if b >= 128 then 128 else 0) + 16 * (b / 16 % 8) + b % 16 == b
  {
  }

  lemma LongForm(s: seq<Byte>, size: nat)
    requires size == 2 || size == 8
    requires |s| >= 2 + size
    ensures ToBig(FromBig(s[2..2 + size]), size) == s[2..2 + size] && FromBig(s[2..2 + size]) < Pow256(size)
    ensures s[1..2 + size] == [s[1]] + s[2..2 + size]
  {
    BigUnread(s[2..2 + size]);
    FromBigBound(s[2..2 + size]);
  }

  /** What the length bytes of a parsed frame are. */
  lemma LengthUnread(s: seq<Byte>, f: Frame, at: nat)
    requires |s| >= 2 && ParseLength(s) == Some((f.form, |f.payload|, at)) && f.rsv < 8 && f.opcode < 16
    requires f.mask.Some? <==> s[1] >= 128
    ensures Fits(f) && 2 <= at <= |s| && LengthBytes(f) == s[1..at]
  {
    hide FromBig, ToBig, Pow256;
    var n := s[1] % 128;
    if n == 126 {
      LongForm(s, 2);
    } else if n == 127 {
      LongForm(s, 8);
    } else {
      assert s[1..at] == [s[1]];
    }
  }

  /** A stream starts with a frame exactly when it starts with that frame's bytes; so it is
      short of one exactly when it starts with no frame's. */
  lemma ParseExactly(s: seq<Byte>, f: Frame, rest: seq<Byte>)
    ensures Parse(s) == Some((f, rest)) <==> Fits(f) && s == Encode(f) + rest
  {
    if Parse(s) == Some((f, rest)) {
      ParsedIsEncoded(s, f, rest);
    }
    if Fits(f) && s == Encode(f) + rest {
      ParseEncode(f, rest);
    }
  }

  lemma ParsedIsEncoded(s: seq<Byte>, f: Frame, rest: seq<Byte>)
    requires Parse(s) == Some((f, rest))
    ensures Fits(f) && s == Encode(f) + rest
  {
    var at, body := ParsedParts(s, f, rest);
    LengthUnread(s, f, at);
    FirstByteWritten(s[0]);
    hide ParseLength, LengthBytes, MaskBytes, Body, Parse, Fits;
    var e := [s[0]] + s[1..at] + s[at..body] + s[body..body + |f.payload|];
    assert Encode(f) == e;
    Whole(s, at, body, body + |f.payload|);
    assert s == e + rest;
  }

  lemma Whole(s: seq<Byte>, i: nat, j: nat, k: nat)
    requires 1 <= i <= j <= k <= |s|
    ensures s == [s[0]] + s[1..i] + s[i..j] + s[j..k] + s[k..]
  {
  }

  lemma ParsedParts(s: seq<Byte>, f: Frame, rest: seq<Byte>) returns (at: nat, body: nat)
    requires Parse(s) == Some((f, rest))
    ensures |s| >= 2 && ParseLength(s) == Some((f.form, |f.payload|, at)) && f.rsv < 8 && f.opcode < 16
    ensures (f.mask.Some? <==> s[1] >= 128) && f.fin == (s[0] >= 128) && f.rsv == s[0] / 16 % 8 && f.opcode == s[0] % 16
    ensures 2 <= at <= body && body + |f.payload| <= |s| && rest == s[body + |f.payload|..]
    ensures MaskBytes(f) == s[at..body] && Body(f) == s[body..body + |f.payload|]
  {
    hide ParseLength, Masked;
    at := ParseLength(s).value.2;
    LengthStarts(s);
    body := BodyStart(s, at);
    if f.mask.Some? {
      UnmaskMasked(f.mask.value, s[body..body + |f.payload|]);
    }
  }

  lemma LengthStarts(s: seq<Byte>)
    requires |s| >= 2 && ParseLength(s).Some?
    ensures 2 <= ParseLength(s).value.2 <= |s|
  {
    hide FromBig;
  }

  // ---- what is not a whole message --------------------------------------------------------------

  /** Frames that end no message and no connection. */
  ghost predicate Unfinished(fs: seq<Frame>) {
    forall f :: f in fs ==> Fits(f) && (IsAside(f) || (IsData(f) && !f.fin))
  }

  /** The payloads of the data frames, in order. */
  function DataParts(fs: seq<Frame>): seq<seq<Byte>> {
    if fs == [] then [] else (if IsData(fs[0]) then [fs[0].payload] else []) + DataParts(fs[1..])
  }

  lemma DataFirst(fs: seq<Frame>, parts: seq<seq<Byte>>)
    requires fs != []
    ensures parts + DataParts(fs) == (if IsData(fs[0]) then parts + [fs[0].payload] else parts) + DataParts(fs[1..])
  {
    assert [] + DataParts(fs[1..]) == DataParts(fs[1..]);
    hide IsData;
  }

  lemma PingsFirst(fs: seq<Frame>, pongs: seq<seq<Byte>>)
    requires fs != []
    ensures pongs + PingData(fs)
         == (if fs[0].opcode == 9 then pongs + [fs[0].payload] else pongs) + PingData(fs[1..])
  {
    assert [] + PingData(fs[1..]) == PingData(fs[1..]);
  }

  lemma UnfinishedFirst(fs: seq<Frame>, tail: seq<Byte>, parts: seq<seq<Byte>>, pongs: seq<seq<Byte>>)
    returns (parts': seq<seq<Byte>>, pongs': seq<seq<Byte>>)
    requires Unfinished(fs) && fs != []
    ensures Unfinished(fs[1..]) && forall f :: f in fs ==> Fits(f)
    ensures Receive(EncodeAll(fs) + tail, parts, pongs) == Receive(EncodeAll(fs[1..]) + tail, parts', pongs')
    ensures parts' + DataParts(fs[1..]) == parts + DataParts(fs)
    ensures pongs' + PingData(fs[1..]) == pongs + PingData(fs)
  {
    var f, more := fs[0], fs[1..];
    parts' := if IsData(f) then parts + [f.payload] else parts;
    pongs' := if f.opcode == 9 then pongs + [f.payload] else pongs;
    assert f in fs;
    hide Encode, Receive, Fits, EncodeAll, DataParts, PingData, Content;
    DataFirst(fs, parts);
    PingsFirst(fs, pongs);
    FirstOfAll(fs, tail);
    ReceiveStep(f, EncodeAll(more) + tail, parts, pongs);
  }

  lemma NoneUnfinished(tail: seq<Byte>, parts: seq<seq<Byte>>, pongs: seq<seq<Byte>>)
    ensures EncodeAll([]) + tail == tail && parts + DataParts([]) == parts && pongs + PingData([]) == pongs
  {
  }

  /** A reader goes on behind such frames, with their data kept and their pings owed. */
  lemma {:induction false} ReceiveThrough(fs: seq<Frame>, tail: seq<Byte>, parts: seq<seq<Byte>>, pongs: seq<seq<Byte>>)
    requires Unfinished(fs)
    ensures Receive(EncodeAll(fs) + tail, parts, pongs) == Receive(tail, parts + DataParts(fs), pongs + PingData(fs))
    decreases |fs|
  {
    NoneUnfinished(tail, parts, pongs);
    if fs != [] {
      var parts', pongs' := UnfinishedFirst(fs, tail, parts, pongs);
      hide Receive, EncodeAll, Unfinished, DataParts, PingData;
      ReceiveThrough(fs[1..], tail, parts', pongs');
    }
  }

  /** A close ends the reading, whatever was unfinished: its first two bytes are the code, 1005
      without them, and go back to the server; the others are the reason. */
  lemma CloseReached(fs: seq<Frame>, close: Frame, rest: seq<Byte>)
    requires Unfinished(fs) && Fits(close) && close.opcode == 8
    ensures var p, stream := close.payload, EncodeAll(fs) + (Encode(close) + rest);
            Receive(stream, [], [])
            == if |p| >= 2 then Closed(256 * (p[0] as int) + p[1], p[2..], p[..2], PingData(fs), rest)
               else Closed(1005, [], p, PingData(fs), rest)
  {
    var p := close.payload;
    ReceiveThrough(fs, Encode(close) + rest, [], []);
    ParseEncode(close, rest);
    assert [] + PingData(fs) == PingData(fs);
    if |p| >= 2 {
      TwoBytesBig(p);
    }
    hide Encode, Parse, FromBig;
  }

  lemma TwoBytesBig(p: seq<Byte>)
    requires |p| >= 2
    ensures FromBig(p[..2]) == 256 * (p[0] as int) + p[1]
  {
    assert p[..2][..1] == [p[0]] && [p[0]][..0] == [];
    assert FromBig([p[0]]) == 256 * FromBig([]) + p[0];
  }

  /** A stream that ends inside a frame is refused there, with its pings answered. */
  lemma CutReached(fs: seq<Frame>, part: seq<Byte>)
    requires Unfinished(fs) && Parse(part) == None
    ensures Receive(EncodeAll(fs) + part, [], []) == MidFrame(PingData(fs))
  {
    ReceiveThrough(fs, part, [], []);
    assert [] + PingData(fs) == PingData(fs);
    hide Parse;
  }

  // ---- what this side sends ----------------------------------------------------------------------

  /** The bytes this side sends for a payload: final, masked, in the shortest length form, each
      payload byte against the mask byte of its position modulo four. */
  ghost predicate Sends(e: seq<Byte>, opcode: nat, mask: Mask, payload: seq<Byte>) {
    var n := |payload|;
    var h := if n < 126 then 2 else if n < 65536 then 4 else 10;
    && |e| == h + 4 + n
    && e[0] == 128 + opcode
    && e[1] == 128 + (if n < 126 then n else if n < 65536 then 126 else 127)
    && (126 <= n < 65536 ==> 256 * (e[2] as int) + e[3] == n)
    && (n >= 65536 ==> Big(e[2..10], 8) == n)
    && e[h..h + 4] == mask
    && forall j, i :: 0 <= j < n && 0 <= i < 8 ==>
         Bit(e[h + 4 + j], i) == (Bit(payload[j], i) + Bit(mask[j % 4], i)) % 2
  }

  lemma OutgoingSpelled(e: seq<Byte>, opcode: nat, mask: Mask, payload: seq<Byte>)
    requires Spelled(e, Outgoing(opcode, mask, payload))
    ensures Sends(e, opcode, mask, payload)
  {
    var n, f := |payload|, Outgoing(opcode, mask, payload);
    var h := HeaderSize(f.form);
    var rest := e[h..];
    if 126 <= n < 65536 {
      assert Big(e[2..4], 2) == 256 * Big(e[2..4], 1) + e[3] && Big(e[2..4], 1) == 256 * Big(e[2..4], 0) + e[2];
    }
    hide Bit, Big;
    Behind(e, h);
    assert rest[..4] == mask;
    forall j | 0 <= j < n
      ensures IsXor(e[h + 4 + j], payload[j], mask[j % 4])
    {
      assert e[h + 4 + j] == rest[4 + j];
    }
  }

  lemma Behind(e: seq<Byte>, h: nat)
    requires h + 4 <= |e|
    ensures e[h..][..4] == e[h..h + 4] && forall i :: 0 <= i < |e| - h ==> e[h..][i] == e[h + i]
  {
  }
}
