/** WebSocket frames (RFC 6455, section 5.2) as bytes: the encoder, a parser for one
    frame, and what a run of frames delivers to a reader of text messages. */
module Wire {
  import opened Bits
  import opened Wrappers

  // ---- masking ------------------------------------------------------------------------

  /** Exclusive or of the low n bits. */
  function XorBits(a: nat, b: nat, n: nat): (r: nat)
    ensures r < Exp2(n)
  {
    if n == 0 then 0 else (a % 2 + b % 2) % 2 + 2 * XorBits(a / 2, b / 2, n - 1)
  }

  lemma Halves(bit: nat, h: nat)
    requires bit < 2
    ensures (bit + 2 * h) / 2 == h && (bit + 2 * h) % 2 == bit
  {
  }

  lemma {:induction false} XorTwice(a: nat, b: nat, n: nat)
    requires a < Exp2(n)
    ensures XorBits(XorBits(a, b, n), b, n) == a
  {
    if n > 0 {
      var h, bit := XorBits(a / 2, b / 2, n - 1), (a % 2 + b % 2) % 2;
      Halves(bit, h);
      HalfBelow(a, n);
      XorTwice(a / 2, b / 2, n - 1);
      XorStep(a, b, n);
      XorStep(bit + 2 * h, b, n);
      hide XorBits, Exp2;
      BitTwice(a % 2, b % 2);
      Halved(a);
    }
  }

  lemma BitTwice(a: nat, b: nat)
    requires a < 2 && b < 2
    ensures ((a + b) % 2 + b) % 2 == a && (a + b) % 2 < 2
  {
  }

  lemma Halved(a: nat)
    ensures a % 2 + 2 * (a / 2) == a && a % 2 < 2
  {
  }

  lemma XorStep(a: nat, b: nat, n: nat)
    requires n > 0
    ensures XorBits(a, b, n) == (a % 2 + b % 2) % 2 + 2 * XorBits(a / 2, b / 2, n - 1)
  {
  }

  lemma HalfBelow(a: nat, n: nat)
    requires n > 0 && a < Exp2(n)
    ensures a / 2 < Exp2(n - 1)
  {
  }

  function Xor(a: Byte, b: Byte): Byte {
    assert Exp2(8) == 256 by { DivideExp2(0, 8, 8); }
    XorBits(a, b, 8)
  }

  type Mask = m: seq<Byte> | |m| == 4 witness [0, 0, 0, 0]

  /** Each byte against the mask byte of its position modulo 4. */
  function Masked(mask: Mask, data: seq<Byte>): (r: seq<Byte>)
    ensures |r| == |data|
  {
    seq(|data|, i requires 0 <= i < |data| => Xor(data[i], mask[i % 4]))
  }

  lemma UnmaskMasked(mask: Mask, data: seq<Byte>)
    ensures Masked(mask, Masked(mask, data)) == data
  {
    forall i | 0 <= i < |data|
      ensures Masked(mask, Masked(mask, data))[i] == data[i]
    {
      DivideExp2(0, 8, 8);
      XorTwice(data[i], mask[i % 4], 8);
    }
  }

  // ---- numbers, most significant byte first ---------------------------------------------

  /** `n.to_bytes(size, "big")`, for a number that fits. */
  function ToBig(n: nat, size: nat): (r: seq<Byte>)
    ensures |r| == size
  {
    if size == 0 then [] else ToBig(n / 256, size - 1) + [n % 256]
  }

  /** `int.from_bytes(b, "big")`. */
  function FromBig(b: seq<Byte>): nat {
    if b == [] then 0 else 256 * FromBig(b[..|b| - 1]) + b[|b| - 1]
  }

  function Pow256(size: nat): (r: nat)
    ensures r >= 1
  {
    if size == 0 then 1 else 256 * Pow256(size - 1)
  }

  lemma {:induction false} BigRoundTrip(n: nat, size: nat)
    requires n < Pow256(size)
    ensures FromBig(ToBig(n, size)) == n
  {
    if size > 0 {
      BigRoundTrip(n / 256, size - 1);
      var r := ToBig(n, size);
      assert r[..|r| - 1] == ToBig(n / 256, size - 1);
    }
  }

  lemma {:induction false} FromBigBound(b: seq<Byte>)
    ensures FromBig(b) < Pow256(|b|)
  {
    if b != [] {
      FromBigBound(b[..|b| - 1]);
    }
  }

  // ---- frames ---------------------------------------------------------------------------

  datatype LengthForm = Seven | Sixteen | SixtyFour

  /** One frame; `rsv` are the three bits nobody here reads. */
  datatype Frame = Frame(fin: bool, rsv: nat, opcode: nat, form: LengthForm, mask: Option<Mask>, payload: seq<Byte>)

  predicate Fits(f: Frame) {
    && f.rsv < 8 && f.opcode < 16
    && match f.form
       case Seven => |f.payload| < 126
       case Sixteen => |f.payload| < Pow256(2)
       case SixtyFour => |f.payload| < Pow256(8)
  }

  function LengthBytes(f: Frame): seq<Byte>
    requires Fits(f)
  {
    var top := if f.mask.Some? then 128 else 0;
    match f.form
    case Seven => [top + |f.payload|]
    case Sixteen => [top + 126] + ToBig(|f.payload|, 2)
    case SixtyFour => [top + 127] + ToBig(|f.payload|, 8)
  }

  function MaskBytes(f: Frame): seq<Byte> {
    if f.mask.Some? then f.mask.value else []
  }

  function Body(f: Frame): (r: seq<Byte>)
    ensures |r| == |f.payload|
  {
    if f.mask.Some? then Masked(f.mask.value, f.payload) else f.payload
  }

  function Encode(f: Frame): seq<Byte>
    requires Fits(f)
  {
    [(if f.fin then 128 else 0) + 16 * f.rsv + f.opcode] + LengthBytes(f) + MaskBytes(f) + Body(f)
  }

  /** The header a sender picks: final, no reserved bits, the shortest length form, masked. */
  function Outgoing(opcode: nat, mask: Mask, payload: seq<Byte>): Frame {
    Frame(true, 0, opcode,
          if |payload| < 126 then Seven else if |payload| < 65536 then Sixteen else SixtyFour,
          Some(mask), payload)
  }

  // ---- parsing one frame ------------------------------------------------------------------

  /** Where the length stands and what it says; None while bytes are missing. */
  function ParseLength(s: seq<Byte>): Option<(LengthForm, nat, nat)>
    requires |s| >= 2
  {
    var n := s[1] % 128;
    if n == 126 then
      if |s| < 4 then None else Some((Sixteen, FromBig(s[2..4]), 4))
    else if n == 127 then
      if |s| < 10 then None else Some((SixtyFour, FromBig(s[2..10]), 10))
    else Some((Seven, n, 2))
  }

  /** Where the body starts: behind the length, and behind the mask when there is one. */
  function BodyStart(s: seq<Byte>, at: nat): nat
    requires |s| >= 2
  {
    if s[1] >= 128 then at + 4 else at
  }

  function FrameAt(s: seq<Byte>, form: LengthForm, n: nat, at: nat): Frame
    requires 2 <= |s| && BodyStart(s, at) + n <= |s|
  {
    var body := BodyStart(s, at);
    var data := s[body..body + n];
    var mask: Option<Mask> := if s[1] >= 128 then Some(s[at..at + 4]) else None;
    Frame(s[0] >= 128, s[0] / 16 % 8, s[0] % 16, form, mask,
          if mask.Some? then Masked(mask.value, data) else data)
  }

  /** The first frame of a byte stream and what follows it; None while bytes are missing. */
  function Parse(s: seq<Byte>): (r: Option<(Frame, seq<Byte>)>)
    ensures r.Some? ==> |r.value.1| < |s|
  {
    if |s| < 2 then None else
      match ParseLength(s)
      case None => None
      case Some((form, n, at)) =>
        if |s| < BodyStart(s, at) + n then None
        else Some((FrameAt(s, form, n, at), s[BodyStart(s, at) + n..]))
  }

  /** No parsed payload is longer than eight length bytes can say. */
  lemma ParsedLength(s: seq<Byte>)
    requires Parse(s).Some?
    ensures |Parse(s).value.0.payload| < Pow256(8)
  {
    assert Pow256(2) == 65536 && Pow256(8) == 0x1_0000_0000_0000_0000;
    var n := s[1] % 128;
    if n == 126 {
      FromBigBound(s[2..4]);
    } else if n == 127 {
      FromBigBound(s[2..10]);
    }
  }

  lemma LengthParses(f: Frame, first: Byte, tail: seq<Byte>)
    requires Fits(f)
    ensures var l := LengthBytes(f);
            var s := [first] + l + tail;
            && |s| >= 2 && ParseLength(s) == Some((f.form, |f.payload|, 1 + |l|))
            && (s[1] >= 128 <==> f.mask.Some?)
  {
    hide ToBig, FromBig, Pow256;
    var l := LengthBytes(f);
    var s := [first] + l + tail;
    assert s[1] == l[0];
    match f.form {
      case Seven =>
      case Sixteen =>
        assert s[2..4] == ToBig(|f.payload|, 2);
        BigRoundTrip(|f.payload|, 2);
      case SixtyFour =>
        assert s[2..10] == ToBig(|f.payload|, 8);
        BigRoundTrip(|f.payload|, 8);
    }
  }

  lemma FirstByteParses(fin: bool, rsv: nat, opcode: nat)
    requires rsv < 8 && opcode < 16
    ensures var b := (if fin then 128 else 0) + 16 * rsv + opcode;
            && 0 <= b < 256 && (b >= 128 <==> fin) && b / 16 % 8 == rsv && b % 16 == opcode
  {
  }

  lemma HeaderParses(f: Frame, rest: seq<Byte>)
    requires Fits(f)
    ensures var s := Encode(f) + rest;
            var at := 1 + |LengthBytes(f)|;
            && |s| >= at >= 2 && ParseLength(s) == Some((f.form, |f.payload|, at))
            && (s[1] >= 128 <==> f.mask.Some?)
            && (s[0] >= 128 <==> f.fin) && s[0] / 16 % 8 == f.rsv && s[0] % 16 == f.opcode
            && s[at..] == MaskBytes(f) + Body(f) + rest
  {
    var l, tail := LengthBytes(f), MaskBytes(f) + Body(f) + rest;
    FirstByteParses(f.fin, f.rsv, f.opcode);
    var first: Byte := (if f.fin then 128 else 0) + 16 * f.rsv + f.opcode;
    LengthParses(f, first, tail);
    SplitHeader(first, l, MaskBytes(f), Body(f), rest);
    assert Encode(f) == [first] + l + MaskBytes(f) + Body(f);
    hide LengthBytes, MaskBytes, Body, ParseLength, Masked, Fits, Encode;
  }

  lemma SplitHeader(first: Byte, l: seq<Byte>, m: seq<Byte>, b: seq<Byte>, rest: seq<Byte>)
    ensures var s := [first] + l + m + b + rest;
            s == [first] + l + (m + b + rest) && s[0] == first && s[1 + |l|..] == m + b + rest
  {
  }

  /** Parsing recovers the frame that was encoded, at all three length forms, and leaves
      the rest of the stream. */
  lemma ParseEncode(f: Frame, rest: seq<Byte>)
    requires Fits(f)
    ensures Parse(Encode(f) + rest) == Some((f, rest))
  {
    HeaderParses(f, rest);
    var s := Encode(f) + rest;
    var at := 1 + |LengthBytes(f)|;
    hide Encode, LengthBytes, ParseLength, Body, Masked, Fits;
    Slices(s, at, MaskBytes(f), Body(f), rest);
    if f.mask.Some? {
      BodyUnmasked(f);
    } else {
      BodyPlain(f);
    }
  }

  lemma Slices(s: seq<Byte>, at: nat, m: seq<Byte>, b: seq<Byte>, rest: seq<Byte>)
    requires at <= |s| && s[at..] == m + b + rest
    ensures |s| == at + |m| + |b| + |rest|
    ensures s[at..at + |m|] == m && s[at + |m|..at + |m| + |b|] == b && s[at + |m| + |b|..] == rest
  {
    var t := s[at..];
    assert s[at..at + |m|] == t[..|m|];
    assert s[at + |m|..at + |m| + |b|] == t[|m|..|m| + |b|];
    assert s[at + |m| + |b|..] == t[|m| + |b|..];
  }

  lemma BodyUnmasked(f: Frame)
    requires f.mask.Some?
    ensures Masked(f.mask.value, Body(f)) == f.payload
  {
    UnmaskMasked(f.mask.value, f.payload);
  }

  lemma BodyPlain(f: Frame)
    requires f.mask.None?
    ensures Body(f) == f.payload
  {
  }

  // ---- what a reader of messages gets -----------------------------------------------------

  function Join(parts: seq<seq<Byte>>): seq<Byte> {
    if parts == [] then [] else parts[0] + Join(parts[1..])
  }

  /** What `recv_text` comes to on a stream: a message, the server's close, or the end of
      the connection inside a frame; with the pongs owed and the bytes left unread. */
  datatype Outcome =
    | Message(data: seq<Byte>, pongs: seq<seq<Byte>>, rest: seq<Byte>)
    | Closed(code: nat, reason: seq<Byte>, echo: seq<Byte>, pongs: seq<seq<Byte>>, rest: seq<Byte>)
    | MidFrame(pongs: seq<seq<Byte>>)

  /** The outcome when `parts` of a message are in and `pongs` have been sent. */
  function Receive(s: seq<Byte>, parts: seq<seq<Byte>>, pongs: seq<seq<Byte>>): Outcome
    decreases |s|
  {
    match Parse(s)
    case None => MidFrame(pongs)
    case Some((f, rest)) =>
      if f.opcode == 9 then Receive(rest, parts, pongs + [f.payload])
      else if f.opcode == 10 then Receive(rest, parts, pongs)
      else if f.opcode == 8 then
        Closed(if |f.payload| >= 2 then FromBig(f.payload[..2]) else 1005,
               if |f.payload| >= 2 then f.payload[2..] else [],
               if |f.payload| >= 2 then f.payload[..2] else f.payload, pongs, rest)
      else if f.opcode <= 2 then
        if f.fin then Message(Join(parts + [f.payload]), pongs, rest)
        else Receive(rest, parts + [f.payload], pongs)
      else Receive(rest, parts, pongs)
  }

  function EncodeAll(fs: seq<Frame>): seq<Byte>
    requires forall f :: f in fs ==> Fits(f)
  {
    if fs == [] then [] else Encode(fs[0]) + EncodeAll(fs[1..])
  }

  predicate IsData(f: Frame) {
    f.opcode <= 2
  }

  /** Neither part of a message nor a close: pings, pongs, and opcodes nobody here knows. */
  predicate IsAside(f: Frame) {
    f.opcode > 2 && f.opcode != 8
  }

  /** Opcodes 0 to 2 are data, 8 is a close, and all others are neither. */
  lemma KindsOfFrames(f: Frame)
    ensures IsData(f) <==> f.opcode == 0 || f.opcode == 1 || f.opcode == 2
    ensures IsAside(f) <==> !IsData(f) && f.opcode != 8
  {
  }

  /** One message as it may travel: data fragments with pings, pongs and unknown frames anywhere between,
      the last frame being the final fragment and the only final one. */
  ghost predicate OneMessage(fs: seq<Frame>) {
    && fs != []
    && (forall f :: f in fs ==> Fits(f) && (IsData(f) || IsAside(f)))
    && IsData(fs[|fs| - 1]) && fs[|fs| - 1].fin
    && forall i :: 0 <= i < |fs| - 1 && IsData(fs[i]) ==> !fs[i].fin
  }

  /** The fragments' payloads, one after the other. */
  function Content(fs: seq<Frame>): seq<Byte> {
    if fs == [] then [] else (if IsData(fs[0]) then fs[0].payload else []) + Content(fs[1..])
  }

  /** The payloads of the pings, in order. */
  function PingData(fs: seq<Frame>): seq<seq<Byte>> {
    if fs == [] then [] else (if fs[0].opcode == 9 then [fs[0].payload] else []) + PingData(fs[1..])
  }

  lemma {:induction false} JoinAppend(parts: seq<seq<Byte>>, data: seq<Byte>)
    ensures Join(parts + [data]) == Join(parts) + data
  {
    if parts == [] {
      assert [data][1..] == [];
    } else {
      assert (parts + [data])[1..] == parts[1..] + [data];
      JoinAppend(parts[1..], data);
    }
  }

  lemma ReceiveStep(f: Frame, tail: seq<Byte>, parts: seq<seq<Byte>>, pongs: seq<seq<Byte>>)
    requires Fits(f) && (IsData(f) || IsAside(f))
    ensures Receive(Encode(f) + tail, parts, pongs)
            == if f.opcode == 9 then Receive(tail, parts, pongs + [f.payload])
               else if f.opcode > 2 then Receive(tail, parts, pongs)
               else if f.fin then Message(Join(parts + [f.payload]), pongs, tail)
               else Receive(tail, parts + [f.payload], pongs)
  {
    ParseEncode(f, tail);
    hide Encode, Parse, Fits;
  }

  lemma {:induction false} ReceiveMessage(fs: seq<Frame>, rest: seq<Byte>, parts: seq<seq<Byte>>, pongs: seq<seq<Byte>>)
    requires OneMessage(fs)
    ensures Receive(EncodeAll(fs) + rest, parts, pongs)
            == Message(Join(parts) + Content(fs), pongs + PingData(fs), rest)
    decreases |fs|
  {
    hide Encode, Receive, Fits, EncodeAll, Content, PingData, Join;
    var f, more := fs[0], fs[1..];
    FirstOfAll(fs, rest);
    ReceiveStep(f, EncodeAll(more) + rest, parts, pongs);
    JoinAppend(parts, f.payload);
    if |fs| > 1 {
      RestOfMessage(fs);
      var parts' := if IsData(f) then parts + [f.payload] else parts;
      var pongs' := if f.opcode == 9 then pongs + [f.payload] else pongs;
      ReceiveMessage(more, rest, parts', pongs');
      Reassociate(Join(parts), f.payload, Content(more));
      Reassociate(pongs, [f.payload], PingData(more));
      Reassociate(Join(parts), [], Content(more));
      Reassociate(pongs, [], PingData(more));
    }
  }

  lemma Reassociate<T>(a: seq<T>, b: seq<T>, c: seq<T>)
    ensures (a + b) + c == a + (b + c) && a + [] == a && [] + c == c
  {
  }

  lemma RestOfMessage(fs: seq<Frame>)
    requires OneMessage(fs) && |fs| > 1
    ensures OneMessage(fs[1..]) && (IsData(fs[0]) ==> !fs[0].fin)
  {
    var more := fs[1..];
    assert more[|more| - 1] == fs[|fs| - 1];
    assert forall i :: 0 <= i < |more| - 1 ==> more[i] == fs[i + 1];
  }

  lemma FirstOfAll(fs: seq<Frame>, rest: seq<Byte>)
    requires fs != [] && forall f :: f in fs ==> Fits(f)
    ensures EncodeAll(fs) + rest == Encode(fs[0]) + (EncodeAll(fs[1..]) + rest)
    ensures Content(fs) == (if IsData(fs[0]) then fs[0].payload else []) + Content(fs[1..])
    ensures PingData(fs) == (if fs[0].opcode == 9 then [fs[0].payload] else []) + PingData(fs[1..])
    ensures |fs| == 1 ==> EncodeAll(fs[1..]) + rest == rest && Content(fs[1..]) == [] && PingData(fs[1..]) == []
  {
    Reassociate(Encode(fs[0]), EncodeAll(fs[1..]), rest);
    NothingEncoded(rest);
    assert |fs| == 1 ==> fs[1..] == [];
  }

  lemma NothingEncoded(rest: seq<Byte>)
    ensures EncodeAll([]) + rest == rest && Content([]) == [] && PingData([]) == []
  {
  }

  /** Round trip: however a message is cut into fragments and masked, and whatever pings
      and pongs stand between them, the reader gets the payload back whole, owes one pong
      with the same data per ping, and leaves the rest of the stream unread. */
  lemma MessageRoundTrip(fs: seq<Frame>, rest: seq<Byte>)
    requires OneMessage(fs)
    ensures Receive(EncodeAll(fs) + rest, [], []) == Message(Content(fs), PingData(fs), rest)
  {
    ReceiveMessage(fs, rest, [], []);
    assert Join([]) + Content(fs) == Content(fs);
    assert [] + PingData(fs) == PingData(fs);
  }

  ghost predicate AllMessages(messages: seq<seq<Frame>>) {
    forall i :: 0 <= i < |messages| ==> OneMessage(messages[i])
  }

  /** The frames of several messages, one message after the other. */
  ghost function Stream(messages: seq<seq<Frame>>): seq<Byte>
    requires AllMessages(messages)
    decreases |messages|
  {
    if messages == [] then [] else EncodeAll(messages[0]) + Stream(messages[1..])
  }

  /** What `count` calls in a row read off a stream, up to the first that reads no message. */
  function ReadMany(s: seq<Byte>, count: nat): seq<seq<Byte>>
    decreases count
  {
    if count == 0 then []
    else match Receive(s, [], [])
         case Message(data, _, rest) => [data] + ReadMany(rest, count - 1)
         case _ => []
  }

  function Contents(messages: seq<seq<Frame>>): seq<seq<Byte>> {
    if messages == [] then [] else [Content(messages[0])] + Contents(messages[1..])
  }

  lemma StreamStep(messages: seq<seq<Frame>>, rest: seq<Byte>) returns (first: seq<Byte>, later: seq<Byte>)
    requires AllMessages(messages) && messages != []
    ensures AllMessages(messages[1..]) && OneMessage(messages[0])
    ensures later == Stream(messages[1..]) + rest && Stream(messages) + rest == first + later
    ensures Receive(first + later, [], []) == Message(Content(messages[0]), PingData(messages[0]), later)
  {
    assert AllMessages(messages[1..]);
    hide Receive, Content;
    first, later := EncodeAll(messages[0]), Stream(messages[1..]) + rest;
    Reassociate(first, Stream(messages[1..]), rest);
    MessageRoundTrip(messages[0], later);
  }

  lemma ReadManyStep(s: seq<Byte>, count: nat, data: seq<Byte>, pongs: seq<seq<Byte>>, later: seq<Byte>)
    requires count > 0 && Receive(s, [], []) == Message(data, pongs, later)
    ensures ReadMany(s, count) == [data] + ReadMany(later, count - 1)
  {
  }

  /** Call after call reads message after message: nothing one call reads off the wire is
      missing from what the next one needs. */
  lemma {:induction false} SessionRoundTrip(messages: seq<seq<Frame>>, rest: seq<Byte>)
    requires AllMessages(messages)
    ensures ReadMany(Stream(messages) + rest, |messages|) == Contents(messages)
    decreases |messages|
  {
    hide Receive, Content, OneMessage, Stream, AllMessages, ReadMany, PingData;
    if messages == [] {
      ReadNone(Stream(messages) + rest);
    } else {
      var first, later := StreamStep(messages, rest);
      SessionRoundTrip(messages[1..], rest);
      ReadManyStep(first + later, |messages|, Content(messages[0]), PingData(messages[0]), later);
    }
  }

  lemma ReadNone(s: seq<Byte>)
    ensures ReadMany(s, 0) == []
  {
  }
}
