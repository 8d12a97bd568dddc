/** The wire peer's WebSocket connection: a carried buffer over a socket that hands out
    its bytes in whatever pieces it likes, and a log of what was sent. */
module WireSockets {
  import opened Bits
  import opened Wire
  import opened WireMeaning
  import opened Wrappers

  /** How a call of `recv_text` ends. `Ended` is the refusal inside a frame. */
  datatype Read = Text(data: seq<Byte>) | ServerClosed | Ended

  /** A frame this side sent: final, masked, with this opcode and payload. */
  predicate IsReply(f: Frame, opcode: nat, payload: seq<Byte>) {
    f.fin && f.rsv == 0 && f.opcode == opcode && f.mask.Some? && f.payload == payload
  }

  /** One pong per ping, in order, each with the ping's data. */
  ghost predicate AnswerPings(fs: seq<Frame>, pings: seq<seq<Byte>>) {
    && |fs| == |pings|
    && forall i :: 0 <= i < |fs| ==> IsReply(fs[i], 10, pings[i])
  }

  lemma PongFor(fs: seq<Frame>, pings: seq<seq<Byte>>, i: nat)
    requires AnswerPings(fs, pings) && i < |pings|
    ensures |fs| == |pings| && fs[i].opcode == 10 && fs[i].payload == pings[i] && fs[i].fin && fs[i].mask.Some?
  {
  }

  class WireSocket {
    /** Bytes received and not consumed. */
    var buffer: seq<Byte>
    /** What the socket's `recv` will still return, piece by piece, before it ends. */
    var chunks: seq<seq<Byte>>
    /** Everything handed to `sendall`. */
    var sent: seq<Byte>
    var closeCode: nat
    var closeReason: seq<Byte>
    /** The frames `sent` is made of. */
    ghost var outgoing: seq<Frame>

    ghost predicate Valid()
      reads this
    {
      && (forall i :: 0 <= i < |chunks| ==> chunks[i] != [])
      && (forall f :: f in outgoing ==> Fits(f) && f.mask.Some?)
      && sent == EncodeAll(outgoing)
    }

    /** All bytes that are still to be read, however they are cut. */
    ghost function Pending(): seq<Byte>
      reads this
    {
      buffer + Join(chunks)
    }

    constructor (rest: seq<Byte>, pieces: seq<seq<Byte>>)
      requires forall i :: 0 <= i < |pieces| ==> pieces[i] != []
      ensures Valid() && Pending() == rest + Join(pieces) && outgoing == [] && closeCode == 0
    {
      buffer, chunks, sent := rest, pieces, [];
      closeCode, closeReason := 0, [];
      outgoing := [];
    }

    /** `_read_exact(n)`; None is the refusal when the connection ends first. */
    method ReadExact(n: nat) returns (r: Option<seq<Byte>>)
      requires Valid()
      modifies this`buffer, this`chunks
      ensures Valid()
      ensures r == if n <= |old(Pending())| then Some(old(Pending())[..n]) else None
      ensures Pending() == if n <= |old(Pending())| then old(Pending())[n..] else old(Pending())
    {
      while |buffer| < n
        invariant Valid() && Pending() == old(Pending())
        decreases |chunks|
      {
        if chunks == [] {
          assert Join(chunks) == [];
          return None;
        }
        Grow(buffer, chunks);
        buffer, chunks := buffer + chunks[0], chunks[1..];
      }
      r := Some(buffer[..n]);
      TakeFront(buffer, Join(chunks), n);
      buffer := buffer[n..];
    }

    /** `_send_frame`: the header of the shortest form, a fresh mask, the masked payload. */
    method SendFrame(opcode: nat, payload: seq<Byte>)
      requires Valid() && opcode < 16 && |payload| < Pow256(8)
      modifies this`sent, this`outgoing
      ensures Valid()
      ensures |sent| >= |old(sent)| && sent[..|old(sent)|] == old(sent)
      ensures exists mask :: outgoing == old(outgoing) + [Outgoing(opcode, mask, payload)]
                             && Sends(sent[|old(sent)|..], opcode, mask, payload)
    {
      hide ToBig, Masked, Pow256, EncodeAll, Encode, LengthBytes;
      var header: seq<Byte> := [128 + opcode];
      var n := |payload|;
      if n < 126 {
        header := header + [128 + n];
      } else if n < 65536 {
        header := header + [128 + 126] + ToBig(n, 2);
      } else {
        header := header + [128 + 127] + ToBig(n, 8);
      }
      var mask: Mask :| true;
      ghost var f := Outgoing(opcode, mask, payload);
      HeaderBytes(opcode, mask, payload, header);
      EncodeSpelled(f);
      hide Fits, Encode, Spelled, Sends;
      ghost var bytes := header + mask + Masked(mask, payload);
      OutgoingSpelled(bytes, opcode, mask, payload);
      sent := sent + (header + mask + Masked(mask, payload));
      assert sent[|old(sent)|..] == bytes;
      EncodeAppend(outgoing, f);
      outgoing := outgoing + [f];
    }

    /** The length of a frame whose first two bytes are in, with its extended bytes. */
    method ReadLength(b2: Byte, ghost s: seq<Byte>) returns (r: Option<(LengthForm, nat)>, ghost at: nat)
      requires Valid() && |s| >= 2 && s[1] == b2 && Pending() == s[2..]
      modifies this`buffer, this`chunks
      ensures Valid()
      ensures r.None? <==> ParseLength(s).None?
      ensures r.Some? ==> at <= |s| && ParseLength(s) == Some((r.value.0, r.value.1, at)) && Pending() == s[at..]
    {
      hide FromBig, EncodeAll, Fits, Join, Valid, Pending;
      at := 2;
      if b2 % 128 == 126 {
        var more := ReadExact(2);
        if more.None? {
          return None, at;
        }
        SliceOfRest(s, 2, 2);
        return Some((Sixteen, FromBig(more.value))), 4;
      } else if b2 % 128 == 127 {
        var more := ReadExact(8);
        if more.None? {
          return None, at;
        }
        SliceOfRest(s, 2, 8);
        return Some((SixtyFour, FromBig(more.value))), 10;
      }
      r := Some((Seven, b2 % 128));
    }

    /** The mask, if one is announced, and the payload. */
    method ReadBody(b1: Byte, b2: Byte, form: LengthForm, n: nat, ghost s: seq<Byte>, ghost at: nat)
      returns (r: Option<Frame>)
      requires Valid() && |s| >= 2 && s[0] == b1 && s[1] == b2 && at <= |s| && Pending() == s[at..]
      modifies this`buffer, this`chunks
      ensures Valid()
      ensures r.None? <==> |s| < BodyStart(s, at) + n
      ensures r.Some? ==> r.value == FrameAt(s, form, n, at) && Pending() == s[BodyStart(s, at) + n..]
    {
      hide Masked, EncodeAll, Fits, Join, FrameAt, Valid, Pending, FrameOf;
      ghost var body := BodyStart(s, at);
      var mask: Option<Mask> := None;
      if b2 >= 128 {
        var key := ReadExact(4);
        if key.None? {
          return None;
        }
        SliceOfRest(s, at, 4);
        mask := Some(key.value);
      }
      assert Pending() == s[body..] && body <= |s|;
      var data := ReadExact(n);
      if data.None? {
        return None;
      }
      SliceOfRest(s, body, n);
      FrameFromParts(s, form, n, at, mask, data.value);
      r := Some(FrameOf(b1, form, mask, data.value));
    }

    /** The next frame off the wire, None where the connection ends inside it. */
    method ReadFrame() returns (r: Option<Frame>)
      requires Valid()
      modifies this`buffer, this`chunks
      ensures Valid()
      ensures r.None? <==> Parse(old(Pending())).None?
      ensures r.Some? ==> Parse(old(Pending())) == Some((r.value, Pending()))
    {
      hide FrameAt, ParseLength, EncodeAll, Fits, Join, Valid, Pending, BodyStart;
      ghost var s := Pending();
      var head := ReadExact(2);
      if head.None? {
        return None;
      }
      var b1, b2 := head.value[0], head.value[1];
      var length, at := ReadLength(b2, s);
      if length.None? {
        return None;
      }
      r := ReadBody(b1, b2, length.value.0, length.value.1, s, at);
    }

    /** `recv_text`, on a connection that does not time out. */
    method RecvText() returns (r: Read)
      requires Valid()
      modifies this
      ensures Valid()
      ensures |outgoing| >= |old(outgoing)| && outgoing[..|old(outgoing)|] == old(outgoing)
      ensures match Receive(old(Pending()), [], [])
              case Message(data, pongs, rest) =>
                r == Text(data) && Pending() == rest
                && AnswerPings(outgoing[|old(outgoing)|..], pongs)
                && closeCode == old(closeCode) && closeReason == old(closeReason)
              case Closed(code, reason, echo, pongs, rest) =>
                r == ServerClosed && Pending() == rest && closeCode == code && closeReason == reason
                && |outgoing| > |old(outgoing)|
                && AnswerPings(outgoing[|old(outgoing)|..|outgoing| - 1], pongs)
                && IsReply(outgoing[|outgoing| - 1], 8, echo)
              case MidFrame(pongs) =>
                r == Ended && AnswerPings(outgoing[|old(outgoing)|..], pongs)
                && closeCode == old(closeCode) && closeReason == old(closeReason)
    {
      hide Parse, EncodeAll, Fits, FromBig, Pow256;
      ghost var before := outgoing;
      var parts: seq<seq<Byte>> := [];
      ghost var pongs: seq<seq<Byte>> := [];
      while true
        invariant Valid()
        invariant |outgoing| >= |before| && outgoing[..|before|] == before
        invariant AnswerPings(outgoing[|before|..], pongs)
        invariant Receive(old(Pending()), [], []) == Receive(Pending(), parts, pongs)
        invariant closeCode == old(closeCode) && closeReason == old(closeReason)
        decreases |Pending()|
      {
        ghost var s := Pending();
        var frame := ReadFrame();
        if frame.None? {
          return Ended;
        }
        ParsedLength(s);
        var data := frame.value.payload;
        if frame.value.opcode == 9 {
          SendFrame(10, data);
          pongs := pongs + [data];
        } else if frame.value.opcode == 10 {
        } else if frame.value.opcode == 8 {
          closeCode := if |data| >= 2 then FromBig(data[..2]) else 1005;
          closeReason := if |data| >= 2 then data[2..] else [];
          SendFrame(8, if |data| >= 2 then data[..2] else data);
          return ServerClosed;
        } else if frame.value.opcode <= 2 {
          parts := parts + [data];
          if frame.value.fin {
            return Text(Join(parts));
          }
        }
      }
    }
  }

  // ---- facts about bytes the methods use ----------------------------------------------------

  lemma Grow(buffer: seq<Byte>, chunks: seq<seq<Byte>>)
    requires chunks != []
    ensures buffer + Join(chunks) == (buffer + chunks[0]) + Join(chunks[1..])
  {
  }

  lemma TakeFront(buffer: seq<Byte>, more: seq<Byte>, n: nat)
    requires n <= |buffer|
    ensures (buffer + more)[..n] == buffer[..n] && (buffer + more)[n..] == buffer[n..] + more
  {
  }

  lemma SliceOfRest(s: seq<Byte>, at: nat, n: nat)
    requires at + n <= |s|
    ensures s[at..][..n] == s[at..at + n] && s[at..][n..] == s[at + n..]
  {
  }

  /** The frame with this first byte, and the body unmasked if it was masked. */
  function FrameOf(b1: Byte, form: LengthForm, mask: Option<Mask>, data: seq<Byte>): Frame {
    Frame(b1 >= 128, b1 / 16 % 8, b1 % 16, form, mask, if mask.Some? then Masked(mask.value, data) else data)
  }

  lemma FrameFromParts(s: seq<Byte>, form: LengthForm, n: nat, at: nat, mask: Option<Mask>, data: seq<Byte>)
    requires 2 <= |s| && BodyStart(s, at) + n <= |s|
    requires data == s[BodyStart(s, at)..BodyStart(s, at) + n]
    requires mask == if s[1] >= 128 then Some(s[at..at + 4]) else None
    ensures FrameAt(s, form, n, at)
            == FrameOf(s[0], form, mask, data)
  {
  }

  lemma TwoBytes()
    ensures Pow256(2) == 65536
  {
  }

  lemma HeaderBytes(opcode: nat, mask: Mask, payload: seq<Byte>, header: seq<Byte>)
    requires opcode < 16 && |payload| < Pow256(8)
    requires var n := |payload|;
             header == if n < 126 then [128 + opcode] + [128 + n]
                       else if n < 65536 then [128 + opcode] + [128 + 126] + ToBig(n, 2)
                       else [128 + opcode] + [128 + 127] + ToBig(n, 8)
    ensures var f := Outgoing(opcode, mask, payload);
            Fits(f) && Encode(f) == header + mask + Masked(mask, payload)
  {
    TwoBytes();
    hide ToBig, Masked, Pow256;
    var f := Outgoing(opcode, mask, payload);
    assert header == [128 + opcode] + LengthBytes(f);
  }

  lemma {:induction false} EncodeAppend(fs: seq<Frame>, f: Frame)
    requires Fits(f) && forall g :: g in fs ==> Fits(g)
    ensures EncodeAll(fs + [f]) == EncodeAll(fs) + Encode(f)
  {
    if fs == [] {
      assert EncodeAll([]) == [];
      assert [f][1..] == [] && [] + [f] == [f];
    } else {
      assert (fs + [f])[1..] == fs[1..] + [f];
      EncodeAppend(fs[1..], f);
    }
  }
}
