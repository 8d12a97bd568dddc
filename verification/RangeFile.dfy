/** A remote file read by range requests through a read-ahead buffer: to its reader it is
    the plain bytes of the remote file, except for one kind of read at the very end. */
module RangeFiles {
  import opened Bits
  import opened Wrappers

  const CHUNK := 256 * 1024

  /** A range request's answer: status 206 with a body, or anything else. */
  datatype Reply = Partial(body: seq<Byte>) | NotPartial

  /** The server, asked for the bytes from `first` to `last`, both included. */
  type Server = (nat, int) -> Reply

  /** A 206 carries exactly the bytes asked for, and a range whose last byte comes before
      its first cannot be answered with one (section 14.1.1 of RFC 9110). */
  ghost predicate Honest(server: Server, remote: seq<Byte>) {
    && (forall first: nat, last: int :: first <= last < |remote| && server(first, last).Partial?
                                ==> server(first, last).body == remote[first..last + 1])
    && (forall first: nat, last: int :: last < first ==> server(first, last).NotPartial?)
  }

  /** A server that answers every range that lies in the file. */
  ghost predicate Willing(server: Server, remote: seq<Byte>) {
    forall first: nat, last: int :: first <= last < |remote| ==> server(first, last).Partial?
  }

  datatype File = File(pos: nat, start: nat, buf: seq<Byte>)

  /** The position is inside the file and the buffer is a true slice of it. */
  ghost predicate Sound(f: File, remote: seq<Byte>) {
    && f.pos <= |remote|
    && f.start + |f.buf| <= |remote|
    && f.buf == remote[f.start..f.start + |f.buf|]
  }

  function Min(a: int, b: int): int {
    if a < b then a else b
  }

  function Max(a: int, b: int): int {
    if a < b then b else a
  }

  /** Where a seek lands; no such `whence` is a KeyError. */
  function SeekTo(pos: nat, size: nat, offset: int, whence: int): (r: Option<nat>)
    ensures r.Some? ==> r.value <= size
  {
    if whence == 0 then Some(Max(0, Min(size, offset)))
    else if whence == 1 then Some(Max(0, Min(size, pos + offset)))
    else if whence == 2 then Some(Max(0, Min(size, size + offset)))
    else None
  }

  /** Where a read of n bytes ends; `None` and negative n mean the rest of the file. */
  function End(pos: nat, size: nat, n: Option<int>): (end: nat)
    requires pos <= size
    ensures pos <= end <= size
  {
    match n
    case Some(k) => if k < 0 then size else Min(size, pos + k)
    case None => size
  }

  predicate Covers(f: File, end: nat) {
    f.start <= f.pos && end <= f.start + |f.buf|
  }

  /** How far a request made at `pos` reaches. */
  function Stop(pos: nat, size: nat, end: nat): nat {
    Min(size, Max(end, pos + CHUNK))
  }

  datatype Outcome = Data(bytes: seq<Byte>) | Raised

  /** p is the place in the file nearest to where a seek aims. */
  predicate Nearest(p: int, aim: int, size: nat) {
    && 0 <= p <= size
    && (0 <= aim <= size ==> p == aim) && (aim < 0 ==> p == 0) && (aim > size ==> p == size)
  }

  /** A seek goes by the start, the position or the end of the file, as near as the file has. */
  lemma SeekMeaning(pos: nat, size: nat, offset: int, whence: int)
    ensures SeekTo(pos, size, offset, whence).Some? <==> whence in {0, 1, 2}
    ensures whence == 0 ==> Nearest(SeekTo(pos, size, offset, whence).value, offset, size)
    ensures whence == 1 ==> Nearest(SeekTo(pos, size, offset, whence).value, pos + offset, size)
    ensures whence == 2 ==> Nearest(SeekTo(pos, size, offset, whence).value, size + offset, size)
  {
  }

  /** How many bytes a read is for: as many as asked, or all that are left. */
  predicate Amount(count: int, left: int, n: Option<int>) {
    count == if n.Some? && 0 <= n.value <= left then n.value else left
  }

  lemma EndMeaning(pos: nat, size: nat, n: Option<int>)
    requires pos <= size
    ensures Amount(End(pos, size, n) - pos, size - pos, n)
  {
  }

  /** What a read returns: as many bytes as asked, or all that are left, each the remote byte at
      its place. */
  lemma BytesMeaning(remote: seq<Byte>, pos: nat, n: Option<int>)
    requires pos <= |remote|
    ensures var bytes := remote[pos..End(pos, |remote|, n)];
            && Amount(|bytes|, |remote| - pos, n) && |bytes| == End(pos, |remote|, n) - pos
            && forall j :: 0 <= j < |bytes| ==> bytes[j] == remote[pos + j]
  {
    EndMeaning(pos, |remote|, n);
  }

  /** When a read is refused: the buffer does not hold all of it, and the one request made, from
      the position over 256 KiB, or over the read if that is longer, or to the end of the file
      if that comes first, is not answered with a part. */
  lemma RefusedMeaning(f: File, size: nat, end: nat, server: Server, stop: nat)
    requires f.pos <= end <= size
    requires stop == var far := if end > f.pos + 262144 then end else f.pos + 262144; if size < far then size else far
    ensures Refused(f, size, end, server)
       <==> !(f.start <= f.pos && end <= f.start + |f.buf|) && server(f.pos, stop - 1).NotPartial?
    ensures !Refused(f, size, end, server) && !(f.start <= f.pos && end <= f.start + |f.buf|)
            ==> Filled(f, size, end, server) == File(f.pos, f.pos, server(f.pos, stop - 1).body)
    ensures f.start <= f.pos && end <= f.start + |f.buf| ==> Filled(f, size, end, server) == f
  {
  }

  // ---- the file itself --------------------------------------------------------------------

  class RangeFile {
    const remote: seq<Byte>
    const size: nat
    var pos: nat
    var start: nat
    var buf: seq<Byte>

    function State(): File
      reads this
    {
      File(pos, start, buf)
    }

    ghost predicate Valid()
      reads this
    {
      size == |remote| && Sound(State(), remote)
    }

    constructor (remote: seq<Byte>)
      ensures Valid() && this.remote == remote && State() == File(0, 0, [])
    {
      this.remote, this.size := remote, |remote|;
      pos, start, buf := 0, 0, [];
    }

    method Seek(offset: int, whence: int) returns (r: Option<nat>)
      requires Valid()
      modifies `pos
      ensures Valid()
      ensures r == SeekTo(old(pos), size, offset, whence)
      ensures pos == if r.Some? then r.value else old(pos)
      ensures r.Some? <==> whence in {0, 1, 2}
      ensures r.Some? ==>
                Nearest(pos, (if whence == 0 then 0 else if whence == 1 then old(pos) else size) + offset, size)
    {
      var base: int;
      if whence == 0 {
        base := 0;
      } else if whence == 1 {
        base := pos;
      } else if whence == 2 {
        base := size;
      } else {
        return None;
      }
      pos := Max(0, Min(size, base + offset));
      r := Some(pos);
    }

    /** The part of `read` that asks the server, when the buffer does not cover the read. */
    method Fill(end: nat, server: Server) returns (served: bool)
      requires Valid() && Honest(server, remote) && pos <= end <= size
      modifies `start, `buf
      ensures Valid()
      ensures served == !Refused(old(State()), size, end, server)
      ensures State() == Filled(old(State()), size, end, server)
      ensures served ==> Covers(State(), end)
    {
      Fetched(server, remote, pos, end);
      hide Honest;
      if !(start <= pos && end <= start + |buf|) {
        var stop := Min(size, Max(end, pos + CHUNK));
        var reply := server(pos, stop - 1);
        if reply.NotPartial? {
          return false;
        }
        start, buf := pos, reply.body;
      }
      served := true;
    }

    /** Whatever is in the buffer, a read that returns returns the remote bytes from the
        position on and moves over exactly those; one that raises changes nothing. */
    method Read(n: Option<int>, server: Server) returns (r: Outcome)
      requires Valid() && Honest(server, remote)
      modifies this
      ensures Valid()
      ensures r == if Refused(old(State()), size, End(old(pos), size, n), server) then Raised
                   else Data(remote[old(pos)..End(old(pos), size, n)])
      ensures State() == ReadState(old(State()), size, End(old(pos), size, n), server)
    {
      var count := if n.None? || n.value < 0 then size - pos else n.value;
      var end := Min(size, pos + count);
      ReadEnd(pos, size, n, end);
      RefusedKeeps(State(), size, end, server);
      hide End, Filled, Refused, Honest, Min, Max, Sound, Stop, ReadState, Covers;
      var served := Fill(end, server);
      if !served {
        return Raised;
      }
      Window(State(), remote, end);
      var data := Slice(end);
      pos := pos + |data|;
      r := Data(data);
    }

    /** The bytes from the position to `end`, out of the buffer. */
    method Slice(end: nat) returns (data: seq<Byte>)
      requires Valid() && Covers(State(), end) && pos <= end <= size
      ensures data == remote[pos..end] && |data| == end - pos
    {
      Window(State(), remote, end);
      hide Sound;
      data := buf[pos - start..end - start];
    }
  }

  lemma RefusedKeeps(f: File, size: nat, end: nat, server: Server)
    requires f.pos <= end <= size
    ensures Refused(f, size, end, server) ==> Filled(f, size, end, server) == f
    ensures ReadState(f, size, end, server)
         == if Refused(f, size, end, server) then f else Filled(f, size, end, server).(pos := end)
  {
  }

  lemma ReadEnd(pos: nat, size: nat, n: Option<int>, end: int)
    requires pos <= size && end == Min(size, pos + if n.None? || n.value < 0 then size - pos else n.value)
    ensures end == End(pos, size, n) && pos <= end <= size
  {
  }

  /** A read up to `end` that the server does not serve. */
  predicate Refused(f: File, size: nat, end: nat, server: Server)
    requires f.pos <= end <= size
  {
    !Covers(f, end) && server(f.pos, Stop(f.pos, size, end) - 1).NotPartial?
  }

  /** The fields once the buffer covers the read, if the server serves it. */
  function Filled(f: File, size: nat, end: nat, server: Server): (g: File)
    requires f.pos <= end <= size
    ensures g.pos == f.pos
  {
    if Covers(f, end) then f
    else match server(f.pos, Stop(f.pos, size, end) - 1)
         case Partial(body) => File(f.pos, f.pos, body)
         case NotPartial => f
  }

  /** The fields after a read up to `end`. */
  function ReadState(f: File, size: nat, end: nat, server: Server): (g: File)
    requires f.pos <= end <= size
    ensures g.pos <= size
  {
    if Refused(f, size, end, server) then f else Filled(f, size, end, server).(pos := end)
  }

  lemma SliceOfSlice(s: seq<Byte>, buf: seq<Byte>, a: nat, c: nat, d: nat)
    requires a <= c <= d <= a + |buf| <= |s| && buf == s[a..a + |buf|]
    ensures buf[c - a..d - a] == s[c..d]
  {
    forall i | 0 <= i < d - c
      ensures buf[c - a..d - a][i] == s[c..d][i]
    {
      assert buf[c - a + i] == s[a..a + |buf|][c - a + i] == s[c + i];
    }
  }

  /** The buffer holds the bytes it covers, and the file stays sound as the position moves
      over them. */
  lemma Window(f: File, remote: seq<Byte>, end: nat)
    requires Sound(f, remote) && Covers(f, end) && f.pos <= end
    ensures f.buf[f.pos - f.start..end - f.start] == remote[f.pos..end]
    ensures Sound(f.(pos := end), remote)
  {
    SliceOfSlice(remote, f.buf, f.start, f.pos, end);
  }

  /** What a request brings: the bytes up to where it reaches, and never anything when it
      is made at the end of the file. */
  lemma Fetched(server: Server, remote: seq<Byte>, pos: nat, end: nat)
    requires Honest(server, remote) && pos <= end <= |remote|
    ensures var stop := Stop(pos, |remote|, end);
            && end <= stop <= |remote|
            && (server(pos, stop - 1).Partial? ==> pos < |remote| && server(pos, stop - 1).body == remote[pos..stop])
            && (pos < |remote| && Willing(server, remote) ==> server(pos, stop - 1).Partial?)
  {
    var last := Stop(pos, |remote|, end) - 1;
    assert pos < |remote| ==> pos <= last < |remote|;
    assert pos == |remote| ==> last < pos;
  }

  // ---- runs -----------------------------------------------------------------------------

  datatype Op = Seek(offset: int, whence: int) | Read(n: Option<int>)

  datatype Result = At(pos: nat) | BadWhence | Bytes(bytes: seq<Byte>) | ReadRaised

  /** The result and the fields after one operation, as the class has them: what a read
      returns comes out of the buffer. */
  ghost function DoRange(f: File, remote: seq<Byte>, op: Op, server: Server): (r: (Result, File))
    requires Sound(f, remote) && Honest(server, remote)
    ensures Sound(r.1, remote)
  {
    match op
    case Seek(offset, whence) =>
      (match SeekTo(f.pos, |remote|, offset, whence)
       case Some(pos) => (At(pos), f.(pos := pos))
       case None => (BadWhence, f))
    case Read(n) =>
      var end := End(f.pos, |remote|, n);
      SoundRead(f, remote, end, server);
      if Refused(f, |remote|, end, server) then (ReadRaised, f)
      else
        var g := Filled(f, |remote|, end, server);
        (Bytes(g.buf[f.pos - g.start..end - g.start]), g.(pos := end))
  }

  /** A read that is served finds its bytes in the buffer; the file stays sound. */
  lemma SoundRead(f: File, remote: seq<Byte>, end: nat, server: Server)
    requires Sound(f, remote) && Honest(server, remote) && f.pos <= end <= |remote|
    ensures !Refused(f, |remote|, end, server) ==>
              var g := Filled(f, |remote|, end, server);
              && Covers(g, end) && Sound(g, remote) && Sound(g.(pos := end), remote)
              && g.buf[f.pos - g.start..end - g.start] == remote[f.pos..end]
  {
    Fetched(server, remote, f.pos, end);
    if !Refused(f, |remote|, end, server) {
      var g := Filled(f, |remote|, end, server);
      Window(g, remote, end);
    }
  }

  /** The same operation on the bytes themselves. */
  function DoPlain(pos: nat, remote: seq<Byte>, op: Op): (r: (Result, nat))
    requires pos <= |remote|
    ensures r.1 <= |remote|
  {
    match op
    case Seek(offset, whence) =>
      (match SeekTo(pos, |remote|, offset, whence)
       case Some(p) => (At(p), p)
       case None => (BadWhence, pos))
    case Read(n) =>
      var end := End(pos, |remote|, n);
      (Bytes(remote[pos..end]), end)
  }

  ghost function RangeResults(f: File, remote: seq<Byte>, ops: seq<Op>, server: Server): seq<Result>
    requires Sound(f, remote) && Honest(server, remote)
    decreases |ops|
  {
    if ops == [] then []
    else var d := DoRange(f, remote, ops[0], server); [d.0] + RangeResults(d.1, remote, ops[1..], server)
  }

  function PlainResults(pos: nat, remote: seq<Byte>, ops: seq<Op>): seq<Result>
    requires pos <= |remote|
    decreases |ops|
  {
    if ops == [] then []
    else var d := DoPlain(pos, remote, ops[0]); [d.0] + PlainResults(d.1, remote, ops[1..])
  }

  /** A read at the end of the file while the buffer does not reach the end. */
  predicate BlindAtEnd(f: File, remote: seq<Byte>, op: Op) {
    op.Read? && f.pos == |remote| && f.start + |f.buf| < |remote|
  }

  ghost predicate NeverBlind(f: File, remote: seq<Byte>, ops: seq<Op>, server: Server)
    requires Sound(f, remote) && Honest(server, remote)
    decreases |ops|
  {
    ops != [] ==> !BlindAtEnd(f, remote, ops[0])
                  && NeverBlind(DoRange(f, remote, ops[0], server).1, remote, ops[1..], server)
  }

  /** One operation agrees with the plain bytes unless it is a blind read at the end, which
      raises where the bytes would give nothing; the position agrees always. */
  lemma OneOperation(f: File, remote: seq<Byte>, op: Op, server: Server)
    requires Sound(f, remote) && Honest(server, remote) && Willing(server, remote)
    ensures var range, plain := DoRange(f, remote, op, server), DoPlain(f.pos, remote, op);
            && range.1.pos == plain.1
            && (range.0 == plain.0 <==> !BlindAtEnd(f, remote, op))
  {
    if op.Read? {
      var end := End(f.pos, |remote|, op.n);
      EndAtEnd(f.pos, |remote|, op.n);
      Fetched(server, remote, f.pos, end);
      SoundRead(f, remote, end, server);
      OneRead(f, remote, op.n, server);
    }
  }

  lemma OneRead(f: File, remote: seq<Byte>, n: Option<int>, server: Server)
    requires Sound(f, remote) && Honest(server, remote) && Willing(server, remote)
    ensures var end := End(f.pos, |remote|, n);
            Refused(f, |remote|, end, server) <==> BlindAtEnd(f, remote, Read(n))
  {
    var end := End(f.pos, |remote|, n);
    EndAtEnd(f.pos, |remote|, n);
    Fetched(server, remote, f.pos, end);
    hide Honest, Willing, End, Stop, Min, Max;
  }

  lemma EndAtEnd(pos: nat, size: nat, n: Option<int>)
    requires pos <= size
    ensures pos == size ==> End(pos, size, n) == size
  {
  }

  /** Over every sequence of seeks and reads the buffered file gives exactly the results of
      the plain bytes, if and only if no read is blind at the end. */
  lemma {:induction false} SameAsPlain(f: File, remote: seq<Byte>, ops: seq<Op>, server: Server)
    requires Sound(f, remote) && Honest(server, remote) && Willing(server, remote)
    ensures RangeResults(f, remote, ops, server) == PlainResults(f.pos, remote, ops)
       <==> NeverBlind(f, remote, ops, server)
    decreases |ops|
  {
    assert f.pos <= |remote|;
    hide DoRange, DoPlain, Sound, Honest, Willing, BlindAtEnd;
    if ops != [] {
      var range, plain := DoRange(f, remote, ops[0], server), DoPlain(f.pos, remote, ops[0]);
      OneOperation(f, remote, ops[0], server);
      SameAsPlain(range.1, remote, ops[1..], server);
      HeadTail(range.0, RangeResults(range.1, remote, ops[1..], server),
               plain.0, PlainResults(plain.1, remote, ops[1..]));
    }
  }

  lemma HeadTail(x: Result, xs: seq<Result>, y: Result, ys: seq<Result>)
    ensures [x] + xs == [y] + ys <==> x == y && xs == ys
  {
    if [x] + xs == [y] + ys {
      assert ([x] + xs)[0] == x && ([y] + ys)[0] == y;
      assert ([x] + xs)[1..] == xs && ([y] + ys)[1..] == ys;
    }
  }

  /** A blind read can happen: on a file just opened that is not empty, seeking to its end
      and reading raises, where the bytes give the empty string. */
  lemma BlindAtOnce(remote: seq<Byte>, server: Server)
    requires remote != [] && Honest(server, remote)
    ensures RangeResults(File(0, 0, []), remote, [Seek(0, 2), Read(None)], server) == [At(|remote|), ReadRaised]
    ensures PlainResults(0, remote, [Seek(0, 2), Read(None)]) == [At(|remote|), Bytes([])]
  {
    var start, there, n := File(0, 0, []), File(|remote|, 0, []), |remote|;
    var op, read := Seek(0, 2), Read(None);
    Fetched(server, remote, n, n);
    assert Sound(there, remote);
    assert DoRange(start, remote, op, server) == (At(n), there);
    assert DoRange(there, remote, read, server) == (ReadRaised, there);
    assert DoPlain(0, remote, op) == (At(n), n);
    assert remote[n..n] == [] && DoPlain(n, remote, read) == (Bytes([]), n);
    assert Sound(start, remote);
    hide DoRange, DoPlain, Sound, Honest;
    TwoOperations(start, remote, op, read, server);
  }

  lemma TwoOperations(f: File, remote: seq<Byte>, op: Op, next: Op, server: Server)
    requires Sound(f, remote) && Honest(server, remote)
    ensures var d := DoRange(f, remote, op, server);
            RangeResults(f, remote, [op, next], server) == [d.0, DoRange(d.1, remote, next, server).0]
    ensures var d := DoPlain(f.pos, remote, op);
            PlainResults(f.pos, remote, [op, next]) == [d.0, DoPlain(d.1, remote, next).0]
  {
    var ops, last, none: seq<Op> := [op, next], [next], [];
    assert ops[1..] == last && last[1..] == none;
    var d, p := DoRange(f, remote, op, server), DoPlain(f.pos, remote, op);
    hide DoRange, DoPlain, Sound, Honest;
    assert RangeResults(d.1, remote, last, server)
        == [DoRange(d.1, remote, next, server).0]
           + RangeResults(DoRange(d.1, remote, next, server).1, remote, none, server);
    assert PlainResults(p.1, remote, last)
        == [DoPlain(p.1, remote, next).0] + PlainResults(DoPlain(p.1, remote, next).1, remote, none);
  }

  /** Read-ahead: after a request, every read that starts at or after the position it was
      made at and ends within 256 KiB of it needs no further request. */
  lemma ReadAhead(f: File, remote: seq<Byte>, n: Option<int>, server: Server, pos: nat, m: Option<int>)
    requires Sound(f, remote) && Honest(server, remote) && Willing(server, remote)
    requires f.pos < |remote| && !Covers(f, End(f.pos, |remote|, n))
    requires f.pos <= pos <= |remote| && End(pos, |remote|, m) <= f.pos + 262144
    ensures var g := ReadState(f, |remote|, End(f.pos, |remote|, n), server);
            Covers(g.(pos := pos), End(pos, |remote|, m))
  {
    Fetched(server, remote, f.pos, End(f.pos, |remote|, n));
  }
}
