/** One connection to one room: submitting waits for an ack, and what arrives meanwhile is
    kept for the next read instead of being dropped. */
module RoomConnections {
  import opened Json
  import opened Wrappers

  /** What the wire hands over, one `recv_text` at a time; past the last one the connection
      has ended. */
  datatype Incoming = Arrived(text: string) | Silence

  type Loads = string -> Option<Json>

  /** The message an arrival carries: objects count, other JSON and unreadable text do not. */
  function MessageOf(loads: Loads, event: Incoming): Option<Json> {
    match event
    case Silence => None
    case Arrived(text) => match loads(text)
                          case Some(Obj(fields)) => Some(Obj(fields))
                          case _ => None
  }

  predicate IsKind(message: Json, kind: string) {
    message.Obj? && Get(message.fields, "kind") == Str(kind)
  }

  /** Every message in the stream, in arrival order. */
  function Objects(loads: Loads, incoming: seq<Incoming>): seq<Json> {
    if incoming == [] then []
    else match MessageOf(loads, incoming[0])
         case None => Objects(loads, incoming[1..])
         case Some(message) => [message] + Objects(loads, incoming[1..])
  }

  // ---- the three reads ------------------------------------------------------------------

  /** `submit` waiting: the ack if one came, the messages kept, the stream left. */
  datatype Awaited = Awaited(ack: Option<Json>, kept: seq<Json>, rest: seq<Incoming>)

  function AwaitAck(loads: Loads, incoming: seq<Incoming>): Awaited
    decreases |incoming|
  {
    if incoming == [] then Awaited(None, [], [])
    else if incoming[0].Silence? then Awaited(None, [], incoming[1..])
    else match MessageOf(loads, incoming[0])
         case None => AwaitAck(loads, incoming[1..])
         case Some(message) =>
           if IsKind(message, "ack") then Awaited(Some(message), [], incoming[1..])
           else var later := AwaitAck(loads, incoming[1..]);
                later.(kept := [message] + later.kept)
  }

  /** `next_frame` with nothing kept. */
  datatype Found = Found(message: Option<Json>, timedOut: bool, rest: seq<Incoming>)

  function FirstObject(loads: Loads, incoming: seq<Incoming>): Found
    decreases |incoming|
  {
    if incoming == [] then Found(None, false, [])
    else if incoming[0].Silence? then Found(None, true, incoming[1..])
    else match MessageOf(loads, incoming[0])
         case None => FirstObject(loads, incoming[1..])
         case Some(message) => Found(Some(message), false, incoming[1..])
  }

  /** `backlog`: what comes before the sync marker, a silence, or the end. */
  datatype History = History(frames: seq<Json>, sync: Option<Json>, rest: seq<Incoming>)

  function UpToSync(loads: Loads, incoming: seq<Incoming>): History
    decreases |incoming|
  {
    if incoming == [] then History([], None, [])
    else if incoming[0].Silence? then History([], None, incoming[1..])
    else match MessageOf(loads, incoming[0])
         case None => UpToSync(loads, incoming[1..])
         case Some(message) =>
           if IsKind(message, "sync") then History([], Some(message), incoming[1..])
           else var later := UpToSync(loads, incoming[1..]);
                later.(frames := [message] + later.frames)
  }

  // ---- what each read takes off the stream -------------------------------------------------

  function Maybe(message: Option<Json>): seq<Json> {
    match message case None => [] case Some(m) => [m]
  }

  lemma Joined<T>(a: seq<T>, b: seq<T>, c: seq<T>)
    ensures (a + b) + c == a + (b + c)
  {
  }

  lemma HeadIn(head: Json, a: seq<Json>, b: seq<Json>, c: seq<Json>)
    ensures [head] + (a + b + c) == ([head] + a) + b + c
  {
  }

  lemma Nothing(a: seq<Json>, b: seq<Json>)
    ensures [] + a + b == a + b && [] + b == b
  {
  }

  lemma ObjectsStep(loads: Loads, incoming: seq<Incoming>)
    requires incoming != []
    ensures var rest := Objects(loads, incoming[1..]);
            Objects(loads, incoming) == match MessageOf(loads, incoming[0])
                                        case None => rest
                                        case Some(message) => [message] + rest
  {
  }

  lemma {:induction false} AwaitAckSplits(loads: Loads, incoming: seq<Incoming>)
    ensures var w := AwaitAck(loads, incoming);
            Objects(loads, incoming) == w.kept + Maybe(w.ack) + Objects(loads, w.rest)
    decreases |incoming|
  {
    hide IsKind, Objects;
    if incoming == [] {
      Nothing([], Objects(loads, []));
      assert Objects(loads, incoming) == Objects(loads, []);
    } else {
      var rest := Objects(loads, incoming[1..]);
      ObjectsStep(loads, incoming);
      Nothing([], rest);
      if incoming[0].Arrived? {
        AwaitAckSplits(loads, incoming[1..]);
        var w := AwaitAck(loads, incoming[1..]);
        match MessageOf(loads, incoming[0])
        case None =>
        case Some(message) =>
          HeadIn(message, w.kept, Maybe(w.ack), Objects(loads, w.rest));
          Nothing([message], rest);
      }
    }
  }

  lemma {:induction false} AwaitAckKinds(loads: Loads, incoming: seq<Incoming>)
    ensures var w := AwaitAck(loads, incoming);
            && (forall m :: m in w.kept ==> !IsKind(m, "ack"))
            && (w.ack.Some? ==> IsKind(w.ack.value, "ack"))
    decreases |incoming|
  {
    hide IsKind, MessageOf;
    if incoming != [] && incoming[0].Arrived? {
      AwaitAckKinds(loads, incoming[1..]);
    }
  }

  /** Submit takes everything up to and including the first ack, and keeps all of it but
      the ack: what it keeps holds no ack, and what it takes is one. */
  lemma AwaitAckTakes(loads: Loads, incoming: seq<Incoming>)
    ensures var w := AwaitAck(loads, incoming);
            && Objects(loads, incoming) == w.kept + Maybe(w.ack) + Objects(loads, w.rest)
            && (forall m :: m in w.kept ==> !IsKind(m, "ack"))
            && (w.ack.Some? ==> IsKind(w.ack.value, "ack"))
  {
    AwaitAckSplits(loads, incoming);
    AwaitAckKinds(loads, incoming);
  }

  /** It gives up only at a silence or the end, and leaves the rest of the stream as it is. */
  lemma {:induction false} AwaitAckStops(loads: Loads, incoming: seq<Incoming>)
    ensures var w := AwaitAck(loads, incoming);
            && |w.rest| <= |incoming| && w.rest == incoming[|incoming| - |w.rest|..]
            && (w.ack.None? && w.rest != [] ==>
                  |w.rest| < |incoming| && incoming[|incoming| - |w.rest| - 1].Silence?)
    decreases |incoming|
  {
    hide IsKind, MessageOf;
    if incoming != [] && incoming[0].Arrived? {
      AwaitAckStops(loads, incoming[1..]);
      var n := |AwaitAck(loads, incoming[1..]).rest|;
      assert incoming[1..][|incoming| - 1 - n..] == incoming[|incoming| - n..];
    }
  }

  lemma {:induction false} FirstObjectTakes(loads: Loads, incoming: seq<Incoming>)
    ensures var f := FirstObject(loads, incoming);
            && Objects(loads, incoming) == Maybe(f.message) + Objects(loads, f.rest)
            && (f.message.None? && !f.timedOut ==> f.rest == [])
            && (f.message.Some? ==> !f.timedOut)
            && |f.rest| <= |incoming| && f.rest == incoming[|incoming| - |f.rest|..]
    decreases |incoming|
  {
    if incoming != [] && incoming[0].Arrived? {
      FirstObjectTakes(loads, incoming[1..]);
    }
  }

  lemma {:induction false} BacklogSplits(loads: Loads, incoming: seq<Incoming>)
    ensures var h := UpToSync(loads, incoming);
            Objects(loads, incoming) == h.frames + Maybe(h.sync) + Objects(loads, h.rest)
    decreases |incoming|
  {
    hide IsKind, Objects;
    if incoming == [] {
      Nothing([], Objects(loads, []));
      assert Objects(loads, incoming) == Objects(loads, []);
    } else {
      var rest := Objects(loads, incoming[1..]);
      ObjectsStep(loads, incoming);
      Nothing([], rest);
      if incoming[0].Arrived? {
        BacklogSplits(loads, incoming[1..]);
        var h := UpToSync(loads, incoming[1..]);
        match MessageOf(loads, incoming[0])
        case None =>
        case Some(message) =>
          HeadIn(message, h.frames, Maybe(h.sync), Objects(loads, h.rest));
          Nothing([message], rest);
      }
    }
  }

  lemma {:induction false} BacklogKinds(loads: Loads, incoming: seq<Incoming>)
    ensures var h := UpToSync(loads, incoming);
            && (forall m :: m in h.frames ==> !IsKind(m, "sync"))
            && (h.sync.Some? ==> IsKind(h.sync.value, "sync"))
    decreases |incoming|
  {
    hide IsKind, MessageOf;
    if incoming != [] && incoming[0].Arrived? {
      BacklogKinds(loads, incoming[1..]);
    }
  }

  lemma {:induction false} BacklogStops(loads: Loads, incoming: seq<Incoming>)
    ensures var h := UpToSync(loads, incoming);
            && |h.rest| <= |incoming| && h.rest == incoming[|incoming| - |h.rest|..]
            && (h.sync.None? && h.rest != [] ==>
                  |h.rest| < |incoming| && incoming[|incoming| - |h.rest| - 1].Silence?)
    decreases |incoming|
  {
    hide IsKind, MessageOf;
    if incoming != [] && incoming[0].Arrived? {
      BacklogStops(loads, incoming[1..]);
      var n := |UpToSync(loads, incoming[1..]).rest|;
      assert incoming[1..][|incoming| - 1 - n..] == incoming[|incoming| - n..];
    }
  }

  /** The backlog is every message in front of the first sync marker, oldest first; it
      stops short of a marker only at a silence or the end, and nothing behind is touched. */
  lemma BacklogTakes(loads: Loads, incoming: seq<Incoming>)
    ensures var h := UpToSync(loads, incoming);
            && Objects(loads, incoming) == h.frames + Maybe(h.sync) + Objects(loads, h.rest)
            && (forall m :: m in h.frames ==> !IsKind(m, "sync"))
            && (h.sync.Some? ==> IsKind(h.sync.value, "sync"))
            && |h.rest| <= |incoming| && h.rest == incoming[|incoming| - |h.rest|..]
            && (h.sync.None? && h.rest != [] ==>
                  |h.rest| < |incoming| && incoming[|incoming| - |h.rest| - 1].Silence?)
  {
    hide Objects, UpToSync, IsKind;
    BacklogSplits(loads, incoming);
    BacklogKinds(loads, incoming);
    BacklogStops(loads, incoming);
  }

  // ---- runs of calls ------------------------------------------------------------------------

  datatype Line = Line(incoming: seq<Incoming>, buffer: seq<Json>)

  datatype Call = Submit | Next

  datatype Reply = Acked(ack: Json) | Refused | Delivered(message: Json) | Over | TimedOut

  function SubmitReply(loads: Loads, line: Line): Reply {
    match AwaitAck(loads, line.incoming).ack
    case Some(ack) => Acked(ack)
    case None => Refused
  }

  function AfterSubmit(loads: Loads, line: Line): Line {
    var w := AwaitAck(loads, line.incoming);
    Line(w.rest, line.buffer + w.kept)
  }

  function NextReply(loads: Loads, line: Line): Reply {
    if line.buffer != [] then Delivered(line.buffer[0])
    else var f := FirstObject(loads, line.incoming);
         match f.message
         case Some(message) => Delivered(message)
         case None => if f.timedOut then TimedOut else Over
  }

  function AfterNext(loads: Loads, line: Line): Line {
    if line.buffer != [] then line.(buffer := line.buffer[1..])
    else line.(incoming := FirstObject(loads, line.incoming).rest)
  }

  function ReplyTo(loads: Loads, line: Line, call: Call): Reply {
    if call.Submit? then SubmitReply(loads, line) else NextReply(loads, line)
  }

  function After(loads: Loads, line: Line, call: Call): Line {
    if call.Submit? then AfterSubmit(loads, line) else AfterNext(loads, line)
  }

  function Replies(loads: Loads, line: Line, calls: seq<Call>): (replies: seq<Reply>)
    ensures |replies| == |calls|
    decreases |calls|
  {
    if calls == [] then []
    else [ReplyTo(loads, line, calls[0])] + Replies(loads, After(loads, line, calls[0]), calls[1..])
  }

  function AfterAll(loads: Loads, line: Line, calls: seq<Call>): Line
    decreases |calls|
  {
    if calls == [] then line else AfterAll(loads, After(loads, line, calls[0]), calls[1..])
  }

  /** The messages next_frame handed out. */
  function DeliveredIn(replies: seq<Reply>): seq<Json> {
    if replies == [] then []
    else (if replies[0].Delivered? then [replies[0].message] else []) + DeliveredIn(replies[1..])
  }

  function AckedIn(replies: seq<Reply>): seq<Json> {
    if replies == [] then []
    else (if replies[0].Acked? then [replies[0].ack] else []) + AckedIn(replies[1..])
  }

  // ---- conservation ---------------------------------------------------------------------------

  /** A message read off the wire: taken as the ack a submit waited for, or for reading. */
  datatype Entry = ForReading(message: Json) | AsAck(message: Json)

  function AllForReading(messages: seq<Json>): seq<Entry> {
    if messages == [] then [] else [ForReading(messages[0])] + AllForReading(messages[1..])
  }

  function Messages(log: seq<Entry>): seq<Json> {
    if log == [] then [] else [log[0].message] + Messages(log[1..])
  }

  function Readable(log: seq<Entry>): seq<Json> {
    if log == [] then []
    else (if log[0].ForReading? then [log[0].message] else []) + Readable(log[1..])
  }

  function Acks(log: seq<Entry>): seq<Json> {
    if log == [] then []
    else (if log[0].AsAck? then [log[0].message] else []) + Acks(log[1..])
  }

  function Taken(loads: Loads, line: Line, call: Call): seq<Entry> {
    if call.Submit? then
      var w := AwaitAck(loads, line.incoming);
      AllForReading(w.kept) + match w.ack case None => [] case Some(ack) => [AsAck(ack)]
    else if line.buffer != [] then []
    else AllForReading(Maybe(FirstObject(loads, line.incoming).message))
  }

  function Log(loads: Loads, line: Line, calls: seq<Call>): seq<Entry>
    decreases |calls|
  {
    if calls == [] then []
    else Taken(loads, line, calls[0]) + Log(loads, After(loads, line, calls[0]), calls[1..])
  }

  lemma {:induction false} MessagesConcat(a: seq<Entry>, b: seq<Entry>)
    ensures Messages(a + b) == Messages(a) + Messages(b)
  {
    var c := a + b;
    if a == [] {
      assert c == b;
    } else {
      assert c[0] == a[0] && c[1..] == a[1..] + b;
      MessagesConcat(a[1..], b);
      Joined([a[0].message], Messages(a[1..]), Messages(b));
    }
  }

  lemma {:induction false} ReadableConcat(a: seq<Entry>, b: seq<Entry>)
    ensures Readable(a + b) == Readable(a) + Readable(b)
  {
    var c := a + b;
    if a == [] {
      assert c == b;
    } else {
      assert c[0] == a[0] && c[1..] == a[1..] + b;
      ReadableConcat(a[1..], b);
      Joined(if a[0].ForReading? then [a[0].message] else [], Readable(a[1..]), Readable(b));
    }
  }

  lemma {:induction false} AcksConcat(a: seq<Entry>, b: seq<Entry>)
    ensures Acks(a + b) == Acks(a) + Acks(b)
  {
    var c := a + b;
    if a == [] {
      assert c == b;
    } else {
      assert c[0] == a[0] && c[1..] == a[1..] + b;
      AcksConcat(a[1..], b);
      Joined(if a[0].AsAck? then [a[0].message] else [], Acks(a[1..]), Acks(b));
    }
  }

  lemma LogConcat(a: seq<Entry>, b: seq<Entry>)
    ensures Messages(a + b) == Messages(a) + Messages(b)
    ensures Readable(a + b) == Readable(a) + Readable(b)
    ensures Acks(a + b) == Acks(a) + Acks(b)
  {
    MessagesConcat(a, b);
    ReadableConcat(a, b);
    AcksConcat(a, b);
  }

  lemma {:induction false} AllForReadingHolds(messages: seq<Json>)
    ensures var log := AllForReading(messages);
            Messages(log) == messages && Readable(log) == messages && Acks(log) == []
  {
    if messages != [] {
      var rest := AllForReading(messages[1..]);
      AllForReadingHolds(messages[1..]);
      assert AllForReading(messages)[1..] == rest;
    }
  }

  lemma OneAck(ack: Json)
    ensures Messages([AsAck(ack)]) == [ack] && Readable([AsAck(ack)]) == [] && Acks([AsAck(ack)]) == [ack]
  {
    var one := [AsAck(ack)];
    assert one[1..] == [];
  }

  predicate Conserves(loads: Loads, line: Line, log: seq<Entry>, reply: seq<Reply>, next: Line) {
    && Objects(loads, line.incoming) == Messages(log) + Objects(loads, next.incoming)
    && line.buffer + Readable(log) == DeliveredIn(reply) + next.buffer
    && Acks(log) == AckedIn(reply)
  }

  lemma OneReply(reply: Reply)
    ensures DeliveredIn([reply]) == if reply.Delivered? then [reply.message] else []
    ensures AckedIn([reply]) == if reply.Acked? then [reply.ack] else []
  {
    var one := [reply];
    assert one[1..] == [];
  }

  lemma SubmitConserves(loads: Loads, line: Line)
    ensures Conserves(loads, line, Taken(loads, line, Submit), [SubmitReply(loads, line)], AfterSubmit(loads, line))
  {
    hide Objects, AwaitAck, Messages, Readable, Acks, DeliveredIn, AckedIn, AllForReading;
    var w := AwaitAck(loads, line.incoming);
    AwaitAckTakes(loads, line.incoming);
    AllForReadingHolds(w.kept);
    OneReply(SubmitReply(loads, line));
    match w.ack
    case None =>
      assert AllForReading(w.kept) + [] == AllForReading(w.kept);
    case Some(ack) =>
      OneAck(ack);
      LogConcat(AllForReading(w.kept), [AsAck(ack)]);
  }

  lemma NextConserves(loads: Loads, line: Line)
    ensures Conserves(loads, line, Taken(loads, line, Next), [NextReply(loads, line)], AfterNext(loads, line))
  {
    hide Objects, FirstObject, Messages, Readable, Acks, DeliveredIn, AckedIn, AllForReading;
    OneReply(NextReply(loads, line));
    EmptyLog();
    if line.buffer == [] {
      FirstObjectTakes(loads, line.incoming);
      AllForReadingHolds(Maybe(FirstObject(loads, line.incoming).message));
    }
  }

  lemma CallConserves(loads: Loads, line: Line, call: Call)
    ensures Conserves(loads, line, Taken(loads, line, call), [ReplyTo(loads, line, call)], After(loads, line, call))
  {
    if call.Submit? {
      SubmitConserves(loads, line);
    } else {
      NextConserves(loads, line);
    }
  }

  /** Conservation over any run of calls on any stream: the messages read off the wire are,
      in arrival order and each once, the ones submits took as their acks and the ones
      delivered by next_frame or still kept; the rest of the stream is untouched. */
  lemma {:induction false} NothingIsLost(loads: Loads, line: Line, calls: seq<Call>)
    ensures var log, end := Log(loads, line, calls), AfterAll(loads, line, calls);
            Conserves(loads, line, log, Replies(loads, line, calls), end)
    decreases |calls|
  {
    hide Objects, Taken, After, ReplyTo, Messages, Readable, Acks;
    if calls == [] {
      EmptyLog();
    } else {
      var next := After(loads, line, calls[0]);
      var log, rest := Taken(loads, line, calls[0]), Log(loads, next, calls[1..]);
      var reply, later := ReplyTo(loads, line, calls[0]), Replies(loads, next, calls[1..]);
      var end := AfterAll(loads, next, calls[1..]);
      CallConserves(loads, line, calls[0]);
      NothingIsLost(loads, next, calls[1..]);
      LogConcat(log, rest);
      RepliesStep(reply, later);
      Joined(Messages(log), Messages(rest), Objects(loads, end.incoming));
      Joined(line.buffer, Readable(log), Readable(rest));
      Joined(DeliveredIn([reply]), next.buffer, Readable(rest));
      Joined(DeliveredIn([reply]), DeliveredIn(later), end.buffer);
    }
  }

  lemma EmptyLog()
    ensures Messages([]) == [] && Readable([]) == [] && Acks([]) == []
  {
  }

  lemma RepliesStep(reply: Reply, later: seq<Reply>)
    ensures DeliveredIn([reply] + later) == DeliveredIn([reply]) + DeliveredIn(later)
    ensures AckedIn([reply] + later) == AckedIn([reply]) + AckedIn(later)
  {
    var one, all := [reply], [reply] + later;
    assert one[1..] == [] && all[1..] == later;
  }

  // ---- whose ack a submit takes -----------------------------------------------------------------

  /** The acks among some messages. */
  function AckList(messages: seq<Json>): seq<Json> {
    if messages == [] then []
    else (if IsKind(messages[0], "ack") then [messages[0]] else []) + AckList(messages[1..])
  }

  /** The acks a caller was handed by one reply: a submit's, or one that next_frame delivered. */
  function AckIn(reply: Reply): seq<Json> {
    match reply
    case Acked(ack) => [ack]
    case Delivered(message) => if IsKind(message, "ack") then [message] else []
    case _ => []
  }

  /** The acks a caller was handed so far, which it can count. */
  function AcksHeard(replies: seq<Reply>): seq<Json> {
    if replies == [] then [] else AckIn(replies[0]) + AcksHeard(replies[1..])
  }

  function SubmitsIn(calls: seq<Call>): nat {
    if calls == [] then 0 else (if calls[0].Submit? then 1 else 0) + SubmitsIn(calls[1..])
  }

  predicate NoAcks(messages: seq<Json>) {
    forall m :: m in messages ==> !IsKind(m, "ack")
  }

  lemma {:induction false} AckListConcat(a: seq<Json>, b: seq<Json>)
    ensures AckList(a + b) == AckList(a) + AckList(b)
  {
    hide IsKind;
    var c := a + b;
    if a == [] {
      assert c == b;
    } else {
      assert c[0] == a[0] && c[1..] == a[1..] + b;
      AckListConcat(a[1..], b);
      Joined(if IsKind(a[0], "ack") then [a[0]] else [], AckList(a[1..]), AckList(b));
    }
  }

  lemma {:induction false} NoAcksNone(messages: seq<Json>)
    requires NoAcks(messages)
    ensures AckList(messages) == []
  {
    if messages != [] {
      assert messages[0] in messages;
      NoAcksNone(messages[1..]);
    }
  }

  lemma AckListOfOne(message: Json)
    ensures AckList([message]) == if IsKind(message, "ack") then [message] else []
  {
    var one := [message];
    assert one[1..] == [];
  }

  lemma SubmitHandsAck(loads: Loads, line: Line)
    ensures AckList(Objects(loads, line.incoming))
         == AckIn(SubmitReply(loads, line)) + AckList(Objects(loads, AfterSubmit(loads, line).incoming))
    ensures NoAcks(line.buffer) ==> NoAcks(AfterSubmit(loads, line).buffer)
  {
    hide Objects, AwaitAck, IsKind, AckList;
    var w := AwaitAck(loads, line.incoming);
    var rest := Objects(loads, w.rest);
    AwaitAckTakes(loads, line.incoming);
    AckListConcat(w.kept + Maybe(w.ack), rest);
    AckListConcat(w.kept, Maybe(w.ack));
    NoAcksNone(w.kept);
    match w.ack
    case None =>
      NoAcksNone([]);
    case Some(ack) =>
      AckListOfOne(ack);
  }

  lemma NextHandsAck(loads: Loads, line: Line)
    requires NoAcks(line.buffer)
    ensures AckList(Objects(loads, line.incoming))
         == AckIn(NextReply(loads, line)) + AckList(Objects(loads, AfterNext(loads, line).incoming))
    ensures NoAcks(AfterNext(loads, line).buffer)
  {
    hide Objects, FirstObject, IsKind, AckList;
    if line.buffer != [] {
      assert line.buffer[0] in line.buffer;
    } else {
      var f := FirstObject(loads, line.incoming);
      FirstObjectTakes(loads, line.incoming);
      AckListConcat(Maybe(f.message), Objects(loads, f.rest));
      match f.message
      case None =>
        NoAcksNone([]);
      case Some(message) =>
        AckListOfOne(message);
    }
  }

  /** Over any run of calls on any stream, the acks the caller is handed are exactly the
      room's acks in arrival order; those not handed out are still on the wire. */
  lemma {:induction false} AcksInOrder(loads: Loads, line: Line, calls: seq<Call>)
    requires NoAcks(line.buffer)
    ensures var end := AfterAll(loads, line, calls);
            && AckList(Objects(loads, line.incoming))
               == AcksHeard(Replies(loads, line, calls)) + AckList(Objects(loads, end.incoming))
            && NoAcks(end.buffer)
    decreases |calls|
  {
    hide Objects, AckList, ReplyTo, After, AckIn, NoAcks;
    if calls != [] {
      var next := After(loads, line, calls[0]);
      var reply, later := ReplyTo(loads, line, calls[0]), Replies(loads, next, calls[1..]);
      CallHandsAck(loads, line, calls[0]);
      AcksInOrder(loads, next, calls[1..]);
      assert ([reply] + later)[1..] == later;
      Joined(AckIn(reply), AcksHeard(later), AckList(Objects(loads, AfterAll(loads, next, calls[1..]).incoming)));
    }
  }

  lemma CallHandsAck(loads: Loads, line: Line, call: Call)
    requires NoAcks(line.buffer)
    ensures AckList(Objects(loads, line.incoming))
         == AckIn(ReplyTo(loads, line, call)) + AckList(Objects(loads, After(loads, line, call).incoming))
    ensures NoAcks(After(loads, line, call).buffer)
  {
    if call.Submit? {
      SubmitHandsAck(loads, line);
    } else {
      NextHandsAck(loads, line);
    }
  }

  /** A run in the middle: what was replied before call i, and the line it found. */
  lemma {:induction false} RepliesAt(loads: Loads, line: Line, calls: seq<Call>, i: nat)
    requires i < |calls|
    ensures Replies(loads, line, calls)[..i] == Replies(loads, line, calls[..i])
    ensures Replies(loads, line, calls)[i] == ReplyTo(loads, AfterAll(loads, line, calls[..i]), calls[i])
    decreases |calls|
  {
    hide ReplyTo, After;
    var next := After(loads, line, calls[0]);
    var later := Replies(loads, next, calls[1..]);
    if i > 0 {
      RepliesAt(loads, next, calls[1..], i - 1);
      assert calls[..i][0] == calls[0] && calls[..i][1..] == calls[1..][..i - 1];
    }
  }

  ghost predicate AllDifferent(messages: seq<Json>) {
    forall i, j :: 0 <= i < j < |messages| ==> messages[i] != messages[j]
  }

  /** The room acks payloads in the order they were submitted, so payload number m's own ack
      is ack number m. In any run, an answered submit takes the ack whose number is the
      number of acks handed out before it; and it is the submit's own if and only if that
      is the number of payloads submitted before it. */
  lemma AckIsOwn(loads: Loads, line: Line, calls: seq<Call>, i: nat)
    requires NoAcks(line.buffer) && i < |calls| && calls[i].Submit? && Replies(loads, line, calls)[i].Acked?
    ensures var acks, replies := AckList(Objects(loads, line.incoming)), Replies(loads, line, calls);
            var ack, heard, m := replies[i].ack, |AcksHeard(replies[..i])|, SubmitsIn(calls[..i]);
            && heard < |acks| && ack == acks[heard]
            && (heard == m ==> m < |acks| && ack == acks[m])
            && (AllDifferent(acks) ==> (m < |acks| && ack == acks[m] <==> heard == m))
  {
    RepliesAt(loads, line, calls, i);
    hide Objects, AckList, AcksHeard, Replies, AfterAll, SubmitsIn;
    var found := AfterAll(loads, line, calls[..i]);
    AcksInOrder(loads, line, calls[..i]);
    SubmitHandsAck(loads, found);
    var heard := AcksHeard(Replies(loads, line, calls[..i]));
    var left := AckList(Objects(loads, found.incoming));
    assert left[0] == SubmitReply(loads, found).ack;
    assert (heard + left)[|heard|] == left[0];
  }

  /** In a run of submits alone every submit so far has its own ack exactly when none was
      refused. */
  lemma {:induction false} OwnUntilRefused(loads: Loads, line: Line, calls: seq<Call>)
    requires forall i :: 0 <= i < |calls| ==> calls[i].Submit?
    ensures |AcksHeard(Replies(loads, line, calls))| <= SubmitsIn(calls) == |calls|
    ensures |AcksHeard(Replies(loads, line, calls))| == SubmitsIn(calls)
       <==> Refused !in Replies(loads, line, calls)
    decreases |calls|
  {
    hide AfterSubmit, AwaitAck;
    if calls != [] {
      var next := After(loads, line, calls[0]);
      var reply, later := ReplyTo(loads, line, calls[0]), Replies(loads, next, calls[1..]);
      OwnUntilRefused(loads, next, calls[1..]);
      assert ([reply] + later)[1..] == later;
      assert Refused in [reply] + later <==> reply == Refused || Refused in later;
    }
  }

  /** So a run of submits in which none is refused hands each its own ack. */
  lemma SubmitsOwnAcks(loads: Loads, line: Line, calls: seq<Call>)
    requires NoAcks(line.buffer) && forall i :: 0 <= i < |calls| ==> calls[i].Submit?
    requires Refused !in Replies(loads, line, calls)
    ensures var acks := AckList(Objects(loads, line.incoming));
            |calls| <= |acks| && AcksHeard(Replies(loads, line, calls)) == acks[..|calls|]
  {
    hide Objects, AckList, AcksHeard, Replies, AfterAll, SubmitsIn;
    AcksInOrder(loads, line, calls);
    OwnUntilRefused(loads, line, calls);
  }

  /** The condition can fail: after a submit timed out, the next one takes the late ack. */
  lemma LateAckIsTaken(loads: Loads, text: string, ack: Json, buffer: seq<Json>)
    requires loads(text) == Some(ack) && IsKind(ack, "ack")
    ensures Replies(loads, Line([Silence, Arrived(text)], buffer), [Submit, Submit]) == [Refused, Acked(ack)]
  {
    var stream, last := [Silence, Arrived(text)], [Arrived(text)];
    assert stream[1..] == last;
    var line, next := Line(stream, buffer), Line(last, buffer);
    assert AwaitAck(loads, stream) == Awaited(None, [], last);
    assert AfterSubmit(loads, line) == next;
    assert AwaitAck(loads, last).ack == Some(ack);
    var calls, one := [Submit, Submit], [Submit];
    assert calls[1..] == one && one[1..] == [];
    assert Replies(loads, next, one) == [Acked(ack)] + [];
  }

  // ---- the connection itself -------------------------------------------------------------------

  class RoomConnection {
    const loads: Loads
    var incoming: seq<Incoming>
    var sent: seq<Json>
    var buffer: seq<Json>

    constructor (loads: Loads, incoming: seq<Incoming>)
      ensures this.loads == loads && Held() == Line(incoming, []) && sent == []
    {
      this.loads := loads;
      this.incoming, this.sent, this.buffer := incoming, [], [];
    }

    function Held(): Line
      reads this
    {
      Line(incoming, buffer)
    }

    method Backlog() returns (frames: seq<Json>)
      modifies `incoming
      ensures frames == UpToSync(loads, old(incoming)).frames
      ensures incoming == UpToSync(loads, old(incoming)).rest
    {
      frames := [];
      ghost var all := UpToSync(loads, incoming);
      while incoming != []
        invariant all == var later := UpToSync(loads, incoming); later.(frames := frames + later.frames)
        decreases |incoming|
      {
        var event := incoming[0];
        incoming := incoming[1..];
        if event.Silence? {
          return;
        }
        var message := MessageOf(loads, event);
        if message.None? {
          continue;
        }
        if IsKind(message.value, "sync") {
          return;
        }
        frames := frames + [message.value];
      }
    }

    method NextFrame() returns (reply: Reply)
      modifies `incoming, `buffer
      ensures reply == NextReply(loads, old(Held()))
      ensures Held() == AfterNext(loads, old(Held()))
    {
      if buffer != [] {
        reply := Delivered(buffer[0]);
        buffer := buffer[1..];
        return;
      }
      while incoming != []
        invariant buffer == []
        invariant FirstObject(loads, incoming) == FirstObject(loads, old(incoming))
        decreases |incoming|
      {
        var event := incoming[0];
        incoming := incoming[1..];
        if event.Silence? {
          return TimedOut;
        }
        var message := MessageOf(loads, event);
        if message.Some? {
          return Delivered(message.value);
        }
      }
      reply := Over;
    }

    method Submit(payload: Json) returns (reply: Reply)
      modifies this
      ensures reply == SubmitReply(loads, old(Held()))
      ensures Held() == AfterSubmit(loads, old(Held()))
      ensures sent == old(sent) + [payload]
    {
      sent := sent + [payload];
      ghost var kept: seq<Json> := [];
      while incoming != []
        invariant AwaitAck(loads, old(incoming))
               == var later := AwaitAck(loads, incoming); later.(kept := kept + later.kept)
        invariant buffer == old(buffer) + kept
        invariant sent == old(sent) + [payload]
        decreases |incoming|
      {
        var event := incoming[0];
        incoming := incoming[1..];
        if event.Silence? {
          return Refused;
        }
        var message := MessageOf(loads, event);
        if message.None? {
          continue;
        }
        if IsKind(message.value, "ack") {
          return Acked(message.value);
        }
        Joined(kept, [message.value], AwaitAck(loads, incoming).kept);
        Joined(old(buffer), kept, [message.value]);
        kept := kept + [message.value];
        buffer := buffer + [message.value];
      }
      reply := Refused;
    }
  }
}
