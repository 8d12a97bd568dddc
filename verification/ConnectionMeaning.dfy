/** What one call on a connection reads, told by places in the stream: where it stops, what it
    answers, and which arrivals it keeps. */
module ConnectionMeaning {
  import opened Json
  import opened RoomConnections
  import opened Sequences
  import opened Wrappers

  /** The arrival is text that decodes to this object. */
  predicate Carries(loads: Loads, event: Incoming, message: Json) {
    event.Arrived? && message.Obj? && loads(event.text) == Some(message)
  }

  predicate IsOf(message: Json, kind: string) {
    message.Obj? && "kind" in message.fields && message.fields["kind"] == Str(kind)
  }

  function OfKind(kind: string): Json -> bool {
    message => IsOf(message, kind)
  }

  function Anything(): Json -> bool {
    message => true
  }

  lemma MessageMeaning(loads: Loads, event: Incoming)
    ensures forall message :: Carries(loads, event, message) <==> MessageOf(loads, event) == Some(message)
    ensures forall message, kind :: IsOf(message, kind) <==> IsKind(message, kind)
  {
  }

  // ---- the objects of a stream -------------------------------------------------------------------

  /** The places at, in ascending order, are where the arrivals that carry an object stand. */
  ghost predicate ObjectsAt(loads: Loads, incoming: seq<Incoming>, at: seq<nat>, messages: seq<Json>) {
    && |at| == |messages|
    && (forall j, k :: 0 <= j < k < |at| ==> at[j] < at[k])
    && (forall k :: 0 <= k < |at| ==> at[k] < |incoming| && Carries(loads, incoming[at[k]], messages[k]))
    && (forall i: nat, message :: i < |incoming| && Carries(loads, incoming[i], message) ==> i in at)
  }

  lemma ObjectsAtLater(loads: Loads, incoming: seq<Incoming>, at: seq<nat>, messages: seq<Json>)
    requires incoming != [] && ObjectsAt(loads, incoming[1..], at, messages)
    requires forall message :: !Carries(loads, incoming[0], message)
    ensures ObjectsAt(loads, incoming, Shifted(at), messages)
  {
    hide Carries;
    var later := Shifted(at);
    forall i: nat, message | i < |incoming| && Carries(loads, incoming[i], message)
      ensures i in later
    {
      assert incoming[i] == incoming[1..][i - 1];
      ShiftedIn(at, i);
    }
    forall k | 0 <= k < |later|
      ensures later[k] < |incoming| && Carries(loads, incoming[later[k]], messages[k])
    {
      assert incoming[later[k]] == incoming[1..][at[k]];
    }
  }

  lemma ConsAt<T>(head: T, tail: seq<T>)
    ensures ([head] + tail)[0] == head && |[head] + tail| == |tail| + 1
    ensures forall k :: 0 < k <= |tail| ==> ([head] + tail)[k] == tail[k - 1]
  {
  }

  lemma ObjectsAtCons(loads: Loads, incoming: seq<Incoming>, at: seq<nat>, messages: seq<Json>,
                      all: seq<nat>, found: seq<Json>)
    requires incoming != [] && ObjectsAt(loads, incoming[1..], at, messages)
    requires |all| == |at| + 1 && all[0] == 0 && forall k :: 0 < k < |all| ==> all[k] == at[k - 1] + 1
    requires |found| == |messages| + 1 && forall k :: 0 < k < |found| ==> found[k] == messages[k - 1]
    requires Carries(loads, incoming[0], found[0])
    ensures ObjectsAt(loads, incoming, all, found)
  {
    hide Carries;
    forall i: nat, message | i < |incoming| && Carries(loads, incoming[i], message)
      ensures i in all
    {
      if i > 0 {
        assert incoming[i] == incoming[1..][i - 1];
        var k :| 0 <= k < |at| && at[k] == i - 1;
        assert all[k + 1] == i;
      }
    }
    forall k | 0 <= k < |all|
      ensures all[k] < |incoming| && Carries(loads, incoming[all[k]], found[k])
    {
      if k > 0 {
        assert incoming[all[k]] == incoming[1..][at[k - 1]];
      }
    }
  }

  lemma ObjectsAtFirst(loads: Loads, incoming: seq<Incoming>, at: seq<nat>, messages: seq<Json>, found: Json)
    requires incoming != [] && ObjectsAt(loads, incoming[1..], at, messages) && Carries(loads, incoming[0], found)
    ensures ObjectsAt(loads, incoming, [0] + Shifted(at), [found] + messages)
  {
    hide Carries;
    assert |at| == |messages|;
    hide ObjectsAt, Shifted;
    ConsAt<nat>(0, Shifted(at));
    ConsAt(found, messages);
    ObjectsAtCons(loads, incoming, at, messages, [0] + Shifted(at), [found] + messages);
  }

  /** The objects of a stream are those its arrivals carry, each once and in arrival order. */
  lemma {:induction false} ObjectsMeaning(loads: Loads, incoming: seq<Incoming>) returns (at: seq<nat>)
    ensures ObjectsAt(loads, incoming, at, Objects(loads, incoming))
    decreases |incoming|
  {
    at := [];
    if incoming != [] {
      var found := MessageOf(loads, incoming[0]);
      MessageMeaning(loads, incoming[0]);
      hide MessageOf, Carries, ObjectsAt;
      ObjectsStep(loads, incoming);
      var rest := ObjectsMeaning(loads, incoming[1..]);
      if found.Some? {
        ObjectsAtFirst(loads, incoming, rest, Objects(loads, incoming[1..]), found.value);
        at := [0] + Shifted(rest);
      } else {
        ObjectsAtLater(loads, incoming, rest, Objects(loads, incoming[1..]));
        at := Shifted(rest);
      }
    }
  }

  lemma ObjectsFirst(loads: Loads, incoming: seq<Incoming>, n: nat)
    requires 0 < n <= |incoming|
    ensures Objects(loads, incoming[..n])
            == Maybe(MessageOf(loads, incoming[0])) + Objects(loads, incoming[1..][..n - 1])
  {
    assert incoming[..n][0] == incoming[0] && incoming[..n][1..] == incoming[1..][..n - 1];
    hide MessageOf;
  }

  // ---- where a call stops --------------------------------------------------------------------------

  /** The first n arrivals are text, none of it an object of those waited for. */
  ghost predicate Waiting(loads: Loads, incoming: seq<Incoming>, n: int, wanted: Json -> bool) {
    && n <= |incoming|
    && forall j :: 0 <= j < n ==> incoming[j].Arrived?
                                  && forall message :: Carries(loads, incoming[j], message) ==> !wanted(message)
  }

  /** The wait ends in vain: at a silence, or at the end of the stream. */
  ghost predicate InVain(loads: Loads, incoming: seq<Incoming>, n: nat, wanted: Json -> bool) {
    || (n == |incoming| && Waiting(loads, incoming, n, wanted))
    || (0 < n <= |incoming| && Waiting(loads, incoming, n - 1, wanted) && incoming[n - 1].Silence?)
  }

  /** A wait that takes the first n arrivals: up to the first object wanted, which it gives, or
      in vain; the other objects in front are kept, and what is behind is left. */
  ghost predicate WaitsFor(loads: Loads, incoming: seq<Incoming>, wanted: Json -> bool, w: Awaited, n: nat) {
    && n <= |incoming| && w.rest == incoming[n..]
    && match w.ack
       case Some(message) =>
         && n > 0 && Waiting(loads, incoming, n - 1, wanted)
         && Carries(loads, incoming[n - 1], message) && wanted(message)
         && w.kept == Objects(loads, incoming[..n - 1])
       case None => InVain(loads, incoming, n, wanted) && w.kept == Objects(loads, incoming[..n])
  }

  lemma WaitsNow(loads: Loads, incoming: seq<Incoming>, wanted: Json -> bool)
    requires incoming != []
    ensures incoming[0].Silence? ==> WaitsFor(loads, incoming, wanted, Awaited(None, [], incoming[1..]), 1)
    ensures forall message :: Carries(loads, incoming[0], message) && wanted(message) ==>
              WaitsFor(loads, incoming, wanted, Awaited(Some(message), [], incoming[1..]), 1)
  {
    assert incoming[..0] == [];
    ObjectsFirst(loads, incoming, 1);
    assert incoming[1..][..0] == [];
  }

  lemma WaitsLonger(loads: Loads, incoming: seq<Incoming>, wanted: Json -> bool, w: Awaited, n: nat)
    requires incoming != [] && incoming[0].Arrived? && WaitsFor(loads, incoming[1..], wanted, w, n)
    requires forall message :: Carries(loads, incoming[0], message) ==> !wanted(message)
    ensures var found := MessageOf(loads, incoming[0]);
            WaitsFor(loads, incoming, wanted, w.(kept := Maybe(found) + w.kept), n + 1)
  {
    var rest := incoming[1..];
    ObjectsFirst(loads, incoming, n + 1);
    if n > 0 {
      ObjectsFirst(loads, incoming, n);
    }
    assert incoming[n + 1..] == rest[n..];
    hide MessageOf, Carries, Objects;
    forall j | 0 < j < |incoming|
      ensures incoming[j] == rest[j - 1]
    {
    }
  }

  /** `submit` waits for the first ack. */
  lemma {:induction false} AwaitMeaning(loads: Loads, incoming: seq<Incoming>) returns (n: nat)
    ensures WaitsFor(loads, incoming, OfKind("ack"), AwaitAck(loads, incoming), n)
    decreases |incoming|
  {
    n := 0;
    if incoming != [] {
      var found := MessageOf(loads, incoming[0]);
      MessageMeaning(loads, incoming[0]);
      WaitsNow(loads, incoming, OfKind("ack"));
      hide MessageOf, Carries, IsOf, IsKind, WaitsFor;
      if incoming[0].Silence? || (found.Some? && IsKind(found.value, "ack")) {
        n := 1;
      } else {
        n := AwaitMeaning(loads, incoming[1..]);
        WaitsLonger(loads, incoming, OfKind("ack"), AwaitAck(loads, incoming[1..]), n);
        n := n + 1;
      }
    }
  }

  /** `backlog` waits for the first sync marker. */
  lemma {:induction false} BacklogMeaning(loads: Loads, incoming: seq<Incoming>) returns (n: nat)
    ensures var h := UpToSync(loads, incoming);
            WaitsFor(loads, incoming, OfKind("sync"), Awaited(h.sync, h.frames, h.rest), n)
    decreases |incoming|
  {
    n := 0;
    if incoming != [] {
      var found := MessageOf(loads, incoming[0]);
      MessageMeaning(loads, incoming[0]);
      WaitsNow(loads, incoming, OfKind("sync"));
      hide MessageOf, Carries, IsOf, IsKind, WaitsFor;
      if incoming[0].Silence? || (found.Some? && IsKind(found.value, "sync")) {
        n := 1;
      } else {
        n := BacklogMeaning(loads, incoming[1..]);
        var h := UpToSync(loads, incoming[1..]);
        WaitsLonger(loads, incoming, OfKind("sync"), Awaited(h.sync, h.frames, h.rest), n);
        n := n + 1;
      }
    }
  }

  /** `next_frame` with nothing kept waits for the first object of any kind, and tells a silence
      from the end. */
  lemma {:induction false} FirstMeaning(loads: Loads, incoming: seq<Incoming>) returns (n: nat)
    ensures var f := FirstObject(loads, incoming);
            && WaitsFor(loads, incoming, Anything(), Awaited(f.message, [], f.rest), n)
            && (f.timedOut <==> f.message.None? && n > 0 && incoming[n - 1].Silence?)
    decreases |incoming|
  {
    n := 0;
    if incoming != [] {
      var found := MessageOf(loads, incoming[0]);
      MessageMeaning(loads, incoming[0]);
      WaitsNow(loads, incoming, Anything());
      hide MessageOf, Carries, IsOf, IsKind, WaitsFor;
      if incoming[0].Silence? || found.Some? {
        n := 1;
      } else {
        n := FirstMeaning(loads, incoming[1..]);
        var f := FirstObject(loads, incoming[1..]);
        WaitsLonger(loads, incoming, Anything(), Awaited(f.message, [], f.rest), n);
        n := n + 1;
      }
    }
  }

  // ---- the calls ----------------------------------------------------------------------------------

  /** A submit answers with the first ack behind it or is refused, keeps behind what was kept
      before every object it passed, and leaves the rest of the stream. */
  lemma SubmitMeaning(loads: Loads, line: Line) returns (w: Awaited, n: nat)
    ensures WaitsFor(loads, line.incoming, OfKind("ack"), w, n)
    ensures SubmitReply(loads, line) == if w.ack.Some? then Acked(w.ack.value) else Refused
    ensures AfterSubmit(loads, line) == Line(line.incoming[n..], line.buffer + w.kept)
  {
    w := AwaitAck(loads, line.incoming);
    n := AwaitMeaning(loads, line.incoming);
    hide AwaitAck, Waiting, InVain, Carries, Objects;
  }

  /** A read hands out what was kept first, oldest first, and touches the stream only when
      nothing is kept; then it delivers the first object, or tells a silence from the end. */
  lemma NextMeaning(loads: Loads, line: Line) returns (w: Awaited, n: nat)
    ensures line.buffer != [] ==>
              NextReply(loads, line) == Delivered(line.buffer[0])
              && AfterNext(loads, line) == Line(line.incoming, line.buffer[1..])
    ensures WaitsFor(loads, line.incoming, Anything(), w, n) && w.kept == []
    ensures line.buffer == [] ==>
              && AfterNext(loads, line) == Line(line.incoming[n..], [])
              && NextReply(loads, line) == if w.ack.Some? then Delivered(w.ack.value)
                                           else if n > 0 && line.incoming[n - 1].Silence? then TimedOut else Over
  {
    var f := FirstObject(loads, line.incoming);
    w := Awaited(f.message, [], f.rest);
    n := FirstMeaning(loads, line.incoming);
    hide FirstObject, Waiting, InVain, Carries, Objects;
  }
}
