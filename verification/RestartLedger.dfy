/** What a restart is told, from the events alone: the key and the value that were the last
    written when its worker read them, one after the other. */
module RestartLedgers {
  import opened Restarts
  import opened Sequences
  import opened Wrappers

  // ---- the events, counted -------------------------------------------------------------------

  /** How many steps call i has made. */
  function Acts(events: seq<Event>, i: nat): nat {
    if events == [] then 0 else Acts(Front(events), i) + if Final(events) == Act(i) then 1 else 0
  }

  function Calls(events: seq<Event>): nat {
    if events == [] then 0 else Calls(Front(events)) + if Final(events) == Call then 1 else 0
  }

  /** The call that wrote the key last, which is each call's first step. */
  function KeyWriter(events: seq<Event>): Option<nat> {
    if events == [] then None
    else if Final(events).Act? && Acts(Front(events), Final(events).i) == 0 then Some(Final(events).i)
    else KeyWriter(Front(events))
  }

  /** The call that wrote the value last, which is its second. */
  function ValueWriter(events: seq<Event>): Option<nat> {
    if events == [] then None
    else if Final(events).Act? && Acts(Front(events), Final(events).i) == 1 then Some(Final(events).i)
    else ValueWriter(Front(events))
  }

  /** Event m is call i's last step, and this was the last key written before it. */
  ghost predicate KeyReadAt(events: seq<Event>, i: nat, key: nat, m: nat) {
    && m < |events| && events[m] == Act(i) && KeyWriter(events[..m]) == Some(key)
    && forall j :: m < j < |events| ==> events[j] != Act(i)
  }

  /** Events m and n are call i's last two steps; the first saw this key and the second this
      value as the last written. */
  ghost predicate BothReadAt(events: seq<Event>, i: nat, key: nat, value: nat, m: nat, n: nat) {
    && m < n < |events| && events[m] == Act(i) == events[n]
    && KeyWriter(events[..m]) == Some(key) && ValueWriter(events[..n]) == Some(value)
    && forall j :: m < j < |events| && j != n ==> events[j] != Act(i)
  }

  ghost predicate PlaceTold(place: Place, events: seq<Event>, i: nat) {
    && (place.Begun? <==> Acts(events, i) == 0)
    && (place.KeySet? <==> Acts(events, i) == 1)
    && (place.ValueSet? <==> Acts(events, i) == 2)
    && (place.KeyRead? ==> exists m :: KeyReadAt(events, i, place.key, m))
    && (place.Ready? ==> exists m, n :: BothReadAt(events, i, place.key, place.value, m, n))
  }

  ghost predicate Ledger(s: State, events: seq<Event>) {
    && s.key == KeyWriter(events) && s.value == ValueWriter(events)
    && |s.places| == Calls(events)
    && (forall i :: i >= |s.places| ==> Acts(events, i) == 0)
    && forall i :: 0 <= i < |s.places| ==> PlaceTold(s.places[i], events, i)
  }

  lemma AppendedFront(events: seq<Event>, e: Event)
    ensures Front(events + [e]) == events && Final(events + [e]) == e
  {
    assert (events + [e])[..|events|] == events;
  }

  /** A call that does not step keeps its place and what is told of it. */
  lemma OthersTold(place: Place, events: seq<Event>, e: Event, i: nat)
    requires PlaceTold(place, events, i) && e != Act(i)
    ensures PlaceTold(place, events + [e], i)
  {
    var more := events + [e];
    AppendedFront(events, e);
    assert forall m: nat :: m <= |events| ==> more[..m] == events[..m];
    if place.KeyRead? {
      var m :| KeyReadAt(events, i, place.key, m);
      assert KeyReadAt(more, i, place.key, m);
    } else if place.Ready? {
      var m, n :| BothReadAt(events, i, place.key, place.value, m, n);
      assert BothReadAt(more, i, place.key, place.value, m, n);
    }
  }

  lemma ActorTold(s: State, events: seq<Event>, i: nat)
    requires Ledger(s, events) && Enabled(s, Act(i))
    ensures PlaceTold(Step(s, Act(i)).places[i], events + [Act(i)], i)
  {
    var e := Act(i);
    var more, place := events + [e], Step(s, e).places[i];
    AppendedFront(events, e);
    assert forall m: nat :: m <= |events| ==> more[..m] == events[..m];
    assert events[..|events|] == events;
    assert PlaceTold(s.places[i], events, i);
    hide FlaggedCalls;
    if s.places[i].Cleared? {
      assert KeyReadAt(more, i, place.key, |events|);
    } else if s.places[i].KeyRead? {
      var m :| KeyReadAt(events, i, s.places[i].key, m);
      assert BothReadAt(more, i, place.key, place.value, m, |events|);
    }
  }

  lemma WritersStep(s: State, events: seq<Event>, e: Event)
    requires Ledger(s, events) && Enabled(s, e)
    ensures var t, more := Step(s, e), events + [e];
            t.key == KeyWriter(more) && t.value == ValueWriter(more) && |t.places| == Calls(more)
    ensures e == Call ==> Step(s, e).places == s.places + [Begun]
  {
    AppendedFront(events, e);
    hide FlaggedCalls;
    if e.Act? {
      assert PlaceTold(s.places[e.i], events, e.i);
    }
  }

  lemma LedgerStep(s: State, events: seq<Event>, e: Event)
    requires Ledger(s, events) && Enabled(s, e)
    ensures Ledger(Step(s, e), events + [e])
  {
    var t, more := Step(s, e), events + [e];
    AppendedFront(events, e);
    StepEffect(s, e);
    if e.Act? {
      ActorTold(s, events, e.i);
      assert PlaceTold(s.places[e.i], events, e.i);
    }
    WritersStep(s, events, e);
    hide FlaggedCalls, PlaceTold, Step;
    forall i: nat
      ensures i >= |t.places| ==> Acts(more, i) == 0
    {
      assert i >= |t.places| ==> Acts(events, i) == 0 && e != Act(i);
    }
    forall i | 0 <= i < |t.places|
      ensures PlaceTold(t.places[i], more, i)
    {
      if e != Act(i) && i < |s.places| {
        OthersTold(s.places[i], events, e, i);
      } else if e != Act(i) {
        NewCall(events, i);
      }
    }
  }

  lemma NewCall(events: seq<Event>, i: nat)
    requires Acts(events, i) == 0
    ensures PlaceTold(Begun, events + [Call], i)
  {
    AppendedFront(events, Call);
  }

  lemma {:induction false} LedgerRun(events: seq<Event>)
    requires Run(INITIAL, events)
    ensures Ledger(After(INITIAL, events), events)
    decreases |events|
  {
    if events == [] {
      NoEvents();
    } else {
      assert events == Front(events) + [Final(events)];
      RunPrefix(INITIAL, Front(events), Final(events));
      LedgerRun(Front(events));
      hide Ledger, Step, Run, After, Enabled;
      LedgerStep(After(INITIAL, Front(events)), Front(events), Final(events));
    }
  }

  lemma NoEvents()
    ensures Ledger(INITIAL, [])
  {
  }

  /** A call has set the flag exactly when it has made its third step. */
  lemma FlaggedIsThird(events: seq<Event>, i: nat)
    requires Run(INITIAL, events)
    ensures i in FlaggedCalls(After(INITIAL, events).places) <==> Acts(events, i) >= 3
  {
    LedgerRun(events);
    var s := After(INITIAL, events);
    assert i < |s.places| ==> PlaceTold(s.places[i], events, i);
  }

  /** In any run a restart starts only as some call's step, and is told the key that was the
      last written when its worker read the key, in its step before last, and the value that
      was the last written when it read the value, in its last. */
  lemma ToldTheLastWritten(events: seq<Event>, e: Event) returns (m: nat, n: nat)
    requires Run(INITIAL, events + [e])
    ensures Run(INITIAL, events)
    ensures var before, after := After(INITIAL, events).restarts, After(INITIAL, events + [e]).restarts;
            || after == before
            || (e.Act? && m < n < |events| && KeyWriter(events[..m]).Some? && ValueWriter(events[..n]).Some?
                && BothReadAt(events, e.i, KeyWriter(events[..m]).value, ValueWriter(events[..n]).value, m, n)
                && after == before + [Reason(KeyWriter(events[..m]).value, ValueWriter(events[..n]).value)])
  {
    RunPrefix(INITIAL, events, e);
    LedgerRun(events);
    var s := After(INITIAL, events);
    m, n := 0, 0;
    hide Run, After, FlaggedCalls;
    if e.Act? && s.places[e.i].Ready? {
      assert PlaceTold(s.places[e.i], events, e.i);
      m, n :| BothReadAt(events, e.i, s.places[e.i].key, s.places[e.i].value, m, n);
    }
  }
}
