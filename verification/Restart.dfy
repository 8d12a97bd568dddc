/** The serialized, coalesced network restart: any number of config changes call
    `_schedule_network_restart` at once; a lock and a flag let one worker restart at a time
    and fold a burst of changes into one restart. Each step is one access to shared state. */
module Restarts {
  import opened Wrappers

  /** Where a call is, and after it has taken the lock, where the worker it spawned is. */
  datatype Place =
    | Begun
    | KeySet
    | ValueSet
    | Flagged
    | Coalesced
    | Checking
    | Sleeping
    | Cleared
    | KeyRead(key: nat)
    | Ready(key: nat, value: nat)
    | Restarting
    | AboutToRelease
    | Finished

  /** What a restart is told changed: whose key and whose value. */
  datatype Reason = Reason(key: nat, value: nat)

  datatype State = State(
    locked: bool,
    pending: bool,
    key: Option<nat>,
    value: Option<nat>,
    places: seq<Place>,
    covered: set<nat>,
    clears: nat,
    restarts: seq<Reason>)

  const INITIAL := State(false, false, None, None, [], {}, 0, [])

  /** A new call, or one more step of call i or its worker. */
  datatype Event = Call | Act(i: nat)

  predicate Enabled(s: State, e: Event) {
    match e
    case Call => true
    case Act(i) => && i < |s.places|
                   && !s.places[i].Coalesced? && !s.places[i].Finished?
                   && (s.places[i].Cleared? ==> s.key.Some?)
                   && (s.places[i].KeyRead? ==> s.value.Some?)
  }

  /** The calls that have set the flag. */
  predicate HasFlagged(place: Place) {
    !place.Begun? && !place.KeySet? && !place.ValueSet?
  }

  function FlaggedCalls(places: seq<Place>): set<nat> {
    set i: nat | i < |places| && HasFlagged(places[i])
  }

  /** `covered` records the calls whose flag was set before some restart started. */
  function Step(s: State, e: Event): State
    requires Enabled(s, e)
  {
    match e
    case Call => s.(places := s.places + [Begun])
    case Act(i) =>
      match s.places[i]
      case Begun => s.(key := Some(i), places := s.places[i := KeySet])
      case KeySet => s.(value := Some(i), places := s.places[i := ValueSet])
      case ValueSet => s.(pending := true, places := s.places[i := Flagged])
      case Flagged =>
        if s.locked then s.(places := s.places[i := Coalesced])
        else s.(locked := true, places := s.places[i := Checking])
      case Checking => s.(places := s.places[i := if s.pending then Sleeping else AboutToRelease])
      case Sleeping => s.(pending := false, clears := s.clears + 1, places := s.places[i := Cleared])
      case Cleared => s.(places := s.places[i := KeyRead(s.key.value)])
      case KeyRead(key) => s.(places := s.places[i := Ready(key, s.value.value)])
      case Ready(key, value) =>
        s.(restarts := s.restarts + [Reason(key, value)],
           covered := FlaggedCalls(s.places),
           places := s.places[i := Restarting])
      case Restarting => s.(places := s.places[i := Checking])
      case AboutToRelease => s.(locked := false, places := s.places[i := Finished])
      case _ => s
  }

  ghost predicate Run(s: State, events: seq<Event>)
    decreases |events|
  {
    events != [] ==> Enabled(s, events[0]) && Run(Step(s, events[0]), events[1..])
  }

  function After(s: State, events: seq<Event>): State
    requires Run(s, events)
    decreases |events|
  {
    if events == [] then s else After(Step(s, events[0]), events[1..])
  }

  // ---- the invariant ------------------------------------------------------------------------

  predicate HoldsLock(place: Place) {
    HasFlagged(place) && !place.Flagged? && !place.Coalesced? && !place.Finished?
  }

  /** Past its clear and not yet restarting. */
  predicate AboutToRestart(place: Place) {
    place.Cleared? || place.KeyRead? || place.Ready?
  }

  ghost predicate RestartDue(s: State) {
    exists j :: 0 <= j < |s.places| && AboutToRestart(s.places[j])
  }

  ghost predicate Exclusive(s: State) {
    && (forall i, j :: (0 <= i < |s.places| && 0 <= j < |s.places| && HoldsLock(s.places[i]) && HoldsLock(s.places[j]))
                       ==> i == j)
    && (s.locked <==> exists i :: 0 <= i < |s.places| && HoldsLock(s.places[i]))
  }

  ghost predicate Served(s: State) {
    && s.covered <= FlaggedCalls(s.places)
    && forall i :: i in FlaggedCalls(s.places) ==>
      i in s.covered || s.pending || RestartDue(s)
  }

  ghost predicate Counted(s: State) {
    && s.clears + (if s.pending then 1 else 0) <= |FlaggedCalls(s.places)|
    && |s.restarts| + (if RestartDue(s) then 1 else 0) == s.clears
  }

  ghost predicate Asleep(s: State) {
    forall i :: 0 <= i < |s.places| && s.places[i].Sleeping? ==> s.pending
  }

  /** Once any call has flagged, there is a key and a value to restart with. */
  ghost predicate Told(s: State) {
    && (forall i :: 0 <= i < |s.places| && !s.places[i].Begun? ==> s.key.Some?)
    && (forall i :: 0 <= i < |s.places| && !s.places[i].Begun? && !s.places[i].KeySet? ==> s.value.Some?)
    && (s.key.Some? ==> s.key.value < |s.places|)
    && (s.value.Some? ==> s.value.value < |s.places|)
    && (forall i :: 0 <= i < |s.places| && s.places[i].KeyRead? ==> s.places[i].key < |s.places|)
    && (forall i :: 0 <= i < |s.places| && s.places[i].Ready? ==>
          s.places[i].key < |s.places| && s.places[i].value < |s.places|)
    && (forall r :: r in s.restarts ==> r.key < |s.places| && r.value < |s.places|)
  }

  ghost predicate Inv(s: State) {
    Exclusive(s) && Served(s) && Counted(s) && Asleep(s) && Told(s)
  }

  lemma FlaggedStep(s: State, e: Event)
    requires Enabled(s, e)
    ensures var t := Step(s, e);
            FlaggedCalls(t.places)
            == FlaggedCalls(s.places) + (if e.Act? && s.places[e.i].ValueSet? then {e.i} else {})
    ensures e.Act? && s.places[e.i].ValueSet? ==> e.i !in FlaggedCalls(s.places)
  {
  }

  /** What a step does to the flag and to the records of it. */
  lemma StepEffect(s: State, e: Event)
    requires Enabled(s, e)
    ensures var t := Step(s, e);
            && t.covered == (if e.Act? && s.places[e.i].Ready? then FlaggedCalls(s.places) else s.covered)
            && t.clears == s.clears + (if e.Act? && s.places[e.i].Sleeping? then 1 else 0)
            && t.pending == (if e.Act? && s.places[e.i].ValueSet? then true
                             else if e.Act? && s.places[e.i].Sleeping? then false else s.pending)
    ensures forall j :: 0 <= j < |s.places| && !(e.Act? && e.i == j) ==>
              j < |Step(s, e).places| && Step(s, e).places[j] == s.places[j]
    ensures e.Act? ==> e.i < |s.places| == |Step(s, e).places|
  {
    hide FlaggedCalls;
  }

  lemma ExclusiveStep(s: State, e: Event)
    requires Exclusive(s) && Enabled(s, e)
    ensures Exclusive(Step(s, e))
  {
    hide FlaggedCalls;
    var t := Step(s, e);
    match e
    case Call =>
      assert forall i :: 0 <= i < |s.places| ==> t.places[i] == s.places[i];
      if s.locked {
        var i :| 0 <= i < |s.places| && HoldsLock(s.places[i]);
        assert HoldsLock(t.places[i]);
      }
    case Act(i) =>
      if t.locked {
        if HoldsLock(t.places[i]) {
        } else {
          var j :| 0 <= j < |s.places| && HoldsLock(s.places[j]);
          assert HoldsLock(t.places[j]);
        }
      }
  }

  lemma AsleepStep(s: State, e: Event)
    requires Exclusive(s) && Asleep(s) && Enabled(s, e)
    ensures Asleep(Step(s, e))
  {
    hide FlaggedCalls;
  }

  lemma ToldStep(s: State, e: Event)
    requires Told(s) && Enabled(s, e)
    ensures Told(Step(s, e))
  {
    hide FlaggedCalls;
  }

  /** When a restart comes due and when it stops being due. */
  lemma DueStep(s: State, e: Event)
    requires Exclusive(s) && Enabled(s, e)
    ensures RestartDue(Step(s, e))
       <==> if e.Act? && s.places[e.i].Sleeping? then true
            else if e.Act? && s.places[e.i].Ready? then false
            else RestartDue(s)
    ensures e.Act? && s.places[e.i].Ready? ==> RestartDue(s)
    ensures e.Act? && s.places[e.i].Sleeping? ==> !RestartDue(s)
  {
    hide FlaggedCalls;
    var t := Step(s, e);
    if RestartDue(s) {
      var j :| 0 <= j < |s.places| && AboutToRestart(s.places[j]);
      assert HoldsLock(s.places[j]);
      if e.Act? && e.i == j {
        assert s.places[j].Ready? || AboutToRestart(t.places[j]);
      } else {
        assert AboutToRestart(t.places[j]);
      }
    }
    if RestartDue(t) {
      var j :| 0 <= j < |t.places| && AboutToRestart(t.places[j]);
      if !(e.Act? && e.i == j) {
        assert j < |s.places| && AboutToRestart(s.places[j]);
      }
    }
    if e.Act? && s.places[e.i].Sleeping? {
      assert AboutToRestart(t.places[e.i]);
    }
    if e.Act? && s.places[e.i].Ready? {
      assert AboutToRestart(s.places[e.i]);
    }
  }

  lemma CountedStep(s: State, e: Event)
    requires Exclusive(s) && Asleep(s) && Counted(s) && Enabled(s, e)
    ensures Counted(Step(s, e))
  {
    hide Exclusive, FlaggedCalls, RestartDue;
    FlaggedStep(s, e);
    DueStep(s, e);
  }

  lemma ServedStep(s: State, e: Event)
    requires Exclusive(s) && Served(s) && Enabled(s, e)
    ensures Served(Step(s, e))
  {
    hide Exclusive, FlaggedCalls, RestartDue;
    FlaggedStep(s, e);
    DueStep(s, e);
    var t := Step(s, e);
    forall i | i in FlaggedCalls(t.places)
      ensures i in t.covered || t.pending || RestartDue(t)
    {
      if e.Act? && s.places[e.i].ValueSet? {
        assert t.pending;
      } else {
        assert i in s.covered || s.pending || RestartDue(s);
      }
    }
  }

  lemma InvStep(s: State, e: Event)
    requires Inv(s) && Enabled(s, e)
    ensures Inv(Step(s, e))
  {
    ExclusiveStep(s, e);
    AsleepStep(s, e);
    ToldStep(s, e);
    CountedStep(s, e);
    ServedStep(s, e);
    hide *;
    InvParts(Step(s, e));
  }

  lemma InvParts(s: State)
    ensures Inv(s) <==> Exclusive(s) && Served(s) && Counted(s) && Asleep(s) && Told(s)
  {
  }

  lemma {:induction false} InvRun(s: State, events: seq<Event>)
    requires Inv(s) && Run(s, events)
    ensures Inv(After(s, events))
    decreases |events|
  {
    hide Inv, Step;
    if events != [] {
      InvStep(s, events[0]);
      InvRun(Step(s, events[0]), events[1..]);
    }
  }

  // ---- what holds in every interleaving -------------------------------------------------------

  /** At most one worker is anywhere between taking and releasing the lock; in particular
      at most one restart runs at a time. */
  lemma OneAtATime(events: seq<Event>, i: nat, j: nat)
    requires Run(INITIAL, events)
    requires i < |After(INITIAL, events).places| && After(INITIAL, events).places[i].Restarting?
    requires j < |After(INITIAL, events).places| && After(INITIAL, events).places[j].Restarting?
    ensures i == j && After(INITIAL, events).locked
  {
    InvRun(INITIAL, events);
    var s := After(INITIAL, events);
    assert HoldsLock(s.places[i]) && HoldsLock(s.places[j]);
  }

  /** There are never more restarts than calls that asked for one, and each is told a key
      and a value some call set. */
  lemma NoMoreThanAsked(events: seq<Event>)
    requires Run(INITIAL, events)
    ensures var s := After(INITIAL, events);
            && |s.restarts| <= |FlaggedCalls(s.places)| <= |s.places|
            && (forall r :: r in s.restarts ==> r.key < |s.places| && r.value < |s.places|)
  {
    InvRun(INITIAL, events);
    FewerFlagged(After(INITIAL, events).places);
  }

  lemma {:induction false} FewerFlagged(places: seq<Place>)
    ensures |FlaggedCalls(places)| <= |places|
  {
    if places != [] {
      var front := places[..|places| - 1];
      FewerFlagged(front);
      assert FlaggedCalls(places) <= FlaggedCalls(front) + {|front|};
      SubsetSize(FlaggedCalls(places), FlaggedCalls(front) + {|front|});
    }
  }

  lemma {:induction false} SubsetSize(a: set<nat>, b: set<nat>)
    requires a <= b
    ensures |a| <= |b|
  {
    if a != {} {
      var x :| x in a;
      SubsetSize(a - {x}, b - {x});
    }
  }

  /** No change is forgotten: once a call has set the flag, a restart has started since, or
      a worker past its clear is about to start one, or the flag is still set. */
  lemma NoChangeForgotten(events: seq<Event>, i: nat)
    requires Run(INITIAL, events)
    requires i in FlaggedCalls(After(INITIAL, events).places)
    ensures var s := After(INITIAL, events);
            i in s.covered || s.pending || RestartDue(s)
  {
    InvRun(INITIAL, events);
  }

  /** On its way to another look at the flag. */
  predicate LooksAgain(place: Place) {
    place.Restarting? || place.Checking? || place.Sleeping?
  }

  /** A flag that is set though everything is served is about to be looked at. */
  ghost predicate FlagIsSeen(s: State) {
    (s.pending && FlaggedCalls(s.places) <= s.covered)
    ==> exists j :: 0 <= j < |s.places| && LooksAgain(s.places[j])
  }

  lemma SeenStep(s: State, e: Event)
    requires Inv(s) && FlagIsSeen(s) && Enabled(s, e)
    ensures FlagIsSeen(Step(s, e))
  {
    var t := Step(s, e);
    FlaggedStep(s, e);
    StepEffect(s, e);
    LastLook(s, e);
    if e.Act? && s.places[e.i].ValueSet? {
      NewlyFlagged(s, e.i);
    }
    hide Inv, Step, FlaggedCalls, Enabled;
    if e.Act? && s.places[e.i].Ready? {
      assert LooksAgain(t.places[e.i]);
    } else if t.pending && FlaggedCalls(t.places) <= t.covered {
      var j :| 0 <= j < |s.places| && LooksAgain(s.places[j]);
      assert LooksAgain(t.places[j]);
    }
  }

  /** Whoever looks again goes on to look, clears the flag, or found it clear. */
  lemma LastLook(s: State, e: Event)
    requires Enabled(s, e)
    ensures e.Act? ==> e.i < |s.places| == |Step(s, e).places|
    ensures e.Act? && LooksAgain(s.places[e.i]) && !LooksAgain(Step(s, e).places[e.i]) ==> !Step(s, e).pending
    ensures e.Act? && s.places[e.i].Ready? ==> LooksAgain(Step(s, e).places[e.i])
  {
    hide FlaggedCalls;
  }

  lemma NewlyFlagged(s: State, i: nat)
    requires Inv(s) && i < |s.places| && s.places[i].ValueSet?
    ensures i !in s.covered
  {
  }

  lemma {:induction false} SeenRun(s: State, events: seq<Event>)
    requires Inv(s) && FlagIsSeen(s) && Run(s, events)
    ensures FlagIsSeen(After(s, events))
    decreases |events|
  {
    hide Inv, Step, FlagIsSeen;
    if events != [] {
      InvStep(s, events[0]);
      SeenStep(s, events[0]);
      SeenRun(Step(s, events[0]), events[1..]);
    }
  }

  /** Exactly when a change needs another call: with no worker holding the lock, every
      change that set the flag has been followed by a restart if and only if the flag is
      clear. */
  lemma QuietMeansServed(events: seq<Event>)
    requires Run(INITIAL, events)
    requires !After(INITIAL, events).locked
    ensures var s := After(INITIAL, events); FlaggedCalls(s.places) <= s.covered <==> !s.pending
  {
    InvRun(INITIAL, events);
    SeenRun(INITIAL, events);
    var s := After(INITIAL, events);
    assert forall j :: 0 <= j < |s.places| ==> !HoldsLock(s.places[j]);
    if !s.pending {
      QuietServed(s);
    } else if j :| 0 <= j < |s.places| && LooksAgain(s.places[j]) {
      assert !HoldsLock(s.places[j]);
    }
  }

  lemma QuietServed(s: State)
    requires Inv(s) && !s.locked && !s.pending
    ensures FlaggedCalls(s.places) <= s.covered
  {
    assert forall j :: 0 <= j < |s.places| ==> !HoldsLock(s.places[j]);
    assert !RestartDue(s);
  }

  // ---- the gap, and what closes it --------------------------------------------------------------

  /** The call that waits: from the moment a worker looks and finds the flag clear until
      somebody clears the flag again, the calls not followed by a restart are exactly those
      that set the flag after that look, and the flag is set exactly when there are any. */
  lemma WaitsSinceTheLook(before: seq<Event>, h: nat, later: seq<Event>)
    requires Run(INITIAL, before)
    requires h < |After(INITIAL, before).places| && After(INITIAL, before).places[h].Checking?
    requires !After(INITIAL, before).pending
    requires Run(Step(After(INITIAL, before), Act(h)), later)
    requires After(Step(After(INITIAL, before), Act(h)), later).clears == After(INITIAL, before).clears
    ensures var s := After(INITIAL, before); var t := After(Step(s, Act(h)), later);
            && (forall i :: i in FlaggedCalls(t.places) ==> (i in t.covered <==> i in FlaggedCalls(s.places)))
            && (t.pending <==> FlaggedCalls(t.places) != FlaggedCalls(s.places))
  {
    InvRun(INITIAL, before);
    hide *;
    WaitsFrom(After(INITIAL, before), h, later);
  }

  lemma WaitsFrom(s: State, h: nat, later: seq<Event>)
    requires Inv(s) && h < |s.places| && s.places[h].Checking? && !s.pending
    requires Run(Step(s, Act(h)), later) && After(Step(s, Act(h)), later).clears == s.clears
    ensures var t := After(Step(s, Act(h)), later);
            && (forall i :: i in FlaggedCalls(t.places) ==> (i in t.covered <==> i in FlaggedCalls(s.places)))
            && (t.pending <==> FlaggedCalls(t.places) != FlaggedCalls(s.places))
  {
    LookedAndClear(s, h);
    InvStep(s, Act(h));
    FlaggedStep(s, Act(h));
    hide *;
    Waits(Step(s, Act(h)), later);
  }

  lemma LookedAndClear(s: State, h: nat)
    requires Inv(s) && h < |s.places| && s.places[h].Checking? && !s.pending
    ensures FlaggedCalls(s.places) == s.covered
    ensures var t := Step(s, Act(h)); !RestartDue(t) && t.covered == s.covered && !t.pending && t.clears == s.clears
  {
    assert HoldsLock(s.places[h]);
    assert !RestartDue(s);
    DueStep(s, Act(h));
  }

  /** While nobody clears the flag and no restart is due, nothing new is covered. */
  lemma {:induction false} Waits(s: State, events: seq<Event>)
    requires Inv(s) && !RestartDue(s) && Run(s, events)
    requires After(s, events).clears == s.clears
    ensures var t := After(s, events);
            && t.covered == s.covered && FlaggedCalls(s.places) <= FlaggedCalls(t.places)
            && (t.pending <==> s.pending || FlaggedCalls(t.places) != FlaggedCalls(s.places))
    decreases |events|
  {
    hide Inv, Step, FlaggedCalls, RestartDue;
    if events != [] {
      var next := Step(s, events[0]);
      InvStep(s, events[0]);
      ClearsGrow(next, events[1..]);
      OneWait(s, events[0]);
      Waits(next, events[1..]);
    }
  }

  lemma {:induction false} ClearsGrow(s: State, events: seq<Event>)
    requires Run(s, events)
    ensures s.clears <= After(s, events).clears
    decreases |events|
  {
    if events != [] {
      ClearsGrow(Step(s, events[0]), events[1..]);
    }
  }

  lemma OneWait(s: State, e: Event)
    requires Inv(s) && !RestartDue(s) && Enabled(s, e)
    ensures var t := Step(s, e);
            && s.clears <= t.clears
            && (t.clears == s.clears ==>
                  && !RestartDue(t) && t.covered == s.covered && FlaggedCalls(s.places) <= FlaggedCalls(t.places)
                  && (t.pending <==> s.pending || FlaggedCalls(t.places) != FlaggedCalls(s.places)))
  {
    FlaggedStep(s, e);
    DueStep(s, e);
    StepEffect(s, e);
    hide *;
  }

  // ---- what the record of served changes means -------------------------------------------------

  /** Event k of the run starts a restart, and call i had set the flag by then. */
  ghost predicate RestartsFor(events: seq<Event>, k: int, i: nat) {
    && 0 <= k < |events| && Run(INITIAL, events[..k]) && events[k].Act?
    && var s := After(INITIAL, events[..k]);
       && events[k].i < |s.places| && s.places[events[k].i].Ready?
       && i in FlaggedCalls(s.places)
  }

  /** `covered` means what it says, over any run: call i is in it exactly when some event of
      the run started a restart at a moment when i had already set the flag. */
  lemma {:induction false} CoveredMeaning(events: seq<Event>, i: nat)
    requires Run(INITIAL, events)
    ensures i in After(INITIAL, events).covered <==> exists k :: RestartsFor(events, k, i)
    decreases |events|
  {
    if events == [] {
      assert forall k :: !RestartsFor(events, k, i);
    } else {
      var n := |events| - 1;
      var front, e := events[..n], events[n];
      assert front + [e] == events && events[..n] == front;
      RunPrefix(INITIAL, front, e);
      CoveredMeaning(front, i);
      InvRun(INITIAL, front);
      CoveredStep(After(INITIAL, front), e, i);
      hide After, Run, FlaggedCalls, Inv;
      forall k | 0 <= k < n
        ensures RestartsFor(events, k, i) <==> RestartsFor(front, k, i)
      {
        assert front[..k] == events[..k];
      }
      LastRestart(events, i);
    }
  }

  lemma LastRestart(events: seq<Event>, i: nat)
    requires events != [] && Run(INITIAL, events[..|events| - 1])
    ensures var n := |events| - 1; var s := After(INITIAL, events[..n]); var e := events[n];
            RestartsFor(events, n, i)
            <==> e.Act? && e.i < |s.places| && s.places[e.i].Ready? && i in FlaggedCalls(s.places)
  {
  }

  lemma CoveredStep(s: State, e: Event, i: nat)
    requires Inv(s) && Enabled(s, e)
    ensures var t := Step(s, e);
            i in t.covered
            <==> i in s.covered || (e.Act? && s.places[e.i].Ready? && i in FlaggedCalls(s.places))
  {
    hide FlaggedCalls, Exclusive, Counted, Asleep, Told;
  }

  lemma {:induction false} RunPrefix(s: State, front: seq<Event>, e: Event)
    requires Run(s, front + [e])
    ensures Run(s, front) && Enabled(After(s, front), e)
    ensures After(s, front + [e]) == Step(After(s, front), e)
    decreases |front|
  {
    hide Step, Enabled;
    var all := front + [e];
    if front == [] {
      assert all[0] == e && all[1..] == [];
    } else {
      assert all[0] == front[0] && all[1..] == front[1..] + [e];
      RunPrefix(Step(s, front[0]), front[1..], e);
    }
  }

  // ---- how the gap opens and closes ------------------------------------------------------------

  lemma {:induction false} Extend(s: State, events: seq<Event>, e: Event)
    requires Run(s, events) && Enabled(After(s, events), e)
    ensures Run(s, events + [e]) && After(s, events + [e]) == Step(After(s, events), e)
    decreases |events|
  {
    hide Step, Enabled;
    var more := events + [e];
    if events == [] {
      assert more[0] == e && more[1..] == [];
    } else {
      assert more[0] == events[0] && more[1..] == events[1..] + [e];
      Extend(Step(s, events[0]), events[1..], e);
    }
  }

  /** One more step of the newest call. */
  lemma Go(s: State, events: seq<Event>, others: seq<Place>, place: Place) returns (more: seq<Event>)
    requires Run(s, events) && After(s, events).places == others + [place]
    requires Enabled(After(s, events), Act(|others|))
    ensures Run(s, more) && more == events + [Act(|others|)]
    ensures After(s, more) == Step(After(s, events), Act(|others|))
    ensures forall p :: (others + [place])[|others| := p] == others + [p]
  {
    more := events + [Act(|others|)];
    Extend(s, events, Act(|others|));
  }

  /** The gap: a call that sets the flag between a worker's last look at it and the release
      of the lock is coalesced onto that worker, and its change is left pending. */
  lemma LateCallWaits(s: State, i: nat) returns (events: seq<Event>)
    requires Inv(s) && s.locked && i < |s.places| && s.places[i].AboutToRelease?
    ensures Run(s, events)
    ensures var t := After(s, events);
            && !t.locked && t.pending && t.restarts == s.restarts
            && t.places == s.places[i := Finished] + [Coalesced] && |s.places| !in t.covered
  {
    hide Inv, FlaggedCalls, Exclusive, Served, Counted, Asleep, Told, Run, After;
    var others := s.places;
    Start(s, Call);
    events := [Call];
    events := Go(s, events, others, Begun);
    events := Go(s, events, others, KeySet);
    events := Go(s, events, others, ValueSet);
    events := Go(s, events, others, Flagged);
    Extend(s, events, Act(i));
    events := events + [Act(i)];
    NotYetCovered(s);
  }

  lemma Start(s: State, e: Event)
    requires Enabled(s, e)
    ensures Run(s, [e]) && After(s, [e]) == Step(s, e)
  {
    var one := [e];
    assert one[1..] == [];
  }

  lemma NotYetCovered(s: State)
    requires Inv(s)
    ensures |s.places| !in s.covered
  {
  }

  /** A call that finds the lock free and is not disturbed serves itself and everything
      left pending before it. */
  lemma NextCallServes(s: State) returns (events: seq<Event>)
    requires Inv(s) && !s.locked
    ensures Run(s, events)
    ensures var t := After(s, events);
            && !t.locked && !t.pending && t.places == s.places + [Finished]
            && t.restarts == s.restarts + [Reason(|s.places|, |s.places|)]
            && FlaggedCalls(t.places) <= t.covered
  {
    var locked := TakeLock(s);
    var served := ServeOnce(s, locked, s.places);
    events := LeaveQuiet(s, served, s.places);
    InvRun(s, events);
    QuietServed(After(s, events));
  }

  lemma TakeLock(s: State) returns (events: seq<Event>)
    requires !s.locked
    ensures Run(s, events)
    ensures After(s, events) == s.(locked := true, pending := true, key := Some(|s.places|),
                                   value := Some(|s.places|), places := s.places + [Checking])
  {
    hide FlaggedCalls, Run, After;
    var others := s.places;
    Start(s, Call);
    events := [Call];
    events := Go(s, events, others, Begun);
    events := Go(s, events, others, KeySet);
    events := Go(s, events, others, ValueSet);
    events := Go(s, events, others, Flagged);
  }

  lemma ServeOnce(s: State, before: seq<Event>, others: seq<Place>) returns (events: seq<Event>)
    requires Run(s, before)
    requires var u := After(s, before);
             u.locked && u.pending && u.key.Some? && u.value.Some? && u.places == others + [Checking]
    ensures Run(s, events)
    ensures var u, t := After(s, before), After(s, events);
            && t.locked && !t.pending && t.places == others + [Checking]
            && t.restarts == u.restarts + [Reason(u.key.value, u.value.value)]
  {
    hide FlaggedCalls, Run, After;
    var key, value := After(s, before).key.value, After(s, before).value.value;
    events := Go(s, before, others, Checking);
    events := Go(s, events, others, Sleeping);
    events := Go(s, events, others, Cleared);
    events := Go(s, events, others, KeyRead(key));
    events := Go(s, events, others, Ready(key, value));
    events := Go(s, events, others, Restarting);
  }

  lemma LeaveQuiet(s: State, before: seq<Event>, others: seq<Place>) returns (events: seq<Event>)
    requires Run(s, before)
    requires var u := After(s, before); u.locked && !u.pending && u.places == others + [Checking]
    ensures Run(s, events)
    ensures var u, t := After(s, before), After(s, events);
            !t.locked && !t.pending && t.restarts == u.restarts && t.places == others + [Finished]
  {
    hide FlaggedCalls, Run, After;
    events := Go(s, before, others, Checking);
    events := Go(s, events, others, AboutToRelease);
  }
}
