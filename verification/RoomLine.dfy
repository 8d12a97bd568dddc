/** A held line: one reader thread owns the connection, any number of callers queue
    payloads on it, and the interleaving is arbitrary. Each step below is one stretch of
    the program between two points where another thread can get in. */
module RoomLines {
  import opened Reading
  import Mirrors

  /** How the reader thread came to its end. */
  datatype Ending = Failed | Stopped | Crashed

  /** Where the reader thread is. A batch holds the slots taken from the outbox and not yet
      answered. */
  datatype Place =
    | Connecting
    | ReadingBacklog
    | BacklogHeld
    | LoopTop
    | AboutToDrain
    | Serving(batch: seq<nat>)
    | InFlight(slot: nat, transmitted: bool, batch: seq<nat>)
    | Listening
    | AboutToRenew
    | Failing
    | Answering(batch: seq<nat>)
    | Leaving(how: Ending)
    | Done(how: Ending)

  /** A slot's answer: the connection's, or the one `_fail` gives what it finds queued. */
  datatype Answer = Answer(slot: nat, byFail: bool)

  /** The line's fields, with what it did so far: slots are numbered as they are queued. */
  datatype State = State(
    place: Place,
    error: bool,
    stop: bool,
    connected: bool,
    next: nat,
    outbox: seq<nat>,
    sent: seq<nat>,
    answers: seq<Answer>,
    frames: seq<Row>,
    absorbed: seq<Row>)

  const INITIAL := State(Connecting, false, false, false, 0, [], [], [], [], [])

  // ---- the steps ------------------------------------------------------------------------

  datatype Event =
    | Queue
    | Refuse
    | StopCalled
    | ConnectFails
    | Connects
    | BacklogArrives(rows: seq<Row>)
    | BacklogRaises
    | MarkConnected
    | CheckStop
    | Drain
    | Take
    | Transmit
    | Answered
    | Served
    | FrameArrives(row: Row)
    | NothingArrives
    | LineEnds
    | RenewOrNot
    | FailDrains
    | FailAnswers
    | FailReturns
    | Leave

  function Absorb(s: State, rows: seq<Row>): State {
    s.(frames := Mirrors.Last(s.frames + rows, Mirrors.MIRROR_CAP), absorbed := s.absorbed + rows)
  }

  /** `_fail` up to the end of its first locked block. */
  function Fail(s: State): State {
    s.(place := Failing, error := true, connected := false)
  }

  predicate Enabled(s: State, e: Event) {
    match e
    case Queue => !s.error
    case Refuse => s.error
    case StopCalled => true
    case ConnectFails => s.place.Connecting?
    case Connects => s.place.Connecting?
    case BacklogArrives(_) => s.place.ReadingBacklog?
    case BacklogRaises => s.place.ReadingBacklog?
    case MarkConnected => s.place.BacklogHeld?
    case CheckStop => s.place.LoopTop?
    case Drain => s.place.AboutToDrain?
    case Take => s.place.Serving? && s.place.batch != []
    case Transmit => s.place.InFlight? && !s.place.transmitted
    case Answered => s.place.InFlight?
    case Served => s.place.Serving? && s.place.batch == []
    case FrameArrives(_) => s.place.Listening?
    case NothingArrives => s.place.Listening?
    case LineEnds => s.place.Listening?
    case RenewOrNot => s.place.AboutToRenew?
    case FailDrains => s.place.Failing?
    case FailAnswers => s.place.Answering? && s.place.batch != []
    case FailReturns => s.place.Answering? && s.place.batch == []
    case Leave => s.place.Leaving?
  }

  /** What a caller does. */
  function CallerStep(s: State, e: Event): State {
    match e
    case Queue => s.(outbox := s.outbox + [s.next], next := s.next + 1)
    case StopCalled => s.(stop := true)
    case _ => s
  }

  /** What the reader thread does while the line lives. A connection submit that raises
      before it has sent anything is `Answered` without `Transmit`. */
  function ReaderStep(s: State, e: Event): State
    requires Enabled(s, e)
  {
    match e
    case ConnectFails => Fail(s)
    case Connects => s.(place := ReadingBacklog)
    case BacklogArrives(rows) => Absorb(s, rows).(place := BacklogHeld)
    case BacklogRaises => s.(place := Leaving(Crashed))
    case MarkConnected => s.(place := LoopTop, connected := true)
    case CheckStop => s.(place := if s.stop then Leaving(Stopped) else AboutToDrain)
    case Drain => s.(place := Serving(s.outbox), outbox := [])
    case Take => s.(place := InFlight(s.place.batch[0], false, s.place.batch[1..]))
    case Transmit => s.(place := s.place.(transmitted := true), sent := s.sent + [s.place.slot])
    case Answered => s.(place := Serving(s.place.batch), answers := s.answers + [Answer(s.place.slot, false)])
    case Served => s.(place := Listening)
    case FrameArrives(row) => Absorb(s, [row]).(place := AboutToRenew)
    case NothingArrives => s.(place := AboutToRenew)
    case LineEnds => Fail(s)
    case RenewOrNot => s.(place := LoopTop)
    case FailDrains => s.(place := Answering(s.outbox), outbox := [])
    case FailAnswers =>
      s.(place := Answering(s.place.batch[1..]), answers := s.answers + [Answer(s.place.batch[0], true)])
    case FailReturns => s.(place := Leaving(Failed))
    case Leave => s.(place := Done(s.place.how), connected := false)
    case _ => s
  }

  function Step(s: State, e: Event): State
    requires Enabled(s, e)
  {
    if e.Queue? || e.Refuse? || e.StopCalled? then CallerStep(s, e) else ReaderStep(s, e)
  }

  /** A run: any interleaving of any steps that are possible when they come. */
  ghost predicate Run(s: State, events: seq<Event>)
    decreases |events|
  {
    events != [] ==> Enabled(s, events[0]) && Run(Step(s, events[0]), events[1..])
  }

  function After(s: State, events: seq<Event>): State
    requires Run(s, events)
    decreases |events|
  {
    if events == [] then s else After(Step(s, events[0]), events[1..])
  }

  // ---- the invariant ----------------------------------------------------------------------

  function Range(n: nat): (r: seq<nat>)
    ensures |r| == n && forall i :: 0 <= i < n ==> r[i] == i
  {
    if n == 0 then [] else Range(n - 1) + [n - 1]
  }

  function Slots(answers: seq<Answer>): (r: seq<nat>)
    ensures |r| == |answers| && forall i :: 0 <= i < |r| ==> r[i] == answers[i].slot
  {
    if answers == [] then [] else Slots(answers[..|answers| - 1]) + [answers[|answers| - 1].slot]
  }

  /** Taken from the outbox and not yet answered. */
  function Held(place: Place): seq<nat> {
    match place
    case Serving(batch) => batch
    case InFlight(slot, _, batch) => [slot] + batch
    case Answering(batch) => batch
    case _ => []
  }

  /** How many slots may have reached the connection. */
  function Reached(s: State): nat {
    |s.answers| + if s.place.InFlight? && s.place.transmitted then 1 else 0
  }

  /** Every slot queued is answered, held or in the outbox, in the order it was queued. */
  ghost predicate Accounted(s: State) {
    Slots(s.answers) + Held(s.place) + s.outbox == Range(s.next)
  }

  ghost predicate SentInOrder(s: State) {
    && (forall i, j :: 0 <= i < j < |s.sent| ==> s.sent[i] < s.sent[j])
    && (forall i :: 0 <= i < |s.sent| ==> s.sent[i] < Reached(s))
  }

  ghost predicate FailedUnsent(s: State) {
    forall i :: 0 <= i < |s.answers| && s.answers[i].byFail ==> s.error && s.answers[i].slot !in s.sent
  }

  predicate InFailure(place: Place) {
    place.Failing? || place.Answering? || place == Leaving(Failed) || place == Done(Failed)
  }

  predicate Flags(s: State) {
    && (s.error <==> InFailure(s.place))
    && (s.error && !s.place.Failing? ==> s.outbox == [])
    && (s.connected ==> !s.error && !s.place.Done? && !s.place.Connecting?)
  }

  ghost predicate Inv(s: State) {
    && Accounted(s)
    && SentInOrder(s)
    && FailedUnsent(s)
    && Flags(s)
    && s.frames == Mirrors.Last(s.absorbed, Mirrors.MIRROR_CAP)
  }

  lemma SlotsAppend(answers: seq<Answer>, a: Answer)
    ensures Slots(answers + [a]) == Slots(answers) + [a.slot]
  {
  }

  lemma LastOfLast(xs: seq<Row>, ys: seq<Row>, n: nat)
    ensures Mirrors.Last(Mirrors.Last(xs, n) + ys, n) == Mirrors.Last(xs + ys, n)
  {
  }

  lemma AnsweredKeeps(answers: seq<Answer>, a: Answer, batch: seq<nat>, outbox: seq<nat>)
    ensures Slots(answers + [a]) + batch + outbox == Slots(answers) + ([a.slot] + batch) + outbox
  {
    SlotsAppend(answers, a);
  }

  lemma DrainKeeps(answers: seq<nat>, outbox: seq<nat>)
    ensures answers + [] + outbox == answers + outbox + []
  {
  }

  lemma QueueExtends(answers: seq<nat>, held: seq<nat>, outbox: seq<nat>, slot: nat)
    ensures answers + held + (outbox + [slot]) == (answers + held + outbox) + [slot]
  {
  }

  lemma AccountedStep(s: State, e: Event)
    requires Accounted(s) && Enabled(s, e)
    ensures Accounted(Step(s, e))
  {
    hide Slots, Absorb, Range;
    if e.Queue? {
      QueueExtends(Slots(s.answers), Held(s.place), s.outbox, s.next);
      RangeStep(s.next);
    } else if e.Answered? {
      AnsweredKeeps(s.answers, Answer(s.place.slot, false), s.place.batch, s.outbox);
    } else if e.FailAnswers? {
      AnsweredKeeps(s.answers, Answer(s.place.batch[0], true), s.place.batch[1..], s.outbox);
      assert [s.place.batch[0]] + s.place.batch[1..] == s.place.batch;
    } else if e.Drain? || e.FailDrains? {
      DrainKeeps(Slots(s.answers), s.outbox);
    } else {
      OtherStep(s, e);
    }
  }

  lemma RangeStep(n: nat)
    ensures Range(n + 1) == Range(n) + [n]
  {
  }

  lemma OtherStep(s: State, e: Event)
    requires Enabled(s, e)
    requires !(e.Queue? || e.Answered? || e.FailAnswers? || e.Drain? || e.FailDrains?)
    ensures var t := Step(s, e);
            t.answers == s.answers && Held(t.place) == Held(s.place) && t.outbox == s.outbox && t.next == s.next
  {
    if e.Take? {
      assert [s.place.batch[0]] + s.place.batch[1..] == s.place.batch;
    }
    AbsorbKeeps(s, e);
  }

  lemma AbsorbKeeps(s: State, e: Event)
    ensures e.BacklogArrives? ==>
              var t := Absorb(s, e.rows); t.answers == s.answers && t.outbox == s.outbox && t.next == s.next
    ensures e.FrameArrives? ==>
              var t := Absorb(s, [e.row]); t.answers == s.answers && t.outbox == s.outbox && t.next == s.next
  {
  }

  /** The slot in flight is the next one to be answered. */
  lemma InFlightIsNext(s: State)
    requires Accounted(s) && s.place.InFlight?
    ensures s.place.slot == |s.answers|
  {
    var all := Slots(s.answers) + Held(s.place) + s.outbox;
    assert all[|s.answers|] == s.place.slot;
  }

  lemma FailAnswerIsNext(s: State)
    requires Accounted(s) && s.place.Answering? && s.place.batch != []
    ensures s.place.batch[0] == |s.answers|
  {
    var all := Slots(s.answers) + Held(s.place) + s.outbox;
    assert all[|s.answers|] == s.place.batch[0];
  }

  /** Only three steps touch what was sent and answered. */
  lemma OnlyThree(s: State, e: Event)
    requires Enabled(s, e)
    ensures var t := Step(s, e);
            && (s.error ==> t.error)
            && t.sent == (if e.Transmit? then s.sent + [s.place.slot] else s.sent)
            && t.answers == (if e.Answered? then s.answers + [Answer(s.place.slot, false)]
                             else if e.FailAnswers? then s.answers + [Answer(s.place.batch[0], true)]
                             else s.answers)
            && Reached(t) == (if e.Transmit? then Reached(s) + 1
                              else if e.Answered? then |s.answers| + 1
                              else if e.FailAnswers? then |s.answers| + 1
                              else Reached(s))
  {
    hide Mirrors.Last;
  }

  lemma SentStep(s: State, e: Event)
    requires Inv(s) && Enabled(s, e)
    ensures SentInOrder(Step(s, e))
  {
    OnlyThree(s, e);
    if s.place.InFlight? {
      InFlightIsNext(s);
    }
    assert e.FailAnswers? ==> Reached(s) == |s.answers|;
    assert e.Answered? ==> Reached(s) <= |s.answers| + 1;
    assert e.Transmit? ==> s.place.slot == Reached(s);
    hide Accounted, FailedUnsent, Flags, Step, Enabled, Reached;
  }

  lemma UnsentStep(s: State, e: Event)
    requires Inv(s) && Enabled(s, e)
    ensures FailedUnsent(Step(s, e))
  {
    OnlyThree(s, e);
    if e.FailAnswers? {
      FailAnswerIsNext(s);
      assert s.error && Reached(s) == |s.answers|;
    }
    assert e.Transmit? ==> !s.error;
    hide Accounted, Flags, Step, Enabled, Reached;
  }

  lemma InvStep(s: State, e: Event)
    requires Inv(s) && Enabled(s, e)
    ensures Inv(Step(s, e))
  {
    AccountedStep(s, e);
    SentStep(s, e);
    UnsentStep(s, e);
    FlagsStep(s, e);
    MirrorStep(s, e);
    hide *;
    InvParts(Step(s, e));
  }

  lemma InvParts(s: State)
    ensures Inv(s) <==> Accounted(s) && SentInOrder(s) && FailedUnsent(s) && Flags(s)
                        && s.frames == Mirrors.Last(s.absorbed, Mirrors.MIRROR_CAP)
  {
  }

  lemma FlagsStep(s: State, e: Event)
    requires Flags(s) && Enabled(s, e)
    ensures Flags(Step(s, e))
  {
    hide Mirrors.Last;
  }

  lemma MirrorStep(s: State, e: Event)
    requires s.frames == Mirrors.Last(s.absorbed, Mirrors.MIRROR_CAP) && Enabled(s, e)
    ensures var t := Step(s, e); t.frames == Mirrors.Last(t.absorbed, Mirrors.MIRROR_CAP)
  {
    hide Mirrors.Last;
    if e.BacklogArrives? {
      LastOfLast(s.absorbed, e.rows, Mirrors.MIRROR_CAP);
    } else if e.FrameArrives? {
      LastOfLast(s.absorbed, [e.row], Mirrors.MIRROR_CAP);
    }
  }

  lemma {:induction false} InvRun(s: State, events: seq<Event>)
    requires Inv(s) && Run(s, events)
    ensures Inv(After(s, events))
    decreases |events|
  {
    hide Inv, Step;
    if events != [] {
      InvStep(s, events[0]);
      InvRun(Step(s, events[0]), events[1..]);
    }
  }

  lemma InvInitial()
    ensures Inv(INITIAL)
  {
  }

  // ---- what holds over every run -------------------------------------------------------------

  /** In every interleaving: payloads reach the connection at most once and in the order
      they were queued; slots are answered at most once and in that order; every slot is
      answered, in the reader's hands or in the outbox; and a slot `_fail` answered never
      reached the connection. */
  lemma AtMostOnceInOrder(events: seq<Event>)
    requires Run(INITIAL, events)
    ensures var s := After(INITIAL, events);
            && (forall i, j :: 0 <= i < j < |s.sent| ==> s.sent[i] < s.sent[j] < s.next)
            && (forall i :: 0 <= i < |s.answers| ==> s.answers[i].slot == i < s.next)
            && Slots(s.answers) + Held(s.place) + s.outbox == Range(s.next)
            && (forall i :: 0 <= i < |s.answers| && s.answers[i].byFail ==> s.answers[i].slot !in s.sent)
  {
    InvInitial();
    InvRun(INITIAL, events);
    var s := After(INITIAL, events);
    AnswersInOrder(s);
    ReachedIsQueued(s);
  }

  lemma AnswersInOrder(s: State)
    requires Accounted(s)
    ensures |s.answers| <= s.next && forall i :: 0 <= i < |s.answers| ==> s.answers[i].slot == i
  {
    var all := Slots(s.answers) + Held(s.place) + s.outbox;
    forall i | 0 <= i < |s.answers|
      ensures s.answers[i].slot == i
    {
      assert all[i] == Slots(s.answers)[i];
    }
  }

  lemma ReachedIsQueued(s: State)
    requires Accounted(s)
    ensures Reached(s) <= s.next
  {
    assert |Slots(s.answers) + Held(s.place) + s.outbox| == s.next;
  }

  /** Once `_fail` has returned, the outbox is empty and every slot ever queued is answered. */
  lemma FailAnswersAll(events: seq<Event>)
    requires Run(INITIAL, events)
    requires After(INITIAL, events).place in {Leaving(Failed), Done(Failed)}
    ensures var s := After(INITIAL, events);
            s.error && s.outbox == [] && Slots(s.answers) == Range(s.next)
  {
    InvInitial();
    InvRun(INITIAL, events);
    var s := After(INITIAL, events);
    assert Slots(s.answers) + [] + [] == Slots(s.answers);
  }

  /** An error is for good: from then on nothing is queued, nothing is sent, nothing is
      absorbed, and answers are only added. */
  lemma {:induction false} ErrorIsFinal(s: State, events: seq<Event>)
    requires Inv(s) && s.error && Run(s, events)
    ensures var t := After(s, events);
            && t.error && t.next == s.next && t.sent == s.sent && t.absorbed == s.absorbed
            && s.answers <= t.answers
            && (s.outbox == [] ==> t.outbox == [])
    decreases |events|
  {
    hide Accounted, SentInOrder, FailedUnsent, Mirrors.Last;
    if events != [] {
      ErrorStep(s, events[0]);
      InvStep(s, events[0]);
      ErrorIsFinal(Step(s, events[0]), events[1..]);
    }
  }

  lemma ErrorStep(s: State, e: Event)
    requires Inv(s) && s.error && Enabled(s, e)
    ensures var t := Step(s, e);
            && t.error && t.next == s.next && t.sent == s.sent && t.absorbed == s.absorbed
            && s.answers <= t.answers
            && (s.outbox == [] ==> t.outbox == [])
  {
  }

  /** What `_fail` still has to do once the error is set. */
  function FailWork(s: State): seq<Event>
    requires InFailure(s.place)
  {
    match s.place
    case Failing => [FailDrains] + Repeat(|s.outbox|) + [FailReturns, Leave]
    case Answering(batch) => Repeat(|batch|) + [FailReturns, Leave]
    case Leaving(_) => [Leave]
    case _ => []
  }

  function Repeat(n: nat): seq<Event> {
    if n == 0 then [] else [FailAnswers] + Repeat(n - 1)
  }

  lemma FailStep(s: State)
    requires InFailure(s.place)
    ensures var work := FailWork(s);
            && (work == [] <==> s.place == Done(Failed))
            && (work != [] ==> Enabled(s, work[0]) && InFailure(Step(s, work[0]).place)
                               && work[1..] == FailWork(Step(s, work[0])))
  {
    hide Mirrors.Last, Repeat;
    match s.place
    case Failing =>
      FirstDropped(FailDrains, Repeat(|s.outbox|), [FailReturns, Leave]);
    case Answering(batch) =>
      if batch == [] {
        assert Repeat(0) == [] by { RepeatStep(0); }
      } else {
        RepeatStep(|batch|);
        FirstDropped(FailAnswers, Repeat(|batch| - 1), [FailReturns, Leave]);
      }
    case _ =>
  }

  lemma RepeatStep(n: nat)
    ensures Repeat(n) == if n == 0 then [] else [FailAnswers] + Repeat(n - 1)
  {
  }

  lemma FirstDropped(e: Event, a: seq<Event>, b: seq<Event>)
    ensures ([e] + a + b)[0] == e && ([e] + a + b)[1..] == a + b
  {
  }

  /** `_fail` never blocks: from the moment the error is set the reader, left to itself,
      answers everything and ends. */
  lemma {:induction false} FailFinishes(s: State)
    requires InFailure(s.place)
    ensures Run(s, FailWork(s)) && After(s, FailWork(s)).place == Done(Failed)
    decreases |FailWork(s)|
  {
    hide FailWork, Step, Enabled, InFailure;
    var work := FailWork(s);
    FailStep(s);
    if work == [] {
      RunEmpty(s);
    } else {
      FailFinishes(Step(s, work[0]));
      Prepend(s, work[0], work[1..]);
      assert [work[0]] + work[1..] == work;
    }
  }

  /** The mirror is the last MIRROR_CAP frames absorbed, in every state of every run. */
  lemma MirrorIsRecent(events: seq<Event>)
    requires Run(INITIAL, events)
    ensures var s := After(INITIAL, events); s.frames == Mirrors.Last(s.absorbed, Mirrors.MIRROR_CAP)
  {
    InvInitial();
    InvRun(INITIAL, events);
  }

  // ---- the exits, and what they leave ------------------------------------------------------

  predicate HasEnded(s: State, how: Ending) {
    s.place == Leaving(how) || s.place == Done(how)
  }

  /** In every run that has come to an end, whichever, all slots are answered exactly when
      the outbox is empty: what is unanswered is what is still queued. */
  lemma AnsweredIffEmpty(events: seq<Event>, how: Ending)
    requires Run(INITIAL, events) && HasEnded(After(INITIAL, events), how)
    ensures var s := After(INITIAL, events);
            && Slots(s.answers) + s.outbox == Range(s.next)
            && (Slots(s.answers) == Range(s.next) <==> s.outbox == [])
  {
    InvInitial();
    InvRun(INITIAL, events);
    var s := After(INITIAL, events);
    assert Slots(s.answers) + [] + s.outbox == Slots(s.answers) + s.outbox;
    if s.outbox == [] {
      assert Slots(s.answers) + [] == Slots(s.answers);
    }
  }

  /** Answered or in the reader's hands. */
  function Drained(s: State): nat {
    |s.answers| + |Held(s.place)|
  }

  /** Only a drain takes slots from the outbox, as long as there is no error. */
  lemma {:induction false} OnlyDrainTakes(s: State, events: seq<Event>)
    requires Inv(s) && !s.error && Run(s, events) && Drain !in events
    requires !After(s, events).error
    ensures Drained(After(s, events)) == Drained(s)
    decreases |events|
  {
    hide Inv, Step, Drained;
    if events != [] {
      var e := events[0];
      assert e in events && e != Drain;
      InvStep(s, e);
      if Step(s, e).error {
        ErrorIsFinal(Step(s, e), events[1..]);
      } else {
        DrainedStep(s, e);
        OnlyDrainTakes(Step(s, e), events[1..]);
      }
    }
  }

  lemma DrainedStep(s: State, e: Event)
    requires Enabled(s, e) && e != Drain && !s.error && Inv(s)
    ensures Drained(Step(s, e)) == Drained(s)
  {
    hide Accounted, SentInOrder, FailedUnsent, Absorb, Mirrors.Last, Slots, Range;
    AbsorbKeeps(s, e);
  }

  lemma {:induction false} RunSplit(s: State, a: seq<Event>, b: seq<Event>)
    requires Run(s, a + b)
    ensures Run(s, a) && Run(After(s, a), b) && After(s, a + b) == After(After(s, a), b)
    decreases |a|
  {
    hide Step, Enabled;
    var c := a + b;
    if a == [] {
      assert c == b;
    } else {
      assert c[0] == a[0] && c[1..] == a[1..] + b;
      RunSplit(Step(s, a[0]), a[1..], b);
    }
  }

  /** A line that was stopped has answered exactly the slots queued before its last drain;
      those queued after it are still in the outbox. */
  lemma StoppedAnswersDrained(before: seq<Event>, later: seq<Event>)
    requires Run(INITIAL, before + ([Drain] + later)) && Drain !in later
    requires HasEnded(After(INITIAL, before + ([Drain] + later)), Stopped)
    ensures Run(INITIAL, before)
    ensures var s, n := After(INITIAL, before + ([Drain] + later)), After(INITIAL, before).next;
            n <= s.next && Slots(s.answers) == Range(n) && s.outbox == Range(s.next)[n..]
  {
    hide Inv, Step, Slots, Range, Enabled;
    RunSplit(INITIAL, before, [Drain] + later);
    InvInitial();
    InvRun(INITIAL, before);
    var s := After(INITIAL, before);
    FirstOf(s, Drain, later);
    hide Run, After;
    DrainThenEnd(s, later, Stopped);
  }

  lemma FirstOf(s: State, e: Event, later: seq<Event>)
    requires Run(s, [e] + later)
    ensures Enabled(s, e) && Run(Step(s, e), later) && After(s, [e] + later) == After(Step(s, e), later)
  {
    assert ([e] + later)[1..] == later;
    hide Step, Enabled;
  }

  lemma DrainThenEnd(s: State, later: seq<Event>, how: Ending)
    requires Inv(s) && Enabled(s, Drain) && Run(Step(s, Drain), later) && Drain !in later
    requires HasEnded(After(Step(s, Drain), later), how) && how != Failed
    ensures var end := After(Step(s, Drain), later);
            s.next <= end.next && Slots(end.answers) == Range(s.next) && end.outbox == Range(end.next)[s.next..]
  {
    var t := Step(s, Drain);
    InvStep(s, Drain);
    NothingHeld(s);
    InvRun(t, later);
    EndedWithoutError(After(t, later), how);
    hide Inv, Step, Run, After, Slots, Range;
    OnlyDrainTakes(t, later);
    LeftOver(After(t, later), s.next);
  }

  lemma EndedWithoutError(s: State, how: Ending)
    requires Inv(s) && HasEnded(s, how) && how != Failed
    ensures !s.error && (s.place.Leaving? || s.place.Done?)
  {
  }

  lemma NothingHeld(s: State)
    requires Inv(s) && s.place.AboutToDrain?
    ensures !s.error && !Step(s, Drain).error && Drained(Step(s, Drain)) == s.next
  {
    assert |Slots(s.answers) + Held(s.place) + s.outbox| == s.next;
  }

  /** At an end the answered slots are the first so many, and the others are queued. */
  lemma LeftOver(s: State, n: nat)
    requires Inv(s) && Drained(s) == n && (s.place.Leaving? || s.place.Done?)
    ensures n <= s.next && Slots(s.answers) == Range(n) && s.outbox == Range(s.next)[n..]
  {
    var all := Slots(s.answers) + [] + s.outbox;
    assert all == Range(s.next) && |Slots(s.answers)| == n;
    assert all[..n] == Slots(s.answers) && all[n..] == s.outbox;
    assert Range(s.next)[..n] == Range(n);
  }

  /** A line that ends without ever draining, as every one does whose backlog read raised,
      has answered and sent nothing. */
  lemma NeverDrained(events: seq<Event>, how: Ending)
    requires Run(INITIAL, events) && Drain !in events
    requires HasEnded(After(INITIAL, events), how) && how != Failed
    ensures var s := After(INITIAL, events);
            s.answers == [] && s.sent == [] && s.outbox == Range(s.next)
  {
    InvInitial();
    InvRun(INITIAL, events);
    OnlyDrainTakes(INITIAL, events);
    var s := After(INITIAL, events);
    assert s.sent != [] ==> s.sent[0] < Reached(s);
    hide Run, After, Slots, Range;
    LeftOver(s, 0);
  }

  /** Nothing of the loop has begun. */
  predicate Early(place: Place) {
    place.Connecting? || place.ReadingBacklog? || place == Leaving(Crashed) || place == Done(Crashed)
  }

  /** The backlog can only raise before the first drain. */
  lemma {:induction false} EarlyNeverDrained(s: State, events: seq<Event>)
    requires Run(s, events) && HasEnded(After(s, events), Crashed)
    ensures Early(s.place) && Drain !in events
    decreases |events|
  {
    if events != [] {
      EarlyNeverDrained(Step(s, events[0]), events[1..]);
      EarlyStep(s, events[0]);
      assert events == [events[0]] + events[1..];
    }
  }

  lemma EarlyStep(s: State, e: Event)
    requires Enabled(s, e) && Early(Step(s, e).place)
    ensures Early(s.place) && e != Drain
  {
    hide Mirrors.Last;
  }

  /** A line whose backlog read raised never answered or sent anything. */
  lemma CrashedAnsweredNothing(events: seq<Event>)
    requires Run(INITIAL, events) && HasEnded(After(INITIAL, events), Crashed)
    ensures var s := After(INITIAL, events);
            s.answers == [] && s.sent == [] && s.outbox == Range(s.next)
  {
    EarlyNeverDrained(INITIAL, events);
    NeverDrained(events, Crashed);
  }

  /** No later event answers what an end has left: callers can still queue on a line that
      was stopped or crashed, and nothing more is answered, sent or taken out. */
  lemma {:induction false} EndIsFinal(s: State, events: seq<Event>, how: Ending)
    requires Run(s, events) && HasEnded(s, how)
    ensures var t := After(s, events);
            HasEnded(t, how) && t.answers == s.answers && t.sent == s.sent && s.outbox <= t.outbox
    decreases |events|
  {
    if events != [] {
      EndStep(s, events[0], how);
      EndIsFinal(Step(s, events[0]), events[1..], how);
    }
  }

  lemma EndStep(s: State, e: Event, how: Ending)
    requires Enabled(s, e) && HasEnded(s, how)
    ensures var t := Step(s, e);
            HasEnded(t, how) && t.answers == s.answers && t.sent == s.sent && s.outbox <= t.outbox
  {
    hide Mirrors.Last;
  }

  /** It happens: a call that queues after the stop and before the check is left waiting. */
  lemma StoppedLeavesQueued()
    ensures var events := [Connects, BacklogArrives([]), MarkConnected, StopCalled, Queue, CheckStop, Leave];
            && Run(INITIAL, events)
            && var s := After(INITIAL, events); s.place == Done(Stopped) && !s.error && s.outbox == [0]
  {
    var held := INITIAL.(place := BacklogHeld);
    var up := INITIAL.(place := LoopTop, connected := true);
    var queued := up.(stop := true, next := 1, outbox := [0]);
    assert Step(INITIAL.(place := ReadingBacklog), BacklogArrives([])) == held;
    hide Run, After, Mirrors.Last;
    RunEmpty(queued.(place := Done(Stopped), connected := false));
    Prepend(queued.(place := Leaving(Stopped)), Leave, []);
    Prepend(queued, CheckStop, [Leave]);
    Prepend(up.(stop := true), Queue, [CheckStop, Leave]);
    Prepend(up, StopCalled, [Queue, CheckStop, Leave]);
    Prepend(held, MarkConnected, [StopCalled, Queue, CheckStop, Leave]);
    Prepend(INITIAL.(place := ReadingBacklog), BacklogArrives([]),
            [MarkConnected, StopCalled, Queue, CheckStop, Leave]);
    Prepend(INITIAL, Connects, [BacklogArrives([]), MarkConnected, StopCalled, Queue, CheckStop, Leave]);
  }

  lemma RunEmpty(s: State)
    ensures Run(s, []) && After(s, []) == s
  {
  }

  lemma Prepend(s: State, e: Event, rest: seq<Event>)
    requires Enabled(s, e) && Run(Step(s, e), rest)
    ensures Run(s, [e] + rest) && After(s, [e] + rest) == After(Step(s, e), rest)
  {
    assert ([e] + rest)[1..] == rest;
    hide Step, Enabled;
  }
}
