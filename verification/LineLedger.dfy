/** What a held line has done, told from the events alone: what was queued, sent, answered and
    absorbed over any run, that a round of the loop serves what it finds, and that a stop is
    heeded at the next look. */
module LineLedgers {
  import opened Reading
  import opened RoomLines
  import opened Sequences
  import Mirrors

  // ---- the events, counted -----------------------------------------------------------------

  function QueuedBy(events: seq<Event>): nat {
    if events == [] then 0 else QueuedBy(Front(events)) + if Final(events) == Queue then 1 else 0
  }

  /** The answers given: the n-th answer is slot n's, by the connection or by `_fail`. */
  function AnswersBy(events: seq<Event>): seq<Answer> {
    if events == [] then []
    else
      var a := AnswersBy(Front(events));
      if Final(events) == Answered then a + [Answer(|a|, false)]
      else if Final(events) == FailAnswers then a + [Answer(|a|, true)]
      else a
  }

  /** The slots sent: each is the one whose answer comes next. */
  function SentBy(events: seq<Event>): seq<nat> {
    if events == [] then []
    else SentBy(Front(events)) + if Final(events) == Transmit then [|AnswersBy(Front(events))|] else []
  }

  function AbsorbedBy(events: seq<Event>): seq<Row> {
    if events == [] then []
    else AbsorbedBy(Front(events)) + match Final(events)
                                     case BacklogArrives(rows) => rows
                                     case FrameArrives(row) => [row]
                                     case _ => []
  }

  /** The line is up: the backlog is in, and no error or end came after. */
  function Up(events: seq<Event>): bool {
    if events == [] then false
    else if Final(events) == MarkConnected then true
    else if Final(events) == ConnectFails || Final(events) == LineEnds || Final(events) == Leave then false
    else Up(Front(events))
  }

  ghost predicate Told(s: State, events: seq<Event>) {
    && s.next == QueuedBy(events)
    && s.answers == AnswersBy(events)
    && s.sent == SentBy(events)
    && s.absorbed == AbsorbedBy(events)
    && (s.stop <==> StopCalled in events)
    && (s.error <==> ConnectFails in events || LineEnds in events)
    && (s.connected <==> Up(events))
  }

  lemma InFront<T>(xs: seq<T>, x: T)
    requires xs != []
    ensures x in xs <==> x in Front(xs) || x == Final(xs)
  {
    assert xs == Front(xs) + [Final(xs)];
  }

  lemma LastStep(events: seq<Event>)
    requires events != [] && Run(INITIAL, events)
    ensures Run(INITIAL, Front(events)) && Enabled(After(INITIAL, Front(events)), Final(events))
    ensures After(INITIAL, events) == Step(After(INITIAL, Front(events)), Final(events))
  {
    var front, e := Front(events), Final(events);
    assert events == front + [e] && [e] + [] == [e];
    RunSplit(INITIAL, front, [e]);
    FirstOf(After(INITIAL, front), e, []);
    hide Step, Enabled;
  }

  lemma AnswersStep(s: State, e: Event)
    requires Inv(s) && Enabled(s, e)
    ensures var t := Step(s, e);
            && t.answers == s.answers + (if e == Answered then [Answer(|s.answers|, false)]
                                         else if e == FailAnswers then [Answer(|s.answers|, true)] else [])
            && t.sent == s.sent + (if e == Transmit then [|s.answers|] else [])
  {
    if s.place.InFlight? {
      InFlightIsNext(s);
    }
    if e.FailAnswers? {
      FailAnswerIsNext(s);
    }
    OnlyThree(s, e);
    hide Inv, Step, Reached;
  }

  lemma QueuedStep(s: State, e: Event)
    requires Enabled(s, e)
    ensures Step(s, e).next == s.next + if e.Queue? then 1 else 0
  {
    hide Mirrors.Last;
  }

  lemma AbsorbedStep(s: State, e: Event)
    requires Enabled(s, e)
    ensures Step(s, e).absorbed
         == s.absorbed + match e case BacklogArrives(rows) => rows case FrameArrives(row) => [row] case _ => []
  {
    hide Mirrors.Last;
    assert s.absorbed + [] == s.absorbed;
  }

  lemma FlagsTold(s: State, e: Event)
    requires Enabled(s, e)
    ensures var t := Step(s, e);
            && (t.stop <==> s.stop || e.StopCalled?)
            && (t.error <==> s.error || e.ConnectFails? || e.LineEnds?)
            && (t.connected <==> e.MarkConnected? || (s.connected && !e.ConnectFails? && !e.LineEnds? && !e.Leave?))
  {
    hide Mirrors.Last;
  }

  /** Over any run: what was queued, answered, sent and absorbed, whether the line was stopped
      or failed, and whether it is up, is what the events say. */
  lemma {:induction false} EventsTell(events: seq<Event>)
    requires Run(INITIAL, events)
    ensures Told(After(INITIAL, events), events)
    decreases |events|
  {
    if events != [] {
      var front, e := Front(events), Final(events);
      LastStep(events);
      EventsTell(front);
      InvInitial();
      InvRun(INITIAL, front);
      AnswersStep(After(INITIAL, front), e);
      QueuedStep(After(INITIAL, front), e);
      AbsorbedStep(After(INITIAL, front), e);
      FlagsTold(After(INITIAL, front), e);
      InFront(events, StopCalled);
      InFront(events, ConnectFails);
      InFront(events, LineEnds);
      hide Inv, Step, Run, After, Enabled, Front, Final;
    }
  }

  /** The newest 500 of all, frame by frame, or all where there are fewer. */
  ghost predicate NewestOf(frames: seq<Row>, all: seq<Row>) {
    && |frames| == (if |all| > 500 then 500 else |all|)
    && forall i :: 0 <= i < |frames| ==> frames[i] == all[|all| - |frames| + i]
  }

  lemma LastIsNewest(all: seq<Row>)
    ensures NewestOf(Mirrors.Last(all, Mirrors.MIRROR_CAP), all)
  {
    var frames := Mirrors.Last(all, Mirrors.MIRROR_CAP);
    if |all| > 500 {
      assert frames == all[|all| - 500..];
    } else {
      assert frames == all;
    }
    hide Mirrors.Last;
  }

  /** In every state of every run the mirror holds the newest 500 frames absorbed. */
  lemma MirrorHoldsNewest(events: seq<Event>)
    requires Run(INITIAL, events)
    ensures NewestOf(After(INITIAL, events).frames, AbsorbedBy(events))
  {
    hide NewestOf, Mirrors.Last, AbsorbedBy, After, Run;
    EventsTell(events);
    MirrorIsRecent(events);
    LastIsNewest(AbsorbedBy(events));
  }

  // ---- a round serves what it finds ------------------------------------------------------------

  /** The loop body on so many queued slots, with an idle connection. */
  function Round(n: nat): seq<Event> {
    [CheckStop, Drain] + (Serve(n) + [Served, NothingArrives, RenewOrNot])
  }

  function Serve(n: nat): seq<Event> {
    if n == 0 then [] else [Take, Transmit, Answered] + Serve(n - 1)
  }

  function ByConnection(slots: seq<nat>): (r: seq<Answer>)
    ensures |r| == |slots| && forall i :: 0 <= i < |r| ==> r[i] == Answer(slots[i], false)
  {
    seq(|slots|, i requires 0 <= i < |slots| => Answer(slots[i], false))
  }

  lemma {:induction false} RunConcat(s: State, a: seq<Event>, b: seq<Event>)
    requires Run(s, a) && Run(After(s, a), b)
    ensures Run(s, a + b) && After(s, a + b) == After(After(s, a), b)
    decreases |a|
  {
    hide Step, Enabled;
    if a == [] {
      assert a + b == b;
    } else {
      RunConcat(Step(s, a[0]), a[1..], b);
      Prepend(s, a[0], a[1..] + b);
      assert a + b == [a[0]] + (a[1..] + b);
    }
  }

  lemma ThreeSteps(s: State, a: Event, b: Event, c: Event)
    requires Enabled(s, a) && Enabled(Step(s, a), b) && Enabled(Step(Step(s, a), b), c)
    ensures Run(s, [a, b, c]) && After(s, [a, b, c]) == Step(Step(Step(s, a), b), c)
  {
    hide Step, Enabled;
    var t := Step(Step(s, a), b);
    RunEmpty(Step(t, c));
    Prepend(t, c, []);
    Prepend(Step(s, a), b, [c]);
    Prepend(s, a, [b, c]);
    assert [c] + [] == [c] && [b] + [c] == [b, c] && [a] + [b, c] == [a, b, c];
  }

  lemma OneServed(s: State)
    requires s.place.Serving? && s.place.batch != []
    ensures Run(s, [Take, Transmit, Answered])
    ensures After(s, [Take, Transmit, Answered])
            == s.(place := Serving(s.place.batch[1..]), sent := s.sent + [s.place.batch[0]],
                  answers := s.answers + [Answer(s.place.batch[0], false)])
  {
    ThreeSteps(s, Take, Transmit, Answered);
    hide Run, After;
  }

  lemma Regrouped<T>(a: seq<T>, x: T, b: seq<T>)
    ensures (a + [x]) + b == a + ([x] + b)
  {
  }

  /** The slots in hand are sent and answered one after the other. */
  lemma {:induction false} ServesBatch(s: State)
    requires s.place.Serving?
    ensures Run(s, Serve(|s.place.batch|))
    ensures After(s, Serve(|s.place.batch|))
            == s.(place := Serving([]), sent := s.sent + s.place.batch,
                  answers := s.answers + ByConnection(s.place.batch))
    decreases |s.place.batch|
  {
    var batch := s.place.batch;
    hide Run, After, Step, Enabled;
    if batch == [] {
      RunEmpty(s);
      assert s.sent + [] == s.sent && s.answers + ByConnection([]) == s.answers;
    } else {
      var t := s.(place := Serving(batch[1..]), sent := s.sent + [batch[0]],
                  answers := s.answers + [Answer(batch[0], false)]);
      OneServed(s);
      ServesBatch(t);
      RunConcat(s, [Take, Transmit, Answered], Serve(|batch| - 1));
      Regrouped(s.sent, batch[0], batch[1..]);
      Regrouped(s.answers, Answer(batch[0], false), ByConnection(batch[1..]));
      assert batch == [batch[0]] + batch[1..];
      assert ByConnection(batch) == [Answer(batch[0], false)] + ByConnection(batch[1..]);
    }
  }

  /** From the top of the loop, with no stop called and the connection idle, the reader left to
      itself sends and answers everything queued and comes back to the top. */
  lemma RoundServes(s: State)
    requires s.place.LoopTop? && !s.stop
    ensures Run(s, Round(|s.outbox|))
    ensures After(s, Round(|s.outbox|))
            == s.(outbox := [], sent := s.sent + s.outbox, answers := s.answers + ByConnection(s.outbox))
  {
    var held := s.(place := Serving(s.outbox), outbox := []);
    var n, last := |s.outbox|, [Served, NothingArrives, RenewOrNot];
    ServesBatch(held);
    IdleEnd(After(held, Serve(n)));
    DrainStarts(s);
    hide Run, After, Step, Enabled, Serve;
    RunConcat(held, Serve(n), last);
    Prepend(s.(place := AboutToDrain), Drain, Serve(n) + last);
    Prepend(s, CheckStop, [Drain] + (Serve(n) + last));
    assert Round(n) == [CheckStop] + ([Drain] + (Serve(n) + last));
  }

  lemma DrainStarts(s: State)
    requires s.place.LoopTop? && !s.stop
    ensures Enabled(s, CheckStop) && Step(s, CheckStop) == s.(place := AboutToDrain)
    ensures Enabled(s.(place := AboutToDrain), Drain)
    ensures Step(s.(place := AboutToDrain), Drain) == s.(place := Serving(s.outbox), outbox := [])
  {
  }

  lemma IdleEnd(s: State)
    requires s.place == Serving([])
    ensures Run(s, [Served, NothingArrives, RenewOrNot])
    ensures After(s, [Served, NothingArrives, RenewOrNot]) == s.(place := LoopTop)
  {
    ThreeSteps(s, Served, NothingArrives, RenewOrNot);
    hide Run, After;
  }

  // ---- a stop is heeded --------------------------------------------------------------------------

  function Drains(events: seq<Event>): nat {
    if events == [] then 0 else (if events[0] == Drain then 1 else 0) + Drains(events[1..])
  }

  /** After a stop was called the outbox is drained at most once more, and only where the reader
      had looked before. */
  lemma {:induction false} StopHeeded(s: State, events: seq<Event>)
    requires s.stop && Run(s, events)
    ensures Drains(events) <= if s.place.AboutToDrain? then 1 else 0
    decreases |events|
  {
    if events != [] {
      StopStep(s, events[0]);
      StopHeeded(Step(s, events[0]), events[1..]);
      hide Step, Enabled;
    }
  }

  lemma StopStep(s: State, e: Event)
    requires s.stop && Enabled(s, e)
    ensures Step(s, e).stop
    ensures (if e == Drain then 1 else 0) + (if Step(s, e).place.AboutToDrain? then 1 else 0)
         <= if s.place.AboutToDrain? then 1 else 0
  {
  }

  /** And at the top of the loop a stopped line ends. */
  lemma StopEnds(s: State)
    requires s.place.LoopTop? && s.stop
    ensures Run(s, [CheckStop, Leave]) && After(s, [CheckStop, Leave]) == s.(place := Done(Stopped), connected := false)
  {
    var left := s.(place := Leaving(Stopped));
    RunEmpty(left.(place := Done(Stopped), connected := false));
    Prepend(left, Leave, []);
    Prepend(s, CheckStop, [Leave]);
  }
}
