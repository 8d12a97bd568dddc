/** What one read of a batch shows and where it leaves the cursor, in the frames' own fields and
    by their places in the transcript. */
module Shown {
  import opened Attestation
  import opened Frames
  import opened Json
  import opened Ordering
  import opened Reading
  import opened Rows
  import opened Sequences
  import ReadingRuns

  // ---- picking by place ---------------------------------------------------------------------

  /** The places at, in ascending order, are where `out` stands in `all`. */
  ghost predicate Picks<T(!new)>(all: seq<T>, at: seq<nat>, out: seq<T>) {
    && |at| == |out|
    && (forall j, k :: 0 <= j < k < |at| ==> at[j] < at[k])
    && (forall k :: 0 <= k < |at| ==> at[k] < |all| && out[k] == all[at[k]])
  }

  lemma PickRest(all: seq<Row>, at: seq<nat>, out: seq<Row>)
    requires all != [] && Picks(all[1..], at, out)
    ensures Picks(all, Shifted(at), out) && Picks(all, [0] + Shifted(at), [all[0]] + out)
  {
  }

  /** Whichever of the two `at` is, its places are those of the rest counted from one further
      back, with the first place when it is kept. */
  lemma PlacesOf(rest: seq<nat>, keepFirst: bool, i: nat)
    ensures var at := if keepFirst then [0] + Shifted(rest) else Shifted(rest);
            i in at <==> if i == 0 then keepFirst else i - 1 in rest
  {
    hide Shifted;
    ShiftedIn(rest, i);
    ShiftedBehindZero(rest, i);
  }

  lemma {:induction false} FilterPicks(rows: seq<Row>, keep: Row -> bool) returns (at: seq<nat>)
    ensures Picks(rows, at, Filter(rows, keep))
    ensures forall i: nat :: i in at <==> i < |rows| && keep(rows[i])
    decreases |rows|
  {
    at := [];
    if rows != [] {
      var rest := FilterPicks(rows[1..], keep);
      assert forall n: nat :: n in rest <==> n + 1 < |rows| && keep(rows[n + 1]);
      hide Shifted;
      PickRest(rows, rest, Filter(rows[1..], keep));
      at := if keep(rows[0]) then [0] + Shifted(rest) else Shifted(rest);
      assert Picks(rows, at, Filter(rows, keep));
      hide Picks;
      forall i: nat
        ensures i in at <==> i < |rows| && keep(rows[i])
      {
        PlacesOf(rest, keep(rows[0]), i);
        if i > 0 {
          var n: nat := i - 1;
          assert n in rest <==> n + 1 < |rows| && keep(rows[n + 1]);
        }
      }
    }
  }

  lemma {:induction false} DedupePicks(seen: set<string>, rows: seq<Row>) returns (at: seq<nat>)
    ensures Picks(rows, at, DedupeFrom(seen, rows))
    ensures forall i: nat :: i in at <==> FirstOfItsId(seen, rows, i)
    decreases |rows|
  {
    at := [];
    if rows != [] {
      var head := rows[0];
      var seen' := if head.id != "" && head.id !in seen then seen + {head.id} else seen;
      var rest := DedupePicks(seen', rows[1..]);
      PickRest(rows, rest, DedupeFrom(seen', rows[1..]));
      at := if head.id != "" && head.id in seen then Shifted(rest) else [0] + Shifted(rest);
      forall i: nat
        ensures i in at <==> FirstOfItsId(seen, rows, i)
      {
        ShiftedIn(rest, i);
        if 0 < i < |rows| {
          FirstInRest(seen, seen', rows, i);
        }
      }
    }
  }

  lemma FirstInRest(seen: set<string>, seen': set<string>, rows: seq<Row>, i: nat)
    requires 0 < i < |rows|
    requires seen' == if rows[0].id != "" && rows[0].id !in seen then seen + {rows[0].id} else seen
    ensures FirstOfItsId(seen', rows[1..], i - 1) <==> FirstOfItsId(seen, rows, i)
  {
    var rest := rows[1..];
    assert forall j :: 0 <= j < i - 1 ==> rest[j] == rows[j + 1];
    if FirstOfItsId(seen', rest, i - 1) {
      assert forall j :: 0 < j < i ==> rows[j] == rest[j - 1];
    }
  }

  function Composed(at: seq<nat>, bt: seq<nat>): (r: seq<nat>)
    requires forall k :: 0 <= k < |bt| ==> bt[k] < |at|
    ensures |r| == |bt| && forall k :: 0 <= k < |bt| ==> r[k] == at[bt[k]]
  {
    seq(|bt|, k requires 0 <= k < |bt| => at[bt[k]])
  }

  lemma PicksCompose(all: seq<Row>, at: seq<nat>, some: seq<Row>, bt: seq<nat>, out: seq<Row>)
    requires Picks(all, at, some) && Picks(some, bt, out)
    ensures Picks(all, Composed(at, bt), out)
    ensures forall i :: i in Composed(at, bt) <==> exists k :: 0 <= k < |at| && at[k] == i && k in bt
  {
    var ct := Composed(at, bt);
    forall i
      ensures i in ct <==> exists k :: 0 <= k < |at| && at[k] == i && k in bt
    {
      if i in ct {
        var m :| 0 <= m < |ct| && ct[m] == i;
        assert bt[m] in bt && at[bt[m]] == i;
      }
      if k :| 0 <= k < |at| && at[k] == i && k in bt {
        var m :| 0 <= m < |bt| && bt[m] == k;
        assert ct[m] == i;
      }
    }
  }

  // ---- rows by place ----------------------------------------------------------------------------

  /** Row i is no plumbing, and no earlier row that is none has its id. */
  ghost predicate SaidFirst(rows: seq<Row>, i: nat) {
    && i < |rows| && !Transport(rows[i])
    && (rows[i].id == "" || forall j :: 0 <= j < i && !Transport(rows[j]) ==> rows[j].id != rows[i].id)
  }

  lemma FirstAmongPicked(rows: seq<Row>, at: seq<nat>, said: seq<Row>, k: nat)
    requires Picks(rows, at, said) && k < |at| && forall i: nat :: i in at <==> i < |rows| && !Transport(rows[i])
    ensures FirstOfItsId({}, said, k) <==> SaidFirst(rows, at[k])
  {
    assert at[k] in at;
    if FirstOfItsId({}, said, k) && said[k].id != "" {
      forall j | 0 <= j < at[k] && !Transport(rows[j])
        ensures rows[j].id != rows[at[k]].id
      {
        assert j in at;
        var m :| 0 <= m < |at| && at[m] == j;
        assert m < k;
      }
    }
    if SaidFirst(rows, at[k]) && said[k].id != "" {
      forall m | 0 <= m < k
        ensures said[m].id != said[k].id
      {
        assert at[m] in at;
      }
    }
  }

  lemma ConsideredPicks(frames: seq<Row>) returns (at: seq<nat>)
    ensures Picks(InOrder(frames), at, Considered(frames))
    ensures forall i: nat :: i in at <==> SaidFirst(InOrder(frames), i)
  {
    var rows := InOrder(frames);
    var said := Conversation(rows);
    var kept := FilterPicks(rows, Spoken());
    var first := DedupePicks({}, said);
    PicksCompose(rows, kept, said, first, Considered(frames));
    at := Composed(kept, first);
    hide Filter, DedupeFrom, InOrder, FirstOfItsId, SaidFirst;
    forall i: nat
      ensures i in at <==> SaidFirst(rows, i)
    {
      if k :| 0 <= k < |kept| && kept[k] == i {
        FirstAmongPicked(rows, kept, said, k);
        OnePlace(kept, k);
      } else {
        assert i !in kept;
        NotSaid(rows, i);
      }
    }
  }

  lemma OnePlace(at: seq<nat>, k: nat)
    requires k < |at| && forall i, j :: 0 <= i < j < |at| ==> at[i] < at[j]
    ensures forall m :: 0 <= m < |at| && at[m] == at[k] ==> m == k
  {
  }

  lemma NotSaid(rows: seq<Row>, i: nat)
    ensures SaidFirst(rows, i) ==> i < |rows| && !Transport(rows[i])
  {
  }

  /** The answer is the rows of the ordered batch at the places that are said first and, unless
      all are asked for, are news. */
  lemma AnswerPicks(frames: seq<Row>, record: Record, showAll: bool) returns (at: seq<nat>)
    ensures Picks(InOrder(frames), at, Answer(frames, record, showAll))
    ensures forall i: nat ::
              i in at <==> SaidFirst(InOrder(frames), i) && (showAll || IsNews(record, InOrder(frames)[i]))
  {
    var rows, some := InOrder(frames), Considered(frames);
    at := ConsideredPicks(frames);
    if !showAll {
      var first := at;
      var news := FilterPicks(some, NewsFor(record));
      PicksCompose(rows, first, some, news, Answer(frames, record, showAll));
      at := Composed(first, news);
      hide Filter, Considered, InOrder, SaidFirst, IsNews;
      forall i: nat
        ensures i in at <==> SaidFirst(rows, i) && IsNews(record, rows[i])
      {
        if k :| 0 <= k < |first| && first[k] == i {
          OnePlace(first, k);
        }
        NotSaid(rows, i);
      }
    }
  }

  // ---- frames by place --------------------------------------------------------------------------

  function Clock(rt: Runtime, frame: Fields): int
    requires Placed(rt, frame)
  {
    IntOr(rt, Get(frame, "lamport"), 0).n
  }

  function SequenceNumber(rt: Runtime, frame: Fields): int
    requires Placed(rt, frame)
  {
    IntOr(rt, Get(frame, "seq"), 0).n
  }

  /** The frame stands behind a position: by its clock, then by its sender, then by its
      sequence number. */
  ghost predicate Beyond(rt: Runtime, frame: Fields, c: Position)
    requires Placed(rt, frame)
  {
    var from := TextOr(rt, Get(frame, "from"));
    || Clock(rt, frame) > c.lamport
    || (Clock(rt, frame) == c.lamport && Precedes(c.sender, from))
    || (Clock(rt, frame) == c.lamport && from == c.sender && SequenceNumber(rt, frame) > c.seqno)
  }

  predicate Plumbing(rt: Runtime, frame: Fields) {
    var kind := TextOr(rt, Get(frame, "kind"));
    kind == "welcome" || kind == "sync" || kind == "ack"
  }

  /** Frame i is no plumbing, and no earlier frame that is none has its id, if it has one. */
  ghost predicate Said(rt: Runtime, ordered: seq<Fields>, i: nat) {
    && i < |ordered| && !Plumbing(rt, ordered[i])
    && var id := TextOr(rt, Get(ordered[i], "id"));
       id == "" || forall j :: 0 <= j < i && !Plumbing(rt, ordered[j]) ==> TextOr(rt, Get(ordered[j], "id")) != id
  }

  lemma PlacedAt(rt: Runtime, frames: seq<Fields>, i: nat)
    requires AllPlaced(rt, frames) && i < |Transcript(rt, frames)|
    ensures Placed(rt, Transcript(rt, frames)[i])
  {
    SortedIsSort(frames, ByPosition(rt));
    InMultiset(Transcript(rt, frames), frames);
    assert Transcript(rt, frames)[i] in frames;
    hide Sorted, Placed;
  }

  lemma RowAt(rt: Runtime, frames: seq<Fields>, i: nat)
    requires AllPlaced(rt, frames) && i < |Transcript(rt, frames)|
    ensures var frame, rows := Transcript(rt, frames)[i], InOrder(RowsOf(rt, frames));
            && |rows| == |Transcript(rt, frames)| && Placed(rt, frame)
            && rows[i].id == TextOr(rt, Get(frame, "id")) && (Transport(rows[i]) <==> Plumbing(rt, frame))
            && rows[i].frame == Obj(frame)
            && rows[i].position == Position(Clock(rt, frame), TextOr(rt, Get(frame, "from")), SequenceNumber(rt, frame))
  {
    OneOrder(rt, frames);
    RowsOfFrames(rt, Transcript(rt, frames));
    PlacedAt(rt, frames, i);
    hide Transcript, InOrder, TextOr, IntOr, RowsOf, AllPlaced;
    var frame := Transcript(rt, frames)[i];
    assert InOrder(RowsOf(rt, frames))[i] == RowOf(rt, frame);
  }

  lemma SaidMeaning(rt: Runtime, frames: seq<Fields>, i: nat)
    requires AllPlaced(rt, frames)
    ensures SaidFirst(InOrder(RowsOf(rt, frames)), i) <==> Said(rt, Transcript(rt, frames), i)
  {
    var ordered, rows := Transcript(rt, frames), InOrder(RowsOf(rt, frames));
    assert |rows| == |ordered| by {
      OneOrder(rt, frames);
      RowsOfFrames(rt, ordered);
    }
    forall j: nat | j < |ordered|
      ensures rows[j].id == TextOr(rt, Get(ordered[j], "id")) && (Transport(rows[j]) <==> Plumbing(rt, ordered[j]))
    {
      RowAt(rt, frames, j);
    }
    hide Transport, Plumbing, TextOr, Transcript, InOrder;
  }

  lemma {:induction false} FramesBehind(rows: seq<Row>)
    requires forall row :: row in rows ==> row.frame.Obj?
    ensures |FramesOf(rows)| == |rows|
    ensures forall k :: 0 <= k < |rows| ==> FramesOf(rows)[k] == rows[k].frame.fields
  {
    if rows != [] {
      assert rows[0] in rows;
      FramesBehind(rows[1..]);
    }
  }

  /** What is shown: the frames of the transcript, in its order, that are said first and, unless
      everything is asked for, stand behind the cursor and are not the reader's own. */
  lemma ShownExactly(rt: Runtime, frames: seq<Fields>, record: Record, showAll: bool) returns (at: seq<nat>)
    requires AllPlaced(rt, frames)
    ensures Picks(Transcript(rt, frames), at, FramesOf(Answer(RowsOf(rt, frames), record, showAll)))
    ensures forall i: nat :: i in at <==>
              && Said(rt, Transcript(rt, frames), i)
              && (showAll
                  || (Placed(rt, Transcript(rt, frames)[i]) && Beyond(rt, Transcript(rt, frames)[i], record.cursor)
                      && TextOr(rt, Get(Transcript(rt, frames)[i], "from")) != record.peer))
  {
    var ordered, rows := Transcript(rt, frames), InOrder(RowsOf(rt, frames));
    var answer := Answer(RowsOf(rt, frames), record, showAll);
    at := AnswerPicks(RowsOf(rt, frames), record, showAll);
    assert |rows| == |ordered| by {
      OneOrder(rt, frames);
      RowsOfFrames(rt, ordered);
    }
    hide Transcript, InOrder, RowsOf, Answer, SaidFirst, Said, TextOr, Placed, FramesOf;
    forall k | 0 <= k < |at|
      ensures answer[k].frame == Obj(ordered[at[k]])
    {
      RowAt(rt, frames, at[k]);
    }
    FramesBehind(answer);
    forall i: nat
      ensures SaidFirst(rows, i) <==> Said(rt, ordered, i)
      ensures i < |ordered| ==> Placed(rt, ordered[i])
      ensures i < |ordered| ==> (IsNews(record, rows[i]) <==> Beyond(rt, ordered[i], record.cursor)
                                                              && TextOr(rt, Get(ordered[i], "from")) != record.peer)
    {
      SaidMeaning(rt, frames, i);
      if i < |ordered| {
        RowAt(rt, frames, i);
        LessMeaning(record.cursor, rows[i].position);
      }
    }
    forall i: nat
      ensures SaidFirst(rows, i) ==> i < |rows|
    {
      NotSaid(rows, i);
    }
  }

  /** Where the cursor is left: no frame said first stands behind it, and it is where it was or
      at such a frame that stood behind it. */
  lemma CursorExactly(rt: Runtime, frames: seq<Fields>, record: Record)
    requires AllPlaced(rt, frames)
    ensures var ordered, next := Transcript(rt, frames), Advanced(RowsOf(rt, frames), record);
            && next.peer == record.peer
            && (forall i: nat :: Said(rt, ordered, i) ==>
                  Placed(rt, ordered[i]) && !Beyond(rt, ordered[i], next.cursor))
            && (next.cursor == record.cursor
                || exists i: nat ::
                     && Said(rt, ordered, i) && Placed(rt, ordered[i]) && Beyond(rt, ordered[i], record.cursor)
                     && next.cursor == Position(Clock(rt, ordered[i]), TextOr(rt, Get(ordered[i], "from")),
                                                SequenceNumber(rt, ordered[i])))
  {
    var ordered, rows := Transcript(rt, frames), InOrder(RowsOf(rt, frames));
    var next := Advanced(RowsOf(rt, frames), record);
    var some, top := Considered(RowsOf(rt, frames)), next.cursor;
    var at := ConsideredPicks(RowsOf(rt, frames));
    ReadingRuns.FurthestMeaning(record.cursor, some);
    assert |rows| == |ordered| by {
      OneOrder(rt, frames);
      RowsOfFrames(rt, ordered);
    }
    hide Transcript, InOrder, RowsOf, Considered, SaidFirst, Said, TextOr, Placed, Furthest, Less;
    forall i: nat
      ensures SaidFirst(rows, i) <==> Said(rt, ordered, i)
      ensures SaidFirst(rows, i) ==> i < |rows|
    {
      SaidMeaning(rt, frames, i);
      NotSaid(rows, i);
    }
    forall i: nat | Said(rt, ordered, i)
      ensures Placed(rt, ordered[i]) && !Beyond(rt, ordered[i], top)
    {
      RowAt(rt, frames, i);
      LessMeaning(top, rows[i].position);
      assert i in at;
      var k :| 0 <= k < |at| && at[k] == i;
      assert some[k] in some;
      ReadingRuns.NotLess(top, rows[i].position);
    }
    if next.cursor != record.cursor {
      var row :| row in some && row.position == top;
      var k :| 0 <= k < |some| && some[k] == row;
      assert at[k] in at;
      RowAt(rt, frames, at[k]);
      LessMeaning(record.cursor, row.position);
    }
  }
}
