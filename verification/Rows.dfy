/** Decoded frames as the rows reading works on, and what convergence of reading means for
    trust: receivers of the same frames bind the same keys and the same owners. */
module Rows {
  import opened Attestation
  import opened Frames
  import opened Json
  import opened Ordering
  import opened Reading
  import opened Wrappers
  import Convergence
  import ReadingRuns

  /** What `dedupe`, `order` and `fold_new` read off a frame. */
  function RowOf(rt: Runtime, frame: Fields): Row {
    Row(TextOr(rt, Get(frame, "id")), TextOr(rt, Get(frame, "kind")), PositionOf(rt, frame), Obj(frame))
  }

  function RowsOf(rt: Runtime, frames: seq<Fields>): seq<Row> {
    if frames == [] then [] else [RowOf(rt, frames[0])] + RowsOf(rt, frames[1..])
  }

  /** The frames behind rows that came from frames. */
  function FramesOf(rows: seq<Row>): seq<Fields> {
    if rows == [] then []
    else (if rows[0].frame.Obj? then [rows[0].frame.fields] else []) + FramesOf(rows[1..])
  }

  lemma {:induction false} RowsOfFrames(rt: Runtime, frames: seq<Fields>)
    ensures FramesOf(RowsOf(rt, frames)) == frames
    ensures |RowsOf(rt, frames)| == |frames|
    ensures forall i :: 0 <= i < |frames| ==> RowsOf(rt, frames)[i] == RowOf(rt, frames[i])
  {
    if frames != [] {
      var head, rest := RowOf(rt, frames[0]), RowsOf(rt, frames[1..]);
      RowsOfFrames(rt, frames[1..]);
      assert RowsOf(rt, frames) == [head] + rest && ([head] + rest)[1..] == rest;
      assert FramesOf([head] + rest) == [frames[0]] + FramesOf(rest);
      assert frames == [frames[0]] + frames[1..];
      hide RowOf, RowsOf, FramesOf;
    }
  }

  /** Rows that some frames give. */
  ghost predicate FromFrames(rt: Runtime, rows: seq<Row>) {
    forall row :: row in rows ==> row.frame.Obj? && row == RowOf(rt, row.frame.fields)
  }

  lemma {:induction false} FramesOfRows(rt: Runtime, rows: seq<Row>)
    requires FromFrames(rt, rows)
    ensures RowsOf(rt, FramesOf(rows)) == rows
  {
    if rows != [] {
      assert rows == [rows[0]] + rows[1..];
      assert rows[0] in rows;
      FramesOfRows(rt, rows[1..]);
      assert FramesOf(rows)[1..] == FramesOf(rows[1..]);
    }
  }

  lemma {:induction false} RowsInsert(rt: Runtime, frame: Fields, frames: seq<Fields>)
    ensures RowsOf(rt, Insert(frame, frames, ByPosition(rt)))
         == Insert(RowOf(rt, frame), RowsOf(rt, frames), RowPosition())
    decreases |frames|
  {
    hide Less, PositionOf;
    RowsStep(rt, frame, frames);
    if frames == [] {
      RowsStep(rt, frame, []);
    } else {
      var head, rest := frames[0], frames[1..];
      assert frames == [head] + rest;
      RowsStep(rt, head, rest);
      if Less(PositionOf(rt, head), PositionOf(rt, frame)) {
        RowsInsert(rt, frame, rest);
        RowsStep(rt, head, Insert(frame, rest, ByPosition(rt)));
      }
    }
  }

  lemma RowsStep(rt: Runtime, head: Fields, rest: seq<Fields>)
    ensures RowsOf(rt, [head] + rest) == [RowOf(rt, head)] + RowsOf(rt, rest)
    ensures ([RowOf(rt, head)] + RowsOf(rt, rest))[1..] == RowsOf(rt, rest)
  {
    assert ([head] + rest)[1..] == rest;
  }

  /** Reading and the key fold go by one and the same order. */
  lemma {:induction false} OneOrder(rt: Runtime, frames: seq<Fields>)
    ensures RowsOf(rt, Transcript(rt, frames)) == InOrder(RowsOf(rt, frames))
  {
    hide Insert;
    if frames != [] {
      OneOrder(rt, frames[1..]);
      RowsInsert(rt, frames[0], Transcript(rt, frames[1..]));
      assert RowsOf(rt, frames)[1..] == RowsOf(rt, frames[1..]);
    }
  }

  /** `fold_new` on decoded frames: where one frame's clock or sequence cannot be read the
      sort raises before anything is shown or moved. */
  method FoldNew(rt: Runtime, reader: Reader, frames: seq<Fields>, showAll: bool, advance: bool)
    returns (out: Option<seq<Fields>>)
    modifies reader
    ensures out.None? <==> !AllPlaced(rt, frames)
    ensures out.None? ==> reader.record == old(reader.record)
    ensures out.Some? ==>
              && out.value == FramesOf(Answer(RowsOf(rt, frames), old(reader.record), showAll))
              && reader.record == if advance then Advanced(RowsOf(rt, frames), old(reader.record))
                                  else old(reader.record)
    ensures out.Some? ==> forall frame :: frame in out.value ==> frame in frames
  {
    hide Answer, Advanced, AllPlaced;
    if !AllPlaced(rt, frames) {
      return None;
    }
    var rows := RowsOf(rt, frames);
    var shown := reader.FoldNew(rows, showAll, advance);
    AnswerFrames(rt, frames, old(reader.record), showAll);
    return Some(FramesOf(shown));
  }

  lemma AnswerFrames(rt: Runtime, frames: seq<Fields>, record: Record, showAll: bool)
    ensures forall frame :: frame in FramesOf(Answer(RowsOf(rt, frames), record, showAll)) ==> frame in frames
  {
    var rows := RowsOf(rt, frames);
    var answer := Answer(rows, record, showAll);
    forall frame | frame in FramesOf(answer)
      ensures frame in frames
    {
      var row := BehindFrame(answer, frame);
      ShownIsConsidered(rows, record, showAll, row);
      ReadingRuns.ConsideredMember(rows, row);
      RowsMembers(rt, frames, row);
    }
  }

  lemma ShownIsConsidered(rows: seq<Row>, record: Record, showAll: bool, row: Row)
    requires row in Answer(rows, record, showAll)
    ensures row in Considered(rows)
  {
    hide Considered;
    FilterMembers(Considered(rows), NewsFor(record), row);
  }

  lemma {:induction false} BehindFrame(rows: seq<Row>, frame: Fields) returns (row: Row)
    requires frame in FramesOf(rows)
    ensures row in rows && row.frame == Obj(frame)
  {
    if rows[0].frame == Obj(frame) {
      row := rows[0];
    } else {
      row := BehindFrame(rows[1..], frame);
    }
  }

  /** The frames a receiver keeps. */
  function Kept(rt: Runtime, frames: seq<Fields>): seq<Fields> {
    FramesOf(Deduped(RowsOf(rt, frames)))
  }

  lemma KeptRows(rt: Runtime, frames: seq<Fields>)
    ensures RowsOf(rt, Kept(rt, frames)) == Deduped(RowsOf(rt, frames))
    ensures forall f :: f in Kept(rt, frames) ==> f in frames
  {
    var rows := RowsOf(rt, frames);
    RowsOfFrames(rt, frames);
    forall row | row in Deduped(rows)
      ensures row.frame.Obj? && row == RowOf(rt, row.frame.fields) && row.frame.fields in frames
    {
      DedupeKeeps({}, rows, row);
      var i :| FirstOfItsId({}, rows, i) && rows[i] == row;
      assert rows[i] == RowOf(rt, frames[i]);
    }
    FramesOfRows(rt, Deduped(rows));
    RowsOfFrames(rt, Kept(rt, frames));
    forall f | f in Kept(rt, frames)
      ensures f in frames
    {
      var i :| 0 <= i < |Kept(rt, frames)| && Kept(rt, frames)[i] == f;
      assert RowsOf(rt, Kept(rt, frames))[i] == RowOf(rt, f);
      assert RowOf(rt, f) in Deduped(rows);
    }
  }

  /** Every frame has an id, an id names one frame, and a position holds one frame. */
  ghost predicate WellIdentified(rt: Runtime, frames: seq<Fields>) {
    && (forall f :: f in frames ==> TextOr(rt, Get(f, "id")) != "")
    && (forall f, g :: f in frames && g in frames && TextOr(rt, Get(f, "id")) == TextOr(rt, Get(g, "id")) ==> f == g)
    && (forall f, g :: f in frames && g in frames && PositionOf(rt, f) == PositionOf(rt, g) ==> f == g)
  }

  lemma RowsMembers(rt: Runtime, frames: seq<Fields>, row: Row)
    ensures row in RowsOf(rt, frames) <==> exists f :: f in frames && row == RowOf(rt, f)
  {
    RowsOfFrames(rt, frames);
    if f :| f in frames && row == RowOf(rt, f) {
      var i :| 0 <= i < |frames| && frames[i] == f;
      assert RowsOf(rt, frames)[i] == row;
    }
  }

  /** Receivers of the same frames, in any order and with any repeats, hold one transcript. */
  lemma SameKept(rt: Runtime, fs: seq<Fields>, gs: seq<Fields>)
    requires WellIdentified(rt, fs) && forall f :: f in fs <==> f in gs
    ensures Transcript(rt, Kept(rt, fs)) == Transcript(rt, Kept(rt, gs))
  {
    hide PositionOf, Sorted, DedupeFrom, TextOr;
    var xs, ys := RowsOf(rt, fs), RowsOf(rt, gs);
    forall row
      ensures row in xs <==> exists f :: f in fs && row == RowOf(rt, f)
      ensures row in ys <==> exists f :: f in gs && row == RowOf(rt, f)
    {
      RowsMembers(rt, fs, row);
      RowsMembers(rt, gs, row);
    }
    Convergence.Converges(xs, ys);
    KeptRows(rt, fs);
    KeptRows(rt, gs);
    OneOrder(rt, Kept(rt, fs));
    OneOrder(rt, Kept(rt, gs));
    RowsOfFrames(rt, Transcript(rt, Kept(rt, fs)));
    RowsOfFrames(rt, Transcript(rt, Kept(rt, gs)));
  }

  /** Convergence of trust: whatever the delivery, receivers of the same frames publish the
      same keys and the same owners, with any one verdict function and signature check. */
  lemma SameTrust(rt: Runtime, judge: Judge, check: Check, room: string, fs: seq<Fields>, gs: seq<Fields>)
    requires WellIdentified(rt, fs) && AllPlaced(rt, fs) && forall f :: f in fs <==> f in gs
    ensures KeysOf(rt, judge, Kept(rt, fs)) == KeysOf(rt, judge, Kept(rt, gs))
    ensures OwnersOf(rt, judge, check, room, Kept(rt, fs)) == OwnersOf(rt, judge, check, room, Kept(rt, gs))
  {
    assert forall f :: f in fs ==> Placed(rt, f);
    assert forall f :: f in gs ==> Placed(rt, f);
    KeptPlaced(rt, fs);
    KeptPlaced(rt, gs);
    hide *;
    SameKept(rt, fs, gs);
    TrustByTranscript(rt, judge, check, room, Kept(rt, fs), Kept(rt, gs));
  }

  lemma KeptPlaced(rt: Runtime, frames: seq<Fields>)
    requires forall f :: f in frames ==> Placed(rt, f)
    ensures AllPlaced(rt, Kept(rt, frames))
  {
    KeptRows(rt, frames);
    hide Kept, Placed;
    assert forall f :: f in Kept(rt, frames) ==> Placed(rt, f);
  }

  lemma TrustByTranscript(rt: Runtime, judge: Judge, check: Check, room: string, fs: seq<Fields>, gs: seq<Fields>)
    requires Transcript(rt, fs) == Transcript(rt, gs) && AllPlaced(rt, fs) && AllPlaced(rt, gs)
    ensures KeysOf(rt, judge, fs) == KeysOf(rt, judge, gs)
    ensures OwnersOf(rt, judge, check, room, fs) == OwnersOf(rt, judge, check, room, gs)
  {
    hide OwnersAmong, KeyEvents, ClaimEvents, AllPlaced, Transcript;
  }
}
