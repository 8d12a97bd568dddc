/** Exactly when reading the bounded mirror is reading everything ever absorbed. */
module MirrorLimits {
  import opened Convergence
  import opened Mirrors
  import opened Ordering
  import opened Reading
  import opened ReadingRuns

  /** Where ids name frames, a frame is in the answer exactly when it is a foreign frame past
      the cursor. */
  lemma AnswerMembers(frames: seq<Row>, record: Record, row: Row)
    requires IdsNameFrames(frames)
    ensures row in Answer(frames, record, false) <==> row in frames && !Transport(row) && IsNews(record, row)
  {
    hide Less, Sorted, Filter, DedupeFrom, Considered, AtMost;
    AnswerMeaning(frames, record, row);
    if row in frames && !Transport(row) && IsNews(record, row) {
      NewsIsShown(frames, record, row);
      if other :| other in frames && other.id == row.id != "" && other in Considered(frames) {
        assert other == row;
        FilterMembers(Considered(frames), NewsFor(record), row);
      }
    }
  }

  lemma FilterAgain(rows: seq<Row>, keep: Row -> bool)
    ensures Filter(Filter(rows, keep), keep) == Filter(rows, keep)
  {
    FilterTwice(rows, keep, keep, keep);
  }

  /** An answer depends on nothing but the frames shown. */
  lemma AnswerOfShown(frames: seq<Row>, record: Record)
    requires IdsFixPositions(frames)
    ensures Answer(frames, record, false) == Answer(Filter(frames, ShownTo(record)), record, false)
  {
    var shown := Filter(frames, ShownTo(record));
    forall x, y | x in shown && y in shown && !Transport(x) && !Transport(y) && x.id == y.id != ""
      ensures x.position == y.position
    {
      FilterMembers(frames, ShownTo(record), x);
      FilterMembers(frames, ShownTo(record), y);
    }
    AnswerIsNewsSorted(frames, record);
    AnswerIsNewsSorted(shown, record);
    FilterAgain(frames, ShownTo(record));
  }

  /** Every evicted frame this reader would be shown was absorbed again. */
  ghost predicate UnreadIsKept(evicted: seq<Row>, recent: seq<Row>, record: Record) {
    forall row :: row in evicted && !Transport(row) && IsNews(record, row) ==> row in recent
  }

  /** With ids naming frames and a position holding one frame, the newer part answers like
      the whole if and only if every evicted frame the reader has not read is also in the
      newer part. */
  lemma AnswersAgree(evicted: seq<Row>, recent: seq<Row>, record: Record)
    requires IdsNameFrames(evicted + recent) && DistinctKeys(evicted + recent, RowPosition())
    requires forall row :: row in evicted + recent && !Transport(row) ==> row.id != ""
    ensures Answer(recent, record, false) == Answer(evicted + recent, record, false)
       <==> UnreadIsKept(evicted, recent, record)
  {
    hide Less, Sorted, Filter, DedupeFrom, Considered, AtMost;
    var all := evicted + recent;
    assert forall row :: row in recent ==> row in all;
    assert IdsNameFrames(recent);
    if Answer(recent, record, false) == Answer(all, record, false) {
      forall row | row in evicted && !Transport(row) && IsNews(record, row)
        ensures row in recent
      {
        assert row in all;
        AnswerMembers(all, record, row);
        AnswerMembers(recent, record, row);
      }
    }
    if UnreadIsKept(evicted, recent, record) {
      KeptAnswers(all, recent, evicted, record);
    }
  }

  lemma KeptAnswers(all: seq<Row>, recent: seq<Row>, evicted: seq<Row>, record: Record)
    requires all == evicted + recent && UnreadIsKept(evicted, recent, record)
    requires IdsNameFrames(all) && DistinctKeys(all, RowPosition())
    requires forall row :: row in all && !Transport(row) ==> row.id != ""
    ensures Answer(recent, record, false) == Answer(all, record, false)
  {
    hide Less, Sorted, Filter, DedupeFrom, Considered, AtMost, Answer;
    var xs, ys := Filter(all, ShownTo(record)), Filter(recent, ShownTo(record));
    forall row
      ensures row in xs <==> row in all && !Transport(row) && IsNews(record, row)
      ensures row in ys <==> row in recent && !Transport(row) && IsNews(record, row)
    {
      FilterMembers(all, ShownTo(record), row);
      FilterMembers(recent, ShownTo(record), row);
    }
    assert SameFrames(xs, ys);
    assert IdsNameFrames(xs) && DistinctKeys(xs, RowPosition());
    SameAnswer(xs, ys, record, false);
    AnswerOfShown(all, record);
    AnswerOfShown(recent, record);
  }

  /** And the cursors agree if and only if no evicted frame lies beyond where the newer part
      moves the cursor. */
  lemma CursorsAgree(evicted: seq<Row>, recent: seq<Row>, record: Record)
    requires IdsFixPositions(evicted + recent)
    ensures Advanced(recent, record) == Advanced(evicted + recent, record)
       <==> forall row :: row in evicted && !Transport(row) ==>
              AtMost(row.position, Advanced(recent, record).cursor)
  {
    hide Less, Sorted, Filter, DedupeFrom, Considered, AtMost, Furthest;
    var all := evicted + recent;
    var here, there := Considered(recent), Considered(all);
    var near, far := Furthest(record.cursor, here), Furthest(record.cursor, there);
    assert IdsFixPositions(recent);
    FurthestMeaning(record.cursor, here);
    FurthestMeaning(record.cursor, there);
    forall row | row in evicted && !Transport(row)
      ensures AtMost(row.position, far)
    {
      assert row in all;
      ConsideredCovers(all, row);
    }
    if forall row :: row in evicted && !Transport(row) ==> AtMost(row.position, near) {
      NoneBeyond(evicted, recent, record, near);
      forall y | y in here
        ensures AtMost(y.position, far)
      {
        ConsideredMember(recent, y);
        ConsideredCovers(all, y);
      }
      if near != record.cursor {
        var y :| y in here && y.position == near;
        assert AtMost(near, far);
      }
      Antisymmetric(near, far);
    }
  }

  lemma NoneBeyond(evicted: seq<Row>, recent: seq<Row>, record: Record, near: Position)
    requires IdsFixPositions(evicted + recent) && near == Furthest(record.cursor, Considered(recent))
    requires forall row :: row in evicted && !Transport(row) ==> AtMost(row.position, near)
    ensures AtMost(Furthest(record.cursor, Considered(evicted + recent)), near)
  {
    hide Less, Sorted, Filter, DedupeFrom, Considered, AtMost, Furthest;
    var all := evicted + recent;
    var far := Furthest(record.cursor, Considered(all));
    assert IdsFixPositions(recent);
    FurthestMeaning(record.cursor, Considered(recent));
    FurthestMeaning(record.cursor, Considered(all));
    if far != record.cursor {
      var x :| x in Considered(all) && x.position == far;
      ConsideredMember(all, x);
      if x !in evicted {
        ConsideredCovers(recent, x);
      }
    }
  }

  /** For the mirror: its answer is the full history's if and only if every evicted frame the
      reader has not read is in the mirror again. */
  lemma MirrorAnswersAgree(absorbed: seq<Row>, record: Record)
    requires IdsNameFrames(absorbed) && DistinctKeys(absorbed, RowPosition())
    requires forall row :: row in absorbed && !Transport(row) ==> row.id != ""
    ensures Answer(Last(absorbed, MIRROR_CAP), record, false) == Answer(absorbed, record, false)
       <==> UnreadIsKept(Evicted(absorbed), Last(absorbed, MIRROR_CAP), record)
  {
    hide Answer;
    assert Evicted(absorbed) + Last(absorbed, MIRROR_CAP) == absorbed;
    AnswersAgree(Evicted(absorbed), Last(absorbed, MIRROR_CAP), record);
  }
}
