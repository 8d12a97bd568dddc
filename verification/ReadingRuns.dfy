/** Whole runs of `fold_new`: a reader called again and again, batch after batch, never
    goes back, never shows a position twice, and loses nothing but exact ties. */
module ReadingRuns {
  import Json
  import opened Ordering
  import opened Reading

  // ---- the furthest position --------------------------------------------------------------

  lemma {:induction false} FurthestMeaning(top: Position, rows: seq<Row>)
    ensures AtMost(top, Furthest(top, rows))
    ensures forall row :: row in rows ==> AtMost(row.position, Furthest(top, rows))
    ensures Furthest(top, rows) == top || exists row :: row in rows && row.position == Furthest(top, rows)
    decreases |rows|
  {
    if rows != [] {
      var head, rest := rows[0], rows[1..];
      var next := if Less(top, head.position) then head.position else top;
      var f := Furthest(next, rest);
      FurthestMeaning(next, rest);
      Trichotomy(top, head.position);
      Transitive(top, next, f);
      Transitive(head.position, next, f);
      assert rows == [head] + rest;
      if f == next && next == head.position {
        assert head in rows && head.position == f;
      }
    }
  }

  /** The furthest position depends only on which positions beyond `top` occur. */
  lemma FurthestSame(top: Position, xs: seq<Row>, ys: seq<Row>)
    requires forall x :: x in xs ==> AtMost(x.position, top) || exists y :: y in ys && y.position == x.position
    requires forall y :: y in ys ==> AtMost(y.position, top) || exists x :: x in xs && x.position == y.position
    ensures Furthest(top, xs) == Furthest(top, ys)
  {
    FurthestBelow(top, xs, ys);
    FurthestBelow(top, ys, xs);
    Antisymmetric(Furthest(top, xs), Furthest(top, ys));
  }

  lemma FurthestBelow(top: Position, xs: seq<Row>, ys: seq<Row>)
    requires forall x :: x in xs ==> AtMost(x.position, top) || exists y :: y in ys && y.position == x.position
    ensures AtMost(Furthest(top, xs), Furthest(top, ys))
  {
    hide Less;
    FurthestMeaning(top, xs);
    FurthestMeaning(top, ys);
    if Furthest(top, xs) != top {
      var x :| x in xs && x.position == Furthest(top, xs);
      if AtMost(x.position, top) {
        Transitive(x.position, top, Furthest(top, ys));
      }
    }
  }

  // ---- one answer -------------------------------------------------------------------------

  /** An answer is in canonical order. */
  lemma AnswerInOrder(frames: seq<Row>, record: Record, showAll: bool)
    ensures SortedBy(Answer(frames, record, showAll), RowPosition())
  {
    hide Sorted, SortedBy, Filter, DedupeFrom;
    SortedIsSort(frames, RowPosition());
    FilterSorted(InOrder(frames), Spoken());
    DedupeSorted({}, Conversation(InOrder(frames)));
    FilterSorted(Considered(frames), NewsFor(record));
  }

  lemma ConversationMembers(frames: seq<Row>, row: Row)
    ensures row in Conversation(InOrder(frames)) <==> row in frames && !Transport(row)
  {
    SortedIsSort(frames, RowPosition());
    InMultiset(InOrder(frames), frames);
    FilterMembers(InOrder(frames), Spoken(), row);
  }

  /** What is shown: exactly the foreign frames past the cursor, transport aside, whose id
      no earlier frame of the batch carries. */
  lemma AnswerMeaning(frames: seq<Row>, record: Record, row: Row)
    ensures row in Answer(frames, record, false)
       <==> IsNews(record, row)
            && exists i :: FirstOfItsId({}, Conversation(InOrder(frames)), i)
                        && Conversation(InOrder(frames))[i] == row
    ensures row in Answer(frames, record, false) ==> row in frames && !Transport(row)
  {
    hide Less, Sorted;
    var considered := Considered(frames);
    FilterMembers(considered, NewsFor(record), row);
    DedupeKeeps({}, Conversation(InOrder(frames)), row);
    ConversationMembers(frames, row);
  }

  /** A foreign frame past the cursor is shown, or the batch holds another frame with its
      id at an earlier or equal position. */
  lemma NewsIsShown(frames: seq<Row>, record: Record, row: Row)
    requires row in frames && !Transport(row) && IsNews(record, row)
    ensures row in Answer(frames, record, false)
         || exists other :: other in frames && !Transport(other) && other.id == row.id != ""
                         && AtMost(other.position, row.position)
                         && other in Considered(frames)
  {
    hide Less, Sorted, Filter, DedupeFrom;
    var said := Conversation(InOrder(frames));
    ConversationMembers(frames, row);
    AnswerMeaning(frames, record, row);
    var k :| 0 <= k < |said| && said[k] == row;
    var j := FirstWithId({}, said, k);
    ConversationMembers(frames, said[j]);
    if j != k {
      DedupeKeeps({}, said, said[j]);
      SortedIsSort(frames, RowPosition());
      FilterSorted(InOrder(frames), Spoken());
      assert AtMost(RowPosition()(said[j]), RowPosition()(said[k]));
      assert said[j] in frames && said[j].id == row.id && said[j] in Considered(frames);
    }
  }

  /** The first row that carries row k's id. */
  lemma FirstWithId(seen: set<string>, rows: seq<Row>, k: nat) returns (j: nat)
    requires k < |rows| && (rows[k].id == "" || rows[k].id !in seen)
    ensures j <= k && FirstOfItsId(seen, rows, j) && rows[j].id == rows[k].id
    ensures rows[k].id == "" ==> j == k
  {
    j := k;
    if rows[k].id != "" {
      j := 0;
      while rows[j].id != rows[k].id
        invariant j <= k
        invariant forall i :: 0 <= i < j ==> rows[i].id != rows[k].id
        decreases k - j
      {
        j := j + 1;
      }
    }
  }

  // ---- runs -------------------------------------------------------------------------------

  /** The record after reading the batches one call after another. */
  function RecordAfter(record: Record, batches: seq<seq<Row>>): Record
    decreases |batches|
  {
    if batches == [] then record else RecordAfter(Advanced(batches[0], record), batches[1..])
  }

  /** The answer of call i. */
  function AnswerOf(record: Record, batches: seq<seq<Row>>, i: nat): seq<Row>
    requires i < |batches|
  {
    Answer(batches[i], RecordAfter(record, batches[..i]), false)
  }

  /** The answers of all the calls, end to end. */
  function AllAnswers(record: Record, batches: seq<seq<Row>>): seq<Row>
    decreases |batches|
  {
    if batches == [] then []
    else Answer(batches[0], record, false) + AllAnswers(Advanced(batches[0], record), batches[1..])
  }

  lemma {:induction false} RecordAfterSplit(record: Record, a: seq<seq<Row>>, b: seq<seq<Row>>)
    ensures RecordAfter(record, a + b) == RecordAfter(RecordAfter(record, a), b)
    decreases |a|
  {
    hide Advanced;
    var c := a + b;
    if a == [] {
      assert c == b;
    } else {
      assert c[0] == a[0] && c[1..] == a[1..] + b;
      RecordAfterSplit(Advanced(a[0], record), a[1..], b);
    }
  }

  /** The cursor never moves back, and the reader stays who it is. */
  lemma {:induction false} CursorNeverBack(record: Record, batches: seq<seq<Row>>)
    ensures AtMost(record.cursor, RecordAfter(record, batches).cursor)
    ensures RecordAfter(record, batches).peer == record.peer
    decreases |batches|
  {
    hide Less;
    if batches != [] {
      var next := Advanced(batches[0], record);
      FurthestMeaning(record.cursor, Considered(batches[0]));
      CursorNeverBack(next, batches[1..]);
      Transitive(record.cursor, next.cursor, RecordAfter(next, batches[1..]).cursor);
    }
  }

  /** What a later call shows lies strictly after what an earlier call showed: no position
      is ever shown by two calls. */
  lemma ShownOnce(record: Record, batches: seq<seq<Row>>, i: nat, j: nat, x: Row, y: Row)
    requires i < j < |batches|
    requires x in AnswerOf(record, batches, i) && y in AnswerOf(record, batches, j)
    ensures Less(x.position, y.position) && x.position != y.position
  {
    hide Less, Considered, Advanced;
    var at := RecordAfter(record, batches[..i]);
    var after := Advanced(batches[i], at);
    var later := RecordAfter(record, batches[..j]);
    RecordAfterSplit(record, batches[..i], batches[i..j]);
    assert batches[..j] == batches[..i] + batches[i..j];
    assert batches[i..j][0] == batches[i] && batches[i..j][1..] == batches[i + 1..j];
    CursorNeverBack(after, batches[i + 1..j]);
    ShownIsBehind(batches[i], at, x);
    FilterMembers(Considered(batches[j]), NewsFor(later), y);
    Transitive(x.position, after.cursor, later.cursor);
    Transitive(x.position, later.cursor, y.position);
    Trichotomy(x.position, y.position);
  }

  /** The cursor is moved over everything shown. */
  lemma ShownIsBehind(frames: seq<Row>, record: Record, row: Row)
    requires row in Answer(frames, record, false)
    ensures AtMost(row.position, Advanced(frames, record).cursor)
  {
    hide Less;
    FilterMembers(Considered(frames), NewsFor(record), row);
    FurthestMeaning(record.cursor, Considered(frames));
  }

  // ---- what may come back as news -----------------------------------------------------------

  /** Equal ids mean equal positions, on everything that is not plumbing. */
  ghost predicate IdsFixPositions(rows: seq<Row>) {
    forall x, y :: x in rows && y in rows && !Transport(x) && !Transport(y) && x.id == y.id != ""
                   ==> x.position == y.position
  }

  /** Every frame's position survives deduplication. */
  lemma ConsideredCovers(frames: seq<Row>, row: Row)
    requires IdsFixPositions(frames) && row in frames && !Transport(row)
    ensures exists y :: y in Considered(frames) && y.position == row.position
  {
    hide Less, Sorted, Filter, DedupeFrom, AtMost;
    var said := Conversation(InOrder(frames));
    ConversationMembers(frames, row);
    var k :| 0 <= k < |said| && said[k] == row;
    var j := FirstWithId({}, said, k);
    DedupeKeeps({}, said, said[j]);
    ConversationMembers(frames, said[j]);
    assert said[j] in Considered(frames);
  }

  /** Exactly which frames of a batch come back as news: a frame skipped as the repeat of an
      id, at a position beyond everything the batch considered, is passed over by the cursor
      too; all others are behind it. */
  lemma ComesBackExactly(frames: seq<Row>, record: Record, row: Row)
    requires row in frames && !Transport(row)
    ensures var said := Conversation(InOrder(frames));
            IsNews(Advanced(frames, record), row)
            <==> IsNews(record, row)
                 && forall i :: FirstOfItsId({}, said, i) ==> Less(said[i].position, row.position)
  {
    hide Less, Sorted, Filter, DedupeFrom, AtMost;
    var said, considered := Conversation(InOrder(frames)), Considered(frames);
    var next := Advanced(frames, record);
    FurthestMeaning(record.cursor, considered);
    if IsNews(next, row) {
      Transitive(record.cursor, next.cursor, row.position);
      forall i | FirstOfItsId({}, said, i)
        ensures Less(said[i].position, row.position)
      {
        DedupeKeeps({}, said, said[i]);
        Transitive(said[i].position, next.cursor, row.position);
      }
    }
    if IsNews(record, row) && forall i :: FirstOfItsId({}, said, i) ==> Less(said[i].position, row.position) {
      if next.cursor != record.cursor {
        var x :| x in considered && x.position == next.cursor;
        DedupeKeeps({}, said, x);
      }
    }
  }

  /** What is not news now never will be. */
  lemma NeverNewsAgain(record: Record, later: seq<seq<Row>>, row: Row)
    requires !IsNews(record, row)
    ensures !IsNews(RecordAfter(record, later), row)
  {
    hide Less;
    CursorNeverBack(record, later);
    if Less(RecordAfter(record, later).cursor, row.position) {
      Transitive(record.cursor, RecordAfter(record, later).cursor, row.position);
    }
  }

  /** A frame of a batch, shown or not, never comes back as news, over any later run, if the
      batch considered it, or wherever equal ids mean equal positions. */
  lemma SeenIsNeverNews(frames: seq<Row>, record: Record, later: seq<seq<Row>>, row: Row)
    requires row in frames && !Transport(row)
    requires row in Considered(frames) || IdsFixPositions(frames)
    ensures !IsNews(RecordAfter(Advanced(frames, record), later), row)
  {
    hide Less, Considered;
    var next := Advanced(frames, record);
    FurthestMeaning(record.cursor, Considered(frames));
    if row !in Considered(frames) {
      ConsideredCovers(frames, row);
    }
    var y :| y in Considered(frames) && y.position == row.position;
    NotLess(next.cursor, row.position);
    NeverNewsAgain(next, later, row);
  }

  /** It does happen: a repeat of an id at a later position is skipped when it is read with
      the frame it repeats, and shown when it is read again. */
  lemma RepeatComesBack(frame: Json.Json) returns (record: Record, first: Row, repeat: Row)
    ensures Answer([first, repeat], record, false) == [first]
    ensures Answer([repeat], Advanced([first, repeat], record), false) == [repeat]
  {
    record := Record(Position(0, "", 0), "me");
    first := Row("x", "message", Position(1, "them", 1), frame);
    repeat := Row("x", "message", Position(5, "them", 5), frame);
    var both, start, at, there := [first, repeat], record.cursor, first.position, repeat.position;
    assert Less(start, at) && Less(at, there) && Less(start, there) by {
      Earlier(start, at);
      Earlier(at, there);
      Earlier(start, there);
    }
    hide Less, Sorted, Filter, DedupeFrom, Insert;
    RepeatSkipped(first, repeat);
    Alone(repeat);
    FurthestOfOne(start, first);
    OfOne(first, NewsFor(record));
    OfOne(repeat, NewsFor(Record(at, "me")));
  }

  lemma RepeatSkipped(first: Row, repeat: Row)
    requires first.id == repeat.id != "" && !Transport(first) && !Transport(repeat)
    requires Less(first.position, repeat.position)
    ensures Considered([first, repeat]) == [first]
  {
    var both, last := [first, repeat], [repeat];
    assert both[1..] == last && last[1..] == [] && SortedBy(both, RowPosition());
    SortedAgain(both, RowPosition());
    hide Less, Sorted;
    FilterConcat([first], last, Spoken());
    OfOne(first, Spoken());
    OfOne(repeat, Spoken());
    assert [first] + last == both;
    assert DedupeFrom({first.id}, last[1..]) == [] && DedupeFrom({first.id}, last) == [];
    var none: set<string> := {};
    assert none + {first.id} == {first.id};
    assert DedupeFrom(none, both) == [first] + DedupeFrom(none + {first.id}, both[1..]);
  }

  lemma NotLess(a: Position, b: Position)
    requires AtMost(b, a)
    ensures !Less(a, b)
  {
    Trichotomy(a, b);
  }

  // ---- many batches against one ---------------------------------------------------------

  function Flatten(batches: seq<seq<Row>>): seq<Row>
    decreases |batches|
  {
    if batches == [] then [] else batches[0] + Flatten(batches[1..])
  }

  /** Nothing in b sorts before anything in a, and no id of a comes again in b. */
  ghost predicate Follows(a: seq<Row>, b: seq<Row>) {
    && (forall x, y :: x in a && y in b ==> AtMost(x.position, y.position))
    && (forall x, y :: x in a && y in b && x.id != "" ==> x.id != y.id)
  }

  /** The batches came in canonical order and no id comes in two of them. */
  ghost predicate InSequence(batches: seq<seq<Row>>)
    decreases |batches|
  {
    batches != [] ==> Follows(batches[0], Flatten(batches[1..])) && InSequence(batches[1..])
  }

  /** No foreign frame of a later batch sits exactly where the cursor stopped. */
  ghost predicate NoTie(record: Record, batches: seq<seq<Row>>)
    decreases |batches|
  {
    batches != [] ==>
      var next := Advanced(batches[0], record);
      && (forall row :: row in Considered(Flatten(batches[1..])) && IsNews(record, row)
                        ==> row.position != next.cursor)
      && NoTie(next, batches[1..])
  }

  lemma {:induction false} InsertBefore(x: Row, a: seq<Row>, b: seq<Row>)
    requires forall y :: y in b ==> AtMost(x.position, y.position)
    ensures Insert(x, a + b, RowPosition()) == Insert(x, a, RowPosition()) + b
    decreases |a|
  {
    hide Less, AtMost;
    var c := a + b;
    if a == [] {
      assert c == b;
      if b != [] {
        assert b[0] in b;
        NotLess(b[0].position, x.position);
      }
    } else {
      assert c[0] == a[0] && c[1..] == a[1..] + b;
      if Less(a[0].position, x.position) {
        InsertBefore(x, a[1..], b);
        Associates([a[0]], Insert(x, a[1..], RowPosition()), b);
      } else {
        Associates([x], a, b);
      }
    }
  }

  /** Because the sort is stable, batches in order sort one after the other, ties included. */
  lemma {:induction false} SortedConcat(a: seq<Row>, b: seq<Row>)
    requires forall x, y :: x in a && y in b ==> AtMost(x.position, y.position)
    ensures InOrder(a + b) == InOrder(a) + InOrder(b)
    decreases |a|
  {
    hide Less, AtMost, Insert;
    var c := a + b;
    if a == [] {
      assert c == b;
    } else {
      assert c[0] == a[0] && c[1..] == a[1..] + b;
      forall x, y | x in a[1..] && y in b
        ensures AtMost(x.position, y.position)
      {
        assert x in a;
      }
      SortedConcat(a[1..], b);
      SortedIsSort(b, RowPosition());
      InMultiset(InOrder(b), b);
      assert a[0] in a;
      InsertBefore(a[0], InOrder(a[1..]), InOrder(b));
    }
  }

  /** Deduplication of two parts whose ids do not meet is part by part. */
  lemma {:induction false} DedupeConcat(seen: set<string>, a: seq<Row>, b: seq<Row>)
    requires forall x, y :: x in a && y in b && x.id != "" ==> x.id != y.id
    requires forall y :: y in b && y.id != "" ==> y.id !in seen
    ensures DedupeFrom(seen, a + b) == DedupeFrom(seen, a) + Deduped(b)
    decreases |a|
  {
    var c := a + b;
    if a == [] {
      assert c == b;
      DedupeFresh(seen, {}, b);
    } else {
      assert c[0] == a[0] && c[1..] == a[1..] + b;
      assert a == [a[0]] + a[1..];
      if a[0].id != "" && a[0].id in seen {
        DedupeConcat(seen, a[1..], b);
      } else {
        var seen' := if a[0].id != "" then seen + {a[0].id} else seen;
        DedupeConcat(seen', a[1..], b);
        Associates([a[0]], DedupeFrom(seen', a[1..]), Deduped(b));
      }
    }
  }

  /** Ids already seen that do not occur make no difference. */
  lemma {:induction false} DedupeFresh(s: set<string>, t: set<string>, rows: seq<Row>)
    requires forall row :: row in rows && row.id != "" ==> (row.id in s <==> row.id in t)
    ensures DedupeFrom(s, rows) == DedupeFrom(t, rows)
    decreases |rows|
  {
    if rows != [] {
      assert rows == [rows[0]] + rows[1..];
      var id := rows[0].id;
      if id != "" && id !in s {
        DedupeFresh(s + {id}, t + {id}, rows[1..]);
      } else {
        DedupeFresh(s, t, rows[1..]);
      }
    }
  }

  lemma ConsideredConcat(a: seq<Row>, b: seq<Row>)
    requires Follows(a, b)
    ensures Considered(a + b) == Considered(a) + Considered(b)
  {
    hide AtMost, Less, DedupeFrom, Filter, Sorted;
    SortedConcat(a, b);
    var ca, cb := Conversation(InOrder(a)), Conversation(InOrder(b));
    FilterConcat(InOrder(a), InOrder(b), Spoken());
    forall x, y | x in ca && y in cb && x.id != ""
      ensures x.id != y.id
    {
      ConversationMembers(a, x);
      ConversationMembers(b, y);
    }
    DedupeConcat({}, ca, cb);
  }

  lemma ConsideredMember(frames: seq<Row>, row: Row)
    requires row in Considered(frames)
    ensures row in frames && !Transport(row)
  {
    DedupeKeeps({}, Conversation(InOrder(frames)), row);
    ConversationMembers(frames, row);
  }

  lemma {:induction false} FilterNarrower(rows: seq<Row>, wide: Row -> bool, narrow: Row -> bool)
    requires forall row :: row in rows && narrow(row) ==> wide(row)
    ensures |Filter(rows, narrow)| <= |Filter(rows, wide)|
    ensures |Filter(rows, narrow)| == |Filter(rows, wide)|
       <==> forall row :: row in rows && wide(row) ==> narrow(row)
    ensures (forall row :: row in rows && wide(row) ==> narrow(row))
            ==> Filter(rows, narrow) == Filter(rows, wide)
  {
    if rows != [] {
      assert rows == [rows[0]] + rows[1..];
      FilterNarrower(rows[1..], wide, narrow);
    }
  }

  /** News for the moved-on record is news for the old one, except exact ties. */
  lemma NewsAfter(record: Record, a: seq<Row>, row: Row)
    requires forall x :: x in a ==> AtMost(x.position, row.position)
    ensures var next := Advanced(a, record);
            IsNews(next, row) <==> IsNews(record, row) && row.position != next.cursor
  {
    hide Less, Considered;
    var next := Advanced(a, record);
    FurthestMeaning(record.cursor, Considered(a));
    Trichotomy(next.cursor, row.position);
    if next.cursor != record.cursor {
      var x :| x in Considered(a) && x.position == next.cursor;
      ConsideredMember(a, x);
    }
    if Less(next.cursor, row.position) {
      Transitive(record.cursor, next.cursor, row.position);
    }
  }

  /** Batches in canonical order, no id twice across them: the answers of the calls, end
      to end, are the answer of one call on the whole log exactly when no foreign frame
      ties with a cursor; and never is more shown. */
  lemma {:induction false} ManyCallsAreOne(record: Record, batches: seq<seq<Row>>)
    requires InSequence(batches)
    ensures |AllAnswers(record, batches)| <= |Answer(Flatten(batches), record, false)|
    ensures AllAnswers(record, batches) == Answer(Flatten(batches), record, false) <==> NoTie(record, batches)
    ensures |AllAnswers(record, batches)| == |Answer(Flatten(batches), record, false)| ==> NoTie(record, batches)
    ensures RecordAfter(record, batches) == Advanced(Flatten(batches), record)
    decreases |batches|
  {
    hide Less, AtMost, Considered, DedupeFrom, Sorted, Filter, Follows;
    if batches == [] {
      NothingConsidered(record);
    } else {
      var a, rest := batches[0], Flatten(batches[1..]);
      var next := Advanced(a, record);
      ManyCallsAreOne(next, batches[1..]);
      OneThenRest(record, a, rest);
    }
  }

  lemma NothingConsidered(record: Record)
    ensures Answer([], record, false) == [] && Advanced([], record) == record
  {
  }

  /** Reading the second batch after the first differs from reading both at once only by
      the frames tied with the cursor. */
  lemma OneThenRest(record: Record, a: seq<Row>, rest: seq<Row>)
    requires Follows(a, rest)
    ensures var next := Advanced(a, record);
            var whole, split := Answer(a + rest, record, false), Answer(a, record, false) + Answer(rest, next, false);
            && |split| <= |whole|
            && (|split| == |whole| <==> forall row :: row in Considered(rest) && IsNews(record, row)
                                                      ==> row.position != next.cursor)
            && (|split| == |whole| ==> split == whole)
    ensures Advanced(rest, Advanced(a, record)) == Advanced(a + rest, record)
  {
    hide Less, AtMost, Considered, DedupeFrom, Sorted, Filter, Furthest;
    var next := Advanced(a, record);
    ConsideredConcat(a, rest);
    FilterConcat(Considered(a), Considered(rest), NewsFor(record));
    forall row | row in Considered(rest)
      ensures IsNews(next, row) <==> IsNews(record, row) && row.position != next.cursor
    {
      ConsideredMember(rest, row);
      NewsAfter(record, a, row);
    }
    FilterNarrower(Considered(rest), NewsFor(record), NewsFor(next));
    FurthestConcat(record.cursor, Considered(a), Considered(rest));
  }

  lemma {:induction false} FurthestConcat(top: Position, a: seq<Row>, b: seq<Row>)
    ensures Furthest(top, a + b) == Furthest(Furthest(top, a), b)
    decreases |a|
  {
    hide Less;
    var c := a + b;
    if a == [] {
      assert c == b;
    } else {
      assert c[0] == a[0] && c[1..] == a[1..] + b;
      FurthestConcat(if Less(top, a[0].position) then a[0].position else top, a[1..], b);
    }
  }

  /** A tie is lost: two frames at one position, read in two calls, are shown as one. */
  lemma TieIsLost(frame: Json.Json) returns (record: Record, first: Row, second: Row)
    ensures InSequence([[first], [second]])
    ensures AllAnswers(record, [[first], [second]]) == [first]
    ensures Answer(Flatten([[first], [second]]), record, false) == [first, second]
  {
    record := Record(Position(0, "", 0), "me");
    first := Row("x", "message", Position(1, "them", 1), frame);
    second := Row("y", "message", Position(1, "them", 1), frame);
    hide Less, Considered, Sorted, Filter, DedupeFrom;
    var start, at := record.cursor, first.position;
    assert Less(start, at) by {
      Earlier(start, at);
    }
    Trichotomy(at, at);
    Alone(first);
    Alone(second);
    FlattenTwo([first], [second]);
    ConsideredConcat([first], [second]);
    FurthestOfOne(start, first);
    FurthestOfOne(at, second);
    OfOne(first, NewsFor(record));
    OfOne(second, NewsFor(record));
    OfOne(second, NewsFor(Record(at, "me")));
    FilterConcat([first], [second], NewsFor(record));
    AnswersOfTwo(record, [first], [second]);
  }

  lemma Earlier(a: Position, b: Position)
    requires a.lamport < b.lamport
    ensures Less(a, b)
  {
  }

  lemma Alone(row: Row)
    requires !Transport(row)
    ensures Considered([row]) == [row]
  {
    var one := [row];
    assert one[1..] == [];
    assert Sorted(one[1..], RowPosition()) == [];
    assert InOrder(one) == Insert(row, [], RowPosition()) == one;
    OfOne(row, Spoken());
    assert DedupeFrom({}, one) == one;
  }

  lemma OfOne(row: Row, keep: Row -> bool)
    ensures Filter([row], keep) == if keep(row) then [row] else []
  {
    assert [row][1..] == [];
  }

  lemma FurthestOfOne(top: Position, row: Row)
    ensures Furthest(top, [row]) == if Less(top, row.position) then row.position else top
  {
    assert [row][1..] == [];
  }

  lemma FlattenTwo(a: seq<Row>, b: seq<Row>)
    ensures Flatten([a, b]) == a + b && Flatten([b]) == b && Flatten([]) == []
    ensures InSequence([a, b]) <==> Follows(a, b)
  {
    var both, last := [a, b], [b];
    assert both[1..] == last && last[1..] == [];
    assert Flatten(last) == b + Flatten([]) == b;
    assert InSequence(last[1..]) && InSequence(last);
  }

  lemma AnswersOfTwo(record: Record, a: seq<Row>, b: seq<Row>)
    ensures AllAnswers(record, [a, b]) == Answer(a, record, false) + Answer(b, Advanced(a, record), false)
  {
    hide Answer, Advanced;
    var both, last := [a, b], [b];
    assert both[1..] == last && last[1..] == [];
    var next := Advanced(a, record);
    assert AllAnswers(next, last) == Answer(b, next, false) + AllAnswers(Advanced(b, next), last[1..]);
  }
}
