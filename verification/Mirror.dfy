/** The bounded mirror a held line keeps: the last frames it absorbed, and when reading
    from it is the same as reading everything ever absorbed. */
module Mirrors {
  import opened Ordering
  import opened Reading
  import opened ReadingRuns

  const MIRROR_CAP := 500

  function Last<T>(xs: seq<T>, n: nat): seq<T> {
    if |xs| > n then xs[|xs| - n..] else xs
  }

  function Evicted(absorbed: seq<Row>): seq<Row> {
    absorbed[..|absorbed| - |Last(absorbed, MIRROR_CAP)|]
  }

  // ---- sorting and deduplication commute with dropping frames ------------------------------

  lemma FilterStep(head: Row, rest: seq<Row>, keep: Row -> bool)
    ensures Filter([head] + rest, keep) == if keep(head) then [head] + Filter(rest, keep) else Filter(rest, keep)
  {
    assert ([head] + rest)[1..] == rest;
  }

  lemma FilterHead(rows: seq<Row>, keep: Row -> bool)
    ensures Filter(rows, keep) != [] ==> Filter(rows, keep)[0] in rows
  {
    if Filter(rows, keep) != [] {
      FilterMembers(rows, keep, Filter(rows, keep)[0]);
    }
  }

  lemma {:induction false} FilterInsert(x: Row, rows: seq<Row>, keep: Row -> bool)
    requires SortedBy(rows, RowPosition())
    ensures Filter(Insert(x, rows, RowPosition()), keep)
         == if keep(x) then Insert(x, Filter(rows, keep), RowPosition()) else Filter(rows, keep)
  {
    hide Less, AtMost;
    if rows == [] {
      OfOne(x, keep);
    } else if Less(rows[0].position, x.position) {
      var head, rest := rows[0], rows[1..];
      var inner := Insert(x, rest, RowPosition());
      FilterInsert(x, rest, keep);
      FilterStep(head, inner, keep);
      FilterStep(head, rest, keep);
      assert rows == [head] + rest;
      if keep(head) {
        assert ([head] + Filter(rest, keep))[1..] == Filter(rest, keep);
      }
    } else {
      FilterStep(x, rows, keep);
      FilterHead(rows, keep);
      var kept := Filter(rows, keep);
      if keep(x) && kept != [] {
        var i :| 0 <= i < |rows| && rows[i] == kept[0];
        assert AtMost(RowPosition()(rows[0]), RowPosition()(rows[i])) || i == 0;
        AtLeast(rows[0].position, kept[0].position, x.position);
      }
    }
  }

  lemma AtLeast(head: Position, later: Position, x: Position)
    requires head == later || AtMost(head, later)
    requires !Less(head, x)
    ensures !Less(later, x)
  {
    NotBelow(head, later, x);
  }

  lemma {:induction false} FilterInOrder(rows: seq<Row>, keep: Row -> bool)
    ensures Filter(InOrder(rows), keep) == InOrder(Filter(rows, keep))
  {
    hide Insert;
    if rows != [] {
      FilterInOrder(rows[1..], keep);
      SortedIsSort(rows[1..], RowPosition());
      FilterInsert(rows[0], InOrder(rows[1..]), keep);
      FilterStep(rows[0], rows[1..], keep);
      assert rows == [rows[0]] + rows[1..];
      if keep(rows[0]) {
        assert ([rows[0]] + Filter(rows[1..], keep))[1..] == Filter(rows[1..], keep);
      }
    }
  }

  lemma {:induction false} FilterDeduped(s: set<string>, t: set<string>, rows: seq<Row>, keep: Row -> bool)
    requires forall x, y :: x in rows && y in rows && x.id == y.id != "" ==> keep(x) == keep(y)
    requires forall x :: x in rows && keep(x) && x.id != "" ==> (x.id in s <==> x.id in t)
    ensures Filter(DedupeFrom(s, rows), keep) == DedupeFrom(t, Filter(rows, keep))
    decreases |rows|
  {
    if rows != [] {
      var head, rest := rows[0], rows[1..];
      assert rows == [head] + rest;
      if head.id != "" && head.id in s {
        FilterDeduped(s, t, rest, keep);
      } else {
        var s' := if head.id != "" then s + {head.id} else s;
        var t' := if head.id != "" && keep(head) then t + {head.id} else t;
        FilterDeduped(s', t', rest, keep);
        FilterStep(head, DedupeFrom(s', rest), keep);
      }
      KeptHead(t, rows, keep);
    }
  }

  lemma KeptHead(t: set<string>, rows: seq<Row>, keep: Row -> bool)
    requires rows != []
    ensures var head, rest := rows[0], Filter(rows[1..], keep);
            DedupeFrom(t, Filter(rows, keep))
            == if !keep(head) || (head.id != "" && head.id in t) then DedupeFrom(t, rest)
               else [head] + DedupeFrom(if head.id != "" then t + {head.id} else t, rest)
  {
    var head, rest := rows[0], Filter(rows[1..], keep);
    assert Filter(rows, keep) == if keep(head) then [head] + rest else rest;
    assert ([head] + rest)[1..] == rest;
  }

  // ---- what an answer amounts to ------------------------------------------------------------

  function ShownTo(record: Record): Row -> bool {
    (row: Row) => !Transport(row) && IsNews(record, row)
  }

  lemma {:induction false} FilterTwice(rows: seq<Row>, first: Row -> bool, second: Row -> bool, both: Row -> bool)
    requires forall row :: both(row) == (first(row) && second(row))
    ensures Filter(Filter(rows, first), second) == Filter(rows, both)
  {
    if rows != [] {
      FilterTwice(rows[1..], first, second, both);
      assert rows == [rows[0]] + rows[1..];
      FilterStep(rows[0], rows[1..], first);
      FilterStep(rows[0], rows[1..], both);
      FilterStep(rows[0], Filter(rows[1..], first), second);
    }
  }

  /** When ids fix positions, `fold_new` is: keep the news, sort, deduplicate. */
  lemma AnswerIsNewsSorted(frames: seq<Row>, record: Record)
    requires IdsFixPositions(frames)
    ensures Answer(frames, record, false) == Deduped(InOrder(Filter(frames, ShownTo(record))))
  {
    hide Less, Sorted, Filter, DedupeFrom;
    var said := Conversation(InOrder(frames));
    var news := NewsFor(record);
    forall x, y | x in said && y in said && x.id == y.id != ""
      ensures news(x) == news(y)
    {
      ConversationMembers(frames, x);
      ConversationMembers(frames, y);
    }
    FilterDeduped({}, {}, said, news);
    FilterTwice(InOrder(frames), Spoken(), news, ShownTo(record));
    FilterInOrder(frames, ShownTo(record));
  }

  // ---- the mirror against the whole history ---------------------------------------------------

  ghost predicate AllRead(rows: seq<Row>, record: Record) {
    forall row :: row in rows && !Transport(row) ==> AtMost(row.position, record.cursor)
  }

  /** Reading the newer part gives the same answer and moves the cursor to the same place
      as reading the whole, once the older part has all been read. */
  lemma ReadingTheRest(evicted: seq<Row>, recent: seq<Row>, record: Record)
    requires IdsFixPositions(evicted + recent) && AllRead(evicted, record)
    ensures Answer(recent, record, false) == Answer(evicted + recent, record, false)
    ensures Advanced(recent, record) == Advanced(evicted + recent, record)
  {
    hide Less, AtMost, Sorted, Filter, DedupeFrom, Considered, Furthest;
    var all := evicted + recent;
    assert IdsFixPositions(recent);
    AnswerIsNewsSorted(all, record);
    AnswerIsNewsSorted(recent, record);
    FilterConcat(evicted, recent, ShownTo(record));
    NothingNew(evicted, record);
    assert [] + Filter(recent, ShownTo(record)) == Filter(recent, ShownTo(record));
    forall x | x in Considered(all)
      ensures AtMost(x.position, record.cursor)
           || exists y :: y in Considered(recent) && y.position == x.position
    {
      ConsideredMember(all, x);
      if x in recent {
        ConsideredCovers(recent, x);
      }
    }
    forall y | y in Considered(recent)
      ensures exists x :: x in Considered(all) && x.position == y.position
    {
      ConsideredMember(recent, y);
      ConsideredCovers(all, y);
    }
    FurthestSame(record.cursor, Considered(all), Considered(recent));
  }

  lemma NothingNew(rows: seq<Row>, record: Record)
    requires AllRead(rows, record)
    ensures Filter(rows, ShownTo(record)) == []
  {
    var shown := Filter(rows, ShownTo(record));
    if shown != [] {
      FilterMembers(rows, ShownTo(record), shown[0]);
      NotLess(record.cursor, shown[0].position);
    }
  }

  /** What the bound costs: a foreign frame evicted before it was read, and not absorbed
      again, is in the full answer and missing from the mirror's. */
  lemma EvictedUnread(absorbed: seq<Row>, record: Record, row: Row)
    requires row in Evicted(absorbed) && !Transport(row) && IsNews(record, row)
    requires row !in Last(absorbed, MIRROR_CAP)
    requires forall x :: x in absorbed && x.id == row.id != "" ==> x == row
    ensures row !in Answer(Last(absorbed, MIRROR_CAP), record, false)
    ensures row in Answer(absorbed, record, false)
  {
    hide Less, Sorted, Filter, DedupeFrom, Considered, AtMost;
    AnswerMeaning(Last(absorbed, MIRROR_CAP), record, row);
    assert row in absorbed;
    NewsIsShown(absorbed, record, row);
    if row !in Answer(absorbed, record, false) {
      var other :| other in absorbed && other.id == row.id != "" && other in Considered(absorbed);
      assert other == row;
      FilterMembers(Considered(absorbed), NewsFor(record), row);
    }
  }

  /** The mirror of a held line: `_absorb`, `take_new` and `pending`. */
  class Mirror {
    var frames: seq<Row>
    ghost var absorbed: seq<Row>

    /** Exactly the last MIRROR_CAP frames absorbed. */
    ghost predicate Valid()
      reads this
    {
      frames == Last(absorbed, MIRROR_CAP)
    }

    constructor ()
      ensures Valid() && absorbed == []
    {
      frames, absorbed := [], [];
    }

    method Absorb(rows: seq<Row>)
      requires Valid()
      modifies this
      ensures Valid() && absorbed == old(absorbed) + rows
    {
      absorbed := absorbed + rows;
      if rows == [] {
        return;
      }
      frames := frames + rows;
      if |frames| > MIRROR_CAP {
        frames := frames[|frames| - MIRROR_CAP..];
      }
    }

    method TakeNew(reader: Reader, showAll: bool) returns (out: seq<Row>)
      requires Valid()
      modifies reader
      ensures out == Answer(frames, old(reader.record), showAll)
      ensures reader.record == Advanced(frames, old(reader.record))
      ensures !showAll && IdsFixPositions(absorbed) && AllRead(Evicted(absorbed), old(reader.record))
              ==> out == Answer(absorbed, old(reader.record), false)
                  && reader.record == Advanced(absorbed, old(reader.record))
    {
      hide Answer, Advanced;
      out := reader.FoldNew(frames, showAll, true);
      ghost var record := old(reader.record);
      if IdsFixPositions(absorbed) && AllRead(Evicted(absorbed), record) {
        assert Evicted(absorbed) + frames == absorbed;
        ReadingTheRest(Evicted(absorbed), frames, record);
      }
    }

    method Pending(reader: Reader) returns (count: nat)
      requires Valid()
      modifies reader
      ensures count == |Answer(frames, reader.record, false)| && reader.record == old(reader.record)
      ensures IdsFixPositions(absorbed) && AllRead(Evicted(absorbed), reader.record)
              ==> count == |Answer(absorbed, reader.record, false)|
    {
      hide Answer, Advanced;
      var out := reader.FoldNew(frames, false, false);
      count := |out|;
      if IdsFixPositions(absorbed) && AllRead(Evicted(absorbed), reader.record) {
        assert Evicted(absorbed) + frames == absorbed;
        ReadingTheRest(Evicted(absorbed), frames, reader.record);
      }
    }
  }
}
