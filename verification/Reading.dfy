/** Reading a transcript: deduplication, canonical order, and the cursor that separates
    what a reader has seen from what is news. */
module Reading {
  import opened Json
  import opened Ordering

  /** A frame with the values reading takes off it: its id, its kind, and the position
      that orders it, whose sender is the frame's sender. */
  datatype Row = Row(id: string, kind: string, position: Position, frame: Json)

  function RowPosition(): Row -> Position {
    (row: Row) => row.position
  }

  function InOrder(rows: seq<Row>): seq<Row> {
    Sorted(rows, RowPosition())
  }

  /** `welcome`, `sync` and `ack` are connection plumbing. */
  predicate Transport(row: Row) {
    row.kind == "welcome" || row.kind == "sync" || row.kind == "ack"
  }

  // ---- deduplication --------------------------------------------------------------------

  /** The rows whose id, if they carry one, is not among `seen` or on an earlier row. */
  function DedupeFrom(seen: set<string>, rows: seq<Row>): seq<Row>
    decreases |rows|
  {
    if rows == [] then []
    else if rows[0].id != "" && rows[0].id in seen then DedupeFrom(seen, rows[1..])
    else [rows[0]] + DedupeFrom(if rows[0].id != "" then seen + {rows[0].id} else seen, rows[1..])
  }

  function Deduped(rows: seq<Row>): seq<Row> {
    DedupeFrom({}, rows)
  }

  /** Row i survives deduplication: no earlier row, and nothing in `seen`, has its id. */
  ghost predicate FirstOfItsId(seen: set<string>, rows: seq<Row>, i: int) {
    && 0 <= i < |rows|
    && (rows[i].id == "" ||
        (rows[i].id !in seen && forall j :: 0 <= j < i ==> rows[j].id != rows[i].id))
  }

  lemma {:induction false} DedupeKeeps(seen: set<string>, rows: seq<Row>, row: Row)
    ensures row in DedupeFrom(seen, rows) <==> exists i :: FirstOfItsId(seen, rows, i) && rows[i] == row
    decreases |rows|
  {
    if rows != [] {
      var head, rest := rows[0], rows[1..];
      var seen' := if head.id != "" && head.id !in seen then seen + {head.id} else seen;
      DedupeKeeps(seen', rest, row);
      forall i | 0 <= i < |rest|
        ensures FirstOfItsId(seen', rest, i) <==> FirstOfItsId(seen, rows, i + 1)
      {
        assert rest[i] == rows[i + 1];
        assert forall j :: 0 <= j < i ==> rest[j] == rows[j + 1];
      }
      if row in DedupeFrom(seen, rows) && !(head == row && FirstOfItsId(seen, rows, 0)) {
        var i :| FirstOfItsId(seen', rest, i) && rest[i] == row;
        assert FirstOfItsId(seen, rows, i + 1);
      }
      if i :| FirstOfItsId(seen, rows, i) && rows[i] == row {
        if i > 0 {
          assert FirstOfItsId(seen', rest, i - 1);
        }
      }
    }
  }

  lemma {:induction false} DedupeSorted(seen: set<string>, rows: seq<Row>)
    requires SortedBy(rows, RowPosition())
    ensures SortedBy(DedupeFrom(seen, rows), RowPosition())
    decreases |rows|
  {
    if rows != [] {
      var seen' := if rows[0].id != "" && rows[0].id !in seen then seen + {rows[0].id} else seen;
      DedupeSorted(seen', rows[1..]);
      var r := DedupeFrom(seen', rows[1..]);
      forall i | 0 <= i < |r|
        ensures AtMost(rows[0].position, r[i].position)
      {
        DedupeKeeps(seen', rows[1..], r[i]);
        var j :| FirstOfItsId(seen', rows[1..], j) && rows[1..][j] == r[i];
        assert RowPosition()(rows[0]) == rows[0].position && RowPosition()(rows[j + 1]) == rows[j + 1].position;
      }
    }
  }

  // ---- what a reader is shown -------------------------------------------------------------

  /** A reader's record: how far it has read, and who it is. */
  datatype Record = Record(cursor: Position, peer: string)

  function Spoken(): Row -> bool {
    (row: Row) => !Transport(row)
  }

  function Filter(rows: seq<Row>, keep: Row -> bool): seq<Row> {
    if rows == [] then []
    else (if keep(rows[0]) then [rows[0]] else []) + Filter(rows[1..], keep)
  }

  function Conversation(rows: seq<Row>): seq<Row> {
    Filter(rows, Spoken())
  }

  /** Everything `fold_new` considers, in canonical order: no plumbing, each id once. */
  function Considered(frames: seq<Row>): seq<Row> {
    Deduped(Conversation(InOrder(frames)))
  }

  predicate IsNews(record: Record, row: Row) {
    Less(record.cursor, row.position) && row.position.sender != record.peer
  }

  function NewsFor(record: Record): Row -> bool {
    (row: Row) => IsNews(record, row)
  }

  function News(record: Record, rows: seq<Row>): seq<Row> {
    Filter(rows, NewsFor(record))
  }

  /** The furthest position among a starting one and the rows'. */
  function Furthest(top: Position, rows: seq<Row>): Position
    decreases |rows|
  {
    if rows == [] then top
    else Furthest(if Less(top, rows[0].position) then rows[0].position else top, rows[1..])
  }

  function Answer(frames: seq<Row>, record: Record, showAll: bool): seq<Row> {
    if showAll then Considered(frames) else News(record, Considered(frames))
  }

  function Advanced(frames: seq<Row>, record: Record): Record {
    record.(cursor := Furthest(record.cursor, Considered(frames)))
  }

  /** The reader's record as an object the reading code changes in place. */
  class Reader {
    var record: Record

    constructor (r: Record)
      ensures record == r
    {
      record := r;
    }

    /** `fold_new`: the answer, and the cursor moved over everything considered, shown or
        not, unless asked not to advance. */
    method FoldNew(frames: seq<Row>, showAll: bool, advance: bool) returns (out: seq<Row>)
      modifies this
      ensures out == Answer(frames, old(record), showAll)
      ensures record == if advance then Advanced(frames, old(record)) else old(record)
    {
      var cursor, peer := record.cursor, record.peer;
      var seen: set<string> := {};
      var top := cursor;
      out := [];
      var ordered := InOrder(frames);
      ghost var done: seq<Row> := [];
      Start(cursor, record);
      hide DedupeFrom, Conversation, News, Filter, Furthest, Sorted, Less;
      for i := 0 to |ordered|
        invariant Considered(frames) == done + DedupeFrom(seen, Conversation(ordered[i..]))
        invariant top == Furthest(cursor, done)
        invariant out == if showAll then done else News(record, done)
        invariant record == old(record)
      {
        var row := ordered[i];
        NextRow(seen, ordered[i..]);
        if Transport(row) {
          continue;
        }
        if row.id != "" && row.id in seen {
          continue;
        }
        FurthestAppend(cursor, done, row);
        NewsAppend(record, done, row);
        done := done + [row];
        if row.id != "" {
          seen := seen + {row.id};
        }
        if Less(top, row.position) {
          top := row.position;
        }
        if !showAll {
          Trichotomy(row.position, cursor);
          if AtMost(row.position, cursor) {
            continue;
          }
          if row.position.sender == peer {
            continue;
          }
        }
        out := out + [row];
      }
      NothingLeft(seen);
      assert ordered[|ordered|..] == [] && done + [] == done;
      if advance {
        record := record.(cursor := top);
      }
    }
  }

  lemma NextRow(seen: set<string>, rows: seq<Row>)
    requires rows != []
    ensures var row, rest := rows[0], Conversation(rows[1..]);
            DedupeFrom(seen, Conversation(rows))
            == if Transport(row) || (row.id != "" && row.id in seen) then DedupeFrom(seen, rest)
               else [row] + DedupeFrom(if row.id != "" then seen + {row.id} else seen, rest)
  {
    var row, rest := rows[0], Conversation(rows[1..]);
    assert Conversation(rows) == if Transport(row) then rest else [row] + rest;
    assert ([row] + rest)[1..] == rest;
  }

  lemma NothingLeft(seen: set<string>)
    ensures DedupeFrom(seen, Conversation([])) == []
  {
  }

  lemma Start(cursor: Position, record: Record)
    ensures Furthest(cursor, []) == cursor && News(record, []) == []
  {
  }

  lemma {:induction false} FurthestAppend(top: Position, rows: seq<Row>, row: Row)
    ensures var t := Furthest(top, rows);
            Furthest(top, rows + [row]) == if Less(t, row.position) then row.position else t
    decreases |rows|
  {
    if rows == [] {
      assert [row][1..] == [];
    } else {
      assert (rows + [row])[1..] == rows[1..] + [row];
      FurthestAppend(if Less(top, rows[0].position) then rows[0].position else top, rows[1..], row);
    }
  }

  lemma NewsAppend(record: Record, a: seq<Row>, row: Row)
    ensures News(record, a + [row]) == News(record, a) + if IsNews(record, row) then [row] else []
  {
    FilterConcat(a, [row], NewsFor(record));
    assert [row][1..] == [];
  }

  lemma Associates(a: seq<Row>, b: seq<Row>, c: seq<Row>)
    ensures a + (b + c) == (a + b) + c
  {
  }

  lemma {:induction false} FilterConcat(a: seq<Row>, b: seq<Row>, keep: Row -> bool)
    ensures Filter(a + b, keep) == Filter(a, keep) + Filter(b, keep)
  {
    if a == [] {
      assert a + b == b;
    } else {
      var c := a + b;
      assert c[0] == a[0] && c[1..] == a[1..] + b;
      FilterConcat(a[1..], b, keep);
      Associates(if keep(a[0]) then [a[0]] else [], Filter(a[1..], keep), Filter(b, keep));
    }
  }

  lemma {:induction false} FilterMembers(rows: seq<Row>, keep: Row -> bool, row: Row)
    ensures row in Filter(rows, keep) <==> row in rows && keep(row)
  {
    if rows != [] {
      FilterMembers(rows[1..], keep, row);
      assert rows == [rows[0]] + rows[1..];
    }
  }

  lemma {:induction false} FilterSorted(rows: seq<Row>, keep: Row -> bool)
    requires SortedBy(rows, RowPosition())
    ensures SortedBy(Filter(rows, keep), RowPosition())
  {
    if rows != [] {
      var rest := Filter(rows[1..], keep);
      FilterSorted(rows[1..], keep);
      forall i | 0 <= i < |rest|
        ensures AtMost(RowPosition()(rows[0]), RowPosition()(rest[i]))
      {
        FilterMembers(rows[1..], keep, rest[i]);
        var j :| 0 <= j < |rows[1..]| && rows[1..][j] == rest[i];
        assert rows[j + 1] == rest[i];
      }
    }
  }
}
