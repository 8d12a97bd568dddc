/** At-least-once delivery in any order: every receiver of the same frames ends with the
    same transcript. */
module Convergence {
  import opened Ordering
  import opened Reading
  import Mirrors

  /** `dedupe` of the reference peer: on the id and on nothing else. */
  method Dedupe(frames: seq<Row>) returns (out: seq<Row>)
    ensures out == Deduped(frames)
    ensures forall row :: row in out <==> exists i :: FirstOfItsId({}, frames, i) && frames[i] == row
  {
    var seen: set<string> := {};
    out := [];
    for i := 0 to |frames|
      invariant Deduped(frames) == out + DedupeFrom(seen, frames[i..])
    {
      var frame := frames[i];
      assert frames[i..][0] == frame && frames[i..][1..] == frames[i + 1..];
      if frame.id != "" && frame.id in seen {
        continue;
      }
      if frame.id != "" {
        seen := seen + {frame.id};
      }
      Associates(out, [frame], DedupeFrom(seen, frames[i + 1..]));
      out := out + [frame];
    }
    assert frames[|frames|..] == [] && out + [] == out;
    forall row
      ensures row in out <==> exists i :: FirstOfItsId({}, frames, i) && frames[i] == row
    {
      DedupeKeeps({}, frames, row);
    }
  }

  /** A non-empty id names one frame. */
  ghost predicate IdsNameFrames(rows: seq<Row>) {
    forall x, y :: x in rows && y in rows && x.id == y.id != "" ==> x == y
  }

  /** How often a row survives: once if it carries a fresh id, every time if it carries none. */
  lemma {:induction false} DedupeCounts(seen: set<string>, rows: seq<Row>, row: Row)
    requires IdsNameFrames(rows)
    ensures multiset(DedupeFrom(seen, rows))[row]
         == if row.id == "" then multiset(rows)[row] else if row in rows && row.id !in seen then 1 else 0
    decreases |rows|
  {
    if rows != [] {
      var head, rest := rows[0], rows[1..];
      assert rows == [head] + rest;
      assert IdsNameFrames(rest);
      if head.id != "" && head.id in seen {
        DedupeCounts(seen, rest, row);
      } else {
        var seen' := if head.id != "" then seen + {head.id} else seen;
        DedupeCounts(seen', rest, row);
      }
    }
  }

  /** The same frames arrived, however often and in whatever order. */
  ghost predicate SameFrames(xs: seq<Row>, ys: seq<Row>) {
    forall row :: row in xs <==> row in ys
  }

  lemma DedupedMultisets(xs: seq<Row>, ys: seq<Row>)
    requires SameFrames(xs, ys) && IdsNameFrames(xs)
    ensures multiset(Deduped(xs)) == multiset(Deduped(ys))
       <==> forall row: Row :: row.id == "" ==> multiset(xs)[row] == multiset(ys)[row]
  {
    assert IdsNameFrames(ys);
    forall row: Row
      ensures row.id != "" ==> multiset(Deduped(xs))[row] == multiset(Deduped(ys))[row]
      ensures row.id == "" ==> multiset(Deduped(xs))[row] == multiset(xs)[row]
                               && multiset(Deduped(ys))[row] == multiset(ys)[row]
    {
      DedupeCounts({}, xs, row);
      DedupeCounts({}, ys, row);
    }
  }

  lemma DedupedDistinct(rows: seq<Row>)
    requires DistinctKeys(rows, RowPosition())
    ensures DistinctKeys(Deduped(rows), RowPosition())
  {
    forall x, y | x in Deduped(rows) && y in Deduped(rows) && x.position == y.position
      ensures x == y
    {
      DedupeKeeps({}, rows, x);
      DedupeKeeps({}, rows, y);
      assert RowPosition()(x) == RowPosition()(y);
    }
  }

  /** Two receivers of the same frames compute the same transcript exactly when the frames
      without an id, which nothing deduplicates, reached both equally often. */
  lemma SameTranscript(xs: seq<Row>, ys: seq<Row>)
    requires SameFrames(xs, ys) && IdsNameFrames(xs) && DistinctKeys(xs, RowPosition())
    ensures InOrder(Deduped(xs)) == InOrder(Deduped(ys))
       <==> forall row: Row :: row.id == "" ==> multiset(xs)[row] == multiset(ys)[row]
  {
    hide Sorted, DedupeFrom, SortedBy;
    DedupedMultisets(xs, ys);
    DedupedDistinct(xs);
    SortedIsSort(Deduped(xs), RowPosition());
    SortedIsSort(Deduped(ys), RowPosition());
    if multiset(Deduped(xs)) == multiset(Deduped(ys)) {
      SortedOrderIndependent(Deduped(xs), Deduped(ys), RowPosition());
    }
  }

  /** Convergence: where every frame has an id, delivery does not matter at all. */
  lemma Converges(xs: seq<Row>, ys: seq<Row>)
    requires SameFrames(xs, ys) && IdsNameFrames(xs) && DistinctKeys(xs, RowPosition())
    requires forall row :: row in xs ==> row.id != ""
    ensures InOrder(Deduped(xs)) == InOrder(Deduped(ys))
    ensures SortedBy(InOrder(Deduped(xs)), RowPosition())
    ensures forall row :: row in InOrder(Deduped(xs)) <==> row in xs
  {
    hide Sorted, DedupeFrom;
    forall row: Row | row.id == ""
      ensures multiset(xs)[row] == multiset(ys)[row]
    {
      assert row !in xs && row !in ys;
    }
    SameTranscript(xs, ys);
    SortedIsSort(Deduped(xs), RowPosition());
    InMultiset(InOrder(Deduped(xs)), Deduped(xs));
    forall row
      ensures row in InOrder(Deduped(xs)) <==> row in xs
    {
      DedupeCounts({}, xs, row);
      assert row in Deduped(xs) <==> row in multiset(Deduped(xs));
    }
  }

  /** Why ids matter: a frame without one that is delivered twice stays twice. */
  lemma WithoutIdDiverges(frame: Row)
    requires frame.id == ""
    ensures SameFrames([frame], [frame, frame])
    ensures InOrder(Deduped([frame])) != InOrder(Deduped([frame, frame]))
  {
    hide Sorted, DedupeFrom;
    var xs, ys := [frame], [frame, frame];
    assert IdsNameFrames(xs) && SameFrames(xs, ys);
    assert multiset(xs)[frame] == 1 && multiset(ys)[frame] == 2;
    SameTranscript(xs, ys);
  }

  /** The two peers agree: sorting first and deduplicating then, as the wire peer does, is
      deduplicating first and sorting then, as the reference peer does. */
  lemma PeersReadAlike(frames: seq<Row>)
    requires IdsNameFrames(frames) && DistinctKeys(frames, RowPosition())
    ensures Considered(frames) == Conversation(InOrder(Deduped(frames)))
  {
    hide Sorted, DedupeFrom, Filter, SortedBy;
    var sorted := InOrder(frames);
    SortedIsSort(frames, RowPosition());
    InMultiset(sorted, frames);
    assert SameFrames(frames, sorted);
    DedupedMultisets(frames, sorted);
    DedupedDistinct(frames);
    SortedIsSort(Deduped(frames), RowPosition());
    DedupeSorted({}, sorted);
    DistinctTransfer(Deduped(frames), InOrder(Deduped(frames)), RowPosition());
    SortedUnique(InOrder(Deduped(frames)), Deduped(sorted), RowPosition());
    Mirrors.FilterDeduped({}, {}, sorted, Spoken());
  }

  /** So two held lines, fed the same frames in any order and any number of times, give one
      reader the same answer and leave the cursor at the same place. */
  lemma SameAnswer(xs: seq<Row>, ys: seq<Row>, record: Record, showAll: bool)
    requires SameFrames(xs, ys) && IdsNameFrames(xs) && DistinctKeys(xs, RowPosition())
    requires forall row :: row in xs ==> row.id != ""
    ensures Answer(xs, record, showAll) == Answer(ys, record, showAll)
    ensures Advanced(xs, record) == Advanced(ys, record)
  {
    hide Sorted, DedupeFrom, Filter, SortedBy;
    assert IdsNameFrames(ys) && DistinctKeys(ys, RowPosition());
    Converges(xs, ys);
    PeersReadAlike(xs);
    PeersReadAlike(ys);
  }
}
