/** Total orders: strings by code point, as Python compares them, and the canonical
    position of a frame in a transcript; with the stable sort both peers rely on. */
module Ordering {

  // ---- strings ----------------------------------------------------------------------

  predicate StringLess(a: string, b: string) {
    if b == "" then false
    else if a == "" then true
    else a[0] < b[0] || (a[0] == b[0] && StringLess(a[1..], b[1..]))
  }

  lemma {:induction false} StringTrichotomy(a: string, b: string)
    ensures StringLess(a, b) || a == b || StringLess(b, a)
    ensures !(StringLess(a, b) && StringLess(b, a))
    ensures a == b ==> !StringLess(a, b)
  {
    if a != "" && b != "" {
      StringTrichotomy(a[1..], b[1..]);
      assert a == [a[0]] + a[1..] && b == [b[0]] + b[1..];
    }
  }

  lemma {:induction false} StringTransitive(a: string, b: string, c: string)
    requires StringLess(a, b) && StringLess(b, c)
    ensures StringLess(a, c)
  {
    if a != "" && a[0] == b[0] == c[0] {
      StringTransitive(a[1..], b[1..], c[1..]);
    }
  }

  /** Code point order, said by the first place where two texts differ: there a has the
      smaller character, or a has ended and b has not. */
  ghost predicate Precedes(a: string, b: string) {
    exists i: nat :: i <= |a| && i < |b| && a[..i] == b[..i] && (i == |a| || a[i] < b[i])
  }

  lemma SamePrefix(a: string, b: string, i: nat)
    requires i <= |a| && i <= |b| && a[..i] == b[..i]
    ensures i > 0 ==> a[0] == b[0]
  {
    assert i > 0 ==> a[..i][0] == a[0] && b[..i][0] == b[0];
  }

  lemma {:induction false} StringLessMeaning(a: string, b: string)
    ensures StringLess(a, b) <==> Precedes(a, b)
  {
    if b == "" || a == "" || a[0] != b[0] {
      if b != "" && (a == "" || a[0] < b[0]) {
        assert a[..0] == b[..0];
      }
      if Precedes(a, b) {
        var i: nat :| i <= |a| && i < |b| && a[..i] == b[..i] && (i == |a| || a[i] < b[i]);
        SamePrefix(a, b, i);
      }
    } else {
      StringLessMeaning(a[1..], b[1..]);
      if Precedes(a, b) {
        var i: nat :| i <= |a| && i < |b| && a[..i] == b[..i] && (i == |a| || a[i] < b[i]);
        assert a[1..][..i - 1] == a[..i][1..] && b[1..][..i - 1] == b[..i][1..];
      }
      if Precedes(a[1..], b[1..]) {
        var i: nat :| i <= |a[1..]| && i < |b[1..]| && a[1..][..i] == b[1..][..i]
                      && (i == |a[1..]| || a[1..][i] < b[1..][i]);
        assert a[..i + 1] == [a[0]] + a[1..][..i] && b[..i + 1] == [b[0]] + b[1..][..i];
      }
    }
  }

  // ---- positions ----------------------------------------------------------------------

  /** Lamport clock, then sender, then that sender's sequence number. */
  datatype Position = Position(lamport: int, sender: string, seqno: int)

  predicate Less(a: Position, b: Position) {
    || a.lamport < b.lamport
    || (a.lamport == b.lamport &&
        (StringLess(a.sender, b.sender) || (a.sender == b.sender && a.seqno < b.seqno)))
  }

  predicate AtMost(a: Position, b: Position) {
    a == b || Less(a, b)
  }

  lemma LessMeaning(a: Position, b: Position)
    ensures Less(a, b)
       <==> || a.lamport < b.lamport
            || (a.lamport == b.lamport && Precedes(a.sender, b.sender))
            || (a.lamport == b.lamport && a.sender == b.sender && a.seqno < b.seqno)
  {
    StringLessMeaning(a.sender, b.sender);
  }

  lemma Trichotomy(a: Position, b: Position)
    ensures Less(a, b) || a == b || Less(b, a)
    ensures !(Less(a, b) && Less(b, a)) && !Less(a, a)
  {
    StringTrichotomy(a.sender, b.sender);
    StringTrichotomy(a.sender, a.sender);
  }

  lemma Transitive(a: Position, b: Position, c: Position)
    requires AtMost(a, b) && AtMost(b, c)
    ensures AtMost(a, c)
    ensures Less(a, b) || Less(b, c) ==> Less(a, c)
  {
    if Less(a, b) && Less(b, c) && StringLess(a.sender, b.sender) && StringLess(b.sender, c.sender) {
      StringTransitive(a.sender, b.sender, c.sender);
    }
  }

  // ---- the stable sort ------------------------------------------------------------------

  ghost predicate SortedBy<T>(xs: seq<T>, key: T -> Position) {
    forall i, j :: 0 <= i < j < |xs| ==> AtMost(key(xs[i]), key(xs[j]))
  }

  /** Puts x in front of the first element whose key is not below its own. */
  function Insert<T>(x: T, xs: seq<T>, key: T -> Position): seq<T> {
    if xs == [] then [x]
    else if Less(key(xs[0]), key(x)) then [xs[0]] + Insert(x, xs[1..], key)
    else [x] + xs
  }

  /** `sorted(xs, key=key)`. */
  function Sorted<T>(xs: seq<T>, key: T -> Position): seq<T> {
    if xs == [] then [] else Insert(xs[0], Sorted(xs[1..], key), key)
  }

  lemma {:induction false} InsertMultiset<T>(x: T, xs: seq<T>, key: T -> Position)
    ensures multiset(Insert(x, xs, key)) == multiset{x} + multiset(xs)
  {
    if xs != [] {
      assert xs == [xs[0]] + xs[1..];
      InsertMultiset(x, xs[1..], key);
    }
  }

  lemma InMultiset<T>(xs: seq<T>, ys: seq<T>)
    requires multiset(xs) == multiset(ys)
    ensures |xs| == |ys|
    ensures forall x :: x in xs <==> x in ys
  {
    assert |multiset(xs)| == |xs| && |multiset(ys)| == |ys|;
    forall x
      ensures x in xs <==> x in ys
    {
      assert x in xs <==> x in multiset(xs);
      assert x in ys <==> x in multiset(ys);
    }
  }

  lemma {:induction false} InsertSorted<T>(x: T, xs: seq<T>, key: T -> Position)
    requires SortedBy(xs, key)
    ensures SortedBy(Insert(x, xs, key), key)
  {
    if xs != [] {
      var r := Insert(x, xs, key);
      Trichotomy(key(xs[0]), key(x));
      if Less(key(xs[0]), key(x)) {
        var rest := Insert(x, xs[1..], key);
        InsertSorted(x, xs[1..], key);
        InsertMultiset(x, xs[1..], key);
        forall i | 0 <= i < |rest|
          ensures AtMost(key(xs[0]), key(rest[i]))
        {
          assert rest[i] in multiset(rest);
          if rest[i] != x {
            assert rest[i] in xs[1..];
          }
        }
      } else {
        forall i | 0 <= i < |xs|
          ensures AtMost(key(x), key(xs[i]))
        {
          Transitive(key(x), key(xs[0]), key(xs[i]));
        }
      }
    }
  }

  /** Sorting permutes, and its result is in order. */
  lemma {:induction false} SortedIsSort<T>(xs: seq<T>, key: T -> Position)
    ensures multiset(Sorted(xs, key)) == multiset(xs)
    ensures SortedBy(Sorted(xs, key), key)
  {
    if xs != [] {
      SortedIsSort(xs[1..], key);
      InsertMultiset(xs[0], Sorted(xs[1..], key), key);
      InsertSorted(xs[0], Sorted(xs[1..], key), key);
      assert xs == [xs[0]] + xs[1..];
    }
  }

  ghost predicate DistinctKeys<T>(xs: seq<T>, key: T -> Position) {
    forall x, y :: x in xs && y in xs && key(x) == key(y) ==> x == y
  }

  lemma SameHead<T>(xs: seq<T>, ys: seq<T>, key: T -> Position)
    requires SortedBy(xs, key) && SortedBy(ys, key) && xs != [] && ys != []
    requires xs[0] in ys && ys[0] in xs && DistinctKeys(xs, key)
    ensures xs[0] == ys[0]
  {
    hide Less, AtMost;
    var x, y := xs[0], ys[0];
    var i :| 0 <= i < |xs| && xs[i] == y;
    var j :| 0 <= j < |ys| && ys[j] == x;
    if i != 0 && j != 0 {
      assert AtMost(key(x), key(y)) && AtMost(key(y), key(x));
      Antisymmetric(key(x), key(y));
    }
  }

  lemma Antisymmetric(a: Position, b: Position)
    requires AtMost(a, b) && AtMost(b, a)
    ensures a == b
  {
    Trichotomy(a, b);
  }

  lemma TailMultiset<T>(xs: seq<T>, ys: seq<T>)
    requires xs != [] && ys != [] && xs[0] == ys[0] && multiset(xs) == multiset(ys)
    ensures multiset(xs[1..]) == multiset(ys[1..])
  {
    assert xs == [xs[0]] + xs[1..] && ys == [ys[0]] + ys[1..];
    assert multiset(xs[1..]) == multiset(xs) - multiset{xs[0]};
    assert multiset(ys[1..]) == multiset(ys) - multiset{ys[0]};
  }

  /** Two ordered arrangements of the same elements are one arrangement, when the key
      tells the elements apart. */
  lemma {:induction false} SortedUnique<T>(xs: seq<T>, ys: seq<T>, key: T -> Position)
    requires SortedBy(xs, key) && SortedBy(ys, key)
    requires multiset(xs) == multiset(ys) && DistinctKeys(xs, key)
    ensures xs == ys
    decreases |xs|
  {
    hide AtMost;
    InMultiset(xs, ys);
    if xs != [] {
      assert ys[0] in ys && xs[0] in xs;
      SameHead(xs, ys, key);
      TailMultiset(xs, ys);
      SortedUnique(xs[1..], ys[1..], key);
      assert xs == [xs[0]] + xs[1..] && ys == [ys[0]] + ys[1..];
    }
  }

  lemma DistinctTransfer<T>(xs: seq<T>, ys: seq<T>, key: T -> Position)
    requires multiset(xs) == multiset(ys) && DistinctKeys(xs, key)
    ensures DistinctKeys(ys, key)
  {
    InMultiset(xs, ys);
    forall x, y | x in ys && y in ys && key(x) == key(y)
      ensures x == y
    {
      assert x in xs && y in xs;
    }
  }

  /** The sort does not depend on the order its input came in. */
  lemma SortedOrderIndependent<T>(xs: seq<T>, ys: seq<T>, key: T -> Position)
    requires multiset(xs) == multiset(ys) && DistinctKeys(xs, key)
    ensures Sorted(xs, key) == Sorted(ys, key)
  {
    hide SortedBy, Sorted;
    SortedIsSort(xs, key);
    SortedIsSort(ys, key);
    DistinctTransfer(xs, Sorted(xs, key), key);
    SortedUnique(Sorted(xs, key), Sorted(ys, key), key);
  }

  // ---- one element more, less or replaced -----------------------------------------------

  lemma InsertAtHead<T>(z: T, x: T, y: T, b: seq<T>, key: T -> Position)
    returns (a': seq<T>, b': seq<T>)
    requires key(x) == key(y) && (b != [] ==> AtMost(key(x), key(b[0])))
    ensures Insert(z, [x] + b, key) == a' + [x] + b'
    ensures Insert(z, [y] + b, key) == a' + [y] + b'
    ensures Insert(z, b, key) == a' + b'
  {
    assert ([x] + b)[1..] == b && ([y] + b)[1..] == b;
    if Less(key(x), key(z)) {
      a', b' := [], Insert(z, b, key);
    } else {
      a', b' := [z], b;
      if b != [] {
        NotBelow(key(x), key(b[0]), key(z));
      }
    }
  }

  lemma {:induction false} InsertAround<T>(z: T, a: seq<T>, x: T, y: T, b: seq<T>, key: T -> Position)
    returns (a': seq<T>, b': seq<T>)
    requires key(x) == key(y) && (b != [] ==> AtMost(key(x), key(b[0])))
    ensures Insert(z, a + [x] + b, key) == a' + [x] + b'
    ensures Insert(z, a + [y] + b, key) == a' + [y] + b'
    ensures Insert(z, a + b, key) == a' + b'
    decreases |a|
  {
    hide Less, AtMost;
    var ax, ay, ab := a + [x] + b, a + [y] + b, a + b;
    if a == [] {
      assert ax == [x] + b && ay == [y] + b && ab == b;
      a', b' := InsertAtHead(z, x, y, b, key);
    } else {
      assert ax[0] == ay[0] == ab[0] == a[0];
      assert ax[1..] == a[1..] + [x] + b && ay[1..] == a[1..] + [y] + b && ab[1..] == a[1..] + b;
      InsertStep(z, ax, key);
      InsertStep(z, ay, key);
      InsertStep(z, ab, key);
      if Less(key(a[0]), key(z)) {
        a', b' := InsertAround(z, a[1..], x, y, b, key);
        hide Insert;
        HeadOnto(a[0], a', x, b');
        HeadOnto(a[0], a', y, b');
        a' := [a[0]] + a';
      } else {
        hide Insert;
        HeadOnto(z, a, x, b);
        HeadOnto(z, a, y, b);
        a', b' := [z] + a, b;
      }
    }
  }

  lemma InsertStep<T>(z: T, xs: seq<T>, key: T -> Position)
    requires xs != []
    ensures Insert(z, xs, key)
         == if Less(key(xs[0]), key(z)) then [xs[0]] + Insert(z, xs[1..], key) else [z] + xs
  {
    hide Less;
  }

  lemma NotBelow(x: Position, b: Position, z: Position)
    requires AtMost(x, b) && !Less(x, z)
    ensures !Less(b, z)
  {
    if Less(b, z) {
      Transitive(x, b, z);
    }
  }

  /** An element dropped from the input, or replaced by one with the same key, is dropped
      from or replaced in the sorted result, and nothing else moves. */
  lemma {:induction false} SortedAround<T>(p: seq<T>, x: T, y: T, q: seq<T>, key: T -> Position)
    returns (a: seq<T>, b: seq<T>)
    requires key(x) == key(y)
    ensures Sorted(p + [x] + q, key) == a + [x] + b
    ensures Sorted(p + [y] + q, key) == a + [y] + b
    ensures Sorted(p + q, key) == a + b
    decreases |p|
  {
    var px, py, pq := p + [x] + q, p + [y] + q, p + q;
    if p == [] {
      assert px[0] == x && py[0] == y && px[1..] == q && py[1..] == q && pq == q;
      a, b := InsertShape(x, y, Sorted(q, key), key);
    } else {
      assert px[0] == py[0] == pq[0] == p[0];
      assert px[1..] == p[1..] + [x] + q && py[1..] == p[1..] + [y] + q && pq[1..] == p[1..] + q;
      a, b := SortedAround(p[1..], x, y, q, key);
      SortedIsSort(px[1..], key);
      assert b != [] ==> AtMost(key(x), key(b[0])) by {
        var r := a + [x] + b;
        assert r[|a|] == x && (b != [] ==> r[|a| + 1] == b[0]);
      }
      a, b := InsertAround(p[0], a, x, y, b, key);
    }
  }

  lemma {:induction false} InsertShape<T>(x: T, y: T, xs: seq<T>, key: T -> Position)
    returns (a: seq<T>, b: seq<T>)
    requires key(x) == key(y)
    ensures Insert(x, xs, key) == a + [x] + b && Insert(y, xs, key) == a + [y] + b && xs == a + b
    decreases |xs|
  {
    if xs == [] || !Less(key(xs[0]), key(x)) {
      a, b := [], xs;
    } else {
      a, b := InsertShape(x, y, xs[1..], key);
      hide Less;
      HeadOnto(xs[0], a, x, b);
      HeadOnto(xs[0], a, y, b);
      assert xs == [xs[0]] + xs[1..];
      a := [xs[0]] + a;
    }
  }

  lemma HeadOnto<T>(head: T, a: seq<T>, x: T, b: seq<T>)
    ensures [head] + (a + [x] + b) == ([head] + a) + [x] + b
    ensures [head] + (a + b) == ([head] + a) + b
  {
  }

  /** Sorting what is sorted changes nothing. */
  lemma {:induction false} SortedAgain<T>(xs: seq<T>, key: T -> Position)
    requires SortedBy(xs, key)
    ensures Sorted(xs, key) == xs
  {
    if xs != [] {
      SortedAgain(xs[1..], key);
      if |xs| > 1 {
        assert AtMost(key(xs[0]), key(xs[1]));
        Trichotomy(key(xs[0]), key(xs[1]));
      }
      assert xs == [xs[0]] + xs[1..];
    }
  }

  // ---- what the order is ----------------------------------------------------------------

  /** In the sorted result clocks never fall; at one clock senders never fall, by code point;
      at one clock and sender sequence numbers never fall. */
  lemma SortedMeaning<T>(xs: seq<T>, key: T -> Position, i: nat, j: nat)
    requires i < j < |Sorted(xs, key)|
    ensures var a, b := key(Sorted(xs, key)[i]), key(Sorted(xs, key)[j]);
            && a.lamport <= b.lamport
            && (a.lamport == b.lamport ==> a.sender == b.sender || Precedes(a.sender, b.sender))
            && (a.lamport == b.lamport && a.sender == b.sender ==> a.seqno <= b.seqno)
  {
    SortedIsSort(xs, key);
    var a, b := key(Sorted(xs, key)[i]), key(Sorted(xs, key)[j]);
    assert AtMost(a, b);
    StringLessMeaning(a.sender, b.sender);
    StringTrichotomy(a.sender, a.sender);
  }

  /** The elements at one position, in the order they stand in. */
  function At<T>(xs: seq<T>, key: T -> Position, p: Position): seq<T> {
    if xs == [] then [] else (if key(xs[0]) == p then [xs[0]] else []) + At(xs[1..], key, p)
  }

  lemma {:induction false} InsertKeeps<T>(x: T, xs: seq<T>, key: T -> Position, p: Position)
    ensures At(Insert(x, xs, key), key, p) == (if key(x) == p then [x] else []) + At(xs, key, p)
  {
    if xs != [] && Less(key(xs[0]), key(x)) {
      InsertKeeps(x, xs[1..], key, p);
      Trichotomy(key(xs[0]), key(x));
      hide Less;
      var r := Insert(x, xs, key);
      assert r[0] == xs[0] && r[1..] == Insert(x, xs[1..], key);
    } else {
      assert ([x] + xs)[1..] == xs;
    }
  }

  /** Elements at one position keep the order they came in. */
  lemma {:induction false} SortedStable<T>(xs: seq<T>, key: T -> Position, p: Position)
    ensures At(Sorted(xs, key), key, p) == At(xs, key, p)
  {
    if xs != [] {
      SortedStable(xs[1..], key, p);
      InsertKeeps(xs[0], Sorted(xs[1..], key), key, p);
    }
  }
}
