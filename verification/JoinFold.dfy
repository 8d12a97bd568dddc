/** The fold both peers run over a transcript's joins, apart from what a join is judged
    by: per sender, the last event that binds or withdraws decides, and an event that
    does neither changes nothing. */
module JoinFold {

  datatype Effect<+V> = Skip | Withdraw | Bind(value: V)

  datatype Event<+V> = Event(sender: string, effect: Effect<V>)

  function Apply<V>(m: map<string, V>, e: Event<V>): map<string, V> {
    match e.effect
    case Skip => m
    case Withdraw => m - {e.sender}
    case Bind(v) => m[e.sender := v]
  }

  function FoldFrom<V>(m: map<string, V>, events: seq<Event<V>>): map<string, V>
    decreases |events|
  {
    if events == [] then m else FoldFrom(Apply(m, events[0]), events[1..])
  }

  function Fold<V>(events: seq<Event<V>>): map<string, V> {
    FoldFrom(map[], events)
  }

  /** Event i is the last one about `who` that is not skipped. */
  ghost predicate Decides<V>(events: seq<Event<V>>, i: int, who: string) {
    && 0 <= i < |events| && events[i].sender == who && !events[i].effect.Skip?
    && forall j :: i < j < |events| && events[j].sender == who ==> events[j].effect.Skip?
  }

  ghost predicate Undecided<V>(events: seq<Event<V>>, who: string) {
    forall j :: 0 <= j < |events| && events[j].sender == who ==> events[j].effect.Skip?
  }

  lemma {:induction false} FoldAppend<V>(m: map<string, V>, a: seq<Event<V>>, b: seq<Event<V>>)
    ensures FoldFrom(m, a + b) == FoldFrom(FoldFrom(m, a), b)
    decreases |a|
  {
    if a == [] {
      assert a + b == b;
    } else {
      assert (a + b)[0] == a[0] && (a + b)[1..] == a[1..] + b;
      FoldAppend(Apply(m, a[0]), a[1..], b);
    }
  }

  lemma FoldLast<V>(m: map<string, V>, a: seq<Event<V>>, e: Event<V>)
    ensures FoldFrom(m, a + [e]) == Apply(FoldFrom(m, a), e)
  {
    FoldAppend(m, a, [e]);
    assert [e][1..] == [];
  }

  /** What the fold says about `who` is what its deciding event says. */
  lemma {:induction false} FoldDecided<V>(m: map<string, V>, events: seq<Event<V>>, i: int, who: string)
    requires Decides(events, i, who)
    ensures events[i].effect.Withdraw? ==> who !in FoldFrom(m, events)
    ensures events[i].effect.Bind? ==>
              who in FoldFrom(m, events) && FoldFrom(m, events)[who] == events[i].effect.value
    decreases |events|
  {
    var n := |events| - 1;
    var init, e := events[..n], events[n];
    assert events == init + [e];
    FoldLast(m, init, e);
    if i < n {
      assert Decides(init, i, who);
      FoldDecided(m, init, i, who);
    }
  }

  lemma {:induction false} FoldUndecided<V>(m: map<string, V>, events: seq<Event<V>>, who: string)
    requires Undecided(events, who)
    ensures who in FoldFrom(m, events) <==> who in m
    ensures who in m ==> FoldFrom(m, events)[who] == m[who]
    decreases |events|
  {
    if events != [] {
      assert Undecided(events[1..], who);
      FoldUndecided(Apply(m, events[0]), events[1..], who);
    }
  }

  lemma {:induction false} DeciderExists<V>(events: seq<Event<V>>, who: string)
    ensures Undecided(events, who) || exists i :: Decides(events, i, who)
    decreases |events|
  {
    if events != [] {
      var n := |events| - 1;
      var init := events[..n];
      if events[n].sender == who && !events[n].effect.Skip? {
        assert Decides(events, n, who);
      } else {
        DeciderExists(init, who);
        if !Undecided(init, who) {
          var i :| Decides(init, i, who);
          assert Decides(events, i, who);
        }
      }
    }
  }

  /** The fold maps `who` to `v` exactly when the last event about `who` that binds or
      withdraws binds `v`. */
  lemma FoldMeaning<V>(events: seq<Event<V>>, who: string, v: V)
    ensures who in Fold(events) && Fold(events)[who] == v
            <==> exists i :: Decides(events, i, who) && events[i].effect == Bind(v)
  {
    DeciderExists(events, who);
    if Undecided(events, who) {
      FoldUndecided(map[], events, who);
    } else {
      var i :| Decides(events, i, who);
      FoldDecided(map[], events, i, who);
      forall j | Decides(events, j, who)
        ensures j == i
      {
      }
    }
  }

  /** A skipped event, wherever it stands, changes nothing. */
  lemma SkipInserted<V>(a: seq<Event<V>>, e: Event<V>, b: seq<Event<V>>)
    requires e.effect.Skip?
    ensures Fold(a + [e] + b) == Fold(a + b)
  {
    FoldAppend(map[], a + [e], b);
    FoldLast(map[], a, e);
    FoldAppend(map[], a, b);
  }

  /** Dropping a binding or withdrawing event to a skip leaves the result alone exactly when
      a later event of its sender decides, or it repeated what the fold said already. */
  lemma SkippedExactly<V>(a: seq<Event<V>>, e: Event<V>, b: seq<Event<V>>)
    requires !e.effect.Skip?
    ensures Fold(a + [e] + b) == Fold(a + [Event(e.sender, Skip)] + b)
       <==> !Undecided(b, e.sender) || Apply(Fold(a), e) == Fold(a)
  {
    var s := Event(e.sender, Skip);
    if !Undecided(b, e.sender) {
      SupersededSkipped(a, e, b);
    } else {
      FoldAppend(map[], a + [e], b);
      FoldAppend(map[], a + [s], b);
      FoldLast(map[], a, e);
      FoldLast(map[], a, s);
      var m := Fold(a);
      FoldUndecided(Apply(m, e), b, e.sender);
      FoldUndecided(m, b, e.sender);
      if FoldFrom(Apply(m, e), b) == FoldFrom(m, b) {
        assert Apply(m, e) == m;
      }
    }
  }

  /** An event that a later deciding event of the same sender supersedes can be dropped
      to a skip without changing the result. */
  lemma SupersededSkipped<V>(a: seq<Event<V>>, e: Event<V>, b: seq<Event<V>>)
    requires !Undecided(b, e.sender)
    ensures Fold(a + [e] + b) == Fold(a + [Event(e.sender, Skip)] + b)
  {
    var s := Event(e.sender, Skip);
    FoldAppend(map[], a + [e], b);
    FoldAppend(map[], a + [s], b);
    FoldLast(map[], a, e);
    FoldLast(map[], a, s);
    var m := FoldFrom(map[], a);
    var l, r := FoldFrom(Apply(m, e), b), FoldFrom(m, b);
    forall who
      ensures who in l <==> who in r
      ensures who in l ==> l[who] == r[who]
    {
      DeciderExists(b, who);
      if Undecided(b, who) {
        FoldUndecided(Apply(m, e), b, who);
        FoldUndecided(m, b, who);
      } else {
        var i :| Decides(b, i, who);
        FoldDecided(Apply(m, e), b, i, who);
        FoldDecided(m, b, i, who);
      }
    }
    assert l == r;
  }
}
