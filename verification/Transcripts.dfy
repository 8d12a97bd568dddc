/** What writing into a transcript can and cannot change about the keys and owners read
    from it, and what an ownership claim rests on. */
module Transcripts {
  import opened Attestation
  import opened Frames
  import opened Json
  import opened JoinFold
  import opened Ordering
  import opened Wrappers

  // ---- events of a concatenation ------------------------------------------------------------

  lemma KeyEventsAround(rt: Runtime, judge: Judge, a: seq<Fields>, x: Fields, b: seq<Fields>)
    ensures KeyEvents(rt, judge, a + [x] + b)
            == KeyEvents(rt, judge, a) + [Event(Sender(rt, x), KeyEffect(rt, judge, x))] + KeyEvents(rt, judge, b)
    ensures KeyEvents(rt, judge, a + b) == KeyEvents(rt, judge, a) + KeyEvents(rt, judge, b)
  {
    hide KeyEffect, Sender;
  }

  lemma ClaimEventsAround(rt: Runtime, judge: Judge, a: seq<Fields>, x: Fields, b: seq<Fields>)
    ensures ClaimEvents(rt, judge, a + [x] + b)
            == ClaimEvents(rt, judge, a) + [Event(Sender(rt, x), ClaimEffect(rt, judge, x))] + ClaimEvents(rt, judge, b)
    ensures ClaimEvents(rt, judge, a + b) == ClaimEvents(rt, judge, a) + ClaimEvents(rt, judge, b)
  {
    hide ClaimEffect, Sender;
  }

  lemma FatalAround(rt: Runtime, judge: Judge, a: seq<Fields>, x: Fields, b: seq<Fields>)
    requires !Fatal(rt, judge, x)
    ensures NoneFatal(rt, judge, a + [x] + b) == NoneFatal(rt, judge, a + b)
  {
    hide Fatal;
    var with, without := a + [x] + b, a + b;
    if NoneFatal(rt, judge, with) {
      forall i | 0 <= i < |without|
        ensures !Fatal(rt, judge, without[i])
      {
        assert without[i] == with[if i < |a| then i else i + 1];
      }
    }
    if NoneFatal(rt, judge, without) {
      forall i | 0 <= i < |with|
        ensures !Fatal(rt, judge, with[i])
      {
        assert i == |a| || with[i] == without[if i < |a| then i else i - 1];
      }
    }
  }

  lemma PlacedAround(rt: Runtime, p: seq<Fields>, x: Fields, q: seq<Fields>)
    ensures AllPlaced(rt, p + [x] + q) <==> AllPlaced(rt, p + q) && Placed(rt, x)
  {
    hide Placed;
    var with, without := p + [x] + q, p + q;
    assert with[|p|] == x;
    assert forall i :: 0 <= i < |without| ==> without[i] == with[if i < |p| then i else i + 1];
    assert forall i :: 0 <= i < |with| && i != |p| ==> with[i] == without[if i < |p| then i else i - 1];
  }

  // ---- unattested frames change nothing -------------------------------------------------------

  /** A frame that is no keyless or attested join, written anywhere into the log, changes
      no published key. */
  lemma InertFrameInserted(rt: Runtime, judge: Judge, p: seq<Fields>, x: Fields, q: seq<Fields>)
    requires Placed(rt, x) && !Keyless(rt, x) && !Attested(rt, judge, x) && !Fatal(rt, judge, x)
    ensures KeysOf(rt, judge, p + [x] + q) == KeysOf(rt, judge, p + q)
  {
    hide Placed, Sorted, Fold, KeyEvents, Fatal, Keyless, Attested;
    var a, b := SortedAround(p, x, x, q, ByPosition(rt));
    PlacedAround(rt, p, x, q);
    FatalAround(rt, judge, a, x, b);
    KeyEventsAround(rt, judge, a, x, b);
    SkipInserted(KeyEvents(rt, judge, a), Event(Sender(rt, x), KeyEffect(rt, judge, x)), KeyEvents(rt, judge, b));
  }

  /** Nor any owner. */
  lemma InertFrameKeepsOwners(rt: Runtime, judge: Judge, check: Check, room: string,
                              p: seq<Fields>, x: Fields, q: seq<Fields>)
    requires Placed(rt, x) && !Keyless(rt, x) && !Attested(rt, judge, x) && !Fatal(rt, judge, x)
    ensures OwnersOf(rt, judge, check, room, p + [x] + q) == OwnersOf(rt, judge, check, room, p + q)
  {
    InertFrameInserted(rt, judge, p, x, q);
    hide Placed, Sorted, Fold, ClaimEvents, Fatal, Keyless, Attested, KeysOf, OwnersAmong;
    var a, b := SortedAround(p, x, x, q, ByPosition(rt));
    ClaimEventsAround(rt, judge, a, x, b);
    SkipInserted(ClaimEvents(rt, judge, a), Event(Sender(rt, x), ClaimEffect(rt, judge, x)), ClaimEvents(rt, judge, b));
  }

  /** Owners do not depend on the order the frames came in either. */
  lemma OwnersOrderIndependent(rt: Runtime, judge: Judge, check: Check, room: string,
                               frames: seq<Fields>, other: seq<Fields>)
    requires multiset(frames) == multiset(other) && DistinctKeys(frames, ByPosition(rt))
    ensures OwnersOf(rt, judge, check, room, frames) == OwnersOf(rt, judge, check, room, other)
  {
    hide Sorted, KeysOf, OwnersAmong, ClaimEvents, Fold;
    KeysOrderIndependent(rt, judge, frames, other);
    SortedOrderIndependent(frames, other, ByPosition(rt));
  }

  /** The join as a host could leave it: everything but the signature. */
  function Stripped(frame: Fields): Fields {
    frame - {"sig"}
  }

  lemma StrippedReads(rt: Runtime, judge: Judge, f: Fields)
    ensures PositionOf(rt, Stripped(f)) == PositionOf(rt, f) && Placed(rt, Stripped(f)) == Placed(rt, f)
    ensures Sender(rt, Stripped(f)) == Sender(rt, f)
    ensures Keyless(rt, Stripped(f)) == Keyless(rt, f)
    ensures !Attested(rt, judge, Stripped(f)) && !Fatal(rt, judge, Stripped(f))
  {
    var g := Stripped(f);
    assert Get(g, "lamport") == Get(f, "lamport") && Get(g, "seq") == Get(f, "seq") && Get(g, "from") == Get(f, "from");
    assert Get(g, "kind") == Get(f, "kind") && Get(g, "body") == Get(f, "body");
    assert Get(g, "sig") == Null;
  }

  /** Some frame of `rest` is a later join of f's sender that binds or withdraws. */
  ghost predicate Superseded(rt: Runtime, judge: Judge, f: Fields, rest: seq<Fields>) {
    exists g :: g in rest && Sender(rt, g) == Sender(rt, f) && Less(PositionOf(rt, f), PositionOf(rt, g))
                && (Keyless(rt, g) || Attested(rt, judge, g))
  }

  lemma SupersederLater(rt: Runtime, judge: Judge, a: seq<Fields>, f: Fields, b: seq<Fields>)
    requires SortedBy(a + [f] + b, ByPosition(rt)) && Superseded(rt, judge, f, a + b)
    ensures !Undecided(KeyEvents(rt, judge, b), Sender(rt, f))
    ensures !Undecided(ClaimEvents(rt, judge, b), Sender(rt, f))
  {
    hide Keyless, Attested, Sender, AtMost, PositionOf;
    var g :| g in a + b && Sender(rt, g) == Sender(rt, f) && Less(PositionOf(rt, f), PositionOf(rt, g))
             && (Keyless(rt, g) || Attested(rt, judge, g));
    var r := a + [f] + b;
    assert r[|a|] == f;
    assert g !in a by {
      if i :| 0 <= i < |a| && a[i] == g {
        assert r[i] == g && AtMost(PositionOf(rt, g), PositionOf(rt, f));
        Trichotomy(PositionOf(rt, g), PositionOf(rt, g));
        NotBelow(PositionOf(rt, g), PositionOf(rt, f), PositionOf(rt, g));
      }
    }
    var i :| 0 <= i < |b| && b[i] == g;
    var events, claims := KeyEvents(rt, judge, b), ClaimEvents(rt, judge, b);
    assert events[i] == Event(Sender(rt, f), KeyEffect(rt, judge, g)) && !events[i].effect.Skip?;
    assert claims[i] == Event(Sender(rt, f), ClaimEffect(rt, judge, g)) && !claims[i].effect.Skip?;
  }

  /** Stripping the signature off a join that a later effective join of the same peer
      supersedes changes no published key. */
  lemma SupersededJoinStripped(rt: Runtime, judge: Judge, p: seq<Fields>, f: Fields, q: seq<Fields>)
    requires !Fatal(rt, judge, f) && Superseded(rt, judge, f, p + q)
    ensures KeysOf(rt, judge, p + [Stripped(f)] + q) == KeysOf(rt, judge, p + [f] + q)
  {
    var g := Stripped(f);
    StrippedReads(rt, judge, f);
    hide Placed, Sorted, Fold, KeyEvents, Fatal, Keyless, Attested, SortedBy, Sender, PositionOf;
    var a, b := SortedAround(p, f, g, q, ByPosition(rt));
    SortedIsSort(p + [f] + q, ByPosition(rt));
    SortedIsSort(p + q, ByPosition(rt));
    InMultiset(p + q, a + b);
    assert Superseded(rt, judge, f, a + b);
    PlacedAround(rt, p, f, q);
    PlacedAround(rt, p, g, q);
    FatalAround(rt, judge, a, f, b);
    FatalAround(rt, judge, a, g, b);
    KeyEventsAround(rt, judge, a, f, b);
    KeyEventsAround(rt, judge, a, g, b);
    SupersederLater(rt, judge, a, f, b);
    SupersededSkipped(KeyEvents(rt, judge, a), Event(Sender(rt, f), KeyEffect(rt, judge, f)), KeyEvents(rt, judge, b));
    SupersededSkipped(KeyEvents(rt, judge, a), Event(Sender(rt, g), KeyEffect(rt, judge, g)), KeyEvents(rt, judge, b));
  }

  /** Nor any owner. */
  lemma SupersededJoinKeepsOwners(rt: Runtime, judge: Judge, check: Check, room: string,
                                  p: seq<Fields>, f: Fields, q: seq<Fields>)
    requires !Fatal(rt, judge, f) && Superseded(rt, judge, f, p + q)
    ensures OwnersOf(rt, judge, check, room, p + [Stripped(f)] + q) == OwnersOf(rt, judge, check, room, p + [f] + q)
  {
    var g := Stripped(f);
    StrippedReads(rt, judge, f);
    SupersededJoinStripped(rt, judge, p, f, q);
    hide Placed, Sorted, Fold, ClaimEvents, Fatal, Keyless, Attested, SortedBy, Sender, PositionOf, KeysOf, OwnersAmong;
    var a, b := SortedAround(p, f, g, q, ByPosition(rt));
    SortedIsSort(p + [f] + q, ByPosition(rt));
    SortedIsSort(p + q, ByPosition(rt));
    InMultiset(p + q, a + b);
    assert Superseded(rt, judge, f, a + b);
    ClaimEventsAround(rt, judge, a, f, b);
    ClaimEventsAround(rt, judge, a, g, b);
    SupersederLater(rt, judge, a, f, b);
    SupersededSkipped(ClaimEvents(rt, judge, a), Event(Sender(rt, f), ClaimEffect(rt, judge, f)),
                      ClaimEvents(rt, judge, b));
    SupersededSkipped(ClaimEvents(rt, judge, a), Event(Sender(rt, g), ClaimEffect(rt, judge, g)),
                      ClaimEvents(rt, judge, b));
  }

  // ---- exactly when stripping changes the keys ------------------------------------------------

  /** Some join of `who` in `later` binds or withdraws. */
  ghost predicate DecidedIn(rt: Runtime, judge: Judge, later: seq<Fields>, who: string) {
    exists g :: g in later && Sender(rt, g) == who && (Keyless(rt, g) || Attested(rt, judge, g))
  }

  /** The last effective join of `who` in `earlier` binds `key`. */
  ghost predicate BoundIn(rt: Runtime, judge: Judge, earlier: seq<Fields>, who: string, key: string) {
    exists i :: DecidingJoin(rt, judge, earlier, i, who)
                && Attested(rt, judge, earlier[i]) && Published(rt, earlier[i]) == key
  }

  lemma DecidedInEvents(rt: Runtime, judge: Judge, later: seq<Fields>, who: string)
    ensures DecidedIn(rt, judge, later, who) <==> !Undecided(KeyEvents(rt, judge, later), who)
  {
    hide Keyless, Attested, Sender;
    var events := KeyEvents(rt, judge, later);
    if g :| g in later && Sender(rt, g) == who && (Keyless(rt, g) || Attested(rt, judge, g)) {
      var i :| 0 <= i < |later| && later[i] == g;
      assert events[i].sender == who && !events[i].effect.Skip?;
    }
    if !Undecided(events, who) {
      var i :| 0 <= i < |events| && events[i].sender == who && !events[i].effect.Skip?;
      assert later[i] in later;
    }
  }

  lemma BoundInEvents(rt: Runtime, judge: Judge, earlier: seq<Fields>, who: string, key: string)
    ensures var keys := Fold(KeyEvents(rt, judge, earlier));
            BoundIn(rt, judge, earlier, who, key) <==> who in keys && keys[who] == key
  {
    hide Sender;
    var events := KeyEvents(rt, judge, earlier);
    FoldMeaning(events, who, key);
    forall i
      ensures DecidingJoin(rt, judge, earlier, i, who) <==> Decides(events, i, who)
    {
      KeyDecides(rt, judge, earlier, i, who);
    }
  }

  /** Stripping the signature off a join leaves the keys as they are exactly when it was not
      attested, or a later effective join of its sender follows in the transcript, or the
      sender's last effective join before it had bound the same key. */
  lemma StrippedExactly(rt: Runtime, judge: Judge, p: seq<Fields>, f: Fields, q: seq<Fields>)
    returns (a: seq<Fields>, b: seq<Fields>)
    requires KeysOf(rt, judge, p + [f] + q).Some?
    ensures Transcript(rt, p + [f] + q) == a + [f] + b
    ensures Transcript(rt, p + [Stripped(f)] + q) == a + [Stripped(f)] + b
    ensures KeysOf(rt, judge, p + [Stripped(f)] + q) == KeysOf(rt, judge, p + [f] + q)
       <==> !Attested(rt, judge, f) || DecidedIn(rt, judge, b, Sender(rt, f))
            || BoundIn(rt, judge, a, Sender(rt, f), Published(rt, f))
  {
    var g := Stripped(f);
    StrippedReads(rt, judge, f);
    hide Placed, Sorted, Fold, KeyEvents, Fatal, Keyless, Attested, SortedBy, Sender, PositionOf, DecidedIn, BoundIn;
    a, b := SortedAround(p, f, g, q, ByPosition(rt));
    assert (a + [f] + b)[|a|] == f && !Fatal(rt, judge, f);
    PlacedAround(rt, p, f, q);
    PlacedAround(rt, p, g, q);
    FatalAround(rt, judge, a, f, b);
    FatalAround(rt, judge, a, g, b);
    KeyEventsAround(rt, judge, a, f, b);
    KeyEventsAround(rt, judge, a, g, b);
    DecidedInEvents(rt, judge, b, Sender(rt, f));
    BoundInEvents(rt, judge, a, Sender(rt, f), Published(rt, f));
    StrippedEffect(rt, judge, f);
    if Attested(rt, judge, f) {
      SkippedExactly(KeyEvents(rt, judge, a), Event(Sender(rt, f), KeyEffect(rt, judge, f)), KeyEvents(rt, judge, b));
      BindAgain(Fold(KeyEvents(rt, judge, a)), Sender(rt, f), Published(rt, f));
    }
  }

  lemma StrippedEffect(rt: Runtime, judge: Judge, f: Fields)
    ensures Attested(rt, judge, f) ==> KeyEffect(rt, judge, f) == Bind(Published(rt, f))
                                       && KeyEffect(rt, judge, Stripped(f)) == Skip
    ensures !Attested(rt, judge, f) ==> KeyEffect(rt, judge, f) == KeyEffect(rt, judge, Stripped(f))
  {
    StrippedReads(rt, judge, f);
  }

  lemma BindAgain(m: map<string, string>, who: string, key: string)
    ensures Apply(m, Event(who, Bind(key))) == m <==> who in m && m[who] == key
  {
    if Apply(m, Event(who, Bind(key))) == m {
      assert who in Apply(m, Event(who, Bind(key)));
    }
  }

  // ---- owners rest on keys --------------------------------------------------------------------

  /** The block names `owner` and that owner's bound key, and that key signed exactly this
      room, owner, agent and agent key. */
  ghost predicate VouchedBy(rt: Runtime, check: Check, room: string, keys: map<string, string>,
                            agent: string, owner: string, block: Fields)
  {
    && owner != "" && owner == TextOr(rt, Get(block, "peer"))
    && agent in keys && owner in keys && keys[owner] == TextOr(rt, Get(block, "key"))
    && IntOr(rt, Get(block, "v"), 1) == Number(OWNER_VERSION)
    && |keys[owner]| == 64 && |TextOr(rt, Get(block, "sig"))| == 128
    && check(keys[owner], TextOr(rt, Get(block, "sig")), OwnerBytes(room, owner, agent, keys[agent])) == Some(true)
  }

  /** A claim is held exactly when the peer's deciding join is attested and carried it. */
  lemma ClaimsMeaning(rt: Runtime, judge: Judge, frames: seq<Fields>, who: string, claim: Option<Fields>)
    ensures var claims, ordered := ClaimsOf(rt, judge, frames), Transcript(rt, frames);
            who in claims && claims[who] == claim
            <==> exists i :: DecidingJoin(rt, judge, ordered, i, who)
                             && Attested(rt, judge, ordered[i]) && OwnerBlock(ordered[i]) == claim
  {
    hide Transcript, Sender, OwnerBlock;
    var ordered := Transcript(rt, frames);
    var events := ClaimEvents(rt, judge, ordered);
    FoldMeaning(events, who, claim);
    forall i
      ensures DecidingJoin(rt, judge, ordered, i, who) <==> Decides(events, i, who)
    {
      KeyDecides(rt, judge, ordered, i, who);
    }
  }

  lemma ReadOwnerMeaning(rt: Runtime, check: Check, room: string, keys: map<string, string>,
                         agent: string, claim: Option<Fields>, owner: string)
    ensures ReadOwner(rt, check, room, keys, agent, claim) == OwnedBy(owner)
            <==> claim.Some? && claim.value != map[] && agent in keys && keys[agent] != ""
                 && VouchedBy(rt, check, room, keys, agent, owner, claim.value)
  {
  }

  /** Agent belongs to owner exactly when one and the same deciding join of the agent binds
      the agent's key and carries a block that the owner's own bound key vouches for. */
  lemma OwnersMeaning(rt: Runtime, judge: Judge, check: Check, room: string, frames: seq<Fields>,
                      agent: string, owner: string)
    requires OwnersOf(rt, judge, check, room, frames).Some?
    ensures var owners, keys := OwnersOf(rt, judge, check, room, frames).value, KeysOf(rt, judge, frames).value;
            var ordered := Transcript(rt, frames);
            agent in owners && owners[agent] == owner
            <==> exists i :: DecidingJoin(rt, judge, ordered, i, agent) && Attested(rt, judge, ordered[i])
                             && agent in keys && keys[agent] == Published(rt, ordered[i])
                             && OwnerBlock(ordered[i]).Some?
                             && VouchedBy(rt, check, room, keys, agent, owner, OwnerBlock(ordered[i]).value)
  {
    hide Transcript, KeysOf, ClaimsOf, VouchedBy, OwnerBytes, Keyless, Attested, Sender;
    var owners, keys := OwnersOf(rt, judge, check, room, frames).value, KeysOf(rt, judge, frames).value;
    var claims, ordered := ClaimsOf(rt, judge, frames), Transcript(rt, frames);
    if agent in owners && owners[agent] == owner {
      var claim := claims[agent];
      ReadOwnerMeaning(rt, check, room, keys, agent, claim, owner);
      ClaimsMeaning(rt, judge, frames, agent, claim);
      var i :| DecidingJoin(rt, judge, ordered, i, agent) && Attested(rt, judge, ordered[i])
               && OwnerBlock(ordered[i]) == claim;
      BoundByDecider(rt, judge, frames, agent, i);
    }
    forall i | DecidingJoin(rt, judge, ordered, i, agent) && Attested(rt, judge, ordered[i])
               && agent in keys && keys[agent] == Published(rt, ordered[i])
               && OwnerBlock(ordered[i]).Some?
               && VouchedBy(rt, check, room, keys, agent, owner, OwnerBlock(ordered[i]).value)
      ensures agent in owners && owners[agent] == owner
    {
      ClaimsMeaning(rt, judge, frames, agent, OwnerBlock(ordered[i]));
      ReadOwnerMeaning(rt, check, room, keys, agent, OwnerBlock(ordered[i]), owner);
      JoinCarries(rt, judge, ordered[i]);
    }
  }

  lemma JoinCarries(rt: Runtime, judge: Judge, frame: Fields)
    requires Attested(rt, judge, frame) && OwnerBlock(frame).Some?
    ensures Published(rt, frame) != "" && OwnerBlock(frame).value != map[]
  {
  }

  lemma BoundByDecider(rt: Runtime, judge: Judge, frames: seq<Fields>, who: string, i: int)
    requires KeysOf(rt, judge, frames).Some?
    requires DecidingJoin(rt, judge, Transcript(rt, frames), i, who) && Attested(rt, judge, Transcript(rt, frames)[i])
    ensures var keys := KeysOf(rt, judge, frames).value;
            who in keys && keys[who] == Published(rt, Transcript(rt, frames)[i])
  {
    KeysMeaning(rt, judge, frames, who, Published(rt, Transcript(rt, frames)[i]));
  }

  /** The key an owner vouches with is itself bound by that owner's own deciding join. */
  lemma OwnerKeyIsOwn(rt: Runtime, judge: Judge, check: Check, room: string, frames: seq<Fields>, agent: string)
    requires OwnersOf(rt, judge, check, room, frames).Some?
    requires agent in OwnersOf(rt, judge, check, room, frames).value
    ensures var owner := OwnersOf(rt, judge, check, room, frames).value[agent];
            var keys, ordered := KeysOf(rt, judge, frames).value, Transcript(rt, frames);
            && owner in keys && agent in keys
            && exists i :: DecidingJoin(rt, judge, ordered, i, owner) && Attested(rt, judge, ordered[i])
                           && Published(rt, ordered[i]) == keys[owner]
  {
    hide Transcript, KeysOf, ClaimsOf, OwnersOf, Attested, Published;
    var owner := OwnersOf(rt, judge, check, room, frames).value[agent];
    OwnersMeaning(rt, judge, check, room, frames, agent, owner);
    OwnersNeedKeys(rt, judge, check, room, frames);
    KeysMeaning(rt, judge, frames, owner, KeysOf(rt, judge, frames).value[owner]);
  }

  /** The owner fold raises exactly where the key fold does or a block it holds has an
      infinite version. */
  lemma OwnersRaise(rt: Runtime, judge: Judge, check: Check, room: string, frames: seq<Fields>)
    ensures var ordered := Transcript(rt, frames);
            OwnersOf(rt, judge, check, room, frames).None?
            <==> KeysOf(rt, judge, frames).None?
                 || exists i, who :: DecidingJoin(rt, judge, ordered, i, who) && Attested(rt, judge, ordered[i])
                                     && OwnerBlock(ordered[i]).Some? && InfiniteVersion(OwnerBlock(ordered[i]).value)
  {
    hide Transcript, KeysOf, ClaimsOf, Keyless, Attested, Sender, InfiniteVersion, ReadOwner, OwnerBlock;
    if KeysOf(rt, judge, frames).Some? {
      var keys, claims := KeysOf(rt, judge, frames).value, ClaimsOf(rt, judge, frames);
      var ordered := Transcript(rt, frames);
      if agent :| agent in claims && ReadOwner(rt, check, room, keys, agent, claims[agent]).OwnerRaised? {
        ReadRaises(rt, check, room, keys, agent, claims[agent]);
        ClaimsMeaning(rt, judge, frames, agent, claims[agent]);
        var i :| DecidingJoin(rt, judge, ordered, i, agent) && Attested(rt, judge, ordered[i])
                 && OwnerBlock(ordered[i]) == claims[agent];
        assert InfiniteVersion(OwnerBlock(ordered[i]).value);
      }
      if i, who :| DecidingJoin(rt, judge, ordered, i, who) && Attested(rt, judge, ordered[i])
                   && OwnerBlock(ordered[i]).Some? && InfiniteVersion(OwnerBlock(ordered[i]).value) {
        ClaimsMeaning(rt, judge, frames, who, OwnerBlock(ordered[i]));
        BoundByDecider(rt, judge, frames, who, i);
        JoinCarries(rt, judge, ordered[i]);
        ReadRaises(rt, check, room, keys, who, claims[who]);
      }
    }
  }

  lemma ReadRaises(rt: Runtime, check: Check, room: string, keys: map<string, string>, agent: string,
                   claim: Option<Fields>)
    ensures ReadOwner(rt, check, room, keys, agent, claim).OwnerRaised?
       <==> claim.Some? && agent in keys && keys[agent] != "" && InfiniteVersion(claim.value)
  {
    if claim.Some? {
      OverflowMeans(rt, claim.value);
      hide IntOr, InfiniteVersion, OwnerBytes, TextOr;
    }
  }

  lemma OwnersNeedKeys(rt: Runtime, judge: Judge, check: Check, room: string, frames: seq<Fields>)
    requires OwnersOf(rt, judge, check, room, frames).Some?
    ensures KeysOf(rt, judge, frames).Some?
  {
  }
}
