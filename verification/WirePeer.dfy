/** The wire peer's side of authorship (examples/12_a2a_wire_peer.py): checking, signing,
    announcing, and the two loops over a transcript. */
module WirePeer {
  import opened Attestation
  import opened Bits
  import opened Frames
  import opened Json
  import opened JoinFold
  import opened Ordering
  import opened Text
  import opened Wrappers
  import E = Ed25519

  // ---- the bytes ---------------------------------------------------------------------------

  /** `signing_bytes`, field by field; None where it raises. */
  method SigningBytes(rt: Runtime, frame: Fields, room: string) returns (r: Option<seq<Byte>>)
    ensures r == Frames.SigningBytes(rt, frame, room)
  {
    hide Normal, Signable, Dumps, Utf8, TextOr, Filled, Payload, Canonical, Names, Show;
    var payload := map["v" := Int(SIG_VERSION),
                       "room" := Str(if room != "" then room else TextOr(rt, Get(frame, "room"))),
                       "from" := Str(TextOr(rt, Get(frame, "from")))];
    FilledStart(rt, frame, payload);
    ghost var head := payload;
    for i := 0 to |COVERED|
      invariant forall k :: 0 <= k < i ==> Normal(rt, frame, COVERED[k]).Some?
      invariant payload == Filled(rt, frame, head, i)
    {
      var field := COVERED[i];
      NormalDefined(rt, frame, field);
      NormalBranches(rt, frame, field);
      var value := Get(frame, field);
      if field == "must_understand" {
        var names := Names(rt, value);
        if names.None? {
          return None;
        }
        value := Arr(names.value);
      } else if field == "reply_to" {
        value := if Truthy(value) then Str(Show(rt, value)) else Null;
      } else if field == "to" {
        var to: Fields := if value.Obj? then value.fields else map[];
        value := Obj(if to != map[] then to else map["room" := Bool(true)]);
      } else if field == "body" || field == "ext" {
        value := Obj(if value.Obj? then value.fields else map[]);
      } else {
        value := Str(TextOr(rt, value));
      }
      payload := payload[field := value];
      FilledStep(rt, frame, head, i);
    }
    NormalDefined(rt, frame, COVERED[4]);
    FilledEnd(rt, frame, room);
    return Some(Utf8(SIG_DOMAIN + Dumps(Obj(payload))));
  }

  // ---- checking -----------------------------------------------------------------------

  /** The Ed25519 check on hexadecimal text; None where `bytes.fromhex` raises. */
  function HexCheck(s: E.Scheme, key: string, blob: string, message: seq<Byte>): Option<bool>
    requires s.WellFormed()
  {
    match (FromHex(key), FromHex(blob))
    case (Some(k), Some(b)) => Some(s.Verify(k, b, message))
    case _ => None
  }

  ghost predicate ChecksWith(check: Check, s: E.Scheme)
    requires s.WellFormed()
  {
    forall key, blob, message :: check(key, blob, message) == HexCheck(s, key, blob, message)
  }

  function VerdictFor(rt: Runtime, check: Check, frame: Fields, keys: map<string, string>, room: string): Verdict {
    match ReadSignature(rt, Get(frame, "sig"))
    case NoClaim => Unsigned
    case Unparsed => Unreadable
    case Raised => Escapes
    case Signature(key, blob) =>
      match Frames.SigningBytes(rt, frame, room)
      case None => Unreadable
      case Some(message) => Conclude(rt, frame, keys, key, check(key, blob, message))
  }

  function Judging(rt: Runtime, check: Check, room: string): Judge {
    (frame, keys) => VerdictFor(rt, check, frame, keys, room)
  }

  /** The verdict function raises on exactly one kind of block: one whose version is an
      infinite number. */
  lemma VerdictEscapes(rt: Runtime, check: Check, frame: Fields, keys: map<string, string>, room: string)
    ensures VerdictFor(rt, check, frame, keys, room) == Escapes <==> InfiniteSignature(frame)
  {
    RaisedMeans(rt, frame);
    hide ReadSignature, InfiniteSignature, Frames.SigningBytes;
  }

  /** So the key fold raises exactly where a frame cannot be placed or a join that publishes
      a key names it in such a block. */
  lemma SigningKeysRaise(rt: Runtime, check: Check, frames: seq<Fields>, room: string)
    ensures KeysOf(rt, Judging(rt, check, room), frames).None?
       <==> exists f :: f in frames && (!Placed(rt, f) || RaisingJoin(rt, f))
  {
    forall frame, keys
      ensures Judging(rt, check, room)(frame, keys) == Escapes <==> InfiniteSignature(frame)
    {
      VerdictEscapes(rt, check, frame, keys, room);
    }
    hide KeysOf, VerdictFor, Placed, RaisingJoin, InfiniteSignature;
    KeysRaise(rt, Judging(rt, check, room), frames);
  }

  /** A block a host could store that makes the documented "never raises" untrue. */
  lemma VerdictCanEscape(rt: Runtime, check: Check, room: string)
    ensures VerdictFor(rt, check, map["sig" := Obj(map["v" := Float("inf")])], map[], room) == Escapes
  {
    VerdictEscapes(rt, check, map["sig" := Obj(map["v" := Float("inf")])], map[], room);
  }

  // ---- the two folds, as the loops run them ---------------------------------------------

  method SigningKeys(rt: Runtime, check: Check, frames: seq<Fields>, room: string)
    returns (r: Option<map<string, string>>)
    ensures r == KeysOf(rt, Judging(rt, check, room), frames)
  {
    hide Fold, KeyEvents, Sorted, VerdictFor, TextOr, Sender, Placed;
    if !AllPlaced(rt, frames) {
      return None;
    }
    var ordered := Sorted(frames, ByPosition(rt));
    ghost var judge := Judging(rt, check, room);
    var keys: map<string, string> := map[];
    NoEvents(rt, judge);
    assert ordered[..0] == [];
    for i := 0 to |ordered|
      invariant NoneFatal(rt, judge, ordered[..i])
      invariant keys == Fold(KeyEvents(rt, judge, ordered[..i]))
    {
      var frame := ordered[i];
      assert ordered[..i + 1] == ordered[..i] + [frame];
      KeyEventsLast(rt, judge, ordered[..i], frame);
      if TextOr(rt, Get(frame, "kind")) != "join" {
        continue;
      }
      var sender, published := Sender(rt, frame), Published(rt, frame);
      if published == "" {
        keys := keys - {sender};
        continue;
      }
      var sig := Get(frame, "sig");
      if !sig.Obj? || TextOr(rt, Get(sig.fields, "key")) != published {
        continue;
      }
      var verdict := VerdictFor(rt, check, frame, map[sender := published], room);
      if verdict == Escapes {
        assert Fatal(rt, judge, ordered[i]);
        return None;
      }
      if verdict == Valid {
        keys := keys[sender := published];
      }
    }
    assert ordered[..|ordered|] == ordered;
    return Some(keys);
  }

  /** The owner fold, with the keys folded here or handed in by the caller. */
  method Owners(rt: Runtime, check: Check, frames: seq<Fields>, room: string, given: Option<map<string, string>>)
    returns (r: Option<map<string, string>>)
    ensures given.None? ==> r == OwnersOf(rt, Judging(rt, check, room), check, room, frames)
    ensures given.Some? ==> r == if KeysOf(rt, Judging(rt, check, room), frames).None? then None
                                 else OwnersAmong(rt, check, room, given.value,
                                                  ClaimsOf(rt, Judging(rt, check, room), frames))
  {
    hide Fold, ClaimEvents, KeyEvents, Sorted, VerdictFor, TextOr, Sender, Placed, OwnerBlock, OwnersAmong;
    if !AllPlaced(rt, frames) {
      return None;
    }
    var ordered := Sorted(frames, ByPosition(rt));
    SortedTwice(rt, frames);
    ghost var judge := Judging(rt, check, room);
    var bound: map<string, string>;
    if given.Some? {
      bound := given.value;
    } else {
      var keys := SigningKeys(rt, check, ordered, room);
      if keys.None? {
        return None;
      }
      bound := keys.value;
    }
    var claims: map<string, Option<Fields>> := map[];
    NoEvents(rt, judge);
    assert ordered[..0] == [];
    for i := 0 to |ordered|
      invariant NoneFatal(rt, judge, ordered[..i])
      invariant claims == Fold(ClaimEvents(rt, judge, ordered[..i]))
    {
      var frame := ordered[i];
      assert ordered[..i + 1] == ordered[..i] + [frame];
      ClaimEventsLast(rt, judge, ordered[..i], frame);
      if TextOr(rt, Get(frame, "kind")) != "join" {
        continue;
      }
      var sender, published := Sender(rt, frame), Published(rt, frame);
      if published == "" {
        claims := claims - {sender};
        continue;
      }
      var sig := Get(frame, "sig");
      if !sig.Obj? || TextOr(rt, Get(sig.fields, "key")) != published {
        continue;
      }
      var verdict := VerdictFor(rt, check, frame, map[sender := published], room);
      if verdict == Escapes {
        assert Fatal(rt, judge, ordered[i]);
        return None;
      }
      if verdict != Valid {
        continue;
      }
      claims := claims[sender := OwnerBlock(frame)];
    }
    assert ordered[..|ordered|] == ordered;
    r := CollectOwners(rt, check, room, bound, claims);
  }

  /** The second loop of `owners`, over the collected claims in no particular order. */
  method CollectOwners(rt: Runtime, check: Check, room: string, bound: map<string, string>,
                       claims: map<string, Option<Fields>>)
    returns (r: Option<map<string, string>>)
    ensures r == OwnersAmong(rt, check, room, bound, claims)
  {
    hide ReadOwner;
    var out: map<string, string> := map[];
    var rest := claims.Keys;
    while rest != {}
      invariant rest <= claims.Keys
      invariant forall agent :: agent in claims && agent !in rest ==>
                  !ReadOwner(rt, check, room, bound, agent, claims[agent]).OwnerRaised?
      invariant out == map agent | agent in claims && agent !in rest
                                   && ReadOwner(rt, check, room, bound, agent, claims[agent]).OwnedBy?
                         :: ReadOwner(rt, check, room, bound, agent, claims[agent]).owner
      decreases rest
    {
      var agent :| agent in rest;
      rest := rest - {agent};
      var read := ReadOwner(rt, check, room, bound, agent, claims[agent]);
      match read {
        case OwnerRaised => return None;
        case OwnedBy(owner) => out := out[agent := owner];
        case NotOwned =>
      }
    }
    assert !exists agent :: agent in claims && ReadOwner(rt, check, room, bound, agent, claims[agent]).OwnerRaised?;
    assert out == map agent | agent in claims && ReadOwner(rt, check, room, bound, agent, claims[agent]).OwnedBy?
                    :: ReadOwner(rt, check, room, bound, agent, claims[agent]).owner;
    return Some(out);
  }

  lemma SortedTwice(rt: Runtime, frames: seq<Fields>)
    ensures Transcript(rt, Transcript(rt, frames)) == Transcript(rt, frames)
    ensures AllPlaced(rt, Transcript(rt, frames)) == AllPlaced(rt, frames)
  {
    var ordered := Transcript(rt, frames);
    SortedIsSort(frames, ByPosition(rt));
    SortedAgain(ordered, ByPosition(rt));
    InMultiset(frames, ordered);
    assert AllPlaced(rt, frames) <==> forall f :: f in frames ==> Placed(rt, f);
    assert AllPlaced(rt, ordered) <==> forall f :: f in ordered ==> Placed(rt, f);
  }

  lemma NoEvents(rt: Runtime, judge: Judge)
    ensures Fold(KeyEvents(rt, judge, [])) == map[] && Fold(ClaimEvents(rt, judge, [])) == map[]
  {
  }

  lemma KeyEventsLast(rt: Runtime, judge: Judge, a: seq<Fields>, x: Fields)
    ensures Fold(KeyEvents(rt, judge, a + [x]))
            == Apply(Fold(KeyEvents(rt, judge, a)), Event(Sender(rt, x), KeyEffect(rt, judge, x)))
  {
    hide KeyEffect, Sender;
    var e := Event(Sender(rt, x), KeyEffect(rt, judge, x));
    assert KeyEvents(rt, judge, a + [x]) == KeyEvents(rt, judge, a) + [e];
    FoldLast(map[], KeyEvents(rt, judge, a), e);
  }

  lemma ClaimEventsLast(rt: Runtime, judge: Judge, a: seq<Fields>, x: Fields)
    ensures Fold(ClaimEvents(rt, judge, a + [x]))
            == Apply(Fold(ClaimEvents(rt, judge, a)), Event(Sender(rt, x), ClaimEffect(rt, judge, x)))
  {
    hide ClaimEffect, Sender;
    var e := Event(Sender(rt, x), ClaimEffect(rt, judge, x));
    assert ClaimEvents(rt, judge, a + [x]) == ClaimEvents(rt, judge, a) + [e];
    FoldLast(map[], ClaimEvents(rt, judge, a), e);
  }
}
