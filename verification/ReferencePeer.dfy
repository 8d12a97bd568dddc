/** The reference peer's side of authorship (examples/10_a2a_reference_peer.py): a second
    program for the same rules, with an injected verifier and a refusal to sign or check
    what two implementations might print differently. */
module ReferencePeer {
  import opened Attestation
  import opened Bits
  import opened Frames
  import opened Json
  import opened JoinFold
  import opened Ordering
  import opened Text
  import opened Wrappers
  import WirePeer

  /** `signing_bytes`, with the payload dict filled field by field; None where it raises. */
  method SigningBytes(rt: Runtime, frame: Fields, room: string) returns (r: Option<seq<Byte>>)
    ensures r == CanonicalBytes(rt, frame, room)
  {
    hide Normal, Signable, Dumps, Utf8, TextOr, Filled, Payload, Canonical, Names, Show;
    var payload := map["v" := Int(SIG_VERSION),
                       "room" := Str(if room != "" then room else TextOr(rt, Get(frame, "room"))),
                       "from" := Str(TextOr(rt, Get(frame, "from")))];
    FilledStart(rt, frame, payload);
    ghost var head := payload;
    for i := 0 to |COVERED|
      invariant forall k :: 0 <= k < i ==> Normal(rt, frame, COVERED[k]).Some?
      invariant payload == Filled(rt, frame, head, i)
    {
      var field := COVERED[i];
      NormalDefined(rt, frame, field);
      NormalBranches(rt, frame, field);
      var value := Get(frame, field);
      if field == "must_understand" {
        var names := Names(rt, value);
        if names.None? {
          return None;
        }
        value := Arr(names.value);
      } else if field == "reply_to" {
        value := if Truthy(value) then Str(Show(rt, value)) else Null;
      } else if field == "to" {
        var to: Fields := if value.Obj? then value.fields else map[];
        value := Obj(if to != map[] then to else map["room" := Bool(true)]);
      } else if field == "body" || field == "ext" {
        value := Obj(if value.Obj? then value.fields else map[]);
      } else {
        value := Str(TextOr(rt, value));
      }
      payload := payload[field := value];
      FilledStep(rt, frame, head, i);
    }
    NormalDefined(rt, frame, COVERED[4]);
    FilledEnd(rt, frame, room);
    if !Canonical(Obj(payload)) {
      return None;
    }
    return Some(Utf8(SIG_DOMAIN + Dumps(Obj(payload))));
  }

  function CanonicalBytes(rt: Runtime, frame: Fields, room: string): Option<seq<Byte>> {
    if CanonicalPayload(rt, frame, room) then Frames.SigningBytes(rt, frame, room) else None
  }

  function VerdictOf(rt: Runtime, verify: Option<Check>, frame: Fields, keys: map<string, string>,
                     room: string): Verdict {
    match ReadSignature(rt, Get(frame, "sig"))
    case NoClaim => Unsigned
    case Unparsed => Unreadable
    case Raised => Escapes
    case Signature(key, blob) =>
      if verify.None? then Unchecked
      else
        match CanonicalBytes(rt, frame, room)
        case None => Unreadable
        case Some(message) => Conclude(rt, frame, keys, key, verify.value(key, blob, message))
  }

  function Judging(rt: Runtime, verify: Option<Check>, room: string): Judge {
    (frame, keys) => VerdictOf(rt, verify, frame, keys, room)
  }

  /** This verdict function raises on the same blocks, verifier or not. */
  lemma VerdictEscapes(rt: Runtime, verify: Option<Check>, frame: Fields, keys: map<string, string>, room: string)
    ensures VerdictOf(rt, verify, frame, keys, room) == Escapes <==> InfiniteSignature(frame)
  {
    RaisedMeans(rt, frame);
    hide ReadSignature, InfiniteSignature, Frames.SigningBytes, CanonicalBytes;
  }

  /** And its key fold raises in the same places. */
  lemma SigningKeysRaise(rt: Runtime, verify: Option<Check>, frames: seq<Fields>, room: string)
    ensures KeysOf(rt, Judging(rt, verify, room), frames).None?
       <==> exists f :: f in frames && (!Placed(rt, f) || RaisingJoin(rt, f))
  {
    forall frame, keys
      ensures Judging(rt, verify, room)(frame, keys) == Escapes <==> InfiniteSignature(frame)
    {
      VerdictEscapes(rt, verify, frame, keys, room);
    }
    hide KeysOf, VerdictOf, Placed, RaisingJoin, InfiniteSignature;
    KeysRaise(rt, Judging(rt, verify, room), frames);
  }

  method SigningKeys(rt: Runtime, verify: Option<Check>, frames: seq<Fields>, room: string)
    returns (r: Option<map<string, string>>)
    ensures r == KeysOf(rt, Judging(rt, verify, room), frames)
  {
    hide Fold, KeyEvents, Sorted, VerdictOf, TextOr, Sender, Placed;
    if !AllPlaced(rt, frames) {
      return None;
    }
    var ordered := Sorted(frames, ByPosition(rt));
    ghost var judge := Judging(rt, verify, room);
    var keys: map<string, string> := map[];
    WirePeer.NoEvents(rt, judge);
    assert ordered[..0] == [];
    for i := 0 to |ordered|
      invariant NoneFatal(rt, judge, ordered[..i])
      invariant keys == Fold(KeyEvents(rt, judge, ordered[..i]))
    {
      var frame := ordered[i];
      assert ordered[..i + 1] == ordered[..i] + [frame];
      WirePeer.KeyEventsLast(rt, judge, ordered[..i], frame);
      if TextOr(rt, Get(frame, "kind")) == "join" {
        var sender, published := Sender(rt, frame), Published(rt, frame);
        if published == "" {
          keys := keys - {sender};
        } else if NamesItsKey(rt, frame) {
          var verdict := VerdictOf(rt, verify, frame, map[sender := published], room);
          if verdict == Escapes {
            assert Fatal(rt, judge, ordered[i]);
            return None;
          }
          if verdict == Valid {
            keys := keys[sender := published];
          }
        }
      }
    }
    assert ordered[..|ordered|] == ordered;
    return Some(keys);
  }

  /** Without a verifier nothing is owned, and nothing is even sorted. */
  method Owners(rt: Runtime, verify: Option<Check>, frames: seq<Fields>, room: string)
    returns (r: Option<map<string, string>>)
    ensures verify.None? ==> r == Some(map[])
    ensures verify.Some? ==> r == OwnersOf(rt, Judging(rt, verify, room), verify.value, room, frames)
  {
    hide Fold, ClaimEvents, KeyEvents, Sorted, VerdictOf, TextOr, Sender, Placed, OwnerBlock, OwnersAmong;
    if verify.None? {
      return Some(map[]);
    }
    if !AllPlaced(rt, frames) {
      return None;
    }
    var ordered := Sorted(frames, ByPosition(rt));
    WirePeer.SortedTwice(rt, frames);
    var keys := SigningKeys(rt, verify, ordered, room);
    if keys.None? {
      return None;
    }
    ghost var judge := Judging(rt, verify, room);
    var claims: map<string, Option<Fields>> := map[];
    WirePeer.NoEvents(rt, judge);
    assert ordered[..0] == [];
    for i := 0 to |ordered|
      invariant NoneFatal(rt, judge, ordered[..i])
      invariant claims == Fold(ClaimEvents(rt, judge, ordered[..i]))
    {
      var frame := ordered[i];
      assert ordered[..i + 1] == ordered[..i] + [frame];
      WirePeer.ClaimEventsLast(rt, judge, ordered[..i], frame);
      if TextOr(rt, Get(frame, "kind")) == "join" {
        var sender, published := Sender(rt, frame), Published(rt, frame);
        if published == "" {
          claims := claims - {sender};
        } else if NamesItsKey(rt, frame) {
          var verdict := VerdictOf(rt, verify, frame, map[sender := published], room);
          assert !Fatal(rt, judge, ordered[i]);
          if verdict == Valid {
            claims := claims[sender := OwnerBlock(frame)];
          }
        }
      }
    }
    assert ordered[..|ordered|] == ordered;
    r := WirePeer.CollectOwners(rt, verify.value, room, keys.value, claims);
  }
}
