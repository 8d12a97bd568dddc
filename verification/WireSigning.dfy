/** The wire peer vouching for its own words: signing a payload, announcing a key and
    attesting an agent, and the guarantee that what it made is later read as valid. */
module WireSigning {
  import opened Attestation
  import opened Bits
  import opened Frames
  import opened Json
  import opened Text
  import opened WirePeer
  import opened Wrappers
  import Curve25519
  import Edwards
  import E = Ed25519
  import NumberTheory
  import Transcripts

  /** `{**payload, "from": sender}`. */
  function FromSender(payload: Fields, sender: string): Fields {
    payload["from" := Str(sender)]
  }

  function SignatureBlock(key: string, blob: string): Json {
    Obj(map["alg" := Str("ed25519"), "v" := Int(SIG_VERSION), "key" := Str(key), "sig" := Str(blob)])
  }

  /** `sign_payload`; None where building the bytes raises. */
  function SignPayload(rt: Runtime, s: E.Scheme, payload: Fields, room: string, seed: seq<Byte>,
                       sender: string): Option<Fields>
    requires s.WellFormed()
  {
    match Frames.SigningBytes(rt, FromSender(payload, sender), room)
    case None => None
    case Some(message) =>
      Some(payload["sig" := SignatureBlock(Hex(s.Public(seed)), Hex(s.Sign(seed, message)))])
  }

  function AnnouncementBody(key: string, display: string, owner: Option<Fields>): Fields {
    var body := map["display" := Str(display), "card" := Obj(map[]), "sign_key" := Str(key)];
    if owner.Some? && owner.value != map[] then body["owner" := Obj(owner.value)] else body
  }

  /** `join_announcement`. */
  function JoinAnnouncement(rt: Runtime, s: E.Scheme, display: string, room: string, seed: seq<Byte>,
                            sender: string, owner: Option<Fields>): Option<Fields>
    requires s.WellFormed()
  {
    SignPayload(rt, s, map["kind" := Str("join"), "body" := Obj(AnnouncementBody(Hex(s.Public(seed)), display, owner))],
                room, seed, sender)
  }

  /** `attest_owner`. */
  function AttestOwner(s: E.Scheme, room: string, seed: seq<Byte>, owner: string, agent: string,
                       agentKey: string): Fields
    requires s.WellFormed()
  {
    map["v" := Int(OWNER_VERSION), "peer" := Str(owner), "key" := Str(Hex(s.Public(seed))),
        "sig" := Str(Hex(s.Sign(seed, OwnerBytes(room, owner, agent, agentKey))))]
  }

  /** What signing adds: the payload with a block that names the algorithm, version 2, the public
      key of the seed and its signature, in hexadecimal, over the bytes of the payload as a frame
      of this sender; nothing else changes. */
  lemma SignPayloadMeaning(rt: Runtime, s: E.Scheme, payload: Fields, room: string, seed: seq<Byte>, sender: string,
                           frame: Fields)
    requires s.WellFormed() && room != "" && Get(frame, "from") == Str(sender)
    requires forall k :: k != "from" ==> Get(frame, k) == Get(payload, k)
    ensures var sent, bytes := SignPayload(rt, s, payload, room, seed, sender), Frames.SigningBytes(rt, frame, room);
            && (sent.Some? <==> bytes.Some?)
            && (sent.Some? ==>
                  && Get(sent.value, "sig") == Obj(map["alg" := Str("ed25519"), "v" := Int(2),
                                                       "key" := Str(Hex(s.Public(seed))),
                                                       "sig" := Str(Hex(s.Sign(seed, bytes.value)))])
                  && forall k :: k != "sig" ==> Get(sent.value, k) == Get(payload, k))
  {
    hide Frames.SigningBytes, s.Public, s.Sign, Hex;
    var f := FromSender(payload, sender);
    assert forall k :: Get(f, k) == Get(frame, k);
    SameFields(rt, f, frame);
    SigningBytesCoverContent(rt, f, frame, room);
  }

  lemma SameFields(rt: Runtime, f: Fields, g: Fields)
    requires forall k :: Get(f, k) == Get(g, k)
    ensures SameContent(rt, f, g)
  {
    hide TextOr, Truthy, Show, Names, ObjectOr;
  }

  /** What an announcement publishes: a join whose body names the public key of the seed, with
      the owner's block beside it when there is one. */
  lemma AnnouncementMeaning(key: string, display: string, owner: Option<Fields>)
    ensures var body := AnnouncementBody(key, display, owner);
            && Get(body, "sign_key") == Str(key) && Get(body, "display") == Str(display)
            && Get(body, "card") == Obj(map[])
            && Get(body, "owner") == (if owner.Some? && owner.value != map[] then Obj(owner.value) else Null)
            && forall k :: k in body ==> k == "sign_key" || k == "display" || k == "card" || k == "owner"
  {
  }

  /** What an attestation says: version 1, the owner, its public key, and its signature over the
      room, owner, agent and agent's key. */
  lemma AttestOwnerMeaning(s: E.Scheme, room: string, seed: seq<Byte>, owner: string, agent: string, agentKey: string)
    requires s.WellFormed()
    ensures var block := AttestOwner(s, room, seed, owner, agent, agentKey);
            && Get(block, "v") == Int(1) && Get(block, "peer") == Str(owner)
            && Get(block, "key") == Str(Hex(s.Public(seed)))
            && Get(block, "sig") == Str(Hex(s.Sign(seed, OwnerBytes(room, owner, agent, agentKey))))
            && forall k :: k in block ==> k == "v" || k == "peer" || k == "key" || k == "sig"
  {
    hide Hex, s.Public, s.Sign, OwnerBytes;
  }

  /** How a room keeps what was sent: under its sender's handle, the content normalised at
      most, the block untouched; id, clock, sequence, time, role and room are the room's. */
  ghost predicate StoredAs(rt: Runtime, sent: Fields, sender: string, stored: Fields) {
    && Get(stored, "from") == Str(sender)
    && Get(stored, "sig") == Get(sent, "sig")
    && forall field :: field in COVERED ==> Normal(rt, stored, field) == Normal(rt, sent, field)
  }

  /** A scheme whose signatures are 64 bytes and whose verification accepts them. */
  ghost predicate Working(s: E.Scheme) {
    && s.WellFormed() && s.size == 32
    && Edwards.Sound(s.curve) && Edwards.OnCurve(s.curve, s.base) && s.GroupHypotheses()
  }

  /** The program's own scheme works, under the named hypotheses about its numbers. */
  lemma Ed25519Works(hash: seq<Byte> -> seq<Byte>)
    requires NumberTheory.IsPrime(Curve25519.P)
    requires forall m :: |hash(m)| == 64
    requires var s := Curve25519.TheScheme(Curve25519.P, hash); s.WellFormed() ==> s.GroupHypotheses()
    ensures Working(Curve25519.TheScheme(Curve25519.P, hash))
  {
    Curve25519.SchemeSound(hash);
  }

  lemma BlockReads(rt: Runtime, key: string, blob: string)
    requires |key| == 64 && |blob| == 128
    ensures ReadSignature(rt, SignatureBlock(key, blob)) == Signature(key, blob)
  {
    var f := SignatureBlock(key, blob).fields;
    assert Get(f, "alg") == Str("ed25519") && Get(f, "v") == Int(SIG_VERSION);
    assert Get(f, "key") == Str(key) && Get(f, "sig") == Str(blob);
  }

  lemma OwnWordsCheck(s: E.Scheme, check: Check, seed: seq<Byte>, message: seq<Byte>)
    requires Working(s) && ChecksWith(check, s)
    ensures |Hex(s.Public(seed))| == 64 && |Hex(s.Sign(seed, message))| == 128
    ensures check(Hex(s.Public(seed)), Hex(s.Sign(seed, message)), message) == Some(true)
  {
    hide Hex, FromHex;
    HexRoundTrip(s.Public(seed));
    HexRoundTrip(s.Sign(seed, message));
    E.VerifyAcceptsSignature(s, seed, message);
    assert check(Hex(s.Public(seed)), Hex(s.Sign(seed, message)), message)
           == HexCheck(s, Hex(s.Public(seed)), Hex(s.Sign(seed, message)), message);
  }

  lemma StoredBytes(rt: Runtime, payload: Fields, block: Json, sender: string, stored: Fields, room: string)
    requires room != "" && StoredAs(rt, payload["sig" := block], sender, stored)
    ensures Frames.SigningBytes(rt, stored, room) == Frames.SigningBytes(rt, FromSender(payload, sender), room)
  {
    var f, sent := FromSender(payload, sender), payload["sig" := block];
    assert forall field :: field in COVERED ==> field != "sig" && field != "from";
    assert Get(f, "from") == Get(stored, "from");
    forall field | field in COVERED
      ensures Normal(rt, stored, field) == Normal(rt, f, field)
    {
      assert Get(sent, field) == Get(f, field);
    }
    SameCovered(rt, stored, f);
    hide SameContent, Normal;
    SigningBytesCoverContent(rt, stored, f, room);
  }

  /** A frame this peer signed is valid to every reader that holds its key. */
  lemma SignedFrameValid(rt: Runtime, s: E.Scheme, check: Check, payload: Fields, room: string, seed: seq<Byte>,
                         sender: string, stored: Fields, keys: map<string, string>)
    requires Working(s) && ChecksWith(check, s) && room != ""
    requires var sent := SignPayload(rt, s, payload, room, seed, sender);
             sent.Some? && StoredAs(rt, sent.value, sender, stored)
    requires sender in keys && keys[sender] == Hex(s.Public(seed))
    ensures VerdictFor(rt, check, stored, keys, room) == Valid
  {
    var sent := SignPayload(rt, s, payload, room, seed, sender).value;
    var message := Frames.SigningBytes(rt, FromSender(payload, sender), room).value;
    var key, blob := Hex(s.Public(seed)), Hex(s.Sign(seed, message));
    OwnWordsCheck(s, check, seed, message);
    StoredBytes(rt, payload, SignatureBlock(key, blob), sender, stored, room);
    CheckedBlockIsValid(rt, check, stored, key, blob, message, sender, keys, room);
  }

  lemma CheckedBlockIsValid(rt: Runtime, check: Check, stored: Fields, key: string, blob: string, message: seq<Byte>,
                            sender: string, keys: map<string, string>, room: string)
    requires |key| == 64 && |blob| == 128 && Get(stored, "sig") == SignatureBlock(key, blob)
    requires Frames.SigningBytes(rt, stored, room) == Some(message) && check(key, blob, message) == Some(true)
    requires Get(stored, "from") == Str(sender) && sender in keys && keys[sender] == key
    ensures VerdictFor(rt, check, stored, keys, room) == Valid
  {
    BlockReads(rt, key, blob);
    hide Frames.SigningBytes, ReadSignature, SignatureBlock;
    assert Sender(rt, stored) == sender;
  }

  // ---- announce, then sign -------------------------------------------------------------------

  /** A stored announcement publishes its own key and passes its own check. */
  lemma AnnouncementAttested(rt: Runtime, s: E.Scheme, check: Check, display: string, room: string, seed: seq<Byte>,
                             sender: string, owner: Option<Fields>, stored: Fields)
    requires Working(s) && ChecksWith(check, s) && room != ""
    requires var sent := JoinAnnouncement(rt, s, display, room, seed, sender, owner);
             sent.Some? && StoredAs(rt, sent.value, sender, stored)
    ensures Attested(rt, Judging(rt, check, room), stored)
    ensures Sender(rt, stored) == sender && Published(rt, stored) == Hex(s.Public(seed))
    ensures OwnerBlock(stored) == if owner.Some? && owner.value != map[] then owner else None
  {
    var key := Hex(s.Public(seed));
    var body := AnnouncementBody(key, display, owner);
    var payload := map["kind" := Str("join"), "body" := Obj(body)];
    var message := Frames.SigningBytes(rt, FromSender(payload, sender), room).value;
    var block := SignatureBlock(key, Hex(s.Sign(seed, message)));
    var sent := payload["sig" := block];
    SignedFrameValid(rt, s, check, payload, room, seed, sender, stored, map[sender := key]);
    assert JoinAnnouncement(rt, s, display, room, seed, sender, owner) == Some(sent);
    assert |key| == 64;
    AnnouncementReads(rt, check, room, payload, block, sender, stored, key, display, owner);
  }

  lemma AnnouncementReads(rt: Runtime, check: Check, room: string, payload: Fields, block: Json, sender: string,
                          stored: Fields, key: string, display: string, owner: Option<Fields>)
    requires payload == map["kind" := Str("join"), "body" := Obj(AnnouncementBody(key, display, owner))]
    requires StoredAs(rt, payload["sig" := block], sender, stored) && |key| == 64
    requires block.Obj? && Get(block.fields, "key") == Str(key)
    requires VerdictFor(rt, check, stored, map[sender := key], room) == Valid
    ensures Attested(rt, Judging(rt, check, room), stored)
    ensures Sender(rt, stored) == sender && Published(rt, stored) == key
    ensures OwnerBlock(stored) == if owner.Some? && owner.value != map[] then owner else None
  {
    var body, sent := AnnouncementBody(key, display, owner), payload["sig" := block];
    BodyReads(rt, key, display, owner);
    hide VerdictFor, AnnouncementBody;
    assert Get(sent, "kind") == Str("join") && Get(sent, "body") == Obj(body) && Get(sent, "sig") == block;
    StoredAnnouncement(rt, sent, sender, stored, body);
    hide Normal;
    assert Sender(rt, stored) == sender && Published(rt, stored) == key;
    assert SelfVerdict(rt, Judging(rt, check, room), stored) == VerdictFor(rt, check, stored, map[sender := key], room);
  }

  lemma BodyReads(rt: Runtime, key: string, display: string, owner: Option<Fields>)
    ensures var body := AnnouncementBody(key, display, owner);
            && Get(body, "sign_key") == Str(key) && body != map[]
            && Get(body, "owner") == if owner.Some? && owner.value != map[] then Obj(owner.value) else Null
  {
    var body := AnnouncementBody(key, display, owner);
    assert "sign_key" in body;
  }

  lemma StoredAnnouncement(rt: Runtime, sent: Fields, sender: string, stored: Fields, body: Fields)
    requires StoredAs(rt, sent, sender, stored)
    requires Get(sent, "kind") == Str("join") && Get(sent, "body") == Obj(body) && body != map[]
    ensures IsJoin(rt, stored) && Get(stored, "body") == Obj(body)
  {
    assert "kind" in COVERED && "body" in COVERED;
    assert Normal(rt, stored, "kind") == Normal(rt, sent, "kind");
    assert Normal(rt, stored, "body") == Normal(rt, sent, "body");
  }

  /** Frame i is a stored announcement of this peer, and no later join of it is keyless or
      attested: the peer's last effective join is its own announcement. */
  ghost predicate LastJoinIsAnnouncement(rt: Runtime, s: E.Scheme, check: Check, frames: seq<Fields>, i: int,
                                         display: string, room: string, seed: seq<Byte>, sender: string,
                                         owner: Option<Fields>)
    requires s.WellFormed()
  {
    var ordered := Transcript(rt, frames);
    var sent := JoinAnnouncement(rt, s, display, room, seed, sender, owner);
    && 0 <= i < |ordered| && sent.Some? && StoredAs(rt, sent.value, sender, ordered[i])
    && forall j :: i < j < |ordered| && Sender(rt, ordered[j]) == sender ==>
         !Keyless(rt, ordered[j]) && !Attested(rt, Judging(rt, check, room), ordered[j])
  }

  /** Announce, and the key is bound; whatever anybody else wrote. */
  lemma AnnouncementBinds(rt: Runtime, s: E.Scheme, check: Check, frames: seq<Fields>, i: int, display: string,
                          room: string, seed: seq<Byte>, sender: string, owner: Option<Fields>)
    requires Working(s) && ChecksWith(check, s) && room != ""
    requires LastJoinIsAnnouncement(rt, s, check, frames, i, display, room, seed, sender, owner)
    requires KeysOf(rt, Judging(rt, check, room), frames).Some?
    ensures var keys := KeysOf(rt, Judging(rt, check, room), frames).value;
            sender in keys && keys[sender] == Hex(s.Public(seed))
    ensures DecidingJoin(rt, Judging(rt, check, room), Transcript(rt, frames), i, sender)
  {
    AnnouncementAttested(rt, s, check, display, room, seed, sender, owner, Transcript(rt, frames)[i]);
    hide Keyless, Attested, Sender, Published, Transcript, JoinAnnouncement, StoredAs;
    Transcripts.BoundByDecider(rt, Judging(rt, check, room), frames, sender, i);
  }

  /** Announce then sign gives valid: every frame the peer signed in that room, placed
      before or after the announcement, under whatever position the room gave it. */
  lemma AnnounceThenSign(rt: Runtime, s: E.Scheme, check: Check, frames: seq<Fields>, i: int, display: string,
                         room: string, seed: seq<Byte>, sender: string, owner: Option<Fields>,
                         payload: Fields, stored: Fields)
    requires Working(s) && ChecksWith(check, s) && room != ""
    requires LastJoinIsAnnouncement(rt, s, check, frames, i, display, room, seed, sender, owner)
    requires KeysOf(rt, Judging(rt, check, room), frames).Some?
    requires var sent := SignPayload(rt, s, payload, room, seed, sender);
             sent.Some? && StoredAs(rt, sent.value, sender, stored)
    ensures VerdictFor(rt, check, stored, KeysOf(rt, Judging(rt, check, room), frames).value, room) == Valid
  {
    AnnouncementBinds(rt, s, check, frames, i, display, room, seed, sender, owner);
    hide KeysOf, LastJoinIsAnnouncement, VerdictFor;
    SignedFrameValid(rt, s, check, payload, room, seed, sender, stored,
                     KeysOf(rt, Judging(rt, check, room), frames).value);
  }

  /** Attest, announce, and the agent is read as owned: the owner's and the agent's last
      effective joins are their announcements, and the agent's carries the block the
      owner made for its handle and key. */
  lemma AttestedAgentIsOwned(rt: Runtime, s: E.Scheme, check: Check, frames: seq<Fields>, room: string,
                             i: int, ownerDisplay: string, ownerSeed: seq<Byte>, owner: string,
                             ownerOwner: Option<Fields>,
                             j: int, agentDisplay: string, agentSeed: seq<Byte>, agent: string)
    requires Working(s) && ChecksWith(check, s) && room != "" && owner != ""
    requires LastJoinIsAnnouncement(rt, s, check, frames, i, ownerDisplay, room, ownerSeed, owner, ownerOwner)
    requires var block := AttestOwner(s, room, ownerSeed, owner, agent, Hex(s.Public(agentSeed)));
             LastJoinIsAnnouncement(rt, s, check, frames, j, agentDisplay, room, agentSeed, agent, Some(block))
    requires OwnersOf(rt, Judging(rt, check, room), check, room, frames).Some?
    ensures var owners := OwnersOf(rt, Judging(rt, check, room), check, room, frames).value;
            agent in owners && owners[agent] == owner
  {
    var judge, ordered := Judging(rt, check, room), Transcript(rt, frames);
    var agentKey, ownerKey := Hex(s.Public(agentSeed)), Hex(s.Public(ownerSeed));
    var block := AttestOwner(s, room, ownerSeed, owner, agent, agentKey);
    Transcripts.OwnersNeedKeys(rt, judge, check, room, frames);
    var keys := KeysOf(rt, judge, frames).value;
    AnnouncementBinds(rt, s, check, frames, i, ownerDisplay, room, ownerSeed, owner, ownerOwner);
    AnnouncementBinds(rt, s, check, frames, j, agentDisplay, room, agentSeed, agent, Some(block));
    AnnouncementAttested(rt, s, check, agentDisplay, room, agentSeed, agent, Some(block), ordered[j]);
    OwnWordsCheck(s, check, ownerSeed, OwnerBytes(room, owner, agent, agentKey));
    BlockVouches(rt, s, check, room, ownerSeed, owner, agent, agentKey, keys);
    hide Transcript, KeysOf, OwnersOf, JoinAnnouncement, LastJoinIsAnnouncement, Keyless, Attested;
    hide Published, OwnerBlock, OwnerBytes, Hex, Sender, AttestOwner;
    Transcripts.OwnersMeaning(rt, judge, check, room, frames, agent, owner);
  }

  /** The block an owner makes vouches for exactly the handle and key it was made for. */
  lemma BlockVouches(rt: Runtime, s: E.Scheme, check: Check, room: string, seed: seq<Byte>, owner: string,
                     agent: string, agentKey: string, keys: map<string, string>)
    requires Working(s) && ChecksWith(check, s) && owner != ""
    requires owner in keys && keys[owner] == Hex(s.Public(seed)) && agent in keys && keys[agent] == agentKey
    ensures var block := AttestOwner(s, room, seed, owner, agent, agentKey);
            block != map[] && Transcripts.VouchedBy(rt, check, room, keys, agent, owner, block)
  {
    var message := OwnerBytes(room, owner, agent, agentKey);
    OwnWordsCheck(s, check, seed, message);
    BlockVouchesFor(rt, check, room, owner, agent, keys, Hex(s.Public(seed)), Hex(s.Sign(seed, message)));
  }

  lemma BlockVouchesFor(rt: Runtime, check: Check, room: string, owner: string, agent: string,
                        keys: map<string, string>, key: string, blob: string)
    requires owner != "" && owner in keys && keys[owner] == key && agent in keys
    requires |key| == 64 && |blob| == 128
    requires check(key, blob, OwnerBytes(room, owner, agent, keys[agent])) == Some(true)
    ensures var block := map["v" := Int(OWNER_VERSION), "peer" := Str(owner), "key" := Str(key), "sig" := Str(blob)];
            block != map[] && Transcripts.VouchedBy(rt, check, room, keys, agent, owner, block)
  {
    hide OwnerBytes;
    var block := map["v" := Int(OWNER_VERSION), "peer" := Str(owner), "key" := Str(key), "sig" := Str(blob)];
    assert Get(block, "peer") == Str(owner) && Get(block, "v") == Int(OWNER_VERSION);
    assert Get(block, "key") == Str(key) && Get(block, "sig") == Str(blob);
    assert "peer" in block;
  }
}
