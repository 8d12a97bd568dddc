/** When each verdict is given, in the frame's own fields: both verdict functions, and what
    "valid" comes to in points of the curve. */
module Verdicts {
  import opened Attestation
  import opened Bits
  import opened Decoding
  import opened Digits
  import opened Edwards
  import opened Frames
  import opened Json
  import opened Ordering
  import opened SignatureMeaning
  import opened Wrappers
  import E = Ed25519
  import Reference = ReferencePeer
  import Text
  import Transcripts
  import Wire = WirePeer

  /** The signature block, empty where the frame carries none. */
  function Block(frame: Fields): Fields {
    ObjectOr(Get(frame, "sig"), map[])
  }

  function KeyText(rt: Runtime, frame: Fields): string {
    TextOr(rt, Get(Block(frame), "key"))
  }

  function SignatureText(rt: Runtime, frame: Fields): string {
    TextOr(rt, Get(Block(frame), "sig"))
  }

  /** The block is of the algorithm and the version read here, with a key of 64 and a
      signature of 128 characters. */
  predicate Readable(rt: Runtime, frame: Fields) {
    && Block(frame) != map[]
    && TextOr(rt, Get(Block(frame), "alg")) == "ed25519" && IntOr(rt, Get(Block(frame), "v"), 1) == Number(2)
    && |KeyText(rt, frame)| == 64 && |SignatureText(rt, frame)| == 128
  }

  /** The frame's sender has published the key the block names. */
  predicate IsPublished(rt: Runtime, frame: Fields, keys: map<string, string>) {
    var sender := TextOr(rt, Get(frame, "from"));
    sender in keys && keys[sender] != "" && keys[sender] == KeyText(rt, frame)
  }

  lemma ReadMeaning(rt: Runtime, frame: Fields)
    ensures ReadSignature(rt, Get(frame, "sig"))
            == if Block(frame) == map[] then NoClaim
               else if InfiniteVersion(Block(frame)) then Raised
               else if Readable(rt, frame) then Signature(KeyText(rt, frame), SignatureText(rt, frame))
               else Unparsed
    ensures Readable(rt, frame) ==> Block(frame) != map[] && !InfiniteVersion(Block(frame))
  {
    OverflowMeans(rt, Block(frame));
    hide IntOr, TextOr, InfiniteVersion;
  }

  /** What the check says of the covered bytes; nothing where there are none to check. */
  function Checked(rt: Runtime, check: Check, frame: Fields, bytes: Option<seq<Byte>>): Option<bool> {
    match bytes
    case None => None
    case Some(message) => check(KeyText(rt, frame), SignatureText(rt, frame), message)
  }

  /** The wire peer's verdict: "unsigned" without a block; "invalid", the one that accuses,
      exactly when a readable block fails the check; "foreign_key" when it passes and its
      sender has not published this key, "valid" when it has; "unreadable" for any other
      block, or where there is nothing the check can say; and an exception on a version that
      is an infinite number. */
  lemma VerdictMeaning(rt: Runtime, check: Check, frame: Fields, keys: map<string, string>, room: string)
    ensures var verdict := Wire.VerdictFor(rt, check, frame, keys, room);
            var sum := Checked(rt, check, frame, SigningBytes(rt, frame, room));
            && (verdict == Unsigned <==> Block(frame) == map[])
            && (verdict == Escapes <==> InfiniteVersion(Block(frame)))
            && (verdict == Unreadable <==> Block(frame) != map[] && !InfiniteVersion(Block(frame))
                                           && (!Readable(rt, frame) || sum == None))
            && (verdict == Invalid <==> Readable(rt, frame) && sum == Some(false))
            && (verdict == ForeignKey <==> Readable(rt, frame) && sum == Some(true) && !IsPublished(rt, frame, keys))
            && (verdict == Valid <==> Readable(rt, frame) && sum == Some(true) && IsPublished(rt, frame, keys))
            && verdict != Unchecked
  {
    ReadMeaning(rt, frame);
    OverflowMeans(rt, Block(frame));
    hide ReadSignature, SigningBytes, Readable, InfiniteVersion, KeyText, SignatureText, Block;
  }

  /** The reference peer's: the same, but that bytes with a fractional number in them are
      none, and that without a verifier a readable block is "unchecked". */
  lemma ReferenceVerdictMeaning(rt: Runtime, verify: Option<Check>, frame: Fields, keys: map<string, string>,
                                room: string)
    ensures var verdict := Reference.VerdictOf(rt, verify, frame, keys, room);
            var bytes := if CanonicalPayload(rt, frame, room) then SigningBytes(rt, frame, room) else None;
            var sum := if verify.Some? then Checked(rt, verify.value, frame, bytes) else None;
            && (verdict == Unsigned <==> Block(frame) == map[])
            && (verdict == Escapes <==> InfiniteVersion(Block(frame)))
            && (verdict == Unreadable <==> Block(frame) != map[] && !InfiniteVersion(Block(frame))
                                           && (!Readable(rt, frame) || (verify.Some? && sum == None)))
            && (verdict == Unchecked <==> Readable(rt, frame) && verify.None?)
            && (verdict == Invalid <==> Readable(rt, frame) && sum == Some(false))
            && (verdict == ForeignKey <==> Readable(rt, frame) && sum == Some(true) && !IsPublished(rt, frame, keys))
            && (verdict == Valid <==> Readable(rt, frame) && sum == Some(true) && IsPublished(rt, frame, keys))
  {
    ReadMeaning(rt, frame);
    OverflowMeans(rt, Block(frame));
    hide ReadSignature, SigningBytes, Readable, InfiniteVersion, KeyText, SignatureText, Block, CanonicalPayload;
  }

  // ---- what the check says ---------------------------------------------------------------

  /** The bytes are a key and a signature whose points and number satisfy S B = R + k A. */
  ghost predicate Satisfied(s: E.Scheme, key: seq<Byte>, blob: seq<Byte>, k: nat)
    requires s.WellFormed()
  {
    && |blob| == 2 * s.size && |key| == s.size
    && exists A, R :: Spells(s, key, A) && Spells(s, blob[..s.size], R)
                      && Repeat(s.curve, s.base, LittleValue(blob[s.size..])) == Add(s.curve, R, Repeat(s.curve, A, k))
  }

  /** The check on text that does not spell bytes says nothing; otherwise it says whether the
      equation holds, k being the number of the digest of R, the key and the message. */
  lemma CheckMeaning(s: E.Scheme, key: string, blob: string, message: seq<Byte>, k: nat)
    requires s.WellFormed() && Sound(s.curve) && Associative(s.curve) && OnCurve(s.curve, s.base)
    requires match (Text.FromHex(key), Text.FromHex(blob))
             case (Some(a), Some(b)) => |b| >= s.size ==> IsDigest(s, k, b[..s.size] + a + message)
             case _ => true
    ensures match (Text.FromHex(key), Text.FromHex(blob))
            case (Some(a), Some(b)) => Wire.HexCheck(s, key, blob, message) == Some(Satisfied(s, a, b, k))
            case _ => Wire.HexCheck(s, key, blob, message) == None
  {
    match (Text.FromHex(key), Text.FromHex(blob)) {
      case (Some(a), Some(b)) =>
        VerifyMeaning(s, a, b, message, k);
        hide Spells, Text.FromHex, s.Verify, IsDigest, Sound, Associative, OnCurve;
      case _ =>
    }
  }

  /** So a frame is valid for the wire peer exactly when its readable block spells a key and a
      signature of these bytes that satisfy the equation, and the sender has published it. */
  lemma ValidExactly(rt: Runtime, s: E.Scheme, check: Check, frame: Fields, keys: map<string, string>, room: string,
                     message: seq<Byte>, key: seq<Byte>, blob: seq<Byte>, k: nat)
    requires s.WellFormed() && Sound(s.curve) && Associative(s.curve) && OnCurve(s.curve, s.base)
    requires Wire.ChecksWith(check, s) && Readable(rt, frame) && SigningBytes(rt, frame, room) == Some(message)
    requires Text.FromHex(KeyText(rt, frame)) == Some(key) && Text.FromHex(SignatureText(rt, frame)) == Some(blob)
    requires |blob| >= s.size ==> IsDigest(s, k, blob[..s.size] + key + message)
    ensures var verdict := Wire.VerdictFor(rt, check, frame, keys, room);
            && (verdict == Valid <==> Satisfied(s, key, blob, k) && IsPublished(rt, frame, keys))
            && (verdict == ForeignKey <==> Satisfied(s, key, blob, k) && !IsPublished(rt, frame, keys))
            && (verdict == Invalid <==> !Satisfied(s, key, blob, k))
  {
    CheckMeaning(s, KeyText(rt, frame), SignatureText(rt, frame), message, k);
    VerdictMeaning(rt, check, frame, keys, room);
    hide Satisfied, Readable, KeyText, SignatureText, IsPublished, Wire.VerdictFor, Text.FromHex, Wire.HexCheck;
    hide IsDigest, Sound, Associative, OnCurve, SigningBytes;
  }

  // ---- joins, keys and owners ------------------------------------------------------------

  function Body(frame: Fields): Fields {
    ObjectOr(Get(frame, "body"), map[])
  }

  /** The frame is a join that names no key. */
  predicate Withdraws(rt: Runtime, frame: Fields) {
    TextOr(rt, Get(frame, "kind")) == "join" && TextOr(rt, Get(Body(frame), "sign_key")) == ""
  }

  /** The frame is a join that names this key, in a readable block by this very key that
      passes the check. */
  predicate Publishes(rt: Runtime, check: Check, room: string, frame: Fields, key: string) {
    && TextOr(rt, Get(frame, "kind")) == "join" && key != "" && TextOr(rt, Get(Body(frame), "sign_key")) == key
    && Readable(rt, frame) && KeyText(rt, frame) == key
    && Checked(rt, check, frame, SigningBytes(rt, frame, room)) == Some(true)
  }

  lemma BodyReads(rt: Runtime, frame: Fields)
    ensures Published(rt, frame) == TextOr(rt, Get(Body(frame), "sign_key"))
    ensures ObjectOr(Get(Body(frame), "owner"), map[]) != map[]
            ==> OwnerBlock(frame) == Some(ObjectOr(Get(Body(frame), "owner"), map[]))
    ensures ObjectOr(Get(Body(frame), "owner"), map[]) == map[] ==> OwnerBlock(frame) == None
  {
    var j := Get(frame, "body");
    if !j.Obj? {
      assert Body(frame) == map[];
      assert Get(Body(frame), "sign_key") == Null == Get(Body(frame), "owner");
    } else {
      assert Body(frame) == j.fields;
      hide TextOr;
    }
  }

  lemma NamesKey(rt: Runtime, frame: Fields)
    requires Readable(rt, frame)
    ensures NamesItsKey(rt, frame) <==> KeyText(rt, frame) == Published(rt, frame)
  {
    hide TextOr, IntOr, Published;
  }

  /** Which joins withdraw, and which bind what. */
  lemma JoinMeaning(rt: Runtime, check: Check, room: string, frame: Fields, key: string)
    ensures Keyless(rt, frame) <==> Withdraws(rt, frame)
    ensures Attested(rt, Wire.Judging(rt, check, room), frame) && Published(rt, frame) == key
       <==> Publishes(rt, check, room, frame, key)
  {
    var published := Published(rt, frame);
    var keys := map[Sender(rt, frame) := published];
    BodyReads(rt, frame);
    VerdictMeaning(rt, check, frame, keys, room);
    assert SelfVerdict(rt, Wire.Judging(rt, check, room), frame) == Wire.VerdictFor(rt, check, frame, keys, room);
    if Readable(rt, frame) {
      NamesKey(rt, frame);
    }
    assert IsPublished(rt, frame, keys) <==> published != "" && published == KeyText(rt, frame);
    var judge := Wire.Judging(rt, check, room);
    hide Readable, KeyText, Checked, SigningBytes, Wire.VerdictFor, NamesItsKey, Published, Body, TextOr, IsPublished;
    hide InfiniteVersion, SelfVerdict, Block;
    assert Attested(rt, judge, frame)
      <==> IsJoin(rt, frame) && published != "" && NamesItsKey(rt, frame) && SelfVerdict(rt, judge, frame) == Valid;
    assert Readable(rt, frame) ==> (NamesItsKey(rt, frame) <==> KeyText(rt, frame) == published);
    assert SelfVerdict(rt, judge, frame) == Valid
      <==> Readable(rt, frame) && Checked(rt, check, frame, SigningBytes(rt, frame, room)) == Some(true)
           && published != "" && published == KeyText(rt, frame);
    if Publishes(rt, check, room, frame, key) {
      assert published == key;
      assert SelfVerdict(rt, judge, frame) == Valid && NamesItsKey(rt, frame);
    }
  }

  /** The frame withdraws or publishes something. */
  ghost predicate Decisive(rt: Runtime, check: Check, room: string, frame: Fields) {
    Withdraws(rt, frame) || exists key :: Publishes(rt, check, room, frame, key)
  }

  lemma DecisiveMeaning(rt: Runtime, check: Check, room: string, frame: Fields)
    ensures Decisive(rt, check, room, frame)
       <==> Keyless(rt, frame) || Attested(rt, Wire.Judging(rt, check, room), frame)
  {
    forall key
      ensures Keyless(rt, frame) <==> Withdraws(rt, frame)
      ensures Attested(rt, Wire.Judging(rt, check, room), frame) && Published(rt, frame) == key
         <==> Publishes(rt, check, room, frame, key)
    {
      JoinMeaning(rt, check, room, frame, key);
    }
    hide Keyless, Attested, Publishes, Published, Withdraws;
    assert Attested(rt, Wire.Judging(rt, check, room), frame)
           ==> Publishes(rt, check, room, frame, Published(rt, frame));
  }

  /** Frame i is the last decisive one of its sender. */
  ghost predicate LastWord(rt: Runtime, check: Check, room: string, ordered: seq<Fields>, i: int, who: string) {
    && 0 <= i < |ordered| && TextOr(rt, Get(ordered[i], "from")) == who && Decisive(rt, check, room, ordered[i])
    && forall j :: i < j < |ordered| && TextOr(rt, Get(ordered[j], "from")) == who ==>
         !Decisive(rt, check, room, ordered[j])
  }

  lemma LastWordDecides(rt: Runtime, check: Check, room: string, ordered: seq<Fields>, i: int, who: string)
    ensures DecidingJoin(rt, Wire.Judging(rt, check, room), ordered, i, who)
       <==> LastWord(rt, check, room, ordered, i, who)
  {
    var judge := Wire.Judging(rt, check, room);
    forall j | 0 <= j < |ordered|
      ensures Decisive(rt, check, room, ordered[j]) <==> Keyless(rt, ordered[j]) || Attested(rt, judge, ordered[j])
    {
      DecisiveMeaning(rt, check, room, ordered[j]);
    }
    hide Keyless, Attested, Decisive, TextOr;
    assert forall j :: 0 <= j < |ordered| ==> Sender(rt, ordered[j]) == TextOr(rt, Get(ordered[j], "from"));
  }

  /** A peer's key is k exactly when its last word in the transcript publishes k. */
  lemma KeysExactly(rt: Runtime, check: Check, room: string, frames: seq<Fields>, who: string, key: string)
    requires KeysOf(rt, Wire.Judging(rt, check, room), frames).Some?
    ensures var keys := KeysOf(rt, Wire.Judging(rt, check, room), frames).value;
            var ordered := Transcript(rt, frames);
            who in keys && keys[who] == key
            <==> exists i :: LastWord(rt, check, room, ordered, i, who) && Publishes(rt, check, room, ordered[i], key)
  {
    var judge, ordered := Wire.Judging(rt, check, room), Transcript(rt, frames);
    KeysMeaning(rt, judge, frames, who, key);
    hide KeysOf, Transcript, LastWord, DecidingJoin, Attested, Published, Publishes;
    assert forall i :: LastWord(rt, check, room, ordered, i, who) ==> 0 <= i < |ordered| by {
      InRange(rt, check, room, ordered, who);
    }
    forall i
      ensures DecidingJoin(rt, judge, ordered, i, who) <==> LastWord(rt, check, room, ordered, i, who)
    {
      LastWordDecides(rt, check, room, ordered, i, who);
    }
    forall i | 0 <= i < |ordered|
      ensures Attested(rt, judge, ordered[i]) && Published(rt, ordered[i]) == key
         <==> Publishes(rt, check, room, ordered[i], key)
    {
      JoinMeaning(rt, check, room, ordered[i], key);
    }
  }

  lemma InRange(rt: Runtime, check: Check, room: string, ordered: seq<Fields>, who: string)
    ensures forall i :: LastWord(rt, check, room, ordered, i, who) ==> 0 <= i < |ordered|
  {
  }

  /** The block of the join names this owner and the key the owner has bound, and carries that
      key's signature of exactly this room, owner, agent and agent's key. */
  ghost predicate Vouches(rt: Runtime, check: Check, room: string, keys: map<string, string>, frame: Fields,
                          agent: string, owner: string)
  {
    var block := ObjectOr(Get(Body(frame), "owner"), map[]);
    && owner != "" && TextOr(rt, Get(block, "peer")) == owner && IntOr(rt, Get(block, "v"), 1) == Number(1)
    && agent in keys && owner in keys && TextOr(rt, Get(block, "key")) == keys[owner]
    && |keys[owner]| == 64 && |TextOr(rt, Get(block, "sig"))| == 128
    && check(keys[owner], TextOr(rt, Get(block, "sig")), OwnerBytes(room, owner, agent, keys[agent])) == Some(true)
  }

  lemma VouchesMeaning(rt: Runtime, check: Check, room: string, keys: map<string, string>, frame: Fields,
                       agent: string, owner: string)
    ensures OwnerBlock(frame).Some?
            && Transcripts.VouchedBy(rt, check, room, keys, agent, owner, OwnerBlock(frame).value)
       <==> Vouches(rt, check, room, keys, frame, agent, owner)
  {
    BodyReads(rt, frame);
    var block := ObjectOr(Get(Body(frame), "owner"), map[]);
    assert block == map[] ==> TextOr(rt, Get(block, "peer")) == "";
    hide OwnerBlock, ObjectOr, TextOr, IntOr, OwnerBytes, Body;
  }

  /** An agent is owned by an owner exactly when the agent's last word publishes its key and
      carries a block that vouches for it. */
  lemma OwnersExactly(rt: Runtime, check: Check, room: string, frames: seq<Fields>, agent: string, owner: string)
    requires OwnersOf(rt, Wire.Judging(rt, check, room), check, room, frames).Some?
    ensures var judge := Wire.Judging(rt, check, room);
            var owners, keys := OwnersOf(rt, judge, check, room, frames).value, KeysOf(rt, judge, frames).value;
            var ordered := Transcript(rt, frames);
            agent in owners && owners[agent] == owner
            <==> exists i :: LastWord(rt, check, room, ordered, i, agent) && agent in keys
                             && Publishes(rt, check, room, ordered[i], keys[agent])
                             && Vouches(rt, check, room, keys, ordered[i], agent, owner)
  {
    var judge, ordered := Wire.Judging(rt, check, room), Transcript(rt, frames);
    var keys := KeysOf(rt, judge, frames).value;
    Transcripts.OwnersMeaning(rt, judge, check, room, frames, agent, owner);
    InRange(rt, check, room, ordered, agent);
    hide OwnersOf, KeysOf, Transcript, LastWord, DecidingJoin, Attested, Published, Publishes, Vouches;
    hide OwnerBlock, Transcripts.VouchedBy;
    forall i
      ensures DecidingJoin(rt, judge, ordered, i, agent) <==> LastWord(rt, check, room, ordered, i, agent)
    {
      LastWordDecides(rt, check, room, ordered, i, agent);
    }
    forall i | 0 <= i < |ordered|
      ensures agent in keys ==> (Attested(rt, judge, ordered[i]) && Published(rt, ordered[i]) == keys[agent]
                                 <==> Publishes(rt, check, room, ordered[i], keys[agent]))
      ensures OwnerBlock(ordered[i]).Some?
              && Transcripts.VouchedBy(rt, check, room, keys, agent, owner, OwnerBlock(ordered[i]).value)
         <==> Vouches(rt, check, room, keys, ordered[i], agent, owner)
    {
      VouchesMeaning(rt, check, room, keys, ordered[i], agent, owner);
      if agent in keys {
        JoinMeaning(rt, check, room, ordered[i], keys[agent]);
      }
    }
  }

  /** The transcript holds the frames given, its clocks never fall, at one clock its senders
      never fall by code point, and at one clock and sender its sequence numbers never fall. */
  lemma TranscriptMeaning(rt: Runtime, frames: seq<Fields>, i: nat, j: nat)
    requires AllPlaced(rt, frames) && i < j < |Transcript(rt, frames)|
    ensures var ordered := Transcript(rt, frames);
            var f, g := ordered[i], ordered[j];
            var a, b := IntOr(rt, Get(f, "lamport"), 0), IntOr(rt, Get(g, "lamport"), 0);
            var s, t := TextOr(rt, Get(f, "from")), TextOr(rt, Get(g, "from"));
            var m, n := IntOr(rt, Get(f, "seq"), 0), IntOr(rt, Get(g, "seq"), 0);
            && multiset(ordered) == multiset(frames)
            && a.Number? && b.Number? && m.Number? && n.Number?
            && a.n <= b.n
            && (a.n == b.n ==> s == t || Precedes(s, t))
            && (a.n == b.n && s == t ==> m.n <= n.n)
  {
    SortedIsSort(frames, ByPosition(rt));
    SortedMeaning(frames, ByPosition(rt), i, j);
    InMultiset(frames, Transcript(rt, frames));
    assert Transcript(rt, frames)[i] in frames && Transcript(rt, frames)[j] in frames;
    hide Sorted, IntOr, TextOr, Precedes;
  }
}
