/** The two peers are two programs for one rule set: where they agree, and the exact place
    where they part. */
module Agreement {
  import opened Attestation
  import opened Bits
  import opened Frames
  import opened Json
  import opened Ordering
  import opened Wrappers
  import Reference = ReferencePeer
  import Wire = WirePeer

  /** Running the two peers' own loops on one frame: the reference peer refuses exactly what
      is not canonical, wherever it does not refuse the bytes are the wire peer's, and so
      the two outcomes are the same exactly on frames that are canonical or that neither
      can sign. */
  method BytesAgree(rt: Runtime, frame: Fields, room: string)
    returns (wire: Option<seq<Byte>>, reference: Option<seq<Byte>>)
    ensures wire.Some? <==> Signable(rt, frame)
    ensures reference.Some? <==> CanonicalPayload(rt, frame, room)
    ensures reference.Some? ==> reference == wire
    ensures wire == reference <==> (Signable(rt, frame) ==> CanonicalPayload(rt, frame, room))
  {
    wire := Wire.SigningBytes(rt, frame, room);
    reference := Reference.SigningBytes(rt, frame, room);
    BytesDefined(rt, frame, room);
    hide Signable, CanonicalPayload, SigningBytes;
  }

  /** With the wire peer's check injected, the two verdicts differ exactly when the frame's
      signature block parses, its bytes can be built, they cover a fractional number, and
      the check on them does not raise. */
  lemma VerdictsAgree(rt: Runtime, check: Check, frame: Fields, keys: map<string, string>, room: string)
    ensures Reference.VerdictOf(rt, Some(check), frame, keys, room) != Wire.VerdictFor(rt, check, frame, keys, room)
            <==> ReadSignature(rt, Get(frame, "sig")).Signature? && Signable(rt, frame)
                 && !CanonicalPayload(rt, frame, room)
                 && var claim := ReadSignature(rt, Get(frame, "sig"));
                    check(claim.key, claim.blob, SigningBytes(rt, frame, room).value).Some?
  {
    BytesDefined(rt, frame, room);
    match ReadSignature(rt, Get(frame, "sig"))
    case Signature(key, blob) =>
      if Signable(rt, frame) {
        Concludes(rt, frame, keys, key, check(key, blob, SigningBytes(rt, frame, room).value));
      }
      hide ReadSignature, CanonicalPayload, Signable, SigningBytes, Conclude;
    case _ =>
  }

  lemma BytesDefined(rt: Runtime, frame: Fields, room: string)
    ensures SigningBytes(rt, frame, room).Some? <==> Signable(rt, frame)
    ensures CanonicalPayload(rt, frame, room) ==> Signable(rt, frame)
  {
  }

  lemma Concludes(rt: Runtime, frame: Fields, keys: map<string, string>, key: string, sum: Option<bool>)
    ensures Conclude(rt, frame, keys, key, sum) == Unreadable <==> sum.None?
  {
  }

  /** Every frame of the transcript that can be signed at all is canonical. */
  predicate CanonicalTranscript(rt: Runtime, frames: seq<Fields>, room: string) {
    forall i :: 0 <= i < |frames| && Signable(rt, frames[i]) ==> CanonicalPayload(rt, frames[i], room)
  }

  ghost predicate SameJudgement(rt: Runtime, a: Judge, b: Judge, frames: seq<Fields>) {
    forall i :: 0 <= i < |frames| ==> SelfVerdict(rt, a, frames[i]) == SelfVerdict(rt, b, frames[i])
  }

  /** The folds see a judge only through the verdicts it gives on the joins themselves. */
  lemma FoldsCongruent(rt: Runtime, a: Judge, b: Judge, frames: seq<Fields>)
    requires SameJudgement(rt, a, b, frames)
    ensures KeysOf(rt, a, frames) == KeysOf(rt, b, frames)
    ensures ClaimsOf(rt, a, frames) == ClaimsOf(rt, b, frames)
  {
    var ordered := Transcript(rt, frames);
    SortedIsSort(frames, ByPosition(rt));
    InMultiset(frames, ordered);
    hide SelfVerdict, Sorted, Sender, KeyEffect, ClaimEffect, Fatal;
    forall i | 0 <= i < |ordered|
      ensures KeyEffect(rt, a, ordered[i]) == KeyEffect(rt, b, ordered[i])
      ensures ClaimEffect(rt, a, ordered[i]) == ClaimEffect(rt, b, ordered[i])
      ensures Fatal(rt, a, ordered[i]) == Fatal(rt, b, ordered[i])
    {
      assert ordered[i] in frames;
      EffectsCongruent(rt, a, b, ordered[i]);
    }
    assert NoneFatal(rt, a, ordered) == NoneFatal(rt, b, ordered);
    assert KeyEvents(rt, a, ordered) == KeyEvents(rt, b, ordered);
    assert ClaimEvents(rt, a, ordered) == ClaimEvents(rt, b, ordered);
  }

  lemma EffectsCongruent(rt: Runtime, a: Judge, b: Judge, frame: Fields)
    requires SelfVerdict(rt, a, frame) == SelfVerdict(rt, b, frame)
    ensures KeyEffect(rt, a, frame) == KeyEffect(rt, b, frame)
    ensures ClaimEffect(rt, a, frame) == ClaimEffect(rt, b, frame)
    ensures Fatal(rt, a, frame) == Fatal(rt, b, frame)
  {
    hide SelfVerdict, Published, NamesItsKey, IsJoin, OwnerBlock;
  }

  /** On a canonical transcript both peers give every frame the same verdict, under any
      keys, and read the same keys and the same owners. */
  lemma PeersAgree(rt: Runtime, check: Check, frames: seq<Fields>, room: string)
    requires CanonicalTranscript(rt, frames, room)
    ensures forall i, keys :: 0 <= i < |frames| ==>
              Reference.VerdictOf(rt, Some(check), frames[i], keys, room)
              == Wire.VerdictFor(rt, check, frames[i], keys, room)
    ensures KeysOf(rt, Reference.Judging(rt, Some(check), room), frames)
            == KeysOf(rt, Wire.Judging(rt, check, room), frames)
    ensures OwnersOf(rt, Reference.Judging(rt, Some(check), room), check, room, frames)
            == OwnersOf(rt, Wire.Judging(rt, check, room), check, room, frames)
  {
    var a, b := Reference.Judging(rt, Some(check), room), Wire.Judging(rt, check, room);
    forall i, keys | 0 <= i < |frames|
      ensures Reference.VerdictOf(rt, Some(check), frames[i], keys, room)
              == Wire.VerdictFor(rt, check, frames[i], keys, room)
    {
      VerdictsAgree(rt, check, frames[i], keys, room);
    }
    hide Reference.VerdictOf, Wire.VerdictFor;
    assert SameJudgement(rt, a, b, frames);
    FoldsCongruent(rt, a, b, frames);
  }

  /** Without a verifier the reference peer binds no key and claims nothing: no verdict is
      ever valid. */
  lemma NoVerifierNoKeys(rt: Runtime, frames: seq<Fields>, room: string)
    requires KeysOf(rt, Reference.Judging(rt, None, room), frames).Some?
    ensures KeysOf(rt, Reference.Judging(rt, None, room), frames) == Some(map[])
  {
    var judge := Reference.Judging(rt, None, room);
    var keys := KeysOf(rt, judge, frames).value;
    forall who | who in keys
      ensures false
    {
      KeysMeaning(rt, judge, frames, who, keys[who]);
      hide Published, Sender, Transcript, DecidingJoin;
    }
    assert keys == map[];
  }
}
