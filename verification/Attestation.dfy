/** Who may be believed to have written what: how a signature block is read, which joins
    bind a key or an owner block, and what the two folds over a transcript mean. The
    verdict itself is a parameter here; each peer module supplies its own. */
module Attestation {
  import opened Bits
  import opened Frames
  import opened Json
  import opened JoinFold
  import opened Ordering
  import opened Wrappers

  /** `Escapes` stands for an exception that leaves the verdict function. */
  datatype Verdict = Unsigned | Unreadable | Unchecked | Invalid | ForeignKey | Valid | Escapes

  /** A verdict on a frame, given the keys that count as published. */
  type Judge = (Fields, map<string, string>) -> Verdict

  /** A signature check on hexadecimal text: None where it raises. */
  type Check = (string, string, seq<Byte>) -> Option<bool>

  // ---- reading a signature block ----------------------------------------------------------

  datatype Claim = NoClaim | Unparsed | Raised | Signature(key: string, blob: string)

  function ReadSignature(rt: Runtime, sig: Json): Claim {
    if !sig.Obj? || sig.fields == map[] then NoClaim
    else
      var key, blob := TextOr(rt, Get(sig.fields, "key")), TextOr(rt, Get(sig.fields, "sig"));
      match IntOr(rt, Get(sig.fields, "v"), 1)
      case NotANumber => Unparsed
      case Overflow => Raised
      case Number(version) =>
        if TextOr(rt, Get(sig.fields, "alg")) != "ed25519" || version != SIG_VERSION
           || |key| != 64 || |blob| != 128
        then Unparsed
        else Signature(key, blob)
  }

  /** The verdict once the claim is parsed and the sum is done. */
  function Conclude(rt: Runtime, frame: Fields, keys: map<string, string>, key: string, sum: Option<bool>): Verdict {
    match sum
    case None => Unreadable
    case Some(false) => Invalid
    case Some(true) =>
      var sender := Sender(rt, frame);
      if sender in keys && keys[sender] != "" && keys[sender] == key then Valid else ForeignKey
  }

  // ---- reading a frame's placement --------------------------------------------------------

  function Sender(rt: Runtime, frame: Fields): string {
    TextOr(rt, Get(frame, "from"))
  }

  predicate Placed(rt: Runtime, frame: Fields) {
    IntOr(rt, Get(frame, "lamport"), 0).Number? && IntOr(rt, Get(frame, "seq"), 0).Number?
  }

  /** `sort_key(frame)`, for a frame whose clock and sequence can be read. */
  function PositionOf(rt: Runtime, frame: Fields): Position {
    if Placed(rt, frame)
    then Position(IntOr(rt, Get(frame, "lamport"), 0).n, Sender(rt, frame), IntOr(rt, Get(frame, "seq"), 0).n)
    else Position(0, "", 0)
  }

  function ByPosition(rt: Runtime): Fields -> Position {
    frame => PositionOf(rt, frame)
  }

  /** Sorting raises as soon as one frame cannot be placed. */
  predicate AllPlaced(rt: Runtime, frames: seq<Fields>) {
    forall i :: 0 <= i < |frames| ==> Placed(rt, frames[i])
  }

  // ---- what a join does --------------------------------------------------------------------

  predicate IsJoin(rt: Runtime, frame: Fields) {
    TextOr(rt, Get(frame, "kind")) == "join"
  }

  /** The key a join's body publishes, empty for none. */
  function Published(rt: Runtime, frame: Fields): string {
    var body := Get(frame, "body");
    if body.Obj? then TextOr(rt, Get(body.fields, "sign_key")) else ""
  }

  /** The block names the key the body publishes, so the verdict is worth asking for. */
  predicate NamesItsKey(rt: Runtime, frame: Fields) {
    var sig := Get(frame, "sig");
    sig.Obj? && TextOr(rt, Get(sig.fields, "key")) == Published(rt, frame)
  }

  /** The verdict a join gets when the key it publishes counts as its sender's. */
  function SelfVerdict(rt: Runtime, judge: Judge, frame: Fields): Verdict {
    judge(frame, map[Sender(rt, frame) := Published(rt, frame)])
  }

  predicate Attested(rt: Runtime, judge: Judge, frame: Fields) {
    && IsJoin(rt, frame) && Published(rt, frame) != "" && NamesItsKey(rt, frame)
    && SelfVerdict(rt, judge, frame) == Valid
  }

  predicate Keyless(rt: Runtime, frame: Fields) {
    IsJoin(rt, frame) && Published(rt, frame) == ""
  }

  /** Judging this frame raises, which ends the fold. */
  predicate Fatal(rt: Runtime, judge: Judge, frame: Fields) {
    && IsJoin(rt, frame) && Published(rt, frame) != "" && NamesItsKey(rt, frame)
    && SelfVerdict(rt, judge, frame) == Escapes
  }

  predicate NoneFatal(rt: Runtime, judge: Judge, frames: seq<Fields>) {
    forall i :: 0 <= i < |frames| ==> !Fatal(rt, judge, frames[i])
  }

  function KeyEffect(rt: Runtime, judge: Judge, frame: Fields): Effect<string> {
    if Keyless(rt, frame) then Withdraw
    else if Attested(rt, judge, frame) then Bind(Published(rt, frame))
    else Skip
  }

  function KeyEvents(rt: Runtime, judge: Judge, frames: seq<Fields>): (r: seq<Event<string>>)
    ensures |r| == |frames|
  {
    seq(|frames|, i requires 0 <= i < |frames| => Event(Sender(rt, frames[i]), KeyEffect(rt, judge, frames[i])))
  }

  /** The owner block of a join's body, or None when it carries none. */
  function OwnerBlock(frame: Fields): Option<Fields> {
    var body := Get(frame, "body");
    if body.Obj? && Get(body.fields, "owner").Obj? && Get(body.fields, "owner").fields != map[]
    then Some(Get(body.fields, "owner").fields)
    else None
  }

  function ClaimEffect(rt: Runtime, judge: Judge, frame: Fields): Effect<Option<Fields>> {
    if Keyless(rt, frame) then Withdraw
    else if Attested(rt, judge, frame) then Bind(OwnerBlock(frame))
    else Skip
  }

  function ClaimEvents(rt: Runtime, judge: Judge, frames: seq<Fields>): (r: seq<Event<Option<Fields>>>)
    ensures |r| == |frames|
  {
    seq(|frames|, i requires 0 <= i < |frames| => Event(Sender(rt, frames[i]), ClaimEffect(rt, judge, frames[i])))
  }

  // ---- the folds --------------------------------------------------------------------------

  function Transcript(rt: Runtime, frames: seq<Fields>): seq<Fields> {
    Sorted(frames, ByPosition(rt))
  }

  /** Which key each peer published; None where the fold raises. */
  function KeysOf(rt: Runtime, judge: Judge, frames: seq<Fields>): Option<map<string, string>> {
    if AllPlaced(rt, frames) && NoneFatal(rt, judge, Transcript(rt, frames))
    then Some(Fold(KeyEvents(rt, judge, Transcript(rt, frames))))
    else None
  }

  /** The owner block each peer's deciding join carried. */
  function ClaimsOf(rt: Runtime, judge: Judge, frames: seq<Fields>): map<string, Option<Fields>> {
    Fold(ClaimEvents(rt, judge, Transcript(rt, frames)))
  }

  datatype OwnerRead = NotOwned | OwnedBy(owner: string) | OwnerRaised

  /** One agent's claim, checked against the bound keys. */
  function ReadOwner(rt: Runtime, check: Check, room: string, bound: map<string, string>,
                     agent: string, block: Option<Fields>): OwnerRead {
    if block.None? || block.value == map[] || agent !in bound || bound[agent] == "" then NotOwned
    else
      var owner := TextOr(rt, Get(block.value, "peer"));
      var key, blob := TextOr(rt, Get(block.value, "key")), TextOr(rt, Get(block.value, "sig"));
      match IntOr(rt, Get(block.value, "v"), 1)
      case NotANumber => NotOwned
      case Overflow => OwnerRaised
      case Number(version) =>
        if version != OWNER_VERSION || owner == "" || |key| != 64 || |blob| != 128 then NotOwned
        else if owner !in bound || bound[owner] != key then NotOwned
        else if check(key, blob, OwnerBytes(room, owner, agent, bound[agent])) == Some(true) then OwnedBy(owner)
        else NotOwned
  }

  /** The owned agents among the claims; None where reading one raises. */
  function OwnersAmong(rt: Runtime, check: Check, room: string, bound: map<string, string>,
                       claims: map<string, Option<Fields>>): Option<map<string, string>> {
    if exists agent :: agent in claims && ReadOwner(rt, check, room, bound, agent, claims[agent]).OwnerRaised?
    then None
    else Some(map agent | agent in claims && ReadOwner(rt, check, room, bound, agent, claims[agent]).OwnedBy?
                :: ReadOwner(rt, check, room, bound, agent, claims[agent]).owner)
  }

  /** Which agent belongs to which owner; None where the fold raises. */
  function OwnersOf(rt: Runtime, judge: Judge, check: Check, room: string,
                    frames: seq<Fields>): Option<map<string, string>> {
    match KeysOf(rt, judge, frames)
    case None => None
    case Some(bound) => OwnersAmong(rt, check, room, bound, ClaimsOf(rt, judge, frames))
  }

  // ---- what raises ------------------------------------------------------------------------

  /** A block whose version `int` cannot read but does not refuse either. */
  predicate InfiniteVersion(block: Fields) {
    Get(block, "v") == Float("inf") || Get(block, "v") == Float("-inf")
  }

  lemma OverflowMeans(rt: Runtime, block: Fields)
    ensures IntOr(rt, Get(block, "v"), 1).Overflow? <==> InfiniteVersion(block)
    ensures InfiniteVersion(block) ==> block != map[]
  {
    if InfiniteVersion(block) {
      assert "v" in block;
    }
  }

  predicate InfiniteSignature(frame: Fields) {
    Get(frame, "sig").Obj? && InfiniteVersion(Get(frame, "sig").fields)
  }

  lemma RaisedMeans(rt: Runtime, frame: Fields)
    ensures ReadSignature(rt, Get(frame, "sig")).Raised? <==> InfiniteSignature(frame)
  {
    var sig := Get(frame, "sig");
    if sig.Obj? {
      OverflowMeans(rt, sig.fields);
      hide IntOr, TextOr, InfiniteVersion;
    }
  }

  /** A join that publishes a key and names it in a block of infinite version. */
  predicate RaisingJoin(rt: Runtime, frame: Fields) {
    && IsJoin(rt, frame) && Published(rt, frame) != "" && NamesItsKey(rt, frame)
    && InfiniteSignature(frame)
  }

  /** The fold raises exactly where a frame cannot be placed or judging a join raises. */
  lemma FoldRaises(rt: Runtime, judge: Judge, frames: seq<Fields>)
    ensures KeysOf(rt, judge, frames).None?
       <==> exists f :: f in frames && (!Placed(rt, f) || Fatal(rt, judge, f))
  {
    var ordered := Transcript(rt, frames);
    SortedIsSort(frames, ByPosition(rt));
    InMultiset(ordered, frames);
    hide Transcript, Placed, Fatal;
    assert AllPlaced(rt, frames) <==> forall f :: f in frames ==> Placed(rt, f);
    assert NoneFatal(rt, judge, ordered) <==> forall f :: f in ordered ==> !Fatal(rt, judge, f);
  }

  /** Where a verdict function raises on blocks of infinite version and nothing else, the
      key fold raises exactly on a frame without a place and on a raising join. */
  lemma KeysRaise(rt: Runtime, judge: Judge, frames: seq<Fields>)
    requires forall frame, keys :: judge(frame, keys) == Escapes <==> InfiniteSignature(frame)
    ensures KeysOf(rt, judge, frames).None?
       <==> exists f :: f in frames && (!Placed(rt, f) || RaisingJoin(rt, f))
  {
    FoldRaises(rt, judge, frames);
    forall f
      ensures Fatal(rt, judge, f) == RaisingJoin(rt, f)
    {
    }
    hide KeysOf, Placed, Fatal, RaisingJoin;
  }

  // ---- what the key fold means ------------------------------------------------------------

  /** Frame i is the last join of `who`, in canonical order, that is keyless or attested. */
  ghost predicate DecidingJoin(rt: Runtime, judge: Judge, ordered: seq<Fields>, i: int, who: string) {
    && 0 <= i < |ordered| && Sender(rt, ordered[i]) == who
    && (Keyless(rt, ordered[i]) || Attested(rt, judge, ordered[i]))
    && forall j :: i < j < |ordered| && Sender(rt, ordered[j]) == who ==>
         !Keyless(rt, ordered[j]) && !Attested(rt, judge, ordered[j])
  }

  lemma KeyDecides(rt: Runtime, judge: Judge, ordered: seq<Fields>, i: int, who: string)
    ensures DecidingJoin(rt, judge, ordered, i, who) <==> Decides(KeyEvents(rt, judge, ordered), i, who)
    ensures DecidingJoin(rt, judge, ordered, i, who) <==> Decides(ClaimEvents(rt, judge, ordered), i, who)
  {
    hide Keyless, Attested, Sender;
    var a, b := KeyEvents(rt, judge, ordered), ClaimEvents(rt, judge, ordered);
    assert forall j :: 0 <= j < |ordered| ==>
      (a[j].effect.Skip? <==> !Keyless(rt, ordered[j]) && !Attested(rt, judge, ordered[j]))
      && (b[j].effect.Skip? <==> !Keyless(rt, ordered[j]) && !Attested(rt, judge, ordered[j]))
      && a[j].sender == b[j].sender == Sender(rt, ordered[j]);
  }

  /** A peer maps to a key exactly when its deciding join is an attested one publishing it. */
  lemma KeysMeaning(rt: Runtime, judge: Judge, frames: seq<Fields>, who: string, key: string)
    requires KeysOf(rt, judge, frames).Some?
    ensures var keys, ordered := KeysOf(rt, judge, frames).value, Transcript(rt, frames);
            who in keys && keys[who] == key
            <==> exists i :: DecidingJoin(rt, judge, ordered, i, who)
                             && Attested(rt, judge, ordered[i]) && Published(rt, ordered[i]) == key
  {
    hide Transcript, Sender;
    var ordered := Transcript(rt, frames);
    var events := KeyEvents(rt, judge, ordered);
    FoldMeaning(events, who, key);
    forall i
      ensures DecidingJoin(rt, judge, ordered, i, who) <==> Decides(events, i, who)
    {
      KeyDecides(rt, judge, ordered, i, who);
    }
  }

  /** The key fold reads the transcript, not the order frames arrived in. */
  lemma KeysOrderIndependent(rt: Runtime, judge: Judge, frames: seq<Fields>, other: seq<Fields>)
    requires multiset(frames) == multiset(other) && DistinctKeys(frames, ByPosition(rt))
    ensures KeysOf(rt, judge, frames) == KeysOf(rt, judge, other)
  {
    SortedOrderIndependent(frames, other, ByPosition(rt));
    InMultiset(frames, other);
    assert AllPlaced(rt, frames) == AllPlaced(rt, other) by {
      assert AllPlaced(rt, frames) <==> forall f :: f in frames ==> Placed(rt, f);
      assert AllPlaced(rt, other) <==> forall f :: f in other ==> Placed(rt, f);
    }
  }
}
