# Agent-to-agent rooms: a verified model

VAF's rooms let agents from different machines talk over one WebSocket per peer. Two
programs in the repository implement the peer's side of the protocol: a full peer written
on the Python standard library (`examples/12_a2a_wire_peer.py`, below "the wire peer") and
a second, independent implementation of the rules (`examples/10_a2a_reference_peer.py`,
"the reference peer"). This project models what both of them compute and proves what the
protocol rests on: that a signature made is a signature accepted, that signed bytes say
one thing only, that the folds over a transcript mean what they are documented to mean
and that both peers agree on them, that bytes on the wire come back as the messages that
were sent, and that a reader neither misses nor repeats what a room said. Two smaller
concurrent or stateful programs of the repository are modelled beside it: the coalesced
network restart of the tray (`vaf/tray.py`) and the wheel reader and extras resolution of
the lock checker (`scripts/check_vllm_lock.py`).

## How it is built

| files | what they hold |
|---|---|
| `Wrappers`, `Sequences`, `NumberTheory`, `Bits`, `Digits` | options and parts of sequences; modular arithmetic up to Fermat's little theorem; bits and bytes of numbers, and their positional values |
| `Edwards`, `Ed25519`, `Curve25519`, `Scalars`, `SmallCurve` | the curve functions over any sound curve; keys, signing and verification (section 5.1 of RFC 8032); the program's constants; the scalars verification accepts; a four-point curve that meets every hypothesis |
| `Decoding`, `SignatureMeaning` | which points bytes spell; what verifying and signing come to in digests, numbers and points |
| `Ordering`, `Json`, `JsonReading`, `Text` | positions and the stable sort; JSON values, the canonical printer and a reader that gives back what it printed; UTF-8 and hexadecimal text, both ways |
| `Frames`, `JoinFold`, `Attestation`, `Transcripts` | the covered bytes; the last-effective-join fold; verdicts, keys, claims and owners of a transcript |
| `WirePeer`, `WireSigning`, `ReferencePeer`, `Agreement`, `Verdicts` | the two peers' own code for these rules, where they agree, and when each verdict, key and owner is given in the frames' own fields |
| `Wire`, `WireMeaning`, `WireSocket` | frames of RFC 6455, their bytes position by position, and the connection that parses them out of a chopped stream |
| `RoomConnection`, `ConnectionMeaning`, `RoomLine`, `LineLedger` | submitting and reading on one connection, told by places in the stream; the line held by one thread for many callers, told by its events |
| `Reading`, `ReadingRuns`, `Shown`, `Mirror`, `Convergence`, `MirrorLimits`, `Rows` | the cursor, whole runs of reads, what one read shows by fields and places, the bounded mirror and what its bound costs, convergence of receivers and of what they trust |
| `Restart`, `RestartLedger` | the lock-and-flag restart protocol as interleaved steps, and what a restart is told |
| `RangeFile`, `Extras` | the read-ahead range file; the worklist over package extras |

Expressions and recursion in the source are functions here. What the source changes in
place is a class (`WireSocket`, `RoomConnection`, `Reader`, `Mirror`, `RangeFile`) or a
method with the source's own loop (`signing_bytes` and the two folds of each peer, `dedupe`, `fold_new`, the walk and the main loop of the lock checker), each
proved equal to a function about which the laws are then proved. The two threaded programs
are state machines: one step per stretch that no other thread can interrupt, any
interleaving. Beside every function stand laws that say what it computes without naming it:
bits, positions, fields of a frame, places in a stream.

## Hypotheses

Three facts about numbers are named hypotheses of the signature theorems and appear in
their `requires` clauses, nowhere else: 2^255 - 19 is prime (`IsPrime(P)`), the curve
addition is associative on the curve (`Associative`), and ORDER copies of the base point
sum to the identity (the second part of `GroupHypotheses`). That ORDER is prime is asked by
`Scalars.AcceptedExactly` alone. SHA-512 is an arbitrary
function to 64 bytes. Everything else is proved: the constants' values, that the base
point lies on the curve, that the curve constant is no square (it is -2 t^2 for a given t,
and 2 is no square), hence that the addition never divides by zero and stays on the curve,
that double-and-add is repeated addition, and that square roots are found where they exist.
The hypotheses do not contradict one another: `SmallCurve.HypothesesHold` proves all of
them of a scheme over the field with five elements.

## Edge cases the proofs bring out

* The wire peer's `verdict_for` and the reference peer's `verdict` are documented never to
  raise. They raise exactly on a signature block whose version is an infinite number: `int`
  then raises OverflowError, which neither catches (`WirePeer.VerdictEscapes`,
  `ReferencePeer.VerdictEscapes`; `WirePeer.VerdictCanEscape` gives such a block). The key
  folds raise exactly where a frame cannot be placed or a join that publishes a key names
  it in such a block (`WirePeer.SigningKeysRaise`, `ReferencePeer.SigningKeysRaise`), the
  owner fold also where an owner block it holds has an infinite version
  (`Transcripts.OwnersRaise`).
* `fold_new` is documented to move the cursor over everything seen, so that a skipped frame
  never comes back as news. A frame skipped because an earlier one carries its id is not
  counted: it comes back exactly when it is foreign, past the cursor, and beyond everything
  else the batch considered (`ReadingRuns.ComesBackExactly`, `ReadingRuns.RepeatComesBack`).
  Where equal ids mean equal positions it never does (`ReadingRuns.SeenIsNeverNews`).
* Stripping `sig` off a stored join leaves the keys alone exactly when the join was not
  attested, a later effective join of its sender follows, or its sender's last effective
  join before it bound the same key (`Transcripts.StrippedExactly`).
* `submit` is documented to return the ack that answers its payload. It returns the first
  ack it reads: ack number n, where n acks were handed to the caller before. With the room
  acking payloads in order that is its own ack exactly when as many acks were handed out
  before it as payloads were submitted (`RoomConnections.AckIsOwn`), which among submits
  alone means that none was refused (`RoomConnections.OwnUntilRefused`); after a timeout the
  next submit takes the late ack (`RoomConnections.LateAckIsTaken`).
* A change that lands between a restart worker's last look at the flag and its release of
  the lock waits for another call: with the lock free, everything is served exactly when
  the flag is clear (`Restarts.QuietMeansServed`, `Restarts.WaitsSinceTheLook`).
* `ed25519_verify` does not compare the scalar of a signature with the group order, as
  section 5.1.7 of RFC 8032 asks. Beside the point of a signature made, it accepts exactly
  the scalars that leave the signed one as remainder, and there is a second one
  (`Scalars.AcceptedExactly`, `Scalars.SecondEd25519Signature`).
* `_ed_decode` refuses neither a second coordinate at or above the modulus nor the sign bit
  beside a first coordinate of zero, as section 5.1.3 of RFC 8032 asks: which bytes it takes
  for which point is `Decoding.DecodeMeaning`, and all signatures accepted are
  `SignatureMeaning.VerifyMeaning`.
* A held line that is stopped has answered exactly the slots queued before its last drain,
  and nothing answers the others (`RoomLines.StoppedAnswersDrained`, `RoomLines.EndIsFinal`).
* Where every frame but the plumbing has an id, ids name frames and a position holds one
  frame, the mirror answers like the full history exactly when every evicted frame its
  reader has not read is in the mirror again (`MirrorLimits.MirrorAnswersAgree`).
* Two frames at one position read in two calls of `fold_new` are shown as one. Batches in
  canonical order read like one log exactly when no such tie falls on a cursor
  (`ReadingRuns.ManyCallsAreOne`, `ReadingRuns.TieIsLost`).
* A frame without an id is never deduplicated. Where ids name frames and a position holds
  one frame, receivers of the same frames converge exactly when those without an id reached
  them equally often (`Convergence.SameTranscript`).
* A read of the range file at the very end asks for a range that ends before it starts
  when the buffer does not reach the end, and raises where a plain file would return
  nothing (`RangeFiles.SameAsPlain`, `RangeFiles.BlindAtOnce`).

## Model

| member | source | states |
|---|---|---|
| Curve25519.Ed25519Correct | examples/12_a2a_wire_peer.py:601-649 | for the program's own curve, base point and order, every digest function, seed and message: verification under the seed's public key accepts the signature made with the seed |
| Curve25519.SchemeSound | examples/12_a2a_wire_peer.py:549-562 | the constants as the program computes them make a complete curve with the base point (given by its two coordinates) on it |
| Curve25519.ConstantIsNoSquare | examples/12_a2a_wire_peer.py:549-551 | the curve constant is no square modulo 2^255 - 19 |
| Edwards.Complete | examples/12_a2a_wire_peer.py:565-570 | both denominators of an addition of curve points are invertible, so the powers that stand for division divide |
| Edwards.AddOnCurve | examples/12_a2a_wire_peer.py:565-570 | the sum of two curve points is a curve point with reduced coordinates |
| SignatureMeaning.AdditionLaw | examples/12_a2a_wire_peer.py:565-570 | (1 + t) x3 = x1 y2 + x2 y1 and (1 - t) y3 = y1 y2 + x1 x2 modulo p for t = d x1 x2 y1 y2, both factors units, coordinates reduced |
| Edwards.AddCommutes | examples/12_a2a_wire_peer.py:565-570 | addition does not depend on the order of its operands |
| Edwards.MulIsRepeat | examples/12_a2a_wire_peer.py:573-578 | double-and-add is e-fold addition |
| Edwards.RepeatAdd | examples/12_a2a_wire_peer.py:573-578 | e-fold addition is additive in the scalar |
| Edwards.RepeatTimes | examples/12_a2a_wire_peer.py:573-578 | and multiplicative |
| Edwards.RepeatReduced | examples/12_a2a_wire_peer.py:628-644 | scalars of a point of order n matter only modulo n |
| Edwards.RecoverXCorrect | examples/12_a2a_wire_peer.py:554-559 | on the y of a curve point the recovered x is the even one of its two roots, x = 0 included |
| Ed25519.PointRoundTrip | examples/12_a2a_wire_peer.py:585-598 | decoding undoes encoding on every reduced point of the curve |
| Decoding.DecodeMeaning | examples/12_a2a_wire_peer.py:591-598 | bytes decode exactly when they spell a point of the curve (second coordinate in the low bits, not necessarily reduced; parity of the first in the last bit, not necessarily for zero), to that point modulo p |
| Decoding.EncodeMeaning | examples/12_a2a_wire_peer.py:585-588 | encoding writes y + 2^255 times the parity of x, little-endian |
| Ed25519.ClampedScalar | examples/12_a2a_wire_peer.py:618-620 | a private scalar lies in [2^254, 2^255) and is a multiple of 8 |
| SignatureMeaning.ClampedBits | examples/12_a2a_wire_peer.py:618-620 | it has bit 254, bits 3 to 253 of the seed's digest, and no others |
| SignatureMeaning.DigestNumber | examples/12_a2a_wire_peer.py:613-615 | the number of a digest is below 2^512 and its little-endian bytes are the digest |
| Ed25519.SignatureEquation | examples/12_a2a_wire_peer.py:601-644 | S B = R + k A for S = r + k a modulo the order |
| Ed25519.VerifyAcceptsSignature | examples/12_a2a_wire_peer.py:601-649 | on any sound scheme, verification accepts every signature made, through the bytes of key and signature |
| SignatureMeaning.VerifyMeaning | examples/12_a2a_wire_peer.py:601-615 | for all bytes: accepted if and only if the lengths are right, key and signature spell points A and R, and S B = R + k A, where k is any number whose little-endian bytes are the digest of R, key and message |
| SignatureMeaning.VerifyExactly | examples/12_a2a_wire_peer.py:601-615 | for given curve points A and R and scalar S: accepted if and only if S B = R + k A |
| SignatureMeaning.SignMeaning | examples/12_a2a_wire_peer.py:618-646 | for a with the clamped bits of the seed's digest, r the number of the digest of its other half and the message, k that of R, key and message: the key is a B, the signature r B and S with S = r + k a modulo the order |
| Scalars.SameMultiple | examples/12_a2a_wire_peer.py:573-578 | two multiples of a base point of prime order are one point exactly when the scalars leave one remainder |
| Scalars.CongruentAccepted | examples/12_a2a_wire_peer.py:601-615 | a scalar congruent to the signed one is accepted in its place |
| Scalars.AcceptedExactly | examples/12_a2a_wire_peer.py:601-615 | and no other is: the accepted scalars beside a signature's point are exactly those with its scalar as remainder |
| Scalars.SecondEd25519Signature | examples/12_a2a_wire_peer.py:601-649 | for the program's own scheme, the scalar plus the order makes a second accepted signature, which the range check of section 5.1.7 of RFC 8032 would refuse |
| Bits.LittleEndianRoundTrip | examples/12_a2a_wire_peer.py:601-644 | summing the bits of a little-endian number gives it back when it fits |
| Digits.SumIsValue | examples/12_a2a_wire_peer.py:581-615 | the sum of a byte string's bits is its value, position by position in base 256 |
| Digits.LittleWritten | examples/12_a2a_wire_peer.py:645-646 | writing that value gives the bytes back |
| JsonReading.DumpsInjective | examples/12_a2a_wire_peer.py:699-701 | the sorted, blank-free print determines every value without fractional numbers |
| JsonReading.DumpsReads | examples/12_a2a_wire_peer.py:699-701 | a reader of RFC 8259, which knows nothing of the printer, reads the print back as the value, whatever closes or follows it |
| JsonReading.PrintedForm | examples/12_a2a_wire_peer.py:699-701 | arrays and objects are their parts with commas and no blanks, members in the one order in which each name precedes the next by code point; the three fractional numbers without digits have their names |
| JsonReading.EscapeTable | examples/12_a2a_wire_peer.py:699-701 | only quotes, backslashes and control characters are escaped, and how |
| JsonReading.NumberForm | examples/12_a2a_wire_peer.py:699-701 | numbers have a minus sign exactly below zero and begin with a zero exactly at zero |
| Text.Utf8Injective | examples/12_a2a_wire_peer.py:699-701 | the encoded bytes determine the text |
| Text.Utf8RoundTrip | examples/12_a2a_wire_peer.py:699-701 | decoding by the table of RFC 3629 gives the text back |
| Text.Utf8OneSpelling | examples/12_a2a_wire_peer.py:699-701 | and bytes that decode are the encoding of what they decode to |
| Text.HexRoundTrip | examples/12_a2a_wire_peer.py:786-789 | reading hexadecimal text gives back the bytes printed |
| Text.FromHexMeaning | examples/12_a2a_wire_peer.py:786-789 | text without blanks is read exactly when it is pairs of digits in either case, each byte sixteen times the first digit and the second |
| Text.BlanksPassed | examples/12_a2a_wire_peer.py:786-789 | white space in front of a pair is passed over, anything else that is no digit refused |
| Frames.SigningBytesInjective | examples/12_a2a_wire_peer.py:665-701 | in given rooms, equal signed bytes mean the same room, the same sender and the same kind, to, body, reply_to, must_understand and ext |
| Frames.SigningBytesExactly | examples/12_a2a_wire_peer.py:665-701 | in given rooms the bytes of two canonical frames are equal if and only if the rooms are and kind, to with its default, body, reply_to, must_understand, ext and sender are, each named and read off the frames |
| Frames.SignedText | examples/12_a2a_wire_peer.py:647-701 | the bytes are the domain and the print of the object with the nine members v (2), room, from, kind, to, body, reply_to, must_understand and ext, with those values |
| Frames.SignableExactly | examples/12_a2a_wire_peer.py:681-682 | nothing can be signed exactly where must_understand is a number or true |
| Frames.CanonicalExactly | examples/10_a2a_reference_peer.py:231-252 | the covered values are canonical exactly when they can be built and to, body and ext, where they are objects, are |
| Json.CanonicalMeaning | examples/10_a2a_reference_peer.py:231-252 | a value is canonical exactly when no path into it ends at a fractional number |
| Frames.SigningBytesCoverContent | examples/12_a2a_wire_peer.py:658-701 | and nothing else decides them: id, ts, seq, lamport and role do not |
| Frames.NormalisedSameBytes | examples/12_a2a_wire_peer.py:665-701 | a frame whose content is normalised first has the same bytes |
| Frames.OwnerBytesInjective | examples/12_a2a_wire_peer.py:829-836 | attested bytes name one room, owner, agent and key |
| Frames.OwnerText | examples/12_a2a_wire_peer.py:829-836 | they are the domain and the print of the object with v (1), room, owner, agent and agent_key |
| Frames.DomainsApart | examples/10_a2a_reference_peer.py:212-301 | no frame's signed bytes are an attestation's bytes |
| JoinFold.FoldMeaning | examples/12_a2a_wire_peer.py:704-743 | a dict updated join by join maps a peer to v exactly when the last join about it that binds or withdraws binds v |
| Attestation.KeysMeaning | examples/12_a2a_wire_peer.py:704-743 | a peer's key is k exactly when its last join in canonical order that is keyless or attested is attested with k |
| Attestation.KeysOrderIndependent | examples/12_a2a_wire_peer.py:704-743 | the keys do not depend on the order the frames came in |
| Transcripts.InertFrameInserted | examples/12_a2a_wire_peer.py:704-743 | a frame that is neither a keyless nor an attested join changes no key, wherever it is inserted |
| Transcripts.InertFrameKeepsOwners | examples/12_a2a_wire_peer.py:848-896 | nor any owner |
| Transcripts.OwnersOrderIndependent | examples/12_a2a_wire_peer.py:848-896 | the owners do not depend on the order the frames came in |
| Transcripts.SupersededJoinStripped | examples/12_a2a_wire_peer.py:704-743 | stripping the signature off a join that a later effective join of its sender supersedes changes no key |
| Transcripts.SupersededJoinKeepsOwners | examples/10_a2a_reference_peer.py:410-465 | nor any owner |
| Transcripts.StrippedExactly | examples/12_a2a_wire_peer.py:704-743 | stripping any join leaves the keys alone if and only if it was not attested, is superseded in the transcript, or repeated the key its sender had bound before |
| Transcripts.OwnersRaise | examples/12_a2a_wire_peer.py:848-896 | the owner fold raises exactly where the key fold does or an owner block it holds has an infinite version |
| Transcripts.ClaimsMeaning | examples/12_a2a_wire_peer.py:848-896 | an owner block is held exactly when the peer's deciding join is attested and carries it |
| Transcripts.OwnersMeaning | examples/12_a2a_wire_peer.py:848-896 | an agent is owned exactly when one deciding join binds its key and carries a block naming this room, owner, agent and key, signed by the owner's bound key |
| Transcripts.OwnerKeyIsOwn | examples/10_a2a_reference_peer.py:410-465 | the key that vouches is the one the owner's own last effective join bound |
| WirePeer.SigningBytes | examples/12_a2a_wire_peer.py:665-701 | the wire peer's loop, coercing field by field, computes the covered bytes, and raises exactly where must_understand cannot be walked |
| WirePeer.SigningKeys | examples/12_a2a_wire_peer.py:704-743 | the wire peer's loop computes the key fold, and raises exactly where the fold is undefined |
| WirePeer.Owners | examples/12_a2a_wire_peer.py:848-896 | its owner loops compute the owners of the transcript, with keys folded here or handed in |
| WirePeer.CollectOwners | examples/12_a2a_wire_peer.py:876-896 | the walk over the claims gives the owned agents in whatever order it visits them |
| WirePeer.VerdictEscapes | examples/12_a2a_wire_peer.py:917-952 | the verdict function raises exactly on a block whose version is an infinite number |
| WirePeer.SigningKeysRaise | examples/12_a2a_wire_peer.py:704-743 | the key fold raises exactly where a frame cannot be placed or a join that publishes a key names it in such a block |
| WirePeer.VerdictCanEscape | examples/12_a2a_wire_peer.py:917-952 | such a block exists |
| Verdicts.VerdictMeaning | examples/12_a2a_wire_peer.py:917-952 | each verdict exactly: "unsigned" without a block, "invalid" exactly when a readable block (algorithm, version 2, lengths 64 and 128) fails the check on the covered bytes, "foreign_key" and "valid" when it passes as the sender has published another key or this one, "unreadable" otherwise |
| Verdicts.ReferenceVerdictMeaning | examples/10_a2a_reference_peer.py:349-392 | the same for the reference peer, with "unchecked" exactly on a readable block without a verifier |
| Verdicts.CheckMeaning | examples/12_a2a_wire_peer.py:944-948 | the check raises exactly where key or signature is no hexadecimal text, and otherwise says whether they spell points and a number with S B = R + k A |
| Verdicts.ValidExactly | examples/12_a2a_wire_peer.py:917-952 | so a frame with a readable block is valid if and only if that equation holds and its sender has published the key, and invalid if and only if it does not hold |
| Verdicts.JoinMeaning | examples/12_a2a_wire_peer.py:724-742 | which joins withdraw and which bind which key, in the fields of frame, body and block |
| Verdicts.KeysExactly | examples/12_a2a_wire_peer.py:704-743 | a peer's key is k exactly when the last join of the transcript from it that withdraws or publishes anything publishes k |
| Verdicts.OwnersExactly | examples/12_a2a_wire_peer.py:848-896 | an agent is owned exactly when that join publishes its key and its owner block names the owner and the owner's bound key and carries that key's signature of room, owner, agent and agent's key |
| Verdicts.TranscriptMeaning | examples/12_a2a_wire_peer.py:488-492 | the transcript holds the frames given; clocks never fall, at one clock senders never fall by code point, at one clock and sender sequence numbers never fall |
| WireSigning.Ed25519Works | examples/12_a2a_wire_peer.py:549-649 | the program's own scheme meets what the signing theorems ask, under the named hypotheses |
| WireSigning.SignedFrameValid | examples/12_a2a_wire_peer.py:767-790 | a frame this peer signed is valid to every reader holding its key, however the room placed and normalised it |
| WireSigning.SignPayloadMeaning | examples/12_a2a_wire_peer.py:767-790 | signing adds one block (ed25519, version 2, the seed's public key, its signature of the bytes of the payload as this sender's frame, in hexadecimal) and changes nothing else |
| WireSigning.AnnouncementMeaning | examples/12_a2a_wire_peer.py:810-813 | an announcement's body names the key, the display name, an empty card, and the owner's block when there is one |
| WireSigning.AttestOwnerMeaning | examples/12_a2a_wire_peer.py:839-845 | an attestation names version 1, the owner and its key, and signs room, owner, agent and agent's key |
| WireSigning.AnnouncementAttested | examples/12_a2a_wire_peer.py:793-813 | a stored announcement names its own key, passes its own check and carries the owner block it was given |
| WireSigning.AnnouncementBinds | examples/12_a2a_wire_peer.py:704-813 | a peer whose last effective join is its announcement is bound to its key, whatever others wrote |
| WireSigning.AnnounceThenSign | examples/12_a2a_wire_peer.py:704-952 | then every frame it signed in that room gets the verdict valid, before or after the announcement |
| WireSigning.AttestedAgentIsOwned | examples/12_a2a_wire_peer.py:793-896 | an agent that announced the block its announced owner made for it is reported as owned by that owner |
| ReferencePeer.SigningBytes | examples/10_a2a_reference_peer.py:255-301 | the reference peer's loop, coercing field by field, computes the covered bytes, and refuses exactly what is not canonical |
| ReferencePeer.VerdictEscapes | examples/10_a2a_reference_peer.py:349-397 | with or without a verifier, the verdict raises exactly on a block whose version is an infinite number |
| ReferencePeer.SigningKeysRaise | examples/10_a2a_reference_peer.py:304-346 | and its key fold in exactly the same places as the wire peer's |
| ReferencePeer.SigningKeys | examples/10_a2a_reference_peer.py:304-346 | the reference peer's loop computes the same fold with its own verdict function |
| ReferencePeer.Owners | examples/10_a2a_reference_peer.py:410-465 | its owner loops compute the owners of the transcript, and nothing without a verifier |
| Agreement.BytesAgree | examples/10_a2a_reference_peer.py:231-301 | run on one frame, the two peers' loops give the same bytes wherever the reference peer does not refuse, and it refuses exactly what is not canonical |
| Agreement.VerdictsAgree | examples/10_a2a_reference_peer.py:349-397 | with the wire peer's check injected the verdicts differ exactly where a checkable block covers a fractional number |
| Agreement.PeersAgree | examples/10_a2a_reference_peer.py:255-465 | on canonical transcripts both peers give the same verdicts, keys and owners |
| Agreement.NoVerifierNoKeys | examples/10_a2a_reference_peer.py:304-346 | without a verifier no key is bound |
| Wire.ParseEncode | examples/12_a2a_wire_peer.py:241-293 | a frame of any length form, masked or not, is parsed back and the rest of the stream left alone |
| WireMeaning.ParseExactly | examples/12_a2a_wire_peer.py:266-277 | a stream starts with a frame if and only if it starts with that frame's bytes, and leaves what follows them |
| WireMeaning.EncodeSpelled | examples/12_a2a_wire_peer.py:241-255 | those bytes are final bit, reserved bits and opcode, mask bit and length in its form most significant byte first, mask, and each payload byte against its mask byte |
| WireMeaning.XorMeaning | examples/12_a2a_wire_peer.py:254-255 | each of the eight bits of a masked byte is the sum modulo two of the payload's and the mask's |
| Wire.MessageRoundTrip | examples/12_a2a_wire_peer.py:260-293 | any split of a message into fragments with pings and pongs between is read as the concatenated payload, one pong owed per ping with its data |
| WireMeaning.ReceiveThrough | examples/12_a2a_wire_peer.py:260-293 | behind frames that end no message a reader goes on with their data kept, in order, and their pings owed |
| WireMeaning.CloseReached | examples/12_a2a_wire_peer.py:282-289 | a close ends the reading with its code (1005 without one), its reason, and the code mirrored |
| WireMeaning.CutReached | examples/12_a2a_wire_peer.py:232-239 | a stream that ends inside a frame is refused there |
| Wire.SessionRoundTrip | examples/12_a2a_wire_peer.py:260-293 | call after call reads message after message |
| WireSockets.WireSocket.ReadExact | examples/12_a2a_wire_peer.py:232-239 | the next n bytes, however the socket cut them, or a refusal exactly when fewer are left |
| WireSockets.WireSocket.SendFrame | examples/12_a2a_wire_peer.py:241-255 | what is appended to the bytes sent is one final masked frame in the shortest length form, told byte by byte: header, length, mask, and each bit of each payload byte added modulo two to that of its mask byte |
| WireSockets.WireSocket.ReadFrame | examples/12_a2a_wire_peer.py:266-277 | the frame the pending bytes start with, whatever the chunks |
| WireSockets.WireSocket.RecvText | examples/12_a2a_wire_peer.py:260-293 | on any chunks, exactly the outcome of the byte stream: message, close or cut, in each case with one pong sent per ping read, in order, and after a message or a close the rest unread |
| RoomConnections.AwaitAckTakes | examples/12_a2a_wire_peer.py:404-425 | a submit takes the stream up to its first ack: what it keeps, in order, holds no ack, and what it returns is one |
| ConnectionMeaning.ObjectsMeaning | examples/12_a2a_wire_peer.py:389-425 | the messages of a stream are the objects its arrivals decode to, each once, in arrival order |
| ConnectionMeaning.SubmitMeaning | examples/12_a2a_wire_peer.py:404-425 | a submit answers with the first arrival that decodes to an object of kind ack, or is refused at the first silence before it or at the end; every other object in front is kept, and the rest of the stream left |
| ConnectionMeaning.BacklogMeaning | examples/12_a2a_wire_peer.py:369-387 | the same for the backlog and the sync marker |
| ConnectionMeaning.NextMeaning | examples/12_a2a_wire_peer.py:389-402 | a read hands out what was kept first, and only then the first object of the stream, telling a silence from the end |
| RoomConnections.AwaitAckStops | examples/12_a2a_wire_peer.py:404-425 | it gives up only at a silence or the end |
| RoomConnections.FirstObjectTakes | examples/12_a2a_wire_peer.py:389-402 | a read takes the first message and nothing after it |
| RoomConnections.BacklogTakes | examples/12_a2a_wire_peer.py:369-387 | the backlog is every message in front of the first sync marker, oldest first; it stops short of one only at a silence or the end, and nothing behind is touched |
| RoomConnections.NothingIsLost | examples/12_a2a_wire_peer.py:389-425 | over any calls and any stream, every message read is taken as one submit's ack, delivered, or still kept, once and in arrival order |
| RoomConnections.AcksInOrder | examples/12_a2a_wire_peer.py:389-425 | over any calls and any stream, the acks handed to the caller, by submit or by next_frame, are the room's acks in arrival order, and the others are still on the wire |
| RoomConnections.AckIsOwn | examples/12_a2a_wire_peer.py:404-425 | in any run an answered submit takes the ack whose number is the number of acks handed out before it, its own if and only if that many payloads were submitted before it |
| RoomConnections.OwnUntilRefused | examples/12_a2a_wire_peer.py:404-425 | in a run of submits that condition holds exactly while none was refused |
| RoomConnections.SubmitsOwnAcks | examples/12_a2a_wire_peer.py:404-425 | so submits of which none is refused get the room's acks one by one |
| RoomConnections.LateAckIsTaken | examples/12_a2a_wire_peer.py:404-425 | the condition can fail: after a timed-out submit the next takes the late ack |
| RoomConnections.RoomConnection.NextFrame | examples/12_a2a_wire_peer.py:389-402 | the reply and the new state of the read, buffer first |
| RoomConnections.RoomConnection.Submit | examples/12_a2a_wire_peer.py:404-425 | the reply and the new state of the submit, the payload sent once |
| RoomConnections.RoomConnection.Backlog | examples/12_a2a_wire_peer.py:369-387 | the frames of the backlog and the stream left |
| RoomLines.AtMostOnceInOrder | examples/12_a2a_wire_peer.py:1526-1622 | in every interleaving payloads reach the connection at most once and in queueing order, slots are answered at most once and in order, none is lost, and what the failure path answered was never sent |
| RoomLines.FailAnswersAll | examples/12_a2a_wire_peer.py:1615-1622 | once the failure path has returned the outbox is empty and every slot ever queued has an answer |
| RoomLines.ErrorIsFinal | examples/12_a2a_wire_peer.py:1526-1622 | after an error nothing is queued, sent or absorbed any more |
| RoomLines.FailFinishes | examples/12_a2a_wire_peer.py:1615-1622 | the failure path never waits for anybody |
| RoomLines.MirrorIsRecent | examples/12_a2a_wire_peer.py:1600-1608 | in every state the mirror is the last 500 frames absorbed |
| RoomLines.AnsweredIffEmpty | examples/12_a2a_wire_peer.py:1526-1622 | in every run that ended, whichever way, every slot is answered exactly when the outbox is empty |
| RoomLines.StoppedAnswersDrained | examples/12_a2a_wire_peer.py:1559-1569 | a stopped line has answered exactly the slots queued before its last drain, the later ones being in the outbox |
| RoomLines.CrashedAnsweredNothing | examples/12_a2a_wire_peer.py:1552-1598 | a line whose backlog read raised never answered or sent anything |
| RoomLines.EndIsFinal | examples/12_a2a_wire_peer.py:1526-1598 | after the end no event answers, sends or takes out anything more |
| RoomLines.StoppedLeavesQueued | examples/12_a2a_wire_peer.py:1559-1563 | a run in which a stopped line leaves a slot unanswered |
| LineLedgers.EventsTell | examples/12_a2a_wire_peer.py:1526-1622 | over any run: how many slots were queued, that answer n is slot n's and by whom, which slots were sent, what was absorbed, and whether the line is stopped, failed or up, all from the events alone |
| LineLedgers.MirrorHoldsNewest | examples/12_a2a_wire_peer.py:1600-1608 | in every state of every run the mirror is, frame by frame, the newest 500 absorbed |
| LineLedgers.RoundServes | examples/12_a2a_wire_peer.py:1559-1598 | from the top of an unstopped loop the reader left to itself sends and answers everything queued and comes back to the top |
| LineLedgers.StopHeeded | examples/12_a2a_wire_peer.py:1559-1563 | after a stop the outbox is drained at most once more, and only if the reader had looked before |
| LineLedgers.StopEnds | examples/12_a2a_wire_peer.py:1559-1563 | at the top of the loop a stopped line ends |
| Reading.DedupeKeeps | examples/10_a2a_reference_peer.py:198-209 | a frame survives deduplication exactly when it has no id or is the first with its id |
| Reading.Reader.FoldNew | examples/12_a2a_wire_peer.py:495-528 | on frames that can be placed, the answer and the new cursor, moved over everything considered; without advancing the same answer and no change |
| Rows.FoldNew | examples/12_a2a_wire_peer.py:488-528 | on decoded frames: raises, with nothing moved, exactly when some frame's clock or sequence cannot be read, and else shows frames of the batch by that answer |
| Shown.ShownExactly | examples/12_a2a_wire_peer.py:495-528 | on decoded frames: shown are exactly, in order, the transcript's frames that are no plumbing, that no earlier one has the id of, and, unless everything is asked for, that stand behind the cursor by clock, sender and sequence and are not the reader's own |
| Shown.CursorExactly | examples/12_a2a_wire_peer.py:495-528 | no such frame stands behind the new cursor, which is where it was or at one of them that stood behind it |
| ReadingRuns.AnswerInOrder | examples/12_a2a_wire_peer.py:495-528 | an answer is in canonical order |
| Ordering.SortedMeaning | examples/12_a2a_wire_peer.py:488-492 | in what the sort gives, for all places i before j: clocks never fall, at one clock senders never fall by code point, at one clock and sender sequence numbers never fall |
| Ordering.StringLessMeaning | examples/12_a2a_wire_peer.py:488-492 | code point order by the first place where two texts differ, or by one being a prefix of the other |
| Ordering.SortedStable | examples/12_a2a_wire_peer.py:508 | frames at one position keep the order they came in |
| ReadingRuns.AnswerMeaning | examples/12_a2a_wire_peer.py:495-528 | shown are exactly the foreign frames past the cursor whose id no earlier frame of the batch carries |
| ReadingRuns.NewsIsShown | examples/12_a2a_wire_peer.py:495-528 | a foreign frame past the cursor that is not shown gave way to one with its id, no later than itself |
| ReadingRuns.CursorNeverBack | examples/12_a2a_wire_peer.py:495-528 | over any run the cursor never moves back |
| ReadingRuns.ShownOnce | examples/12_a2a_wire_peer.py:495-528 | what a later call shows lies strictly after what an earlier call showed |
| ReadingRuns.ComesBackExactly | examples/12_a2a_wire_peer.py:495-524 | a frame of a batch is news afterwards if and only if it was before and lies beyond every frame that is first with its id: only a skipped repeat can come back |
| ReadingRuns.SeenIsNeverNews | examples/12_a2a_wire_peer.py:495-504 | over any later run no frame of a batch comes back as news if the batch considered it, or, shown or skipped, wherever equal ids mean equal positions |
| ReadingRuns.RepeatComesBack | examples/12_a2a_wire_peer.py:506-524 | a skipped repeat that does come back |
| ReadingRuns.ManyCallsAreOne | examples/12_a2a_wire_peer.py:495-528 | batches in canonical order with fresh ids answer like the whole log, if and only if no foreign frame ties with a cursor; the cursors agree always |
| ReadingRuns.TieIsLost | examples/12_a2a_wire_peer.py:495-528 | two batches whose tie is lost |
| Mirrors.ReadingTheRest | examples/12_a2a_wire_peer.py:1499-1509 | once the evicted frames have been read, reading the mirror is reading everything ever absorbed, answer and cursor |
| Mirrors.EvictedUnread | examples/12_a2a_wire_peer.py:1600-1608 | a foreign frame evicted unread is missing from the mirror's answer |
| MirrorLimits.AnswersAgree | examples/12_a2a_wire_peer.py:1499-1509 | with ids naming frames and distinct positions, the newer part answers like the whole if and only if every evicted frame not yet read is also in it |
| MirrorLimits.CursorsAgree | examples/12_a2a_wire_peer.py:1499-1509 | and moves the cursor to the same place if and only if no evicted frame lies beyond it |
| MirrorLimits.MirrorAnswersAgree | examples/12_a2a_wire_peer.py:1600-1608 | the same condition for the mirror of 500 frames |
| Mirrors.Mirror.Absorb | examples/12_a2a_wire_peer.py:1600-1608 | the mirror stays the last 500 of everything absorbed |
| Mirrors.Mirror.TakeNew | examples/12_a2a_wire_peer.py:1499-1503 | the mirror's answer, and when it is the full history's |
| Mirrors.Mirror.Pending | examples/12_a2a_wire_peer.py:1505-1509 | how many frames are news, with nothing consumed |
| Convergence.Dedupe | examples/10_a2a_reference_peer.py:198-209 | the loop keeps exactly the first frame of each id and every frame without one |
| Convergence.SameTranscript | examples/10_a2a_reference_peer.py:183-209 | receivers of the same frames compute the same transcript exactly when frames without an id reached both equally often |
| Convergence.WithoutIdDiverges | examples/10_a2a_reference_peer.py:198-209 | a frame without an id that one receiver got twice stays twice |
| Convergence.Converges | examples/10_a2a_reference_peer.py:183-209 | with ids everywhere, any order and any repeats give one transcript, in order and complete |
| Convergence.PeersReadAlike | examples/12_a2a_wire_peer.py:495-520 | sorting then deduplicating, as the wire peer does, is deduplicating then sorting, as the reference peer does |
| Convergence.SameAnswer | examples/12_a2a_wire_peer.py:495-528 | the same frames in any delivery give a reader the same answer and cursor |
| Rows.OneOrder | examples/12_a2a_wire_peer.py:488-492 | the reading order and the key fold's order are one |
| Rows.SameTrust | examples/10_a2a_reference_peer.py:183-465 | receivers of the same frames bind the same keys and report the same owners, whatever the delivery |
| Restarts.OneAtATime | vaf/tray.py:689-717 | in every interleaving at most one restart runs |
| Restarts.NoMoreThanAsked | vaf/tray.py:689-717 | there are never more restarts than calls that set the flag, and each is told a key and a value some call set |
| Restarts.NoChangeForgotten | vaf/tray.py:689-717 | every change is followed by a restart that starts after it, or by a worker past its clear, or the flag is still set |
| Restarts.CoveredMeaning | vaf/tray.py:707-711 | a call counts as followed by a restart exactly when some event of the run started one with that call's flag already set |
| Restarts.QuietMeansServed | vaf/tray.py:689-717 | in every run that leaves the lock free, every change has been served if and only if the flag is clear |
| Restarts.WaitsSinceTheLook | vaf/tray.py:695-715 | from a worker's look at a clear flag until the flag is next cleared, the changes not served are exactly those flagged since that look |
| Restarts.LateCallWaits | vaf/tray.py:695-715 | a call that lands between the worker's last look and the release stays pending with nobody to serve it |
| Restarts.NextCallServes | vaf/tray.py:689-717 | the next call that finds the lock free serves it and everything pending, and the restart is told its own key and value |
| RestartLedgers.FlaggedIsThird | vaf/tray.py:692-694 | a call has set the flag exactly when it has made its third step |
| RestartLedgers.ToldTheLastWritten | vaf/tray.py:692-711 | in any run a restart is told the key last written when its worker read the key and the value last written when it then read the value |
| RangeFiles.RangeFile.Seek | scripts/check_vllm_lock.py:174-177 | the position moves to the clamped target and stays inside the file |
| RangeFiles.SeekMeaning | scripts/check_vllm_lock.py:174-177 | by the start, the position or the end, to the nearest place the file has |
| RangeFiles.RangeFile.Fill | scripts/check_vllm_lock.py:179-189 | the buffer covers the read or nothing changed, and is always a true slice of the remote bytes |
| RangeFiles.RangeFile.Read | scripts/check_vllm_lock.py:179-193 | a read returns the remote bytes from the position to its end and moves over them, and raises exactly when the server was needed and did not serve |
| RangeFiles.BytesMeaning | scripts/check_vllm_lock.py:179-193 | as many bytes as asked or all that are left, each the remote byte at its place |
| RangeFiles.RefusedMeaning | scripts/check_vllm_lock.py:183-189 | raises exactly when the buffer does not hold the read and the one request, over the read or 256 KiB from the position and never past the end, is not answered with a part |
| RangeFiles.OneOperation | scripts/check_vllm_lock.py:174-193 | each operation agrees with the plain bytes except a read at the end with a short buffer |
| RangeFiles.SameAsPlain | scripts/check_vllm_lock.py:174-193 | every sequence of seeks and reads gives, out of the buffer, the plain file's results, if and only if no read is blind at the end |
| RangeFiles.BlindAtOnce | scripts/check_vllm_lock.py:174-193 | such a read can happen: on any file that is not empty, seeking to its end and reading raises |
| RangeFiles.ReadAhead | scripts/check_vllm_lock.py:183-189 | after a request, reads that end within 256 KiB of where it started need no other |
| Extras.Check | scripts/check_vllm_lock.py:256-274 | the walk of one package reports and collects exactly what its active requirements say |
| Extras.CheckAll | scripts/check_vllm_lock.py:300-308 | one round collects what the whole lock asks for |
| Extras.Grow | scripts/check_vllm_lock.py:311-313 | each wanted extra is added to its package and nothing else changes |
| Extras.AskedIsInClosed | scripts/check_vllm_lock.py:256-274 | more extras only activate more requirements: what is asked for now is installed in every closed lock above |
| Extras.RoundGrows | scripts/check_vllm_lock.py:300-313 | a further round strictly shrinks the named extras not installed and stays inside every closed lock |
| Extras.Resolve | scripts/check_vllm_lock.py:300-313 | the loop ends, with the least closed lock and that lock's problems; in the other mode with the lock as given |
| Extras.LeastIsUnique | scripts/check_vllm_lock.py:296-313 | there is one such lock |
| Extras.ClosedMeaning | scripts/check_vllm_lock.py:256-274 | a lock is closed exactly when every requirement that holds, without an extra or for an installed one, finds all the extras it names installed |
| Extras.ProblemsMeaning | scripts/check_vllm_lock.py:256-274 | reported are exactly the requirements that hold whose package is not locked, is locked at a version that does not fit, or, where extras are not worked out, lacks an extra they name |
| Extras.ReportedMeansOpen | scripts/check_vllm_lock.py:268-273 | in the other mode missing extras are reported exactly when the lock is not closed |

## Left out

- Sockets, TLS, certificate pinning, HTTPS file verbs, the command line, seat files and the MCP dispatch of the wire peer: input and output. The socket is a sequence of non-empty chunks, and past the last one the connection has ended.
- SHA-512 is not modelled; it is an arbitrary function to 64 bytes, so nothing is said about forging.
- The order of the base point, associativity of the addition and primality of the modulus are hypotheses, as said above.
- A timeout in the middle of a WebSocket frame, after which the connection is only good for closing.
- UTF-8 decoding of a received message, which replaces what it cannot read; received messages are bytes here. Payloads of 2^64 bytes and more have no length form and are not modelled.
- Strings are sequences of Unicode scalar values, so JSON text with lone surrogates is not modelled.
- Decoded JSON objects are maps: two objects with the same members are one value, and where the program walks an object's keys (`must_understand` given as an object) the order is a parameter. A key that is not a string cannot occur.
- How Python prints a list or an object through `str`, and which texts and floats `int` reads, are parameters of the model (`Runtime`).
- Reading.Reader.FoldNew: works on frames whose clock and sequence can be read; `Rows.FoldNew` is the same call on decoded frames and says when it raises instead.
- RoomLines.AtMostOnceInOrder: the held line is a state machine on values, so the condition variable, the waits of callers and their timeouts are the interleaving itself; the lease renewals it sends are not slots.
- Restarts.NoChangeForgotten: no claim is made that a pending change is served without another call. The restart itself is one step with a start and an end, and it may fail.
- The delay before a restart, log lines and notifications in the tray; its icons, windows and server processes.
- The WebSocket handshake, reserved opcodes beyond being skipped, and compression.
- `screen`, `validate`, the capability and role tables, `gaps` and `relay` of the reference peer: single checks over finite tables.
- Which wheels fit a target, marker and specifier parsing and the index pages in the lock checker; a requirement is its dependency, the extras it asks for, the extras that switch it on and whether the locked version fits. Metadata is taken not to change between rounds, as its cache has it.
- The HTTP routes, the engine facades and the remaining scripts of the repository.
