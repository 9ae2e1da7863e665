# Proof of the anchor–attester protocol

An anchor (reflector) answers signed probes from attesters (senders) it has on
an allowlist. A measurement is a pair of probes. The anchor answers the first
with a nonce, Reply 0, and the second with the time from Reply 0's transmission
to the second probe's receipt, Reply 1. A second probe that echoes the nonce
gets a Reply 1 with the challenged flag, and the interval then bounds the
distance to whoever signed it. Replies embed offsets: signed, recursively
nested statements of location.

This project models that protocol and the formats it signs, and proves what
they are for.

* **Formats.** `ByteCodec` and `Layout` hold fixed-width integers and
  records. `OffsetFormat`, `OffsetCodec` and `OffsetSignatures` treat the
  recursive offset: the exact language `Unmarshal` accepts, and what a signature
  over it binds; `OffsetErrors` says when each error is returned. `Packet`,
  `PacketCodec` and `Ntp` treat probes, replies and timestamps. `WireLayout` gives
  every byte of the three formats by position and value.
* **Methods over buffers.** `LocationOffsets` and `PacketBuffers` are the
  source's loops and in-place writes, each proved against those formats.
* **The anchor.** `Reflector` is one packet step as a function of state and
  event. `LinuxReflectors` is the object with its mutable records, proved to
  take that step. `History` tells every verdict and every field of every reply from
  the events alone, without reference to a record. `Runs`, `RateLimit`, `NonInterference`, `Automaton`,
  `Snapshots` and `Reload` are about runs of any length and any interleaving.
  `Straddling` splits a packet step into its two halves, allowlist check and
  work on the record, and lets reloads fall between them.
* **The attester.** `Sender` says what a receive loop makes of any stream of
  datagrams. `LinuxSenders` is the object, with its shared buffer, proved to do
  that. `Recovery` composes an honest pair with the anchor.
* **Distance.** `Geo` and `Distance` put anchor, attesters and a hostile
  network in a metric space and conclude the distance bound; `Attainment` shows
  that no smaller bound would do, and that the assumptions can be met.
* **Keys.** `Keys`, `Occurrences` and `Allowlist` treat public keys as text and
  the allowlist file.

Receive times, transmit times, nonce draws, source addresses and received
datagrams are inputs, and every theorem holds for all of them. A time is a
number of nanoseconds on the anchor's clock. A signature scheme is an arbitrary
pair of functions, and a theorem that needs it to be correct or unforgeable (in
the sense of section 5.1 of RFC 8032) says so. Latitude and longitude are
64-bit patterns. `ProvableMaxDistance` is over the reals.

The distance theorem assumes four things (`Distance.Idealised`). Nothing is
relayed faster than light. A signature over a number is made by a holder of its
key who knows the number. An issued nonce other than zero is neither guessed nor
issued twice. The anchor's key signs its replies and offset trees, and nothing
else. The network, every other node and every other key are unconstrained.

## Where the code and its documentation differ

* `docs/protocol.md:197` and `internal/signed/reflector.go:21` promise two
  probes per window. A first reply whose second probe never comes is reset
  after five seconds, inside the window, so a longer window admits more.
  `RateLimit.TwoPerWindowIff` gives the exact condition, with a concrete run
  that breaks the promise. For completed pairs the limit holds whatever the
  window (`RateLimit.CompletedPairsPerWindow`).
* `docs/protocol.md:140`, `docs/open-questions.md:123` and the comment at
  `internal/signed/packet.go:29` put the largest reply at 1122 bytes. With five
  offsets it has 1147 (`WireLayout.ReplyAcceptedIff`).
* With a verify interval of zero or less the pair counter never comes back to
  zero once it reaches two: one pair, and no further challenge, but every probe
  from the pair's address is answered (`Automaton.NoIntervalMeansOnePair`,
  `History.UnlimitedAnswersOn`).
* If the offsets in force do not fit a reply, the pair counter moves but nothing
  is sent or timed, and the record keeps the transmit time it had. Such a pair
  goes stale five seconds after that earlier transmission, and never if the
  sender has been sent nothing since its record was created
  (`Recovery.UnsentIssueKeepsOldTime`, `Recovery.TimedIffSomeReplySent`,
  `Recovery.UntimedPairShutsOutOthers`). The anchor's own reference offset always
  fits (`Snapshots.ReferenceOffsetFits`).
* The reference count in the signed bytes is one byte. Signed bytes determine all
  trees of a given width, up to the root's signature, if and only if no node has
  more than 255 references (`OffsetSignatures.SigningBytesDetermineTreesIff`).
* The reported RTT is a sum modulo 2^64 that the attester reads as a signed
  duration. When the first offset's own RTT and the interval together exceed
  2^63 - 1 nanoseconds, the distance printed from it is no bound: with an offset
  RTT of 2^63 - 1 and any interval above zero it is zero
  (`Geo.SumKeepsBoundIff`, `Attainment.RttBoundIff`). The interval alone always
  gives a bound, and so does the RTT over the anchor's own reference offset.
* A packet step looks its sender up in the allowlist before it loads the sender's
  record, and a reload can delete both in between. The step then leaves a record
  for a removed key. It does so exactly when it straddles the deletion
  (`Straddling.RemovedKeyOutlivedIff`), and one reload can leave several
  (`Straddling.TwoRecordsOutlive`).
* The anchor does not check probe signatures, and the sender does not compare
  the sender key in a reply with its own. The distance theorem is therefore
  about the holder of the key named in Reply 1's probe, whose signature the
  sender checks.

## Model

| member | source | states |
|---|---|---|
| ByteCodec.Le64RoundTrip | internal/offset/offset.go:144-148 | a 64-bit number written little-endian is read back |
| ByteCodec.Be64RoundTrip | internal/signed/packet.go:209-213 | a 64-bit number written big-endian is read back |
| ByteCodec.Be32RoundTrip | internal/signed/packet.go:163-165 | a 32-bit number written big-endian is read back |
| ByteCodec.LittleEndianIff | internal/offset/offset.go:144-148 | bytes read little-endian as a number exactly when byte i is the number divided by 256^i, modulo 256, and those are the bytes written |
| ByteCodec.BigEndianIff | internal/signed/packet.go:159-184 | the same from the other end, for every width |
| ByteCodec.BytesByPosition | internal/signed/packet.go:163-213 | the bytes written for each width, most or least significant first; four of them by value |
| ByteCodec.NumbersByPosition | internal/signed/packet.go:176-264 | the number read at each width is the one those bytes spell, and no other |
| OffsetCodec.LengthOfEncoding | internal/offset/offset.go:117-123 | an encoding is `EncodedLen` bytes, which is 174 for the root and for every node below it |
| OffsetCodec.UnmarshalOfMarshal | internal/offset/offset.go:126-209 | for every tree, marshalling then unmarshalling returns it when its reference height is at most 2 and at most 5 nodes lie below the root, and fails otherwise |
| OffsetCodec.MarshalOfUnmarshal | internal/offset/offset.go:158-209 | every accepted byte string is the marshalled form of what it decodes to, to the last byte, and that tree is within the limits |
| OffsetCodec.EncodePrefixFree | internal/offset/offset.go:126-155 | encodings are a prefix-free code on trees with at most 255 references a node |
| OffsetCodec.NodeAtPositions | internal/offset/offset.go:182-193 | the hard-coded positions are where the fields of the layout lie |
| OffsetCodec.HeightIff | internal/offset/offset.go:174-177 | the height that the depth limit bounds: a leaf has none, any other tree one more than its highest reference |
| OffsetErrors.DecodesIff | internal/offset/offset.go:174-209 | at every depth, decoding finds a tree exactly when the data begins with its encoding and it fits below the depth limit |
| OffsetErrors.DecodeAtFailsIff | internal/offset/offset.go:174-209 | decoding one offset returns each error exactly when its reason holds: depth, size, version, or the first reference that fails, by index and with its own cause |
| OffsetErrors.DecodeFailsIff | internal/offset/offset.go:158-170 | `Unmarshal` returns each error exactly when no offset can be decoded from the front, the one that can has more than five nodes below it, or bytes are left over |
| WireLayout.OffsetOnWire | internal/offset/offset.go:11-24 | every byte of an encoded offset, by position and value, and which of them are signed |
| WireLayout.ReferencesOnWire | internal/offset/offset.go:151-153 | references follow one another, each in full, in order |
| OffsetSignatures.SigningBytesPrefixFree | internal/offset/offset.go:132-155 | signed bytes are a prefix-free code up to the root's signature, on trees with at most 255 references a node |
| OffsetSignatures.SigningBytesDetermineTree | internal/offset/offset.go:132-155 | the signed bytes of such a tree are those of no other tree, wide ones included, except for the root's signature |
| OffsetSignatures.NarrowIffAllAnnounced | internal/offset/offset.go:150 | the count bytes of an encoding add up to the number of references exactly when no count overflows |
| OffsetSignatures.SigningBytesDetermineTreesIff | internal/offset/offset.go:132-155 | signed bytes determine all trees with at most n references a node, up to the root's signature, if and only if n is at most 255 |
| OffsetSignatures.WideAndLeafSwap | internal/offset/offset.go:150-153 | at 256 references a node two trees already collide: a node that wide and a leaf can change places |
| OffsetSignatures.WideTreesCollide | internal/offset/offset.go:150-153 | trees of different heights can collide: one reference with 256 of its own is signed like those 257 side by side |
| OffsetSignatures.ChainPassesIffAllVerify | internal/offset/offset.go:243-253 | a chain passes exactly when the own signature of every node in it verifies |
| OffsetSignatures.ChainErrorIff | internal/offset/offset.go:243-253 | the error names the first bad signature: a node before its references, an earlier reference before a later one |
| OffsetSignatures.PassingChainIsGenuine | internal/offset/offset.go:238-253 | in a passing chain every node that names an honest key is, with its whole subtree, one that key's holder signed |
| LocationOffsets.MeasureEncodedLen | internal/offset/offset.go:117-123 | the loop computes the length of the encoding |
| LocationOffsets.TallyReferences | internal/offset/offset.go:211-218 | the loop counts every node below the root |
| LocationOffsets.AppendSigned | internal/offset/offset.go:138-155 | appending field after field, then every reference, appends the signed bytes to any buffer |
| LocationOffsets.MarshalTree | internal/offset/offset.go:126-130 | the marshalled bytes are the encoding |
| LocationOffsets.VerifyTree | internal/offset/offset.go:231-236 | the node's signature is checked over its signed bytes |
| LocationOffsets.VerifyChain | internal/offset/offset.go:243-253 | the loop finds the first bad signature, root first, and nothing exactly when all nodes verify |
| LocationOffsets.SignedVerifies | internal/offset/offset.go:224-236 | what `Sign` signs verifies, whatever its references, names both keys, and is otherwise unchanged |
| LocationOffsets.LocationOffset.Sign | internal/offset/offset.go:224-228 | the receiver becomes the tree with both keys set and a signature over it, and nothing else changes |
| LocationOffsets.LocationOffset.Unmarshal | internal/offset/offset.go:158-170 | the receiver becomes exactly the decoded tree whatever it held before, or the call fails with the decoder's error and leaves the receiver overwritten as far as decoding came |
| LocationOffsets.LocationOffset.UnmarshalAt | internal/offset/offset.go:174-209 | one offset from the front of the data into the receiver and the bytes it took, or the error and what is left in the receiver |
| LocationOffsets.LocationOffset.UnmarshalReferences | internal/offset/offset.go:196-208 | the reference loop fills the receiver's list from consecutive bytes, or reports which reference failed and leaves those before it decoded and those after it zero |
| LocationOffsets.LeftWhenDecoded | internal/offset/offset.go:174-209 | after a success nothing of what the receiver held is left |
| PacketCodec.ProbeRoundTrip | internal/signed/packet.go:158-184 | a marshalled probe is read back |
| PacketCodec.ProbeRoundTripBack | internal/signed/packet.go:158-184 | every accepted probe buffer is what its probe marshals to |
| PacketCodec.ProbePayloadDeterminesProbe | internal/signed/packet.go:186-194 | the signed bytes of a probe determine it up to its signature |
| PacketCodec.ChallengedProbePresentsNonce | internal/signed/packet.go:134-156 | a challenged probe presents exactly the nonce it was made from and verifies |
| PacketCodec.ReplyRoundTrip | internal/signed/packet.go:198-290 | a reply with at most 5 offsets of 174 bytes is read back, whatever buffer it was marshalled over |
| PacketCodec.ReplyRoundTripBack | internal/signed/packet.go:243-290 | every accepted buffer is what its reply marshals to, count and flag byte included, and that reply is well formed |
| PacketCodec.ReplyRoundTripIff | internal/signed/packet.go:198-290 | a reply is read back exactly when it has at most 5 offsets, all of 174 bytes |
| PacketCodec.PayloadOfWellFormed | internal/signed/packet.go:196-227 | well-formed offsets leave nothing of the buffer they are copied over |
| PacketCodec.ReplyPayloadDeterminesReply | internal/signed/packet.go:196-227 | the signed bytes determine every field of a well-formed reply but its signature |
| PacketCodec.WireTripKeepsVerdict | cmd/attester/main.go:276-285 | re-marshalling a parsed reply gives back the received bytes, so the anchor's signature verifies on them as before |
| PacketCodec.NewReplyVerifies | internal/signed/packet.go:292-337 | a reply is built exactly when its offsets fit, and then verifies |
| PacketCodec.SignedFormatsDisjoint | internal/signed/packet.go:186-227 | no byte string is the signed form of two of probe, reply and offset |
| PacketCodec.OffsetInfoAgrees | internal/signed/packet.go:349-367 | the fixed-position reader agrees with the recursive format on every encoded tree |
| WireLayout.ProbeOnWire | internal/signed/packet.go:158-194 | every byte of a probe, by position and value, and which of them are signed; and exactly the 108-byte buffers are probes |
| WireLayout.NewProbeOnWire | internal/signed/packet.go:110-132 | a new probe carries the 64 bits it is given, its signer's key, and that signer's signature over its first 44 bytes |
| WireLayout.ChallengeOnWire | internal/signed/packet.go:134-156 | bytes 4 to 11 of a challenged probe spell the nonce it was made for, most significant first |
| WireLayout.PresentedNonceOnWire | internal/signed/reflector_linux.go:280 | what a probe presents as a nonce is what those bytes spell |
| WireLayout.ReplyOnWire | internal/signed/packet.go:196-227 | every byte of the signed portion of a reply, whatever its offsets and whatever buffer it is written over |
| WireLayout.SignatureOnWire | internal/signed/packet.go:229-241 | a reply verifies exactly when its last 64 bytes are the key at 108 signing everything before them |
| WireLayout.ReplyAcceptedIff | internal/signed/packet.go:243-262 | exactly the buffers of 277 + 174 n bytes that announce n offsets, at most five, are replies |
| WireLayout.AcceptedReply | internal/signed/packet.go:248-290 | offset count and challenged flag of an accepted buffer are what byte 212 says |
| WireLayout.RefusedOffsetsIff | internal/signed/packet.go:292-301 | offsets are refused for being more than five, or for the first that is not 174 bytes |
| Ntp.FractionFits | internal/signed/packet.go:62-63 | the 64-bit product does not overflow and the fraction fits 32 bits |
| Ntp.NanosecondRecoverable | internal/signed/packet.go:59-65 | the exact nanosecond is recoverable from the fraction |
| Ntp.TimestampsOrdered | internal/signed/packet.go:59-65 | within one era of 2^32 seconds, timestamps are ordered exactly as the times are |
| Ntp.UnixEpoch | internal/signed/packet.go:59-65 | Unix time zero is 2208988800 seconds |
| Ntp.SecondsTick | internal/signed/packet.go:59-65 | the seconds count up by one a second, modulo 2^32, and the fraction comes round again |
| PacketBuffers.MarshalProbe | internal/signed/packet.go:158-169 | a long enough buffer begins with the probe's bytes and keeps its tail; a short one is left alone |
| PacketBuffers.MarshalPayload | internal/signed/packet.go:196-227 | a long enough buffer holds the signed portion over what it held before, and keeps its tail |
| PacketBuffers.MarshalOffsets | internal/signed/packet.go:220-224 | the loop fills one slot after another, each over what the buffer held |
| PacketBuffers.MarshalReply | internal/signed/packet.go:229-241 | a long enough buffer holds payload and signature and keeps its tail; a short one is left alone |
| PacketBuffers.UnmarshalProbe | internal/signed/packet.go:171-184 | reading fields from their positions is parsing |
| PacketBuffers.UnmarshalReply | internal/signed/packet.go:243-290 | reading fields and blobs from their positions is parsing, on every buffer |
| PacketBuffers.ReadBlobs | internal/signed/packet.go:277-285 | the loop reads consecutive blobs |
| PacketBuffers.VerifyProbe | internal/signed/packet.go:186-194 | the signature is checked over the probe's signed bytes |
| PacketBuffers.VerifyReply | internal/signed/packet.go:329-337 | the signature is checked over the reply's signed bytes |
| PacketBuffers.NewReplyPacket | internal/signed/packet.go:292-327 | the signed reply, or the first reason why the offsets do not fit |
| Runs.StepForSender | internal/signed/reflector_linux.go:205-321 | how one event changes the record of one sender |
| Runs.ReplyForSender | internal/signed/reflector_linux.go:297-322 | a reply goes out exactly when a probe is answered and the offsets fit, and carries that probe, verdict and offsets |
| Runs.SendersStayOk | internal/signed/reflector_linux.go:24-32 | in every run the pair counter stays in 0..2 under a rate limit, and a nonce is live only in the middle of a pair |
| Runs.PairRemembersIssue | internal/signed/reflector_linux.go:254-291 | in every run a record in the middle of a pair holds address, start, nonce and transmit time of the event that began it |
| Runs.ChallengedReplyIsSecondOfPair | internal/signed/reflector_linux.go:241-322 | every challenged reply answers the non-zero nonce last issued to the same key at the same address, with nothing answered in between, and reports the time since that Reply 0, at most five seconds |
| Runs.OneChallengedReplyPerIssue | internal/signed/reflector_linux.go:278-286 | each issued nonce yields at most one challenged reply |
| History.PermittedIsAuthorized | internal/signed/reflector_linux.go:117-135 | at every point of every run exactly the keys of the last list set are authorised |
| History.VerdictByHistory | internal/signed/reflector_linux.go:201-291 | for every verify interval, the verdict on every probe is decided by the list in force, by what was answered and sent since the key was last removed, and by when and from where the last pair was begun |
| History.UnlimitedAnswersOn | internal/signed/reflector_linux.go:227-291 | without a verify interval, a sender whose pair is complete is answered on every probe from the pair's address and on no other, unchallenged, with the time since the last reply sent to it |
| History.SinceIsInterval | internal/signed/reflector_linux.go:287-290 | the interval is the difference of the two times as a 64-bit two's complement count, saturating where a duration does |
| History.ReplyByHistory | internal/signed/reflector_linux.go:201-321 | there is a reply exactly when a probe is to be answered and the offsets last set fit; its probe, both anchor keys, location, interval, RTT, offsets, flag and signature are known from the events |
| RateLimit.CompletedPairsAreSpaced | internal/signed/reflector_linux.go:227-239 | any two completed pairs of a sender begin at least the verify interval apart |
| RateLimit.CompletedPairsPerWindow | internal/signed/reflector_linux.go:227-239 | a window of width W holds at most ceil(W / interval) starts of completed pairs |
| RateLimit.IssuesAreSpaced | internal/signed/reflector_linux.go:227-245 | two nonces are issued to a sender no closer than the interval, or the stale-pair timeout if that is shorter |
| RateLimit.TwoPerWindowIff | internal/signed/reflector_linux.go:227-245 | two probes per window, as documented, holds of every orderly run exactly when the window is at most five seconds and a nanosecond |
| NonInterference.RepliesDependOnOwnEvents | internal/signed/reflector_linux.go:214-291 | a sender's replies and final record are those of a reflector that sees only its datagrams, whatever is interleaved |
| NonInterference.ForeignEvent | internal/signed/reflector_linux.go:214-225 | another sender's datagram neither changes a sender's share of the state nor answers it |
| Automaton.RecordRefinesAutomaton | internal/signed/reflector_linux.go:227-291 | counter and fields step as Idle / Awaiting / Cooldown does, with the same verdicts |
| Automaton.RunRefinesAutomaton | internal/signed/reflector_linux.go:227-291 | over every run the record's phase is the automaton's |
| Automaton.DroppedIsStuttering | internal/signed/reflector_linux.go:214-264 | a dropped IPv4 datagram leaves its sender's record as it was |
| Automaton.AnswerStreamShape | internal/signed/reflector_linux.go:241-291 | every sender's replies form a word of (R0+ R1)* R0* |
| Automaton.AnswersAreReplies | internal/signed/reflector_linux.go:314-322 | with fitting offsets, answers and replies are the same |
| Automaton.NoIntervalMeansOnePair | internal/signed/reflector_linux.go:228-239 | without a verify interval no nonce is issued and nothing is challenged after a sender's first completed pair |
| Snapshots.StateHoldsLastOffsets | internal/signed/reflector_linux.go:137-146 | the offsets in force are those of the last `SetOffsets` |
| Snapshots.ReplyMatchesItsOwnOffset | internal/signed/reflector_linux.go:293-317 | slot, latitude and longitude of a reply are what the recursive decoder reads from its own first blob, all of one `SetOffsets`, and its RTT exceeds that blob's by nothing or by the interval |
| Snapshots.ReferenceOffsetFits | cmd/anchor/main.go:144-155 | the anchor's reference offset states its position and time in its own name; it is one 174-byte blob with no RTT, which decodes to itself and verifies |
| Snapshots.RootRttIsInterval | internal/signed/reflector_linux.go:310-313 | with such offsets the RTT of a second reply is its interval |
| Snapshots.SecondReplyInterval | internal/signed/reflector_linux.go:284-313 | a second reply's RTT and interval are exactly the time since Reply 0 was sent, at most five seconds, unless the probe came in before that |
| LinuxReflectors.SenderRecord.Admit | internal/signed/reflector_linux.go:227-291 | the in-place update of a record is the specified step, with its verdict |
| LinuxReflectors.LinuxReflector.constructor | internal/signed/reflector_linux.go:98-114 | the reflector starts with the given keys, no records and no offsets |
| LinuxReflectors.LinuxReflector.LoadOrStore | internal/signed/reflector_linux.go:223-225 | the sender's record is found or created empty; no other record changes |
| LinuxReflectors.LinuxReflector.HandleDatagram | internal/signed/reflector_linux.go:201-325 | one pass of the packet loop takes the specified step and puts the specified bytes on the wire |
| LinuxReflectors.LinuxReflector.SetAuthorizedKeys | internal/signed/reflector_linux.go:117-135 | afterwards exactly the new keys are authorised, and the records of the removed keys alone are gone |
| LinuxReflectors.LinuxReflector.DropStaleKeys | internal/signed/reflector_linux.go:123-130 | the same of the deletions, in whatever order the keys are visited |
| LinuxReflectors.LinuxReflector.SetOffsets | internal/signed/reflector_linux.go:137-146 | the offsets become the blobs' contents, in fresh arrays the caller cannot reach |
| Reload.KeptKeyIsUntouched | internal/signed/reflector_linux.go:117-135 | at every point inside a reload, a key of both lists is authorised and its record is what it would be without the reload |
| Reload.ReloadReturns | internal/signed/reflector_linux.go:117-135 | on return exactly the new keys are authorised, and, packet steps being whole, every record belongs to one of them |
| Reload.ListsAreNeverMixed | internal/signed/reflector_linux.go:117-135 | at every point inside a reload, either every authorised key is on the old list or every one is on the new |
| Reload.RestoredKeyStartsEmpty | internal/signed/reflector_linux.go:126-127 | a key removed and later restored starts from an empty record, whatever probes and other reloads come between, packet steps being whole |
| Straddling.CheckThenWork | internal/signed/reflector_linux.go:214-321 | allowlist check and work on the record, undivided, are the packet step |
| Straddling.ReloadAuthorizes | internal/signed/reflector_linux.go:117-135 | on return exactly the new keys are authorised, whatever halves of packet steps fall inside the reload |
| Straddling.RecordIffWorkedOn | internal/signed/reflector_linux.go:126-127 | over any number of reloads and any interleaving, a sender has a record exactly when a packet step has worked on it since it was last deleted |
| Straddling.DeletedRecordStaysEmpty | internal/signed/reflector_linux.go:126-127 | once deleted, a record is empty until a packet step works on it again |
| Straddling.OutlivesIffStraddled | internal/signed/reflector_linux.go:126-127 | after a key and its record are deleted, and until the key is stored again, it has a record if and only if a packet step looked it up before both deletions and worked after them |
| Straddling.OneStepStraddles | internal/signed/reflector_linux.go:192-225 | at most one packet step straddles a given deletion |
| Straddling.RemovedKeyOutlivedIff | internal/signed/reflector_linux.go:117-135 | on return a key the reload removed has a record if and only if a packet step straddled its deletion |
| Straddling.TwoRecordsOutlive | internal/signed/reflector_linux.go:123-130 | a concrete reload that leaves two records of removed keys |
| Straddling.KeptKeyIsUnaffected | internal/signed/reflector_linux.go:117-135 | at every point inside a reload, whatever halves of packet steps fall there, a key of both lists is authorised, and its record and pending probe are what they would be without the reload |
| Reload.UninterruptedReload | internal/signed/reflector_linux.go:117-135 | without interleaving, the map operations amount to the one-step reload |
| Sender.LoopYieldsFirst | internal/signed/sender_linux.go:212-253 | a receive loop succeeds exactly when the stream has a first suitable datagram, and yields that one |
| Sender.LoopFailsWith | internal/signed/sender_linux.go:212-253 | it fails exactly with the error of the first turn that neither is passed over nor brings a suitable datagram, or at the deadline |
| Sender.RttIff | internal/signed/sender_linux.go:498-504 | the round trip is to the kernel's stamp, or to the user-space clock when the stamp lies more than 100 microseconds before the send; never negative, at most the longest duration |
| Sender.ReceivesFirstAccepted | internal/signed/sender_linux.go:369-489 | waiting returns a reply and a round trip exactly when that reply is the first acceptable datagram, kernel-stamped, and the round trip is from the send to that stamp |
| Sender.WaitingFailsWith | internal/signed/sender_linux.go:369-489 | waiting fails exactly when the loop stops, or the first acceptable datagram has no readable stamp, and with that error |
| Sender.ChallengedPairIff | internal/signed/sender_linux.go:319-365 | a challenged pair returns exactly the two replies and round trips that its exchanges bring, the second for a probe with the next sequence number and Reply 0's nonce |
| Sender.ChallengedPairFailsIff | internal/signed/sender_linux.go:319-365 | it fails exactly when an exchange does, with the error of the first that does |
| Sender.ChallengedSendsAre | internal/signed/sender_linux.go:319-365 | probe 1 goes out exactly after an accepted Reply 0, and answers it |
| Sender.ChallengedPairIsBound | internal/signed/sender_linux.go:319-365 | over every stream, a successful challenged pair has a Reply 0 to probe 0 and an authentic Reply 1 to probe 1 that echoes Reply 0's nonce, each with the round trip of its own exchange |
| Sender.SequencesAreConsecutive | internal/signed/sender_linux.go:148-155 | sequence numbers are consecutive, and zero follows the last |
| Sender.FiresIff | internal/signed/sender_linux.go:192-197 | a datagram fires probe 1 exactly when it has 277 to 1147 bytes and its first four spell probe 0's sequence number |
| Sender.UnchallengedPairIff | internal/signed/sender_linux.go:140-311 | an unchallenged pair succeeds exactly when both probes are sent, the datagram that fires probe 1 is a reply to probe 0 with readable control data, and a stamped acceptable reply to probe 1 comes first; replies and round trips are theirs |
| Sender.UnchallengedPairFailsIff | internal/signed/sender_linux.go:140-311 | otherwise its error is that of the first step that fails |
| Sender.UnchallengedSendsAre | internal/signed/sender_linux.go:185-210 | probe 1 goes out exactly once a datagram has fired it |
| Sender.UnchallengedPairIsBound | internal/signed/sender_linux.go:140-311 | an unchallenged pair that succeeds has sent both probes and has a reply to each, Reply 1 an authentic one |
| LinuxSenders.LinuxSender.TryRecv | internal/signed/sender_linux.go:427-489 | one receive through the shared buffer decides as specified, for every datagram |
| LinuxSenders.LinuxSender.SendAndRecv | internal/signed/sender_linux.go:369-423 | busy polling and then blocking return what waiting on the whole stream returns |
| LinuxSenders.TimestampOnWire | internal/signed/packet.go:110-132 | an ordinary probe carries its NTP time on the wire, seconds first |
| LinuxSenders.LinuxSender.ProbePairChallenged | internal/signed/sender_linux.go:319-365 | result, probes sent and sequence numbers used are those specified |
| LinuxSenders.LinuxSender.RecvAndFire | internal/signed/sender_linux.go:185-210 | probe 1 is fired exactly when size and sequence number fit, and the datagram stays in the buffer |
| LinuxSenders.LinuxSender.ProbePairUnchallenged | internal/signed/sender_linux.go:140-311 | result, probes sent and sequence numbers used are those specified, with Reply 0 parsed from a buffer nothing has overwritten |
| Recovery.ExpiresIffTimed | internal/signed/reflector_linux.go:227-245 | once its time is up a record makes room for a new pair exactly when it is not in the middle of one or holds a transmit time |
| Recovery.TimedIffSomeReplySent | internal/signed/reflector_linux.go:315-321 | in every run a record holds a transmit time exactly when its sender was sent some reply since it was last removed |
| Recovery.UnsentIssueKeepsOldTime | internal/signed/reflector_linux.go:242-321 | a nonce issued while the offsets do not fit is not sent and leaves the old transmit time, so the pair goes stale five seconds after that earlier transmission, and never if there was none |
| Recovery.UntimedPairShutsOutOthers | internal/signed/reflector_linux.go:242-264 | a pair in a record without a transmit time drops every probe from another address, however late |
| Recovery.HonestPairIsChallenged | internal/signed/reflector_linux.go:227-291 | from every reachable state whose record for the key has expired, an undisturbed honest pair is issued a nonce and then challenged |
| Recovery.HonestPairCompletes | internal/signed/sender_linux.go:319-365 | in the closed system, where the anchor receives exactly what the sender puts on the wire and the sender what the anchor answers, such a pair sends both probes and returns both replies: Reply 1 challenged, with the interval, and both verifying |
| Geo.BoundIsMonotone | internal/geo/distance.go:58-63 | a longer round trip never gives a smaller bound |
| Geo.BoundIsTwoWayLight | internal/geo/distance.go:30-63 | a distance is within the bound exactly when light, at 299 792 458 m/s, can cover it twice in the round trip |
| Geo.SumKeepsBoundIff | internal/signed/reflector_linux.go:310-313 | an interval added to an RTT modulo 2^64 still bounds what the interval bounds if and only if it is zero or the sum fits a signed duration |
| Geo.FreshMeasurementBound | internal/geo/distance.go:58-63 | a measurement that did not go stale bounds the distance by 749 481 145 metres |
| Geo.DurationOfCount | cmd/attester/main.go:245 | an interval sent as an unsigned count is read back as the duration it was |
| Distance.RoundTripBoundsHolder | internal/signed/reflector_linux.go:270-289 | a signature over a fresh nonce is back at the anchor no sooner than light goes to some holder of the key and returns |
| Distance.AuthenticReplyWasSent | internal/signed/sender_linux.go:449-471 | a reply that passes the sender's checks is one the anchor sent, up to its signature bytes |
| Distance.ChallengedIntervalBoundsHolder | internal/signed/packet.go:134-156 | some holder of the key in an authentic challenged reply is within the provable distance of its interval, in every run and against every network |
| Distance.ChallengedRttBoundsHolder | internal/geo/distance.go:52-63 | the same of the RTT reported, whenever the interval is zero or its sum with the offset's RTT is at most 2^63 - 1 |
| Distance.SuccessfulPairBoundsHolder | internal/signed/sender_linux.go:319-365 | the same of every successful challenged pair whose Reply 1 carries the flag and is not excepted by that sum |
| Attainment.PairIsIdealised | internal/signed/reflector_linux.go:266-322 | the theorem's assumptions are met by a concrete challenged pair, for every holder and every interval its bound allows |
| Attainment.EveryAllowedIntervalOccurs | internal/geo/distance.go:52-63 | the bound is exact: every interval of at most five seconds whose bound reaches a holder of the key is reported in an authentic challenged reply of some run, with any offsets that fit |
| Attainment.RttBoundIff | internal/signed/reflector_linux.go:310-313 | for given offsets and interval, the reported RTT bounds the distance in every idealised run if and only if the interval is zero or its sum with the offset's RTT is at most 2^63 - 1 |
| Keys.ParseIff | internal/keys/keys.go:96-108 | a text parses to a key exactly when, trimmed and in lower case, it is the key's own rendering |
| Keys.ParseFailsIff | internal/keys/keys.go:96-108 | otherwise it is no hexadecimal, or that of another number of bytes than 32, and the error says which |
| Keys.HexAlphabet | internal/keys/keys.go:91-100 | the sixteen digits, and the two alphabets they are read from |
| Keys.HexByPosition | internal/keys/keys.go:91-93 | every byte is rendered as two digits, the high one first |
| Keys.ParseOfFormat | internal/keys/keys.go:91-108 | a rendered key parses to itself, whatever space surrounds it |
| Keys.SpaceIff | internal/keys/keys.go:98 | the characters that count as space, by code point |
| Allowlist.LineKeyIff | internal/keys/keys.go:127-155 | a line yields a key exactly when it is space, the key in either case, and then nothing, a comment or a label set off by space |
| Allowlist.BlankIff | internal/keys/keys.go:129-135 | a line is passed over exactly when there is only space before its end or its comment |
| Allowlist.ReadableIff | internal/keys/keys.go:110-139 | a line loads exactly when it fits the scanner and is blank or names a key |
| Allowlist.LineLimit | internal/keys/keys.go:126-149 | a line of spaces loads if and only if it has at most 65535 |
| Allowlist.LoadAllowlist | internal/keys/keys.go:123-150 | either all lines could be read and the result is their keys without repeats, in order of first occurrence, or the error is that of the first line that could not, and there is no list |
| Allowlist.RenderedAllowlistReads | internal/keys/keys.go:110-150 | whatever blank lines, comments, labels and repeats surround the keys, a rendered allowlist reads without error as exactly those keys |
| Allowlist.LastNewlineOptional | internal/keys/keys.go:126-128 | a missing newline at the end makes no difference |
| Occurrences.FirstOccurrencesAreAll | internal/keys/keys.go:140-144 | dropping repeats loses no key and adds none |
| Occurrences.FirstOccurrencesAreOrdered | internal/keys/keys.go:140-144 | each key is kept once, in order of first occurrence |

## Left out

- Sockets, epoll, control-message parsing, busy-poll timing, thread locking and shutdown: a receive loop reads a script of what each turn finds, and a datagram carries its timestamp.
- Delivery: a reply counts as sent when it is handed to the socket, as in the source, which times it before the call and ignores the call's error beyond logging.
- Ed25519 and the random source: an arbitrary signing and checking function, and nonce draws as inputs.
- IEEE arithmetic: coordinates are carried as bit patterns, and the distance bound is over the reals, so its floating-point rounding is not modelled.
- Concurrency inside one packet step beyond its two halves: in `Straddling` the allowlist check is one step, and loading, updating and answering are another; elsewhere packet steps are whole.
- The anchor's clock: kernel receive times and `time.Now()` are taken to be one clock. A step of that clock shows as receive times out of order, which the theorems that need order exclude.
- Counter width: the pair counter is unbounded. Without a verify interval the source's 64-bit counter would wrap after 2^63 answers.
- Aliasing between the references of two offsets, and spare capacity that `append` may reuse: references are values.
- `Probe`, the single-probe entry point: one exchange of those `ProbePair` makes.
- `CalibratedDistance`: a heuristic with no promise to prove.
- `ParseIP` and `FormatIP`: thin wrappers over the standard library.
- Key files: reading, generating and permissions. Of the allowlist only the text is modelled, as the Unicode characters of valid UTF-8, with the 64 KiB limit of the line scanner.
- Error texts: errors are constructors with the numbers the texts report.
- Flags, tickers, logging and JSON of the two commands.
