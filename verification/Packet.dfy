/**
 The probe and reply formats: their bytes, their readers, and what is signed.
 Latitude and longitude are the 64-bit patterns that go on the wire.
 */
module Packet {
  import opened Wrappers
  import opened ByteCodec
  import opened Layout
  import opened Signing

  const PROBE_SIZE: nat := 108
  const PROBE_PAYLOAD_SIZE: nat := 44
  const BLOB_SIZE: nat := 174
  const MAX_OFFSETS: nat := 5
  const REPLY_HEADER_SIZE: nat := 213
  const SIGNATURE_SIZE: nat := 64
  const MIN_REPLY_SIZE: nat := REPLY_HEADER_SIZE + SIGNATURE_SIZE
  const MAX_REPLY_SIZE: nat := REPLY_HEADER_SIZE + MAX_OFFSETS * BLOB_SIZE + SIGNATURE_SIZE
  const CHALLENGED_BIT: nat := 0x80

  datatype ProbePacket = ProbePacket(
    sequence: Uint32,
    sec: Uint32,
    frac: Uint32,
    senderPubkey: Key,
    signature: Signature)

  datatype ReplyPacket = ReplyPacket(
    probe: ProbePacket,
    authorityPubkey: Key,
    geoprobePubkey: Key,
    measurementSlot: Uint64,
    lat: Uint64,
    lng: Uint64,
    sinceLastRxNs: Uint64,
    rttNs: Uint64,
    offsets: seq<Bytes>,
    challenged: bool,
    signature: Signature)

  // Probes.

  /** Sequence, seconds, fraction, sender, signature. */
  const PROBE_LAYOUT: seq<nat> := [4, 4, 4] + [32, 64]

  function ProbeSignedFields(p: ProbePacket): (fields: seq<Bytes>)
    ensures HasWidths(fields + [p.signature], PROBE_LAYOUT)
  {
    [PutBe32(p.sequence), PutBe32(p.sec), PutBe32(p.frac), p.senderPubkey]
  }

  function ProbeFields(p: ProbePacket): (fields: seq<Bytes>)
    ensures HasWidths(fields, PROBE_LAYOUT)
  {
    ProbeSignedFields(p) + [p.signature]
  }

  /** The bytes a sender signs. */
  function ProbePayload(p: ProbePacket): Bytes {
    Concat(ProbeSignedFields(p))
  }

  function ProbeBytes(p: ProbePacket): Bytes {
    Concat(ProbeFields(p))
  }

  function ProbeFromFields(f: seq<Bytes>): ProbePacket
    requires |f| >= 5 && |f[0]| == |f[1]| == |f[2]| == 4 && |f[3]| == 32 && |f[4]| == 64
  {
    ProbePacket(Be32(f[0]), Be32(f[1]), Be32(f[2]), f[3], f[4])
  }

  lemma ProbeLayoutStarts()
    ensures Sum(PROBE_LAYOUT) == PROBE_SIZE
    ensures Start(PROBE_LAYOUT, 1) == 4 && Start(PROBE_LAYOUT, 2) == 8
    ensures Start(PROBE_LAYOUT, 3) == 12 && Start(PROBE_LAYOUT, 4) == 44
  {
    assert Start(PROBE_LAYOUT, 0) == 0;
    assert Start(PROBE_LAYOUT, 1) == 4;
    assert Start(PROBE_LAYOUT, 2) == 8;
    assert Start(PROBE_LAYOUT, 3) == 12;
    assert Start(PROBE_LAYOUT, 4) == 44;
    StartOfEnd(PROBE_LAYOUT);
  }

  function ParseProbe(data: Bytes): Option<ProbePacket> {
    if |data| != PROBE_SIZE then None
    else
      ProbeLayoutStarts();
      Some(ProbeFromFields(Cut(data, PROBE_LAYOUT)))
  }

  predicate ProbeVerifies(verify: Verifier, p: ProbePacket) {
    verify(p.senderPubkey, ProbePayload(p), p.signature)
  }

  // Replies.

  /** The probe's fields, then authority, geoprobe, slot, lat, lng, since-last-rx, RTT, count and flag. */
  const REPLY_LAYOUT: seq<nat> := PROBE_LAYOUT + [32, 32, 8, 8, 8, 8, 8, 1]

  /** The offset count in the low seven bits, the challenged flag in the top one. */
  function CountByte(count: nat, challenged: bool): Byte {
    var low := count % 256;
    if challenged && low < CHALLENGED_BIT then low + CHALLENGED_BIT else low
  }

  function ReplyFields(r: ReplyPacket): (fields: seq<Bytes>)
    ensures HasWidths(fields, REPLY_LAYOUT)
  {
    ProbeFields(r.probe)
    + [r.authorityPubkey, r.geoprobePubkey,
       PutBe64(r.measurementSlot), PutBe64(r.lat), PutBe64(r.lng), PutBe64(r.sinceLastRxNs), PutBe64(r.rttNs),
       [CountByte(|r.offsets|, r.challenged)]]
  }

  /** One offset slot after `copy(slot, blob)`: a short blob leaves the slot's tail as it was. */
  function Slot(blob: Bytes, under: Bytes): (s: Bytes)
    requires |under| == BLOB_SIZE
    ensures |s| == BLOB_SIZE
  {
    if |blob| >= BLOB_SIZE then blob[..BLOB_SIZE] else blob + under[|blob|..]
  }

  function Slots(blobs: seq<Bytes>, under: Bytes): (s: Bytes)
    requires |under| >= BLOB_SIZE * |blobs|
    ensures |s| == BLOB_SIZE * |blobs|
  {
    if blobs == [] then []
    else Slot(blobs[0], under[..BLOB_SIZE]) + Slots(blobs[1..], under[BLOB_SIZE..])
  }

  function PayloadSize(r: ReplyPacket): nat {
    REPLY_HEADER_SIZE + |r.offsets| * BLOB_SIZE
  }

  function ReplySize(r: ReplyPacket): nat {
    PayloadSize(r) + SIGNATURE_SIZE
  }

  /** The signed portion, marshalled over a buffer that held `under`. */
  function PayloadOver(r: ReplyPacket, under: Bytes): Bytes
    requires |under| >= PayloadSize(r)
  {
    Concat(ReplyFields(r)) + Slots(r.offsets, under[REPLY_HEADER_SIZE..])
  }

  /** The bytes the anchor signs: the payload marshalled over a zeroed buffer. */
  function ReplyPayload(r: ReplyPacket): Bytes {
    PayloadOver(r, Zeros(PayloadSize(r)))
  }

  /** The reply on the wire, marshalled over a zeroed buffer. */
  function ReplyBytes(r: ReplyPacket): Bytes {
    ReplyPayload(r) + r.signature
  }

  predicate OffsetsOk(offsets: seq<Bytes>) {
    |offsets| <= MAX_OFFSETS && forall i | 0 <= i < |offsets| :: |offsets[i]| == BLOB_SIZE
  }

  lemma ReplyLayoutStarts()
    ensures |REPLY_LAYOUT| == 13 && Sum(REPLY_LAYOUT) == REPLY_HEADER_SIZE
    ensures Start(REPLY_LAYOUT, 5) == 108 && Start(REPLY_LAYOUT, 6) == 140 && Start(REPLY_LAYOUT, 7) == 172
    ensures Start(REPLY_LAYOUT, 8) == 180 && Start(REPLY_LAYOUT, 9) == 188 && Start(REPLY_LAYOUT, 10) == 196
    ensures Start(REPLY_LAYOUT, 11) == 204 && Start(REPLY_LAYOUT, 12) == 212
  {
    assert Start(REPLY_LAYOUT, 0) == 0;
    assert Start(REPLY_LAYOUT, 1) == 4;
    assert Start(REPLY_LAYOUT, 2) == 8;
    assert Start(REPLY_LAYOUT, 3) == 12;
    assert Start(REPLY_LAYOUT, 4) == 44;
    assert Start(REPLY_LAYOUT, 5) == 108;
    assert Start(REPLY_LAYOUT, 6) == 140;
    assert Start(REPLY_LAYOUT, 7) == 172;
    assert Start(REPLY_LAYOUT, 8) == 180;
    assert Start(REPLY_LAYOUT, 9) == 188;
    assert Start(REPLY_LAYOUT, 10) == 196;
    assert Start(REPLY_LAYOUT, 11) == 204;
    assert Start(REPLY_LAYOUT, 12) == 212;
    StartOfEnd(REPLY_LAYOUT);
  }

  /** The first `count` blobs of `data`. */
  function Blobs(data: Bytes, count: nat): (blobs: seq<Bytes>)
    requires |data| >= count * BLOB_SIZE
    ensures |blobs| == count
    ensures forall i | 0 <= i < count :: |blobs[i]| == BLOB_SIZE
  {
    if count == 0 then [] else [data[..BLOB_SIZE]] + Blobs(data[BLOB_SIZE..], count - 1)
  }

  function ReplyFromFields(f: seq<Bytes>, offsets: seq<Bytes>, signature: Signature): ReplyPacket
    requires HasWidths(f, REPLY_LAYOUT)
  {
    ReplyPacket(
      ProbeFromFields(f), f[5], f[6], Be64(f[7]), Be64(f[8]), Be64(f[9]), Be64(f[10]), Be64(f[11]),
      offsets, f[12][0] >= CHALLENGED_BIT, signature)
  }

  function ParseReply(data: Bytes): Option<ReplyPacket> {
    if |data| < MIN_REPLY_SIZE then None
    else
      var count := data[212] % CHALLENGED_BIT;
      if count > MAX_OFFSETS then None
      else if |data| != REPLY_HEADER_SIZE + count * BLOB_SIZE + SIGNATURE_SIZE then None
      else
        ReplyLayoutStarts();
        Some(ReplyFromFields(
               Cut(data, REPLY_LAYOUT),
               Blobs(data[REPLY_HEADER_SIZE..], count),
               data[|data| - SIGNATURE_SIZE..]))
  }

  predicate ReplyVerifies(verify: Verifier, r: ReplyPacket) {
    verify(r.authorityPubkey, ReplyPayload(r), r.signature)
  }

  // Building packets.

  /** A signed probe carrying the given 64 bits where the timestamp goes. */
  function NewProbe(sequence: Uint32, signer: Signer, sec: Uint32, frac: Uint32): ProbePacket {
    var p := ProbePacket(sequence, sec, frac, signer.pub, Zeros(64));
    p.(signature := signer.sign(ProbePayload(p)))
  }

  /** The second probe of a challenged pair: the nonce in place of the timestamp. */
  function NewChallengedProbe(sequence: Uint32, signer: Signer, nonce: Uint64): ProbePacket {
    NewProbe(sequence, signer, nonce / TWO_TO_THE_32, nonce % TWO_TO_THE_32)
  }

  /** The 64 bits a reflector compares with the nonce it issued. */
  function PresentedNonce(p: ProbePacket): Uint64 {
    p.sec * TWO_TO_THE_32 + p.frac
  }

  datatype ReplyError = TooManyOffsets(count: nat) | WrongSize(index: nat, size: nat)

  /** The first offset of the wrong size, if any. */
  function FirstWrongSize(offsets: seq<Bytes>, index: nat): (r: Option<ReplyError>)
    requires index <= |offsets|
    ensures r.None? <==> forall i | index <= i < |offsets| :: |offsets[i]| == BLOB_SIZE
    decreases |offsets| - index
  {
    if index == |offsets| then None
    else if |offsets[index]| != BLOB_SIZE then Some(WrongSize(index, |offsets[index]|))
    else FirstWrongSize(offsets, index + 1)
  }

  function OffsetsError(offsets: seq<Bytes>): (r: Option<ReplyError>)
    ensures r.None? <==> OffsetsOk(offsets)
  {
    if |offsets| > MAX_OFFSETS then Some(TooManyOffsets(|offsets|)) else FirstWrongSize(offsets, 0)
  }

  function SignReply(r: ReplyPacket, signer: Signer): ReplyPacket {
    var named := r.(authorityPubkey := signer.pub);
    named.(signature := signer.sign(ReplyPayload(named)))
  }

  /** A signed reply, or the reason the offsets do not fit in one; `r` supplies the other fields. */
  function NewReply(r: ReplyPacket, signer: Signer): Result<ReplyPacket, ReplyError> {
    match OffsetsError(r.offsets)
    case Some(e) => Err(e)
    case None => Ok(SignReply(r, signer))
  }

  // Reading an offset blob by position.

  datatype OffsetInfo = OffsetInfo(measurementSlot: Uint64, lat: Uint64, lng: Uint64, rttNs: Uint64, targetIP: Bytes4)

  function ParseOffsetInfo(blob: Bytes): Option<OffsetInfo> {
    if |blob| < BLOB_SIZE then None
    else
      Some(OffsetInfo(Le64(blob[129..137]), Le64(blob[137..145]), Le64(blob[145..153]), Le64(blob[161..169]), blob[169..173]))
  }
}
