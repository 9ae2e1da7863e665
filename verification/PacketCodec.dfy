/** The probe and reply codecs are bijections, and what they sign is unambiguous. */
module PacketCodec {
  import opened Wrappers
  import opened ByteCodec
  import opened Layout
  import opened Signing
  import opened Packet
  import OffsetFormat
  import OffsetCodec

  // Probes.

  lemma ProbeRoundTrip(p: ProbePacket)
    ensures |ProbeBytes(p)| == PROBE_SIZE
    ensures ParseProbe(ProbeBytes(p)) == Some(p)
  {
    ProbeLayoutStarts();
    CutOfConcat(ProbeFields(p), PROBE_LAYOUT, []);
    assert ProbeBytes(p) + [] == ProbeBytes(p);
    Be32RoundTrip(p.sequence);
    Be32RoundTrip(p.sec);
    Be32RoundTrip(p.frac);
  }

  lemma ProbeRoundTripBack(data: Bytes)
    requires ParseProbe(data).Some?
    ensures ProbeBytes(ParseProbe(data).value) == data
  {
    ProbeLayoutStarts();
    var f, p := Cut(data, PROBE_LAYOUT), ParseProbe(data).value;
    ConcatOfCut(data, PROBE_LAYOUT);
    Be32RoundTripBack(f[0]);
    Be32RoundTripBack(f[1]);
    Be32RoundTripBack(f[2]);
    assert ProbeFields(p) == f;
    assert data[..PROBE_SIZE] == data;
  }

  lemma {:induction false} ConcatAppend(a: seq<Bytes>, b: seq<Bytes>)
    ensures Concat(a + b) == Concat(a) + Concat(b)
  {
    if a == [] {
      assert a + b == b;
    } else {
      ConcatAppend(a[1..], b);
      assert (a + b)[1..] == a[1..] + b && (a + b)[0] == a[0];
      OffsetCodec.Associative(a[0], Concat(a[1..]), Concat(b));
    }
  }

  /** A probe on the wire is its signed payload and then its signature. */
  lemma ProbeIsPayloadThenSignature(p: ProbePacket)
    ensures |ProbePayload(p)| == PROBE_PAYLOAD_SIZE
    ensures ProbeBytes(p) == ProbePayload(p) + p.signature
  {
    ConcatAppend(ProbeSignedFields(p), [p.signature]);
    assert Concat([p.signature]) == p.signature + Concat([]);
    ProbeRoundTrip(p);
  }

  /** The signed payload determines the probe up to its signature. */
  lemma ProbePayloadDeterminesProbe(p: ProbePacket, q: ProbePacket)
    requires ProbePayload(p) == ProbePayload(q)
    ensures p.(signature := q.signature) == q
  {
    var r := p.(signature := q.signature);
    ProbeIsPayloadThenSignature(r);
    ProbeIsPayloadThenSignature(q);
    assert ProbePayload(r) == ProbePayload(p);
    ProbeRoundTrip(r);
    ProbeRoundTrip(q);
  }

  // The nonce in the timestamp fields.

  /** A challenged probe presents exactly the nonce it was made from, and is properly signed. */
  lemma ChallengedProbePresentsNonce(sequence: Uint32, signer: Signer, nonce: Uint64, verify: Verifier)
    requires Honours(verify, signer)
    ensures PresentedNonce(NewChallengedProbe(sequence, signer, nonce)) == nonce
    ensures ProbeVerifies(verify, NewChallengedProbe(sequence, signer, nonce))
  {
    var p := NewChallengedProbe(sequence, signer, nonce);
    assert ProbePayload(p) == ProbePayload(p.(signature := Zeros(64)));
  }

  // Replies.

  /** Blobs of the right size fill their slots. */
  lemma {:induction false} SlotsOfBlobs(blobs: seq<Bytes>, under: Bytes)
    requires |under| >= BLOB_SIZE * |blobs|
    requires forall i | 0 <= i < |blobs| :: |blobs[i]| == BLOB_SIZE
    ensures Slots(blobs, under) == Concat(blobs)
  {
    if blobs != [] {
      SlotsOfBlobs(blobs[1..], under[BLOB_SIZE..]);
      assert blobs[0][..BLOB_SIZE] == blobs[0];
    }
  }

  lemma {:induction false} BlobsOfConcat(blobs: seq<Bytes>, rest: Bytes)
    requires forall i | 0 <= i < |blobs| :: |blobs[i]| == BLOB_SIZE
    ensures |Concat(blobs)| == BLOB_SIZE * |blobs|
    ensures Blobs(Concat(blobs) + rest, |blobs|) == blobs
  {
    if blobs != [] {
      var tail := Concat(blobs[1..]) + rest;
      BlobsOfConcat(blobs[1..], rest);
      FirstBlob(blobs[0], tail, |blobs|);
      assert Concat(blobs) + rest == blobs[0] + tail;
      assert blobs == [blobs[0]] + blobs[1..];
    }
  }

  lemma FirstBlob(blob: Bytes, tail: Bytes, count: nat)
    requires |blob| == BLOB_SIZE && count > 0 && |tail| >= (count - 1) * BLOB_SIZE
    ensures Blobs(blob + tail, count) == [blob] + Blobs(tail, count - 1)
  {
    assert (blob + tail)[..BLOB_SIZE] == blob && (blob + tail)[BLOB_SIZE..] == tail;
  }

  lemma {:induction false} ConcatOfBlobs(data: Bytes, count: nat)
    requires |data| >= count * BLOB_SIZE
    ensures Concat(Blobs(data, count)) == data[..count * BLOB_SIZE]
  {
    if count > 0 {
      ConcatOfBlobs(data[BLOB_SIZE..], count - 1);
      var blobs := Blobs(data, count);
      assert blobs[1..] == Blobs(data[BLOB_SIZE..], count - 1);
      assert data[..count * BLOB_SIZE] == data[..BLOB_SIZE] + data[BLOB_SIZE..][..(count - 1) * BLOB_SIZE];
    }
  }

  /** Offsets of the right size leave nothing of the buffer they are marshalled over. */
  lemma PayloadOfWellFormed(r: ReplyPacket, under: Bytes)
    requires OffsetsOk(r.offsets) && |under| >= PayloadSize(r)
    ensures PayloadOver(r, under) == Concat(ReplyFields(r)) + Concat(r.offsets)
    ensures |PayloadOver(r, under)| == PayloadSize(r)
  {
    SlotsOfBlobs(r.offsets, under[REPLY_HEADER_SIZE..]);
    BlobsOfConcat(r.offsets, []);
    ReplyLayoutStarts();
    ConcatLength(ReplyFields(r), REPLY_LAYOUT);
  }

  lemma CountByteRoundTrip(count: nat, challenged: bool)
    requires count <= MAX_OFFSETS
    ensures CountByte(count, challenged) % CHALLENGED_BIT == count
    ensures CountByte(count, challenged) >= CHALLENGED_BIT <==> challenged
  {
  }

  lemma ReplyFieldsRoundTrip(r: ReplyPacket)
    requires |r.offsets| <= MAX_OFFSETS
    ensures ReplyFromFields(ReplyFields(r), r.offsets, r.signature) == r
  {
    var f := ReplyFields(r);
    assert f[0] == PutBe32(r.probe.sequence) && f[1] == PutBe32(r.probe.sec) && f[2] == PutBe32(r.probe.frac);
    Be32RoundTrip(r.probe.sequence);
    Be32RoundTrip(r.probe.sec);
    Be32RoundTrip(r.probe.frac);
    assert ProbeFromFields(f) == r.probe;
    Be64RoundTrip(r.measurementSlot);
    Be64RoundTrip(r.lat);
    Be64RoundTrip(r.lng);
    Be64RoundTrip(r.sinceLastRxNs);
    Be64RoundTrip(r.rttNs);
    CountByteRoundTrip(|r.offsets|, r.challenged);
  }

  lemma ReplyFieldsRoundTripBack(f: seq<Bytes>, offsets: seq<Bytes>, signature: Signature)
    requires HasWidths(f, REPLY_LAYOUT) && f[12][0] % CHALLENGED_BIT == |offsets|
    ensures ReplyFields(ReplyFromFields(f, offsets, signature)) == f
  {
    var r := ReplyFromFields(f, offsets, signature);
    Be32RoundTripBack(f[0]);
    Be32RoundTripBack(f[1]);
    Be32RoundTripBack(f[2]);
    assert ProbeFields(r.probe) == f[..5];
    Be64RoundTripBack(f[7]);
    Be64RoundTripBack(f[8]);
    Be64RoundTripBack(f[9]);
    Be64RoundTripBack(f[10]);
    Be64RoundTripBack(f[11]);
    assert f[12] == [CountByte(|offsets|, r.challenged)];
    assert f == f[..5] + [f[5], f[6], f[7], f[8], f[9], f[10], f[11], f[12]];
  }

  lemma ParseReplyFrom(data: Bytes, offsets: seq<Bytes>, signature: Signature)
    requires |data| == REPLY_HEADER_SIZE + |offsets| * BLOB_SIZE + SIGNATURE_SIZE
    requires data[212] % CHALLENGED_BIT == |offsets| <= MAX_OFFSETS
    requires Blobs(data[REPLY_HEADER_SIZE..], |offsets|) == offsets && data[|data| - SIGNATURE_SIZE..] == signature
    requires Sum(REPLY_LAYOUT) <= |data|
    ensures ParseReply(data) == Some(ReplyFromFields(Cut(data, REPLY_LAYOUT), offsets, signature))
  {
  }

  lemma CountByteAt(f: seq<Bytes>, rest: Bytes)
    requires HasWidths(f, REPLY_LAYOUT)
    ensures |Concat(f)| == REPLY_HEADER_SIZE && Concat(f)[212] == f[12][0]
    ensures Sum(REPLY_LAYOUT) == REPLY_HEADER_SIZE && Cut(Concat(f) + rest, REPLY_LAYOUT) == f
  {
    var data := Concat(f) + rest;
    ReplyLayoutStarts();
    CutOfConcat(f, REPLY_LAYOUT, rest);
    FieldAt(data, REPLY_LAYOUT, 12);
    assert data[212..213][0] == data[212];
  }

  /** Parsing fields, blobs and signature laid end to end. */
  lemma ParseReplyOfParts(f: seq<Bytes>, offsets: seq<Bytes>, signature: Signature)
    requires HasWidths(f, REPLY_LAYOUT) && OffsetsOk(offsets) && f[12][0] % CHALLENGED_BIT == |offsets|
    ensures ParseReply(Concat(f) + (Concat(offsets) + signature)) == Some(ReplyFromFields(f, offsets, signature))
  {
    var rest := Concat(offsets) + signature;
    var data := Concat(f) + rest;
    CountByteAt(f, rest);
    BlobsOfConcat(offsets, signature);
    assert data[REPLY_HEADER_SIZE..] == rest;
    assert data[|data| - SIGNATURE_SIZE..] == signature;
    ParseReplyFrom(data, offsets, signature);
  }

  /** A well-formed reply is read back from its bytes, whatever buffer it was marshalled over. */
  lemma ReplyRoundTrip(r: ReplyPacket, under: Bytes)
    requires OffsetsOk(r.offsets) && |under| >= PayloadSize(r)
    ensures ParseReply(PayloadOver(r, under) + r.signature) == Some(r)
  {
    var head, blobs := Concat(ReplyFields(r)), Concat(r.offsets);
    PayloadOfWellFormed(r, under);
    assert PayloadOver(r, under) + r.signature == head + (blobs + r.signature);
    CountByteRoundTrip(|r.offsets|, r.challenged);
    ParseReplyOfParts(ReplyFields(r), r.offsets, r.signature);
    ReplyFieldsRoundTrip(r);
  }

  /** Every accepted buffer is the marshalled form of the well-formed reply it parses to. */
  lemma ReplyRoundTripBack(data: Bytes)
    requires ParseReply(data).Some?
    ensures OffsetsOk(ParseReply(data).value.offsets)
    ensures ReplyBytes(ParseReply(data).value) == data
    ensures ReplySize(ParseReply(data).value) == |data|
  {
    var r, count := ParseReply(data).value, data[212] % CHALLENGED_BIT;
    ReplyLayoutStarts();
    ConcatOfCut(data, REPLY_LAYOUT);
    FieldAt(data, REPLY_LAYOUT, 12);
    assert data[212] == data[212..213][0];
    ReplyFieldsRoundTripBack(Cut(data, REPLY_LAYOUT), r.offsets, r.signature);
    ConcatOfBlobs(data[REPLY_HEADER_SIZE..], count);
    PayloadOfWellFormed(r, Zeros(PayloadSize(r)));
    assert data == data[..REPLY_HEADER_SIZE] + data[REPLY_HEADER_SIZE..][..count * BLOB_SIZE] + data[|data| - SIGNATURE_SIZE..];
  }

  /** Marshalling then parsing gives a reply back exactly when its offsets are well formed. */
  lemma ReplyRoundTripIff(r: ReplyPacket)
    ensures ParseReply(ReplyBytes(r)) == Some(r) <==> OffsetsOk(r.offsets)
  {
    if OffsetsOk(r.offsets) {
      ReplyRoundTrip(r, Zeros(PayloadSize(r)));
    } else if ParseReply(ReplyBytes(r)) == Some(r) {
      ReplyRoundTripBack(ReplyBytes(r));
    }
  }

  /** Among well-formed replies the signed payload determines the reply up to its signature. */
  lemma ReplyPayloadDeterminesReply(r: ReplyPacket, s: ReplyPacket)
    requires OffsetsOk(r.offsets) && OffsetsOk(s.offsets) && ReplyPayload(r) == ReplyPayload(s)
    ensures r.(signature := s.signature) == s
  {
    var q := r.(signature := s.signature);
    assert ReplyPayload(q) == ReplyPayload(r);
    ReplyRoundTrip(q, Zeros(PayloadSize(q)));
    ReplyRoundTrip(s, Zeros(PayloadSize(s)));
  }

  /** Re-encoding what was received gives the signed bytes verbatim, so a wire trip cannot change the verdict. */
  lemma WireTripKeepsVerdict(verify: Verifier, data: Bytes)
    requires ParseReply(data).Some?
    ensures var r := ParseReply(data).value;
            && ReplyPayload(r) == data[..|data| - SIGNATURE_SIZE] && r.signature == data[|data| - SIGNATURE_SIZE..]
            && (ReplyVerifies(verify, r)
                <==> verify(r.authorityPubkey, data[..|data| - SIGNATURE_SIZE], data[|data| - SIGNATURE_SIZE..]))
  {
    var r := ParseReply(data).value;
    ReplyRoundTripBack(data);
    PayloadOfWellFormed(r, Zeros(PayloadSize(r)));
    assert data[..|data| - SIGNATURE_SIZE] == ReplyPayload(r);
  }

  /** A reply made from fitting offsets verifies under its maker's key and carries the fields it was given. */
  lemma NewReplyVerifies(r: ReplyPacket, signer: Signer, verify: Verifier)
    requires Honours(verify, signer)
    ensures NewReply(r, signer).Ok? <==> OffsetsOk(r.offsets)
    ensures NewReply(r, signer).Ok? ==>
              && ReplyVerifies(verify, NewReply(r, signer).value)
              && NewReply(r, signer).value.authorityPubkey == signer.pub
              && NewReply(r, signer).value.(authorityPubkey := r.authorityPubkey, signature := r.signature) == r
  {
    var named := r.(authorityPubkey := signer.pub);
    assert ReplyPayload(SignReply(r, signer)) == ReplyPayload(named);
  }

  /** The three signed formats never coincide: their lengths differ modulo 174. */
  lemma SignedFormatsDisjoint(p: ProbePacket, r: ReplyPacket, o: OffsetFormat.OffsetTree)
    requires OffsetsOk(r.offsets)
    ensures ProbePayload(p) != ReplyPayload(r)
    ensures ReplyPayload(r) != OffsetFormat.SigningBytes(o)
    ensures ProbePayload(p) != OffsetFormat.SigningBytes(o)
  {
    ProbeIsPayloadThenSignature(p);
    PayloadOfWellFormed(r, Zeros(PayloadSize(r)));
    OffsetCodec.LengthOfEncoding(o);
    assert |OffsetFormat.SigningBytes(o)| == BLOB_SIZE * (1 + OffsetFormat.CountReferences(o)) - 64;
    assert |ReplyPayload(r)| == REPLY_HEADER_SIZE + BLOB_SIZE * |r.offsets|;
  }

  /** The positional reader agrees with the recursive format on every encoded offset. */
  lemma OffsetInfoAgrees(o: OffsetFormat.OffsetTree)
    ensures ParseOffsetInfo(OffsetFormat.Encode(o))
         == Some(OffsetInfo(o.observedAt, o.lat, o.lng, o.rttNs, o.targetIP))
  {
    var data := OffsetFormat.Encode(o);
    OffsetCodec.EncodeSplits(o, []);
    assert data + [] == data;
    OffsetCodec.ReadNode(o, o.references);
    OffsetCodec.NodeAtFront(OffsetCodec.NodeBytes(o), OffsetFormat.EncodeAll(o.references) + [], o.references);
  }
}
