/** Where every byte of an offset, a probe and a reply goes, by position and value. */
module WireLayout {
  import opened Wrappers
  import opened ByteCodec
  import opened Layout
  import opened Signing
  import opened Packet
  import opened PacketCodec
  import OffsetFormat
  import OffsetCodec

  // Offsets.

  lemma NodeFieldsByPosition(fields: seq<Bytes>, tail: Bytes)
    requires HasWidths(fields, OffsetFormat.LAYOUT)
    ensures var d := Concat(fields) + tail;
            && |d| == 174 + |tail| && d[174..] == tail
            && d[0..64] == fields[0] && [d[64]] == fields[1] && d[65..97] == fields[2] && d[97..129] == fields[3]
            && d[129..137] == fields[4] && d[137..145] == fields[5] && d[145..153] == fields[6] && d[153..161] == fields[7]
            && d[161..169] == fields[8] && d[169..173] == fields[9] && [d[173]] == fields[10]
  {
    var d := Concat(fields) + tail;
    OffsetFormat.LayoutStarts();
    CutOfConcat(fields, OffsetFormat.LAYOUT, tail);
    FieldBetween(d, OffsetFormat.LAYOUT, 0, 0, 64, fields[0]);
    FieldBetween(d, OffsetFormat.LAYOUT, 1, 64, 65, fields[1]);
    FieldBetween(d, OffsetFormat.LAYOUT, 2, 65, 97, fields[2]);
    FieldBetween(d, OffsetFormat.LAYOUT, 3, 97, 129, fields[3]);
    FieldBetween(d, OffsetFormat.LAYOUT, 4, 129, 137, fields[4]);
    FieldBetween(d, OffsetFormat.LAYOUT, 5, 137, 145, fields[5]);
    FieldBetween(d, OffsetFormat.LAYOUT, 6, 145, 153, fields[6]);
    FieldBetween(d, OffsetFormat.LAYOUT, 7, 153, 161, fields[7]);
    FieldBetween(d, OffsetFormat.LAYOUT, 8, 161, 169, fields[8]);
    FieldBetween(d, OffsetFormat.LAYOUT, 9, 169, 173, fields[9]);
    FieldBetween(d, OffsetFormat.LAYOUT, 10, 173, 174, fields[10]);
  }

  /** The bytes of an offset, and which of them are signed. */
  lemma OffsetOnWire(o: OffsetFormat.OffsetTree)
    ensures var d := OffsetFormat.Encode(o);
            && |d| >= 174 && d[0..64] == o.signature && d[64] == 1
            && d[65..97] == o.authorityPubkey && d[97..129] == o.senderPubkey
            && IsLe(d[129..137], o.observedAt) && IsLe(d[137..145], o.lat) && IsLe(d[145..153], o.lng)
            && IsLe(d[153..161], o.measuredRttNs) && IsLe(d[161..169], o.rttNs)
            && d[169..173] == o.targetIP && d[173] == |o.references| % 256
            && d[174..] == OffsetFormat.EncodeAll(o.references)
            && d[64..] == OffsetFormat.SigningBytes(o)
  {
    OffsetCodec.EncodeSplits(o, []);
    assert OffsetFormat.Encode(o) + [] == OffsetFormat.Encode(o);
    assert OffsetFormat.EncodeAll(o.references) + [] == OffsetFormat.EncodeAll(o.references);
    NodeFieldsByPosition([o.signature] + OffsetFormat.SignedFields(o), OffsetFormat.EncodeAll(o.references));
    BytesByPosition(0, o.observedAt);
    BytesByPosition(0, o.lat);
    BytesByPosition(0, o.lng);
    BytesByPosition(0, o.measuredRttNs);
    BytesByPosition(0, o.rttNs);
  }

  /** References follow one another, each in full, in order. */
  lemma {:induction false} ReferencesOnWire(before: seq<OffsetFormat.OffsetTree>, o: OffsetFormat.OffsetTree,
                                            after: seq<OffsetFormat.OffsetTree>)
    ensures OffsetFormat.EncodeAll(before + [o] + after)
         == OffsetFormat.EncodeAll(before) + OffsetFormat.Encode(o) + OffsetFormat.EncodeAll(after)
  {
    var all := before + [o] + after;
    if before == [] {
      assert all[0] == o && all[1..] == after;
      assert [] + OffsetFormat.Encode(o) == OffsetFormat.Encode(o);
    } else {
      var first, rest := OffsetFormat.Encode(before[0]), OffsetFormat.EncodeAll(before[1..]);
      ReferencesOnWire(before[1..], o, after);
      assert all[0] == before[0] && all[1..] == before[1..] + [o] + after;
      OffsetCodec.Associative(first, rest, OffsetFormat.Encode(o));
      OffsetCodec.Associative(first, rest + OffsetFormat.Encode(o), OffsetFormat.EncodeAll(after));
    }
  }

  // Probes.

  lemma ProbeFieldsByPosition(p: ProbePacket)
    ensures var d := ProbeBytes(p);
            && |d| == 108 && d[0..4] == PutBe32(p.sequence) && d[4..8] == PutBe32(p.sec) && d[8..12] == PutBe32(p.frac)
            && d[12..44] == p.senderPubkey && d[44..108] == p.signature
  {
    var d, fields := ProbeBytes(p), ProbeFields(p);
    ProbeLayoutStarts();
    CutOfConcat(fields, PROBE_LAYOUT, []);
    assert d + [] == d;
    FieldBetween(d, PROBE_LAYOUT, 0, 0, 4, fields[0]);
    FieldBetween(d, PROBE_LAYOUT, 1, 4, 8, fields[1]);
    FieldBetween(d, PROBE_LAYOUT, 2, 8, 12, fields[2]);
    FieldBetween(d, PROBE_LAYOUT, 3, 12, 44, fields[3]);
    FieldBetween(d, PROBE_LAYOUT, 4, 44, 108, fields[4]);
  }

  /** The bytes of a probe, which of them are signed, and that every 108 bytes are a probe. */
  lemma ProbeOnWire(p: ProbePacket, data: Bytes)
    ensures var d := ProbeBytes(p);
            && |d| == 108 && IsBe(d[0..4], p.sequence) && IsBe(d[4..8], p.sec) && IsBe(d[8..12], p.frac)
            && d[12..44] == p.senderPubkey && d[44..108] == p.signature && ProbePayload(p) == d[..44]
    ensures ParseProbe(data).Some? <==> |data| == 108
  {
    ProbeFieldsByPosition(p);
    ProbeIsPayloadThenSignature(p);
    BytesByPosition(p.sequence, 0);
    BytesByPosition(p.sec, 0);
    BytesByPosition(p.frac, 0);
  }

  /** Bytes 4 to 11 of a probe spell the nonce it presents, most significant first. */
  lemma PresentedNonceOnWire(p: ProbePacket)
    ensures |ProbeBytes(p)| == 108 && IsBe(ProbeBytes(p)[4..12], PresentedNonce(p))
  {
    var d := ProbeBytes(p);
    ProbeOnWire(p, d);
    BigEndianHalves(d[4..8], d[8..12], p.sec, p.frac);
    assert d[4..12] == d[4..8] + d[8..12];
  }

  /** A new probe carries the 64 bits it is given where the timestamp goes, and its signer's key and signature. */
  lemma NewProbeOnWire(sequence: Uint32, signer: Signer, sec: Uint32, frac: Uint32)
    ensures var d := ProbeBytes(NewProbe(sequence, signer, sec, frac));
            && |d| == 108 && IsBe(d[0..4], sequence) && IsBe(d[4..8], sec) && IsBe(d[8..12], frac) && d[12..44] == signer.pub
            && d[44..108] == signer.sign(d[..44])
  {
    var p := NewProbe(sequence, signer, sec, frac);
    ProbeOnWire(p, []);
    assert ProbePayload(p) == ProbePayload(p.(signature := Zeros(64)));
  }

  /** So they do of the nonce a challenged probe was made for. */
  lemma ChallengeOnWire(sequence: Uint32, signer: Signer, nonce: Uint64)
    ensures var d := ProbeBytes(NewChallengedProbe(sequence, signer, nonce));
            && |d| == 108 && IsBe(d[0..4], sequence) && IsBe(d[4..12], nonce) && d[12..44] == signer.pub
            && d[44..108] == signer.sign(d[..44])
  {
    var p := NewChallengedProbe(sequence, signer, nonce);
    PresentedNonceOnWire(p);
    NewProbeOnWire(sequence, signer, nonce / TWO_TO_THE_32, nonce % TWO_TO_THE_32);
    assert PresentedNonce(p) == nonce;
  }

  // Replies.

  lemma HeaderByPosition(fields: seq<Bytes>, tail: Bytes)
    requires HasWidths(fields, REPLY_LAYOUT)
    ensures var d := Concat(fields) + tail;
            && |d| == 213 + |tail| && d[213..] == tail
            && d[108..140] == fields[5] && d[140..172] == fields[6] && d[172..180] == fields[7] && d[180..188] == fields[8]
            && d[188..196] == fields[9] && d[196..204] == fields[10] && d[204..212] == fields[11] && [d[212]] == fields[12]
  {
    var d := Concat(fields) + tail;
    ReplyLayoutStarts();
    CutOfConcat(fields, REPLY_LAYOUT, tail);
    FieldBetween(d, REPLY_LAYOUT, 5, 108, 140, fields[5]);
    FieldBetween(d, REPLY_LAYOUT, 6, 140, 172, fields[6]);
    FieldBetween(d, REPLY_LAYOUT, 7, 172, 180, fields[7]);
    FieldBetween(d, REPLY_LAYOUT, 8, 180, 188, fields[8]);
    FieldBetween(d, REPLY_LAYOUT, 9, 188, 196, fields[9]);
    FieldBetween(d, REPLY_LAYOUT, 10, 196, 204, fields[10]);
    FieldBetween(d, REPLY_LAYOUT, 11, 204, 212, fields[11]);
    FieldBetween(d, REPLY_LAYOUT, 12, 212, 213, fields[12]);
  }

  /** The embedded probe comes first. */
  lemma ReplyStartsWithProbe(r: ReplyPacket, tail: Bytes)
    ensures ProbeBytes(r.probe) <= Concat(ReplyFields(r)) + tail
  {
    var rest := ReplyFields(r)[5..];
    assert ReplyFields(r) == ProbeFields(r.probe) + rest;
    ConcatAppend(ProbeFields(r.probe), rest);
  }

  /** Byte `j` of slot `i` is the blob's, or what the buffer held when the blob is too short. */
  lemma {:induction false} SlotByPosition(blobs: seq<Bytes>, under: Bytes, i: nat, j: nat)
    requires |under| >= 174 * |blobs| && i < |blobs| && j < 174
    ensures Slots(blobs, under)[174 * i + j] == if j < |blobs[i]| then blobs[i][j] else under[174 * i + j]
    decreases i
  {
    var first, rest := Slot(blobs[0], under[..174]), Slots(blobs[1..], under[174..]);
    assert Slots(blobs, under) == first + rest;
    if i > 0 {
      SlotByPosition(blobs[1..], under[174..], i - 1, j);
      assert (first + rest)[174 * i + j] == rest[174 * (i - 1) + j];
    }
  }

  lemma CountByteIs(count: nat, challenged: bool)
    ensures CountByte(count, challenged) == count % 128 + if challenged || count % 256 >= 128 then 128 else 0
  {
  }

  /**
   The signed portion of a reply, whatever its offsets, over whatever buffer.  Its last header byte holds the
   number of offsets in seven bits and the flag in the eighth.
   */
  lemma ReplyOnWire(r: ReplyPacket, under: Bytes)
    requires |under| >= PayloadSize(r)
    ensures PayloadSize(r) == 213 + 174 * |r.offsets|
    ensures var d := PayloadOver(r, under);
            && |d| == 213 + 174 * |r.offsets| && ProbeBytes(r.probe) <= d
            && d[108..140] == r.authorityPubkey && d[140..172] == r.geoprobePubkey
            && IsBe(d[172..180], r.measurementSlot) && IsBe(d[180..188], r.lat) && IsBe(d[188..196], r.lng)
            && IsBe(d[196..204], r.sinceLastRxNs) && IsBe(d[204..212], r.rttNs)
            && d[212] == |r.offsets| % 128 + (if r.challenged || |r.offsets| % 256 >= 128 then 128 else 0)
    ensures forall i, j | 0 <= i < |r.offsets| && 0 <= j < 174 ::
              PayloadOver(r, under)[213 + 174 * i + j]
              == if j < |r.offsets[i]| then r.offsets[i][j] else under[213 + 174 * i + j]
  {
    var slots := Slots(r.offsets, under[213..]);
    HeaderByPosition(ReplyFields(r), slots);
    ReplyStartsWithProbe(r, slots);
    CountByteIs(|r.offsets|, r.challenged);
    ReplyNumbers(r);
    forall i, j | 0 <= i < |r.offsets| && 0 <= j < 174
      ensures PayloadOver(r, under)[213 + 174 * i + j]
           == if j < |r.offsets[i]| then r.offsets[i][j] else under[213 + 174 * i + j]
    {
      SlotByPosition(r.offsets, under[213..], i, j);
    }
  }

  lemma ReplyNumbers(r: ReplyPacket)
    ensures IsBe(PutBe64(r.measurementSlot), r.measurementSlot) && IsBe(PutBe64(r.lat), r.lat) && IsBe(PutBe64(r.lng), r.lng)
    ensures IsBe(PutBe64(r.sinceLastRxNs), r.sinceLastRxNs) && IsBe(PutBe64(r.rttNs), r.rttNs)
  {
    BytesByPosition(0, r.measurementSlot);
    BytesByPosition(0, r.lat);
    BytesByPosition(0, r.lng);
    BytesByPosition(0, r.sinceLastRxNs);
    BytesByPosition(0, r.rttNs);
  }

  /** What is signed is everything before the last 64 bytes, which are the signature. */
  lemma SignatureOnWire(r: ReplyPacket, verify: Verifier)
    requires OffsetsOk(r.offsets)
    ensures var d := ReplyBytes(r);
            && |d| == 277 + 174 * |r.offsets| && d[|d| - 64..] == r.signature
            && (ReplyVerifies(verify, r) <==> verify(d[108..140], d[..|d| - 64], d[|d| - 64..]))
  {
    ReplyOnWire(r, Zeros(PayloadSize(r)));
    var d := ReplyBytes(r);
    assert d[..|d| - 64] == ReplyPayload(r) && d[108..140] == ReplyPayload(r)[108..140];
  }

  /** What an accepted buffer says of itself. */
  lemma AcceptedReply(data: Bytes)
    requires ParseReply(data).Some?
    ensures var r := ParseReply(data).value;
            && |r.offsets| <= 5 && |data| == 277 + 174 * |r.offsets|
            && data[212] == |r.offsets| + if r.challenged then 128 else 0
  {
    var r := ParseReply(data).value;
    ReplyRoundTripBack(data);
    CountOnWire(r);
  }

  lemma CountOnWire(r: ReplyPacket)
    requires OffsetsOk(r.offsets)
    ensures |ReplyBytes(r)| == 277 + 174 * |r.offsets| && ReplyBytes(r)[212] == |r.offsets| + if r.challenged then 128 else 0
  {
    ReplyOnWire(r, Zeros(PayloadSize(r)));
    assert ReplyBytes(r)[212] == ReplyPayload(r)[212];
  }

  /** Exactly the buffers of a reply's size, announcing at most five offsets, are replies. */
  lemma ReplyAcceptedIff(data: Bytes)
    ensures ParseReply(data).Some?
       <==> exists n | 0 <= n <= 5 :: |data| == 277 + 174 * n && (data[212] == n || data[212] == 128 + n)
  {
    if ParseReply(data).Some? {
      AcceptedReply(data);
    }
    forall n | 0 <= n <= 5 && |data| == 277 + 174 * n && (data[212] == n || data[212] == 128 + n)
      ensures ParseReply(data).Some?
    {
      assert data[212] % 128 == n;
    }
  }

  /** Offset `i` is the first from `from` on that is not 174 bytes, and `e` names it. */
  ghost predicate WrongFirstAt(offsets: seq<Bytes>, from: nat, i: int, e: ReplyError) {
    && from <= i < |offsets| && e == WrongSize(i, |offsets[i]|) && |offsets[i]| != 174
    && forall x | from <= x < i :: |offsets[x]| == 174
  }

  /** An offset list that does not fit a reply is refused for its length, or for the first offset of another size than 174. */
  lemma RefusedOffsetsIff(offsets: seq<Bytes>, e: ReplyError)
    ensures OffsetsError(offsets) == Some(e) <==>
              if |offsets| > 5 then e == TooManyOffsets(|offsets|) else exists i :: WrongFirstAt(offsets, 0, i, e)
  {
    if |offsets| <= 5 {
      FirstWrongSizeIff(offsets, 0, e);
    }
  }

  lemma {:induction false} FirstWrongSizeIff(offsets: seq<Bytes>, from: nat, e: ReplyError)
    requires from <= |offsets|
    ensures FirstWrongSize(offsets, from) == Some(e) <==> exists i :: WrongFirstAt(offsets, from, i, e)
    decreases |offsets| - from
  {
    if from < |offsets| {
      FirstWrongSizeIff(offsets, from + 1, e);
      var next := from + 1;
      if |offsets[from]| == 174 {
        if i :| WrongFirstAt(offsets, from, i, e) {
          assert WrongFirstAt(offsets, next, i, e);
        }
        if i :| WrongFirstAt(offsets, next, i, e) {
          assert WrongFirstAt(offsets, from, i, e);
        }
      } else {
        assert WrongFirstAt(offsets, from, from, WrongSize(from, |offsets[from]|));
        assert forall i | WrongFirstAt(offsets, from, i, e) :: i == from;
      }
    }
  }
}
