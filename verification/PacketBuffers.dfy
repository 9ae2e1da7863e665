/**
 The methods of internal/signed/packet.go: marshalling into a caller's buffer at
 a moving position, and reading fields back from theirs.
 */
module PacketBuffers {
  import opened Wrappers
  import opened ByteCodec
  import opened Layout
  import opened Signing
  import opened Packet
  import opened PacketCodec

  datatype BufferError = BufferTooSmall(have: nat, need: nat)

  /** `copy(buf[at:at+len(src)], src)`. */
  method Put(buf: array<Byte>, at: nat, src: Bytes)
    requires at + |src| <= buf.Length
    modifies buf
    ensures buf[..at + |src|] == old(buf[..at]) + src
    ensures forall i | at + |src| <= i < buf.Length :: buf[i] == old(buf[i])
  {
    forall i | 0 <= i < |src| {
      buf[at + i] := src[i];
    }
    assert buf[..at + |src|] == old(buf[..at]) + src;
  }

  method MarshalProbe(p: ProbePacket, buf: array<Byte>) returns (err: Option<BufferError>)
    modifies buf
    ensures buf.Length < PROBE_SIZE ==> err == Some(BufferTooSmall(buf.Length, PROBE_SIZE)) && buf[..] == old(buf[..])
    ensures buf.Length >= PROBE_SIZE ==>
              err == None && buf[..PROBE_SIZE] == ProbeBytes(p) && buf[PROBE_SIZE..] == old(buf[PROBE_SIZE..])
  {
    if buf.Length < PROBE_SIZE {
      return Some(BufferTooSmall(buf.Length, PROBE_SIZE));
    }
    Put(buf, 0, PutBe32(p.sequence));
    Put(buf, 4, PutBe32(p.sec));
    Put(buf, 8, PutBe32(p.frac));
    Put(buf, 12, p.senderPubkey);
    Put(buf, 44, p.signature);
    AppendedProbe(p, []);
    return None;
  }

  lemma AppendedProbe(p: ProbePacket, prefix: Bytes)
    ensures prefix + ProbeBytes(p)
         == prefix + PutBe32(p.sequence) + PutBe32(p.sec) + PutBe32(p.frac) + p.senderPubkey + p.signature
  {
    var fields := ProbeFields(p);
    AppendedFields(prefix, fields, 5);
    assert Concat(fields[5..]) == [];
    assert AppendFields(prefix, fields, 3) == prefix + PutBe32(p.sequence) + PutBe32(p.sec) + PutBe32(p.frac);
    assert AppendFields(prefix, fields, 5) == AppendFields(prefix, fields, 3) + p.senderPubkey + p.signature;
  }

  /** The header fields after the probe, appended one at a time. */
  lemma AppendedHeader(r: ReplyPacket)
    ensures Concat(ReplyFields(r))
         == ProbeBytes(r.probe) + r.authorityPubkey + r.geoprobePubkey
            + PutBe64(r.measurementSlot) + PutBe64(r.lat) + PutBe64(r.lng)
            + PutBe64(r.sinceLastRxNs) + PutBe64(r.rttNs) + [CountByte(|r.offsets|, r.challenged)]
  {
    var rest := ReplyFields(r)[5..];
    assert ReplyFields(r) == ProbeFields(r.probe) + rest;
    ConcatAppend(ProbeFields(r.probe), rest);
    var prefix := ProbeBytes(r.probe);
    AppendedFields(prefix, rest, 8);
    assert Concat(rest[8..]) == [];
    assert AppendFields(prefix, rest, 2) == prefix + r.authorityPubkey + r.geoprobePubkey;
    assert AppendFields(prefix, rest, 5)
        == AppendFields(prefix, rest, 2) + PutBe64(r.measurementSlot) + PutBe64(r.lat) + PutBe64(r.lng);
    assert AppendFields(prefix, rest, 8)
        == AppendFields(prefix, rest, 5) + PutBe64(r.sinceLastRxNs) + PutBe64(r.rttNs)
           + [CountByte(|r.offsets|, r.challenged)];
  }

  /** The signed portion of the reply, into the front of `buf`. */
  method MarshalPayload(r: ReplyPacket, buf: array<Byte>) returns (n: nat, err: Option<BufferError>)
    modifies buf
    ensures buf.Length < PayloadSize(r) ==>
              n == 0 && err == Some(BufferTooSmall(buf.Length, PayloadSize(r))) && buf[..] == old(buf[..])
    ensures buf.Length >= PayloadSize(r) ==>
              && err == None && n == PayloadSize(r)
              && buf[..n] == PayloadOver(r, old(buf[..]))
              && (forall i | n <= i < buf.Length :: buf[i] == old(buf[i]))
  {
    var payloadSize := REPLY_HEADER_SIZE + |r.offsets| * BLOB_SIZE;
    if buf.Length < payloadSize {
      return 0, Some(BufferTooSmall(buf.Length, payloadSize));
    }
    MarshalHeader(r, buf);
    assert buf[REPLY_HEADER_SIZE..] == old(buf[..])[REPLY_HEADER_SIZE..];
    MarshalOffsets(r.offsets, buf, REPLY_HEADER_SIZE);
    return payloadSize, None;
  }

  /** What the buffer will begin with once the blobs from `i` on follow `done`. */
  function Ahead(done: Bytes, offsets: seq<Bytes>, i: nat, under: Bytes, off: nat): Bytes
    requires i <= |offsets| && off + (|offsets| - i) * BLOB_SIZE <= |under|
  {
    done + Slots(offsets[i..], under[off..])
  }

  lemma AheadStep(done: Bytes, offsets: seq<Bytes>, i: nat, under: Bytes, off: nat, next: nat, slot: Bytes, goal: Bytes)
    requires i < |offsets| && off + (|offsets| - i) * BLOB_SIZE <= |under| && next == off + BLOB_SIZE
    requires slot == Slot(offsets[i], under[off..next]) && Ahead(done, offsets, i, under, off) == goal
    ensures Ahead(done + slot, offsets, i + 1, under, next) == goal
  {
    var more := Slots(offsets[i + 1..], under[next..]);
    assert Slots(offsets[i..], under[off..]) == slot + more by {
      assert under[off..][..BLOB_SIZE] == under[off..next];
      assert under[off..][BLOB_SIZE..] == under[next..];
      assert offsets[i..][1..] == offsets[i + 1..];
    }
    assert done + (slot + more) == done + slot + more;
  }

  lemma AheadAtEnd(done: Bytes, offsets: seq<Bytes>, under: Bytes, off: nat)
    requires off <= |under|
    ensures Ahead(done, offsets, |offsets|, under, off) == done
  {
    assert done + [] == done;
  }

  /** The offset blobs, one slot after another from position `start`. */
  method MarshalOffsets(offsets: seq<Bytes>, buf: array<Byte>, start: nat)
    requires start + |offsets| * BLOB_SIZE <= buf.Length
    modifies buf
    ensures buf[..start + |offsets| * BLOB_SIZE] == old(buf[..start]) + Slots(offsets, old(buf[start..]))
    ensures forall i | start + |offsets| * BLOB_SIZE <= i < buf.Length :: buf[i] == old(buf[i])
  {
    ghost var under := buf[..];
    ghost var goal := Ahead(under[..start], offsets, 0, under, start);
    var off := start;
    for i := 0 to |offsets|
      invariant off == start + i * BLOB_SIZE
      invariant forall k | off <= k < buf.Length :: buf[k] == under[k]
      invariant Ahead(buf[..off], offsets, i, under, off) == goal
    {
      ghost var done := buf[..off];
      var next := off + BLOB_SIZE;
      assert buf[off..next] == under[off..next];
      var slot := Slot(offsets[i], buf[off..next]);
      AheadStep(done, offsets, i, under, off, next, slot, goal);
      Put(buf, off, slot);
      assert buf[..next] == done + slot;
      off := next;
    }
    AheadAtEnd(buf[..off], offsets, under, off);
  }

  method MarshalHeader(r: ReplyPacket, buf: array<Byte>)
    requires buf.Length >= REPLY_HEADER_SIZE
    modifies buf
    ensures buf[..REPLY_HEADER_SIZE] == Concat(ReplyFields(r))
    ensures buf[REPLY_HEADER_SIZE..] == old(buf[REPLY_HEADER_SIZE..])
  {
    var _ := MarshalProbe(r.probe, buf);
    Put(buf, 108, r.authorityPubkey);
    Put(buf, 140, r.geoprobePubkey);
    Put(buf, 172, PutBe64(r.measurementSlot));
    Put(buf, 180, PutBe64(r.lat));
    Put(buf, 188, PutBe64(r.lng));
    Put(buf, 196, PutBe64(r.sinceLastRxNs));
    Put(buf, 204, PutBe64(r.rttNs));
    Put(buf, 212, [CountByte(|r.offsets|, r.challenged)]);
    AppendedHeader(r);
  }

  method MarshalReply(r: ReplyPacket, buf: array<Byte>) returns (n: nat, err: Option<BufferError>)
    modifies buf
    ensures buf.Length < ReplySize(r) ==>
              n == 0 && err == Some(BufferTooSmall(buf.Length, ReplySize(r))) && buf[..] == old(buf[..])
    ensures buf.Length >= ReplySize(r) ==>
              && err == None && n == ReplySize(r)
              && buf[..n] == PayloadOver(r, old(buf[..])) + r.signature && buf[n..] == old(buf[n..])
    ensures buf.Length >= ReplySize(r) && OffsetsOk(r.offsets) ==> ParseReply(buf[..n]) == Some(r)
  {
    var size := ReplySize(r);
    if buf.Length < size {
      return 0, Some(BufferTooSmall(buf.Length, size));
    }
    ghost var under := buf[..];
    var payloadSize, _ := MarshalPayload(r, buf);
    Put(buf, payloadSize, r.signature);
    assert buf[size..] == under[size..];
    if OffsetsOk(r.offsets) {
      ReplyRoundTrip(r, under);
    }
    return size, None;
  }

  method UnmarshalProbe(buf: Bytes) returns (p: Option<ProbePacket>)
    ensures p == ParseProbe(buf)
  {
    if |buf| != PROBE_SIZE {
      return None;
    }
    ProbeLayoutStarts();
    FieldAt(buf, PROBE_LAYOUT, 0);
    FieldAt(buf, PROBE_LAYOUT, 1);
    FieldAt(buf, PROBE_LAYOUT, 2);
    FieldAt(buf, PROBE_LAYOUT, 3);
    FieldAt(buf, PROBE_LAYOUT, 4);
    return Some(ProbePacket(Be32(buf[0..4]), Be32(buf[4..8]), Be32(buf[8..12]), buf[12..44], buf[44..108]));
  }

  /** The header's fields after the probe lie at their positions. */
  lemma HeaderAtPositions(buf: Bytes)
    requires |buf| >= REPLY_HEADER_SIZE
    ensures Sum(REPLY_LAYOUT) == REPLY_HEADER_SIZE
    ensures var f := Cut(buf, REPLY_LAYOUT);
            && f[5] == buf[108..140] && f[6] == buf[140..172] && f[7] == buf[172..180] && f[8] == buf[180..188]
            && f[9] == buf[188..196] && f[10] == buf[196..204] && f[11] == buf[204..212] && f[12][0] == buf[212]
  {
    ReplyLayoutStarts();
    var f := Cut(buf, REPLY_LAYOUT);
    FieldBetween(buf, REPLY_LAYOUT, 5, 108, 140, f[5]);
    FieldBetween(buf, REPLY_LAYOUT, 6, 140, 172, f[6]);
    FieldBetween(buf, REPLY_LAYOUT, 7, 172, 180, f[7]);
    FieldBetween(buf, REPLY_LAYOUT, 8, 180, 188, f[8]);
    FieldBetween(buf, REPLY_LAYOUT, 9, 188, 196, f[9]);
    FieldBetween(buf, REPLY_LAYOUT, 10, 196, 204, f[10]);
    FieldBetween(buf, REPLY_LAYOUT, 11, 204, 212, f[11]);
    FieldBetween(buf, REPLY_LAYOUT, 12, 212, 213, f[12]);
  }

  method UnmarshalReply(buf: Bytes) returns (reply: Option<ReplyPacket>)
    ensures reply == ParseReply(buf)
    ensures reply.Some? ==> OffsetsOk(reply.value.offsets) && ReplyBytes(reply.value) == buf
  {
    if ParseReply(buf).Some? {
      ReplyRoundTripBack(buf);
    }
    if |buf| < MIN_REPLY_SIZE {
      return None;
    }
    var challenged := buf[212] >= CHALLENGED_BIT;
    var numOffsets := buf[212] % CHALLENGED_BIT;
    if numOffsets > MAX_OFFSETS {
      return None;
    }
    if |buf| != REPLY_HEADER_SIZE + numOffsets * BLOB_SIZE + SIGNATURE_SIZE {
      return None;
    }
    var probe := UnmarshalProbe(buf[0..108]);
    var offsets := ReadBlobs(buf, REPLY_HEADER_SIZE, numOffsets);
    EmbeddedProbe(buf);
    HeaderAtPositions(buf);
    return Some(ReplyPacket(
      probe.value, buf[108..140], buf[140..172],
      Be64(buf[172..180]), Be64(buf[180..188]), Be64(buf[188..196]), Be64(buf[196..204]), Be64(buf[204..212]),
      offsets, challenged, buf[|buf| - SIGNATURE_SIZE..]));
  }

  /** `count` offset blobs, one after another from position `start`. */
  method ReadBlobs(buf: Bytes, start: nat, count: nat) returns (offsets: seq<Bytes>)
    requires start + count * BLOB_SIZE <= |buf|
    ensures offsets == Blobs(buf[start..], count)
  {
    offsets := [];
    var off := start;
    for i := 0 to count
      invariant |offsets| == i && off == start + i * BLOB_SIZE
      invariant offsets + Blobs(buf[off..], count - i) == Blobs(buf[start..], count)
    {
      var blob := buf[off..off + BLOB_SIZE];
      assert buf[off..][..BLOB_SIZE] == blob;
      assert buf[off..][BLOB_SIZE..] == buf[off + BLOB_SIZE..];
      ghost var more := Blobs(buf[off + BLOB_SIZE..], count - i - 1);
      assert offsets + ([blob] + more) == offsets + [blob] + more;
      offsets := offsets + [blob];
      off := off + BLOB_SIZE;
    }
    assert offsets + [] == offsets;
  }

  /** The embedded probe is the probe its first 108 bytes parse to. */
  lemma EmbeddedProbe(buf: Bytes)
    requires |buf| >= REPLY_HEADER_SIZE
    ensures Sum(REPLY_LAYOUT) == REPLY_HEADER_SIZE
    ensures ParseProbe(buf[0..108]) == Some(ProbeFromFields(Cut(buf, REPLY_LAYOUT)))
  {
    ReplyLayoutStarts();
    ProbeLayoutStarts();
    assert REPLY_LAYOUT == PROBE_LAYOUT + REPLY_LAYOUT[5..];
    CutOfAppend(buf, PROBE_LAYOUT, REPLY_LAYOUT[5..]);
    CutOfPrefix(buf, PROBE_LAYOUT, 108);
    assert buf[..108] == buf[0..108];
  }

  method VerifyProbe(p: ProbePacket, verify: Verifier) returns (ok: bool)
    ensures ok == ProbeVerifies(verify, p)
  {
    var payload := new Byte[PROBE_PAYLOAD_SIZE](_ => 0);
    Put(payload, 0, PutBe32(p.sequence));
    Put(payload, 4, PutBe32(p.sec));
    Put(payload, 8, PutBe32(p.frac));
    Put(payload, 12, p.senderPubkey);
    assert payload[..] == payload[..44];
    AppendedProbe(p, []);
    ProbeIsPayloadThenSignature(p);
    assert payload[..] == (payload[..] + p.signature)[..44] == (ProbePayload(p) + p.signature)[..44] == ProbePayload(p);
    ok := verify(p.senderPubkey, payload[..], p.signature);
  }

  /** The signed portion in a fresh zeroed buffer, as signing and verifying make it. */
  method FreshPayload(r: ReplyPacket) returns (payload: Bytes)
    ensures payload == ReplyPayload(r)
  {
    var buf := new Byte[PayloadSize(r)](_ => 0);
    assert buf[..] == Zeros(PayloadSize(r));
    var n, _ := MarshalPayload(r, buf);
    payload := buf[..n];
  }

  method VerifyReply(r: ReplyPacket, verify: Verifier) returns (ok: bool)
    ensures ok == ReplyVerifies(verify, r)
  {
    var payload := FreshPayload(r);
    ok := verify(r.authorityPubkey, payload, r.signature);
  }

  method NewReplyPacket(fields: ReplyPacket, signer: Signer) returns (reply: Result<ReplyPacket, ReplyError>)
    ensures reply == NewReply(fields, signer)
    ensures reply.Ok? <==> OffsetsOk(fields.offsets)
  {
    if |fields.offsets| > MAX_OFFSETS {
      return Err(TooManyOffsets(|fields.offsets|));
    }
    for i := 0 to |fields.offsets|
      invariant FirstWrongSize(fields.offsets, 0) == FirstWrongSize(fields.offsets, i)
    {
      if |fields.offsets[i]| != BLOB_SIZE {
        return Err(WrongSize(i, |fields.offsets[i]|));
      }
    }
    var named := fields.(authorityPubkey := signer.pub);
    var payload := FreshPayload(named);
    reply := Ok(named.(signature := signer.sign(payload)));
  }
}
