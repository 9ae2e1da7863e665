/** What a reply says about location and interval, and where it comes from. */
module Snapshots {
  import opened Wrappers
  import opened ByteCodec
  import opened Signing
  import opened Packet
  import opened PacketCodec
  import opened Reflector
  import opened Runs
  import opened Automaton
  import OffsetFormat
  import OffsetCodec
  import OffsetSignatures
  import LocationOffsets

  /** The blobs of the last `SetOffsets` before event `n`, or those in force at the start. */
  function OffsetsInForce(run: Run, n: nat): seq<Bytes>
    requires n <= |run.events|
    decreases n
  {
    if n == 0 then run.start.offsets
    else if run.events[n - 1].SetOffsets? then run.events[n - 1].blobs
    else OffsetsInForce(run, n - 1)
  }

  lemma {:induction false} StateHoldsLastOffsets(run: Run, n: nat)
    requires n <= |run.events|
    ensures run.StateAt(n).offsets == OffsetsInForce(run, n)
  {
    if n > 0 {
      StateHoldsLastOffsets(run, n - 1);
    }
  }

  /** A 174-byte encoding is of a tree without references, so it always decodes. */
  lemma ShortEncodingDecodes(o: OffsetFormat.OffsetTree)
    requires |OffsetFormat.Encode(o)| == BLOB_SIZE
    ensures OffsetFormat.Decode(OffsetFormat.Encode(o)) == Ok(o)
  {
    OffsetCodec.LengthOfEncoding(o);
    assert o.references == [];
    OffsetCodec.UnmarshalOfMarshal(o);
  }

  lemma AddThenSubtract(x: Uint64, y: Uint64)
    ensures ((x + y) % TWO_TO_THE_64 - x) % TWO_TO_THE_64 == y
  {
  }

  /** Header slot, latitude and longitude are `o`'s, and the RTT exceeds `o`'s by nothing or by the interval. */
  predicate Agrees(r: ReplyPacket, o: OffsetFormat.OffsetTree, first: bool) {
    && r.measurementSlot == o.observedAt && r.lat == o.lat && r.lng == o.lng
    && (r.rttNs - o.rttNs) % TWO_TO_THE_64 == if first then 0 else r.sinceLastRxNs
  }

  lemma DraftLocated(cfg: Config, offsets: seq<Bytes>, p: ProbePacket, v: Verdict, o: OffsetFormat.OffsetTree)
    requires v.Answered? && offsets != [] && offsets[0] == OffsetFormat.Encode(o)
    ensures var r := Draft(cfg, offsets, p, v);
            && r.measurementSlot == o.observedAt && r.lat == o.lat && r.lng == o.lng && r.sinceLastRxNs == v.sinceLastRxNs
            && r.rttNs == (if v.first then o.rttNs else (o.rttNs + v.sinceLastRxNs) % TWO_TO_THE_64)
  {
    OffsetInfoAgrees(o);
  }

  lemma DraftMatchesOffset(cfg: Config, offsets: seq<Bytes>, p: ProbePacket, v: Verdict, o: OffsetFormat.OffsetTree)
    requires v.Answered? && offsets != [] && offsets[0] == OffsetFormat.Encode(o)
    ensures Agrees(SignReply(Draft(cfg, offsets, p, v), cfg.signer), o, v.first)
    ensures SignReply(Draft(cfg, offsets, p, v), cfg.signer).offsets == offsets
  {
    DraftLocated(cfg, offsets, p, v, o);
    AddThenSubtract(o.rttNs, v.sinceLastRxNs);
  }

  /**
   Snapshot consistency.  Header and blobs of every reply come from the offsets one call put in force,
   and the header's slot, latitude and longitude are what the recursive decoder reads from the reply's
   own first blob.  Its RTT exceeds that blob's by nothing on a first reply and by the interval on a second.
   */
  lemma ReplyMatchesItsOwnOffset(run: Run, i: nat, o: OffsetFormat.OffsetTree)
    requires i < |run.events| && run.ReplyAt(i).Some?
    requires OffsetsInForce(run, i) != [] && OffsetsInForce(run, i)[0] == OffsetFormat.Encode(o)
    ensures var r, v := run.ReplyAt(i).value, run.VerdictAt(i, run.ReplyAt(i).value.probe.senderPubkey);
            && r.offsets == OffsetsInForce(run, i) && OffsetsOk(r.offsets)
            && OffsetFormat.Decode(r.offsets[0]) == Ok(o)
            && v.Answered? && r.sinceLastRxNs == v.sinceLastRxNs && Agrees(r, o, v.first)
  {
    var r, s, e := run.ReplyAt(i).value, run.StateAt(i), run.events[i];
    var v := VerdictOf(run.cfg, s, e, r.probe.senderPubkey);
    assert s.offsets == OffsetsInForce(run, i) by {
      StateHoldsLastOffsets(run, i);
    }
    assert v.Answered? && OffsetsOk(s.offsets) && r.sinceLastRxNs == v.sinceLastRxNs
        && r == SignReply(Draft(run.cfg, s.offsets, r.probe, v), run.cfg.signer) by {
      ReplyForSender(run.cfg, s, e, r.probe.senderPubkey);
    }
    DraftMatchesOffset(run.cfg, s.offsets, r.probe, v, o);
    ShortEncodingDecodes(o);
  }

  // The interval.

  /** The offsets in force carry no RTT of their own, as an anchor's reference offset does not. */
  predicate RootOffsets(offsets: seq<Bytes>) {
    offsets != [] && ParseOffsetInfo(offsets[0]).Some? ==> ParseOffsetInfo(offsets[0]).value.rttNs == 0
  }

  /** The anchor's self-signed statement of where it is. */
  function ReferenceOffset(signer: Signer, observedAt: Uint64, lat: Uint64, lng: Uint64): OffsetFormat.OffsetTree {
    LocationOffsets.Signed(LocationOffsets.ZeroTree().(observedAt := observedAt, lat := lat, lng := lng), signer, signer.pub)
  }

  /**
   It says where and when, in the anchor's own name and with no RTT.  Its encoding is one blob of the size a reply
   takes, decodes to itself and verifies.
   */
  lemma ReferenceOffsetFits(signer: Signer, verify: Verifier, observedAt: Uint64, lat: Uint64, lng: Uint64)
    requires Honours(verify, signer)
    ensures var o := ReferenceOffset(signer, observedAt, lat, lng);
            var blobs := [OffsetFormat.Encode(o)];
            && o.observedAt == observedAt && o.lat == lat && o.lng == lng && o.measuredRttNs == o.rttNs == 0
            && o.authorityPubkey == o.senderPubkey == signer.pub && o.references == []
            && OffsetsOk(blobs) && RootOffsets(blobs)
            && OffsetFormat.Decode(blobs[0]) == Ok(o) && OffsetSignatures.CheckChain(verify, o).None?
            && ParseOffsetInfo(blobs[0]).Some? && ParseOffsetInfo(blobs[0]).value.measurementSlot == observedAt
            && ParseOffsetInfo(blobs[0]).value.lat == lat && ParseOffsetInfo(blobs[0]).value.lng == lng
  {
    var o := ReferenceOffset(signer, observedAt, lat, lng);
    OffsetCodec.LengthOfEncoding(o);
    LocationOffsets.SignedVerifies(
      LocationOffsets.ZeroTree().(observedAt := observedAt, lat := lat, lng := lng), signer, signer.pub, verify);
    ShortEncodingDecodes(o);
    OffsetInfoAgrees(o);
  }

  lemma RootDraft(cfg: Config, offsets: seq<Bytes>, p: ProbePacket, v: Verdict)
    requires v.Answered? && !v.first && RootOffsets(offsets)
    ensures Draft(cfg, offsets, p, v).rttNs == Draft(cfg, offsets, p, v).sinceLastRxNs == v.sinceLastRxNs
  {
  }

  /** With root offsets the RTT of a reply that is not a first one is its interval. */
  lemma RootRttIsInterval(run: Run, i: nat)
    requires i < |run.events| && run.ReplyAt(i).Some? && RootOffsets(run.StateAt(i).offsets)
    requires !run.VerdictAt(i, run.ReplyAt(i).value.probe.senderPubkey).first
    ensures run.ReplyAt(i).value.rttNs == run.ReplyAt(i).value.sinceLastRxNs
  {
    var r, s, e := run.ReplyAt(i).value, run.StateAt(i), run.events[i];
    var v := VerdictOf(run.cfg, s, e, r.probe.senderPubkey);
    assert v.Answered? && r == SignReply(Draft(run.cfg, s.offsets, r.probe, v), run.cfg.signer) by {
      ReplyForSender(run.cfg, s, e, r.probe.senderPubkey);
    }
    RootDraft(run.cfg, s.offsets, r.probe, v);
  }

  /** The answer to the second probe of a pair reports the time since the first one's reply was sent. */
  lemma SecondVerdictInterval(run: Run, i: nat, k: Key)
    requires run.start.senders == map[] && run.cfg.verifyInterval > 0 && i < |run.events|
    requires run.VerdictAt(i, k).Answered? && !run.VerdictAt(i, k).first
    ensures var j := run.LastIssue(i, k);
            && j >= 0 && run.events[i].Receive?
            && (OffsetsOk(run.StateAt(j).offsets) ==>
                  && Sub(run.events[i].now, run.events[j].tx) <= STALE_PAIR_TIMEOUT
                  && run.VerdictAt(i, k).sinceLastRxNs == AsUint64(Sub(run.events[i].now, run.events[j].tx)))
  {
    SendersStayOk(run, i, k);
    PairRemembersIssue(run, i, k);
  }

  /**
   Interval arithmetic.  With a rate limit and fitting root offsets, every reply to the second probe of a
   pair reports exactly the time from Reply 0's transmission to that probe's receipt, which is at most five
   seconds, as long as the probe was not received before Reply 0 was sent.
   */
  lemma SecondReplyInterval(run: Run, i: nat)
    requires run.start.senders == map[] && run.cfg.verifyInterval > 0 && i < |run.events|
    requires OffsetsAlwaysOk(run) && RootOffsets(run.StateAt(i).offsets)
    requires run.ReplyAt(i).Some? && !run.VerdictAt(i, run.ReplyAt(i).value.probe.senderPubkey).first
    ensures var r := run.ReplyAt(i).value;
            var j := run.LastIssue(i, r.probe.senderPubkey);
            && j >= 0 && run.events[i].Receive? && run.ReplyAt(j).Some?
            && (run.events[i].now >= run.events[j].tx ==>
                  r.rttNs == r.sinceLastRxNs == run.events[i].now - run.events[j].tx <= STALE_PAIR_TIMEOUT)
  {
    var k := run.ReplyAt(i).value.probe.senderPubkey;
    RootRttIsInterval(run, i);
    OffsetsStayOk(run, i);
    AnswersAreReplies(run, i, k);
    assert run.VerdictAt(i, k).sinceLastRxNs == run.ReplyAt(i).value.sinceLastRxNs by {
      ReplyForSender(run.cfg, run.StateAt(i), run.events[i], k);
    }
    SecondVerdictInterval(run, i, k);
    var j := run.LastIssue(i, k);
    OffsetsStayOk(run, j);
    assert run.ReplyAt(j).Some? by {
      IssueReply(run, j, k);
    }
    ShortInterval(run.events[i].now, run.events[j].tx);
  }

  lemma ShortInterval(now: Time, tx: Time)
    requires Sub(now, tx) <= STALE_PAIR_TIMEOUT
    ensures now >= tx ==> AsUint64(Sub(now, tx)) == now - tx <= STALE_PAIR_TIMEOUT
  {
  }
}
