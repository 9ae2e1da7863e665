/**
 The converse of the distance bound: every interval that the bound allows for a
 holder of the key does occur, in a world that meets every assumption of the theorem.
 */
module Attainment {
  import opened Wrappers
  import opened ByteCodec
  import opened Signing
  import opened Packet
  import opened Reflector
  import opened Runs
  import opened Sender
  import opened Geo
  import opened Distance
  import OffsetFormat

  function FirstProbe(k: Key): ProbePacket {
    ProbePacket(0, 0, 0, k, Zeros(64))
  }

  function SecondProbe(k: Key, nonce: Uint64): ProbePacket {
    ProbePacket(1, nonce / TWO_TO_THE_32, nonce % TWO_TO_THE_32, k, Zeros(64))
  }

  /** A pair of `k`: the first probe answered at once, the second received `interval` later. */
  function PairRun(signer: Signer, k: Key, nonce: Uint64, interval: nat, offsets: seq<Bytes>): Run {
    var from := Inet4(Zeros(4), 0);
    Run(Config(STALE_PAIR_TIMEOUT, Zeros(32), signer), State({k}, map[], offsets),
        [Receive(Some(FirstProbe(k)), from, 0, 0, nonce), Receive(Some(SecondProbe(k, nonce)), from, interval, interval, 0)])
  }

  /** The holder signs its first probe in time, then the nonce half-way through the interval. */
  function PairLog(w: World, holder: Node, k: Key, nonce: Uint64, interval: nat): seq<Learning> {
    var half := interval as real / 2.0;
    var first, second := SignatureAtom(k, ProbePayload(FirstProbe(k))), SignatureAtom(k, ProbePayload(SecondProbe(k, nonce)));
    [Learning(holder, -half, NumberAtom(0), Guessed),
     Learning(holder, -half, first, SignedHere(0)),
     Learning(w.anchor, 0.0, first, Relayed(1)),
     Learning(w.anchor, 0.0, NumberAtom(nonce), SentByAnchor(0)),
     Learning(holder, half, NumberAtom(nonce), Relayed(3)),
     Learning(holder, half, second, SignedHere(4)),
     Learning(w.anchor, interval as real, second, Relayed(5))]
  }

  /** A check that accepts the anchor's two replies, and the holder's two probes. */
  function PairVerifier(run: Run, k: Key, nonce: Uint64): Verifier
    requires |run.events| == 2
  {
    (key, m, s) =>
      if key == run.cfg.signer.pub then IsReplyAt(run, 0, m) || IsReplyAt(run, 1, m)
      else key == k && (m == ProbePayload(FirstProbe(k)) || m == ProbePayload(SecondProbe(k, nonce)))
  }

  predicate IsReplyAt(run: Run, i: nat, m: Bytes)
    requires i < |run.events|
  {
    run.ReplyAt(i).Some? && m == ReplyPayload(run.ReplyAt(i).value)
  }

  lemma SecondPresentsNonce(k: Key, nonce: Uint64)
    ensures PresentedNonce(SecondProbe(k, nonce)) == nonce
  {
  }

  /** What the anchor makes of the two probes. */
  lemma PairVerdicts(signer: Signer, k: Key, nonce: Uint64, interval: nat, offsets: seq<Bytes>)
    requires nonce != 0 && interval <= STALE_PAIR_TIMEOUT && OffsetsOk(offsets)
    ensures var run := PairRun(signer, k, nonce, interval, offsets);
            && run.VerdictAt(0, k) == Answered(true, nonce, false)
            && run.VerdictAt(1, k) == Answered(false, interval, true)
  {
    var run := PairRun(signer, k, nonce, interval, offsets);
    SecondPresentsNonce(k, nonce);
    assert run.SenderAt(0, k) == EmptySender();
    StepForSender(run.cfg, run.StateAt(0), run.events[0], k);
    assert run.StateAt(1).authorized == {k};
    assert run.SenderAt(1, k) == SenderState(Some(0), 1, 0, Zeros(4), nonce);
  }

  lemma PairReplies(signer: Signer, k: Key, nonce: Uint64, interval: nat, offsets: seq<Bytes>)
    requires nonce != 0 && interval <= STALE_PAIR_TIMEOUT && OffsetsOk(offsets)
    ensures var run := PairRun(signer, k, nonce, interval, offsets);
            && run.ReplyAt(0).Some? && run.ReplyAt(0).value.probe == FirstProbe(k) && run.IssuedAt(0, k)
            && run.ReplyAt(1).Some? && run.ReplyAt(1).value.probe == SecondProbe(k, nonce) && !run.IssuedAt(1, k)
            && run.ReplyAt(1).value.challenged && run.ReplyAt(1).value.sinceLastRxNs == interval
            && run.ReplyAt(1).value.offsets == offsets && run.ReplyAt(1).value.authorityPubkey == signer.pub
  {
    var run := PairRun(signer, k, nonce, interval, offsets);
    PairVerdicts(signer, k, nonce, interval, offsets);
    assert run.StateAt(1).offsets == offsets;
    ReplyForSender(run.cfg, run.StateAt(0), run.events[0], k);
    ReplyForSender(run.cfg, run.StateAt(1), run.events[1], k);
  }

  lemma PairIsExplained(w: World, holder: Node, signer: Signer, k: Key, nonce: Uint64, interval: nat, offsets: seq<Bytes>)
    requires Metric(w) && w.holds(holder, k) && OffsetsOk(offsets) && nonce != 0 && interval <= STALE_PAIR_TIMEOUT
    requires w.dist(w.anchor, holder) <= ProvableMaxDistance(interval)
    ensures Chronicle(w, PairRun(signer, k, nonce, interval, offsets), PairLog(w, holder, k, nonce, interval))
  {
    var run, log := PairRun(signer, k, nonce, interval, offsets), PairLog(w, holder, k, nonce, interval);
    PairReplies(signer, k, nonce, interval, offsets);
    BoundIsTwoWayLight(interval, w.dist(w.anchor, holder));
    PresentedNonceIsSigned(FirstProbe(k));
    PresentedNonceIsSigned(SecondProbe(k, nonce));
    SecondPresentsNonce(k, nonce);
    forall i | 0 <= i < |log|
      ensures Explained(w, run, log, i)
    {
      assert i == 0 || i == 1 || i == 2 || i == 3 || i == 4 || i == 5 || i == 6;
    }
  }

  lemma PairNonceIsFresh(w: World, holder: Node, signer: Signer, k: Key, nonce: Uint64, interval: nat, offsets: seq<Bytes>)
    requires nonce != 0 && interval <= STALE_PAIR_TIMEOUT && OffsetsOk(offsets)
    ensures FreshNonces(PairRun(signer, k, nonce, interval, offsets), PairLog(w, holder, k, nonce, interval))
  {
    assert FreshNonce(PairRun(signer, k, nonce, interval, offsets), PairLog(w, holder, k, nonce, interval), 0);
  }

  lemma PairSignaturesTravel(w: World, holder: Node, signer: Signer, k: Key, nonce: Uint64, interval: nat, offsets: seq<Bytes>)
    ensures var run := PairRun(signer, k, nonce, interval, offsets);
            ProbeSignaturesTravel(w, run, PairLog(w, holder, k, nonce, interval), PairVerifier(run, k, nonce))
  {
    var run, log := PairRun(signer, k, nonce, interval, offsets), PairLog(w, holder, k, nonce, interval);
    assert log[2].node == w.anchor && log[6].node == w.anchor;
    assert Heard(w, log, FirstProbe(k), 0) && Heard(w, log, SecondProbe(k, nonce), interval);
    forall i | 0 <= i < |run.events|
      ensures Heard(w, log, run.events[i].probe.value, run.events[i].now)
    {
      assert i == 0 || i == 1;
    }
  }

  lemma PairAnchorSigned(signer: Signer, k: Key, nonce: Uint64, interval: nat, offsets: seq<Bytes>)
    ensures var run := PairRun(signer, k, nonce, interval, offsets);
            AnchorSigned(run, PairVerifier(run, k, nonce), {})
  {
    var run := PairRun(signer, k, nonce, interval, offsets);
    var verify := PairVerifier(run, k, nonce);
    forall m: Bytes, s: Bytes | verify(signer.pub, m, s)
      ensures IsReplyOf(run, m)
    {
      assert IsReplyAt(run, 0, m) || IsReplyAt(run, 1, m);
    }
  }

  /** The pair meets every assumption of the distance theorem. */
  lemma PairIsIdealised(w: World, holder: Node, signer: Signer, k: Key, nonce: Uint64, interval: nat, offsets: seq<Bytes>)
    requires Metric(w) && w.holds(holder, k) && OffsetsOk(offsets) && nonce != 0 && interval <= STALE_PAIR_TIMEOUT
    requires w.dist(w.anchor, holder) <= ProvableMaxDistance(interval)
    ensures var run := PairRun(signer, k, nonce, interval, offsets);
            Idealised(w, run, PairLog(w, holder, k, nonce, interval), PairVerifier(run, k, nonce), {})
  {
    PairIsExplained(w, holder, signer, k, nonce, interval, offsets);
    PairNonceIsFresh(w, holder, signer, k, nonce, interval, offsets);
    PairSignaturesTravel(w, holder, signer, k, nonce, interval, offsets);
    PairAnchorSigned(signer, k, nonce, interval, offsets);
  }

  /**
   The bound is exact: for every holder of `k`, every interval of at most five seconds whose bound reaches it
   and every fitting list of offsets, some idealised run yields an authentic challenged reply of `k` with
   exactly that interval and those offsets.
   */
  lemma EveryAllowedIntervalOccurs(w: World, holder: Node, signer: Signer, k: Key, interval: nat, offsets: seq<Bytes>)
    returns (run: Run, log: seq<Learning>, verify: Verifier, reply: ReplyPacket)
    requires Metric(w) && w.holds(holder, k) && k != signer.pub && OffsetsOk(offsets)
    requires interval <= STALE_PAIR_TIMEOUT && w.dist(w.anchor, holder) <= ProvableMaxDistance(interval)
    ensures run.cfg.signer == signer && Idealised(w, run, log, verify, {})
    ensures Authentic(Peer(verify, signer.pub), reply) && reply.offsets == offsets && reply.challenged
    ensures reply.probe.senderPubkey == k && reply.sinceLastRxNs == interval
  {
    run, log := PairRun(signer, k, 1, interval, offsets), PairLog(w, holder, k, 1, interval);
    verify := PairVerifier(run, k, 1);
    PairIsIdealised(w, holder, signer, k, 1, interval, offsets);
    PairReplies(signer, k, 1, interval, offsets);
    reply := run.ReplyAt(1).value;
    assert ProbeVerifies(verify, reply.probe);
    assert IsReplyAt(run, 1, ReplyPayload(reply));
    assert ReplyVerifies(verify, reply);
  }

  // When the reported RTT bounds the distance.

  /** An authentic challenged reply of an idealised run, with the given offsets and interval. */
  ghost predicate Reported(w: World, run: Run, log: seq<Learning>, verify: Verifier, trees: set<OffsetFormat.OffsetTree>,
                           reply: ReplyPacket, offsets: seq<Bytes>, interval: nat)
  {
    && Idealised(w, run, log, verify, trees)
    && Authentic(Peer(verify, run.cfg.signer.pub), reply) && reply.challenged
    && reply.offsets == offsets && reply.sinceLastRxNs == interval
  }

  ghost predicate SomeHolderWithin(w: World, k: Key, d: real) {
    exists h: Node :: w.holds(h, k) && w.dist(w.anchor, h) <= d
  }

  /** The anchor, and one holder of every key at distance `d`. */
  function FarWorld(d: real): World {
    World(0, (n, k) => n == 1, (a, b) => if a == b then 0.0 else d)
  }

  lemma FarWorldIsMetric(d: real)
    requires d >= 0.0
    ensures Metric(FarWorld(d))
  {
  }

  lemma OnlyHolderIsFar(d: real, k: Key, bound: real)
    requires bound < d
    ensures !SomeHolderWithin(FarWorld(d), k, bound)
  {
  }

  lemma OverflowedRtt(reply: ReplyPacket)
    requires AddsInterval(reply) && reply.sinceLastRxNs <= STALE_PAIR_TIMEOUT && !IntervalFits(reply)
    ensures ProvableMaxDistance(AsDuration(reply.rttNs)) < ProvableMaxDistance(AsDuration(reply.sinceLastRxNs))
  {
    SumKeepsBoundIff(OffsetRtt(reply.offsets), reply.sinceLastRxNs);
  }

  lemma FarHolderIsOutside(interval: nat, offsets: seq<Bytes>)
    returns (w: World, run: Run, log: seq<Learning>, verify: Verifier, reply: ReplyPacket)
    requires OffsetsOk(offsets) && 0 < interval <= STALE_PAIR_TIMEOUT && OffsetRtt(offsets) + interval > MAX_DURATION
    ensures Reported(w, run, log, verify, {}, reply, offsets, interval)
    ensures !SomeHolderWithin(w, reply.probe.senderPubkey, ProvableMaxDistance(AsDuration(reply.rttNs)))
  {
    var d, signer, k := ProvableMaxDistance(interval), Signer(Zeros(32), _ => Zeros(64)), [1] + Zeros(31);
    w := FarWorld(d);
    assert k[0] != signer.pub[0];
    FarWorldIsMetric(d);
    run, log, verify, reply := EveryAllowedIntervalOccurs(w, 1, signer, k, interval, offsets);
    AuthenticRttAddsInterval(run, verify, {}, reply);
    OverflowedRtt(reply);
    OnlyHolderIsFar(d, reply.probe.senderPubkey, ProvableMaxDistance(AsDuration(reply.rttNs)));
  }

  /**
   The reported RTT bounds the distance in every case exactly when the interval is zero or its sum with the
   offset's RTT is at most 2^63 - 1 nanoseconds.
   */
  lemma RttBoundIff(offsets: seq<Bytes>, interval: nat)
    requires OffsetsOk(offsets) && interval <= STALE_PAIR_TIMEOUT
    ensures interval == 0 || OffsetRtt(offsets) + interval <= MAX_DURATION
       <==> forall w, run, log, verify, trees, reply | Reported(w, run, log, verify, trees, reply, offsets, interval) ::
              SomeHolderWithin(w, reply.probe.senderPubkey, ProvableMaxDistance(AsDuration(reply.rttNs)))
  {
    if interval == 0 || OffsetRtt(offsets) + interval <= MAX_DURATION {
      forall w, run, log, verify, trees, reply | Reported(w, run, log, verify, trees, reply, offsets, interval)
        ensures SomeHolderWithin(w, reply.probe.senderPubkey, ProvableMaxDistance(AsDuration(reply.rttNs)))
      {
        var holder := ChallengedRttBoundsHolder(w, run, log, verify, trees, reply);
      }
    } else {
      var w, run, log, verify, reply := FarHolderIsOutside(interval, offsets);
    }
  }
}
