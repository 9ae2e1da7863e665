/** An honest pair gets through: from every reachable state, once the record has expired. */
module Recovery {
  import opened Wrappers
  import opened ByteCodec
  import opened Signing
  import opened Packet
  import opened PacketCodec
  import opened Reflector
  import opened Runs
  import opened Automaton
  import opened Sender

  /** By `now` the pair, complete or not, is over. */
  predicate Elapsed(interval: Duration, st: SenderState, now: Time) {
    && (st.pairCount >= 2 ==> st.pairStart + interval <= now)
    && (st.lastTxTime.Some? ==> st.lastTxTime.value + STALE_PAIR_TIMEOUT < now)
  }

  /**
   Once its time is up a record makes room for a new pair if and only if it is not in the middle of one, or
   holds the time of a transmission.
   */
  lemma ExpiresIffTimed(interval: Duration, st: SenderState, now: Time)
    requires interval > 0 && SenderOk(interval, st) && Elapsed(interval, st, now)
    ensures !RateLimited(interval, st, now)
    ensures Expire(interval, st, now).pairCount == 0 <==> Timed(st)
  {
  }

  /** Event `i` sends `k` a reply, and no reload removes `k` between it and event `n`. */
  ghost predicate SentSince(run: Run, i: nat, n: nat, k: Key)
    requires i < n <= |run.events|
  {
    && run.VerdictAt(i, k).Answered? && OffsetsOk(run.StateAt(i).offsets)
    && forall m | i < m < n :: !Removes(run.StateAt(m), run.events[m], k)
  }

  ghost predicate SomeReplySent(run: Run, n: nat, k: Key)
    requires n <= |run.events|
  {
    exists i | 0 <= i < n :: SentSince(run, i, n, k)
  }

  lemma SentSinceStep(run: Run, i: nat, n: nat, k: Key)
    requires i < n < |run.events|
    ensures SentSince(run, i, n + 1, k) <==> SentSince(run, i, n, k) && !Removes(run.StateAt(n), run.events[n], k)
  {
  }

  lemma SomeReplySentStep(run: Run, n: nat, k: Key)
    requires n < |run.events|
    ensures SomeReplySent(run, n + 1, k)
       <==> SentSince(run, n, n + 1, k)
            || (SomeReplySent(run, n, k) && !Removes(run.StateAt(n), run.events[n], k))
  {
    if SomeReplySent(run, n + 1, k) {
      var i :| 0 <= i < n + 1 && SentSince(run, i, n + 1, k);
      if i < n {
        SentSinceStep(run, i, n, k);
      }
    }
    if SomeReplySent(run, n, k) {
      var i :| 0 <= i < n && SentSince(run, i, n, k);
      SentSinceStep(run, i, n, k);
    }
  }

  /** A record holds a transmit time exactly when its sender has been sent some reply since it was last removed. */
  lemma {:induction false} TimedIffSomeReplySent(run: Run, n: nat, k: Key)
    requires run.start.senders == map[] && n <= |run.events|
    ensures run.SenderAt(n, k).lastTxTime.Some? <==> SomeReplySent(run, n, k)
  {
    if n > 0 {
      TimedIffSomeReplySent(run, n - 1, k);
      TimedStep(run, n - 1, k);
      SomeReplySentStep(run, n - 1, k);
    }
  }

  lemma TimedStep(run: Run, n: nat, k: Key)
    requires n < |run.events|
    ensures run.SenderAt(n + 1, k).lastTxTime.Some?
       <==> SentSince(run, n, n + 1, k)
            || (run.SenderAt(n, k).lastTxTime.Some? && !Removes(run.StateAt(n), run.events[n], k))
  {
    StepForSender(run.cfg, run.StateAt(n), run.events[n], k);
  }

  /**
   A nonce issued while the offsets do not fit a reply: nothing is sent, and the record keeps the transmit
   time it had.  The pair goes stale five seconds after that earlier transmission, and never if there was none.
   */
  lemma UnsentIssueKeepsOldTime(cfg: Config, s: State, e: Event, k: Key)
    requires VerdictOf(cfg, s, e, k).Answered? && VerdictOf(cfg, s, e, k).first && !OffsetsOk(s.offsets)
    ensures Reply(cfg, s, e).None?
    ensures var before, after := SenderOf(s, k), SenderOf(Next(cfg, s, e), k);
            && after.pairCount == 1 && after.lastTxTime == before.lastTxTime
            && (Timed(after) <==> before.lastTxTime.Some?)
            && forall now {:trigger Expire(cfg.verifyInterval, after, now)} ::
                 Expire(cfg.verifyInterval, after, now).pairCount == 0
                 <==> before.lastTxTime.Some? && Sub(now, before.lastTxTime.value) > STALE_PAIR_TIMEOUT
  {
    StepForSender(cfg, s, e, k);
    ReplyForSender(cfg, s, e, k);
  }

  /** A pair in a record without a transmit time never goes stale: it shuts out every other address, however late the probe. */
  lemma UntimedPairShutsOutOthers(cfg: Config, s: State, e: Event, k: Key)
    requires ProbeFor(s, e, k).Some? && SenderOf(s, k).pairCount == 1 && !Timed(SenderOf(s, k))
    requires e.from.Inet4? && e.from.ip != SenderOf(s, k).pairSourceIP
    ensures VerdictOf(cfg, s, e, k).Dropped? && SenderOf(Next(cfg, s, e), k) == SenderOf(s, k)
  {
    StepForSender(cfg, s, e, k);
  }

  /** Events that leave `k`'s record alone: no probe of `k`, and no removal. */
  ghost predicate Undisturbed(run: Run, lo: nat, hi: nat, k: Key)
    requires hi <= |run.events|
  {
    forall m | lo <= m < hi :: !run.ProbedAt(m, k) && !Removes(run.StateAt(m), run.events[m], k)
  }

  lemma {:induction false} UndisturbedKeepsRecord(run: Run, lo: nat, hi: nat, k: Key)
    requires lo <= hi <= |run.events| && Undisturbed(run, lo, hi, k) && k in run.StateAt(lo).authorized
    ensures run.SenderAt(hi, k) == run.SenderAt(lo, k) && k in run.StateAt(hi).authorized
    decreases hi
  {
    if lo < hi {
      UndisturbedKeepsRecord(run, lo, hi - 1, k);
      StepForSender(run.cfg, run.StateAt(hi - 1), run.events[hi - 1], k);
    }
  }

  /** The reflector's half: the first probe is issued a nonce. */
  lemma HonestProbeIsIssued(run: Run, i0: nat, probe0: ProbePacket)
    requires run.start.senders == map[] && run.cfg.verifyInterval > 0 && OffsetsAlwaysOk(run)
    requires i0 < |run.events| && run.events[i0].Receive? && run.events[i0].probe == Some(probe0)
    requires probe0.senderPubkey in run.StateAt(i0).authorized && run.events[i0].from.Inet4?
    requires Elapsed(run.cfg.verifyInterval, run.SenderAt(i0, probe0.senderPubkey), run.events[i0].now)
    ensures run.VerdictAt(i0, probe0.senderPubkey) == Answered(true, run.events[i0].draw, false)
    ensures probe0.senderPubkey in run.StateAt(i0 + 1).authorized
    ensures var st, e := run.SenderAt(i0 + 1, probe0.senderPubkey), run.events[i0];
            && st.pairCount == 1 && st.nonce == e.draw && st.lastTxTime == Some(e.tx) && st.pairSourceIP == e.from.ip
  {
    var k := probe0.senderPubkey;
    SendersStayOk(run, i0, k);
    RunRefinesAutomaton(run, i0, k);
    ExpiresIffTimed(run.cfg.verifyInterval, run.SenderAt(i0, k), run.events[i0].now);
    OffsetsStayOk(run, i0);
    StepForSender(run.cfg, run.StateAt(i0), run.events[i0], k);
  }

  /** The second probe, when it echoes the nonce in time and undisturbed, is challenged. */
  lemma HonestPairIsChallenged(run: Run, i0: nat, i1: nat, probe0: ProbePacket, probe1: ProbePacket)
    requires run.start.senders == map[] && run.cfg.verifyInterval > 0 && OffsetsAlwaysOk(run)
    requires i0 < i1 < |run.events| && run.events[i0].Receive? && run.events[i1].Receive?
    requires run.events[i0].probe == Some(probe0) && run.events[i1].probe == Some(probe1)
    requires probe0.senderPubkey == probe1.senderPubkey && probe0.senderPubkey in run.StateAt(i0).authorized
    requires run.events[i0].from.Inet4? && run.events[i1].from.Inet4? && run.events[i0].from.ip == run.events[i1].from.ip
    requires Elapsed(run.cfg.verifyInterval, run.SenderAt(i0, probe0.senderPubkey), run.events[i0].now)
    requires PresentedNonce(probe1) == run.events[i0].draw != 0
    requires run.events[i1].now <= run.events[i0].tx + STALE_PAIR_TIMEOUT
    requires Undisturbed(run, i0 + 1, i1, probe0.senderPubkey)
    ensures run.VerdictAt(i0, probe0.senderPubkey) == Answered(true, run.events[i0].draw, false)
    ensures run.VerdictAt(i1, probe0.senderPubkey)
         == Answered(false, AsUint64(Sub(run.events[i1].now, run.events[i0].tx)), true)
  {
    HonestProbeIsIssued(run, i0, probe0);
    UndisturbedKeepsRecord(run, i0 + 1, i1, probe0.senderPubkey);
  }

  /** A reply that answers `probe` under this run's anchor key, carrying `since`. */
  predicate IsAnswer(run: Run, verify: Verifier, reply: ReplyPacket, probe: ProbePacket, since: Uint64, challenged: bool) {
    && reply.probe == probe && reply.sinceLastRxNs == since && reply.challenged == challenged
    && reply.authorityPubkey == run.cfg.signer.pub && ReplyVerifies(verify, reply) && OffsetsOk(reply.offsets)
  }

  lemma AnswerIsSent(run: Run, i: nat, probe: ProbePacket, verify: Verifier)
    requires OffsetsAlwaysOk(run) && Honours(verify, run.cfg.signer)
    requires i < |run.events| && run.events[i].Receive? && run.events[i].probe == Some(probe)
    requires run.VerdictAt(i, probe.senderPubkey).Answered?
    ensures run.ReplyAt(i).Some?
    ensures var v := run.VerdictAt(i, probe.senderPubkey);
            IsAnswer(run, verify, run.ReplyAt(i).value, probe, v.sinceLastRxNs, v.challenged)
  {
    OffsetsStayOk(run, i);
    var offsets, v := run.StateAt(i).offsets, run.VerdictAt(i, probe.senderPubkey);
    ReplyForSender(run.cfg, run.StateAt(i), run.events[i], probe.senderPubkey);
    NewReplyVerifies(Draft(run.cfg, offsets, probe, v), run.cfg.signer, verify);
  }

  /** Turn `i` brings this reply with a kernel timestamp, and every turn before it is passed over. */
  ghost predicate BringsAt(peer: Peer, probe: ProbePacket, verifying: bool, polls: seq<Poll>, reply: ReplyPacket, i: int) {
    && 0 <= i < |polls|
    && (forall x | 0 <= x < i :: PassedOver(Acceptor(peer, probe, verifying), polls[x]))
    && polls[i].Ready? && polls[i].receipt.Got?
    && polls[i].receipt.datagram.data == ReplyBytes(reply) && polls[i].receipt.datagram.control.Stamped?
  }

  /** The reply arrives before anything else that stops the wait. */
  ghost predicate Delivers(peer: Peer, probe: ProbePacket, verifying: bool, x: Exchange, reply: ReplyPacket) {
    exists i :: BringsAt(peer, probe, verifying, x.busy + x.blocking, reply, i)
  }

  /** The reflector's replies to an honest pair are acceptable to the sender they answer. */
  lemma HonestRepliesAreAcceptable(run: Run, verify: Verifier, reply: ReplyPacket, probe: ProbePacket, since: Uint64,
                                   challenged: bool, verifying: bool)
    requires IsAnswer(run, verify, reply, probe, since, challenged) && (verifying ==> ProbeVerifies(verify, probe))
    ensures Accepts(Peer(verify, run.cfg.signer.pub), probe, verifying, ReplyBytes(reply))
    ensures ParseReply(ReplyBytes(reply)) == Some(reply)
  {
    ReplyRoundTrip(reply, Zeros(PayloadSize(reply)));
  }

  lemma DeliveredReplyIsReturned(peer: Peer, probe: ProbePacket, verifying: bool, x: Exchange, reply: ReplyPacket)
    requires Accepts(peer, probe, verifying, ReplyBytes(reply)) && ParseReply(ReplyBytes(reply)) == Some(reply)
    requires x.sendOk && Delivers(peer, probe, verifying, x, reply)
    ensures SendAndReceive(peer, probe, verifying, x).Ok?
    ensures SendAndReceive(peer, probe, verifying, x).value.1 == reply
  {
    var i :| BringsAt(peer, probe, verifying, x.busy + x.blocking, reply, i);
    BroughtReplyEndsWait(peer, probe, verifying, x.sendTime, x.busy + x.blocking, reply, i);
  }

  lemma BroughtReplyEndsWait(peer: Peer, probe: ProbePacket, verifying: bool, sendTime: Time, polls: seq<Poll>,
                             reply: ReplyPacket, i: int)
    requires Accepts(peer, probe, verifying, ReplyBytes(reply)) && ParseReply(ReplyBytes(reply)) == Some(reply)
    requires BringsAt(peer, probe, verifying, polls, reply, i)
    ensures var outcome := AwaitOutcome(peer, probe, verifying, sendTime, polls); outcome.Ok? && outcome.value.1 == reply
  {
    BroughtIsFirst(peer, probe, verifying, polls, reply, i);
    AwaitFirst(peer, probe, verifying, sendTime, polls, i);
  }

  lemma BroughtIsFirst(peer: Peer, probe: ProbePacket, verifying: bool, polls: seq<Poll>, reply: ReplyPacket, i: int)
    requires Accepts(peer, probe, verifying, ReplyBytes(reply)) && BringsAt(peer, probe, verifying, polls, reply, i)
    ensures IsFirst(Acceptor(peer, probe, verifying), polls, i)
  {
  }

  /** Event `i` of the anchor brings what the sender put on the wire, from the sender's address, if it put anything there. */
  ghost predicate Arrives(run: Run, i: nat, from: Bytes4, sends: seq<Bytes>, x: nat)
    requires i < |run.events|
  {
    && run.events[i].Receive? && run.events[i].from.Inet4? && run.events[i].from.ip == from
    && (x < |sends| ==> run.events[i].probe == ParseProbe(sends[x]))
  }

  /** The reply the anchor sends at event `i`, if it sends one, is delivered. */
  ghost predicate Returns(run: Run, verify: Verifier, i: nat, probe: ProbePacket, verifying: bool, x: Exchange)
    requires i < |run.events|
  {
    run.ReplyAt(i).Some? ==> Delivers(Peer(verify, run.cfg.signer.pub), probe, verifying, x, run.ReplyAt(i).value)
  }

  /** Over a closed network the first exchange returns the anchor's answer, and the second probe echoes its nonce. */
  lemma HonestFirstExchange(run: Run, verify: Verifier, i0: nat, from: Bytes4, signer: Signer, probe0: ProbePacket, x0: Exchange, x1: Exchange)
    requires run.start.senders == map[] && run.cfg.verifyInterval > 0 && OffsetsAlwaysOk(run)
    requires Honours(verify, run.cfg.signer) && probe0.senderPubkey == signer.pub && x0.sendOk && x1.sendOk
    requires i0 < |run.events|
    requires Arrives(run, i0, from, ChallengedSends(Peer(verify, run.cfg.signer.pub), signer, probe0, x0, x1), 0)
    requires signer.pub in run.StateAt(i0).authorized
    requires Elapsed(run.cfg.verifyInterval, run.SenderAt(i0, signer.pub), run.events[i0].now)
    requires Returns(run, verify, i0, probe0, false, x0)
    ensures run.events[i0].probe == Some(probe0)
    ensures var outcome := SendAndReceive(Peer(verify, run.cfg.signer.pub), probe0, false, x0);
            outcome.Ok? && IsAnswer(run, verify, outcome.value.1, probe0, run.events[i0].draw, false)
    ensures ChallengedSends(Peer(verify, run.cfg.signer.pub), signer, probe0, x0, x1)
         == [ProbeBytes(probe0), ProbeBytes(NewChallengedProbe(NextSequence(probe0.sequence), signer, run.events[i0].draw))]
  {
    ProbeRoundTrip(probe0);
    HonestProbeIsIssued(run, i0, probe0);
    AnswerIsSent(run, i0, probe0, verify);
    var reply := run.ReplyAt(i0).value;
    HonestRepliesAreAcceptable(run, verify, reply, probe0, run.events[i0].draw, false, false);
    DeliveredReplyIsReturned(Peer(verify, run.cfg.signer.pub), probe0, false, x0, reply);
  }

  /**
   Completeness of the closed system.  The anchor receives exactly what the sender puts on the wire, and the
   sender what the anchor answers.  When the record has expired, the nonce drawn is not zero, the second probe
   arrives within five seconds from the same address and no other probe of the key comes between, an honest
   challenged pair sends both its probes and returns both replies: Reply 0 with the nonce, Reply 1 challenged,
   with the interval from Reply 0's transmission, and both verifying.
   */
  lemma HonestPairCompletes(run: Run, verify: Verifier, i0: nat, i1: nat, from: Bytes4, signer: Signer, probe0: ProbePacket,
                            x0: Exchange, x1: Exchange)
    requires run.start.senders == map[] && run.cfg.verifyInterval > 0 && OffsetsAlwaysOk(run)
    requires Honours(verify, signer) && Honours(verify, run.cfg.signer) && probe0.senderPubkey == signer.pub
    requires i0 < i1 < |run.events| && x0.sendOk && x1.sendOk
    requires var sends := ChallengedSends(Peer(verify, run.cfg.signer.pub), signer, probe0, x0, x1);
             Arrives(run, i0, from, sends, 0) && Arrives(run, i1, from, sends, 1)
    requires signer.pub in run.StateAt(i0).authorized
    requires Elapsed(run.cfg.verifyInterval, run.SenderAt(i0, signer.pub), run.events[i0].now)
    requires run.events[i0].draw != 0 && run.events[i1].now <= run.events[i0].tx + STALE_PAIR_TIMEOUT
    requires Undisturbed(run, i0 + 1, i1, signer.pub)
    requires Returns(run, verify, i0, probe0, false, x0)
    requires Returns(run, verify, i1, NewChallengedProbe(NextSequence(probe0.sequence), signer, run.events[i0].draw), true, x1)
    ensures var peer := Peer(verify, run.cfg.signer.pub);
            var probe1 := NewChallengedProbe(NextSequence(probe0.sequence), signer, run.events[i0].draw);
            var result := ChallengedPair(peer, signer, probe0, x0, x1);
            && ChallengedSends(peer, signer, probe0, x0, x1) == [ProbeBytes(probe0), ProbeBytes(probe1)]
            && result.Ok?
            && IsAnswer(run, verify, result.value.reply0, probe0, run.events[i0].draw, false)
            && IsAnswer(run, verify, result.value.reply1, probe1, AsUint64(Sub(run.events[i1].now, run.events[i0].tx)), true)
            && ProbeVerifies(verify, result.value.reply1.probe)
  {
    var peer, draw := Peer(verify, run.cfg.signer.pub), run.events[i0].draw;
    var probe1 := NewChallengedProbe(NextSequence(probe0.sequence), signer, draw);
    HonestFirstExchange(run, verify, i0, from, signer, probe0, x0, x1);
    ProbeRoundTrip(probe1);
    ChallengedProbePresentsNonce(NextSequence(probe0.sequence), signer, draw, verify);
    HonestPairIsChallenged(run, i0, i1, probe0, probe1);
    AnswerIsSent(run, i1, probe1, verify);
    var reply := run.ReplyAt(i1).value;
    HonestRepliesAreAcceptable(run, verify, reply, probe1, reply.sinceLastRxNs, true, true);
    DeliveredReplyIsReturned(peer, probe1, true, x1, reply);
  }
}
