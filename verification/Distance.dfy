/**
 The end-to-end theorem.  Nodes sit in a metric space and pass on what they know no
 faster than light; the network, and every node but the anchor, is hostile.  Signatures
 are ideal and issued nonces unguessable.  Then the interval in an authentic challenged
 reply bounds how far away the nearest holder of the probing key can be.
 */
module Distance {
  import opened Wrappers
  import opened ByteCodec
  import opened Signing
  import opened Packet
  import opened PacketCodec
  import opened Reflector
  import opened Runs
  import opened Sender
  import opened Geo
  import Layout
  import OffsetFormat

  type Node = int

  /** Where things are, and who can sign with which key. */
  datatype World = World(anchor: Node, holds: (Node, Key) -> bool, dist: (Node, Node) -> real)

  ghost predicate Metric(w: World) {
    && (forall a: Node :: w.dist(a, a) == 0.0)
    && (forall a: Node, b: Node :: w.dist(a, b) >= 0.0 && w.dist(a, b) == w.dist(b, a))
    && (forall a: Node, b: Node, c: Node :: w.dist(a, c) <= w.dist(a, b) + w.dist(b, c))
  }

  /** Light leaving `p` at `s` can be at `q` by `t`; times are in nanoseconds. */
  predicate Reaches(w: World, p: Node, s: real, q: Node, t: real) {
    s <= t && w.dist(p, q) * NANOS <= (t - s) * C_VACUUM_MPS
  }

  lemma Onward(w: World, p: Node, s: real, q: Node, t: real, r: Node, u: real)
    requires Metric(w) && Reaches(w, p, s, q, t) && Reaches(w, q, t, r, u)
    ensures Reaches(w, p, s, r, u)
  {
  }

  lemma Staying(w: World, p: Node, s: real, t: real)
    requires Metric(w) && s <= t
    ensures Reaches(w, p, s, p, t)
  {
  }

  // What nodes come to know.

  /** The pieces of knowledge that matter: a 64-bit number, and a key's signature over a message. */
  datatype Atom = NumberAtom(number: Uint64) | SignatureAtom(key: Key, message: Bytes)

  /** How a node came to know something. */
  datatype Cause =
    | SentByAnchor(event: nat)
    | Relayed(source: nat)
    | SignedHere(source: nat)
    | Guessed

  datatype Learning = Learning(node: Node, time: real, atom: Atom, cause: Cause)

  /** The number a message of a probe's length presents where the timestamp goes. */
  function NumberIn(message: Bytes): Option<Uint64> {
    if |message| != PROBE_PAYLOAD_SIZE then None
    else Some(Be32(message[4..8]) * TWO_TO_THE_32 + Be32(message[8..12]))
  }

  /**
   Entry `i` of a log is explained by the run and by earlier entries.
   - The anchor lets a nonce out only in a Reply 0 it sends, not before it has timed it.
   - Any node passes on what it knows, no faster than light.
   - A signature is made by a holder of the key, who knows the number it signs.
   - Numbers, but not signatures, can be guessed.
   */
  ghost predicate Explained(w: World, run: Run, log: seq<Learning>, i: nat)
    requires i < |log|
  {
    var l := log[i];
    match l.cause
    case SentByAnchor(j) =>
      && l.node == w.anchor
      && j < |run.events| && run.events[j].Receive? && run.ReplyAt(j).Some?
      && run.IssuedAt(j, run.ReplyAt(j).value.probe.senderPubkey)
      && l.atom == NumberAtom(run.events[j].draw)
      && run.events[j].tx as real <= l.time
    case Relayed(s) =>
      s < i && log[s].atom == l.atom && Reaches(w, log[s].node, log[s].time, l.node, l.time)
    case SignedHere(s) =>
      && l.atom.SignatureAtom? && w.holds(l.node, l.atom.key)
      && (NumberIn(l.atom.message).Some? ==>
            s < i && log[s].node == l.node && log[s].time <= l.time
            && log[s].atom == NumberAtom(NumberIn(l.atom.message).value))
    case Guessed => l.atom.NumberAtom?
  }

  ghost predicate Chronicle(w: World, run: Run, log: seq<Learning>) {
    forall i | 0 <= i < |log| :: Explained(w, run, log, i)
  }

  /** The nonce issued at event `j` is nobody's guess and is not issued a second time. */
  ghost predicate FreshNonce(run: Run, log: seq<Learning>, j: nat)
    requires j < |run.events| && run.events[j].Receive?
  {
    forall i | 0 <= i < |log| && log[i].atom == NumberAtom(run.events[j].draw) ::
      !log[i].cause.Guessed? && (log[i].cause.SentByAnchor? ==> log[i].cause.event == j)
  }

  /** Knowledge of a fresh nonce spreads from its transmission, and implies that transmission. */
  lemma {:induction false} NonceSpreadsFromAnchor(w: World, run: Run, log: seq<Learning>, j: nat, i: nat)
    requires Metric(w) && Chronicle(w, run, log)
    requires j < |run.events| && run.events[j].Receive? && FreshNonce(run, log, j)
    requires i < |log| && log[i].atom == NumberAtom(run.events[j].draw)
    ensures run.ReplyAt(j).Some?
    ensures Reaches(w, w.anchor, run.events[j].tx as real, log[i].node, log[i].time)
    decreases i
  {
    assert Explained(w, run, log, i);
    var l := log[i];
    match l.cause
    case SentByAnchor(_) =>
      Staying(w, w.anchor, run.events[j].tx as real, l.time);
    case Relayed(x) =>
      NonceSpreadsFromAnchor(w, run, log, j, x);
      Onward(w, w.anchor, run.events[j].tx as real, log[x].node, log[x].time, l.node, l.time);
    case SignedHere(_) =>
    case Guessed =>
  }

  /** A signature over a fresh nonce, wherever it is known, has been by way of a holder of its key. */
  lemma {:induction false} SignatureSpreadsFromHolder(w: World, run: Run, log: seq<Learning>, j: nat, i: nat)
    returns (holder: Node, made: real)
    requires Metric(w) && Chronicle(w, run, log)
    requires j < |run.events| && run.events[j].Receive? && FreshNonce(run, log, j)
    requires i < |log| && log[i].atom.SignatureAtom? && NumberIn(log[i].atom.message) == Some(run.events[j].draw)
    ensures run.ReplyAt(j).Some?
    ensures w.holds(holder, log[i].atom.key)
    ensures Reaches(w, w.anchor, run.events[j].tx as real, holder, made)
    ensures Reaches(w, holder, made, log[i].node, log[i].time)
    decreases i
  {
    assert Explained(w, run, log, i);
    var l := log[i];
    match l.cause
    case Relayed(x) =>
      holder, made := SignatureSpreadsFromHolder(w, run, log, j, x);
      Onward(w, holder, made, log[x].node, log[x].time, l.node, l.time);
    case SignedHere(x) =>
      NonceSpreadsFromAnchor(w, run, log, j, x);
      holder, made := l.node, l.time;
      Staying(w, holder, log[x].time, made);
      Onward(w, w.anchor, run.events[j].tx as real, holder, log[x].time, holder, made);
      Staying(w, holder, made, made);
    case SentByAnchor(_) =>
    case Guessed =>
  }

  /** Back at the anchor, the round trip took at least twice the way to some holder of the key. */
  lemma RoundTripBoundsHolder(w: World, run: Run, log: seq<Learning>, j: nat, i: nat) returns (holder: Node)
    requires Metric(w) && Chronicle(w, run, log)
    requires j < |run.events| && run.events[j].Receive? && FreshNonce(run, log, j)
    requires i < |log| && log[i].node == w.anchor
    requires log[i].atom.SignatureAtom? && NumberIn(log[i].atom.message) == Some(run.events[j].draw)
    ensures run.ReplyAt(j).Some? && w.holds(holder, log[i].atom.key)
    ensures 2.0 * w.dist(w.anchor, holder) * NANOS <= (log[i].time - run.events[j].tx as real) * C_VACUUM_MPS
  {
    var made: real;
    holder, made := SignatureSpreadsFromHolder(w, run, log, j, i);
  }

  // Tying the log to the packets.

  /** Ideal probe signatures: a probe that verifies brings the anchor a signature that someone made. */
  ghost predicate ProbeSignaturesTravel(w: World, run: Run, log: seq<Learning>, verify: Verifier) {
    forall i | 0 <= i < |run.events| && run.events[i].Receive? && run.events[i].probe.Some?
               && ProbeVerifies(verify, run.events[i].probe.value) ::
      Heard(w, log, run.events[i].probe.value, run.events[i].now)
  }

  ghost predicate Heard(w: World, log: seq<Learning>, p: ProbePacket, until: Time) {
    exists x | 0 <= x < |log| ::
      log[x].node == w.anchor && log[x].time <= until as real
      && log[x].atom == SignatureAtom(p.senderPubkey, ProbePayload(p))
  }

  /** Ideal anchor signatures: its key signed this run's replies and some offsets, nothing else. */
  ghost predicate AnchorSigned(run: Run, verify: Verifier, offsets: set<OffsetFormat.OffsetTree>) {
    forall m: Bytes, s: Bytes | verify(run.cfg.signer.pub, m, s) ::
      IsReplyOf(run, m) || exists o | o in offsets :: m == OffsetFormat.SigningBytes(o)
  }

  ghost predicate IsReplyOf(run: Run, m: Bytes) {
    exists i | 0 <= i < |run.events| :: run.ReplyAt(i).Some? && m == ReplyPayload(run.ReplyAt(i).value)
  }

  /** A number that is presented in a probe is presented in its signed bytes. */
  lemma PresentedNonceIsSigned(p: ProbePacket)
    ensures NumberIn(ProbePayload(p)) == Some(PresentedNonce(p))
  {
    var data := ProbeBytes(p);
    ProbeIsPayloadThenSignature(p);
    ProbeRoundTrip(p);
    ProbeLayoutStarts();
    Layout.FieldAt(data, PROBE_LAYOUT, 1);
    Layout.FieldAt(data, PROBE_LAYOUT, 2);
    assert data[4..8] == ProbePayload(p)[4..8] && data[8..12] == ProbePayload(p)[8..12];
  }

  /** An authentic reply is one the anchor sent in this run, up to its signature bytes. */
  lemma AuthenticReplyWasSent(run: Run, verify: Verifier, offsets: set<OffsetFormat.OffsetTree>, reply: ReplyPacket) returns (i: nat)
    requires AnchorSigned(run, verify, offsets) && OffsetsOk(reply.offsets)
    requires Authentic(Peer(verify, run.cfg.signer.pub), reply)
    ensures i < |run.events| && run.ReplyAt(i).Some?
    ensures run.ReplyAt(i).value.(signature := reply.signature) == reply
  {
    var m := ReplyPayload(reply);
    forall o | o in offsets
      ensures m != OffsetFormat.SigningBytes(o)
    {
      SignedFormatsDisjoint(reply.probe, reply, o);
    }
    assert IsReplyOf(run, m);
    i :| 0 <= i < |run.events| && run.ReplyAt(i).Some? && m == ReplyPayload(run.ReplyAt(i).value);
    var sent := run.ReplyAt(i).value;
    ReplyForSender(run.cfg, run.StateAt(i), run.events[i], sent.probe.senderPubkey);
    ReplyPayloadDeterminesReply(sent, reply);
  }

  /** Every nonce issued is fresh, but for the zero that stands for a failed draw. */
  ghost predicate FreshNonces(run: Run, log: seq<Learning>) {
    forall j, k | 0 <= j < |run.events| && run.IssuedAt(j, k) && run.events[j].Receive? && run.events[j].draw != 0 ::
      FreshNonce(run, log, j)
  }

  /** What the theorem assumes of a world, a run, and what happened in it. */
  ghost predicate Idealised(w: World, run: Run, log: seq<Learning>, verify: Verifier, offsets: set<OffsetFormat.OffsetTree>) {
    && Metric(w) && run.start.senders == map[]
    && Chronicle(w, run, log) && FreshNonces(run, log)
    && ProbeSignaturesTravel(w, run, log, verify)
    && AnchorSigned(run, verify, offsets)
  }

  /**
   Distance bound.  Whoever holds an authentic challenged reply knows that some holder of the key in its
   probe is within the provable distance of the reported interval.
   */
  lemma ChallengedIntervalBoundsHolder(w: World, run: Run, log: seq<Learning>, verify: Verifier,
                                       offsets: set<OffsetFormat.OffsetTree>, reply: ReplyPacket)
    returns (holder: Node)
    requires Idealised(w, run, log, verify, offsets)
    requires Authentic(Peer(verify, run.cfg.signer.pub), reply) && OffsetsOk(reply.offsets) && reply.challenged
    ensures w.holds(holder, reply.probe.senderPubkey)
    ensures w.dist(w.anchor, holder) <= ProvableMaxDistance(AsDuration(reply.sinceLastRxNs))
    ensures reply.sinceLastRxNs <= STALE_PAIR_TIMEOUT
  {
    var i := AuthenticReplyWasSent(run, verify, offsets, reply);
    holder := ChallengedEventBoundsHolder(w, run, log, verify, i);
  }

  /** The same of the run: the event that a challenged reply answers. */
  lemma ChallengedEventBoundsHolder(w: World, run: Run, log: seq<Learning>, verify: Verifier, i: nat) returns (holder: Node)
    requires Metric(w) && run.start.senders == map[] && Chronicle(w, run, log) && FreshNonces(run, log)
    requires ProbeSignaturesTravel(w, run, log, verify)
    requires i < |run.events| && run.ReplyAt(i).Some? && run.ReplyAt(i).value.challenged
    requires ProbeVerifies(verify, run.ReplyAt(i).value.probe)
    ensures w.holds(holder, run.ReplyAt(i).value.probe.senderPubkey)
    ensures w.dist(w.anchor, holder) <= ProvableMaxDistance(AsDuration(run.ReplyAt(i).value.sinceLastRxNs))
    ensures run.ReplyAt(i).value.sinceLastRxNs <= STALE_PAIR_TIMEOUT
  {
    var p := run.ReplyAt(i).value.probe;
    var k := p.senderPubkey;
    var j := run.LastIssue(i, k);
    ChallengedReplyIsSecondOfPair(run, i);
    ReplyForSender(run.cfg, run.StateAt(i), run.events[i], k);
    assert run.events[i].probe == Some(p);
    assert Heard(w, log, p, run.events[i].now);
    var x :| 0 <= x < |log| && log[x].node == w.anchor && log[x].time <= run.events[i].now as real
             && log[x].atom == SignatureAtom(k, ProbePayload(p));
    PresentedNonceIsSigned(p);
    holder := RoundTripBoundsHolder(w, run, log, j, x);
    IntervalBounds(w.dist(w.anchor, holder), run.events[i].now, run.events[j].tx, log[x].time);
  }

  /** The anchor's own clock brackets the round trip from outside. */
  lemma IntervalBounds(d: real, now: Time, tx: Time, back: real)
    requires d >= 0.0 && back <= now as real && 2.0 * d * NANOS <= (back - tx as real) * C_VACUUM_MPS
    requires Sub(now, tx) <= STALE_PAIR_TIMEOUT
    ensures AsUint64(Sub(now, tx)) == now - tx <= STALE_PAIR_TIMEOUT
    ensures d <= ProvableMaxDistance(AsDuration(AsUint64(Sub(now, tx))))
  {
    assert now as real >= tx as real;
    assert (now - tx) as real == now as real - tx as real;
    BoundIsTwoWayLight(now - tx, d);
  }

  /** The RTT that the first offset brings with it. */
  function OffsetRtt(offsets: seq<Bytes>): Uint64 {
    if offsets == [] || ParseOffsetInfo(offsets[0]).None? then 0 else ParseOffsetInfo(offsets[0]).value.rttNs
  }

  predicate AddsInterval(r: ReplyPacket) {
    r.rttNs == (OffsetRtt(r.offsets) + r.sinceLastRxNs) % TWO_TO_THE_64
  }

  /** The reported RTT, read as a signed duration, is no less than the interval in it. */
  predicate IntervalFits(r: ReplyPacket) {
    r.sinceLastRxNs == 0 || OffsetRtt(r.offsets) + r.sinceLastRxNs <= MAX_DURATION
  }

  /**
   The reported RTT bounds the distance as well whenever the interval fits in it, as it does with a root
   offset, whose own RTT is zero.  Where it does not fit the bound fails: see `Attainment.RttBoundIff`.
   */
  lemma ChallengedRttBoundsHolder(w: World, run: Run, log: seq<Learning>, verify: Verifier,
                                  offsets: set<OffsetFormat.OffsetTree>, reply: ReplyPacket)
    returns (holder: Node)
    requires Idealised(w, run, log, verify, offsets)
    requires Authentic(Peer(verify, run.cfg.signer.pub), reply) && OffsetsOk(reply.offsets) && reply.challenged
    requires IntervalFits(reply)
    ensures w.holds(holder, reply.probe.senderPubkey)
    ensures w.dist(w.anchor, holder) <= ProvableMaxDistance(AsDuration(reply.rttNs))
    ensures OffsetRtt(reply.offsets) == 0 ==> reply.rttNs == reply.sinceLastRxNs
  {
    holder := ChallengedIntervalBoundsHolder(w, run, log, verify, offsets, reply);
    AuthenticRttAddsInterval(run, verify, offsets, reply);
    RttKeepsBound(w.dist(w.anchor, holder), reply);
  }

  lemma RttKeepsBound(d: real, reply: ReplyPacket)
    requires AddsInterval(reply) && d <= ProvableMaxDistance(AsDuration(reply.sinceLastRxNs))
    requires reply.sinceLastRxNs <= STALE_PAIR_TIMEOUT && IntervalFits(reply)
    ensures d <= ProvableMaxDistance(AsDuration(reply.rttNs))
    ensures OffsetRtt(reply.offsets) == 0 ==> reply.rttNs == reply.sinceLastRxNs
  {
    SumKeepsBoundIff(OffsetRtt(reply.offsets), reply.sinceLastRxNs);
  }

  lemma AuthenticRttAddsInterval(run: Run, verify: Verifier, offsets: set<OffsetFormat.OffsetTree>, reply: ReplyPacket)
    requires AnchorSigned(run, verify, offsets) && OffsetsOk(reply.offsets)
    requires Authentic(Peer(verify, run.cfg.signer.pub), reply) && reply.challenged
    ensures AddsInterval(reply)
  {
    var i := AuthenticReplyWasSent(run, verify, offsets, reply);
    SentRttAddsInterval(run, i, reply);
  }

  lemma SentRttAddsInterval(run: Run, i: nat, reply: ReplyPacket)
    requires i < |run.events| && run.ReplyAt(i).Some? && reply.challenged
    requires run.ReplyAt(i).value.(signature := reply.signature) == reply
    ensures AddsInterval(reply)
  {
    ChallengedRttAddsInterval(run, i);
  }

  lemma SecondDraftAddsInterval(cfg: Config, offsets: seq<Bytes>, p: ProbePacket, v: Verdict)
    requires v.Answered? && !v.first
    ensures AddsInterval(SignReply(Draft(cfg, offsets, p, v), cfg.signer))
  {
  }

  lemma ChallengedRttAddsInterval(run: Run, i: nat)
    requires i < |run.events| && run.ReplyAt(i).Some? && run.ReplyAt(i).value.challenged
    ensures AddsInterval(run.ReplyAt(i).value)
  {
    var r, s, e := run.ReplyAt(i).value, run.StateAt(i), run.events[i];
    var v := VerdictOf(run.cfg, s, e, r.probe.senderPubkey);
    assert v.Answered? && v.challenged && r == SignReply(Draft(run.cfg, s.offsets, r.probe, v), run.cfg.signer) by {
      ReplyForSender(run.cfg, s, e, r.probe.senderPubkey);
    }
    ChallengedIsNotFirst(run.cfg, s, e, r.probe.senderPubkey);
    SecondDraftAddsInterval(run.cfg, s.offsets, r.probe, v);
  }

  lemma ChallengedIsNotFirst(cfg: Config, s: State, e: Event, k: Key)
    ensures var v := VerdictOf(cfg, s, e, k); v.Answered? && v.challenged ==> !v.first
  {
  }

  /**
   What an attester learns: if its challenged pair succeeds and Reply 1 carries the flag, some holder of the
   key that signed probe 1 is within the provable distance of the reported RTT, whatever the network did.
   */
  lemma SuccessfulPairBoundsHolder(w: World, run: Run, log: seq<Learning>, verify: Verifier, offsets: set<OffsetFormat.OffsetTree>,
                                   signer: Signer, probe0: ProbePacket, x0: Exchange, x1: Exchange)
    returns (holder: Node)
    requires Idealised(w, run, log, verify, offsets)
    requires ChallengedPair(Peer(verify, run.cfg.signer.pub), signer, probe0, x0, x1).Ok?
    requires var r := ChallengedPair(Peer(verify, run.cfg.signer.pub), signer, probe0, x0, x1).value.reply1;
             r.challenged && IntervalFits(r)
    ensures var r := ChallengedPair(Peer(verify, run.cfg.signer.pub), signer, probe0, x0, x1).value.reply1;
            w.holds(holder, r.probe.senderPubkey) && w.dist(w.anchor, holder) <= ProvableMaxDistance(AsDuration(r.rttNs))
  {
    var peer := Peer(verify, run.cfg.signer.pub);
    ChallengedPairIsBound(peer, signer, probe0, x0, x1);
    var reply := ChallengedPair(peer, signer, probe0, x0, x1).value.reply1;
    holder := ChallengedRttBoundsHolder(w, run, log, verify, offsets, reply);
  }
}
