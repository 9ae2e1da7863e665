/**
 The reflector's step on one event.  Receive time, transmit time, nonce draw and
 source address are inputs, so a step is a function of the state and the event.
 */
module Reflector {
  import opened Wrappers
  import opened ByteCodec
  import opened Signing
  import opened Packet

  /** Nanoseconds on the anchor's clock. */
  type Time = int

  type Duration = x: int | -0x8000_0000_0000_0000 <= x <= 0x7FFF_FFFF_FFFF_FFFF

  const MAX_DURATION: Duration := 0x7FFF_FFFF_FFFF_FFFF
  const MIN_DURATION: Duration := -0x8000_0000_0000_0000
  const STALE_PAIR_TIMEOUT: Duration := 5_000_000_000

  /** The difference of two times, saturating at the ends of the duration range. */
  function Sub(a: Time, b: Time): Duration {
    if a - b > MAX_DURATION then MAX_DURATION
    else if a - b < MIN_DURATION then MIN_DURATION
    else a - b
  }

  /** A signed 64-bit count reinterpreted as unsigned. */
  function AsUint64(d: Duration): Uint64 {
    d % TWO_TO_THE_64
  }

  datatype SockAddr = Inet4(ip: Bytes4, port: nat) | OtherFamily

  /** The per-sender record; `None` is the zero time, and `pairStart` is read only once a pair has begun. */
  datatype SenderState = SenderState(
    lastTxTime: Option<Time>,
    pairCount: nat,
    pairStart: Time,
    pairSourceIP: Bytes4,
    nonce: Uint64)

  function EmptySender(): SenderState {
    SenderState(None, 0, 0, Zeros(4), 0)
  }

  datatype Config = Config(verifyInterval: Duration, geoprobePubkey: Key, signer: Signer)

  datatype State = State(authorized: set<Key>, senders: map<Key, SenderState>, offsets: seq<Bytes>)

  /** `Receive` brings what a datagram parses to; a datagram that is no probe is ignored. */
  datatype Event =
    | Receive(probe: Option<ProbePacket>, from: SockAddr, now: Time, tx: Time, draw: Uint64)
    | SetAuthorizedKeys(keys: seq<Key>)
    | SetOffsets(blobs: seq<Bytes>)

  datatype Verdict = Dropped | Answered(first: bool, sinceLastRxNs: Uint64, challenged: bool)

  // One probe against one sender's record.

  predicate RateLimited(interval: Duration, st: SenderState, now: Time) {
    interval > 0 && st.pairCount >= 2 && Sub(now, st.pairStart) < interval
  }

  function ResetPair(st: SenderState): SenderState {
    st.(pairCount := 0, nonce := 0)
  }

  /** Once the window is over a completed pair makes room for the next. */
  function ResetCompleted(interval: Duration, st: SenderState): SenderState {
    if interval > 0 && st.pairCount >= 2 then ResetPair(st) else st
  }

  /** A pair whose second probe never arrived is given up. */
  function ResetStale(st: SenderState, now: Time): SenderState {
    if st.pairCount == 1 && st.lastTxTime.Some? && Sub(now, st.lastTxTime.value) > STALE_PAIR_TIMEOUT
    then ResetPair(st)
    else st
  }

  function Expire(interval: Duration, st: SenderState, now: Time): SenderState {
    ResetStale(ResetCompleted(interval, st), now)
  }

  /** The first probe of a pair: a nonce is issued in the interval's place. */
  function Issue(st: SenderState, ip: Bytes4, now: Time, draw: Uint64): SenderState {
    st.(pairSourceIP := ip, pairStart := now, nonce := draw, pairCount := 1)
  }

  function SinceLastTx(st: SenderState, now: Time): Uint64 {
    if st.lastTxTime.None? then 0 else AsUint64(Sub(now, st.lastTxTime.value))
  }

  /** A probe of an authorised sender: the record it leaves and whether it is answered. */
  function Admit(interval: Duration, st: SenderState, probe: ProbePacket, from: SockAddr, now: Time, draw: Uint64)
    : (SenderState, Verdict)
  {
    if RateLimited(interval, st, now) then (st, Dropped)
    else
      var live := Expire(interval, st, now);
      if from.OtherFamily? then (live, Dropped)
      else if live.pairCount == 0 then (Issue(live, from.ip, now, draw), Answered(true, draw, false))
      else if from.ip != live.pairSourceIP then (live, Dropped)
      else
        (live.(nonce := 0, pairCount := live.pairCount + 1),
         Answered(false, SinceLastTx(live, now), live.nonce != 0 && PresentedNonce(probe) == live.nonce))
  }

  // One event against the whole state.

  function SenderOf(s: State, k: Key): SenderState {
    if k in s.senders then s.senders[k] else EmptySender()
  }

  /** The state with a new record for `k`. */
  function With(s: State, k: Key, st: SenderState): State {
    s.(senders := s.senders[k := st])
  }

  /** The reply's fields before signing: location from the first offset, interval added to its RTT on second probes. */
  function Draft(cfg: Config, offsets: seq<Bytes>, probe: ProbePacket, v: Verdict): ReplyPacket
    requires v.Answered?
  {
    var info := if offsets == [] then None else ParseOffsetInfo(offsets[0]);
    var located := info.GetOr(OffsetInfo(0, 0, 0, 0, Zeros(4)));
    var rtt := if v.first then located.rttNs else (located.rttNs + v.sinceLastRxNs) % TWO_TO_THE_64;
    ReplyPacket(
      probe, cfg.signer.pub, cfg.geoprobePubkey, located.measurementSlot, located.lat, located.lng,
      v.sinceLastRxNs, rtt, offsets, v.challenged, Zeros(64))
  }

  /** The probe, if there is one and its sender is authorised. */
  function AuthorizedProbe(s: State, probe: Option<ProbePacket>): Option<ProbePacket> {
    if probe.Some? && probe.value.senderPubkey in s.authorized then probe else None
  }

  /** The state after a probe whose sender was found authorised.  Without fitting offsets there is no reply to time. */
  function AfterAuthorized(cfg: Config, s: State, probe: ProbePacket, from: SockAddr, now: Time, tx: Time, draw: Uint64): State {
    var k := probe.senderPubkey;
    var (st, v) := Admit(cfg.verifyInterval, SenderOf(s, k), probe, from, now, draw);
    var timed := if v.Answered? && OffsetsOk(s.offsets) then st.(lastTxTime := Some(tx)) else st;
    With(s, k, timed)
  }

  /** The state after a datagram. */
  function AfterDatagram(cfg: Config, s: State, received: Option<ProbePacket>, from: SockAddr, now: Time, tx: Time, draw: Uint64): State {
    match AuthorizedProbe(s, received)
    case None => s
    case Some(probe) => AfterAuthorized(cfg, s, probe, from, now, tx, draw)
  }

  /** The reply to an answered probe, unless the offsets do not fit one. */
  function AnswerWith(cfg: Config, offsets: seq<Bytes>, probe: ProbePacket, v: Verdict): Option<ReplyPacket>
    requires v.Answered?
  {
    match NewReply(Draft(cfg, offsets, probe, v), cfg.signer)
    case Err(_) => None
    case Ok(reply) => Some(reply)
  }

  /** The reply to a datagram. */
  function ReplyToDatagram(cfg: Config, s: State, received: Option<ProbePacket>, from: SockAddr, now: Time, draw: Uint64)
    : Option<ReplyPacket>
  {
    match AuthorizedProbe(s, received)
    case None => None
    case Some(probe) =>
      var v := Admit(cfg.verifyInterval, SenderOf(s, probe.senderPubkey), probe, from, now, draw).1;
      if v.Dropped? then None else AnswerWith(cfg, s.offsets, probe, v)
  }

  function KeySet(keys: seq<Key>): set<Key> {
    set k | k in keys
  }

  function AfterReload(s: State, keys: seq<Key>): State {
    var removed := s.authorized - KeySet(keys);
    s.(authorized := KeySet(keys), senders := s.senders - removed)
  }

  function Next(cfg: Config, s: State, e: Event): State {
    match e
    case Receive(probe, from, now, tx, draw) => AfterDatagram(cfg, s, probe, from, now, tx, draw)
    case SetAuthorizedKeys(keys) => AfterReload(s, keys)
    case SetOffsets(blobs) => s.(offsets := blobs)
  }

  function Reply(cfg: Config, s: State, e: Event): Option<ReplyPacket> {
    if e.Receive? then ReplyToDatagram(cfg, s, e.probe, e.from, e.now, e.draw) else None
  }
}
