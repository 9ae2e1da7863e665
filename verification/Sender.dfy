/**
 What the sender makes of its socket.  A script lists what each turn of a receive
 loop finds; every statement holds for every script.
 */
module Sender {
  import opened Wrappers
  import opened ByteCodec
  import opened Signing
  import opened Packet
  import opened Reflector
  import Layout
  import PacketCodec

  const RECEIVE_BUFFER_SIZE: nat := 1500
  const CLOCK_SLACK: Duration := 100_000

  /** Ancillary data: unparsable, without a kernel timestamp, or with one. */
  datatype Control = Unparsable | Unstamped | Stamped(kernel: Time)

  /** A received datagram; `taken` is the user-space clock just after. */
  datatype Datagram = Datagram(data: Bytes, control: Control, taken: Time)

  datatype Receipt = WouldBlock | ReceiveFailed | Got(datagram: Datagram)

  /** One turn of a loop: nothing ready, something to receive, or a reason to stop. */
  datatype Poll = Quiet | Ready(receipt: Receipt) | WaitFailed | Cancelled | DeadlinePassed

  datatype SendError =
    | SendFailed
    | WaitError
    | ContextDone
    | DeadlineExceeded
    | ReceiveError
    | ControlError
    | NoTimestamp
    | BadReply
    | TimestampMismatch

  /** Whose replies count. */
  datatype Peer = Peer(verify: Verifier, remotePubkey: Key)

  function DecideRtt(sendTime: Time, kernel: Time, fallback: Time): Duration {
    var rtt := Sub(kernel, sendTime);
    var chosen := if rtt < -CLOCK_SLACK then Sub(fallback, sendTime) else rtt;
    if chosen < 0 then 0 else chosen
  }

  /** `rtt` is the time from `since` to `until`: nothing when that is negative, and at most the longest duration. */
  predicate IsSpan(rtt: int, since: Time, until: Time) {
    rtt == if until <= since then 0
           else if until - since > 0x7FFF_FFFF_FFFF_FFFF then 0x7FFF_FFFF_FFFF_FFFF
           else until - since
  }

  /** The kernel's stamp counts, unless it lies more than 100 microseconds before the send: then the user-space clock does. */
  predicate Measures(rtt: int, sendTime: Time, kernel: Time, fallback: Time) {
    IsSpan(rtt, sendTime, if kernel + 100_000 >= sendTime then kernel else fallback)
  }

  lemma RttIff(sendTime: Time, kernel: Time, fallback: Time, rtt: Duration)
    ensures DecideRtt(sendTime, kernel, fallback) == rtt <==> Measures(rtt, sendTime, kernel, fallback)
  {
  }

  /** The bytes a receive leaves in the buffer. */
  function Truncated(data: Bytes): Bytes {
    if |data| <= RECEIVE_BUFFER_SIZE then data else data[..RECEIVE_BUFFER_SIZE]
  }

  predicate ReplySized(data: Bytes) {
    MIN_REPLY_SIZE <= |data| <= MAX_REPLY_SIZE
  }

  predicate Matches(reply: ReplyPacket, probe: ProbePacket) {
    reply.probe.sequence == probe.sequence && reply.probe.sec == probe.sec && reply.probe.frac == probe.frac
  }

  predicate Authentic(peer: Peer, reply: ReplyPacket) {
    && ProbeVerifies(peer.verify, reply.probe)
    && reply.authorityPubkey == peer.remotePubkey
    && ReplyVerifies(peer.verify, reply)
  }

  /** The datagram is a reply to `probe`, authentic when that is asked for. */
  predicate Accepts(peer: Peer, probe: ProbePacket, verifying: bool, data: Bytes) {
    && ParseReply(data).Some?
    && Matches(ParseReply(data).value, probe)
    && (verifying ==> Authentic(peer, ParseReply(data).value))
  }

  function Acceptor(peer: Peer, probe: ProbePacket, verifying: bool): Bytes -> bool {
    data => Accepts(peer, probe, verifying, data)
  }

  // Receive loops.

  /** The first suitable datagram a script brings; a script that runs out has reached the deadline. */
  function FirstSuitable(suitable: Bytes -> bool, polls: seq<Poll>): Result<Datagram, SendError> {
    if polls == [] then Err(DeadlineExceeded)
    else
      var later := FirstSuitable(suitable, polls[1..]);
      match polls[0]
      case Quiet => later
      case WaitFailed => Err(WaitError)
      case Cancelled => Err(ContextDone)
      case DeadlinePassed => Err(DeadlineExceeded)
      case Ready(WouldBlock) => later
      case Ready(ReceiveFailed) => Err(ReceiveError)
      case Ready(Got(d)) => if suitable(d.data) then Ok(d) else later
  }

  /** A turn that a loop passes over: nothing, or a datagram that is not suitable. */
  predicate PassedOver(suitable: Bytes -> bool, poll: Poll) {
    || poll.Quiet?
    || (poll.Ready? && poll.receipt.WouldBlock?)
    || (poll.Ready? && poll.receipt.Got? && !suitable(poll.receipt.datagram.data))
  }

  /** Turn `i` brings a suitable datagram, and every turn before it is passed over. */
  ghost predicate IsFirst(suitable: Bytes -> bool, polls: seq<Poll>, i: int) {
    && 0 <= i < |polls|
    && (forall x | 0 <= x < i :: PassedOver(suitable, polls[x]))
    && polls[i].Ready? && polls[i].receipt.Got? && suitable(polls[i].receipt.datagram.data)
  }

  /** A loop succeeds exactly when some turn brings the first suitable datagram, and yields that one. */
  lemma {:induction false} LoopYieldsFirst(suitable: Bytes -> bool, polls: seq<Poll>)
    ensures FirstSuitable(suitable, polls).Ok? <==> exists i :: IsFirst(suitable, polls, i)
    ensures forall i | IsFirst(suitable, polls, i) :: FirstSuitable(suitable, polls) == Ok(polls[i].receipt.datagram)
  {
    if polls != [] {
      var rest := polls[1..];
      LoopYieldsFirst(suitable, rest);
      if PassedOver(suitable, polls[0]) {
        forall i | IsFirst(suitable, polls, i)
          ensures i > 0 && IsFirst(suitable, rest, i - 1) && rest[i - 1] == polls[i]
        {
          assert forall x | 0 <= x < i - 1 :: rest[x] == polls[x + 1];
        }
        if i :| IsFirst(suitable, rest, i) {
          assert forall x | 0 < x <= i + 1 :: polls[x] == rest[x - 1];
          assert IsFirst(suitable, polls, i + 1);
        }
      } else {
        assert forall i | IsFirst(suitable, polls, i) :: i == 0;
        if FirstSuitable(suitable, polls).Ok? {
          assert IsFirst(suitable, polls, 0);
        }
      }
    }
  }

  /** Turn `i` ends the loop with `e`, and every turn before it is passed over. */
  ghost predicate StopsAt(suitable: Bytes -> bool, polls: seq<Poll>, i: int, e: SendError) {
    && 0 <= i < |polls|
    && (forall x | 0 <= x < i :: PassedOver(suitable, polls[x]))
    && match polls[i]
       case WaitFailed => e == WaitError
       case Cancelled => e == ContextDone
       case DeadlinePassed => e == DeadlineExceeded
       case Ready(ReceiveFailed) => e == ReceiveError
       case _ => false
  }

  ghost predicate StopsWith(suitable: Bytes -> bool, polls: seq<Poll>, e: SendError) {
    || (exists i :: StopsAt(suitable, polls, i, e))
    || (e == DeadlineExceeded && forall x | 0 <= x < |polls| :: PassedOver(suitable, polls[x]))
  }

  /** A turn that is passed over makes no difference to how the loop ends. */
  lemma StopsAfterPassing(suitable: Bytes -> bool, polls: seq<Poll>, rest: seq<Poll>, e: SendError)
    requires polls != [] && rest == polls[1..] && PassedOver(suitable, polls[0])
    ensures StopsWith(suitable, polls, e) <==> StopsWith(suitable, rest, e)
  {
    assert forall x | 0 < x < |polls| :: polls[x] == rest[x - 1];
    if i :| StopsAt(suitable, polls, i, e) {
      var j := i - 1;
      assert StopsAt(suitable, rest, j, e);
    }
    if i :| StopsAt(suitable, rest, i, e) {
      var j := i + 1;
      assert StopsAt(suitable, polls, j, e);
    }
  }

  /** A loop fails exactly with the error of the first turn that is neither passed over nor suitable, or at the deadline. */
  lemma {:induction false} LoopFailsWith(suitable: Bytes -> bool, polls: seq<Poll>, e: SendError)
    ensures FirstSuitable(suitable, polls) == Err(e) <==> StopsWith(suitable, polls, e)
  {
    if polls != [] {
      if PassedOver(suitable, polls[0]) {
        LoopFailsWith(suitable, polls[1..], e);
        StopsAfterPassing(suitable, polls, polls[1..], e);
      } else {
        assert forall i | StopsAt(suitable, polls, i, e) :: i == 0;
        if FirstSuitable(suitable, polls) == Err(e) {
          assert StopsAt(suitable, polls, 0, e);
        }
      }
    }
  }

  type Outcome = Result<(Duration, ReplyPacket), SendError>

  /** What an accepted reply yields, given its timestamps. */
  function StampedOutcome(sendTime: Time, d: Datagram): Outcome
    requires ParseReply(d.data).Some?
  {
    match d.control
    case Unparsable => Err(ControlError)
    case Unstamped => Err(NoTimestamp)
    case Stamped(kernel) => Ok((DecideRtt(sendTime, kernel, d.taken), ParseReply(d.data).value))
  }

  /** What waiting for the reply to `probe` returns. */
  function AwaitOutcome(peer: Peer, probe: ProbePacket, verifying: bool, sendTime: Time, polls: seq<Poll>): Outcome {
    var acceptable := Acceptor(peer, probe, verifying);
    LoopYieldsFirst(acceptable, polls);
    match FirstSuitable(acceptable, polls)
    case Err(e) => Err(e)
    case Ok(d) => StampedOutcome(sendTime, d)
  }

  /** Turn `i` brings `reply`, the first acceptable datagram, with a kernel stamp that makes its round trip `rtt`. */
  ghost predicate Brought(peer: Peer, probe: ProbePacket, verifying: bool, sendTime: Time, polls: seq<Poll>, i: int,
                          rtt: Duration, reply: ReplyPacket)
  {
    && IsFirst(Acceptor(peer, probe, verifying), polls, i)
    && var d := polls[i].receipt.datagram;
       && ParseReply(d.data) == Some(reply)
       && d.control.Stamped? && Measures(rtt, sendTime, d.control.kernel, d.taken)
  }

  /** Waiting fails with `e`: the loop stopped, or the first acceptable datagram has no usable stamp. */
  ghost predicate AwaitFails(peer: Peer, probe: ProbePacket, verifying: bool, polls: seq<Poll>, e: SendError) {
    var acceptable := Acceptor(peer, probe, verifying);
    || StopsWith(acceptable, polls, e)
    || exists i ::
         && IsFirst(acceptable, polls, i)
         && ((polls[i].receipt.datagram.control.Unparsable? && e == ControlError)
             || (polls[i].receipt.datagram.control.Unstamped? && e == NoTimestamp))
  }

  /** What the datagram of a first suitable turn yields is what waiting returns. */
  lemma AwaitFirst(peer: Peer, probe: ProbePacket, verifying: bool, sendTime: Time, polls: seq<Poll>, i: int)
    requires IsFirst(Acceptor(peer, probe, verifying), polls, i)
    ensures Accepts(peer, probe, verifying, polls[i].receipt.datagram.data)
    ensures AwaitOutcome(peer, probe, verifying, sendTime, polls) == StampedOutcome(sendTime, polls[i].receipt.datagram)
  {
    LoopYieldsFirst(Acceptor(peer, probe, verifying), polls);
  }

  /**
   Waiting returns exactly the first acceptable datagram of the script, when that is stamped, with the round trip
   from the send to the stamp.
   */
  lemma ReceivesFirstAccepted(peer: Peer, probe: ProbePacket, verifying: bool, sendTime: Time, polls: seq<Poll>,
                              rtt: Duration, reply: ReplyPacket)
    ensures AwaitOutcome(peer, probe, verifying, sendTime, polls) == Ok((rtt, reply))
       <==> exists i :: Brought(peer, probe, verifying, sendTime, polls, i, rtt, reply)
  {
    var acceptable := Acceptor(peer, probe, verifying);
    LoopYieldsFirst(acceptable, polls);
    forall i | IsFirst(acceptable, polls, i)
      ensures AwaitOutcome(peer, probe, verifying, sendTime, polls) == Ok((rtt, reply))
         <==> Brought(peer, probe, verifying, sendTime, polls, i, rtt, reply)
    {
      var d := polls[i].receipt.datagram;
      AwaitFirst(peer, probe, verifying, sendTime, polls, i);
      if d.control.Stamped? {
        RttIff(sendTime, d.control.kernel, d.taken, rtt);
      }
    }
  }

  /** And it fails exactly with the error of the first turn that ends it otherwise. */
  lemma WaitingFailsWith(peer: Peer, probe: ProbePacket, verifying: bool, sendTime: Time, polls: seq<Poll>, e: SendError)
    ensures AwaitOutcome(peer, probe, verifying, sendTime, polls) == Err(e) <==> AwaitFails(peer, probe, verifying, polls, e)
  {
    var acceptable := Acceptor(peer, probe, verifying);
    LoopYieldsFirst(acceptable, polls);
    LoopFailsWith(acceptable, polls, e);
    if FirstSuitable(acceptable, polls).Ok? {
      var i :| IsFirst(acceptable, polls, i);
      AwaitFirst(peer, probe, verifying, sendTime, polls, i);
      assert forall j | IsFirst(acceptable, polls, j) :: j == i;
    }
  }

  // The challenged pair.

  datatype ProbePairResult = ProbePairResult(rtt0: Duration, rtt1: Duration, reply0: ReplyPacket, reply1: ReplyPacket)

  /** One exchange as the environment shapes it; `sendOk` says whether the socket took the probe. */
  datatype Exchange = Exchange(sendOk: bool, sendTime: Time, busy: seq<Poll>, blocking: seq<Poll>)

  function SendAndReceive(peer: Peer, probe: ProbePacket, verifying: bool, x: Exchange): Outcome {
    if !x.sendOk then Err(SendFailed) else AwaitOutcome(peer, probe, verifying, x.sendTime, x.busy + x.blocking)
  }

  /** An exchange that brings `reply` after `rtt`. */
  ghost predicate ExchangeBrings(peer: Peer, probe: ProbePacket, verifying: bool, x: Exchange, rtt: Duration, reply: ReplyPacket) {
    x.sendOk && exists i :: Brought(peer, probe, verifying, x.sendTime, x.busy + x.blocking, i, rtt, reply)
  }

  ghost predicate ExchangeFails(peer: Peer, probe: ProbePacket, verifying: bool, x: Exchange, e: SendError) {
    if x.sendOk then AwaitFails(peer, probe, verifying, x.busy + x.blocking, e) else e == SendFailed
  }

  lemma ExchangeIff(peer: Peer, probe: ProbePacket, verifying: bool, x: Exchange, rtt: Duration, reply: ReplyPacket)
    ensures SendAndReceive(peer, probe, verifying, x) == Ok((rtt, reply))
       <==> ExchangeBrings(peer, probe, verifying, x, rtt, reply)
  {
    ReceivesFirstAccepted(peer, probe, verifying, x.sendTime, x.busy + x.blocking, rtt, reply);
  }

  /** An exchange brings what it returns, and nothing else. */
  lemma OnlyOutcomeIsBrought(peer: Peer, probe: ProbePacket, verifying: bool, x: Exchange)
    ensures var outcome := SendAndReceive(peer, probe, verifying, x);
            forall rtt: Duration, reply: ReplyPacket ::
              ExchangeBrings(peer, probe, verifying, x, rtt, reply) <==> outcome.Ok? && outcome.value.0 == rtt && outcome.value.1 == reply
  {
    forall rtt: Duration, reply: ReplyPacket
      ensures var outcome := SendAndReceive(peer, probe, verifying, x);
              ExchangeBrings(peer, probe, verifying, x, rtt, reply) <==> outcome.Ok? && outcome.value.0 == rtt && outcome.value.1 == reply
    {
      ExchangeIff(peer, probe, verifying, x, rtt, reply);
    }
  }

  lemma ExchangeFailsIff(peer: Peer, probe: ProbePacket, verifying: bool, x: Exchange, e: SendError)
    ensures SendAndReceive(peer, probe, verifying, x) == Err(e) <==> ExchangeFails(peer, probe, verifying, x, e)
  {
    WaitingFailsWith(peer, probe, verifying, x.sendTime, x.busy + x.blocking, e);
  }

  function NextSequence(sequence: Uint32): Uint32 {
    (sequence + 1) % TWO_TO_THE_32
  }

  /** Sequence numbers are consecutive, and zero follows the last. */
  lemma SequencesAreConsecutive(n: Uint32)
    ensures NextSequence(n) == if n == 0xFFFF_FFFF then 0 else n + 1
  {
  }

  /** The result of a challenged pair whose first probe is `probe0`. */
  function ChallengedPair(peer: Peer, signer: Signer, probe0: ProbePacket, x0: Exchange, x1: Exchange)
    : Result<ProbePairResult, SendError>
  {
    match SendAndReceive(peer, probe0, false, x0)
    case Err(e) => Err(e)
    case Ok((rtt0, reply0)) =>
      var probe1 := NewChallengedProbe(NextSequence(probe0.sequence), signer, reply0.sinceLastRxNs);
      match SendAndReceive(peer, probe1, true, x1)
      case Err(e) => Err(e)
      case Ok((rtt1, reply1)) => Ok(ProbePairResult(rtt0, rtt1, reply0, reply1))
  }

  /** The probes a challenged pair puts on the wire. */
  function ChallengedSends(peer: Peer, signer: Signer, probe0: ProbePacket, x0: Exchange, x1: Exchange): seq<Bytes> {
    var outcome0 := SendAndReceive(peer, probe0, false, x0);
    (if x0.sendOk then [ProbeBytes(probe0)] else [])
    + if outcome0.Err? || !x1.sendOk then []
      else [ProbeBytes(NewChallengedProbe(NextSequence(probe0.sequence), signer, outcome0.value.1.sinceLastRxNs))]
  }

  /** The second probe: the next sequence number, and Reply 0's nonce. */
  function ChallengedProbe(signer: Signer, probe0: ProbePacket, reply0: ReplyPacket): ProbePacket {
    NewChallengedProbe((probe0.sequence + 1) % 0x1_0000_0000, signer, reply0.sinceLastRxNs)
  }

  lemma PairFromExchanges(peer: Peer, signer: Signer, probe0: ProbePacket, x0: Exchange, x1: Exchange,
                          outcome0: Outcome, outcome1: Outcome)
    requires outcome0 == SendAndReceive(peer, probe0, false, x0)
    requires outcome0.Ok? ==> outcome1 == SendAndReceive(peer, ChallengedProbe(signer, probe0, outcome0.value.1), true, x1)
    ensures ChallengedPair(peer, signer, probe0, x0, x1) == PairOf(outcome0, outcome1)
  {
  }

  /** The result of a pair, given what its exchanges return. */
  function PairOf(outcome0: Outcome, outcome1: Outcome): Result<ProbePairResult, SendError> {
    if outcome0.Err? then Err(outcome0.error)
    else if outcome1.Err? then Err(outcome1.error)
    else Ok(ProbePairResult(outcome0.value.0, outcome1.value.0, outcome0.value.1, outcome1.value.1))
  }

  lemma PairOfIff(outcome0: Outcome, outcome1: Outcome, r: ProbePairResult, e: SendError)
    ensures PairOf(outcome0, outcome1) == Ok(r) <==> outcome0 == Ok((r.rtt0, r.reply0)) && outcome1 == Ok((r.rtt1, r.reply1))
    ensures PairOf(outcome0, outcome1) == Err(e) <==> outcome0 == Err(e) || (outcome0.Ok? && outcome1 == Err(e))
  {
  }

  /** A challenged pair returns exactly what its two exchanges bring, the second with a probe that echoes Reply 0's nonce. */
  lemma ChallengedPairIff(peer: Peer, signer: Signer, probe0: ProbePacket, x0: Exchange, x1: Exchange, r: ProbePairResult)
    ensures ChallengedPair(peer, signer, probe0, x0, x1) == Ok(r)
       <==> && ExchangeBrings(peer, probe0, false, x0, r.rtt0, r.reply0)
            && ExchangeBrings(peer, ChallengedProbe(signer, probe0, r.reply0), true, x1, r.rtt1, r.reply1)
  {
    var outcome0 := SendAndReceive(peer, probe0, false, x0);
    var reply0 := if outcome0.Ok? then outcome0.value.1 else r.reply0;
    var outcome1 := SendAndReceive(peer, ChallengedProbe(signer, probe0, reply0), true, x1);
    PairFromExchanges(peer, signer, probe0, x0, x1, outcome0, outcome1);
    PairOfIff(outcome0, outcome1, r, SendFailed);
    ExchangeIff(peer, probe0, false, x0, r.rtt0, r.reply0);
    ExchangeIff(peer, ChallengedProbe(signer, probe0, r.reply0), true, x1, r.rtt1, r.reply1);
  }

  /** It fails exactly when an exchange does, with the error of the first that does. */
  lemma ChallengedPairFailsIff(peer: Peer, signer: Signer, probe0: ProbePacket, x0: Exchange, x1: Exchange, e: SendError)
    ensures ChallengedPair(peer, signer, probe0, x0, x1) == Err(e)
       <==> || ExchangeFails(peer, probe0, false, x0, e)
            || exists rtt0: Duration, reply0: ReplyPacket ::
                 && ExchangeBrings(peer, probe0, false, x0, rtt0, reply0)
                 && ExchangeFails(peer, ChallengedProbe(signer, probe0, reply0), true, x1, e)
  {
    var outcome0 := SendAndReceive(peer, probe0, false, x0);
    OnlyOutcomeIsBrought(peer, probe0, false, x0);
    ExchangeFailsIff(peer, probe0, false, x0, e);
    if outcome0.Ok? {
      var probe1 := ChallengedProbe(signer, probe0, outcome0.value.1);
      var outcome1 := SendAndReceive(peer, probe1, true, x1);
      PairFromExchanges(peer, signer, probe0, x0, x1, outcome0, outcome1);
      ExchangeFailsIff(peer, probe1, true, x1, e);
      assert ExchangeBrings(peer, probe0, false, x0, outcome0.value.0, outcome0.value.1);
    } else {
      PairFromExchanges(peer, signer, probe0, x0, x1, outcome0, outcome0);
    }
  }

  /** Probe 1 goes out only after Reply 0, and answers it. */
  lemma ChallengedSendsAre(peer: Peer, signer: Signer, probe0: ProbePacket, x0: Exchange, x1: Exchange)
    ensures var sends := ChallengedSends(peer, signer, probe0, x0, x1);
            && (!x0.sendOk ==> sends == [])
            && (x0.sendOk && (forall rtt: Duration, reply: ReplyPacket :: !ExchangeBrings(peer, probe0, false, x0, rtt, reply)) ==> sends == [ProbeBytes(probe0)])
            && forall rtt: Duration, reply: ReplyPacket | ExchangeBrings(peer, probe0, false, x0, rtt, reply) ::
                 sends == [ProbeBytes(probe0)] + if x1.sendOk then [ProbeBytes(ChallengedProbe(signer, probe0, reply))] else []
  {
    var outcome0 := SendAndReceive(peer, probe0, false, x0);
    OnlyOutcomeIsBrought(peer, probe0, false, x0);
    if outcome0.Ok? {
      assert ExchangeBrings(peer, probe0, false, x0, outcome0.value.0, outcome0.value.1);
    }
  }

  /**
   Whatever the network delivers, a challenged pair that succeeds has a Reply 0 to probe 0, and a Reply 1
   that is authentic, answers the next sequence number and echoes Reply 0's nonce; and each round trip is that
   of the datagram its own exchange brought, from that exchange's send to the datagram's stamp.
   */
  lemma ChallengedPairIsBound(peer: Peer, signer: Signer, probe0: ProbePacket, x0: Exchange, x1: Exchange)
    requires ChallengedPair(peer, signer, probe0, x0, x1).Ok?
    ensures var r := ChallengedPair(peer, signer, probe0, x0, x1).value;
            && Matches(r.reply0, probe0)
            && r.reply1.probe.sequence == (probe0.sequence + 1) % 0x1_0000_0000
            && PresentedNonce(r.reply1.probe) == r.reply0.sinceLastRxNs
            && Authentic(peer, r.reply1)
            && OffsetsOk(r.reply0.offsets) && OffsetsOk(r.reply1.offsets)
            && ExchangeBrings(peer, probe0, false, x0, r.rtt0, r.reply0)
            && ExchangeBrings(peer, ChallengedProbe(signer, probe0, r.reply0), true, x1, r.rtt1, r.reply1)
  {
    var r := ChallengedPair(peer, signer, probe0, x0, x1).value;
    ChallengedPairIff(peer, signer, probe0, x0, x1, r);
    BroughtIsAccepted(peer, probe0, false, x0, r.rtt0, r.reply0);
    BroughtIsAccepted(peer, ChallengedProbe(signer, probe0, r.reply0), true, x1, r.rtt1, r.reply1);
    EchoesNonce(signer, probe0, r.reply0, r.reply1);
  }

  lemma EchoesNonce(signer: Signer, probe0: ProbePacket, reply0: ReplyPacket, reply1: ReplyPacket)
    requires Matches(reply1, ChallengedProbe(signer, probe0, reply0))
    ensures reply1.probe.sequence == (probe0.sequence + 1) % 0x1_0000_0000
    ensures PresentedNonce(reply1.probe) == reply0.sinceLastRxNs
  {
  }

  lemma BroughtIsAccepted(peer: Peer, probe: ProbePacket, verifying: bool, x: Exchange, rtt: Duration, reply: ReplyPacket)
    requires ExchangeBrings(peer, probe, verifying, x, rtt, reply)
    ensures Matches(reply, probe) && OffsetsOk(reply.offsets) && (verifying ==> Authentic(peer, reply))
  {
    var polls := x.busy + x.blocking;
    var i :| Brought(peer, probe, verifying, x.sendTime, polls, i, rtt, reply);
    PacketCodec.ReplyRoundTripBack(polls[i].receipt.datagram.data);
  }

  // The unchallenged pair.

  /** Enough to fire probe 1: a datagram of a reply's size that begins with probe 0's sequence number. */
  predicate Fires(sequence: Uint32, data: Bytes) {
    ReplySized(data) && Be32(data[0..4]) == sequence
  }

  /** By size and position. */
  lemma FiresIff(sequence: Uint32, data: Bytes)
    ensures Fires(sequence, data) <==> 277 <= |data| <= 1147 && IsBe(data[0..4], sequence)
  {
    if |data| >= 4 {
      NumbersByPosition(data[0..4], Zeros(8), sequence, 0);
    }
  }

  function Trigger(sequence: Uint32): Bytes -> bool {
    data => Fires(sequence, data)
  }

  function FirstRtt(sendTime: Time, control: Control, fallback: Time): Duration {
    if control.Stamped? then DecideRtt(sendTime, control.kernel, fallback) else 0
  }

  /** The result of an unchallenged pair; `parsed` is the clock when Reply 0 is at last parsed. */
  function UnchallengedPair(peer: Peer, probe0: ProbePacket, probe1: ProbePacket, x0: Exchange, parsed: Time, x1: Exchange)
    : Result<ProbePairResult, SendError>
  {
    if !x0.sendOk then Err(SendFailed)
    else
      match FirstSuitable(Trigger(probe0.sequence), x0.busy + x0.blocking)
      case Err(e) => Err(e)
      case Ok(d) =>
        if !x1.sendOk then Err(SendFailed)
        else
          match ParseReply(d.data)
          case None => Err(BadReply)
          case Some(reply0) =>
            if reply0.probe.sec != probe0.sec || reply0.probe.frac != probe0.frac then Err(TimestampMismatch)
            else if d.control.Unparsable? then Err(ControlError)
            else
              match AwaitOutcome(peer, probe1, true, x1.sendTime, x1.blocking)
              case Err(e) => Err(e)
              case Ok((rtt1, reply1)) =>
                Ok(ProbePairResult(FirstRtt(x0.sendTime, d.control, parsed), rtt1, reply0, reply1))
  }

  /** The probes an unchallenged pair puts on the wire. */
  function UnchallengedSends(probe0: ProbePacket, probe1: ProbePacket, x0: Exchange, x1: Exchange): seq<Bytes> {
    if !x0.sendOk then []
    else if FirstSuitable(Trigger(probe0.sequence), x0.busy + x0.blocking).Err? || !x1.sendOk then [ProbeBytes(probe0)]
    else [ProbeBytes(probe0), ProbeBytes(probe1)]
  }

  /** Turn `i` brings the datagram that fires probe 1, and it is a reply to probe 0 whose round trip is `rtt0`. */
  ghost predicate FiredBy(probe0: ProbePacket, x0: Exchange, parsed: Time, i: int, rtt0: Duration, reply0: ReplyPacket) {
    var polls := x0.busy + x0.blocking;
    && IsFirst(Trigger(probe0.sequence), polls, i)
    && var d := polls[i].receipt.datagram;
       && ParseReply(d.data) == Some(reply0) && reply0.probe.sec == probe0.sec && reply0.probe.frac == probe0.frac
       && !d.control.Unparsable?
       && if d.control.Stamped? then Measures(rtt0, x0.sendTime, d.control.kernel, parsed) else rtt0 == 0
  }

  lemma FirstRttIff(sendTime: Time, control: Control, parsed: Time, rtt: Duration)
    ensures FirstRtt(sendTime, control, parsed) == rtt
       <==> if control.Stamped? then Measures(rtt, sendTime, control.kernel, parsed) else rtt == 0
  {
    if control.Stamped? {
      RttIff(sendTime, control.kernel, parsed, rtt);
    }
  }

  /**
   An unchallenged pair succeeds exactly when both probes are sent, the datagram that fires probe 1 is a reply to
   probe 0 with readable control data, and a stamped acceptable reply to probe 1 comes first; and these two
   replies, with their round trips, are its result.  A missing stamp on Reply 0 leaves its round trip zero.
   */
  lemma UnchallengedPairIff(peer: Peer, probe0: ProbePacket, probe1: ProbePacket, x0: Exchange, parsed: Time, x1: Exchange,
                            r: ProbePairResult)
    ensures UnchallengedPair(peer, probe0, probe1, x0, parsed, x1) == Ok(r)
       <==> && x0.sendOk && x1.sendOk
            && (exists i :: FiredBy(probe0, x0, parsed, i, r.rtt0, r.reply0))
            && (exists j :: Brought(peer, probe1, true, x1.sendTime, x1.blocking, j, r.rtt1, r.reply1))
  {
    var polls, trigger := x0.busy + x0.blocking, Trigger(probe0.sequence);
    LoopYieldsFirst(trigger, polls);
    ReceivesFirstAccepted(peer, probe1, true, x1.sendTime, x1.blocking, r.rtt1, r.reply1);
    if FirstSuitable(trigger, polls).Ok? {
      var i :| IsFirst(trigger, polls, i);
      assert forall j | IsFirst(trigger, polls, j) :: j == i;
      FirstRttIff(x0.sendTime, polls[i].receipt.datagram.control, parsed, r.rtt0);
      if UnchallengedPair(peer, probe0, probe1, x0, parsed, x1) == Ok(r) {
        assert FiredBy(probe0, x0, parsed, i, r.rtt0, r.reply0);
      }
    }
  }

  /** Once probe 1 is due: sending it fails, or the datagram is no reply to probe 0, or waiting for Reply 1 fails. */
  ghost predicate FailsOnceFired(peer: Peer, probe0: ProbePacket, probe1: ProbePacket, d: Datagram, x1: Exchange, e: SendError) {
    if !x1.sendOk then e == SendFailed
    else if ParseReply(d.data).None? then e == BadReply
    else
      var p := ParseReply(d.data).value.probe;
      if (p.sec, p.frac) != (probe0.sec, probe0.frac) then e == TimestampMismatch
      else if d.control.Unparsable? then e == ControlError
      else AwaitFails(peer, probe1, true, x1.blocking, e)
  }

  lemma FailsOnceFiredIff(peer: Peer, probe0: ProbePacket, probe1: ProbePacket, x0: Exchange, parsed: Time, x1: Exchange,
                          d: Datagram, e: SendError)
    requires x0.sendOk && FirstSuitable(Trigger(probe0.sequence), x0.busy + x0.blocking) == Ok(d)
    ensures UnchallengedPair(peer, probe0, probe1, x0, parsed, x1) == Err(e)
       <==> FailsOnceFired(peer, probe0, probe1, d, x1, e)
  {
    WaitingFailsWith(peer, probe1, true, x1.sendTime, x1.blocking, e);
  }

  /** The error of an unchallenged pair is that of the first step that fails. */
  lemma UnchallengedPairFailsIff(peer: Peer, probe0: ProbePacket, probe1: ProbePacket, x0: Exchange, parsed: Time, x1: Exchange,
                                 e: SendError)
    ensures UnchallengedPair(peer, probe0, probe1, x0, parsed, x1) == Err(e)
       <==> if !x0.sendOk then e == SendFailed
            else
              var polls := x0.busy + x0.blocking;
              || StopsWith(Trigger(probe0.sequence), polls, e)
              || exists i ::
                   && IsFirst(Trigger(probe0.sequence), polls, i)
                   && FailsOnceFired(peer, probe0, probe1, polls[i].receipt.datagram, x1, e)
  {
    var polls, trigger := x0.busy + x0.blocking, Trigger(probe0.sequence);
    LoopYieldsFirst(trigger, polls);
    LoopFailsWith(trigger, polls, e);
    if x0.sendOk && FirstSuitable(trigger, polls).Ok? {
      var i :| IsFirst(trigger, polls, i);
      assert forall j | IsFirst(trigger, polls, j) :: j == i;
      FailsOnceFiredIff(peer, probe0, probe1, x0, parsed, x1, polls[i].receipt.datagram, e);
    }
  }

  /** Probe 1 goes out exactly once a datagram of a reply's size has brought probe 0's sequence number. */
  lemma UnchallengedSendsAre(probe0: ProbePacket, probe1: ProbePacket, x0: Exchange, x1: Exchange)
    ensures UnchallengedSends(probe0, probe1, x0, x1)
         == if !x0.sendOk then []
            else if x1.sendOk && exists i :: IsFirst(Trigger(probe0.sequence), x0.busy + x0.blocking, i)
            then [ProbeBytes(probe0), ProbeBytes(probe1)]
            else [ProbeBytes(probe0)]
  {
    LoopYieldsFirst(Trigger(probe0.sequence), x0.busy + x0.blocking);
  }

  /** A pair that succeeds has sent both probes, and has an answer to each: Reply 1 an authentic one. */
  lemma UnchallengedPairIsBound(peer: Peer, probe0: ProbePacket, probe1: ProbePacket, x0: Exchange, parsed: Time, x1: Exchange)
    requires UnchallengedPair(peer, probe0, probe1, x0, parsed, x1).Ok?
    ensures var r := UnchallengedPair(peer, probe0, probe1, x0, parsed, x1).value;
            && UnchallengedSends(probe0, probe1, x0, x1) == [ProbeBytes(probe0), ProbeBytes(probe1)]
            && Matches(r.reply0, probe0) && Matches(r.reply1, probe1) && Authentic(peer, r.reply1)
  {
    var r := UnchallengedPair(peer, probe0, probe1, x0, parsed, x1).value;
    UnchallengedPairIff(peer, probe0, probe1, x0, parsed, x1, r);
    UnchallengedSendsAre(probe0, probe1, x0, x1);
    var i :| FiredBy(probe0, x0, parsed, i, r.rtt0, r.reply0);
    SequenceOfReply((x0.busy + x0.blocking)[i].receipt.datagram.data);
    var j :| Brought(peer, probe1, true, x1.sendTime, x1.blocking, j, r.rtt1, r.reply1);
  }

  /** A reply begins with the sequence number of the probe it embeds. */
  lemma SequenceOfReply(data: Bytes)
    requires |data| >= 4
    ensures ParseReply(data).Some? ==> ParseReply(data).value.probe.sequence == Be32(data[0..4])
  {
    if ParseReply(data).Some? {
      ReplyLayoutStarts();
      Layout.FieldAt(data, REPLY_LAYOUT, 0);
    }
  }
}
