/**
 The sender object of internal/signed/sender_linux.go.  Its receive buffer is reused
 by every receive; `wire` records what it has handed to the socket.
 */
module LinuxSenders {
  import opened Wrappers
  import opened ByteCodec
  import opened Signing
  import opened Packet
  import opened PacketBuffers
  import opened Reflector
  import opened Sender
  import opened Ntp
  import WireLayout

  /** One turn's receive: a definitive outcome, or `None` to keep polling. */
  function Attempt(peer: Peer, probe: ProbePacket, verifying: bool, sendTime: Time, receipt: Receipt): Option<Outcome> {
    match receipt
    case WouldBlock => None
    case ReceiveFailed => Some(Err(ReceiveError))
    case Got(d) => if Accepts(peer, probe, verifying, d.data) then Some(StampedOutcome(sendTime, d)) else None
  }

  /** The first turn of a script decides, or leaves the decision to the rest. */
  lemma ReceiveUnfolds(peer: Peer, probe: ProbePacket, verifying: bool, sendTime: Time, polls: seq<Poll>)
    requires polls != []
    ensures var later := AwaitOutcome(peer, probe, verifying, sendTime, polls[1..]);
            AwaitOutcome(peer, probe, verifying, sendTime, polls)
            == match polls[0]
               case Quiet => later
               case WaitFailed => Err(WaitError)
               case Cancelled => Err(ContextDone)
               case DeadlinePassed => Err(DeadlineExceeded)
               case Ready(receipt) => Attempt(peer, probe, verifying, sendTime, receipt).GetOr(later)
  {
  }

  lemma {:induction false} UnsizedNeverParses(data: Bytes)
    requires !ReplySized(data)
    ensures ParseReply(data).None?
  {
  }

  function TimestampedProbe(sequence: Uint32, signer: Signer, unixNs: int): ProbePacket {
    NewProbe(sequence, signer, NtpTimestamp(unixNs).0, NtpTimestamp(unixNs).1)
  }

  /** The timestamp goes on the wire seconds first, both parts most significant byte first. */
  lemma TimestampOnWire(sequence: Uint32, signer: Signer, unixNs: int)
    ensures var d := ProbeBytes(TimestampedProbe(sequence, signer, unixNs));
            && |d| == 108 && IsBe(d[0..4], sequence)
            && IsBe(d[4..8], NtpTimestamp(unixNs).0) && IsBe(d[8..12], NtpTimestamp(unixNs).1)
            && d[12..44] == signer.pub && d[44..108] == signer.sign(d[..44])
  {
    WireLayout.NewProbeOnWire(sequence, signer, NtpTimestamp(unixNs).0, NtpTimestamp(unixNs).1);
  }

  class LinuxSender {
    const signer: Signer
    const peer: Peer
    const buf: array<Byte>
    var sequence: Uint32
    var wire: seq<Bytes>

    ghost predicate Valid() {
      buf.Length == RECEIVE_BUFFER_SIZE
    }

    constructor (s: Signer, p: Peer)
      ensures Valid() && sequence == 0 && wire == [] && fresh(buf)
      ensures signer == s && peer == p
    {
      signer, peer, sequence, wire := s, p, 0, [];
      buf := new Byte[RECEIVE_BUFFER_SIZE](_ => 0);
    }

    method SendTo(data: Bytes, ok: bool)
      modifies this`wire
      ensures wire == if ok then old(wire) + [data] else old(wire)
    {
      if ok {
        wire := wire + [data];
      }
    }

    /** `Recvmsg` into the shared buffer. */
    method Fill(data: Bytes) returns (n: nat)
      requires Valid()
      modifies buf
      ensures n <= buf.Length && buf[..n] == Truncated(data)
    {
      var received := Truncated(data);
      Put(buf, 0, received);
      n := |received|;
      assert buf[..0] + received == received;
    }

    /** A fresh probe, marshalled. */
    method MakeProbe(probe: ProbePacket) returns (bytes: Bytes)
      ensures bytes == ProbeBytes(probe)
    {
      var out := new Byte[PROBE_SIZE](_ => 0);
      var _ := MarshalProbe(probe, out);
      bytes := out[..PROBE_SIZE];
    }

    method TryRecv(sendTime: Time, probe: ProbePacket, verifying: bool, receipt: Receipt) returns (outcome: Option<Outcome>)
      requires Valid()
      modifies buf
      ensures outcome == Attempt(peer, probe, verifying, sendTime, receipt)
    {
      if receipt.WouldBlock? {
        return None;
      }
      if receipt.ReceiveFailed? {
        return Some(Err(ReceiveError));
      }
      var d := receipt.datagram;
      if !ReplySized(d.data) {
        UnsizedNeverParses(d.data);
      }
      var n := Fill(d.data);
      if n < MIN_REPLY_SIZE || n > MAX_REPLY_SIZE {
        return None;
      }
      var parsed := UnmarshalReply(buf[..n]);
      if parsed.None? {
        return None;
      }
      var reply := parsed.value;
      if reply.probe.sequence != probe.sequence || reply.probe.sec != probe.sec || reply.probe.frac != probe.frac {
        return None;
      }
      if verifying {
        var probeOk := VerifyProbe(reply.probe, peer.verify);
        if !probeOk {
          return None;
        }
        if reply.authorityPubkey != peer.remotePubkey {
          return None;
        }
        var replyOk := VerifyReply(reply, peer.verify);
        if !replyOk {
          return None;
        }
      }
      match d.control
      case Unparsable => return Some(Err(ControlError));
      case Unstamped => return Some(Err(NoTimestamp));
      case Stamped(kernel) => return Some(Ok((DecideRtt(sendTime, kernel, d.taken), reply)));
    }

    method SendAndRecv(probeBuf: Bytes, probe: ProbePacket, verifying: bool, x: Exchange) returns (outcome: Outcome)
      requires Valid()
      modifies this`wire, buf
      ensures outcome == SendAndReceive(peer, probe, verifying, x)
      ensures wire == if x.sendOk then old(wire) + [probeBuf] else old(wire)
    {
      SendTo(probeBuf, x.sendOk);
      if !x.sendOk {
        return Err(SendFailed);
      }
      ghost var polls := x.busy + x.blocking;
      for i := 0 to |x.busy|
        invariant wire == old(wire) + [probeBuf]
        invariant AwaitOutcome(peer, probe, verifying, x.sendTime, polls)
               == AwaitOutcome(peer, probe, verifying, x.sendTime, polls[i..])
      {
        ReceiveUnfolds(peer, probe, verifying, x.sendTime, polls[i..]);
        assert polls[i..][1..] == polls[i + 1..];
        match x.busy[i]
        case Quiet =>
        case WaitFailed => return Err(WaitError);
        case Cancelled => return Err(ContextDone);
        case DeadlinePassed => return Err(DeadlineExceeded);
        case Ready(receipt) =>
          var attempt := TryRecv(x.sendTime, probe, verifying, receipt);
          if attempt.Some? {
            return attempt.value;
          }
      }
      assert polls[|x.busy|..] == x.blocking;
      outcome := AwaitReply(x.sendTime, probe, verifying, x.blocking);
    }

    /** The blocking phase. */
    method AwaitReply(sendTime: Time, probe: ProbePacket, verifying: bool, blocking: seq<Poll>) returns (outcome: Outcome)
      requires Valid()
      modifies buf
      ensures outcome == AwaitOutcome(peer, probe, verifying, sendTime, blocking)
    {
      assert blocking[0..] == blocking;
      for i := 0 to |blocking|
        invariant AwaitOutcome(peer, probe, verifying, sendTime, blocking)
               == AwaitOutcome(peer, probe, verifying, sendTime, blocking[i..])
      {
        ReceiveUnfolds(peer, probe, verifying, sendTime, blocking[i..]);
        assert blocking[i..][1..] == blocking[i + 1..];
        match blocking[i]
        case Quiet =>
        case WaitFailed => return Err(WaitError);
        case Cancelled => return Err(ContextDone);
        case DeadlinePassed => return Err(DeadlineExceeded);
        case Ready(receipt) =>
          var attempt := TryRecv(sendTime, probe, verifying, receipt);
          if attempt.Some? {
            return attempt.value;
          }
      }
      return Err(DeadlineExceeded);
    }

    method ProbePairChallenged(unixNs: int, x0: Exchange, x1: Exchange) returns (result: Result<ProbePairResult, SendError>)
      requires Valid()
      modifies this`sequence, this`wire, buf
      ensures var probe0 := TimestampedProbe(NextSequence(old(sequence)), signer, unixNs);
              && result == ChallengedPair(peer, signer, probe0, x0, x1)
              && wire == old(wire) + ChallengedSends(peer, signer, probe0, x0, x1)
              && sequence == if SendAndReceive(peer, probe0, false, x0).Ok? then NextSequence(probe0.sequence) else probe0.sequence
    {
      sequence := NextSequence(sequence);
      var probe0 := TimestampedProbe(sequence, signer, unixNs);
      var buf0 := MakeProbe(probe0);
      var outcome0 := SendAndRecv(buf0, probe0, false, x0);
      if outcome0.Err? {
        return Err(outcome0.error);
      }
      var (rtt0, reply0) := outcome0.value;
      sequence := NextSequence(sequence);
      var probe1 := NewChallengedProbe(sequence, signer, reply0.sinceLastRxNs);
      var buf1 := MakeProbe(probe1);
      var outcome1 := SendAndRecv(buf1, probe1, true, x1);
      if outcome1.Err? {
        return Err(outcome1.error);
      }
      var (rtt1, reply1) := outcome1.value;
      return Ok(ProbePairResult(rtt0, rtt1, reply0, reply1));
    }

    /** Receiving while waiting for Reply 0, and firing probe 1 the moment a datagram qualifies. */
    method RecvAndFire(receipt: Receipt, sequence0: Uint32, buf1: Bytes, sendOk: bool) returns (fired: Result<Option<nat>, SendError>)
      requires Valid()
      modifies this`wire, buf
      ensures match receipt
              case WouldBlock => fired == Ok(None)
              case ReceiveFailed => fired == Err(ReceiveError)
              case Got(d) =>
                if !Fires(sequence0, d.data) then fired == Ok(None)
                else if !sendOk then fired == Err(SendFailed)
                else fired == Ok(Some(|d.data|)) && |d.data| <= buf.Length && buf[..|d.data|] == d.data
      ensures wire == if receipt.Got? && Fires(sequence0, receipt.datagram.data) && sendOk then old(wire) + [buf1] else old(wire)
    {
      if receipt.WouldBlock? {
        return Ok(None);
      }
      if receipt.ReceiveFailed? {
        return Err(ReceiveError);
      }
      var n := Fill(receipt.datagram.data);
      if n < MIN_REPLY_SIZE || n > MAX_REPLY_SIZE {
        return Ok(None);
      }
      assert buf[0..4] == buf[..n][0..4];
      if Be32(buf[0..4]) != sequence0 {
        return Ok(None);
      }
      SendTo(buf1, sendOk);
      if !sendOk {
        return Err(SendFailed);
      }
      return Ok(Some(n));
    }

    method ProbePairUnchallenged(unixNs0: int, unixNs1: int, x0: Exchange, parsed: Time, x1: Exchange)
      returns (result: Result<ProbePairResult, SendError>)
      requires Valid()
      modifies this`sequence, this`wire, buf
      ensures sequence == NextSequence(NextSequence(old(sequence)))
      ensures var probe0 := TimestampedProbe(NextSequence(old(sequence)), signer, unixNs0);
              var probe1 := TimestampedProbe(NextSequence(NextSequence(old(sequence))), signer, unixNs1);
              && result == UnchallengedPair(peer, probe0, probe1, x0, parsed, x1)
              && wire == old(wire) + UnchallengedSends(probe0, probe1, x0, x1)
    {
      sequence := NextSequence(sequence);
      var probe0 := TimestampedProbe(sequence, signer, unixNs0);
      var buf0 := MakeProbe(probe0);
      sequence := NextSequence(sequence);
      var probe1 := TimestampedProbe(sequence, signer, unixNs1);
      var buf1 := MakeProbe(probe1);
      SendTo(buf0, x0.sendOk);
      if !x0.sendOk {
        return Err(SendFailed);
      }
      var found, n := AwaitTrigger(probe0.sequence, buf1, x0.busy + x0.blocking, x1.sendOk);
      if found.Err? {
        return Err(found.error);
      }
      var reply0 := UnmarshalReply(buf[..n]);
      if reply0.None? {
        return Err(BadReply);
      }
      if reply0.value.probe.sec != probe0.sec || reply0.value.probe.frac != probe0.frac {
        return Err(TimestampMismatch);
      }
      var control0 := found.value.control;
      if control0.Unparsable? {
        return Err(ControlError);
      }
      var rtt0 := FirstRtt(x0.sendTime, control0, parsed);
      var outcome1 := AwaitReply(x1.sendTime, probe1, true, x1.blocking);
      if outcome1.Err? {
        return Err(outcome1.error);
      }
      return Ok(ProbePairResult(rtt0, outcome1.value.0, reply0.value, outcome1.value.1));
    }

    /** Both phases of waiting for Reply 0; on success its `n` bytes are in the buffer and probe 1 has been sent. */
    method AwaitTrigger(sequence0: Uint32, buf1: Bytes, polls: seq<Poll>, sendOk: bool)
      returns (found: Result<Datagram, SendError>, n: nat)
      requires Valid()
      modifies this`wire, buf
      ensures var first := FirstSuitable(Trigger(sequence0), polls);
              && found == (if first.Ok? && !sendOk then Err(SendFailed) else first)
              && wire == (if first.Ok? && sendOk then old(wire) + [buf1] else old(wire))
      ensures found.Ok? ==> n <= buf.Length && buf[..n] == found.value.data
    {
      n := 0;
      assert polls[0..] == polls;
      for i := 0 to |polls|
        invariant wire == old(wire)
        invariant FirstSuitable(Trigger(sequence0), polls) == FirstSuitable(Trigger(sequence0), polls[i..])
      {
        assert polls[i..][1..] == polls[i + 1..];
        match polls[i]
        case Quiet =>
        case WaitFailed => return Err(WaitError), 0;
        case Cancelled => return Err(ContextDone), 0;
        case DeadlinePassed => return Err(DeadlineExceeded), 0;
        case Ready(receipt) =>
          var fired := RecvAndFire(receipt, sequence0, buf1, sendOk);
          if fired.Err? {
            return Err(fired.error), 0;
          }
          if fired.value.Some? {
            return Ok(receipt.datagram), fired.value.value;
          }
      }
      return Err(DeadlineExceeded), 0;
    }
  }
}
