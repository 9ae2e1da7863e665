/** One sender's replies and record do not depend on the other senders' datagrams. */
module NonInterference {
  import opened Wrappers
  import opened ByteCodec
  import opened Packet
  import opened Reflector

  /** Reloads and offset changes concern every key, a probe only its sender. */
  predicate Concerns(e: Event, k: Key) {
    e.Receive? ==> e.probe.Some? && e.probe.value.senderPubkey == k
  }

  /** The events that concern `k`, in order. */
  function Project(events: seq<Event>, k: Key): seq<Event> {
    if events == [] then []
    else if Concerns(events[0], k) then [events[0]] + Project(events[1..], k)
    else Project(events[1..], k)
  }

  function End(cfg: Config, s: State, events: seq<Event>): State
    decreases |events|
  {
    if events == [] then s else End(cfg, Next(cfg, s, events[0]), events[1..])
  }

  function RepliesTo(cfg: Config, s: State, events: seq<Event>, k: Key): seq<ReplyPacket>
    decreases |events|
  {
    if events == [] then []
    else
      var reply, later := Reply(cfg, s, events[0]), RepliesTo(cfg, Next(cfg, s, events[0]), events[1..], k);
      if reply.Some? && reply.value.probe.senderPubkey == k then [reply.value] + later else later
  }

  /** What of the state matters to `k`. */
  datatype Share = Share(authorized: bool, sender: Option<SenderState>, offsets: seq<Bytes>)

  function ShareOf(s: State, k: Key): Share {
    Share(k in s.authorized, if k in s.senders then Some(s.senders[k]) else None, s.offsets)
  }

  /** An event that does not concern `k` neither changes its share nor answers it. */
  lemma ForeignEvent(cfg: Config, s: State, e: Event, k: Key)
    requires !Concerns(e, k)
    ensures ShareOf(Next(cfg, s, e), k) == ShareOf(s, k)
    ensures var r := Reply(cfg, s, e); r.Some? ==> r.value.probe.senderPubkey != k
  {
  }

  /** An event that concerns `k` acts on its share alone. */
  lemma OwnEvent(cfg: Config, s: State, t: State, e: Event, k: Key)
    requires Concerns(e, k) && ShareOf(s, k) == ShareOf(t, k)
    ensures ShareOf(Next(cfg, s, e), k) == ShareOf(Next(cfg, t, e), k)
    ensures Reply(cfg, s, e) == Reply(cfg, t, e)
  {
    assert SenderOf(s, k) == SenderOf(t, k);
  }

  /**
   Non-interference: whatever other datagrams are interleaved, `k` gets the replies, and ends with
   the record, of a reflector that sees only the events concerning `k`.
   */
  lemma {:induction false} RepliesDependOnOwnEvents(cfg: Config, s: State, t: State, events: seq<Event>, k: Key)
    requires ShareOf(s, k) == ShareOf(t, k)
    ensures RepliesTo(cfg, s, events, k) == RepliesTo(cfg, t, Project(events, k), k)
    ensures ShareOf(End(cfg, s, events), k) == ShareOf(End(cfg, t, Project(events, k)), k)
    decreases |events|
  {
    if events != [] {
      var e, rest := events[0], events[1..];
      if Concerns(e, k) {
        OwnEvent(cfg, s, t, e, k);
        RepliesDependOnOwnEvents(cfg, Next(cfg, s, e), Next(cfg, t, e), rest, k);
        assert Project(events, k)[0] == e && Project(events, k)[1..] == Project(rest, k);
      } else {
        ForeignEvent(cfg, s, e, k);
        RepliesDependOnOwnEvents(cfg, Next(cfg, s, e), t, rest, k);
      }
    }
  }
}
