/** The record of a sender as a three-state automaton, and the shape of its reply stream. */
module Automaton {
  import opened Wrappers
  import opened ByteCodec
  import opened Packet
  import opened Reflector
  import opened Runs

  datatype Phase =
    | Idle
    | Awaiting(nonce: Uint64, ip: Bytes4, start: Time, tx: Time)
    | Cooldown(start: Time)

  // The automaton.

  function Begin(from: SockAddr, now: Time, tx: Time, draw: Uint64): (Phase, Verdict) {
    if from.Inet4? then (Awaiting(draw, from.ip, now, tx), Answered(true, draw, false)) else (Idle, Dropped)
  }

  function Advance(interval: Duration, phase: Phase, probe: ProbePacket, from: SockAddr, now: Time, tx: Time, draw: Uint64)
    : (Phase, Verdict)
  {
    match phase
    case Idle => Begin(from, now, tx, draw)
    case Awaiting(nonce, expected, start, sent) =>
      if Sub(now, sent) > STALE_PAIR_TIMEOUT then Begin(from, now, tx, draw)
      else if (from.Inet4? ==> from.ip != expected) then (phase, Dropped)
      else (Cooldown(start), Answered(false, AsUint64(Sub(now, sent)), nonce != 0 && PresentedNonce(probe) == nonce))
    case Cooldown(start) =>
      if Sub(now, start) < interval then (phase, Dropped) else Begin(from, now, tx, draw)
  }

  // The refinement.

  /** In the middle of a pair the record holds the time of some transmission: this pair's, or an earlier one's. */
  predicate Timed(st: SenderState) {
    st.pairCount == 1 ==> st.lastTxTime.Some?
  }

  function PhaseOf(st: SenderState): Phase
    requires Timed(st)
  {
    if st.pairCount == 0 then Idle
    else if st.pairCount == 1 then Awaiting(st.nonce, st.pairSourceIP, st.pairStart, st.lastTxTime.value)
    else Cooldown(st.pairStart)
  }

  /** With a rate limit and fitting offsets, the counter-and-fields record steps as the automaton does. */
  lemma RecordRefinesAutomaton(cfg: Config, st: SenderState, p: ProbePacket, e: Event)
    requires cfg.verifyInterval > 0 && SenderOk(cfg.verifyInterval, st) && Timed(st)
    requires e.Receive?
    ensures Timed(AfterProbe(cfg, st, p, e, true))
    ensures (PhaseOf(AfterProbe(cfg, st, p, e, true)), Admit(cfg.verifyInterval, st, p, e.from, e.now, e.draw).1)
         == Advance(cfg.verifyInterval, PhaseOf(st), p, e.from, e.now, e.tx, e.draw)
  {
  }

  /** A dropped IPv4 datagram, whatever the reason and whatever the interval, leaves its sender's record as it was. */
  lemma DroppedIsStuttering(cfg: Config, s: State, e: Event, k: Key)
    requires e.Receive? && e.from.Inet4? && VerdictOf(cfg, s, e, k).Dropped?
    ensures SenderOf(Next(cfg, s, e), k) == SenderOf(s, k)
    ensures Next(cfg, s, e).authorized == s.authorized && Next(cfg, s, e).offsets == s.offsets
  {
    StepForSender(cfg, s, e, k);
  }

  /** All offsets put in force fit a reply. */
  ghost predicate OffsetsAlwaysOk(run: Run) {
    OffsetsOk(run.start.offsets) && forall i | 0 <= i < |run.events| && run.events[i].SetOffsets? :: OffsetsOk(run.events[i].blobs)
  }

  lemma {:induction false} OffsetsStayOk(run: Run, n: nat)
    requires OffsetsAlwaysOk(run) && n <= |run.events|
    ensures OffsetsOk(run.StateAt(n).offsets)
  {
    if n > 0 {
      OffsetsStayOk(run, n - 1);
    }
  }

  /** The automaton run over the same events: reloads that remove the key send it back to `Idle`. */
  function PhaseAt(run: Run, n: nat, k: Key): Phase
    requires n <= |run.events|
    decreases n
  {
    if n == 0 then Idle
    else
      var before, e := PhaseAt(run, n - 1, k), run.events[n - 1];
      match ProbeFor(run.StateAt(n - 1), e, k)
      case Some(p) =>
        Advance(run.cfg.verifyInterval, before, p, e.from, e.now, e.tx, e.draw).0
      case None => if Removes(run.StateAt(n - 1), e, k) then Idle else before
  }

  /** Over a whole run the record's phase is the automaton's. */
  lemma {:induction false} RunRefinesAutomaton(run: Run, n: nat, k: Key)
    requires run.start.senders == map[] && run.cfg.verifyInterval > 0 && n <= |run.events|
    requires OffsetsAlwaysOk(run)
    ensures Timed(run.SenderAt(n, k)) && PhaseOf(run.SenderAt(n, k)) == PhaseAt(run, n, k)
  {
    if n > 0 {
      var s, e := run.StateAt(n - 1), run.events[n - 1];
      RunRefinesAutomaton(run, n - 1, k);
      SendersStayOk(run, n - 1, k);
      OffsetsStayOk(run, n - 1);
      StepForSender(run.cfg, s, e, k);
      if ProbeFor(s, e, k).Some? {
        RecordRefinesAutomaton(run.cfg, SenderOf(s, k), ProbeFor(s, e, k).value, e);
      }
    }
  }

  // The reply stream.

  /** For each answer to `k` among the first `n` events, whether it is a first one. */
  function Answers(run: Run, n: nat, k: Key): seq<bool>
    requires n <= |run.events|
    decreases n
  {
    if n == 0 then []
    else
      var v := run.VerdictAt(n - 1, k);
      Answers(run, n - 1, k) + if v.Answered? then [v.first] else []
  }

  /** The language (R0+ R1)* R0*, with R0 as `true`. */
  ghost predicate InReplyLanguage(s: seq<bool>)
    decreases |s|
  {
    || (forall x | 0 <= x < |s| :: s[x])
    || (exists n | 0 < n < |s| :: (forall x | 0 <= x < n :: s[x]) && !s[n] && InReplyLanguage(s[n + 1..]))
  }

  ghost predicate SecondsFollowFirsts(s: seq<bool>) {
    forall x | 0 <= x < |s| && !s[x] :: x > 0 && s[x - 1]
  }

  lemma {:induction false} LanguageFromNeighbours(s: seq<bool>)
    requires SecondsFollowFirsts(s)
    ensures InReplyLanguage(s)
    decreases |s|
  {
    if !(forall x | 0 <= x < |s| :: s[x]) {
      var n := FirstSecond(s);
      var rest := s[n + 1..];
      forall x | 0 <= x < |rest| && !rest[x]
        ensures x > 0 && rest[x - 1]
      {
        assert !s[n + 1 + x];
      }
      LanguageFromNeighbours(rest);
    }
  }

  lemma FirstSecond(s: seq<bool>) returns (n: nat)
    requires exists x | 0 <= x < |s| :: !s[x]
    ensures n < |s| && !s[n] && forall x | 0 <= x < n :: s[x]
  {
    n := 0;
    while s[n]
      invariant n < |s| && (forall x | 0 <= x < n :: s[x])
      invariant exists x | n <= x < |s| :: !s[x]
      decreases |s| - n
    {
      n := n + 1;
    }
  }

  ghost predicate EndsInFirst(s: seq<bool>) {
    s != [] && s[|s| - 1]
  }

  lemma AppendAnswer(s: seq<bool>, first: bool)
    requires SecondsFollowFirsts(s) && (!first ==> EndsInFirst(s))
    ensures SecondsFollowFirsts(s + [first]) && (first ==> EndsInFirst(s + [first]))
  {
  }

  /** With a rate limit a second answer comes in the middle of a pair, and a first one leads there. */
  lemma AnswerInPair(run: Run, n: nat, k: Key)
    requires run.start.senders == map[] && run.cfg.verifyInterval > 0 && n < |run.events|
    ensures var v, before, after := run.VerdictAt(n, k), run.SenderAt(n, k), run.SenderAt(n + 1, k);
            && (v.Answered? && !v.first ==> before.pairCount == 1 && after.pairCount == 2)
            && (!v.Answered? && after.pairCount == 1 ==> before.pairCount == 1)
  {
    SendersStayOk(run, n, k);
    StepForSender(run.cfg, run.StateAt(n), run.events[n], k);
  }

  lemma {:induction false} AnswersAlternate(run: Run, n: nat, k: Key, s: seq<bool>)
    requires run.start.senders == map[] && run.cfg.verifyInterval > 0 && n <= |run.events| && s == Answers(run, n, k)
    ensures SecondsFollowFirsts(s) && (run.SenderAt(n, k).pairCount == 1 ==> EndsInFirst(s))
  {
    if n > 0 {
      var v, before := run.VerdictAt(n - 1, k), Answers(run, n - 1, k);
      AnswersAlternate(run, n - 1, k, before);
      AnswerInPair(run, n - 1, k);
      AnswersNext(run, n - 1, k);
      if v.Answered? {
        AppendAnswer(before, v.first);
      }
    }
  }

  lemma AnswersNext(run: Run, n: nat, k: Key)
    requires n < |run.events|
    ensures var v, s := run.VerdictAt(n, k), Answers(run, n, k);
            Answers(run, n + 1, k) == if v.Answered? then s + [v.first] else s
  {
    assert Answers(run, n, k) + [] == Answers(run, n, k);
  }

  /** Every sender's answers form a word of (R0+ R1)* R0*. */
  lemma AnswerStreamShape(run: Run, k: Key)
    requires run.start.senders == map[] && run.cfg.verifyInterval > 0
    ensures InReplyLanguage(Answers(run, |run.events|, k))
  {
    AnswersAlternate(run, |run.events|, k, Answers(run, |run.events|, k));
    LanguageFromNeighbours(Answers(run, |run.events|, k));
  }

  /** With fitting offsets every answer goes out as a reply, and nothing else does. */
  lemma AnswersAreReplies(run: Run, i: nat, k: Key)
    requires OffsetsAlwaysOk(run) && i < |run.events|
    ensures run.VerdictAt(i, k).Answered? <==> run.ReplyAt(i).Some? && run.ReplyAt(i).value.probe.senderPubkey == k
  {
    OffsetsStayOk(run, i);
    ReplyForSender(run.cfg, run.StateAt(i), run.events[i], k);
  }

  // Without a rate limit.

  /**
   With no verify interval a completed pair is a sender's last while its record lives: the counter never
   comes back, so no further nonce is issued to it and no further answer is challenged.
   */
  lemma {:induction false} NoIntervalMeansOnePair(run: Run, lo: nat, n: nat, k: Key)
    requires run.start.senders == map[] && run.cfg.verifyInterval <= 0 && lo <= n <= |run.events|
    requires run.SenderAt(lo, k).pairCount >= 2
    requires forall m | lo <= m < n :: !Removes(run.StateAt(m), run.events[m], k)
    ensures run.SenderAt(n, k).pairCount >= 2
    ensures n < |run.events| && run.VerdictAt(n, k).Answered? ==> !run.VerdictAt(n, k).first && !run.VerdictAt(n, k).challenged
    decreases n
  {
    if lo < n {
      NoIntervalMeansOnePair(run, lo, n - 1, k);
      StepForSender(run.cfg, run.StateAt(n - 1), run.events[n - 1], k);
    }
    SendersStayOk(run, n, k);
  }
}
