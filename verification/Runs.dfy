/** Whole runs of the reflector, and what holds of every challenged reply in them. */
module Runs {
  import opened Wrappers
  import opened ByteCodec
  import opened Packet
  import opened Reflector

  // What one event means for one sender.

  /** The probe of `k` that event `e` brings, when `k` is authorised. */
  function ProbeFor(s: State, e: Event, k: Key): Option<ProbePacket> {
    if !e.Receive? then None
    else
      match AuthorizedProbe(s, e.probe)
      case None => None
      case Some(p) => if p.senderPubkey == k then Some(p) else None
  }

  function VerdictOf(cfg: Config, s: State, e: Event, k: Key): Verdict {
    match ProbeFor(s, e, k)
    case None => Dropped
    case Some(p) => Admit(cfg.verifyInterval, SenderOf(s, k), p, e.from, e.now, e.draw).1
  }

  /** The record of `k` after a probe of its own; `sent` says whether the answer, if any, went out. */
  function AfterProbe(cfg: Config, st: SenderState, p: ProbePacket, e: Event, sent: bool): SenderState
    requires e.Receive?
  {
    var (after, v) := Admit(cfg.verifyInterval, st, p, e.from, e.now, e.draw);
    if v.Answered? && sent then after.(lastTxTime := Some(e.tx)) else after
  }

  predicate Removes(s: State, e: Event, k: Key) {
    e.SetAuthorizedKeys? && k in s.authorized && k !in e.keys
  }

  /** How a step changes one sender's record. */
  lemma StepForSender(cfg: Config, s: State, e: Event, k: Key)
    ensures var after, p := SenderOf(Next(cfg, s, e), k), ProbeFor(s, e, k);
            if p.Some? then after == AfterProbe(cfg, SenderOf(s, k), p.value, e, OffsetsOk(s.offsets))
            else if Removes(s, e, k) then after == EmptySender()
            else after == SenderOf(s, k)
  {
  }

  /** A reply goes out exactly when a probe is answered and the offsets fit, and carries what was decided. */
  lemma ReplyForSender(cfg: Config, s: State, e: Event, k: Key)
    ensures var r, v, p := Reply(cfg, s, e), VerdictOf(cfg, s, e, k), ProbeFor(s, e, k);
            && ((r.Some? && r.value.probe.senderPubkey == k) <==> (v.Answered? && OffsetsOk(s.offsets)))
            && (v.Answered? ==> p.Some?)
            && (r.Some? && r.value.probe.senderPubkey == k ==>
                  && r.value == SignReply(Draft(cfg, s.offsets, p.value, v), cfg.signer)
                  && r.value.probe == p.value && r.value.challenged == v.challenged
                  && r.value.sinceLastRxNs == v.sinceLastRxNs && r.value.offsets == s.offsets)
  {
  }

  // Runs.

  datatype Run = Run(cfg: Config, start: State, events: seq<Event>) {

    function StateAt(n: nat): State
      requires n <= |events|
      decreases n
    {
      if n == 0 then start else Next(cfg, StateAt(n - 1), events[n - 1])
    }

    function ReplyAt(i: nat): Option<ReplyPacket>
      requires i < |events|
    {
      Reply(cfg, StateAt(i), events[i])
    }

    function SenderAt(n: nat, k: Key): SenderState
      requires n <= |events|
    {
      SenderOf(StateAt(n), k)
    }

    function VerdictAt(i: nat, k: Key): Verdict
      requires i < |events|
    {
      VerdictOf(cfg, StateAt(i), events[i], k)
    }

    /** Event `i` brings a probe of `k` and `k` is authorised. */
    predicate ProbedAt(i: nat, k: Key)
      requires i < |events|
    {
      ProbeFor(StateAt(i), events[i], k).Some?
    }

    predicate IssuedAt(i: nat, k: Key)
      requires i < |events|
    {
      VerdictAt(i, k).Answered? && VerdictAt(i, k).first
    }

    /** The last event before `n` at which a nonce was issued to `k`, or -1. */
    function LastIssue(n: nat, k: Key): (j: int)
      requires n <= |events|
      ensures -1 <= j < n
      ensures j >= 0 ==> IssuedAt(j, k) && events[j].Receive?
      decreases n
    {
      if n == 0 then -1
      else if IssuedAt(n - 1, k) then n - 1
      else LastIssue(n - 1, k)
    }

    ghost predicate UnansweredBetween(lo: nat, hi: nat, k: Key)
      requires hi <= |events|
    {
      forall m | lo < m < hi :: !VerdictAt(m, k).Answered?
    }
  }

  // Invariants of a record.

  /** The counter stays in 0..2 and a nonce is live only inside a pair. */
  predicate SenderOk(interval: Duration, st: SenderState) {
    && (interval > 0 ==> st.pairCount <= 2)
    && (st.nonce != 0 ==> st.pairCount == 1)
  }

  lemma {:induction false} SendersStayOk(run: Run, n: nat, k: Key)
    requires run.start.senders == map[] && n <= |run.events|
    ensures SenderOk(run.cfg.verifyInterval, run.SenderAt(n, k))
  {
    if n > 0 {
      SendersStayOk(run, n - 1, k);
      StepForSender(run.cfg, run.StateAt(n - 1), run.events[n - 1], k);
    }
  }

  /** What a record in the middle of a pair remembers of the event that began it. */
  ghost predicate RemembersIssue(run: Run, n: nat, k: Key)
    requires n <= |run.events|
  {
    var st, j := run.SenderAt(n, k), run.LastIssue(n, k);
    st.pairCount == 1 ==>
      && j >= 0
      && run.events[j].from.Inet4? && run.events[j].from.ip == st.pairSourceIP
      && run.events[j].now == st.pairStart && run.events[j].draw == st.nonce
      && run.UnansweredBetween(j, n, k)
      && (OffsetsOk(run.StateAt(j).offsets) ==> st.lastTxTime == Some(run.events[j].tx))
  }

  /** The first probe of a pair is what the record remembers. */
  lemma RemembersWhenIssued(run: Run, n: nat, k: Key)
    requires n < |run.events| && run.IssuedAt(n, k)
    ensures RemembersIssue(run, n + 1, k)
  {
    StepForSender(run.cfg, run.StateAt(n), run.events[n], k);
  }

  /** The second probe ends the pair. */
  lemma RemembersWhenCompleted(run: Run, n: nat, k: Key)
    requires n < |run.events| && run.VerdictAt(n, k).Answered? && !run.VerdictAt(n, k).first
    ensures run.SenderAt(n + 1, k).pairCount != 1
  {
    StepForSender(run.cfg, run.StateAt(n), run.events[n], k);
  }

  /** Without an answer a record that is still in the middle of a pair is unchanged. */
  lemma UnansweredKeepsPair(run: Run, n: nat, k: Key)
    requires n < |run.events| && !run.VerdictAt(n, k).Answered? && run.SenderAt(n + 1, k).pairCount == 1
    ensures run.SenderAt(n, k) == run.SenderAt(n + 1, k) && run.LastIssue(n + 1, k) == run.LastIssue(n, k)
  {
    StepForSender(run.cfg, run.StateAt(n), run.events[n], k);
  }

  lemma {:induction false} PairRemembersIssue(run: Run, n: nat, k: Key)
    requires run.start.senders == map[] && n <= |run.events|
    ensures RemembersIssue(run, n, k)
  {
    if n > 0 {
      var v := run.VerdictAt(n - 1, k);
      PairRemembersIssue(run, n - 1, k);
      if v.Answered? && v.first {
        RemembersWhenIssued(run, n - 1, k);
      } else if v.Answered? {
        RemembersWhenCompleted(run, n - 1, k);
      } else if run.SenderAt(n, k).pairCount == 1 {
        UnansweredKeepsPair(run, n - 1, k);
      }
    }
  }

  // Challenge soundness.

  /**
   Event `i` answers, with the challenged flag, the nonce issued at event `j`: the same
   sender from the same address, the nonce non-zero and echoed, and no answer in between.
   */
  ghost predicate AnswersIssue(run: Run, i: nat, j: nat, k: Key)
    requires j < i < |run.events|
  {
    && run.events[i].Receive? && run.events[j].Receive?
    && run.IssuedAt(j, k) && run.VerdictAt(j, k).sinceLastRxNs == run.events[j].draw != 0
    && ProbeFor(run.StateAt(i), run.events[i], k).Some?
    && PresentedNonce(ProbeFor(run.StateAt(i), run.events[i], k).value) == run.events[j].draw
    && run.events[i].from.Inet4? && run.events[j].from.Inet4? && run.events[i].from.ip == run.events[j].from.ip
    && run.UnansweredBetween(j, i, k)
  }

  /** A challenged verdict always answers the nonce last issued to that sender. */
  lemma ChallengedVerdict(run: Run, i: nat, k: Key)
    requires run.start.senders == map[] && i < |run.events|
    requires run.VerdictAt(i, k).Answered? && run.VerdictAt(i, k).challenged
    ensures var j := run.LastIssue(i, k);
            && 0 <= j < i && AnswersIssue(run, i, j, k)
            && (OffsetsOk(run.StateAt(j).offsets) ==>
                  && Sub(run.events[i].now, run.events[j].tx) <= STALE_PAIR_TIMEOUT
                  && run.VerdictAt(i, k).sinceLastRxNs == AsUint64(Sub(run.events[i].now, run.events[j].tx)))
  {
    SendersStayOk(run, i, k);
    PairRemembersIssue(run, i, k);
    var st := run.SenderAt(i, k);
    assert st.pairCount == 1 && st.nonce != 0;
  }

  /**
   Challenge soundness.  Every challenged reply is the second of a pair: its Reply 0 went to
   the same key and address, carried the echoed non-zero nonce, and the interval reported is
   from that reply's transmission to this probe's receipt.  (Reply 0 went out if and only if
   the offsets then in force fit a reply.)
   */
  lemma ChallengedReplyIsSecondOfPair(run: Run, i: nat)
    requires run.start.senders == map[] && i < |run.events|
    requires run.ReplyAt(i).Some? && run.ReplyAt(i).value.challenged
    ensures var r := run.ReplyAt(i).value;
            var k := r.probe.senderPubkey;
            var j := run.LastIssue(i, k);
            && 0 <= j < i && AnswersIssue(run, i, j, k)
            && PresentedNonce(r.probe) == run.events[j].draw
            && (run.ReplyAt(j).Some? <==> OffsetsOk(run.StateAt(j).offsets))
            && (run.ReplyAt(j).Some? ==>
                  && run.ReplyAt(j).value.probe.senderPubkey == k && !run.ReplyAt(j).value.challenged
                  && run.ReplyAt(j).value.sinceLastRxNs == PresentedNonce(r.probe)
                  && Sub(run.events[i].now, run.events[j].tx) <= STALE_PAIR_TIMEOUT
                  && r.sinceLastRxNs == AsUint64(Sub(run.events[i].now, run.events[j].tx)))
  {
    var k := run.ReplyAt(i).value.probe.senderPubkey;
    ReplyForSender(run.cfg, run.StateAt(i), run.events[i], k);
    ChallengedVerdict(run, i, k);
    IssueReply(run, run.LastIssue(i, k), k);
  }

  /** The reply, if one went out, to the probe a nonce was issued to. */
  lemma IssueReply(run: Run, j: nat, k: Key)
    requires j < |run.events| && run.IssuedAt(j, k)
    ensures run.ReplyAt(j).Some? <==> OffsetsOk(run.StateAt(j).offsets)
    ensures run.ReplyAt(j).Some? ==>
              && run.ReplyAt(j).value.probe.senderPubkey == k && !run.ReplyAt(j).value.challenged
              && run.events[j].Receive? && run.ReplyAt(j).value.sinceLastRxNs == run.events[j].draw
  {
    ReplyForSender(run.cfg, run.StateAt(j), run.events[j], k);
  }

  lemma OneChallengedVerdictPerIssue(run: Run, i1: nat, i2: nat, k: Key)
    requires run.start.senders == map[] && i1 < i2 < |run.events|
    requires run.VerdictAt(i1, k).Answered? && run.VerdictAt(i1, k).challenged
    requires run.VerdictAt(i2, k).Answered? && run.VerdictAt(i2, k).challenged
    ensures run.LastIssue(i1, k) < i1 < run.LastIssue(i2, k)
  {
    ChallengedVerdict(run, i2, k);
    var j := run.LastIssue(i2, k);
    assert run.UnansweredBetween(j, i2, k);
    FirstIsUnchallenged(run, j, k);
  }

  lemma FirstIsUnchallenged(run: Run, j: nat, k: Key)
    requires j < |run.events| && run.IssuedAt(j, k)
    ensures !run.VerdictAt(j, k).challenged
  {
  }

  /** Each issued nonce yields at most one challenged reply: the second needs a fresh issue after the first. */
  lemma OneChallengedReplyPerIssue(run: Run, i1: nat, i2: nat, k: Key)
    requires run.start.senders == map[] && i1 < i2 < |run.events|
    requires run.ReplyAt(i1).Some? && run.ReplyAt(i1).value.challenged && run.ReplyAt(i1).value.probe.senderPubkey == k
    requires run.ReplyAt(i2).Some? && run.ReplyAt(i2).value.challenged && run.ReplyAt(i2).value.probe.senderPubkey == k
    ensures run.LastIssue(i1, k) < i1 < run.LastIssue(i2, k)
  {
    ReplyForSender(run.cfg, run.StateAt(i1), run.events[i1], k);
    ReplyForSender(run.cfg, run.StateAt(i2), run.events[i2], k);
    OneChallengedVerdictPerIssue(run, i1, i2, k);
  }
}
