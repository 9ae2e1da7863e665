/**
 What the anchor does, told from the events alone: who was permitted, who was answered and when.  Nothing
 here looks into a record.
 */
module History {
  import opened Wrappers
  import opened ByteCodec
  import opened Signing
  import opened Packet
  import opened Reflector
  import opened Runs
  import opened Snapshots

  // Who may be answered.

  /** `k` is on the list of the last reload before event `n`, or on the first list. */
  predicate PermittedAt(run: Run, n: nat, k: Key)
    requires n <= |run.events|
    decreases n
  {
    if n == 0 then k in run.start.authorized
    else if run.events[n - 1].SetAuthorizedKeys? then k in run.events[n - 1].keys
    else PermittedAt(run, n - 1, k)
  }

  lemma {:induction false} PermittedIsAuthorized(run: Run, n: nat, k: Key)
    requires n <= |run.events|
    ensures PermittedAt(run, n, k) <==> k in run.StateAt(n).authorized
  {
    if n > 0 {
      PermittedIsAuthorized(run, n - 1, k);
    }
  }

  /** Event `i` brings a probe of `k`, which is permitted. */
  predicate Brings(run: Run, i: nat, k: Key)
    requires i < |run.events|
  {
    && run.events[i].Receive? && run.events[i].probe.Some? && run.events[i].probe.value.senderPubkey == k
    && PermittedAt(run, i, k)
  }

  predicate ForgottenAt(run: Run, i: nat, k: Key)
    requires i < |run.events|
  {
    run.events[i].SetAuthorizedKeys? && PermittedAt(run, i, k) && k !in run.events[i].keys
  }

  lemma EventForKey(run: Run, i: nat, k: Key)
    requires i < |run.events|
    ensures ProbeFor(run.StateAt(i), run.events[i], k) == if Brings(run, i, k) then run.events[i].probe else None
    ensures ForgottenAt(run, i, k) <==> Removes(run.StateAt(i), run.events[i], k)
  {
    PermittedIsAuthorized(run, i, k);
  }

  // What was answered before.

  predicate AnsweredAt(run: Run, i: nat, k: Key)
    requires i < |run.events|
  {
    run.VerdictAt(i, k).Answered?
  }

  /** The last event before `n` at which `k` was answered, or -1 if there is none since it was last removed. */
  function LastAnswer(run: Run, n: nat, k: Key): (j: int)
    requires n <= |run.events|
    ensures -1 <= j < n
    ensures j >= 0 ==> AnsweredAt(run, j, k) && run.events[j].Receive?
    decreases n
  {
    if n == 0 || ForgottenAt(run, n - 1, k) then -1
    else if AnsweredAt(run, n - 1, k) then n - 1
    else LastAnswer(run, n - 1, k)
  }

  /** The last that began a pair. */
  function LastFirst(run: Run, n: nat, k: Key): (j: int)
    requires n <= |run.events|
    ensures -1 <= j < n
    ensures j >= 0 ==> run.IssuedAt(j, k) && run.events[j].Receive?
    decreases n
  {
    if n == 0 || ForgottenAt(run, n - 1, k) then -1
    else if run.IssuedAt(n - 1, k) then n - 1
    else LastFirst(run, n - 1, k)
  }

  /** The last that was sent: the offsets then in force fitted a reply. */
  function LastSent(run: Run, n: nat, k: Key): (j: int)
    requires n <= |run.events|
    ensures -1 <= j < n
    ensures j >= 0 ==> AnsweredAt(run, j, k) && run.events[j].Receive?
    decreases n
  {
    if n == 0 || ForgottenAt(run, n - 1, k) then -1
    else if AnsweredAt(run, n - 1, k) && OffsetsOk(OffsetsInForce(run, n - 1)) then n - 1
    else LastSent(run, n - 1, k)
  }

  /**
   By `now` the pair last begun is over.  One probe answered: five seconds since the last reply was sent.  Both
   answered: the verify interval since the first was received, if there is an interval.
   */
  predicate Overdue(run: Run, n: nat, k: Key, now: Time)
    requires n <= |run.events|
  {
    var first, sent := LastFirst(run, n, k), LastSent(run, n, k);
    if first < 0 then false
    else if LastAnswer(run, n, k) == first then sent >= 0 && now - run.events[sent].tx > 5_000_000_000
    else run.cfg.verifyInterval > 0 && now - run.events[first].now >= run.cfg.verifyInterval
  }

  /** Event `m`, after the last answer, brought a probe when the pair was over. */
  predicate FoundOver(run: Run, m: nat, n: nat, k: Key)
    requires m < n <= |run.events|
  {
    LastAnswer(run, n, k) < m && Brings(run, m, k) && Overdue(run, n, k, run.events[m].now)
  }

  ghost predicate Lapsed(run: Run, n: nat, k: Key)
    requires n <= |run.events|
  {
    exists m | 0 <= m < n :: FoundOver(run, m, n, k)
  }

  // What a record remembers of it.

  /** The pair last begun, and the number of its probes answered. */
  ghost predicate RemembersPair(run: Run, n: nat, k: Key, st: SenderState)
    requires n <= |run.events| && LastFirst(run, n, k) >= 0
  {
    var answer, first := LastAnswer(run, n, k), LastFirst(run, n, k);
    && run.events[first].from.Inet4? && st.pairSourceIP == run.events[first].from.ip && st.pairStart == run.events[first].now
    && (answer == first ==> st.pairCount == 1 && st.nonce == run.events[first].draw)
    && (answer != first ==> st.pairCount >= 2 && st.nonce == 0)
    && (run.cfg.verifyInterval > 0 ==> st.pairCount <= 2)
  }

  ghost predicate RemembersHistory(run: Run, n: nat, k: Key)
    requires n <= |run.events|
  {
    var st, answer, sent := run.SenderAt(n, k), LastAnswer(run, n, k), LastSent(run, n, k);
    && (answer >= 0 <==> LastFirst(run, n, k) >= 0)
    && st.lastTxTime == (if sent < 0 then None else Some(run.events[sent].tx))
    && (answer < 0 || Lapsed(run, n, k) ==> st.pairCount == 0)
    && (answer >= 0 && !Lapsed(run, n, k) ==> RemembersPair(run, n, k, st))
  }

  lemma LapsedStep(run: Run, n: nat, k: Key)
    requires n < |run.events| && !ForgottenAt(run, n, k) && !AnsweredAt(run, n, k)
    ensures LastAnswer(run, n + 1, k) == LastAnswer(run, n, k) && LastFirst(run, n + 1, k) == LastFirst(run, n, k)
    ensures LastSent(run, n + 1, k) == LastSent(run, n, k)
    ensures Lapsed(run, n + 1, k) <==> Lapsed(run, n, k) || (Brings(run, n, k) && Overdue(run, n, k, run.events[n].now))
  {
    if Lapsed(run, n + 1, k) {
      var m :| 0 <= m < n + 1 && FoundOver(run, m, n + 1, k);
      assert m < n ==> FoundOver(run, m, n, k);
    }
    if Lapsed(run, n, k) {
      var m :| 0 <= m < n && FoundOver(run, m, n, k);
      assert FoundOver(run, m, n + 1, k);
    }
    if Brings(run, n, k) && Overdue(run, n, k, run.events[n].now) {
      assert FoundOver(run, n, n + 1, k);
    }
  }

  /** Nanoseconds from `tx` to `now` as a 64-bit two's complement count, at most and at least what a duration holds. */
  function Since(now: Time, tx: Time): Uint64 {
    var d := now - tx;
    if d > 0x7FFF_FFFF_FFFF_FFFF then 0x7FFF_FFFF_FFFF_FFFF
    else if d >= 0 then d
    else if d >= -0x8000_0000_0000_0000 then 0x1_0000_0000_0000_0000 + d
    else 0x8000_0000_0000_0000
  }

  /** The time since the last reply that was sent to `k`, or 0 without one. */
  function SinceSent(run: Run, i: nat, k: Key): Uint64
    requires i < |run.events| && run.events[i].Receive?
  {
    var sent := LastSent(run, i, k);
    if sent < 0 then 0 else Since(run.events[i].now, run.events[sent].tx)
  }

  /** Event `i` finds no pair of `k` under way, or one that is over. */
  ghost predicate FindsRoom(run: Run, i: nat, k: Key)
    requires i < |run.events| && run.events[i].Receive?
  {
    LastAnswer(run, i, k) < 0 || Lapsed(run, i, k) || Overdue(run, i, k, run.events[i].now)
  }

  /** The answer to event `i`, from what came before it. */
  ghost function Decision(run: Run, i: nat, k: Key): Verdict
    requires i < |run.events|
  {
    var e := run.events[i];
    if !Brings(run, i, k) || !e.from.Inet4? then Dropped
    else if FindsRoom(run, i, k) then Answered(true, e.draw, false)
    else
      var answer, first := LastAnswer(run, i, k), LastFirst(run, i, k);
      if first < 0 || !run.events[first].from.Inet4? || e.from.ip != run.events[first].from.ip then Dropped
      else if answer != first && run.cfg.verifyInterval > 0 then Dropped
      else
        Answered(false, SinceSent(run, i, k),
                 answer == first && run.events[first].draw != 0 && PresentedNonce(e.probe.value) == run.events[first].draw)
  }

  lemma SubAgainst(a: Time, b: Time, d: Duration)
    ensures Sub(a, b) > d <==> d < MAX_DURATION && a - b > d
    ensures Sub(a, b) < d <==> d > MIN_DURATION && a - b < d
  {
  }

  lemma SinceIsInterval(now: Time, tx: Time)
    ensures AsUint64(Sub(now, tx)) == Since(now, tx)
  {
  }

  /** The record still to be worked on finds the pair over exactly when it is. */
  lemma OverdueFromRecord(run: Run, i: nat, k: Key)
    requires i < |run.events| && RemembersHistory(run, i, k) && Brings(run, i, k)
    requires LastAnswer(run, i, k) >= 0 && !Lapsed(run, i, k)
    ensures var st, now, interval := run.SenderAt(i, k), run.events[i].now, run.cfg.verifyInterval;
            if Overdue(run, i, k, now) then !RateLimited(interval, st, now) && Expire(interval, st, now) == ResetPair(st)
            else (RateLimited(interval, st, now) <==> st.pairCount >= 2 && interval > 0)
                 && (!RateLimited(interval, st, now) ==> Expire(interval, st, now) == st)
  {
    var st, e := run.SenderAt(i, k), run.events[i];
    SubAgainst(e.now, st.pairStart, run.cfg.verifyInterval);
    if st.lastTxTime.Some? {
      SubAgainst(e.now, st.lastTxTime.value, 5_000_000_000);
    }
  }

  /** The verdict on a probe, given a record that remembers the history. */
  lemma DecisionFromRecord(run: Run, i: nat, k: Key)
    requires i < |run.events| && RemembersHistory(run, i, k)
    ensures run.VerdictAt(i, k) == Decision(run, i, k)
  {
    EventForKey(run, i, k);
    if Brings(run, i, k) {
      if LastAnswer(run, i, k) >= 0 && !Lapsed(run, i, k) {
        OverdueFromRecord(run, i, k);
      }
      if run.SenderAt(i, k).lastTxTime.Some? {
        SinceIsInterval(run.events[i].now, run.SenderAt(i, k).lastTxTime.value);
      }
    }
  }

  lemma {:induction false} RecordRemembers(run: Run, n: nat, k: Key)
    requires run.start.senders == map[] && n <= |run.events|
    ensures RemembersHistory(run, n, k)
  {
    if n > 0 {
      RecordRemembers(run, n - 1, k);
      RemembersNext(run, n - 1, k);
    }
  }

  lemma RemembersWhenForgotten(run: Run, n: nat, k: Key)
    requires n < |run.events| && ForgottenAt(run, n, k)
    ensures RemembersHistory(run, n + 1, k)
  {
    EventForKey(run, n, k);
    StepForSender(run.cfg, run.StateAt(n), run.events[n], k);
  }

  /** After an answer nothing has lapsed yet. */
  lemma FreshAnswer(run: Run, n: nat, k: Key)
    requires n < |run.events| && AnsweredAt(run, n, k)
    ensures LastAnswer(run, n + 1, k) == n && !Lapsed(run, n + 1, k)
    ensures LastFirst(run, n + 1, k) == if run.IssuedAt(n, k) then n else LastFirst(run, n, k)
    ensures LastSent(run, n + 1, k) == if OffsetsOk(run.StateAt(n).offsets) then n else LastSent(run, n, k)
  {
    StateHoldsLastOffsets(run, n);
  }

  lemma RemembersWhenAnswered(run: Run, n: nat, k: Key)
    requires n < |run.events| && RemembersHistory(run, n, k) && AnsweredAt(run, n, k)
    ensures RemembersHistory(run, n + 1, k)
  {
    FreshAnswer(run, n, k);
    EventForKey(run, n, k);
    StepForSender(run.cfg, run.StateAt(n), run.events[n], k);
    DecisionFromRecord(run, n, k);
  }

  lemma RemembersWhenUnanswered(run: Run, n: nat, k: Key)
    requires n < |run.events| && RemembersHistory(run, n, k) && !AnsweredAt(run, n, k) && !ForgottenAt(run, n, k)
    ensures RemembersHistory(run, n + 1, k)
  {
    LapsedStep(run, n, k);
    EventForKey(run, n, k);
    UnansweredStep(run, n, k);
  }

  /** An unanswered probe changes the record only by ending a pair that is over. */
  lemma UnansweredStep(run: Run, n: nat, k: Key)
    requires n < |run.events| && RemembersHistory(run, n, k) && !AnsweredAt(run, n, k) && !ForgottenAt(run, n, k)
    ensures var before, after := run.SenderAt(n, k), run.SenderAt(n + 1, k);
            if Brings(run, n, k) && Overdue(run, n, k, run.events[n].now)
            then after == before.(pairCount := 0, nonce := 0) || (after == before && before.pairCount == 0)
            else after == before
  {
    EventForKey(run, n, k);
    StepForSender(run.cfg, run.StateAt(n), run.events[n], k);
    if Brings(run, n, k) {
      var st, e := run.SenderAt(n, k), run.events[n];
      SubAgainst(e.now, st.pairStart, run.cfg.verifyInterval);
      if st.lastTxTime.Some? {
        SubAgainst(e.now, st.lastTxTime.value, 5_000_000_000);
      }
    }
  }

  lemma RemembersNext(run: Run, n: nat, k: Key)
    requires n < |run.events| && RemembersHistory(run, n, k)
    ensures RemembersHistory(run, n + 1, k)
  {
    if ForgottenAt(run, n, k) {
      RemembersWhenForgotten(run, n, k);
    } else if AnsweredAt(run, n, k) {
      RemembersWhenAnswered(run, n, k);
    } else {
      RemembersWhenUnanswered(run, n, k);
    }
  }

  /**
   The anchor's verdict on every probe of every run, with a verify interval or without, is decided by the
   events before it: the list in force, the answers given and sent since the key was last removed, and when
   and from where the pair last begun was begun.
   */
  lemma VerdictByHistory(run: Run, i: nat, k: Key)
    requires run.start.senders == map[] && i < |run.events|
    ensures run.VerdictAt(i, k) == Decision(run, i, k)
  {
    RecordRemembers(run, i, k);
    DecisionFromRecord(run, i, k);
  }

  /**
   Without a verify interval a sender whose pair is complete is answered again and again: every probe of its
   own from the pair's address, and no other, gets the time since the last reply sent to it, unchallenged.
   */
  lemma UnlimitedAnswersOn(run: Run, i: nat, k: Key)
    requires run.start.senders == map[] && run.cfg.verifyInterval <= 0 && i < |run.events|
    requires run.SenderAt(i, k).pairCount >= 2 && Brings(run, i, k)
    ensures var from := run.events[i].from;
            run.VerdictAt(i, k) == if from.Inet4? && from.ip == run.SenderAt(i, k).pairSourceIP
                                   then Answered(false, SinceSent(run, i, k), false) else Dropped
  {
    RecordRemembers(run, i, k);
    VerdictByHistory(run, i, k);
  }

  // What a reply says.

  /** The 64-bit number at `at` in the first offset, or 0 without one. */
  function FromOffset(offsets: seq<Bytes>, at: nat): Uint64
    requires OffsetsOk(offsets) && at + 8 <= 174
  {
    if offsets == [] then 0 else Le64(offsets[0][at..at + 8])
  }

  /** Every field of the reply to event `i`. */
  ghost predicate Says(cfg: Config, offsets: seq<Bytes>, probe: ProbePacket, v: Verdict, r: ReplyPacket)
    requires v.Answered? && OffsetsOk(offsets)
  {
    && r.probe == probe && r.authorityPubkey == cfg.signer.pub && r.geoprobePubkey == cfg.geoprobePubkey
    && r.measurementSlot == FromOffset(offsets, 129) && r.lat == FromOffset(offsets, 137) && r.lng == FromOffset(offsets, 145)
    && r.sinceLastRxNs == v.sinceLastRxNs && r.challenged == v.challenged && r.offsets == offsets
    && r.rttNs == (if v.first then FromOffset(offsets, 161)
                   else (FromOffset(offsets, 161) + v.sinceLastRxNs) % 0x1_0000_0000_0000_0000)
    && r.signature == cfg.signer.sign(ReplyPayload(r))
  }

  /** Where the first offset's numbers lie. */
  lemma InfoByPosition(offsets: seq<Bytes>)
    requires OffsetsOk(offsets) && offsets != []
    ensures var info := ParseOffsetInfo(offsets[0]);
            && info.Some? && info.value.measurementSlot == FromOffset(offsets, 129) && info.value.lat == FromOffset(offsets, 137)
            && info.value.lng == FromOffset(offsets, 145) && info.value.rttNs == FromOffset(offsets, 161)
  {
  }

  lemma DraftSays(cfg: Config, offsets: seq<Bytes>, p: ProbePacket, v: Verdict)
    requires v.Answered? && OffsetsOk(offsets)
    ensures Says(cfg, offsets, p, v, SignReply(Draft(cfg, offsets, p, v), cfg.signer))
  {
    var drafted := Draft(cfg, offsets, p, v);
    if offsets != [] {
      InfoByPosition(offsets);
    }
    SignedOverPayload(drafted, cfg.signer);
  }

  lemma SignedOverPayload(r: ReplyPacket, signer: Signer)
    ensures SignReply(r, signer).signature == signer.sign(ReplyPayload(SignReply(r, signer)))
  {
    assert ReplyPayload(SignReply(r, signer)) == ReplyPayload(r.(authorityPubkey := signer.pub));
  }

  /** The probe that event `i` brings is to be answered, and the offsets in force fit a reply. */
  ghost predicate ToBeAnswered(run: Run, i: nat)
    requires i < |run.events|
  {
    var e := run.events[i];
    e.Receive? && e.probe.Some? && Decision(run, i, e.probe.value.senderPubkey).Answered? && OffsetsOk(OffsetsInForce(run, i))
  }

  lemma DecidedReply(run: Run, i: nat, probe: ProbePacket)
    requires run.start.senders == map[] && i < |run.events| && run.events[i].Receive? && run.events[i].probe == Some(probe)
    ensures var v := Decision(run, i, probe.senderPubkey);
            run.ReplyAt(i) == if v.Answered? && OffsetsOk(OffsetsInForce(run, i))
                              then Some(SignReply(Draft(run.cfg, OffsetsInForce(run, i), probe, v), run.cfg.signer)) else None
  {
    StateHoldsLastOffsets(run, i);
    VerdictByHistory(run, i, probe.senderPubkey);
    ReplyForSender(run.cfg, run.StateAt(i), run.events[i], probe.senderPubkey);
    ReplyIsToProbe(run.cfg, run.StateAt(i), run.events[i]);
  }

  lemma ReplyIsToProbe(cfg: Config, s: State, e: Event)
    ensures Reply(cfg, s, e).Some? ==> e.Receive? && e.probe == Some(Reply(cfg, s, e).value.probe)
  {
  }

  /**
   The anchor's reply to every event of every run: there is one exactly when a probe is to be answered and the
   offsets last put in force fit a reply, and every field of it is known from the events.
   */
  lemma ReplyByHistory(run: Run, i: nat)
    requires run.start.senders == map[] && i < |run.events|
    ensures run.ReplyAt(i).Some? <==> ToBeAnswered(run, i)
    ensures run.ReplyAt(i).Some? ==>
              var probe := run.events[i].probe.value;
              Says(run.cfg, OffsetsInForce(run, i), probe, Decision(run, i, probe.senderPubkey), run.ReplyAt(i).value)
  {
    var e := run.events[i];
    ReplyIsToProbe(run.cfg, run.StateAt(i), e);
    if e.Receive? && e.probe.Some? {
      var v := Decision(run, i, e.probe.value.senderPubkey);
      DecidedReply(run, i, e.probe.value);
      if v.Answered? && OffsetsOk(OffsetsInForce(run, i)) {
        DraftSays(run.cfg, OffsetsInForce(run, i), e.probe.value, v);
      }
    }
  }
}
