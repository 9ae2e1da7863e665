/** How often one sender can be answered, over runs of any length. */
module RateLimit {
  import opened Wrappers
  import opened ByteCodec
  import opened Packet
  import opened Reflector
  import opened Runs
  import opened Automaton

  predicate InOrder(run: Run, k: Key, a: nat, b: nat)
    requires a <= b < |run.events|
  {
    run.ProbedAt(a, k) && run.ProbedAt(b, k) ==> run.events[a].now <= run.events[b].now
  }

  /** Probes of `k` are received in order of their timestamps. */
  ghost predicate Monotone(run: Run, k: Key) {
    forall a, b {:trigger InOrder(run, k, a, b)} | 0 <= a <= b < |run.events| :: InOrder(run, k, a, b)
  }

  predicate KeptAt(run: Run, k: Key, m: nat)
    requires m < |run.events|
  {
    !Removes(run.StateAt(m), run.events[m], k)
  }

  /** From event `lo` on, no reload takes `k` off the allowlist. */
  ghost predicate StaysAuthorized(run: Run, k: Key, lo: nat) {
    forall m {:trigger KeptAt(run, k, m)} | lo <= m < |run.events| :: KeptAt(run, k, m)
  }

  /**
   No pair of `k` can begin before `due`.  A pair that is under way began at or after it,
   or, when `waiting`, cannot end its window or go stale before it.
   */
  ghost predicate NotBefore(run: Run, n: nat, k: Key, due: Time, waiting: bool)
    requires n <= |run.events|
  {
    var st, interval := run.SenderAt(n, k), run.cfg.verifyInterval;
    && (st.pairCount == 2 ==> due <= st.pairStart + interval)
    && (st.pairCount == 1 ==>
          || due <= st.pairStart
          || (waiting && due <= st.pairStart + interval
              && st.lastTxTime.Some? && due <= st.lastTxTime.value + STALE_PAIR_TIMEOUT + 1))
    && (st.pairCount == 0 ==> exists m | 0 <= m < n :: run.ProbedAt(m, k) && due <= run.events[m].now)
  }

  /** While that holds, a probe that finds the record expired arrives at or after `due`. */
  lemma ExpiresWhenDue(run: Run, n: nat, k: Key, due: Time, waiting: bool)
    requires run.start.senders == map[] && n < |run.events| && run.cfg.verifyInterval > 0
    requires Monotone(run, k) && NotBefore(run, n, k, due, waiting)
    requires run.ProbedAt(n, k) && !RateLimited(run.cfg.verifyInterval, run.SenderAt(n, k), run.events[n].now)
    requires Expire(run.cfg.verifyInterval, run.SenderAt(n, k), run.events[n].now).pairCount == 0
    ensures due <= run.events[n].now
  {
    var st := run.SenderAt(n, k);
    SendersStayOk(run, n, k);
    PairRemembersIssue(run, n, k);
    if st.pairCount == 1 && due <= st.pairStart {
      assert InOrder(run, k, run.LastIssue(n, k), n);
    } else if st.pairCount == 0 {
      var m :| 0 <= m < n && run.ProbedAt(m, k) && due <= run.events[m].now;
      assert InOrder(run, k, m, n);
    }
  }

  lemma {:induction false} NotBeforeHolds(run: Run, lo: nat, n: nat, k: Key, due: Time, waiting: bool)
    requires run.start.senders == map[] && lo <= n <= |run.events| && run.cfg.verifyInterval > 0
    requires Monotone(run, k) && StaysAuthorized(run, k, lo)
    requires NotBefore(run, lo, k, due, waiting)
    ensures NotBefore(run, n, k, due, waiting)
    decreases n
  {
    if lo < n {
      NotBeforeHolds(run, lo, n - 1, k, due, waiting);
      assert KeptAt(run, k, n - 1);
      NotBeforeStep(run, n - 1, k, due, waiting);
    }
  }

  lemma NotBeforeStep(run: Run, n: nat, k: Key, due: Time, waiting: bool)
    requires run.start.senders == map[] && n < |run.events| && run.cfg.verifyInterval > 0
    requires Monotone(run, k) && KeptAt(run, k, n)
    requires NotBefore(run, n, k, due, waiting)
    ensures NotBefore(run, n + 1, k, due, waiting)
  {
    var st, e := run.SenderAt(n, k), run.events[n];
    StepForSender(run.cfg, run.StateAt(n), e, k);
    SendersStayOk(run, n, k);
    if run.ProbedAt(n, k) && !RateLimited(run.cfg.verifyInterval, st, e.now)
       && Expire(run.cfg.verifyInterval, st, e.now).pairCount == 0 {
      ExpiresWhenDue(run, n, k, due, waiting);
    }
  }

  // Completed pairs.

  /** Event `i` answers the second probe of a pair of `k`. */
  predicate CompletedAt(run: Run, i: nat, k: Key)
    requires i < |run.events|
  {
    run.VerdictAt(i, k).Answered? && !run.VerdictAt(i, k).first
  }

  /** With a rate limit every answer that is not a first one completes the pair last begun. */
  lemma CompletesThePairBegun(run: Run, i: nat, k: Key)
    requires run.start.senders == map[] && i < |run.events| && run.cfg.verifyInterval > 0 && CompletedAt(run, i, k)
    ensures run.LastIssue(i, k) >= 0
    ensures run.SenderAt(i, k).pairCount == 1 && run.SenderAt(i, k).pairStart == run.events[run.LastIssue(i, k)].now
    ensures run.SenderAt(i + 1, k).pairCount == 2 && run.SenderAt(i + 1, k).pairStart == run.SenderAt(i, k).pairStart
  {
    SendersStayOk(run, i, k);
    PairRemembersIssue(run, i, k);
    StepForSender(run.cfg, run.StateAt(i), run.events[i], k);
  }

  /** When the pair completed at `i` began: the receipt of its first probe. */
  function PairStart(run: Run, i: nat, k: Key): Time
    requires i < |run.events| && run.LastIssue(i, k) >= 0
  {
    run.events[run.LastIssue(i, k)].now
  }

  /** Any two completed pairs of a sender begin at least the verify interval apart. */
  lemma CompletedPairsAreSpaced(run: Run, i1: nat, i2: nat, k: Key)
    requires run.start.senders == map[] && run.cfg.verifyInterval > 0 && i1 < i2 < |run.events|
    requires CompletedAt(run, i1, k) && CompletedAt(run, i2, k)
    requires Monotone(run, k) && StaysAuthorized(run, k, i1)
    ensures run.LastIssue(i1, k) >= 0 && run.LastIssue(i2, k) >= 0
    ensures PairStart(run, i2, k) >= PairStart(run, i1, k) + run.cfg.verifyInterval
  {
    CompletesThePairBegun(run, i1, k);
    CompletesThePairBegun(run, i2, k);
    assert KeptAt(run, k, i1);
    var due := PairStart(run, i1, k) + run.cfg.verifyInterval;
    NotBeforeHolds(run, i1 + 1, i2, k, due, false);
  }

  /** Completions of `k` in order, all of pairs that began within `[from, from + width)`. */
  ghost predicate CompletionsIn(run: Run, k: Key, c: seq<nat>, from: Time, width: nat)
    requires run.start.senders == map[] && run.cfg.verifyInterval > 0
  {
    && (forall x, y | 0 <= x < y < |c| :: c[x] < c[y])
    && (forall x | 0 <= x < |c| :: c[x] < |run.events| && CompletedAt(run, c[x], k))
    && (forall x | 0 <= x < |c| :: run.LastIssue(c[x], k) >= 0 && from <= PairStart(run, c[x], k) < from + width)
  }

  lemma FitsBelow(gaps: nat, interval: nat, width: nat)
    requires interval > 0 && gaps * interval < width
    ensures gaps + 1 <= (width + interval - 1) / interval
  {
    var q, r := (width + interval - 1) / interval, (width + interval - 1) % interval;
    assert width + interval - 1 == q * interval + r;
    assert (gaps + 1) * interval == gaps * interval + interval;
    assert (q + 1) * interval == q * interval + interval;
    LessFactor(gaps + 1, q + 1, interval);
  }

  lemma {:induction false} LessFactor(a: nat, b: nat, d: nat)
    requires a * d < b * d
    ensures a < b
  {
    if a > 0 && b > 0 {
      assert a * d == (a - 1) * d + d && b * d == (b - 1) * d + d;
      LessFactor(a - 1, b - 1, d);
    }
  }

  lemma AdjacentCompletions(run: Run, k: Key, c: seq<nat>, from: Time, width: nat, x: nat)
    requires run.start.senders == map[] && run.cfg.verifyInterval > 0 && 0 < x < |c|
    requires CompletionsIn(run, k, c, from, width)
    requires Monotone(run, k) && StaysAuthorized(run, k, c[0])
    ensures PairStart(run, c[x], k) >= PairStart(run, c[x - 1], k) + run.cfg.verifyInterval
  {
    assert c[0] <= c[x - 1] < c[x];
    CompletedPairsAreSpaced(run, c[x - 1], c[x], k);
  }

  /** A window of width W holds at most ceil(W / interval) starts of completed pairs. */
  lemma CompletedPairsPerWindow(run: Run, k: Key, c: seq<nat>, from: Time, width: nat)
    requires run.start.senders == map[] && run.cfg.verifyInterval > 0 && c != []
    requires CompletionsIn(run, k, c, from, width)
    requires Monotone(run, k) && StaysAuthorized(run, k, c[0])
    ensures |c| <= (width + run.cfg.verifyInterval - 1) / run.cfg.verifyInterval
  {
    var last := |c| - 1;
    GapsAddUp(run, k, c, from, width, last, last * run.cfg.verifyInterval);
    CompletionBegins(run, k, c, from, width, last);
    CompletionBegins(run, k, c, from, width, 0);
    FitsBelow(last, run.cfg.verifyInterval, width);
  }

  lemma CompletionBegins(run: Run, k: Key, c: seq<nat>, from: Time, width: nat, x: nat)
    requires run.start.senders == map[] && run.cfg.verifyInterval > 0 && x < |c|
    requires CompletionsIn(run, k, c, from, width)
    ensures c[x] < |run.events| && run.LastIssue(c[x], k) >= 0 && from <= PairStart(run, c[x], k) < from + width
  {
  }

  lemma OneMoreInterval(x: nat, interval: nat)
    requires x > 0
    ensures x * interval == (x - 1) * interval + interval
  {
  }

  lemma {:induction false} GapsAddUp(run: Run, k: Key, c: seq<nat>, from: Time, width: nat, x: nat, span: int)
    requires run.start.senders == map[] && run.cfg.verifyInterval > 0 && x < |c| && span == x * run.cfg.verifyInterval
    requires CompletionsIn(run, k, c, from, width)
    requires Monotone(run, k) && StaysAuthorized(run, k, c[0])
    ensures PairStart(run, c[x], k) >= PairStart(run, c[0], k) + span
  {
    if x > 0 {
      OneMoreInterval(x, run.cfg.verifyInterval);
      GapsAddUp(run, k, c, from, width, x - 1, span - run.cfg.verifyInterval);
      AdjacentCompletions(run, k, c, from, width, x);
    }
  }

  // First replies.

  /** How long a sender that was issued a nonce must wait for the next: its window, or until its pair is stale. */
  function Gap(interval: Duration): int {
    if interval <= STALE_PAIR_TIMEOUT then interval else STALE_PAIR_TIMEOUT + 1
  }

  lemma IssueSetsDue(run: Run, j: nat, k: Key)
    requires run.cfg.verifyInterval > 0 && j < |run.events| && run.IssuedAt(j, k)
    requires OffsetsOk(run.StateAt(j).offsets) && run.events[j].now <= run.events[j].tx
    ensures NotBefore(run, j + 1, k, run.events[j].now + Gap(run.cfg.verifyInterval), true)
  {
    StepForSender(run.cfg, run.StateAt(j), run.events[j], k);
  }

  /**
   After a Reply 0 that went out no earlier than its probe came in, the next nonce of that sender is issued
   at least min(interval, 5 s + 1 ns) after the first probe's receipt, completed pair or not.
   */
  lemma IssuesAreSpaced(run: Run, j1: nat, j2: nat, k: Key)
    requires run.start.senders == map[] && run.cfg.verifyInterval > 0 && j1 < j2 < |run.events|
    requires run.IssuedAt(j1, k) && run.IssuedAt(j2, k)
    requires OffsetsOk(run.StateAt(j1).offsets) && run.events[j1].now <= run.events[j1].tx
    requires Monotone(run, k) && StaysAuthorized(run, k, j1)
    ensures run.events[j2].now >= run.events[j1].now + Gap(run.cfg.verifyInterval)
  {
    var due := run.events[j1].now + Gap(run.cfg.verifyInterval);
    IssueSetsDue(run, j1, k);
    NotBeforeHolds(run, j1 + 1, j2, k, due, true);
    ExpiresWhenDue(run, j2, k, due, true);
  }

  // All replies.

  /** What the rate limit relies on: ordered receipts, no reply timed before its probe, no reload, fitting offsets. */
  ghost predicate Orderly(run: Run, k: Key) {
    && run.start.senders == map[] && OffsetsAlwaysOk(run)
    && Monotone(run, k) && StaysAuthorized(run, k, 0)
    && forall i | 0 <= i < |run.events| && run.events[i].Receive? :: run.events[i].now <= run.events[i].tx
  }

  /** Two answers follow the one at `j` within its window. */
  predicate Exceeds(run: Run, j: nat, i1: nat, i2: nat, k: Key)
    requires j < i1 < i2 < |run.events|
  {
    && run.IssuedAt(j, k) && run.VerdictAt(i1, k).Answered? && run.VerdictAt(i2, k).Answered?
    && run.events[i2].Receive? && run.events[i2].now < run.events[j].now + run.cfg.verifyInterval
  }

  /** From the first probe of a pair to the end of its window, no more than two probes are answered. */
  ghost predicate TwoPerWindow(run: Run, k: Key) {
    forall j, i1, i2 {:trigger Exceeds(run, j, i1, i2, k)} | 0 <= j < i1 < i2 < |run.events| :: !Exceeds(run, j, i1, i2, k)
  }

  lemma {:induction false} LastIssueIsLast(run: Run, n: nat, j: nat, k: Key)
    requires j < n <= |run.events| && run.IssuedAt(j, k)
    ensures run.LastIssue(n, k) >= j
    decreases n
  {
    if j < n - 1 {
      LastIssueIsLast(run, n - 1, j, k);
    }
  }

  /** With a short enough window, the second answer after the one at `j` comes when the window is over. */
  lemma ShortWindowsHold(run: Run, j: nat, i1: nat, i2: nat, k: Key)
    requires Orderly(run, k) && 0 < run.cfg.verifyInterval <= STALE_PAIR_TIMEOUT + 1
    requires j < i1 < i2 < |run.events| && run.IssuedAt(j, k)
    requires run.VerdictAt(i1, k).Answered? && run.VerdictAt(i2, k).Answered?
    ensures run.events[i2].now >= run.events[j].now + run.cfg.verifyInterval
  {
    var m := IssueUpTo(run, i2 + 1, j, k);
    AnotherIssueBetween(run, j, i1, i2, m, k);
    AnswerAfterIssues(run, j, m, i2, k);
  }

  /** An answer at or after a later issue comes after the window. */
  lemma AnswerAfterIssues(run: Run, j: nat, m: nat, i: nat, k: Key)
    requires Orderly(run, k) && 0 < run.cfg.verifyInterval <= STALE_PAIR_TIMEOUT + 1
    requires j < m <= i < |run.events| && run.IssuedAt(j, k) && run.IssuedAt(m, k) && run.VerdictAt(i, k).Answered?
    ensures run.events[i].now >= run.events[j].now + run.cfg.verifyInterval
  {
    OffsetsStayOk(run, j);
    IssuesAreSpaced(run, j, m, k);
    assert InOrder(run, k, m, i);
  }

  lemma IssueUpTo(run: Run, n: nat, j: nat, k: Key) returns (m: nat)
    requires j < n <= |run.events| && run.IssuedAt(j, k)
    ensures m == run.LastIssue(n, k) && j <= m < n && run.IssuedAt(m, k)
  {
    LastIssueIsLast(run, n, j, k);
    m := run.LastIssue(n, k);
  }

  /** Of two answers after an issue the second needs another issue. */
  lemma AnotherIssueBetween(run: Run, j: nat, i1: nat, i2: nat, m: nat, k: Key)
    requires run.start.senders == map[] && run.cfg.verifyInterval > 0 && j < i1 < i2 < |run.events| && run.IssuedAt(j, k)
    requires run.VerdictAt(i1, k).Answered? && run.VerdictAt(i2, k).Answered? && m == run.LastIssue(i2 + 1, k)
    ensures m != j
  {
    if !run.VerdictAt(i2, k).first {
      CompletesThePairBegun(run, i2, k);
      PairRemembersIssue(run, i2, k);
      assert run.UnansweredBetween(run.LastIssue(i2, k), i2, k);
    }
  }

  /** Three probes of `k` from one address: the second arrives when the first's pair has just gone stale. */
  function LateSecondProbe(cfg: Config, k: Key): Run {
    var probe, from, late := Some(ProbePacket(0, 0, 0, k, Zeros(64))), Inet4(Zeros(4), 0), STALE_PAIR_TIMEOUT + 1;
    Run(cfg, State({k}, map[], []),
        [Receive(probe, from, 0, 0, 1), Receive(probe, from, late, late, 2), Receive(probe, from, late, late, 3)])
  }

  lemma LongWindowsExceed(cfg: Config, k: Key)
    requires cfg.verifyInterval > STALE_PAIR_TIMEOUT + 1
    ensures var run := LateSecondProbe(cfg, k); Orderly(run, k) && Exceeds(run, 0, 1, 2, k)
  {
    var run := LateSecondProbe(cfg, k);
    assert run.SenderAt(0, k) == EmptySender();
    StepForSender(cfg, run.StateAt(0), run.events[0], k);
    assert run.SenderAt(1, k) == SenderState(Some(0), 1, 0, Zeros(4), 1);
    StepForSender(cfg, run.StateAt(1), run.events[1], k);
    assert run.SenderAt(2, k) == SenderState(Some(STALE_PAIR_TIMEOUT + 1), 1, STALE_PAIR_TIMEOUT + 1, Zeros(4), 2);
    forall a, b | 0 <= a <= b < |run.events|
      ensures InOrder(run, k, a, b)
    {
    }
    forall m | 0 <= m < |run.events|
      ensures KeptAt(run, k, m)
    {
    }
  }

  /**
   The documented limit of two probes per window holds of every orderly run exactly when the window is no
   longer than the stale-pair timeout and a nanosecond: with a longer one, a probe that finds its pair stale
   begins a new pair inside the window of the old.
   */
  lemma TwoPerWindowIff(cfg: Config, k: Key)
    requires cfg.verifyInterval > 0
    ensures cfg.verifyInterval <= 5_000_000_001
       <==> forall run: Run | run.cfg == cfg && Orderly(run, k) :: TwoPerWindow(run, k)
  {
    if cfg.verifyInterval <= STALE_PAIR_TIMEOUT + 1 {
      forall run: Run | run.cfg == cfg && Orderly(run, k)
        ensures TwoPerWindow(run, k)
      {
        forall j: int, i1: int, i2: int | 0 <= j < i1 < i2 < |run.events|
          ensures !Exceeds(run, j, i1, i2, k)
        {
          if Exceeds(run, j, i1, i2, k) {
            ShortWindowsHold(run, j, i1, i2, k);
          }
        }
      }
    } else {
      LongWindowsExceed(cfg, k);
      assert !TwoPerWindow(LateSecondProbe(cfg, k), k);
    }
  }
}
