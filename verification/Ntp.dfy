/** NTP timestamps (section 6 of RFC 5905) as probes carry them. */
module Ntp {
  import opened ByteCodec

  const NTP_EPOCH_OFFSET: int := 2208988800
  const NANOS_PER_SECOND: int := 1_000_000_000

  /** Seconds and binary fraction of a time given in Unix nanoseconds. */
  function NtpTimestamp(unixNs: int): (Uint32, Uint32) {
    var nanos := unixNs % NANOS_PER_SECOND;
    FractionFits(nanos);
    ((unixNs / NANOS_PER_SECOND + NTP_EPOCH_OFFSET) % TWO_TO_THE_32, nanos * TWO_TO_THE_32 / NANOS_PER_SECOND)
  }

  /** The 64-bit product does not overflow and the fraction fits 32 bits. */
  lemma FractionFits(nanos: int)
    requires 0 <= nanos < NANOS_PER_SECOND
    ensures nanos * TWO_TO_THE_32 < TWO_TO_THE_64
    ensures 0 <= nanos * TWO_TO_THE_32 / NANOS_PER_SECOND < TWO_TO_THE_32
  {
  }

  /** The exact nanosecond is recoverable from the fraction, by rounding up. */
  lemma NanosecondRecoverable(unixNs: int)
    ensures unixNs % NANOS_PER_SECOND
         == (NtpTimestamp(unixNs).1 * NANOS_PER_SECOND + TWO_TO_THE_32 - 1) / TWO_TO_THE_32
  {
    var nanos, frac := unixNs % NANOS_PER_SECOND, NtpTimestamp(unixNs).1;
    FractionFits(nanos);
    assert frac * NANOS_PER_SECOND <= nanos * TWO_TO_THE_32 < (frac + 1) * NANOS_PER_SECOND;
  }

  /** The NTP era of a time: which 2^32-second span it lies in. */
  function Era(unixNs: int): int {
    (unixNs / NANOS_PER_SECOND + NTP_EPOCH_OFFSET) / TWO_TO_THE_32
  }

  ghost predicate Earlier(a: (Uint32, Uint32), b: (Uint32, Uint32)) {
    a.0 < b.0 || (a.0 == b.0 && a.1 < b.1)
  }

  /** Within one era timestamps are ordered as the times are. */
  lemma TimestampsOrdered(s: int, t: int)
    requires Era(s) == Era(t)
    ensures s < t <==> Earlier(NtpTimestamp(s), NtpTimestamp(t))
  {
    if s < t {
      LaterIsLater(s, t);
    } else if t < s {
      LaterIsLater(t, s);
    }
  }

  lemma LaterIsLater(s: int, t: int)
    requires Era(s) == Era(t) && s < t
    ensures Earlier(NtpTimestamp(s), NtpTimestamp(t))
  {
    var a, b := s / NANOS_PER_SECOND, t / NANOS_PER_SECOND;
    if a == b {
      var m, n := s % NANOS_PER_SECOND, t % NANOS_PER_SECOND;
      assert m + 1 <= n;
      FractionStrict(m, n);
    } else {
      assert a < b;
    }
  }

  lemma FractionStrict(m: int, n: int)
    requires 0 <= m < n < NANOS_PER_SECOND
    ensures m * TWO_TO_THE_32 / NANOS_PER_SECOND < n * TWO_TO_THE_32 / NANOS_PER_SECOND
  {
    var x, y := m * TWO_TO_THE_32, n * TWO_TO_THE_32;
    assert x + NANOS_PER_SECOND <= y;
  }

  /** Unix time zero is 2208988800 seconds into the first era. */
  lemma UnixEpoch()
    ensures NtpTimestamp(0) == (2208988800, 0)
  {
  }

  /** The seconds count up by one a second, modulo 2^32, and the fraction comes round again. */
  lemma SecondsTick(unixNs: int, seconds: int)
    ensures NtpTimestamp(unixNs + seconds * NANOS_PER_SECOND).0 == (NtpTimestamp(unixNs).0 + seconds) % 0x1_0000_0000
    ensures NtpTimestamp(unixNs + seconds * NANOS_PER_SECOND).1 == NtpTimestamp(unixNs).1
  {
    var later := unixNs + seconds * NANOS_PER_SECOND;
    var whole, nanos := unixNs / NANOS_PER_SECOND, unixNs % NANOS_PER_SECOND;
    WholeSeconds(later, whole + seconds, nanos);
    WrapAfter(whole + NTP_EPOCH_OFFSET, seconds);
  }

  lemma WholeSeconds(unixNs: int, whole: int, nanos: int)
    requires unixNs == whole * NANOS_PER_SECOND + nanos && 0 <= nanos < NANOS_PER_SECOND
    ensures unixNs / NANOS_PER_SECOND == whole && unixNs % NANOS_PER_SECOND == nanos
  {
  }

  lemma WrapAfter(a: int, b: int)
    ensures (a + b) % TWO_TO_THE_32 == (a % TWO_TO_THE_32 + b) % TWO_TO_THE_32
  {
  }
}
