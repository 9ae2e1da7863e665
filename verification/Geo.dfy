/** Round-trip times as distances, over the reals. */
module Geo {
  import opened ByteCodec
  import opened Reflector

  /** The speed of light in vacuum, in metres per second. */
  const C_VACUUM_MPS: real := 299_792_458.0

  const NANOS: real := 1_000_000_000.0

  function ProvableMaxDistance(rtt: Duration): real {
    if rtt <= 0 then 0.0 else rtt as real / NANOS / 2.0 * C_VACUUM_MPS
  }

  /** An unsigned 64-bit count converted to a signed duration. */
  function AsDuration(x: Uint64): Duration {
    if x <= MAX_DURATION then x else x - TWO_TO_THE_64
  }

  /** It undoes the conversion of a duration to a count. */
  lemma DurationOfCount(d: Duration)
    ensures AsDuration(AsUint64(d)) == d
  {
  }

  /** The bound grows with the round trip, so a longer one never excludes more. */
  lemma BoundIsMonotone(a: Duration, b: Duration)
    requires a <= b
    ensures ProvableMaxDistance(a) <= ProvableMaxDistance(b)
  {
  }

  /** Nothing within the bound is excluded, and nothing beyond it is not, by light travelling both ways. */
  lemma BoundIsTwoWayLight(rtt: Duration, d: real)
    requires rtt >= 0
    ensures d <= ProvableMaxDistance(rtt) <==> 2.0 * d * 1_000_000_000.0 <= rtt as real * 299_792_458.0
  {
  }

  /** A measurement that did not go stale bounds the distance by 2.5 light-seconds. */
  lemma FreshMeasurementBound(rtt: Duration)
    requires rtt <= STALE_PAIR_TIMEOUT
    ensures ProvableMaxDistance(rtt) <= 749_481_145.0
  {
    BoundIsMonotone(rtt, STALE_PAIR_TIMEOUT);
  }

  /**
   An interval added to an RTT already accumulated, modulo 2^64, still bounds what the interval bounds if and
   only if it is zero or the sum fits a signed duration.
   */
  lemma SumKeepsBoundIff(base: Uint64, interval: Uint64)
    requires interval <= MAX_DURATION
    ensures ProvableMaxDistance(AsDuration((base + interval) % TWO_TO_THE_64)) >= ProvableMaxDistance(AsDuration(interval))
       <==> interval == 0 || base + interval <= MAX_DURATION
  {
    var sum := (base + interval) % TWO_TO_THE_64;
    if interval > 0 {
      if base + interval <= MAX_DURATION {
        BoundIsMonotone(interval, sum);
      } else if base + interval < TWO_TO_THE_64 {
        assert sum == base + interval;
        PositiveBound(interval);
      } else {
        assert sum == base + interval - TWO_TO_THE_64;
        BoundGrows(sum, interval);
      }
    }
  }

  lemma PositiveBound(rtt: Duration)
    requires rtt > 0
    ensures ProvableMaxDistance(rtt) > 0.0
  {
  }

  lemma BoundGrows(a: Duration, b: Duration)
    requires 0 <= a < b
    ensures ProvableMaxDistance(a) < ProvableMaxDistance(b)
  {
  }
}
