/**
 Fixed-width unsigned integers and their big- and little-endian encodings, as
 the wire formats use them.  Machine integers are subset types of `int`, so
 every wrap-around in the modelled code is written out.
 */
module ByteCodec {

  type Byte = x: int | 0 <= x < 0x100
  type Uint32 = x: int | 0 <= x < 0x1_0000_0000
  type Uint64 = x: int | 0 <= x < 0x1_0000_0000_0000_0000

  type Bytes = seq<Byte>
  type Bytes4 = s: seq<Byte> | |s| == 4 witness seq(4, _ => 0)
  type Key = s: seq<Byte> | |s| == 32 witness seq(32, _ => 0)
  type Signature = s: seq<Byte> | |s| == 64 witness seq(64, _ => 0)

  const TWO_TO_THE_32: int := 0x1_0000_0000
  const TWO_TO_THE_64: int := 0x1_0000_0000_0000_0000

  function Pow256(n: nat): (p: nat)
    ensures p > 0
  {
    if n == 0 then 1 else 256 * Pow256(n - 1)
  }

  lemma PowersOf256()
    ensures Pow256(4) == TWO_TO_THE_32
    ensures Pow256(8) == TWO_TO_THE_64
  {
    assert Pow256(2) == 0x1_0000;
    assert Pow256(4) == 0x1_0000 * 0x1_0000;
    assert Pow256(6) == 0x1_0000 * TWO_TO_THE_32;
  }

  // Little-endian, least significant byte first.

  /** The bytes that overwrite `into` when `x` is put there. */
  function ToLe(into: Bytes, x: nat): (s: Bytes)
    ensures |s| == |into|
  {
    if into == [] then [] else [x % 256] + ToLe(into[1..], x / 256)
  }

  function FromLe(s: Bytes): nat {
    if s == [] then 0 else s[0] + 256 * FromLe(s[1..])
  }

  lemma {:induction false} LeRoundTrip(into: Bytes, x: nat)
    requires x < Pow256(|into|)
    ensures FromLe(ToLe(into, x)) == x
  {
    if into != [] {
      LeRoundTrip(into[1..], x / 256);
      assert ToLe(into, x)[1..] == ToLe(into[1..], x / 256);
    }
  }

  lemma {:induction false} LeRoundTripBack(into: Bytes, s: Bytes)
    requires |into| == |s|
    ensures FromLe(s) < Pow256(|s|)
    ensures ToLe(into, FromLe(s)) == s
  {
    if s != [] {
      LeRoundTripBack(into[1..], s[1..]);
      assert FromLe(s) / 256 == FromLe(s[1..]);
      assert s == [s[0]] + s[1..];
    }
  }

  // Big-endian, most significant byte first.

  function ToBe(into: Bytes, x: nat): (s: Bytes)
    ensures |s| == |into|
  {
    if into == [] then [] else ToBe(into[1..], x / 256) + [x % 256]
  }

  function FromBe(s: Bytes): nat {
    if s == [] then 0 else 256 * FromBe(s[..|s| - 1]) + s[|s| - 1]
  }

  lemma {:induction false} BeRoundTrip(into: Bytes, x: nat)
    requires x < Pow256(|into|)
    ensures FromBe(ToBe(into, x)) == x
  {
    if into != [] {
      BeRoundTrip(into[1..], x / 256);
      assert ToBe(into, x)[..|into| - 1] == ToBe(into[1..], x / 256);
    }
  }

  lemma {:induction false} BeRoundTripBack(into: Bytes, s: Bytes)
    requires |into| == |s|
    ensures FromBe(s) < Pow256(|s|)
    ensures ToBe(into, FromBe(s)) == s
  {
    if s != [] {
      BeRoundTripBack(into[1..], s[..|s| - 1]);
      assert FromBe(s) / 256 == FromBe(s[..|s| - 1]);
      assert s == s[..|s| - 1] + [s[|s| - 1]];
    }
  }

  // Which byte is where.

  /** `s` spells `x` least significant byte first. */
  ghost predicate IsLe(s: Bytes, x: nat) {
    forall i | 0 <= i < |s| :: s[i] == x / Pow256(i) % 256
  }

  /** `s` spells `x` most significant byte first. */
  ghost predicate IsBe(s: Bytes, x: nat) {
    forall i | 0 <= i < |s| :: s[i] == x / Pow256(|s| - 1 - i) % 256
  }

  lemma MultipleIsMore(k: nat, d: nat)
    ensures k > 0 ==> k * d >= d
  {
    if k > 0 {
      assert k * d == (k - 1) * d + d;
    }
  }

  lemma QuotientIs(x: nat, d: nat, q: nat, r: nat)
    requires r < d && x == q * d + r
    ensures x / d == q
  {
    var p, m := x / d, x % d;
    assert x == p * d + m;
    assert (p - q) * d == p * d - q * d && (q - p) * d == q * d - p * d;
    MultipleIsMore(if p > q then p - q else 0, d);
    MultipleIsMore(if q > p then q - p else 0, d);
  }

  lemma DivideTwice(x: nat, d: nat)
    requires d > 0
    ensures x / 256 / d == x / (256 * d)
  {
    var y := x / 256;
    var q, r := y / d, y % d;
    assert y == q * d + r;
    assert q * (256 * d) == 256 * (q * d);
    QuotientIs(x, 256 * d, q, 256 * r + x % 256);
  }

  lemma {:induction false} ToLeIsLe(into: Bytes, x: nat)
    ensures IsLe(ToLe(into, x), x)
  {
    if into != [] {
      var s := ToLe(into, x);
      ToLeIsLe(into[1..], x / 256);
      forall i | 0 <= i < |s|
        ensures s[i] == x / Pow256(i) % 256
      {
        if i > 0 {
          DivideTwice(x, Pow256(i - 1));
          assert s[i] == ToLe(into[1..], x / 256)[i - 1];
        }
      }
    }
  }

  lemma {:induction false} ToBeIsBe(into: Bytes, x: nat)
    ensures IsBe(ToBe(into, x), x)
  {
    if into != [] {
      var s, n := ToBe(into, x), |into| - 1;
      ToBeIsBe(into[1..], x / 256);
      forall i | 0 <= i < |s|
        ensures s[i] == x / Pow256(n - i) % 256
      {
        if i < n {
          DivideTwice(x, Pow256(n - 1 - i));
          assert s[i] == ToBe(into[1..], x / 256)[i];
        }
      }
    }
  }

  /** Writing puts byte `i` of the number at position `i`, and reading finds the number whose bytes those are. */
  lemma LittleEndianIff(s: Bytes, x: nat)
    requires x < Pow256(|s|)
    ensures ToLe(s, x) == s <==> IsLe(s, x)
    ensures FromLe(s) == x <==> IsLe(s, x)
  {
    LeRoundTrip(s, x);
    LeRoundTripBack(s, s);
    ToLeIsLe(s, x);
  }

  /** The same from the other end. */
  lemma BigEndianIff(s: Bytes, x: nat)
    requires x < Pow256(|s|)
    ensures ToBe(s, x) == s <==> IsBe(s, x)
    ensures FromBe(s) == x <==> IsBe(s, x)
  {
    BeRoundTrip(s, x);
    BeRoundTripBack(s, s);
    ToBeIsBe(s, x);
  }

  /** Leading with one more byte adds it at the top. */
  lemma {:induction false} FromBeOfCons(b: Byte, rest: Bytes)
    ensures FromBe([b] + rest) == b * Pow256(|rest|) + FromBe(rest)
  {
    var s := [b] + rest;
    if rest == [] {
      assert s[..0] == [];
    } else {
      var n := |rest| - 1;
      assert s[..|s| - 1] == [b] + rest[..n];
      FromBeOfCons(b, rest[..n]);
      assert 256 * (b * Pow256(n)) == b * Pow256(n + 1);
    }
  }

  /** Ending with one more byte adds it at the top. */
  lemma {:induction false} FromLeOfAppend(s: Bytes, b: Byte)
    ensures FromLe(s + [b]) == FromLe(s) + b * Pow256(|s|)
  {
    if s != [] {
      assert (s + [b])[1..] == s[1..] + [b];
      FromLeOfAppend(s[1..], b);
      assert 256 * (b * Pow256(|s| - 1)) == b * Pow256(|s|);
    }
  }

  // The three widths in use.

  /** A freshly made buffer. */
  function Zeros(n: nat): (s: Bytes)
    ensures |s| == n
  {
    seq(n, _ => 0)
  }

  function PutLe64(x: Uint64): (s: Bytes)
    ensures |s| == 8
  {
    ToLe(Zeros(8), x)
  }

  function Le64(s: Bytes): Uint64
    requires |s| == 8
  {
    LeRoundTripBack(Zeros(8), s);
    PowersOf256();
    FromLe(s)
  }

  lemma Le64RoundTrip(x: Uint64)
    ensures Le64(PutLe64(x)) == x
  {
    PowersOf256();
    LeRoundTrip(Zeros(8), x);
  }

  lemma Le64RoundTripBack(s: Bytes)
    requires |s| == 8
    ensures PutLe64(Le64(s)) == s
  {
    LeRoundTripBack(Zeros(8), s);
  }

  function PutBe64(x: Uint64): (s: Bytes)
    ensures |s| == 8
  {
    ToBe(Zeros(8), x)
  }

  function Be64(s: Bytes): Uint64
    requires |s| == 8
  {
    BeRoundTripBack(Zeros(8), s);
    PowersOf256();
    FromBe(s)
  }

  lemma Be64RoundTrip(x: Uint64)
    ensures Be64(PutBe64(x)) == x
  {
    PowersOf256();
    BeRoundTrip(Zeros(8), x);
  }

  lemma Be64RoundTripBack(s: Bytes)
    requires |s| == 8
    ensures PutBe64(Be64(s)) == s
  {
    BeRoundTripBack(Zeros(8), s);
  }

  function PutBe32(x: Uint32): (s: Bytes)
    ensures |s| == 4
  {
    ToBe(Zeros(4), x)
  }

  function Be32(s: Bytes): Uint32
    requires |s| == 4
  {
    BeRoundTripBack(Zeros(4), s);
    PowersOf256();
    FromBe(s)
  }

  lemma Be32RoundTrip(x: Uint32)
    ensures Be32(PutBe32(x)) == x
  {
    PowersOf256();
    BeRoundTrip(Zeros(4), x);
  }

  lemma Be32RoundTripBack(s: Bytes)
    requires |s| == 4
    ensures PutBe32(Be32(s)) == s
  {
    BeRoundTripBack(Zeros(4), s);
  }

  /** What each byte of each width is. */
  lemma BytesByPosition(x: Uint32, y: Uint64)
    ensures PutBe32(x) == [x / 0x100_0000, x / 0x1_0000 % 0x100, x / 0x100 % 0x100, x % 0x100]
    ensures IsBe(PutBe32(x), x) && IsBe(PutBe64(y), y) && IsLe(PutLe64(y), y)
  {
    ToBeIsBe(Zeros(4), x);
    ToBeIsBe(Zeros(8), y);
    ToLeIsLe(Zeros(8), y);
    FourBytes(PutBe32(x), x);
  }

  lemma FourBytes(s: Bytes, x: Uint32)
    requires |s| == 4 && IsBe(s, x)
    ensures s == [x / 0x100_0000, x / 0x1_0000 % 0x100, x / 0x100 % 0x100, x % 0x100]
  {
    PowersInUse();
    assert s[0] == x / Pow256(3) % 256 && s[1] == x / Pow256(2) % 256 && s[2] == x / Pow256(1) % 256 && s[3] == x / Pow256(0) % 256;
    assert x / 0x100_0000 < 256;
  }

  lemma PowersInUse()
    ensures Pow256(0) == 1 && Pow256(1) == 0x100 && Pow256(2) == 0x1_0000 && Pow256(3) == 0x100_0000
  {
  }

  /** Reading finds the number that the bytes spell, and no other. */
  lemma NumbersByPosition(s: Bytes, t: Bytes, x: Uint32, y: Uint64)
    requires |s| == 4 && |t| == 8
    ensures Be32(s) == x <==> IsBe(s, x)
    ensures Be64(t) == y <==> IsBe(t, y)
    ensures Le64(t) == y <==> IsLe(t, y)
  {
    PowersOf256();
    BigEndianIff(s, x);
    BigEndianIff(t, y);
    LittleEndianIff(t, y);
  }

  /** Two big-endian halves are the whole. */
  lemma BigEndianHalves(high: Bytes, low: Bytes, x: nat, y: nat)
    requires |high| == 4 && |low| == 4 && IsBe(high, x) && IsBe(low, y) && x < TWO_TO_THE_32 && y < TWO_TO_THE_32
    ensures IsBe(high + low, x * TWO_TO_THE_32 + y)
  {
    var s, z := high + low, x * TWO_TO_THE_32 + y;
    PowersOf256();
    BigEndianIff(high, x);
    BigEndianIff(low, y);
    BigEndianIff(s, z);
    FromBeOfAppend(high, low);
  }

  lemma {:induction false} FromBeOfAppend(a: Bytes, b: Bytes)
    ensures FromBe(a + b) == FromBe(a) * Pow256(|b|) + FromBe(b)
  {
    if b == [] {
      assert a + b == a;
    } else {
      var n := |b| - 1;
      assert (a + b)[..|a + b| - 1] == a + b[..n];
      FromBeOfAppend(a, b[..n]);
      assert 256 * (FromBe(a) * Pow256(n)) == FromBe(a) * Pow256(n + 1);
    }
  }
}
