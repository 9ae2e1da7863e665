/**
 The methods of internal/offset/offset.go.  A `LocationOffset` object is the
 receiver that `Unmarshal` and `Sign` overwrite; the references it holds are
 values, as in the source, where each belongs to one freshly made slice.
 */
module LocationOffsets {
  import opened Wrappers
  import opened ByteCodec
  import opened Layout
  import opened Signing
  import opened OffsetFormat
  import opened OffsetCodec
  import opened OffsetSignatures

  // Methods that only read their receiver.

  method MeasureEncodedLen(o: OffsetTree) returns (n: nat)
    ensures n == |Encode(o)|
    decreases o
  {
    n := SIZE;
    for i := 0 to |o.references|
      invariant n + EncodedLenAll(o.references[i..]) == EncodedLen(o)
    {
      var m := MeasureEncodedLen(o.references[i]);
      LengthOfEncoding(o.references[i]);
      assert o.references[i..][1..] == o.references[i + 1..];
      n := n + m;
    }
    LengthOfEncoding(o);
  }

  method TallyReferences(o: OffsetTree) returns (n: nat)
    ensures n == CountReferences(o)
    decreases o
  {
    n := |o.references|;
    for i := 0 to |o.references|
      invariant n + CountBelow(o.references[i..]) == CountReferences(o)
    {
      var m := TallyReferences(o.references[i]);
      assert o.references[i..][1..] == o.references[i + 1..];
      n := n + m;
    }
  }

  method AppendSigned(o: OffsetTree, prefix: Bytes) returns (buf: Bytes)
    ensures buf == prefix + SigningBytes(o)
    decreases o, 0
  {
    buf := prefix + [VERSION];
    buf := buf + o.authorityPubkey;
    buf := buf + o.senderPubkey;
    buf := buf + PutLe64(o.observedAt);
    buf := buf + PutLe64(o.lat);
    buf := buf + PutLe64(o.lng);
    buf := buf + PutLe64(o.measuredRttNs);
    buf := buf + PutLe64(o.rttNs);
    buf := buf + o.targetIP;
    buf := buf + [|o.references| % 256];
    AppendedScalars(o, prefix);
    ghost var scalars := prefix + Concat(SignedFields(o));
    assert buf == scalars;
    for i := 0 to |o.references|
      invariant buf + EncodeAll(o.references[i..]) == scalars + EncodeAll(o.references)
    {
      var encoded := MarshalTree(o.references[i]);
      assert o.references[i..][1..] == o.references[i + 1..];
      Associative(buf, encoded, EncodeAll(o.references[i + 1..]));
      buf := buf + encoded;
    }
    assert buf + [] == buf;
    Associative(prefix, Concat(SignedFields(o)), EncodeAll(o.references));
  }

  /** Appending the scalar fields one by one is appending their concatenation. */
  lemma AppendedScalars(o: OffsetTree, prefix: Bytes)
    ensures prefix + Concat(SignedFields(o))
         == prefix + [VERSION] + o.authorityPubkey + o.senderPubkey + PutLe64(o.observedAt) + PutLe64(o.lat)
            + PutLe64(o.lng) + PutLe64(o.measuredRttNs) + PutLe64(o.rttNs) + o.targetIP + [|o.references| % 256]
  {
    var fields := SignedFields(o);
    AppendedFields(prefix, fields, 10);
    assert Concat(fields[10..]) == [];
    assert AppendFields(prefix, fields, 3) == prefix + [VERSION] + o.authorityPubkey + o.senderPubkey;
    assert AppendFields(prefix, fields, 6)
        == AppendFields(prefix, fields, 3) + PutLe64(o.observedAt) + PutLe64(o.lat) + PutLe64(o.lng);
    assert AppendFields(prefix, fields, 10)
        == AppendFields(prefix, fields, 6) + PutLe64(o.measuredRttNs) + PutLe64(o.rttNs)
           + o.targetIP + [|o.references| % 256];
  }

  method MarshalTree(o: OffsetTree) returns (buf: Bytes)
    ensures buf == Encode(o)
    decreases o, 1
  {
    buf := AppendSigned(o, o.signature);
  }

  method VerifyTree(verify: Verifier, o: OffsetTree) returns (ok: bool)
    ensures ok == Verified(verify, o)
  {
    var message := AppendSigned(o, []);
    assert [] + SigningBytes(o) == SigningBytes(o);
    ok := verify(o.authorityPubkey, message, o.signature);
  }

  method VerifyChain(verify: Verifier, o: OffsetTree) returns (err: Option<ChainError>)
    ensures err == CheckChain(verify, o)
    ensures err.None? <==> forall n | InTree(n, o) :: Verified(verify, n)
    decreases o
  {
    ChainPassesIffAllVerify(verify, o);
    var ok := VerifyTree(verify, o);
    if !ok {
      return Some(BadSignature);
    }
    for i := 0 to |o.references|
      invariant ReferencesError(verify, o.references, 0) == ReferencesError(verify, o.references[i..], i)
    {
      var e := VerifyChain(verify, o.references[i]);
      assert o.references[i..][1..] == o.references[i + 1..];
      if e.Some? {
        return Some(BadReference(i, e.value));
      }
    }
    return None;
  }

  // Methods that overwrite their receiver.

  function ZeroTree(): OffsetTree {
    OffsetTree(Zeros(64), Zeros(32), Zeros(32), 0, 0, 0, 0, 0, Zeros(4), [])
  }

  /** What `Sign` makes of `o`. */
  function Signed(o: OffsetTree, signer: Signer, senderPubkey: Key): OffsetTree {
    var named := o.(authorityPubkey := signer.pub, senderPubkey := senderPubkey);
    named.(signature := signer.sign(SigningBytes(named)))
  }

  /** A signed tree verifies, whatever its references, and names both keys; nothing else of it changes. */
  lemma SignedVerifies(o: OffsetTree, signer: Signer, senderPubkey: Key, verify: Verifier)
    requires Honours(verify, signer)
    ensures Verified(verify, Signed(o, signer, senderPubkey))
    ensures Signed(o, signer, senderPubkey)
         == o.(authorityPubkey := signer.pub, senderPubkey := senderPubkey, signature := Signed(o, signer, senderPubkey).signature)
  {
    var named := o.(authorityPubkey := signer.pub, senderPubkey := senderPubkey);
    SigningBytesIgnoreSignature(named, signer.sign(SigningBytes(named)));
  }

  /** References `done` decoded before `r`, in `used` bytes. */
  function After(done: seq<OffsetTree>, used: nat, r: Result<(seq<OffsetTree>, nat), DecodeError>)
    : Result<(seq<OffsetTree>, nat), DecodeError>
  {
    match r
    case Err(e) => Err(e)
    case Ok((rest, n)) => Ok((done + rest, used + n))
  }

  lemma AfterNothing(r: Result<(seq<OffsetTree>, nat), DecodeError>)
    ensures After([], 0, r) == r
  {
    if r.Ok? {
      assert [] + r.value.0 == r.value.0;
    }
  }

  /** Reading one more reference, `o` in `m` bytes. */
  lemma AfterOne(done: seq<OffsetTree>, used: nat, rest: Bytes, o: OffsetTree, m: nat, total: nat, depth: nat, i: nat, count: nat)
    requires depth <= MAX_REFERENCE_DEPTH + 1 && i < count && m <= |rest| && DecodeAt(rest, depth) == Ok((o, m))
    requires total == used + m
    ensures After(done, used, DecodeRefs(rest, depth, i, count))
         == After(done + [o], total, DecodeRefs(rest[m..], depth, i + 1, count))
  {
    var later := DecodeRefs(rest[m..], depth, i + 1, count);
    if later.Ok? {
      PutInFront(done, o, later.value.0);
      assert used + (m + later.value.1) == total + later.value.1;
    }
  }

  lemma PutInFront(done: seq<OffsetTree>, o: OffsetTree, later: seq<OffsetTree>)
    ensures done + ([o] + later) == done + [o] + later
  {
  }

  lemma RefsFailAt(data: Bytes, depth: nat, i: nat, count: nat, e: DecodeError)
    requires depth <= MAX_REFERENCE_DEPTH + 1 && i < count && DecodeAt(data, depth) == Err(e)
    ensures DecodeRefs(data, depth, i, count) == Err(InReference(i, e))
  {
  }

  function ZeroTrees(n: nat): seq<OffsetTree> {
    seq(n, _ => ZeroTree())
  }

  /** What decoding leaves in a receiver that held `was`, whether it succeeds or fails. */
  function Left(data: Bytes, depth: nat, was: OffsetTree): OffsetTree
    decreases MAX_REFERENCE_DEPTH + 1 - depth, 1
  {
    if depth > MAX_REFERENCE_DEPTH || |data| < SIZE then was
    else if data[64] != VERSION then was.(signature := data[0..64])
    else LeftNode(data, depth)
  }

  function LeftNode(data: Bytes, depth: nat): OffsetTree
    requires depth <= MAX_REFERENCE_DEPTH && |data| >= SIZE
    decreases MAX_REFERENCE_DEPTH + 1 - depth, 0
  {
    NodeOf(data, LeftReferences(data[SIZE..], depth + 1, 0, data[173]))
  }

  /** The references left behind: those decoded, then what the first failure left, then untouched ones. */
  function LeftReferences(data: Bytes, depth: nat, index: nat, count: nat): (refs: seq<OffsetTree>)
    requires depth <= MAX_REFERENCE_DEPTH + 1 && index <= count
    ensures |refs| == count - index
    decreases MAX_REFERENCE_DEPTH + 1 - depth, 2 + count - index
  {
    if index == count then []
    else
      match DecodeAt(data, depth)
      case Err(_) => [Left(data, depth, ZeroTree())] + ZeroTrees(count - index - 1)
      case Ok((o, n)) => [o] + LeftReferences(data[n..], depth, index + 1, count)
  }

  /** After a success nothing of the old receiver is left. */
  lemma {:induction false} LeftWhenDecoded(data: Bytes, depth: nat, was: OffsetTree)
    requires DecodeAt(data, depth).Ok?
    ensures Left(data, depth, was) == DecodeAt(data, depth).value.0
    decreases MAX_REFERENCE_DEPTH + 1 - depth, 0
  {
    assert DecodeAt(data, depth) == DecodeNode(data, depth) && Left(data, depth, was) == LeftNode(data, depth);
    LeftWhenAllDecoded(data[SIZE..], depth + 1, 0, data[173]);
  }

  lemma {:induction false} LeftWhenAllDecoded(data: Bytes, depth: nat, index: nat, count: nat)
    requires depth <= MAX_REFERENCE_DEPTH + 1 && index <= count && DecodeRefs(data, depth, index, count).Ok?
    ensures LeftReferences(data, depth, index, count) == DecodeRefs(data, depth, index, count).value.0
    decreases MAX_REFERENCE_DEPTH + 1 - depth, 1 + count - index
  {
    if index < count {
      LeftWhenAllDecoded(data[DecodeAt(data, depth).value.1..], depth, index + 1, count);
    }
  }

  /** Reading one more reference. */
  lemma LeftOneMore(done: seq<OffsetTree>, rest: Bytes, o: OffsetTree, m: nat, depth: nat, i: nat, count: nat)
    requires depth <= MAX_REFERENCE_DEPTH + 1 && i < count && m <= |rest| && DecodeAt(rest, depth) == Ok((o, m))
    ensures done + LeftReferences(rest, depth, i, count) == done + [o] + LeftReferences(rest[m..], depth, i + 1, count)
  {
    PutInFront(done, o, LeftReferences(rest[m..], depth, i + 1, count));
  }

  /** Failing to read one. */
  lemma LeftAtFailure(done: seq<OffsetTree>, data: Bytes, depth: nat, i: nat, count: nat)
    requires depth <= MAX_REFERENCE_DEPTH + 1 && i == |done| < count && DecodeAt(data, depth).Err?
    ensures done + LeftReferences(data, depth, i, count)
         == (done + ZeroTrees(count - i))[i := Left(data, depth, ZeroTree())]
  {
    var left := Left(data, depth, ZeroTree());
    assert done + ([left] + ZeroTrees(count - i - 1)) == (done + ZeroTrees(count - i))[i := left];
  }

  /** What the loop over the references returns once `done` have been decoded in `used` bytes. */
  function Outlook(rest: Bytes, depth: nat, count: nat, used: nat, done: seq<OffsetTree>)
    : (r: Result<(seq<OffsetTree>, nat), DecodeError>)
    requires depth <= MAX_REFERENCE_DEPTH + 1 && |done| <= count
  {
    After(done, used, DecodeRefs(rest, depth, |done|, count))
  }

  /** What it leaves in the list. */
  function Remains(rest: Bytes, depth: nat, count: nat, done: seq<OffsetTree>): seq<OffsetTree>
    requires depth <= MAX_REFERENCE_DEPTH + 1 && |done| <= count
  {
    done + LeftReferences(rest, depth, |done|, count)
  }

  /** The list the loop works on: the references decoded, and untouched ones. */
  function Padded(done: seq<OffsetTree>, count: nat): seq<OffsetTree>
    requires |done| <= count
  {
    done + ZeroTrees(count - |done|)
  }

  lemma PaddedOneMore(done: seq<OffsetTree>, o: OffsetTree, count: nat)
    requires |done| < count
    ensures Padded(done, count)[|done| := o] == Padded(done + [o], count)
  {
  }

  lemma OutlookAtStart(data: Bytes, depth: nat, count: nat)
    requires depth <= MAX_REFERENCE_DEPTH + 1
    ensures Outlook(data, depth, count, 0, []) == DecodeRefs(data, depth, 0, count)
    ensures Remains(data, depth, count, []) == LeftReferences(data, depth, 0, count)
    ensures Padded([], count) == ZeroTrees(count)
  {
    AfterNothing(DecodeRefs(data, depth, 0, count));
    assert [] + LeftReferences(data, depth, 0, count) == LeftReferences(data, depth, 0, count);
    assert [] + ZeroTrees(count) == ZeroTrees(count);
  }

  lemma OutlookOneMore(rest: Bytes, depth: nat, count: nat, used: nat, done: seq<OffsetTree>, o: OffsetTree, m: nat,
                       total: nat, goal: Result<(seq<OffsetTree>, nat), DecodeError>)
    requires depth <= MAX_REFERENCE_DEPTH + 1 && |done| < count && m <= |rest| && total == used + m
    requires DecodeAt(rest, depth) == Ok((o, m)) && Outlook(rest, depth, count, used, done) == goal
    ensures Outlook(rest[m..], depth, count, total, done + [o]) == goal
  {
    assert |done + [o]| == |done| + 1;
    AfterOne(done, used, rest, o, m, total, depth, |done|, count);
  }

  lemma RemainsOneMore(rest: Bytes, depth: nat, count: nat, done: seq<OffsetTree>, o: OffsetTree, m: nat, left: seq<OffsetTree>)
    requires depth <= MAX_REFERENCE_DEPTH + 1 && |done| < count && m <= |rest|
    requires DecodeAt(rest, depth) == Ok((o, m)) && Remains(rest, depth, count, done) == left
    ensures Remains(rest[m..], depth, count, done + [o]) == left
  {
    assert |done + [o]| == |done| + 1;
    LeftOneMore(done, rest, o, m, depth, |done|, count);
  }

  lemma OutlookAtFailure(rest: Bytes, depth: nat, count: nat, used: nat, done: seq<OffsetTree>, e: DecodeError)
    requires depth <= MAX_REFERENCE_DEPTH + 1 && |done| < count && DecodeAt(rest, depth) == Err(e)
    ensures Outlook(rest, depth, count, used, done) == Err(InReference(|done|, e))
    ensures Remains(rest, depth, count, done) == Padded(done, count)[|done| := Left(rest, depth, ZeroTree())]
  {
    RefsFailAt(rest, depth, |done|, count, e);
    LeftAtFailure(done, rest, depth, |done|, count);
  }

  lemma OutlookAtEnd(rest: Bytes, depth: nat, count: nat, used: nat, done: seq<OffsetTree>)
    requires depth <= MAX_REFERENCE_DEPTH + 1 && |done| == count
    ensures Outlook(rest, depth, count, used, done) == Ok((Padded(done, count), used))
    ensures Remains(rest, depth, count, done) == Padded(done, count)
  {
    assert done + [] == done && done + ZeroTrees(0) == done;
  }

  class LocationOffset {
    var signature: Signature
    var authorityPubkey: Key
    var senderPubkey: Key
    var observedAt: Uint64
    var lat: Uint64
    var lng: Uint64
    var measuredRttNs: Uint64
    var rttNs: Uint64
    var targetIP: Bytes4
    var references: seq<OffsetTree>

    function Value(): OffsetTree
      reads this
    {
      OffsetTree(signature, authorityPubkey, senderPubkey, observedAt, lat, lng, measuredRttNs, rttNs, targetIP, references)
    }

    constructor ()
      ensures Value() == ZeroTree()
    {
      signature, authorityPubkey, senderPubkey := Zeros(64), Zeros(32), Zeros(32);
      observedAt, lat, lng, measuredRttNs, rttNs := 0, 0, 0, 0, 0;
      targetIP, references := Zeros(4), [];
    }

    method Sign(signer: Signer, sender: Key)
      modifies this
      ensures Value() == Signed(old(Value()), signer, sender)
    {
      authorityPubkey := signer.pub;
      senderPubkey := sender;
      var message := AppendSigned(Value(), []);
      assert [] + SigningBytes(Value()) == SigningBytes(Value());
      signature := signer.sign(message);
    }

    method Unmarshal(data: Bytes) returns (err: Option<DecodeError>)
      modifies this
      ensures match Decode(data)
              case Ok(o) => err == None && Value() == o
              case Err(e) => err == Some(e)
      ensures Value() == Left(data, 0, old(Value()))
    {
      var n, failure := UnmarshalAt(data, 0);
      if failure.Some? {
        return failure;
      }
      var total := TallyReferences(Value());
      if total > MAX_TOTAL_REFERENCES {
        return Some(TooManyReferences(total));
      }
      if n != |data| {
        return Some(TrailingBytes(|data| - n));
      }
      return None;
    }

    /** The fields after the signature, from their positions, and no references yet. */
    method ReadFields(data: Bytes)
      requires |data| >= SIZE && signature == data[0..64]
      modifies this
      ensures Value() == NodeOf(data, [])
    {
      authorityPubkey := data[65..97];
      senderPubkey := data[97..129];
      ReadNumbers(data);
      targetIP := data[169..173];
      references := [];
    }

    method ReadNumbers(data: Bytes)
      requires |data| >= SIZE
      modifies this`observedAt, this`lat, this`lng, this`measuredRttNs, this`rttNs
      ensures observedAt == Le64(data[129..137]) && lat == Le64(data[137..145]) && lng == Le64(data[145..153])
      ensures measuredRttNs == Le64(data[153..161]) && rttNs == Le64(data[161..169])
    {
      observedAt := Le64(data[129..137]);
      lat := Le64(data[137..145]);
      lng := Le64(data[145..153]);
      measuredRttNs := Le64(data[153..161]);
      rttNs := Le64(data[161..169]);
    }

    /** One offset from the front of `data`, into the receiver. */
    method UnmarshalAt(data: Bytes, depth: nat) returns (n: nat, err: Option<DecodeError>)
      modifies this
      ensures match DecodeAt(data, depth)
              case Ok((o, m)) => err == None && n == m && Value() == o
              case Err(e) => err == Some(e) && n == 0
      ensures Value() == Left(data, depth, old(Value()))
      decreases MAX_REFERENCE_DEPTH + 1 - depth, 0
    {
      if depth > MAX_REFERENCE_DEPTH {
        return 0, Some(DepthExceeded(depth));
      }
      if |data| < SIZE {
        return 0, Some(ShortBuffer);
      }
      signature := data[0..64];
      if data[64] != VERSION {
        return 0, Some(BadVersion(data[64]));
      }
      ReadFields(data);
      var numRefs := data[173];
      assert DecodeAt(data, depth) == DecodeNode(data, depth);
      assert Left(data, depth, old(Value())) == LeftNode(data, depth);
      var used, failure := UnmarshalReferences(data[SIZE..], depth + 1, numRefs);
      if failure.Some? {
        return 0, failure;
      }
      assert Value() == NodeOf(data, references);
      return SIZE + used, None;
    }

    /** One reference, into a zeroed element. */
    static method UnmarshalOne(data: Bytes, depth: nat) returns (o: OffsetTree, n: nat, err: Option<DecodeError>)
      ensures match DecodeAt(data, depth)
              case Ok((decoded, m)) => err == None && n == m && o == decoded
              case Err(e) => err == Some(e) && o == Left(data, depth, ZeroTree())
      decreases MAX_REFERENCE_DEPTH + 1 - depth, 1
    {
      var element := new LocationOffset();
      n, err := element.UnmarshalAt(data, depth);
      o := element.Value();
    }

    /** `count` references, one after another, into the receiver's reference list. */
    method UnmarshalReferences(data: Bytes, depth: nat, count: nat) returns (used: nat, err: Option<DecodeError>)
      requires 1 <= depth <= MAX_REFERENCE_DEPTH + 1 && references == []
      modifies this`references
      ensures match DecodeRefs(data, depth, 0, count)
              case Ok((refs, m)) => err == None && used == m && references == refs
              case Err(e) => err == Some(e)
      ensures references == LeftReferences(data, depth, 0, count)
      decreases MAX_REFERENCE_DEPTH + 1 - depth, 2
    {
      used := 0;
      if count > 0 {
        references := ZeroTrees(count);
      }
      ghost var done := [];
      var rest := data;
      OutlookAtStart(data, depth, count);
      ghost var goal, left := Outlook(data, depth, count, 0, []), Remains(data, depth, count, []);
      for i := 0 to count
        invariant |done| == i && references == Padded(done, count)
        invariant Outlook(rest, depth, count, used, done) == goal
        invariant Remains(rest, depth, count, done) == left
      {
        var o, m, failure := UnmarshalOne(rest, depth);
        references := references[i := o];
        if failure.Some? {
          OutlookAtFailure(rest, depth, count, used, done, failure.value);
          return 0, Some(InReference(i, failure.value));
        }
        var total := used + m;
        OutlookOneMore(rest, depth, count, used, done, o, m, total, goal);
        RemainsOneMore(rest, depth, count, done, o, m, left);
        PaddedOneMore(done, o, count);
        done := done + [o];
        used := total;
        rest := rest[m..];
      }
      OutlookAtEnd(rest, depth, count, used, done);
      err := None;
    }
  }
}
