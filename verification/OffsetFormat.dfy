/**
 The recursive location-offset format: what its bytes are, and exactly which
 byte strings decode.  Latitude and longitude are carried as the 64-bit patterns
 that go on the wire.
 */
module OffsetFormat {
  import opened Wrappers
  import opened ByteCodec
  import opened Layout

  const VERSION: Byte := 1
  const SIZE: nat := 174
  const SIGNATURE_SIZE: nat := 64
  const MAX_REFERENCE_DEPTH: nat := 2
  const MAX_TOTAL_REFERENCES: nat := 5

  datatype OffsetTree = OffsetTree(
    signature: Signature,
    authorityPubkey: Key,
    senderPubkey: Key,
    observedAt: Uint64,
    lat: Uint64,
    lng: Uint64,
    measuredRttNs: Uint64,
    rttNs: Uint64,
    targetIP: Bytes4,
    references: seq<OffsetTree>)

  datatype DecodeError =
    | DepthExceeded(depth: nat)
    | ShortBuffer
    | BadVersion(version: Byte)
    | InReference(index: nat, cause: DecodeError)
    | TooManyReferences(total: nat)
    | TrailingBytes(count: int)

  // Shape of a tree.

  function Height(o: OffsetTree): nat {
    if o.references == [] then 0 else 1 + MaxHeight(o.references)
  }

  function MaxHeight(refs: seq<OffsetTree>): nat {
    if refs == [] then 0
    else
      var h, t := Height(refs[0]), MaxHeight(refs[1..]);
      if h > t then h else t
  }

  /** The number of nodes below `o`. */
  function CountReferences(o: OffsetTree): nat
    decreases o, 1
  {
    |o.references| + CountBelow(o.references)
  }

  function CountBelow(refs: seq<OffsetTree>): nat
    decreases refs, 0
  {
    if refs == [] then 0 else CountReferences(refs[0]) + CountBelow(refs[1..])
  }

  function EncodedLen(o: OffsetTree): nat
    decreases o, 1
  {
    SIZE + EncodedLenAll(o.references)
  }

  function EncodedLenAll(refs: seq<OffsetTree>): nat
    decreases refs, 0
  {
    if refs == [] then 0 else EncodedLen(refs[0]) + EncodedLenAll(refs[1..])
  }

  /** Every reference list is short enough for its one-byte count. */
  predicate Narrow(o: OffsetTree)
    decreases o, 1
  {
    |o.references| <= 255 && AllNarrow(o.references)
  }

  predicate AllNarrow(refs: seq<OffsetTree>)
    decreases refs, 0
  {
    refs == [] || (Narrow(refs[0]) && AllNarrow(refs[1..]))
  }

  // Encoding.

  /** Signature, version, authority, sender, observed-at, lat, lng, measured RTT, RTT, target, reference count. */
  const LAYOUT: seq<nat> := [64, 1, 32, 32] + [8, 8, 8, 8, 8, 4, 1]

  /** The scalar fields a signature covers first. */
  function SignedFields(o: OffsetTree): (fields: seq<Bytes>)
    ensures HasWidths([o.signature] + fields, LAYOUT)
  {
    [[VERSION], o.authorityPubkey, o.senderPubkey,
      PutLe64(o.observedAt), PutLe64(o.lat), PutLe64(o.lng), PutLe64(o.measuredRttNs), PutLe64(o.rttNs),
      o.targetIP, [|o.references| % 256]]
  }

  /** Everything but the root's own signature. */
  function SigningBytes(o: OffsetTree): Bytes
    decreases o, 1
  {
    Concat(SignedFields(o)) + EncodeAll(o.references)
  }

  function Encode(o: OffsetTree): Bytes
    decreases o, 2
  {
    o.signature + SigningBytes(o)
  }

  function EncodeAll(refs: seq<OffsetTree>): Bytes
    decreases refs, 0
  {
    if refs == [] then [] else Encode(refs[0]) + EncodeAll(refs[1..])
  }

  // Decoding.

  lemma LayoutStarts()
    ensures Sum(LAYOUT) == SIZE
    ensures Start(LAYOUT, 0) == 0 && Start(LAYOUT, 1) == 64 && Start(LAYOUT, 2) == 65 && Start(LAYOUT, 3) == 97
    ensures Start(LAYOUT, 4) == 129 && Start(LAYOUT, 5) == 137 && Start(LAYOUT, 6) == 145 && Start(LAYOUT, 7) == 153
    ensures Start(LAYOUT, 8) == 161 && Start(LAYOUT, 9) == 169 && Start(LAYOUT, 10) == 173
  {
    assert Start(LAYOUT, 0) == 0;
    assert Start(LAYOUT, 1) == 64;
    assert Start(LAYOUT, 2) == 65;
    assert Start(LAYOUT, 3) == 97;
    assert Start(LAYOUT, 4) == 129;
    assert Start(LAYOUT, 5) == 137;
    assert Start(LAYOUT, 6) == 145;
    assert Start(LAYOUT, 7) == 153;
    assert Start(LAYOUT, 8) == 161;
    assert Start(LAYOUT, 9) == 169;
    assert Start(LAYOUT, 10) == 173;
    StartOfEnd(LAYOUT);
  }

  /** The node whose first 174 bytes are `data`, with the given references. */
  function NodeOf(data: Bytes, refs: seq<OffsetTree>): OffsetTree
    requires |data| >= SIZE
  {
    OffsetTree(
      data[0..64], data[65..97], data[97..129],
      Le64(data[129..137]), Le64(data[137..145]), Le64(data[145..153]), Le64(data[153..161]), Le64(data[161..169]),
      data[169..173], refs)
  }

  /** One offset from the front of `data`, and how many bytes it took. */
  function DecodeAt(data: Bytes, depth: nat): (r: Result<(OffsetTree, nat), DecodeError>)
    ensures r.Ok? ==> r.value.1 <= |data|
    decreases MAX_REFERENCE_DEPTH + 1 - depth, 1
  {
    if depth > MAX_REFERENCE_DEPTH then Err(DepthExceeded(depth))
    else if |data| < SIZE then Err(ShortBuffer)
    else if data[64] != VERSION then Err(BadVersion(data[64]))
    else DecodeNode(data, depth)
  }

  function DecodeNode(data: Bytes, depth: nat): (r: Result<(OffsetTree, nat), DecodeError>)
    requires depth <= MAX_REFERENCE_DEPTH && |data| >= SIZE
    ensures r.Ok? ==> r.value.1 <= |data|
    decreases MAX_REFERENCE_DEPTH + 1 - depth, 0
  {
    match DecodeRefs(data[SIZE..], depth + 1, 0, data[173])
    case Err(e) => Err(e)
    case Ok((refs, n)) => Ok((NodeOf(data, refs), SIZE + n))
  }

  /** References `index..count`, one after another from the front of `data`. */
  function DecodeRefs(data: Bytes, depth: nat, index: nat, count: nat): (r: Result<(seq<OffsetTree>, nat), DecodeError>)
    requires depth <= MAX_REFERENCE_DEPTH + 1 && index <= count
    ensures r.Ok? ==> r.value.1 <= |data|
    decreases MAX_REFERENCE_DEPTH + 1 - depth, 2 + count - index
  {
    if index == count then Ok(([], 0))
    else
      match DecodeAt(data, depth)
      case Err(e) => Err(InReference(index, e))
      case Ok((o, n)) =>
        match DecodeRefs(data[n..], depth, index + 1, count)
        case Err(e) => Err(e)
        case Ok((rest, m)) => Ok(([o] + rest, n + m))
  }

  /** The whole of `data` as one offset. */
  function Decode(data: Bytes): Result<OffsetTree, DecodeError> {
    match DecodeAt(data, 0)
    case Err(e) => Err(e)
    case Ok((o, n)) =>
      if CountReferences(o) > MAX_TOTAL_REFERENCES then Err(TooManyReferences(CountReferences(o)))
      else if n != |data| then Err(TrailingBytes(|data| - n))
      else Ok(o)
  }
}
