/**
 The exact language of the offset format: decoding inverts encoding on the trees
 the limits admit, fails on every other tree, and accepts nothing else.
 */
module OffsetCodec {
  import opened Wrappers
  import opened ByteCodec
  import opened Layout
  import opened OffsetFormat

  /** The condition under which a marshalled tree can be read back. */
  predicate Decodable(o: OffsetTree) {
    Height(o) <= 2 && CountReferences(o) <= 5
  }

  // Lengths.

  lemma {:induction false} LengthOfEncoding(o: OffsetTree)
    ensures |Encode(o)| == EncodedLen(o) == SIZE * (1 + CountReferences(o))
    decreases o, 1
  {
    EncodeSplits(o, []);
    LengthOfEncodings(o.references);
  }

  lemma {:induction false} LengthOfEncodings(refs: seq<OffsetTree>)
    ensures |EncodeAll(refs)| == EncodedLenAll(refs) == SIZE * (|refs| + CountBelow(refs))
    decreases refs, 0
  {
    if refs != [] {
      LengthOfEncoding(refs[0]);
      LengthOfEncodings(refs[1..]);
    }
  }

  /** Few nodes means short reference lists. */
  lemma {:induction false} FewReferencesAreNarrow(o: OffsetTree)
    requires CountReferences(o) <= 255
    ensures Narrow(o)
    decreases o, 1
  {
    FewBelowAreNarrow(o.references);
  }

  lemma {:induction false} FewBelowAreNarrow(refs: seq<OffsetTree>)
    requires CountBelow(refs) <= 255
    ensures AllNarrow(refs)
    decreases refs, 0
  {
    if refs != [] {
      FewReferencesAreNarrow(refs[0]);
      FewBelowAreNarrow(refs[1..]);
    }
  }

  // The 174 bytes of one node.

  function NodeBytes(o: OffsetTree): Bytes {
    Concat([o.signature] + SignedFields(o))
  }

  lemma EncodeSplits(o: OffsetTree, rest: Bytes)
    ensures |NodeBytes(o)| == SIZE
    ensures Encode(o) + rest == NodeBytes(o) + (EncodeAll(o.references) + rest)
  {
    var scalars := SignedFields(o);
    LayoutStarts();
    ConcatLength([o.signature] + scalars, LAYOUT);
    assert ([o.signature] + scalars)[1..] == scalars;
    Associative(o.signature, Concat(scalars), EncodeAll(o.references));
    Associative(NodeBytes(o), EncodeAll(o.references), rest);
  }

  lemma Associative(a: Bytes, b: Bytes, c: Bytes)
    ensures (a + b) + c == a + (b + c)
  {
    assert (a + b) + c == a + (b + c);
  }

  function NodeFromFields(f: seq<Bytes>, refs: seq<OffsetTree>): OffsetTree
    requires HasWidths(f, LAYOUT)
  {
    OffsetTree(f[0], f[2], f[3], Le64(f[4]), Le64(f[5]), Le64(f[6]), Le64(f[7]), Le64(f[8]), f[9], refs)
  }

  /** The hard-coded positions are where the fields lie, one after another. */
  lemma NodeAtPositions(data: Bytes, refs: seq<OffsetTree>)
    requires |data| >= SIZE
    ensures Sum(LAYOUT) == SIZE && NodeOf(data, refs) == NodeFromFields(Cut(data, LAYOUT), refs)
  {
    LayoutStarts();
    FieldAt(data, LAYOUT, 0);
    FieldAt(data, LAYOUT, 2);
    FieldAt(data, LAYOUT, 3);
    FieldAt(data, LAYOUT, 4);
    FieldAt(data, LAYOUT, 5);
    FieldAt(data, LAYOUT, 6);
    FieldAt(data, LAYOUT, 7);
    FieldAt(data, LAYOUT, 8);
    FieldAt(data, LAYOUT, 9);
  }

  /** So are those of the version and the reference count. */
  lemma MarksAtPositions(data: Bytes)
    requires |data| >= SIZE
    ensures Sum(LAYOUT) == SIZE && Cut(data, LAYOUT)[1] == [data[64]] && Cut(data, LAYOUT)[10] == [data[173]]
  {
    LayoutStarts();
    FieldAt(data, LAYOUT, 1);
    FieldAt(data, LAYOUT, 10);
  }

  lemma NodeFieldsRoundTrip(o: OffsetTree, refs: seq<OffsetTree>)
    ensures NodeFromFields([o.signature] + SignedFields(o), refs) == o.(references := refs)
  {
    Le64RoundTrip(o.observedAt);
    Le64RoundTrip(o.lat);
    Le64RoundTrip(o.lng);
    Le64RoundTrip(o.measuredRttNs);
    Le64RoundTrip(o.rttNs);
  }

  lemma NodeFieldsRoundTripBack(f: seq<Bytes>, refs: seq<OffsetTree>)
    requires HasWidths(f, LAYOUT) && f[1] == [VERSION] && f[10] == [|refs| % 256]
    ensures [NodeFromFields(f, refs).signature] + SignedFields(NodeFromFields(f, refs)) == f
  {
    Le64RoundTripBack(f[4]);
    Le64RoundTripBack(f[5]);
    Le64RoundTripBack(f[6]);
    Le64RoundTripBack(f[7]);
    Le64RoundTripBack(f[8]);
  }

  /** The node read from a node's bytes is the node. */
  lemma ReadNode(o: OffsetTree, refs: seq<OffsetTree>)
    ensures |NodeBytes(o)| == SIZE && NodeBytes(o)[64] == VERSION && NodeBytes(o)[173] == |o.references| % 256
    ensures NodeOf(NodeBytes(o), refs) == o.(references := refs)
  {
    var fields := [o.signature] + SignedFields(o);
    LayoutStarts();
    assert NodeBytes(o) + [] == NodeBytes(o);
    CutOfConcat(fields, LAYOUT, []);
    NodeAtPositions(NodeBytes(o), refs);
    MarksAtPositions(NodeBytes(o));
    NodeFieldsRoundTrip(o, refs);
  }

  /** Reading a node looks no further than its 174 bytes. */
  lemma NodeAtFront(head: Bytes, tail: Bytes, refs: seq<OffsetTree>)
    requires |head| == SIZE
    ensures NodeOf(head + tail, refs) == NodeOf(head, refs)
  {
    var data := head + tail;
    assert forall lo, hi | 0 <= lo <= hi <= SIZE :: data[lo..hi] == head[lo..hi];
  }

  /** The node read from 174 version-1 bytes is written as those bytes. */
  lemma WriteNode(data: Bytes, refs: seq<OffsetTree>)
    requires |data| >= SIZE && data[64] == VERSION && data[173] == |refs| <= 255
    ensures NodeBytes(NodeOf(data, refs)) == data[..SIZE]
  {
    NodeAtPositions(data, refs);
    MarksAtPositions(data);
    ConcatOfCut(data, LAYOUT);
    NodeFieldsRoundTripBack(Cut(data, LAYOUT), refs);
  }

  // What decoding finds, if it succeeds, and how many bytes that takes.

  function Found(data: Bytes, depth: nat): Option<(OffsetTree, nat)> {
    match DecodeAt(data, depth)
    case Err(_) => None
    case Ok(found) => Some(found)
  }

  function FoundAll(data: Bytes, depth: nat, index: nat, count: nat): Option<(seq<OffsetTree>, nat)>
    requires depth <= MAX_REFERENCE_DEPTH + 1 && index <= count
  {
    match DecodeRefs(data, depth, index, count)
    case Err(_) => None
    case Ok(found) => Some(found)
  }

  // Decoding what was encoded.

  /** A node's bytes and what its references decode to. */
  lemma FoundAtHead(head: Bytes, tail: Bytes, depth: nat, refs: seq<OffsetTree>, m: nat, o: OffsetTree, total: nat)
    requires depth <= MAX_REFERENCE_DEPTH && |head| == SIZE && head[64] == VERSION
    requires FoundAll(tail, depth + 1, 0, head[173]) == Some((refs, m))
    requires o == NodeOf(head, refs) && total == SIZE + m
    ensures Found(head + tail, depth) == Some((o, total))
  {
    var data := head + tail;
    assert data[64] == head[64] && data[173] == head[173] && data[SIZE..] == tail;
    assert DecodeAt(data, depth) == DecodeNode(data, depth);
    NodeAtFront(head, tail, refs);
  }

  /** One reference's bytes and what the others decode to. */
  lemma FoundOneMore(front: Bytes, tail: Bytes, depth: nat, index: nat, count: nat,
                     o: OffsetTree, n: nat, others: seq<OffsetTree>, m: nat, refs: seq<OffsetTree>, total: nat)
    requires depth <= MAX_REFERENCE_DEPTH + 1 && index < count
    requires Found(front + tail, depth) == Some((o, n)) && n == |front|
    requires FoundAll(tail, depth, index + 1, count) == Some((others, m))
    requires refs == [o] + others && total == n + m
    ensures FoundAll(front + tail, depth, index, count) == Some((refs, total))
  {
    assert (front + tail)[|front|..] == tail;
  }

  /** A narrow tree within the depth limit decodes to itself, whatever follows it. */
  lemma {:induction false} DecodeOfEncode(o: OffsetTree, rest: Bytes, depth: nat)
    requires Narrow(o) && depth + Height(o) <= MAX_REFERENCE_DEPTH
    ensures Found(Encode(o) + rest, depth) == Some((o, EncodedLen(o)))
    decreases o, 1
  {
    var refs, tail := o.references, EncodeAll(o.references) + rest;
    EncodeSplits(o, rest);
    ReadNode(o, refs);
    assert NodeBytes(o)[173] == |refs|;
    assert o.(references := refs) == o;
    DecodeOfEncodeAll(refs, rest, depth + 1, 0, |refs|);
    FoundAtHead(NodeBytes(o), tail, depth, refs, EncodedLenAll(refs), o, EncodedLen(o));
  }

  lemma {:induction false} DecodeOfEncodeAll(refs: seq<OffsetTree>, rest: Bytes, depth: nat, index: nat, count: nat)
    requires AllNarrow(refs)
    requires 1 <= depth <= MAX_REFERENCE_DEPTH + 1 && index <= count && count - index == |refs|
    requires refs == [] || depth + MaxHeight(refs) <= MAX_REFERENCE_DEPTH
    ensures FoundAll(EncodeAll(refs) + rest, depth, index, count) == Some((refs, EncodedLenAll(refs)))
    decreases refs, 0
  {
    if refs == [] {
      assert index == count;
    } else {
      var o, others := refs[0], refs[1..];
      FirstFits(refs, depth);
      DecodeOfEncode(o, EncodeAll(others) + rest, depth);
      DecodeOfEncodeAll(others, rest, depth, index + 1, count);
      LengthOfEncoding(o);
      EncodeAllCons(o, others, refs, rest);
      FoundOneMore(Encode(o), EncodeAll(others) + rest, depth, index, count,
                   o, EncodedLen(o), others, EncodedLenAll(others), refs, EncodedLenAll(refs));
    }
  }

  lemma FirstFits(refs: seq<OffsetTree>, depth: nat)
    requires refs != [] && AllNarrow(refs) && depth + MaxHeight(refs) <= MAX_REFERENCE_DEPTH
    ensures Narrow(refs[0]) && depth + Height(refs[0]) <= MAX_REFERENCE_DEPTH
    ensures AllNarrow(refs[1..]) && depth + MaxHeight(refs[1..]) <= MAX_REFERENCE_DEPTH
    ensures refs == [refs[0]] + refs[1..]
  {
  }

  lemma EncodeAllCons(o: OffsetTree, others: seq<OffsetTree>, refs: seq<OffsetTree>, rest: Bytes)
    requires refs == [o] + others
    ensures EncodeAll(refs) + rest == Encode(o) + (EncodeAll(others) + rest)
    ensures EncodeAll(refs) == Encode(o) + EncodeAll(others) && EncodedLenAll(refs) == EncodedLen(o) + EncodedLenAll(others)
  {
    assert refs[0] == o && refs[1..] == others;
    Associative(Encode(o), EncodeAll(others), rest);
  }

  // Encoding what was decoded.

  /** What was found is a node, and what was found after it. */
  lemma FoundSplits(data: Bytes, depth: nat, o: OffsetTree, n: nat) returns (refs: seq<OffsetTree>, m: nat)
    requires Found(data, depth) == Some((o, n))
    ensures depth <= MAX_REFERENCE_DEPTH && |data| >= SIZE && data[64] == VERSION
    ensures FoundAll(data[SIZE..], depth + 1, 0, data[173]) == Some((refs, m))
    ensures o == NodeOf(data, refs) && n == SIZE + m <= |data|
  {
    assert DecodeAt(data, depth) == DecodeNode(data, depth);
    var below := DecodeRefs(data[SIZE..], depth + 1, 0, data[173]).value;
    refs, m := below.0, below.1;
  }

  lemma FoundAllSplits(data: Bytes, depth: nat, index: nat, count: nat, refs: seq<OffsetTree>, n: nat)
    returns (o: OffsetTree, m: nat, others: seq<OffsetTree>, k: nat)
    requires depth <= MAX_REFERENCE_DEPTH + 1 && index < count && FoundAll(data, depth, index, count) == Some((refs, n))
    ensures Found(data, depth) == Some((o, m)) && m <= |data|
    ensures FoundAll(data[m..], depth, index + 1, count) == Some((others, k)) && k <= |data| - m
    ensures refs == [o] + others && n == m + k
  {
    var first := DecodeAt(data, depth).value;
    var later := DecodeRefs(data[first.1..], depth, index + 1, count).value;
    o, m, others, k := first.0, first.1, later.0, later.1;
  }

  lemma {:induction false} EncodeOfDecode(data: Bytes, depth: nat, o: OffsetTree, n: nat)
    requires Found(data, depth) == Some((o, n))
    ensures n <= |data| && Encode(o) == data[..n] && n == EncodedLen(o) && Narrow(o) && depth + Height(o) <= MAX_REFERENCE_DEPTH
    decreases MAX_REFERENCE_DEPTH + 1 - depth, 0
  {
    var refs, m := FoundSplits(data, depth, o, n);
    EncodeOfDecodeRefs(data[SIZE..], depth + 1, 0, data[173], refs, m);
    WriteNode(data, refs);
    EncodeSplits(o, []);
    assert Encode(o) + [] == Encode(o) && EncodeAll(refs) + [] == EncodeAll(refs);
    TakeOfDrop(data, SIZE, m);
  }

  lemma TakeOfDrop(data: Bytes, n: nat, m: nat)
    requires n + m <= |data|
    ensures data[..n + m] == data[..n] + data[n..][..m]
  {
  }

  lemma {:induction false} EncodeOfDecodeRefs(data: Bytes, depth: nat, index: nat, count: nat, refs: seq<OffsetTree>, n: nat)
    requires 1 <= depth <= MAX_REFERENCE_DEPTH + 1 && index <= count
    requires FoundAll(data, depth, index, count) == Some((refs, n))
    ensures |refs| == count - index && n <= |data| && EncodeAll(refs) == data[..n] && n == EncodedLenAll(refs)
    ensures AllNarrow(refs) && (refs == [] || depth + MaxHeight(refs) <= MAX_REFERENCE_DEPTH)
    decreases MAX_REFERENCE_DEPTH + 1 - depth, 1 + count - index
  {
    if index < count {
      var o, m, others, k := FoundAllSplits(data, depth, index, count, refs, n);
      EncodeOfDecode(data, depth, o, m);
      EncodeOfDecodeRefs(data[m..], depth, index + 1, count, others, k);
      EncodeAllCons(o, others, refs, []);
      TakeOfDrop(data, m, k);
      FitTogether(o, others, refs, depth);
    }
  }

  lemma FitTogether(o: OffsetTree, others: seq<OffsetTree>, refs: seq<OffsetTree>, depth: nat)
    requires refs == [o] + others && Narrow(o) && AllNarrow(others) && depth + Height(o) <= MAX_REFERENCE_DEPTH
    requires others == [] || depth + MaxHeight(others) <= MAX_REFERENCE_DEPTH
    ensures AllNarrow(refs) && depth + MaxHeight(refs) <= MAX_REFERENCE_DEPTH
  {
    assert refs[0] == o && refs[1..] == others;
  }

  // Encodings of narrow trees form a prefix-free code.

  lemma SplitFront(a: Bytes, x: Bytes, b: Bytes, y: Bytes)
    requires a + x == b + y && |a| == |b|
    ensures a == b && x == y
  {
    assert a == (a + x)[..|a|] && b == (b + y)[..|b|];
    assert x == (a + x)[|a|..] && y == (b + y)[|b|..];
  }

  /** Two nodes with the same bytes agree in everything but their references, whose counts agree modulo 256. */
  lemma NodesFromBytes(a: OffsetTree, b: OffsetTree)
    requires NodeBytes(a) == NodeBytes(b)
    ensures a.(references := []) == b.(references := [])
    ensures |a.references| % 256 == |b.references| % 256
  {
    ReadNode(a, []);
    ReadNode(b, []);
  }

  lemma {:induction false} EncodePrefixFree(a: OffsetTree, x: Bytes, b: OffsetTree, y: Bytes)
    requires Narrow(a) && Narrow(b) && Encode(a) + x == Encode(b) + y
    ensures a == b && x == y
    decreases a, 1
  {
    EncodeSplits(a, x);
    EncodeSplits(b, y);
    SplitFront(NodeBytes(a), EncodeAll(a.references) + x, NodeBytes(b), EncodeAll(b.references) + y);
    NodesFromBytes(a, b);
    EncodeAllPrefixFree(a.references, x, b.references, y);
    assert a == a.(references := []).(references := b.references) == b;
  }

  lemma {:induction false} EncodeAllPrefixFree(a: seq<OffsetTree>, x: Bytes, b: seq<OffsetTree>, y: Bytes)
    requires AllNarrow(a) && AllNarrow(b) && |a| == |b| && EncodeAll(a) + x == EncodeAll(b) + y
    ensures a == b && x == y
    decreases a, 0
  {
    if a != [] {
      Associative(Encode(a[0]), EncodeAll(a[1..]), x);
      Associative(Encode(b[0]), EncodeAll(b[1..]), y);
      EncodePrefixFree(a[0], EncodeAll(a[1..]) + x, b[0], EncodeAll(b[1..]) + y);
      EncodeAllPrefixFree(a[1..], x, b[1..], y);
      assert a == [a[0]] + a[1..] && b == [b[0]] + b[1..];
    } else {
      assert [] + x == x && [] + y == y;
    }
  }

  // The two main results.

  /** Marshalling then unmarshalling gives the tree back exactly when the limits admit it. */
  lemma UnmarshalOfMarshal(o: OffsetTree)
    ensures Decodable(o) ==> Decode(Encode(o)) == Ok(o)
    ensures !Decodable(o) ==> Decode(Encode(o)).Err?
  {
    assert Encode(o) + [] == Encode(o);
    if Decodable(o) {
      FewReferencesAreNarrow(o);
      LengthOfEncoding(o);
      DecodeOfEncode(o, [], 0);
    } else if Decode(Encode(o)).Ok? {
      AcceptedOnlyIfDecodable(o);
    }
  }

  /** Accepting consumes every byte, hence finds as many nodes as `o` has, hence finds `o`. */
  lemma AcceptedOnlyIfDecodable(o: OffsetTree)
    requires Decode(Encode(o)).Ok?
    ensures Decodable(o)
  {
    var p := Decode(Encode(o)).value;
    MarshalOfUnmarshal(Encode(o));
    LengthOfEncoding(o);
    assert CountReferences(o) == CountReferences(p);
    FewReferencesAreNarrow(o);
    FewReferencesAreNarrow(p);
    EncodePrefixFree(o, [], p, []);
  }

  /** Every accepted byte string is the marshalled form of what it decodes to. */
  lemma MarshalOfUnmarshal(data: Bytes)
    requires Decode(data).Ok?
    ensures Encode(Decode(data).value) == data
    ensures Decodable(Decode(data).value)
    ensures |data| == EncodedLen(Decode(data).value) == SIZE * (1 + CountReferences(Decode(data).value))
  {
    EncodeOfDecode(data, 0, Decode(data).value, |data|);
    LengthOfEncoding(Decode(data).value);
    assert data[..|data|] == data;
  }

  /** What height counts: a leaf has none, and any other tree one more than its highest reference. */
  lemma HeightIff(o: OffsetTree, n: nat)
    ensures Height(o) == 0 <==> o.references == []
    ensures Height(o) <= n + 1 <==> forall i | 0 <= i < |o.references| :: Height(o.references[i]) <= n
  {
    MaxHeightIff(o.references, n);
  }

  lemma {:induction false} MaxHeightIff(refs: seq<OffsetTree>, n: nat)
    ensures MaxHeight(refs) <= n <==> forall i | 0 <= i < |refs| :: Height(refs[i]) <= n
  {
    if refs != [] {
      var rest := refs[1..];
      MaxHeightIff(rest, n);
      assert forall i | 0 < i < |refs| :: refs[i] == rest[i - 1];
    }
  }
}
