/**
 What an offset's signature binds.  The signed bytes determine the tree, up to
 the root's own signature, as long as no reference list overflows its one-byte
 count; and checking a chain checks every node of it.
 */
module OffsetSignatures {
  import opened Wrappers
  import opened ByteCodec
  import opened Signing
  import opened OffsetFormat
  import opened OffsetCodec

  datatype ChainError = BadSignature | BadReference(index: nat, cause: ChainError)

  // Counting the references a byte string announces.

  /** The sum of the reference-count bytes of consecutive nodes. */
  function AnnouncedIn(data: Bytes): nat {
    if |data| < SIZE then 0 else data[173] + AnnouncedIn(data[SIZE..])
  }

  function Announced(o: OffsetTree): nat
    decreases o, 1
  {
    |o.references| % 256 + AnnouncedBelow(o.references)
  }

  function AnnouncedBelow(refs: seq<OffsetTree>): nat
    decreases refs, 0
  {
    if refs == [] then 0 else Announced(refs[0]) + AnnouncedBelow(refs[1..])
  }

  lemma {:induction false} AnnouncedInEncoding(o: OffsetTree, rest: Bytes)
    ensures AnnouncedIn(Encode(o) + rest) == Announced(o) + AnnouncedIn(rest)
    decreases o, 1
  {
    var tail := EncodeAll(o.references) + rest;
    EncodeSplits(o, rest);
    ReadNode(o, []);
    assert (NodeBytes(o) + tail)[SIZE..] == tail;
    AnnouncedInEncodings(o.references, rest);
  }

  lemma {:induction false} AnnouncedInEncodings(refs: seq<OffsetTree>, rest: Bytes)
    ensures AnnouncedIn(EncodeAll(refs) + rest) == AnnouncedBelow(refs) + AnnouncedIn(rest)
    decreases refs, 0
  {
    if refs == [] {
      assert EncodeAll(refs) + rest == rest;
    } else {
      Associative(Encode(refs[0]), EncodeAll(refs[1..]), rest);
      AnnouncedInEncoding(refs[0], EncodeAll(refs[1..]) + rest);
      AnnouncedInEncodings(refs[1..], rest);
    }
  }

  /** A tree announces all its references exactly when it is narrow. */
  lemma {:induction false} NarrowIffAllAnnounced(o: OffsetTree)
    ensures Announced(o) <= CountReferences(o)
    ensures Announced(o) == CountReferences(o) <==> Narrow(o)
    decreases o, 1
  {
    NarrowIffAllAnnouncedBelow(o.references);
  }

  lemma {:induction false} NarrowIffAllAnnouncedBelow(refs: seq<OffsetTree>)
    ensures AnnouncedBelow(refs) <= CountBelow(refs)
    ensures AnnouncedBelow(refs) == CountBelow(refs) <==> AllNarrow(refs)
    decreases refs, 0
  {
    if refs != [] {
      NarrowIffAllAnnounced(refs[0]);
      NarrowIffAllAnnouncedBelow(refs[1..]);
    }
  }

  // What the signed bytes determine.

  lemma SigningBytesIgnoreSignature(o: OffsetTree, signature: Signature)
    ensures SigningBytes(o.(signature := signature)) == SigningBytes(o)
  {
  }

  /** Signed bytes of narrow trees are a prefix-free code, up to the root's signature. */
  lemma SigningBytesPrefixFree(a: OffsetTree, x: Bytes, b: OffsetTree, y: Bytes)
    requires Narrow(a) && Narrow(b) && SigningBytes(a) + x == SigningBytes(b) + y
    ensures a.(signature := b.signature) == b && x == y
  {
    var c := a.(signature := b.signature);
    SigningBytesIgnoreSignature(a, b.signature);
    Associative(b.signature, SigningBytes(a), x);
    Associative(b.signature, SigningBytes(b), y);
    assert Encode(c) + x == Encode(b) + y;
    EncodePrefixFree(c, x, b, y);
  }

  /** The signed bytes of a narrow tree determine it among all trees, wide ones included. */
  lemma SigningBytesDetermineTree(a: OffsetTree, b: OffsetTree)
    requires Narrow(a) && SigningBytes(a) == SigningBytes(b)
    ensures a.(signature := b.signature) == b
  {
    var c := a.(signature := b.signature);
    SigningBytesIgnoreSignature(a, b.signature);
    assert Encode(c) == Encode(b);
    LengthOfEncoding(c);
    LengthOfEncoding(b);
    AnnouncedInEncoding(c, []);
    AnnouncedInEncoding(b, []);
    NarrowIffAllAnnounced(c);
    NarrowIffAllAnnounced(b);
    assert SigningBytes(a) + [] == SigningBytes(b) + [];
    SigningBytesPrefixFree(a, [], b, []);
  }

  function Copies(o: OffsetTree, n: nat): seq<OffsetTree> {
    seq(n, _ => o)
  }

  /**
   Trees of different heights collide: a root with one reference that has 256 of
   its own is signed over the same bytes as a root with those 257 side by side,
   because both counts wrap.
   */
  lemma WideTreesCollide(root: OffsetTree, leaf: OffsetTree)
    requires leaf.references == []
    ensures var a := root.(references := [leaf.(references := Copies(leaf, 256))]);
            var b := root.(references := Copies(leaf, 257));
            a != b && SigningBytes(a) == SigningBytes(b)
  {
    var wide := leaf.(references := Copies(leaf, 256));
    var a, b := root.(references := [wide]), root.(references := Copies(leaf, 257));
    assert |a.references| != |b.references|;
    assert SignedFields(a) == SignedFields(b);
    assert SignedFields(wide) == SignedFields(leaf);
    EncodeSplits(wide, []);
    EncodeSplits(leaf, []);
    assert Copies(leaf, 257)[1..] == Copies(leaf, 256);
    assert NodeBytes(leaf) == NodeBytes(wide) == Encode(leaf) by {
      assert EncodeAll([]) + [] == [];
    }
    calc {
      EncodeAll(a.references);
      Encode(wide) + EncodeAll([]);
      { assert Encode(wide) + [] == Encode(wide) && EncodeAll(wide.references) + [] == EncodeAll(wide.references); }
      NodeBytes(wide) + EncodeAll(Copies(leaf, 256));
      EncodeAll(b.references);
    }
  }

  /** No node of the tree has more than `n` references. */
  predicate AtMost(o: OffsetTree, n: nat)
    decreases o, 1
  {
    |o.references| <= n && AllAtMost(o.references, n)
  }

  predicate AllAtMost(refs: seq<OffsetTree>, n: nat)
    decreases refs, 0
  {
    refs == [] || (AtMost(refs[0], n) && AllAtMost(refs[1..], n))
  }

  lemma {:induction false} AtMostIsNarrow(o: OffsetTree, n: nat)
    requires AtMost(o, n) && n <= 255
    ensures Narrow(o)
    decreases o, 1
  {
    AllAtMostAreNarrow(o.references, n);
  }

  lemma {:induction false} AllAtMostAreNarrow(refs: seq<OffsetTree>, n: nat)
    requires AllAtMost(refs, n) && n <= 255
    ensures AllNarrow(refs)
    decreases refs, 0
  {
    if refs != [] {
      AtMostIsNarrow(refs[0], n);
      AllAtMostAreNarrow(refs[1..], n);
    }
  }

  lemma {:induction false} CopiesAreAtMost(leaf: OffsetTree, count: nat, n: nat)
    requires leaf.references == []
    ensures AllAtMost(Copies(leaf, count), n)
  {
    if count > 0 {
      assert Copies(leaf, count)[1..] == Copies(leaf, count - 1);
      CopiesAreAtMost(leaf, count - 1, n);
    }
  }

  /** A leaf with 256 copies of itself below it: its own bytes are a leaf's, for its count wraps to zero. */
  function Wide(leaf: OffsetTree): OffsetTree {
    leaf.(references := Copies(leaf, 256))
  }

  lemma EncodeOfWide(leaf: OffsetTree)
    requires leaf.references == []
    ensures Encode(Wide(leaf)) == Encode(leaf) + EncodeAll(Copies(leaf, 256))
  {
    var copies := EncodeAll(Copies(leaf, 256));
    EncodeSplits(Wide(leaf), []);
    EncodeSplits(leaf, []);
    assert SignedFields(Wide(leaf)) == SignedFields(leaf);
    assert Encode(leaf) + [] == Encode(leaf) && NodeBytes(leaf) + ([] + []) == NodeBytes(leaf);
    assert Encode(Wide(leaf)) + [] == Encode(Wide(leaf)) && copies + [] == copies;
  }

  /** One copy more in front is one copy more behind. */
  lemma {:induction false} CopiesCommute(leaf: OffsetTree, count: nat)
    ensures Encode(leaf) + EncodeAll(Copies(leaf, count)) == EncodeAll(Copies(leaf, count)) + Encode(leaf)
  {
    if count == 0 {
      assert Encode(leaf) + [] == [] + Encode(leaf);
    } else {
      assert Copies(leaf, count)[1..] == Copies(leaf, count - 1);
      CopiesCommute(leaf, count - 1);
      Associative(Encode(leaf), EncodeAll(Copies(leaf, count - 1)), Encode(leaf));
    }
  }

  /** At 256 references a node two trees already collide: a wide node and a leaf can change places. */
  lemma WideAndLeafSwap(root: OffsetTree, leaf: OffsetTree)
    requires leaf.references == []
    ensures var a := root.(references := [Wide(leaf), leaf]);
            var b := root.(references := [leaf, Wide(leaf)]);
            a.references != b.references && SigningBytes(a) == SigningBytes(b) && AtMost(a, 256) && AtMost(b, 256)
  {
    var a, b := root.(references := [Wide(leaf), leaf]), root.(references := [leaf, Wide(leaf)]);
    EncodePair(Wide(leaf), leaf);
    EncodePair(leaf, Wide(leaf));
    EncodeOfWide(leaf);
    CopiesCommute(leaf, 256);
    Associative(Encode(leaf), EncodeAll(Copies(leaf, 256)), Encode(leaf));
    assert SignedFields(a) == SignedFields(b);
    CopiesAreAtMost(leaf, 256, 256);
    assert |Wide(leaf).references| == 256;
    PairIsAtMost(Wide(leaf), leaf, 256);
    PairIsAtMost(leaf, Wide(leaf), 256);
  }

  lemma EncodePair(x: OffsetTree, y: OffsetTree)
    ensures EncodeAll([x, y]) == Encode(x) + Encode(y)
  {
    assert [x, y][1..] == [y] && [y][1..] == [];
    assert EncodeAll([y]) == Encode(y) + [] == Encode(y);
  }

  lemma PairIsAtMost(x: OffsetTree, y: OffsetTree, n: nat)
    requires AtMost(x, n) && AtMost(y, n)
    ensures AllAtMost([x, y], n)
  {
    assert [x, y][1..] == [y] && [y][1..] == [];
  }

  lemma {:induction false} AtMostGrows(o: OffsetTree, n: nat, m: nat)
    requires AtMost(o, n) && n <= m
    ensures AtMost(o, m)
    decreases o, 1
  {
    AllAtMostGrows(o.references, n, m);
  }

  lemma {:induction false} AllAtMostGrows(refs: seq<OffsetTree>, n: nat, m: nat)
    requires AllAtMost(refs, n) && n <= m
    ensures AllAtMost(refs, m)
    decreases refs, 0
  {
    if refs != [] {
      AtMostGrows(refs[0], n, m);
      AllAtMostGrows(refs[1..], n, m);
    }
  }

  ghost predicate SignedAlike(a: OffsetTree, b: OffsetTree) {
    SigningBytes(a) == SigningBytes(b)
  }

  /**
   The exact width: signed bytes determine every tree, up to the root's signature, among those with at most
   `n` references a node if and only if `n` is at most 255.
   */
  lemma SigningBytesDetermineTreesIff(n: nat)
    ensures n <= 255
       <==> forall a, b | AtMost(a, n) && AtMost(b, n) && SignedAlike(a, b) :: a.(signature := b.signature) == b
  {
    if n <= 255 {
      forall a, b | AtMost(a, n) && AtMost(b, n) && SignedAlike(a, b)
        ensures a.(signature := b.signature) == b
      {
        AtMostIsNarrow(a, n);
        SigningBytesDetermineTree(a, b);
      }
    } else {
      var leaf := OffsetTree(Zeros(64), Zeros(32), Zeros(32), 0, 0, 0, 0, 0, Zeros(4), []);
      var a, b := leaf.(references := [Wide(leaf), leaf]), leaf.(references := [leaf, Wide(leaf)]);
      WideAndLeafSwap(leaf, leaf);
      AtMostGrows(a, 256, n);
      AtMostGrows(b, 256, n);
      assert SignedAlike(a, b);
    }
  }

  // Checking a chain.

  predicate Verified(verify: Verifier, o: OffsetTree) {
    verify(o.authorityPubkey, SigningBytes(o), o.signature)
  }

  /** The first bad signature of a chain, root first, if there is one. */
  function CheckChain(verify: Verifier, o: OffsetTree): Option<ChainError>
    decreases o, 1
  {
    if !Verified(verify, o) then Some(BadSignature) else ReferencesError(verify, o.references, 0)
  }

  function ReferencesError(verify: Verifier, refs: seq<OffsetTree>, index: nat): Option<ChainError>
    decreases refs, 0
  {
    if refs == [] then None
    else
      match CheckChain(verify, refs[0])
      case Some(e) => Some(BadReference(index, e))
      case None => ReferencesError(verify, refs[1..], index + 1)
  }

  predicate InTree(n: OffsetTree, o: OffsetTree)
    decreases o, 1
  {
    n == o || InForest(n, o.references)
  }

  predicate InForest(n: OffsetTree, refs: seq<OffsetTree>)
    decreases refs, 0
  {
    refs != [] && (InTree(n, refs[0]) || InForest(n, refs[1..]))
  }

  /** A chain passes exactly when every node's own signature verifies. */
  lemma {:induction false} ChainPassesIffAllVerify(verify: Verifier, o: OffsetTree)
    ensures CheckChain(verify, o).None? <==> forall n | InTree(n, o) :: Verified(verify, n)
    decreases o, 1
  {
    ReferencesPassIffAllVerify(verify, o.references, 0);
    assert InTree(o, o);
    assert forall n :: InTree(n, o) <==> n == o || InForest(n, o.references);
  }

  lemma {:induction false} ReferencesPassIffAllVerify(verify: Verifier, refs: seq<OffsetTree>, index: nat)
    ensures ReferencesError(verify, refs, index).None? <==> forall n | InForest(n, refs) :: Verified(verify, n)
    decreases refs, 0
  {
    if refs != [] {
      ChainPassesIffAllVerify(verify, refs[0]);
      ReferencesPassIffAllVerify(verify, refs[1..], index + 1);
      assert forall n :: InForest(n, refs) <==> InTree(n, refs[0]) || InForest(n, refs[1..]);
    }
  }

  /** Which error a chain fails with: its own bad signature before any reference's, and the first bad reference's before a later one's. */
  lemma ChainErrorIff(verify: Verifier, o: OffsetTree, e: ChainError)
    ensures CheckChain(verify, o) == Some(e) <==>
              match e
              case BadSignature => !verify(o.authorityPubkey, SigningBytes(o), o.signature)
              case BadReference(i, cause) =>
                && verify(o.authorityPubkey, SigningBytes(o), o.signature)
                && i < |o.references| && CheckChain(verify, o.references[i]) == Some(cause)
                && forall x | 0 <= x < i :: CheckChain(verify, o.references[x]).None?
  {
    ReferencesErrorIff(verify, o.references, 0, e);
  }

  lemma {:induction false} ReferencesErrorIff(verify: Verifier, refs: seq<OffsetTree>, index: nat, e: ChainError)
    ensures ReferencesError(verify, refs, index) == Some(e)
       <==> && e.BadReference? && index <= e.index < index + |refs|
            && CheckChain(verify, refs[e.index - index]) == Some(e.cause)
            && forall x | 0 <= x < e.index - index :: CheckChain(verify, refs[x]).None?
    decreases |refs|
  {
    if refs != [] {
      var rest := refs[1..];
      ReferencesErrorIff(verify, rest, index + 1, e);
      assert forall x | 0 < x < |refs| :: refs[x] == rest[x - 1];
    }
  }

  /** Ideal signatures: `key`'s holder signed only the trees in `made`. */
  ghost predicate OnlySigned(verify: Verifier, key: Key, made: set<OffsetTree>) {
    forall m: Bytes, s: Bytes | verify(key, m, s) :: exists t | t in made :: m == SigningBytes(t)
  }

  /**
   Tamper evidence: in a chain that passes, every node claiming an honest key is,
   with its whole subtree, one its holder made; only the node's own signature may differ.
   */
  lemma PassingChainIsGenuine(verify: Verifier, key: Key, made: set<OffsetTree>, o: OffsetTree, n: OffsetTree)
    requires OnlySigned(verify, key, made)
    requires forall t | t in made :: Narrow(t)
    requires CheckChain(verify, o).None? && InTree(n, o) && n.authorityPubkey == key
    ensures exists t | t in made :: t.(signature := n.signature) == n
  {
    ChainPassesIffAllVerify(verify, o);
    assert Verified(verify, n);
    var t :| t in made && SigningBytes(n) == SigningBytes(t);
    SigningBytesDetermineTree(t, n);
  }
}
