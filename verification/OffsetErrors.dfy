/** Why bytes are no offset: each error of the decoder, and exactly when it is returned. */
module OffsetErrors {
  import opened Wrappers
  import opened ByteCodec
  import opened OffsetFormat
  import opened OffsetCodec

  /** The data begins with a tree that fits at this depth. */
  ghost predicate Begins(data: Bytes, depth: nat, o: OffsetTree) {
    Narrow(o) && depth + Height(o) <= 2 && Encode(o) <= data
  }

  /** Decoding finds exactly the tree that the data begins with. */
  lemma DecodesIff(data: Bytes, depth: nat, o: OffsetTree)
    ensures Found(data, depth) == Some((o, |Encode(o)|)) <==> Begins(data, depth, o)
    ensures DecodeAt(data, depth).Ok? && DecodeAt(data, depth).value.0 == o <==> Begins(data, depth, o)
  {
    LengthOfEncoding(o);
    if Begins(data, depth, o) {
      var n := |Encode(o)|;
      DecodeOfEncode(o, data[n..], depth);
      assert data == Encode(o) + data[n..];
    }
    if Found(data, depth).Some? {
      var found := Found(data, depth).value;
      EncodeOfDecode(data, depth, found.0, found.1);
    }
  }

  /** So there is at most one. */
  lemma OnlyBeginning(data: Bytes, depth: nat)
    ensures forall o :: Begins(data, depth, o) <==> DecodeAt(data, depth).Ok? && DecodeAt(data, depth).value.0 == o
    ensures DecodeAt(data, depth).Ok? ==> DecodeAt(data, depth).value.1 == |Encode(DecodeAt(data, depth).value.0)|
  {
    forall o
      ensures Begins(data, depth, o) <==> DecodeAt(data, depth).Ok? && DecodeAt(data, depth).value.0 == o
    {
      DecodesIff(data, depth, o);
    }
    if DecodeAt(data, depth).Ok? {
      DecodesIff(data, depth, DecodeAt(data, depth).value.0);
    }
  }

  // References.

  /** After `n` references that decode, the next fails with `e`. */
  ghost predicate FailsAfter(data: Bytes, depth: nat, n: nat, e: DecodeError)
    decreases n
  {
    if n == 0 then DecodeAt(data, depth) == Err(e)
    else exists o :: Begins(data, depth, o) && FailsAfter(data[|Encode(o)|..], depth, n - 1, e)
  }

  lemma FailsLater(data: Bytes, depth: nat, n: nat, e: DecodeError)
    requires n > 0
    ensures FailsAfter(data, depth, n, e)
       <==> DecodeAt(data, depth).Ok? && FailsAfter(data[DecodeAt(data, depth).value.1..], depth, n - 1, e)
  {
    OnlyBeginning(data, depth);
    if DecodeAt(data, depth).Ok? {
      assert Begins(data, depth, DecodeAt(data, depth).value.0);
    }
  }

  /** Reading references fails at the first, or after it. */
  lemma RefsFailStep(data: Bytes, depth: nat, index: nat, count: nat, e: DecodeError)
    requires depth <= 3 && index < count
    ensures DecodeAt(data, depth).Err? ==>
              (DecodeRefs(data, depth, index, count) == Err(e) <==> e == InReference(index, DecodeAt(data, depth).error))
    ensures DecodeAt(data, depth).Ok? ==>
              var rest := data[DecodeAt(data, depth).value.1..];
              DecodeRefs(data, depth, index, count) == Err(e) <==> DecodeRefs(rest, depth, index + 1, count) == Err(e)
  {
  }

  /** The error names the reference that fails: those before it decode, one after another. */
  ghost predicate RefsFail(data: Bytes, depth: nat, index: nat, count: nat, e: DecodeError) {
    e.InReference? && index <= e.index < count && FailsAfter(data, depth, e.index - index, e.cause)
  }

  lemma RefsFailNext(data: Bytes, depth: nat, index: nat, count: nat, e: DecodeError)
    requires index < count && DecodeAt(data, depth).Ok?
    ensures RefsFail(data, depth, index, count, e)
       <==> RefsFail(data[DecodeAt(data, depth).value.1..], depth, index + 1, count, e)
  {
    if e.InReference? && e.index > index {
      FailsLater(data, depth, e.index - index, e.cause);
    }
  }

  lemma RefsFailFirst(data: Bytes, depth: nat, index: nat, count: nat, e: DecodeError)
    requires index < count && DecodeAt(data, depth).Err?
    ensures RefsFail(data, depth, index, count, e) <==> e == InReference(index, DecodeAt(data, depth).error)
  {
    if e.InReference? && e.index > index {
      FailsLater(data, depth, e.index - index, e.cause);
    }
  }

  lemma {:induction false} ReferencesFailIff(data: Bytes, depth: nat, index: nat, count: nat, e: DecodeError)
    requires depth <= 3 && index <= count
    ensures DecodeRefs(data, depth, index, count) == Err(e) <==> RefsFail(data, depth, index, count, e)
    decreases count - index
  {
    if index < count {
      RefsFailStep(data, depth, index, count, e);
      if DecodeAt(data, depth).Ok? {
        RefsFailNext(data, depth, index, count, e);
        ReferencesFailIff(data[DecodeAt(data, depth).value.1..], depth, index + 1, count, e);
      } else {
        RefsFailFirst(data, depth, index, count, e);
      }
    }
  }

  // Whole offsets.

  /** Decoding one offset fails for its depth, its size, its version, or the first of its references that fails. */
  lemma DecodeAtFailsIff(data: Bytes, depth: nat, e: DecodeError)
    ensures DecodeAt(data, depth) == Err(e)
       <==> if depth > 2 then e == DepthExceeded(depth)
            else if |data| < 174 then e == ShortBuffer
            else if data[64] != 1 then e == BadVersion(data[64])
            else RefsFail(data[174..], depth + 1, 0, data[173], e)
  {
    if depth <= 2 && |data| >= 174 && data[64] == 1 {
      ReferencesFailIff(data[174..], depth + 1, 0, data[173], e);
      assert DecodeAt(data, depth) == DecodeNode(data, depth);
    }
  }

  /** A tree that can be decoded is refused for its number of nodes, or for the bytes left over. */
  ghost predicate Refused(data: Bytes, o: OffsetTree, e: DecodeError) {
    if CountReferences(o) > 5 then e == TooManyReferences(CountReferences(o))
    else |Encode(o)| < |data| && e == TrailingBytes(|data| - |Encode(o)|)
  }

  lemma DecodedButRefused(data: Bytes, o: OffsetTree, n: nat, e: DecodeError)
    requires DecodeAt(data, 0) == Ok((o, n)) && n == |Encode(o)|
    ensures Decode(data) == Err(e) <==> Refused(data, o, e)
  {
  }

  /**
   `Unmarshal` fails exactly when no offset can be decoded from the front, when the one that can has more than
   five nodes below its root, or when bytes are left over; and the error says which, with the numbers.
   */
  lemma DecodeFailsIff(data: Bytes, e: DecodeError)
    ensures Decode(data) == Err(e) <==> DecodeAt(data, 0) == Err(e) || exists o :: Begins(data, 0, o) && Refused(data, o, e)
  {
    OnlyBeginning(data, 0);
    if DecodeAt(data, 0).Ok? {
      var (o, n) := DecodeAt(data, 0).value;
      DecodedButRefused(data, o, n, e);
      assert Begins(data, 0, o);
    }
  }
}
