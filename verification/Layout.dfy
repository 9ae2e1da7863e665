/**
 Fixed record layouts: a record is its fields one after another, and it is read
 back by cutting the bytes at the field widths.
 */
module Layout {
  import opened ByteCodec

  function Sum(widths: seq<nat>): nat {
    if widths == [] then 0 else widths[0] + Sum(widths[1..])
  }

  function Concat(fields: seq<Bytes>): Bytes {
    if fields == [] then [] else fields[0] + Concat(fields[1..])
  }

  function Cut(data: Bytes, widths: seq<nat>): (fields: seq<Bytes>)
    requires Sum(widths) <= |data|
    ensures |fields| == |widths|
    ensures forall k | 0 <= k < |widths| :: |fields[k]| == widths[k]
  {
    if widths == [] then [] else [data[..widths[0]]] + Cut(data[widths[0]..], widths[1..])
  }

  ghost predicate HasWidths(fields: seq<Bytes>, widths: seq<nat>) {
    |fields| == |widths| && forall k | 0 <= k < |widths| :: |fields[k]| == widths[k]
  }

  lemma {:induction false} ConcatLength(fields: seq<Bytes>, widths: seq<nat>)
    requires HasWidths(fields, widths)
    ensures |Concat(fields)| == Sum(widths)
  {
    if fields != [] {
      ConcatLength(fields[1..], widths[1..]);
    }
  }

  lemma TakeAndDrop(a: Bytes, b: Bytes)
    ensures (a + b)[..|a|] == a && (a + b)[|a|..] == b
  {
  }

  /** Cutting a record gives its fields back, whatever follows it. */
  lemma {:induction false} CutOfConcat(fields: seq<Bytes>, widths: seq<nat>, rest: Bytes)
    requires HasWidths(fields, widths)
    ensures |Concat(fields)| == Sum(widths)
    ensures Cut(Concat(fields) + rest, widths) == fields
  {
    ConcatLength(fields, widths);
    if fields != [] {
      var tail := Concat(fields[1..]) + rest;
      CutOfConcat(fields[1..], widths[1..], rest);
      assert Concat(fields) + rest == fields[0] + tail;
      TakeAndDrop(fields[0], tail);
      assert fields == [fields[0]] + fields[1..];
    }
  }

  /** The fields cut from a record concatenate to the record. */
  lemma {:induction false} ConcatOfCut(data: Bytes, widths: seq<nat>)
    requires Sum(widths) <= |data|
    ensures Concat(Cut(data, widths)) == data[..Sum(widths)]
  {
    if widths != [] {
      ConcatOfCut(data[widths[0]..], widths[1..]);
      var fields := Cut(data, widths);
      assert fields[1..] == Cut(data[widths[0]..], widths[1..]);
      assert data[..Sum(widths)] == data[..widths[0]] + data[widths[0]..][..Sum(widths[1..])];
    }
  }

  /** Where field `k` starts. */
  function Start(widths: seq<nat>, k: nat): nat
    requires k <= |widths|
  {
    if k == 0 then 0 else Start(widths, k - 1) + widths[k - 1]
  }

  lemma {:induction false} StartShift(widths: seq<nat>, k: nat)
    requires 0 < k <= |widths|
    ensures Start(widths, k) == widths[0] + Start(widths[1..], k - 1)
  {
    if k > 1 {
      StartShift(widths, k - 1);
    }
  }

  lemma {:induction false} StartOfEnd(widths: seq<nat>)
    ensures Start(widths, |widths|) == Sum(widths)
  {
    if widths != [] {
      StartShift(widths, |widths|);
      StartOfEnd(widths[1..]);
    }
  }

  lemma CutOfLater(data: Bytes, widths: seq<nat>, k: nat)
    requires Sum(widths) <= |data| && 0 < k < |widths|
    ensures Sum(widths[1..]) <= |data[widths[0]..]| && widths[1..][k - 1] == widths[k]
    ensures Cut(data, widths)[k] == Cut(data[widths[0]..], widths[1..])[k - 1]
  {
  }

  lemma {:induction false} FieldBetween(data: Bytes, widths: seq<nat>, k: nat, from: nat, to: nat, field: Bytes)
    requires Sum(widths) <= |data| && k < |widths| && from == Start(widths, k) && to == from + widths[k]
    requires field == Cut(data, widths)[k]
    ensures to <= |data| && field == data[from..to]
    decreases k
  {
    if k > 0 {
      var w := widths[0];
      StartShift(widths, k);
      CutOfLater(data, widths, k);
      FieldBetween(data[w..], widths[1..], k - 1, from - w, to - w, field);
      SliceOfDrop(data, w, from - w, to - w, from, to);
    }
  }

  /** Field `k` is the slice of the record at `k`'s position. */
  lemma FieldAt(data: Bytes, widths: seq<nat>, k: nat)
    requires Sum(widths) <= |data| && k < |widths|
    ensures Start(widths, k) + widths[k] <= |data|
    ensures Cut(data, widths)[k] == data[Start(widths, k)..Start(widths, k) + widths[k]]
  {
    FieldBetween(data, widths, k, Start(widths, k), Start(widths, k) + widths[k], Cut(data, widths)[k]);
  }

  lemma SliceOfDrop(data: Bytes, w: nat, lo: nat, hi: nat, from: nat, to: nat)
    requires w <= |data| && lo <= hi <= |data| - w && from == w + lo && to == w + hi
    ensures data[w..][lo..hi] == data[from..to]
  {
  }

  /** Cutting looks only at the bytes the widths span. */
  lemma {:induction false} CutOfPrefix(data: Bytes, widths: seq<nat>, n: nat)
    requires Sum(widths) <= n <= |data|
    ensures Cut(data[..n], widths) == Cut(data, widths)
  {
    if widths != [] {
      var w := widths[0];
      CutOfPrefix(data[w..], widths[1..], n - w);
      assert data[..n][w..] == data[w..][..n - w];
      assert data[..n][..w] == data[..w];
    }
  }

  /** Cutting at more widths starts with the same fields. */
  lemma {:induction false} CutOfAppend(data: Bytes, a: seq<nat>, b: seq<nat>)
    requires Sum(a + b) <= |data|
    ensures Sum(a) <= Sum(a + b)
    ensures Cut(data, a + b)[..|a|] == Cut(data, a)
  {
    if a != [] {
      assert (a + b)[1..] == a[1..] + b;
      CutOfAppend(data[a[0]..], a[1..], b);
    }
  }

  /** The bytes of `prefix` and then the first `k` fields, appended one at a time. */
  function AppendFields(prefix: Bytes, fields: seq<Bytes>, k: nat): Bytes
    requires k <= |fields|
    decreases k
  {
    if k == 0 then prefix else AppendFields(prefix, fields, k - 1) + fields[k - 1]
  }

  lemma {:induction false} AppendedFields(prefix: Bytes, fields: seq<Bytes>, k: nat)
    requires k <= |fields|
    ensures AppendFields(prefix, fields, k) + Concat(fields[k..]) == prefix + Concat(fields)
  {
    if k == 0 {
      assert fields[0..] == fields;
    } else {
      AppendedFields(prefix, fields, k - 1);
      assert fields[k - 1..][1..] == fields[k..];
      assert AppendFields(prefix, fields, k - 1) + (fields[k - 1] + Concat(fields[k..]))
          == AppendFields(prefix, fields, k) + Concat(fields[k..]);
    }
  }
}
