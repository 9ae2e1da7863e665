/**
 Packet steps that are not atomic.  The packet loop first looks its sender up in the allowlist and later
 loads or stores the sender's record, and a reload may delete both in between.
 */
module Straddling {
  import opened Wrappers
  import opened ByteCodec
  import opened Packet
  import opened Reflector
  import opened NonInterference
  import opened Reload

  /** A probe found authorised whose record is still to be worked on. */
  datatype Pending = Pending(probe: ProbePacket, from: SockAddr, now: Time, tx: Time, draw: Uint64)

  datatype Fine = Fine(state: State, pending: Option<Pending>)

  /** One map operation of a reload, one replacement of the offsets, or one half of a packet step. */
  datatype Step =
    | Apply(op: MapOp)
    | Publish(blobs: seq<Bytes>)
    | Check(received: Option<ProbePacket>, from: SockAddr, now: Time, tx: Time, draw: Uint64)
    | Work

  function Checked(s: State, step: Step): Option<Pending>
    requires step.Check?
  {
    match AuthorizedProbe(s, step.received)
    case None => None
    case Some(probe) => Some(Pending(probe, step.from, step.now, step.tx, step.draw))
  }

  function Take(cfg: Config, f: Fine, step: Step): Fine {
    match step
    case Apply(op) => f.(state := ApplyOp(f.state, op))
    case Publish(blobs) => f.(state := f.state.(offsets := blobs))
    case Check(_, _, _, _, _) => f.(pending := Checked(f.state, step))
    case Work =>
      match f.pending
      case None => f
      case Some(p) => Fine(AfterAuthorized(cfg, f.state, p.probe, p.from, p.now, p.tx, p.draw), None)
  }

  /** Undivided, the two halves are the packet step. */
  lemma CheckThenWork(cfg: Config, s: State, received: Option<ProbePacket>, from: SockAddr, now: Time, tx: Time, draw: Uint64)
    ensures Take(cfg, Take(cfg, Fine(s, None), Check(received, from, now, tx, draw)), Work)
         == Fine(Next(cfg, s, Receive(received, from, now, tx, draw)), None)
  {
  }

  datatype Course = Course(cfg: Config, start: Fine, steps: seq<Step>) {

    function At(n: nat): Fine
      requires n <= |steps|
      decreases n
    {
      if n == 0 then start else Take(cfg, At(n - 1), steps[n - 1])
    }

    /** The key whose record step `i` works on, if it works on one. */
    predicate WorksOn(i: nat, k: Key)
      requires i < |steps|
    {
      steps[i].Work? && PendingFor(At(i), k).Some?
    }
  }

  function PendingFor(f: Fine, k: Key): Option<Pending> {
    if f.pending.Some? && f.pending.value.probe.senderPubkey == k then f.pending else None
  }

  // When a sender has a record.

  ghost predicate KeptSince(c: Course, i: int, n: nat, k: Key)
    requires n <= |c.steps|
  {
    forall j | i < j < n && 0 <= j :: c.steps[j] != Apply(DeleteRecord(k))
  }

  /** Some step before `n` has worked on the record of `k`, and nothing has deleted it since. */
  ghost predicate WorkedOn(c: Course, n: nat, k: Key)
    requires n <= |c.steps|
  {
    exists i | 0 <= i < n :: c.WorksOn(i, k) && KeptSince(c, i, n, k)
  }

  lemma WorkedOnStep(c: Course, n: nat, k: Key)
    requires n < |c.steps|
    ensures WorkedOn(c, n + 1, k)
       <==> c.WorksOn(n, k) || (WorkedOn(c, n, k) && c.steps[n] != Apply(DeleteRecord(k)))
  {
    if WorkedOn(c, n + 1, k) {
      var i :| 0 <= i < n + 1 && c.WorksOn(i, k) && KeptSince(c, i, n + 1, k);
      if i < n {
        assert KeptSince(c, i, n, k);
      }
    }
    if WorkedOn(c, n, k) && c.steps[n] != Apply(DeleteRecord(k)) {
      var i :| 0 <= i < n && c.WorksOn(i, k) && KeptSince(c, i, n, k);
      assert KeptSince(c, i, n + 1, k);
    }
    if c.WorksOn(n, k) {
      assert KeptSince(c, n, n + 1, k);
    }
  }

  lemma RecordStep(cfg: Config, f: Fine, step: Step, k: Key)
    ensures k in Take(cfg, f, step).state.senders
       <==> (step.Work? && PendingFor(f, k).Some?) || (k in f.state.senders && step != Apply(DeleteRecord(k)))
  {
  }

  /**
   Whatever the interleaving, and over any number of reloads, a sender has a record exactly when a packet step
   has worked on it since it was last deleted.
   */
  lemma {:induction false} RecordIffWorkedOn(c: Course, n: nat, k: Key)
    requires n <= |c.steps| && c.start.state.senders == map[]
    ensures k in c.At(n).state.senders <==> WorkedOn(c, n, k)
  {
    if n > 0 {
      RecordIffWorkedOn(c, n - 1, k);
      WorkedOnStep(c, n - 1, k);
      RecordStep(c.cfg, c.At(n - 1), c.steps[n - 1], k);
    }
  }

  /** A key whose record was deleted, by whatever reload, has an empty one until a packet step works on it again. */
  lemma DeletedRecordStaysEmpty(c: Course, j: nat, n: nat, k: Key)
    requires j < n <= |c.steps| && c.start.state.senders == map[] && c.steps[j] == Apply(DeleteRecord(k))
    requires forall i | j < i < n :: !c.WorksOn(i, k)
    ensures SenderOf(c.At(n).state, k) == EmptySender()
  {
    RecordIffWorkedOn(c, n, k);
  }

  // How a record outlives its key.

  /**
   Step `i` works on the record of `k`.  Its sender was looked up at step `at`, and found authorised; no other
   packet step began or ended in between.
   */
  ghost predicate LookedUp(c: Course, at: int, i: nat, k: Key)
    requires i <= |c.steps|
  {
    && 0 <= at < i && c.steps[at].Check? && k in c.At(at).state.authorized
    && forall j | at < j < i :: !c.steps[j].Check? && !c.steps[j].Work?
  }

  lemma {:induction false} PendingWasLookedUp(c: Course, i: nat, k: Key) returns (at: nat)
    requires i <= |c.steps| && c.start.pending.None? && PendingFor(c.At(i), k).Some?
    ensures LookedUp(c, at, i, k)
  {
    if c.steps[i - 1].Check? {
      at := i - 1;
    } else {
      at := PendingWasLookedUp(c, i - 1, k);
    }
  }

  /** Only a `StoreKey` makes a key authorised again. */
  lemma {:induction false} UnauthorizedUntilStored(c: Course, j: nat, n: nat, k: Key)
    requires j <= n <= |c.steps| && k !in c.At(j).state.authorized
    requires forall i | j <= i < n :: c.steps[i] != Apply(StoreKey(k))
    ensures k !in c.At(n).state.authorized
    decreases n
  {
    if j < n {
      UnauthorizedUntilStored(c, j, n - 1, k);
    }
  }

  /**
   A packet step that works on a record after the key was deleted looked the key up before: the step straddles
   the deletion.
   */
  lemma LateWorkStraddles(c: Course, j: nat, i: nat, k: Key) returns (at: nat)
    requires j < i < |c.steps| && c.start.pending.None? && c.steps[j] == Apply(DeleteKey(k)) && c.WorksOn(i, k)
    requires forall x | j < x < i :: c.steps[x] != Apply(StoreKey(k))
    ensures at < j && LookedUp(c, at, i, k)
  {
    at := PendingWasLookedUp(c, i, k);
    if at > j {
      UnauthorizedUntilStored(c, j + 1, at, k);
    }
  }

  /** From `j` on, `k` is deleted, then its record, and neither comes back by another reload. */
  ghost predicate Removal(c: Course, j: nat, d: nat, n: nat, k: Key) {
    && j < d < n <= |c.steps| && c.steps[j] == Apply(DeleteKey(k)) && c.steps[d] == Apply(DeleteRecord(k))
    && forall x | j < x < n :: c.steps[x] != Apply(StoreKey(k)) && (x == d || c.steps[x] != Apply(DeleteRecord(k)))
  }

  /** A packet step of `k` that begins before `j` and works on the record after `d`. */
  ghost predicate Straddles(c: Course, at: int, j: nat, d: nat, i: int, n: nat, k: Key) {
    0 <= at < j < d < i < n <= |c.steps| && c.WorksOn(i, k) && LookedUp(c, at, i, k)
  }

  /**
   After a removal, and as long as the key is not stored again, the key has a record if and only if a packet
   step straddles both deletions.
   */
  lemma OutlivesIffStraddled(c: Course, j: nat, d: nat, n: nat, k: Key)
    requires c.start.pending.None? && c.start.state.senders == map[] && Removal(c, j, d, n, k)
    ensures k in c.At(n).state.senders <==> exists at, i :: Straddles(c, at, j, d, i, n, k)
  {
    RecordIffWorkedOn(c, n, k);
    if k in c.At(n).state.senders {
      var i :| 0 <= i < n && c.WorksOn(i, k) && KeptSince(c, i, n, k);
      assert i > d;
      var at := LateWorkStraddles(c, j, i, k);
      assert Straddles(c, at, j, d, i, n, k);
    }
    if at, i :| Straddles(c, at, j, d, i, n, k) {
      assert KeptSince(c, i, n, k);
    }
  }

  /** A removal is straddled at most once: the step that does is the one under way when the key is deleted. */
  lemma OneStepStraddles(c: Course, a1: int, i1: int, a2: int, i2: int, j: nat, d: nat, n: nat, k: Key)
    requires Straddles(c, a1, j, d, i1, n, k) && Straddles(c, a2, j, d, i2, n, k)
    ensures a1 == a2 && i1 == i2
  {
  }

  // A whole reload.

  /** The map operations among the steps from `lo` to `n`, in order. */
  function OpsDuring(c: Course, lo: nat, n: nat): seq<MapOp>
    requires lo <= n <= |c.steps|
    decreases n
  {
    if lo == n then []
    else OpsDuring(c, lo, n - 1) + if c.steps[n - 1].Apply? then [c.steps[n - 1].op] else []
  }

  /** Steps `lo` to `hi` make up one reload to `keys`, which visits each key once, interleaved with packet steps. */
  ghost predicate ReloadDuring(c: Course, lo: nat, hi: nat, order: seq<Key>, keys: seq<Key>) {
    && lo <= hi <= |c.steps| && OpsDuring(c, lo, hi) == ReloadOps(order, keys)
    && KeySet(order) == c.At(lo).state.authorized && Distinct(order)
  }

  ghost predicate Distinct(order: seq<Key>) {
    forall x, y | 0 <= x < y < |order| :: order[x] != order[y]
  }

  function AuthorizeOne(authorized: set<Key>, op: MapOp): set<Key> {
    match op
    case DeleteKey(k) => authorized - {k}
    case DeleteRecord(_) => authorized
    case StoreKey(k) => authorized + {k}
  }

  function AuthorizedBy(authorized: set<Key>, ops: seq<MapOp>): set<Key> {
    if ops == [] then authorized
    else
      var n := |ops| - 1;
      AuthorizeOne(AuthorizedBy(authorized, ops[..n]), ops[n])
  }

  lemma AuthorizedByOneMore(authorized: set<Key>, ops: seq<MapOp>, op: MapOp)
    ensures AuthorizedBy(authorized, ops + [op]) == AuthorizeOne(AuthorizedBy(authorized, ops), op)
  {
    assert (ops + [op])[..|ops|] == ops;
  }

  lemma TakeAuthorizes(cfg: Config, f: Fine, step: Step)
    ensures Take(cfg, f, step).state.authorized
         == if step.Apply? then AuthorizeOne(f.state.authorized, step.op) else f.state.authorized
  {
  }

  lemma {:induction false} OnlyOpsAuthorizeHere(c: Course, lo: nat, n: nat, ops: seq<MapOp>)
    requires lo <= n <= |c.steps| && ops == OpsDuring(c, lo, n)
    ensures c.At(n).state.authorized == AuthorizedBy(c.At(lo).state.authorized, ops)
    decreases n
  {
    if lo < n {
      var before, step := OpsDuring(c, lo, n - 1), c.steps[n - 1];
      OnlyOpsAuthorizeHere(c, lo, n - 1, before);
      TakeAuthorizes(c.cfg, c.At(n - 1), step);
      if step.Apply? {
        AuthorizedByOneMore(c.At(lo).state.authorized, before, step.op);
      } else {
        assert before + [] == before;
      }
    }
  }

  lemma {:induction false} SameAuthorized(authorized: set<Key>, ops: seq<MapOp>)
    ensures AuthorizedBy(authorized, ops) == AuthorizedAfter(authorized, ops)
    decreases |ops|
  {
    if |ops| > 0 {
      var n := |ops| - 1;
      SameAuthorized(authorized, ops[..n]);
      AuthorizedOneMore(authorized, ops[..n], ops[n]);
      assert ops[..n] + [ops[n]] == ops;
    }
  }

  lemma {:induction false} AuthorizedOneMore(authorized: set<Key>, ops: seq<MapOp>, op: MapOp)
    ensures AuthorizedAfter(authorized, ops + [op]) == AuthorizeOne(AuthorizedAfter(authorized, ops), op)
    decreases |ops|
  {
    if ops == [] {
      assert (ops + [op])[1..] == [];
    } else {
      assert (ops + [op])[1..] == ops[1..] + [op];
      AuthorizedOneMore(AuthorizeOne(authorized, ops[0]), ops[1..], op);
    }
  }

  /** On return exactly the new keys are authorised, whatever packet steps the reload straddles or is straddled by. */
  lemma ReloadAuthorizes(c: Course, lo: nat, hi: nat, order: seq<Key>, keys: seq<Key>)
    requires ReloadDuring(c, lo, hi, order, keys)
    ensures c.At(hi).state.authorized == KeySet(keys)
  {
    OnlyOpsAuthorizeHere(c, lo, hi, ReloadOps(order, keys));
    SameAuthorized(c.At(lo).state.authorized, ReloadOps(order, keys));
    AuthorizedAfterReload(c.At(lo).state.authorized, order, keys);
  }

  // Where a reload deletes a key.

  lemma {:induction false} OpsGrow(c: Course, lo: nat, y: nat, z: nat)
    requires lo <= y <= z <= |c.steps|
    ensures OpsDuring(c, lo, y) <= OpsDuring(c, lo, z)
    decreases z
  {
    if y < z {
      OpsGrow(c, lo, y, z - 1);
    }
  }

  /** An operation's place among the operations. */
  lemma OpPlace(c: Course, lo: nat, y: nat, hi: nat) returns (x: nat)
    requires lo <= y < hi <= |c.steps| && c.steps[y].Apply?
    ensures x == |OpsDuring(c, lo, y)| < |OpsDuring(c, lo, hi)| && OpsDuring(c, lo, hi)[x] == c.steps[y].op
  {
    x := |OpsDuring(c, lo, y)|;
    OpsGrow(c, lo, y + 1, hi);
  }

  lemma {:induction false} StepOfOp(c: Course, lo: nat, hi: nat, x: nat) returns (j: nat)
    requires lo <= hi <= |c.steps| && x < |OpsDuring(c, lo, hi)|
    ensures lo <= j < hi && c.steps[j] == Apply(OpsDuring(c, lo, hi)[x]) && |OpsDuring(c, lo, j)| == x
    decreases hi
  {
    if x < |OpsDuring(c, lo, hi - 1)| {
      j := StepOfOp(c, lo, hi - 1, x);
    } else {
      j := hi - 1;
    }
  }

  lemma {:induction false} DeletionIndex(order: seq<Key>, keys: seq<Key>, k: Key) returns (x: nat)
    requires k in order && k !in keys
    ensures var ops := Deletions(order, keys); x + 1 < |ops| && ops[x] == DeleteKey(k) && ops[x + 1] == DeleteRecord(k)
  {
    if order[0] == k {
      x := 0;
    } else {
      x := DeletionIndex(order[1..], keys, k);
      if order[0] !in keys {
        x := x + 2;
      }
    }
  }

  lemma {:induction false} DeletionsAreOfVisitedKeys(order: seq<Key>, keys: seq<Key>, y: nat)
    requires y < |Deletions(order, keys)|
    ensures Deletions(order, keys)[y].key in order
  {
    if order[0] in keys {
      DeletionsAreOfVisitedKeys(order[1..], keys, y);
    } else if y >= 2 {
      DeletionsAreOfVisitedKeys(order[1..], keys, y - 2);
    }
  }

  lemma {:induction false} DeletedOnce(order: seq<Key>, keys: seq<Key>, k: Key, y: nat, z: nat)
    requires Distinct(order) && y < z < |Deletions(order, keys)|
    requires Deletions(order, keys)[y] == DeleteRecord(k)
    ensures Deletions(order, keys)[z] != DeleteRecord(k)
  {
    var rest := order[1..];
    assert Distinct(rest);
    if order[0] in keys {
      DeletedOnce(rest, keys, k, y, z);
    } else if y >= 2 {
      DeletedOnce(rest, keys, k, y - 2, z - 2);
    } else {
      DeletionsAreOfVisitedKeys(rest, keys, z - 2);
    }
  }

  lemma {:induction false} StoresAt(keys: seq<Key>, y: nat)
    requires y < |Stores(keys)|
    ensures Stores(keys)[y].StoreKey? && Stores(keys)[y].key in keys
  {
    StoresOnlyStore(keys, Stores(keys)[y]);
  }

  /** Among a reload's operations the deletion of `k`'s record comes once, and no store of `k` comes at all. */
  lemma ReloadOpsOf(order: seq<Key>, keys: seq<Key>, k: Key, x: nat, y: nat)
    requires Distinct(order) && k !in keys && x < |Deletions(order, keys)| && Deletions(order, keys)[x] == DeleteRecord(k)
    requires y < |ReloadOps(order, keys)|
    ensures ReloadOps(order, keys)[y] != StoreKey(k)
    ensures y != x ==> ReloadOps(order, keys)[y] != DeleteRecord(k)
  {
    var ops := Deletions(order, keys);
    if y >= |ops| {
      StoresAt(keys, y - |ops|);
    } else {
      DeletionsAreOfAbsentKeys(order, keys, ops[y]);
      if y < x && ops[y] == DeleteRecord(k) {
        DeletedOnce(order, keys, k, y, x);
      } else if x < y {
        DeletedOnce(order, keys, k, x, y);
      }
    }
  }

  /** A reload removes every key that was authorised and is not in the new list. */
  lemma ReloadRemoves(c: Course, lo: nat, hi: nat, order: seq<Key>, keys: seq<Key>, k: Key) returns (j: nat, d: nat)
    requires ReloadDuring(c, lo, hi, order, keys) && k in c.At(lo).state.authorized && k !in keys
    ensures lo <= j && Removal(c, j, d, hi, k)
  {
    assert k in KeySet(order);
    var x := DeletionIndex(order, keys, k);
    j := StepOfOp(c, lo, hi, x);
    d := StepOfOp(c, lo, hi, x + 1);
    if d <= j {
      OpsGrow(c, lo, d, j);
    }
    forall y | j < y < hi
      ensures c.steps[y] != Apply(StoreKey(k)) && (y == d || c.steps[y] != Apply(DeleteRecord(k)))
    {
      OtherOpsOf(c, lo, hi, order, keys, k, x + 1, d, y);
    }
  }

  lemma OtherOpsOf(c: Course, lo: nat, hi: nat, order: seq<Key>, keys: seq<Key>, k: Key, x: nat, d: nat, y: nat)
    requires ReloadDuring(c, lo, hi, order, keys) && k !in keys
    requires x < |Deletions(order, keys)| && Deletions(order, keys)[x] == DeleteRecord(k)
    requires lo <= d < hi && lo <= y < hi && c.steps[d].Apply? && |OpsDuring(c, lo, d)| == x
    ensures c.steps[y] != Apply(StoreKey(k)) && (y == d || c.steps[y] != Apply(DeleteRecord(k)))
  {
    if c.steps[y].Apply? {
      var place := OpPlace(c, lo, y, hi);
      ReloadOpsOf(order, keys, k, x, place);
      if place == x {
        SamePlace(c, lo, y, d);
      }
    }
  }

  lemma SamePlace(c: Course, lo: nat, y: nat, z: nat)
    requires lo <= y < |c.steps| && lo <= z < |c.steps| && c.steps[y].Apply? && c.steps[z].Apply?
    requires |OpsDuring(c, lo, y)| == |OpsDuring(c, lo, z)|
    ensures y == z
  {
    var first, second := if y < z then y else z, if y < z then z else y;
    if first < second {
      OneMoreOp(c, lo, first, second);
    }
  }

  lemma OneMoreOp(c: Course, lo: nat, y: nat, z: nat)
    requires lo <= y < z <= |c.steps| && c.steps[y].Apply?
    ensures |OpsDuring(c, lo, y)| < |OpsDuring(c, lo, z)|
  {
    OpsGrow(c, lo, y + 1, z);
  }

  /** When a reload returns, a key it removed has a record if and only if a packet step straddled its deletion. */
  lemma RemovedKeyOutlivedIff(c: Course, lo: nat, hi: nat, order: seq<Key>, keys: seq<Key>, k: Key) returns (j: nat, d: nat)
    requires c.start.pending.None? && c.start.state.senders == map[]
    requires ReloadDuring(c, lo, hi, order, keys) && k in c.At(lo).state.authorized && k !in keys
    ensures lo <= j && Removal(c, j, d, hi, k) && k !in c.At(hi).state.authorized
    ensures k in c.At(hi).state.senders <==> exists at, i :: Straddles(c, at, j, d, i, hi, k)
  {
    j, d := ReloadRemoves(c, lo, hi, order, keys, k);
    ReloadAuthorizes(c, lo, hi, order, keys);
    OutlivesIffStraddled(c, j, d, hi, k);
  }

  /** One reload can leave several such records: each deletion may be straddled by a packet step of its own. */
  function TwoStraddled(cfg: Config, k1: Key, k2: Key): Course {
    var from, p1, p2 := Inet4(Zeros(4), 0), ProbePacket(0, 0, 0, k1, Zeros(64)), ProbePacket(0, 0, 0, k2, Zeros(64));
    Course(cfg, Fine(State({k1, k2}, map[], []), None),
           [Check(Some(p1), from, 0, 0, 1), Apply(DeleteKey(k1)), Apply(DeleteRecord(k1)), Work,
            Check(Some(p2), from, 0, 0, 1), Apply(DeleteKey(k2)), Apply(DeleteRecord(k2)), Work])
  }

  lemma TwoRecordsOutlive(cfg: Config, k1: Key, k2: Key)
    requires k1 != k2
    ensures var c := TwoStraddled(cfg, k1, k2);
            && ReloadDuring(c, 0, 8, [k1, k2], [])
            && c.At(8).state.authorized == {} && c.At(8).state.senders.Keys == {k1, k2}
  {
    var c := TwoStraddled(cfg, k1, k2);
    assert c.At(1).pending.Some?;
    assert c.At(3).state.authorized == {k2} && c.At(3).state.senders == map[];
    assert c.At(4).state.authorized == {k2} && c.At(4).state.senders.Keys == {k1};
    assert c.At(5).pending.Some?;
    assert c.At(7).state.authorized == {} && c.At(7).state.senders.Keys == {k1};
    TwoDeletions(k1, k2);
    assert OpsDuring(c, 0, 2) == [DeleteKey(k1)];
    assert OpsDuring(c, 0, 4) == [DeleteKey(k1), DeleteRecord(k1)];
    assert OpsDuring(c, 0, 6) == [DeleteKey(k1), DeleteRecord(k1), DeleteKey(k2)];
    assert KeySet([k1, k2]) == {k1, k2};
  }

  lemma TwoDeletions(k1: Key, k2: Key)
    ensures ReloadOps([k1, k2], []) == [DeleteKey(k1), DeleteRecord(k1), DeleteKey(k2), DeleteRecord(k2)]
  {
    assert [k1, k2][1..] == [k2] && [k2][1..] == [];
    assert Deletions([k2], []) == [DeleteKey(k2), DeleteRecord(k2)];
  }

  // A key in both lists never notices.

  ghost predicate Alike(f: Fine, g: Fine, k: Key) {
    ShareOf(f.state, k) == ShareOf(g.state, k) && PendingFor(f, k) == PendingFor(g, k)
  }

  /** What the steps from `lo` to `n` make of the state at `lo` when the map operations among them are left out. */
  function WithoutOps(c: Course, lo: nat, n: nat): Fine
    requires lo <= n <= |c.steps|
    decreases n
  {
    if lo == n then c.At(lo)
    else if c.steps[n - 1].Apply? then WithoutOps(c, lo, n - 1)
    else Take(c.cfg, WithoutOps(c, lo, n - 1), c.steps[n - 1])
  }

  /** A step that does not delete `k` acts alike; a map operation could as well not have been there. */
  lemma StepAlike(cfg: Config, f: Fine, g: Fine, step: Step, k: Key)
    requires Alike(f, g, k) && k in f.state.authorized && !Deletes(step, k)
    ensures k in Take(cfg, f, step).state.authorized
    ensures Alike(Take(cfg, f, step), if step.Apply? then g else Take(cfg, g, step), k)
  {
    assert SenderOf(f.state, k) == SenderOf(g.state, k);
  }

  predicate Deletes(step: Step, k: Key) {
    step == Apply(DeleteKey(k)) || step == Apply(DeleteRecord(k))
  }

  ghost predicate NotDeleted(c: Course, lo: nat, hi: nat, k: Key)
    requires hi <= |c.steps|
  {
    forall j | lo <= j < hi :: !Deletes(c.steps[j], k)
  }

  lemma {:induction false} UndeletedIsUnaffected(c: Course, lo: nat, n: nat, k: Key)
    requires lo <= n <= |c.steps| && k in c.At(lo).state.authorized && NotDeleted(c, lo, n, k)
    ensures k in c.At(n).state.authorized
    ensures Alike(c.At(n), WithoutOps(c, lo, n), k)
    decreases n
  {
    if lo < n {
      UndeletedIsUnaffected(c, lo, n - 1, k);
      StepAlike(c.cfg, c.At(n - 1), WithoutOps(c, lo, n - 1), c.steps[n - 1], k);
    }
  }

  /**
   At every point inside a reload, however the halves of packet steps are interleaved with it, a key of both
   lists is authorised, and its record and pending probe are what they would be without the reload.
   */
  lemma KeptKeyIsUnaffected(c: Course, lo: nat, n: nat, hi: nat, order: seq<Key>, keys: seq<Key>, k: Key)
    requires ReloadDuring(c, lo, hi, order, keys) && lo <= n <= hi
    requires k in c.At(lo).state.authorized && k in keys
    ensures k in c.At(n).state.authorized
    ensures Alike(c.At(n), WithoutOps(c, lo, n), k)
  {
    forall j | lo <= j < n
      ensures !Deletes(c.steps[j], k)
    {
      if c.steps[j].Apply? {
        var place := OpPlace(c, lo, j, hi);
        KeptIsNotDeleted(order, keys, k, place);
      }
    }
    UndeletedIsUnaffected(c, lo, n, k);
  }

  lemma KeptIsNotDeleted(order: seq<Key>, keys: seq<Key>, k: Key, y: nat)
    requires k in keys && y < |ReloadOps(order, keys)|
    ensures ReloadOps(order, keys)[y] != DeleteKey(k) && ReloadOps(order, keys)[y] != DeleteRecord(k)
  {
    var ops := Deletions(order, keys);
    if y < |ops| {
      DeletionsAreOfAbsentKeys(order, keys, ops[y]);
    } else {
      StoresAt(keys, y - |ops|);
    }
  }
}
