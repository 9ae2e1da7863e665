/**
 Replacing the allowlist while packets are being handled.  A reload is a sequence of
 single map operations, and any number of packet steps may fall between two of them.
 */
module Reload {
  import opened ByteCodec
  import opened Reflector
  import opened NonInterference

  datatype MapOp = DeleteKey(key: Key) | DeleteRecord(key: Key) | StoreKey(key: Key)

  datatype Tick = Op(op: MapOp) | Handle(event: Event)

  function ApplyOp(s: State, op: MapOp): State {
    match op
    case DeleteKey(k) => s.(authorized := s.authorized - {k})
    case DeleteRecord(k) => s.(senders := s.senders - {k})
    case StoreKey(k) => s.(authorized := s.authorized + {k})
  }

  function Finish(cfg: Config, s: State, ticks: seq<Tick>): State
    decreases |ticks|
  {
    if ticks == [] then s
    else
      match ticks[0]
      case Op(op) => Finish(cfg, ApplyOp(s, op), ticks[1..])
      case Handle(e) => Finish(cfg, Next(cfg, s, e), ticks[1..])
  }

  // The operations of one reload.

  /** The `Range` visits the keys in `order`; what the new list lacks goes, record after key. */
  function Deletions(order: seq<Key>, keys: seq<Key>): seq<MapOp> {
    if order == [] then []
    else if order[0] in keys then Deletions(order[1..], keys)
    else [DeleteKey(order[0]), DeleteRecord(order[0])] + Deletions(order[1..], keys)
  }

  function Stores(keys: seq<Key>): seq<MapOp> {
    if keys == [] then [] else [StoreKey(keys[0])] + Stores(keys[1..])
  }

  function ReloadOps(order: seq<Key>, keys: seq<Key>): seq<MapOp> {
    Deletions(order, keys) + Stores(keys)
  }

  function OpsOf(ticks: seq<Tick>): seq<MapOp> {
    if ticks == [] then []
    else if ticks[0].Op? then [ticks[0].op] + OpsOf(ticks[1..])
    else OpsOf(ticks[1..])
  }

  function PacketsOf(ticks: seq<Tick>): seq<Event> {
    if ticks == [] then []
    else if ticks[0].Handle? then [ticks[0].event] + PacketsOf(ticks[1..])
    else PacketsOf(ticks[1..])
  }

  /** The ticks are one reload to `keys`, interleaved with packet steps. */
  ghost predicate IsReload(s: State, ticks: seq<Tick>, order: seq<Key>, keys: seq<Key>) {
    && KeySet(order) == s.authorized
    && OpsOf(ticks) == ReloadOps(order, keys)
    && forall i | 0 <= i < |ticks| && ticks[i].Handle? :: !ticks[i].event.SetAuthorizedKeys?
  }

  // A key in both lists never notices.

  ghost predicate NeverDeletes(ticks: seq<Tick>, k: Key) {
    forall i | 0 <= i < |ticks| :: ticks[i] != Op(DeleteKey(k)) && ticks[i] != Op(DeleteRecord(k))
  }

  lemma {:induction false} DeletionsAreOfAbsentKeys(order: seq<Key>, keys: seq<Key>, op: MapOp)
    requires op in Deletions(order, keys)
    ensures (op.DeleteKey? || op.DeleteRecord?) && op.key !in keys
  {
    if order[0] !in keys {
      var rest := Deletions(order[1..], keys);
      if op in rest {
        DeletionsAreOfAbsentKeys(order[1..], keys, op);
      }
    } else {
      DeletionsAreOfAbsentKeys(order[1..], keys, op);
    }
  }

  lemma {:induction false} StoresOnlyStore(keys: seq<Key>, op: MapOp)
    requires op in Stores(keys)
    ensures op.StoreKey? && op.key in keys
  {
    if op != StoreKey(keys[0]) {
      StoresOnlyStore(keys[1..], op);
    }
  }

  lemma {:induction false} OpsAreTicks(ticks: seq<Tick>, i: nat)
    requires i < |ticks| && ticks[i].Op?
    ensures ticks[i].op in OpsOf(ticks)
  {
    if i > 0 {
      OpsAreTicks(ticks[1..], i - 1);
    }
  }

  lemma ReloadNeverDeletesKept(s: State, ticks: seq<Tick>, order: seq<Key>, keys: seq<Key>, k: Key)
    requires IsReload(s, ticks, order, keys) && k in keys
    ensures NeverDeletes(ticks, k)
  {
    forall i | 0 <= i < |ticks| && ticks[i].Op?
      ensures ticks[i].op != DeleteKey(k) && ticks[i].op != DeleteRecord(k)
    {
      var op := ticks[i].op;
      OpsAreTicks(ticks, i);
      if op in Deletions(order, keys) {
        DeletionsAreOfAbsentKeys(order, keys, op);
      } else {
        StoresOnlyStore(keys, op);
      }
    }
  }

  lemma {:induction false} UndeletedKeepsItsShare(cfg: Config, s: State, t: State, ticks: seq<Tick>, k: Key)
    requires k in s.authorized && NeverDeletes(ticks, k) && ShareOf(s, k) == ShareOf(t, k)
    requires forall i | 0 <= i < |ticks| && ticks[i].Handle? :: !ticks[i].event.SetAuthorizedKeys?
    ensures k in Finish(cfg, s, ticks).authorized
    ensures ShareOf(Finish(cfg, s, ticks), k) == ShareOf(End(cfg, t, PacketsOf(ticks)), k)
    decreases |ticks|
  {
    if ticks != [] {
      var rest := ticks[1..];
      match ticks[0]
      case Op(op) =>
        UndeletedKeepsItsShare(cfg, ApplyOp(s, op), t, rest, k);
      case Handle(e) =>
        if Concerns(e, k) {
          OwnEvent(cfg, s, t, e, k);
        } else {
          ForeignEvent(cfg, s, e, k);
          ForeignEvent(cfg, t, e, k);
        }
        assert k in Next(cfg, s, e).authorized;
        UndeletedKeepsItsShare(cfg, Next(cfg, s, e), Next(cfg, t, e), rest, k);
        assert PacketsOf(ticks)[0] == e && PacketsOf(ticks)[1..] == PacketsOf(rest);
    }
  }

  /**
   At every point inside a reload, however packets are interleaved, a key of both lists is authorised and
   its record is what it would be without the reload.
   */
  lemma KeptKeyIsUntouched(cfg: Config, s: State, ticks: seq<Tick>, order: seq<Key>, keys: seq<Key>, k: Key, n: nat)
    requires IsReload(s, ticks, order, keys) && k in s.authorized && k in keys && n <= |ticks|
    ensures k in Finish(cfg, s, ticks[..n]).authorized
    ensures ShareOf(Finish(cfg, s, ticks[..n]), k) == ShareOf(End(cfg, s, PacketsOf(ticks[..n])), k)
  {
    ReloadNeverDeletesKept(s, ticks, order, keys, k);
    UndeletedKeepsItsShare(cfg, s, s, ticks[..n], k);
  }

  // What holds when the reload returns.

  function AuthorizedAfter(authorized: set<Key>, ops: seq<MapOp>): set<Key>
    decreases |ops|
  {
    if ops == [] then authorized
    else
      match ops[0]
      case DeleteKey(k) => AuthorizedAfter(authorized - {k}, ops[1..])
      case DeleteRecord(k) => AuthorizedAfter(authorized, ops[1..])
      case StoreKey(k) => AuthorizedAfter(authorized + {k}, ops[1..])
  }

  /** Only map operations change who is authorised. */
  lemma {:induction false} OnlyOpsAuthorize(cfg: Config, s: State, ticks: seq<Tick>)
    requires forall i | 0 <= i < |ticks| && ticks[i].Handle? :: !ticks[i].event.SetAuthorizedKeys?
    ensures Finish(cfg, s, ticks).authorized == AuthorizedAfter(s.authorized, OpsOf(ticks))
    decreases |ticks|
  {
    if ticks != [] {
      match ticks[0]
      case Op(op) =>
        OnlyOpsAuthorize(cfg, ApplyOp(s, op), ticks[1..]);
        assert OpsOf(ticks)[1..] == OpsOf(ticks[1..]);
      case Handle(e) =>
        OnlyOpsAuthorize(cfg, Next(cfg, s, e), ticks[1..]);
    }
  }

  lemma {:induction false} AuthorizedAfterReload(authorized: set<Key>, order: seq<Key>, keys: seq<Key>)
    ensures AuthorizedAfter(authorized, ReloadOps(order, keys)) == (authorized - (KeySet(order) - KeySet(keys))) + KeySet(keys)
    decreases |order|
  {
    if order == [] {
      assert ReloadOps(order, keys) == Stores(keys);
      AuthorizedAfterStores(authorized, keys);
    } else {
      var k, rest := order[0], order[1..];
      AfterVisiting(authorized, k, rest, order, keys);
      AuthorizedAfterReload(if k in keys then authorized else authorized - {k}, rest, keys);
      LessOneKey(authorized, k, KeySet(rest), KeySet(keys));
      assert KeySet(order) == {k} + KeySet(rest);
    }
  }

  /** Visiting one key. */
  lemma AfterVisiting(authorized: set<Key>, k: Key, rest: seq<Key>, order: seq<Key>, keys: seq<Key>)
    requires order != [] && k == order[0] && rest == order[1..]
    ensures AuthorizedAfter(authorized, ReloadOps(order, keys))
         == AuthorizedAfter(if k in keys then authorized else authorized - {k}, ReloadOps(rest, keys))
  {
    if k !in keys {
      var ops := ReloadOps(order, keys);
      assert ops == [DeleteKey(k), DeleteRecord(k)] + ReloadOps(rest, keys);
      assert ops[1..][1..] == ReloadOps(rest, keys);
    }
  }

  lemma LessOneKey(authorized: set<Key>, k: Key, rest: set<Key>, keys: set<Key>)
    ensures ((if k in keys then authorized else authorized - {k}) - (rest - keys)) + keys
         == (authorized - (({k} + rest) - keys)) + keys
  {
  }

  lemma {:induction false} AuthorizedAfterStores(authorized: set<Key>, keys: seq<Key>)
    ensures AuthorizedAfter(authorized, Stores(keys)) == authorized + KeySet(keys)
    decreases |keys|
  {
    if keys != [] {
      AuthorizedAfterStores(authorized + {keys[0]}, keys[1..]);
      assert Stores(keys)[1..] == Stores(keys[1..]);
      assert KeySet(keys) == {keys[0]} + KeySet(keys[1..]);
    }
  }

  lemma {:induction false} OpsOfPrefix(ticks: seq<Tick>, n: nat)
    requires n <= |ticks|
    ensures OpsOf(ticks[..n]) <= OpsOf(ticks)
    decreases n
  {
    if n > 0 {
      OpsOfPrefix(ticks[1..], n - 1);
      assert ticks[..n][1..] == ticks[1..][..n - 1];
    }
  }

  /** Deleting never adds to the list. */
  lemma {:induction false} DeletingOnlyRemoves(authorized: set<Key>, ops: seq<MapOp>)
    requires forall i | 0 <= i < |ops| :: !ops[i].StoreKey?
    ensures AuthorizedAfter(authorized, ops) <= authorized
    decreases |ops|
  {
    if ops != [] {
      match ops[0]
      case DeleteKey(k) => DeletingOnlyRemoves(authorized - {k}, ops[1..]);
      case DeleteRecord(_) => DeletingOnlyRemoves(authorized, ops[1..]);
    }
  }

  /** Storing adds only what is stored. */
  lemma {:induction false} StoringOnlyAdds(authorized: set<Key>, ops: seq<MapOp>, keys: set<Key>)
    requires authorized <= keys && forall i | 0 <= i < |ops| :: ops[i].StoreKey? && ops[i].key in keys
    ensures AuthorizedAfter(authorized, ops) <= keys
    decreases |ops|
  {
    if ops != [] {
      StoringOnlyAdds(authorized + {ops[0].key}, ops[1..], keys);
    }
  }

  lemma {:induction false} AuthorizedAfterBoth(authorized: set<Key>, a: seq<MapOp>, b: seq<MapOp>)
    ensures AuthorizedAfter(authorized, a + b) == AuthorizedAfter(AuthorizedAfter(authorized, a), b)
    decreases |a|
  {
    if a == [] {
      assert a + b == b;
    } else {
      assert (a + b)[1..] == a[1..] + b;
      match a[0]
      case DeleteKey(k) => AuthorizedAfterBoth(authorized - {k}, a[1..], b);
      case DeleteRecord(_) => AuthorizedAfterBoth(authorized, a[1..], b);
      case StoreKey(k) => AuthorizedAfterBoth(authorized + {k}, a[1..], b);
    }
  }

  /** Part of the operations of a reload: only deletions, or all of them and then stores. */
  lemma PartOfReload(authorized: set<Key>, order: seq<Key>, keys: seq<Key>, ops: seq<MapOp>)
    requires KeySet(order) == authorized && ops <= ReloadOps(order, keys)
    ensures AuthorizedAfter(authorized, ops) <= authorized || AuthorizedAfter(authorized, ops) <= KeySet(keys)
  {
    var deletions := Deletions(order, keys);
    if |ops| <= |deletions| {
      forall i | 0 <= i < |ops|
        ensures !ops[i].StoreKey?
      {
        assert ops[i] == deletions[i];
        DeletionsAreOfAbsentKeys(order, keys, ops[i]);
      }
      DeletingOnlyRemoves(authorized, ops);
    } else {
      var stores := ops[|deletions|..];
      assert ops == deletions + stores;
      AfterDeletions(authorized, order, keys);
      AuthorizedAfterBoth(authorized, deletions, stores);
      forall i | 0 <= i < |stores|
        ensures stores[i].StoreKey? && stores[i].key in KeySet(keys)
      {
        assert stores[i] == Stores(keys)[i];
        StoresOnlyStore(keys, stores[i]);
      }
      StoringOnlyAdds(AuthorizedAfter(authorized, deletions), stores, KeySet(keys));
    }
  }

  lemma {:induction false} AfterDeletions(authorized: set<Key>, order: seq<Key>, keys: seq<Key>)
    requires authorized <= KeySet(order) + KeySet(keys)
    ensures AuthorizedAfter(authorized, Deletions(order, keys)) <= KeySet(keys)
    decreases |order|
  {
    if order != [] {
      var k, rest := order[0], order[1..];
      assert KeySet(order) == {k} + KeySet(rest);
      if k in keys {
        AfterDeletions(authorized, rest, keys);
      } else {
        var ops := Deletions(order, keys);
        assert ops[1..][1..] == Deletions(rest, keys);
        AfterDeletions(authorized - {k}, rest, keys);
      }
    }
  }

  /**
   The two lists are never mixed: at every point inside a reload, however packets are interleaved, either every
   key that is authorised is on the old list, or every one is on the new.
   */
  lemma ListsAreNeverMixed(cfg: Config, s: State, ticks: seq<Tick>, order: seq<Key>, keys: seq<Key>, n: nat)
    requires IsReload(s, ticks, order, keys) && n <= |ticks|
    ensures var now := Finish(cfg, s, ticks[..n]).authorized; now <= s.authorized || now <= KeySet(keys)
  {
    OnlyOpsAuthorize(cfg, s, ticks[..n]);
    OpsOfPrefix(ticks, n);
    PartOfReload(s.authorized, order, keys, OpsOf(ticks[..n]));
  }

  /** Every deletion of a key is followed by the deletion of its record, but for one that may be under way. */
  predicate Paired(ops: seq<MapOp>)
    decreases |ops|
  {
    if ops == [] then true
    else if ops[0].DeleteKey? then |ops| > 1 && ops[1] == DeleteRecord(ops[0].key) && Paired(ops[1..])
    else Paired(ops[1..])
  }

  /** The key whose record deletion comes next, if one does. */
  function Owed(ops: seq<MapOp>): set<Key> {
    if ops != [] && ops[0].DeleteRecord? then {ops[0].key} else {}
  }

  lemma {:induction false} ReloadOpsArePaired(order: seq<Key>, keys: seq<Key>)
    ensures Paired(ReloadOps(order, keys))
    decreases |order|
  {
    if order == [] {
      assert ReloadOps(order, keys) == Stores(keys);
      StoresArePaired(keys);
    } else {
      ReloadOpsArePaired(order[1..], keys);
      if order[0] !in keys {
        var ops, k := ReloadOps(order, keys), order[0];
        assert ops == [DeleteKey(k), DeleteRecord(k)] + ReloadOps(order[1..], keys);
        assert ops[1..][1..] == ReloadOps(order[1..], keys);
      }
    }
  }

  lemma {:induction false} StoresArePaired(keys: seq<Key>)
    ensures Paired(Stores(keys))
  {
    if keys != [] {
      StoresArePaired(keys[1..]);
      assert Stores(keys)[1..] == Stores(keys[1..]);
    }
  }

  /** Between the two deletions of a key its record may outlive its authorisation, and only then. */
  lemma {:induction false} RecordsStayAuthorized(cfg: Config, s: State, ticks: seq<Tick>)
    requires Paired(OpsOf(ticks)) && s.senders.Keys <= s.authorized + Owed(OpsOf(ticks))
    requires forall i | 0 <= i < |ticks| && ticks[i].Handle? :: !ticks[i].event.SetAuthorizedKeys?
    ensures Finish(cfg, s, ticks).senders.Keys <= Finish(cfg, s, ticks).authorized
    decreases |ticks|
  {
    if ticks != [] {
      var rest := ticks[1..];
      match ticks[0]
      case Op(op) =>
        assert OpsOf(ticks)[1..] == OpsOf(rest);
        RecordsStayAuthorized(cfg, ApplyOp(s, op), rest);
      case Handle(e) =>
        RecordsStayAuthorized(cfg, Next(cfg, s, e), rest);
    }
  }

  /**
   When a reload returns, whatever packets it was interleaved with, exactly the new list is authorised,
   and records belong to authorised keys if they did before.
   */
  lemma ReloadReturns(cfg: Config, s: State, ticks: seq<Tick>, order: seq<Key>, keys: seq<Key>)
    requires IsReload(s, ticks, order, keys) && s.senders.Keys <= s.authorized
    ensures Finish(cfg, s, ticks).authorized == KeySet(keys)
    ensures Finish(cfg, s, ticks).senders.Keys <= KeySet(keys)
  {
    OnlyOpsAuthorize(cfg, s, ticks);
    AuthorizedAfterReload(s.authorized, order, keys);
    ReloadOpsArePaired(order, keys);
    RecordsStayAuthorized(cfg, s, ticks);
  }

  /**
   A key removed by one reload and restored by a later one has an empty record until it is probed again,
   whatever happens between the two, its own probes and other reloads included.
   */
  lemma RestoredKeyStartsEmpty(cfg: Config, s: State, ticks: seq<Tick>, order: seq<Key>, keys: seq<Key>, between: seq<Tick>,
                               later: seq<Tick>, laterOrder: seq<Key>, laterKeys: seq<Key>, k: Key)
    requires s.senders.Keys <= s.authorized && IsReload(s, ticks, order, keys) && k !in keys
    requires NeverStores(between, k)
    requires IsReload(Finish(cfg, Finish(cfg, s, ticks), between), later, laterOrder, laterKeys) && k in laterKeys
    requires forall i | 0 <= i < |later| && later[i].Handle? && later[i].event.Receive? :: !Concerns(later[i].event, k)
    ensures var restored := Finish(cfg, Finish(cfg, Finish(cfg, s, ticks), between), later);
            k in restored.authorized && SenderOf(restored, k) == EmptySender()
  {
    var removed := Finish(cfg, s, ticks);
    var before := Finish(cfg, removed, between);
    ReloadReturns(cfg, s, ticks, order, keys);
    RemovedStaysAbsent(cfg, removed, between, k);
    OnlyOpsAuthorize(cfg, before, later);
    AuthorizedAfterReload(before.authorized, laterOrder, laterKeys);
    UnprobedStaysAbsent(cfg, before, later, k);
  }

  ghost predicate NeverStores(ticks: seq<Tick>, k: Key) {
    forall i | 0 <= i < |ticks| ::
      && ticks[i] != Op(StoreKey(k))
      && (ticks[i].Handle? && ticks[i].event.SetAuthorizedKeys? ==> k !in ticks[i].event.keys)
  }

  lemma {:induction false} RemovedStaysAbsent(cfg: Config, s: State, ticks: seq<Tick>, k: Key)
    requires k !in s.authorized && k !in s.senders && NeverStores(ticks, k)
    ensures k !in Finish(cfg, s, ticks).authorized && k !in Finish(cfg, s, ticks).senders
    decreases |ticks|
  {
    if ticks != [] {
      match ticks[0]
      case Op(op) => RemovedStaysAbsent(cfg, ApplyOp(s, op), ticks[1..], k);
      case Handle(e) => RemovedStaysAbsent(cfg, Next(cfg, s, e), ticks[1..], k);
    }
  }

  lemma {:induction false} UnprobedStaysAbsent(cfg: Config, s: State, ticks: seq<Tick>, k: Key)
    requires k !in s.senders
    requires forall i | 0 <= i < |ticks| && ticks[i].Handle? :: !ticks[i].event.SetAuthorizedKeys?
    requires forall i | 0 <= i < |ticks| && ticks[i].Handle? && ticks[i].event.Receive? :: !Concerns(ticks[i].event, k)
    ensures k !in Finish(cfg, s, ticks).senders
    decreases |ticks|
  {
    if ticks != [] {
      match ticks[0]
      case Op(op) => UnprobedStaysAbsent(cfg, ApplyOp(s, op), ticks[1..], k);
      case Handle(e) => UnprobedStaysAbsent(cfg, Next(cfg, s, e), ticks[1..], k);
    }
  }

  // A reload with no packets in between.

  function AsTicks(ops: seq<MapOp>): seq<Tick> {
    seq(|ops|, i requires 0 <= i < |ops| => Op(ops[i]))
  }

  lemma {:induction false} DeletionsDelete(cfg: Config, s: State, order: seq<Key>, keys: seq<Key>, rest: seq<MapOp>)
    ensures var gone := KeySet(order) - KeySet(keys);
            Finish(cfg, s, AsTicks(Deletions(order, keys) + rest))
            == Finish(cfg, s.(authorized := s.authorized - gone, senders := s.senders - gone), AsTicks(rest))
    decreases |order|
  {
    var gone := KeySet(order) - KeySet(keys);
    if order == [] {
      assert Deletions(order, keys) + rest == rest;
      assert s.(authorized := s.authorized - gone, senders := s.senders - gone) == s;
    } else {
      var k, others := order[0], order[1..];
      assert KeySet(order) == {k} + KeySet(others);
      if k in keys {
        assert gone == KeySet(others) - KeySet(keys);
        DeletionsDelete(cfg, s, others, keys, rest);
      } else {
        var t := ApplyOp(ApplyOp(s, DeleteKey(k)), DeleteRecord(k));
        var ops := Deletions(order, keys) + rest;
        assert ops == [DeleteKey(k), DeleteRecord(k)] + (Deletions(others, keys) + rest);
        assert AsTicks(ops)[1..][1..] == AsTicks(Deletions(others, keys) + rest);
        assert Finish(cfg, s, AsTicks(ops)) == Finish(cfg, t, AsTicks(Deletions(others, keys) + rest));
        DeletionsDelete(cfg, t, others, keys, rest);
        var left := KeySet(others) - KeySet(keys);
        assert s.authorized - {k} - left == s.authorized - gone;
        assert s.senders - {k} - left == s.senders - gone;
      }
    }
  }

  lemma {:induction false} StoresStore(cfg: Config, s: State, keys: seq<Key>)
    ensures Finish(cfg, s, AsTicks(Stores(keys))) == s.(authorized := s.authorized + KeySet(keys))
    decreases |keys|
  {
    if keys == [] {
      assert s.authorized + KeySet(keys) == s.authorized;
    } else {
      assert AsTicks(Stores(keys))[1..] == AsTicks(Stores(keys[1..]));
      StoresStore(cfg, ApplyOp(s, StoreKey(keys[0])), keys[1..]);
      assert s.authorized + {keys[0]} + KeySet(keys[1..]) == s.authorized + KeySet(keys);
    }
  }

  /** Run without interruption, the map operations amount to the one-step reload. */
  lemma UninterruptedReload(cfg: Config, s: State, order: seq<Key>, keys: seq<Key>)
    requires KeySet(order) == s.authorized
    ensures Finish(cfg, s, AsTicks(ReloadOps(order, keys))) == AfterReload(s, keys)
  {
    DeletionsDelete(cfg, s, order, keys, Stores(keys));
    var gone := KeySet(order) - KeySet(keys);
    StoresStore(cfg, s.(authorized := s.authorized - gone, senders := s.senders - gone), keys);
    assert (s.authorized - gone) + KeySet(keys) == KeySet(keys);
  }
}
