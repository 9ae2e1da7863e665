/**
 The reflector object of internal/signed/reflector_linux.go: per-sender records
 updated in place, an allowlist and an offset list replaced by concurrent setters.
 Each method is shown to act on `View()` as the step function says.
 */
module LinuxReflectors {
  import opened Wrappers
  import opened ByteCodec
  import opened Signing
  import opened Packet
  import opened PacketCodec
  import opened PacketBuffers
  import opened Reflector

  class SenderRecord {
    var lastTxTime: Option<Time>
    var pairCount: nat
    var pairStart: Time
    var pairSourceIP: Bytes4
    var nonce: Uint64

    function Value(): SenderState
      reads this
    {
      SenderState(lastTxTime, pairCount, pairStart, pairSourceIP, nonce)
    }

    constructor ()
      ensures Value() == EmptySender()
    {
      lastTxTime, pairCount, pairStart, pairSourceIP, nonce := None, 0, 0, Zeros(4), 0;
    }

    /** The part of the packet loop that works on one sender's record. */
    method Admit(interval: Duration, probe: ProbePacket, from: SockAddr, now: Time, draw: Uint64) returns (v: Verdict)
      modifies this
      ensures (Value(), v) == Reflector.Admit(interval, old(Value()), probe, from, now, draw)
    {
      if interval > 0 {
        if pairCount >= 2 {
          if Sub(now, pairStart) < interval {
            return Dropped;
          }
          pairCount := 0;
          nonce := 0;
        }
      }
      if pairCount == 1 && lastTxTime.Some? && Sub(now, lastTxTime.value) > STALE_PAIR_TIMEOUT {
        pairCount := 0;
        nonce := 0;
      }
      if !from.Inet4? {
        return Dropped;
      }
      if pairCount == 0 {
        pairSourceIP := from.ip;
      } else if from.ip != pairSourceIP {
        return Dropped;
      }
      var sinceLastRxNs: Uint64 := 0;
      var isProbe0 := pairCount == 0;
      var challenged := false;
      if isProbe0 {
        pairStart := now;
        nonce := draw;
        sinceLastRxNs := nonce;
      } else {
        var presentedNonce := probe.sec * TWO_TO_THE_32 + probe.frac;
        if nonce != 0 && presentedNonce == nonce {
          challenged := true;
        }
        nonce := 0;
        if lastTxTime.Some? {
          sinceLastRxNs := AsUint64(Sub(now, lastTxTime.value));
        }
      }
      pairCount := pairCount + 1;
      return Answered(isProbe0, sinceLastRxNs, challenged);
    }
  }

  function Contents(blobs: seq<array<Byte>>): (r: seq<Bytes>)
    reads blobs
    ensures |r| == |blobs| && forall i | 0 <= i < |blobs| :: r[i] == blobs[i][..]
  {
    if blobs == [] then [] else [blobs[0][..]] + Contents(blobs[1..])
  }

  /** The bytes that go out for a reply. */
  function OnWire(reply: Option<ReplyPacket>): Option<Bytes> {
    if reply.Some? then Some(ReplyBytes(reply.value)) else None
  }

  /** The step on a probe of an authorised sender, once it is admitted. */
  lemma AdmittedProbe(cfg: Config, s: State, probe: ProbePacket, from: SockAddr, now: Time, tx: Time, draw: Uint64,
                      st: SenderState, v: Verdict)
    requires probe.senderPubkey in s.authorized
    requires (st, v) == Reflector.Admit(cfg.verifyInterval, SenderOf(s, probe.senderPubkey), probe, from, now, draw)
    ensures AfterDatagram(cfg, s, Some(probe), from, now, tx, draw)
         == With(s, probe.senderPubkey, if v.Answered? && OffsetsOk(s.offsets) then st.(lastTxTime := Some(tx)) else st)
    ensures ReplyToDatagram(cfg, s, Some(probe), from, now, draw)
         == if v.Dropped? then None else AnswerWith(cfg, s.offsets, probe, v)
  {
  }

  /** A datagram that is no probe of an authorised sender changes nothing; any other acts as its probe does. */
  lemma DatagramStep(cfg: Config, s: State, received: Option<ProbePacket>, from: SockAddr, now: Time, tx: Time, draw: Uint64)
    ensures var e, taken := Receive(received, from, now, tx, draw), AuthorizedProbe(s, received);
            && Next(cfg, s, e) == (if taken.None? then s else AfterDatagram(cfg, s, received, from, now, tx, draw))
            && Reply(cfg, s, e) == (if taken.None? then None else ReplyToDatagram(cfg, s, received, from, now, draw))
  {
  }

  /** The answer is the reply, and there is one exactly when the offsets fit. */
  lemma AnswerIsReply(cfg: Config, blobs: seq<Bytes>, probe: ProbePacket, v: Verdict, reply: Result<ReplyPacket, ReplyError>)
    requires v.Answered? && reply == NewReply(Draft(cfg, blobs, probe, v), cfg.signer)
    ensures reply.Ok? <==> OffsetsOk(blobs)
    ensures AnswerWith(cfg, blobs, probe, v) == if reply.Ok? then Some(reply.value) else None
    ensures reply.Ok? ==> OffsetsOk(reply.value.offsets)
  {
  }

  lemma WithTwice(s: State, k: Key, a: SenderState, b: SenderState)
    ensures With(With(s, k, a), k, b) == With(s, k, b)
    ensures SenderOf(With(s, k, a), k) == a
    ensures With(s, k, a).offsets == s.offsets && With(s, k, a).authorized == s.authorized
  {
    assert s.senders[k := a][k := b] == s.senders[k := b];
  }

  class LinuxReflector {
    const cfg: Config
    var authorizedKeys: set<Key>
    var senderStates: map<Key, SenderRecord>
    var offsets: seq<array<Byte>>

    /** No two senders share a record. */
    ghost predicate Valid()
      reads this
    {
      forall a, b | a in senderStates && b in senderStates && a != b :: senderStates[a] != senderStates[b]
    }

    ghost function Records(): set<SenderRecord>
      reads this
    {
      senderStates.Values
    }

    ghost function View(): State
      reads this, Records(), offsets
    {
      State(authorizedKeys, map k | k in senderStates :: senderStates[k].Value(), Contents(offsets))
    }

    constructor (config: Config, keys: seq<Key>)
      ensures Valid() && Records() == {} && offsets == []
      ensures cfg == config
      ensures View() == State(KeySet(keys), map[], [])
    {
      cfg := config;
      authorizedKeys := {};
      senderStates := map[];
      offsets := [];
      new;
      for i := 0 to |keys|
        modifies this`authorizedKeys
        invariant authorizedKeys == KeySet(keys[..i])
      {
        authorizedKeys := authorizedKeys + {keys[i]};
        assert keys[..i + 1] == keys[..i] + [keys[i]];
      }
      assert keys[..|keys|] == keys;
      assert KeySet(keys) == authorizedKeys;
    }

    /** `LoadOrStore` of an empty record. */
    method LoadOrStore(k: Key) returns (record: SenderRecord)
      requires Valid()
      modifies this`senderStates
      ensures Valid() && k in senderStates && record == senderStates[k]
      ensures fresh(Records() - old(Records()))
      ensures record.Value() == SenderOf(old(View()), k)
      ensures View() == With(old(View()), k, record.Value())
    {
      if k !in senderStates {
        record := new SenderRecord();
        senderStates := senderStates[k := record];
      }
      record := senderStates[k];
      assert View().senders == old(View()).senders[k := record.Value()];
    }

    /** The body of the packet loop for one datagram; `sent` is what goes out, if anything does. */
    method HandleDatagram(buf: array<Byte>, n: nat, from: SockAddr, now: Time, tx: Time, draw: Uint64)
      returns (sent: Option<Bytes>)
      requires Valid() && n <= buf.Length
      modifies this`senderStates, Records()
      ensures Valid() && fresh(Records() - old(Records()))
      ensures View() == Next(cfg, old(View()), Receive(ParseProbe(old(buf[..n])), from, now, tx, draw))
      ensures sent == OnWire(Reply(cfg, old(View()), Receive(ParseProbe(old(buf[..n])), from, now, tx, draw)))
    {
      var received := ReadDatagram(buf, n);
      sent := HandleReceived(received, from, now, tx, draw);
    }

    /** The same, given what the datagram parses to. */
    method HandleReceived(received: Option<ProbePacket>, from: SockAddr, now: Time, tx: Time, draw: Uint64)
      returns (sent: Option<Bytes>)
      requires Valid()
      modifies this`senderStates, Records()
      ensures Valid() && fresh(Records() - old(Records()))
      ensures View() == Next(cfg, old(View()), Receive(received, from, now, tx, draw))
      ensures sent == OnWire(Reply(cfg, old(View()), Receive(received, from, now, tx, draw)))
    {
      DatagramStep(cfg, View(), received, from, now, tx, draw);
      if received.None? {
        return None;
      }
      if received.value.senderPubkey !in authorizedKeys {
        return None;
      }
      sent := HandleProbe(received.value, from, now, tx, draw);
    }

    /** The same, once the probe is parsed and its sender found on the allowlist. */
    method HandleProbe(probe: ProbePacket, from: SockAddr, now: Time, tx: Time, draw: Uint64) returns (sent: Option<Bytes>)
      requires Valid() && probe.senderPubkey in authorizedKeys
      modifies this`senderStates, Records()
      ensures Valid() && fresh(Records() - old(Records()))
      ensures View() == AfterDatagram(cfg, old(View()), Some(probe), from, now, tx, draw)
      ensures sent == OnWire(ReplyToDatagram(cfg, old(View()), Some(probe), from, now, draw))
    {
      ghost var before := View();
      var state, v := AdmitProbe(probe, from, now, draw);
      ghost var st := state.Value();
      AdmittedProbe(cfg, before, probe, from, now, tx, draw, st, v);
      if v.Dropped? {
        return None;
      }
      sent := TimedReply(state, probe, v, tx);
      WithTwice(before, probe.senderPubkey, st, state.Value());
    }

    /** Sending the reply, and what that changes in the whole state. */
    method TimedReply(state: SenderRecord, probe: ProbePacket, v: Verdict, tx: Time) returns (sent: Option<Bytes>)
      requires Valid() && v.Answered?
      requires probe.senderPubkey in senderStates && senderStates[probe.senderPubkey] == state
      modifies state
      ensures var s, st := old(View()), old(state.Value());
              && state.Value() == (if OffsetsOk(s.offsets) then st.(lastTxTime := Some(tx)) else st)
              && View() == With(s, probe.senderPubkey, state.Value())
              && sent == OnWire(AnswerWith(cfg, s.offsets, probe, v))
    {
      ghost var admitted := View();
      sent := SendReply(state, probe, v, tx);
      OneRecordChanged(probe.senderPubkey, admitted, state.Value());
    }

    /** Finding or creating the sender's record and working on it. */
    method AdmitProbe(probe: ProbePacket, from: SockAddr, now: Time, draw: Uint64) returns (state: SenderRecord, v: Verdict)
      requires Valid()
      modifies this`senderStates, Records()
      ensures Valid() && fresh(Records() - old(Records()))
      ensures probe.senderPubkey in senderStates && senderStates[probe.senderPubkey] == state
      ensures (state.Value(), v)
           == Reflector.Admit(cfg.verifyInterval, SenderOf(old(View()), probe.senderPubkey), probe, from, now, draw)
      ensures View() == With(old(View()), probe.senderPubkey, state.Value())
    {
      ghost var before := View();
      state := LoadOrStore(probe.senderPubkey);
      ghost var st := state.Value();
      v := AdmitInto(state, probe, from, now, draw);
      WithTwice(before, probe.senderPubkey, st, state.Value());
    }

    /** Working on the record, and what that changes in the whole state. */
    method AdmitInto(state: SenderRecord, probe: ProbePacket, from: SockAddr, now: Time, draw: Uint64) returns (v: Verdict)
      requires Valid() && probe.senderPubkey in senderStates && senderStates[probe.senderPubkey] == state
      modifies state
      ensures (state.Value(), v) == Reflector.Admit(cfg.verifyInterval, old(state.Value()), probe, from, now, draw)
      ensures View() == With(old(View()), probe.senderPubkey, state.Value())
    {
      ghost var before := View();
      v := state.Admit(cfg.verifyInterval, probe, from, now, draw);
      OneRecordChanged(probe.senderPubkey, before, state.Value());
    }

    /** Building the reply, timing it and sending it. */
    method SendReply(state: SenderRecord, probe: ProbePacket, v: Verdict, tx: Time) returns (sent: Option<Bytes>)
      requires v.Answered?
      modifies state
      ensures var blobs, st := old(Contents(offsets)), old(state.Value());
              && state.Value() == (if OffsetsOk(blobs) then st.(lastTxTime := Some(tx)) else st)
              && sent == OnWire(AnswerWith(cfg, blobs, probe, v))
    {
      sent := MakeReply(probe, v);
      if sent.Some? {
        state.lastTxTime := Some(tx);
      }
    }

    /** The reply's bytes, unless the offsets do not fit a reply. */
    method MakeReply(probe: ProbePacket, v: Verdict) returns (bytes: Option<Bytes>)
      requires v.Answered?
      ensures bytes == OnWire(AnswerWith(cfg, Contents(offsets), probe, v))
      ensures bytes.Some? <==> OffsetsOk(Contents(offsets))
    {
      var drafted := DraftReply(probe, v);
      var reply := NewReplyPacket(drafted, cfg.signer);
      AnswerIsReply(cfg, Contents(offsets), probe, v, reply);
      if reply.Err? {
        return None;
      }
      var marshalled := MarshalFresh(reply.value);
      return Some(marshalled);
    }

    /** Changing the record of `k` changes the view at `k` and nowhere else. */
    lemma OneRecordChanged(k: Key, before: State, value: SenderState)
      requires Valid() && k in senderStates && senderStates[k].Value() == value
      requires authorizedKeys == before.authorized && Contents(offsets) == before.offsets
      requires senderStates.Keys == before.senders.Keys
      requires forall a | a in senderStates && a != k :: senderStates[a].Value() == before.senders[a]
      ensures View() == With(before, k, value)
    {
    }

    /** The reply's fields, with the location of the first offset in force. */
    method DraftReply(probe: ProbePacket, v: Verdict) returns (r: ReplyPacket)
      requires v.Answered?
      ensures r == Draft(cfg, Contents(offsets), probe, v)
    {
      var slot: Uint64, lat: Uint64, lng: Uint64, dzdRttNs: Uint64 := 0, 0, 0, 0;
      if |offsets| > 0 {
        var info := ParseOffsetInfo(offsets[0][..]);
        if info.Some? {
          slot, lat, lng, dzdRttNs := info.value.measurementSlot, info.value.lat, info.value.lng, info.value.rttNs;
        }
      }
      var rttNs := dzdRttNs;
      if !v.first {
        rttNs := (rttNs + v.sinceLastRxNs) % TWO_TO_THE_64;
      }
      r := ReplyPacket(probe, cfg.signer.pub, cfg.geoprobePubkey, slot, lat, lng, v.sinceLastRxNs, rttNs,
                       Contents(offsets), v.challenged, Zeros(64));
    }

    method SetAuthorizedKeys(keys: seq<Key>)
      requires Valid()
      modifies this`authorizedKeys, this`senderStates
      ensures Valid() && Records() <= old(Records())
      ensures View() == AfterReload(old(View()), keys)
    {
      var newKeys := Collect(keys);
      RemoveStale(newKeys);
      StoreKeys(keys);
      assert authorizedKeys == KeySet(keys);
    }

    /** What the deletions change in the whole state. */
    method RemoveStale(newKeys: set<Key>)
      requires Valid()
      modifies this`authorizedKeys, this`senderStates
      ensures Valid() && Records() <= old(Records())
      ensures var s := old(View());
              View() == s.(authorized := s.authorized * newKeys, senders := s.senders - (s.authorized - newKeys))
    {
      ghost var before := View();
      DropStaleKeys(newKeys);
      assert View().senders == before.senders - (before.authorized - newKeys);
    }

    /** The new list as a set. */
    method Collect(keys: seq<Key>) returns (newKeys: set<Key>)
      ensures newKeys == KeySet(keys)
    {
      newKeys := {};
      for i := 0 to |keys|
        invariant newKeys == KeySet(keys[..i])
      {
        newKeys := newKeys + {keys[i]};
        assert keys[..i + 1] == keys[..i] + [keys[i]];
      }
      assert keys[..|keys|] == keys;
    }

    method StoreKeys(keys: seq<Key>)
      modifies this`authorizedKeys
      ensures authorizedKeys == old(authorizedKeys) + KeySet(keys)
      ensures View() == old(View()).(authorized := old(View()).authorized + KeySet(keys))
    {
      for i := 0 to |keys|
        invariant authorizedKeys == old(authorizedKeys) + KeySet(keys[..i])
      {
        authorizedKeys := authorizedKeys + {keys[i]};
        assert keys[..i + 1] == keys[..i] + [keys[i]];
      }
      assert keys[..|keys|] == keys;
    }

    /** The `Range` over the allowlist, in whatever order it visits the keys. */
    method DropStaleKeys(newKeys: set<Key>)
      requires Valid()
      modifies this`authorizedKeys, this`senderStates
      ensures Valid() && authorizedKeys == old(authorizedKeys) * newKeys
      ensures senderStates
           == map k | k in old(senderStates) && k !in old(authorizedKeys) - newKeys :: old(senderStates)[k]
    {
      var pending := authorizedKeys;
      while pending != {}
        invariant pending <= old(authorizedKeys)
        invariant authorizedKeys == (old(authorizedKeys) * newKeys) + pending
        invariant senderStates
               == map k | k in old(senderStates) && k !in old(authorizedKeys) - newKeys - pending :: old(senderStates)[k]
        decreases pending
      {
        var k :| k in pending;
        if k !in newKeys {
          authorizedKeys := authorizedKeys - {k};
          senderStates := senderStates - {k};
        }
        pending := pending - {k};
      }
    }

    method SetOffsets(blobs: seq<array<Byte>>)
      requires Valid()
      modifies this`offsets
      ensures Valid()
      ensures View() == old(View()).(offsets := old(Contents(blobs)))
      ensures forall i | 0 <= i < |offsets| :: fresh(offsets[i])
    {
      var copies := CopyBlobs(blobs);
      offsets := copies;
      assert View().senders == old(View()).senders;
    }
  }

  /** Every blob into a slice of its own. */
  method CopyBlobs(blobs: seq<array<Byte>>) returns (copies: seq<array<Byte>>)
    ensures Contents(copies) == Contents(blobs)
    ensures forall i | 0 <= i < |copies| :: fresh(copies[i])
  {
    copies := [];
    for i := 0 to |blobs|
      invariant |copies| == i
      invariant forall x | 0 <= x < i :: fresh(copies[x]) && copies[x][..] == blobs[x][..]
    {
      var blob := blobs[i];
      var c := new Byte[blob.Length](x requires 0 <= x < blob.Length reads blob => blob[x]);
      copies := copies + [c];
      assert c[..] == blob[..];
    }
  }

  /** A datagram of another size than a probe's is not looked at. */
  method ReadDatagram(buf: array<Byte>, n: nat) returns (received: Option<ProbePacket>)
    requires n <= buf.Length
    ensures received == ParseProbe(buf[..n])
  {
    if n != PROBE_SIZE {
      return None;
    }
    received := UnmarshalProbe(buf[..n]);
  }

  /** Marshalling into a fresh zeroed buffer of the largest reply's size. */
  method MarshalFresh(r: ReplyPacket) returns (bytes: Bytes)
    requires OffsetsOk(r.offsets)
    ensures bytes == ReplyBytes(r)
  {
    var replyBuf := new Byte[MAX_REPLY_SIZE](_ => 0);
    PayloadOfWellFormed(r, replyBuf[..]);
    PayloadOfWellFormed(r, Zeros(PayloadSize(r)));
    var replyLen, _ := MarshalReply(r, replyBuf);
    bytes := replyBuf[..replyLen];
  }
}
