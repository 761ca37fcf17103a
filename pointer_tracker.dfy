/** AmPointerTracker: the registry of tracked ranges, in map order, and the bulk passes that
    reset and update_peers make over it. */
module PointerTracker {
  import opened AmTypes
  import opened MemoryRange
  import opened RangeMap
  import opened HsaDriver

  /** The entries reset(acc) keeps: those owned by other accelerators, in map order. */
  function Others(s: seq<Entry>, acc: Accelerator): seq<Entry>
  {
    if s == [] then []
    else Others(DropLast(s), acc) + (if Last(s).info.acc == acc then [] else [Last(s)])
  }

  /** How many entries acc owns. */
  function OwnedCount(s: seq<Entry>, acc: Accelerator): nat
  {
    if s == [] then 0
    else OwnedCount(DropLast(s), acc) + (if Last(s).info.acc == acc then 1 else 0)
  }

  /** The driver frees reset(acc) issues: one at the base of each tracker-managed entry acc
      owns, in map order. */
  function ResetFrees(s: seq<Entry>, acc: Accelerator): seq<DriverCall>
  {
    if s == [] then []
    else ResetFrees(DropLast(s), acc) +
         (if Last(s).info.acc == acc && Last(s).info.isAmManaged
          then [PoolFree(Last(s).key.basePointer)] else [])
  }

  /** The grants update_peers(acc, peers) issues: one at the base of each device-resident entry
      acc owns, in map order. */
  function PeerGrants(s: seq<Entry>, acc: Accelerator, peers: seq<Agent>): seq<DriverCall>
  {
    if s == [] then []
    else PeerGrants(DropLast(s), acc, peers) +
         (if Last(s).info.acc == acc && Last(s).info.isInDeviceMem
          then [AgentsAllowAccess(peers, Last(s).key.basePointer)] else [])
  }

  /** reset(acc) keeps exactly the entries of other accelerators. */
  lemma {:induction false} OthersMembers(s: seq<Entry>, acc: Accelerator, e: Entry)
    ensures e in Others(s, acc) <==> e in s && e.info.acc != acc
    decreases |s|
  {
    if s != [] {
      OthersMembers(DropLast(s), acc, e);
      assert s == DropLast(s) + [Last(s)];
    }
  }

  /** The count reset(acc) returns is the number of entries it removed. */
  lemma {:induction false} OwnedCountIsRemoved(s: seq<Entry>, acc: Accelerator)
    ensures |Others(s, acc)| + OwnedCount(s, acc) == |s|
    decreases |s|
  {
    if s != [] {
      OwnedCountIsRemoved(DropLast(s), acc);
    }
  }

  /** The entries reset(acc) keeps are still in map order. */
  lemma {:induction false} OthersOrdered(s: seq<Entry>, acc: Accelerator)
    requires Ordered(s)
    ensures Ordered(Others(s, acc))
    decreases |s|
  {
    if s != [] {
      var init := DropLast(s);
      assert Ordered(init);
      OthersOrdered(init, acc);
      if Last(s).info.acc != acc {
        var o := Others(init, acc);
        var r := o + [Last(s)];
        forall a | 0 <= a < |o| ensures Less(o[a].key, Last(s).key) {
          OthersMembers(init, acc, o[a]);
          var k :| 0 <= k < |init| && init[k] == o[a];
          assert s[k] == o[a];
        }
        assert forall a :: 0 <= a < |o| ==> r[a] == o[a];
      }
    }
  }

  /** The entries reset(acc) keeps still carry keys that match their records' sizes. */
  lemma OthersSized(s: seq<Entry>, acc: Accelerator)
    requires Sized(s)
    ensures Sized(Others(s, acc))
  {
    forall e | e in Others(s, acc) ensures SizedEntry(e) {
      OthersMembers(s, acc, e);
    }
  }

  /** reset(acc) frees the base of an entry exactly when acc owns it and it is
      tracker-managed. */
  lemma {:induction false} ResetFreesMembers(s: seq<Entry>, acc: Accelerator, c: DriverCall)
    ensures c in ResetFrees(s, acc) <==>
            exists i :: 0 <= i < |s| && s[i].info.acc == acc && s[i].info.isAmManaged &&
                        c == PoolFree(s[i].key.basePointer)
    decreases |s|
  {
    if s != [] {
      var init := DropLast(s);
      ResetFreesMembers(init, acc, c);
      if c in ResetFrees(init, acc) {
        var i :| 0 <= i < |init| && init[i].info.acc == acc && init[i].info.isAmManaged &&
                 c == PoolFree(init[i].key.basePointer);
        assert s[i] == init[i];
      }
      if exists i :: 0 <= i < |s| && s[i].info.acc == acc && s[i].info.isAmManaged &&
                     c == PoolFree(s[i].key.basePointer) {
        var i :| 0 <= i < |s| && s[i].info.acc == acc && s[i].info.isAmManaged &&
                 c == PoolFree(s[i].key.basePointer);
        if i < |init| {
          assert init[i] == s[i];
        }
      }
    }
  }

  /** Every address freed by reset(acc) is freed once. */
  lemma {:induction false} ResetFreesOnce(s: seq<Entry>, acc: Accelerator)
    requires Ordered(s)
    ensures Distinct(ResetFrees(s, acc))
    decreases |s|
  {
    if s != [] {
      var init := DropLast(s);
      assert Ordered(init);
      ResetFreesOnce(init, acc);
      var f := ResetFrees(init, acc);
      if Last(s).info.acc == acc && Last(s).info.isAmManaged {
        var c := PoolFree(Last(s).key.basePointer);
        assert c !in f by {
          ResetFreesMembers(init, acc, c);
          forall i | 0 <= i < |init| ensures init[i].key.basePointer < Last(s).key.basePointer {
            assert Less(s[i].key, s[|s| - 1].key);
          }
        }
        var r := f + [c];
        assert forall a :: 0 <= a < |f| ==> r[a] == f[a];
      }
    }
  }

  /** update_peers(acc, peers) grants the peers access at the base of an entry exactly when acc
      owns it and it is device-resident. */
  lemma {:induction false} PeerGrantsMembers(s: seq<Entry>, acc: Accelerator, peers: seq<Agent>, c: DriverCall)
    ensures c in PeerGrants(s, acc, peers) <==>
            exists i :: 0 <= i < |s| && s[i].info.acc == acc && s[i].info.isInDeviceMem &&
                        c == AgentsAllowAccess(peers, s[i].key.basePointer)
    decreases |s|
  {
    if s != [] {
      var init := DropLast(s);
      PeerGrantsMembers(init, acc, peers, c);
      if c in PeerGrants(init, acc, peers) {
        var i :| 0 <= i < |init| && init[i].info.acc == acc && init[i].info.isInDeviceMem &&
                 c == AgentsAllowAccess(peers, init[i].key.basePointer);
        assert s[i] == init[i];
      }
      if exists i :: 0 <= i < |s| && s[i].info.acc == acc && s[i].info.isInDeviceMem &&
                     c == AgentsAllowAccess(peers, s[i].key.basePointer) {
        var i :| 0 <= i < |s| && s[i].info.acc == acc && s[i].info.isInDeviceMem &&
                 c == AgentsAllowAccess(peers, s[i].key.basePointer);
        if i < |init| {
          assert init[i] == s[i];
        }
      }
    }
  }

  /** After reset(acc), an address inside a range of another accelerator still resolves to the
      same entry, and an address inside a range acc owned resolves to nothing. */
  lemma ResetLookups(s: seq<Entry>, acc: Accelerator, i: nat, p: Address)
    requires Ordered(s) && i < |s| && Contains(s[i].key, p)
    ensures Ordered(Others(s, acc))
    ensures var r := Others(s, acc);
            s[i].info.acc != acc ==> Locate(r, p).Some? && r[Locate(r, p).value] == s[i]
    ensures s[i].info.acc == acc ==> Locate(Others(s, acc), p).None?
  {
    OthersOrdered(s, acc);
    var r := Others(s, acc);
    if s[i].info.acc != acc {
      OthersMembers(s, acc, s[i]);
      var k :| 0 <= k < |r| && r[k] == s[i];
      LocateFindsContaining(r, k, p);
    } else if Locate(r, p).Some? {
      var k := Locate(r, p).value;
      OthersMembers(s, acc, r[k]);
      var j :| 0 <= j < |s| && s[j] == r[k];
      if j != i {
        OrderedDisjoint(s, i, j, p);
      }
      assert false;
    }
  }

  /** The process-wide pointer tracker (g_amPointerTracker): a std::map from address ranges to
      allocation records, kept here as its entries in map order. */
  class AmPointerTracker {
    var tracker: seq<Entry>

    /** The map is in comparator order, and every key is the range its own record's size
        describes. */
    ghost predicate Valid()
      reads this
    {
      Ordered(tracker) && Sized(tracker)
    }

    constructor ()
      ensures Valid() && tracker == []
    {
      tracker := [];
    }

    /** insert(pointer, p): adds the pair keyed by AmMemoryRange(pointer, p._sizeBytes);
        std::map silently keeps the old entry when an overlapping key is present. */
    method Insert(pointer: Address, p: AmPointerInfo)
      requires Valid() && p.sizeBytes > 0
      modifies this
      ensures Valid()
      ensures tracker == InsertEntry(old(tracker), pointer, p)
    {
      tracker := InsertEntry(tracker, pointer, p);
    }

    /** remove(pointer): erases the entry whose range contains pointer and returns how many
        entries were erased. */
    method Remove(pointer: Address) returns (removed: nat)
      requires Valid()
      modifies this
      ensures Valid()
      ensures Locate(old(tracker), pointer).None? ==> removed == 0 && tracker == old(tracker)
      ensures Locate(old(tracker), pointer).Some? ==>
                var i := Locate(old(tracker), pointer).value;
                removed == 1 && tracker == old(tracker)[..i] + old(tracker)[i + 1..]
    {
      var iter := Locate(tracker, pointer);
      if iter.Some? {
        var i := iter.value;
        OrderedEraseAt(tracker, i);
        SizedEraseAt(tracker, i);
        tracker := tracker[..i] + tracker[i + 1..];
        removed := 1;
      } else {
        removed := 0;
      }
    }

    /** find(pointer): the position of the entry whose range contains pointer, or None for
        the end() iterator. */
    method Find(pointer: Address) returns (iter: Option<nat>)
      requires Valid()
      ensures iter == Locate(tracker, pointer)
    {
      iter := Locate(tracker, pointer);
    }

    /** reset(acc): walks the map, erasing every entry acc owns (freeing its base first when the
        tracker manages it) and counting the erased entries. */
    method Reset(acc: Accelerator, d: Driver) returns (count: nat)
      requires Valid()
      modifies this, d
      ensures Valid()
      ensures tracker == Others(old(tracker), acc)
      ensures count == OwnedCount(old(tracker), acc)
      ensures d.calls == old(d.calls) + ResetFrees(old(tracker), acc)
    {
      ghost var s0 := tracker;
      ghost var j := 0;
      count := 0;
      var i := 0;
      while i < |tracker|
        invariant 0 <= i <= |tracker| && 0 <= j <= |s0|
        invariant tracker[..i] == Others(s0[..j], acc)
        invariant tracker[i..] == s0[j..]
        invariant count == OwnedCount(s0[..j], acc)
        invariant d.calls == old(d.calls) + ResetFrees(s0[..j], acc)
        decreases |s0| - j
      {
        var e := tracker[i];
        assert e == s0[j];
        assert s0[..j + 1][..j] == s0[..j];
        if e.info.acc == acc {
          if e.info.isAmManaged {
            d.PoolFreeCall(e.key.basePointer);
          }
          count := count + 1;
          assert tracker[i + 1..] == s0[j + 1..];
          tracker := tracker[..i] + tracker[i + 1..];
          assert tracker[..i] == Others(s0[..j + 1], acc);
        } else {
          assert tracker[..i + 1] == tracker[..i] + [e];
          i := i + 1;
        }
        j := j + 1;
      }
      assert s0[j..] == [];
      assert s0[..j] == s0;
      assert tracker == tracker[..i];
      OthersOrdered(s0, acc);
      OthersSized(s0, acc);
    }

    /** update_peers(acc, peers): asks the driver to grant the peers access to every
        device-resident range acc owns; the tracker itself is not changed. */
    method UpdatePeers(acc: Accelerator, peerAgents: seq<Agent>, d: Driver)
      modifies d
      ensures d.calls == old(d.calls) + PeerGrants(tracker, acc, peerAgents)
    {
      var i := 0;
      while i < |tracker|
        invariant 0 <= i <= |tracker|
        invariant d.calls == old(d.calls) + PeerGrants(tracker[..i], acc, peerAgents)
      {
        var e := tracker[i];
        assert tracker[..i + 1][..i] == tracker[..i];
        if e.info.acc == acc {
          if e.info.isInDeviceMem {
            // The status of this call is ignored, so which one the driver gives does not matter.
            var ignored := d.AllowAccessCall(peerAgents, e.key.basePointer, HsaSuccess);
          }
        }
        i := i + 1;
      }
      assert tracker[..i] == tracker;
    }
  }
}
