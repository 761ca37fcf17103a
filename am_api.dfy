/** The hc::am_* API: allocation and release through the driver, mirrored into the pointer
    tracker, and the tracker maintenance calls. The process-wide tracker and the driver are
    passed in explicitly. */
module AmApi {
  import opened AmTypes
  import opened MemoryRange
  import opened RangeMap
  import opened HsaDriver
  import opened PointerTracker
  import opened SizeAccounting
  import opened PeerAccess

  /** The amHostPinned allocation flag. */
  const AmHostPinned: bv32 := 0x1

  predicate HostPinned(flags: bv32)
  {
    flags & AmHostPinned != 0
  }

  /** The pool am_alloc draws from: the host-pinned system pool or the device pool. */
  function AllocPool(acc: Accelerator, flags: bv32): PoolHandle
  {
    if HostPinned(flags) then acc.amSystemRegion else acc.amRegion
  }

  /** am_alloc asks the driver for memory only for a non-zero size on an HSA accelerator
      whose chosen pool exists. */
  predicate AllocAttempted(sizeBytes: nat, acc: Accelerator, flags: bv32)
  {
    sizeBytes != 0 && acc.isHsa && AllocPool(acc, flags) != InvalidPool
  }

  /** The record am_alloc registers for a fresh allocation: tracker-managed, device-resident
      unless host-pinned, with the pointer as host pointer only when host-pinned. */
  function AllocRecord(ptr: Address, sizeBytes: nat, acc: Accelerator, flags: bv32): AmPointerInfo
  {
    if HostPinned(flags) then NewPointerInfo(ptr, ptr, sizeBytes, acc, false, true)
    else NewPointerInfo(NULL, ptr, sizeBytes, acc, true, true)
  }

  /** The record am_memtracker_add registers for memory the application manages itself. */
  function AddRecord(ptr: Address, sizeBytes: nat, acc: Accelerator, isDeviceMem: bool): AmPointerInfo
  {
    if isDeviceMem then NewPointerInfo(ptr, ptr, sizeBytes, acc, true, false)
    else NewPointerInfo(NULL, ptr, sizeBytes, acc, false, false)
  }

  /** The record am_alloc registers is tracker-managed, of the requested size, device-resident
      exactly when not host-pinned, and carries the pointer as host pointer exactly when
      host-pinned. */
  lemma AllocRecordShape(ptr: Address, sizeBytes: nat, acc: Accelerator, flags: bv32)
    ensures var r := AllocRecord(ptr, sizeBytes, acc, flags);
            && r.isAmManaged && r.sizeBytes == sizeBytes && r.acc == acc && r.devicePointer == ptr
            && r.isInDeviceMem == !HostPinned(flags)
            && r.hostPointer == (if HostPinned(flags) then ptr else NULL)
            && KindOf(r) == (if HostPinned(flags) then HostMem else DeviceMem)
  {
  }

  /** am_alloc(sizeBytes, acc, flags). The driver's answers to the pool allocation and to the
      access grant of a host-pinned allocation come in as allocReply and allowReply. */
  method AmAlloc(t: AmPointerTracker, d: Driver, sizeBytes: nat, acc: Accelerator, flags: bv32,
                 allocReply: AllocReply, allowReply: HsaStatus) returns (ptr: Address)
    requires t.Valid()
    modifies t, d
    ensures t.Valid()
    ensures !AllocAttempted(sizeBytes, acc, flags) ==>
              ptr == NULL && t.tracker == old(t.tracker) && d.calls == old(d.calls)
    ensures AllocAttempted(sizeBytes, acc, flags) && allocReply.AllocFailed? ==>
              && ptr == NULL && t.tracker == old(t.tracker)
              && d.calls == old(d.calls) + [PoolAllocate(AllocPool(acc, flags), sizeBytes)]
    ensures AllocAttempted(sizeBytes, acc, flags) && allocReply.Allocated? && HostPinned(flags) ==>
              var p := allocReply.ptr;
              && d.calls == old(d.calls) + [PoolAllocate(acc.amSystemRegion, sizeBytes),
                                            AgentsAllowAccess([acc.agent], p)] +
                                           (if allowReply == HsaSuccess then [] else [PoolFree(p)])
              && (allowReply == HsaSuccess ==>
                    ptr == p && t.tracker == InsertEntry(old(t.tracker), p, AllocRecord(p, sizeBytes, acc, flags)))
              && (allowReply != HsaSuccess ==> ptr == NULL && t.tracker == old(t.tracker))
    ensures AllocAttempted(sizeBytes, acc, flags) && allocReply.Allocated? && !HostPinned(flags) ==>
              var p := allocReply.ptr;
              && d.calls == old(d.calls) + [PoolAllocate(acc.amRegion, sizeBytes)]
              && ptr == p && t.tracker == InsertEntry(old(t.tracker), p, AllocRecord(p, sizeBytes, acc, flags))
  {
    ptr := NULL;
    if sizeBytes != 0 {
      if acc.isHsa {
        var hsaAgent := acc.agent;
        var allocRegion := AllocPool(acc, flags);
        if allocRegion != InvalidPool {
          var s1 := d.PoolAllocateCall(allocRegion, sizeBytes, allocReply);
          if s1.AllocFailed? {
            ptr := NULL;
          } else {
            ptr := s1.ptr;
            if HostPinned(flags) {
              var s2 := d.AllowAccessCall([hsaAgent], ptr, allowReply);
              if s2 != HsaSuccess {
                d.PoolFreeCall(ptr);
                ptr := NULL;
              } else {
                t.Insert(ptr, NewPointerInfo(ptr, ptr, sizeBytes, acc, false, true));
              }
            } else {
              t.Insert(ptr, NewPointerInfo(NULL, ptr, sizeBytes, acc, true, true));
            }
          }
        }
      }
    }
  }

  /** am_free(ptr): frees through the driver whether or not ptr is tracked, then drops the
      entry containing ptr; fails when there was none. */
  method AmFree(t: AmPointerTracker, d: Driver, ptr: Address) returns (status: AmStatus)
    requires t.Valid()
    modifies t, d
    ensures t.Valid()
    ensures ptr == NULL ==> status == AmSuccess && t.tracker == old(t.tracker) && d.calls == old(d.calls)
    ensures ptr != NULL ==> d.calls == old(d.calls) + [PoolFree(ptr)]
    ensures ptr != NULL ==> (status == AmErrorMisc <==> !Tracked(old(t.tracker), ptr))
    ensures ptr != NULL ==> !Tracked(t.tracker, ptr)
    ensures ptr != NULL && Locate(old(t.tracker), ptr).None? ==> t.tracker == old(t.tracker)
    ensures ptr != NULL && Locate(old(t.tracker), ptr).Some? ==>
              var i := Locate(old(t.tracker), ptr).value;
              t.tracker == old(t.tracker)[..i] + old(t.tracker)[i + 1..]
  {
    status := AmSuccess;
    if ptr != NULL {
      d.PoolFreeCall(ptr);
      if Locate(t.tracker, ptr).Some? {
        EraseLocated(t.tracker, ptr);
      }
      var numRemoved := t.Remove(ptr);
      if numRemoved == 0 {
        status := AmErrorMisc;
      }
    }
  }

  /** am_memtracker_getinfo(info, ptr): copies out the record of the range containing ptr;
      leaves *info as it was and fails when no range contains ptr. */
  method MemtrackerGetinfo(t: AmPointerTracker, info: AmPointerInfo, ptr: Address)
    returns (status: AmStatus, result: AmPointerInfo)
    requires t.Valid()
    ensures status == AmSuccess <==> Tracked(t.tracker, ptr)
    ensures status == AmSuccess ==>
              exists i :: 0 <= i < |t.tracker| && Contains(t.tracker[i].key, ptr) && result == t.tracker[i].info &&
                          t.tracker[i].key.basePointer <= ptr < t.tracker[i].key.basePointer + result.sizeBytes
    ensures status == AmErrorMisc ==> result == info
  {
    var iter := t.Find(ptr);
    LocateByRecord(t.tracker, ptr);
    if iter.Some? {
      result := Assign(t.tracker[iter.value].info);
      status := AmSuccess;
    } else {
      result := info;
      status := AmErrorMisc;
    }
  }

  /** am_memtracker_add(ptr, sizeBytes, acc, isDeviceMem): registers memory the tracker does
      not manage; reports success even when an overlapping entry made the insert a no-op. */
  method MemtrackerAdd(t: AmPointerTracker, ptr: Address, sizeBytes: nat, acc: Accelerator, isDeviceMem: bool)
    returns (status: AmStatus)
    requires t.Valid() && sizeBytes > 0
    modifies t
    ensures t.Valid()
    ensures status == AmSuccess
    ensures t.tracker == InsertEntry(old(t.tracker), ptr, AddRecord(ptr, sizeBytes, acc, isDeviceMem))
  {
    if isDeviceMem {
      t.Insert(ptr, NewPointerInfo(ptr, ptr, sizeBytes, acc, true, false));
    } else {
      t.Insert(ptr, NewPointerInfo(NULL, ptr, sizeBytes, acc, false, false));
    }
    status := AmSuccess;
  }

  /** Only the application tags of an entry change; its range and its size stay, so the map
      order and the key-size agreement do. */
  lemma RetagKeepsInvariant(s: seq<Entry>, i: nat, appId: Int32, allocationFlags: bv32)
    requires Ordered(s) && Sized(s) && i < |s|
    ensures var r := s[i := Entry(s[i].key, s[i].info.(appId := appId, appAllocationFlags := allocationFlags))];
            Ordered(r) && Sized(r)
  {
    var r := s[i := Entry(s[i].key, s[i].info.(appId := appId, appAllocationFlags := allocationFlags))];
    assert forall k :: 0 <= k < |s| ==> r[k].key == s[k].key;
    assert SizedEntry(s[i]);
    forall e | e in r ensures SizedEntry(e) {
      var k :| 0 <= k < |r| && r[k] == e;
      if k != i {
        assert r[k] == s[k];
      }
    }
  }

  /** am_memtracker_update(ptr, appId, allocationFlags): rewrites the two application tags of the
      entry containing ptr, in place; fails when no entry contains ptr. */
  method MemtrackerUpdate(t: AmPointerTracker, ptr: Address, appId: Int32, allocationFlags: bv32)
    returns (status: AmStatus)
    requires t.Valid()
    modifies t
    ensures t.Valid()
    ensures status == AmSuccess <==> Tracked(old(t.tracker), ptr)
    ensures Locate(old(t.tracker), ptr).None? ==> t.tracker == old(t.tracker)
    ensures Locate(old(t.tracker), ptr).Some? ==>
              var i := Locate(old(t.tracker), ptr).value;
              var e := old(t.tracker)[i];
              t.tracker == old(t.tracker)[i := Entry(e.key, e.info.(appId := appId, appAllocationFlags := allocationFlags))]
  {
    var iter := t.Find(ptr);
    if iter.Some? {
      var i := iter.value;
      var e := t.tracker[i];
      RetagKeepsInvariant(t.tracker, i, appId, allocationFlags);
      t.tracker := t.tracker[i := Entry(e.key, e.info.(appId := appId, appAllocationFlags := allocationFlags))];
      status := AmSuccess;
    } else {
      status := AmErrorMisc;
    }
  }

  /** am_memtracker_remove(ptr): drops the entry containing ptr without freeing anything; fails
      when none was removed. */
  method MemtrackerRemove(t: AmPointerTracker, ptr: Address) returns (status: AmStatus)
    requires t.Valid()
    modifies t
    ensures t.Valid()
    ensures status == AmErrorMisc <==> !Tracked(old(t.tracker), ptr)
    ensures !Tracked(t.tracker, ptr)
    ensures Locate(old(t.tracker), ptr).None? ==> t.tracker == old(t.tracker)
    ensures Locate(old(t.tracker), ptr).Some? ==>
              var i := Locate(old(t.tracker), ptr).value;
              t.tracker == old(t.tracker)[..i] + old(t.tracker)[i + 1..]
  {
    status := AmSuccess;
    if Locate(t.tracker, ptr).Some? {
      EraseLocated(t.tracker, ptr);
    }
    var numRemoved := t.Remove(ptr);
    if numRemoved == 0 {
      status := AmErrorMisc;
    }
  }

  /** am_memtracker_sizeinfo(acc): one pass over the map that sorts the size of every entry acc
      owns into its bucket; entries of other accelerators add nothing. */
  method MemtrackerSizeinfo(t: AmPointerTracker, acc: Accelerator)
    returns (deviceMemSize: nat, hostMemSize: nat, userMemSize: nat)
    ensures deviceMemSize == Bytes(t.tracker, acc, DeviceMem)
    ensures hostMemSize == Bytes(t.tracker, acc, HostMem)
    ensures userMemSize == Bytes(t.tracker, acc, UserMem)
  {
    deviceMemSize, hostMemSize, userMemSize := 0, 0, 0;
    var i := 0;
    while i < |t.tracker|
      invariant 0 <= i <= |t.tracker|
      invariant deviceMemSize == Bytes(t.tracker[..i], acc, DeviceMem)
      invariant hostMemSize == Bytes(t.tracker[..i], acc, HostMem)
      invariant userMemSize == Bytes(t.tracker[..i], acc, UserMem)
    {
      var e := t.tracker[i];
      assert DropLast(t.tracker[..i + 1]) == t.tracker[..i] && Last(t.tracker[..i + 1]) == e;
      if e.info.acc == acc {
        var sizeBytes := e.info.sizeBytes;
        if e.info.isAmManaged {
          if e.info.isInDeviceMem {
            deviceMemSize := deviceMemSize + sizeBytes;
          } else {
            hostMemSize := hostMemSize + sizeBytes;
          }
        } else {
          userMemSize := userMemSize + sizeBytes;
        }
      }
      i := i + 1;
    }
    assert t.tracker[..i] == t.tracker;
  }

  /** am_memtracker_reset(acc). */
  method MemtrackerReset(t: AmPointerTracker, d: Driver, acc: Accelerator) returns (count: nat)
    requires t.Valid()
    modifies t, d
    ensures t.Valid()
    ensures t.tracker == Others(old(t.tracker), acc)
    ensures count == OwnedCount(old(t.tracker), acc)
    ensures d.calls == old(d.calls) + ResetFrees(old(t.tracker), acc)
  {
    count := t.Reset(acc, d);
  }

  /** am_memtracker_update_peers(acc, peerCnt, peerAgents), with the peers as a sequence. */
  method MemtrackerUpdatePeers(t: AmPointerTracker, d: Driver, acc: Accelerator, peerAgents: seq<Agent>)
    modifies d
    ensures d.calls == old(d.calls) + PeerGrants(t.tracker, acc, peerAgents)
  {
    t.UpdatePeers(acc, peerAgents, d);
  }

  /** The pool am_map_to_peers queries: the owner's device pool for device-resident memory,
      its system pool otherwise. */
  function PeerPool(info: AmPointerInfo): PoolHandle
  {
    if info.isInDeviceMem then info.acc.amRegion else info.acc.amSystemRegion
  }

  /** What am_map_to_peers decides before its grant call: None for failure, otherwise the
      agents to grant (possibly none). `choice` says whose agent a candidate contributes:
      the owner's, as written, or the candidate's own, as intended. */
  function MapToPeersPlan(s: seq<Entry>, ptr: Address, list: seq<Accelerator>,
                          policy: (Agent, PoolHandle) -> AccessReply, choice: AgentChoice): Option<seq<Agent>>
    requires Ordered(s)
  {
    if ptr == NULL || |list| == 0 then None
    else match Locate(s, ptr)
      case None => None
      case Some(i) =>
        var info := s[i].info;
        if !info.isInDeviceMem && !info.isAmManaged then None
        else ScanPeers(list, info.acc, info.isInDeviceMem, PeerPool(info), policy, choice, [])
  }

  /** am_map_to_peers fails for a null pointer, an empty list, an untracked pointer and host
      memory the tracker does not manage; otherwise it fails exactly when the policy query for
      a non-skipped candidate fails or answers NEVER_ALLOWED. Any agent list it grants has no
      duplicates and no more agents than candidates. */
  lemma MapToPeersPlanProperties(s: seq<Entry>, ptr: Address, list: seq<Accelerator>,
                                 policy: (Agent, PoolHandle) -> AccessReply, choice: AgentChoice)
    requires Ordered(s)
    ensures ptr == NULL || |list| == 0 || !Tracked(s, ptr) ==> MapToPeersPlan(s, ptr, list, policy, choice).None?
    ensures ptr != NULL && |list| > 0 && Tracked(s, ptr) ==>
              var info := s[Locate(s, ptr).value].info;
              && (!info.isInDeviceMem && !info.isAmManaged ==> MapToPeersPlan(s, ptr, list, policy, choice).None?)
              && (info.isInDeviceMem || info.isAmManaged ==>
                    (MapToPeersPlan(s, ptr, list, policy, choice).None? <==>
                     exists k :: 0 <= k < |list| && !Skipped(info.acc, info.isInDeviceMem, list[k]) &&
                                 Refused(policy(ChosenAgent(choice, info.acc, list[k]), PeerPool(info)))))
    ensures MapToPeersPlan(s, ptr, list, policy, choice).Some? ==>
              var agents := MapToPeersPlan(s, ptr, list, policy, choice).value;
              Distinct(agents) && |agents| <= |list|
  {
    if ptr != NULL && |list| > 0 && Tracked(s, ptr) {
      var info := s[Locate(s, ptr).value].info;
      if info.isInDeviceMem || info.isAmManaged {
        ScanPeersFails(list, info.acc, info.isInDeviceMem, PeerPool(info), policy, choice, []);
        ScanPeersDistinct(list, info.acc, info.isInDeviceMem, PeerPool(info), policy, choice, []);
      }
    }
  }

  /** As written, the grant list is exactly the owner's agent when some candidate is not
      skipped, and empty (so no grant call is made) when every candidate is skipped. As
      intended, it holds the agent of every candidate not skipped and, for device memory,
      only agents of requested accelerators other than the owner. */
  lemma MapToPeersPlanAgents(s: seq<Entry>, ptr: Address, list: seq<Accelerator>,
                             policy: (Agent, PoolHandle) -> AccessReply)
    requires Ordered(s)
    ensures MapToPeersPlan(s, ptr, list, policy, OwnersAgent).Some? ==>
              var agents := MapToPeersPlan(s, ptr, list, policy, OwnersAgent).value;
              var info := s[Locate(s, ptr).value].info;
              && |agents| <= 1 && (forall x :: x in agents ==> x == info.acc.agent)
              && (agents == [info.acc.agent] <==> exists a :: a in list && !Skipped(info.acc, info.isInDeviceMem, a))
              && (agents == [] <==> forall a :: a in list ==> Skipped(info.acc, info.isInDeviceMem, a))
    ensures MapToPeersPlan(s, ptr, list, policy, CandidatesAgent).Some? ==>
              var agents := MapToPeersPlan(s, ptr, list, policy, CandidatesAgent).value;
              var info := s[Locate(s, ptr).value].info;
              && (forall a :: a in list && !Skipped(info.acc, info.isInDeviceMem, a) ==> a.agent in agents)
              && (agents == [] <==> forall a :: a in list ==> Skipped(info.acc, info.isInDeviceMem, a))
    ensures MapToPeersPlan(s, ptr, list, policy, CandidatesAgent).Some? &&
            s[Locate(s, ptr).value].info.isInDeviceMem ==>
              var owner := s[Locate(s, ptr).value].info.acc;
              forall x :: x in MapToPeersPlan(s, ptr, list, policy, CandidatesAgent).value ==>
                exists a :: a in list && a != owner && x == a.agent
  {
    if ptr != NULL && |list| > 0 && Tracked(s, ptr) {
      var info := s[Locate(s, ptr).value].info;
      if info.isInDeviceMem || info.isAmManaged {
        ScanPeersOwnersAgentOnly(list, info.acc, info.isInDeviceMem, PeerPool(info), policy, []);
        ScanPeersOwnersAgentExact(list, info.acc, info.isInDeviceMem, PeerPool(info), policy, []);
        ScanPeersCollectsEvery(list, info.acc, info.isInDeviceMem, PeerPool(info), policy, CandidatesAgent, []);
        if forall a :: a in list ==> Skipped(info.acc, info.isInDeviceMem, a) {
          ScanPeersAllSkipped(list, info.acc, info.isInDeviceMem, PeerPool(info), policy, CandidatesAgent, []);
        }
        if info.isInDeviceMem {
          ScanPeersSkipsOwner(list, info.acc, PeerPool(info), policy, []);
        }
      }
    }
  }

  /** am_map_to_peers(ptr, list): collects the agents to grant in a fixed-size buffer, one
      candidate at a time, and grants them access to ptr in a single driver call when there are
      any. The driver's policy answers come in as `policy`, its grant answer as allowReply.
      With `OwnersAgent` this is the code as written; `CandidatesAgent` is the corrected loop. */
  method MapToPeers(t: AmPointerTracker, d: Driver, ptr: Address, list: seq<Accelerator>,
                    policy: (Agent, PoolHandle) -> AccessReply, allowReply: HsaStatus, choice: AgentChoice)
    returns (status: AmStatus)
    requires t.Valid()
    modifies d
    ensures var plan := MapToPeersPlan(t.tracker, ptr, list, policy, choice);
            && (plan.None? ==> status == AmErrorMisc && d.calls == old(d.calls))
            && (plan == Some([]) ==> status == AmSuccess && d.calls == old(d.calls))
            && (plan.Some? && plan.value != [] ==>
                  d.calls == old(d.calls) + [AgentsAllowAccess(plan.value, ptr)] &&
                  (status == AmSuccess <==> allowReply == HsaSuccess))
  {
    if ptr == NULL || |list| == 0 {
      return AmErrorMisc;
    }
    var iter := t.Find(ptr);
    if iter.None? {
      return AmErrorMisc;
    }
    var info := t.tracker[iter.value].info;
    var acc: Accelerator;
    var pool: PoolHandle;
    if info.isInDeviceMem {
      acc := info.acc;
      pool := acc.amRegion;
    } else {
      if info.isAmManaged {
        acc := info.acc;
        pool := acc.amSystemRegion;
      } else {
        return AmErrorMisc;
      }
    }
    ghost var plan := ScanPeers(list, acc, info.isInDeviceMem, pool, policy, choice, []);
    assert plan == MapToPeersPlan(t.tracker, ptr, list, policy, choice);

    var agents := new Agent[|list|];
    var peerCount := 0;
    var k := 0;
    assert agents[..0] == [];
    while k < |list|
      modifies agents
      invariant 0 <= k <= |list| && peerCount <= k
      invariant plan == ScanPeers(list[k..], acc, info.isInDeviceMem, pool, policy, choice, agents[..peerCount])
    {
      var a := list[k];
      assert list[k..][0] == a && list[k..][1..] == list[k + 1..];
      // A device-resident pointer's own accelerator needs no grant.
      if info.isInDeviceMem && a == acc {
        k := k + 1;
        continue;
      }
      // As written the agent is the owner's, acc, rather than the candidate a's.
      var agent := ChosenAgent(choice, acc, a);
      var access := policy(agent, pool);
      if access.status != HsaSuccess {
        return AmErrorMisc;
      }
      if access.access == NeverAllowed {
        return AmErrorMisc;
      }
      var addAgent := true;
      var ii := 0;
      while ii < peerCount
        invariant 0 <= ii <= peerCount
        invariant addAgent <==> agent !in agents[..ii]
      {
        if agent == agents[ii] {
          addAgent := false;
        }
        assert agents[..ii + 1] == agents[..ii] + [agents[ii]];
        ii := ii + 1;
      }
      assert agents[..ii] == agents[..peerCount];
      ghost var collected := agents[..peerCount];
      if addAgent {
        agents[peerCount] := agent;
        peerCount := peerCount + 1;
        assert agents[..peerCount] == collected + [agent];
      }
      k := k + 1;
    }
    assert list[k..] == [];
    if peerCount != 0 {
      var s := d.AllowAccessCall(agents[..peerCount], ptr, allowReply);
      status := if s == HsaSuccess then AmSuccess else AmErrorMisc;
    } else {
      status := AmSuccess;
    }
  }
}
