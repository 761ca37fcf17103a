# hc_am: the AM pointer tracker and allocation API, in Dafny

This project models `lib/hsa/hc_am.cpp` of the HCC runtime. That file keeps a process-wide
pointer tracker, `g_amPointerTracker`. The tracker is an ordered map from byte ranges
(`AmMemoryRange`) to allocation records (`AmPointerInfo`). Its order is `AmMemoryRangeCompare`:
one range is less than another when it ends below the other's base. Two ranges are therefore
the same key exactly when they overlap. A lookup takes a one-byte range around a pointer, so
it finds the entry whose range contains that pointer.

On top of the tracker sit these calls:
- `am_alloc` and `am_free` allocate and free through the HSA driver and keep the tracker in step.
- `am_memtracker_*` register, look up, retag, remove, total and reset entries per accelerator.
- `am_map_to_peers` grants peer accelerators access to a tracked allocation.

How the model is built:
- **Pure parts.** The range, the comparator and the record copy are functions and lemmas
  (`AmTypes`, `MemoryRange`).
- **The map.** It is a sequence of entries kept in map order (`RangeMap.Ordered`). Insert, find
  and erase go through a recursive lower-bound search (`RangeMap.LowerBound`), as `std::map` does.
- **`AmPointerTracker`.** A class whose `tracker` field its methods reassign. Its invariant `Valid()` keeps
  the map in order and every key equal to the range its record's size describes (`RangeMap.Sized`). `reset` and
  `update_peers` are loops proved against recursive specification functions.
- **The API** is a set of methods over a tracker and a driver (`AmApi`).
- **The HSA driver** is the class `HsaDriver.Driver`. Each driver answer comes in as a
  parameter. A ghost log records every pool allocate, pool free and allow-access call, so
  contracts can say exactly which calls an operation issues. The access-policy query has no
  effect, so it is a function parameter and is not logged.

## Model

| member | source | states |
|---|---|---|
| AmTypes.Assign | lib/hsa/hc_am.cpp:23-35 | operator= copies every field, so the result equals the source record |
| MemoryRange.MakeRangeContains | lib/hsa/hc_am.cpp:43-44 | the range built from base and size holds exactly base .. base+size-1; base+size is outside it |
| MemoryRange.ProbeMatchesContainment | lib/hsa/hc_am.cpp:108-124 | the one-byte probe around p is the same key as a range iff that range contains p |
| MemoryRange.SameKeyIsOverlap | lib/hsa/hc_am.cpp:48-55 | two non-empty ranges that neither order before the other are exactly the ranges that share an address |
| MemoryRange.LessIsStrictOrder | lib/hsa/hc_am.cpp:48-55 | on non-empty ranges the comparator is a strict partial order: irreflexive and transitive |
| MemoryRange.SameKeyNotTransitive | lib/hsa/hc_am.cpp:48-55 | the comparator is not a strict weak order: [0,5] and [4,10] are the same key, so are [4,10] and [8,12], yet [0,5] orders before [8,12] |
| RangeMap.OrderedDisjoint | lib/hsa/hc_am.cpp:48-55 | in a map kept in comparator order no two entries contain the same address |
| RangeMap.LowerBound | lib/hsa/hc_am.cpp:98-124 | every entry before the result position orders before the key, and the entry at it does not |
| RangeMap.Locate | lib/hsa/hc_am.cpp:118-124 | find: a found entry contains p and is the only one that does; nothing is found iff no entry contains p |
| RangeMap.LocateFindsContaining | lib/hsa/hc_am.cpp:118-124 | proof helper for find: an entry that contains p is the one Locate returns |
| RangeMap.OrderedInsertAt | lib/hsa/hc_am.cpp:103 | proof helper for insert, a general sequence fact: placing a key between the keys below and above it keeps map order |
| RangeMap.OrderedEraseAt | lib/hsa/hc_am.cpp:108-114 | proof helper for remove, a general sequence fact: erasing any entry keeps map order |
| RangeMap.MultisetInsertAt | lib/hsa/hc_am.cpp:103 | proof helper for insert, a general sequence fact: inserting at a position adds exactly that one entry |
| RangeMap.InsertAtLowerBound | lib/hsa/hc_am.cpp:103 | a key that orders before the entry at its lower bound collides with nothing, and inserting it there keeps map order |
| RangeMap.InsertEntry | lib/hsa/hc_am.cpp:98-104 | the map stays ordered and keeps keys matched to record sizes; a range overlapping an entry leaves the map unchanged; otherwise exactly the new entry is added |
| RangeMap.InsertEntryShape | lib/hsa/hc_am.cpp:103 | a non-colliding entry lands at its lower bound, with all other entries kept in order |
| RangeMap.InsertThenLocate | lib/hsa/hc_am.cpp:98-124 | after a non-colliding insert every address of the new range finds the new record, and base+size does not find it |
| RangeMap.EraseLocated | lib/hsa/hc_am.cpp:108-114 | erasing the entry that contains p keeps order, leaves p untracked and keeps every other entry |
| RangeMap.SizedEraseAt | lib/hsa/hc_am.cpp:108-114 | erasing an entry keeps every remaining key equal to the range its record's size describes |
| RangeMap.RecordsDisjoint | lib/hsa/hc_am.cpp:98-104 | in a valid map no address lies in the byte ranges [base, base+sizeBytes) of two different records |
| RangeMap.LocateByRecord | lib/hsa/hc_am.cpp:118-124 | in a valid map p finds a record iff p lies in that record's [base, base+sizeBytes), and the found record has a non-zero size |
| RangeMap.InsertThenErase | lib/hsa/hc_am.cpp:98-114 | a non-colliding insert followed by a remove at the same pointer gives back the original map |
| PointerTracker.OthersMembers | lib/hsa/hc_am.cpp:137-148 | the entries left by reset(acc) are exactly the entries not owned by acc |
| PointerTracker.OwnedCountIsRemoved | lib/hsa/hc_am.cpp:135-150 | the count reset returns is the number of entries it removes |
| PointerTracker.OthersOrdered | lib/hsa/hc_am.cpp:144 | what reset leaves is still in map order |
| PointerTracker.OthersSized | lib/hsa/hc_am.cpp:144 | what reset leaves still has every key matched to its record's size |
| PointerTracker.ResetFreesMembers | lib/hsa/hc_am.cpp:138-141 | reset issues a free at a base iff an entry owned by acc and managed by the tracker starts there |
| PointerTracker.ResetFreesOnce | lib/hsa/hc_am.cpp:138-141 | reset frees no base twice |
| PointerTracker.PeerGrantsMembers | lib/hsa/hc_am.cpp:162-170 | update_peers grants the peers access at a base iff a device-resident entry owned by acc starts there |
| PointerTracker.ResetLookups | lib/hsa/hc_am.cpp:137-148 | after reset(acc), addresses in other accelerators' entries still find the same entry, and addresses in acc's entries find nothing |
| PointerTracker.AmPointerTracker.Insert | lib/hsa/hc_am.cpp:98-104 | the new map is InsertEntry of the old one |
| PointerTracker.AmPointerTracker.Remove | lib/hsa/hc_am.cpp:108-114 | returns 1 and erases exactly the entry containing p, or returns 0 and changes nothing |
| PointerTracker.AmPointerTracker.Find | lib/hsa/hc_am.cpp:118-124 | returns the entry containing p, or nothing iff no entry contains p |
| PointerTracker.AmPointerTracker.Reset | lib/hsa/hc_am.cpp:130-151 | keeps exactly the entries not owned by acc, returns how many it removed, and frees the base of each owned managed entry in map order |
| PointerTracker.AmPointerTracker.UpdatePeers | lib/hsa/hc_am.cpp:157-171 | issues one allow-access call for the peers at the base of each device-resident entry owned by acc, in map order, and changes no entry |
| SizeAccounting.BytesPartition | lib/hsa/hc_am.cpp:336-346 | an owned entry counts in exactly one of the device, host and user totals |
| SizeAccounting.BytesAppend | lib/hsa/hc_am.cpp:335-348 | the totals over two runs of entries add up |
| SizeAccounting.BytesSingle | lib/hsa/hc_am.cpp:336-346 | one entry adds its size to its owner's bucket of its kind only |
| SizeAccounting.BytesAfterReset | lib/hsa/hc_am.cpp:130-151 | after reset(acc), every total of acc is 0 and the totals of other accelerators are unchanged |
| SizeAccounting.BytesAfterInsert | lib/hsa/hc_am.cpp:98-104 | a non-colliding insert adds the record's size to one bucket of its owner; a colliding one changes no total |
| SizeAccounting.BytesAfterErase | lib/hsa/hc_am.cpp:108-114 | erasing an entry takes its size out of its owner's bucket of its kind only |
| PeerAccess.ScanPeersFails | lib/hsa/hc_am.cpp:405-425 | the candidate loop fails iff the policy query for some non-skipped candidate fails or answers NEVER_ALLOWED |
| PeerAccess.ScanPeersDistinct | lib/hsa/hc_am.cpp:426-438 | the collected agents have no duplicates and number at most the candidates |
| PeerAccess.ScanPeersOwnersAgentOnly | lib/hsa/hc_am.cpp:415-438 | as written, the collected list holds at most one agent, the owner's |
| PeerAccess.ScanPeersSkipsOwner | lib/hsa/hc_am.cpp:409-413 | as intended, for device memory every new agent belongs to a requested accelerator other than the owner |
| PeerAccess.ScanPeersCollectsEvery | lib/hsa/hc_am.cpp:405-438 | the loop only adds agents: it keeps those collected before, and every candidate it does not skip has its chosen agent in a successful result |
| PeerAccess.ScanPeersAllSkipped | lib/hsa/hc_am.cpp:405-413 | when every candidate is skipped, the loop succeeds with the agents it started from |
| PeerAccess.ScanPeersOwnersAgentExact | lib/hsa/hc_am.cpp:415-438 | as written, a successful loop from no agents yields none exactly when every candidate was skipped, and otherwise exactly the owner's agent |
| PeerAccess.OwnersAgentCounterexample | lib/hsa/hc_am.cpp:415 | for owner A with candidates [A, B], the loop as written grants A's agent, while the intended loop grants B's |
| AmApi.AllocRecordShape | lib/hsa/hc_am.cpp:211-225 | am_alloc's record is managed, of the requested size, device-resident iff not host-pinned, with host pointer ptr when pinned and NULL otherwise |
| AmApi.AmAlloc | lib/hsa/hc_am.cpp:189-232 | size 0, a non-HSA accelerator or a missing pool return NULL with no call; a failed allocate returns NULL with no entry; a failed pinned grant frees and returns NULL; otherwise the record is inserted and ptr returned |
| AmApi.AmFree | lib/hsa/hc_am.cpp:235-249 | NULL succeeds with no call; otherwise the free is always issued, the entry containing ptr is erased, and the status is an error iff there was none |
| AmApi.MemtrackerGetinfo | lib/hsa/hc_am.cpp:268-277 | succeeds iff some entry contains ptr and then copies out that entry's record, with base <= ptr < base + its sizeBytes; on error the caller's record is untouched |
| AmApi.MemtrackerAdd | lib/hsa/hc_am.cpp:279-288 | always succeeds; inserts an unmanaged record whose host pointer is ptr for device memory and NULL for host memory |
| AmApi.RetagKeepsInvariant | lib/hsa/hc_am.cpp:295-296 | changing the application tags of an entry keeps map order and keeps its key matched to its size |
| AmApi.MemtrackerUpdate | lib/hsa/hc_am.cpp:291-301 | sets appId and the allocation flags of the entry containing ptr and nothing else; an error iff there is none |
| AmApi.MemtrackerRemove | lib/hsa/hc_am.cpp:304-314 | erases the entry containing ptr; an error iff none was removed; afterwards ptr is untracked |
| AmApi.MemtrackerSizeinfo | lib/hsa/hc_am.cpp:332-351 | the three totals are acc's device, host and user bytes over the whole map, and the map is not changed |
| AmApi.MemtrackerReset | lib/hsa/hc_am.cpp:355-358 | the same effect and count as AmPointerTracker.Reset |
| AmApi.MemtrackerUpdatePeers | lib/hsa/hc_am.cpp:361-364 | the same grants as AmPointerTracker.UpdatePeers |
| AmApi.MapToPeersPlanProperties | lib/hsa/hc_am.cpp:366-439 | errors for NULL, an empty list, an untracked pointer or an unmanaged host pointer, and otherwise exactly when a policy query is refused; any grant list has no duplicates and at most as many agents as candidates |
| AmApi.MapToPeersPlanAgents | lib/hsa/hc_am.cpp:405-448 | as written, the grant list is exactly the owner's agent iff some candidate is not skipped, and empty (success with no grant call) iff every candidate is skipped; as intended, it holds the agent of every non-skipped candidate, is empty iff every candidate is skipped, and for device memory holds only agents of requested accelerators other than the owner |
| AmApi.MapToPeers | lib/hsa/hc_am.cpp:366-449 | the buffer loop computes the plan; failure issues no call; an empty plan succeeds with no grant; otherwise one grant call at ptr, succeeding iff the driver does |

## Left out

- Locking: the mutex and the reader lock are not modelled. Each operation runs atomically and
  sequentially.
- am_copy: this wrapper only maps a driver status, and its copy is a foreign call.
- Diagnostics: operator<<, am_memtracker_print, mprintf and the printf in update_peers are
  output only.
- Driver calls are not executed. Their answers come in as parameters, and the calls that
  change state are logged. The accelerator queries are fields of `Accelerator`: is_hsa_accelerator,
  get_hsa_am_region, get_hsa_am_system_region and get_hsa_agent. accelerator::get_all is not
  modelled.
- The pool access-policy query is a function parameter and is not in the call log. It has no
  effect on the driver.
- Addresses and sizes are unbounded naturals. The model does not capture pointer-width
  wrap-around of base + size - 1, or size_t overflow of the totals in am_memtracker_sizeinfo.
- The std::map is modelled as a sorted sequence. The logarithmic lookup cost is not modelled.
- AmMemoryRangeCompare is not a strict weak order (`MemoryRange.SameKeyNotTransitive`). When
  a key overlaps several stored entries, the C++ standard leaves std::map's behaviour undefined.
  The model fixes one semantics for that case: the lower bound, then one comparator test. This
  agrees with the real map because the stored keys never overlap.
- hc::accelerator equality is modelled as equality of the `Accelerator` value, that is of all
  five of its fields. The runtime's own operator== is not part of this model.
- MemtrackerSizeinfo: the three totals are separate results. The model does not capture what
  happens when the caller passes aliased out-pointers to am_memtracker_sizeinfo.
- MapToPeers: the agent buffer has as many slots as there are candidates, not the number of
  accelerators in the system.
- hc_am.hpp and the hc::accelerator headers are not part of this model, so four things are
  assumptions: the default appId of -1 and the default allocation flags of 0 for a new
  AmPointerInfo, the value 0x1 of amHostPinned, and that the agent am_alloc reads
  (`acc.get_default_view().get_hsa_agent()`) and the agent am_map_to_peers reads
  (`acc.get_hsa_agent()`) are the same agent, modelled as `Accelerator.agent`.
- MemtrackerUpdatePeers: the peers are a sequence of agents, not a count plus an array. A
  negative peerCnt, or one that does not match the array's length, cannot be expressed.
- PointerTracker.AmPointerTracker.Insert: requires a non-zero size. A zero-size key ends below
  its base, which makes the comparator non-irreflexive, and std::map's behaviour is then undefined.
- AmApi.MemtrackerAdd: requires a non-zero size, for the same reason. am_alloc guards size 0 itself.
- The test files in the repository (the atomic_int kernel test and the conformance tests) are
  not modelled. They exercise the compiler and concurrency, not this core.

## Findings

| source | as written | input that shows it | evidently intended | confidence | as-written member | corrected member |
|---|---|---|---|---|---|---|
| lib/hsa/hc_am.cpp:415 | each candidate's agent is taken from the owner `acc`, so the grant list is at most the owner's own agent | device memory owned by A, list [A, B]: A is skipped, B contributes A's agent, and A is granted instead of B | the agent of the candidate `a` | not executed | PeerAccess.OwnersAgentCounterexample | AmApi.MapToPeersPlanAgents |

`AmApi.MapToPeers` and `AmApi.MapToPeersPlan` take an `AgentChoice`. `OwnersAgent` is the loop as
written, and `AmApi.MapToPeersPlanAgents` proves it grants exactly the owner's agent whenever
some candidate is not skipped. `CandidatesAgent` is the corrected loop. The same lemma proves
that it grants the agent of every candidate not skipped. It also proves, through
`PeerAccess.ScanPeersSkipsOwner`, that for device memory it grants only agents of requested
accelerators other than the owner.
