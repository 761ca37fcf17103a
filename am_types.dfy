/** Values shared by the pointer tracker and the allocation API: addresses, accelerators,
    status codes and the per-allocation record AmPointerInfo. */
module AmTypes {

  datatype Option<+T> = None | Some(value: T)

  /** am_status_t: every API call either succeeds or fails with one undifferentiated code. */
  datatype AmStatus = AmSuccess | AmErrorMisc

  /** hsa_status_t, reduced to the one distinction the core reads. */
  datatype HsaStatus = HsaSuccess | HsaError

  /** A byte address; 0 is the null pointer. Addresses are unbounded (no pointer-width wrap). */
  type Address = nat

  const NULL: Address := 0

  /** An hsa_agent_t, identified by its handle. */
  type Agent = nat

  /** The handle of an hsa_amd_memory_pool_t; -1 marks a pool the accelerator does not have. */
  type PoolHandle = int

  const InvalidPool: PoolHandle := -1

  type Int32 = x: int | -0x8000_0000 <= x < 0x8000_0000

  /** The accelerator facts the core reads: an identifier, whether it is an HSA accelerator,
      its default agent and its device (`am_region`) and host-pinned (`am_system_region`)
      memory pools. Two accelerators are equal when all five agree. */
  datatype Accelerator = Accelerator(
    id: nat,
    isHsa: bool,
    agent: Agent,
    amRegion: PoolHandle,
    amSystemRegion: PoolHandle)

  /** hc::AmPointerInfo: what the tracker knows about one tracked allocation. */
  datatype AmPointerInfo = AmPointerInfo(
    hostPointer: Address,
    devicePointer: Address,
    sizeBytes: nat,
    acc: Accelerator,
    isInDeviceMem: bool,
    isAmManaged: bool,
    appId: Int32,
    appAllocationFlags: bv32)

  /** The application tags a freshly constructed AmPointerInfo carries. */
  const DefaultAppId: Int32 := -1
  const DefaultAppAllocationFlags: bv32 := 0

  /** The six-argument AmPointerInfo constructor used by am_alloc and am_memtracker_add. */
  function NewPointerInfo(hostPointer: Address, devicePointer: Address, sizeBytes: nat,
                          acc: Accelerator, isInDeviceMem: bool, isAmManaged: bool): AmPointerInfo
  {
    AmPointerInfo(hostPointer, devicePointer, sizeBytes, acc, isInDeviceMem, isAmManaged,
                  DefaultAppId, DefaultAppAllocationFlags)
  }

  /** AmPointerInfo::operator=: the target receives every field of the source, so the copy
      is indistinguishable from the original. */
  function Assign(other: AmPointerInfo): (r: AmPointerInfo)
    ensures r == other
  {
    AmPointerInfo(other.hostPointer, other.devicePointer, other.sizeBytes, other.acc,
                  other.isInDeviceMem, other.isAmManaged, other.appId, other.appAllocationFlags)
  }

  function Last<T>(s: seq<T>): T
    requires s != []
  {
    s[|s| - 1]
  }

  function DropLast<T>(s: seq<T>): seq<T>
    requires s != []
  {
    s[..|s| - 1]
  }

  /** No value occurs twice. */
  ghost predicate Distinct<T>(s: seq<T>)
  {
    forall i, j :: 0 <= i < |s| && 0 <= j < |s| && i != j ==> s[i] != s[j]
  }
}
