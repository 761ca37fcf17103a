/** The HSA runtime as the core sees it. Its answers come in as parameters; the calls that
    change driver state are recorded in a ghost log so properties can speak about them. */
module HsaDriver {
  import opened AmTypes

  /** A state-changing driver call the core issued. */
  datatype DriverCall =
    | PoolAllocate(pool: PoolHandle, sizeBytes: nat)   // hsa_amd_memory_pool_allocate
    | PoolFree(ptr: Address)                           // hsa_amd_memory_pool_free
    | AgentsAllowAccess(agents: seq<Agent>, ptr: Address) // hsa_amd_agents_allow_access

  /** What hsa_amd_memory_pool_allocate reports: a fresh pointer, or failure. */
  datatype AllocReply = Allocated(ptr: Address) | AllocFailed

  /** HSA_AMD_MEMORY_POOL_ACCESS_*: the access policy an agent has to a pool. */
  datatype PoolAccess = NeverAllowed | AllowedByDefault | DisallowedByDefault

  /** What hsa_amd_agent_memory_pool_get_info reports for the ACCESS attribute. */
  datatype AccessReply = AccessReply(status: HsaStatus, access: PoolAccess)

  class Driver {
    /** Every state-changing call, oldest first. */
    ghost var calls: seq<DriverCall>

    constructor ()
      ensures calls == []
    {
      calls := [];
    }

    method PoolAllocateCall(pool: PoolHandle, sizeBytes: nat, reply: AllocReply) returns (r: AllocReply)
      modifies this
      ensures r == reply
      ensures calls == old(calls) + [PoolAllocate(pool, sizeBytes)]
    {
      calls := calls + [PoolAllocate(pool, sizeBytes)];
      r := reply;
    }

    method PoolFreeCall(ptr: Address)
      modifies this
      ensures calls == old(calls) + [PoolFree(ptr)]
    {
      calls := calls + [PoolFree(ptr)];
    }

    method AllowAccessCall(agents: seq<Agent>, ptr: Address, reply: HsaStatus) returns (s: HsaStatus)
      modifies this
      ensures s == reply
      ensures calls == old(calls) + [AgentsAllowAccess(agents, ptr)]
    {
      calls := calls + [AgentsAllowAccess(agents, ptr)];
      s := reply;
    }
  }
}
