/** The candidate scan of am_map_to_peers: which agents end up in the grant, given the
    requested accelerators and the driver's access-policy answers. */
module PeerAccess {
  import opened AmTypes
  import opened HsaDriver

  /** Whose agent a non-skipped candidate contributes. The code as written takes the agent of
      the pointer's owner; the evidently intended one is the candidate's own agent. */
  datatype AgentChoice = OwnersAgent | CandidatesAgent

  function ChosenAgent(choice: AgentChoice, owner: Accelerator, a: Accelerator): Agent
  {
    match choice
    case OwnersAgent => owner.agent
    case CandidatesAgent => a.agent
  }

  /** A candidate is skipped when the memory is device-resident and the candidate is the
      owner itself. */
  predicate Skipped(owner: Accelerator, inDevice: bool, a: Accelerator)
  {
    inDevice && a == owner
  }

  /** The policy answer rules the candidate's agent out. */
  predicate Refused(reply: AccessReply)
  {
    reply.status != HsaSuccess || reply.access == NeverAllowed
  }

  /** The loop over the requested accelerators, continuing from the agents collected so far:
      None when a policy query fails or answers NEVER_ALLOWED, otherwise the collected agents,
      each added only if not already present. */
  function ScanPeers(list: seq<Accelerator>, owner: Accelerator, inDevice: bool, pool: PoolHandle,
                     policy: (Agent, PoolHandle) -> AccessReply, choice: AgentChoice,
                     agents: seq<Agent>): Option<seq<Agent>>
    decreases |list|
  {
    if list == [] then Some(agents)
    else if Skipped(owner, inDevice, list[0]) then
      ScanPeers(list[1..], owner, inDevice, pool, policy, choice, agents)
    else
      var agent := ChosenAgent(choice, owner, list[0]);
      if Refused(policy(agent, pool)) then None
      else ScanPeers(list[1..], owner, inDevice, pool, policy, choice,
                     if agent in agents then agents else agents + [agent])
  }

  /** The scan fails exactly when some non-skipped candidate's agent is refused. */
  lemma {:induction false} ScanPeersFails(list: seq<Accelerator>, owner: Accelerator, inDevice: bool, pool: PoolHandle,
                                          policy: (Agent, PoolHandle) -> AccessReply, choice: AgentChoice,
                                          agents: seq<Agent>)
    ensures ScanPeers(list, owner, inDevice, pool, policy, choice, agents).None? <==>
            exists k :: 0 <= k < |list| && !Skipped(owner, inDevice, list[k]) &&
                        Refused(policy(ChosenAgent(choice, owner, list[k]), pool))
    decreases |list|
  {
    if list != [] {
      var agent := ChosenAgent(choice, owner, list[0]);
      var next := if agent in agents then agents else agents + [agent];
      ScanPeersFails(list[1..], owner, inDevice, pool, policy, choice, agents);
      ScanPeersFails(list[1..], owner, inDevice, pool, policy, choice, next);
      forall k | 1 <= k < |list| ensures list[k] == list[1..][k - 1] { }
      if exists k :: 0 <= k < |list| && !Skipped(owner, inDevice, list[k]) &&
                     Refused(policy(ChosenAgent(choice, owner, list[k]), pool)) {
        var k :| 0 <= k < |list| && !Skipped(owner, inDevice, list[k]) &&
                 Refused(policy(ChosenAgent(choice, owner, list[k]), pool));
        if k > 0 {
          assert list[1..][k - 1] == list[k];
        }
      }
    }
  }

  /** The collected agents never repeat, and there are at most as many as candidates seen. */
  lemma {:induction false} ScanPeersDistinct(list: seq<Accelerator>, owner: Accelerator, inDevice: bool, pool: PoolHandle,
                                             policy: (Agent, PoolHandle) -> AccessReply, choice: AgentChoice,
                                             agents: seq<Agent>)
    requires Distinct(agents)
    ensures var r := ScanPeers(list, owner, inDevice, pool, policy, choice, agents);
            r.Some? ==> Distinct(r.value) && |r.value| <= |agents| + |list|
    decreases |list|
  {
    if list != [] {
      var agent := ChosenAgent(choice, owner, list[0]);
      var next := if agent in agents then agents else agents + [agent];
      if agent !in agents {
        assert forall i :: 0 <= i < |agents| ==> next[i] == agents[i];
      }
      ScanPeersDistinct(list[1..], owner, inDevice, pool, policy, choice, agents);
      ScanPeersDistinct(list[1..], owner, inDevice, pool, policy, choice, next);
    }
  }

  /** As written: every candidate contributes the owner's agent, so starting from at most the
      owner's agent the scan collects at most that one agent. */
  lemma {:induction false} ScanPeersOwnersAgentOnly(list: seq<Accelerator>, owner: Accelerator, inDevice: bool, pool: PoolHandle,
                                                    policy: (Agent, PoolHandle) -> AccessReply, agents: seq<Agent>)
    requires |agents| <= 1 && forall x :: x in agents ==> x == owner.agent
    ensures var r := ScanPeers(list, owner, inDevice, pool, policy, OwnersAgent, agents);
            r.Some? ==> |r.value| <= 1 && forall x :: x in r.value ==> x == owner.agent
    decreases |list|
  {
    if list != [] {
      var next := if owner.agent in agents then agents else agents + [owner.agent];
      if agents == [] {
        assert next == [owner.agent];
      } else {
        assert agents[0] in agents;
        assert next == agents;
      }
      ScanPeersOwnersAgentOnly(list[1..], owner, inDevice, pool, policy, agents);
      ScanPeersOwnersAgentOnly(list[1..], owner, inDevice, pool, policy, next);
    }
  }

  /** As intended: for device-resident memory every collected agent that was not there before
      belongs to a requested accelerator other than the owner. */
  lemma {:induction false} ScanPeersSkipsOwner(list: seq<Accelerator>, owner: Accelerator, pool: PoolHandle,
                                               policy: (Agent, PoolHandle) -> AccessReply, agents: seq<Agent>)
    ensures var r := ScanPeers(list, owner, true, pool, policy, CandidatesAgent, agents);
            r.Some? ==> forall x :: x in r.value ==>
                          x in agents || exists a :: a in list && a != owner && x == a.agent
    decreases |list|
  {
    if list != [] {
      var a0 := list[0];
      var next := if a0.agent in agents then agents else agents + [a0.agent];
      assert forall a :: a in list[1..] ==> a in list;
      if Skipped(owner, true, a0) {
        ScanPeersSkipsOwner(list[1..], owner, pool, policy, agents);
      } else if !Refused(policy(a0.agent, pool)) {
        ScanPeersSkipsOwner(list[1..], owner, pool, policy, next);
        assert a0 in list && a0 != owner;
        assert forall x :: x in next ==> x in agents || x == a0.agent;
      }
    }
  }

  /** The scan only adds agents: it keeps every agent collected before, and every candidate
      it does not skip has its chosen agent in the result. */
  lemma {:induction false} ScanPeersCollectsEvery(list: seq<Accelerator>, owner: Accelerator, inDevice: bool, pool: PoolHandle,
                                                  policy: (Agent, PoolHandle) -> AccessReply, choice: AgentChoice,
                                                  agents: seq<Agent>)
    ensures var r := ScanPeers(list, owner, inDevice, pool, policy, choice, agents);
            r.Some? ==> && (forall x :: x in agents ==> x in r.value)
                        && (forall a :: a in list && !Skipped(owner, inDevice, a) ==> ChosenAgent(choice, owner, a) in r.value)
    decreases |list|
  {
    var r := ScanPeers(list, owner, inDevice, pool, policy, choice, agents);
    if list != [] && r.Some? {
      var agent := ChosenAgent(choice, owner, list[0]);
      var next := if agent in agents then agents else agents + [agent];
      var start := if Skipped(owner, inDevice, list[0]) then agents else next;
      assert r == ScanPeers(list[1..], owner, inDevice, pool, policy, choice, start);
      ScanPeersCollectsEvery(list[1..], owner, inDevice, pool, policy, choice, start);
      assert forall x :: x in agents ==> x in start;
      forall a | a in list && !Skipped(owner, inDevice, a)
        ensures ChosenAgent(choice, owner, a) in r.value
      {
        if a == list[0] {
          assert agent in start;
        } else {
          assert a in list[1..];
        }
      }
    }
  }

  /** When every candidate is skipped, the scan succeeds with the agents it started from. */
  lemma {:induction false} ScanPeersAllSkipped(list: seq<Accelerator>, owner: Accelerator, inDevice: bool, pool: PoolHandle,
                                               policy: (Agent, PoolHandle) -> AccessReply, choice: AgentChoice,
                                               agents: seq<Agent>)
    requires forall a :: a in list ==> Skipped(owner, inDevice, a)
    ensures ScanPeers(list, owner, inDevice, pool, policy, choice, agents) == Some(agents)
    decreases |list|
  {
    if list != [] {
      assert list[0] in list;
      assert forall a :: a in list[1..] ==> a in list;
      ScanPeersAllSkipped(list[1..], owner, inDevice, pool, policy, choice, agents);
    }
  }

  /** As written, starting from no agents or from the owner's agent alone, a successful scan
      yields no agent exactly when it started from none and skipped every candidate, and
      otherwise exactly the owner's agent. */
  lemma {:induction false} ScanPeersOwnersAgentExact(list: seq<Accelerator>, owner: Accelerator, inDevice: bool, pool: PoolHandle,
                                                     policy: (Agent, PoolHandle) -> AccessReply, agents: seq<Agent>)
    requires agents == [] || agents == [owner.agent]
    ensures var r := ScanPeers(list, owner, inDevice, pool, policy, OwnersAgent, agents);
            r.Some? ==> r.value == (if agents == [] && forall a :: a in list ==> Skipped(owner, inDevice, a)
                                    then [] else [owner.agent])
    decreases |list|
  {
    if list != [] {
      var next := if owner.agent in agents then agents else agents + [owner.agent];
      assert next == [owner.agent];
      ScanPeersOwnersAgentExact(list[1..], owner, inDevice, pool, policy, agents);
      ScanPeersOwnersAgentExact(list[1..], owner, inDevice, pool, policy, next);
      assert forall a :: a in list ==> a == list[0] || a in list[1..];
      assert forall a :: a in list[1..] ==> a in list;
    }
  }

  /** A driver that allows every agent access to every pool. */
  function AllowAll(agent: Agent, pool: PoolHandle): AccessReply
  {
    AccessReply(HsaSuccess, AllowedByDefault)
  }

  /** Requested accelerators A (the owner of device memory) and B: the scan as written grants
      A's own agent and never B's, while the intended scan grants B's. */
  lemma OwnersAgentCounterexample()
    ensures var a := Accelerator(0, true, 10, 1, 2);
            var b := Accelerator(1, true, 11, 3, 4);
            ScanPeers([a, b], a, true, a.amRegion, AllowAll, OwnersAgent, []) == Some([a.agent]) &&
            ScanPeers([a, b], a, true, a.amRegion, AllowAll, CandidatesAgent, []) == Some([b.agent]) &&
            a.agent != b.agent
  {
    var a := Accelerator(0, true, 10, 1, 2);
    var b := Accelerator(1, true, 11, 3, 4);
    assert [a, b][1..] == [b];
    assert [b][1..] == [];
    assert Skipped(a, true, a) && !Skipped(a, true, b);
    assert !Refused(AllowAll(a.agent, a.amRegion)) && !Refused(AllowAll(b.agent, a.amRegion));
    assert a.agent !in [] && b.agent !in [];
    assert [] + [a.agent] == [a.agent] && [] + [b.agent] == [b.agent];
    assert ScanPeers([a, b], a, true, a.amRegion, AllowAll, OwnersAgent, [])
        == ScanPeers([b], a, true, a.amRegion, AllowAll, OwnersAgent, []);
    assert ScanPeers([b], a, true, a.amRegion, AllowAll, OwnersAgent, [])
        == ScanPeers([], a, true, a.amRegion, AllowAll, OwnersAgent, [a.agent]);
    assert ScanPeers([a, b], a, true, a.amRegion, AllowAll, CandidatesAgent, [])
        == ScanPeers([b], a, true, a.amRegion, AllowAll, CandidatesAgent, []);
    assert ScanPeers([b], a, true, a.amRegion, AllowAll, CandidatesAgent, [])
        == ScanPeers([], a, true, a.amRegion, AllowAll, CandidatesAgent, [b.agent]);
  }
}
