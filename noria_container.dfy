/**
 * The directory of all agents of the simulation, in installation order. Each
 * per-index operation forwards to one agent and leaves the others as they
 * were; the broadcasts apply the same setter to every agent.
 */
module NoriaDirectory {
  import opened Commons
  import opened Frames
  import opened Scheduling
  import opened NoriaAgent
  import Rel = RelationRegistry
  import Res = ReservedRegistry
  import Tx = TransmissionRegistry
  import Olsr
  import RouteBuilder

  /** What `Install` needs of a node: the MAC of its first device and its OLSR
      protocol object. */
  datatype NodeHandle = NodeHandle(deviceMac: Mac, olsr: Olsr.RoutingProtocol)

  /** Position of the first agent at or after `from` whose device has `mac`,
      or `|ns|`. */
  function AgentWithMac(ns: seq<Noria>, mac: Mac, from: nat := 0): (k: nat)
    requires from <= |ns|
    reads set i | 0 <= i < |ns| :: ns[i]
    ensures from <= k <= |ns|
    ensures k < |ns| ==> ns[k].macAddress == mac
    ensures forall j :: from <= j < k ==> ns[j].macAddress != mac
    decreases |ns| - from
  {
    if from == |ns| then from
    else if ns[from].macAddress == mac then from
    else AgentWithMac(ns, mac, from + 1)
  }

  /** The agent `Install` leaves for node `k`; its period is not set yet. */
  predicate InstalledAgent(w: AgentView, k: nat, address: Ipv4, node: NodeHandle) {
    && w.index == k && w.ip == address && w.mac == node.deviceMac && w.olsr == node.olsr
    && !w.reserved && w.reservedTime == 0.0 && w.rSrc == DEFAULT_IP && w.rDst == DEFAULT_IP
    && w.flags == Flags(false, false, false, false)
    && w.relations == [Rel.AddressRelation(node.deviceMac, address)]
    && w.reservedNodes == [] && w.transmissions == []
  }

  /** The sweeps `Install` arms, one per new agent, in node order. */
  function SweepEvents(now: Time, n: nat): (es: seq<Event>)
    ensures |es| == n
    ensures forall k :: 0 <= k < n ==> es[k] == Event(now + RESERVED_LIFETIME, UpdateReserved(k))
  {
    if n == 0 then [] else SweepEvents(now, n - 1) + [Event(now + RESERVED_LIFETIME, UpdateReserved(n - 1))]
  }

  class NoriaContainer {
    var norias: seq<Noria>
    ghost var Repr: set<object>

    ghost predicate Valid()
      reads this, Repr
    {
      && this in Repr
      && (forall i :: 0 <= i < |norias| ==>
            norias[i].Repr() <= Repr && this !in norias[i].Repr() && norias[i].Valid())
      && (forall i, j :: 0 <= i < j < |norias| ==> norias[i].Repr() !! norias[j].Repr())
    }

    /** Agent `k` sits at position `k`: what `Install` on an empty directory
        establishes, and what lets an agent reach itself through its index. */
    ghost predicate IndexAligned()
      reads this, set i | 0 <= i < |norias| :: norias[i]
    {
      forall i :: 0 <= i < |norias| ==> norias[i].index == i
    }

    /** Every agent, except possibly the one at `index`, is as it was. */
    twostate predicate OthersUnchanged(index: nat)
      requires Valid()
      reads this, Repr
    {
      && norias == old(norias) && Repr == old(Repr)
      && forall j :: 0 <= j < |norias| && j != index ==> norias[j].View() == old(norias[j].View())
    }

    /** Every agent, except possibly the one at `index`, is as it was but for
        the switch broadcast `b`. */
    twostate predicate OthersBroadcast(index: nat, b: SwitchBroadcast)
      requires Valid()
      reads this, Repr
    {
      && norias == old(norias) && Repr == old(Repr)
      && forall j :: 0 <= j < |norias| && j != index ==> norias[j].View() == Broadcasted(old(norias[j].View()), b)
    }

    constructor ()
      ensures Valid() && fresh(Repr) && norias == []
    {
      norias := [];
      Repr := {this};
    }

    /** Appends a copy of `noria`. */
    method Add(noria: Noria)
      requires Valid() && noria.Valid()
      modifies this
      ensures Valid() && fresh(Repr - old(Repr))
      ensures |norias| == old(|norias|) + 1 && norias[..old(|norias|)] == old(norias)
      ensures norias[old(|norias|)].View() == noria.View()
    {
      var copy := noria.Clone();
      norias := norias + [copy];
      Repr := Repr + copy.Repr();
    }

    method Clear()
      requires Valid()
      modifies this
      ensures Valid() && norias == []
    {
      norias := [];
      Repr := {this};
    }

    function GetSize(): nat
      reads this
    {
      |norias|
    }

    method GetNoriaIndex(address: Mac) returns (i: nat)
      ensures i == AgentWithMac(norias, address)
    {
      var nNorias := GetSize();
      var found := false;
      i := 0;
      while !found && i < nNorias
        invariant 0 <= i <= nNorias
        invariant found ==> i < nNorias && AgentWithMac(norias, address) == i
        invariant !found ==> AgentWithMac(norias, address) == AgentWithMac(norias, address, i)
        decreases nNorias - i, !found
      {
        if address == norias[i].GetMacAddress() {
          found := true;
        } else {
          i := i + 1;
        }
      }
    }

    /** A copy of agent `i`. */
    method Get(i: nat) returns (noria: Noria)
      requires Valid() && i < |norias|
      ensures fresh(noria.Repr()) && noria.Valid() && noria.View() == norias[i].View()
    {
      noria := norias[i].Clone();
    }

    /** One step of `Install`: a new agent for node `k` at the end. */
    method AddInstalled(k: nat, address: Ipv4, node: NodeHandle, sched: Scheduler)
      requires Valid()
      modifies this, sched
      ensures Valid() && fresh(Repr - old(Repr))
      ensures |norias| == old(|norias|) + 1 && norias[..old(|norias|)] == old(norias)
      ensures forall j :: 0 <= j < old(|norias|) ==> norias[j].View() == old(norias[j].View())
      ensures InstalledAgent(norias[old(|norias|)].View(), k, address, node)
      ensures sched.now == old(sched.now)
      ensures sched.pending == old(sched.pending) + [Event(old(sched.now) + RESERVED_LIFETIME, UpdateReserved(k))]
    {
      var agent := new Noria();
      agent.Install(k, address, node.deviceMac, node.olsr, sched);
      Add(agent);
    }

    method Install(nodes: seq<NodeHandle>, interfaces: seq<Ipv4>, sched: Scheduler)
      requires Valid() && |interfaces| >= |nodes|
      modifies this, sched
      ensures Valid() && fresh(Repr - old(Repr))
      ensures |norias| == old(|norias|) + |nodes| && norias[..old(|norias|)] == old(norias)
      ensures forall j :: 0 <= j < old(|norias|) ==> norias[j].View() == old(norias[j].View())
      ensures forall k :: 0 <= k < |nodes| ==> InstalledAgent(norias[old(|norias|) + k].View(), k, interfaces[k], nodes[k])
      ensures sched.now == old(sched.now)
      ensures sched.pending == old(sched.pending) + SweepEvents(old(sched.now), |nodes|)
      ensures old(|norias|) == 0 ==> IndexAligned()
    {
      ghost var n0 := |norias|;
      var cont := 0;
      while cont < |nodes|
        invariant 0 <= cont <= |nodes|
        invariant Valid() && fresh(Repr - old(Repr))
        invariant |norias| == n0 + cont && norias[..n0] == old(norias)
        invariant forall j :: 0 <= j < n0 ==> norias[j].View() == old(norias[j].View())
        invariant forall k :: 0 <= k < cont ==> InstalledAgent(norias[n0 + k].View(), k, interfaces[k], nodes[k])
        invariant sched.now == old(sched.now)
        invariant sched.pending == old(sched.pending) + SweepEvents(old(sched.now), cont)
      {
        AddInstalled(cont, interfaces[cont], nodes[cont], sched);
        cont := cont + 1;
      }
      if n0 == 0 {
        forall i | 0 <= i < |norias| ensures norias[i].index == i {
          assert InstalledAgent(norias[n0 + i].View(), i, interfaces[i], nodes[i]);
        }
      }
    }

    // ---------------------------------------------- per-index delegations

    method AddRelation(index: nat, mac: Mac, ip: Ipv4)
      requires Valid() && index < |norias|
      modifies norias[index].Repr()
      ensures Valid() && OthersUnchanged(index)
      ensures norias[index].View() == old(norias[index].View()).(relations := Rel.Added(old(norias[index].relations.relations), mac, ip))
    {
      norias[index].AddRelation(mac, ip);
    }

    method AddReserved(index: nat, ip: Ipv4, time: Time)
      requires Valid() && index < |norias|
      modifies norias[index].Repr()
      ensures Valid() && OthersUnchanged(index)
      ensures norias[index].View() == old(norias[index].View()).(reservedNodes := Res.Added(old(norias[index].reservedNodes.reserved), ip, time))
    {
      norias[index].AddReserved(ip, time);
    }

    method AddTransmission(index: nat, ip: Ipv4, time: Time)
      requires Valid() && index < |norias|
      modifies norias[index].Repr()
      ensures Valid() && OthersUnchanged(index)
      ensures norias[index].View() == old(norias[index].View()).(transmissions := Tx.Added(old(norias[index].transmissions.transmissions), ip, time))
    {
      norias[index].AddTransmission(ip, time);
    }

    method EraseReservedNode(noriaIndex: nat, reservedIndex: nat)
      requires Valid() && noriaIndex < |norias| && reservedIndex < |norias[noriaIndex].reservedNodes.reserved|
      modifies norias[noriaIndex].Repr()
      ensures Valid() && OthersUnchanged(noriaIndex)
      ensures norias[noriaIndex].View() ==
        old(norias[noriaIndex].View()).(reservedNodes := Res.Erased(old(norias[noriaIndex].reservedNodes.reserved), reservedIndex))
    {
      norias[noriaIndex].EraseReservedNode(reservedIndex);
    }

    method EraseTransmission(index: nat, ip: Ipv4)
      requires Valid() && index < |norias|
      modifies norias[index].Repr()
      ensures Valid() && OthersUnchanged(index)
      ensures norias[index].View() == old(norias[index].View()).(transmissions := Tx.Erased(old(norias[index].transmissions.transmissions), ip))
    {
      norias[index].EraseTransmission(ip);
    }

    method ExistTransmission(index: nat, ip: Ipv4) returns (sent: bool)
      requires index < |norias|
      ensures sent <==> Tx.HasIp(norias[index].transmissions.transmissions, ip)
    {
      sent := norias[index].ExistTransmission(ip);
    }

    function GetRecalculateRoutingTablePeriod(index: nat): Time
      requires index < |norias|
      reads this, norias[index]
    {
      norias[index].GetRecalculateRoutingTablePeriod()
    }

    method GetRelatedIpAddress(index: nat, mac: Mac) returns (ip: Ipv4)
      requires index < |norias|
      ensures ip == Rel.IpOf(norias[index].relations.relations, mac)
    {
      ip := norias[index].GetRelatedIpAddress(mac);
    }

    method GetTransmissionTime(index: nat, ip: Ipv4) returns (time: Time)
      requires index < |norias|
      ensures time == Tx.TimeOf(norias[index].transmissions.transmissions, ip)
    {
      time := norias[index].GetTransmissionTime(ip);
    }

    function IsReserved(index: nat): bool
      requires index < |norias|
      reads this, norias[index]
    {
      norias[index].IsReserved()
    }

    method RecalculateRoutingTable(index: nat, now: Time)
      requires Valid() && index < |norias| && norias[index].olsr != null
      modifies norias[index].olsr
      ensures Valid() && OthersUnchanged(index) && norias[index].View() == old(norias[index].View())
      ensures var olsr := norias[index].olsr;
        && olsr.table == RouteBuilder.RoutingTableFor(olsr.env, olsr.state, norias[index].reservedNodes.reserved, now)
        && olsr.hnaRoutes == RouteBuilder.HnaTableFor(olsr.state, olsr.table, old(olsr.hnaRoutes))
        && olsr.state == old(olsr.state)
    {
      norias[index].RecalculateRoutingTable(now);
    }

    /** Agent `index` handles a captured frame; the switch broadcast it asks
        for reaches every agent. The agent reaches its registries through its
        own index, hence the alignment it requires; the simulator's queue is
        no part of the directory. */
    method ReceivePacketProcess(index: nat, f: Frame, sched: Scheduler)
      requires Valid() && index < |norias| && norias[index].index == index && sched !in Repr
      modifies Repr, sched
      ensures Valid() && OthersBroadcast(index, ReceivedBroadcast(old(norias[index].View()), f))
      ensures norias[index].View() == Received(old(norias[index].View()), f, old(sched.now))
      ensures sched.now == old(sched.now)
      ensures sched.pending == old(sched.pending) + ReceivedEvents(old(norias[index].View()), f, old(sched.now))
    {
      var b := norias[index].ReceivePacketProcess(f, sched);
      Broadcast(b);
    }

    /** Performs the switch broadcast `b` on every agent. */
    method Broadcast(b: SwitchBroadcast)
      requires Valid()
      modifies Repr
      ensures Valid() && norias == old(norias) && Repr == old(Repr)
      ensures forall i :: 0 <= i < |norias| ==> norias[i].View() == Broadcasted(old(norias[i].View()), b)
    {
      match b {
        case NoBroadcast =>
        case AllAddressRelations(enable) => WriteAddressRelations(enable);
        case AllReservedNodes(enable) => WriteReservedNodes(enable);
      }
    }

    method Reserve(index: nat, now: Time, srcIP: Ipv4, dstIP: Ipv4, sched: Scheduler)
      requires Valid() && index < |norias|
      modifies norias[index].Repr(), sched
      ensures Valid() && OthersUnchanged(index)
      ensures norias[index].View() == AfterReserve(old(norias[index].View()), now, srcIP, dstIP)
      ensures sched.now == old(sched.now)
      ensures sched.pending == old(sched.pending) + [Event(old(sched.now) + RESERVED_LIFETIME, ResetNoria(norias[index].index))]
    {
      norias[index].Reserve(now, srcIP, dstIP, sched);
    }

    method Reset(index: nat)
      requires Valid() && index < |norias|
      modifies norias[index].Repr()
      ensures Valid() && OthersUnchanged(index)
      ensures norias[index].View() == AfterReset(old(norias[index].View()))
    {
      norias[index].Reset();
    }

    method SendPacketProcess(index: nat, f: Frame, sched: Scheduler)
      requires Valid() && index < |norias| && norias[index].index == index
      modifies norias[index].Repr()
      ensures Valid() && OthersUnchanged(index)
      ensures norias[index].View() == Sent(old(norias[index].View()), f, sched.now)
    {
      norias[index].SendPacketProcess(f, sched);
    }

    /** The per-index overload of the period setter. */
    method SetRecalculateRoutingTablePeriodAt(index: nat, period: Time, sched: Scheduler)
      requires Valid() && index < |norias|
      modifies norias[index].Repr(), sched
      ensures Valid() && OthersUnchanged(index)
      ensures norias[index].View() == old(norias[index].View()).(period := period)
      ensures sched.now == old(sched.now)
      ensures sched.pending == old(sched.pending) + [Event(old(sched.now) + period, RecalculateTable(norias[index].index))]
    {
      norias[index].SetRecalculateRoutingTablePeriod(period, sched);
    }

    method UpdateReservedNodes(index: nat, time: Time)
      requires Valid() && index < |norias|
      modifies norias[index].Repr()
      ensures Valid() && OthersUnchanged(index)
      ensures norias[index].View() == old(norias[index].View()).(reservedNodes := Res.Swept(old(norias[index].reservedNodes.reserved), time))
    {
      norias[index].UpdateReservedNodes(time);
    }

    method UpdateTransmissionTime(index: nat, ip: Ipv4, time: Time)
      requires Valid() && index < |norias|
      modifies norias[index].Repr()
      ensures Valid() && OthersUnchanged(index)
      ensures norias[index].View() == old(norias[index].View()).(transmissions := Tx.Bumped(old(norias[index].transmissions.transmissions), ip, time))
    {
      norias[index].UpdateTransmission(ip, time);
    }

    // ---------------------------------------------------------- broadcasts

    /** Gives every agent the same period and arms one recomputation per
        agent, in directory order. */
    method SetRecalculateRoutingTablePeriod(period: Time, sched: Scheduler)
      requires Valid()
      modifies Repr, sched
      ensures Valid() && norias == old(norias) && Repr == old(Repr)
      ensures forall i :: 0 <= i < |norias| ==> norias[i].View() == old(norias[i].View()).(period := period)
      ensures sched.now == old(sched.now)
      ensures |sched.pending| == old(|sched.pending|) + |norias| && sched.pending[..old(|sched.pending|)] == old(sched.pending)
      ensures forall i :: 0 <= i < |norias| ==>
        sched.pending[old(|sched.pending|) + i] == Event(old(sched.now) + period, RecalculateTable(norias[i].index))
    {
      var n := GetSize();
      for i := 0 to n
        invariant Valid() && norias == old(norias) && Repr == old(Repr)
        invariant forall j :: 0 <= j < i ==> norias[j].View() == old(norias[j].View()).(period := period)
        invariant forall j :: i <= j < n ==> norias[j].View() == old(norias[j].View())
        invariant sched.now == old(sched.now)
        invariant |sched.pending| == old(|sched.pending|) + i && sched.pending[..old(|sched.pending|)] == old(sched.pending)
        invariant forall j :: 0 <= j < i ==>
          sched.pending[old(|sched.pending|) + j] == Event(old(sched.now) + period, RecalculateTable(norias[j].index))
      {
        SetRecalculateRoutingTablePeriodAt(i, period, sched);
      }
    }

    method WriteAddressRelations(enable: bool)
      requires Valid()
      modifies Repr
      ensures Valid() && norias == old(norias) && Repr == old(Repr)
      ensures forall i :: 0 <= i < |norias| ==>
        norias[i].View() == old(norias[i].View()).(flags := old(norias[i].flags).(addressRelations := enable))
    {
      var nNorias := GetSize();
      for i := 0 to nNorias
        invariant Valid() && norias == old(norias) && Repr == old(Repr)
        invariant forall j :: 0 <= j < i ==>
          norias[j].View() == old(norias[j].View()).(flags := old(norias[j].flags).(addressRelations := enable))
        invariant forall j :: i <= j < nNorias ==> norias[j].View() == old(norias[j].View())
      {
        norias[i].WriteAddressRelations(enable);
      }
    }

    method WriteReservationState(enable: bool)
      requires Valid()
      modifies Repr
      ensures Valid() && norias == old(norias) && Repr == old(Repr)
      ensures forall i :: 0 <= i < |norias| ==>
        norias[i].View() == old(norias[i].View()).(flags := old(norias[i].flags).(reservationState := enable))
    {
      var nNorias := GetSize();
      for i := 0 to nNorias
        invariant Valid() && norias == old(norias) && Repr == old(Repr)
        invariant forall j :: 0 <= j < i ==>
          norias[j].View() == old(norias[j].View()).(flags := old(norias[j].flags).(reservationState := enable))
        invariant forall j :: i <= j < nNorias ==> norias[j].View() == old(norias[j].View())
      {
        norias[i].WriteReservationState(enable);
      }
    }

    method WriteReservedNodes(enable: bool)
      requires Valid()
      modifies Repr
      ensures Valid() && norias == old(norias) && Repr == old(Repr)
      ensures forall i :: 0 <= i < |norias| ==>
        norias[i].View() == old(norias[i].View()).(flags := old(norias[i].flags).(reservedNodes := enable))
    {
      var nNorias := GetSize();
      for i := 0 to nNorias
        invariant Valid() && norias == old(norias) && Repr == old(Repr)
        invariant forall j :: 0 <= j < i ==>
          norias[j].View() == old(norias[j].View()).(flags := old(norias[j].flags).(reservedNodes := enable))
        invariant forall j :: i <= j < nNorias ==> norias[j].View() == old(norias[j].View())
      {
        norias[i].WriteReservedNodes(enable);
      }
    }

    method WriteRoutingTables(enable: bool)
      requires Valid()
      modifies Repr
      ensures Valid() && norias == old(norias) && Repr == old(Repr)
      ensures forall i :: 0 <= i < |norias| ==>
        norias[i].View() == old(norias[i].View()).(flags := old(norias[i].flags).(routingTable := enable))
    {
      var nNorias := GetSize();
      for i := 0 to nNorias
        invariant Valid() && norias == old(norias) && Repr == old(Repr)
        invariant forall j :: 0 <= j < i ==>
          norias[j].View() == old(norias[j].View()).(flags := old(norias[j].flags).(routingTable := enable))
        invariant forall j :: i <= j < nNorias ==> norias[j].View() == old(norias[j].View())
      {
        norias[i].WriteRoutingTable(enable);
      }
    }
  }

  /** When the devices of the agents have distinct MACs, the lookup by MAC
      finds exactly the agent of that device. */
  lemma DistinctMacsFindOwner(ns: seq<Noria>, k: nat)
    requires k < |ns|
    requires forall i, j :: 0 <= i < j < |ns| ==> ns[i].macAddress != ns[j].macAddress
    ensures AgentWithMac(ns, ns[k].macAddress) == k
  {
  }
}
