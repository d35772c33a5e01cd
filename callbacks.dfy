/**
 * The static procedures the simulator calls back into: the periodic routing
 * table recomputation, the two capture hooks of the Wi-Fi devices, the end of
 * a reservation and the periodic sweep of the reserved registry. Each reaches
 * the agents through the one global directory, here the parameter `dir`; the
 * simulator's clock and event queue are `sched`.
 */
module Callbacks {
  import opened Commons
  import opened Frames
  import Scheduling
  import opened NoriaAgent
  import opened NoriaDirectory
  import Res = ReservedRegistry
  import Tx = TransmissionRegistry
  import RouteBuilder

  /** Recomputes agent `index`'s routing table, then re-arms itself after the
      agent's period. */
  method RecalculateTable(dir: NoriaContainer, index: nat, sched: Scheduling.Scheduler)
    requires dir.Valid() && index < |dir.norias| && dir.norias[index].olsr != null
    modifies dir.norias[index].olsr, sched
    ensures dir.Valid() && dir.OthersUnchanged(index) && dir.norias[index].View() == old(dir.norias[index].View())
    ensures var olsr := dir.norias[index].olsr;
      && olsr.table == RouteBuilder.RoutingTableFor(olsr.env, olsr.state, dir.norias[index].reservedNodes.reserved, old(sched.now))
      && olsr.hnaRoutes == RouteBuilder.HnaTableFor(olsr.state, olsr.table, old(olsr.hnaRoutes))
    ensures sched.now == old(sched.now)
    ensures sched.pending == old(sched.pending) +
      [Scheduling.Event(old(sched.now) + dir.norias[index].period, Scheduling.RecalculateTable(index))]
  {
    var period := dir.GetRecalculateRoutingTablePeriod(index);
    dir.RecalculateRoutingTable(index, sched.now);
    sched.Schedule(period, Scheduling.RecalculateTable(index));
  }

  /** A frame captured on reception by device `deviceMac`: handed to the agent
      owning that device, or dropped when no agent owns it. */
  method ReceivePacket(dir: NoriaContainer, deviceMac: Mac, f: Frame, sched: Scheduling.Scheduler)
    requires dir.Valid() && dir.IndexAligned() && sched !in dir.Repr
    modifies dir.Repr, sched
    ensures dir.Valid() && dir.norias == old(dir.norias) && dir.IndexAligned()
    ensures var k := old(AgentWithMac(dir.norias, deviceMac));
      && (k < |dir.norias| ==>
            && dir.OthersBroadcast(k, ReceivedBroadcast(old(dir.norias[k].View()), f))
            && dir.norias[k].View() == Received(old(dir.norias[k].View()), f, old(sched.now))
            && sched.pending == old(sched.pending) + ReceivedEvents(old(dir.norias[k].View()), f, old(sched.now)))
      && (k == |dir.norias| ==> dir.OthersUnchanged(k) && sched.pending == old(sched.pending))
    ensures sched.now == old(sched.now)
  {
    var index := dir.GetNoriaIndex(deviceMac);
    if index < dir.GetSize() {
      dir.ReceivePacketProcess(index, f, sched);
    }
  }

  /** The end of a reservation of agent `index`. */
  method ResetNoria(dir: NoriaContainer, index: nat)
    requires dir.Valid() && index < |dir.norias|
    modifies dir.norias[index].Repr()
    ensures dir.Valid() && dir.OthersUnchanged(index)
    ensures dir.norias[index].View() == AfterReset(old(dir.norias[index].View()))
  {
    dir.Reset(index);
  }

  /** A frame captured on transmission by device `deviceMac`. */
  method SendPacket(dir: NoriaContainer, deviceMac: Mac, f: Frame, sched: Scheduling.Scheduler)
    requires dir.Valid() && dir.IndexAligned()
    modifies dir.Repr
    ensures dir.Valid() && dir.IndexAligned()
    ensures var k := old(AgentWithMac(dir.norias, deviceMac));
      && dir.OthersUnchanged(k)
      && (k < |dir.norias| ==> dir.norias[k].View() == Sent(old(dir.norias[k].View()), f, sched.now))
  {
    var index := dir.GetNoriaIndex(deviceMac);
    if index < dir.GetSize() {
      dir.SendPacketProcess(index, f, sched);
    }
  }

  /** Sweeps agent `index`'s reserved registry at the current time and re-arms
      the sweep one reservation lifetime later. */
  method UpdateReserved(dir: NoriaContainer, index: nat, sched: Scheduling.Scheduler)
    requires dir.Valid() && index < |dir.norias|
    modifies dir.norias[index].Repr(), sched
    ensures dir.Valid() && dir.OthersUnchanged(index)
    ensures dir.norias[index].View() ==
      old(dir.norias[index].View()).(reservedNodes := Res.Swept(old(dir.norias[index].reservedNodes.reserved), old(sched.now)))
    ensures sched.now == old(sched.now)
    ensures sched.pending == old(sched.pending) +
      [Scheduling.Event(old(sched.now) + RESERVED_LIFETIME, Scheduling.UpdateReserved(index))]
  {
    var now := sched.now;
    dir.UpdateReservedNodes(index, now);
    sched.Schedule(RESERVED_LIFETIME, Scheduling.UpdateReserved(index));
  }
}
