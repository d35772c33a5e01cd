/**
 * One NORIA agent: the reservation state of its own node, its three
 * registries, and the two frame pipelines that update them from the frames
 * its device sends and overhears. The transitions are specified on a value
 * snapshot of the agent (`AgentView`) and the methods of `Noria` are proved to
 * perform them.
 */
module NoriaAgent {
  import opened Commons
  import opened Frames
  import opened Scheduling
  import Rel = RelationRegistry
  import Res = ReservedRegistry
  import Tx = TransmissionRegistry
  import Olsr
  import RouteBuilder

  /** The four output switches; they only decide whether state is written
      to files. */
  datatype Flags = Flags(addressRelations: bool, reservationState: bool, reservedNodes: bool, routingTable: bool)

  datatype AgentView = AgentView(
    index: nat,
    ip: Ipv4,
    mac: Mac,
    olsr: Olsr.RoutingProtocol?,
    reserved: bool,
    reservedTime: Time,
    rSrc: Ipv4,
    rDst: Ipv4,
    period: Time,
    flags: Flags,
    relations: seq<Rel.AddressRelation>,
    reservedNodes: seq<Res.Reserved>,
    transmissions: seq<Tx.TransmissionInfo>)

  /** The invariants of the three registries. */
  predicate RegistriesValid(v: AgentView) {
    Rel.MacsDistinct(v.relations) && Res.IpsDistinct(v.reservedNodes) && Tx.IpsDistinct(v.transmissions)
  }

  // ------------------------------------------------------------ transitions

  function Installed(v: AgentView, k: nat, address: Ipv4, deviceMac: Mac, protocol: Olsr.RoutingProtocol): AgentView {
    v.(index := k, ip := address, mac := deviceMac, olsr := protocol,
       flags := Flags(false, false, false, false),
       relations := Rel.Added(v.relations, deviceMac, address))
  }

  function AfterReserve(v: AgentView, t: Time, src: Ipv4, dst: Ipv4): AgentView {
    v.(reserved := true, reservedTime := t, rSrc := src, rDst := dst)
  }

  function AfterReset(v: AgentView): AgentView {
    v.(reserved := false, reservedTime := 0.0, rSrc := ZERO_IP, rDst := ZERO_IP)
  }

  /** The agent's node is the link-layer receiver of a data frame it does not
      originate, and is not reserved yet: it becomes a reserved relay. */
  predicate Reserves(v: AgentView, f: Frame) {
    Classify(f).Data? && f.addr1 == v.mac && SourceIp(f) != v.ip && !v.reserved
  }

  /** The IP the agent associates with the frame's link-layer receiver. */
  function ReceiverIp(v: AgentView, f: Frame): Ipv4 {
    Rel.IpOf(v.relations, f.addr1)
  }

  /** An overheard data frame shows that its link-layer receiver is relaying
      it: the receiver is not the IP destination, this agent has sent nothing
      to that destination, and the receiver's IP is one the agent knows. */
  predicate MarksRelay(v: AgentView, f: Frame) {
    Classify(f).Data? && f.addr1 != v.mac
    && !Rel.IsRelated(v.relations, f.addr1, DestinationIp(f))
    && !Tx.HasIp(v.transmissions, DestinationIp(f))
    && Rel.HasIp(v.relations, ReceiverIp(v, f))
  }

  /** The receive pipeline's effect on the agent's reservation state and
      registries when `f` arrives at time `now`; it leaves the switches alone. */
  function Handled(v: AgentView, f: Frame, now: Time): AgentView {
    match Classify(f)
    case Ignored => v
    case Control(transmitter, srcIp) => v.(relations := Rel.Added(v.relations, transmitter, srcIp))
    case Data(receiver, srcIp, dstIp) =>
      if receiver == v.mac then
        if srcIp != v.ip && !v.reserved then AfterReserve(v, now, srcIp, dstIp) else v
      else if !Rel.IsRelated(v.relations, receiver, dstIp) && !Tx.HasIp(v.transmissions, dstIp)
              && Rel.HasIp(v.relations, Rel.IpOf(v.relations, receiver)) then
        v.(reservedNodes := Res.Added(v.reservedNodes, Rel.IpOf(v.relations, receiver), now))
      else v
  }

  /** A switch the receive pipeline turns to the same value on every agent of
      the directory. The directory's `WriteAddressRelations` and
      `WriteReservedNodes` only take a `bool`, so the agent's index passed to
      them reaches every agent as `index != 0`. */
  datatype SwitchBroadcast = NoBroadcast | AllAddressRelations(enable: bool) | AllReservedNodes(enable: bool)

  /** The broadcast the receive pipeline performs: after a control frame when
      the agent logs relations, after marking a relay when it logs reserved
      nodes. */
  function ReceivedBroadcast(v: AgentView, f: Frame): SwitchBroadcast {
    if Classify(f).Control? && v.flags.addressRelations then AllAddressRelations(v.index != 0)
    else if MarksRelay(v, f) && v.flags.reservedNodes then AllReservedNodes(v.index != 0)
    else NoBroadcast
  }

  /** Any agent of the directory after the broadcast `b`. */
  function Broadcasted(w: AgentView, b: SwitchBroadcast): AgentView {
    match b
    case NoBroadcast => w
    case AllAddressRelations(enable) => w.(flags := w.flags.(addressRelations := enable))
    case AllReservedNodes(enable) => w.(flags := w.flags.(reservedNodes := enable))
  }

  /** The receiving agent after the receive pipeline handles `f` at time
      `now`, the broadcast reaching it as well. */
  function Received(v: AgentView, f: Frame, now: Time): AgentView {
    Broadcasted(Handled(v, f, now), ReceivedBroadcast(v, f))
  }

  /** The callbacks the receive pipeline arms. */
  function ReceivedEvents(v: AgentView, f: Frame, now: Time): seq<Event> {
    if Reserves(v, f) then [Event(now + RESERVED_LIFETIME, ResetNoria(v.index))] else []
  }

  /** The agent after the send pipeline handles `f` at time `now`: the next
      hop and the final destination of a data frame are both recorded. */
  function Sent(v: AgentView, f: Frame, now: Time): AgentView {
    if Classify(f).Data? then
      v.(transmissions := Tx.Added(Tx.Added(v.transmissions, ReceiverIp(v, f), now), DestinationIp(f), now))
    else v
  }

  // ------------------------------------------------------------ the agent

  class Noria {
    const relations: Rel.RelationContainer
    const reservedNodes: Res.ReservedContainer
    const transmissions: Tx.TransmissionInfoContainer
    var index: nat
    var ipAddress: Ipv4
    var macAddress: Mac
    var olsr: Olsr.RoutingProtocol?
    var reserved: bool
    var reservedTime: Time
    var rSrcAddress: Ipv4
    var rDstAddress: Ipv4
    var period: Time
    var flags: Flags

    ghost function Repr(): set<object> {
      {this, relations, reservedNodes, transmissions}
    }

    ghost predicate Valid()
      reads Repr()
    {
      relations.Valid() && reservedNodes.Valid() && transmissions.Valid()
    }

    function View(): AgentView
      reads Repr()
    {
      AgentView(index, ipAddress, macAddress, olsr, reserved, reservedTime, rSrcAddress, rDstAddress,
                period, flags, relations.relations, reservedNodes.reserved, transmissions.transmissions)
    }

    /** A fresh agent: not reserved, reservation time 0, empty registries. The
        index, device, period and output switches are set by `Install`. */
    constructor ()
      ensures Valid() && fresh(relations) && fresh(reservedNodes) && fresh(transmissions)
      ensures !reserved && reservedTime == 0.0
      ensures rSrcAddress == DEFAULT_IP && rDstAddress == DEFAULT_IP && ipAddress == DEFAULT_IP && olsr == null
      ensures relations.relations == [] && reservedNodes.reserved == [] && transmissions.transmissions == []
    {
      relations := new Rel.RelationContainer();
      reservedNodes := new Res.ReservedContainer();
      transmissions := new Tx.TransmissionInfoContainer();
      index := 0;
      ipAddress := DEFAULT_IP;
      macAddress := DEFAULT_MAC;
      olsr := null;
      reserved := false;
      reservedTime := 0.0;
      rSrcAddress := DEFAULT_IP;
      rDstAddress := DEFAULT_IP;
      period := 0.0;
      flags := Flags(false, false, false, false);
    }

    /** The by-value copy the directory stores: fresh registries with the same
        contents, sharing the OLSR protocol object. */
    method Clone() returns (c: Noria)
      requires Valid()
      ensures fresh(c.Repr()) && c.Valid() && c.View() == View()
    {
      c := new Noria();
      c.relations.relations := relations.relations;
      c.reservedNodes.reserved := reservedNodes.reserved;
      c.transmissions.transmissions := transmissions.transmissions;
      c.index := index;
      c.ipAddress := ipAddress;
      c.macAddress := macAddress;
      c.olsr := olsr;
      c.reserved := reserved;
      c.reservedTime := reservedTime;
      c.rSrcAddress := rSrcAddress;
      c.rDstAddress := rDstAddress;
      c.period := period;
      c.flags := flags;
    }

    method AddRelation(mac: Mac, ip: Ipv4)
      requires Valid()
      modifies relations
      ensures Valid()
      ensures View() == old(View()).(relations := Rel.Added(old(relations.relations), mac, ip))
    {
      relations.Add(mac, ip);
    }

    method AddReserved(ip: Ipv4, time: Time)
      requires Valid()
      modifies reservedNodes
      ensures Valid()
      ensures View() == old(View()).(reservedNodes := Res.Added(old(reservedNodes.reserved), ip, time))
    {
      reservedNodes.Add(ip, time);
    }

    method AddTransmission(ip: Ipv4, time: Time)
      requires Valid()
      modifies transmissions
      ensures Valid()
      ensures View() == old(View()).(transmissions := Tx.Added(old(transmissions.transmissions), ip, time))
    {
      transmissions.Add(ip, time);
    }

    method EraseReservedNode(reservedIndex: nat)
      requires Valid() && reservedIndex < |reservedNodes.reserved|
      modifies reservedNodes
      ensures Valid()
      ensures View() == old(View()).(reservedNodes := Res.Erased(old(reservedNodes.reserved), reservedIndex))
    {
      reservedNodes.Erase(reservedIndex);
    }

    method EraseTransmission(ip: Ipv4)
      requires Valid()
      modifies transmissions
      ensures Valid()
      ensures View() == old(View()).(transmissions := Tx.Erased(old(transmissions.transmissions), ip))
    {
      transmissions.Erase(ip);
    }

    method ExistTransmission(ip: Ipv4) returns (sent: bool)
      ensures sent <==> Tx.HasIp(transmissions.transmissions, ip)
    {
      sent := transmissions.Exist(ip);
    }

    function GetIndex(): nat
      reads this
    {
      index
    }

    function GetIpAddress(): Ipv4
      reads this
    {
      ipAddress
    }

    function GetMacAddress(): Mac
      reads this
    {
      macAddress
    }

    function GetRecalculateRoutingTablePeriod(): Time
      reads this
    {
      period
    }

    method GetRelatedIpAddress(mac: Mac) returns (ip: Ipv4)
      ensures ip == Rel.IpOf(relations.relations, mac)
    {
      ip := relations.GetIp(mac);
    }

    method GetTransmissionTime(ip: Ipv4) returns (time: Time)
      ensures time == Tx.TimeOf(transmissions.transmissions, ip)
    {
      time := transmissions.GetTime(ip);
    }

    /** Binds the agent to node `k`: its address, the MAC of its device and
        its OLSR protocol; seeds the own relation and arms the first sweep. */
    method Install(k: nat, address: Ipv4, deviceMac: Mac, protocol: Olsr.RoutingProtocol, sched: Scheduler)
      requires Valid()
      modifies this, relations, sched
      ensures Valid()
      ensures View() == Installed(old(View()), k, address, deviceMac, protocol)
      ensures sched.now == old(sched.now)
      ensures sched.pending == old(sched.pending) + [Event(old(sched.now) + RESERVED_LIFETIME, UpdateReserved(k))]
    {
      index := k;
      macAddress := deviceMac;
      ipAddress := address;
      olsr := protocol;
      relations.Add(deviceMac, address);
      flags := Flags(false, false, false, false);
      sched.Schedule(RESERVED_LIFETIME, UpdateReserved(index));
    }

    function IsReserved(): bool
      reads this
    {
      reserved
    }

    /** The receive pipeline. The switch broadcast goes through the global
        directory, so it is returned for the directory to perform. */
    method ReceivePacketProcess(f: Frame, sched: Scheduler) returns (b: SwitchBroadcast)
      requires Valid()
      modifies this, relations, reservedNodes, sched
      ensures Valid()
      ensures View() == Handled(old(View()), f, old(sched.now))
      ensures b == ReceivedBroadcast(old(View()), f)
      ensures sched.now == old(sched.now)
      ensures sched.pending == old(sched.pending) + ReceivedEvents(old(View()), f, old(sched.now))
    {
      var now := sched.now;
      b := NoBroadcast;
      if !f.isAck && !f.hasArp {
        var srcIP := DEFAULT_IP;
        var dstIP := DEFAULT_IP;
        if f.ipv4.Some? {
          srcIP := f.ipv4.value.source;
          dstIP := f.ipv4.value.destination;
        }
        if f.udp.Some? {
          var nodeMAC := GetMacAddress();
          var srcMAC := f.addr2;
          var dstMAC := f.addr1;
          if f.udp.value.destinationPort != OLSR_PORT {
            if nodeMAC == dstMAC {
              // A reserved agent receiving a frame of another pair leaves it be.
              if srcIP != GetIpAddress() && !IsReserved() {
                Reserve(now, srcIP, dstIP, sched);
              }
            } else {
              var related := relations.Related(dstMAC, dstIP);
              if !related {
                var sent := ExistTransmission(dstIP);
                if !sent {
                  var ip := relations.GetIp(dstMAC);
                  var known := relations.ExistIp(ip);
                  if known {
                    AddReserved(ip, now);
                    if flags.reservedNodes {
                      b := AllReservedNodes(GetIndex() != 0);
                    }
                  }
                }
              }
            }
          } else {
            AddRelation(srcMAC, srcIP);
            if flags.addressRelations {
              b := AllAddressRelations(GetIndex() != 0);
            }
          }
        }
      }
    }

    /** The routing table computation, with `now` the current simulated time. */
    method RecalculateRoutingTable(now: Time)
      requires Valid() && olsr != null
      modifies olsr
      ensures olsr.table == RouteBuilder.RoutingTableFor(olsr.env, olsr.state, reservedNodes.reserved, now)
      ensures olsr.hnaRoutes == RouteBuilder.HnaTableFor(olsr.state, olsr.table, old(olsr.hnaRoutes))
      ensures olsr.state == old(olsr.state)
    {
      olsr.Clear();
      RouteBuilder.ComputeOneHop(olsr, now);
      RouteBuilder.ComputeTwoHop(olsr, reservedNodes);
      RouteBuilder.ComputeTopology(olsr, reservedNodes);
      RouteBuilder.ComputeAliases(olsr, reservedNodes);
      RouteBuilder.ComputeHna(olsr);
    }

    method Reserve(t: Time, src: Ipv4, dst: Ipv4, sched: Scheduler)
      requires Valid()
      modifies this, sched
      ensures Valid()
      ensures View() == AfterReserve(old(View()), t, src, dst)
      ensures sched.now == old(sched.now)
      ensures sched.pending == old(sched.pending) + [Event(old(sched.now) + RESERVED_LIFETIME, ResetNoria(index))]
    {
      reserved := true;
      reservedTime := t;
      rSrcAddress := src;
      rDstAddress := dst;
      sched.Schedule(RESERVED_LIFETIME, ResetNoria(GetIndex()));
    }

    method Reset()
      requires Valid()
      modifies this
      ensures Valid()
      ensures View() == AfterReset(old(View()))
    {
      reserved := false;
      reservedTime := 0.0;
      rSrcAddress := ZERO_IP;
      rDstAddress := ZERO_IP;
    }

    method SendPacketProcess(f: Frame, sched: Scheduler)
      requires Valid()
      modifies transmissions
      ensures Valid()
      ensures View() == Sent(old(View()), f, sched.now)
    {
      var now := sched.now;
      if !f.isAck && !f.hasArp {
        var dstIP := DEFAULT_IP;
        if f.ipv4.Some? {
          dstIP := f.ipv4.value.destination;
        }
        if f.udp.Some? && f.udp.value.destinationPort != OLSR_PORT {
          var dstMAC := f.addr1;
          var ip := GetRelatedIpAddress(dstMAC);
          AddTransmission(ip, now);
          AddTransmission(dstIP, now);
        }
      }
    }

    method SetRecalculateRoutingTablePeriod(p: Time, sched: Scheduler)
      requires Valid()
      modifies this, sched
      ensures Valid()
      ensures View() == old(View()).(period := p)
      ensures sched.now == old(sched.now)
      ensures sched.pending == old(sched.pending) + [Event(old(sched.now) + p, RecalculateTable(index))]
    {
      period := p;
      sched.Schedule(p, RecalculateTable(index));
    }

    method UpdateReservedNodes(time: Time)
      requires Valid()
      modifies reservedNodes
      ensures Valid()
      ensures View() == old(View()).(reservedNodes := Res.Swept(old(reservedNodes.reserved), time))
    {
      reservedNodes.Update(time);
    }

    method UpdateTransmission(ip: Ipv4, time: Time)
      requires Valid()
      modifies transmissions
      ensures Valid()
      ensures View() == old(View()).(transmissions := Tx.Bumped(old(transmissions.transmissions), ip, time))
    {
      transmissions.Update(ip, time);
    }

    method WriteAddressRelations(enable: bool)
      modifies this
      ensures View() == old(View()).(flags := old(flags).(addressRelations := enable))
    {
      flags := flags.(addressRelations := enable);
    }

    method WriteReservationState(enable: bool)
      modifies this
      ensures View() == old(View()).(flags := old(flags).(reservationState := enable))
    {
      flags := flags.(reservationState := enable);
    }

    method WriteReservedNodes(enable: bool)
      modifies this
      ensures View() == old(View()).(flags := old(flags).(reservedNodes := enable))
    {
      flags := flags.(reservedNodes := enable);
    }

    method WriteRoutingTable(enable: bool)
      modifies this
      ensures View() == old(View()).(flags := old(flags).(routingTable := enable))
    {
      flags := flags.(routingTable := enable);
    }
  }

  // ------------------------------------------------------------ properties

  /** A fresh agent after `Install (k, address)` knows exactly its own relation. */
  lemma InstalledSeedsOwnRelation(v: AgentView, k: nat, address: Ipv4, deviceMac: Mac, protocol: Olsr.RoutingProtocol)
    requires v.relations == []
    ensures var w := Installed(v, k, address, deviceMac, protocol);
      && w.relations == [Rel.AddressRelation(deviceMac, address)]
      && Rel.IsRelated(w.relations, deviceMac, address)
      && w.index == k && w.ip == address && w.mac == deviceMac
      && w.reserved == v.reserved && w.reservedTime == v.reservedTime
  {
    Rel.AddedFreshLookup(v.relations, deviceMac, address);
  }

  /** Frames that are ACKs, carry ARP, or carry no UDP change nothing. */
  lemma ReceivedIgnored(v: AgentView, f: Frame, now: Time)
    requires f.isAck || f.hasArp || f.udp.None?
    ensures Received(v, f, now) == v && ReceivedEvents(v, f, now) == []
    ensures Sent(v, f, now) == v
  {
  }

  /** An OLSR control frame only teaches the relation (transmitter, source IP),
      first write winning, and turns off the agent's relations log when the
      agent is the one at index 0. */
  lemma {:induction false} ReceivedControl(v: AgentView, f: Frame, now: Time)
    requires Classify(f).Control?
    ensures var w := Received(v, f, now);
      && w == v.(relations := w.relations, flags := v.flags.(addressRelations := v.flags.addressRelations && v.index != 0))
      && Rel.IpOf(w.relations, f.addr2) == (if Rel.HasMac(v.relations, f.addr2) then Rel.IpOf(v.relations, f.addr2) else SourceIp(f))
      && (forall m :: m != f.addr2 ==> Rel.IpOf(w.relations, m) == Rel.IpOf(v.relations, m))
      && ReceivedEvents(v, f, now) == []
  {
    var w := Received(v, f, now);
    if !Rel.HasMac(v.relations, f.addr2) {
      Rel.AddedFreshLookup(v.relations, f.addr2, SourceIp(f));
    }
    forall m | m != f.addr2
      ensures Rel.IpOf(w.relations, m) == Rel.IpOf(v.relations, m)
    {
      Rel.AddedOtherLookup(v.relations, f.addr2, SourceIp(f), m);
    }
  }

  /** The reservation flag is set by the receive pipeline exactly when the
      agent reserves; then it stores (now, source, destination) and arms one
      reset two seconds later; otherwise the reservation state, and in
      particular the pair of an agent already reserved, is kept. */
  lemma ReceivedReservation(v: AgentView, f: Frame, now: Time)
    ensures var w := Received(v, f, now);
      && (w.reserved <==> v.reserved || Reserves(v, f))
      && (Reserves(v, f) ==> w == AfterReserve(v, now, SourceIp(f), DestinationIp(f)))
      && (Reserves(v, f) ==> ReceivedEvents(v, f, now) == [Event(now + RESERVED_LIFETIME, ResetNoria(v.index))])
      && (!Reserves(v, f) ==>
            w.reserved == v.reserved && w.reservedTime == v.reservedTime && w.rSrc == v.rSrc && w.rDst == v.rDst
            && ReceivedEvents(v, f, now) == [])
  {
  }

  /** The reservation registry changes on receive only for an overheard relay:
      the relay's IP is then reserved, with a new entry timed `now` unless it
      was already reserved. */
  lemma {:induction false} ReceivedMarksRelay(v: AgentView, f: Frame, now: Time)
    ensures var w := Received(v, f, now);
      && (!MarksRelay(v, f) ==> w.reservedNodes == v.reservedNodes)
      && (MarksRelay(v, f) ==> w.reservedNodes == Res.Added(v.reservedNodes, ReceiverIp(v, f), now)
                               && Res.HasIp(w.reservedNodes, ReceiverIp(v, f)))
      && (MarksRelay(v, f) && !Res.HasIp(v.reservedNodes, ReceiverIp(v, f)) ==>
            Res.TimeOf(w.reservedNodes, ReceiverIp(v, f)) == now)
      && (MarksRelay(v, f) ==>
            w == v.(reservedNodes := w.reservedNodes, flags := v.flags.(reservedNodes := v.flags.reservedNodes && v.index != 0)))
  {
    if MarksRelay(v, f) {
      Res.AddedLookup(v.reservedNodes, ReceiverIp(v, f), now);
    }
  }

  /** The receive pipeline never touches the transmission registry, the
      identity of the agent or its period; relations change only on control
      frames; of the switches, only the relations log (on a control frame) and
      the reserved-nodes log (on a marked relay) can change, and only from on
      to off, at index 0. */
  lemma ReceivedFrame(v: AgentView, f: Frame, now: Time)
    ensures var w := Received(v, f, now);
      && w.transmissions == v.transmissions
      && (!Classify(f).Control? ==> w.relations == v.relations)
      && w.index == v.index && w.ip == v.ip && w.mac == v.mac && w.olsr == v.olsr
      && w.period == v.period
      && w.flags.reservationState == v.flags.reservationState && w.flags.routingTable == v.flags.routingTable
      && w.flags.addressRelations == (v.flags.addressRelations && (Classify(f).Control? ==> v.index != 0))
      && w.flags.reservedNodes == (v.flags.reservedNodes && (MarksRelay(v, f) ==> v.index != 0))
  {
  }

  /** A data frame addressed to the agent's own device changes nothing when the
      agent is already reserved or originated the frame itself. */
  lemma ReceivedOwnWhileReservedOrSource(v: AgentView, f: Frame, now: Time)
    requires Classify(f).Data? && f.addr1 == v.mac && (v.reserved || SourceIp(f) == v.ip)
    ensures Received(v, f, now) == v && ReceivedEvents(v, f, now) == []
  {
  }

  /** As written, the receiving agent's index is what the broadcast writes
      into the switch of every agent: agent 0 turns the log off everywhere,
      any other agent turns it on everywhere, whatever the other agents had. */
  lemma SwitchBroadcastAsWritten(v: AgentView, u: AgentView, f: Frame, now: Time)
    requires (Classify(f).Control? && v.flags.addressRelations) || (MarksRelay(v, f) && v.flags.reservedNodes)
    ensures var b := ReceivedBroadcast(v, f);
      && (Classify(f).Control? ==>
            Received(v, f, now).flags.addressRelations == (v.index != 0)
            && Broadcasted(u, b).flags.addressRelations == (v.index != 0))
      && (MarksRelay(v, f) ==>
            Received(v, f, now).flags.reservedNodes == (v.index != 0)
            && Broadcasted(u, b).flags.reservedNodes == (v.index != 0))
      && Broadcasted(u, b) == u.(flags := Broadcasted(u, b).flags)
  {
  }

  /** The intended receive pipeline writes the agent's own log files, which
      changes no state: `Handled` keeps every switch, every other agent is
      untouched, and it agrees with the code on all the rest. */
  lemma HandledKeepsSwitches(v: AgentView, f: Frame, now: Time)
    ensures Handled(v, f, now).flags == v.flags
    ensures Received(v, f, now) == Handled(v, f, now).(flags := Received(v, f, now).flags)
  {
  }

  /** Both pipelines keep the registry invariants. */
  lemma {:induction false} ReceivedKeepsValid(v: AgentView, f: Frame, now: Time)
    requires RegistriesValid(v)
    ensures RegistriesValid(Received(v, f, now))
  {
    match Classify(f)
    case Ignored =>
    case Control(transmitter, srcIp) =>
      Rel.AddedKeepsMacsDistinct(v.relations, transmitter, srcIp);
    case Data(receiver, srcIp, dstIp) =>
      Res.AddedShape(v.reservedNodes, Rel.IpOf(v.relations, receiver), now);
  }

  lemma {:induction false} SentKeepsValid(v: AgentView, f: Frame, now: Time)
    requires RegistriesValid(v)
    ensures RegistriesValid(Sent(v, f, now))
  {
    if Classify(f).Data? {
      Tx.AddedLookup(v.transmissions, ReceiverIp(v, f), now);
      Tx.AddedLookup(Tx.Added(v.transmissions, ReceiverIp(v, f), now), DestinationIp(f), now);
    }
  }

  /** A data frame sent records both its next hop (the default address when
      the receiver's MAC is unknown) and its IP destination, each with the
      later of its old time and `now`; nothing else in the agent changes.
      Control frames change nothing. */
  lemma {:induction false} SentRecords(v: AgentView, f: Frame, now: Time)
    requires RegistriesValid(v)
    ensures var w := Sent(v, f, now);
      && w == v.(transmissions := w.transmissions)
      && (!Classify(f).Data? ==> w == v)
      && (Classify(f).Data? ==>
            Tx.HasIp(w.transmissions, ReceiverIp(v, f)) && Tx.HasIp(w.transmissions, DestinationIp(f))
            && Tx.TimeOf(w.transmissions, DestinationIp(f)) >= now
            && Tx.TimeOf(w.transmissions, ReceiverIp(v, f)) >= now
            && (forall ip :: ip != ReceiverIp(v, f) && ip != DestinationIp(f) ==>
                  Tx.TimeOf(w.transmissions, ip) == Tx.TimeOf(v.transmissions, ip)))
    ensures !Rel.HasMac(v.relations, f.addr1) ==> ReceiverIp(v, f) == DEFAULT_IP
  {
    if Classify(f).Data? {
      var hop := ReceiverIp(v, f);
      var dst := DestinationIp(f);
      var mid := Tx.Added(v.transmissions, hop, now);
      Tx.AddedLookup(v.transmissions, hop, now);
      Tx.AddedLookup(mid, dst, now);
      if hop != dst {
        Tx.AddedOtherLookup(mid, dst, now, hop);
      }
      forall ip | ip != hop && ip != dst
        ensures Tx.TimeOf(Tx.Added(mid, dst, now), ip) == Tx.TimeOf(v.transmissions, ip)
      {
        Tx.AddedOtherLookup(v.transmissions, hop, now, ip);
        Tx.AddedOtherLookup(mid, dst, now, ip);
      }
    }
  }

  /** `Reset` clears the reservation state, keeps the registries, and makes the
      agent able to reserve again for any frame it relays. */
  lemma ResetReenablesReservation(v: AgentView, f: Frame)
    ensures var w := AfterReset(v);
      && !w.reserved && w.reservedTime == 0.0 && w.rSrc == ZERO_IP && w.rDst == ZERO_IP
      && w.relations == v.relations && w.reservedNodes == v.reservedNodes && w.transmissions == v.transmissions
      && (Reserves(w, f) <==> Classify(f).Data? && f.addr1 == v.mac && SourceIp(f) != v.ip)
  {
  }

  /** A reserved agent stays reserved, with its pair, whatever it receives. */
  lemma ReservedIsStable(v: AgentView, f: Frame, now: Time)
    requires v.reserved
    ensures var w := Received(v, f, now);
      w.reserved && w.reservedTime == v.reservedTime && w.rSrc == v.rSrc && w.rDst == v.rDst
  {
  }

  /** An overheard relay that was not reserved before is avoided: every route
      of a computation run after a sweep less than two seconds later that is
      not a one-hop route goes through another next hop. */
  lemma {:induction false} OverheardRelayAvoided(v: AgentView, f: Frame, now: Time, later: Time, env: Olsr.OlsrEnv, st: Olsr.OlsrState)
    requires RegistriesValid(v) && MarksRelay(v, f) && !Res.HasIp(v.reservedNodes, ReceiverIp(v, f))
    requires later < now + RESERVED_LIFETIME
    ensures var rs := Res.Swept(Received(v, f, now).reservedNodes, later);
      var r := RouteBuilder.RoutingTableFor(env, st, rs, later);
      var oneHop := RouteBuilder.OneHopRoutes(env, st.links, later, map[], st.neighbors);
      forall d :: d in r && !(d in oneHop && r[d] == oneHop[d]) ==> r[d].nextAddr != ReceiverIp(v, f)
  {
    var relay := ReceiverIp(v, f);
    ReceivedMarksRelay(v, f, now);
    Res.AddedThenSwept(v.reservedNodes, relay, now, later);
    var rs := Res.Swept(Received(v, f, now).reservedNodes, later);
    assert Res.HasIp(rs, relay);
    RouteBuilder.RoutingTableAvoidsReserved(env, st, rs, later);
  }
}
