# NORIA in Dafny

NORIA (Node Reservation Intelligent Agent) is an ns-3 simulation of a
per-node agent. The agent listens promiscuously on its node's Wi-Fi device.

- When it is itself asked to relay data, it *reserves* itself for that
  (source, destination) pair for two seconds.
- When it overhears a neighbour relaying data for someone else, it marks that
  relay's IP as *reserved* in a registry of its own.
- Every time it rebuilds the node's OLSR routing table (section 10 of RFC
  3626) it refuses to route through a reserved next hop. The veto applies to
  two-hop routes, to the topology passes and to interface aliases. One-hop
  routes and the HNA routes of section 12.6 are built as in plain OLSR.

This project models that core and proves properties of it.

- `commons.dfy` (`Commons`): addresses and times, the constants
  (`RESERVED_LIFETIME` = 2 s, `OLSR_PORT` = 698), and the default addresses
  ns-3 leaves in unset fields.
- `relation_container.dfy`, `reserved_container.dfy` and
  `transmissioninfo_container.dfy`: the three registries. Each is a class over
  a `seq` of records whose methods keep the source's loops. Each method is
  proved equal to a specification function (`Added`, `Swept`, `Bumped`,
  `Erased`, first-match `FindIp`/`FindMac`). The lemmas prove what those
  functions promise:
  - key uniqueness;
  - first write wins (relations and reservations);
  - the time of a transmission never decreases;
  - the sweep keeps exactly the live entries, in order, and is idempotent;
  - the two-second reservation window;
  - nothing else changes.
- `frames.dfy` (`Frames`): a captured 802.11 frame as the two pipelines see it
  once ns-3 has decoded the headers. Addr1 is the receiver and Addr2 the
  transmitter. The frame classifier is here too.
- `scheduler.dfy` (`Scheduling`): the simulator clock and the list of
  scheduled callbacks. It only appends; nothing is cancelled.
- `olsr_state.dfy` (`Olsr`): the OLSR repositories as sequences of tuples, the
  routing table as a map keyed by destination, and the HNA route list. It also
  holds the OLSR protocol object with the calls the agent makes into it.
- `route_builder.dfy` (`RouteBuilder`): `Noria::RecalculateRoutingTable`.
  - Each of its five steps is one method, with the source's nested loops, the
    unbounded `for (h = 2;; h++)` loop and the in-place HNA list edits.
  - Each method is proved equal to a prefix fold. `RoutingTableFor` and
    `HnaTableFor` describe the whole computation.
  - The lemmas prove:
    - the veto invariant;
    - termination of the topology passes;
    - which link the main-address route uses;
    - what the HNA step keeps and adds.
- `noria.dfy` (`NoriaAgent`): the agent as a class with the source's fields
  and its three registries. The methods are proved against value-level
  transitions on a snapshot `AgentView` (`Received`, `Sent`, `AfterReserve`,
  `AfterReset`, `Installed`). The lemmas state what each branch of the
  receive and send pipelines does.
- `noria_container.dfy` (`NoriaDirectory`): the directory of agents. It has
  MAC lookup by linear scan, installation in node order, per-index
  delegations that change only one agent, and broadcast setters.
- `callbacks.dfy` (`Callbacks`): the five static procedures the simulator
  calls back into. There the global directory is the parameter `dir` and the
  simulator is a `Scheduler`.

## Notes on the code

The model follows the code in these places:

- **HNA step.** The HNA step consults no reservation registry
  (simulation.cc:956-999), so `HnaRoutes` has no veto, and
  `RoutingTableAvoidsReserved` covers only the routing table.
- **HNA clearing loop.** The loop at simulation.cc:952-953 removes index 0
  while its counter `i` runs up to the *shrinking* `GetNRoutes ()`. So only
  ceil(n/2) of n old routes are removed. `ClearedAsWritten` models exactly
  that, and `ClearedAsWrittenKeeps` states what remains.
- **One-hop main-address entry.** The extra main-address entry
  (simulation.cc:798-814) uses the *last* matching link, not the first. The
  pointer `lt` is reassigned on every match (`ScanLinksLast`).
- **Install index.** `NoriaContainer::Install` counts `cont` from 0 even when
  the directory is not empty. Agent k of a call therefore gets index k
  whatever its position (`InstalledAgent`). Only an install into an empty
  directory guarantees that agent k sits at position k (`IndexAligned`).
- **Switch broadcast on receive.** The directory declares only
  `WriteAddressRelations (bool)` and `WriteReservedNodes (bool)`
  (noria-container.h:169 and 184). The agent's calls
  `norias.WriteReservedNodes (GetIndex())` and `norias.WriteAddressRelations
  (GetIndex())` (simulation.cc:736 and 751) therefore set the switch of every
  agent to `index != 0` and write no file. The model does exactly that
  (`ReceivedBroadcast`, `Broadcasted`); see "## Findings".

`Noria::Reserved ()` (simulation.cc:1022-1024) duplicates `IsReserved` and is
modelled by it.

## Model

| member | source | states |
|---|---|---|
| Commons.AliveWindow | simulation.cc:363-373 | a reservation created at `t` is alive at `now` iff `now < t + 2`, the strict age bound of the sweep |
| Commons.ControlPortIsOlsr | simulation.cc:33-34 | a UDP port is control traffic iff it is 698 |
| RelationRegistry.FindMac | simulation.cc:123-136 | the index of the first relation carrying `mac`, or the size when there is none |
| RelationRegistry.FindIp | simulation.cc:141-154 | the index of the first relation carrying `ip`, or the size |
| RelationRegistry.RelationContainer.constructor | simulation.cc:107-108 | a new registry is empty and valid |
| RelationRegistry.RelationContainer.Add | simulation.cc:113-118 | appends (mac, ip) only when no relation has `mac`, keeping MACs distinct |
| RelationRegistry.RelationContainer.ExistMac | simulation.cc:123-136 | true iff some relation has that MAC |
| RelationRegistry.RelationContainer.ExistIp | simulation.cc:141-154 | true iff some relation has that IP |
| RelationRegistry.RelationContainer.GetIp | simulation.cc:159-174 | the IP of the first relation with `mac`, or the default address |
| RelationRegistry.RelationContainer.GetMac | simulation.cc:179-194 | the MAC of the first relation with `ip`, or the default MAC |
| RelationRegistry.RelationContainer.GetSize | simulation.cc:199-201 | the number of relations |
| RelationRegistry.RelationContainer.Related | simulation.cc:206-212 | true iff `ip` is what `GetIp (mac)` returns |
| RelationRegistry.RelationContainer.UpdateRelation | simulation.cc:229-242 | rewrites the IP of the relation with `mac` in place and keeps the registry valid |
| RelationRegistry.FindMacFound | simulation.cc:123-136 | the first-match scan finds a relation iff one has that MAC |
| RelationRegistry.AddedKeepsMacsDistinct | simulation.cc:113-118 | `Add` preserves "MACs pairwise distinct" |
| RelationRegistry.AddedShape | simulation.cc:113-118 | `Add` never shrinks the list, leaves it unchanged for a known MAC, and grows it by one for a fresh MAC (the size read by `GetSize`, simulation.cc:199-201) |
| RelationRegistry.AddedFreshLookup | simulation.cc:113-174 | after adding a fresh `mac`, `GetIp (mac) == ip` |
| RelationRegistry.AddedFirstWriteWins | simulation.cc:113-118 | a second `Add` for the same MAC changes nothing, so the first IP stays |
| RelationRegistry.AddedOtherLookup | simulation.cc:113-174 | adding (mac, ip) does not change the IP of any other MAC |
| RelationRegistry.UnknownMacRelatedToDefault | simulation.cc:206-212 | an unknown MAC is related to exactly the default address |
| RelationRegistry.IpOfUnique | simulation.cc:159-174 | with distinct MACs, `GetIp` of a stored MAC is its stored IP |
| RelationRegistry.UpdatedKeepsMacs | simulation.cc:229-242 | `UpdateRelation` keeps the size, order and every MAC, hence MAC uniqueness |
| RelationRegistry.UpdatedFrame | simulation.cc:229-242 | `UpdateRelation` is a no-op for an absent MAC; otherwise afterwards `GetIp (mac) == ip`, and every other relation and every other MAC's IP is unchanged |
| ReservedRegistry.FindIp | simulation.cc:302-315 | the index of the first reservation of `ip`, or the size |
| ReservedRegistry.ReservedContainer.constructor | simulation.cc:279-280 | a new registry is empty and valid |
| ReservedRegistry.ReservedContainer.Add | simulation.cc:285-290 | appends (ip, t) only when `ip` is absent |
| ReservedRegistry.ReservedContainer.Erase | simulation.cc:295-297 | for `index < size`, removes exactly that element |
| ReservedRegistry.ReservedContainer.Exist | simulation.cc:302-315 | true iff some reservation has that IP |
| ReservedRegistry.ReservedContainer.GetIp | simulation.cc:320-324 | for `index < size`, the IP of element `index`, whose first occurrence is at `index` |
| ReservedRegistry.ReservedContainer.GetSize | simulation.cc:329-331 | the number of reservations |
| ReservedRegistry.ReservedContainer.GetTimeAt | simulation.cc:336-338 | for `index < size`, the time of element `index`, which is also the time stored for its IP |
| ReservedRegistry.ReservedContainer.GetTime | simulation.cc:343-358 | the time stored for `ip`, or 0 when absent |
| ReservedRegistry.ReservedContainer.Update | simulation.cc:363-373 | rebuilds the registry from the entries still alive at `now` |
| ReservedRegistry.FindIpIsFirst | simulation.cc:302-315 | the scan stops at the first entry with that IP |
| ReservedRegistry.TimeOfUnique | simulation.cc:343-358 | with distinct IPs, `GetTime` of a stored IP is its stored time |
| ReservedRegistry.AddedShape | simulation.cc:285-290 | `Add` keeps IPs distinct, never shrinks the list, is a no-op for a known IP and grows it by one otherwise |
| ReservedRegistry.AddedLookup | simulation.cc:285-358 | after `Add (ip, t)`, `ip` exists and keeps its original time if it was already reserved; otherwise its time is `t` |
| ReservedRegistry.ErasedShape | simulation.cc:295-297 | `Erase` removes exactly element `index`, keeps the others in order and keeps IPs distinct |
| ReservedRegistry.SweptMembers | simulation.cc:363-373 | the sweep keeps exactly the entries with `now - time < 2`, unchanged |
| ReservedRegistry.SweptIdempotent | simulation.cc:363-373 | sweeping twice at the same time equals sweeping once |
| ReservedRegistry.SweptKeepsDistinct | simulation.cc:363-373 | the sweep keeps IPs distinct |
| ReservedRegistry.ReservationWindow | simulation.cc:363-373 | an entry created at `t` survives a sweep at any time before `t + 2` with its time, and is gone after a sweep at `t + 2` or later |
| ReservedRegistry.AddedThenSwept | simulation.cc:285-373 | a fresh reservation added at `t` is present after a sweep at `t'` iff `t' < t + 2` |
| TransmissionRegistry.FindIp | simulation.cc:445-458 | the index of the first transmission to `ip`, or the size |
| TransmissionRegistry.TransmissionInfoContainer.constructor | simulation.cc:411-412 | a new registry is empty and valid |
| TransmissionRegistry.TransmissionInfoContainer.Add | simulation.cc:417-425 | appends when `ip` is absent, otherwise bumps its time; IPs stay distinct |
| TransmissionRegistry.TransmissionInfoContainer.Erase | simulation.cc:430-440 | rebuilds the list without any entry for `ip` |
| TransmissionRegistry.TransmissionInfoContainer.Exist | simulation.cc:445-458 | true iff some transmission has that IP |
| TransmissionRegistry.TransmissionInfoContainer.GetTime | simulation.cc:463-478 | the time stored for `ip`, or 0 when absent |
| TransmissionRegistry.TransmissionInfoContainer.Update | simulation.cc:483-498 | overwrites the first entry for `ip` only when its time is smaller |
| TransmissionRegistry.FindIpIsFirst | simulation.cc:445-458 | the scan stops at the first entry with that IP |
| TransmissionRegistry.BumpedShape | simulation.cc:483-498 | `Update` never inserts, keeps the size, each time becomes the max of its old time and `t` only for `ip`, other entries are unchanged, and IPs stay distinct |
| TransmissionRegistry.BumpedLookup | simulation.cc:483-498 | for a present `ip`, the new time is the max of the old time and `t` |
| TransmissionRegistry.BumpedOtherLookup | simulation.cc:483-498 | `Update` changes neither the presence nor the time of any other IP |
| TransmissionRegistry.AddedLookup | simulation.cc:417-478 | after `Add (ip, t)`, `ip` exists with time max(previous, t) (or `t` when new) and IPs stay distinct |
| TransmissionRegistry.AddedOtherLookup | simulation.cc:417-425 | `Add` leaves the presence and time of every other IP unchanged |
| TransmissionRegistry.AddedTwiceMonotonic | simulation.cc:417-498 | a later `Add` with an earlier time does not lower the stored time, and the stored time is at least the added time |
| TransmissionRegistry.ErasedMembers | simulation.cc:430-440 | `Erase (ip)` keeps exactly the entries for other IPs; afterwards `ip` does not exist |
| TransmissionRegistry.ErasedKeepsDistinct | simulation.cc:430-440 | `Erase` keeps IPs distinct |
| TransmissionRegistry.ErasedOtherLookup | simulation.cc:430-478 | `Erase (ip)` leaves every other IP's time unchanged |
| Frames.Classify | simulation.cc:655-757 | ACK, ARP and UDP-less frames are ignored; a UDP frame to port 698 is control traffic from Addr2; any other UDP frame is data for Addr1 with the IPv4 addresses (the send path tests the same at simulation.cc:1045-1068) |
| Frames.ClassifyIgnoresLlcSnap | simulation.cc:663-667 | an LLC/SNAP header never changes the outcome (and in the send path at simulation.cc:1047-1051) |
| Frames.ClassifyWithoutIpv4 | simulation.cc:673-685 | a missing IPv4 header does not stop processing; its addresses become the default ones (and in the send path at simulation.cc:1057-1061) |
| Scheduling.Scheduler.constructor | simulation.cc:44-86 | a fresh clock at `start` with nothing pending |
| Scheduling.Scheduler.Schedule | simulation.cc:44-86 | appends one event at `now + delay` and leaves the clock alone (the calls at simulation.cc:47, 85, 641, 1016 and 1089) |
| Olsr.RoutingProtocol.constructor | simulation.cc:766-770 | a protocol with the given state, an empty table and no HNA routes |
| Olsr.RoutingProtocol.Clear | simulation.cc:770 | empties the routing table, nothing else |
| Olsr.RoutingProtocol.AddEntry | simulation.cc:871 | writes the entry for `dest`, replacing any previous one (also the calls at simulation.cc:907 and 940) |
| Olsr.RoutingProtocol.AddEntryVia | simulation.cc:788 | writes the entry with the interface of a local interface address (also the call at simulation.cc:813) |
| Olsr.RoutingProtocol.Lookup | simulation.cc:868 | finds the entry for `dest` iff the table has one (also the calls at simulation.cc:893-894, 931-932 and 978) |
| Olsr.RoutingProtocol.RemoveRoute | simulation.cc:953 | removes exactly element `index` of the HNA list (also the call at simulation.cc:992) |
| Olsr.RoutingProtocol.AddNetworkRouteTo | simulation.cc:997 | appends one HNA route |
| Olsr.RoutingProtocol.GetNRoutes | simulation.cc:952 | the number of HNA routes (also the calls at simulation.cc:981 and 988) |
| Olsr.RoutingProtocol.GetRoute | simulation.cc:982 | HNA route `index` |
| Olsr.RoutingProtocol.GetMetric | simulation.cc:991 | the metric of HNA route `index` |
| Olsr.IsSymNeighbor | simulation.cc:829 | `FindSymNeighborTuple (addr)` succeeds: some neighbour tuple has main address `addr` and status symmetric |
| RouteBuilder.ComputeOneHop | simulation.cc:774-816 | the loops write exactly `OneHopRoutes` |
| RouteBuilder.ComputeTwoHop | simulation.cc:823-876 | the loops write exactly `TwoHopRoutes` and consult the reserved registry |
| RouteBuilder.ComputeTopology | simulation.cc:878-920 | the unbounded pass loop terminates and writes exactly `TopologyRoutes` from pass 2 |
| RouteBuilder.ComputeAliases | simulation.cc:927-942 | the loop writes exactly `AliasRoutes` |
| RouteBuilder.ComputeHna | simulation.cc:951-999 | the clearing and association loops leave exactly `HnaTableFor` and do not touch the routing table |
| RouteBuilder.FindRoute | simulation.cc:981-986 | the index of the first HNA route for (network, netmask), or the count |
| RouteBuilder.ScanLinksShape | simulation.cc:782-796 | the link scan only adds distance-1 routes through valid links of a symmetric neighbour, routes every matching link's address, and records whether the main address was seen |
| RouteBuilder.ScanLinksLast | simulation.cc:782-814 | the link used for the main-address entry is the last matching link, and there is one iff some link matches |
| RouteBuilder.OneHopShape | simulation.cc:774-816 | the one-hop step keeps the table it starts from and adds only distance-1 routes through valid links to symmetric neighbours; each such link's address and each such neighbour's main address gets a route |
| RouteBuilder.OneHopTable | simulation.cc:770-816 | starting from the cleared table, every entry is such a one-hop route and all of them are present |
| RouteBuilder.TwoHopShape | simulation.cc:823-876 | the two-hop step keeps earlier destinations, writes well-formed entries and only through unreserved next hops |
| RouteBuilder.TopologyPassShape | simulation.cc:878-920 | one pass keeps earlier entries, adds only topology destinations at distance h+1 through unreserved next hops, and reports `added` iff it added one |
| RouteBuilder.TopologyPassProgress | simulation.cc:878-920 | a productive pass routes one more topology destination, which bounds the passes |
| RouteBuilder.TopologyShape | simulation.cc:878-920 | all passes from `h` on keep earlier entries and add only veto-free topology routes beyond distance `h` |
| RouteBuilder.TopologyExtendsWellFormed | simulation.cc:878-920 | the topology step keeps the table well formed and respects the veto |
| RouteBuilder.TopologyStops | simulation.cc:878-920 | the passes end at a pass that adds nothing |
| RouteBuilder.AliasShape | simulation.cc:927-942 | the alias step keeps earlier entries and adds entries only through unreserved next hops |
| RouteBuilder.RoutingTableAvoidsReserved | simulation.cc:766-942 | every entry of the computed table is a one-hop entry or has a next hop absent from the reserved registry, and every one-hop destination stays routed |
| RouteBuilder.ClearedAsWrittenKeeps | simulation.cc:951-954 | the clearing loop leaves the last floor(n/2) routes, so a list of two or more is never emptied |
| RouteBuilder.HnaRoutesFromGateways | simulation.cc:956-999 | every HNA route is an old one, or comes from a non-local association whose gateway is routed, with that route's next hop, interface and distance |
| RouteBuilder.HnaRoutesCover | simulation.cc:956-999 | afterwards every non-local network whose gateway is routed has an HNA route |
| RouteBuilder.HnaStepKeepsNetwork | simulation.cc:981-998 | replacing a worse route never leaves a network without a route |
| NoriaAgent.Noria.constructor | simulation.cc:515-516 | a fresh agent is not reserved, has time 0 and empty registries |
| NoriaAgent.Noria.Clone | simulation.cc:1254-1256 | a by-value copy with fresh registries and the same state (the copy `Get` also returns, simulation.cc:1310-1312) |
| NoriaAgent.Noria.AddRelation | simulation.cc:521-523 | adds to the relations, nothing else |
| NoriaAgent.Noria.AddReserved | simulation.cc:528-530 | adds to the reserved registry, nothing else |
| NoriaAgent.Noria.AddTransmission | simulation.cc:535-537 | adds to the transmissions, nothing else |
| NoriaAgent.Noria.EraseReservedNode | simulation.cc:542-544 | erases one reservation, nothing else |
| NoriaAgent.Noria.EraseTransmission | simulation.cc:549-551 | erases the transmissions to `ip`, nothing else |
| NoriaAgent.Noria.ExistTransmission | simulation.cc:556-558 | true iff the agent has sent to `ip` |
| NoriaAgent.Noria.GetIndex | simulation.cc:564-566 | the agent's index, the one `Install` set |
| NoriaAgent.Noria.GetIpAddress | simulation.cc:571-575 | the agent's IP, the one `Install` set |
| NoriaAgent.Noria.GetMacAddress | simulation.cc:580-583 | the MAC of the agent's device, the one `Install` set |
| NoriaAgent.Noria.GetRecalculateRoutingTablePeriod | simulation.cc:588-590 | the agent's recomputation period |
| NoriaAgent.Noria.GetRelatedIpAddress | simulation.cc:595-597 | the IP the agent relates to `mac` |
| NoriaAgent.Noria.GetTransmissionTime | simulation.cc:602-604 | the last-send time to `ip`, or 0 |
| NoriaAgent.Noria.IsReserved | simulation.cc:648-650 | the agent's reservation flag (also `Reserved ()`, simulation.cc:1022-1024) |
| NoriaAgent.Noria.Install | simulation.cc:613-643 | sets index, IP, device and protocol, seeds the own relation, clears the switches and arms one sweep after 2 s |
| NoriaAgent.Noria.ReceivePacketProcess | simulation.cc:655-757 | the new registries and reservation state are `Handled` of the old ones, the events armed are `ReceivedEvents`, and the switch broadcast it hands to the directory is `ReceivedBroadcast`: the relations switch after a control frame (simulation.cc:750-751) or the reserved-nodes switch after marking a relay (735-736), each only when that switch is on, with the value `index != 0` |
| NoriaAgent.Noria.RecalculateRoutingTable | simulation.cc:766-1006 | the routing table becomes `RoutingTableFor` the OLSR state and the agent's reservations, and the HNA list becomes `HnaTableFor` it |
| NoriaAgent.Noria.Reserve | simulation.cc:1011-1017 | sets reserved, time and pair, and schedules exactly one `ResetNoria` 2 s later |
| NoriaAgent.Noria.Reset | simulation.cc:1029-1034 | clears the flag, zeroes time and pair, keeps the registries |
| NoriaAgent.Noria.SendPacketProcess | simulation.cc:1039-1082 | the new state is `Sent` of the old one |
| NoriaAgent.Noria.SetRecalculateRoutingTablePeriod | simulation.cc:1087-1090 | sets the period and arms one recomputation after it |
| NoriaAgent.Noria.UpdateReservedNodes | simulation.cc:1114-1116 | sweeps the reserved registry at `time`, nothing else |
| NoriaAgent.Noria.UpdateTransmission | simulation.cc:1121-1123 | bumps the time of `ip`, nothing else |
| NoriaAgent.Noria.WriteAddressRelations | simulation.cc:1139-1141 | sets one switch, nothing else |
| NoriaAgent.Noria.WriteReservationState | simulation.cc:1181-1183 | sets one switch, nothing else |
| NoriaAgent.Noria.WriteReservedNodes | simulation.cc:1160-1162 | sets one switch, nothing else |
| NoriaAgent.Noria.WriteRoutingTable | simulation.cc:1203-1205 | sets one switch, nothing else |
| NoriaAgent.InstalledSeedsOwnRelation | simulation.cc:613-643 | after `Install (k, ip)` a fresh agent knows exactly the relation (own MAC, own IP), has index k and IP `ip`, and is still not reserved (from the constructor at simulation.cc:515) |
| NoriaAgent.ReceivedIgnored | simulation.cc:655-757 | ACK, ARP and UDP-less frames change nothing in either pipeline and schedule nothing (and the send path, simulation.cc:1039-1082) |
| NoriaAgent.ReceivedControl | simulation.cc:686-753 | a control frame adds the relation (Addr2, source IP), first write winning, and every other MAC's IP is unchanged; the relations switch becomes `on && index != 0` (the broadcast at 750-751); nothing else changes and nothing is scheduled |
| NoriaAgent.ReceivedReservation | simulation.cc:694-718 | the agent becomes reserved exactly when it was, or when it is the receiver, the source is not itself and it was free; it then stores (now, src, dst) and arms one reset 2 s later; otherwise the reservation state is kept (through `Reserve`, simulation.cc:1011-1017) |
| NoriaAgent.ReceivedMarksRelay | simulation.cc:721-743 | the reserved registry changes only for an overheard relay passing the three checks, which then adds `GetIp (Addr1)` at `now`; the reserved-nodes switch becomes `on && index != 0` (the broadcast at 735-736); nothing else changes |
| NoriaAgent.ReceivedFrame | simulation.cc:655-757 | the receive pipeline never touches transmissions, identity or period; relations change only on control frames; the reservation-state and routing-table switches never change; the relations switch is turned off exactly on a control frame at index 0, the reserved-nodes switch exactly on a marked relay at index 0 |
| NoriaAgent.ReceivedOwnWhileReservedOrSource | simulation.cc:694-718 | a data frame whose Addr1 is the agent's own MAC changes nothing and schedules nothing when the agent is already reserved or is the frame's source |
| NoriaAgent.SwitchBroadcastAsWritten | simulation.cc:733-752 | when the relevant switch is on, the receiving agent and every other agent end with that switch equal to `index != 0`, and nothing but that switch changes on the other agents |
| NoriaAgent.HandledKeepsSwitches | simulation.cc:1146-1156 | the intended per-agent log write changes no state: `Handled` keeps every switch and agrees with `Received` on everything else |
| NoriaAgent.ReceivedKeepsValid | simulation.cc:655-757 | the receive pipeline keeps all three key-uniqueness invariants |
| NoriaAgent.SentKeepsValid | simulation.cc:1039-1082 | the send pipeline keeps all three key-uniqueness invariants |
| NoriaAgent.SentRecords | simulation.cc:1068-1078 | a data frame records its next hop (the default address for an unknown MAC) and its destination at `now` or later; other IPs and the rest of the agent are unchanged; control frames change nothing |
| NoriaAgent.ResetReenablesReservation | simulation.cc:1029-1034 | after `Reset` the agent is free with time 0 and zero pair, keeps its registries, and reserves again for any data frame it is asked to relay from another source (the receive test at simulation.cc:694-718) |
| NoriaAgent.ReservedIsStable | simulation.cc:698-709 | a reserved agent keeps its flag, time and pair whatever it receives |
| NoriaAgent.OverheardRelayAvoided | simulation.cc:721-743 | a relay that was newly overheard is never the next hop of a non-one-hop route computed less than 2 s later, after a sweep (then the sweep at simulation.cc:363-373 and the vetoes at simulation.cc:823-942) |
| NoriaDirectory.AgentWithMac | simulation.cc:1317-1330 | the position of the first agent with `mac`, or the size |
| NoriaDirectory.SweepEvents | simulation.cc:1363-1372 | one sweep 2 s ahead per installed agent, in node order (each armed by `Noria::Install`, simulation.cc:641) |
| NoriaDirectory.NoriaContainer.constructor | simulation.cc:1248-1249 | an empty directory |
| NoriaDirectory.NoriaContainer.Add | simulation.cc:1254-1256 | appends one copy of the agent |
| NoriaDirectory.NoriaContainer.Clear | simulation.cc:1282-1284 | empties the directory |
| NoriaDirectory.NoriaContainer.GetSize | simulation.cc:1349-1351 | the number of agents |
| NoriaDirectory.NoriaContainer.GetNoriaIndex | simulation.cc:1317-1330 | the smallest position whose agent has `mac`, or the size |
| NoriaDirectory.NoriaContainer.Get | simulation.cc:1310-1312 | a copy of agent `i` |
| NoriaDirectory.NoriaContainer.AddInstalled | simulation.cc:1366-1370 | one step of `Install`: a new installed agent at the end, the others unchanged |
| NoriaDirectory.NoriaContainer.Install | simulation.cc:1363-1372 | one agent per node in node order; agent k gets index k and interface address k, and on an empty directory sits at position k |
| NoriaDirectory.NoriaContainer.AddRelation | simulation.cc:1261-1263 | changes only agent `index`, as its `AddRelation` |
| NoriaDirectory.NoriaContainer.AddReserved | simulation.cc:1268-1270 | changes only agent `index` |
| NoriaDirectory.NoriaContainer.AddTransmission | simulation.cc:1275-1277 | changes only agent `index` |
| NoriaDirectory.NoriaContainer.EraseReservedNode | simulation.cc:1289-1291 | changes only agent `noriaIndex` |
| NoriaDirectory.NoriaContainer.EraseTransmission | simulation.cc:1296-1298 | changes only agent `index` |
| NoriaDirectory.NoriaContainer.ExistTransmission | simulation.cc:1303-1305 | whether agent `index` has sent to `ip` |
| NoriaDirectory.NoriaContainer.GetRecalculateRoutingTablePeriod | simulation.cc:1335-1337 | agent `index`'s period |
| NoriaDirectory.NoriaContainer.GetRelatedIpAddress | simulation.cc:1342-1344 | agent `index`'s IP for `mac` |
| NoriaDirectory.NoriaContainer.GetTransmissionTime | simulation.cc:1356-1358 | agent `index`'s last-send time to `ip` |
| NoriaDirectory.NoriaContainer.IsReserved | simulation.cc:1377-1379 | agent `index`'s reservation flag |
| NoriaDirectory.NoriaContainer.RecalculateRoutingTable | simulation.cc:1384-1386 | recomputes agent `index`'s tables; no agent state changes |
| NoriaDirectory.NoriaContainer.ReceivePacketProcess | simulation.cc:1391-1393 | for an agent at its own index, that agent changes by `Received`, every other agent only by the switch broadcast `ReceivedBroadcast` of the receiving agent, and the events are `ReceivedEvents` |
| NoriaDirectory.NoriaContainer.Broadcast | simulation.cc:1460-1492 | every agent's switch is set as the broadcast says, through `WriteAddressRelations (bool)` (1460-1465) or `WriteReservedNodes (bool)` (1487-1492); nothing else changes |
| NoriaDirectory.NoriaContainer.Reserve | simulation.cc:1398-1400 | only agent `index` changes, reserved for the pair |
| NoriaDirectory.NoriaContainer.Reset | simulation.cc:1405-1407 | only agent `index` changes, reset |
| NoriaDirectory.NoriaContainer.SendPacketProcess | simulation.cc:1412-1414 | for an agent at its own index, only that agent changes, by `Sent` |
| NoriaDirectory.NoriaContainer.SetRecalculateRoutingTablePeriodAt | simulation.cc:1429-1431 | only agent `index` gets the period |
| NoriaDirectory.NoriaContainer.UpdateReservedNodes | simulation.cc:1446-1448 | only agent `index`'s reservations are swept |
| NoriaDirectory.NoriaContainer.UpdateTransmissionTime | simulation.cc:1453-1455 | only agent `index`'s transmission time is bumped |
| NoriaDirectory.NoriaContainer.SetRecalculateRoutingTablePeriod | simulation.cc:1419-1424 | every agent gets the same period and one recomputation per agent is armed, in order |
| NoriaDirectory.NoriaContainer.WriteAddressRelations | simulation.cc:1460-1465 | sets the switch on every agent, nothing else |
| NoriaDirectory.NoriaContainer.WriteReservationState | simulation.cc:1470-1475 | sets the switch on every agent, nothing else |
| NoriaDirectory.NoriaContainer.WriteReservedNodes | simulation.cc:1487-1492 | sets the switch on every agent, nothing else |
| NoriaDirectory.NoriaContainer.WriteRoutingTables | simulation.cc:1504-1509 | sets the switch on every agent, nothing else |
| NoriaDirectory.DistinctMacsFindOwner | simulation.cc:1317-1330 | with distinct device MACs, the lookup of agent k's MAC finds k |
| Callbacks.RecalculateTable | simulation.cc:44-48 | recomputes agent `index`'s table and re-arms itself after the agent's period |
| Callbacks.ReceivePacket | simulation.cc:53-59 | on an index-aligned directory, hands the frame to the first agent with that device MAC, which changes by `Received` while the others change only by its switch broadcast; keeps the directory aligned; changes nothing when there is no such agent |
| Callbacks.ResetNoria | simulation.cc:64-66 | resets agent `index` only |
| Callbacks.SendPacket | simulation.cc:71-77 | on an index-aligned directory, hands the frame to the first agent with that device MAC, which changes by `Sent`; keeps the directory aligned; changes nothing when there is no such agent |
| Callbacks.UpdateReserved | simulation.cc:82-86 | sweeps agent `index`'s reservations at now and re-arms itself 2 s later |

## Left out

- Output: all `Write*` and `Show*` bodies, the file names in `Commons`, and
  `WriteStates`. They only print. The model keeps the four switches the
  `Write*(bool)` setters set, including the broadcasts the receive pipeline
  triggers. It leaves out the per-index
  `NoriaContainer::WriteReservationState (index)` and `WriteRoutingTable
  (index)` (simulation.cc:716 and 739), because they only write files.
- NoriaAgent.Noria.ReceivePacketProcess, NoriaAgent.Noria.SendPacketProcess:
  the source reaches the agent's own registries through the global `norias`
  at `GetIndex ()` (simulation.cc:701, 714, 728, 733, 749, 1072-1077). The
  model makes these calls on the agent itself, which is the same agent only
  when it sits at its own index. The directory's `ReceivePacketProcess` and
  `SendPacketProcess` therefore require `norias[index].index == index`, and
  the two capture callbacks require `IndexAligned`, which `Install` on the
  cleared directory of `main` establishes. What a misaligned directory
  would do (change another agent, or read past the end) is not modelled.
- Packet decoding: ns-3's header peeking and removal (`WifiMacHeader`,
  `LlcSnapHeader`, `ArpHeader`, `Ipv4Header`, `UdpHeader`) is replaced by the
  decoded `Frame` record.
- `Config::LookupMatches`, `TraceConnectWithoutContext` and `GetObject` in
  `Noria::Install`. These are foreign lookups, so the device MAC and the OLSR
  object are parameters (`NodeHandle`). Node k of the directory's `Install`
  stands for `/NodeList/k`.
- `Simulator::Schedule` and `Simulator::Now` belong to the discrete-event
  engine. Here they are `Scheduler`: a clock plus an append-only list of
  (time, callback) events. Running the events is not modelled.
- `NoriaSimulation` and `main`: topology, mobility, sockets, throughput and
  command-line parsing.
- OLSR internals are assumptions about code that is not shown.
  - `AddEntry` overwrites by destination.
  - `Lookup`, `GetMainAddress` and the interface index of a local address
    are the parameters in `OlsrEnv`.
  - `m_routingTableChanged` is not modelled.
  - The HNA table is a sequence (`Olsr.RoutingProtocol`).
- ClearedAsWritten: the HNA clearing removes ceil(n/2) old routes, as written,
  and is not corrected.
- RouteBuilder.ComputeTopology: `h` is a 32-bit counter in the source. It is a
  `nat` here, because the number of passes is bounded by the number of
  topology destinations and cannot overflow in practice.
- Times are `real`, not IEEE doubles. They are only compared and added.
- `NS_LOG_*` calls, the declared but undefined
  `NoriaContainer::GetRecalculateRoutingTable`, and the no-op
  `TransmissionInfoContainer::Write`.
- Callbacks.ReceivePacket, Callbacks.SendPacket: the packet copy is not
  modelled, because frames are values.

## Findings

| source | as written | input that shows it | evidently intended | confidence | as-written member | corrected member |
|---|---|---|---|---|---|---|
| simulation.cc:751 | `norias.WriteAddressRelations (GetIndex())` resolves to the `bool` broadcast setter and sets every agent's relations switch to `index != 0` | agent 0, relations switch on, receives an OLSR control frame: every agent's relations switch becomes off | write agent `index`'s relations file and change no switch, as the `uint32_t` writers called at simulation.cc:716 and 739 do | not executed | NoriaAgent.SwitchBroadcastAsWritten | NoriaAgent.HandledKeepsSwitches |
| simulation.cc:736 | `norias.WriteReservedNodes (GetIndex())` resolves to the `bool` broadcast setter and sets every agent's reserved-nodes switch to `index != 0` | agent 0, reserved-nodes switch on, overhears a relay it marks: every agent's reserved-nodes switch becomes off | write agent `index`'s reserved-nodes file and change no switch | not executed | NoriaAgent.SwitchBroadcastAsWritten | NoriaAgent.HandledKeepsSwitches |

The directory and the callbacks follow the code as written; `Handled` is the
intended transition, which agrees with it everywhere except on the switches.
