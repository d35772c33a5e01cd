/**
 * The OLSR state the route builder reads and the tables it writes, as far as
 * the agent uses them: the repositories of section 4 of RFC 3626 as vectors of
 * tuples, the routing table as a map keyed by destination, and the HNA routes
 * (section 12.6 of RFC 3626) as a list of network routes. The operations are
 * the ones the route builder calls; their bodies model the OLSR and
 * static-routing code the agent calls into.
 */
module Olsr {
  import opened Commons

  datatype NeighborStatus = StatusNotSym | StatusSym

  datatype NeighborTuple = NeighborTuple(neighborMainAddr: Ipv4, status: NeighborStatus, willingness: nat)

  datatype LinkTuple = LinkTuple(localIfaceAddr: Ipv4, neighborIfaceAddr: Ipv4, time: Time)

  datatype TwoHopNeighborTuple = TwoHopNeighborTuple(neighborMainAddr: Ipv4, twoHopNeighborAddr: Ipv4)

  datatype TopologyTuple = TopologyTuple(destAddr: Ipv4, lastAddr: Ipv4)

  datatype IfaceAssocTuple = IfaceAssocTuple(ifaceAddr: Ipv4, mainAddr: Ipv4)

  datatype AssociationTuple = AssociationTuple(gatewayAddr: Ipv4, networkAddr: Ipv4, netmask: Ipv4)

  /** A network this node itself announces. */
  datatype Association = Association(networkAddr: Ipv4, netmask: Ipv4)

  datatype OlsrState = OlsrState(
    neighbors: seq<NeighborTuple>,
    links: seq<LinkTuple>,
    twoHopNeighbors: seq<TwoHopNeighborTuple>,
    topology: seq<TopologyTuple>,
    ifaceAssocs: seq<IfaceAssocTuple>,
    associations: seq<AssociationTuple>,
    localAssociations: seq<Association>)

  datatype RoutingEntry = RoutingEntry(destAddr: Ipv4, nextAddr: Ipv4, interface: nat, distance: nat)

  type RoutingTable = map<Ipv4, RoutingEntry>

  datatype HnaRoute = HnaRoute(network: Ipv4, netmask: Ipv4, nextHop: Ipv4, interface: nat, metric: nat)

  /** What the protocol knows about its own node: its main address, the main
      address of any interface address (`GetMainAddress`), and the interface
      index of a local interface address. */
  datatype OlsrEnv = OlsrEnv(
    mainAddress: Ipv4,
    mainAddressOf: Ipv4 -> Ipv4,
    interfaceFor: Ipv4 -> nat)

  /** `FindSymNeighborTuple (addr)` succeeds. */
  predicate IsSymNeighbor(ns: seq<NeighborTuple>, addr: Ipv4) {
    exists i :: 0 <= i < |ns| && ns[i].neighborMainAddr == addr && ns[i].status == StatusSym
  }

  class RoutingProtocol {
    const env: OlsrEnv
    var state: OlsrState
    var table: RoutingTable
    var hnaRoutes: seq<HnaRoute>

    constructor (env: OlsrEnv, state: OlsrState)
      ensures this.env == env && this.state == state && table == map[] && hnaRoutes == []
    {
      this.env := env;
      this.state := state;
      table := map[];
      hnaRoutes := [];
    }

    method Clear()
      modifies this
      ensures table == map[]
      ensures state == old(state) && hnaRoutes == old(hnaRoutes)
    {
      table := map[];
    }

    /** Writes the entry for `dest`, replacing any previous one. */
    method AddEntry(dest: Ipv4, next: Ipv4, interface: nat, distance: nat)
      modifies this
      ensures table == old(table)[dest := RoutingEntry(dest, next, interface, distance)]
      ensures state == old(state) && hnaRoutes == old(hnaRoutes)
    {
      table := table[dest := RoutingEntry(dest, next, interface, distance)];
    }

    /** The overload that names the interface by its local address. */
    method AddEntryVia(dest: Ipv4, next: Ipv4, interfaceAddress: Ipv4, distance: nat)
      modifies this
      ensures table == old(table)[dest := RoutingEntry(dest, next, env.interfaceFor(interfaceAddress), distance)]
      ensures state == old(state) && hnaRoutes == old(hnaRoutes)
    {
      AddEntry(dest, next, env.interfaceFor(interfaceAddress), distance);
    }

    method Lookup(dest: Ipv4) returns (found: bool, entry: RoutingEntry)
      ensures found <==> dest in table
      ensures found ==> entry == table[dest]
    {
      found := dest in table;
      entry := if found then table[dest] else RoutingEntry(dest, dest, 0, 0);
    }

    function GetNRoutes(): nat
      reads this
    {
      |hnaRoutes|
    }

    function GetRoute(index: nat): HnaRoute
      requires index < |hnaRoutes|
      reads this
    {
      hnaRoutes[index]
    }

    function GetMetric(index: nat): nat
      requires index < |hnaRoutes|
      reads this
    {
      hnaRoutes[index].metric
    }

    method RemoveRoute(index: nat)
      requires index < |hnaRoutes|
      modifies this
      ensures hnaRoutes == old(hnaRoutes)[..index] + old(hnaRoutes)[index + 1..]
      ensures state == old(state) && table == old(table)
    {
      hnaRoutes := hnaRoutes[..index] + hnaRoutes[index + 1..];
    }

    method AddNetworkRouteTo(network: Ipv4, netmask: Ipv4, nextHop: Ipv4, interface: nat, metric: nat)
      modifies this
      ensures hnaRoutes == old(hnaRoutes) + [HnaRoute(network, netmask, nextHop, interface, metric)]
      ensures state == old(state) && table == old(table)
    {
      hnaRoutes := hnaRoutes + [HnaRoute(network, netmask, nextHop, interface, metric)];
    }
  }
}
