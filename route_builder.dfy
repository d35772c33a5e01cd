/**
 * The agent's replacement for OLSR's routing table computation (section 10 of
 * RFC 3626): the same five steps, except that a route through a next hop held
 * in the agent's reservation registry is not written in the two-hop, topology
 * and alias steps. Each step is specified by a fold over the OLSR repository
 * it walks, and the methods that perform the steps on the protocol object are
 * proved equal to those folds.
 */
module RouteBuilder {
  import opened Commons
  import opened Olsr
  import Res = ReservedRegistry

  const OLSR_WILL_NEVER: nat := 0

  /** A candidate next hop the agent refuses: it is currently reserved. */
  predicate Vetoed(rs: seq<Res.Reserved>, next: Ipv4) {
    Res.HasIp(rs, next)
  }

  // ---------------------------------------------------------------- step 2

  /** The state of the scan over the link set for one symmetric neighbour:
      the table so far, whether a link named the neighbour's main address,
      and the last matching link. */
  datatype LinkScan = LinkScan(table: RoutingTable, mainAddrSeen: bool, last: Option<LinkTuple>)

  /** The link belongs to the neighbour and has not expired at `now`. */
  predicate LinkMatches(env: OlsrEnv, nb: NeighborTuple, now: Time, l: LinkTuple) {
    env.mainAddressOf(l.neighborIfaceAddr) == nb.neighborMainAddr && l.time >= now
  }

  function LinkEntry(env: OlsrEnv, dest: Ipv4, l: LinkTuple): RoutingEntry {
    RoutingEntry(dest, l.neighborIfaceAddr, env.interfaceFor(l.localIfaceAddr), 1)
  }

  function ScanLinks(env: OlsrEnv, nb: NeighborTuple, now: Time, t: RoutingTable, links: seq<LinkTuple>): LinkScan
    decreases |links|
  {
    if links == [] then LinkScan(t, false, None)
    else
      var s := ScanLinks(env, nb, now, t, links[..|links| - 1]);
      var l := links[|links| - 1];
      if LinkMatches(env, nb, now, l) then
        LinkScan(s.table[l.neighborIfaceAddr := LinkEntry(env, l.neighborIfaceAddr, l)],
                 s.mainAddrSeen || l.neighborIfaceAddr == nb.neighborMainAddr,
                 Some(l))
      else s
  }

  /** The routes one neighbour tuple contributes in step 2. */
  function NeighborRoutes(env: OlsrEnv, links: seq<LinkTuple>, now: Time, t: RoutingTable, nb: NeighborTuple): RoutingTable {
    if nb.status != StatusSym then t
    else
      var s := ScanLinks(env, nb, now, t, links);
      if !s.mainAddrSeen && s.last.Some? then
        s.table[nb.neighborMainAddr := LinkEntry(env, nb.neighborMainAddr, s.last.value)]
      else s.table
  }

  function OneHopRoutes(env: OlsrEnv, links: seq<LinkTuple>, now: Time, t: RoutingTable, ns: seq<NeighborTuple>): RoutingTable
    decreases |ns|
  {
    if ns == [] then t
    else NeighborRoutes(env, links, now, OneHopRoutes(env, links, now, t, ns[..|ns| - 1]), ns[|ns| - 1])
  }

  // ---------------------------------------------------------------- step 3

  predicate WillingNeighbor(ns: seq<NeighborTuple>, addr: Ipv4) {
    exists i :: 0 <= i < |ns| && ns[i].neighborMainAddr == addr && ns[i].willingness != OLSR_WILL_NEVER
  }

  /** The route one two-hop tuple contributes: through the entry of its
      one-hop neighbour, unless that entry's next hop is reserved. */
  function TwoHopRoute(env: OlsrEnv, ns: seq<NeighborTuple>, rs: seq<Res.Reserved>, t: RoutingTable, n2: TwoHopNeighborTuple): RoutingTable {
    if IsSymNeighbor(ns, n2.twoHopNeighborAddr) || n2.twoHopNeighborAddr == env.mainAddress
       || !WillingNeighbor(ns, n2.neighborMainAddr) then t
    else if n2.neighborMainAddr in t && !Vetoed(rs, t[n2.neighborMainAddr].nextAddr) then
      var via := t[n2.neighborMainAddr];
      t[n2.twoHopNeighborAddr := RoutingEntry(n2.twoHopNeighborAddr, via.nextAddr, via.interface, 2)]
    else t
  }

  function TwoHopRoutes(env: OlsrEnv, ns: seq<NeighborTuple>, rs: seq<Res.Reserved>, t: RoutingTable, n2s: seq<TwoHopNeighborTuple>): RoutingTable
    decreases |n2s|
  {
    if n2s == [] then t
    else TwoHopRoute(env, ns, rs, TwoHopRoutes(env, ns, rs, t, n2s[..|n2s| - 1]), n2s[|n2s| - 1])
  }

  // -------------------------------------------------------------- step 3.1

  /** The table during one pass over the topology set, and whether the pass
      has added an entry. */
  datatype Pass = Pass(table: RoutingTable, added: bool)

  function TopologyRoute(rs: seq<Res.Reserved>, h: nat, p: Pass, tt: TopologyTuple): Pass {
    var t := p.table;
    if tt.destAddr !in t && tt.lastAddr in t && t[tt.lastAddr].distance == h
       && !Vetoed(rs, t[tt.lastAddr].nextAddr) then
      var via := t[tt.lastAddr];
      Pass(t[tt.destAddr := RoutingEntry(tt.destAddr, via.nextAddr, via.interface, h + 1)], true)
    else p
  }

  /** Pass number `h` over the topology set. */
  function TopologyPass(rs: seq<Res.Reserved>, h: nat, t: RoutingTable, topo: seq<TopologyTuple>): Pass
    decreases |topo|
  {
    if topo == [] then Pass(t, false)
    else TopologyRoute(rs, h, TopologyPass(rs, h, t, topo[..|topo| - 1]), topo[|topo| - 1])
  }

  function TopologyDests(topo: seq<TopologyTuple>): set<Ipv4> {
    set tt | tt in topo :: tt.destAddr
  }

  /** Passes `h`, `h + 1`, ... until one adds nothing. */
  function TopologyRoutes(rs: seq<Res.Reserved>, h: nat, t: RoutingTable, topo: seq<TopologyTuple>): RoutingTable
    decreases |TopologyDests(topo) - t.Keys|
  {
    var p := TopologyPass(rs, h, t, topo);
    if !p.added then p.table
    else
      TopologyPassProgress(rs, h, t, topo);
      TopologyRoutes(rs, h + 1, p.table, topo)
  }

  // ---------------------------------------------------------------- step 4

  function AliasRoute(rs: seq<Res.Reserved>, t: RoutingTable, a: IfaceAssocTuple): RoutingTable {
    if a.mainAddr in t && a.ifaceAddr !in t && !Vetoed(rs, t[a.mainAddr].nextAddr) then
      var via := t[a.mainAddr];
      t[a.ifaceAddr := RoutingEntry(a.ifaceAddr, via.nextAddr, via.interface, via.distance)]
    else t
  }

  function AliasRoutes(rs: seq<Res.Reserved>, t: RoutingTable, assocs: seq<IfaceAssocTuple>): RoutingTable
    decreases |assocs|
  {
    if assocs == [] then t
    else AliasRoute(rs, AliasRoutes(rs, t, assocs[..|assocs| - 1]), assocs[|assocs| - 1])
  }

  /** The routing table the computation leaves: steps 1 to 4. */
  function RoutingTableFor(env: OlsrEnv, st: OlsrState, rs: seq<Res.Reserved>, now: Time): RoutingTable {
    var oneHop := OneHopRoutes(env, st.links, now, map[], st.neighbors);
    var twoHop := TwoHopRoutes(env, st.neighbors, rs, oneHop, st.twoHopNeighbors);
    AliasRoutes(rs, TopologyRoutes(rs, 2, twoHop, st.topology), st.ifaceAssocs)
  }

  // ---------------------------------------------------------------- step 5

  /** What the "clear" loop leaves: it removes the first route while its
      counter stays below the shrinking route count, that is ceil(n/2) times. */
  function ClearedAsWritten(routes: seq<HnaRoute>): seq<HnaRoute> {
    routes[(|routes| + 1) / 2..]
  }

  predicate LocalAssociation(locals: seq<Association>, a: AssociationTuple) {
    exists i :: 0 <= i < |locals| && locals[i].networkAddr == a.networkAddr && locals[i].netmask == a.netmask
  }

  predicate RouteFor(r: HnaRoute, network: Ipv4, netmask: Ipv4) {
    r.network == network && r.netmask == netmask
  }

  /** Position of the first route to `network/netmask`, or `|routes|`. */
  function FindRoute(routes: seq<HnaRoute>, network: Ipv4, netmask: Ipv4): (k: nat)
    ensures k <= |routes|
    ensures k < |routes| ==> RouteFor(routes[k], network, netmask)
    ensures forall j :: 0 <= j < k ==> !RouteFor(routes[j], network, netmask)
  {
    if routes == [] then 0
    else if RouteFor(routes[0], network, netmask) then 0
    else 1 + FindRoute(routes[1..], network, netmask)
  }

  function GatewayRoute(a: AssociationTuple, e: RoutingEntry): HnaRoute {
    HnaRoute(a.networkAddr, a.netmask, e.nextAddr, e.interface, e.distance)
  }

  /** The HNA routes after one association tuple. */
  function HnaRouteFor(t: RoutingTable, locals: seq<Association>, routes: seq<HnaRoute>, a: AssociationTuple): seq<HnaRoute> {
    if LocalAssociation(locals, a) || a.gatewayAddr !in t then routes
    else
      var k := FindRoute(routes, a.networkAddr, a.netmask);
      if k == |routes| then routes + [GatewayRoute(a, t[a.gatewayAddr])]
      else if routes[k].metric > t[a.gatewayAddr].distance then
        routes[..k] + routes[k + 1..] + [GatewayRoute(a, t[a.gatewayAddr])]
      else routes
  }

  function HnaRoutes(t: RoutingTable, locals: seq<Association>, routes: seq<HnaRoute>, assocs: seq<AssociationTuple>): seq<HnaRoute>
    decreases |assocs|
  {
    if assocs == [] then routes
    else HnaRouteFor(t, locals, HnaRoutes(t, locals, routes, assocs[..|assocs| - 1]), assocs[|assocs| - 1])
  }

  /** The HNA routes step 5 leaves, given the routes before it. */
  function HnaTableFor(st: OlsrState, t: RoutingTable, previous: seq<HnaRoute>): seq<HnaRoute> {
    HnaRoutes(t, st.localAssociations, ClearedAsWritten(previous), st.associations)
  }

  // ------------------------------------------------------ the step methods

  method ComputeOneHop(olsr: RoutingProtocol, now: Time)
    modifies olsr
    ensures olsr.table == OneHopRoutes(olsr.env, olsr.state.links, now, old(olsr.table), olsr.state.neighbors)
    ensures olsr.state == old(olsr.state) && olsr.hnaRoutes == old(olsr.hnaRoutes)
  {
    ghost var t0 := olsr.table;
    var neighbors := olsr.state.neighbors;
    for i := 0 to |neighbors|
      invariant olsr.state == old(olsr.state) && olsr.hnaRoutes == old(olsr.hnaRoutes)
      invariant olsr.table == OneHopRoutes(olsr.env, olsr.state.links, now, t0, neighbors[..i])
    {
      var nb := neighbors[i];
      assert neighbors[..i + 1][..i] == neighbors[..i];
      if nb.status == StatusSym {
        var mainAddrSeen := false;
        var lt: Option<LinkTuple> := None;
        var links := olsr.state.links;
        ghost var tScan := olsr.table;
        for j := 0 to |links|
          invariant olsr.state == old(olsr.state) && olsr.hnaRoutes == old(olsr.hnaRoutes)
          invariant LinkScan(olsr.table, mainAddrSeen, lt) == ScanLinks(olsr.env, nb, now, tScan, links[..j])
        {
          var l := links[j];
          assert links[..j + 1][..j] == links[..j];
          if olsr.env.mainAddressOf(l.neighborIfaceAddr) == nb.neighborMainAddr && l.time >= now {
            lt := Some(l);
            olsr.AddEntryVia(l.neighborIfaceAddr, l.neighborIfaceAddr, l.localIfaceAddr, 1);
            if l.neighborIfaceAddr == nb.neighborMainAddr {
              mainAddrSeen := true;
            }
          }
        }
        assert links[..|links|] == links;
        if !mainAddrSeen && lt.Some? {
          olsr.AddEntryVia(nb.neighborMainAddr, lt.value.neighborIfaceAddr, lt.value.localIfaceAddr, 1);
        }
      }
    }
    assert neighbors[..|neighbors|] == neighbors;
  }

  method ComputeTwoHop(olsr: RoutingProtocol, reservedNodes: Res.ReservedContainer)
    modifies olsr
    ensures olsr.table == TwoHopRoutes(olsr.env, olsr.state.neighbors, reservedNodes.reserved, old(olsr.table), olsr.state.twoHopNeighbors)
    ensures olsr.state == old(olsr.state) && olsr.hnaRoutes == old(olsr.hnaRoutes)
  {
    ghost var t0 := olsr.table;
    var neighbors := olsr.state.neighbors;
    var twoHops := olsr.state.twoHopNeighbors;
    for i := 0 to |twoHops|
      invariant olsr.state == old(olsr.state) && olsr.hnaRoutes == old(olsr.hnaRoutes)
      invariant olsr.table == TwoHopRoutes(olsr.env, neighbors, reservedNodes.reserved, t0, twoHops[..i])
    {
      var n2 := twoHops[i];
      assert twoHops[..i + 1][..i] == twoHops[..i];
      if IsSymNeighbor(neighbors, n2.twoHopNeighborAddr) {
        continue;
      }
      if n2.twoHopNeighborAddr == olsr.env.mainAddress {
        continue;
      }
      var willing := false;
      for k := 0 to |neighbors|
        invariant !willing ==> forall m :: 0 <= m < k ==>
          !(neighbors[m].neighborMainAddr == n2.neighborMainAddr && neighbors[m].willingness != OLSR_WILL_NEVER)
        invariant willing ==> WillingNeighbor(neighbors, n2.neighborMainAddr)
      {
        if neighbors[k].neighborMainAddr == n2.neighborMainAddr && neighbors[k].willingness != OLSR_WILL_NEVER {
          willing := true;
          break;
        }
      }
      if !willing {
        continue;
      }
      var found, entry := olsr.Lookup(n2.neighborMainAddr);
      if found {
        var reserved := reservedNodes.Exist(entry.nextAddr);
        if !reserved {
          olsr.AddEntry(n2.twoHopNeighborAddr, entry.nextAddr, entry.interface, 2);
        }
      }
    }
    assert twoHops[..|twoHops|] == twoHops;
  }

  method ComputeTopology(olsr: RoutingProtocol, reservedNodes: Res.ReservedContainer)
    modifies olsr
    ensures olsr.table == TopologyRoutes(reservedNodes.reserved, 2, old(olsr.table), olsr.state.topology)
    ensures olsr.state == old(olsr.state) && olsr.hnaRoutes == old(olsr.hnaRoutes)
  {
    var topology := olsr.state.topology;
    var h: nat := 2;
    while true
      invariant olsr.state == old(olsr.state) && olsr.hnaRoutes == old(olsr.hnaRoutes)
      invariant TopologyRoutes(reservedNodes.reserved, h, olsr.table, topology)
             == TopologyRoutes(reservedNodes.reserved, 2, old(olsr.table), topology)
      decreases |TopologyDests(topology) - olsr.table.Keys|
    {
      var added := false;
      ghost var tPass := olsr.table;
      for i := 0 to |topology|
        invariant olsr.state == old(olsr.state) && olsr.hnaRoutes == old(olsr.hnaRoutes)
        invariant Pass(olsr.table, added) == TopologyPass(reservedNodes.reserved, h, tPass, topology[..i])
      {
        var tt := topology[i];
        assert topology[..i + 1][..i] == topology[..i];
        var haveDest, destEntry := olsr.Lookup(tt.destAddr);
        var haveLast, lastEntry := olsr.Lookup(tt.lastAddr);
        if !haveDest && haveLast && lastEntry.distance == h {
          var reserved := reservedNodes.Exist(lastEntry.nextAddr);
          if !reserved {
            olsr.AddEntry(tt.destAddr, lastEntry.nextAddr, lastEntry.interface, h + 1);
            added := true;
          }
        }
      }
      assert topology[..|topology|] == topology;
      TopologyPassProgress(reservedNodes.reserved, h, tPass, topology);
      if !added {
        break;
      }
      h := h + 1;
    }
  }

  method ComputeAliases(olsr: RoutingProtocol, reservedNodes: Res.ReservedContainer)
    modifies olsr
    ensures olsr.table == AliasRoutes(reservedNodes.reserved, old(olsr.table), olsr.state.ifaceAssocs)
    ensures olsr.state == old(olsr.state) && olsr.hnaRoutes == old(olsr.hnaRoutes)
  {
    ghost var t0 := olsr.table;
    var assocs := olsr.state.ifaceAssocs;
    for i := 0 to |assocs|
      invariant olsr.state == old(olsr.state) && olsr.hnaRoutes == old(olsr.hnaRoutes)
      invariant olsr.table == AliasRoutes(reservedNodes.reserved, t0, assocs[..i])
    {
      var a := assocs[i];
      assert assocs[..i + 1][..i] == assocs[..i];
      var haveMain, mainEntry := olsr.Lookup(a.mainAddr);
      var haveIface, ifaceEntry := olsr.Lookup(a.ifaceAddr);
      if haveMain && !haveIface {
        var reserved := reservedNodes.Exist(mainEntry.nextAddr);
        if !reserved {
          olsr.AddEntry(a.ifaceAddr, mainEntry.nextAddr, mainEntry.interface, mainEntry.distance);
        }
      }
    }
    assert assocs[..|assocs|] == assocs;
  }

  method ComputeHna(olsr: RoutingProtocol)
    modifies olsr
    ensures olsr.hnaRoutes == HnaTableFor(olsr.state, olsr.table, old(olsr.hnaRoutes))
    ensures olsr.state == old(olsr.state) && olsr.table == old(olsr.table)
  {
    ghost var r0 := olsr.hnaRoutes;
    var i := 0;
    while i < olsr.GetNRoutes()
      invariant olsr.state == old(olsr.state) && olsr.table == old(olsr.table)
      invariant i <= |r0| && 2 * i <= |r0| + 1
      invariant olsr.hnaRoutes == r0[i..]
    {
      olsr.RemoveRoute(0);
      i := i + 1;
    }
    assert olsr.hnaRoutes == ClearedAsWritten(r0);

    var assocs := olsr.state.associations;
    var locals := olsr.state.localAssociations;
    for a := 0 to |assocs|
      invariant olsr.state == old(olsr.state) && olsr.table == old(olsr.table)
      invariant olsr.hnaRoutes == HnaRoutes(olsr.table, locals, ClearedAsWritten(r0), assocs[..a])
    {
      var tuple := assocs[a];
      assert assocs[..a + 1][..a] == assocs[..a];
      var goToNext := false;
      for m := 0 to |locals|
        invariant goToNext <==> exists j :: 0 <= j < m && locals[j].networkAddr == tuple.networkAddr && locals[j].netmask == tuple.netmask
      {
        if locals[m].networkAddr == tuple.networkAddr && locals[m].netmask == tuple.netmask {
          goToNext := true;
        }
      }
      if goToNext {
        continue;
      }
      var gatewayExists, gatewayEntry := olsr.Lookup(tuple.gatewayAddr);
      var addRoute := false;
      var routeIndex := 0;
      while routeIndex < olsr.GetNRoutes()
        invariant routeIndex <= |olsr.hnaRoutes|
        invariant forall j :: 0 <= j < routeIndex ==> !RouteFor(olsr.hnaRoutes[j], tuple.networkAddr, tuple.netmask)
      {
        var route := olsr.GetRoute(routeIndex);
        if route.network == tuple.networkAddr && route.netmask == tuple.netmask {
          break;
        }
        routeIndex := routeIndex + 1;
      }
      assert routeIndex == FindRoute(olsr.hnaRoutes, tuple.networkAddr, tuple.netmask);
      if routeIndex == olsr.GetNRoutes() {
        addRoute := true;
      } else if gatewayExists && olsr.GetMetric(routeIndex) > gatewayEntry.distance {
        olsr.RemoveRoute(routeIndex);
        addRoute := true;
      }
      if addRoute && gatewayExists {
        olsr.AddNetworkRouteTo(tuple.networkAddr, tuple.netmask, gatewayEntry.nextAddr, gatewayEntry.interface, gatewayEntry.distance);
      }
    }
    assert assocs[..|assocs|] == assocs;
  }

  // ---------------------------------------------------------------- lemmas

  /** One topology pass only adds entries, each for a topology destination at
      distance `h + 1` through an unreserved next hop, and it reports `added`
      exactly when it added one. */
  lemma {:induction false} TopologyPassShape(rs: seq<Res.Reserved>, h: nat, t: RoutingTable, topo: seq<TopologyTuple>)
    ensures var p := TopologyPass(rs, h, t, topo);
      && t.Keys <= p.table.Keys
      && (forall d :: d in t ==> p.table[d] == t[d])
      && (forall d :: d in p.table && d !in t ==>
            d in TopologyDests(topo) && p.table[d].destAddr == d && p.table[d].distance == h + 1
            && !Vetoed(rs, p.table[d].nextAddr))
      && (p.added <==> p.table.Keys != t.Keys)
    decreases |topo|
  {
    if topo != [] {
      var prefix := topo[..|topo| - 1];
      TopologyPassShape(rs, h, t, prefix);
      assert TopologyDests(prefix) <= TopologyDests(topo) by {
        forall d | d in TopologyDests(prefix) ensures d in TopologyDests(topo) {
          var tt :| tt in prefix && tt.destAddr == d;
          assert tt in topo;
        }
      }
      var last := topo[|topo| - 1];
      assert last.destAddr in TopologyDests(topo);
    }
  }

  /** A pass that adds an entry brings one more topology destination into the
      table, which is why the passes stop. */
  lemma TopologyPassProgress(rs: seq<Res.Reserved>, h: nat, t: RoutingTable, topo: seq<TopologyTuple>)
    ensures var p := TopologyPass(rs, h, t, topo);
      p.added ==> |TopologyDests(topo) - p.table.Keys| < |TopologyDests(topo) - t.Keys|
  {
    var p := TopologyPass(rs, h, t, topo);
    TopologyPassShape(rs, h, t, topo);
    if p.added {
      var newKeys := p.table.Keys - t.Keys;
      assert newKeys != {};
      var d :| d in newKeys;
      DifferenceShrinks(TopologyDests(topo), t.Keys, p.table.Keys, d);
    }
  }

  lemma DifferenceShrinks<T>(dests: set<T>, before: set<T>, after: set<T>, d: T)
    requires before <= after && d in after && d !in before && d in dests
    ensures |dests - after| < |dests - before|
  {
    var small := dests - after;
    var large := dests - before;
    assert large == small + (large - small);
    assert d in large - small;
  }


  // ------------------------------------------------------ step 2 lemmas

  /** `e` is a distance-1 route through a link that is valid at `now` and
      belongs to a symmetric neighbour of `ns`. */
  predicate OneHopEntry(env: OlsrEnv, ns: seq<NeighborTuple>, links: seq<LinkTuple>, now: Time, e: RoutingEntry) {
    e.distance == 1
    && exists nb, l :: nb in ns && l in links && nb.status == StatusSym && LinkMatches(env, nb, now, l)
         && e.nextAddr == l.neighborIfaceAddr && e.interface == env.interfaceFor(l.localIfaceAddr)
  }

  lemma {:induction false} ScanLinksShape(env: OlsrEnv, ns: seq<NeighborTuple>, nb: NeighborTuple, now: Time, t: RoutingTable, links: seq<LinkTuple>)
    requires nb in ns && nb.status == StatusSym
    ensures var s := ScanLinks(env, nb, now, t, links);
      && t.Keys <= s.table.Keys
      && (forall d :: d in s.table ==>
            (d in t && s.table[d] == t[d]) || (s.table[d].destAddr == d && OneHopEntry(env, ns, links, now, s.table[d])))
      && (forall l :: l in links && LinkMatches(env, nb, now, l) ==> l.neighborIfaceAddr in s.table)
      && (s.mainAddrSeen ==> nb.neighborMainAddr in s.table)
      && (s.last.Some? ==> s.last.value in links && LinkMatches(env, nb, now, s.last.value))
    decreases |links|
  {
    if links != [] {
      var prefix := links[..|links| - 1];
      ScanLinksShape(env, ns, nb, now, t, prefix);
      assert forall l :: l in prefix ==> l in links;
      assert links == prefix + [links[|links| - 1]];
    }
  }

  /** The extra main-address route uses the LAST matching link, because the
      scan reassigns its link pointer on every match. */
  lemma {:induction false} ScanLinksLast(env: OlsrEnv, nb: NeighborTuple, now: Time, t: RoutingTable, links: seq<LinkTuple>)
    ensures var s := ScanLinks(env, nb, now, t, links);
      && (s.last.None? <==> forall j :: 0 <= j < |links| ==> !LinkMatches(env, nb, now, links[j]))
      && (s.last.Some? ==> exists j :: 0 <= j < |links| && links[j] == s.last.value && LinkMatches(env, nb, now, links[j])
                              && forall k :: j < k < |links| ==> !LinkMatches(env, nb, now, links[k]))
    decreases |links|
  {
    if links != [] {
      var n := |links|;
      var prefix := links[..n - 1];
      ScanLinksLast(env, nb, now, t, prefix);
      assert forall j :: 0 <= j < n - 1 ==> prefix[j] == links[j];
      var s := ScanLinks(env, nb, now, t, links);
      if LinkMatches(env, nb, now, links[n - 1]) {
        assert links[n - 1] == s.last.value;
      }
    }
  }

  /** Every route the one-hop step writes is a distance-1 route through a
      link valid at `now` to a symmetric neighbour, and every such link's
      interface address and every such neighbour's main address is routed. */
  lemma {:induction false} OneHopShape(env: OlsrEnv, links: seq<LinkTuple>, now: Time, t: RoutingTable, ns: seq<NeighborTuple>)
    ensures var r := OneHopRoutes(env, links, now, t, ns);
      && t.Keys <= r.Keys
      && (forall d :: d in r ==> (d in t && r[d] == t[d]) || (r[d].destAddr == d && OneHopEntry(env, ns, links, now, r[d])))
      && (forall nb, l :: nb in ns && l in links && nb.status == StatusSym && LinkMatches(env, nb, now, l) ==>
            l.neighborIfaceAddr in r && nb.neighborMainAddr in r)
    decreases |ns|
  {
    if ns != [] {
      var prefix := ns[..|ns| - 1];
      var nb := ns[|ns| - 1];
      OneHopShape(env, links, now, t, prefix);
      assert ns == prefix + [nb];
      assert forall x :: x in prefix ==> x in ns;
      var mid := OneHopRoutes(env, links, now, t, prefix);
      if nb.status == StatusSym {
        ScanLinksShape(env, ns, nb, now, mid, links);
        ScanLinksLast(env, nb, now, mid, links);
        var s := ScanLinks(env, nb, now, mid, links);
        forall l | l in links && LinkMatches(env, nb, now, l)
          ensures nb.neighborMainAddr in OneHopRoutes(env, links, now, t, ns)
        {
          var j :| 0 <= j < |links| && links[j] == l;
          assert s.last.Some?;
        }
      }
    }
  }

  lemma OneHopTable(env: OlsrEnv, links: seq<LinkTuple>, now: Time, ns: seq<NeighborTuple>)
    ensures var r := OneHopRoutes(env, links, now, map[], ns);
      && (forall d :: d in r ==> r[d].destAddr == d && OneHopEntry(env, ns, links, now, r[d]))
      && (forall nb, l :: nb in ns && l in links && nb.status == StatusSym && LinkMatches(env, nb, now, l) ==>
            l.neighborIfaceAddr in r && nb.neighborMainAddr in r)
  {
    OneHopShape(env, links, now, map[], ns);
  }

  lemma OneHopEntryAt(env: OlsrEnv, links: seq<LinkTuple>, now: Time, ns: seq<NeighborTuple>, d: Ipv4)
    requires d in OneHopRoutes(env, links, now, map[], ns)
    ensures OneHopRoutes(env, links, now, map[], ns)[d].destAddr == d
    ensures OneHopRoutes(env, links, now, map[], ns)[d].distance == 1
  {
    OneHopTable(env, links, now, ns);
    assert OneHopEntry(env, ns, links, now, OneHopRoutes(env, links, now, map[], ns)[d]);
  }

  // -------------------------------------------------- veto invariant

  /** Every entry carries its own destination and a positive distance. */
  predicate WellFormed(t: RoutingTable) {
    forall d :: d in t ==> t[d].destAddr == d && t[d].distance >= 1
  }

  /** Every entry of `t` is the entry `base` had, or goes through a next hop
      that is not reserved. */
  predicate VetoRespected(base: RoutingTable, rs: seq<Res.Reserved>, t: RoutingTable) {
    forall d :: d in t ==> (d in base && t[d] == base[d]) || !Vetoed(rs, t[d].nextAddr)
  }

  lemma VetoRespectedTrans(a: RoutingTable, b: RoutingTable, c: RoutingTable, rs: seq<Res.Reserved>)
    requires VetoRespected(a, rs, b) && VetoRespected(b, rs, c)
    ensures VetoRespected(a, rs, c)
  {
  }

  lemma {:induction false} TwoHopShape(env: OlsrEnv, ns: seq<NeighborTuple>, rs: seq<Res.Reserved>, t: RoutingTable, n2s: seq<TwoHopNeighborTuple>)
    requires WellFormed(t)
    ensures var r := TwoHopRoutes(env, ns, rs, t, n2s);
      WellFormed(r) && t.Keys <= r.Keys && VetoRespected(t, rs, r)
    decreases |n2s|
  {
    if n2s != [] {
      var prefix := n2s[..|n2s| - 1];
      TwoHopShape(env, ns, rs, t, prefix);
      var mid := TwoHopRoutes(env, ns, rs, t, prefix);
      VetoRespectedTrans(t, mid, TwoHopRoute(env, ns, rs, mid, n2s[|n2s| - 1]), rs);
    }
  }

  /** `r` keeps every entry of `t`, and each entry it adds is for a
      topology destination, at a distance beyond `h`, through an unreserved
      next hop. */
  predicate TopologyExtends(rs: seq<Res.Reserved>, h: nat, topo: seq<TopologyTuple>, t: RoutingTable, r: RoutingTable) {
    && t.Keys <= r.Keys
    && (forall d :: d in t ==> r[d] == t[d])
    && (forall d :: d in r && d !in t ==>
          d in TopologyDests(topo) && r[d].destAddr == d && r[d].distance > h && !Vetoed(rs, r[d].nextAddr))
  }

  lemma TopologyExtendsTrans(rs: seq<Res.Reserved>, h: nat, topo: seq<TopologyTuple>, t: RoutingTable, m: RoutingTable, r: RoutingTable)
    requires TopologyExtends(rs, h, topo, t, m) && TopologyExtends(rs, h + 1, topo, m, r)
    ensures TopologyExtends(rs, h, topo, t, r)
  {
  }

  lemma TopologyExtendsWellFormed(rs: seq<Res.Reserved>, h: nat, topo: seq<TopologyTuple>, t: RoutingTable, r: RoutingTable)
    requires WellFormed(t) && TopologyExtends(rs, h, topo, t, r)
    ensures WellFormed(r) && VetoRespected(t, rs, r)
  {
  }

  /** All the topology passes from pass `h` on extend the table they start from. */
  lemma {:induction false} TopologyShape(rs: seq<Res.Reserved>, h: nat, t: RoutingTable, topo: seq<TopologyTuple>)
    ensures TopologyExtends(rs, h, topo, t, TopologyRoutes(rs, h, t, topo))
    decreases |TopologyDests(topo) - t.Keys|
  {
    var p := TopologyPass(rs, h, t, topo);
    TopologyPassShape(rs, h, t, topo);
    assert TopologyExtends(rs, h, topo, t, p.table);
    if p.added {
      TopologyPassProgress(rs, h, t, topo);
      TopologyShape(rs, h + 1, p.table, topo);
      TopologyExtendsTrans(rs, h, topo, t, p.table, TopologyRoutes(rs, h + 1, p.table, topo));
    }
  }

  /** The passes stop at a pass that finds nothing more to add. */
  lemma {:induction false} TopologyStops(rs: seq<Res.Reserved>, h: nat, t: RoutingTable, topo: seq<TopologyTuple>)
    ensures var r := TopologyRoutes(rs, h, t, topo);
      exists last: nat :: last >= h && TopologyPass(rs, last, r, topo) == Pass(r, false)
    decreases |TopologyDests(topo) - t.Keys|
  {
    var p := TopologyPass(rs, h, t, topo);
    TopologyPassShape(rs, h, t, topo);
    if p.added {
      TopologyPassProgress(rs, h, t, topo);
      TopologyStops(rs, h + 1, p.table, topo);
      assert TopologyRoutes(rs, h, t, topo) == TopologyRoutes(rs, h + 1, p.table, topo);
    } else {
      assert p.table == t;
      assert TopologyRoutes(rs, h, t, topo) == t;
    }
  }


  lemma {:induction false} AliasShape(rs: seq<Res.Reserved>, t: RoutingTable, assocs: seq<IfaceAssocTuple>)
    requires WellFormed(t)
    ensures var r := AliasRoutes(rs, t, assocs);
      && WellFormed(r) && t.Keys <= r.Keys
      && (forall d :: d in t ==> r[d] == t[d])
      && (forall d :: d in r && d !in t ==> !Vetoed(rs, r[d].nextAddr))
    decreases |assocs|
  {
    if assocs != [] {
      AliasShape(rs, t, assocs[..|assocs| - 1]);
    }
  }

  /** The veto invariant of the whole computation: every route in the result
      is either the route the one-hop step wrote, or goes through a next hop
      absent from the reservation registry; the one-hop routes are all kept
      as destinations. */
  lemma RoutingTableAvoidsReserved(env: OlsrEnv, st: OlsrState, rs: seq<Res.Reserved>, now: Time)
    ensures var oneHop := OneHopRoutes(env, st.links, now, map[], st.neighbors);
      var r := RoutingTableFor(env, st, rs, now);
      && WellFormed(r)
      && oneHop.Keys <= r.Keys
      && VetoRespected(oneHop, rs, r)
  {
    var oneHop := OneHopRoutes(env, st.links, now, map[], st.neighbors);
    OneHopTable(env, st.links, now, st.neighbors);
    assert WellFormed(oneHop) by {
      forall d | d in oneHop ensures oneHop[d].destAddr == d && oneHop[d].distance >= 1 {
        OneHopEntryAt(env, st.links, now, st.neighbors, d);
      }
    }
    var twoHop := TwoHopRoutes(env, st.neighbors, rs, oneHop, st.twoHopNeighbors);
    TwoHopShape(env, st.neighbors, rs, oneHop, st.twoHopNeighbors);
    var topo := TopologyRoutes(rs, 2, twoHop, st.topology);
    TopologyShape(rs, 2, twoHop, st.topology);
    TopologyExtendsWellFormed(rs, 2, st.topology, twoHop, topo);
    AliasShape(rs, topo, st.ifaceAssocs);
    var r := AliasRoutes(rs, topo, st.ifaceAssocs);
    assert VetoRespected(topo, rs, r);
    VetoRespectedTrans(oneHop, twoHop, topo, rs);
    VetoRespectedTrans(oneHop, topo, r, rs);
  }

  // ------------------------------------------------------ step 5 lemmas

  /** The clearing loop leaves the newest floor(n/2) routes in place. */
  lemma ClearedAsWrittenKeeps(routes: seq<HnaRoute>)
    ensures |ClearedAsWritten(routes)| == |routes| / 2
    ensures ClearedAsWritten(routes) == routes[|routes| - |routes| / 2..]
    ensures |routes| >= 2 ==> ClearedAsWritten(routes) != []
  {
  }

  /** Every HNA route written by step 5 comes from a non-local association
      whose gateway has a route, with that route's next hop, interface and
      distance; the other routes are survivors of the list it started from. */
  lemma {:induction false} HnaRoutesFromGateways(t: RoutingTable, locals: seq<Association>, routes: seq<HnaRoute>, assocs: seq<AssociationTuple>)
    ensures forall r :: r in HnaRoutes(t, locals, routes, assocs) ==>
      r in routes || exists a :: a in assocs && !LocalAssociation(locals, a) && a.gatewayAddr in t && r == GatewayRoute(a, t[a.gatewayAddr])
    decreases |assocs|
  {
    if assocs != [] {
      var prefix := assocs[..|assocs| - 1];
      var a := assocs[|assocs| - 1];
      HnaRoutesFromGateways(t, locals, routes, prefix);
      var mid := HnaRoutes(t, locals, routes, prefix);
      assert forall x :: x in prefix ==> x in assocs;
      if !LocalAssociation(locals, a) && a.gatewayAddr in t {
        var k := FindRoute(mid, a.networkAddr, a.netmask);
        if k < |mid| && mid[k].metric > t[a.gatewayAddr].distance {
          assert forall r :: r in mid[..k] + mid[k + 1..] ==> r in mid;
        }
      }
    }
  }

  /** After step 5 every non-local network whose gateway is routed has an
      HNA route. */
  lemma {:induction false} HnaRoutesCover(t: RoutingTable, locals: seq<Association>, routes: seq<HnaRoute>, assocs: seq<AssociationTuple>)
    ensures forall a :: a in assocs && !LocalAssociation(locals, a) && a.gatewayAddr in t ==>
      exists r :: r in HnaRoutes(t, locals, routes, assocs) && RouteFor(r, a.networkAddr, a.netmask)
    decreases |assocs|
  {
    if assocs != [] {
      var prefix := assocs[..|assocs| - 1];
      var last := assocs[|assocs| - 1];
      HnaRoutesCover(t, locals, routes, prefix);
      var mid := HnaRoutes(t, locals, routes, prefix);
      var out := HnaRoutes(t, locals, routes, assocs);
      assert assocs == prefix + [last];
      forall a | a in assocs && !LocalAssociation(locals, a) && a.gatewayAddr in t
        ensures exists r :: r in out && RouteFor(r, a.networkAddr, a.netmask)
      {
        if a == last {
          var k := FindRoute(mid, a.networkAddr, a.netmask);
          if k < |mid| && !(mid[k].metric > t[a.gatewayAddr].distance) {
            assert mid[k] in out;
          } else {
            assert GatewayRoute(a, t[a.gatewayAddr]) in out;
          }
        } else {
          assert a in prefix;
          var r :| r in mid && RouteFor(r, a.networkAddr, a.netmask);
          HnaStepKeepsNetwork(t, locals, mid, last, r);
        }
      }
    }
  }

  /** One association step never leaves a network without a route that had one. */
  lemma HnaStepKeepsNetwork(t: RoutingTable, locals: seq<Association>, routes: seq<HnaRoute>, a: AssociationTuple, r: HnaRoute)
    requires r in routes
    ensures exists q :: q in HnaRouteFor(t, locals, routes, a) && RouteFor(q, r.network, r.netmask)
  {
    var out := HnaRouteFor(t, locals, routes, a);
    if !LocalAssociation(locals, a) && a.gatewayAddr in t {
      var k := FindRoute(routes, a.networkAddr, a.netmask);
      if k < |routes| && routes[k].metric > t[a.gatewayAddr].distance {
        var i :| 0 <= i < |routes| && routes[i] == r;
        if i < k {
          assert out[i] == r && out[i] in out;
        } else if i > k {
          assert out[i - 1] == r && out[i - 1] in out;
        } else {
          assert RouteFor(out[|out| - 1], r.network, r.netmask) && out[|out| - 1] in out;
        }
      } else if k == |routes| {
        assert r in out;
      }
    }
  }

}
