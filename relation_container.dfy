/**
 * The address relation registry of one agent: a vector of (MAC, IP) pairs
 * learned from overheard OLSR traffic, searched by first-match linear scans.
 */
module RelationRegistry {
  import opened Commons

  datatype AddressRelation = AddressRelation(mac: Mac, ip: Ipv4)

  /** Position of the first relation carrying `mac`, or `|rs|` when none does. */
  function FindMac(rs: seq<AddressRelation>, mac: Mac): (k: nat)
    ensures k <= |rs|
    ensures k < |rs| ==> rs[k].mac == mac
    ensures forall j :: 0 <= j < k ==> rs[j].mac != mac
  {
    if rs == [] then 0
    else if rs[0].mac == mac then 0
    else 1 + FindMac(rs[1..], mac)
  }

  /** Position of the first relation carrying `ip`, or `|rs|` when none does. */
  function FindIp(rs: seq<AddressRelation>, ip: Ipv4): (k: nat)
    ensures k <= |rs|
    ensures k < |rs| ==> rs[k].ip == ip
    ensures forall j :: 0 <= j < k ==> rs[j].ip != ip
  {
    if rs == [] then 0
    else if rs[0].ip == ip then 0
    else 1 + FindIp(rs[1..], ip)
  }

  predicate HasMac(rs: seq<AddressRelation>, mac: Mac) {
    exists i :: 0 <= i < |rs| && rs[i].mac == mac
  }

  predicate HasIp(rs: seq<AddressRelation>, ip: Ipv4) {
    exists i :: 0 <= i < |rs| && rs[i].ip == ip
  }

  /** The IP of the first relation for `mac`, or the default address. */
  function IpOf(rs: seq<AddressRelation>, mac: Mac): Ipv4 {
    var k := FindMac(rs, mac);
    if k < |rs| then rs[k].ip else DEFAULT_IP
  }

  /** The MAC of the first relation for `ip`, or the default MAC. */
  function MacOf(rs: seq<AddressRelation>, ip: Ipv4): Mac {
    var k := FindIp(rs, ip);
    if k < |rs| then rs[k].mac else DEFAULT_MAC
  }

  /** `mac` and `ip` are related when the lookup by `mac` yields `ip`. */
  predicate IsRelated(rs: seq<AddressRelation>, mac: Mac, ip: Ipv4) {
    ip == IpOf(rs, mac)
  }

  /** The registry after `Add (mac, ip)`: first write wins. */
  function Added(rs: seq<AddressRelation>, mac: Mac, ip: Ipv4): seq<AddressRelation> {
    if HasMac(rs, mac) then rs else rs + [AddressRelation(mac, ip)]
  }

  /** The registry after `UpdateRelation (mac, ip)`: the first entry for `mac`
      gets the new IP. */
  function Updated(rs: seq<AddressRelation>, mac: Mac, ip: Ipv4): seq<AddressRelation> {
    var k := FindMac(rs, mac);
    if k < |rs| then rs[k := AddressRelation(rs[k].mac, ip)] else rs
  }

  /** The registry invariant: no MAC appears twice. */
  predicate MacsDistinct(rs: seq<AddressRelation>) {
    forall i, j :: 0 <= i < j < |rs| ==> rs[i].mac != rs[j].mac
  }

  class RelationContainer {
    var relations: seq<AddressRelation>

    ghost predicate Valid()
      reads this
    {
      MacsDistinct(relations)
    }

    constructor ()
      ensures Valid() && relations == []
    {
      relations := [];
    }

    method Add(mac: Mac, ip: Ipv4)
      requires Valid()
      modifies this
      ensures Valid()
      ensures relations == Added(old(relations), mac, ip)
    {
      var known := ExistMac(mac);
      if !known {
        relations := relations + [AddressRelation(mac, ip)];
      }
    }

    method ExistMac(mac: Mac) returns (found: bool)
      ensures found <==> HasMac(relations, mac)
    {
      var n := |relations|;
      var i := 0;
      found := false;
      while !found && i < n
        invariant 0 <= i <= n
        invariant forall j :: 0 <= j < i ==> relations[j].mac != mac
        invariant found ==> i < n && relations[i].mac == mac
        decreases n - i, !found
      {
        if relations[i].mac == mac {
          found := true;
        } else {
          i := i + 1;
        }
      }
    }

    method ExistIp(ip: Ipv4) returns (found: bool)
      ensures found <==> HasIp(relations, ip)
    {
      var n := |relations|;
      var i := 0;
      found := false;
      while !found && i < n
        invariant 0 <= i <= n
        invariant forall j :: 0 <= j < i ==> relations[j].ip != ip
        invariant found ==> i < n && relations[i].ip == ip
        decreases n - i, !found
      {
        if relations[i].ip == ip {
          found := true;
        } else {
          i := i + 1;
        }
      }
    }

    method GetIp(mac: Mac) returns (ip: Ipv4)
      ensures ip == IpOf(relations, mac)
    {
      var n := |relations|;
      var i := 0;
      var found := false;
      ip := DEFAULT_IP;
      while !found && i < n
        invariant 0 <= i <= n
        invariant forall j :: 0 <= j < i ==> relations[j].mac != mac
        invariant found ==> i < n && relations[i].mac == mac && ip == relations[i].ip
        invariant !found ==> ip == DEFAULT_IP
        decreases n - i, !found
      {
        if relations[i].mac == mac {
          found := true;
          ip := relations[i].ip;
        } else {
          i := i + 1;
        }
      }
    }

    method GetMac(ip: Ipv4) returns (mac: Mac)
      ensures mac == MacOf(relations, ip)
    {
      var n := |relations|;
      var i := 0;
      var found := false;
      mac := DEFAULT_MAC;
      while !found && i < n
        invariant 0 <= i <= n
        invariant forall j :: 0 <= j < i ==> relations[j].ip != ip
        invariant found ==> i < n && relations[i].ip == ip && mac == relations[i].mac
        invariant !found ==> mac == DEFAULT_MAC
        decreases n - i, !found
      {
        if relations[i].ip == ip {
          found := true;
          mac := relations[i].mac;
        } else {
          i := i + 1;
        }
      }
    }

    function GetSize(): nat
      reads this
    {
      |relations|
    }

    method Related(mac: Mac, ip: Ipv4) returns (related: bool)
      ensures related <==> IsRelated(relations, mac, ip)
    {
      related := false;
      var known := GetIp(mac);
      if ip == known {
        related := true;
      }
    }

    method UpdateRelation(mac: Mac, ip: Ipv4)
      requires Valid()
      modifies this
      ensures Valid()
      ensures relations == Updated(old(relations), mac, ip)
    {
      var n := |relations|;
      var i := 0;
      var found := false;
      while !found && i < n
        invariant 0 <= i <= n
        invariant forall j :: 0 <= j < i ==> old(relations)[j].mac != mac
        invariant !found ==> relations == old(relations)
        invariant found ==> i < n && old(relations)[i].mac == mac
        invariant found ==> relations == old(relations)[i := AddressRelation(mac, ip)]
        decreases n - i, !found
      {
        if relations[i].mac == mac {
          found := true;
          relations := relations[i := AddressRelation(relations[i].mac, ip)];
        } else {
          i := i + 1;
        }
      }
      assert found ==> FindMac(old(relations), mac) == i;
      UpdatedKeepsMacs(old(relations), mac, ip);
    }
  }

  // ---------------------------------------------------------------------------
  // Properties of the registry operations

  lemma FindMacIsFirst(rs: seq<AddressRelation>, mac: Mac, k: nat)
    requires k < |rs| && rs[k].mac == mac
    requires forall j :: 0 <= j < k ==> rs[j].mac != mac
    ensures FindMac(rs, mac) == k
  {
  }

  /** Exactly the MACs that occur are found. */
  lemma FindMacFound(rs: seq<AddressRelation>, mac: Mac)
    ensures FindMac(rs, mac) < |rs| <==> HasMac(rs, mac)
  {
  }

  /** `Add` preserves the invariant that MACs are pairwise distinct. */
  lemma AddedKeepsMacsDistinct(rs: seq<AddressRelation>, mac: Mac, ip: Ipv4)
    requires MacsDistinct(rs)
    ensures MacsDistinct(Added(rs, mac, ip))
  {
  }

  /** `Add` never shrinks the registry and grows it by one exactly when the MAC
      is new; it is first-write-wins: a known MAC leaves the registry as is. */
  lemma AddedShape(rs: seq<AddressRelation>, mac: Mac, ip: Ipv4)
    ensures rs <= Added(rs, mac, ip)
    ensures HasMac(rs, mac) ==> Added(rs, mac, ip) == rs
    ensures !HasMac(rs, mac) ==> |Added(rs, mac, ip)| == |rs| + 1
  {
  }

  /** After adding a fresh MAC, the lookup by that MAC yields the new IP. */
  lemma {:induction false} AddedFreshLookup(rs: seq<AddressRelation>, mac: Mac, ip: Ipv4)
    requires !HasMac(rs, mac)
    ensures IpOf(Added(rs, mac, ip), mac) == ip
    ensures HasMac(Added(rs, mac, ip), mac)
  {
    var rs' := rs + [AddressRelation(mac, ip)];
    assert rs'[|rs|].mac == mac;
    FindMacIsFirst(rs', mac, |rs|);
  }

  /** `Add` does not change what any lookup by MAC returns for a MAC already
      known, and a second `Add` for the same MAC is ignored. */
  lemma {:induction false} AddedFirstWriteWins(rs: seq<AddressRelation>, mac: Mac, ip1: Ipv4, ip2: Ipv4)
    ensures Added(Added(rs, mac, ip1), mac, ip2) == Added(rs, mac, ip1)
    ensures IpOf(Added(Added(rs, mac, ip1), mac, ip2), mac) == IpOf(Added(rs, mac, ip1), mac)
  {
    if !HasMac(rs, mac) {
      AddedFreshLookup(rs, mac, ip1);
    }
  }

  /** Adding a relation for one MAC does not change the lookup for another. */
  lemma {:induction false} AddedOtherLookup(rs: seq<AddressRelation>, mac: Mac, ip: Ipv4, other: Mac)
    requires other != mac
    ensures IpOf(Added(rs, mac, ip), other) == IpOf(rs, other)
  {
    if !HasMac(rs, mac) {
      var rs' := rs + [AddressRelation(mac, ip)];
      var k := FindMac(rs, other);
      if k < |rs| {
        FindMacIsFirst(rs', other, k);
      } else {
        assert forall j :: 0 <= j < |rs'| ==> rs'[j].mac != other;
      }
    }
  }

  /** An unknown MAC is related to exactly the default address. */
  lemma UnknownMacRelatedToDefault(rs: seq<AddressRelation>, mac: Mac, ip: Ipv4)
    requires !HasMac(rs, mac)
    ensures IsRelated(rs, mac, ip) <==> ip == DEFAULT_IP
  {
  }

  /** With distinct MACs, the lookup returns the IP of the unique entry. */
  lemma {:induction false} IpOfUnique(rs: seq<AddressRelation>, i: nat)
    requires MacsDistinct(rs) && i < |rs|
    ensures IpOf(rs, rs[i].mac) == rs[i].ip
  {
    FindMacIsFirst(rs, rs[i].mac, i);
  }

  /** `UpdateRelation` keeps the size, the order and every MAC. */
  lemma UpdatedKeepsMacs(rs: seq<AddressRelation>, mac: Mac, ip: Ipv4)
    ensures |Updated(rs, mac, ip)| == |rs|
    ensures forall i :: 0 <= i < |rs| ==> Updated(rs, mac, ip)[i].mac == rs[i].mac
    ensures MacsDistinct(rs) ==> MacsDistinct(Updated(rs, mac, ip))
  {
  }

  /** `UpdateRelation` changes the IP of the matching entry only, and nothing
      when the MAC is absent. */
  lemma {:induction false} UpdatedFrame(rs: seq<AddressRelation>, mac: Mac, ip: Ipv4)
    ensures !HasMac(rs, mac) ==> Updated(rs, mac, ip) == rs
    ensures HasMac(rs, mac) ==> IpOf(Updated(rs, mac, ip), mac) == ip
    ensures forall i :: 0 <= i < |rs| && rs[i].mac != mac ==> Updated(rs, mac, ip)[i] == rs[i]
    ensures forall other :: other != mac ==> IpOf(Updated(rs, mac, ip), other) == IpOf(rs, other)
  {
    var k := FindMac(rs, mac);
    if k < |rs| {
      var u := Updated(rs, mac, ip);
      FindMacIsFirst(u, mac, k);
      forall other | other != mac
        ensures IpOf(u, other) == IpOf(rs, other)
      {
        var m := FindMac(rs, other);
        if m < |rs| {
          FindMacIsFirst(u, other, m);
        } else {
          assert forall j :: 0 <= j < |u| ==> u[j].mac != other;
        }
      }
    }
  }
}
