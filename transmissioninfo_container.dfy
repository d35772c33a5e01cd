/**
 * The transmission registry of one agent: the destination IPs this node has
 * sent data to, each with the time of the last send, which never decreases.
 */
module TransmissionRegistry {
  import opened Commons

  datatype TransmissionInfo = TransmissionInfo(dstIp: Ipv4, time: Time)

  /** Position of the first entry for `ip`, or `|ts|` when there is none. */
  function FindIp(ts: seq<TransmissionInfo>, ip: Ipv4): (k: nat)
    ensures k <= |ts|
    ensures k < |ts| ==> ts[k].dstIp == ip
    ensures forall j :: 0 <= j < k ==> ts[j].dstIp != ip
  {
    if ts == [] then 0
    else if ts[0].dstIp == ip then 0
    else 1 + FindIp(ts[1..], ip)
  }

  predicate HasIp(ts: seq<TransmissionInfo>, ip: Ipv4) {
    exists i :: 0 <= i < |ts| && ts[i].dstIp == ip
  }

  /** The last-send time stored for `ip`, or 0 when `ip` is absent. */
  function TimeOf(ts: seq<TransmissionInfo>, ip: Ipv4): Time {
    var k := FindIp(ts, ip);
    if k < |ts| then ts[k].time else 0.0
  }

  function Max(a: Time, b: Time): Time {
    if a < b then b else a
  }

  /** The registry after `Update (ip, time)`: the first entry for `ip` takes
      `time` only if its stored time is smaller; nothing is inserted. */
  function Bumped(ts: seq<TransmissionInfo>, ip: Ipv4, time: Time): seq<TransmissionInfo> {
    var k := FindIp(ts, ip);
    if k < |ts| && ts[k].time < time then ts[k := TransmissionInfo(ip, time)] else ts
  }

  /** The registry after `Add (ip, time)`: append a new destination, or bump
      the time of a known one. */
  function Added(ts: seq<TransmissionInfo>, ip: Ipv4, time: Time): seq<TransmissionInfo> {
    if HasIp(ts, ip) then Bumped(ts, ip, time) else ts + [TransmissionInfo(ip, time)]
  }

  /** The registry after `Erase (ip)`: every entry for another destination, in
      the original order. */
  function Erased(ts: seq<TransmissionInfo>, ip: Ipv4): seq<TransmissionInfo>
    decreases |ts|
  {
    if ts == [] then []
    else
      var last := ts[|ts| - 1];
      Erased(ts[..|ts| - 1], ip) + (if last.dstIp != ip then [last] else [])
  }

  /** The registry invariant: no destination appears twice. */
  predicate IpsDistinct(ts: seq<TransmissionInfo>) {
    forall i, j :: 0 <= i < j < |ts| ==> ts[i].dstIp != ts[j].dstIp
  }

  class TransmissionInfoContainer {
    var transmissions: seq<TransmissionInfo>

    ghost predicate Valid()
      reads this
    {
      IpsDistinct(transmissions)
    }

    constructor ()
      ensures Valid() && transmissions == []
    {
      transmissions := [];
    }

    method Add(ip: Ipv4, time: Time)
      requires Valid()
      modifies this
      ensures Valid()
      ensures transmissions == Added(old(transmissions), ip, time)
    {
      var present := Exist(ip);
      if !present {
        transmissions := transmissions + [TransmissionInfo(ip, time)];
      } else {
        Update(ip, time);
      }
    }

    method Erase(ip: Ipv4)
      requires Valid()
      modifies this
      ensures Valid()
      ensures transmissions == Erased(old(transmissions), ip)
    {
      var n := |transmissions|;
      var temp: seq<TransmissionInfo> := [];
      for i := 0 to n
        invariant temp == Erased(transmissions[..i], ip)
      {
        assert transmissions[..i + 1][..i] == transmissions[..i];
        if transmissions[i].dstIp != ip {
          temp := temp + [TransmissionInfo(transmissions[i].dstIp, transmissions[i].time)];
        }
      }
      assert transmissions[..n] == transmissions;
      ErasedKeepsDistinct(transmissions, ip);
      transmissions := temp;
    }

    method Exist(ip: Ipv4) returns (found: bool)
      ensures found <==> HasIp(transmissions, ip)
    {
      var n := |transmissions|;
      var i := 0;
      found := false;
      while !found && i < n
        invariant 0 <= i <= n
        invariant forall j :: 0 <= j < i ==> transmissions[j].dstIp != ip
        invariant found ==> i < n && transmissions[i].dstIp == ip
        decreases n - i, !found
      {
        if transmissions[i].dstIp == ip {
          found := true;
        } else {
          i := i + 1;
        }
      }
    }

    method GetTime(ip: Ipv4) returns (time: Time)
      ensures time == TimeOf(transmissions, ip)
    {
      var n := |transmissions|;
      var i := 0;
      var found := false;
      time := 0.0;
      while !found && i < n
        invariant 0 <= i <= n
        invariant forall j :: 0 <= j < i ==> transmissions[j].dstIp != ip
        invariant found ==> i < n && transmissions[i].dstIp == ip && time == transmissions[i].time
        invariant !found ==> time == 0.0
        decreases n - i, !found
      {
        if transmissions[i].dstIp == ip {
          found := true;
          time := transmissions[i].time;
        } else {
          i := i + 1;
        }
      }
    }

    method Update(ip: Ipv4, time: Time)
      requires Valid()
      modifies this
      ensures Valid()
      ensures transmissions == Bumped(old(transmissions), ip, time)
    {
      var n := |transmissions|;
      var i := 0;
      var found := false;
      while !found && i < n
        invariant 0 <= i <= n
        invariant forall j :: 0 <= j < i ==> old(transmissions)[j].dstIp != ip
        invariant !found ==> transmissions == old(transmissions)
        invariant found ==> i < n && old(transmissions)[i].dstIp == ip
        invariant found ==> transmissions == Bumped(old(transmissions), ip, time)
        decreases n - i, !found
      {
        if transmissions[i].dstIp == ip {
          found := true;
          FindIpIsFirst(transmissions, ip, i);
          if transmissions[i].time < time {
            transmissions := transmissions[i := TransmissionInfo(transmissions[i].dstIp, time)];
          }
        } else {
          i := i + 1;
        }
      }
      BumpedShape(old(transmissions), ip, time);
    }
  }

  // ---------------------------------------------------------------------------
  // Properties of the registry operations

  lemma FindIpIsFirst(ts: seq<TransmissionInfo>, ip: Ipv4, k: nat)
    requires k < |ts| && ts[k].dstIp == ip
    requires forall j :: 0 <= j < k ==> ts[j].dstIp != ip
    ensures FindIp(ts, ip) == k
  {
  }

  /** The first match in a concatenation is in the left part when there is one. */
  lemma FindIpAppend(a: seq<TransmissionInfo>, b: seq<TransmissionInfo>, ip: Ipv4)
    ensures FindIp(a + b, ip) == if FindIp(a, ip) < |a| then FindIp(a, ip) else |a| + FindIp(b, ip)
  {
    var k := FindIp(a, ip);
    if k < |a| {
      FindIpIsFirst(a + b, ip, k);
    } else {
      var m := FindIp(b, ip);
      if m < |b| {
        FindIpIsFirst(a + b, ip, |a| + m);
      } else {
        assert forall j :: 0 <= j < |a + b| ==> (a + b)[j].dstIp != ip;
      }
    }
  }

  /** `Update` never inserts, changes at most the time of the matching entry,
      and never lowers a stored time. */
  lemma BumpedShape(ts: seq<TransmissionInfo>, ip: Ipv4, time: Time)
    ensures !HasIp(ts, ip) ==> Bumped(ts, ip, time) == ts
    ensures |Bumped(ts, ip, time)| == |ts|
    ensures forall i :: 0 <= i < |ts| ==>
      Bumped(ts, ip, time)[i].dstIp == ts[i].dstIp && Bumped(ts, ip, time)[i].time >= ts[i].time
    ensures forall i :: 0 <= i < |ts| && ts[i].dstIp != ip ==> Bumped(ts, ip, time)[i] == ts[i]
    ensures IpsDistinct(ts) ==> IpsDistinct(Bumped(ts, ip, time))
  {
  }

  /** After `Update (ip, time)` the time stored for a known `ip` is the larger of
      the old time and `time`. */
  lemma {:induction false} BumpedLookup(ts: seq<TransmissionInfo>, ip: Ipv4, time: Time)
    requires HasIp(ts, ip)
    ensures TimeOf(Bumped(ts, ip, time), ip) == Max(TimeOf(ts, ip), time)
  {
    var k := FindIp(ts, ip);
    FindIpIsFirst(Bumped(ts, ip, time), ip, k);
  }

  /** A change at positions holding `ip` does not affect lookups of `other`. */
  lemma {:induction false} BumpedOtherLookup(ts: seq<TransmissionInfo>, ip: Ipv4, time: Time, other: Ipv4)
    requires other != ip
    ensures HasIp(Bumped(ts, ip, time), other) <==> HasIp(ts, other)
    ensures TimeOf(Bumped(ts, ip, time), other) == TimeOf(ts, other)
  {
    var u := Bumped(ts, ip, time);
    BumpedShape(ts, ip, time);
    var m := FindIp(ts, other);
    if m < |ts| {
      FindIpIsFirst(u, other, m);
    } else {
      assert forall j :: 0 <= j < |u| ==> u[j].dstIp != other;
    }
  }

  /** `Add` keeps destinations distinct; afterwards `ip` is present with the
      maximum of its previous time and `time` (or `time` if it was new). */
  lemma {:induction false} AddedLookup(ts: seq<TransmissionInfo>, ip: Ipv4, time: Time)
    ensures IpsDistinct(ts) ==> IpsDistinct(Added(ts, ip, time))
    ensures HasIp(Added(ts, ip, time), ip)
    ensures TimeOf(Added(ts, ip, time), ip) == if HasIp(ts, ip) then Max(TimeOf(ts, ip), time) else time
  {
    BumpedShape(ts, ip, time);
    if HasIp(ts, ip) {
      BumpedLookup(ts, ip, time);
      var k := FindIp(ts, ip);
      assert Added(ts, ip, time)[k].dstIp == ip;
    } else {
      var ts' := ts + [TransmissionInfo(ip, time)];
      assert ts'[|ts|].dstIp == ip;
      FindIpIsFirst(ts', ip, |ts|);
    }
  }

  /** `Add` leaves every other destination as it was. */
  lemma {:induction false} AddedOtherLookup(ts: seq<TransmissionInfo>, ip: Ipv4, time: Time, other: Ipv4)
    requires other != ip
    ensures HasIp(Added(ts, ip, time), other) <==> HasIp(ts, other)
    ensures TimeOf(Added(ts, ip, time), other) == TimeOf(ts, other)
  {
    if HasIp(ts, ip) {
      BumpedOtherLookup(ts, ip, time, other);
    } else {
      FindIpAppend(ts, [TransmissionInfo(ip, time)], other);
      assert FindIp([TransmissionInfo(ip, time)], other) == 1;
    }
  }

  /** Adding `(d, t1)` and then `(d, t2)` with `t2 < t1` leaves the time `t1`:
      the last-send time never decreases. */
  lemma {:induction false} AddedTwiceMonotonic(ts: seq<TransmissionInfo>, ip: Ipv4, t1: Time, t2: Time)
    requires t2 < t1
    ensures TimeOf(Added(Added(ts, ip, t1), ip, t2), ip) == TimeOf(Added(ts, ip, t1), ip)
    ensures TimeOf(Added(ts, ip, t1), ip) >= t1
  {
    AddedLookup(ts, ip, t1);
    AddedLookup(Added(ts, ip, t1), ip, t2);
  }

  /** `Erase (ip)` keeps exactly the entries of other destinations. */
  lemma {:induction false} ErasedMembers(ts: seq<TransmissionInfo>, ip: Ipv4)
    ensures forall x :: x in Erased(ts, ip) <==> x in ts && x.dstIp != ip
    ensures !HasIp(Erased(ts, ip), ip)
    decreases |ts|
  {
    if ts != [] {
      var init := ts[..|ts| - 1];
      ErasedMembers(init, ip);
      assert ts == init + [ts[|ts| - 1]];
    }
    var e := Erased(ts, ip);
    forall i | 0 <= i < |e|
      ensures e[i].dstIp != ip
    {
      assert e[i] in e;
    }
  }

  /** `Erase` distributes over concatenation: the order of the rest is kept. */
  lemma {:induction false} ErasedAppend(a: seq<TransmissionInfo>, b: seq<TransmissionInfo>, ip: Ipv4)
    ensures Erased(a + b, ip) == Erased(a, ip) + Erased(b, ip)
    decreases |b|
  {
    if b == [] {
      assert a + b == a;
    } else {
      var init := b[..|b| - 1];
      ErasedAppend(a, init, ip);
      assert (a + b)[..|a + b| - 1] == a + init;
    }
  }

  /** `Erase` keeps destinations distinct. */
  lemma {:induction false} ErasedKeepsDistinct(ts: seq<TransmissionInfo>, ip: Ipv4)
    requires IpsDistinct(ts)
    ensures IpsDistinct(Erased(ts, ip))
    decreases |ts|
  {
    if ts != [] {
      var init := ts[..|ts| - 1];
      var last := ts[|ts| - 1];
      ErasedKeepsDistinct(init, ip);
      if last.dstIp != ip {
        ErasedMembers(init, ip);
        var e := Erased(init, ip);
        forall i | 0 <= i < |e|
          ensures e[i].dstIp != last.dstIp
        {
          assert e[i] in init;
        }
      }
    }
  }

  /** `Erase (ip)` does not change the lookup of any other destination. */
  lemma {:induction false} ErasedOtherLookup(ts: seq<TransmissionInfo>, ip: Ipv4, other: Ipv4)
    requires other != ip
    ensures TimeOf(Erased(ts, ip), other) == TimeOf(ts, other)
    decreases |ts|
  {
    if ts != [] {
      var init := ts[..|ts| - 1];
      var last := ts[|ts| - 1];
      var tail := if last.dstIp != ip then [last] else [];
      ErasedOtherLookup(init, ip, other);
      assert ts == init + [last];
      FindIpAppend(init, [last], other);
      FindIpAppend(Erased(init, ip), tail, other);
      ErasedMembers(init, ip);
      if FindIp(init, other) == |init| {
        assert !HasIp(init, other);
        assert !HasIp(Erased(init, ip), other) by {
          forall i | 0 <= i < |Erased(init, ip)|
            ensures Erased(init, ip)[i].dstIp != other
          {
            assert Erased(init, ip)[i] in init;
          }
        }
      } else {
        assert HasIp(Erased(init, ip), other) by {
          var k := FindIp(init, other);
          assert init[k] in Erased(init, ip);
        }
      }
    }
  }
}
