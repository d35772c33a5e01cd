/**
 * The reservation registry of one agent: the IPs of neighbours believed to be
 * relaying a transmission, each with the time it was identified as reserved.
 * Expired entries are dropped by an explicit sweep.
 */
module ReservedRegistry {
  import opened Commons

  datatype Reserved = Reserved(ip: Ipv4, time: Time)

  /** Position of the first entry for `ip`, or `|rs|` when there is none. */
  function FindIp(rs: seq<Reserved>, ip: Ipv4): (k: nat)
    ensures k <= |rs|
    ensures k < |rs| ==> rs[k].ip == ip
    ensures forall j :: 0 <= j < k ==> rs[j].ip != ip
  {
    if rs == [] then 0
    else if rs[0].ip == ip then 0
    else 1 + FindIp(rs[1..], ip)
  }

  predicate HasIp(rs: seq<Reserved>, ip: Ipv4) {
    exists i :: 0 <= i < |rs| && rs[i].ip == ip
  }

  /** The time stored for `ip`, or 0 when `ip` is not reserved. */
  function TimeOf(rs: seq<Reserved>, ip: Ipv4): Time {
    var k := FindIp(rs, ip);
    if k < |rs| then rs[k].time else 0.0
  }

  /** The registry after `Add (ip, time)`: an IP already present keeps its
      original timestamp. */
  function Added(rs: seq<Reserved>, ip: Ipv4, time: Time): seq<Reserved> {
    if HasIp(rs, ip) then rs else rs + [Reserved(ip, time)]
  }

  /** The registry after `Erase (index)`. */
  function Erased(rs: seq<Reserved>, index: nat): seq<Reserved>
    requires index < |rs|
  {
    rs[..index] + rs[index + 1..]
  }

  /** The registry after `Update (now)`: the entries still alive at `now`, in
      their original order. */
  function Swept(rs: seq<Reserved>, now: Time): seq<Reserved>
    decreases |rs|
  {
    if rs == [] then []
    else
      var last := rs[|rs| - 1];
      Swept(rs[..|rs| - 1], now) + (if Alive(last.time, now) then [last] else [])
  }

  /** The registry invariant: no IP is reserved twice. */
  predicate IpsDistinct(rs: seq<Reserved>) {
    forall i, j :: 0 <= i < j < |rs| ==> rs[i].ip != rs[j].ip
  }

  class ReservedContainer {
    var reserved: seq<Reserved>

    ghost predicate Valid()
      reads this
    {
      IpsDistinct(reserved)
    }

    constructor ()
      ensures Valid() && reserved == []
    {
      reserved := [];
    }

    method Add(ip: Ipv4, time: Time)
      requires Valid()
      modifies this
      ensures Valid()
      ensures reserved == Added(old(reserved), ip, time)
    {
      var present := Exist(ip);
      if !present {
        reserved := reserved + [Reserved(ip, time)];
      }
    }

    method Erase(index: nat)
      requires Valid()
      requires index < |reserved|
      modifies this
      ensures Valid()
      ensures reserved == Erased(old(reserved), index)
    {
      reserved := reserved[..index] + reserved[index + 1..];
      ErasedShape(old(reserved), index);
    }

    method Exist(ip: Ipv4) returns (found: bool)
      ensures found <==> HasIp(reserved, ip)
    {
      var n := |reserved|;
      var i := 0;
      found := false;
      while !found && i < n
        invariant 0 <= i <= n
        invariant forall j :: 0 <= j < i ==> reserved[j].ip != ip
        invariant found ==> i < n && reserved[i].ip == ip
        decreases n - i, !found
      {
        if reserved[i].ip == ip {
          found := true;
        } else {
          i := i + 1;
        }
      }
    }

    /** The IP at `index`; in a valid registry `index` is where that IP is found. */
    method GetIp(index: nat) returns (ip: Ipv4)
      requires index < |reserved|
      ensures ip == reserved[index].ip
      ensures Valid() ==> FindIp(reserved, ip) == index
    {
      ip := reserved[index].ip;
      if Valid() {
        FindIpIsFirst(reserved, ip, index);
      }
    }

    function GetSize(): nat
      reads this
    {
      |reserved|
    }

    /** The time at `index`; in a valid registry it is the time of that IP. */
    method GetTimeAt(index: nat) returns (time: Time)
      requires index < |reserved|
      ensures time == reserved[index].time
      ensures Valid() ==> time == TimeOf(reserved, reserved[index].ip)
    {
      time := reserved[index].time;
      if Valid() {
        FindIpIsFirst(reserved, reserved[index].ip, index);
      }
    }

    method GetTime(ip: Ipv4) returns (time: Time)
      ensures time == TimeOf(reserved, ip)
    {
      var n := |reserved|;
      var i := 0;
      var found := false;
      time := 0.0;
      while !found && i < n
        invariant 0 <= i <= n
        invariant forall j :: 0 <= j < i ==> reserved[j].ip != ip
        invariant found ==> i < n && reserved[i].ip == ip && time == reserved[i].time
        invariant !found ==> time == 0.0
        decreases n - i, !found
      {
        if reserved[i].ip == ip {
          found := true;
          time := reserved[i].time;
        } else {
          i := i + 1;
        }
      }
    }

    /** The sweep: rebuild the registry from the entries younger than the
        lifetime. */
    method Update(now: Time)
      requires Valid()
      modifies this
      ensures Valid()
      ensures reserved == Swept(old(reserved), now)
    {
      var n := |reserved|;
      var temp: seq<Reserved> := [];
      for i := 0 to n
        invariant temp == Swept(reserved[..i], now)
      {
        assert reserved[..i + 1][..i] == reserved[..i];
        if now - reserved[i].time < RESERVED_LIFETIME {
          temp := temp + [Reserved(reserved[i].ip, reserved[i].time)];
        }
      }
      assert reserved[..n] == reserved;
      SweptKeepsDistinct(reserved, now);
      reserved := temp;
    }
  }

  // ---------------------------------------------------------------------------
  // Properties of the registry operations

  lemma FindIpIsFirst(rs: seq<Reserved>, ip: Ipv4, k: nat)
    requires k < |rs| && rs[k].ip == ip
    requires forall j :: 0 <= j < k ==> rs[j].ip != ip
    ensures FindIp(rs, ip) == k
  {
  }

  /** In a registry with distinct IPs, the entry at any position is the one found. */
  lemma {:induction false} TimeOfUnique(rs: seq<Reserved>, i: nat)
    requires IpsDistinct(rs) && i < |rs|
    ensures HasIp(rs, rs[i].ip) && TimeOf(rs, rs[i].ip) == rs[i].time
  {
    FindIpIsFirst(rs, rs[i].ip, i);
  }

  /** `Add` keeps IPs pairwise distinct, never shrinks the registry, and keeps
      the original timestamp of an IP that is already reserved. */
  lemma AddedShape(rs: seq<Reserved>, ip: Ipv4, time: Time)
    ensures IpsDistinct(rs) ==> IpsDistinct(Added(rs, ip, time))
    ensures rs <= Added(rs, ip, time)
    ensures HasIp(rs, ip) ==> Added(rs, ip, time) == rs
    ensures !HasIp(rs, ip) ==> |Added(rs, ip, time)| == |rs| + 1
  {
  }

  /** After `Add (ip, time)` the IP is reserved, with `time` if it was new and
      with its original time otherwise. */
  lemma {:induction false} AddedLookup(rs: seq<Reserved>, ip: Ipv4, time: Time)
    ensures HasIp(Added(rs, ip, time), ip)
    ensures TimeOf(Added(rs, ip, time), ip) == if HasIp(rs, ip) then TimeOf(rs, ip) else time
  {
    if !HasIp(rs, ip) {
      var rs' := rs + [Reserved(ip, time)];
      assert rs'[|rs|].ip == ip;
      FindIpIsFirst(rs', ip, |rs|);
    }
  }

  /** `Erase (index)` removes exactly that element and keeps the others in order. */
  lemma ErasedShape(rs: seq<Reserved>, index: nat)
    requires index < |rs|
    ensures |Erased(rs, index)| == |rs| - 1
    ensures forall j :: 0 <= j < index ==> Erased(rs, index)[j] == rs[j]
    ensures forall j :: index <= j < |rs| - 1 ==> Erased(rs, index)[j] == rs[j + 1]
    ensures IpsDistinct(rs) ==> IpsDistinct(Erased(rs, index))
  {
    var e := Erased(rs, index);
    if IpsDistinct(rs) {
      forall i, j | 0 <= i < j < |e|
        ensures e[i].ip != e[j].ip
      {
        var i' := if i < index then i else i + 1;
        var j' := if j < index then j else j + 1;
        assert e[i] == rs[i'] && e[j] == rs[j'];
      }
    }
  }

  /** The sweep keeps exactly the entries alive at `now`. */
  lemma {:induction false} SweptMembers(rs: seq<Reserved>, now: Time)
    ensures forall r :: r in Swept(rs, now) <==> r in rs && Alive(r.time, now)
    decreases |rs|
  {
    if rs != [] {
      var init := rs[..|rs| - 1];
      SweptMembers(init, now);
      assert rs == init + [rs[|rs| - 1]];
    }
  }

  /** The sweep distributes over concatenation, so it keeps the surviving
      entries in their original relative order. */
  lemma {:induction false} SweptAppend(a: seq<Reserved>, b: seq<Reserved>, now: Time)
    ensures Swept(a + b, now) == Swept(a, now) + Swept(b, now)
    decreases |b|
  {
    if b == [] {
      assert a + b == a;
    } else {
      var init := b[..|b| - 1];
      SweptAppend(a, init, now);
      assert (a + b)[..|a + b| - 1] == a + init;
    }
  }

  /** Sweeping twice at the same time is the same as sweeping once. */
  lemma {:induction false} SweptIdempotent(rs: seq<Reserved>, now: Time)
    ensures Swept(Swept(rs, now), now) == Swept(rs, now)
    decreases |rs|
  {
    if rs != [] {
      var init := rs[..|rs| - 1];
      var last := rs[|rs| - 1];
      SweptIdempotent(init, now);
      var tail := if Alive(last.time, now) then [last] else [];
      SweptAppend(Swept(init, now), tail, now);
      if Alive(last.time, now) {
        assert Swept(tail, now) == Swept([], now) + [last];
      } else {
        assert Swept(tail, now) == [];
      }
    }
  }

  /** The sweep keeps IPs pairwise distinct. */
  lemma {:induction false} SweptKeepsDistinct(rs: seq<Reserved>, now: Time)
    requires IpsDistinct(rs)
    ensures IpsDistinct(Swept(rs, now))
    decreases |rs|
  {
    if rs != [] {
      var init := rs[..|rs| - 1];
      var last := rs[|rs| - 1];
      SweptKeepsDistinct(init, now);
      if Alive(last.time, now) {
        SweptMembers(init, now);
        var s := Swept(init, now);
        forall i | 0 <= i < |s|
          ensures s[i].ip != last.ip
        {
          assert s[i] in init;
        }
      }
    }
  }

  /** An entry created at `time` survives every sweep before `time + 2` with its
      timestamp, and is gone after any sweep from `time + 2` on. */
  lemma {:induction false} ReservationWindow(rs: seq<Reserved>, i: nat, now: Time)
    requires IpsDistinct(rs) && i < |rs|
    ensures now < rs[i].time + RESERVED_LIFETIME ==>
      HasIp(Swept(rs, now), rs[i].ip) && TimeOf(Swept(rs, now), rs[i].ip) == rs[i].time
    ensures now >= rs[i].time + RESERVED_LIFETIME ==> !HasIp(Swept(rs, now), rs[i].ip)
  {
    var s := Swept(rs, now);
    SweptMembers(rs, now);
    SweptKeepsDistinct(rs, now);
    if now < rs[i].time + RESERVED_LIFETIME {
      assert rs[i] in s;
      var k :| 0 <= k < |s| && s[k] == rs[i];
      TimeOfUnique(s, k);
    } else {
      forall k | 0 <= k < |s|
        ensures s[k].ip != rs[i].ip
      {
        assert s[k] in rs;
        var m :| 0 <= m < |rs| && rs[m] == s[k];
        assert m == i || rs[m].ip != rs[i].ip;
      }
    }
  }

  /** A fresh reservation made at `time` is present after a sweep at `now`
      exactly when `now < time + 2`. */
  lemma {:induction false} AddedThenSwept(rs: seq<Reserved>, ip: Ipv4, time: Time, now: Time)
    requires IpsDistinct(rs) && !HasIp(rs, ip)
    ensures HasIp(Swept(Added(rs, ip, time), now), ip) <==> now < time + RESERVED_LIFETIME
  {
    var rs' := Added(rs, ip, time);
    AddedShape(rs, ip, time);
    assert rs'[|rs|] == Reserved(ip, time);
    ReservationWindow(rs', |rs|, now);
  }
}
