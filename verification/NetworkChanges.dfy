/** Detection of network changes: one-sided checks of names and addresses after a
    comparison of sizes. */
module NetworkChanges {

  /** `known` holds for the IPv4 and IPv6 addresses; others are not looked at. */
  datatype Address = Address(ip: string, known: bool)

  datatype Interface = Interface(name: string, addresses: seq<Address>)

  // ----- Counting -----

  predicate Distinct<T(==)>(s: seq<T>) { forall i, j :: 0 <= i < j < |s| ==> s[i] != s[j] }

  function Members<T>(s: seq<T>): set<T> { set x | x in s }

  lemma {:induction false} MembersCount<T>(s: seq<T>)
    ensures |Members(s)| <= |s|
    ensures |Members(s)| == |s| <==> Distinct(s)
  {
    if s != [] {
      var front, last := s[..|s| - 1], s[|s| - 1];
      MembersCount(front);
      assert Members(s) == Members(front) + {last};
      assert Distinct(s) <==> Distinct(front) && last !in front by {
        assert forall i :: 0 <= i < |front| ==> front[i] == s[i];
      }
      if last in Members(front) { assert Members(s) == Members(front); }
    }
  }

  /** Pigeonhole: distinct members of a list no longer than it exhaust it. */
  lemma Exhaust<T>(xs: seq<T>, ys: seq<T>)
    requires Distinct(xs) && |xs| == |ys| && forall x :: x in xs ==> x in ys
    ensures Distinct(ys) && forall y :: y in ys ==> y in xs
  {
    MembersCount(xs);
    MembersCount(ys);
    assert Members(xs) <= Members(ys);
    EqualBySize(Members(xs), Members(ys));
    forall y | y in ys ensures y in xs { assert y in Members(ys); }
  }

  lemma EqualBySize<T>(a: set<T>, b: set<T>)
    requires a <= b && |a| >= |b|
    ensures a == b
  {
    assert b == a + (b - a);
    assert |b| == |a| + |b - a|;
  }

  // ----- Equality up to order -----

  function Ips(i: Interface): (s: seq<string>)
    ensures |s| == |i.addresses| && forall k :: 0 <= k < |s| ==> s[k] == i.addresses[k].ip
  {
    seq(|i.addresses|, k requires 0 <= k < |i.addresses| => i.addresses[k].ip)
  }

  function InterfaceNames(l: seq<Interface>): (s: seq<string>)
    ensures |s| == |l| && forall k :: 0 <= k < |s| ==> s[k] == l[k].name
  {
    seq(|l|, k requires 0 <= k < |l| => l[k].name)
  }

  predicate SameInterface(a: Interface, b: Interface) {
    a.name == b.name && |a.addresses| == |b.addresses| && Members(Ips(a)) == Members(Ips(b))
  }

  /** The same interfaces with the same addresses, both in any order. */
  ghost predicate SameUpToOrder(l: seq<Interface>, m: seq<Interface>) {
    && |l| == |m|
    && (forall a :: a in l ==> exists b :: b in m && SameInterface(a, b))
    && (forall b :: b in m ==> exists a :: a in l && SameInterface(a, b))
  }

  /** What the system reports: names are unique, and so are the addresses of an interface,
      which are all IPv4 or IPv6. */
  predicate WellFormed(l: seq<Interface>) {
    && Distinct(InterfaceNames(l))
    && forall k :: 0 <= k < |l| ==> Distinct(Ips(l[k])) && forall a :: a in l[k].addresses ==> a.known
  }

  // ----- The checks -----

  predicate IpIsNew(ip: Address, known: seq<Address>) { ip.known && forall a :: a in known ==> a.ip != ip.ip }

  predicate AddressesDiffer(was: Interface, now: Interface) {
    || |now.addresses| != |was.addresses|
    || exists a :: a in now.addresses && IpIsNew(a, was.addresses)
  }

  /** Index of the first interface called `name`; the length if there is none. */
  function FindName(l: seq<Interface>, name: string): (i: nat)
    ensures i <= |l| && (i < |l| ==> l[i].name == name)
    ensures forall j :: 0 <= j < i ==> l[j].name != name
  {
    if l == [] || l[0].name == name then 0 else 1 + FindName(l[1..], name)
  }

  predicate InterfaceDiffers(active: seq<Interface>, now: Interface) {
    var i := FindName(active, now.name);
    i == |active| || AddressesDiffer(active[i], now)
  }

  method CheckIpAddress(ip: Address, oldAddresses: seq<Address>) returns (disconnect: bool)
    ensures disconnect == IpIsNew(ip, oldAddresses)
  {
    disconnect := false;
    if ip.known {
      var i := 0;
      while i < |oldAddresses| && oldAddresses[i].ip != ip.ip
        invariant i <= |oldAddresses| && forall j :: 0 <= j < i ==> oldAddresses[j].ip != ip.ip
      {
        i := i + 1;
      }
      disconnect := i == |oldAddresses|;
    }
  }

  method CheckNetworkAddresses(was: Interface, now: Interface) returns (disconnect: bool)
    ensures disconnect == AddressesDiffer(was, now)
  {
    disconnect := false;
    if |now.addresses| != |was.addresses| {
      disconnect := true;
    } else {
      for i := 0 to |now.addresses|
        invariant disconnect <==> exists j :: 0 <= j < i && IpIsNew(now.addresses[j], was.addresses)
      {
        var isNew := CheckIpAddress(now.addresses[i], was.addresses);
        disconnect := disconnect || isNew;
      }
    }
  }

  method CheckNetworkInterface(active: seq<Interface>, now: Interface) returns (disconnect: bool)
    ensures disconnect == InterfaceDiffers(active, now)
  {
    var i := FindName(active, now.name);
    if i == |active| {
      disconnect := true;
    } else {
      disconnect := CheckNetworkAddresses(active[i], now);
    }
  }

  /** Some interface is new or has new addresses. */
  ghost predicate Differ(active: seq<Interface>, now: seq<Interface>) {
    exists n :: n in now && InterfaceDiffers(active, n)
  }

  method CheckAllInterfaces(active: seq<Interface>, now: seq<Interface>) returns (disconnect: bool)
    ensures disconnect <==> Differ(active, now)
  {
    disconnect := false;
    for i := 0 to |now|
      invariant disconnect <==> exists j :: 0 <= j < i && InterfaceDiffers(active, now[j])
    {
      var differs := CheckNetworkInterface(active, now[i]);
      disconnect := disconnect || differs;
    }
  }

  // ----- Exactness -----

  lemma AddressesExact(was: Interface, now: Interface)
    requires was.name == now.name && Distinct(Ips(now))
    requires forall a :: a in now.addresses ==> a.known
    ensures AddressesDiffer(was, now) <==> !SameInterface(was, now)
  {
    if !AddressesDiffer(was, now) {
      forall ip | ip in Ips(now) ensures ip in Ips(was) {
        var k :| 0 <= k < |now.addresses| && now.addresses[k].ip == ip;
        assert now.addresses[k] in now.addresses && !IpIsNew(now.addresses[k], was.addresses);
        var a :| a in was.addresses && a.ip == now.addresses[k].ip;
        var j :| 0 <= j < |was.addresses| && was.addresses[j] == a;
        assert Ips(was)[j] == ip;
      }
      Exhaust(Ips(now), Ips(was));
      assert Members(Ips(was)) == Members(Ips(now));
    }
    if SameInterface(was, now) {
      forall a | a in now.addresses ensures !IpIsNew(a, was.addresses) {
        var k :| 0 <= k < |now.addresses| && now.addresses[k] == a;
        assert Ips(now)[k] in Members(Ips(now));
        assert a.ip in Ips(was);
        var j :| 0 <= j < |Ips(was)| && Ips(was)[j] == a.ip;
        assert was.addresses[j] in was.addresses;
      }
    }
  }

  lemma FindUnique(l: seq<Interface>, k: nat)
    requires k < |l| && Distinct(InterfaceNames(l))
    ensures FindName(l, l[k].name) == k
  {
    hide FindName, InterfaceNames;
    var ns, i := InterfaceNames(l), FindName(l, l[k].name);
    assert i <= k;
    assert ns[i] == ns[k];
  }

  lemma NamesIncluded(l: seq<Interface>, m: seq<Interface>)
    requires forall b :: b in m ==> exists k :: 0 <= k < |l| && l[k].name == b.name
    ensures forall s :: s in InterfaceNames(m) ==> s in InterfaceNames(l)
  {
    forall s | s in InterfaceNames(m) ensures s in InterfaceNames(l) {
      var j :| 0 <= j < |m| && InterfaceNames(m)[j] == s;
      assert m[j] in m;
      var k :| 0 <= k < |l| && l[k].name == m[j].name;
      assert InterfaceNames(l)[k] == s;
    }
  }

  lemma QuietInterface(active: seq<Interface>, now: seq<Interface>, n: Interface) returns (k: nat)
    requires WellFormed(now) && n in now && !InterfaceDiffers(active, n)
    ensures k == FindName(active, n.name) && k < |active| && SameInterface(active[k], n)
    ensures active[k].name == n.name
  {
    hide FindName;
    k := FindName(active, n.name);
    var j :| 0 <= j < |now| && now[j] == n;
    AddressesExact(active[k], n);
  }

  lemma QuietMeansSame(active: seq<Interface>, now: seq<Interface>)
    requires WellFormed(now) && |active| == |now|
    requires forall n :: n in now ==> !InterfaceDiffers(active, n)
    ensures SameUpToOrder(active, now)
  {
    hide FindName, SameInterface, InterfaceDiffers;
    forall n | n in now
      ensures exists k :: 0 <= k < |active| && active[k].name == n.name
      ensures exists a :: a in active && SameInterface(a, n)
    {
      var k := QuietInterface(active, now, n);
      assert active[k] in active;
    }
    NamesIncluded(active, now);
    var ns := InterfaceNames(now);
    Exhaust(ns, InterfaceNames(active));
    forall a | a in active ensures exists n :: n in now && SameInterface(a, n) {
      var k :| 0 <= k < |active| && active[k] == a;
      assert InterfaceNames(active)[k] in ns;
      var j :| 0 <= j < |now| && ns[j] == InterfaceNames(active)[k];
      FindUnique(active, k);
      assert now[j] in now;
      var f := QuietInterface(active, now, now[j]);
    }
  }

  lemma SameHasName(a: Interface, b: Interface)
    requires SameInterface(a, b)
    ensures a.name == b.name
  {
  }

  lemma SameHasPlace(active: seq<Interface>, now: seq<Interface>, n: Interface) returns (k: nat)
    requires SameUpToOrder(active, now) && n in now
    ensures k < |active| && SameInterface(active[k], n) && active[k].name == n.name
  {
    hide SameInterface;
    var a :| a in active && SameInterface(a, n);
    k :| 0 <= k < |active| && active[k] == a;
    SameHasName(a, n);
  }

  lemma SameMeansQuiet(active: seq<Interface>, now: seq<Interface>)
    requires WellFormed(now) && SameUpToOrder(active, now)
    ensures forall n :: n in now ==> !InterfaceDiffers(active, n)
  {
    hide SameInterface, AddressesDiffer, FindName;
    forall n | n in now ensures exists k :: 0 <= k < |active| && active[k].name == n.name {
      var k := SameHasPlace(active, now, n);
    }
    NamesIncluded(active, now);
    Exhaust(InterfaceNames(now), InterfaceNames(active));
    forall n | n in now ensures !InterfaceDiffers(active, n) {
      var k := SameHasPlace(active, now, n);
      FindUnique(active, k);
      var j :| 0 <= j < |now| && now[j] == n;
      AddressesExact(active[k], n);
    }
  }

  /** The one-sided checks find no difference between lists of one size exactly when the
      lists are equal up to order. */
  lemma DetectionExact(active: seq<Interface>, now: seq<Interface>)
    requires WellFormed(now) && |active| == |now|
    ensures Differ(active, now) <==> !SameUpToOrder(active, now)
  {
    if forall n :: n in now ==> !InterfaceDiffers(active, n) { QuietMeansSame(active, now); }
    if SameUpToOrder(active, now) { SameMeansQuiet(active, now); }
  }

  lemma SameAsItself(l: seq<Interface>)
    ensures SameUpToOrder(l, l)
  {
    forall a | a in l ensures SameInterface(a, a) {}
  }

  lemma SameSize(l: seq<Interface>, m: seq<Interface>)
    ensures SameUpToOrder(l, m) ==> |l| == |m|
  {
  }

  class NetworkMonitor {
    var networkConnectivity: bool
    var activeNetworkInterfaces: seq<Interface>
    var reconnections: nat

    /** One poll. It reconnects exactly on a change or after idling too long, and after a
        poll that found interfaces the remembered list agrees with them. */
    method CheckNetworkInterfaces(newNetworkInterfaces: seq<Interface>, idleForTooLong: bool)
      requires WellFormed(newNetworkInterfaces)
      modifies this
      ensures networkConnectivity <==> newNetworkInterfaces != []
      ensures newNetworkInterfaces != [] ==> SameUpToOrder(activeNetworkInterfaces, newNetworkInterfaces)
      ensures reconnections == old(reconnections) +
        if || idleForTooLong
           || (newNetworkInterfaces != [] && !old(networkConnectivity))
           || (newNetworkInterfaces != [] && old(activeNetworkInterfaces) != []
               && !SameUpToOrder(old(activeNetworkInterfaces), newNetworkInterfaces))
        then 1 else 0
    {
      hide SameUpToOrder, WellFormed, Differ;
      ghost var connected, active := networkConnectivity, activeNetworkInterfaces;
      var disconnect := false;
      if newNetworkInterfaces != [] && !networkConnectivity {
        disconnect := true;
        networkConnectivity := true;
      }
      SameAsItself(newNetworkInterfaces);
      SameSize(activeNetworkInterfaces, newNetworkInterfaces);
      if newNetworkInterfaces == [] {
        networkConnectivity := false;
      } else if activeNetworkInterfaces == [] {
        activeNetworkInterfaces := newNetworkInterfaces;
      } else if |activeNetworkInterfaces| != |newNetworkInterfaces| {
        disconnect := true;
      } else {
        var differs := CheckAllInterfaces(activeNetworkInterfaces, newNetworkInterfaces);
        DetectionExact(active, newNetworkInterfaces);
        disconnect := disconnect || differs;
      }
      assert disconnect <==>
        newNetworkInterfaces != [] && (!connected || (active != [] && !SameUpToOrder(active, newNetworkInterfaces)));
      ReconnectIfNecessary(disconnect, newNetworkInterfaces, idleForTooLong);
    }

    method ReconnectIfNecessary(disconnected: bool, newNetworkInterfaces: seq<Interface>, idleForTooLong: bool)
      modifies this`activeNetworkInterfaces, this`reconnections
      ensures if disconnected || idleForTooLong
              then activeNetworkInterfaces == newNetworkInterfaces && reconnections == old(reconnections) + 1
              else activeNetworkInterfaces == old(activeNetworkInterfaces) && reconnections == old(reconnections)
    {
      if disconnected || idleForTooLong {
        reconnections := reconnections + 1;
        activeNetworkInterfaces := newNetworkInterfaces;
      }
    }
  }
}
