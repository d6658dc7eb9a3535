/** spec/spec.go: networks of devices, the censored views handed to devices, the Equal and Clone
    families and the index lookups. Slices of values are sequences; nil and empty coincide. */
module Specs {
  import opened Prelude
  import opened NetAddr

  /** A WireGuard key; the unset key is the all-zero one. */
  type Key = nat
  const UNSET_KEY: Key := 0

  /** NetworkDeviceCensored: what peers may know about a device. `chosen` stands for
      ForwarderAndEndpointChosen. */
  datatype CensoredDevice = CensoredDevice(
    name: string,
    endpoints: seq<string>,
    chosen: bool,
    usesForwarder: bool,
    endpointIndex: int,
    forwarderIndex: int,
    addresses: seq<IPNet>,
    listenPort: int,
    publicKey: Key,
    presharedKey: Option<Key>,
    keepalive: int,
    accessible: seq<string>)

  datatype AccessControl = AccessControl(all: bool, only: seq<string>)

  datatype NetworkDevice = NetworkDevice(public: CensoredDevice, access: AccessControl)

  datatype Network = Network(name: string, devices: seq<NetworkDevice>)

  datatype Spec = Spec(networks: seq<Network>)

  datatype CensoredNetwork = CensoredNetwork(name: string, devices: seq<CensoredDevice>, censoredFor: string)

  // ----- index lookups -----

  /** GetNetworkIndex; -1 stands for "not found". */
  function NetworkIndex(s: Spec, name: string): (i: int)
    ensures -1 <= i < |s.networks|
    ensures i >= 0 ==> s.networks[i].name == name && forall k | 0 <= k < i :: s.networks[k].name != name
    ensures i == -1 ==> forall k | 0 <= k < |s.networks| :: s.networks[k].name != name
  {
    FirstIndex(s.networks, (n: Network) => n.name == name)
  }

  function DeviceIndex(devices: seq<NetworkDevice>, name: string): (i: int)
    ensures -1 <= i < |devices|
    ensures i >= 0 ==> devices[i].public.name == name && forall k | 0 <= k < i :: devices[k].public.name != name
    ensures i == -1 ==> forall k | 0 <= k < |devices| :: devices[k].public.name != name
  {
    FirstIndex(devices, (d: NetworkDevice) => d.public.name == name)
  }

  function ViewIndex(devices: seq<CensoredDevice>, name: string): (i: int)
    ensures -1 <= i < |devices|
    ensures i >= 0 ==> devices[i].name == name && forall k | 0 <= k < i :: devices[k].name != name
    ensures i == -1 ==> forall k | 0 <= k < |devices| :: devices[k].name != name
  {
    FirstIndex(devices, (d: CensoredDevice) => d.name == name)
  }

  predicate HasNetwork(s: Spec, name: string) { NetworkIndex(s, name) >= 0 }

  predicate HasDevice(n: Network, name: string) { DeviceIndex(n.devices, name) >= 0 }

  function GetNetwork(s: Spec, name: string): Network
    requires HasNetwork(s, name)
  {
    s.networks[NetworkIndex(s, name)]
  }

  function GetDevice(n: Network, name: string): NetworkDevice
    requires HasDevice(n, name)
  {
    n.devices[DeviceIndex(n.devices, name)]
  }

  // ----- Equal -----

  predicate NetsEqual(a: seq<IPNet>, b: seq<IPNet>) {
    |a| == |b| && forall i | 0 <= i < |a| :: IPNetEqual(a[i], b[i])
  }

  /** NetworkDeviceCensored.Equal: the choice fields do not count. */
  predicate DeviceEqual(a: CensoredDevice, b: CensoredDevice) {
    && a.name == b.name
    && a.endpoints == b.endpoints
    && NetsEqual(a.addresses, b.addresses)
    && a.listenPort == b.listenPort
    && a.publicKey == b.publicKey
    && ((a.presharedKey.Some? && b.presharedKey.Some? && a.presharedKey.value == b.presharedKey.value)
        || (a.presharedKey.None? && b.presharedKey.None?))
    && a.keepalive == b.keepalive
    && a.accessible == b.accessible
  }

  /** NetworkCensored.Equal */
  predicate ViewEqual(a: CensoredNetwork, b: CensoredNetwork) {
    && a.name == b.name
    && |a.devices| == |b.devices|
    && (forall i | 0 <= i < |a.devices| :: DeviceEqual(a.devices[i], b.devices[i]))
    && a.censoredFor == b.censoredFor
  }

  /** NetworkDevice.Equal */
  predicate NetworkDeviceEqual(a: NetworkDevice, b: NetworkDevice) {
    DeviceEqual(a.public, b.public) && a.access.all == b.access.all && a.access.only == b.access.only
  }

  function CanonDevice(d: CensoredDevice): CensoredDevice {
    d.(chosen := false, usesForwarder := false, endpointIndex := 0, forwarderIndex := 0,
       addresses := CanonNets(d.addresses))
  }

  function CanonView(v: CensoredNetwork): CensoredNetwork {
    v.(devices := Map(CanonDevice, v.devices))
  }

  lemma NetsEqualIffCanon(a: seq<IPNet>, b: seq<IPNet>)
    ensures NetsEqual(a, b) <==> CanonNets(a) == CanonNets(b)
  {
    forall x: IPNet, y: IPNet ensures IPNetEqual(x, y) <==> CanonNet(x) == CanonNet(y) {
      IPEqualIffCanon(x.ip, y.ip);
    }
    if CanonNets(a) == CanonNets(b) {
      assert |a| == |CanonNets(a)| == |b|;
      forall i | 0 <= i < |a| ensures IPNetEqual(a[i], b[i]) {
        assert CanonNets(a)[i] == CanonNets(b)[i];
      }
    }
  }

  /** Of two Equal lists, if one was read from text, the other reads back to it. */
  lemma EqualToText(a: seq<IPNet>, b: seq<IPNet>)
    requires TextNets(a) == a
    ensures NetsEqual(a, b) ==> AllReadBack(b) && TextNets(b) == a
  {
    if NetsEqual(a, b) {
      forall i | 0 <= i < |b| ensures ReadsBack(b[i]) && TextNet(b[i]) == a[i] {
        assert TextNet(a[i]) == TextNets(a)[i] == a[i];
        IPEqualIffCanon(a[i].ip, b[i].ip);
        TextNetMeans(b[i]);
      }
    }
  }

  /** A list is Equal to what is read back from its text exactly if each entry is. */
  lemma TextEqualIff(nets: seq<IPNet>)
    ensures NetsEqual(TextNets(nets), nets) <==> AllReadBack(nets)
  {
    forall i | 0 <= i < |nets| ensures IPNetEqual(TextNet(nets[i]), nets[i]) <==> ReadsBack(nets[i]) {
      TextNetMeans(nets[i]);
    }
  }

  lemma DeviceEqualIffCanon(a: CensoredDevice, b: CensoredDevice)
    ensures DeviceEqual(a, b) <==> CanonDevice(a) == CanonDevice(b)
  {
    NetsEqualIffCanon(a.addresses, b.addresses);
  }

  /** Equal views are those with the same canonical form. */
  lemma ViewEqualIffCanon(a: CensoredNetwork, b: CensoredNetwork)
    ensures ViewEqual(a, b) <==> CanonView(a) == CanonView(b)
  {
    forall x, y ensures DeviceEqual(x, y) <==> CanonDevice(x) == CanonDevice(y) {
      DeviceEqualIffCanon(x, y);
    }
    if CanonView(a) == CanonView(b) {
      var ca, cb := CanonView(a).devices, CanonView(b).devices;
      assert |a.devices| == |ca| == |b.devices|;
      forall i | 0 <= i < |a.devices| ensures DeviceEqual(a.devices[i], b.devices[i]) {
        assert ca[i] == cb[i];
      }
    }
  }

  /** Equal is reflexive, symmetric and transitive, whatever the byte lengths of the addresses
      and whether or not preshared keys are set. */
  lemma ViewEqualIsEquivalence(a: CensoredNetwork, b: CensoredNetwork, c: CensoredNetwork)
    ensures ViewEqual(a, a)
    ensures ViewEqual(a, b) ==> ViewEqual(b, a)
    ensures ViewEqual(a, b) && ViewEqual(b, c) ==> ViewEqual(a, c)
  {
    ViewEqualIffCanon(a, a);
    ViewEqualIffCanon(a, b);
    ViewEqualIffCanon(b, a);
    ViewEqualIffCanon(b, c);
    ViewEqualIffCanon(a, c);
  }

  // ----- Clone -----

  /** NetworkDeviceCensored.Clone. Neither Accessible nor UsesForwarder is copied. */
  function CloneDevice(d: CensoredDevice): CensoredDevice {
    d.(usesForwarder := false, accessible := [])
  }

  function CloneNetworkDevice(d: NetworkDevice): NetworkDevice {
    NetworkDevice(CloneDevice(d.public), d.access)
  }

  function CloneNetwork(n: Network): Network {
    Network(n.name, Map(CloneNetworkDevice, n.devices))
  }

  function CloneSpec(s: Spec): Spec {
    Spec(Map(CloneNetwork, s.networks))
  }

  /** A clone of a device equals it exactly when its Accessible list was empty. */
  lemma CloneEqualIff(d: NetworkDevice)
    ensures NetworkDeviceEqual(CloneNetworkDevice(d), d) <==> d.public.accessible == []
  {
    NetsEqualIffCanon(d.public.addresses, d.public.addresses);
  }

  /** Network.Clone as it is written: fill a fresh slice element by element. */
  method NetworkClone(n: Network) returns (r: Network)
    ensures r == CloneNetwork(n)
  {
    var devices: seq<NetworkDevice> := [];
    for i := 0 to |n.devices|
      invariant |devices| == i
      invariant forall k | 0 <= k < i :: devices[k] == CloneNetworkDevice(n.devices[k])
    {
      devices := devices + [CloneNetworkDevice(n.devices[i])];
    }
    assert devices == Map(CloneNetworkDevice, n.devices);
    r := Network(n.name, devices);
  }

  /** Spec.Clone */
  method SpecClone(s: Spec) returns (r: Spec)
    ensures r == CloneSpec(s)
  {
    var networks: seq<Network> := [];
    for i := 0 to |s.networks|
      invariant |networks| == i
      invariant forall k | 0 <= k < i :: networks[k] == CloneNetwork(s.networks[k])
    {
      var n := NetworkClone(s.networks[i]);
      networks := networks + [n];
    }
    assert networks == Map(CloneNetwork, s.networks);
    r := Spec(networks);
  }

  // ----- censoring -----

  predicate MaySee(access: AccessControl, name: string) {
    access.all || name in access.only
  }

  /** The devices of a network that `access` lets through, in order. */
  function Visible(access: AccessControl, devices: seq<NetworkDevice>): seq<CensoredDevice> {
    if devices == [] then []
    else (if MaySee(access, devices[0].public.name) then [devices[0].public] else [])
         + Visible(access, devices[1..])
  }

  /** The view of a network that device `who` of it gets. */
  function Censored(n: Network, who: string): CensoredNetwork
    requires HasDevice(n, who)
  {
    CensoredNetwork(n.name, Visible(GetDevice(n, who).access, n.devices), who)
  }

  /** CensorForDevice: its panic on an unknown device is the precondition. */
  method CensorForDevice(n: Network, who: string) returns (view: CensoredNetwork)
    requires HasDevice(n, who)
    ensures view == Censored(n, who)
  {
    var access := n.devices[DeviceIndex(n.devices, who)].access;
    var devices: seq<CensoredDevice> := [];
    for i := 0 to |n.devices|
      invariant devices + Visible(access, n.devices[i..]) == Visible(access, n.devices)
    {
      var nd := n.devices[i];
      assert n.devices[i..][1..] == n.devices[i+1..];
      if access.all || nd.public.name in access.only {
        devices := devices + [nd.public];
      }
    }
    view := CensoredNetwork(n.name, devices, who);
  }

  /** What device `who` of network `net` would be sent now. */
  function CurrentView(s: Spec, net: string, who: string): Option<CensoredNetwork> {
    if HasNetwork(s, net) && HasDevice(GetNetwork(s, net), who)
    then Some(Censored(GetNetwork(s, net), who))
    else None
  }

  /** Does the device belong to its own view? */
  predicate SeesItself(s: Spec, net: string, who: string) {
    CurrentView(s, net, who).Some? && ViewIndex(CurrentView(s, net, who).value.devices, who) >= 0
  }

  /** Access goes by name, so the first visible device of a name is the first device of that name. */
  lemma {:induction false} VisibleFirst(access: AccessControl, devices: seq<NetworkDevice>, name: string)
    ensures var v := Visible(access, devices);
      var i := DeviceIndex(devices, name);
      if i >= 0 && MaySee(access, name)
      then ViewIndex(v, name) >= 0 && v[ViewIndex(v, name)] == devices[i].public
      else ViewIndex(v, name) == -1
  {
    if devices != [] {
      VisibleFirst(access, devices[1..], name);
      DeviceIndexTail(devices, name);
      var v, rest := Visible(access, devices), Visible(access, devices[1..]);
      if MaySee(access, devices[0].public.name) {
        assert v == [devices[0].public] + rest && v[1..] == rest;
        ViewIndexTail(v, name);
      } else {
        assert v == rest;
      }
    }
  }

  // ----- censoring isolates -----

  lemma {:induction false} VisibleAppend(access: AccessControl, a: seq<NetworkDevice>, b: seq<NetworkDevice>)
    ensures Visible(access, a + b) == Visible(access, a) + Visible(access, b)
  {
    if a == [] {
      assert a + b == b;
    } else {
      VisibleAppend(access, a[1..], b);
      assert (a + b)[1..] == a[1..] + b;
    }
  }

  /** `at` lists, in order, the positions of the devices that `access` lets through. */
  ghost predicate Enumerates(access: AccessControl, devices: seq<NetworkDevice>, at: seq<nat>) {
    && (forall k | 0 <= k < |at| :: at[k] < |devices| && MaySee(access, devices[at[k]].public.name))
    && (forall j, k | 0 <= j < k < |at| :: at[j] < at[k])
    && (forall i | 0 <= i < |devices| && MaySee(access, devices[i].public.name) :: i in at)
  }

  lemma VisibleLast(access: AccessControl, devices: seq<NetworkDevice>)
    requires devices != []
    ensures var last := |devices| - 1;
      Visible(access, devices)
      == Visible(access, devices[..last])
         + (if MaySee(access, devices[last].public.name) then [devices[last].public] else [])
  {
    var last := |devices| - 1;
    assert devices == devices[..last] + [devices[last]];
    VisibleAppend(access, devices[..last], [devices[last]]);
    assert Visible(access, [devices[last]][1..]) == [];
  }

  /** Without its last position, if that is the last device, an enumeration is one of the others. */
  lemma EnumeratesFront(access: AccessControl, devices: seq<NetworkDevice>, at: seq<nat>) returns (at': seq<nat>)
    requires Enumerates(access, devices, at) && devices != []
    ensures Enumerates(access, devices[..|devices|-1], at')
    ensures at == at' + if MaySee(access, devices[|devices|-1].public.name) then [|devices| - 1] else []
  {
    var last := |devices| - 1;
    if MaySee(access, devices[last].public.name) {
      var end :| 0 <= end < |at| && at[end] == last;
      assert at[|at|-1] < |devices|;
      assert end == |at| - 1;
      at' := at[..end];
      forall i | 0 <= i < last && MaySee(access, devices[i].public.name) ensures i in at' {
        assert i in at;
      }
    } else {
      at' := at;
    }
  }

  lemma {:induction false} VisibleAt(access: AccessControl, devices: seq<NetworkDevice>, at: seq<nat>)
    requires Enumerates(access, devices, at)
    ensures |Visible(access, devices)| == |at|
    ensures forall k | 0 <= k < |at| :: Visible(access, devices)[k] == devices[at[k]].public
  {
    if at == [] {
      NothingVisible(access, devices);
    } else {
      assert at[0] < |devices|;
      VisibleLast(access, devices);
      var front := EnumeratesFront(access, devices, at);
      VisibleAt(access, devices[..|devices|-1], front);
    }
  }

  lemma {:induction false} Enumeration(access: AccessControl, devices: seq<NetworkDevice>) returns (at: seq<nat>)
    ensures Enumerates(access, devices, at)
  {
    at := [];
    if devices != [] {
      var last := |devices| - 1;
      at := Enumeration(access, devices[..last]);
      assert forall i | 0 <= i < last :: devices[..last][i] == devices[i];
      if MaySee(access, devices[last].public.name) {
        at := at + [last];
      }
    }
  }

  /** The devices that each network lets through are Equal, one by one and in order. */
  ghost predicate Corresponding(a: AccessControl, n: Network, b: AccessControl, m: Network, at: seq<nat>,
                                bt: seq<nat>)
  {
    && n.name == m.name
    && Enumerates(a, n.devices, at) && Enumerates(b, m.devices, bt) && |at| == |bt|
    && forall k | 0 <= k < |at| :: DeviceEqual(n.devices[at[k]].public, m.devices[bt[k]].public)
  }

  /** Two networks give a device Equal views exactly if they agree on the devices it may access,
      whatever else they contain. */
  lemma CensoringIsolates(n: Network, m: Network, who: string)
    requires HasDevice(n, who) && HasDevice(m, who)
    ensures ViewEqual(Censored(n, who), Censored(m, who))
            <==> exists at, bt :: Corresponding(GetDevice(n, who).access, n, GetDevice(m, who).access, m, at, bt)
  {
    var a, b := GetDevice(n, who).access, GetDevice(m, who).access;
    if ViewEqual(Censored(n, who), Censored(m, who)) {
      var at := Enumeration(a, n.devices);
      var bt := Enumeration(b, m.devices);
      VisibleAt(a, n.devices, at);
      VisibleAt(b, m.devices, bt);
      assert Corresponding(a, n, b, m, at, bt);
    }
    if at, bt :| Corresponding(a, n, b, m, at, bt) {
      VisibleAt(a, n.devices, at);
      VisibleAt(b, m.devices, bt);
    }
  }

  lemma {:induction false} NothingVisible(access: AccessControl, devices: seq<NetworkDevice>)
    requires forall i | 0 <= i < |devices| :: !MaySee(access, devices[i].public.name)
    ensures Visible(access, devices) == []
  {
    if devices != [] {
      NothingVisible(access, devices[1..]);
    }
  }

  /** Adding, removing or changing devices that a device may not access leaves its view as it is. */
  lemma HiddenEdit(n: Network, m: Network, who: string, front: seq<NetworkDevice>, hidden: seq<NetworkDevice>,
                   hidden': seq<NetworkDevice>, back: seq<NetworkDevice>)
    requires n.name == m.name && n.devices == front + hidden + back && m.devices == front + hidden' + back
    requires HasDevice(n, who) && HasDevice(m, who) && GetDevice(m, who).access == GetDevice(n, who).access
    requires forall i | 0 <= i < |hidden| :: !MaySee(GetDevice(n, who).access, hidden[i].public.name)
    requires forall i | 0 <= i < |hidden'| :: !MaySee(GetDevice(n, who).access, hidden'[i].public.name)
    ensures Censored(m, who) == Censored(n, who)
  {
    var access := GetDevice(n, who).access;
    NothingVisible(access, hidden);
    NothingVisible(access, hidden');
    VisibleAppend(access, front, hidden);
    VisibleAppend(access, front + hidden, back);
    VisibleAppend(access, front, hidden');
    VisibleAppend(access, front + hidden', back);
  }

  lemma DeviceIndexTail(devices: seq<NetworkDevice>, name: string)
    requires devices != []
    ensures DeviceIndex(devices, name)
            == if devices[0].public.name == name then 0
               else if DeviceIndex(devices[1..], name) == -1 then -1 else DeviceIndex(devices[1..], name) + 1
  {
    forall k | 1 <= k < |devices| ensures devices[k] == devices[1..][k-1] {}
    var j := DeviceIndex(devices[1..], name);
    if devices[0].public.name != name && j >= 0 {
      assert devices[j+1].public.name == name;
    }
  }

  lemma ViewIndexTail(devices: seq<CensoredDevice>, name: string)
    requires devices != []
    ensures ViewIndex(devices, name)
            == if devices[0].name == name then 0
               else if ViewIndex(devices[1..], name) == -1 then -1 else ViewIndex(devices[1..], name) + 1
  {
    forall k | 1 <= k < |devices| ensures devices[k] == devices[1..][k-1] {}
    var j := ViewIndex(devices[1..], name);
    if devices[0].name != name && j >= 0 {
      assert devices[j+1].name == name;
    }
  }

  /** Changing the first device of a name changes the view at the same place, or not at all. */
  lemma {:induction false} VisibleUpdate(access: AccessControl, devices: seq<NetworkDevice>, name: string,
                                         changed: NetworkDevice)
    requires DeviceIndex(devices, name) >= 0 && changed.public.name == name
    ensures var v := Visible(access, devices);
      var w := Visible(access, devices[DeviceIndex(devices, name) := changed]);
      if MaySee(access, name)
      then ViewIndex(v, name) >= 0 && w == v[ViewIndex(v, name) := changed.public]
      else w == v
  {
    var i := DeviceIndex(devices, name);
    var rest := Visible(access, devices[1..]);
    VisibleFirst(access, devices, name);
    if i == 0 {
      assert devices[i := changed][1..] == devices[1..];
      if MaySee(access, name) {
        ViewIndexTail(Visible(access, devices), name);
      }
    } else {
      DeviceIndexTail(devices, name);
      VisibleUpdate(access, devices[1..], name, changed);
      VisibleFirst(access, devices[1..], name);
      var w := devices[i := changed];
      assert w[0] == devices[0] && w[1..] == devices[1..][i-1 := changed];
      if MaySee(access, devices[0].public.name) {
        assert Visible(access, devices) == [devices[0].public] + rest;
        assert Visible(access, w) == [devices[0].public] + Visible(access, w[1..]);
        UpdateBehind(devices[0].public, rest, name, changed.public);
      } else {
        assert Visible(access, devices) == rest && Visible(access, w) == Visible(access, w[1..]);
      }
    }
  }

  /** Replacing an element behind the first. */
  lemma UpdateBehind(head: CensoredDevice, rest: seq<CensoredDevice>, name: string, changed: CensoredDevice)
    requires head.name != name
    ensures ViewIndex(rest, name) >= 0 ==>
      && ViewIndex([head] + rest, name) >= 0
      && ([head] + rest)[ViewIndex([head] + rest, name) := changed] == [head] + rest[ViewIndex(rest, name) := changed]
  {
    ViewIndexTail([head] + rest, name);
    assert ([head] + rest)[1..] == rest;
  }

  /** Cloning commutes with censoring. */
  lemma {:induction false} VisibleClone(access: AccessControl, devices: seq<NetworkDevice>)
    ensures Visible(access, Map(CloneNetworkDevice, devices)) == Map(CloneDevice, Visible(access, devices))
  {
    if devices != [] {
      VisibleClone(access, devices[1..]);
      assert Map(CloneNetworkDevice, devices)[1..] == Map(CloneNetworkDevice, devices[1..]);
      var head := if MaySee(access, devices[0].public.name) then [devices[0].public] else [];
      assert Map(CloneDevice, head + Visible(access, devices[1..]))
          == Map(CloneDevice, head) + Map(CloneDevice, Visible(access, devices[1..]));
    }
  }

  // ----- forwarders -----

  /** Can device `i` of the view forward for `name`? */
  predicate CanForwardFor(devices: seq<CensoredDevice>, i: nat, name: string)
    requires i < |devices|
  {
    name in devices[i].accessible && devices[i].chosen
  }

  /** The positions below `n` of devices that can forward for `name`, in order. */
  function Forwarders(devices: seq<CensoredDevice>, name: string, n: nat): (r: seq<nat>)
    requires n <= |devices|
    ensures forall k | 0 <= k < |r| :: r[k] < n && CanForwardFor(devices, r[k], name)
    ensures forall i | 0 <= i < n && CanForwardFor(devices, i, name) :: i in r
  {
    if n == 0 then []
    else
      var r := Forwarders(devices, name, n - 1);
      if CanForwardFor(devices, n - 1, name) then
        assert forall i | 0 <= i < n && CanForwardFor(devices, i, name) :: i == n - 1 || i in r;
        r + [n - 1]
      else r
  }

  /** GetForwardersFor */
  method GetForwardersFor(devices: seq<CensoredDevice>, name: string) returns (r: seq<nat>)
    ensures r == Forwarders(devices, name, |devices|)
  {
    r := [];
    for i := 0 to |devices|
      invariant r == Forwarders(devices, name, i)
    {
      if name in devices[i].accessible && devices[i].chosen {
        r := r + [i];
      }
    }
  }

  // ----- what a device is sent -----

  /** A view has, in order and each once, the public parts of exactly those devices that the owner of the
      view may access: all of them, or the ones its list names. */
  lemma ViewMeans(n: Network, who: string) returns (at: seq<nat>)
    requires HasDevice(n, who)
    ensures Censored(n, who).name == n.name && Censored(n, who).censoredFor == who
    ensures var devices := Censored(n, who).devices;
      var access := n.devices[DeviceIndex(n.devices, who)].access;
      && |devices| == |at|
      && (forall k | 0 <= k < |at| :: at[k] < |n.devices| && devices[k] == n.devices[at[k]].public)
      && (forall j, k | 0 <= j < k < |at| :: at[j] < at[k])
      && (forall i | 0 <= i < |n.devices| :: i in at <==> access.all || n.devices[i].public.name in access.only)
  {
    var access := n.devices[DeviceIndex(n.devices, who)].access;
    at := Enumeration(access, n.devices);
    VisibleAt(access, n.devices, at);
  }

  /** A device without access to all is never sent one that its list does not name, whatever the spec. */
  lemma NeverSent(s: Spec, net: string, who: string, i: nat)
    requires CurrentView(s, net, who).Some? && i < |CurrentView(s, net, who).value.devices|
    requires !GetDevice(GetNetwork(s, net), who).access.all
    ensures CurrentView(s, net, who).value.devices[i].name in GetDevice(GetNetwork(s, net), who).access.only
  {
    var at := ViewMeans(GetNetwork(s, net), who);
    assert at[i] in at;
  }
}
