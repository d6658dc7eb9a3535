/** The memory side of Clone in spec/spec.go and of PATCH in coord/server.go: specs with their slices
    and pointers on the heap. The clone has the value that CloneSpec says and shares nothing mutable
    with its source, so that PATCH can write to it while the old spec is still needed for comparison. */
module Cloning {
  import opened Prelude
  import opened NetAddr
  import opened Specs
  import opened Coord

  datatype NetRef = NetRef(ip: array<Byte>, mask: array<Byte>)

  class KeyCell {
    var key: Key

    constructor (key: Key)
      ensures this.key == key
    {
      this.key := key;
    }
  }

  /** PatchReifySpecRequest with its slice and its key pointer. */
  datatype PatchRef = PatchRef(
    listenPort: Option<int>,
    publicKey: Option<Key>,
    presharedKey: Option<KeyCell?>,
    keepalive: Option<int>,
    accessible: Option<array<string>>)

  ghost function PatchMemory(p: PatchRef): set<object> {
    (if p.presharedKey.Some? && p.presharedKey.value != null then {p.presharedKey.value as object} else {})
    + (if p.accessible.Some? then {p.accessible.value as object} else {})
  }

  function KeyValue(cell: KeyCell?): Option<Key>
    reads cell
  {
    if cell == null then None else Some(cell.key)
  }

  ghost function PatchValue(p: PatchRef): PatchRequest
    reads PatchMemory(p)
  {
    PatchRequest(p.listenPort, p.publicKey,
                 if p.presharedKey.Some? then Some(KeyValue(p.presharedKey.value)) else None,
                 p.keepalive,
                 if p.accessible.Some? then Some(p.accessible.value[..]) else None)
  }

  /** A device with the flagged fields of its public part replaced. */
  ghost function Amended(d: NetworkDevice, p: PatchRequest): NetworkDevice {
    d.(public := ApplyPatch(d.public, p))
  }

  method CopySlice<T>(a: array<T>) returns (b: array<T>)
    ensures fresh(b) && b[..] == a[..]
  {
    b := new T[a.Length](i requires 0 <= i < a.Length reads a => a[i]);
  }

  method CopyKey(cell: KeyCell?) returns (copy: KeyCell?)
    ensures copy == null <==> cell == null
    ensures copy != null ==> fresh(copy) && copy.key == cell.key
  {
    copy := null;
    if cell != null {
      copy := new KeyCell(cell.key);
    }
  }

  /** The memory of one NetworkDevice: an element of a slice, whose fields are assigned in place,
      with everything it points to. */
  class Device {
    var name: string
    var endpoints: array<string>
    var chosen: bool
    var usesForwarder: bool
    var endpointIndex: int
    var forwarderIndex: int
    var addresses: array<NetRef>
    var listenPort: int
    var publicKey: Key
    var presharedKey: KeyCell?
    var keepalive: int
    var accessible: array<string>
    var all: bool
    var only: array<string>
    /** Everything mutable that is reachable from here, and the value it holds. */
    ghost var Repr: set<object>
    ghost var Contents: NetworkDevice

    ghost predicate Valid()
      reads this, Repr
    {
      && this in Repr && endpoints in Repr && addresses in Repr && accessible in Repr && only in Repr
      && (presharedKey != null ==> presharedKey in Repr)
      && (forall i | 0 <= i < addresses.Length :: addresses[i].ip in Repr && addresses[i].mask in Repr)
      && HoldsNets(addresses, Contents.public.addresses)
      && Contents == NetworkDevice(
           CensoredDevice(name, endpoints[..], chosen, usesForwarder, endpointIndex, forwarderIndex,
                          Contents.public.addresses, listenPort, publicKey, KeyValue(presharedKey), keepalive,
                          accessible[..]),
           AccessControl(all, only[..]))
    }

    /** The composite literals of Clone, given the copies. */
    constructor (d: Device, endpoints: array<string>, addresses: array<NetRef>, ghost bytes: set<object>,
                 presharedKey: KeyCell?, accessible: array<string>, only: array<string>)
      requires d.Valid() && HoldsNets(addresses, d.Contents.public.addresses)
      requires forall i | 0 <= i < addresses.Length :: addresses[i].ip in bytes && addresses[i].mask in bytes
      requires endpoints[..] == d.endpoints[..] && only[..] == d.only[..] && accessible[..] == []
      requires KeyValue(presharedKey) == KeyValue(d.presharedKey)
      ensures Valid() && Contents == CloneNetworkDevice(d.Contents)
      ensures forall o | o in Repr ::
                o == this || o == endpoints || o == addresses || o == accessible || o == only || o == presharedKey
                  || o in bytes
    {
      this.name := d.name;
      this.endpoints := endpoints;
      this.chosen := d.chosen;
      this.usesForwarder := false;
      this.endpointIndex := d.endpointIndex;
      this.forwarderIndex := d.forwarderIndex;
      this.addresses := addresses;
      this.listenPort := d.listenPort;
      this.publicKey := d.publicKey;
      this.presharedKey := presharedKey;
      this.keepalive := d.keepalive;
      this.accessible := accessible;
      this.all := d.all;
      this.only := only;
      Repr := {this, endpoints, addresses, accessible, only} + bytes
              + (if presharedKey == null then {} else {presharedKey as object});
      Contents := CloneNetworkDevice(d.Contents);
    }

    method SetListenPort(port: Option<int>)
      requires Valid()
      modifies this
      ensures Valid() && Repr == old(Repr)
      ensures Contents == Amended(old(Contents), PatchRequest(port, None, None, None, None))
    {
      if port.Some? {
        listenPort := port.value;
        Contents := Contents.(public := Contents.public.(listenPort := port.value));
      }
    }

    method SetPublicKey(key: Option<Key>)
      requires Valid()
      modifies this
      ensures Valid() && Repr == old(Repr)
      ensures Contents == Amended(old(Contents), PatchRequest(None, key, None, None, None))
    {
      if key.Some? {
        publicKey := key.value;
        Contents := Contents.(public := Contents.public.(publicKey := key.value));
      }
    }

    /** The device now points to the key in the request. */
    method SetPresharedKey(key: Option<KeyCell?>)
      requires Valid()
      modifies this
      ensures Valid()
      ensures forall o | o in Repr :: o in old(Repr) || (key.Some? && o == key.value)
      ensures Contents
           == Amended(old(Contents),
                      PatchRequest(None, None, if key.Some? then Some(KeyValue(key.value)) else None, None, None))
    {
      if key.Some? {
        presharedKey := key.value;
        if key.value != null {
          Repr := Repr + {key.value};
        }
        Contents := Contents.(public := Contents.public.(presharedKey := KeyValue(key.value)));
      }
    }

    method SetKeepalive(interval: Option<int>)
      requires Valid()
      modifies this
      ensures Valid() && Repr == old(Repr)
      ensures Contents == Amended(old(Contents), PatchRequest(None, None, None, interval, None))
    {
      if interval.Some? {
        keepalive := interval.value;
        Contents := Contents.(public := Contents.public.(keepalive := interval.value));
      }
    }

    /** The flagged assignments of patchReifySpec before the check of the names. */
    method AssignScalars(p: PatchRef)
      requires Valid()
      modifies this
      ensures Valid()
      ensures forall o | o in Repr :: o in old(Repr) || o in PatchMemory(p)
      ensures Contents == Amended(old(Contents), PatchValue(p).(accessible := None))
    {
      SetListenPort(p.listenPort);
      SetPublicKey(p.publicKey);
      SetPresharedKey(p.presharedKey);
      SetKeepalive(p.keepalive);
    }

    /** The assignment after it: from now on the device shares the request's slice. */
    method AssignAccessible(names: array<string>)
      requires Valid()
      modifies this
      ensures Valid()
      ensures forall o | o in Repr :: o in old(Repr) || o == names
      ensures Contents == Amended(old(Contents), PatchRequest(None, None, None, None, Some(names[..])))
    {
      accessible := names;
      Repr := Repr + {names};
      Contents := Contents.(public := Contents.public.(accessible := names[..]));
    }
  }

  ghost predicate HoldsNets(refs: array<NetRef>, nets: seq<IPNet>)
    reads refs, set i | 0 <= i < refs.Length :: refs[i].ip, set i | 0 <= i < refs.Length :: refs[i].mask
  {
    refs.Length == |nets| && forall i | 0 <= i < refs.Length :: nets[i] == IPNet(refs[i].ip[..], refs[i].mask[..])
  }

  /** The loop over the addresses. */
  method CopyNets(nets: array<NetRef>, ghost vs: seq<IPNet>) returns (copies: array<NetRef>, ghost bytes: set<object>)
    requires HoldsNets(nets, vs)
    ensures fresh(copies) && fresh(bytes)
    ensures forall i | 0 <= i < copies.Length :: copies[i].ip in bytes && copies[i].mask in bytes
    ensures HoldsNets(copies, vs)
  {
    var cs: seq<NetRef> := [];
    bytes := {};
    for i := 0 to nets.Length
      invariant |cs| == i && fresh(bytes)
      invariant forall k | 0 <= k < i :: cs[k].ip in bytes && cs[k].mask in bytes
      invariant forall k | 0 <= k < i :: vs[k] == IPNet(cs[k].ip[..], cs[k].mask[..])
    {
      var ip := CopySlice(nets[i].ip);
      var mask := CopySlice(nets[i].mask);
      cs := cs + [NetRef(ip, mask)];
      bytes := bytes + {ip, mask};
    }
    copies := new NetRef[|cs|](i requires 0 <= i < |cs| => cs[i]);
  }

  /** NetworkDevice.Clone: Accessible and UsesForwarder are left out. */
  method CloneDeviceRef(d: Device) returns (c: Device)
    requires d.Valid()
    ensures c.Valid() && fresh(c.Repr)
    ensures c.Contents == CloneNetworkDevice(d.Contents)
  {
    var endpoints := CopySlice(d.endpoints);
    var key := CopyKey(d.presharedKey);
    var accessible := new string[0];
    assert accessible[..] == [];
    var only := CopySlice(d.only);
    var addresses, bytes := CopyNets(d.addresses, d.Contents.public.addresses);
    c := new Device(d, endpoints, addresses, bytes, key, accessible, only);
  }

  // ----- networks and specs -----

  /** A slice is the sequence of its elements' memory; its header is not assigned to anywhere. */
  datatype NetworkRef = NetworkRef(name: string, devices: seq<Device>)

  datatype SpecRef = SpecRef(networks: seq<NetworkRef>)

  /** The devices hold exactly these values. */
  ghost predicate DevicesHold(ds: seq<Device>, vs: seq<NetworkDevice>)
    reads *
  {
    |ds| == |vs| && forall i | 0 <= i < |ds| :: ds[i].Valid() && ds[i].Contents == vs[i]
  }

  ghost predicate Holds(s: SpecRef, v: Spec)
    reads *
  {
    && |s.networks| == |v.networks|
    && forall n | 0 <= n < |s.networks| ::
         s.networks[n].name == v.networks[n].name && DevicesHold(s.networks[n].devices, v.networks[n].devices)
  }

  /** No two elements share memory. */
  ghost predicate Apart(ds: seq<Device>)
    reads *
  {
    forall i, j | 0 <= i < |ds| && 0 <= j < |ds| && i != j :: ds[i] !in ds[j].Repr && ds[i].Repr !! ds[j].Repr
  }

  /** One round of the loop of Network.Clone. */
  method CloneOnto(cs: seq<Device>, d: Device) returns (c: Device)
    requires d.Valid() && Apart(cs)
    ensures c.Valid() && fresh(c.Repr) && c.Contents == CloneNetworkDevice(d.Contents)
    ensures Apart(cs + [c])
  {
    c := CloneDeviceRef(d);
  }

  /** The loop of Network.Clone. */
  method CloneDevices(ds: seq<Device>, ghost vs: seq<NetworkDevice>) returns (cs: seq<Device>)
    requires DevicesHold(ds, vs)
    ensures DevicesHold(cs, Map(CloneNetworkDevice, vs))
    ensures forall i | 0 <= i < |cs| :: fresh(cs[i].Repr)
    ensures Apart(cs)
  {
    cs := [];
    for i := 0 to |ds|
      invariant |cs| == i
      invariant forall k | 0 <= k < i :: cs[k].Valid() && cs[k].Contents == CloneNetworkDevice(vs[k])
      invariant forall k | 0 <= k < i :: fresh(cs[k].Repr) && allocated(cs[k].Repr)
      invariant Apart(cs)
    {
      var c := CloneOnto(cs, ds[i]);
      cs := cs + [c];
    }
  }

  /** Two slices share no memory with each other's elements. */
  ghost predicate Disjoint(a: seq<Device>, b: seq<Device>)
    reads *
  {
    forall i, j | 0 <= i < |a| && 0 <= j < |b| ::
      a[i] !in b[j].Repr && b[j] !in a[i].Repr && a[i].Repr !! b[j].Repr
  }

  ghost predicate AllApart(ns: seq<NetworkRef>)
    reads *
  {
    && (forall n | 0 <= n < |ns| :: Apart(ns[n].devices))
    && (forall n, m | 0 <= n < m < |ns| :: Disjoint(ns[n].devices, ns[m].devices))
  }

  /** Network.Clone, and that the clone is apart from what was there before. */
  method CloneNetworkOnto(ns: seq<NetworkRef>, n: NetworkRef, ghost v: Network) returns (c: NetworkRef)
    requires DevicesHold(n.devices, v.devices) && AllApart(ns)
    ensures c.name == n.name && DevicesHold(c.devices, Map(CloneNetworkDevice, v.devices))
    ensures forall i | 0 <= i < |c.devices| :: fresh(c.devices[i].Repr)
    ensures AllApart(ns + [c])
  {
    var devices := CloneDevices(n.devices, v.devices);
    c := NetworkRef(n.name, devices);
    ghost var longer := ns + [c];
    forall k, m | 0 <= k < m < |longer| ensures Disjoint(longer[k].devices, longer[m].devices) {
      if m < |ns| {
        assert Disjoint(ns[k].devices, ns[m].devices);
      }
    }
  }

  /** Spec.Clone */
  method CloneSpecRef(s: SpecRef, ghost v: Spec) returns (c: SpecRef)
    requires Holds(s, v)
    ensures Holds(c, CloneSpec(v))
    ensures forall n, i | 0 <= n < |c.networks| && 0 <= i < |c.networks[n].devices| ::
      fresh(c.networks[n].devices[i].Repr)
    ensures AllApart(c.networks)
  {
    var ns: seq<NetworkRef> := [];
    for i := 0 to |s.networks|
      invariant |ns| == i && AllApart(ns)
      invariant forall n | 0 <= n < i :: ns[n].name == v.networks[n].name
                                         && DevicesHold(ns[n].devices, Map(CloneNetworkDevice, v.networks[n].devices))
      invariant forall n, k | 0 <= n < i && 0 <= k < |ns[n].devices| :: fresh(ns[n].devices[k].Repr)
    {
      var c := CloneNetworkOnto(ns, s.networks[i], v.networks[i]);
      ns := ns + [c];
    }
    c := SpecRef(ns);
  }

  // ----- PATCH -----

  /** GetDeviceIndex */
  method FindDevice(ds: seq<Device>, dev: string, ghost vs: seq<NetworkDevice>) returns (i: int)
    requires DevicesHold(ds, vs)
    ensures i == DeviceIndex(vs, dev)
  {
    for k := 0 to |ds|
      invariant forall l | 0 <= l < k :: vs[l].public.name != dev
    {
      if ds[k].name == dev {
        return k;
      }
    }
    return -1;
  }

  /** The check of the names. */
  method AllKnown(ds: seq<Device>, names: array<string>, ghost n: Network) returns (ok: bool)
    requires DevicesHold(ds, n.devices)
    ensures ok <==> forall name | name in names[..] :: HasDevice(n, name)
  {
    for k := 0 to names.Length
      invariant forall name | name in names[..k] :: HasDevice(n, name)
    {
      var i := FindDevice(ds, names[k], n.devices);
      if i < 0 {
        assert names[k] in names[..];
        return false;
      }
      assert names[..k+1] == names[..k] + [names[k]];
    }
    assert names[..names.Length] == names[..];
    return true;
  }

  /** The assignments to one element of a slice. */
  method AssignIn(ds: seq<Device>, i: nat, p: PatchRef, ghost n: Network) returns (ok: bool)
    requires i < |ds| && DevicesHold(ds, n.devices) && Apart(ds)
    modifies ds[i]
    ensures ok <==> PatchAcceptable(n, PatchValue(p))
    ensures ok ==> DevicesHold(ds, n.devices[i := Amended(n.devices[i], PatchValue(p))])
    ensures forall o | o in ds[i].Repr :: o in old(ds[i].Repr) || o in PatchMemory(p)
  {
    ok := true;
    if p.accessible.Some? {
      ok := AllKnown(ds, p.accessible.value, n);
    }
    AssignFields(ds[i], p, ok);
  }

  /** All assignments, or only those before a name was found to be unknown. */
  method AssignFields(d: Device, p: PatchRef, ok: bool)
    requires d.Valid()
    modifies d
    ensures d.Valid()
    ensures ok ==> d.Contents == Amended(old(d.Contents), PatchValue(p))
    ensures forall o | o in d.Repr :: o in old(d.Repr) || o in PatchMemory(p)
  {
    d.AssignScalars(p);
    if ok && p.accessible.Some? {
      d.AssignAccessible(p.accessible.value);
    }
  }

  /** A spec with one device replaced. */
  ghost function WithDevice(v: Spec, nI: nat, dI: nat, d: NetworkDevice): Spec
    requires nI < |v.networks| && dI < |v.networks[nI].devices|
  {
    var n := v.networks[nI];
    v.(networks := v.networks[nI := n.(devices := n.devices[dI := d])])
  }

  /** The same in a spec all of whose devices are apart. */
  method AssignTo(c: SpecRef, nI: nat, dI: nat, p: PatchRef, ghost v: Spec) returns (ok: bool)
    requires Holds(c, v) && AllApart(c.networks) && nI < |c.networks| && dI < |c.networks[nI].devices|
    modifies c.networks[nI].devices[dI]
    ensures ok <==> PatchAcceptable(v.networks[nI], PatchValue(p))
    ensures ok ==> Holds(c, WithDevice(v, nI, dI, Amended(v.networks[nI].devices[dI], PatchValue(p))))
    ensures var d := c.networks[nI].devices[dI]; forall o | o in d.Repr :: o in old(d.Repr) || o in PatchMemory(p)
  {
    var ds := c.networks[nI].devices;
    forall m | 0 <= m < |c.networks| && m != nI
      ensures forall j | 0 <= j < |c.networks[m].devices| :: ds[dI] !in c.networks[m].devices[j].Repr
    {
      assert Disjoint(c.networks[if m < nI then m else nI].devices, c.networks[if m < nI then nI else m].devices);
    }
    ok := AssignIn(ds, dI, p, v.networks[nI]);
    forall m | 0 <= m < |c.networks| && m != nI ensures DevicesHold(c.networks[m].devices, v.networks[m].devices) {
      assert old(DevicesHold(c.networks[m].devices, v.networks[m].devices));
    }
  }

  lemma PatchedIsWithDevice(v: Spec, net: string, dev: string, p: PatchRequest)
    requires Known(v, net, dev)
    ensures var nI := NetworkIndex(v, net); var dI := DeviceIndex(v.networks[nI].devices, dev);
      && PatchedSpec(v, net, dev, p)
         == WithDevice(CloneSpec(v), nI, dI, Amended(CloneNetworkDevice(v.networks[nI].devices[dI]), p))
      && (PatchAcceptable(CloneSpec(v).networks[nI], p) <==> PatchAcceptable(GetNetwork(v, net), p))
  {
    CloneAcceptable(GetNetwork(v, net), p);
  }

  method PatchClone(s: SpecRef, nI: nat, dI: nat, p: PatchRef, ghost v: Spec) returns (ok: bool, c: SpecRef)
    requires Holds(s, v) && nI < |v.networks| && dI < |v.networks[nI].devices|
    ensures Holds(s, v)
    ensures ok <==> PatchAcceptable(CloneSpec(v).networks[nI], PatchValue(p))
    ensures ok ==>
      Holds(c,
            WithDevice(CloneSpec(v), nI, dI, Amended(CloneNetworkDevice(v.networks[nI].devices[dI]), PatchValue(p))))
    ensures forall n, i | 0 <= n < |c.networks| && 0 <= i < |c.networks[n].devices| ::
              forall o | o in c.networks[n].devices[i].Repr :: o in PatchMemory(p) || fresh(o)
  {
    c := CloneSpecRef(s, v);
    ghost var d := c.networks[nI].devices[dI];
    assert DevicesHold(c.networks[nI].devices, CloneSpec(v).networks[nI].devices);
    assert d.Valid() && fresh(d.Repr) && fresh(d);
    ok := AssignTo(c, nI, dI, p, CloneSpec(v));
  }

  /** patchReifySpec on the heap: clone the spec and assign to one device of the clone. The source
      holds the same values as before, which the comparison that follows relies on; and what the
      clone reaches is new, or came with the request. */
  method PatchOnHeap(s: SpecRef, net: string, dev: string, p: PatchRef, ghost v: Spec) returns (r: Option<SpecRef>)
    requires Holds(s, v)
    ensures Holds(s, v)
    ensures r.Some? <==> Known(v, net, dev) && PatchAcceptable(GetNetwork(v, net), PatchValue(p))
    ensures r.Some? ==> Holds(r.value, PatchedSpec(v, net, dev, PatchValue(p)))
    ensures r.Some? ==> forall n, i | 0 <= n < |r.value.networks| && 0 <= i < |r.value.networks[n].devices| ::
                          forall o | o in r.value.networks[n].devices[i].Repr :: o in PatchMemory(p) || fresh(o)
  {
    var nI := FirstIndex(s.networks, (n: NetworkRef) => n.name == net);
    assert nI == NetworkIndex(v, net);
    if nI < 0 {
      return None;
    }
    var dI := FindDevice(s.networks[nI].devices, dev, v.networks[nI].devices);
    if dI < 0 {
      return None;
    }
    PatchedIsWithDevice(v, net, dev, PatchValue(p));
    var ok, c := PatchClone(s, nI, dI, p, v);
    return if ok then Some(c) else None;
  }
}
