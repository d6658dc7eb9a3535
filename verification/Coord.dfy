/** coord/server.go and coord/update.go: the coordination server. Each HTTP handler is a method
    of the class Server, proved against the function Serve on abstract states; in these the
    lists of `latest` are multisets, since only membership is ever asked of them. */
module Coord {
  import opened Prelude
  import opened Orders
  import opened NetAddr
  import opened Specs
  import SetOps

  /** PatchReifySpecRequest: None stands for a cleared "Set" flag. */
  datatype PatchRequest = PatchRequest(
    listenPort: Option<int>,
    publicKey: Option<Key>,
    presharedKey: Option<Option<Key>>,
    keepalive: Option<int>,
    accessible: Option<seq<string>>)

  datatype Request =
    | GetLatest(net: string, dev: string)
    | GetSpec(net: string, dev: string)
    | PatchSpec(net: string, dev: string, patch: PatchRequest)
    | PostStatus(net: string, dev: string, reified: CensoredNetwork)
    | ReplaceSpec(spec: Spec)  // updateSpec, called by the server itself

  datatype Response =
    | NotFound
    | BadRequest
    | Done
    | IsLatest(latest: bool)
    | View(view: CensoredNetwork)

  type Index = map<string, multiset<string>>

  datatype ServerState = ServerState(spec: Spec, latest: Index)

  /** The entry of a network; a missing one reads as empty. */
  function Entry(latest: Index, net: string): multiset<string> {
    if net in latest then latest[net] else multiset{}
  }

  // ----- updateSpecNoLock -----

  /** Is device `name` in both versions of a network, with Equal views? */
  predicate Keeps(oldNet: Network, newNet: Network, name: string) {
    && HasDevice(newNet, name)
    && HasDevice(oldNet, name)
    && ViewEqual(Censored(oldNet, name), Censored(newNet, name))
  }

  /** The names, among the first `k` devices of the new version, that the index may keep. */
  function Kept(oldNet: Network, newNet: Network, k: nat): seq<string>
    requires k <= |newNet.devices|
  {
    if k == 0 then []
    else
      var name := newNet.devices[k-1].public.name;
      Kept(oldNet, newNet, k - 1) + (if Keeps(oldNet, newNet, name) then [name] else [])
  }

  /** The index after the first `k` networks of the old spec have been looked for in the new one. */
  function WithoutRemoved(latest: Index, oldSpec: Spec, newSpec: Spec, k: nat): Index
    requires k <= |oldSpec.networks|
  {
    if k == 0 then latest
    else
      var name := oldSpec.networks[k-1].name;
      var r := WithoutRemoved(latest, oldSpec, newSpec, k - 1);
      if HasNetwork(newSpec, name) then r else r - {name}
  }

  function ReindexOne(latest: Index, oldSpec: Spec, newNet: Network): Index {
    if HasNetwork(oldSpec, newNet.name) then
      var keep := multiset(Kept(GetNetwork(oldSpec, newNet.name), newNet, |newNet.devices|));
      latest[newNet.name := keep * Entry(latest, newNet.name)]
    else latest
  }

  /** The index after the first `k` networks of the new spec have been handled. */
  function Reindexed(latest: Index, oldSpec: Spec, newSpec: Spec, k: nat): Index
    requires k <= |newSpec.networks|
  {
    if k == 0 then WithoutRemoved(latest, oldSpec, newSpec, |oldSpec.networks|)
    else ReindexOne(Reindexed(latest, oldSpec, newSpec, k - 1), oldSpec, newSpec.networks[k-1])
  }

  function Updated(st: ServerState, newSpec: Spec): ServerState {
    ServerState(newSpec, Reindexed(st.latest, st.spec, newSpec, |newSpec.networks|))
  }

  // ----- patchReifySpec -----

  function ApplyPatch(d: CensoredDevice, p: PatchRequest): CensoredDevice {
    d.(listenPort := if p.listenPort.Some? then p.listenPort.value else d.listenPort,
       publicKey := if p.publicKey.Some? then p.publicKey.value else d.publicKey,
       presharedKey := if p.presharedKey.Some? then p.presharedKey.value else d.presharedKey,
       keepalive := if p.keepalive.Some? then p.keepalive.value else d.keepalive,
       accessible := if p.accessible.Some? then p.accessible.value else d.accessible)
  }

  predicate PatchAcceptable(n: Network, p: PatchRequest) {
    p.accessible.Some? ==> forall name | name in p.accessible.value :: HasDevice(n, name)
  }

  predicate Known(s: Spec, net: string, dev: string) {
    HasNetwork(s, net) && HasDevice(GetNetwork(s, net), dev)
  }

  /** The clone of the spec with the flagged fields of one device replaced. */
  function PatchedSpec(s: Spec, net: string, dev: string, p: PatchRequest): Spec
    requires Known(s, net, dev)
  {
    var nI := NetworkIndex(s, net);
    var dI := DeviceIndex(s.networks[nI].devices, dev);
    var devices := Map(CloneNetworkDevice, s.networks[nI].devices);
    var changed := devices[dI].(public := ApplyPatch(devices[dI].public, p));
    Spec(CloneSpec(s).networks[nI := Network(net, devices[dI := changed])])
  }

  // ----- the handlers -----

  function ServeLatest(st: ServerState, net: string, dev: string): Response {
    if !Known(st.spec, net, dev) then NotFound
    else IsLatest(dev in Entry(st.latest, net))
  }

  function ServeSpec(st: ServerState, net: string, dev: string): Response {
    match CurrentView(st.spec, net, dev)
    case None => NotFound
    case Some(view) => View(view)
  }

  function ServePatch(st: ServerState, net: string, dev: string, p: PatchRequest): (ServerState, Response) {
    if !Known(st.spec, net, dev) then (st, NotFound)
    else if !PatchAcceptable(GetNetwork(st.spec, net), p) then (st, BadRequest)
    else (Updated(st, PatchedSpec(st.spec, net, dev, p)), Done)
  }

  /** A report that does not match leaves everything as it is; in particular it does not take
      the device out of the index. */
  function ServePost(st: ServerState, net: string, dev: string, reified: CensoredNetwork): (ServerState, Response) {
    match CurrentView(st.spec, net, dev)
    case None => (st, NotFound)
    case Some(view) =>
      if !ViewEqual(reified, view) then (st, IsLatest(false))
      else (st.(latest := st.latest[net := Entry(st.latest, net) + multiset{dev}]), IsLatest(true))
  }

  /** One request served without interruption. */
  function Serve(st: ServerState, r: Request): (ServerState, Response) {
    match r
    case GetLatest(net, dev) => (st, ServeLatest(st, net, dev))
    case GetSpec(net, dev) => (st, ServeSpec(st, net, dev))
    case PatchSpec(net, dev, p) => ServePatch(st, net, dev, p)
    case PostStatus(net, dev, reified) => ServePost(st, net, dev, reified)
    case ReplaceSpec(newSpec) => (Updated(st, newSpec), Done)
  }

  lemma CloneLookup(s: Spec, net: string)
    ensures NetworkIndex(CloneSpec(s), net) == NetworkIndex(s, net)
    ensures HasNetwork(s, net) ==> GetNetwork(CloneSpec(s), net) == CloneNetwork(GetNetwork(s, net))
  {
    var i, j := NetworkIndex(CloneSpec(s), net), NetworkIndex(s, net);
    assert forall k | 0 <= k < |s.networks| :: CloneSpec(s).networks[k].name == s.networks[k].name;
    assert i >= 0 ==> s.networks[i].name == net;
    assert j >= 0 ==> CloneSpec(s).networks[j].name == net;
  }

  lemma CloneDeviceLookup(n: Network, dev: string)
    ensures DeviceIndex(CloneNetwork(n).devices, dev) == DeviceIndex(n.devices, dev)
  {
    var c := CloneNetwork(n).devices;
    var i, j := DeviceIndex(c, dev), DeviceIndex(n.devices, dev);
    assert forall k | 0 <= k < |c| :: c[k].public.name == n.devices[k].public.name;
    assert i >= 0 ==> n.devices[i].public.name == dev;
    assert j >= 0 ==> c[j].public.name == dev;
  }

  lemma CloneAcceptable(n: Network, p: PatchRequest)
    ensures PatchAcceptable(CloneNetwork(n), p) <==> PatchAcceptable(n, p)
  {
    forall name ensures HasDevice(CloneNetwork(n), name) <==> HasDevice(n, name) {
      CloneDeviceLookup(n, name);
    }
  }

  class Server {
    var spec: Spec
    /** Which devices have applied the latest spec, by network. */
    var latest: map<string, seq<string>>

    ghost function State(): ServerState
      reads this
    {
      ServerState(spec, Abstract(latest))
    }

    static ghost function Abstract(latest: map<string, seq<string>>): Index {
      map n | n in latest :: multiset(latest[n])
    }

    constructor (spec: Spec)
      ensures State() == ServerState(spec, map[])
    {
      this.spec := spec;
      this.latest := map[];
    }

    /** The inner loop of updateSpecNoLock. */
    static method KeepUnchanged(oldNet: Network, newNet: Network) returns (keep: seq<string>)
      ensures keep == Kept(oldNet, newNet, |newNet.devices|)
    {
      keep := [];
      for i := 0 to |newNet.devices|
        invariant keep == Kept(oldNet, newNet, i)
      {
        var name := newNet.devices[i].public.name;
        if DeviceIndex(oldNet.devices, name) >= 0 {
          var oldView := CensorForDevice(oldNet, name);
          var newView := CensorForDevice(newNet, name);
          if ViewEqual(oldView, newView) {
            keep := keep + [name];
          }
        }
      }
    }

    /** sliceUnion on two slices of names; the order in which it leaves them is not used. */
    static method Common(a: seq<string>, b: seq<string>) returns (r: seq<string>)
      ensures multiset(r) == multiset(a) * multiset(b)
    {
      var x := new string[|a|](i requires 0 <= i < |a| => a[i]);
      var y := new string[|b|](i requires 0 <= i < |b| => b[i]);
      assert x[..] == a && y[..] == b;
      StringLessTotal();
      r := SetOps.SliceUnion(x, y, StringLess);
    }

    static lemma AbstractUpdate(latest: map<string, seq<string>>, n: string, names: seq<string>)
      ensures Abstract(latest[n := names]) == Abstract(latest)[n := multiset(names)]
      ensures Abstract(latest - {n}) == Abstract(latest) - {n}
      ensures Entry(Abstract(latest), n) == multiset(if n in latest then latest[n] else [])
    {
    }

    /** The first loop of updateSpecNoLock. */
    method DropRemoved(newSpec: Spec)
      modifies this`latest
      ensures Abstract(latest) == WithoutRemoved(old(Abstract(latest)), spec, newSpec, |spec.networks|)
    {
      for i := 0 to |spec.networks|
        invariant Abstract(latest) == WithoutRemoved(old(Abstract(latest)), spec, newSpec, i)
      {
        var name := spec.networks[i].name;
        if NetworkIndex(newSpec, name) < 0 {
          AbstractUpdate(latest, name, []);
          latest := latest - {name};
        }
      }
    }

    /** The body of the second loop of updateSpecNoLock. */
    method Reindex(newNet: Network)
      modifies this`latest
      ensures Abstract(latest) == ReindexOne(old(Abstract(latest)), spec, newNet)
    {
      var j := NetworkIndex(spec, newNet.name);
      if j >= 0 {
        var keep := KeepUnchanged(spec.networks[j], newNet);
        var had := if newNet.name in latest then latest[newNet.name] else [];
        var common := Common(keep, had);
        AbstractUpdate(latest, newNet.name, common);
        latest := latest[newNet.name := common];
      }
    }

    method UpdateSpecNoLock(newSpec: Spec)
      modifies this
      ensures State() == Updated(old(State()), newSpec)
    {
      DropRemoved(newSpec);
      for i := 0 to |newSpec.networks|
        invariant spec == old(spec)
        invariant Abstract(latest) == Reindexed(old(Abstract(latest)), spec, newSpec, i)
      {
        Reindex(newSpec.networks[i]);
      }
      spec := newSpec;
    }

    method GetReifyLatest(net: string, dev: string) returns (r: Response)
      ensures (State(), r) == Serve(State(), GetLatest(net, dev))
    {
      if !Known(spec, net, dev) {
        return NotFound;
      }
      return IsLatest(net in latest && dev in latest[net]);
    }

    method GetReifySpec(net: string, dev: string) returns (r: Response)
      ensures (State(), r) == Serve(State(), GetSpec(net, dev))
    {
      if !Known(spec, net, dev) {
        return NotFound;
      }
      var view := CensorForDevice(spec.networks[NetworkIndex(spec, net)], dev);
      return View(view);
    }

    /** The flagged assignments of patchReifySpec to the device's fields. */
    static method AssignFields(device: CensoredDevice, p: PatchRequest) returns (d: CensoredDevice)
      ensures d == ApplyPatch(device, p)
    {
      d := device;
      if p.listenPort.Some? {
        d := d.(listenPort := p.listenPort.value);
      }
      if p.publicKey.Some? {
        d := d.(publicKey := p.publicKey.value);
      }
      if p.presharedKey.Some? {
        d := d.(presharedKey := p.presharedKey.value);
      }
      if p.keepalive.Some? {
        d := d.(keepalive := p.keepalive.value);
      }
      if p.accessible.Some? {
        d := d.(accessible := p.accessible.value);
      }
    }

    /** The check that Accessible names only devices of the network. */
    static method CheckAccessible(n: Network, p: PatchRequest) returns (ok: bool)
      ensures ok <==> PatchAcceptable(n, p)
    {
      if p.accessible.Some? {
        for i := 0 to |p.accessible.value|
          invariant forall k | 0 <= k < i :: HasDevice(n, p.accessible.value[k])
        {
          if DeviceIndex(n.devices, p.accessible.value[i]) < 0 {
            assert p.accessible.value[i] in p.accessible.value;
            return false;
          }
        }
      }
      return true;
    }

    method PatchReifySpec(net: string, dev: string, p: PatchRequest) returns (r: Response)
      modifies this
      ensures (State(), r) == Serve(old(State()), PatchSpec(net, dev, p))
    {
      if !Known(spec, net, dev) {
        return NotFound;
      }
      var newSpec := SpecClone(spec);
      CloneLookup(spec, net);
      var nI := NetworkIndex(newSpec, net);
      var n := newSpec.networks[nI];
      CloneDeviceLookup(GetNetwork(spec, net), dev);
      var dI := DeviceIndex(n.devices, dev);
      CloneAcceptable(GetNetwork(spec, net), p);
      var ok := CheckAccessible(n, p);
      if !ok {
        return BadRequest;
      }
      var d := AssignFields(n.devices[dI].public, p);
      n := n.(devices := n.devices[dI := n.devices[dI].(public := d)]);
      newSpec := Spec(newSpec.networks[nI := n]);
      UpdateSpecNoLock(newSpec);
      return Done;
    }

    method PostReifyStatus(net: string, dev: string, reified: CensoredNetwork) returns (r: Response)
      modifies this
      ensures (State(), r) == Serve(old(State()), PostStatus(net, dev, reified))
    {
      if !Known(spec, net, dev) {
        return NotFound;
      }
      var view := CensorForDevice(spec.networks[NetworkIndex(spec, net)], dev);
      if !ViewEqual(reified, view) {
        return IsLatest(false);
      }
      var had := if net in latest then latest[net] else [];
      AbstractUpdate(latest, net, had + [dev]);
      latest := latest[net := had + [dev]];
      return IsLatest(true);
    }
  }
}
