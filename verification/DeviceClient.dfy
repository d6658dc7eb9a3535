/** device/client.go and device/continuous.go: one device bringing itself up to date. The class
    Client is the code, down to the applier and the kernel; the function Reify says what one call
    of ReifySpec does to the server and the client when nobody else acts in between. */
module DeviceClient {
  import opened Prelude
  import opened NetAddr
  import opened Specs
  import opened Coord
  import opened Compile
  import opened Choosing
  import Apply
  import Appliers
  import Kernels
  import Dns
  import Orders

  /** Public-key derivation, of which nothing is assumed. */
  type Derivation = Key -> Key

  datatype Identity = Identity(net: string, dev: string)

  datatype ClientState = ClientState(id: Identity, key: Key, canForward: bool)

  /** Does the DNS server, if there is one, take the view, and does the kernel accept the machine? */
  datatype Verdict = Verdict(publishes: bool, applies: bool)

  const ACCEPTED := Verdict(true, true)

  /** What one call meets outside: pings and random numbers, the key it would generate, and what
      becomes of the planned view. */
  datatype Round = Round(env: Surroundings, newKey: Key, verdict: Verdict)

  datatype Outcome =
    | Reified(latest: bool)
    | RequestFailed
    | PublishFailed
    | ApplyFailed
    | Crashed  // a Go panic

  // ----- the phases on a local view -----

  /** getSpec: decoding leaves the choice fields cleared. */
  function Decoded(v: CensoredNetwork): CensoredNetwork {
    v.(devices := Map(Wire, v.devices))
  }

  /** Does the view survive the round trip as far as Equal can tell? */
  predicate Faithful(v: CensoredNetwork) {
    forall i | 0 <= i < |v.devices| :: AllReadBack(v.devices[i].addresses)
  }

  /** The local device replaced. */
  function SetOwn(v: CensoredNetwork, own: nat, d: CensoredDevice): CensoredNetwork
    requires own < |v.devices|
  {
    v.(devices := v.devices[own := d])
  }

  function WithKey(v: CensoredNetwork, own: nat, publicKey: Key): CensoredNetwork
    requires own < |v.devices|
  {
    SetOwn(v, own, v.devices[own].(publicKey := publicKey))
  }

  function WithChoices(v: CensoredNetwork, own: nat, env: Surroundings): CensoredNetwork {
    v.(devices := Choose(v.devices, own, env))
  }

  /** The names of the chosen devices among the first `n`. */
  function ChosenNames(devs: Devices, n: nat): seq<string>
    requires n <= |devs|
  {
    if n == 0 then []
    else ChosenNames(devs, n - 1) + (if devs[n-1].chosen then [devs[n-1].name] else [])
  }

  /** What the device announces: everything it has chosen, or nothing if it cannot forward. */
  function Announced(devs: Devices, canForward: bool): seq<string> {
    if canForward then ChosenNames(devs, |devs|) else []
  }

  function WithAccessible(v: CensoredNetwork, own: nat, names: seq<string>): CensoredNetwork
    requires own < |v.devices|
  {
    SetOwn(v, own, v.devices[own].(accessible := names))
  }

  /** Applying sorts the interface addresses in place, and these are the addresses of the local
      device in the view that is posted afterwards. */
  function WithSortedOwn(v: CensoredNetwork, own: nat): CensoredNetwork
    requires own < |v.devices|
  {
    SetOwn(v, own, v.devices[own].(addresses := SortNets(v.devices[own].addresses)))
  }

  const NO_PATCH := PatchRequest(None, None, None, None, None)

  function KeyPatch(publicKey: Key): PatchRequest { NO_PATCH.(publicKey := Some(publicKey)) }

  function AccessPatch(names: seq<string>): PatchRequest { NO_PATCH.(accessible := Some(names)) }

  /** Everything a call decides from the fetched view: the patches it sends and the view it
      compiles and applies. */
  datatype Plan = Plan(keyPatch: Option<PatchRequest>, accessPatch: Option<PatchRequest>, view: CensoredNetwork)

  function MakePlan(fetched: CensoredNetwork, own: nat, publicKey: Key, canForward: bool, env: Surroundings): (p: Plan)
    requires own < |fetched.devices|
    ensures |p.view.devices| == |fetched.devices|
  {
    var v0 := Decoded(fetched);
    var v1 := WithKey(v0, own, publicKey);
    var v2 := WithChoices(v1, own, env);
    var names := Announced(v2.devices, canForward);
    Plan(KeyRequest(v0, own, publicKey), AccessRequest(v2, own, names), WithAccessible(v2, own, names))
  }

  /** The PATCH of updateMyKeys, if the spec has another public key. */
  function KeyRequest(v: CensoredNetwork, own: nat, publicKey: Key): Option<PatchRequest>
    requires own < |v.devices|
  {
    if v.devices[own].publicKey == publicKey then None else Some(KeyPatch(publicKey))
  }

  /** The PATCH of patchAccessible, if the list differs from the fetched one. */
  function AccessRequest(v: CensoredNetwork, own: nat, names: seq<string>): Option<PatchRequest>
    requires own < |v.devices|
  {
    if v.devices[own].accessible == names then None else Some(AccessPatch(names))
  }

  // ----- one call of ReifySpec -----

  function Send(srv: ServerState, id: Identity, p: Option<PatchRequest>): (ServerState, Response) {
    if p.None? then (srv, Done) else ServePatch(srv, id.net, id.dev, p.value)
  }

  function KeyInUse(c: ClientState, r: Round): Key {
    if c.key == UNSET_KEY then r.newKey else c.key
  }

  function Reported(srv: ServerState, id: Identity, v: CensoredNetwork): (ServerState, Outcome) {
    var (srv', resp) := ServePost(srv, id.net, id.dev, Decoded(v));
    (srv', if resp.IsLatest? then Reified(resp.latest) else RequestFailed)
  }

  /** Hand the view to the DNS server, then compile, apply and report. */
  function Finish(srv: ServerState, id: Identity, v: CensoredNetwork, own: nat, verdict: Verdict):
    (ServerState, Outcome)
    requires own < |v.devices|
  {
    if !verdict.publishes then (srv, PublishFailed) else CompileAndReport(srv, id, v, own, verdict.applies)
  }

  function CompileAndReport(srv: ServerState, id: Identity, v: CensoredNetwork, own: nat, applies: bool):
    (ServerState, Outcome)
    requires own < |v.devices|
  {
    match CompileSpec([v], id.dev, true)
    case Failed(_) => (srv, Crashed)
    case Compiled(m) =>
      if m.interfaces == [] then (srv, Crashed) else AppliedOrNot(srv, id, v, own, applies, m.forwardsIPv6)
  }

  function AppliedOrNot(srv: ServerState, id: Identity, v: CensoredNetwork, own: nat, applies: bool, v6: bool):
    (ServerState, Outcome)
    requires own < |v.devices|
  {
    if !applies then (srv, ApplyFailed)
    else if v6 then (srv, Crashed)
    else Reported(srv, id, WithSortedOwn(v, own))
  }

  lemma EndsFrom(srv: ServerState, id: Identity, v: CensoredNetwork, own: nat, applies: bool)
    requires own < |v.devices|
    ensures CompileAndReport(srv, id, v, own, applies)
         == match CompileNetwork(v, id.dev, true)
            case Built(_, _, v6) => AppliedOrNot(srv, id, v, own, applies, v6)
            case _ => (srv, Crashed)
  {
    OneNetwork(v, id.dev);
  }

  /** The patches, if any, and then the rest. */
  function Execute(srv: ServerState, id: Identity, p: Plan, own: nat, verdict: Verdict): (ServerState, Outcome)
    requires own < |p.view.devices|
  {
    var (srv1, resp1) := Send(srv, id, p.keyPatch);
    if resp1 != Done then (srv1, RequestFailed)
    else
      var (srv2, resp2) := Send(srv1, id, p.accessPatch);
      if resp2 != Done then (srv2, RequestFailed)
      else Finish(srv2, id, p.view, own, verdict)
  }

  function Reify(srv: ServerState, c: ClientState, pub: Derivation, r: Round): (ServerState, ClientState, Outcome) {
    match CurrentView(srv.spec, c.id.net, c.id.dev)
    case None => (srv, c, RequestFailed)
    case Some(fetched) =>
      var own := ViewIndex(fetched.devices, c.id.dev);
      if own < 0 then (srv, c, Crashed)
      else
        var c' := c.(key := KeyInUse(c, r));
        var (srv', o) := Execute(srv, c.id, MakePlan(fetched, own, pub(c'.key), c.canForward, r.env), own, r.verdict);
        (srv', c', o)
  }

  // ----- when the kernel accepts -----

  /** The WireGuard configuration of a compiled interface with the client's key, if WireGuard takes it. */
  function ConfigOf(out: Kernels.Outside, iface: Interface, key: Key): Option<Kernels.Config> {
    Apply.Configuration(out, iface.name, key, iface.listenPort, iface.peers)
  }

  function WantOf(out: Kernels.Outside, iface: Interface, key: Key): Appliers.Want {
    Appliers.Want(iface.name, ConfigOf(out, iface, key), multiset(iface.addresses), multiset(Apply.Routed(iface.peers)))
  }

  /** Can the kernel be brought to the interface? The name of a new link must be short enough, all
      endpoints must resolve and WireGuard must take the configuration, and no missing address or
      route may be asked for twice. */
  predicate Accepts(out: Kernels.Outside, links: map<string, Kernels.Link>, iface: Interface, key: Key) {
    && (iface.name in links || |iface.name| <= 15)
    && Appliers.CanReach(Appliers.LinkOf(links, iface.name), WantOf(out, iface, key))
  }

  predicate ViewAccepted(out: Kernels.Outside, links: map<string, Kernels.Link>, v: CensoredNetwork, dev: string,
                         key: Key)
  {
    match CompileNetwork(v, dev, true)
    case Built(iface, _, _) => Accepts(out, links, iface, key)
    case _ => false
  }

  /** Everything outside of server, client and kernel that a call meets. */
  datatype Circumstances = Circumstances(env: Surroundings, newKey: Key, out: Kernels.Outside, dnsAnswers: bool)

  /** What a call meets when its kernel has these links: whether the machine is accepted depends on
      the view that is going to be compiled. */
  function RoundOn(links: map<string, Kernels.Link>, hasDns: bool, srv: ServerState, c: ClientState, pub: Derivation,
                   cs: Circumstances): Round
  {
    var applies :=
      match PlannedView(srv, c, pub, cs)
      case None => false
      case Some(view) => ViewAccepted(cs.out, links, view, c.id.dev, KeyOf(c, cs));
    Round(cs.env, cs.newKey, Verdict(hasDns ==> cs.dnsAnswers, applies))
  }

  function KeyOf(c: ClientState, cs: Circumstances): Key {
    if c.key == UNSET_KEY then cs.newKey else c.key
  }

  /** The view that a call would compile, unless it fails before. */
  function PlannedView(srv: ServerState, c: ClientState, pub: Derivation, cs: Circumstances):
    (view: Option<CensoredNetwork>)
    ensures view.Some? <==> SeesItself(srv.spec, c.id.net, c.id.dev)
  {
    match CurrentView(srv.spec, c.id.net, c.id.dev)
    case None => None
    case Some(v) =>
      var own := ViewIndex(v.devices, c.id.dev);
      if own < 0 then None else Some(MakePlan(v, own, pub(KeyOf(c, cs)), c.canForward, cs.env).view)
  }

  /** The machine of a single network. */
  lemma OneNetwork(v: CensoredNetwork, dev: string)
    ensures CompileSpec([v], dev, true)
         == match CompileNetwork(v, dev, true)
            case Absent => Compiled(Machine([], false, false))
            case Broken(f) => Failed(f)
            case Built(iface, v4, v6) => Compiled(Machine([iface], v4, v6))
  {
    var os := Outcomes([v], dev, true);
    assert AllJoined(os, 1) == Joined(AllJoined(os, 0), os[0]);
  }

  /** The planned view keeps the name of the network and the position of the local device. */
  lemma PlanKeepsNames(v: CensoredNetwork, own: nat, publicKey: Key, canForward: bool, env: Surroundings, name: string)
    requires own < |v.devices|
    ensures var w := MakePlan(v, own, publicKey, canForward, env).view;
      w.name == v.name && ViewIndex(w.devices, name) == ViewIndex(v.devices, name)
  {
    var start := WithKey(Decoded(v), own, publicKey).devices;
    ForwardersRanked(start, own, env);
    var w := MakePlan(v, own, publicKey, canForward, env).view.devices;
    assert OnlyChoices(start, Choose(start, own, env), own);
    forall k | 0 <= k < |w| ensures w[k].name == v.devices[k].name {
      assert start[k].name == v.devices[k].name;
    }
    assert ViewIndex(w, name) >= 0 ==> v.devices[ViewIndex(w, name)].name == name;
    assert ViewIndex(v.devices, name) >= 0 ==> w[ViewIndex(v.devices, name)].name == name;
  }

  // ----- the code -----

  class Client {
    const id: Identity
    const canForward: bool
    var privateKey: Key
    /** The view last compiled. */
    var spec: seq<CensoredNetwork>
    /** The DNS server that gets it, if any. */
    var dns: Dns.Server?
    const applier: Appliers.Applier
    /** The kernel behind the applier's handles. */
    const kernel: Kernels.Kernel

    constructor (id: Identity, privateKey: Key, canForward: bool, readWriteProc: bool, kernel: Kernels.Kernel)
      ensures this.id == id && this.canForward == canForward && this.privateKey == privateKey && spec == []
        && dns == null
      ensures this.kernel == kernel && fresh(applier) && ManagesOwn()
    {
      this.id := id;
      this.canForward := canForward;
      this.privateKey := privateKey;
      spec := [];
      dns := null;
      this.kernel := kernel;
      applier := new Appliers.Applier([], readWriteProc);
    }

    /** The applier has never been given anything but the client's one network. */
    ghost predicate ManagesOwn()
      reads applier
    {
      forall n | n in applier.managedInterfaces :: n == id.net
    }

    ghost function State(): ClientState
      reads this
    {
      ClientState(id, privateKey, canForward)
    }

    method SetDNSClient(dns: Dns.Server?)
      modifies this`dns
      ensures this.dns == dns
    {
      this.dns := dns;
    }

    method UpdateDNS(dnsAnswers: bool) returns (ok: bool)
      modifies dns
      ensures ok <==> (dns != null ==> dnsAnswers)
      ensures ok && dns != null ==> dns.spec == Some(spec)
      ensures !ok && dns != null ==> dns.spec == old(dns.spec)
    {
      if dns == null {
        return true;
      }
      if dnsAnswers {
        dns.UpdateSpec(spec);
      }
      return dnsAnswers;
    }

    /** The loop of patchAccessible. */
    method ListAccessible(devs: Devices) returns (names: seq<string>)
      ensures names == Announced(devs, canForward)
    {
      names := [];
      if canForward {
        for i := 0 to |devs|
          invariant names == ChosenNames(devs, i)
        {
          if devs[i].chosen {
            names := names + [devs[i].name];
          }
        }
      }
    }

    method UpdateMyKeys(server: Server, nc: CensoredNetwork, own: nat, pub: Derivation, newKey: Key)
      returns (ok: bool, nc': CensoredNetwork)
      requires own < |nc.devices|
      modifies this`privateKey, server
      ensures privateKey == if old(privateKey) == UNSET_KEY then newKey else old(privateKey)
      ensures server.State() == Send(old(server.State()), id, KeyRequest(nc, own, pub(privateKey))).0
      ensures ok <==> Send(old(server.State()), id, KeyRequest(nc, own, pub(privateKey))).1 == Done
      ensures ok ==> nc' == WithKey(nc, own, pub(privateKey))
    {
      if privateKey == UNSET_KEY {
        privateKey := newKey;
      }
      nc' := nc;
      if nc.devices[own].publicKey != pub(privateKey) {
        var resp := server.PatchReifySpec(id.net, id.dev, KeyPatch(pub(privateKey)));
        if resp != Done {
          return false, nc';
        }
        nc' := nc.(devices := nc.devices[own := nc.devices[own].(publicKey := pub(privateKey))]);
      }
      assert nc.devices[own := nc.devices[own]] == nc.devices;
      return true, nc';
    }

    method PatchAccessible(server: Server, nc: CensoredNetwork, own: nat)
      returns (ok: bool, nc': CensoredNetwork)
      requires own < |nc.devices|
      modifies server
      ensures var names := Announced(nc.devices, canForward);
        && server.State() == Send(old(server.State()), id, AccessRequest(nc, own, names)).0
        && (ok <==> Send(old(server.State()), id, AccessRequest(nc, own, names)).1 == Done)
        && nc' == WithAccessible(nc, own, names)
    {
      var names := ListAccessible(nc.devices);
      nc' := nc;
      if names != nc.devices[own].accessible {
        nc' := nc.(devices := nc.devices[own := nc.devices[own].(accessible := names)]);
        var resp := server.PatchReifySpec(id.net, id.dev, AccessPatch(names));
        return resp == Done, nc';
      }
      assert nc.devices[own := nc.devices[own]] == nc.devices;
      return true, nc';
    }

    /** The applier at work on the one interface. Its managed interfaces are within the machine, so
        no lookup fails. `addresses` is the slice that machine and view share. */
    method ApplyInterface(iface: Interface, addresses: array<IPNet>, v4: bool, v6: bool, out: Kernels.Outside)
      returns (o: Apply.Outcome)
      requires ManagesOwn() && iface.name == id.net && addresses[..] == iface.addresses
      modifies applier`managedInterfaces, kernel, addresses
      ensures ManagesOwn()
      ensures var accepted := Accepts(out, old(kernel.links), iface, privateKey);
        && (o == Apply.Applied <==> accepted && !v6)
        && (o == Apply.Panicked <==> accepted && v6)
        && (accepted ==> addresses[..] == SortNets(iface.addresses)
                         && kernel.links == Brought(old(kernel.links), WantOf(out, iface, privateKey)))
      ensures Appliers.Kept(old(kernel.links), kernel.links, [WantOf(out, iface, privateKey)])
    {
      var machine := Apply.Machine(
        [Apply.Interface(iface.name, privateKey, iface.listenPort, addresses, iface.peers)], v4, v6);
      ghost var want := WantOf(out, iface, privateKey);
      ghost var ws := Appliers.Wants(machine, out);
      assert ws == [want];
      AcceptsIsDrivable(out, kernel.links, applier.managedInterfaces, iface, privateKey);
      assert ws[0].name == id.net;
      o := applier.ApplyMachine(kernel, machine, out, ws);
      if Accepts(out, old(kernel.links), iface, privateKey) {
        AppliedMeans(old(kernel.links), kernel.links, want);
        assert multiset(addresses[..]) == multiset(iface.addresses) by {
          assert Appliers.Wants(machine, out)[0].addresses == want.addresses;
        }
        assert Orders.Sorted(LessIPNet, addresses[..]) by {
          assert Appliers.Names(machine)[0] == iface.name;
          assert machine.interfaces[0].addresses == addresses;
        }
        SortedIsSortNets(addresses[..], iface.addresses);
      }
    }

    /** Compile, apply and report. Applying sorts the addresses that the view shares. */
    method CompileApplyReport(server: Server, nc: CensoredNetwork, own: nat, out: Kernels.Outside) returns (o: Outcome)
      requires own < |nc.devices| && own == ViewIndex(nc.devices, id.dev)
      requires nc.name == id.net && ManagesOwn() && spec == [nc]
      modifies this`spec, server, applier`managedInterfaces, kernel
      ensures ManagesOwn()
      ensures (server.State(), o)
           == CompileAndReport(old(server.State()), id, nc, own,
                               ViewAccepted(out, old(kernel.links), nc, id.dev, privateKey))
      ensures ViewAccepted(out, old(kernel.links), nc, id.dev, privateKey) ==> Runs(kernel.links, nc, id, privateKey)
      ensures Spared(old(kernel.links), kernel.links, nc, id)
      ensures o.Reified? ==> spec == [WithSortedOwn(nc, own)]
    {
      OneNetwork(nc, id.dev);
      SparedSame(kernel.links, nc, id);
      EndsFrom(server.State(), id, nc, own, ViewAccepted(out, kernel.links, nc, id.dev, privateKey));
      var compiled := CompileMachine(spec, id.dev, true);
      if compiled.Failed? || compiled.machine.interfaces == [] {
        return Crashed;
      }
      o := ApplyReport(server, nc, own, out, compiled.machine);
    }

    /** The same for a machine that the view compiles to. */
    method ApplyReport(server: Server, nc: CensoredNetwork, own: nat, out: Kernels.Outside, machine: Machine)
      returns (o: Outcome)
      requires own < |nc.devices| && own == ViewIndex(nc.devices, id.dev)
      requires nc.name == id.net && ManagesOwn() && |machine.interfaces| == 1
      requires CompileNetwork(nc, id.dev, true)
            == Built(machine.interfaces[0], machine.forwardsIPv4, machine.forwardsIPv6)
      modifies this`spec, server, applier`managedInterfaces, kernel
      ensures ManagesOwn()
      ensures var accepted := ViewAccepted(out, old(kernel.links), nc, id.dev, privateKey);
        && (server.State(), o) == AppliedOrNot(old(server.State()), id, nc, own, accepted, machine.forwardsIPv6)
        && (accepted ==> Runs(kernel.links, nc, id, privateKey))
      ensures Spared(old(kernel.links), kernel.links, nc, id)
      ensures o.Reified? ==> spec == [WithSortedOwn(nc, own)]
    {
      var iface := machine.interfaces[0];
      var addresses := new IPNet[|iface.addresses|](i requires 0 <= i < |iface.addresses| => iface.addresses[i]);
      assert addresses[..] == iface.addresses;
      var outcome := ApplyInterface(iface, addresses, machine.forwardsIPv4, machine.forwardsIPv6, out);
      KeptSpares(out, old(kernel.links), kernel.links, nc, id, privateKey);
      if outcome == Apply.Failed {
        return ApplyFailed;
      }
      BroughtRuns(out, old(kernel.links), nc, id, privateKey);
      if outcome == Apply.Panicked {
        return Crashed;
      }
      var applied := SetOwn(nc, own, nc.devices[own].(addresses := addresses[..]));
      spec := [applied];
      o := Report(server, applied);
    }

    /** What follows after the patches. */
    method Conclude(server: Server, nc: CensoredNetwork, own: nat, out: Kernels.Outside, dnsAnswers: bool)
      returns (o: Outcome)
      requires own < |nc.devices| && own == ViewIndex(nc.devices, id.dev)
      requires nc.name == id.net && ManagesOwn()
      modifies this`spec, server, applier`managedInterfaces, kernel, dns
      ensures ManagesOwn()
      ensures var accepted := ViewAccepted(out, old(kernel.links), nc, id.dev, privateKey);
        && (server.State(), o)
           == Finish(old(server.State()), id, nc, own, Verdict(dns != null ==> dnsAnswers, accepted))
        && (accepted && o != PublishFailed ==> Runs(kernel.links, nc, id, privateKey))
      ensures Spared(old(kernel.links), kernel.links, nc, id)
      ensures dns != null ==> dns.spec == if dnsAnswers then Some([nc]) else old(dns.spec)
    {
      spec := [nc];
      var ok := UpdateDNS(dnsAnswers);
      if !ok {
        SparedSame(kernel.links, nc, id);
        return PublishFailed;
      }
      o := CompileApplyReport(server, nc, own, out);
    }

    method Report(server: Server, view: CensoredNetwork) returns (o: Outcome)
      modifies server
      ensures (server.State(), o) == Reported(old(server.State()), id, view)
    {
      var post := server.PostReifyStatus(id.net, id.dev, Decoded(view));
      if !post.IsLatest? {
        return RequestFailed;
      }
      return Reified(post.latest);
    }

    /** ReifySpec from the fetched view on, up to the last patch. */
    method Prepare(server: Server, fetched: CensoredNetwork, own: nat, pub: Derivation, cs: Circumstances)
      returns (ok: bool, nc: CensoredNetwork)
      requires own < |fetched.devices|
      modifies this`privateKey, server
      ensures privateKey == if old(privateKey) == UNSET_KEY then cs.newKey else old(privateKey)
      ensures var p := MakePlan(fetched, own, pub(privateKey), canForward, cs.env);
        var (srv1, resp1) := Send(old(server.State()), id, p.keyPatch);
        var (srv2, resp2) := Send(srv1, id, p.accessPatch);
        && server.State() == (if resp1 == Done then srv2 else srv1)
        && (ok <==> resp1 == Done && resp2 == Done)
        && (ok ==> nc == p.view)
    {
      nc := Decoded(fetched);
      ok, nc := UpdateMyKeys(server, nc, own, pub, cs.newKey);
      if !ok {
        return;
      }
      var devs := ChooseEndpoints(nc.devices, own, cs.env);
      nc := nc.(devices := devs);
      ok, nc := PatchAccessible(server, nc, own);
    }

    /** ReifySpec from the fetched view on. */
    method Pursue(server: Server, fetched: CensoredNetwork, own: nat, pub: Derivation, cs: Circumstances)
      returns (o: Outcome)
      requires own < |fetched.devices| && own == ViewIndex(fetched.devices, id.dev)
      requires fetched.name == id.net && ManagesOwn()
      modifies this`privateKey, this`spec, server, applier`managedInterfaces, kernel, dns
      ensures ManagesOwn()
      ensures privateKey == if old(privateKey) == UNSET_KEY then cs.newKey else old(privateKey)
      ensures var p := MakePlan(fetched, own, pub(privateKey), canForward, cs.env);
        var accepted := ViewAccepted(cs.out, old(kernel.links), p.view, id.dev, privateKey);
        && (server.State(), o)
           == Execute(old(server.State()), id, p, own, Verdict(dns != null ==> cs.dnsAnswers, accepted))
        && LinksAfter(old(kernel.links), kernel.links, p.view, id, privateKey, o)
        && (o.Reified? && dns != null ==> dns.spec == Some([p.view]))
    {
      var ok, nc := Prepare(server, fetched, own, pub, cs);
      SparedSame(kernel.links, MakePlan(fetched, own, pub(privateKey), canForward, cs.env).view, id);
      if !ok {
        return RequestFailed;
      }
      PlanKeepsNames(fetched, own, pub(privateKey), canForward, cs.env, id.dev);
      o := Conclude(server, nc, own, cs.out, cs.dnsAnswers);
    }

    method ReifySpec(server: Server, pub: Derivation, cs: Circumstances) returns (o: Outcome)
      requires ManagesOwn()
      modifies this`privateKey, this`spec, server, applier`managedInterfaces, kernel, dns
      ensures ManagesOwn()
      ensures (server.State(), State(), o)
           == Reify(old(server.State()), old(State()), pub,
                    RoundOn(old(kernel.links), dns != null, old(server.State()), old(State()), pub, cs))
      ensures var view := PlannedView(old(server.State()), old(State()), pub, cs);
        && (if view.Some? then LinksAfter(old(kernel.links), kernel.links, view.value, id, privateKey, o)
            else kernel.links == old(kernel.links))
        && (o.Reified? && dns != null ==> dns.spec == Some([view.value]))
    {
      var got := server.GetReifySpec(id.net, id.dev);
      if !got.View? {
        return RequestFailed;
      }
      DecodedIndex(got.view, id.dev);
      var nc := Decoded(got.view);
      var i := ViewIndex(nc.devices, id.dev);
      if i < 0 {
        return Crashed;
      }
      ReifyPursues(kernel.links, dns != null, server.State(), State(), pub, cs, got.view);
      o := Pursue(server, got.view, i, pub, cs);
    }
  }

  /** The links once the interface's one is brought to its goal. */
  function Brought(links: map<string, Kernels.Link>, w: Appliers.Want): map<string, Kernels.Link> {
    links[w.name := Appliers.Goal(Appliers.LinkOf(links, w.name), w)]
  }

  /** Is WireGuard configured with this key, with the port, if one is given, and with the peers and their
      AllowedIPs? */
  ghost predicate ConfiguredFor(wg: Kernels.WireGuard, key: Key, iface: Interface) {
    && wg.privateKey == key
    && (iface.listenPort != 0 ==> wg.listenPort == iface.listenPort)
    && |wg.peers| == |iface.peers|
    && forall k | 0 <= k < |iface.peers| ::
         && wg.peers[k].publicKey == iface.peers[k].publicKey
         && wg.peers[k].presharedKey == iface.peers[k].presharedKey
         && wg.peers[k].allowedIPs == iface.peers[k].allowedIPs
  }

  /** The link of the device's network has exactly the addresses, routes and peers of the view. */
  ghost predicate Runs(links: map<string, Kernels.Link>, v: CensoredNetwork, id: Identity, key: Key) {
    CompileNetwork(v, id.dev, true).Built? &&
    var iface := CompileNetwork(v, id.dev, true).iface;
    && id.net in links
    && Apply.LinkAtGoal(links[id.net], multiset(iface.addresses), multiset(Apply.Routed(iface.peers)))
    && links[id.net].up
    && ConfiguredFor(links[id.net].wireGuard, key, iface)
  }

  /** What no call touches, even if it fails: other links than the one of the device's network, and
      addresses and routes there that are those of the planned view already. */
  ghost predicate Spared(before: map<string, Kernels.Link>, after: map<string, Kernels.Link>, v: CensoredNetwork,
                         id: Identity)
  {
    && (forall n | n in before :: n in after && (n != id.net ==> after[n] == before[n]))
    && (forall n | n in after :: n in before || n == id.net)
    && (CompileNetwork(v, id.dev, true).Built? && id.net in before ==>
          var iface := CompileNetwork(v, id.dev, true).iface;
          Apply.LinkKept(before[id.net], after[id.net], multiset(iface.addresses), multiset(Apply.Routed(iface.peers))))
  }

  /** The links after a call. */
  ghost predicate LinksAfter(before: map<string, Kernels.Link>, after: map<string, Kernels.Link>, v: CensoredNetwork,
                             id: Identity, key: Key, o: Outcome)
  {
    (o.Reified? ==> Runs(after, v, id, key)) && Spared(before, after, v, id)
  }

  lemma ReifyPursues(links: map<string, Kernels.Link>, hasDns: bool, srv: ServerState, c: ClientState, pub: Derivation,
                     cs: Circumstances, v: CensoredNetwork)
    requires CurrentView(srv.spec, c.id.net, c.id.dev) == Some(v) && ViewIndex(v.devices, c.id.dev) >= 0
    ensures var own := ViewIndex(v.devices, c.id.dev);
      var p := MakePlan(v, own, pub(KeyOf(c, cs)), c.canForward, cs.env);
      var e := Execute(srv, c.id, p, own,
                       Verdict(hasDns ==> cs.dnsAnswers, ViewAccepted(cs.out, links, p.view, c.id.dev, KeyOf(c, cs))));
      && PlannedView(srv, c, pub, cs) == Some(p.view)
      && Reify(srv, c, pub, RoundOn(links, hasDns, srv, c, pub, cs)) == (e.0, c.(key := KeyOf(c, cs)), e.1)
  {
  }

  lemma SparedSame(links: map<string, Kernels.Link>, v: CensoredNetwork, id: Identity)
    ensures Spared(links, links, v, id)
  {
  }

  lemma KeptSpares(out: Kernels.Outside, before: map<string, Kernels.Link>, after: map<string, Kernels.Link>,
                   v: CensoredNetwork, id: Identity, key: Key)
    requires CompileNetwork(v, id.dev, true).Built? && CompileNetwork(v, id.dev, true).iface.name == id.net
    requires Appliers.Kept(before, after, [WantOf(out, CompileNetwork(v, id.dev, true).iface, key)])
    ensures Spared(before, after, v, id)
  {
    var ws := [WantOf(out, CompileNetwork(v, id.dev, true).iface, key)];
    assert ws[0].name == id.net;
    assert forall n :: Appliers.Named(ws, n) <==> n == id.net;
  }

  lemma BroughtRuns(out: Kernels.Outside, links: map<string, Kernels.Link>, v: CensoredNetwork, id: Identity, key: Key)
    requires CompileNetwork(v, id.dev, true).Built? && CompileNetwork(v, id.dev, true).iface.name == id.net
    requires Accepts(out, links, CompileNetwork(v, id.dev, true).iface, key)
    ensures Runs(Brought(links, WantOf(out, CompileNetwork(v, id.dev, true).iface, key)), v, id, key)
  {
    var iface := CompileNetwork(v, id.dev, true).iface;
    Apply.ConfigurationMeans(out, iface.name, key, iface.listenPort, iface.peers);
  }

  lemma AcceptsIsDrivable(out: Kernels.Outside, links: map<string, Kernels.Link>, managed: seq<string>,
                          iface: Interface, key: Key)
    requires forall n | n in managed :: n == iface.name
    ensures var ws := [WantOf(out, iface, key)];
      && Appliers.DistinctNames(ws) && Appliers.AllNamed(ws, managed)
      && (Appliers.Drivable(links, managed, ws) <==> Accepts(out, links, iface, key))
      && forall n :: Appliers.Named(ws, n) <==> n == iface.name
  {
    assert [WantOf(out, iface, key)][0] == WantOf(out, iface, key);
  }

  lemma AppliedMeans(before: map<string, Kernels.Link>, after: map<string, Kernels.Link>, w: Appliers.Want)
    requires Appliers.AtGoal(before, after, [w]) && Appliers.OthersAlone(before, after, [w])
    ensures after == Brought(before, w)
  {
    assert [w][0] == w;
    forall n ensures Appliers.Named([w], n) <==> n == w.name {
      assert w.name == n ==> Appliers.Named([w], n);
    }
  }

  lemma SortedIsSortNets(sorted: seq<IPNet>, nets: seq<IPNet>)
    requires Orders.Sorted(LessIPNet, sorted) && multiset(sorted) == multiset(nets)
    ensures sorted == SortNets(nets)
  {
    LessIPNetTotal();
    Orders.SortSeqSorted(LessIPNet, nets);
    Orders.SortedUnique(LessIPNet, sorted, SortNets(nets));
  }

  lemma DecodedIndex(v: CensoredNetwork, name: string)
    ensures ViewIndex(Decoded(v).devices, name) == ViewIndex(v.devices, name)
  {
    var d := Decoded(v).devices;
    assert forall k | 0 <= k < |d| :: d[k].name == v.devices[k].name;
    assert ViewIndex(d, name) >= 0 ==> v.devices[ViewIndex(d, name)].name == name;
    assert ViewIndex(v.devices, name) >= 0 ==> d[ViewIndex(v.devices, name)].name == name;
  }

  /** device/continuous.go Step, between one device and the server. */
  function StepOnce(srv: ServerState, c: ClientState, latest: bool, pub: Derivation, r: Round):
    (ServerState, ClientState, bool)
  {
    if latest then
      match ServeLatest(srv, c.id.net, c.id.dev)
      case IsLatest(l) => (srv, c, l)
      case _ => (srv, c, latest)
    else
      var (srv', c', o) := Reify(srv, c, pub, r);
      (srv', c', if o.Reified? then o.latest else latest)
  }

  class ContinuousClient {
    const client: Client
    var latest: bool

    constructor (client: Client)
      ensures this.client == client && !latest
    {
      this.client := client;
      latest := false;
    }

    method Step(server: Server, pub: Derivation, cs: Circumstances)
      returns (isLatest: bool, updated: bool, failed: bool)
      requires client.ManagesOwn()
      modifies this, client`privateKey, client`spec, server, client.applier`managedInterfaces, client.kernel, client.dns
      ensures client.ManagesOwn()
      ensures (server.State(), client.State(), latest)
           == StepOnce(old(server.State()), old(client.State()), old(latest), pub,
                       RoundOn(old(client.kernel.links), client.dns != null, old(server.State()), old(client.State()),
                               pub, cs))
      ensures updated == !old(latest)
      ensures failed ==> latest == old(latest) && !isLatest
      ensures !failed ==> isLatest == latest
    {
      updated := !latest;
      if latest {
        var resp := server.GetReifyLatest(client.id.net, client.id.dev);
        if !resp.IsLatest? {
          return false, updated, true;
        }
        latest := resp.latest;
      } else {
        var o := client.ReifySpec(server, pub, cs);
        if !o.Reified? {
          return false, updated, true;
        }
        latest := o.latest;
      }
      return latest, updated, false;
    }
  }

  lemma {:induction false} RoutedMembers(peers: seq<Peer>, x: IPNet)
    ensures x in Apply.Routed(peers) <==> exists k | 0 <= k < |peers| :: x in peers[k].allowedIPs
  {
    if peers != [] {
      RoutedMembers(peers[..|peers|-1], x);
      if k :| 0 <= k < |peers| && x in peers[k].allowedIPs {
        assert k < |peers| - 1 ==> peers[..|peers|-1][k] == peers[k];
      }
    }
  }

  /** A link that runs a view has the addresses of the local device, and a route for every AllowedIPs entry
      of every peer, and no others. */
  lemma RunsMean(links: map<string, Kernels.Link>, v: CensoredNetwork, id: Identity, key: Key)
    requires Runs(links, v, id, key)
    ensures ViewIndex(v.devices, id.dev) >= 0 && id.net in links
    ensures forall x :: x in links[id.net].addresses <==> x in v.devices[ViewIndex(v.devices, id.dev)].addresses
    ensures forall x :: x in links[id.net].routes <==>
      exists k | 0 <= k < |CompileNetwork(v, id.dev, true).iface.peers| ::
        x in CompileNetwork(v, id.dev, true).iface.peers[k].allowedIPs
  {
    var iface := CompileNetwork(v, id.dev, true).iface;
    forall x ensures x in links[id.net].addresses <==> x in iface.addresses {
      Appliers.MultisetMembers(iface.addresses, x);
    }
    forall x
      ensures x in links[id.net].routes <==> exists k | 0 <= k < |iface.peers| :: x in iface.peers[k].allowedIPs
    {
      Appliers.MultisetMembers(Apply.Routed(iface.peers), x);
      RoutedMembers(iface.peers, x);
    }
  }
}
