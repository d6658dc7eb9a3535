/** The protocol together with every device's kernel: what the addresses and routes of a device in the
    index are, and which failed applications can spoil that. */
module Tables {
  import opened Prelude
  import opened NetAddr
  import opened Specs
  import opened Coord
  import opened CoordIndex
  import opened Compile
  import opened Choosing
  import opened DeviceClient
  import opened Protocol
  import Apply
  import Appliers
  import Kernels
  import Routing

  type Links = map<string, Kernels.Link>

  /** The world of the protocol, the links of every device, and the devices whose last application
      failed half way. */
  datatype Deep = Deep(world: World, links: map<Identity, Links>, torn: set<Identity>)

  datatype DeepEvent =
    | Other(event: Event)
    | Attempt(id: Identity, out: Kernels.Outside, dnsAnswers: bool, after: Links)

  function LinksOf(d: Deep, id: Identity): Links {
    if id in d.links then d.links[id] else map[]
  }

  /** Does the link have the addresses and routes of the interface? */
  predicate HasTables(links: Links, iface: Interface) {
    && iface.name in links
    && Apply.LinkAtGoal(links[iface.name], multiset(iface.addresses), multiset(Apply.Routed(iface.peers)))
  }

  /** Does it have those of the machine compiled from the view? */
  predicate RunsTables(links: Links, v: CensoredNetwork, dev: string) {
    match CompileNetwork(v, dev, true)
    case Built(iface, _, _) => HasTables(links, iface)
    case _ => false
  }

  /** A device hands its view to the DNS server, compiles it and applies the machine. If the kernel does
      not accept it, all that is known of the links afterwards is what Client.ApplyInterface says: no
      other link is touched, and no table that was as wanted. That the last application is torn is
      noted unless both tables were as wanted. */
  ghost function AttemptStep(d: Deep, id: Identity, out: Kernels.Outside, dnsAnswers: bool, after: Links): Deep
    requires id in d.world.agents && d.world.agents[id].phase.AccessDone?
  {
    var a := d.world.agents[id];
    var v, links := a.phase.view, LinksOf(d, id);
    var failed := ApplyStep(d.world, id, false);
    match CompileNetwork(v, id.dev, true)
    case Built(iface, _, v6) =>
      if !dnsAnswers then d.(world := failed)
      else if !Accepts(out, links, iface, a.key) then
        Deep(failed, d.links[id := if Spared(links, after, v, id) then after else links],
             if HasTables(links, iface) then d.torn else d.torn + {id})
      else
        var links' := Brought(links, WantOf(out, iface, a.key));
        if v6 then Deep(failed, d.links[id := links'], d.torn + {id})
        else Deep(ApplyStep(d.world, id, true), d.links[id := links'], d.torn - {id})
    case _ => d.(world := failed)
  }

  ghost function NextDeep(d: Deep, e: DeepEvent, pub: Derivation): Deep {
    match e
    case Other(event) => if event.Apply? then d else d.(world := Next(d.world, event, pub))
    case Attempt(id, out, dnsAnswers, after) =>
      if id in d.world.agents && d.world.agents[id].phase.AccessDone? then AttemptStep(d, id, out, dnsAnswers, after)
      else d
  }

  ghost function RunDeep(d: Deep, es: seq<DeepEvent>, pub: Derivation): Deep {
    if es == [] then d else NextDeep(RunDeep(d, es[..|es|-1], pub), es[|es|-1], pub)
  }

  /** Nobody runs anything yet; what links there are does not matter. */
  function InitialDeep(s: Spec, links: map<Identity, Links>): Deep {
    Deep(Initial(s), links, {})
  }

  // ----- names -----

  /** Views are of the network of their device. */
  ghost predicate Named(w: World) {
    && (forall id | id in w.agents && !w.agents[id].phase.Idle? :: w.agents[id].phase.view.name == id.net)
    && (forall id | id in w.running :: w.running[id].view.name == id.net)
  }

  /** One agent moves on, whatever the server does. */
  lemma AgentNamed(w: World, server: ServerState, id: Identity, a: Agent)
    requires Named(w) && (a.phase.Idle? || a.phase.view.name == id.net)
    ensures Named(World(server, w.agents[id := a], w.running))
  {
  }

  lemma DeliverNamed(w: World, id: Identity, p: PatchRequest, d: Delivery, a: Agent, next: Phase)
    requires Named(w) && !next.Idle? && next.view.name == id.net
    ensures Named(Deliver(w, id, p, d, a, next))
  {
    var server := ServePatch(w.server, id.net, id.dev, p).0;
    AgentNamed(w, w.server, id, To(a, Idle));
    AgentNamed(w, server, id, To(a, Idle));
    AgentNamed(w, server, id, To(a, next));
  }

  lemma FetchNamed(w: World, id: Identity, d: Delivery)
    requires Named(w) && id in w.agents
    ensures Named(FetchStep(w, id, d))
  {
    var a := w.agents[id];
    AgentNamed(w, w.server, id, To(a, Idle));
    if CurrentView(w.server.spec, id.net, id.dev).Some? {
      var v := CurrentView(w.server.spec, id.net, id.dev).value;
      assert v.name == id.net;
      AgentNamed(w, w.server, id, To(a, Fetched(Decoded(v))));
    }
  }

  lemma KeyNamed(w: World, id: Identity, newKey: Key, d: Delivery, pub: Derivation)
    requires Named(w) && id in w.agents && w.agents[id].phase.Fetched?
    ensures Named(KeyStep(w, id, newKey, d, pub))
  {
    var a := w.agents[id];
    var own := ViewIndex(a.phase.view.devices, id.dev);
    if own >= 0 {
      var a' := if a.key == UNSET_KEY then a.(key := newKey) else a;
      var next := KeyDone(WithKey(a.phase.view, own, pub(a'.key)));
      AgentNamed(w, w.server, id, To(a', next));
      if KeyRequest(a.phase.view, own, pub(a'.key)).Some? {
        DeliverNamed(w, id, KeyRequest(a.phase.view, own, pub(a'.key)).value, d, a', next);
      }
    }
  }

  lemma AnnounceNamed(w: World, id: Identity, d: Delivery)
    requires Named(w) && id in w.agents && w.agents[id].phase.EndpointsChosen?
    ensures Named(AnnounceStep(w, id, d))
  {
    var a := w.agents[id];
    var own := ViewIndex(a.phase.view.devices, id.dev);
    if own >= 0 {
      var names := Announced(a.phase.view.devices, a.canForward);
      var next := AccessDone(WithAccessible(a.phase.view, own, names));
      AgentNamed(w, w.server, id, To(a, next));
      if AccessRequest(a.phase.view, own, names).Some? {
        DeliverNamed(w, id, AccessRequest(a.phase.view, own, names).value, d, a, next);
      }
    }
  }

  lemma ApplyNamed(w: World, id: Identity, ok: bool)
    requires Named(w) && id in w.agents && w.agents[id].phase.AccessDone?
    ensures Named(ApplyStep(w, id, ok))
  {
    AgentNamed(w, w.server, id, To(w.agents[id], Idle));
  }

  lemma ReportNamed(w: World, id: Identity, d: Delivery)
    requires Named(w) && id in w.agents && w.agents[id].phase.MachineApplied?
    ensures Named(ReportStep(w, id, d))
  {
    var server := ServePost(w.server, id.net, id.dev, Decoded(w.agents[id].phase.view)).0;
    AgentNamed(w, w.server, id, To(w.agents[id], Idle));
    AgentNamed(w, server, id, To(w.agents[id], Idle));
  }

  lemma NextNamed(w: World, e: Event, pub: Derivation)
    requires Named(w)
    ensures Named(Next(w, e, pub))
  {
    match e {
      case ChangeSpec(s) =>
      case Start(id, key, canForward) => AgentNamed(w, w.server, id, Agent(Idle, key, canForward));
      case Fetch(id, d) =>
        if id in w.agents && w.agents[id].phase.Idle? { FetchNamed(w, id, d); }
      case UpdateKey(id, newKey, d) =>
        if id in w.agents && w.agents[id].phase.Fetched? { KeyNamed(w, id, newKey, d, pub); }
      case ChoosePeers(id, env) =>
        if id in w.agents && w.agents[id].phase.KeyDone? { ChooseNamed(w, id, env); }
      case Announce(id, d) =>
        if id in w.agents && w.agents[id].phase.EndpointsChosen? { AnnounceNamed(w, id, d); }
      case Apply(id, ok) =>
        if id in w.agents && w.agents[id].phase.AccessDone? { ApplyNamed(w, id, ok); }
      case Report(id, d) =>
        if id in w.agents && w.agents[id].phase.MachineApplied? { ReportNamed(w, id, d); }
    }
  }

  lemma ChooseNamed(w: World, id: Identity, env: Surroundings)
    requires Named(w) && id in w.agents && w.agents[id].phase.KeyDone?
    ensures Named(ChooseStep(w, id, env))
  {
    var a := w.agents[id];
    var own := ViewIndex(a.phase.view.devices, id.dev);
    if own >= 0 {
      AgentNamed(w, w.server, id, To(a, EndpointsChosen(WithChoices(a.phase.view, own, env))));
    }
  }

  // ----- the tables of what runs -----

  ghost predicate DeepInv(d: Deep, pub: Derivation) {
    && Inv(d.world, pub)
    && Named(d.world)
    && forall id | id in d.world.running && id !in d.torn ::
         RunsTables(LinksOf(d, id), d.world.running[id].view, id.dev)
  }

  /** Only applying changes what runs. */
  lemma RunningStays(w: World, e: Event, pub: Derivation)
    requires !e.Apply?
    ensures Next(w, e, pub).running == w.running
  {
  }

  /** Sorting the own addresses leaves the tables of a machine as they are. */
  lemma SortedTables(links: Links, v: CensoredNetwork, dev: string)
    requires ViewIndex(v.devices, dev) >= 0
    ensures RunsTables(links, WithSortedOwn(v, ViewIndex(v.devices, dev)), dev) == RunsTables(links, v, dev)
  {
    SortedMachine(v, dev);
  }

  lemma BroughtTables(out: Kernels.Outside, links: Links, v: CensoredNetwork, dev: string, key: Key)
    requires CompileNetwork(v, dev, true).Built?
    ensures RunsTables(Brought(links, WantOf(out, CompileNetwork(v, dev, true).iface, key)), v, dev)
  {
  }

  /** Links of the same name that keep the tables wanted by one view keep those of another that they have. */
  lemma SparedTables(before: Links, after: Links, v: CensoredNetwork, id: Identity, w: CensoredNetwork)
    requires v.name == w.name == id.net && Spared(before, after, v, id)
    requires RunsTables(before, v, id.dev) && RunsTables(before, w, id.dev)
    ensures RunsTables(after, w, id.dev)
  {
  }

  /** An attempt changes the links of its device only. */
  lemma OtherLinks(d: Deep, id: Identity, out: Kernels.Outside, dnsAnswers: bool, after: Links, i: Identity)
    requires id in d.world.agents && d.world.agents[id].phase.AccessDone? && i != id
    ensures var d' := AttemptStep(d, id, out, dnsAnswers, after);
      LinksOf(d', i) == LinksOf(d, i) && (i in d'.torn <==> i in d.torn)
  {
  }

  /** A complete application. */
  lemma SuccessTables(d: Deep, id: Identity, out: Kernels.Outside, after: Links)
    requires id in d.world.agents && d.world.agents[id].phase.AccessDone?
    requires var a := d.world.agents[id]; var o := CompileNetwork(a.phase.view, id.dev, true);
      o.Built? && !o.v6 && Accepts(out, LinksOf(d, id), o.iface, a.key)
    ensures var d' := AttemptStep(d, id, out, true, after);
      id in d'.world.running && RunsTables(LinksOf(d', id), d'.world.running[id].view, id.dev)
  {
    var a := d.world.agents[id];
    var v := a.phase.view;
    var links' := Brought(LinksOf(d, id), WantOf(out, CompileNetwork(v, id.dev, true).iface, a.key));
    SortedTables(links', v, id.dev);
    BroughtTables(out, LinksOf(d, id), v, id.dev, a.key);
  }

  /** One that fails. */
  lemma FailureTables(d: Deep, id: Identity, out: Kernels.Outside, dnsAnswers: bool, after: Links)
    requires id in d.world.agents && d.world.agents[id].phase.AccessDone? && Named(d.world)
    requires id in d.world.running && RunsTables(LinksOf(d, id), d.world.running[id].view, id.dev)
    requires var a := d.world.agents[id]; var o := CompileNetwork(a.phase.view, id.dev, true);
      o.Built? && dnsAnswers ==> !Accepts(out, LinksOf(d, id), o.iface, a.key) && HasTables(LinksOf(d, id), o.iface)
    ensures var d' := AttemptStep(d, id, out, dnsAnswers, after);
      d'.world.running == d.world.running && RunsTables(LinksOf(d', id), d.world.running[id].view, id.dev)
  {
    var v := d.world.agents[id].phase.view;
    if CompileNetwork(v, id.dev, true).Built? && dnsAnswers && Spared(LinksOf(d, id), after, v, id) {
      SparedTables(LinksOf(d, id), after, v, id, d.world.running[id].view);
    }
  }

  lemma AttemptOnLinks(d: Deep, id: Identity, out: Kernels.Outside, dnsAnswers: bool, after: Links)
    requires id in d.world.agents && d.world.agents[id].phase.AccessDone? && Named(d.world)
    requires id in d.world.running && id !in d.torn ==> RunsTables(LinksOf(d, id), d.world.running[id].view, id.dev)
    ensures var d' := AttemptStep(d, id, out, dnsAnswers, after);
      id in d'.world.running && id !in d'.torn ==> RunsTables(LinksOf(d', id), d'.world.running[id].view, id.dev)
  {
    var a := d.world.agents[id];
    var o := CompileNetwork(a.phase.view, id.dev, true);
    var d' := AttemptStep(d, id, out, dnsAnswers, after);
    if o.Built? && dnsAnswers && Accepts(out, LinksOf(d, id), o.iface, a.key) {
      if !o.v6 {
        SuccessTables(d, id, out, after);
      }
    } else if id in d'.world.running && id !in d'.torn {
      FailureTables(d, id, out, dnsAnswers, after);
    }
  }

  /** Only the world of the one device changes, as a step of the protocol. */
  lemma AttemptOnWorld(d: Deep, id: Identity, out: Kernels.Outside, dnsAnswers: bool, after: Links)
    requires id in d.world.agents && d.world.agents[id].phase.AccessDone?
    ensures exists ok :: AttemptStep(d, id, out, dnsAnswers, after).world == ApplyStep(d.world, id, ok)
  {
    assert AttemptStep(d, id, out, dnsAnswers, after).world == ApplyStep(d.world, id, false)
        || AttemptStep(d, id, out, dnsAnswers, after).world == ApplyStep(d.world, id, true);
  }

  lemma OthersRun(w: World, id: Identity, ok: bool, i: Identity)
    requires id in w.agents && w.agents[id].phase.AccessDone? && i != id
    ensures var w' := ApplyStep(w, id, ok);
      (i in w'.running <==> i in w.running) && (i in w.running ==> w'.running[i] == w.running[i])
  {
  }

  lemma AttemptKeeps(d: Deep, id: Identity, out: Kernels.Outside, dnsAnswers: bool, after: Links, pub: Derivation)
    requires DeepInv(d, pub) && id in d.world.agents && d.world.agents[id].phase.AccessDone?
    ensures DeepInv(AttemptStep(d, id, out, dnsAnswers, after), pub)
  {
    var d' := AttemptStep(d, id, out, dnsAnswers, after);
    AttemptOnWorld(d, id, out, dnsAnswers, after);
    var ok :| d'.world == ApplyStep(d.world, id, ok);
    ApplyOk(d.world, id, ok, pub);
    ApplyNamed(d.world, id, ok);
    AttemptOnLinks(d, id, out, dnsAnswers, after);
    forall i | i in d'.world.running && i !in d'.torn
      ensures RunsTables(LinksOf(d', i), d'.world.running[i].view, i.dev)
    {
      if i != id {
        OthersRun(d.world, id, ok, i);
        OtherLinks(d, id, out, dnsAnswers, after, i);
      }
    }
  }

  lemma {:induction false} RunDeepOk(s: Spec, links: map<Identity, Links>, es: seq<DeepEvent>, pub: Derivation)
    ensures DeepInv(RunDeep(InitialDeep(s, links), es, pub), pub)
  {
    if es != [] {
      var d := RunDeep(InitialDeep(s, links), es[..|es|-1], pub);
      RunDeepOk(s, links, es[..|es|-1], pub);
      match es[|es|-1] {
        case Other(e) =>
          if !e.Apply? {
            NextOk(d.world, e, pub);
            NextNamed(d.world, e, pub);
            RunningStays(d.world, e, pub);
          }
        case Attempt(id, out, dnsAnswers, after) =>
          if id in d.world.agents && d.world.agents[id].phase.AccessDone? {
            AttemptKeeps(d, id, out, dnsAnswers, after, pub);
          }
      }
    }
  }

  /** In every run, a device in the index whose last application is not torn has, in its kernel, exactly
      the addresses and routes of a machine compiled from a view Equal to the one it would get now. */
  lemma LatestHasTables(s: Spec, links: map<Identity, Links>, es: seq<DeepEvent>, pub: Derivation, id: Identity)
    requires Indexed(RunDeep(InitialDeep(s, links), es, pub).world.server, id)
    requires id !in RunDeep(InitialDeep(s, links), es, pub).torn
    ensures var d := RunDeep(InitialDeep(s, links), es, pub);
      RunsCurrent(d.world, id) && RunsTables(LinksOf(d, id), d.world.running[id].view, id.dev)
  {
    RunDeepOk(s, links, es, pub);
    assert UpToDate(RunDeep(InitialDeep(s, links), es, pub).world, id);
  }

  // ----- which attempts can spoil it -----

  /** Two Equal views read from text have the same addresses and keys everywhere. */
  lemma EqualTextViews(a: CensoredNetwork, b: CensoredNetwork)
    requires ViewEqual(a, b) && TextAddresses(a) && TextAddresses(b)
    ensures |a.devices| == |b.devices|
    ensures forall i | 0 <= i < |a.devices| ::
      a.devices[i].addresses == b.devices[i].addresses && a.devices[i].publicKey == b.devices[i].publicKey
  {
    forall i | 0 <= i < |a.devices|
      ensures a.devices[i].addresses == b.devices[i].addresses && a.devices[i].publicKey == b.devices[i].publicKey
    {
      assert DeviceEqual(a.devices[i], b.devices[i]);
      EqualToText(a.devices[i].addresses, b.devices[i].addresses);
    }
  }

  /** The interface that the last complete application of a device was about. */
  function RunningInterface(d: Deep, id: Identity): Interface
    requires id in d.world.running && CompileNetwork(d.world.running[id].view, id.dev, true).Built?
  {
    CompileNetwork(d.world.running[id].view, id.dev, true).iface
  }

  /** A device in the index that applies again wants the addresses it has. Hence its tables are as wanted
      already, and no failure can tear them, if and only if it wants the routes it has. */
  lemma AttemptSparesIff(d: Deep, id: Identity, pub: Derivation)
    requires DeepInv(d, pub) && Indexed(d.world.server, id) && id !in d.torn
    requires id in d.world.agents && d.world.agents[id].phase.AccessDone?
    requires CompileNetwork(d.world.agents[id].phase.view, id.dev, true).Built?
    ensures id in d.world.running && CompileNetwork(d.world.running[id].view, id.dev, true).Built?
    ensures var wanted := CompileNetwork(d.world.agents[id].phase.view, id.dev, true).iface;
      var link := LinksOf(d, id)[id.net];
      && id.net in LinksOf(d, id)
      && link.addresses == Apply.Elements(multiset(wanted.addresses))
      && (HasTables(LinksOf(d, id), wanted) <==>
            Apply.Elements(multiset(Apply.Routed(wanted.peers)))
            == Apply.Elements(multiset(Apply.Routed(RunningInterface(d, id).peers))))
  {
    assert UpToDate(d.world, id);
    var v, running := d.world.agents[id].phase.view, d.world.running[id].view;
    SameAsRunning(d.world, id, pub);
    EqualIndex(running, v, id.dev);
    assert RunsTables(LinksOf(d, id), running, id.dev);
    assert RunningInterface(d, id).addresses == CompileNetwork(v, id.dev, true).iface.addresses;
  }

  /** The links with other routes. */
  function Rerouted(links: Links, name: string): Links
    requires name in links
  {
    links[name := links[name].(routes := if links[name].routes == {} then {IPNet([], [])} else {})]
  }

  lemma ReroutedSpared(links: Links, v: CensoredNetwork, w: CensoredNetwork, id: Identity)
    requires v.name == w.name == id.net && CompileNetwork(v, id.dev, true).Built?
    requires RunsTables(links, w, id.dev) && !RunsTables(links, v, id.dev)
    requires links[id.net].addresses == Apply.Elements(multiset(CompileNetwork(v, id.dev, true).iface.addresses))
    ensures Spared(links, Rerouted(links, id.net), v, id) && !RunsTables(Rerouted(links, id.net), w, id.dev)
  {
    var link := links[id.net];
    assert Rerouted(links, id.net)[id.net].routes != link.routes by {
      assert IPNet([], []) in {IPNet([], [])};
    }
  }

  /** So a failed attempt of such a device is harmless, whatever it leaves, if and only if it wants the
      tables that are there. */
  lemma FailureHarmlessIff(d: Deep, id: Identity, pub: Derivation)
    requires DeepInv(d, pub) && Indexed(d.world.server, id) && id !in d.torn
    requires id in d.world.agents && d.world.agents[id].phase.AccessDone?
    requires CompileNetwork(d.world.agents[id].phase.view, id.dev, true).Built?
    ensures id in d.world.running
    ensures var v, running := d.world.agents[id].phase.view, d.world.running[id].view;
      (forall after: Links | Spared(LinksOf(d, id), after, v, id) :: RunsTables(after, running, id.dev))
      <==> RunsTables(LinksOf(d, id), v, id.dev)
  {
    AttemptSparesIff(d, id, pub);
    var v, running := d.world.agents[id].phase.view, d.world.running[id].view;
    if RunsTables(LinksOf(d, id), v, id.dev) {
      forall after: Links | Spared(LinksOf(d, id), after, v, id) ensures RunsTables(after, running, id.dev) {
        SparedTables(LinksOf(d, id), after, v, id, running);
      }
    } else {
      ReroutedSpared(LinksOf(d, id), v, running, id);
    }
  }

  /** What a device in the index works on agrees with what it runs. */
  lemma SameAsRunning(w: World, id: Identity, pub: Derivation)
    requires Inv(w, pub) && Indexed(w.server, id) && id in w.agents && w.agents[id].phase.AccessDone?
    ensures id in w.running
    ensures var v, running := w.agents[id].phase.view, w.running[id].view;
      && ViewEqual(running, v)
      && |v.devices| == |running.devices|
      && forall i | 0 <= i < |v.devices| ::
           v.devices[i].addresses == running.devices[i].addresses
           && v.devices[i].publicKey == running.devices[i].publicKey
  {
    assert UpToDate(w, id);
    var v, running := w.agents[id].phase.view, w.running[id].view;
    var current := CurrentView(w.server.spec, id.net, id.dev).value;
    ViewEqualIsEquivalence(v, current, running);
    ViewEqualIsEquivalence(running, current, v);
    assert AgentOk(w.agents[id], id, w.running, pub) && RunningOk(w.running[id], id, pub);
    EqualTextViews(running, v);
  }

  lemma {:induction false} RoutedIsAllowed(peers: seq<Peer>)
    ensures multiset(Apply.Routed(peers)) == Routing.AllAllowed(peers)
  {
    if peers != [] {
      RoutedIsAllowed(peers[..|peers|-1]);
    }
  }

  lemma {:induction false} WantedSame(a: Devices, b: Devices, me: nat, n: nat)
    requires n <= |a| == |b|
    requires forall i | 0 <= i < |a| :: a[i].addresses == b[i].addresses && a[i].publicKey == b[i].publicKey
    ensures Routing.Wanted(a, me, n) == Routing.Wanted(b, me, n)
  {
    if n > 0 {
      WantedSame(a, b, me, n - 1);
    }
  }

  /** Does the compiled machine route the addresses of all other keyed devices? */
  predicate RoutesAll(v: CensoredNetwork, dev: string) {
    match CompileNetwork(v, dev, true)
    case Built(iface, _, _) =>
      Routing.AllAllowed(iface.peers) == Routing.Wanted(v.devices, ViewIndex(v.devices, dev), |v.devices|)
    case _ => false
  }

  /** If neither the machine that runs nor the new one loses a route, the attempt finds its tables as
      wanted: it cannot fail because of them, and whatever else makes it fail, they stay. */
  lemma ConservedAttempt(d: Deep, id: Identity, pub: Derivation)
    requires DeepInv(d, pub) && Indexed(d.world.server, id) && id !in d.torn
    requires id in d.world.agents && d.world.agents[id].phase.AccessDone?
    requires RoutesAll(d.world.agents[id].phase.view, id.dev)
    requires id in d.world.running && RoutesAll(d.world.running[id].view, id.dev)
    ensures HasTables(LinksOf(d, id), CompileNetwork(d.world.agents[id].phase.view, id.dev, true).iface)
    ensures !CompileNetwork(d.world.agents[id].phase.view, id.dev, true).v6 ==>
              forall out, dnsAnswers, after :: id !in AttemptStep(d, id, out, dnsAnswers, after).torn
  {
    var v, running := d.world.agents[id].phase.view, d.world.running[id].view;
    AttemptSparesIff(d, id, pub);
    SameAsRunning(d.world, id, pub);
    EqualIndex(running, v, id.dev);
    WantedSame(v.devices, running.devices, ViewIndex(v.devices, id.dev), |v.devices|);
    RoutedIsAllowed(CompileNetwork(v, id.dev, true).iface.peers);
    RoutedIsAllowed(RunningInterface(d, id).peers);
  }
}
