/** The whole protocol: one server and any number of devices, each in any phase of ReifySpec,
    with lost requests, lost replies, failed applications, restarts and changes of the spec at
    any time. Every HTTP request is one atomic step. */
module Protocol {
  import opened Prelude
  import opened Orders
  import opened NetAddr
  import opened Specs
  import opened Coord
  import opened CoordIndex
  import opened Compile
  import opened Choosing
  import opened DeviceClient

  /** Where a device is in ReifySpec, with its local view. */
  datatype Phase =
    | Idle
    | Fetched(view: CensoredNetwork)
    | KeyDone(view: CensoredNetwork)
    | EndpointsChosen(view: CensoredNetwork)
    | AccessDone(view: CensoredNetwork)
    | MachineApplied(view: CensoredNetwork)

  datatype Agent = Agent(phase: Phase, key: Key, canForward: bool)

  /** The machine a device runs, as the view it was compiled from and the private key in it. */
  datatype Running = Running(view: CensoredNetwork, key: Key)

  datatype World = World(server: ServerState, agents: map<Identity, Agent>, running: map<Identity, Running>)

  datatype Delivery = Answered | ReplyLost | NeverArrived

  datatype Event =
    | ChangeSpec(spec: Spec)
    | Start(id: Identity, key: Key, canForward: bool)  // also a restart, possibly with another key
    | Fetch(id: Identity, delivery: Delivery)
    | UpdateKey(id: Identity, newKey: Key, delivery: Delivery)
    | ChoosePeers(id: Identity, env: Surroundings)
    | Announce(id: Identity, delivery: Delivery)
    | Apply(id: Identity, ok: bool)
    | Report(id: Identity, delivery: Delivery)

  // ----- steps -----

  function To(a: Agent, p: Phase): Agent { a.(phase := p) }

  /** A request that may be lost on either way. The device goes on only if it is told `Done`. */
  function Deliver(w: World, id: Identity, p: PatchRequest, d: Delivery, a: Agent, next: Phase): World
  {
    if d == NeverArrived then w.(agents := w.agents[id := To(a, Idle)])
    else
      var (server, resp) := ServePatch(w.server, id.net, id.dev, p);
      World(server, w.agents[id := To(a, if d == Answered && resp == Done then next else Idle)], w.running)
  }

  function FetchStep(w: World, id: Identity, d: Delivery): World
    requires id in w.agents
  {
    var a := w.agents[id];
    match ServeSpec(w.server, id.net, id.dev)
    case View(v) => w.(agents := w.agents[id := To(a, if d == Answered then Fetched(Decoded(v)) else Idle)])
    case _ => w.(agents := w.agents[id := To(a, Idle)])
  }

  /** updateMyKeys; a device that does not see itself panics and has to be started again. */
  function KeyStep(w: World, id: Identity, newKey: Key, d: Delivery, pub: Derivation): World
    requires id in w.agents && w.agents[id].phase.Fetched?
  {
    var a := w.agents[id];
    var view := a.phase.view;
    var own := ViewIndex(view.devices, id.dev);
    if own < 0 then w.(agents := w.agents - {id})
    else
      var a' := if a.key == UNSET_KEY then a.(key := newKey) else a;
      var next := KeyDone(WithKey(view, own, pub(a'.key)));
      match KeyRequest(view, own, pub(a'.key))
      case None => w.(agents := w.agents[id := To(a', next)])
      case Some(p) => Deliver(w, id, p, d, a', next)
  }

  function ChooseStep(w: World, id: Identity, env: Surroundings): World
    requires id in w.agents && w.agents[id].phase.KeyDone?
  {
    var a := w.agents[id];
    var own := ViewIndex(a.phase.view.devices, id.dev);
    if own < 0 then w
    else w.(agents := w.agents[id := To(a, EndpointsChosen(WithChoices(a.phase.view, own, env)))])
  }

  function AnnounceStep(w: World, id: Identity, d: Delivery): World
    requires id in w.agents && w.agents[id].phase.EndpointsChosen?
  {
    var a := w.agents[id];
    var view := a.phase.view;
    var own := ViewIndex(view.devices, id.dev);
    if own < 0 then w
    else
      var names := Announced(view.devices, a.canForward);
      var next := AccessDone(WithAccessible(view, own, names));
      match AccessRequest(view, own, names)
      case None => w.(agents := w.agents[id := To(a, next)])
      case Some(p) => Deliver(w, id, p, d, a, next)
  }

  /** Compile and apply. Sorting in place changes the local view along with the machine. */
  function ApplyStep(w: World, id: Identity, ok: bool): World
    requires id in w.agents && w.agents[id].phase.AccessDone?
  {
    var a := w.agents[id];
    var own := ViewIndex(a.phase.view.devices, id.dev);
    if own < 0 || !ok then w.(agents := w.agents[id := To(a, Idle)])
    else
      var applied := WithSortedOwn(a.phase.view, own);
      World(w.server, w.agents[id := To(a, MachineApplied(applied))], w.running[id := Running(applied, a.key)])
  }

  function ReportStep(w: World, id: Identity, d: Delivery): World
    requires id in w.agents && w.agents[id].phase.MachineApplied?
  {
    var a := w.agents[id];
    if d == NeverArrived then w.(agents := w.agents[id := To(a, Idle)])
    else
      var (server, resp) := ServePost(w.server, id.net, id.dev, Decoded(a.phase.view));
      World(server, w.agents[id := To(a, Idle)], w.running)
  }

  /** One step; an event that does not fit the device's phase changes nothing. */
  function Next(w: World, e: Event, pub: Derivation): World {
    match e
    case ChangeSpec(s) => w.(server := Updated(w.server, s))
    case Start(id, key, canForward) => w.(agents := w.agents[id := Agent(Idle, key, canForward)])
    case Fetch(id, d) =>
      if id in w.agents && w.agents[id].phase.Idle? then FetchStep(w, id, d) else w
    case UpdateKey(id, newKey, d) =>
      if id in w.agents && w.agents[id].phase.Fetched? then KeyStep(w, id, newKey, d, pub) else w
    case ChoosePeers(id, env) =>
      if id in w.agents && w.agents[id].phase.KeyDone? then ChooseStep(w, id, env) else w
    case Announce(id, d) =>
      if id in w.agents && w.agents[id].phase.EndpointsChosen? then AnnounceStep(w, id, d) else w
    case Apply(id, ok) =>
      if id in w.agents && w.agents[id].phase.AccessDone? then ApplyStep(w, id, ok) else w
    case Report(id, d) =>
      if id in w.agents && w.agents[id].phase.MachineApplied? then ReportStep(w, id, d) else w
  }

  function RunEvents(w: World, es: seq<Event>, pub: Derivation): World {
    if es == [] then w else Next(RunEvents(w, es[..|es|-1], pub), es[|es|-1], pub)
  }

  function Initial(s: Spec): World {
    World(ServerState(s, map[]), map[], map[])
  }

  // ----- the invariant -----

  predicate Indexed(st: ServerState, id: Identity) {
    id.dev in Entry(st.latest, id.net)
  }

  function OwnKey(v: CensoredNetwork, dev: string): Option<Key> {
    var i := ViewIndex(v.devices, dev);
    if i < 0 then None else Some(v.devices[i].publicKey)
  }

  /** Everything in the view as it comes from the wire. */
  ghost predicate FromWire(v: CensoredNetwork) {
    forall i | 0 <= i < |v.devices| :: v.devices[i] == Wire(v.devices[i])
  }

  ghost predicate TextAddresses(v: CensoredNetwork) {
    forall i | 0 <= i < |v.devices| :: TextNets(v.devices[i].addresses) == v.devices[i].addresses
  }

  /** What a device's local view satisfies in each phase, whatever the server does meanwhile. */
  ghost predicate AgentOk(a: Agent, id: Identity, running: map<Identity, Running>, pub: Derivation) {
    match a.phase
    case Idle => true
    case Fetched(v) => FromWire(v)
    case KeyDone(v) => FromWire(v) && OwnKey(v, id.dev) == Some(pub(a.key))
    case EndpointsChosen(v) => TextAddresses(v) && OwnKey(v, id.dev) == Some(pub(a.key))
    case AccessDone(v) => TextAddresses(v) && OwnKey(v, id.dev) == Some(pub(a.key))
    case MachineApplied(v) => id in running && running[id] == Running(v, a.key)
  }

  ghost predicate RunningOk(r: Running, id: Identity, pub: Derivation) {
    && TextAddresses(r.view)
    && OwnKey(r.view, id.dev) == Some(pub(r.key))
    && var d := r.view.devices[ViewIndex(r.view.devices, id.dev)];
       SortNets(d.addresses) == d.addresses
  }

  /** The device runs a machine compiled from a view Equal to the one it would be sent now. */
  ghost predicate RunsCurrent(w: World, id: Identity) {
    && CurrentView(w.server.spec, id.net, id.dev).Some?
    && id in w.running
    && ViewEqual(w.running[id].view, CurrentView(w.server.spec, id.net, id.dev).value)
  }

  /** The index is right about everybody in it. */
  ghost predicate Safe(w: World) {
    forall id | Indexed(w.server, id) :: RunsCurrent(w, id)
  }

  /** What keeps it right: any view that a device in the index is working on is Equal to its present
      one as well. */
  ghost predicate UpToDate(w: World, id: Identity) {
    && RunsCurrent(w, id)
    && (id in w.agents && !w.agents[id].phase.Idle? ==>
          ViewEqual(w.agents[id].phase.view, CurrentView(w.server.spec, id.net, id.dev).value))
  }

  ghost predicate Inv(w: World, pub: Derivation) {
    && IndexInSpec(w.server)
    && (forall id | id in w.agents :: AgentOk(w.agents[id], id, w.running, pub))
    && (forall id | id in w.running :: RunningOk(w.running[id], id, pub))
    && (forall id | Indexed(w.server, id) :: UpToDate(w, id))
  }

  // ----- facts about views -----

  lemma EqualIndex(a: CensoredNetwork, b: CensoredNetwork, name: string)
    requires ViewEqual(a, b)
    ensures ViewIndex(a.devices, name) == ViewIndex(b.devices, name)
    ensures OwnKey(a, name) == OwnKey(b, name)
  {
    assert forall k | 0 <= k < |a.devices| :: DeviceEqual(a.devices[k], b.devices[k]);
    var i, j := ViewIndex(a.devices, name), ViewIndex(b.devices, name);
    assert i >= 0 ==> b.devices[i].name == name;
    assert j >= 0 ==> a.devices[j].name == name;
  }

  lemma DecodedEqual(v: CensoredNetwork)
    ensures FromWire(Decoded(v))
    ensures ViewEqual(Decoded(v), v) <==> Faithful(v)
  {
    var d := Decoded(v);
    forall i | 0 <= i < |v.devices|
      ensures d.devices[i] == Wire(d.devices[i])
      ensures DeviceEqual(d.devices[i], v.devices[i]) <==> AllReadBack(v.devices[i].addresses)
    {
      TextNetsMean(v.devices[i].addresses);
      TextEqualIff(v.devices[i].addresses);
    }
  }

  /** Whatever is Equal to a view read from text is faithful. */
  lemma EqualToTextView(a: CensoredNetwork, b: CensoredNetwork)
    requires TextAddresses(a) && ViewEqual(a, b)
    ensures Faithful(b)
  {
    forall i | 0 <= i < |b.devices| ensures AllReadBack(b.devices[i].addresses) {
      assert DeviceEqual(a.devices[i], b.devices[i]);
      EqualToText(a.devices[i].addresses, b.devices[i].addresses);
    }
  }

  lemma SetOwnIndex(v: CensoredNetwork, own: nat, d: CensoredDevice, name: string)
    requires own < |v.devices| && d.name == v.devices[own].name
    ensures ViewIndex(SetOwn(v, own, d).devices, name) == ViewIndex(v.devices, name)
  {
    var w := SetOwn(v, own, d).devices;
    assert forall k | 0 <= k < |w| :: w[k].name == v.devices[k].name;
    assert ViewIndex(w, name) >= 0 ==> v.devices[ViewIndex(w, name)].name == name;
    assert ViewIndex(v.devices, name) >= 0 ==> w[ViewIndex(v.devices, name)].name == name;
  }

  lemma ChoicesEqual(v: CensoredNetwork, own: nat, env: Surroundings, name: string)
    requires FromWire(v)
    ensures var w := WithChoices(v, own, env);
      ViewEqual(w, v) && TextAddresses(w) && OwnKey(w, name) == OwnKey(v, name)
  {
    var w := WithChoices(v, own, env);
    ForwardersRanked(v.devices, own, env);
    forall i | 0 <= i < |v.devices|
      ensures DeviceEqual(w.devices[i], v.devices[i]) && TextNets(w.devices[i].addresses) == w.devices[i].addresses
    {
      assert v.devices[i] == Wire(v.devices[i]);
      DeviceEqualIffCanon(w.devices[i], v.devices[i]);
    }
    EqualIndex(w, v, name);
  }

  /** If the running view has its own addresses sorted, every Equal view read from text has
      them sorted already: applying it changes nothing in it. */
  lemma SortKeepsEqual(v: CensoredNetwork, own: nat, running: CensoredNetwork)
    requires own < |v.devices| && ViewEqual(running, v)
    requires TextAddresses(v) && TextAddresses(running)
    requires SortNets(running.devices[own].addresses) == running.devices[own].addresses
    ensures WithSortedOwn(v, own) == v
  {
    assert DeviceEqual(running.devices[own], v.devices[own]);
    EqualToText(running.devices[own].addresses, v.devices[own].addresses);
    assert v.devices[own := v.devices[own]] == v.devices;
  }

  // ----- the server's part of a step -----

  /** Whatever the server does but accept a report, devices still in the index were there before
      and see an Equal view. */
  lemma OthersStay(w: World, server: ServerState, id: Identity)
    requires Indexed(w.server, id) && UpToDate(w, id)
    requires SameView(w.server.spec, server.spec, id.net, id.dev)
    ensures UpToDate(w.(server := server), id)
  {
    var v := CurrentView(w.server.spec, id.net, id.dev).value;
    var v' := CurrentView(server.spec, id.net, id.dev).value;
    ViewEqualIsEquivalence(w.running[id].view, v, v');
    if id in w.agents && !w.agents[id].phase.Idle? {
      ViewEqualIsEquivalence(w.agents[id].phase.view, v, v');
    }
  }

  lemma NewServerOk(w: World, server: ServerState, pub: Derivation)
    requires Inv(w, pub) && IndexInSpec(server)
    requires forall id | Indexed(server, id) ::
      Indexed(w.server, id) && SameView(w.server.spec, server.spec, id.net, id.dev)
    ensures Inv(w.(server := server), pub)
  {
    forall id | Indexed(server, id) ensures UpToDate(w.(server := server), id) {
      OthersStay(w, server, id);
    }
  }

  lemma ServerStepOk(w: World, r: Request, pub: Derivation)
    requires Inv(w, pub) && (r.ReplaceSpec? || r.PatchSpec?)
    ensures Inv(w.(server := Serve(w.server, r).0), pub)
    ensures forall id | Indexed(Serve(w.server, r).0, id) ::
      Indexed(w.server, id) && SameView(w.server.spec, Serve(w.server, r).0.spec, id.net, id.dev)
  {
    var server := Serve(w.server, r).0;
    forall id | Indexed(server, id)
      ensures Indexed(w.server, id) && SameView(w.server.spec, server.spec, id.net, id.dev)
    {
      if Indexed(w.server, id) {
        assert UpToDate(w, id);
      }
      StepKeepsOnlySame(w.server, r, id.net, id.dev);
    }
    IndexStays(w.server, r);
    NewServerOk(w, server, pub);
  }

  // ----- each step keeps the invariant -----

  /** Changing one agent, and possibly the machine it runs, leaves the others alone. */
  lemma AgentStepOk(w: World, id: Identity, a: Agent, pub: Derivation)
    requires Inv(w, pub)
    requires AgentOk(a, id, w.running, pub)
    requires Indexed(w.server, id) && !a.phase.Idle? ==>
               ViewEqual(a.phase.view, CurrentView(w.server.spec, id.net, id.dev).value)
    ensures Inv(w.(agents := w.agents[id := a]), pub)
  {
    var w' := w.(agents := w.agents[id := a]);
    forall i | Indexed(w'.server, i) ensures UpToDate(w', i) {
      AgentUpToDate(w, id, a, i);
    }
  }

  lemma AgentUpToDate(w: World, id: Identity, a: Agent, i: Identity)
    requires UpToDate(w, i)
    requires i == id && !a.phase.Idle? ==> ViewEqual(a.phase.view, CurrentView(w.server.spec, id.net, id.dev).value)
    ensures UpToDate(w.(agents := w.agents[id := a]), i)
  {
  }

  lemma FetchOk(w: World, id: Identity, d: Delivery, pub: Derivation)
    requires Inv(w, pub) && id in w.agents && w.agents[id].phase.Idle?
    ensures Inv(FetchStep(w, id, d), pub)
  {
    var a := w.agents[id];
    AgentStepOk(w, id, To(a, Idle), pub);
    if CurrentView(w.server.spec, id.net, id.dev).Some? {
      var v := CurrentView(w.server.spec, id.net, id.dev).value;
      DecodedEqual(v);
      if Indexed(w.server, id) {
        assert UpToDate(w, id);
        EqualToTextView(w.running[id].view, v);
      }
      AgentStepOk(w, id, To(a, Fetched(Decoded(v))), pub);
    }
  }

  /** Does the patch change the device's own entry in its view? */
  ghost predicate ChangesOwn(v: CensoredNetwork, dev: string, p: PatchRequest) {
    var i := ViewIndex(v.devices, dev);
    i >= 0 && !DeviceEqual(v.devices[i], ApplyPatch(CloneDevice(v.devices[i]), p))
  }

  lemma OwnPatchSeen(s: Spec, id: Identity, p: PatchRequest)
    requires CurrentView(s, id.net, id.dev).Some?
    requires ChangesOwn(CurrentView(s, id.net, id.dev).value, id.dev, p)
    ensures !SameView(s, PatchedSpec(s, id.net, id.dev, p), id.net, id.dev)
  {
    PatchViews(s, id.net, id.dev, p, id.net, id.dev);
    var v := CurrentView(s, id.net, id.dev).value;
    var i := ViewIndex(v.devices, id.dev);
    assert PatchedView(v, id.dev, p).devices[i] == ApplyPatch(CloneDevice(v.devices[i]), p);
  }

  /** A delivered PATCH that changes the device's own entry takes the device out of the index. */
  lemma DeliverOk(w: World, id: Identity, p: PatchRequest, d: Delivery, a: Agent, next: Phase, pub: Derivation)
    requires Inv(w, pub)
    requires AgentOk(To(a, next), id, w.running, pub)
    requires Indexed(w.server, id) ==> ChangesOwn(CurrentView(w.server.spec, id.net, id.dev).value, id.dev, p)
    ensures Inv(Deliver(w, id, p, d, a, next), pub)
  {
    var r := PatchSpec(id.net, id.dev, p);
    var (server, resp) := Serve(w.server, r);
    if d == NeverArrived {
      AgentStepOk(w, id, To(a, Idle), pub);
    } else {
      var w1 := w.(server := server);
      ServerStepOk(w, r, pub);
      if d == Answered && resp == Done {
        if Indexed(w.server, id) {
          assert UpToDate(w, id);
          OwnPatchSeen(w.server.spec, id, p);
        }
        AgentStepOk(w1, id, To(a, next), pub);
      } else {
        AgentStepOk(w1, id, To(a, Idle), pub);
      }
    }
  }

  lemma WithKeyOk(v: CensoredNetwork, own: nat, publicKey: Key, dev: string)
    requires FromWire(v) && own < |v.devices| && own == ViewIndex(v.devices, dev)
    ensures FromWire(WithKey(v, own, publicKey))
    ensures OwnKey(WithKey(v, own, publicKey), dev) == Some(publicKey)
    ensures v.devices[own].publicKey == publicKey ==> WithKey(v, own, publicKey) == v
  {
    SetOwnIndex(v, own, v.devices[own].(publicKey := publicKey), dev);
    assert v.devices[own] == Wire(v.devices[own]);
    assert v.devices[own := v.devices[own]] == v.devices;
  }

  lemma CrashOk(w: World, id: Identity, pub: Derivation)
    requires Inv(w, pub)
    ensures Inv(w.(agents := w.agents - {id}), pub)
  {
    var w' := w.(agents := w.agents - {id});
    forall i | Indexed(w'.server, i) ensures UpToDate(w', i) {
      assert UpToDate(w, i);
    }
  }

  /** A device in the index that finds another key in its view has it in the server's view as well. */
  lemma KeyRequestChanges(w: World, id: Identity, view: CensoredNetwork, publicKey: Key)
    requires Indexed(w.server, id) && UpToDate(w, id) && ViewIndex(view.devices, id.dev) >= 0
    requires ViewEqual(view, CurrentView(w.server.spec, id.net, id.dev).value)
    requires view.devices[ViewIndex(view.devices, id.dev)].publicKey != publicKey
    ensures ChangesOwn(CurrentView(w.server.spec, id.net, id.dev).value, id.dev, KeyPatch(publicKey))
  {
    EqualIndex(view, CurrentView(w.server.spec, id.net, id.dev).value, id.dev);
  }

  lemma KeyOk(w: World, id: Identity, newKey: Key, d: Delivery, pub: Derivation)
    requires Inv(w, pub) && id in w.agents && w.agents[id].phase.Fetched?
    ensures Inv(KeyStep(w, id, newKey, d, pub), pub)
  {
    var a := w.agents[id];
    var view := a.phase.view;
    var own := ViewIndex(view.devices, id.dev);
    if own < 0 {
      CrashOk(w, id, pub);
    } else {
      var a' := if a.key == UNSET_KEY then a.(key := newKey) else a;
      var next := KeyDone(WithKey(view, own, pub(a'.key)));
      WithKeyOk(view, own, pub(a'.key), id.dev);
      match KeyRequest(view, own, pub(a'.key)) {
        case None =>
          AgentStepOk(w, id, To(a', next), pub);
        case Some(p) =>
          if Indexed(w.server, id) {
            assert UpToDate(w, id);
            KeyRequestChanges(w, id, view, pub(a'.key));
          }
          DeliverOk(w, id, p, d, a', next, pub);
      }
    }
  }

  lemma ChooseOk(w: World, id: Identity, env: Surroundings, pub: Derivation)
    requires Inv(w, pub) && id in w.agents && w.agents[id].phase.KeyDone?
    ensures Inv(ChooseStep(w, id, env), pub)
  {
    var a := w.agents[id];
    var view := a.phase.view;
    var own := ViewIndex(view.devices, id.dev);
    if own >= 0 {
      ChoicesEqual(view, own, env, id.dev);
      if Indexed(w.server, id) {
        assert UpToDate(w, id);
        ViewEqualIsEquivalence(WithChoices(view, own, env), view, CurrentView(w.server.spec, id.net, id.dev).value);
      }
      AgentStepOk(w, id, To(a, EndpointsChosen(WithChoices(view, own, env))), pub);
    }
  }

  lemma AnnounceOk(w: World, id: Identity, d: Delivery, pub: Derivation)
    requires Inv(w, pub) && id in w.agents && w.agents[id].phase.EndpointsChosen?
    ensures Inv(AnnounceStep(w, id, d), pub)
  {
    var a := w.agents[id];
    var view := a.phase.view;
    var own := ViewIndex(view.devices, id.dev);
    var names := Announced(view.devices, a.canForward);
    var next := AccessDone(WithAccessible(view, own, names));
    SetOwnIndex(view, own, view.devices[own].(accessible := names), id.dev);
    match AccessRequest(view, own, names) {
      case None =>
        assert view.devices[own := view.devices[own]] == view.devices;
        AgentStepOk(w, id, To(a, next), pub);
      case Some(p) =>
        if Indexed(w.server, id) {
          assert UpToDate(w, id);
          var v := CurrentView(w.server.spec, id.net, id.dev).value;
          EqualIndex(view, v, id.dev);
          assert DeviceEqual(view.devices[own], v.devices[own]);
        }
        DeliverOk(w, id, p, d, a, next, pub);
    }
  }

  lemma SortedIsSorted(nets: seq<IPNet>)
    requires TextNets(nets) == nets
    ensures SortNets(SortNets(nets)) == SortNets(nets)
    ensures TextNets(SortNets(nets)) == SortNets(nets)
  {
    LessIPNetTotal();
    SortSeqSorted(LessIPNet, nets);
    SortSeqFixed(LessIPNet, SortNets(nets));
    SortTextNets(nets);
  }

  lemma OtherAgentOk(a: Agent, i: Identity, running: map<Identity, Running>, id: Identity, r: Running, pub: Derivation)
    requires i != id && AgentOk(a, i, running, pub)
    ensures AgentOk(a, i, running[id := r], pub)
  {
  }

  /** A device takes a new machine. */
  lemma RunningStepOk(w: World, id: Identity, a: Agent, r: Running, pub: Derivation)
    requires Inv(w, pub) && RunningOk(r, id, pub)
    requires a.phase == MachineApplied(r.view) && a.key == r.key
    requires Indexed(w.server, id) ==> ViewEqual(r.view, CurrentView(w.server.spec, id.net, id.dev).value)
    ensures Inv(World(w.server, w.agents[id := a], w.running[id := r]), pub)
  {
    var w' := World(w.server, w.agents[id := a], w.running[id := r]);
    forall i | i in w'.agents ensures AgentOk(w'.agents[i], i, w'.running, pub) {
      if i != id {
        OtherAgentOk(w.agents[i], i, w.running, id, r, pub);
      }
    }
    forall i | Indexed(w.server, i) ensures UpToDate(w', i) {
      StillUpToDate(w, id, a, r, i);
    }
  }

  lemma StillUpToDate(w: World, id: Identity, a: Agent, r: Running, i: Identity)
    requires UpToDate(w, i) && a.phase == MachineApplied(r.view)
    requires i == id ==> ViewEqual(r.view, CurrentView(w.server.spec, id.net, id.dev).value)
    ensures UpToDate(World(w.server, w.agents[id := a], w.running[id := r]), i)
  {
  }

  lemma SortedOwnOk(v: CensoredNetwork, own: nat, id: Identity, key: Key, pub: Derivation)
    requires TextAddresses(v) && own < |v.devices| && own == ViewIndex(v.devices, id.dev)
    requires OwnKey(v, id.dev) == Some(pub(key))
    ensures RunningOk(Running(WithSortedOwn(v, own), key), id, pub)
  {
    SetOwnIndex(v, own, v.devices[own].(addresses := SortNets(v.devices[own].addresses)), id.dev);
    SortedIsSorted(v.devices[own].addresses);
  }

  lemma ApplyOk(w: World, id: Identity, ok: bool, pub: Derivation)
    requires Inv(w, pub) && id in w.agents && w.agents[id].phase.AccessDone?
    ensures Inv(ApplyStep(w, id, ok), pub)
  {
    var a := w.agents[id];
    var view := a.phase.view;
    var own := ViewIndex(view.devices, id.dev);
    AgentStepOk(w, id, To(a, Idle), pub);
    if own >= 0 && ok {
      SortedOwnOk(view, own, id, a.key, pub);
      if Indexed(w.server, id) {
        assert UpToDate(w, id);
        var v := CurrentView(w.server.spec, id.net, id.dev).value;
        var running := w.running[id].view;
        ViewEqualIsEquivalence(view, v, running);
        ViewEqualIsEquivalence(running, v, view);
        EqualIndex(running, view, id.dev);
        SortKeepsEqual(view, own, running);
      }
      var applied := WithSortedOwn(view, own);
      RunningStepOk(w, id, To(a, MachineApplied(applied)), Running(applied, a.key), pub);
    }
  }

  lemma ReportOk(w: World, id: Identity, d: Delivery, pub: Derivation)
    requires Inv(w, pub) && id in w.agents && w.agents[id].phase.MachineApplied?
    ensures Inv(ReportStep(w, id, d), pub)
  {
    var a := w.agents[id];
    AgentStepOk(w, id, To(a, Idle), pub);
    if d != NeverArrived {
      AcceptOk(w.(agents := w.agents[id := To(a, Idle)]), id, a.phase.view, pub);
    }
  }

  /** A device that runs `view` and reports it. */
  lemma AcceptOk(w: World, id: Identity, view: CensoredNetwork, pub: Derivation)
    requires Inv(w, pub) && id in w.agents && w.agents[id].phase.Idle?
    requires id in w.running && w.running[id].view == view
    ensures Inv(w.(server := ServePost(w.server, id.net, id.dev, Decoded(view)).0), pub)
  {
    var (server, resp) := ServePost(w.server, id.net, id.dev, Decoded(view));
    var w' := w.(server := server);
    DecodedEqual(view);
    ViewEqualIsEquivalence(view, view, view);
    EqualToTextView(view, view);
    forall i | Indexed(server, i) ensures UpToDate(w', i) {
      PostKeeps(w.server, id.net, id.dev, Decoded(view), i.net, i.dev);
      if Indexed(w.server, i) {
        assert UpToDate(w, i);
      } else {
        assert i == id;
        ViewEqualIsEquivalence(Decoded(view), view, view);
        ViewEqualIsEquivalence(view, Decoded(view), CurrentView(w.server.spec, id.net, id.dev).value);
      }
    }
    PostKeeps(w.server, id.net, id.dev, Decoded(view), id.net, id.dev);
  }

  lemma NextOk(w: World, e: Event, pub: Derivation)
    requires Inv(w, pub)
    ensures Inv(Next(w, e, pub), pub)
  {
    match e {
      case ChangeSpec(s) => ServerStepOk(w, ReplaceSpec(s), pub);
      case Start(id, key, canForward) => AgentStepOk(w, id, Agent(Idle, key, canForward), pub);
      case Fetch(id, d) =>
        if id in w.agents && w.agents[id].phase.Idle? { FetchOk(w, id, d, pub); }
      case UpdateKey(id, newKey, d) =>
        if id in w.agents && w.agents[id].phase.Fetched? { KeyOk(w, id, newKey, d, pub); }
      case ChoosePeers(id, env) =>
        if id in w.agents && w.agents[id].phase.KeyDone? { ChooseOk(w, id, env, pub); }
      case Announce(id, d) =>
        if id in w.agents && w.agents[id].phase.EndpointsChosen? { AnnounceOk(w, id, d, pub); }
      case Apply(id, ok) =>
        if id in w.agents && w.agents[id].phase.AccessDone? { ApplyOk(w, id, ok, pub); }
      case Report(id, d) =>
        if id in w.agents && w.agents[id].phase.MachineApplied? { ReportOk(w, id, d, pub); }
    }
  }

  lemma {:induction false} RunOk(s: Spec, es: seq<Event>, pub: Derivation)
    ensures Inv(RunEvents(Initial(s), es, pub), pub)
  {
    if es != [] {
      RunOk(s, es[..|es|-1], pub);
      NextOk(RunEvents(Initial(s), es[..|es|-1], pub), es[|es|-1], pub);
    }
  }

  /** Safety. In every reachable state, a device in the index last applied a machine compiled from
      a view Equal to the one it would be sent now, and the key published for it in the spec is
      the public half of the private key in that machine. */
  lemma LatestIsApplied(s: Spec, es: seq<Event>, pub: Derivation, id: Identity)
    requires Indexed(RunEvents(Initial(s), es, pub).server, id)
    ensures var w := RunEvents(Initial(s), es, pub);
      && SeesItself(w.server.spec, id.net, id.dev)
      && id in w.running
      && ViewEqual(w.running[id].view, CurrentView(w.server.spec, id.net, id.dev).value)
      && GetDevice(GetNetwork(w.server.spec, id.net), id.dev).public.publicKey == pub(w.running[id].key)
  {
    RunOk(s, es, pub);
    var w := RunEvents(Initial(s), es, pub);
    assert UpToDate(w, id);
    var v := CurrentView(w.server.spec, id.net, id.dev).value;
    EqualIndex(w.running[id].view, v, id.dev);
    var n := GetNetwork(w.server.spec, id.net);
    VisibleFirst(GetDevice(n, id.dev).access, n.devices, id.dev);
  }

  /** A device whose view does not survive the round trip to the wire is never in the index. */
  lemma LatestIsFaithful(s: Spec, es: seq<Event>, pub: Derivation, id: Identity)
    requires Indexed(RunEvents(Initial(s), es, pub).server, id)
    ensures var spec := RunEvents(Initial(s), es, pub).server.spec;
      CurrentView(spec, id.net, id.dev).Some? && Faithful(CurrentView(spec, id.net, id.dev).value)
  {
    RunOk(s, es, pub);
    var w := RunEvents(Initial(s), es, pub);
    assert UpToDate(w, id);
    EqualToTextView(w.running[id].view, CurrentView(w.server.spec, id.net, id.dev).value);
  }

  // ----- sorting in place and the machine -----

  lemma SortKeepsFamilies(nets: seq<IPNet>, v4: bool)
    ensures HasFamily(SortNets(nets), v4) == HasFamily(nets, v4)
  {
    var s := SortNets(nets);
    if HasFamily(nets, v4) {
      var k :| 0 <= k < |nets| && To4(nets[k].ip).Some? == v4;
      assert nets[k] in multiset(s);
      assert nets[k] in s;
    }
    if HasFamily(s, v4) {
      var k :| 0 <= k < |s| && To4(s[k].ip).Some? == v4;
      assert s[k] in multiset(nets);
      assert s[k] in nets;
    }
  }

  /** The local addresses play no part in the peers. */
  lemma {:induction false} ForwardeesIgnoreOwn(a: Devices, b: Devices, me: nat, k: int, n: nat)
    requires n <= |a| == |b| && me < |a|
    requires forall i | 0 <= i < |a| && i != me :: a[i] == b[i]
    ensures Forwardees(a, me, k, n) == Forwardees(b, me, k, n)
    ensures forall l | 0 <= l < |Forwardees(a, me, k, n)| :: Forwardees(a, me, k, n)[l] != me
  {
    if n > 0 {
      ForwardeesIgnoreOwn(a, b, me, k, n - 1);
    }
  }

  lemma {:induction false} AddressesIgnoreOwn(a: Devices, b: Devices, me: nat, js: seq<nat>)
    requires |a| == |b| && forall i | 0 <= i < |a| && i != me :: a[i] == b[i]
    requires forall l | 0 <= l < |js| :: js[l] < |a| && js[l] != me
    ensures AddressesOf(a, js) == AddressesOf(b, js)
  {
    if js != [] {
      AddressesIgnoreOwn(a, b, me, js[..|js|-1]);
    }
  }

  lemma {:induction false} LoopsIgnoreOwn(a: Devices, b: Devices, me: nat, n: nat)
    requires n <= |a| == |b| && me < |a|
    requires forall i | 0 <= i < |a| && i != me :: a[i] == b[i]
    requires a[me].chosen == b[me].chosen
    ensures FaultBefore(a, me, true, n) == FaultBefore(b, me, true, n)
    ensures Peers(a, me, n) == Peers(b, me, n)
  {
    if n > 0 {
      LoopsIgnoreOwn(a, b, me, n - 1);
      assert FaultAt(a, me, true, n - 1) == FaultAt(b, me, true, n - 1);
      ForwardeesIgnoreOwn(a, b, me, n - 1, |a|);
      AddressesIgnoreOwn(a, b, me, Forwardees(a, me, n - 1, |a|));
    }
  }

  /** Sorting the local addresses of a view sorts those of the machine compiled from it, and
      changes nothing else: after applying, the machine is still the one of the local view. */
  lemma SortedMachine(v: CensoredNetwork, dev: string)
    requires ViewIndex(v.devices, dev) >= 0
    ensures CompileNetwork(WithSortedOwn(v, ViewIndex(v.devices, dev)), dev, true)
         == match CompileNetwork(v, dev, true)
            case Built(iface, v4, v6) => Built(iface.(addresses := SortNets(iface.addresses)), v4, v6)
            case other => other
  {
    var own := ViewIndex(v.devices, dev);
    var sorted := v.devices[own].(addresses := SortNets(v.devices[own].addresses));
    var w := WithSortedOwn(v, own);
    forall name ensures ViewIndex(w.devices, name) == ViewIndex(v.devices, name) {
      SetOwnIndex(v, own, sorted, name);
    }
    FlagsIgnoreOrder(v.devices, w.devices, own, true);
    FlagsIgnoreOrder(v.devices, w.devices, own, false);
    RangeIgnoresOwn(v.devices, w.devices, own);
    LoopsIgnoreOwn(v.devices, w.devices, own, |v.devices|);
  }

  lemma FlagsIgnoreOrder(a: Devices, b: Devices, me: nat, v4: bool)
    requires me < |a| == |b| && forall i | 0 <= i < |a| && i != me :: a[i] == b[i]
    requires b[me] == a[me].(addresses := SortNets(a[me].addresses))
    requires forall name :: ViewIndex(b, name) == ViewIndex(a, name)
    ensures AccessibleKnown(b, me) == AccessibleKnown(a, me)
    ensures ForwardsFamily(b, me, v4) == ForwardsFamily(a, me, v4)
  {
    SortKeepsFamilies(a[me].addresses, v4);
    assert forall i | 0 <= i < |a| :: HasFamily(b[i].addresses, v4) == HasFamily(a[i].addresses, v4);
  }

  lemma RangeIgnoresOwn(a: Devices, b: Devices, me: nat)
    requires me < |a| == |b| && forall i | 0 <= i < |a| && i != me :: a[i] == b[i]
    ensures IndexesInRange(b, me) == IndexesInRange(a, me)
  {
    assert forall i | 0 <= i < |a| && i != me :: Keyed(b, i) == Keyed(a, i) && Forwarded(b, i) == Forwarded(a, i);
  }
}
