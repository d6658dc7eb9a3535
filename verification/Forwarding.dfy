/** A consequence of the incomplete Clone: two devices that both announce something to forward
    for can never be up to date at the same time, once anything has been patched. */
module Forwarding {
  import opened Prelude
  import opened NetAddr
  import opened Specs
  import opened Coord
  import opened CoordIndex
  import opened Compile
  import opened Choosing
  import opened DeviceClient
  import opened Protocol

  predicate Announces(s: Spec, i: nat, j: nat)
    requires i < |s.networks| && j < |s.networks[i].devices|
  {
    s.networks[i].devices[j].public.accessible != []
  }

  /** At most one device of the whole spec announces anything. */
  ghost predicate OneAnnouncer(s: Spec) {
    forall i, j, k, l |
      && 0 <= i < |s.networks| && 0 <= j < |s.networks[i].devices|
      && 0 <= k < |s.networks| && 0 <= l < |s.networks[k].devices|
      && Announces(s, i, j) && Announces(s, k, l) :: i == k && j == l
  }

  lemma PatchLeavesOne(s: Spec, net: string, dev: string, p: PatchRequest)
    requires Known(s, net, dev)
    ensures OneAnnouncer(PatchedSpec(s, net, dev, p))
  {
    var t := PatchedSpec(s, net, dev, p);
    var nI := NetworkIndex(s, net);
    var dI := DeviceIndex(s.networks[nI].devices, dev);
    forall i, j | 0 <= i < |t.networks| && 0 <= j < |t.networks[i].devices| && Announces(t, i, j)
      ensures i == nI && j == dI
    {
    }
  }

  /** The PATCH that a device sends in this step, if any. */
  function SentPatch(w: World, e: Event, pub: Derivation): Option<PatchRequest> {
    match e
    case UpdateKey(id, newKey, _) =>
      if id in w.agents && w.agents[id].phase.Fetched? then
        var a := w.agents[id];
        var own := ViewIndex(a.phase.view.devices, id.dev);
        if own < 0 then None
        else KeyRequest(a.phase.view, own, pub(if a.key == UNSET_KEY then newKey else a.key))
      else None
    case Announce(id, _) =>
      if id in w.agents && w.agents[id].phase.EndpointsChosen? then
        var a := w.agents[id];
        var own := ViewIndex(a.phase.view.devices, id.dev);
        if own < 0 then None
        else AccessRequest(a.phase.view, own, Announced(a.phase.view.devices, a.canForward))
      else None
    case _ => None
  }

  /** Does the server carry out a PATCH in this step, even one that changes nothing? */
  predicate Patches(w: World, e: Event, pub: Derivation) {
    SentPatch(w, e, pub).Some? && e.delivery != NeverArrived && Send(w.server, e.id, SentPatch(w, e, pub)).1 == Done
  }

  /** Has a PATCH been carried out since the spec was last replaced? */
  ghost predicate PatchedSince(s: Spec, es: seq<Event>, pub: Derivation) {
    if es == [] then false
    else
      var before := RunEvents(Initial(s), es[..|es|-1], pub);
      !es[|es|-1].ChangeSpec? && (PatchedSince(s, es[..|es|-1], pub) || Patches(before, es[|es|-1], pub))
  }

  /** A step without a PATCH keeps the spec; one with a PATCH leaves at most one announcer. */
  lemma StepLeavesOne(w: World, e: Event, pub: Derivation)
    requires !e.ChangeSpec?
    ensures !Patches(w, e, pub) ==> Next(w, e, pub).server.spec == w.server.spec
    ensures Patches(w, e, pub) ==> OneAnnouncer(Next(w, e, pub).server.spec)
  {
    if SentPatch(w, e, pub).Some? {
      var p := SentPatch(w, e, pub).value;
      SentIsDelivered(w, e, pub);
      if Patches(w, e, pub) {
        PatchLeavesOne(w.server.spec, e.id.net, e.id.dev, p);
      }
    } else {
      NoPatchNoChange(w, e, pub);
    }
  }

  lemma SentIsDelivered(w: World, e: Event, pub: Derivation)
    requires SentPatch(w, e, pub).Some?
    ensures Next(w, e, pub).server
         == if e.delivery == NeverArrived then w.server else Send(w.server, e.id, SentPatch(w, e, pub)).0
  {
  }

  lemma NoPatchNoChange(w: World, e: Event, pub: Derivation)
    requires !e.ChangeSpec? && SentPatch(w, e, pub).None?
    ensures Next(w, e, pub).server.spec == w.server.spec
    ensures !e.Report? ==> Next(w, e, pub).server == w.server
  {
  }

  lemma {:induction false} PatchedHasOne(s: Spec, es: seq<Event>, pub: Derivation)
    requires PatchedSince(s, es, pub)
    ensures OneAnnouncer(RunEvents(Initial(s), es, pub).server.spec)
  {
    var front, last := es[..|es|-1], es[|es|-1];
    StepLeavesOne(RunEvents(Initial(s), front, pub), last, pub);
    if PatchedSince(s, front, pub) {
      PatchedHasOne(s, front, pub);
    }
  }

  /** What a device in the index announces is what the spec says it announces. */
  lemma RunningAnnouncement(w: World, pub: Derivation, id: Identity)
    requires Inv(w, pub) && Indexed(w.server, id)
    ensures id in w.running && Known(w.server.spec, id.net, id.dev)
    ensures var v := w.running[id].view;
      && ViewIndex(v.devices, id.dev) >= 0
      && v.devices[ViewIndex(v.devices, id.dev)].accessible
         == GetDevice(GetNetwork(w.server.spec, id.net), id.dev).public.accessible
  {
    assert UpToDate(w, id);
    var v := CurrentView(w.server.spec, id.net, id.dev).value;
    EqualIndex(w.running[id].view, v, id.dev);
    assert RunningOk(w.running[id], id, pub);
    var own := ViewIndex(v.devices, id.dev);
    assert DeviceEqual(w.running[id].view.devices[own], v.devices[own]);
    var n := GetNetwork(w.server.spec, id.net);
    VisibleFirst(GetDevice(n, id.dev).access, n.devices, id.dev);
  }

  /** In every run in which a PATCH was carried out after the spec was last replaced: of two devices that
      are both in the index, at least one runs a machine that announces nothing. Two forwarding
      devices therefore keep displacing each other for ever. */
  lemma TwoForwardersNeverBothLatest(s: Spec, es: seq<Event>, pub: Derivation, a: Identity, b: Identity)
    requires PatchedSince(s, es, pub) && a != b
    requires var w := RunEvents(Initial(s), es, pub);
      Indexed(w.server, a) && Indexed(w.server, b)
    ensures var w := RunEvents(Initial(s), es, pub);
      && a in w.running && b in w.running
      && var va, vb := w.running[a].view, w.running[b].view;
         var i, j := ViewIndex(va.devices, a.dev), ViewIndex(vb.devices, b.dev);
         i >= 0 && j >= 0 && (va.devices[i].accessible == [] || vb.devices[j].accessible == [])
  {
    var w := RunEvents(Initial(s), es, pub);
    RunOk(s, es, pub);
    PatchedHasOne(s, es, pub);
    RunningAnnouncement(w, pub, a);
    RunningAnnouncement(w, pub, b);
    var t := w.server.spec;
    var i, k := NetworkIndex(t, a.net), NetworkIndex(t, b.net);
    var j, l := DeviceIndex(t.networks[i].devices, a.dev), DeviceIndex(t.networks[k].devices, b.dev);
    assert i == k && j == l ==> a.net == b.net && a.dev == b.dev by {
      assert t.networks[i].name == a.net && t.networks[k].name == b.net;
      assert t.networks[i].devices[j].public.name == a.dev && t.networks[k].devices[l].public.name == b.dev;
    }
    assert !(Announces(t, i, j) && Announces(t, k, l));
  }

  // ----- one undisturbed call is a run of the protocol -----

  /** The steps of one call of ReifySpec whose requests are all answered. */
  function CallEvents(id: Identity, r: Round): seq<Event> {
    [Fetch(id, Answered), UpdateKey(id, r.newKey, Answered), ChoosePeers(id, r.env),
     Announce(id, Answered), Apply(id, true), Report(id, Answered)]
  }

  function CallSteps(w: World, id: Identity, r: Round, pub: Derivation): World {
    var w1 := Next(w, Fetch(id, Answered), pub);
    var w2 := Next(w1, UpdateKey(id, r.newKey, Answered), pub);
    var w3 := Next(w2, ChoosePeers(id, r.env), pub);
    var w4 := Next(w3, Announce(id, Answered), pub);
    var w5 := Next(w4, Apply(id, true), pub);
    Next(w5, Report(id, Answered), pub)
  }

  lemma CallIsRun(w: World, id: Identity, r: Round, pub: Derivation)
    ensures RunEvents(w, CallEvents(id, r), pub) == CallSteps(w, id, r, pub)
  {
    var es := CallEvents(id, r);
    assert es[..5][..4] == es[..4] && es[..4][..3] == es[..3] && es[..3][..2] == es[..2] && es[..2][..1] == es[..1];
    assert es[..1][..0] == [];
    assert RunEvents(w, es[..1], pub) == Next(w, es[0], pub);
    assert RunEvents(w, es[..2], pub) == Next(RunEvents(w, es[..1], pub), es[1], pub);
    assert RunEvents(w, es[..3], pub) == Next(RunEvents(w, es[..2], pub), es[2], pub);
    assert RunEvents(w, es[..4], pub) == Next(RunEvents(w, es[..3], pub), es[3], pub);
    assert RunEvents(w, es[..5], pub) == Next(RunEvents(w, es[..4], pub), es[4], pub);
    assert es[..6] == es;
  }

  /** A world in which device `id` is in state `a` and everybody else as in `base`. */
  function At(base: map<Identity, Agent>, id: Identity, srv: ServerState, a: Agent,
              running: map<Identity, Running>): World
  {
    World(srv, base[id := a], running)
  }

  lemma MoveOn(base: map<Identity, Agent>, id: Identity, a: Agent, b: Agent)
    ensures base[id := a][id := b] == base[id := b]
  {
  }

  lemma FetchPhase(base: map<Identity, Agent>, id: Identity, srv: ServerState, a: Agent,
                   running: map<Identity, Running>,
                   pub: Derivation, v: CensoredNetwork)
    requires a.phase.Idle? && CurrentView(srv.spec, id.net, id.dev) == Some(v)
    ensures Next(At(base, id, srv, a, running), Fetch(id, Answered), pub)
         == At(base, id, srv, To(a, Fetched(Decoded(v))), running)
  {
    MoveOn(base, id, a, To(a, Fetched(Decoded(v))));
  }

  lemma KeyPhase(base: map<Identity, Agent>, id: Identity, srv: ServerState, a: Agent, running: map<Identity, Running>,
                 pub: Derivation, own: nat, key: Key, newKey: Key)
    requires a.phase.Fetched? && own == ViewIndex(a.phase.view.devices, id.dev)
    requires key == if a.key == UNSET_KEY then newKey else a.key
    requires Send(srv, id, KeyRequest(a.phase.view, own, pub(key))).1 == Done
    ensures Next(At(base, id, srv, a, running), UpdateKey(id, newKey, Answered), pub)
         == At(base, id, Send(srv, id, KeyRequest(a.phase.view, own, pub(key))).0,
               Agent(KeyDone(WithKey(a.phase.view, own, pub(key))), key, a.canForward), running)
  {
    MoveOn(base, id, a, Agent(KeyDone(WithKey(a.phase.view, own, pub(key))), key, a.canForward));
  }

  lemma ChoosePhase(base: map<Identity, Agent>, id: Identity, srv: ServerState, a: Agent,
                    running: map<Identity, Running>,
                    pub: Derivation, own: nat, env: Surroundings)
    requires a.phase.KeyDone? && own == ViewIndex(a.phase.view.devices, id.dev)
    ensures Next(At(base, id, srv, a, running), ChoosePeers(id, env), pub)
         == At(base, id, srv, To(a, EndpointsChosen(WithChoices(a.phase.view, own, env))), running)
  {
    MoveOn(base, id, a, To(a, EndpointsChosen(WithChoices(a.phase.view, own, env))));
  }

  lemma AnnouncePhase(base: map<Identity, Agent>, id: Identity, srv: ServerState, a: Agent,
                      running: map<Identity, Running>,
                      pub: Derivation, own: nat)
    requires a.phase.EndpointsChosen? && own == ViewIndex(a.phase.view.devices, id.dev)
    requires Send(srv, id, AccessRequest(a.phase.view, own, Announced(a.phase.view.devices, a.canForward))).1 == Done
    ensures var names := Announced(a.phase.view.devices, a.canForward);
      Next(At(base, id, srv, a, running), Announce(id, Answered), pub)
      == At(base, id, Send(srv, id, AccessRequest(a.phase.view, own, names)).0,
            To(a, AccessDone(WithAccessible(a.phase.view, own, names))), running)
  {
    MoveOn(base, id, a,
           To(a, AccessDone(WithAccessible(a.phase.view, own, Announced(a.phase.view.devices, a.canForward)))));
  }

  lemma FinishPhases(base: map<Identity, Agent>, id: Identity, srv: ServerState, a: Agent,
                     running: map<Identity, Running>,
                     pub: Derivation, own: nat)
    requires a.phase.AccessDone? && own == ViewIndex(a.phase.view.devices, id.dev)
    requires Finish(srv, id, a.phase.view, own, ACCEPTED).1.Reified?
    ensures Next(Next(At(base, id, srv, a, running), Apply(id, true), pub), Report(id, Answered), pub)
         == At(base, id, Finish(srv, id, a.phase.view, own, ACCEPTED).0, To(a, Idle),
               running[id := Running(WithSortedOwn(a.phase.view, own), a.key)])
  {
    var applied := WithSortedOwn(a.phase.view, own);
    MoveOn(base, id, a, To(a, MachineApplied(applied)));
    MoveOn(base, id, To(a, MachineApplied(applied)), To(a, Idle));
    var r := running[id := Running(applied, a.key)];
    assert Next(At(base, id, srv, a, running), Apply(id, true), pub)
      == At(base, id, srv, To(a, MachineApplied(applied)), r);
  }

  lemma PhasesCompose(base: map<Identity, Agent>, id: Identity, srv: ServerState, a: Agent,
                      running: map<Identity, Running>,
                      r: Round, pub: Derivation, v: CensoredNetwork, own: nat, key: Key)
    requires a.phase.Idle? && CurrentView(srv.spec, id.net, id.dev) == Some(v)
    requires own < |v.devices| && own == ViewIndex(v.devices, id.dev)
    requires key == if a.key == UNSET_KEY then r.newKey else a.key
    requires Execute(srv, id, MakePlan(v, own, pub(key), a.canForward, r.env), own, ACCEPTED).1.Reified?
    ensures var p := MakePlan(v, own, pub(key), a.canForward, r.env);
      CallSteps(At(base, id, srv, a, running), id, r, pub)
      == At(base, id, Execute(srv, id, p, own, ACCEPTED).0, Agent(Idle, key, a.canForward),
            running[id := Running(WithSortedOwn(p.view, own), key)])
  {
    var p := MakePlan(v, own, pub(key), a.canForward, r.env);
    var v0 := Decoded(v);
    var v1 := WithKey(v0, own, pub(key));
    var v2 := WithChoices(v1, own, r.env);
    DecodedIndex(v, id.dev);
    DecodedEqual(v);
    WithKeyOk(v0, own, pub(key), id.dev);
    SetOwnIndex(v0, own, v0.devices[own].(publicKey := pub(key)), id.dev);
    ChoiceIndex(v1, own, r.env, id.dev);
    SetOwnIndex(v2, own, p.view.devices[own], id.dev);
    FetchPhase(base, id, srv, a, running, pub, v);
    KeyPhase(base, id, srv, To(a, Fetched(v0)), running, pub, own, key, r.newKey);
    var srv1 := Send(srv, id, p.keyPatch).0;
    var a1 := Agent(KeyDone(v1), key, a.canForward);
    ChoosePhase(base, id, srv1, a1, running, pub, own, r.env);
    AnnouncePhase(base, id, srv1, To(a1, EndpointsChosen(v2)), running, pub, own);
    FinishPhases(base, id, Send(srv1, id, p.accessPatch).0, To(a1, AccessDone(p.view)), running, pub, own);
  }

  /** The function Reify, about which convergence is proved, is the protocol without
      interference: the same server state, the same key, and the planned machine left running. */
  lemma ReifyIsRun(w: World, id: Identity, r: Round, pub: Derivation)
    requires id in w.agents && w.agents[id].phase.Idle?
    requires var a := w.agents[id]; Reify(w.server, ClientState(id, a.key, a.canForward), pub, r).2.Reified?
    ensures SeesItself(w.server.spec, id.net, id.dev)
    ensures var a := w.agents[id];
      var (srv, c, o) := Reify(w.server, ClientState(id, a.key, a.canForward), pub, r);
      var v := CurrentView(w.server.spec, id.net, id.dev).value;
      var own := ViewIndex(v.devices, id.dev);
      var p := MakePlan(v, own, pub(c.key), a.canForward, r.env);
      RunEvents(w, CallEvents(id, r), pub)
      == World(srv, w.agents[id := Agent(Idle, c.key, a.canForward)],
               w.running[id := Running(WithSortedOwn(p.view, own), c.key)])
  {
    var a := w.agents[id];
    var c := ClientState(id, a.key, a.canForward);
    var key := KeyInUse(c, r);
    ReifiedIsExecuted(w.server, c, pub, r);
    var v := CurrentView(w.server.spec, id.net, id.dev).value;
    var own := ViewIndex(v.devices, id.dev);
    var p := MakePlan(v, own, pub(key), a.canForward, r.env);
    CallIsRun(w, id, r, pub);
    AtSelf(w, id);
    PhasesCompose(w.agents, id, w.server, a, w.running, r, pub, v, own, key);
    assert CallSteps(w, id, r, pub)
        == At(w.agents, id, Execute(w.server, id, p, own, ACCEPTED).0, Agent(Idle, key, a.canForward),
              w.running[id := Running(WithSortedOwn(p.view, own), key)]);
  }

  lemma AtSelf(w: World, id: Identity)
    requires id in w.agents
    ensures At(w.agents, id, w.server, w.agents[id], w.running) == w
  {
    assert w.agents[id := w.agents[id]] == w.agents;
  }

  lemma ReifiedIsExecuted(srv: ServerState, c: ClientState, pub: Derivation, r: Round)
    requires Reify(srv, c, pub, r).2.Reified?
    ensures SeesItself(srv.spec, c.id.net, c.id.dev)
    ensures var v := CurrentView(srv.spec, c.id.net, c.id.dev).value;
      var own := ViewIndex(v.devices, c.id.dev);
      var key := KeyInUse(c, r);
      var p := MakePlan(v, own, pub(key), c.canForward, r.env);
      && own >= 0
      && Execute(srv, c.id, p, own, ACCEPTED).1.Reified?
      && Reify(srv, c, pub, r)
        == (Execute(srv, c.id, p, own, ACCEPTED).0, c.(key := key), Execute(srv, c.id, p, own, ACCEPTED).1)
  {
    var v := CurrentView(srv.spec, c.id.net, c.id.dev).value;
    var own := ViewIndex(v.devices, c.id.dev);
    ExecuteNeedsBoth(srv, c.id, MakePlan(v, own, pub(KeyInUse(c, r)), c.canForward, r.env), own, r.verdict);
  }

  lemma ExecuteNeedsBoth(srv: ServerState, id: Identity, p: Plan, own: nat, verdict: Verdict)
    requires own < |p.view.devices| && Execute(srv, id, p, own, verdict).1.Reified?
    ensures verdict == ACCEPTED
  {
  }

  lemma ChoiceIndex(v: CensoredNetwork, own: nat, env: Surroundings, name: string)
    requires FromWire(v)
    ensures ViewIndex(WithChoices(v, own, env).devices, name) == ViewIndex(v.devices, name)
  {
    ForwardersRanked(v.devices, own, env);
    var w := WithChoices(v, own, env).devices;
    assert OnlyChoices(v.devices, w, own);
    forall k | 0 <= k < |w| ensures w[k].name == v.devices[k].name {
      assert w[k].(chosen := false, usesForwarder := false, endpointIndex := 0, forwarderIndex := 0).name
          == v.devices[k].(chosen := false, usesForwarder := false, endpointIndex := 0, forwarderIndex := 0).name;
    }
    assert ViewIndex(w, name) >= 0 ==> v.devices[ViewIndex(w, name)].name == name;
    assert ViewIndex(v.devices, name) >= 0 ==> w[ViewIndex(v.devices, name)].name == name;
  }
}
