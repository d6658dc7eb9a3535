/** Requests that reach the server at a time of their own, when their sender has given up on them.
    Late patches do no harm; late reports do, exactly when they match by accident. */
module Late {
  import opened Prelude
  import opened NetAddr
  import opened Orders
  import opened Specs
  import opened Coord
  import opened CoordIndex
  import opened Choosing
  import opened DeviceClient
  import opened Protocol
  import Forwarding

  /** The server handles a report of the device that was sent at some earlier time. */
  function DeliverLate(w: World, id: Identity, report: CensoredNetwork): World {
    w.(server := ServePost(w.server, id.net, id.dev, report).0)
  }

  /** A late PATCH does no harm, whoever sent it and when. */
  lemma LatePatchSafe(w: World, id: Identity, p: PatchRequest, pub: Derivation)
    requires Inv(w, pub)
    ensures Inv(w.(server := Serve(w.server, PatchSpec(id.net, id.dev, p)).0), pub)
  {
    ServerStepOk(w, PatchSpec(id.net, id.dev, p), pub);
  }

  // ----- when a late report does no harm -----

  /** Does the device see what the report says? This is what the server compares. */
  predicate Matches(st: ServerState, id: Identity, report: CensoredNetwork) {
    var v := CurrentView(st.spec, id.net, id.dev);
    v.Some? && ViewEqual(report, v.value)
  }

  /** Does the device still run what the report says? This is up to the device alone. */
  predicate StillRuns(w: World, id: Identity, report: CensoredNetwork) {
    id in w.running && ViewEqual(w.running[id].view, report)
  }

  /** Is it working on nothing else, either? */
  predicate StillWorksOn(w: World, id: Identity, report: CensoredNetwork) {
    id in w.agents && !w.agents[id].phase.Idle? ==> ViewEqual(w.agents[id].phase.view, report)
  }

  /** A late report makes the index wrong if and only if it matches although the device runs
      something else by now. */
  lemma LateReportSafeIff(w: World, id: Identity, report: CensoredNetwork)
    requires IndexInSpec(w.server) && Safe(w)
    ensures Safe(DeliverLate(w, id, report)) <==> (Matches(w.server, id, report) ==> StillRuns(w, id, report))
  {
    var w' := DeliverLate(w, id, report);
    LateIndexed(w, id, report);
    forall i ensures RunsCurrent(w', i) <==> RunsCurrent(w, i) {}
    if Matches(w.server, id, report) {
      var v := CurrentView(w.server.spec, id.net, id.dev).value;
      if StillRuns(w, id, report) {
        ViewEqualIsEquivalence(w.running[id].view, report, v);
      } else if RunsCurrent(w, id) {
        ViewEqualIsEquivalence(report, v, v);
        ViewEqualIsEquivalence(w.running[id].view, v, report);
      }
      assert Indexed(w'.server, id);
    }
  }

  /** It may be right now and become wrong as soon as the device goes on, unless the device is not
      working on anything else: with that, the invariant of the protocol survives, and only so. */
  lemma LateReportKeepsIff(w: World, id: Identity, report: CensoredNetwork, pub: Derivation)
    requires Inv(w, pub)
    ensures Inv(DeliverLate(w, id, report), pub)
            <==> (Matches(w.server, id, report) ==> StillRuns(w, id, report) && StillWorksOn(w, id, report))
  {
    if Matches(w.server, id, report) ==> StillRuns(w, id, report) && StillWorksOn(w, id, report) {
      LateReportKeeps(w, id, report, pub);
    } else {
      LateReportLoses(w, id, report);
    }
  }

  lemma LateReportKeeps(w: World, id: Identity, report: CensoredNetwork, pub: Derivation)
    requires Inv(w, pub)
    requires Matches(w.server, id, report) ==> StillRuns(w, id, report) && StillWorksOn(w, id, report)
    ensures Inv(DeliverLate(w, id, report), pub)
  {
    var w' := DeliverLate(w, id, report);
    LateIndexed(w, id, report);
    PostKeeps(w.server, id.net, id.dev, report, id.net, id.dev);
    forall i | Indexed(w'.server, i) ensures UpToDate(w', i) {
      StandsAsBefore(w, id, report, i);
      if !Indexed(w.server, i) {
        LateWork(w, id, report);
      }
    }
  }

  lemma LateReportLoses(w: World, id: Identity, report: CensoredNetwork)
    requires IndexInSpec(w.server) && Matches(w.server, id, report)
    requires !(StillRuns(w, id, report) && StillWorksOn(w, id, report))
    ensures Indexed(DeliverLate(w, id, report).server, id) && !UpToDate(DeliverLate(w, id, report), id)
  {
    LateIndexed(w, id, report);
    StandsAsBefore(w, id, report, id);
    if StillRuns(w, id, report) {
      LateWork(w, id, report);
    } else if RunsCurrent(w, id) {
      var v := CurrentView(w.server.spec, id.net, id.dev).value;
      ViewEqualIsEquivalence(report, v, v);
      ViewEqualIsEquivalence(w.running[id].view, v, report);
    }
  }

  /** Reports do not touch the spec, so nobody's standing depends on them. */
  lemma StandsAsBefore(w: World, id: Identity, report: CensoredNetwork, i: Identity)
    ensures UpToDate(DeliverLate(w, id, report), i) <==> UpToDate(w, i)
  {
  }

  lemma LateWork(w: World, id: Identity, report: CensoredNetwork)
    requires Matches(w.server, id, report) && StillRuns(w, id, report)
    ensures UpToDate(w, id) <==> StillWorksOn(w, id, report)
  {
    var v := CurrentView(w.server.spec, id.net, id.dev).value;
    ViewEqualIsEquivalence(w.running[id].view, report, v);
    if id in w.agents && !w.agents[id].phase.Idle? {
      ViewEqualIsEquivalence(report, v, v);
      ViewEqualIsEquivalence(w.agents[id].phase.view, report, v);
      ViewEqualIsEquivalence(w.agents[id].phase.view, v, report);
    }
  }

  lemma LateIndexed(w: World, id: Identity, report: CensoredNetwork)
    requires IndexInSpec(w.server)
    ensures forall i :: Indexed(DeliverLate(w, id, report).server, i)
                        <==> Indexed(w.server, i) || (i == id && Matches(w.server, id, report))
  {
    forall i ensures Indexed(DeliverLate(w, id, report).server, i)
                     <==> Indexed(w.server, i) || (i == id && Matches(w.server, id, report))
    {
      PostKeeps(w.server, id.net, id.dev, report, i.net, i.dev);
    }
  }

  // ----- runs with late requests -----

  /** An event of the protocol, or a request, by anybody and with any content, that arrives at a time
      of its own. */
  datatype Occurrence =
    | OnTime(event: Event)
    | LatePatch(id: Identity, patch: PatchRequest)
    | LateReport(id: Identity, report: CensoredNetwork)

  function Occur(w: World, o: Occurrence, pub: Derivation): World {
    match o
    case OnTime(e) => Next(w, e, pub)
    case LatePatch(id, p) => w.(server := Serve(w.server, PatchSpec(id.net, id.dev, p)).0)
    case LateReport(id, report) => DeliverLate(w, id, report)
  }

  function RunLate(s: Spec, os: seq<Occurrence>, pub: Derivation): World {
    if os == [] then Initial(s) else Occur(RunLate(s, os[..|os|-1], pub), os[|os|-1], pub)
  }

  /** A report that matches by accident: the device has moved on from what it reports. */
  predicate Stale(w: World, o: Occurrence) {
    o.LateReport? && Matches(w.server, o.id, o.report)
    && !(StillRuns(w, o.id, o.report) && StillWorksOn(w, o.id, o.report))
  }

  ghost predicate NothingStale(s: Spec, os: seq<Occurrence>, pub: Derivation) {
    os == [] || (NothingStale(s, os[..|os|-1], pub) && !Stale(RunLate(s, os[..|os|-1], pub), os[|os|-1]))
  }

  /** Does `holds` hold initially and after every occurrence? */
  ghost predicate Throughout(holds: World -> bool, s: Spec, os: seq<Occurrence>, pub: Derivation) {
    holds(RunLate(s, os, pub)) && (os == [] || Throughout(holds, s, os[..|os|-1], pub))
  }

  lemma OccurKeepsIff(w: World, o: Occurrence, pub: Derivation)
    requires Inv(w, pub)
    ensures Inv(Occur(w, o, pub), pub) <==> !Stale(w, o)
  {
    match o {
      case OnTime(e) => NextOk(w, e, pub);
      case LatePatch(id, p) => LatePatchSafe(w, id, p, pub);
      case LateReport(id, report) => LateReportKeepsIff(w, id, report, pub);
    }
  }

  /** The invariant holds throughout a run with late requests if and only if no stale report ever
      arrives in it. */
  lemma {:induction false} LateRunsOkIff(s: Spec, os: seq<Occurrence>, pub: Derivation)
    ensures Throughout(w => Inv(w, pub), s, os, pub) <==> NothingStale(s, os, pub)
  {
    if os == [] {
      assert Inv(Initial(s), pub);
    } else {
      var w := RunLate(s, os[..|os|-1], pub);
      LateRunsOkIff(s, os[..|os|-1], pub);
      if Inv(w, pub) {
        OccurKeepsIff(w, os[|os|-1], pub);
      }
    }
  }

  /** Safety over runs with late requests. */
  lemma LatestIsAppliedLate(s: Spec, os: seq<Occurrence>, pub: Derivation, id: Identity)
    requires NothingStale(s, os, pub) && Indexed(RunLate(s, os, pub).server, id)
    ensures var w := RunLate(s, os, pub);
      && RunsCurrent(w, id)
      && OwnKey(CurrentView(w.server.spec, id.net, id.dev).value, id.dev) == Some(pub(w.running[id].key))
  {
    LateRunsOkIff(s, os, pub);
    var w := RunLate(s, os, pub);
    assert Inv(w, pub) && UpToDate(w, id) && RunningOk(w.running[id], id, pub);
    EqualIndex(w.running[id].view, CurrentView(w.server.spec, id.net, id.dev).value, id.dev);
  }

  /** Entries of the index are of networks in the spec, whatever arrives when. */
  lemma OccurIndex(w: World, o: Occurrence, pub: Derivation)
    requires IndexInSpec(w.server)
    ensures IndexInSpec(Occur(w, o, pub).server)
  {
    match o {
      case OnTime(e) => NextIndex(w, e, pub);
      case LatePatch(id, p) => IndexStays(w.server, PatchSpec(id.net, id.dev, p));
      case LateReport(id, report) => PostKeeps(w.server, id.net, id.dev, report, id.net, id.dev);
    }
  }

  lemma NextIndex(w: World, e: Event, pub: Derivation)
    requires IndexInSpec(w.server)
    ensures IndexInSpec(Next(w, e, pub).server)
  {
    match e {
      case ChangeSpec(s) => IndexStays(w.server, ReplaceSpec(s));
      case UpdateKey(id, newKey, d) => SentIndex(w, e, pub);
      case Announce(id, d) => SentIndex(w, e, pub);
      case Report(id, d) =>
        if id in w.agents && w.agents[id].phase.MachineApplied? {
          PostKeeps(w.server, id.net, id.dev, Decoded(w.agents[id].phase.view), id.net, id.dev);
        }
      case _ =>
    }
  }

  lemma SentIndex(w: World, e: Event, pub: Derivation)
    requires IndexInSpec(w.server) && (e.UpdateKey? || e.Announce?)
    ensures IndexInSpec(Next(w, e, pub).server)
  {
    var p := Forwarding.SentPatch(w, e, pub);
    if p.Some? {
      SendIndex(w.server, e.id, p);
      Forwarding.SentIsDelivered(w, e, pub);
    } else {
      Forwarding.NoPatchNoChange(w, e, pub);
    }
  }

  lemma SendIndex(srv: ServerState, id: Identity, p: Option<PatchRequest>)
    requires IndexInSpec(srv)
    ensures IndexInSpec(Send(srv, id, p).0)
  {
    if p.Some? {
      IndexStays(srv, PatchSpec(id.net, id.dev, p.value));
    }
  }

  lemma {:induction false} RunLateIndex(s: Spec, os: seq<Occurrence>, pub: Derivation)
    ensures IndexInSpec(RunLate(s, os, pub).server)
  {
    if os != [] {
      RunLateIndex(s, os[..|os|-1], pub);
      OccurIndex(RunLate(s, os[..|os|-1], pub), os[|os|-1], pub);
    }
  }

  /** The index can only stay right if no late report ever matches of a device that runs something
      else. */
  ghost predicate NothingMisplaced(s: Spec, os: seq<Occurrence>, pub: Derivation) {
    os == [] ||
    var w, last := RunLate(s, os[..|os|-1], pub), os[|os|-1];
    && NothingMisplaced(s, os[..|os|-1], pub)
    && (last.LateReport? && Matches(w.server, last.id, last.report) ==> StillRuns(w, last.id, last.report))
  }

  lemma {:induction false} SafeRunsNeed(s: Spec, os: seq<Occurrence>, pub: Derivation)
    requires Throughout(Safe, s, os, pub)
    ensures NothingMisplaced(s, os, pub)
  {
    if os != [] {
      var front, last := os[..|os|-1], os[|os|-1];
      SafeRunsNeed(s, front, pub);
      RunLateIndex(s, front, pub);
      if last.LateReport? {
        LateReportSafeIff(RunLate(s, front, pub), last.id, last.report);
      }
    }
  }

  // ----- a run in which it is not -----

  function Me(): Identity { Identity("n", "d") }

  /** One device that sees itself, with the given port. */
  function Lone(port: int): Spec {
    Spec([Network("n", [NetworkDevice(LoneDevice(port), AccessControl(true, []))])])
  }

  function LoneDevice(port: int): CensoredDevice {
    CensoredDevice("d", [], false, false, 0, 0, [], port, 1, None, 0, [])
  }

  function LoneView(port: int): CensoredNetwork {
    CensoredNetwork("n", [LoneDevice(port)], "d")
  }

  function OneKey(): Derivation { (k: Key) => 1 }

  lemma LoneIsSeen(port: int)
    ensures CurrentView(Lone(port), "n", "d") == Some(LoneView(port))
    ensures ViewIndex(LoneView(port).devices, "d") == 0
    ensures Decoded(LoneView(port)) == LoneView(port)
    ensures WithSortedOwn(LoneView(port), 0) == LoneView(port)
  {
    var s := Lone(port);
    assert s.networks[0].name == "n" && s.networks[0].devices[0].public.name == "d";
    assert NetworkIndex(s, "n") == 0 && DeviceIndex(s.networks[0].devices, "d") == 0;
    var access := AccessControl(true, []);
    assert Visible(access, s.networks[0].devices[1..]) == [];
    assert Visible(access, s.networks[0].devices) == [LoneDevice(port)];
    assert LoneView(port).devices[0].name == "d";
    LoneSettled(port);
  }

  /** Neither decoding, choosing, announcing nor sorting changes the view. */
  lemma LoneSettled(port: int)
    ensures Decoded(LoneView(port)) == LoneView(port)
    ensures WithKey(LoneView(port), 0, 1) == LoneView(port)
    ensures WithAccessible(LoneView(port), 0, []) == LoneView(port)
    ensures WithSortedOwn(LoneView(port), 0) == LoneView(port)
  {
    var d := LoneDevice(port);
    assert TextNets([]) == [] && SortNets([]) == [];
    assert Wire(d) == d;
    assert [d][0 := d] == [d];
    assert Map(Wire, [d]) == [d];
  }

  lemma LoneChosen(port: int, env: Surroundings)
    ensures WithChoices(LoneView(port), 0, env) == LoneView(port)
  {
    var devs := LoneView(port).devices;
    assert AllTried(devs, 0, env) == devs;
    assert Needs(devs, 0, env, 1) == [];
  }

  /** A call that sends nothing but its report, which does not arrive while the device waits. */
  function Call(env: Surroundings): seq<Event> {
    [Fetch(Me(), Answered), UpdateKey(Me(), 0, Answered), ChoosePeers(Me(), env), Announce(Me(), Answered),
     Apply(Me(), true), Report(Me(), NeverArrived)]
  }

  lemma {:induction false} RunsCompose(w: World, a: seq<Event>, b: seq<Event>, pub: Derivation)
    ensures RunEvents(w, a + b, pub) == RunEvents(RunEvents(w, a, pub), b, pub)
  {
    if b == [] {
      assert a + b == a;
    } else {
      RunsCompose(w, a, b[..|b|-1], pub);
      assert (a + b)[..|a + b|-1] == a + b[..|b|-1];
    }
  }

  function InPhase(w: World, phase: Phase): World {
    w.(agents := w.agents[Me() := Agent(phase, 5, false)])
  }

  lemma FirstSteps(w: World, port: int)
    requires w.server.spec == Lone(port)
    ensures var v := LoneView(port);
      && Next(InPhase(w, Idle), Fetch(Me(), Answered), OneKey()) == InPhase(w, Fetched(v))
      && Next(InPhase(w, Fetched(v)), UpdateKey(Me(), 0, Answered), OneKey()) == InPhase(w, KeyDone(v))
  {
    LoneIsSeen(port);
    KeyStepRuns(w, port);
  }

  lemma KeyStepRuns(w: World, port: int)
    ensures var v := LoneView(port);
      Next(InPhase(w, Fetched(v)), UpdateKey(Me(), 0, Answered), OneKey()) == InPhase(w, KeyDone(v))
  {
    LoneIsSeen(port);
    LoneSettled(port);
  }

  lemma MiddleSteps(w: World, port: int, env: Surroundings)
    ensures var v := LoneView(port);
      && Next(InPhase(w, KeyDone(v)), ChoosePeers(Me(), env), OneKey()) == InPhase(w, EndpointsChosen(v))
      && Next(InPhase(w, EndpointsChosen(v)), Announce(Me(), Answered), OneKey()) == InPhase(w, AccessDone(v))
  {
    LoneIsSeen(port);
    LoneSettled(port);
    LoneChosen(port, env);
  }

  function RunningLone(w: World, port: int): World {
    w.(running := w.running[Me() := Running(LoneView(port), 5)])
  }

  lemma LastSteps(w: World, port: int)
    ensures var v := LoneView(port);
      && Next(InPhase(w, AccessDone(v)), Apply(Me(), true), OneKey())
        == InPhase(RunningLone(w, port), MachineApplied(v))
      && Next(InPhase(w, MachineApplied(v)), Report(Me(), NeverArrived), OneKey()) == InPhase(w, Idle)
  {
    LoneIsSeen(port);
  }

  lemma RunNext(w: World, es: seq<Event>, k: nat, pub: Derivation)
    requires k < |es|
    ensures RunEvents(w, es[..k+1], pub) == Next(RunEvents(w, es[..k], pub), es[k], pub)
  {
    assert es[..k+1][..k] == es[..k];
  }

  /** A run, given all the worlds it passes through. */
  lemma {:induction false} RunAlong(ws: seq<World>, es: seq<Event>, pub: Derivation)
    requires |ws| == |es| + 1 && forall k | 0 <= k < |es| :: ws[k+1] == Next(ws[k], es[k], pub)
    ensures RunEvents(ws[0], es, pub) == ws[|es|]
  {
    if es != [] {
      var last := |es| - 1;
      RunAlong(ws[..|es|], es[..last], pub);
      assert ws[last+1] == Next(ws[last], es[last], pub);
    }
  }

  lemma CallApplies(w: World, port: int, env: Surroundings)
    requires w.server.spec == Lone(port)
    ensures RunEvents(InPhase(w, Idle), Call(env)[..5], OneKey())
      == InPhase(RunningLone(w, port), MachineApplied(LoneView(port)))
  {
    var es, v := Call(env)[..5], LoneView(port);
    var ws := [InPhase(w, Idle), InPhase(w, Fetched(v)), InPhase(w, KeyDone(v)), InPhase(w, EndpointsChosen(v)),
               InPhase(w, AccessDone(v)), InPhase(RunningLone(w, port), MachineApplied(v))];
    forall k | 0 <= k < 5 ensures ws[k+1] == Next(ws[k], es[k], OneKey()) {
      if k < 2 {
        FirstSteps(w, port);
      } else if k < 4 {
        MiddleSteps(w, port, env);
      } else {
        LastSteps(w, port);
      }
    }
    RunAlong(ws, es, OneKey());
  }

  lemma CallRuns(w: World, port: int, env: Surroundings)
    requires w.server.spec == Lone(port)
    ensures RunEvents(InPhase(w, Idle), Call(env), OneKey()) == InPhase(RunningLone(w, port), Idle)
  {
    var es := Call(env);
    CallApplies(w, port, env);
    LastSteps(RunningLone(w, port), port);
    RunNext(InPhase(w, Idle), es, 5, OneKey());
    assert es[..6] == es;
  }

  /** A call and then a change of the port. */
  function Chapter(env: Surroundings, port: int): seq<Event> {
    Call(env) + [ChangeSpec(Lone(port))]
  }

  /** The device applies a view and sends a report that is held up; the port changes, the device
      applies that, and the port changes back. */
  function Story(env: Surroundings): seq<Event> {
    [Start(Me(), 5, false)] + Chapter(env, 2) + Chapter(env, 1)
  }

  ghost predicate Ready(w: World, port: int) {
    w.server.spec == Lone(port) && w == InPhase(w, Idle)
  }

  lemma ChapterRuns(w: World, port: int, env: Surroundings, port': int)
    requires Ready(w, port)
    ensures var w' := RunEvents(w, Chapter(env, port'), OneKey());
      Ready(w', port') && w'.running == w.running[Me() := Running(LoneView(port), 5)]
  {
    var es := Chapter(env, port');
    CallRuns(w, port, env);
    assert es[..6] == Call(env) && es[..7] == es;
    RunNext(w, es, 6, OneKey());
  }

  lemma StoryEnds(env: Surroundings)
    ensures var w := RunEvents(Initial(Lone(1)), Story(env), OneKey());
      Ready(w, 1) && w.running == map[Me() := Running(LoneView(2), 5)]
  {
    var pub := OneKey();
    var w0 := Initial(Lone(1));
    var start: seq<Event> := [Start(Me(), 5, false)];
    assert start[..0] == [] && start[..1] == start;
    assert RunEvents(w0, [], pub) == w0;
    RunNext(w0, start, 0, pub);
    var w1 := RunEvents(w0, start, pub);
    assert w1 == InPhase(w0, Idle);
    ChapterRuns(w1, 1, env, 2);
    ChapterRuns(RunEvents(w1, Chapter(env, 2), pub), 2, env, 1);
    RunsCompose(w0, start, Chapter(env, 2), pub);
    RunsCompose(w0, start + Chapter(env, 2), Chapter(env, 1), pub);
  }

  /** After the first six events the device has applied the first view, and is about to report it. */
  lemma StoryReports(env: Surroundings)
    ensures var w := RunEvents(Initial(Lone(1)), Story(env)[..6], OneKey());
      Me() in w.agents && w.agents[Me()].phase == MachineApplied(LoneView(1))
      && Story(env)[6] == Report(Me(), NeverArrived)
  {
    var pub := OneKey();
    var w0 := Initial(Lone(1));
    var start: seq<Event> := [Start(Me(), 5, false)];
    assert Story(env)[..6] == start + Call(env)[..5];
    RunsCompose(w0, start, Call(env)[..5], pub);
    assert start[..0] == [] && start[..1] == start;
    assert RunEvents(w0, [], pub) == w0;
    RunNext(w0, start, 0, pub);
    assert RunEvents(w0, start, pub) == InPhase(w0, Idle);
    CallApplies(w0, 1, env);
  }

  lemma LoneViewsDiffer()
    ensures ViewEqual(LoneView(1), LoneView(1)) && !ViewEqual(LoneView(2), LoneView(1))
  {
    var v := LoneView(1);
    ViewEqualIsEquivalence(v, v, v);
    assert !DeviceEqual(LoneView(2).devices[0], v.devices[0]);
  }

  /** After this run, the report that was held up would be accepted, and the index would list a
      device that runs something else: late reports break safety. */
  lemma LateReportBreaks(env: Surroundings)
    ensures var w := RunEvents(Initial(Lone(1)), Story(env), OneKey());
      && Safe(w)
      && Matches(w.server, Me(), Decoded(LoneView(1)))
      && !Safe(DeliverLate(w, Me(), Decoded(LoneView(1))))
  {
    StoryEnds(env);
    LoneIsSeen(1);
    LoneViewsDiffer();
    RunIsSafe(Lone(1), Story(env));
    var w := RunEvents(Initial(Lone(1)), Story(env), OneKey());
    LateReportSafeIff(w, Me(), LoneView(1));
  }

  lemma RunIsSafe(s: Spec, es: seq<Event>)
    ensures IndexInSpec(RunEvents(Initial(s), es, OneKey()).server) && Safe(RunEvents(Initial(s), es, OneKey()))
  {
    RunOk(s, es, OneKey());
    assert forall i | Indexed(RunEvents(Initial(s), es, OneKey()).server, i) ::
      UpToDate(RunEvents(Initial(s), es, OneKey()), i);
  }

  // ----- a run in which it does harm only later -----

  /** The report is held up; the port changes, the device fetches that, and the port changes back. */
  function Opening(env: Surroundings): seq<Event> {
    [Start(Me(), 5, false)] + Chapter(env, 2) + Interruption()
  }

  /** The device goes on with what it has fetched. */
  function Sequel(env: Surroundings): seq<Event> {
    [UpdateKey(Me(), 0, Answered), ChoosePeers(Me(), env), Announce(Me(), Answered), Apply(Me(), true)]
  }

  lemma SequelRuns(w: World, port: int, env: Surroundings)
    ensures RunEvents(InPhase(w, Fetched(LoneView(port))), Sequel(env), OneKey())
         == InPhase(RunningLone(w, port), MachineApplied(LoneView(port)))
  {
    var es, v := Sequel(env), LoneView(port);
    var ws := [InPhase(w, Fetched(v)), InPhase(w, KeyDone(v)), InPhase(w, EndpointsChosen(v)),
               InPhase(w, AccessDone(v)), InPhase(RunningLone(w, port), MachineApplied(v))];
    forall k | 0 <= k < 4 ensures ws[k+1] == Next(ws[k], es[k], OneKey()) {
      if k == 0 {
        KeyStepRuns(w, port);
      } else if k < 3 {
        MiddleSteps(w, port, env);
      } else {
        LastSteps(w, port);
      }
    }
    RunAlong(ws, es, OneKey());
  }

  lemma OpeningEnds(env: Surroundings)
    ensures var w := RunEvents(Initial(Lone(1)), Opening(env), OneKey());
      && w.server.spec == Lone(1)
      && w == InPhase(w, Fetched(LoneView(2)))
      && w.running == map[Me() := Running(LoneView(1), 5)]
  {
    var pub := OneKey();
    var w0 := Initial(Lone(1));
    var start: seq<Event> := [Start(Me(), 5, false)];
    StartRuns(w0);
    var w1 := InPhase(w0, Idle);
    ChapterRuns(w1, 1, env, 2);
    FetchThenChange(RunEvents(w1, Chapter(env, 2), pub));
    RunsCompose(w0, start, Chapter(env, 2), pub);
    RunsCompose(w0, start + Chapter(env, 2), Interruption(), pub);
  }

  function Interruption(): seq<Event> { [Fetch(Me(), Answered), ChangeSpec(Lone(1))] }

  function ChangedTo(w: World, s: Spec): World {
    w.(server := Updated(w.server, s))
  }

  lemma FetchThenChange(w: World)
    requires Ready(w, 2)
    ensures RunEvents(w, Interruption(), OneKey())
         == InPhase(ChangedTo(w, Lone(1)), Fetched(LoneView(2)))
  {
    var w1 := InPhase(w, Fetched(LoneView(2)));
    FirstSteps(w, 2);
    var w2 := ChangedTo(w1, Lone(1));
    assert w2 == InPhase(ChangedTo(w, Lone(1)), Fetched(LoneView(2)));
    var ws, es := [w, w1, w2], Interruption();
    forall k | 0 <= k < 2 ensures ws[k+1] == Next(ws[k], es[k], OneKey()) {}
    RunAlong(ws, es, OneKey());
  }

  lemma StartRuns(w: World)
    ensures RunEvents(w, [Start(Me(), 5, false)], OneKey()) == InPhase(w, Idle)
  {
    var start: seq<Event> := [Start(Me(), 5, false)];
    assert start[..0] == [] && start[..1] == start && RunEvents(w, [], OneKey()) == w;
    RunNext(w, start, 0, OneKey());
  }

  /** The held-up report is right when it arrives, but the device is about to run something else, and
      nothing takes it out of the index then. */
  lemma LateReportBreaksLater(env: Surroundings)
    ensures var w := RunEvents(Initial(Lone(1)), Opening(env), OneKey());
      var w' := DeliverLate(w, Me(), Decoded(LoneView(1)));
      && Indexed(w'.server, Me()) && Safe(w')
      && !Safe(RunEvents(w', Sequel(env), OneKey()))
  {
    OpeningEnds(env);
    LoneIsSeen(1);
    LoneViewsDiffer();
    RunIsSafe(Lone(1), Opening(env));
    var w := RunEvents(Initial(Lone(1)), Opening(env), OneKey());
    LateReportSafeIff(w, Me(), LoneView(1));
    LateIndexed(w, Me(), LoneView(1));
    var w' := DeliverLate(w, Me(), LoneView(1));
    assert w' == InPhase(w', Fetched(LoneView(2)));
    SequelRuns(w', 2, env);
    assert Indexed(InPhase(RunningLone(w', 2), MachineApplied(LoneView(2))).server, Me());
  }
}
