/** A device that acts alone becomes up to date after at most two calls of ReifySpec, if and only
    if its view can be reported: its own addresses are in the order that applying leaves them in,
    and every address in the view reads back Equal from its text. */
module Convergence {
  import opened Prelude
  import opened Orders
  import opened NetAddr
  import opened Specs
  import opened Coord
  import opened CoordIndex
  import opened Compile
  import opened Choosing
  import opened DeviceClient
  import Apply
  import Appliers
  import Kernels
  import Dns

  // ----- the plan of one call -----

  lemma ChosenNamesKnown(devs: Devices, n: nat)
    requires n <= |devs|
    ensures forall name | name in ChosenNames(devs, n) ::
      exists i | 0 <= i < n :: devs[i].chosen && devs[i].name == name
  {
  }

  /** The planned view is the fetched one up to choices, but for the local key and list. */
  lemma PlanShape(v: CensoredNetwork, own: nat, publicKey: Key, canForward: bool, env: Surroundings)
    requires own < |v.devices|
    ensures var p := MakePlan(v, own, publicKey, canForward, env);
      var names := p.view.devices[own].accessible;
      && p.view.name == v.name && p.view.censoredFor == v.censoredFor
      && |p.view.devices| == |v.devices|
      && (forall i | 0 <= i < |v.devices| && i != own :: Wire(p.view.devices[i]) == Wire(v.devices[i]))
      && p.view.devices[own] == Wire(v.devices[own]).(publicKey := publicKey, accessible := names)
      && (p.keyPatch == if v.devices[own].publicKey == publicKey then None else Some(KeyPatch(publicKey)))
      && (p.accessPatch == if v.devices[own].accessible == names then None else Some(AccessPatch(names)))
      && (forall name | name in names :: exists i | 0 <= i < |v.devices| :: p.view.devices[i].name == name)
  {
    var v1 := WithKey(Decoded(v), own, publicKey);
    ForwardersRanked(v1.devices, own, env);
    var v2 := WithChoices(v1, own, env);
    assert OnlyChoices(v1.devices, v2.devices, own);
    ChosenNamesKnown(v2.devices, |v2.devices|);
  }

  /** The view the server has after the patches of a plan. */
  function AfterPatches(v: CensoredNetwork, dev: string, p: Plan): CensoredNetwork {
    var v1 := if p.keyPatch.Some? then PatchedView(v, dev, p.keyPatch.value) else v;
    if p.accessPatch.Some? then PatchedView(v1, dev, p.accessPatch.value) else v1
  }

  lemma SendEffect(srv: ServerState, id: Identity, p: Option<PatchRequest>, v: CensoredNetwork)
    requires CurrentView(srv.spec, id.net, id.dev) == Some(v)
    requires Send(srv, id, p).1 == Done
    ensures CurrentView(Send(srv, id, p).0.spec, id.net, id.dev)
         == Some(if p.Some? then PatchedView(v, id.dev, p.value) else v)
  {
    if p.Some? {
      PatchViews(srv.spec, id.net, id.dev, p.value, id.net, id.dev);
    }
  }

  /** Are the addresses, in their shortest spelling, in the order that sorting in place leaves? */
  predicate InOrder(d: CensoredDevice) {
    SortNets(CanonNets(d.addresses)) == CanonNets(d.addresses)
  }

  /** That is, are they sorted by lessIPNet? */
  lemma InOrderIffSorted(d: CensoredDevice)
    ensures InOrder(d) <==> Sorted(LessIPNet, CanonNets(d.addresses))
  {
    LessIPNetTotal();
    SortSeqFixed(LessIPNet, CanonNets(d.addresses));
  }

  /** Two addresses listed the other way round are not in order. */
  lemma OutOfOrderExample(d: CensoredDevice)
    requires d.addresses == [IPNet([10, 0, 0, 2], [255, 255, 255, 255]), IPNet([10, 0, 0, 1], [255, 255, 255, 255])]
    ensures !InOrder(d)
  {
    var c := CanonNets(d.addresses);
    InOrderIffSorted(d);
    assert c[0] == d.addresses[0] && c[1] == d.addresses[1];
    OneBeforeTwo([255, 255, 255, 255]);
  }

  lemma OneBeforeTwo(mask: seq<Byte>)
    ensures LessIPNet(IPNet([10, 0, 0, 1], mask), IPNet([10, 0, 0, 2], mask))
  {
    var front, one, two: IP := [10, 0, 0], [1], [2];
    CompareAfter(ByteValue, front, one, two);
    assert [10, 0, 0, 1] == front + one && [10, 0, 0, 2] == front + two;
    assert Compare(ByteValue, one, two) == -1;
  }

  /** An IPv4-mapped address with a 16-byte mask does not read back Equal. */
  lemma MappedExample(v: CensoredNetwork, i: nat)
    requires i < |v.devices|
    requires v.devices[i].addresses == [IPNet(V4_IN_V6_PREFIX + [10, 0, 0, 1], seq(16, _ => 255))]
    ensures !Faithful(v)
  {
    assert (V4_IN_V6_PREFIX + [10, 0, 0, 1])[..12] == V4_IN_V6_PREFIX;
    assert !ReadsBack(v.devices[i].addresses[0]);
  }

  /** Can a report of the view be accepted at all? */
  predicate Reportable(v: CensoredNetwork, own: nat)
    requires own < |v.devices|
  {
    InOrder(v.devices[own]) && Faithful(v)
  }

  lemma SortedOnTheWire(nets: seq<IPNet>)
    ensures NetsEqual(TextNets(SortNets(TextNets(nets))), nets)
            <==> AllReadBack(nets) && SortNets(CanonNets(nets)) == CanonNets(nets)
  {
    var posted := TextNets(SortNets(TextNets(nets)));
    SortTextNets(nets);
    TextNetsMean(nets);
    EqualToText(posted, nets);
    TextEqualIff(nets);
  }

  /** No device but the local one announces anything. */
  predicate OthersQuiet(v: CensoredNetwork, own: nat) {
    forall i | 0 <= i < |v.devices| && i != own :: v.devices[i].accessible == []
  }

  /** What one patch by a device leaves of a view that shows the device. */
  ghost predicate PatchedBy(v: CensoredNetwork, w: CensoredNetwork, dev: string, own: nat, p: PatchRequest) {
    && w.name == v.name && w.censoredFor == v.censoredFor
    && own < |w.devices| == |v.devices|
    && ViewIndex(w.devices, dev) == own
    && (forall i | 0 <= i < |v.devices| && i != own :: w.devices[i] == CloneDevice(v.devices[i]))
    && w.devices[own] == ApplyPatch(CloneDevice(v.devices[own]), p)
  }

  lemma PatchedShape(v: CensoredNetwork, dev: string, own: nat, p: PatchRequest)
    requires own < |v.devices| && own == ViewIndex(v.devices, dev)
    ensures PatchedBy(v, PatchedView(v, dev, p), dev, own, p)
  {
    var w := PatchedView(v, dev, p).devices;
    assert forall k | 0 <= k < |w| :: w[k].name == v.devices[k].name;
    assert ViewIndex(w, dev) >= 0 ==> v.devices[ViewIndex(w, dev)].name == dev;
    assert ViewIndex(v.devices, dev) >= 0 ==> w[ViewIndex(v.devices, dev)].name == dev;
  }

  /** The patches of a plan, one after the other. */
  ghost predicate PatchedByPlan(v: CensoredNetwork, v1: CensoredNetwork, w: CensoredNetwork, dev: string, own: nat,
                                p: Plan)
  {
    && (if p.keyPatch.Some? then PatchedBy(v, v1, dev, own, p.keyPatch.value) else v1 == v)
    && (if p.accessPatch.Some? then PatchedBy(v1, w, dev, own, p.accessPatch.value) else w == v1)
  }

  lemma AfterPatchesBy(v: CensoredNetwork, dev: string, own: nat, p: Plan) returns (v1: CensoredNetwork)
    requires own < |v.devices| && own == ViewIndex(v.devices, dev)
    ensures PatchedByPlan(v, v1, AfterPatches(v, dev, p), dev, own, p)
  {
    v1 := v;
    if p.keyPatch.Some? {
      PatchedShape(v, dev, own, p.keyPatch.value);
      v1 := PatchedView(v, dev, p.keyPatch.value);
    }
    if p.accessPatch.Some? {
      PatchedShape(v1, dev, own, p.accessPatch.value);
    }
  }

  /** What the patches leave: names, owner and addresses as they were, the planned key; and if
      anything was patched at all, no other device announces anything. */
  ghost predicate PlanLeaves(v: CensoredNetwork, w: CensoredNetwork, dev: string, own: nat, publicKey: Key, p: Plan)
    requires own < |v.devices| && own < |p.view.devices|
  {
    && w.name == v.name && w.censoredFor == v.censoredFor
    && |w.devices| == |v.devices|
    && ViewIndex(w.devices, dev) == own
    && w.devices[own].publicKey == publicKey
    && (forall i | 0 <= i < |v.devices| :: w.devices[i].addresses == v.devices[i].addresses)
    && (p.keyPatch.Some? || p.accessPatch.Some? ==> OthersQuiet(w, own))
    && (p.keyPatch.None? && p.accessPatch.None? ==> w == v)
    && (p.keyPatch.None? && p.accessPatch.Some? ==>
          && w.devices[own] == CloneDevice(v.devices[own]).(accessible := p.view.devices[own].accessible)
          && forall i | 0 <= i < |v.devices| && i != own :: w.devices[i] == CloneDevice(v.devices[i]))
  }

  lemma PlanLeft(v: CensoredNetwork, v1: CensoredNetwork, w: CensoredNetwork, dev: string, own: nat, publicKey: Key,
                 p: Plan)
    requires own < |v.devices| && own == ViewIndex(v.devices, dev) && own < |p.view.devices|
    requires PatchedByPlan(v, v1, w, dev, own, p)
    requires p.keyPatch == if v.devices[own].publicKey == publicKey then None else Some(KeyPatch(publicKey))
    requires p.accessPatch.Some? ==> p.accessPatch.value == AccessPatch(p.view.devices[own].accessible)
    ensures PlanLeaves(v, w, dev, own, publicKey, p)
  {
  }

  lemma AfterPatchesShape(v: CensoredNetwork, dev: string, own: nat, publicKey: Key, canForward: bool,
                          env: Surroundings)
    requires own < |v.devices| && own == ViewIndex(v.devices, dev)
    ensures var p := MakePlan(v, own, publicKey, canForward, env);
      PlanLeaves(v, AfterPatches(v, dev, p), dev, own, publicKey, p)
  {
    var p := MakePlan(v, own, publicKey, canForward, env);
    PlanShape(v, own, publicKey, canForward, env);
    var v1 := AfterPatchesBy(v, dev, own, p);
    PlanLeft(v, v1, AfterPatches(v, dev, p), dev, own, publicKey, p);
  }

  /** What is posted after applying the planned view. */
  function Posted(v: CensoredNetwork, own: nat): CensoredNetwork
    requires own < |v.devices|
  {
    Decoded(WithSortedOwn(v, own))
  }

  /** An accepted report means that the view was reportable, whatever else happened. */
  lemma AcceptedReportable(v: CensoredNetwork, dev: string, own: nat, publicKey: Key, canForward: bool,
                           env: Surroundings)
    requires own < |v.devices| && own == ViewIndex(v.devices, dev)
    ensures var p := MakePlan(v, own, publicKey, canForward, env);
      ViewEqual(Posted(p.view, own), AfterPatches(v, dev, p)) ==> Reportable(v, own)
  {
    PlanShape(v, own, publicKey, canForward, env);
    AfterPatchesShape(v, dev, own, publicKey, canForward, env);
    var p := MakePlan(v, own, publicKey, canForward, env);
    var posted, w := Posted(p.view, own), AfterPatches(v, dev, p);
    if ViewEqual(posted, w) {
      SortedOnTheWire(v.devices[own].addresses);
      forall i | 0 <= i < |v.devices| ensures AllReadBack(v.devices[i].addresses) {
        assert DeviceEqual(posted.devices[i], w.devices[i]);
        if i != own {
          assert posted.devices[i] == Wire(p.view.devices[i]) == Wire(v.devices[i]);
          TextEqualIff(v.devices[i].addresses);
        }
      }
    }
  }

  /** If nothing needs patching, or the key is right and the others announce nothing, then the
      report matches exactly when the view is reportable. */
  lemma QuietReport(v: CensoredNetwork, dev: string, own: nat, publicKey: Key, canForward: bool, env: Surroundings)
    requires own < |v.devices| && own == ViewIndex(v.devices, dev)
    requires v.devices[own].publicKey == publicKey
    requires OthersQuiet(v, own) || MakePlan(v, own, publicKey, canForward, env).accessPatch.None?
    ensures var p := MakePlan(v, own, publicKey, canForward, env);
      ViewEqual(Posted(p.view, own), AfterPatches(v, dev, p)) <==> Reportable(v, own)
  {
    PlanShape(v, own, publicKey, canForward, env);
    AfterPatchesShape(v, dev, own, publicKey, canForward, env);
    AcceptedReportable(v, dev, own, publicKey, canForward, env);
    var p := MakePlan(v, own, publicKey, canForward, env);
    var posted, w := Posted(p.view, own), AfterPatches(v, dev, p);
    if Reportable(v, own) {
      forall i | 0 <= i < |v.devices| ensures DeviceEqual(posted.devices[i], w.devices[i]) {
        TextEqualIff(v.devices[i].addresses);
        if i == own {
          SortedOnTheWire(v.devices[own].addresses);
        } else {
          assert posted.devices[i] == Wire(p.view.devices[i]) == Wire(v.devices[i]);
        }
      }
    }
  }

  // ----- one call -----

  lemma FinishEffect(srv: ServerState, id: Identity, v: CensoredNetwork, own: nat, verdict: Verdict, w: CensoredNetwork)
    requires own < |v.devices|
    requires CurrentView(srv.spec, id.net, id.dev) == Some(w)
    ensures var (srv', o) := Finish(srv, id, v, own, verdict);
      && srv'.spec == srv.spec
      && o != RequestFailed
      && (o.Reified? ==> o.latest == ViewEqual(Posted(v, own), w))
      && (o == Reified(true) ==> id.dev in Entry(srv'.latest, id.net))
  {
  }

  lemma ExecuteEffect(srv: ServerState, id: Identity, p: Plan, own: nat, verdict: Verdict, v: CensoredNetwork)
    requires own < |p.view.devices|
    requires CurrentView(srv.spec, id.net, id.dev) == Some(v)
    ensures var (srv', o) := Execute(srv, id, p, own, verdict);
      o.Reified? ==>
        && CurrentView(srv'.spec, id.net, id.dev) == Some(AfterPatches(v, id.dev, p))
        && o.latest == ViewEqual(Posted(p.view, own), AfterPatches(v, id.dev, p))
        && (o.latest ==> id.dev in Entry(srv'.latest, id.net))
  {
    var (srv1, resp1) := Send(srv, id, p.keyPatch);
    if resp1 == Done {
      SendEffect(srv, id, p.keyPatch, v);
      var v1 := CurrentView(srv1.spec, id.net, id.dev).value;
      var (srv2, resp2) := Send(srv1, id, p.accessPatch);
      if resp2 == Done {
        SendEffect(srv1, id, p.accessPatch, v1);
        FinishEffect(srv2, id, p.view, own, verdict, AfterPatches(v, id.dev, p));
      }
    }
  }

  /** How a call that ends without an error ends. */
  lemma RoundEffect(srv: ServerState, c: ClientState, pub: Derivation, r: Round)
    requires Reify(srv, c, pub, r).2.Reified?
    ensures SeesItself(srv.spec, c.id.net, c.id.dev)
    ensures var (srv', c', o) := Reify(srv, c, pub, r);
      var v := CurrentView(srv.spec, c.id.net, c.id.dev).value;
      var own := ViewIndex(v.devices, c.id.dev);
      var p := MakePlan(v, own, pub(c'.key), c.canForward, r.env);
      && c' == c.(key := KeyInUse(c, r))
      && CurrentView(srv'.spec, c.id.net, c.id.dev) == Some(AfterPatches(v, c.id.dev, p))
      && o.latest == ViewEqual(Posted(p.view, own), AfterPatches(v, c.id.dev, p))
      && (o.latest ==> c.id.dev in Entry(srv'.latest, c.id.net))
  {
    var v := CurrentView(srv.spec, c.id.net, c.id.dev).value;
    var own := ViewIndex(v.devices, c.id.dev);
    var p := MakePlan(v, own, pub(KeyInUse(c, r)), c.canForward, r.env);
    ExecuteEffect(srv, c.id, p, own, r.verdict, v);
  }

  /** A report is never accepted while the local addresses are out of order, or some address in the
      view does not read back. */
  lemma UnreportableNeverLatest(srv: ServerState, c: ClientState, pub: Derivation, r: Round)
    requires Reify(srv, c, pub, r).2 == Reified(true)
    ensures var v := CurrentView(srv.spec, c.id.net, c.id.dev).value;
      Reportable(v, ViewIndex(v.devices, c.id.dev))
  {
    RoundEffect(srv, c, pub, r);
    var v := CurrentView(srv.spec, c.id.net, c.id.dev).value;
    AcceptedReportable(v, c.id.dev, ViewIndex(v.devices, c.id.dev), pub(KeyInUse(c, r)), c.canForward, r.env);
  }

  /** Of the reports of two plans in a row, one is accepted exactly if the view is reportable. */
  lemma TwoPlansSuffice(v: CensoredNetwork, dev: string, own: nat, publicKey: Key, canForward: bool, env1: Surroundings,
                        env2: Surroundings)
    requires own < |v.devices| && own == ViewIndex(v.devices, dev)
    ensures var p1 := MakePlan(v, own, publicKey, canForward, env1);
      var w := AfterPatches(v, dev, p1);
      && own < |w.devices| && own == ViewIndex(w.devices, dev)
      && var p2 := MakePlan(w, own, publicKey, canForward, env2);
         (ViewEqual(Posted(p1.view, own), w) || ViewEqual(Posted(p2.view, own), AfterPatches(w, dev, p2))
          <==> Reportable(v, own))
  {
    var p1 := MakePlan(v, own, publicKey, canForward, env1);
    var w := AfterPatches(v, dev, p1);
    AfterPatchesShape(v, dev, own, publicKey, canForward, env1);
    assert Reportable(w, own) <==> Reportable(v, own);
    AcceptedReportable(v, dev, own, publicKey, canForward, env1);
    AcceptedReportable(w, dev, own, publicKey, canForward, env2);
    if p1.keyPatch.None? && p1.accessPatch.None? {
      PlanShape(v, own, publicKey, canForward, env1);
      QuietReport(v, dev, own, publicKey, canForward, env1);
    } else {
      QuietReport(w, dev, own, publicKey, canForward, env2);
    }
  }

  /** Two calls without errors and without anybody else acting bring the device into the index
      if and only if its view is reportable; and in that case the second call does so unless the
      first one has. */
  lemma TwoCallsSuffice(srv: ServerState, c: ClientState, pub: Derivation, r1: Round, r2: Round)
    requires r1.newKey != UNSET_KEY
    requires Reify(srv, c, pub, r1).2.Reified?
    requires var (srv1, c1, o1) := Reify(srv, c, pub, r1); Reify(srv1, c1, pub, r2).2.Reified?
    ensures SeesItself(srv.spec, c.id.net, c.id.dev)
    ensures var (srv1, c1, o1) := Reify(srv, c, pub, r1);
      var (srv2, c2, o2) := Reify(srv1, c1, pub, r2);
      var v := CurrentView(srv.spec, c.id.net, c.id.dev).value;
      && (o1.latest || o2.latest <==> Reportable(v, ViewIndex(v.devices, c.id.dev)))
      && (o1.latest ==> c.id.dev in Entry(srv1.latest, c.id.net))
      && (o2.latest ==> c.id.dev in Entry(srv2.latest, c.id.net))
  {
    var (srv1, c1, o1) := Reify(srv, c, pub, r1);
    RoundEffect(srv, c, pub, r1);
    RoundEffect(srv1, c1, pub, r2);
    var v := CurrentView(srv.spec, c.id.net, c.id.dev).value;
    TwoPlansSuffice(v, c.id.dev, ViewIndex(v.devices, c.id.dev), pub(c1.key), c.canForward, r1.env, r2.env);
  }

  // ----- when a call ends without an error -----

  /** Faults do not depend on what a device announces. */
  lemma NoFaultBefore(devs: Devices, chosen: Devices, me: nat, n: nat)
    requires n <= |devs| == |chosen| && me < |devs|
    requires forall i | 0 <= i < |devs| && i != me :: devs[i] == chosen[i]
    requires devs[me].chosen == chosen[me].chosen
    requires forall i | 0 <= i < n :: FaultAt(chosen, me, true, i).None?
    ensures FaultBefore(devs, me, true, n).None?
  {
    if n > 0 {
      NoFaultBefore(devs, chosen, me, n - 1);
      assert FaultAt(chosen, me, true, n - 1).None?;
    }
  }

  lemma PlannedNames(v: CensoredNetwork, dev: string, publicKey: Key, canForward: bool, env: Surroundings)
    requires ViewIndex(v.devices, dev) >= 0
    ensures var own := ViewIndex(v.devices, dev);
      var devs := MakePlan(v, own, publicKey, canForward, env).view.devices;
      ViewIndex(devs, dev) == own && AccessibleKnown(devs, own)
  {
    var own := ViewIndex(v.devices, dev);
    var devs := MakePlan(v, own, publicKey, canForward, env).view.devices;
    PlanShape(v, own, publicKey, canForward, env);
    PlanKeepsNames(v, own, publicKey, canForward, env, dev);
    forall name | name in devs[own].accessible ensures ViewIndex(devs, name) >= 0 {
      var i :| 0 <= i < |devs| && devs[i].name == name;
    }
  }

  lemma PlannedFaultless(v: CensoredNetwork, own: nat, publicKey: Key, canForward: bool, env: Surroundings)
    requires own < |v.devices|
    ensures var devs := MakePlan(v, own, publicKey, canForward, env).view.devices;
      IndexesInRange(devs, own) && FaultBefore(devs, own, true, |devs|).None?
  {
    var devs := MakePlan(v, own, publicKey, canForward, env).view.devices;
    var start := WithKey(Decoded(v), own, publicKey).devices;
    var chosen := Choose(start, own, env);
    assert devs == chosen[own := chosen[own].(accessible := Announced(chosen, canForward))];
    assert forall i | 0 <= i < |start| :: start[i] == Wire(start[i]) by {
      forall i | 0 <= i < |start| ensures start[i] == Wire(start[i]) {
        TextNetsMean(v.devices[i].addresses);
      }
    }
    ChosenFaultless(start, own, env, Announced(chosen, canForward));
  }

  lemma ChosenFaultless(start: Devices, own: nat, env: Surroundings, names: seq<string>)
    requires own < |start| && forall i | 0 <= i < |start| :: start[i] == Wire(start[i])
    ensures var chosen := Choose(start, own, env);
      var devs := chosen[own := chosen[own].(accessible := names)];
      IndexesInRange(devs, own) && FaultBefore(devs, own, true, |devs|).None?
  {
    var chosen := Choose(start, own, env);
    var devs := chosen[own := chosen[own].(accessible := names)];
    ChoicesCompile(start, own, env, true, own);
    forall i | 0 <= i < |devs| ensures FaultAt(chosen, own, true, i).None? {
      ChoicesCompile(start, own, env, true, i);
    }
    NoFaultBefore(devs, chosen, own, |devs|);
    forall i | 0 <= i < |devs| && i != own && Keyed(devs, i) && Forwarded(devs, i)
      ensures 0 <= devs[i].forwarderIndex < |devs|
    {
      assert Keyed(chosen, i) && Forwarded(chosen, i);
    }
  }

  /** The planned view always compiles, to one interface: no index is out of range, every name in
      the local list is in the view, and no forwarder lacks a choice. */
  lemma PlanCompiles(v: CensoredNetwork, dev: string, publicKey: Key, canForward: bool, env: Surroundings)
    requires ViewIndex(v.devices, dev) >= 0
    ensures var p := MakePlan(v, ViewIndex(v.devices, dev), publicKey, canForward, env);
      var o := CompileSpec([p.view], dev, true);
      && CompileNetwork(p.view, dev, true).Built?
      && o.Compiled?
      && o.machine.interfaces == [CompileNetwork(p.view, dev, true).iface]
      && o.machine.forwardsIPv6 == ForwardsFamily(p.view.devices, ViewIndex(v.devices, dev), false)
  {
    PlannedNames(v, dev, publicKey, canForward, env);
    PlannedFaultless(v, ViewIndex(v.devices, dev), publicKey, canForward, env);
    var p := MakePlan(v, ViewIndex(v.devices, dev), publicKey, canForward, env);
    OneNetwork(p.view, dev);
  }

  lemma {:induction false} VisibleInNetwork(access: AccessControl, devices: seq<NetworkDevice>, i: nat)
    requires i < |Visible(access, devices)|
    ensures DeviceIndex(devices, Visible(access, devices)[i].name) >= 0
  {
    VisibleFirst(access, devices, Visible(access, devices)[i].name);
    assert ViewIndex(Visible(access, devices), Visible(access, devices)[i].name) >= 0;
  }

  /** A plan's patches are accepted: it announces only devices of its own view. */
  lemma PlanAcceptable(s: Spec, id: Identity, publicKey: Key, canForward: bool, env: Surroundings)
    requires SeesItself(s, id.net, id.dev)
    ensures var v := CurrentView(s, id.net, id.dev).value;
      var p := MakePlan(v, ViewIndex(v.devices, id.dev), publicKey, canForward, env);
      p.accessPatch.Some? ==> PatchAcceptable(GetNetwork(s, id.net), p.accessPatch.value)
  {
    var n := GetNetwork(s, id.net);
    var v := CurrentView(s, id.net, id.dev).value;
    var own := ViewIndex(v.devices, id.dev);
    var p := MakePlan(v, own, publicKey, canForward, env);
    PlanShape(v, own, publicKey, canForward, env);
    forall name | name in p.view.devices[own].accessible ensures HasDevice(n, name) {
      var i :| 0 <= i < |v.devices| && p.view.devices[i].name == name;
      assert i != own ==> Wire(p.view.devices[i]).name == Wire(v.devices[i]).name;
      VisibleInNetwork(GetDevice(n, id.dev).access, n.devices, i);
    }
  }

  lemma PatchKeepsNames(s: Spec, net: string, dev: string, p: PatchRequest, q: PatchRequest)
    requires Known(s, net, dev)
    ensures Known(PatchedSpec(s, net, dev, p), net, dev)
    ensures PatchAcceptable(GetNetwork(PatchedSpec(s, net, dev, p), net), q) <==> PatchAcceptable(GetNetwork(s, net), q)
  {
    PatchedLookup(s, net, dev, p, net);
    PatchViews(s, net, dev, p, net, dev);
    forall name
      ensures HasDevice(GetNetwork(PatchedSpec(s, net, dev, p), net), name) <==> HasDevice(GetNetwork(s, net), name)
    {
      PatchViews(s, net, dev, p, net, name);
    }
  }

  /** How the last part of a call ends, for a view that compiles. */
  lemma FinishEnds(srv: ServerState, id: Identity, v: CensoredNetwork, own: nat, verdict: Verdict)
    requires own < |v.devices| && own == ViewIndex(v.devices, id.dev)
    requires CompileNetwork(v, id.dev, true).Built? && CurrentView(srv.spec, id.net, id.dev).Some?
    ensures Ends(Finish(srv, id, v, own, verdict).1, verdict, AnnouncesOther(v.devices, own))
  {
    OneNetwork(v, id.dev);
    FlagsMean(v, id.dev, true);
  }

  /** Has some announced device an address that is not IPv4, neither four bytes nor mapped? */
  ghost predicate AnnouncesOther(devs: Devices, own: nat)
    requires own < |devs|
  {
    exists j, k |
      && 0 <= j < |devs[own].accessible| && ViewIndex(devs, devs[own].accessible[j]) >= 0
      && 0 <= k < |devs[ViewIndex(devs, devs[own].accessible[j])].addresses| ::
      var ip := devs[ViewIndex(devs, devs[own].accessible[j])].addresses[k].ip; |ip| != 4 && !Mapped(ip)
  }

  /** The four ends of a call whose requests are carried out. */
  predicate Ends(o: DeviceClient.Outcome, verdict: Verdict, v6: bool) {
    && (o == PublishFailed <==> !verdict.publishes)
    && (o == ApplyFailed <==> verdict.publishes && !verdict.applies)
    && (o == Crashed <==> verdict == ACCEPTED && v6)
    && (o.Reified? <==> verdict == ACCEPTED && !v6)
  }

  /** With nobody else acting, no request of a device that sees itself fails, and nothing crashes
      before the kernel is involved: the call ends without an error exactly when the DNS server and
      the kernel accept and no announced device has an address that is not IPv4. */
  lemma CallEnds(srv: ServerState, c: ClientState, pub: Derivation, r: Round)
    requires SeesItself(srv.spec, c.id.net, c.id.dev)
    ensures var v := CurrentView(srv.spec, c.id.net, c.id.dev).value;
      var own := ViewIndex(v.devices, c.id.dev);
      var p := MakePlan(v, own, pub(KeyInUse(c, r)), c.canForward, r.env);
      Ends(Reify(srv, c, pub, r).2, r.verdict, AnnouncesOther(p.view.devices, own))
  {
    var v := CurrentView(srv.spec, c.id.net, c.id.dev).value;
    var own := ViewIndex(v.devices, c.id.dev);
    var pk := pub(KeyInUse(c, r));
    var p := MakePlan(v, own, pk, c.canForward, r.env);
    PatchesAccepted(srv, c.id, pk, c.canForward, r.env);
    var srv2 := Send(Send(srv, c.id, p.keyPatch).0, c.id, p.accessPatch).0;
    assert Execute(srv, c.id, p, own, r.verdict) == Finish(srv2, c.id, p.view, own, r.verdict);
    PlanCompiles(v, c.id.dev, pk, c.canForward, r.env);
    PlanKeepsNames(v, own, pk, c.canForward, r.env, c.id.dev);
    FinishEnds(srv2, c.id, p.view, own, r.verdict);
  }

  /** A device that the server does not know is refused, and one that does not see itself panics; neither
      changes anything. */
  lemma UnseenEnds(srv: ServerState, c: ClientState, pub: Derivation, r: Round)
    requires !SeesItself(srv.spec, c.id.net, c.id.dev)
    ensures Reify(srv, c, pub, r)
         == (srv, c, if CurrentView(srv.spec, c.id.net, c.id.dev).None? then RequestFailed else Crashed)
  {
  }

  /** What makes a kernel accept the compiled machine of a view, for a client whose applier only ever
      saw its own network. */
  predicate KernelAccepts(out: Kernels.Outside, links: map<string, Kernels.Link>, view: CensoredNetwork, id: Identity,
                          key: Key, peers: seq<Peer>)
  {
    var own := ViewIndex(view.devices, id.dev);
    own >= 0 &&
    var port, configs := view.devices[own].listenPort, Apply.PeerConfigs(out, peers);
    // The name of the link is short enough, or the link is there.
    && (id.net in links || |id.net| <= 15)
    // Endpoints resolve.
    && (forall k | 0 <= k < |peers| :: peers[k].endpoint == "" || out.resolve(peers[k].endpoint).Some?)
    // WireGuard takes the configuration.
    && (configs.Some? ==>
          out.configures(id.net, Kernels.Config(key, if port == 0 then None else Some(port), configs.value)))
    // Nothing that is missing is asked for twice.
    && Apply.LinkReachable(Appliers.LinkOf(links, id.net), multiset(view.devices[own].addresses),
                           multiset(Apply.Routed(peers)))
  }

  /** The same call down to the kernel. */
  lemma CallOnKernel(links: map<string, Kernels.Link>, hasDns: bool, srv: ServerState, c: ClientState, pub: Derivation,
                     cs: Circumstances)
    requires SeesItself(srv.spec, c.id.net, c.id.dev)
    ensures var view := PlannedView(srv, c, pub, cs).value;
      var own := ViewIndex(view.devices, c.id.dev);
      && own >= 0
      && CompileNetwork(view, c.id.dev, true).Built?
      && var accepted :=
           KernelAccepts(cs.out, links, view, c.id, KeyOf(c, cs), CompileNetwork(view, c.id.dev, true).iface.peers);
         Ends(Reify(srv, c, pub, RoundOn(links, hasDns, srv, c, pub, cs)).2,
              Verdict(hasDns ==> cs.dnsAnswers, accepted), AnnouncesOther(view.devices, own))
  {
    var r := RoundOn(links, hasDns, srv, c, pub, cs);
    CallEnds(srv, c, pub, r);
    var v := CurrentView(srv.spec, c.id.net, c.id.dev).value;
    var own := ViewIndex(v.devices, c.id.dev);
    var pk := pub(KeyOf(c, cs));
    PlanCompiles(v, c.id.dev, pk, c.canForward, cs.env);
    PlanKeepsNames(v, own, pk, c.canForward, cs.env, c.id.dev);
    AcceptedOnKernel(cs.out, links, MakePlan(v, own, pk, c.canForward, cs.env).view, c.id, KeyOf(c, cs));
  }

  lemma AcceptedOnKernel(out: Kernels.Outside, links: map<string, Kernels.Link>, view: CensoredNetwork, id: Identity,
                         key: Key)
    requires view.name == id.net && ViewIndex(view.devices, id.dev) >= 0
    requires CompileNetwork(view, id.dev, true).Built?
    ensures ViewAccepted(out, links, view, id.dev, key)
            <==> KernelAccepts(out, links, view, id, key, CompileNetwork(view, id.dev, true).iface.peers)
  {
    var iface := CompileNetwork(view, id.dev, true).iface;
    Apply.ConfigurationMeans(out, iface.name, key, iface.listenPort, iface.peers);
  }

  lemma PatchesAccepted(srv: ServerState, id: Identity, publicKey: Key, canForward: bool, env: Surroundings)
    requires SeesItself(srv.spec, id.net, id.dev)
    ensures var v := CurrentView(srv.spec, id.net, id.dev).value;
      var p := MakePlan(v, ViewIndex(v.devices, id.dev), publicKey, canForward, env);
      var (srv1, resp1) := Send(srv, id, p.keyPatch);
      var (srv2, resp2) := Send(srv1, id, p.accessPatch);
      resp1 == Done && resp2 == Done && CurrentView(srv2.spec, id.net, id.dev).Some?
  {
    var v := CurrentView(srv.spec, id.net, id.dev).value;
    var p := MakePlan(v, ViewIndex(v.devices, id.dev), publicKey, canForward, env);
    PlanShape(v, ViewIndex(v.devices, id.dev), publicKey, canForward, env);
    PlanAcceptable(srv.spec, id, publicKey, canForward, env);
    if p.keyPatch.Some? && p.accessPatch.Some? {
      PatchKeepsNames(srv.spec, id.net, id.dev, p.keyPatch.value, p.accessPatch.value);
    }
    SendEffect(srv, id, p.keyPatch, v);
    var srv1 := Send(srv, id, p.keyPatch).0;
    SendEffect(srv1, id, p.accessPatch, CurrentView(srv1.spec, id.net, id.dev).value);
  }

  // ----- what the DNS server says afterwards -----

  /** Addresses reach the DNS server as they are read back from their text. */
  lemma PlanAddresses(v: CensoredNetwork, own: nat, publicKey: Key, canForward: bool, env: Surroundings, i: nat)
    requires own < |v.devices| && i < |v.devices|
    ensures MakePlan(v, own, publicKey, canForward, env).view.devices[i].addresses == TextNets(v.devices[i].addresses)
  {
    var start := WithKey(Decoded(v), own, publicKey).devices;
    TextNetsMean(v.devices[own].addresses);
    forall k | 0 <= k < |start| ensures start[k] == Wire(start[k]) {
      TextNetsMean(v.devices[k].addresses);
    }
    ForwardersRanked(start, own, env);
    assert OnlyChoices(start, Choose(start, own, env), own);
  }

  /** A DNS server that has taken a planned view answers for every device that the calling one may see,
      under the first parent that matches the name, with the addresses that the spec gives it. */
  lemma PlannedIsAnswered(v: CensoredNetwork, own: nat, publicKey: Key, canForward: bool, env: Surroundings,
                          parents: seq<Dns.Parent>, i: nat, device: string)
    requires own < |v.devices| && ViewIndex(v.devices, device) >= 0
    requires i < |parents| && Dns.ValidParent(parents[i]) && Dns.Nameable(parents[i], v.name, device)
    requires var name := Dns.NameOf(parents[i], v.name, device); Dns.FirstParent(parents, name[..|name|-1]) == i
    ensures var name := Dns.NameOf(parents[i], v.name, device);
      var view := MakePlan(v, own, publicKey, canForward, env).view;
      Dns.Answer(Some([view]), parents, Dns.Question(name, Dns.TypeA))
      == (Dns.Success, Dns.Records(name, TextNets(v.devices[ViewIndex(v.devices, device)].addresses)))
  {
    var view := MakePlan(v, own, publicKey, canForward, env).view;
    PlanKeepsNames(v, own, publicKey, canForward, env, device);
    PlanAddresses(v, own, publicKey, canForward, env, ViewIndex(v.devices, device));
    assert [view][0].name == v.name;
    Dns.NameIsAnswered([view], parents, i, v.name, device);
  }

  // ----- the continuous client -----

  /** From any state of the flag, three steps without errors and without anybody else acting leave the
      client up to date and in the server's index, if its view is reportable; once that is so, further
      steps change nothing. */
  lemma ThreeStepsSuffice(srv: ServerState, c: ClientState, latest: bool, pub: Derivation,
                          r1: Round, r2: Round, r3: Round)
    requires SeesItself(srv.spec, c.id.net, c.id.dev)
    requires var v := CurrentView(srv.spec, c.id.net, c.id.dev).value;
      Reportable(v, ViewIndex(v.devices, c.id.dev))
    requires r1.newKey != UNSET_KEY && r2.newKey != UNSET_KEY
    requires var (srv1, c1, l1) := StepOnce(srv, c, latest, pub, r1);
      var (srv2, c2, l2) := StepOnce(srv1, c1, l1, pub, r2);
      && (!latest ==> Reify(srv, c, pub, r1).2.Reified?)
      && (!l1 ==> Reify(srv1, c1, pub, r2).2.Reified?)
      && (!l2 ==> Reify(srv2, c2, pub, r3).2.Reified?)
    ensures var (srv1, c1, l1) := StepOnce(srv, c, latest, pub, r1);
      var (srv2, c2, l2) := StepOnce(srv1, c1, l1, pub, r2);
      var (srv3, c3, l3) := StepOnce(srv2, c2, l2, pub, r3);
      && l3
      && c.id.dev in Entry(srv3.latest, c.id.net)
      && forall r :: StepOnce(srv3, c3, l3, pub, r) == (srv3, c3, l3)
  {
    var (srv1, c1, l1) := StepOnce(srv, c, latest, pub, r1);
    var (srv2, c2, l2) := StepOnce(srv1, c1, l1, pub, r2);
    StepStable(srv, c, pub);
    if !latest {
      RoundEffect(srv, c, pub, r1);
      StepStable(srv1, c1, pub);
      if !l1 {
        TwoCallsSuffice(srv, c, pub, r1, r2);
        RoundEffect(srv1, c1, pub, r2);
        StepStable(srv2, c2, pub);
      }
    } else if !l1 {
      RoundEffect(srv1, c1, pub, r2);
      StepStable(srv2, c2, pub);
      if !l2 {
        TwoCallsSuffice(srv1, c1, pub, r2, r3);
        RoundEffect(srv2, c2, pub, r3);
        var (srv3, c3, l3) := StepOnce(srv2, c2, l2, pub, r3);
        StepStable(srv3, c3, pub);
      }
    }
  }

  /** A device in the index asks, is told so, and changes nothing. */
  lemma StepStable(srv: ServerState, c: ClientState, pub: Derivation)
    requires Known(srv.spec, c.id.net, c.id.dev)
    ensures c.id.dev in Entry(srv.latest, c.id.net)
            ==> forall r :: StepOnce(srv, c, true, pub, r) == (srv, c, true)
    ensures c.id.dev !in Entry(srv.latest, c.id.net)
            ==> forall r :: StepOnce(srv, c, true, pub, r) == (srv, c, false)
  {
  }
}
