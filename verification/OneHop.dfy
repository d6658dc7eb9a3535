/** Forwarders of forwarders: chooseEndpoints builds them only if two devices of a view announce
    something, which no PATCH leaves behind, and the compiler loses addresses behind them. */
module OneHop {
  import opened Prelude
  import opened NetAddr
  import opened Specs
  import opened Resolve
  import opened Coord
  import opened Compile
  import opened Choosing
  import opened Routing
  import opened DeviceClient
  import opened Convergence
  import Protocol
  import Forwarding

  /** At most one device of the view announces anything. */
  ghost predicate OneAnnouncer(devs: Devices) {
    forall i, j | 0 <= i < |devs| && 0 <= j < |devs| && devs[i].accessible != [] && devs[j].accessible != [] :: i == j
  }

  /** Every forwarder in use is chosen, direct, not the local device, and announces the forwardee. */
  ghost predicate ForwardsDirectly(devs: Devices, me: nat) {
    forall i | 0 <= i < |devs| && Forwarded(devs, i) ::
      var f := devs[i].forwarderIndex;
      0 <= f < |devs| && f != me && devs[f].chosen && !devs[f].usesForwarder && devs[i].name in devs[f].accessible
  }

  /** If an announcer were forwarded, its forwarder would announce as well, hence be itself. */
  lemma AnnouncerDirect(devs: Devices, me: nat, f: nat)
    requires f < |devs| && OneAnnouncer(devs) && ForwardsDirectly(devs, me) && devs[f].accessible != []
    ensures !Forwarded(devs, f)
  {
    var g := devs[f].forwarderIndex;
    assert 0 <= g < |devs| && devs[g].accessible != [] ==> g == f;
  }

  /** One more forwarder keeps them all direct. */
  lemma WithForwarderDirect(devs: Devices, me: nat, env: Surroundings, i: nat)
    requires i < |devs| && i != me && !devs[i].chosen && (me < |devs| ==> !devs[me].chosen)
    requires OneAnnouncer(devs) && ForwardsDirectly(devs, me)
    ensures OneAnnouncer(WithForwarder(devs, env, i)) && ForwardsDirectly(WithForwarder(devs, env, i), me)
  {
    var fs := Forwarders(devs, devs[i].name, |devs|);
    var r := WithForwarder(devs, env, i);
    forall k | 0 <= k < |devs| ensures r[k].accessible == devs[k].accessible && r[k].name == devs[k].name {}
    if fs != [] {
      var f := fs[env.random(i) % |fs|];
      assert CanForwardFor(devs, f, devs[i].name);
      AnnouncerDirect(devs, me, f);
    }
    forall k | 0 <= k < |r| && Forwarded(r, k)
      ensures var f := r[k].forwarderIndex;
        0 <= f < |r| && f != me && r[f].chosen && !r[f].usesForwarder && r[k].name in r[f].accessible
    {
      if k != i {
        assert Forwarded(devs, k);
      }
    }
  }

  lemma {:induction false} WithForwardersDirect(devs: Devices, me: nat, env: Surroundings, needs: seq<nat>)
    requires (me < |devs| ==> !devs[me].chosen) && Untouched(devs, me, needs)
    requires OneAnnouncer(devs) && ForwardsDirectly(devs, me)
    ensures OneAnnouncer(WithForwarders(devs, env, needs)) && ForwardsDirectly(WithForwarders(devs, env, needs), me)
    ensures forall i | 0 <= i < |devs| && i !in needs :: WithForwarders(devs, env, needs)[i] == devs[i]
  {
    if needs != [] {
      var front, i := needs[..|needs|-1], needs[|needs|-1];
      WithForwardersDirect(devs, me, env, front);
      assert i !in front;
      assert me !in front;
      WithForwarderDirect(WithForwarders(devs, env, front), me, env, i);
      assert forall k | 0 <= k < |devs| && k !in needs :: k !in front && k != i;
    }
  }

  /** On a freshly decoded view with at most one announcer, no forwarder is itself forwarded, for
      every outcome of the pings and every random choice. */
  lemma ChoosesDirect(devs: Devices, me: nat, env: Surroundings)
    requires forall i | 0 <= i < |devs| :: devs[i] == Wire(devs[i])
    requires OneAnnouncer(devs)
    ensures ForwardsDirectly(Choose(devs, me, env), me)
  {
    var tried := AllTried(devs, me, env);
    TriedRanked(devs, me, env);
    NeedsUntouched(devs, me, env, |devs|);
    forall k | 0 <= k < |devs| ensures tried[k].accessible == devs[k].accessible && !tried[k].usesForwarder {
      assert devs[k] == Wire(devs[k]);
    }
    WithForwardersDirect(tried, me, env, Needs(devs, me, env, |devs|));
  }

  // ----- what a planned view routes -----

  /** Has every forwarder in use a key, wherever it is to carry addresses of a keyed device? */
  predicate KeyedForwarders(devs: Devices, me: nat) {
    forall i | 0 <= i < |devs| && Other(devs, me, i) && Forwarded(devs, i) && devs[i].addresses != [] ::
      0 <= devs[i].forwarderIndex < |devs| && Keyed(devs, devs[i].forwarderIndex)
  }

  lemma PlanForwardsDirectly(v: CensoredNetwork, own: nat, publicKey: Key, canForward: bool, env: Surroundings)
    requires own < |v.devices| && OneAnnouncer(v.devices)
    ensures var devs := MakePlan(v, own, publicKey, canForward, env).view.devices;
      forall i | 0 <= i < |devs| && Forwarded(devs, i) ::
        var f := devs[i].forwarderIndex;
        0 <= f < |devs| && f != own && !Forwarded(devs, f)
  {
    var start := WithKey(Decoded(v), own, publicKey).devices;
    var chosen := Choose(start, own, env);
    TextNetsMean(v.devices[own].addresses);
    forall i | 0 <= i < |start| ensures start[i] == Wire(start[i]) && start[i].accessible == v.devices[i].accessible {
      TextNetsMean(v.devices[i].addresses);
    }
    ChoosesDirect(start, own, env);
    ForwardersRanked(start, own, env);
    var devs := MakePlan(v, own, publicKey, canForward, env).view.devices;
    assert devs == chosen[own := chosen[own].(accessible := Announced(chosen, canForward))];
    forall i | 0 <= i < |devs| && Forwarded(devs, i)
      ensures 0 <= devs[i].forwarderIndex < |devs| && devs[i].forwarderIndex != own
        && !Forwarded(devs, devs[i].forwarderIndex)
    {
      assert Forwarded(chosen, i);
    }
  }

  /** With at most one announcer in the fetched view, the machine routes everything if and only if
      that announcer has a key wherever it is to carry addresses. */
  lemma PlannedRoutingIff(v: CensoredNetwork, dev: string, publicKey: Key, canForward: bool, env: Surroundings)
    requires ViewIndex(v.devices, dev) >= 0 && OneAnnouncer(v.devices)
    ensures var own := ViewIndex(v.devices, dev);
      var view := MakePlan(v, own, publicKey, canForward, env).view;
      && CompileNetwork(view, dev, true).Built?
      && (AllAllowed(CompileNetwork(view, dev, true).iface.peers) == Wanted(view.devices, own, |view.devices|)
          <==> KeyedForwarders(view.devices, own))
  {
    var own := ViewIndex(v.devices, dev);
    var view := MakePlan(v, own, publicKey, canForward, env).view;
    PlanCompiles(v, dev, publicKey, canForward, env);
    PlanKeepsNames(v, own, publicKey, canForward, env, dev);
    PlanForwardsDirectly(v, own, publicKey, canForward, env);
    RoutingConservedIff(view, dev, true);
    CarriedIff(view.devices, own);
  }

  lemma CarriedIff(devs: Devices, me: nat)
    requires forall i | 0 <= i < |devs| && Forwarded(devs, i) ::
      var f := devs[i].forwarderIndex; 0 <= f < |devs| && f != me && !Forwarded(devs, f)
    ensures KeyedForwarders(devs, me)
            <==> forall i | 0 <= i < |devs| && Other(devs, me, i) && Carrier(devs, me, i).None? ::
              devs[i].addresses == []
  {
    forall i | 0 <= i < |devs| && Other(devs, me, i)
      ensures Carrier(devs, me, i).None? <==> Forwarded(devs, i) && !Keyed(devs, devs[i].forwarderIndex)
    {
    }
  }

  /** A view shows at most one announcer if the spec has at most one. */
  lemma OneAnnouncerSeen(s: Spec, net: string, dev: string)
    requires Forwarding.OneAnnouncer(s) && Known(s, net, dev)
    ensures OneAnnouncer(CurrentView(s, net, dev).value.devices)
  {
    var n := GetNetwork(s, net);
    var access := GetDevice(n, dev).access;
    var at := Enumeration(access, n.devices);
    VisibleAt(access, n.devices, at);
    var v := Visible(access, n.devices);
    var nI := NetworkIndex(s, net);
    forall i, j | 0 <= i < |v| && 0 <= j < |v| && v[i].accessible != [] && v[j].accessible != [] ensures i == j {
      assert Forwarding.Announces(s, nI, at[i]) && Forwarding.Announces(s, nI, at[j]);
    }
  }

  /** In every run with a PATCH since the spec was last replaced, what a device plans from the view it
      would be sent routes everything if and only if the one forwarder there can be has a key. */
  lemma PatchedRunsRouteIff(s: Spec, es: seq<Protocol.Event>, pub: Derivation, id: Identity, publicKey: Key,
                            canForward: bool, env: Surroundings)
    requires Forwarding.PatchedSince(s, es, pub)
    requires SeesItself(Protocol.RunEvents(Protocol.Initial(s), es, pub).server.spec, id.net, id.dev)
    ensures var v := CurrentView(Protocol.RunEvents(Protocol.Initial(s), es, pub).server.spec, id.net, id.dev).value;
      var own := ViewIndex(v.devices, id.dev);
      var view := MakePlan(v, own, publicKey, canForward, env).view;
      && CompileNetwork(view, id.dev, true).Built?
      && (AllAllowed(CompileNetwork(view, id.dev, true).iface.peers) == Wanted(view.devices, own, |view.devices|)
          <==> KeyedForwarders(view.devices, own))
  {
    var spec := Protocol.RunEvents(Protocol.Initial(s), es, pub).server.spec;
    Forwarding.PatchedHasOne(s, es, pub);
    OneAnnouncerSeen(spec, id.net, id.dev);
    PlannedRoutingIff(CurrentView(spec, id.net, id.dev).value, id.dev, publicKey, canForward, env);
  }

  // ----- a chain -----

  function Plain(name: string, key: Key, last: Byte): CensoredDevice {
    CensoredDevice(name, [], false, false, 0, 0, [IPNet([10, 0, 0, last], [255, 255, 255, 255])], 0, key, None, 0, [])
  }

  /** `f` is reachable and announces `g`, which announces `h`. */
  function Fresh(): Devices {
    [Plain("me", 1, 1),
     Plain("f", 2, 2).(endpoints := ["f:1"], accessible := ["g"]),
     Plain("g", 3, 3).(accessible := ["h"]),
     Plain("h", 4, 4)]
  }

  function Chain(): Devices {
    var d := Fresh();
    [d[0],
     d[1].(chosen := true),
     d[2].(chosen := true, usesForwarder := true, forwarderIndex := 1),
     d[3].(chosen := true, usesForwarder := true, forwarderIndex := 2)]
  }

  lemma {:induction false} OnlyForwarder(devs: Devices, name: string, n: nat, f: nat)
    requires n <= |devs| && f < |devs|
    requires forall i | 0 <= i < |devs| :: CanForwardFor(devs, i, name) <==> i == f
    ensures Forwarders(devs, name, n) == if f < n then [f] else []
  {
    if n > 0 {
      OnlyForwarder(devs, name, n - 1, f);
    }
  }

  lemma FreshPinged(env: Surroundings)
    requires env.ping(1, 0)
    ensures ChoiceFor(Fresh(), env, 1) == Picked(0)
    ensures ChoiceFor(Fresh(), env, 2) == AllBad && ChoiceFor(Fresh(), env, 3) == AllBad
  {
    ChoiceMeans(PingVerdicts(env, 1, 1));
    assert FirstMaximum(PingVerdicts(env, 1, 1), 0);
    ChoiceMeans(PingVerdicts(env, 2, 0));
    ChoiceMeans(PingVerdicts(env, 3, 0));
  }

  lemma FreshTried(env: Surroundings)
    requires env.ping(1, 0)
    ensures AllTried(Fresh(), 0, env) == Fresh()[1 := Fresh()[1].(chosen := true)]
    ensures Needs(Fresh(), 0, env, 4) == [2, 3]
  {
    var d := Fresh();
    FreshPinged(env);
    assert Needs(d, 0, env, 1) == [] && Needs(d, 0, env, 2) == [] && Needs(d, 0, env, 3) == [2];
  }

  function Pinged(): Devices {
    Fresh()[1 := Fresh()[1].(chosen := true)]
  }

  function Half(): Devices {
    Pinged()[2 := Fresh()[2].(chosen := true, usesForwarder := true, forwarderIndex := 1)]
  }

  lemma OneChoice(devs: Devices, env: Surroundings, i: nat, f: nat)
    requires i < |devs| && f < |devs|
    requires forall k | 0 <= k < |devs| :: CanForwardFor(devs, k, devs[i].name) <==> k == f
    ensures WithForwarder(devs, env, i)
      == devs[i := devs[i].(chosen := true, usesForwarder := true, forwarderIndex := f)]
  {
    OnlyForwarder(devs, devs[i].name, |devs|, f);
  }

  lemma FirstForwarder(env: Surroundings)
    ensures WithForwarder(Pinged(), env, 2) == Half()
  {
    var d := Pinged();
    assert d[1].accessible == ["g"] && d[2].accessible == ["h"] && d[0].accessible == d[3].accessible == [];
    assert !d[2].chosen;
    OneChoice(d, env, 2, 1);
  }

  lemma SecondForwarder(env: Surroundings)
    ensures WithForwarder(Half(), env, 3) == Chain()
  {
    var d := Half();
    assert d[1].accessible == ["g"] && d[2].accessible == ["h"] && d[0].accessible == d[3].accessible == [];
    assert "g" != "h" by {
      assert "g"[0] != "h"[0];
    }
    OneChoice(d, env, 3, 2);
  }

  lemma TwoForwarders(devs: Devices, env: Surroundings, i: nat, j: nat, half: Devices, whole: Devices)
    requires i < |devs| && j < |devs| && WithForwarder(devs, env, i) == half
    requires |half| == |devs| && WithForwarder(half, env, j) == whole
    ensures WithForwarders(devs, env, [i, j]) == whole
  {
    assert [i, j][..1] == [i] && [i][..0] == [];
    assert WithForwarders(devs, env, []) == devs;
    assert WithForwarders(devs, env, [i]) == half;
  }

  lemma FreshChosen(env: Surroundings)
    requires env.ping(1, 0)
    ensures Choose(Fresh(), 0, env) == Chain()
  {
    FreshTried(env);
    FirstForwarder(env);
    SecondForwarder(env);
    TwoForwarders(Pinged(), env, 2, 3, Half(), Chain());
  }

  /** A spec with two announcers: `h` comes to use `g`, which uses `f`. The device has nothing to
      patch, its machine compiles, and no peer carries the address of `h`. */
  lemma ChainLosesRoutes(env: Surroundings)
    requires env.ping(1, 0)
    ensures var v := CensoredNetwork("n", Fresh(), "me");
      var p := MakePlan(v, 0, 1, false, env);
      && p.keyPatch.None? && p.accessPatch.None?
      && CompileNetwork(p.view, "me", true).Built?
      && AllAllowed(CompileNetwork(p.view, "me", true).iface.peers) != Wanted(p.view.devices, 0, |p.view.devices|)
  {
    var v := CensoredNetwork("n", Fresh(), "me");
    var p := MakePlan(v, 0, 1, false, env);
    FreshPlanned(env);
    assert ViewIndex(v.devices, "me") == 0 by {
      assert v.devices[0].name == "me";
    }
    PlanCompiles(v, "me", 1, false, env);
    PlanKeepsNames(v, 0, 1, false, env, "me");
    assert Other(Chain(), 0, 3) && Carrier(Chain(), 0, 3).None? && Chain()[3].addresses != [];
    RoutingConservedIff(p.view, "me", true);
  }

  lemma FreshPlanned(env: Surroundings)
    requires env.ping(1, 0)
    ensures MakePlan(CensoredNetwork("n", Fresh(), "me"), 0, 1, false, env)
         == Plan(None, None, CensoredNetwork("n", Chain(), "me"))
  {
    var v := CensoredNetwork("n", Fresh(), "me");
    FreshReadsBack();
    assert Fresh()[0 := Fresh()[0]] == Fresh();
    assert WithKey(v, 0, 1) == v;
    FreshChosen(env);
    assert Chain()[0 := Chain()[0]] == Chain();
  }

  lemma FreshReadsBack()
    ensures Decoded(CensoredNetwork("n", Fresh(), "me")) == CensoredNetwork("n", Fresh(), "me")
  {
    var d := Fresh();
    forall i | 0 <= i < 4 ensures Wire(d[i]) == d[i] {
      assert TextNets(d[i].addresses) == d[i].addresses;
    }
  }
}
