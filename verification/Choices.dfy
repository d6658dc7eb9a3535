/** What chooseEndpoints picks, in terms of the pings alone: the first endpoint that answers, or else a
    forwarder, if one can be reached by then. */
module Choices {
  import opened Prelude
  import opened NetAddr
  import opened Specs
  import opened Resolve
  import opened Compile
  import opened Choosing
  import opened DeviceClient
  import Routing
  import Convergence

  /** Does some endpoint of the device answer? */
  ghost predicate Answers(devs: Devices, env: Surroundings, i: nat)
    requires i < |devs|
  {
    exists e | 0 <= e < |devs[i].endpoints| :: env.ping(i, e)
  }

  /** The first that does. */
  ghost predicate FirstAnswer(d: CensoredDevice, env: Surroundings, i: nat, e: int) {
    0 <= e < |d.endpoints| && env.ping(i, e) && forall k | 0 <= k < e :: !env.ping(i, k)
  }

  lemma PickedFirst(devs: Devices, env: Surroundings, i: nat)
    requires i < |devs|
    ensures if Answers(devs, env, i)
            then ChoiceFor(devs, env, i).Picked? && FirstAnswer(devs[i], env, i, ChoiceFor(devs, env, i).index)
            else ChoiceFor(devs, env, i).AllBad?
  {
    var vs := PingVerdicts(env, i, |devs[i].endpoints|);
    ChoiceMeans(vs);
    PingNeverPanics(env, i, |devs[i].endpoints|);
    if ChoiceOf(vs).Picked? {
      var e := ChoiceOf(vs).index;
      assert FirstMaximum(vs, e) && vs[e] == Score(0);
      assert env.ping(i, e);
      forall k | 0 <= k < e ensures !env.ping(i, k) {
        assert vs[k].Score? ==> vs[k].value < vs[e].value;
      }
    } else {
      forall k | 0 <= k < |devs[i].endpoints| ensures !env.ping(i, k) {
        assert vs[k].Bad?;
      }
    }
  }

  /** Nothing chosen yet, as after decoding. */
  ghost predicate Unchosen(devs: Devices) {
    forall i | 0 <= i < |devs| :: !devs[i].chosen && !devs[i].usesForwarder
  }

  lemma {:induction false} NeedsMean(devs: Devices, me: nat, env: Surroundings, n: nat, i: nat)
    requires n <= |devs| && i < |devs| && Unchosen(devs)
    ensures i in Needs(devs, me, env, n) <==> i < n && i != me && !Answers(devs, env, i)
  {
    if n > 0 {
      NeedsMean(devs, me, env, n - 1, i);
      PickedFirst(devs, env, n - 1);
    }
  }

  lemma {:induction false} NeedsIncrease(devs: Devices, me: nat, env: Surroundings, n: nat, j: nat, k: nat)
    requires n <= |devs| && j < k < |Needs(devs, me, env, n)|
    ensures Needs(devs, me, env, n)[j] < Needs(devs, me, env, n)[k]
  {
    if k < |Needs(devs, me, env, n - 1)| {
      NeedsIncrease(devs, me, env, n - 1, j, k);
    }
  }

  // ----- one forwarder after another -----

  /** Can the device at `f` forward for `i` when the turn of `i` comes? */
  ghost predicate Reachable(devs: Devices, r: Devices, me: nat, env: Surroundings, i: nat, f: nat)
    requires i < |devs| && f < |devs| == |r|
  {
    f != me && devs[i].name in devs[f].accessible && (Answers(devs, env, f) || (f < i && r[f].chosen))
  }

  /** What has become of the devices at `needs`, all others being as tried. */
  ghost predicate Standing(devs: Devices, r: Devices, me: nat, env: Surroundings, needs: seq<nat>) {
    && |r| == |devs|
    && (forall i | 0 <= i < |devs| && i !in needs :: r[i] == Tried(devs, me, env, i))
    && (forall i | 0 <= i < |devs| && i in needs ::
          && r[i].name == devs[i].name && r[i].accessible == devs[i].accessible
          && (r[i].chosen <==> exists f: nat | f < |devs| :: Reachable(devs, r, me, env, i, f))
          && (r[i].chosen ==> r[i].usesForwarder && 0 <= r[i].forwarderIndex < |devs|
                              && Reachable(devs, r, me, env, i, r[i].forwarderIndex)))
  }

  /** Of the devices so far, those that could be forwarders are those that are chosen. */
  lemma ChosenSoFar(devs: Devices, r: Devices, me: nat, env: Surroundings, needs: seq<nat>, i: nat, f: nat)
    requires Unchosen(devs) && Standing(devs, r, me, env, needs) && i < |devs| && f < |devs| && i != me && i !in needs
    requires forall k | k in needs :: k < i && k != me && !Answers(devs, env, k)
    requires !Answers(devs, env, i)
    ensures r[f].accessible == devs[f].accessible && r[i].name == devs[i].name && !r[i].chosen
    ensures CanForwardFor(r, f, r[i].name) && f != i <==> Reachable(devs, r, me, env, i, f)
  {
    PickedFirst(devs, env, f);
    PickedFirst(devs, env, i);
  }

  lemma OneTurn(devs: Devices, r: Devices, me: nat, env: Surroundings, needs: seq<nat>, i: nat)
    requires Unchosen(devs) && Standing(devs, r, me, env, needs) && i < |devs| && i != me && i !in needs
    requires forall k | k in needs :: k < i && k != me && !Answers(devs, env, k)
    requires !Answers(devs, env, i)
    ensures Standing(devs, WithForwarder(r, env, i), me, env, needs + [i])
  {
    var fs := Forwarders(r, r[i].name, |r|);
    var r' := WithForwarder(r, env, i);
    forall f: nat | f < |devs| ensures f in fs <==> Reachable(devs, r, me, env, i, f) {
      ChosenSoFar(devs, r, me, env, needs, i, f);
    }
    forall f: nat | f < |devs| ensures Reachable(devs, r', me, env, i, f) <==> Reachable(devs, r, me, env, i, f) {}
    forall k, f: nat | k in needs && k < |devs| && f < |devs|
      ensures Reachable(devs, r', me, env, k, f) <==> Reachable(devs, r, me, env, k, f)
    {
    }
    if fs != [] {
      var f := fs[env.random(i) % |fs|];
      assert f in fs;
    }
  }

  /** Devices of which no endpoint answers, in order. */
  ghost predicate InTurn(devs: Devices, me: nat, env: Surroundings, needs: seq<nat>) {
    && (forall k | 0 <= k < |needs| :: needs[k] < |devs| && needs[k] != me && !Answers(devs, env, needs[k]))
    && (forall j, k | 0 <= j < k < |needs| :: needs[j] < needs[k])
  }

  lemma NeedsInTurn(devs: Devices, me: nat, env: Surroundings)
    requires Unchosen(devs)
    ensures InTurn(devs, me, env, Needs(devs, me, env, |devs|))
  {
    var needs := Needs(devs, me, env, |devs|);
    forall k | 0 <= k < |needs| ensures needs[k] != me && !Answers(devs, env, needs[k]) {
      NeedsMean(devs, me, env, |devs|, needs[k]);
    }
    forall j, k | 0 <= j < k < |needs| ensures needs[j] < needs[k] {
      NeedsIncrease(devs, me, env, |devs|, j, k);
    }
  }

  /** The state of things after `n` turns. */
  ghost predicate TurnsDone(devs: Devices, me: nat, env: Surroundings, needs: seq<nat>, n: nat)
    requires n <= |needs| && forall k | 0 <= k < |needs| :: needs[k] < |devs|
  {
    Standing(devs, WithForwarders(AllTried(devs, me, env), env, needs[..n]), me, env, needs[..n])
  }

  lemma NextTurn(devs: Devices, me: nat, env: Surroundings, needs: seq<nat>, n: nat)
    requires n < |needs| && Unchosen(devs) && InTurn(devs, me, env, needs) && TurnsDone(devs, me, env, needs, n)
    ensures TurnsDone(devs, me, env, needs, n + 1)
  {
    var front := needs[..n];
    assert needs[..n+1] == front + [needs[n]];
    assert WithForwarders(AllTried(devs, me, env), env, needs[..n+1])
        == WithForwarder(WithForwarders(AllTried(devs, me, env), env, front), env, needs[n]) by {
      assert needs[..n+1][..n] == front;
    }
    LastTurn(devs, WithForwarders(AllTried(devs, me, env), env, front), me, env, front, needs[n]);
  }

  lemma AllTurns(devs: Devices, me: nat, env: Surroundings, needs: seq<nat>)
    requires Unchosen(devs) && InTurn(devs, me, env, needs)
    ensures Standing(devs, WithForwarders(AllTried(devs, me, env), env, needs), me, env, needs)
  {
    var p := (k: nat) => k <= |needs| ==> TurnsDone(devs, me, env, needs, k);
    forall k: nat | k < |needs| ensures Onward(p, k) {
      if p(k) {
        NextTurn(devs, me, env, needs, k);
      }
    }
    assert needs[..0] == [];
    assert p(0);
    StepByStep(p, |needs|);
    assert needs[..|needs|] == needs;
  }

  lemma LastTurn(devs: Devices, r: Devices, me: nat, env: Surroundings, front: seq<nat>, last: nat)
    requires Unchosen(devs) && Standing(devs, r, me, env, front) && InTurn(devs, me, env, front + [last])
    ensures last < |devs| && Standing(devs, WithForwarder(r, env, last), me, env, front + [last])
  {
    var needs := front + [last];
    assert needs[|front|] == last;
    forall k | k in front ensures k < last && k != me && !Answers(devs, env, k) {
      var j :| 0 <= j < |front| && front[j] == k;
      assert needs[j] == k;
    }
    OneTurn(devs, r, me, env, front, last);
  }

  lemma AllStanding(devs: Devices, me: nat, env: Surroundings)
    requires Unchosen(devs)
    ensures Standing(devs, Choose(devs, me, env), me, env, Needs(devs, me, env, |devs|))
  {
    NeedsInTurn(devs, me, env);
    AllTurns(devs, me, env, Needs(devs, me, env, |devs|));
  }

  /** A device of which some endpoint answers is reached at the first one that does. Of any other, a device
      that announces it becomes the forwarder: one that answers itself, or an earlier one that has got a
      forwarder; and it gets one if and only if there is such a device. */
  lemma ChosenMeans(devs: Devices, me: nat, env: Surroundings, i: nat)
    requires forall k | 0 <= k < |devs| :: !devs[k].chosen && !devs[k].usesForwarder
    requires i < |devs| && i != me
    ensures var r := Choose(devs, me, env);
      (exists e | 0 <= e < |devs[i].endpoints| :: env.ping(i, e)) ==>
        && r[i].chosen && !r[i].usesForwarder
        && 0 <= r[i].endpointIndex < |devs[i].endpoints| && env.ping(i, r[i].endpointIndex)
        && forall e | 0 <= e < r[i].endpointIndex :: !env.ping(i, e)
    ensures var r := Choose(devs, me, env);
      !(exists e | 0 <= e < |devs[i].endpoints| :: env.ping(i, e)) ==>
        && (r[i].chosen <==>
              exists f: nat | f < |devs| && f != me && devs[i].name in devs[f].accessible ::
                (exists e | 0 <= e < |devs[f].endpoints| :: env.ping(f, e)) || (f < i && r[f].chosen))
        && (r[i].chosen ==>
              && r[i].usesForwarder
              && 0 <= r[i].forwarderIndex < |devs| && r[i].forwarderIndex != me
              && devs[i].name in devs[r[i].forwarderIndex].accessible
              && ((exists e | 0 <= e < |devs[r[i].forwarderIndex].endpoints| :: env.ping(r[i].forwarderIndex, e))
                  || (r[i].forwarderIndex < i && r[r[i].forwarderIndex].chosen)))
  {
    var r, needs := Choose(devs, me, env), Needs(devs, me, env, |devs|);
    AllStanding(devs, me, env);
    NeedsMean(devs, me, env, |devs|, i);
    PickedFirst(devs, env, i);
    if Answers(devs, env, i) {
      assert r[i] == Tried(devs, me, env, i);
    } else {
      assert i in needs;
      ForwardedMeans(devs, r, me, env, needs, i);
    }
  }

  lemma ForwardedMeans(devs: Devices, r: Devices, me: nat, env: Surroundings, needs: seq<nat>, i: nat)
    requires i < |devs| && i in needs && Standing(devs, r, me, env, needs)
    ensures r[i].chosen <==>
      exists f: nat | f < |devs| && f != me && devs[i].name in devs[f].accessible ::
        (exists e | 0 <= e < |devs[f].endpoints| :: env.ping(f, e)) || (f < i && r[f].chosen)
    ensures r[i].chosen ==>
      && r[i].usesForwarder
      && 0 <= r[i].forwarderIndex < |devs| && r[i].forwarderIndex != me
      && devs[i].name in devs[r[i].forwarderIndex].accessible
      && ((exists e | 0 <= e < |devs[r[i].forwarderIndex].endpoints| :: env.ping(r[i].forwarderIndex, e))
          || (r[i].forwarderIndex < i && r[r[i].forwarderIndex].chosen))
  {
    forall f: nat | f < |devs|
      ensures Reachable(devs, r, me, env, i, f) <==>
        f != me && devs[i].name in devs[f].accessible
        && ((exists e | 0 <= e < |devs[f].endpoints| :: env.ping(f, e)) || (f < i && r[f].chosen))
    {
    }
  }

  /** Every device that can forward may be picked. */
  lemma AnyForwarder(devs: Devices, env: Surroundings, i: nat, f: nat) returns (env': Surroundings)
    requires i < |devs| && f < |devs| && devs[f].chosen && devs[i].name in devs[f].accessible
    ensures env'.ping == env.ping
    ensures var d := WithForwarder(devs, env', i)[i]; d.chosen && d.usesForwarder && d.forwarderIndex == f
  {
    var fs := Forwarders(devs, devs[i].name, |devs|);
    assert CanForwardFor(devs, f, devs[i].name);
    var k :| 0 <= k < |fs| && fs[k] == f;
    env' := env.(random := _ => k);
    SmallRemainder(k, |fs|);
  }

  lemma SmallRemainder(k: nat, n: nat)
    requires k < n
    ensures k % n == k
  {
  }

  // ----- what is compiled and announced of it -----

  /** The peers of the planned machine have the endpoint that answers first, or none. */
  lemma PlannedEndpoints(v: CensoredNetwork, dev: string, publicKey: Key, canForward: bool, env: Surroundings)
    returns (of: seq<nat>)
    requires ViewIndex(v.devices, dev) >= 0
    ensures var own := ViewIndex(v.devices, dev);
      var o := CompileNetwork(MakePlan(v, own, publicKey, canForward, env).view, dev, true);
      && o.Built? && |of| == |o.iface.peers|
      && (forall j, k | 0 <= j < k < |of| :: of[j] < of[k])
      && (forall k | 0 <= k < |of| ::
            && of[k] < |v.devices| && of[k] != own
            && o.iface.peers[k].name == v.devices[of[k]].name
            && o.iface.peers[k].publicKey == v.devices[of[k]].publicKey
            && EndpointFor(o.iface.peers[k].endpoint, v.devices[of[k]].endpoints, env, of[k]))
      && (forall i | 0 <= i < |v.devices| && i != own && v.devices[i].publicKey != 0
            && (exists e | 0 <= e < |v.devices[i].endpoints| :: env.ping(i, e)) :: i in of)
  {
    var own := ViewIndex(v.devices, dev);
    var view := MakePlan(v, own, publicKey, canForward, env).view;
    Convergence.PlanCompiles(v, dev, publicKey, canForward, env);
    PlanKeepsNames(v, own, publicKey, canForward, env, dev);
    of := Routing.PeersAreDirectDevices(view, dev, true);
    var peers := CompileNetwork(view, dev, true).iface.peers;
    forall k | 0 <= k < |of|
      ensures of[k] < |v.devices| && of[k] != own
      ensures peers[k].name == v.devices[of[k]].name && peers[k].publicKey == v.devices[of[k]].publicKey
      ensures EndpointFor(peers[k].endpoint, v.devices[of[k]].endpoints, env, of[k])
    {
      PlannedChoice(v, own, publicKey, canForward, env, of[k]);
      PeerEndpoint(view.devices, v.devices, own, env, of[k], peers[k]);
    }
    forall i | 0 <= i < |v.devices| && i != own && v.devices[i].publicKey != 0
      && (exists e | 0 <= e < |v.devices[i].endpoints| :: env.ping(i, e))
      ensures i in of
    {
      PlannedChoice(v, own, publicKey, canForward, env, i);
      assert IsPeer(view.devices, own, i);
    }
  }

  lemma PeerEndpoint(devs: Devices, fetched: Devices, own: nat, env: Surroundings, i: nat, p: Peer)
    requires i < |devs| == |fetched| && IsPeer(devs, own, i) && Planned(devs, fetched, env, i)
    requires Routing.Represents(p, devs[i])
    ensures p.name == fetched[i].name && p.publicKey == fetched[i].publicKey
    ensures EndpointFor(p.endpoint, fetched[i].endpoints, env, i)
  {
  }

  /** Is the endpoint the first one that answers, or empty if none does? */
  ghost predicate EndpointFor(endpoint: string, endpoints: seq<string>, env: Surroundings, i: nat) {
    if exists e | 0 <= e < |endpoints| :: env.ping(i, e) then
      exists e | 0 <= e < |endpoints| && env.ping(i, e) ::
        endpoint == endpoints[e] && forall k | 0 <= k < e :: !env.ping(i, k)
    else endpoint == ""
  }

  /** A planned device has its name, key and endpoints from the fetched view, and its choice from the pings. */
  ghost predicate Planned(devs: Devices, fetched: Devices, env: Surroundings, i: nat)
    requires i < |devs| == |fetched|
  {
    && devs[i].name == fetched[i].name && devs[i].publicKey == fetched[i].publicKey
    && devs[i].endpoints == fetched[i].endpoints
    && if exists e | 0 <= e < |fetched[i].endpoints| :: env.ping(i, e) then
         && devs[i].chosen && !devs[i].usesForwarder
         && 0 <= devs[i].endpointIndex < |fetched[i].endpoints| && env.ping(i, devs[i].endpointIndex)
         && forall k | 0 <= k < devs[i].endpointIndex :: !env.ping(i, k)
       else devs[i].chosen ==> devs[i].usesForwarder
  }

  lemma PlannedChoice(v: CensoredNetwork, own: nat, publicKey: Key, canForward: bool, env: Surroundings, i: nat)
    requires own < |v.devices| && i < |v.devices| && i != own
    ensures Planned(MakePlan(v, own, publicKey, canForward, env).view.devices, v.devices, env, i)
  {
    var start := WithKey(Decoded(v), own, publicKey).devices;
    ChosenMeans(start, own, env, i);
    Convergence.PlanShape(v, own, publicKey, canForward, env);
  }

  lemma {:induction false} NamesOfChosen(devs: Devices, n: nat) returns (of: seq<nat>)
    requires n <= |devs|
    ensures |of| == |ChosenNames(devs, n)|
    ensures forall k | 0 <= k < |of| :: of[k] < n && devs[of[k]].chosen && ChosenNames(devs, n)[k] == devs[of[k]].name
    ensures forall j, k | 0 <= j < k < |of| :: of[j] < of[k]
    ensures forall i | 0 <= i < n && devs[i].chosen :: i in of
  {
    of := [];
    if n > 0 {
      of := NamesOfChosen(devs, n - 1);
      if devs[n-1].chosen {
        of := of + [n - 1];
      }
    }
  }

  /** A device that can forward announces the names of the devices with a choice, all of them and in order;
      any other announces nothing. */
  lemma AnnouncedMeans(v: CensoredNetwork, own: nat, publicKey: Key, canForward: bool, env: Surroundings)
    returns (of: seq<nat>)
    requires own < |v.devices|
    ensures var devs := MakePlan(v, own, publicKey, canForward, env).view.devices;
      var names := devs[own].accessible;
      if canForward then
        && |of| == |names|
        && (forall k | 0 <= k < |of| :: of[k] < |devs| && devs[of[k]].chosen && names[k] == v.devices[of[k]].name)
        && (forall j, k | 0 <= j < k < |of| :: of[j] < of[k])
        && (forall i | 0 <= i < |devs| && devs[i].chosen :: i in of)
      else names == []
  {
    of := [];
    var start := WithKey(Decoded(v), own, publicKey).devices;
    var chosen := Choose(start, own, env);
    NamesKept(v, own, publicKey, env);
    if canForward {
      of := NamesOfChosen(chosen, |chosen|);
    }
  }

  lemma NamesKept(v: CensoredNetwork, own: nat, publicKey: Key, env: Surroundings)
    requires own < |v.devices|
    ensures var chosen := Choose(WithKey(Decoded(v), own, publicKey).devices, own, env);
      forall i | 0 <= i < |v.devices| :: chosen[i].name == v.devices[i].name
  {
    var start := WithKey(Decoded(v), own, publicKey).devices;
    forall i | 0 <= i < |start| ensures start[i] == Wire(start[i]) {
      TextNetsMean(v.devices[i].addresses);
    }
    ForwardersRanked(start, own, env);
    var chosen := Choose(start, own, env);
    forall i | 0 <= i < |v.devices| ensures chosen[i].name == v.devices[i].name {
      assert OnlyChoices(start, chosen, own);
      assert chosen[i].(chosen := false, usesForwarder := false, endpointIndex := 0, forwarderIndex := 0)
          == start[i].(chosen := false, usesForwarder := false, endpointIndex := 0, forwarderIndex := 0);
    }
  }
}
