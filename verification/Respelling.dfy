/** Equal specs compile alike: compilation does not depend on how addresses are spelled. */
module Respelling {
  import opened Prelude
  import opened NetAddr
  import opened Specs
  import opened Compile

  /** Canonical addresses, everything else as it is. */
  function Respelled(d: CensoredDevice): CensoredDevice {
    d.(addresses := CanonNets(d.addresses))
  }

  function RespelledView(v: CensoredNetwork): CensoredNetwork {
    v.(devices := Map(Respelled, v.devices))
  }

  function RespelledPeer(p: Peer): Peer {
    p.(allowedIPs := CanonNets(p.allowedIPs))
  }

  function RespelledInterface(i: Interface): Interface {
    i.(addresses := CanonNets(i.addresses), peers := Map(RespelledPeer, i.peers))
  }

  function RespelledOutcome(o: NetworkOutcome): NetworkOutcome {
    match o
    case Built(iface, v4, v6) => Built(RespelledInterface(iface), v4, v6)
    case _ => o
  }

  /** The same choices of endpoints and forwarders. */
  predicate SameChoices(a: Devices, b: Devices) {
    |a| == |b| && forall i | 0 <= i < |a| ::
      && a[i].chosen == b[i].chosen && a[i].usesForwarder == b[i].usesForwarder
      && a[i].endpointIndex == b[i].endpointIndex && a[i].forwarderIndex == b[i].forwarderIndex
  }

  lemma {:induction false} ForwardeesRespelled(devs: Devices, me: nat, k: int, n: nat)
    requires n <= |devs|
    ensures Forwardees(Map(Respelled, devs), me, k, n) == Forwardees(devs, me, k, n)
  {
    if n > 0 {
      ForwardeesRespelled(devs, me, k, n - 1);
    }
  }

  lemma {:induction false} AddressesOfRespelled(devs: Devices, js: seq<nat>)
    requires forall l | 0 <= l < |js| :: js[l] < |devs|
    ensures AddressesOf(Map(Respelled, devs), js) == CanonNets(AddressesOf(devs, js))
  {
    if js != [] {
      AddressesOfRespelled(devs, js[..|js|-1]);
      MapAppend(CanonNet, AddressesOf(devs, js[..|js|-1]), devs[js[|js|-1]].addresses);
    }
  }

  predicate PeersAlike(devs: Devices, me: nat, n: nat)
    requires n <= |devs|
  {
    Peers(Map(Respelled, devs), me, n) == Map(RespelledPeer, Peers(devs, me, n))
  }

  lemma OneMoreRespelled(devs: Devices, me: nat, n: nat)
    requires n < |devs| && PeersAlike(devs, me, n)
    ensures PeersAlike(devs, me, n + 1)
  {
    PeerRespelled(devs, me, n);
    assert IsPeer(Map(Respelled, devs), me, n) == IsPeer(devs, me, n);
    if IsPeer(devs, me, n) {
      OnePeerMore(Peers(devs, me, n), PeerAt(devs, me, n));
    }
  }

  lemma PeersRespelled(devs: Devices, me: nat, n: nat)
    requires n <= |devs|
    ensures Peers(Map(Respelled, devs), me, n) == Map(RespelledPeer, Peers(devs, me, n))
  {
    var alike := (k: nat) => k <= |devs| ==> PeersAlike(devs, me, k);
    forall k: nat | k < n ensures Onward(alike, k) {
      if alike(k) {
        OneMoreRespelled(devs, me, k);
      }
    }
    assert alike(0);
    StepByStep(alike, n);
  }

  lemma OnePeerMore(ps: seq<Peer>, p: Peer)
    ensures Map(RespelledPeer, ps + [p]) == Map(RespelledPeer, ps) + [RespelledPeer(p)]
  {
  }

  lemma PeerRespelled(devs: Devices, me: nat, i: nat)
    requires i < |devs|
    ensures PeerAt(Map(Respelled, devs), me, i) == RespelledPeer(PeerAt(devs, me, i))
  {
    var js := Forwardees(devs, me, i, |devs|);
    ForwardeesRespelled(devs, me, i, |devs|);
    AddressesOfRespelled(devs, js);
    MapAppend(CanonNet, devs[i].addresses, AddressesOf(devs, js));
  }

  lemma {:induction false} FaultsRespelled(devs: Devices, me: nat, ignoreIncomplete: bool, n: nat)
    requires n <= |devs|
    ensures FaultBefore(Map(Respelled, devs), me, ignoreIncomplete, n) == FaultBefore(devs, me, ignoreIncomplete, n)
  {
    if n > 0 {
      FaultsRespelled(devs, me, ignoreIncomplete, n - 1);
    }
  }

  lemma IndexRespelled(devs: Devices, name: string)
    ensures ViewIndex(Map(Respelled, devs), name) == ViewIndex(devs, name)
  {
    var r := Map(Respelled, devs);
    assert forall k | 0 <= k < |devs| :: r[k].name == devs[k].name;
    assert ViewIndex(r, name) >= 0 ==> devs[ViewIndex(r, name)].name == name;
    assert ViewIndex(devs, name) >= 0 ==> r[ViewIndex(devs, name)].name == name;
  }

  lemma FamilyRespelled(nets: seq<IPNet>, v4: bool)
    ensures HasFamily(CanonNets(nets), v4) == HasFamily(nets, v4)
  {
    var r := CanonNets(nets);
    assert forall k | 0 <= k < |nets| :: To4(r[k].ip).Some? == To4(nets[k].ip).Some?;
  }

  lemma FlagsRespelled(devs: Devices, me: nat, v4: bool)
    requires me < |devs|
    ensures AccessibleKnown(Map(Respelled, devs), me) == AccessibleKnown(devs, me)
    ensures ForwardsFamily(Map(Respelled, devs), me, v4) == ForwardsFamily(devs, me, v4)
  {
    var r := Map(Respelled, devs);
    forall name ensures ViewIndex(r, name) == ViewIndex(devs, name) {
      IndexRespelled(devs, name);
    }
    forall i | 0 <= i < |devs| ensures HasFamily(r[i].addresses, v4) == HasFamily(devs[i].addresses, v4) {
      FamilyRespelled(devs[i].addresses, v4);
    }
  }

  /** Compiling commutes with respelling the addresses. */
  lemma CompileRespelled(v: CensoredNetwork, name: string, ignoreIncomplete: bool)
    ensures CompileNetwork(RespelledView(v), name, ignoreIncomplete)
         == RespelledOutcome(CompileNetwork(v, name, ignoreIncomplete))
  {
    IndexRespelled(v.devices, name);
    var me := ViewIndex(v.devices, name);
    if me >= 0 {
      FlagsRespelled(v.devices, me, true);
      FlagsRespelled(v.devices, me, false);
      var r := Map(Respelled, v.devices);
      assert IndexesInRange(r, me) <==> IndexesInRange(v.devices, me) by {
        assert forall i | 0 <= i < |r| ::
          Keyed(r, i) == Keyed(v.devices, i) && Forwarded(r, i) == Forwarded(v.devices, i);
      }
      FaultsRespelled(v.devices, me, ignoreIncomplete, |r|);
      PeersRespelled(v.devices, me, |r|);
    }
  }

  /** Equal views with the same choices compile to the same network, up to the spelling of
      addresses, or fail in the same way. */
  lemma EqualViewsCompileAlike(a: CensoredNetwork, b: CensoredNetwork, name: string, ignoreIncomplete: bool)
    requires ViewEqual(a, b) && SameChoices(a.devices, b.devices)
    ensures RespelledOutcome(CompileNetwork(a, name, ignoreIncomplete))
         == RespelledOutcome(CompileNetwork(b, name, ignoreIncomplete))
  {
    forall i | 0 <= i < |a.devices| ensures Respelled(a.devices[i]) == Respelled(b.devices[i]) {
      assert DeviceEqual(a.devices[i], b.devices[i]);
      NetsEqualIffCanon(a.devices[i].addresses, b.devices[i].addresses);
    }
    assert RespelledView(a) == RespelledView(b);
    CompileRespelled(a, name, ignoreIncomplete);
    CompileRespelled(b, name, ignoreIncomplete);
  }

  /** A whole machine, respelled. */
  function RespelledMachine(o: Outcome): Outcome {
    match o
    case Compiled(m) => Compiled(m.(interfaces := Map(RespelledInterface, m.interfaces)))
    case Failed(_) => o
  }

  lemma JoinedAlike(x: Outcome, y: Outcome, p: NetworkOutcome, q: NetworkOutcome)
    requires RespelledMachine(x) == RespelledMachine(y) && RespelledOutcome(p) == RespelledOutcome(q)
    ensures RespelledMachine(Joined(x, p)) == RespelledMachine(Joined(y, q))
  {
    if x.Compiled? && p.Built? {
      MapAppend(RespelledInterface, x.machine.interfaces, [p.iface]);
      MapAppend(RespelledInterface, y.machine.interfaces, [q.iface]);
      assert Map(RespelledInterface, [p.iface]) == Map(RespelledInterface, [q.iface]);
    }
  }

  lemma {:induction false} AllJoinedAlike(ps: seq<NetworkOutcome>, qs: seq<NetworkOutcome>, n: nat)
    requires n <= |ps| == |qs|
    requires forall i | 0 <= i < n :: RespelledOutcome(ps[i]) == RespelledOutcome(qs[i])
    ensures RespelledMachine(AllJoined(ps, n)) == RespelledMachine(AllJoined(qs, n))
  {
    if n > 0 {
      AllJoinedAlike(ps, qs, n - 1);
      JoinedAlike(AllJoined(ps, n - 1), AllJoined(qs, n - 1), ps[n-1], qs[n-1]);
    }
  }

  /** Equal specs with the same choices compile to the same machine, up to the spelling of addresses, or
      fail in the same way. */
  lemma EqualSpecsCompileAlike(a: seq<CensoredNetwork>, b: seq<CensoredNetwork>, name: string, ignoreIncomplete: bool)
    requires |a| == |b|
    requires forall i | 0 <= i < |a| :: ViewEqual(a[i], b[i]) && SameChoices(a[i].devices, b[i].devices)
    ensures RespelledMachine(CompileSpec(a, name, ignoreIncomplete))
      == RespelledMachine(CompileSpec(b, name, ignoreIncomplete))
  {
    var ps, qs := Outcomes(a, name, ignoreIncomplete), Outcomes(b, name, ignoreIncomplete);
    forall i | 0 <= i < |a| ensures RespelledOutcome(ps[i]) == RespelledOutcome(qs[i]) {
      EqualViewsCompileAlike(a[i], b[i], name, ignoreIncomplete);
    }
    AllJoinedAlike(ps, qs, |a|);
  }
}
