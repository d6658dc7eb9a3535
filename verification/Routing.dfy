/** What the compiled AllowedIPs mean: every address of another keyed device is routed to exactly
    one peer. */
module Routing {
  import opened Prelude
  import opened NetAddr
  import opened Specs
  import opened Compile

  // ----- who carries whose addresses -----

  /** A keyed device other than the compiling one: its addresses should be reachable. */
  predicate Other(devs: Devices, me: nat, i: nat)
    requires i < |devs|
  {
    i != me && Keyed(devs, i)
  }

  /** The peer that carries the addresses of device `i`: the device itself, or its forwarder
      provided that this is keyed, direct and not the compiling device; otherwise nobody. */
  function Carrier(devs: Devices, me: nat, i: nat): (c: Option<nat>)
    requires i < |devs|
    ensures c.Some? ==> c.value < |devs|
  {
    if !Other(devs, me, i) then None
    else if !Forwarded(devs, i) then Some(i)
    else
      var f := devs[i].forwarderIndex;
      if 0 <= f < |devs| && IsPeer(devs, me, f) then Some(f) else None
  }

  /** How often `x` occurs among the addresses of device `i`. */
  function Count(devs: Devices, i: nat, x: IPNet): nat
    requires i < |devs|
  {
    multiset(devs[i].addresses)[x]
  }

  /** How often `x` occurs among the addresses that peer `p` carries for the first `n` devices. */
  function Load(devs: Devices, me: nat, n: nat, p: nat, x: IPNet): nat
    requires n <= |devs|
  {
    if n == 0 then 0
    else Load(devs, me, n - 1, p, x) + (if Carrier(devs, me, n - 1) == Some(p) then Count(devs, n - 1, x) else 0)
  }

  /** How often `x` occurs among the addresses that somebody carries for the first `n` devices. */
  function Carried(devs: Devices, me: nat, n: nat, x: IPNet): nat
    requires n <= |devs|
  {
    if n == 0 then 0
    else Carried(devs, me, n - 1, x) + (if Carrier(devs, me, n - 1).Some? then Count(devs, n - 1, x) else 0)
  }

  /** All addresses of the keyed devices other than `me` among the first `n`. */
  function Wanted(devs: Devices, me: nat, n: nat): multiset<IPNet>
    requires n <= |devs|
  {
    if n == 0 then multiset{}
    else if Other(devs, me, n - 1) then Wanted(devs, me, n - 1) + multiset(devs[n-1].addresses)
    else Wanted(devs, me, n - 1)
  }

  /** The addresses, among the first `n` devices, that nobody carries although somebody should. */
  function Lost(devs: Devices, me: nat, n: nat): multiset<IPNet>
    requires n <= |devs|
  {
    if n == 0 then multiset{}
    else if Other(devs, me, n - 1) && Carrier(devs, me, n - 1).None?
    then Lost(devs, me, n - 1) + multiset(devs[n-1].addresses)
    else Lost(devs, me, n - 1)
  }

  function AllAllowed(peers: seq<Peer>): multiset<IPNet> {
    if peers == [] then multiset{}
    else AllAllowed(peers[..|peers|-1]) + multiset(peers[|peers|-1].allowedIPs)
  }

  /** A peer carries itself and the devices that use it. */
  lemma CarrierIs(devs: Devices, me: nat, i: nat, p: nat)
    requires i < |devs| && p < |devs| && IsPeer(devs, me, p)
    ensures Carrier(devs, me, i) == Some(p) <==> i == p || Uses(devs, me, i, p)
    ensures !(i == p && Uses(devs, me, i, p))
  {
  }

  lemma CarrierIsPeer(devs: Devices, me: nat, i: nat)
    requires i < |devs|
    ensures var c := Carrier(devs, me, i); c.Some? ==> IsPeer(devs, me, c.value)
  {
  }

  /** How often `x` occurs among the addresses of the first `n` devices that use forwarder `p`. */
  function ForwardedTo(devs: Devices, me: nat, n: nat, p: nat, x: IPNet): nat
    requires n <= |devs|
  {
    if n == 0 then 0
    else ForwardedTo(devs, me, n - 1, p, x) + (if Uses(devs, me, n - 1, p) then Count(devs, n - 1, x) else 0)
  }

  lemma OneMoreForwardee(devs: Devices, me: nat, n: nat, p: nat, x: IPNet)
    requires 0 < n <= |devs|
    ensures multiset(AddressesOf(devs, Forwardees(devs, me, p, n)))[x]
         == multiset(AddressesOf(devs, Forwardees(devs, me, p, n - 1)))[x]
            + (if Uses(devs, me, n - 1, p) then Count(devs, n - 1, x) else 0)
  {
    var js := Forwardees(devs, me, p, n - 1);
    var longer := Forwardees(devs, me, p, n);
    if Uses(devs, me, n - 1, p) {
      assert longer == js + [n - 1] && longer[..|js|] == js;
      assert AddressesOf(devs, longer) == AddressesOf(devs, js) + devs[n-1].addresses;
    } else {
      assert longer == js;
    }
  }

  predicate SameStep(f: nat -> nat, g: nat -> nat, k: nat)
    requires k > 0
  {
    f(k) - f(k - 1) == g(k) - g(k - 1)
  }

  lemma {:induction false} SameSums(f: nat -> nat, g: nat -> nat, n: nat)
    requires f(0) == g(0) && forall k: nat | 0 < k <= n :: SameStep(f, g, k)
    ensures f(n) == g(n)
  {
    if n > 0 {
      SameSums(f, g, n - 1);
      assert SameStep(f, g, n);
    }
  }

  lemma ForwardedToCounts(devs: Devices, me: nat, n: nat, p: nat, x: IPNet)
    requires n <= |devs|
    ensures multiset(AddressesOf(devs, Forwardees(devs, me, p, n)))[x] == ForwardedTo(devs, me, n, p, x)
  {
    var f := (k: nat) => if k <= |devs| then multiset(AddressesOf(devs, Forwardees(devs, me, p, k)))[x] else 0;
    var g := (k: nat) => if k <= |devs| then ForwardedTo(devs, me, k, p, x) else 0;
    forall k: nat | 0 < k <= n ensures SameStep(f, g, k) {
      OneMoreForwardee(devs, me, k, p, x);
    }
    SameSums(f, g, n);
  }

  /** A load is what the peer itself has, and what its forwardees have. */
  lemma {:induction false} LoadSplits(devs: Devices, me: nat, n: nat, p: nat, x: IPNet)
    requires n <= |devs| && p < |devs| && IsPeer(devs, me, p)
    ensures Load(devs, me, n, p, x) == (if p < n then Count(devs, p, x) else 0) + ForwardedTo(devs, me, n, p, x)
  {
    if n > 0 {
      LoadSplits(devs, me, n - 1, p, x);
      CarrierIs(devs, me, n - 1, p);
    }
  }

  /** The AllowedIPs of a peer are exactly the addresses it carries, each as often. */
  lemma PeerCarriesLoad(devs: Devices, me: nat, p: nat, x: IPNet)
    requires p < |devs| && IsPeer(devs, me, p)
    ensures multiset(PeerAt(devs, me, p).allowedIPs)[x] == Load(devs, me, |devs|, p, x)
  {
    LoadSplits(devs, me, |devs|, p, x);
    ForwardedToCounts(devs, me, |devs|, p, x);
  }

  /** The loads of the first `k` peers together. */
  function Loads(devs: Devices, me: nat, n: nat, k: nat, x: IPNet): nat
    requires n <= |devs| && k <= |devs|
  {
    if k == 0 then 0
    else Loads(devs, me, n, k - 1, x) + (if IsPeer(devs, me, k - 1) then Load(devs, me, n, k - 1, x) else 0)
  }

  lemma {:induction false} LoadsStep(devs: Devices, me: nat, n: nat, k: nat, x: IPNet)
    requires 0 < n <= |devs| && k <= |devs|
    ensures var c := Carrier(devs, me, n - 1);
      Loads(devs, me, n, k, x)
      == Loads(devs, me, n - 1, k, x) + (if c.Some? && c.value < k then Count(devs, n - 1, x) else 0)
  {
    if k > 0 {
      LoadsStep(devs, me, n, k - 1, x);
      CarrierIsPeer(devs, me, n - 1);
    }
  }

  lemma {:induction false} LoadsEmpty(devs: Devices, me: nat, k: nat, x: IPNet)
    requires k <= |devs|
    ensures Loads(devs, me, 0, k, x) == 0
  {
    if k > 0 {
      LoadsEmpty(devs, me, k - 1, x);
    }
  }

  /** Summed over all peers, the loads are everything that is carried: nothing is counted twice. */
  lemma {:induction false} LoadsAreCarried(devs: Devices, me: nat, n: nat, x: IPNet)
    requires n <= |devs|
    ensures Loads(devs, me, n, |devs|, x) == Carried(devs, me, n, x)
  {
    if n == 0 {
      LoadsEmpty(devs, me, |devs|, x);
    } else {
      LoadsAreCarried(devs, me, n - 1, x);
      LoadsStep(devs, me, n, |devs|, x);
    }
  }

  lemma AllAllowedLast(peers: seq<Peer>, p: Peer)
    ensures AllAllowed(peers + [p]) == AllAllowed(peers) + multiset(p.allowedIPs)
  {
    assert (peers + [p])[..|peers|] == peers;
  }

  lemma AllAllowedStep(devs: Devices, me: nat, k: nat, x: IPNet)
    requires 0 < k <= |devs|
    ensures AllAllowed(Peers(devs, me, k))[x]
         == AllAllowed(Peers(devs, me, k - 1))[x]
            + (if IsPeer(devs, me, k - 1) then Load(devs, me, |devs|, k - 1, x) else 0)
  {
    var ps := Peers(devs, me, k - 1);
    if IsPeer(devs, me, k - 1) {
      assert Peers(devs, me, k) == ps + [PeerAt(devs, me, k - 1)];
      AllAllowedLast(ps, PeerAt(devs, me, k - 1));
      PeerCarriesLoad(devs, me, k - 1, x);
    } else {
      assert Peers(devs, me, k) == ps;
    }
  }

  lemma AllowedAreLoads(devs: Devices, me: nat, k: nat, x: IPNet)
    requires k <= |devs|
    ensures AllAllowed(Peers(devs, me, k))[x] == Loads(devs, me, |devs|, k, x)
  {
    var f := (j: nat) => if j <= |devs| then AllAllowed(Peers(devs, me, j))[x] else 0;
    var g := (j: nat) => if j <= |devs| then Loads(devs, me, |devs|, j, x) else 0;
    forall j: nat | 0 < j <= k ensures SameStep(f, g, j) {
      AllAllowedStep(devs, me, j, x);
    }
    SameSums(f, g, k);
  }

  lemma {:induction false} WantedIsCarriedOrLost(devs: Devices, me: nat, n: nat, x: IPNet)
    requires n <= |devs|
    ensures Wanted(devs, me, n)[x] == Carried(devs, me, n, x) + Lost(devs, me, n)[x]
  {
    if n > 0 {
      WantedIsCarriedOrLost(devs, me, n - 1, x);
    }
  }

  lemma {:induction false} NothingLostIff(devs: Devices, me: nat, n: nat)
    requires n <= |devs|
    ensures Lost(devs, me, n) == multiset{}
            <==> forall i | 0 <= i < n && Other(devs, me, i) && Carrier(devs, me, i).None? :: devs[i].addresses == []
  {
    if n > 0 {
      NothingLostIff(devs, me, n - 1);
      if devs[n-1].addresses != [] {
        assert devs[n-1].addresses[0] in multiset(devs[n-1].addresses);
      }
    }
  }

  /** Is the peer how the compiling device should reach the device directly? */
  predicate Represents(p: Peer, d: CensoredDevice) {
    && p.name == d.name && p.publicKey == d.publicKey && p.presharedKey == d.presharedKey && p.keepalive == d.keepalive
    && (if d.chosen then 0 <= d.endpointIndex < |d.endpoints| && p.endpoint == d.endpoints[d.endpointIndex]
        else p.endpoint == "")
    && d.addresses <= p.allowedIPs
  }

  /** `of` maps peers to the devices they stand for, in order: every keyed direct device has
      exactly one peer. */
  ghost predicate PeersOf(devs: Devices, me: nat, peers: seq<Peer>, of: seq<nat>) {
    && |of| == |peers|
    && (forall k | 0 <= k < |of| :: of[k] < |devs| && IsPeer(devs, me, of[k]) && Represents(peers[k], devs[of[k]]))
    && (forall j, k | 0 <= j < k < |of| :: of[j] < of[k])
    && (forall i | 0 <= i < |devs| && IsPeer(devs, me, i) :: i in of)
  }

  /** The devices with a peer of their own among the first `n`. */
  function Direct(devs: Devices, me: nat, n: nat): seq<nat>
    requires n <= |devs|
  {
    if n == 0 then [] else Direct(devs, me, n - 1) + (if IsPeer(devs, me, n - 1) then [n - 1] else [])
  }

  /** The `k`-th peer stands for the `k`-th of them. */
  lemma {:induction false} PeerIsDirect(devs: Devices, me: nat, n: nat, k: nat)
    requires n <= |devs| && k < |Direct(devs, me, n)|
    ensures |Peers(devs, me, n)| == |Direct(devs, me, n)|
    ensures var i := Direct(devs, me, n)[k];
      i < n && IsPeer(devs, me, i) && Peers(devs, me, n)[k] == PeerAt(devs, me, i)
  {
    AsManyPeers(devs, me, n - 1);
    if k < |Direct(devs, me, n - 1)| {
      PeerIsDirect(devs, me, n - 1, k);
    }
  }

  lemma {:induction false} AsManyPeers(devs: Devices, me: nat, n: nat)
    requires n <= |devs|
    ensures |Peers(devs, me, n)| == |Direct(devs, me, n)|
  {
    if n > 0 {
      AsManyPeers(devs, me, n - 1);
    }
  }

  lemma {:induction false} DirectIncrease(devs: Devices, me: nat, n: nat, j: nat, k: nat)
    requires n <= |devs| && j < k < |Direct(devs, me, n)|
    ensures Direct(devs, me, n)[j] < Direct(devs, me, n)[k]
  {
    if k < |Direct(devs, me, n - 1)| {
      DirectIncrease(devs, me, n - 1, j, k);
    } else {
      PeerIsDirect(devs, me, n - 1, j);
    }
  }

  lemma {:induction false} DirectComplete(devs: Devices, me: nat, n: nat, i: nat)
    requires i < n <= |devs| && IsPeer(devs, me, i)
    ensures i in Direct(devs, me, n)
  {
    if i < n - 1 {
      DirectComplete(devs, me, n - 1, i);
    }
  }

  lemma PeerRepresents(devs: Devices, me: nat, i: nat)
    requires i < |devs| && IsPeer(devs, me, i) && FaultAt(devs, me, true, i).None?
    ensures Represents(PeerAt(devs, me, i), devs[i])
  {
  }

  lemma DirectPeers(devs: Devices, me: nat)
    requires forall i | 0 <= i < |devs| :: FaultAt(devs, me, true, i).None?
    ensures PeersOf(devs, me, Peers(devs, me, |devs|), Direct(devs, me, |devs|))
  {
    var of := Direct(devs, me, |devs|);
    var peers := Peers(devs, me, |devs|);
    AsManyPeers(devs, me, |devs|);
    forall k | 0 <= k < |of| ensures of[k] < |devs| && IsPeer(devs, me, of[k]) && Represents(peers[k], devs[of[k]]) {
      PeerIsDirect(devs, me, |devs|, k);
      PeerRepresents(devs, me, of[k]);
    }
    forall j, k | 0 <= j < k < |of| ensures of[j] < of[k] {
      DirectIncrease(devs, me, |devs|, j, k);
    }
    forall i | 0 <= i < |devs| && IsPeer(devs, me, i) ensures i in of {
      DirectComplete(devs, me, |devs|, i);
    }
  }

  /** A compiled interface is the local device's own, and its peers are, in order and each once,
      the other keyed devices that are not reached through a forwarder. */
  lemma PeersAreDirectDevices(v: CensoredNetwork, name: string, ignoreIncomplete: bool) returns (of: seq<nat>)
    requires CompileNetwork(v, name, ignoreIncomplete).Built?
    ensures var me := ViewIndex(v.devices, name);
      var iface := CompileNetwork(v, name, ignoreIncomplete).iface;
      && me >= 0
      && iface.name == v.name && iface.listenPort == v.devices[me].listenPort
      && iface.addresses == v.devices[me].addresses
      && PeersOf(v.devices, me, iface.peers, of)
  {
    var me := ViewIndex(v.devices, name);
    NoFaultWhenIgnoring(v.devices, me, ignoreIncomplete);
    of := Direct(v.devices, me, |v.devices|);
    DirectPeers(v.devices, me);
  }

  /** What becomes of every address: the AllowedIPs of all peers, together with the addresses of
      devices without a carrier, are the addresses of all other keyed devices, each once. */
  lemma EveryAddressOnce(v: CensoredNetwork, name: string, ignoreIncomplete: bool)
    requires CompileNetwork(v, name, ignoreIncomplete).Built?
    ensures var me := ViewIndex(v.devices, name);
      AllAllowed(CompileNetwork(v, name, ignoreIncomplete).iface.peers) + Lost(v.devices, me, |v.devices|)
      == Wanted(v.devices, me, |v.devices|)
  {
    var me, n := ViewIndex(v.devices, name), |v.devices|;
    forall x: IPNet
      ensures AllAllowed(Peers(v.devices, me, n))[x] + Lost(v.devices, me, n)[x] == Wanted(v.devices, me, n)[x]
    {
      AllowedAreLoads(v.devices, me, n, x);
      LoadsAreCarried(v.devices, me, n, x);
      WantedIsCarriedOrLost(v.devices, me, n, x);
    }
  }

  /** Routing is conserved, as a multiset, exactly when every keyed device with addresses is
      direct or uses a forwarder that is itself keyed, direct and not the compiling device. */
  lemma RoutingConservedIff(v: CensoredNetwork, name: string, ignoreIncomplete: bool)
    requires CompileNetwork(v, name, ignoreIncomplete).Built?
    ensures var me := ViewIndex(v.devices, name);
      AllAllowed(CompileNetwork(v, name, ignoreIncomplete).iface.peers) == Wanted(v.devices, me, |v.devices|)
      <==> forall i | 0 <= i < |v.devices| && Other(v.devices, me, i) && Carrier(v.devices, me, i).None? ::
             v.devices[i].addresses == []
  {
    var me := ViewIndex(v.devices, name);
    var allowed := AllAllowed(CompileNetwork(v, name, ignoreIncomplete).iface.peers);
    var lost := Lost(v.devices, me, |v.devices|);
    EveryAddressOnce(v, name, ignoreIncomplete);
    NothingLostIff(v.devices, me, |v.devices|);
    if allowed == allowed + lost {
      assert |allowed| == |allowed| + |lost|;
    }
  }

  // ----- the order of AllowedIPs -----

  /** The addresses of a list of devices, one after the other. */
  lemma AddressesInOrder(devs: Devices, js: seq<nat>, j: nat)
    requires j < |devs| && forall l | 0 <= l < |js| :: js[l] < |devs|
    ensures AddressesOf(devs, []) == []
    ensures AddressesOf(devs, js + [j]) == AddressesOf(devs, js) + devs[j].addresses
  {
    assert (js + [j])[..|js|] == js;
  }

  /** AllowedIPs are the peer's own addresses and then, in order, those of the keyed devices that use it as
      their forwarder. */
  lemma AllowedInOrder(devs: Devices, me: nat, p: nat) returns (js: seq<nat>)
    requires p < |devs|
    ensures forall l | 0 <= l < |js| :: js[l] < |devs|
    ensures forall l, m | 0 <= l < m < |js| :: js[l] < js[m]
    ensures forall i | 0 <= i < |devs| :: i in js <==>
      i != me && devs[i].publicKey != 0 && devs[i].chosen && devs[i].usesForwarder && devs[i].forwarderIndex == p
    ensures PeerAt(devs, me, p).allowedIPs == devs[p].addresses + AddressesOf(devs, js)
  {
    js := Forwardees(devs, me, p, |devs|);
    forall l, m | 0 <= l < m < |js| ensures js[l] < js[m] {
      ForwardeesIncrease(devs, me, p, |devs|, l, m);
    }
    forall i | 0 <= i < |devs| ensures i in js <==> Uses(devs, me, i, p) {
      ForwardeesComplete(devs, me, p, |devs|, i);
    }
  }

  lemma {:induction false} ForwardeesIncrease(devs: Devices, me: nat, p: nat, n: nat, l: nat, m: nat)
    requires n <= |devs| && l < m < |Forwardees(devs, me, p, n)|
    ensures Forwardees(devs, me, p, n)[l] < Forwardees(devs, me, p, n)[m]
  {
    if m < |Forwardees(devs, me, p, n - 1)| {
      ForwardeesIncrease(devs, me, p, n - 1, l, m);
    }
  }

  lemma {:induction false} ForwardeesComplete(devs: Devices, me: nat, p: nat, n: nat, i: nat)
    requires n <= |devs| && i < |devs|
    ensures i in Forwardees(devs, me, p, n) <==> i < n && Uses(devs, me, i, p)
  {
    if n > 0 {
      ForwardeesComplete(devs, me, p, n - 1, i);
    }
  }
}
