/** spec/compile.go: from censored networks to a WireGuard machine. Devices reached through a
    forwarder get no peer of their own; their addresses go to the forwarder's AllowedIPs. */
module Compile {
  import opened Prelude
  import opened NetAddr
  import opened Specs

  /** goal.InterfacePeer */
  datatype Peer = Peer(
    name: string,
    publicKey: Key,
    presharedKey: Option<Key>,
    endpoint: string,
    keepalive: int,
    allowedIPs: seq<IPNet>)

  /** goal.Interface, before the client fills in the private key. */
  datatype Interface = Interface(name: string, listenPort: int, addresses: seq<IPNet>, peers: seq<Peer>)

  /** goal.Machine */
  datatype Machine = Machine(interfaces: seq<Interface>, forwardsIPv4: bool, forwardsIPv6: bool)

  /** Why a compilation ends early: an error for an incomplete device, or a Go panic (a
      malformed spec, or an index out of range). */
  datatype Fault = Incomplete | Panic

  datatype Outcome = Compiled(machine: Machine) | Failed(fault: Fault)

  type Devices = seq<CensoredDevice>

  // ----- the parts of one network -----

  predicate Keyed(devs: Devices, i: nat)
    requires i < |devs|
  {
    devs[i].publicKey != UNSET_KEY
  }

  /** Is the device reached through another one? */
  predicate Forwarded(devs: Devices, i: nat)
    requires i < |devs|
  {
    devs[i].chosen && devs[i].usesForwarder
  }

  /** Does device `i` use the forwarder at position `k`? */
  predicate Uses(devs: Devices, me: nat, i: nat, k: int)
    requires i < |devs|
  {
    i != me && Keyed(devs, i) && Forwarded(devs, i) && devs[i].forwarderIndex == k
  }

  /** forwardsFor[k], as filled by the first `n` devices. */
  function Forwardees(devs: Devices, me: nat, k: int, n: nat): (r: seq<nat>)
    requires n <= |devs|
    ensures forall l | 0 <= l < |r| :: r[l] < n
  {
    if n == 0 then []
    else Forwardees(devs, me, k, n - 1) + (if Uses(devs, me, n - 1, k) then [n - 1] else [])
  }

  function AddressesOf(devs: Devices, js: seq<nat>): seq<IPNet>
    requires forall l | 0 <= l < |js| :: js[l] < |devs|
  {
    if js == [] then []
    else AddressesOf(devs, js[..|js|-1]) + devs[js[|js|-1]].addresses
  }

  /** Does device `i` become a peer? */
  predicate IsPeer(devs: Devices, me: nat, i: nat)
    requires i < |devs|
  {
    i != me && Keyed(devs, i) && !Forwarded(devs, i)
  }

  /** The peer for device `i`; an endpoint index out of range is a fault, see FaultAt. */
  function PeerAt(devs: Devices, me: nat, i: nat): Peer
    requires i < |devs|
  {
    var d := devs[i];
    Peer(d.name, d.publicKey, d.presharedKey,
         if d.chosen && 0 <= d.endpointIndex < |d.endpoints| then d.endpoints[d.endpointIndex] else "",
         d.keepalive,
         d.addresses + AddressesOf(devs, Forwardees(devs, me, i, |devs|)))
  }

  /** What goes wrong at device `i` of the peer loop, if anything. */
  function FaultAt(devs: Devices, me: nat, ignoreIncomplete: bool, i: nat): Option<Fault>
    requires i < |devs|
  {
    var d := devs[i];
    if i == me then None
    else if d.publicKey == UNSET_KEY then (if ignoreIncomplete then None else Some(Incomplete))
    else if !d.chosen then None
    else if !d.usesForwarder then (if 0 <= d.endpointIndex < |d.endpoints| then None else Some(Panic))
    else if !(0 <= d.forwarderIndex < |devs|) then Some(Panic)
    else if devs[d.forwarderIndex].chosen || ignoreIncomplete then None
    else Some(Incomplete)
  }

  function FaultBefore(devs: Devices, me: nat, ignoreIncomplete: bool, n: nat): Option<Fault>
    requires n <= |devs|
    ensures FaultBefore(devs, me, ignoreIncomplete, n).None?
            ==> forall i | 0 <= i < n :: FaultAt(devs, me, ignoreIncomplete, i).None?
  {
    if n == 0 then None
    else
      match FaultBefore(devs, me, ignoreIncomplete, n - 1)
      case Some(f) => Some(f)
      case None => FaultAt(devs, me, ignoreIncomplete, n - 1)
  }

  function Peers(devs: Devices, me: nat, n: nat): seq<Peer>
    requires n <= |devs|
  {
    if n == 0 then []
    else
      Peers(devs, me, n - 1) + (if IsPeer(devs, me, n - 1) then [PeerAt(devs, me, n - 1)] else [])
  }

  predicate IndexesInRange(devs: Devices, me: nat) {
    forall i | 0 <= i < |devs| && i != me && Keyed(devs, i) && Forwarded(devs, i) ::
      0 <= devs[i].forwarderIndex < |devs|
  }

  predicate AccessibleKnown(devs: Devices, me: nat)
    requires me < |devs|
  {
    forall name | name in devs[me].accessible :: ViewIndex(devs, name) >= 0
  }

  predicate HasFamily(nets: seq<IPNet>, v4: bool) {
    exists k | 0 <= k < |nets| :: To4(nets[k].ip).Some? == v4
  }

  predicate ReachesFamily(devs: Devices, name: string, v4: bool) {
    ViewIndex(devs, name) >= 0 && HasFamily(devs[ViewIndex(devs, name)].addresses, v4)
  }

  /** Does the device announce a device with an IPv4 (or IPv6) address? */
  predicate ForwardsFamily(devs: Devices, me: nat, v4: bool)
    requires me < |devs|
  {
    AnyReaches(devs, devs[me].accessible, v4)
  }

  predicate AnyReaches(devs: Devices, names: seq<string>, v4: bool) {
    exists name | name in names :: ReachesFamily(devs, name, v4)
  }

  lemma AnyReachesStep(devs: Devices, names: seq<string>, k: nat, v4: bool)
    requires k < |names|
    ensures AnyReaches(devs, names[..k+1], v4)
      <==> AnyReaches(devs, names[..k], v4) || ReachesFamily(devs, names[k], v4)
  {
    assert names[..k+1] == names[..k] + [names[k]];
  }

  datatype NetworkOutcome =
    | Absent
    | Built(iface: Interface, v4: bool, v6: bool)
    | Broken(fault: Fault)

  /** One round of the outer loop. */
  function CompileNetwork(v: CensoredNetwork, name: string, ignoreIncomplete: bool): NetworkOutcome {
    var devs := v.devices;
    if ViewIndex(devs, name) < 0 then Absent
    else
      var me := ViewIndex(devs, name);
      if !AccessibleKnown(devs, me) || !IndexesInRange(devs, me) then Broken(Panic)
      else
        match FaultBefore(devs, me, ignoreIncomplete, |devs|)
        case Some(f) => Broken(f)
        case None =>
          Built(Interface(v.name, devs[me].listenPort, devs[me].addresses, Peers(devs, me, |devs|)),
                ForwardsFamily(devs, me, true), ForwardsFamily(devs, me, false))
  }

  lemma NoFaultWhenIgnoring(devs: Devices, me: nat, ignoreIncomplete: bool)
    requires FaultBefore(devs, me, ignoreIncomplete, |devs|).None?
    ensures forall i | 0 <= i < |devs| :: FaultAt(devs, me, true, i).None?
  {
    forall i | 0 <= i < |devs| ensures FaultAt(devs, me, true, i).None? {
      assert FaultAt(devs, me, ignoreIncomplete, i).None?;
    }
  }

  /** What becomes of each network. */
  function Outcomes(vs: seq<CensoredNetwork>, name: string, ignoreIncomplete: bool): (os: seq<NetworkOutcome>)
    ensures |os| == |vs|
    ensures forall i | 0 <= i < |vs| :: os[i] == CompileNetwork(vs[i], name, ignoreIncomplete)
  {
    seq(|vs|, i requires 0 <= i < |vs| => CompileNetwork(vs[i], name, ignoreIncomplete))
  }

  /** One more network. */
  function Joined(o: Outcome, p: NetworkOutcome): Outcome {
    match (o, p)
    case (Compiled(m), Built(iface, v4, v6)) =>
      Compiled(Machine(m.interfaces + [iface], m.forwardsIPv4 || v4, m.forwardsIPv6 || v6))
    case (Compiled(_), Broken(f)) => Failed(f)
    case _ => o
  }

  /** The first `n` networks together. */
  function AllJoined(os: seq<NetworkOutcome>, n: nat): Outcome
    requires n <= |os|
  {
    if n == 0 then Compiled(Machine([], false, false)) else Joined(AllJoined(os, n - 1), os[n-1])
  }

  function CompileSpec(vs: seq<CensoredNetwork>, name: string, ignoreIncomplete: bool): Outcome {
    AllJoined(Outcomes(vs, name, ignoreIncomplete), |vs|)
  }

  // ----- CompileMachine as it is written -----

  /** The loops that set the forwarding flags; None is the panic "malformed spec". */
  method FlagFamilies(devs: Devices, me: nat) returns (r: Option<(bool, bool)>)
    requires me < |devs|
    ensures r == if AccessibleKnown(devs, me)
                 then Some((ForwardsFamily(devs, me, true), ForwardsFamily(devs, me, false))) else None
  {
    var v4, v6 := false, false;
    var names := devs[me].accessible;
    for k := 0 to |names|
      invariant forall l | 0 <= l < k :: ViewIndex(devs, names[l]) >= 0
      invariant v4 == AnyReaches(devs, names[..k], true) && v6 == AnyReaches(devs, names[..k], false)
    {
      var j := ViewIndex(devs, names[k]);
      if j < 0 {
        assert names[k] in names;
        return None;
      }
      var w4, w6 := FamiliesOf(devs[j].addresses);
      v4, v6 := v4 || w4, v6 || w6;
      AnyReachesStep(devs, names, k, true);
      AnyReachesStep(devs, names, k, false);
    }
    assert names[..|names|] == names;
    return Some((v4, v6));
  }

  method FamiliesOf(nets: seq<IPNet>) returns (v4: bool, v6: bool)
    ensures v4 == HasFamily(nets, true) && v6 == HasFamily(nets, false)
  {
    v4, v6 := false, false;
    for k := 0 to |nets|
      invariant v4 <==> exists l | 0 <= l < k :: To4(nets[l].ip).Some? == true
      invariant v6 <==> exists l | 0 <= l < k :: To4(nets[l].ip).Some? == false
    {
      if To4(nets[k].ip).Some? {
        v4 := true;
      } else {
        v6 := true;
      }
    }
  }

  /** The loop that fills forwardsFor; None is an index out of range. */
  method GroupForwardees(devs: Devices, me: nat) returns (r: Option<seq<seq<nat>>>)
    ensures r.Some? <==> IndexesInRange(devs, me)
    ensures r.Some? ==> |r.value| == |devs|
    ensures r.Some? ==> forall k | 0 <= k < |devs| :: r.value[k] == Forwardees(devs, me, k, |devs|)
  {
    var forwardsFor: seq<seq<nat>> := seq(|devs|, _ => []);
    for i := 0 to |devs|
      invariant |forwardsFor| == |devs|
      invariant forall k | 0 <= k < |devs| :: forwardsFor[k] == Forwardees(devs, me, k, i)
      invariant forall l | 0 <= l < i && l != me && Keyed(devs, l) && Forwarded(devs, l) ::
        0 <= devs[l].forwarderIndex < |devs|
    {
      if i == me {
        continue;
      }
      if devs[i].publicKey == UNSET_KEY {
        continue;
      }
      if devs[i].chosen && devs[i].usesForwarder {
        var k := devs[i].forwarderIndex;
        if !(0 <= k < |devs|) {
          return None;
        }
        forwardsFor := forwardsFor[k := forwardsFor[k] + [i]];
      }
    }
    return Some(forwardsFor);
  }

  /** The innermost loop. The source tests the forwardee's key once more; forwardsFor only
      holds keyed devices, so that test never fires. */
  method FoldAddresses(devs: Devices, own: seq<IPNet>, js: seq<nat>) returns (r: seq<IPNet>)
    requires forall l | 0 <= l < |js| :: js[l] < |devs|
    ensures r == own + AddressesOf(devs, js)
  {
    r := own;
    for k := 0 to |js|
      invariant r == own + AddressesOf(devs, js[..k])
    {
      assert js[..k+1][..k] == js[..k];
      r := r + devs[js[k]].addresses;
    }
    assert js[..|js|] == js;
  }

  /** The peer loop. */
  method BuildPeers(devs: Devices, me: nat, ignoreIncomplete: bool, forwardsFor: seq<seq<nat>>)
    returns (fault: Option<Fault>, peers: seq<Peer>)
    requires IndexesInRange(devs, me)
    requires |forwardsFor| == |devs|
    requires forall k | 0 <= k < |devs| :: forwardsFor[k] == Forwardees(devs, me, k, |devs|)
    ensures fault == FaultBefore(devs, me, ignoreIncomplete, |devs|)
    ensures fault.None? ==> peers == Peers(devs, me, |devs|)
  {
    peers := [];
    for i := 0 to |devs|
      invariant FaultBefore(devs, me, ignoreIncomplete, i).None?
      invariant peers == Peers(devs, me, i)
    {
      FaultStays(devs, me, ignoreIncomplete, i, |devs|);
      var d := devs[i];
      if i == me {
        continue;
      }
      if d.publicKey == UNSET_KEY {
        if ignoreIncomplete {
          continue;
        }
        return Some(Incomplete), [];
      }
      var endpoint := "";
      if d.chosen {
        if d.usesForwarder {
          if !devs[d.forwarderIndex].chosen && !ignoreIncomplete {
            return Some(Incomplete), [];
          }
          continue;
        }
        if !(0 <= d.endpointIndex < |d.endpoints|) {
          return Some(Panic), [];
        }
        endpoint := d.endpoints[d.endpointIndex];
      }
      var allowedIPs := FoldAddresses(devs, d.addresses, forwardsFor[i]);
      peers := peers + [Peer(d.name, d.publicKey, d.presharedKey, endpoint, d.keepalive, allowedIPs)];
    }
    fault := None;
  }

  lemma {:induction false} FaultStays(devs: Devices, me: nat, ignoreIncomplete: bool, i: nat, n: nat)
    requires i < n <= |devs|
    requires FaultBefore(devs, me, ignoreIncomplete, i).None?
    ensures FaultAt(devs, me, ignoreIncomplete, i).Some?
            ==> FaultBefore(devs, me, ignoreIncomplete, n) == FaultAt(devs, me, ignoreIncomplete, i)
  {
    if i + 1 < n {
      FaultStays(devs, me, ignoreIncomplete, i, n - 1);
    }
  }

  method CompileOne(v: CensoredNetwork, name: string, ignoreIncomplete: bool) returns (r: NetworkOutcome)
    ensures r == CompileNetwork(v, name, ignoreIncomplete)
  {
    var devs := v.devices;
    var i := ViewIndex(devs, name);
    if i < 0 {
      return Absent;
    }
    var me: nat := i;
    var flags := FlagFamilies(devs, me);
    if flags.None? {
      return Broken(Panic);
    }
    var forwardsFor := GroupForwardees(devs, me);
    if forwardsFor.None? {
      return Broken(Panic);
    }
    var fault, peers := BuildPeers(devs, me, ignoreIncomplete, forwardsFor.value);
    if fault.Some? {
      return Broken(fault.value);
    }
    return Built(Interface(v.name, devs[me].listenPort, devs[me].addresses, peers), flags.value.0, flags.value.1);
  }

  method CompileMachine(vs: seq<CensoredNetwork>, name: string, ignoreIncomplete: bool) returns (r: Outcome)
    ensures r == CompileSpec(vs, name, ignoreIncomplete)
  {
    ghost var os := OutcomesOf(vs, name, ignoreIncomplete);
    r := CompileAll(vs, name, ignoreIncomplete, os);
  }

  /** The outer loop. */
  method CompileAll(vs: seq<CensoredNetwork>, name: string, ignoreIncomplete: bool, ghost os: seq<NetworkOutcome>)
    returns (r: Outcome)
    requires |os| == |vs|
    requires forall i {:trigger CompileNetwork(vs[i], name, ignoreIncomplete)} | 0 <= i < |vs| ::
      os[i] == CompileNetwork(vs[i], name, ignoreIncomplete)
    ensures r == AllJoined(os, |os|)
  {
    var gm := Machine([], false, false);
    for n := 0 to |vs|
      invariant AllJoined(os, n) == Compiled(gm)
    {
      r := CompileNext(gm, vs[n], name, ignoreIncomplete, os[n]);
      assert AllJoined(os, n + 1) == r;
      if r.Failed? {
        JoinedFails(os, n + 1, |vs|);
        return;
      }
      gm := r.machine;
    }
    return Compiled(gm);
  }

  /** The outcomes, without how they come about. */
  lemma OutcomesOf(vs: seq<CensoredNetwork>, name: string, ignoreIncomplete: bool) returns (os: seq<NetworkOutcome>)
    ensures |os| == |vs| && CompileSpec(vs, name, ignoreIncomplete) == AllJoined(os, |vs|)
    ensures forall i {:trigger CompileNetwork(vs[i], name, ignoreIncomplete)} | 0 <= i < |vs| ::
      os[i] == CompileNetwork(vs[i], name, ignoreIncomplete)
  {
    os := Outcomes(vs, name, ignoreIncomplete);
  }

  /** One round of the outer loop, on the machine so far. */
  method CompileNext(gm: Machine, v: CensoredNetwork, name: string, ignoreIncomplete: bool, ghost o: NetworkOutcome)
    returns (r: Outcome)
    requires o == CompileNetwork(v, name, ignoreIncomplete)
    ensures r == Joined(Compiled(gm), o)
  {
    var one := CompileOne(v, name, ignoreIncomplete);
    match one {
      case Absent => return Compiled(gm);
      case Broken(f) => return Failed(f);
      case Built(iface, v4, v6) =>
        return Compiled(Machine(gm.interfaces + [iface], gm.forwardsIPv4 || v4, gm.forwardsIPv6 || v6));
    }
  }

  lemma {:induction false} JoinedFails(os: seq<NetworkOutcome>, i: nat, n: nat)
    requires i <= n <= |os| && AllJoined(os, i).Failed?
    ensures AllJoined(os, n) == AllJoined(os, i)
  {
    if i < n {
      JoinedFails(os, i, n - 1);
    }
  }

  // ----- what is compiled -----

  /** The flags: some announced device has an IPv4 address, 4-byte or mapped; some has another one. */
  lemma FlagsMean(v: CensoredNetwork, name: string, ignoreIncomplete: bool)
    requires CompileNetwork(v, name, ignoreIncomplete).Built?
    ensures ViewIndex(v.devices, name) >= 0
    ensures var devs := v.devices;
      var names := devs[ViewIndex(devs, name)].accessible;
      && (forall j | 0 <= j < |names| :: ViewIndex(devs, names[j]) >= 0)
      && (CompileNetwork(v, name, ignoreIncomplete).v4
          <==> exists j, k | 0 <= j < |names| && 0 <= k < |devs[ViewIndex(devs, names[j])].addresses| ::
                 var ip := devs[ViewIndex(devs, names[j])].addresses[k].ip; |ip| == 4 || Mapped(ip))
      && (CompileNetwork(v, name, ignoreIncomplete).v6
          <==> exists j, k | 0 <= j < |names| && 0 <= k < |devs[ViewIndex(devs, names[j])].addresses| ::
                 var ip := devs[ViewIndex(devs, names[j])].addresses[k].ip; |ip| != 4 && !Mapped(ip))
  {
    var names := v.devices[ViewIndex(v.devices, name)].accessible;
    FamilyAnnounced(v.devices, names, true);
    FamilyAnnounced(v.devices, names, false);
  }

  lemma FamilyAnnounced(devs: Devices, names: seq<string>, v4: bool)
    requires forall j | 0 <= j < |names| :: ViewIndex(devs, names[j]) >= 0
    ensures AnyReaches(devs, names, v4)
            <==> exists j, k | 0 <= j < |names| && 0 <= k < |devs[ViewIndex(devs, names[j])].addresses| ::
                   var ip := devs[ViewIndex(devs, names[j])].addresses[k].ip; (|ip| == 4 || Mapped(ip)) == v4
  {
    if AnyReaches(devs, names, v4) {
      var name :| name in names && ReachesFamily(devs, name, v4);
      var j :| 0 <= j < |names| && names[j] == name;
      var nets := devs[ViewIndex(devs, names[j])].addresses;
      var k :| 0 <= k < |nets| && To4(nets[k].ip).Some? == v4;
      assert (|nets[k].ip| == 4 || Mapped(nets[k].ip)) == v4;
    }
    forall j, k | 0 <= j < |names| && 0 <= k < |devs[ViewIndex(devs, names[j])].addresses|
      && (var ip := devs[ViewIndex(devs, names[j])].addresses[k].ip; (|ip| == 4 || Mapped(ip)) == v4)
      ensures AnyReaches(devs, names, v4)
    {
      assert ReachesFamily(devs, names[j], v4);
    }
  }

  lemma {:induction false} FirstFault(devs: Devices, me: nat, ignoreIncomplete: bool, n: nat)
    requires n <= |devs|
    ensures forall f ::
      (FaultBefore(devs, me, ignoreIncomplete, n) == Some(f)
       <==> exists i | 0 <= i < n ::
              && FaultAt(devs, me, ignoreIncomplete, i) == Some(f)
              && forall j | 0 <= j < i :: FaultAt(devs, me, ignoreIncomplete, j).None?)
  {
    if n > 0 {
      FirstFault(devs, me, ignoreIncomplete, n - 1);
    }
  }

  /** When a network compiles: every announced name is in it, and of the other keyed devices those with a
      choice have their endpoint or their forwarder in range; and, unless incomplete devices are to be
      ignored, every other device is keyed and every forwarder in use has a choice. */
  lemma BuiltIff(v: CensoredNetwork, name: string, ignoreIncomplete: bool)
    ensures CompileNetwork(v, name, ignoreIncomplete).Absent?
            <==> forall i | 0 <= i < |v.devices| :: v.devices[i].name != name
    ensures ViewIndex(v.devices, name) >= 0 ==>
      var devs, me := v.devices, ViewIndex(v.devices, name);
      CompileNetwork(v, name, ignoreIncomplete).Built? <==>
        && (forall nm | nm in devs[me].accessible :: exists i | 0 <= i < |devs| :: devs[i].name == nm)
        && forall i | 0 <= i < |devs| && i != me ::
             && (devs[i].publicKey == 0 ==> ignoreIncomplete)
             && (devs[i].publicKey != 0 && devs[i].chosen && !devs[i].usesForwarder ==>
                   0 <= devs[i].endpointIndex < |devs[i].endpoints|)
             && (devs[i].publicKey != 0 && devs[i].chosen && devs[i].usesForwarder ==>
                   && 0 <= devs[i].forwarderIndex < |devs|
                   && (ignoreIncomplete || devs[devs[i].forwarderIndex].chosen))
  {
    if ViewIndex(v.devices, name) >= 0 {
      var devs, me := v.devices, ViewIndex(v.devices, name);
      NamesKnown(devs, devs[me].accessible);
      NoFaultIff(devs, me, ignoreIncomplete, |devs|);
      forall i | 0 <= i < |devs| ensures FaultAt(devs, me, ignoreIncomplete, i).None? && InRange(devs, me, i)
        <==> (i != me ==>
               && (devs[i].publicKey == 0 ==> ignoreIncomplete)
               && (devs[i].publicKey != 0 && devs[i].chosen && !devs[i].usesForwarder ==>
                     0 <= devs[i].endpointIndex < |devs[i].endpoints|)
               && (devs[i].publicKey != 0 && devs[i].chosen && devs[i].usesForwarder ==>
                     && 0 <= devs[i].forwarderIndex < |devs|
                     && (ignoreIncomplete || devs[devs[i].forwarderIndex].chosen)))
      {
      }
      AllInRange(devs, me);
    }
  }

  predicate InRange(devs: Devices, me: nat, i: nat)
    requires i < |devs|
  {
    i != me && Keyed(devs, i) && Forwarded(devs, i) ==> 0 <= devs[i].forwarderIndex < |devs|
  }

  lemma AllInRange(devs: Devices, me: nat)
    ensures IndexesInRange(devs, me) <==> forall i | 0 <= i < |devs| :: InRange(devs, me, i)
  {
    if forall i | 0 <= i < |devs| :: InRange(devs, me, i) {
      forall i | 0 <= i < |devs| && i != me && Keyed(devs, i) && Forwarded(devs, i)
        ensures 0 <= devs[i].forwarderIndex < |devs|
      {
        assert InRange(devs, me, i);
      }
    }
  }

  lemma NoFaultIff(devs: Devices, me: nat, ignoreIncomplete: bool, n: nat)
    requires n <= |devs|
    ensures FaultBefore(devs, me, ignoreIncomplete, n).None?
            <==> forall i | 0 <= i < n :: FaultAt(devs, me, ignoreIncomplete, i).None?
  {
    FirstFault(devs, me, ignoreIncomplete, n);
    if FaultBefore(devs, me, ignoreIncomplete, n).Some? {
      var f := FaultBefore(devs, me, ignoreIncomplete, n).value;
      assert FaultBefore(devs, me, ignoreIncomplete, n) == Some(f);
      var i :| 0 <= i < n && FaultAt(devs, me, ignoreIncomplete, i) == Some(f);
    }
  }

  lemma NamesKnown(devs: Devices, names: seq<string>)
    ensures (forall nm | nm in names :: ViewIndex(devs, nm) >= 0)
            <==> forall nm | nm in names :: exists i | 0 <= i < |devs| :: devs[i].name == nm
  {
    forall nm ensures ViewIndex(devs, nm) >= 0 <==> exists i | 0 <= i < |devs| :: devs[i].name == nm {
      if ViewIndex(devs, nm) >= 0 {
        assert devs[ViewIndex(devs, nm)].name == nm;
      }
    }
  }

  /** And how it does not: a panic for an unknown announced name or a forwarder out of range, whatever the
      devices before it; otherwise the first device in the way decides, with a panic exactly if its
      endpoint is out of range. */
  lemma BrokenMeans(v: CensoredNetwork, name: string, ignoreIncomplete: bool)
    requires CompileNetwork(v, name, ignoreIncomplete).Broken?
    ensures ViewIndex(v.devices, name) >= 0
    ensures var devs, me := v.devices, ViewIndex(v.devices, name);
      CompileNetwork(v, name, ignoreIncomplete).fault == Panic <==>
        || (exists nm :: nm in devs[me].accessible && forall i | 0 <= i < |devs| :: devs[i].name != nm)
        || (exists i | 0 <= i < |devs| ::
              && i != me && devs[i].publicKey != 0 && devs[i].chosen && devs[i].usesForwarder
              && !(0 <= devs[i].forwarderIndex < |devs|))
        || (exists i | 0 <= i < |devs| ::
              && i != me && devs[i].publicKey != 0 && devs[i].chosen && !devs[i].usesForwarder
              && !(0 <= devs[i].endpointIndex < |devs[i].endpoints|)
              && forall j | 0 <= j < i && j != me && !ignoreIncomplete ::
                   && devs[j].publicKey != 0
                   && (devs[j].chosen && devs[j].usesForwarder && 0 <= devs[j].forwarderIndex < |devs| ==>
                         devs[devs[j].forwarderIndex].chosen))
  {
    var devs, me := v.devices, ViewIndex(v.devices, name);
    NamesKnown(devs, devs[me].accessible);
    if AccessibleKnown(devs, me) && IndexesInRange(devs, me) {
      FirstPanic(devs, me, ignoreIncomplete);
    } else if !AccessibleKnown(devs, me) {
      var nm :| nm in devs[me].accessible && ViewIndex(devs, nm) < 0;
    } else {
      AllInRange(devs, me);
      var i :| 0 <= i < |devs| && !InRange(devs, me, i);
    }
  }

  lemma FirstPanic(devs: Devices, me: nat, ignoreIncomplete: bool)
    requires IndexesInRange(devs, me) && FaultBefore(devs, me, ignoreIncomplete, |devs|).Some?
    ensures FaultBefore(devs, me, ignoreIncomplete, |devs|).value == Panic
      <==> exists i | 0 <= i < |devs| ::
             && i != me && devs[i].publicKey != 0 && devs[i].chosen && !devs[i].usesForwarder
             && !(0 <= devs[i].endpointIndex < |devs[i].endpoints|)
             && forall j | 0 <= j < i && j != me && !ignoreIncomplete ::
                  && devs[j].publicKey != 0
                  && (devs[j].chosen && devs[j].usesForwarder && 0 <= devs[j].forwarderIndex < |devs| ==>
                        devs[devs[j].forwarderIndex].chosen)
  {
    FirstFault(devs, me, ignoreIncomplete, |devs|);
    var f := FaultBefore(devs, me, ignoreIncomplete, |devs|).value;
    assert FaultBefore(devs, me, ignoreIncomplete, |devs|) == Some(f);
    var i :| 0 <= i < |devs| && FaultAt(devs, me, ignoreIncomplete, i) == Some(f)
      && forall j | 0 <= j < i :: FaultAt(devs, me, ignoreIncomplete, j).None?;
    if f == Panic {
      assert i != me && devs[i].publicKey != 0 && devs[i].chosen && !devs[i].usesForwarder;
      forall j | 0 <= j < i && j != me && !ignoreIncomplete
        ensures devs[j].publicKey != 0
        ensures devs[j].chosen && devs[j].usesForwarder && 0 <= devs[j].forwarderIndex < |devs|
                ==> devs[devs[j].forwarderIndex].chosen
      {
        assert FaultAt(devs, me, ignoreIncomplete, j).None?;
      }
    } else {
      assert !ignoreIncomplete && i != me;
      assert devs[i].publicKey != 0 ==>
        && devs[i].chosen && devs[i].usesForwarder && 0 <= devs[i].forwarderIndex < |devs|
        && !devs[devs[i].forwarderIndex].chosen;
      forall k | 0 <= k < i && k != me && devs[k].publicKey != 0 && devs[k].chosen && !devs[k].usesForwarder
        ensures 0 <= devs[k].endpointIndex < |devs[k].endpoints|
      {
        assert FaultAt(devs, me, ignoreIncomplete, k).None?;
      }
    }
  }
}
