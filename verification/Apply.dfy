/** goal/apply_linux.go: driving the kernel to a goal machine by adding and deleting exactly the
    difference. */
module Apply {
  import opened Prelude
  import opened Orders
  import opened NetAddr
  import opened SetOps
  import opened Kernels
  import opened Specs
  import Compile

  /** goal.Interface. The addresses are a slice, which applying sorts in place. */
  datatype Interface = Interface(
    name: string,
    privateKey: Key,
    listenPort: int,
    addresses: array<IPNet>,
    peers: seq<Compile.Peer>)

  datatype Machine = Machine(interfaces: seq<Interface>, forwardsIPv4: bool, forwardsIPv6: bool)

  datatype Outcome = Applied | Failed | Panicked

  function Elements<T>(m: multiset<T>): set<T> { set x | x in m }

  function Members<T>(s: seq<T>): set<T> { set x | x in s }

  lemma MembersNext<T>(s: seq<T>, k: nat)
    requires k < |s|
    ensures Members(s[..k+1]) == Members(s[..k]) + {s[k]}
  {
    assert s[..k+1] == s[..k] + [s[k]];
  }

  /** Can the table be brought to the goal? Not if something that is missing is asked for twice:
      adding it a second time fails. */
  predicate Reachable(have: set<IPNet>, goal: multiset<IPNet>) {
    forall x | x in goal && x !in have :: goal[x] == 1
  }

  ghost predicate Distinct<T>(s: seq<T>) {
    forall i, j | 0 <= i < j < |s| :: s[i] != s[j]
  }

  lemma DistinctByCount<T>(s: seq<T>)
    requires forall x | x in s :: multiset(s)[x] == 1
    ensures Distinct(s)
  {
    forall i, j | 0 <= i < j < |s| ensures s[i] != s[j] {
      TwiceInSequence(s, i, j);
    }
  }

  lemma TwiceInSequence<T>(s: seq<T>, i: nat, j: nat)
    requires i < j < |s|
    ensures s[i] == s[j] ==> multiset(s)[s[i]] >= 2
  {
    assert s == s[..j] + [s[j]] + s[j+1..];
    assert s[i] in s[..j];
    assert multiset(s) == multiset(s[..j]) + multiset{s[j]} + multiset(s[j+1..]);
  }

  /** Under a total order, having an equivalent is being there. */
  lemma EquivalentIsEqual<T(!new)>(less: (T, T) -> bool, x: T, s: seq<T>)
    requires StrictTotal(less)
    ensures HasEquivalent(less, x, s) <==> x in s
  {
    if x in s {
      var k :| 0 <= k < |s| && s[k] == x;
      assert Equivalent(less, x, s[k]);
    }
  }

  /** The elements that setDifference finds. */
  lemma DifferenceElements<T(!new)>(less: (T, T) -> bool, a: seq<T>, b: seq<T>, x: T)
    requires StrictTotal(less)
    ensures multiset(Without(less, a, b))[x] == if x in b then 0 else multiset(a)[x]
    ensures x in Without(less, a, b) <==> x in a && x !in b
  {
    WithoutCounts(less, a, b, x);
    EquivalentIsEqual(less, x, b);
    WithoutMembers(less, a, b, x);
  }

  /** The delete tasks. Everything listed is there, once, so none fails. */
  method DeleteAll(kernel: Kernel, name: string, t: Table, removed: seq<IPNet>) returns (ok: bool)
    requires name in kernel.links && Distinct(removed)
    requires forall x | x in removed :: x in kernel.links[name].Get(t)
    modifies kernel
    ensures ok
    ensures kernel.links == SetTable(old(kernel.links), name, t, old(kernel.links)[name].Get(t) - Members(removed))
    ensures removed == [] ==> kernel.log == old(kernel.log)
    ensures kernel.ipForward == old(kernel.ipForward)
  {
    ghost var links := kernel.links;
    ghost var have := links[name].Get(t);
    SetTableSame(links, name, t);
    assert have - Members(removed[..0]) == have;
    for k := 0 to |removed|
      invariant kernel.links == SetTable(links, name, t, have - Members(removed[..k]))
      invariant removed == [] ==> kernel.log == old(kernel.log)
      invariant kernel.ipForward == old(kernel.ipForward)
    {
      assert removed[k] in removed;
      SetTableTwice(links, name, t, have - Members(removed[..k]), have - Members(removed[..k+1]));
      MembersNext(removed, k);
      assert have - Members(removed[..k]) - {removed[k]} == have - Members(removed[..k+1]);
      ok := kernel.Delete(name, t, removed[k]);
      if !ok {
        return;
      }
    }
    assert removed[..|removed|] == removed;
    ok := true;
  }

  /** The add tasks. They fail exactly when something is listed twice. */
  method AddAll(kernel: Kernel, name: string, t: Table, added: seq<IPNet>) returns (ok: bool)
    requires name in kernel.links
    requires forall x | x in added :: x !in kernel.links[name].Get(t)
    modifies kernel
    ensures ok <==> Distinct(added)
    ensures ok ==> kernel.links == SetTable(old(kernel.links), name, t, old(kernel.links)[name].Get(t) + Members(added))
    ensures added == [] ==> kernel.log == old(kernel.log)
    ensures OnlyTable(old(kernel.links), kernel.links, name, t)
    ensures kernel.ipForward == old(kernel.ipForward)
  {
    ghost var links := kernel.links;
    ghost var have := links[name].Get(t);
    SetTableSame(links, name, t);
    assert have + Members(added[..0]) == have;
    for k := 0 to |added|
      invariant Distinct(added[..k])
      invariant kernel.links == SetTable(links, name, t, have + Members(added[..k]))
      invariant added == [] ==> kernel.log == old(kernel.log)
      invariant kernel.ipForward == old(kernel.ipForward)
    {
      assert added[k] in added;
      SetTableTwice(links, name, t, have + Members(added[..k]), have + Members(added[..k+1]));
      MembersNext(added, k);
      assert have + Members(added[..k]) + {added[k]} == have + Members(added[..k+1]);
      ok := kernel.Add(name, t, added[k]);
      if !ok {
        assert added[k] in added[..k];
        SetTableOnly(links, name, t, have + Members(added[..k+1]));
        return;
      }
    }
    assert added[..|added|] == added;
    SetTableOnly(links, name, t, have + Members(added));
    ok := true;
  }

  /** The common part of updateInterfaceAddresses and applyInterfaceRoutes: list, compute both
      differences, delete, add. */
  method Reconcile(kernel: Kernel, name: string, t: Table, goal: array<IPNet>) returns (ok: bool)
    requires name in kernel.links
    modifies kernel, goal
    ensures Sorted(LessIPNet, goal[..]) && multiset(goal[..]) == multiset(old(goal[..]))
    ensures ok <==> Reachable(old(kernel.links)[name].Get(t), multiset(old(goal[..])))
    ensures ok ==> kernel.links == SetTable(old(kernel.links), name, t, Elements(multiset(old(goal[..]))))
    ensures old(kernel.links)[name].Get(t) == Elements(multiset(old(goal[..]))) ==> kernel.log == old(kernel.log)
    ensures OnlyTable(old(kernel.links), kernel.links, name, t)
    ensures kernel.ipForward == old(kernel.ipForward)
  {
    ghost var want := multiset(goal[..]);
    var removed, added := Differences(kernel, name, t, goal);
    ok := ExecuteTasks(kernel, name, t, removed, added, want);
  }

  /** Both calls of setDifference. */
  method Differences(kernel: Kernel, name: string, t: Table, goal: array<IPNet>)
    returns (removed: seq<IPNet>, added: seq<IPNet>)
    requires name in kernel.links
    modifies goal
    ensures Sorted(LessIPNet, goal[..]) && multiset(goal[..]) == multiset(old(goal[..]))
    ensures Difference(removed, added, kernel.links[name].Get(t), multiset(goal[..]))
  {
    LessIPNetTotal();
    var listed := kernel.List(name, t);
    removed := SetDifference(listed, goal, LessIPNet);
    RemovedShape(listed[..], goal[..], kernel.links[name].Get(t), multiset(goal[..]));
    added := SetDifference(goal, listed, LessIPNet);
    AddedShape(listed[..], goal[..], kernel.links[name].Get(t), multiset(goal[..]));
  }

  /** `removed` is what is there and not wanted, `added` what is wanted and not there; the latter
      has repetitions only if something missing is wanted twice. */
  ghost predicate Difference(removed: seq<IPNet>, added: seq<IPNet>, have: set<IPNet>, want: multiset<IPNet>) {
    && Distinct(removed)
    && Members(removed) == have - Elements(want)
    && (Distinct(added) <==> Reachable(have, want))
    && Members(added) == Elements(want) - have
  }

  method ExecuteTasks(kernel: Kernel, name: string, t: Table, removed: seq<IPNet>, added: seq<IPNet>,
                      ghost want: multiset<IPNet>)
    returns (ok: bool)
    requires name in kernel.links
    requires Difference(removed, added, kernel.links[name].Get(t), want)
    modifies kernel
    ensures ok <==> Reachable(old(kernel.links)[name].Get(t), want)
    ensures ok ==> kernel.links == SetTable(old(kernel.links), name, t, Elements(want))
    ensures old(kernel.links)[name].Get(t) == Elements(want) ==> kernel.log == old(kernel.log)
    ensures OnlyTable(old(kernel.links), kernel.links, name, t)
    ensures kernel.ipForward == old(kernel.ipForward)
  {
    ghost var links := kernel.links;
    ghost var have := links[name].Get(t);
    assert forall x | x in removed :: x in Members(removed);
    assert forall x | x in added :: x in Members(added);
    SetTableTwice(links, name, t, have - Members(removed), Elements(want));
    assert have - Members(removed) + Members(added) == Elements(want);
    if have == Elements(want) {
      EmptyMembers(removed);
      EmptyMembers(added);
    }
    ok := DeleteAll(kernel, name, t, removed);
    if !ok {
      return;
    }
    ok := AddAll(kernel, name, t, added);
  }

  lemma EmptyMembers<T>(s: seq<T>)
    ensures Members(s) == {} <==> s == []
  {
    if s != [] {
      assert s[0] in Members(s);
    }
  }

  lemma RemovedShape(listed: seq<IPNet>, goal: seq<IPNet>, have: set<IPNet>, want: multiset<IPNet>)
    requires forall x :: multiset(listed)[x] == if x in have then 1 else 0
    requires multiset(goal) == want
    ensures var removed := Without(LessIPNet, listed, goal);
      Distinct(removed) && Members(removed) == have - Elements(want)
  {
    LessIPNetTotal();
    var removed := Without(LessIPNet, listed, goal);
    forall x ensures x in removed <==> x in have && x !in want {
      DifferenceElements(LessIPNet, listed, goal, x);
      assert x in listed <==> x in multiset(listed);
      assert x in goal <==> x in multiset(goal);
    }
    forall x | x in removed ensures multiset(removed)[x] == 1 {
      DifferenceElements(LessIPNet, listed, goal, x);
    }
    DistinctByCount(removed);
  }

  lemma AddedShape(listed: seq<IPNet>, goal: seq<IPNet>, have: set<IPNet>, want: multiset<IPNet>)
    requires forall x :: multiset(listed)[x] == if x in have then 1 else 0
    requires multiset(goal) == want
    ensures var added := Without(LessIPNet, goal, listed);
      (Distinct(added) <==> Reachable(have, want)) && Members(added) == Elements(want) - have
  {
    LessIPNetTotal();
    var added := Without(LessIPNet, goal, listed);
    forall x
      ensures x in added <==> x in want && x !in have
      ensures x in added ==> multiset(added)[x] == want[x]
    {
      DifferenceElements(LessIPNet, goal, listed, x);
      assert x in listed <==> x in multiset(listed);
      assert x in goal <==> x in multiset(goal);
    }
    if Reachable(have, want) {
      DistinctByCount(added);
    }
    if Distinct(added) {
      forall x | x in want && x !in have ensures want[x] == 1 {
        CountInDistinct(added, x);
      }
    }
  }

  lemma {:induction false} CountInDistinct<T>(s: seq<T>, x: T)
    requires Distinct(s)
    ensures multiset(s)[x] <= 1
  {
    if s != [] {
      var front, last := s[..|s|-1], s[|s|-1];
      assert s == front + [last];
      CountInDistinct(front, x);
      if last == x {
        assert last !in front;
      }
    }
  }

  // ----- one interface -----

  /** Every AllowedIPs entry of every peer, in order. */
  function Routed(peers: seq<Compile.Peer>): seq<IPNet> {
    if peers == [] then [] else Routed(peers[..|peers|-1]) + peers[|peers|-1].allowedIPs
  }

  /** The WireGuard configuration of one peer, unless its endpoint does not resolve. */
  function PeerConfigOf(out: Outside, p: Compile.Peer): Option<PeerConfig> {
    if p.endpoint == "" then Some(PeerConfig(p.publicKey, p.presharedKey, None, p.allowedIPs))
    else
      match out.resolve(p.endpoint)
      case None => None
      case Some(addr) => Some(PeerConfig(p.publicKey, p.presharedKey, Some(addr), p.allowedIPs))
  }

  function PeerConfigs(out: Outside, peers: seq<Compile.Peer>): Option<seq<PeerConfig>> {
    if peers == [] then Some([])
    else
      match (PeerConfigs(out, peers[..|peers|-1]), PeerConfigOf(out, peers[|peers|-1]))
      case (Some(front), Some(last)) => Some(front + [last])
      case _ => None
  }

  lemma {:induction false} UnresolvedPeer(out: Outside, peers: seq<Compile.Peer>, k: nat)
    requires k < |peers| && PeerConfigOf(out, peers[k]).None?
    ensures PeerConfigs(out, peers).None?
  {
    if k < |peers| - 1 {
      UnresolvedPeer(out, peers[..|peers|-1], k);
    }
  }

  /** The configuration that WireGuard gets and takes, if any. */
  function Configuration(out: Outside, name: string, privateKey: Key, listenPort: int, peers: seq<Compile.Peer>):
    Option<Config>
  {
    match PeerConfigs(out, peers)
    case None => None
    case Some(ps) =>
      var c := Config(privateKey, if listenPort == 0 then None else Some(listenPort), ps);
      if out.configures(name, c) then Some(c) else None
  }

  /** Its endpoints resolve, and it names every peer with its key and its AllowedIPs, in order. */
  lemma {:induction false} ConfigurationMeans(out: Outside, name: string, privateKey: Key, listenPort: int,
                                              peers: seq<Compile.Peer>)
    ensures var c := Configuration(out, name, privateKey, listenPort, peers);
      && (PeerConfigs(out, peers).Some?
          <==> forall k | 0 <= k < |peers| :: peers[k].endpoint == "" || out.resolve(peers[k].endpoint).Some?)
      && (c.Some? ==>
            && out.configures(name, c.value)
            && c.value.privateKey == privateKey
            && c.value.listenPort == (if listenPort == 0 then None else Some(listenPort))
            && |c.value.peers| == |peers|
            && forall k | 0 <= k < |peers| ::
                 && c.value.peers[k].publicKey == peers[k].publicKey
                 && c.value.peers[k].presharedKey == peers[k].presharedKey
                 && c.value.peers[k].endpoint
                    == (if peers[k].endpoint == "" then None else out.resolve(peers[k].endpoint))
                 && c.value.peers[k].allowedIPs == peers[k].allowedIPs)
  {
    PeerConfigsMean(out, peers);
  }

  lemma {:induction false} PeerConfigsMean(out: Outside, peers: seq<Compile.Peer>)
    ensures var ps := PeerConfigs(out, peers);
      && (ps.Some? <==> forall k | 0 <= k < |peers| :: PeerConfigOf(out, peers[k]).Some?)
      && (ps.Some? ==>
            |ps.value| == |peers| && forall k | 0 <= k < |peers| :: Some(ps.value[k]) == PeerConfigOf(out, peers[k]))
  {
    if peers != [] {
      PeerConfigsMean(out, peers[..|peers|-1]);
    }
  }

  /** What updateInterface makes of a link. */
  function GoalLink(l: Link, config: Config, addresses: multiset<IPNet>, routes: multiset<IPNet>): Link {
    Link(Elements(addresses), Elements(routes), true, l.wireGuard.With(config))
  }

  method ConfigureWireguard(kernel: Kernel, iface: Interface, out: Outside) returns (ok: bool)
    requires iface.name in kernel.links
    modifies kernel
    ensures var c := Configuration(out, iface.name, iface.privateKey, iface.listenPort, iface.peers);
      var l := old(kernel.links)[iface.name];
      && (ok <==> c.Some?)
      && kernel.links == if ok then old(kernel.links)[iface.name := l.(wireGuard := l.wireGuard.With(c.value))]
                         else old(kernel.links)
    ensures kernel.log == old(kernel.log) && kernel.ipForward == old(kernel.ipForward)
  {
    var peers: seq<PeerConfig> := [];
    for i := 0 to |iface.peers|
      invariant PeerConfigs(out, iface.peers[..i]) == Some(peers)
    {
      var peer := iface.peers[i];
      assert iface.peers[..i+1][..i] == iface.peers[..i];
      var endpoint: Option<UDPAddr> := None;
      if peer.endpoint != "" {
        endpoint := out.resolve(peer.endpoint);
        if endpoint.None? {
          UnresolvedPeer(out, iface.peers, i);
          return false;
        }
      }
      peers := peers + [PeerConfig(peer.publicKey, peer.presharedKey, endpoint, peer.allowedIPs)];
    }
    assert iface.peers[..|iface.peers|] == iface.peers;
    var cfg := Config(iface.privateKey, if iface.listenPort == 0 then None else Some(iface.listenPort), peers);
    ok := kernel.ConfigureDevice(out, iface.name, cfg);
  }

  method UpdateInterfaceAddresses(kernel: Kernel, iface: Interface) returns (ok: bool)
    requires iface.name in kernel.links
    modifies kernel, iface.addresses
    ensures Sorted(LessIPNet, iface.addresses[..])
    ensures multiset(iface.addresses[..]) == multiset(old(iface.addresses[..]))
    ensures ok <==> Reachable(old(kernel.links)[iface.name].addresses, multiset(old(iface.addresses[..])))
    ensures ok ==> kernel.links
                   == SetTable(old(kernel.links), iface.name, Addresses, Elements(multiset(old(iface.addresses[..]))))
    ensures old(kernel.links)[iface.name].addresses == Elements(multiset(old(iface.addresses[..])))
            ==> kernel.log == old(kernel.log)
    ensures OnlyTable(old(kernel.links), kernel.links, iface.name, Addresses)
    ensures kernel.ipForward == old(kernel.ipForward)
  {
    ok := Reconcile(kernel, iface.name, Addresses, iface.addresses);
  }

  method ApplyInterfaceRoutes(kernel: Kernel, iface: Interface) returns (ok: bool)
    requires iface.name in kernel.links
    modifies kernel
    ensures ok <==> Reachable(old(kernel.links)[iface.name].routes, multiset(Routed(iface.peers)))
    ensures ok ==> kernel.links
                   == SetTable(old(kernel.links), iface.name, Routes, Elements(multiset(Routed(iface.peers))))
    ensures old(kernel.links)[iface.name].routes == Elements(multiset(Routed(iface.peers)))
            ==> kernel.log == old(kernel.log)
    ensures OnlyTable(old(kernel.links), kernel.links, iface.name, Routes)
    ensures kernel.ipForward == old(kernel.ipForward)
  {
    var ifaceAddrs: seq<IPNet> := [];
    for k := 0 to |iface.peers|
      invariant ifaceAddrs == Routed(iface.peers[..k])
    {
      assert iface.peers[..k+1][..k] == iface.peers[..k];
      ifaceAddrs := ifaceAddrs + iface.peers[k].allowedIPs;
    }
    assert iface.peers[..|iface.peers|] == iface.peers;
    var a := new IPNet[|ifaceAddrs|](i requires 0 <= i < |ifaceAddrs| => ifaceAddrs[i]);
    assert a[..] == ifaceAddrs;
    ok := Reconcile(kernel, iface.name, Routes, a);
  }

  /** Can both tables of a link be brought to their goals? */
  predicate LinkReachable(l: Link, addresses: multiset<IPNet>, routes: multiset<IPNet>) {
    Reachable(l.addresses, addresses) && Reachable(l.routes, routes)
  }

  predicate LinkAtGoal(l: Link, addresses: multiset<IPNet>, routes: multiset<IPNet>) {
    l.addresses == Elements(addresses) && l.routes == Elements(routes)
  }

  /** No table that was at its goal has left it, and no link that was up is down. */
  predicate LinkKept(before: Link, after: Link, addresses: multiset<IPNet>, routes: multiset<IPNet>) {
    && (before.addresses == Elements(addresses) ==> after.addresses == before.addresses)
    && (before.routes == Elements(routes) ==> after.routes == before.routes)
    && (before.up ==> after.up)
  }

  /** updateInterface */
  method UpdateInterface(kernel: Kernel, iface: Interface, out: Outside) returns (ok: bool)
    modifies kernel, iface.addresses
    ensures ok ==> Sorted(LessIPNet, iface.addresses[..])
    ensures multiset(iface.addresses[..]) == multiset(old(iface.addresses[..]))
    ensures var addresses, routes := multiset(old(iface.addresses[..])), multiset(Routed(iface.peers));
      var config := Configuration(out, iface.name, iface.privateKey, iface.listenPort, iface.peers);
      && (ok <==> iface.name in old(kernel.links) && config.Some?
                  && LinkReachable(old(kernel.links)[iface.name], addresses, routes))
      && (ok ==> kernel.links == old(kernel.links)[iface.name :=
                   GoalLink(old(kernel.links)[iface.name], config.value, addresses, routes)])
      && (iface.name in old(kernel.links) ==>
            && iface.name in kernel.links
            && kernel.links == old(kernel.links)[iface.name := kernel.links[iface.name]]
            && LinkKept(old(kernel.links)[iface.name], kernel.links[iface.name], addresses, routes)
            && (LinkAtGoal(old(kernel.links)[iface.name], addresses, routes) ==> kernel.log == old(kernel.log)))
    ensures iface.name !in old(kernel.links) ==> kernel.links == old(kernel.links) && kernel.log == old(kernel.log)
    ensures kernel.ipForward == old(kernel.ipForward)
  {
    if iface.name !in kernel.links {
      return false;
    }
    ok := ConfigureWireguard(kernel, iface, out);
    if !ok {
      return;
    }
    ok := UpdateInterfaceAddresses(kernel, iface);
    if !ok {
      return;
    }
    kernel.LinkSetUp(iface.name);
    ok := ApplyInterfaceRoutes(kernel, iface);
  }
}
