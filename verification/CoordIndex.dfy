/** What the server's `latest` index means: one update, one patch, and whole runs. */
module CoordIndex {
  import opened Prelude
  import opened NetAddr
  import opened Specs
  import opened Coord

  // ----- one update -----

  lemma {:induction false} KeptMembers(oldNet: Network, newNet: Network, k: nat, name: string)
    requires k <= |newNet.devices|
    ensures name in Kept(oldNet, newNet, k)
            <==> Keeps(oldNet, newNet, name) && exists i | 0 <= i < k :: newNet.devices[i].public.name == name
  {
    if k > 0 {
      KeptMembers(oldNet, newNet, k - 1, name);
    }
  }

  lemma KeptAll(oldNet: Network, newNet: Network, name: string)
    ensures name in multiset(Kept(oldNet, newNet, |newNet.devices|)) <==> Keeps(oldNet, newNet, name)
  {
    KeptMembers(oldNet, newNet, |newNet.devices|, name);
    if HasDevice(newNet, name) {
      assert newNet.devices[DeviceIndex(newNet.devices, name)].public.name == name;
    }
  }

  lemma {:induction false} RemovedKeys(latest: Index, oldSpec: Spec, newSpec: Spec, k: nat, net: string)
    requires k <= |oldSpec.networks|
    ensures var r := WithoutRemoved(latest, oldSpec, newSpec, k);
      && (net in r <==> net in latest && (HasNetwork(newSpec, net)
                        || forall i | 0 <= i < k :: oldSpec.networks[i].name != net))
      && (net in r ==> r[net] == latest[net])
  {
    if k > 0 {
      RemovedKeys(latest, oldSpec, newSpec, k - 1, net);
    }
  }

  /** Does every one of the first `k` new networks of that name keep the device? */
  ghost predicate KeptByAll(oldSpec: Spec, newSpec: Spec, k: nat, net: string, dev: string)
    requires k <= |newSpec.networks|
  {
    HasNetwork(oldSpec, net) ==>
      forall i | 0 <= i < k && newSpec.networks[i].name == net ::
        Keeps(GetNetwork(oldSpec, net), newSpec.networks[i], dev)
  }

  lemma ReindexOneMembers(latest: Index, oldSpec: Spec, newNet: Network, net: string, dev: string)
    ensures dev in Entry(ReindexOne(latest, oldSpec, newNet), net)
            <==> dev in Entry(latest, net)
                 && (newNet.name == net && HasNetwork(oldSpec, net) ==> Keeps(GetNetwork(oldSpec, net), newNet, dev))
  {
    if newNet.name == net && HasNetwork(oldSpec, net) {
      KeptAll(GetNetwork(oldSpec, net), newNet, dev);
    }
  }

  lemma {:induction false} ReindexedMembers(latest: Index, oldSpec: Spec, newSpec: Spec, k: nat, net: string,
                                            dev: string)
    requires k <= |newSpec.networks|
    ensures dev in Entry(Reindexed(latest, oldSpec, newSpec, k), net)
            <==> dev in Entry(Reindexed(latest, oldSpec, newSpec, 0), net) && KeptByAll(oldSpec, newSpec, k, net, dev)
  {
    if k > 0 {
      ReindexedMembers(latest, oldSpec, newSpec, k - 1, net, dev);
      ReindexOneMembers(Reindexed(latest, oldSpec, newSpec, k - 1), oldSpec, newSpec.networks[k-1], net, dev);
    }
  }

  lemma {:induction false} ReindexedKeys(latest: Index, oldSpec: Spec, newSpec: Spec, k: nat, net: string)
    requires k <= |newSpec.networks|
    ensures net in Reindexed(latest, oldSpec, newSpec, k)
            <==> net in Reindexed(latest, oldSpec, newSpec, 0)
                 || (HasNetwork(oldSpec, net) && exists i | 0 <= i < k :: newSpec.networks[i].name == net)
  {
    if k > 0 {
      ReindexedKeys(latest, oldSpec, newSpec, k - 1, net);
    }
  }

  /** Is the device in both specs, with Equal views? */
  ghost predicate SameView(oldSpec: Spec, newSpec: Spec, net: string, dev: string) {
    && CurrentView(oldSpec, net, dev).Some?
    && CurrentView(newSpec, net, dev).Some?
    && ViewEqual(CurrentView(oldSpec, net, dev).value, CurrentView(newSpec, net, dev).value)
  }

  ghost predicate DistinctNetworks(s: Spec) {
    forall i, j | 0 <= i < j < |s.networks| :: s.networks[i].name != s.networks[j].name
  }

  /** Entries exist only for networks of the spec. */
  ghost predicate IndexInSpec(st: ServerState) {
    forall net | net in st.latest :: HasNetwork(st.spec, net)
  }

  /** An update never keeps a device whose view changed, and adds nobody; entries of removed
      networks are gone. No assumption on names is needed. */
  lemma UpdateKeepsOnlySame(st: ServerState, newSpec: Spec, net: string, dev: string)
    requires IndexInSpec(st)
    ensures IndexInSpec(Updated(st, newSpec))
    ensures dev in Entry(Updated(st, newSpec).latest, net)
            ==> dev in Entry(st.latest, net) && SameView(st.spec, newSpec, net, dev)
  {
    var k := |newSpec.networks|;
    forall n | n in Updated(st, newSpec).latest ensures HasNetwork(newSpec, n) {
      RemovedKeys(st.latest, st.spec, newSpec, |st.spec.networks|, n);
      ReindexedKeys(st.latest, st.spec, newSpec, k, n);
    }
    ReindexedMembers(st.latest, st.spec, newSpec, k, net, dev);
    RemovedKeys(st.latest, st.spec, newSpec, |st.spec.networks|, net);
    if dev in Entry(Updated(st, newSpec).latest, net) {
      assert HasNetwork(newSpec, net) && HasNetwork(st.spec, net);
      assert newSpec.networks[NetworkIndex(newSpec, net)].name == net;
    }
  }

  /** Exactly what an update keeps, whatever the names: the old members whose view is unchanged and
      that every new network of the name keeps. */
  lemma UpdateKeepsIff(st: ServerState, newSpec: Spec, net: string, dev: string)
    requires IndexInSpec(st)
    ensures dev in Entry(Updated(st, newSpec).latest, net)
            <==> && dev in Entry(st.latest, net)
                 && SameView(st.spec, newSpec, net, dev)
                 && forall i | 0 <= i < |newSpec.networks| && newSpec.networks[i].name == net ::
                      Keeps(GetNetwork(st.spec, net), newSpec.networks[i], dev)
    ensures net in Updated(st, newSpec).latest <==> HasNetwork(st.spec, net) && HasNetwork(newSpec, net)
  {
    var k := |newSpec.networks|;
    UpdateKeepsOnlySame(st, newSpec, net, dev);
    ReindexedMembers(st.latest, st.spec, newSpec, k, net, dev);
    RemovedKeys(st.latest, st.spec, newSpec, |st.spec.networks|, net);
    ReindexedKeys(st.latest, st.spec, newSpec, k, net);
  }

  /** Is the index after the update exact: precisely the old members whose view is unchanged? */
  ghost predicate ExactUpdate(st: ServerState, newSpec: Spec) {
    forall net, dev :: dev in Entry(Updated(st, newSpec).latest, net)
                       <==> dev in Entry(st.latest, net) && SameView(st.spec, newSpec, net, dev)
  }

  /** Does a network that repeats a name keep each member whose view is unchanged? */
  ghost predicate KeepsMembers(st: ServerState, newSpec: Spec, i: nat)
    requires i < |newSpec.networks|
  {
    var net := newSpec.networks[i].name;
    forall dev | dev in Entry(st.latest, net) && SameView(st.spec, newSpec, net, dev) ::
      Keeps(GetNetwork(st.spec, net), newSpec.networks[i], dev)
  }

  ghost predicate RepeatsKeep(st: ServerState, newSpec: Spec) {
    forall i | 0 <= i < |newSpec.networks| && NetworkIndex(newSpec, newSpec.networks[i].name) < i ::
      KeepsMembers(st, newSpec, i)
  }

  /** The update is exact if and only if the repeated networks of the new spec drop nobody. */
  lemma ExactUpdateIff(st: ServerState, newSpec: Spec)
    requires IndexInSpec(st)
    ensures ExactUpdate(st, newSpec) <==> RepeatsKeep(st, newSpec)
  {
    if RepeatsKeep(st, newSpec) {
      forall net, dev
        ensures dev in Entry(Updated(st, newSpec).latest, net)
                <==> dev in Entry(st.latest, net) && SameView(st.spec, newSpec, net, dev)
      {
        RepeatsKeepAll(st, newSpec, net, dev);
      }
    }
    if ExactUpdate(st, newSpec) {
      forall i, dev |
        && 0 <= i < |newSpec.networks|
        && dev in Entry(st.latest, newSpec.networks[i].name)
        && SameView(st.spec, newSpec, newSpec.networks[i].name, dev)
        ensures Keeps(GetNetwork(st.spec, newSpec.networks[i].name), newSpec.networks[i], dev)
      {
        UpdateKeepsIff(st, newSpec, newSpec.networks[i].name, dev);
      }
    }
  }

  lemma RepeatsKeepAll(st: ServerState, newSpec: Spec, net: string, dev: string)
    requires IndexInSpec(st) && RepeatsKeep(st, newSpec)
    ensures dev in Entry(Updated(st, newSpec).latest, net)
            <==> dev in Entry(st.latest, net) && SameView(st.spec, newSpec, net, dev)
  {
    UpdateKeepsIff(st, newSpec, net, dev);
    if dev in Entry(st.latest, net) && SameView(st.spec, newSpec, net, dev) {
      FirstKeeps(st.spec, newSpec, net, dev);
      forall i | 0 <= i < |newSpec.networks| && newSpec.networks[i].name == net
        ensures Keeps(GetNetwork(st.spec, net), newSpec.networks[i], dev)
      {
        if i != NetworkIndex(newSpec, net) {
          assert KeepsMembers(st, newSpec, i);
        }
      }
    }
  }

  /** The first network of a name keeps whoever has an unchanged view. */
  lemma FirstKeeps(oldSpec: Spec, newSpec: Spec, net: string, dev: string)
    requires SameView(oldSpec, newSpec, net, dev)
    ensures Keeps(GetNetwork(oldSpec, net), newSpec.networks[NetworkIndex(newSpec, net)], dev)
  {
  }

  /** In particular it is exact if the names are distinct. */
  lemma UpdateExact(st: ServerState, newSpec: Spec, net: string, dev: string)
    requires IndexInSpec(st) && DistinctNetworks(newSpec)
    ensures dev in Entry(Updated(st, newSpec).latest, net)
            <==> dev in Entry(st.latest, net) && SameView(st.spec, newSpec, net, dev)
    ensures net in Updated(st, newSpec).latest <==> HasNetwork(st.spec, net) && HasNetwork(newSpec, net)
  {
    ExactUpdateIff(st, newSpec);
    UpdateKeepsIff(st, newSpec, net, dev);
  }

  /** Two networks of one name: the later one censors the index as well, and a device whose own
      view has not changed is dropped. */
  lemma RepeatedNameDrops()
    ensures exists st: ServerState, newSpec: Spec :: IndexInSpec(st) && !ExactUpdate(st, newSpec)
  {
    var pub := CensoredDevice("d", [], false, false, 0, 0, [], 0, 0, None, 0, []);
    var n := Network("n", [NetworkDevice(pub, AccessControl(true, []))]);
    var st := ServerState(Spec([n]), map["n" := multiset{"d"}]);
    var newSpec := Spec([n, Network("n", [])]);
    assert st.spec.networks[0].name == "n" && newSpec.networks[0].name == "n" && newSpec.networks[1].name == "n";
    assert n.devices[0].public.name == "d";
    assert NetworkIndex(st.spec, "n") == 0 && NetworkIndex(newSpec, "n") == 0 && DeviceIndex(n.devices, "d") == 0;
    var v := Censored(n, "d");
    ViewEqualIsEquivalence(v, v, v);
    assert SameView(st.spec, newSpec, "n", "d");
    assert !Keeps(n, newSpec.networks[1], "d");
    assert IndexInSpec(st) && "d" in Entry(st.latest, "n");
    ExactUpdateIff(st, newSpec);
  }

  // ----- one patch -----

  /** The effect of a PATCH on a view: every Accessible list is emptied by the clone, and the
      patched device, if visible, gets its flagged fields. */
  function PatchedView(v: CensoredNetwork, dev: string, p: PatchRequest): CensoredNetwork {
    var c := Map(CloneDevice, v.devices);
    var i := ViewIndex(v.devices, dev);
    v.(devices := if i < 0 then c else c[i := ApplyPatch(c[i], p)])
  }

  function ClonedView(v: CensoredNetwork): CensoredNetwork {
    v.(devices := Map(CloneDevice, v.devices))
  }

  lemma CloneGet(n: Network, who: string)
    requires HasDevice(n, who)
    ensures HasDevice(CloneNetwork(n), who)
    ensures GetDevice(CloneNetwork(n), who) == CloneNetworkDevice(GetDevice(n, who))
    ensures Censored(CloneNetwork(n), who) == ClonedView(Censored(n, who))
  {
    CloneDeviceLookup(n, who);
    VisibleClone(GetDevice(n, who).access, n.devices);
  }

  lemma PatchedLookup(s: Spec, net: string, dev: string, p: PatchRequest, other: string)
    requires Known(s, net, dev)
    ensures NetworkIndex(PatchedSpec(s, net, dev, p), other) == NetworkIndex(s, other)
  {
    var t := PatchedSpec(s, net, dev, p);
    assert forall k | 0 <= k < |s.networks| :: t.networks[k].name == s.networks[k].name;
    var i, j := NetworkIndex(t, other), NetworkIndex(s, other);
    assert i >= 0 ==> s.networks[i].name == other;
    assert j >= 0 ==> t.networks[j].name == other;
  }

  /** A PATCH changes views in exactly this way, in its own network and in every other one. */
  lemma PatchViews(s: Spec, net: string, dev: string, p: PatchRequest, net': string, who: string)
    requires Known(s, net, dev)
    ensures CurrentView(PatchedSpec(s, net, dev, p), net', who)
         == match CurrentView(s, net', who)
            case None => None
            case Some(v) => Some(if net' == net then PatchedView(v, dev, p) else ClonedView(v))
  {
    var t := PatchedSpec(s, net, dev, p);
    PatchedLookup(s, net, dev, p, net');
    if HasNetwork(s, net') {
      var n, m := GetNetwork(s, net'), GetNetwork(t, net');
      var c := CloneNetwork(n);
      if net' != net {
        assert m == c;
        CloneDeviceLookup(n, who);
        if HasDevice(n, who) {
          CloneGet(n, who);
        }
      } else {
        PatchedDevices(n, m, dev, p, who);
      }
    }
  }

  lemma PatchedDevices(n: Network, m: Network, dev: string, p: PatchRequest, who: string)
    requires HasDevice(n, dev)
    requires var c := Map(CloneNetworkDevice, n.devices);
      var i := DeviceIndex(n.devices, dev);
      m == Network(n.name, c[i := c[i].(public := ApplyPatch(c[i].public, p))])
    ensures HasDevice(m, who) <==> HasDevice(n, who)
    ensures HasDevice(n, who) ==> Censored(m, who) == PatchedView(Censored(n, who), dev, p)
  {
    var c := CloneNetwork(n);
    var i := DeviceIndex(n.devices, dev);
    var changed := c.devices[i].(public := ApplyPatch(c.devices[i].public, p));
    assert m == Network(n.name, c.devices[i := changed]);
    CloneDeviceLookup(n, dev);
    CloneDeviceLookup(n, who);
    assert forall k | 0 <= k < |n.devices| :: m.devices[k].public.name == n.devices[k].public.name;
    var j, k := DeviceIndex(m.devices, who), DeviceIndex(n.devices, who);
    assert j >= 0 ==> n.devices[j].public.name == who;
    assert k >= 0 ==> m.devices[k].public.name == who;
    assert j == k;
    if HasDevice(n, who) {
      var access := GetDevice(n, who).access;
      CloneGet(n, who);
      assert GetDevice(m, who).access == access;
      VisibleUpdate(access, c.devices, dev, changed);
      VisibleFirst(access, c.devices, dev);
      VisibleFirst(access, n.devices, dev);
      var v := Visible(access, n.devices);
      VisibleClone(access, n.devices);
      CloneViewIndex(v, dev);
    }
  }

  lemma CloneViewIndex(v: seq<CensoredDevice>, dev: string)
    ensures ViewIndex(Map(CloneDevice, v), dev) == ViewIndex(v, dev)
  {
    var c := Map(CloneDevice, v);
    var i, j := ViewIndex(c, dev), ViewIndex(v, dev);
    assert forall k | 0 <= k < |v| :: c[k].name == v[k].name;
    assert i >= 0 ==> v[i].name == dev;
    assert j >= 0 ==> c[j].name == dev;
  }

  /** Does no device of the view announce anything accessible? */
  predicate Quiet(v: CensoredNetwork) {
    forall d | d in v.devices :: d.accessible == []
  }

  lemma ClonedViewEqualIff(v: CensoredNetwork)
    ensures ViewEqual(v, ClonedView(v)) <==> Quiet(v)
  {
    var c := ClonedView(v);
    forall i | 0 <= i < |v.devices| ensures DeviceEqual(v.devices[i], c.devices[i]) <==> v.devices[i].accessible == [] {
      NetsEqualIffCanon(v.devices[i].addresses, v.devices[i].addresses);
    }
    if ViewEqual(v, c) {
      forall d | d in v.devices ensures d.accessible == [] {
        var i :| 0 <= i < |v.devices| && v.devices[i] == d;
        assert DeviceEqual(v.devices[i], c.devices[i]);
      }
    } else {
      assert exists i | 0 <= i < |v.devices| :: !DeviceEqual(v.devices[i], c.devices[i]);
    }
  }

  /** Censoring isolates updates. A PATCH by a device that `who` cannot see, or in another
      network, leaves `who` in the index exactly when `who` sees no Accessible list that the
      clone would empty. */
  lemma UnseenPatchKeeps(st: ServerState, net: string, dev: string, p: PatchRequest, net': string, who: string)
    requires IndexInSpec(st) && DistinctNetworks(st.spec)
    requires Known(st.spec, net, dev) && PatchAcceptable(GetNetwork(st.spec, net), p)
    requires who in Entry(st.latest, net') && CurrentView(st.spec, net', who).Some?
    requires net' != net || ViewIndex(CurrentView(st.spec, net', who).value.devices, dev) == -1
    ensures who in Entry(Serve(st, PatchSpec(net, dev, p)).0.latest, net')
            <==> Quiet(CurrentView(st.spec, net', who).value)
  {
    var t := PatchedSpec(st.spec, net, dev, p);
    UnseenSameView(st.spec, net, dev, p, net', who);
    PatchDistinct(st.spec, net, dev, p);
    UpdateExact(st, t, net', who);
    assert Serve(st, PatchSpec(net, dev, p)).0 == Updated(st, t);
  }

  lemma UnseenSameView(s: Spec, net: string, dev: string, p: PatchRequest, net': string, who: string)
    requires Known(s, net, dev) && CurrentView(s, net', who).Some?
    requires net' != net || ViewIndex(CurrentView(s, net', who).value.devices, dev) == -1
    ensures SameView(s, PatchedSpec(s, net, dev, p), net', who) <==> Quiet(CurrentView(s, net', who).value)
  {
    UnseenPatchClones(s, net, dev, p, net', who);
    ClonedViewEqualIff(CurrentView(s, net', who).value);
  }

  lemma UnseenPatchClones(s: Spec, net: string, dev: string, p: PatchRequest, net': string, who: string)
    requires Known(s, net, dev) && CurrentView(s, net', who).Some?
    requires net' != net || ViewIndex(CurrentView(s, net', who).value.devices, dev) == -1
    ensures CurrentView(PatchedSpec(s, net, dev, p), net', who) == Some(ClonedView(CurrentView(s, net', who).value))
  {
    PatchViews(s, net, dev, p, net', who);
  }

  lemma SameViewCensored(s: Spec, t: Spec, net: string, who: string)
    requires Known(s, net, who) && Known(t, net, who)
    ensures SameView(s, t, net, who)
      <==> ViewEqual(Censored(GetNetwork(s, net), who), Censored(GetNetwork(t, net), who))
  {
  }

  /** The same for a new spec: with distinct names, a device stays in the index exactly if the new
      spec has the same network up to what the device may not access. */
  lemma UnseenChangeKeeps(st: ServerState, newSpec: Spec, net: string, who: string)
    requires IndexInSpec(st) && DistinctNetworks(newSpec)
    requires who in Entry(st.latest, net) && Known(st.spec, net, who)
    ensures who in Entry(Serve(st, ReplaceSpec(newSpec)).0.latest, net)
            <==> && Known(newSpec, net, who)
                 && var n, m := GetNetwork(st.spec, net), GetNetwork(newSpec, net);
                    exists at, bt :: Corresponding(GetDevice(n, who).access, n, GetDevice(m, who).access, m, at, bt)
  {
    UpdateExact(st, newSpec, net, who);
    assert Serve(st, ReplaceSpec(newSpec)).0 == Updated(st, newSpec);
    SameViewIff(st.spec, newSpec, net, who);
  }

  lemma SameViewIff(s: Spec, t: Spec, net: string, who: string)
    requires Known(s, net, who)
    ensures SameView(s, t, net, who)
            <==> && Known(t, net, who)
                 && var n, m := GetNetwork(s, net), GetNetwork(t, net);
                    exists at, bt :: Corresponding(GetDevice(n, who).access, n, GetDevice(m, who).access, m, at, bt)
  {
    if Known(t, net, who) {
      SameViewCensored(s, t, net, who);
      CensoringIsolates(GetNetwork(s, net), GetNetwork(t, net), who);
    }
  }

  lemma PatchDistinct(s: Spec, net: string, dev: string, p: PatchRequest)
    requires Known(s, net, dev)
    ensures DistinctNetworks(PatchedSpec(s, net, dev, p)) <==> DistinctNetworks(s)
  {
    var t := PatchedSpec(s, net, dev, p);
    assert forall k | 0 <= k < |s.networks| :: t.networks[k].name == s.networks[k].name;
  }

  // ----- whole runs -----

  function Run(st: ServerState, rs: seq<Request>): ServerState {
    if rs == [] then st else Serve(Run(st, rs[..|rs|-1]), rs[|rs|-1]).0
  }

  /** Was the last request an accepted report of the device, or was the device fresh before it
      and did its view stay Equal? */
  ghost predicate Fresh(st: ServerState, rs: seq<Request>, net: string, dev: string) {
    if rs == [] then false
    else
      var before := Run(st, rs[..|rs|-1]);
      var last := rs[|rs|-1];
      || AcceptedReport(before, last, net, dev)
      || (Fresh(st, rs[..|rs|-1], net, dev) && SameView(before.spec, Serve(before, last).0.spec, net, dev))
  }

  ghost predicate AcceptedReport(st: ServerState, r: Request, net: string, dev: string) {
    r.PostStatus? && r.net == net && r.dev == dev && Serve(st, r).1 == IsLatest(true)
  }

  lemma IndexStays(st: ServerState, r: Request)
    requires IndexInSpec(st)
    ensures IndexInSpec(Serve(st, r).0)
  {
    match r {
      case ReplaceSpec(newSpec) =>
        UpdateKeepsOnlySame(st, newSpec, "", "");
      case PatchSpec(n, d, p) =>
        if Known(st.spec, n, d) && PatchAcceptable(GetNetwork(st.spec, n), p) {
          UpdateKeepsOnlySame(st, PatchedSpec(st.spec, n, d, p), "", "");
        }
      case PostStatus(n, d, reified) =>
        PostKeeps(st, n, d, reified, n, d);
      case _ =>
    }
  }

  /** No request brings a device into the index but an accepted report of its own, and none
      leaves it there with a changed view. */
  lemma StepKeepsOnlySame(st: ServerState, r: Request, net: string, dev: string)
    requires IndexInSpec(st)
    requires dev in Entry(st.latest, net) ==> CurrentView(st.spec, net, dev).Some?
    ensures IndexInSpec(Serve(st, r).0)
    ensures dev in Entry(Serve(st, r).0.latest, net)
            ==> AcceptedReport(st, r, net, dev)
                || (dev in Entry(st.latest, net) && SameView(st.spec, Serve(st, r).0.spec, net, dev))
  {
    match r {
      case ReplaceSpec(newSpec) =>
        UpdateKeepsOnlySame(st, newSpec, net, dev);
      case PatchSpec(n, d, p) =>
        if Known(st.spec, n, d) && PatchAcceptable(GetNetwork(st.spec, n), p) {
          UpdateKeepsOnlySame(st, PatchedSpec(st.spec, n, d, p), net, dev);
        } else {
          SameSpec(st.spec, net, dev);
        }
      case PostStatus(n, d, reified) =>
        PostKeeps(st, n, d, reified, net, dev);
        SameSpec(st.spec, net, dev);
      case _ =>
        SameSpec(st.spec, net, dev);
    }
  }

  lemma PostKeeps(st: ServerState, n: string, d: string, reified: CensoredNetwork, net: string, dev: string)
    requires IndexInSpec(st)
    ensures var (st', resp) := ServePost(st, n, d, reified);
      && IndexInSpec(st')
      && st'.spec == st.spec
      && (dev in Entry(st'.latest, net)
          <==> dev in Entry(st.latest, net) || (n == net && d == dev && resp == IsLatest(true)))
  {
    var latest := st.latest;
    EntryAdded(latest, n, d, net, dev);
    if ServePost(st, n, d, reified).1 == IsLatest(true) {
      assert HasNetwork(st.spec, n);
    } else {
      assert ServePost(st, n, d, reified).0 == st;
    }
  }

  lemma EntryAdded(latest: Index, n: string, d: string, net: string, dev: string)
    ensures dev in Entry(latest[n := Entry(latest, n) + multiset{d}], net)
            <==> dev in Entry(latest, net) || (n == net && d == dev)
  {
  }

  lemma SameSpec(s: Spec, net: string, dev: string)
    ensures SameView(s, s, net, dev) <==> CurrentView(s, net, dev).Some?
  {
    if CurrentView(s, net, dev).Some? {
      var v := CurrentView(s, net, dev).value;
      ViewEqualIsEquivalence(v, v, v);
    }
  }

  /** With distinct network names these are all the devices in the index. */
  lemma StepExact(st: ServerState, r: Request, net: string, dev: string)
    requires IndexInSpec(st) && DistinctNetworks(st.spec) && (r.ReplaceSpec? ==> DistinctNetworks(r.spec))
    requires dev in Entry(st.latest, net) ==> CurrentView(st.spec, net, dev).Some?
    ensures DistinctNetworks(Serve(st, r).0.spec)
    ensures dev in Entry(Serve(st, r).0.latest, net)
            <==> AcceptedReport(st, r, net, dev)
                 || (dev in Entry(st.latest, net) && SameView(st.spec, Serve(st, r).0.spec, net, dev))
  {
    StepKeepsOnlySame(st, r, net, dev);
    SameSpec(st.spec, net, dev);
    match r {
      case GetLatest(_, _) =>
      case GetSpec(_, _) =>
      case PostStatus(n, d, reified) =>
        PostKeeps(st, n, d, reified, net, dev);
      case ReplaceSpec(newSpec) =>
        UpdateExact(st, newSpec, net, dev);
      case PatchSpec(n, d, p) =>
        PatchExact(st, n, d, p, net, dev);
    }
  }

  lemma PatchExact(st: ServerState, n: string, d: string, p: PatchRequest, net: string, dev: string)
    requires IndexInSpec(st) && DistinctNetworks(st.spec)
    requires dev in Entry(st.latest, net) ==> CurrentView(st.spec, net, dev).Some?
    ensures var st' := ServePatch(st, n, d, p).0;
      && DistinctNetworks(st'.spec)
      && (dev in Entry(st'.latest, net) <==> dev in Entry(st.latest, net) && SameView(st.spec, st'.spec, net, dev))
  {
    SameSpec(st.spec, net, dev);
    if Known(st.spec, n, d) && PatchAcceptable(GetNetwork(st.spec, n), p) {
      PatchDistinct(st.spec, n, d, p);
      UpdateExact(st, PatchedSpec(st.spec, n, d, p), net, dev);
    }
  }

  /** Over any run the index is exact: a device is in it if and only if it has had a report
      accepted and its view has stayed Equal at every update since then. */
  lemma {:induction false} IndexExact(s: Spec, rs: seq<Request>, net: string, dev: string)
    requires DistinctNetworks(s)
    requires forall r | r in rs && r.ReplaceSpec? :: DistinctNetworks(r.spec)
    ensures var st := ServerState(s, map[]);
      && IndexInSpec(Run(st, rs)) && DistinctNetworks(Run(st, rs).spec)
      && (dev in Entry(Run(st, rs).latest, net) <==> Fresh(st, rs, net, dev))
      && (dev in Entry(Run(st, rs).latest, net) ==> CurrentView(Run(st, rs).spec, net, dev).Some?)
  {
    if rs != [] {
      var st := ServerState(s, map[]);
      var front, last := rs[..|rs|-1], rs[|rs|-1];
      assert last in rs;
      IndexExact(s, front, net, dev);
      StepKeepsOnlySame(Run(st, front), last, net, dev);
      StepExact(Run(st, front), last, net, dev);
    }
  }

  /** The view of the last accepted report of a device. */
  ghost function LastAccepted(st: ServerState, rs: seq<Request>, net: string, dev: string): Option<CensoredNetwork> {
    if rs == [] then None
    else
      var before := Run(st, rs[..|rs|-1]);
      var last := rs[|rs|-1];
      if AcceptedReport(before, last, net, dev)
      then Some(last.reified)
      else LastAccepted(st, rs[..|rs|-1], net, dev)
  }

  /** If the device is in the index, `accepted` is Equal to the view it would get now. */
  ghost predicate IsCurrent(st: ServerState, accepted: Option<CensoredNetwork>, net: string, dev: string) {
    dev in Entry(st.latest, net) ==>
      && accepted.Some?
      && CurrentView(st.spec, net, dev).Some?
      && ViewEqual(accepted.value, CurrentView(st.spec, net, dev).value)
  }

  /** Over any run, whatever the names: every member's last accepted view is Equal to the view
      it would get now. */
  lemma {:induction false} MembersAreCurrent(s: Spec, rs: seq<Request>, net: string, dev: string)
    ensures IndexInSpec(Run(ServerState(s, map[]), rs))
    ensures IsCurrent(Run(ServerState(s, map[]), rs), LastAccepted(ServerState(s, map[]), rs, net, dev), net, dev)
  {
    if rs != [] {
      var front := rs[..|rs|-1];
      MembersAreCurrent(s, front, net, dev);
      StepKeepsCurrent(Run(ServerState(s, map[]), front), rs[|rs|-1],
                       LastAccepted(ServerState(s, map[]), front, net, dev), net, dev);
    }
  }

  lemma StepKeepsCurrent(st: ServerState, r: Request, accepted: Option<CensoredNetwork>, net: string, dev: string)
    requires IndexInSpec(st) && IsCurrent(st, accepted, net, dev)
    ensures IndexInSpec(Serve(st, r).0)
    ensures IsCurrent(Serve(st, r).0, if AcceptedReport(st, r, net, dev) then Some(r.reified) else accepted, net, dev)
  {
    StepKeepsOnlySame(st, r, net, dev);
    var st' := Serve(st, r).0;
    if AcceptedReport(st, r, net, dev) {
      assert st'.spec == st.spec;
    } else if dev in Entry(st'.latest, net) {
      ViewEqualIsEquivalence(accepted.value, CurrentView(st.spec, net, dev).value,
                             CurrentView(st'.spec, net, dev).value);
    }
  }
}
