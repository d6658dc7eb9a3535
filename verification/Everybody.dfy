/** All devices together: if at most one of them can forward, three rounds of calls, one call by every
    device in each, bring everybody into the index at once whose view is reportable. */
module Everybody {
  import opened Prelude
  import opened NetAddr
  import opened Specs
  import opened Coord
  import opened CoordIndex
  import opened Compile
  import opened Choosing
  import opened DeviceClient
  import opened Convergence

  datatype Group = Group(srv: ServerState, clients: seq<ClientState>)

  /** One client calls. */
  function After(g: Group, pub: Derivation, r: Round, k: nat): (g': Group)
    requires k < |g.clients|
    ensures |g'.clients| == |g.clients|
    ensures forall i | 0 <= i < |g.clients| && i != k :: g'.clients[i] == g.clients[i]
  {
    var (srv, c, _) := Reify(g.srv, g.clients[k], pub, r);
    Group(srv, g.clients[k := c])
  }

  function OutcomeAt(g: Group, pub: Derivation, r: Round, k: nat): DeviceClient.Outcome {
    if k < |g.clients| then Reify(g.srv, g.clients[k], pub, r).2 else RequestFailed
  }

  /** Client `k` calls, without an error, and if it can forward, its pings come out as given. */
  ghost predicate CallsWell(g: Group, g': Group, k: nat, pub: Derivation, ping: (nat, nat) -> bool, r: Round) {
    && k < |g.clients|
    && r.newKey != UNSET_KEY
    && (g.clients[k].canForward ==> r.env.ping == ping)
    && OutcomeAt(g, pub, r, k).Reified?
    && g' == After(g, pub, r, k)
  }

  /** A round of such calls by all clients in turn; `gs[k]` is how things are before the call of client `k`. */
  ghost predicate GoodRound(gs: seq<Group>, pub: Derivation, ping: (nat, nat) -> bool, rs: seq<Round>) {
    && |gs| == |rs| + 1
    && |gs[0].clients| == |rs|
    && forall k | 0 <= k < |rs| :: CallsWell(gs[k], gs[k+1], k, pub, ping, rs[k])
  }

  /** Different devices, of which at most one can forward. */
  ghost predicate OneForwarder(cs: seq<ClientState>) {
    && (forall i, j | 0 <= i < j < |cs| :: cs[i].id != cs[j].id)
    && (forall i, j | 0 <= i < |cs| && 0 <= j < |cs| && cs[i].canForward && cs[j].canForward :: i == j)
  }

  predicate Sees(srv: ServerState, c: ClientState) { SeesItself(srv.spec, c.id.net, c.id.dev) }

  function ViewOf(srv: ServerState, c: ClientState): CensoredNetwork
    requires Sees(srv, c)
  {
    CurrentView(srv.spec, c.id.net, c.id.dev).value
  }

  function OwnOf(srv: ServerState, c: ClientState): (own: nat)
    requires Sees(srv, c)
    ensures own < |ViewOf(srv, c).devices|
  {
    ViewIndex(ViewOf(srv, c).devices, c.id.dev)
  }

  predicate CanReport(srv: ServerState, c: ClientState) {
    Sees(srv, c) && Reportable(ViewOf(srv, c), OwnOf(srv, c))
  }

  predicate InIndex(srv: ServerState, c: ClientState) {
    c.id.dev in Entry(srv.latest, c.id.net)
  }

  // ----- what the forwarder announces -----

  /** The same devices as far as chooseEndpoints is concerned, the local list apart. */
  ghost predicate SameChoices(a: Devices, b: Devices, me: nat) {
    && |a| == |b|
    && (forall i | 0 <= i < |a| ::
          a[i].name == b[i].name && a[i].endpoints == b[i].endpoints && a[i].chosen == b[i].chosen)
    && (forall i | 0 <= i < |a| && i != me :: a[i].accessible == b[i].accessible)
    && (me < |a| ==> !a[me].chosen)
  }

  lemma {:induction false} SameForwarders(a: Devices, b: Devices, me: nat, name: string, n: nat)
    requires SameChoices(a, b, me) && n <= |a|
    ensures Forwarders(a, name, n) == Forwarders(b, name, n)
  {
    if n > 0 {
      SameForwarders(a, b, me, name, n - 1);
    }
  }

  lemma SameWithForwarder(a: Devices, b: Devices, me: nat, e1: Surroundings, e2: Surroundings, i: nat)
    requires SameChoices(a, b, me) && i < |a| && i != me
    ensures SameChoices(WithForwarder(a, e1, i), WithForwarder(b, e2, i), me)
  {
    SameForwarders(a, b, me, a[i].name, |a|);
  }

  lemma {:induction false} SameWithForwarders(a: Devices, b: Devices, me: nat, e1: Surroundings, e2: Surroundings,
                                              needs: seq<nat>)
    requires SameChoices(a, b, me)
    requires forall k | 0 <= k < |needs| :: needs[k] < |a| && needs[k] != me
    ensures SameChoices(WithForwarders(a, e1, needs), WithForwarders(b, e2, needs), me)
  {
    if needs != [] {
      var front := needs[..|needs|-1];
      SameWithForwarders(a, b, me, e1, e2, front);
      SameWithForwarder(WithForwarders(a, e1, front), WithForwarders(b, e2, front), me, e1, e2, needs[|needs|-1]);
    }
  }

  lemma {:induction false} SameNeeds(a: Devices, b: Devices, me: nat, e1: Surroundings, e2: Surroundings, n: nat)
    requires SameChoices(a, b, me) && n <= |a| && e1.ping == e2.ping
    ensures Needs(a, me, e1, n) == Needs(b, me, e2, n)
    ensures forall k | 0 <= k < |Needs(a, me, e1, n)| :: Needs(a, me, e1, n)[k] != me
  {
    if n > 0 {
      SameNeeds(a, b, me, e1, e2, n - 1);
    }
  }

  lemma {:induction false} SameNames(a: Devices, b: Devices, n: nat)
    requires n <= |a| == |b|
    requires forall i | 0 <= i < |a| :: a[i].name == b[i].name && a[i].chosen == b[i].chosen
    ensures ChosenNames(a, n) == ChosenNames(b, n)
  {
    if n > 0 {
      SameNames(a, b, n - 1);
    }
  }

  /** Which devices are chosen depends on the pings, but on no random number. */
  lemma ChosenByPing(a: Devices, b: Devices, me: nat, e1: Surroundings, e2: Surroundings)
    requires SameChoices(a, b, me) && e1.ping == e2.ping
    ensures ChosenNames(Choose(a, me, e1), |a|) == ChosenNames(Choose(b, me, e2), |b|)
  {
    SameNeeds(a, b, me, e1, e2, |a|);
    var ta, tb := AllTried(a, me, e1), AllTried(b, me, e2);
    forall i | 0 <= i < |a| ensures ta[i].chosen == tb[i].chosen {
      assert PingVerdicts(e1, i, |a[i].endpoints|) == PingVerdicts(e2, i, |b[i].endpoints|);
    }
    SameWithForwarders(ta, tb, me, e1, e2, Needs(a, me, e1, |a|));
    SameNames(Choose(a, me, e1), Choose(b, me, e2), |a|);
  }

  /** What a device would announce on seeing this view. */
  function PlannedList(v: CensoredNetwork, own: nat, publicKey: Key, canForward: bool, env: Surroundings): seq<string>
    requires own < |v.devices|
  {
    MakePlan(v, own, publicKey, canForward, env).view.devices[own].accessible
  }

  /** Names and endpoints agree, and so does what the others announce. */
  ghost predicate SameOffers(v: CensoredNetwork, w: CensoredNetwork, own: nat) {
    && |v.devices| == |w.devices|
    && (forall i | 0 <= i < |v.devices| ::
          v.devices[i].name == w.devices[i].name && v.devices[i].endpoints == w.devices[i].endpoints)
    && (forall i | 0 <= i < |v.devices| && i != own :: v.devices[i].accessible == w.devices[i].accessible)
  }

  lemma SameList(v: CensoredNetwork, w: CensoredNetwork, own: nat, publicKey: Key, canForward: bool, e1: Surroundings,
                 e2: Surroundings)
    requires own < |v.devices| && SameOffers(v, w, own) && e1.ping == e2.ping
    ensures PlannedList(v, own, publicKey, canForward, e1) == PlannedList(w, own, publicKey, canForward, e2)
  {
    var a, b := WithKey(Decoded(v), own, publicKey).devices, WithKey(Decoded(w), own, publicKey).devices;
    ChosenByPing(a, b, own, e1, e2);
  }

  // ----- where a client stands -----

  /** The spec has the client's key, and no list if the client cannot forward. */
  ghost predicate Settled(srv: ServerState, c: ClientState, pub: Derivation) {
    && Sees(srv, c)
    && c.key != UNSET_KEY
    && var d := ViewOf(srv, c).devices[OwnOf(srv, c)];
       d.publicKey == pub(c.key) && (!c.canForward ==> d.accessible == [])
  }

  /** The spec has the list that the client would announce. */
  ghost predicate Steady(srv: ServerState, c: ClientState, pub: Derivation, ping: (nat, nat) -> bool)
    requires Sees(srv, c)
  {
    var v, own := ViewOf(srv, c), OwnOf(srv, c);
    forall env: Surroundings | env.ping == ping ::
      PlannedList(v, own, pub(c.key), c.canForward, env) == v.devices[own].accessible
  }

  /** A forwarder's list is right, or will be once it has announced it. */
  ghost predicate NearlySteady(srv: ServerState, c: ClientState, pub: Derivation, ping: (nat, nat) -> bool) {
    Settled(srv, c, pub) && (c.canForward ==> Steady(srv, c, pub, ping) || OthersQuiet(ViewOf(srv, c), OwnOf(srv, c)))
  }

  /** Nothing is left to patch. */
  ghost predicate Calm(srv: ServerState, c: ClientState, pub: Derivation, ping: (nat, nat) -> bool) {
    Settled(srv, c, pub) && (c.canForward ==> Steady(srv, c, pub, ping))
  }

  // ----- one call -----

  /** The plan of a call. */
  function PlanOf(srv: ServerState, c: ClientState, pub: Derivation, r: Round): Plan
    requires Sees(srv, c)
  {
    MakePlan(ViewOf(srv, c), OwnOf(srv, c), pub(KeyInUse(c, r)), c.canForward, r.env)
  }

  ghost predicate Silent(p: Plan) { p.keyPatch.None? && p.accessPatch.None? }

  /** A calm client has nothing to patch. */
  lemma CalmIsSilent(srv: ServerState, c: ClientState, pub: Derivation, ping: (nat, nat) -> bool, r: Round)
    requires Calm(srv, c, pub, ping) && (c.canForward ==> r.env.ping == ping)
    ensures Silent(PlanOf(srv, c, pub, r))
  {
    PlanShape(ViewOf(srv, c), OwnOf(srv, c), pub(c.key), c.canForward, r.env);
  }

  lemma FinishAddsOnly(srv: ServerState, id: Identity, v: CensoredNetwork, own: nat, verdict: Verdict)
    requires own < |v.devices|
    ensures var srv' := Finish(srv, id, v, own, verdict).0;
      srv'.spec == srv.spec && forall other: ClientState | InIndex(srv, other) :: InIndex(srv', other)
  {
  }

  /** What a call without errors does to the server: nothing, or what its one or two patches do, and
      the report. */
  lemma CallOnServer(srv: ServerState, c: ClientState, pub: Derivation, r: Round)
    requires Sees(srv, c) && Reify(srv, c, pub, r).2.Reified?
    ensures var p := PlanOf(srv, c, pub, r);
      var (srv1, resp1) := Send(srv, c.id, p.keyPatch);
      var (srv2, resp2) := Send(srv1, c.id, p.accessPatch);
      && resp1 == Done && resp2 == Done
      && Reify(srv, c, pub, r).0 == Finish(srv2, c.id, p.view, OwnOf(srv, c), r.verdict).0
  {
    var p := PlanOf(srv, c, pub, r);
    var e := Execute(srv, c.id, p, OwnOf(srv, c), r.verdict);
    assert Reify(srv, c, pub, r) == (e.0, c.(key := KeyInUse(c, r)), e.1);
    ExecuteSends(srv, c.id, p, OwnOf(srv, c), r.verdict);
  }

  lemma ExecuteSends(srv: ServerState, id: Identity, p: Plan, own: nat, verdict: Verdict)
    requires own < |p.view.devices| && Execute(srv, id, p, own, verdict).1.Reified?
    ensures var (srv1, resp1) := Send(srv, id, p.keyPatch);
      var (srv2, resp2) := Send(srv1, id, p.accessPatch);
      resp1 == Done && resp2 == Done && Execute(srv, id, p, own, verdict).0 == Finish(srv2, id, p.view, own, verdict).0
  {
  }

  lemma CallOnSpec(srv: ServerState, c: ClientState, pub: Derivation, r: Round)
    requires Sees(srv, c) && Reify(srv, c, pub, r).2.Reified?
    ensures var p := PlanOf(srv, c, pub, r);
      && Send(srv, c.id, p.keyPatch).1 == Done
      && Send(Send(srv, c.id, p.keyPatch).0, c.id, p.accessPatch).1 == Done
      && Reify(srv, c, pub, r).0.spec == Send(Send(srv, c.id, p.keyPatch).0, c.id, p.accessPatch).0.spec
  {
    var p := PlanOf(srv, c, pub, r);
    CallOnServer(srv, c, pub, r);
    FinishAddsOnly(Send(Send(srv, c.id, p.keyPatch).0, c.id, p.accessPatch).0, c.id, p.view, OwnOf(srv, c), r.verdict);
  }

  /** A call that patches nothing leaves the spec alone, only adds to the index, and is accepted
      exactly if its view can be reported. */
  lemma SilentCall(srv: ServerState, c: ClientState, pub: Derivation, r: Round)
    requires Settled(srv, c, pub) && Reify(srv, c, pub, r).2.Reified? && Silent(PlanOf(srv, c, pub, r))
    ensures var (srv', c', o) := Reify(srv, c, pub, r);
      && srv'.spec == srv.spec && c' == c
      && (o.latest <==> CanReport(srv, c))
      && (o.latest ==> InIndex(srv', c))
      && forall other: ClientState | InIndex(srv, other) :: InIndex(srv', other)
  {
    SilentLatest(srv, c, pub, r);
    CallOnServer(srv, c, pub, r);
    FinishAddsOnly(srv, c.id, PlanOf(srv, c, pub, r).view, OwnOf(srv, c), r.verdict);
  }

  lemma SilentLatest(srv: ServerState, c: ClientState, pub: Derivation, r: Round)
    requires Settled(srv, c, pub) && Reify(srv, c, pub, r).2.Reified? && Silent(PlanOf(srv, c, pub, r))
    ensures var (srv', c', o) := Reify(srv, c, pub, r);
      c' == c && (o.latest <==> CanReport(srv, c)) && (o.latest ==> InIndex(srv', c))
  {
    RoundEffect(srv, c, pub, r);
    QuietReport(ViewOf(srv, c), c.id.dev, OwnOf(srv, c), pub(c.key), c.canForward, r.env);
  }

  /** How a view looks after patches by somebody else. */
  ghost predicate Overlooked(v: CensoredNetwork, w: CensoredNetwork, own: nat) {
    && own < |w.devices| == |v.devices|
    && (forall i | 0 <= i < |v.devices| ::
          v.devices[i].name == w.devices[i].name && v.devices[i].addresses == w.devices[i].addresses)
    && w.devices[own].publicKey == v.devices[own].publicKey
    && w.devices[own].accessible == []
  }

  ghost predicate AllQuiet(v: CensoredNetwork) {
    forall i | 0 <= i < |v.devices| :: v.devices[i].accessible == []
  }

  lemma SameIndex(v: CensoredNetwork, w: CensoredNetwork, name: string)
    requires |v.devices| == |w.devices|
    requires forall i | 0 <= i < |v.devices| :: v.devices[i].name == w.devices[i].name
    ensures ViewIndex(v.devices, name) == ViewIndex(w.devices, name)
  {
    var i, j := ViewIndex(v.devices, name), ViewIndex(w.devices, name);
    assert i >= 0 ==> w.devices[i].name == name;
    assert j >= 0 ==> v.devices[j].name == name;
  }

  lemma ClonedOverlooked(v: CensoredNetwork, dev: string, own: nat)
    requires own < |v.devices| && own == ViewIndex(v.devices, dev)
    ensures Overlooked(v, ClonedView(v), own) && ViewIndex(ClonedView(v).devices, dev) == own && AllQuiet(ClonedView(v))
  {
    SameIndex(v, ClonedView(v), dev);
  }

  /** The view after a patch, in the same network, of another device. */
  lemma PatchedOverlooked(v: CensoredNetwork, dev: string, own: nat, other: string, p: PatchRequest)
    requires own < |v.devices| && own == ViewIndex(v.devices, dev) && other != dev
    ensures var w := PatchedView(v, other, p);
      && Overlooked(v, w, own) && ViewIndex(w.devices, dev) == own
      && (p.accessible.None? || p.accessible.value == [] ==> AllQuiet(w))
  {
    var w := PatchedView(v, other, p);
    assert ViewIndex(v.devices, other) != own;
    forall i | 0 <= i < |v.devices|
      ensures w.devices[i].name == v.devices[i].name && w.devices[i].addresses == v.devices[i].addresses
    {
    }
    SameIndex(v, w, dev);
  }

  /** One patch by somebody else. */
  lemma PatchOverlooked(srv: ServerState, id: Identity, p: PatchRequest, c: ClientState)
    requires Sees(srv, c) && c.id != id && ServePatch(srv, id.net, id.dev, p).1 == Done
    ensures var srv' := ServePatch(srv, id.net, id.dev, p).0;
      && Sees(srv', c)
      && Overlooked(ViewOf(srv, c), ViewOf(srv', c), OwnOf(srv, c))
      && OwnOf(srv', c) == OwnOf(srv, c)
      && (p.accessible.None? || p.accessible.value == [] ==> AllQuiet(ViewOf(srv', c)))
  {
    PatchViews(srv.spec, id.net, id.dev, p, c.id.net, c.id.dev);
    if c.id.net == id.net {
      PatchedOverlooked(ViewOf(srv, c), c.id.dev, OwnOf(srv, c), id.dev, p);
    } else {
      ClonedOverlooked(ViewOf(srv, c), c.id.dev, OwnOf(srv, c));
    }
  }

  lemma SendOverlooked(srv: ServerState, id: Identity, p: Option<PatchRequest>, c: ClientState)
    requires Sees(srv, c) && c.id != id && p.Some? && Send(srv, id, p).1 == Done
    ensures var srv' := Send(srv, id, p).0;
      && Sees(srv', c)
      && Overlooked(ViewOf(srv, c), ViewOf(srv', c), OwnOf(srv, c))
      && OwnOf(srv', c) == OwnOf(srv, c)
      && (p.value.accessible.None? || p.value.accessible.value == [] ==> AllQuiet(ViewOf(srv', c)))
  {
    PatchOverlooked(srv, id, p.value, c);
  }

  /** A call by somebody else: nothing happens to a client, or its view looks as after a patch. */
  lemma CallOverlooked(srv: ServerState, caller: ClientState, pub: Derivation, r: Round, c: ClientState)
    requires Sees(srv, caller) && Reify(srv, caller, pub, r).2.Reified?
    requires Sees(srv, c) && c.id != caller.id
    ensures var srv' := Reify(srv, caller, pub, r).0;
      && Sees(srv', c)
      && OwnOf(srv', c) == OwnOf(srv, c)
      && if Silent(PlanOf(srv, caller, pub, r)) then srv'.spec == srv.spec
         else && Overlooked(ViewOf(srv, c), ViewOf(srv', c), OwnOf(srv, c))
              && (!caller.canForward ==> AllQuiet(ViewOf(srv', c)))
  {
    var p := PlanOf(srv, caller, pub, r);
    CallOnSpec(srv, caller, pub, r);
    PlanShape(ViewOf(srv, caller), OwnOf(srv, caller), pub(KeyInUse(caller, r)), caller.canForward, r.env);
    assert !caller.canForward ==> p.view.devices[OwnOf(srv, caller)].accessible == [];
    var srv1 := srv;
    if p.keyPatch.Some? {
      SendOverlooked(srv, caller.id, p.keyPatch, c);
      srv1 := Send(srv, caller.id, p.keyPatch).0;
    }
    if p.accessPatch.Some? {
      SendOverlooked(srv1, caller.id, p.accessPatch, c);
    }
  }

  /** Whether a view can be reported does not depend on anybody's calls. */
  lemma ReportableStays(srv: ServerState, srv': ServerState, c: ClientState)
    requires Sees(srv, c) && Sees(srv', c) && OwnOf(srv', c) == OwnOf(srv, c)
    requires var v, w := ViewOf(srv, c), ViewOf(srv', c);
      |v.devices| == |w.devices| && forall i | 0 <= i < |v.devices| :: v.devices[i].addresses == w.devices[i].addresses
    ensures CanReport(srv', c) == CanReport(srv, c)
  {
  }

  /** What a call by somebody else keeps of a client's standing. */
  lemma OtherKeeps(srv: ServerState, caller: ClientState, pub: Derivation, r: Round, c: ClientState,
                   ping: (nat, nat) -> bool)
    requires Sees(srv, caller) && Reify(srv, caller, pub, r).2.Reified?
    requires Sees(srv, c) && c.id != caller.id
    ensures var srv' := Reify(srv, caller, pub, r).0;
      && Sees(srv', c)
      && CanReport(srv', c) == CanReport(srv, c)
      && (Settled(srv, c, pub) ==> Settled(srv', c, pub))
      && (NearlySteady(srv, c, pub, ping) && !(c.canForward && caller.canForward) ==> NearlySteady(srv', c, pub, ping))
      && (Calm(srv, c, pub, ping) && Silent(PlanOf(srv, caller, pub, r)) ==> Calm(srv', c, pub, ping))
  {
    var srv' := Reify(srv, caller, pub, r).0;
    CallOverlooked(srv, caller, pub, r, c);
    if Silent(PlanOf(srv, caller, pub, r)) {
      SameSpecSameStanding(srv, srv', c, pub, ping);
    } else {
      ReportableStays(srv, srv', c);
    }
  }

  lemma SameSpecSameStanding(srv: ServerState, srv': ServerState, c: ClientState, pub: Derivation,
                             ping: (nat, nat) -> bool)
    requires srv'.spec == srv.spec && Sees(srv, c)
    ensures Sees(srv', c) && CanReport(srv', c) == CanReport(srv, c)
    ensures Settled(srv', c, pub) <==> Settled(srv, c, pub)
    ensures NearlySteady(srv', c, pub, ping) <==> NearlySteady(srv, c, pub, ping)
    ensures Calm(srv', c, pub, ping) <==> Calm(srv, c, pub, ping)
  {
    assert ViewOf(srv', c) == ViewOf(srv, c);
  }

  /** What a client's own call does to its view. */
  lemma OwnCallView(srv: ServerState, c: ClientState, pub: Derivation, r: Round)
    requires Sees(srv, c) && Reify(srv, c, pub, r).2.Reified?
    ensures var (srv', c', o) := Reify(srv, c, pub, r);
      var p := PlanOf(srv, c, pub, r);
      && c' == c.(key := KeyInUse(c, r))
      && CurrentView(srv'.spec, c.id.net, c.id.dev) == Some(AfterPatches(ViewOf(srv, c), c.id.dev, p))
      && PlanLeaves(ViewOf(srv, c), AfterPatches(ViewOf(srv, c), c.id.dev, p), c.id.dev, OwnOf(srv, c), pub(c'.key), p)
  {
    RoundEffect(srv, c, pub, r);
    AfterPatchesShape(ViewOf(srv, c), c.id.dev, OwnOf(srv, c), pub(KeyInUse(c, r)), c.canForward, r.env);
  }

  /** And to its standing. */
  lemma OwnCall(srv: ServerState, c: ClientState, pub: Derivation, r: Round)
    requires Sees(srv, c) && Reify(srv, c, pub, r).2.Reified? && (c.key == UNSET_KEY ==> r.newKey != UNSET_KEY)
    ensures var (srv', c', o) := Reify(srv, c, pub, r);
      && c' == c.(key := KeyInUse(c, r))
      && Settled(srv', c', pub)
      && CanReport(srv', c') == CanReport(srv, c)
      && OwnOf(srv', c') == OwnOf(srv, c)
      && PlanLeaves(ViewOf(srv, c), ViewOf(srv', c'), c.id.dev, OwnOf(srv, c), pub(c'.key), PlanOf(srv, c, pub, r))
  {
    OwnCallView(srv, c, pub, r);
    if !c.canForward {
      OwnListCleared(ViewOf(srv, c), c.id.dev, OwnOf(srv, c), pub(KeyInUse(c, r)), r.env);
    }
    LeavesSettled(srv, Reify(srv, c, pub, r).0, c, Reify(srv, c, pub, r).1, pub, PlanOf(srv, c, pub, r));
  }

  lemma LeavesSettled(srv: ServerState, srv': ServerState, c: ClientState, c': ClientState, pub: Derivation, p: Plan)
    requires Sees(srv, c) && CurrentView(srv'.spec, c.id.net, c.id.dev).Some?
    requires c'.id == c.id && c'.canForward == c.canForward && c'.key != UNSET_KEY
    requires OwnOf(srv, c) < |p.view.devices|
    requires var w := CurrentView(srv'.spec, c.id.net, c.id.dev).value;
      && PlanLeaves(ViewOf(srv, c), w, c.id.dev, OwnOf(srv, c), pub(c'.key), p)
      && (!c.canForward ==> w.devices[OwnOf(srv, c)].accessible == [])
    ensures Settled(srv', c', pub) && CanReport(srv', c') == CanReport(srv, c) && OwnOf(srv', c') == OwnOf(srv, c)
  {
    ReportableStays(srv, srv', c);
  }

  lemma OwnListCleared(v: CensoredNetwork, dev: string, own: nat, publicKey: Key, env: Surroundings)
    requires own < |v.devices| && own == ViewIndex(v.devices, dev)
    ensures AfterPatches(v, dev, MakePlan(v, own, publicKey, false, env)).devices[own].accessible == []
  {
    var p := MakePlan(v, own, publicKey, false, env);
    PlanShape(v, own, publicKey, false, env);
    var v1 := AfterPatchesBy(v, dev, own, p);
  }

  /** After any call of its own a client is nearly steady. */
  lemma OwnCallSettles(srv: ServerState, c: ClientState, pub: Derivation, r: Round, ping: (nat, nat) -> bool)
    requires Sees(srv, c) && Reify(srv, c, pub, r).2.Reified? && (c.key == UNSET_KEY ==> r.newKey != UNSET_KEY)
    requires c.canForward ==> r.env.ping == ping
    ensures var (srv', c', _) := Reify(srv, c, pub, r);
      && NearlySteady(srv', c', pub, ping)
      && CanReport(srv', c') == CanReport(srv, c)
  {
    var (srv', c', _) := Reify(srv, c, pub, r);
    OwnCall(srv, c, pub, r);
    var p := PlanOf(srv, c, pub, r);
    if c.canForward && Silent(p) {
      var v, own := ViewOf(srv, c), OwnOf(srv, c);
      PlanShape(v, own, pub(c'.key), true, r.env);
      SteadyByOne(srv', c', pub, r.env);
    }
  }

  /** One list that is as planned makes them all so. */
  lemma SteadyByOne(srv: ServerState, c: ClientState, pub: Derivation, env: Surroundings)
    requires Sees(srv, c)
    requires var v, own := ViewOf(srv, c), OwnOf(srv, c);
      PlannedList(v, own, pub(c.key), c.canForward, env) == v.devices[own].accessible
    ensures Steady(srv, c, pub, env.ping)
  {
    var v, own := ViewOf(srv, c), OwnOf(srv, c);
    forall e: Surroundings | e.ping == env.ping
      ensures PlannedList(v, own, pub(c.key), c.canForward, e) == v.devices[own].accessible
    {
      SameList(v, v, own, pub(c.key), c.canForward, e, env);
    }
  }

  /** If the key is right, and the others announce nothing or the list is right, then after the
      patch, if any, the list is the one that would be planned again. */
  lemma ListLasts(v: CensoredNetwork, w: CensoredNetwork, dev: string, own: nat, publicKey: Key, env: Surroundings)
    requires own < |v.devices| && v.devices[own].publicKey == publicKey
    requires PlanLeaves(v, w, dev, own, publicKey, MakePlan(v, own, publicKey, true, env))
    requires OthersQuiet(v, own) || v.devices[own].accessible == PlannedList(v, own, publicKey, true, env)
    ensures own < |w.devices| && PlannedList(w, own, publicKey, true, env) == w.devices[own].accessible
  {
    PlanShape(v, own, publicKey, true, env);
    SameList(v, w, own, publicKey, true, env, env);
  }

  /** After the second one it is calm. */
  lemma OwnCallCalms(srv: ServerState, c: ClientState, pub: Derivation, r: Round, ping: (nat, nat) -> bool)
    requires NearlySteady(srv, c, pub, ping) && Reify(srv, c, pub, r).2.Reified?
    requires c.canForward ==> r.env.ping == ping
    ensures var (srv', c', _) := Reify(srv, c, pub, r);
      && Calm(srv', c', pub, ping)
      && CanReport(srv', c') == CanReport(srv, c)
  {
    var (srv', c', _) := Reify(srv, c, pub, r);
    OwnCall(srv, c, pub, r);
    if c.canForward {
      ListLasts(ViewOf(srv, c), ViewOf(srv', c'), c.id.dev, OwnOf(srv, c), pub(c.key), r.env);
      SteadyByOne(srv', c', pub, r.env);
    }
  }

  // ----- what one call does to everybody -----

  /** Where a client stands. */
  datatype Standing = Standing(
    id: Identity,
    forwards: bool,
    sees: bool,
    able: bool,  // to report
    near: bool,
    calm: bool,
    indexed: bool)

  ghost function StandingOf(srv: ServerState, c: ClientState, pub: Derivation, ping: (nat, nat) -> bool): Standing {
    Standing(c.id, c.canForward, Sees(srv, c), CanReport(srv, c), NearlySteady(srv, c, pub, ping),
             Calm(srv, c, pub, ping), InIndex(srv, c))
  }

  ghost function Standings(g: Group, pub: Derivation, ping: (nat, nat) -> bool): (ss: seq<Standing>)
    ensures |ss| == |g.clients|
    ensures forall k | 0 <= k < |ss| :: ss[k] == StandingOf(g.srv, g.clients[k], pub, ping)
  {
    seq(|g.clients|, k requires 0 <= k < |g.clients| => StandingOf(g.srv, g.clients[k], pub, ping))
  }

  /** Different devices that see themselves, at most one of which can forward. */
  ghost predicate Fit(ss: seq<Standing>) {
    && (forall i, j | 0 <= i < j < |ss| :: ss[i].id != ss[j].id)
    && (forall i, j | 0 <= i < |ss| && 0 <= j < |ss| && ss[i].forwards && ss[j].forwards :: i == j)
    && (forall k | 0 <= k < |ss| :: ss[k].sees)
  }

  /** What a call of somebody does to the standing of a client. In particular, a calm one stays calm
      when a nearly steady one calls: only the forwarder has anything left to patch. */
  predicate MovesTo(s: Standing, s': Standing, calls: bool, callerNear: bool) {
    && s'.id == s.id && s'.forwards == s.forwards && s'.sees && s'.able == s.able
    && (calls || s.near ==> s'.near)
    && (callerNear && (calls || s.calm) ==> s'.calm)
  }

  lemma CallerMoves(g: Group, g': Group, pub: Derivation, ping: (nat, nat) -> bool, r: Round, n: nat)
    requires CallsWell(g, g', n, pub, ping, r) && Sees(g.srv, g.clients[n])
    ensures MovesTo(StandingOf(g.srv, g.clients[n], pub, ping), StandingOf(g'.srv, g'.clients[n], pub, ping), true,
                    NearlySteady(g.srv, g.clients[n], pub, ping))
  {
    OwnCall(g.srv, g.clients[n], pub, r);
    OwnCallSettles(g.srv, g.clients[n], pub, r, ping);
    if NearlySteady(g.srv, g.clients[n], pub, ping) {
      OwnCallCalms(g.srv, g.clients[n], pub, r, ping);
    }
  }

  lemma OtherMoves(g: Group, g': Group, pub: Derivation, ping: (nat, nat) -> bool, r: Round, n: nat, k: nat)
    requires CallsWell(g, g', n, pub, ping, r) && Sees(g.srv, g.clients[n])
    requires k < |g.clients| && Sees(g.srv, g.clients[k]) && g.clients[k].id != g.clients[n].id
    requires !(g.clients[k].canForward && g.clients[n].canForward)
    ensures MovesTo(StandingOf(g.srv, g.clients[k], pub, ping), StandingOf(g'.srv, g'.clients[k], pub, ping), false,
                    NearlySteady(g.srv, g.clients[n], pub, ping))
  {
    if NearlySteady(g.srv, g.clients[n], pub, ping) && !g.clients[n].canForward {
      CalmIsSilent(g.srv, g.clients[n], pub, ping, r);
    }
    OtherKeeps(g.srv, g.clients[n], pub, r, g.clients[k], ping);
  }

  /** What a call of client `n` with outcome `o` does. */
  ghost predicate CallDoes(ss: seq<Standing>, ss': seq<Standing>, n: nat, o: DeviceClient.Outcome) {
    && n < |ss| == |ss'|
    && (Fit(ss) ==> forall k | 0 <= k < |ss| :: MovesTo(ss[k], ss'[k], k == n, ss[n].near))
    && (Fit(ss) && ss[n].calm ==>
          && o == Reified(ss[n].able)
          && (ss[n].able ==> ss'[n].indexed)
          && forall k | 0 <= k < |ss| && ss[k].indexed :: ss'[k].indexed)
  }

  lemma CallMoves(g: Group, g': Group, n: nat, pub: Derivation, ping: (nat, nat) -> bool, r: Round)
    requires CallsWell(g, g', n, pub, ping, r) && Fit(Standings(g, pub, ping))
    ensures var ss, ss' := Standings(g, pub, ping), Standings(g', pub, ping);
      |ss| == |ss'| && forall k | 0 <= k < |ss| :: MovesTo(ss[k], ss'[k], k == n, ss[n].near)
  {
    var ss, ss' := Standings(g, pub, ping), Standings(g', pub, ping);
    forall k | 0 <= k < |ss| ensures MovesTo(ss[k], ss'[k], k == n, ss[n].near) {
      assert ss[k].sees && ss[n].sees;
      if k == n {
        CallerMoves(g, g', pub, ping, r, n);
      } else {
        assert ss[k].id != ss[n].id && !(ss[k].forwards && ss[n].forwards);
        OtherMoves(g, g', pub, ping, r, n, k);
      }
    }
  }

  lemma CalmCall(g: Group, g': Group, n: nat, pub: Derivation, ping: (nat, nat) -> bool, r: Round)
    requires CallsWell(g, g', n, pub, ping, r) && Calm(g.srv, g.clients[n], pub, ping)
    ensures OutcomeAt(g, pub, r, n) == Reified(CanReport(g.srv, g.clients[n]))
    ensures g'.clients == g.clients
    ensures CanReport(g.srv, g.clients[n]) ==> InIndex(g'.srv, g.clients[n])
    ensures forall c: ClientState | InIndex(g.srv, c) :: InIndex(g'.srv, c)
  {
    CalmIsSilent(g.srv, g.clients[n], pub, ping, r);
    SilentCall(g.srv, g.clients[n], pub, r);
  }

  lemma CallDone(g: Group, g': Group, n: nat, pub: Derivation, ping: (nat, nat) -> bool, r: Round)
    requires CallsWell(g, g', n, pub, ping, r)
    ensures CallDoes(Standings(g, pub, ping), Standings(g', pub, ping), n, OutcomeAt(g, pub, r, n))
  {
    var ss, ss' := Standings(g, pub, ping), Standings(g', pub, ping);
    assert ss[n] == StandingOf(g.srv, g.clients[n], pub, ping);
    if Fit(ss) {
      CallMoves(g, g', n, pub, ping, r);
      if ss[n].calm {
        CalmCall(g, g', n, pub, ping, r);
        forall k | 0 <= k < |ss| && ss[k].indexed ensures ss'[k].indexed {
          assert InIndex(g.srv, g.clients[k]);
        }
      }
    }
  }

  // ----- rounds -----

  ghost predicate RoundDoes(sss: seq<seq<Standing>>, os: seq<DeviceClient.Outcome>) {
    && |sss| == |os| + 1
    && |sss[0]| == |os|
    && forall k | 0 <= k < |os| :: CallDoes(sss[k], sss[k+1], k, os[k])
  }

  /** The same devices with the same prospects. */
  ghost predicate SameDevices(ss: seq<Standing>, ss': seq<Standing>) {
    && |ss'| == |ss|
    && forall k | 0 <= k < |ss| ::
         ss'[k].id == ss[k].id && ss'[k].forwards == ss[k].forwards && ss'[k].sees == ss[k].sees
         && ss'[k].able == ss[k].able
  }

  ghost predicate Near(ss: seq<Standing>, n: nat) { forall k | 0 <= k < n && k < |ss| :: ss[k].near }

  ghost predicate AtRest(ss: seq<Standing>, n: nat) { forall k | 0 <= k < n && k < |ss| :: ss[k].calm }

  lemma OnceMore(ss0: seq<Standing>, ss: seq<Standing>, ss': seq<Standing>, n: nat, o: DeviceClient.Outcome)
    requires CallDoes(ss, ss', n, o) && Fit(ss0) && SameDevices(ss0, ss)
    ensures SameDevices(ss0, ss')
    ensures Near(ss, n) ==> Near(ss', n + 1)
    ensures Near(ss, |ss|) ==> Near(ss', |ss|) && (AtRest(ss, n) ==> AtRest(ss', n + 1))
  {
    assert Fit(ss);
    assert forall k | 0 <= k < |ss| :: MovesTo(ss[k], ss'[k], k == n, ss[n].near);
  }

  lemma {:induction false} FirstRound(sss: seq<seq<Standing>>, os: seq<DeviceClient.Outcome>, n: nat)
    requires RoundDoes(sss, os) && n <= |os| && Fit(sss[0])
    ensures SameDevices(sss[0], sss[n]) && Near(sss[n], n)
  {
    if n > 0 {
      FirstRound(sss, os, n - 1);
      OnceMore(sss[0], sss[n-1], sss[n], n - 1, os[n-1]);
    }
  }

  lemma {:induction false} SecondRound(sss: seq<seq<Standing>>, os: seq<DeviceClient.Outcome>, n: nat)
    requires RoundDoes(sss, os) && n <= |os| && Fit(sss[0]) && Near(sss[0], |os|)
    ensures SameDevices(sss[0], sss[n]) && Near(sss[n], |os|) && AtRest(sss[n], n)
  {
    if n > 0 {
      SecondRound(sss, os, n - 1);
      OnceMore(sss[0], sss[n-1], sss[n], n - 1, os[n-1]);
    }
  }

  /** Once everybody is calm, every caller is accepted exactly if its view can be reported, and those
      in the index stay in it. */
  lemma {:induction false} ThirdRound(sss: seq<seq<Standing>>, os: seq<DeviceClient.Outcome>, n: nat)
    requires RoundDoes(sss, os) && n <= |os| && Fit(sss[0]) && Near(sss[0], |os|) && AtRest(sss[0], |os|)
    ensures SameDevices(sss[0], sss[n]) && Near(sss[n], |os|) && AtRest(sss[n], |os|)
    ensures forall k | 0 <= k < n :: os[k] == Reified(sss[0][k].able) && (sss[0][k].able ==> sss[n][k].indexed)
  {
    if n > 0 {
      ThirdRound(sss, os, n - 1);
      RestLasts(sss[n-1], sss[n], n - 1, os[n-1]);
      OnceMore(sss[0], sss[n-1], sss[n], n - 1, os[n-1]);
    }
  }

  lemma RestLasts(ss: seq<Standing>, ss': seq<Standing>, n: nat, o: DeviceClient.Outcome)
    requires CallDoes(ss, ss', n, o) && Fit(ss) && Near(ss, |ss|) && AtRest(ss, |ss|)
    ensures AtRest(ss', |ss|)
    ensures o == Reified(ss[n].able) && (ss[n].able ==> ss'[n].indexed)
    ensures forall k | 0 <= k < |ss| && ss[k].indexed :: ss'[k].indexed
  {
    assert forall k | 0 <= k < |ss| :: MovesTo(ss[k], ss'[k], k == n, ss[n].near);
  }

  /** The standings and the outcomes of a round. */
  ghost function AllStandings(gs: seq<Group>, pub: Derivation, ping: (nat, nat) -> bool): seq<seq<Standing>> {
    seq(|gs|, k requires 0 <= k < |gs| => Standings(gs[k], pub, ping))
  }

  function Outcomes(gs: seq<Group>, pub: Derivation, rs: seq<Round>): seq<DeviceClient.Outcome>
    requires |gs| == |rs| + 1
  {
    seq(|rs|, k requires 0 <= k < |rs| => OutcomeAt(gs[k], pub, rs[k], k))
  }

  lemma RoundDone(gs: seq<Group>, pub: Derivation, ping: (nat, nat) -> bool, rs: seq<Round>)
    requires GoodRound(gs, pub, ping, rs)
    ensures RoundDoes(AllStandings(gs, pub, ping), Outcomes(gs, pub, rs))
  {
    forall k | 0 <= k < |rs|
      ensures CallDoes(Standings(gs[k], pub, ping), Standings(gs[k+1], pub, ping), k, OutcomeAt(gs[k], pub, rs[k], k))
    {
      CallDone(gs[k], gs[k+1], k, pub, ping, rs[k]);
    }
  }

  /** The first two rounds leave nobody anything to patch, and after the third everybody is served. */
  lemma RoundsServe(s1: seq<seq<Standing>>, s2: seq<seq<Standing>>, s3: seq<seq<Standing>>,
                    os1: seq<DeviceClient.Outcome>, os2: seq<DeviceClient.Outcome>, os3: seq<DeviceClient.Outcome>)
    requires RoundDoes(s1, os1) && RoundDoes(s2, os2) && RoundDoes(s3, os3)
    requires s2[0] == s1[|os1|] && s3[0] == s2[|os2|] && Fit(s1[0])
    ensures |os1| == |os2| == |os3| == |s3[|os3|]|
    ensures forall k | 0 <= k < |os3| ::
      os3[k] == Reified(s1[0][k].able) && (s1[0][k].able ==> s3[|os3|][k].indexed) && s3[|os3|][k].id == s1[0][k].id
  {
    FirstRound(s1, os1, |os1|);
    assert Fit(s2[0]);
    SecondRound(s2, os2, |os1|);
    assert Fit(s3[0]);
    ThirdRound(s3, os3, |os1|);
  }

  lemma StandingsFit(g: Group, pub: Derivation, ping: (nat, nat) -> bool)
    requires OneForwarder(g.clients) && forall k | 0 <= k < |g.clients| :: Sees(g.srv, g.clients[k])
    ensures Fit(Standings(g, pub, ping))
  {
    var ss := Standings(g, pub, ping);
    forall k | 0 <= k < |ss|
      ensures ss[k].sees && ss[k].id == g.clients[k].id && ss[k].forwards == g.clients[k].canForward
    {
      assert ss[k] == StandingOf(g.srv, g.clients[k], pub, ping);
    }
  }

  lemma ServedMeans(start: Group, end: Group, pub: Derivation, ping: (nat, nat) -> bool, k: nat,
                    o: DeviceClient.Outcome)
    requires k < |start.clients| == |end.clients|
    requires var s, s' := Standings(start, pub, ping)[k], Standings(end, pub, ping)[k];
      o == Reified(s.able) && (s.able ==> s'.indexed) && s'.id == s.id
    ensures o == Reified(CanReport(start.srv, start.clients[k]))
    ensures CanReport(start.srv, start.clients[k])
            ==> start.clients[k].id.dev in Entry(end.srv.latest, start.clients[k].id.net)
  {
    assert Standings(start, pub, ping)[k] == StandingOf(start.srv, start.clients[k], pub, ping);
    assert Standings(end, pub, ping)[k] == StandingOf(end.srv, end.clients[k], pub, ping);
  }

  lemma ThreeRoundsServe(gs1: seq<Group>, gs2: seq<Group>, gs3: seq<Group>, pub: Derivation, ping: (nat, nat) -> bool,
                         r1: seq<Round>, r2: seq<Round>, r3: seq<Round>)
    requires GoodRound(gs1, pub, ping, r1) && GoodRound(gs2, pub, ping, r2) && GoodRound(gs3, pub, ping, r3)
    requires gs2[0] == gs1[|r1|] && gs3[0] == gs2[|r2|] && Fit(Standings(gs1[0], pub, ping))
    ensures |r1| == |r2| == |r3| == |gs3[|r3|].clients|
    ensures var os3 := Outcomes(gs3, pub, r3);
      var ss, ss' := Standings(gs1[0], pub, ping), Standings(gs3[|r3|], pub, ping);
      forall k | 0 <= k < |r3| ::
        os3[k] == Reified(ss[k].able) && (ss[k].able ==> ss'[k].indexed) && ss'[k].id == ss[k].id
  {
    RoundDone(gs1, pub, ping, r1);
    RoundDone(gs2, pub, ping, r2);
    RoundDone(gs3, pub, ping, r3);
    RoundsServe(AllStandings(gs1, pub, ping), AllStandings(gs2, pub, ping), AllStandings(gs3, pub, ping),
                Outcomes(gs1, pub, r1), Outcomes(gs2, pub, r2), Outcomes(gs3, pub, r3));
  }

  /** Three rounds without errors, in which the pings of the forwarder, if any, come out alike: in the
      third one every device is told that it is up to date if and only if its view can be reported,
      and all those are in the index when it is over. */
  lemma ThreeRoundsSuffice(gs1: seq<Group>, gs2: seq<Group>, gs3: seq<Group>, pub: Derivation, ping: (nat, nat) -> bool,
                           r1: seq<Round>, r2: seq<Round>, r3: seq<Round>)
    requires GoodRound(gs1, pub, ping, r1) && GoodRound(gs2, pub, ping, r2) && GoodRound(gs3, pub, ping, r3)
    requires gs2[0] == gs1[|r1|] && gs3[0] == gs2[|r2|]
    requires OneForwarder(gs1[0].clients) && forall k | 0 <= k < |r1| :: Sees(gs1[0].srv, gs1[0].clients[k])
    ensures |r1| == |r2| == |r3|
    ensures var start, end, os3 := gs1[0], gs3[|r3|], Outcomes(gs3, pub, r3);
      forall k | 0 <= k < |r3| ::
        && os3[k] == Reified(CanReport(start.srv, start.clients[k]))
        && (CanReport(start.srv, start.clients[k])
            ==> start.clients[k].id.dev in Entry(end.srv.latest, start.clients[k].id.net))
  {
    StandingsFit(gs1[0], pub, ping);
    ThreeRoundsServe(gs1, gs2, gs3, pub, ping, r1, r2, r3);
    var start, end, os3 := gs1[0], gs3[|r3|], Outcomes(gs3, pub, r3);
    forall k | 0 <= k < |r3|
      ensures os3[k] == Reified(CanReport(start.srv, start.clients[k]))
      ensures CanReport(start.srv, start.clients[k])
              ==> start.clients[k].id.dev in Entry(end.srv.latest, start.clients[k].id.net)
    {
      ServedMeans(start, end, pub, ping, k, os3[k]);
    }
  }
}
