/** chooseEndpoints of device/client.go: pick an endpoint for every other device, and a forwarder
    for those that answer on none. */
module Choosing {
  import opened Prelude
  import opened NetAddr
  import opened Specs
  import opened Resolve
  import opened Compile

  /** The outside world of one call: which pings answer (by device and endpoint index), and the
      random numbers used to pick among forwarders. */
  datatype Surroundings = Surroundings(ping: (nat, nat) -> bool, random: nat -> nat)

  /** PingCommandScorer: 0 for an endpoint that answers, an error for one that does not. */
  function PingVerdicts(env: Surroundings, i: nat, n: nat): (vs: seq<Verdict>)
    ensures |vs| == n
  {
    seq(n, e requires 0 <= e < n => if env.ping(i, e) then Score(0) else Bad)
  }

  lemma PingNeverPanics(env: Surroundings, i: nat, n: nat)
    ensures ChoiceOf(PingVerdicts(env, i, n)) != Choice.Panic
    ensures ChoiceOf(PingVerdicts(env, i, n)).Picked? ==> ChoiceOf(PingVerdicts(env, i, n)).index < n
  {
    ChoiceMeans(PingVerdicts(env, i, n));
  }

  // ----- the first loop -----

  function ChoiceFor(devs: Devices, env: Surroundings, i: nat): Choice
    requires i < |devs|
  {
    ChoiceOf(PingVerdicts(env, i, |devs[i].endpoints|))
  }

  /** A device after its endpoints have been tried. */
  function Tried(devs: Devices, me: nat, env: Surroundings, i: nat): CensoredDevice
    requires i < |devs|
  {
    if i == me || devs[i].chosen || !ChoiceFor(devs, env, i).Picked? then devs[i]
    else devs[i].(endpointIndex := ChoiceFor(devs, env, i).index, chosen := true)
  }

  function AllTried(devs: Devices, me: nat, env: Surroundings): (r: Devices)
    ensures |r| == |devs|
  {
    seq(|devs|, i requires 0 <= i < |devs| => Tried(devs, me, env, i))
  }

  /** needsForwarders, from the first `n` devices. */
  function Needs(devs: Devices, me: nat, env: Surroundings, n: nat): (r: seq<nat>)
    requires n <= |devs|
    ensures forall k | 0 <= k < |r| :: r[k] < n
  {
    if n == 0 then []
    else Needs(devs, me, env, n - 1)
         + (if n - 1 != me && !devs[n-1].chosen && ChoiceFor(devs, env, n - 1).AllBad? then [n - 1] else [])
  }

  // ----- the second loop -----

  function WithForwarder(devs: Devices, env: Surroundings, i: nat): (r: Devices)
    requires i < |devs|
    ensures |r| == |devs|
  {
    var fs := Forwarders(devs, devs[i].name, |devs|);
    if fs == [] then devs[i := devs[i].(chosen := false)]
    else devs[i := devs[i].(forwarderIndex := fs[env.random(i) % |fs|], usesForwarder := true, chosen := true)]
  }

  function WithForwarders(devs: Devices, env: Surroundings, needs: seq<nat>): (r: Devices)
    requires forall k | 0 <= k < |needs| :: needs[k] < |devs|
    ensures |r| == |devs|
  {
    if needs == [] then devs
    else WithForwarder(WithForwarders(devs, env, needs[..|needs|-1]), env, needs[|needs|-1])
  }

  function Choose(devs: Devices, me: nat, env: Surroundings): (r: Devices)
    ensures |r| == |devs|
  {
    WithForwarders(AllTried(devs, me, env), env, Needs(devs, me, env, |devs|))
  }

  /** The first loop of chooseEndpoints. The panic after ChooseEndpoint cannot happen with ping scores. */
  method TryEndpoints(devices: Devices, me: nat, env: Surroundings) returns (devs: Devices, needsForwarders: seq<nat>)
    ensures devs == AllTried(devices, me, env)
    ensures needsForwarders == Needs(devices, me, env, |devices|)
  {
    devs := devices;
    needsForwarders := [];
    for i := 0 to |devices|
      invariant |devs| == |devices|
      invariant forall k | 0 <= k < i :: devs[k] == Tried(devices, me, env, k)
      invariant forall k | i <= k < |devs| :: devs[k] == devices[k]
      invariant needsForwarders == Needs(devices, me, env, i)
    {
      if i == me || devs[i].chosen {
        continue;
      }
      var n := |devs[i].endpoints|;
      var order: seq<nat> := seq(n, e => e);
      forall e | 0 <= e < n ensures e in order {
        assert order[e] == e;
      }
      PingNeverPanics(env, i, n);
      var choice, d := ChooseEndpoint(devs[i], PingVerdicts(env, i, n), order);
      if choice.AllBad? {
        needsForwarders := needsForwarders + [i];
        continue;
      }
      devs := devs[i := d];
    }
  }

  /** The second loop. */
  method AssignForwarders(tried: Devices, env: Surroundings, needsForwarders: seq<nat>) returns (devs: Devices)
    requires forall k | 0 <= k < |needsForwarders| :: needsForwarders[k] < |tried|
    ensures devs == WithForwarders(tried, env, needsForwarders)
  {
    devs := tried;
    for k := 0 to |needsForwarders|
      invariant |devs| == |tried|
      invariant devs == WithForwarders(tried, env, needsForwarders[..k])
    {
      assert needsForwarders[..k+1][..k] == needsForwarders[..k];
      var i := needsForwarders[k];
      var forwarders := GetForwardersFor(devs, devs[i].name);
      if |forwarders| == 0 {
        devs := devs[i := devs[i].(chosen := false)];
        continue;
      }
      var j := env.random(i) % |forwarders|;
      devs := devs[i := devs[i].(forwarderIndex := forwarders[j], usesForwarder := true, chosen := true)];
    }
    assert needsForwarders[..|needsForwarders|] == needsForwarders;
  }

  method ChooseEndpoints(devices: Devices, me: nat, env: Surroundings) returns (devs: Devices)
    ensures devs == Choose(devices, me, env)
  {
    var tried, needsForwarders := TryEndpoints(devices, me, env);
    devs := AssignForwarders(tried, env, needsForwarders);
  }

  // ----- what the choices satisfy -----

  /** A device as it comes from the wire: decoding leaves all choice fields cleared, and addresses
      are read from text. */
  function Wire(d: CensoredDevice): CensoredDevice {
    d.(chosen := false, usesForwarder := false, endpointIndex := 0, forwarderIndex := 0,
       addresses := TextNets(d.addresses))
  }

  /** The forwarder relation is well founded: it steps to chosen devices of smaller rank that
      announced the forwardee, never to the local device; direct choices are in range. */
  ghost predicate Ranked(devs: Devices, me: nat, rank: seq<nat>) {
    && |rank| == |devs|
    && (me < |devs| ==> !devs[me].chosen)
    && forall i | 0 <= i < |devs| && devs[i].chosen ::
         if devs[i].usesForwarder then
           && 0 <= devs[i].forwarderIndex < |devs|
           && devs[i].forwarderIndex != me
           && devs[devs[i].forwarderIndex].chosen
           && devs[i].name in devs[devs[i].forwarderIndex].accessible
           && rank[devs[i].forwarderIndex] < rank[i]
         else 0 <= devs[i].endpointIndex < |devs[i].endpoints|
  }

  /** Apart from the choice fields nothing differs, and the local device not even in these. */
  ghost predicate OnlyChoices(before: Devices, after: Devices, me: nat) {
    && |after| == |before|
    && (forall i | 0 <= i < |before| ::
          after[i].(chosen := false, usesForwarder := false, endpointIndex := 0, forwarderIndex := 0)
          == before[i].(chosen := false, usesForwarder := false, endpointIndex := 0, forwarderIndex := 0))
    && (me < |before| ==> after[me] == before[me])
  }

  ghost predicate Untouched(devs: Devices, me: nat, needs: seq<nat>) {
    && (forall k | 0 <= k < |needs| :: needs[k] < |devs| && needs[k] != me && !devs[needs[k]].chosen)
    && (forall k, l | 0 <= k < l < |needs| :: needs[k] != needs[l])
  }

  lemma {:induction false} NeedsUntouched(devs: Devices, me: nat, env: Surroundings, n: nat)
    requires n <= |devs|
    ensures Untouched(AllTried(devs, me, env), me, Needs(devs, me, env, n))
  {
    if n > 0 {
      NeedsUntouched(devs, me, env, n - 1);
    }
  }

  lemma RankStep(devs: Devices, me: nat, env: Surroundings, i: nat, rank: seq<nat>, bound: nat)
    returns (rank': seq<nat>)
    requires i < |devs| && i != me && !devs[i].chosen
    requires Ranked(devs, me, rank) && forall k | 0 <= k < |rank| :: rank[k] <= bound
    ensures Ranked(WithForwarder(devs, env, i), me, rank')
    ensures forall k | 0 <= k < |rank'| :: rank'[k] <= bound + 1
    ensures OnlyChoices(devs, WithForwarder(devs, env, i), me)
    ensures forall k | 0 <= k < |devs| && k != i :: WithForwarder(devs, env, i)[k] == devs[k]
  {
    rank' := rank[i := bound + 1];
    var fs := Forwarders(devs, devs[i].name, |devs|);
    var r := WithForwarder(devs, env, i);
    if fs != [] {
      var f := fs[env.random(i) % |fs|];
      assert CanForwardFor(devs, f, devs[i].name);
      assert f != i && f != me;
    }
  }

  lemma {:induction false} RankAll(devs: Devices, me: nat, env: Surroundings, needs: seq<nat>)
    returns (rank: seq<nat>)
    requires Ranked(devs, me, seq(|devs|, _ => 0)) && Untouched(devs, me, needs)
    ensures var r := WithForwarders(devs, env, needs);
      && Ranked(r, me, rank)
      && OnlyChoices(devs, r, me)
      && (forall k | 0 <= k < |rank| :: rank[k] <= |needs|)
      && (forall i | 0 <= i < |devs| && i !in needs :: r[i] == devs[i])
  {
    if needs == [] {
      rank := seq(|devs|, _ => 0);
    } else {
      var front, i := needs[..|needs|-1], needs[|needs|-1];
      var rank0 := RankAll(devs, me, env, front);
      var mid := WithForwarders(devs, env, front);
      assert i !in front;
      rank := RankStep(mid, me, env, i, rank0, |front|);
      assert forall k | 0 <= k < |devs| && k !in needs :: k !in front && k != i;
    }
  }

  /** On a freshly decoded view the chosen forwarders form an acyclic relation; this is so for
      every outcome of the pings and every random choice. */
  lemma ForwardersRanked(devs: Devices, me: nat, env: Surroundings)
    requires forall i | 0 <= i < |devs| :: devs[i] == Wire(devs[i])
    ensures exists rank :: Ranked(Choose(devs, me, env), me, rank)
    ensures OnlyChoices(devs, Choose(devs, me, env), me)
  {
    var tried := AllTried(devs, me, env);
    var needs := Needs(devs, me, env, |devs|);
    TriedRanked(devs, me, env);
    NeedsUntouched(devs, me, env, |devs|);
    var rank := RankAll(tried, me, env, needs);
    assert Ranked(Choose(devs, me, env), me, rank);
    TwiceOnlyChoices(devs, tried, Choose(devs, me, env), me);
  }

  lemma TriedRanked(devs: Devices, me: nat, env: Surroundings)
    requires forall i | 0 <= i < |devs| :: devs[i] == Wire(devs[i])
    ensures Ranked(AllTried(devs, me, env), me, seq(|devs|, _ => 0))
    ensures OnlyChoices(devs, AllTried(devs, me, env), me)
  {
    var tried := AllTried(devs, me, env);
    forall i | 0 <= i < |devs| && tried[i].chosen
      ensures !tried[i].usesForwarder && 0 <= tried[i].endpointIndex < |tried[i].endpoints|
    {
      assert devs[i] == Wire(devs[i]);
      PingNeverPanics(env, i, |devs[i].endpoints|);
    }
    if me < |devs| {
      assert devs[me] == Wire(devs[me]);
    }
  }

  lemma TwiceOnlyChoices(a: Devices, b: Devices, c: Devices, me: nat)
    requires OnlyChoices(a, b, me) && OnlyChoices(b, c, me)
    ensures OnlyChoices(a, c, me)
  {
  }

  /** The device at the end of a chain of forwarders: directly reachable, and not the local one. */
  ghost function ChainEnd(devs: Devices, me: nat, rank: seq<nat>, i: nat): (e: nat)
    requires i < |devs| && Ranked(devs, me, rank) && devs[i].chosen
    ensures e < |devs| && e != me && devs[e].chosen && !devs[e].usesForwarder
    ensures 0 <= devs[e].endpointIndex < |devs[e].endpoints|
    decreases rank[i]
  {
    if devs[i].usesForwarder then ChainEnd(devs, me, rank, devs[i].forwarderIndex) else i
  }

  /** After the choices, the peer loop of the compiler meets no index out of range and never the
      forwarder without a choice that it guards against: its only fault is an unset key. */
  lemma ChoicesCompile(devs: Devices, me: nat, env: Surroundings, ignoreIncomplete: bool, i: nat)
    requires forall i | 0 <= i < |devs| :: devs[i] == Wire(devs[i])
    requires i < |devs|
    ensures var r := Choose(devs, me, env);
      && IndexesInRange(r, me)
      && (Forwarded(r, i)
        ==> 0 <= r[i].forwarderIndex < |r| && r[i].forwarderIndex != me && r[r[i].forwarderIndex].chosen)
      && FaultAt(r, me, ignoreIncomplete, i)
         == if i != me && !Keyed(r, i) && !ignoreIncomplete then Some(Incomplete) else None
  {
    ForwardersRanked(devs, me, env);
  }
}
