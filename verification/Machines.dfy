/** Machines of several networks: what CompileMachine puts together. */
module Machines {
  import opened Prelude
  import opened NetAddr
  import opened Specs
  import opened Compile

  /** An interface for each of the first `n` networks that has the device, in order, and a flag set if any
      of them sets it. */
  ghost predicate Assembles(os: seq<NetworkOutcome>, n: nat, m: Machine, of: seq<nat>)
    requires n <= |os|
  {
    && |of| == |m.interfaces|
    && (forall k | 0 <= k < |of| :: of[k] < n && os[of[k]].Built? && m.interfaces[k] == os[of[k]].iface)
    && (forall j, k | 0 <= j < k < |of| :: of[j] < of[k])
    && (forall i | 0 <= i < n && !os[i].Absent? :: i in of)
    && (m.forwardsIPv4 <==> exists i | 0 <= i < n :: os[i].Built? && os[i].v4)
    && (m.forwardsIPv6 <==> exists i | 0 <= i < n :: os[i].Built? && os[i].v6)
  }

  lemma OneMoreBuilt(os: seq<NetworkOutcome>, n: nat, m: Machine, of: seq<nat>)
    requires n < |os| && Assembles(os, n, m, of) && os[n].Built?
    ensures Assembles(os, n + 1, Machine(m.interfaces + [os[n].iface], m.forwardsIPv4 || os[n].v4,
                                         m.forwardsIPv6 || os[n].v6), of + [n])
  {
    forall i | 0 <= i < n + 1 && !os[i].Absent? ensures i in of + [n] {
      if i < n {
        assert i in of;
      } else {
        assert (of + [n])[|of|] == n;
      }
    }
  }

  lemma OneMoreAbsent(os: seq<NetworkOutcome>, n: nat, m: Machine, of: seq<nat>)
    requires n < |os| && Assembles(os, n, m, of) && os[n].Absent?
    ensures Assembles(os, n + 1, m, of)
  {
  }

  lemma {:induction false} AllAssemble(os: seq<NetworkOutcome>, n: nat) returns (of: seq<nat>)
    requires n <= |os| && AllJoined(os, n).Compiled?
    ensures Assembles(os, n, AllJoined(os, n).machine, of)
    ensures forall i | 0 <= i < n :: !os[i].Broken?
  {
    of := [];
    if n > 0 {
      of := AllAssemble(os, n - 1);
      var m := AllJoined(os, n - 1).machine;
      if os[n-1].Built? {
        OneMoreBuilt(os, n - 1, m, of);
        of := of + [n - 1];
      } else {
        OneMoreAbsent(os, n - 1, m, of);
      }
    }
  }

  lemma {:induction false} FirstBreaks(os: seq<NetworkOutcome>, n: nat) returns (i: nat)
    requires n <= |os| && AllJoined(os, n).Failed?
    ensures i < n && os[i] == Broken(AllJoined(os, n).fault)
    ensures forall j | 0 <= j < i :: !os[j].Broken?
  {
    if AllJoined(os, n - 1).Failed? {
      i := FirstBreaks(os, n - 1);
    } else {
      var of := AllAssemble(os, n - 1);
      i := n - 1;
    }
  }

  /** Of what becomes of each network: a machine has one interface for each that has the device, in their
      order, and the flags of all of them together; the first one that does not compile decides
      otherwise. */
  lemma MachineMeans(vs: seq<CensoredNetwork>, name: string, ignoreIncomplete: bool)
    returns (os: seq<NetworkOutcome>, of: seq<nat>)
    ensures |os| == |vs| && forall i | 0 <= i < |vs| :: os[i] == CompileNetwork(vs[i], name, ignoreIncomplete)
    ensures match CompileSpec(vs, name, ignoreIncomplete)
            case Compiled(m) =>
              && (forall i | 0 <= i < |os| :: !os[i].Broken?)
              && |m.interfaces| == |of|
              && (forall k | 0 <= k < |of| :: of[k] < |os| && os[of[k]].Built? && m.interfaces[k] == os[of[k]].iface)
              && (forall j, k | 0 <= j < k < |of| :: of[j] < of[k])
              && (forall i | 0 <= i < |os| && os[i].Built? :: i in of)
              && (m.forwardsIPv4 <==> exists i | 0 <= i < |os| :: os[i].Built? && os[i].v4)
              && (m.forwardsIPv6 <==> exists i | 0 <= i < |os| :: os[i].Built? && os[i].v6)
            case Failed(f) =>
              exists i | 0 <= i < |os| :: os[i] == Broken(f) && forall j | 0 <= j < i :: !os[j].Broken?
  {
    os := Outcomes(vs, name, ignoreIncomplete);
    of := [];
    if AllJoined(os, |os|).Compiled? {
      of := AllAssemble(os, |os|);
    } else {
      var i := FirstBreaks(os, |os|);
    }
  }
}
