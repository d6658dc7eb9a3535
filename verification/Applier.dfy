/** ApplyMachine of goal/apply_linux.go over the abstract kernel: which interfaces it creates and
    updates, when it succeeds, and what a second run does. */
module Appliers {
  import opened Prelude
  import opened Orders
  import opened NetAddr
  import opened SetOps
  import opened Kernels
  import opened Apply

  /** What a machine asks of one interface. */
  datatype Want = Want(name: string, config: Option<Config>, addresses: multiset<IPNet>, routes: multiset<IPNet>)

  function ConfigFor(out: Outside, i: Interface): Option<Config> {
    Configuration(out, i.name, i.privateKey, i.listenPort, i.peers)
  }

  ghost function Wants(m: Machine, out: Outside): (w: seq<Want>)
    reads set i | 0 <= i < |m.interfaces| :: m.interfaces[i].addresses
    ensures |w| == |m.interfaces|
  {
    seq(|m.interfaces|, i requires 0 <= i < |m.interfaces|
                          reads set k | 0 <= k < |m.interfaces| :: m.interfaces[k].addresses =>
      Want(m.interfaces[i].name, ConfigFor(out, m.interfaces[i]), multiset(m.interfaces[i].addresses[..]),
           multiset(Routed(m.interfaces[i].peers))))
  }

  function Names(m: Machine): seq<string> {
    Map((i: Interface) => i.name, m.interfaces)
  }

  ghost predicate DistinctNames(ws: seq<Want>) {
    forall i, j | 0 <= i < j < |ws| :: ws[i].name != ws[j].name
  }

  ghost predicate Named(ws: seq<Want>, name: string) {
    exists i | 0 <= i < |ws| :: ws[i].name == name
  }

  /** The link as it is, or as it will be created. */
  function LinkOf(links: map<string, Link>, name: string): Link {
    if name in links then links[name] else NEW_LINK
  }

  /** What an interface makes of its link. */
  function Goal(l: Link, w: Want): Link {
    Link(Elements(w.addresses), Elements(w.routes), true,
         if w.config.Some? then l.wireGuard.With(w.config.value) else l.wireGuard)
  }

  /** Can the kernel be brought to the goal? Only managed interfaces that the machine has, short
      enough names for new links, endpoints that resolve and configurations that WireGuard takes, and
      nothing missing that is asked for twice. */
  ghost predicate Drivable(links: map<string, Link>, managed: seq<string>, ws: seq<Want>) {
    && ShortNames(links, ws)
    && GoalsReachable(links, managed, ws)
  }

  ghost predicate ShortNames(links: map<string, Link>, ws: seq<Want>) {
    forall i | 0 <= i < |ws| && ws[i].name !in links :: |ws[i].name| <= 15
  }

  ghost predicate GoalsReachable(links: map<string, Link>, managed: seq<string>, ws: seq<Want>) {
    && (forall n | n in managed :: Named(ws, n))
    && (forall i | 0 <= i < |ws| :: CanReach(LinkOf(links, ws[i].name), ws[i]))
  }

  predicate CanReach(l: Link, w: Want) {
    w.config.Some? && LinkReachable(l, w.addresses, w.routes)
  }

  /** Every interface of the machine exists, is up and configured, and has exactly the wanted tables. */
  ghost predicate AtGoal(before: map<string, Link>, after: map<string, Link>, ws: seq<Want>) {
    forall i | 0 <= i < |ws| ::
      ws[i].name in after && after[ws[i].name] == Goal(LinkOf(before, ws[i].name), ws[i])
  }

  /** Nothing but the machine's interfaces has changed. */
  ghost predicate OthersAlone(before: map<string, Link>, after: map<string, Link>, ws: seq<Want>) {
    && (forall n | n in after :: n in before || Named(ws, n))
    && (forall n | n in before :: n in after && (!Named(ws, n) ==> after[n] == before[n]))
  }

  /** What even an application that fails leaves alone: other links, and the tables that were at
      their goals. */
  ghost predicate Kept(before: map<string, Link>, after: map<string, Link>, ws: seq<Want>) {
    && OthersAlone(before, after, ws)
    && (forall i | 0 <= i < |ws| && ws[i].name in before ::
          LinkKept(before[ws[i].name], after[ws[i].name], ws[i].addresses, ws[i].routes))
  }

  lemma KeptTrans(a: map<string, Link>, b: map<string, Link>, c: map<string, Link>, ws: seq<Want>)
    requires Kept(a, b, ws) && Kept(b, c, ws)
    ensures Kept(a, c, ws)
  {
  }

  lemma MultisetMembers<T>(s: seq<T>, x: T)
    ensures x in s <==> multiset(s)[x] > 0
  {
    assert x in s <==> x in multiset(s);
  }

  lemma SamePermutation<T>(s: seq<T>, t: seq<T>)
    requires multiset(s) == multiset(t)
    ensures forall x :: x in s <==> x in t
  {
    forall x ensures x in s <==> x in t {
      MultisetMembers(s, x);
      MultisetMembers(t, x);
    }
  }

  /** setDifference on names, in copies of the slices: the difference, and the slices as they
      are left. */
  method NamesWithout(a: seq<string>, b: seq<string>) returns (d: seq<string>, a': seq<string>, b': seq<string>)
    ensures forall n :: multiset(d)[n] == if n in b then 0 else multiset(a)[n]
    ensures multiset(a') == multiset(a) && multiset(b') == multiset(b)
  {
    var x := new string[|a|](i requires 0 <= i < |a| => a[i]);
    var y := new string[|b|](i requires 0 <= i < |b| => b[i]);
    assert x[..] == a && y[..] == b;
    StringLessTotal();
    d := SetDifference(x, y, StringLess);
    a', b' := x[..], y[..];
    NamesWithoutMeans(x[..], y[..], a, b);
  }

  lemma NamesWithoutMeans(x: seq<string>, y: seq<string>, a: seq<string>, b: seq<string>)
    requires multiset(x) == multiset(a) && multiset(y) == multiset(b)
    ensures forall n :: multiset(Without(StringLess, x, y))[n] == if n in b then 0 else multiset(a)[n]
  {
    StringLessTotal();
    SamePermutation(y, b);
    forall n ensures multiset(Without(StringLess, x, y))[n] == if n in b then 0 else multiset(a)[n] {
      DifferenceElements(StringLess, x, y, n);
    }
  }

  /** setIntersection on names. */
  method NamesWithin(a: seq<string>, b: seq<string>) returns (d: seq<string>)
    ensures forall n :: n in d <==> n in a && n in b
  {
    var x := new string[|a|](i requires 0 <= i < |a| => a[i]);
    var y := new string[|b|](i requires 0 <= i < |b| => b[i]);
    assert x[..] == a && y[..] == b;
    StringLessTotal();
    d := SetIntersection(x, y, StringLess);
    NamesWithinMeans(x[..], y[..], a, b, d);
  }

  lemma NamesWithinMeans(x: seq<string>, y: seq<string>, a: seq<string>, b: seq<string>, d: seq<string>)
    requires multiset(x) == multiset(a) && multiset(y) == multiset(b)
    requires forall n ::
      Occurrences(StringLess, n, d) == Min(Occurrences(StringLess, n, x), Occurrences(StringLess, n, y))
    ensures forall n :: n in d <==> n in a && n in b
  {
    StringLessTotal();
    forall n ensures n in d <==> n in a && n in b {
      OccurrencesTotal(StringLess, n, d);
      OccurrencesTotal(StringLess, n, x);
      OccurrencesTotal(StringLess, n, y);
      MultisetMembers(d, n);
      MultisetMembers(a, n);
      MultisetMembers(b, n);
    }
  }

  class Applier {
    var managedInterfaces: seq<string>
    const readWriteProc: bool

    constructor (managedInterfaces: seq<string>, readWriteProc: bool)
      ensures this.managedInterfaces == managedInterfaces && this.readWriteProc == readWriteProc
    {
      this.managedInterfaces := managedInterfaces;
      this.readWriteProc := readWriteProc;
    }

    /** The set operations at the start of ApplyMachine. The managed interfaces are sorted, and
        grow by those of the machine that were missing. */
    method PlanInterfaces(names: seq<string>, devices: seq<string>)
      returns (deleted: seq<string>, created: seq<string>)
      modifies this`managedInterfaces
      ensures forall n :: n in managedInterfaces <==> n in old(managedInterfaces) || n in names
      ensures forall n :: n in deleted <==> n in managedInterfaces && n !in names && n in devices
      ensures forall n :: multiset(created)[n] == if n in devices then 0 else multiset(names)[n]
    {
      var machine := names;
      var unmanaged, extra, listed;
      unmanaged, machine, managedInterfaces := NamesWithout(machine, managedInterfaces);
      SamePermutation(machine, names);
      SamePermutation(managedInterfaces, old(managedInterfaces));
      forall n ensures n in unmanaged <==> n in names && n !in old(managedInterfaces) {
        MultisetMembers(unmanaged, n);
        MultisetMembers(names, n);
      }
      ghost var grown := managedInterfaces + unmanaged;
      managedInterfaces := managedInterfaces + unmanaged;
      extra, managedInterfaces, machine := NamesWithout(managedInterfaces, machine);
      SamePermutation(managedInterfaces, grown);
      SamePermutation(machine, names);
      forall n ensures n in extra <==> n in grown && n !in names {
        MultisetMembers(extra, n);
        MultisetMembers(grown, n);
      }
      deleted := NamesWithin(extra, devices);
      created, machine, listed := NamesWithout(machine, devices);
    }

    /** The creation loop. The names are not yet links. */
    static method CreateInterfaces(kernel: Kernel, created: seq<string>) returns (ok: bool)
      requires forall n | n in created :: n !in kernel.links
      modifies kernel
      ensures ok <==> Distinct(created) && forall n | n in created :: |n| <= 15
      ensures ok ==> Extended(old(kernel.links), kernel.links, created)
      ensures Grown(old(kernel.links), kernel.links, created)
      ensures created == [] ==> kernel.log == old(kernel.log)
      ensures kernel.ipForward == old(kernel.ipForward)
    {
      ghost var links := kernel.links;
      for k := 0 to |created|
        invariant Distinct(created[..k]) && forall n | n in created[..k] :: |n| <= 15
        invariant Extended(links, kernel.links, created[..k])
        invariant created == [] ==> kernel.log == old(kernel.log)
        invariant kernel.ipForward == old(kernel.ipForward)
      {
        assert created[k] in created;
        ExtendedGrown(links, kernel.links, created, k);
        if |created[k]| > 15 {
          return false;
        }
        ghost var before := kernel.links;
        ok := kernel.LinkAdd(created[k]);
        if !ok {
          assert created[k] in created[..k];
          return;
        }
        ExtendedOnce(links, before, created, k);
      }
      assert created[..|created|] == created;
      ExtendedGrown(links, kernel.links, created, |created|);
      return true;
    }

    /** updateInterface for an interface that wants `w`. */
    static method UpdateLink(kernel: Kernel, iface: Interface, out: Outside, ghost w: Want) returns (ok: bool)
      requires w == Want(iface.name, ConfigFor(out, iface), multiset(iface.addresses[..]),
                         multiset(Routed(iface.peers)))
      modifies kernel, iface.addresses
      ensures multiset(iface.addresses[..]) == w.addresses
      ensures ok ==> Sorted(LessIPNet, iface.addresses[..])
      ensures ok <==> WantReachable(old(kernel.links), w)
      ensures ok ==> kernel.links == old(kernel.links)[w.name := Goal(old(kernel.links)[w.name], w)]
      ensures Touches(old(kernel.links), kernel.links, w)
      ensures w.name in old(kernel.links) && LinkAtGoal(old(kernel.links)[w.name], w.addresses, w.routes)
              ==> kernel.log == old(kernel.log)
      ensures kernel.ipForward == old(kernel.ipForward)
    {
      ok := UpdateInterface(kernel, iface, out);
    }

    /** The same among the interfaces of a machine, which may share slices. */
    static method UpdateAmong(kernel: Kernel, m: Machine, out: Outside, i: nat, ghost ws: seq<Want>) returns (ok: bool)
      requires i < |m.interfaces| && ws == Wants(m, out)
      modifies kernel, m.interfaces[i].addresses
      ensures Wants(m, out) == ws
      ensures ok ==> Sorted(LessIPNet, m.interfaces[i].addresses[..])
      ensures ok ==> forall k | 0 <= k < |m.interfaces| ::
                m.interfaces[k].addresses[..] == old(m.interfaces[k].addresses[..])
                || Sorted(LessIPNet, m.interfaces[k].addresses[..])
      ensures ok <==> WantReachable(old(kernel.links), ws[i])
      ensures ok ==> kernel.links == old(kernel.links)[ws[i].name := Goal(old(kernel.links)[ws[i].name], ws[i])]
      ensures Touches(old(kernel.links), kernel.links, ws[i])
      ensures ws[i].name in old(kernel.links)
              && LinkAtGoal(old(kernel.links)[ws[i].name], ws[i].addresses, ws[i].routes)
              ==> kernel.log == old(kernel.log)
      ensures kernel.ipForward == old(kernel.ipForward)
    {
      ok := UpdateLink(kernel, m.interfaces[i], out, ws[i]);
      forall k | 0 <= k < |ws| ensures multiset(m.interfaces[k].addresses[..]) == ws[k].addresses {
        if m.interfaces[k].addresses != m.interfaces[i].addresses {
          assert m.interfaces[k].addresses[..] == old(m.interfaces[k].addresses[..]);
        }
      }
    }

    /** The update of one interface of a machine after those in `done`. */
    static method UpdateOne(kernel: Kernel, m: Machine, out: Outside, i: nat, ghost ws: seq<Want>,
                            ghost done: seq<string>)
      returns (ok: bool)
      requires i < |m.interfaces| && ws == Wants(m, out)
      modifies kernel, m.interfaces[i].addresses
      ensures Wants(m, out) == ws
      ensures ok && DistinctNames(ws) && old(SortedAmong(m, ws, done)) ==> SortedAmong(m, ws, done + [ws[i].name])
      ensures ok <==> WantReachable(old(kernel.links), ws[i])
      ensures ok ==> kernel.links == old(kernel.links)[ws[i].name := Goal(old(kernel.links)[ws[i].name], ws[i])]
      ensures ws[i].name in old(kernel.links)
              && LinkAtGoal(old(kernel.links)[ws[i].name], ws[i].addresses, ws[i].routes)
              ==> kernel.log == old(kernel.log)
      ensures DistinctNames(ws) ==> Kept(old(kernel.links), kernel.links, ws)
      ensures kernel.ipForward == old(kernel.ipForward)
    {
      ok := UpdateAmong(kernel, m, out, i, ws);
      if DistinctNames(ws) {
        UpdateKeeps(old(kernel.links), kernel.links, ws, i);
        if ok && old(SortedAmong(m, ws, done)) {
          forall k | 0 <= k < |ws| && ws[k].name in done + [ws[i].name]
            ensures Sorted(LessIPNet, m.interfaces[k].addresses[..])
          {
            if k != i {
              assert ws[k].name in done;
              assert old(Sorted(LessIPNet, m.interfaces[k].addresses[..]));
            }
          }
        }
      }
    }

    /** One round of the update loop for a name that the machine has. */
    static method UpdateFound(kernel: Kernel, m: Machine, out: Outside, updated: seq<string>, k: nat, i: nat,
                              ghost links: map<string, Link>, ghost ws: seq<Want>) returns (ok: bool)
      requires k < |updated| && Progress(m, out, links, kernel.links, ws, updated[..k])
      requires i < |m.interfaces| && m.interfaces[i].name == updated[k]
      modifies kernel, m.interfaces[i].addresses
      ensures Wants(m, out) == ws
      ensures ok ==> Progress(m, out, links, kernel.links, ws, updated[..k+1])
      ensures DistinctNames(ws) ==> Kept(old(kernel.links), kernel.links, ws)
      ensures !ok ==> UpdateFails(links, ws, updated)
      ensures TablesAtGoal(old(kernel.links), ws) ==> kernel.log == old(kernel.log)
      ensures ok && TablesAtGoal(old(kernel.links), ws) ==> TablesAtGoal(kernel.links, ws)
      ensures kernel.ipForward == old(kernel.ipForward)
    {
      ghost var before := kernel.links;
      ok := UpdateOne(kernel, m, out, i, ws, updated[..k]);
      if ok {
        assert updated[..k+1] == updated[..k] + [updated[k]];
        UpdateStep(links, before, kernel.links, ws, updated, k, i);
        GoalKept(before, ws, i);
      } else {
        UnreachableFails(links, before, ws, updated, k, i);
      }
    }

    /** One round of the update loop. A name that the machine does not have indexes it with -1. */
    static method UpdateNamed(kernel: Kernel, m: Machine, out: Outside, updated: seq<string>, k: nat,
                              ghost links: map<string, Link>, ghost ws: seq<Want>) returns (o: Outcome)
      requires k < |updated| && Progress(m, out, links, kernel.links, ws, updated[..k])
      modifies kernel, set i | 0 <= i < |m.interfaces| :: m.interfaces[i].addresses
      ensures Wants(m, out) == ws
      ensures o == Applied ==> Progress(m, out, links, kernel.links, ws, updated[..k+1])
      ensures DistinctNames(ws) ==> Kept(old(kernel.links), kernel.links, ws)
      ensures o != Applied ==> UpdateFails(links, ws, updated)
      ensures o == Panicked ==> !AllNamed(ws, updated)
      ensures TablesAtGoal(old(kernel.links), ws) ==> kernel.log == old(kernel.log)
      ensures o == Applied && TablesAtGoal(old(kernel.links), ws) ==> TablesAtGoal(kernel.links, ws)
      ensures kernel.ipForward == old(kernel.ipForward)
    {
      var i := FindInterface(m, updated[k]);
      if i < 0 {
        NamelessFails(links, ws, updated, k, Names(m));
        return Panicked;
      }
      var ok := UpdateFound(kernel, m, out, updated, k, i, links, ws);
      return if ok then Applied else Failed;
    }

    /** The update loop. */
    static method UpdateInterfaces(kernel: Kernel, m: Machine, out: Outside, updated: seq<string>, ghost ws: seq<Want>)
      returns (o: Outcome)
      requires ws == Wants(m, out)
      modifies kernel, set i | 0 <= i < |m.interfaces| :: m.interfaces[i].addresses
      ensures Wants(m, out) == ws
      ensures o == Applied ==> Progress(m, out, old(kernel.links), kernel.links, ws, updated)
      ensures DistinctNames(ws) ==> Kept(old(kernel.links), kernel.links, ws)
      ensures o != Applied ==> UpdateFails(old(kernel.links), ws, updated)
      ensures o == Panicked ==> !AllNamed(ws, updated)
      ensures TablesAtGoal(old(kernel.links), ws) ==> kernel.log == old(kernel.log)
      ensures kernel.ipForward == old(kernel.ipForward)
    {
      ghost var links := kernel.links;
      for k := 0 to |updated|
        invariant Progress(m, out, links, kernel.links, ws, updated[..k])
        invariant DistinctNames(ws) ==> Kept(links, kernel.links, ws)
        invariant TablesAtGoal(links, ws) ==> kernel.log == old(kernel.log) && TablesAtGoal(kernel.links, ws)
        invariant kernel.ipForward == old(kernel.ipForward)
      {
        ghost var before := kernel.links;
        o := UpdateNamed(kernel, m, out, updated, k, links, ws);
        if DistinctNames(ws) {
          KeptTrans(links, before, kernel.links, ws);
        }
        if o != Applied {
          return;
        }
      }
      assert updated[..|updated|] == updated;
      return Applied;
    }

    /** ApplyMachine up to the update loop: an early end, or the names to update. */
    method CreateMissing(kernel: Kernel, m: Machine, ghost out: Outside, ghost ws: seq<Want>)
      returns (r: Option<Outcome>, updated: seq<string>)
      requires ws == Wants(m, out)
      modifies this`managedInterfaces, kernel
      ensures forall n :: n in managedInterfaces <==> n in old(managedInterfaces) || Named(ws, n)
      ensures r.Some? ==> r.value != Applied
      ensures r == Some(Panicked) ==> !AllNamed(ws, old(managedInterfaces))
      ensures r.Some? && DistinctNames(ws) ==> !Drivable(old(kernel.links), old(managedInterfaces), ws)
      ensures r.None? ==> Prepared(old(kernel.links), kernel.links, ws)
      ensures r.None? && DistinctNames(ws) ==> ShortNames(old(kernel.links), ws)
      ensures r.None? ==> forall n :: n in updated <==> n in old(managedInterfaces) || Named(ws, n)
      ensures Kept(old(kernel.links), kernel.links, ws)
      ensures TablesAtGoal(old(kernel.links), ws) ==> kernel.log == old(kernel.log)
      ensures kernel.ipForward == old(kernel.ipForward)
    {
      ghost var links, managed := kernel.links, managedInterfaces;
      updated := [];
      var names := Names(m);
      NamesOf(m, out, ws, names);
      var devices := kernel.LinkNames();
      DeviceMembers(devices, links);
      var deleted, created := PlanInterfaces(names, devices);
      if |deleted| > 0 {
        // The interface to delete is looked for in the machine, which does not have it.
        assert deleted[0] in deleted;
        var i := FindInterface(m, deleted[0]);
        assert i == -1 && !Named(ws, deleted[0]);
        GrownKeeps(links, links, [], ws);
        return Some(Panicked), updated;
      }
      CreatedMembers(created, names, devices, links, ws);
      if TablesAtGoal(links, ws) {
        NothingCreated(created, links, ws);
      }
      var ok := CreateInterfaces(kernel, created);
      GrownKeeps(links, kernel.links, created, ws);
      if !ok {
        return Some(Failed), updated;
      }
      ExtendedPrepared(links, kernel.links, created, ws);
      ghost var kept := managedInterfaces;
      var rest;
      updated, managedInterfaces, rest := NamesWithout(managedInterfaces, deleted);
      SamePermutation(managedInterfaces, kept);
      UpdatedMembers(updated, kept);
      return None, updated;
    }

    /** The update loop after the creation loop. */
    static method UpdatePrepared(kernel: Kernel, m: Machine, out: Outside, updated: seq<string>, ghost ws: seq<Want>,
                                 ghost links: map<string, Link>, ghost managed: seq<string>) returns (o: Outcome)
      requires ws == Wants(m, out) && Prepared(links, kernel.links, ws)
      requires forall n :: n in updated <==> n in managed || Named(ws, n)
      modifies kernel, set i | 0 <= i < |m.interfaces| :: m.interfaces[i].addresses
      ensures Wants(m, out) == ws
      ensures DistinctNames(ws) ==> (o == Applied <==> GoalsReachable(links, managed, ws))
      ensures o == Panicked ==> !AllNamed(ws, managed)
      ensures DistinctNames(ws) && o == Applied ==> AtGoal(links, kernel.links, ws)
      ensures DistinctNames(ws) ==> Kept(old(kernel.links), kernel.links, ws)
      ensures DistinctNames(ws) && o == Applied ==> SortedAmong(m, ws, Names(m))
      ensures TablesAtGoal(links, ws) ==> kernel.log == old(kernel.log)
      ensures kernel.ipForward == old(kernel.ipForward)
    {
      PreparedMeans(links, kernel.links, ws, managed, updated);
      o := UpdateInterfaces(kernel, m, out, updated, ws);
      NamesOf(m, out, ws, Names(m));
    }

    /** The interfaces of ApplyMachine: creation, then updates. */
    method DriveInterfaces(kernel: Kernel, m: Machine, out: Outside, ghost ws: seq<Want>) returns (o: Outcome)
      requires ws == Wants(m, out)
      modifies this`managedInterfaces, kernel, set i | 0 <= i < |m.interfaces| :: m.interfaces[i].addresses
      ensures Wants(m, out) == ws
      ensures forall n :: n in managedInterfaces <==> n in old(managedInterfaces) || Named(ws, n)
      ensures DistinctNames(ws) ==> (o == Applied <==> Drivable(old(kernel.links), old(managedInterfaces), ws))
      ensures o == Panicked ==> !AllNamed(ws, old(managedInterfaces))
      ensures DistinctNames(ws) && o == Applied ==>
                AtGoal(old(kernel.links), kernel.links, ws) && SortedAmong(m, ws, Names(m))
      ensures DistinctNames(ws) ==> Kept(old(kernel.links), kernel.links, ws)
      ensures TablesAtGoal(old(kernel.links), ws) ==> kernel.log == old(kernel.log)
      ensures kernel.ipForward == old(kernel.ipForward)
    {
      ghost var links, managed := kernel.links, managedInterfaces;
      var r, updated := CreateMissing(kernel, m, out, ws);
      if r.Some? {
        return r.value;
      }
      ghost var prepared := kernel.links;
      o := UpdatePrepared(kernel, m, out, updated, ws, links, managed);
      if DistinctNames(ws) {
        KeptTrans(links, prepared, kernel.links, ws);
      }
    }

    /** ApplyMachine. Whatever state the kernel is in, the machine is reached if it can be; with all
        managed interfaces in the machine, the only panic is the one for IPv6 forwarding at the end. */
    method ApplyMachine(kernel: Kernel, m: Machine, out: Outside, ghost ws: seq<Want>) returns (o: Outcome)
      requires ws == Wants(m, out)
      modifies this`managedInterfaces, kernel, set i | 0 <= i < |m.interfaces| :: m.interfaces[i].addresses
      ensures Wants(m, out) == ws
      ensures forall n :: n in managedInterfaces <==> n in old(managedInterfaces) || Named(ws, n)
      ensures DistinctNames(ws) ==>
                (o == Applied <==> Drivable(old(kernel.links), old(managedInterfaces), ws) && !m.forwardsIPv6)
      ensures DistinctNames(ws) && AllNamed(ws, old(managedInterfaces)) ==>
                (o == Panicked <==> Drivable(old(kernel.links), old(managedInterfaces), ws) && m.forwardsIPv6)
      ensures DistinctNames(ws) && Drivable(old(kernel.links), old(managedInterfaces), ws) ==>
                AtGoal(old(kernel.links), kernel.links, ws) && SortedAmong(m, ws, Names(m))
      ensures DistinctNames(ws) ==> Kept(old(kernel.links), kernel.links, ws)
      ensures TablesAtGoal(old(kernel.links), ws) ==> kernel.log == old(kernel.log)
      ensures o == Applied ==> kernel.ipForward == if readWriteProc then m.forwardsIPv4 else old(kernel.ipForward)
    {
      o := DriveInterfaces(kernel, m, out, ws);
      if o != Applied {
        return;
      }
      if readWriteProc && kernel.ipForward != m.forwardsIPv4 {
        kernel.ipForward := m.forwardsIPv4;
      }
      if m.forwardsIPv6 {
        return Panicked;
      }
    }

    /** slices.IndexFunc over the interfaces, by name. */
    static method FindInterface(m: Machine, name: string) returns (i: int)
      ensures -1 <= i < |m.interfaces|
      ensures i >= 0 ==> m.interfaces[i].name == name
      ensures i < 0 ==> name !in Names(m)
    {
      i := FirstIndex(m.interfaces, (x: Interface) => x.name == name);
    }
  }

  /** The address slices of the interfaces among `names` are sorted. */
  ghost predicate SortedAmong(m: Machine, ws: seq<Want>, names: seq<string>)
    requires |ws| == |m.interfaces|
    reads set i | 0 <= i < |m.interfaces| :: m.interfaces[i].addresses
  {
    forall i | 0 <= i < |ws| && ws[i].name in names :: Sorted(LessIPNet, m.interfaces[i].addresses[..])
  }

  /** Every interface of the machine exists with exactly the wanted addresses and routes. */
  ghost predicate TablesAtGoal(links: map<string, Link>, ws: seq<Want>) {
    forall i | 0 <= i < |ws| :: ws[i].name in links && LinkAtGoal(links[ws[i].name], ws[i].addresses, ws[i].routes)
  }

  predicate WantReachable(links: map<string, Link>, w: Want) {
    w.name in links && CanReach(links[w.name], w)
  }

  /** The interfaces among `names` have reached their goals; all other links are as before. */
  ghost predicate UpdatedTo(before: map<string, Link>, after: map<string, Link>, ws: seq<Want>, names: seq<string>) {
    && after.Keys == before.Keys
    && (forall n | n in after && n !in names :: after[n] == before[n])
    && (forall i | 0 <= i < |ws| && ws[i].name in names ::
          ws[i].name in after && after[ws[i].name] == Goal(before[ws[i].name], ws[i]))
  }

  ghost predicate AllNamed(ws: seq<Want>, names: seq<string>) {
    forall n | n in names :: Named(ws, n)
  }

  ghost predicate AllReachable(links: map<string, Link>, ws: seq<Want>, names: seq<string>) {
    forall i | 0 <= i < |ws| && ws[i].name in names :: WantReachable(links, ws[i])
  }

  /** The update loop after `done`. */
  ghost predicate Progress(m: Machine, out: Outside, links: map<string, Link>, now: map<string, Link>, ws: seq<Want>,
                           done: seq<string>)
    reads set i | 0 <= i < |m.interfaces| :: m.interfaces[i].addresses
  {
    && ws == Wants(m, out)
    && UpdateStanding(links, now, ws, done)
    && (DistinctNames(ws) ==> SortedAmong(m, ws, done))
  }

  ghost predicate UpdateStanding(links: map<string, Link>, now: map<string, Link>, ws: seq<Want>, done: seq<string>) {
    && AllNamed(ws, done)
    && (DistinctNames(ws) ==> UpdatedTo(links, now, ws, done) && AllReachable(links, ws, done))
  }

  /** The update loop cannot succeed: a name has no interface, or some goal is out of reach. */
  ghost predicate UpdateFails(links: map<string, Link>, ws: seq<Want>, names: seq<string>) {
    DistinctNames(ws) && AllNamed(ws, names) ==> !AllReachable(links, ws, names)
  }

  lemma NamelessFails(links: map<string, Link>, ws: seq<Want>, updated: seq<string>, k: nat, names: seq<string>)
    requires k < |updated| && |names| == |ws| && updated[k] !in names
    requires forall i | 0 <= i < |ws| :: ws[i].name == names[i]
    ensures UpdateFails(links, ws, updated) && !AllNamed(ws, updated)
  {
    assert updated[k] in updated;
    assert !Named(ws, updated[k]);
  }

  lemma GoalReachable(l: Link, w: Want)
    ensures LinkReachable(Goal(l, w), w.addresses, w.routes)
    ensures LinkAtGoal(Goal(l, w), w.addresses, w.routes)
    ensures Goal(Goal(l, w), w) == Goal(l, w)
  {
  }

  /** At most the link that the interface wants has changed, and its tables at their goals have not. */
  predicate Touches(before: map<string, Link>, after: map<string, Link>, w: Want) {
    if w.name in before then
      && w.name in after
      && after == before[w.name := after[w.name]]
      && LinkKept(before[w.name], after[w.name], w.addresses, w.routes)
    else after == before
  }

  /** Changing one link as its interface allows keeps all else. */
  lemma UpdateKeeps(before: map<string, Link>, after: map<string, Link>, ws: seq<Want>, i: nat)
    requires i < |ws| && DistinctNames(ws) && Touches(before, after, ws[i])
    ensures Kept(before, after, ws)
  {
    forall j | 0 <= j < |ws| && ws[j].name == ws[i].name ensures j == i {}
    assert Named(ws, ws[i].name);
  }

  /** An update that fails would have failed at the start already. */
  lemma UnreachableFails(links: map<string, Link>, before: map<string, Link>, ws: seq<Want>,
                         updated: seq<string>, k: nat, i: nat)
    requires k < |updated| && i < |ws| && ws[i].name == updated[k]
    requires UpdateStanding(links, before, ws, updated[..k])
    requires !WantReachable(before, ws[i])
    ensures UpdateFails(links, ws, updated)
  {
    if ws[i].name in links {
      GoalReachable(links[ws[i].name], ws[i]);
    }
    assert updated[k] in updated;
    assert DistinctNames(ws) ==> !WantReachable(links, ws[i]);
  }

  lemma UpdateStep(links: map<string, Link>, before: map<string, Link>, after: map<string, Link>, ws: seq<Want>,
                   updated: seq<string>, k: nat, i: nat)
    requires k < |updated| && i < |ws| && ws[i].name == updated[k]
    requires UpdateStanding(links, before, ws, updated[..k])
    requires WantReachable(before, ws[i])
    requires after == before[ws[i].name := Goal(before[ws[i].name], ws[i])]
    ensures UpdateStanding(links, after, ws, updated[..k+1])
  {
    assert updated[..k+1] == updated[..k] + [updated[k]];
    if DistinctNames(ws) {
      forall j | 0 <= j < |ws| && ws[j].name == ws[i].name ensures j == i {}
      if updated[k] in updated[..k] {
        GoalReachable(links[updated[k]], ws[i]);
      }
    }
  }

  lemma GoalKept(before: map<string, Link>, ws: seq<Want>, i: nat)
    requires i < |ws|
    ensures TablesAtGoal(before, ws) ==>
      TablesAtGoal(before[ws[i].name := Goal(before[ws[i].name], ws[i])], ws)
  {
    if TablesAtGoal(before, ws) {
      GoalReachable(before[ws[i].name], ws[i]);
      forall j | 0 <= j < |ws| && ws[j].name == ws[i].name
        ensures LinkAtGoal(Goal(before[ws[i].name], ws[i]), ws[j].addresses, ws[j].routes)
      {
        assert LinkAtGoal(before[ws[j].name], ws[j].addresses, ws[j].routes);
        assert LinkAtGoal(before[ws[i].name], ws[i].addresses, ws[i].routes);
      }
    }
  }

  // ----- ApplyMachine put together -----

  lemma NamesOf(m: Machine, out: Outside, ws: seq<Want>, names: seq<string>)
    requires ws == Wants(m, out) && names == Names(m)
    ensures |names| == |ws| && forall i | 0 <= i < |ws| :: ws[i].name == names[i]
    ensures forall n :: n in names <==> Named(ws, n)
  {
    forall n ensures n in names <==> Named(ws, n) {
      if n in names {
        var i :| 0 <= i < |names| && names[i] == n;
        assert ws[i].name == n;
      }
    }
  }

  lemma DeviceMembers(devices: seq<string>, links: map<string, Link>)
    requires forall n :: multiset(devices)[n] == if n in links then 1 else 0
    ensures forall n :: n in devices <==> n in links
  {
    forall n ensures n in devices <==> n in links {
      MultisetMembers(devices, n);
    }
  }

  /** The names to create are those without a link; distinct ones are created once. */
  lemma CreatedMembers(created: seq<string>, names: seq<string>, devices: seq<string>, links: map<string, Link>,
                       ws: seq<Want>)
    requires forall n :: multiset(created)[n] == if n in devices then 0 else multiset(names)[n]
    requires forall n :: n in devices <==> n in links
    requires |names| == |ws| && forall i | 0 <= i < |ws| :: ws[i].name == names[i]
    ensures forall n :: n in created <==> n in names && n !in links
    ensures DistinctNames(ws) ==> Distinct(created)
  {
    forall n ensures n in created <==> n in names && n !in links {
      MultisetMembers(created, n);
      MultisetMembers(names, n);
    }
    if DistinctNames(ws) {
      forall n | n in created ensures multiset(created)[n] == 1 {
        CountInDistinct(names, n);
        MultisetMembers(created, n);
      }
      DistinctByCount(created);
    }
  }

  /** The links with new, bare ones of these names. */
  ghost predicate Extended(before: map<string, Link>, after: map<string, Link>, created: seq<string>) {
    && (forall n :: n in after <==> n in before || n in created)
    && (forall n | n in after :: after[n] == LinkOf(before, n))
  }

  /** At most the new links have been added. */
  ghost predicate Grown(before: map<string, Link>, after: map<string, Link>, created: seq<string>) {
    && (forall n | n in after :: n in before || n in created)
    && (forall n | n in before :: n in after && after[n] == before[n])
  }

  lemma ExtendedGrown(before: map<string, Link>, after: map<string, Link>, created: seq<string>, k: nat)
    requires k <= |created| && Extended(before, after, created[..k])
    ensures Grown(before, after, created)
  {
  }

  lemma ExtendedOnce(before: map<string, Link>, after: map<string, Link>, created: seq<string>, k: nat)
    requires k < |created| && Extended(before, after, created[..k]) && created[k] !in after
    ensures Extended(before, after[created[k] := NEW_LINK], created[..k+1])
  {
    assert created[..k+1] == created[..k] + [created[k]];
  }

  lemma GrownKeeps(before: map<string, Link>, after: map<string, Link>, created: seq<string>, ws: seq<Want>)
    requires Grown(before, after, created)
    requires forall n | n in created :: Named(ws, n)
    ensures Kept(before, after, ws)
  {
  }

  lemma ExtendedPrepared(links: map<string, Link>, after: map<string, Link>, created: seq<string>, ws: seq<Want>)
    requires Extended(links, after, created)
    requires forall n :: n in created <==> Named(ws, n) && n !in links
    ensures Prepared(links, after, ws)
  {
  }

  lemma UpdatedMembers(updated: seq<string>, managed: seq<string>)
    requires forall n :: multiset(updated)[n] == multiset(managed)[n]
    ensures forall n :: n in updated <==> n in managed
  {
    forall n ensures n in updated <==> n in managed {
      MultisetMembers(updated, n);
      MultisetMembers(managed, n);
    }
  }

  lemma NothingCreated(created: seq<string>, links: map<string, Link>, ws: seq<Want>)
    requires forall n | n in created :: Named(ws, n) && n !in links
    requires TablesAtGoal(links, ws)
    ensures created == []
  {
    EmptyMembers(created);
    assert Members(created) == {};
  }

  /** The links after the creation loop. */
  ghost predicate Prepared(links: map<string, Link>, prepared: map<string, Link>, ws: seq<Want>) {
    && (forall n :: n in prepared <==> n in links || Named(ws, n))
    && (forall n | n in prepared :: prepared[n] == LinkOf(links, n))
  }

  /** What follows for the whole from the creation and update loops. */
  lemma PreparedMeans(links: map<string, Link>, prepared: map<string, Link>, ws: seq<Want>, managed: seq<string>,
                      updated: seq<string>)
    requires Prepared(links, prepared, ws)
    requires forall n :: n in updated <==> n in managed || Named(ws, n)
    ensures AllNamed(ws, updated) <==> forall n | n in managed :: Named(ws, n)
    ensures AllReachable(prepared, ws, updated)
            <==> forall i | 0 <= i < |ws| :: CanReach(LinkOf(links, ws[i].name), ws[i])
    ensures forall after | UpdatedTo(prepared, after, ws, updated) && AllNamed(ws, updated) :: AtGoal(links, after, ws)
    ensures TablesAtGoal(links, ws) ==> TablesAtGoal(prepared, ws)
  {
    forall i | 0 <= i < |ws| ensures Named(ws, ws[i].name) && ws[i].name in prepared && ws[i].name in updated {}
  }

  /** Once reached, the goal can be reached again, with nothing left to do. */
  lemma AgainDrivable(links: map<string, Link>, now: map<string, Link>, managed: seq<string>, managed': seq<string>,
                      ws: seq<Want>)
    requires Drivable(links, managed, ws) && AtGoal(links, now, ws)
    requires forall n | n in managed' :: n in managed || Named(ws, n)
    ensures Drivable(now, managed', ws) && TablesAtGoal(now, ws)
    ensures forall again | AtGoal(now, again, ws) && OthersAlone(now, again, ws) :: again == now
  {
    forall i | 0 <= i < |ws|
      ensures LinkReachable(LinkOf(now, ws[i].name), ws[i].addresses, ws[i].routes)
      ensures LinkAtGoal(now[ws[i].name], ws[i].addresses, ws[i].routes)
      ensures Goal(now[ws[i].name], ws[i]) == now[ws[i].name]
    {
      GoalReachable(LinkOf(links, ws[i].name), ws[i]);
    }
    forall again | AtGoal(now, again, ws) && OthersAlone(now, again, ws) ensures again == now {
      assert forall n | Named(ws, n) :: n in now && n in again && again[n] == now[n];
    }
  }

  /** A second run succeeds after a first that did, issues no operation, and changes no link. */
  method ApplyTwice(applier: Applier, kernel: Kernel, m: Machine, out: Outside, ghost ws: seq<Want>)
    returns (first: Outcome, second: Outcome, ghost log: seq<Op>, ghost links: map<string, Link>)
    requires ws == Wants(m, out)
    modifies applier, kernel, set i | 0 <= i < |m.interfaces| :: m.interfaces[i].addresses
    ensures DistinctNames(ws) && first == Applied ==>
              && second == Applied
              && kernel.log == log && kernel.links == links
              && AtGoal(old(kernel.links), links, ws)
  {
    ghost var start, managed := kernel.links, applier.managedInterfaces;
    first := applier.ApplyMachine(kernel, m, out, ws);
    log, links := kernel.log, kernel.links;
    if DistinctNames(ws) && first == Applied {
      AgainDrivable(start, links, managed, applier.managedInterfaces, ws);
    }
    second := applier.ApplyMachine(kernel, m, out, ws);
  }
}
