/** The part of the operating system that goal/apply_linux.go drives: WireGuard links with their
    configuration, addresses and routes. Adding what is there and deleting what is not there fails,
    as netlink has it. */
module Kernels {
  import opened Prelude
  import opened NetAddr
  import opened Specs

  /** A resolved endpoint. */
  datatype UDPAddr = UDPAddr(ip: IP, port: int)

  /** wgtypes.PeerConfig, which replaces the AllowedIPs */
  datatype PeerConfig = PeerConfig(
    publicKey: Key,
    presharedKey: Option<Key>,
    endpoint: Option<UDPAddr>,
    allowedIPs: seq<IPNet>)

  /** wgtypes.Config, which replaces the peers */
  datatype Config = Config(privateKey: Key, listenPort: Option<int>, peers: seq<PeerConfig>)

  /** How a link is configured. */
  datatype WireGuard = WireGuard(privateKey: Key, listenPort: int, peers: seq<PeerConfig>) {
    /** Without a port the old one stays. */
    function With(c: Config): WireGuard {
      WireGuard(c.privateKey, if c.listenPort.Some? then c.listenPort.value else listenPort, c.peers)
    }
  }

  /** What an application meets outside: name resolution, and whether WireGuard takes a configuration. */
  datatype Outside = Outside(resolve: string -> Option<UDPAddr>, configures: (string, Config) -> bool)

  datatype Table = Addresses | Routes

  datatype Link = Link(addresses: set<IPNet>, routes: set<IPNet>, up: bool, wireGuard: WireGuard) {
    function Get(t: Table): set<IPNet> {
      match t
      case Addresses => addresses
      case Routes => routes
    }

    function With(t: Table, s: set<IPNet>): Link {
      match t
      case Addresses => this.(addresses := s)
      case Routes => this.(routes := s)
    }
  }

  /** The links with one table of one of them replaced. */
  function SetTable(links: map<string, Link>, name: string, t: Table, s: set<IPNet>): map<string, Link>
    requires name in links
  {
    links[name := links[name].With(t, s)]
  }

  lemma SetTableTwice(links: map<string, Link>, name: string, t: Table, s: set<IPNet>, r: set<IPNet>)
    requires name in links
    ensures SetTable(SetTable(links, name, t, s), name, t, r) == SetTable(links, name, t, r)
    ensures SetTable(links, name, t, s)[name].Get(t) == s
  {
  }

  lemma SetTableSame(links: map<string, Link>, name: string, t: Table)
    requires name in links
    ensures SetTable(links, name, t, links[name].Get(t)) == links
  {
  }

  /** Nothing but this table of this link differs. */
  predicate OnlyTable(before: map<string, Link>, after: map<string, Link>, name: string, t: Table) {
    name in before && name in after && after == SetTable(before, name, t, after[name].Get(t))
  }

  lemma SetTableOnly(links: map<string, Link>, name: string, t: Table, s: set<IPNet>)
    requires name in links
    ensures OnlyTable(links, SetTable(links, name, t, s), name, t)
  {
  }

  const NEW_LINK := Link({}, {}, false, WireGuard(UNSET_KEY, 0, []))

  datatype Op =
    | LinkAdded(name: string)
    | Added(name: string, table: Table, ip: IPNet)
    | Deleted(name: string, table: Table, ip: IPNet)

  /** Every element of `elems` once, in some order. */
  method Enumerate<T(==)>(elems: set<T>) returns (r: seq<T>)
    ensures forall x :: multiset(r)[x] == if x in elems then 1 else 0
  {
    r := [];
    var rest := elems;
    while rest != {}
      invariant rest <= elems
      invariant forall x :: multiset(r)[x] == if x in elems && x !in rest then 1 else 0
      decreases rest
    {
      var x :| x in rest;
      r := r + [x];
      rest := rest - {x};
    }
  }

  class Kernel {
    var links: map<string, Link>
    var ipForward: bool
    /** The links, addresses and routes added and deleted so far. */
    ghost var log: seq<Op>

    constructor ()
      ensures links == map[] && !ipForward && log == []
    {
      links := map[];
      ipForward := false;
      log := [];
    }

    method LinkNames() returns (names: seq<string>)
      ensures forall n :: multiset(names)[n] == if n in links then 1 else 0
    {
      names := Enumerate(links.Keys);
    }

    /** AddrList and RouteList: no entry is listed twice. */
    method List(name: string, t: Table) returns (a: array<IPNet>)
      requires name in links
      ensures fresh(a)
      ensures forall x :: multiset(a[..])[x] == if x in links[name].Get(t) then 1 else 0
    {
      var r := Enumerate(links[name].Get(t));
      a := new IPNet[|r|](i requires 0 <= i < |r| => r[i]);
      assert a[..] == r;
    }

    method LinkAdd(name: string) returns (ok: bool)
      modifies this
      ensures ok <==> name !in old(links)
      ensures links == if ok then old(links)[name := NEW_LINK] else old(links)
      ensures log == if ok then old(log) + [LinkAdded(name)] else old(log)
      ensures ipForward == old(ipForward)
    {
      ok := name !in links;
      if ok {
        links := links[name := NEW_LINK];
        log := log + [LinkAdded(name)];
      }
    }

    method ConfigureDevice(out: Outside, name: string, c: Config) returns (ok: bool)
      requires name in links
      modifies this
      ensures ok <==> out.configures(name, c)
      ensures links == if ok then old(links)[name := old(links)[name].(wireGuard := old(links)[name].wireGuard.With(c))]
                       else old(links)
      ensures log == old(log) && ipForward == old(ipForward)
    {
      ok := out.configures(name, c);
      if ok {
        links := links[name := links[name].(wireGuard := links[name].wireGuard.With(c))];
      }
    }

    method LinkSetUp(name: string)
      requires name in links
      modifies this
      ensures links == old(links)[name := old(links)[name].(up := true)]
      ensures log == old(log) && ipForward == old(ipForward)
    {
      links := links[name := links[name].(up := true)];
    }

    /** AddrAdd and RouteAdd */
    method Add(name: string, t: Table, ip: IPNet) returns (ok: bool)
      requires name in links
      modifies this
      ensures ok <==> ip !in old(links)[name].Get(t)
      ensures links == SetTable(old(links), name, t, old(links)[name].Get(t) + {ip})
      ensures log == if ok then old(log) + [Added(name, t, ip)] else old(log)
      ensures ipForward == old(ipForward)
    {
      var l := links[name];
      ok := ip !in l.Get(t);
      links := links[name := l.With(t, l.Get(t) + {ip})];
      if ok {
        log := log + [Added(name, t, ip)];
      } else {
        assert l.Get(t) + {ip} == l.Get(t);
      }
    }

    /** AddrDel and RouteDel */
    method Delete(name: string, t: Table, ip: IPNet) returns (ok: bool)
      requires name in links
      modifies this
      ensures ok <==> ip in old(links)[name].Get(t)
      ensures links == SetTable(old(links), name, t, old(links)[name].Get(t) - {ip})
      ensures log == if ok then old(log) + [Deleted(name, t, ip)] else old(log)
      ensures ipForward == old(ipForward)
    {
      var l := links[name];
      ok := ip in l.Get(t);
      links := links[name := l.With(t, l.Get(t) - {ip})];
      if ok {
        log := log + [Deleted(name, t, ip)];
      }
    }
  }
}
