/** The four HTTP requests, answer by answer and field by field. */
module Responses {
  import opened Prelude
  import opened NetAddr
  import opened Specs
  import opened Coord

  /** A request about a network or a device that the spec does not have is not found, whatever its kind,
      and changes nothing; no other is. */
  lemma NotFoundIff(st: ServerState, r: Request)
    requires !r.ReplaceSpec?
    ensures Serve(st, r).1 == NotFound <==>
      || (forall i | 0 <= i < |st.spec.networks| :: st.spec.networks[i].name != r.net)
      || (NetworkIndex(st.spec, r.net) >= 0
          && forall k | 0 <= k < |st.spec.networks[NetworkIndex(st.spec, r.net)].devices| ::
               st.spec.networks[NetworkIndex(st.spec, r.net)].devices[k].public.name != r.dev)
    ensures Serve(st, r).1 == NotFound ==> Serve(st, r).0 == st
  {
  }

  /** Asking changes nothing; a device is the latest exactly if the list of its network has it, and is sent
      the view of the first network of the name for the device. */
  lemma LatestMeans(st: ServerState, net: string, dev: string)
    ensures Serve(st, GetLatest(net, dev)).0 == st && Serve(st, GetSpec(net, dev)).0 == st
    ensures Serve(st, GetLatest(net, dev)).1 != NotFound ==>
      Serve(st, GetLatest(net, dev)).1 == IsLatest(net in st.latest && st.latest[net][dev] > 0)
    ensures Serve(st, GetSpec(net, dev)).1 != NotFound ==>
      && NetworkIndex(st.spec, net) >= 0 && DeviceIndex(st.spec.networks[NetworkIndex(st.spec, net)].devices, dev) >= 0
      && Serve(st, GetSpec(net, dev)).1 == View(Censored(st.spec.networks[NetworkIndex(st.spec, net)], dev))
  {
  }

  /** A report is accepted exactly if it is Equal to the view there is; then the list of its network has the
      device once more, and nothing else changes; otherwise nothing does. */
  lemma ReportMeans(st: ServerState, net: string, dev: string, report: CensoredNetwork)
    requires CurrentView(st.spec, net, dev).Some?
    ensures var (st', resp) := Serve(st, PostStatus(net, dev, report));
      var equal := ViewEqual(report, CurrentView(st.spec, net, dev).value);
      && resp == IsLatest(equal)
      && st'.spec == st.spec
      && (!equal ==> st' == st)
      && (equal ==>
            && st'.latest.Keys == st.latest.Keys + {net}
            && (forall n | n in st.latest && n != net :: st'.latest[n] == st.latest[n])
            && st'.latest[net] == (if net in st.latest then st.latest[net] else multiset{}) + multiset{dev})
  {
  }

  /** What a PATCH makes of a device that is not the one it is for: a clone. */
  predicate Copied(d: NetworkDevice, d': NetworkDevice) {
    && d'.access == d.access
    && d'.public.name == d.public.name && d'.public.endpoints == d.public.endpoints
    && d'.public.chosen == d.public.chosen && !d'.public.usesForwarder
    && d'.public.endpointIndex == d.public.endpointIndex && d'.public.forwarderIndex == d.public.forwarderIndex
    && d'.public.addresses == d.public.addresses && d'.public.listenPort == d.public.listenPort
    && d'.public.publicKey == d.public.publicKey && d'.public.presharedKey == d.public.presharedKey
    && d'.public.keepalive == d.public.keepalive && d'.public.accessible == []
  }

  /** And of the one it is for: the flagged fields are set, the others copied. */
  predicate Amended(d: NetworkDevice, d': NetworkDevice, p: PatchRequest) {
    && d'.access == d.access
    && d'.public.name == d.public.name && d'.public.endpoints == d.public.endpoints
    && d'.public.chosen == d.public.chosen && !d'.public.usesForwarder
    && d'.public.endpointIndex == d.public.endpointIndex && d'.public.forwarderIndex == d.public.forwarderIndex
    && d'.public.addresses == d.public.addresses
    && (if p.listenPort.Some? then d'.public.listenPort == p.listenPort.value
        else d'.public.listenPort == d.public.listenPort)
    && (if p.publicKey.Some? then d'.public.publicKey == p.publicKey.value
        else d'.public.publicKey == d.public.publicKey)
    && (if p.presharedKey.Some? then d'.public.presharedKey == p.presharedKey.value
        else d'.public.presharedKey == d.public.presharedKey)
    && (if p.keepalive.Some? then d'.public.keepalive == p.keepalive.value
        else d'.public.keepalive == d.public.keepalive)
    && d'.public.accessible == if p.accessible.Some? then p.accessible.value else []
  }

  /** A PATCH for a known device is refused exactly if its list names a device that the network does not
      have; then nothing changes. */
  lemma PatchRefusedIff(st: ServerState, net: string, dev: string, p: PatchRequest)
    requires CurrentView(st.spec, net, dev).Some?
    ensures var devices := st.spec.networks[NetworkIndex(st.spec, net)].devices;
      var (st', resp) := Serve(st, PatchSpec(net, dev, p));
      && (resp == BadRequest <==>
            p.accessible.Some? && exists j | 0 <= j < |p.accessible.value| ::
              forall k | 0 <= k < |devices| :: devices[k].public.name != p.accessible.value[j])
      && (resp == BadRequest || resp == Done)
      && (resp == BadRequest ==> st' == st)
  {
    var n := GetNetwork(st.spec, net);
    if p.accessible.Some? {
      var names := p.accessible.value;
      if PatchAcceptable(n, p) {
        forall j | 0 <= j < |names| ensures exists k | 0 <= k < |n.devices| :: n.devices[k].public.name == names[j] {
          assert names[j] in names;
          assert n.devices[DeviceIndex(n.devices, names[j])].public.name == names[j];
        }
      } else {
        var name :| name in names && !HasDevice(n, name);
        var j :| 0 <= j < |names| && names[j] == name;
      }
    }
  }

  /** Otherwise every device of every network is copied, but for the first device of the name in the first
      network of the name, whose flagged fields are set. */
  lemma PatchMeans(st: ServerState, net: string, dev: string, p: PatchRequest, i: nat, j: nat)
    requires CurrentView(st.spec, net, dev).Some? && Serve(st, PatchSpec(net, dev, p)).1 == Done
    requires i < |st.spec.networks| && j < |st.spec.networks[i].devices|
    ensures var nI := NetworkIndex(st.spec, net);
      var dI := DeviceIndex(st.spec.networks[nI].devices, dev);
      var before, after := st.spec.networks, Serve(st, PatchSpec(net, dev, p)).0.spec.networks;
      && |after| == |before|
      && after[i].name == before[i].name
      && |after[i].devices| == |before[i].devices|
      && if i == nI && j == dI then Amended(before[i].devices[j], after[i].devices[j], p)
         else Copied(before[i].devices[j], after[i].devices[j])
  {
  }
}
