/** The codes of DNS replies: which questions succeed, which names do not exist, and what one failure
    leaves of a message. */
module Rcodes {
  import opened Prelude
  import opened NetAddr
  import opened Specs
  import opened Dns

  lemma HasSuffixMeans(s: string, suffix: string)
    ensures HasSuffix(s, suffix) <==> exists front :: s == front + suffix
  {
    if HasSuffix(s, suffix) {
      assert s == s[..|s|-|suffix|] + suffix;
    }
  }

  /** Is the device in the first network of this name? */
  predicate Listed(spec: seq<CensoredNetwork>, network: string, device: string) {
    var i := NetworkAt(spec, network);
    i >= 0 && exists k | 0 <= k < |spec[i].devices| :: spec[i].devices[k].name == device
  }

  lemma ListedHasAddresses(spec: seq<CensoredNetwork>, network: string, device: string)
    ensures AddressesOf(spec, network, device).Some? <==> Listed(spec, network, device)
    ensures Listed(spec, network, device) ==>
      var devices := spec[NetworkAt(spec, network)].devices;
      exists k | 0 <= k < |devices| ::
        && devices[k].name == device
        && (forall l | 0 <= l < k :: devices[l].name != device)
        && AddressesOf(spec, network, device).value == devices[k].addresses
  {
    if NetworkAt(spec, network) >= 0 {
      var devices := spec[NetworkAt(spec, network)].devices;
      var k := ViewIndex(devices, device);
      assert k >= 0 ==> devices[k].name == device;
    }
  }

  /** A question outside every parent, or of another type, gets no answer and no error. */
  lemma UnansweredMeans(spec: Option<seq<CensoredNetwork>>, parents: seq<Parent>, q: Question)
    requires q.name != ""
    requires q.qtype != TypeA || forall i | 0 <= i < |parents| :: !HasSuffix(q.name[..|q.name|-1], parents[i].suffix)
    ensures Answer(spec, parents, q) == (Success, [])
  {
  }

  /** An A question under a first matching parent: a server failure exactly without a spec, success exactly
      if the name is that of a device of the spec, a name error otherwise; and records only with
      success. */
  lemma AnswerMeans(spec: Option<seq<CensoredNetwork>>, parents: seq<Parent>, q: Question, i: nat)
    requires i < |parents| && ValidParent(parents[i]) && q.qtype == TypeA
    requires q.name != "" && q.name[|q.name|-1] == '.'
    requires HasSuffix(q.name[..|q.name|-1], parents[i].suffix)
    requires forall k | 0 <= k < i :: !HasSuffix(q.name[..|q.name|-1], parents[k].suffix)
    ensures var (code, records) := Answer(spec, parents, q);
      && (code == ServerFailure <==> spec.None?)
      && (code == Success <==>
            spec.Some? && exists n, d :: Names(parents[i], q.name, n, d) && Listed(spec.value, n, d))
      && (code == NameError <==>
            spec.Some? && forall n, d | Names(parents[i], q.name, n, d) :: !Listed(spec.value, n, d))
      && (code != Success ==> records == [])
  {
    var name := q.name[..|q.name|-1];
    Dotted(q.name);
    assert FirstParent(parents, name) == i;
    if spec.Some? {
      match Target(name, parents[i]) {
        case Some((network, device)) =>
          TargetIsNamed(parents[i], name, network, device);
          OnlyTarget(parents[i], name, network, device);
          ListedHasAddresses(spec.value, network, device);
        case None =>
          forall n, d ensures !Names(parents[i], q.name, n, d) {
            if Names(parents[i], q.name, n, d) {
              NamesTarget(parents[i], name, n, d);
            }
          }
      }
    }
  }

  // ----- several questions -----

  /** The records of the first `n` replies. */
  function RecordsOfFirst(rs: seq<Reply>, n: nat): seq<Record>
    requires n <= |rs|
  {
    if n == 0 then [] else RecordsOfFirst(rs, n - 1) + rs[n-1].1
  }

  /** A message has the records of its questions up to the first that fails, that one included, and the
      code of that one. */
  lemma {:induction false} CollectedMeans(rs: seq<Reply>, n: nat) returns (k: nat)
    requires n <= |rs|
    ensures k <= n && forall j | 0 <= j < k :: rs[j].0 == Success
    ensures k == n ==> Collected(rs, n) == (Success, RecordsOfFirst(rs, n))
    ensures k < n ==> rs[k].0 != Success && Collected(rs, n) == (rs[k].0, RecordsOfFirst(rs, k + 1))
  {
    k := 0;
    if n > 0 {
      k := CollectedMeans(rs, n - 1);
      if k == n - 1 && rs[n-1].0 == Success {
        k := n;
      }
    }
  }

  // ----- parents -----

  /** What CheckParents accepts: at least one parent; suffixes that are not empty, do not end in a dot and
      differ from each other; and either both network and device, with no dot in front of the suffix, or
      neither, with one. */
  lemma ValidParentsMean(parents: seq<Parent>)
    ensures ValidParents(parents) <==>
      && |parents| >= 1
      && (forall i, j | 0 <= i < |parents| && 0 <= j < |parents| && i != j :: parents[i].suffix != parents[j].suffix)
      && forall i | 0 <= i < |parents| ::
           && |parents[i].suffix| >= 1
           && parents[i].suffix[|parents[i].suffix|-1] != '.'
           && if parents[i].suffix[0] == '.' then parents[i].network == "" && parents[i].device == ""
              else parents[i].network != "" && parents[i].device != ""
  {
    if parents != [] {
      forall i | 0 <= i < |parents|
        ensures ValidParent(parents[i]) <==>
          && |parents[i].suffix| >= 1
          && parents[i].suffix[|parents[i].suffix|-1] != '.'
          && if parents[i].suffix[0] == '.' then parents[i].network == "" && parents[i].device == ""
             else parents[i].network != "" && parents[i].device != ""
      {
      }
    }
  }
}
