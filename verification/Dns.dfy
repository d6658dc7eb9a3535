/** dns/dns.go: answering DNS questions about devices. Names are those of section 3.1 of
    RFC 1035 in text form, with their final dot. */
module Dns {
  import opened Prelude
  import opened NetAddr
  import opened Specs

  /** A configured suffix; Network and Device are both given or both empty. */
  datatype Parent = Parent(suffix: string, network: string, device: string)

  datatype QType = TypeA | OtherType

  datatype Question = Question(name: string, qtype: QType)

  datatype Record = A(name: string, ip: IP) | AAAA(name: string, ip: IP)

  /** Section 4.1.1 of RFC 1035: NOERROR, SERVFAIL and NXDOMAIN. */
  datatype Rcode = Success | ServerFailure | NameError

  // ----- strings -----

  /** strings.HasSuffix */
  predicate HasSuffix(s: string, suffix: string) {
    |suffix| <= |s| && s[|s|-|suffix|..] == suffix
  }

  /** strings.TrimSuffix */
  function TrimSuffix(s: string, suffix: string): string {
    if HasSuffix(s, suffix) then s[..|s|-|suffix|] else s
  }

  /** strings.Split at dots */
  function Split(s: string): (parts: seq<string>)
    ensures |parts| >= 1
  {
    if s == "" then [""]
    else
      var rest := Split(s[1..]);
      if s[0] == '.' then [""] + rest else [[s[0]] + rest[0]] + rest[1..]
  }

  /** slices.Reverse */
  function Reversed<T>(s: seq<T>): (r: seq<T>)
    ensures |r| == |s|
    ensures forall i | 0 <= i < |s| :: r[i] == s[|s|-1-i]
  {
    seq(|s|, i requires 0 <= i < |s| => s[|s|-1-i])
  }

  predicate DotFree(s: string) { '.' !in s }

  lemma SplitStep(s: string)
    requires s != ""
    ensures s == [s[0]] + s[1..]
    ensures s[0] == '.' ==> Split(s) == [""] + Split(s[1..])
    ensures s[0] != '.' ==> Split(s) == [[s[0]] + Split(s[1..])[0]] + Split(s[1..])[1..]
    ensures s[0] != '.' ==> Split(s)[0] != ""
    ensures DotFree(s) <==> s[0] != '.' && DotFree(s[1..])
  {
  }

  lemma {:induction false} SplitOne(s: string, a: string)
    ensures Split(s) == [a] <==> DotFree(s) && s == a
  {
    if s != "" {
      var rest := Split(s[1..]);
      SplitStep(s);
      SplitOne(s[1..], rest[0]);
      SplitOne(s[1..], s[1..]);
      if Split(s) == [a] {
        assert a == Split(s)[0];
        assert rest == [rest[0]] + rest[1..];
      }
    }
  }

  /** Splitting gives two parts exactly for two dot-free strings joined by a dot. */
  lemma {:induction false} SplitTwo(s: string, a: string, b: string)
    ensures Split(s) == [a, b] <==> DotFree(a) && DotFree(b) && s == a + "." + b
  {
    if s == "" {
    } else if s[0] == '.' {
      SplitTwoDot(s, a, b);
    } else if a == "" {
      SplitStep(s);
      assert (a + "." + b)[0] == '.';
    } else {
      SplitTwo(s[1..], a[1..], b);
      SplitTwoChar(s, a, b);
    }
  }

  lemma SplitTwoDot(s: string, a: string, b: string)
    requires s != "" && s[0] == '.'
    ensures Split(s) == [a, b] <==> DotFree(a) && DotFree(b) && s == a + "." + b
  {
    SplitStep(s);
    SplitOne(s[1..], b);
    if Split(s) == [a, b] {
      assert Split(s[1..]) == Split(s)[1..];
      assert a == Split(s)[0] == "";
      assert s == a + "." + b;
    }
    assert a != "" ==> (a + "." + b)[0] == a[0] && a[0] in a;
    if a == "" && s == a + "." + b {
      assert s[1..] == b;
    }
  }

  lemma SplitTwoChar(s: string, a: string, b: string)
    requires s != "" && s[0] != '.' && a != ""
    requires Split(s[1..]) == [a[1..], b] <==> DotFree(a[1..]) && DotFree(b) && s[1..] == a[1..] + "." + b
    ensures Split(s) == [a, b] <==> DotFree(a) && DotFree(b) && s == a + "." + b
  {
    SplitStep(s);
    SplitStep(a);
    ConsParts(s[0], Split(s[1..]), a, b);
    ConsName(s, a, b);
  }

  lemma ConsParts(c: char, rest: seq<string>, a: string, b: string)
    requires rest != [] && a != ""
    ensures [[c] + rest[0]] + rest[1..] == [a, b] <==> c == a[0] && rest == [a[1..], b]
  {
    var parts := [[c] + rest[0]] + rest[1..];
    assert a == [a[0]] + a[1..];
    if parts == [a, b] {
      assert parts[0] == a && parts[1..] == rest[1..];
      assert rest[0] == a[1..];
      assert rest == [rest[0]] + rest[1..];
    }
  }

  lemma ConsName(s: string, a: string, b: string)
    requires s != "" && a != ""
    ensures s == a + "." + b <==> s[0] == a[0] && s[1..] == a[1..] + "." + b
  {
    assert a + "." + b == [a[0]] + (a[1..] + "." + b);
    assert s == [s[0]] + s[1..];
    assert (a + "." + b)[1..] == a[1..] + "." + b;
  }

  // ----- validation -----

  /** The checks of NewServer on a single parent. */
  predicate ValidParent(p: Parent) {
    && p.suffix != ""
    && p.suffix[|p.suffix|-1] != '.'
    && (p.network == "" <==> p.device == "")
    && (p.network != "" && p.device != "" ==> p.suffix[0] != '.')
    && (p.network == "" && p.device == "" ==> p.suffix[0] == '.')
  }

  ghost predicate ValidParents(parents: seq<Parent>) {
    && parents != []
    && (forall i | 0 <= i < |parents| :: ValidParent(parents[i]))
    && (forall i, j | 0 <= i < j < |parents| :: parents[i].suffix != parents[j].suffix)
  }

  // ----- one question under one parent -----

  /** The parts of a name in front of the suffix, network first, completed by the preset ones. */
  function Parts(name: string, p: Parent): seq<string> {
    var split := Split(TrimSuffix(name, p.suffix));
    var parts := Reversed(if split == [""] then [] else split);
    var withDevice := if p.device != "" then [p.device] + parts else parts;
    if p.network != "" then [p.network] + withDevice else withDevice
  }

  /** The network and device that a name stands for under a parent. */
  function Target(name: string, p: Parent): Option<(string, string)> {
    var parts := Parts(name, p);
    if |parts| == 2 then Some((parts[0], parts[1])) else None
  }

  predicate Preset(p: Parent) { p.network != "" }

  /** Names and devices correspond both ways: under a valid parent a name stands for a device
      exactly if it is `device.network` in front of the suffix, with both dot-free, or, for a
      preset parent, if it is the suffix itself. */
  lemma TargetIff(name: string, p: Parent, network: string, device: string)
    requires ValidParent(p) && HasSuffix(name, p.suffix)
    ensures Target(name, p) == Some((network, device))
            <==> if Preset(p) then name == p.suffix && network == p.network && device == p.device
                 else DotFree(network) && DotFree(device) && name == device + "." + network + p.suffix
  {
    var front := TrimSuffix(name, p.suffix);
    var split := Split(front);
    assert name == front + p.suffix;
    SplitOne(front, "");
    SplitTwo(front, device, network);
    if Preset(p) {
      assert |Parts(name, p)| == 2 <==> split == [""];
      assert front == "" <==> name == p.suffix;
    } else {
      assert name == device + "." + network + p.suffix <==> front == device + "." + network by {
        if name == device + "." + network + p.suffix {
          assert name[..|name|-|p.suffix|] == device + "." + network;
        }
      }
      if |split| == 2 {
        assert split == [split[0], split[1]];
        assert Reversed(split) == [split[1], split[0]];
      }
    }
  }

  // ----- answers -----

  /** The records for a list of networks: /32 as A, /128 as AAAA, others skipped. */
  function Records(name: string, nets: seq<IPNet>): seq<Record> {
    if nets == [] then []
    else
      var last := nets[|nets|-1];
      Records(name, nets[..|nets|-1])
      + (if last.mask == MASK32 then [A(name, last.ip)]
         else if last.mask == MASK128 then [AAAA(name, last.ip)]
         else [])
  }

  const MASK32: seq<Byte> := [255, 255, 255, 255]
  const MASK128: seq<Byte> := [255, 255, 255, 255, 255, 255, 255, 255, 255, 255, 255, 255, 255, 255, 255, 255]

  function NetworkAt(spec: seq<CensoredNetwork>, name: string): (i: int)
    ensures -1 <= i < |spec|
    ensures i >= 0 ==> spec[i].name == name && forall k | 0 <= k < i :: spec[k].name != name
    ensures i == -1 ==> forall k | 0 <= k < |spec| :: spec[k].name != name
  {
    FirstIndex(spec, (n: CensoredNetwork) => n.name == name)
  }

  /** The addresses of a device of the spec. */
  function AddressesOf(spec: seq<CensoredNetwork>, network: string, device: string): Option<seq<IPNet>> {
    var i := NetworkAt(spec, network);
    if i < 0 then None
    else
      var j := ViewIndex(spec[i].devices, device);
      if j < 0 then None else Some(spec[i].devices[j].addresses)
  }

  /** handleParent: the code and the records added. */
  function UnderParent(spec: Option<seq<CensoredNetwork>>, q: Question, p: Parent): (Rcode, seq<Record>)
    requires q.name != ""
  {
    if spec.None? then (ServerFailure, [])
    else
      match Target(q.name[..|q.name|-1], p)
      case None => (NameError, [])
      case Some((network, device)) =>
        match AddressesOf(spec.value, network, device)
        case None => (NameError, [])
        case Some(nets) => (Success, Records(q.name, nets))
  }

  /** The first parent whose suffix the name has, or -1. */
  function FirstParent(parents: seq<Parent>, name: string): (i: int)
    ensures -1 <= i < |parents|
    ensures i >= 0 ==>
      HasSuffix(name, parents[i].suffix) && forall k | 0 <= k < i :: !HasSuffix(name, parents[k].suffix)
    ensures i == -1 ==> forall k | 0 <= k < |parents| :: !HasSuffix(name, parents[k].suffix)
  {
    FirstIndex(parents, (p: Parent) => HasSuffix(name, p.suffix))
  }

  /** One question: names outside every parent, and types other than A, get no answer and no error. */
  function Answer(spec: Option<seq<CensoredNetwork>>, parents: seq<Parent>, q: Question): (Rcode, seq<Record>)
    requires q.name != ""
  {
    var i := FirstParent(parents, q.name[..|q.name|-1]);
    if i < 0 || q.qtype != TypeA then (Success, [])
    else UnderParent(spec, q, parents[i])
  }

  type Reply = (Rcode, seq<Record>)

  predicate IsReply(spec: Option<seq<CensoredNetwork>>, parents: seq<Parent>, q: Question, reply: Reply)
    requires q.name != ""
  {
    reply == Answer(spec, parents, q)
  }

  /** `rs` is what each question would get on its own. */
  ghost predicate Replies(spec: Option<seq<CensoredNetwork>>, parents: seq<Parent>, qs: seq<Question>, rs: seq<Reply>)
    requires forall i | 0 <= i < |qs| :: qs[i].name != ""
  {
    |rs| == |qs| && forall i {:trigger IsReply(spec, parents, qs[i], rs[i])} | 0 <= i < |qs| ::
      IsReply(spec, parents, qs[i], rs[i])
  }

  /** The first `n` replies in one message. The first error ends it, but the answers so far, its
      own included, stay in the message. */
  function Collected(rs: seq<Reply>, n: nat): Reply
    requires n <= |rs|
  {
    if n == 0 then (Success, [])
    else
      var before := Collected(rs, n - 1);
      if before.0 != Success then before else (rs[n-1].0, before.1 + rs[n-1].1)
  }

  lemma {:induction false} CollectedEnds(rs: seq<Reply>, m: nat, n: nat)
    requires m <= n <= |rs| && Collected(rs, m).0 != Success
    ensures Collected(rs, n) == Collected(rs, m)
  {
    if m < n {
      CollectedEnds(rs, m, n - 1);
    }
  }

  // ----- the code -----

  class Msg {
    const question: seq<Question>
    var answer: seq<Record>

    constructor (question: seq<Question>)
      ensures this.question == question && answer == []
    {
      this.question := question;
      answer := [];
    }
  }

  class Server {
    const parents: seq<Parent>
    /** The spec last received over RPC, if any. */
    var spec: Option<seq<CensoredNetwork>>

    constructor (parents: seq<Parent>)
      requires ValidParents(parents)
      ensures this.parents == parents && spec == None
    {
      this.parents := parents;
      spec := None;
    }

    /** UpdateSpec, the one call over RPC. */
    method UpdateSpec(spec: seq<CensoredNetwork>)
      modifies this`spec
      ensures this.spec == Some(spec)
    {
      this.spec := Some(spec);
    }

    /** The checks of NewServer. */
    static method CheckParents(parents: seq<Parent>) returns (ok: bool)
      ensures ok <==> ValidParents(parents)
    {
      if |parents| == 0 {
        return false;
      }
      var suffixes: map<string, nat> := map[];
      for i := 0 to |parents|
        invariant forall k | 0 <= k < i :: ValidParent(parents[k]) && parents[k].suffix in suffixes
        invariant forall s | s in suffixes :: suffixes[s] < i && parents[suffixes[s]].suffix == s
        invariant forall j, k | 0 <= j < k < i :: parents[j].suffix != parents[k].suffix
      {
        var p := parents[i];
        if p.suffix == "" {
          return false;
        }
        if p.suffix[|p.suffix|-1] == '.' {
          return false;
        }
        if (p.network == "") != (p.device == "") {
          return false;
        }
        if p.network != "" && p.device != "" && p.suffix[0] == '.' {
          return false;
        }
        if p.network == "" && p.device == "" && p.suffix[0] != '.' {
          return false;
        }
        if p.suffix in suffixes {
          assert parents[suffixes[p.suffix]].suffix == parents[i].suffix;
          return false;
        }
        suffixes := suffixes[p.suffix := i];
      }
      return true;
    }

    method ReturnAddresses(r: Msg, q: Question, addresses: seq<IPNet>)
      modifies r
      ensures r.answer == old(r.answer) + Records(q.name, addresses)
    {
      for i := 0 to |addresses|
        invariant r.answer == old(r.answer) + Records(q.name, addresses[..i])
      {
        assert addresses[..i+1][..i] == addresses[..i];
        var ipNet := addresses[i];
        if ipNet.mask == MASK32 {
          r.answer := r.answer + [A(q.name, ipNet.ip)];
        } else if ipNet.mask == MASK128 {
          r.answer := r.answer + [AAAA(q.name, ipNet.ip)];
        }
      }
      assert addresses[..|addresses|] == addresses;
    }

    /** The first part of handleParent: from the name to a network and a device. */
    static method ParseName(name: string, parent: Parent) returns (target: Option<(string, string)>)
      ensures target == Target(name, parent)
    {
      var parts := Split(TrimSuffix(name, parent.suffix));
      if |parts| == 1 && parts[0] == "" {
        parts := [];
      }
      parts := Reversed(parts);
      if parent.device != "" {
        parts := [parent.device] + parts;
      }
      if parent.network != "" {
        parts := [parent.network] + parts;
      }
      assert parts == Parts(name, parent);
      if |parts| != 2 {
        return None;
      }
      return Some((parts[0], parts[1]));
    }

    method HandleParent(r: Msg, q: Question, parent: Parent) returns (rcode: Rcode)
      requires q.name != ""
      modifies r
      ensures rcode == UnderParent(spec, q, parent).0
      ensures r.answer == old(r.answer) + UnderParent(spec, q, parent).1
    {
      if spec.None? {
        return ServerFailure;
      }
      var target := ParseName(q.name[..|q.name|-1], parent);
      if target.None? {
        return NameError;
      }
      var (network, device) := target.value;
      var i := NetworkAt(spec.value, network);
      if i < 0 {
        return NameError;
      }
      var j := ViewIndex(spec.value[i].devices, device);
      if j < 0 {
        return NameError;
      }
      ReturnAddresses(r, q, spec.value[i].devices[j].addresses);
      return Success;
    }

    /** The inner loop of handleQuery: only the first parent with a matching suffix is tried. */
    method HandleQuestion(r: Msg, q: Question) returns (rcode: Rcode)
      requires q.name != ""
      modifies r
      ensures rcode == Answer(spec, parents, q).0
      ensures r.answer == old(r.answer) + Answer(spec, parents, q).1
    {
      var name := q.name[..|q.name|-1];
      for i := 0 to |parents|
        invariant r.answer == old(r.answer)
        invariant forall k | 0 <= k < i :: !HasSuffix(name, parents[k].suffix)
      {
        if HasSuffix(name, parents[i].suffix) {
          assert FirstParent(parents, name) == i;
          if q.qtype == TypeA {
            rcode := HandleParent(r, q, parents[i]);
            return;
          }
          return Success;
        }
      }
      return Success;
    }

    /** One round of the outer loop. */
    method HandleNth(r: Msg, n: nat, ghost rs: seq<Reply>) returns (rcode: Rcode)
      requires n < |r.question| && forall i | 0 <= i < |r.question| :: r.question[i].name != ""
      requires Replies(spec, parents, r.question, rs)
      modifies r
      ensures rcode == rs[n].0 && r.answer == old(r.answer) + rs[n].1
    {
      assert IsReply(spec, parents, r.question[n], rs[n]);
      rcode := HandleQuestion(r, r.question[n]);
    }

    method HandleQuery(r: Msg, ghost rs: seq<Reply>) returns (rcode: Rcode)
      requires forall i | 0 <= i < |r.question| :: r.question[i].name != ""
      requires Replies(spec, parents, r.question, rs)
      modifies r
      ensures rcode == Collected(rs, |rs|).0
      ensures r.answer == old(r.answer) + Collected(rs, |rs|).1
      ensures |r.question| == 1 ==>
        rcode == Answer(spec, parents, r.question[0]).0
        && r.answer == old(r.answer) + Answer(spec, parents, r.question[0]).1
    {
      rcode := HandleAll(r, rs);
      if |r.question| == 1 {
        OnlyReply(spec, parents, r.question, rs);
      }
    }

    /** The outer loop. */
    method HandleAll(r: Msg, ghost rs: seq<Reply>) returns (rcode: Rcode)
      requires forall i | 0 <= i < |r.question| :: r.question[i].name != ""
      requires Replies(spec, parents, r.question, rs)
      modifies r
      ensures rcode == Collected(rs, |rs|).0
      ensures r.answer == old(r.answer) + Collected(rs, |rs|).1
    {
      for n := 0 to |r.question|
        invariant Replies(spec, parents, r.question, rs)
        invariant Collected(rs, n).0 == Success
        invariant r.answer == old(r.answer) + Collected(rs, n).1
      {
        rcode := HandleNth(r, n, rs);
        if rcode != Success {
          CollectedEnds(rs, n + 1, |rs|);
          return;
        }
      }
      return Success;
    }
  }

  lemma OnlyReply(spec: Option<seq<CensoredNetwork>>, parents: seq<Parent>, qs: seq<Question>, rs: seq<Reply>)
    requires |qs| == 1 && qs[0].name != "" && Replies(spec, parents, qs, rs)
    ensures Collected(rs, |rs|) == Answer(spec, parents, qs[0])
  {
    assert IsReply(spec, parents, qs[0], rs[0]);
    SingleCollected(rs);
  }

  lemma SingleCollected(rs: seq<Reply>)
    requires |rs| == 1
    ensures Collected(rs, 1) == rs[0]
  {
    assert Collected(rs, 0) == (Success, []);
    assert [] + rs[0].1 == rs[0].1;
    assert Collected(rs, 1) == (rs[0].0, [] + rs[0].1);
  }

  // ----- what is answered -----

  /** The full name of a device under a parent, with the final dot. */
  function NameOf(p: Parent, network: string, device: string): string {
    if Preset(p) then p.suffix + "." else device + "." + network + p.suffix + "."
  }

  predicate Nameable(p: Parent, network: string, device: string) {
    if Preset(p) then network == p.network && device == p.device else DotFree(network) && DotFree(device)
  }

  /** Is `name` the name of the device under the parent? */
  predicate Names(p: Parent, name: string, network: string, device: string) {
    Nameable(p, network, device) && name == NameOf(p, network, device)
  }

  /** Asking for a device by its name under the first parent that matches gives exactly the /32 and
      /128 addresses of that device, in their order. */
  lemma NameIsAnswered(spec: seq<CensoredNetwork>, parents: seq<Parent>, i: nat, network: string, device: string)
    requires i < |parents| && ValidParent(parents[i]) && Nameable(parents[i], network, device)
    requires var name := NameOf(parents[i], network, device); FirstParent(parents, name[..|name|-1]) == i
    requires AddressesOf(spec, network, device).Some?
    ensures var name := NameOf(parents[i], network, device);
      Answer(Some(spec), parents, Question(name, TypeA))
        == (Success, Records(name, AddressesOf(spec, network, device).value))
  {
    var p := parents[i];
    var name := NameOf(p, network, device);
    assert name[..|name|-1] == if Preset(p) then p.suffix else device + "." + network + p.suffix;
    TargetIff(name[..|name|-1], p, network, device);
  }

  /** Conversely, any answer with a record names, under its first parent, exactly one device of the
      spec, and is the answer for that device. */
  lemma AnswerHasName(spec: seq<CensoredNetwork>, parents: seq<Parent>, q: Question)
    returns (network: string, device: string)
    requires ValidParents(parents) && q.name != "" && q.name[|q.name|-1] == '.'
    requires Answer(Some(spec), parents, q).1 != []
    ensures var i := FirstParent(parents, q.name[..|q.name|-1]);
      && i >= 0
      && Names(parents[i], q.name, network, device)
      && AddressesOf(spec, network, device).Some?
      && Answer(Some(spec), parents, q) == (Success, Records(q.name, AddressesOf(spec, network, device).value))
    ensures var p := parents[FirstParent(parents, q.name[..|q.name|-1])];
      forall n, d | Names(p, q.name, n, d) :: n == network && d == device
  {
    var name := q.name[..|q.name|-1];
    var p := parents[FirstParent(parents, name)];
    var target := AnswerHasTarget(spec, parents, q);
    network, device := target.0, target.1;
    Dotted(q.name);
    TargetIsNamed(p, name, network, device);
    OnlyTarget(p, name, network, device);
  }

  lemma Dotted(s: string)
    requires s != "" && s[|s|-1] == '.'
    ensures s == s[..|s|-1] + "."
  {
  }

  lemma OnlyTarget(p: Parent, name: string, network: string, device: string)
    requires ValidParent(p) && HasSuffix(name, p.suffix) && Target(name, p) == Some((network, device))
    ensures forall n, d | Names(p, name + ".", n, d) :: n == network && d == device
  {
    forall n, d | Names(p, name + ".", n, d) ensures n == network && d == device {
      NamesTarget(p, name, n, d);
    }
  }

  lemma TargetIsNamed(p: Parent, name: string, network: string, device: string)
    requires ValidParent(p) && HasSuffix(name, p.suffix) && Target(name, p) == Some((network, device))
    ensures Names(p, name + ".", network, device)
  {
    TargetIff(name, p, network, device);
  }

  lemma AnswerHasTarget(spec: seq<CensoredNetwork>, parents: seq<Parent>, q: Question)
    returns (target: (string, string))
    requires q.name != "" && Answer(Some(spec), parents, q).1 != []
    ensures var name := q.name[..|q.name|-1]; var i := FirstParent(parents, name);
      && i >= 0
      && Target(name, parents[i]) == Some(target)
      && AddressesOf(spec, target.0, target.1).Some?
      && Answer(Some(spec), parents, q) == (Success, Records(q.name, AddressesOf(spec, target.0, target.1).value))
  {
    var name := q.name[..|q.name|-1];
    target := Target(name, parents[FirstParent(parents, name)]).value;
  }

  lemma NamesTarget(p: Parent, name: string, network: string, device: string)
    requires ValidParent(p) && HasSuffix(name, p.suffix) && Names(p, name + ".", network, device)
    ensures Target(name, p) == Some((network, device))
  {
    assert name == (name + ".")[..|name|];
    assert name == if Preset(p) then p.suffix else device + "." + network + p.suffix;
    TargetIff(name, p, network, device);
  }

  /** Is the mask one of 32 or 128 ones? */
  predicate FullMask(n: IPNet) {
    (|n.mask| == 4 || |n.mask| == 16) && forall k | 0 <= k < |n.mask| :: n.mask[k] == 255
  }

  lemma FullMaskIs(n: IPNet)
    ensures n.mask == MASK32 <==> |n.mask| == 4 && FullMask(n)
    ensures n.mask == MASK128 <==> |n.mask| == 16 && FullMask(n)
  {
  }

  /** Is the record of the right type for the network, with its address? */
  predicate RecordFor(name: string, r: Record, n: IPNet) {
    r == if |n.mask| == 4 then A(name, n.ip) else AAAA(name, n.ip)
  }

  /** `of` gives, in order, the network each record is for; these are exactly the ones with a full mask. */
  ghost predicate RecordsOf(name: string, nets: seq<IPNet>, rs: seq<Record>, of: seq<nat>) {
    && |of| == |rs|
    && (forall k | 0 <= k < |of| :: of[k] < |nets| && FullMask(nets[of[k]]) && RecordFor(name, rs[k], nets[of[k]]))
    && (forall j, k | 0 <= j < k < |of| :: of[j] < of[k])
    && (forall i | 0 <= i < |nets| && FullMask(nets[i]) :: i in of)
  }

  /** The answer has one record for each network with a full mask, in order, and no other. */
  lemma {:induction false} RecordsMean(name: string, nets: seq<IPNet>) returns (of: seq<nat>)
    ensures RecordsOf(name, nets, Records(name, nets), of)
  {
    of := [];
    if nets != [] {
      var last := |nets| - 1;
      var front := nets[..last];
      of := RecordsMean(name, front);
      assert nets == front + [nets[last]];
      FullMaskIs(nets[last]);
      RecordsGrow(name, front, Records(name, front), of, nets[last]);
      if FullMask(nets[last]) {
        of := of + [last];
      }
    }
  }

  lemma RecordsGrow(name: string, nets: seq<IPNet>, rs: seq<Record>, of: seq<nat>, n: IPNet)
    requires RecordsOf(name, nets, rs, of)
    ensures if FullMask(n)
            then RecordsOf(name, nets + [n], rs + [if n.mask == MASK32 then A(name, n.ip) else AAAA(name, n.ip)],
                           of + [|nets|])
            else RecordsOf(name, nets + [n], rs, of)
  {
    forall i | 0 <= i < |nets| && FullMask(nets[i]) ensures i in of + [|nets|] {
      assert i in of;
    }
  }
}
