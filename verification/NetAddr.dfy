/** IP addresses and IP networks as byte strings, with the comparisons of Go's net package
    that the repository relies on (net.IP.To4, net.IP.Equal, net.IPNet.Contains) and the
    orders of goal/util.go. */
module NetAddr {
  import opened Prelude
  import opened Orders

  type Byte = x: int | 0 <= x < 256
  type IP = seq<Byte>

  datatype IPNet = IPNet(ip: IP, mask: seq<Byte>)

  const V4_IN_V6_PREFIX: seq<Byte> := [0, 0, 0, 0, 0, 0, 0, 0, 0, 0, 255, 255]

  /** Is `ip` the 16-byte form of an IPv4 address? */
  predicate Mapped(ip: IP) {
    |ip| == 16 && ip[..12] == V4_IN_V6_PREFIX
  }

  /** net.IP.To4 */
  function To4(ip: IP): Option<IP> {
    if |ip| == 4 then Some(ip)
    else if Mapped(ip) then Some(ip[12..])
    else None
  }

  /** net.IP.Equal: a 4-byte address equals its 16-byte form. */
  predicate IPEqual(a: IP, b: IP) {
    if |a| == |b| then a == b
    else if |a| == 4 && |b| == 16 then b[..12] == V4_IN_V6_PREFIX && a == b[12..]
    else if |a| == 16 && |b| == 4 then a[..12] == V4_IN_V6_PREFIX && a[12..] == b
    else false
  }

  /** spec/spec.go ipNetEqual */
  predicate IPNetEqual(a: IPNet, b: IPNet) {
    IPEqual(a.ip, b.ip) && a.mask == b.mask
  }

  /** The shortest byte string of an address. */
  function CanonIP(ip: IP): IP {
    match To4(ip)
    case Some(short) => short
    case None => ip
  }

  function CanonNet(n: IPNet): IPNet {
    IPNet(CanonIP(n.ip), n.mask)
  }

  lemma CanonNetIdempotent(n: IPNet)
    ensures CanonNet(CanonNet(n)) == CanonNet(n)
  {
  }

  /** A network written as text and read back (IPNet.String and net.ParseCIDR): an IPv4-mapped entry
      loses twelve leading bytes, of the address and of a 16-byte mask. */
  function TextNet(n: IPNet): IPNet {
    match To4(n.ip)
    case Some(short) => IPNet(short, if |n.mask| == 16 then n.mask[12..] else n.mask)
    case None => n
  }

  /** Does the network read back Equal? Not if it is IPv4-mapped and has a 16-byte mask. */
  predicate ReadsBack(n: IPNet) {
    To4(n.ip).Some? ==> |n.mask| != 16
  }

  lemma TextNetMeans(n: IPNet)
    ensures TextNet(TextNet(n)) == TextNet(n) == CanonNet(TextNet(n))
    ensures ReadsBack(n) <==> TextNet(n) == CanonNet(n)
    ensures ReadsBack(n) <==> IPNetEqual(TextNet(n), n)
  {
    IPEqualIffCanon(TextNet(n).ip, n.ip);
  }

  /** net.IP.Equal is equality of canonical forms, hence an equivalence relation. */
  lemma IPEqualIffCanon(a: IP, b: IP)
    ensures IPEqual(a, b) <==> CanonIP(a) == CanonIP(b)
  {
    if Mapped(a) {
      assert a == a[..12] + a[12..];
    }
    if Mapped(b) {
      assert b == b[..12] + b[12..];
    }
  }

  // ----- orders -----

  function ByteValue(b: Byte): int { b }

  /** goal/util.go lessIPNet: byte order of the addresses, then of the masks. */
  predicate LessIPNet(x: IPNet, y: IPNet) {
    var ip := Compare(ByteValue, x.ip, y.ip);
    var mask := Compare(ByteValue, x.mask, y.mask);
    ip < 0 || (ip == 0 && mask < 0)
  }

  /** lessIPNet is a strict weak order, and tells apart any two values that differ as bytes. */
  lemma LessIPNetTotal()
    ensures StrictTotal(LessIPNet)
  {
    forall x, y ensures LessIPNet(x, y) ==> !LessIPNet(y, x) {
      CompareAntisymmetric(ByteValue, x.ip, y.ip);
      CompareAntisymmetric(ByteValue, x.mask, y.mask);
    }
    forall x, y, z ensures Splits(LessIPNet, x, y, z) {
      LessIPNetSplits(x, y, z);
    }
    forall x: IPNet, y: IPNet ensures x != y ==> LessIPNet(x, y) || LessIPNet(y, x) {
      CompareAntisymmetric(ByteValue, x.ip, y.ip);
      CompareAntisymmetric(ByteValue, x.mask, y.mask);
      CompareZero(ByteValue, x.ip, y.ip);
      CompareZero(ByteValue, x.mask, y.mask);
    }
  }

  lemma LessIPNetSplits(x: IPNet, y: IPNet, z: IPNet)
    ensures Splits(LessIPNet, x, y, z)
  {
    if LessIPNet(x, y) && !LessIPNet(x, z) && !LessIPNet(z, y) {
      CompareAntisymmetric(ByteValue, x.ip, y.ip);
      CompareAntisymmetric(ByteValue, x.ip, z.ip);
      CompareAntisymmetric(ByteValue, z.ip, y.ip);
      CompareTransitive(ByteValue, y.ip, z.ip, x.ip);
      CompareAntisymmetric(ByteValue, x.mask, y.mask);
      CompareAntisymmetric(ByteValue, x.mask, z.mask);
      CompareAntisymmetric(ByteValue, z.mask, y.mask);
      if Compare(ByteValue, y.mask, z.mask) <= 0 && Compare(ByteValue, z.mask, x.mask) <= 0 {
        CompareTransitive(ByteValue, y.mask, z.mask, x.mask);
      }
    }
  }

  /** What sorting a slice of networks in place leaves behind. */
  function SortNets(nets: seq<IPNet>): seq<IPNet> {
    SortSeq(LessIPNet, nets)
  }

  /** Shortest spelling of the addresses throughout. */
  function CanonNets(nets: seq<IPNet>): seq<IPNet> {
    Map(CanonNet, nets)
  }

  /** Every network as read back from text. */
  function TextNets(nets: seq<IPNet>): seq<IPNet> {
    Map(TextNet, nets)
  }

  predicate AllReadBack(nets: seq<IPNet>) {
    forall i | 0 <= i < |nets| :: ReadsBack(nets[i])
  }

  lemma TextNetsMean(nets: seq<IPNet>)
    ensures TextNets(TextNets(nets)) == TextNets(nets) == CanonNets(TextNets(nets))
    ensures AllReadBack(nets) ==> TextNets(nets) == CanonNets(nets)
  {
    forall i | 0 <= i < |nets|
      ensures TextNet(TextNet(nets[i])) == TextNet(nets[i]) == CanonNet(TextNet(nets[i]))
      ensures ReadsBack(nets[i]) <==> TextNet(nets[i]) == CanonNet(nets[i])
    {
      TextNetMeans(nets[i]);
    }
  }

  /** Sorting addresses that were read from text does not respell them. */
  lemma SortTextNets(nets: seq<IPNet>)
    ensures TextNets(SortNets(TextNets(nets))) == SortNets(TextNets(nets))
  {
    var c := TextNets(nets);
    var s := SortNets(c);
    forall i | 0 <= i < |s| ensures TextNet(s[i]) == s[i] {
      assert s[i] in multiset(s);
      assert s[i] in c;
      var j :| 0 <= j < |nets| && s[i] == c[j];
      TextNetMeans(nets[j]);
    }
  }

  // ----- families -----

  /** net.IP.To4 recognizes four bytes, and sixteen that begin with ten zeros and 255, 255. */
  lemma To4Means(ip: IP)
    ensures To4(ip).Some? <==> |ip| == 4 || (|ip| == 16 && ip[..12] == [0, 0, 0, 0, 0, 0, 0, 0, 0, 0, 255, 255])
    ensures To4(ip).Some? ==> To4(ip).value == ip[|ip|-4..]
  {
  }

  /** lessIPNet compares addresses first and masks second, each by the first byte that differs; a proper
      beginning comes before. */
  lemma LessIPNetMeans(x: IPNet, y: IPNet)
    ensures LessIPNet(x, y) <==>
      || (exists k: nat :: k <= |x.ip| && k < |y.ip| && x.ip[..k] == y.ip[..k] && (k < |x.ip| ==> x.ip[k] < y.ip[k]))
      || (x.ip == y.ip && exists k: nat ::
            && k <= |x.mask| && k < |y.mask| && x.mask[..k] == y.mask[..k]
            && (k < |x.mask| ==> x.mask[k] < y.mask[k]))
  {
    assert forall k: nat :: ComesFirst(ByteValue, x.ip, y.ip, k) <==>
      k <= |x.ip| && k < |y.ip| && x.ip[..k] == y.ip[..k] && (k < |x.ip| ==> x.ip[k] < y.ip[k]);
    assert forall k: nat :: ComesFirst(ByteValue, x.mask, y.mask, k) <==>
      && k <= |x.mask| && k < |y.mask| && x.mask[..k] == y.mask[..k]
      && (k < |x.mask| ==> x.mask[k] < y.mask[k]);
    CompareMeans(ByteValue, x.ip, y.ip);
    CompareMeans(ByteValue, x.mask, y.mask);
    CompareZero(ByteValue, x.ip, y.ip);
  }
}
