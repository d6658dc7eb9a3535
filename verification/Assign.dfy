/** util/assign.go: the first address of a network, from a given one upwards, that no used
    block contains. Blocks follow section 3.1 of RFC 4632. */
module Assign {
  import opened Prelude
  import opened NetAddr

  // ----- big-endian integers -----

  /** big.Int.SetBytes */
  function Value(b: seq<Byte>): nat {
    if b == [] then 0 else Value(b[..|b|-1]) * 256 + b[|b|-1]
  }

  /** big.Int.Bytes: big-endian, without leading zeroes. */
  function MinimalBytes(n: nat): seq<Byte> {
    if n == 0 then [] else MinimalBytes(n / 256) + [n % 256]
  }

  function Pow256(k: nat): (p: nat)
    ensures p > 0
  {
    if k == 0 then 1 else 256 * Pow256(k - 1)
  }

  function Zeroes(k: nat): (z: seq<Byte>)
    ensures |z| == k
  {
    seq(k, _ => 0)
  }

  /** nextIP. None when the incremented number needs more bytes than the address has: the
      source then asks for a slice of negative length and panics. */
  function NextIP(ip: IP): Option<IP> {
    var b := MinimalBytes(Value(ip) + 1);
    if |b| > |ip| then None else Some(Zeroes(|ip| - |b|) + b)
  }

  lemma {:induction false} ValueBound(b: seq<Byte>)
    ensures Value(b) < Pow256(|b|)
  {
    if b != [] {
      ValueBound(b[..|b|-1]);
    }
  }

  lemma {:induction false} ValueInjective(a: seq<Byte>, b: seq<Byte>)
    requires |a| == |b| && Value(a) == Value(b)
    ensures a == b
  {
    if a != [] {
      var last := |a| - 1;
      ValueInjective(a[..last], b[..last]);
      assert a == a[..last] + [a[last]] && b == b[..last] + [b[last]];
    }
  }

  lemma {:induction false} MinimalBytesValue(n: nat)
    ensures Value(MinimalBytes(n)) == n
  {
    if n > 0 {
      MinimalBytesValue(n / 256);
      var b := MinimalBytes(n);
      assert b[..|b|-1] == MinimalBytes(n / 256);
    }
  }

  lemma {:induction false} MinimalBytesLength(n: nat, k: nat)
    ensures |MinimalBytes(n)| <= k <==> n < Pow256(k)
  {
    if n > 0 && k > 0 {
      MinimalBytesLength(n / 256, k - 1);
    }
  }

  lemma {:induction false} ValueConcat(a: seq<Byte>, b: seq<Byte>)
    ensures Value(a + b) == Value(a) * Pow256(|b|) + Value(b)
  {
    if b == [] {
      assert a + b == a;
    } else {
      var last := |b| - 1;
      ValueConcat(a, b[..last]);
      assert (a + b)[..|a + b|-1] == a + b[..last];
      assert Value(a) * Pow256(last) * 256 == Value(a) * Pow256(|b|);
    }
  }

  lemma {:induction false} ValueZeroes(k: nat)
    ensures Value(Zeroes(k)) == 0
  {
    if k > 0 {
      ValueZeroes(k - 1);
      assert Zeroes(k)[..k-1] == Zeroes(k - 1);
    }
  }

  /** nextIP adds one and keeps the length, for every address but the all-ones one. */
  lemma NextIPIsSuccessor(ip: IP)
    ensures NextIP(ip).Some? <==> Value(ip) + 1 < Pow256(|ip|)
    ensures NextIP(ip).Some? ==> |NextIP(ip).value| == |ip| && Value(NextIP(ip).value) == Value(ip) + 1
  {
    var n := Value(ip) + 1;
    var b := MinimalBytes(n);
    MinimalBytesLength(n, |ip|);
    if |b| <= |ip| {
      MinimalBytesValue(n);
      ValuePadded(|ip| - |b|, b);
    }
  }

  lemma ValuePadded(k: nat, b: seq<Byte>)
    ensures Value(Zeroes(k) + b) == Value(b)
  {
    ValueConcat(Zeroes(k), b);
    ValueZeroes(k);
    assert 0 * Pow256(|b|) == 0;
  }

  // ----- masks -----

  function And(x: nat, m: nat, bits: nat): nat {
    if bits == 0 then 0 else 2 * And(x / 2, m / 2, bits - 1) + (x % 2) * (m % 2)
  }

  /** Go's `&` on bytes. */
  function ByteAnd(x: Byte, m: Byte): nat { And(x, m, 8) }

  /** The byte of a CIDR mask in which `k` leading ones remain. */
  function LeadingOnes(k: int): Byte {
    if k <= 0 then 0 else if k >= 8 then 255
    else [0, 128, 192, 224, 240, 248, 252, 254][k]
  }

  /** net.CIDRMask, with the length in bytes. */
  function CidrMask(ones: nat, length: nat): (m: seq<Byte>)
    ensures |m| == length
  {
    seq(length, i => LeadingOnes(ones - 8 * i))
  }

  predicate MaskedEqual(a: seq<Byte>, b: seq<Byte>, m: seq<Byte>)
    requires |a| == |b| == |m|
  {
    forall i | 0 <= i < |a| :: ByteAnd(a[i], m[i]) == ByteAnd(b[i], m[i])
  }

  /** networkNumberAndMask of Go's net package; None stands for its nil results. */
  function NumberAndMask(n: IPNet): (r: Option<(IP, seq<Byte>)>)
    ensures r.Some? ==> |r.value.0| == |r.value.1|
  {
    var ip := CanonIP(n.ip);
    if |ip| != 4 && |ip| != 16 then None
    else if |n.mask| == 4 then (if |ip| == 4 then Some((ip, n.mask)) else None)
    else if |n.mask| == 16 then Some((ip, if |ip| == 4 then n.mask[12..] else n.mask))
    else None
  }

  /** net.IPNet.Contains. With nil number and mask it still accepts the empty address. */
  predicate Contains(n: IPNet, ip: IP) {
    var x := CanonIP(ip);
    match NumberAndMask(n)
    case None => |x| == 0
    case Some((number, mask)) => |x| == |number| && MaskedEqual(number, x, mask)
  }

  // ----- AssignAddress -----

  datatype AssignResult = Assigned(ip: IP) | Overflow | Panic

  predicate Used(used: seq<IPNet>, ip: IP) {
    exists k | 0 <= k < |used| :: Contains(used[k], ip)
  }

  /** The search from `cand` upwards. */
  function Scan(net: IPNet, used: seq<IPNet>, cand: IP): AssignResult
    decreases Pow256(|cand|) - Value(cand)
  {
    if !Contains(net, cand) then Overflow
    else if Used(used, cand) then
      NextIPIsSuccessor(cand);
      match NextIP(cand)
      case None => Panic
      case Some(next) => Scan(net, used, next)
    else Assigned(cand)
  }

  /** The inner loop: does any used block contain the candidate? */
  method AnyContains(used: seq<IPNet>, cand: IP) returns (taken: bool)
    ensures taken <==> Used(used, cand)
  {
    for k := 0 to |used|
      invariant forall l | 0 <= l < k :: !Contains(used[l], cand)
    {
      if Contains(used[k], cand) {
        return true;
      }
    }
    return false;
  }

  lemma ScanStep(net: IPNet, used: seq<IPNet>, cand: IP)
    requires Contains(net, cand) && Used(used, cand)
    ensures NextIP(cand).None? ==> Scan(net, used, cand) == Panic
    ensures NextIP(cand).Some? ==>
      && Scan(net, used, cand) == Scan(net, used, NextIP(cand).value)
      && Pow256(|NextIP(cand).value|) - Value(NextIP(cand).value) < Pow256(|cand|) - Value(cand)
  {
    NextIPIsSuccessor(cand);
  }

  method AssignAddress(net: IPNet, used: seq<IPNet>) returns (r: AssignResult)
    ensures r == Scan(net, used, net.ip)
  {
    var cand := net.ip;
    ghost var goal := Scan(net, used, net.ip);
    while Contains(net, cand)
      invariant goal == Scan(net, used, cand)
      decreases Pow256(|cand|) - Value(cand)
    {
      ValueBound(cand);
      var taken := AnyContains(used, cand);
      if !taken {
        return Assigned(cand);
      }
      ScanStep(net, used, cand);
      var next := NextIP(cand);
      if next.None? {
        return Panic;
      }
      cand := next.value;
    }
    return Overflow;
  }

  // ----- correctness of the search -----

  /** An address of the same byte length as `start`, not below it. */
  predicate AtOrAbove(start: IP, ip: IP) {
    |ip| == |start| && Value(start) <= Value(ip)
  }

  predicate Free(net: IPNet, used: seq<IPNet>, ip: IP) {
    Contains(net, ip) && forall k | 0 <= k < |used| :: !Contains(used[k], ip)
  }

  ghost predicate LeastFree(net: IPNet, used: seq<IPNet>, start: IP, ip: IP) {
    && AtOrAbove(start, ip)
    && Free(net, used, ip)
    && forall x | AtOrAbove(start, x) && Free(net, used, x) :: Value(ip) <= Value(x)
  }

  /** Everything from `start` up to but excluding value `stop` is in the network and in a used block. */
  ghost predicate TakenBelow(net: IPNet, used: seq<IPNet>, start: IP, stop: nat) {
    forall x | AtOrAbove(start, x) && Value(x) < stop ::
      Contains(net, x) && exists k | 0 <= k < |used| :: Contains(used[k], x)
  }

  /** What the search establishes whatever the masks: an assigned address is the least free one;
      an overflow stops at the first address outside the network; a panic means that every
      address up to the all-ones one is in the network and taken. */
  lemma {:induction false} ScanOutcome(net: IPNet, used: seq<IPNet>, cand: IP)
    ensures var r := Scan(net, used, cand);
      match r
      case Assigned(ip) => LeastFree(net, used, cand, ip)
      case Overflow => exists stop :: AtOrAbove(cand, stop) && !Contains(net, stop)
                                      && TakenBelow(net, used, cand, Value(stop))
      case Panic => TakenBelow(net, used, cand, Pow256(|cand|))
    decreases Pow256(|cand|) - Value(cand)
  {
    forall x | AtOrAbove(cand, x) && Value(x) == Value(cand) ensures x == cand {
      ValueInjective(x, cand);
    }
    if !Contains(net, cand) {
      assert AtOrAbove(cand, cand) && TakenBelow(net, used, cand, Value(cand));
    } else if Used(used, cand) {
      NextIPIsSuccessor(cand);
      match NextIP(cand) {
        case None =>
          forall x | AtOrAbove(cand, x) ensures Value(x) == Value(cand) {
            ValueBound(x);
          }
        case Some(next) =>
          ScanOutcome(net, used, next);
          if Scan(net, used, next).Overflow? {
            var stop :| AtOrAbove(next, stop) && !Contains(net, stop)
                        && TakenBelow(net, used, next, Value(stop));
            assert AtOrAbove(cand, stop) && TakenBelow(net, used, cand, Value(stop));
          }
      }
    }
  }

  /** The panic of nextIP happens exactly when the addresses run out before the network does. */
  lemma PanicIff(net: IPNet, used: seq<IPNet>)
    ensures Scan(net, used, net.ip) == Panic
            <==> forall x | AtOrAbove(net.ip, x) ::
                   Contains(net, x) && exists k | 0 <= k < |used| :: Contains(used[k], x)
  {
    ScanOutcome(net, used, net.ip);
    var r := Scan(net, used, net.ip);
    forall x | AtOrAbove(net.ip, x) ensures Value(x) < Pow256(|net.ip|) {
      ValueBound(x);
    }
    if r.Overflow? {
      var stop :| AtOrAbove(net.ip, stop) && !Contains(net, stop);
    } else if r.Assigned? {
      assert AtOrAbove(net.ip, r.ip) && !Used(used, r.ip);
    }
  }

  /** The smallest such case: the last IPv4 address, in use. */
  lemma PanicExample()
    ensures var n := IPNet([255, 255, 255, 255], [255, 255, 255, 255]);
      Scan(n, [n], n.ip) == Panic
  {
    var n := IPNet([255, 255, 255, 255], [255, 255, 255, 255]);
    var last: IP := n.ip;
    assert Value(last[..1]) == 255 && last[..2][..1] == last[..1] && last[..3][..2] == last[..2];
    assert Value(last[..2]) == 0xffff && Value(last[..3]) == 0xff_ffff && Value(last) == 0xffff_ffff;
    assert Pow256(2) == 0x1_0000 && Pow256(4) == 0x1_0000_0000;
    NextIPIsSuccessor(last);
    assert Contains(n, last);
    assert Used([n], last) by {
      assert Contains([n][0], last);
    }
  }

  // ----- CIDR blocks are intervals -----

  predicate AllOnes(m: nat, bits: nat) {
    if bits == 0 then m == 0 else m % 2 == 1 && AllOnes(m / 2, bits - 1)
  }

  predicate HighOnes(m: nat, bits: nat) {
    if bits == 0 then m == 0
    else if m % 2 == 1 then AllOnes(m, bits)
    else HighOnes(m / 2, bits - 1)
  }

  function Pow2(k: nat): nat {
    if k == 0 then 1 else 2 * Pow2(k - 1)
  }

  lemma {:induction false} AndAllOnes(x: nat, m: nat, bits: nat)
    requires AllOnes(m, bits) && x < Pow2(bits)
    ensures And(x, m, bits) == x
  {
    if bits > 0 {
      AndAllOnes(x / 2, m / 2, bits - 1);
    }
  }

  lemma {:induction false} AndMonotone(x: nat, y: nat, m: nat, bits: nat)
    requires HighOnes(m, bits) && x <= y < Pow2(bits)
    ensures And(x, m, bits) <= And(y, m, bits)
  {
    if bits > 0 {
      if m % 2 == 1 {
        AndAllOnes(x, m, bits);
        AndAllOnes(y, m, bits);
      } else {
        AndEven(x, m, bits);
        AndEven(y, m, bits);
        HalfBounds(x, y, bits);
        AndMonotone(x / 2, y / 2, m / 2, bits - 1);
      }
    }
  }

  lemma AndEven(x: nat, m: nat, bits: nat)
    requires bits > 0 && m % 2 == 0
    ensures And(x, m, bits) == 2 * And(x / 2, m / 2, bits - 1)
  {
  }

  lemma HalfBounds(x: nat, y: nat, bits: nat)
    requires bits > 0 && x <= y < Pow2(bits)
    ensures x / 2 <= y / 2 < Pow2(bits - 1)
  {
  }

  lemma LeadingOnesHigh(k: int)
    ensures HighOnes(LeadingOnes(k), 8)
  {
    var m := LeadingOnes(k);
    assert m in [0, 128, 192, 224, 240, 248, 252, 254, 255];
    assert HighOnes(0, 8) && HighOnes(128, 8) && HighOnes(192, 8) && HighOnes(224, 8) && HighOnes(240, 8);
    assert HighOnes(248, 8) && HighOnes(252, 8) && HighOnes(254, 8) && HighOnes(255, 8);
  }

  lemma ByteAndMonotone(x: Byte, y: Byte, k: int)
    requires x <= y
    ensures ByteAnd(x, LeadingOnes(k)) <= ByteAnd(y, LeadingOnes(k))
  {
    LeadingOnesHigh(k);
    assert Pow2(8) == 256;
    AndMonotone(x, y, LeadingOnes(k), 8);
  }

  lemma ByteAndFull(x: Byte)
    ensures ByteAnd(x, 255) == x
  {
    assert Pow2(8) == 256 && AllOnes(255, 8);
    AndAllOnes(x, 255, 8);
  }

  lemma {:induction false} AndNone(x: nat, bits: nat)
    ensures And(x, 0, bits) == 0
  {
    if bits > 0 {
      AndNone(x / 2, bits - 1);
    }
  }

  /** Between two members of a CIDR block of fixed-length addresses there are only members. */
  lemma {:induction false} BlockConvex(number: IP, x: IP, y: IP, z: IP, ones: nat)
    requires |number| == |x| == |y| == |z|
    requires Value(x) <= Value(y) <= Value(z)
    requires MaskedEqual(number, x, CidrMask(ones, |number|))
    requires MaskedEqual(number, z, CidrMask(ones, |number|))
    ensures MaskedEqual(number, y, CidrMask(ones, |number|))
  {
    if number != [] {
      var last := |number| - 1;
      var m := CidrMask(ones, |number|);
      assert m[..last] == CidrMask(ones, last);
      assert MaskedEqual(number[..last], x[..last], m[..last]);
      assert MaskedEqual(number[..last], z[..last], m[..last]);
      BlockConvex(number[..last], x[..last], y[..last], z[..last], ones);
      assert forall i | 0 <= i < last ::
        ByteAnd(number[..last][i], m[..last][i]) == ByteAnd(y[..last][i], m[..last][i]);
      if ones > 8 * last {
        PrefixFixed(number[..last], x[..last], ones);
        PrefixFixed(number[..last], z[..last], ones);
        assert x[last] <= y[last] <= z[last];
      }
      ByteBetween(number[last], x[last], y[last], z[last], ones - 8 * last);
    }
  }

  lemma ByteBetween(n: Byte, x: Byte, y: Byte, z: Byte, k: int)
    requires ByteAnd(n, LeadingOnes(k)) == ByteAnd(x, LeadingOnes(k)) == ByteAnd(z, LeadingOnes(k))
    requires k > 0 ==> x <= y <= z
    ensures ByteAnd(n, LeadingOnes(k)) == ByteAnd(y, LeadingOnes(k))
  {
    if k <= 0 {
      AndNone(n, 8);
      AndNone(y, 8);
    } else {
      ByteAndMonotone(x, y, k);
      ByteAndMonotone(y, z, k);
    }
  }

  /** A mask that covers all bytes compares them all. */
  lemma PrefixFixed(a: IP, b: IP, ones: nat)
    requires |a| == |b| && ones >= 8 * |a|
    requires MaskedEqual(a, b, CidrMask(ones, |a|))
    ensures a == b
  {
    forall i | 0 <= i < |a| ensures a[i] == b[i] {
      ByteAndFull(a[i]);
      ByteAndFull(b[i]);
      assert CidrMask(ones, |a|)[i] == 255;
    }
  }

  // ----- when the reported overflow is right -----

  const MAPPED_FIRST: nat := 0xffff_0000_0000

  predicate Cidr(net: IPNet) {
    exists ones: nat | ones <= 8 * |net.mask| :: net.mask == CidrMask(ones, |net.mask|)
  }

  /** An IPv6 block that goes on above the IPv4-mapped range ::ffff:0:0/96, searched from below
      that range: at most 79 leading ones, and a start below ::ffff:0:0. */
  predicate SkipsMapped(net: IPNet) {
    && |net.ip| == 16 && |net.mask| == 16 && !Mapped(net.ip)
    && net.mask[9] != 255
    && Value(net.ip) < MAPPED_FIRST
  }

  /** What a caller expects: the least free address, or a failure only when there is none. */
  ghost predicate Correct(net: IPNet, used: seq<IPNet>, r: AssignResult) {
    match r
    case Assigned(ip) => LeastFree(net, used, net.ip, ip)
    case _ => forall x | AtOrAbove(net.ip, x) :: !Free(net, used, x)
  }

  lemma Pow256Values()
    ensures Pow256(4) == 0x1_0000_0000
    ensures Pow256(6) == 0x1_0000_0000_0000
  {
    assert Pow256(2) == 0x1_0000;
    assert Pow256(3) == 0x100_0000;
    assert Pow256(5) == 0x100_0000_0000;
  }

  /** The mapped addresses are those whose value lies in one interval of 2^32 numbers. */
  lemma MappedByValue(ip: IP)
    requires |ip| == 16
    ensures Mapped(ip) <==> MAPPED_FIRST <= Value(ip) < MAPPED_FIRST + 0x1_0000_0000
  {
    Pow256Values();
    assert ip == ip[..12] + ip[12..];
    ValueConcat(ip[..12], ip[12..]);
    ValueBound(ip[12..]);
    PrefixValue();
    if Value(ip[..12]) == 0xffff {
      ValueInjective(ip[..12], V4_IN_V6_PREFIX);
    }
  }

  lemma PrefixValue()
    ensures Value(V4_IN_V6_PREFIX) == 0xffff
  {
    ValueZeroes(10);
    assert V4_IN_V6_PREFIX[..11][..10] == Zeroes(10);
    assert Value(V4_IN_V6_PREFIX[..11]) == 255;
  }

  /** Below 2^48 the first ten bytes are zero, and conversely. */
  lemma TopZero(ip: IP)
    requires |ip| == 16
    ensures Value(ip) < 0x1_0000_0000_0000 <==> ip[..10] == Zeroes(10)
  {
    Pow256Values();
    assert ip == ip[..10] + ip[10..];
    ValueConcat(ip[..10], ip[10..]);
    ValueBound(ip[10..]);
    ValueZeroes(10);
    if Value(ip[..10]) == 0 {
      ValueInjective(ip[..10], Zeroes(10));
    }
  }

  /** Unless the block skips the mapped range, its members at or above the start are an interval. */
  lemma ContainsConvex(net: IPNet, y: IP, z: IP)
    requires Cidr(net) && !SkipsMapped(net)
    requires AtOrAbove(net.ip, y) && AtOrAbove(y, z)
    requires Contains(net, net.ip) && Contains(net, z)
    ensures Contains(net, y)
  {
    var x := net.ip;
    var ones: nat :| ones <= 8 * |net.mask| && net.mask == CidrMask(ones, |net.mask|);
    if NumberAndMask(net).Some? {
      var (number, mask) := NumberAndMask(net).value;
      if |x| == 4 {
        ShortMask(net, ones);
        BlockConvex(number, x, y, z, if |net.mask| == 4 then ones else if ones < 96 then 0 else ones - 96);
      } else if Mapped(x) {
        ShortMask(net, ones);
        MappedByValue(x);
        MappedByValue(y);
        MappedByValue(z);
        LowBytes(y);
        LowBytes(z);
        LowBytes(x);
        BlockConvex(number, x[12..], y[12..], z[12..],
                    if |net.mask| == 4 then ones else if ones < 96 then 0 else ones - 96);
      } else {
        BlockConvex(number, x, y, z, ones);
        MappedByValue(x);
        MappedByValue(y);
        MappedByValue(z);
        if Mapped(y) {
          HighMask(net, ones, z);
          TopZero(x);
          TopZero(z);
          assert false;
        }
      }
    }
  }

  /** The mask applied to a 4-byte number is again a CIDR mask. */
  lemma ShortMask(net: IPNet, ones: nat)
    requires net.mask == CidrMask(ones, |net.mask|) && |CanonIP(net.ip)| == 4
    requires NumberAndMask(net).Some?
    ensures NumberAndMask(net).value.1
            == CidrMask(if |net.mask| == 4 then ones else if ones < 96 then 0 else ones - 96, 4)
  {
  }

  lemma LowBytes(ip: IP)
    requires Mapped(ip)
    ensures Value(ip) == MAPPED_FIRST + Value(ip[12..])
  {
    Pow256Values();
    PrefixValue();
    assert ip == ip[..12] + ip[12..];
    ValueConcat(ip[..12], ip[12..]);
  }

  /** With 80 or more leading ones all members share their first ten bytes. */
  lemma HighMask(net: IPNet, ones: nat, z: IP)
    requires |net.ip| == |net.mask| == |z| == 16 && !Mapped(net.ip) && !Mapped(z)
    requires net.mask == CidrMask(ones, 16) && net.mask[9] == 255
    requires Contains(net, z)
    ensures z[..10] == net.ip[..10]
  {
    assert ones >= 80;
    TopAgrees(net.ip, z, ones);
  }

  lemma SearchRight(net: IPNet, used: seq<IPNet>)
    requires Cidr(net) && !SkipsMapped(net)
    ensures Correct(net, used, Scan(net, used, net.ip))
  {
    var r := Scan(net, used, net.ip);
    ScanOutcome(net, used, net.ip);
    if r.Overflow? {
      var stop :| AtOrAbove(net.ip, stop) && !Contains(net, stop)
                  && TakenBelow(net, used, net.ip, Value(stop));
      forall x | AtOrAbove(net.ip, x) ensures !Free(net, used, x) {
        if Contains(net, x) && Value(stop) <= Value(x) {
          ContainsConvex(net, stop, x);
        }
      }
    } else if r.Panic? {
      forall x | AtOrAbove(net.ip, x) ensures !Free(net, used, x) {
        ValueBound(x);
      }
    }
  }

  /** The block ::/80: every address below the mapped range, and none above it. */
  function BelowMapped(): IPNet {
    IPNet(Zeroes(16), CidrMask(80, 16))
  }

  /** Past the last one bit of a mask nothing is compared. */
  lemma AgreeOnTop(a: IP, b: IP, ones: nat)
    requires |a| == |b| == 16 && ones <= 80 && a[..10] == b[..10]
    ensures MaskedEqual(a, b, CidrMask(ones, 16))
  {
    forall i | 0 <= i < 16 ensures ByteAnd(a[i], CidrMask(ones, 16)[i]) == ByteAnd(b[i], CidrMask(ones, 16)[i]) {
      if i >= 10 {
        AndNone(a[i], 8);
        AndNone(b[i], 8);
      } else {
        assert a[i] == a[..10][i] == b[..10][i] == b[i];
      }
    }
  }

  /** 80 ones compare the first ten bytes in full. */
  lemma TopAgrees(a: IP, b: IP, ones: nat)
    requires |a| == |b| == 16 && ones >= 80 && MaskedEqual(a, b, CidrMask(ones, 16))
    ensures a[..10] == b[..10]
  {
    forall i | 0 <= i < 10 ensures a[i] == b[i] {
      assert CidrMask(ones, 16)[i] == 255;
      ByteAndFull(a[i]);
      ByteAndFull(b[i]);
    }
  }

  lemma BelowMappedContains(ip: IP)
    requires |ip| == 16
    ensures Contains(BelowMapped(), ip) <==> Value(ip) < MAPPED_FIRST
  {
    var zero := Zeroes(16);
    ValueZeroes(16);
    MappedByValue(zero);
    MappedByValue(ip);
    TopZero(ip);
    assert zero[..10] == Zeroes(10);
    assert NumberAndMask(BelowMapped()) == Some((zero, CidrMask(80, 16)));
    if ip[..10] == Zeroes(10) {
      AgreeOnTop(zero, ip, 80);
    }
    if MaskedEqual(zero, ip, CidrMask(80, 16)) {
      TopAgrees(zero, ip, 80);
    }
  }

  /** A block that skips the mapped range holds every address from its start up to that range,
      and the address 0:0:0:0:1:: just above it. */
  lemma SkippingBlock(net: IPNet, ip: IP)
    requires Cidr(net) && SkipsMapped(net) && |ip| == 16
    requires Value(ip) < MAPPED_FIRST || ip == AboveMapped()
    ensures Contains(net, ip)
  {
    var ones: nat :| ones <= 8 * |net.mask| && net.mask == CidrMask(ones, |net.mask|);
    assert ones < 80;
    MappedByValue(ip);
    AboveMappedValue();
    TopZero(net.ip);
    if ip == AboveMapped() {
      AboveMatches(net.ip, ones);
    } else {
      TopZero(ip);
      AgreeOnTop(net.ip, ip, ones);
    }
  }

  lemma AboveMatches(a: IP, ones: nat)
    requires |a| == 16 && a[..10] == Zeroes(10) && ones < 80
    ensures MaskedEqual(a, AboveMapped(), CidrMask(ones, 16))
  {
    var m := CidrMask(ones, 16);
    var b := AboveMapped();
    forall i | 0 <= i < 16 ensures ByteAnd(a[i], m[i]) == ByteAnd(b[i], m[i]) {
      if i >= 10 {
        AndNone(a[i], 8);
        AndNone(b[i], 8);
      } else {
        assert a[i] == a[..10][i] == 0;
        if i == 9 {
          LowBitMasked(ones - 72);
        }
      }
    }
  }

  lemma LowBitMasked(k: int)
    requires k < 8
    ensures ByteAnd(1, LeadingOnes(k)) == ByteAnd(0, LeadingOnes(k))
  {
    var m := LeadingOnes(k);
    assert m % 2 == 0;
    assert And(1, m, 8) == 2 * And(0, m / 2, 7) == And(0, m, 8);
  }

  function AboveMapped(): IP {
    [0, 0, 0, 0, 0, 0, 0, 0, 0, 1] + Zeroes(6)
  }

  lemma AboveMappedValue()
    ensures |AboveMapped()| == 16 && Value(AboveMapped()) == 0x1_0000_0000_0000
  {
    Pow256Values();
    var top: IP := [0, 0, 0, 0, 0, 0, 0, 0, 0, 1];
    ValueConcat(top, Zeroes(6));
    ValueZeroes(6);
    ValueZeroes(9);
    assert top[..9] == Zeroes(9);
  }

  /** With ::/80 in use, the search below the mapped range ends at ::ffff:0:0 with an overflow. */
  lemma {:induction false} ScanStopsAtMapped(net: IPNet, cand: IP)
    requires Cidr(net) && SkipsMapped(net)
    requires |cand| == 16 && Value(cand) <= MAPPED_FIRST
    ensures Scan(net, [BelowMapped()], cand) == Overflow
    decreases MAPPED_FIRST - Value(cand)
  {
    MappedByValue(cand);
    if Value(cand) < MAPPED_FIRST {
      var used := [BelowMapped()];
      SkippingBlock(net, cand);
      BelowMappedContains(cand);
      assert Contains(used[0], cand);
      NextIPIsSuccessor(cand);
      ValueBound(cand);
      assert Pow256(16) > MAPPED_FIRST + 1 by {
        Pow256Values();
        assert Pow256(16) >= Pow256(6);
      }
      ScanStopsAtMapped(net, NextIP(cand).value);
    } else {
      assert !Contains(net, cand);
    }
  }

  lemma SearchWrong(net: IPNet)
    requires Cidr(net) && SkipsMapped(net)
    ensures !Correct(net, [BelowMapped()], Scan(net, [BelowMapped()], net.ip))
  {
    var used := [BelowMapped()];
    ScanStopsAtMapped(net, net.ip);
    AboveMappedValue();
    SkippingBlock(net, AboveMapped());
    BelowMappedContains(AboveMapped());
    assert AtOrAbove(net.ip, AboveMapped()) && Free(net, used, AboveMapped());
  }

  /** For CIDR networks the search is right about every list of used blocks exactly when the
      network does not go on above the IPv4-mapped range that it starts below. */
  lemma AssignCorrectIff(net: IPNet)
    requires Cidr(net)
    ensures (forall used :: Correct(net, used, Scan(net, used, net.ip))) <==> !SkipsMapped(net)
  {
    if SkipsMapped(net) {
      SearchWrong(net);
    } else {
      forall used ensures Correct(net, used, Scan(net, used, net.ip)) {
        SearchRight(net, used);
      }
    }
  }

  // ----- right and without a panic -----

  /** The all-ones address. */
  function LastIP(n: nat): IP { seq(n, _ => 255) }

  lemma {:induction false} LastValue(n: nat)
    ensures Value(LastIP(n)) == Pow256(n) - 1
  {
    if n > 0 {
      LastValue(n - 1);
      assert LastIP(n)[..n-1] == LastIP(n - 1);
    }
  }

  /** Does the network hold the last address of its length? */
  predicate ReachesEnd(net: IPNet) { Contains(net, LastIP(|net.ip|)) }

  lemma LastIsAbove(net: IPNet, x: IP)
    requires |x| == |net.ip|
    ensures AtOrAbove(x, LastIP(|net.ip|))
  {
    LastValue(|net.ip|);
    ValueBound(x);
  }

  /** The least free address, or the error of the source, and that only when there is none. */
  ghost predicate Answered(net: IPNet, used: seq<IPNet>, r: AssignResult) {
    Correct(net, used, r) && !r.Panic?
  }

  /** A block that reaches the end panics once it is in use as a whole. */
  lemma FullBlockPanics(net: IPNet)
    requires Cidr(net) && !SkipsMapped(net) && ReachesEnd(net)
    ensures Scan(net, [net], net.ip) == Panic
  {
    forall x | AtOrAbove(net.ip, x) ensures Contains(net, x) && Used([net], x) {
      LastIsAbove(net, x);
      ContainsConvex(net, x, LastIP(|net.ip|));
      assert Contains([net][0], x);
    }
    PanicIff(net, [net]);
  }

  /** The search answers rightly, without a panic, for all used blocks, exactly when the network
      neither skips the IPv4-mapped range nor holds the last address there is. */
  lemma AssignAnswersIff(net: IPNet)
    requires Cidr(net)
    ensures (forall used :: Answered(net, used, Scan(net, used, net.ip))) <==> !SkipsMapped(net) && !ReachesEnd(net)
  {
    if SkipsMapped(net) {
      SearchWrong(net);
    } else if ReachesEnd(net) {
      FullBlockPanics(net);
      assert !Answered(net, [net], Scan(net, [net], net.ip));
    } else {
      forall used ensures Answered(net, used, Scan(net, used, net.ip)) {
        SearchRight(net, used);
        PanicIff(net, used);
        LastIsAbove(net, net.ip);
      }
    }
  }
}
