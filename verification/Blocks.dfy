/** Which addresses a CIDR block contains, bit by bit: net.IPNet.Contains without its masks. */
module Blocks {
  import opened Prelude
  import opened NetAddr
  import opened Assign

  /** `x >> k` */
  function Shifted(x: nat, k: nat): nat {
    if k == 0 then x else Shifted(x / 2, k - 1)
  }

  /** A mask of ones followed by `low` zeros. */
  predicate OnesThenZeros(m: nat, bits: nat, low: nat)
    requires low <= bits
  {
    if low == 0 then AllOnes(m, bits) else m % 2 == 0 && OnesThenZeros(m / 2, bits - 1, low - 1)
  }

  /** Under such a mask numbers agree exactly if they do without their `low` lowest bits. */
  lemma {:induction false} MaskedAgree(x: nat, y: nat, m: nat, bits: nat, low: nat)
    requires low <= bits && x < Pow2(bits) && y < Pow2(bits) && OnesThenZeros(m, bits, low)
    ensures And(x, m, bits) == And(y, m, bits) <==> Shifted(x, low) == Shifted(y, low)
  {
    if low == 0 {
      AndAllOnes(x, m, bits);
      AndAllOnes(y, m, bits);
    } else {
      AndEven(x, m, bits);
      AndEven(y, m, bits);
      HalfBounds(x, x, bits);
      HalfBounds(y, y, bits);
      MaskedAgree(x / 2, y / 2, m / 2, bits - 1, low - 1);
    }
  }

  lemma LeadingOnesShape(k: nat)
    requires k <= 8
    ensures OnesThenZeros(LeadingOnes(k), 8, 8 - k) && Pow2(8) == 256
  {
    if k <= 3 {
      FewOnes();
    } else if k <= 6 {
      SomeOnes();
    } else {
      assert OnesThenZeros(254, 8, 1) && OnesThenZeros(255, 8, 0);
    }
  }

  lemma FewOnes()
    ensures OnesThenZeros(0, 8, 8) && OnesThenZeros(128, 8, 7) && OnesThenZeros(192, 8, 6) && OnesThenZeros(224, 8, 5)
  {
  }

  lemma SomeOnes()
    ensures OnesThenZeros(240, 8, 4) && OnesThenZeros(248, 8, 3) && OnesThenZeros(252, 8, 2)
  {
  }

  /** An address is in a block of addresses of its length exactly if the first `ones` bits agree: all
      bytes that these cover, and the highest bits of the one they end in. */
  lemma ContainsMeans(net: IPNet, ones: nat, x: IP)
    requires |net.ip| == |net.mask| == |x| && (|x| == 4 || |x| == 16)
    requires ones <= 8 * |x| && net.mask == CidrMask(ones, |x|)
    requires !Mapped(net.ip) && !Mapped(x)
    ensures Contains(net, x) <==> forall i | 0 <= i < |x| ::
              && (8 * i + 8 <= ones ==> x[i] == net.ip[i])
              && (8 * i < ones < 8 * i + 8 ==> Shifted(x[i], 8 * i + 8 - ones) == Shifted(net.ip[i], 8 * i + 8 - ones))
  {
    assert NumberAndMask(net) == Some((net.ip, net.mask));
    forall i | 0 <= i < |x|
      ensures ByteAnd(net.ip[i], net.mask[i]) == ByteAnd(x[i], net.mask[i]) <==>
        && (8 * i + 8 <= ones ==> x[i] == net.ip[i])
        && (8 * i < ones < 8 * i + 8 ==> Shifted(x[i], 8 * i + 8 - ones) == Shifted(net.ip[i], 8 * i + 8 - ones))
    {
      ByteCompare(net.ip[i], x[i], ones - 8 * i);
    }
  }

  lemma ByteCompare(a: Byte, b: Byte, k: int)
    ensures ByteAnd(a, LeadingOnes(k)) == ByteAnd(b, LeadingOnes(k)) <==>
      && (8 <= k ==> b == a)
      && (0 < k < 8 ==> Shifted(b, 8 - k) == Shifted(a, 8 - k))
  {
    if k <= 0 {
      AndNone(a, 8);
      AndNone(b, 8);
    } else if k < 8 {
      LeadingOnesShape(k);
      MaskedAgree(a, b, LeadingOnes(k), 8, 8 - k);
    } else {
      ByteAndFull(a);
      ByteAndFull(b);
    }
  }
}
