/** The check of the NAT64 mapping settings, and what it does not check (validate.go). */
module MappingPool {
  import opened Wrappers
  import opened AddressText
  import opened PodSubnets
  import opened NodeAddresses
  import opened Configs

  /** To4, where there is one. */
  function Plain(a: Address): Address
    requires |a| == 4 || |a| == 8
  {
    if FamilyOf(a) == V4 then Octets(a) else a
  }

  /** IPNet.Contains. */
  predicate Contains(n: Cidr, ip: Address)
    requires n.Net? && (|n.net| == 4 || |n.net| == 8) && (|ip| == 4 || |ip| == 8)
  {
    var net := Plain(n.net);
    var bits := if |n.net| == |net| then n.bits else if n.bits >= 96 then n.bits - 96 else 0;
    |Plain(ip)| == |net| && Mask(Plain(ip), bits) == net
  }

  /** The settings of an IPv6 cluster: all there, readable, and the mapping address and the
      pool's address in the IPv4 support network. */
  predicate MappingValid(c: Config, poolIP: Address)
    requires IsParsed(c.supportV4Cidr) && (|poolIP| == 4 || |poolIP| == 8)
  {
    c.mode == IPv6Only ==>
      && c.supportV4Cidr.Net? && c.v4MappingCidr.Net?
      && (match ParseAddress(c.v4MappingIP)
          case None => false
          case Some(ip) => (|ip| == 4 || |ip| == 8) && Contains(c.supportV4Cidr, ip))
      && Contains(c.supportV4Cidr, poolIP)
  }

  lemma ParsedLength(s: string)
    requires ParseAddress(s).Some?
    ensures |ParseAddress(s).value| == 4 || |ParseAddress(s).value| == 8
  {
  }

  /** `poolIP` is the address written in the mapping CIDR, before it is masked. */
  method ValidateNAT64Fields(c: Config, poolIP: Address) returns (ok: bool)
    requires IsParsed(c.supportV4Cidr) && (|poolIP| == 4 || |poolIP| == 8)
    ensures ok <==> MappingValid(c, poolIP)
  {
    hide ParseAddress, Mask;
    if c.mode != IPv6Only {
      return true;
    }
    if c.supportV4Cidr == Missing || c.v4MappingCidr == Missing {
      return false;
    }
    if c.supportV4Cidr == Malformed {
      return false;
    }
    var mappingIP := ParseAddress(c.v4MappingIP);
    if mappingIP == None {
      return false;
    }
    if c.v4MappingCidr == Malformed {
      return false;
    }
    ParsedLength(c.v4MappingIP);
    if !Contains(c.supportV4Cidr, mappingIP.value) {
      return false;
    }
    if !Contains(c.supportV4Cidr, poolIP) {
      return false;
    }
    ok := true;
  }

  // ------------------------------------------------------------ the pool as a whole

  function Pow2(k: nat): nat { if k == 0 then 1 else 2 * Pow2(k - 1) }

  /** x with its bit number k (from one) flipped. */
  function Flip(x: nat, k: nat): nat
    requires k > 0
  {
    if k > 1 then 2 * Flip(x / 2, k - 1) + x % 2 else if x % 2 == 0 then x + 1 else x - 1
  }

  lemma {:induction false} FlipFacts(x: nat, k: nat, width: nat)
    requires 0 < k <= width && x < Pow2(width)
    ensures Flip(x, k) < Pow2(width)
    ensures ClearLow(Flip(x, k), k) == ClearLow(x, k) && ClearLow(Flip(x, k), k - 1) != ClearLow(x, k - 1)
  {
    if k > 1 {
      FlipFacts(x / 2, k - 1, width - 1);
      assert Flip(x, k) / 2 == Flip(x / 2, k - 1);
    } else {
      assert ClearLow(x / 2, 0) == x / 2 && Flip(x, 1) / 2 == x / 2;
      assert Pow2(width) % 2 == 0;
    }
  }

  /** Another address that agrees on the leading bits and on no more. */
  lemma NextBitDiffers(a: Address, bits: nat) returns (b: Address)
    requires IsV4(a) && bits < 32
    ensures IsV4(b) && Mask(b, bits) == Mask(a, bits) && Mask(b, bits + 1) != Mask(a, bits + 1)
  {
    var i, k := bits / 8, 8 - bits % 8;
    assert a[i] in a && Pow2(8) == 0x100;
    FlipFacts(a[i], k, 8);
    var x := Flip(a[i], k);
    b := a[i := x];
    hide Flip, ClearLow, Pow2;
    forall j | 0 <= j < 4 ensures Mask(b, bits)[j] == Mask(a, bits)[j] {
      if j == i { MaskedInside(a[i], x, i, bits); }
    }
    MaskedInside(a[i], x, i, bits);
    assert Mask(b, bits + 1)[i] != Mask(a, bits + 1)[i];
    forall y <- b ensures y < 0x100 {
      assert y in a || y == x;
    }
  }

  lemma MaskedInside(x: nat, y: nat, i: nat, bits: nat)
    requires 8 * i <= bits < 8 * i + 8
    ensures ClearLow(x, 8 * i + 8 - bits) == ClearLow(y, 8 * i + 8 - bits) ==>
              MaskElement(x, 8 * i, 8 * i + 8, bits) == MaskElement(y, 8 * i, 8 * i + 8, bits)
    ensures ClearLow(x, 8 * i + 7 - bits) != ClearLow(y, 8 * i + 7 - bits) ==>
              MaskElement(x, 8 * i, 8 * i + 8, bits + 1) != MaskElement(y, 8 * i, 8 * i + 8, bits + 1)
  {
    assert ClearLow(x, 0) == x && ClearLow(y, 0) == y;
    hide ClearLow;
  }

  lemma Contains4(n: Cidr, ip: Address)
    requires n.Net? && |n.net| == 4 && |ip| == 4
    ensures Contains(n, ip) <==> Mask(ip, n.bits) == n.net
  {
  }

  /** The check is to see that the pool lies in the support network. It looks at one address
      of the pool only; the whole pool is inside exactly if its prefix is no shorter. */
  lemma PoolInsideSupport(support: Cidr, pool: Cidr, poolIP: Address)
    requires support.Net? && |support.net| == 4 && pool.Net? && |pool.net| == 4
    requires support.bits <= 32 && IsV4(poolIP) && Mask(poolIP, pool.bits) == pool.net
    requires Contains(support, poolIP)
    ensures (forall a | IsV4(a) && Contains(pool, a) :: Contains(support, a)) <==> support.bits <= pool.bits
  {
    hide Mask;
    Contains4(support, poolIP);
    if support.bits <= pool.bits {
      forall a | IsV4(a) && Contains(pool, a) ensures Contains(support, a) {
        Contains4(pool, a);
        Contains4(support, a);
        MaskTwice(a, pool.bits, support.bits);
        MaskTwice(poolIP, pool.bits, support.bits);
      }
    } else {
      var b := NextBitDiffers(poolIP, pool.bits);
      Contains4(pool, b);
      Contains4(support, b);
      MaskTwice(b, support.bits, pool.bits + 1);
      MaskTwice(poolIP, support.bits, pool.bits + 1);
      assert Contains(pool, b) && !Contains(support, b);
    }
  }
}
