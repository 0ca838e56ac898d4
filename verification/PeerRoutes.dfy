/** Destination and gateway of the route to a peer's pods: the texts DoRouteOpsOnNodes
    builds (plugin.go) and what they denote. */
module PeerRoutes {
  import opened Wrappers
  import opened Text
  import opened Numerals
  import opened AddressText
  import opened PodSubnets
  import opened NodeAddresses
  import opened Configs
  import opened Validation

  /** An IPv4 entry has its dotted prefix. */
  predicate HasParts(info: NetInfo) {
    info.mode == V4 ==> |Split(info.prefix, '.')| >= 2
  }

  function DestText(info: NetInfo, id: nat): string
    requires HasParts(info)
  {
    var (prefix, suffix) := BuildPodSubnetPrefix(info.mode, info.prefix, info.size, id);
    prefix + suffix + "/" + Dec(info.size)
  }

  // ------------------------------------------------------------ masks

  lemma {:induction false} ClearLowShl(d: nat, k: nat)
    ensures ClearLow(Shl(d, k), k) == Shl(d, k)
  {
    if k > 0 {
      assert Shl(d, k) / 2 == Shl(d, k - 1);
      ClearLowShl(d, k - 1);
    }
  }

  /** A node's block keeps all its bits under its own mask. */
  lemma SubnetIsMasked(g: Address, size: nat, id: nat)
    requires Network6(g, size) && id < 256
    ensures Mask(Subnet6(g, size, id), size + 8) == Subnet6(g, size, id)
  {
    var m := size / 16;
    var sub := Subnet6(g, size, id);
    SubnetFits(g, size, id);
    forall i | 0 <= i < 8 ensures MaskElement(sub[i], 16 * i, 16 * i + 16, size + 8) == sub[i] {
      if i == m && size % 16 == 0 {
        assert sub[m] == id * 256;
        Shl8(id);
        ClearLowShl(id, 8);
      }
    }
  }

  lemma MaskedOctets(net: Address)
    requires |net| == 4 && Mask(net, 16) == net
    ensures net[2] == 0 && net[3] == 0
  {
    assert Mask(net, 16)[2] == MaskElement(net[2], 16, 24, 16);
    assert Mask(net, 16)[3] == MaskElement(net[3], 24, 32, 16);
  }

  // ------------------------------------------------------------ pod blocks

  /** The block of pod addresses of the node with this ID. */
  function PeerBlock(net: Address, bits: nat, id: nat): Block
    requires |net| == 4 || (|net| == 8 && bits / 16 < 8)
  {
    if |net| == 8 then Block(Subnet6(net, bits, id), bits + 8) else Block([net[0], net[1], id, 0], 24)
  }

  /** Pod networks the prefix scheme works for. */
  predicate GoodPodNetwork(net: Address, bits: nat) {
    if |net| == 8 then Network6(net, bits) && TailCompressed(net) && !IsMapped(net)
    else IsV4(net) && bits == 16 && Mask(net, 16) == net
  }

  lemma NoSlash6(g: Address, size: nat, id: nat)
    requires Network6(g, size) && TailCompressed(g) && id < 256
    ensures '/' !in PodText6(g, size, id) && ':' in PodText6(g, size, id)
  {
    hide Split, PodText6, Subnet6, LongestRun, ZeroRun, Render;
    var s := PodText6(g, size, id);
    var a := TailParts(g, size);
    SubnetParts(V6Text(g), g, size, id, a);
    assert PodText6(g, size, id) == PodText(V6Text(g), size, id) by { PodText6Is(g, size, id); }
    var parts := HexParts(g[..size / 16] + [g[size / 16] + Step(size, id)]) + ["", ""];
    forall p <- parts ensures '/' !in p { NoSlashInParts(g[..size / 16] + [g[size / 16] + Step(size, id)]); }
    if '/' in s { SplitHoldsBytes(s, ':', '/'); }
    if ':' !in s { SplitPlain(s, ':'); }
  }

  lemma PodText6Is(g: Address, size: nat, id: nat)
    requires |g| == 8
    ensures PodText6(g, size, id) == PodText(V6Text(g), size, id)
  {
  }

  lemma NoSlashInParts(g: seq<nat>)
    ensures forall p <- HexParts(g) :: '/' !in p
  {
    forall i | 0 <= i < |g| ensures '/' !in Hex(g[i]) { HexNoColon(g[i]); }
  }

  lemma PodDest6(g: Address, size: nat, id: nat)
    requires Network6(g, size) && TailCompressed(g) && id < 256
    ensures ParseCIDR(DestText(NetInfo(PrefixText(V6Text(g), size), size + 8, V6), id))
              == Some(Block(Subnet6(g, size, id), size + 8))
  {
    hide ParseCIDR, ParseV6, V6Text, PrefixText, TailCompressed, Subnet6, Mask;
    PodSubnetParses(g, size, id);
    NoSlash6(g, size, id);
    SubnetIsMasked(g, size, id);
    SubnetSize(g, size, id);
    assert ParseAddress(PodText6(g, size, id)) == ParseV6(PodText6(g, size, id));
    CidrText(PodText6(g, size, id), size + 8, Subnet6(g, size, id));
  }

  lemma SubnetSize(g: Address, size: nat, id: nat)
    requires Network6(g, size)
    ensures |Subnet6(g, size, id)| == 8 && size + 8 <= 128
  {
  }

  lemma PodDest4(o: Address, id: nat)
    requires IsV4(o) && Mask(o, 16) == o && id < 256
    ensures HasParts(NetInfo(V4Prefix(o), 24, V4))
    ensures ParseCIDR(DestText(NetInfo(V4Prefix(o), 24, V4), id)) == Some(Block([o[0], o[1], id, 0], 24))
  {
    hide ParseCIDR, Split, Render;
    var b := [o[0], o[1], id, 0];
    assert forall i | 0 <= i < 4 :: o[i] in o;
    assert IsV4(b);
    PrefixOctets(o);
    DecOctet(0);
    RenderHead(0, 10);
    NodeText4(b, "0");
    assert DestText(NetInfo(V4Prefix(o), 24, V4), id) == V4Prefix(b) + "0" + "/" + Dec(24) by {
      BlockText(o, id);
    }
    OctetsNoSlash(b);
    assert b[3 := Value("0", 10)] == b;
    assert Mask(b, 24) == b;
    CidrText(V4Prefix(b) + "0", 24, b);
  }

  lemma PrefixOctets(o: Address)
    requires IsV4(o)
    ensures Split(V4Prefix(o), '.') == [Dec(o[0]), Dec(o[1]), Dec(o[2]), ""]
  {
    hide Split, Render;
    assert forall i | 0 <= i < 4 :: o[i] in o;
    DecOctet(o[0]); DecOctet(o[1]); DecOctet(o[2]);
    SplitFour(Dec(o[0]), Dec(o[1]), Dec(o[2]), "");
    assert V4Prefix(o) + "" == V4Prefix(o);
  }

  lemma BlockText(o: Address, id: nat)
    requires |o| == 4 && Split(V4Prefix(o), '.') == [Dec(o[0]), Dec(o[1]), Dec(o[2]), ""]
    ensures DestText(NetInfo(V4Prefix(o), 24, V4), id) == V4Prefix([o[0], o[1], id, 0]) + "0" + "/" + Dec(24)
  {
    hide Split, Render;
  }

  lemma OctetsNoSlash(b: Address)
    requires IsV4(b)
    ensures '/' !in V4Prefix(b) + "0"
  {
    hide Render;
    assert forall i | 0 <= i < 4 :: b[i] in b;
    DecOctet(b[0]); DecOctet(b[1]); DecOctet(b[2]);
  }

  /** The destination of the route to a peer is the peer's pod block. */
  lemma PodDest(net: Address, bits: nat, id: nat)
    requires GoodPodNetwork(net, bits) && id < 256
    ensures var info := PodInfoOf(Net(net, bits));
            && info.prefix != "" && HasParts(info) && info.mode == FamilyOf(net)
            && ParseCIDR(DestText(info, id)) == Some(PeerBlock(net, bits, id))
  {
    hide ParseCIDR, DestText, V6Text, PrefixText, Split, Render, TailCompressed;
    if |net| == 8 {
      PodDest6(net, bits, id);
      PrefixNotEmpty(net, bits);
    } else {
      PodDest4(net, id);
      assert V4Prefix(net) != "";
    }
  }

  lemma PrefixNotEmpty(g: Address, size: nat)
    requires Network6(g, size) && TailCompressed(g)
    ensures PrefixText(V6Text(g), size) != ""
  {
    hide LongestRun, ZeroRun, Split, V6Text, Render, Groups;
    var a := TailParts(g, size);
    if a <= size / 16 {
      ShortPrefix(V6Text(g), g, size, a);
    } else {
      LongPrefix(V6Text(g), g, size);
      UpperBytePrefix(g, size);
    }
  }

  /** Different IDs, different blocks. */
  lemma PeerBlocksDiffer(net: Address, bits: nat, i: nat, j: nat)
    requires GoodPodNetwork(net, bits) && i != j
    ensures PeerBlock(net, bits, i) != PeerBlock(net, bits, j)
  {
    hide TailCompressed;
    if |net| == 8 {
      var m := bits / 16;
      assert PeerBlock(net, bits, i).net[m] == net[m] + Step(bits, i);
      assert PeerBlock(net, bits, j).net[m] == net[m] + Step(bits, j);
    } else {
      assert PeerBlock(net, bits, i).net[2] == i && PeerBlock(net, bits, j).net[2] == j;
    }
  }

  /** The addresses of a block. */
  predicate Covers(b: Block, a: Address) { |a| == |b.net| && Mask(a, b.bits) == b.net }

  lemma BlockLiesInNetwork(net: Address, bits: nat, id: nat)
    requires GoodPodNetwork(net, bits) && id < 256
    ensures |PeerBlock(net, bits, id).net| == |net| && bits <= PeerBlock(net, bits, id).bits
    ensures Mask(PeerBlock(net, bits, id).net, bits) == net
  {
    hide TailCompressed;
    var b := PeerBlock(net, bits, id).net;
    if |net| == 8 {
      var m := bits / 16;
      forall i | 0 <= i < 8 ensures MaskElement(b[i], 16 * i, 16 * i + 16, bits) == net[i] {
        if i == m && bits % 16 == 8 { UpperByteStays(net[m] / 256, id); }
      }
    } else {
      MaskedOctets(net);
      forall i | 0 <= i < 4 ensures MaskElement(b[i], 8 * i, 8 * i + 8, bits) == net[i] {}
    }
  }

  lemma UpperByteStays(x: nat, id: nat)
    requires id < 256
    ensures ClearLow(256 * x + id, 8) == 256 * x
  {
    ClearLowShl(x, 8);
    ClearLowSum(x, id, 8);
    Shl8(x);
  }

  lemma {:induction false} ClearLowSum(x: nat, d: nat, k: nat)
    requires d < Shl(1, k)
    ensures ClearLow(Shl(x, k) + d, k) == Shl(x, k)
  {
    if k > 0 {
      assert (Shl(x, k) + d) / 2 == Shl(x, k - 1) + d / 2;
      ClearLowSum(x, d / 2, k - 1);
    }
  }

  /** Every pod address of a node is in the cluster's pod network and in no other node's block. */
  lemma PodAddressHasOneNode(net: Address, bits: nat, i: nat, a: Address)
    requires GoodPodNetwork(net, bits) && i < 256 && Covers(PeerBlock(net, bits, i), a)
    ensures Covers(Block(net, bits), a)
    ensures forall j | 0 <= j < 256 && j != i :: !Covers(PeerBlock(net, bits, j), a)
  {
    hide Mask, TailCompressed;
    BlockLiesInNetwork(net, bits, i);
    MaskTwice(a, PeerBlock(net, bits, i).bits, bits);
    forall j | 0 <= j < 256 && j != i ensures !Covers(PeerBlock(net, bits, j), a) {
      PeerBlocksDiffer(net, bits, i, j);
      BlockLiesInNetwork(net, bits, j);
    }
  }

  // ------------------------------------------------------------ gateways

  /** The node's address on the management network. */
  function PeerAddress(net: Address, id: nat): Address
    requires |net| == 4 || |net| == 8
  {
    if FamilyOf(net) == V6 then net[7 := id] else Octets(net)[3 := id]
  }

  /** Management networks with room for a node ID in the last group. */
  predicate GoodMgmtNetwork(net: Address) {
    IsV4(net) || (IsV6(net) && net[7] == 0 && !IsMapped(net))
  }

  /** The gateway text denotes the peer's management address: always over IPv6, over IPv4
      exactly for IDs below ten. */
  lemma GatewayDenotesPeer(net: Address, bits: nat, id: nat)
    requires GoodMgmtNetwork(net) && id < 256
    ensures var gw := ParseAddress(BuildGWIP(NetInfoOf(Net(net, bits)).prefix, id));
            && (gw == Some(PeerAddress(net, id)) <==> FamilyOf(net) == V6 || id < 10)
            && (gw.Some? <==> FamilyOf(net) == V6 || IsNumeral(Hex(id), 10))
  {
    hide ParseAddress, V6Text, V4Prefix, Render, IsNumeral;
    if FamilyOf(net) == V6 {
      NodeAddress6(net, id);
    } else {
      NodeAddress4(net, id);
    }
  }
}
