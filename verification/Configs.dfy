/** The configuration record (config.go), as far as the modelled operations read it. */
module Configs {
  import opened AddressText
  import opened PodSubnets
  import opened NodeAddresses

  datatype Mode = IPv4Only | IPv6Only | DualStack

  datatype Node = Node(
    link: string,
    id: nat,
    opModes: string,
    name: string,
    isMaster: bool,
    isMinion: bool,
    isDNS64: bool,
    isNAT64: bool)

  /** A CIDR setting: absent, unreadable, or the masked network net.ParseCIDR finds in it. */
  datatype Cidr =
    | Missing
    | Malformed
    | Net(net: Address, bits: nat)

  /** What net.ParseCIDR can return. */
  predicate IsParsed(c: Cidr) {
    c.Net? ==>
      && (IsV4(c.net) || IsV6(c.net))
      && c.bits <= (if |c.net| == 8 then 128 else 32)
      && Mask(c.net, c.bits) == c.net
  }

  datatype Config = Config(
    mode: Mode,
    topology: map<string, Node>,
    mgmtCidr: Cidr, mgmtCidr2: Cidr, mgmtInfo: seq<NetInfo>,
    podCidr: Cidr, podCidr2: Cidr, podInfo: seq<NetInfo>, podMTU: nat,
    serviceCidr: Cidr, serviceInfo: NetInfo,
    supportCidr: Cidr, supportInfo: NetInfo, supportV4Cidr: Cidr,
    dns64Cidr: Cidr, dns64Prefix: string, dns64ServerIP: string,
    nat64ServerIP: string, v4MappingIP: string, v4MappingCidr: Cidr,
    namedConf: string, kubeadmConf: string)

  /** The family the library shows a network in. */
  function FamilyOf(net: Address): Family {
    if |net| == 8 && !IsMapped(net) then V6 else V4
  }

  /** The four octets of an IPv4 or IPv4-mapped network. */
  function Octets(net: Address): Address
    requires |net| == 4 || |net| == 8
  {
    if |net| == 4 then net else [net[6] / 256, net[6] % 256, net[7] / 256, net[7] % 256]
  }

  predicate IsCluster(n: Node) { n.isMaster || n.isMinion }
}
