/** From the checks of the configuration to what the runs on a node rely on. */
module Acceptance {
  import opened Wrappers
  import opened Text
  import opened Tags
  import opened Numerals
  import opened AddressText
  import opened PodSubnets
  import opened NodeAddresses
  import opened Configs
  import opened Validation
  import opened PeerRoutes
  import opened NodeList
  import opened HostMachine
  import opened AddressChoice
  import opened MappingPool
  import opened Gateways
  import NodePlan
  import HostsEdit = HostsFile

  /** The configuration once the derived fields and the roles are stored. */
  function Final(c: Config): Config
    requires Accepted(c)
  {
    Derived(c).(topology := Roles(c.topology))
  }

  /** A node name holds a letter or a digit, and no line break. */
  predicate GoodName(name: string) {
    HostsEdit.Named(name) && '\n' !in name
  }

  predicate NodesFit(c: Config) {
    forall n <- c.topology :: GoodName(n) && c.topology[n].id < 256
  }

  /** In IPv6 mode: IPv6 management, readable server addresses, accepted mapping settings. */
  predicate ServersFit(c: Config, poolIP: Address)
    requires AllParsed(c) && Derivable(c) && IsParsed(c.supportV4Cidr) && (|poolIP| == 4 || |poolIP| == 8)
  {
    MappingValid(c, poolIP)
    && (c.mode == IPv6Only ==>
          FamilyOf(c.mgmtCidr.net) == V6 && ParseAddress(c.dns64ServerIP).Some? && ParseAddress(c.nat64ServerIP).Some?)
  }

  lemma HostsEntryText(c: Config, id: nat)
    requires Accepted(c) && id < 256
    ensures |Final(c).mgmtInfo| == 2 && '\n' !in HostsEntry(Final(c)).prefix + Dec(id)
  {
    hide ParseAddress, V6Text, V4Prefix, PrefixText, Render, Mask, Derivable;
    EntryOf(c, 0);
    if c.mode == DualStack { EntryOf(c, 1); }
    var i := if HostsEntry(Final(c)) == Derived(c).mgmtInfo[0] then 0 else 1;
    DecimalDenotesNode(MgmtCidr(c, i).net, MgmtCidr(c, i).bits, id);
    assert HostsEntry(Final(c)).prefix == NetInfoOf(Net(MgmtCidr(c, i).net, MgmtCidr(c, i).bits)).prefix;
    AddressBytes(HostsEntry(Final(c)).prefix + Dec(id), '\n');
  }

  lemma NodeListIsPlain(c: Config)
    requires Accepted(c) && NodesFit(c) && |Final(c).mgmtInfo| == 2
    ensures HostsEdit.SingleLine(NodeInfos(Final(c))) && !HostsEdit.IsStale(LOOKALIKE, NodeInfos(Final(c)))
  {
    hide Accepted, Render, HostsEdit.IsStale, HostsEdit.Named;
    var d := Final(c);
    var s := NodeInfos(d);
    forall i | 0 <= i < |s|
      ensures '\n' !in s[i].name && '\n' !in s[i].ip
      ensures HostsEdit.Named(s[i].name)
    {
      assert s[i] in Elements(s) && s[i] in InfoSet(d);
      var name :| name in d.topology && s[i] == InfoOf(d, name);
      assert name in c.topology && d.topology[name].id == c.topology[name].id;
      assert GoodName(name);
      HostsEntryText(c, c.topology[name].id);
    }
    HostsEdit.NamedNodesAreHarmless(s);
  }

  /** The interface addresses, on the final configuration. */
  lemma OwnAddresses(c: Config, n: Node)
    requires Accepted(c) && n.id < 256 && |Final(c).mgmtInfo| == 2
    ensures NodePlan.MgmtAddress(Final(c), n, 0).Some?
    ensures c.mode == DualStack ==>
              NodePlan.MgmtAddress(Final(c), n, 1).Some?
                && NodePlan.MgmtAddress(Final(c), n, 1) != NodePlan.MgmtAddress(Final(c), n, 0)
  {
    hide V6Text, V4Prefix, PrefixText, Render, Mask, BuildNodeCIDR, NodePlan.ParseInterface;
    InterfaceAddress(c, n, 0);
    if c.mode == DualStack {
      InterfaceAddress(c, n, 1);
      assert |PeerAddress(c.mgmtCidr.net, n.id)| != |PeerAddress(c.mgmtCidr2.net, n.id)|;
    }
  }

  lemma NameServerIsPlain(c: Config, poolIP: Address, n: Node)
    requires Accepted(c) && n.id < 256 && |Final(c).mgmtInfo| == 2
    requires IsParsed(c.supportV4Cidr) && (|poolIP| == 4 || |poolIP| == 8) && ServersFit(c, poolIP)
    ensures '\n' !in NodePlan.CalcNameServer(Final(c), n)
  {
    hide Accepted, ParseAddress, Render, MappingValid;
    HostsEntryText(c, n.id);
    if c.mode == IPv6Only { AddressBytes(c.dns64ServerIP, '\n'); }
  }

  /** Over IPv6 management the text of every NAT64 host is its address; different IDs give
      different addresses. */
  lemma HostsAreApart(c: Config)
    requires Accepted(c) && NodesFit(c) && UniqueIDs(c.topology) && FamilyOf(c.mgmtCidr.net) == V6
    ensures |Final(c).mgmtInfo| == 2 && HostsApart(Final(c)) && NodePlan.HostsReadable(Final(c))
  {
    hide ParseAddress, V6Text, V4Prefix, PrefixText, Render, Mask, NodePlan.HostsReadable;
    EntryOf(c, 0);
    var d := Final(c);
    forall n | IsNAT64Host(d, n)
      ensures n in c.topology && ParseAddress(HostIPOf(d, n)) == Some(c.mgmtCidr.net[7 := c.topology[n].id])
    {
      assert n in c.topology && d.topology[n].id == c.topology[n].id;
      GatewayDenotesPeer(c.mgmtCidr.net, c.mgmtCidr.bits, c.topology[n].id);
    }
    forall m, n | IsNAT64Host(d, m) && IsNAT64Host(d, n) && m != n
      ensures ParseAddress(HostIPOf(d, m)) != ParseAddress(HostIPOf(d, n))
    {
      assert c.mgmtCidr.net[7 := c.topology[m].id][7] != c.mgmtCidr.net[7 := c.topology[n].id][7];
    }
    hide Accepted;
    assert NodePlan.HostsReadable(d) by { ApartIsReadable(d); }
  }

  lemma ApartIsReadable(d: Config)
    requires |d.mgmtInfo| == 2 && HostsApart(d)
    ensures NodePlan.HostsReadable(d)
  {
    hide ParseAddress, HostIPOf;
  }

  /** Every node of an accepted configuration is fit for prepare and clean, whatever the number
      of NAT64 hosts, if names and IDs are in range and the servers' addresses can be read. */
  lemma AcceptedIsUsable(c: Config, poolIP: Address, name: string)
    requires Accepted(c) && NodesFit(c) && name in c.topology && RolesValid(c.mode, c.topology) && UniqueIDs(c.topology)
    requires IsParsed(c.supportV4Cidr) && (|poolIP| == 4 || |poolIP| == 8) && ServersFit(c, poolIP)
    ensures name in Final(c).topology && NodePlan.Usable(Final(c), Final(c).topology[name])
  {
    hide ParseAddress, V6Text, V4Prefix, PrefixText, Render, Mask, HostsEdit.SingleLine, HostsEdit.IsStale,
      NodePlan.HostsReadable, NodePlan.MgmtAddress, Split, NodeInfos, NodePlan.CalcNameServer, HostsApart;
    var d, n := Final(c), Final(c).topology[name];
    assert RoleNamesValid(c.mode, c.topology[name]);
    assert n.id == c.topology[name].id < 256;
    assert |d.mgmtInfo| == 2;
    OwnAddresses(c, n);
    NodeListIsPlain(c);
    NameServerIsPlain(c, poolIP, n);
    if c.mode == IPv6Only { HostsAreApart(c); }
  }

  /** The number of NAT64 hosts is never checked, but matters: on a cluster node of an accepted
      IPv6 configuration, not hosting the server itself, all orders of the topology give one
      and the same successful result if and only if exactly one node hosts it. */
  lemma AcceptedNeedsOneHost(c: Config, poolIP: Address, name: string, routes: map<Block, Hop>)
    requires Accepted(c) && NodesFit(c) && name in c.topology && RolesValid(c.mode, c.topology) && UniqueIDs(c.topology)
    requires IsParsed(c.supportV4Cidr) && (|poolIP| == 4 || |poolIP| == 8) && ServersFit(c, poolIP)
    requires name in Final(c).topology && NodePlan.RoutesServers(Final(c), Final(c).topology[name])
    requires !Final(c).topology[name].isNAT64
    requires c.dns64Cidr.Net? && NodePlan.BlockOf(c.dns64Cidr).value !in routes
    ensures NodePlan.Usable(Final(c), Final(c).topology[name])
    ensures (exists result :: NodePlan.AlwaysGives(Final(c), Final(c).topology[name], routes, result)) <==>
              OneNAT64(Final(c))
  {
    AcceptedIsUsable(c, poolIP, name);
    HostsAreApart(c);
    assert Final(c).dns64Cidr == c.dns64Cidr;
    hide Accepted, NodesFit, RolesValid, ServersFit, MappingValid, HostsApart, OneNAT64;
    NodePlan.OneResultExactlyWhenOneHost(Final(c), Final(c).topology[name], routes);
  }
}
