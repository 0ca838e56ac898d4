/** What a prepared node of an accepted cluster looks like, in terms of its addresses, routes and
    files alone: resolver, gateways, servers and cluster DNS (prepare.go). */
module PreparedNode {
  import opened Wrappers
  import opened Text
  import opened Tags
  import opened Numerals
  import opened AddressText
  import opened PodSubnets
  import opened NodeAddresses
  import opened Configs
  import opened Validation
  import opened PeerRoutes
  import opened NodeList
  import opened HostMachine
  import opened AddressChoice
  import opened MappingPool
  import opened Gateways
  import opened Acceptance
  import HostsEntries
  import NodePlan
  import HostsEdit = HostsFile
  import ResolvEdit = ResolvConf

  /** An accepted configuration, what the program never checks assumed, and one of its nodes. */
  ghost predicate Fit(c: Config, poolIP: Address, name: string) {
    && Accepted(c) && NodesFit(c) && name in c.topology && RolesValid(c.mode, c.topology) && UniqueIDs(c.topology)
    && IsParsed(c.supportV4Cidr) && (|poolIP| == 4 || |poolIP| == 8) && ServersFit(c, poolIP)
  }

  /** The node is ready, and t is a state prepare may leave when started in s. */
  ghost predicate Leaves(d: Config, node: Node, s: State, t: State) {
    NodePlan.Usable(d, node) && NodePlan.Ready(node, s) && NodePlan.Prepared(d, node, s, t)
  }

  // ------------------------------------------------------------ name resolution

  lemma ResolverText(d: Config, node: Node, s: State, t: State)
    requires Leaves(d, node, s, t) && IsCluster(node)
    ensures HostMachine.ResolvConf in s.files && HostMachine.ResolvConf in t.files
    ensures Managed(s.files[HostMachine.ResolvConf]) && '\n' !in NodePlan.CalcNameServer(d, node)
    ensures t.files[HostMachine.ResolvConf]
         == ResolvEdit.Updated(s.files[HostMachine.ResolvConf], NodePlan.CalcNameServer(d, node))
  {
    NodePlan.ServerTargetFiles(d, node, s);
    hide HostsEdit.SingleLine, HostsEdit.IsStale, HostsEdit.Updated, ResolvEdit.Updated, NodePlan.CalcNameServer,
      NodePlan.MgmtAddress, NodePlan.HostsReadable, ParseAddress, Managed, NodePlan.Routed, NodePlan.DropInText,
      NodePlan.ServerTarget;
  }

  /** The first name server of a prepared node, and the only one with that text: in IPv6 mode the
      DNS64 server, else the node itself under its address in the hosts list. */
  lemma PreparedResolver(d: Config, name: string, s: State, t: State)
    requires name in d.topology && Leaves(d, d.topology[name], s, t) && IsCluster(d.topology[name])
    ensures HostMachine.ResolvConf in t.files && |d.mgmtInfo| == 2
    ensures var ns := if d.mode == IPv6Only then d.dns64ServerIP else InfoOf(d, name).ip;
            exists k :: ResolvEdit.ServesFirst(Lines(t.files[HostMachine.ResolvConf]), ns, k)
  {
    var node := d.topology[name];
    ResolverText(d, node, s, t);
    assert |d.mgmtInfo| == 2;
    assert NodePlan.CalcNameServer(d, node) == if d.mode == IPv6Only then d.dns64ServerIP else InfoOf(d, name).ip;
    hide *;
    var was, ns := s.files[HostMachine.ResolvConf], NodePlan.CalcNameServer(d, node);
    ResolvEdit.UpdateKeepsManaged(was, ns);
    ResolvEdit.ClusterServerComesFirst(Lines(was), ns);
  }

  /** The network behind the addresses in the hosts list. */
  function ListedCidr(c: Config): Cidr
    requires c.mgmtCidr.Net? && c.serviceCidr.Net?
  {
    if c.mode == DualStack && FamilyOf(c.mgmtCidr.net) != FamilyOf(c.serviceCidr.net) then c.mgmtCidr2 else c.mgmtCidr
  }

  lemma TextLength(s: string)
    requires ParseAddress(s).Some?
    ensures |ParseAddress(s).value| == if ':' in s then 8 else 4
  {
    hide Split, Value, Values;
  }

  lemma ListedText(c: Config, name: string)
    requires Accepted(c) && name in c.topology && c.topology[name].id < 256 && |Final(c).mgmtInfo| == 2
    ensures name in Final(c).topology && ListedCidr(c).Net? && GoodMgmtNetwork(ListedCidr(c).net)
    ensures var net, id, text := ListedCidr(c).net, c.topology[name].id, ParseAddress(InfoOf(Final(c), name).ip);
            && text.Some? && |text.value| == (if FamilyOf(net) == V6 then 8 else 4)
            && (text == Some(PeerAddress(net, id)) <==> FamilyOf(net) == V4 || id < 10)
  {
    hide ParseAddress, V6Text, V4Prefix, PrefixText, Render, Mask, Derivable, Split;
    EntryOf(c, 0);
    if c.mode == DualStack { EntryOf(c, 1); }
    var net, bits, id := ListedCidr(c).net, ListedCidr(c).bits, c.topology[name].id;
    var info := NetInfoOf(Net(net, bits));
    assert ListedCidr(c) == Net(net, bits);
    assert HostsEntry(Final(c)) == info && Final(c).topology[name].id == id;
    DecimalDenotesNode(net, bits, id);
    PrefixBytes(net, bits);
    RenderDigits(id, 10);
    TextLength(info.prefix + Dec(id));
  }

  /** What prepare puts on a node's interface. */
  function OwnAddresses(c: Config, link: string, id: nat): set<LinkAddr>
    requires Accepted(c)
  {
    AcceptedNetworks(c);
    {LinkAddr(link, PeerAddress(c.mgmtCidr.net, id), c.mgmtCidr.bits)}
    + if c.mode == DualStack then {LinkAddr(link, PeerAddress(c.mgmtCidr2.net, id), c.mgmtCidr2.bits)} else {}
  }

  lemma AcceptedNetworks(c: Config)
    requires Accepted(c)
    ensures c.mgmtCidr.Net? && GoodMgmtNetwork(c.mgmtCidr.net) && c.serviceCidr.Net?
    ensures c.mode == DualStack ==>
              && c.mgmtCidr2.Net? && GoodMgmtNetwork(c.mgmtCidr2.net)
              && FamilyOf(c.mgmtCidr2.net) != FamilyOf(c.mgmtCidr.net)
  {
    hide Mask;
  }

  lemma OwnAddressesAre(c: Config, node: Node)
    requires Accepted(c) && node.id < 256 && NodePlan.Usable(Final(c), node) && IsCluster(node)
    ensures NodePlan.MgmtAddrs(Final(c), node) == OwnAddresses(c, node.link, node.id)
  {
    hide V6Text, V4Prefix, PrefixText, Render, Mask, BuildNodeCIDR, NodePlan.ParseInterface, HostsEdit.SingleLine,
      HostsEdit.IsStale, NodePlan.CalcNameServer, NodePlan.HostsReadable, NodeInfos;
    InterfaceAddress(c, node, 0);
    if c.mode == DualStack { InterfaceAddress(c, node, 1); }
    assert Final(c).mgmtInfo == Derived(c).mgmtInfo && Final(c).mode == c.mode;
  }

  /** A node's address in the hosts list is one of those on its interface if and only if the list
      is in IPv4 or the ID is below ten; so outside IPv6 mode a node can reach itself as its own
      name server exactly then. */
  lemma ListedIsOwn(c: Config, name: string)
    requires Accepted(c) && name in c.topology && c.topology[name].id < 256
    requires name in Final(c).topology && NodePlan.Usable(Final(c), Final(c).topology[name])
    requires IsCluster(Final(c).topology[name])
    ensures |Final(c).mgmtInfo| == 2 && ListedCidr(c).Net?
    ensures (exists x <- NodePlan.MgmtAddrs(Final(c), Final(c).topology[name]) ::
               ParseAddress(InfoOf(Final(c), name).ip) == Some(x.addr))
       <==> FamilyOf(ListedCidr(c).net) == V4 || c.topology[name].id < 10
  {
    var d, node := Final(c), Final(c).topology[name];
    assert node.id == c.topology[name].id && |d.mgmtInfo| == 2;
    hide NodePlan.Usable, NodePlan.MgmtAddrs, ParseAddress, InfoOf, Accepted, Final, Derivable, ListedCidr,
      PeerAddress, FamilyOf, OwnAddresses;
    ListedText(c, name);
    OwnAddressesAre(c, node);
    ListedAmongOwn(c, node.link, node.id);
    AmongOwn(ParseAddress(InfoOf(d, name).ip), NodePlan.MgmtAddrs(d, node),
             LinkAddr(node.link, PeerAddress(ListedCidr(c).net, node.id), ListedCidr(c).bits));
  }

  /** It is one of the node's own; any other one is of another family. */
  lemma ListedAmongOwn(c: Config, link: string, id: nat)
    requires Accepted(c)
    ensures ListedCidr(c).Net? && GoodMgmtNetwork(ListedCidr(c).net)
    ensures var x := LinkAddr(link, PeerAddress(ListedCidr(c).net, id), ListedCidr(c).bits);
            && |x.addr| == (if FamilyOf(ListedCidr(c).net) == V6 then 8 else 4)
            && x in OwnAddresses(c, link, id)
            && forall y <- OwnAddresses(c, link, id) :: y == x || |y.addr| != |x.addr|
  {
    AcceptedNetworks(c);
    hide Accepted;
  }

  lemma AmongOwn(text: Option<Address>, own: set<LinkAddr>, x: LinkAddr)
    requires x in own && forall y <- own :: y == x || |y.addr| != |x.addr|
    requires text.Some? && |text.value| == |x.addr|
    ensures (exists y <- own :: text == Some(y.addr)) <==> text == Some(x.addr)
  {
  }

  // ------------------------------------------------------------ gateways

  lemma HostTextDenotes(c: Config, h: string)
    requires Accepted(c) && NodesFit(c) && FamilyOf(c.mgmtCidr.net) == V6
    requires |Final(c).mgmtInfo| == 2 && IsNAT64Host(Final(c), h)
    ensures h in c.topology && Final(c).topology[h].id == c.topology[h].id < 256
    ensures GoodMgmtNetwork(c.mgmtCidr.net)
    ensures ParseAddress(HostIPOf(Final(c), h)) == Some(PeerAddress(c.mgmtCidr.net, c.topology[h].id))
  {
    hide ParseAddress, V6Text, V4Prefix, PrefixText, Render, Mask;
    EntryOf(c, 0);
    var d := Final(c);
    assert h in c.topology && d.topology[h].id == c.topology[h].id;
    GatewayDenotesPeer(c.mgmtCidr.net, c.mgmtCidr.bits, c.topology[h].id);
  }

  /** Where a route leads that goes over the address on the interface of a NAT64 host. */
  ghost predicate OverHost(c: Config, h: string, link: string, hop: Hop)
    requires Accepted(c) && |Final(c).mgmtInfo| == 2
  {
    && h in c.topology && h in Final(c).topology && Final(c).topology[h].isNAT64
    && (|c.mgmtCidr.net| == 4 || |c.mgmtCidr.net| == 8)
    && hop == Hop(PeerAddress(c.mgmtCidr.net, c.topology[h].id), Named(link))
    && NodePlan.MgmtAddress(Final(c), Final(c).topology[h], 0)
       == Some(LinkAddr(c.topology[h].link, PeerAddress(c.mgmtCidr.net, c.topology[h].id), c.mgmtCidr.bits))
  }

  lemma GatewayIsOverHost(c: Config, node: Node, hop: Hop) returns (h: string)
    requires Accepted(c) && NodesFit(c) && FamilyOf(c.mgmtCidr.net) == V6 && |Final(c).mgmtInfo| == 2
    requires !node.isNAT64 && IsGateway(Final(c), node, hop)
    ensures OverHost(c, h, node.link, hop)
  {
    hide ParseAddress, HostIPOf, Render, BuildNodeCIDR, NodePlan.ParseInterface, Derivable, Mask;
    var d := Final(c);
    h :| IsNAT64Host(d, h) && ParseAddress(HostIPOf(d, h)) == Some(hop.gw);
    HostTextDenotes(c, h);
    InterfaceAddress(c, d.topology[h], 0);
    assert d.mgmtInfo == Derived(c).mgmtInfo && d.topology[h].link == c.topology[h].link;
  }

  /** What a prepared node without the server has new routes to, and over what. */
  lemma NewRoutesAre(d: Config, node: Node, s: State, t: State, dest: Block)
    requires Leaves(d, node, s, t) && d.mode == IPv6Only && IsCluster(node)
    requires dest == Block(d.dns64Cidr.net, d.dns64Cidr.bits)
             || (!node.isNAT64 && dest == Block(d.supportCidr.net, d.supportCidr.bits))
    ensures dest in t.routes && (dest in s.routes ==> t.routes[dest] == s.routes[dest])
    ensures dest !in s.routes && !node.isNAT64 ==> |d.mgmtInfo| == 2 && IsGateway(d, node, t.routes[dest])
  {
    hide HostsEdit.SingleLine, HostsEdit.IsStale, NodePlan.MgmtAddress, NodePlan.HostsReadable, ParseAddress,
      NodePlan.CalcNameServer, NodePlan.FilesReady, NodePlan.FilesTarget, IsGateway, NodePlan.MgmtAddrs;
  }

  lemma FinalKeeps(c: Config, name: string)
    requires Accepted(c) && name in c.topology
    ensures var d := Final(c);
            && d.dns64Cidr == c.dns64Cidr && d.supportCidr == c.supportCidr && d.mode == c.mode
            && d.v4MappingCidr == c.v4MappingCidr && d.v4MappingIP == c.v4MappingIP
                 && d.nat64ServerIP == c.nat64ServerIP
            && d.dns64ServerIP == c.dns64ServerIP && d.podMTU == c.podMTU && d.namedConf == c.namedConf
            && d.kubeadmConf == c.kubeadmConf && |d.mgmtInfo| == 2
            && name in d.topology && d.topology[name].link == c.topology[name].link
            && d.topology[name].id == c.topology[name].id
  {
    hide AllParsed, Derivable, GoodMgmtNetwork, Split, Names;
  }

  /** A prepared node without the server reaches the synthesized addresses and the support network
      over the very address that prepare puts on some NAT64 host's interface. */
  lemma PreparedGateways(c: Config, poolIP: Address, name: string, s: State, t: State, dest: Block)
    requires Fit(c, poolIP, name) && c.mode == IPv6Only && name in Final(c).topology
    requires IsCluster(Final(c).topology[name]) && !Final(c).topology[name].isNAT64
    requires Leaves(Final(c), Final(c).topology[name], s, t)
    requires c.dns64Cidr.Net? && c.supportCidr.Net?
    requires dest in {Block(c.dns64Cidr.net, c.dns64Cidr.bits), Block(c.supportCidr.net, c.supportCidr.bits)}
    ensures dest in t.routes && (dest in s.routes ==> t.routes[dest] == s.routes[dest])
    ensures |Final(c).mgmtInfo| == 2
    ensures dest !in s.routes ==> exists h :: OverHost(c, h, c.topology[name].link, t.routes[dest])
  {
    var d, node := Final(c), Final(c).topology[name];
    FinalKeeps(c, name);
    assert FamilyOf(c.mgmtCidr.net) == V6;
    hide Accepted, NodesFit, RolesValid, ServersFit, Final, IsGateway, OverHost, Leaves, IsCluster;
    NewRoutesAre(d, node, s, t, dest);
    if dest !in s.routes { var h := GatewayIsOverHost(c, node, t.routes[dest]); }
  }

  // ------------------------------------------------------------ servers

  /** What a successful prepare leaves of the two servers and their routes. */
  lemma ServersAre(d: Config, node: Node, s: State, t: State)
    requires Leaves(d, node, s, t) && d.mode == IPv6Only
    ensures node.isDNS64 || node.isNAT64 ==> t.net
    ensures node.isDNS64 ==> t.dns64 == Running(false, true) && t.volume == Volume(Some(d.namedConf))
    ensures node.isNAT64 ==> t.nat64.Running? && d.v4MappingCidr.Net? && ParseAddress(d.v4MappingIP).Some?
    ensures node.isNAT64 ==>
              var dest := Block(d.v4MappingCidr.net, d.v4MappingCidr.bits);
              && dest in t.routes
              && (dest !in s.routes ==> t.routes[dest] == Hop(ParseAddress(d.v4MappingIP).value, Support))
    ensures !node.isDNS64 && !node.isNAT64 ==>
              t.net == s.net && t.dns64 == s.dns64 && t.volume == s.volume && t.nat64 == s.nat64
    ensures forall dest <- s.routes :: dest in t.routes && t.routes[dest] == s.routes[dest]
  {
    hide HostsEdit.SingleLine, HostsEdit.IsStale, NodePlan.MgmtAddress, NodePlan.HostsReadable, ParseAddress,
      NodePlan.CalcNameServer, NodePlan.FilesReady, NodePlan.FilesTarget, IsGateway, NodePlan.MgmtAddrs,
      NodePlan.Wanted, NodePlan.HasGateway;
  }

  /** Outside IPv6 clusters no route is added; in them none but to the pool on the NAT64 host, to the
      synthesized addresses on cluster nodes, and to the support network on those without servers. */
  lemma NoOtherRoutes(d: Config, node: Node, s: State, t: State, dest: Block)
    requires Leaves(d, node, s, t) && dest in t.routes && dest !in s.routes
    ensures d.mode == IPv6Only
    ensures || (node.isNAT64 && d.v4MappingCidr.Net? && dest == Block(d.v4MappingCidr.net, d.v4MappingCidr.bits))
            || (IsCluster(node) && d.dns64Cidr.Net? && dest == Block(d.dns64Cidr.net, d.dns64Cidr.bits))
            || (IsCluster(node) && !node.isNAT64 && !node.isDNS64 && d.supportCidr.Net?
                && dest == Block(d.supportCidr.net, d.supportCidr.bits))
  {
    hide HostsEdit.SingleLine, HostsEdit.IsStale, NodePlan.MgmtAddress, NodePlan.HostsReadable, ParseAddress,
      NodePlan.CalcNameServer, NodePlan.FilesReady, NodePlan.FilesTarget, IsGateway, NodePlan.MgmtAddrs,
      NodePlan.HasGateway;
  }

  /** On the NAT64 host itself the synthesized addresses are reached over its own server. */
  lemma OwnServerRoute(d: Config, node: Node, s: State, t: State, dest: Block)
    requires Leaves(d, node, s, t) && d.mode == IPv6Only && IsCluster(node) && node.isNAT64
    requires d.dns64Cidr.Net? && dest == Block(d.dns64Cidr.net, d.dns64Cidr.bits) && dest !in s.routes
    requires d.v4MappingCidr.Net? && dest != Block(d.v4MappingCidr.net, d.v4MappingCidr.bits)
    ensures dest in t.routes && ParseAddress(d.nat64ServerIP) == Some(t.routes[dest].gw)
              && t.routes[dest].link == Support
  {
    hide HostsEdit.SingleLine, HostsEdit.IsStale, NodePlan.MgmtAddress, NodePlan.HostsReadable, ParseAddress,
      NodePlan.CalcNameServer, NodePlan.FilesReady, NodePlan.FilesTarget, NodePlan.MgmtAddrs, NodePlan.HasGateway;
  }

  /** The mapping address, over which the pool is reached, is in the IPv4 support network. */
  lemma MappingIsInSupport(c: Config, poolIP: Address, name: string)
    requires Fit(c, poolIP, name) && c.mode == IPv6Only
    ensures c.supportV4Cidr.Net? && ParseAddress(c.v4MappingIP).Some?
    ensures |c.supportV4Cidr.net| == 4 && |ParseAddress(c.v4MappingIP).value| == 4 ==>
              Mask(ParseAddress(c.v4MappingIP).value, c.supportV4Cidr.bits) == c.supportV4Cidr.net
  {
    hide Mask, Accepted, ParseAddress, RolesValid, NodesFit, UniqueIDs;
    if |c.supportV4Cidr.net| == 4 && |ParseAddress(c.v4MappingIP).value| == 4 {
      Contains4(c.supportV4Cidr, ParseAddress(c.v4MappingIP).value);
    }
    hide MappingPool.Contains;
  }

  /** A prepared server node of an accepted cluster: both servers run, the DNS64 server with its
      configuration, its route and no IPv4 address; the pool is reached over an address in the IPv4
      support network, the synthesized addresses over the NAT64 server. */
  lemma PreparedServers(c: Config, poolIP: Address, name: string, s: State, t: State)
    requires Fit(c, poolIP, name) && c.mode == IPv6Only && name in Final(c).topology
    requires IsCluster(Final(c).topology[name]) && Final(c).topology[name].isNAT64
    requires Leaves(Final(c), Final(c).topology[name], s, t)
    ensures t.net && t.nat64.Running? && t.dns64 == Running(false, true) && t.volume == Volume(Some(c.namedConf))
    ensures c.v4MappingCidr.Net? && c.supportV4Cidr.Net? && c.dns64Cidr.Net?
    ensures var pool, made := Block(c.v4MappingCidr.net, c.v4MappingCidr.bits),
              Block(c.dns64Cidr.net, c.dns64Cidr.bits);
            && pool in t.routes && made in t.routes
            && (pool !in s.routes ==>
                  && t.routes[pool].link == Support && ParseAddress(c.v4MappingIP) == Some(t.routes[pool].gw)
                  && (|c.supportV4Cidr.net| == |t.routes[pool].gw| == 4 ==>
                        Mask(t.routes[pool].gw, c.supportV4Cidr.bits) == c.supportV4Cidr.net))
            && (made !in s.routes && made != pool ==>
                  t.routes[made].link == Support && ParseAddress(c.nat64ServerIP) == Some(t.routes[made].gw))
  {
    var d, node := Final(c), Final(c).topology[name];
    FinalKeeps(c, name);
    BothServers(d, node, s, t);
    MappingIsInSupport(c, poolIP, name);
    hide Accepted, NodesFit, RolesValid, ServersFit, Final, IsGateway, Leaves, IsCluster, Fit, Mask, ParseAddress;
    ServersAre(d, node, s, t);
    var made := Block(c.dns64Cidr.net, c.dns64Cidr.bits);
    NewRoutesAre(d, node, s, t, made);
    if made !in s.routes && made != Block(c.v4MappingCidr.net, c.v4MappingCidr.bits) {
      OwnServerRoute(d, node, s, t, made);
    }
  }

  lemma BothServers(d: Config, node: Node, s: State, t: State)
    requires Leaves(d, node, s, t) && d.mode == IPv6Only && IsCluster(node) && node.isNAT64
    ensures node.isDNS64 && d.dns64Cidr.Net?
  {
    hide HostsEdit.SingleLine, HostsEdit.IsStale, NodePlan.MgmtAddress, ParseAddress, NodePlan.CalcNameServer;
  }

  // ------------------------------------------------------------ settings

  /** The interface of a prepared node has just its own addresses added and the pod MTU; the
      kubeadm settings are the master's; and its files are the old ones but for the edited ones. */
  lemma PreparedSettings(c: Config, name: string, s: State, t: State)
    requires Accepted(c) && name in c.topology && c.topology[name].id < 256 && name in Final(c).topology
    requires IsCluster(Final(c).topology[name]) && Leaves(Final(c), Final(c).topology[name], s, t)
    ensures t.addrs == s.addrs + OwnAddresses(c, c.topology[name].link, c.topology[name].id)
    ensures t.mtus == s.mtus[c.topology[name].link := c.podMTU]
    ensures Final(c).topology[name].isMaster ==> KubeAdmConf in t.files && t.files[KubeAdmConf] == c.kubeadmConf
    ensures !Final(c).topology[name].isMaster && KubeAdmConf in s.files ==>
              KubeAdmConf in t.files && t.files[KubeAdmConf] == s.files[KubeAdmConf]
  {
    var d, node := Final(c), Final(c).topology[name];
    hide Accepted, Final, IsCluster, NodePlan.MgmtAddrs, NodePlan.Usable, OwnAddresses, NodePlan.Prepared,
      NodePlan.Ready;
    FinalKeeps(c, name);
    OwnAddressesAre(c, node);
    SettingsAre(d, node, s, t);
  }

  lemma SettingsAre(d: Config, node: Node, s: State, t: State)
    requires Leaves(d, node, s, t) && IsCluster(node)
    ensures t.addrs == s.addrs + NodePlan.MgmtAddrs(d, node) && t.mtus == s.mtus[node.link := d.podMTU]
    ensures node.isMaster ==> KubeAdmConf in t.files && t.files[KubeAdmConf] == d.kubeadmConf
    ensures !node.isMaster && KubeAdmConf in s.files ==>
              KubeAdmConf in t.files && t.files[KubeAdmConf] == s.files[KubeAdmConf]
    ensures HostMachine.HostsFile in s.files && Managed(s.files[HostMachine.HostsFile])
    ensures HostMachine.HostsFile in t.files
    ensures t.files[HostMachine.HostsFile] == HostsEdit.Updated(s.files[HostMachine.HostsFile], NodeInfos(d))
    ensures DropIn in t.files && t.files[DropIn] == NodePlan.DropInText(d)
  {
    NodePlan.ServerTargetFiles(d, node, s);
    hide HostsEdit.SingleLine, HostsEdit.IsStale, HostsEdit.Updated, ResolvEdit.Updated, NodePlan.CalcNameServer,
      NodePlan.MgmtAddress, NodePlan.HostsReadable, ParseAddress, Managed, NodePlan.Routed, NodePlan.DropInText,
      NodePlan.MgmtAddrs, NodeInfos;
  }

  /** Its hosts file has, for every node of the cluster, an active line with that node's name and
      the text of its address; what the text denotes is said by ListedText. */
  lemma PreparedHosts(c: Config, name: string, s: State, t: State, other: string)
    requires Accepted(c) && name in c.topology && name in Final(c).topology
    requires IsCluster(Final(c).topology[name]) && Leaves(Final(c), Final(c).topology[name], s, t)
    requires other in c.topology && c.topology[other].id < 256
    ensures HostMachine.HostsFile in t.files && |Final(c).mgmtInfo| == 2 && other in Final(c).topology
    ensures exists l <- Lines(t.files[HostMachine.HostsFile]) ::
              !("#" <= l) && Text.Contains(l, other) && Text.Contains(l, InfoOf(Final(c), other).ip)
  {
    var d, node := Final(c), Final(c).topology[name];
    hide Accepted, Final, IsCluster, Leaves, Lines, Text.Contains, InfoOf;
    FinalKeeps(c, name);
    ListedIsClean(c, other);
    HostsHold(d, node, s, t, other);
  }

  lemma ListedIsClean(c: Config, other: string)
    requires Accepted(c) && other in c.topology && c.topology[other].id < 256 && |Final(c).mgmtInfo| == 2
    ensures other in Final(c).topology && !("#" <= InfoOf(Final(c), other).ip)
  {
    hide Accepted, Final, InfoOf, ListedCidr, PeerAddress, FamilyOf, ParseAddress;
    ListedText(c, other);
    var ip := InfoOf(Final(c), other).ip;
    AddressBytes(ip, '#');
    if "#" <= ip { HostsEntries.StartsWithHash(ip); }
  }

  lemma HostsHold(d: Config, node: Node, s: State, t: State, other: string)
    requires Leaves(d, node, s, t) && IsCluster(node) && other in d.topology && |d.mgmtInfo| == 2
    requires !("#" <= InfoOf(d, other).ip)
    ensures HostMachine.HostsFile in t.files
    ensures exists l <- Lines(t.files[HostMachine.HostsFile]) ::
              !("#" <= l) && Text.Contains(l, other) && Text.Contains(l, InfoOf(d, other).ip)
  {
    SettingsAre(d, node, s, t);
    NodesAreListed(d, node, s, t);
    hide Leaves, IsCluster, Managed, HostsEdit.Updated, HostsEdit.UpdatedLines, Lines, Text.Contains,
      HostsEdit.SingleLine;
    var n, was := NodeInfos(d), s.files[HostMachine.HostsFile];
    HostsEdit.UpdatedIsReadable(was, n);
    assert InfoOf(d, other) in InfoSet(d);
    assert InfoOf(d, other) in Elements(n);
    var i :| 0 <= i < |n| && n[i] == InfoOf(d, other);
    var l := HostsEdit.EveryNodeIsListed(Lines(was), n, i);
  }

  lemma NodesAreListed(d: Config, node: Node, s: State, t: State)
    requires Leaves(d, node, s, t) && IsCluster(node)
    ensures |d.mgmtInfo| == 2 && HostsEdit.SingleLine(NodeInfos(d))
  {
  }

  // ------------------------------------------------------------ cluster DNS

  /** The tenth address of the service network. */
  function Tenth(net: Address): Address
    requires |net| == 4 || |net| == 8
  {
    if FamilyOf(net) == V6 then net[7 := net[7] + 10] else Octets(net)[3 := Octets(net)[3] + 10]
  }

  /** kubelet is told to resolve names at the tenth address of the service network: the text in its
      drop-in file denotes it over IPv4 always, over IPv6 exactly if the network's last group is
      zero. */
  lemma ClusterDNS(c: Config, name: string, s: State, t: State) returns (text: string)
    requires Accepted(c) && name in c.topology && name in Final(c).topology
    requires IsCluster(Final(c).topology[name]) && Leaves(Final(c), Final(c).topology[name], s, t)
    ensures DropIn in t.files && c.serviceCidr.Net? && (|c.serviceCidr.net| == 4 || |c.serviceCidr.net| == 8)
    ensures t.files[DropIn] == "[Service]\nEnvironment=\"KUBELET_DNS_ARGS=--cluster-dns=" + text
                               + " --cluster-domain=cluster.local\"\n"
    ensures ParseAddress(text) == Some(Tenth(c.serviceCidr.net)) <==>
              FamilyOf(c.serviceCidr.net) == V4 || c.serviceCidr.net[7] == 0
  {
    var d, node := Final(c), Final(c).topology[name];
    SettingsAre(d, node, s, t);
    text := d.serviceInfo.prefix + (if d.serviceInfo.mode == V4 then "10" else "a");
    assert t.files[DropIn] == "[Service]\nEnvironment=\"KUBELET_DNS_ARGS=--cluster-dns=" + text
                              + " --cluster-domain=cluster.local\"\n" by { DropInIs(d); }
    assert d.serviceInfo == Derived(c).serviceInfo;
    TenthText(c);
  }

  lemma DropInIs(d: Config)
    ensures NodePlan.DropInText(d) == "[Service]\nEnvironment=\"KUBELET_DNS_ARGS=--cluster-dns="
                                      + (d.serviceInfo.prefix + (if d.serviceInfo.mode == V4 then "10" else "a"))
                                      + " --cluster-domain=cluster.local\"\n"
  {
    var a, b := "[Service]\nEnvironment=\"KUBELET_DNS_ARGS=--cluster-dns=", " --cluster-domain=cluster.local\"\n";
    var x, y := d.serviceInfo.prefix, if d.serviceInfo.mode == V4 then "10" else "a";
    assert a + x + y + b == a + (x + y) + b;
  }

  lemma TenthText(c: Config)
    requires Accepted(c)
    ensures c.serviceCidr.Net? && (|c.serviceCidr.net| == 4 || |c.serviceCidr.net| == 8)
    ensures var info := Derived(c).serviceInfo;
            ParseAddress(info.prefix + (if info.mode == V4 then "10" else "a")) == Some(Tenth(c.serviceCidr.net)) <==>
              FamilyOf(c.serviceCidr.net) == V4 || c.serviceCidr.net[7] == 0
  {
    hide V6Text, V4Prefix, ParseAddress, Mask, Tenth;
    TenthOfNetwork(c.serviceCidr.net, c.serviceCidr.bits);
  }

  lemma TenthOfNetwork(net: Address, bits: nat)
    requires (IsV4(net) || IsV6(net)) && Mask(net, bits) == net && (FamilyOf(net) == V4 ==> bits < 24)
    ensures var info := NetInfoOf(Net(net, bits));
            ParseAddress(info.prefix + (if info.mode == V4 then "10" else "a")) == Some(Tenth(net)) <==>
              FamilyOf(net) == V4 || net[7] == 0
  {
    if FamilyOf(net) == V6 {
      hide V6Text, V4Prefix, ParseAddress, ClearLow, Mask;
      TenthAddress6(net);
    } else {
      LastOctetIsZero(net, bits);
      OctetsFit(net);
      hide V6Text, V4Prefix, ParseAddress, ClearLow, Mask;
      TenthAddress4(Octets(net));
    }
  }

  lemma LastOctetIsZero(net: Address, bits: nat)
    requires (IsV4(net) || IsV6(net)) && Mask(net, bits) == net && FamilyOf(net) == V4 && bits < 24
    ensures Octets(net)[3] == 0
  {
    hide ClearLow;
    if |net| == 4 { assert Mask(net, bits)[3] == net[3]; }
  }

  /** The prefix the DNS64 server is to synthesize addresses with reads as the DNS64 network. */
  lemma SynthesisPrefix(c: Config)
    requires Accepted(c) && c.mode == IPv6Only
    ensures c.dns64Cidr.Net? && (|c.dns64Cidr.net| == 4 || |c.dns64Cidr.net| == 8)
    ensures ParseAddress(Derived(c).dns64Prefix) == Some(Plain(c.dns64Cidr.net))
  {
    var net := c.dns64Cidr.net;
    hide V6Text, V4Text, ParseV6, ParseV4, Mask;
    if FamilyOf(net) == V6 {
      V6TextParses(net);
      HasColon(net);
    } else {
      OctetsFit(net);
      V4TextParses(Octets(net));
    }
  }
}
