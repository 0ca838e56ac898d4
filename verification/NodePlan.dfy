/** What "prepare" is to leave on a node, as a function of the configuration and of the
    state it starts from, without regard to the order of its steps (prepare.go). */
module NodePlan {
  import opened Wrappers
  import opened Text
  import opened Tags
  import opened Numerals
  import opened AddressText
  import opened PodSubnets
  import opened NodeAddresses
  import opened Configs
  import opened HostMachine
  import HostsEdit = HostsFile
  import ResolvEdit = ResolvConf
  import opened NodeList
  import opened Gateways

  /** netlink.ParseAddr: the address itself, unmasked, and its prefix length. */
  function ParseInterface(s: string, link: string): Option<LinkAddr> {
    var parts := Split(s, '/');
    if |parts| != 2 || !IsNumeral(parts[1], 10) then None
    else match ParseAddress(parts[0])
      case None => None
      case Some(a) => Some(LinkAddr(link, a, Value(parts[1], 10)))
  }

  /** The node's management address on entry i. */
  function MgmtAddress(c: Config, node: Node, i: nat): Option<LinkAddr>
    requires i < |c.mgmtInfo|
  {
    ParseInterface(BuildNodeCIDR(c.mgmtInfo[i], node.id), node.link)
  }

  function BlockOf(c: Cidr): Option<Block> {
    if c.Net? then Some(Block(c.net, c.bits)) else None
  }

  /** The server the cluster resolves names with. */
  function CalcNameServer(c: Config, node: Node): string
    requires |c.mgmtInfo| == 2
  {
    if c.mode == IPv6Only then c.dns64ServerIP else HostsEntry(c).prefix + Dec(node.id)
  }

  /** kubelet drop-in file. */
  function DropInText(c: Config): string {
    "[Service]\nEnvironment=\"KUBELET_DNS_ARGS=--cluster-dns=" + c.serviceInfo.prefix
    + (if c.serviceInfo.mode == V4 then "10" else "a") + " --cluster-domain=cluster.local\"\n"
  }

  predicate IsServer(n: Node) { n.isDNS64 || n.isNAT64 }

  /** The texts of the NAT64 hosts, however many there are, are addresses. */
  ghost predicate HostsReadable(c: Config)
    requires |c.mgmtInfo| == 2
  {
    forall n | IsNAT64Host(c, n) :: ParseAddress(HostIPOf(c, n)).Some?
  }

  /** The settings are usable for this node: the texts that must be addresses are (two different
      ones in dual-stack mode), names and addresses are single-line, and no node name could claim the lookalike line. */
  ghost predicate Usable(c: Config, node: Node) {
    && |c.mgmtInfo| == 2
    && (IsCluster(node) ==>
          && MgmtAddress(c, node, 0).Some?
          && (c.mode == DualStack ==>
               MgmtAddress(c, node, 1).Some? && MgmtAddress(c, node, 1) != MgmtAddress(c, node, 0))
          && HostsEdit.SingleLine(NodeInfos(c)) && !HostsEdit.IsStale(LOOKALIKE, NodeInfos(c))
          && '\n' !in CalcNameServer(c, node))
    && (c.mode == IPv6Only && IsCluster(node) ==>
          && c.dns64Cidr.Net? && c.supportCidr.Net?
          && (if node.isNAT64 then ParseAddress(c.nat64ServerIP).Some? else HostsReadable(c)))
    && (c.mode == IPv6Only && node.isNAT64 ==> c.v4MappingCidr.Net? && ParseAddress(c.v4MappingIP).Some?)
    && (c.mode == IPv6Only ==> node.isDNS64 == node.isNAT64)
  }

  // ------------------------------------------------------------ targets

  /** Files prepare edits exist and have not been tampered with. */
  predicate FilesReady(files: map<File, string>) {
    && HostMachine.HostsFile in files && Managed(files[HostMachine.HostsFile])
    && HostMachine.ResolvConf in files && Managed(files[HostMachine.ResolvConf])
  }

  ghost function FilesTarget(c: Config, node: Node, files: map<File, string>): map<File, string>
    requires |c.mgmtInfo| == 2 && FilesReady(files)
  {
    var edited := files[HostMachine.HostsFile := HostsEdit.Updated(files[HostMachine.HostsFile], NodeInfos(c))]
                       [HostMachine.ResolvConf :=
                         ResolvEdit.Updated(files[HostMachine.ResolvConf], CalcNameServer(c, node))]
                       [DropIn := DropInText(c)];
    if node.isMaster then edited[KubeAdmConf := c.kubeadmConf] else edited
  }

  function AddIfAbsent(routes: map<Block, Hop>, dest: Block, hop: Hop): map<Block, Hop> {
    if dest in routes then routes else routes[dest := hop]
  }

  predicate RoutesServers(c: Config, node: Node) { c.mode == IPv6Only && IsCluster(node) }

  /** The destinations a node needs routes to: the synthesized addresses, and on a node without
      servers the support network. */
  function Wanted(c: Config, node: Node): set<Block>
    requires RoutesServers(c, node) ==> c.dns64Cidr.Net? && c.supportCidr.Net?
  {
    if !RoutesServers(c, node) then {}
    else {BlockOf(c.dns64Cidr).value} + (if IsServer(node) then {} else {BlockOf(c.supportCidr).value})
  }

  /** There is somewhere to route to: a node without the server needs a NAT64 host. */
  ghost predicate HasGateway(c: Config, node: Node) {
    RoutesServers(c, node) && !node.isNAT64 ==> exists n :: IsNAT64Host(c, n)
  }

  /** Some routes were added, to wanted destinations, each over a hop some walk leads to. */
  ghost predicate Grown(c: Config, node: Node, a: map<Block, Hop>, b: map<Block, Hop>)
    requires Usable(c, node)
  {
    && (forall d <- a :: d in b && b[d] == a[d])
    && (forall d <- b :: d in a || (d in Wanted(c, node) && IsGateway(c, node, b[d])))
  }

  /** All of them. */
  ghost predicate Routed(c: Config, node: Node, a: map<Block, Hop>, b: map<Block, Hop>)
    requires Usable(c, node)
  {
    HasGateway(c, node) && Grown(c, node, a, b) && Wanted(c, node) <= b.Keys
  }

  /** What the two route steps give when the map is walked in these orders. */
  function RoutesBy(c: Config, node: Node, routes: map<Block, Hop>, o1: seq<string>,
                    o2: seq<string>): Option<map<Block, Hop>>
    requires |c.mgmtInfo| == 2 && RoutesServers(c, node) && c.dns64Cidr.Net? && c.supportCidr.Net?
    requires forall n :: n in o1 + o2 ==> n in c.topology
  {
    assert forall n <- o1 :: n in o1 + o2;
    assert forall n <- o2 :: n in o1 + o2;
    match GatewayBy(c, node, o1)
    case None => None
    case Some(g1) =>
      var first := AddIfAbsent(routes, BlockOf(c.dns64Cidr).value, g1);
      if IsServer(node) then Some(first)
      else match GatewayBy(c, node, o2)
        case None => None
        case Some(g2) => Some(AddIfAbsent(first, BlockOf(c.supportCidr).value, g2))
  }

  ghost function MgmtAddrs(c: Config, node: Node): set<LinkAddr>
    requires Usable(c, node) && IsCluster(node)
  {
    {MgmtAddress(c, node, 0).value} + (if c.mode == DualStack then {MgmtAddress(c, node, 1).value} else {})
  }

  /** Addresses, MTU and files of a cluster node. */
  ghost function SettingsTarget(c: Config, node: Node, s: State): State
    requires Usable(c, node) && IsCluster(node) && FilesReady(s.files)
  {
    s.(addrs := s.addrs + MgmtAddrs(c, node),
       mtus := s.mtus[node.link := c.podMTU],
       files := FilesTarget(c, node, s.files))
  }

  /** A fresh server container has its IPv4 address still to lose and its route still to get. */
  function DNS64Target(c: Config, s: State): State {
    s.(dns64 := Running(false, true), volume := Volume(Some(c.namedConf)))
  }

  function MappingHop(c: Config): Hop
    requires ParseAddress(c.v4MappingIP).Some?
  {
    Hop(ParseAddress(c.v4MappingIP).value, Support)
  }

  function NAT64Target(c: Config, s: State): State
    requires c.v4MappingCidr.Net? && ParseAddress(c.v4MappingIP).Some?
  {
    s.(nat64 := if s.nat64.Running? then s.nat64 else Running(true, false),
       routes := AddIfAbsent(s.routes, BlockOf(c.v4MappingCidr).value, MappingHop(c)))
  }

  /** The support network and the two servers. */
  ghost function ServerTarget(c: Config, node: Node, s: State): State
    requires Usable(c, node)
  {
    if c.mode != IPv6Only then s
    else
      var s1 := if IsServer(node) then s.(net := true) else s;
      var s2 := if node.isDNS64 then DNS64Target(c, s1) else s1;
      if node.isNAT64 then NAT64Target(c, s2) else s2
  }

  predicate Ready(node: Node, s: State) {
    IsCluster(node) ==> FilesReady(s.files)
  }

  /** What prepare is to achieve on a node from any state, but for the routes over a NAT64 host,
      which depend on the host met first. */
  ghost function Target(c: Config, node: Node, s: State): (t: State)
    requires Usable(c, node) && Ready(node, s)
  {
    var t := ServerTarget(c, node, s);
    if IsCluster(node) then SettingsTarget(c, node, t) else t
  }

  /** A state prepare may leave when it succeeds. */
  ghost predicate Prepared(c: Config, node: Node, s: State, t: State)
    requires Usable(c, node) && Ready(node, s)
  {
    var b := Target(c, node, s);
    t == b.(routes := t.routes) && Routed(c, node, b.routes, t.routes)
  }

  /** A state prepare may leave however it stops: what it can lead to, the old state could. */
  ghost predicate Reaches(c: Config, node: Node, a: State, b: State)
    requires Usable(c, node) && Ready(node, a)
  {
    && Ready(node, b)
    && (var x, y := Target(c, node, a), Target(c, node, b);
        y == x.(routes := y.routes) && Grown(c, node, x.routes, y.routes))
  }

  // ------------------------------------------------------------ what partial work keeps

  lemma HostsEditKeepsTarget(c: Config, node: Node, files: map<File, string>)
    requires Usable(c, node) && IsCluster(node) && FilesReady(files)
    ensures var f := files[HostMachine.HostsFile := HostsEdit.Updated(files[HostMachine.HostsFile], NodeInfos(c))];
            FilesReady(f) && FilesTarget(c, node, f) == FilesTarget(c, node, files)
  {
    hide Managed, HostsEdit.Updated, ResolvEdit.Updated, HostsEdit.IsStale, HostsEdit.SingleLine, DropInText,
      CalcNameServer, MgmtAddress, ParseAddress, HostsReadable;
    HostsEdit.UpdateKeepsManaged(files[HostMachine.HostsFile], NodeInfos(c));
  }

  lemma WrittenEarlier(files: map<File, string>, h: string, r: string)
    ensures files[HostMachine.ResolvConf := r][HostMachine.HostsFile := h][HostMachine.ResolvConf := r]
         == files[HostMachine.HostsFile := h][HostMachine.ResolvConf := r]
  {
  }

  lemma ResolvEditKeepsTarget(c: Config, node: Node, files: map<File, string>)
    requires Usable(c, node) && IsCluster(node) && FilesReady(files)
    ensures var f :=
            files[HostMachine.ResolvConf := ResolvEdit.Updated(files[HostMachine.ResolvConf], CalcNameServer(c, node))];
            FilesReady(f) && FilesTarget(c, node, f) == FilesTarget(c, node, files)
  {
    hide Managed, HostsEdit.Updated, ResolvEdit.Updated, HostsEdit.IsStale, HostsEdit.SingleLine, DropInText,
      CalcNameServer, MgmtAddress, ParseAddress, HostsReadable;
    ResolvEdit.UpdateKeepsManaged(files[HostMachine.ResolvConf], CalcNameServer(c, node));
    var r := ResolvEdit.Updated(files[HostMachine.ResolvConf], CalcNameServer(c, node));
    assert files[HostMachine.ResolvConf := r][HostMachine.HostsFile] == files[HostMachine.HostsFile];
    WrittenEarlier(files, HostsEdit.Updated(files[HostMachine.HostsFile], NodeInfos(c)), r);
  }

  /** Files that are only written, never read: whatever a failed write left there does not matter. */
  lemma WrittenFilesKeepTarget(c: Config, node: Node, files: map<File, string>, f: map<File, string>)
    requires Usable(c, node) && IsCluster(node) && FilesReady(files)
    requires f - {DropIn} == files - {DropIn} || (node.isMaster && f - {KubeAdmConf} == files - {KubeAdmConf})
    ensures FilesReady(f) && FilesTarget(c, node, f) == FilesTarget(c, node, files)
  {
    hide Managed, HostsEdit.Updated, ResolvEdit.Updated, HostsEdit.IsStale, HostsEdit.SingleLine, DropInText,
      CalcNameServer, MgmtAddress, ParseAddress, HostsReadable;
    SameElsewhere(files, f, if f - {DropIn} == files - {DropIn} then DropIn else KubeAdmConf);
  }

  lemma SameElsewhere(a: map<File, string>, b: map<File, string>, x: File)
    requires a - {x} == b - {x}
    ensures forall g: File | g != x :: (g in a <==> g in b) && (g in a ==> a[g] == b[g])
  {
    forall g: File | g != x ensures (g in a <==> g in b) && (g in a ==> a[g] == b[g]) {
      assert g in a <==> g in a - {x};
      assert g in b <==> g in b - {x};
      if g in a { assert (a - {x})[g] == a[g] && (b - {x})[g] == b[g]; }
    }
  }

  /** In dual-stack mode the second address is not there without the first. */
  ghost predicate InOrder(c: Config, node: Node, addrs: set<LinkAddr>)
    requires Usable(c, node) && IsCluster(node)
  {
    c.mode == DualStack ==> MgmtAddress(c, node, 0).value in addrs || MgmtAddress(c, node, 1).value !in addrs
  }

  /** Partial work of the cluster part: the servers are left alone, only wanted routes are
      added, and the rest of the target is still the same. */
  ghost predicate Stays(c: Config, node: Node, a: State, b: State)
    requires Usable(c, node) && IsCluster(node) && FilesReady(a.files)
  {
    && b.net == a.net && b.dns64 == a.dns64 && b.volume == a.volume && b.nat64 == a.nat64
    && Grown(c, node, a.routes, b.routes)
    && FilesReady(b.files)
    && SettingsTarget(c, node, b) == SettingsTarget(c, node, a).(routes := b.routes)
    && (InOrder(c, node, a.addrs) ==> InOrder(c, node, b.addrs))
  }

  lemma LinkStays(c: Config, node: Node, a: State, b: State)
    requires Usable(c, node) && IsCluster(node) && FilesReady(a.files)
    requires b == a.(addrs := b.addrs, mtus := b.mtus)
    requires a.addrs <= b.addrs <= a.addrs + MgmtAddrs(c, node)
    requires InOrder(c, node, a.addrs) ==> InOrder(c, node, b.addrs)
    requires b.mtus == a.mtus || b.mtus == a.mtus[node.link := c.podMTU]
    ensures Stays(c, node, a, b)
  {
    hide Usable, FilesReady, FilesTarget, MgmtAddrs, IsGateway, Wanted, InOrder;
    assert b.addrs + MgmtAddrs(c, node) == a.addrs + MgmtAddrs(c, node);
    assert b.mtus[node.link := c.podMTU] == a.mtus[node.link := c.podMTU];
  }

  lemma FilesStay(c: Config, node: Node, a: State, b: State)
    requires Usable(c, node) && IsCluster(node) && FilesReady(a.files) && FilesReady(b.files)
    requires b == a.(files := b.files) && FilesTarget(c, node, b.files) == FilesTarget(c, node, a.files)
    ensures Stays(c, node, a, b)
  {
    hide Usable, FilesReady, FilesTarget, MgmtAddrs, IsGateway, Wanted, InOrder;
  }

  lemma RoutesStay(c: Config, node: Node, a: State, b: State)
    requires Usable(c, node) && IsCluster(node) && FilesReady(a.files)
    requires b == a.(routes := b.routes) && Grown(c, node, a.routes, b.routes)
    ensures Stays(c, node, a, b)
  {
    hide Usable, FilesReady, FilesTarget, MgmtAddrs, Grown, InOrder;
  }

  lemma StaysTransitive(c: Config, node: Node, x: State, y: State, z: State)
    requires Usable(c, node) && IsCluster(node) && FilesReady(x.files) && FilesReady(y.files)
    requires Stays(c, node, x, y) && Stays(c, node, y, z)
    ensures Stays(c, node, x, z)
  {
    hide Usable, FilesReady, FilesTarget, MgmtAddrs, IsGateway, Wanted, InOrder;
  }

  lemma AddedIsGrown(c: Config, node: Node, a: map<Block, Hop>, d: Block, g: Hop)
    requires Usable(c, node) && d in Wanted(c, node) && IsGateway(c, node, g)
    ensures Grown(c, node, a, AddIfAbsent(a, d, g)) && d in AddIfAbsent(a, d, g)
  {
    hide Usable, Wanted, IsGateway;
  }

  lemma GrownTransitive(c: Config, node: Node, x: map<Block, Hop>, y: map<Block, Hop>, z: map<Block, Hop>)
    requires Usable(c, node) && Grown(c, node, x, y) && Grown(c, node, y, z)
    ensures Grown(c, node, x, z)
  {
    hide Usable, Wanted, IsGateway;
  }

  /** After the servers' part, and with no route lost since, it finds nothing to do. */
  lemma ServersDone(c: Config, node: Node, s: State, b: State)
    requires Usable(c, node)
    requires var t := ServerTarget(c, node, s);
             && b.net == t.net && b.dns64 == t.dns64 && b.volume == t.volume && b.nat64 == t.nat64
             && forall d <- t.routes :: d in b.routes && b.routes[d] == t.routes[d]
    ensures ServerTarget(c, node, b) == b
  {
    hide HostsEdit.SingleLine, HostsEdit.IsStale, MgmtAddress, HostsReadable, ParseAddress, CalcNameServer;
  }

  /** A cluster part that stays within its limits, after the servers' part is done. */
  lemma StaysReaches(c: Config, node: Node, s: State, b: State)
    requires Usable(c, node) && Ready(node, s) && IsCluster(node)
    requires Stays(c, node, ServerTarget(c, node, s), b)
    ensures Reaches(c, node, s, b)
  {
    hide Usable, FilesReady, FilesTarget, MgmtAddrs, IsGateway, Wanted, InOrder, ServerTarget;
    ServersDone(c, node, s, b);
  }

  lemma ReachesTransitive(c: Config, node: Node, x: State, y: State, z: State)
    requires Usable(c, node) && Ready(node, x) && Reaches(c, node, x, y) && Reaches(c, node, y, z)
    ensures Reaches(c, node, x, z)
  {
    hide Usable, FilesReady, Target, IsGateway, Wanted;
  }

  lemma ReachesPrepared(c: Config, node: Node, x: State, y: State, z: State)
    requires Usable(c, node) && Ready(node, x) && Reaches(c, node, x, y) && Prepared(c, node, y, z)
    ensures Prepared(c, node, x, z)
  {
    hide Usable, FilesReady, Target, IsGateway, Wanted, HasGateway;
  }

  /** Preparing a prepared state changes nothing, whichever hosts are met this time. */
  lemma PreparedIsStable(c: Config, node: Node, s: State, t: State)
    requires Usable(c, node) && Ready(node, s) && Prepared(c, node, s, t)
    ensures Reaches(c, node, s, t) && Target(c, node, t) == t
    ensures forall u: State :: Prepared(c, node, t, u) ==> u == t
  {
    PreparedTarget(c, node, s, t);
    hide Usable, FilesReady, Target, IsGateway, Wanted, HasGateway;
    forall u: State | Prepared(c, node, t, u) ensures u == t {
      assert u.routes == t.routes;
    }
  }

  lemma PreparedTarget(c: Config, node: Node, s: State, t: State)
    requires Usable(c, node) && Ready(node, s) && Prepared(c, node, s, t)
    ensures Ready(node, t) && Target(c, node, t) == t
  {
    hide Usable, Managed, MgmtAddress, FilesTarget, FilesReady, MgmtAddrs, IsGateway, Wanted, HasGateway,
      ServerTarget;
    var x := ServerTarget(c, node, s);
    ServerTargetFiles(c, node, s);
    if IsCluster(node) { SettingsAreStable(c, node, x, t.routes); }
    ServersDone(c, node, s, t);
  }

  lemma ServerTargetFiles(c: Config, node: Node, s: State)
    requires Usable(c, node)
    ensures ServerTarget(c, node, s).files == s.files
    ensures ServerTarget(c, node, s).addrs == s.addrs && ServerTarget(c, node, s).mtus == s.mtus
  {
    hide HostsEdit.SingleLine, HostsEdit.IsStale, MgmtAddress, HostsReadable, ParseAddress, CalcNameServer;
  }

  lemma SettingsAreStable(c: Config, node: Node, s: State, routes: map<Block, Hop>)
    requires Usable(c, node) && IsCluster(node) && FilesReady(s.files)
    ensures var t := SettingsTarget(c, node, s).(routes := routes);
            FilesReady(t.files) && SettingsTarget(c, node, t) == t
  {
    hide Usable, FilesTarget, FilesReady, MgmtAddrs;
    FilesTargetIsStable(c, node, s.files);
    var t := SettingsTarget(c, node, s);
    assert t.addrs + MgmtAddrs(c, node) == t.addrs;
    assert t.mtus[node.link := c.podMTU] == t.mtus;
  }

  lemma FilesTargetIsStable(c: Config, node: Node, files: map<File, string>)
    requires Usable(c, node) && IsCluster(node) && FilesReady(files)
    ensures FilesReady(FilesTarget(c, node, files))
    ensures FilesTarget(c, node, FilesTarget(c, node, files)) == FilesTarget(c, node, files)
  {
    hide Managed, HostsEdit.Updated, ResolvEdit.Updated, HostsEdit.IsStale, HostsEdit.SingleLine, DropInText,
      CalcNameServer, MgmtAddress, ParseAddress, HostsReadable;
    HostsEdit.UpdateKeepsManaged(files[HostMachine.HostsFile], NodeInfos(c));
    ResolvEdit.UpdateKeepsManaged(files[HostMachine.ResolvConf], CalcNameServer(c, node));
    WriteTwice(files, HostsEdit.Updated(files[HostMachine.HostsFile], NodeInfos(c)),
               ResolvEdit.Updated(files[HostMachine.ResolvConf], CalcNameServer(c, node)), DropInText(c),
               c.kubeadmConf);
  }

  lemma WriteTwice(files: map<File, string>, h: string, r: string, d: string, k: string)
    ensures var t := files[HostMachine.HostsFile := h][HostMachine.ResolvConf := r][DropIn := d];
            && t[HostMachine.HostsFile] == h && t[HostMachine.ResolvConf] == r
            && t[HostMachine.HostsFile := h][HostMachine.ResolvConf := r][DropIn := d] == t
            && t[KubeAdmConf := k][HostMachine.HostsFile] == h && t[KubeAdmConf := k][HostMachine.ResolvConf] == r
            && t[KubeAdmConf := k][HostMachine.HostsFile := h][HostMachine.ResolvConf := r][DropIn := d]
                [KubeAdmConf := k] == t[KubeAdmConf := k]
  {
  }

  // ------------------------------------------------------------ which host

  /** No two hops are in question. */
  ghost predicate FewGateways(c: Config, node: Node)
    requires Usable(c, node)
  {
    RoutesServers(c, node) ==> forall g, h | IsGateway(c, node, g) && IsGateway(c, node, h) :: g == h
  }

  lemma OneHostFewGateways(c: Config, node: Node)
    requires Usable(c, node) && (OneNAT64(c) || node.isNAT64 || !RoutesServers(c, node) || !HasGateway(c, node))
    ensures FewGateways(c, node)
  {
    hide ParseAddress, HostIPOf, HostsEdit.SingleLine, HostsEdit.IsStale, MgmtAddress, CalcNameServer;
  }

  /** Then there is one state prepare can leave. */
  lemma PreparedIsUnique(c: Config, node: Node, s: State, t: State, u: State)
    requires Usable(c, node) && Ready(node, s) && FewGateways(c, node)
    requires Prepared(c, node, s, t) && Prepared(c, node, s, u)
    ensures t == u
  {
    hide Usable, FilesReady, Target, IsGateway, HasGateway, Wanted;
    WantedOnRouting(c, node);
    forall d: Block ensures (d in t.routes <==> d in u.routes) && (d in t.routes ==> t.routes[d] == u.routes[d]) {
    }
  }

  lemma WantedOnRouting(c: Config, node: Node)
    requires Usable(c, node)
    ensures Wanted(c, node) == {} || RoutesServers(c, node)
  {
    hide Usable;
  }

  lemma RoutesByAreRouted(c: Config, node: Node, routes: map<Block, Hop>, o1: seq<string>, o2: seq<string>)
    requires Usable(c, node) && RoutesServers(c, node) && IsOrder(c, o1) && IsOrder(c, o2)
    ensures RoutesBy(c, node, routes, o1, o2).Some? ==> Routed(c, node, routes, RoutesBy(c, node, routes, o1, o2).value)
  {
    GatewaysAreFound(c, node, o1);
    GatewaysAreFound(c, node, o2);
    hide GatewayBy, Distinct, ParseAddress, HostsEdit.SingleLine, HostsEdit.IsStale, MgmtAddress, CalcNameServer,
      HostsReadable, IsGateway, Grown, AddIfAbsent, BlockOf;
    if GatewayBy(c, node, o1).Some? {
      var d, g1 := BlockOf(c.dns64Cidr).value, GatewayBy(c, node, o1).value;
      var first := AddIfAbsent(routes, d, g1);
      AddedIsGrown(c, node, routes, d, g1);
      if !IsServer(node) && GatewayBy(c, node, o2).Some? {
        var e, g2 := BlockOf(c.supportCidr).value, GatewayBy(c, node, o2).value;
        AddedIsGrown(c, node, first, e, g2);
        GrownTransitive(c, node, routes, first, AddIfAbsent(first, e, g2));
        NoRouteLost(c, node, first, AddIfAbsent(first, e, g2), d);
      }
      SomeHost(c, node, g1);
    }
  }

  lemma NoRouteLost(c: Config, node: Node, a: map<Block, Hop>, b: map<Block, Hop>, d: Block)
    requires Usable(c, node) && Grown(c, node, a, b) && d in a
    ensures d in b
  {
    hide Usable, IsGateway, Wanted;
  }

  lemma SomeHost(c: Config, node: Node, g: Hop)
    requires |c.mgmtInfo| == 2 && IsGateway(c, node, g)
    ensures HasGateway(c, node)
  {
    hide ParseAddress;
  }

  /** Without a host there is no result, however the topology is walked. */
  lemma NoGatewayNoResult(c: Config, node: Node, routes: map<Block, Hop>, o1: seq<string>, o2: seq<string>)
    requires Usable(c, node) && RoutesServers(c, node) && !HasGateway(c, node) && IsOrder(c, o1) && IsOrder(c, o2)
    ensures RoutesBy(c, node, routes, o1, o2) == None
  {
    FoundIsHost(c, o1);
    hide ParseAddress, HostIPOf, HostsEdit.SingleLine, HostsEdit.IsStale, MgmtAddress, CalcNameServer, HostsReadable;
  }

  /** Every pair of walks gives these routes. */
  ghost predicate AlwaysGives(c: Config, node: Node, routes: map<Block, Hop>, result: map<Block, Hop>)
    requires |c.mgmtInfo| == 2 && RoutesServers(c, node) && c.dns64Cidr.Net? && c.supportCidr.Net?
  {
    forall o1, o2 | IsOrder(c, o1) && IsOrder(c, o2) :: RoutesBy(c, node, routes, o1, o2) == Some(result)
  }

  /** On a node without the server: all orders of the topology give one and the same successful
      result if and only if there is exactly one NAT64 host. */
  lemma OneResultExactlyWhenOneHost(c: Config, node: Node, routes: map<Block, Hop>)
    requires Usable(c, node) && RoutesServers(c, node) && !node.isNAT64 && HostsApart(c)
    requires BlockOf(c.dns64Cidr).value !in routes
    ensures (exists result :: AlwaysGives(c, node, routes, result)) <==> OneNAT64(c)
  {
    OneGatewayExactlyWhenOneHost(c, node);
    hide GatewayBy, Distinct, ParseAddress, HostsEdit.SingleLine, HostsEdit.IsStale, MgmtAddress, CalcNameServer,
      HostsReadable, HostsApart, OneNAT64;
    var any := Enumerate(c.topology.Keys);
    assert IsOrder(c, any);
    if result :| AlwaysGives(c, node, routes, result) {
      GivesVia(c, node, routes, result, any);
    }
    if g :| AlwaysVia(c, node, g) {
      assert GatewayBy(c, node, any) == Some(g);
      var result := RoutesBy(c, node, routes, any, any).value;
      assert AlwaysGives(c, node, routes, result);
    }
  }

  lemma GivesVia(c: Config, node: Node, routes: map<Block, Hop>, result: map<Block, Hop>, any: seq<string>)
    requires Usable(c, node) && RoutesServers(c, node) && IsOrder(c, any)
    requires AlwaysGives(c, node, routes, result) && BlockOf(c.dns64Cidr).value !in routes
    ensures BlockOf(c.dns64Cidr).value in result && AlwaysVia(c, node, result[BlockOf(c.dns64Cidr).value])
  {
    hide GatewayBy, Distinct, ParseAddress, HostsEdit.SingleLine, HostsEdit.IsStale, MgmtAddress, CalcNameServer,
      HostsReadable;
    assert RoutesBy(c, node, routes, any, any) == Some(result);
    forall o | IsOrder(c, o) ensures GatewayBy(c, node, o) == Some(result[BlockOf(c.dns64Cidr).value]) {
      assert RoutesBy(c, node, routes, o, any) == Some(result);
    }
  }
}
