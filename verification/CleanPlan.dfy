/** What "clean" is to remove from a node, without regard to the order of its steps
    (cleanup.go). */
module CleanPlan {
  import opened Wrappers
  import opened Text
  import opened Tags
  import opened AddressText
  import opened NodeAddresses
  import opened Configs
  import opened HostMachine
  import opened NodePlan
  import opened Gateways
  import HostsEdit = HostsFile

  /** The removals, one for each resource; the run collects those that went wrong. */
  datatype Removal =
    | DropInFile | MgmtIP | HostsTags | ResolvTags | DNS64Route | SupportRoute
    | DNS64Container | DNS64Config | MappingRoute | NAT64Container | SupportNetwork

  const SETTINGS := {DropInFile, MgmtIP, HostsTags, ResolvTags}
  const ROUTES := {DNS64Route, SupportRoute}
  const DNS_PART := {DNS64Container, DNS64Config}
  const NAT_PART := {MappingRoute, NAT64Container}
  const SERVERS := DNS_PART + NAT_PART + {SupportNetwork}

  predicate ServesIPv6(c: Config, node: Node) { c.mode == IPv6Only && IsServer(node) }

  /** The removals that concern a node. */
  predicate Concerns(c: Config, node: Node, r: Removal) {
    match r
    case DropInFile => IsCluster(node)
    case MgmtIP => IsCluster(node)
    case HostsTags => IsCluster(node)
    case ResolvTags => IsCluster(node)
    case DNS64Route => IsCluster(node) && c.mode == IPv6Only
    case SupportRoute => IsCluster(node) && c.mode == IPv6Only && !IsServer(node)
    case DNS64Container => c.mode == IPv6Only && node.isDNS64
    case DNS64Config => c.mode == IPv6Only && node.isDNS64
    case MappingRoute => c.mode == IPv6Only && node.isNAT64
    case NAT64Container => c.mode == IPv6Only && node.isNAT64
    case SupportNetwork => ServesIPv6(c, node)
  }

  /** There is a route to the destination over a hop some walk leads to. */
  ghost predicate RoutedOver(c: Config, node: Node, routes: map<Block, Hop>, dest: Block)
    requires |c.mgmtInfo| == 2
  {
    dest in routes && IsGateway(c, node, routes[dest])
  }

  /** The resource of a removal is (wholly) there. Tags can always be looked for. */
  ghost predicate Found(c: Config, node: Node, r: Removal, s: State)
    requires Usable(c, node) && Concerns(c, node, r)
  {
    match r
    case DropInFile => DropIn in s.files
    case MgmtIP => MgmtAddrs(c, node) <= s.addrs
    case HostsTags => true
    case ResolvTags => true
    case DNS64Route => RoutedOver(c, node, s.routes, BlockOf(c.dns64Cidr).value)
    case SupportRoute => RoutedOver(c, node, s.routes, BlockOf(c.supportCidr).value)
    case DNS64Container => s.dns64 != Absent
    case DNS64Config => s.volume != NoVolume
    case MappingRoute => HasRoute(s, BlockOf(c.v4MappingCidr).value, MappingHop(c))
    case NAT64Container => s.nat64 != Absent
    case SupportNetwork => s.net
  }

  /** Nothing of it is left. */
  ghost predicate Gone(c: Config, node: Node, r: Removal, s: State)
    requires Usable(c, node) && Concerns(c, node, r)
  {
    match r
    case DropInFile => DropIn !in s.files
    case MgmtIP => MgmtAddrs(c, node) !! s.addrs
    case HostsTags => IsClean(HostMachine.HostsFile, s.files)
    case ResolvTags => IsClean(HostMachine.ResolvConf, s.files)
    case DNS64Route => !Found(c, node, r, s)
    case SupportRoute => !Found(c, node, r, s)
    case DNS64Container => s.dns64 == Absent
    case DNS64Config => s.volume == NoVolume
    case MappingRoute => !Found(c, node, r, s)
    case NAT64Container => s.nat64 == Absent
    case SupportNetwork => !s.net
  }

  /** The file is there and shows no tag. */
  predicate IsClean(f: File, files: map<File, string>) {
    f in files && Untagged(Lines(files[f]))
  }

  /** Nothing but one file differs. */
  predicate DifferAt(f: File, a: map<File, string>, b: map<File, string>) {
    forall g: File | g != f :: (g in a <==> g in b) && (g in a ==> a[g] == b[g])
  }

  function BothReverted(files: map<File, string>): map<File, string>
    requires HostMachine.HostsFile in files && HostMachine.ResolvConf in files
  {
    files[HostMachine.HostsFile := Reverted(files[HostMachine.HostsFile])]
         [HostMachine.ResolvConf := Reverted(files[HostMachine.ResolvConf])]
  }

  function FilesClean(files: map<File, string>): map<File, string>
    requires FilesReady(files)
  {
    BothReverted(files - {DropIn})
  }

  /** In dual-stack mode nothing is removed when the first address is not there. */
  ghost function AddrsClean(c: Config, node: Node, addrs: set<LinkAddr>): set<LinkAddr>
    requires Usable(c, node) && IsCluster(node)
  {
    if MgmtAddress(c, node, 0).value in addrs then addrs - MgmtAddrs(c, node) else addrs
  }

  /** A route that clean takes away: its own ones, and with the network all over its bridge. */
  ghost predicate Doomed(c: Config, node: Node, dest: Block, hop: Hop)
    requires Usable(c, node)
  {
    || (dest in Wanted(c, node) && IsGateway(c, node, hop))
    || (Concerns(c, node, MappingRoute) && dest == BlockOf(c.v4MappingCidr).value && hop == MappingHop(c))
    || (ServesIPv6(c, node) && hop.link == Support)
  }

  ghost function RoutesClean(c: Config, node: Node, routes: map<Block, Hop>): map<Block, Hop>
    requires Usable(c, node)
  {
    map b | b in routes && !Doomed(c, node, b, routes[b]) :: routes[b]
  }

  /** The routes to be deleted one by one on this node have different destinations. */
  predicate RoutesApart(c: Config, node: Node) {
    && (Concerns(c, node, SupportRoute) ==> c.dns64Cidr != c.supportCidr)
    && (Concerns(c, node, DNS64Route) && Concerns(c, node, MappingRoute) ==> c.dns64Cidr != c.v4MappingCidr)
  }

  /** Routes without the one to a network, if that one goes over the given hop. */
  function WithoutRoute(routes: map<Block, Hop>, dest: Block, hop: Hop): map<Block, Hop> {
    if dest in routes && routes[dest] == hop then routes - {dest} else routes
  }

  /** What a removal leaves that looks for the route over the host met in this order. */
  function RemovedBy(c: Config, node: Node, routes: map<Block, Hop>, dest: Block, order: seq<string>): map<Block, Hop>
    requires |c.mgmtInfo| == 2 && forall n <- order :: n in c.topology
  {
    match GatewayBy(c, node, order)
    case None => routes
    case Some(g) => WithoutRoute(routes, dest, g)
  }

  /** What the route removals of a cluster node leave, for two walks. */
  function RoutesCleanBy(c: Config, node: Node, routes: map<Block, Hop>, o1: seq<string>,
                         o2: seq<string>): map<Block, Hop>
    requires |c.mgmtInfo| == 2 && c.dns64Cidr.Net? && c.supportCidr.Net?
    requires (forall n <- o1 :: n in c.topology) && forall n <- o2 :: n in c.topology
  {
    var first := RemovedBy(c, node, routes, BlockOf(c.dns64Cidr).value, o1);
    if IsServer(node) then first else RemovedBy(c, node, first, BlockOf(c.supportCidr).value, o2)
  }

  /** Routes without the one to a network, if that one goes over a hop some walk leads to. */
  ghost function WithoutOwn(c: Config, node: Node, routes: map<Block, Hop>, dest: Block): map<Block, Hop>
    requires |c.mgmtInfo| == 2
  {
    if RoutedOver(c, node, routes, dest) then routes - {dest} else routes
  }

  /** A cluster node's own routes, taken away one after the other. */
  ghost function ClusterRoutesClean(c: Config, node: Node, routes: map<Block, Hop>): map<Block, Hop>
    requires Usable(c, node) && IsCluster(node)
  {
    if c.mode != IPv6Only then routes
    else
      var first := WithoutOwn(c, node, routes, BlockOf(c.dns64Cidr).value);
      if IsServer(node) then first else WithoutOwn(c, node, first, BlockOf(c.supportCidr).value)
  }

  /** What the cluster part leaves when no call fails. */
  ghost function ClusterClean(c: Config, node: Node, s: State): State
    requires Usable(c, node) && IsCluster(node) && FilesReady(s.files)
  {
    s.(addrs := AddrsClean(c, node, s.addrs),
       routes := ClusterRoutesClean(c, node, s.routes),
       files := FilesClean(s.files))
  }

  /** What the servers' part leaves then; the route to the NAT64 pool goes with the bridge. */
  function ServersClean(c: Config, node: Node, s: State): State {
    if ServesIPv6(c, node) then WithoutNetwork(s).(dns64 := Absent, volume := NoVolume, nat64 := Absent) else s
  }

  /** The state clean leaves when no call fails. */
  ghost function CleanTarget(c: Config, node: Node, s: State): State
    requires Usable(c, node) && Ready(node, s)
  {
    var dns := c.mode == IPv6Only && node.isDNS64;
    s.(net := if ServesIPv6(c, node) then false else s.net,
       dns64 := if dns then Absent else s.dns64,
       volume := if dns then NoVolume else s.volume,
       nat64 := if c.mode == IPv6Only && node.isNAT64 then Absent else s.nat64,
       addrs := if IsCluster(node) then AddrsClean(c, node, s.addrs) else s.addrs,
       routes := RoutesClean(c, node, s.routes),
       files := if IsCluster(node) then FilesClean(s.files) else s.files)
  }

  /** Some of what clean removes is gone, nothing else happened; files aside. */
  ghost predicate ShrinksOffFiles(c: Config, node: Node, a: State, b: State)
    requires Usable(c, node)
  {
    && (b.net == a.net || (ServesIPv6(c, node) && !b.net))
    && (b.dns64 == a.dns64 || (Concerns(c, node, DNS64Container) && b.dns64 == Absent))
    && (b.volume == a.volume || (Concerns(c, node, DNS64Config) && b.volume == NoVolume))
    && (b.nat64 == a.nat64 || (Concerns(c, node, NAT64Container) && b.nat64 == Absent))
    && b.mtus == a.mtus
    && AddrsShrink(c, node, a.addrs, b.addrs)
    && RoutesShrink(c, node, a.routes, b.routes)
  }

  ghost predicate AddrsShrink(c: Config, node: Node, a: set<LinkAddr>, b: set<LinkAddr>)
    requires Usable(c, node)
  {
    b <= a && forall x <- a :: x in b || (IsCluster(node) && x in MgmtAddrs(c, node))
  }

  ghost predicate RoutesShrink(c: Config, node: Node, a: map<Block, Hop>, b: map<Block, Hop>)
    requires Usable(c, node)
  {
    && (forall d <- b :: d in a && a[d] == b[d])
    && (forall d <- a :: d in b || Doomed(c, node, d, a[d]))
  }

  /** What is not reported is gone. */
  ghost predicate RestGone(c: Config, node: Node, part: set<Removal>, all: seq<Removal>, s: State)
    requires Usable(c, node)
  {
    forall r <- part | Concerns(c, node, r) && r !in all :: Gone(c, node, r, s)
  }

  /** What is reported is exactly what was not there. */
  ghost predicate ReportsMissing(c: Config, node: Node, part: set<Removal>, all: seq<Removal>, s: State)
    requires Usable(c, node)
  {
    forall r <- part | Concerns(c, node, r) :: r in all <==> !Found(c, node, r, s)
  }

  /** Only removals of the part that concern the node are reported. */
  predicate ReportsOnly(c: Config, node: Node, part: set<Removal>, all: seq<Removal>) {
    forall r <- all :: r in part && Concerns(c, node, r)
  }

  /** Two parts, reported on one after the other. */
  lemma ReportsJoin(c: Config, node: Node, p: set<Removal>, q: set<Removal>, a: seq<Removal>, b: seq<Removal>,
                    start: State, end: State)
    requires Usable(c, node) && p !! q && ReportsOnly(c, node, p, a) && ReportsOnly(c, node, q, b)
    ensures ReportsOnly(c, node, p + q, a + b)
    ensures RestGone(c, node, p, a, end) && RestGone(c, node, q, b, end) ==> RestGone(c, node, p + q, a + b, end)
    ensures ReportsMissing(c, node, p, a, start) && ReportsMissing(c, node, q, b, start) ==>
              ReportsMissing(c, node, p + q, a + b, start)
  {
    hide Usable, Found, Gone;
  }

  /** Each edited file is as it was or reverted, the drop-in file as it was or gone. */
  predicate FilesShrink(node: Node, a: map<File, string>, b: map<File, string>)
    requires IsCluster(node) ==> FilesReady(a)
  {
    if !IsCluster(node) then b == a
    else
      && EditReverts(HostMachine.HostsFile, a, b) && EditReverts(HostMachine.ResolvConf, a, b)
      && (DropIn in b ==> DropIn in a && b[DropIn] == a[DropIn])
      && (if KubeAdmConf in a then KubeAdmConf in b && b[KubeAdmConf] == a[KubeAdmConf] else KubeAdmConf !in b)
  }

  predicate EditReverts(f: File, a: map<File, string>, b: map<File, string>)
    requires f in a
  {
    f in b && (b[f] == a[f] || b[f] == Reverted(a[f]))
  }

  ghost predicate Shrinks(c: Config, node: Node, a: State, b: State)
    requires Usable(c, node) && Ready(node, a)
  {
    ShrinksOffFiles(c, node, a, b) && FilesShrink(node, a.files, b.files)
  }

  lemma FilesShrinkIsReady(a: map<File, string>, b: map<File, string>, node: Node)
    requires IsCluster(node) && FilesReady(a) && FilesShrink(node, a, b)
    ensures FilesReady(b) && FilesClean(b) == FilesClean(a)
  {
    hide Managed, Reverted;
    RevertManaged(a[HostMachine.HostsFile]);
    RevertManaged(a[HostMachine.ResolvConf]);
    var x, y := FilesClean(a), FilesClean(b);
    forall f: File ensures (f in x <==> f in y) && (f in x ==> x[f] == y[f]) {
      match f
      case HostsFile =>
      case ResolvConf =>
      case DropIn =>
      case KubeAdmConf =>
    }
  }

  lemma ShrinksOffFilesTransitive(c: Config, node: Node, x: State, y: State, z: State)
    requires Usable(c, node)
    requires ShrinksOffFiles(c, node, x, y) && ShrinksOffFiles(c, node, y, z)
    ensures ShrinksOffFiles(c, node, x, z)
  {
    hide Usable, Doomed, MgmtAddrs;
  }

  /** Removing one resource does not bring another one back. */
  lemma GoneStays(c: Config, node: Node, part: set<Removal>, all: seq<Removal>, a: State, b: State)
    requires Usable(c, node) && ShrinksOffFiles(c, node, a, b)
    requires b.files == a.files || (IsCluster(node) && FilesReady(a.files) && FilesShrink(node, a.files, b.files))
    requires RestGone(c, node, part, all, a)
    ensures RestGone(c, node, part, all, b)
  {
    hide Usable, Doomed, MgmtAddrs, Managed, Reverted, Untagged, Lines;
    if b.files != a.files {
      RevertedIsUntagged(a.files[HostMachine.HostsFile]);
      RevertedIsUntagged(a.files[HostMachine.ResolvConf]);
    }
  }

  lemma ShrinksIsReady(c: Config, node: Node, a: State, b: State)
    requires Usable(c, node) && Ready(node, a) && Shrinks(c, node, a, b)
    ensures Ready(node, b) && (IsCluster(node) ==> FilesClean(b.files) == FilesClean(a.files))
  {
    hide Usable, FilesReady, FilesClean, FilesShrink, Doomed, MgmtAddrs;
    if IsCluster(node) { FilesShrinkIsReady(a.files, b.files, node); }
  }

  lemma RoutesShrinkSameTarget(c: Config, node: Node, a: map<Block, Hop>, b: map<Block, Hop>)
    requires Usable(c, node) && RoutesShrink(c, node, a, b)
    ensures RoutesClean(c, node, b) == RoutesClean(c, node, a)
  {
    hide Usable, Doomed;
  }

  /** A partial clean leaves the same to be reached, apart from the addresses; those too, where
      they are in order before and after, as they always are outside dual-stack mode. */
  lemma ShrinksSameTarget(c: Config, node: Node, a: State, b: State)
    requires Usable(c, node) && Ready(node, a) && Ready(node, b) && Shrinks(c, node, a, b)
    ensures CleanTarget(c, node, b) == CleanTarget(c, node, a).(addrs := CleanTarget(c, node, b).addrs)
    ensures (IsCluster(node) ==> InOrder(c, node, a.addrs) && InOrder(c, node, b.addrs)) ==>
              CleanTarget(c, node, b) == CleanTarget(c, node, a)
  {
    hide Usable, FilesReady, FilesClean, EditReverts, RoutesClean, RoutesShrink, MgmtAddrs, AddrsClean, InOrder;
    RoutesShrinkSameTarget(c, node, a.routes, b.routes);
    ShrinksIsReady(c, node, a, b);
    if IsCluster(node) {
      AddrsCleanExactly(c, node, a.addrs);
      AddrsCleanExactly(c, node, b.addrs);
      assert a.addrs - MgmtAddrs(c, node) == b.addrs - MgmtAddrs(c, node);
    }
  }

  /** Both addresses go exactly if they are in order. */
  lemma AddrsCleanExactly(c: Config, node: Node, addrs: set<LinkAddr>)
    requires Usable(c, node) && IsCluster(node)
    ensures AddrsClean(c, node, addrs) == addrs - MgmtAddrs(c, node) <==> InOrder(c, node, addrs)
  {
    hide HostsEdit.SingleLine, HostsEdit.IsStale, MgmtAddress, HostsReadable, ParseAddress, CalcNameServer;
    var x := MgmtAddress(c, node, 0).value;
    if c.mode != DualStack {
      assert MgmtAddrs(c, node) == {x};
      if x !in addrs { assert addrs - {x} == addrs; }
    } else {
      var y := MgmtAddress(c, node, 1).value;
      assert MgmtAddrs(c, node) == {x, y};
      if x !in addrs && y !in addrs { assert addrs - {x, y} == addrs; }
      if x !in addrs && y in addrs { assert y in addrs && y !in addrs - {x, y}; }
    }
  }

  /** A partial clean can get to where they are not: with both addresses there, one that stops
      after taking the first leaves the second behind. */
  lemma PartialCleanBreaksOrder(c: Config, node: Node, a: State)
    requires Usable(c, node) && Ready(node, a) && IsCluster(node) && c.mode == DualStack
    requires MgmtAddrs(c, node) <= a.addrs
    ensures InOrder(c, node, a.addrs)
    ensures var b := a.(addrs := a.addrs - {MgmtAddress(c, node, 0).value});
            Shrinks(c, node, a, b) && !InOrder(c, node, b.addrs)
  {
    hide HostsEdit.SingleLine, HostsEdit.IsStale, MgmtAddress, HostsReadable, ParseAddress, CalcNameServer, Managed,
      Reverted, Doomed;
    var first, second := MgmtAddress(c, node, 0).value, MgmtAddress(c, node, 1).value;
    assert first in MgmtAddrs(c, node) && second in MgmtAddrs(c, node) && first != second;
  }

  /** The two parts, one after the other, give the target. */
  lemma PartsGiveTarget(c: Config, node: Node, s: State)
    requires Usable(c, node) && Ready(node, s)
    ensures CleanTarget(c, node, s) == ServersClean(c, node, if IsCluster(node) then ClusterClean(c, node, s) else s)
  {
    hide HostsEdit.SingleLine, HostsEdit.IsStale, MgmtAddress, HostsReadable, ParseAddress, CalcNameServer,
      FilesReady, FilesClean, AddrsClean;
    var t, u := CleanTarget(c, node, s).routes,
      ServersClean(c, node, if IsCluster(node) then ClusterClean(c, node, s) else s).routes;
    forall d: Block ensures (d in t <==> d in u) && (d in t ==> t[d] == u[d]) {
    }
  }

  lemma RemovedByIs(c: Config, node: Node, routes: map<Block, Hop>, dest: Block, order: seq<string>)
    requires Usable(c, node) && RoutesServers(c, node) && IsOrder(c, order)
    ensures RemovedBy(c, node, routes, dest, order) == routes
            || (RoutedOver(c, node, routes, dest) && RemovedBy(c, node, routes, dest, order) == routes - {dest})
    ensures FewGateways(c, node) ==> RemovedBy(c, node, routes, dest, order) == WithoutOwn(c, node, routes, dest)
  {
    GatewaysAreFound(c, node, order);
    hide Usable, GatewayBy, Distinct;
    if IsGatewayless(c, node, order) && RoutedOver(c, node, routes, dest) {
      NoWalkNoGateway(c, node, order, routes[dest]);
    }
    hide IsGateway;
  }

  ghost predicate IsGatewayless(c: Config, node: Node, order: seq<string>)
    requires |c.mgmtInfo| == 2 && IsOrder(c, order)
  {
    GatewayBy(c, node, order) == None
  }

  lemma NoWalkNoGateway(c: Config, node: Node, order: seq<string>, g: Hop)
    requires |c.mgmtInfo| == 2 && IsOrder(c, order) && HostsReadable(c)
               && (node.isNAT64 ==> ParseAddress(c.nat64ServerIP).Some?)
    requires GatewayBy(c, node, order) == None
    ensures !IsGateway(c, node, g)
  {
    hide ParseAddress, HostIPOf;
    FoundIsHost(c, order);
  }

  /** A walk of the topology finds the route, whatever the order. */
  ghost predicate AlwaysRemoved(c: Config, node: Node, routes: map<Block, Hop>, dest: Block)
    requires |c.mgmtInfo| == 2
  {
    forall o | IsOrder(c, o) :: dest !in RemovedBy(c, node, routes, dest, o)
  }

  lemma RemovedExactlyVia(c: Config, node: Node, routes: map<Block, Hop>, dest: Block, o: seq<string>)
    requires |c.mgmtInfo| == 2 && IsOrder(c, o) && dest in routes
    ensures dest !in RemovedBy(c, node, routes, dest, o) <==> GatewayBy(c, node, o) == Some(routes[dest])
  {
    hide GatewayBy, Distinct;
  }

  /** On a node without the server a route prepare added is removed in every order of the
      topology if and only if there is exactly one NAT64 host. */
  lemma RemovalExactlyWhenOneHost(c: Config, node: Node, routes: map<Block, Hop>, dest: Block)
    requires |c.mgmtInfo| == 2 && !node.isNAT64 && HostsApart(c) && RoutedOver(c, node, routes, dest)
    ensures AlwaysRemoved(c, node, routes, dest) <==> OneNAT64(c)
  {
    OneGatewayExactlyWhenOneHost(c, node);
    hide GatewayBy, Distinct, HostsApart, OneNAT64, IsGateway, RemovedBy;
    forall o | IsOrder(c, o)
      ensures dest !in RemovedBy(c, node, routes, dest, o) <==> GatewayBy(c, node, o) == Some(routes[dest])
    {
      RemovedExactlyVia(c, node, routes, dest, o);
    }
    assert AlwaysRemoved(c, node, routes, dest) <==> AlwaysVia(c, node, routes[dest]);
    if g :| AlwaysVia(c, node, g) {
      var o := GatewayHasOrder(c, node, routes[dest]);
      assert g == routes[dest];
    }
  }

  /** Every pair of walks takes away all that clean is to take away. */
  ghost predicate WalksAgree(c: Config, node: Node, routes: map<Block, Hop>)
    requires Usable(c, node) && RoutesServers(c, node)
  {
    forall o1, o2 | IsOrder(c, o1) && IsOrder(c, o2) ::
      RoutesCleanBy(c, node, routes, o1, o2) == RoutesClean(c, node, routes)
  }

  /** No route over a NAT64 host is left. */
  ghost predicate NoneOverHosts(c: Config, node: Node, routes: map<Block, Hop>)
    requires Usable(c, node) && RoutesServers(c, node)
  {
    !RoutedOver(c, node, routes, BlockOf(c.dns64Cidr).value)
      && !RoutedOver(c, node, routes, BlockOf(c.supportCidr).value)
  }

  /** Without servers there are only the cluster part's routes. */
  lemma NoServersRoutes(c: Config, node: Node, routes: map<Block, Hop>)
    requires Usable(c, node) && RoutesServers(c, node) && !IsServer(node)
    ensures RoutesClean(c, node, routes) == ClusterRoutesClean(c, node, routes)
  {
    hide HostsEdit.SingleLine, HostsEdit.IsStale, MgmtAddress, HostsReadable, ParseAddress, CalcNameServer, IsGateway;
    var t, u := RoutesClean(c, node, routes), ClusterRoutesClean(c, node, routes);
    forall d: Block ensures (d in t <==> d in u) && (d in t ==> t[d] == u[d]) {
    }
  }

  lemma RemovedTwice(c: Config, node: Node, routes: map<Block, Hop>, dest: Block, other: Block, o: seq<string>)
    requires |c.mgmtInfo| == 2 && IsOrder(c, o) && dest in RemovedBy(c, node, routes, dest, o)
    ensures dest in RemovedBy(c, node, RemovedBy(c, node, routes, dest, o), other, o)
  {
    hide GatewayBy, Distinct;
  }

  /** Without exactly one host some walk misses a route over a host. */
  lemma MissedOnce(c: Config, node: Node, routes: map<Block, Hop>, dest: Block) returns (o: seq<string>)
    requires |c.mgmtInfo| == 2 && !node.isNAT64 && HostsApart(c) && !OneNAT64(c) && RoutedOver(c, node, routes, dest)
    ensures IsOrder(c, o) && dest in RemovedBy(c, node, routes, dest, o)
  {
    RemovalExactlyWhenOneHost(c, node, routes, dest);
    hide Distinct, OneNAT64, HostsApart, RoutedOver, RemovedBy;
    o :| IsOrder(c, o) && dest in RemovedBy(c, node, routes, dest, o);
  }

  /** It is still there after two such walks. */
  lemma WalkMisses(c: Config, node: Node, routes: map<Block, Hop>)
    requires Usable(c, node) && RoutesServers(c, node) && !IsServer(node) && HostsApart(c) && !OneNAT64(c)
    requires !NoneOverHosts(c, node, routes)
    ensures !WalksAgree(c, node, routes)
  {
    NoServersRoutes(c, node, routes);
    assert |c.mgmtInfo| == 2 && c.dns64Cidr.Net? && c.supportCidr.Net?;
    var d, e := BlockOf(c.dns64Cidr).value, BlockOf(c.supportCidr).value;
    hide Usable, Distinct, OneNAT64, HostsApart, RoutesClean, IsGateway, RemovedBy;
    if RoutedOver(c, node, routes, d) {
      var o := MissedOnce(c, node, routes, d);
      RemovedTwice(c, node, routes, d, e, o);
      assert d in RoutesCleanBy(c, node, routes, o, o);
    } else {
      var o := MissedOnce(c, node, routes, e);
      RemovedByIs(c, node, routes, d, o);
      assert e in RoutesCleanBy(c, node, routes, o, o);
    }
  }

  /** Where no route is over a host, or there is one host, no walk can miss. */
  lemma WalksCannotMiss(c: Config, node: Node, routes: map<Block, Hop>, o1: seq<string>, o2: seq<string>)
    requires Usable(c, node) && RoutesServers(c, node) && !IsServer(node) && IsOrder(c, o1) && IsOrder(c, o2)
    requires FewGateways(c, node) || NoneOverHosts(c, node, routes)
    ensures RoutesCleanBy(c, node, routes, o1, o2) == RoutesClean(c, node, routes)
  {
    NoServersRoutes(c, node, routes);
    var d, e := BlockOf(c.dns64Cidr).value, BlockOf(c.supportCidr).value;
    hide Usable, Distinct, RoutesClean, IsGateway, RemovedBy, FewGateways;
    RemovedByIs(c, node, routes, d, o1);
    RemovedByIs(c, node, RemovedBy(c, node, routes, d, o1), e, o2);
  }

  /** On a cluster node without the server every pair of walks takes away all routes clean is to
      take away if and only if there is exactly one NAT64 host or no route over a host is left. */
  lemma WalksAgreeExactlyWhen(c: Config, node: Node, routes: map<Block, Hop>)
    requires Usable(c, node) && RoutesServers(c, node) && !IsServer(node) && HostsApart(c)
    ensures WalksAgree(c, node, routes) <==> OneNAT64(c) || NoneOverHosts(c, node, routes)
  {
    assert |c.mgmtInfo| == 2 && c.dns64Cidr.Net? && c.supportCidr.Net?;
    hide Usable, Distinct, RoutesClean, IsGateway, RemovedBy, FewGateways, NoneOverHosts, OneNAT64, HostsApart,
      RoutesCleanBy;
    if OneNAT64(c) || NoneOverHosts(c, node, routes) {
      if OneNAT64(c) { OneHostFewGateways(c, node); }
      forall o1, o2 | IsOrder(c, o1) && IsOrder(c, o2)
        ensures RoutesCleanBy(c, node, routes, o1, o2) == RoutesClean(c, node, routes)
      {
        WalksCannotMiss(c, node, routes, o1, o2);
      }
    } else {
      WalkMisses(c, node, routes);
    }
  }

  /** The cluster part leaves the servers' resources alone. */
  lemma ServersUntouched(c: Config, node: Node, all: seq<Removal>, a: State, b: State)
    requires Usable(c, node) && IsCluster(node) && RoutesApart(c, node)
    requires b.net == a.net && b.dns64 == a.dns64 && b.volume == a.volume && b.nat64 == a.nat64
    requires b.routes == ClusterRoutesClean(c, node, a.routes)
    requires ReportsMissing(c, node, SERVERS, all, b)
    ensures ReportsMissing(c, node, SERVERS, all, a)
  {
    hide HostsEdit.SingleLine, HostsEdit.IsStale, MgmtAddress, HostsReadable, ParseAddress, CalcNameServer,
      FilesReady, FilesClean, AddrsClean;
  }

  lemma RevertedIsUntagged(contents: string)
    requires Managed(contents)
    ensures Untagged(Lines(Reverted(contents)))
  {
    RevertManaged(contents);
  }

  /** What CleanTarget leaves: every removal's resource is gone (in dual-stack mode the
      addresses exactly if the first was there, or the second was not). */
  lemma CleanTargetHasNothingLeft(c: Config, node: Node, s: State, r: Removal)
    requires Usable(c, node) && Ready(node, s) && Concerns(c, node, r)
    ensures r != MgmtIP || c.mode != DualStack ==> Gone(c, node, r, CleanTarget(c, node, s))
    ensures r == MgmtIP && c.mode == DualStack ==>
              (Gone(c, node, r, CleanTarget(c, node, s)) <==>
                MgmtAddress(c, node, 0).value in s.addrs || MgmtAddress(c, node, 1).value !in s.addrs)
  {
    hide HostsEdit.SingleLine, HostsEdit.IsStale, MgmtAddress, HostsReadable, ParseAddress, CalcNameServer, Managed,
      Reverted, Untagged, Lines;
    if IsCluster(node) {
      RevertedIsUntagged(s.files[HostMachine.HostsFile]);
      RevertedIsUntagged(s.files[HostMachine.ResolvConf]);
    }
  }
}
