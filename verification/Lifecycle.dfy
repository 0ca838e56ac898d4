/** Whole runs of "prepare" and "clean" on one node, one after the other. */
module Lifecycle {
  import opened Text
  import opened Tags
  import opened AddressText
  import opened NodeAddresses
  import opened Configs
  import opened HostMachine
  import opened NodePlan
  import opened Gateways
  import opened NodeList
  import opened CleanPlan
  import Prepare
  import Cleanup
  import EditRuns
  import HostsEdit = HostsFile
  import ResolvEdit = ResolvConf

  // ------------------------------------------------------------ what clean does not restore

  /** The state without the link's MTU and kubeadm.conf, which clean leaves as they are. */
  function Core(node: Node, s: State): State {
    if IsCluster(node) then s.(mtus := s.mtus - {node.link}, files := s.files - {KubeAdmConf}) else s
  }

  /** Trailing newlines made one. */
  function Normalised(contents: string): string { TrimRight(contents, '\n') + "\n" }

  function Tidy(node: Node, s: State): State
    requires Ready(node, s)
  {
    if !IsCluster(node) then s
    else s.(files := s.files[HostMachine.HostsFile := Normalised(s.files[HostMachine.HostsFile])]
                            [HostMachine.ResolvConf := Normalised(s.files[HostMachine.ResolvConf])])
  }

  /** Nothing that clean removes is there, and no tag in the edited files. */
  ghost predicate Fresh(c: Config, node: Node, s: State)
    requires Usable(c, node)
  {
    forall r | Concerns(c, node, r) :: Gone(c, node, r, s)
  }

  lemma FreshRoutes(c: Config, node: Node, s: State)
    requires Usable(c, node) && Fresh(c, node, s) && StepInvariant(c.namedConf, s)
    ensures RoutesClean(c, node, s.routes) == s.routes
  {
    hide Usable, MappingHop, BlockOf;
    if Concerns(c, node, DNS64Route) { assert Gone(c, node, DNS64Route, s); }
    if Concerns(c, node, SupportRoute) { assert Gone(c, node, SupportRoute, s); }
    if Concerns(c, node, MappingRoute) { assert Gone(c, node, MappingRoute, s); }
    if ServesIPv6(c, node) { assert Gone(c, node, SupportNetwork, s); }
    assert forall d | d in s.routes :: !Doomed(c, node, d, s.routes[d]);
  }

  /** Clean only tidies a fresh host. */
  lemma FreshIsClean(c: Config, node: Node, s: State)
    requires Usable(c, node) && Fresh(c, node, s) && StepInvariant(c.namedConf, s)
    ensures Ready(node, s) && CleanTarget(c, node, s) == Tidy(node, s)
  {
    hide Usable, MgmtAddress, Untagged, Lines, Reverted, Managed, MappingHop, BlockOf;
    if IsCluster(node) {
      assert Gone(c, node, HostsTags, s) && Gone(c, node, ResolvTags, s) && Gone(c, node, MgmtIP, s)
        && Gone(c, node, DropInFile, s);
      UntaggedIsManaged(s.files[HostMachine.HostsFile]);
      UntaggedIsManaged(s.files[HostMachine.ResolvConf]);
      EditRuns.AnyRunIsReversible(s.files[HostMachine.HostsFile], []);
      EditRuns.AnyRunIsReversible(s.files[HostMachine.ResolvConf], []);
      assert s.files - {DropIn} == s.files;
    }
    FreshRoutes(c, node, s);
    if Concerns(c, node, DNS64Container) { assert Gone(c, node, DNS64Container, s) && Gone(c, node, DNS64Config, s); }
    if Concerns(c, node, NAT64Container) { assert Gone(c, node, NAT64Container, s); }
    if ServesIPv6(c, node) { assert Gone(c, node, SupportNetwork, s); }
  }

  // ------------------------------------------------------------ what prepare adds, clean takes away

  /** Files whose updates coincide revert to the same. */
  lemma SameReverted(c: Config, node: Node, a: map<File, string>, b: map<File, string>)
    requires Usable(c, node) && IsCluster(node) && FilesReady(a) && FilesReady(b)
    requires HostsEdit.Updated(a[HostMachine.HostsFile], NodeInfos(c))
               == HostsEdit.Updated(b[HostMachine.HostsFile], NodeInfos(c))
    requires ResolvEdit.Updated(a[HostMachine.ResolvConf], CalcNameServer(c, node))
               == ResolvEdit.Updated(b[HostMachine.ResolvConf], CalcNameServer(c, node))
    ensures Reverted(a[HostMachine.HostsFile]) == Reverted(b[HostMachine.HostsFile])
    ensures Reverted(a[HostMachine.ResolvConf]) == Reverted(b[HostMachine.ResolvConf])
  {
    hide Managed, HostsEdit.Updated, ResolvEdit.Updated, HostsEdit.IsStale, HostsEdit.SingleLine, CalcNameServer,
      MgmtAddress, ParseAddress, HostsReadable;
    HostsEdit.UpdateKeepsManaged(a[HostMachine.HostsFile], NodeInfos(c));
    HostsEdit.UpdateKeepsManaged(b[HostMachine.HostsFile], NodeInfos(c));
    ResolvEdit.UpdateKeepsManaged(a[HostMachine.ResolvConf], CalcNameServer(c, node));
    ResolvEdit.UpdateKeepsManaged(b[HostMachine.ResolvConf], CalcNameServer(c, node));
  }

  lemma SameFiles(c: Config, node: Node, a: map<File, string>, b: map<File, string>)
    requires Usable(c, node) && IsCluster(node) && FilesReady(a) && FilesReady(b)
    requires FilesTarget(c, node, a) == FilesTarget(c, node, b)
    ensures FilesClean(a) - {KubeAdmConf} == FilesClean(b) - {KubeAdmConf}
  {
    hide Managed, Reverted, HostsEdit.Updated, ResolvEdit.Updated, DropInText, CalcNameServer, HostsEdit.IsStale,
      HostsEdit.SingleLine, MgmtAddress, ParseAddress, HostsReadable;
    var ta, tb := FilesTarget(c, node, a), FilesTarget(c, node, b);
    assert ta[HostMachine.HostsFile] == tb[HostMachine.HostsFile]
      && ta[HostMachine.ResolvConf] == tb[HostMachine.ResolvConf];
    SameReverted(c, node, a, b);
    var x, y := FilesClean(a) - {KubeAdmConf}, FilesClean(b) - {KubeAdmConf};
    forall f: File ensures (f in x <==> f in y) && (f in x ==> x[f] == y[f]) {
      match f
      case HostsFile =>
      case ResolvConf =>
      case DropIn =>
      case KubeAdmConf =>
    }
  }

  /** A route prepare adds is one that clean takes away. */
  lemma GrownSameClean(c: Config, node: Node, a: map<Block, Hop>, b: map<Block, Hop>)
    requires Usable(c, node) && Grown(c, node, a, b)
    ensures RoutesClean(c, node, b) == RoutesClean(c, node, a)
  {
    hide Usable, Wanted, IsGateway, MappingHop, BlockOf;
    var x, y := RoutesClean(c, node, a), RoutesClean(c, node, b);
    forall d: Block ensures (d in x <==> d in y) && (d in x ==> x[d] == y[d]) {
    }
  }

  lemma ServersSameClean(c: Config, node: Node, s: State)
    requires Usable(c, node)
    ensures RoutesClean(c, node, ServerTarget(c, node, s).routes) == RoutesClean(c, node, s.routes)
  {
    hide HostsEdit.SingleLine, HostsEdit.IsStale, MgmtAddress, HostsReadable, ParseAddress, CalcNameServer, IsGateway,
      Wanted;
    var x, y := RoutesClean(c, node, s.routes), RoutesClean(c, node, ServerTarget(c, node, s).routes);
    forall d: Block ensures (d in x <==> d in y) && (d in x ==> x[d] == y[d]) {
    }
  }

  /** What two states have in common when one is reached from the other. */
  lemma ReachesSettings(c: Config, node: Node, a: State, b: State)
    requires Usable(c, node) && Ready(node, a) && Reaches(c, node, a, b)
    ensures Grown(c, node, ServerTarget(c, node, a).routes, ServerTarget(c, node, b).routes)
    ensures IsCluster(node) ==>
              && FilesTarget(c, node, a.files) == FilesTarget(c, node, b.files)
              && a.addrs + MgmtAddrs(c, node) == b.addrs + MgmtAddrs(c, node)
              && a.mtus[node.link := c.podMTU] == b.mtus[node.link := c.podMTU]
    ensures !IsCluster(node) ==> a.files == b.files && a.addrs == b.addrs && a.mtus == b.mtus
  {
    ServerTargetFiles(c, node, a);
    ServerTargetFiles(c, node, b);
    hide Usable, FilesReady, FilesTarget, MgmtAddrs, Grown, ServerTarget;
  }

  lemma ReachesServers(c: Config, node: Node, a: State, b: State)
    requires Usable(c, node) && Ready(node, a) && Reaches(c, node, a, b)
    ensures ServesIPv6(c, node) || b.net == a.net
    ensures Concerns(c, node, DNS64Container) || (b.dns64 == a.dns64 && b.volume == a.volume)
    ensures Concerns(c, node, NAT64Container) || b.nat64 == a.nat64
  {
    hide HostsEdit.SingleLine, HostsEdit.IsStale, MgmtAddress, HostsReadable, ParseAddress, CalcNameServer,
      FilesTarget, FilesReady, MgmtAddrs, Grown, BlockOf;
  }

  /** Wherever prepare gets to, there is the same to clean, the addresses aside. */
  lemma ReachesSameClean(c: Config, node: Node, a: State, b: State)
    requires Usable(c, node) && Ready(node, a) && Reaches(c, node, a, b)
    ensures Core(node, CleanTarget(c, node, b))
              == Core(node, CleanTarget(c, node, a)).(addrs := CleanTarget(c, node, b).addrs)
    ensures if IsCluster(node) then b.addrs - MgmtAddrs(c, node) == a.addrs - MgmtAddrs(c, node) else b.addrs == a.addrs
  {
    hide Usable, Target, ServerTarget, FilesTarget, FilesReady, FilesClean, AddrsClean, MgmtAddrs, RoutesClean, Grown,
      CleanTarget, Core, Reaches;
    ReachesIsReady(c, node, a, b);
    ReachesSettings(c, node, a, b);
    ReachesServers(c, node, a, b);
    GrownSameClean(c, node, ServerTarget(c, node, a).routes, ServerTarget(c, node, b).routes);
    ServersSameClean(c, node, a);
    ServersSameClean(c, node, b);
    if IsCluster(node) {
      SameFiles(c, node, a.files, b.files);
      SameBeyond(a.addrs, b.addrs, MgmtAddrs(c, node));
      SameMTUs(a.mtus, b.mtus, node.link, c.podMTU);
    }
    SameCore(c, node, a, b);
  }

  lemma ReachesIsReady(c: Config, node: Node, a: State, b: State)
    requires Usable(c, node) && Ready(node, a) && Reaches(c, node, a, b)
    ensures Ready(node, b)
  {
    hide Usable, FilesReady, Target, Grown;
  }

  lemma SameMTUs(a: map<string, nat>, b: map<string, nat>, link: string, mtu: nat)
    requires a[link := mtu] == b[link := mtu]
    ensures a - {link} == b - {link}
  {
    assert a[link := mtu] - {link} == a - {link};
    assert b[link := mtu] - {link} == b - {link};
  }

  lemma SameCore(c: Config, node: Node, a: State, b: State)
    requires Usable(c, node) && Ready(node, a) && Ready(node, b)
    requires if IsCluster(node) then FilesClean(a.files) - {KubeAdmConf} == FilesClean(b.files) - {KubeAdmConf}
                                     && a.mtus - {node.link} == b.mtus - {node.link}
             else a.files == b.files && a.mtus == b.mtus
    requires RoutesClean(c, node, a.routes) == RoutesClean(c, node, b.routes)
    requires ServesIPv6(c, node) || b.net == a.net
    requires Concerns(c, node, DNS64Container) || (b.dns64 == a.dns64 && b.volume == a.volume)
    requires Concerns(c, node, NAT64Container) || b.nat64 == a.nat64
    ensures Core(node, CleanTarget(c, node, b))
              == Core(node, CleanTarget(c, node, a)).(addrs := CleanTarget(c, node, b).addrs)
  {
    hide Usable, FilesReady, FilesClean, AddrsClean, MgmtAddrs, RoutesClean;
  }

  lemma SameBeyond<T>(a: set<T>, b: set<T>, m: set<T>)
    requires a + m == b + m
    ensures a - m == b - m
  {
    forall x ensures x in a - m <==> x in b - m {
      assert x in a + m <==> x in b + m;
    }
  }

  /** Clean undoes prepare: what is left of any prepared state is the fresh host, apart from
      the MTU, kubeadm.conf and trailing newlines. */
  lemma CleanInvertsPrepare(c: Config, node: Node, s: State, t: State)
    requires Usable(c, node) && Fresh(c, node, s) && StepInvariant(c.namedConf, s)
    requires Ready(node, s) && Prepared(c, node, s, t)
    ensures Ready(node, t) && Core(node, CleanTarget(c, node, t)) == Core(node, Tidy(node, s))
  {
    hide Usable, Target, CleanTarget, Core, Tidy, FilesReady, InOrder, MgmtAddrs, Wanted, IsGateway;
    FreshIsClean(c, node, s);
    PreparedIsStable(c, node, s, t);
    ReachesSameClean(c, node, s, t);
    PreparedAddrs(c, node, s, t);
    CoreAddrs(c, node, s, t);
  }

  lemma PreparedAddrs(c: Config, node: Node, s: State, t: State)
    requires Usable(c, node) && Ready(node, s) && Prepared(c, node, s, t)
    requires IsCluster(node) ==> Gone(c, node, MgmtIP, s)
    ensures IsCluster(node) ==> AddrsClean(c, node, s.addrs) == AddrsClean(c, node, t.addrs)
    ensures !IsCluster(node) ==> t.addrs == s.addrs
  {
    hide FilesReady, FilesTarget, MgmtAddress, HostsEdit.IsStale, HostsEdit.SingleLine, ParseAddress, HostsReadable,
      CalcNameServer, Routed;
    if IsCluster(node) {
      var m := MgmtAddrs(c, node);
      assert t.addrs == s.addrs + m;
      assert MgmtAddress(c, node, 0).value in m;
      assert (s.addrs + m) - m == s.addrs;
    }
  }

  lemma CoreAddrs(c: Config, node: Node, a: State, b: State)
    requires Usable(c, node) && Ready(node, a) && Ready(node, b)
    requires if IsCluster(node) then AddrsClean(c, node, a.addrs) == AddrsClean(c, node, b.addrs)
               else a.addrs == b.addrs
    ensures CleanTarget(c, node, a).addrs == CleanTarget(c, node, b).addrs
    ensures Core(node, CleanTarget(c, node, a)).addrs == CleanTarget(c, node, a).addrs
  {
    hide Usable, FilesReady, FilesClean, AddrsClean, RoutesClean;
  }

  /** The destinations of the routes prepare adds are free. */
  ghost predicate Vacant(c: Config, node: Node, s: State)
    requires Usable(c, node)
  {
    && (Concerns(c, node, DNS64Route) ==> BlockOf(c.dns64Cidr).value !in s.routes)
    && (Concerns(c, node, SupportRoute) ==> BlockOf(c.supportCidr).value !in s.routes)
    && (Concerns(c, node, MappingRoute) ==> BlockOf(c.v4MappingCidr).value !in s.routes)
  }

  /** After prepare there is something to every removal. */
  lemma PreparedIsFound(c: Config, node: Node, s: State, t: State, r: Removal)
    requires Usable(c, node) && Ready(node, s) && Vacant(c, node, s) && RoutesApart(c, node) && Concerns(c, node, r)
    requires Prepared(c, node, s, t)
    ensures Found(c, node, r, t)
  {
    hide HostsEdit.SingleLine, HostsEdit.IsStale, MgmtAddress, HostsReadable, ParseAddress, CalcNameServer, Managed,
      DropInText, HostsEdit.Updated, ResolvEdit.Updated, IsGateway;
  }

  // ------------------------------------------------------------ runs

  /** However many runs of prepare fail, and wherever: one without failing calls then succeeds
      exactly if there is a NAT64 host for a node that needs one, and leaves what a first
      successful run could have left; without such a host, all but the routes over it. */
  method PrepareUntilDone(name: string, c: Config, h: Host, attempts: nat) returns (err: Error)
    requires h.Valid() && h.namedConf == c.namedConf && name in c.topology && !h.stranded
    requires Usable(c, c.topology[name]) && Ready(c.topology[name], h.s)
    modifies h
    ensures h.Valid()
    ensures !h.stranded ==> (err == Nil <==> HasGateway(c, c.topology[name]))
    ensures !h.stranded && err == Nil ==> Prepared(c, c.topology[name], old(h.s), h.s)
    ensures !h.stranded && err != Nil ==> h.s == Target(c, c.topology[name], old(h.s))
    ensures !h.stranded && err == Nil && FewGateways(c, c.topology[name]) ==>
              forall t: State | Prepared(c, c.topology[name], old(h.s), t) :: t == h.s
  {
    hide Usable, FilesReady, Target, StepInvariant, Prepared, Reaches, HasGateway, FewGateways;
    var node := c.topology[name];
    ghost var s0 := h.s;
    NothingReached(c, node, s0);
    var i := 0;
    while i < attempts && !h.stranded
      invariant h.Valid()
      invariant !h.stranded ==> Reaches(c, node, s0, h.s) && Ready(node, h.s)
    {
      ghost var s1 := h.s;
      err := Prepare.Prepare(name, c, h);
      if !h.stranded { ReachesOn(c, node, s0, s1, h.s); }
      i := i + 1;
    }
    if h.stranded {
      return Failed;
    }
    h.reliable := true;
    ghost var s2 := h.s;
    err := Prepare.Prepare(name, c, h);
    if err == Nil {
      ReachesPrepared(c, node, s0, s2, h.s);
      if FewGateways(c, node) {
        forall t: State | Prepared(c, node, s0, t) ensures t == h.s {
          PreparedIsUnique(c, node, s0, t, h.s);
        }
      }
    } else {
      NoGatewayNoRoute(c, node, s0, s2);
    }
  }

  lemma NothingReached(c: Config, node: Node, s: State)
    requires Usable(c, node) && Ready(node, s)
    ensures Reaches(c, node, s, s)
  {
    hide Usable, FilesReady, Target, Wanted, IsGateway;
  }

  lemma ReachesOn(c: Config, node: Node, x: State, y: State, z: State)
    requires Usable(c, node) && Ready(node, x) && Reaches(c, node, x, y) && Ready(node, y) && Reaches(c, node, y, z)
    ensures Reaches(c, node, x, z) && Ready(node, z)
  {
    ReachesTransitive(c, node, x, y, z);
    hide Usable, FilesReady, Target, Wanted, IsGateway;
  }

  lemma NoGatewayNoRoute(c: Config, node: Node, a: State, b: State)
    requires Usable(c, node) && Ready(node, a) && Reaches(c, node, a, b) && !HasGateway(c, node)
    ensures Ready(node, b) && Target(c, node, b) == Target(c, node, a)
  {
    hide Usable, FilesReady, Target, Wanted, ParseAddress;
    var x, y := Target(c, node, a).routes, Target(c, node, b).routes;
    forall d: Block ensures (d in x <==> d in y) && (d in x ==> x[d] == y[d]) {
    }
  }

  lemma NothingMissing(c: Config, node: Node, part: set<Removal>, all: seq<Removal>, s: State)
    requires Usable(c, node) && ReportsOnly(c, node, part, all) && ReportsMissing(c, node, part, all, s)
    ensures all == [] || !Found(c, node, all[0], s)
  {
    hide Usable, Found;
    assert |all| > 0 ==> all[0] in all;
  }

  /** On a fresh host, a prepare that succeeds, whatever calls failed on the way, and then a
      clean without failing calls: the host is as it was, and where the destinations were free
      clean finds everything it looks for, if and only if no two routes to be deleted share a
      destination. With several NAT64 hosts see RemovalExactlyWhenOneHost. */
  method PrepareThenClean(name: string, c: Config, h: Host) returns (err: Error, all: seq<Removal>)
    requires h.Valid() && h.namedConf == c.namedConf && name in c.topology && !h.stranded
    requires Usable(c, c.topology[name]) && Fresh(c, c.topology[name], h.s)
    modifies h
    ensures h.Valid() && Ready(c.topology[name], old(h.s))
    ensures old(h.reliable) && HasGateway(c, c.topology[name]) ==> err == Nil
    ensures err == Nil && FewGateways(c, c.topology[name]) ==>
              Core(c.topology[name], h.s) == Core(c.topology[name], Tidy(c.topology[name], old(h.s)))
    ensures err == Nil && FewGateways(c, c.topology[name]) && Vacant(c, c.topology[name], old(h.s)) ==>
              (all == [] <==> RoutesApart(c, c.topology[name]))
  {
    hide Usable, FilesReady, Target, CleanTarget, StepInvariant, Fresh, Found, Core, Tidy, Vacant, Prepared,
      HasGateway, FewGateways, RoutesApart, Reaches;
    var node := c.topology[name];
    ghost var s0 := h.s;
    all := [];
    FreshIsClean(c, node, s0);
    err := Prepare.Prepare(name, c, h);
    if err != Nil {
      return;
    }
    ghost var s1 := h.s;
    CleanInvertsPrepare(c, node, s0, s1);
    h.reliable := true;
    ghost var o1, o2;
    all, o1, o2 := Cleanup.Cleanup(name, c, h);
    if FewGateways(c, node) && RoutesApart(c, node) && Vacant(c, node, s0) {
      forall r | Concerns(c, node, r) ensures Found(c, node, r, s1) {
        PreparedIsFound(c, node, s0, s1, r);
      }
      NothingMissing(c, node, SETTINGS + ROUTES + SERVERS, all, s1);
    }
  }

  // ------------------------------------------------------------ histories

  datatype Command = DoPrepare | DoClean

  /** The host is the fresh one, but for what clean can take away. */
  ghost predicate Restorable(c: Config, node: Node, s0: State, s: State)
    requires Usable(c, node) && Ready(node, s0)
  {
    && Ready(node, s)
    && Core(node, CleanTarget(c, node, s)) == Core(node, Tidy(node, s0)).(addrs := CleanTarget(c, node, s).addrs)
    && (if IsCluster(node) then s.addrs - MgmtAddrs(c, node) == s0.addrs else s.addrs == s0.addrs)
  }

  lemma FreshIsRestorable(c: Config, node: Node, s: State)
    requires Usable(c, node) && Fresh(c, node, s) && StepInvariant(c.namedConf, s)
    ensures Ready(node, s) && Restorable(c, node, s, s) && (IsCluster(node) ==> InOrder(c, node, s.addrs))
  {
    FreshIsClean(c, node, s);
    assert IsCluster(node) ==> Gone(c, node, MgmtIP, s);
    hide Usable, FilesReady, CleanTarget, MgmtAddress;
    if IsCluster(node) {
      FreshInOrder(c, node, s.addrs);
      assert s.addrs - MgmtAddrs(c, node) == s.addrs;
    }
  }

  lemma FreshInOrder(c: Config, node: Node, addrs: set<LinkAddr>)
    requires Usable(c, node) && IsCluster(node) && MgmtAddrs(c, node) !! addrs
    ensures InOrder(c, node, addrs)
  {
    hide HostsEdit.SingleLine, HostsEdit.IsStale, MgmtAddress, HostsReadable, ParseAddress, CalcNameServer;
  }

  lemma PrepareKeepsRestorable(c: Config, node: Node, s0: State, a: State, b: State)
    requires Usable(c, node) && Ready(node, s0) && Restorable(c, node, s0, a) && Reaches(c, node, a, b)
    ensures Restorable(c, node, s0, b)
  {
    ReachesSameClean(c, node, a, b);
    hide Usable, FilesReady, CleanTarget, Core, Tidy, MgmtAddrs, Target, Grown;
    CoreKeepsAddrs(node, CleanTarget(c, node, a));
  }

  lemma CoreKeepsAddrs(node: Node, s: State)
    ensures forall x :: Core(node, s.(addrs := x)) == Core(node, s).(addrs := x)
  {
  }

  lemma CleanKeepsRestorable(c: Config, node: Node, s0: State, a: State, b: State)
    requires Usable(c, node) && Ready(node, s0) && Restorable(c, node, s0, a) && Shrinks(c, node, a, b)
    ensures Restorable(c, node, s0, b)
  {
    ShrinksIsReady(c, node, a, b);
    ShrinksSameTarget(c, node, a, b);
    CoreKeepsAddrs(node, CleanTarget(c, node, a));
    hide Usable, FilesReady, CleanTarget, Core, Tidy, MgmtAddrs, RoutesShrink, FilesShrink;
  }

  /** A clean without failing calls restores the host if and only if the addresses are in order
      and no route over another one of several NAT64 hosts is left. */
  lemma RestoredExactlyWhenInOrder(c: Config, node: Node, s0: State, a: State, b: State)
    requires Usable(c, node) && Ready(node, s0) && Fresh(c, node, s0) && StepInvariant(c.namedConf, s0)
    requires Restorable(c, node, s0, a) && b == CleanTarget(c, node, a).(routes := b.routes)
    ensures Core(node, b) == Core(node, Tidy(node, s0)) <==>
              (IsCluster(node) ==> InOrder(c, node, a.addrs)) && b.routes == RoutesClean(c, node, a.routes)
    ensures CleanTarget(c, node, a).routes == RoutesClean(c, node, a.routes)
  {
    FreshIsClean(c, node, s0);
    RestoredAddrs(c, node, s0, a);
    assert CleanTarget(c, node, a).routes == RoutesClean(c, node, a.routes);
    hide Usable, FilesReady, CleanTarget, MgmtAddrs, InOrder, Fresh;
  }

  lemma RestoredAddrs(c: Config, node: Node, s0: State, a: State)
    requires Usable(c, node) && Ready(node, s0) && Restorable(c, node, s0, a)
    ensures CleanTarget(c, node, a).addrs == s0.addrs <==> (IsCluster(node) ==> InOrder(c, node, a.addrs))
    ensures Tidy(node, s0).addrs == s0.addrs
  {
    if IsCluster(node) { AddrsCleanExactly(c, node, a.addrs); }
    hide Usable, FilesReady, FilesClean, AddrsClean, RoutesClean, InOrder, MgmtAddrs;
  }

  /** Any history of prepare and clean runs, each stopping or failing anywhere, and then one
      clean without failing calls: this brings a fresh host back if and only if, before that
      clean, the second address was not there without the first (which prepare alone never
      brings about), and the clean found the routes to remove: on a node without servers, what
      its two walks give (WalksAgreeExactlyWhen says when all walks do), on others always.
      `before` is the state the last clean starts from. */
  method AnyHistoryThenClean(name: string, c: Config, h: Host, history: seq<Command>)
    returns (all: seq<Removal>, ghost before: State, ghost o1: seq<string>, ghost o2: seq<string>)
    requires h.Valid() && h.namedConf == c.namedConf && name in c.topology && !h.stranded
    requires Usable(c, c.topology[name]) && Fresh(c, c.topology[name], h.s)
    modifies h
    ensures h.Valid() && Ready(c.topology[name], old(h.s))
    ensures !h.stranded ==> Restorable(c, c.topology[name], old(h.s), h.s)
    ensures !h.stranded ==>
              (Core(c.topology[name], h.s) == Core(c.topology[name], Tidy(c.topology[name], old(h.s))) <==>
                && (IsCluster(c.topology[name]) ==> InOrder(c, c.topology[name], before.addrs))
                && h.s.routes == RoutesClean(c, c.topology[name], before.routes))
    ensures !h.stranded && FewGateways(c, c.topology[name]) ==>
              h.s.routes == RoutesClean(c, c.topology[name], before.routes)
    ensures IsOrder(c, o1) && IsOrder(c, o2)
    ensures !h.stranded && RoutesServers(c, c.topology[name]) && !IsServer(c.topology[name]) ==>
              && h.s.routes == RoutesCleanBy(c, c.topology[name], before.routes, o1, o2)
              && (WalksAgree(c, c.topology[name], before.routes) ==>
                    h.s.routes == RoutesClean(c, c.topology[name], before.routes))
    ensures !h.stranded && IsCluster(c.topology[name]) && (c.mode != DualStack || DoClean !in history) ==>
              InOrder(c, c.topology[name], before.addrs)
  {
    hide Usable, FilesReady, Target, CleanTarget, StepInvariant, Fresh, Found, Core, Tidy, Gone, ShrinksOffFiles,
      FilesShrink, Restorable, FewGateways, Reaches, InOrder, RoutesClean, RoutesCleanBy, Distinct;
    var node := c.topology[name];
    ghost var s0 := h.s;
    FreshIsRestorable(c, node, s0);
    var i := 0;
    all := [];
    o1 := Enumerate(c.topology.Keys);
    o2 := o1;
    while i < |history| && !h.stranded
      invariant h.Valid() && 0 <= i <= |history| && IsOrder(c, o1) && IsOrder(c, o2)
      invariant !h.stranded ==> Ready(node, h.s) && Restorable(c, node, s0, h.s)
      invariant !h.stranded && IsCluster(node) && (c.mode != DualStack || DoClean !in history) ==>
                  InOrder(c, node, h.s.addrs)
    {
      ghost var s1 := h.s;
      if history[i] == DoPrepare {
        var err := Prepare.Prepare(name, c, h);
        if !h.stranded { PrepareKeepsRestorable(c, node, s0, s1, h.s); }
      } else {
        assert DoClean in history;
        all, o1, o2 := Cleanup.Cleanup(name, c, h);
        if !h.stranded { CleanKeepsRestorable(c, node, s0, s1, h.s); }
      }
      if !h.stranded { RestorableFacts(c, node, s0, h.s); }
      i := i + 1;
    }
    before := h.s;
    if !h.stranded {
      h.reliable := true;
      all, o1, o2 := Cleanup.Cleanup(name, c, h);
      CleanKeepsRestorable(c, node, s0, before, h.s);
      RestoredExactlyWhenInOrder(c, node, s0, before, h.s);
    }
  }

  lemma RestorableFacts(c: Config, node: Node, s0: State, s: State)
    requires Usable(c, node) && Ready(node, s0) && Restorable(c, node, s0, s)
    ensures Ready(node, s) && (IsCluster(node) && c.mode != DualStack ==> InOrder(c, node, s.addrs))
  {
    hide Usable, FilesReady, CleanTarget;
  }

  /** In dual-stack mode a clean that stopped after the first address is not made good by
      another: the second address goes exactly if the first is still there to be found. */
  lemma SecondAddressStays(c: Config, node: Node, a: State, b: State)
    requires Usable(c, node) && Ready(node, a) && Shrinks(c, node, a, b)
    requires IsCluster(node) && InOrder(c, node, a.addrs)
    ensures Ready(node, b)
    ensures CleanTarget(c, node, b) == CleanTarget(c, node, a) <==> InOrder(c, node, b.addrs)
  {
    ShrinksIsReady(c, node, a, b);
    ShrinksSameTarget(c, node, a, b);
    AddrsCleanExactly(c, node, a.addrs);
    AddrsCleanExactly(c, node, b.addrs);
    hide Usable, FilesReady, FilesClean, FilesShrink, RoutesClean, Doomed, AddrsClean, InOrder, MgmtAddrs;
    assert a.addrs - MgmtAddrs(c, node) == b.addrs - MgmtAddrs(c, node);
  }
}
