/** The steps of "clean" (cleanup.go). A failed removal does not stop the run: it is
    collected, and the next removal is tried. */
module Cleanup {
  import opened Text
  import opened Tags
  import opened AddressText
  import opened NodeAddresses
  import opened Configs
  import opened HostMachine
  import opened NodePlan
  import opened Gateways
  import opened SaveFile
  import opened Prepare
  import opened CleanPlan
  import HostsEdit = HostsFile

  // ------------------------------------------------------------ single removals

  method RemoveDropInFile(h: Host) returns (err: Error)
    requires h.Valid()
    modifies h
    ensures h.Valid() && h.OffFiles()
    ensures h.s == old(h.s) || h.s == old(h.s).(files := old(h.s.files) - {DropIn})
    ensures err == Nil ==> h.s == old(h.s).(files := old(h.s.files) - {DropIn})
    ensures h.reliable ==> h.s.files == old(h.s.files) - {DropIn} && (err == Nil <==> DropIn in old(h.s.files))
  {
    err := h.RemoveFile(DropIn);
  }

  /** Returns at the first address that cannot be removed. */
  method RemoveManagementIP(node: Node, c: Config, h: Host) returns (err: Error)
    requires h.Valid() && Usable(c, node) && IsCluster(node)
    modifies h
    ensures h.Valid() && h.OffFiles()
    ensures h.s == old(h.s).(addrs := h.s.addrs)
    ensures old(h.s.addrs) - MgmtAddrs(c, node) <= h.s.addrs <= old(h.s.addrs)
    ensures err == Nil ==> MgmtAddrs(c, node) !! h.s.addrs
    ensures h.reliable ==> h.s.addrs == AddrsClean(c, node, old(h.s.addrs))
    ensures h.reliable ==> (err == Nil <==> MgmtAddrs(c, node) <= old(h.s.addrs))
  {
    hide HostsReadable, ParseAddress, MgmtAddress, HostsEdit.SingleLine, HostsEdit.IsStale, CalcNameServer,
      StepInvariant;
    err := h.RemoveAddressFromLink(MgmtAddress(c, node, 0));
    if err != Nil {
      return;
    }
    if c.mode == DualStack {
      err := h.RemoveAddressFromLink(MgmtAddress(c, node, 1));
    }
  }

  method RevertEntries(file: File, h: Host) returns (err: Error)
    requires h.Valid()
    modifies h
    ensures h.Valid() && h.Steady()
    ensures h.s == old(h.s).(files := h.s.files) && DifferAt(file, old(h.s.files), h.s.files)
    ensures err == Nil ==> file in old(h.s.files) && h.s.files == old(h.s.files)[file := Reverted(old(h.s.files)[file])]
    ensures err != Nil && !h.stranded ==> h.s.files == old(h.s.files)
    ensures h.reliable && file in old(h.s.files) ==> err == Nil
  {
    var contents;
    contents, err := h.ReadFile(file);
    if err != Nil {
      return Failed;
    }
    contents := RevertConfigInfo(contents);
    err := SaveFileContents(contents, file, h);
    SameElsewhere(old(h.s.files), h.s.files, file);
  }

  /** Looks for the route over the support bridge on the NAT64 node, elsewhere over the host met
      first on this walk. */
  method RemoveRouteForDNS64(node: Node, c: Config, h: Host) returns (err: Error, ghost order: seq<string>)
    requires h.Valid() && Usable(c, node) && Concerns(c, node, DNS64Route)
    modifies h
    ensures h.Valid() && h.OffFiles() && IsOrder(c, order)
    ensures var dest := BlockOf(c.dns64Cidr).value;
            var less := RemovedBy(c, node, old(h.s.routes), dest, order);
            && (h.s == old(h.s) || h.s == old(h.s).(routes := less))
            && (err == Nil ==> h.s == old(h.s).(routes := less) && dest in old(h.s.routes) && dest !in less)
            && (h.reliable ==> h.s == old(h.s).(routes := less))
            && (h.reliable ==> (err == Nil <==> less != old(h.s.routes)))
  {
    hide ParseAddress, MgmtAddress, HostsEdit.SingleLine, HostsEdit.IsStale, CalcNameServer, FirstHostIP,
      HostsReadable;
    var dest := BlockOf(c.dns64Cidr);
    if node.isNAT64 {
      order := Enumerate(c.topology.Keys);
      err := h.DeleteRoute(dest, ParseAddress(c.nat64ServerIP), Support);
    } else {
      var gw, ok;
      gw, ok, order := FindHostIPForNAT64(c);
      err := Failed;
      if ok {
        FoundIsReadable(c, order);
        err := h.DeleteRoute(dest, ParseAddress(gw), Named(node.link));
      }
    }
  }

  method RemoveRouteForNAT64(node: Node, c: Config, h: Host) returns (err: Error, ghost order: seq<string>)
    requires h.Valid() && Usable(c, node) && Concerns(c, node, SupportRoute)
    modifies h
    ensures h.Valid() && h.OffFiles() && IsOrder(c, order)
    ensures var dest := BlockOf(c.supportCidr).value;
            var less := RemovedBy(c, node, old(h.s.routes), dest, order);
            && (h.s == old(h.s) || h.s == old(h.s).(routes := less))
            && (err == Nil ==> h.s == old(h.s).(routes := less) && dest in old(h.s.routes) && dest !in less)
            && (h.reliable ==> h.s == old(h.s).(routes := less))
            && (h.reliable ==> (err == Nil <==> less != old(h.s.routes)))
  {
    hide ParseAddress, MgmtAddress, HostsEdit.SingleLine, HostsEdit.IsStale, CalcNameServer, FirstHostIP,
      HostsReadable;
    var gw, ok;
    gw, ok, order := FindHostIPForNAT64(c);
    err := Failed;
    if ok {
      FoundIsReadable(c, order);
      err := h.DeleteRoute(BlockOf(c.supportCidr), ParseAddress(gw), Named(node.link));
    }
  }

  method RemoveContainer(r: Resource, h: Host) returns (err: Error)
    requires h.Valid() && (r == DNS64 || r == NAT64)
    modifies h
    ensures h.Valid() && h.OffFiles()
    ensures h.s == old(h.s) || h.s == WithContainer(old(h.s), r, Absent)
    ensures err == Nil ==> h.s == WithContainer(old(h.s), r, Absent)
    ensures h.reliable ==> h.s == WithContainer(old(h.s), r, Absent)
    ensures h.reliable ==> (err == Nil <==> ContainerOf(old(h.s), r) != Absent)
  {
    var status := h.ResourceState(r);
    if status == NotPresent {
      return Skipping;
    }
    err := h.DeleteContainer(r);
    if err != Nil {
      return Failed;
    }
  }

  method CleanupSupportNetwork(h: Host) returns (err: Error)
    requires h.Valid()
    modifies h
    ensures h.Valid() && h.OffFiles()
    ensures h.s == old(h.s) || h.s == WithoutNetwork(old(h.s))
    ensures err == Nil ==> h.s == WithoutNetwork(old(h.s))
    ensures h.reliable && !old(h.s.dns64.Running?) && !old(h.s.nat64.Running?) ==>
              h.s == WithoutNetwork(old(h.s)) && (err == Nil <==> old(h.s.net))
  {
    var status := h.ResourceState(SupportNet);
    if status == NotPresent {
      if h.reliable { NothingToLose(h); }
      return Skipping;
    }
    err := h.DeleteNetwork();
    if err != Nil {
      return Failed;
    }
  }

  /** Without the network there is no route over its bridge. */
  lemma NothingToLose(h: Host)
    requires h.Valid() && !h.s.net
    ensures WithoutNetwork(h.s) == h.s
  {
    var w := WithoutNetwork(h.s).routes;
    assert forall b :: b in w <==> b in h.s.routes;
  }

  // ------------------------------------------------------------ whole runs

  /** The two edited files; each is tried, whatever happens to the other one. */
  method RevertFiles(node: Node, h: Host) returns (all: seq<Removal>)
    requires h.Valid() && IsCluster(node) && FilesReady(h.s.files)
    modifies h
    ensures h.Valid() && h.Steady() && h.s == old(h.s).(files := h.s.files)
    ensures DropIn in h.s.files <==> DropIn in old(h.s.files)
    ensures !h.stranded ==> FilesShrink(node, old(h.s.files), h.s.files)
    ensures forall r <- all :: r == HostsTags || r == ResolvTags
    ensures HostsTags !in all ==> IsClean(HostMachine.HostsFile, h.s.files)
    ensures ResolvTags !in all ==> IsClean(HostMachine.ResolvConf, h.s.files)
    ensures h.reliable ==> all == [] && h.s.files == BothReverted(old(h.s.files))
  {
    hide Managed, Reverted, Untagged, Lines, StepInvariant;
    RevertedIsUntagged(h.s.files[HostMachine.HostsFile]);
    RevertedIsUntagged(h.s.files[HostMachine.ResolvConf]);
    all := [];
    var err := RevertEntries(HostMachine.HostsFile, h);
    if err != Nil {
      all := all + [HostsTags];
    }
    err := RevertEntries(HostMachine.ResolvConf, h);
    if err != Nil {
      all := all + [ResolvTags];
    }
  }

  /** The routes of a cluster node in IPv6 mode. */
  method RemoveRoutes(node: Node, c: Config, h: Host)
    returns (all: seq<Removal>, ghost o1: seq<string>, ghost o2: seq<string>)
    requires h.Valid() && Usable(c, node) && Concerns(c, node, DNS64Route)
    modifies h
    ensures h.Valid() && h.OffFiles() && IsOrder(c, o1) && IsOrder(c, o2)
    ensures h.s == old(h.s).(routes := h.s.routes) && RoutesShrink(c, node, old(h.s.routes), h.s.routes)
    ensures ReportsOnly(c, node, ROUTES, all) && RestGone(c, node, ROUTES, all, h.s)
    ensures h.reliable ==> h.s.routes == RoutesCleanBy(c, node, old(h.s.routes), o1, o2)
    ensures h.reliable && FewGateways(c, node) ==> h.s.routes == ClusterRoutesClean(c, node, old(h.s.routes))
    ensures h.reliable && FewGateways(c, node) && RoutesApart(c, node) ==>
              ReportsMissing(c, node, ROUTES, all, old(h.s))
    ensures all == [] ==> BlockOf(c.dns64Cidr).value !in h.s.routes
    ensures Concerns(c, node, SupportRoute) && c.dns64Cidr == c.supportCidr ==> all != []
  {
    hide StepInvariant, ParseAddress, MgmtAddress, HostsEdit.SingleLine, HostsEdit.IsStale, CalcNameServer,
      HostsReadable, IsGateway, FewGateways, Distinct, RemovedBy, MgmtAddrs, MappingHop;
    all := [];
    ghost var routes := h.s.routes;
    var err;
    err, o1 := RemoveRouteForDNS64(node, c, h);
    RemovedByIs(c, node, routes, BlockOf(c.dns64Cidr).value, o1);
    o2 := o1;
    if err != Nil {
      all := all + [DNS64Route];
    }
    if !node.isNAT64 && !node.isDNS64 {
      ghost var first := h.s.routes;
      err, o2 := RemoveRouteForNAT64(node, c, h);
      RemovedByIs(c, node, first, BlockOf(c.supportCidr).value, o2);
      if err != Nil {
        all := all + [SupportRoute];
      }
    }
  }

  lemma SettingsReport(c: Config, node: Node, all: seq<Removal>, a: State, b: State)
    requires Usable(c, node) && IsCluster(node)
    ensures
      (DropInFile in all || DropIn !in b.files) && (MgmtIP in all || MgmtAddrs(c, node) !! b.addrs)
      && (HostsTags in all || IsClean(HostMachine.HostsFile, b.files))
      && (ResolvTags in all || IsClean(HostMachine.ResolvConf, b.files))
      ==> RestGone(c, node, SETTINGS, all, b)
    ensures
      (DropInFile in all <==> DropIn !in a.files) && (MgmtIP in all <==> !(MgmtAddrs(c, node) <= a.addrs))
      && HostsTags !in all && ResolvTags !in all
      ==> ReportsMissing(c, node, SETTINGS, all, a)
  {
    hide Usable, MgmtAddrs, Untagged, Lines;
  }

  /** Drop-in file, management addresses and edited files. */
  method RemoveSettings(node: Node, c: Config, h: Host) returns (all: seq<Removal>)
    requires h.Valid() && Usable(c, node) && IsCluster(node) && FilesReady(h.s.files)
    modifies h
    ensures h.Valid() && h.Steady()
    ensures h.s == old(h.s).(addrs := h.s.addrs, files := h.s.files)
    ensures AddrsShrink(c, node, old(h.s.addrs), h.s.addrs)
              && (!h.stranded ==> FilesShrink(node, old(h.s.files), h.s.files))
    ensures ReportsOnly(c, node, SETTINGS, all) && RestGone(c, node, SETTINGS, all, h.s)
    ensures h.reliable ==> h.s.addrs == AddrsClean(c, node, old(h.s.addrs)) && h.s.files == FilesClean(old(h.s.files))
    ensures h.reliable ==> ReportsMissing(c, node, SETTINGS, all, old(h.s))
  {
    hide Usable, StepInvariant, Managed, Reverted, Untagged, Lines, MgmtAddrs, AddrsClean, BothReverted, Found, Gone,
      RestGone, ReportsMissing;
    all := [];
    var err := RemoveDropInFile(h);
    if err != Nil {
      all := all + [DropInFile];
    }
    err := RemoveManagementIP(node, c, h);
    if err != Nil {
      all := all + [MgmtIP];
    }
    var more := RevertFiles(node, h);
    all := all + more;
    SettingsReport(c, node, all, old(h.s), h.s);
  }

  lemma SameRouteReport(c: Config, node: Node, all: seq<Removal>, a: State, b: State)
    requires Usable(c, node) && b.routes == a.routes
    ensures ReportsMissing(c, node, ROUTES, all, b) ==> ReportsMissing(c, node, ROUTES, all, a)
  {
    hide Usable;
  }

  lemma NoRoutes(c: Config, node: Node, s: State)
    requires Usable(c, node)
    ensures c.mode != IPv6Only ==>
              ReportsOnly(c, node, ROUTES, []) && ReportsMissing(c, node, ROUTES, [], s)
              && forall b :: RestGone(c, node, ROUTES, [], b)
  {
    hide Usable;
  }

  /** All removals of a cluster node; the walks are those of RemoveRoutes. */
  method CleanupClusterNode(node: Node, c: Config, h: Host)
    returns (all: seq<Removal>, ghost o1: seq<string>, ghost o2: seq<string>)
    requires h.Valid() && Usable(c, node) && IsCluster(node) && FilesReady(h.s.files)
    modifies h
    ensures h.Valid() && h.Steady()
    ensures h.s == old(h.s).(addrs := h.s.addrs, routes := h.s.routes, files := h.s.files)
    ensures ShrinksOffFiles(c, node, old(h.s), h.s) && (!h.stranded ==> FilesShrink(node, old(h.s.files), h.s.files))
    ensures ReportsOnly(c, node, SETTINGS + ROUTES, all) && RestGone(c, node, SETTINGS + ROUTES, all, h.s)
    ensures h.reliable ==> h.s == ClusterClean(c, node, old(h.s)).(routes := h.s.routes)
    ensures h.reliable && !RoutesServers(c, node) ==> h.s.routes == old(h.s.routes)
    ensures h.reliable && FewGateways(c, node) ==> h.s == ClusterClean(c, node, old(h.s))
    ensures h.reliable && FewGateways(c, node) && RoutesApart(c, node) ==>
              ReportsMissing(c, node, SETTINGS + ROUTES, all, old(h.s))
    ensures IsOrder(c, o1) && IsOrder(c, o2)
    ensures h.reliable && RoutesServers(c, node) ==> h.s.routes == RoutesCleanBy(c, node, old(h.s.routes), o1, o2)
    ensures all == [] && c.mode == IPv6Only ==> BlockOf(c.dns64Cidr).value !in h.s.routes
    ensures Concerns(c, node, SupportRoute) && c.dns64Cidr == c.supportCidr ==> all != []
  {
    hide Usable, StepInvariant, Doomed, Managed, Reverted, Untagged, Lines, MgmtAddrs, AddrsClean, RoutesApart,
      FilesClean, FilesShrink, RestGone, ReportsMissing, ReportsOnly, Distinct, RoutesCleanBy, BlockOf;
    ghost var s0 := h.s;
    o1 := Enumerate(c.topology.Keys);
    o2 := o1;
    all := RemoveSettings(node, c, h);
    ghost var s1 := h.s;
    var more: seq<Removal> := [];
    NoRoutes(c, node, s0);
    if c.mode == IPv6Only {
      more, o1, o2 := RemoveRoutes(node, c, h);
      GoneStays(c, node, SETTINGS, all, s1, h.s);
      SameRouteReport(c, node, more, s0, s1);
    }
    ReportsJoin(c, node, SETTINGS, ROUTES, all, more, s0, h.s);
    all := all + more;
  }

  /** What the reports on the servers' parts amount to. */
  lemma DNSReport(c: Config, node: Node, all: seq<Removal>, a: State, b: State)
    requires Usable(c, node) && Concerns(c, node, DNS64Container) && forall r <- all :: r in DNS_PART
    ensures ReportsOnly(c, node, DNS_PART, all)
    ensures (DNS64Container in all || b.dns64 == Absent) && (DNS64Config in all || b.volume == NoVolume)
            ==> RestGone(c, node, DNS_PART, all, b)
    ensures (DNS64Container in all <==> a.dns64 == Absent) && (DNS64Config in all <==> a.volume == NoVolume)
            ==> ReportsMissing(c, node, DNS_PART, all, a)
  {
    hide Usable;
  }

  lemma NATReport(c: Config, node: Node, all: seq<Removal>, a: State, b: State)
    requires Usable(c, node) && Concerns(c, node, MappingRoute) && forall r <- all :: r in NAT_PART
    ensures c.v4MappingCidr.Net? && ParseAddress(c.v4MappingIP).Some?
    ensures var dest, hop := BlockOf(c.v4MappingCidr).value, MappingHop(c);
            && ReportsOnly(c, node, NAT_PART, all)
            && ((MappingRoute in all || !HasRoute(b, dest, hop)) && (NAT64Container in all || b.nat64 == Absent)
                ==> RestGone(c, node, NAT_PART, all, b))
            && ((MappingRoute in all <==> !HasRoute(a, dest, hop)) && (NAT64Container in all <==> a.nat64 == Absent)
                ==> ReportsMissing(c, node, NAT_PART, all, a))
  {
    hide ParseAddress, MgmtAddress, HostsEdit.SingleLine, HostsEdit.IsStale, CalcNameServer, HostsReadable, HasRoute,
      BlockOf;
  }

  lemma ContainersShrink(c: Config, node: Node, a: State, b: State)
    requires Usable(c, node) && Concerns(c, node, DNS64Container)
    requires b == a.(dns64 := b.dns64, volume := b.volume)
    requires (b.dns64 == a.dns64 || b.dns64 == Absent) && (b.volume == a.volume || b.volume == NoVolume)
    ensures ShrinksOffFiles(c, node, a, b)
  {
    hide Usable, Doomed, MgmtAddrs;
  }

  lemma MappingShrinks(c: Config, node: Node, a: State, b: State)
    requires Usable(c, node) && Concerns(c, node, MappingRoute)
    requires b == a.(nat64 := b.nat64, routes := b.routes) && (b.nat64 == a.nat64 || b.nat64 == Absent)
    requires c.v4MappingCidr.Net? && ParseAddress(c.v4MappingIP).Some? ==>
               b.routes == a.routes || b.routes == WithoutRoute(a.routes, BlockOf(c.v4MappingCidr).value, MappingHop(c))
    ensures ShrinksOffFiles(c, node, a, b)
  {
    hide ParseAddress, MgmtAddress, HostsEdit.SingleLine, HostsEdit.IsStale, CalcNameServer, HostsReadable, MgmtAddrs,
      Wanted, IsGateway, BlockOf;
  }

  /** The volume is tried even when the container could not be removed. */
  method CleanupDNS64Server(node: Node, c: Config, h: Host) returns (all: seq<Removal>)
    requires h.Valid() && Usable(c, node) && Concerns(c, node, DNS64Container)
    modifies h
    ensures h.Valid() && h.OffFiles() && h.s == old(h.s).(dns64 := h.s.dns64, volume := h.s.volume)
    ensures ShrinksOffFiles(c, node, old(h.s), h.s)
    ensures ReportsOnly(c, node, DNS_PART, all) && RestGone(c, node, DNS_PART, all, h.s)
    ensures h.reliable ==> h.s.dns64 == Absent && h.s.volume == NoVolume
    ensures h.reliable ==> ReportsMissing(c, node, DNS_PART, all, old(h.s))
  {
    hide Usable, StepInvariant, ShrinksOffFiles, ReportsOnly, RestGone, ReportsMissing;
    all := [];
    var err := RemoveContainer(DNS64, h);
    if err != Nil {
      all := all + [DNS64Container];
    }
    var status := h.ResourceState(DNS64Volume);
    if status == NotPresent {
      all := all + [DNS64Config];
    } else {
      err := h.DeleteVolume();
      if err != Nil {
        all := all + [DNS64Config];
      }
    }
    ContainersShrink(c, node, old(h.s), h.s);
    DNSReport(c, node, all, old(h.s), h.s);
  }

  method CleanupNAT64Server(node: Node, c: Config, h: Host) returns (all: seq<Removal>)
    requires h.Valid() && Usable(c, node) && Concerns(c, node, MappingRoute)
    modifies h
    ensures h.Valid() && h.OffFiles() && h.s == old(h.s).(nat64 := h.s.nat64, routes := h.s.routes)
    ensures ShrinksOffFiles(c, node, old(h.s), h.s)
    ensures ReportsOnly(c, node, NAT_PART, all) && RestGone(c, node, NAT_PART, all, h.s)
    ensures h.reliable ==>
              h.s.nat64 == Absent
                && h.s.routes == WithoutRoute(old(h.s.routes), BlockOf(c.v4MappingCidr).value, MappingHop(c))
    ensures h.reliable ==> ReportsMissing(c, node, NAT_PART, all, old(h.s))
    ensures all == [] ==> BlockOf(c.v4MappingCidr).value in old(h.s.routes)
  {
    hide ParseAddress, Usable, StepInvariant, ShrinksOffFiles, ReportsOnly, RestGone, ReportsMissing;
    all := [];
    NATReport(c, node, all, h.s, h.s);
    var err := h.DeleteRoute(BlockOf(c.v4MappingCidr), ParseAddress(c.v4MappingIP), Support);
    if err != Nil {
      all := all + [MappingRoute];
    }
    err := RemoveContainer(NAT64, h);
    if err != Nil {
      all := all + [NAT64Container];
    }
    MappingShrinks(c, node, old(h.s), h.s);
    NATReport(c, node, all, old(h.s), h.s);
  }

  lemma MissingNAT64(c: Config, node: Node, all: seq<Removal>, a: State, b: State)
    requires Usable(c, node) && b.nat64 == a.nat64 && b.routes == a.routes
    ensures ReportsMissing(c, node, NAT_PART, all, b) ==> ReportsMissing(c, node, NAT_PART, all, a)
  {
    hide Usable;
  }

  lemma NetworkShrinks(c: Config, node: Node, a: State, b: State)
    requires Usable(c, node) && ServesIPv6(c, node) && (b == a || b == WithoutNetwork(a))
    ensures ShrinksOffFiles(c, node, a, b)
  {
    hide Usable, MappingHop, MgmtAddrs, BlockOf;
  }

  lemma NetworkReport(c: Config, node: Node, all: seq<Removal>, a: State, b: State)
    requires Usable(c, node) && ServesIPv6(c, node) && (all == [] || all == [SupportNetwork])
    ensures ReportsOnly(c, node, {SupportNetwork}, all)
    ensures (all == [] ==> !b.net) ==> RestGone(c, node, {SupportNetwork}, all, b)
    ensures (all == [] <==> a.net) ==> ReportsMissing(c, node, {SupportNetwork}, all, a)
  {
    hide Usable;
  }

  lemma NothingToReport(c: Config, node: Node, s: State)
    requires Usable(c, node)
    ensures ShrinksOffFiles(c, node, s, s)
    ensures !IsServer(node) ==>
              ReportsOnly(c, node, SERVERS, []) && RestGone(c, node, SERVERS, [], s)
                && ReportsMissing(c, node, SERVERS, [], s)
  {
    hide Usable, MgmtAddrs, Doomed;
  }

  /** The route to the NAT64 pool goes over the bridge, so it would have gone with it anyway. */
  lemma RoutesGoWithNetwork(c: Config, node: Node, routes: map<Block, Hop>, s: State)
    requires Usable(c, node) && ServesIPv6(c, node)
    requires s.routes == WithoutRoute(routes, BlockOf(c.v4MappingCidr).value, MappingHop(c))
    ensures WithoutNetwork(s).routes == WithoutNetwork(s.(routes := routes)).routes
  {
    hide ParseAddress, MgmtAddress, HostsEdit.SingleLine, HostsEdit.IsStale, CalcNameServer, HostsReadable;
    var t, u := WithoutNetwork(s).routes, WithoutNetwork(s.(routes := routes)).routes;
    forall d: Block ensures (d in t <==> d in u) && (d in t ==> t[d] == u[d]) {
    }
  }

  /** The servers' part, in IPv6 mode. */
  method CleanupServers(node: Node, c: Config, h: Host) returns (all: seq<Removal>)
    requires h.Valid() && Usable(c, node) && c.mode == IPv6Only
    modifies h
    ensures h.Valid() && h.OffFiles() && h.s.files == old(h.s.files)
    ensures ShrinksOffFiles(c, node, old(h.s), h.s)
    ensures ReportsOnly(c, node, SERVERS, all) && RestGone(c, node, SERVERS, all, h.s)
    ensures h.reliable ==> h.s == ServersClean(c, node, old(h.s))
    ensures h.reliable ==> ReportsMissing(c, node, SERVERS, all, old(h.s))
    ensures all == [] && node.isNAT64 ==> BlockOf(c.v4MappingCidr).value in old(h.s.routes)
  {
    assert node.isDNS64 == node.isNAT64;
    hide Usable, StepInvariant, ShrinksOffFiles, BlockOf, MappingHop, RestGone, ReportsMissing, ReportsOnly;
    ghost var s0 := h.s;
    NothingToReport(c, node, s0);
    all := [];
    if node.isDNS64 {
      all := CleanupDNS64Server(node, c, h);
    }
    ghost var s1 := h.s;
    if node.isNAT64 {
      var more := CleanupNAT64Server(node, c, h);
      GoneStays(c, node, DNS_PART, all, s1, h.s);
      ShrinksOffFilesTransitive(c, node, s0, s1, h.s);
      MissingNAT64(c, node, more, s0, s1);
      ReportsJoin(c, node, DNS_PART, NAT_PART, all, more, s0, h.s);
      all := all + more;
    }
    ghost var s2 := h.s;
    if node.isDNS64 || node.isNAT64 {
      var err := CleanupSupportNetwork(h);
      NetworkShrinks(c, node, s2, h.s);
      GoneStays(c, node, DNS_PART + NAT_PART, all, s2, h.s);
      ShrinksOffFilesTransitive(c, node, s0, s2, h.s);
      var more := if err != Nil then [SupportNetwork] else [];
      NetworkReport(c, node, more, s0, h.s);
      ReportsJoin(c, node, DNS_PART + NAT_PART, {SupportNetwork}, all, more, s0, h.s);
      all := all + more;
      if h.reliable { RoutesGoWithNetwork(c, node, s0.routes, s2); }
    }
  }

  lemma NothingElse(c: Config, node: Node, s: State)
    requires Usable(c, node)
    ensures ShrinksOffFiles(c, node, s, s)
    ensures !IsCluster(node) ==>
              ReportsOnly(c, node, SETTINGS + ROUTES, []) && RestGone(c, node, SETTINGS + ROUTES, [], s)
    ensures !IsCluster(node) ==> ReportsMissing(c, node, SETTINGS + ROUTES, [], s)
  {
    hide Usable, MgmtAddrs, Doomed;
  }

  lemma NoServers(c: Config, node: Node, a: State, b: State)
    requires Usable(c, node) && c.mode != IPv6Only
    ensures ReportsOnly(c, node, SERVERS, []) && RestGone(c, node, SERVERS, [], b)
              && ReportsMissing(c, node, SERVERS, [], a)
  {
    hide Usable;
  }

  lemma ServersCleanRoutes(c: Config, node: Node, x: State, y: State)
    ensures y == x.(routes := y.routes) ==>
              ServersClean(c, node, y) == ServersClean(c, node, x).(routes := ServersClean(c, node, y).routes)
    ensures c.mode != IPv6Only ==> ServersClean(c, node, x) == x && ServersClean(c, node, y) == y
  {
  }

  /** How two routes to be deleted can share a destination. */
  lemma NotApart(c: Config, node: Node)
    requires Usable(c, node) && !RoutesApart(c, node)
    ensures IsCluster(node) && c.mode == IPv6Only
    ensures (Concerns(c, node, SupportRoute) && c.dns64Cidr == c.supportCidr)
            || (node.isNAT64 && c.v4MappingCidr.Net? && BlockOf(c.dns64Cidr).value == BlockOf(c.v4MappingCidr).value)
  {
    hide HostsEdit.SingleLine, HostsEdit.IsStale, MgmtAddress, HostsReadable, ParseAddress, CalcNameServer;
  }

  lemma NothingServed(c: Config, node: Node, s: State)
    requires !IsServer(node)
    ensures ServersClean(c, node, s) == s
  {
  }

  /** "clean" on one node. Whatever calls fail: nothing but what clean is to remove is
      changed, and every resource whose removal is not reported as failed is gone. Without
      failing calls the target is reached, but for routes over one of several NAT64 hosts;
      with no such choice all of it, and exactly what was not there is reported. Where two
      routes to be deleted share a destination, something is reported whatever happens. */
  method Cleanup(name: string, c: Config, h: Host)
    returns (all: seq<Removal>, ghost o1: seq<string>, ghost o2: seq<string>)
    requires h.Valid() && name in c.topology
    requires Usable(c, c.topology[name]) && Ready(c.topology[name], h.s)
    modifies h
    ensures h.Valid() && h.Steady()
    ensures ShrinksOffFiles(c, c.topology[name], old(h.s), h.s)
    ensures !h.stranded ==> FilesShrink(c.topology[name], old(h.s.files), h.s.files)
    ensures ReportsOnly(c, c.topology[name], SETTINGS + ROUTES + SERVERS, all)
    ensures RestGone(c, c.topology[name], SETTINGS + ROUTES + SERVERS, all, h.s)
    ensures h.reliable ==> h.s == CleanTarget(c, c.topology[name], old(h.s)).(routes := h.s.routes)
    ensures h.reliable && FewGateways(c, c.topology[name]) ==> h.s == CleanTarget(c, c.topology[name], old(h.s))
    ensures h.reliable && FewGateways(c, c.topology[name]) && RoutesApart(c, c.topology[name]) ==>
              ReportsMissing(c, c.topology[name], SETTINGS + ROUTES + SERVERS, all, old(h.s))
    ensures !RoutesApart(c, c.topology[name]) ==> all != []
    // without servers the routes left are what two walks of the topology leave
    ensures IsOrder(c, o1) && IsOrder(c, o2)
    ensures h.reliable && RoutesServers(c, c.topology[name]) && !IsServer(c.topology[name]) ==>
              h.s.routes == RoutesCleanBy(c, c.topology[name], old(h.s.routes), o1, o2)
  {
    hide Usable, StepInvariant, FilesClean, FilesReady, RoutesApart, WithoutNetwork, CleanTarget, ClusterRoutesClean,
      AddrsClean, ShrinksOffFiles, RestGone, ReportsMissing, ReportsOnly, FewGateways, ServersClean, RoutesCleanBy,
      BlockOf, Distinct;
    var node := c.topology[name];
    ghost var s0 := h.s;
    all := [];
    o1 := Enumerate(c.topology.Keys);
    o2 := o1;
    NothingElse(c, node, s0);
    if node.isMaster || node.isMinion {
      all, o1, o2 := CleanupClusterNode(node, c, h);
    }
    PartsGiveTarget(c, node, s0);
    ghost var s1 := h.s;
    ServersCleanRoutes(c, node, if IsCluster(node) then ClusterClean(c, node, s0) else s0, s1);
    var more: seq<Removal> := [];
    if c.mode == IPv6Only {
      more := CleanupServers(node, c, h);
      GoneStays(c, node, SETTINGS + ROUTES, all, s1, h.s);
      ShrinksOffFilesTransitive(c, node, s0, s1, h.s);
      if h.reliable && IsCluster(node) && RoutesApart(c, node) && FewGateways(c, node) {
        ServersUntouched(c, node, more, s0, s1);
      }
    } else {
      NoServers(c, node, s0, s1);
    }
    ReportsJoin(c, node, SETTINGS + ROUTES, SERVERS, all, more, s0, h.s);
    if !RoutesApart(c, node) { NotApart(c, node); }
    if !IsServer(node) { NothingServed(c, node, s1); }
    all := all + more;
  }
}
