/** The steps of "prepare" (prepare.go). Every method says two things: where it succeeds, it
    has brought about its target; however it stops, the target is still the same, so that
    another run gets there. */
module Prepare {
  import opened Wrappers
  import opened Tags
  import opened AddressText
  import opened NodeAddresses
  import opened Configs
  import opened HostMachine
  import opened NodePlan
  import opened NodeList
  import opened Gateways
  import opened SaveFile
  import HostsEdit = HostsFile
  import ResolvEdit = ResolvConf

  // ------------------------------------------------------------ support network and servers

  method CreateSupportNetwork(h: Host) returns (err: Error)
    requires h.Valid()
    modifies h
    ensures h.Valid() && h.OffFiles()
    ensures h.s == old(h.s) || h.s == old(h.s).(net := true)
    ensures err == Nil || err == Skipping ==> h.s == old(h.s).(net := true)
    ensures h.reliable ==> err == Nil || err == Skipping
  {
    var status := h.ResourceState(SupportNet);
    if status == Present {
      return Skipping;
    }
    err := h.CreateNetwork();
  }

  /** Only called without a DNS64 container, unless an inspect call failed. */
  method CreateConfigForDNS64(c: Config, h: Host) returns (err: Error)
    requires h.Valid() && h.namedConf == c.namedConf
    requires h.s.dns64 == Absent || h.misreported
    modifies h
    ensures h.Valid() && h.OffFiles() && h.misreported == old(h.misreported)
    ensures err == Nil || err == Failed
    ensures h.s == old(h.s).(volume := h.s.volume)
    ensures err == Nil ==> h.s.volume == Volume(Some(c.namedConf)) && !h.s.dns64.Running?
    ensures h.reliable && h.s.dns64 == Absent ==> err == Nil
  {
    err := h.DeleteVolume();
    if err != Nil {
      return Failed;
    }
    err := h.CreateVolume();
    if err != Nil {
      return Failed;
    }
    err := h.GetVolumeMountPoint();
    if err != Nil {
      return Failed;
    }
    err := h.WriteNamedConf(c.namedConf);
    if err != Nil {
      return Failed;
    }
  }

  method EnsureDNS64Server(c: Config, h: Host) returns (err: Error)
    requires h.Valid() && h.namedConf == c.namedConf && h.s.net
    modifies h
    ensures h.Valid() && h.OffFiles()
    ensures h.s == old(h.s).(dns64 := h.s.dns64, volume := h.s.volume)
    ensures err == Nil || err == Skipping ==> h.s.dns64.Running?
    ensures h.reliable ==> err == Nil || err == Skipping
  {
    var status := h.ResourceState(DNS64);
    if status == Active {
      return Skipping;
    }
    if status == Present {
      err := h.DeleteContainer(DNS64);
      if err != Nil {
        return Failed;
      }
    }
    err := CreateConfigForDNS64(c, h);
    if err != Nil {
      return err;
    }
    err := h.RunContainer(DNS64);
  }

  method RemoveIPv4AddressOnDNS64Server(h: Host) returns (err: Error)
    requires h.Valid()
    modifies h
    ensures h.Valid() && h.OffFiles()
    ensures h.s == old(h.s) || (old(h.s.dns64.Running?) && h.s == old(h.s).(dns64 := old(h.s.dns64).(hasV4 := false)))
    ensures err == Nil || err == NoIPv4 ==> h.s.dns64.Running? && !h.s.dns64.hasV4
    ensures h.reliable && old(h.s.dns64.Running?) ==> err == Nil || err == NoIPv4
  {
    var hasV4;
    hasV4, err := h.GetInterfaceConfig();
    if err != Nil {
      return Failed;
    }
    if !hasV4 {
      return NoIPv4;
    }
    err := h.DeleteV4Address();
  }

  method AddRouteForDNS64Network(h: Host) returns (err: Error)
    requires h.Valid() && h.s.dns64.Running?
    modifies h
    ensures h.Valid() && h.OffFiles()
    ensures h.s == old(h.s) || h.s == old(h.s).(dns64 := old(h.s.dns64).(hasRoute := true))
    ensures err == Nil || err == Skipping ==> h.s == old(h.s).(dns64 := old(h.s.dns64).(hasRoute := true))
    ensures h.reliable ==> err == Nil || err == Skipping
  {
    err := h.AddV6Route();
    if err == Exists {
      err := Skipping;
    }
  }

  method PrepareDNS64Server(c: Config, h: Host) returns (err: Error)
    requires h.Valid() && h.namedConf == c.namedConf && h.s.net
    modifies h
    ensures h.Valid() && h.OffFiles()
    ensures h.s == old(h.s).(dns64 := h.s.dns64, volume := h.s.volume)
    ensures err == Nil ==> h.s == DNS64Target(c, old(h.s))
    ensures h.reliable ==> err == Nil
  {
    err := EnsureDNS64Server(c, h);
    if err != Nil && err != Skipping {
      return;
    }
    err := RemoveIPv4AddressOnDNS64Server(h);
    if err != Nil && err != NoIPv4 {
      return;
    }
    err := AddRouteForDNS64Network(h);
    if err != Nil && err != Skipping {
      return;
    }
    err := Nil;
  }

  method EnsureNAT64Server(h: Host) returns (err: Error)
    requires h.Valid() && h.s.net
    modifies h
    ensures h.Valid() && h.OffFiles()
    ensures h.s == old(h.s).(nat64 := h.s.nat64)
    ensures old(h.s.nat64.Running?) ==> h.s == old(h.s)
    ensures h.s.nat64.Running? && !old(h.s.nat64.Running?) ==> h.s.nat64 == Running(true, false)
    ensures err == Nil || err == Skipping ==> h.s.nat64.Running?
    ensures h.reliable ==> err == Nil || err == Skipping
  {
    var status := h.ResourceState(NAT64);
    if status == Active {
      return Skipping;
    }
    if status == Present {
      err := h.DeleteContainer(NAT64);
      if err != Nil {
        return Failed;
      }
    }
    err := h.RunContainer(NAT64);
  }

  method EnsureRouteToNAT64(c: Config, h: Host) returns (err: Error)
    requires h.Valid() && h.s.net && c.v4MappingCidr.Net? && ParseAddress(c.v4MappingIP).Some?
    modifies h
    ensures h.Valid() && h.OffFiles()
    ensures var added := AddIfAbsent(old(h.s.routes), BlockOf(c.v4MappingCidr).value, MappingHop(c));
            && (h.s == old(h.s) || h.s == old(h.s).(routes := added))
            && (err == Nil || err == Skipping ==> h.s == old(h.s).(routes := added))
    ensures h.reliable ==> err == Nil || err == Skipping
  {
    hide ParseAddress;
    err := h.AddRoute(BlockOf(c.v4MappingCidr), ParseAddress(c.v4MappingIP), Support);
    if err == Exists {
      err := Skipping;
    }
  }

  method PrepareNAT64Server(c: Config, h: Host) returns (err: Error)
    requires h.Valid() && h.s.net && c.v4MappingCidr.Net? && ParseAddress(c.v4MappingIP).Some?
    modifies h
    ensures h.Valid() && h.OffFiles()
    ensures h.s == old(h.s).(nat64 := h.s.nat64, routes := h.s.routes)
    ensures NAT64Target(c, h.s) == NAT64Target(c, old(h.s))
    ensures err == Nil ==> h.s == NAT64Target(c, old(h.s))
    ensures h.reliable ==> err == Nil
  {
    hide ParseAddress;
    err := EnsureNAT64Server(h);
    if err != Nil && err != Skipping {
      return;
    }
    err := EnsureRouteToNAT64(c, h);
    if err != Nil && err != Skipping {
      return;
    }
    err := Nil;
  }

  // ------------------------------------------------------------ cluster nodes

  /** What a step of the cluster part promises, beyond what it does itself. */
  twostate predicate Progress(c: Config, node: Node, h: Host)
    requires Usable(c, node) && IsCluster(node) && FilesReady(old(h.s.files))
    reads h
  {
    h.Valid() && h.Steady() && (!h.stranded ==> Stays(c, node, old(h.s), h.s))
  }

  method ConfigureManagementInterface(node: Node, c: Config, h: Host) returns (err: Error)
    requires h.Valid() && Usable(c, node) && IsCluster(node)
    modifies h
    ensures h.Valid() && h.OffFiles()
    ensures h.s == old(h.s).(addrs := h.s.addrs, mtus := h.s.mtus)
    ensures old(h.s.addrs) <= h.s.addrs <= old(h.s.addrs) + MgmtAddrs(c, node)
    ensures InOrder(c, node, old(h.s.addrs)) ==> InOrder(c, node, h.s.addrs)
    ensures h.s.mtus == old(h.s.mtus) || h.s.mtus == old(h.s.mtus)[node.link := c.podMTU]
    ensures err == Nil ==>
              h.s == old(h.s).(addrs := old(h.s.addrs) + MgmtAddrs(c, node),
                mtus := old(h.s.mtus)[node.link := c.podMTU])
    ensures h.reliable ==> err == Nil
  {
    hide HostsReadable, ParseAddress, MgmtAddress, HostsEdit.SingleLine, HostsEdit.IsStale, CalcNameServer;
    err := h.AddAddressToLink(MgmtAddress(c, node, 0));
    if err != Nil {
      return;
    }
    if c.mode == DualStack {
      err := h.AddAddressToLink(MgmtAddress(c, node, 1));
      if err != Nil {
        return;
      }
    }
    err := h.SetLinkMTU(node.link, c.podMTU);
  }

  method AddHostEntries(c: Config, node: Node, h: Host) returns (err: Error)
    requires h.Valid() && Usable(c, node) && IsCluster(node) && FilesReady(h.s.files) && !h.stranded
    modifies h
    ensures Progress(c, node, h)
    ensures err == Nil ==> !h.stranded && h.s == old(h.s).(files := old(h.s.files)[HostMachine.HostsFile :=
                             HostsEdit.Updated(old(h.s.files)[HostMachine.HostsFile], NodeInfos(c))])
    ensures h.reliable ==> err == Nil
  {
    hide Managed, HostsEdit.Updated, ResolvEdit.Updated, HostsEdit.IsStale, HostsEdit.SingleLine, HostsReadable,
      Wanted, IsGateway, Grown, InOrder, ParseAddress, MgmtAddress, CalcNameServer, MgmtAddrs, FilesTarget, Stays,
      StepInvariant, DropInText;
    var nodes := BuildNodeInfo(c);
    var contents;
    contents, err := h.ReadFile(HostMachine.HostsFile);
    if err != Nil {
      FilesStay(c, node, old(h.s), h.s);
      return Failed;
    }
    HostsEditKeepsTarget(c, node, h.s.files);
    contents := HostsEdit.UpdateHostsInfo(contents, nodes);
    err := SaveFileContents(contents, HostMachine.HostsFile, h);
    if !h.stranded { FilesStay(c, node, old(h.s), h.s); }
  }

  method AddResolvConfEntry(node: Node, c: Config, h: Host) returns (err: Error)
    requires h.Valid() && Usable(c, node) && IsCluster(node) && FilesReady(h.s.files) && !h.stranded
    modifies h
    ensures Progress(c, node, h)
    ensures err == Nil ==> !h.stranded && h.s == old(h.s).(files := old(h.s.files)[HostMachine.ResolvConf :=
                             ResolvEdit.Updated(old(h.s.files)[HostMachine.ResolvConf], CalcNameServer(c, node))])
    ensures h.reliable ==> err == Nil
  {
    hide Managed, HostsEdit.Updated, ResolvEdit.Updated, HostsEdit.IsStale, HostsEdit.SingleLine, HostsReadable,
      Wanted, IsGateway, Grown, InOrder, ParseAddress, MgmtAddress, CalcNameServer, MgmtAddrs, FilesTarget, Stays,
      StepInvariant, DropInText;
    var contents;
    contents, err := h.ReadFile(HostMachine.ResolvConf);
    if err != Nil {
      FilesStay(c, node, old(h.s), h.s);
      return Failed;
    }
    ResolvEditKeepsTarget(c, node, h.s.files);
    var nameserver := CalcNameServer(c, node);
    contents := ResolvEdit.UpdateResolvConfInfo(contents, nameserver);
    err := SaveFileContents(contents, HostMachine.ResolvConf, h);
    if !h.stranded { FilesStay(c, node, old(h.s), h.s); }
  }

  method CreateKubeletDropInFile(c: Config, node: Node, h: Host) returns (err: Error)
    requires h.Valid() && Usable(c, node) && IsCluster(node) && FilesReady(h.s.files) && !h.stranded
    modifies h
    ensures Progress(c, node, h) && !h.stranded
    ensures err == Nil ==> h.s == old(h.s).(files := old(h.s.files)[DropIn := DropInText(c)])
    ensures h.reliable ==> err == Nil
  {
    hide Managed, HostsEdit.Updated, ResolvEdit.Updated, HostsEdit.IsStale, HostsEdit.SingleLine, HostsReadable,
      Wanted, IsGateway, Grown, InOrder, ParseAddress, MgmtAddress, CalcNameServer, MgmtAddrs, FilesTarget, Stays,
      StepInvariant, DropInText;
    err := h.WriteFile(DropIn, DropInText(c));
    WrittenFilesKeepTarget(c, node, old(h.s.files), h.s.files);
    FilesStay(c, node, old(h.s), h.s);
  }

  method CreateKubeAdmConfigFile(node: Node, c: Config, h: Host) returns (err: Error)
    requires h.Valid() && Usable(c, node) && IsCluster(node) && FilesReady(h.s.files) && !h.stranded
    requires node.isMaster
    modifies h
    ensures Progress(c, node, h)
    ensures err == Nil ==> !h.stranded && h.s == old(h.s).(files := old(h.s.files)[KubeAdmConf := c.kubeadmConf])
    ensures h.reliable ==> err == Nil
  {
    hide Managed, HostsEdit.Updated, ResolvEdit.Updated, HostsEdit.IsStale, HostsEdit.SingleLine, HostsReadable,
      Wanted, IsGateway, Grown, InOrder, ParseAddress, MgmtAddress, CalcNameServer, MgmtAddrs, FilesTarget, Stays,
      StepInvariant, DropInText;
    err := SaveFileContents(c.kubeadmConf, KubeAdmConf, h);
    WrittenFilesKeepTarget(c, node, old(h.s.files), h.s.files);
    FilesStay(c, node, old(h.s), h.s);
  }

  /** Over the support bridge on the NAT64 node, elsewhere over the host met first; without one
      nothing is done. A route that is there already is not an error. */
  method CreateRouteToNAT64ServerForDNS64Subnet(node: Node, c: Config, h: Host)
    returns (err: Error, ghost order: seq<string>)
    requires h.Valid() && Usable(c, node) && RoutesServers(c, node) && (node.isNAT64 ==> h.s.net)
    modifies h
    ensures h.Valid() && h.OffFiles() && IsOrder(c, order)
    ensures match GatewayBy(c, node, order)
            case None => err == Failed && h.s == old(h.s)
            case Some(g) =>
              var added := AddIfAbsent(old(h.s.routes), BlockOf(c.dns64Cidr).value, g);
              && (h.s == old(h.s) || h.s == old(h.s).(routes := added))
              && (err == Nil ==> h.s == old(h.s).(routes := added))
              && (h.reliable ==> err == Nil)
  {
    hide ParseAddress, MgmtAddress, HostsEdit.SingleLine, HostsEdit.IsStale, CalcNameServer, HostsReadable,
      FirstHostIP;
    var dest := BlockOf(c.dns64Cidr);
    if node.isNAT64 {
      order := Enumerate(c.topology.Keys);
      err := h.AddRoute(dest, ParseAddress(c.nat64ServerIP), Support);
    } else {
      var gw, ok;
      gw, ok, order := FindHostIPForNAT64(c);
      if !ok {
        return Failed, order;
      }
      FoundIsReadable(c, order);
      err := h.AddRoute(dest, ParseAddress(gw), Named(node.link));
    }
    if err == Exists {
      err := Nil;
    }
  }

  lemma FoundIsReadable(c: Config, order: seq<string>)
    requires |c.mgmtInfo| == 2 && IsOrder(c, order) && HostsReadable(c)
    ensures FirstHostIP(c, order).Some? ==> ParseAddress(FirstHostIP(c, order).value).Some?
  {
    hide ParseAddress, HostIPOf;
    FoundIsHost(c, order);
  }

  /** On nodes without servers, over the host met first on this walk. */
  method CreateRouteToSupportNetworkForOtherNodes(node: Node, c: Config, h: Host)
    returns (err: Error, ghost order: seq<string>)
    requires h.Valid() && Usable(c, node) && RoutesServers(c, node)
    modifies h
    ensures h.Valid() && h.OffFiles() && IsOrder(c, order)
    ensures IsServer(node) ==> err == Nil && h.s == old(h.s)
    ensures !IsServer(node) ==>
      match GatewayBy(c, node, order)
      case None => err == Failed && h.s == old(h.s)
      case Some(g) =>
        var added := AddIfAbsent(old(h.s.routes), BlockOf(c.supportCidr).value, g);
        && (h.s == old(h.s) || h.s == old(h.s).(routes := added))
        && (err == Nil ==> h.s == old(h.s).(routes := added))
        && (h.reliable ==> err == Nil)
  {
    hide ParseAddress, MgmtAddress, HostsEdit.SingleLine, HostsEdit.IsStale, CalcNameServer, HostsReadable,
      FirstHostIP;
    err := Nil;
    order := Enumerate(c.topology.Keys);
    if !node.isNAT64 && !node.isDNS64 {
      var gw, ok;
      gw, ok, order := FindHostIPForNAT64(c);
      if !ok {
        return Failed, order;
      }
      FoundIsReadable(c, order);
      err := h.AddRoute(BlockOf(c.supportCidr), ParseAddress(gw), Named(node.link));
      if err == Exists {
        err := Nil;
      }
    }
  }

  // ------------------------------------------------------------ whole runs

  /** The file edits of a cluster node. */
  method EditFiles(node: Node, c: Config, h: Host) returns (err: Error)
    requires h.Valid() && Usable(c, node) && IsCluster(node) && FilesReady(h.s.files) && !h.stranded
    modifies h
    ensures Progress(c, node, h)
    ensures err == Nil ==> !h.stranded && h.s == old(h.s).(files := FilesTarget(c, node, old(h.s.files)))
    ensures h.reliable ==> err == Nil
  {
    hide Managed, HostsEdit.Updated, ResolvEdit.Updated, HostsEdit.IsStale, HostsEdit.SingleLine, HostsReadable,
      Wanted, IsGateway, Grown, InOrder, ParseAddress, MgmtAddress, CalcNameServer, StepInvariant, DropInText, Stays,
      SettingsTarget, MgmtAddrs;
    ghost var s0 := h.s;
    err := AddHostEntries(c, node, h);
    if err != Nil {
      return;
    }
    ghost var s1 := h.s;
    StaysIs(c, node, s0, s1);
    err := AddResolvConfEntry(node, c, h);
    if !h.stranded { StaysTransitive(c, node, s0, s1, h.s); }
    if err != Nil {
      return;
    }
    ghost var s2 := h.s;
    StaysIs(c, node, s1, s2);
    err := CreateKubeletDropInFile(c, node, h);
    StaysTransitive(c, node, s0, s2, h.s);
    if err != Nil {
      return;
    }
    if node.isMaster {
      ghost var s3 := h.s;
      err := CreateKubeAdmConfigFile(node, c, h);
      if !h.stranded { StaysTransitive(c, node, s0, s3, h.s); }
    }
  }

  /** Edits the node's addresses, files and routes. Without a NAT64 host to route to it fails
      once the rest is done. */
  method PrepareClusterNode(node: Node, c: Config, h: Host) returns (err: Error)
    requires h.Valid() && Usable(c, node) && IsCluster(node) && FilesReady(h.s.files) && !h.stranded
    requires c.mode == IPv6Only && node.isNAT64 ==> h.s.net
    modifies h
    ensures Progress(c, node, h)
    ensures err == Nil ==> !h.stranded && h.s == SettingsTarget(c, node, old(h.s)).(routes := h.s.routes)
                           && Routed(c, node, old(h.s.routes), h.s.routes)
    ensures h.reliable ==> (err == Nil <==> HasGateway(c, node))
    ensures h.reliable && !HasGateway(c, node) ==> h.s == SettingsTarget(c, node, old(h.s))
  {
    hide Usable, FilesReady, FilesTarget, ParseAddress, StepInvariant, Stays, MgmtAddrs, Wanted, IsGateway, Grown,
      InOrder;
    ghost var s0 := h.s;
    err := ConfigureManagementInterface(node, c, h);
    LinkStays(c, node, s0, h.s);
    StaysIs(c, node, s0, h.s);
    if err != Nil {
      return;
    }
    ghost var s1 := h.s;
    err := EditFiles(node, c, h);
    if !h.stranded {
      StaysTransitive(c, node, s0, s1, h.s);
      StaysIs(c, node, s0, h.s);
    }
    if err != Nil {
      return;
    }
    if c.mode == IPv6Only {
      ghost var s2 := h.s;
      ghost var o1, o2;
      err, o1, o2 := CreateRoutes(node, c, h);
      RoutesStay(c, node, s2, h.s);
      StaysTransitive(c, node, s0, s2, h.s);
    } else {
      NothingWanted(c, node, h.s.routes);
    }
  }

  lemma NothingWanted(c: Config, node: Node, routes: map<Block, Hop>)
    requires Usable(c, node) && !RoutesServers(c, node)
    ensures Routed(c, node, routes, routes)
  {
    hide Usable, IsGateway;
  }

  /** The two routes an IPv6 cluster node needs; success is what two walks of the topology give. */
  method CreateRoutes(node: Node, c: Config, h: Host) returns (err: Error, ghost o1: seq<string>, ghost o2: seq<string>)
    requires h.Valid() && Usable(c, node) && RoutesServers(c, node) && (node.isNAT64 ==> h.s.net)
    modifies h
    ensures h.Valid() && h.OffFiles() && IsOrder(c, o1) && IsOrder(c, o2)
    ensures h.s == old(h.s).(routes := h.s.routes) && Grown(c, node, old(h.s.routes), h.s.routes)
    ensures err == Nil ==> RoutesBy(c, node, old(h.s.routes), o1, o2) == Some(h.s.routes)
    ensures err == Nil ==> Routed(c, node, old(h.s.routes), h.s.routes)
    ensures h.reliable ==> (err == Nil <==> HasGateway(c, node))
    ensures !HasGateway(c, node) ==> h.s == old(h.s)
  {
    hide StepInvariant, HostsEdit.SingleLine, HostsEdit.IsStale, MgmtAddress, HostsReadable, ParseAddress,
      CalcNameServer, GatewayBy, Distinct, IsGateway, Grown, AddIfAbsent;
    ghost var routes := h.s.routes;
    NothingGrown(c, node, routes);
    err, o1 := CreateRouteToNAT64ServerForDNS64Subnet(node, c, h);
    o2 := o1;
    WalkAdds(c, node, o1);
    if GatewayBy(c, node, o1).Some? {
      AddedIsGrown(c, node, routes, BlockOf(c.dns64Cidr).value, GatewayBy(c, node, o1).value);
    }
    if err != Nil {
      return;
    }
    ghost var first := h.s.routes;
    err, o2 := CreateRouteToSupportNetworkForOtherNodes(node, c, h);
    WalkAdds(c, node, o2);
    if !IsServer(node) && GatewayBy(c, node, o2).Some? {
      AddedIsGrown(c, node, first, BlockOf(c.supportCidr).value, GatewayBy(c, node, o2).value);
      GrownTransitive(c, node, routes, first,
        AddIfAbsent(first, BlockOf(c.supportCidr).value, GatewayBy(c, node, o2).value));
    }
    RoutesByAreRouted(c, node, routes, o1, o2);
  }

  lemma NothingGrown(c: Config, node: Node, routes: map<Block, Hop>)
    requires Usable(c, node)
    ensures Grown(c, node, routes, routes)
  {
    hide Usable, Wanted, IsGateway;
  }

  /** A walk leads somewhere exactly if there is a host to lead to. */
  lemma WalkAdds(c: Config, node: Node, order: seq<string>)
    requires Usable(c, node) && RoutesServers(c, node) && IsOrder(c, order)
    ensures GatewayBy(c, node, order).Some? <==> HasGateway(c, node)
    ensures GatewayBy(c, node, order).Some? ==> IsGateway(c, node, GatewayBy(c, node, order).value)
  {
    hide ParseAddress, HostIPOf, HostsEdit.SingleLine, HostsEdit.IsStale, MgmtAddress, CalcNameServer;
    GatewaysAreFound(c, node, order);
    FoundIsHost(c, order);
    if !node.isNAT64 { FoundIsReadable(c, order); }
  }

  /** "prepare" on one node. From any state the step invariant holds in, with the etc files in
      place: whatever calls fail, what the new state can lead to the old one could (unless a
      backup was stranded); success leaves a prepared state; and without failing calls it
      succeeds exactly if there is a NAT64 host for a node that needs one, having done all
      the rest otherwise. */
  method Prepare(name: string, c: Config, h: Host) returns (err: Error)
    requires h.Valid() && h.namedConf == c.namedConf && name in c.topology && !h.stranded
    requires Usable(c, c.topology[name]) && Ready(c.topology[name], h.s)
    modifies h
    ensures h.Valid() && h.Steady()
    ensures !h.stranded ==> Reaches(c, c.topology[name], old(h.s), h.s)
    ensures !h.stranded && IsCluster(c.topology[name]) && InOrder(c, c.topology[name], old(h.s.addrs)) ==>
              InOrder(c, c.topology[name], h.s.addrs)
    ensures err == Nil ==> !h.stranded && Prepared(c, c.topology[name], old(h.s), h.s)
    ensures h.reliable ==> (err == Nil <==> HasGateway(c, c.topology[name]))
    ensures h.reliable && !HasGateway(c, c.topology[name]) ==> h.s == Target(c, c.topology[name], old(h.s))
  {
    hide Managed, HostsEdit.IsStale, HostsEdit.SingleLine, HostsReadable, ParseAddress, MgmtAddress, CalcNameServer,
      StepInvariant, FilesTarget, MgmtAddrs, Stays, FilesReady, Wanted, IsGateway, Grown, HasGateway, InOrder;
    var node := c.topology[name];
    err := Nil;
    if c.mode == IPv6Only {
      if node.isDNS64 || node.isNAT64 {
        err := CreateSupportNetwork(h);
        if err != Nil && err != Skipping {
          ServersReach(c, node, old(h.s), h.s);
          return;
        }
      }
      if node.isDNS64 {
        err := PrepareDNS64Server(c, h);
        if err != Nil {
          ServersReach(c, node, old(h.s), h.s);
          return;
        }
      }
      if node.isNAT64 {
        err := PrepareNAT64Server(c, h);
        if err != Nil {
          ServersReach(c, node, old(h.s), h.s);
          return;
        }
      }
      err := Nil;
    }
    assert h.s == ServerTarget(c, node, old(h.s));
    if node.isMaster || node.isMinion {
      err := PrepareClusterNode(node, c, h);
      if !h.stranded {
        StaysIs(c, node, ServerTarget(c, node, old(h.s)), h.s);
        StaysReaches(c, node, old(h.s), h.s);
      }
    } else {
      ServersReach(c, node, old(h.s), h.s);
      NothingWanted(c, node, h.s.routes);
    }
  }

  /** A servers' part that still has the same target. */
  lemma ServersReach(c: Config, node: Node, a: State, b: State)
    requires Usable(c, node) && Ready(node, a) && b.files == a.files && b.addrs == a.addrs
    requires ServerTarget(c, node, b) == ServerTarget(c, node, a)
    ensures Reaches(c, node, a, b)
  {
    hide Usable, FilesReady, ServerTarget, SettingsTarget, Wanted, IsGateway;
  }

  lemma StaysIs(c: Config, node: Node, a: State, b: State)
    requires Usable(c, node) && IsCluster(node) && FilesReady(a.files) && Stays(c, node, a, b)
    ensures b.net == a.net && b.dns64 == a.dns64 && b.volume == a.volume && b.nat64 == a.nat64
    ensures FilesReady(b.files) && SettingsTarget(c, node, b) == SettingsTarget(c, node, a).(routes := b.routes)
    ensures InOrder(c, node, a.addrs) ==> InOrder(c, node, b.addrs)
  {
    hide Usable, FilesTarget, Managed, Wanted, IsGateway, InOrder, MgmtAddrs;
  }
}
