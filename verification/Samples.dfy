/** The sample configurations the program comes with: the IPv6 one meets every assumption
    made about accepted configurations; the other two are refused. The same networks with no
    NAT64 host, and with two, are accepted as well. */
module Samples {
  import opened Wrappers
  import opened Text
  import opened Numerals
  import opened AddressText
  import opened PodSubnets
  import opened NodeAddresses
  import opened Configs
  import opened Validation
  import opened PeerRoutes
  import opened RouteMesh
  import opened MeshTheorems
  import opened MeshWalks
  import opened AddressChoice
  import opened MappingPool
  import opened Acceptance
  import opened HostMachine
  import opened Gateways
  import NodePlan
  import CleanPlan
  import Lifecycle

  const NOTHING := NetInfo("", 0, Unset)

  function Unflagged(id: nat, roles: string): Node {
    Node("eth1", id, roles, "", false, false, false, false)
  }

  const NETWORKS := Config(
    IPv6Only, map[],
    Net([0xfd00, 0x20, 0, 0, 0, 0, 0, 0], 64), Missing, [NOTHING, NOTHING],
    Net([0xfd00, 0x40, 0, 0, 0, 0, 0, 0], 72), Missing, [NOTHING, NOTHING], 9000,
    Net([0xfd00, 0x30, 0, 0, 0, 0, 0, 0], 110), NOTHING,
    Net([0xfd00, 0x10, 0, 0, 0, 0, 0, 0], 64), NOTHING, Net([172, 18, 0, 0], 16),
    Net([0xfd00, 0x10, 0x64, 0xff9b, 0, 0, 0, 0], 96), "", "fd00:10::100",
    "fd00:10::200", "172.18.0.200", Net([172, 18, 0, 128], 25),
    "", "")

  const IPV6 := NETWORKS.(topology := map[
    "master" := Unflagged(2, "master dns64 nat64"), "minion1" := Unflagged(3, "minion"),
      "minion2" := Unflagged(4, "minion")])

  const NO_HOST := NETWORKS.(topology := map["master" := Unflagged(2, "master"), "minion1" := Unflagged(3, "minion")])

  const TWO_HOSTS := NETWORKS.(topology := map[
    "master" := Unflagged(2, "master dns64 nat64"), "minion1" := Unflagged(3, "minion dns64 nat64"),
      "minion2" := Unflagged(4, "minion")])

  const POOL_IP: Address := [172, 18, 0, 128]

  lemma {:induction false} ClearLowZero(k: nat)
    ensures ClearLow(0, k) == 0
  {
    if k > 0 { ClearLowZero(k - 1); }
  }

  /** A network that is zero from some element on is its own masked form. */
  lemma Aligned(net: Address, bits: nat)
    requires |net| == 4 || |net| == 8
    requires forall i | 0 <= i < |net| :: net[i] == 0 || (if |net| == 8 then 16 else 8) * (i + 1) <= bits
    ensures Mask(net, bits) == net
  {
    forall i | 0 <= i < |net| ensures Mask(net, bits)[i] == net[i] {
      var w := if |net| == 8 then 16 else 8;
      if net[i] == 0 && bits < w * (i + 1) { ClearLowZero(w * (i + 1) - bits); }
    }
  }

  lemma Parsed6(a: nat, b: nat, c: nat, d: nat, bits: nat)
    requires a < 0x10000 && b < 0x10000 && c < 0x10000 && d < 0x10000 && 64 <= bits <= 128
    ensures IsParsed(Net([a, b, c, d, 0, 0, 0, 0], bits))
  {
    hide Mask;
    Aligned([a, b, c, d, 0, 0, 0, 0], bits);
  }

  lemma Parsed4(a: nat, b: nat, bits: nat)
    requires a < 0x100 && b < 0x100 && 16 <= bits <= 32
    ensures IsParsed(Net([a, b, 0, 0], bits))
  {
    hide Mask;
    Aligned([a, b, 0, 0], bits);
  }

  lemma NetworksAreParsed()
    ensures IsParsed(NETWORKS.mgmtCidr) && IsParsed(NETWORKS.podCidr) && IsParsed(NETWORKS.serviceCidr)
    ensures IsParsed(NETWORKS.supportCidr) && IsParsed(NETWORKS.dns64Cidr) && IsParsed(NETWORKS.supportV4Cidr)
  {
    hide IsParsed;
    Parsed6(0xfd00, 0x20, 0, 0, 64);
    Parsed6(0xfd00, 0x40, 0, 0, 72);
    Parsed6(0xfd00, 0x30, 0, 0, 110);
    Parsed6(0xfd00, 0x10, 0, 0, 64);
    Parsed6(0xfd00, 0x10, 0x64, 0xff9b, 96);
    Parsed4(172, 18, 16);
  }

  lemma PodNetworkIsGood()
    ensures GoodPodNetwork(NETWORKS.podCidr.net, 72)
  {
    var g := NETWORKS.podCidr.net;
    assert ZeroRun(g, 8) == 0 && ZeroRun(g, 7) == 1 && ZeroRun(g, 6) == 2 && ZeroRun(g, 5) == 3;
    assert ZeroRun(g, 4) == 4 && ZeroRun(g, 3) == 5 && ZeroRun(g, 2) == 6;
    hide ZeroRun;
    assert ZeroRun(g, 1) == 0 && ZeroRun(g, 0) == 0;
  }

  lemma ServerTextParses(host: string)
    requires |host| == 3 && IsNumeral(host, 16)
    ensures ParseAddress("fd00:10::" + host).Some?
  {
    hide Split;
    var left := "fd00" + ":" + "10";
    assert ':' !in host;
    SplitPlain("fd00", ':'); SplitPlain("10", ':'); SplitPlain(host, ':');
    SplitConcat("fd00", "10", ':');
    SplitDouble(left, host);
    var s := "fd00:10::" + host;
    assert s == left + "::" + host;
    assert s[4] == ':';
    ParseCompressed(["fd00", "10"], [host], s);
  }

  lemma OctetTexts()
    ensures Dec(172) == "172" && Dec(18) == "18" && Dec(0) == "0" && Dec(200) == "200"
  {
  }

  lemma MappingTextParses()
    ensures ParseAddress("172.18.0.200") == Some([172, 18, 0, 200])
  {
    var o: Address := [172, 18, 0, 200];
    OctetTexts();
    hide Split, Render, ParseV4, Value, Values;
    NodeText4(o, Dec(200));
    DecOctet(200);
    RenderRoundTrip(200, 10);
    assert V4Prefix(o) + Dec(200) == "172.18.0.200";
    assert o[3 := 200] == o;
  }

  lemma FoldLower(s: string)
    requires forall c <- s :: !('A' <= c <= 'Z')
    ensures Fold(s) == s
  {
    forall i | 0 <= i < |s| ensures Fold(s)[i] == s[i] {
      assert s[i] in s;
    }
  }

  /** Role names as they are to be written. */
  predicate Legal(ops: seq<string>) {
    && ops != [] && (forall op <- ops :: op in {"master", "minion", "dns64", "nat64"})
    && ("master" in ops <==> "minion" !in ops) && ("dns64" in ops <==> "nat64" in ops)
  }

  lemma RoleNamesFold()
    ensures forall op | op in {"master", "minion", "dns64", "nat64"} :: Fold(op) == op && op != ""
  {
    FoldLower("master"); FoldLower("minion"); FoldLower("dns64"); FoldLower("nat64");
  }

  /** The servers' roles are for IPv6 clusters only. */
  predicate LegalIn(mode: Mode, ops: seq<string>) {
    Legal(ops) && (mode == IPv6Only || "dns64" !in ops)
  }

  lemma LegalNames(mode: Mode, ops: seq<string>)
    requires LegalIn(mode, ops)
    ensures NamesValid(mode, ops)
    ensures forall r | r in {"master", "minion", "dns64", "nat64"} :: Names(ops, r) <==> r in ops
  {
    RoleNamesFold();
    hide Fold;
    assert ops[0] in ops;
  }

  /** The nodes of a topology name these roles, and one of them is the master. */
  predicate Spells(t: map<string, Node>, roles: map<string, seq<string>>, master: string) {
    && master in t && t.Keys == roles.Keys
    && forall n <- t :: NodeSpells(t[n], roles[n], n == master)
  }

  predicate NodeSpells(node: Node, ops: seq<string>, leads: bool) {
    && node == Unflagged(node.id, node.opModes) && Split(node.opModes, ' ') == ops
    && Legal(ops) && ("master" in ops <==> leads)
  }

  lemma MasterSpells(id: nat)
    ensures NodeSpells(Unflagged(id, "master"), ["master"], true)
    ensures NodeSpells(Unflagged(id, "master dns64 nat64"), ["master", "dns64", "nat64"], true)
  {
    RoleTexts();
    hide Split;
  }

  lemma MinionSpells(id: nat)
    ensures NodeSpells(Unflagged(id, "minion"), ["minion"], false)
    ensures NodeSpells(Unflagged(id, "minion dns64 nat64"), ["minion", "dns64", "nat64"], false)
  {
    RoleTexts();
    hide Split;
  }

  lemma SpelledIsValid(mode: Mode, t: map<string, Node>, roles: map<string, seq<string>>, master: string)
    requires Spells(t, roles, master) && forall n <- roles :: mode == IPv6Only || LegalIn(mode, roles[n])
    ensures RolesValid(mode, t)
    ensures forall n <- t :: n in Roles(t) && IsCluster(Roles(t)[n]) && (Roles(t)[n].isNAT64 <==> "nat64" in roles[n])
  {
    hide Split, Legal, Names, NamesValid;
    forall n <- t
      ensures NamesValid(mode, roles[n]) && (Names(roles[n], "nat64") <==> "nat64" in roles[n])
      ensures (Names(roles[n], "master") <==> n == master) && (Names(roles[n], "master") || Names(roles[n], "minion"))
    {
      LegalNames(mode, roles[n]);
      LegalCluster(roles[n]);
    }
    RolesAreWhatNodesName(mode, t);
    assert NamedMasters(t) == {master};
  }

  lemma LegalCluster(ops: seq<string>)
    requires Legal(ops)
    ensures "master" in ops || "minion" in ops
  {
  }

  lemma RoleTexts()
    ensures Split("master", ' ') == ["master"] && Split("minion", ' ') == ["minion"]
    ensures Split("master dns64 nat64", ' ') == ["master", "dns64", "nat64"]
    ensures Split("minion dns64 nat64", ' ') == ["minion", "dns64", "nat64"]
  {
    hide Split;
    SplitPlain("master", ' '); SplitPlain("minion", ' ');
    HostRoles("master"); HostRoles("minion");
    assert "master" + " dns64 nat64" == "master dns64 nat64" && "minion" + " dns64 nat64" == "minion dns64 nat64";
  }

  lemma HostRoles(r: string)
    requires ' ' !in r
    ensures Split(r + " dns64 nat64", ' ') == [r, "dns64", "nat64"]
  {
    hide Split;
    SplitPlain(r, ' '); SplitPlain("dns64", ' '); SplitPlain("nat64", ' ');
    SplitConcat(r, "dns64", ' ');
    SplitConcat(r + " " + "dns64", "nat64", ' ');
    assert r + " " + "dns64" + " " + "nat64" == r + " dns64 nat64";
  }

  lemma MappingIsValid()
    ensures IsParsed(NETWORKS.supportV4Cidr) && MappingValid(NETWORKS, POOL_IP)
  {
    MappingTextParses();
    Parsed4(172, 18, 16);
    hide IsParsed, ParseAddress;
    Contains4(NETWORKS.supportV4Cidr, [172, 18, 0, 200]);
    Contains4(NETWORKS.supportV4Cidr, POOL_IP);
    hide MappingPool.Contains;
    assert Mask([172, 18, 0, 200], 16) == [172, 18, 0, 0];
    assert Mask(POOL_IP, 16) == [172, 18, 0, 0];
  }

  lemma NetworksAreAccepted()
    ensures Accepted(NETWORKS) && Suitable(NETWORKS)
  {
    NetworksAreParsed();
    PodNetworkIsGood();
    hide Mask, TailCompressed, GoodPodNetwork;
  }

  lemma ServersAreFit()
    requires AllParsed(NETWORKS) && Derivable(NETWORKS)
    ensures IsParsed(NETWORKS.supportV4Cidr) && ServersFit(NETWORKS, POOL_IP)
  {
    hide MappingValid, ParseAddress, AllParsed, Derivable, IsNumeral, FamilyOf;
    MappingIsValid();
    HexHosts();
    ServerTextParses("100");
    ServerTextParses("200");
    assert "fd00:10::" + "100" == "fd00:10::100" && "fd00:10::" + "200" == "fd00:10::200";
    assert FamilyOf(NETWORKS.mgmtCidr.net) == V6 by { ManagedByV6(); }
  }

  lemma HexHosts()
    ensures IsNumeral("100", 16) && IsNumeral("200", 16)
  {
  }

  lemma ManagedByV6()
    ensures FamilyOf(NETWORKS.mgmtCidr.net) == V6
  {
  }

  /** Acceptance of networks does not look at the topology. */
  lemma WithTopology(c: Config, t: map<string, Node>)
    requires Accepted(c) && Suitable(c) && IsParsed(c.supportV4Cidr) && ServersFit(c, POOL_IP)
    requires UniqueIDs(t) && forall n <- t :: t[n].id < 256 && GoodName(n)
    ensures var d := c.(topology := t);
            Accepted(d) && Suitable(d) && NodesFit(d) && ServersFit(d, POOL_IP)
  {
    hide IsParsed, GoodPodNetwork, GoodMgmtNetwork, ParseAddress, Mask, GoodName, UniqueIDs, Usable,
      MappingPool.Contains;
  }

  /** Names and IDs are in range. */
  predicate NodesInRange(t: map<string, Node>) {
    UniqueIDs(t) && forall n <- t :: t[n].id < 256 && GoodName(n)
  }

  /** With the sample's networks every such topology is accepted, and every node of it is fit
      for prepare and clean. */
  lemma TopologyIsFit(c: Config, roles: map<string, seq<string>>, master: string, name: string)
    requires c == NETWORKS.(topology := c.topology) && Spells(c.topology, roles, master) && NodesInRange(c.topology)
    requires name in c.topology
    ensures Accepted(c) && Suitable(c) && NodesFit(c) && RolesValid(c.mode, c.topology) && UniqueIDs(c.topology)
    ensures IsParsed(c.supportV4Cidr) && ServersFit(c, POOL_IP)
    ensures name in Final(c).topology && NodePlan.Usable(Final(c), Final(c).topology[name])
    ensures NodePlan.RoutesServers(Final(c), Final(c).topology[name]) && Final(c).dns64Cidr == c.dns64Cidr
    ensures forall n :: IsNAT64Host(Final(c), n) <==> n in c.topology && "nat64" in roles[n]
  {
    NetworksAreAccepted();
    ServersAreFit();
    assert NETWORKS.mode == IPv6Only;
    hide NETWORKS, Spells, RolesValid, MappingValid, ParseAddress, IsParsed, Suitable, ServersFit, GoodName,
      UniqueIDs;
    SpelledIsValid(IPv6Only, c.topology, roles, master);
    WithTopology(NETWORKS, c.topology);
    hide Accepted, NodesFit, Derived;
    AcceptedIsUsable(c, POOL_IP, name);
    SpelledKeys(c.topology, roles, master);
    assert Final(c).topology == Roles(c.topology);
  }

  lemma SpelledKeys(t: map<string, Node>, roles: map<string, seq<string>>, master: string)
    requires Spells(t, roles, master)
    ensures t.Keys == roles.Keys
  {
  }

  const IPV6_ROLES := map["master" := ["master", "dns64", "nat64"], "minion1" := ["minion"], "minion2" := ["minion"]]
  const NO_HOST_ROLES := map["master" := ["master"], "minion1" := ["minion"]]
  const TWO_HOSTS_ROLES :=
    map["master" := ["master", "dns64", "nat64"], "minion1" := ["minion", "dns64", "nat64"], "minion2" := ["minion"]]

  lemma NamesAreGood()
    ensures GoodName("master") && GoodName("minion1") && GoodName("minion2")
  {
    assert 'm' in "master" && 'm' in "minion1" && 'm' in "minion2";
  }

  lemma NamesDiffer()
    ensures "master" != "minion1" && "master" != "minion2" && "minion1" != "minion2"
  {
    assert "master"[1] != "minion1"[1] && "master"[1] != "minion2"[1] && "minion1"[6] != "minion2"[6];
  }

  lemma TwoSpell(x: string, y: string, nx: Node, ny: Node, ox: seq<string>, oy: seq<string>)
    requires x != y && GoodName(x) && GoodName(y) && nx.id < ny.id < 256
    requires NodeSpells(nx, ox, true) && NodeSpells(ny, oy, false)
    ensures var t, r := map[x := nx, y := ny], map[x := ox, y := oy];
            Spells(t, r, x) && NodesInRange(t) && t.Keys == {x, y} && r[x] == ox && r[y] == oy
  {
    hide NodeSpells, GoodName;
  }

  lemma ThreeSpell(x: string, y: string, z: string, nx: Node, ny: Node, nz: Node, ox: seq<string>, oy: seq<string>,
                   oz: seq<string>)
    requires x != y && x != z && y != z && GoodName(x) && GoodName(y) && GoodName(z) && nx.id < ny.id < nz.id < 256
    requires NodeSpells(nx, ox, true) && NodeSpells(ny, oy, false) && NodeSpells(nz, oz, false)
    ensures var t, r := map[x := nx, y := ny, z := nz], map[x := ox, y := oy, z := oz];
            Spells(t, r, x) && NodesInRange(t) && t.Keys == {x, y, z} && r[x] == ox && r[y] == oy && r[z] == oz
  {
    hide NodeSpells, GoodName;
  }

  lemma HostRole()
    ensures "nat64" in ["master", "dns64", "nat64"] && "nat64" in ["minion", "dns64", "nat64"]
    ensures "nat64" !in ["master"] && "nat64" !in ["minion"]
  {
    assert ["master", "dns64", "nat64"][2] == "nat64" && ["minion", "dns64", "nat64"][2] == "nat64";
    assert |"nat64"| == 5 && |"master"| == 6 && |"minion"| == 6;
  }

  /** The sample's networks, with these roles. */
  predicate Made(c: Config, roles: map<string, seq<string>>) {
    && c == NETWORKS.(topology := c.topology)
    && Spells(c.topology, roles, "master") && NodesInRange(c.topology) && c.topology.Keys == roles.Keys
  }

  predicate Hosts(roles: map<string, seq<string>>, n: string) { n in roles && "nat64" in roles[n] }

  lemma IPv6IsMade()
    ensures Made(IPV6, IPV6_ROLES) && forall n :: Hosts(IPV6_ROLES, n) <==> n == "master"
  {
    MasterSpells(2); MinionSpells(3); MinionSpells(4);
    NamesAreGood(); NamesDiffer(); HostRole();
    hide NodeSpells, GoodName, NETWORKS, Spells, NodesInRange;
    ThreeSpell("master", "minion1", "minion2", Unflagged(2, "master dns64 nat64"), Unflagged(3, "minion"),
               Unflagged(4, "minion"), ["master", "dns64", "nat64"], ["minion"], ["minion"]);
  }

  lemma NoHostIsMade()
    ensures Made(NO_HOST, NO_HOST_ROLES) && forall n :: !Hosts(NO_HOST_ROLES, n)
  {
    MasterSpells(2); MinionSpells(3);
    NamesAreGood(); NamesDiffer(); HostRole();
    hide NodeSpells, GoodName, NETWORKS, Spells, NodesInRange;
    TwoSpell("master", "minion1", Unflagged(2, "master"), Unflagged(3, "minion"), ["master"], ["minion"]);
  }

  lemma TwoHostsIsMade()
    ensures Made(TWO_HOSTS, TWO_HOSTS_ROLES) && "minion2" in TWO_HOSTS.topology && "master" != "minion1"
    ensures Hosts(TWO_HOSTS_ROLES, "master") && Hosts(TWO_HOSTS_ROLES, "minion1") && !Hosts(TWO_HOSTS_ROLES, "minion2")
  {
    MasterSpells(2); MinionSpells(3); MinionSpells(4);
    NamesAreGood(); NamesDiffer(); HostRole();
    hide NodeSpells, GoodName, NETWORKS, Spells, NodesInRange;
    ThreeSpell("master", "minion1", "minion2", Unflagged(2, "master dns64 nat64"), Unflagged(3, "minion dns64 nat64"),
               Unflagged(4, "minion"), ["master", "dns64", "nat64"], ["minion", "dns64", "nat64"], ["minion"]);
  }

  /** Every node of such a configuration is fit; the NAT64 hosts are those named. */
  lemma MadeIsFit(c: Config, roles: map<string, seq<string>>, name: string)
    requires Made(c, roles) && name in c.topology
    ensures Accepted(c) && Suitable(c) && NodesFit(c) && RolesValid(c.mode, c.topology) && UniqueIDs(c.topology)
    ensures IsParsed(c.supportV4Cidr) && ServersFit(c, POOL_IP) && c.dns64Cidr.Net?
    ensures name in Final(c).topology && NodePlan.Usable(Final(c), Final(c).topology[name])
    ensures NodePlan.RoutesServers(Final(c), Final(c).topology[name])
    ensures forall n :: IsNAT64Host(Final(c), n) <==> Hosts(roles, n)
  {
    assert NETWORKS.dns64Cidr.Net?;
    hide NETWORKS, Spells, NodesInRange, Accepted, Suitable, NodesFit, RolesValid, ServersFit, Final, NodePlan.Usable,
      UniqueIDs, IsParsed, IsNAT64Host;
    TopologyIsFit(c, roles, "master", name);
  }

  /** The IPv6 sample is accepted, fits the address scheme, every node of it is fit for prepare
      and clean, and exactly one hosts the NAT64 server. */
  lemma IPv6SampleIsFit(name: string)
    requires name in IPV6.topology
    ensures Accepted(IPV6) && Suitable(IPV6) && NodesFit(IPV6) && RolesValid(IPV6.mode, IPV6.topology)
    ensures name in Final(IPV6).topology && NodePlan.Usable(Final(IPV6), Final(IPV6).topology[name])
    ensures OneNAT64(Final(IPV6))
  {
    hide IPV6, IPV6_ROLES, Made, Hosts, Accepted, Suitable, NodesFit, RolesValid, Final, NodePlan.Usable, IsNAT64Host;
    IPv6IsMade();
    MadeIsFit(IPV6, IPV6_ROLES, name);
    assert IsNAT64Host(Final(IPV6), "master");
  }

  /** Without a NAT64 host an accepted configuration gives no node a result, however the
      topology is walked: prepare cannot succeed on any of them. */
  lemma NoHostNoResult(name: string, routes: map<Block, Hop>, o1: seq<string>, o2: seq<string>)
    requires name in NO_HOST.topology
    ensures Accepted(NO_HOST) && name in Final(NO_HOST).topology
    ensures var d, n := Final(NO_HOST), Final(NO_HOST).topology[name];
            && NodePlan.Usable(d, n) && NodePlan.RoutesServers(d, n) && !NodePlan.HasGateway(d, n)
            && (IsOrder(d, o1) && IsOrder(d, o2) ==> NodePlan.RoutesBy(d, n, routes, o1, o2) == None)
  {
    NoHostIsMade();
    NoHostIn(NO_HOST, NO_HOST_ROLES, name, routes, o1, o2);
    hide *;
  }

  lemma NoHostIn(c: Config, roles: map<string, seq<string>>, name: string, routes: map<Block, Hop>, o1: seq<string>,
                 o2: seq<string>)
    requires Made(c, roles) && name in c.topology && forall n :: !Hosts(roles, n)
    ensures Accepted(c) && name in Final(c).topology
    ensures var d, n := Final(c), Final(c).topology[name];
            && NodePlan.Usable(d, n) && NodePlan.RoutesServers(d, n) && !NodePlan.HasGateway(d, n)
            && (IsOrder(d, o1) && IsOrder(d, o2) ==> NodePlan.RoutesBy(d, n, routes, o1, o2) == None)
  {
    hide Made, Hosts, Accepted, Suitable, NodesFit, RolesValid, ServersFit, Final, NodePlan.Usable;
    MadeIsFit(c, roles, name);
    var d, n := Final(c), Final(c).topology[name];
    assert !IsNAT64Host(d, name);
    if IsOrder(d, o1) && IsOrder(d, o2) { NodePlan.NoGatewayNoResult(d, n, routes, o1, o2); }
  }

  /** With two of them the result on the third node depends on the order of the topology. */
  lemma TwoHostsTwoResults(routes: map<Block, Hop>)
    requires NodePlan.BlockOf(TWO_HOSTS.dns64Cidr).value !in routes
    ensures Accepted(TWO_HOSTS) && "minion2" in Final(TWO_HOSTS).topology
    ensures var d, n := Final(TWO_HOSTS), Final(TWO_HOSTS).topology["minion2"];
            && NodePlan.Usable(d, n) && NodePlan.RoutesServers(d, n) && NodePlan.HasGateway(d, n)
            && !exists result :: NodePlan.AlwaysGives(d, n, routes, result)
  {
    TwoHostsIsMade();
    TwoHostsIn(TWO_HOSTS, TWO_HOSTS_ROLES, "minion2", "master", "minion1", routes);
    hide *;
  }

  lemma TwoHostsIn(c: Config, roles: map<string, seq<string>>, name: string, x: string, y: string,
                   routes: map<Block, Hop>)
    requires Made(c, roles) && name in c.topology && !Hosts(roles, name) && Hosts(roles, x) && Hosts(roles, y) && x != y
    requires c.dns64Cidr.Net? ==> NodePlan.BlockOf(c.dns64Cidr).value !in routes
    ensures Accepted(c) && name in Final(c).topology
    ensures var d, n := Final(c), Final(c).topology[name];
            && NodePlan.Usable(d, n) && NodePlan.RoutesServers(d, n) && NodePlan.HasGateway(d, n)
            && !exists result :: NodePlan.AlwaysGives(d, n, routes, result)
  {
    hide Made, Hosts, Accepted, Suitable, NodesFit, RolesValid, ServersFit, Final, NodePlan.Usable;
    MadeIsFit(c, roles, name);
    var d := Final(c);
    assert IsNAT64Host(d, x) && IsNAT64Host(d, y) && !IsNAT64Host(d, name);
    AcceptedNeedsOneHost(c, POOL_IP, name, routes);
  }

  /** On the sample's master only the route to the second minion is there. */
  const PARTIAL: map<Block, Hop> :=
    map[Block([0xfd00, 0x40, 0, 0, 4, 0, 0, 0], 80) := Hop([0xfd00, 0x20, 0, 0, 0, 0, 0, 4], Named("eth1"))]

  lemma RolesKeepIDs(t: map<string, Node>)
    ensures Roles(t).Keys == t.Keys
    ensures forall n <- t :: Roles(t)[n].id == t[n].id
    ensures UniqueIDs(t) ==> UniqueIDs(Roles(t))
  {
    hide Names, Split;
  }

  /** Storing the roles does not matter to the mesh theorems. */
  lemma WithRoles(c: Config)
    requires Accepted(c) && Suitable(c)
    ensures var e := c.(topology := Roles(c.topology));
            Suitable(e) && Derived(e) == Final(c) && Final(c).topology == e.topology
              && e.topology.Keys == c.topology.Keys
  {
    RolesKeepIDs(c.topology);
    hide IsParsed, GoodPodNetwork, GoodMgmtNetwork, Mask, Roles, UniqueIDs;
  }

  /** The routes a node wants in a single-family cluster: one for each other cluster node. */
  lemma SinglePeers(c: Config, me: Node)
    requires Suitable(c) && c.mode != DualStack && IsCluster(me)
    ensures HasEntries(Derived(c))
    ensures Peers(Derived(c), me)
         == set n | n in c.topology && c.topology[n].id != me.id && IsCluster(c.topology[n]) :: Peer(0, n)
  {
    PrefixesOfEntries(c);
    hide Suitable, HasEntries, Derived, Peers;
    var ws := set n | n in c.topology && c.topology[n].id != me.id && IsCluster(c.topology[n]) :: Peer(0, n);
    forall w ensures w in Peers(Derived(c), me) <==> w in ws {
      PeersExactly(c, me, w);
      assert w == Peer(w.entry, w.name);
    }
  }

  /** They are consistent over IPv6. */
  lemma SingleMesh(c: Config, name: string)
    requires Suitable(c) && c.mode != DualStack && name in c.topology
    requires FamilyOf(c.podCidr.net) == V6 && FamilyOf(c.mgmtCidr.net) == V6
    requires forall n <- c.topology :: IsCluster(c.topology[n])
    ensures HasEntries(Derived(c))
    ensures Consistent(Derived(c), Peers(Derived(c), c.topology[name]))
    ensures Peers(Derived(c), c.topology[name]) == set n | n in c.topology && n != name :: Peer(0, n)
  {
    var me := c.topology[name];
    SinglePeers(c, me);
    AcceptedIsConsistent(c, me);
    assert UniqueIDs(c.topology);
    hide Suitable, Peers, Consistent, Derived, HasEntries, FamilyOf, IsCluster;
    assert forall w <- Peers(Derived(c), me) :: w.entry == 0;
  }

  /** The mesh of such a configuration. */
  lemma MadeMesh(c: Config, roles: map<string, seq<string>>, name: string)
    requires Made(c, roles) && name in c.topology
    ensures Accepted(c) && HasEntries(Final(c)) && Final(c).topology.Keys == c.topology.Keys
    ensures var d, me := Final(c), Final(c).topology[name];
            && Consistent(d, Peers(d, me))
            && Peers(d, me) == set n | n in c.topology && n != name :: Peer(0, n)
  {
    hide NETWORKS, Made, Spells, Accepted, NodesFit, RolesValid, ServersFit, Suitable, IsParsed, IsNAT64Host,
      NodePlan.Usable, Peers, Consistent, Derived, Roles, HasEntries, Final, UniqueIDs, FamilyOf,
      NodePlan.RoutesServers;
    MadeIsFit(c, roles, name);
    WithRoles(c);
    SingleFamily(c, roles);
    AllCluster(c, roles);
    SingleMesh(c.(topology := Roles(c.topology)), name);
  }

  lemma SingleFamily(c: Config, roles: map<string, seq<string>>)
    requires Made(c, roles)
    ensures c.mode == IPv6Only && c.podCidr.Net? && c.mgmtCidr.Net?
    ensures FamilyOf(c.podCidr.net) == V6 && FamilyOf(c.mgmtCidr.net) == V6
  {
    hide Spells, NodesInRange;
    var d := c;
    assert NETWORKS.mode == IPv6Only && FamilyOf(NETWORKS.podCidr.net) == V6 && FamilyOf(NETWORKS.mgmtCidr.net) == V6;
  }

  lemma AllCluster(c: Config, roles: map<string, seq<string>>)
    requires Made(c, roles)
    ensures forall n <- c.topology :: n in Roles(c.topology) && IsCluster(Roles(c.topology)[n])
    ensures forall m, n | m in c.topology && n in c.topology && m != n ::
              Roles(c.topology)[m].id != Roles(c.topology)[n].id
  {
    hide NETWORKS, Spells;
    SpelledIsValid(IPv6Only, c.topology, roles, "master");
    hide IsCluster, Flagged;
  }

  /** A wanted route in an IPv6 cluster. */
  lemma SingleRoute(c: Config, me: Node, w: Peer)
    requires Suitable(c) && HasEntries(Derived(c)) && w in Peers(Derived(c), me) && w.entry == 0
    requires FamilyOf(c.podCidr.net) == V6 && FamilyOf(c.mgmtCidr.net) == V6
    ensures w.name in c.topology && Parses(Derived(c), w) && |c.podCidr.net| == 8 && c.podCidr.bits / 16 < 8
    ensures var id := c.topology[w.name].id;
            && Dest(Derived(c), w) == PeerBlock(c.podCidr.net, c.podCidr.bits, id)
            && HopOf(Derived(c), me, w) == Hop(PeerAddress(c.mgmtCidr.net, id), Named(me.link))
  {
    WantedRoute(c, me, w);
    hide HasEntries, Derived, Peers, TailCompressed, Mask, DestOf, GatewayOf, IsNumeral, UniqueIDs, Derivable, V6Text;
  }

  lemma SampleNumbers(id: nat)
    ensures PeerBlock([0xfd00, 0x40, 0, 0, 0, 0, 0, 0], 72, id) == Block([0xfd00, 0x40, 0, 0, id, 0, 0, 0], 80)
    ensures PeerAddress([0xfd00, 0x20, 0, 0, 0, 0, 0, 0], id) == [0xfd00, 0x20, 0, 0, 0, 0, 0, id]
  {
  }

  lemma MadeLinks(c: Config, roles: map<string, seq<string>>, name: string)
    requires Made(c, roles) && name in c.topology
    ensures c.topology[name].link == "eth1" && name in Roles(c.topology) && Roles(c.topology)[name].link == "eth1"
    ensures Roles(c.topology)[name].id == c.topology[name].id
  {
    hide NETWORKS, Split, Names, Legal;
  }

  /** Destination and hop of a wanted route over the sample's networks. */
  lemma MadeRoute(c: Config, roles: map<string, seq<string>>, name: string, w: Peer)
    requires Made(c, roles) && name in c.topology && w.entry == 0 && w.name in c.topology && w.name != name
    ensures Accepted(c) && HasEntries(Final(c)) && name in Final(c).topology && Parses(Final(c), w)
    ensures var id := c.topology[w.name].id;
            && Dest(Final(c), w) == Block([0xfd00, 0x40, 0, 0, id, 0, 0, 0], 80)
            && HopOf(Final(c), Final(c).topology[name], w) == Hop([0xfd00, 0x20, 0, 0, 0, 0, 0, id], Named("eth1"))
  {
    MadeLinks(c, roles, w.name);
    MadeLinks(c, roles, name);
    SampleNumbers(c.topology[w.name].id);
    MadeNetworks(c, roles);
    hide NETWORKS, Made, Spells, Accepted, NodesFit, RolesValid, ServersFit, Suitable, IsParsed, IsNAT64Host,
      PeerBlock, PeerAddress, NodePlan.Usable, Peers, Consistent, Derived, Roles, HasEntries, Final, UniqueIDs,
      FamilyOf, NodePlan.RoutesServers, Parses, Dest, HopOf;
    MadeMesh(c, roles, name);
    MadeIsFit(c, roles, name);
    WithRoles(c);
    SingleFamily(c, roles);
    var e := c.(topology := Roles(c.topology));
    SingleRoute(e, e.topology[name], w);
  }

  lemma MadeNetworks(c: Config, roles: map<string, seq<string>>)
    requires Made(c, roles)
    ensures c.podCidr == Net([0xfd00, 0x40, 0, 0, 0, 0, 0, 0], 72)
    ensures c.mgmtCidr == Net([0xfd00, 0x20, 0, 0, 0, 0, 0, 0], 64)
  {
    hide Spells, NodesInRange;
  }

  /** Concrete: on the sample's master, "up" completes the partial table when it meets the first
      minion first, and leaves it as it is when it meets the second one first. */
  lemma PartialUp() returns (good: seq<string>, bad: seq<string>)
    ensures Accepted(IPV6) && HasEntries(Final(IPV6)) && "master" in Final(IPV6).topology
    ensures IsOrder(Final(IPV6), good) && IsOrder(Final(IPV6), bad)
    ensures var d, me := Final(IPV6), Final(IPV6).topology["master"];
            && CompleteBy(d, me, Add, good, good, PARTIAL)
            && Walk(d, me, Add, Asked(d, me, bad, bad), PARTIAL) == PARTIAL
                 && !CompleteBy(d, me, Add, bad, bad, PARTIAL)
  {
    IPv6IsMade();
    IPv6Nodes();
    hide NETWORKS, IPV6, IPV6_ROLES, Made, Accepted, Peers, Consistent, HasEntries, Final, Parses, Dest, HopOf, Walk,
      Asked, CompleteBy, IsOrder;
    var x, y := Peer(0, "minion1"), Peer(0, "minion2");
    MadeMesh(IPV6, IPV6_ROLES, "master");
    MadeRoute(IPV6, IPV6_ROLES, "master", x);
    MadeRoute(IPV6, IPV6_ROLES, "master", y);
    var d, me := Final(IPV6), Final(IPV6).topology["master"];
    assert Peers(d, me) == {x, y};
    good, bad := OrderDecides(d, me, "minion1", "minion2", PARTIAL);
  }

  lemma IPv6Nodes()
    ensures IPV6.topology.Keys == {"master", "minion1", "minion2"}
    ensures "master" != "minion1" && "master" != "minion2" && "minion1" != "minion2"
    ensures IPV6.topology["minion1"].id == 3 && IPV6.topology["minion2"].id == 4
  {
    NamesDiffer();
    hide NETWORKS;
  }

  const BARE := State(false, Absent, NoVolume, Absent, {}, map[], map[],
                      map[HostMachine.HostsFile := "", HostMachine.ResolvConf := ""])

  /** A host without any of it is fresh, for every configuration and node. */
  lemma BareHostIsFresh(c: Config, node: Node)
    requires NodePlan.Usable(c, node)
    ensures StepInvariant(c.namedConf, BARE) && Lifecycle.Fresh(c, node, BARE) && Lifecycle.Vacant(c, node, BARE)
  {
    hide NodePlan.Usable, NodePlan.MgmtAddrs, NodePlan.BlockOf, IsGateway, NodePlan.MappingHop;
    assert Lines("") == [""];
  }

  // ------------------------------------------------------------ dual-stack

  const DUAL_NODES := map[
    "master" := Unflagged(2, "master"), "minion1" := Unflagged(3, "minion"), "minion2" := Unflagged(4, "minion")]

  /** The dual-stack sample, but for the size of the IPv4 management network: only /8 and /16
      are accepted, and it gives a /24. */
  const DUAL := Config(
    DualStack, DUAL_NODES,
    Net([10, 192, 0, 0], 16), Net([0xfd00, 0x20, 0, 0, 0, 0, 0, 0], 64), [NOTHING, NOTHING],
    Net([10, 244, 0, 0], 16), Net([0xfd00, 0x40, 0, 0, 0, 0, 0, 0], 72), [NOTHING, NOTHING], 9000,
    Net([10, 96, 0, 0], 12), NOTHING,
    Missing, NOTHING, Missing, Missing, "", "", "", "", Missing, "", "")

  const DUAL_ROLES := map["master" := ["master"], "minion1" := ["minion"], "minion2" := ["minion"]]

  lemma ServiceParsed()
    ensures IsParsed(Net([10, 96, 0, 0], 12))
  {
    assert ClearLow(96, 4) == 96;
    ClearLowZero(12);
    ClearLowZero(20);
    ClearLowZero(8);
  }

  lemma DualIsParsed()
    ensures IsParsed(DUAL.mgmtCidr) && IsParsed(DUAL.mgmtCidr2) && IsParsed(DUAL.podCidr) && IsParsed(DUAL.podCidr2)
    ensures IsParsed(DUAL.serviceCidr)
  {
    hide IsParsed;
    Parsed4(10, 192, 16);
    Parsed6(0xfd00, 0x20, 0, 0, 64);
    Parsed4(10, 244, 16);
    Parsed6(0xfd00, 0x40, 0, 0, 72);
    ServiceParsed();
  }

  lemma DualIsMade()
    ensures Spells(DUAL_NODES, DUAL_ROLES, "master") && NodesInRange(DUAL_NODES)
  {
    MasterSpells(2); MinionSpells(3); MinionSpells(4);
    NamesAreGood(); NamesDiffer();
    hide NodeSpells, GoodName, Spells, NodesInRange;
    ThreeSpell("master", "minion1", "minion2", Unflagged(2, "master"), Unflagged(3, "minion"), Unflagged(4, "minion"),
               ["master"], ["minion"], ["minion"]);
  }

  lemma DualIsLegal()
    ensures forall n <- DUAL_ROLES :: LegalIn(DualStack, DUAL_ROLES[n])
  {
    assert |"dns64"| == 5 && |"nat64"| == 5 && |"master"| == 6 && |"minion"| == 6;
    assert ["master"][0] == "master" && ["minion"][0] == "minion" && "master"[1] != "minion"[1];
    forall n <- DUAL_ROLES ensures LegalIn(DualStack, DUAL_ROLES[n]) {
      var ops := DUAL_ROLES[n];
      assert |ops| == 1 && (ops[0] == "master" || ops[0] == "minion");
    }
  }

  lemma DualIsAccepted()
    ensures Accepted(DUAL) && NodesFit(DUAL) && ServersFit(DUAL, POOL_IP)
  {
    DualIsParsed();
    DualIsMade();
    hide Mask, Spells, GoodName;
  }

  lemma SupportIsMissing()
    ensures IsParsed(DUAL.supportV4Cidr)
  {
  }

  /** A dual-stack configuration that is accepted, every node of it fit for prepare and clean. */
  lemma DualSampleIsFit(name: string)
    requires name in DUAL.topology
    ensures Accepted(DUAL) && NodesFit(DUAL) && RolesValid(DUAL.mode, DUAL.topology)
    ensures name in Final(DUAL).topology && NodePlan.Usable(Final(DUAL), Final(DUAL).topology[name])
    ensures Final(DUAL).mode == DualStack && IsCluster(Final(DUAL).topology[name])
  {
    DualIsAccepted();
    DualIsMade();
    DualIsLegal();
    assert DUAL.mode == DualStack && DUAL.topology == DUAL_NODES && Final(DUAL).mode == DualStack;
    assert UniqueIDs(DUAL_NODES);
    SupportIsMissing();
    hide DUAL, DUAL_NODES, DUAL_ROLES, LegalIn, Spells, Accepted, NodesFit, ServersFit, RolesValid, NodePlan.Usable,
      Derived, IsCluster, Legal, Flagged;
    SpelledIsValid(DualStack, DUAL_NODES, DUAL_ROLES, "master");
    AcceptedIsUsable(DUAL, POOL_IP, name);
  }

  /** Concrete: a host of that configuration with both addresses. A clean that stops after the
      first address leaves a state from which clean no longer gets to its target. */
  lemma DualPartialClean(name: string)
    requires name in DUAL.topology
    ensures Accepted(DUAL) && name in Final(DUAL).topology
    ensures var d, n := Final(DUAL), Final(DUAL).topology[name];
            && NodePlan.Usable(d, n) && IsCluster(n) && NodePlan.MgmtAddress(d, n, 0).Some?
            && var a := BARE.(addrs := NodePlan.MgmtAddrs(d, n));
               var b := a.(addrs := a.addrs - {NodePlan.MgmtAddress(d, n, 0).value});
               && NodePlan.Ready(n, a) && CleanPlan.Shrinks(d, n, a, b) && NodePlan.Ready(n, b)
               && CleanPlan.CleanTarget(d, n, b) != CleanPlan.CleanTarget(d, n, a)
  {
    hide DUAL, Accepted, NodesFit, RolesValid, NodePlan.Usable, Final, IsCluster, NodePlan.MgmtAddrs,
      CleanPlan.Shrinks, Lifecycle.Fresh, NodePlan.FilesReady, NodePlan.MgmtAddress, CleanPlan.CleanTarget,
      NodePlan.InOrder;
    DualSampleIsFit(name);
    var d, n := Final(DUAL), Final(DUAL).topology[name];
    UsableHasAddress(d, n);
    BareHostIsFresh(d, n);
    Lifecycle.FreshIsClean(d, n, BARE);
    var a := BARE.(addrs := NodePlan.MgmtAddrs(d, n));
    CleanPlan.PartialCleanBreaksOrder(d, n, a);
    Lifecycle.SecondAddressStays(d, n, a, a.(addrs := a.addrs - {NodePlan.MgmtAddress(d, n, 0).value}));
  }

  lemma UsableHasAddress(c: Config, node: Node)
    requires NodePlan.Usable(c, node) && IsCluster(node)
    ensures |c.mgmtInfo| == 2 && NodePlan.MgmtAddress(c, node, 0).Some?
  {
  }
}
