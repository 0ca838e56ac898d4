/** The configuration checks and the fields they derive (validate.go, up.go). */
module Validation {
  import opened Wrappers
  import opened Text
  import opened AddressText
  import opened PodSubnets
  import opened NodeAddresses
  import opened Configs

  // ------------------------------------------------------------ networks

  datatype SizeCheck = AnySize | MgmtSize | PodSize | ServiceSize

  predicate SizeAllowed(check: SizeCheck, size: nat) {
    match check
    case AnySize => true
    case MgmtSize => size == 8 || size == 16
    case PodSize => size == 16
    case ServiceSize => size < 24
  }

  /** A CIDR the extraction accepts: readable, and of an allowed size if it is IPv4. */
  predicate Usable(c: Cidr, check: SizeCheck) {
    c.Net? && (FamilyOf(c.net) == V4 ==> SizeAllowed(check, c.bits))
  }

  /** The extracted prefix, size and family. */
  function NetInfoOf(c: Cidr): NetInfo
    requires c.Net? && (|c.net| == 4 || |c.net| == 8)
  {
    if FamilyOf(c.net) == V4 then NetInfo(V4Prefix(Octets(c.net)), c.bits, V4)
    else NetInfo(V6Text(c.net), c.bits, V6)
  }

  /** The pod entry: room for the node ID behind the network part, eight more bits. */
  function PodInfoOf(c: Cidr): NetInfo
    requires c.Net? && (|c.net| == 4 || |c.net| == 8)
  {
    var info := NetInfoOf(c);
    NetInfo(if info.mode == V6 then PrefixText(info.prefix, info.size) else info.prefix, info.size + 8, info.mode)
  }

  predicate AllParsed(c: Config) {
    && IsParsed(c.mgmtCidr) && IsParsed(c.mgmtCidr2) && IsParsed(c.podCidr) && IsParsed(c.podCidr2)
    && IsParsed(c.serviceCidr) && IsParsed(c.supportCidr) && IsParsed(c.dns64Cidr)
    && |c.mgmtInfo| == 2 && |c.podInfo| == 2
  }

  /** A first network, and in dual-stack mode a second one of the other family. */
  predicate NetworksFit(mode: Mode, first: Cidr, second: Cidr, check: SizeCheck) {
    && Usable(first, check)
    && if mode == DualStack
       then Usable(second, check) && FamilyOf(second.net) != FamilyOf(first.net)
       else second == Missing
  }

  /** What CalculateDerivedFields accepts. */
  predicate Derivable(c: Config) {
    && NetworksFit(c.mode, c.mgmtCidr, c.mgmtCidr2, MgmtSize)
    && Usable(c.serviceCidr, ServiceSize)
    && (if c.mode == IPv6Only then Usable(c.supportCidr, AnySize) else c.supportCidr == Missing)
    && NetworksFit(c.mode, c.podCidr, c.podCidr2, PodSize)
    && (c.mode == IPv6Only ==> c.dns64Cidr.Net?)
  }

  /** The sizes that make the difference: over IPv4 /8 and /16 for management, /16 for pods, and
      anything shorter than /24 for services; over IPv6 none. */
  lemma SizesExactly(c: Config, bits: nat)
    requires Derivable(c)
    ensures Derivable(c.(mgmtCidr := Net(c.mgmtCidr.net, bits))) <==> FamilyOf(c.mgmtCidr.net) == V6 || bits in {8, 16}
    ensures Derivable(c.(podCidr := Net(c.podCidr.net, bits))) <==> FamilyOf(c.podCidr.net) == V6 || bits == 16
    ensures Derivable(c.(serviceCidr := Net(c.serviceCidr.net, bits))) <==>
              FamilyOf(c.serviceCidr.net) == V6 || bits < 24
    ensures c.mode == DualStack ==>
              (Derivable(c.(mgmtCidr2 := Net(c.mgmtCidr2.net, bits))) <==>
                FamilyOf(c.mgmtCidr2.net) == V6 || bits in {8, 16})
    ensures c.mode == DualStack ==>
              (Derivable(c.(podCidr2 := Net(c.podCidr2.net, bits))) <==> FamilyOf(c.podCidr2.net) == V6 || bits == 16)
  {
  }

  /** The fields it derives. */
  function Derived(c: Config): Config
    requires AllParsed(c) && Derivable(c)
  {
    var dual := c.mode == DualStack;
    c.(mgmtInfo := [NetInfoOf(c.mgmtCidr), if dual then NetInfoOf(c.mgmtCidr2) else c.mgmtInfo[1]],
       podInfo := [PodInfoOf(c.podCidr), if dual then PodInfoOf(c.podCidr2) else c.podInfo[1]],
       serviceInfo := NetInfoOf(c.serviceCidr),
       supportInfo := if c.mode == IPv6Only then NetInfoOf(c.supportCidr) else c.supportInfo,
       dns64Prefix := if c.mode == IPv6Only then NetworkText(c.dns64Cidr.net) else c.dns64Prefix)
  }

  /** cidr.IP.String(). */
  function NetworkText(net: Address): string
    requires |net| == 4 || |net| == 8
  {
    if FamilyOf(net) == V4 then V4Text(Octets(net)) else V6Text(net)
  }

  lemma OctetsFit(net: Address)
    requires IsV4(net) || IsV6(net)
    ensures IsV4(Octets(net))
  {
    if |net| == 8 { assert net[6] in net && net[7] in net; }
  }

  class Configuration {
    var c: Config

    constructor (config: Config)
      ensures c == config
    {
      c := config;
    }

    /** Splits a CIDR into prefix, size and family; `was` is the record being filled. */
    method ExtractNetInfo(cidr: Cidr, was: NetInfo, check: SizeCheck) returns (ok: bool, info: NetInfo)
      requires IsParsed(cidr)
      ensures ok <==> Usable(cidr, check)
      ensures ok ==> info == NetInfoOf(cidr)
    {
      info := was;
      if !cidr.Net? {
        return false, info;
      }
      hide V6Text, V4Text, V4Prefix, Split;
      info := info.(prefix := NetworkText(cidr.net), size := cidr.bits);
      info := info.(mode := if FamilyOf(cidr.net) == V4 then V4 else V6);
      if info.mode == V4 {
        if !SizeAllowed(check, info.size) {
          return false, info;
        }
        OctetsFit(cidr.net);
        V4Parts(Octets(cidr.net));
        info := info.(prefix := MakeV4PrefixFromNetwork(info.prefix));
      }
      ok := true;
    }

    method CalculateDerivedFields() returns (ok: bool)
      requires AllParsed(c)
      modifies this
      ensures ok <==> Derivable(old(c))
      ensures ok ==> c == Derived(old(c))
      ensures c.topology == old(c.topology)
    {
      hide V6Text, V4Text, V4Prefix, PrefixText;
      var info: NetInfo;
      ok, info := ExtractNetInfo(c.mgmtCidr, c.mgmtInfo[0], MgmtSize);
      if !ok { return; }
      c := c.(mgmtInfo := c.mgmtInfo[0 := info]);
      if c.mode == DualStack {
        ok, info := ExtractNetInfo(c.mgmtCidr2, c.mgmtInfo[1], MgmtSize);
        if !ok { return; }
        c := c.(mgmtInfo := c.mgmtInfo[1 := info]);
        if c.mgmtInfo[1].mode == c.mgmtInfo[0].mode { return false; }
      } else if c.mgmtCidr2 != Missing {
        return false;
      }
      ok, info := ExtractNetInfo(c.serviceCidr, c.serviceInfo, ServiceSize);
      if !ok { return; }
      c := c.(serviceInfo := info);
      if c.mode == IPv6Only {
        ok, info := ExtractNetInfo(c.supportCidr, c.supportInfo, AnySize);
        if !ok { return; }
        c := c.(supportInfo := info);
      } else if c.supportCidr != Missing {
        return false;
      }
      ok := DerivePodFields();
      if !ok { return; }
      if c.mode == IPv6Only {
        if !c.dns64Cidr.Net? { return false; }
        c := c.(dns64Prefix := NetworkText(c.dns64Cidr.net));
      }
      ok := true;
      assert c.mgmtInfo == Derived(old(c)).mgmtInfo;
    }

    /** The pod network part of CalculateDerivedFields. */
    method DerivePodFields() returns (ok: bool)
      requires AllParsed(c)
      modifies this
      ensures ok <==> NetworksFit(old(c.mode), old(c.podCidr), old(c.podCidr2), PodSize)
      ensures c == old(c).(podInfo := c.podInfo) && |c.podInfo| == 2
      ensures ok ==>
                c.podInfo == [PodInfoOf(c.podCidr), if c.mode == DualStack then PodInfoOf(c.podCidr2)
                  else old(c.podInfo[1])]
    {
      hide V6Text, V4Text, V4Prefix, PrefixText;
      var info: NetInfo;
      var prefix: string;
      ok, info := ExtractNetInfo(c.podCidr, c.podInfo[0], PodSize);
      if !ok { return; }
      if info.mode == V6 {
        prefix := MakePrefixFromNetwork(info.prefix, info.size);
        info := info.(prefix := prefix);
      }
      info := info.(size := info.size + 8);
      c := c.(podInfo := c.podInfo[0 := info]);
      if c.mode == DualStack {
        ok, info := ExtractNetInfo(c.podCidr2, c.podInfo[1], PodSize);
        if !ok { return; }
        if info.mode == V6 {
          prefix := MakePrefixFromNetwork(info.prefix, info.size);
          info := info.(prefix := prefix);
        }
        info := info.(size := info.size + 8);
        c := c.(podInfo := c.podInfo[1 := info]);
        if c.podInfo[1].mode == c.podInfo[0].mode { return false; }
      } else if c.podCidr2 != Missing {
        return false;
      }
      ok := true;
    }

    // ---------------------------------------------------------- node IDs and roles

    /** Accepts exactly the topologies without a repeated ID, in whatever order the map is walked. */
    method ValidateUniqueIDs() returns (ok: bool)
      ensures ok <==> UniqueIDs(c.topology)
    {
      var t := c.topology;
      var ids: map<int, string> := map[];
      var remaining := t.Keys;
      while remaining != {}
        invariant remaining <= t.Keys
        invariant ids.Keys == set name | name in t.Keys - remaining :: t[name].id
        invariant forall id <- ids :: ids[id] in t.Keys - remaining && t[ids[id]].id == id
        invariant forall a, b | a in t.Keys - remaining && b in t.Keys - remaining && t[a].id == t[b].id :: a == b
        decreases remaining
      {
        var name :| name in remaining;
        var id := t[name].id;
        if id in ids {
          assert ids[id] != name && t[ids[id]].id == t[name].id;
          return false;
        }
        ids := ids[id := name];
        var before := remaining;
        remaining := remaining - {name};
        assert t.Keys - remaining == (t.Keys - before) + {name};
      }
      assert t.Keys - remaining == t.Keys;
      ok := true;
    }

    /** Sets role flags from the role names in `opmodes`. */
    method ValidateNodeOpModes(netMode: Mode, was: Node) returns (ok: bool, node: Node)
      ensures ok <==> RoleNamesValid(netMode, was)
      ensures ok ==> node == Flagged(was)
    {
      hide Fold, Split, FlaggedBy, AnyName;
      FlaggedByNothing(was);
      var validModes := ["master", "minion"];
      if netMode == IPv6Only {
        validModes := validModes + ["dns64", "nat64"];
      }
      node := was;
      var ops := Split(node.opModes, ' ');
      var anyModes := false;
      for i := 0 to |ops|
        invariant node == FlaggedBy(was, ops[..i])
        invariant anyModes <==> AnyName(ops[..i])
        invariant forall op <- ops[..i] :: op != "" ==> IsRole(netMode, op)
      {
        var op := ops[i];
        assert ops[..i + 1] == ops[..i] + [op] && op in ops;
        FlagOneMore(was, ops[..i], op);
        if op == "" {
          continue;
        }
        anyModes := true;
        var found := Fold(op) in validModes;
        if !found {
          return false, node;
        }
        match Fold(op)
        case "master" => node := node.(isMaster := true);
        case "dns64" => node := node.(isDNS64 := true);
        case "nat64" => node := node.(isNAT64 := true);
        case _ => node := node.(isMinion := true);
      }
      assert ops[..|ops|] == ops;
      ok := anyModes && !(node.isMaster && node.isMinion) && node.isDNS64 == node.isNAT64;
    }

    /** Checks and stores the roles of all nodes, in whatever order the map is walked. */
    method ValidateOpModesForAllNodes() returns (ok: bool)
      modifies this
      ensures ok <==> RolesValid(old(c.mode), old(c.topology))
      ensures ok ==> c == old(c).(topology := Roles(old(c.topology)))
    {
      hide Flagged, RoleNamesValid, Halfway, Masters;
      ghost var t, roles := c.topology, Roles(c.topology);
      var numMasters := 0;
      var remaining := c.topology.Keys;
      HalfwayStart(c.mode, t);
      while remaining != {}
        invariant remaining <= t.Keys
        invariant c == old(c).(topology := c.topology)
        invariant Halfway(c.mode, c.topology, t, remaining)
        invariant numMasters == |Masters(roles) - remaining| <= 1
        decreases remaining
      {
        var name :| name in remaining;
        HalfwayStep(c.mode, c.topology, t, remaining, name);
        var node := c.topology[name];
        node := node.(name := name);
        var good;
        good, node := ValidateNodeOpModes(c.mode, node);
        NameIsNoRole(c.mode, t[name], name);
        if !good {
          return false;
        }
        ghost var before := remaining;
        remaining := remaining - {name};
        MastersStep(t, before, name);
        if node.isMaster {
          numMasters := numMasters + 1;
        }
        if numMasters > 1 {
          SubsetSize(Masters(roles) - remaining, Masters(roles));
          return false;
        }
        c := c.(topology := c.topology[name := node]);
      }
      assert Masters(roles) - remaining == Masters(roles);
      HalfwayDone(c.mode, c.topology, t);
      ok := numMasters != 0;
    }

    /** The first master found, in whatever order the map is walked. */
    method DetermineMasterNode() returns (master: Option<Node>)
      ensures master == None <==> Masters(c.topology) == {}
      ensures forall name | Masters(c.topology) == {name} :: master == Some(c.topology[name])
    {
      var t := c.topology;
      var remaining := t.Keys;
      while remaining != {}
        invariant remaining <= t.Keys && Masters(t) <= remaining
        decreases remaining
      {
        var name :| name in remaining;
        if t[name].isMaster {
          assert name in Masters(t);
          return Some(t[name]);
        }
        remaining := remaining - {name};
      }
      master := None;
    }
  }

  predicate UniqueIDs(t: map<string, Node>) {
    forall a, b | a in t && b in t && t[a].id == t[b].id :: a == b
  }

  // ------------------------------------------------------------ roles

  /** strings.EqualFold on ASCII text, as a normal form. */
  function FoldByte(ch: char): char {
    if 'A' <= ch <= 'Z' then ch + ('a' - 'A') else ch
  }

  function Fold(s: string): string {
    seq(|s|, i requires 0 <= i < |s| => FoldByte(s[i]))
  }

  /** The two letters of either case. */
  predicate SameLetter(a: char, b: char) {
    ('A' <= a <= 'Z' && b as int == a as int + 32) || ('A' <= b <= 'Z' && a as int == b as int + 32)
  }

  /** Two texts have the same normal form exactly if they differ in case only. */
  lemma FoldIgnoresCase(s: string, t: string)
    ensures Fold(s) == Fold(t) <==>
              |s| == |t| && forall i | 0 <= i < |s| :: s[i] == t[i] || SameLetter(s[i], t[i])
  {
    if Fold(s) == Fold(t) {
      assert |Fold(s)| == |s| && |Fold(t)| == |t|;
      forall i | 0 <= i < |s| ensures s[i] == t[i] || SameLetter(s[i], t[i]) {
        assert Fold(s)[i] == Fold(t)[i];
      }
    }
  }

  predicate IsRole(mode: Mode, op: string) {
    Fold(op) == "master" || Fold(op) == "minion" || (mode == IPv6Only && (Fold(op) == "dns64" || Fold(op) == "nat64"))
  }

  predicate AnyName(ops: seq<string>) {
    exists op <- ops :: op != ""
  }

  predicate Names(ops: seq<string>, role: string) {
    exists op <- ops :: Fold(op) == role
  }

  /** The node with the flags its role names add. */
  function FlaggedBy(node: Node, ops: seq<string>): Node {
    node.(isMaster := node.isMaster || Names(ops, "master"),
          isMinion := node.isMinion || Names(ops, "minion"),
          isDNS64 := node.isDNS64 || Names(ops, "dns64"),
          isNAT64 := node.isNAT64 || Names(ops, "nat64"))
  }

  function Flagged(node: Node): Node { FlaggedBy(node, Split(node.opModes, ' ')) }

  lemma FlagOneMore(node: Node, ops: seq<string>, op: string)
    ensures var f := FlaggedBy(node, ops);
            FlaggedBy(node, ops + [op]) ==
            f.(isMaster := f.isMaster || Fold(op) == "master",
               isMinion := f.isMinion || Fold(op) == "minion",
               isDNS64 := f.isDNS64 || Fold(op) == "dns64",
               isNAT64 := f.isNAT64 || Fold(op) == "nat64")
    ensures op == "" ==> FlaggedBy(node, ops + [op]) == FlaggedBy(node, ops)
    ensures AnyName(ops + [op]) == (AnyName(ops) || op != "")
  {
    assert op in ops + [op];
    if AnyName(ops) {
      var w :| w in ops && w != "";
      assert w in ops + [op];
    }
    assert forall role: string :: Names(ops + [op], role) == (Names(ops, role) || Fold(op) == role);
  }

  lemma FlaggedByNothing(node: Node)
    ensures FlaggedBy(node, []) == node && !AnyName([])
  {
  }

  /** Legal role names only, at least one, master and minion not together, dns64 and nat64 together. */
  predicate RoleNamesValid(mode: Mode, node: Node) {
    var ops, f := Split(node.opModes, ' '), Flagged(node);
    && (forall op <- ops :: op != "" ==> IsRole(mode, op))
    && AnyName(ops)
    && !(f.isMaster && f.isMinion)
    && f.isDNS64 == f.isNAT64
  }

  lemma NameIsNoRole(mode: Mode, node: Node, name: string)
    ensures RoleNamesValid(mode, node.(name := name)) == RoleNamesValid(mode, node)
  {
  }

  /** The topology once names and flags are stored. */
  function Roles(t: map<string, Node>): map<string, Node> {
    map n | n in t :: Flagged(t[n].(name := n))
  }

  function Masters(t: map<string, Node>): set<string> {
    set n | n in t && t[n].isMaster
  }

  lemma MastersStep(t: map<string, Node>, remaining: set<string>, name: string)
    requires name in remaining && name in t
    ensures |Masters(Roles(t)) - (remaining - {name})|
         == |Masters(Roles(t)) - remaining| + (if Flagged(t[name].(name := name)).isMaster then 1 else 0)
  {
    hide Flagged;
    var m := Masters(Roles(t));
    assert m - (remaining - {name}) == (m - remaining) + (if Roles(t)[name].isMaster then {name} else {});
  }

  /** All nodes but the remaining ones are checked and stored. */
  ghost predicate Halfway(mode: Mode, now: map<string, Node>, t: map<string, Node>, remaining: set<string>) {
    && now.Keys == t.Keys
    && forall n <- t :: if n in remaining then now[n] == t[n] else now[n] == Roles(t)[n] && RoleNamesValid(mode, t[n])
  }

  lemma HalfwayStart(mode: Mode, t: map<string, Node>)
    ensures Halfway(mode, t, t, t.Keys) && Masters(Roles(t)) - t.Keys == {}
  {
  }

  lemma HalfwayStep(mode: Mode, now: map<string, Node>, t: map<string, Node>, remaining: set<string>, name: string)
    requires Halfway(mode, now, t, remaining) && name in remaining && name in t
    ensures name in now && now[name] == t[name]
    ensures RoleNamesValid(mode, t[name]) ==>
              Halfway(mode, now[name := Flagged(t[name].(name := name))], t, remaining - {name})
  {
    hide Flagged, RoleNamesValid;
  }

  lemma HalfwayDone(mode: Mode, now: map<string, Node>, t: map<string, Node>)
    requires Halfway(mode, now, t, {})
    ensures now == Roles(t) && forall n <- t :: RoleNamesValid(mode, t[n])
  {
    hide Flagged, RoleNamesValid;
  }

  predicate RolesValid(mode: Mode, t: map<string, Node>) {
    (forall n <- t :: RoleNamesValid(mode, t[n])) && |Masters(Roles(t))| == 1
  }

  lemma SubsetSize<T>(a: set<T>, b: set<T>)
    requires a <= b
    ensures |a| <= |b|
  {
    assert b == a + (b - a);
  }

  predicate FlagsClear(t: map<string, Node>) {
    forall n <- t :: !t[n].isMaster && !t[n].isMinion && !t[n].isDNS64 && !t[n].isNAT64
  }

  /** The roles as the documentation lists them; the servers' are for IPv6 clusters only. */
  predicate NamesValid(mode: Mode, ops: seq<string>) {
    && (forall op <- ops ::
          op == "" || Fold(op) in {"master", "minion"} || (mode == IPv6Only && Fold(op) in {"dns64", "nat64"}))
    && AnyName(ops)
    && !(Names(ops, "master") && Names(ops, "minion"))
    && (Names(ops, "dns64") <==> Names(ops, "nat64"))
  }

  function NamedMasters(t: map<string, Node>): set<string> {
    set n | n in t && Names(Split(t[n].opModes, ' '), "master")
  }

  /** With no flag set beforehand, acceptance is a statement about the role names alone:
      exactly one node names "master"; no node names both "master" and "minion"; "dns64"
      and "nat64" come together. */
  lemma RolesAreWhatNodesName(mode: Mode, t: map<string, Node>)
    requires FlagsClear(t)
    ensures RolesValid(mode, t) <==>
            && |NamedMasters(t)| == 1
            && forall n <- t :: NamesValid(mode, Split(t[n].opModes, ' '))
    ensures forall n <- t ::
              && n in Roles(t)
              && var ops, f := Split(t[n].opModes, ' '), Roles(t)[n];
                 && (f.isMaster <==> Names(ops, "master")) && (f.isMinion <==> Names(ops, "minion"))
                 && (f.isDNS64 <==> Names(ops, "dns64")) && (f.isNAT64 <==> Names(ops, "nat64"))
  {
    hide Split, NamesValid, RoleNamesValid;
    assert Masters(Roles(t)) == NamedMasters(t);
    if forall n <- t :: NamesValid(mode, Split(t[n].opModes, ' ')) {
      forall n <- t ensures RoleNamesValid(mode, t[n]) { ClearNode(mode, t[n]); }
    }
    if forall n <- t :: RoleNamesValid(mode, t[n]) {
      forall n <- t ensures NamesValid(mode, Split(t[n].opModes, ' ')) { ClearNode(mode, t[n]); }
    }
  }

  lemma ClearNode(mode: Mode, node: Node)
    requires !node.isMaster && !node.isMinion && !node.isDNS64 && !node.isNAT64
    ensures RoleNamesValid(mode, node) <==> NamesValid(mode, Split(node.opModes, ' '))
  {
  }

  /** The accepted topology has one master, and it is the node that names the role. */
  lemma TheMasterIsUnique(mode: Mode, t: map<string, Node>) returns (m: string)
    requires RolesValid(mode, t)
    ensures m in t && Masters(Roles(t)) == {m}
    ensures forall n <- Roles(t) :: Roles(t)[n].name == n
  {
    m :| m in Masters(Roles(t));
    assert |Masters(Roles(t)) - {m}| == 0;
    assert Masters(Roles(t)) == {m} + (Masters(Roles(t)) - {m});
  }
}
