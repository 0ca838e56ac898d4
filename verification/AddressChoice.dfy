/** Which management address a node is known by: to the interface, to the hosts files, to
    the API server and to joining nodes (prepare.go, up.go). */
module AddressChoice {
  import opened Wrappers
  import opened Text
  import opened Numerals
  import opened AddressText
  import opened PodSubnets
  import opened NodeAddresses
  import opened Configs
  import opened Validation
  import opened PeerRoutes
  import opened NodeList
  import NodePlan
  import opened HostMachine

  // ------------------------------------------------------------ the code's choices

  /** The kubeadm settings use the entry whose family is the service network's, or else the
      second one. */
  function AdvertiseEntry(c: Config): NetInfo
    requires |c.mgmtInfo| == 2
  {
    if c.mgmtInfo[0].mode != c.serviceInfo.mode then c.mgmtInfo[1] else c.mgmtInfo[0]
  }

  function AdvertiseAddress(c: Config, n: Node): string
    requires |c.mgmtInfo| == 2
  {
    AdvertiseEntry(c).prefix + Dec(n.id)
  }

  /** The address in the endpoint argument of "kubeadm join". */
  function JoinAddress(c: Config, master: Node): string
    requires |c.mgmtInfo| == 2
  {
    c.mgmtInfo[0].prefix + Dec(master.id)
  }

  // ------------------------------------------------------------ accepted configurations

  /** Freshly read and accepted, with management networks that leave the last group for the node. */
  predicate Accepted(c: Config) {
    && AllParsed(c) && Derivable(c) && c.mgmtInfo[1] == NetInfo("", 0, Unset)
    && GoodMgmtNetwork(c.mgmtCidr.net) && (c.mode == DualStack ==> GoodMgmtNetwork(c.mgmtCidr2.net))
  }

  /** The management network behind an entry. */
  function MgmtCidr(c: Config, i: nat): Cidr { if i == 0 then c.mgmtCidr else c.mgmtCidr2 }

  /** Some management network has the family of the service network. */
  predicate ServiceFamilyManaged(c: Config)
    requires c.mgmtCidr.Net? && c.serviceCidr.Net?
  {
    c.mode == DualStack || FamilyOf(c.mgmtCidr.net) == FamilyOf(c.serviceCidr.net)
  }

  /** The network of that family. */
  function ServiceSide(c: Config): Cidr
    requires c.mgmtCidr.Net? && c.serviceCidr.Net?
  {
    if FamilyOf(c.mgmtCidr.net) == FamilyOf(c.serviceCidr.net) then c.mgmtCidr else c.mgmtCidr2
  }

  lemma EntryOf(c: Config, i: nat)
    requires Accepted(c) && i < 2 && (i == 1 ==> c.mode == DualStack)
    ensures MgmtCidr(c, i).Net? && GoodMgmtNetwork(MgmtCidr(c, i).net)
    ensures |Derived(c).mgmtInfo| == 2 && Derived(c).mgmtInfo[i] == NetInfoOf(MgmtCidr(c, i))
    ensures MgmtCidr(c, i).bits <= if FamilyOf(MgmtCidr(c, i).net) == V6 then 128 else 32
    ensures c.serviceCidr.Net? && Derived(c).serviceInfo.mode == FamilyOf(c.serviceCidr.net)
  {
    hide V6Text, V4Prefix, PrefixText, Mask;
  }

  /** The advertised address is the one the hosts files give, unless no management network
      has the service family; then it is a bare number, which is no address at all. */
  lemma AdvertisedIsListed(c: Config, name: string)
    requires Accepted(c) && name in c.topology
    ensures |Derived(c).mgmtInfo| == 2
    ensures var d, n := Derived(c), c.topology[name];
            && (AdvertiseAddress(d, n) == InfoOf(d, name).ip <==> ServiceFamilyManaged(c))
            && (!ServiceFamilyManaged(c) ==>
                 AdvertiseAddress(d, n) == Dec(n.id) && ParseAddress(AdvertiseAddress(d, n)) == None)
  {
    hide V6Text, V4Prefix, PrefixText, Mask, Derivable, ParseAddress, Render;
    var d, n := Derived(c), c.topology[name];
    EntryOf(c, 0);
    PrefixBytes(c.mgmtCidr.net, c.mgmtCidr.bits);
    if !ServiceFamilyManaged(c) {
      assert AdvertiseAddress(d, n) == "" + Dec(n.id) == Dec(n.id);
      assert |InfoOf(d, name).ip| > |Dec(n.id)|;
      BareNumber(n.id);
    }
  }

  lemma BareNumber(id: nat)
    ensures ParseAddress(Dec(id)) == None
  {
    hide Render, Split;
    RenderDigits(id, 10);
    SplitPlain(Dec(id), '.');
  }

  /** What tells the families apart in text. */
  lemma PrefixBytes(net: Address, bits: nat)
    requires GoodMgmtNetwork(net)
    ensures var p := NetInfoOf(Net(net, bits)).prefix;
            p != "" && (':' in p <==> FamilyOf(net) == V6)
  {
    hide V6Text, Render;
    if FamilyOf(net) == V6 {
      hide Numerals.Value;
      HexSuffix(0);
      NodeText6(net, Hex(0));
      HexNoColon(0);
      assert V6Text(net) + Hex(0) != "";
    } else {
      RenderDigits(net[0], 10);
      RenderDigits(net[1], 10);
      RenderDigits(net[2], 10);
    }
  }

  /** Joining nodes call the advertised address exactly if the first management network has
      the service family: in dual-stack mode the endpoint ignores the second one. */
  lemma JoinReachesAdvertised(c: Config, master: Node)
    requires Accepted(c)
    ensures |Derived(c).mgmtInfo| == 2
    ensures JoinAddress(Derived(c), master) == AdvertiseAddress(Derived(c), master) <==>
              FamilyOf(c.mgmtCidr.net) == FamilyOf(c.serviceCidr.net)
  {
    hide V6Text, V4Prefix, PrefixText, Mask, ParseAddress, Render;
    var d := Derived(c);
    EntryOf(c, 0);
    PrefixBytes(c.mgmtCidr.net, c.mgmtCidr.bits);
    HexNoColon(0);
    RenderDigits(master.id, 10);
    if FamilyOf(c.mgmtCidr.net) != FamilyOf(c.serviceCidr.net) {
      if c.mode == DualStack {
        EntryOf(c, 1);
        PrefixBytes(c.mgmtCidr2.net, c.mgmtCidr2.bits);
        assert ':' in JoinAddress(d, master) <==> ':' !in AdvertiseAddress(d, master);
      } else {
        assert |JoinAddress(d, master)| > |AdvertiseAddress(d, master)|;
      }
    }
  }

  /** What the decimal text denotes: the node's own address, always in IPv4, and in IPv6
      exactly for IDs below ten. */
  lemma DecimalDenotesNode(net: Address, bits: nat, id: nat)
    requires GoodMgmtNetwork(net) && id < 256
    ensures var text := ParseAddress(NetInfoOf(Net(net, bits)).prefix + Dec(id));
            text.Some? && (text == Some(PeerAddress(net, id)) <==> FamilyOf(net) == V4 || id < 10)
  {
    hide ParseAddress, V6Text, V4Prefix, Render, IsNumeral;
    if FamilyOf(net) == V6 {
      NodeAddress6(net, id);
    } else {
      NodeAddress4(net, id);
    }
  }

  /** So the API server is advertised at the master's own management address exactly in the
      IPv4 case and for small IDs. */
  lemma AdvertisedIsOwn(c: Config, n: Node)
    requires Accepted(c) && n.id < 256 && ServiceFamilyManaged(c)
    ensures |Derived(c).mgmtInfo| == 2 && ServiceSide(c).Net? && GoodMgmtNetwork(ServiceSide(c).net)
    ensures ParseAddress(AdvertiseAddress(Derived(c), n)) == Some(PeerAddress(ServiceSide(c).net, n.id)) <==>
              FamilyOf(c.serviceCidr.net) == V4 || n.id < 10
  {
    hide V6Text, V4Prefix, PrefixText, Mask, ParseAddress, Render;
    EntryOf(c, 0);
    if c.mode == DualStack { EntryOf(c, 1); }
    DecimalDenotesNode(ServiceSide(c).net, ServiceSide(c).bits, n.id);
  }

  // ------------------------------------------------------------ the interface's address

  /** The address put on the interface is the node's address on the network, with the
      network's size. */
  lemma InterfaceAddress(c: Config, n: Node, i: nat)
    requires Accepted(c) && i < 2 && (i == 1 ==> c.mode == DualStack) && n.id < 256
    ensures |Derived(c).mgmtInfo| == 2 && MgmtCidr(c, i).Net? && GoodMgmtNetwork(MgmtCidr(c, i).net)
    ensures NodePlan.MgmtAddress(Derived(c), n, i)
              == Some(LinkAddr(n.link, PeerAddress(MgmtCidr(c, i).net, n.id), MgmtCidr(c, i).bits))
  {
    hide V6Text, V4Prefix, PrefixText, Mask, ParseAddress, Render, Derivable, Split;
    EntryOf(c, i);
    var net, bits := MgmtCidr(c, i).net, MgmtCidr(c, i).bits;
    var info := NetInfoOf(MgmtCidr(c, i));
    var text := info.prefix + (if info.mode == V6 then Hex(n.id) else Dec(n.id));
    if info.mode == V6 { NodeAddress6(net, n.id); } else { NodeAddress4(net, n.id); }
    assert BuildNodeCIDR(info, n.id) == text + "/" + Dec(info.size);
    InterfaceText(text, bits, PeerAddress(net, n.id), n.link);
  }

  lemma InterfaceText(address: string, bits: nat, a: Address, link: string)
    requires ParseAddress(address) == Some(a)
    ensures NodePlan.ParseInterface(address + "/" + Dec(bits), link) == Some(LinkAddr(link, a, bits))
  {
    AddressBytes(address, '/');
    hide ParseAddress, Split, Value, Render;
    RenderDigits(bits, 10);
    RenderRoundTrip(bits, 10);
    SplitPlain(address, '/');
    SplitPlain(Dec(bits), '/');
    SplitConcat(address, Dec(bits), '/');
  }

  /** Address text holds nothing but digits, colons and dots. */
  lemma AddressBytes(s: string, ch: char)
    requires ParseAddress(s).Some? && ch != ':' && ch != '.' && DigitValue(ch) >= 16
    ensures ch !in s
  {
    hide Split, Values, Value;
    if ch in s {
      if ':' in s {
        SplitHoldsBytes(s, ':', ch);
        var p :| p in Split(s, ':') && ch in p;
        HalvesHoldAll(Split(s, ':'), p);
        assert false;
      } else {
        SplitHoldsBytes(s, '.', ch);
      }
    }
  }

  lemma HalvesHoldAll(parts: seq<string>, p: string)
    requires Halves(parts).Some? && p in parts && p != ""
    ensures p in Halves(parts).value.0 || p in Halves(parts).value.1
  {
    var i := FirstEmpty(parts);
    var j :| 0 <= j < |parts| && parts[j] == p;
    if i < |parts| && j > i {
      var from := if i == 0 then 2 else i + 1;
      assert parts[from..][j - from] == p;
    } else {
      assert parts[..i][j] == p;
    }
  }
}
