/** What the route mesh amounts to for an accepted configuration. */
module MeshTheorems {
  import opened Wrappers
  import opened Text
  import opened Numerals
  import opened AddressText
  import opened PodSubnets
  import opened NodeAddresses
  import opened Configs
  import opened Validation
  import opened PeerRoutes
  import opened HostMachine
  import opened RouteMesh

  // ------------------------------------------------------------ up and down

  /** Taking away what was added gives the old table back. */
  lemma AddThenDelete(c: Config, me: Node, ws: set<Peer>, before: map<Block, Hop>, up: map<Block, Hop>,
                      down: map<Block, Hop>)
    requires HasEntries(c) && Consistent(c, ws)
    requires Differ(c, me, ws, before, up) && Differ(c, me, ws, down, up)
    ensures down == before
  {
    hide DestOf, GatewayOf;
    forall b ensures b in before <==> b in down {
      assert b in before ==> b in up;
      assert b in down ==> b in up;
    }
    forall b | b in before ensures before[b] == down[b] { assert up[b] == before[b] && up[b] == down[b]; }
  }

  lemma DropOne(c: Config, me: Node, ws: set<Peer>, w: Peer, before: map<Block, Hop>, up: map<Block, Hop>)
    requires HasEntries(c) && Consistent(c, ws) && Differ(c, me, ws, before, up) && w in ws
    ensures Parses(c, w) && Dest(c, w) in up
    ensures Consistent(c, ws - {w}) && Differ(c, me, ws - {w}, before, up - {Dest(c, w)})
  {
    hide DestOf, GatewayOf, HasParts;
    var less := up - {Dest(c, w)};
    forall b <- less ensures b in before || exists v <- ws - {w} :: Parses(c, v) && Dest(c, v) == b {
      if b !in before {
        var v :| v in ws && Parses(c, v) && Dest(c, v) == b;
        assert v in ws - {w};
      }
    }
  }

  lemma NothingAdded(c: Config, me: Node, before: map<Block, Hop>, up: map<Block, Hop>)
    requires HasEntries(c) && Differ(c, me, {}, before, up)
    ensures up == before
  {
  }

  /** One route more for each wanted one. */
  lemma {:induction false} RoutesAdded(c: Config, me: Node, ws: set<Peer>, before: map<Block, Hop>, up: map<Block, Hop>)
    requires HasEntries(c) && Consistent(c, ws) && Differ(c, me, ws, before, up)
    ensures |up| == |before| + |ws|
    decreases |ws|
  {
    hide Consistent, Differ, HasParts, DestOf, GatewayOf;
    if ws == {} {
      NothingAdded(c, me, before, up);
    } else {
      var w :| w in ws;
      DropOne(c, me, ws, w, before, up);
      var less := up - {Dest(c, w)};
      RoutesAdded(c, me, ws - {w}, before, less);
      assert up.Keys == less.Keys + {Dest(c, w)};
      assert |up| == |up.Keys| && |less| == |less.Keys|;
    }
  }

  /** "up" followed by "down" on a host without failing calls and without the wanted
      destinations: both succeed, under every order of both walks, and the table is as before. */
  method UpThenDown(me: Node, c: Config, h: Host) returns (up: Error, down: Error)
    requires h.Valid() && h.reliable && HasEntries(c)
    requires Consistent(c, Peers(c, me)) && NonePresent(c, Peers(c, me), h.s.routes)
    modifies h
    ensures up == Nil && down == Nil && h.s == old(h.s)
  {
    hide Consistent, NonePresent, InPlace, Peers, HasParts;
    ghost var before := h.s.routes;
    ghost var first, second;
    up, first, second := DoRouteOpsOnNodes(me, c, Add, h);
    ghost var added := h.s.routes;
    assert InPlace(c, me, Peers(c, me), added);
    down, first, second := DoRouteOpsOnNodes(me, c, Delete, h);
    AddThenDelete(c, me, Peers(c, me), before, added, h.s.routes);
  }

  // ------------------------------------------------------------ accepted configurations

  const BLANK := NetInfo("", 0, Unset)

  /** The networks of a pod entry and of the management entry of its family. */
  function PodNet(c: Config, entry: nat): Cidr { if entry == 0 then c.podCidr else c.podCidr2 }

  function MgmtNet(c: Config, entry: nat): Cidr
    requires PodNet(c, entry).Net? && c.mgmtCidr.Net?
  {
    if FamilyOf(PodNet(c, entry).net) == FamilyOf(c.mgmtCidr.net) then c.mgmtCidr else c.mgmtCidr2
  }

  /** Freshly read, accepted, with networks the addressing scheme works for and IDs that fit a
      byte. */
  predicate Suitable(c: Config) {
    && AllParsed(c) && Derivable(c)
    && UniqueIDs(c.topology) && (forall n <- c.topology :: c.topology[n].id < 256)
    && c.podInfo[1] == BLANK && c.mgmtInfo[1] == BLANK
    && GoodPodNetwork(c.podCidr.net, c.podCidr.bits) && GoodMgmtNetwork(c.mgmtCidr.net)
    && (c.mode == DualStack ==> GoodPodNetwork(c.podCidr2.net, c.podCidr2.bits) && GoodMgmtNetwork(c.mgmtCidr2.net))
  }

  /** Every pod network has a management network of its family; in the single-family modes
      nothing checks that the two are of one family. */
  predicate Matched(c: Config)
    requires c.podCidr.Net? && c.mgmtCidr.Net?
  {
    c.mode == DualStack || FamilyOf(c.podCidr.net) == FamilyOf(c.mgmtCidr.net)
  }

  /** Each entry pairs a pod network with the management network of the same family, or else
      with the blank entry. */
  lemma EntryNetworks(c: Config, entry: nat)
    requires Suitable(c) && entry < 2 && (entry == 1 ==> c.mode == DualStack)
    ensures PodNet(c, entry).Net? && GoodPodNetwork(PodNet(c, entry).net, PodNet(c, entry).bits)
    ensures HasEntries(Derived(c)) && Derived(c).podInfo[entry] == PodInfoOf(PodNet(c, entry))
    ensures Matched(c) ==>
              && MgmtNet(c, entry).Net? && GoodMgmtNetwork(MgmtNet(c, entry).net)
              && FamilyOf(MgmtNet(c, entry).net) == FamilyOf(PodNet(c, entry).net)
              && MgmtFor(Derived(c), entry) == NetInfoOf(MgmtNet(c, entry))
    ensures !Matched(c) ==> MgmtFor(Derived(c), entry) == BLANK
  {
    hide GoodPodNetwork, UniqueIDs, V6Text, V4Prefix, PrefixText, HasParts, Mask;
    PodDest(c.podCidr.net, c.podCidr.bits, 0);
    if c.mode == DualStack { PodDest(c.podCidr2.net, c.podCidr2.bits, 0); } else { BlankHasParts(); }
  }

  lemma BlankHasParts()
    ensures HasParts(BLANK)
  {
  }

  /** Whom a node wants routes to: every node with another ID that is a master or a minion, once for
      each family; and none if it is neither itself. */
  lemma PeersExactly(c: Config, me: Node, w: Peer)
    requires Suitable(c)
    ensures HasEntries(Derived(c))
    ensures w in Peers(Derived(c), me) <==>
              && (me.isMaster || me.isMinion) && w.entry < (if c.mode == DualStack then 2 else 1)
              && w.name in c.topology && c.topology[w.name].id != me.id
              && (c.topology[w.name].isMaster || c.topology[w.name].isMinion)
  {
    PrefixesOfEntries(c);
    hide Suitable, HasEntries, Derived, Peers;
    PeersAre(Derived(c), me, w);
  }

  lemma PrefixesOfEntries(c: Config)
    requires Suitable(c)
    ensures HasEntries(Derived(c)) && Derived(c).topology == c.topology
    ensures Derived(c).podInfo[0].prefix != "" && (Derived(c).podInfo[1].prefix != "" <==> c.mode == DualStack)
  {
    EntryNetworks(c, 0);
    PrefixPresent(c, 0);
    if c.mode == DualStack { PrefixPresent(c, 1); }
    hide GoodPodNetwork, UniqueIDs, V6Text, V4Prefix, PrefixText, HasParts, Mask;
  }

  /** Over IPv4 every accepted pod network is one the address scheme works for. */
  lemma AcceptedPodIsGood(c: Config)
    requires AllParsed(c) && Derivable(c) && |c.podCidr.net| == 4
    ensures GoodPodNetwork(c.podCidr.net, c.podCidr.bits)
  {
    hide Mask;
  }

  lemma PeerOfAccepted(c: Config, me: Node, w: Peer)
    requires Suitable(c) && HasEntries(Derived(c)) && w in Peers(Derived(c), me)
    ensures w.entry < 2 && (w.entry == 1 ==> c.mode == DualStack) && w.name in c.topology
    ensures c.topology[w.name].id != me.id && c.topology[w.name].id < 256
  {
    hide GoodPodNetwork, V6Text, V4Prefix, PrefixText, HasParts, Mask;
    PeersAre(Derived(c), me, w);
  }

  /** The route to a peer: its block over its management address, or an unusable gateway; never
      a usable one without a management network of the family. */
  lemma WantedRoute(c: Config, me: Node, w: Peer)
    requires Suitable(c) && HasEntries(Derived(c)) && w in Peers(Derived(c), me)
    ensures w.entry < 2 && w.name in c.topology && PodNet(c, w.entry).Net?
    ensures GoodPodNetwork(PodNet(c, w.entry).net, PodNet(c, w.entry).bits)
    ensures var id, pod := c.topology[w.name].id, PodNet(c, w.entry);
            && DestOf(Derived(c), w) == Some(PeerBlock(pod.net, pod.bits, id))
            && (Matched(c) ==>
                  && MgmtNet(c, w.entry).Net? && GoodMgmtNetwork(MgmtNet(c, w.entry).net)
                  && (GatewayOf(Derived(c), w).Some? <==> FamilyOf(pod.net) == V6 || IsNumeral(Hex(id), 10))
                  && (GatewayOf(Derived(c), w) == Some(PeerAddress(MgmtNet(c, w.entry).net, id)) <==>
                       FamilyOf(pod.net) == V6 || id < 10))
            && (!Matched(c) ==> GatewayOf(Derived(c), w) == None)
  {
    PeerOfAccepted(c, me, w);
    EntryNetworks(c, w.entry);
    hide Suitable, GoodPodNetwork, GoodMgmtNetwork, ParseCIDR, ParseAddress, DestText, BuildGWIP, IsNumeral, Render,
      PodInfoOf, NetInfoOf, Derivable;
    var id := c.topology[w.name].id;
    PodDest(PodNet(c, w.entry).net, PodNet(c, w.entry).bits, id);
    if Matched(c) {
      GatewayDenotesPeer(MgmtNet(c, w.entry).net, MgmtNet(c, w.entry).bits, id);
    } else {
      NoGatewayText(id);
    }
  }

  lemma NoGatewayText(id: nat)
    ensures ParseAddress(BuildGWIP(BLANK.prefix, id)) == None
  {
    hide Split, Render;
    HexNoColon(id);
    assert "" + Hex(id) == Hex(id);
    SplitPlain(Hex(id), '.');
  }

  /** Routes to different peers, or of different families, never share a destination. */
  lemma WantedRoutesDiffer(c: Config, me: Node, v: Peer, w: Peer)
    requires Suitable(c) && HasEntries(Derived(c)) && v in Peers(Derived(c), me) && w in Peers(Derived(c), me) && v != w
    ensures DestOf(Derived(c), v) != DestOf(Derived(c), w)
  {
    WantedRoute(c, me, v);
    WantedRoute(c, me, w);
    PeerOfAccepted(c, me, v);
    PeerOfAccepted(c, me, w);
    var i, j := c.topology[v.name].id, c.topology[w.name].id;
    assert v.entry == w.entry ==> i != j;
    var x, y := PodNet(c, v.entry), PodNet(c, w.entry);
    assert v.entry != w.entry ==> |x.net| != |y.net| by {
      PodLength(c, v.entry);
      PodLength(c, w.entry);
    }
    BlockLiesInNetwork(x.net, x.bits, i);
    BlockLiesInNetwork(y.net, y.bits, j);
    hide Suitable, HasEntries, Peers, Derived, GoodPodNetwork, GoodMgmtNetwork, PodNet, PeerBlock, DestOf, Mask;
    if v.entry == w.entry { PeerBlocksDiffer(x.net, x.bits, i, j); }
  }

  /** For an accepted configuration the wanted routes are consistent, so that "up" succeeds
      on a clean table, exactly when every IPv4 gateway text is an address; with pods of another
      family than the only management network, exactly when there are no peers. */
  lemma AcceptedIsConsistent(c: Config, me: Node)
    requires Suitable(c)
    ensures HasEntries(Derived(c))
    ensures Consistent(Derived(c), Peers(Derived(c), me)) <==>
              if Matched(c) then
                forall w <- Peers(Derived(c), me) ::
                  FamilyOf(PodNet(c, w.entry).net) == V6 || IsNumeral(Hex(c.topology[w.name].id), 10)
              else Peers(Derived(c), me) == {}
  {
    EntryNetworks(c, 0);
    hide GoodPodNetwork, GoodMgmtNetwork, DestOf, GatewayOf, IsNumeral, Render, PodInfoOf, NetInfoOf, Derived,
      Derivable, Peers, HasEntries, UniqueIDs;
    var ws := Peers(Derived(c), me);
    forall w <- ws
      ensures w.entry < 2 && w.name in c.topology && PodNet(c, w.entry).Net?
      ensures Parses(Derived(c), w) <==>
                Matched(c) && (FamilyOf(PodNet(c, w.entry).net) == V6 || IsNumeral(Hex(c.topology[w.name].id), 10))
    {
      WantedRoute(c, me, w);
    }
    forall v, w | v in ws && w in ws && v != w && Parses(Derived(c), v) && Parses(Derived(c), w)
      ensures Dest(Derived(c), v) != Dest(Derived(c), w)
    {
      WantedRoutesDiffer(c, me, v, w);
    }
  }

  /** Full mesh, right family: after a successful add step of node a, its table leads to the
      pod block of every other cluster node b, in each configured family, over b's address on
      the management network of that same family (for IPv4: if b's ID is below ten). */
  lemma FullMesh(c: Config, a: string, b: string, entry: nat, before: map<Block, Hop>, after: map<Block, Hop>)
    requires Suitable(c) && HasEntries(Derived(c))
    requires a in c.topology && b in c.topology && a != b && IsCluster(c.topology[a]) && IsCluster(c.topology[b])
    requires entry < 2 && (entry == 1 ==> c.mode == DualStack)
    requires PodNet(c, entry).Net? && MgmtNet(c, entry).Net?
    requires Differ(Derived(c), c.topology[a], Peers(Derived(c), c.topology[a]), before, after)
    requires Consistent(Derived(c), Peers(Derived(c), c.topology[a]))
    ensures GoodPodNetwork(PodNet(c, entry).net, PodNet(c, entry).bits)
    ensures var pod, mgmt, id := PodNet(c, entry), MgmtNet(c, entry).net, c.topology[b].id;
            var block := PeerBlock(pod.net, pod.bits, id);
            && block !in before && block in after
            && after[block].link == Named(c.topology[a].link)
            && |after[block].gw| == |block.net|
            && (FamilyOf(pod.net) == V6 || id < 10 ==> after[block].gw == PeerAddress(mgmt, id))
  {
    var d, me, w := Derived(c), c.topology[a], Peer(entry, b);
    EntryNetworks(c, entry);
    assert c.topology[a].id != c.topology[b].id;
    PrefixPresent(c, entry);
    PeersAre(d, me, w);
    WantedRoute(c, me, w);
    MeshEntry(d, me, Peers(d, me), w, before, after);
    assert Matched(c);
    GatewayFamily(c, entry, c.topology[b].id);
    PodLength(c, entry);
    BlockLiesInNetwork(PodNet(c, entry).net, PodNet(c, entry).bits, c.topology[b].id);
    hide Suitable, HasEntries, Peers, Derived, Consistent, Differ, GoodPodNetwork, GoodMgmtNetwork, PeerBlock, Mask,
      NetInfoOf, MgmtFor, PeerAddress;
  }

  lemma PrefixPresent(c: Config, entry: nat)
    requires Suitable(c) && entry < 2 && (entry == 1 ==> c.mode == DualStack)
    ensures Derived(c).podInfo[entry].prefix != ""
  {
    EntryNetworks(c, entry);
    hide Suitable, GoodPodNetwork, GoodMgmtNetwork, PodInfoOf, DestText, ParseCIDR, HasParts, Derivable;
    PodDest(PodNet(c, entry).net, PodNet(c, entry).bits, 0);
  }

  lemma MeshEntry(d: Config, me: Node, ws: set<Peer>, w: Peer, before: map<Block, Hop>, after: map<Block, Hop>)
    requires HasEntries(d) && w in ws && Consistent(d, ws) && Differ(d, me, ws, before, after)
    ensures Parses(d, w) && Dest(d, w) !in before && Dest(d, w) in after && after[Dest(d, w)] == HopOf(d, me, w)
  {
    hide DestOf, GatewayOf, HasParts;
  }

  /** A gateway text that parses has the length of its management network's addresses. */
  lemma GatewayFamily(c: Config, entry: nat, id: nat)
    requires Suitable(c) && entry < 2 && (entry == 1 ==> c.mode == DualStack) && id < 256
    requires PodNet(c, entry).Net? && MgmtNet(c, entry).Net? && HasEntries(Derived(c)) && Matched(c)
    ensures var gw := ParseAddress(BuildGWIP(MgmtFor(Derived(c), entry).prefix, id));
            gw.Some? ==> |gw.value| == |PodNet(c, entry).net|
  {
    EntryNetworks(c, entry);
    hide Suitable, GoodPodNetwork, V6Text, V4Prefix, Render, Derivable, HasParts, ParseV4;
    var mgmt := MgmtNet(c, entry).net;
    PodLength(c, entry);
    if FamilyOf(mgmt) == V6 {
      NodeAddress6(mgmt, id);
    } else {
      HexNoColon(id);
      NodeText4(mgmt, Hex(id));
    }
  }

  lemma PodLength(c: Config, entry: nat)
    requires Suitable(c) && entry < 2 && (entry == 1 ==> c.mode == DualStack)
    requires PodNet(c, entry).Net?
    ensures |PodNet(c, entry).net| == if FamilyOf(PodNet(c, entry).net) == V6 then 8 else 4
  {
  }
}
