/** The static routes between cluster nodes (DoRouteOpsOnNodes in plugin.go). */
module RouteMesh {
  import opened Wrappers
  import opened AddressText
  import opened NodeAddresses
  import opened Configs
  import opened PeerRoutes
  import opened HostMachine
  import opened Gateways

  datatype RouteOp = Add | Delete

  /** One route to ask for: a pod network entry and the name of a peer. */
  datatype Peer = Peer(entry: nat, name: string)

  /** Shape of the derived fields. */
  predicate HasEntries(c: Config) {
    |c.podInfo| == 2 && |c.mgmtInfo| == 2 && HasParts(c.podInfo[0]) && HasParts(c.podInfo[1])
  }

  predicate IsPeer(c: Config, me: Node, w: Peer)
    requires HasEntries(c)
  {
    && w.entry < 2 && c.podInfo[w.entry].prefix != ""
    && w.name in c.topology && c.topology[w.name].id != me.id && IsCluster(c.topology[w.name])
  }

  /** Every other cluster node, once for each configured family. */
  function Peers(c: Config, me: Node): set<Peer>
    requires HasEntries(c)
  {
    if IsCluster(me) then
      (set name | name in c.topology && IsPeer(c, me, Peer(0, name)) :: Peer(0, name))
      + (set name | name in c.topology && IsPeer(c, me, Peer(1, name)) :: Peer(1, name))
    else {}
  }

  /** The management entry of the pod entry's family. */
  function MgmtFor(c: Config, entry: nat): NetInfo
    requires HasEntries(c) && entry < 2
  {
    if c.podInfo[entry].mode != c.mgmtInfo[0].mode then c.mgmtInfo[1] else c.mgmtInfo[0]
  }

  function DestOf(c: Config, w: Peer): Option<Block>
    requires HasEntries(c) && w.entry < 2 && w.name in c.topology
  {
    ParseCIDR(DestText(c.podInfo[w.entry], c.topology[w.name].id))
  }

  function GatewayOf(c: Config, w: Peer): Option<Address>
    requires HasEntries(c) && w.entry < 2 && w.name in c.topology
  {
    ParseAddress(BuildGWIP(MgmtFor(c, w.entry).prefix, c.topology[w.name].id))
  }

  /** The two texts of a wanted route denote a network and an address. */
  predicate Parses(c: Config, w: Peer)
    requires HasEntries(c)
  {
    w.entry < 2 && w.name in c.topology && DestOf(c, w).Some? && GatewayOf(c, w).Some?
  }

  function Dest(c: Config, w: Peer): Block
    requires HasEntries(c) && Parses(c, w)
  {
    DestOf(c, w).value
  }

  function HopOf(c: Config, me: Node, w: Peer): Hop
    requires HasEntries(c) && Parses(c, w)
  {
    Hop(GatewayOf(c, w).value, Named(me.link))
  }

  /** All wanted routes make sense and lead to different networks. */
  ghost predicate Consistent(c: Config, ws: set<Peer>)
    requires HasEntries(c)
  {
    && (forall w <- ws :: Parses(c, w))
    && (forall v, w | v in ws && w in ws && v != w :: Dest(c, v) != Dest(c, w))
  }

  /** None of the destinations is in the table. */
  ghost predicate NonePresent(c: Config, ws: set<Peer>, routes: map<Block, Hop>)
    requires HasEntries(c)
  {
    forall w <- ws :: Parses(c, w) ==> Dest(c, w) !in routes
  }

  /** All the routes are in the table. */
  ghost predicate InPlace(c: Config, me: Node, ws: set<Peer>, routes: map<Block, Hop>)
    requires HasEntries(c)
  {
    forall w <- ws :: Parses(c, w) ==> Dest(c, w) in routes && routes[Dest(c, w)] == HopOf(c, me, w)
  }

  /** `big` is `small` plus exactly the routes in ws. */
  ghost predicate Differ(c: Config, me: Node, ws: set<Peer>, small: map<Block, Hop>, big: map<Block, Hop>)
    requires HasEntries(c)
  {
    && NonePresent(c, ws, small) && InPlace(c, me, ws, big)
    && (forall b <- small :: b in big && big[b] == small[b])
    && (forall b <- big :: b in small || exists w <- ws :: Parses(c, w) && Dest(c, w) == b)
  }

  /** The first entry comes before the second. */
  ghost predicate InTurn(part: set<Peer>, ws: set<Peer>) {
    forall v, w | v in part && w in ws && w.entry < v.entry :: w in part
  }

  /** Some of the routes in ws were added or deleted, those of the first entry first, and nothing
      else happened. */
  ghost predicate Touched(c: Config, me: Node, ws: set<Peer>, small: map<Block, Hop>, big: map<Block, Hop>)
    requires HasEntries(c)
  {
    exists part | part <= ws && InTurn(part, ws) :: Consistent(c, part) && Differ(c, me, part, small, big)
  }

  /** The peers handled once entries below `entry` are through and `remaining` names are left of it. */
  function DonePeers(c: Config, me: Node, entry: nat, remaining: set<string>): set<Peer>
    requires HasEntries(c)
  {
    set w | w in Peers(c, me) && (w.entry < entry || (w.entry == entry && w.name !in remaining))
  }

  lemma PeersAre(c: Config, me: Node, w: Peer)
    requires HasEntries(c)
    ensures w in Peers(c, me) <==> IsCluster(me) && IsPeer(c, me, w)
  {
    if IsCluster(me) && IsPeer(c, me, w) {
      assert w == Peer(w.entry, w.name);
      assert w.entry == 0 || w.entry == 1;
    }
  }

  lemma DoneStep(c: Config, me: Node, entry: nat, remaining: set<string>, name: string)
    requires HasEntries(c) && name in remaining && entry < 2
    ensures DonePeers(c, me, entry, remaining - {name})
         == DonePeers(c, me, entry, remaining) + (if Peer(entry, name) in Peers(c, me) then {Peer(entry, name)} else {})
    ensures Peer(entry, name) !in Peers(c, me) ==>
              DonePeers(c, me, entry, remaining - {name}) == DonePeers(c, me, entry, remaining)
    ensures Peer(entry, name) !in DonePeers(c, me, entry, remaining)
  {
    hide Peers;
  }

  lemma DoneEntry(c: Config, me: Node, entry: nat)
    requires HasEntries(c) && entry < 2
    ensures DonePeers(c, me, entry, {}) == DonePeers(c, me, entry + 1, c.topology.Keys)
    ensures DonePeers(c, me, 0, c.topology.Keys) == {} && DonePeers(c, me, 2, c.topology.Keys) == Peers(c, me)
    ensures c.podInfo[entry].prefix == "" ==>
              DonePeers(c, me, entry, c.topology.Keys) == DonePeers(c, me, entry + 1, c.topology.Keys)
    ensures DonePeers(c, me, entry, c.topology.Keys) <= Peers(c, me)
  {
    forall w ensures w in Peers(c, me) <==> IsCluster(me) && IsPeer(c, me, w) { PeersAre(c, me, w); }
    hide Peers;
  }

  /** One more route added to (or, read backwards, taken from) the table. */
  lemma OneMore(c: Config, me: Node, done: set<Peer>, w: Peer, small: map<Block, Hop>, big: map<Block, Hop>)
    requires HasEntries(c) && Parses(c, w) && w !in done
    requires Consistent(c, done) && Differ(c, me, done, small, big) && Dest(c, w) !in big
    ensures Consistent(c, done + {w}) && Differ(c, me, done + {w}, small, big[Dest(c, w) := HopOf(c, me, w)])
  {
    hide DestOf, GatewayOf;
    forall v <- done ensures Dest(c, v) != Dest(c, w) { assert Parses(c, v) && Dest(c, v) in big; }
    var bigger := big[Dest(c, w) := HopOf(c, me, w)];
    forall b <- bigger ensures b in small || exists v <- done + {w} :: Parses(c, v) && Dest(c, v) == b {
      if b == Dest(c, w) {
        assert w in done + {w};
      } else if b !in small {
        var v :| v in done && Parses(c, v) && Dest(c, v) == b;
        assert v in done + {w};
      }
    }
  }

  lemma OneLess(c: Config, me: Node, done: set<Peer>, w: Peer, small: map<Block, Hop>, big: map<Block, Hop>)
    requires HasEntries(c) && Parses(c, w) && w !in done
    requires Consistent(c, done) && Differ(c, me, done, small, big)
    requires Dest(c, w) in small && small[Dest(c, w)] == HopOf(c, me, w)
    ensures Consistent(c, done + {w}) && Differ(c, me, done + {w}, small - {Dest(c, w)}, big)
  {
    hide DestOf, GatewayOf;
    forall v <- done ensures Dest(c, v) != Dest(c, w) { assert Parses(c, v) && Dest(c, v) !in small; }
    forall b <- big ensures b in small - {Dest(c, w)} || exists v <- done + {w} :: Parses(c, v) && Dest(c, v) == b {
      if b == Dest(c, w) {
        assert w in done + {w};
      } else if b !in small {
        var v :| v in done && Parses(c, v) && Dest(c, v) == b;
        assert v in done + {w};
      }
    }
  }

  /** A wanted route that cannot be added, although all before it could. */
  lemma AddBlocked(c: Config, me: Node, done: set<Peer>, w: Peer, ws: set<Peer>, small: map<Block, Hop>,
                   big: map<Block, Hop>)
    requires HasEntries(c) && w in ws && w !in done && done <= ws
    requires Differ(c, me, done, small, big)
    requires !Parses(c, w) || Dest(c, w) in big
    ensures !(Consistent(c, ws) && NonePresent(c, ws, small))
  {
    hide DestOf, GatewayOf;
  }

  lemma DeleteBlocked(c: Config, me: Node, done: set<Peer>, w: Peer, ws: set<Peer>, small: map<Block, Hop>,
                      big: map<Block, Hop>)
    requires HasEntries(c) && w in ws && w !in done && done <= ws
    requires Consistent(c, done) && Differ(c, me, done, small, big)
    requires !Parses(c, w) || !(Dest(c, w) in small && small[Dest(c, w)] == HopOf(c, me, w))
    ensures !(Consistent(c, ws) && InPlace(c, me, ws, big))
  {
    hide DestOf, GatewayOf;
  }

  lemma NothingTouched(c: Config, me: Node, ws: set<Peer>, routes: map<Block, Hop>)
    requires HasEntries(c)
    ensures Consistent(c, {}) && Differ(c, me, {}, routes, routes) && Touched(c, me, ws, routes, routes)
  {
    assert Consistent(c, {}) && Differ(c, me, {}, routes, routes);
  }

  // ------------------------------------------------------------ walks in a given order

  /** The route is in the table. */
  predicate InTable(c: Config, me: Node, w: Peer, routes: map<Block, Hop>)
    requires HasEntries(c)
  {
    Parses(c, w) && Dest(c, w) in routes && routes[Dest(c, w)] == HopOf(c, me, w)
  }

  /** Whether the one route can be had, and the table that has (or lacks) it. */
  predicate CanDo(c: Config, me: Node, op: RouteOp, w: Peer, routes: map<Block, Hop>)
    requires HasEntries(c)
  {
    Parses(c, w) && if op == Add then Dest(c, w) !in routes else InTable(c, me, w, routes)
  }

  function Did(c: Config, me: Node, op: RouteOp, w: Peer, routes: map<Block, Hop>): map<Block, Hop>
    requires HasEntries(c) && Parses(c, w)
  {
    if op == Add then routes[Dest(c, w) := HopOf(c, me, w)] else routes - {Dest(c, w)}
  }

  /** The peers met for an entry, in the order of the names. */
  function PeersOf(c: Config, me: Node, entry: nat, names: seq<string>): seq<Peer>
    requires HasEntries(c)
  {
    if names == [] then []
    else
      (if Peer(entry, names[0]) in Peers(c, me) then [Peer(entry, names[0])] else [])
      + PeersOf(c, me, entry, names[1..])
  }

  /** All peers in the order of their turns: each entry walks the topology anew. */
  function Asked(c: Config, me: Node, first: seq<string>, second: seq<string>): seq<Peer>
    requires HasEntries(c)
  {
    PeersOf(c, me, 0, first) + PeersOf(c, me, 1, second)
  }

  /** The table after a walk without failing calls: it ends at the first route that cannot be had. */
  function Walk(c: Config, me: Node, op: RouteOp, ws: seq<Peer>, routes: map<Block, Hop>): map<Block, Hop>
    requires HasEntries(c)
  {
    if ws == [] || !CanDo(c, me, op, ws[0], routes) then routes
    else Walk(c, me, op, ws[1..], Did(c, me, op, ws[0], routes))
  }

  /** The walk gets through ws, from one table to the other. */
  ghost predicate Leads(c: Config, me: Node, op: RouteOp, ws: seq<Peer>, was: map<Block, Hop>, now: map<Block, Hop>)
    requires HasEntries(c)
  {
    forall rest :: Walk(c, me, op, ws + rest, was) == Walk(c, me, op, rest, now)
  }

  /** The walk ends within ws. */
  ghost predicate Ends(c: Config, me: Node, op: RouteOp, ws: seq<Peer>, was: map<Block, Hop>, now: map<Block, Hop>)
    requires HasEntries(c)
  {
    forall rest :: Walk(c, me, op, ws + rest, was) == now
  }

  lemma LeadsNowhere(c: Config, me: Node, op: RouteOp, routes: map<Block, Hop>)
    requires HasEntries(c)
    ensures Leads(c, me, op, [], routes, routes)
  {
    hide Walk;
    forall rest ensures Walk(c, me, op, [] + rest, routes) == Walk(c, me, op, rest, routes) {
      assert [] + rest == rest;
    }
  }

  lemma LeadsOn(c: Config, me: Node, op: RouteOp, a: seq<Peer>, b: seq<Peer>,
                was: map<Block, Hop>, mid: map<Block, Hop>, now: map<Block, Hop>)
    requires HasEntries(c) && Leads(c, me, op, a, was, mid)
    ensures Leads(c, me, op, b, mid, now) ==> Leads(c, me, op, a + b, was, now)
    ensures Ends(c, me, op, b, mid, now) ==> Ends(c, me, op, a + b, was, now)
  {
    hide Walk;
    forall rest ensures Walk(c, me, op, (a + b) + rest, was) == Walk(c, me, op, b + rest, mid) {
      assert (a + b) + rest == a + (b + rest);
    }
  }

  /** One peer more, whether it can be had or ends the walk. */
  lemma LeadsOver(c: Config, me: Node, op: RouteOp, w: Peer, was: map<Block, Hop>)
    requires HasEntries(c)
    ensures CanDo(c, me, op, w, was) ==> Leads(c, me, op, [w], was, Did(c, me, op, w, was))
    ensures !CanDo(c, me, op, w, was) ==> Ends(c, me, op, [w], was, was)
  {
    hide CanDo, Parses, Did;
    forall rest ensures [w] + rest != [] && ([w] + rest)[0] == w && ([w] + rest)[1..] == rest {}
  }

  /** What comes later does not matter to a walk that has ended. */
  lemma EndsAnyway(c: Config, me: Node, op: RouteOp, a: seq<Peer>, b: seq<Peer>, was: map<Block, Hop>,
                   now: map<Block, Hop>)
    requires HasEntries(c) && Ends(c, me, op, a, was, now)
    ensures Ends(c, me, op, a + b, was, now)
  {
    hide Walk;
    forall rest ensures Walk(c, me, op, (a + b) + rest, was) == now {
      assert (a + b) + rest == a + (b + rest);
    }
  }

  /** Either way the table at the end is the one the walk gives. */
  lemma WalkGives(c: Config, me: Node, op: RouteOp, ws: seq<Peer>, was: map<Block, Hop>, now: map<Block, Hop>)
    requires HasEntries(c) && (Leads(c, me, op, ws, was, now) || Ends(c, me, op, ws, was, now))
    ensures Walk(c, me, op, ws, was) == now
  {
    assert ws + [] == ws;
    assert Walk(c, me, op, [], now) == now;
    hide Walk;
  }

  lemma {:induction false} PeersOfJoin(c: Config, me: Node, entry: nat, a: seq<string>, b: seq<string>)
    requires HasEntries(c)
    ensures PeersOf(c, me, entry, a + b) == PeersOf(c, me, entry, a) + PeersOf(c, me, entry, b)
  {
    hide Peers, HasParts;
    if a == [] {
      assert a + b == b;
    } else {
      assert (a + b)[0] == a[0] && (a + b)[1..] == a[1..] + b;
      PeersOfJoin(c, me, entry, a[1..], b);
    }
  }

  lemma PeersOfOne(c: Config, me: Node, entry: nat, name: string)
    requires HasEntries(c)
    ensures PeersOf(c, me, entry, [name]) == if Peer(entry, name) in Peers(c, me) then [Peer(entry, name)] else []
  {
    hide Peers, HasParts;
    assert PeersOf(c, me, entry, []) == [];
  }

  lemma {:induction false} NoPeers(c: Config, me: Node, entry: nat, names: seq<string>)
    requires HasEntries(c) && forall n <- names :: Peer(entry, n) !in Peers(c, me)
    ensures PeersOf(c, me, entry, names) == []
  {
    hide Peers, HasParts;
    if names != [] { NoPeers(c, me, entry, names[1..]); }
  }

  // ------------------------------------------------------------ the operation

  /** Adds or deletes the route to every peer, for every family, in whatever order the
      topology is walked, and stops at the first route that cannot be had. */
  method DoRouteOpsOnNodes(me: Node, c: Config, op: RouteOp, h: Host)
    returns (err: Error, ghost first: seq<string>, ghost second: seq<string>)
    requires h.Valid() && HasEntries(c)
    modifies h
    ensures h.Valid() && h.OffFiles() && h.misreported == old(h.misreported)
    ensures h.s == old(h.s).(routes := h.s.routes)
    // on success all wanted routes were added (deleted), on an early exit some of them, and nothing else
    ensures op == Add && err == Nil ==>
              Consistent(c, Peers(c, me)) && Differ(c, me, Peers(c, me), old(h.s.routes), h.s.routes)
    ensures op == Delete && err == Nil ==>
              Consistent(c, Peers(c, me)) && Differ(c, me, Peers(c, me), h.s.routes, old(h.s.routes))
    ensures op == Add ==> Touched(c, me, Peers(c, me), old(h.s.routes), h.s.routes)
    ensures op == Delete ==> Touched(c, me, Peers(c, me), h.s.routes, old(h.s.routes))
    // where no call fails, success depends on the wanted routes and the table only, not on the order
    ensures op == Add && h.reliable ==>
              (err == Nil <==> Consistent(c, Peers(c, me)) && NonePresent(c, Peers(c, me), old(h.s.routes)))
    ensures op == Delete && h.reliable ==>
              (err == Nil <==> Consistent(c, Peers(c, me)) && InPlace(c, me, Peers(c, me), old(h.s.routes)))
    // and the table is what the two walks give, also after an early exit
    ensures IsOrder(c, first) && IsOrder(c, second)
    ensures h.reliable ==> h.s.routes == Walk(c, me, op, Asked(c, me, first, second), old(h.s.routes))
  {
    hide Peers, Consistent, NonePresent, InPlace, Differ, Touched, DonePeers, HasParts, DestOf, GatewayOf,
      StepInvariant, Walk, Leads, Ends, PeersOf, Distinct;
    ghost var ws, before := Peers(c, me), h.s.routes;
    NothingTouched(c, me, ws, before);
    PeersOfOthers(c, me);
    DoneEntry(c, me, 0);
    LeadsNowhere(c, me, op, before);
    first := Enumerate(c.topology.Keys);
    second := first;
    if !IsCluster(me) {
      NoPeers(c, me, 0, first);
      NoPeers(c, me, 1, second);
      assert Asked(c, me, first, second) == [];
      WalkGives(c, me, op, [], before, before);
      return Nil, first, second;
    }
    ghost var asked: seq<Peer> := [];
    err := Nil;
    for entry := 0 to 2
      invariant h.Valid() && h.OffFiles() && h.misreported == old(h.misreported)
      invariant h.s == old(h.s).(routes := h.s.routes)
      invariant Progress(c, me, op, DonePeers(c, me, entry, c.topology.Keys), before, h.s.routes)
      invariant err == Nil && IsOrder(c, first) && IsOrder(c, second)
      invariant Leads(c, me, op, asked, before, h.s.routes)
      invariant asked == if entry == 0 then [] else if entry == 1 then PeersOf(c, me, 0, first)
                  else Asked(c, me, first, second)
    {
      DoneEntry(c, me, entry);
      ghost var order := second;
      ghost var was := h.s.routes;
      if c.podInfo[entry].prefix == "" {
        NoPeersOfBlank(c, me, entry, order);
        LeadsNowhere(c, me, op, was);
      } else {
        err, order := DoRouteOpsForEntry(me, c, op, entry, h, before);
      }
      if entry == 0 { first := order; } else { second := order; }
      LeadsOn(c, me, op, asked, PeersOf(c, me, entry, order), before, was, h.s.routes);
      asked := asked + PeersOf(c, me, entry, order);
      if err != Nil {
        if h.reliable {
          if entry == 0 { EndsAnyway(c, me, op, asked, PeersOf(c, me, 1, second), before, h.s.routes); }
          assert entry == 0 ==> asked == PeersOf(c, me, 0, first);
          WalkGives(c, me, op, Asked(c, me, first, second), before, h.s.routes);
        }
        return;
      }
    }
    DoneEntry(c, me, 1);
    ProgressMade(c, me, op, ws, before, h.s.routes);
    WalkGives(c, me, op, asked, before, h.s.routes);
  }

  /** The outer loop's body: all peers of one entry. */
  method DoRouteOpsForEntry(me: Node, c: Config, op: RouteOp, entry: nat, h: Host, ghost before: map<Block, Hop>)
    returns (err: Error, ghost order: seq<string>)
    requires h.Valid() && HasEntries(c) && entry < 2 && IsCluster(me) && c.podInfo[entry].prefix != ""
    requires Progress(c, me, op, DonePeers(c, me, entry, c.topology.Keys), before, h.s.routes)
    modifies h
    ensures h.Valid() && h.OffFiles() && h.misreported == old(h.misreported)
    ensures h.s == old(h.s).(routes := h.s.routes)
    ensures err == Nil ==> Progress(c, me, op, DonePeers(c, me, entry + 1, c.topology.Keys), before, h.s.routes)
    ensures err != Nil ==> Stopped(c, me, op, before, h.s.routes, h.reliable)
    ensures IsOrder(c, order)
    ensures err == Nil ==> Leads(c, me, op, PeersOf(c, me, entry, order), old(h.s.routes), h.s.routes)
    ensures err != Nil && h.reliable ==> Ends(c, me, op, PeersOf(c, me, entry, order), old(h.s.routes), h.s.routes)
  {
    hide Peers, Consistent, NonePresent, InPlace, Differ, Touched, Progress, Stopped, DonePeers, HasParts, DestOf,
      GatewayOf, StepInvariant, Walk, Leads, Ends, PeersOf, Distinct, CanDo, Did;
    var remaining := c.topology.Keys;
    order := [];
    LeadsNowhere(c, me, op, h.s.routes);
    NoPeers(c, me, entry, []);
    NoNames();
    while remaining != {}
      invariant remaining <= c.topology.Keys
      invariant h.Valid() && h.OffFiles() && h.misreported == old(h.misreported)
      invariant h.s == old(h.s).(routes := h.s.routes)
      invariant Progress(c, me, op, DonePeers(c, me, entry, remaining), before, h.s.routes)
      invariant Distinct(order) && forall n :: n in order <==> n in c.topology.Keys - remaining
      invariant Leads(c, me, op, PeersOf(c, me, entry, order), old(h.s.routes), h.s.routes)
      decreases remaining
    {
      var name :| name in remaining;
      ghost var w, was := Peer(entry, name), h.s.routes;
      ghost var done, asked := DonePeers(c, me, entry, remaining), PeersOf(c, me, entry, order);
      DoneWithin(c, me, entry, remaining);
      DoneWithin(c, me, entry, remaining - {name});
      DoneStep(c, me, entry, remaining, name);
      PeersAre(c, me, w);
      remaining := remaining - {name};
      NextName(c, me, entry, order, name);
      order := order + [name];
      if c.topology[name].id == me.id {
        continue;
      }
      if IsCluster(c.topology[name]) {
        err := DoRouteOp(me, c, op, entry, name, h, done, before);
        LeadsOver(c, me, op, w, was);
        LeadsOn(c, me, op, asked, [w], old(h.s.routes), was, h.s.routes);
        if err != Nil {
          ghost var later := Enumerate(remaining);
          DistinctJoin(order, later);
          PeersOfJoin(c, me, entry, order, later);
          if h.reliable {
            EndsAnyway(c, me, op, asked + [w], PeersOf(c, me, entry, later), old(h.s.routes), h.s.routes);
          }
          order := order + later;
          return;
        }
      }
    }
    DoneEntry(c, me, entry);
    err := Nil;
  }

  lemma NoNames()
    ensures Distinct([])
  {
  }

  lemma NextName(c: Config, me: Node, entry: nat, order: seq<string>, name: string)
    requires HasEntries(c) && Distinct(order) && name !in order
    ensures Distinct(order + [name])
    ensures PeersOf(c, me, entry, order + [name])
         == if Peer(entry, name) in Peers(c, me) then PeersOf(c, me, entry, order) + [Peer(entry, name)]
            else PeersOf(c, me, entry, order)
  {
    DistinctJoin(order, [name]);
    PeersOfJoin(c, me, entry, order, [name]);
    PeersOfOne(c, me, entry, name);
    hide PeersOf, Peers, HasParts;
  }

  lemma NoPeersOfBlank(c: Config, me: Node, entry: nat, names: seq<string>)
    requires HasEntries(c) && entry < 2 && c.podInfo[entry].prefix == ""
    ensures PeersOf(c, me, entry, names) == []
  {
    forall n <- names ensures Peer(entry, n) !in Peers(c, me) { PeersAre(c, me, Peer(entry, n)); }
    NoPeers(c, me, entry, names);
    hide PeersOf, Peers, HasParts;
  }

  /** The loop body: one route. */
  method DoRouteOp(me: Node, c: Config, op: RouteOp, entry: nat, name: string, h: Host,
                   ghost done: set<Peer>, ghost before: map<Block, Hop>) returns (err: Error)
    requires h.Valid() && HasEntries(c) && entry < 2 && name in c.topology
    requires Peer(entry, name) in Peers(c, me) && Peer(entry, name) !in done && done <= Peers(c, me)
    requires InTurn(done, Peers(c, me)) && InTurn(done + {Peer(entry, name)}, Peers(c, me))
    requires Progress(c, me, op, done, before, h.s.routes)
    modifies h
    ensures h.Valid() && h.OffFiles() && h.misreported == old(h.misreported)
    ensures h.s == old(h.s).(routes := h.s.routes)
    ensures err == Nil ==> Progress(c, me, op, done + {Peer(entry, name)}, before, h.s.routes)
    ensures err != Nil ==> Stopped(c, me, op, before, h.s.routes, h.reliable)
    ensures err == Nil ==> CanDo(c, me, op, Peer(entry, name), old(h.s.routes))
                           && h.s.routes == Did(c, me, op, Peer(entry, name), old(h.s.routes))
    ensures err != Nil && h.reliable ==> !CanDo(c, me, op, Peer(entry, name), old(h.s.routes)) && h.s == old(h.s)
  {
    hide Peers, Progress, Stopped, InTurn, HasParts, StepInvariant, ParseCIDR, ParseAddress, DestText;
    var mInfo := c.mgmtInfo[0];
    if c.podInfo[entry].mode != mInfo.mode {
      mInfo := c.mgmtInfo[1];
    }
    var pInfo, id := c.podInfo[entry], c.topology[name].id;
    var dest := ParseCIDR(DestText(pInfo, id));
    var gw := ParseAddress(BuildGWIP(mInfo.prefix, id));
    ghost var w, was := Peer(entry, name), h.s.routes;
    assert DestOf(c, w) == dest && GatewayOf(c, w) == gw;
    if op == Add {
      err := h.AddRoute(dest, gw, Named(me.link));
      AfterAdd(c, me, done, w, before, was, h.s.routes, err, h.reliable);
      if err == Exists { err := Skipping; }
    } else {
      err := h.DeleteRoute(dest, gw, Named(me.link));
      AfterDelete(c, me, done, w, before, was, h.s.routes, err, h.reliable);
      if err == NoSuchProcess { err := Skipping; }
    }
  }

  lemma AfterAdd(c: Config, me: Node, done: set<Peer>, w: Peer, before: map<Block, Hop>, was: map<Block, Hop>,
                 now: map<Block, Hop>, err: Error, reliable: bool)
    requires HasEntries(c) && w in Peers(c, me) && w !in done && done <= Peers(c, me)
    requires InTurn(done, Peers(c, me)) && InTurn(done + {w}, Peers(c, me))
    requires Progress(c, me, Add, done, before, was) && w.entry < 2 && w.name in c.topology
    requires now == was || (Parses(c, w) && Dest(c, w) !in was && now == was[Dest(c, w) := HopOf(c, me, w)])
    requires err == Nil ==> Parses(c, w) && Dest(c, w) !in was && now == was[Dest(c, w) := HopOf(c, me, w)]
    requires reliable && Parses(c, w) ==> err == if Dest(c, w) in was then Exists else Nil
    ensures err == Nil ==> Progress(c, me, Add, done + {w}, before, now)
    ensures err != Nil ==> Stopped(c, me, Add, before, now, reliable)
  {
    hide Peers, Consistent, NonePresent, InPlace, Differ, Touched, InTurn, HasParts, DestOf, GatewayOf;
    assert done + {w} <= Peers(c, me);
    if now != was || err == Nil {
      OneMore(c, me, done, w, before, was);
      StoppedAt(c, me, Add, done + {w}, before, now);
    } else {
      StoppedAt(c, me, Add, done, before, was);
    }
    if reliable && err != Nil { AddBlocked(c, me, done, w, Peers(c, me), before, was); }
  }

  lemma AfterDelete(c: Config, me: Node, done: set<Peer>, w: Peer, before: map<Block, Hop>, was: map<Block, Hop>,
                    now: map<Block, Hop>, err: Error, reliable: bool)
    requires HasEntries(c) && w in Peers(c, me) && w !in done && done <= Peers(c, me)
    requires InTurn(done, Peers(c, me)) && InTurn(done + {w}, Peers(c, me))
    requires Progress(c, me, Delete, done, before, was) && w.entry < 2 && w.name in c.topology
    requires now == was
               || (Parses(c, w) && Dest(c, w) in was && was[Dest(c, w)] == HopOf(c, me, w) && now == was - {Dest(c, w)})
    requires err == Nil ==>
               Parses(c, w) && Dest(c, w) in was && was[Dest(c, w)] == HopOf(c, me, w) && now == was - {Dest(c, w)}
    requires reliable && Parses(c, w) && Dest(c, w) in was && was[Dest(c, w)] == HopOf(c, me, w) ==> err == Nil
    ensures err == Nil ==> Progress(c, me, Delete, done + {w}, before, now)
    ensures err != Nil ==> Stopped(c, me, Delete, before, now, reliable)
  {
    hide Peers, Consistent, NonePresent, InPlace, Differ, Touched, InTurn, HasParts, DestOf, GatewayOf;
    assert done + {w} <= Peers(c, me);
    if now != was || err == Nil {
      OneLess(c, me, done, w, was, before);
      StoppedAt(c, me, Delete, done + {w}, before, now);
    } else {
      StoppedAt(c, me, Delete, done, before, was);
    }
    if reliable && err != Nil { DeleteBlocked(c, me, done, w, Peers(c, me), was, before); }
  }

  /** Exactly the routes in `done` were added to (deleted from) the table. */
  ghost predicate Progress(c: Config, me: Node, op: RouteOp, done: set<Peer>, before: map<Block, Hop>,
                           now: map<Block, Hop>)
    requires HasEntries(c)
  {
    Consistent(c, done) && if op == Add then Differ(c, me, done, before, now) else Differ(c, me, done, now, before)
  }

  /** An early exit: a subset was touched, and without failing calls the whole was impossible. */
  ghost predicate Stopped(c: Config, me: Node, op: RouteOp, before: map<Block, Hop>, now: map<Block, Hop>,
                          reliable: bool)
    requires HasEntries(c)
  {
    var ws := Peers(c, me);
    if op == Add then
      Touched(c, me, ws, before, now) && (reliable ==> !(Consistent(c, ws) && NonePresent(c, ws, before)))
    else
      Touched(c, me, ws, now, before) && (reliable ==> !(Consistent(c, ws) && InPlace(c, me, ws, before)))
  }

  lemma StoppedAt(c: Config, me: Node, op: RouteOp, part: set<Peer>, before: map<Block, Hop>, now: map<Block, Hop>)
    requires HasEntries(c) && part <= Peers(c, me) && InTurn(part, Peers(c, me))
               && Progress(c, me, op, part, before, now)
    ensures if op == Add then Touched(c, me, Peers(c, me), before, now) else Touched(c, me, Peers(c, me), now, before)
  {
    hide Consistent, Differ, InTurn, Peers;
  }

  lemma ProgressMade(c: Config, me: Node, op: RouteOp, ws: set<Peer>, before: map<Block, Hop>, now: map<Block, Hop>)
    requires HasEntries(c) && ws == Peers(c, me) && Progress(c, me, op, ws, before, now)
    ensures op == Add ==>
              Consistent(c, ws) && Differ(c, me, ws, before, now) && Touched(c, me, ws, before, now)
                && NonePresent(c, ws, before)
    ensures op == Delete ==>
              Consistent(c, ws) && Differ(c, me, ws, now, before) && Touched(c, me, ws, now, before)
                && InPlace(c, me, ws, before)
  {
    StoppedAt(c, me, op, ws, before, now);
    hide Consistent, Touched, Peers;
  }

  lemma PeersOfOthers(c: Config, me: Node)
    requires HasEntries(c)
    ensures !IsCluster(me) ==> Peers(c, me) == {}
    ensures forall routes: map<Block, Hop> {:trigger NonePresent(c, {}, routes)} ::
              NonePresent(c, {}, routes) && InPlace(c, me, {}, routes)
  {
  }

  lemma DoneWithin(c: Config, me: Node, entry: nat, remaining: set<string>)
    requires HasEntries(c)
    ensures DonePeers(c, me, entry, remaining) <= Peers(c, me)
              && InTurn(DonePeers(c, me, entry, remaining), Peers(c, me))
  {
    hide Peers;
  }
}
