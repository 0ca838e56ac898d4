/** What a walk over the peers leaves in the table when no call fails. The table is what counts:
    "up" goes on to kubeadm after a walk that ended early (BringUp in up.go). */
module MeshWalks {
  import opened NodeAddresses
  import opened Configs
  import opened HostMachine
  import opened Gateways
  import opened RouteMesh

  /** The peers of one pod entry. */
  function EntryPeers(c: Config, me: Node, entry: nat): set<Peer>
    requires HasEntries(c)
  {
    set w | w in Peers(c, me) && w.entry == entry
  }

  /** The wanted routes that are in the table. */
  function Placed(c: Config, me: Node, routes: map<Block, Hop>): set<Peer>
    requires HasEntries(c)
  {
    set w | w in Peers(c, me) && InTable(c, me, w, routes)
  }

  /** No wanted destination is taken by another route. */
  ghost predicate NoneAstray(c: Config, me: Node, routes: map<Block, Hop>)
    requires HasEntries(c)
  {
    forall w <- Peers(c, me) :: Parses(c, w) && Dest(c, w) in routes ==> InTable(c, me, w, routes)
  }

  /** All wanted routes are there after "add", none of them after "delete". */
  ghost predicate Complete(c: Config, me: Node, op: RouteOp, routes: map<Block, Hop>)
    requires HasEntries(c)
  {
    forall w <- Peers(c, me) :: InTable(c, me, w, routes) <==> op == Add
  }

  ghost predicate CompleteBy(c: Config, me: Node, op: RouteOp, first: seq<string>, second: seq<string>,
                             routes: map<Block, Hop>)
    requires HasEntries(c)
  {
    Complete(c, me, op, Walk(c, me, op, Asked(c, me, first, second), routes))
  }

  /** So it is whatever the orders in which the topology is walked. */
  ghost predicate AlwaysComplete(c: Config, me: Node, op: RouteOp, routes: map<Block, Hop>)
    requires HasEntries(c)
  {
    forall first, second | IsOrder(c, first) && IsOrder(c, second) :: CompleteBy(c, me, op, first, second, routes)
  }

  // ------------------------------------------------------------ one walk

  /** Nothing is left to be done for the route. */
  predicate Done(c: Config, me: Node, op: RouteOp, w: Peer, routes: map<Block, Hop>)
    requires HasEntries(c)
  {
    InTable(c, me, w, routes) <==> op == Add
  }

  /** The two tables agree on the destination. */
  ghost predicate SameAt(b: Block, r: map<Block, Hop>, t: map<Block, Hop>) {
    (b in r <==> b in t) && (b in r ==> r[b] == t[b])
  }

  /** A walk leaves the destinations of other peers alone. */
  lemma {:induction false} WalkElsewhere(c: Config, me: Node, op: RouteOp, ws: seq<Peer>, w: Peer,
                                         routes: map<Block, Hop>)
    requires HasEntries(c) && Parses(c, w)
    requires forall v <- ws :: Parses(c, v) ==> Dest(c, v) != Dest(c, w)
    ensures SameAt(Dest(c, w), routes, Walk(c, me, op, ws, routes))
  {
    hide HasEntries, DestOf, GatewayOf;
    if ws != [] && CanDo(c, me, op, ws[0], routes) {
      assert ws[0] in ws && forall v <- ws[1..] :: v in ws;
      WalkElsewhere(c, me, op, ws[1..], w, Did(c, me, op, ws[0], routes));
    }
  }

  /** A route that is there under another hop is never replaced. */
  lemma {:induction false} AddKeeps(c: Config, me: Node, ws: seq<Peer>, b: Block, routes: map<Block, Hop>)
    requires HasEntries(c) && b in routes
    ensures SameAt(b, routes, Walk(c, me, Add, ws, routes))
  {
    hide HasEntries, DestOf, GatewayOf;
    if ws != [] && CanDo(c, me, Add, ws[0], routes) {
      AddKeeps(c, me, ws[1..], b, Did(c, me, Add, ws[0], routes));
    }
  }

  lemma DoneElsewhere(c: Config, me: Node, op: RouteOp, w: Peer, r: map<Block, Hop>, t: map<Block, Hop>)
    requires HasEntries(c) && Parses(c, w) && SameAt(Dest(c, w), r, t)
    ensures InTable(c, me, w, r) <==> InTable(c, me, w, t)
    ensures CanDo(c, me, op, w, r) <==> CanDo(c, me, op, w, t)
  {
    hide HasEntries, DestOf, GatewayOf;
  }

  ghost predicate AllDifferent(ws: seq<Peer>) {
    forall i, j | 0 <= i < j < |ws| :: ws[i] != ws[j]
  }

  /** A walk over routes that can all be had gets through and does them all. */
  lemma {:induction false} WalkThrough(c: Config, me: Node, op: RouteOp, all: set<Peer>, ws: seq<Peer>,
                                       routes: map<Block, Hop>)
    requires HasEntries(c) && Consistent(c, all) && AllDifferent(ws)
    requires forall w <- ws :: w in all && CanDo(c, me, op, w, routes)
    ensures Leads(c, me, op, ws, routes, Walk(c, me, op, ws, routes))
    ensures forall w <- ws :: Done(c, me, op, w, Walk(c, me, op, ws, routes))
  {
    hide HasEntries, DestOf, GatewayOf, Leads, Ends;
    if ws == [] {
      LeadsNowhere(c, me, op, routes);
    } else {
      var w, rest := ws[0], ws[1..];
      var next := Did(c, me, op, w, routes);
      assert w in ws && forall v <- rest :: v in ws && v != w;
      forall v <- rest ensures CanDo(c, me, op, v, next) {
        DoneElsewhere(c, me, op, v, routes, next);
      }
      WalkThrough(c, me, op, all, rest, next);
      WalkElsewhere(c, me, op, rest, w, next);
      DoneElsewhere(c, me, op, w, next, Walk(c, me, op, rest, next));
      LeadsOver(c, me, op, w, routes);
      LeadsOn(c, me, op, [w], rest, routes, next, Walk(c, me, op, rest, next));
      assert [w] + rest == ws;
      forall v <- ws ensures v == w || v in rest {}
    }
  }

  lemma {:induction false} PeersOfAre(c: Config, me: Node, entry: nat, names: seq<string>)
    requires HasEntries(c) && Distinct(names)
    ensures forall w :: w in PeersOf(c, me, entry, names) <==> w in Peers(c, me) && w.entry == entry && w.name in names
    ensures AllDifferent(PeersOf(c, me, entry, names))
  {
    hide Peers, HasEntries;
    if names != [] {
      assert names[0] !in names[1..];
      forall n ensures n in names <==> n == names[0] || n in names[1..] {}
      PeersOfAre(c, me, entry, names[1..]);
    }
  }

  /** In an order of the topology they are the peers of the entry. */
  lemma PeersInOrder(c: Config, me: Node, entry: nat, order: seq<string>)
    requires HasEntries(c) && IsOrder(c, order)
    ensures forall w :: w in PeersOf(c, me, entry, order) <==> w in EntryPeers(c, me, entry)
    ensures AllDifferent(PeersOf(c, me, entry, order))
  {
    PeersOfAre(c, me, entry, order);
    forall w | w in Peers(c, me) ensures w.name in order { PeersAre(c, me, w); }
    hide PeersOf, Peers, HasEntries, AllDifferent;
  }

  /** Every peer comes first in some order. */
  lemma PeerComesFirst(c: Config, me: Node, w: Peer) returns (order: seq<string>)
    requires HasEntries(c) && w in Peers(c, me)
    ensures IsOrder(c, order)
    ensures PeersOf(c, me, w.entry, order) != [] && PeersOf(c, me, w.entry, order)[0] == w
  {
    PeersAre(c, me, w);
    hide Peers, HasEntries;
    var later := Enumerate(c.topology.Keys - {w.name});
    order := [w.name] + later;
    PeersOfJoin(c, me, w.entry, [w.name], later);
    PeersOfOne(c, me, w.entry, w.name);
  }

  // ------------------------------------------------------------ walks in every order

  /** All of them or none. */
  ghost predicate AllOrNone(part: set<Peer>, ws: set<Peer>) {
    part * ws == {} || ws <= part
  }

  function AllDone(c: Config, me: Node, op: RouteOp, routes: map<Block, Hop>): set<Peer>
    requires HasEntries(c)
  {
    set w | w in Peers(c, me) && Done(c, me, op, w, routes)
  }

  /** What holds of the table if and only if the walks get everything done. */
  ghost predicate Passable(c: Config, me: Node, op: RouteOp, routes: map<Block, Hop>)
    requires HasEntries(c)
  {
    var done := AllDone(c, me, op, routes);
    && (op == Add ==> NoneAstray(c, me, routes))
    && AllOrNone(done, EntryPeers(c, me, 1))
    && (done * EntryPeers(c, me, 0) == {} || done == Peers(c, me))
  }

  /** What can be had is what is not done yet. */
  lemma CanDoUnlessDone(c: Config, me: Node, op: RouteOp, routes: map<Block, Hop>)
    requires HasEntries(c) && Consistent(c, Peers(c, me)) && (op == Add ==> NoneAstray(c, me, routes))
    ensures forall w <- Peers(c, me) ::
              Parses(c, w) && (CanDo(c, me, op, w, routes) <==> w !in AllDone(c, me, op, routes))
  {
    hide Peers, HasEntries, DestOf, GatewayOf;
  }

  /** One entry that is all to do: the walk does it, and leaves the other entry alone. */
  lemma EntryThrough(c: Config, me: Node, op: RouteOp, entry: nat, order: seq<string>, routes: map<Block, Hop>)
    returns (now: map<Block, Hop>)
    requires HasEntries(c) && Consistent(c, Peers(c, me)) && IsOrder(c, order)
    requires forall w <- EntryPeers(c, me, entry) :: CanDo(c, me, op, w, routes)
    ensures Leads(c, me, op, PeersOf(c, me, entry, order), routes, now)
    ensures forall w <- EntryPeers(c, me, entry) :: Done(c, me, op, w, now)
    ensures forall w <- Peers(c, me) :: w.entry != entry ==> SameAt(Dest(c, w), routes, now)
  {
    hide Peers, HasEntries, DestOf, GatewayOf, Leads, CanDo, Done, PeersOf, Walk, InTable, AllDifferent;
    var ws := PeersOf(c, me, entry, order);
    PeersInOrder(c, me, entry, order);
    assert forall w <- ws :: w in EntryPeers(c, me, entry) && w in Peers(c, me);
    WalkThrough(c, me, op, Peers(c, me), ws, routes);
    now := Walk(c, me, op, ws, routes);
    forall w <- Peers(c, me) | w.entry != entry ensures SameAt(Dest(c, w), routes, now) {
      assert w !in ws;
      WalkElsewhere(c, me, op, ws, w, routes);
    }
  }

  /** One entry that is all done, with a peer: the walk ends there. */
  lemma EntryBlocked(c: Config, me: Node, op: RouteOp, ws: seq<Peer>, routes: map<Block, Hop>)
    requires HasEntries(c) && ws != [] && Parses(c, ws[0]) && Done(c, me, op, ws[0], routes)
    ensures Ends(c, me, op, ws, routes, routes)
  {
    assert !CanDo(c, me, op, ws[0], routes) by { hide DestOf, GatewayOf, HasEntries; }
    assert [ws[0]] + ws[1..] == ws;
    hide Ends, CanDo, Done, Parses, Walk, HasEntries;
    LeadsOver(c, me, op, ws[0], routes);
    EndsAnyway(c, me, op, [ws[0]], ws[1..], routes, routes);
  }

  /** The second entry's turn, after the first one got through or was empty. */
  lemma SecondEntry(c: Config, me: Node, op: RouteOp, second: seq<string>, routes: map<Block, Hop>,
                    mid: map<Block, Hop>)
    returns (now: map<Block, Hop>)
    requires HasEntries(c) && Consistent(c, Peers(c, me)) && IsOrder(c, second) && Passable(c, me, op, routes)
    requires forall w <- EntryPeers(c, me, 0) :: Done(c, me, op, w, mid)
    requires forall w <- EntryPeers(c, me, 1) :: SameAt(Dest(c, w), routes, mid)
    ensures Leads(c, me, op, PeersOf(c, me, 1, second), mid, now)
              || Ends(c, me, op, PeersOf(c, me, 1, second), mid, now)
    ensures Complete(c, me, op, now)
  {
    hide Peers, HasEntries, DestOf, GatewayOf, Leads, Ends, PeersOf, Walk, AllDifferent, SameAt, CanDo, InTable,
      NoneAstray;
    forall w <- Peers(c, me) ensures w in EntryPeers(c, me, 0) || w in EntryPeers(c, me, 1) { PeersAre(c, me, w); }
    CanDoUnlessDone(c, me, op, routes);
    var e1 := EntryPeers(c, me, 1);
    forall w <- e1
      ensures Done(c, me, op, w, mid) <==> w in AllDone(c, me, op, routes)
      ensures CanDo(c, me, op, w, mid) <==> w !in AllDone(c, me, op, routes)
    {
      DoneElsewhere(c, me, op, w, routes, mid);
    }
    if AllDone(c, me, op, routes) * e1 == {} {
      forall w <- e1 ensures CanDo(c, me, op, w, mid) {
        assert w !in AllDone(c, me, op, routes) * e1;
      }
      now := EntryThrough(c, me, op, 1, second, mid);
      forall w <- EntryPeers(c, me, 0) ensures Done(c, me, op, w, now) { DoneElsewhere(c, me, op, w, mid, now); }
    } else {
      var ws := PeersOf(c, me, 1, second);
      PeersInOrder(c, me, 1, second);
      var d :| d in AllDone(c, me, op, routes) * e1;
      assert d in ws && ws[0] in ws && ws[0] in e1;
      EntryBlocked(c, me, op, ws, mid);
      now := mid;
    }
    assert forall w <- Peers(c, me) :: Done(c, me, op, w, now);
  }

  /** On a passable table the walks get everything done. */
  lemma PassableCompletes(c: Config, me: Node, op: RouteOp, first: seq<string>, second: seq<string>,
                          routes: map<Block, Hop>)
    requires HasEntries(c) && Consistent(c, Peers(c, me)) && Passable(c, me, op, routes)
    requires IsOrder(c, first) && IsOrder(c, second)
    ensures CompleteBy(c, me, op, first, second, routes)
  {
    hide Peers, HasEntries, DestOf, GatewayOf, Leads, Ends, PeersOf, Walk, AllDifferent, CanDo, InTable, NoneAstray,
      Distinct;
    var a, b := PeersOf(c, me, 0, first), PeersOf(c, me, 1, second);
    CanDoUnlessDone(c, me, op, routes);
    if AllDone(c, me, op, routes) * EntryPeers(c, me, 0) == {} {
      forall w <- EntryPeers(c, me, 0) ensures CanDo(c, me, op, w, routes) {
        assert w !in AllDone(c, me, op, routes) * EntryPeers(c, me, 0);
      }
      var mid := EntryThrough(c, me, op, 0, first, routes);
      var now := SecondEntry(c, me, op, second, routes, mid);
      LeadsOn(c, me, op, a, b, routes, mid, now);
      WalkGives(c, me, op, a + b, routes, now);
    } else {
      PeersInOrder(c, me, 0, first);
      var d :| d in AllDone(c, me, op, routes) * EntryPeers(c, me, 0);
      assert d in a && a[0] in a && a[0] in AllDone(c, me, op, routes);
      EntryBlocked(c, me, op, a, routes);
      EndsAnyway(c, me, op, a, b, routes, routes);
      WalkGives(c, me, op, a + b, routes, routes);
    }
  }

  /** A first-entry route that is done may come first, and end the walk. */
  lemma MayEndAtOnce(c: Config, me: Node, op: RouteOp, d: Peer, routes: map<Block, Hop>)
    returns (first: seq<string>, second: seq<string>)
    requires HasEntries(c) && Consistent(c, Peers(c, me))
    requires d in Peers(c, me) && d.entry == 0 && Done(c, me, op, d, routes)
    ensures IsOrder(c, first) && IsOrder(c, second)
    ensures Walk(c, me, op, Asked(c, me, first, second), routes) == routes
  {
    hide Peers, HasEntries, DestOf, GatewayOf, Leads, Ends, PeersOf, Walk, Distinct;
    first := PeerComesFirst(c, me, d);
    second := first;
    var a, b := PeersOf(c, me, 0, first), PeersOf(c, me, 1, second);
    EntryBlocked(c, me, op, a, routes);
    EndsAnyway(c, me, op, a, b, routes, routes);
    WalkGives(c, me, op, a + b, routes, routes);
  }

  /** A second-entry route that is done may end the walk right after the first entry. */
  lemma MayEndHalfway(c: Config, me: Node, op: RouteOp, d: Peer, routes: map<Block, Hop>)
    returns (first: seq<string>, second: seq<string>)
    requires HasEntries(c) && Consistent(c, Peers(c, me))
    requires d in Peers(c, me) && d.entry == 1 && Done(c, me, op, d, routes)
    requires forall w <- EntryPeers(c, me, 0) :: CanDo(c, me, op, w, routes)
    ensures IsOrder(c, first) && IsOrder(c, second)
    ensures forall w <- EntryPeers(c, me, 1) ::
              SameAt(Dest(c, w), routes, Walk(c, me, op, Asked(c, me, first, second), routes))
  {
    hide Peers, HasEntries, DestOf, GatewayOf, Leads, Ends, PeersOf, Walk, Distinct, CanDo, InTable, SameAt;
    second := PeerComesFirst(c, me, d);
    first := second;
    var a, b := PeersOf(c, me, 0, first), PeersOf(c, me, 1, second);
    var mid := EntryThrough(c, me, op, 0, first, routes);
    DoneElsewhere(c, me, op, d, routes, mid);
    EntryBlocked(c, me, op, b, mid);
    LeadsOn(c, me, op, a, b, routes, mid, mid);
    WalkGives(c, me, op, a + b, routes, mid);
  }

  /** With a destination taken by another route no walk adds them all. */
  lemma AstrayStays(c: Config, me: Node, first: seq<string>, second: seq<string>, routes: map<Block, Hop>)
    requires HasEntries(c) && Consistent(c, Peers(c, me)) && !NoneAstray(c, me, routes)
    ensures !CompleteBy(c, me, Add, first, second, routes)
  {
    hide Peers, HasEntries, DestOf, GatewayOf, Walk;
    var w :| w in Peers(c, me) && Dest(c, w) in routes && !InTable(c, me, w, routes);
    AddKeeps(c, me, Asked(c, me, first, second), Dest(c, w), routes);
    DoneElsewhere(c, me, Add, w, routes, Walk(c, me, Add, Asked(c, me, first, second), routes));
  }

  lemma CompleteIsPassable(c: Config, me: Node, op: RouteOp, routes: map<Block, Hop>)
    requires HasEntries(c) && Consistent(c, Peers(c, me)) && AlwaysComplete(c, me, op, routes)
    ensures Passable(c, me, op, routes)
  {
    hide Peers, HasEntries, DestOf, GatewayOf, PeersOf, Walk, Distinct, CanDo, InTable, NoneAstray, Asked;
    var done, e0, e1 := AllDone(c, me, op, routes), EntryPeers(c, me, 0), EntryPeers(c, me, 1);
    var any := Enumerate(c.topology.Keys);
    assert CompleteBy(c, me, op, any, any, routes);
    if op == Add && !NoneAstray(c, me, routes) { AstrayStays(c, me, any, any, routes); }
    if d :| d in done * e0 {
      var first, second := MayEndAtOnce(c, me, op, d, routes);
      assert CompleteBy(c, me, op, first, second, routes);
      assert done == Peers(c, me);
    } else {
      CanDoUnlessDone(c, me, op, routes);
      forall w <- e0 ensures CanDo(c, me, op, w, routes) { assert w !in done * e0; }
      if d :| d in done * e1 {
        var first, second := MayEndHalfway(c, me, op, d, routes);
        var now := Walk(c, me, op, Asked(c, me, first, second), routes);
        assert CompleteBy(c, me, op, first, second, routes);
        forall w <- e1 ensures w in done {
          assert w in Peers(c, me) && Done(c, me, op, w, now);
          DoneElsewhere(c, me, op, w, routes, now);
        }
      }
    }
  }

  /** In every pair of orders the walks get everything done if and only if the table is passable. */
  lemma CompleteExactlyWhenPassable(c: Config, me: Node, op: RouteOp, routes: map<Block, Hop>)
    requires HasEntries(c) && Consistent(c, Peers(c, me))
    ensures AlwaysComplete(c, me, op, routes) <==> Passable(c, me, op, routes)
  {
    hide Peers, HasEntries, Consistent, Passable, CompleteBy, Distinct;
    if Passable(c, me, op, routes) {
      forall first, second | IsOrder(c, first) && IsOrder(c, second)
        ensures CompleteBy(c, me, op, first, second, routes)
      {
        PassableCompletes(c, me, op, first, second, routes);
      }
    }
    if AlwaysComplete(c, me, op, routes) { CompleteIsPassable(c, me, op, routes); }
  }

  /** After "up" without failing calls every wanted route is there, whatever the orders, if and only
      if no destination was taken by another route, those of the second entry were all there or
      none of them, and those of the first entry were all missing unless nothing at all was. */
  lemma UpCompletesExactlyWhen(c: Config, me: Node, routes: map<Block, Hop>)
    requires HasEntries(c) && Consistent(c, Peers(c, me))
    ensures AlwaysComplete(c, me, Add, routes) <==>
              && NoneAstray(c, me, routes)
              && AllOrNone(Placed(c, me, routes), EntryPeers(c, me, 1))
              && (Placed(c, me, routes) * EntryPeers(c, me, 0) == {} || Placed(c, me, routes) == Peers(c, me))
  {
    hide Peers, HasEntries, Consistent, InTable, AlwaysComplete, NoneAstray;
    CompleteExactlyWhenPassable(c, me, Add, routes);
    assert AllDone(c, me, Add, routes) == Placed(c, me, routes);
  }

  /** After "down" none is there, whatever the orders, if and only if those of the second entry
      were all there or none of them, and those of the first entry all, unless there was none at all. */
  lemma DownCompletesExactlyWhen(c: Config, me: Node, routes: map<Block, Hop>)
    requires HasEntries(c) && Consistent(c, Peers(c, me))
    ensures AlwaysComplete(c, me, Delete, routes) <==>
              && AllOrNone(Placed(c, me, routes), EntryPeers(c, me, 1))
              && (EntryPeers(c, me, 0) <= Placed(c, me, routes) || Placed(c, me, routes) == {})
  {
    hide Peers, HasEntries, Consistent, InTable, AlwaysComplete, NoneAstray;
    CompleteExactlyWhenPassable(c, me, Delete, routes);
    var done, placed, e0, e1 := AllDone(c, me, Delete, routes), Placed(c, me, routes), EntryPeers(c, me, 0),
      EntryPeers(c, me, 1);
    assert forall w <- Peers(c, me) :: w in done <==> w !in placed;
    assert done * e0 == {} <==> e0 <= placed by {
      if done * e0 == {} {
        forall w <- e0 ensures w in placed { assert w !in done * e0; }
      }
    }
    assert done * e1 == {} <==> e1 <= placed by {
      if done * e1 == {} {
        forall w <- e1 ensures w in placed { assert w !in done * e1; }
      }
    }
    assert e1 <= done <==> placed * e1 == {} by {
      if placed * e1 == {} {
        forall w <- e1 ensures w in done { assert w !in placed * e1; }
      }
    }
    assert done == Peers(c, me) <==> placed == {};
  }

  // ------------------------------------------------------------ trying again

  function Opposite(op: RouteOp): RouteOp { if op == Add then Delete else Add }

  /** Where the operation has everything to do. */
  ghost predicate AllToDo(c: Config, me: Node, op: RouteOp, routes: map<Block, Hop>)
    requires HasEntries(c)
  {
    if op == Add then NonePresent(c, Peers(c, me), routes) else InPlace(c, me, Peers(c, me), routes)
  }

  /** What an interrupted run has done is what is done afterwards. */
  lemma PartIsDone(c: Config, me: Node, op: RouteOp, part: set<Peer>, before: map<Block, Hop>, now: map<Block, Hop>)
    requires HasEntries(c) && Consistent(c, Peers(c, me)) && AllToDo(c, me, op, before)
    requires part <= Peers(c, me) && Progress(c, me, op, part, before, now)
    ensures NoneAstray(c, me, now)
    ensures AllDone(c, me, op, now) == part && AllDone(c, me, Opposite(op), now) == Peers(c, me) - part
  {
    hide Peers, HasEntries, DestOf, GatewayOf;
    forall w <- Peers(c, me)
      ensures InTable(c, me, w, now) <==> (w in part <==> op == Add)
      ensures Dest(c, w) in now ==> InTable(c, me, w, now)
    {
      assert Dest(c, w) in before <==> op == Delete;
      assert forall v <- part :: v != w ==> Dest(c, v) != Dest(c, w);
    }
  }

  lemma PeersHaveEntries(c: Config, me: Node)
    requires HasEntries(c)
    ensures Peers(c, me) == EntryPeers(c, me, 0) + EntryPeers(c, me, 1)
  {
    forall w <- Peers(c, me) ensures w in EntryPeers(c, me, 0) || w in EntryPeers(c, me, 1) { PeersAre(c, me, w); }
    hide Peers, HasEntries;
  }

  /** The same operation again makes good an interrupted one, whatever the orders, if and only if
      that had done nothing or everything. */
  lemma RetryCompletesExactlyWhen(c: Config, me: Node, op: RouteOp, part: set<Peer>, before: map<Block, Hop>,
                                  now: map<Block, Hop>)
    requires HasEntries(c) && Consistent(c, Peers(c, me)) && AllToDo(c, me, op, before)
    requires part <= Peers(c, me) && InTurn(part, Peers(c, me)) && Progress(c, me, op, part, before, now)
    ensures AlwaysComplete(c, me, op, now) <==> part == {} || part == Peers(c, me)
  {
    hide Peers, HasEntries, Consistent, Progress, AllToDo, AlwaysComplete, NoneAstray, AllDone;
    PartIsDone(c, me, op, part, before, now);
    CompleteExactlyWhenPassable(c, me, op, now);
    PeersHaveEntries(c, me);
    var e0, e1 := EntryPeers(c, me, 0), EntryPeers(c, me, 1);
    if part * e0 == {} && AllOrNone(part, e1) && part != {} {
      var v :| v in part;
      assert v !in part * e0 && v in part * e1;
      forall w <- e0 ensures w in part { assert w.entry < v.entry; }
      assert forall w <- e0 :: w in part * e0;
      assert part == Peers(c, me);
    }
  }

  /** The opposite operation takes back an interrupted one, whatever the orders, if and only if
      that had done nothing, or ended between the entries, or at the very end. */
  lemma UndoCompletesExactlyWhen(c: Config, me: Node, op: RouteOp, part: set<Peer>, before: map<Block, Hop>,
                                 now: map<Block, Hop>)
    requires HasEntries(c) && Consistent(c, Peers(c, me)) && AllToDo(c, me, op, before)
    requires part <= Peers(c, me) && InTurn(part, Peers(c, me)) && Progress(c, me, op, part, before, now)
    ensures AlwaysComplete(c, me, Opposite(op), now) <==>
              part == {} || part == EntryPeers(c, me, 0) || part == Peers(c, me)
  {
    hide Peers, HasEntries, Consistent, Progress, AllToDo, AlwaysComplete, NoneAstray, AllDone;
    PartIsDone(c, me, op, part, before, now);
    CompleteExactlyWhenPassable(c, me, Opposite(op), now);
    PeersHaveEntries(c, me);
    var e0, e1, rest := EntryPeers(c, me, 0), EntryPeers(c, me, 1), Peers(c, me) - part;
    assert rest == Peers(c, me) <==> part == {};
    if rest * e0 == {} {
      forall w <- e0 ensures w in part { assert w !in rest * e0; }
      if rest * e1 == {} {
        forall w <- e1 ensures w in part { assert w !in rest * e1; }
        assert part == Peers(c, me);
      } else if e1 <= rest {
        assert part == e0;
      }
    }
    if part == e0 { assert e1 <= rest && rest * e0 == {}; }
  }

  // ------------------------------------------------------------ one run

  /** The routes' part of "up". Its error is ignored where it only says that a route was there. */
  method CreateRoutesForPodNetwork(me: Node, c: Config, h: Host) returns (err: Error)
    requires h.Valid() && HasEntries(c)
    modifies h
    ensures h.Valid() && h.OffFiles() && h.s == old(h.s).(routes := h.s.routes)
    ensures Touched(c, me, Peers(c, me), old(h.s.routes), h.s.routes)
    ensures h.reliable && Consistent(c, Peers(c, me)) && AlwaysComplete(c, me, Add, old(h.s.routes)) ==>
              Complete(c, me, Add, h.s.routes)
  {
    hide Peers, HasEntries, Consistent, Touched, StepInvariant, Complete, Walk, Asked, Distinct;
    ghost var first, second;
    err, first, second := DoRouteOpsOnNodes(me, c, Add, h);
    assert AlwaysComplete(c, me, Add, old(h.s.routes)) ==> CompleteBy(c, me, Add, first, second, old(h.s.routes));
  }

  /** The routes' part of "down". */
  method RemoveRoutesForPodNetwork(me: Node, c: Config, h: Host) returns (err: Error)
    requires h.Valid() && HasEntries(c)
    modifies h
    ensures h.Valid() && h.OffFiles() && h.s == old(h.s).(routes := h.s.routes)
    ensures Touched(c, me, Peers(c, me), h.s.routes, old(h.s.routes))
    ensures h.reliable && Consistent(c, Peers(c, me)) && AlwaysComplete(c, me, Delete, old(h.s.routes)) ==>
              Complete(c, me, Delete, h.s.routes)
  {
    hide Peers, HasEntries, Consistent, Touched, StepInvariant, Complete, Walk, Asked, Distinct;
    ghost var first, second;
    err, first, second := DoRouteOpsOnNodes(me, c, Delete, h);
    assert AlwaysComplete(c, me, Delete, old(h.s.routes)) ==> CompleteBy(c, me, Delete, first, second, old(h.s.routes));
  }

  // ------------------------------------------------------------ both outcomes

  /** An order that meets two names first. */
  lemma TwoFirst(c: Config, x: string, y: string) returns (order: seq<string>, later: seq<string>)
    requires x != y && x in c.topology && y in c.topology
    ensures IsOrder(c, order) && order == [x, y] + later && x !in later && y !in later
  {
    later := Enumerate(c.topology.Keys - {x, y});
    DistinctJoin([x, y], later);
    order := [x, y] + later;
  }

  lemma TwoPeers(c: Config, me: Node, x: string, y: string, order: seq<string>, later: seq<string>)
    requires HasEntries(c) && Peers(c, me) == {Peer(0, x), Peer(0, y)} && x != y
    requires order == [x, y] + later && x !in later && y !in later
    ensures Asked(c, me, order, order) == [Peer(0, x), Peer(0, y)]
  {
    hide Peers, HasEntries;
    PeersOfJoin(c, me, 0, [x, y], later);
    PeersOfJoin(c, me, 0, [x], [y]);
    assert [x] + [y] == [x, y];
    PeersOfOne(c, me, 0, x);
    PeersOfOne(c, me, 0, y);
    NoPeers(c, me, 0, later);
    NoPeers(c, me, 1, order);
  }

  /** Two peers, and only the route to one of them there: "up" adds the other one if it comes
      first, and nothing if it comes second. */
  lemma OrderDecides(c: Config, me: Node, x: string, y: string, routes: map<Block, Hop>)
    returns (good: seq<string>, bad: seq<string>)
    requires HasEntries(c) && Consistent(c, Peers(c, me)) && Peers(c, me) == {Peer(0, x), Peer(0, y)} && x != y
    requires InTable(c, me, Peer(0, y), routes) && Dest(c, Peer(0, x)) !in routes
    ensures IsOrder(c, good) && CompleteBy(c, me, Add, good, good, routes)
    ensures IsOrder(c, bad) && Walk(c, me, Add, Asked(c, me, bad, bad), routes) == routes
    ensures !CompleteBy(c, me, Add, bad, bad, routes)
  {
    var v, w := Peer(0, x), Peer(0, y);
    assert v in Peers(c, me) && w in Peers(c, me);
    PeersAre(c, me, v);
    PeersAre(c, me, w);
    var laterGood, laterBad;
    good, laterGood := TwoFirst(c, x, y);
    TwoPeers(c, me, x, y, good, laterGood);
    bad, laterBad := TwoFirst(c, y, x);
    TwoPeers(c, me, y, x, bad, laterBad);
    hide Peers, HasEntries, Parses, Asked, Distinct, Walk, InTable, CanDo, Did;
    OneThenStop(c, me, v, w, routes);
  }

  lemma OneThenStop(c: Config, me: Node, v: Peer, w: Peer, routes: map<Block, Hop>)
    requires HasEntries(c) && Parses(c, v) && Parses(c, w) && Dest(c, v) != Dest(c, w)
    requires InTable(c, me, w, routes) && Dest(c, v) !in routes
    ensures InTable(c, me, v, Walk(c, me, Add, [v, w], routes)) && InTable(c, me, w, Walk(c, me, Add, [v, w], routes))
    ensures Walk(c, me, Add, [w, v], routes) == routes && !InTable(c, me, v, routes)
  {
    hide HasEntries, DestOf, GatewayOf;
    var added := Did(c, me, Add, v, routes);
    assert [v, w][1..] == [w] && Walk(c, me, Add, [v, w], routes) == Walk(c, me, Add, [w], added) == added;
  }
}
