/** The NAT64 host that other nodes send server traffic to: the first one met in the topology
    map, which is walked in a fresh order each time (prepare.go). */
module Gateways {
  import opened Wrappers
  import opened Numerals
  import opened AddressText
  import opened Configs
  import opened HostMachine

  predicate IsNAT64Host(c: Config, name: string) {
    name in c.topology && c.topology[name].isNAT64
  }

  /** Exactly one node hosts the NAT64 server. */
  ghost predicate OneNAT64(c: Config) {
    exists n :: IsNAT64Host(c, n) && forall m | IsNAT64Host(c, m) :: m == n
  }

  /** The gateway text for a host. */
  function HostIPOf(c: Config, name: string): string
    requires name in c.topology && |c.mgmtInfo| == 2
  {
    c.mgmtInfo[0].prefix + Hex(c.topology[name].id)
  }

  // ------------------------------------------------------------ orders of the topology

  predicate Distinct(names: seq<string>) {
    forall i, j | 0 <= i < j < |names| :: names[i] != names[j]
  }

  lemma DistinctJoin(a: seq<string>, b: seq<string>)
    requires Distinct(a) && Distinct(b) && forall n <- a :: n !in b
    ensures Distinct(a + b)
  {
    var s := a + b;
    forall i, j | 0 <= i < j < |s| ensures s[i] != s[j] {
      if i < |a| <= j { assert s[i] in a && s[j] in b; }
    }
  }

  /** An order in which the topology map may be walked. */
  ghost predicate IsOrder(c: Config, order: seq<string>) {
    Distinct(order) && forall n :: n in order <==> n in c.topology
  }

  /** What the walk finds. */
  function FirstHostIP(c: Config, order: seq<string>): Option<string>
    requires |c.mgmtInfo| == 2 && forall n <- order :: n in c.topology
  {
    if order == [] then None
    else if c.topology[order[0]].isNAT64 then Some(HostIPOf(c, order[0]))
    else FirstHostIP(c, order[1..])
  }

  lemma {:induction false} Enumerate(names: set<string>) returns (s: seq<string>)
    ensures Distinct(s) && forall n :: n in s <==> n in names
    decreases |names|
  {
    if names == {} {
      s := [];
    } else {
      var n :| n in names;
      s := Enumerate(names - {n});
      s := [n] + s;
    }
  }

  /** Nodes passed over do not matter. */
  lemma {:induction false} FirstHostAfter(c: Config, passed: seq<string>, rest: seq<string>)
    requires |c.mgmtInfo| == 2
    requires forall n <- passed + rest :: n in c.topology
    requires forall n <- passed :: !IsNAT64Host(c, n)
    ensures forall n <- rest :: n in c.topology
    ensures FirstHostIP(c, passed + rest) == FirstHostIP(c, rest)
  {
    assert forall n <- rest :: n in passed + rest;
    if passed == [] {
      assert passed + rest == rest;
    } else {
      assert (passed + rest)[1..] == passed[1..] + rest;
      assert (passed + rest)[0] == passed[0] && passed[0] in passed;
      assert forall n <- passed[1..] :: n in passed;
      assert forall n <- passed[1..] + rest :: n in passed + rest;
      FirstHostAfter(c, passed[1..], rest);
    }
  }

  /** Finds the first NAT64 host; the order walked is the map's choice. */
  method FindHostIPForNAT64(c: Config) returns (ip: string, ok: bool, ghost order: seq<string>)
    requires |c.mgmtInfo| == 2
    ensures IsOrder(c, order) && FirstHostIP(c, order) == if ok then Some(ip) else None
  {
    var remaining := c.topology.Keys;
    ghost var passed: seq<string> := [];
    while remaining != {}
      invariant remaining <= c.topology.Keys && Distinct(passed)
      invariant forall n :: n in passed <==> n in c.topology.Keys - remaining
      invariant forall n <- passed :: !IsNAT64Host(c, n)
      decreases remaining
    {
      var n :| n in remaining;
      if c.topology[n].isNAT64 {
        ghost var later := Enumerate(remaining - {n});
        DistinctJoin([n], later);
        DistinctJoin(passed, [n] + later);
        order := passed + ([n] + later);
        FirstHostAfter(c, passed, [n] + later);
        return c.mgmtInfo[0].prefix + Hex(c.topology[n].id), true, order;
      }
      DistinctJoin(passed, [n]);
      remaining := remaining - {n};
      passed := passed + [n];
    }
    order := passed;
    assert passed + [] == passed;
    FirstHostAfter(c, passed, []);
    return "", false, order;
  }

  /** Whatever is found is the text of some host, and nothing is found only if there is none. */
  lemma {:induction false} FoundIsHost(c: Config, order: seq<string>)
    requires |c.mgmtInfo| == 2 && forall n <- order :: n in c.topology
    ensures FirstHostIP(c, order).Some? ==>
              exists n <- order :: IsNAT64Host(c, n) && FirstHostIP(c, order) == Some(HostIPOf(c, n))
    ensures FirstHostIP(c, order) == None ==> forall n <- order :: !IsNAT64Host(c, n)
  {
    if order != [] {
      assert order[0] in order && forall n <- order[1..] :: n in order;
      assert forall n <- order :: n == order[0] || n in order[1..];
      FoundIsHost(c, order[1..]);
    }
  }

  /** Every host is found in some order. */
  lemma HostIsFound(c: Config, n: string) returns (order: seq<string>)
    requires |c.mgmtInfo| == 2 && IsNAT64Host(c, n)
    ensures IsOrder(c, order) && FirstHostIP(c, order) == Some(HostIPOf(c, n))
  {
    var later := Enumerate(c.topology.Keys - {n});
    order := [n] + later;
  }

  // ------------------------------------------------------------ next hops

  /** The next hop for server traffic: over the support bridge on a NAT64 host, elsewhere over
      the host found on this walk. */
  function GatewayBy(c: Config, node: Node, order: seq<string>): Option<Hop>
    requires |c.mgmtInfo| == 2 && forall n <- order :: n in c.topology
  {
    if node.isNAT64 then
      match ParseAddress(c.nat64ServerIP)
      case None => None
      case Some(a) => Some(Hop(a, Support))
    else
      match FirstHostIP(c, order)
      case None => None
      case Some(ip) =>
        match ParseAddress(ip)
        case None => None
        case Some(a) => Some(Hop(a, Named(node.link)))
  }

  /** A hop some walk may lead to. */
  ghost predicate IsGateway(c: Config, node: Node, hop: Hop)
    requires |c.mgmtInfo| == 2
  {
    if node.isNAT64 then hop.link == Support && ParseAddress(c.nat64ServerIP) == Some(hop.gw)
    else hop.link == Named(node.link)
         && exists n :: IsNAT64Host(c, n) && ParseAddress(HostIPOf(c, n)) == Some(hop.gw)
  }

  lemma GatewaysAreFound(c: Config, node: Node, order: seq<string>)
    requires |c.mgmtInfo| == 2 && IsOrder(c, order)
    ensures GatewayBy(c, node, order).Some? ==> IsGateway(c, node, GatewayBy(c, node, order).value)
  {
    hide ParseAddress;
    FoundIsHost(c, order);
  }

  lemma GatewayHasOrder(c: Config, node: Node, hop: Hop) returns (order: seq<string>)
    requires |c.mgmtInfo| == 2 && IsGateway(c, node, hop)
    ensures IsOrder(c, order) && GatewayBy(c, node, order) == Some(hop)
  {
    hide ParseAddress;
    if node.isNAT64 {
      order := Enumerate(c.topology.Keys);
    } else {
      var n :| IsNAT64Host(c, n) && ParseAddress(HostIPOf(c, n)) == Some(hop.gw);
      order := HostIsFound(c, n);
    }
  }

  /** The host texts are addresses, different ones for different hosts. */
  ghost predicate HostsApart(c: Config)
    requires |c.mgmtInfo| == 2
  {
    forall m, n | IsNAT64Host(c, m) && IsNAT64Host(c, n) ::
      ParseAddress(HostIPOf(c, m)).Some? && (m != n ==> ParseAddress(HostIPOf(c, m)) != ParseAddress(HostIPOf(c, n)))
  }

  /** Different IDs, different texts. */
  lemma TextsApart(c: Config, m: string, n: string)
    requires m in c.topology && n in c.topology && |c.mgmtInfo| == 2
    ensures HostIPOf(c, m) == HostIPOf(c, n) <==> c.topology[m].id == c.topology[n].id
  {
    hide Render;
    var p, x, y := c.mgmtInfo[0].prefix, Hex(c.topology[m].id), Hex(c.topology[n].id);
    assert (p + x)[|p|..] == x && (p + y)[|p|..] == y;
    if x == y { RenderInjective(c.topology[m].id, c.topology[n].id, 16); }
  }

  /** Every walk finds this text. */
  ghost predicate AlwaysFinds(c: Config, ip: string)
    requires |c.mgmtInfo| == 2
  {
    forall o | IsOrder(c, o) :: FirstHostIP(c, o) == Some(ip)
  }

  /** All walks lead to one and the same text if and only if there is exactly one host. */
  lemma OneTextExactlyWhenOneHost(c: Config)
    requires |c.mgmtInfo| == 2
    requires forall m, n | m in c.topology && n in c.topology && m != n :: c.topology[m].id != c.topology[n].id
    ensures (exists ip :: AlwaysFinds(c, ip)) <==> OneNAT64(c)
  {
    if OneNAT64(c) {
      var n :| IsNAT64Host(c, n) && forall m | IsNAT64Host(c, m) :: m == n;
      forall o | IsOrder(c, o) ensures FirstHostIP(c, o) == Some(HostIPOf(c, n)) {
        FoundIsHost(c, o);
      }
      assert AlwaysFinds(c, HostIPOf(c, n));
    } else {
      forall ip ensures !AlwaysFinds(c, ip) {
        if n :| IsNAT64Host(c, n) {
          var m :| IsNAT64Host(c, m) && m != n;
          var p := HostIsFound(c, n);
          var q := HostIsFound(c, m);
          TextsApart(c, m, n);
        } else {
          var o := Enumerate(c.topology.Keys);
          FoundIsHost(c, o);
        }
      }
    }
  }

  /** Every walk leads over this hop. */
  ghost predicate AlwaysVia(c: Config, node: Node, g: Hop)
    requires |c.mgmtInfo| == 2
  {
    forall o | IsOrder(c, o) :: GatewayBy(c, node, o) == Some(g)
  }

  /** The hop over a host. */
  function Over(c: Config, node: Node, n: string): Hop
    requires |c.mgmtInfo| == 2 && IsNAT64Host(c, n) && ParseAddress(HostIPOf(c, n)).Some?
  {
    Hop(ParseAddress(HostIPOf(c, n)).value, Named(node.link))
  }

  /** A walk leads over some host, or there is none. */
  lemma WalkLeadsOverHost(c: Config, node: Node, o: seq<string>)
    requires |c.mgmtInfo| == 2 && !node.isNAT64 && HostsApart(c) && IsOrder(c, o)
    ensures GatewayBy(c, node, o).Some? ==>
              exists n :: IsNAT64Host(c, n) && GatewayBy(c, node, o) == Some(Over(c, node, n))
    ensures GatewayBy(c, node, o) == None ==> forall n :: !IsNAT64Host(c, n)
  {
    hide ParseAddress, HostIPOf;
    FoundIsHost(c, o);
  }

  lemma HostLeads(c: Config, node: Node, n: string) returns (o: seq<string>)
    requires |c.mgmtInfo| == 2 && !node.isNAT64 && HostsApart(c) && IsNAT64Host(c, n)
    ensures IsOrder(c, o) && GatewayBy(c, node, o) == Some(Over(c, node, n))
  {
    hide ParseAddress, HostIPOf;
    o := HostIsFound(c, n);
  }

  lemma TheHostAlwaysLeads(c: Config, node: Node, n: string)
    requires |c.mgmtInfo| == 2 && !node.isNAT64 && HostsApart(c) && OneNAT64(c) && IsNAT64Host(c, n)
    ensures AlwaysVia(c, node, Over(c, node, n))
  {
    hide ParseAddress, HostIPOf, GatewayBy;
    forall o | IsOrder(c, o) ensures GatewayBy(c, node, o) == Some(Over(c, node, n)) {
      WalkLeadsOverHost(c, node, o);
    }
  }

  /** The same for the next hop of a node without the server. */
  lemma OneGatewayExactlyWhenOneHost(c: Config, node: Node)
    requires |c.mgmtInfo| == 2 && !node.isNAT64 && HostsApart(c)
    ensures (exists g :: AlwaysVia(c, node, g)) <==> OneNAT64(c)
  {
    hide ParseAddress, HostIPOf, GatewayBy, Distinct;
    var any := Enumerate(c.topology.Keys);
    assert IsOrder(c, any);
    if n :| IsNAT64Host(c, n) {
      if OneNAT64(c) {
        TheHostAlwaysLeads(c, node, n);
      } else {
        var m :| IsNAT64Host(c, m) && m != n;
        var p := HostLeads(c, node, n);
        var q := HostLeads(c, node, m);
        assert Over(c, node, n) != Over(c, node, m);
      }
    } else {
      WalkLeadsOverHost(c, node, any);
    }
  }
}
