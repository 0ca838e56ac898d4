/** The node list behind the hosts file (BuildNodeInfo in prepare.go). */
module NodeList {
  import opened Numerals
  import opened NodeAddresses
  import opened Configs
  import opened HostsFile

  /** Go's order on strings. */
  predicate Less(a: string, b: string) {
    b != "" && (a == "" || a[0] < b[0] || (a[0] == b[0] && Less(a[1..], b[1..])))
  }

  lemma {:induction false} LessTransitive(a: string, b: string, c: string)
    requires Less(a, b) && Less(b, c)
    ensures Less(a, c)
  {
    if a != "" && a[0] == b[0] && b[0] == c[0] { LessTransitive(a[1..], b[1..], c[1..]); }
  }

  lemma {:induction false} LessTotal(a: string, b: string)
    ensures a == b || Less(a, b) || Less(b, a)
    ensures !(Less(a, b) && Less(b, a)) && (a == b ==> !Less(a, b))
  {
    if a != "" && b != "" && a[0] == b[0] {
      LessTotal(a[1..], b[1..]);
      assert a == [a[0]] + a[1..] && b == [b[0]] + b[1..];
    }
  }

  predicate ByName(s: seq<NodeInfo>) {
    forall i, j | 0 <= i < j < |s| :: Less(s[i].name, s[j].name)
  }

  function Elements(s: seq<NodeInfo>): set<NodeInfo> { set x | x in s }

  lemma ElementsOfCons(x: NodeInfo, s: seq<NodeInfo>)
    ensures Elements([x] + s) == {x} + Elements(s)
  {
  }

  /** A list in name order is determined by its elements. */
  lemma {:induction false} ByNameIsUnique(s: seq<NodeInfo>, t: seq<NodeInfo>)
    requires ByName(s) && ByName(t) && Elements(s) == Elements(t)
    ensures s == t
  {
    assert (s != [] ==> s[0] in Elements(s)) && (t != [] ==> t[0] in Elements(t));
    if s != [] && t != [] {
      assert s[0] in Elements(t) && t[0] in Elements(s);
      LessTotal(s[0].name, t[0].name);
      assert s[0] == t[0];
      RestElements(s);
      RestElements(t);
      ByNameIsUnique(s[1..], t[1..]);
      assert s == [s[0]] + s[1..] && t == [t[0]] + t[1..];
    }
  }

  lemma RestElements(s: seq<NodeInfo>)
    requires s != [] && ByName(s)
    ensures Elements(s[1..]) == Elements(s) - {s[0]} && ByName(s[1..])
  {
    assert s == [s[0]] + s[1..];
    ElementsOfCons(s[0], s[1..]);
    LessTotal(s[0].name, s[0].name);
    assert s[0] !in s[1..];
  }

  /** One step of sorting. */
  function Insert(x: NodeInfo, s: seq<NodeInfo>): (r: seq<NodeInfo>)
    requires ByName(s) && forall y <- s :: y.name != x.name
    ensures Elements(r) == {x} + Elements(s) && |r| == |s| + 1
    ensures ByName(r)
  {
    if s == [] then [x]
    else
      LessTotal(x.name, s[0].name);
      if Less(x.name, s[0].name) then
        InFront(x, s);
        [x] + s
      else
        var rest := Insert(x, s[1..]);
        RestElements(s);
        InFront(s[0], rest);
        [s[0]] + rest
  }

  lemma InFront(x: NodeInfo, s: seq<NodeInfo>)
    requires ByName(s)
    requires s != [] ==> Less(x.name, s[0].name) || forall y <- s :: Less(x.name, y.name)
    ensures ByName([x] + s) && Elements([x] + s) == {x} + Elements(s)
  {
    ElementsOfCons(x, s);
    forall j | 0 <= j < |s| ensures Less(x.name, s[j].name) {
      if !(forall y <- s :: Less(x.name, y.name)) && j > 0 { LessTransitive(x.name, s[0].name, s[j].name); }
    }
  }

  /** sort.Slice by name, on entries whose names differ. */
  function SortByName(s: seq<NodeInfo>): (r: seq<NodeInfo>)
    requires forall i, j | 0 <= i < j < |s| :: s[i].name != s[j].name
    ensures ByName(r) && Elements(r) == Elements(s) && |r| == |s|
  {
    if s == [] then []
    else
      var rest := SortByName(s[1..]);
      ElementsOfCons(s[0], s[1..]);
      assert s == [s[0]] + s[1..];
      assert forall y <- rest :: y in Elements(rest);
      assert forall y <- rest :: y in s[1..];
      Insert(s[0], rest)
  }

  /** The management entry of the service family: the first, or in dual-stack mode the one that matches. */
  function HostsEntry(c: Config): NetInfo
    requires |c.mgmtInfo| == 2
  {
    if c.mode == DualStack && c.mgmtInfo[0].mode != c.serviceInfo.mode then c.mgmtInfo[1] else c.mgmtInfo[0]
  }

  function InfoOf(c: Config, name: string): NodeInfo
    requires |c.mgmtInfo| == 2 && name in c.topology
  {
    NodeInfo(name, HostsEntry(c).prefix + Dec(c.topology[name].id), false)
  }

  /** What the list must hold, whatever the order of the map. */
  function InfoSet(c: Config): set<NodeInfo>
    requires |c.mgmtInfo| == 2
  {
    set name | name in c.topology :: InfoOf(c, name)
  }

  ghost predicate IsNodeList(c: Config, s: seq<NodeInfo>)
    requires |c.mgmtInfo| == 2
  {
    ByName(s) && Elements(s) == InfoSet(c)
  }

  /** The node list as a function of the configuration alone. */
  ghost function NodeInfos(c: Config): (s: seq<NodeInfo>)
    requires |c.mgmtInfo| == 2
    ensures IsNodeList(c, s)
  {
    NodeListExists(c);
    var s :| IsNodeList(c, s);
    s
  }

  lemma {:induction false} EnumerateNames(c: Config, names: set<string>) returns (s: seq<NodeInfo>)
    requires |c.mgmtInfo| == 2 && names <= c.topology.Keys
    ensures ByName(s) && Elements(s) == set n | n in names :: InfoOf(c, n)
    decreases |names|
  {
    if names == {} {
      s := [];
    } else {
      var n :| n in names;
      s := EnumerateNames(c, names - {n});
      var infos := set m | m in names - {n} :: InfoOf(c, m);
      forall y <- s ensures y.name != n { assert y in infos; }
      assert (set m | m in names :: InfoOf(c, m)) == infos + {InfoOf(c, n)};
      s := Insert(InfoOf(c, n), s);
    }
  }

  lemma NodeListExists(c: Config)
    requires |c.mgmtInfo| == 2
    ensures exists s :: IsNodeList(c, s)
  {
    var s := EnumerateNames(c, c.topology.Keys);
    assert (set n | n in c.topology.Keys :: InfoOf(c, n)) == InfoSet(c);
    assert IsNodeList(c, s);
  }

  /** Fills the list in whatever order the map is walked, then sorts it by name. */
  method BuildNodeInfo(c: Config) returns (n: array<NodeInfo>)
    requires |c.mgmtInfo| == 2
    ensures fresh(n) && n[..] == NodeInfos(c)
  {
    var filled: seq<NodeInfo> := [];
    var remaining := c.topology.Keys;
    var prefix := c.mgmtInfo[0].prefix;
    if c.mode == DualStack {
      if c.mgmtInfo[0].mode != c.serviceInfo.mode {
        prefix := c.mgmtInfo[1].prefix;
      }
    }
    while remaining != {}
      invariant remaining <= c.topology.Keys
      invariant forall x <- filled :: x.name in c.topology.Keys - remaining
      invariant forall i, j | 0 <= i < j < |filled| :: filled[i].name != filled[j].name
      invariant Elements(filled) == set m | m in c.topology.Keys - remaining :: InfoOf(c, m)
      decreases remaining
    {
      var name :| name in remaining;
      var ip := prefix + Dec(c.topology[name].id);
      assert NodeInfo(name, ip, false) == InfoOf(c, name);
      ghost var before := filled;
      filled := filled + [NodeInfo(name, ip, false)];
      assert Elements(filled) == Elements(before) + {InfoOf(c, name)};
      assert c.topology.Keys - (remaining - {name}) == (c.topology.Keys - remaining) + {name};
      remaining := remaining - {name};
    }
    assert c.topology.Keys - remaining == c.topology.Keys;
    var sorted := SortByName(filled);
    ByNameIsUnique(sorted, NodeInfos(c));
    n := new NodeInfo[|sorted|](i requires 0 <= i < |sorted| => sorted[i]);
    assert n[..] == sorted;
  }
}
