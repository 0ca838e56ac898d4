/** Searching the links for an address (netmgr.go). */
module LinkSearch {
  import opened Wrappers
  import opened AddressText
  import opened Configs
  import opened MappingPool

  /** A link as listed: its index and its IPv4 addresses. */
  datatype LinkInfo = LinkInfo(index: nat, addrs: seq<Address>)

  predicate WellListed(links: seq<LinkInfo>) {
    forall l <- links :: forall a <- l.addrs :: |a| == 4
  }

  /** The link has an address in the network. */
  predicate Serves(l: LinkInfo, c: Cidr)
    requires c.Net? && (|c.net| == 4 || |c.net| == 8) && forall a <- l.addrs :: |a| == 4
  {
    exists a <- l.addrs :: Contains(c, a)
  }

  /** The first link that serves the network. */
  function FirstServing(links: seq<LinkInfo>, c: Cidr): (index: Option<nat>)
    requires WellListed(links) && c.Net? && (|c.net| == 4 || |c.net| == 8)
    ensures index == None <==> forall l <- links :: !Serves(l, c)
    ensures index.Some? ==> exists l <- links :: Serves(l, c) && index == Some(l.index)
  {
    if links == [] then None
    else
      assert links[0] in links && forall l <- links[1..] :: l in links;
      assert forall l <- links :: l == links[0] || l in links[1..];
      if Serves(links[0], c) then Some(links[0].index) else FirstServing(links[1..], c)
  }

  /** What comes before the link does not serve the network. */
  lemma {:induction false} FirstIsFound(links: seq<LinkInfo>, c: Cidr, k: nat)
    requires WellListed(links) && c.Net? && (|c.net| == 4 || |c.net| == 8) && k < |links|
    requires Serves(links[k], c) && forall j | 0 <= j < k :: !Serves(links[j], c)
    ensures FirstServing(links, c) == Some(links[k].index)
  {
    hide Serves;
    if k > 0 {
      assert WellListed(links[1..]) by { assert forall l <- links[1..] :: l in links; }
      assert links[1..][k - 1] == links[k] && forall j | 0 <= j < k - 1 :: links[1..][j] == links[j + 1];
      FirstIsFound(links[1..], c, k - 1);
    }
  }

  lemma ServingFrom(links: seq<LinkInfo>, i: nat, c: Cidr)
    requires WellListed(links) && c.Net? && (|c.net| == 4 || |c.net| == 8) && i < |links|
    ensures links[i] in links && WellListed(links[i..]) && WellListed(links[i + 1..])
    ensures FirstServing(links[i..], c) == if Serves(links[i], c) then Some(links[i].index)
              else FirstServing(links[i + 1..], c)
  {
    hide Contains;
    assert links[i..][1..] == links[i + 1..];
    assert forall l <- links[i..] :: l in links;
  }

  /** A link list that cannot be read is empty; so is an address list. */
  method FindLinkIndexForCIDR(c: Cidr, links: seq<LinkInfo>) returns (index: Option<nat>)
    requires IsParsed(c) && WellListed(links)
    ensures !c.Net? ==> index == None
    ensures c.Net? ==> index == FirstServing(links, c)
  {
    hide FirstServing, Contains, WellListed;
    index := None;
    if !c.Net? || |links| == 0 {
      if c.Net? { NoLinks(links, c); }
      return;
    }
    var i := 0;
    assert links[0..] == links;
    while i < |links|
      invariant 0 <= i <= |links|
      invariant WellListed(links[i..]) && FirstServing(links, c) == FirstServing(links[i..], c)
    {
      ServingFrom(links, i, c);
      var addrs := links[i].addrs;
      var j := 0;
      AddressesListed(links, i);
      while j < |addrs|
        invariant 0 <= j <= |addrs|
        invariant forall k | 0 <= k < j :: !Contains(c, addrs[k])
      {
        if Contains(c, addrs[j]) {
          return Some(links[i].index);
        }
        j := j + 1;
      }
      assert !Serves(links[i], c);
      i := i + 1;
    }
    assert links[i..] == [];
    NoLinks([], c);
  }

  lemma NoLinks(links: seq<LinkInfo>, c: Cidr)
    requires WellListed(links) && c.Net? && (|c.net| == 4 || |c.net| == 8) && links == []
    ensures FirstServing(links, c) == None
  {
  }

  lemma AddressesListed(links: seq<LinkInfo>, i: nat)
    requires WellListed(links) && i < |links|
    ensures links[i] in links && forall a <- links[i].addrs :: |a| == 4
  {
  }

  /** `addrs`: address and prefix length, or None when the list could not be read. */
  method AddressExistsOnLink(a: Address, bits: nat, addrs: Option<seq<(Address, nat)>>) returns (found: bool)
    ensures found <==> addrs.Some? && (a, bits) in addrs.value
  {
    if addrs == None {
      return false;
    }
    var i := 0;
    while i < |addrs.value|
      invariant 0 <= i <= |addrs.value| && (a, bits) !in addrs.value[..i]
    {
      if addrs.value[i] == (a, bits) {
        return true;
      }
      i := i + 1;
    }
    found := false;
  }

  /** The bridge of the support network is found, in whatever order the links are listed,
      exactly if no other link has an address in the support network. */
  lemma BridgeIsFound(links: seq<LinkInfo>, bridge: LinkInfo, c: Cidr)
    requires WellListed(links) && c.Net? && (|c.net| == 4 || |c.net| == 8)
    requires bridge in links && Serves(bridge, c)
    ensures (forall q | Reordered(q, links) :: FirstServing(q, c) == Some(bridge.index)) <==>
              forall l <- links :: Serves(l, c) ==> l.index == bridge.index
  {
    hide FirstServing, Contains, Serves;
    if forall l <- links :: Serves(l, c) ==> l.index == bridge.index {
      forall q | Reordered(q, links) ensures FirstServing(q, c) == Some(bridge.index) {
        assert bridge in q;
      }
    } else {
      var l :| l in links && Serves(l, c) && l.index != bridge.index;
      var q := ToFront(links, l);
      ServingFrom(q, 0, c);
      assert q[0..] == q && FirstServing(q, c) == Some(l.index);
    }
  }

  ghost predicate Reordered(q: seq<LinkInfo>, links: seq<LinkInfo>) {
    multiset(q) == multiset(links) && WellListed(q) && forall l: LinkInfo :: l in q <==> l in links
  }

  lemma ToFront(links: seq<LinkInfo>, l: LinkInfo) returns (q: seq<LinkInfo>)
    requires WellListed(links) && l in links
    ensures Reordered(q, links) && q != [] && q[0] == l
  {
    var k :| 0 <= k < |links| && links[k] == l;
    q := [l] + links[..k] + links[k + 1..];
    assert links == links[..k] + [l] + links[k + 1..];
    forall x: LinkInfo ensures x in q <==> x in links {
      assert x in q <==> x in multiset(q);
      assert x in links <==> x in multiset(links);
    }
  }
}
