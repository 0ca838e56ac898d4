/** Addresses made of a network's text and a node ID (networker.go, validate.go) and
    the networks routes lead to (netmgr.go). */
module NodeAddresses {
  import opened Wrappers
  import opened Text
  import opened Numerals
  import opened AddressText
  import opened PodSubnets
  import opened PodSubnetsExact

  datatype NetInfo = NetInfo(prefix: string, size: nat, mode: Family)

  /** The node's own address on a network, with the network's size. */
  function BuildNodeCIDR(info: NetInfo, node: nat): string {
    if info.mode == V6 then info.prefix + Hex(node) + "/" + Dec(info.size)
    else info.prefix + Dec(node) + "/" + Dec(info.size)
  }

  /** A peer's address as a gateway: hexadecimal whatever the family. */
  function BuildGWIP(prefix: string, intfPart: nat): string {
    prefix + Hex(intfPart)
  }

  // ------------------------------------------------------------ reading CIDR text

  /** What a route leads to: the masked address and the number of leading bits kept. */
  datatype Block = Block(net: Address, bits: nat)

  /** The low k bits of x cleared. */
  function ClearLow(x: nat, k: nat): nat {
    if k == 0 then x else 2 * ClearLow(x / 2, k - 1)
  }

  /** An element that holds bits from..to of an address, masked to the leading `bits`. */
  function MaskElement(x: nat, from: nat, to: nat, bits: nat): nat
    requires from < to
  {
    if to <= bits then x else if bits <= from then 0 else ClearLow(x, to - bits)
  }

  function Mask(a: Address, bits: nat): Address {
    if |a| == 8 then seq(8, i requires 0 <= i < 8 => MaskElement(a[i], 16 * i, 16 * i + 16, bits))
    else seq(|a|, i requires 0 <= i < |a| => MaskElement(a[i], 8 * i, 8 * i + 8, bits))
  }

  lemma {:induction false} ClearTwice(x: nat, j: nat, k: nat)
    requires j <= k
    ensures ClearLow(ClearLow(x, j), k) == ClearLow(x, k)
  {
    if j > 0 {
      ClearTwice(x / 2, j - 1, k - 1);
      assert ClearLow(x, j) / 2 == ClearLow(x / 2, j - 1);
    }
  }

  /** Masking to fewer bits does not need the others. */
  lemma MaskTwice(a: Address, longer: nat, shorter: nat)
    requires (|a| == 4 || |a| == 8) && shorter <= longer
    ensures Mask(Mask(a, longer), shorter) == Mask(a, shorter)
  {
    var w := if |a| == 8 then 16 else 8;
    forall i | 0 <= i < |a| ensures Mask(Mask(a, longer), shorter)[i] == Mask(a, shorter)[i] {
      var to := w * i + w;
      if shorter < to && longer < to { ClearTwice(a[i], to - longer, to - shorter); }
    }
  }

  /** net.ParseCIDR, the network part of its result. */
  function ParseCIDR(s: string): Option<Block> {
    var parts := Split(s, '/');
    if |parts| != 2 || !IsNumeral(parts[1], 10) then None
    else
      var bits := Value(parts[1], 10);
      match ParseAddress(parts[0])
      case None => None
      case Some(a) => if bits <= (if |a| == 8 then 128 else 32) then Some(Block(Mask(a, bits), bits)) else None
  }

  lemma {:induction false} SplitHoldsBytes(s: string, sep: char, c: char)
    requires c in s && c != sep
    ensures exists p <- Split(s, sep) :: c in p
  {
    if s[0] != c {
      SplitHoldsBytes(s[1..], sep, c);
      var p :| p in Split(s[1..], sep) && c in p;
      var rest := Split(s[1..], sep);
      if s[0] == sep {
        assert p in [""] + rest;
      } else if p == rest[0] {
        assert c in [s[0]] + rest[0];
      } else {
        assert p in rest[1..];
      }
    } else {
      var rest := Split(s[1..], sep);
      assert c in [s[0]] + rest[0];
    }
  }

  lemma CidrText(address: string, bits: nat, a: Address)
    requires '/' !in address && ParseAddress(address) == Some(a)
    requires bits <= if |a| == 8 then 128 else 32
    ensures ParseCIDR(address + "/" + Dec(bits)) == Some(Block(Mask(a, bits), bits))
  {
    hide ParseAddress, Split, Value, Render;
    RenderDigits(bits, 10);
    RenderRoundTrip(bits, 10);
    SplitPlain(address, '/');
    SplitPlain(Dec(bits), '/');
    SplitConcat(address, Dec(bits), '/');
  }

  // ------------------------------------------------------------ IPv6 node addresses

  lemma {:induction false} ValueLeadingZero(d: string)
    ensures Value("0" + d, 16) == Value(d, 16)
  {
    var s := "0" + d;
    if d == "" {
      assert s[..0] == "" && s[0] == '0';
    } else {
      ValueLeadingZero(d[..|d| - 1]);
      assert s[..|s| - 1] == "0" + d[..|d| - 1];
    }
  }

  /** Up to three digits that can be written behind a network's text. */
  predicate IsSuffix(d: string) {
    IsNumeral(d, 16) && |d| <= 3 && forall c <- d :: '0' <= c <= '9' || 'a' <= c <= 'f'
  }

  lemma SuffixGroup(d: string)
    requires IsSuffix(d)
    ensures IsGroup(d) && IsGroup("0" + d) && Value("0" + d, 16) == Value(d, 16) && ':' !in d
  {
    ValueLeadingZero(d);
  }

  /** The parts of the canonical text behind the "::", "" when nothing is there. */
  function RightParts(g: Address): (parts: seq<string>)
    ensures parts != []
  {
    if After(g) == [] then [""] else HexParts(After(g))
  }

  lemma CompressedParts(g: Address)
    requires IsV6(g) && ZeroRun(g, LongestRun(g, 0)) >= 2
    ensures Split(V6Text(g), ':') == LeftParts(g) + [""] + RightParts(g)
  {
    hide LongestRun, ZeroRun, Groups, HexParts, Render, Split;
    var left, right := Before(g), After(g);
    BeforeAndAfterFit(g);
    SplitDouble(Groups(left), Groups(right));
    assert V6Text(g) == Groups(left) + "::" + Groups(right);
    if left == [] { SplitNothing(left); } else { SplitGroups(left); }
    if right == [] { SplitNothing(right); } else { SplitGroups(right); }
  }

  /** Digits behind a list of parts go onto the last one. */
  function OntoLast(parts: seq<string>, d: string): seq<string>
    requires parts != []
  {
    parts[..|parts| - 1] + [parts[|parts| - 1] + d]
  }

  lemma LastGroup(right: seq<nat>, d: string)
    requires right != [] && right[|right| - 1] == 0 && IsSuffix(d) && forall x <- right :: x < 0x10000
    ensures AreGroups(OntoLast(HexParts(right), d))
    ensures Values(OntoLast(HexParts(right), d), 16) == right[..|right| - 1] + [Value(d, 16)]
  {
    hide Value, Render;
    var n := |right| - 1;
    HexPartsFacts(right);
    RenderHead(0, 16);
    SuffixGroup(d);
    var parts := OntoLast(HexParts(right), d);
    forall p <- parts ensures IsGroup(p) { assert p in HexParts(right) || p == "0" + d; }
    assert forall i | 0 <= i < n :: parts[i] == HexParts(right)[i] && Values(HexParts(right), 16)[i] == right[i];
  }

  lemma LastPart(g: Address, d: string)
    requires IsV6(g) && g[7] == 0 && IsSuffix(d) && ZeroRun(g, LongestRun(g, 0)) >= 2
    ensures AreGroups(OntoLast(RightParts(g), d))
    ensures Values(OntoLast(RightParts(g), d), 16)
         == (if After(g) == [] then [] else After(g)[..|After(g)| - 1]) + [Value(d, 16)]
  {
    hide LongestRun, ZeroRun, Value, Render;
    BeforeAndAfterFit(g);
    SuffixGroup(d);
    if After(g) == [] {
      assert OntoLast([""], d) == [d] by { assert "" + d == d; }
      assert Values([d], 16) == [Value(d, 16)];
      assert [] + [Value(d, 16)] == [Value(d, 16)];
    } else {
      assert After(g)[|After(g)| - 1] == g[7];
      LastGroup(After(g), d);
    }
  }

  lemma Rejoin(g: Address, a: nat, n: nat, v: nat)
    requires |g| == 8 && n >= 2 && a + n <= 8 && g[7] == 0 && forall j | a <= j < a + n :: g[j] == 0
    ensures var rest := g[a + n..];
            var tail := (if rest == [] then [] else rest[..|rest| - 1]) + [v];
            a + |tail| <= 7 && g[..a] + Zeros(8 - a - |tail|) + tail == g[7 := v]
  {
    var rest := g[a + n..];
    var tail := (if rest == [] then [] else rest[..|rest| - 1]) + [v];
    var zeros := Zeros(8 - a - |tail|);
    assert forall i | 0 <= i < |zeros| :: zeros[i] in zeros;
    forall i | 0 <= i < 8 ensures (g[..a] + zeros + tail)[i] == g[7 := v][i] {}
  }

  lemma PutTogether(g: Address, v: nat)
    requires IsV6(g) && g[7] == 0 && ZeroRun(g, LongestRun(g, 0)) >= 2
    ensures var tail := (if After(g) == [] then [] else After(g)[..|After(g)| - 1]) + [v];
            && |Before(g)| + |tail| <= 7
            && Before(g) + Zeros(8 - |Before(g)| - |tail|) + tail == g[7 := v]
  {
    hide ZeroRun, LongestRun;
    Rejoin(g, LongestRun(g, 0), ZeroRun(g, LongestRun(g, 0)), v);
  }

  /** Digits behind the canonical text of a network whose last group is zero replace that
      group, wherever the "::" stands. */
  lemma NodeText6(g: Address, d: string)
    requires IsV6(g) && g[7] == 0 && IsSuffix(d)
    ensures ParseV6(V6Text(g) + d) == Some(g[7 := Value(d, 16)])
    ensures ':' in V6Text(g) + d
  {
    hide LongestRun, ZeroRun, Split, Value, Render, ParseV6, RightParts, After, IsGroup, Groups;
    SuffixGroup(d);
    SplitAppend(V6Text(g), d, ':');
    var s := V6Text(g) + d;
    if ZeroRun(g, LongestRun(g, 0)) < 2 {
      SplitGroups(g);
      LastGroup(g, d);
      assert Split(s, ':') == OntoLast(HexParts(g), d);
      ParseFull(OntoLast(HexParts(g), d), s);
      assert g[..7] + [Value(d, 16)] == g[7 := Value(d, 16)];
    } else {
      CompressedParts(g);
      var right := OntoLast(RightParts(g), d);
      LastPart(g, d);
      assert Split(s, ':') == LeftParts(g) + [""] + right;
      BeforeAndAfterFit(g);
      HexPartsFacts(Before(g));
      PutTogether(g, Value(d, 16));
      ParseCompressed(HexParts(Before(g)), right, s);
    }
    if ':' !in s { SplitPlain(s, ':'); }
  }

  // ------------------------------------------------------------ IPv4 node addresses

  /** The three leading octets, each with its dot. */
  function V4Prefix(o: Address): string
    requires |o| == 4
  {
    Dec(o[0]) + "." + Dec(o[1]) + "." + Dec(o[2]) + "."
  }

  lemma V4Parts(o: Address)
    requires IsV4(o)
    ensures Split(V4Text(o), '.') == [Dec(o[0]), Dec(o[1]), Dec(o[2]), Dec(o[3])]
    ensures MakeV4PrefixFromNetwork(V4Text(o)) == V4Prefix(o)
  {
    hide Split, Render;
    assert forall i | 0 <= i < 4 :: o[i] in o;
    DecOctet(o[0]); DecOctet(o[1]); DecOctet(o[2]); DecOctet(o[3]);
    SplitFour(Dec(o[0]), Dec(o[1]), Dec(o[2]), Dec(o[3]));
  }

  lemma SplitFour(a: string, b: string, c: string, d: string)
    requires '.' !in a && '.' !in b && '.' !in c && '.' !in d
    ensures Split(a + "." + b + "." + c + "." + d, '.') == [a, b, c, d]
  {
    hide Split;
    SplitPlain(a, '.'); SplitPlain(b, '.'); SplitPlain(c, '.'); SplitPlain(d, '.');
    SplitConcat(a, b, '.');
    SplitConcat(a + "." + b, c, '.');
    SplitConcat(a + "." + b + "." + c, d, '.');
  }

  /** Digits behind the first three octets. */
  lemma NodeText4(o: Address, d: string)
    requires IsV4(o) && '.' !in d && ':' !in d
    ensures var s := V4Prefix(o) + d;
            && ':' !in s
            && ParseV4(s) == if IsOctet(d) then Some(o[3 := Value(d, 10)]) else None
  {
    hide Split, Render, Value, IsOctet;
    assert forall i | 0 <= i < 4 :: o[i] in o;
    DecOctet(o[0]); DecOctet(o[1]); DecOctet(o[2]);
    SplitFour(Dec(o[0]), Dec(o[1]), Dec(o[2]), d);
    var parts := [Dec(o[0]), Dec(o[1]), Dec(o[2]), d];
    assert Values(parts, 10) == o[3 := Value(d, 10)];
    assert parts[3] in parts;
    assert (forall p <- parts :: IsOctet(p)) <==> IsOctet(d);
  }

  // ------------------------------------------------------------ decimal against hexadecimal

  /** The gateway text for a peer is the address part of the peer's own CIDR, digit for digit:
      always in IPv6, exactly below ten in IPv4. */
  lemma GatewayMatchesNodeText(info: NetInfo, id: nat)
    requires info.mode != Unset
    ensures BuildGWIP(info.prefix, id) + "/" + Dec(info.size) == BuildNodeCIDR(info, id) <==> info.mode == V6 || id < 10
  {
    hide Render;
    RenderingsAgree(id);
    var p, tail := info.prefix, "/" + Dec(info.size);
    if info.mode == V4 {
      var x, y := p + Hex(id) + tail, p + Dec(id) + tail;
      assert BuildGWIP(p, id) + "/" + Dec(info.size) == x && BuildNodeCIDR(info, id) == y;
      if x == y {
        assert x[|p|..|x| - |tail|] == Hex(id) && y[|p|..|y| - |tail|] == Dec(id);
      }
    }
  }

  lemma HexSuffix(id: nat)
    requires id < 0x1000
    ensures IsSuffix(Hex(id)) && Value(Hex(id), 16) == id
  {
    HexLength(id);
    RenderDigits(id, 16);
    RenderRoundTrip(id, 16);
  }

  lemma DecSuffix(id: nat)
    requires id < 1000
    ensures IsSuffix(Dec(id)) && (Value(Dec(id), 16) == id <==> id < 10)
  {
    DecLength(id);
    DecReadAsHex(id);
    RenderDigits(id, 10);
  }

  /** IPv6: the interface and gateway text denotes network + id; the decimal text of the
      hosts file, the advertise address and the join endpoint does so exactly below ten. */
  lemma NodeAddress6(g: Address, id: nat)
    requires IsV6(g) && g[7] == 0 && id < 1000
    ensures ParseAddress(BuildGWIP(V6Text(g), id)) == Some(g[7 := id])
    ensures ParseAddress(V6Text(g) + Dec(id)).Some?
    ensures ParseAddress(V6Text(g) + Dec(id)) == Some(g[7 := id]) <==> id < 10
  {
    hide ParseV6, V6Text, Render, Value, IsSuffix;
    HexSuffix(id);
    DecSuffix(id);
    NodeText6(g, Hex(id));
    NodeText6(g, Dec(id));
    var a, b := g[7 := Value(Dec(id), 16)], g[7 := id];
    assert a[7] == Value(Dec(id), 16) && b[7] == id;
  }

  /** Canonical text is read back as the address it was written for. */
  lemma V6TextParses(g: Address)
    requires IsV6(g)
    ensures ParseV6(V6Text(g)) == Some(g)
  {
    hide *;
    if ZeroRun(g, LongestRun(g, 0)) < 2 {
      FullTextParses(g);
    } else if After(g) != [] {
      InnerTextParses(g);
    } else {
      TailTextParses(g);
    }
  }

  lemma ParseGroupsInside(s: string, l: seq<string>, r: seq<string>, left: seq<nat>, right: seq<nat>)
    requires (forall x <- left :: x < 0x10000) && (forall x <- right :: x < 0x10000)
    requires right != [] && |left| + |right| <= 7
    requires l == (if left == [] then [""] else HexParts(left)) && r == HexParts(right) && Split(s, ':') == l + [""] + r
    ensures ParseV6(s) == Some(left + Zeros(8 - |left| - |right|) + right)
  {
    HexPartsFacts(left);
    HexPartsFacts(right);
    hide ParseV6, Split, AreGroups, Values, Zeros;
    ParseCompressed(HexParts(left), HexParts(right), s);
  }

  lemma ParseGroupsFirst(s: string, l: seq<string>, left: seq<nat>)
    requires (forall x <- left :: x < 0x10000) && |left| <= 7
    requires l == (if left == [] then [""] else HexParts(left)) && Split(s, ':') == l + [""] + [""]
    ensures ParseV6(s) == Some(left + Zeros(8 - |left|) + [])
  {
    assert l + [""] + [""] == l + ["", ""] && left + Zeros(8 - |left|) + [] == left + Zeros(8 - |left|);
    if left == [] {
      assert [""] + ["", ""] == ["", "", ""];
      ParseZero(s);
      assert [] + Zeros(8) == Zeros(8);
    } else {
      HexPartsFacts(left);
      hide ParseV6, Split, AreGroups, Values, Zeros;
      ParseTail(HexParts(left), s);
    }
  }

  lemma InnerTextParses(g: Address)
    requires IsV6(g) && ZeroRun(g, LongestRun(g, 0)) >= 2 && After(g) != []
    ensures ParseV6(V6Text(g)) == Some(g)
  {
    hide IsV6, ZeroRun, LongestRun, Before, After, V6Text, ParseV6, Split, RightParts, LeftParts, Zeros, HexParts,
      Groups;
    TextPieces(g);
    ZerosBetween(g);
    CompressedParts(g);
    ParseGroupsInside(V6Text(g), LeftParts(g), RightParts(g), Before(g), After(g));
  }

  lemma TextPieces(g: Address)
    requires IsV6(g) && ZeroRun(g, LongestRun(g, 0)) >= 2
    ensures |g| == 8 && (forall x <- Before(g) :: x < 0x10000) && (forall x <- After(g) :: x < 0x10000)
    ensures LeftParts(g) == if Before(g) == [] then [""] else HexParts(Before(g))
    ensures RightParts(g) == if After(g) == [] then [""] else HexParts(After(g))
  {
    BeforeAndAfterFit(g);
    hide Before, After;
  }

  lemma TailTextParses(g: Address)
    requires IsV6(g) && ZeroRun(g, LongestRun(g, 0)) >= 2 && After(g) == []
    ensures ParseV6(V6Text(g)) == Some(g)
  {
    hide IsV6, ZeroRun, LongestRun, Before, After, V6Text, ParseV6, Split, RightParts, LeftParts, Zeros, HexParts,
      Groups;
    TextPieces(g);
    ZerosBetween(g);
    CompressedParts(g);
    ParseGroupsFirst(V6Text(g), LeftParts(g), Before(g));
  }

  lemma FullTextParses(g: Address)
    requires IsV6(g) && ZeroRun(g, LongestRun(g, 0)) < 2
    ensures ParseV6(V6Text(g)) == Some(g)
  {
    hide ZeroRun, LongestRun, Groups, Split, ParseV6;
    SplitGroups(g);
    HexPartsFacts(g);
    ParseFull(HexParts(g), V6Text(g));
  }

  lemma ZerosBetween(g: Address)
    requires |g| == 8 && ZeroRun(g, LongestRun(g, 0)) >= 2
    ensures |Before(g)| + |After(g)| <= 6 && Before(g) + Zeros(8 - |Before(g)| - |After(g)|) + After(g) == g
  {
    hide LongestRun;
    var zeros := Zeros(8 - |Before(g)| - |After(g)|);
    assert forall i | 0 <= i < |zeros| :: zeros[i] in zeros;
    assert forall i | 0 <= i < 8 :: (Before(g) + zeros + After(g))[i] == g[i];
  }

  lemma ParseZero(s: string)
    requires Split(s, ':') == ["", "", ""]
    ensures ParseV6(s) == Some(Zeros(8))
  {
    hide Split;
    var parts := Split(s, ':');
    assert FirstEmpty(parts) == 0 && parts[2..] == [""] && parts[..0] == [];
    assert Values([], 16) + Zeros(8) + Values([], 16) == Zeros(8);
  }

  lemma V4TextParses(o: Address)
    requires IsV4(o)
    ensures ParseAddress(V4Text(o)) == Some(o)
  {
    assert o[3] in o;
    DecOctet(o[3]);
    NodeText4(o, Dec(o[3]));
    hide ParseV4, Render, Value, IsOctet;
    assert V4Prefix(o) + Dec(o[3]) == V4Text(o);
    assert o[3 := o[3]] == o;
  }

  /** The text of the tenth address: right exactly where the network's last group is zero. */
  lemma TenthAddress6(g: Address)
    requires IsV6(g)
    ensures ParseAddress(V6Text(g) + "a") == Some(g[7 := g[7] + 10]) <==> g[7] == 0
  {
    TenthText(g);
    hide V6Text, ParseV6;
    if g[7] != 0 && ParseAddress(V6Text(g) + "a") == Some(g[7 := g[7] + 10]) {
      LastGroupOfTenth(g);
    }
  }

  lemma TenthText(g: Address)
    requires IsV6(g)
    ensures ':' in V6Text(g) + "a"
    ensures g[7] == 0 ==> ParseV6(V6Text(g) + "a") == Some(g[7 := 10])
  {
    HasColon(g);
    hide V6Text, ParseV6;
    if g[7] == 0 {
      assert IsSuffix("a") && Value("a", 16) == 10 by { assert "a"[..0] == "" && Value("", 16) == 0; }
      NodeText6(g, "a");
    }
  }

  lemma HasColon(g: Address)
    requires IsV6(g)
    ensures ':' in V6Text(g)
  {
    if ZeroRun(g, LongestRun(g, 0)) < 2 {
      hide ZeroRun, LongestRun, Groups, Split;
      SplitGroups(g);
      if ':' !in V6Text(g) { SplitPlain(V6Text(g), ':'); }
    } else {
      var a := LongestRun(g, 0);
      hide ZeroRun, LongestRun, Groups;
      var left, right := Groups(g[..a]), Groups(g[a + ZeroRun(g, a)..]);
      assert (left + "::" + right)[|left|] == ':';
    }
  }

  lemma LastGroupOfTenth(g: Address)
    requires IsV6(g) && g[7] != 0
    ensures ParseV6(V6Text(g) + "a") != Some(g[7 := g[7] + 10])
  {
    TextEndsInLastGroup(g);
    hide V6Text, ParseV6, Split;
    SplitAppend(V6Text(g), "a", ':');
    var last := Hex(g[7]) + "a";
    RenderRoundTrip(g[7], 16);
    assert last[..|last| - 1] == Hex(g[7]) && last[|last| - 1] == 'a';
    hide Render;
    assert Value(last, 16) == Value(Hex(g[7]), 16) * 16 + 10;
    if ParseV6(V6Text(g) + "a") == Some(g[7 := g[7] + 10]) {
      LastGroupValue(V6Text(g) + "a", g[7 := g[7] + 10]);
    }
  }

  lemma TenthAddress4(o: Address)
    requires IsV4(o)
    ensures ParseAddress(V4Prefix(o) + "10") == Some(o[3 := 10])
  {
    hide ParseV4, V4Prefix, Render, Value, IsNumeral;
    NodeAddress4(o, 10);
    assert Dec(10) == "10" by { TenInDecimal(); }
  }

  lemma TenInDecimal()
    ensures Dec(10) == "10"
  {
  }

  /** The last part of address text is its last group. */
  lemma LastGroupValue(s: string, a: Address)
    requires ParseV6(s) == Some(a)
    ensures var parts := Split(s, ':');
            |a| == 8 && (parts[|parts| - 1] != "" ==> a[7] == Value(parts[|parts| - 1], 16))
  {
    hide Split, Value;
    var parts := Split(s, ':');
    var i := FirstEmpty(parts);
    if i < |parts| && parts[|parts| - 1] != "" {
      var right := parts[(if i == 0 then 2 else i + 1)..];
      assert right[|right| - 1] == parts[|parts| - 1];
      assert Values(right, 16)[|right| - 1] == Value(parts[|parts| - 1], 16);
    }
  }

  lemma TextEndsInLastGroup(g: Address)
    requires IsV6(g) && g[7] != 0
    ensures var parts := Split(V6Text(g), ':'); parts[|parts| - 1] == Hex(g[7])
  {
    hide Split, Render;
    if ZeroRun(g, LongestRun(g, 0)) < 2 {
      FullTextEnds(g);
    } else {
      RunEndsEarlier(g);
      hide ZeroRun, LongestRun, V6Text;
      CompressedParts(g);
      assert RightParts(g) == HexParts(After(g)) && After(g)[|After(g)| - 1] == g[7];
      hide After;
      HexPartsFacts(g);
    }
  }

  lemma FullTextEnds(g: Address)
    requires IsV6(g) && ZeroRun(g, LongestRun(g, 0)) < 2
    ensures Split(V6Text(g), ':') == HexParts(g) && HexParts(g)[7] == Hex(g[7])
  {
    hide Split, ZeroRun, LongestRun, Render, Groups;
    SplitGroups(g);
  }

  lemma RunEndsEarlier(g: Address)
    requires |g| == 8 && g[7] != 0 && ZeroRun(g, LongestRun(g, 0)) >= 2
    ensures After(g) != [] && After(g)[|After(g)| - 1] == g[7]
  {
    hide LongestRun;
  }

  /** The hexadecimal text denotes network + id for every ID if and only if the last group of
      the network is zero: otherwise the ID's digits only lengthen that group. */
  lemma NodeAddress6Exactly(g: Address)
    requires IsV6(g)
    ensures (forall id | 0 <= id < 256 :: ParseAddress(BuildGWIP(V6Text(g), id)) == Some(g[7 := g[7] + id])) <==>
              g[7] == 0
  {
    if g[7] == 0 {
      forall id | 0 <= id < 256 ensures ParseAddress(BuildGWIP(V6Text(g), id)) == Some(g[7 := g[7] + id]) {
        hide ParseAddress, V6Text, BuildGWIP;
        NodeAddress6(g, id);
      }
    } else {
      FirstIDIsWrong(g);
      assert ParseAddress(BuildGWIP(V6Text(g), 0)) != Some(g[7 := g[7] + 0]);
    }
  }

  lemma FirstIDIsWrong(g: Address)
    requires IsV6(g) && g[7] != 0
    ensures ParseAddress(BuildGWIP(V6Text(g), 0)) != Some(g)
    ensures g[7 := g[7] + 0] == g
  {
    var t := V6Text(g);
    TextEndsInLastGroup(g);
    assert Hex(0) == "0";
    SplitAppend(t, "0", ':');
    ZeroDigit(Hex(g[7]));
    RenderRoundTrip(g[7], 16);
    hide V6Text, Split, Value, Render, ParseV6, ParseV4;
    if ParseV6(t + "0") == Some(g) { LastGroupValue(t + "0", g); }
    if ParseV4(t + "0") == Some(g) { FourOctets(t + "0", g); }
  }

  lemma ZeroDigit(d: string)
    ensures Value(d + "0", 16) == Value(d, 16) * 16
  {
    assert (d + "0")[..|d|] == d;
  }

  lemma FourOctets(s: string, a: Address)
    requires ParseV4(s) == Some(a)
    ensures |a| == 4
  {
  }

  /** IPv4: the decimal texts denote network + id for every ID; the gateway text exactly
      below ten (and for other IDs it may not even be an address). */
  lemma NodeAddress4(o: Address, id: nat)
    requires IsV4(o) && id < 256
    ensures var prefix := V4Prefix(o);
            && ParseAddress(prefix + Dec(id)) == Some(o[3 := id])
            && (ParseAddress(BuildGWIP(prefix, id)) == Some(o[3 := id]) <==> id < 10)
            && (ParseAddress(BuildGWIP(prefix, id)).Some? <==> IsNumeral(Hex(id), 10))
  {
    hide ParseV4, V4Prefix, Render, Value, IsNumeral;
    DecOctet(id);
    HexNoColon(id);
    NodeText4(o, Dec(id));
    NodeText4(o, Hex(id));
    HexOctet(id);
    var a, b := o[3 := Value(Hex(id), 10)], o[3 := id];
    assert a[3] == Value(Hex(id), 10) && b[3] == id;
  }

  lemma HexOctet(id: nat)
    requires id < 256
    ensures IsOctet(Hex(id)) <==> IsNumeral(Hex(id), 10)
    ensures IsOctet(Hex(id)) && Value(Hex(id), 10) == id <==> id < 10
  {
    HexLength(id);
    RenderingsAgree(id);
    RenderDigits(id, 10);
    RenderRoundTrip(id, 10);
    if IsNumeral(Hex(id), 10) { HexReadAsDec(id); }
  }
}
