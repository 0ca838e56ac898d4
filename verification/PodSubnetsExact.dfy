/** For which IPv6 pod networks the subnet text is right: exactly those whose canonical text
    ends in "::" after some group, and the all-zero /8. */
module PodSubnetsExact {
  import opened Wrappers
  import opened Text
  import opened Numerals
  import opened AddressText
  import opened PodSubnets

  /** Parts with a gap ("" inside) that does not reach the end. */
  predicate Gapped(parts: seq<string>) {
    && |parts| >= 2 && parts[|parts| - 1] != ""
    && FirstEmpty(parts) < |parts| - 1
    && (FirstEmpty(parts) == 0 ==> |parts| >= 3)
    && forall p <- parts :: ':' !in p
  }

  lemma GappedIsPlain(parts: seq<string>)
    requires Gapped(parts)
    ensures parts != [] && forall p <- parts :: ':' !in p
  {
  }

  lemma FirstEmptyIs(parts: seq<string>, i: nat)
    requires i < |parts| && parts[i] == "" && forall j | 0 <= j < i :: parts[j] != ""
    ensures FirstEmpty(parts) == i
  {
  }

  /** Compressed, but not at the end. */
  predicate InnerCompressed(g: Address) {
    var a := LongestRun(g, 0);
    ZeroRun(g, a) >= 2 && a + ZeroRun(g, a) < |g|
  }

  /** The groups before and after the compressed run. */
  function Before(g: Address): seq<nat> { g[..LongestRun(g, 0)] }
  function After(g: Address): seq<nat> { var a := LongestRun(g, 0); g[a + ZeroRun(g, a)..] }

  function LeftParts(g: Address): seq<string> {
    if Before(g) == [] then [""] else HexParts(Before(g))
  }

  lemma BeforeAndAfterFit(g: Address)
    requires forall x <- g :: x < 0x10000
    ensures forall x <- Before(g) :: x < 0x10000
    ensures forall x <- After(g) :: x < 0x10000
  {
    forall x <- Before(g) ensures x < 0x10000 { assert x in g; }
    forall x <- After(g) ensures x < 0x10000 { assert x in g; }
  }

  lemma InnerParts(g: Address)
    requires IsV6(g) && InnerCompressed(g)
    ensures Split(TrimRight(V6Text(g), ':'), ':') == LeftParts(g) + [""] + HexParts(After(g))
  {
    hide LongestRun, ZeroRun, Groups, HexParts, Render, Split;
    var left, right := Before(g), After(g);
    BeforeAndAfterFit(g);
    SplitDouble(Groups(left), Groups(right));
    SplitGroups(right);
    GroupsEnd(right);
    assert V6Text(g) == Groups(left) + "::" + Groups(right);
    assert V6Text(g)[|V6Text(g)| - 1] == Groups(right)[|Groups(right)| - 1];
    if left == [] { SplitNothing(left); } else { SplitGroups(left); }
  }

  lemma SplitNothing(g: seq<nat>)
    requires g == []
    ensures Split(Groups(g), ':') == [""]
  {
  }

  /** The text of a network compressed elsewhere than at its end. */
  lemma GappedText(g: Address)
    requires IsV6(g) && InnerCompressed(g)
    ensures Gapped(Split(TrimRight(V6Text(g), ':'), ':'))
    ensures "00" !in Split(TrimRight(V6Text(g), ':'), ':')
  {
    hide LongestRun, ZeroRun, Groups, Split, V6Text, TrimRight;
    BeforeAndAfterFit(g);
    InnerParts(g);
    HexPartsFacts(Before(g));
    HexPartsFacts(After(g));
    NoDoubleZero(Before(g));
    NoDoubleZero(After(g));
    GappedShape(LeftParts(g), HexParts(After(g)));
  }

  lemma GappedShape(left: seq<string>, right: seq<string>)
    requires left == [""] || (left != [] && forall p <- left :: p != "" && ':' !in p)
    requires right != [] && forall p <- right :: p != "" && ':' !in p
    ensures Gapped(left + [""] + right)
  {
    var parts := left + [""] + right;
    assert right[|right| - 1] in right;
    if left == [""] {
      FirstEmptyIs(parts, 0);
    } else {
      forall j | 0 <= j < |left| ensures parts[j] != "" { assert parts[j] == left[j] && left[j] in left; }
      FirstEmptyIs(parts, |left|);
    }
  }

  /** Taking "00" off one part, padding with "0" parts, and gluing digits onto the last part
      or adding them as a part: the gap stays where it is. */
  lemma GapStays(parts: seq<string>, changed: seq<string>)
    requires Gapped(parts) && |changed| >= |parts|
    requires forall i | 0 <= i < |parts| :: (parts[i] == "") == (changed[i] == "")
    requires changed[|changed| - 1] != "" && forall p <- changed :: ':' !in p
    ensures Gapped(changed) && FirstEmpty(changed) == FirstEmpty(parts)
  {
    FirstEmptyIs(changed, FirstEmpty(parts));
  }

  lemma PrefixKeepsGap(t: string, size: nat)
    requires Gapped(Split(TrimRight(t, ':'), ':'))
    requires "00" !in Split(TrimRight(t, ':'), ':')
    ensures Gapped(PrefixParts(t, size))
  {
    hide Split, TrimRight, FirstEmpty;
    var parts, m := Split(TrimRight(t, ':'), ':'), size / 16;
    var trimmed := Trimmed(parts, m);
    var padded := Padded(trimmed, m);
    forall i | 0 <= i < |parts| ensures (parts[i] == "") == (padded[i] == "") {
      assert parts[i] in parts;
      if i == m && HasSuffix(parts[m], "00") {
        assert parts[m] == parts[m][..|parts[m]| - 2] + "00";
      }
    }
    forall p <- padded ensures ':' !in p {
      var i :| 0 <= i < |padded| && padded[i] == p;
      if i < |parts| { assert parts[i] in parts; }
    }
    GapStays(parts, padded);
  }

  /** The parts once digits follow the prefix, as a part of their own or on the last one. */
  function WithDigits(parts: seq<string>, digits: string, colon: bool): seq<string>
    requires parts != []
  {
    if colon then parts + [digits] else parts[..|parts| - 1] + [parts[|parts| - 1] + digits]
  }

  lemma SplitWithDigits(joined: string, parts: seq<string>, digits: string, colon: bool)
    requires Split(joined, ':') == parts && ':' !in digits
    ensures Split(joined + (if colon then ":" else "") + digits, ':') == WithDigits(parts, digits, colon)
  {
    if colon {
      SplitPlain(digits, ':');
      SplitConcat(joined, digits, ':');
    } else {
      assert joined + "" == joined;
      SplitAppend(joined, digits, ':');
    }
  }

  lemma DigitsKeepGap(parts: seq<string>, digits: string, colon: bool)
    requires Gapped(parts) && digits != "" && ':' !in digits
    ensures Gapped(WithDigits(parts, digits, colon))
  {
    hide FirstEmpty;
    var all := WithDigits(parts, digits, colon);
    assert parts[|parts| - 1] in parts;
    forall p <- all ensures ':' !in p {
      assert p in parts || p == digits || p == parts[|parts| - 1] + digits;
    }
    GapStays(parts, all);
  }

  lemma TwoGapsNeverParse(parts: seq<string>, s: string)
    requires Gapped(parts) && Split(s, ':') == parts + ["", ""]
    ensures ParseV6(s) == None
  {
    hide Split, ParseV6;
    FirstEmptyIs(parts + ["", ""], FirstEmpty(parts));
    ParseTwoGaps(parts + ["", ""], s);
  }

  /** The digits the node's ID is written with. */
  function DigitsFor(prefix: string, size: nat, id: nat): string {
    if size % 16 == 0 then Hex(id * 256)
    else if HasSuffix(prefix, ":") then Hex(id)
    else (if id < 16 then "0" else "") + Hex(id)
  }

  lemma GluedIs(prefix: string, size: nat, id: nat)
    requires size % 8 == 0
    ensures Glued(prefix, size, id) == prefix + DigitsFor(prefix, size, id) + "::"
    ensures DigitsFor(prefix, size, id) != "" && ':' !in DigitsFor(prefix, size, id)
  {
    hide Glued, Render, HasSuffix;
    GluedCases(prefix, size, id);
    HexNoColon(id);
    HexNoColon(id * 256);
  }

  /** A gap in the prefix and the final "::" make two gaps: the text has no meaning. */
  lemma GapNeverParses(t: string, size: nat, id: nat)
    requires size % 8 == 0 && Gapped(PrefixParts(t, size))
    ensures ParseV6(PodText(t, size, id)) == None
  {
    var parts, prefix := PrefixParts(t, size), PrefixText(t, size);
    hide Split, Glued, Join, PrefixParts, ParseV6, Gapped, DigitsFor, FirstEmpty;
    GappedIsPlain(parts);
    var colon, digits := |parts| == size / 16, DigitsFor(prefix, size, id);
    SplitJoin(parts, ':');
    GluedIs(prefix, size, id);
    SplitWithDigits(Join(parts, ':'), parts, digits, colon);
    DigitsKeepGap(parts, digits, colon);
    var all := WithDigits(parts, digits, colon);
    SplitTail(prefix + digits, all);
    TwoGapsNeverParse(all, PodText(t, size, id));
  }

  lemma ZeroNetworkText(g: Address)
    requires g == Zeros(8)
    ensures V6Text(g) == "::" && Split(TrimRight("::", ':'), ':') == [""]
  {
    assert LongestRun(g, 0) == 0 && ZeroRun(g, 0) == 8;
    assert g[..0] == [] && g[8..] == [];
    assert "" + "::" + "" == "::";
    TrimDouble("");
    assert "" + "::" == "::";
  }

  /** The all-zero network loses its "::" altogether, which does no harm to a /8. */
  lemma ZeroNetwork8(g: Address, id: nat)
    requires g == Zeros(8) && id < 256
    ensures ParseV6(PodText6(g, 8, id)) == Some(Subnet6(g, 8, id))
  {
    hide Split, V6Text, PodText, TrimRight, Render, ParseV6, Value, LongestRun, ZeroRun;
    ZeroNetworkText(g);
    ZeroText8(id);
    var digits := (if id < 16 then "0" else "") + Hex(id);
    PaddedByte(id);
    SplitPlain(digits, ':');
    SplitTail(digits, [digits]);
    assert Values([digits], 16) == [id];
    assert [digits] + ["", ""] == [digits, "", ""];
    ParseTail([digits], digits + "::");
    assert [id] + Zeros(7) == Subnet6(g, 8, id);
  }

  lemma PaddedByte(id: nat)
    requires id < 256
    ensures var d := (if id < 16 then "0" else "") + Hex(id);
            IsGroup(d) && Value(d, 16) == id && ':' !in d
  {
    HexLength(id);
    RenderDigits(id, 16);
    RenderRoundTrip(id, 16);
    var d := "0" + Hex(id);
    if id < 16 {
      assert d[..1] == "0" && "0"[..0] == "" && Value("0", 16) == 0;
    } else {
      assert "" + Hex(id) == Hex(id);
    }
  }

  lemma ZeroText8(id: nat)
    requires Split(TrimRight("::", ':'), ':') == [""]
    ensures PodText("::", 8, id) == ((if id < 16 then "0" else "") + Hex(id)) + "::"
  {
    hide Split, TrimRight, Render, Glued, HasSuffix;
    ZeroPrefix8();
    NoSuffix(":");
    GluedCases("", 8, id);
    var d := (if id < 16 then "0" else "") + Hex(id);
    assert "" + d == d;
  }

  lemma NoSuffix(t: string)
    requires t != ""
    ensures !HasSuffix("", t)
  {
  }

  lemma ZeroPrefix(size: nat)
    requires size % 8 == 0 && 8 < size && Split(TrimRight("::", ':'), ':') == [""]
    ensures var parts := [""] + ZeroParts(size / 16 - 1);
            PrefixText("::", size) == Join(parts, ':') + ":"
  {
    hide Split, TrimRight, Join;
    if size / 16 == 1 { assert ZeroParts(0) == [] && [""] + [] == [""]; }
    assert PrefixParts("::", size) == [""] + ZeroParts(size / 16 - 1);
  }

  lemma ZeroTextLonger(size: nat, id: nat)
    requires size % 8 == 0 && 8 < size
    requires Split(TrimRight("::", ':'), ':') == [""]
    ensures ParseV6(PodText("::", size, id)) == None
  {
    hide Split, TrimRight, Render, Glued, Join, ParseV6, PrefixText, HasSuffix;
    var parts := [""] + ZeroParts(size / 16 - 1);
    var prefix := PrefixText("::", size);
    ZeroPrefix(size);
    ColonSuffix(prefix);
    GluedCases(prefix, size, id);
    HexNoColon(id);
    HexNoColon(id * 256);
    LeadingColon(parts, if size % 16 == 0 then Hex(id * 256) else Hex(id), PodText("::", size, id));
  }

  /** An empty first part followed by a group: one colon at the start, no meaning. */
  lemma LeadingColon(parts: seq<string>, digits: string, s: string)
    requires parts != [] && parts[0] == "" && (|parts| > 1 ==> parts[1] != "")
    requires forall p <- parts :: ':' !in p
    requires digits != "" && ':' !in digits
    requires s == Join(parts, ':') + ":" + digits + "::"
    ensures ParseV6(s) == None
  {
    hide Split, Join;
    SplitJoin(parts, ':');
    SplitPlain(digits, ':');
    SplitConcat(Join(parts, ':'), digits, ':');
    SplitTail(Join(parts, ':') + ":" + digits, parts + [digits]);
    var all := parts + [digits] + ["", ""];
    assert all[0] == "" && all[1] != "";
    FirstEmptyIs(all, 0);
  }

  lemma NoDoubleZero(g: seq<nat>)
    requires forall x <- g :: x < 0x10000
    ensures "00" !in HexParts(g)
  {
    forall i | 0 <= i < |g| ensures Hex(g[i]) != "00" { RenderHead(g[i], 16); }
  }

  /** Eight groups or more before the final "::" leave no room for it. */
  predicate Full(parts: seq<string>) {
    |parts| >= 8 && forall p <- parts :: p != "" && ':' !in p
  }

  lemma FullNeverParses(parts: seq<string>, s: string)
    requires Full(parts) && Split(s, ':') == parts + ["", ""]
    ensures ParseV6(s) == None
  {
    hide Split;
    var all := parts + ["", ""];
    forall j | 0 <= j < |parts| ensures all[j] != "" { assert parts[j] in parts && all[j] == parts[j]; }
    FirstEmptyIs(all, |parts|);
    assert all[|parts| + 1..] == [""];
    assert all[..|parts|] == parts && all[1] != "";
  }

  lemma FullPrefixNeverParses(t: string, size: nat, id: nat)
    requires size % 8 == 0
    requires var parts := PrefixParts(t, size);
             parts != [] && |parts| + (if |parts| == size / 16 then 1 else 0) >= 8
             && forall p <- parts :: p != "" && ':' !in p
    ensures ParseV6(PodText(t, size, id)) == None
  {
    var parts, prefix := PrefixParts(t, size), PrefixText(t, size);
    hide Split, Glued, Join, PrefixParts, ParseV6, DigitsFor;
    var colon, digits := |parts| == size / 16, DigitsFor(prefix, size, id);
    SplitJoin(parts, ':');
    GluedIs(prefix, size, id);
    SplitWithDigits(Join(parts, ':'), parts, digits, colon);
    var all := WithDigits(parts, digits, colon);
    assert parts[|parts| - 1] in parts;
    forall p <- all ensures p != "" && ':' !in p {
      assert p in parts || p == digits || p == parts[|parts| - 1] + digits;
    }
    SplitTail(prefix + digits, all);
    FullNeverParses(all, PodText(t, size, id));
  }

  /** Trimming and padding keep whole groups whole. */
  lemma PrefixOfGroups(t: string, g: seq<nat>, size: nat)
    requires g != [] && |g| <= 8 && (forall x <- g :: x < 0x10000) && Split(TrimRight(t, ':'), ':') == HexParts(g)
    ensures var parts := PrefixParts(t, size);
            |parts| == (if |g| >= size / 16 then |g| else size / 16) && forall p <- parts :: p != "" && ':' !in p
  {
    hide Split, TrimRight, Render;
    HexPartsFacts(g);
    NoDoubleZero(g);
    var parts, m := HexParts(g), size / 16;
    var trimmed := Trimmed(parts, m);
    var padded := Padded(trimmed, m);
    forall i | 0 <= i < |padded| ensures padded[i] != "" && ':' !in padded[i] {
      if i < |parts| {
        assert parts[i] in parts;
        if i == m && HasSuffix(parts[m], "00") { assert parts[m] == parts[m][..|parts[m]| - 2] + "00"; }
      }
    }
  }

  /** A network without a "::" in its text. */
  lemma UncompressedText(g: Address)
    requires IsV6(g) && ZeroRun(g, LongestRun(g, 0)) < 2
    ensures Split(TrimRight(V6Text(g), ':'), ':') == HexParts(g)
  {
    hide Split, Groups, ZeroRun, LongestRun;
    GroupsEnd(g);
    SplitGroups(g);
  }

  lemma UncompressedNeverParses(g: Address, size: nat, id: nat)
    requires IsV6(g) && ZeroRun(g, LongestRun(g, 0)) < 2 && size % 8 == 0 && size <= 120
    ensures ParseV6(PodText6(g, size, id)) == None
  {
    hide Split, V6Text, PodText, PrefixParts, TrimRight, ParseV6, ZeroRun, LongestRun;
    UncompressedText(g);
    PrefixOfGroups(V6Text(g), g, size);
    FullPrefixNeverParses(V6Text(g), size, id);
  }

  /** Every other network. */
  lemma OthersNeverParse(g: Address, size: nat, id: nat)
    requires Network6(g, size) && !IsMapped(g) && !TailCompressed(g) && !(size == 8 && g == Zeros(8))
    ensures ParseV6(PodText6(g, size, id)) == None
  {
    var a := LongestRun(g, 0);
    if ZeroRun(g, a) < 2 {
      UncompressedNeverParses(g, size, id);
    } else if a + ZeroRun(g, a) == 8 {
      assert a == 0;
      assert g == Zeros(8);
      ZeroNetworkText(g);
      ZeroTextLonger(size, id);
    } else {
      GappedText(g);
      PrefixKeepsGap(V6Text(g), size);
      GapNeverParses(V6Text(g), size, id);
    }
  }

  /** The exact condition. IPv4-mapped networks are shown, and handled, as IPv4. */
  lemma PodSubnetExactly(g: Address, size: nat, id: nat)
    requires Network6(g, size) && !IsMapped(g) && id < 256
    ensures ParseV6(PodText6(g, size, id)) == Some(Subnet6(g, size, id))
       <==> TailCompressed(g) || (size == 8 && g == Zeros(8))
    ensures !TailCompressed(g) && !(size == 8 && g == Zeros(8)) ==> ParseV6(PodText6(g, size, id)) == None
  {
    if TailCompressed(g) {
      PodSubnetParses(g, size, id);
    } else if size == 8 && g == Zeros(8) {
      ZeroNetwork8(g, id);
    } else {
      OthersNeverParse(g, size, id);
    }
  }

  /** Longer networks leave no room for the ID: their pod subnet text is never an address. */
  lemma LongNetworksNeverParse(g: Address, size: nat, id: nat)
    requires IsV6(g) && (size == 112 || size == 120)
    ensures !IsMapped(g) ==> ParseV6(PodText6(g, size, id)) == None
  {
    if !IsMapped(g) {
      var a := LongestRun(g, 0);
      if ZeroRun(g, a) < 2 {
        UncompressedNeverParses(g, size, id);
      } else if a + ZeroRun(g, a) < 8 {
        GappedText(g);
        PrefixKeepsGap(V6Text(g), size);
        GapNeverParses(V6Text(g), size, id);
      } else if a == 0 {
        assert g == Zeros(8);
        ZeroNetworkText(g);
        ZeroTextLonger(size, id);
      } else {
        TailNeverParses(g, a, size, id);
      }
    }
  }

  lemma TailNeverParses(g: Address, a: nat, size: nat, id: nat)
    requires IsV6(g) && a == LongestRun(g, 0) && a >= 1 && ZeroRun(g, a) >= 2 && a + ZeroRun(g, a) == 8
    requires size == 112 || size == 120
    ensures ParseV6(PodText6(g, size, id)) == None
  {
    var left := g[..a];
    assert forall x <- left :: x in g;
    assert V6Text(g) == Groups(left) + "::" by {
      assert g[8..] == [] && Groups([]) == "";
      assert Groups(left) + "::" + "" == Groups(left) + "::";
    }
    hide Split, V6Text, PodText, PrefixParts, TrimRight, ParseV6, ZeroRun, LongestRun, Groups;
    GroupsEnd(left);
    TrimDouble(Groups(left));
    SplitGroups(left);
    PrefixOfGroups(V6Text(g), left, size);
    FullPrefixNeverParses(V6Text(g), size, id);
  }

  // ------------------------------------------------------------ IDs of any size

  /** What text that ends in digits and "::" denotes: the digits belong to the group of the last
      part before them, and there are only zeros behind it. */
  lemma EndsInDigits(t: string, d: string, a: Address) returns (k: nat)
    requires d != "" && ':' !in d && ParseV6(t + d + "::") == Some(a)
    ensures k == |Split(t, ':')| - 1 && k < |a| == 8
    ensures IsGroup(Split(t, ':')[k] + d) && a[k] == Value(Split(t, ':')[k] + d, 16)
    ensures forall j | k < j < 8 :: a[j] == 0
  {
    var before := Split(t, ':');
    var last := before[|before| - 1] + d;
    var parts := before[..|before| - 1] + [last];
    SplitAppend(t, d, ':');
    SplitTail(t + d, parts);
    var all := parts + ["", ""];
    hide Split, Value;
    var i := FirstEmpty(all);
    k := |parts| - 1;
    assert all[|parts|] == "" && all[k] == last;
    if i < |parts| {
      EarlierGap(all, i, t + d + "::");
    } else {
      assert i == |parts| && all[..i] == parts && all[i + 1..] == [""];
      assert last in parts;
      assert a == Values(parts, 16) + Zeros(8 - |parts|);
      assert Values(parts, 16)[k] == Value(last, 16);
      forall j | k < j < 8 ensures a[j] == 0 {
        assert a[j] == Zeros(8 - |parts|)[j - |parts|];
        assert Zeros(8 - |parts|)[j - |parts|] in Zeros(8 - |parts|);
      }
    }
  }

  /** The address is there, and agrees with the network in its first `size` bits. */
  predicate InNetwork(a: Option<Address>, g: Address, size: nat)
    requires Network6(g, size)
  {
    && a.Some? && |a.value| == 8
    && (forall i | 0 <= i < size / 16 :: a.value[i] == g[i])
    && (size % 16 == 8 ==> a.value[size / 16] / 0x100 == g[size / 16] / 0x100)
  }

  lemma {:induction false} HexLong(n: nat)
    ensures n >= 0x100 ==> |Hex(n)| >= 3
    ensures n >= 0x10000 ==> |Hex(n)| >= 5
  {
    HexLength(n);
    if n >= 0x10000 {
      HexLength(n / 16);
      HexLong(n / 16);
      assert |Hex(n)| == |Hex(n / 16)| + 1;
    }
  }

  /** Five digits are no group. */
  lemma UpperByteOverflows(t: string, id: nat)
    requires id >= 0x100
    ensures ParseV6(t + Hex(id * 256) + "::") == None
  {
    hide ParseV6, Split, Render;
    HexLong(id * 256);
    HexNoColon(id * 256);
    var text := ParseV6(t + Hex(id * 256) + "::");
    if text.Some? { var k := EndsInDigits(t, Hex(id * 256), text.value); }
  }

  lemma {:induction false} ValueOfThree(x: string, d: string)
    requires |d| == 3
    ensures Value(x + d, 16) >= Value(x, 16) * 0x1000
  {
    assert x + d == x + [d[0]] + [d[1]] + [d[2]];
    ValueDigit(x, d[0]);
    ValueDigit(x + [d[0]], d[1]);
    ValueDigit(x + [d[0]] + [d[1]], d[2]);
  }

  /** Three digits or more in the lower byte's place spoil the upper byte. */
  lemma LowerByteOverflows(x: string, id: nat)
    requires id >= 0x100 && IsGroup(x + Hex(id)) && (x == "" || Value(x, 16) > 0)
    ensures Value(x + Hex(id), 16) / 0x100 != Value(x, 16)
  {
    hide Render;
    HexLong(id);
    RenderDigits(id, 16);
    RenderRoundTrip(id, 16);
    if x == "" {
      assert x + Hex(id) == Hex(id) && Value("", 16) == 0;
    } else {
      ValueOfThree(x, Hex(id));
    }
  }

  /** The text of such an ID, and what its prefix ends in. */
  lemma LowerByteText(prefix: string, size: nat, id: nat)
    requires size % 16 == 8 && id >= 0x100
    ensures Glued(prefix, size, id) == prefix + Hex(id) + "::" && Hex(id) != "" && ':' !in Hex(id)
  {
    hide Glued, Render, HasSuffix;
    GluedCases(prefix, size, id);
    HexNoColon(id);
    HexLong(id);
    assert prefix + ("" + Hex(id)) == prefix + Hex(id) by { GlueDigits(prefix, Hex(id)); }
  }

  lemma ColonEndsInNothing(h: seq<nat>)
    requires h != [] && forall x <- h :: x < 0x10000
    ensures Split(Groups(h) + ":", ':') == HexParts(h) + [""]
  {
    hide Split, Groups;
    SplitGroups(h);
    SplitPlain("", ':');
    SplitConcat(Groups(h), "", ':');
    assert Groups(h) + ":" + "" == Groups(h) + ":";
  }

  lemma LastPrefixPart(g: Address, size: nat) returns (x: string)
    requires Network6(g, size) && size % 16 == 8 && (TailCompressed(g) || (size == 8 && g == Zeros(8)))
    ensures var parts := Split(PrefixText(V6Text(g), size), ':');
            |parts| == size / 16 + 1 && parts[size / 16] == x
    ensures (x == "" && g[size / 16] == 0) || (Value(x, 16) > 0 && Value(x, 16) == g[size / 16] / 0x100)
  {
    var m := size / 16;
    hide V6Text, Split, PrefixText, TrimRight, Groups, Render, Value, LongestRun, ZeroRun, TailCompressed;
    if TailCompressed(g) {
      var a := TailParts(g, size);
      PrefixFits(g, m);
      if a <= m {
        x := "";
        ShortPrefix(V6Text(g), g, size, a);
        ColonEndsInNothing(g[..m]);
      } else {
        x := Hex(g[m] / 0x100);
        LongPrefix(V6Text(g), g, size);
        UpperBytePrefix(g, size);
        SplitGroups(g[..m] + [g[m] / 0x100]);
        RenderRoundTrip(g[m] / 0x100, 16);
      }
    } else {
      x := "";
      ZeroNetworkText(g);
      ZeroPrefix8();
      SplitPlain("", ':');
    }
  }

  lemma ZeroPrefix8()
    requires Split(TrimRight("::", ':'), ':') == [""]
    ensures PrefixText("::", 8) == ""
  {
    hide Split, TrimRight;
    assert PrefixParts("::", 8) == [""] by { assert TrimSuffix("", "00") == "" by { NoSuffix("00"); } }
  }

  lemma LargeIDLeavesNetwork(g: Address, size: nat, id: nat)
    requires Network6(g, size) && size % 16 == 8 && id >= 0x100 && (TailCompressed(g) || (size == 8 && g == Zeros(8)))
    ensures !InNetwork(ParseV6(PodText6(g, size, id)), g, size)
  {
    var x := LastPrefixPart(g, size);
    hide TailCompressed, V6Text, Split, PrefixText, ParseV6, Glued, Render, Value;
    var t, text := PrefixText(V6Text(g), size), ParseV6(PodText6(g, size, id));
    LowerByteText(t, size, id);
    if text.Some? {
      var k := EndsInDigits(t, Hex(id), text.value);
      LowerByteOverflows(x, id);
      if x == "" { assert Value("", 16) == 0 by { EmptyValue(); } }
    }
  }

  lemma EmptyValue()
    ensures Value("", 16) == 0
  {
  }

  /** Over all IDs: the text denotes an address in the network if and only if the ID fits a byte
      and the network is one of those above. A larger ID gives no address where it is written
      into the upper byte, and elsewhere none or one outside the network. */
  lemma InNetworkExactly(g: Address, size: nat, id: nat)
    requires Network6(g, size) && !IsMapped(g)
    ensures InNetwork(ParseV6(PodText6(g, size, id)), g, size)
       <==> id < 0x100 && (TailCompressed(g) || (size == 8 && g == Zeros(8)))
    ensures id >= 0x100 && size % 16 == 0 ==> ParseV6(PodText6(g, size, id)) == None
  {
    if id < 0x100 {
      PodSubnetExactly(g, size, id);
    } else if size % 16 == 0 {
      hide TailCompressed, V6Text, PrefixText, ParseV6, Glued, Render;
      GluedCases(PrefixText(V6Text(g), size), size, id);
      UpperByteOverflows(PrefixText(V6Text(g), size), id);
    } else if TailCompressed(g) || (size == 8 && g == Zeros(8)) {
      LargeIDLeavesNetwork(g, size, id);
    } else {
      OthersNeverParse(g, size, id);
    }
  }

  // ------------------------------------------------------------ sizes between the bytes

  predicate IsShifted(x: nat, m: nat, k: nat) { x == Shl(m, k) }

  /** The low k bits are zero. */
  ghost predicate EndsInZeros(x: nat, k: nat) { exists m :: IsShifted(x, m, k) }

  /** A masked network of any size. */
  ghost predicate Masked(g: Address, size: nat) {
    && IsV6(g) && size < 128
    && (forall i | 0 <= i < 8 :: size <= 16 * i ==> g[i] == 0)
    && EndsInZeros(g[size / 16], 16 - size % 16)
  }

  /** The network plus 2^(120 - size), for node 1: bit number size + 7 is set. */
  function FirstSubnet(g: Address, size: nat): Address
    requires |g| == 8 && size < 120
  {
    var p := size + 7;
    g[p / 16 := g[p / 16] + Shl(1, 15 - p % 16)]
  }

  lemma FirstSubnetNumber(g: Address, size: nat)
    requires |g| == 8 && size < 120
    ensures Number(FirstSubnet(g, size)) == Number(g) + Shl(1, 120 - size)
  {
    var p := size + 7;
    var after := 16 * (7 - p / 16);
    NumberUpdate(g, p / 16, Shl(1, 15 - p % 16), 16, after);
    ShlShl(1, 15 - p % 16, after);
  }

  /** Text that ends in "100::" denotes an address whose last group that is not zero ends in
      the digits 100. */
  lemma Ends100(t: string, a: Address) returns (k: nat)
    requires ParseV6(t + "100" + "::") == Some(a)
    ensures k < |a| == 8 && a[k] % 0x1000 == 0x100 && forall j | k < j < 8 :: a[j] == 0
  {
    hide ParseV6, Split, Value, IsGroup;
    k := EndsInDigits(t, "100", a);
    ValueOf100(Split(t, ':')[k]);
  }

  lemma EarlierGap(all: seq<string>, i: nat, s: string)
    requires Split(s, ':') == all && i == FirstEmpty(all) && i + 3 < |all| && all[|all| - 1] == all[|all| - 2] == ""
    ensures ParseV6(s) == None
  {
    hide Split;
    var right := all[(if i == 0 then 2 else i + 1)..];
    assert |right| >= 2;
    assert right[|right| - 1] == "" && right[|right| - 1] in right;
  }

  lemma ValueOf100(x: string)
    ensures Value(x + "100", 16) == Value(x, 16) * 0x1000 + 0x100
  {
    ValueDigit(x, '1');
    ValueDigit(x + "1", '0');
    ValueDigit(x + "10", '0');
    assert x + "1" + "0" == x + "10" && x + "10" + "0" == x + "100";
  }

  lemma ValueDigit(x: string, ch: char)
    ensures Value(x + [ch], 16) == Value(x, 16) * 16 + DigitValue(ch)
  {
    assert (x + [ch])[..|x|] == x;
  }

  /** For sizes that are not a multiple of eight the ID is written into the wrong bits: the text
      for node 1 is never the network plus 2^(120 - size). */
  lemma OtherSizesAreWrong(g: Address, size: nat)
    requires Masked(g, size) && size % 8 != 0 && size < 120
    ensures Number(FirstSubnet(g, size)) == Number(g) + Shl(1, 120 - size)
    ensures ParseV6(PodText6(g, size, 1)) != Some(FirstSubnet(g, size))
  {
    FirstSubnetNumber(g, size);
    var t := PrefixText(V6Text(g), size);
    Digits100(t, size);
    hide PrefixText, V6Text, ParseV6, Glued, FirstSubnet;
    if ParseV6(t + "100" + "::") == Some(FirstSubnet(g, size)) {
      var k := Ends100(t, FirstSubnet(g, size));
      LastBit(g, size, k);
    }
  }

  lemma Digits100(t: string, size: nat)
    requires size % 8 != 0
    ensures Glued(t, size, 1) == t + "100" + "::"
  {
    Hex100();
    hide Hex, HasSuffix, Split;
    OddSizeText(t, size, 1);
  }

  lemma OddSizeText(t: string, size: nat, id: nat)
    requires size % 8 != 0
    ensures Glued(t, size, id) == t + Hex(id * 256) + "::"
  {
    hide Hex, HasSuffix, Split;
    assert (size + 8) % 16 != 0;
    var text := t + Hex(id * 256) + "::";
    assert text + "" == text;
  }

  lemma Hex100()
    ensures Hex(0x100) == "100"
  {
    assert Render(1, 16) == "1" && Render(0x10, 16) == "10";
  }

  lemma Shl9(d: nat)
    ensures Shl(d, 9) == d * 512
  {
    Shl8(d);
    assert Shl(d, 9) == 2 * Shl(d, 8);
  }

  lemma LastBit(g: Address, size: nat, k: nat)
    requires Masked(g, size) && size % 8 != 0 && size < 120 && k < 8
    requires forall j | k < j < 8 :: FirstSubnet(g, size)[j] == 0
    ensures FirstSubnet(g, size)[k] % 0x1000 != 0x100
  {
    var p, a := size + 7, FirstSubnet(g, size);
    var q, e := p / 16, 15 - p % 16;
    PowersOfTwo();
    assert a[q] > 0 && forall j | q < j < 8 :: a[j] == 0;
    if k != q {
    } else if size % 16 < 8 {
      assert q == size / 16 && e == 8 - size % 16;
      var m :| IsShifted(g[q], m, 16 - size % 16);
      ShlShl(m, 7 - size % 16, 9);
      Shl9(Shl(m, 7 - size % 16));
      assert a[q] == 512 * Shl(m, 7 - size % 16) + Shl(1, e);
    } else {
      assert q == size / 16 + 1 && e == 24 - size % 16 && g[q] == 0;
    }
  }

  lemma PowersOfTwo()
    ensures Shl(1, 1) == 2 && Shl(1, 2) == 4 && Shl(1, 3) == 8 && Shl(1, 4) == 16 && Shl(1, 5) == 32 && Shl(1, 6) == 64
    ensures Shl(1, 7) == 128 && Shl(1, 8) == 256 && Shl(1, 9) == 512 && Shl(1, 10) == 1024 && Shl(1, 11) == 2048
    ensures Shl(1, 12) == 4096 && Shl(1, 13) == 8192 && Shl(1, 14) == 16384 && Shl(1, 15) == 32768
  {
    assert Shl(1, 3) == 8;
    assert Shl(1, 6) == 64;
    assert Shl(1, 9) == 512;
    assert Shl(1, 12) == 4096;
  }
}
