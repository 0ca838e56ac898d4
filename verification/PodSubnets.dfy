/** Pod subnet text (MakePrefixFromNetwork in validate.go, BuildPodSubnetPrefix in
    plugin.go) and the number it denotes. */
module PodSubnets {
  import opened Wrappers
  import opened Text
  import opened Numerals
  import opened AddressText

  datatype Family = Unset | V4 | V6

  function Trimmed(parts: seq<string>, needed: nat): seq<string> {
    if |parts| > needed then parts[needed := TrimSuffix(parts[needed], "00")] else parts
  }

  function ZeroParts(n: nat): seq<string> { seq(n, _ => "0") }

  function Padded(parts: seq<string>, needed: nat): seq<string> {
    if |parts| >= needed then parts else parts + ZeroParts(needed - |parts|)
  }

  function PrefixParts(network: string, netSize: nat): seq<string> {
    Padded(Trimmed(Split(TrimRight(network, ':'), ':'), netSize / 16), netSize / 16)
  }

  function PrefixText(network: string, netSize: nat): string {
    var parts := PrefixParts(network, netSize);
    Join(parts, ':') + (if |parts| == netSize / 16 then ":" else "")
  }

  method MakePrefixFromNetwork(network: string, netSize: nat) returns (prefix: string)
    ensures prefix == PrefixText(network, netSize)
  {
    var minPartsNeeded := netSize / 16;
    var parts := Split(TrimRight(network, ':'), ':');
    var haveParts := |parts|;
    if haveParts > minPartsNeeded {
      parts := parts[minPartsNeeded := TrimSuffix(parts[minPartsNeeded], "00")];
    }
    ghost var start := parts;
    while haveParts < minPartsNeeded
      invariant haveParts == |parts|
      invariant |start| <= |parts|
      invariant if |start| >= minPartsNeeded then parts == start else |parts| <= minPartsNeeded
      invariant parts == start + ZeroParts(|parts| - |start|)
    {
      parts := parts + ["0"];
      haveParts := haveParts + 1;
    }
    assert parts == Padded(start, minPartsNeeded);
    prefix := Join(parts, ':');
    if haveParts == minPartsNeeded {
      prefix := prefix + ":";
    }
  }

  function MakeV4PrefixFromNetwork(ip: string): string
    requires |Split(ip, '.')| >= 3
  {
    var parts := Split(ip, '.');
    parts[0] + "." + parts[1] + "." + parts[2] + "."
  }

  /** Prefix and suffix of a node's pod subnet. */
  function BuildPodSubnetPrefix(mode: Family, prefix: string, netSize: nat, nodeID: nat): (string, string)
    requires mode == V4 ==> |Split(prefix, '.')| >= 2
  {
    if mode == V4 then
      var parts := Split(prefix, '.');
      (parts[0] + "." + parts[1] + "." + Dec(nodeID) + ".", "0")
    else if netSize % 16 != 0 then
      (prefix + Hex(nodeID * 256) + "::", "")
    else if !HasSuffix(prefix, ":") && nodeID < 0x10 then
      (prefix + "0" + Hex(nodeID) + "::", "")
    else
      (prefix + Hex(nodeID) + "::", "")
  }

  // ------------------------------------------------------------ the numbers meant

  /** d * 2^e. */
  function Shl(d: nat, e: nat): nat {
    if e == 0 then d else 2 * Shl(d, e - 1)
  }

  /** Bits per element: groups hold 16, octets 8. */
  function Width(a: Address): nat { if |a| == 8 then 16 else 8 }

  function NumberOf(a: seq<nat>, w: nat): nat {
    if a == [] then 0 else Shl(NumberOf(a[..|a| - 1], w), w) + a[|a| - 1]
  }

  /** The 32-bit or 128-bit number of an address. */
  function Number(a: Address): nat { NumberOf(a, Width(a)) }

  lemma {:induction false} ShlAdd(a: nat, b: nat, e: nat)
    ensures Shl(a + b, e) == Shl(a, e) + Shl(b, e)
  {
    if e > 0 { ShlAdd(a, b, e - 1); }
  }

  lemma {:induction false} ShlShl(d: nat, e: nat, f: nat)
    ensures Shl(Shl(d, e), f) == Shl(d, e + f)
  {
    if f > 0 { ShlShl(d, e, f - 1); }
  }

  lemma Shl8(d: nat)
    ensures Shl(d, 8) == d * 256
  {
    assert Shl(d, 1) == 2 * Shl(d, 0) && Shl(d, 2) == 2 * Shl(d, 1);
    assert Shl(d, 3) == 2 * Shl(d, 2) && Shl(d, 4) == 2 * Shl(d, 3);
    assert Shl(d, 5) == 2 * Shl(d, 4) && Shl(d, 6) == 2 * Shl(d, 5);
    assert Shl(d, 7) == 2 * Shl(d, 6) && Shl(d, 8) == 2 * Shl(d, 7);
  }

  /** Adding d to element m adds d shifted past the elements after it. */
  lemma {:induction false} NumberUpdate(a: seq<nat>, m: nat, d: nat, w: nat, e: nat)
    requires m < |a| && (w == 8 || w == 16)
    requires e == if w == 8 then 8 * (|a| - 1 - m) else 16 * (|a| - 1 - m)
    ensures NumberOf(a[m := a[m] + d], w) == NumberOf(a, w) + Shl(d, e)
  {
    var b := a[m := a[m] + d];
    var init := a[..|a| - 1];
    if m == |a| - 1 {
      assert b[..|a| - 1] == init;
    } else {
      NumberUpdate(init, m, d, w, e - w);
      assert b[..|a| - 1] == init[m := init[m] + d];
      ShlAdd(NumberOf(init, w), Shl(d, e - w), w);
      ShlShl(d, e - w, w);
    }
  }

  // ------------------------------------------------------------ IPv6 pod subnets

  /** A masked network of a size the prefix scheme is meant for. */
  predicate Network6(g: Address, size: nat) {
    && IsV6(g)
    && size % 8 == 0 && 8 <= size <= 104
    && (forall i | 0 <= i < 8 :: size <= 16 * i ==> g[i] == 0)
    && (size % 16 == 8 ==> g[size / 16] % 0x100 == 0)
  }

  /** The canonical text ends in "::", with groups before it. */
  predicate TailCompressed(g: Address)
    requires |g| == 8
  {
    var a := LongestRun(g, 0);
    1 <= a && ZeroRun(g, a) >= 2 && a + ZeroRun(g, a) == 8
  }

  /** The eight bits a node's ID goes into, as an increment of group size / 16. */
  function Step(size: nat, id: nat): nat {
    if size % 16 == 0 then id * 256 else id
  }

  /** The node's subnet: the ID in the eight bits after the network part. */
  function Subnet6(g: Address, size: nat, id: nat): Address
    requires |g| == 8 && size / 16 < 8
  {
    g[size / 16 := g[size / 16] + Step(size, id)]
  }

  /** The subnet text the two functions produce together from a network's text. */
  function PodText(network: string, size: nat, id: nat): string {
    Glued(PrefixText(network, size), size, id)
  }

  function Glued(network: string, size: nat, id: nat): string {
    var (prefix, suffix) := BuildPodSubnetPrefix(V6, network, size + 8, id);
    prefix + suffix
  }

  function PodText6(g: Address, size: nat, id: nat): string
    requires |g| == 8
  {
    PodText(V6Text(g), size, id)
  }

  lemma GroupsEnd(g: seq<nat>)
    requires g != [] && forall x <- g :: x < 0x10000
    ensures Groups(g) != "" && Groups(g)[|Groups(g)| - 1] != ':'
  {
    SplitGroups(g);
    HexPartsFacts(g);
    SplitLast(Groups(g), ':');
    assert HexParts(g)[|g| - 1] in HexParts(g);
  }

  lemma TrimDouble(s: string)
    requires s != "" ==> s[|s| - 1] != ':'
    ensures TrimRight(s + "::", ':') == s
  {
    assert (s + ":")[..|s|] == s && TrimRight(s, ':') == s;
    assert (s + "::")[..|s| + 1] == s + ":" && TrimRight(s + ":", ':') == s;
  }

  /** For a tail-compressed network: the parts found in its text, and where they stop. */
  lemma TailParts(g: Address, size: nat) returns (a: nat)
    requires Network6(g, size) && TailCompressed(g)
    ensures 1 <= a <= size / 16 + 1 && (size % 16 == 0 ==> a <= size / 16)
    ensures g[a - 1] != 0 && forall i | a <= i < 8 :: g[i] == 0
    ensures Split(TrimRight(V6Text(g), ':'), ':') == HexParts(g[..a])
  {
    a := LongestRun(g, 0);
    assert ZeroRun(g, a - 1) <= ZeroRun(g, a);
    assert g[a - 1] != 0;
    PrefixFits(g, a);
    assert g[8..] == [] && Groups([]) == "";
    assert V6Text(g) == Groups(g[..a]) + "::" by {
      assert Groups(g[..a]) + "::" + "" == Groups(g[..a]) + "::";
    }
    GroupsEnd(g[..a]);
    TrimDouble(Groups(g[..a]));
    SplitGroups(g[..a]);
    assert size / 16 * 16 <= size < size / 16 * 16 + 16;
  }

  /** Shorter network part: the prefix is padded with "0" groups and ends in a colon. */
  lemma ShortPrefix(t: string, g: Address, size: nat, a: nat)
    requires Network6(g, size) && 1 <= a <= size / 16
    requires forall i | a <= i < 8 :: g[i] == 0
    requires Split(TrimRight(t, ':'), ':') == HexParts(g[..a])
    ensures PrefixText(t, size) == Groups(g[..size / 16]) + ":"
  {
    var m := size / 16;
    forall i | a <= i < m ensures HexParts(g[..m])[i] == "0" { RenderHead(g[i], 16); }
    assert Padded(HexParts(g[..a]), m) == HexParts(g[..m]);
  }

  /** Half a group in the network part: the prefix ends in its upper byte. */
  lemma LongPrefix(t: string, g: Address, size: nat)
    requires Network6(g, size) && size % 16 == 8
    requires g[size / 16] != 0
    requires Split(TrimRight(t, ':'), ':') == HexParts(g[..size / 16 + 1])
    ensures PrefixText(t, size) == Groups(g[..size / 16] + [g[size / 16] / 256])
  {
    var m := size / 16;
    assert g[m] in g;
    HexShift(g[m] / 256, 0);
    assert Hex(0) == "0";
    assert Hex(g[m]) == Hex(g[m] / 256) + "00";
    assert TrimSuffix(Hex(g[m]), "00") == Hex(g[m] / 256);
    assert PrefixParts(t, size) == HexParts(g[..m] + [g[m] / 256]);
  }

  /** Two more hexadecimal digits. */
  lemma HexShift(x: nat, y: nat)
    requires x > 0 && y < 256
    ensures Hex(x * 256 + y) == Hex(x) + (if y < 16 then "0" else "") + Hex(y)
  {
    var z := x * 256 + y;
    assert z / 16 == x * 16 + y / 16 && z / 16 / 16 == x;
    assert Hex(z) == Hex(x * 16 + y / 16) + [DIGITS[y % 16]];
    assert Hex(x * 16 + y / 16) == Hex(x) + [DIGITS[y / 16]];
    if y >= 16 {
      assert Hex(y) == Hex(y / 16) + [DIGITS[y % 16]];
    }
  }

  lemma GlueDigits(prefix: string, digits: string)
    ensures prefix + ("0" + digits) == prefix + "0" + digits
    ensures prefix + ("" + digits) == prefix + "" + digits == prefix + digits
  {
    assert prefix + "" == prefix;
    assert "" + digits == digits;
  }

  /** The subnet text by parity of the size: the ID in the upper or in the lower byte. */
  lemma GluedCases(prefix: string, size: nat, id: nat)
    requires size % 8 == 0
    ensures size % 16 == 0 ==> Glued(prefix, size, id) == prefix + Hex(id * 256) + "::"
    ensures size % 16 == 8 && HasSuffix(prefix, ":") ==> Glued(prefix, size, id) == prefix + Hex(id) + "::"
    ensures size % 16 == 8 && !HasSuffix(prefix, ":") ==>
              Glued(prefix, size, id) == prefix + ((if id < 16 then "0" else "") + Hex(id)) + "::"
  {
    GlueDigits(prefix, Hex(id));
    var text := BuildPodSubnetPrefix(V6, prefix, size + 8, id).0;
    assert text + "" == text;
  }

  lemma ColonSuffix(s: string)
    ensures HasSuffix(s, ":") <==> s != "" && s[|s| - 1] == ':'
  {
  }

  lemma SubnetTextShort(t: string, g: Address, size: nat, id: nat, a: nat)
    requires Network6(g, size) && id < 256 && 1 <= a <= size / 16
    requires forall i | a <= i < 8 :: g[i] == 0
    requires Split(TrimRight(t, ':'), ':') == HexParts(g[..a])
    ensures PodText(t, size, id) == Groups(g[..size / 16]) + ":" + Hex(Step(size, id)) + "::"
  {
    hide Groups, Split, TrimRight, Render;
    ShortPrefix(t, g, size, a);
    ColonSuffix(PrefixText(t, size));
    GluedCases(PrefixText(t, size), size, id);
  }

  lemma SubnetTextLong(t: string, g: Address, size: nat, id: nat)
    requires Network6(g, size) && id < 256 && size % 16 == 8 && g[size / 16] != 0
    requires Split(TrimRight(t, ':'), ':') == HexParts(g[..size / 16 + 1])
    ensures PodText(t, size, id)
         == Groups(g[..size / 16] + [g[size / 16] / 256]) + ((if id < 16 then "0" else "") + Hex(id)) + "::"
  {
    LongPrefix(t, g, size);
    UpperBytePrefix(g, size);
    ColonSuffix(PrefixText(t, size));
    GluedCases(PrefixText(t, size), size, id);
  }

  lemma UpperBytePrefix(g: Address, size: nat)
    requires Network6(g, size) && size % 16 == 8 && g[size / 16] != 0
    ensures var h := g[..size / 16] + [g[size / 16] / 256];
            && (forall x <- h :: x < 0x10000) && 0 < g[size / 16] / 256 < 256
            && Groups(h) != "" && Groups(h)[|Groups(h)| - 1] != ':'
  {
    var m := size / 16;
    assert g[m] in g;
    PrefixFits(g, m);
    GroupsEnd(g[..m] + [g[m] / 256]);
  }

  lemma HexNoColon(n: nat)
    ensures ':' !in Hex(n) && '.' !in Hex(n) && '/' !in Hex(n)
  {
    RenderDigits(n, 16);
  }

  lemma SplitTail(s: string, parts: seq<string>)
    requires Split(s, ':') == parts
    ensures Split(s + "::", ':') == parts + ["", ""]
  {
    SplitDouble(s, "");
    assert s + "::" + "" == s + "::";
    assert parts + [""] + [""] == parts + ["", ""];
  }

  lemma SubnetPartsShort(h: seq<nat>, last: nat)
    requires h != [] && forall x <- h :: x < 0x10000
    ensures Split(Groups(h) + ":" + Hex(last) + "::", ':') == HexParts(h + [last]) + ["", ""]
  {
    SplitGroups(h);
    HexNoColon(last);
    SplitPlain(Hex(last), ':');
    SplitConcat(Groups(h), Hex(last), ':');
    assert HexParts(h) + [Hex(last)] == HexParts(h + [last]);
    SplitTail(Groups(h) + ":" + Hex(last), HexParts(h + [last]));
  }

  lemma SubnetPartsLong(h: seq<nat>, byte: nat, id: nat)
    requires 0 < byte < 256 && id < 256 && forall x <- h :: x < 0x10000
    ensures Split(Groups(h + [byte]) + ((if id < 16 then "0" else "") + Hex(id)) + "::", ':')
         == HexParts(h + [byte * 256 + id]) + ["", ""]
  {
    var pad := (if id < 16 then "0" else "") + Hex(id);
    var k := h + [byte];
    SplitGroups(k);
    HexShift(byte, id);
    HexNoColon(id);
    SplitAppend(Groups(k), pad, ':');
    assert Hex(byte) + pad == Hex(byte * 256 + id);
    assert HexParts(k)[..|h|] + [HexParts(k)[|h|] + pad] == HexParts(h + [byte * 256 + id]);
    SplitTail(Groups(k) + pad, HexParts(h + [byte * 256 + id]));
  }

  lemma SubnetParts(t: string, g: Address, size: nat, id: nat, a: nat)
    requires Network6(g, size) && id < 256
    requires 1 <= a <= size / 16 + 1 && (size % 16 == 0 ==> a <= size / 16)
    requires g[a - 1] != 0 && forall i | a <= i < 8 :: g[i] == 0
    requires Split(TrimRight(t, ':'), ':') == HexParts(g[..a])
    ensures Split(PodText(t, size, id), ':') == HexParts(g[..size / 16] + [g[size / 16] + Step(size, id)]) + ["", ""]
  {
    hide PodText, Groups, Split, TrimRight;
    var m := size / 16;
    PrefixFits(g, m);
    if a <= m {
      assert g[m] == 0;
      SubnetTextShort(t, g, size, id, a);
      SubnetPartsShort(g[..m], Step(size, id));
    } else {
      SubnetTextLong(t, g, size, id);
      UpperBytePrefix(g, size);
      SubnetPartsLong(g[..m], g[m] / 256, id);
    }
  }

  lemma SubnetFits(g: Address, size: nat, id: nat)
    requires Network6(g, size) && id < 256
    ensures IsV6(Subnet6(g, size, id))
    ensures forall i | size / 16 < i < 8 :: Subnet6(g, size, id)[i] == 0
  {
    var sub := Subnet6(g, size, id);
    forall x | x in sub ensures x < 0x10000 {
      var i :| 0 <= i < 8 && sub[i] == x;
      assert g[i] in g;
      assert size % 16 == 8 && i == size / 16 ==> g[i] == g[i] / 256 * 256;
    }
  }

  lemma SubnetParses(t: string, g: Address, size: nat, id: nat)
    requires Network6(g, size) && id < 256
    requires Split(t, ':') == HexParts(g[..size / 16] + [g[size / 16] + Step(size, id)]) + ["", ""]
    ensures ParseV6(t) == Some(Subnet6(g, size, id))
  {
    hide ParseV6, Split, HexParts;
    var m := size / 16;
    var sub := Subnet6(g, size, id);
    assert sub[..m + 1] == g[..m] + [g[m] + Step(size, id)];
    SubnetFits(g, size, id);
    PrefixFits(sub, m + 1);
    HexPartsFacts(sub[..m + 1]);
    ParseTail(HexParts(sub[..m + 1]), t);
    assert sub == sub[..m + 1] + Zeros(8 - (m + 1));
  }

  /** The text parses to the network with the node's ID put behind the network part. */
  lemma PodSubnetParses(g: Address, size: nat, id: nat)
    requires Network6(g, size) && TailCompressed(g) && id < 256
    ensures ParseV6(PodText6(g, size, id)) == Some(Subnet6(g, size, id))
  {
    var a := TailParts(g, size);
    SubnetParts(V6Text(g), g, size, id, a);
    SubnetParses(PodText6(g, size, id), g, size, id);
  }

  /** The subnet as a number: the network plus the ID shifted to just behind it. */
  lemma SubnetNumber(g: Address, size: nat, id: nat)
    requires Network6(g, size)
    ensures Number(Subnet6(g, size, id)) == Number(g) + Shl(id, 120 - size)
  {
    var m := size / 16;
    var d := Step(size, id);
    NumberUpdate(g, m, d, 16, 16 * (7 - m));
    if size % 16 == 0 {
      Shl8(id);
      ShlShl(id, 8, 16 * (7 - m));
    }
  }

  /** Pod subnet text is right: it denotes network + id * 2^(120 - size). */
  lemma PodSubnetIsRight(g: Address, size: nat, id: nat)
    requires Network6(g, size) && TailCompressed(g) && id < 256
    ensures var a := ParseV6(PodText6(g, size, id));
            a.Some? && IsV6(a.value) && Number(a.value) == Number(g) + Shl(id, 120 - size)
  {
    PodSubnetParses(g, size, id);
    SubnetNumber(g, size, id);
    SubnetFits(g, size, id);
  }

  lemma {:induction false} ShlMono(a: nat, b: nat, e: nat)
    requires a < b
    ensures Shl(a, e) + Shl(1, e) <= Shl(b, e)
  {
    if e > 0 { ShlMono(a, b, e - 1); }
  }

  /** The addresses of a node's block of 2^(120 - size) addresses. */
  ghost predicate InBlock(x: nat, g: Address, size: nat, id: nat)
    requires size <= 120
  {
    Number(g) + Shl(id, 120 - size) <= x < Number(g) + Shl(id, 120 - size) + Shl(1, 120 - size)
  }

  /** Blocks of different nodes share no address, and every block lies inside the pod network. */
  lemma BlocksAreDisjoint(g: Address, size: nat, i: nat, j: nat, x: nat)
    requires Network6(g, size) && i < 256 && j < 256 && InBlock(x, g, size, i)
    ensures i != j ==> !InBlock(x, g, size, j)
    ensures Number(g) <= x < Number(g) + Shl(1, 128 - size)
  {
    if i < j { ShlMono(i, j, 120 - size); }
    if j < i { ShlMono(j, i, 120 - size); }
    ShlMono(i, 256, 120 - size);
    Shl8(1);
    ShlShl(1, 8, 120 - size);
  }
}
