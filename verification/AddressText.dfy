/** What address text means (section 2.2 of RFC 4291 for IPv6, dotted decimal for IPv4)
    and how the Go library writes it (section 4 of RFC 5952 for IPv6). */
module AddressText {
  import opened Wrappers
  import opened Text
  import opened Numerals

  /** Four octets or eight 16-bit groups. */
  type Address = seq<nat>

  predicate IsV4(a: Address) { |a| == 4 && forall x <- a :: x < 0x100 }
  predicate IsV6(a: Address) { |a| == 8 && forall x <- a :: x < 0x10000 }

  function Zeros(n: nat): (z: seq<nat>)
    ensures |z| == n && forall x <- z :: x == 0
  {
    seq(n, _ => 0)
  }

  // ------------------------------------------------------------ reading

  predicate IsGroup(s: string) { |s| <= 4 && IsNumeral(s, 16) }
  predicate IsOctet(s: string) { |s| <= 3 && IsNumeral(s, 10) && Value(s, 10) < 0x100 }

  predicate AreGroups(parts: seq<string>) { forall p <- parts :: IsGroup(p) }

  function Values(parts: seq<string>, b: nat): (v: seq<nat>)
    requires IsBase(b)
    ensures |v| == |parts|
  {
    seq(|parts|, i requires 0 <= i < |parts| => Value(parts[i], b))
  }

  /** Position of the first empty part, or the number of parts. */
  function FirstEmpty(parts: seq<string>): (i: nat)
    ensures i <= |parts|
    ensures i < |parts| ==> parts[i] == ""
    ensures forall j | 0 <= j < i :: parts[j] != ""
  {
    if parts == [] || parts[0] == "" then 0 else 1 + FirstEmpty(parts[1..])
  }

  /** The groups left and right of a "::", given the text split at its colons; without
      one, all groups on the left. None when a colon is out of place. */
  function Halves(parts: seq<string>): Option<(seq<string>, seq<string>)> {
    var i := FirstEmpty(parts);
    if i == |parts| then Some((parts, []))
    else if i == |parts| - 1 then None                          // one colon at the end, or no text
    else if i == 0 && parts[1] != "" then None                  // one colon at the start
    else
      var left, right := parts[..i], parts[(if i == 0 then 2 else i + 1)..];
      Some((left, if right == [""] then [] else right))         // "::" ends the text
  }

  /** Section 2.2 of RFC 4291, forms 1 and 2. */
  function ParseV6(s: string): Option<Address> {
    var parts := Split(s, ':');
    match Halves(parts)
    case None => None
    case Some((left, right)) =>
      if !AreGroups(left) || !AreGroups(right) then None
      else if FirstEmpty(parts) == |parts| then
        if |left| == 8 then Some(Values(left, 16)) else None
      else if |left| + |right| <= 7 then
        Some(Values(left, 16) + Zeros(8 - |left| - |right|) + Values(right, 16))
      else None
  }

  function ParseV4(s: string): Option<Address> {
    var parts := Split(s, '.');
    if |parts| == 4 && forall p <- parts :: IsOctet(p) then Some(Values(parts, 10)) else None
  }

  /** net.ParseIP on the texts in use. */
  function ParseAddress(s: string): Option<Address> {
    if ':' in s then ParseV6(s) else ParseV4(s)
  }

  // ------------------------------------------------------------ writing

  function V4Text(a: Address): string
    requires |a| == 4
  {
    Dec(a[0]) + "." + Dec(a[1]) + "." + Dec(a[2]) + "." + Dec(a[3])
  }

  function HexParts(g: seq<nat>): (p: seq<string>)
    ensures |p| == |g|
    ensures forall i | 0 <= i < |g| :: p[i] == Hex(g[i])
  {
    seq(|g|, i requires 0 <= i < |g| => Hex(g[i]))
  }

  function Groups(g: seq<nat>): string { Join(HexParts(g), ':') }

  /** Number of zero groups from position i on. */
  function ZeroRun(g: seq<nat>, i: nat): (n: nat)
    requires i <= |g|
    ensures i + n <= |g|
    ensures forall j | i <= j < i + n :: g[j] == 0
    ensures i + n < |g| ==> g[i + n] != 0
    decreases |g| - i
  {
    if i < |g| && g[i] == 0 then 1 + ZeroRun(g, i + 1) else 0
  }

  /** The longest run of zero groups at or after i, the first one on a tie. */
  function LongestRun(g: seq<nat>, i: nat): (start: nat)
    requires i <= |g|
    ensures i <= start <= |g|
    ensures forall j | i <= j <= |g| :: ZeroRun(g, j) <= ZeroRun(g, start)
    ensures forall j | i <= j < start :: ZeroRun(g, j) < ZeroRun(g, start)
    decreases |g| - i
  {
    if i == |g| then i
    else var rest := LongestRun(g, i + 1); if ZeroRun(g, i) >= ZeroRun(g, rest) then i else rest
  }

  /** Section 4 of RFC 5952: lower-case hexadecimal without leading zeros, the first longest
      run of at least two zero groups written "::". */
  function V6Text(g: Address): string {
    var a := LongestRun(g, 0);
    var n := ZeroRun(g, a);
    if n < 2 then Groups(g) else Groups(g[..a]) + "::" + Groups(g[a + n..])
  }

  /** ::ffff:0:0/96, which the library shows as IPv4. */
  predicate IsMapped(g: Address) { |g| == 8 && g[..5] == Zeros(5) && g[5] == 0xffff }

  // ------------------------------------------------------------ reading back

  lemma HexGroup(x: nat)
    requires x < 0x10000
    ensures IsGroup(Hex(x)) && Value(Hex(x), 16) == x && ':' !in Hex(x) && '.' !in Hex(x)
  {
    HexLength(x);
    RenderDigits(x, 16);
    RenderRoundTrip(x, 16);
  }

  lemma HexPartsFacts(g: seq<nat>)
    requires forall x <- g :: x < 0x10000
    ensures AreGroups(HexParts(g)) && Values(HexParts(g), 16) == g
    ensures forall p <- HexParts(g) :: p != "" && ':' !in p && '.' !in p
  {
    forall i | 0 <= i < |g| ensures
        IsGroup(Hex(g[i])) && Value(Hex(g[i]), 16) == g[i] && ':' !in Hex(g[i]) && '.' !in Hex(g[i])
    {
      assert g[i] in g;
      HexGroup(g[i]);
    }
  }

  lemma PrefixFits(g: seq<nat>, k: nat)
    requires k <= |g| && forall x <- g :: x < 0x10000
    ensures forall x <- g[..k] :: x < 0x10000
  {
    forall x <- g[..k] ensures x < 0x10000 { assert x in g; }
  }

  lemma SplitGroups(g: seq<nat>)
    requires g != [] && forall x <- g :: x < 0x10000
    ensures Split(Groups(g), ':') == HexParts(g)
  {
    HexPartsFacts(g);
    SplitJoin(HexParts(g), ':');
  }

  /** "::" between two texts adds one empty part between theirs. */
  lemma SplitDouble(left: string, right: string)
    ensures Split(left + "::" + right, ':') == Split(left, ':') + [""] + Split(right, ':')
  {
    SplitConcat(left + ":", right, ':');
    SplitConcat(left, "", ':');
    assert left + ":" + "" == left + ":";
    assert left + "::" + right == left + ":" + ":" + right;
  }

  lemma HalvesInside(left: seq<string>, right: seq<string>)
    requires AreGroups(left) && AreGroups(right) && right != []
    ensures Halves((if left == [] then [""] else left) + [""] + right) == Some((left, right))
  {
    var parts := (if left == [] then [""] else left) + [""] + right;
    assert right[0] in right;
    if left == [] {
      assert parts[0] == "" && parts[2..] == right && parts[..0] == [];
    } else {
      forall j | 0 <= j < |left| ensures parts[j] != "" { assert parts[j] == left[j] && left[j] in left; }
      assert parts[|left|] == "" && FirstEmpty(parts) == |left|;
      assert parts[..|left|] == left && parts[|left| + 1..] == right;
    }
  }

  /** A "::" in the middle or at the start, with groups after it. */
  lemma ParseCompressed(left: seq<string>, right: seq<string>, s: string)
    requires AreGroups(left) && AreGroups(right) && right != [] && |left| + |right| <= 7
    requires Split(s, ':') == (if left == [] then [""] else left) + [""] + right
    ensures ParseV6(s) == Some(Values(left, 16) + Zeros(8 - |left| - |right|) + Values(right, 16))
  {
    HalvesInside(left, right);
    var parts := Split(s, ':');
    assert parts[|left|] == "";
  }

  /** A "::" at the end. */
  lemma ParseTail(left: seq<string>, s: string)
    requires AreGroups(left) && 1 <= |left| <= 7
    requires Split(s, ':') == left + ["", ""]
    ensures ParseV6(s) == Some(Values(left, 16) + Zeros(8 - |left|))
  {
    var parts := Split(s, ':');
    forall j | 0 <= j < |left| ensures parts[j] != "" { assert parts[j] == left[j] && left[j] in left; }
    assert parts[|left|] == "" && FirstEmpty(parts) == |left|;
    assert parts[..|left|] == left && parts[|left| + 1..] == [""];
    assert Values([], 16) == [];
    assert Values(left, 16) + Zeros(8 - |left|) + [] == Values(left, 16) + Zeros(8 - |left|);
  }

  /** Eight groups and no "::". */
  lemma ParseFull(parts: seq<string>, s: string)
    requires AreGroups(parts) && |parts| == 8 && Split(s, ':') == parts
    ensures ParseV6(s) == Some(Values(parts, 16))
  {
    assert forall j | 0 <= j < 8 :: parts[j] in parts;
    assert FirstEmpty(parts) == 8;
  }

  /** Two places for "::": no meaning. */
  lemma ParseTwoGaps(parts: seq<string>, s: string)
    requires Split(s, ':') == parts && |parts| >= 4
    requires parts[|parts| - 2] == parts[|parts| - 1] == ""
    requires FirstEmpty(parts) < |parts| - 2
    requires FirstEmpty(parts) == 0 && parts[1] == "" ==> |parts| >= 5
    ensures ParseV6(s) == None
  {
    var i := FirstEmpty(parts);
    if !(i == 0 && parts[1] != "") {
      var right := parts[(if i == 0 then 2 else i + 1)..];
      assert |right| >= 2;
      assert right[|right| - 1] == "" && right[|right| - 1] in right;
    }
  }

  lemma DecOctet(x: nat)
    requires x < 0x100
    ensures IsOctet(Dec(x)) && Value(Dec(x), 10) == x && '.' !in Dec(x) && ':' !in Dec(x) && '/' !in Dec(x)
  {
    DecLength(x);
    RenderDigits(x, 10);
    RenderRoundTrip(x, 10);
  }
}
