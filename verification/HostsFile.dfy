/** The /etc/hosts edit made by "prepare" (prepare.go). */
module HostsFile {
  import opened Text
  import opened Tags

  datatype NodeInfo = NodeInfo(name: string, ip: string, seen: bool)

  /** Index of the first node whose name occurs in the line, or -1. */
  function FirstMatch(line: string, n: seq<NodeInfo>): (i: int)
    ensures -1 <= i < |n|
    ensures i >= 0 ==> Contains(line, n[i].name)
    ensures forall j | 0 <= j < |n| && (i < 0 || j < i) :: !Contains(line, n[j].name)
  {
    if n == [] then -1
    else if Contains(line, n[0].name) then 0
    else var i := FirstMatch(line, n[1..]); if i < 0 then -1 else i + 1
  }

  method MatchingNodeIndex(line: string, n: array<NodeInfo>) returns (index: int)
    ensures index == FirstMatch(line, n[..])
  {
    for i := 0 to n.Length
      invariant forall j | 0 <= j < i :: !Contains(line, n[j].name)
    {
      if Contains(line, n[i].name) {
        return i;
      }
    }
    return -1;
  }

  /** The line is an active (uncommented, not added) entry owned by some node but with another address. */
  predicate IsStale(line: string, n: seq<NodeInfo>) {
    && !("#" <= line)
    && FirstMatch(line, n) >= 0
    && !Contains(line, n[FirstMatch(line, n)].ip)
  }

  /** The line already gives node i its address. */
  predicate Sights(line: string, n: seq<NodeInfo>, i: nat) {
    && !IsAdded(line)
    && !("#" <= line)
    && i < |n|
    && FirstMatch(line, n) == i
    && Contains(line, n[i].ip)
  }

  function EditedLine(line: string, n: seq<NodeInfo>): string {
    if IsStale(line, n) then REMOVED + line else line
  }

  /** The existing lines after the edit: additions of earlier runs dropped, stale entries tagged. */
  function Body(lines: seq<string>, n: seq<NodeInfo>): seq<string> {
    if lines == [] then []
    else if IsAdded(lines[0]) then Body(lines[1..], n)
    else [EditedLine(lines[0], n)] + Body(lines[1..], n)
  }

  predicate SeenIn(lines: seq<string>, n: seq<NodeInfo>, i: nat) {
    exists l <- lines :: Sights(l, n, i)
  }

  function Marked(lines: seq<string>, n: seq<NodeInfo>): seq<NodeInfo> {
    seq(|n|, i requires 0 <= i < |n| => n[i].(seen := n[i].seen || SeenIn(lines, n, i)))
  }

  function AddedLine(node: NodeInfo): string {
    node.ip + " " + node.name + ADDED
  }

  function Additions(n: seq<NodeInfo>): seq<string> {
    if n == [] then []
    else if n[0].seen then Additions(n[1..])
    else [AddedLine(n[0])] + Additions(n[1..])
  }

  function UpdatedLines(lines: seq<string>, n: seq<NodeInfo>): seq<string> {
    Body(lines, n) + Additions(Marked(lines, n))
  }

  function Updated(contents: string, n: seq<NodeInfo>): string {
    Print(UpdatedLines(Lines(contents), n))
  }

  lemma MatchIgnoresSeen(line: string, n: seq<NodeInfo>, m: seq<NodeInfo>)
    requires |n| == |m|
    requires forall i | 0 <= i < |n| :: n[i].name == m[i].name
    ensures FirstMatch(line, n) == FirstMatch(line, m)
  {
  }

  lemma {:induction false} BodyConcat(a: seq<string>, b: seq<string>, n: seq<NodeInfo>)
    ensures Body(a + b, n) == Body(a, n) + Body(b, n)
  {
    if a == [] {
      assert a + b == b;
    } else {
      assert (a + b)[1..] == a[1..] + b;
      BodyConcat(a[1..], b, n);
    }
  }

  lemma BodyStep(lines: seq<string>, k: nat, n: seq<NodeInfo>)
    requires k < |lines|
    ensures Print(Body(lines[..k + 1], n))
         == Print(Body(lines[..k], n)) + (if IsAdded(lines[k]) then "" else EditedLine(lines[k], n) + "\n")
  {
    assert lines[..k + 1] == lines[..k] + [lines[k]];
    BodyConcat(lines[..k], [lines[k]], n);
    PrintConcat(Body(lines[..k], n), Body([lines[k]], n));
    assert Body([lines[k]], n) == if IsAdded(lines[k]) then [] else [EditedLine(lines[k], n)];
    PrintOne(EditedLine(lines[k], n));
  }

  lemma {:induction false} AdditionsConcat(a: seq<NodeInfo>, b: seq<NodeInfo>)
    ensures Additions(a + b) == Additions(a) + Additions(b)
  {
    if a == [] {
      assert a + b == b;
    } else {
      assert (a + b)[1..] == a[1..] + b;
      AdditionsConcat(a[1..], b);
    }
  }

  lemma AdditionsStep(n: seq<NodeInfo>, i: nat)
    requires i < |n|
    ensures Print(Additions(n[..i + 1]))
              == Print(Additions(n[..i])) + (if n[i].seen then "" else AddedLine(n[i]) + "\n")
  {
    assert n[..i + 1] == n[..i] + [n[i]];
    AdditionsConcat(n[..i], [n[i]]);
    PrintConcat(Additions(n[..i]), Additions([n[i]]));
    assert Additions([n[i]]) == if n[i].seen then [] else [AddedLine(n[i])];
    PrintOne(AddedLine(n[i]));
  }

  lemma SeenStep(lines: seq<string>, k: nat, n: seq<NodeInfo>, i: nat)
    requires k < |lines|
    ensures SeenIn(lines[..k + 1], n, i) == (SeenIn(lines[..k], n, i) || Sights(lines[k], n, i))
  {
    assert lines[..k + 1] == lines[..k] + [lines[k]];
  }

  /** Which flags a scan of the first k lines has set. */
  ghost predicate FlagsAfter(now: seq<NodeInfo>, lines: seq<string>, k: nat, n: seq<NodeInfo>) {
    && k <= |lines|
    && |now| == |n|
    && forall i | 0 <= i < |n| :: now[i] == n[i].(seen := n[i].seen || SeenIn(lines[..k], n, i))
  }

  lemma FlagsStep(now: seq<NodeInfo>, after: seq<NodeInfo>, lines: seq<string>, k: nat, n: seq<NodeInfo>)
    requires FlagsAfter(now, lines, k, n) && k < |lines|
    requires |after| == |n|
    requires forall i | 0 <= i < |n| :: after[i] == if Sights(lines[k], n, i) then now[i].(seen := true) else now[i]
    ensures FlagsAfter(after, lines, k + 1, n)
  {
    forall i | 0 <= i < |n| ensures after[i] == n[i].(seen := n[i].seen || SeenIn(lines[..k + 1], n, i)) {
      SeenStep(lines, k, n, i);
    }
  }

  /** Writes the edited file and, as the source does, records in the caller's list
      which nodes were already present. */
  method UpdateHostsInfo(contents: string, n: array<NodeInfo>) returns (output: string)
    modifies n
    ensures output == Updated(contents, old(n[..]))
    ensures n[..] == Marked(Lines(contents), old(n[..]))
  {
    hide Lines, Contains, FirstMatch;
    var lines := Lines(contents);
    ghost var nodes := n[..];
    output := "";
    for k := 0 to |lines|
      invariant FlagsAfter(n[..], lines, k, nodes)
      invariant output == Print(Body(lines[..k], nodes))
    {
      var line := lines[k];
      ghost var before := n[..];
      BodyStep(lines, k, nodes);
      if HasSuffix(line, "  #[+]") {
        FlagsStep(before, n[..], lines, k, nodes);
        continue;
      }
      if !("#" <= line) {
        var i := MatchingNodeIndex(line, n);
        MatchIgnoresSeen(line, n[..], nodes);
        if i >= 0 {
          if Contains(line, n[i].ip) {
            n[i] := n[i].(seen := true);
          } else {
            output := output + "#[-] ";
          }
        }
      }
      output := output + (line + "\n");
      FlagsStep(before, n[..], lines, k, nodes);
    }
    assert lines[..|lines|] == lines;
    ghost var marked := Marked(lines, nodes);
    assert n[..] == marked;
    for i := 0 to n.Length
      invariant n[..] == marked
      invariant output == Print(Body(lines, nodes)) + Print(Additions(marked[..i]))
    {
      AdditionsStep(marked, i);
      if !n[i].seen {
        output := output + (n[i].ip + " " + n[i].name + "  #[+]" + "\n");
      }
    }
    assert marked[..n.Length] == marked;
    PrintConcat(Body(lines, nodes), Additions(marked));
  }

  // ------------------------------------------------------------ what the edit keeps

  /** Names and addresses are single-line text. */
  predicate SingleLine(n: seq<NodeInfo>) {
    forall i | 0 <= i < |n| :: '\n' !in n[i].name && '\n' !in n[i].ip
  }

  /** The edit does not comment out the one line that would then pass for an addition. */
  predicate Harmless(lines: seq<string>, n: seq<NodeInfo>) {
    LOOKALIKE in lines ==> !IsStale(LOOKALIKE, n)
  }

  /** The name holds a letter or a digit. */
  predicate Named(name: string) {
    exists c <- name :: 'a' <= c <= 'z' || 'A' <= c <= 'Z' || '0' <= c <= '9'
  }

  /** Such a name can never own that line. */
  lemma NamedNodesAreHarmless(n: seq<NodeInfo>)
    requires forall i | 0 <= i < |n| :: Named(n[i].name)
    ensures !IsStale(LOOKALIKE, n)
  {
    var i := FirstMatch(LOOKALIKE, n);
    if i >= 0 {
      var c :| c in n[i].name && ('a' <= c <= 'z' || 'A' <= c <= 'Z' || '0' <= c <= '9');
      ContainsBytes(LOOKALIKE, n[i].name, c);
      assert false;
    }
  }

  lemma AddedLineFacts(node: NodeInfo)
    ensures IsAdded(AddedLine(node)) && AddedLine(node) != HIDDEN && AddedLine(node) != ""
  {
    var head := node.ip + " " + node.name;
    assert AddedLine(node) == head + ADDED;
    assert head[|node.ip|] == ' ';
  }

  lemma {:induction false} AdditionsFacts(n: seq<NodeInfo>)
    ensures forall l <- Additions(n) :: IsAdded(l) && l != HIDDEN && l != ""
    ensures SingleLine(n) ==> Unbroken(Additions(n))
  {
    if n != [] {
      AddedLineFacts(n[0]);
      AdditionsFacts(n[1..]);
    }
  }

  lemma {:induction false} BodyOfAdditions(lines: seq<string>, n: seq<NodeInfo>)
    requires forall l <- lines :: IsAdded(l)
    ensures Body(lines, n) == []
  {
    if lines != [] {
      assert lines[0] in lines;
      assert forall l <- lines[1..] :: l in lines;
      BodyOfAdditions(lines[1..], n);
    }
  }

  lemma EditedLineFacts(line: string, n: seq<NodeInfo>)
    requires !IsAdded(line) && (line == LOOKALIKE ==> !IsStale(line, n))
    ensures var e := EditedLine(line, n);
            && !IsAdded(e) && e != HIDDEN
            && TrimPrefix(e, REMOVED) == TrimPrefix(line, REMOVED)
            && EditedLine(e, n) == e
            && (line != "" ==> e != "")
            && ('\n' !in line ==> '\n' !in e)
            && forall i: nat :: Sights(e, n, i) == Sights(line, n, i)
  {
    TagRoundTrip(line);
    if IsStale(line, n) {
      assert "#" <= REMOVED + line;
      assert (REMOVED + line)[5..] == line;
    }
  }

  /** Line by line: the edited lines revert to the same text, hide nothing, and are
      left alone (flags included) by a second edit with the same list. */
  lemma {:induction false} BodyFacts(lines: seq<string>, n: seq<NodeInfo>)
    requires HIDDEN !in lines && Harmless(lines, n)
    ensures var b := Body(lines, n);
            && RevertedLines(b) == RevertedLines(lines)
            && HIDDEN !in b
            && Body(b, n) == b
            && (forall l <- b :: !IsAdded(l))
            && (forall i: nat :: SeenIn(b, n, i) == SeenIn(lines, n, i))
  {
    if lines != [] {
      var l, rest := lines[0], lines[1..];
      assert forall r <- rest :: r in lines;
      BodyFacts(rest, n);
      var b := Body(rest, n);
      StripKeepsAdded(l);
      if !IsAdded(l) {
        EditedLineFacts(l, n);
        var e := EditedLine(l, n);
        assert ([e] + b)[1..] == b;
        assert forall i: nat :: SeenIn([e] + b, n, i) == (Sights(e, n, i) || SeenIn(b, n, i));
      }
      assert forall i: nat :: SeenIn(lines, n, i) == (Sights(l, n, i) || SeenIn(rest, n, i));
    }
  }

  lemma {:induction false} BodyShape(lines: seq<string>, n: seq<NodeInfo>)
    ensures |Body(lines, n)| == |Kept(lines)|
    ensures forall k | 0 <= k < |Kept(lines)| :: Body(lines, n)[k] == EditedLine(Kept(lines)[k], n)
    ensures Unbroken(lines) ==> Unbroken(Body(lines, n))
  {
    if lines != [] {
      assert lines == [lines[0]] + lines[1..];
      BodyShape(lines[1..], n);
    }
  }

  lemma UpdatedIsUnbroken(lines: seq<string>, n: seq<NodeInfo>)
    requires Unbroken(lines) && SingleLine(n)
    ensures Unbroken(UpdatedLines(lines, n))
  {
    BodyShape(lines, n);
    AdditionsFacts(Marked(lines, n));
  }

  /** A list that claims the lookalike line never leaves it bare. */
  lemma {:induction false} LookalikeIsTagged(lines: seq<string>, n: seq<NodeInfo>)
    requires IsStale(LOOKALIKE, n)
    ensures LOOKALIKE !in UpdatedLines(lines, n)
    ensures LOOKALIKE !in lines ==> HIDDEN !in UpdatedLines(lines, n)
  {
    BodyShape(lines, n);
    AdditionsFacts(Marked(lines, n));
    KeptComesFrom(lines);
    forall k | 0 <= k < |Kept(lines)|
      ensures EditedLine(Kept(lines)[k], n) != LOOKALIKE
      ensures LOOKALIKE !in lines ==> EditedLine(Kept(lines)[k], n) != HIDDEN
    {
      var l := Kept(lines)[k];
      TagRoundTrip(l);
      assert (REMOVED + l)[0] == '#';
      assert LOOKALIKE[0] == ' ';
      assert IsAdded(HIDDEN);
    }
  }

  /** The updated lines of a managed file survive printing and reading. */
  lemma UpdatedIsReadable(contents: string, n: seq<NodeInfo>)
    requires Managed(contents) && SingleLine(n)
    ensures Lines(Updated(contents, n)) == UpdatedLines(Lines(contents), n)
  {
    var ls := Lines(contents);
    var b, a := Body(ls, n), Additions(Marked(ls, n));
    LinesAreNormal(contents);
    AdditionsFacts(Marked(ls, n));
    BodyShape(ls, n);
    ManagedKeptNormal(contents);
    EditKeepsNormal(Kept(ls), b, n);
    NormalThenAdditions(b, a);
    LinesOfPrint(b + a);
  }

  lemma EditKeepsNormal(kept: seq<string>, body: seq<string>, n: seq<NodeInfo>)
    requires IsNormal(kept) && |body| == |kept|
    requires forall k | 0 <= k < |kept| :: body[k] == EditedLine(kept[k], n)
    ensures IsNormal(body)
  {
  }

  lemma NormalThenAdditions(body: seq<string>, a: seq<string>)
    requires IsNormal(body) && forall l <- a :: l != ""
    ensures IsNormal(body + a)
  {
    if a == [] {
      assert body + a == body;
    } else {
      assert a[|a| - 1] in a;
    }
  }

  lemma UpdatedLinesFacts(lines: seq<string>, n: seq<NodeInfo>)
    requires HIDDEN !in lines && Harmless(lines, n)
    ensures HIDDEN !in UpdatedLines(lines, n)
    ensures RevertedLines(UpdatedLines(lines, n)) == RevertedLines(lines)
    ensures UpdatedLines(UpdatedLines(lines, n), n) == UpdatedLines(lines, n)
  {
    var b, m := Body(lines, n), Marked(lines, n);
    var a := Additions(m);
    BodyFacts(lines, n);
    AdditionsFacts(m);
    assert RevertedLines(b + a) == RevertedLines(b) by {
      RevertAdditions(a);
      RevertedConcat(b, a);
    }
    assert Body(b + a, n) == b by {
      BodyConcat(b, a, n);
      BodyOfAdditions(a, n);
    }
    MarkedTwice(lines, b, a, n);
  }

  /** One hosts update of a managed file: it stays managed, stands for the same original
      lines, and a second update with the same list changes no byte. */
  lemma UpdateKeepsManaged(contents: string, n: seq<NodeInfo>)
    requires Managed(contents) && SingleLine(n) && Harmless(Lines(contents), n)
    ensures Managed(Updated(contents, n))
    ensures RevertedLines(Lines(Updated(contents, n))) == RevertedLines(Lines(contents))
    ensures Updated(Updated(contents, n), n) == Updated(contents, n)
  {
    UpdatedIsReadable(contents, n);
    UpdatedLinesFacts(Lines(contents), n);
  }

  lemma MarkedTwice(lines: seq<string>, b: seq<string>, a: seq<string>, n: seq<NodeInfo>)
    requires forall i: nat :: SeenIn(b, n, i) == SeenIn(lines, n, i)
    requires forall l <- a :: IsAdded(l)
    ensures Marked(b + a, n) == Marked(lines, n)
  {
    forall i: nat | i < |n| ensures SeenIn(b + a, n, i) == SeenIn(lines, n, i) {
      assert SeenIn(b + a, n, i) == (SeenIn(b, n, i) || SeenIn(a, n, i));
    }
  }

  // ------------------------------------------------------------ what the edit provides

  lemma {:induction false} AdditionsHold(n: seq<NodeInfo>, i: nat)
    requires i < |n| && !n[i].seen
    ensures AddedLine(n[i]) in Additions(n)
  {
    if i > 0 { AdditionsHold(n[1..], i - 1); }
  }

  lemma {:induction false} KeptLineSurvives(lines: seq<string>, n: seq<NodeInfo>, l: string)
    requires l in lines && !IsAdded(l)
    ensures EditedLine(l, n) in Body(lines, n)
  {
    if l != lines[0] { KeptLineSurvives(lines[1..], n, l); }
  }

  /** Every listed node ends up with an active line holding both its name and its address. */
  lemma EveryNodeIsListed(lines: seq<string>, n: seq<NodeInfo>, i: nat) returns (l: string)
    requires i < |n| && !n[i].seen && !("#" <= n[i].ip)
    ensures l in UpdatedLines(lines, n)
    ensures !("#" <= l) && Contains(l, n[i].name) && Contains(l, n[i].ip)
  {
    if SeenIn(lines, n, i) {
      l :| l in lines && Sights(l, n, i);
      KeptLineSurvives(lines, n, l);
    } else {
      l := AddedLine(n[i]);
      AdditionsHold(Marked(lines, n), i);
      ContainsInside("", n[i].ip, " " + n[i].name + ADDED);
      assert l == "" + n[i].ip + (" " + n[i].name + ADDED);
      ContainsInside(n[i].ip + " ", n[i].name, ADDED);
      assert if n[i].ip == "" then l[0] == ' ' else l[0] == n[i].ip[0];
    }
  }

  /** The old lines survive in order, bare or behind the removal tag, and an active one
      whose first matching node is j holds node j's address. */
  lemma OldLinesSurvive(lines: seq<string>, n: seq<NodeInfo>, k: nat)
    requires k < |Kept(lines)|
    ensures |Body(lines, n)| == |Kept(lines)| && Body(lines, n) <= UpdatedLines(lines, n)
    ensures var was, l := Kept(lines)[k], UpdatedLines(lines, n)[k];
            && (l == was || l == REMOVED + was)
            && (!("#" <= l) ==> l == was && var j := FirstMatch(l, n); j >= 0 ==> Contains(l, n[j].ip))
  {
    BodyShape(lines, n);
    var l := UpdatedLines(lines, n)[k];
    assert l == EditedLine(Kept(lines)[k], n);
    assert "#" <= REMOVED + Kept(lines)[k];
  }

  /** "Holding name and address" is by substring, and so is the search for an existing
      entry: here node "a" gets no entry of its own, because the entry of "ab" holds
      "a" and its address "10" holds "1". */
  lemma SubstringNameGetsNoEntry()
    ensures var n := [NodeInfo("a", "1", false), NodeInfo("ab", "10", false)];
            UpdatedLines(["10 ab"], n) == ["10 ab", "10 ab  #[+]"]
  {
    var n := [NodeInfo("a", "1", false), NodeInfo("ab", "10", false)];
    var l := "10 ab";
    assert Contains(l, "a") by {
      assert l[1..] == "0 ab" && l[1..][1..] == " ab" && l[1..][1..][1..] == "ab";
      assert "a" <= "ab";
    }
    assert "1" <= l && l[0] == '1';
    assert !IsAdded(l) && !("#" <= l) by { assert l[|l| - 1] == 'b'; }
    assert FirstMatch(l, n) == 0;
    assert Sights(l, n, 0) && !Sights(l, n, 1);
    assert l in [l] && SeenIn([l], n, 0) && !SeenIn([l], n, 1);
    assert AddedLine(n[1]) == "10 ab  #[+]";
    var m := Marked([l], n);
    assert m == [n[0].(seen := true), n[1]];
    assert m[0].seen && m[1..] == [n[1]] && [n[1]][1..] == [] && !n[1].seen;
    assert Additions([n[1]]) == [AddedLine(n[1])];
    assert Additions(m) == [AddedLine(n[1])];
    assert [l][1..] == [];
  }
}
