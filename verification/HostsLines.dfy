/** The lines of an updated /etc/hosts, one by one, in terms of the text they hold: which are
    left, which are commented out and which are added (prepare.go). */
module HostsLines {
  import opened Text
  import opened Tags
  import opened HostsFile

  /** Node i is the first one whose name the line holds. */
  predicate FirstNamed(line: string, n: seq<NodeInfo>, i: nat)
    requires i < |n|
  {
    Contains(line, n[i].name) && forall j | 0 <= j < i :: !Contains(line, n[j].name)
  }

  /** Neither a comment nor an addition of an earlier run. */
  predicate Active(line: string) { !("#" <= line) && !HasSuffix(line, "  #[+]") }

  /** An active line that holds the node's name and address, and no earlier node's name. */
  predicate Covers(line: string, n: seq<NodeInfo>, i: nat)
    requires i < |n|
  {
    Active(line) && FirstNamed(line, n, i) && Contains(line, n[i].ip)
  }

  predicate Covered(lines: seq<string>, n: seq<NodeInfo>, i: nat)
    requires i < |n|
  {
    exists l <- lines :: Covers(l, n, i)
  }

  /** An active line that holds some node's name and lacks the address of the first such node. */
  predicate Outdated(line: string, n: seq<NodeInfo>) {
    Active(line) && exists i: nat | i < |n| :: FirstNamed(line, n, i) && !Contains(line, n[i].ip)
  }

  function EntryText(node: NodeInfo): string { node.ip + " " + node.name + "  #[+]" }

  /** The entries still to be written, from node i on: one for each node no line covers. */
  function Missing(lines: seq<string>, n: seq<NodeInfo>, i: nat): seq<string>
    requires i <= |n|
    decreases |n| - i
  {
    if i == |n| then []
    else
      (if n[i].seen || Covered(lines, n, i) then [] else [EntryText(n[i])]) + Missing(lines, n, i + 1)
  }

  lemma FirstNamedIsMatch(line: string, n: seq<NodeInfo>, i: nat)
    requires i < |n|
    ensures FirstNamed(line, n, i) <==> FirstMatch(line, n) == i
  {
  }

  lemma CoversIsSighted(line: string, n: seq<NodeInfo>, i: nat)
    requires i < |n|
    ensures Covers(line, n, i) <==> Sights(line, n, i)
  {
    hide Contains;
    FirstNamedIsMatch(line, n, i);
  }

  lemma CoveredIsSeen(lines: seq<string>, n: seq<NodeInfo>, i: nat)
    requires i < |n|
    ensures Covered(lines, n, i) <==> SeenIn(lines, n, i)
  {
    forall l <- lines ensures Covers(l, n, i) <==> Sights(l, n, i) { CoversIsSighted(l, n, i); }
    hide Covers, Sights;
  }

  lemma OutdatedIsStale(line: string, n: seq<NodeInfo>)
    requires !IsAdded(line)
    ensures Outdated(line, n) <==> IsStale(line, n)
  {
    hide Contains;
    if IsStale(line, n) {
      FirstNamedIsMatch(line, n, FirstMatch(line, n));
    }
    if Outdated(line, n) {
      var i: nat :| i < |n| && FirstNamed(line, n, i) && !Contains(line, n[i].ip);
      FirstNamedIsMatch(line, n, i);
    }
  }

  lemma {:induction false} MissingIsAdded(lines: seq<string>, n: seq<NodeInfo>, i: nat)
    requires i <= |n|
    ensures Missing(lines, n, i) == Additions(Marked(lines, n)[i..])
    decreases |n| - i
  {
    hide SeenIn, Covered;
    var m := Marked(lines, n);
    if i < |n| {
      MissingIsAdded(lines, n, i + 1);
      CoveredIsSeen(lines, n, i);
      assert m[i..][0] == m[i] && m[i..][1..] == m[i + 1..];
      assert AddedLine(m[i]) == EntryText(n[i]);
    }
  }

  /** The whole update, line by line: the old lines in order, additions of earlier runs left out
      and outdated ones behind the removal tag, and then the missing entries in list order. */
  lemma UpdatedLinesExactly(lines: seq<string>, n: seq<NodeInfo>)
    ensures var was, out := Kept(lines), UpdatedLines(lines, n);
            && |was| <= |out|
            && (forall k | 0 <= k < |was| :: out[k] == if Outdated(was[k], n) then "#[-] " + was[k] else was[k])
            && out[|was|..] == Missing(lines, n, 0)
  {
    BodyShape(lines, n);
    KeptComesFrom(lines);
    MissingIsAdded(lines, n, 0);
    assert Marked(lines, n)[0..] == Marked(lines, n);
    hide IsStale, Outdated, IsAdded;
    forall k | 0 <= k < |Kept(lines)|
      ensures UpdatedLines(lines, n)[k] == if Outdated(Kept(lines)[k], n) then "#[-] " + Kept(lines)[k]
                else Kept(lines)[k]
    {
      assert Kept(lines)[k] in Kept(lines);
      OutdatedIsStale(Kept(lines)[k], n);
    }
  }

  lemma {:induction false} MissingHolds(lines: seq<string>, n: seq<NodeInfo>, i: nat, l: string)
    requires i <= |n|
    ensures l in Missing(lines, n, i) <==>
              exists j | i <= j < |n| :: !n[j].seen && !Covered(lines, n, j) && l == EntryText(n[j])
    decreases |n| - i
  {
    hide Covered, EntryText;
    if i < |n| { MissingHolds(lines, n, i + 1, l); }
  }

  lemma OldLineIsNoEntry(line: string, node: NodeInfo)
    requires !IsAdded(line)
    ensures line != EntryText(node) && "#[-] " + line != EntryText(node)
  {
    AddedLineFacts(node);
    TagRoundTrip(line);
    assert EntryText(node) == AddedLine(node);
  }

  lemma EntryTextsDiffer(a: NodeInfo, b: NodeInfo)
    requires EntryText(a) == EntryText(b)
    ensures a.ip + " " + a.name == b.ip + " " + b.name
  {
    var x, y := a.ip + " " + a.name, b.ip + " " + b.name;
    assert (x + "  #[+]")[..|x|] == x && (y + "  #[+]")[..|y|] == y;
  }

  /** A node whose entry reads like no other one's gets it if and only if no line covers it. */
  lemma AddedExactlyWhenMissing(lines: seq<string>, n: seq<NodeInfo>, i: nat)
    requires i < |n| && !n[i].seen
    requires forall j | 0 <= j < |n| && j != i :: n[j].ip + " " + n[j].name != n[i].ip + " " + n[i].name
    ensures EntryText(n[i]) in UpdatedLines(lines, n) <==> forall l <- lines :: !Covers(l, n, i)
  {
    var l, was, out := EntryText(n[i]), Kept(lines), UpdatedLines(lines, n);
    UpdatedLinesExactly(lines, n);
    MissingHolds(lines, n, 0, l);
    forall j | 0 <= j < |n| && EntryText(n[j]) == l ensures j == i { EntryTextsDiffer(n[j], n[i]); }
    KeptComesFrom(lines);
    hide Covers, Outdated, EntryText, UpdatedLines, Kept, IsAdded;
    forall k | 0 <= k < |was| ensures out[k] != l {
      assert was[k] in was;
      OldLineIsNoEntry(was[k], n[i]);
    }
    assert out == out[..|was|] + out[|was|..];
    assert l in out <==> l in out[|was|..];
  }

  lemma {:induction false} NothingMissing(lines: seq<string>, n: seq<NodeInfo>, i: nat)
    requires i <= |n|
    ensures Missing(lines, n, i) == [] <==> forall j | i <= j < |n| :: n[j].seen || Covered(lines, n, j)
    decreases |n| - i
  {
    hide Covered, EntryText;
    if i < |n| { NothingMissing(lines, n, i + 1); }
  }

  /** A file without additions is only printed again if and only if no line of it is outdated and
      every node is covered by one. */
  lemma ReprintedExactlyWhenComplete(contents: string, n: seq<NodeInfo>)
    requires forall l <- Lines(contents) :: !HasSuffix(l, "  #[+]")
    requires SingleLine(n)
    ensures Updated(contents, n) == Print(Lines(contents)) <==>
              && (forall l <- Lines(contents) :: !Outdated(l, n))
              && (forall i | 0 <= i < |n| && !n[i].seen :: exists l <- Lines(contents) :: Covers(l, n, i))
  {
    var lines := Lines(contents);
    var out := UpdatedLines(lines, n);
    hide Covers, Outdated, Lines, UpdatedLines, Kept, Print, Missing;
    LinesAreNormal(contents);
    UpdatedIsUnbroken(lines, n);
    if Print(out) == Print(lines) { PrintInjective(out, lines); }
    AllKept(lines);
    UpdatedLinesExactly(lines, n);
    NothingMissing(lines, n, 0);
    assert forall k | 0 <= k < |lines| :: lines[k] in lines && |"#[-] " + lines[k]| > |lines[k]|;
    assert out == out[..|lines|] + out[|lines|..];
    if out == lines {
      assert out[|lines|..] == [];
    } else if forall l <- lines :: !Outdated(l, n) {
      assert out[..|lines|] == lines && lines + [] == lines;
      assert out[|lines|..] != [];
    }
  }
}
