/** What the lines of /etc/hosts mean, and what the edit does to that meaning: names are looked
    for as substrings, but entries consist of fields (prepare.go). */
module HostsEntries {
  import opened Text
  import opened Tags
  import opened HostsFile
  import opened HostsLines

  predicate IsBlank(ch: char) { ch == ' ' || ch == '\t' }

  /** The line without its comment. */
  function BeforeComment(line: string): string {
    if line == "" || line[0] == '#' then "" else [line[0]] + BeforeComment(line[1..])
  }

  /** The fields between blanks. */
  function Words(s: string): (w: seq<string>)
    ensures s != "" && !IsBlank(s[0]) ==> w != []
  {
    if s == "" then []
    else if IsBlank(s[0]) then Words(s[1..])
    else if |s| == 1 || IsBlank(s[1]) then [[s[0]]] + Words(s[1..])
    else var rest := Words(s[1..]); [[s[0]] + rest[0]] + rest[1..]
  }

  function Fields(line: string): seq<string> { Words(BeforeComment(line)) }

  /** The line names this host. */
  predicate Gives(line: string, name: string) {
    var f := Fields(line);
    f != [] && name in f[1..]
  }

  /** The line is an entry of the node. */
  predicate IsEntry(line: string, node: NodeInfo) {
    Gives(line, node.name) && Fields(line)[0] == node.ip
  }

  predicate HasEntry(lines: seq<string>, node: NodeInfo) {
    exists l <- lines :: IsEntry(l, node)
  }

  /** One field's worth of text. */
  predicate Plain(s: string) {
    s != "" && forall ch <- s :: !IsBlank(ch) && ch != '#'
  }

  /** Nodes as BuildNodeInfo lists them. */
  predicate Listed(n: seq<NodeInfo>) {
    && (forall i | 0 <= i < |n| :: Plain(n[i].name) && Plain(n[i].ip) && !n[i].seen)
    && forall i, j | 0 <= i < j < |n| :: n[i].name != n[j].name
  }

  // ------------------------------------------------------------ fields of the added line

  lemma {:induction false} CommentCut(a: string, b: string)
    requires '#' !in a
    ensures BeforeComment(a + b) == a + BeforeComment(b)
  {
    if a == "" {
      assert a + b == b;
    } else {
      assert (a + b)[1..] == a[1..] + b;
      CommentCut(a[1..], b);
    }
  }

  lemma {:induction false} WordThenBlank(a: string, b: string)
    requires Plain(a) && (b == "" || IsBlank(b[0]))
    ensures Words(a + b) == [a] + Words(b)
  {
    assert (a + b)[1..] == a[1..] + b;
    assert !IsBlank(a[0]) by { assert a[0] in a; }
    if |a| == 1 {
      assert a[1..] + b == b && [a[0]] == a;
    } else {
      assert Plain(a[1..]) by { assert forall ch <- a[1..] :: ch in a; }
      WordThenBlank(a[1..], b);
      assert !IsBlank((a + b)[1]) by { assert a[1] in a; }
      assert [a[0]] + a[1..] == a;
    }
  }

  lemma AddedLineFields(node: NodeInfo)
    requires Plain(node.name) && Plain(node.ip)
    ensures Fields(AddedLine(node)) == [node.ip, node.name]
  {
    var kept := node.ip + " " + node.name + "  ";
    assert AddedLine(node) == kept + "#[+]";
    CommentCut(kept, "#[+]");
    assert BeforeComment("#[+]") == "";
    assert kept + "" == kept;
    assert kept == node.ip + (" " + node.name + "  ");
    WordThenBlank(node.ip, " " + node.name + "  ");
    assert (" " + node.name + "  ")[1..] == node.name + "  ";
    WordThenBlank(node.name, "  ");
    assert "  "[1..] == " " && " "[1..] == "";
    assert Words("  ") == [];
  }

  /** An added line is the entry of its own node and of no other. */
  lemma AddedLineEntry(n: seq<NodeInfo>, i: nat, j: nat)
    requires Listed(n) && i < |n| && j < |n|
    ensures IsEntry(AddedLine(n[i]), n[j]) <==> i == j
  {
    hide Words, BeforeComment, Plain;
    AddedLineFields(n[i]);
    assert Fields(AddedLine(n[i]))[1..] == [n[i].name];
  }

  lemma CommentIsNoEntry(line: string)
    requires "#" <= line
    ensures Fields(line) == []
  {
  }

  // ------------------------------------------------------------ lines of the output

  lemma {:induction false} BodyComesFrom(lines: seq<string>, n: seq<NodeInfo>, l: string)
    requires l in Body(lines, n)
    ensures exists m <- lines :: !IsAdded(m) && l == EditedLine(m, n)
  {
    if IsAdded(lines[0]) || l != EditedLine(lines[0], n) {
      BodyComesFrom(lines[1..], n, l);
      assert forall m <- lines[1..] :: m in lines;
    } else {
      assert lines[0] in lines;
    }
  }

  lemma {:induction false} AdditionsComeFrom(n: seq<NodeInfo>, l: string) returns (i: nat)
    requires l in Additions(n)
    ensures i < |n| && !n[i].seen && l == AddedLine(n[i])
  {
    if n[0].seen || l != AddedLine(n[0]) {
      i := AdditionsComeFrom(n[1..], l);
      i := i + 1;
    } else {
      i := 0;
    }
  }

  /** An old line, not an addition, that is an entry and is left active. */
  predicate Keeps(lines: seq<string>, n: seq<NodeInfo>, i: nat)
    requires i < |n|
  {
    exists l <- lines :: !IsAdded(l) && !Outdated(l, n) && IsEntry(l, n[i])
  }

  lemma BodyHasEntry(lines: seq<string>, n: seq<NodeInfo>, i: nat)
    requires i < |n|
    ensures HasEntry(Body(lines, n), n[i]) <==> Keeps(lines, n, i)
  {
    hide Fields, IsStale, Outdated;
    forall l <- lines | !IsAdded(l) ensures Outdated(l, n) <==> IsStale(l, n) { OutdatedIsStale(l, n); }
    if Keeps(lines, n, i) {
      var l :| l in lines && !IsAdded(l) && !Outdated(l, n) && IsEntry(l, n[i]);
      KeptLineSurvives(lines, n, l);
    }
    if HasEntry(Body(lines, n), n[i]) {
      var l :| l in Body(lines, n) && IsEntry(l, n[i]);
      BodyComesFrom(lines, n, l);
      var m :| m in lines && !IsAdded(m) && l == EditedLine(m, n);
      if IsStale(m, n) { CommentIsNoEntry(REMOVED + m); }
    }
  }

  lemma AdditionsHaveEntry(lines: seq<string>, n: seq<NodeInfo>, i: nat)
    requires Listed(n) && i < |n|
    ensures HasEntry(Additions(Marked(lines, n)), n[i]) <==> !SeenIn(lines, n, i)
  {
    hide Fields, SeenIn, Plain;
    var m := Marked(lines, n);
    if !SeenIn(lines, n, i) {
      AdditionsHold(m, i);
      AddedLineEntry(n, i, i);
      assert AddedLine(m[i]) == AddedLine(n[i]);
    }
    if HasEntry(Additions(m), n[i]) {
      var l :| l in Additions(m) && IsEntry(l, n[i]);
      var j := AdditionsComeFrom(m, l);
      AddedLineEntry(n, j, i);
    }
  }

  /** A node has an active entry in the output if and only if no old line covers it, or some old
      line is its entry and is left active. */
  lemma NodeHasEntry(lines: seq<string>, n: seq<NodeInfo>, i: nat)
    requires Listed(n) && i < |n|
    ensures HasEntry(UpdatedLines(lines, n), n[i]) <==> !Covered(lines, n, i) || Keeps(lines, n, i)
  {
    CoveredIsSeen(lines, n, i);
    hide IsEntry, SeenIn, Covered, Keeps;
    BodyHasEntry(lines, n, i);
    AdditionsHaveEntry(lines, n, i);
    var b, a := Body(lines, n), Additions(Marked(lines, n));
    assert forall l :: l in b + a <==> l in b || l in a;
  }

  /** So every listed node has one exactly if this is so for each of them. */
  lemma EveryNodeHasEntry(lines: seq<string>, n: seq<NodeInfo>)
    requires Listed(n)
    ensures (forall i | 0 <= i < |n| :: HasEntry(UpdatedLines(lines, n), n[i])) <==>
              forall i | 0 <= i < |n| :: !Covered(lines, n, i) || Keeps(lines, n, i)
  {
    hide HasEntry, Covered, Keeps;
    forall i | 0 <= i < |n|
      ensures HasEntry(UpdatedLines(lines, n), n[i]) <==> !Covered(lines, n, i) || Keeps(lines, n, i)
    {
      NodeHasEntry(lines, n, i);
    }
  }

  // ------------------------------------------------------------ lines of other hosts

  /** Old line k is not left as it was. */
  predicate CommentedOut(lines: seq<string>, n: seq<NodeInfo>, k: nat)
    requires k < |Kept(lines)| && |Body(lines, n)| == |Kept(lines)|
  {
    UpdatedLines(lines, n)[k] != Kept(lines)[k]
  }

  /** The line is active, holds the name of its first match only inside other text, and not
      that node's address. */
  predicate Mistaken(line: string, n: seq<NodeInfo>) {
    var j := FirstMatch(line, n);
    !("#" <= line) && j >= 0 && !Contains(line, n[j].ip) && !Gives(line, n[j].name)
  }

  lemma CommentedOutIsStale(lines: seq<string>, n: seq<NodeInfo>, k: nat)
    requires k < |Kept(lines)|
    ensures |Body(lines, n)| == |Kept(lines)|
    ensures CommentedOut(lines, n, k) <==> IsStale(Kept(lines)[k], n)
    ensures CommentedOut(lines, n, k) ==> UpdatedLines(lines, n)[k] == REMOVED + Kept(lines)[k]
  {
    BodyShape(lines, n);
    assert UpdatedLines(lines, n)[k] == EditedLine(Kept(lines)[k], n);
    assert |REMOVED + Kept(lines)[k]| > |Kept(lines)[k]|;
  }

  /** The line names the host it is matched with. */
  predicate GivesMatch(line: string, n: seq<NodeInfo>) {
    var j := FirstMatch(line, n);
    j >= 0 && Gives(line, n[j].name)
  }

  /** The line names none of the nodes. */
  predicate Foreign(line: string, n: seq<NodeInfo>) {
    forall i | 0 <= i < |n| :: !Gives(line, n[i].name)
  }

  lemma {:induction false} KeptHolds(lines: seq<string>, l: string) returns (k: nat)
    requires l in lines && !IsAdded(l)
    ensures k < |Kept(lines)| && Kept(lines)[k] == l
  {
    if lines[0] == l {
      k := 0;
    } else {
      k := KeptHolds(lines[1..], l);
      if !IsAdded(lines[0]) { k := k + 1; }
    }
  }

  /** Only lines that name the host they are matched with are commented out, if and only if no
      old line is mistaken for one. */
  lemma OnlyEntriesAreCommentedOut(lines: seq<string>, n: seq<NodeInfo>)
    ensures |Body(lines, n)| == |Kept(lines)|
    ensures (forall k: nat | k < |Kept(lines)| && CommentedOut(lines, n, k) :: GivesMatch(Kept(lines)[k], n)) <==>
              forall l <- lines :: IsAdded(l) || !Mistaken(l, n)
  {
    BodyShape(lines, n);
    KeptComesFrom(lines);
    hide Fields, Gives;
    forall k: nat | k < |Kept(lines)| ensures CommentedOut(lines, n, k) <==> IsStale(Kept(lines)[k], n) {
      CommentedOutIsStale(lines, n, k);
    }
    if l :| l in lines && !IsAdded(l) && Mistaken(l, n) {
      var k := KeptHolds(lines, l);
      assert CommentedOut(lines, n, k) && !GivesMatch(Kept(lines)[k], n);
    }
  }

  /** And no line of another host is commented out, if and only if no active one holds the name
      of a node inside its text without holding the address of the first such node. */
  lemma OtherHostsAreLeftAlone(lines: seq<string>, n: seq<NodeInfo>)
    ensures |Body(lines, n)| == |Kept(lines)|
    ensures (forall k: nat | k < |Kept(lines)| && Foreign(Kept(lines)[k], n) :: !CommentedOut(lines, n, k)) <==>
              forall l <- lines :: IsAdded(l) || !Foreign(l, n) || !Outdated(l, n)
  {
    BodyShape(lines, n);
    KeptComesFrom(lines);
    hide Fields, Gives, Foreign, IsStale, Outdated;
    forall l | l in lines && !IsAdded(l) ensures Outdated(l, n) <==> IsStale(l, n) { OutdatedIsStale(l, n); }
    forall k: nat | k < |Kept(lines)| ensures CommentedOut(lines, n, k) <==> IsStale(Kept(lines)[k], n) {
      CommentedOutIsStale(lines, n, k);
    }
    if l :| l in lines && !IsAdded(l) && Foreign(l, n) && IsStale(l, n) {
      var k := KeptHolds(lines, l);
      assert CommentedOut(lines, n, k);
    }
  }

  lemma PlainJoin(a: string, b: string)
    requires (a == "" || Plain(a)) && (b == "" || Plain(b)) && a + b != ""
    ensures Plain(a + b)
  {
  }

  /** So it goes for the line of any host whose name is longer than a node's and holds it, as
      "localhost" holds "host": unless the node's address happens to occur in it, the line is
      commented out, though it names no node. */
  lemma LongerNameIsCommentedOut(addr: string, pre: string, node: NodeInfo, post: string)
    requires Plain(addr) && Listed([node]) && (pre == "" || Plain(pre)) && (post == "" || Plain(post))
               && pre + post != ""
    requires !Contains(addr + " " + (pre + node.name + post), node.ip)
    ensures var line := addr + " " + (pre + node.name + post);
            Foreign(line, [node]) && UpdatedLines([line], [node]) == [REMOVED + line, AddedLine(node)]
  {
    hide Words, BeforeComment;
    var n, name := [node], pre + node.name + post;
    var line := addr + " " + name;
    assert n[0] == node;
    PlainJoin(pre, node.name);
    PlainJoin(pre + node.name, post);
    EntryFields(addr, name);
    assert |name| > |node.name|;
    assert Foreign(line, n);
    Regroup(addr + " ", pre, node.name, post);
    ContainsInside(addr + " " + pre, node.name, post);
    assert FirstMatch(line, n) == 0;
    hide Contains, Fields, UpdatedLines;
    OneStaleLine(line, node);
  }

  lemma OneStaleLine(line: string, node: NodeInfo)
    requires IsStale(line, [node]) && !IsAdded(line) && !node.seen
    ensures UpdatedLines([line], [node]) == [REMOVED + line, AddedLine(node)]
  {
    hide Contains, IsAdded, FirstMatch;
    var lines, n := [line], [node];
    assert forall m <- lines :: m == line;
    assert !SeenIn(lines, n, 0);
    assert Marked(lines, n) == n;
    assert lines[1..] == [] && n[1..] == [];
    assert Body(lines, n) == [REMOVED + line] && Additions(n) == [AddedLine(node)];
  }

  lemma HashIn(line: string)
    requires '#' !in line
    ensures !IsAdded(line) && !("#" <= line)
  {
    if IsAdded(line) { AddedHasHash(line); }
    if "#" <= line { StartsWithHash(line); }
  }

  lemma AddedHasHash(line: string)
    requires IsAdded(line)
    ensures '#' in line
  {
    assert line[|line| - 6..][2] == ADDED[2] == '#';
    assert line[|line| - 4] == '#';
  }

  lemma StartsWithHash(line: string)
    requires "#" <= line
    ensures '#' in line
  {
    assert line[0] == "#"[0] == '#';
  }

  lemma Regroup(a: string, b: string, c: string, d: string)
    ensures a + (b + c + d) == (a + b) + c + d
  {
  }

  lemma EntryFields(addr: string, name: string)
    requires Plain(addr) && Plain(name)
    ensures var line := addr + " " + name;
            Fields(line) == [addr, name] && !("#" <= line) && !IsAdded(line)
  {
    var line := addr + " " + name;
    assert '#' !in line;
    assert Words("") == [] && BeforeComment("") == "" && Words(" " + name) == Words((" " + name)[1..]);
    hide Words, BeforeComment;
    CommentCut(line, "");
    assert line + "" == line == addr + (" " + name);
    WordThenBlank(addr, " " + name);
    assert (" " + name)[1..] == name + "";
    WordThenBlank(name, "");
    HashIn(line);
  }
}
