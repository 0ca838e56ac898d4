/** The /etc/resolv.conf edit made by "prepare" (prepare.go). */
module ResolvConf {
  import opened Text
  import opened Tags

  const NAMESERVER := "nameserver"

  predicate NamesServer(line: string) { NAMESERVER <= line }

  /** Some surviving line already names a server. */
  predicate HasServer(lines: seq<string>) {
    exists l <- lines :: !IsAdded(l) && NamesServer(l)
  }

  function ServerLine(ns: string): string {
    "nameserver " + ns + ADDED
  }

  /** What one line becomes; `first` says no server line came before it. */
  function Chunk(line: string, ns: string, first: bool): seq<string> {
    if IsAdded(line) then []
    else if !NamesServer(line) then [line]
    else if first then (if Contains(line, ns) then [line] else [ServerLine(ns), line])
    else (if Contains(line, ns) then [REMOVED + line] else [line])
  }

  function Body(lines: seq<string>, ns: string): seq<string> {
    if lines == [] then []
    else
      var init := lines[..|lines| - 1];
      Body(init, ns) + Chunk(lines[|lines| - 1], ns, !HasServer(init))
  }

  function UpdatedLines(lines: seq<string>, ns: string): seq<string> {
    if HasServer(lines) then Body(lines, ns) else Body(lines, ns) + [ServerLine(ns)]
  }

  function Updated(contents: string, ns: string): string {
    Print(UpdatedLines(Lines(contents), ns))
  }

  lemma BodySnoc(lines: seq<string>, line: string, ns: string)
    ensures Body(lines + [line], ns) == Body(lines, ns) + Chunk(line, ns, !HasServer(lines))
    ensures HasServer(lines + [line]) == (HasServer(lines) || (!IsAdded(line) && NamesServer(line)))
  {
    assert (lines + [line])[..|lines|] == lines;
  }

  /** One line's output as text. */
  function ChunkText(line: string, ns: string, first: bool): string {
    if IsAdded(line) then ""
    else if !NamesServer(line) then line + "\n"
    else if first && !Contains(line, ns) then (ServerLine(ns) + "\n") + (line + "\n")
    else if !first && Contains(line, ns) then REMOVED + (line + "\n")
    else line + "\n"
  }

  lemma PrintChunk(line: string, ns: string, first: bool)
    ensures Print(Chunk(line, ns, first)) == ChunkText(line, ns, first)
  {
    PrintOne(line);
    PrintOne(REMOVED + line);
    PrintOne(ServerLine(ns));
    assert [ServerLine(ns), line] == [ServerLine(ns)] + [line];
    PrintConcat([ServerLine(ns)], [line]);
  }

  /** One turn of the loop below: what is written for one line, and the `first` flag after it. */
  method WriteLine(line: string, ns: string, first: bool, before: string) returns (output: string, stillFirst: bool)
    ensures output == before + ChunkText(line, ns, first)
    ensures stillFirst == (first && (IsAdded(line) || !NamesServer(line)))
  {
    output, stillFirst := before, first;
    if HasSuffix(line, "  #[+]") {
      return;
    }
    if "nameserver" <= line {
      var matches := Contains(line, ns);
      if first && !matches {
        output := output + ("nameserver " + ns + "  #[+]" + "\n");
        WrittenInParts(before, ServerLine(ns) + "\n", line + "\n");
      } else if !first && matches {
        output := output + "#[-] ";
        WrittenInParts(before, REMOVED, line + "\n");
      }
      if first {
        stillFirst := false;
      }
    }
    output := output + (line + "\n");
  }

  method UpdateResolvConfInfo(contents: string, ns: string) returns (output: string)
    ensures output == Updated(contents, ns)
  {
    hide Lines, Contains, ChunkText, Print, Body, HasServer, IsAdded;
    var lines := Lines(contents);
    output := "";
    var first := true;
    NothingWritten(lines, ns);
    for k := 0 to |lines|
      invariant first == !HasServer(lines[..k])
      invariant output == Print(Body(lines[..k], ns))
    {
      PrintStep(lines, k, ns);
      output, first := WriteLine(lines[k], ns, first, output);
    }
    assert lines[..|lines|] == lines;
    if first {
      PrintConcat(Body(lines, ns), [ServerLine(ns)]);
      PrintOne(ServerLine(ns));
      output := output + ("nameserver " + ns + "  #[+]" + "\n");
    }
  }

  lemma NothingWritten(lines: seq<string>, ns: string)
    ensures !HasServer(lines[..0]) && Print(Body(lines[..0], ns)) == ""
  {
  }

  lemma WrittenInParts(before: string, a: string, b: string)
    ensures before + a + b == before + (a + b)
  {
  }

  lemma PrintStep(lines: seq<string>, k: nat, ns: string)
    requires k < |lines|
    ensures HasServer(lines[..k + 1]) == (HasServer(lines[..k]) || (!IsAdded(lines[k]) && NamesServer(lines[k])))
    ensures Print(Body(lines[..k + 1], ns))
         == Print(Body(lines[..k], ns)) + ChunkText(lines[k], ns, !HasServer(lines[..k]))
  {
    var line, first := lines[k], !HasServer(lines[..k]);
    assert lines[..k + 1] == lines[..k] + [line];
    BodySnoc(lines[..k], line, ns);
    PrintConcat(Body(lines[..k], ns), Chunk(line, ns, first));
    PrintChunk(line, ns, first);
  }

  // ------------------------------------------------------------ what the edit keeps

  lemma ServerLineFacts(ns: string)
    ensures IsAdded(ServerLine(ns)) && ServerLine(ns) != HIDDEN && ServerLine(ns) != ""
    ensures NamesServer(ServerLine(ns)) && Contains(ServerLine(ns), ns)
    ensures '\n' !in ns ==> '\n' !in ServerLine(ns)
  {
    var l := ServerLine(ns);
    assert l == ("nameserver " + ns) + ADDED;
    ContainsInside("nameserver ", ns, ADDED);
  }

  lemma TaggedServerFacts(line: string)
    requires NamesServer(line) && !IsAdded(line)
    ensures var t := REMOVED + line;
            && !IsAdded(t) && !NamesServer(t) && t != HIDDEN && t != ""
            && TrimPrefix(t, REMOVED) == line && TrimPrefix(line, REMOVED) == line
  {
    TagRoundTrip(line);
    assert line[0] == 'n';
    assert (REMOVED + line)[5] == 'n';
  }

  lemma ServerThenLineReverts(line: string, ns: string)
    ensures RevertedLines([ServerLine(ns), line]) == RevertedLines([line])
  {
    ServerLineFacts(ns);
    RevertAdditions([ServerLine(ns)]);
    RevertedConcat([ServerLine(ns)], [line]);
    assert [ServerLine(ns), line] == [ServerLine(ns)] + [line];
  }

  /** What a revert makes of one line's output. */
  lemma ChunkReverts(line: string, ns: string, first: bool)
    requires line != HIDDEN
    ensures RevertedLines(Chunk(line, ns, first)) == RevertedLines([line])
    ensures HIDDEN !in Chunk(line, ns, first)
  {
    RevertOne(line);
    if IsAdded(line) {
      StripKeepsAdded(line);
    } else if NamesServer(line) {
      if first {
        ServerThenLineReverts(line, ns);
        ServerLineFacts(ns);
      } else {
        TaggedServerFacts(line);
        RevertOne(REMOVED + line);
      }
    }
  }

  lemma ChunkUnbroken(line: string, ns: string, first: bool)
    requires '\n' !in line && '\n' !in ns
    ensures Unbroken(Chunk(line, ns, first))
  {
    ServerLineFacts(ns);
  }

  lemma {:induction false} BodyReverts(lines: seq<string>, ns: string)
    requires HIDDEN !in lines
    ensures RevertedLines(Body(lines, ns)) == RevertedLines(lines)
    ensures HIDDEN !in Body(lines, ns)
    ensures Unbroken(lines) && '\n' !in ns ==> Unbroken(Body(lines, ns))
  {
    if lines != [] {
      var init, last := lines[..|lines| - 1], lines[|lines| - 1];
      assert lines == init + [last];
      BodyReverts(init, ns);
      ChunkReverts(last, ns, !HasServer(init));
      if '\n' !in last && '\n' !in ns { ChunkUnbroken(last, ns, !HasServer(init)); }
      RevertedConcat(Body(init, ns), Chunk(last, ns, !HasServer(init)));
      RevertedConcat(init, [last]);
    }
  }

  /** A second pass over one line's output, in the same position, leaves it alone. */
  lemma ChunkTwice(b: seq<string>, line: string, ns: string)
    ensures var c := Chunk(line, ns, !HasServer(b));
            && Body(b + c, ns) == Body(b, ns) + c
            && HasServer(b + c) == (HasServer(b) || (!IsAdded(line) && NamesServer(line)))
  {
    var first := !HasServer(b);
    if IsAdded(line) {
      assert b + [] == b;
    } else if !NamesServer(line) || Contains(line, ns) == first {
      BodySnoc(b, line, ns);
    } else if first {
      ServerLineFacts(ns);
      BodySnoc(b, ServerLine(ns), ns);
      BodySnoc(b + [ServerLine(ns)], line, ns);
      assert b + [ServerLine(ns), line] == b + [ServerLine(ns)] + [line];
    } else if Contains(line, ns) {
      TaggedServerFacts(line);
      BodySnoc(b, REMOVED + line, ns);
    } else {
      BodySnoc(b, line, ns);
    }
  }

  /** Editing the edited lines again changes nothing. */
  lemma {:induction false} BodyTwice(lines: seq<string>, ns: string)
    ensures Body(Body(lines, ns), ns) == Body(lines, ns)
    ensures HasServer(Body(lines, ns)) == HasServer(lines)
  {
    if lines != [] {
      var init, last := lines[..|lines| - 1], lines[|lines| - 1];
      assert lines == init + [last];
      BodyTwice(init, ns);
      BodySnoc(init, last, ns);
      ChunkTwice(Body(init, ns), last, ns);
    }
  }

  /** Edited lines of normal input are normal. */
  lemma ChunkNormal(line: string, ns: string, first: bool)
    requires !IsAdded(line)
    ensures line == "" ==> Chunk(line, ns, first) == [""]
    ensures line != "" ==> Chunk(line, ns, first) != [] && Chunk(line, ns, first)[|Chunk(line, ns, first)| - 1] != ""
  {
    ServerLineFacts(ns);
  }

  lemma {:induction false} BodyNormal(lines: seq<string>, ns: string)
    requires IsNormal(Kept(lines))
    ensures IsNormal(Body(lines, ns))
  {
    var init, last := lines[..|lines| - 1], lines[|lines| - 1];
    assert lines == init + [last];
    KeptConcat(init, [last]);
    if IsAdded(last) {
      assert Kept([last]) == [];
      BodyNormal(init, ns);
    } else {
      assert Kept([last]) == [last];
      ChunkNormal(last, ns, !HasServer(init));
      hide Chunk, HasServer, IsAdded;
      if last == "" { BlankBody(init, ns); }
    }
  }

  lemma BlankBody(init: seq<string>, ns: string)
    requires IsNormal(Kept(init) + [""])
    ensures Body(init, ns) == []
  {
    assert Kept(init) == [];
    BodyOfNothing(init, ns);
  }

  lemma {:induction false} BodyOfNothing(lines: seq<string>, ns: string)
    requires Kept(lines) == []
    ensures Body(lines, ns) == []
  {
    if lines != [] {
      var init, last := lines[..|lines| - 1], lines[|lines| - 1];
      assert lines == init + [last];
      KeptConcat(init, [last]);
      BodyOfNothing(init, ns);
    }
  }

  lemma UpdatedLinesFacts(lines: seq<string>, ns: string)
    requires HIDDEN !in lines
    ensures HIDDEN !in UpdatedLines(lines, ns)
    ensures RevertedLines(UpdatedLines(lines, ns)) == RevertedLines(lines)
    ensures UpdatedLines(UpdatedLines(lines, ns), ns) == UpdatedLines(lines, ns)
  {
    BodyReverts(lines, ns);
    BodyTwice(lines, ns);
    ServerLineFacts(ns);
    if !HasServer(lines) {
      RevertedConcat(Body(lines, ns), [ServerLine(ns)]);
      RevertAdditions([ServerLine(ns)]);
      BodySnoc(Body(lines, ns), ServerLine(ns), ns);
    }
  }

  /** One resolv.conf update of a managed file: it stays managed, stands for the same
      original lines, and a second update with the same server changes no byte. */
  lemma UpdateKeepsManaged(contents: string, ns: string)
    requires Managed(contents) && '\n' !in ns
    ensures Managed(Updated(contents, ns))
    ensures Lines(Updated(contents, ns)) == UpdatedLines(Lines(contents), ns)
    ensures RevertedLines(Lines(Updated(contents, ns))) == RevertedLines(Lines(contents))
    ensures Updated(Updated(contents, ns), ns) == Updated(contents, ns)
  {
    var ls := Lines(contents);
    LinesAreNormal(contents);
    ManagedKeptNormal(contents);
    BodyNormal(ls, ns);
    BodyReverts(ls, ns);
    ServerLineFacts(ns);
    LinesOfPrint(UpdatedLines(ls, ns));
    UpdatedLinesFacts(ls, ns);
  }

  // ------------------------------------------------------------ the resolver's view

  /** The first line naming a server is at `k` and holds `ns`; no later one does. */
  ghost predicate ServesFirst(lines: seq<string>, ns: string, k: nat) {
    && k < |lines|
    && NamesServer(lines[k]) && Contains(lines[k], ns)
    && (forall j | 0 <= j < k :: !NamesServer(lines[j]))
    && (forall j | k < j < |lines| :: NamesServer(lines[j]) ==> !Contains(lines[j], ns))
  }

  lemma {:induction false} BodyServesFirst(lines: seq<string>, ns: string) returns (k: nat)
    ensures HasServer(lines) ==> ServesFirst(Body(lines, ns), ns, k)
    ensures !HasServer(lines) ==> forall l <- Body(lines, ns) :: !NamesServer(l)
  {
    k := 0;
    if lines != [] {
      var init, last := lines[..|lines| - 1], lines[|lines| - 1];
      assert lines == init + [last];
      k := BodyServesFirst(init, ns);
      BodySnoc(init, last, ns);
      var a, c := Body(init, ns), Chunk(last, ns, !HasServer(init));
      if HasServer(init) {
        LaterServersDiffer(last, ns);
        ServesBefore(a, c, ns, k);
      } else if !IsAdded(last) && NamesServer(last) {
        k := |a|;
        FirstServerChunk(last, ns);
        ServesAfter(a, c, ns);
      }
    }
  }

  lemma LaterServersDiffer(line: string, ns: string)
    ensures forall l <- Chunk(line, ns, false) :: NamesServer(l) ==> !Contains(l, ns)
  {
    if NamesServer(line) && !IsAdded(line) { TaggedServerFacts(line); }
  }

  lemma FirstServerChunk(line: string, ns: string)
    requires !IsAdded(line) && NamesServer(line)
    ensures ServesFirst(Chunk(line, ns, true), ns, 0)
  {
    ServerLineFacts(ns);
  }

  lemma ServesBefore(a: seq<string>, c: seq<string>, ns: string, k: nat)
    requires ServesFirst(a, ns, k) && forall l <- c :: NamesServer(l) ==> !Contains(l, ns)
    ensures ServesFirst(a + c, ns, k)
  {
  }

  lemma ServesAfter(a: seq<string>, c: seq<string>, ns: string)
    requires ServesFirst(c, ns, 0) && forall l <- a :: !NamesServer(l)
    ensures ServesFirst(a + c, ns, |a|)
  {
  }

  /** In the updated file the first server line holds the cluster's server, and no later one does. */
  lemma ClusterServerComesFirst(lines: seq<string>, ns: string)
    ensures exists k :: ServesFirst(UpdatedLines(lines, ns), ns, k)
  {
    var k := BodyServesFirst(lines, ns);
    ServerLineFacts(ns);
    if HasServer(lines) {
      assert ServesFirst(UpdatedLines(lines, ns), ns, k);
    } else {
      assert ServesFirst(UpdatedLines(lines, ns), ns, |Body(lines, ns)|);
    }
  }

  // ------------------------------------------------------------ line by line

  /** The first line that starts with "nameserver", or the number of lines. */
  function FirstServer(lines: seq<string>): (k: nat)
    ensures k <= |lines|
    ensures k < |lines| ==> "nameserver" <= lines[k]
    ensures forall j | 0 <= j < k :: !("nameserver" <= lines[j])
  {
    if lines == [] || "nameserver" <= lines[0] then 0 else 1 + FirstServer(lines[1..])
  }

  /** Line k of an updated file, additions aside: behind the removal tag if it holds the server
      and an earlier line starts with "nameserver" as well. */
  function LineAt(was: seq<string>, ns: string, k: nat): string
    requires k < |was|
  {
    if "nameserver" <= was[k] && Contains(was[k], ns) && FirstServer(was) < k then "#[-] " + was[k] else was[k]
  }

  function Tagged(was: seq<string>, ns: string): seq<string> {
    seq(|was|, k requires 0 <= k < |was| => LineAt(was, ns, k))
  }

  /** Lines with one more put in front of line k. */
  function PutIn(lines: seq<string>, k: nat, l: string): seq<string>
    requires k <= |lines|
  {
    lines[..k] + [l] + lines[k..]
  }

  lemma FirstServerSnoc(was: seq<string>, line: string)
    ensures FirstServer(was + [line]) ==
            if FirstServer(was) < |was| || "nameserver" <= line then FirstServer(was) else |was| + 1
  {
    var k, m := FirstServer(was), FirstServer(was + [line]);
    assert forall j | 0 <= j < |was| :: (was + [line])[j] == was[j];
    assert (was + [line])[|was|] == line;
  }

  lemma TaggedSnoc(was: seq<string>, line: string, ns: string)
    ensures Tagged(was + [line], ns) == Tagged(was, ns) + [LineAt(was + [line], ns, |was|)]
  {
    hide Contains, FirstServer;
    FirstServerSnoc(was, line);
  }

  lemma HasServerKept(lines: seq<string>)
    ensures HasServer(lines) <==> FirstServer(Kept(lines)) < |Kept(lines)|
  {
    hide FirstServer, IsAdded;
    var was := Kept(lines);
    KeptComesFrom(lines);
    if l :| l in lines && !IsAdded(l) && NamesServer(l) {
      KeptHas(lines, l);
      var k :| 0 <= k < |was| && was[k] == l;
      assert "nameserver" <= was[k];
    }
    if FirstServer(was) < |was| { assert was[FirstServer(was)] in was; }
  }

  /** What the edit makes of the lines, but for the line it may add at the very end. */
  function Expected(was: seq<string>, ns: string): seq<string> {
    var k := FirstServer(was);
    if k == |was| || Contains(was[k], ns) then Tagged(was, ns)
    else PutIn(Tagged(was, ns), k, ServerLine(ns))
  }

  lemma PutInSnoc(t: seq<string>, x: string, k: nat, l: string)
    requires k <= |t|
    ensures PutIn(t + [x], k, l) == PutIn(t, k, l) + [x]
    ensures k == |t| ==> PutIn(t + [x], k, l) == t + [l, x] && PutIn(t, k, l) == t + [l]
  {
    assert (t + [x])[..k] == t[..k] && (t + [x])[k..] == t[k..] + [x];
    assert k == |t| ==> t[..k] == t && t[k..] == [];
  }

  lemma LaterStep(was: seq<string>, now: seq<string>, x: string, ns: string)
    requires FirstServer(was) < |was| < |now| && FirstServer(now) == FirstServer(was)
    requires now[FirstServer(was)] == was[FirstServer(was)] && Tagged(now, ns) == Tagged(was, ns) + [x]
    ensures Expected(now, ns) == Expected(was, ns) + [x]
  {
    hide Contains, FirstServer, Tagged, PutIn, ServerLine;
    TaggedLength(was, ns);
    TaggedLength(now, ns);
    PutInSnoc(Tagged(was, ns), x, FirstServer(was), ServerLine(ns));
  }

  lemma LaterSnoc(was: seq<string>, line: string, ns: string)
    requires !IsAdded(line) && FirstServer(was) < |was|
    ensures Expected(was + [line], ns) == Expected(was, ns) + Chunk(line, ns, false)
  {
    hide Contains, FirstServer, IsAdded, Tagged, LineAt, Expected;
    LastLine(was, line, ns);
    FirstServerSnoc(was, line);
    TaggedSnoc(was, line, ns);
    LaterStep(was, was + [line], LineAt(was + [line], ns, |was|), ns);
  }

  lemma FirstSnoc(was: seq<string>, line: string, ns: string)
    requires !IsAdded(line) && FirstServer(was) == |was|
    ensures Expected(was + [line], ns) == Expected(was, ns) + Chunk(line, ns, true)
  {
    var k, t := |was|, Tagged(was, ns);
    LastLine(was, line, ns);
    assert Chunk(line, ns, true) == if NamesServer(line) && !Contains(line, ns) then [ServerLine(ns), line] else [line];
    FirstServerSnoc(was, line);
    TaggedSnoc(was, line, ns);
    TaggedLength(was, ns);
    PutInSnoc(t, line, k, ServerLine(ns));
    assert (was + [line])[k] == line;
    hide Chunk, Contains, FirstServer, IsAdded, Tagged, PutIn, LineAt;
  }

  lemma ExpectedSnoc(was: seq<string>, line: string, ns: string)
    requires !IsAdded(line)
    ensures Expected(was + [line], ns) == Expected(was, ns) + Chunk(line, ns, FirstServer(was) == |was|)
  {
    hide *;
    if FirstServer(was) < |was| { LaterSnoc(was, line, ns); } else { FirstSnoc(was, line, ns); }
  }

  lemma LastLine(was: seq<string>, line: string, ns: string)
    ensures LineAt(was + [line], ns, |was|) ==
            if NamesServer(line) && Contains(line, ns) && FirstServer(was) < |was| then REMOVED + line else line
  {
    hide Contains, FirstServer;
    FirstServerSnoc(was, line);
    assert (was + [line])[|was|] == line;
  }

  lemma TaggedLength(was: seq<string>, ns: string)
    ensures |Tagged(was, ns)| == |was|
  {
  }

  lemma {:induction false} BodyIsExpected(lines: seq<string>, ns: string)
    ensures Body(lines, ns) == Expected(Kept(lines), ns)
  {
    hide Contains, IsAdded, FirstServer, Expected, Chunk, HasServer;
    if lines == [] {
      ExpectedOfNothing(ns);
    } else {
      var init, last := lines[..|lines| - 1], lines[|lines| - 1];
      assert lines == init + [last];
      BodyIsExpected(init, ns);
      KeptConcat(init, [last]);
      HasServerKept(init);
      if IsAdded(last) {
        AddedChunk(last, ns, !HasServer(init));
        assert Kept(init) + [] == Kept(init) && Body(init, ns) + [] == Body(init, ns);
      } else {
        assert Kept([last]) == [last];
        ExpectedSnoc(Kept(init), last, ns);
      }
    }
  }

  lemma ExpectedOfNothing(ns: string)
    ensures Expected([], ns) == []
  {
  }

  lemma AddedChunk(line: string, ns: string, first: bool)
    requires IsAdded(line)
    ensures Chunk(line, ns, first) == [] && Kept([line]) == []
  {
  }

  lemma KeptOfTagged(was: seq<string>, ns: string)
    requires forall l <- was :: !IsAdded(l)
    ensures forall l <- Tagged(was, ns) :: !IsAdded(l)
  {
    hide Contains;
    forall i | 0 <= i < |was| ensures !IsAdded(Tagged(was, ns)[i]) {
      assert was[i] in was;
      if NamesServer(was[i]) { TaggedServerFacts(was[i]); }
    }
  }

  lemma KeptPutIn(lines: seq<string>, k: nat, l: string)
    requires k <= |lines| && IsAdded(l) && forall m <- lines :: !IsAdded(m)
    ensures Kept(PutIn(lines, k, l)) == lines
  {
    assert Kept([l]) == [] by { assert [l][1..] == []; }
    hide IsAdded, Kept;
    KeptConcat(lines[..k] + [l], lines[k..]);
    KeptConcat(lines[..k], [l]);
    AllKept(lines[..k]);
    AllKept(lines[k..]);
    assert lines[..k] + [] == lines[..k] && lines[..k] + lines[k..] == lines;
  }

  /** With the line at the very end as well. */
  lemma UpdatedIs(lines: seq<string>, ns: string)
    ensures var was, k := Kept(lines), FirstServer(Kept(lines));
            UpdatedLines(lines, ns) ==
            if k < |was| && Contains(was[k], ns) then Tagged(was, ns) else PutIn(Tagged(was, ns), k, ServerLine(ns))
  {
    hide Contains, HasServer, FirstServer, Body, Kept, Tagged, PutIn, ServerLine;
    var was := Kept(lines);
    BodyIsExpected(lines, ns);
    HasServerKept(lines);
    TaggedLength(was, ns);
    PutInSnoc(Tagged(was, ns), "", FirstServer(was), ServerLine(ns));
  }

  /** The whole update, line by line. Additions aside, there is one line for each old one, in
      order; it is behind the removal tag exactly if it names the server after another server
      line. One line is added, in front of the first server line or else at the end, exactly if
      that line does not hold the server or does not exist. */
  lemma UpdatedLinesExactly(lines: seq<string>, ns: string)
    ensures var was, now := Kept(lines), Kept(UpdatedLines(lines, ns));
            var k := FirstServer(was);
            && |now| == |was|
            && (forall i | 0 <= i < |was| ::
                  now[i] == if "nameserver" <= was[i] && Contains(was[i], ns)
                    && k < i then "#[-] " + was[i] else was[i])
            && UpdatedLines(lines, ns) ==
               if k < |was| && Contains(was[k], ns) then now else PutIn(now, k, "nameserver " + ns + "  #[+]")
  {
    hide Contains, IsAdded, FirstServer, UpdatedLines, Kept, PutIn;
    var was := Kept(lines);
    var k, t := FirstServer(was), Tagged(was, ns);
    UpdatedIs(lines, ns);
    KeptComesFrom(lines);
    KeptOfTagged(was, ns);
    AllKept(t);
    ServerLineFacts(ns);
    KeptPutIn(t, k, ServerLine(ns));
  }
}
