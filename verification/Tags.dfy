/** The two tags the editors leave in /etc/hosts and /etc/resolv.conf, and the
    clean-up that undoes them (cleanup.go). */
module Tags {
  import opened Text

  const REMOVED := "#[-] "
  const ADDED := "  #[+]"

  /** The one line that starts to look like an addition once it is commented out ... */
  const LOOKALIKE := " #[+]"
  /** ... and what it then looks like. */
  const HIDDEN := "#[-]  #[+]"

  predicate IsAdded(line: string) { HasSuffix(line, ADDED) }

  /** Neither tag occurs: the file has not been edited. */
  predicate Untagged(lines: seq<string>) {
    forall l <- lines :: !IsAdded(l) && !(REMOVED <= l)
  }

  /** The lines left after dropping additions. */
  function Kept(lines: seq<string>): seq<string> {
    if lines == [] then []
    else if IsAdded(lines[0]) then Kept(lines[1..])
    else [lines[0]] + Kept(lines[1..])
  }

  /** The lines a revert produces: prefix tag stripped, then additions dropped. */
  function RevertedLines(lines: seq<string>): seq<string> {
    if lines == [] then []
    else
      var l := TrimPrefix(lines[0], REMOVED);
      if IsAdded(l) then RevertedLines(lines[1..]) else [l] + RevertedLines(lines[1..])
  }

  function Reverted(contents: string): string {
    Print(RevertedLines(Lines(contents)))
  }

  method RevertConfigInfo(contents: string) returns (output: string)
    ensures output == Reverted(contents)
  {
    var lines := Lines(contents);
    output := "";
    for i := 0 to |lines|
      invariant output == Print(RevertedLines(lines[..i]))
    {
      RevertedStep(lines, i);
      var line := TrimPrefix(lines[i], "#[-] ");
      if !HasSuffix(line, "  #[+]") {
        output := output + (line + "\n");
      }
    }
    assert lines[..|lines|] == lines;
  }

  lemma RevertedStep(lines: seq<string>, k: nat)
    requires k < |lines|
    ensures var l := TrimPrefix(lines[k], REMOVED);
            Print(RevertedLines(lines[..k + 1]))
              == Print(RevertedLines(lines[..k])) + (if IsAdded(l) then "" else l + "\n")
  {
    assert lines[..k + 1] == lines[..k] + [lines[k]];
    RevertedConcat(lines[..k], [lines[k]]);
    var l := TrimPrefix(lines[k], REMOVED);
    PrintConcat(RevertedLines(lines[..k]), RevertedLines([lines[k]]));
    assert RevertedLines([lines[k]]) == if IsAdded(l) then [] else [l];
    PrintOne(l);
  }

  /** A file is managed when reverting it gives untagged lines and no addition
      hides behind a removal tag: what prepare starts from and what it leaves. */
  predicate Managed(contents: string) {
    && HIDDEN !in Lines(contents)
    && Untagged(RevertedLines(Lines(contents)))
    && IsNormal(RevertedLines(Lines(contents)))
  }

  // ------------------------------------------------------------ line algebra

  lemma {:induction false} RevertedConcat(a: seq<string>, b: seq<string>)
    ensures RevertedLines(a + b) == RevertedLines(a) + RevertedLines(b)
  {
    if a == [] {
      assert a + b == b;
    } else {
      assert (a + b)[1..] == a[1..] + b;
      RevertedConcat(a[1..], b);
    }
  }

  lemma RevertOne(line: string)
    ensures RevertedLines([line]) ==
            (var l := TrimPrefix(line, REMOVED); if IsAdded(l) then [] else [l])
  {
    assert [line][1..] == [];
  }

  lemma {:induction false} KeptConcat(a: seq<string>, b: seq<string>)
    ensures Kept(a + b) == Kept(a) + Kept(b)
  {
    if a == [] {
      assert a + b == b;
    } else {
      assert (a + b)[1..] == a[1..] + b;
      KeptConcat(a[1..], b);
    }
  }

  /** Stripping the removal tag changes whether a line counts as added only for HIDDEN. */
  lemma StripKeepsAdded(line: string)
    requires line != HIDDEN
    ensures IsAdded(TrimPrefix(line, REMOVED)) <==> IsAdded(line)
  {
    if REMOVED <= line {
      var rest := line[5..];
      assert line == REMOVED + rest;
      if |rest| >= 6 {
        assert rest[|rest| - 6..] == line[|line| - 6..];
      }
      var tail := if |line| >= 6 then line[|line| - 6..] else "";
      assert 6 <= |line| <= 10 ==> tail[10 - |line|] == line[4] == ' ';
      assert 6 <= |line| <= 9 ==> tail[9 - |line|] == line[3] == ']';
    }
  }

  lemma TagRoundTrip(line: string)
    ensures TrimPrefix(REMOVED + line, REMOVED) == line
    ensures IsAdded(REMOVED + line) && !IsAdded(line) ==> line == LOOKALIKE
  {
    var t := REMOVED + line;
    assert t[5..] == line;
    if IsAdded(t) && !IsAdded(line) {
      if t != HIDDEN { StripKeepsAdded(t); }
      assert t[5..] == LOOKALIKE;
    }
  }

  /** Reverting an untagged list changes nothing. */
  lemma {:induction false} RevertUntagged(lines: seq<string>)
    requires Untagged(lines)
    ensures RevertedLines(lines) == lines
  {
    if lines != [] {
      assert lines[0] in lines;
      assert forall l <- lines[1..] :: l in lines;
      RevertUntagged(lines[1..]);
    }
  }

  /** Additions leave nothing behind. */
  lemma {:induction false} RevertAdditions(lines: seq<string>)
    requires forall l <- lines :: IsAdded(l) && l != HIDDEN
    ensures RevertedLines(lines) == [] && Kept(lines) == []
  {
    if lines != [] {
      assert lines[0] in lines;
      StripKeepsAdded(lines[0]);
      assert forall l <- lines[1..] :: l in lines;
      RevertAdditions(lines[1..]);
    }
  }

  lemma {:induction false} KeptComesFrom(lines: seq<string>)
    ensures forall l <- Kept(lines) :: l in lines && !IsAdded(l)
  {
    if lines != [] { KeptComesFrom(lines[1..]); }
  }

  lemma {:induction false} KeptHas(lines: seq<string>, l: string)
    requires l in lines && !IsAdded(l)
    ensures l in Kept(lines)
  {
    if l != lines[0] { KeptHas(lines[1..], l); }
  }

  lemma {:induction false} AllKept(lines: seq<string>)
    requires forall l <- lines :: !IsAdded(l)
    ensures Kept(lines) == lines
  {
    if lines != [] {
      assert lines[0] in lines && forall l <- lines[1..] :: l in lines;
      AllKept(lines[1..]);
    }
  }

  lemma {:induction false} RevertedComesFrom(lines: seq<string>)
    ensures forall r <- RevertedLines(lines) :: exists l <- lines :: r == TrimPrefix(l, REMOVED)
  {
    if lines != [] {
      assert lines == [lines[0]] + lines[1..];
      RevertedComesFrom(lines[1..]);
    }
  }

  /** Without HIDDEN, the kept lines are the reverted ones with some tags in front. */
  lemma {:induction false} KeptMatchesReverted(lines: seq<string>)
    requires HIDDEN !in lines
    ensures |Kept(lines)| == |RevertedLines(lines)|
    ensures forall k | 0 <= k < |Kept(lines)| ::
              TrimPrefix(Kept(lines)[k], REMOVED) == RevertedLines(lines)[k]
    ensures forall l <- Kept(lines) :: l in lines && !IsAdded(l)
  {
    if lines != [] {
      StripKeepsAdded(lines[0]);
      KeptMatchesReverted(lines[1..]);
    }
  }

  /** A list whose kept lines are in normal form, and which ends in a kept line or an addition. */
  lemma ManagedKeptNormal(contents: string)
    requires Managed(contents)
    ensures IsNormal(Kept(Lines(contents)))
  {
    var ls := Lines(contents);
    KeptMatchesReverted(ls);
    var k, r := Kept(ls), RevertedLines(ls);
    if |r| == 1 && r[0] == "" {
      assert k[0] == "" || k[0] == REMOVED;
    }
  }

  /** An untagged file is managed, and its reverted lines are its own. */
  lemma UntaggedIsManaged(contents: string)
    requires Untagged(Lines(contents))
    ensures Managed(contents) && RevertedLines(Lines(contents)) == Lines(contents)
  {
    RevertUntagged(Lines(contents));
    LinesAreNormal(contents);
  }

  /** Reverting a managed file is a fixed point, and restores exactly its underlying lines. */
  lemma RevertManaged(contents: string)
    requires Managed(contents)
    ensures Managed(Reverted(contents))
    ensures Lines(Reverted(contents)) == RevertedLines(Lines(contents))
    ensures RevertedLines(Lines(Reverted(contents))) == RevertedLines(Lines(contents))
    ensures Reverted(Reverted(contents)) == Reverted(contents)
  {
    var r := RevertedLines(Lines(contents));
    LinesAreNormal(contents);
    RevertedUnbroken(Lines(contents));
    LinesOfPrint(r);
    UntaggedIsManaged(Reverted(contents));
  }

  lemma {:induction false} RevertedUnbroken(lines: seq<string>)
    requires Unbroken(lines)
    ensures Unbroken(RevertedLines(lines))
  {
    if lines != [] {
      assert lines[0] in lines;
      assert forall l <- lines[1..] :: l in lines;
      RevertedUnbroken(lines[1..]);
    }
  }
}
