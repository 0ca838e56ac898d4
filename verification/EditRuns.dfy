/** Whole histories of prepare and clean on one file of the etc area. */
module EditRuns {
  import opened Text
  import opened Tags
  import HostsFile
  import ResolvConf

  datatype Edit =
    | UpdateHosts(nodes: seq<HostsFile.NodeInfo>)
    | UpdateResolv(server: string)
    | Revert

  function Apply(contents: string, e: Edit): string {
    match e
    case UpdateHosts(nodes) => HostsFile.Updated(contents, nodes)
    case UpdateResolv(server) => ResolvConf.Updated(contents, server)
    case Revert => Reverted(contents)
  }

  function Run(contents: string, edits: seq<Edit>): string {
    if edits == [] then contents else Apply(Run(contents, edits[..|edits| - 1]), edits[|edits| - 1])
  }

  /** Single-line texts, and no hosts update that would comment out the lookalike line. */
  predicate Admissible(original: seq<string>, e: Edit) {
    match e
    case UpdateHosts(nodes) => HostsFile.SingleLine(nodes) && HostsFile.Harmless(original, nodes)
    case UpdateResolv(server) => '\n' !in server
    case Revert => true
  }

  /** A managed file has the lookalike line only if its underlying text has it. */
  lemma {:induction false} LookalikeIsOriginal(lines: seq<string>)
    requires LOOKALIKE in lines
    ensures LOOKALIKE in RevertedLines(lines)
  {
    if lines[0] == LOOKALIKE {
      assert LOOKALIKE[0] == ' ';
    } else {
      LookalikeIsOriginal(lines[1..]);
    }
  }

  lemma ApplyKeepsOriginal(f: string, original: seq<string>, e: Edit)
    requires Managed(f) && RevertedLines(Lines(f)) == original && Admissible(original, e)
    ensures Managed(Apply(f, e)) && RevertedLines(Lines(Apply(f, e))) == original
    ensures Apply(Apply(f, e), e) == Apply(f, e)
  {
    match e
    case UpdateHosts(nodes) =>
      if LOOKALIKE in Lines(f) { LookalikeIsOriginal(Lines(f)); }
      HostsFile.UpdateKeepsManaged(f, nodes);
    case UpdateResolv(server) =>
      ResolvConf.UpdateKeepsManaged(f, server);
    case Revert =>
      RevertManaged(f);
  }

  /** Every reachable file is managed and still stands for the original lines. */
  lemma {:induction false} RunKeepsOriginal(contents: string, edits: seq<Edit>)
    requires Untagged(Lines(contents))
    requires forall e <- edits :: Admissible(Lines(contents), e)
    ensures Managed(Run(contents, edits))
    ensures RevertedLines(Lines(Run(contents, edits))) == Lines(contents)
  {
    if edits == [] {
      UntaggedIsManaged(contents);
    } else {
      RunKeepsOriginal(contents, edits[..|edits| - 1]);
      ApplyKeepsOriginal(Run(contents, edits[..|edits| - 1]), Lines(contents), edits[|edits| - 1]);
    }
  }

  /** After any run of edits on an untagged file, one revert gives back exactly the
      original lines, each newline-terminated. */
  lemma AnyRunIsReversible(contents: string, edits: seq<Edit>)
    requires Untagged(Lines(contents))
    requires forall e <- edits :: Admissible(Lines(contents), e)
    ensures Reverted(Run(contents, edits)) == TrimRight(contents, '\n') + "\n"
  {
    RunKeepsOriginal(contents, edits);
    PrintLines(contents);
  }

  lemma RunOneMore(contents: string, edits: seq<Edit>, e: Edit)
    ensures Run(contents, edits + [e]) == Apply(Run(contents, edits), e)
  {
    assert (edits + [e])[..|edits|] == edits;
  }

  /** On every reachable file, repeating an update changes no byte. */
  lemma UpdatesAreIdempotent(contents: string, edits: seq<Edit>, e: Edit)
    requires Untagged(Lines(contents))
    requires forall d <- edits :: Admissible(Lines(contents), d)
    requires Admissible(Lines(contents), e)
    ensures Run(contents, edits + [e, e]) == Run(contents, edits + [e])
  {
    var f := Run(contents, edits);
    RunKeepsOriginal(contents, edits);
    RunOneMore(contents, edits, e);
    RunOneMore(contents, edits + [e], e);
    assert edits + [e] + [e] == edits + [e, e];
    ApplyKeepsOriginal(f, Lines(contents), e);
  }

  /** All edits of the run are reverts or updates with the one node list. */
  predicate Uses(edits: seq<Edit>, nodes: seq<HostsFile.NodeInfo>) {
    forall e <- edits :: e == Revert || e == UpdateHosts(nodes)
  }

  /** The guard on the lookalike line is exact: with one single-line node list, every run
      on an untagged file is reversible if and only if the list does not claim that line. */
  lemma ReversibleExactlyWhenHarmless(contents: string, nodes: seq<HostsFile.NodeInfo>)
    requires Untagged(Lines(contents)) && HostsFile.SingleLine(nodes)
    ensures (forall edits | Uses(edits, nodes) :: Reverted(Run(contents, edits)) == TrimRight(contents, '\n') + "\n")
       <==> HostsFile.Harmless(Lines(contents), nodes)
  {
    if HostsFile.Harmless(Lines(contents), nodes) {
      forall edits | Uses(edits, nodes) ensures Reverted(Run(contents, edits)) == TrimRight(contents, '\n') + "\n" {
        AnyRunIsReversible(contents, edits);
      }
    } else {
      var twice := [UpdateHosts(nodes), UpdateHosts(nodes)];
      assert Uses(twice, nodes);
      TwoUpdatesLoseLookalike(contents, nodes);
    }
  }

  /** How the lookalike line is lost: the first update comments it out, the second takes
      the result for an addition and drops it. */
  lemma TwoUpdatesLoseLookalike(contents: string, nodes: seq<HostsFile.NodeInfo>)
    requires Untagged(Lines(contents)) && HostsFile.SingleLine(nodes)
    requires !HostsFile.Harmless(Lines(contents), nodes)
    ensures Reverted(Run(contents, [UpdateHosts(nodes), UpdateHosts(nodes)])) != TrimRight(contents, '\n') + "\n"
  {
    var e := UpdateHosts(nodes);
    var once := HostsFile.Updated(contents, nodes);
    RunOneMore(contents, [], e);
    RunOneMore(contents, [e], e);
    assert [] + [e] == [e] && [e] + [e] == [e, e];
    LinesAreNormal(contents);
    LookalikeNotReadBack(Lines(contents), nodes);
    LinesAreNormal(once);
    LookalikeNotReadBack(Lines(once), nodes);
    var final := Lines(HostsFile.Updated(once, nodes));
    RevertedComesFrom(final);
    forall l <- final ensures TrimPrefix(l, REMOVED) != LOOKALIKE {
      if REMOVED <= l {
        assert l == REMOVED + TrimPrefix(l, REMOVED);
        assert REMOVED + LOOKALIKE == HIDDEN;
      }
    }
    LinesAreNormal(HostsFile.Updated(once, nodes));
    RevertedUnbroken(final);
    PrintLines(contents);
    if Print(RevertedLines(final)) == Print(Lines(contents)) {
      PrintInjective(RevertedLines(final), Lines(contents));
    }
  }

  lemma LookalikeNotReadBack(lines: seq<string>, nodes: seq<HostsFile.NodeInfo>)
    requires Unbroken(lines) && HostsFile.SingleLine(nodes) && HostsFile.IsStale(LOOKALIKE, nodes)
    ensures var back := Lines(Print(HostsFile.UpdatedLines(lines, nodes)));
            LOOKALIKE !in back && (LOOKALIKE !in lines ==> HIDDEN !in back)
  {
    HostsFile.UpdatedIsUnbroken(lines, nodes);
    LinesOfAnyPrint(HostsFile.UpdatedLines(lines, nodes));
    HostsFile.LookalikeIsTagged(lines, nodes);
  }
}
