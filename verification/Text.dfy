/** Byte strings and line lists: the string helpers the file editors are built on.
    A `char` stands for one byte. */
module Text {

  /** strings.Contains / bytes.Contains. */
  predicate Contains(s: string, t: string) {
    t <= s || (s != "" && Contains(s[1..], t))
  }

  predicate HasSuffix(s: string, t: string) {
    |t| <= |s| && s[|s| - |t|..] == t
  }

  function TrimPrefix(s: string, t: string): string {
    if t <= s then s[|t|..] else s
  }

  function TrimSuffix(s: string, t: string): string {
    if HasSuffix(s, t) then s[..|s| - |t|] else s
  }

  function TrimLeft(s: string, c: char): string {
    if s != "" && s[0] == c then TrimLeft(s[1..], c) else s
  }

  function TrimRight(s: string, c: char): string {
    if s != "" && s[|s| - 1] == c then TrimRight(s[..|s| - 1], c) else s
  }

  /** strings.Split with a one-byte separator: always at least one part. */
  function Split(s: string, sep: char): (parts: seq<string>)
    ensures |parts| >= 1
    ensures forall p <- parts :: sep !in p
  {
    if s == "" then [""]
    else if s[0] == sep then [""] + Split(s[1..], sep)
    else
      var rest := Split(s[1..], sep);
      [[s[0]] + rest[0]] + rest[1..]
  }

  function Join(parts: seq<string>, sep: char): string {
    if parts == [] then ""
    else if |parts| == 1 then parts[0]
    else parts[0] + [sep] + Join(parts[1..], sep)
  }

  /** The lines an editor works on: trailing newlines trimmed, then split. */
  function Lines(contents: string): seq<string> {
    Split(TrimRight(contents, '\n'), '\n')
  }

  /** What an editor writes: every line followed by a newline. */
  function Print(lines: seq<string>): string {
    if lines == [] then "" else lines[0] + "\n" + Print(lines[1..])
  }

  predicate Unbroken(lines: seq<string>) {
    forall l <- lines :: '\n' !in l
  }

  /** A line list that survives being printed and read again. */
  predicate IsNormal(lines: seq<string>) {
    lines == [""] || (lines != [] && lines[|lines| - 1] != "")
  }

  // ---------------------------------------------------------------- splitting

  lemma {:induction false} ContainsInside(a: string, b: string, c: string)
    ensures Contains(a + b + c, b)
  {
    if a == "" {
      assert a + b + c == b + c;
    } else {
      assert (a + b + c)[1..] == a[1..] + b + c;
      ContainsInside(a[1..], b, c);
    }
  }

  /** Every byte of a substring is a byte of the whole. */
  lemma {:induction false} ContainsBytes(s: string, t: string, c: char)
    requires Contains(s, t) && c in t
    ensures c in s
  {
    if !(t <= s) {
      ContainsBytes(s[1..], t, c);
    } else {
      assert forall i | 0 <= i < |t| :: s[i] == t[i];
    }
  }

  lemma {:induction false} SplitConcat(a: string, b: string, sep: char)
    ensures Split(a + [sep] + b, sep) == Split(a, sep) + Split(b, sep)
  {
    var whole := a + [sep] + b;
    if a == "" {
      assert whole[1..] == b;
    } else {
      assert whole[1..] == a[1..] + [sep] + b;
      SplitConcat(a[1..], b, sep);
    }
  }

  lemma {:induction false} SplitPlain(s: string, sep: char)
    requires sep !in s
    ensures Split(s, sep) == [s]
  {
    if s != "" {
      assert s[0] in s;
      SplitPlain(s[1..], sep);
      assert [s[0]] + s[1..] == s;
    }
  }

  /** Text glued onto the end lands in the last part. */
  lemma {:induction false} SplitAppend(a: string, t: string, sep: char)
    requires sep !in t
    ensures var p := Split(a, sep);
            Split(a + t, sep) == p[..|p| - 1] + [p[|p| - 1] + t]
  {
    if a == "" {
      assert a + t == t;
      SplitPlain(t, sep);
      assert "" + t == t;
    } else {
      assert (a + t)[1..] == a[1..] + t;
      SplitAppend(a[1..], t, sep);
      AppendToLast(a[0], Split(a[1..], sep), t, sep);
    }
  }

  /** The step of SplitAppend: putting a first byte in front does not disturb the last part. */
  lemma AppendToLast(c: char, q: seq<string>, t: string, sep: char)
    requires q != []
    ensures var r := q[..|q| - 1] + [q[|q| - 1] + t];
            var p := if c == sep then [""] + q else [[c] + q[0]] + q[1..];
            (if c == sep then [""] + r else [[c] + r[0]] + r[1..]) == p[..|p| - 1] + [p[|p| - 1] + t]
  {
    var r := q[..|q| - 1] + [q[|q| - 1] + t];
    if c == sep {
      assert [""] + r == ([""] + q)[..|q|] + [q[|q| - 1] + t];
    } else if |q| == 1 {
      assert [c] + (q[0] + t) == [c] + q[0] + t;
    } else {
      var p := [[c] + q[0]] + q[1..];
      assert r[1..] == q[1..|q| - 1] + [q[|q| - 1] + t];
      assert p[..|p| - 1] == [[c] + q[0]] + q[1..|q| - 1];
    }
  }

  lemma {:induction false} SplitJoin(parts: seq<string>, sep: char)
    requires parts != [] && forall p <- parts :: sep !in p
    ensures Split(Join(parts, sep), sep) == parts
  {
    assert parts[0] in parts;
    SplitPlain(parts[0], sep);
    if |parts| > 1 {
      SplitJoin(parts[1..], sep);
      SplitConcat(parts[0], Join(parts[1..], sep), sep);
      assert parts == [parts[0]] + parts[1..];
    }
  }

  /** The last part is empty exactly when the text is, or when it ends in the separator. */
  lemma {:induction false} SplitLast(s: string, sep: char)
    ensures var p := Split(s, sep);
            p[|p| - 1] == "" <==> s == "" || s[|s| - 1] == sep
    ensures |Split(s, sep)| == 1 ==> Split(s, sep) == [s]
  {
    if s != "" {
      SplitLast(s[1..], sep);
      var rest := Split(s[1..], sep);
      assert [s[0]] + s[1..] == s;
    }
  }

  // ---------------------------------------------------------------- printing

  lemma {:induction false} PrintConcat(a: seq<string>, b: seq<string>)
    ensures Print(a + b) == Print(a) + Print(b)
  {
    if a == [] {
      assert a + b == b;
    } else {
      assert (a + b)[1..] == a[1..] + b;
      PrintConcat(a[1..], b);
    }
  }

  lemma PrintOne(line: string)
    ensures Print([line]) == line + "\n"
  {
    assert Print([line]) == line + "\n" + Print([line][1..]);
  }

  lemma {:induction false} TrimRightLast(s: string, c: char)
    ensures var t := TrimRight(s, c); t == "" || t[|t| - 1] != c
    ensures TrimRight(TrimRight(s, c), c) == TrimRight(s, c)
  {
    if s != "" && s[|s| - 1] == c {
      TrimRightLast(s[..|s| - 1], c);
    }
  }

  /** Reading always gives unbroken lines in normal form. */
  lemma LinesAreNormal(contents: string)
    ensures Unbroken(Lines(contents)) && IsNormal(Lines(contents))
  {
    var t := TrimRight(contents, '\n');
    TrimRightLast(contents, '\n');
    SplitLast(t, '\n');
  }

  /** Printing the lines read from a file gives the file with exactly one final newline. */
  lemma PrintLines(contents: string)
    ensures Print(Lines(contents)) == TrimRight(contents, '\n') + "\n"
  {
    PrintSplit(TrimRight(contents, '\n'));
  }

  lemma {:induction false} PrintSplit(s: string)
    ensures Print(Split(s, '\n')) == s + "\n"
  {
    if s == "" {
      PrintOne("");
    } else {
      PrintSplit(s[1..]);
      var rest := Split(s[1..], '\n');
      if s[0] == '\n' {
        assert ([""] + rest)[1..] == rest;
        assert "" + "\n" + (s[1..] + "\n") == s + "\n";
      } else {
        var all := [[s[0]] + rest[0]] + rest[1..];
        assert all[1..] == rest[1..];
        PrependToFirst(s[0], rest[0], Print(rest[1..]));
        assert [s[0]] + (s[1..] + "\n") == s + "\n";
      }
    }
  }

  lemma PrependToFirst(c: char, line: string, rest: string)
    ensures ([c] + line) + "\n" + rest == [c] + (line + "\n" + rest)
  {
  }

  /** Parse after print, on every line list in normal form. */
  lemma LinesOfPrint(lines: seq<string>)
    requires Unbroken(lines) && IsNormal(lines)
    ensures Lines(Print(lines)) == lines
  {
    var n := |lines| - 1;
    var init, last := lines[..n], lines[n];
    assert lines == init + [last] && lines[n] in lines;
    PrintConcat(init, [last]);
    PrintOne(last);
    assert Print(init) + (last + "\n") == (Print(init) + last) + "\n";
    if last == "" { assert init == []; }
    TrimOneNewline(Print(init), last);
    SplitPrinted(init, last);
  }

  lemma TrimOneNewline(before: string, last: string)
    requires '\n' !in last && (last == "" ==> before == "")
    ensures TrimRight((before + last) + "\n", '\n') == before + last
  {
    var text := before + last;
    assert (text + "\n")[..|text|] == text;
    if last != "" {
      assert text[|text| - 1] == last[|last| - 1] && last[|last| - 1] in last;
    }
  }

  lemma {:induction false} SplitPrinted(init: seq<string>, last: string)
    requires Unbroken(init) && '\n' !in last
    ensures Split(Print(init) + last, '\n') == init + [last]
  {
    if init == [] {
      assert Print(init) + last == last;
      SplitPlain(last, '\n');
    } else {
      assert init[0] in init && forall l <- init[1..] :: l in init;
      var rest := Print(init[1..]);
      SplitPrinted(init[1..], last);
      SplitLine(init[0], rest + last);
      Regroup(init[0], "\n", rest, last);
      assert [init[0]] + (init[1..] + [last]) == init + [last];
    }
  }

  lemma Regroup(a: string, b: string, c: string, d: string)
    ensures (a + b + c) + d == a + b + (c + d)
  {
  }

  lemma SplitLine(line: string, rest: string)
    requires '\n' !in line
    ensures Split(line + "\n" + rest, '\n') == [line] + Split(rest, '\n')
  {
    SplitPlain(line, '\n');
    SplitConcat(line, rest, '\n');
  }

  /** Distinct unbroken line lists print differently. */
  lemma PrintInjective(a: seq<string>, b: seq<string>)
    requires Unbroken(a) && Unbroken(b) && Print(a) == Print(b)
    ensures a == b
  {
    SplitPrinted(a, "");
    SplitPrinted(b, "");
    assert Print(a) + "" == Print(a);
    assert (a + [""])[..|a|] == a && (b + [""])[..|b|] == b;
  }

  /** Whatever is printed, reading it back gives no line that was not there, blanks aside. */
  lemma LinesOfAnyPrint(lines: seq<string>)
    requires Unbroken(lines)
    ensures forall l <- Lines(Print(lines)) :: l in lines || l == ""
  {
    SplitPrinted(lines, "");
    assert Print(lines) + "" == Print(lines);
    SplitTrimmed(Print(lines), '\n');
  }

  lemma {:induction false} SplitTrimmed(s: string, c: char)
    ensures Split(TrimRight(s, c), c) <= Split(s, c)
  {
    if s != "" && s[|s| - 1] == c {
      var init := s[..|s| - 1];
      SplitTrimmed(init, c);
      SplitConcat(init, "", c);
      assert s == init + [c] + "";
    }
  }

  function Blanks(k: nat): seq<string> {
    seq(k, _ => "")
  }

  /** Printing and reading loses trailing blank lines and nothing else. */
  lemma {:induction false} ReadBackDropsBlanks(lines: seq<string>) returns (k: nat)
    requires Unbroken(lines) && exists l <- lines :: l != ""
    ensures lines == Lines(Print(lines)) + Blanks(k)
  {
    k := 0;
    var n := |lines| - 1;
    if lines[n] != "" {
      LinesOfPrint(lines);
    } else {
      var init := lines[..n];
      assert lines == init + [""];
      k := ReadBackDropsBlanks(init);
      PrintConcat(init, [""]);
      PrintOne("");
      assert Print(lines) == Print(init) + "\n";
      assert (Print(init) + "\n")[..|Print(init)|] == Print(init);
      assert Blanks(k) + [""] == Blanks(k + 1);
      k := k + 1;
    }
  }

  lemma {:induction false} TrimBlanks(s: string, k: nat)
    ensures TrimRight(s + Print(Blanks(k)), '\n') == TrimRight(s, '\n')
  {
    if k == 0 {
      assert Blanks(0) == [];
      assert s + "" == s;
    } else {
      var p := Print(Blanks(k - 1));
      TrimBlanks(s, k - 1);
      assert Blanks(k) == Blanks(k - 1) + [""];
      PrintConcat(Blanks(k - 1), [""]);
      PrintOne("");
      assert Print(Blanks(k)) == p + "\n";
      assert s + (p + "\n") == (s + p) + "\n";
      assert ((s + p) + "\n")[..|s + p|] == s + p;
    }
  }
}
