/** The token and hash edit of the configuration file made by "init" (init.go). */
module TokenYaml {
  import opened Wrappers
  import opened Text
  import opened Numerals

  const GENERAL := "general:"
  const TOKEN := "token:"
  const HASH := "token-cert-hash:"

  /** One byte as fmt's %q writes it inside the quotes. */
  function Escaped(c: char): string {
    if c == '"' then "\\\"" else if c == '\\' then "\\\\"
    else if c == '\n' then "\\n" else if c == '\r' then "\\r" else if c == '\t' then "\\t"
    else if c == 7 as char then "\\a" else if c == 8 as char then "\\b"
    else if c == 12 as char then "\\f" else if c == 11 as char then "\\v"
    else if ' ' <= c <= '~' then [c]
    else HexEscape(c as int % 256)
  }

  function HexEscape(n: nat): string
    requires n < 256
  {
    ['\\', 'x', DIGITS[n / 16], DIGITS[n % 16]]
  }

  function EscapedAll(s: string): (r: string)
    ensures '\n' !in r
  {
    if s == "" then "" else Escaped(s[0]) + EscapedAll(s[1..])
  }

  function Quoted(s: string): (r: string)
    ensures '\n' !in r
  {
    "\"" + EscapedAll(s) + "\""
  }

  predicate IsToken(line: string) {
    TOKEN <= TrimLeft(line, ' ') || HASH <= TrimLeft(line, ' ')
  }

  predicate IsGeneral(line: string) { GENERAL <= line }

  function TokenLine(token: string): string { "    token: " + Quoted(token) }

  function HashLine(hash: string): string { "    token-cert-hash: " + Quoted(hash) }

  function Section(token: string, hash: string): seq<string> {
    [GENERAL, TokenLine(token), HashLine(hash)]
  }

  function Edited(line: string, token: string, hash: string): seq<string> {
    if IsToken(line) then [] else if IsGeneral(line) then Section(token, hash) else [line]
  }

  function Body(lines: seq<string>, token: string, hash: string): seq<string> {
    if lines == [] then [] else Edited(lines[0], token, hash) + Body(lines[1..], token, hash)
  }

  predicate HasGeneral(lines: seq<string>) {
    exists l <- lines :: !IsToken(l) && IsGeneral(l)
  }

  function UpdatedLines(lines: seq<string>, token: string, hash: string): seq<string> {
    Body(lines, token, hash) + (if HasGeneral(lines) then [] else Section(token, hash))
  }

  function Updated(contents: string, token: string, hash: string): string {
    Print(UpdatedLines(Lines(contents), token, hash))
  }

  lemma {:induction false} BodyConcat(a: seq<string>, b: seq<string>, token: string, hash: string)
    ensures Body(a + b, token, hash) == Body(a, token, hash) + Body(b, token, hash)
  {
    if a == [] {
      assert a + b == b;
    } else {
      assert (a + b)[1..] == a[1..] + b;
      BodyConcat(a[1..], b, token, hash);
    }
  }

  lemma BodyOne(line: string, token: string, hash: string)
    ensures Body([line], token, hash) == Edited(line, token, hash)
  {
    assert [line][1..] == [];
  }

  lemma PrintSection(token: string, hash: string)
    ensures Print(Section(token, hash)) == ("general:" + "\n") + (TokenLine(token) + "\n") + (HashLine(hash) + "\n")
  {
    assert Section(token, hash) == [GENERAL] + [TokenLine(token)] + [HashLine(hash)];
    PrintConcat([GENERAL] + [TokenLine(token)], [HashLine(hash)]);
    PrintConcat([GENERAL], [TokenLine(token)]);
    PrintOne(GENERAL);
    PrintOne(TokenLine(token));
    PrintOne(HashLine(hash));
  }

  method WriteSection(token: string, hash: string) returns (text: string)
    ensures text == Print(Section(token, hash))
  {
    PrintSection(token, hash);
    text := "general:" + "\n";
    text := text + (TokenLine(token) + "\n");
    text := text + (HashLine(hash) + "\n");
  }

  lemma BodyStep(lines: seq<string>, k: nat, token: string, hash: string)
    requires k < |lines|
    ensures Print(Body(lines[..k + 1], token, hash)) == Print(Body(lines[..k], token, hash)) +
              if IsToken(lines[k]) then "" else if IsGeneral(lines[k]) then Print(Section(token, hash))
                else lines[k] + "\n"
    ensures HasGeneral(lines[..k + 1]) == (HasGeneral(lines[..k]) || (!IsToken(lines[k]) && IsGeneral(lines[k])))
  {
    assert lines[..k + 1] == lines[..k] + [lines[k]];
    BodyConcat(lines[..k], [lines[k]], token, hash);
    BodyOne(lines[k], token, hash);
    PrintConcat(Body(lines[..k], token, hash), Edited(lines[k], token, hash));
    PrintOne(lines[k]);
  }

  lemma NothingWritten(lines: seq<string>, token: string, hash: string)
    ensures !HasGeneral(lines[..0]) && Print(Body(lines[..0], token, hash)) == "" && Print([]) == ""
  {
  }

  method UpdateConfigYAMLContents(contents: string, token: string, hash: string) returns (output: string)
    ensures output == Updated(contents, token, hash)
  {
    hide Lines, Section, TokenLine, HashLine, TrimLeft, Body, HasGeneral, Print;
    var lines := Lines(contents);
    output := "";
    NothingWritten(lines, token, hash);
    var notHandled := true;
    var section := WriteSection(token, hash);
    for k := 0 to |lines|
      invariant notHandled == !HasGeneral(lines[..k])
      invariant output == Print(Body(lines[..k], token, hash))
    {
      BodyStep(lines, k, token, hash);
      if "token:" <= TrimLeft(lines[k], ' ') {
        continue;
      }
      if "token-cert-hash:" <= TrimLeft(lines[k], ' ') {
        continue;
      }
      if "general:" <= lines[k] {
        output := output + section;
        notHandled := false;
        continue;
      }
      output := output + (lines[k] + "\n");
    }
    assert lines[..|lines|] == lines;
    PrintConcat(Body(lines, token, hash), if HasGeneral(lines) then [] else Section(token, hash));
    if notHandled {
      output := output + section;
    }
  }

  // ------------------------------------------------------------ last writer wins

  lemma SectionFacts(token: string, hash: string)
    ensures !IsToken(GENERAL) && IsGeneral(GENERAL)
    ensures IsToken(TokenLine(token)) && IsToken(HashLine(hash))
    ensures !IsGeneral(TokenLine(token)) && !IsGeneral(HashLine(hash))
    ensures Unbroken(Section(token, hash))
  {
    hide Quoted;
    assert TrimLeft(GENERAL, ' ') == GENERAL && GENERAL[0] == 'g';
    KeyFacts("token:", Quoted(token));
    KeyFacts("token-cert-hash:", Quoted(hash));
    assert "    " + ("token:" + " " + Quoted(token)) == TokenLine(token);
    assert "    " + ("token-cert-hash:" + " " + Quoted(hash)) == HashLine(hash);
  }

  lemma KeyFacts(key: string, q: string)
    requires key != "" && key[0] != ' ' && '\n' !in key && '\n' !in q
    ensures var l := "    " + (key + " " + q);
            key <= TrimLeft(l, ' ') && l[0] == ' ' && '\n' !in l
  {
    TrimLeftSpaces(key + " " + q);
    hide TrimLeft;
  }

  lemma TrimLeftSpaces(s: string)
    requires s != "" && s[0] != ' '
    ensures TrimLeft("    " + s, ' ') == s
  {
    assert (" " + s)[1..] == s && TrimLeft(s, ' ') == s;
    assert ("  " + s)[1..] == " " + s && TrimLeft(" " + s, ' ') == s;
    assert ("   " + s)[1..] == "  " + s && TrimLeft("  " + s, ' ') == s;
    assert ("    " + s)[1..] == "   " + s && TrimLeft("   " + s, ' ') == s;
  }

  lemma BodyOfSection(t1: string, h1: string, t2: string, h2: string)
    ensures Body(Section(t1, h1), t2, h2) == Section(t2, h2)
  {
    SectionFacts(t1, h1);
    var s := Section(t1, h1);
    assert s == [s[0]] + [s[1]] + [s[2]];
    BodyConcat([s[0]] + [s[1]], [s[2]], t2, h2);
    BodyConcat([s[0]], [s[1]], t2, h2);
    BodyOne(s[0], t2, h2);
    BodyOne(s[1], t2, h2);
    BodyOne(s[2], t2, h2);
  }

  lemma {:induction false} BodyTwice(lines: seq<string>, t1: string, h1: string, t2: string, h2: string)
    ensures Body(Body(lines, t1, h1), t2, h2) == Body(lines, t2, h2)
  {
    if lines != [] {
      BodyTwice(lines[1..], t1, h1, t2, h2);
      BodyConcat(Edited(lines[0], t1, h1), Body(lines[1..], t1, h1), t2, h2);
      BodyOfSection(t1, h1, t2, h2);
      BodyOne(lines[0], t2, h2);
    }
  }

  lemma {:induction false} BodyHasGeneral(lines: seq<string>, token: string, hash: string)
    ensures HasGeneral(Body(lines, token, hash)) == HasGeneral(lines)
  {
    if lines != [] {
      assert lines == [lines[0]] + lines[1..];
      BodyHasGeneral(lines[1..], token, hash);
      SectionFacts(token, hash);
      assert GENERAL in Section(token, hash);
    }
  }

  lemma UpdatedHasGeneral(lines: seq<string>, token: string, hash: string)
    ensures HasGeneral(UpdatedLines(lines, token, hash))
  {
    BodyHasGeneral(lines, token, hash);
    SectionFacts(token, hash);
    if HasGeneral(lines) {
      assert UpdatedLines(lines, token, hash) == Body(lines, token, hash);
    } else {
      assert GENERAL in Section(token, hash);
    }
  }

  lemma UpdatedTwice(lines: seq<string>, t1: string, h1: string, t2: string, h2: string)
    ensures UpdatedLines(UpdatedLines(lines, t1, h1), t2, h2) == UpdatedLines(lines, t2, h2)
  {
    BodyTwice(lines, t1, h1, t2, h2);
    UpdatedHasGeneral(lines, t1, h1);
    if !HasGeneral(lines) {
      BodyConcat(Body(lines, t1, h1), Section(t1, h1), t2, h2);
      BodyOfSection(t1, h1, t2, h2);
    } else {
      assert UpdatedLines(lines, t1, h1) == Body(lines, t1, h1);
    }
  }

  lemma {:induction false} BodyUnbroken(lines: seq<string>, token: string, hash: string)
    requires Unbroken(lines)
    ensures Unbroken(Body(lines, token, hash))
  {
    if lines != [] {
      assert lines[0] in lines && forall l <- lines[1..] :: l in lines;
      SectionFacts(token, hash);
      BodyUnbroken(lines[1..], token, hash);
    }
  }

  lemma {:induction false} BodyOfBlanks(k: nat, token: string, hash: string)
    ensures Body(Blanks(k), token, hash) == Blanks(k)
  {
    if k > 0 {
      BodyOfBlanks(k - 1, token, hash);
      assert Blanks(k)[1..] == Blanks(k - 1);
      assert [""] + Blanks(k - 1) == Blanks(k);
    }
  }

  /** Updating with (t1, h1) and then (t2, h2) is updating with (t2, h2), up to trailing newlines. */
  lemma LastWriterWins(contents: string, t1: string, h1: string, t2: string, h2: string)
    ensures TrimRight(Updated(Updated(contents, t1, h1), t2, h2), '\n') == TrimRight(Updated(contents, t2, h2), '\n')
  {
    var ls := Lines(contents);
    LinesAreNormal(contents);
    UpdatedTwice(ls, t1, h1, t2, h2);
    var back := Lines(Updated(contents, t1, h1));
    var k := UpdatedReadBack(ls, t1, h1);
    UpdatedBeforeBlanks(back, k, t2, h2);
    PrintConcat(UpdatedLines(back, t2, h2), Blanks(k));
    TrimBlanks(Print(UpdatedLines(back, t2, h2)), k);
  }

  lemma UpdatedReadBack(lines: seq<string>, token: string, hash: string) returns (k: nat)
    requires Unbroken(lines)
    ensures var back := Lines(Print(UpdatedLines(lines, token, hash)));
            UpdatedLines(lines, token, hash) == back + Blanks(k) && HasGeneral(back)
  {
    BodyUnbroken(lines, token, hash);
    SectionFacts(token, hash);
    UpdatedHasGeneral(lines, token, hash);
    k := ReadBackDropsBlanks(UpdatedLines(lines, token, hash));
    GeneralIsNotBlank(Lines(Print(UpdatedLines(lines, token, hash))), k);
  }

  lemma UpdatedBeforeBlanks(lines: seq<string>, k: nat, token: string, hash: string)
    requires HasGeneral(lines)
    ensures UpdatedLines(lines + Blanks(k), token, hash) == UpdatedLines(lines, token, hash) + Blanks(k)
  {
    BodyConcat(lines, Blanks(k), token, hash);
    BodyOfBlanks(k, token, hash);
    var l :| l in lines && !IsToken(l) && IsGeneral(l);
    assert l in lines + Blanks(k);
  }

  lemma GeneralIsNotBlank(lines: seq<string>, k: nat)
    requires HasGeneral(lines + Blanks(k))
    ensures HasGeneral(lines)
  {
    var l :| l in lines + Blanks(k) && !IsToken(l) && IsGeneral(l);
    assert l in lines;
  }

  /** The lines the edit has no business with. */
  function Others(lines: seq<string>): seq<string> {
    if lines == [] then []
    else if "token:" <= TrimLeft(lines[0], ' ') || "token-cert-hash:" <= TrimLeft(lines[0], ' ')
            || "general:" <= lines[0] then Others(lines[1..])
    else [lines[0]] + Others(lines[1..])
  }

  lemma {:induction false} OthersConcat(a: seq<string>, b: seq<string>)
    ensures Others(a + b) == Others(a) + Others(b)
  {
    if a == [] {
      assert a + b == b;
    } else {
      assert (a + b)[1..] == a[1..] + b;
      OthersConcat(a[1..], b);
    }
  }

  lemma OthersOfEdited(line: string, token: string, hash: string)
    ensures Others(Edited(line, token, hash)) == Others([line])
    ensures Others(Section(token, hash)) == []
  {
    SectionFacts(token, hash);
    assert [line][1..] == [] && Others([line][1..]) == [];
    var s := Section(token, hash);
    assert s[1..][1..][1..] == [] && Others(s[1..][1..][1..]) == [];
    assert Others(s[1..][1..]) == [];
  }

  /** All other lines keep their content and their order. */
  lemma {:induction false} OtherLinesAreKept(lines: seq<string>, token: string, hash: string)
    ensures Others(Body(lines, token, hash)) == Others(lines)
    ensures Others(UpdatedLines(lines, token, hash)) == Others(lines)
  {
    if lines != [] {
      OtherLinesAreKept(lines[1..], token, hash);
      OthersConcat(Edited(lines[0], token, hash), Body(lines[1..], token, hash));
      OthersOfEdited(lines[0], token, hash);
      OthersConcat([lines[0]], lines[1..]);
      assert lines == [lines[0]] + lines[1..];
    }
    OthersOfEdited("", token, hash);
    OthersConcat(Body(lines, token, hash), Section(token, hash));
    assert Body(lines, token, hash) + [] == Body(lines, token, hash);
  }

  // ------------------------------------------------------------ reading the file

  /** What follows the key on a line that starts with it, indentation aside. */
  function ValueUnder(line: string, key: string): Option<string> {
    var l := TrimLeft(line, ' ');
    if key <= l then Some(TrimLeft(l[|key|..], ' ')) else None
  }

  function ValuesUnder(lines: seq<string>, key: string): seq<string> {
    if lines == [] then []
    else match ValueUnder(lines[0], key)
      case None => ValuesUnder(lines[1..], key)
      case Some(v) => [v] + ValuesUnder(lines[1..], key)
  }

  /** The byte a backslash and one more character stand for. */
  function Single(c: char): Option<char> {
    if c == '"' || c == '\\' then Some(c)
    else if c == 'n' then Some('\n') else if c == 'r' then Some('\r') else if c == 't' then Some('\t')
    else if c == 'a' then Some(7 as char) else if c == 'b' then Some(8 as char)
    else if c == 'f' then Some(12 as char) else if c == 'v' then Some(11 as char)
    else None
  }

  /** A double-quoted scalar's inside, read back. */
  function Unescape(s: string): Option<string> {
    if s == "" then Some("")
    else if s[0] == '"' then None
    else if s[0] != '\\' then Prefixed(s[0], Unescape(s[1..]))
    else if |s| == 1 then None
    else if s[1] == 'x' then
      if |s| >= 4 && DigitValue(s[2]) < 16 && DigitValue(s[3]) < 16
      then Prefixed((DigitValue(s[2]) * 16 + DigitValue(s[3])) as char, Unescape(s[4..]))
      else None
    else
      match Single(s[1])
      case None => None
      case Some(c) => Prefixed(c, Unescape(s[2..]))
  }

  function Prefixed(c: char, s: Option<string>): Option<string> {
    match s
    case None => None
    case Some(t) => Some([c] + t)
  }

  function Unquote(s: string): Option<string> {
    if |s| >= 2 && s[0] == '"' && s[|s| - 1] == '"' then Unescape(s[1..|s| - 1]) else None
  }

  predicate IsBytes(s: string) { forall c <- s :: c as int < 0x100 }

  lemma UnescapePlain(c: char, rest: string)
    requires c != '"' && c != '\\'
    ensures Unescape([c] + rest) == Prefixed(c, Unescape(rest))
  {
    hide DigitValue;
    assert ([c] + rest)[1..] == rest;
  }

  lemma UnescapeSingle(x: char, rest: string)
    requires Single(x).Some?
    ensures Unescape(['\\', x] + rest) == Prefixed(Single(x).value, Unescape(rest))
  {
    hide DigitValue;
    assert (['\\', x] + rest)[2..] == rest;
  }

  lemma UnescapeHex(n: nat, rest: string)
    requires n < 0x100
    ensures Unescape(HexEscape(n) + rest) == Prefixed(n as char, Unescape(rest))
  {
    HexByte(n);
    hide DigitValue;
    var s := HexEscape(n) + rest;
    assert s[4..] == rest && s[1] == 'x' && s[2] == HexEscape(n)[2] && s[3] == HexEscape(n)[3];
  }

  lemma EscapedIs(c: char)
    requires c as int < 0x100
    ensures var e := Escaped(c);
            || (e == [c] && c != '"' && c != '\\')
            || (|e| == 2 && e == ['\\', e[1]] && Single(e[1]) == Some(c))
            || e == HexEscape(c as int)
  {
    hide HexEscape;
  }

  lemma UnescapeOne(c: char, rest: string)
    requires c as int < 0x100
    ensures Unescape(Escaped(c) + rest) == Prefixed(c, Unescape(rest))
  {
    hide Unescape, Prefixed, Escaped, Single, HexEscape;
    EscapedIs(c);
    var e := Escaped(c);
    if e == HexEscape(c as int) {
      UnescapeHex(c as int, rest);
    } else if e == [c] && c != '"' && c != '\\' {
      UnescapePlain(c, rest);
    } else {
      UnescapeSingle(e[1], rest);
    }
  }

  lemma HexByte(n: nat)
    requires n < 0x100
    ensures var e := HexEscape(n);
            DigitValue(e[2]) < 16 && DigitValue(e[3]) < 16 && DigitValue(e[2]) * 16 + DigitValue(e[3]) == n
  {
    DigitRoundTrip(n / 16);
    DigitRoundTrip(n % 16);
    hide DigitValue;
  }

  lemma {:induction false} UnescapeAll(s: string)
    requires IsBytes(s)
    ensures Unescape(EscapedAll(s)) == Some(s)
  {
    if s != "" {
      assert s[0] in s && forall c <- s[1..] :: c in s;
      UnescapeAll(s[1..]);
      UnescapeOne(s[0], EscapedAll(s[1..]));
      assert [s[0]] + s[1..] == s;
    }
  }

  /** Quoting loses nothing. */
  lemma UnquoteQuoted(s: string)
    requires IsBytes(s)
    ensures Unquote(Quoted(s)) == Some(s)
  {
    var q := Quoted(s);
    assert q[1..|q| - 1] == EscapedAll(s);
    UnescapeAll(s);
  }

  /** The line is indented and gives the key this value. */
  predicate Tells(line: string, key: string, value: string) {
    && " " <= line
    && ValueUnder(line, key).Some?
    && (IsBytes(value) ==> Unquote(ValueUnder(line, key).value) == Some(value))
  }

  lemma {:induction false} ValuesConcat(a: seq<string>, b: seq<string>, key: string)
    ensures ValuesUnder(a + b, key) == ValuesUnder(a, key) + ValuesUnder(b, key)
  {
    hide ValueUnder;
    if a == [] {
      assert a + b == b;
    } else {
      assert (a + b)[1..] == a[1..] + b;
      ValuesConcat(a[1..], b, key);
    }
  }

  lemma KeyedLine(key: string, q: string)
    requires key != "" && key[0] != ' ' && q != "" && q[0] != ' '
    ensures ValueUnder("    " + (key + " " + q), key) == Some(q)
  {
    var l := key + " " + q;
    TrimLeftSpaces(l);
    assert l[|key|..] == " " + q && (" " + q)[1..] == q;
    assert TrimLeft(" " + q, ' ') == TrimLeft(q, ' ') == q;
  }

  lemma SectionLines(token: string, hash: string)
    ensures ValueUnder(GENERAL, "token:") == None && ValueUnder(GENERAL, "token-cert-hash:") == None
    ensures ValueUnder(TokenLine(token), "token:") == Some(Quoted(token))
    ensures ValueUnder(HashLine(hash), "token-cert-hash:") == Some(Quoted(hash))
    ensures ValueUnder(TokenLine(token), "token-cert-hash:") == None && ValueUnder(HashLine(hash), "token:") == None
    ensures " " <= TokenLine(token) && " " <= HashLine(hash)
  {
    hide ValueUnder, Quoted, TokenLine, HashLine;
    GeneralReads();
    TokenLineReads(token);
    HashLineReads(hash);
  }

  lemma GeneralReads()
    ensures ValueUnder(GENERAL, "token:") == None && ValueUnder(GENERAL, "token-cert-hash:") == None
  {
    assert TrimLeft(GENERAL, ' ') == GENERAL && GENERAL[0] == 'g';
  }

  lemma TokenLineReads(token: string)
    ensures ValueUnder(TokenLine(token), "token:") == Some(Quoted(token))
    ensures ValueUnder(TokenLine(token), "token-cert-hash:") == None && " " <= TokenLine(token)
  {
    var q := Quoted(token);
    assert q[0] == '"';
    hide Quoted, ValueUnder;
    assert "    " + ("token:" + " " + q) == TokenLine(token);
    KeyedLine("token:", q);
    OtherKey("token:", q, "token-cert-hash:");
  }

  lemma HashLineReads(hash: string)
    ensures ValueUnder(HashLine(hash), "token-cert-hash:") == Some(Quoted(hash))
    ensures ValueUnder(HashLine(hash), "token:") == None && " " <= HashLine(hash)
  {
    var q := Quoted(hash);
    assert q[0] == '"';
    hide Quoted, ValueUnder;
    assert "    " + ("token-cert-hash:" + " " + q) == HashLine(hash);
    KeyedLine("token-cert-hash:", q);
    OtherKey("token-cert-hash:", q, "token:");
  }

  lemma OtherKey(key: string, q: string, other: string)
    requires |key| >= 6 && |other| >= 6 && key[0] != ' ' && key[5] != other[5]
    ensures ValueUnder("    " + (key + " " + q), other) == None
  {
    var l := key + " " + q;
    TrimLeftSpaces(l);
    hide TrimLeft;
    assert l[5] == key[5];
  }

  lemma SectionTells(token: string, hash: string)
    ensures Tells(TokenLine(token), "token:", token) && Tells(HashLine(hash), "token-cert-hash:", hash)
  {
    SectionLines(token, hash);
    if IsBytes(token) { UnquoteQuoted(token); }
    if IsBytes(hash) { UnquoteQuoted(hash); }
    hide Unquote, Quoted, ValueUnder, TokenLine, HashLine;
  }

  lemma ValuesOfOne(line: string, key: string)
    ensures ValuesUnder([line], key) == match ValueUnder(line, key) case None => [] case Some(v) => [v]
  {
    hide ValueUnder;
    assert [line][1..] == [];
  }

  lemma ValuesOfSection(token: string, hash: string)
    ensures ValuesUnder(Section(token, hash), "token:") == [Quoted(token)]
    ensures ValuesUnder(Section(token, hash), "token-cert-hash:") == [Quoted(hash)]
  {
    SectionLines(token, hash);
    hide ValueUnder, TokenLine, HashLine, Quoted;
    var g, t, h := [GENERAL], [TokenLine(token)], [HashLine(hash)];
    assert Section(token, hash) == g + t + h;
    ValuesOfThree(g, t, h, "token:");
    ValuesOfThree(g, t, h, "token-cert-hash:");
  }

  lemma ValuesOfThree(g: seq<string>, t: seq<string>, h: seq<string>, key: string)
    requires |g| == |t| == |h| == 1
    ensures ValuesUnder(g + t + h, key)
              == ValuesUnder([g[0]], key) + ValuesUnder([t[0]], key) + ValuesUnder([h[0]], key)
    ensures forall l :: ValuesUnder([l], key) == match ValueUnder(l, key) case None => [] case Some(v) => [v]
  {
    forall l ensures ValuesUnder([l], key) == match ValueUnder(l, key) case None => [] case Some(v) => [v] {
      ValuesOfOne(l, key);
    }
    hide ValuesUnder, ValueUnder;
    assert g == [g[0]] && t == [t[0]] && h == [h[0]];
    ValuesConcat(g + t, h, key);
    ValuesConcat(g, t, key);
  }

  lemma NoValue(line: string)
    requires !IsToken(line)
    ensures ValuesUnder([line], "token:") == [] && ValuesUnder([line], "token-cert-hash:") == []
  {
    assert [line][1..] == [];
    assert TOKEN == "token:" && HASH == "token-cert-hash:";
    hide TrimLeft;
    assert ValueUnder(line, "token:") == None && ValueUnder(line, "token-cert-hash:") == None;
    hide ValueUnder;
  }

  /** All values are the new ones, and a general line brings one of each. */
  lemma {:induction false} BodyValues(lines: seq<string>, token: string, hash: string)
    ensures forall v <- ValuesUnder(Body(lines, token, hash), "token:") :: v == Quoted(token)
    ensures forall v <- ValuesUnder(Body(lines, token, hash), "token-cert-hash:") :: v == Quoted(hash)
    ensures HasGeneral(lines) ==> ValuesUnder(Body(lines, token, hash), "token:") != []
                                  && ValuesUnder(Body(lines, token, hash), "token-cert-hash:") != []
  {
    if lines != [] {
      var e, rest := Edited(lines[0], token, hash), Body(lines[1..], token, hash);
      assert lines == [lines[0]] + lines[1..];
      BodyValues(lines[1..], token, hash);
      ValuesConcat(e, rest, "token:");
      ValuesConcat(e, rest, "token-cert-hash:");
      if !IsToken(lines[0]) { if IsGeneral(lines[0]) { ValuesOfSection(token, hash); } else { NoValue(lines[0]); } }
      hide ValuesUnder, Quoted, Section, IsToken, IsGeneral;
    }
  }

  lemma AllValues(lines: seq<string>, token: string, hash: string)
    ensures forall v <- ValuesUnder(UpdatedLines(lines, token, hash), "token:") :: v == Quoted(token)
    ensures forall v <- ValuesUnder(UpdatedLines(lines, token, hash), "token-cert-hash:") :: v == Quoted(hash)
    ensures ValuesUnder(UpdatedLines(lines, token, hash), "token:") != []
    ensures ValuesUnder(UpdatedLines(lines, token, hash), "token-cert-hash:") != []
  {
    hide ValuesUnder, Quoted, Section, Body, HasGeneral;
    BodyValues(lines, token, hash);
    var b := Body(lines, token, hash);
    if HasGeneral(lines) {
      assert UpdatedLines(lines, token, hash) == b;
    } else {
      ValuesOfSection(token, hash);
      ValuesConcat(b, Section(token, hash), "token:");
      ValuesConcat(b, Section(token, hash), "token-cert-hash:");
    }
  }

  /** Whoever reads the updated file finds the token, and the hash, and no other value of either:
      at least once, always in the same text, which unquotes to what was to be stored. */
  lemma NewValuesAreRead(lines: seq<string>, token: string, hash: string)
    requires IsBytes(token) && IsBytes(hash)
    ensures var t := ValuesUnder(UpdatedLines(lines, token, hash), "token:");
            t != [] && forall v <- t :: v == t[0] && Unquote(v) == Some(token)
    ensures var h := ValuesUnder(UpdatedLines(lines, token, hash), "token-cert-hash:");
            h != [] && forall v <- h :: v == h[0] && Unquote(v) == Some(hash)
  {
    hide ValuesUnder, Quoted, Unquote, UpdatedLines;
    var out := UpdatedLines(lines, token, hash);
    var t, h := ValuesUnder(out, "token:"), ValuesUnder(out, "token-cert-hash:");
    AllValues(lines, token, hash);
    UnquoteQuoted(token);
    UnquoteQuoted(hash);
    assert t[0] in t && h[0] in h;
  }

  /** Every general line is followed by the new token and the new hash, and no other token or
      hash line is left. */
  predicate OnlyNewSections(lines: seq<string>, token: string, hash: string) {
    if lines == [] then true
    else if !IsToken(lines[0]) && !IsGeneral(lines[0]) then OnlyNewSections(lines[1..], token, hash)
    else
      && |lines| >= 3 && lines[0] == "general:"
      && Tells(lines[1], "token:", token) && Tells(lines[2], "token-cert-hash:", hash)
      && OnlyNewSections(lines[3..], token, hash)
  }

  lemma SectionThenRest(rest: seq<string>, token: string, hash: string)
    requires OnlyNewSections(rest, token, hash)
    ensures OnlyNewSections(Section(token, hash) + rest, token, hash)
  {
    SectionTells(token, hash);
    SectionFacts(token, hash);
    hide Tells, IsToken, IsGeneral, TokenLine, HashLine;
    var all := Section(token, hash) + rest;
    assert all[3..] == rest && all[0] == GENERAL && all[1] == TokenLine(token) && all[2] == HashLine(hash);
  }

  lemma {:induction false} BodyHasOnlyNewSections(lines: seq<string>, tail: seq<string>, token: string, hash: string)
    requires OnlyNewSections(tail, token, hash)
    ensures OnlyNewSections(Body(lines, token, hash) + tail, token, hash)
  {
    hide Tells, IsToken, IsGeneral, Section;
    if lines == [] {
      assert Body(lines, token, hash) + tail == tail;
    } else {
      var rest := Body(lines[1..], token, hash) + tail;
      BodyHasOnlyNewSections(lines[1..], tail, token, hash);
      SectionThenRest(rest, token, hash);
      assert Body(lines, token, hash) + tail == Edited(lines[0], token, hash) + rest;
      assert [] + rest == rest && ([lines[0]] + rest)[1..] == rest;
    }
  }

  /** After the edit there is a section, and the token and hash lines are exactly those of such sections. */
  lemma NewValuesOnly(lines: seq<string>, token: string, hash: string)
    ensures OnlyNewSections(UpdatedLines(lines, token, hash), token, hash)
    ensures HasGeneral(UpdatedLines(lines, token, hash))
  {
    UpdatedHasGeneral(lines, token, hash);
    hide HasGeneral, Section, Body;
    assert OnlyNewSections([], token, hash);
    SectionThenRest([], token, hash);
    assert Section(token, hash) + [] == Section(token, hash);
    BodyHasOnlyNewSections(lines, if HasGeneral(lines) then [] else Section(token, hash), token, hash);
  }
}
