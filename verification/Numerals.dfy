/** Decimal and hexadecimal text, as fmt's %d and %x write it and address parsers read it. */
module Numerals {

  const DIGITS := "0123456789abcdef"

  /** The two bases in use. */
  predicate IsBase(b: nat) { b == 10 || b == 16 }

  function Render(n: nat, b: nat): (s: string)
    requires IsBase(b)
    ensures s != ""
  {
    if n < b then [DIGITS[n]] else Render(n / b, b) + [DIGITS[n % b]]
  }

  function Dec(n: nat): string { Render(n, 10) }

  function Hex(n: nat): string { Render(n, 16) }

  /** The value of one digit, or 16 for a byte that is no digit. */
  function DigitValue(c: char): nat {
    if '0' <= c <= '9' then c as int - '0' as int
    else if 'a' <= c <= 'f' then c as int - 'a' as int + 10
    else if 'A' <= c <= 'F' then c as int - 'A' as int + 10
    else 16
  }

  predicate IsNumeral(s: string, b: nat) {
    s != "" && forall c <- s :: DigitValue(c) < b
  }

  /** Positional value. */
  function Value(s: string, b: nat): nat
    requires IsBase(b)
  {
    if s == "" then 0 else Value(s[..|s| - 1], b) * b + DigitValue(s[|s| - 1])
  }

  lemma DigitRoundTrip(d: nat)
    requires d < 16
    ensures DigitValue(DIGITS[d]) == d
    ensures d < 10 ==> '0' <= DIGITS[d] <= '9'
    ensures 10 <= d ==> 'a' <= DIGITS[d] <= 'f'
  {
  }

  lemma {:induction false} RenderDigits(n: nat, b: nat)
    requires IsBase(b)
    ensures IsNumeral(Render(n, b), b)
    ensures forall c <- Render(n, b) :: '0' <= c <= '9' || 'a' <= c <= 'f'
  {
    DigitRoundTrip(n % b);
    if n >= b { RenderDigits(n / b, b); }
  }

  /** The value of a rendering is the number rendered. */
  lemma {:induction false} RenderRoundTrip(n: nat, b: nat)
    requires IsBase(b)
    ensures Value(Render(n, b), b) == n
  {
    DigitRoundTrip(n % b);
    var s := Render(n, b);
    if n >= b {
      RenderRoundTrip(n / b, b);
      assert s[..|s| - 1] == Render(n / b, b);
      assert Value(s, b) == (n / b) * b + n % b;
    } else {
      assert s[..0] == "";
      assert Value(s, b) == 0 * b + n;
    }
  }

  /** No leading zero, and "0" only for zero itself. */
  lemma {:induction false} RenderHead(n: nat, b: nat)
    requires IsBase(b)
    ensures n > 0 ==> Render(n, b)[0] != '0'
    ensures n == 0 ==> Render(n, b) == "0"
  {
    if n >= b { RenderHead(n / b, b); } else { DigitRoundTrip(n); }
  }

  lemma RenderInjective(m: nat, n: nat, b: nat)
    requires IsBase(b) && Render(m, b) == Render(n, b)
    ensures m == n
  {
    RenderRoundTrip(m, b);
    RenderRoundTrip(n, b);
  }

  lemma HexLength(n: nat)
    ensures n < 0x10 ==> |Hex(n)| == 1
    ensures 0x10 <= n < 0x100 ==> |Hex(n)| == 2
    ensures 0x100 <= n < 0x1000 ==> |Hex(n)| == 3
    ensures 0x1000 <= n < 0x10000 ==> |Hex(n)| == 4
  {
    if n >= 0x10 {
      assert |Hex(n)| == |Hex(n / 16)| + 1;
      if n >= 0x100 {
        assert |Hex(n / 16)| == |Hex(n / 16 / 16)| + 1;
        if n >= 0x1000 {
          assert |Hex(n / 16 / 16)| == |Hex(n / 16 / 16 / 16)| + 1;
        }
      }
    }
  }

  lemma DecLength(n: nat)
    requires n < 1000
    ensures |Dec(n)| <= 3
  {
    if n >= 10 {
      assert |Dec(n)| == |Dec(n / 10)| + 1;
      if n >= 100 {
        assert |Dec(n / 10)| == |Dec(n / 10 / 10)| + 1;
      }
    }
  }

  /** Decimal digits read as hexadecimal ones: never less, and more from ten on. */
  lemma {:induction false} DecReadAsHex(n: nat)
    ensures IsNumeral(Dec(n), 16) && Value(Dec(n), 16) >= n
    ensures Value(Dec(n), 16) == n <==> n < 10
  {
    RenderDigits(n, 10);
    DigitRoundTrip(n % 10);
    var s := Dec(n);
    if n >= 10 {
      DecReadAsHex(n / 10);
      assert s[..|s| - 1] == Dec(n / 10);
    } else {
      assert s[..0] == "";
    }
  }

  /** Hexadecimal digits read as decimal ones, where that is possible at all: less from ten on. */
  lemma {:induction false} HexReadAsDec(n: nat)
    requires IsNumeral(Hex(n), 10)
    ensures Value(Hex(n), 10) <= n
    ensures Value(Hex(n), 10) == n <==> n < 10
  {
    var s := Hex(n);
    DigitRoundTrip(n % 16);
    assert s[|s| - 1] in s;
    if n >= 16 {
      assert s[..|s| - 1] == Hex(n / 16);
      assert forall c <- s[..|s| - 1] :: c in s;
      HexReadAsDec(n / 16);
    } else {
      assert s[..0] == "";
    }
  }

  /** The two renderings agree exactly below ten. */
  lemma RenderingsAgree(n: nat)
    ensures Dec(n) == Hex(n) <==> n < 10
  {
    DecReadAsHex(n);
    RenderRoundTrip(n, 16);
  }
}
