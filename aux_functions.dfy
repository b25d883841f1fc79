/**
  Escaping of strings for the textual and DOT outputs: characters that are
  not printable, quotes and (outside DOT output) backslashes become a
  backslash followed by Python's `hex` rendering of their code point.
 */
module AuxFunctions {

  function HexDigit(d: nat): (c: char)
    requires d < 16
    ensures '0' <= c <= '9' || 'a' <= c <= 'f'
  {
    if d < 10 then ('0' as int + d) as char else ('a' as int + d - 10) as char
  }

  function HexDigitValue(c: char): nat {
    if '0' <= c <= '9' then c as int - '0' as int
    else if 'a' <= c <= 'f' then c as int - 'a' as int + 10
    else 0
  }

  /** The lower-case hexadecimal digits of `n`, without leading zeros. */
  function HexDigits(n: nat): (r: string)
    ensures |r| >= 1
    ensures forall i :: 0 <= i < |r| ==> '0' <= r[i] <= '9' || 'a' <= r[i] <= 'f'
    decreases n
  {
    if n < 16 then [HexDigit(n)] else HexDigits(n / 16) + [HexDigit(n % 16)]
  }

  /** The value of a string of hexadecimal digits. */
  function HexValue(s: string): nat {
    if s == [] then 0 else HexValue(s[..|s| - 1]) * 16 + HexDigitValue(s[|s| - 1])
  }

  /** Python's `hex` on a non-negative integer. */
  function Hex(n: nat): string {
    "0x" + HexDigits(n)
  }

  /** Reading the digits back gives the number. */
  lemma {:induction false} HexDigitsRoundTrip(n: nat)
    ensures HexValue(HexDigits(n)) == n
    decreases n
  {
    var r := HexDigits(n);
    if n < 16 {
      assert r[..|r| - 1] == [];
    } else {
      HexDigitsRoundTrip(n / 16);
      assert r[..|r| - 1] == HexDigits(n / 16);
    }
  }

  /** The first branch of the escaping test. */
  predicate NeedsEscape(ch: char, dot: bool) {
    (ch as int) < 30 || (ch as int) > 127 || ch == '\'' || ch == '"' || (ch == '\\' && !dot)
  }

  /** The encoding of one character, with all three branches of the source. */
  function EscapeChar(ch: char, dot: bool): string {
    if NeedsEscape(ch, dot) then "\\" + Hex(ch as int)
    else if ch == '\\' && !dot then "\\"
    else [ch]
  }

  /** The second branch can never be taken: its condition implies the first. */
  lemma SecondBranchUnreachable(ch: char, dot: bool)
    ensures ch == '\\' && !dot ==> NeedsEscape(ch, dot)
    ensures EscapeChar(ch, dot) == if NeedsEscape(ch, dot) then "\\" + Hex(ch as int) else [ch]
  {
  }

  /** No hex rendering holds a quote. */
  lemma HexHasNoQuote(n: nat)
    ensures '"' !in "\\" + Hex(n) && '\'' !in "\\" + Hex(n)
  {
    var e := "\\" + Hex(n);
    assert e == "\\0x" + HexDigits(n);
    assert forall i :: 2 < i < |e| ==> e[i] == HexDigits(n)[i - 3];
  }

  /** Printable characters other than quotes, and backslashes in DOT
      output, are copied; everything else is a backslash and Python's
      hex rendering of its code point, which reads back as the code. */
  lemma EscapeCharSpec(ch: char, dot: bool)
    ensures 30 <= ch as int <= 127 && ch != '\'' && ch != '"' && (ch != '\\' || dot) ==> EscapeChar(ch, dot) == [ch]
    ensures NeedsEscape(ch, dot) ==> EscapeChar(ch, dot) == "\\0x" + HexDigits(ch as int) && HexValue(HexDigits(ch as int)) == ch as int
    ensures ch == '\\' && dot ==> EscapeChar(ch, dot) == "\\"
  {
    HexDigitsRoundTrip(ch as int);
  }

  /** No encoding holds a quote. */
  lemma EscapeCharNoQuote(ch: char, dot: bool)
    ensures '"' !in EscapeChar(ch, dot) && '\'' !in EscapeChar(ch, dot)
  {
    HexHasNoQuote(ch as int);
  }

  /** The escaped form of a whole string: the per-character encodings in order. */
  function Converted(s: string, dot: bool): string {
    if s == [] then [] else Converted(s[..|s| - 1], dot) + EscapeChar(s[|s| - 1], dot)
  }

  /** convert_to_pritable: the per-character loop. */
  method ConvertToPrintable(dec: string, dot: bool) returns (esc: string)
    ensures esc == Converted(dec, dot)
  {
    esc := "";
    var i := 0;
    while i < |dec|
      invariant 0 <= i <= |dec|
      invariant esc == Converted(dec[..i], dot)
    {
      assert dec[..i + 1][..i] == dec[..i];
      var ch := dec[i];
      if (ch as int) < 30 || (ch as int) > 127 || ch == '\'' || ch == '"' || (ch == '\\' && !dot) {
        esc := esc + ("\\" + Hex(ch as int));
      } else if ch == '\\' && !dot {
        esc := esc + "\\";
      } else {
        esc := esc + [ch];
      }
      i := i + 1;
    }
    assert dec[..i] == dec;
  }

  /** Escaping one more character appends its encoding. */
  lemma ConvertedSnoc(s: string, x: char, dot: bool)
    ensures Converted(s + [x], dot) == Converted(s, dot) + EscapeChar(x, dot)
  {
    assert (s + [x])[..|s|] == s;
  }

  lemma AppendAssoc(x: string, y: string, z: string)
    ensures x + y + z == x + (y + z)
  {
  }

  /** Escaping distributes over concatenation. */
  lemma {:induction false} ConvertedConcat(a: string, b: string, dot: bool)
    ensures Converted(a + b, dot) == Converted(a, dot) + Converted(b, dot)
    decreases |b|
  {
    if b == [] {
      assert a + b == a;
    } else {
      var c, last := b[..|b| - 1], b[|b| - 1];
      assert b == c + [last];
      assert a + b == (a + c) + [last];
      var e := EscapeChar(last, dot);
      ConvertedSnoc(a + c, last, dot);
      ConvertedSnoc(c, last, dot);
      ConvertedConcat(a, c, dot);
      AppendAssoc(Converted(a, dot), Converted(c, dot), e);
    }
  }

  /** The output is never shorter than the input and never holds a quote. */
  lemma {:induction false} ConvertedShape(s: string, dot: bool)
    ensures |Converted(s, dot)| >= |s|
    ensures '"' !in Converted(s, dot) && '\'' !in Converted(s, dot)
    decreases |s|
  {
    if s != [] {
      ConvertedShape(s[..|s| - 1], dot);
      EscapeCharNoQuote(s[|s| - 1], dot);
    }
  }

  /** The encoding is not injective: a control character followed by a hex
      digit reads like a single character with a two-digit code. */
  lemma ConvertedNotInjective()
    ensures Converted([1 as char, 'a'], false) == Converted([26 as char], false)
  {
    assert [1 as char, 'a'][..1] == [1 as char];
    assert HexDigits(26) == "1a";
  }
}
