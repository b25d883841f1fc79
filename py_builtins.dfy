/**
  The few Python string built-ins the parsers and printers rely on:
  `str.isspace`, `str.strip`, `str(int)`, `int(str)` and `str.split(sep)`.
 */
module PyBuiltins {
  import opened Wrappers

  /** `str.isspace` on one character: the code points 9-13, 28-32, 0x85,
      0xa0, 0x1680, 0x2000-0x200a, 0x2028, 0x2029, 0x202f, 0x205f and 0x3000. */
  predicate IsSpace(c: char) {
    var n := c as int;
    || 0x09 <= n <= 0x0d
    || 0x1c <= n <= 0x20
    || n == 0x85 || n == 0xa0 || n == 0x1680
    || 0x2000 <= n <= 0x200a
    || n == 0x2028 || n == 0x2029 || n == 0x202f || n == 0x205f || n == 0x3000
  }

  function LStrip(s: string): (r: string)
    ensures |r| <= |s|
    ensures r != [] ==> !IsSpace(r[0])
  {
    if s != [] && IsSpace(s[0]) then LStrip(s[1..]) else s
  }

  function RStrip(s: string): (r: string)
    ensures |r| <= |s|
    ensures r != [] ==> !IsSpace(r[|r| - 1])
  {
    if s != [] && IsSpace(s[|s| - 1]) then RStrip(s[..|s| - 1]) else s
  }

  /** `str.strip()`: leading and trailing white space removed. */
  function Strip(s: string): string {
    RStrip(LStrip(s))
  }

  /** LStrip removes a prefix made of white space only. */
  lemma {:induction false} LStripSlice(s: string)
    ensures LStrip(s) == s[|s| - |LStrip(s)|..]
    ensures forall j :: 0 <= j < |s| - |LStrip(s)| ==> IsSpace(s[j])
  {
    if s != [] && IsSpace(s[0]) {
      LStripSlice(s[1..]);
    }
  }

  /** RStrip removes a suffix made of white space only. */
  lemma {:induction false} RStripSlice(s: string)
    ensures RStrip(s) == s[..|RStrip(s)|]
    ensures forall j :: |RStrip(s)| <= j < |s| ==> IsSpace(s[j])
  {
    if s != [] && IsSpace(s[|s| - 1]) {
      RStripSlice(s[..|s| - 1]);
    }
  }

  /** Stripping keeps a string whose ends are not white space. */
  lemma StripNoEdges(s: string)
    requires s != [] ==> !IsSpace(s[0]) && !IsSpace(s[|s| - 1])
    ensures Strip(s) == s
  {
  }

  /** A line whose text has no white space at its ends strips to that text. */
  lemma StripNewline(x: string)
    requires x != [] && !IsSpace(x[0]) && !IsSpace(x[|x| - 1])
    ensures Strip(x + "\n") == x
  {
    var l := x + "\n";
    assert LStrip(l) == l;
    assert l[..|l| - 1] == x;
    assert IsSpace(l[|l| - 1]);
    StripNoEdges(x);
  }

  /** One leading space is stripped away. */
  lemma StripSpacePrefix(x: string)
    requires x != [] && !IsSpace(x[0]) && !IsSpace(x[|x| - 1])
    ensures Strip(" " + x) == x
  {
    assert (" " + x)[1..] == x;
    StripNoEdges(x);
  }

  /** A string of white space strips to nothing. */
  lemma {:induction false} StripAllSpace(s: string)
    requires forall j :: 0 <= j < |s| ==> IsSpace(s[j])
    ensures LStrip(s) == [] && Strip(s) == []
  {
    if s != [] {
      StripAllSpace(s[1..]);
    }
  }

  /** Stripping leaves no white space at either end. */
  lemma StripEnds(s: string)
    ensures Strip(s) != [] ==> !IsSpace(Strip(s)[0]) && !IsSpace(Strip(s)[|Strip(s)| - 1])
  {
    var l := LStrip(s);
    var r := RStrip(l);
    if r != [] {
      RStripSlice(l);
      assert r[0] == l[0];
    }
  }

  /** Stripping drops only white space, from the two ends: the result is
      the slice `s[i..j]` with white space before `i` and from `j` on. */
  lemma StripSlice(s: string) returns (i: nat, j: nat)
    ensures i <= j <= |s| && Strip(s) == s[i..j]
    ensures forall k :: 0 <= k < i ==> IsSpace(s[k])
    ensures forall k :: j <= k < |s| ==> IsSpace(s[k])
  {
    var l := LStrip(s);
    LStripSlice(s);
    RStripSlice(l);
    i := |s| - |l|;
    j := i + |RStrip(l)|;
    assert forall k :: j <= k < |s| ==> s[k] == l[k - i];
  }

  function DigitChar(d: nat): char
    requires d < 10
  {
    ('0' as int + d) as char
  }

  predicate IsDigit(c: char) {
    '0' <= c <= '9'
  }

  /** The decimal digits of `n`, without leading zeros. */
  function DecimalDigits(n: nat): (r: string)
    ensures |r| >= 1 && forall i :: 0 <= i < |r| ==> IsDigit(r[i])
    decreases n
  {
    if n < 10 then [DigitChar(n)] else DecimalDigits(n / 10) + [DigitChar(n % 10)]
  }

  /** `str(n)` for an integer. */
  function IntToString(n: int): (r: string)
    ensures r != [] && (IsDigit(r[0]) || r[0] == '-')
    ensures forall i :: 0 <= i < |r| ==> IsDigit(r[i]) || (i == 0 && r[i] == '-')
  {
    if n < 0 then "-" + DecimalDigits(-n) else DecimalDigits(n)
  }

  function DigitsValue(s: string): nat {
    if s == [] then 0 else DigitsValue(s[..|s| - 1]) * 10 + (if IsDigit(s[|s| - 1]) then s[|s| - 1] as int - '0' as int else 0)
  }

  predicate AllDigits(s: string) {
    forall i :: 0 <= i < |s| ==> IsDigit(s[i])
  }

  /** `int(s)` for ASCII decimal input: surrounding white space, an optional
      sign and at least one digit; anything else raises. */
  function ParseInt(s: string): (r: Option<int>)
  {
    var t := Strip(s);
    if t == [] then None
    else if t[0] == '-' || t[0] == '+' then
      var v: int := DigitsValue(t[1..]);
      if |t| > 1 && AllDigits(t[1..]) then Some(if t[0] == '-' then -v else v) else None
    else if AllDigits(t) then Some(DigitsValue(t))
    else None
  }

  lemma {:induction false} DecimalDigitsRoundTrip(n: nat)
    ensures DigitsValue(DecimalDigits(n)) == n
    decreases n
  {
    var r := DecimalDigits(n);
    if n < 10 {
      assert r[..|r| - 1] == [];
    } else {
      DecimalDigitsRoundTrip(n / 10);
      assert r[..|r| - 1] == DecimalDigits(n / 10);
    }
  }

  lemma ParseDecimal(n: nat)
    ensures ParseInt(DecimalDigits(n)) == Some(n)
  {
    var d := DecimalDigits(n);
    StripNoEdges(d);
    assert AllDigits(d);
    DecimalDigitsRoundTrip(n);
  }

  lemma ParseNegative(t: string)
    requires Strip(t) == t && |t| > 1 && t[0] == '-' && AllDigits(t[1..])
    ensures ParseInt(t) == Some(-(DigitsValue(t[1..]) as int))
  {
  }

  lemma ParseNegativeDecimal(n: nat)
    ensures ParseInt("-" + DecimalDigits(n)) == Some(-(n as int))
  {
    var d := DecimalDigits(n);
    var r := "-" + d;
    assert r[|r| - 1] == d[|d| - 1];
    StripNoEdges(r);
    assert r[1..] == d;
    ParseNegative(r);
    DecimalDigitsRoundTrip(n);
  }

  /** `int(str(n)) == n`. */
  lemma IntRoundTrip(n: int)
    ensures ParseInt(IntToString(n)) == Some(n)
  {
    if n < 0 {
      assert IntToString(n) == "-" + DecimalDigits(-n);
      ParseNegativeDecimal(-n);
    } else {
      assert IntToString(n) == DecimalDigits(n);
      ParseDecimal(n);
    }
  }

  /** The position of the first `sep` in `s`, or `|s|`. */
  function FindChar(s: string, sep: char): (k: nat)
    ensures k <= |s|
    ensures forall j :: 0 <= j < k ==> s[j] != sep
    ensures k < |s| ==> s[k] == sep
  {
    if s == [] || s[0] == sep then 0 else 1 + FindChar(s[1..], sep)
  }

  /** `s.split(sep)` for a one-character separator: the pieces between
      consecutive separators, empty pieces included. */
  function Split(s: string, sep: char): (r: seq<string>)
    ensures |r| >= 1
    ensures forall i :: 0 <= i < |r| ==> sep !in r[i]
    decreases |s|
  {
    var k := FindChar(s, sep);
    if k == |s| then [s] else [s[..k]] + Split(s[k + 1..], sep)
  }

  /** `sep.join(pieces)`. */
  function Join(pieces: seq<string>, sep: char): string {
    if pieces == [] then "" else if |pieces| == 1 then pieces[0] else pieces[0] + [sep] + Join(pieces[1..], sep)
  }

  lemma JoinCons(p: string, t: seq<string>, sep: char)
    requires |t| >= 1
    ensures Join([p] + t, sep) == p + [sep] + Join(t, sep)
  {
    assert ([p] + t)[1..] == t;
  }

  lemma SplitAround(s: string, k: nat)
    requires k < |s|
    ensures s == s[..k] + [s[k]] + s[k + 1..]
  {
  }

  /** Joining the pieces with the separator gives the string back. */
  lemma {:induction false} SplitJoin(s: string, sep: char)
    ensures Join(Split(s, sep), sep) == s
    decreases |s|
  {
    var k := FindChar(s, sep);
    if k < |s| {
      var rest := s[k + 1..];
      var tail := Split(rest, sep);
      assert Split(s, sep) == [s[..k]] + tail;
      JoinCons(s[..k], tail, sep);
      SplitJoin(rest, sep);
      SplitAround(s, k);
    }
  }

  /** The first separator after a separator-free piece is the one that ends it. */
  lemma {:induction false} FindCharAfter(p: string, sep: char, rest: string)
    requires sep !in p
    ensures FindChar(p + [sep] + rest, sep) == |p|
    decreases |p|
  {
    var s := p + [sep] + rest;
    if p != [] {
      assert s[1..] == p[1..] + [sep] + rest;
      FindCharAfter(p[1..], sep, rest);
    }
  }

  /** Splitting the join of separator-free pieces gives the pieces back. */
  lemma {:induction false} JoinSplit(pieces: seq<string>, sep: char)
    requires |pieces| >= 1 && forall i :: 0 <= i < |pieces| ==> sep !in pieces[i]
    ensures Split(Join(pieces, sep), sep) == pieces
    decreases |pieces|
  {
    if |pieces| == 1 {
      var s := pieces[0];
      assert FindChar(s, sep) == |s|;
    } else {
      var p, t := pieces[0], pieces[1..];
      var rest := Join(t, sep);
      assert pieces == [p] + t;
      JoinCons(p, t, sep);
      var s := p + [sep] + rest;
      FindCharAfter(p, sep, rest);
      assert s[..|p|] == p;
      assert s[|p| + 1..] == rest;
      JoinSplit(t, sep);
    }
  }
}
