/** Decimal integers as text: the `istringstream >> short` parse that turns a
    sparse-list name such as "3" into a 1-based state number
    (adaptivetau.cpp:144-150), and the rendering of the default column names
    "x1", "x2", ... (adaptivetau.cpp:383-385). */
module Decimal {
  import opened Types

  /** The characters `isspace` accepts in the C locale. */
  predicate IsSpace(c: char) {
    c == ' ' || c == '\t' || c == '\n' || c == '\r' || c as int == 11 || c as int == 12
  }

  predicate IsDigit(c: char) {
    '0' <= c <= '9'
  }

  predicate AllDigits(s: string) {
    forall i :: 0 <= i < |s| ==> IsDigit(s[i])
  }

  function DigitValue(c: char): (d: nat)
    requires IsDigit(c)
    ensures d < 10
  {
    c as int - '0' as int
  }

  function DigitChar(d: nat): (c: char)
    requires d < 10
    ensures IsDigit(c) && DigitValue(c) == d
  {
    (d + '0' as int) as char
  }

  /** The value of a string of decimal digits, most significant first. */
  function DigitsValue(s: string): nat
    requires AllDigits(s)
  {
    if s == [] then 0 else 10 * DigitsValue(s[..|s| - 1]) + DigitValue(s[|s| - 1])
  }

  /** Formatted input skips leading white space. */
  function SkipSpace(s: string): (r: string)
    ensures |r| <= |s| && r == s[|s| - |r|..]
    ensures r != [] ==> !IsSpace(r[0])
  {
    if s != [] && IsSpace(s[0]) then SkipSpace(s[1..]) else s
  }

  predicate AllSpace(w: string) {
    forall i :: 0 <= i < |w| ==> IsSpace(w[i])
  }

  predicate IsSign(sign: string) {
    sign == [] || sign == ['+'] || sign == ['-']
  }

  /** The value of a digit string under an optional sign. */
  function Signed(sign: string, v: nat): int {
    if sign == ['-'] then 0 - v else v
  }

  /** `s` is spelled as white space `w`, an optional sign and a nonempty
      digit string `d`, with nothing after the digits. */
  predicate SpelledAs(s: string, w: string, sign: string, d: string) {
    s == w + (sign + d) && AllSpace(w) && IsSign(sign) && d != [] && AllDigits(d)
  }

  /** The result of reading one integer from the whole of `s`: optional white
      space, an optional sign, at least one digit, and nothing after the
      digits (the `!iss || !iss.eof()` test); `None` when the read fails.
      ParsedSpelling and ParseSpelled characterise it: a read succeeds
      exactly on such spellings, with the digits' signed value. */
  function ParseDecimal(s: string): Option<int> {
    ParseSigned(SkipSpace(s))
  }

  /** The read after the white space: an optional sign, then digits up to
      the end. */
  function ParseSigned(u: string): Option<int> {
    var negative := u != [] && u[0] == '-';
    var digits := if u != [] && (u[0] == '+' || u[0] == '-') then u[1..] else u;
    if digits != [] && AllDigits(digits) then
      var v: int := DigitsValue(digits);
      Some(if negative then 0 - v else v)
    else None
  }

  /** A successful read comes from a spelling in the grammar above, and
      yields the signed value of its digits. */
  lemma ParsedSpelling(s: string) returns (w: string, sign: string, d: string)
    requires ParseDecimal(s).Some?
    ensures SpelledAs(s, w, sign, d) && ParseDecimal(s).value == Signed(sign, DigitsValue(d))
  {
    var u := SkipSpace(s);
    SignedParsed(u);
    SkippedSpace(s);
    w := s[..|s| - |u|];
    sign := if u[0] == '+' || u[0] == '-' then u[..1] else [];
    d := u[|sign|..];
    SplitAt(s, |s| - |u|);
  }

  /** What SkipSpace drops is white space. */
  lemma {:induction false} SkippedSpace(s: string)
    ensures AllSpace(s[..|s| - |SkipSpace(s)|])
  {
    if s != [] && IsSpace(s[0]) {
      SkippedSpace(s[1..]);
      var k := |s| - |SkipSpace(s)|;
      assert s[..k] == [s[0]] + s[1..][..k - 1];
    }
  }

  lemma SplitAt(s: string, k: nat)
    requires k <= |s|
    ensures s == s[..k] + s[k..]
  {
  }

  /** A successful signed read is an optional sign and a nonempty digit
      string, and yields the digits' signed value. */
  lemma SignedParsed(u: string)
    ensures ParseSigned(u).Some? ==>
      && u != []
      && var sign := if u[0] == '+' || u[0] == '-' then u[..1] else [];
         var d := u[|sign|..];
         u == sign + d && IsSign(sign) && d != [] && AllDigits(d) && ParseSigned(u).value == Signed(sign, DigitsValue(d))
  {
    if ParseSigned(u).Some? && (u[0] == '+' || u[0] == '-') {
      assert u == u[..1] + u[1..];
      assert u[..1] == if u[0] == '+' then ['+'] else ['-'];
    }
  }

  /** A sign and a nonempty digit string read as the digits' signed value. */
  lemma SignedSpelled(sign: string, d: string)
    requires IsSign(sign) && d != [] && AllDigits(d)
    ensures ParseSigned(sign + d) == Some(Signed(sign, DigitsValue(d)))
  {
    assert IsDigit(d[0]);
    if sign != [] {
      assert (sign + d)[0] == sign[0] && (sign + d)[1..] == d;
    } else {
      assert sign + d == d;
    }
  }

  /** White space before a non-space character is skipped, whatever it is. */
  lemma {:induction false} SkipSpaceOf(w: string, rest: string)
    requires AllSpace(w) && (rest == [] || !IsSpace(rest[0]))
    ensures SkipSpace(w + rest) == rest
  {
    if w != [] {
      assert (w + rest)[1..] == w[1..] + rest;
      SkipSpaceOf(w[1..], rest);
    }
  }

  /** Every spelling that ParseDecimal describes reads as the signed value of
      its digits; with ParsedSpelling, a read succeeds exactly on such
      spellings. */
  lemma ParseSpelled(s: string, w: string, sign: string, d: string)
    requires SpelledAs(s, w, sign, d)
    ensures ParseDecimal(s) == Some(Signed(sign, DigitsValue(d)))
  {
    assert IsDigit(d[0]);
    assert (sign + d)[0] == if sign == [] then d[0] else sign[0];
    SkipSpaceOf(w, sign + d);
    SignedSpelled(sign, d);
  }

  /** The shortest decimal rendering of `n` (what `ostringstream << n` writes). */
  function NatToDecimal(n: nat): (s: string)
    ensures s != [] && AllDigits(s)
    ensures n > 0 ==> s[0] != '0'
  {
    if n < 10 then [DigitChar(n)] else NatToDecimal(n / 10) + [DigitChar(n % 10)]
  }

  /** Rendering then reading the digits gives back the number. */
  lemma {:induction false} DigitsOfDecimal(n: nat)
    ensures DigitsValue(NatToDecimal(n)) == n
  {
    if n >= 10 {
      DigitsOfDecimal(n / 10);
      var s := NatToDecimal(n);
      assert s[..|s| - 1] == NatToDecimal(n / 10);
    }
  }

  /** A rendered number reads back as itself: a state named by its 1-based
      number in a sparse list resolves to that number. */
  lemma ParseRendered(n: nat)
    ensures ParseDecimal(NatToDecimal(n)) == Some(n)
  {
    DigitsOfDecimal(n);
    var s := NatToDecimal(n);
    assert s == [] + ([] + s);
    ParseSpelled(s, [], [], s);
  }
}
