/** JavaScript's unary plus applied to one message token (`+parts[1]`), on the
    part of its domain this model computes exactly: an optionally signed run
    of decimal digits, surrounded by any JavaScript white space, whose value
    a double holds exactly. Everything else the coercion may produce (NaN,
    the infinities, fractions, rounded large integers, hexadecimal or
    exponent notation) is folded into one value, `Other`. */
module JsNumbers {

  datatype Number = Int(value: int) | Other

  /** 2^53: every integer up to this magnitude is an exact double. */
  const MaxExact: int := 9007199254740992

  /** The white space and line terminators `StringToNumber` trims
      (the StrWhiteSpaceChar production of ECMA-262: WhiteSpace and LineTerminator). */
  predicate IsJsWhitespace(c: char) {
    c == '\t' || c == '\n' || c == '\U{000B}' || c == '\U{000C}' || c == '\r' ||
    c == ' ' || c == '\U{00A0}' || c == '\U{1680}' || ('\U{2000}' <= c <= '\U{200A}') ||
    c == '\U{2028}' || c == '\U{2029}' || c == '\U{202F}' || c == '\U{205F}' ||
    c == '\U{3000}' || c == '\U{FEFF}'
  }

  /** Leading white space removed: the longest suffix not starting with it. */
  function TrimStart(s: string): (r: string)
    ensures |r| <= |s| && r == s[|s| - |r|..]
    ensures forall i :: 0 <= i < |s| - |r| ==> IsJsWhitespace(s[i])
    ensures r != [] ==> !IsJsWhitespace(r[0])
  {
    if s != [] && IsJsWhitespace(s[0]) then TrimStart(s[1..]) else s
  }

  /** Trailing white space removed: the longest prefix not ending with it. */
  function TrimEnd(s: string): (r: string)
    ensures |r| <= |s| && r == s[..|r|]
    ensures forall i :: |r| <= i < |s| ==> IsJsWhitespace(s[i])
    ensures r != [] ==> !IsJsWhitespace(r[|r| - 1])
  {
    if s != [] && IsJsWhitespace(s[|s| - 1]) then TrimEnd(s[..|s| - 1]) else s
  }

  function Trim(s: string): string {
    TrimEnd(TrimStart(s))
  }

  predicate IsDigit(c: char) { '0' <= c <= '9' }

  predicate AllDigits(s: string) {
    forall i :: 0 <= i < |s| ==> IsDigit(s[i])
  }

  /** The value of a decimal numeral, most significant digit first. */
  function DigitsValue(s: string): nat
    requires AllDigits(s)
  {
    if s == [] then 0
    else DigitsValue(s[..|s| - 1]) * 10 + (s[|s| - 1] as int - '0' as int)
  }

  function Exact(v: int): (n: Number)
    ensures n.Int? <==> -MaxExact <= v <= MaxExact
    ensures n.Int? ==> n.value == v
  {
    if -MaxExact <= v <= MaxExact then Int(v) else Other
  }

  /** `+token`. An empty (or all white space) token is 0, as in JavaScript. */
  function ToNumber(token: string): (n: Number)
    ensures n.Int? ==> -MaxExact <= n.value <= MaxExact
  {
    var t := Trim(token);
    if t == [] then Int(0)
    else if |t| > 1 && (t[0] == '-' || t[0] == '+') && AllDigits(t[1..]) then
      Exact(if t[0] == '-' then -(DigitsValue(t[1..]) as int) else DigitsValue(t[1..]))
    else if AllDigits(t) then Exact(DigitsValue(t))
    else Other
  }

  // ---------------------------------------------------------------------------
  // Decimal rendering of an integer (what a server writes), and the round trip
  // ---------------------------------------------------------------------------

  function DigitChar(d: nat): (c: char)
    requires d < 10
    ensures IsDigit(c) && c as int - '0' as int == d
  {
    ('0' as int + d) as char
  }

  function ShowNat(n: nat): (s: string)
    ensures s != [] && AllDigits(s)
  {
    if n < 10 then [DigitChar(n)] else ShowNat(n / 10) + [DigitChar(n % 10)]
  }

  function ShowInt(n: int): string {
    if n < 0 then "-" + ShowNat(-n) else ShowNat(n)
  }

  lemma {:induction false} ShowNatValue(n: nat)
    ensures DigitsValue(ShowNat(n)) == n
  {
    if n >= 10 {
      ShowNatValue(n / 10);
      var s := ShowNat(n);
      assert s[..|s| - 1] == ShowNat(n / 10);
    }
  }

  lemma TrimClean(s: string)
    requires s != [] && !IsJsWhitespace(s[0]) && !IsJsWhitespace(s[|s| - 1])
    ensures Trim(s) == s
  {
  }

  /** A token made only of digits and a sign is trimmed to itself. */
  lemma ShowIntClean(n: int)
    ensures Trim(ShowInt(n)) == ShowInt(n)
  {
    var s := ShowInt(n);
    var digits := if n < 0 then ShowNat(-n) else ShowNat(n);
    assert s[|s| - 1] == digits[|digits| - 1];
    assert IsDigit(s[0]) || s[0] == '-';
    TrimClean(s);
  }

  lemma {:induction false} TrimEndTrailing(s: string, ws: string)
    requires s != [] && !IsJsWhitespace(s[|s| - 1])
    requires forall i :: 0 <= i < |ws| ==> IsJsWhitespace(ws[i])
    ensures TrimEnd(s + ws) == s
    decreases |ws|
  {
    if ws == [] {
      assert s + ws == s;
    } else {
      var u := s + ws;
      assert IsJsWhitespace(u[|u| - 1]);
      assert u[..|u| - 1] == s + ws[..|ws| - 1];
      TrimEndTrailing(s, ws[..|ws| - 1]);
    }
  }

  /** Trailing white space (a carriage return left by a CRLF line ending, say)
      does not change the number. */
  lemma TrimTrailing(s: string, ws: string)
    requires s != [] && !IsJsWhitespace(s[0]) && !IsJsWhitespace(s[|s| - 1])
    requires forall i :: 0 <= i < |ws| ==> IsJsWhitespace(ws[i])
    ensures Trim(s + ws) == s
  {
    assert (s + ws)[0] == s[0];
    assert TrimStart(s + ws) == s + ws;
    TrimEndTrailing(s, ws);
  }

  /** Unary plus reads back every decimal rendering of an exact integer, also
      when white space follows it. */
  lemma ToNumberShowInt(n: int, ws: string)
    requires -MaxExact <= n <= MaxExact
    requires forall i :: 0 <= i < |ws| ==> IsJsWhitespace(ws[i])
    ensures ToNumber(ShowInt(n) + ws) == Int(n)
  {
    var s := ShowInt(n);
    ShowIntClean(n);
    TrimTrailing(s, ws);
    if n < 0 {
      ShowNatValue(-n);
      assert s[1..] == ShowNat(-n);
    } else {
      ShowNatValue(n);
      assert s[0] != '-' && s[0] != '+';
    }
  }
}
