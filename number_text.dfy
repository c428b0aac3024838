/** Conversions between text and numbers: the whitespace stripping, the
    hexadecimal and decimal forms accepted by ToNumber, and the decimal
    rendering of whole numbers. */
module NumberText {
  import opened Wrappers
  import opened Numbers

  /** What `to_number` hands back: a Number value, or, for the hexadecimal
      form, the host integer itself, which is not a runtime value at all. */
  datatype NumberResult = JsNumber(n: Num) | RawInt(i: int)

  /** The characters the host's `unicode.strip()` removes. */
  predicate IsSpace(c: char) {
    var k := c as int;
    || 0x9 <= k <= 0xD
    || 0x1C <= k <= 0x20
    || k == 0x85 || k == 0xA0 || k == 0x1680 || k == 0x180E
    || 0x2000 <= k <= 0x200A
    || k == 0x2028 || k == 0x2029 || k == 0x202F || k == 0x205F || k == 0x3000
  }

  function TrimLeft(s: string): string {
    if s == [] || !IsSpace(s[0]) then s else TrimLeft(s[1..])
  }

  function TrimRight(s: string): string {
    if s == [] || !IsSpace(s[|s| - 1]) then s else TrimRight(s[..|s| - 1])
  }

  /** `s.strip()`. */
  function Strip(s: string): string {
    TrimRight(TrimLeft(s))
  }

  /** Trimming on the left drops a prefix and stops at the first character
      that is not white space. */
  lemma {:induction false} TrimLeftSpec(s: string)
    ensures var t := TrimLeft(s);
      && |t| <= |s| && t == s[|s| - |t|..]
      && (t == [] || !IsSpace(t[0]))
  {
    if s != [] && IsSpace(s[0]) {
      TrimLeftSpec(s[1..]);
    }
  }

  /** Trimming on the right drops a suffix and stops at the last character
      that is not white space. */
  lemma {:induction false} TrimRightSpec(s: string)
    ensures var t := TrimRight(s);
      && |t| <= |s| && t == s[..|t|]
      && (t == [] || !IsSpace(t[|t| - 1]))
  {
    if s != [] && IsSpace(s[|s| - 1]) {
      TrimRightSpec(s[..|s| - 1]);
    }
  }

  /** What `strip` keeps: an infix of `s` that neither starts nor ends with
      white space. */
  lemma StripSpec(s: string)
    ensures var t := Strip(s);
      && (t == [] || (!IsSpace(t[0]) && !IsSpace(t[|t| - 1])))
      && |TrimLeft(s)| <= |s| && |s| - |TrimLeft(s)| + |t| <= |s|
      && t == s[|s| - |TrimLeft(s)|..|s| - |TrimLeft(s)| + |t|]
  {
    var l := TrimLeft(s);
    TrimLeftSpec(s);
    var t := TrimRight(l);
    TrimRightSpec(l);
    var i := |s| - |l|;
    assert t == s[i..i + |t|];
    if t != [] {
      assert t[0] == l[0];
    }
  }

  predicate IsDigit(c: char) { '0' <= c <= '9' }

  function DigitValue(c: char): nat
    requires IsDigit(c)
  {
    (c as int) - ('0' as int)
  }

  function DigitChar(d: nat): (c: char)
    requires d < 10
    ensures IsDigit(c) && DigitValue(c) == d
  {
    (('0' as int) + d) as char
  }

  /** `s.isdigit()` on ASCII text: nonempty and all decimal digits. */
  predicate IsDigits(s: string) {
    |s| > 0 && forall i :: 0 <= i < |s| ==> IsDigit(s[i])
  }

  /** `int(s)` on a digit string. */
  function DigitsValue(s: string): nat
    requires forall i :: 0 <= i < |s| ==> IsDigit(s[i])
  {
    if s == [] then 0 else DigitsValue(s[..|s| - 1]) * 10 + DigitValue(s[|s| - 1])
  }

  /** `str(n)` on a host integer: decimal digits, no leading zero. */
  function NatToString(n: nat): (s: string)
    decreases n
  {
    if n < 10 then [DigitChar(n)] else NatToString(n / 10) + [DigitChar(n % 10)]
  }

  /** `str(i)` on a possibly negative host integer. */
  function IntToString(i: int): string {
    if i < 0 then "-" + NatToString(-i) else NatToString(i)
  }

  /** Rendering a natural number gives a digit string without a leading
      zero (unless the number is 0), and reading it back gives the number. */
  lemma {:induction false} NatToStringRoundTrip(n: nat)
    ensures IsDigits(NatToString(n))
    ensures DigitsValue(NatToString(n)) == n
    ensures NatToString(n)[0] == '0' ==> n == 0
    decreases n
  {
    var s := NatToString(n);
    if n >= 10 {
      NatToStringRoundTrip(n / 10);
      var p := NatToString(n / 10);
      assert s[..|s| - 1] == p;
      assert s[0] == p[0];
    }
  }

  /** Distinct numbers render as distinct strings. */
  lemma NatToStringInjective(m: nat, n: nat)
    ensures NatToString(m) == NatToString(n) ==> m == n
  {
    NatToStringRoundTrip(m);
    NatToStringRoundTrip(n);
  }

  predicate IsHexDigit(c: char) {
    IsDigit(c) || ('a' <= c <= 'f') || ('A' <= c <= 'F')
  }

  function HexDigitValue(c: char): (v: nat)
    requires IsHexDigit(c)
    ensures v < 16
  {
    if IsDigit(c) then DigitValue(c)
    else if 'a' <= c <= 'f' then (c as int) - ('a' as int) + 10
    else (c as int) - ('A' as int) + 10
  }

  function HexValue(s: string): nat
    requires forall i :: 0 <= i < |s| ==> IsHexDigit(s[i])
  {
    if s == [] then 0 else HexValue(s[..|s| - 1]) * 16 + HexDigitValue(s[|s| - 1])
  }

  predicate IsHexDigits(s: string) {
    |s| > 0 && forall i :: 0 <= i < |s| ==> IsHexDigit(s[i])
  }

  predicate HasHexPrefix(s: string) {
    |s| >= 2 && s[0] == '0' && (s[1] == 'x' || s[1] == 'X')
  }

  /** The host's `int(s, 16)` on text containing an `x` or `X`: an optional
      sign, white space the host skips after the sign, the prefix `0x` or
      `0X`, then at least one hexadecimal digit; None where the host raises
      ValueError. */
  function ParseHex(s: string): (r: Option<int>)
    ensures r.Some? && r.value < 0 ==> |Strip(s)| > 0 && Strip(s)[0] == '-'
  {
    var t := Strip(s);
    var neg := |t| > 0 && t[0] == '-';
    var u := if |t| > 0 && (t[0] == '-' || t[0] == '+') then TrimLeft(t[1..]) else t;
    if HasHexPrefix(u) && IsHexDigits(u[2..]) then
      var v: int := HexValue(u[2..]);
      Some(if neg then -v else v)
    else None
  }

  predicate ContainsX(s: string) {
    'x' in s || 'X' in s
  }

  /** The host's `float(s)` on the text left after the sign: whole decimal
      numerals (optionally signed, surrounded by white space) are read
      exactly; every other form is the host's parser, given as a parameter. */
  function ParseFloat(parseFloat: string -> Option<Num>, s: string): Option<Num> {
    var t := Strip(s);
    var neg := |t| > 0 && t[0] == '-';
    var u := if |t| > 0 && (t[0] == '-' || t[0] == '+') then t[1..] else t;
    if IsDigits(u) then
      Some(Fin(if neg then -(DigitsValue(u) as real) else DigitsValue(u) as real))
    else parseFloat(s)
  }

  /** `sign * x` on host floats, with the sign being 1 or -1. */
  function ApplySign(negative: bool, n: Num): Num {
    if negative then Negate(n) else n
  }

  /** ToNumber applied to a String (base.py, `to_number`): strip white space;
      empty is 0; text containing `x` or `X` is read by `int(s, 16)` and the
      raw host integer is returned; otherwise an optional sign, the word
      `Infinity`, or the host float parser, NaN where that fails. */
  function StringToNumber(parseFloat: string -> Option<Num>, str: string): (r: NumberResult)
    ensures r.RawInt? ==> ContainsX(Strip(str))
  {
    var s := Strip(str);
    if s == [] then JsNumber(Fin(0.0))
    else if ContainsX(s) then
      match ParseHex(s)
      case None => JsNumber(NaN)
      case Some(v) => RawInt(v)
    else
      var negative := s[0] == '-';
      var rest := if s[0] == '+' || s[0] == '-' then s[1..] else s;
      if rest == "Infinity" then JsNumber(if negative then NegInf else PosInf)
      else match ParseFloat(parseFloat, rest)
        case None => JsNumber(NaN)
        case Some(n) => JsNumber(ApplySign(negative, n))
  }

  /** Text that neither starts nor ends with white space is left alone by
      `strip`. */
  lemma StripUnpadded(s: string)
    requires s == [] || (!IsSpace(s[0]) && !IsSpace(s[|s| - 1]))
    ensures Strip(s) == s
  {
  }

  /** The host float parser is not consulted for a whole decimal numeral. */
  lemma ParseDigits(pf: string -> Option<Num>, d: string)
    requires IsDigits(d)
    ensures ParseFloat(pf, d) == Some(Fin(DigitsValue(d) as real))
  {
    assert IsDigit(d[0]) && IsDigit(d[|d| - 1]);
    StripUnpadded(d);
  }

  /** A decimal numeral, with or without a minus sign, is read as its value. */
  lemma DecimalNumeral(pf: string -> Option<Num>, n: nat)
    ensures StringToNumber(pf, NatToString(n)) == JsNumber(Fin(n as real))
    ensures StringToNumber(pf, "-" + NatToString(n)) == JsNumber(Fin(-(n as real)))
  {
    NatToStringRoundTrip(n);
    UnsignedNumeral(pf, NatToString(n));
    NegativeNumeral(pf, NatToString(n));
  }

  /** Digits without a sign read as their value. */
  lemma UnsignedNumeral(pf: string -> Option<Num>, d: string)
    requires IsDigits(d)
    ensures StringToNumber(pf, d) == JsNumber(Fin(DigitsValue(d) as real))
  {
    assert IsDigit(d[0]) && IsDigit(d[|d| - 1]);
    StripUnpadded(d);
    assert !ContainsX(d);
    assert d != "Infinity" by { assert d[0] != 'I'; }
    ParseDigits(pf, d);
  }

  /** Digits after a minus sign read as the negated value. */
  lemma NegativeNumeral(pf: string -> Option<Num>, d: string)
    requires IsDigits(d)
    ensures StringToNumber(pf, "-" + d) == JsNumber(Fin(-(DigitsValue(d) as real)))
  {
    var m := "-" + d;
    assert m[1..] == d;
    assert m[0] == '-' && m[|m| - 1] == d[|d| - 1];
    StripUnpadded(m);
    assert !ContainsX(m) by {
      assert forall c :: c in m && c != '-' ==> c in d;
    }
    assert d != "Infinity" by { assert d[0] != 'I'; }
    ParseDigits(pf, d);
    var v := DigitsValue(d) as real;
    assert ApplySign(true, Fin(v)) == Fin(-v);
    assert StringToNumber(pf, m) == JsNumber(ApplySign(true, Fin(v)));
  }

  /** Signed `Infinity`, surrounded by white space, is read as an infinity. */
  lemma SignedInfinityText(pf: string -> Option<Num>)
    ensures StringToNumber(pf, "Infinity") == JsNumber(PosInf)
    ensures StringToNumber(pf, "-Infinity") == JsNumber(NegInf)
  {
    StripUnpadded("Infinity");
    StripUnpadded("-Infinity");
    assert "-Infinity"[1..] == "Infinity";
    assert !ContainsX("-Infinity");
  }

  /** The empty text, and text made only of white space, is 0. */
  lemma BlankText(pf: string -> Option<Num>, w: string)
    requires forall i :: 0 <= i < |w| ==> IsSpace(w[i])
    ensures StringToNumber(pf, w) == JsNumber(Fin(0.0))
  {
    BlankTrims(w);
  }

  lemma {:induction false} BlankTrims(w: string)
    requires forall i :: 0 <= i < |w| ==> IsSpace(w[i])
    ensures TrimLeft(w) == []
  {
    if w != [] {
      BlankTrims(w[1..]);
    }
  }

  /** `int(s, 16)` skips white space between the sign and `0x`. */
  lemma SpacedHexParse(h: string)
    requires IsHexDigits(h)
    ensures Strip("- 0x" + h) == "- 0x" + h
    ensures ParseHex("- 0x" + h) == Some(-(HexValue(h) as int))
  {
    var s, u := "- 0x" + h, "0x" + h;
    assert Strip(s) == s by {
      assert s[0] == '-' && s[|s| - 1] == h[|h| - 1];
      assert IsHexDigit(s[|s| - 1]);
      StripUnpadded(s);
    }
    assert TrimLeft(s[1..]) == u by {
      var t := " 0x" + h;
      assert s[1..] == t && t[1..] == u;
      assert t[0] == ' ' && u[0] == '0';
    }
    assert s[0] == '-';
    assert HasHexPrefix(u) && u[2..] == h;
  }

  /** White space between the sign and a `0x` numeral is skipped, and the
      integer is negated. */
  lemma SpacedNegativeHex(pf: string -> Option<Num>, h: string)
    requires IsHexDigits(h)
    ensures StringToNumber(pf, "- 0x" + h) == RawInt(-(HexValue(h) as int))
  {
    var s := "- 0x" + h;
    SpacedHexParse(h);
    assert ContainsX(s) by { assert s[3] == 'x'; }
  }

  /** A `0x` numeral is handed back as the host integer it spells. */
  lemma HexNumeral(pf: string -> Option<Num>, h: string)
    requires IsHexDigits(h)
    ensures StringToNumber(pf, "0x" + h) == RawInt(HexValue(h))
  {
    var s := "0x" + h;
    assert s[1] == 'x';
    assert s[2..] == h;
    assert IsHexDigit(s[|s| - 1]);
    StripUnpadded(s);
  }
}
