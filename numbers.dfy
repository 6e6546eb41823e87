/**
  * Decimal rendering of the averaged round-trip time (`long.ToString()` in the
  * interpolation `$"{averageLatency} ms"`) and `int.TryParse`, which the latency
  * regression check applies to the stored and the new latency strings.
  */
module Numbers {
  import opened Outcomes
  import Text

  const Int32Min: int := -0x8000_0000
  const Int32Max: int := 0x7FFF_FFFF

  /** The white space `int.TryParse` skips around the number (`NumberStyles.Integer`). */
  const ParseWhiteSpace: set<char> := {'\t', '\n', '\U{000B}', '\U{000C}', '\r', ' '}

  predicate IsDigit(c: char)
  {
    '0' <= c <= '9'
  }

  predicate AllDigits(s: string)
  {
    forall i :: 0 <= i < |s| ==> IsDigit(s[i])
  }

  function DigitChar(d: nat): (c: char)
    requires d < 10
    ensures IsDigit(c)
  {
    ('0' as int + d) as char
  }

  /** Decimal digits of `n`, most significant first, without leading zeros. */
  function NatToString(n: nat): (s: string)
    ensures s != [] && AllDigits(s)
    ensures |s| > 1 ==> s[0] != '0'
    decreases n
  {
    if n < 10 then [DigitChar(n)] else NatToString(n / 10) + [DigitChar(n % 10)]
  }

  /** The number a string of decimal digits denotes. */
  function DigitsValue(s: string): nat
    requires AllDigits(s)
    decreases |s|
  {
    if s == [] then 0 else DigitsValue(s[..|s| - 1]) * 10 + (s[|s| - 1] as int - '0' as int)
  }

  /** Reading back the digits of `n` gives `n`. */
  lemma {:induction false} DigitsValueOfNatToString(n: nat)
    ensures DigitsValue(NatToString(n)) == n
    decreases n
  {
    var s := NatToString(n);
    if n < 10 {
      assert s[..0] == [];
    } else {
      assert s[..|s| - 1] == NatToString(n / 10);
      DigitsValueOfNatToString(n / 10);
    }
  }

  /** Different numbers have different renderings. */
  lemma NatToStringInjective(a: nat, b: nat)
    requires NatToString(a) == NatToString(b)
    ensures a == b
  {
    DigitsValueOfNatToString(a);
    DigitsValueOfNatToString(b);
  }

  /**
    * `int.TryParse(s, out v)` with the default style: optional white space around
    * the number, an optional leading `'-'` or `'+'`, at least one decimal digit
    * and nothing else, and a value inside the 32-bit range; `None` when it returns false.
    */
  function TryParseInt(s: string): (r: Option<int>)
    ensures r.Some? ==> Int32Min <= r.value <= Int32Max
  {
    var t := Text.Trim(s, ParseWhiteSpace);
    var signed := t != [] && (t[0] == '-' || t[0] == '+');
    var digits := if signed then t[1..] else t;
    if digits == [] || !AllDigits(digits) then None
    else
      var v: int := if signed && t[0] == '-' then -(DigitsValue(digits) as int) else DigitsValue(digits);
      if Int32Min <= v <= Int32Max then Some(v) else None
  }

  /** The rendering of a non-negative number parses back to it exactly when it fits in 32 bits. */
  lemma ParseNatToString(n: nat)
    ensures TryParseInt(NatToString(n)) == if n <= Int32Max then Some(n) else None
  {
    ParseDigits(NatToString(n));
    DigitsValueOfNatToString(n);
  }

  /** A plain string of digits parses to its value when that fits in 32 bits. */
  lemma ParseDigits(s: string)
    requires s != [] && AllDigits(s)
    ensures TryParseInt(s) == if DigitsValue(s) <= Int32Max then Some(DigitsValue(s)) else None
  {
    TrimDigits(s);
    assert IsDigit(s[0]);
  }

  /**
    * A number written with an optional sign and surrounded by white space parses
    * to its signed value when that fits in 32 bits, and fails otherwise.
    */
  lemma ParseSignedPadded(pre: string, sign: string, digits: string, post: string)
    requires forall k :: 0 <= k < |pre| ==> pre[k] in ParseWhiteSpace
    requires forall k :: 0 <= k < |post| ==> post[k] in ParseWhiteSpace
    requires sign == "" || sign == "-" || sign == "+"
    requires digits != [] && AllDigits(digits)
    ensures var v := if sign == "-" then -(DigitsValue(digits) as int) else DigitsValue(digits) as int;
      TryParseInt(pre + sign + digits + post) == if Int32Min <= v <= Int32Max then Some(v) else None
  {
    var body := sign + digits;
    BodyNotWhite(sign, digits);
    assert pre + sign + digits + post == pre + body + post;
    Text.TrimPadded(pre, body, post, ParseWhiteSpace);
    ParseTrimmedSigned(pre + body + post, sign, digits);
  }

  lemma BodyNotWhite(sign: string, digits: string)
    requires sign == "" || sign == "-" || sign == "+"
    requires digits != [] && AllDigits(digits)
    ensures var body := sign + digits;
      body != [] && body[0] !in ParseWhiteSpace && body[|body| - 1] !in ParseWhiteSpace
  {
    var body := sign + digits;
    assert body[|body| - 1] == digits[|digits| - 1];
    DigitNotWhite(digits[|digits| - 1]);
    if sign == "" {
      assert body == digits;
      DigitNotWhite(digits[0]);
    } else {
      assert body[0] == sign[0];
    }
  }

  /** A text that trims to an optionally signed digit string parses to the signed value when it fits. */
  lemma ParseTrimmedSigned(s: string, sign: string, digits: string)
    requires sign == "" || sign == "-" || sign == "+"
    requires digits != [] && AllDigits(digits)
    requires Text.Trim(s, ParseWhiteSpace) == sign + digits
    ensures var v := if sign == "-" then -(DigitsValue(digits) as int) else DigitsValue(digits) as int;
      TryParseInt(s) == if Int32Min <= v <= Int32Max then Some(v) else None
  {
    if sign == "" {
      assert sign + digits == digits;
      ParseTrimmedDigits(s, digits);
    } else {
      assert sign + digits == [sign[0]] + digits;
      ParseTrimmedSign(s, sign[0], digits);
    }
  }

  lemma ParseTrimmedDigits(s: string, digits: string)
    requires digits != [] && AllDigits(digits)
    requires Text.Trim(s, ParseWhiteSpace) == digits
    ensures TryParseInt(s) == if DigitsValue(digits) <= Int32Max then Some(DigitsValue(digits)) else None
  {
    assert IsDigit(digits[0]);
  }

  lemma ParseTrimmedSign(s: string, sign: char, digits: string)
    requires sign == '-' || sign == '+'
    requires digits != [] && AllDigits(digits)
    requires Text.Trim(s, ParseWhiteSpace) == [sign] + digits
    ensures var v := if sign == '-' then -(DigitsValue(digits) as int) else DigitsValue(digits) as int;
      TryParseInt(s) == if Int32Min <= v <= Int32Max then Some(v) else None
  {
    var t := Text.Trim(s, ParseWhiteSpace);
    assert t[0] == sign && t[1..] == digits;
  }

  /** Digits carry no white space to trim. */
  lemma TrimDigits(s: string)
    requires s != [] && AllDigits(s)
    ensures Text.Trim(s, ParseWhiteSpace) == s
  {
    DigitNotWhite(s[0]);
    DigitNotWhite(s[|s| - 1]);
    Text.TrimNothing(s, ParseWhiteSpace);
  }

  lemma DigitNotWhite(c: char)
    requires IsDigit(c)
    ensures c !in ParseWhiteSpace
  {
  }

  /** A text whose first character is neither white space, a sign nor a digit never parses. */
  lemma ParseRejectsLeadingLetter(s: string)
    requires s != [] && s[0] !in ParseWhiteSpace && s[0] != '-' && s[0] != '+' && !IsDigit(s[0])
    ensures TryParseInt(s) == None
  {
    assert Text.TrimStart(s, ParseWhiteSpace) == s;
    var t := Text.Trim(s, ParseWhiteSpace);
    assert t == s[..|t|];
    if t != [] {
      assert t[0] == s[0];
    }
  }
}
