/**
 * The text conversions the codec relies on: Python's `int()` of text,
 * `hex()`, `str()` of an integer, the hexadecimal literals that the cast
 * evaluates, ASCII lower-casing, NUL removal and UTF-8 restricted to ASCII.
 */
module Text {
  import opened Common

  /** Value of a hexadecimal or decimal digit character, either case. */
  function DigitValue(c: char): Option<nat>
  {
    if '0' <= c <= '9' then Some(c as int - '0' as int)
    else if 'a' <= c <= 'f' then Some(c as int - 'a' as int + 10)
    else if 'A' <= c <= 'F' then Some(c as int - 'A' as int + 10)
    else None
  }

  predicate IsDigit(c: char, base: nat)
  {
    DigitValue(c).Some? && DigitValue(c).value < base
  }

  predicate AllDigits(s: string, base: nat)
  {
    forall k :: 0 <= k < |s| ==> IsDigit(s[k], base)
  }

  /** The number a digit string denotes, most significant digit first. */
  function DigitsValue(s: string, base: nat): nat
    requires AllDigits(s, base)
  {
    if s == [] then 0
    else DigitsValue(s[..|s| - 1], base) * base + DigitValue(s[|s| - 1]).value
  }

  /** The lower-case digit Python prints for `d`. */
  function DigitChar(d: nat): (c: char)
    requires d < 16
    ensures DigitValue(c) == Some(d)
  {
    if d < 10 then ('0' as int + d) as char else ('a' as int + d - 10) as char
  }

  /** The shortest digit string of `n` in `base`, as `str` and `hex` print it. */
  function Digits(n: nat, base: nat): (s: string)
    requires 2 <= base <= 16
    ensures |s| >= 1 && AllDigits(s, base)
    decreases n
  {
    if n < base then [DigitChar(n)]
    else
      DivisionShrinks(n, base);
      Digits(n / base, base) + [DigitChar(n % base)]
  }

  lemma DivisionShrinks(n: nat, base: nat)
    requires 2 <= base <= n
    ensures n / base < n && n % base < base
  {
  }

  lemma {:induction false} DigitsRoundTrip(n: nat, base: nat)
    requires 2 <= base <= 16
    ensures DigitsValue(Digits(n, base), base) == n
  {
    if n >= base {
      var s := Digits(n, base);
      var q, d := n / base, n % base;
      DivisionShrinks(n, base);
      assert s[..|s| - 1] == Digits(q, base);
      assert DigitValue(s[|s| - 1]).value == d;
      DigitsRoundTrip(q, base);
      DivModIdentity(n, base);
      assert DigitsValue(s, base) == q * base + d;
    }
  }

  lemma DivModIdentity(n: nat, base: nat)
    requires base >= 2
    ensures (n / base) * base + n % base == n
  {
  }

  /** `str(n)` of a Python int. */
  function DecimalText(n: int): (s: string)
    ensures |s| >= 1 && (s[0] == '-' <==> n < 0)
    ensures n >= 0 ==> AllDigits(s, 10)
    ensures n < 0 ==> |s| >= 2 && AllDigits(s[1..], 10)
  {
    if n < 0 then "-" + Digits(-n, 10) else Digits(n, 10)
  }

  /** `hex(n)` of a Python int: `0x` and lower-case digits, `-0x` when negative. */
  function HexText(n: int): (s: string)
    ensures n >= 0 ==> |s| >= 3 && s[0] == '0' && s[1] == 'x' && AllDigits(s[2..], 16)
    ensures n < 0 ==> |s| >= 4 && s[0] == '-' && s[1] == '0' && s[2] == 'x' && AllDigits(s[3..], 16)
  {
    if n < 0 then "-0x" + Digits(-n, 16) else "0x" + Digits(n, 16)
  }

  /** The characters `str.strip()` removes, restricted to ASCII. */
  predicate IsSpace(c: char)
  {
    c == ' ' || 9 <= c as int <= 13 || 28 <= c as int <= 31
  }

  function StripLeft(s: string): (t: string)
    ensures |t| <= |s| && (t == [] || !IsSpace(t[0]))
  {
    if |s| > 0 && IsSpace(s[0]) then StripLeft(s[1..]) else s
  }

  function StripRight(s: string): (t: string)
    ensures |t| <= |s| && (t == [] || !IsSpace(t[|t| - 1]))
  {
    if |s| > 0 && IsSpace(s[|s| - 1]) then StripRight(s[..|s| - 1]) else s
  }

  function Strip(s: string): string
  {
    StripRight(StripLeft(s))
  }

  /** The text `int()` reads once stripped: an optional sign, then one or
      more decimal digits. */
  predicate IsDecimalNumeral(t: string)
  {
    (|t| > 0 && AllDigits(t, 10)) || (|t| > 1 && (t[0] == '+' || t[0] == '-') && AllDigits(t[1..], 10))
  }

  /** The number a decimal numeral denotes, its sign applied. */
  function NumeralValue(t: string): int
    requires IsDecimalNumeral(t)
  {
    if AllDigits(t, 10) then DigitsValue(t, 10)
    else if t[0] == '-' then -(DigitsValue(t[1..], 10) as int)
    else DigitsValue(t[1..], 10)
  }

  /** Python's `int(s)` for text: surrounding white space, an optional sign,
      then one or more decimal digits; anything else raises ValueError. */
  function ParseInt(s: string): (r: Result<int>)
    ensures r.Ok? <==> IsDecimalNumeral(Strip(s))
    ensures r.Ok? ==> r.value == NumeralValue(Strip(s))
    ensures r.Ok? ==> exists k :: 0 <= k < |s| && '0' <= s[k] <= '9'
    ensures Strip(s) == "" ==> r.Err?
    ensures r.Err? ==> r == Err(ValueError)
  {
    var t := Strip(s);
    if |t| > 0 && (t[0] == '+' || t[0] == '-') then
      var body := t[1..];
      if |body| > 0 && AllDigits(body, 10) then
        assert t == StripRight(StripLeft(s));
        StripKeepsChar(s, 1);
        var v: int := DigitsValue(body, 10);
        Ok(if t[0] == '-' then -v else v)
      else Err(ValueError)
    else if |t| > 0 && AllDigits(t, 10) then
      StripKeepsChar(s, 0);
      Ok(DigitsValue(t, 10))
    else Err(ValueError)
  }

  lemma StripKeepsChar(s: string, k: nat)
    requires k < |Strip(s)|
    ensures exists m :: 0 <= m < |s| && s[m] == Strip(s)[k]
  {
    StripLeftIsSuffix(s);
    StripRightIsPrefix(StripLeft(s));
    var d := |s| - |StripLeft(s)|;
    assert s[d + k] == Strip(s)[k];
  }

  lemma {:induction false} StripLeftIsSuffix(s: string)
    ensures StripLeft(s) == s[|s| - |StripLeft(s)|..]
  {
    if |s| > 0 && IsSpace(s[0]) {
      StripLeftIsSuffix(s[1..]);
    }
  }

  lemma {:induction false} StripRightIsPrefix(s: string)
    ensures StripRight(s) == s[..|StripRight(s)|]
  {
    if |s| > 0 && IsSpace(s[|s| - 1]) {
      StripRightIsPrefix(s[..|s| - 1]);
    }
  }

  lemma {:induction false} StripNoSpace(s: string)
    requires forall k :: 0 <= k < |s| ==> !IsSpace(s[k])
    ensures Strip(s) == s
  {
  }

  /** `str(n)` reads back through `int()`. */
  lemma ParseIntOfDecimalText(n: int)
    ensures ParseInt(DecimalText(n)) == Ok(n)
  {
    if n < 0 {
      var m: nat := -n;
      assert DecimalText(n) == "-" + Digits(m, 10);
      ParseIntOfNegative(m);
    } else {
      assert DecimalText(n) == Digits(n, 10);
      ParseIntOfDigits(n);
    }
  }

  lemma ParseIntOfDigits(n: nat)
    ensures ParseInt(Digits(n, 10)) == Ok(n)
  {
    var s := Digits(n, 10);
    StripNoSpace(s);
    DigitsRoundTrip(n, 10);
  }

  lemma ParseIntOfNegative(n: nat)
    ensures ParseInt("-" + Digits(n, 10)) == Ok(-(n as int))
  {
    DigitsRoundTrip(n, 10);
    ParseIntOfMinusDigits(Digits(n, 10), n);
  }

  lemma ParseIntOfMinusDigits(body: string, n: nat)
    requires |body| > 0 && AllDigits(body, 10) && DigitsValue(body, 10) == n
    ensures ParseInt("-" + body) == Ok(-(n as int))
  {
    var s := "-" + body;
    assert s[1..] == body;
    assert forall k :: 0 <= k < |s| ==> !IsSpace(s[k]) by {
      forall k | 0 <= k < |s| ensures !IsSpace(s[k]) {
        if k > 0 {
          assert s[k] == body[k - 1];
          assert IsDigit(body[k - 1], 10);
        }
      }
    }
    StripNoSpace(s);
    ParseIntOfMinus(s);
  }

  lemma ParseIntOfMinus(s: string)
    requires Strip(s) == s && |s| > 1 && s[0] == '-' && AllDigits(s[1..], 10)
    ensures ParseInt(s) == Ok(-(DigitsValue(s[1..], 10) as int))
  {
  }

  /** `str(n)` is never taken for a hexadecimal literal. */
  lemma DecimalTextIsNotHex(n: int)
    ensures DecimalText(n) != "" && !HasHexPrefix(DecimalText(n))
  {
    var s := DecimalText(n);
    if |s| >= 2 {
      var l := Lower(s);
      if n < 0 {
        assert l[0] == '-';
      } else {
        assert IsDigit(s[1], 10);
        assert l[1] == s[1];
      }
      assert l[..2][0] == l[0] && l[..2][1] == l[1];
    }
  }

  /** ASCII lower-casing, standing for `str.lower()`. */
  function Lower(s: string): (t: string)
    ensures |t| == |s|
  {
    seq(|s|, k requires 0 <= k < |s| => if 'A' <= s[k] <= 'Z' then (s[k] as int + 32) as char else s[k])
  }

  /** `s.lower().startswith("0x")`. */
  predicate HasHexPrefix(s: string)
  {
    |s| >= 2 && Lower(s)[..2] == "0x"
  }

  /** The value of a literal `0x…`/`0X…` as `eval` gives it; any other text
      after the prefix (an expression, a syntax error) is not modelled. */
  function EvalHexLiteral(s: string): (r: Result<int>)
    requires HasHexPrefix(s)
    ensures r.Ok? <==> |s| > 2 && AllDigits(s[2..], 16)
    ensures r.Ok? ==> r.value >= 0
  {
    var body := s[2..];
    if |body| > 0 && AllDigits(body, 16) then Ok(DigitsValue(body, 16)) else Err(NotModelled)
  }

  /** What `hex()` prints for a non-negative number evaluates back to it. */
  lemma HexTextEvaluates(n: nat)
    ensures HasHexPrefix(HexText(n))
    ensures EvalHexLiteral(HexText(n)) == Ok(n)
  {
    var s := HexText(n);
    assert Lower(s)[..2] == "0x";
    assert s[2..] == Digits(n, 16);
    DigitsRoundTrip(n, 16);
  }

  /** `s.replace("\x00", "")`. */
  function RemoveNul(s: string): (t: string)
    ensures |t| <= |s| && '\0' !in t
  {
    if s == [] then [] else (if s[0] == '\0' then [] else [s[0]]) + RemoveNul(s[1..])
  }

  lemma {:induction false} RemoveNulAppend(a: string, b: string)
    ensures RemoveNul(a + b) == RemoveNul(a) + RemoveNul(b)
  {
    if a != [] {
      assert (a + b)[1..] == a[1..] + b;
      RemoveNulAppend(a[1..], b);
    } else {
      assert a + b == b;
    }
  }

  lemma {:induction false} RemoveNulOfNulFree(s: string)
    requires '\0' !in s
    ensures RemoveNul(s) == s
  {
    if s != [] {
      RemoveNulOfNulFree(s[1..]);
    }
  }

  lemma {:induction false} RemoveNulOfNuls(s: string)
    requires forall k :: 0 <= k < |s| ==> s[k] == '\0'
    ensures RemoveNul(s) == []
  {
    if s != [] {
      RemoveNulOfNuls(s[1..]);
    }
  }

  predicate IsAscii(s: string)
  {
    forall k :: 0 <= k < |s| ==> s[k] < 128 as char
  }

  /** `bytes(s, "utf-8")`, for ASCII text only. */
  function EncodeUtf8(s: string): (r: Result<seq<byte>>)
    ensures r.Ok? <==> IsAscii(s)
    ensures r.Ok? ==> |r.value| == |s| && forall k :: 0 <= k < |s| ==> r.value[k] == s[k] as int
  {
    if IsAscii(s) then Ok(seq(|s|, k requires 0 <= k < |s| => s[k] as int)) else Err(NotModelled)
  }

  /** `b.decode("utf-8")`, for ASCII bytes only. */
  function DecodeUtf8(b: seq<byte>): (r: Result<string>)
    ensures r.Ok? <==> forall k :: 0 <= k < |b| ==> b[k] < 128
    ensures r.Ok? ==> |r.value| == |b| && forall k :: 0 <= k < |b| ==> r.value[k] as int == b[k] as int
  {
    if forall k :: 0 <= k < |b| ==> b[k] < 128 then Ok(seq(|b|, k requires 0 <= k < |b| => b[k] as char))
    else Err(NotModelled)
  }

  lemma Utf8RoundTrip(s: string)
    requires IsAscii(s)
    ensures DecodeUtf8(EncodeUtf8(s).value) == Ok(s)
  {
    var b := EncodeUtf8(s).value;
    assert forall k :: 0 <= k < |b| ==> b[k] < 128;
    assert DecodeUtf8(b).value == s;
  }
}
