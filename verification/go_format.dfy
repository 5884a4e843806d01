/**
 * The conversions between integers and text that the frame decoder uses:
 * `strconv.Atoi`, and `fmt.Sprintf` with the verbs `%d`, `%02x` and `%f`.
 */
module GoFormat {
  import opened Wrappers
  import opened GoInt

  predicate IsDigit(c: char)
  {
    '0' <= c <= '9'
  }

  predicate AllDigits(s: string)
  {
    forall i :: 0 <= i < |s| ==> IsDigit(s[i])
  }

  function DigitChar(d: nat): char
    requires d < 10
  {
    ('0' as int + d) as char
  }

  /** The value of a run of decimal digits, accumulated left to right as `n = n*10 + digit`. */
  function DigitsValue(s: string): nat
    requires AllDigits(s)
  {
    if |s| == 0 then 0
    else DigitsValue(s[..|s| - 1]) * 10 + (s[|s| - 1] as int - '0' as int)
  }

  /**
   * `strconv.Atoi(s)` on a 64-bit platform: an optional `+` or `-`, then one
   * or more decimal digits (leading zeros allowed), whose value must fit in an
   * int64. Everything else is rejected. The two kinds of error that Go
   * distinguishes (syntax, range) are both `None` here.
   */
  function Atoi(s: string): (r: Option<int>)
    ensures r.Some? ==> InRange(r.value)
    ensures r.Some? ==> |s| >= 1
  {
    if |s| == 0 then None
    else if s[0] == '+' || s[0] == '-' then
      var digits := s[1..];
      if |digits| == 0 || !AllDigits(digits) then None
      else
        var n: int := DigitsValue(digits);
        var v := if s[0] == '-' then -n else n;
        if InRange(v) then Some(v) else None
    else if AllDigits(s) && DigitsValue(s) <= MaxInt64 then Some(DigitsValue(s))
    else None
  }

  /** The shortest decimal rendering of a natural number. */
  function DecimalDigits(n: nat): (s: string)
    ensures |s| >= 1 && AllDigits(s)
  {
    if n < 10 then [DigitChar(n)]
    else DecimalDigits(n / 10) + [DigitChar(n % 10)]
  }

  /** `fmt.Sprintf("%d", v)`. */
  function FormatInt(v: int): (s: string)
    ensures |s| >= 1
    ensures v < 0 <==> s[0] == '-'
    ensures forall i :: (if v < 0 then 1 else 0) <= i < |s| ==> IsDigit(s[i])
  {
    if v < 0 then "-" + DecimalDigits(-v) else DecimalDigits(v)
  }

  /** Reading back the decimal digits of `n` gives `n`. */
  lemma {:induction false} DigitsRoundTrip(n: nat)
    ensures DigitsValue(DecimalDigits(n)) == n
  {
    if n >= 10 {
      var s := DecimalDigits(n);
      assert s[..|s| - 1] == DecimalDigits(n / 10);
      DigitsRoundTrip(n / 10);
    }
  }

  /** `strconv.Atoi` accepts what `%d` prints and returns the number printed. */
  lemma AtoiFormatInt(v: int)
    requires InRange(v)
    ensures Atoi(FormatInt(v)) == Some(v)
  {
    var s := FormatInt(v);
    if v < 0 {
      assert s[1..] == DecimalDigits(-v);
      DigitsRoundTrip(-v);
    } else {
      DigitsRoundTrip(v);
    }
  }

  predicate IsLowerHexDigit(c: char)
  {
    '0' <= c <= '9' || 'a' <= c <= 'f'
  }

  function HexChar(d: nat): char
    requires d < 16
  {
    if d < 10 then ('0' as int + d) as char else ('a' as int + d - 10) as char
  }

  /** The digit value of a lowercase hexadecimal digit: the inverse of HexChar. */
  function HexValue(c: char): (d: nat)
    requires IsLowerHexDigit(c)
    ensures d < 16 && HexChar(d) == c
  {
    if c <= '9' then c as int - '0' as int else c as int - 'a' as int + 10
  }

  lemma HexValueOfChar(d: nat)
    requires d < 16
    ensures IsLowerHexDigit(HexChar(d)) && HexValue(HexChar(d)) == d
  {
  }

  /** The shortest lowercase hexadecimal rendering of a natural number. */
  function HexDigits(n: nat): (s: string)
    ensures |s| >= 1
    ensures forall i :: 0 <= i < |s| ==> IsLowerHexDigit(s[i])
  {
    if n < 16 then [HexChar(n)]
    else HexDigits(n / 16) + [HexChar(n % 16)]
  }

  /** Left-pads `digits` with `0` up to `width` characters. */
  function ZeroPad(digits: string, width: nat): string
    decreases width - |digits|
  {
    if |digits| >= width then digits else ZeroPad(['0'] + digits, width)
  }

  /**
   * `fmt.Sprintf("%02x", j)`: lowercase hexadecimal zero-padded to width 2.
   * For a negative number Go keeps one of the two columns for the minus sign,
   * so `-5` prints as `-5` and `-16` as `-10`.
   */
  function Hex02(j: int): string
  {
    if j < 0 then "-" + ZeroPad(HexDigits(-j), 1) else ZeroPad(HexDigits(j), 2)
  }

  /** A byte prints as exactly two lowercase hex digits, high nibble first. */
  lemma Hex02Byte(b: int)
    requires 0 <= b < 256
    ensures Hex02(b) == [HexChar(b / 16), HexChar(b % 16)]
  {
    if b < 16 {
      assert HexDigits(b) == [HexChar(b)];
      assert ZeroPad([HexChar(b)], 2) == ZeroPad(['0', HexChar(b)], 2);
    } else {
      assert HexDigits(b / 16) == [HexChar(b / 16)];
      assert HexDigits(b) == [HexChar(b / 16), HexChar(b % 16)];
    }
  }

  /** `%02x` on a few values, negative ones included. */
  lemma Hex02Examples()
    ensures Hex02(13) == "0d" && Hex02(40) == "28" && Hex02(255) == "ff"
    ensures Hex02(-5) == "-5" && Hex02(-16) == "-10" && Hex02(256) == "100"
  {
    Hex02Byte(13);
    Hex02Byte(40);
    Hex02Byte(255);
    assert HexDigits(16) == "10";
    assert HexDigits(256) == HexDigits(16) + "0";
  }

  /**
   * `fmt.Sprintf("%f", x)` for the float64 nearest to `k / 10`: a minus sign
   * for negative `k`, the integer part, a point and six decimals of which only
   * the first can be non-zero.
   */
  function FormatTenths(k: int): string
  {
    var m := if k < 0 then -k else k;
    (if k < 0 then "-" else "") + DecimalDigits(m / 10) + "." + [DigitChar(m % 10)] + "00000"
  }

  /**
   * The printed temperature reads back as its tenths: the text ends in a point,
   * one decimal and five zeros, and dropping the point and the zeros leaves a
   * decimal that `strconv.Atoi` parses to `k`.
   */
  lemma FormatTenthsRoundTrip(k: int)
    requires InRange(k)
    ensures var s := FormatTenths(k);
      |s| >= 8 && s[|s| - 7] == '.' && s[|s| - 5..] == "00000" &&
      Atoi(s[..|s| - 7] + [s[|s| - 6]]) == Some(k)
  {
    var m := if k < 0 then -k else k;
    var digits := DecimalDigits(m / 10) + [DigitChar(m % 10)];
    var s := FormatTenths(k);
    var sign := if k < 0 then "-" else "";
    assert s == sign + DecimalDigits(m / 10) + "." + [DigitChar(m % 10)] + "00000";
    assert s[..|s| - 7] + [s[|s| - 6]] == sign + digits;
    assert AllDigits(digits);
    assert digits[..|digits| - 1] == DecimalDigits(m / 10);
    DigitsRoundTrip(m / 10);
    assert DigitsValue(digits) == m;
    if k < 0 {
      assert (sign + digits)[1..] == digits;
    } else {
      assert sign + digits == digits && IsDigit(digits[0]);
      assert Atoi(digits) == Some(m);
    }
  }
}
