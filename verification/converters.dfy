/**
 * The two token converters of receive.go: `integer_strings_to_integers` and
 * `integer_strings_to_hexstring`. Both walk the tokens in order and stop at
 * the first token `strconv.Atoi` rejects, returning what they built so far
 * together with the error.
 */
module Converters {
  import opened Wrappers
  import opened GoFormat

  /** A token that `strconv.Atoi` reads as a value in 0..255. */
  predicate IsByteToken(s: string)
  {
    Atoi(s).Some? && 0 <= Atoi(s).value < 256
  }

  /**
   * The integers of the tokens before the first one `strconv.Atoi` rejects:
   * one per accepted token, in order, stopping exactly at the first rejected
   * token (or covering all tokens when none is rejected).
   */
  function ParsePrefix(tokens: seq<string>): (p: seq<int>)
    ensures |p| <= |tokens|
    ensures forall k :: 0 <= k < |p| ==> Atoi(tokens[k]) == Some(p[k])
    ensures |p| < |tokens| ==> Atoi(tokens[|p|]).None?
  {
    if |tokens| == 0 then []
    else match Atoi(tokens[0])
      case None => []
      case Some(v) => [v] + ParsePrefix(tokens[1..])
  }

  /** The text `integer_strings_to_hexstring` accumulates: `%02x` of each value, in order. */
  function HexString(values: seq<int>): string
  {
    if |values| == 0 then ""
    else HexString(values[..|values| - 1]) + Hex02(values[|values| - 1])
  }

  /** `values` are the values of the first `|values|` tokens, one for one. */
  predicate Accepted(tokens: seq<string>, values: seq<int>)
  {
    |values| <= |tokens| && forall k :: 0 <= k < |values| ==> Atoi(tokens[k]) == Some(values[k])
  }

  /** One more accepted token extends the accepted values by its value. */
  lemma AcceptedSnoc(tokens: seq<string>, values: seq<int>, v: int)
    requires Accepted(tokens, values) && |values| < |tokens|
    requires Atoi(tokens[|values|]) == Some(v)
    ensures Accepted(tokens, values + [v])
  {
  }

  /** The error a converter returns: the first rejected token, if any. */
  function FirstRejected(tokens: seq<string>): Option<string>
  {
    var n := |ParsePrefix(tokens)|;
    if n < |tokens| then Some(tokens[n]) else None
  }

  /** `integer_strings_to_integers`: appends the value of each token until one is rejected. */
  method IntegerStringsToIntegers(tokens: seq<string>) returns (ints: seq<int>, err: Option<string>)
    ensures ints == ParsePrefix(tokens)
    ensures err == FirstRejected(tokens)
    ensures err.None? <==> |ints| == |tokens|
  {
    ints := [];
    var i := 0;
    while i < |tokens|
      invariant 0 <= i <= |tokens|
      invariant |ints| == i && Accepted(tokens, ints)
    {
      var j := Atoi(tokens[i]);
      if j.None? {
        SamePrefix(tokens, ints);
        return ints, Some(tokens[i]);
      }
      AcceptedSnoc(tokens, ints, j.value);
      ints := ints + [j.value];
      i := i + 1;
    }
    SamePrefix(tokens, ints);
    err := None;
  }

  /**
   * `integer_strings_to_hexstring`: writes `%02x` of each token's value into a
   * buffer until a token is rejected.
   */
  method IntegerStringsToHexString(tokens: seq<string>) returns (hex: string, err: Option<string>)
    ensures hex == HexString(ParsePrefix(tokens))
    ensures err == FirstRejected(tokens)
  {
    var buffer := "";
    ghost var values: seq<int> := [];
    var i := 0;
    while i < |tokens|
      invariant 0 <= i <= |tokens|
      invariant |values| == i && Accepted(tokens, values)
      invariant buffer == HexString(values)
    {
      var j := Atoi(tokens[i]);
      if j.None? {
        SamePrefix(tokens, values);
        return buffer, Some(tokens[i]);
      }
      AcceptedSnoc(tokens, values, j.value);
      HexStringSnoc(values, j.value);
      values := values + [j.value];
      buffer := buffer + Hex02(j.value);
      i := i + 1;
    }
    SamePrefix(tokens, values);
    hex, err := buffer, None;
  }

  /**
   * A list of values that matches the tokens one by one and ends at the first
   * rejected token (or at the end) is the parsed prefix.
   */
  lemma SamePrefix(tokens: seq<string>, values: seq<int>)
    requires Accepted(tokens, values)
    requires |values| < |tokens| ==> Atoi(tokens[|values|]).None?
    ensures values == ParsePrefix(tokens)
  {
    var p := ParsePrefix(tokens);
    if |p| < |values| {
      assert false;
    } else if |values| < |p| {
      assert false;
    }
  }

  /** Appending a value appends its `%02x`. */
  lemma HexStringSnoc(values: seq<int>, v: int)
    ensures HexString(values + [v]) == HexString(values) + Hex02(v)
  {
    assert (values + [v])[..|values|] == values;
  }

  /** The hex string of a value followed by more values: its `%02x` comes first. */
  lemma {:induction false} HexStringCons(v: int, values: seq<int>)
    ensures HexString([v] + values) == Hex02(v) + HexString(values)
  {
    if |values| > 0 {
      var init := values[..|values| - 1];
      var last := values[|values| - 1];
      HexStringCons(v, init);
      assert ([v] + values)[..|values|] == [v] + init;
    }
  }

  /**
   * On values in 0..255 the hex string has exactly two lowercase hex digits
   * per value, in value order: the high nibble, then the low one.
   */
  lemma {:induction false} HexStringOfBytes(values: seq<int>)
    requires forall k :: 0 <= k < |values| ==> 0 <= values[k] < 256
    ensures |HexString(values)| == 2 * |values|
    ensures forall k :: 0 <= k < |values| ==>
      HexString(values)[2 * k] == HexChar(values[k] / 16) &&
      HexString(values)[2 * k + 1] == HexChar(values[k] % 16)
  {
    if |values| > 0 {
      var init := values[..|values| - 1];
      var last := values[|values| - 1];
      HexStringOfBytes(init);
      Hex02Byte(last);
      var h := HexString(values);
      assert h == HexString(init) + [HexChar(last / 16), HexChar(last % 16)];
      forall k | 0 <= k < |values|
        ensures h[2 * k] == HexChar(values[k] / 16) && h[2 * k + 1] == HexChar(values[k] % 16)
      {
        if k < |init| {
          assert values[k] == init[k];
        }
      }
    }
  }

  /** Text made of lowercase hex digit pairs. */
  predicate IsHexPairs(s: string)
  {
    |s| % 2 == 0 && forall i :: 0 <= i < |s| ==> IsLowerHexDigit(s[i])
  }

  /** Reads a string of lowercase hex digit pairs back as the values they encode. */
  function UnhexPairs(s: string): seq<int>
    requires IsHexPairs(s)
  {
    if |s| == 0 then []
    else
      var init := s[..|s| - 2];
      assert forall i :: 0 <= i < |init| ==> init[i] == s[i];
      UnhexPairs(init) + [HexValue(s[|s| - 2]) * 16 + HexValue(s[|s| - 1])]
  }

  /** Appending one more pair of hex digits appends the value they encode. */
  lemma UnhexPairsSnoc(prev: string, hi: char, lo: char)
    requires IsHexPairs(prev) && IsLowerHexDigit(hi) && IsLowerHexDigit(lo)
    ensures IsHexPairs(prev + [hi, lo])
    ensures UnhexPairs(prev + [hi, lo]) == UnhexPairs(prev) + [HexValue(hi) * 16 + HexValue(lo)]
  {
    var s := prev + [hi, lo];
    forall i | 0 <= i < |s| ensures IsLowerHexDigit(s[i]) {
      if i < |prev| {
        assert s[i] == prev[i];
      }
    }
    assert s[..|s| - 2] == prev;
  }

  /** The hex string of bytes decodes back, pair by pair, to the same bytes. */
  lemma {:induction false} HexStringRoundTrip(values: seq<int>)
    requires forall k :: 0 <= k < |values| ==> 0 <= values[k] < 256
    ensures IsHexPairs(HexString(values))
    ensures UnhexPairs(HexString(values)) == values
  {
    if |values| > 0 {
      var init := values[..|values| - 1];
      var last := values[|values| - 1];
      HexStringRoundTrip(init);
      Hex02Byte(last);
      var hi, lo := HexChar(last / 16), HexChar(last % 16);
      assert HexString(values) == HexString(init) + [hi, lo];
      HexValueOfChar(last / 16);
      HexValueOfChar(last % 16);
      UnhexPairsSnoc(HexString(init), hi, lo);
      assert HexValue(hi) * 16 + HexValue(lo) == last;
      assert init + [last] == values;
    }
  }
}
