/**
 * The two payload decoders of receive.go: `payload_node` for devices whose id
 * starts with "0000" and `payload_ds18b20` (with `RoundN`) for DS18B20
 * temperature sensors, whose id starts with "28".
 */
module Payload {
  import opened Wrappers
  import opened GoInt
  import opened GoFormat

  /** The (type, value) pair a payload decoder returns. */
  datatype Reading = Reading(kind: string, value: string)

  predicate IsByte(x: int)
  {
    0 <= x < 256
  }

  function Pow256(n: nat): nat
  {
    if n == 0 then 1 else 256 * Pow256(n - 1)
  }

  /**
   * The little-endian number the bytes stand for: the sum of `bs[i] * 256^i`,
   * so `bs[0]` is the least significant byte and the last one the most.
   */
  function Value(bs: seq<int>): int
  {
    if |bs| == 0 then 0
    else Value(bs[..|bs| - 1]) + bs[|bs| - 1] * Pow256(|bs| - 1)
  }

  /** Taking a byte off the low end: the rest counts 256 times as much. */
  lemma {:induction false} ValueCons(b: int, bs: seq<int>)
    ensures Value([b] + bs) == b + 256 * Value(bs)
  {
    if |bs| > 0 {
      var s := [b] + bs;
      var init := bs[..|bs| - 1];
      var last := bs[|bs| - 1];
      assert s[..|s| - 1] == [b] + init;
      ValueCons(b, init);
      assert Value(s) == b + 256 * Value(init) + last * Pow256(|bs|);
      assert last * Pow256(|bs|) == 256 * (last * Pow256(|bs| - 1));
    }
  }

  /** Bytes make a number in [0, 256^n). */
  lemma {:induction false} ValueBounds(bs: seq<int>)
    requires forall k :: 0 <= k < |bs| ==> IsByte(bs[k])
    ensures 0 <= Value(bs) < Pow256(|bs|)
  {
    if |bs| > 0 {
      var init := bs[..|bs| - 1];
      var last := bs[|bs| - 1];
      ValueBounds(init);
      var p := Pow256(|bs| - 1);
      MulBound(last, p);
    }
  }

  lemma MulBound(b: int, p: nat)
    requires IsByte(b)
    ensures 0 <= b * p <= 255 * p
  {
  }

  /**
   * What `payload_node` returns: "heartbeat" when the type byte
   * `payload[0]` is 1 and "unknown" otherwise, and the `%d` rendering of the
   * int64 that the value bytes `payload[1..]` accumulate to (least
   * significant first, wrapping around like Go's int).
   */
  function NodeReading(payload: seq<int>): Reading
    requires |payload| >= 1
  {
    Reading(if payload[0] == 1 then "heartbeat" else "unknown",
            FormatInt(Wrap(Value(payload[1..]))))
  }

  /**
   * `payload_node`: walks the value bytes from the last down to `payload[1]`,
   * shifting the accumulator left by eight bits and adding the byte, in
   * int64 arithmetic.
   */
  method PayloadNode(payload: seq<int>) returns (r: Reading)
    requires |payload| >= 1
    ensures r.kind == (if payload[0] == 1 then "heartbeat" else "unknown")
    ensures r.value == FormatInt(Wrap(Value(payload[1..])))
    ensures r == NodeReading(payload)
  {
    var payloadType := "unknown";
    if payload[0] == 1 {
      payloadType := "heartbeat";
    }
    var payloadValue := 0;
    var i := |payload| - 1;
    while i >= 1
      invariant 0 <= i < |payload|
      invariant payloadValue == Wrap(Value(payload[i + 1..]))
    {
      ghost var rest := payload[i + 1..];
      WrapShiftAdd(Value(rest), payload[i]);
      ValueCons(payload[i], rest);
      assert [payload[i]] + rest == payload[i..];
      payloadValue := Wrap(Wrap(payloadValue * 256) + payload[i]);
      i := i - 1;
    }
    r := Reading(payloadType, FormatInt(payloadValue));
  }

  /**
   * With bytes and at most seven value bytes nothing wraps around: the value
   * printed is the little-endian number itself, lies in [0, 256^(len-1)),
   * and `strconv.Atoi` reads it back.
   */
  lemma NodeReadingOfBytes(payload: seq<int>)
    requires 1 <= |payload| <= 8
    requires forall k :: 0 <= k < |payload| ==> IsByte(payload[k])
    ensures 0 <= Value(payload[1..]) < Pow256(|payload| - 1)
    ensures NodeReading(payload).value == FormatInt(Value(payload[1..]))
    ensures Atoi(NodeReading(payload).value) == Some(Value(payload[1..]))
  {
    var bs := payload[1..];
    ValueBounds(bs);
    Pow256Bound(|bs|);
    AtoiFormatInt(Value(bs));
  }

  lemma Pow256Bound(n: nat)
    requires n <= 7
    ensures Pow256(n) <= 0x100_0000_0000_0000
  {
    assert Pow256(7) == 0x100_0000_0000_0000;
    Pow256Monotonic(n, 7);
  }

  lemma {:induction false} Pow256Monotonic(a: nat, b: nat)
    requires a <= b
    ensures Pow256(a) <= Pow256(b)
  {
    if a < b {
      Pow256Monotonic(a, b - 1);
    }
  }

  /** The node decoder on the documented example payloads `[1, 5]`, `[1, 0, 1]` and `[2]`. */
  lemma NodeExamples()
    ensures NodeReading([1, 5]) == Reading("heartbeat", "5")
    ensures NodeReading([1, 0, 1]) == Reading("heartbeat", "256")
    ensures NodeReading([2]) == Reading("unknown", "0")
  {
    assert [1, 5][1..] == [5];
    assert [1, 0, 1][1..] == [0, 1];
    assert [0, 1][..1] == [0];
    assert Value([0, 1]) == 256;
    assert DecimalDigits(256) == DecimalDigits(25) + "6";
    assert DecimalDigits(25) == "2" + "5";
  }

  /**
   * The signed reading of a DS18B20 scratchpad: `t = high<<8 + low` read as a
   * 16-bit two's-complement number. When `t & 32768` (bit 15) is set the
   * magnitude is `(t ^ 65535) + 1` and the sign negative. The result is the
   * one value in [-32768, 32767] congruent to `t` modulo 2^16, negative
   * exactly when the high byte's top bit is set.
   */
  function SignedReading(low: int, high: int): (v: int)
    requires IsByte(low) && IsByte(high)
    ensures -32768 <= v < 32768
    ensures (v - (high * 256 + low)) % 0x1_0000 == 0
    ensures v < 0 <==> high >= 128
  {
    var t := high * 256 + low;
    Bits16(t);
    if BitAnd(t, 32768) == 0 then t else -(BitXor(t, 65535) + 1)
  }

  /**
   * `v / 16` degrees rounded half-up to tenths: the integer `k` with
   * `k - 1/2 <= 10 * v / 16 < k + 1/2`.
   */
  function Tenths(v: int): (k: int)
    ensures 16 * k <= 10 * v + 8 < 16 * k + 16
  {
    (5 * v + 4) / 8
  }

  function Pow10(n: nat): (p: real)
    ensures p >= 1.0
  {
    if n == 0 then 1.0 else 10.0 * Pow10(n - 1)
  }

  /** `RoundN(f, places)`: `floor(f * 10^places + 0.5) / 10^places`, on exact reals. */
  function RoundN(f: real, places: nat): real
  {
    (f * Pow10(places) + 0.5).Floor as real / Pow10(places)
  }

  /**
   * On a reading in sixteenths of a degree, `RoundN(v / 16, 1)` is exactly
   * `Tenths(v) / 10`.
   */
  lemma RoundNTenths(v: int)
    ensures RoundN(v as real / 16.0, 1) == Tenths(v) as real / 10.0
  {
    var f := v as real / 16.0;
    assert Pow10(1) == 10.0;
    assert RoundN(f, 1) == (f * 10.0 + 0.5).Floor as real / 10.0;
    FloorOfSixteenths(v, Tenths(v));
  }

  lemma FloorOfSixteenths(v: int, k: int)
    requires 16 * k <= 10 * v + 8 < 16 * k + 16
    ensures (v as real / 16.0 * 10.0 + 0.5).Floor == k
  {
    var x := v as real / 16.0 * 10.0 + 0.5;
    assert x == (10 * v + 8) as real / 16.0;
    assert (16 * k) as real <= (10 * v + 8) as real < (16 * k + 16) as real;
    assert k as real <= x < k as real + 1.0;
  }

  /**
   * What `payload_ds18b20` returns: type "temperature" and the `%f` text of
   * the signed reading in degrees, rounded half-up to one decimal.
   */
  function PayloadDs18b20(payload: seq<int>): (r: Reading)
    requires |payload| >= 2 && IsByte(payload[0]) && IsByte(payload[1])
    ensures r.kind == "temperature"
    ensures r.value == FormatTenths(Tenths(SignedReading(payload[0], payload[1])))
  {
    var v := SignedReading(payload[0], payload[1]);
    Reading("temperature", FormatTenths(Tenths(v)))
  }

  /**
   * The printed temperature is within half a tenth of `v / 16` degrees, lies
   * between -2048.0 and 2047.9, and reads back as its tenths.
   */
  lemma Ds18b20Bounds(low: int, high: int)
    requires IsByte(low) && IsByte(high)
    ensures var k := Tenths(SignedReading(low, high));
      16 * k <= 10 * SignedReading(low, high) + 8 < 16 * k + 16 &&
      -20480 <= k <= 20479 &&
      var s := PayloadDs18b20([low, high]).value;
      |s| >= 8 && s[|s| - 7] == '.' && Atoi(s[..|s| - 7] + [s[|s| - 6]]) == Some(k)
  {
    var k := Tenths(SignedReading(low, high));
    FormatTenthsRoundTrip(k);
  }

  /** The DS18B20 decoder on the documented example reading `[0x91, 0x01]`. */
  lemma Ds18b20PositiveReading()
    ensures SignedReading(0x91, 0x01) == 401 && Tenths(401) == 251
  {
    Bits16(401);
  }

  lemma Ds18b20Positive()
    ensures PayloadDs18b20([0x91, 0x01]) == Reading("temperature", "25.100000")
  {
    assert FormatTenths(251) == "25.100000" by {
      assert DecimalDigits(2) == "2";
      assert DecimalDigits(25) == "25";
      assert DigitChar(1) == '1';
      assert FormatTenths(251) == "" + "25" + "." + "1" + "00000";
    }
    Ds18b20PositiveReading();
  }

  lemma Ds18b20NegativeReading()
    ensures SignedReading(0x00, 0xFE) == -512 && Tenths(-512) == -320
  {
    Bits16(0xFE00);
  }

  lemma Ds18b20Negative()
    ensures PayloadDs18b20([0x00, 0xFE]) == Reading("temperature", "-32.000000")
  {
    assert FormatTenths(-320) == "-32.000000" by {
      assert DecimalDigits(3) == "3";
      assert DecimalDigits(32) == "32";
      assert DigitChar(0) == '0';
      assert FormatTenths(-320) == "-" + "32" + "." + "0" + "00000";
    }
    Ds18b20NegativeReading();
  }

  /** Half-up, not half-even: 25.05 rounds to 25.1. */
  lemma RoundNHalfUp()
    ensures RoundN(25.05, 1) == 25.1
  {
    assert Pow10(1) == 10.0;
    assert 25.05 * 10.0 + 0.5 == 251.0;
  }
}
