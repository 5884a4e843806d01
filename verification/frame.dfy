/**
 * The decode step of `parse_input` in receive.go: a serial line is split on
 * single spaces; tokens 0 and 1 (status and timestamp) are ignored, tokens
 * 2..9 form the device id, the rest the payload; the id selects the name and
 * the payload decoder; the result is a Metric of three strings. Also the two
 * names a Metric is published under.
 */
module Frame {
  import opened Wrappers
  import opened GoStrings
  import opened GoFormat
  import opened Converters
  import opened Payload

  /** `Metric{Name, Type, Value}`; every field is a string. */
  datatype Metric = Metric(name: string, kind: string, value: string)

  /** `id_to_name`: the name mapping's entry for the id, or Go's zero value "" when absent. */
  function IdToName(nameMapping: map<string, string>, id: string): (name: string)
    ensures id in nameMapping ==> name == nameMapping[id]
    ensures id !in nameMapping ==> name == ""
  {
    if id in nameMapping then nameMapping[id] else ""
  }

  /** The device id: `integer_strings_to_hexstring(data[2:10])`, its error ignored. */
  function IdOf(data: seq<string>): string
    requires |data| >= 10
  {
    HexString(ParsePrefix(data[2..10]))
  }

  /** The payload: `integer_strings_to_integers(data[10:])`, its error ignored. */
  function PayloadOf(data: seq<string>): seq<int>
    requires |data| >= 10
  {
    ParsePrefix(data[10..])
  }

  /**
   * The frames the decode step handles without a run-time panic: at least ten
   * tokens (`data[2:10]`), a non-empty payload for the node decoder
   * (`payload[0]`), and two payload values for the DS18B20 decoder
   * (`payload[1]`), which must be bytes for the float64 arithmetic to be exact.
   */
  predicate Decodable(data: seq<string>)
  {
    |data| >= 10 &&
    var id := IdOf(data);
    var payload := PayloadOf(data);
    if HasPrefix(id, "0000") then |payload| >= 1
    else if HasPrefix(id, "28") then |payload| >= 2 && IsByte(payload[0]) && IsByte(payload[1])
    else true
  }

  /** The `if/else` on the id prefix that picks the payload decoder. */
  function Dispatch(id: string, payload: seq<int>): Reading
    requires HasPrefix(id, "0000") ==> |payload| >= 1
    requires !HasPrefix(id, "0000") && HasPrefix(id, "28") ==>
      |payload| >= 2 && IsByte(payload[0]) && IsByte(payload[1])
  {
    if HasPrefix(id, "0000") then NodeReading(payload)
    else if HasPrefix(id, "28") then PayloadDs18b20(payload)
    else Reading("unknown", "-")
  }

  /**
   * The Metric decoded from the tokens of one line. Its name is the mapped
   * name of the id (or "" when unmapped), its type one of "heartbeat",
   * "temperature" and "unknown": "temperature" exactly for ids starting with
   * "28" but not "0000", "heartbeat" exactly for node ids whose type byte is 1,
   * and "unknown" with value "-" for every id with neither prefix.
   */
  function DecodeFrame(data: seq<string>, nameMapping: map<string, string>): (m: Metric)
    requires Decodable(data)
    ensures m.name == (if IdOf(data) in nameMapping then nameMapping[IdOf(data)] else "")
    ensures m.kind == "heartbeat" || m.kind == "temperature" || m.kind == "unknown"
    ensures m.kind == "temperature" <==> !HasPrefix(IdOf(data), "0000") && HasPrefix(IdOf(data), "28")
    ensures m.kind == "heartbeat" <==> HasPrefix(IdOf(data), "0000") && PayloadOf(data)[0] == 1
    ensures !HasPrefix(IdOf(data), "0000") && !HasPrefix(IdOf(data), "28") ==>
      m.kind == "unknown" && m.value == "-"
  {
    var id := IdOf(data);
    var reading := Dispatch(id, PayloadOf(data));
    Metric(IdToName(nameMapping, id), reading.kind, reading.value)
  }

  /** Decoding one serial line: `strings.Split(message, " ")`, then DecodeFrame. */
  function DecodeLine(message: string, nameMapping: map<string, string>): Metric
    requires Decodable(Split(message, ' '))
  {
    DecodeFrame(Split(message, ' '), nameMapping)
  }

  /**
   * The body of `parse_input` for one message: the same steps, with the two
   * converters and the node decoder run as their loops.
   */
  method ParseMessage(message: string, nameMapping: map<string, string>) returns (m: Metric)
    requires Decodable(Split(message, ' '))
    ensures m == DecodeLine(message, nameMapping)
  {
    var data := Split(message, ' ');
    var id, idErr := IntegerStringsToHexString(data[2..10]);
    var payload, payloadErr := IntegerStringsToIntegers(data[10..]);
    var name := IdToName(nameMapping, id);
    var reading: Reading;
    if HasPrefix(id, "0000") {
      reading := PayloadNode(payload);
    } else if HasPrefix(id, "28") {
      reading := PayloadDs18b20(payload);
    } else {
      reading := Reading("unknown", "-");
    }
    m := Metric(name, reading.kind, reading.value);
  }

  /** Tokens 2..9 are decimals in 0..255. */
  predicate IdTokensAreBytes(data: seq<string>)
  {
    |data| >= 10 && forall k :: 2 <= k < 10 ==> IsByteToken(data[k])
  }

  /**
   * Eight byte tokens give a 16-character id of lowercase hex pairs, one per
   * token in token order, which read back as the bytes of the tokens.
   */
  lemma IdRoundTrip(data: seq<string>)
    requires IdTokensAreBytes(data)
    ensures var bytes := ParsePrefix(data[2..10]);
      |bytes| == 8 &&
      (forall k :: 0 <= k < 8 ==> Atoi(data[2 + k]) == Some(bytes[k])) &&
      |IdOf(data)| == 16 && IsHexPairs(IdOf(data)) && UnhexPairs(IdOf(data)) == bytes
  {
    var bytes := ParsePrefix(data[2..10]);
    IdTokensParse(data);
    HexStringOfBytes(bytes);
    HexStringRoundTrip(bytes);
  }

  /** The id tokens of such a frame all parse: one byte per token. */
  lemma IdTokensParse(data: seq<string>)
    requires IdTokensAreBytes(data)
    ensures |ParsePrefix(data[2..10])| == 8
    ensures forall k :: 0 <= k < 8 ==>
      Atoi(data[2 + k]) == Some(ParsePrefix(data[2..10])[k]) && IsByte(ParsePrefix(data[2..10])[k])
  {
    var tokens := data[2..10];
    assert forall k :: 0 <= k < 8 ==> tokens[k] == data[2 + k];
    if |ParsePrefix(tokens)| < 8 {
      assert false;
    }
  }

  /**
   * Which decoder a well-formed id selects, in terms of its bytes: first two
   * bytes 0 (prefix "0000") the node decoder, first byte 40 (prefix "28") the
   * DS18B20 decoder, and every other id type "unknown" with value "-",
   * whatever the payload.
   */
  lemma DispatchOnIdBytes(data: seq<string>, nameMapping: map<string, string>)
    requires Decodable(data) && IdTokensAreBytes(data)
    ensures var b := ParsePrefix(data[2..10]);
      |b| == 8 &&
      var m := DecodeFrame(data, nameMapping);
      var r := Reading(m.kind, m.value);
      var p := PayloadOf(data);
      (b[0] == 0 && b[1] == 0 ==> |p| >= 1 && r == NodeReading(p)) &&
      (b[0] == 40 ==> |p| >= 2 && IsByte(p[0]) && IsByte(p[1]) && r == PayloadDs18b20(p)) &&
      (!(b[0] == 0 && b[1] == 0) && b[0] != 40 ==> m.kind == "unknown" && m.value == "-")
  {
    IdTokensParse(data);
    IdPrefixes(ParsePrefix(data[2..10]));
  }

  /**
   * On bytes, the hex text starts with "0000" exactly when the first two
   * bytes are 0, and with "28" exactly when the first byte is 40.
   */
  lemma IdPrefixes(bytes: seq<int>)
    requires |bytes| >= 2 && forall k :: 0 <= k < |bytes| ==> IsByte(bytes[k])
    ensures HasPrefix(HexString(bytes), "0000") <==> bytes[0] == 0 && bytes[1] == 0
    ensures HasPrefix(HexString(bytes), "28") <==> bytes[0] == 40
  {
    var b0, b1 := bytes[0], bytes[1];
    HexStringHead(bytes);
    HexPrefixes(HexString(bytes), b0 / 16, b0 % 16, b1 / 16, b1 % 16);
  }

  /** The first four characters of the hex text of bytes are the `%02x` of the first two. */
  lemma HexStringHead(bytes: seq<int>)
    requires |bytes| >= 2 && IsByte(bytes[0]) && IsByte(bytes[1])
    ensures |HexString(bytes)| >= 4
    ensures HexString(bytes)[..4] == [HexChar(bytes[0] / 16), HexChar(bytes[0] % 16),
                                      HexChar(bytes[1] / 16), HexChar(bytes[1] % 16)]
  {
    var b0, b1, rest := bytes[0], bytes[1], bytes[2..];
    var t := HexString(rest);
    assert [b1] + rest == bytes[1..];
    HexStringCons(b1, rest);
    assert [b0] + bytes[1..] == bytes;
    HexStringCons(b0, bytes[1..]);
    Hex02Byte(b0);
    Hex02Byte(b1);
    var h0, h1 := [HexChar(b0 / 16), HexChar(b0 % 16)], [HexChar(b1 / 16), HexChar(b1 % 16)];
    assert HexString(bytes[1..]) == h1 + t;
    assert HexString(bytes) == h0 + (h1 + t);
    assert (h0 + (h1 + t))[..4] == h0 + h1;
  }

  /**
   * A text that starts with the hex digits of d0 d1 d2 d3 starts with "0000"
   * exactly when all four are 0, and with "28" exactly when d0 d1 are 2 8.
   */
  lemma HexPrefixes(id: string, d0: nat, d1: nat, d2: nat, d3: nat)
    requires d0 < 16 && d1 < 16 && d2 < 16 && d3 < 16
    requires |id| >= 4 && id[..4] == [HexChar(d0), HexChar(d1), HexChar(d2), HexChar(d3)]
    ensures HasPrefix(id, "0000") <==> d0 == 0 && d1 == 0 && d2 == 0 && d3 == 0
    ensures HasPrefix(id, "28") <==> d0 == 2 && d1 == 8
  {
    var c0, c1, c2, c3 := HexChar(d0), HexChar(d1), HexChar(d2), HexChar(d3);
    assert id[..2] == [c0, c1];
    HexCharIs(d0, 0, '0');
    HexCharIs(d1, 0, '0');
    HexCharIs(d2, 0, '0');
    HexCharIs(d3, 0, '0');
    HexCharIs(d0, 2, '2');
    HexCharIs(d1, 8, '8');
    assert HasPrefix(id, "0000") <==> [c0, c1, c2, c3] == "0000";
    assert [c0, c1, c2, c3] == "0000" <==> c0 == '0' && c1 == '0' && c2 == '0' && c3 == '0';
    assert HasPrefix(id, "28") <==> [c0, c1] == "28";
    assert [c0, c1] == "28" <==> c0 == '2' && c1 == '8';
  }

  lemma HexCharIs(d: nat, e: nat, c: char)
    requires d < 16 && e < 10 && c == DigitChar(e)
    ensures HexChar(d) == c <==> d == e
  {
  }

  /**
   * The status and timestamp tokens do not matter: two lines that differ only
   * in their first two tokens decode to the same Metric.
   */
  lemma HeaderIgnored(status: string, timestamp: string, status': string, timestamp': string,
                      rest: string, nameMapping: map<string, string>)
    requires ' ' !in status && ' ' !in timestamp && ' ' !in status' && ' ' !in timestamp'
    requires Decodable(Split(status + " " + timestamp + " " + rest, ' '))
    ensures Decodable(Split(status' + " " + timestamp' + " " + rest, ' '))
    ensures DecodeLine(status + " " + timestamp + " " + rest, nameMapping)
         == DecodeLine(status' + " " + timestamp' + " " + rest, nameMapping)
  {
    SplitHeader(status, timestamp, rest);
    SplitHeader(status', timestamp', rest);
    var data := Split(status + " " + timestamp + " " + rest, ' ');
    var data' := Split(status' + " " + timestamp' + " " + rest, ' ');
    assert data[2..] == data'[2..];
    assert data[2..10] == data[2..][..8] == data'[2..10];
    assert data[10..] == data[2..][8..] == data'[10..];
  }

  lemma SplitHeader(status: string, timestamp: string, rest: string)
    requires ' ' !in status && ' ' !in timestamp
    ensures Split(status + " " + timestamp + " " + rest, ' ')[2..] == Split(rest, ' ')
    ensures |Split(status + " " + timestamp + " " + rest, ' ')| == 2 + |Split(rest, ' ')|
  {
    SplitCons(timestamp, rest, ' ');
    SplitCons(status, timestamp + " " + rest, ' ');
    assert status + " " + timestamp + " " + rest == status + [' '] + (timestamp + [' '] + rest);
  }

  /** `GraphiteName`: `strings.Join([]string{Name, Type, "value"}, ".")`. */
  function GraphiteName(m: Metric): string
  {
    Join([m.name, m.kind, "value"], '.')
  }

  /**
   * The Graphite path is `name.type.value`, and when the name and type hold no
   * dot, splitting it on dots gives back exactly the name, the type and "value".
   */
  lemma GraphiteNameParts(m: Metric)
    ensures GraphiteName(m) == m.name + "." + m.kind + ".value"
    ensures '.' !in m.name && '.' !in m.kind ==>
      Split(GraphiteName(m), '.') == [m.name, m.kind, "value"]
  {
    assert [m.name, m.kind, "value"][1..] == [m.kind, "value"];
    assert [m.kind, "value"][1..] == ["value"];
    assert Join([m.kind, "value"], '.') == m.kind + "." + "value";
    assert GraphiteName(m) == m.name + "." + (m.kind + "." + "value");
    if '.' !in m.name && '.' !in m.kind {
      SplitJoin([m.name, m.kind, "value"], '.');
    }
  }

  /** `MQTTTopic` of receive.go: the configured topic prefix, a slash and the name. */
  function MqttTopic(topicPrefix: string, m: Metric): string
  {
    topicPrefix + "/" + m.name
  }

  /**
   * When neither the prefix nor the name holds a slash, the topic has exactly
   * two levels: the prefix and the name.
   */
  lemma MqttTopicParts(topicPrefix: string, m: Metric)
    requires '/' !in topicPrefix && '/' !in m.name
    ensures Split(MqttTopic(topicPrefix, m), '/') == [topicPrefix, m.name]
  {
    SplitJoin([topicPrefix, m.name], '/');
    assert Join([topicPrefix, m.name], '/') == MqttTopic(topicPrefix, m);
  }
}
