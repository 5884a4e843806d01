# Frame decoder of the 1-Wire serial bridge, in Dafny

This project models the decode step of `receive.go`. The bridge reads lines
of space-separated decimal tokens that a 1-Wire microcontroller writes to a
serial port. Each line becomes a `Metric{Name, Type, Value}` of three
strings. In a line, tokens 0 and 1 (status, timestamp) are ignored. Tokens
2..9 are rendered as a 16-digit lowercase hex device id, and the remaining
tokens are the integer payload. The id is looked up in the name mapping and
picks the payload decoder:
- `0000…` selects the node decoder (heartbeat plus a multi-byte counter);
- `28…` selects the DS18B20 decoder (temperature in tenths of a degree);
- anything else gives type `unknown` with value `-`.

The Graphite path and the MQTT topic of a metric are modelled too.

Modules, one concern each:

- `GoStrings` (go_strings.dfy): `strings.Split`, `strings.Join` and
  `strings.HasPrefix` for a one-character separator.
- `GoInt` (go_int.dfy): Go's 64-bit `int`, meaning its range, its
  wrap-around, and `&` and `^` on non-negative values.
- `GoFormat` (go_format.dfy): `strconv.Atoi` and `fmt.Sprintf` with `%d`,
  `%02x` and the `%f` of a value in tenths.
- `Converters` (converters.dfy): `integer_strings_to_integers` and
  `integer_strings_to_hexstring` as loops. Both are proved against
  `ParsePrefix`, the values of the tokens before the first one `Atoi`
  rejects.
- `Payload` (payload.dfy): `payload_node` as its downward loop, and
  `payload_ds18b20` with `RoundN`.
- `Frame` (frame.dfy): the Metric, `id_to_name`, the decode and dispatch
  of `parse_input`, `GraphiteName` and `MQTTTopic`.

Go's run-time panics become preconditions (`Frame.Decodable`). A line with
fewer than ten tokens panics at `data[2:10]`. A node payload that is empty
panics at `payload[0]`. A DS18B20 payload with fewer than two values panics
at `payload[0]` (when empty) or at `payload[1]`. Malformed tokens do not panic: the converters' errors are
discarded, so a bad id token truncates the id and a bad payload token
truncates the payload. The model keeps that behaviour.

The globals `cfg.NameMapping` and `cfg.MQTT.TopicPrefix` are explicit
parameters.

The model follows receive.go exactly, including these points, where one
might expect the opposite:
- For an unknown id the value is `"-"`, not `0`.
- The node decoder makes the LAST payload byte the most significant and
  `payload[1]` the least, so the example payload `[1, 0, 1]` gives `256`.
- An empty node payload is a panic, not a silent `0`.
- The MQTT topic of receive.go is `prefix + "/" + name`, without the type.

DS18B20 arithmetic: for a signed reading `v` in [-32768, 32767],
`float64(v)/16`, `*10`, `+0.5` and `Floor` are all exact in float64. So
`RoundN(v/16, 1)` is the float64 nearest to `k/10`, where
`k = floor((5v+4)/8)`. `%f` prints that float as `k/10` with six decimals,
because the float is off from `k/10` by far less than 5e-7. The model
therefore works on the integer tenths `k` (`Payload.Tenths`). It also states
`RoundN` on exact reals and proves the two agree (`Payload.RoundNTenths`).

## Model

| member | source | states |
|---|---|---|
| `GoStrings.Join` | receive.go:258 | defined as `strings.Join` with a one-character separator: the parts with the separator between neighbours (its inverse is `GoStrings.SplitJoin`) |
| `GoStrings.HasPrefix` | receive.go:240 | defined as `strings.HasPrefix`: the text is at least as long as the prefix and begins with it |
| `GoStrings.Split` | receive.go:225 | splitting on a space gives at least one piece, no piece holds the separator, and the pieces joined with it give back the line |
| `GoStrings.SplitJoin` | receive.go:225 | splitting undoes joining for separator-free pieces, so Split is the unique such decomposition |
| `GoStrings.SplitCons` | receive.go:225 | a separator-free first token followed by a space splits off as the first piece |
| `GoFormat.Atoi` | receive.go:265 | every value `strconv.Atoi` accepts is a non-empty token whose value lies in the int64 range |
| `GoFormat.FormatInt` | receive.go:305 | `%d` of an int: a non-empty text that starts with `-` exactly for negative values, every character other than that sign a decimal digit |
| `GoFormat.AtoiFormatInt` | receive.go:305 | `strconv.Atoi` reads back exactly the int64 that `%d` printed |
| `GoFormat.DigitsRoundTrip` | receive.go:305 | the decimal digits of n read back as n |
| `GoFormat.Hex02` | receive.go:285 | defined as `%02x`: lowercase hex digits zero-padded to two columns, with one column kept for the `-` of a negative value |
| `GoFormat.Hex02Byte` | receive.go:285 | `%02x` of a value in 0..255 is exactly two lowercase hex digits, high nibble first |
| `GoFormat.Hex02Examples` | receive.go:285 | `%02x` gives `0d`, `28` and `ff` for bytes, and `-5`, `-10` and `100` outside the byte range |
| `GoFormat.FormatTenths` | receive.go:325 | defined as the `%f` text of `k/10`: sign, whole degrees, a point, the tenths digit and five zeros |
| `GoFormat.FormatTenthsRoundTrip` | receive.go:325 | the printed temperature ends in a point, one decimal and five zeros, and reads back as its tenths |
| `GoInt.Wrap` | receive.go:302 | the int64 a value wraps to is in range, congruent to it modulo 2^64, and the value itself when it fits |
| `GoInt.WrapShiftAdd` | receive.go:302 | `v<<8 + b` with every operation wrapping equals the wrapped exact `v*256 + b`, even for an already wrapped `v` |
| `GoInt.BitAnd` | receive.go:315 | defined as Go's `&` on non-negative ints, bit by bit from the least significant |
| `GoInt.BitXor` | receive.go:322 | defined as Go's `^` on non-negative ints, bit by bit from the least significant |
| `GoInt.BitAndPow2` | receive.go:315 | masking with bit n tests whether a value below 2^(n+1) reaches 2^n |
| `GoInt.BitXorAllOnes` | receive.go:322 | xor with n one-bits is the complement 2^n - 1 - t |
| `GoInt.Bits16` | receive.go:315-322 | on a 16-bit value, `t & 32768` is zero exactly below 32768 and `t ^ 65535` is `65535 - t` |
| `Converters.ParsePrefix` | receive.go:261-274 | the values of the tokens up to the first rejected one: one per accepted token in order, stopping exactly at the first token Atoi rejects |
| `Converters.IntegerStringsToIntegers` | receive.go:261-274 | the loop returns the parsed prefix, and as error the first rejected token; no error exactly when there is one integer per token |
| `Converters.IntegerStringsToHexString` | receive.go:276-289 | the loop returns `%02x` of the parsed prefix concatenated in order, and as error the first rejected token |
| `Converters.FirstRejected` | receive.go:264-271 | defined as the first token Atoi rejects, or none when every token parses: the error both converters return |
| `Converters.SamePrefix` | receive.go:264-271 | values matching the tokens one by one and ending at the first rejection are the parsed prefix |
| `Converters.HexString` | receive.go:279-286 | defined as the buffer's contents: the `%02x` text of each value, concatenated in order |
| `Converters.HexStringOfBytes` | receive.go:279-286 | on bytes the hex text has two lowercase hex digits per value, in value order |
| `Converters.HexStringSnoc` | receive.go:285 | writing one more value to the buffer appends exactly its `%02x` text |
| `Converters.HexStringCons` | receive.go:279-286 | the hex text of a value followed by more values starts with that value's `%02x` text and continues with theirs |
| `Converters.HexStringRoundTrip` | receive.go:276-289 | the hex text of bytes reads back, pair by pair, as the same bytes |
| `Payload.ValueCons` | receive.go:301-303 | one Horner step: a byte on the low end plus 256 times the rest is the little-endian sum |
| `Payload.ValueBounds` | receive.go:299-303 | n bytes make a number in [0, 256^n) |
| `Payload.NodeReading` | receive.go:291-306 | defined as the node decoder's result: "heartbeat" when `payload[0] == 1`, else "unknown", and `%d` of the int64-wrapped little-endian value of `payload[1..]` |
| `Payload.PayloadNode` | receive.go:291-306 | type is "heartbeat" exactly when `payload[0] == 1`, else "unknown"; value is `%d` of the wrapped sum of `payload[i]*256^(i-1)` |
| `Payload.NodeReadingOfBytes` | receive.go:299-305 | with byte values and at most 7 value bytes nothing wraps: the value lies in [0, 256^(len-1)) and the printed text reads back as it |
| `Payload.NodeExamples` | receive.go:291-306 | `[1,5]` gives heartbeat "5", `[1,0,1]` gives heartbeat "256", `[2]` gives unknown "0" |
| `Payload.SignedReading` | receive.go:309-323 | `high<<8 + low` as 16-bit two's complement: in [-32768, 32767], congruent to the raw value modulo 2^16, negative exactly when the high byte's top bit is set |
| `Payload.Tenths` | receive.go:330-333 | the tenths are the half-up rounding of `10*v/16` |
| `Payload.RoundN` | receive.go:330-333 | defined as `floor(f * 10^places + 0.5) / 10^places` on exact reals |
| `Payload.RoundNTenths` | receive.go:330-333 | `RoundN(v/16, 1)`, the `floor(x*10 + 0.5)/10` of the source on exact reals, is exactly `Tenths(v)/10` |
| `Payload.RoundNHalfUp` | receive.go:330-333 | `RoundN(25.05, 1)` is 25.1: rounding is half-up, not half-even |
| `Payload.PayloadDs18b20` | receive.go:308-328 | type is always "temperature"; value is the `%f` text of the signed reading's half-up tenths |
| `Payload.Ds18b20Bounds` | receive.go:325 | the tenths lie in [-20480, 20479] and the printed value reads back as them |
| `Payload.Ds18b20PositiveReading` | receive.go:312-322 | scratchpad bytes `[0x91, 0x01]` give the signed reading 401 and 251 tenths |
| `Payload.Ds18b20Positive` | receive.go:308-328 | scratchpad bytes `[0x91, 0x01]` (401/16 degrees) are printed "25.100000" |
| `Payload.Ds18b20NegativeReading` | receive.go:312-322 | scratchpad bytes `[0x00, 0xFE]` give the signed reading -512 and -320 tenths |
| `Payload.Ds18b20Negative` | receive.go:308-328 | scratchpad bytes `[0x00, 0xFE]` are printed "-32.000000" |
| `Frame.IdToName` | receive.go:215-217 | the name is the mapping's entry for a mapped id and `""` for an unmapped one |
| `Frame.Dispatch` | receive.go:240-247 | defined as the `if/else` on the id: prefix "0000" runs the node decoder, else prefix "28" the DS18B20 decoder, else "unknown" and "-" |
| `Frame.DecodeFrame` | receive.go:225-249 | name is the mapped name of the id or ""; type is one of heartbeat, temperature, unknown; temperature exactly for ids starting "28" but not "0000"; heartbeat exactly for "0000" ids with type byte 1; "unknown" and "-" for ids with neither prefix |
| `Frame.IdOf` | receive.go:231 | defined as the hex text of the parsed prefix of tokens 2..9, the converter's error discarded |
| `Frame.PayloadOf` | receive.go:232 | defined as the parsed prefix of the tokens from 10 on, the converter's error discarded |
| `Frame.Decodable` | receive.go:231-243 | defined as the frames the decode step handles without a panic: ten tokens for `data[2:10]`, a non-empty payload for a "0000" id (`payload[0]`, receive.go:292), two byte-valued payload values for a "28" id (`payload[1]`, receive.go:310) |
| `Frame.DecodeLine` | receive.go:225-249 | defined as splitting the line on single spaces and decoding the tokens with `DecodeFrame` |
| `Frame.ParseMessage` | receive.go:225-249 | running the converter loops and the node loop on one line gives the Metric DecodeLine specifies |
| `Frame.IdTokensParse` | receive.go:231 | eight byte tokens parse to eight bytes, one per token |
| `Frame.IdRoundTrip` | receive.go:231 | eight byte tokens give a 16-character lowercase hex id that reads back as their bytes in token order |
| `Frame.DispatchOnIdBytes` | receive.go:240-247 | first two id bytes 0 selects the node decoder, first byte 40 the DS18B20 decoder, any other id gives "unknown" and "-" whatever the payload |
| `Frame.IdPrefixes` | receive.go:240-242 | on byte ids the hex id starts with "0000" exactly when the first two bytes are 0, and with "28" exactly when the first byte is 40 |
| `Frame.HexStringHead` | receive.go:279-286 | the first four characters of the id are the two hex digits of the first byte followed by those of the second |
| `Frame.HexPrefixes` | receive.go:240-242 | a text opening with four hex digits starts with "0000" exactly when all four are 0, and with "28" exactly when the first two are 2 and 8 |
| `Frame.HeaderIgnored` | receive.go:225-232 | lines differing only in their status and timestamp tokens decode to the same Metric |
| `Frame.SplitHeader` | receive.go:225-230 | after two space-free header tokens, the remaining tokens are the split of the rest of the line |
| `Frame.GraphiteName` | receive.go:257-259 | defined as the name, the type and "value" joined with dots |
| `Frame.GraphiteNameParts` | receive.go:257-259 | the Graphite path is `name.type.value`, and splitting it on dots recovers name, type and "value" when they hold no dot |
| `Frame.MqttTopic` | receive.go:183-185 | defined as the topic prefix, a slash and the name |
| `Frame.MqttTopicParts` | receive.go:183-185 | the MQTT topic is the prefix and the name as two slash-separated levels |

## Left out

- The channel loop of `parse_input` (receive.go:219-223, 251-253) is not modelled. Neither are `read_from_tty`, `send_to_mqtt`, `send_to_graphite` and `main`. They are goroutines, channels, serial and network I/O.
- The `log` calls are not modelled, because they are output only.
- `reset_tty` is not modelled, because it runs the external `stty` program.
- `read_configuration` is not modelled, because it is file I/O plus YAML decoding. The name mapping and topic prefix are parameters instead.
- `MQTTValue` is not modelled, because it is `encoding/json` marshalling.
- mqtt.go, graphite.go, config.go and main.go are not part of this model. Their pure helpers repeat receive.go, except two. The path.Join topic of mqtt.go is not modelled. `GraphiteValue` (a `%f` of a float) is not modelled either.
- `Payload.PayloadDs18b20`: requires both reading bytes in 0..255. The protocol guarantees this. For other integers, float64 rounding of large values would matter, and it is not modelled.
- `Payload.SignedReading`: requires both bytes in 0..255, for the same reason; the source's result for other integers is not modelled.
- `Frame.Decodable`: demands byte-valued first two payload values for a "28" id, for the same reason, so frames with other DS18B20 payload values are not covered.
- `Frame.Dispatch`: carries the same byte-range requirement on a DS18B20 payload.
- `Frame.DecodeFrame`: inherits the byte-range requirement through `Frame.Decodable`.
- `Frame.ParseMessage`: inherits the byte-range requirement through `Frame.Decodable`.
- `Frame.DecodeLine`: inherits the byte-range requirement through `Frame.Decodable`.
- `Frame.HeaderIgnored`: inherits the byte-range requirement through `Frame.Decodable`.
- `GoInt.Wrap`: Go's `int` is taken to be 64 bits. On a 32-bit target the range `GoFormat.Atoi` accepts and the wrap-around of `Payload.PayloadNode` would be modulo 2^32 instead; that target is not modelled.
- `Payload.RoundN`: modelled on exact reals, not float64. On the DS18B20 range the two agree, as argued above.
- `GoFormat.FormatTenths`: this is `%f` of the float64 nearest `k/10`. The model relies on the exactness argument above, not on a model of float formatting.
- `GoFormat.Atoi`: models which tokens are accepted and their values. It does not distinguish Go's syntax error from its range error; both are discarded by the decoder.
