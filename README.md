# loragps serial protocol, modelled in Dafny

The loragps app talks to a LoRaWAN modem over a USB serial link. This
project models the protocol layer of `src/App.tsx`:

- `asciiToHex`, which encodes the telemetry payload;
- the `ON_READ_DATA` listener, which turns the hex chunks the USB library
  delivers back into characters;
- the module-level `buffer`, which collects those characters into lines;
- `setBuffer`, which classifies a completed line and updates the modem state
  (`networkConnected`, `rssi`) and the rolling log (`serialData`);
- the `ON_CONNECTED` / `ON_DISCONNECTED` listeners;
- one tick of the 5-second poll, which sends `AT+RSSI=?`, `AT+NJS=?` and the
  `AT+SENDB` telemetry frame.

The model is split into modules:

- `JsText` (`js_text.dfy`): the JavaScript string operations the code relies
  on. These are the `\s` class, `replace(/\s/g, '')`, `startsWith`, `split`
  on one character, and the leading-whitespace skip of `parseInt`.
- `Numerals` (`numerals.dfy`): `toString(radix)`, `String(n)`, and `parseInt`
  with no radix. `parseInt` returns `NaN` when it finds no digits, so a
  JavaScript number is `Num(int) | NaN`.
- `HexCodec` (`hex_codec.dfy`): `asciiToHex`, both as the reference function
  `Hex` and as the loop `AsciiToHex`. It also defines the pair-by-pair
  decoding of received chunks, and `ByteHex`, a zero-padded two-digit encoding of
  bytes as the USB library delivers them (written in lower case; `Decode`
  reads either case).
- `Telemetry` (`telemetry.dfy`): the payload template and the `AT+SENDB`
  frame.
- `Modem` (`modem.dfy`): the protocol state as a value (`Snapshot`) and the
  reference functions on it, which are:
  - `Classify`, for the line classification of `setBuffer`;
  - `Flushed`, for the effect of `setBuffer`;
  - `Fed`, for the effect of one `ON_READ_DATA` chunk;
  - `LogAppend`, for the `serialData` update.

  The class `ModemStore` holds the same state as fields. Its methods
  `Connect`, `Disconnect`, `Flush`, `Feed` and `PollTick` update the fields
  the way the listeners do, and each is proved against the reference
  functions.

The hook setters inside `setBuffer` are modelled as assignments made in the
order they are called. The `setSerialData` updater is evaluated at the call,
so it logs the line that is in `buffer` at that moment. `Flush` computes the
new values in locals and writes each field once at the end. This is the same
as assigning in call order, because nothing between the calls reads those
fields.

Behaviour of the code that the model keeps and states:

- **Log size.** The log holds up to 51 entries: `slice(-50)` of the old log,
  then the new line (`LogHoldsLastLines`, `LogAfterManyLines`).
- **RSSI test.** The `Rssi` prefix is tested on the whitespace-free line.
  The split on `' '` and `'\r'` is done on the raw line.
- **Non-numeric RSSI.** A line such as `Rssi abc` stores `NaN` as the RSSI,
  because `parseInt` finds no digits (`ClassifyNonNumericExample`).
- **RSSI line with no space.** Here `parts[1]` is undefined and reading
  `.split` of it throws. `setBuffer` then stops before the log update and
  before `buffer` is cleared. Nothing changes (`Flush` returns `false`).
  If the app keeps running after the error, the buffer keeps the line, so
  the next line is appended to it.
- **Rest of a chunk.** `return setBuffer()` ends the listener at the first
  newline, so the rest of the chunk is dropped (`FedAtNewline`).

Some lemmas are only proof steps and model no line of the code:
`HexCodec.TakeDrop`, `Modem.AppendAt` and `Modem.ConsSplit` are sequence
identities, and `Modem.RssiSpace` and `Modem.NonNumericLine` are facts
about string literals used by the RSSI examples. They have no row below.

## Model

| member | source | states |
|---|---|---|
| JsText.StripWhitespace | src/App.tsx:131 | the result has no `\s` character, is no longer than the input, and equals the input when the input has none; with `StripChar` and `StripConcat` it is exactly the input with its whitespace removed and everything else kept in order |
| JsText.StripChar | src/App.tsx:131 | one character is dropped exactly when it is whitespace and kept otherwise |
| JsText.IsWhitespace | src/App.tsx:131 | the characters `\s` matches: the WhiteSpace and LineTerminator characters of JavaScript |
| JsText.StartsWith | src/App.tsx:141 | `s.startsWith(p)`: `p` is no longer than `s` and is its prefix |
| JsText.StripConcat | src/App.tsx:131 | removing whitespace distributes over concatenation |
| JsText.Split | src/App.tsx:142-143 | at least one part, no part contains the separator, joining the parts with the separator gives back the input, and there is one part exactly when the separator does not occur |
| JsText.SplitWithoutSeparator | src/App.tsx:142-143 | text without the separator splits into one part, the whole text |
| JsText.SplitAtFirst | src/App.tsx:142-143 | the text before the first separator is the first part and the rest is split on its own |
| JsText.TrimStart | src/App.tsx:145 | the result is a suffix of the input, everything dropped is whitespace, and what is left does not start with whitespace |
| Numerals.DigitValue | src/App.tsx:163 | a hex digit's value is below 16, and below 10 exactly for decimal digits; which value each digit has is stated by `DigitValueReadsBack` |
| Numerals.DigitValueReadsBack | src/App.tsx:163 | a lower-case digit is the digit written for its value, and `A` to `F` have the values of `a` to `f` |
| Numerals.DigitChar | src/App.tsx:20 | the lower-case digit for a value below 16 reads back as that value |
| Numerals.ToString | src/App.tsx:20 | `toString(radix)` has at least one digit, only lower-case digits of the radix, no leading zero, and reads back as the number |
| Numerals.ToStringTwoHexDigits | src/App.tsx:20 | a code has a two-digit hex form exactly when it is in 16..255 |
| Numerals.DigitPrefix | src/App.tsx:145 | the digits `parseInt` reads are a prefix of its input, all digits, and followed by a non-digit |
| Numerals.ParseInt | src/App.tsx:145 | `parseInt(s)`: skip leading whitespace, read an optional sign, switch to radix 16 after `0x`/`0X`, then read the longest run of digits, giving NaN when there are none; what it reads is stated by `ParseIntOfIntToString` and `ParseIntNoDigitsExample` |
| Numerals.DigitPrefixOfDigits | src/App.tsx:145 | a run of digits is read in full |
| Numerals.ParseIntOfDigits | src/App.tsx:145 | `parseInt` reads a canonical decimal numeral as its value |
| Numerals.ParseIntOfNegativeDigits | src/App.tsx:145 | `parseInt` reads a minus sign followed by a canonical numeral as the negated value |
| Numerals.ParseIntOfIntToString | src/App.tsx:145 | `parseInt(String(n))` is `n` for every integer |
| HexCodec.Hex | src/App.tsx:16-25 | the encoding is made of lower-case hex digits and has at least one digit per character |
| HexCodec.Concat | src/App.tsx:24 | `join('')`: the pieces concatenated in order with no separator; `AsciiToHex` is proved to produce `Concat` of its pieces, which is `Hex(input)` |
| HexCodec.AsciiToHex | src/App.tsx:16-25 | the push-and-join loop produces exactly `Hex(input)` |
| HexCodec.HexConcat | src/App.tsx:16-25 | the encoding keeps the input's order and adds no separators |
| HexCodec.HexLength | src/App.tsx:16-25 | characters with codes 16..255 give exactly two digits each, so the output is a well-formed chunk |
| HexCodec.HexRoundTrip | src/App.tsx:16-25 | for characters with codes 16..255, decoding the encoding pair by pair gives back the input |
| HexCodec.OneDigitCharsMisalign | src/App.tsx:20 | without zero padding a tab followed by `a` encodes as `961`, so the pairs no longer line up |
| HexCodec.PairValue | src/App.tsx:163 | a pair of hex digits is one byte |
| HexCodec.Decode | src/App.tsx:162-169 | a chunk decodes to one character per pair of digits |
| HexCodec.ChunkConcat | src/App.tsx:162 | chunks glued together are a chunk |
| HexCodec.ChunkPrefix | src/App.tsx:162 | the part of a chunk before a pair boundary is a chunk |
| HexCodec.ChunkSuffix | src/App.tsx:162 | the part of a chunk after a pair boundary is a chunk |
| HexCodec.DecodeConcat | src/App.tsx:162-169 | decoding distributes over concatenation of chunks |
| HexCodec.DecodeSplit | src/App.tsx:162-169 | a chunk cut at a pair boundary decodes as its two halves |
| HexCodec.DecodeAtPair | src/App.tsx:162-169 | reading up to pair `i` adds that pair's character to the characters read so far |
| HexCodec.ByteHex | src/App.tsx:174 | one hex-string encoding the library may deliver: two zero-padded lower-case digits per byte, a well-formed chunk |
| HexCodec.DecodeByteHex | src/App.tsx:162-169 | decoding undoes the library's byte encoding |
| HexCodec.NewlinePair | src/App.tsx:163-165 | the newline byte is read from `0a` and from `0A` alike |
| Telemetry.Payload | src/App.tsx:91 | the template `01,<longitude>,<latitude>,<altitude>` |
| Telemetry.SendCommand | src/App.tsx:91-98 | the frame starts with `AT+SENDB=0,2,` and ends with a newline |
| Telemetry.SendCommandFields | src/App.tsx:91-98 | the length field is the payload's byte count, and the hex field decodes back to the payload |
| Telemetry.EncodableFields | src/App.tsx:91 | the payload can be framed exactly when each coordinate text has only two-digit character codes |
| Modem.LogAppend | src/App.tsx:154-157 | the new log keeps at most 50 old entries, in order, and ends with the new line |
| Modem.LastN | src/App.tsx:155 | the suffix of length `n`, or the whole sequence when it is shorter |
| Modem.LastNDrop | src/App.tsx:155 | entries before the last `n` do not affect `LastN` |
| Modem.LastNOfLastN | src/App.tsx:155 | trimming before appending more does not change the last `n` entries |
| Modem.LogAppendIsLastN | src/App.tsx:154-157 | one append to a log of at most 51 entries gives the last 51 lines |
| Modem.LogHoldsLastLines | src/App.tsx:154-157 | after any sequence of lines the log is the last 51 lines in arrival order |
| Modem.LogAfterManyLines | src/App.tsx:154-157 | from the 51st line on the log has exactly 51 entries, the most recent ones |
| Modem.Classify | src/App.tsx:131-152 | what `setBuffer` makes of a line: `1` or `0` set the join flag; a line whose whitespace-free form starts with `Rssi` is split into its value and join fields, or throws when it has no space; any other line is passed through. What it promises is stated by `ClassifyCases` and the report lemmas |
| Modem.ClassifyCases | src/App.tsx:130-152 | a line throws exactly when it is an RSSI line without a space; it is passed through exactly when it is neither `1`, `0` nor an RSSI line; a line that strips to `1` or `0` is a join flag of true or false, and a join flag is true only for `1` |
| Modem.Flushed | src/App.tsx:130-158 | the state after `setBuffer`, which `Modem.ModemStore.Flush` is proved to produce; what it promises is stated by `FlushedEffects` |
| Modem.FlushedEffects | src/App.tsx:130-158 | a throwing line changes nothing; otherwise the line is logged and the buffer emptied; `1` and `0` set the flag and keep the RSSI; other lines keep both; an RSSI line never clears the flag; well-formedness is kept |
| Modem.RssiPrefix | src/App.tsx:131-141 | a line beginning `Rssi` passes the RSSI test and is not a join flag |
| Modem.IntToStringSeparators | src/App.tsx:142-143 | an integer's text has neither a space nor a carriage return |
| Modem.SplitRssiLine | src/App.tsx:142-143 | `Rssi <value>\r<tail>` splits into `Rssi` and `<value>\r<tail>`, and that into `<value>` and `<tail>` |
| Modem.ClassifyByFields | src/App.tsx:141-151 | an RSSI line reports the parsed first field and a join exactly when the second field is `JOINED` |
| Modem.ClassifyRssiReport | src/App.tsx:141-151 | `Rssi <n>\r<tail>` reports `n`, and reports a join exactly for the tail `JOINED` |
| Modem.FlushRssiReport | src/App.tsx:141-158 | flushing such a line sets the RSSI to `n`, sets the flag for `JOINED` and otherwise keeps it, logs the line and empties the buffer |
| Modem.SplitPlainLine | src/App.tsx:142-143 | `Rssi <value>` with no space or carriage return in the value splits into `Rssi` and the value, and the value into itself |
| Modem.ClassifyBySingleField | src/App.tsx:141-151 | an RSSI line with one field and no carriage return reports that field parsed, and no join |
| Modem.ClassifyPlainValue | src/App.tsx:141-151 | `Rssi <value>` reports `parseInt` of the value and no join |
| Modem.ParseIntNoDigitsExample | src/App.tsx:145 | `parseInt("abc")` is NaN |
| Modem.ClassifyNonNumericExample | src/App.tsx:141-151 | `Rssi abc` is an RSSI report of NaN with no join |
| Modem.IntToStringExample | src/App.tsx:145 | `String(-42)` is `-42` |
| Modem.FlushRssiExample | src/App.tsx:141-151 | `Rssi -42\r` sets the RSSI to -42 and keeps the join flag |
| Modem.FlushJoinedExample | src/App.tsx:141-151 | `Rssi -42\rJOINED` sets the RSSI to -42 and the join flag |
| Modem.Fed | src/App.tsx:161-171 | the state after one chunk, character by character up to the first newline, which `Modem.ModemStore.Feed` is proved to produce; what it promises is stated by `FedWithoutNewline`, `FedAtNewline` and `FedKeepsWellformed` |
| Modem.LineEnd | src/App.tsx:162-167 | the index of the first newline, with no newline before it, or the length when there is none |
| Modem.FedWithoutNewline | src/App.tsx:162-170 | a chunk without a newline appends all of its characters to the buffer in order and changes nothing else |
| Modem.FedAtNewline | src/App.tsx:162-169 | a chunk with a newline appends what precedes the first newline, flushes once, and ignores the rest |
| Modem.LineEndAt | src/App.tsx:162-167 | the first newline of such a chunk is the one after `before` |
| Modem.FedKeepsWellformed | src/App.tsx:161-171 | feeding keeps the buffer free of newlines and the log within 51 entries |
| Modem.FeedWireLine | src/App.tsx:161-171 | a hex chunk, in either case, whose bytes are a line, a newline and anything after flushes exactly that line |
| Modem.ChunkStep | src/App.tsx:162-169 | a pair that is not a newline extends the decoded prefix by its character, still without a newline |
| Modem.ChunkNewline | src/App.tsx:162-167 | the first newline pair makes the chunk flush what was decoded before it |
| Modem.ModemStore.constructor | src/App.tsx:70-80 | startup state: empty buffer, both flags false, RSSI 0, empty log |
| Modem.ModemStore.Connect | src/App.tsx:120-123 | sets the socket flag and nothing else |
| Modem.ModemStore.Disconnect | src/App.tsx:125-128 | clears the socket flag and nothing else; buffer, flags and log stay as they are |
| Modem.ModemStore.Flush | src/App.tsx:130-159 | the new state is `Flushed` of the old one; `ok` is false exactly when the line throws; well-formedness is kept |
| Modem.ModemStore.Feed | src/App.tsx:161-171 | the new state is `Fed` of the old state and the decoded chunk; `ok` is false exactly when a newline was reached and its line threw; well-formedness is kept |
| Modem.ModemStore.PollTick | src/App.tsx:83-101 | nothing is written while the socket is down; otherwise the RSSI query, the join query and, when there is a fix, exactly `SendCommand` of it |

## Left out

- React rendering, the USB device setup calls (`setReturnedDataType`,
  `setAutoConnect`, `startUsbService`), the attach, detach and error
  listeners, `console.log` and `Alert`: they are display and transport
  plumbing.
- The 5-second `setInterval` and the asynchronous `getCurrentPosition`
  callback: `PollTick` models one tick, with the fix that the location call
  delivers (or none) passed in as an argument.
- `setLocation` and `deviceName`: they only feed the display, and they name
  the device the writes go to; the writes are returned in the order they are
  issued.
- Floating-point coordinates: a fix is taken as the three texts JavaScript's
  number formatting produces.
- Modem.ModemStore.PollTick: requires every payload character to have a two-digit code
  (`Encodable`). Number text (digits, `.`, `-`, `+`, `e`, `NaN`, `null`)
  always meets this. Outside it, `hexPayload.length / 2` can be fractional,
  which is not modelled.
- Modem.ModemStore.Feed: requires a well-formed chunk (an even number of hex
  digits). The lenient `parseInt(..., 16)` on an odd tail or non-hex pair, and
  `String.fromCharCode(NaN)`, are not modelled.
- Numerals.ParseIntOfIntToString: integers are unbounded, so the loss of
  precision of JavaScript numbers beyond 2^53 is not modelled.
- Strings are sequences of code points. UTF-16 surrogate pairs and
  `charCodeAt` on them are not modelled.
- The `setSerialData` updater: React may run an updater function later,
  when it processes the queued update. By then line 158 has cleared
  `buffer`, and the updater would log `''`. The model evaluates the updater
  at the call.
- The uncaught `TypeError` of an RSSI line with no space: it escapes the
  `ON_READ_DATA` listener, and what the host then does with it (report it,
  or stop the app) is not modelled. The model continues from the state the
  throw left.
