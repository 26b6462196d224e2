/** The outbound side of the poll tick: the two modem queries and the
    `AT+SENDB` command that carries a position fix. */
module Telemetry {
  import opened JsText
  import opened Numerals
  import opened HexCodec

  datatype Option<T> = None | Some(value: T)

  /** A position fix. The coordinates are the decimal text JavaScript's
      number formatting gives them, taken as already produced. */
  datatype Fix = Fix(longitude: string, latitude: string, altitude: string)

  const RssiQuery: string := "AT+RSSI=?\n"
  const JoinQuery: string := "AT+NJS=?\n"
  const SendPrefix: string := "AT+SENDB=0,2,"

  /** The template `01,<longitude>,<latitude>,<altitude>`. */
  function Payload(fix: Fix): string {
    "01," + fix.longitude + "," + fix.latitude + "," + fix.altitude
  }

  /** Number text is made of characters from `+` to `z`, all of which have
      two-digit codes; this is what the length field relies on. */
  predicate Encodable(fix: Fix) {
    AllTwoDigitChars(Payload(fix))
  }

  /** `AT+SENDB=0,2,<len>,<hex>\n` with `hex = asciiToHex(payload)` and
      `len = hex.length / 2`. */
  function SendCommand(fix: Fix): (cmd: string)
    requires Encodable(fix)
    ensures StartsWith(cmd, SendPrefix) && cmd[|cmd| - 1] == '\n'
  {
    var hex := Hex(Payload(fix));
    SendPrefix + ToString(|hex| / 2, 10) + "," + hex + "\n"
  }

  /** The fields of the command describe the payload: the length field is
      the payload's byte count, and the hex field reads back as the payload. */
  lemma SendCommandFields(fix: Fix)
    requires Encodable(fix)
    ensures IsHexChunk(Hex(Payload(fix)))
    ensures SendCommand(fix)
            == SendPrefix + ToString(|Payload(fix)|, 10) + "," + Hex(Payload(fix)) + "\n"
    ensures Decode(Hex(Payload(fix))) == Payload(fix)
    ensures ValueIn(10, ToString(|Payload(fix)|, 10)) == |Decode(Hex(Payload(fix)))|
  {
    HexLength(Payload(fix));
    HexRoundTrip(Payload(fix));
  }

  /** A fix is encodable exactly when its three coordinate texts are. */
  lemma EncodableFields(fix: Fix)
    ensures Encodable(fix)
            <==> AllTwoDigitChars(fix.longitude) && AllTwoDigitChars(fix.latitude)
                 && AllTwoDigitChars(fix.altitude)
  {
    var p := Payload(fix);
    var lo, la, al := fix.longitude, fix.latitude, fix.altitude;
    assert forall i | 0 <= i < |lo| :: p[3 + i] == lo[i];
    assert forall i | 0 <= i < |la| :: p[4 + |lo| + i] == la[i];
    assert forall i | 0 <= i < |al| :: p[5 + |lo| + |la| + i] == al[i];
  }
}
