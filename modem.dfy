/** The serial protocol state of the app: the line accumulator fed by the
    `ON_READ_DATA` listener, the `setBuffer` classifier with the modem
    state it updates, the connect and disconnect flags, and the poll tick
    that queries the modem and sends the position. */
module Modem {
  import opened JsText
  import opened Numerals
  import opened HexCodec
  import opened Telemetry

  /** `serialData.slice(-50)` keeps this many old entries before the new one. */
  const LogKeep: nat := 50

  /** `[...serialData.slice(-50), line]`. */
  function LogAppend(log: seq<string>, line: string): (r: seq<string>)
    ensures |r| == (if |log| < LogKeep then |log| else LogKeep) + 1
    ensures r[|r| - 1] == line
    ensures r[..|r| - 1] == log[|log| - (|r| - 1)..]
  {
    var kept := if |log| <= LogKeep then log else log[|log| - LogKeep..];
    assert (kept + [line])[..|kept|] == kept;
    kept + [line]
  }

  /** The last `n` elements of `s`, or all of them if there are fewer. */
  function LastN(s: seq<string>, n: nat): (r: seq<string>)
    ensures |r| == if |s| < n then |s| else n
    ensures r == s[|s| - |r|..]
  {
    if |s| <= n then s else s[|s| - n..]
  }

  /** The log after appending several lines one after the other. */
  function AppendAll(log: seq<string>, lines: seq<string>): seq<string>
    decreases |lines|
  {
    if lines == [] then log else AppendAll(LogAppend(log, lines[0]), lines[1..])
  }

  lemma AppendAt(x: seq<string>, y: seq<string>, k: nat)
    requires k <= |x|
    ensures x + y == x[..k] + (x[k..] + y)
  {
  }

  /** Entries before the last `n` do not matter to `LastN`. */
  lemma LastNDrop(p: seq<string>, z: seq<string>, n: nat)
    requires |z| >= n
    ensures LastN(p + z, n) == LastN(z, n)
  {
    var pz := p + z;
    assert pz[|pz| - n..] == z[|z| - n..];
  }

  lemma LastNOfLastN(x: seq<string>, y: seq<string>, n: nat)
    ensures LastN(LastN(x, n) + y, n) == LastN(x + y, n)
  {
    if |x| > n {
      var k := |x| - n;
      assert LastN(x, n) == x[k..];
      AppendAt(x, y, k);
      LastNDrop(x[..k], x[k..] + y, n);
    } else {
      assert LastN(x, n) == x;
    }
  }

  /** One append to a log of at most 51 entries keeps the last 51 lines. */
  lemma LogAppendIsLastN(log: seq<string>, line: string)
    requires |log| <= LogKeep + 1
    ensures LogAppend(log, line) == LastN(log + [line], LogKeep + 1)
  {
  }

  lemma ConsSplit(log: seq<string>, lines: seq<string>)
    requires lines != []
    ensures (log + [lines[0]]) + lines[1..] == log + lines
  {
  }

  /** The log always holds the most recent 51 lines, in arrival order: 50
      kept by the slice plus the one appended. */
  lemma {:induction false} LogHoldsLastLines(log: seq<string>, lines: seq<string>)
    requires |log| <= LogKeep + 1
    ensures AppendAll(log, lines) == LastN(log + lines, LogKeep + 1)
    decreases |lines|
  {
    if lines == [] {
      assert log + lines == log;
    } else {
      var next := LogAppend(log, lines[0]);
      LogAppendIsLastN(log, lines[0]);
      LogHoldsLastLines(next, lines[1..]);
      LastNOfLastN(log + [lines[0]], lines[1..], LogKeep + 1);
      ConsSplit(log, lines);
    }
  }

  /** From the 51st line on the log has exactly 51 entries: the most recent
      lines, oldest first. */
  lemma LogAfterManyLines(lines: seq<string>)
    requires |lines| >= LogKeep + 1
    ensures |AppendAll([], lines)| == LogKeep + 1
    ensures AppendAll([], lines) == lines[|lines| - (LogKeep + 1)..]
  {
    var empty: seq<string> := [];
    assert empty + lines == lines;
    LogHoldsLastLines(empty, lines);
  }

  /** The state the protocol layer keeps: the module-level `buffer` and the
      `socketConnected`, `networkConnected`, `rssi` and `serialData` hooks. */
  datatype Snapshot = Snapshot(
    buffer: string,
    socketConnected: bool,
    networkConnected: bool,
    rssi: JsNumber,
    log: seq<string>)

  /** The values at startup. */
  const Initial: Snapshot := Snapshot("", false, false, Num(0), [])

  /** What every operation keeps: no newline waits in the buffer and the log
      holds at most 51 lines. */
  predicate Wellformed(s: Snapshot) {
    '\n' !in s.buffer && |s.log| <= LogKeep + 1
  }

  /** What `setBuffer` makes of a completed line. */
  datatype Response =
    | JoinFlag(joined: bool)
    | SignalReport(rssi: JsNumber, joined: bool)
    | Other
      /** `parts[1]` is undefined because the line has no space: reading
          `.split` of it throws and the rest of `setBuffer` does not run. */
    | MissingRssiField

  /** The `"Rssi"` test is made on the whitespace-free line. */
  predicate IsRssiLine(line: string) {
    StartsWith(StripWhitespace(line), "Rssi")
  }

  function Classify(line: string): Response {
    var t := StripWhitespace(line);
    if t == "1" then JoinFlag(true)
    else if t == "0" then JoinFlag(false)
    else if StartsWith(t, "Rssi") then
      var parts := Split(line, ' ');
      if |parts| < 2 then MissingRssiField
      else
        var valueParts := Split(parts[1], '\r');
        SignalReport(ParseInt(valueParts[0]), |valueParts| > 1 && valueParts[1] == "JOINED")
    else Other
  }

  /** Which kind of response a line is: `"1"` and `"0"` are join flags,
      an RSSI line throws exactly when it has no space, and every other
      line is passed through. */
  lemma ClassifyCases(line: string)
    ensures var r := Classify(line);
            && (r.MissingRssiField? <==> IsRssiLine(line) && ' ' !in line)
            && (r.Other? <==>
                  StripWhitespace(line) != "1" && StripWhitespace(line) != "0" && !IsRssiLine(line))
            && (r.JoinFlag? ==> r.joined == (StripWhitespace(line) == "1"))
            && (StripWhitespace(line) == "1" ==> r == JoinFlag(true))
            && (StripWhitespace(line) == "0" ==> r == JoinFlag(false))
  {
  }

  /** `setBuffer` would throw on this line. */
  predicate FlushThrows(line: string) {
    Classify(line).MissingRssiField?
  }

  /** The state after `setBuffer` runs on the current buffer. */
  function Flushed(s: Snapshot): Snapshot {
    var logged := LogAppend(s.log, s.buffer);
    match Classify(s.buffer)
    case MissingRssiField => s
    case JoinFlag(b) => s.(networkConnected := b, log := logged, buffer := [])
    case SignalReport(v, joined) =>
      s.(rssi := v, networkConnected := s.networkConnected || joined, log := logged, buffer := [])
    case Other => s.(log := logged, buffer := [])
  }

  /** What a flush does to the state: `"1"` and `"0"` set the join flag,
      other lines that are not RSSI reports leave flag and RSSI alone, an
      RSSI report never clears the flag; every line that does not throw is
      logged and empties the buffer, and one that throws changes nothing. */
  lemma FlushedEffects(s: Snapshot)
    ensures var r := Flushed(s);
            && r.socketConnected == s.socketConnected
            && (FlushThrows(s.buffer) ==> r == s)
            && (!FlushThrows(s.buffer) ==> r.buffer == [] && r.log == LogAppend(s.log, s.buffer))
            && (StripWhitespace(s.buffer) == "1" ==> r.networkConnected && r.rssi == s.rssi)
            && (StripWhitespace(s.buffer) == "0" ==> !r.networkConnected && r.rssi == s.rssi)
            && (Classify(s.buffer).Other? ==>
                  r.networkConnected == s.networkConnected && r.rssi == s.rssi)
            && (IsRssiLine(s.buffer) && s.networkConnected ==> r.networkConnected)
            && (Wellformed(s) ==> Wellformed(r))
  {
  }

  /** Any line that begins with `Rssi` passes the RSSI test. */
  lemma RssiPrefix(rest: string)
    ensures IsRssiLine("Rssi" + rest)
    ensures StripWhitespace("Rssi" + rest) != "1" && StripWhitespace("Rssi" + rest) != "0"
  {
    StripConcat("Rssi", rest);
    assert StripWhitespace("Rssi") == "Rssi";
    assert (StripWhitespace("Rssi") + StripWhitespace(rest))[..4] == "Rssi";
  }

  /** `String(n)` has neither a space nor a carriage return. */
  lemma IntToStringSeparators(n: int)
    ensures ' ' !in IntToString(n) && '\r' !in IntToString(n)
  {
    var m := if n < 0 then -n else n;
    var d := ToString(m, 10);
    forall i | 0 <= i < |d|
      ensures d[i] != ' ' && d[i] != '\r'
    {
      assert IsLowerHexDigit(d[i]);
    }
    if n < 0 {
      assert IntToString(n) == "-" + d;
    }
  }

  /** How `split` takes `Rssi <value>\r<tail>` apart. */
  lemma SplitRssiLine(value: string, tail: string)
    requires ' ' !in value && '\r' !in value && ' ' !in tail && '\r' !in tail
    ensures Split("Rssi " + value + "\r" + tail, ' ') == ["Rssi", value + "\r" + tail]
    ensures Split(value + "\r" + tail, '\r') == [value, tail]
  {
    var x := value + "\r" + tail;
    assert "Rssi " + value + "\r" + tail == "Rssi" + [' '] + x;
    assert ' ' !in x;
    SplitAtFirst("Rssi", x, ' ');
    SplitWithoutSeparator(x, ' ');
    assert x == value + ['\r'] + tail;
    SplitAtFirst(value, tail, '\r');
    SplitWithoutSeparator(tail, '\r');
  }

  /** An RSSI line whose fields `split` takes apart as `value` and `tail`. */
  lemma ClassifyByFields(line: string, value: string, tail: string)
    requires IsRssiLine(line)
    requires StripWhitespace(line) != "1" && StripWhitespace(line) != "0"
    requires Split(line, ' ') == ["Rssi", value + "\r" + tail]
    requires Split(value + "\r" + tail, '\r') == [value, tail]
    ensures Classify(line) == SignalReport(ParseInt(value), tail == "JOINED")
  {
  }

  /** A line `Rssi <n>\r<tail>` reports `n`, and reports a join only for
      the tail `JOINED`. */
  lemma ClassifyRssiReport(n: int, tail: string)
    requires ' ' !in tail && '\r' !in tail
    ensures Classify("Rssi " + IntToString(n) + "\r" + tail) == SignalReport(Num(n), tail == "JOINED")
  {
    var d := IntToString(n);
    var rest := " " + d + "\r" + tail;
    var line := "Rssi " + d + "\r" + tail;
    assert line == "Rssi" + rest;
    IntToStringSeparators(n);
    SplitRssiLine(d, tail);
    ParseIntOfIntToString(n);
    RssiPrefix(rest);
    ClassifyByFields(line, d, tail);
  }

  /** Flushing such a line sets `rssi` to `n`, sets the join flag for the
      tail `JOINED` and otherwise leaves it as it was (never clearing it),
      logs the line and empties the buffer. */
  lemma FlushRssiReport(s: Snapshot, n: int, tail: string)
    requires ' ' !in tail && '\r' !in tail
    ensures var line := "Rssi " + IntToString(n) + "\r" + tail;
            var r := Flushed(s.(buffer := line));
            && r.rssi == Num(n)
            && r.networkConnected == (s.networkConnected || tail == "JOINED")
            && r.log == LogAppend(s.log, line)
            && r.buffer == []
  {
    ClassifyRssiReport(n, tail);
  }

  lemma IntToStringExample()
    ensures IntToString(-42) == "-42"
  {
    assert ToString(4, 10) == "4";
    assert ToString(42, 10) == "42";
  }

  /** The modem's report `Rssi -42\r` (the newline already taken off by
      the accumulator) sets the RSSI and leaves the join flag alone. */
  lemma FlushRssiExample(s: Snapshot)
    ensures Flushed(s.(buffer := "Rssi -42\r")).rssi == Num(-42)
    ensures Flushed(s.(buffer := "Rssi -42\r")).networkConnected == s.networkConnected
  {
    IntToStringExample();
    assert "Rssi " + IntToString(-42) + "\r" + "" == "Rssi -42\r";
    FlushRssiReport(s, -42, "");
  }

  /** `Rssi -42\rJOINED` sets the RSSI and the join flag. */
  lemma FlushJoinedExample(s: Snapshot)
    ensures Flushed(s.(buffer := "Rssi -42\rJOINED")).rssi == Num(-42)
    ensures Flushed(s.(buffer := "Rssi -42\rJOINED")).networkConnected
  {
    IntToStringExample();
    var tail := "JOINED";
    assert ' ' !in tail && '\r' !in tail;
    assert "Rssi " + IntToString(-42) + "\r" + tail == "Rssi -42\rJOINED";
    FlushRssiReport(s, -42, tail);
  }

  /** `parseInt` finds no digits in `abc`. */
  lemma ParseIntNoDigitsExample()
    ensures ParseInt("abc") == NaN
  {
    var t := "abc";
    assert !IsWhitespace(t[0]) && TrimStart(t) == t;
    assert !IsDigitIn(10, t[0]);
    assert DigitPrefix(10, t) == [];
  }

  lemma RssiSpace(value: string)
    ensures "Rssi " + value == "Rssi" + [' '] + value
    ensures "Rssi " + value == "Rssi" + (" " + value)
  {
  }

  /** How `split` takes `Rssi <value>` apart when the value has neither
      separator. */
  lemma SplitPlainLine(value: string)
    requires ' ' !in value && '\r' !in value
    ensures "Rssi " + value == "Rssi" + (" " + value)
    ensures Split("Rssi " + value, ' ') == ["Rssi", value]
    ensures Split(value, '\r') == [value]
  {
    RssiSpace(value);
    SplitAtFirst("Rssi", value, ' ');
    SplitWithoutSeparator(value, ' ');
    SplitWithoutSeparator(value, '\r');
  }

  /** An RSSI line with a single field and no carriage return reports
      `parseInt` of that field and no join. */
  lemma ClassifyBySingleField(line: string, value: string)
    requires IsRssiLine(line)
    requires StripWhitespace(line) != "1" && StripWhitespace(line) != "0"
    requires Split(line, ' ') == ["Rssi", value]
    requires Split(value, '\r') == [value]
    ensures Classify(line) == SignalReport(ParseInt(value), false)
  {
  }

  /** An RSSI line whose value has no carriage return reports `parseInt`
      of the value and no join. */
  lemma ClassifyPlainValue(value: string)
    requires ' ' !in value && '\r' !in value
    ensures Classify("Rssi " + value) == SignalReport(ParseInt(value), false)
  {
    SplitPlainLine(value);
    RssiPrefix(" " + value);
    ClassifyBySingleField("Rssi " + value, value);
  }

  lemma NonNumericLine()
    ensures ' ' !in "abc" && '\r' !in "abc"
    ensures "Rssi " + "abc" == "Rssi abc"
  {
  }

  /** `Rssi abc` is still an RSSI report: the value that `parseInt` stores
      is NaN and there is no join. */
  lemma ClassifyNonNumericExample()
    ensures Classify("Rssi abc") == SignalReport(NaN, false)
  {
    NonNumericLine();
    ClassifyPlainValue("abc");
    ParseIntNoDigitsExample();
  }

  /** The characters of a chunk processed one at a time, as the
      `ON_READ_DATA` loop does: appended to the buffer until the first
      newline, which runs `setBuffer` and ends the chunk. */
  function Fed(s: Snapshot, bytes: string): Snapshot
    decreases |bytes|
  {
    if bytes == [] then s
    else if bytes[0] == '\n' then Flushed(s)
    else Fed(s.(buffer := s.buffer + [bytes[0]]), bytes[1..])
  }

  /** The index of the first newline, or the length if there is none. */
  function LineEnd(bytes: string): (k: nat)
    ensures k <= |bytes| && '\n' !in bytes[..k]
    ensures k < |bytes| ==> bytes[k] == '\n'
  {
    if bytes == [] || bytes[0] == '\n' then 0
    else
      var k := 1 + LineEnd(bytes[1..]);
      assert bytes[..k] == [bytes[0]] + bytes[1..][..k - 1];
      k
  }

  /** A chunk with no newline only extends the buffer, by all of its
      characters in order. */
  lemma {:induction false} FedWithoutNewline(s: Snapshot, bytes: string)
    requires '\n' !in bytes
    ensures Fed(s, bytes) == s.(buffer := s.buffer + bytes)
    decreases |bytes|
  {
    if bytes == [] {
      assert s.buffer + bytes == s.buffer;
    } else {
      var s' := s.(buffer := s.buffer + [bytes[0]]);
      FedWithoutNewline(s', bytes[1..]);
      assert s'.buffer + bytes[1..] == s.buffer + bytes;
    }
  }

  /** A chunk with a newline appends what comes before its first newline,
      flushes exactly once, and whatever follows has no effect. */
  lemma {:induction false} FedAtNewline(s: Snapshot, before: string, after: string)
    requires '\n' !in before
    ensures Fed(s, before + ['\n'] + after) == Flushed(s.(buffer := s.buffer + before))
    decreases |before|
  {
    var bytes := before + ['\n'] + after;
    if before == [] {
      assert s.(buffer := s.buffer + before) == s;
      assert bytes[0] == '\n';
    } else {
      var s' := s.(buffer := s.buffer + [before[0]]);
      assert s'.(buffer := s'.buffer + before[1..]) == s.(buffer := s.buffer + before) by {
        assert s'.buffer + before[1..] == s.buffer + before;
      }
      assert bytes[0] == before[0];
      assert bytes[1..] == before[1..] + ['\n'] + after;
      FedAtNewline(s', before[1..], after);
    }
  }

  /** The first newline of such a chunk is the one after `before`. */
  lemma {:induction false} LineEndAt(before: string, after: string)
    requires '\n' !in before
    ensures LineEnd(before + ['\n'] + after) == |before|
    ensures (before + ['\n'] + after)[..|before|] == before
    decreases |before|
  {
    var bytes := before + ['\n'] + after;
    if before != [] {
      assert bytes[1..] == before[1..] + ['\n'] + after;
      LineEndAt(before[1..], after);
    }
  }

  /** Feeding keeps the buffer free of newlines and the log within 51 lines. */
  lemma FedKeepsWellformed(s: Snapshot, bytes: string)
    requires Wellformed(s)
    ensures Wellformed(Fed(s, bytes))
  {
    var k := LineEnd(bytes);
    if k == |bytes| {
      assert bytes[..k] == bytes;
      FedWithoutNewline(s, bytes);
    } else {
      assert bytes == bytes[..k] + ['\n'] + bytes[k + 1..];
      FedAtNewline(s, bytes[..k], bytes[k + 1..]);
      FlushedEffects(s.(buffer := s.buffer + bytes[..k]));
    }
  }

  /** End to end: a chunk of either case whose bytes are a line, a newline
      and anything after it flushes exactly that line and ignores the rest.
      `ByteHex` of such bytes is one such chunk (`DecodeByteHex`). */
  lemma FeedWireLine(s: Snapshot, chunk: string, line: string, rest: string)
    requires IsHexChunk(chunk) && Decode(chunk) == line + "\n" + rest
    requires '\n' !in line
    ensures Fed(s, Decode(chunk)) == Flushed(s.(buffer := s.buffer + line))
  {
    assert line + "\n" + rest == line + ['\n'] + rest;
    FedAtNewline(s, line, rest);
  }

  /** One pair of a chunk that is not a newline: the decoded prefix grows
      by that character and still has no newline. */
  lemma ChunkStep(chunk: string, i: nat)
    requires IsHexChunk(chunk) && i % 2 == 0 && i + 2 <= |chunk|
    requires '\n' !in Decode(chunk[..i]) && PairValue(chunk[i], chunk[i + 1]) != 0x0a
    ensures IsHexChunk(chunk[..i + 2])
    ensures Decode(chunk[..i + 2]) == Decode(chunk[..i]) + [PairValue(chunk[i], chunk[i + 1]) as char]
    ensures '\n' !in Decode(chunk[..i + 2])
  {
    DecodeAtPair(chunk, i);
  }

  /** The pair of a chunk that is its first newline: feeding the chunk
      flushes what was decoded before it. */
  lemma ChunkNewline(s: Snapshot, chunk: string, i: nat)
    requires IsHexChunk(chunk) && i % 2 == 0 && i + 2 <= |chunk|
    requires '\n' !in Decode(chunk[..i]) && PairValue(chunk[i], chunk[i + 1]) == 0x0a
    ensures var bytes, before := Decode(chunk), Decode(chunk[..i]);
            && Fed(s, bytes) == Flushed(s.(buffer := s.buffer + before))
            && LineEnd(bytes) == |before| && bytes[..LineEnd(bytes)] == before
  {
    DecodeAtPair(chunk, i);
    var before, after := Decode(chunk[..i]), Decode(chunk[i + 2..]);
    assert Decode(chunk) == before + ['\n'] + after;
    FedAtNewline(s, before, after);
    LineEndAt(before, after);
  }

  /** The state the listeners and the interval share. */
  class ModemStore {
    var buffer: string
    var socketConnected: bool
    var networkConnected: bool
    var rssi: JsNumber
    var log: seq<string>

    function State(): Snapshot
      reads this
    {
      Snapshot(buffer, socketConnected, networkConnected, rssi, log)
    }

    ghost predicate Valid()
      reads this
    {
      Wellformed(State())
    }

    constructor ()
      ensures State() == Initial && Valid()
    {
      buffer := "";
      socketConnected := false;
      networkConnected := false;
      rssi := Num(0);
      log := [];
    }

    /** The `ON_CONNECTED` listener. */
    method Connect()
      modifies this
      ensures State() == old(State()).(socketConnected := true)
      ensures Valid() <==> old(Valid())
    {
      socketConnected := true;
    }

    /** The `ON_DISCONNECTED` listener; buffer, flags and log stay as they are. */
    method Disconnect()
      modifies this
      ensures State() == old(State()).(socketConnected := false)
      ensures Valid() <==> old(Valid())
    {
      socketConnected := false;
    }

    /** `setBuffer`: classify the buffered line, update the modem state, log
        the line and empty the buffer. The hook setters are assignments made
        in the order they are called, and the `setSerialData` updater is
        evaluated at its call, so it logs the line still in `buffer`. The new
        values are collected in locals and each field is written once at the
        end, which is the same because nothing between the calls reads those
        fields. `ok` is false when the line makes `setBuffer` throw, in which
        case nothing changes. */
    method Flush() returns (ok: bool)
      modifies this
      ensures State() == Flushed(old(State()))
      ensures ok == !FlushThrows(old(buffer))
      ensures old(Valid()) ==> Valid()
    {
      FlushedEffects(State());
      var line := buffer;
      var joinFlag, signal := networkConnected, rssi;
      var stripped := StripWhitespace(line);
      if stripped == "1" {
        joinFlag := true;
      }
      if stripped == "0" {
        joinFlag := false;
      }
      if StartsWith(stripped, "Rssi") {
        assert stripped != "1" && stripped != "0";
        var parts := Split(line, ' ');
        if |parts| < 2 {
          assert Classify(line) == MissingRssiField;
          return false;
        }
        var valueParts := Split(parts[1], '\r');
        signal := ParseInt(valueParts[0]);
        var joined := |valueParts| > 1 && valueParts[1] == "JOINED";
        if joined {
          joinFlag := true;
        }
        assert Classify(line) == SignalReport(signal, joined);
      } else if stripped == "1" || stripped == "0" {
        assert Classify(line) == JoinFlag(stripped == "1");
      } else {
        assert Classify(line) == Other;
      }
      networkConnected, rssi, log, buffer := joinFlag, signal, LogAppend(log, line), "";
      ok := true;
    }

    /** The `ON_READ_DATA` listener: read the chunk two hex digits at a
        time, append each character to the buffer, and on the first newline
        run `setBuffer` and return. `ok` is false when `setBuffer` threw. */
    method Feed(chunk: string) returns (ok: bool)
      requires IsHexChunk(chunk)
      requires Valid()
      modifies this
      ensures Valid()
      ensures State() == Fed(old(State()), Decode(chunk))
      ensures var bytes := Decode(chunk);
              ok <==> LineEnd(bytes) == |bytes| || !FlushThrows(old(buffer) + bytes[..LineEnd(bytes)])
    {
      ghost var s0 := State();
      ghost var bytes := Decode(chunk);
      var i := 0;
      while i < |chunk|
        invariant 0 <= i <= |chunk| && i % 2 == 0
        invariant IsHexChunk(chunk[..i])
        invariant '\n' !in Decode(chunk[..i])
        invariant buffer == s0.buffer + Decode(chunk[..i])
        invariant socketConnected == s0.socketConnected && networkConnected == s0.networkConnected
        invariant rssi == s0.rssi && log == s0.log
      {
        var charCode := PairValue(chunk[i], chunk[i + 1]);
        if charCode == 0x0a {
          ChunkNewline(s0, chunk, i);
          ok := Flush();
          FedKeepsWellformed(s0, bytes);
          return;
        }
        ChunkStep(chunk, i);
        buffer := buffer + [charCode as char];
        i := i + 2;
      }
      assert chunk[..i] == chunk;
      FedWithoutNewline(s0, bytes);
      FedKeepsWellformed(s0, bytes);
      ok := true;
    }

    /** One tick of the 5-second interval, given the fix the location call
        delivers, if any: nothing while the socket is down; otherwise the
        RSSI query, the join query and, with a fix, the telemetry frame. */
    method PollTick(fix: Option<Fix>) returns (writes: seq<string>)
      requires fix.Some? ==> Encodable(fix.value)
      ensures !socketConnected ==> writes == []
      ensures socketConnected ==>
                writes == [RssiQuery, JoinQuery] + (if fix.Some? then [SendCommand(fix.value)] else [])
    {
      writes := [];
      if socketConnected {
        writes := writes + [RssiQuery];
        writes := writes + [JoinQuery];
        if fix.Some? {
          var payload := Payload(fix.value);
          var hexPayload := AsciiToHex(payload);
          var len := |hexPayload| / 2;
          writes := writes + [SendPrefix + ToString(len, 10) + "," + hexPayload + "\n"];
        }
      }
    }
  }
}
