/** The hex text on both sides of the serial link: `asciiToHex`, which the
    telemetry frame uses to encode its payload, and the pair-by-pair reading
    of the hex chunks the USB library delivers. */
module HexCodec {
  import opened Numerals

  /** What `asciiToHex` produces: each character's code in lower-case hex,
      without zero padding, concatenated with no separator. */
  function Hex(s: string): (h: string)
    ensures forall i {:trigger IsLowerHexDigit(h[i])} | 0 <= i < |h| :: IsLowerHexDigit(h[i])
    ensures |h| >= |s|
  {
    if s == [] then []
    else Hex(s[..|s| - 1]) + ToString(s[|s| - 1] as int, 16)
  }

  /** The same text assembled as `asciiToHex` does: one piece per character
      pushed onto a list, then `join('')`. */
  function Concat(pieces: seq<string>): string {
    if pieces == [] then [] else Concat(pieces[..|pieces| - 1]) + pieces[|pieces| - 1]
  }

  method AsciiToHex(input: string) returns (output: string)
    ensures output == Hex(input)
  {
    var pieces: seq<string> := [];
    var n := 0;
    while n < |input|
      invariant 0 <= n <= |input|
      invariant Concat(pieces) == Hex(input[..n])
    {
      var hex := ToString(input[n] as int, 16);
      assert (pieces + [hex])[..|pieces|] == pieces;
      assert input[..n + 1][..n] == input[..n];
      pieces := pieces + [hex];
      n := n + 1;
    }
    assert input[..n] == input;
    output := Concat(pieces);
  }

  /** Hex encoding keeps the order of the input and adds no separators. */
  lemma {:induction false} HexConcat(a: string, b: string)
    ensures Hex(a + b) == Hex(a) + Hex(b)
    decreases |b|
  {
    var ab := a + b;
    if b == [] {
      assert ab == a;
    } else {
      var b', last := b[..|b| - 1], b[|b| - 1];
      assert ab[..|ab| - 1] == a + b' && ab[|ab| - 1] == last;
      HexConcat(a, b');
      var t := ToString(last as int, 16);
      assert Hex(ab) == Hex(a + b') + t;
      assert Hex(b) == Hex(b') + t;
    }
  }

  /** A character whose code has exactly two hex digits. */
  predicate IsTwoDigitChar(c: char) { 16 <= c as int < 256 }

  predicate AllTwoDigitChars(s: string) {
    forall i {:trigger IsTwoDigitChar(s[i])} | 0 <= i < |s| :: IsTwoDigitChar(s[i])
  }

  /** A chunk as the USB library delivers it: an even number of hex digits. */
  predicate IsHexChunk(h: string) {
    |h| % 2 == 0 && forall i {:trigger IsHexDigit(h[i])} | 0 <= i < |h| :: IsHexDigit(h[i])
  }

  /** `parseInt(pair, 16)` for a pair of hex digits: one byte. */
  function PairValue(hi: char, lo: char): (v: nat)
    requires IsHexDigit(hi) && IsHexDigit(lo)
    ensures v < 256
  {
    DigitValue(hi) * 16 + DigitValue(lo)
  }

  /** The characters a hex chunk stands for, one per pair of digits
      (`String.fromCharCode(parseInt(pair, 16))`). */
  function Decode(h: string): (s: string)
    requires IsHexChunk(h)
    ensures |s| == |h| / 2
    decreases |h|
  {
    if h == [] then []
    else Decode(h[..|h| - 2]) + [PairValue(h[|h| - 2], h[|h| - 1]) as char]
  }

  /** Chunks glued together make a chunk. */
  lemma ChunkConcat(a: string, b: string)
    requires IsHexChunk(a) && IsHexChunk(b)
    ensures IsHexChunk(a + b)
  {
    var ab := a + b;
    forall k | 0 <= k < |ab|
      ensures IsHexDigit(ab[k])
    {
      if k < |a| {
        assert ab[k] == a[k] && IsHexDigit(a[k]);
      } else {
        assert ab[k] == b[k - |a|] && IsHexDigit(b[k - |a|]);
      }
    }
  }

  /** The part of a chunk before a pair boundary is a chunk. */
  lemma ChunkPrefix(h: string, j: nat)
    requires IsHexChunk(h) && j % 2 == 0 && j <= |h|
    ensures IsHexChunk(h[..j])
  {
    var p := h[..j];
    forall k | 0 <= k < |p|
      ensures IsHexDigit(p[k])
    {
      assert p[k] == h[k] && IsHexDigit(h[k]);
    }
  }

  /** The part of a chunk after a pair boundary is a chunk. */
  lemma ChunkSuffix(h: string, j: nat)
    requires IsHexChunk(h) && j % 2 == 0 && j <= |h|
    ensures IsHexChunk(h[j..])
  {
    var q := h[j..];
    assert |q| == |h| - j;
    assert |q| % 2 == 0 by {
      assert |h| == 2 * (|h| / 2) && j == 2 * (j / 2);
      assert |q| == 2 * (|h| / 2 - j / 2);
    }
    forall k | 0 <= k < |q|
      ensures IsHexDigit(q[k])
    {
      assert q[k] == h[j + k] && IsHexDigit(h[j + k]);
    }
  }

  /** Decoding a chunk split at a pair boundary decodes each part. */
  lemma {:induction false} DecodeConcat(a: string, b: string)
    requires IsHexChunk(a) && IsHexChunk(b)
    ensures IsHexChunk(a + b)
    ensures Decode(a + b) == Decode(a) + Decode(b)
    decreases |b|
  {
    ChunkConcat(a, b);
    var ab := a + b;
    if b == [] {
      assert ab == a;
    } else {
      var b' := b[..|b| - 2];
      ChunkPrefix(b, |b| - 2);
      ChunkConcat(a, b');
      assert ab[..|ab| - 2] == a + b';
      assert ab[|ab| - 2] == b[|b| - 2] && ab[|ab| - 1] == b[|b| - 1];
      DecodeConcat(a, b');
    }
  }

  lemma TakeDrop(h: string, j: nat)
    requires j <= |h|
    ensures h[..j] + h[j..] == h
  {
  }

  /** A chunk cut at a pair boundary decodes as its two halves. */
  lemma DecodeSplit(h: string, j: nat)
    requires IsHexChunk(h) && j % 2 == 0 && j <= |h|
    ensures IsHexChunk(h[..j]) && IsHexChunk(h[j..])
    ensures Decode(h) == Decode(h[..j]) + Decode(h[j..])
  {
    TakeDrop(h, j);
    ChunkPrefix(h, j);
    ChunkSuffix(h, j);
    DecodeConcat(h[..j], h[j..]);
  }

  /** Reading a chunk pair by pair: the prefix up to pair `i` decodes to the
      prefix before it followed by that pair's character. */
  lemma DecodeAtPair(h: string, i: nat)
    requires IsHexChunk(h) && i % 2 == 0 && i + 2 <= |h|
    ensures IsHexChunk(h[..i]) && IsHexChunk(h[..i + 2]) && IsHexChunk(h[i + 2..])
    ensures Decode(h[..i + 2]) == Decode(h[..i]) + [PairValue(h[i], h[i + 1]) as char]
    ensures Decode(h) == Decode(h[..i + 2]) + Decode(h[i + 2..])
  {
    DecodeSplit(h, i + 2);
    var p := h[..i + 2];
    DecodeSplit(p, i);
    assert p[..i] == h[..i];
    assert p[i] == h[i] && p[i + 1] == h[i + 1];
    assert p[..|p| - 2] == h[..i];
  }

  /** A code from 16 to 255 is written as one pair of digits that reads back as it. */
  lemma TwoDigitPair(n: nat)
    requires 16 <= n < 256
    ensures |ToString(n, 16)| == 2
    ensures PairValue(ToString(n, 16)[0], ToString(n, 16)[1]) == n
  {
    var h := ToString(n, 16);
    ToStringTwoHexDigits(n);
    assert ValueIn(16, h) == ValueIn(16, h[..1]) * 16 + DigitValue(h[1]);
    assert h[..1][..0] == [];
  }

  /** For characters with codes 16..255 the encoding is exactly two digits
      per character. */
  lemma {:induction false} HexLength(s: string)
    requires AllTwoDigitChars(s)
    ensures |Hex(s)| == 2 * |s|
    ensures IsHexChunk(Hex(s))
    decreases |s|
  {
    if s != [] {
      HexLength(s[..|s| - 1]);
      assert IsTwoDigitChar(s[|s| - 1]);
      TwoDigitPair(s[|s| - 1] as int);
    }
  }

  /** For characters with codes 16..255, reading the encoding back pair by
      pair gives the input. */
  lemma {:induction false} HexRoundTrip(s: string)
    requires AllTwoDigitChars(s)
    ensures IsHexChunk(Hex(s))
    ensures Decode(Hex(s)) == s
    decreases |s|
  {
    HexLength(s);
    if s != [] {
      var init, last := s[..|s| - 1], s[|s| - 1];
      assert s == init + [last];
      HexRoundTrip(init);
      assert IsTwoDigitChar(last);
      TwoDigitPair(last as int);
      var h, t := Hex(s), ToString(last as int, 16);
      assert h == Hex(init) + t;
      assert h[..|h| - 2] == Hex(init);
      assert h[|h| - 2] == t[0] && h[|h| - 1] == t[1];
      assert Decode(h) == init + [last];
    }
  }

  predicate IsByte(c: char) { c as int < 256 }

  predicate AllBytes(s: string) {
    forall i {:trigger IsByte(s[i])} | 0 <= i < |s| :: IsByte(s[i])
  }

  /** Hex text for a run of bytes with two digits per byte, zero padded and
      in lower case, so a newline is `0a`. Which case the USB library uses
      is not fixed here; `Decode` reads upper- and lower-case digits alike. */
  function ByteHex(s: string): (h: string)
    requires AllBytes(s)
    ensures |h| == 2 * |s| && IsHexChunk(h)
  {
    if s == [] then []
    else
      assert IsByte(s[|s| - 1]);
      var b := s[|s| - 1] as int;
      ByteHex(s[..|s| - 1]) + [DigitChar(b / 16), DigitChar(b % 16)]
  }

  /** Decoding undoes the library's byte encoding. */
  lemma {:induction false} DecodeByteHex(s: string)
    requires AllBytes(s)
    ensures Decode(ByteHex(s)) == s
    decreases |s|
  {
    if s != [] {
      var init, last := s[..|s| - 1], s[|s| - 1];
      assert s == init + [last];
      DecodeByteHex(init);
      var h := ByteHex(s);
      assert h[..|h| - 2] == ByteHex(init);
      assert PairValue(h[|h| - 2], h[|h| - 1]) == last as int;
    }
  }

  /** A newline byte reads as `0a` or `0A` alike. */
  lemma NewlinePair()
    ensures IsHexChunk("0a") && Decode("0a") == "\n"
    ensures IsHexChunk("0A") && Decode("0A") == "\n"
  {
    assert "0a"[..0] == [] && "0A"[..0] == [];
  }

  /** Below code 16 a character takes one digit, so the pairs no longer line
      up: a tab followed by `a` encodes as `961`. */
  lemma OneDigitCharsMisalign()
    ensures Hex("\ta") == "961"
  {
    assert "\ta"[..1] == "\t";
    assert "\t"[..0] == [];
    assert ToString(9, 16) == "9";
    assert ToString(6, 16) == "6";
    assert ToString(97, 16) == ToString(6, 16) + [DigitChar(1)];
  }
}
