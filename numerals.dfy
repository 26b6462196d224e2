/** Integer text in the forms JavaScript produces and reads:
    `Number.prototype.toString(radix)` for non-negative integers, `String(n)`
    for integers, and `parseInt(s)` with no radix argument. */
module Numerals {
  import opened JsText

  /** A JavaScript number as far as the protocol layer can produce one:
      an integer, or NaN from a `parseInt` that finds no digits. */
  datatype JsNumber = Num(value: int) | NaN

  predicate IsDecDigit(c: char) { '0' <= c <= '9' }

  /** The digits `parseInt` accepts in radix 16, in either case. */
  predicate IsHexDigit(c: char) { IsDecDigit(c) || 'a' <= c <= 'f' || 'A' <= c <= 'F' }

  /** The digits `toString` emits: lower case only. */
  predicate IsLowerHexDigit(c: char) { IsDecDigit(c) || 'a' <= c <= 'f' }

  function DigitValue(c: char): (v: nat)
    requires IsHexDigit(c)
    ensures v < 16
    ensures v < 10 <==> IsDecDigit(c)
  {
    if IsDecDigit(c) then c as int - '0' as int
    else if 'a' <= c <= 'f' then c as int - 'a' as int + 10
    else c as int - 'A' as int + 10
  }

  /** Which value each digit has: a lower-case digit is the one `DigitChar`
      writes for its value, and `A` to `F` read as `a` to `f` do. */
  lemma DigitValueReadsBack(c: char)
    requires IsHexDigit(c)
    ensures IsLowerHexDigit(c) ==> DigitChar(DigitValue(c)) == c
    ensures 'A' <= c <= 'F' ==> DigitChar(DigitValue(c)) == (c as int + 32) as char
  {
  }

  /** A digit of the given radix (2 to 16), as `parseInt` reads it. */
  predicate IsDigitIn(radix: nat, c: char) {
    IsHexDigit(c) && DigitValue(c) < radix
  }

  predicate AllDigitsIn(radix: nat, ds: string) {
    forall i {:trigger IsDigitIn(radix, ds[i])} | 0 <= i < |ds| :: IsDigitIn(radix, ds[i])
  }

  /** The lower-case digit character for a value below 16. */
  function DigitChar(d: nat): (c: char)
    requires d < 16
    ensures IsLowerHexDigit(c) && DigitValue(c) == d
  {
    if d < 10 then ('0' as int + d) as char else ('a' as int + d - 10) as char
  }

  /** The value of a digit string, most significant digit first. */
  function ValueIn(radix: nat, ds: string): nat
    requires AllDigitsIn(radix, ds)
  {
    if ds == [] then 0
    else
      assert IsDigitIn(radix, ds[|ds| - 1]);
      ValueIn(radix, ds[..|ds| - 1]) * radix + DigitValue(ds[|ds| - 1])
  }

  lemma DivMod(n: nat, radix: nat)
    requires 2 <= radix <= n
    ensures 1 <= n / radix < n && n % radix < radix
    ensures n == (n / radix) * radix + n % radix
  {
  }

  lemma ValueAppend(radix: nat, ds: string, c: char)
    requires AllDigitsIn(radix, ds) && IsDigitIn(radix, c)
    ensures AllDigitsIn(radix, ds + [c])
    ensures ValueIn(radix, ds + [c]) == ValueIn(radix, ds) * radix + DigitValue(c)
  {
    assert (ds + [c])[..|ds|] == ds;
  }

  /** `n.toString(radix)` for a non-negative integer: lower-case digits,
      no zero padding, no prefix. Reading it back gives `n`. */
  function ToString(n: nat, radix: nat): (r: string)
    requires 2 <= radix <= 16
    ensures |r| >= 1
    ensures forall i {:trigger IsLowerHexDigit(r[i])} {:trigger IsDigitIn(radix, r[i])} | 0 <= i < |r| ::
              IsLowerHexDigit(r[i]) && IsDigitIn(radix, r[i])
    ensures |r| > 1 ==> r[0] != '0'
    ensures ValueIn(radix, r) == n
    decreases n
  {
    if n < radix then [DigitChar(n)]
    else
      DivMod(n, radix);
      var q, d := n / radix, n % radix;
      var high := ToString(q, radix);
      var r := high + [DigitChar(d)];
      ValueAppend(radix, high, DigitChar(d));
      r
  }

  /** `ToString` in radix 16 has two digits exactly for 16..255. */
  lemma ToStringTwoHexDigits(n: nat)
    ensures |ToString(n, 16)| == 2 <==> 16 <= n < 256
  {
    if n >= 16 {
      var q := n / 16;
      if q >= 16 {
        assert |ToString(q, 16)| >= 2;
      }
    }
  }

  /** `String(n)` for an integer. */
  function IntToString(n: int): string {
    if n < 0 then "-" + ToString(-n, 10) else ToString(n, 10)
  }

  /** The longest prefix of `s` made of digits of the radix. */
  function DigitPrefix(radix: nat, s: string): (r: string)
    ensures r <= s
    ensures AllDigitsIn(radix, r)
    ensures |r| < |s| ==> !IsDigitIn(radix, s[|r|])
  {
    if s != [] && IsDigitIn(radix, s[0]) then [s[0]] + DigitPrefix(radix, s[1..]) else []
  }

  /** `parseInt(s)` with no radix: leading whitespace skipped, an optional
      sign, radix 16 after a `0x`/`0X` prefix and 10 otherwise, then the
      longest run of digits; no digits at all gives NaN. */
  function ParseInt(s: string): JsNumber {
    var t := TrimStart(s);
    var negative := t != [] && t[0] == '-';
    var u := if t != [] && (t[0] == '-' || t[0] == '+') then t[1..] else t;
    var hexForm := |u| >= 2 && u[0] == '0' && (u[1] == 'x' || u[1] == 'X');
    var radix := if hexForm then 16 else 10;
    var ds := DigitPrefix(radix, if hexForm then u[2..] else u);
    if ds == [] then NaN
    else
      var v: int := ValueIn(radix, ds);
      Num(if negative then -v else v)
  }

  /** A string of digits is its own longest digit prefix. */
  lemma {:induction false} DigitPrefixOfDigits(radix: nat, ds: string)
    requires AllDigitsIn(radix, ds)
    ensures DigitPrefix(radix, ds) == ds
  {
    if ds != [] {
      DigitPrefixOfDigits(radix, ds[1..]);
    }
  }

  /** `parseInt` reads a canonical decimal numeral. */
  lemma ParseIntOfDigits(d: string)
    requires |d| >= 1 && AllDigitsIn(10, d) && (|d| >= 2 ==> d[0] != '0')
    ensures ParseInt(d) == Num(ValueIn(10, d))
  {
    assert IsDigitIn(10, d[0]);
    assert IsDecDigit(d[0]);
    assert !IsWhitespace(d[0]) && d[0] != '-' && d[0] != '+';
    assert TrimStart(d) == d;
    DigitPrefixOfDigits(10, d);
  }

  /** `parseInt` reads a canonical decimal numeral after a minus sign. */
  lemma ParseIntOfNegativeDigits(d: string)
    requires |d| >= 1 && AllDigitsIn(10, d) && (|d| >= 2 ==> d[0] != '0')
    ensures ParseInt("-" + d) == Num(-(ValueIn(10, d) as int))
  {
    var m := "-" + d;
    assert m[0] == '-' && !IsWhitespace(m[0]);
    assert TrimStart(m) == m;
    assert m[1..] == d;
    DigitPrefixOfDigits(10, d);
  }

  /** `parseInt` reads back exactly the integer `String` wrote. */
  lemma ParseIntOfIntToString(n: int)
    ensures ParseInt(IntToString(n)) == Num(n)
  {
    if n < 0 {
      ParseIntOfNegativeDigits(ToString(-n, 10));
    } else {
      ParseIntOfDigits(ToString(n, 10));
    }
  }
}
