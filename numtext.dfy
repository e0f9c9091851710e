/** The text forms of numbers that the YAML codec reads and writes: decimal
    digits, with a '-' for negative values, and upper-case hexadecimal
    digits. The parsers read the longest accepted prefix of a buffer; the
    writers produce the digits most significant first. */
module NumText {
  import opened Arith

  /** The decimal digit table of the writers. */
  const DecLookup: seq<char> := "0123456789"
  /** The hexadecimal digit table of the writers. */
  const HexLookup: seq<char> := "0123456789ABCDEF"

  predicate IsDigit(c: char) { '0' <= c <= '9' }

  predicate IsHexDigit(c: char) { IsDigit(c) || 'A' <= c <= 'F' || 'a' <= c <= 'f' }

  /** A character of the signed decimal reader: a digit or a '-'. */
  predicate IsSignedChar(c: char) { c == '-' || IsDigit(c) }

  predicate All(s: seq<char>, accept: char -> bool)
  {
    forall k :: 0 <= k < |s| ==> accept(s[k])
  }

  function DigitValue(c: char): (r: nat)
    requires IsDigit(c)
    ensures r < 10
  {
    c as int - '0' as int
  }

  function HexDigitValue(c: char): (r: nat)
    requires IsHexDigit(c)
    ensures r < 16
  {
    if IsDigit(c) then c as int - '0' as int
    else if 'A' <= c <= 'F' then c as int - 'A' as int + 10
    else c as int - 'a' as int + 10
  }

  /** The length of the longest prefix of s made of accepted characters: the
      parsers consume exactly this many. */
  function Run(s: seq<char>, accept: char -> bool): (r: nat)
    ensures r <= |s| && All(s[..r], accept)
    ensures r < |s| ==> !accept(s[r])
  {
    if s == [] || !accept(s[0]) then 0
    else
      var r := 1 + Run(s[1..], accept);
      assert s[..r] == [s[0]] + s[1..][..r - 1];
      r
  }

  /** A prefix of accepted characters that ends the string or stops at a
      character that is not accepted is the longest one. */
  lemma RunUnique(s: seq<char>, p: nat, accept: char -> bool)
    requires p <= |s| && All(s[..p], accept) && (p < |s| ==> !accept(s[p]))
    ensures Run(s, accept) == p
  {
    var r := Run(s, accept);
    forall k | 0 <= k < p
      ensures accept(s[k])
    {
      assert s[..p][k] == s[k];
    }
    forall k | 0 <= k < r
      ensures accept(s[k])
    {
      assert s[..r][k] == s[k];
    }
  }

  /** The value of a string of decimal digits. */
  function Decimal(s: seq<char>): nat
    requires All(s, IsDigit)
  {
    if s == [] then 0 else Decimal(s[..|s| - 1]) * 10 + DigitValue(s[|s| - 1])
  }

  /** The value of the digits of a string of digits and '-' signs, the signs
      skipped wherever they stand. */
  function Magnitude(s: seq<char>): nat
    requires All(s, IsSignedChar)
  {
    if s == [] then 0
    else if s[|s| - 1] == '-' then Magnitude(s[..|s| - 1])
    else Magnitude(s[..|s| - 1]) * 10 + DigitValue(s[|s| - 1])
  }

  /** The value the signed reader gives a string of digits and '-' signs:
      negative when any sign is present. */
  function SignedValue(s: seq<char>): int
    requires All(s, IsSignedChar)
  {
    if '-' in s then -(Magnitude(s) as int) else Magnitude(s)
  }

  /** The value of a string of hexadecimal digits of either case. */
  function HexNumber(s: seq<char>): nat
    requires All(s, IsHexDigit)
  {
    if s == [] then 0 else HexNumber(s[..|s| - 1]) * 16 + HexDigitValue(s[|s| - 1])
  }

  /** The decimal text of n: no leading zero, and "0" for zero. */
  function DecimalText(n: nat): (r: seq<char>)
    ensures |r| >= 1 && All(r, IsDigit)
    ensures r[0] == '0' <==> n == 0
  {
    if n < 10 then [DecLookup[n]] else DecimalText(n / 10) + [DecLookup[n % 10]]
  }

  /** The decimal text of v with a '-' in front when it is negative. */
  function SignedText(v: int): seq<char>
  {
    if v < 0 then "-" + DecimalText(-v) else DecimalText(v)
  }

  /** The low n hexadecimal digits of x, most significant first. */
  function HexText(x: nat, n: nat): (r: seq<char>)
    ensures |r| == n && All(r, IsHexDigit)
    decreases n
  {
    if n == 0 then [] else HexText(Shr(x, 4), n - 1) + [HexLookup[Low(x, 4)]]
  }

  /** The last k characters of t, or all of t when it is shorter. */
  function Tail(t: seq<char>, k: nat): (r: seq<char>)
    ensures |r| == Min(|t|, k) && r == t[|t| - |r|..]
  {
    if |t| <= k then t else t[|t| - k..]
  }

  function Pow10(k: nat): nat
  {
    if k == 0 then 1 else 10 * Pow10(k - 1)
  }

  /** Reading a decimal text gives its number back. */
  lemma {:induction false} DecimalOfText(n: nat)
    ensures Decimal(DecimalText(n)) == n
  {
    var t := DecimalText(n);
    if n >= 10 {
      var h := DecimalText(n / 10);
      assert t[..|t| - 1] == h;
      DecimalOfText(n / 10);
    }
  }

  /** A number below 10^k has at most k digits. */
  lemma {:induction false} DecimalTextLength(n: nat, k: nat)
    requires 1 <= k && n < Pow10(k)
    ensures |DecimalText(n)| <= k
  {
    if n >= 10 {
      DecimalTextLength(n / 10, k - 1);
    }
  }

  /** A `uint32_t` has at most ten decimal digits. */
  lemma DecimalTextU32(n: u32)
    ensures |DecimalText(n)| <= 10
  {
    assert Pow10(10) == 10_000_000_000;
    DecimalTextLength(n, 10);
  }

  /** Without signs, the magnitude is the decimal value. */
  lemma {:induction false} MagnitudeOfDigits(s: seq<char>)
    requires All(s, IsDigit)
    ensures Magnitude(s) == Decimal(s)
  {
    if s != [] {
      MagnitudeOfDigits(s[..|s| - 1]);
    }
  }

  /** A leading '-' does not change the magnitude. */
  lemma {:induction false} MagnitudeMinus(s: seq<char>)
    requires All(s, IsSignedChar)
    ensures Magnitude("-" + s) == Magnitude(s)
  {
    if s != [] {
      assert ("-" + s)[..|s|] == "-" + s[..|s| - 1];
      MagnitudeMinus(s[..|s| - 1]);
    }
  }

  /** Reading n hexadecimal digits of x gives the low 4n bits of x. */
  lemma {:induction false} HexOfText(x: nat, n: nat)
    ensures HexNumber(HexText(x, n)) == Low(x, 4 * n)
    decreases n
  {
    if n > 0 {
      var t := HexText(x, n);
      assert t[..n - 1] == HexText(Shr(x, 4), n - 1);
      calc {
        HexNumber(t);
        HexNumber(t[..n - 1]) * 16 + HexDigitValue(t[n - 1]);
        { HexOfText(Shr(x, 4), n - 1); HexLookupValue(Low(x, 4)); }
        Low(Shr(x, 4), 4 * (n - 1)) * 16 + Low(x, 4);
        { LowDigit(x, n); }
        Low(x, 4 * n);
      }
    }
  }

  /** The low 4n bits of x are its low hexadecimal digit below the 4(n - 1)
      bits above it. */
  lemma LowDigit(x: nat, n: nat)
    requires n > 0
    ensures Low(Shr(x, 4), 4 * (n - 1)) * 16 + Low(x, 4) == Low(x, 4 * n)
  {
    var m := 4 * n - 4;
    assert m == 4 * (n - 1);
    var y := Low(Shr(x, 4), m);
    calc {
      y * 16 + Low(x, 4);
      { assert Pow2(4) == 16; ShlMul(y, 4); }
      Low(x, 4) + Shl(y, 4);
      { LowSplit(x, 4, m + 4); }
      Low(x, m + 4);
    }
  }

  lemma HexLookupValue(d: nat)
    requires d < 16
    ensures IsHexDigit(HexLookup[d]) && HexDigitValue(HexLookup[d]) == d
  {
  }

  /** The accepted prefix of an all-accepted text followed by a character
      that is not accepted, or by nothing, is the text. */
  lemma RunOfText(t: seq<char>, rest: seq<char>, accept: char -> bool)
    requires All(t, accept) && (rest == [] || !accept(rest[0]))
    ensures Run(t + rest, accept) == |t| && (t + rest)[..|t|] == t
  {
  }

  /** The decimal reader reads a written `uint32_t` back, up to the first
      character that is not a digit. */
  lemma UnsignedTextRoundTrip(n: u32, rest: seq<char>)
    requires rest == [] || !IsDigit(rest[0])
    ensures Run(DecimalText(n) + rest, IsDigit) == |DecimalText(n)|
    ensures Decimal((DecimalText(n) + rest)[..|DecimalText(n)|]) % 0x1_0000_0000 == n
  {
    var t := DecimalText(n);
    RunOfText(t, rest, IsDigit);
    DecimalOfText(n);
    assert Decimal((t + rest)[..|t|]) == n;
    WrapSmall(n);
  }

  /** A value that fits in a `uint32_t` is unchanged by wrapping. */
  lemma WrapSmall(n: nat)
    requires n < 0x1_0000_0000
    ensures n % 0x1_0000_0000 == n
  {
  }

  /** The signed reader reads a written value back, up to the first character
      that is neither a digit nor a '-'. */
  lemma SignedTextRoundTrip(v: int, rest: seq<char>)
    requires rest == [] || !IsSignedChar(rest[0])
    ensures All(SignedText(v), IsSignedChar)
    ensures Run(SignedText(v) + rest, IsSignedChar) == |SignedText(v)|
    ensures '-' in SignedText(v) <==> v < 0
    ensures SignedValue(SignedText(v)) == v
  {
    SignedTextValue(v);
    RunOfText(SignedText(v), rest, IsSignedChar);
  }

  /** The signed text of v holds a '-' exactly when v is negative, and its
      digits spell the magnitude of v. */
  lemma SignedTextValue(v: int)
    ensures All(SignedText(v), IsSignedChar)
    ensures Magnitude(SignedText(v)) == if v < 0 then -v else v
    ensures '-' in SignedText(v) <==> v < 0
  {
    var m := if v < 0 then -v else v;
    var d := DecimalText(m);
    assert All(d, IsSignedChar);
    MagnitudeOfDigits(d);
    DecimalOfText(m);
    if v < 0 {
      assert SignedText(v) == "-" + d;
      MagnitudeMinus(d);
      assert SignedText(v)[0] == '-';
    } else {
      assert SignedText(v) == d;
      assert '-' !in d;
    }
  }

  /** The hexadecimal reader reads the eight digits of a `uint32_t` back. */
  lemma HexTextRoundTrip(i: u32, rest: seq<char>)
    requires rest == [] || !IsHexDigit(rest[0])
    ensures Run(HexText(i, 8) + rest, IsHexDigit) == 8
    ensures HexNumber(HexText(i, 8)) == i
  {
    RunOfText(HexText(i, 8), rest, IsHexDigit);
    HexOfText(i, 8);
    Pow2Values();
    LowSmall(i, 32);
  }

  /** Six hexadecimal digits hold the low 24 bits (the colour) of a value. */
  lemma RgbTextRoundTrip(i: u32, rest: seq<char>)
    requires rest == [] || !IsHexDigit(rest[0])
    ensures Run(HexText(i, 6) + rest, IsHexDigit) == 6
    ensures HexNumber(HexText(i, 6)) == Low(i, 24)
  {
    RunOfText(HexText(i, 6), rest, IsHexDigit);
    HexOfText(i, 6);
  }

}
