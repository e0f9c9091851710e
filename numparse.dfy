/** `yaml_str2uint(_ref)`, `yaml_str2int(_ref)` and `yaml_hex2uint`: reading
    a number from the longest accepted prefix of a length-bounded character
    buffer. The buffer is passed as the characters from the C pointer on;
    the `_ref` variants hand back the pointer and length advanced past what
    they consumed, as the rest of the buffer and its length. */
module NumParse {
  import opened Arith
  import opened NumText

  /** Read decimal digits while there are characters left, stopping at the
      first character that is not a digit; the value wraps modulo 2^32 as
      the `uint32_t` accumulator does. */
  method Str2UintRef(val: seq<char>, valLen: u8) returns (r: u32, rest: seq<char>, restLen: u8)
    requires valLen <= |val|
    ensures var n := Run(val[..valLen], IsDigit);
      rest == val[n..] && restLen == valLen - n && r == Decimal(val[..n]) % 0x1_0000_0000
  {
    var i: u32 := 0;
    var p: nat := 0;
    var len: nat := valLen;
    while len > 0
      invariant p + len == valLen
      invariant All(val[..p], IsDigit)
      invariant i == Decimal(val[..p]) % 0x1_0000_0000
    {
      if !IsDigit(val[p]) {
        break;
      }
      assert val[..p + 1][..p] == val[..p];
      DecimalStep(Decimal(val[..p]), DigitValue(val[p]));
      i := (i * 10 + DigitValue(val[p])) % 0x1_0000_0000;
      p := p + 1;
      len := len - 1;
    }
    assert val[..valLen][..p] == val[..p];
    RunStop(val, valLen, p, IsDigit);
    r, rest, restLen := i, val[p..], len;
  }

  method Str2Uint(val: seq<char>, valLen: u8) returns (r: u32)
    requires valLen <= |val|
    ensures r == Decimal(val[..Run(val[..valLen], IsDigit)]) % 0x1_0000_0000
  {
    var rest, restLen;
    r, rest, restLen := Str2UintRef(val, valLen);
  }

  /** Read digits and '-' signs while there are characters left. The digits
      accumulate in decimal wherever the signs stand, and any sign makes the
      result negative. The `int` accumulator must not overflow. */
  method Str2IntRef(val: seq<char>, valLen: u8) returns (r: i32, rest: seq<char>, restLen: u8)
    requires valLen <= |val|
    requires Magnitude(val[..Run(val[..valLen], IsSignedChar)]) < 0x8000_0000
    ensures var n := Run(val[..valLen], IsSignedChar);
      rest == val[n..] && restLen == valLen - n &&
      r == SignedValue(val[..n])
  {
    var neg := false;
    var i: nat := 0;
    var p: nat := 0;
    var len: nat := valLen;
    while len > 0
      invariant p + len == valLen
      invariant All(val[..p], IsSignedChar)
      invariant neg <==> '-' in val[..p]
      invariant i == Magnitude(val[..p])
    {
      if !IsSignedChar(val[p]) {
        break;
      }
      assert val[..p + 1] == val[..p] + [val[p]];
      if val[p] == '-' {
        neg := true;
      } else {
        i := i * 10 + DigitValue(val[p]);
      }
      p := p + 1;
      len := len - 1;
    }
    RunStop(val, valLen, p, IsSignedChar);
    r := if neg then -(i as int) else i;
    rest, restLen := val[p..], len;
  }

  method Str2Int(val: seq<char>, valLen: u8) returns (r: i32)
    requires valLen <= |val|
    requires Magnitude(val[..Run(val[..valLen], IsSignedChar)]) < 0x8000_0000
    ensures var n := Run(val[..valLen], IsSignedChar);
      r == SignedValue(val[..n])
  {
    var rest, restLen;
    r, rest, restLen := Str2IntRef(val, valLen);
  }

  /** Read hexadecimal digits of either case while there are characters
      left; each shifts the value up four bits, so only the last eight
      digits count. */
  method Hex2Uint(val: seq<char>, valLen: u8) returns (r: u32)
    requires valLen <= |val|
    ensures r == HexNumber(val[..Run(val[..valLen], IsHexDigit)]) % 0x1_0000_0000
  {
    var i: u32 := 0;
    var p: nat := 0;
    var len: nat := valLen;
    while len > 0
      invariant p + len == valLen
      invariant All(val[..p], IsHexDigit)
      invariant i == HexNumber(val[..p]) % 0x1_0000_0000
    {
      if !IsHexDigit(val[p]) {
        break;
      }
      assert val[..p + 1][..p] == val[..p];
      HexStep(HexNumber(val[..p]), HexDigitValue(val[p]));
      // shift up four bits within 32 bits, then fill the cleared low bits with the digit
      i := (i * 16) % 0x1_0000_0000;
      i := i + HexDigitValue(val[p]);
      p := p + 1;
      len := len - 1;
    }
    assert val[..valLen][..p] == val[..p];
    RunStop(val, valLen, p, IsHexDigit);
    r := i;
  }

  /** A reading loop that consumed p characters of the first valLen, all
      accepted, and stopped at the end or at a character not accepted,
      consumed the longest accepted prefix. */
  lemma RunStop(val: seq<char>, valLen: nat, p: nat, accept: char -> bool)
    requires p <= valLen <= |val| && All(val[..p], accept)
    requires p < valLen ==> !accept(val[p])
    ensures Run(val[..valLen], accept) == p
  {
    assert val[..valLen][..p] == val[..p];
    if p < valLen {
      assert val[..valLen][p] == val[p];
    }
    RunUnique(val[..valLen], p, accept);
  }

  /** One decimal step of a `uint32_t` accumulator commutes with wrapping. */
  lemma DecimalStep(a: nat, d: nat)
    ensures ((a % 0x1_0000_0000) * 10 + d) % 0x1_0000_0000 == (a * 10 + d) % 0x1_0000_0000
  {
    var q := a / 0x1_0000_0000;
    assert a * 10 + d == ((a % 0x1_0000_0000) * 10 + d) + 0x1_0000_0000 * (10 * q);
  }

  /** One hexadecimal step of a `uint32_t` accumulator commutes with
      wrapping: shifting left by four leaves the low four bits clear for the
      digit. */
  lemma HexStep(a: nat, d: nat)
    requires d < 16
    ensures ((a % 0x1_0000_0000) * 16) % 0x1_0000_0000 + d == (a * 16 + d) % 0x1_0000_0000
  {
    var m := a % 0x1_0000_0000;
    assert (m * 16) % 0x1_0000_0000 == (m % 0x1000_0000) * 16;
    assert a * 16 + d == ((m % 0x1000_0000) * 16 + d) + 0x1_0000_0000 * (a / 0x1000_0000);
  }
}
