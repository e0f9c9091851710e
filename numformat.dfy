/** `yaml_unsigned2str`, `yaml_signed2str`, `yaml_unsigned2hex` and
    `yaml_rgb2hex`: writing numbers as text. The C functions write into one
    static buffer of `MAX_STR` characters and return a pointer into it; here
    each call returns the characters of that C string as a fresh sequence,
    and `MAX_STR` is the parameter `maxStr`. */
module NumFormat {
  import opened Arith
  import opened NumText

  /** The digits of the decimal text of i not yet written, when `written`
      digits are already in place and n is what remains of i. */
  ghost function Pending(n: nat, written: nat): seq<char>
  {
    if written > 0 && n == 0 then [] else DecimalText(n)
  }

  /** Write the decimal digits of i right to left, from index `MAX_STR - 2`
      down, stopping when i is exhausted or index 0 is reached; index 0 is
      never written, so a '-' always fits in front. When the number has more
      digits than fit, only its last `MAX_STR - 2` digits are written. */
  method Unsigned2Str(i: u32, maxStr: nat) returns (s: seq<char>)
    requires maxStr >= 3
    ensures s == Tail(DecimalText(i), maxStr - 2)
    ensures maxStr >= 12 ==> s == DecimalText(i)
  {
    var c: int := maxStr - 2;
    var n: nat := i;
    s := [];
    var more := true;
    while more
      invariant 0 <= c <= maxStr - 2 && |s| == maxStr - 2 - c
      invariant more ==> c >= 1 && (|s| == 0 || n != 0)
      invariant !more ==> |s| > 0 && (n == 0 || c == 0)
      invariant DecimalText(i) == Pending(n, |s|) + s
      decreases c
    {
      // the lowest remaining digit goes in front of those already written
      s := [DecLookup[n % 10]] + s;
      c := c - 1;
      n := n / 10;
      more := c > 0 && n != 0;
    }
    ghost var t := DecimalText(i);
    if n != 0 {
      assert t == DecimalText(n) + s && |s| == maxStr - 2;
      assert t[|t| - |s|..] == s;
    }
    if maxStr >= 12 {
      DecimalTextU32(i);
    }
  }

  /** A negative value is written as '-' in front of the digits of its
      magnitude; INT32_MIN, whose magnitude overflows `int32_t`, is excluded. */
  method Signed2Str(i: i32, maxStr: nat) returns (s: seq<char>)
    requires maxStr >= 3 && i != -0x8000_0000
    ensures |s| <= maxStr - 1
    ensures i < 0 ==> s == "-" + Tail(DecimalText(-i), maxStr - 2)
    ensures i >= 0 ==> s == Tail(DecimalText(i), maxStr - 2)
    ensures maxStr >= 12 ==> s == SignedText(i)
  {
    if i < 0 {
      var m: u32 := -i;
      var u := Unsigned2Str(m, maxStr);
      // the sign goes in front of the digits
      s := "-" + u;
      assert m == -i && u == Tail(DecimalText(m), maxStr - 2);
      assert maxStr >= 12 ==> SignedText(i) == "-" + DecimalText(m);
    } else {
      s := Unsigned2Str(i, maxStr);
      assert maxStr >= 12 ==> SignedText(i) == DecimalText(i);
    }
  }

  /** The eight hexadecimal digits of i, most significant first. */
  method Unsigned2Hex(i: u32) returns (s: seq<char>)
    ensures s == HexText(i, 8)
  {
    s := [];
    var n := 8;
    while n > 0
      invariant 0 <= n <= 8 && s == HexText(Shr(i, n * 4), 8 - n)
    {
      HexTextStep(i, (n - 1) * 4, n * 4, 8 - n);
      // the next four bits, most significant first
      s := s + [HexLookup[Low(Shr(i, (n - 1) * 4), 4)]];
      n := n - 1;
    }
  }

  /** The six hexadecimal digits of the low 24 bits of i (a colour), most
      significant first. */
  method Rgb2Hex(i: u32) returns (s: seq<char>)
    ensures s == HexText(i, 6)
  {
    s := [];
    var n := 6;
    while n > 0
      invariant 0 <= n <= 6 && s == HexText(Shr(i, n * 4), 6 - n)
    {
      HexTextStep(i, (n - 1) * 4, n * 4, 6 - n);
      // the next four bits, most significant first
      s := s + [HexLookup[Low(Shr(i, (n - 1) * 4), 4)]];
      n := n - 1;
    }
  }

  /** One more hexadecimal digit: the text of x shifted down by a bits,
      one digit longer, is the text of x shifted down by a + 4 bits followed
      by the digit of the four bits at a. */
  lemma HexTextStep(x: nat, a: nat, b: nat, d: nat)
    requires b == a + 4
    ensures HexText(Shr(x, a), d + 1) == HexText(Shr(x, b), d) + [HexLookup[Low(Shr(x, a), 4)]]
  {
    ShrShr(x, a, 4);
  }
}
