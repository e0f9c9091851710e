/** The writers of `yaml_bits.cpp` composed with its readers: each number
    text the firmware writes reads back as the number written. */
module NumRoundTrip {
  import opened Arith
  import opened NumText
  import opened NumParse
  import opened NumFormat

  /** `yaml_str2uint(yaml_unsigned2str(n))` is n when MAX_STR leaves room
      for all ten digits. */
  method UnsignedRoundTrip(n: u32, maxStr: nat) returns (r: u32)
    requires maxStr >= 12
    ensures r == n
  {
    var s := Unsigned2Str(n, maxStr);
    DecimalTextU32(n);
    UnsignedTextRoundTrip(n, []);
    assert s + [] == s && s[..|s|] == s;
    r := Str2Uint(s, |s|);
  }

  /** `yaml_str2int(yaml_signed2str(v))` is v. */
  method SignedRoundTrip(v: i32, maxStr: nat) returns (r: i32)
    requires maxStr >= 12 && v != -0x8000_0000
    ensures r == v
  {
    var s := Signed2Str(v, maxStr);
    DecimalTextU32(if v < 0 then -v else v);
    SignedTextRoundTrip(v, []);
    assert s + [] == s && s[..|s|] == s;
    r := Str2Int(s, |s|);
  }

  /** `yaml_hex2uint(yaml_unsigned2hex(n), 8)` is n. */
  method HexRoundTrip(n: u32) returns (r: u32)
    ensures r == n
  {
    var s := Unsigned2Hex(n);
    HexTextRoundTrip(n, []);
    assert s + [] == s && s[..8] == s;
    WrapSmall(n);
    r := Hex2Uint(s, 8);
  }

  /** `yaml_hex2uint(yaml_rgb2hex(n), 6)` is the low 24 bits of n. */
  method RgbRoundTrip(n: u32) returns (r: u32)
    ensures r == Low(n, 24)
  {
    var s := Rgb2Hex(n);
    RgbTextRoundTrip(n, []);
    assert s + [] == s && s[..6] == s;
    Pow2Mono(24, 32);
    Pow2Values();
    WrapSmall(Low(n, 24));
    r := Hex2Uint(s, 6);
  }
}
