/** `yaml_get_bits`, `yaml_is_zero` and `yaml_to_signed`: reading bit fields
    back out of a byte buffer. These functions only read the buffer, so it is
    passed as the sequence of bytes from the C pointer on. */
module BitGet {
  import opened Arith
  import opened BitSeq
  import opened BitField
  import opened BitPut

  /** Read the w-bit field at bit offset o of `src`: the first byte from bit o
      up, then whole bytes, then the low bits of a last byte, each shifted
      above the bits read before it. */
  method GetBits(src: seq<byte>, o: nat, w: nat) returns (r: u32)
    requires o < 8 && w <= 32
    requires Covered(o, w) <= |src|
    ensures r == Field(src, o, w)
  {
    CoveredBounds(o, w);
    Pow2U32(w);
    var i: nat := 0;
    var shift: nat := 0;
    var bits: nat := w;
    var p := 0;
    if o > 0 {
      // the first byte masked to its bits from o up, moved down to bit 0
      i := Shr(src[p], o);
      if w <= 8 - o {
        FieldByte(src, 0, o, o, w);
        r := Low(i, w);
        return;
      }
      FieldByte(src, 0, o, o, 8 - o);
      ShrByte(src[0], o);
      LowSmall(i, 8 - o);
      p := p + 1;
      shift := 8 - o;
      bits := w - shift;
    }
    while bits >= 8
      invariant 8 * p == o + shift && shift + bits == w
      invariant i == Field(src, o, shift)
    {
      FieldGrow(src, o, shift, p, 8, shift + 8);
      Pow2Byte();
      LowSmall(src[p], 8);
      // a whole byte or-ed in above the bits read so far
      i := i + Shl(src[p], shift);
      p := p + 1;
      bits := bits - 8;
      shift := shift + 8;
    }
    if bits > 0 {
      FieldGrow(src, o, shift, p, bits, w);
      // the low bits of the last byte
      i := i + Shl(Low(src[p], bits), shift);
    } else {
      assert shift == w;
    }
    r := i;
  }

  /** Whether no bit of the `bits`-wide range at bit `bitoffs` of `data` is
      set. An unaligned range is read with `GetBits`, so it may be at most 32
      bits wide; an aligned one is checked four bytes at a time, then byte by
      byte, then its last partial byte. */
  method IsZero(data: seq<byte>, bitoffs: nat, bits: nat) returns (r: bool)
    requires bitoffs % 8 == 0 || bits <= 32
    requires bitoffs + bits <= 8 * |data|
    ensures r <==> Field(data, bitoffs, bits) == 0
  {
    var p := bitoffs / 8;
    var o := bitoffs % 8;
    assert bitoffs == 8 * p + o;
    if o != 0 {
      CoveredBounds(o, bits);
      var v := GetBits(data[p..], o, bits);
      FieldDrop(data, p, o, bits, bitoffs);
      return v == 0;
    }
    var left := bits;
    ghost var n: nat := 0;
    while left >= 32
      invariant 8 * p == bitoffs + n && n + left == bits
      invariant Field(data, bitoffs, n) == 0
    {
      // a 32-bit word is zero exactly when its four bytes are
      WordZero(data, bitoffs, n, p);
      if data[p..p + 4] != [0, 0, 0, 0] {
        FieldZeroSplit(data, bitoffs, n + 32, left - 32, bits);
        return false;
      }
      p := p + 4;
      left := left - 32;
      n := n + 32;
    }
    while left >= 8
      invariant 8 * p == bitoffs + n && n + left == bits
      invariant Field(data, bitoffs, n) == 0
    {
      ByteZeroStep(data, bitoffs, n, p);
      if data[p] != 0 {
        FieldZeroSplit(data, bitoffs, n + 8, left - 8, bits);
        return false;
      }
      p := p + 1;
      left := left - 8;
      n := n + 8;
    }
    if left > 0 {
      CoveredBounds(0, left);
      var v := GetBits(data[p..], 0, left);
      LastBitsZero(data, bitoffs, n, left, bits, p);
      return v == 0;
    }
    assert n == bits;
    return true;
  }

  /** With the first n bits of a range clear, the whole range is clear
      exactly when its last `left` bits, read from byte p on, are zero. */
  lemma LastBitsZero(s: seq<byte>, o: nat, n: nat, left: nat, w: nat, p: nat)
    requires p <= |s| && 8 * p == o + n && n + left == w && o + w <= 8 * |s|
    requires Field(s, o, n) == 0
    ensures Field(s, o, w) == 0 <==> Field(s[p..], 0, left) == 0
  {
    FieldDrop(s, p, 0, left, o + n);
    FieldZeroSplit(s, o, n, left, w);
  }

  /** With the bits before byte k clear, the range through byte k is clear
      exactly when byte k is zero. */
  lemma ByteZeroStep(s: seq<byte>, o: nat, n: nat, k: nat)
    requires k < |s| && 8 * k == o + n && Field(s, o, n) == 0
    ensures Field(s, o, n + 8) == 0 <==> s[k] == 0
  {
    FieldZeroSplit(s, o, n, 8, n + 8);
    FieldWholeByte(s, k, o + n);
  }

  /** With the bits before byte k clear, the range through byte k + 3 is
      clear exactly when the word of the four bytes k .. k + 3 is zero. */
  lemma WordZero(s: seq<byte>, o: nat, n: nat, k: nat)
    requires k + 4 <= |s| && 8 * k == o + n && Field(s, o, n) == 0
    ensures Field(s, o, n + 32) == 0 <==> s[k..k + 4] == [0, 0, 0, 0]
  {
    FieldZeroSplit(s, o, n, 32, n + 32);
    BytesZero(s, k, o + n, 4);
    WordBytes(s, k);
  }

  /** A field of c whole bytes starting at byte k is zero exactly when
      those bytes are. */
  lemma {:induction false} BytesZero(s: seq<byte>, k: nat, pos: nat, c: nat)
    requires k + c <= |s| && pos == 8 * k
    ensures Field(s, pos, 8 * c) == 0 <==> forall j :: k <= j < k + c ==> s[j] == 0
    decreases c
  {
    if c > 0 {
      FieldZeroSplit(s, pos, 8, 8 * (c - 1), 8 * c);
      FieldWholeByte(s, k, pos);
      BytesZero(s, k + 1, pos + 8, c - 1);
    } else {
      FieldZero(s, pos, 0);
    }
  }

  /** Four bytes read as one word are zero exactly when each of them is. */
  lemma WordBytes(s: seq<byte>, k: nat)
    requires k + 4 <= |s|
    ensures s[k..k + 4] == [0, 0, 0, 0] <==> forall j :: k <= j < k + 4 ==> s[j] == 0
  {
    assert s[k..k + 4] == [s[k], s[k + 1], s[k + 2], s[k + 3]];
  }

  /** Reading a field back from a buffer whose covered bytes a store of v
      produced gives the low w bits of v. */
  lemma GetAfterPut(s: seq<byte>, u: seq<byte>, v: u32, o: nat, w: nat)
    requires o < 8 && w <= 32 && |s| == Covered(o, w) <= |u|
    requires forall j :: 0 <= j < |s| ==> u[j] == PutByte(s[j], v, o, w, j)
    ensures Field(u, o, w) == Low(v, w)
  {
    var t := u[..|s|];
    CoveredBounds(o, w);
    PutBytesImage(s, t, v, o, w);
    FieldOfPut(s, t, v, o, w);
    FieldPrefix(u, o, w, |s|);
  }

  /** A signed value stored as `uint32_t` in a field of 0 < bits <= 32 bits
      is recovered by sign-extending the field. */
  lemma SignedRoundTrip(s: seq<byte>, u: seq<byte>, v: i32, o: nat, bits: nat)
    requires o < 8 && 0 < bits <= 32 && InSignedRange(v, bits)
    requires |s| == Covered(o, bits) <= |u|
    requires forall j :: 0 <= j < |s| ==> u[j] == PutByte(s[j], AsU32(v), o, bits, j)
    ensures Field(u, o, bits) < 0x1_0000_0000
    ensures ToSigned(Field(u, o, bits), bits) == v
  {
    GetAfterPut(s, u, AsU32(v), o, bits);
    LowOfSigned(v, bits);
    ToSignedOfTwosComplement(v, bits);
  }

  /** `yaml_put_bits` followed by `yaml_get_bits` on the same field gives
      back the low w bits of the stored value. */
  method PutThenGet(dst: array<byte>, at: nat, i: u32, o: nat, w: nat) returns (r: u32)
    requires o < 8 && w <= 32 && at + Covered(o, w) <= dst.Length
    modifies dst
    ensures r == Low(i, w)
  {
    PutBits(dst, at, i, o, w);
    r := GetBits(dst[at..], o, w);
    GetAfterPut(old(dst[..])[at..at + Covered(o, w)], dst[at..], i, o, w);
  }

  /** A signed value stored with `yaml_put_bits`, read back with
      `yaml_get_bits` and sign-extended with `yaml_to_signed`, is the value. */
  method PutThenGetSigned(dst: array<byte>, at: nat, v: i32, o: nat, bits: nat) returns (r: i32)
    requires o < 8 && 0 < bits <= 32 && InSignedRange(v, bits)
    requires at + Covered(o, bits) <= dst.Length
    modifies dst
    ensures r == v
  {
    PutBits(dst, at, AsU32(v), o, bits);
    var f := GetBits(dst[at..], o, bits);
    SignedRoundTrip(old(dst[..])[at..at + Covered(o, bits)], dst[at..], v, o, bits);
    r := ToSigned(f, bits);
  }

  /** The C conversion of a `uint32_t` to `int32_t`: two's complement. */
  function AsI32(u: u32): (r: i32)
    ensures r % 0x1_0000_0000 == u
  {
    if u < 0x8000_0000 then u else u - 0x1_0000_0000
  }

  /** Converting to `int32_t` and back to `uint32_t` gives u back. */
  lemma AsU32OfAsI32(u: u32)
    ensures AsU32(AsI32(u)) == u
  {
  }

  /** The C conversion of an `int32_t` to `uint32_t`: modulo 2^32. */
  function AsU32(v: i32): (r: u32)
    ensures AsI32(r) == v
  {
    if v < 0 then v + 0x1_0000_0000 else v
  }

  /** v is representable in `bits`-wide two's complement. */
  predicate InSignedRange(v: int, bits: nat)
    requires 0 < bits
  {
    -(Pow2(bits - 1) as int) <= v < Pow2(bits - 1)
  }

  /** The `bits`-wide two's complement pattern of v. */
  function TwosComplement(v: int, bits: nat): (r: u32)
    requires 0 < bits <= 32 && InSignedRange(v, bits)
    ensures r < Pow2(bits)
  {
    Pow2U32(bits);
    if v < 0 then v + Pow2(bits) else v
  }

  /** `yaml_to_signed`: sign-extend the `bits`-wide value i. When bit
      bits - 1 is set, `i |= 0xFFFFFFFF << bits` sets every bit from `bits`
      up to 31 (none when `bits` is 32) and keeps the bits below; otherwise
      i is unchanged. The result is then converted to `int32_t`. */
  function ToSigned(i: u32, bits: nat): (r: i32)
    requires 0 < bits <= 32
    ensures Shr(i, bits - 1) % 2 == 1 ==>
              Low(AsU32(r), bits) == Low(i, bits) && Shr(AsU32(r), bits) == Pow2(32 - bits) - 1
    ensures Shr(i, bits - 1) % 2 == 0 ==> AsU32(r) == i
  {
    BitTest(i, bits - 1);
    if And(i, Shl(1, bits - 1)) != 0 then
      var x := Or(i, Low(Shl(0xFFFF_FFFF, bits), 32));
      SignExtended(i, bits, x);
      AsU32OfAsI32(x);
      AsI32(x)
    else
      AsU32OfAsI32(i);
      AsI32(i)
  }

  /** `i | (0xFFFFFFFF << bits)` is a `uint32_t` that keeps the low `bits`
      bits of i and has every bit above them set. */
  lemma SignExtended(i: u32, bits: nat, x: nat)
    requires bits <= 32 && x == Or(i, Low(Shl(0xFFFF_FFFF, bits), 32))
    ensures x < 0x1_0000_0000
    ensures Low(x, bits) == Low(i, bits) && Shr(x, bits) == Pow2(32 - bits) - 1
  {
    var h: nat := Pow2(32 - bits) - 1;
    SignFill(i, bits, h);
    KeepLow(Low(i, bits), h, bits);
  }

  /** `i | (0xFFFFFFFF << bits)` in 32 bits: the low `bits` bits of i with
      the h ones above them, which read as 2^32 - 2^bits. */
  lemma SignFill(i: u32, bits: nat, h: nat)
    requires bits <= 32 && h == Pow2(32 - bits) - 1
    ensures Or(i, Low(Shl(0xFFFF_FFFF, bits), 32)) == Low(i, bits) + Shl(h, bits)
    ensures Shl(h, bits) == 0x1_0000_0000 - Pow2(bits)
  {
    HighMask(bits, h);
    OrHigh(i, bits, h);
  }

  /** l with h placed above its `bits` bits: masking gives l back and
      shifting gives h back. */
  lemma KeepLow(l: nat, h: nat, bits: nat)
    requires l < Pow2(bits)
    ensures Low(l + Shl(h, bits), bits) == l
    ensures Shr(l + Shl(h, bits), bits) == h
  {
    LowShifted(l, h, bits);
    LowSmall(l, bits);
    ShrOfShifted(l, h, bits);
  }

  /** Or-ing the ones above bit `bits` into a `uint32_t` keeps its low
      `bits` bits and sets all the others. */
  lemma OrHigh(i: u32, bits: nat, h: nat)
    requires bits <= 32 && h == Pow2(32 - bits) - 1
    ensures Or(i, Shl(h, bits)) == Low(i, bits) + Shl(h, bits)
  {
    var l, s := Low(i, bits), Shr(i, bits);
    Pow2Values();
    ShrBound(i, bits, 32);
    calc {
      Or(i, Shl(h, bits));
      { ShlShrLow(i, bits); }
      Or(l + Shl(s, bits), Shl(h, bits));
      { OrShifted(l, s, h, bits); }
      l + Shl(Or(s, h), bits);
      { OrOnes(s, 32 - bits, h); }
      l + Shl(h, bits);
    }
  }

  /** `0xFFFFFFFF << bits`, kept to 32 bits, is the 32 - bits ones h shifted
      up by `bits`. */
  lemma HighMask(bits: nat, h: nat)
    requires bits <= 32 && h == Pow2(32 - bits) - 1
    ensures Low(Shl(0xFFFF_FFFF, bits), 32) == Shl(h, bits)
    ensures Shl(h, bits) == 0x1_0000_0000 - Pow2(bits)
  {
    Pow2Values();
    LowShl(0xFFFF_FFFF, bits, 32);
    LowOnes(0xFFFF_FFFF, 32, 32 - bits, h);
    HighOnes(bits, h);
  }

  /** On a `bits`-wide value, `ToSigned` subtracts 2^bits exactly when the top bit is set. */
  lemma ToSignedValue(i: u32, bits: nat)
    requires 0 < bits <= 32 && i < Pow2(bits)
    ensures ToSigned(i, bits) == if i >= Pow2(bits - 1) then i - Pow2(bits) else i
  {
    TopBit(i, bits - 1, bits);
    BitTest(i, bits - 1);
    SignFill(i, bits, Pow2(32 - bits) - 1);
    LowSmall(i, bits);
    Pow2Mono(bits, 32);
    Pow2Values();
  }

  /** Decoding a field and encoding the result gives the field back; the
      result lies in the signed range of `bits` bits. */
  lemma TwosComplementOfToSigned(i: u32, bits: nat)
    requires 0 < bits <= 32 && i < Pow2(bits)
    ensures InSignedRange(ToSigned(i, bits), bits)
    ensures TwosComplement(ToSigned(i, bits), bits) == i
  {
    ToSignedValue(i, bits);
  }

  /** Sign extension recovers every value of the signed range from its
      `bits`-wide pattern. */
  lemma ToSignedOfTwosComplement(v: int, bits: nat)
    requires 0 < bits <= 32 && InSignedRange(v, bits)
    ensures TwosComplement(v, bits) < Pow2(bits)
    ensures ToSigned(TwosComplement(v, bits), bits) == v
  {
    Pow2Mono(bits, 32);
    Pow2Values();
    ToSignedValue(TwosComplement(v, bits), bits);
  }

  /** The low `bits` bits of a signed value passed as `uint32_t` are its
      `bits`-wide pattern. */
  lemma LowOfSigned(v: i32, bits: nat)
    requires 0 < bits <= 32 && InSignedRange(v, bits)
    ensures Low(AsU32(v), bits) == TwosComplement(v, bits)
  {
    if v < 0 {
      var x: nat := v + Pow2(bits);
      var h: nat := Pow2(32 - bits) - 1;
      var u: nat := AsU32(v);
      assert u == v + 0x1_0000_0000;
      HighOnes(bits, h);
      calc {
        Low(u, bits);
        Low(x + Shl(h, bits), bits);
        { LowShifted(x, h, bits); }
        Low(x, bits);
        { LowSmall(x, bits); }
        x;
      }
    } else {
      LowSmall(v, bits);
    }
  }

  /** `0xFFFFFFFF << bits` in 32 bits: the ones above bit `bits`, where the
      32 - bits ones are h. */
  lemma HighOnes(bits: nat, h: nat)
    requires bits <= 32 && h == Pow2(32 - bits) - 1
    ensures Shl(h, bits) == 0x1_0000_0000 - Pow2(bits)
  {
    var a: int, q: int := Pow2(32 - bits), Pow2(bits);
    ShlMul(h, bits);
    MulPred(a, q);
    Pow2Add(32 - bits, bits);
    Pow2Values();
  }
}
