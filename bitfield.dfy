/** Bit fields in byte buffers, as `yaml_put_bits`, `yaml_get_bits` and
    `yaml_is_zero` lay them out.

    A field is `w` bits wide and starts `o` bits into a run of bytes; its
    bits are stored least significant first, so in the bit image `Bits` of
    the bytes it is the slice [o, o + w). */
module BitField {
  import opened Arith
  import opened BitSeq
  import opened Seqs

  /** Number of bytes spanned by a w-bit field that starts o bits into the first byte. */
  function Covered(o: nat, w: nat): nat
  {
    (o + w + 7) / 8
  }

  /** The covered bytes hold the field and fall short of one more byte. */
  lemma CoveredBounds(o: nat, w: nat)
    ensures o + w <= 8 * Covered(o, w) < o + w + 8
  {
  }

  /** The w-bit field at bit offset o of `s`, read as an unsigned number. */
  function Field(s: seq<byte>, o: nat, w: nat): (r: nat)
    requires o + w <= 8 * |s|
    ensures r < Pow2(w)
  {
    FromBits(Bits(s)[o..o + w])
  }

  /** A field depends only on the bytes that cover it. */
  lemma FieldPrefix(s: seq<byte>, o: nat, w: nat, n: nat)
    requires o + w <= 8 * n && n <= |s|
    ensures Field(s[..n], o, w) == Field(s, o, w)
  {
    BitsSlice(s, 0, n);
    assert s[0..n] == s[..n];
    assert Bits(s[..n])[o..o + w] == Bits(s)[o..o + w];
  }

  /** A field of n + r bits is its low n bits with the r bits above them
      shifted in on top. */
  lemma FieldSplit(s: seq<byte>, o: nat, n: nat, r: nat)
    requires o + n + r <= 8 * |s|
    ensures Field(s, o, n + r) == Field(s, o, n) + Shl(Field(s, o + n, r), n)
  {
    var b := Bits(s);
    assert b[o..o + n + r] == b[o..o + n] + b[o + n..o + n + r];
    FromBitsAppend(b[o..o + n], b[o + n..o + n + r]);
  }

  /** A field lying inside byte k, a bits into it, is that byte shifted right
      by a and masked to r bits. */
  lemma FieldByte(s: seq<byte>, k: nat, pos: nat, a: nat, r: nat)
    requires k < |s| && a + r <= 8 && pos == 8 * k + a
    ensures Field(s, pos, r) == Low(Shr(s[k], a), r)
  {
    var b := Bits(s);
    var y := Shr(s[k], a);
    calc {
      b[pos..pos + r];
      { SliceOfSlice(b, 8 * k, 8 * k + 8, a, r, pos); }
      b[8 * k..8 * k + 8][a..a + r];
      { BitsAt(s, k); }
      ToBits(s[k], 8)[a..a + r];
      { ToBitsSlice(s[k], 8, a, a + r); }
      ToBits(y, r);
    }
    FromBitsToBits(y, r);
  }

  /** Extending a field that ends at the byte boundary 8k by r <= 8 bits
      adds the low r bits of byte k above it. */
  lemma FieldGrow(s: seq<byte>, o: nat, n: nat, k: nat, r: nat, m: nat)
    requires k < |s| && 8 * k == o + n && r <= 8 && m == n + r
    ensures Field(s, o, m) == Field(s, o, n) + Shl(Low(s[k], r), n)
  {
    FieldSplit(s, o, n, r);
    FieldByte(s, k, o + n, 0, r);
  }

  /** A field of n + r bits reads as zero exactly when its low n bits and
      the r bits above them both do. */
  lemma FieldZeroSplit(s: seq<byte>, o: nat, n: nat, r: nat, m: nat)
    requires o + m <= 8 * |s| && m == n + r
    ensures Field(s, o, m) == 0 <==> Field(s, o, n) == 0 && Field(s, o + n, r) == 0
  {
    FieldSplit(s, o, n, r);
    ShlGrows(Field(s, o + n, r), n);
    ShlZero(n);
  }

  /** Byte k read as an 8-bit field is the byte itself. */
  lemma FieldWholeByte(s: seq<byte>, k: nat, pos: nat)
    requires k < |s| && pos == 8 * k
    ensures Field(s, pos, 8) == s[k]
  {
    FieldByte(s, k, pos, 0, 8);
    Pow2Byte();
    LowSmall(s[k], 8);
  }

  /** Dropping the first p bytes moves every field down by 8p bits. */
  lemma FieldDrop(s: seq<byte>, p: nat, o: nat, w: nat, pos: nat)
    requires p <= |s| && pos == 8 * p + o && o + w <= 8 * (|s| - p)
    ensures Field(s[p..], o, w) == Field(s, pos, w)
  {
    assert s == s[..p] + s[p..];
    BitsAppend(s[..p], s[p..]);
    var b := Bits(s[p..]);
    assert Bits(s)[pos..pos + w] == b[o..o + w];
  }

  /** A field reads as zero exactly when none of its bits is set. */
  lemma FieldZero(s: seq<byte>, o: nat, w: nat)
    requires o + w <= 8 * |s|
    ensures Field(s, o, w) == 0 <==> ClearIn(Bits(s), o, o + w)
  {
    var b := Bits(s);
    var t := b[o..o + w];
    assert Field(s, o, w) == FromBits(t);
    FromBitsZero(t);
    ClearInSlice(b, o, o + w);
  }

  /** The bit image of the covered bytes `s` after storing `v` in the w-bit
      field at offset o < 8. The field receives the low w bits of v and every
      other bit keeps its value, except when the field starts inside the first
      byte and also ends there: then the bits of that byte above the field are
      cleared. */
  function PutImage(s: seq<byte>, v: nat, o: nat, w: nat): seq<bool>
    requires o < 8 && o + w <= 8 * |s|
  {
    var b := Bits(s);
    if 0 < o && o + w <= 8 then b[..o] + ToBits(v, w) + Zeros(8 - o - w) + b[8..]
    else b[..o] + ToBits(v, w) + b[o + w..]
  }

  /** Reading a field back after storing v in it gives the low w bits of v. */
  lemma FieldOfPut(s: seq<byte>, t: seq<byte>, v: nat, o: nat, w: nat)
    requires o < 8 && o + w <= 8 * |s| && |t| == |s|
    requires Bits(t) == PutImage(s, v, o, w)
    ensures Field(t, o, w) == Low(v, w)
  {
    var b := Bits(s);
    var x := b[..o];
    if 0 < o && o + w <= 8 {
      var rest := Zeros(8 - o - w) + b[8..];
      assert Bits(t) == x + ToBits(v, w) + rest by {
        Assoc(x + ToBits(v, w), Zeros(8 - o - w), b[8..]);
      }
      SliceMid(x, ToBits(v, w), rest);
    } else {
      SliceMid(x, ToBits(v, w), b[o + w..]);
    }
    FromBitsToBits(v, w);
  }

  /** Storing a field keeps the bits below it. */
  lemma PutKeepsBelow(s: seq<byte>, v: nat, o: nat, w: nat)
    requires o < 8 && o + w <= 8 * |s|
    ensures PutImage(s, v, o, w)[..o] == Bits(s)[..o]
  {
    var b := Bits(s);
    if 0 < o && o + w <= 8 {
      Assoc(b[..o] + ToBits(v, w), Zeros(8 - o - w), b[8..]);
      Assoc(b[..o], ToBits(v, w), Zeros(8 - o - w) + b[8..]);
      SliceSeam(b[..o], ToBits(v, w) + (Zeros(8 - o - w) + b[8..]));
    } else {
      Assoc(b[..o], ToBits(v, w), b[o + w..]);
      SliceSeam(b[..o], ToBits(v, w) + b[o + w..]);
    }
  }

  /** Storing a field keeps the bits above it, except the cleared rest of the
      first byte when the field starts and ends inside that byte. */
  lemma PutKeepsAbove(s: seq<byte>, v: nat, o: nat, w: nat)
    requires o < 8 && o + w <= 8 * |s|
    ensures !(0 < o && o + w < 8) ==> PutImage(s, v, o, w)[o + w..] == Bits(s)[o + w..]
    ensures 0 < o && o + w <= 8 ==> PutImage(s, v, o, w)[o + w..] == Zeros(8 - o - w) + Bits(s)[8..]
  {
    var b := Bits(s);
    if 0 < o && o + w <= 8 {
      var rest := Zeros(8 - o - w) + b[8..];
      Assoc(b[..o] + ToBits(v, w), Zeros(8 - o - w), b[8..]);
      SliceSeam(b[..o] + ToBits(v, w), rest);
      if o + w == 8 {
        assert Zeros(0) == [];
      }
    } else {
      SliceSeam(b[..o] + ToBits(v, w), b[o + w..]);
    }
  }
}
