/** `yaml_put_bits`: storing the low bits of a 32-bit value into a bit field
    of a byte buffer. The buffer is an array and a base index `at`, standing
    for the C pointer into it. */
module BitPut {
  import opened Arith
  import opened BitSeq
  import opened Seqs
  import opened BitField

  /** Byte j of the covered bytes after a store of the low w bits of v at
      bit offset o, given the byte b it replaces. */
  function PutByte(b: byte, v: nat, o: nat, w: nat, j: nat): byte
    requires o < 8 && j < Covered(o, w)
  {
    var x := Low(v, w);
    if o == 0 then StoreByte(b, x, w, j)
    else if j == 0 then HeadMerge(b, x, o)
    else StoreByte(b, Shr(x, 8 - o), w - (8 - o), j - 1)
  }

  /** Byte j of an aligned store of the w-bit value x, given the byte b it
      replaces: a whole byte of x, or the last, partial byte. */
  function StoreByte(b: byte, x: nat, w: nat, j: nat): byte
    requires 8 * j < w
  {
    if 8 * j + 8 <= w then
      Pow2Byte();
      Low(Shr(x, 8 * j), 8)
    else TailMerge(b, Shr(x, 8 * j), w - 8 * j)
  }

  /** The first byte of a store at bit offset o > 0: it keeps the low o bits
      of b and takes the low 8 - o bits of v above them (the two parts share
      no bit, so their bitwise or is their sum). */
  function HeadMerge(b: byte, v: nat, o: nat): byte
    requires 0 < o < 8
  {
    LowShl(v, o, 8);
    ByteOf(Low(b, o), Low(v, 8 - o), o);
    Low(b, o) + Low(Shl(v, o), 8)
  }

  /** The last, partial byte of a store: it keeps the bits of b from k up
      and takes the low k bits of x below them. */
  function TailMerge(b: byte, x: nat, k: nat): byte
    requires 0 < k < 8
  {
    ShrByte(b, k);
    ByteOf(Low(x, k), Shr(b, k), k);
    Low(x, k) + Shl(Shr(b, k), k)
  }

  /** Store the low w bits of i at bit offset o of the buffer at dst[at..].
      Only the covered bytes change. */
  method PutBits(dst: array<byte>, at: nat, i: u32, o: nat, w: nat)
    requires o < 8 && w <= 32
    requires at + Covered(o, w) <= dst.Length
    modifies dst
    ensures forall j :: at <= j < at + Covered(o, w) ==> dst[j] == PutByte(old(dst[j]), i, o, w, j - at)
    ensures forall j :: 0 <= j < at || at + Covered(o, w) <= j < dst.Length ==> dst[j] == old(dst[j])
  {
    // keep only the low w bits of the value
    var x := Low(i, w);
    if o > 0 {
      var b := dst[at];
      // keep the bits below o in the first byte and put the value above them
      dst[at] := HeadMerge(b, x, o);
      if w <= 8 - o {
        return;
      }
      var bits: nat := w - (8 - o);
      ghost var mid := dst[..];
      // drop the bits the first byte took
      StoreBytes(dst, at + 1, Shr(x, 8 - o), bits);
      forall j | at + 1 <= j < at + Covered(o, w)
        ensures dst[j] == PutByte(old(dst[j]), i, o, w, j - at)
      {
        assert mid[j] == old(dst[j]);
      }
    } else {
      StoreBytes(dst, at, x, w);
    }
  }

  /** The byte-aligned part of a store: the low w bits of x0 go to dst[at..],
      whole bytes first and then the low bits of a last byte whose other bits
      are kept. */
  method StoreBytes(dst: array<byte>, at: nat, x0: nat, w: nat)
    requires at + Covered(0, w) <= dst.Length
    modifies dst
    ensures forall j :: at <= j < at + Covered(0, w) ==> dst[j] == StoreByte(old(dst[j]), x0, w, j - at)
    ensures forall j :: 0 <= j < at || at + Covered(0, w) <= j < dst.Length ==> dst[j] == old(dst[j])
  {
    var x := x0;
    var bits: nat := w;
    var p := at;
    ghost var k: nat := 0;
    while bits >= 8
      invariant p == at + k && 8 * k + bits == w
      invariant x == Shr(x0, 8 * k)
      invariant forall j :: at <= j < p ==> dst[j] == StoreByte(old(dst[j]), x0, w, j - at)
      invariant forall j :: 0 <= j < at || p <= j < dst.Length ==> dst[j] == old(dst[j])
    {
      Pow2Byte();
      // a whole byte of the value
      dst[p] := Low(x, 8);
      ShrShr(x0, 8 * k, 8);
      assert 8 * k + 8 == 8 * (k + 1);
      p := p + 1;
      k := k + 1;
      bits := bits - 8;
      // move the next byte of the value down
      x := Shr(x, 8);
    }
    if bits > 0 {
      var b := dst[p];
      // the last byte keeps its bits above the field
      dst[p] := TailMerge(b, x, bits);
    }
  }

  /** The bit image of a finished store: the field holds the low w bits of v
      and the other bits are as `PutImage` describes. */
  lemma PutBytesImage(s: seq<byte>, t: seq<byte>, v: nat, o: nat, w: nat)
    requires o < 8 && |t| == |s| == Covered(o, w)
    requires forall j :: 0 <= j < |s| ==> t[j] == PutByte(s[j], v, o, w, j)
    ensures Bits(t) == PutImage(s, v, o, w)
  {
    var x := Low(v, w);
    if o == 0 {
      StoreImage(s, t, x, w);
      PutWhole(s, t, v, w);
    } else if w <= 8 - o {
      assert t[0] == HeadMerge(s[0], x, o);
      PutHeadOnly(s, t, v, o, w);
    } else {
      var bits := w - (8 - o);
      forall j | 0 <= j < |s| - 1
        ensures t[1..][j] == StoreByte(s[1..][j], Shr(x, 8 - o), bits, j)
      {
        assert t[j + 1] == PutByte(s[j + 1], v, o, w, j + 1);
      }
      StoreImage(s[1..], t[1..], Shr(x, 8 - o), bits);
      HeadMergeBits(s[0], x, o);
      PutSplit(s, t, v, o, w);
    }
  }

  /** The aligned store writes the w bits of x and keeps every bit above them. */
  lemma {:induction false} StoreImage(s: seq<byte>, t: seq<byte>, x: nat, w: nat)
    requires |t| == |s| == Covered(0, w)
    requires forall j :: 0 <= j < |s| ==> t[j] == StoreByte(s[j], x, w, j)
    ensures Bits(t) == ToBits(x, w) + Bits(s)[w..]
  {
    if w >= 8 {
      forall j | 0 <= j < |s| - 1
        ensures t[1..][j] == StoreByte(s[1..][j], Shr(x, 8), w - 8, j)
      {
        assert t[j + 1] == StoreByte(s[j + 1], x, w, j + 1);
        ShrShr(x, 8, 8 * j);
        assert 8 + 8 * j == 8 * (j + 1);
      }
      StoreImage(s[1..], t[1..], Shr(x, 8), w - 8);
      assert t[0] == Low(x, 8) by {
        assert t[0] == StoreByte(s[0], x, w, 0);
      }
      StoreByteImage(s, t, x, w);
    } else if w > 0 {
      assert t[0] == TailMerge(s[0], x, w) by {
        assert t[0] == StoreByte(s[0], x, w, 0);
      }
      BitsSingle(s);
      BitsSingle(t);
      TailMergeBits(s[0], x, w);
    }
  }

  /** One whole byte in front of the image of the rest of an aligned store. */
  lemma StoreByteImage(s: seq<byte>, t: seq<byte>, x: nat, w: nat)
    requires 8 <= w && |t| == |s| == Covered(0, w) && t[0] == Low(x, 8)
    requires Bits(t[1..]) == ToBits(Shr(x, 8), w - 8) + Bits(s[1..])[w - 8..]
    ensures Bits(t) == ToBits(x, w) + Bits(s)[w..]
  {
    var y, e := ToBits(Shr(x, 8), w - 8), Bits(s[1..])[w - 8..];
    calc {
      Bits(t);
      ToBits(t[0], 8) + Bits(t[1..]);
      ToBits(t[0], 8) + (y + e);
      { Assoc(ToBits(t[0], 8), y, e); }
      ToBits(t[0], 8) + y + e;
      { ToBitsLow(x, 8); }
      ToBits(x, 8) + y + e;
      { ToBitsSplit(x, 8, w); }
      ToBits(x, w) + e;
      { BitsTail(s, w); }
      ToBits(x, w) + Bits(s)[w..];
    }
  }

  /** The merged first byte holds the low o bits of b, then the low 8 - o bits of v. */
  lemma HeadMergeBits(b: byte, v: nat, o: nat)
    requires 0 < o < 8
    ensures ToBits(HeadMerge(b, v, o), 8) == ToBits(b, o) + ToBits(v, 8 - o)
  {
    var lo, hi := Low(b, o), Low(v, 8 - o);
    assert HeadMerge(b, v, o) == lo + Shl(hi, o) by {
      LowShl(v, o, 8);
    }
    calc {
      ToBits(lo + Shl(hi, o), 8);
      { ByteOf(lo, hi, o); }
      ToBits(lo, o) + ToBits(hi, 8 - o);
      { ToBitsLow(b, o); ToBitsLow(v, 8 - o); }
      ToBits(b, o) + ToBits(v, 8 - o);
    }
  }

  /** The merged last byte holds the low k bits of x, then the bits of b from k up. */
  lemma TailMergeBits(b: byte, x: nat, k: nat)
    requires 0 < k < 8
    ensures ToBits(TailMerge(b, x, k), 8) == ToBits(x, k) + ToBits(b, 8)[k..]
  {
    ShrByte(b, k);
    calc {
      ToBits(Low(x, k) + Shl(Shr(b, k), k), 8);
      { ByteOf(Low(x, k), Shr(b, k), k); }
      ToBits(Low(x, k), k) + ToBits(Shr(b, k), 8 - k);
      { ByteHigh(b, k); ToBitsLow(x, k); }
      ToBits(x, k) + ToBits(b, 8)[k..];
    }
  }

  /** A store that ends inside its first byte. */
  lemma PutHeadOnly(s: seq<byte>, t: seq<byte>, i: nat, o: nat, w: nat)
    requires 0 < o < 8 && o + w <= 8 && |s| == |t| == 1
    requires t[0] == HeadMerge(s[0], Low(i, w), o)
    ensures Bits(t) == PutImage(s, i, o, w)
  {
    var v := Low(i, w);
    var z := Zeros(8 - o - w);
    var b := Bits(s);
    assert b[8..] == [];
    calc {
      Bits(t);
      { BitsSingle(t); }
      ToBits(t[0], 8);
      { HeadOnlyByte(s[0], v, o, w); }
      ToBits(s[0], o) + ToBits(v, w) + z;
      { ToBitsLow(i, w); }
      ToBits(s[0], o) + ToBits(i, w) + z;
      { BitsHead(s, o); }
      b[..o] + ToBits(i, w) + z;
      b[..o] + ToBits(i, w) + z + b[8..];
    }
  }

  /** The only byte of a store that ends inside it: the low o bits of b stay,
      the w bits of v follow and the bits above are cleared. */
  lemma HeadOnlyByte(b: byte, v: nat, o: nat, w: nat)
    requires 0 < o < 8 && o + w <= 8 && v < Pow2(w)
    ensures ToBits(HeadMerge(b, v, o), 8) == ToBits(b, o) + ToBits(v, w) + Zeros(8 - o - w)
  {
    ToBitsHigh(v, w, 8 - o);
    HeadMergeBits(b, v, o);
    Assoc(ToBits(b, o), ToBits(v, w), Zeros(8 - o - w));
  }

  /** A store that starts inside the first byte and continues past it: the
      merged first byte followed by the aligned store of the remaining bits. */
  lemma PutSplit(s: seq<byte>, t: seq<byte>, i: nat, o: nat, w: nat)
    requires 0 < o < 8 && 8 < o + w && |t| == |s| && o + w <= 8 * |s|
    requires ToBits(t[0], 8) == ToBits(s[0], o) + ToBits(Low(i, w), 8 - o)
    requires Bits(t[1..]) == ToBits(Shr(Low(i, w), 8 - o), w - (8 - o)) + Bits(s[1..])[w - (8 - o)..]
    ensures Bits(t) == PutImage(s, i, o, w)
  {
    var r := w - (8 - o);
    var x, y, z, e := ToBits(s[0], o), ToBits(Low(i, w), 8 - o), ToBits(Shr(Low(i, w), 8 - o), r), Bits(s)[o + w..];
    calc {
      Bits(t);
      ToBits(t[0], 8) + Bits(t[1..]);
      (x + y) + (z + Bits(s[1..])[r..]);
      { BitsTail(s, o + w); }
      (x + y) + (z + e);
      { Assoc(x + y, z, e); Assoc(x, y, z); }
      x + (y + z) + e;
      { ToBitsLowSplit(i, 8 - o, w); }
      x + ToBits(i, w) + e;
      { BitsHead(s, o); }
      Bits(s)[..o] + ToBits(i, w) + e;
    }
  }

  /** A store at offset 0 is the aligned store of the low w bits. */
  lemma PutWhole(s: seq<byte>, t: seq<byte>, i: nat, w: nat)
    requires w <= 8 * |s|
    requires Bits(t) == ToBits(Low(i, w), w) + Bits(s)[w..]
    ensures Bits(t) == PutImage(s, i, 0, w)
  {
    var b := Bits(s);
    assert ToBits(Low(i, w), w) == ToBits(i, w) by {
      ToBitsLow(i, w);
    }
    assert b[..0] + ToBits(i, w) + b[w..] == ToBits(i, w) + b[w..] by {
      assert b[..0] == [];
    }
  }
}
