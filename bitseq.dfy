/** The little-endian bit image of numbers and byte buffers: the vocabulary in
    which the bit-field codec is specified. Bit k of a buffer is bit k % 8 of
    byte k / 8, so a field stored at bit offset o of a buffer occupies a slice
    of this image. */
module BitSeq {
  import opened Arith
  import opened Seqs

  /** The low `w` bits of `n`, least significant first. */
  function ToBits(n: nat, w: nat): (r: seq<bool>)
    ensures |r| == w
  {
    if w == 0 then [] else [n % 2 == 1] + ToBits(n / 2, w - 1)
  }

  /** The number whose bits, least significant first, are `b`. */
  function FromBits(b: seq<bool>): (r: nat)
    ensures r < Pow2(|b|)
  {
    if b == [] then 0 else (if b[0] then 1 else 0) + 2 * FromBits(b[1..])
  }

  /** The bit image of a byte buffer. */
  function Bits(s: seq<byte>): (r: seq<bool>)
    ensures |r| == 8 * |s|
  {
    if s == [] then [] else ToBits(s[0], 8) + Bits(s[1..])
  }

  function Zeros(n: nat): seq<bool> { seq(n, _ => false) }

  /** No bit of `b` in [lo, hi) is set. */
  predicate ClearIn(b: seq<bool>, lo: nat, hi: nat)
    requires lo <= hi <= |b|
  {
    forall k :: lo <= k < hi ==> !b[k]
  }

  /** Reading back the low w bits of n gives n masked to w bits. */
  lemma {:induction false} FromBitsToBits(n: nat, w: nat)
    ensures FromBits(ToBits(n, w)) == Low(n, w)
  {
    if w > 0 {
      var t := ToBits(n, w);
      assert t[1..] == ToBits(n / 2, w - 1);
      FromBitsToBits(n / 2, w - 1);
    }
  }

  lemma {:induction false} FromBitsAppend(x: seq<bool>, y: seq<bool>)
    ensures FromBits(x + y) == FromBits(x) + Shl(FromBits(y), |x|)
  {
    if x != [] {
      assert (x + y)[0] == x[0] && (x + y)[1..] == x[1..] + y;
      FromBitsAppend(x[1..], y);
    } else {
      assert x + y == y;
    }
  }

  /** A bit string is all clear exactly when it denotes zero. */
  lemma {:induction false} FromBitsZero(b: seq<bool>)
    ensures FromBits(b) == 0 <==> ClearIn(b, 0, |b|)
  {
    if b != [] {
      FromBitsZero(b[1..]);
      assert forall k :: 1 <= k < |b| ==> b[1..][k - 1] == b[k];
    }
  }

  lemma {:induction false} ToBitsZero(w: nat)
    ensures ToBits(0, w) == Zeros(w)
  {
    if w > 0 {
      ToBitsZero(w - 1);
    }
  }

  /** The low w bits of n are its low a bits followed by the low w - a bits of n >> a. */
  lemma {:induction false} ToBitsSplit(n: nat, a: nat, w: nat)
    requires a <= w
    ensures ToBits(n, w) == ToBits(n, a) + ToBits(Shr(n, a), w - a)
  {
    if a > 0 {
      var h := [n % 2 == 1];
      calc {
        ToBits(n, w);
        h + ToBits(n / 2, w - 1);
        { ToBitsSplit(n / 2, a - 1, w - 1); }
        h + (ToBits(n / 2, a - 1) + ToBits(Shr(n, a), w - a));
        { Assoc(h, ToBits(n / 2, a - 1), ToBits(Shr(n, a), w - a)); }
        (h + ToBits(n / 2, a - 1)) + ToBits(Shr(n, a), w - a);
      }
    }
  }

  /** Only the low w bits of n matter to its w-bit image. */
  lemma {:induction false} ToBitsLow(n: nat, w: nat)
    ensures ToBits(Low(n, w), w) == ToBits(n, w)
  {
    if w > 0 {
      Halves(n % 2, Low(n / 2, w - 1));
      ToBitsLow(n / 2, w - 1);
    }
  }

  /** The w-bit image of n, split at bit a, seen through its low w bits. */
  lemma ToBitsLowSplit(n: nat, a: nat, w: nat)
    requires a <= w
    ensures ToBits(Low(n, w), a) + ToBits(Shr(Low(n, w), a), w - a) == ToBits(n, w)
  {
    ToBitsSplit(Low(n, w), a, w);
    ToBitsLow(n, w);
  }

  /** A number below 2^w has only clear bits from bit w up. */
  lemma ToBitsHigh(v: nat, w: nat, t: nat)
    requires w <= t && v < Pow2(w)
    ensures ToBits(v, t) == ToBits(v, w) + Zeros(t - w)
  {
    ShrBound(v, w, w);
    ToBitsSplit(v, w, t);
    ToBitsZero(t - w);
  }

  /** Placing `hi` above a k-bit `lo` concatenates their bit images. */
  lemma {:induction false} ToBitsCombine(lo: nat, hi: nat, k: nat, w: nat)
    requires k <= w && lo < Pow2(k)
    ensures ToBits(lo + Shl(hi, k), w) == ToBits(lo, k) + ToBits(hi, w - k)
  {
    if k > 0 {
      var h := [lo % 2 == 1];
      assert lo + Shl(hi, k) == lo % 2 + 2 * (lo / 2 + Shl(hi, k - 1));
      Halves(lo % 2, lo / 2 + Shl(hi, k - 1));
      calc {
        ToBits(lo + Shl(hi, k), w);
        h + ToBits(lo / 2 + Shl(hi, k - 1), w - 1);
        { ToBitsCombine(lo / 2, hi, k - 1, w - 1); }
        h + (ToBits(lo / 2, k - 1) + ToBits(hi, w - k));
        { Assoc(h, ToBits(lo / 2, k - 1), ToBits(hi, w - k)); }
        ToBits(lo, k) + ToBits(hi, w - k);
      }
    }
  }

  /** The bits k..j-1 of the w-bit image of n are the low j - k bits of n >> k. */
  lemma ToBitsSlice(n: nat, w: nat, k: nat, j: nat)
    requires k <= j <= w
    ensures ToBits(n, w)[k..j] == ToBits(Shr(n, k), j - k)
  {
    var x, y, z := ToBits(n, k), ToBits(Shr(n, k), j - k), ToBits(Shr(Shr(n, k), j - k), w - j);
    assert ToBits(n, w) == x + (y + z) by {
      ToBitsSplit(n, k, w);
      ToBitsSplit(Shr(n, k), j - k, w - k);
    }
    Assoc(x, y, z);
    SliceMid(x, y, z);
  }

  /** A byte made of a k-bit low part and an (8-k)-bit high part. */
  lemma ByteOf(lo: nat, hi: nat, k: nat)
    requires k <= 8 && lo < Pow2(k) && hi < Pow2(8 - k)
    ensures lo + Shl(hi, k) < 0x100
    ensures ToBits(lo + Shl(hi, k), 8) == ToBits(lo, k) + ToBits(hi, 8 - k)
  {
    Pow2Byte();
    CombineBound(lo, hi, k, 8);
    ToBitsCombine(lo, hi, k, 8);
  }

  /** The bits of a byte from k up are the bits of b >> k. */
  lemma ByteHigh(b: byte, k: nat)
    requires k <= 8
    ensures ToBits(b, 8)[k..] == ToBits(Shr(b, k), 8 - k)
  {
    ToBitsSlice(b, 8, k, 8);
    assert ToBits(b, 8)[k..] == ToBits(b, 8)[k..8];
  }

  lemma {:induction false} BitsAppend(s: seq<byte>, t: seq<byte>)
    ensures Bits(s + t) == Bits(s) + Bits(t)
  {
    if s != [] {
      assert (s + t)[0] == s[0] && (s + t)[1..] == s[1..] + t;
      calc {
        Bits(s + t);
        ToBits(s[0], 8) + Bits(s[1..] + t);
        { BitsAppend(s[1..], t); }
        ToBits(s[0], 8) + (Bits(s[1..]) + Bits(t));
        { Assoc(ToBits(s[0], 8), Bits(s[1..]), Bits(t)); }
        (ToBits(s[0], 8) + Bits(s[1..])) + Bits(t);
      }
    } else {
      assert s + t == t;
    }
  }

  /** The first o <= 8 bits of a buffer's image come from its first byte. */
  lemma BitsHead(s: seq<byte>, o: nat)
    requires |s| > 0 && o <= 8
    ensures Bits(s)[..o] == ToBits(s[0], o)
  {
    calc {
      Bits(s)[..o];
      (ToBits(s[0], 8) + Bits(s[1..]))[..o];
      ToBits(s[0], 8)[0..o];
      { ToBitsSlice(s[0], 8, 0, o); }
      ToBits(Shr(s[0], 0), o);
    }
  }

  /** From bit 8 on, a buffer's image is the image of the bytes after the first. */
  lemma BitsTail(s: seq<byte>, j: nat)
    requires |s| > 0 && 8 <= j <= 8 * |s|
    ensures Bits(s)[j..] == Bits(s[1..])[j - 8..]
  {
    calc {
      Bits(s)[j..];
      (ToBits(s[0], 8) + Bits(s[1..]))[j..];
      Bits(s[1..])[j - 8..];
    }
  }

  lemma BitsSingle(s: seq<byte>)
    requires |s| == 1
    ensures Bits(s) == ToBits(s[0], 8)
  {
    assert Bits(s) == ToBits(s[0], 8) + Bits(s[1..]);
    assert s[1..] == [];
  }

  lemma BitsSnoc(s: seq<byte>, b: byte)
    ensures Bits(s + [b]) == Bits(s) + ToBits(b, 8)
  {
    BitsAppend(s, [b]);
    BitsSingle([b]);
  }

  /** Byte k of a buffer supplies bits 8k..8k+7 of its image. */
  lemma BitsAt(s: seq<byte>, k: nat)
    requires k < |s|
    ensures Bits(s)[8 * k..8 * k + 8] == ToBits(s[k], 8)
  {
    var pre, post := s[..k], s[k + 1..];
    SplitAt(s, k);
    BitsAppend(pre + [s[k]], post);
    BitsSnoc(pre, s[k]);
    SliceMid(Bits(pre), ToBits(s[k], 8), Bits(post));
  }

  /** The image of a slice of bytes is the matching slice of the image. */
  lemma BitsSlice(s: seq<byte>, a: nat, b: nat)
    requires a <= b <= |s|
    ensures Bits(s[a..b]) == Bits(s)[8 * a..8 * b]
  {
    SplitThree(s, a, b);
    BitsAppend(s[..a] + s[a..b], s[b..]);
    BitsAppend(s[..a], s[a..b]);
    SliceMid(Bits(s[..a]), Bits(s[a..b]), Bits(s[b..]));
  }

  /** A range is clear exactly when the slice holding it is clear throughout. */
  lemma ClearInSlice(b: seq<bool>, lo: nat, hi: nat)
    requires lo <= hi <= |b|
    ensures ClearIn(b, lo, hi) <==> ClearIn(b[lo..hi], 0, hi - lo)
  {
    if ClearIn(b[lo..hi], 0, hi - lo) {
      forall k | lo <= k < hi
        ensures !b[k]
      {
        assert b[k] == b[lo..hi][k - lo];
      }
    }
  }
}
