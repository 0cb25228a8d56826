/**
 * Facts about the block geometry of the radix-X codec: what a partial block
 * of r bytes encodes to, how the length functions split into whole blocks,
 * and which digit counts the decoder accepts.
 */
module BaseXLengths {
  import opened BaseXMath
  import opened BaseX

  /** r <= base256BlockLen bytes encode to the least k with base^k >= 256^r characters. */
  lemma EncodedLenOfBlock(enc: Encoding, r: nat)
    requires Geometry(enc) && r <= enc.base256BlockLen
    ensures EncodedLen(enc, r) == DigitsFor(enc.base, r)
  {
    if r < enc.base256BlockLen {
      DivModUnique(r, enc.base256BlockLen, 0, r);
    }
  }

  /**
   * The digits of r >= 1 bytes in a base below 256: at least one, a value
   * range below 256^(r+1), so at least 8r and less than 8r + 8 whole bits,
   * and one digit fewer holds less than 8r bits.
   */
  lemma DigitsForBounds(b: nat, r: nat)
    requires 2 <= b < 256 && r >= 1
    ensures var e := DigitsFor(b, r);
      && e >= 1
      && Pow(b, e) < Pow(256, r + 1)
      && 8 * r <= Bits(b, e) < 8 * r + 8
      && Bits(b, e - 1) < 8 * r
  {
    var e := DigitsFor(b, r);
    DigitsForPositive(b, r);
    PowPositive(256, r);
    PowPositive(b, e - 1);
    var y, x := Pow(256, r), Pow(b, e - 1);
    CeilLogBounds(b, y);
    assert x < y && Pow(b, e) >= y;
    assert Pow(b, e) < Pow(256, r + 1) by {
      assert Pow(256, r + 1) == 256 * y;
      assert Pow(b, e) == b * x;
      MulRight(b, 256, x);
      MulRight(x + 1, y, 256);
    }
    BitsBetween(Pow(b, e), r);
    assert Bits(b, e - 1) < 8 * r by {
      Pow256(r);
      Log2FloorIsLargest(x, 8 * r);
    }
  }

  /** A value in [256^r, 256^(r+1)) has between 8r and 8r + 7 whole bits. */
  lemma BitsBetween(v: nat, r: nat)
    requires Pow(256, r) <= v < Pow(256, r + 1)
    ensures v >= 1 && 8 * r <= Log2Floor(v) < 8 * r + 8
  {
    PowPositive(256, r);
    Pow256(r);
    Pow256(r + 1);
    assert 8 * (r + 1) == 8 * r + 8;
    Log2FloorIsLargest(v, 8 * r);
    Log2FloorIsLargest(v, 8 * r + 8);
  }

  /** More bytes never need fewer digits; in a base below 256, strictly more. */
  lemma DigitsForIncreasing(b: nat, r: nat, l: nat)
    requires 2 <= b < 256 && r <= l
    ensures DigitsFor(b, r) <= DigitsFor(b, l)
    ensures r < l ==> DigitsFor(b, r) < DigitsFor(b, l)
  {
    var e, f := DigitsFor(b, r), DigitsFor(b, l);
    PowPositive(256, r);
    PowPositive(256, l);
    assert e <= f by {
      PowIncreasing(256, r, l);
      CeilLogBounds(b, Pow(256, l));
      CeilLogIsLeast(b, Pow(256, r), f);
    }
    if r < l {
      assert Pow(b, e) < Pow(256, l) by {
        if r >= 1 {
          DigitsForBounds(b, r);
        } else {
          assert Pow(256, 0) == 1;
        }
        PowIncreasing(256, r + 1, l);
      }
      CeilLogIsLeast(b, Pow(256, l), e);
    }
  }

  /**
   * A block of 1 <= r <= base256BlockLen bytes: its E characters fit in a
   * full block (strictly, for a partial block), hold at least 8r bits, and
   * less than 8 more.
   */
  lemma PartialBlock(enc: Encoding, r: nat)
    requires Geometry(enc) && 1 <= r <= enc.base256BlockLen
    ensures var e := EncodedLen(enc, r);
      && 1 <= e <= enc.baseXBlockLen
      && (r < enc.base256BlockLen ==> e < enc.baseXBlockLen)
      && 8 * r <= Bits(enc.base, e) < 8 * r + 8
      && Bits(enc.base, e - 1) < 8 * r
  {
    EncodedLenOfBlock(enc, r);
    DigitsForBounds(enc.base, r);
    DigitsForIncreasing(enc.base, r, enc.base256BlockLen);
  }

  /** Decoding lengths undo encoding lengths within a block. */
  lemma DecodedLenOfEncoded(enc: Encoding, r: nat)
    requires Geometry(enc) && r <= enc.base256BlockLen
    ensures DecodedLen(enc, EncodedLen(enc, r)) == r
  {
    var e := EncodedLen(enc, r);
    if r == 0 {
      EncodedLenOfBlock(enc, 0);
    } else {
      PartialBlock(enc, r);
      if e < enc.baseXBlockLen {
        DivModUnique(e, enc.baseXBlockLen, 0, e);
        DivModUnique(Bits(enc.base, e), 8, r, Bits(enc.base, e) - 8 * r);
      }
    }
  }

  /** An encoded block length is one the decoder accepts. */
  lemma EncodedLengthIsValid(enc: Encoding, r: nat)
    requires Geometry(enc) && r <= enc.base256BlockLen
    ensures IsValidEncodingLength(enc, EncodedLen(enc, r))
  {
    var e := EncodedLen(enc, r);
    if r == 0 {
      EncodedLenOfBlock(enc, 0);
    } else {
      PartialBlock(enc, r);
      DivModUnique(Bits(enc.base, e), 8, r, Bits(enc.base, e) - 8 * r);
    }
  }

  /** The shift encodeBlock applies: the spare bits of the block, less than a byte. */
  lemma ExtraBitsOfBlock(enc: Encoding, r: nat)
    requires Geometry(enc) && r <= enc.base256BlockLen
    ensures var e := EncodedLen(enc, r);
      && 8 * r <= Bits(enc.base, e)
      && ExtraBits(enc, r, e) == Bits(enc.base, e) - 8 * r < 8
  {
    var e := EncodedLen(enc, r);
    var bits := Bits(enc.base, e);
    assert 8 * r <= bits < 8 * r + 8 by {
      if r == 0 {
        EncodedLenOfBlock(enc, 0);
      } else {
        PartialBlock(enc, r);
      }
    }
    ModSmall(bits - r * 8, Uint64Modulus);
  }

  /** The shifted block value fits in the block's digits: encodeBlock never runs out of room. */
  lemma BlockFits(enc: Encoding, block: seq<byte>)
    requires Geometry(enc) && |block| <= enc.base256BlockLen
    ensures var e := EncodedLen(enc, |block|);
      ShiftLeft(BigEndian(block), ExtraBits(enc, |block|, e)) < Pow(enc.base, e)
  {
    var r := |block|;
    var e := EncodedLen(enc, r);
    var v := BigEndian(block);
    var bits := Bits(enc.base, e);
    ExtraBitsOfBlock(enc, r);
    assert v < Pow(2, 8 * r) by {
      BigEndianBound(block);
      Pow256(r);
    }
    assert Pow(2, bits) <= Pow(enc.base, e) by {
      BitsBelow(enc.base, e);
    }
    ShiftFitsBelow(v, 8 * r, bits, Pow(enc.base, e));
  }

  /** EncodedLen counts whole blocks, then the encoded length of the rest. */
  lemma EncodedLenFormula(enc: Encoding, n: nat)
    requires Geometry(enc)
    ensures var l := enc.base256BlockLen;
      EncodedLen(enc, n) == Times(Blocks(n, l), enc.baseXBlockLen) + EncodedLen(enc, Rest(n, l))
  {
    var l := enc.base256BlockLen;
    DivModUnique(Rest(n, l), l, 0, Rest(n, l));
    if n == l {
      DivModUnique(l, l, 1, 0);
    }
  }

  /** One whole input block more is one whole output block more. */
  lemma EncodedLenStep(enc: Encoding, n: nat)
    requires Geometry(enc) && n >= enc.base256BlockLen
    ensures EncodedLen(enc, n) == enc.baseXBlockLen + EncodedLen(enc, n - enc.base256BlockLen)
  {
    var l := enc.base256BlockLen;
    EncodedLenFormula(enc, n);
    EncodedLenFormula(enc, n - l);
    BlockDiv(n, l);
    TimesSucc(Blocks(n - l, l), enc.baseXBlockLen);
  }

  /** DecodedLen counts whole blocks, then the decoded length of the rest. */
  lemma DecodedLenFormula(enc: Encoding, n: nat)
    requires Geometry(enc)
    ensures var xl := enc.baseXBlockLen;
      DecodedLen(enc, n) == Times(Blocks(n, xl), enc.base256BlockLen) + DecodedLen(enc, Rest(n, xl))
  {
    var xl := enc.baseXBlockLen;
    DivModUnique(Rest(n, xl), xl, 0, Rest(n, xl));
    if n == xl {
      DivModUnique(xl, xl, 1, 0);
    }
  }

  /** One whole encoded block more is one whole decoded block more. */
  lemma DecodedLenStep(enc: Encoding, n: nat)
    requires Geometry(enc) && n >= enc.baseXBlockLen
    ensures DecodedLen(enc, n) == enc.base256BlockLen + DecodedLen(enc, n - enc.baseXBlockLen)
  {
    var xl := enc.baseXBlockLen;
    DecodedLenFormula(enc, n);
    DecodedLenFormula(enc, n - xl);
    BlockDiv(n, xl);
    TimesSucc(Blocks(n - xl, xl), enc.base256BlockLen);
  }

  /** A partial block of g < baseXBlockLen digits decodes to floor(g log2 base / 8) < base256BlockLen bytes. */
  lemma DecodedLenPartial(enc: Encoding, g: nat)
    requires Geometry(enc) && g < enc.baseXBlockLen
    ensures DecodedLen(enc, g) == Bits(enc.base, g) / 8 < enc.base256BlockLen
  {
    var b, l, xl := enc.base, enc.base256BlockLen, enc.baseXBlockLen;
    DivModUnique(g, xl, 0, g);
    PowPositive(256, l);
    CeilLogBounds(b, Pow(256, l));
    PowIncreasing(b, g, xl - 1);
    PowPositive(b, g);
    Pow256(l);
    Log2FloorIsLargest(Pow(b, g), 8 * l);
  }

  /** One more character never decodes to fewer bytes. */
  lemma DecodedLenGrows(enc: Encoding, n: nat)
    requires Geometry(enc)
    ensures DecodedLen(enc, n) <= DecodedLen(enc, n + 1)
  {
    var xl, l := enc.baseXBlockLen, enc.base256BlockLen;
    var q, r := Blocks(n, xl), Rest(n, xl);
    DecodedLenFormula(enc, n);
    DecodedLenFormula(enc, n + 1);
    DecodedLenPartial(enc, r);
    NextRest(n, xl);
    if r + 1 < xl {
      DecodedLenPartial(enc, r + 1);
      assert Bits(enc.base, r) <= Bits(enc.base, r + 1) by {
        PowIncreasing(enc.base, r, r + 1);
        PowPositive(enc.base, r);
        Log2FloorMonotone(Pow(enc.base, r), Pow(enc.base, r + 1));
      }
    } else {
      TimesSucc(q, l);
      DecodedLenPartial(enc, 0);
    }
  }

  /** DecodedLen is monotone. */
  lemma {:induction false} DecodedLenMonotone(enc: Encoding, m: nat, n: nat)
    requires Geometry(enc) && m <= n
    ensures DecodedLen(enc, m) <= DecodedLen(enc, n)
    decreases n - m
  {
    if m < n {
      DecodedLenGrows(enc, m);
      DecodedLenMonotone(enc, m + 1, n);
    }
  }

  /**
   * The decoder's length check accepts a digit count of at most one block
   * exactly when some number of bytes encodes to it: a count one digit
   * longer than needed is refused.
   */
  lemma ValidLengthIsEncodedLength(enc: Encoding, n: nat)
    requires Geometry(enc) && n <= enc.baseXBlockLen
    ensures IsValidEncodingLength(enc, n) <==>
              exists r :: 0 <= r <= enc.base256BlockLen && EncodedLen(enc, r) == n
  {
    var b, l, xl := enc.base, enc.base256BlockLen, enc.baseXBlockLen;
    if exists r :: 0 <= r <= l && EncodedLen(enc, r) == n {
      var r :| 0 <= r <= l && EncodedLen(enc, r) == n;
      EncodedLengthIsValid(enc, r);
    }
    if IsValidEncodingLength(enc, n) {
      if n == xl {
        assert EncodedLen(enc, l) == n;
      } else {
        var r := Bits(b, n) / 8;
        DecodedLenPartial(enc, n);
        DivModUnique(n, xl, 0, n);
        MinimalLength(enc, n, r);
        assert EncodedLen(enc, r) == n;
      }
    }
  }

  /** A valid partial count n is the encoded length of its whole bytes. */
  lemma MinimalLength(enc: Encoding, n: nat, r: nat)
    requires Geometry(enc) && n < enc.baseXBlockLen && IsValidEncodingLength(enc, n)
    requires r == Bits(enc.base, n) / 8 && r < enc.base256BlockLen
    ensures EncodedLen(enc, r) == n
  {
    var b := enc.base;
    EncodedLenOfBlock(enc, r);
    PowPositive(256, r);
    PowPositive(b, n);
    Pow256(r);
    PowIncreasing(2, 8 * r, Bits(b, n));
    BitsBelow(b, n);
    CeilLogIsLeast(b, Pow(256, r), n);
    if n >= 1 {
      PowPositive(b, n - 1);
      Log2FloorBounds(Pow(b, n - 1));
      PowIncreasing(b, n - 1, n);
      Log2FloorMonotone(Pow(b, n - 1), Pow(b, n));
      PowIncreasing(2, Bits(b, n - 1) + 1, 8 * r);
      CeilLogIsLeast(b, Pow(256, r), n - 1);
    }
  }
}
