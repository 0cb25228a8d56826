/**
 * The buffer-level codec of go/encoding/basex/encoding.go: encodeBlock and
 * Encode write into a destination array, decodeBlock and Decode read the
 * input block by block and write the decoded bytes. Each method is proved
 * to write exactly what the specification functions of module BaseX say.
 */
module BaseXCodec {
  import opened Wrappers
  import opened BaseXMath
  import opened BaseX
  import opened BaseXLengths

  /**
   * encodeBlock: the block's big-endian value, shifted left by extraBits,
   * written as EncodedLen(|src|) characters at dst[dp..]. Nothing else
   * changes.
   */
  method EncodeBlock(enc: Encoding, dst: array<byte>, dp: nat, src: seq<byte>)
    requires Valid(enc) && |src| <= enc.base256BlockLen
    requires dp + EncodedLen(enc, |src|) <= dst.Length
    modifies dst
    ensures dst[..] == old(dst[..dp]) + EncodeBlockSpec(enc, src) + old(dst[dp + EncodedLen(enc, |src|)..])
  {
    var encodedLen := EncodedLen(enc, |src|);
    var num := ShiftLeft(BigEndian(src), ExtraBits(enc, |src|, encodedLen));
    BlockFits(enc, src);
    WriteDigits(enc.encode, dst, dp, num, encodedLen);
  }

  /**
   * The two loops of encodeBlock: the digits of num, least significant
   * first, from position k - 1 down, by repeated division by the base; then
   * the zero digit in every position left. Nothing else changes.
   */
  method WriteDigits(alphabet: seq<byte>, dst: array<byte>, dp: nat, num: nat, k: nat)
    requires 2 <= |alphabet| && num < Pow(|alphabet|, k) && dp + k <= dst.Length
    modifies dst
    ensures dst[..] == old(dst[..dp]) + Spell(alphabet, ToDigits(num, |alphabet|, k)) + old(dst[dp + k..])
  {
    var b := |alphabet|;
    ghost var digits := ToDigits(num, b, k);
    ShiftedBelow(num, b, k, k);
    var n := num;
    var p: int := k - 1;
    while n != 0
      invariant -1 <= p < k
      invariant n == Shifted(num, b, k - 1 - p)
      invariant forall j :: p < j < k ==> dst[dp + j] == alphabet[digits[j]]
      invariant forall i :: 0 <= i < dst.Length && !(dp <= i < dp + k) ==> dst[i] == old(dst[i])
      decreases p + 1
    {
      ShiftedStep(num, b, k - 1 - p);
      DigitAt(num, b, k, p);
      var rem := n % b;
      n := n / b;
      dst[dp + p] := alphabet[rem];
      p := p - 1;
    }

    while p >= 0
      invariant -1 <= p < k
      invariant Shifted(num, b, k - 1 - p) == 0
      invariant forall j :: p < j < k ==> dst[dp + j] == alphabet[digits[j]]
      invariant forall i :: 0 <= i < dst.Length && !(dp <= i < dp + k) ==> dst[i] == old(dst[i])
    {
      ShiftedStep(num, b, k - 1 - p);
      DigitAt(num, b, k, p);
      dst[dp + p] := alphabet[0];
      p := p - 1;
    }
    assert dst[..] == old(dst[..dp]) + Spell(alphabet, digits) + old(dst[dp + k..]);
  }

  /**
   * Encode: block after block, base256BlockLen input bytes to
   * baseXBlockLen characters, the last block possibly shorter. The first
   * EncodedLen(|src|) bytes of dst become the encoding; the rest is left
   * alone.
   */
  method Encode(enc: Encoding, dst: array<byte>, src: seq<byte>)
    requires Valid(enc) && EncodedLen(enc, |src|) <= dst.Length
    modifies dst
    ensures dst[..EncodedLen(enc, |src|)] == EncodeFrom(enc, src, 0)
    ensures dst[EncodedLen(enc, |src|)..] == old(dst[EncodedLen(enc, |src|)..])
  {
    var total := EncodedLen(enc, |src|);
    var sp: nat, dp: nat := 0, 0;
    ghost var done: nat := 0;
    while sp < |src|
      invariant sp <= |src|
      invariant done + EncodedLen(enc, |src| - sp) == total
      invariant sp < |src| ==> dp == done
      invariant dst[..done] + EncodeFrom(enc, src, sp) == EncodeFrom(enc, src, 0)
      invariant dst[total..] == old(dst[total..])
      decreases |src| - sp
    {
      ghost var before := dst[..];
      var sLim, dLim := EncodeIteration(enc, dst, src, sp, dp);
      BlockWritten(before, dst[..], done, EncodeBlockSpec(enc, src[sp..sLim]), EncodeFrom(enc, src, sLim),
                   EncodeFrom(enc, src, 0), total);
      done := done + |EncodeBlockSpec(enc, src[sp..sLim])|;
      sp, dp := sLim, dLim;
    }
  }

  /**
   * One iteration of Encode's loop: the input block ends base256BlockLen
   * bytes on or at the end of the input, the output block baseXBlockLen
   * bytes on or at the end of dst, and encodeBlock writes the block's
   * encoding at dp, which is what EncodeFrom puts first. A block that does
   * not reach the end of the input is a full one.
   */
  method EncodeIteration(enc: Encoding, dst: array<byte>, src: seq<byte>, sp: nat, dp: nat) returns (sLim: nat, dLim: nat)
    requires Valid(enc) && sp < |src| && dp + EncodedLen(enc, |src| - sp) <= dst.Length
    modifies dst
    ensures sLim == if sp + enc.base256BlockLen > |src| then |src| else sp + enc.base256BlockLen
    ensures dLim == if dp + enc.baseXBlockLen > dst.Length then dst.Length else dp + enc.baseXBlockLen
    ensures EncodeFrom(enc, src, sp) == EncodeBlockSpec(enc, src[sp..sLim]) + EncodeFrom(enc, src, sLim)
    ensures |EncodeBlockSpec(enc, src[sp..sLim])| + EncodedLen(enc, |src| - sLim) == EncodedLen(enc, |src| - sp)
    ensures dst[..] == old(dst[..dp]) + EncodeBlockSpec(enc, src[sp..sLim]) + old(dst[dp + |EncodeBlockSpec(enc, src[sp..sLim])|..])
    ensures sLim < |src| ==> dLim == dp + |EncodeBlockSpec(enc, src[sp..sLim])|
  {
    sLim := sp + enc.base256BlockLen;
    dLim := dp + enc.baseXBlockLen;
    if sLim > |src| {
      sLim := |src|;
    }
    if dLim > dst.Length {
      dLim := dst.Length;
    }
    EncodeStep(enc, src, sp, sLim);
    EncodeBlock(enc, dst, dp, src[sp..sLim]);
  }

  /**
   * One step of Encode at sp: the block src[sp..sLim] takes
   * min(|src| - sp, base256BlockLen) bytes, its encoding fits in a full
   * block and is what EncodeFrom puts first, and the lengths add up.
   */
  lemma EncodeStep(enc: Encoding, src: seq<byte>, sp: nat, sLim: nat)
    requires Geometry(enc) && sp < |src|
    requires sLim == if sp + enc.base256BlockLen > |src| then |src| else sp + enc.base256BlockLen
    ensures EncodedLen(enc, sLim - sp) + EncodedLen(enc, |src| - sLim) == EncodedLen(enc, |src| - sp)
    ensures EncodedLen(enc, sLim - sp) <= enc.baseXBlockLen
    ensures EncodeFrom(enc, src, sp) == EncodeBlockSpec(enc, src[sp..sLim]) + EncodeFrom(enc, src, sLim)
  {
    BlockAdvance(enc, |src| - sp);
  }

  /**
   * The block lengths of Encode on the n input bytes left: the block takes
   * min(n, base256BlockLen) of them and writes their encoded length, which
   * never exceeds a full block; the rest encodes to what remains.
   */
  lemma BlockAdvance(enc: Encoding, n: nat)
    requires Geometry(enc) && n >= 1
    ensures var r := if n < enc.base256BlockLen then n else enc.base256BlockLen;
      && EncodedLen(enc, r) + EncodedLen(enc, n - r) == EncodedLen(enc, n)
      && EncodedLen(enc, r) <= enc.baseXBlockLen
  {
    if n < enc.base256BlockLen {
      PartialBlock(enc, n);
      EncodedLenOfBlock(enc, 0);
    } else {
      EncodedLenStep(enc, n);
    }
  }

  /** The output of Encode, one block at a time, is EncodedLen(|src| - sp) long. */
  lemma {:induction false} EncodeFromLength(enc: Encoding, src: seq<byte>, sp: nat)
    requires Geometry(enc) && sp <= |src|
    ensures |EncodeFrom(enc, src, sp)| == EncodedLen(enc, |src| - sp)
    decreases |src| - sp
  {
    if sp == |src| {
      EncodedLenOfBlock(enc, 0);
    } else {
      var sLim := if sp + enc.base256BlockLen > |src| then |src| else sp + enc.base256BlockLen;
      EncodeFromLength(enc, src, sLim);
      BlockAdvance(enc, |src| - sp);
    }
  }

  /**
   * decodeBlock on the input from sp on: reads characters until
   * baseXBlockLen digits are read or the input ends, skipping skip bytes;
   * an invalid byte is a CorruptInputError at its absolute position and a
   * digit count no encoding produces is ErrInvalidEncodingLength (nothing
   * written, nothing consumed). Otherwise the block's bytes are written at
   * dst[dp..] and di, si are the bytes written and consumed.
   */
  method DecodeBlock(enc: Encoding, dst: array<byte>, dp: nat, src: seq<byte>, sp: nat)
      returns (di: nat, si: nat, err: Option<DecodeError>)
    requires Valid(enc) && sp <= |src|
    requires DecodeBlockSpec(enc, src, sp).Ok? ==> dp + |DecodeBlockSpec(enc, src, sp).value.0| <= dst.Length
    modifies dst
    ensures err.Some? <==> DecodeBlockSpec(enc, src, sp).Err?
    ensures err.Some? ==>
              && err.value == DecodeBlockSpec(enc, src, sp).error && di == 0 && si == 0
              && dst[..] == old(dst[..])
    ensures err.None? ==>
              && di == |DecodeBlockSpec(enc, src, sp).value.0| && si == DecodeBlockSpec(enc, src, sp).value.1
              && dst[..] == old(dst[..dp]) + DecodeBlockSpec(enc, src, sp).value.0 + old(dst[dp + di..])
  {
    var res, numGoodChars, scanned, scanErr := ScanDigits(enc, src, sp);
    if scanErr.Some? {
      return 0, 0, scanErr;
    }
    if !IsValidEncodingLength(enc, numGoodChars) {
      return 0, 0, Some(ErrInvalidEncodingLength);
    }

    var paddedLen := DecodedLen(enc, numGoodChars);
    res := ShiftRight(res, ExtraBits(enc, paddedLen, numGoodChars));
    var raw := MinimalBytes(res);
    assert BlockBytes(enc, ScanBlock(enc, src, sp, []).value.digits) == PadTo(raw, paddedLen);
    CopyPadded(dst, dp, raw, paddedLen);
    return paddedLen, scanned, None;
  }

  /**
   * The reading loop of decodeBlock: one byte at a time from sp, an invalid
   * byte stops with a CorruptInputError at its absolute position, a skip
   * byte is passed over, and every other byte adds its digit to res, until
   * baseXBlockLen digits are read or the input ends. On success res is the
   * value of the digits ScanBlock reads, numGoodChars their number and si
   * the bytes consumed.
   */
  method ScanDigits(enc: Encoding, src: seq<byte>, sp: nat) returns (res: nat, numGoodChars: nat, si: nat, err: Option<DecodeError>)
    requires Valid(enc) && sp <= |src|
    ensures err.Some? <==> ScanBlock(enc, src, sp, []).Err?
    ensures err.Some? ==> err.value == ScanBlock(enc, src, sp, []).error
    ensures err.None? ==>
              && numGoodChars == |ScanBlock(enc, src, sp, []).value.digits|
              && res == DigitsValue(ScanBlock(enc, src, sp, []).value.digits, enc.base)
              && si == ScanBlock(enc, src, sp, []).value.end - sp
  {
    si := 0;
    numGoodChars := 0;
    res := 0;
    ghost var digits: seq<nat> := [];
    var i := sp;
    while i < |src|
      invariant sp <= i <= |src| && si == i - sp
      invariant numGoodChars == |digits| < enc.baseXBlockLen
      invariant res == DigitsValue(digits, enc.base)
      invariant ScanBlock(enc, src, sp, []) == ScanBlock(enc, src, i, digits)
      decreases |src| - i
    {
      var v := enc.decodeMap[src[i] as int];
      si := si + 1;
      if v == InvalidByte {
        return 0, 0, 0, Some(CorruptInputError(i));
      }
      if v == SkipByte {
        i := i + 1;
        continue;
      }
      numGoodChars := numGoodChars + 1;
      DigitsValueSnoc(digits, v as nat, enc.base);
      res := res * enc.base + v as nat;
      digits := digits + [v as nat];
      i := i + 1;
      if numGoodChars == enc.baseXBlockLen {
        assert ScanBlock(enc, src, sp, []) == Ok(Scan(digits, i));
        break;
      }
    }
    assert ScanBlock(enc, src, sp, []) == Ok(Scan(digits, i));
    return res, numGoodChars, si, None;
  }

  /**
   * The two copies that end decodeBlock: zeros in front of raw when it is
   * shorter than paddedLen, then raw, at most up to paddedLen.
   */
  method CopyPadded(dst: array<byte>, dp: nat, raw: seq<byte>, paddedLen: nat)
    requires dp + paddedLen <= dst.Length
    modifies dst
    ensures dst[..] == old(dst[..dp]) + PadTo(raw, paddedLen) + old(dst[dp + paddedLen..])
  {
    var p := 0;
    if |raw| < paddedLen {
      p := paddedLen - |raw|;
      forall k | 0 <= k < p {
        dst[dp + k] := 0;
      }
    }
    var count := if paddedLen - p < |raw| then paddedLen - p else |raw|;
    forall k | 0 <= k < count {
      dst[dp + p + k] := raw[k];
    }
    assert dst[..] == old(dst[..dp]) + PadTo(raw, paddedLen) + old(dst[dp + paddedLen..]);
  }

  /**
   * Decode: decodeBlock after decodeBlock until the input is used up. On
   * success n is the number of bytes written; on the first error n is 0,
   * the error is returned, and the blocks decoded before it stay written.
   * The bytes written are exactly DecodeFrom's.
   */
  method Decode(enc: Encoding, dst: array<byte>, src: seq<byte>) returns (n: nat, err: Option<DecodeError>)
    requires Valid(enc) && |DecodeFrom(enc, src, 0).0| <= dst.Length
    modifies dst
    ensures err == DecodeFrom(enc, src, 0).1
    ensures n == if err.None? then |DecodeFrom(enc, src, 0).0| else 0
    ensures dst[..|DecodeFrom(enc, src, 0).0|] == DecodeFrom(enc, src, 0).0
    ensures dst[|DecodeFrom(enc, src, 0).0|..] == old(dst[|DecodeFrom(enc, src, 0).0|..])
  {
    ghost var total := DecodeFrom(enc, src, 0);
    var dp: nat, sp: nat := 0, 0;
    while sp < |src|
      invariant sp <= |src|
      invariant dp + |DecodeFrom(enc, src, sp).0| == |total.0|
      invariant dst[..dp] + DecodeFrom(enc, src, sp).0 == total.0 && DecodeFrom(enc, src, sp).1 == total.1
      invariant dst[|total.0|..] == old(dst[|total.0|..])
      decreases |src| - sp
    {
      DecodeStep(enc, src, sp);
      ghost var before := dst[..];
      var di, si, e := DecodeBlock(enc, dst, dp, src, sp);
      if e.Some? {
        return 0, e;
      }
      BlockWritten(before, dst[..], dp, DecodeBlockSpec(enc, src, sp).value.0,
                   DecodeFrom(enc, src, sp + DecodeBlockSpec(enc, src, sp).value.1).0, total.0, |total.0|);
      sp, dp := sp + si, dp + di;
    }
    return dp, None;
  }

  /**
   * One step of Decode at sp: an error from decodeBlock is where the output
   * stops and the error decode reports; a block decoded is what the output
   * holds first, and the output from after it is the rest.
   */
  lemma DecodeStep(enc: Encoding, src: seq<byte>, sp: nat)
    requires Geometry(enc) && sp < |src|
    ensures DecodeBlockSpec(enc, src, sp).Err? ==>
              DecodeFrom(enc, src, sp) == ([], Some(DecodeBlockSpec(enc, src, sp).error))
    ensures DecodeBlockSpec(enc, src, sp).Ok? ==>
              && DecodeFrom(enc, src, sp).0 == DecodeBlockSpec(enc, src, sp).value.0
                   + DecodeFrom(enc, src, sp + DecodeBlockSpec(enc, src, sp).value.1).0
              && DecodeFrom(enc, src, sp).1 == DecodeFrom(enc, src, sp + DecodeBlockSpec(enc, src, sp).value.1).1
  {
  }

  /**
   * Decode never writes more than DecodedLen(|src|) bytes: a destination of
   * that size, as its documentation asks for, is always large enough.
   */
  lemma {:induction false} DecodeFromLength(enc: Encoding, src: seq<byte>, sp: nat)
    requires Geometry(enc) && sp <= |src|
    ensures |DecodeFrom(enc, src, sp).0| <= DecodedLen(enc, |src| - sp)
    decreases |src| - sp
  {
    if sp < |src| && DecodeBlockSpec(enc, src, sp).Ok? {
      assert DecodeFrom(enc, src, sp).0 ==
        DecodeBlockSpec(enc, src, sp).value.0 + DecodeFrom(enc, src, sp + DecodeBlockSpec(enc, src, sp).value.1).0;
      DecodeFromLength(enc, src, sp + DecodeBlockSpec(enc, src, sp).value.1);
      BlockLength(enc, src, sp);
      ConcatBound(DecodeFrom(enc, src, sp).0, DecodeBlockSpec(enc, src, sp).value.0,
                  DecodeFrom(enc, src, sp + DecodeBlockSpec(enc, src, sp).value.1).0,
                  DecodedLen(enc, |src| - (sp + DecodeBlockSpec(enc, src, sp).value.1)), DecodedLen(enc, |src| - sp));
    }
  }

  /**
   * One decoded block and what the rest may still decode to fit in what
   * the whole input may decode to: a full block consumes at least
   * baseXBlockLen bytes for its base256BlockLen, a shorter one ends the input.
   */
  lemma BlockLength(enc: Encoding, src: seq<byte>, sp: nat)
    requires Geometry(enc) && sp < |src| && DecodeBlockSpec(enc, src, sp).Ok?
    ensures |DecodeBlockSpec(enc, src, sp).value.0| + DecodedLen(enc, |src| - (sp + DecodeBlockSpec(enc, src, sp).value.1))
              <= DecodedLen(enc, |src| - sp)
  {
    var scan := ScanBlock(enc, src, sp, []).value;
    var g := |scan.digits|;
    var n := |src| - sp;
    var si := scan.end - sp;
    if g == enc.baseXBlockLen {
      DecodedLenMonotone(enc, n - si, n - g);
      DecodedLenStep(enc, n);
    } else {
      DecodedLenMonotone(enc, g, n);
      assert n - si == 0;
      assert DecodedLen(enc, 0) == 0 by {
        DecodedLenPartial(enc, 0);
      }
    }
  }

  /** Bounding a concatenation by bounds on its parts. */
  lemma ConcatBound(whole: seq<byte>, front: seq<byte>, back: seq<byte>, a: nat, c: nat)
    requires whole == front + back && |back| <= a && |front| + a <= c
    ensures |whole| <= c
  {
  }

  /**
   * After one block of Encode: the destination holds the old prefix, the
   * block and the old suffix; when the output from the block on is the
   * block then `rest`, the written prefix grows by the block and the bytes
   * past `total` are as before.
   */
  lemma BlockWritten(before: seq<byte>, now: seq<byte>, done: nat, block: seq<byte>, rest: seq<byte>,
                     whole: seq<byte>, total: nat)
    requires done + |block| <= total <= |before|
    requires now == before[..done] + block + before[done + |block|..]
    requires before[..done] + (block + rest) == whole
    ensures now[..done + |block|] + rest == whole
    ensures now[total..] == before[total..]
  {
    Spliced(now, before, done, block, total);
    Regroup(before[..done], block, rest, whole);
  }

  /**
   * A sequence with x spliced in at start: its prefix up to the end of x is
   * the old prefix then x, and what lies past `keep` is as before.
   */
  lemma Spliced(now: seq<byte>, before: seq<byte>, start: nat, x: seq<byte>, keep: nat)
    requires start + |x| <= keep <= |before|
    requires now == before[..start] + x + before[start + |x|..]
    ensures now[..start + |x|] == before[..start] + x
    ensures now[keep..] == before[keep..]
  {
  }

  /** Moving a block from the front of the rest to the end of the prefix. */
  lemma Regroup(prefix: seq<byte>, block: seq<byte>, rest: seq<byte>, whole: seq<byte>)
    requires prefix + (block + rest) == whole
    ensures (prefix + block) + rest == whole
  {
    assert (prefix + block) + rest == prefix + (block + rest);
  }
}
