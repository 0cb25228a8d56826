/**
 * Decoding what Encode writes gives back the input, block by block, for an
 * encoding whose alphabet has no repeated byte: the decode table maps every
 * alphabet byte back to its index, each encoded block scans to exactly its
 * digits, has a digit count IsValidEncodingLength accepts, and its value
 * shifted back right is the block, padded to its original length.
 */
module BaseXRoundTrip {
  import opened Wrappers
  import opened BaseXMath
  import opened BaseX
  import opened BaseXLengths
  import opened BaseXCodec

  /** No byte occurs twice in the alphabet. */
  predicate Distinct(alphabet: seq<byte>) {
    forall i, j :: 0 <= i < j < |alphabet| ==> alphabet[i] != alphabet[j]
  }

  /**
   * The decode table, of 256 entries, maps every byte of an alphabet of at
   * most 254 bytes back to its index.
   */
  predicate DecodesAlphabet(enc: Encoding) {
    && |enc.decodeMap| == 256 && enc.base == |enc.encode| <= 254
    && forall d :: 0 <= d < enc.base ==> enc.decodeMap[enc.encode[d] as int] as nat == d
  }

  /**
   * The decode table of a distinct alphabet maps each alphabet byte to its
   * index, whatever the skip set holds.
   */
  lemma DistinctDecodes(enc: Encoding)
    requires Valid(enc) && Distinct(enc.encode)
    ensures DecodesAlphabet(enc)
  {
    forall d | 0 <= d < enc.base
      ensures enc.decodeMap[enc.encode[d] as int] as nat == d
    {
      var c := enc.encode[d];
      assert LastIndex(enc.encode, c) == Some(d) by {
        assert c in enc.encode;
      }
      assert enc.decodeMap[c as int] == TableEntry(enc.encode, enc.skipBytes, c);
    }
  }

  /**
   * Scanning the spelling of digits ds, with acc already read, reads
   * exactly ds and stops right after them, provided the scan's stop rule
   * stops there: the count reaches baseXBlockLen or the input ends.
   */
  lemma {:induction false} ScanSpelled(enc: Encoding, t: seq<byte>, pos: nat, acc: seq<nat>, ds: seq<nat>)
    requires DecodesAlphabet(enc) && AllBelow(ds, enc.base)
    requires pos + |ds| <= |t| && t[pos..pos + |ds|] == Spell(enc.encode, ds)
    requires |acc| < enc.baseXBlockLen && |acc| + |ds| <= enc.baseXBlockLen
    requires |acc| + |ds| == enc.baseXBlockLen || pos + |ds| == |t|
    ensures ScanBlock(enc, t, pos, acc) == Ok(Scan(acc + ds, pos + |ds|))
    decreases |ds|
  {
    if ds == [] {
      assert acc + ds == acc;
    } else {
      SpellTail(enc.encode, t, pos, ds);
      ScanAlphabetByte(enc, t, pos, acc, ds[0]);
      if |acc| + 1 == enc.baseXBlockLen {
        assert ds == [ds[0]];
      } else {
        ScanSpelled(enc, t, pos + 1, acc + [ds[0]], ds[1..]);
        assert acc + [ds[0]] + ds[1..] == acc + ds;
      }
    }
  }

  /** A spelling in the text starts with its first digit's byte, followed by the spelling of the rest. */
  lemma SpellTail(alphabet: seq<byte>, t: seq<byte>, pos: nat, ds: seq<nat>)
    requires AllBelow(ds, |alphabet|) && |ds| >= 1
    requires pos + |ds| <= |t| && t[pos..pos + |ds|] == Spell(alphabet, ds)
    ensures t[pos] == alphabet[ds[0]] && AllBelow(ds[1..], |alphabet|)
    ensures t[pos + 1..pos + |ds|] == Spell(alphabet, ds[1..])
  {
    assert t[pos] == t[pos..pos + |ds|][0];
    forall i | 0 <= i < |ds| - 1
      ensures t[pos + 1..pos + |ds|][i] == Spell(alphabet, ds[1..])[i]
    {
      assert t[pos + 1..pos + |ds|][i] == t[pos..pos + |ds|][i + 1];
    }
  }

  /**
   * One step of the scan on an alphabet byte: its index is read as the next
   * digit, and the scan stops after it when that makes baseXBlockLen digits.
   */
  lemma ScanAlphabetByte(enc: Encoding, t: seq<byte>, pos: nat, acc: seq<nat>, d: nat)
    requires DecodesAlphabet(enc) && d < enc.base
    requires pos < |t| && t[pos] == enc.encode[d] && |acc| < enc.baseXBlockLen
    ensures |acc| + 1 == enc.baseXBlockLen ==> ScanBlock(enc, t, pos, acc) == Ok(Scan(acc + [d], pos + 1))
    ensures |acc| + 1 < enc.baseXBlockLen ==> ScanBlock(enc, t, pos, acc) == ScanBlock(enc, t, pos + 1, acc + [d])
  {
  }

  /** A byte string is its minimal big-endian bytes padded back to its length. */
  lemma PaddedMinimal(s: seq<byte>)
    ensures PadTo(MinimalBytes(BigEndian(s)), |s|) == s
  {
    var v := BigEndian(s);
    var raw := MinimalBytes(v);
    BigEndianBound(s);
    ByteLenAtMost(v, |s|);
    MinimalBytesValue(v);
    BigEndianZeros(|s| - |raw|, raw);
    BigEndianInjective(PadTo(raw, |s|), s);
  }

  /** The digits encodeBlock spells for a block. */
  function EncodedDigits(enc: Encoding, block: seq<byte>): (ds: seq<nat>)
    requires Geometry(enc)
    ensures |ds| == EncodedLen(enc, |block|) && AllBelow(ds, enc.base)
    ensures EncodeBlockSpec(enc, block) == Spell(enc.encode, ds)
  {
    var e := EncodedLen(enc, |block|);
    ToDigits(ShiftLeft(BigEndian(block), ExtraBits(enc, |block|, e)), enc.base, e)
  }

  /**
   * The digits encodeBlock spells for a block decode, by decodeBlock's
   * arithmetic, to the block itself: the digit count maps back to the block
   * length, and the right shift undoes the left shift.
   */
  lemma BlockBytesOfEncoded(enc: Encoding, block: seq<byte>)
    requires Geometry(enc) && |block| <= enc.base256BlockLen
    ensures BlockBytes(enc, EncodedDigits(enc, block)) == block
  {
    var e := EncodedLen(enc, |block|);
    var x := ExtraBits(enc, |block|, e);
    var num := ShiftLeft(BigEndian(block), x);
    BlockFits(enc, block);
    ToDigitsValue(num, enc.base, e);
    DecodedLenOfEncoded(enc, |block|);
    ShiftRightOfLeft(BigEndian(block), x);
    PaddedMinimal(block);
  }

  /**
   * The scan of an encoded block reads exactly its digits, when a partial
   * block is the last thing in the text.
   */
  lemma ScanEncodedBlock(enc: Encoding, t: seq<byte>, q: nat, block: seq<byte>)
    requires Geometry(enc) && DecodesAlphabet(enc) && 1 <= |block| <= enc.base256BlockLen
    requires q + |EncodeBlockSpec(enc, block)| <= |t| && t[q..q + |EncodeBlockSpec(enc, block)|] == EncodeBlockSpec(enc, block)
    requires |block| < enc.base256BlockLen ==> q + |EncodeBlockSpec(enc, block)| == |t|
    ensures ScanBlock(enc, t, q, []) == Ok(Scan(EncodedDigits(enc, block), q + |EncodedDigits(enc, block)|))
  {
    var ds := EncodedDigits(enc, block);
    BlockAdvance(enc, |block|);
    ScanSpelled(enc, t, q, [], ds);
    assert [] + ds == ds;
  }

  /** decodeBlock on a scan that reads a valid count of digits. */
  lemma DecodeOfScan(enc: Encoding, t: seq<byte>, q: nat, ds: seq<nat>, block: seq<byte>)
    requires Geometry(enc) && q <= |t|
    requires ScanBlock(enc, t, q, []) == Ok(Scan(ds, q + |ds|)) && IsValidEncodingLength(enc, |ds|)
    requires BlockBytes(enc, ds) == block
    ensures DecodeBlockSpec(enc, t, q) == Ok((block, |ds|))
  {
  }

  /**
   * decodeBlock on an encoded block: when the text at q holds the block's
   * encoding, and a partial block is the last thing in the text, the block
   * decodes to the original bytes and consumes exactly the encoding.
   */
  lemma DecodeEncodedBlock(enc: Encoding, t: seq<byte>, q: nat, block: seq<byte>)
    requires Geometry(enc) && DecodesAlphabet(enc) && 1 <= |block| <= enc.base256BlockLen
    requires q + |EncodeBlockSpec(enc, block)| <= |t| && t[q..q + |EncodeBlockSpec(enc, block)|] == EncodeBlockSpec(enc, block)
    requires |block| < enc.base256BlockLen ==> q + |EncodeBlockSpec(enc, block)| == |t|
    ensures DecodeBlockSpec(enc, t, q) == Ok((block, |EncodeBlockSpec(enc, block)|))
  {
    assert ScanBlock(enc, t, q, []) == Ok(Scan(EncodedDigits(enc, block), q + |EncodedDigits(enc, block)|)) by {
      ScanEncodedBlock(enc, t, q, block);
    }
    assert IsValidEncodingLength(enc, |EncodedDigits(enc, block)|) by {
      EncodedLengthIsValid(enc, |block|);
    }
    assert BlockBytes(enc, EncodedDigits(enc, block)) == block by {
      BlockBytesOfEncoded(enc, block);
    }
    DecodeOfScan(enc, t, q, EncodedDigits(enc, block), block);
  }

  /**
   * Decoding from q, where the text from q on is Encode's output for src
   * from sp on, gives src[sp..] and no error.
   */
  lemma {:induction false} RoundTripFrom(enc: Encoding, src: seq<byte>, sp: nat, t: seq<byte>, q: nat)
    requires Geometry(enc) && DecodesAlphabet(enc) && sp <= |src| && q <= |t|
    requires t[q..] == EncodeFrom(enc, src, sp)
    ensures DecodeFrom(enc, t, q) == (src[sp..], None)
    decreases |src| - sp, 1
  {
    if sp == |src| {
      assert EncodeFrom(enc, src, sp) == [];
      assert q == |t|;
      assert src[sp..] == [];
    } else {
      RoundTripStep(enc, src, sp, t, q);
    }
  }

  /** The inductive step of RoundTripFrom: the first block, then the rest. */
  lemma {:induction false} RoundTripStep(enc: Encoding, src: seq<byte>, sp: nat, t: seq<byte>, q: nat)
    requires Geometry(enc) && DecodesAlphabet(enc) && sp < |src| && q <= |t|
    requires t[q..] == EncodeFrom(enc, src, sp)
    ensures DecodeFrom(enc, t, q) == (src[sp..], None)
    decreases |src| - sp, 0
  {
    var sLim := if sp + enc.base256BlockLen > |src| then |src| else sp + enc.base256BlockLen;
    var n := FirstBlockDecodes(enc, src, sp, sLim, t, q);
    RoundTripFrom(enc, src, sLim, t, q + n);
    DecodeOk(enc, t, q, src[sp..sLim], n);
    SplitAt(src, sp, sLim - sp);
  }

  /**
   * The first block of Encode's output from sp decodes to the first
   * base256BlockLen input bytes (or all that are left), consuming n bytes of
   * text, and the rest of the text is Encode's output for the rest.
   */
  lemma FirstBlockDecodes(enc: Encoding, src: seq<byte>, sp: nat, sLim: nat, t: seq<byte>, q: nat) returns (n: nat)
    requires Geometry(enc) && DecodesAlphabet(enc) && sp < |src| && q <= |t|
    requires sLim == if sp + enc.base256BlockLen > |src| then |src| else sp + enc.base256BlockLen
    requires t[q..] == EncodeFrom(enc, src, sp)
    ensures q < q + n <= |t|
    ensures DecodeBlockSpec(enc, t, q) == Ok((src[sp..sLim], n))
    ensures t[q + n..] == EncodeFrom(enc, src, sLim)
  {
    EncodeStep(enc, src, sp, sLim);
    n := |EncodeBlockSpec(enc, src[sp..sLim])|;
    SplitAt(t, q, n);
    Halves(EncodeBlockSpec(enc, src[sp..sLim]), EncodeFrom(enc, src, sLim));
    if sLim < |src| {
      assert sLim - sp == enc.base256BlockLen;
    } else {
      assert EncodeFrom(enc, src, sLim) == [];
    }
    DecodeEncodedBlock(enc, t, q, src[sp..sLim]);
  }

  /** The text from q on, cut n bytes further on. */
  lemma SplitAt<T>(t: seq<T>, q: nat, n: nat)
    requires q + n <= |t|
    ensures t[q..q + n] == t[q..][..n] && t[q + n..] == t[q..][n..]
    ensures t[q..q + n] + t[q + n..] == t[q..]
  {
  }

  /** The two halves of a concatenation. */
  lemma Halves<T>(a: seq<T>, b: seq<T>)
    ensures (a + b)[..|a|] == a && (a + b)[|a|..] == b
  {
  }

  /** decode from q when the block at q decodes to out, consuming n bytes. */
  lemma DecodeOk(enc: Encoding, t: seq<byte>, q: nat, out: seq<byte>, n: nat)
    requires Geometry(enc) && q < |t| && q + n <= |t|
    requires DecodeBlockSpec(enc, t, q) == Ok((out, n))
    ensures DecodeFrom(enc, t, q) == (out + DecodeFrom(enc, t, q + n).0, DecodeFrom(enc, t, q + n).1)
  {
  }

  /** decode(Encode(src)) == src, with no error, for every input. */
  lemma RoundTrip(enc: Encoding, src: seq<byte>)
    requires Valid(enc) && Distinct(enc.encode)
    ensures DecodeFrom(enc, EncodeFrom(enc, src, 0), 0) == (src, None)
  {
    var t := EncodeFrom(enc, src, 0);
    DistinctDecodes(enc);
    assert t[0..] == t;
    RoundTripFrom(enc, src, 0, t, 0);
  }
}
