/**
 * The radix-X block codec of go/encoding/basex/encoding.go: an encoding is
 * an alphabet of `base` bytes, a decode table over all 256 byte values and
 * the block geometry (base256BlockLen input bytes become baseXBlockLen
 * characters). The lengths the source computes with floating-point
 * logarithms are given here by their exact values.
 */
module BaseX {
  import opened Wrappers
  import opened BaseXMath

  /** decodeMap entry of a byte to be skipped while decoding. */
  const SkipByte: byte := 0xFF
  /** decodeMap entry of a byte that may not appear in an encoding. */
  const InvalidByte: byte := 0xFE
  /** uint(x) of a Go int: two's complement, modulo 2^64. */
  const Uint64Modulus: int := 0x1_0000_0000_0000_0000

  /**
   * An Encoding as NewEncoding builds it. logOfBase and baseBig are derived
   * from `base` and are not stored.
   */
  datatype Encoding = Encoding(
    encode: seq<byte>,
    decodeMap: seq<byte>,
    base256BlockLen: nat,
    baseXBlockLen: nat,
    base: nat,
    maxEncodedBitsPerBlock: nat,
    skipBytes: seq<char>)

  /** The errors of decoding. */
  datatype DecodeError =
    | CorruptInputError(offset: nat)   // the absolute index of the offending byte
    | ErrInvalidEncodingLength

  /** The skip string as Go ranges over it: code points, each indexing a 256-entry table. */
  predicate SkipCodePoints(skipBytes: seq<char>) {
    forall i :: 0 <= i < |skipBytes| ==> skipBytes[i] as int < 256
  }

  /** The last index of c in the alphabet: the one the table-filling loop leaves behind. */
  function LastIndex(alphabet: seq<byte>, c: byte): (r: Option<nat>)
    ensures r.Some? ==> r.value < |alphabet| && alphabet[r.value] == c
    ensures r.None? <==> c !in alphabet
  {
    if alphabet == [] then None
    else if alphabet[|alphabet| - 1] == c then Some(|alphabet| - 1)
    else LastIndex(alphabet[..|alphabet| - 1], c)
  }

  /** No occurrence of c comes after the index LastIndex finds. */
  lemma {:induction false} LastIndexIsLast(alphabet: seq<byte>, c: byte)
    requires LastIndex(alphabet, c).Some?
    ensures forall j :: LastIndex(alphabet, c).value < j < |alphabet| ==> alphabet[j] != c
  {
    if alphabet[|alphabet| - 1] != c {
      var init := alphabet[..|alphabet| - 1];
      LastIndexIsLast(init, c);
      assert forall j :: 0 <= j < |init| ==> init[j] == alphabet[j];
    }
  }

  /** One decode table entry: alphabet index, else skip marker, else invalid marker. */
  function TableEntry(alphabet: seq<byte>, skipBytes: seq<char>, c: byte): byte
    requires |alphabet| <= 254
  {
    match LastIndex(alphabet, c)
    case Some(i) => i as byte
    case None => if (c as int) as char in skipBytes then SkipByte else InvalidByte
  }

  /** The decode table NewEncoding fills in. */
  function DecodeTable(alphabet: seq<byte>, skipBytes: seq<char>): (t: seq<byte>)
    requires |alphabet| <= 254
    ensures |t| == 256
    ensures forall c: byte :: t[c as int] == TableEntry(alphabet, skipBytes, c)
  {
    seq(256, i requires 0 <= i < 256 => TableEntry(alphabet, skipBytes, i as byte))
  }

  /**
   * A well-formed encoding: an alphabet of 2 to 254 bytes (so no index
   * collides with the two markers), at least one input byte per block, the
   * block length and bit count of the source's logarithms, and its decode
   * table. NewEncoding builds one from every alphabet it accepts here.
   */
  predicate Valid(enc: Encoding) {
    && Geometry(enc)
    && SkipCodePoints(enc.skipBytes)
    && enc.decodeMap == DecodeTable(enc.encode, enc.skipBytes)
  }

  /**
   * The part of Valid the length functions and the block functions rely
   * on: the alphabet size, the block geometry and a table of 256 entries.
   */
  predicate Geometry(enc: Encoding) {
    && 2 <= enc.base == |enc.encode| <= 254
    && enc.base256BlockLen >= 1
    && enc.baseXBlockLen == DigitsFor(enc.base, enc.base256BlockLen) >= 1
    && enc.maxEncodedBitsPerBlock == Bits(enc.base, enc.baseXBlockLen)
    && |enc.decodeMap| == 256
  }

  /**
   * NewEncoding: the geometry from the alphabet size and block length, then
   * the decode table in three passes: mark the skip code points, fill every
   * entry with the skip or invalid marker, and write each alphabet index at
   * its byte (a repeated byte keeps its last index).
   */
  method NewEncoding(encoder: seq<byte>, base256BlockLen: nat, skipBytes: seq<char>) returns (enc: Encoding)
    requires 2 <= |encoder| <= 254 && base256BlockLen >= 1
    requires SkipCodePoints(skipBytes)
    ensures Valid(enc)
    ensures enc.encode == encoder && enc.base == |encoder|
    ensures enc.base256BlockLen == base256BlockLen && enc.skipBytes == skipBytes
    ensures enc.decodeMap == DecodeTable(encoder, skipBytes)
  {
    var base := |encoder|;
    var baseXBlockLen := DigitsFor(base, base256BlockLen);
    DigitsForPositive(base, base256BlockLen);
    var maxEncodedBitsPerBlock := Bits(base, baseXBlockLen);

    var skipMap := new bool[256];
    forall c | 0 <= c < 256 {
      skipMap[c] := false;
    }
    for k := 0 to |skipBytes|
      invariant forall c :: 0 <= c < 256 ==> skipMap[c] == ((c as char) in skipBytes[..k])
    {
      skipMap[skipBytes[k] as int] := true;
      assert skipBytes[..k + 1] == skipBytes[..k] + [skipBytes[k]];
    }
    assert skipBytes[..|skipBytes|] == skipBytes;

    var decodeMap := new byte[256];
    for i := 0 to 256
      modifies decodeMap
      invariant forall c :: 0 <= c < i ==> decodeMap[c] == TableEntry([], skipBytes, c as byte)
    {
      var val := InvalidByte;
      if skipMap[i] {
        val := SkipByte;
      }
      decodeMap[i] := val;
    }
    for i := 0 to |encoder|
      modifies decodeMap
      invariant forall c :: 0 <= c < 256 ==> decodeMap[c] == TableEntry(encoder[..i], skipBytes, c as byte)
    {
      decodeMap[encoder[i] as int] := i as byte;
      assert encoder[..i + 1][..i] == encoder[..i];
    }
    assert encoder[..|encoder|] == encoder;
    enc := Encoding(encoder, decodeMap[..], base256BlockLen, baseXBlockLen, base, maxEncodedBitsPerBlock, skipBytes);
  }

  /**
   * The decode table NewEncoding builds: an alphabet byte maps to its last
   * index in the alphabet, a skip byte outside the alphabet to SkipByte,
   * and every other byte to InvalidByte.
   */
  lemma DecodeMapEntry(enc: Encoding, c: byte)
    requires Valid(enc)
    ensures c in enc.encode ==>
              && enc.decodeMap[c as int] as int < enc.base
              && enc.encode[enc.decodeMap[c as int]] == c
              && forall j :: enc.decodeMap[c as int] as int < j < enc.base ==> enc.encode[j] != c
    ensures c !in enc.encode && (c as int) as char in enc.skipBytes ==> enc.decodeMap[c as int] == SkipByte
    ensures c !in enc.encode && (c as int) as char !in enc.skipBytes ==> enc.decodeMap[c as int] == InvalidByte
  {
    if c in enc.encode {
      LastIndexIsLast(enc.encode, c);
    }
  }

  /** IsValidByte: the byte is in the alphabet or the skip set. */
  function IsValidByte(enc: Encoding, c: byte): (valid: bool)
    requires Valid(enc)
    ensures valid <==> c in enc.encode || (c as int) as char in enc.skipBytes
  {
    enc.decodeMap[c as int] != InvalidByte
  }

  // ---------------------------------------------------------------------
  // Lengths
  // ---------------------------------------------------------------------

  /** EncodedLen: whole blocks, plus ceil(8 rem / log2 base) characters for a partial one. */
  function EncodedLen(enc: Encoding, n: nat): nat
    requires Geometry(enc)
  {
    if n == enc.base256BlockLen then enc.baseXBlockLen
    else
      var rem := Rest(n, enc.base256BlockLen);
      Times(Blocks(n, enc.base256BlockLen), enc.baseXBlockLen)
        + if rem > 0 then DigitsFor(enc.base, rem) else 0
  }

  /** DecodedLen: whole blocks, plus floor(rem log2 base / 8) bytes for a partial one. */
  function DecodedLen(enc: Encoding, n: nat): nat
    requires Geometry(enc)
  {
    if n == enc.baseXBlockLen then enc.base256BlockLen
    else
      var rem := Rest(n, enc.baseXBlockLen);
      Times(Blocks(n, enc.baseXBlockLen), enc.base256BlockLen) + if rem > 0 then Bits(enc.base, rem) / 8 else 0
  }

  /** floor(n log2 base / 8), with n = -1 giving -1 (log2 base lies in (0, 8)). */
  function WholeBytes(enc: Encoding, n: int): int
    requires Geometry(enc)
  {
    if n < 0 then -1 else Bits(enc.base, n) / 8
  }

  /** IsValidEncodingLength: a full block, or a count one digit shorter would decode to fewer bytes. */
  function IsValidEncodingLength(enc: Encoding, n: nat): bool
    requires Geometry(enc)
  {
    n == enc.baseXBlockLen || WholeBytes(enc, n) != WholeBytes(enc, n - 1)
  }

  /** extraBits: the bits an encodedLen-character block holds beyond decodedLen bytes, as a uint. */
  function ExtraBits(enc: Encoding, decodedLen: nat, encodedLen: nat): nat
    requires Geometry(enc)
  {
    var encodedBits := if encodedLen == enc.baseXBlockLen then enc.maxEncodedBitsPerBlock
                       else Bits(enc.base, encodedLen);
    (encodedBits - decodedLen * 8) % Uint64Modulus
  }

  // ---------------------------------------------------------------------
  // What the codec writes
  // ---------------------------------------------------------------------

  /** Digits written with the alphabet. */
  function Spell(alphabet: seq<byte>, ds: seq<nat>): (s: seq<byte>)
    requires AllBelow(ds, |alphabet|)
    ensures |s| == |ds| && forall i :: 0 <= i < |ds| ==> s[i] == alphabet[ds[i]]
  {
    seq(|ds|, i requires 0 <= i < |ds| => alphabet[ds[i]])
  }

  /**
   * encodeBlock's output: the block's big-endian value shifted left by
   * extraBits, written as EncodedLen(|block|) base-`base` digits, leading
   * zeros included.
   */
  function EncodeBlockSpec(enc: Encoding, block: seq<byte>): (s: seq<byte>)
    requires Geometry(enc)
    ensures |s| == EncodedLen(enc, |block|)
  {
    var encodedLen := EncodedLen(enc, |block|);
    var num := ShiftLeft(BigEndian(block), ExtraBits(enc, |block|, encodedLen));
    Spell(enc.encode, ToDigits(num, enc.base, encodedLen))
  }

  /** Encode's output from input position sp on: one block per base256BlockLen input bytes. */
  function EncodeFrom(enc: Encoding, src: seq<byte>, sp: nat): seq<byte>
    requires Geometry(enc)
    decreases |src| - sp
  {
    if sp >= |src| then []
    else
      var sLim := if sp + enc.base256BlockLen > |src| then |src| else sp + enc.base256BlockLen;
      EncodeBlockSpec(enc, src[sp..sLim]) + EncodeFrom(enc, src, sLim)
  }

  /** Where a block scan stopped: the digits read and the position after the last byte consumed. */
  datatype Scan = Scan(digits: seq<nat>, end: nat)

  /**
   * decodeBlock's scan from position pos with `digits` already read: an
   * invalid byte is an error at its absolute position, a skip byte is
   * consumed without a digit, and the scan stops after baseXBlockLen
   * digits or at the end of the input.
   */
  function ScanBlock(enc: Encoding, src: seq<byte>, pos: nat, digits: seq<nat>): (r: Result<Scan, DecodeError>)
    requires |enc.decodeMap| == 256 && pos <= |src| && |digits| < enc.baseXBlockLen
    ensures r.Ok? ==> pos <= r.value.end <= |src|
    ensures r.Ok? ==> |digits| <= |r.value.digits| <= enc.baseXBlockLen
    ensures r.Ok? ==> |r.value.digits| - |digits| <= r.value.end - pos
    ensures r.Ok? && |r.value.digits| < enc.baseXBlockLen ==> r.value.end == |src|
    ensures r.Ok? && pos < |src| ==> pos < r.value.end
    ensures r.Err? ==> r.error.CorruptInputError? && pos <= r.error.offset < |src|
    decreases |src| - pos
  {
    if pos == |src| then Ok(Scan(digits, pos))
    else
      var v := enc.decodeMap[src[pos] as int];
      if v == InvalidByte then Err(CorruptInputError(pos))
      else if v == SkipByte then ScanBlock(enc, src, pos + 1, digits)
      else if |digits| + 1 == enc.baseXBlockLen then Ok(Scan(digits + [v as nat], pos + 1))
      else ScanBlock(enc, src, pos + 1, digits + [v as nat])
  }

  /**
   * The bytes of a block of digits: its value shifted right by extraBits,
   * in big-endian bytes without leading zeros, then left-padded with zeros
   * to DecodedLen(|ds|) bytes, or cut to that many when longer.
   */
  function BlockBytes(enc: Encoding, ds: seq<nat>): (out: seq<byte>)
    requires Geometry(enc)
    ensures |out| == DecodedLen(enc, |ds|)
  {
    var paddedLen := DecodedLen(enc, |ds|);
    var res := ShiftRight(DigitsValue(ds, enc.base), ExtraBits(enc, paddedLen, |ds|));
    PadTo(MinimalBytes(res), paddedLen)
  }

  /**
   * The bytes decodeBlock copies out: raw left-padded with zeros to n bytes,
   * or only its first n bytes when it is longer.
   */
  function PadTo(raw: seq<byte>, n: nat): (out: seq<byte>)
    ensures |out| == n
    ensures |raw| <= n ==> out[n - |raw|..] == raw && forall i :: 0 <= i < n - |raw| ==> out[i] == 0
    ensures |raw| >= n ==> out == raw[..n]
  {
    if |raw| < n then Zeros(n - |raw|) + raw else raw[..n]
  }

  /** decodeBlock at position sp: the bytes written and the input bytes consumed, or the error. */
  function DecodeBlockSpec(enc: Encoding, src: seq<byte>, sp: nat): (r: Result<(seq<byte>, nat), DecodeError>)
    requires Geometry(enc) && sp <= |src|
    ensures r.Ok? ==> sp + r.value.1 <= |src|
    ensures r.Ok? && sp < |src| ==> r.value.1 > 0
  {
    match ScanBlock(enc, src, sp, [])
    case Err(e) => Err(e)
    case Ok(scan) =>
      if !IsValidEncodingLength(enc, |scan.digits|) then Err(ErrInvalidEncodingLength)
      else Ok((BlockBytes(enc, scan.digits), scan.end - sp))
  }

  /**
   * decode from position sp on: the bytes of the blocks decoded before the
   * first error, and that error if there is one.
   */
  function DecodeFrom(enc: Encoding, src: seq<byte>, sp: nat): (r: (seq<byte>, Option<DecodeError>))
    requires Geometry(enc) && sp <= |src|
    decreases |src| - sp
  {
    if sp == |src| then ([], None)
    else
      match DecodeBlockSpec(enc, src, sp)
      case Err(e) => ([], Some(e))
      case Ok((out, si)) =>
        var rest := DecodeFrom(enc, src, sp + si);
        (out + rest.0, rest.1)
  }
}
