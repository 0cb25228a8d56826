/**
 * The integer arithmetic behind the radix-X codec: powers, the exact values
 * of the logarithms the codec takes in floating point, big-endian byte
 * strings (big.Int SetBytes/Bytes) and base-b digit strings.
 */
module BaseXMath {

  newtype byte = x: int | 0 <= x < 256

  function Pow(b: nat, n: nat): nat {
    if n == 0 then 1 else b * Pow(b, n - 1)
  }

  lemma {:induction false} PowPositive(b: nat, n: nat)
    requires b >= 1
    ensures Pow(b, n) >= 1
  {
    if n > 0 {
      PowPositive(b, n - 1);
      MulAtLeast(b, Pow(b, n - 1));
    }
  }

  lemma MulAtLeast(a: nat, c: nat)
    requires a >= 1 && c >= 1
    ensures a * c >= c && a * c >= a
  {
  }

  lemma {:induction false} PowAdd(b: nat, m: nat, n: nat)
    ensures Pow(b, m + n) == Pow(b, m) * Pow(b, n)
    decreases m
  {
    if m > 0 {
      PowAdd(b, m - 1, n);
      calc {
        Pow(b, m + n);
        b * Pow(b, m - 1 + n);
        b * (Pow(b, m - 1) * Pow(b, n));
        (b * Pow(b, m - 1)) * Pow(b, n);
      }
    }
  }

  /** Powers of b >= 2 grow strictly. */
  lemma {:induction false} PowStrictlyIncreasing(b: nat, m: nat, n: nat)
    requires b >= 2 && m < n
    ensures Pow(b, m) < Pow(b, n)
    decreases n
  {
    var p := Pow(b, n - 1);
    PowPositive(b, n - 1);
    assert Pow(b, n) == b * p;
    MulRight(2, b, p);
    if m < n - 1 {
      PowStrictlyIncreasing(b, m, n - 1);
    }
  }

  lemma PowIncreasing(b: nat, m: nat, n: nat)
    requires b >= 2 && m <= n
    ensures Pow(b, m) <= Pow(b, n)
  {
    if m < n {
      PowStrictlyIncreasing(b, m, n);
    }
  }

  /** A larger base gives a larger power. */
  lemma {:induction false} PowBaseIncreasing(a: nat, b: nat, n: nat)
    requires 1 <= a <= b
    ensures Pow(a, n) <= Pow(b, n)
  {
    if n > 0 {
      PowBaseIncreasing(a, b, n - 1);
      PowPositive(a, n - 1);
      MulMonotone(a, Pow(a, n - 1), b, Pow(b, n - 1));
    }
  }

  lemma MulMonotone(a: nat, c: nat, b: nat, d: nat)
    requires a <= b && c <= d
    ensures a * c <= b * d
  {
    assert a * c <= b * c by {
      MulRight(a, b, c);
    }
    assert b * c <= b * d by {
      MulRight(c, d, b);
    }
  }

  lemma MulRight(a: nat, b: nat, c: nat)
    requires a <= b
    ensures a * c <= b * c && c * a <= c * b
  {
  }

  /** 256^n is 2^(8n): a byte string of n bytes holds 8n bits. */
  lemma {:induction false} Pow256(n: nat)
    ensures Pow(256, n) == Pow(2, 8 * n)
  {
    if n > 0 {
      Pow256(n - 1);
      PowAdd(2, 8, 8 * (n - 1));
      assert Pow(2, 8) == 256;
    }
  }

  // ---------------------------------------------------------------------
  // Exact logarithms
  // ---------------------------------------------------------------------

  /** floor(log2 x): the number of whole bits below x. */
  function Log2Floor(x: nat): nat
    requires x >= 1
  {
    if x < 2 then 0 else 1 + Log2Floor(x / 2)
  }

  /** Log2Floor(x) counts the bits below x: 2^r <= x < 2^(r+1). */
  lemma {:induction false} Log2FloorBounds(x: nat)
    requires x >= 1
    ensures Pow(2, Log2Floor(x)) <= x < Pow(2, Log2Floor(x) + 1)
    decreases x
  {
    if x >= 2 {
      Log2FloorBounds(x / 2);
      var r := Log2Floor(x / 2);
      assert Pow(2, r + 1) == 2 * Pow(2, r);
      assert Pow(2, r + 2) == 2 * Pow(2, r + 1);
    }
  }

  /** Log2Floor(x) is the largest e with 2^e <= x. */
  lemma Log2FloorIsLargest(x: nat, e: nat)
    requires x >= 1
    ensures Pow(2, e) <= x <==> e <= Log2Floor(x)
  {
    Log2FloorBounds(x);
    if e <= Log2Floor(x) {
      PowIncreasing(2, e, Log2Floor(x));
    } else {
      PowIncreasing(2, Log2Floor(x) + 1, e);
    }
  }

  /** ceil(log_b x): the least k with b^k >= x. */
  function CeilLog(b: nat, x: nat): nat
    requires b >= 2 && x >= 1
    decreases x
  {
    if x <= 1 then 0
    else
      CeilDivBounds(x, b);
      1 + CeilLog(b, (x + b - 1) / b)
  }

  /** CeilLog(b, x) covers x, and one power less does not. */
  lemma {:induction false} CeilLogBounds(b: nat, x: nat)
    requires b >= 2 && x >= 1
    ensures Pow(b, CeilLog(b, x)) >= x
    ensures CeilLog(b, x) == 0 || Pow(b, CeilLog(b, x) - 1) < x
    decreases x
  {
    if x > 1 {
      var y := (x + b - 1) / b;
      CeilDivBounds(x, b);
      CeilLogBounds(b, y);
      CeilLogStep(b, x, y, CeilLog(b, y));
    }
  }

  /** One more power of b covers x when b^k' covers ceil(x/b). */
  lemma CeilLogStep(b: nat, x: nat, y: nat, k': nat)
    requires b >= 2 && x >= 2 && y >= 1
    requires y * b >= x && (y - 1) * b < x
    requires Pow(b, k') >= y && (k' == 0 || Pow(b, k' - 1) < y)
    ensures Pow(b, k' + 1) >= x && Pow(b, k') < x
  {
    var p := Pow(b, k');
    assert Pow(b, k' + 1) == b * p;
    MulRight(y, p, b);
    if k' > 0 {
      var q := Pow(b, k' - 1);
      assert p == b * q;
      MulRight(q, y - 1, b);
    } else {
      assert y == 1;
    }
  }

  /** The rounded-up quotient y = ceil(x/b) of x >= 2. */
  lemma CeilDivBounds(x: nat, b: nat)
    requires b >= 2 && x >= 2
    ensures var y := (x + b - 1) / b; 1 <= y < x && y * b >= x && (y - 1) * b < x
  {
    var y := (x + b - 1) / b;
    var r := (x + b - 1) % b;
    assert y * b + r == x + b - 1;
    assert (y - 1) * b == y * b - b;
    MulRight(2, b, x - 1);
    assert b * x == b * (x - 1) + b;
    DivBelow(x + b - 1, b, x);
  }

  /** CeilLog(b, x) is the least k with b^k >= x. */
  lemma CeilLogIsLeast(b: nat, x: nat, k: nat)
    requires b >= 2 && x >= 1
    ensures Pow(b, k) >= x <==> k >= CeilLog(b, x)
  {
    CeilLogBounds(b, x);
    var c := CeilLog(b, x);
    if k >= c {
      PowIncreasing(b, c, k);
    } else {
      PowIncreasing(b, k, c - 1);
    }
  }

  // ---------------------------------------------------------------------
  // Big-endian byte strings
  // ---------------------------------------------------------------------

  /** big.Int.SetBytes: the value of a big-endian byte string. */
  function BigEndian(s: seq<byte>): nat {
    if s == [] then 0 else BigEndian(s[..|s| - 1]) * 256 + s[|s| - 1] as nat
  }

  /** n bytes hold a value below 256^n. */
  lemma {:induction false} BigEndianBound(s: seq<byte>)
    ensures BigEndian(s) < Pow(256, |s|)
  {
    if s != [] {
      BigEndianBound(s[..|s| - 1]);
      assert Pow(256, |s|) == 256 * Pow(256, |s| - 1);
    }
  }

  /** The n low bytes of v, big-endian. */
  function ToBytes(v: nat, n: nat): (s: seq<byte>)
    ensures |s| == n
  {
    if n == 0 then [] else ToBytes(v / 256, n - 1) + [(v % 256) as byte]
  }

  /** A value below 256^n is what its n bytes read back to. */
  lemma {:induction false} ToBytesValue(v: nat, n: nat)
    requires v < Pow(256, n)
    ensures BigEndian(ToBytes(v, n)) == v
  {
    if n > 0 {
      assert Pow(256, n) == 256 * Pow(256, n - 1);
      DivBelow(v, 256, Pow(256, n - 1));
      ToBytesValue(v / 256, n - 1);
      var s := ToBytes(v, n);
      assert s[..n - 1] == ToBytes(v / 256, n - 1);
    }
  }

  /** A byte string is determined by its length and value. */
  lemma {:induction false} BigEndianInjective(s: seq<byte>, t: seq<byte>)
    requires |s| == |t| && BigEndian(s) == BigEndian(t)
    ensures s == t
  {
    if s != [] {
      var n := |s| - 1;
      assert BigEndian(s) == BigEndian(s[..n]) * 256 + s[n] as nat;
      assert BigEndian(t) == BigEndian(t[..n]) * 256 + t[n] as nat;
      BigEndianInjective(s[..n], t[..n]);
      assert s == s[..n] + [s[n]] && t == t[..n] + [t[n]];
    }
  }

  lemma ToBytesOfBigEndian(s: seq<byte>)
    ensures ToBytes(BigEndian(s), |s|) == s
  {
    BigEndianBound(s);
    ToBytesValue(BigEndian(s), |s|);
    BigEndianInjective(ToBytes(BigEndian(s), |s|), s);
  }

  /** Leading zero bytes add nothing to the value. */
  lemma {:induction false} BigEndianZeros(p: nat, s: seq<byte>)
    ensures BigEndian(Zeros(p) + s) == BigEndian(s)
    decreases |s|
  {
    if s == [] {
      ZerosValue(p);
      assert Zeros(p) + s == Zeros(p);
    } else {
      var n := |s| - 1;
      assert (Zeros(p) + s)[..p + n] == Zeros(p) + s[..n];
      BigEndianZeros(p, s[..n]);
    }
  }

  function Zeros(p: nat): (z: seq<byte>)
    ensures |z| == p && forall i :: 0 <= i < p ==> z[i] == 0
  {
    seq(p, _ => 0)
  }

  lemma {:induction false} ZerosValue(p: nat)
    ensures BigEndian(Zeros(p)) == 0
  {
    if p > 0 {
      assert Zeros(p)[..p - 1] == Zeros(p - 1);
      ZerosValue(p - 1);
    }
  }

  /** The number of bytes big.Int.Bytes uses for v: none for zero. */
  function ByteLen(v: nat): nat {
    if v == 0 then 0 else 1 + ByteLen(v / 256)
  }

  /** ByteLen(v) bytes hold v, and one byte fewer would not. */
  lemma {:induction false} ByteLenBounds(v: nat)
    ensures v < Pow(256, ByteLen(v))
    ensures ByteLen(v) > 0 ==> Pow(256, ByteLen(v) - 1) <= v
  {
    if v > 0 {
      var n' := ByteLen(v / 256);
      ByteLenBounds(v / 256);
      assert Pow(256, n' + 1) == 256 * Pow(256, n');
      if n' > 0 {
        assert Pow(256, n') == 256 * Pow(256, n' - 1);
      }
    }
  }

  /** big.Int.Bytes: the minimal big-endian representation (no leading zeros). */
  function MinimalBytes(v: nat): (s: seq<byte>)
    ensures |s| == ByteLen(v)
  {
    ToBytes(v, ByteLen(v))
  }

  /** The minimal representation reads back to its value. */
  lemma MinimalBytesValue(v: nat)
    ensures BigEndian(MinimalBytes(v)) == v
  {
    ByteLenBounds(v);
    ToBytesValue(v, ByteLen(v));
  }

  /** A value below 256^n needs at most n bytes. */
  lemma ByteLenAtMost(v: nat, n: nat)
    requires v < Pow(256, n)
    ensures ByteLen(v) <= n
  {
    ByteLenBounds(v);
    if ByteLen(v) > 0 {
      PowIncreasingImplication(256, n, ByteLen(v) - 1);
    }
  }

  lemma PowIncreasingImplication(b: nat, m: nat, n: nat)
    requires b >= 2
    ensures m <= n ==> Pow(b, m) <= Pow(b, n)
  {
    if m <= n {
      PowIncreasing(b, m, n);
    }
  }

  // ---------------------------------------------------------------------
  // Base-b digit strings
  // ---------------------------------------------------------------------

  /** The value of a big-endian base-b digit string. */
  function DigitsValue(ds: seq<nat>, b: nat): nat {
    if ds == [] then 0 else DigitsValue(ds[..|ds| - 1], b) * b + ds[|ds| - 1]
  }

  /** Whether every digit is below b. */
  predicate AllBelow(ds: seq<nat>, b: nat) {
    forall i :: 0 <= i < |ds| ==> ds[i] < b
  }

  /** The k low base-b digits of v, most significant first. */
  function ToDigits(v: nat, b: nat, k: nat): (ds: seq<nat>)
    requires b >= 2
    ensures |ds| == k && AllBelow(ds, b)
  {
    if k == 0 then [] else ToDigits(v / b, b, k - 1) + [v % b]
  }

  /** v divided k times by b. */
  function Shifted(v: nat, b: nat, k: nat): nat
    requires b >= 2
  {
    if k == 0 then v else Shifted(v / b, b, k - 1)
  }

  /** A digit string read back gives the value it was taken from. */
  lemma {:induction false} ToDigitsValue(v: nat, b: nat, k: nat)
    requires b >= 2 && v < Pow(b, k)
    ensures DigitsValue(ToDigits(v, b, k), b) == v
  {
    if k > 0 {
      DivMod(v, b, Pow(b, k - 1));
      ToDigitsValue(v / b, b, k - 1);
      DigitsValueSnoc(ToDigits(v / b, b, k - 1), v % b, b);
    }
  }

  /** Appending a digit multiplies the value by b and adds the digit. */
  lemma DigitsValueSnoc(init: seq<nat>, d: nat, b: nat)
    ensures DigitsValue(init + [d], b) == DigitsValue(init, b) * b + d
  {
    assert (init + [d])[..|init|] == init;
  }

  /** Division by b of a value below b*c. */
  lemma DivMod(v: nat, b: nat, c: nat)
    requires b >= 1 && v < b * c
    ensures v / b < c && v == (v / b) * b + v % b && v % b < b
  {
    DivBelow(v, b, c);
  }

  lemma DivBelow(v: nat, b: nat, c: nat)
    requires b >= 1 && v < b * c
    ensures v / b < c
  {
    var q := v / b;
    assert q * b <= v;
    if q >= c {
      MulRight(c, q, b);
    }
  }

  /** Digits that are all below b name the digit string of their value. */
  lemma {:induction false} DigitsOfValue(ds: seq<nat>, b: nat)
    requires b >= 2 && AllBelow(ds, b)
    ensures ToDigits(DigitsValue(ds, b), b, |ds|) == ds
    ensures DigitsValue(ds, b) < Pow(b, |ds|)
  {
    if ds != [] {
      var n := |ds| - 1;
      var init, d := ds[..n], ds[n];
      assert ds == init + [d];
      assert AllBelow(init, b);
      DigitsOfValue(init, b);
      DigitsStep(DigitsValue(init, b), d, b, n);
    }
  }

  /** One more low digit d below b. */
  lemma DigitsStep(w: nat, d: nat, b: nat, n: nat)
    requires b >= 2 && d < b && w < Pow(b, n)
    ensures ToDigits(w * b + d, b, n + 1) == ToDigits(w, b, n) + [d]
    ensures w * b + d < Pow(b, n + 1)
  {
    var v := w * b + d;
    DivModUnique(v, b, w, d);
    assert ToDigits(v, b, n + 1) == ToDigits(w, b, n) + [d];
    var p := Pow(b, n);
    assert Pow(b, n + 1) == b * p;
    assert v < (w + 1) * b by {
      assert (w + 1) * b == w * b + b;
    }
    MulRight(w + 1, p, b);
  }

  /** Euclidean division: quotient and remainder are unique. */
  lemma DivModUnique(v: nat, b: nat, q: nat, r: nat)
    requires b >= 1 && r < b && v == q * b + r
    ensures v / b == q && v % b == r
  {
    var q', r' := v / b, v % b;
    assert q' * b + r' == q * b + r;
    if q' < q {
      MulRight(q' + 1, q, b);
    } else if q' > q {
      MulRight(q + 1, q', b);
    }
  }

  /** The last k digits of v, then the digits of what is left. */
  lemma {:induction false} ToDigitsSplit(v: nat, b: nat, k: nat, m: nat)
    requires b >= 2 && m <= k
    ensures ToDigits(v, b, k) == ToDigits(Shifted(v, b, m), b, k - m) + ToDigits(v, b, m)
    decreases m
  {
    if m > 0 {
      ToDigitsSplit(v / b, b, k - 1, m - 1);
    }
  }

  /** Once v is used up, the remaining digits are zeros. */
  lemma {:induction false} ToDigitsOfZero(b: nat, k: nat)
    requires b >= 2
    ensures forall i :: 0 <= i < k ==> ToDigits(0, b, k)[i] == 0
  {
    if k > 0 {
      ToDigitsOfZero(b, k - 1);
    }
  }

  /** Dividing a value below b^k by b at least k times leaves nothing. */
  lemma {:induction false} ShiftedBelow(v: nat, b: nat, k: nat, m: nat)
    requires b >= 2 && v < Pow(b, k) && k <= m
    ensures Shifted(v, b, m) == 0
    decreases m
  {
    if m > 0 {
      if k > 0 {
        DivBelow(v, b, Pow(b, k - 1));
        ShiftedBelow(v / b, b, k - 1, m - 1);
      } else {
        ShiftedBelow(v / b, b, 0, m - 1);
      }
    }
  }

  /** Dividing by b one more time. */
  lemma {:induction false} ShiftedStep(v: nat, b: nat, m: nat)
    requires b >= 2
    ensures Shifted(v, b, m + 1) == Shifted(v, b, m) / b
    decreases m
  {
    if m > 0 {
      ShiftedStep(v / b, b, m - 1);
    }
  }

  /** Dividing an already exhausted value leaves nothing. */
  lemma {:induction false} ShiftedStaysZero(v: nat, b: nat, m: nat, m': nat)
    requires b >= 2 && m <= m' && Shifted(v, b, m) == 0
    ensures Shifted(v, b, m') == 0
    decreases m'
  {
    if m < m' {
      ShiftedStaysZero(v, b, m, m' - 1);
      ShiftedStep(v, b, m' - 1);
    }
  }

  /** Digit j of the k-digit string of v, counted from the most significant end. */
  lemma {:induction false} DigitAt(v: nat, b: nat, k: nat, j: nat)
    requires b >= 2 && j < k
    ensures ToDigits(v, b, k)[j] == Shifted(v, b, k - 1 - j) % b
    decreases k
  {
    if j < k - 1 {
      DigitAt(v / b, b, k - 1, j);
    }
  }

  /** Multiplying by p and dividing by p gives the value back. */
  lemma MulDiv(v: nat, p: nat)
    requires p >= 1
    ensures (v * p) / p == v
  {
    DivModUnique(v * p, p, v, 0);
  }

  /** Taking one whole block of a off n. */
  lemma BlockDiv(n: nat, a: nat)
    requires a >= 1 && n >= a
    ensures n / a == (n - a) / a + 1 && n % a == (n - a) % a
  {
    var q, r := (n - a) / a, (n - a) % a;
    assert n == (q + 1) * a + r;
    DivModUnique(n, a, q + 1, r);
  }

  /** floor(n log2 b): the number of whole bits in b^n. */
  function Bits(b: nat, n: nat): nat
    requires b >= 1
  {
    PowPositive(b, n);
    Log2Floor(Pow(b, n))
  }

  lemma Log2FloorMonotone(x: nat, y: nat)
    requires 1 <= x <= y
    ensures Log2Floor(x) <= Log2Floor(y)
  {
    Log2FloorIsLargest(y, Log2Floor(x));
  }

  /** q whole blocks of c each. */
  function Times(q: nat, c: nat): nat {
    q * c
  }

  /** The whole blocks of a in n. */
  function Blocks(n: nat, a: nat): nat
    requires a >= 1
  {
    n / a
  }

  /** What is left of n after its whole blocks of a. */
  function Rest(n: nat, a: nat): (r: nat)
    requires a >= 1
    ensures r < a
  {
    n % a
  }

  lemma TimesSucc(q: nat, c: nat)
    ensures Times(q + 1, c) == c + Times(q, c)
  {
  }

  /** ceil(8r / log2 b): the least k with b^k >= 256^r, the digits r bytes need. */
  function DigitsFor(b: nat, r: nat): nat
    requires b >= 2
  {
    PowPositive(256, r);
    CeilLog(b, Pow(256, r))
  }

  /** Any bytes at all need a digit. */
  lemma DigitsForPositive(b: nat, r: nat)
    requires b >= 2 && r >= 1
    ensures DigitsFor(b, r) >= 1
  {
    PowStrictlyIncreasing(256, 0, r);
  }

  lemma ModSmall(d: int, m: int)
    requires 0 <= d < m
    ensures d % m == d
  {
  }

  /** A value below 2^k, shifted left by s bits, is below 2^(k+s). */
  lemma ShiftFits(v: nat, k: nat, s: nat)
    requires v < Pow(2, k)
    ensures v * Pow(2, s) < Pow(2, k + s)
  {
    PowPositive(2, s);
    MulRight(v + 1, Pow(2, k), Pow(2, s));
    PowAdd(2, k, s);
  }

  /** A value below 2^k, shifted left into `bits` bits, stays below anything 2^bits bounds. */
  lemma ShiftFitsBelow(v: nat, k: nat, bits: nat, x: nat)
    requires v < Pow(2, k) && k <= bits && Pow(2, bits) <= x
    ensures v * Pow(2, bits - k) < x
  {
    ShiftFits(v, k, bits - k);
  }

  /** 2^Bits(b, n) <= b^n. */
  lemma BitsBelow(b: nat, n: nat)
    requires b >= 1
    ensures Pow(2, Bits(b, n)) <= Pow(b, n)
  {
    PowPositive(b, n);
    Log2FloorBounds(Pow(b, n));
  }

  /** Counting one further: the rest grows, or a block completes. */
  lemma NextRest(n: nat, a: nat)
    requires a >= 1
    ensures Rest(n, a) + 1 < a ==> Blocks(n + 1, a) == Blocks(n, a) && Rest(n + 1, a) == Rest(n, a) + 1
    ensures Rest(n, a) + 1 == a ==> Blocks(n + 1, a) == Blocks(n, a) + 1 && Rest(n + 1, a) == 0
  {
    var q, r := n / a, n % a;
    if r + 1 < a {
      DivModUnique(n + 1, a, q, r + 1);
    } else {
      assert n + 1 == (q + 1) * a;
      DivModUnique(n + 1, a, q + 1, 0);
    }
  }

  /** big.Int Lsh: v shifted left by s bits. */
  function ShiftLeft(v: nat, s: nat): nat {
    v * Pow(2, s)
  }

  /** big.Int Rsh: v shifted right by s bits, the low bits dropped. */
  function ShiftRight(v: nat, s: nat): nat {
    PowPositive(2, s);
    v / Pow(2, s)
  }

  /** Shifting left and back right gives the value back. */
  lemma ShiftRightOfLeft(v: nat, s: nat)
    ensures ShiftRight(ShiftLeft(v, s), s) == v
  {
    PowPositive(2, s);
    MulDiv(v, Pow(2, s));
  }
}
