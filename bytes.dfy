/** Bytes, fixed-size byte arrays and the integer encodings the wire formats use:
    little-endian (the link port), big-endian value and lexicographic order (Rust's
    derived ordering on `[u8; N]`), UTF-8 validity (`String::from_utf8`) and decimal
    text (`usize::to_string`). */
module Bytes {

  /** `u8`. */
  type Byte = x: int | 0 <= x < 256

  /** `[u8; 2]`, `[u8; 4]`, `[u8; 16]`, `[u8; 24]` and `[u8; 32]`. */
  type Bytes2 = s: seq<Byte> | |s| == 2 witness [0, 0]
  type Bytes4 = s: seq<Byte> | |s| == 4 witness [0, 0, 0, 0]
  type Bytes16 = s: seq<Byte> | |s| == 16 witness seq(16, _ => 0)
  type Bytes24 = s: seq<Byte> | |s| == 24 witness seq(24, _ => 0)
  type Bytes32 = s: seq<Byte> | |s| == 32 witness seq(32, _ => 0)

  /** `u64` (and `usize`, on the 64-bit targets the source is built for). */
  type U64 = n: int | 0 <= n < 0x1_0000_0000_0000_0000

  function Zeros(n: nat): (r: seq<Byte>)
    ensures |r| == n
    ensures forall i :: 0 <= i < n ==> r[i] == 0
  {
    seq(n, _ => 0)
  }

  function Pow256(k: nat): (p: nat)
    ensures p >= 1
  {
    if k == 0 then 1 else 256 * Pow256(k - 1)
  }

  // ---------------------------------------------------------------
  // Reading fields out of a byte string
  // ---------------------------------------------------------------

  /** `n` bytes of `data` from `lo` on, zero where `data` has ended (a zeroed
      fixed-size buffer filled from the input). */
  function Slot(data: seq<Byte>, lo: nat, n: nat): (r: seq<Byte>)
    ensures |r| == n
    ensures forall j :: 0 <= j < n ==> r[j] == if lo + j < |data| then data[lo + j] else 0
    ensures lo + n <= |data| ==> r == data[lo..lo + n]
  {
    seq(n, j requires 0 <= j < n => if lo + j < |data| then data[lo + j] else 0)
  }

  function Min(a: nat, b: nat): nat
  {
    if a < b then a else b
  }

  /** `data[lo..hi]`, cut off at the end of `data`. */
  function Span(data: seq<Byte>, lo: nat, hi: nat): (r: seq<Byte>)
    ensures hi <= |data| && lo <= hi ==> r == data[lo..hi]
  {
    var a := if lo < |data| then lo else |data|;
    var b := if hi < |data| then hi else |data|;
    if a <= b then data[a..b] else []
  }

  // ---------------------------------------------------------------
  // Little-endian encoding (`to_le_bytes` / `from_le_bytes`)
  // ---------------------------------------------------------------

  /** The `k` low bytes of `n`, least significant first. */
  function LittleEndian(n: nat, k: nat): (r: seq<Byte>)
    ensures |r| == k
  {
    if k == 0 then [] else [n % 256] + LittleEndian(n / 256, k - 1)
  }

  function FromLittleEndian(s: seq<Byte>): nat
  {
    if s == [] then 0 else s[0] + 256 * FromLittleEndian(s[1..])
  }

  lemma {:induction false} FromLittleEndianBound(s: seq<Byte>)
    ensures FromLittleEndian(s) < Pow256(|s|)
  {
    if s != [] {
      FromLittleEndianBound(s[1..]);
      assert FromLittleEndian(s[1..]) + 1 <= Pow256(|s| - 1);
      assert 256 * (FromLittleEndian(s[1..]) + 1) <= 256 * Pow256(|s| - 1);
    }
  }

  /** Decoding the `k`-byte little-endian encoding of a number that fits gives it back. */
  lemma {:induction false} LittleEndianRoundTrip(n: nat, k: nat)
    requires n < Pow256(k)
    ensures FromLittleEndian(LittleEndian(n, k)) == n
  {
    if k > 0 {
      var q := n / 256;
      assert n == 256 * q + n % 256;
      assert q < Pow256(k - 1);
      LittleEndianRoundTrip(q, k - 1);
      var s := LittleEndian(n, k);
      assert s[1..] == LittleEndian(q, k - 1);
    }
  }

  // ---------------------------------------------------------------
  // Big-endian value and lexicographic order
  // ---------------------------------------------------------------

  /** The number a byte string denotes, most significant byte first. */
  function BigEndian(s: seq<Byte>): nat
  {
    if s == [] then 0 else s[0] * Pow256(|s| - 1) + BigEndian(s[1..])
  }

  /** The bound `BigEndianBound` needs for its leading byte, kept apart so that
      its multiplication stays out of the induction. */
  lemma LeadingByteBound(a: int, p: int, r: int)
    requires 0 <= a <= 255 && 0 <= r < p
    ensures a * p + r < 256 * p
  {
    assert 256 * p - a * p == (256 - a) * p;
  }

  lemma {:induction false} BigEndianBound(s: seq<Byte>)
    ensures BigEndian(s) < Pow256(|s|)
  {
    if s != [] {
      BigEndianBound(s[1..]);
      LeadingByteBound(s[0], Pow256(|s| - 1), BigEndian(s[1..]));
    }
  }

  datatype Ordering = Less | Equal | Greater {
    function Reverse(): Ordering
    {
      match this
      case Less => Greater
      case Equal => Equal
      case Greater => Less
    }
  }

  function CompareInt(a: int, b: int): Ordering
  {
    if a < b then Less else if a == b then Equal else Greater
  }

  /** Rust's ordering of byte arrays: lexicographic, a proper prefix first. */
  function LexCompare(x: seq<Byte>, y: seq<Byte>): Ordering
  {
    if x == [] then (if y == [] then Equal else Less)
    else if y == [] then Greater
    else if x[0] < y[0] then Less
    else if x[0] > y[0] then Greater
    else LexCompare(x[1..], y[1..])
  }

  lemma {:induction false} LexCompareEqualIff(x: seq<Byte>, y: seq<Byte>)
    ensures LexCompare(x, y) == Equal <==> x == y
  {
    if x != [] && y != [] && x[0] == y[0] {
      LexCompareEqualIff(x[1..], y[1..]);
      if x[1..] == y[1..] {
        assert x == [x[0]] + x[1..] && y == [y[0]] + y[1..];
      }
    }
  }

  /** Swapping the operands reverses the comparison. */
  lemma {:induction false} LexCompareAntisymmetric(x: seq<Byte>, y: seq<Byte>)
    ensures LexCompare(y, x) == LexCompare(x, y).Reverse()
  {
    if x != [] && y != [] && x[0] == y[0] {
      LexCompareAntisymmetric(x[1..], y[1..]);
    }
  }

  lemma LeadingByteDecides(a: int, b: int, p: int, r1: int, r2: int)
    requires 0 <= a < b && p >= 1 && 0 <= r1 < p && 0 <= r2
    ensures a * p + r1 < b * p + r2
  {
    assert (a + 1) * p == a * p + p;
    assert (a + 1) * p <= b * p by {
      assert b * p - (a + 1) * p == (b - (a + 1)) * p;
    }
  }

  /** On byte strings of equal length the lexicographic order is the numeric order
      of their big-endian values. */
  lemma {:induction false} LexCompareIsNumeric(x: seq<Byte>, y: seq<Byte>)
    requires |x| == |y|
    ensures LexCompare(x, y) == CompareInt(BigEndian(x), BigEndian(y))
  {
    if x != [] {
      var p := Pow256(|x| - 1);
      BigEndianBound(x[1..]);
      BigEndianBound(y[1..]);
      if x[0] < y[0] {
        LeadingByteDecides(x[0], y[0], p, BigEndian(x[1..]), BigEndian(y[1..]));
      } else if x[0] > y[0] {
        LeadingByteDecides(y[0], x[0], p, BigEndian(y[1..]), BigEndian(x[1..]));
      } else {
        LexCompareIsNumeric(x[1..], y[1..]);
      }
    }
  }

  /** Byte strings of one length with one big-endian value are equal. */
  lemma BigEndianInjective(x: seq<Byte>, y: seq<Byte>)
    requires |x| == |y| && BigEndian(x) == BigEndian(y)
    ensures x == y
  {
    LexCompareIsNumeric(x, y);
    LexCompareEqualIff(x, y);
  }

  // ---------------------------------------------------------------
  // UTF-8 (the check `String::from_utf8` performs)
  // ---------------------------------------------------------------

  predicate Continuation(b: Byte)
  {
    0x80 <= b <= 0xBF
  }

  /** Well-formed UTF-8 (RFC 3629): no overlong forms, no surrogates, nothing above U+10FFFF. */
  predicate ValidUtf8(s: seq<Byte>)
    decreases |s|
  {
    if s == [] then true
    else if s[0] < 0x80 then ValidUtf8(s[1..])
    else if 0xC2 <= s[0] <= 0xDF then
      |s| >= 2 && Continuation(s[1]) && ValidUtf8(s[2..])
    else if s[0] == 0xE0 then
      |s| >= 3 && 0xA0 <= s[1] <= 0xBF && Continuation(s[2]) && ValidUtf8(s[3..])
    else if (0xE1 <= s[0] <= 0xEC) || s[0] == 0xEE || s[0] == 0xEF then
      |s| >= 3 && Continuation(s[1]) && Continuation(s[2]) && ValidUtf8(s[3..])
    else if s[0] == 0xED then
      |s| >= 3 && 0x80 <= s[1] <= 0x9F && Continuation(s[2]) && ValidUtf8(s[3..])
    else if s[0] == 0xF0 then
      |s| >= 4 && 0x90 <= s[1] <= 0xBF && Continuation(s[2]) && Continuation(s[3]) && ValidUtf8(s[4..])
    else if 0xF1 <= s[0] <= 0xF3 then
      |s| >= 4 && Continuation(s[1]) && Continuation(s[2]) && Continuation(s[3]) && ValidUtf8(s[4..])
    else if s[0] == 0xF4 then
      |s| >= 4 && 0x80 <= s[1] <= 0x8F && Continuation(s[2]) && Continuation(s[3]) && ValidUtf8(s[4..])
    else false
  }

  /** A Rust `String`: its bytes are valid UTF-8. */
  type Utf8String = s: seq<Byte> | ValidUtf8(s) witness []

  // ---------------------------------------------------------------
  // Decimal text (`usize::to_string`)
  // ---------------------------------------------------------------

  const Colon: Byte := 0x3A

  predicate IsDigit(b: Byte)
  {
    0x30 <= b <= 0x39
  }

  function Digit(d: nat): (b: Byte)
    requires d < 10
    ensures IsDigit(b)
  {
    0x30 + d
  }

  // ---------------------------------------------------------------
  // Bitwise exclusive or (`^` on `u8`)
  // ---------------------------------------------------------------

  function Pow2(k: nat): (p: nat)
    ensures p >= 1
  {
    if k == 0 then 1 else 2 * Pow2(k - 1)
  }

  /** Exclusive or of the `k` low bits of `a` and `b`. */
  function XorBits(a: nat, b: nat, k: nat): (r: nat)
    ensures r < Pow2(k)
  {
    if k == 0 then 0
    else (if a % 2 == b % 2 then 0 else 1) + 2 * XorBits(a / 2, b / 2, k - 1)
  }

  function Xor(a: Byte, b: Byte): Byte
  {
    assert Pow2(8) == 256;
    XorBits(a, b, 8)
  }

  lemma {:induction false} XorBitsSelf(a: nat, k: nat)
    ensures XorBits(a, a, k) == 0
  {
    if k > 0 {
      XorBitsSelf(a / 2, k - 1);
    }
  }

  lemma {:induction false} XorBitsSymmetric(a: nat, b: nat, k: nat)
    ensures XorBits(a, b, k) == XorBits(b, a, k)
  {
    if k > 0 {
      XorBitsSymmetric(a / 2, b / 2, k - 1);
    }
  }

  lemma {:induction false} XorBitsCancel(a: nat, b: nat, c: nat, k: nat)
    requires a < Pow2(k) && b < Pow2(k) && XorBits(a, c, k) == XorBits(b, c, k)
    ensures a == b
  {
    if k > 0 {
      var ra := XorBits(a / 2, c / 2, k - 1);
      var rb := XorBits(b / 2, c / 2, k - 1);
      var ba := if a % 2 == c % 2 then 0 else 1;
      var bb := if b % 2 == c % 2 then 0 else 1;
      assert ba + 2 * ra == bb + 2 * rb;
      assert ba == bb && ra == rb;
      XorBitsCancel(a / 2, b / 2, c / 2, k - 1);
    }
  }

  /** `x ^ x == 0` and `x ^ y == y ^ x` on bytes. */
  lemma XorProperties(a: Byte, b: Byte)
    ensures Xor(a, a) == 0
    ensures Xor(a, b) == Xor(b, a)
  {
    XorBitsSelf(a, 8);
    XorBitsSymmetric(a, b, 8);
  }

  /** XOR with a fixed byte is injective: `a ^ c == b ^ c` only if `a == b`. */
  lemma XorCancel(a: Byte, b: Byte, c: Byte)
    ensures Xor(a, c) == Xor(b, c) <==> a == b
  {
    assert Pow2(8) == 256;
    if Xor(a, c) == Xor(b, c) {
      XorBitsCancel(a, b, c, 8);
    }
  }

  /** The decimal representation of `n`, without leading zeros. */
  function Decimal(n: nat): seq<Byte>
    decreases n
  {
    if n < 10 then [Digit(n)] else Decimal(n / 10) + [Digit(n % 10)]
  }

  function ParseDecimal(s: seq<Byte>): nat
  {
    if s == [] then 0
    else ParseDecimal(s[..|s| - 1]) * 10 + (if IsDigit(s[|s| - 1]) then s[|s| - 1] - 0x30 else 0)
  }

  /** The decimal text of `n` is made of digits only, and reads back as `n`. */
  lemma {:induction false} DecimalRoundTrip(n: nat)
    ensures |Decimal(n)| > 0
    ensures forall i :: 0 <= i < |Decimal(n)| ==> IsDigit(Decimal(n)[i])
    ensures ParseDecimal(Decimal(n)) == n
    decreases n
  {
    if n >= 10 {
      DecimalRoundTrip(n / 10);
      var s := Decimal(n);
      assert s[..|s| - 1] == Decimal(n / 10);
    }
  }
}
