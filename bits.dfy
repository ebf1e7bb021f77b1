/** Fixed-width integers and the bit arithmetic the trie performs on 32-bit keys.

    Bits are numbered as in Go: bit j of x is (x >> j) & 1, so bit 31 is the
    most significant bit of a key.  Keys are naturals below 2^32, and Go's
    `x >> n`, `x << n` and `x % (1 << n)` are the functions Shr, Shl and Low,
    each defined one bit at a time so that every proof about them is linear. */
module Bits {

  type uint8 = x: nat | x < 0x100
  type uint32 = x: nat | x < 0x1_0000_0000

  /** x << n, without any width limit. */
  function Shl(x: nat, n: nat): nat {
    if n == 0 then x else 2 * Shl(x, n - 1)
  }

  /** x >> n. */
  function Shr(x: nat, n: nat): nat {
    if n == 0 then x else Shr(x / 2, n - 1)
  }

  /** x % (1 << n): the low n bits of x. */
  function Low(x: nat, n: nat): nat {
    if n == 0 then 0 else x % 2 + 2 * Low(x / 2, n - 1)
  }

  function Pow2(n: nat): nat {
    Shl(1, n)
  }

  /** Bit j of x: (x >> j) & 1. */
  function Bit(x: nat, j: nat): (r: nat)
    ensures r < 2
  {
    Shr(x, j) % 2
  }

  /** The child slot a key bit selects: true for 1, false for 0. */
  predicate BitSet(x: nat, j: nat) {
    Bit(x, j) == 1
  }

  lemma Pow2Is32()
    ensures Pow2(32) == 0x1_0000_0000
  {
    assert Pow2(2) == 4;
    Pow2Double(2);
    Pow2Double(4);
    Pow2Double(8);
    Pow2Double(16);
  }

  lemma Pow2Double(n: nat)
    ensures Pow2(n + n) == Pow2(n) * Pow2(n)
  {
    ShlShl(1, n, n);
    ShlIsMul(Pow2(n), n);
  }

  lemma {:induction false} ShlIsMul(x: nat, n: nat)
    ensures Shl(x, n) == x * Pow2(n)
  {
    if n > 0 {
      ShlIsMul(x, n - 1);
    }
  }

  lemma {:induction false} ShlShl(x: nat, a: nat, b: nat)
    ensures Shl(Shl(x, a), b) == Shl(x, a + b)
  {
    if b > 0 {
      ShlShl(x, a, b - 1);
    }
  }

  lemma {:induction false} ShlAdd(x: nat, y: nat, n: nat)
    ensures Shl(x + y, n) == Shl(x, n) + Shl(y, n)
  {
    if n > 0 {
      ShlAdd(x, y, n - 1);
    }
  }

  lemma {:induction false} ShlMono(x: nat, y: nat, n: nat)
    requires x <= y
    ensures Shl(x, n) <= Shl(y, n)
  {
    if n > 0 {
      ShlMono(x, y, n - 1);
    }
  }

  lemma {:induction false} ShlZero(n: nat)
    ensures Shl(0, n) == 0
  {
    if n > 0 {
      ShlZero(n - 1);
    }
  }

  lemma {:induction false} Pow2Pos(n: nat)
    ensures Pow2(n) >= 1
  {
    if n > 0 {
      Pow2Pos(n - 1);
    }
  }

  lemma Pow2Le(a: nat, b: nat)
    requires a <= b
    ensures Pow2(a) <= Pow2(b)
  {
    Pow2Pos(b - a);
    ShlMono(1, Pow2(b - a), a);
    ShlShl(1, b - a, a);
  }

  lemma {:induction false} ShrShr(x: nat, a: nat, b: nat)
    ensures Shr(Shr(x, a), b) == Shr(x, a + b)
  {
    if a > 0 {
      ShrShr(x / 2, a - 1, b);
    }
  }

  /** x is its high part shifted back plus its low part. */
  lemma {:induction false} Decompose(x: nat, n: nat)
    ensures x == Shl(Shr(x, n), n) + Low(x, n)
  {
    if n > 0 {
      Decompose(x / 2, n - 1);
      assert Shr(x, n) == Shr(x / 2, n - 1);
    }
  }

  lemma {:induction false} LowBound(x: nat, n: nat)
    ensures Low(x, n) < Pow2(n)
  {
    if n > 0 {
      LowBound(x / 2, n - 1);
    }
  }

  /** Splitting (hi << n) + lo at bit n gives back hi and lo. */
  lemma {:induction false} Compose(hi: nat, lo: nat, n: nat)
    requires lo < Pow2(n)
    ensures Shr(Shl(hi, n) + lo, n) == hi
    ensures Low(Shl(hi, n) + lo, n) == lo
  {
    if n > 0 {
      var x := Shl(hi, n) + lo;
      assert x / 2 == Shl(hi, n - 1) + lo / 2;
      assert x % 2 == lo % 2;
      Compose(hi, lo / 2, n - 1);
    }
  }

  lemma SmallValue(x: nat, n: nat)
    requires x < Pow2(n)
    ensures Shr(x, n) == 0 && Low(x, n) == x
  {
    ShlZero(n);
    Compose(0, x, n);
  }

  /** Concatenating an a-bit and a b-bit value gives an (a+b)-bit value. */
  lemma ConcatBound(hi: nat, lo: nat, a: nat, b: nat)
    requires hi < Pow2(a) && lo < Pow2(b)
    ensures Shl(hi, b) + lo < Pow2(a + b)
  {
    ShlAdd(hi, 1, b);
    ShlMono(hi + 1, Pow2(a), b);
    ShlShl(1, a, b);
  }

  /** A value below 2^(a+b) shifted right by b is below 2^a. */
  lemma ShrBound(x: nat, a: nat, b: nat)
    requires x < Pow2(a + b)
    ensures Shr(x, b) < Pow2(a)
  {
    Decompose(x, b);
    if Shr(x, b) >= Pow2(a) {
      ShlMono(Pow2(a), Shr(x, b), b);
      ShlShl(1, a, b);
    }
  }

  /** The low a+b bits are the next a bits above the low b bits, then the low b bits. */
  lemma {:induction false} LowSplit(y: nat, a: nat, b: nat)
    ensures Low(y, a + b) == Shl(Low(Shr(y, b), a), b) + Low(y, b)
  {
    if b > 0 {
      LowSplit(y / 2, a, b - 1);
      assert Low(y, a + b) == y % 2 + 2 * Low(y / 2, a + b - 1);
    }
  }

  lemma BitOfShr(x: nat, a: nat, j: nat)
    ensures Bit(Shr(x, a), j) == Bit(x, a + j)
  {
    ShrShr(x, a, j);
  }

  /** Keeping the low len bits keeps every bit below len. */
  lemma {:induction false} BitOfLow(x: nat, len: nat, j: nat)
    requires j < len
    ensures Bit(Low(x, len), j) == Bit(x, j)
  {
    if j > 0 {
      BitOfLow(x / 2, len - 1, j - 1);
      assert Low(x, len) / 2 == Low(x / 2, len - 1);
    }
  }

  /** x >> n is twice x >> (n+1), plus bit n. */
  lemma ShrStep(x: nat, n: nat)
    ensures Shr(x, n) == 2 * Shr(x, n + 1) + Bit(x, n)
  {
    ShrShr(x, n, 1);
  }

  /** The top bit of a value below 2^(n+1) is the value shifted right by n. */
  lemma TopBit(x: nat, n: nat)
    requires x < Pow2(n + 1)
    ensures Shr(x, n) == Bit(x, n)
  {
    ShrBound(x, 1, n);
  }

  /** Appending a low part below 2^b leaves the bits from b up unchanged. */
  lemma BitOfConcat(hi: nat, lo: nat, b: nat, j: nat)
    requires lo < Pow2(b)
    ensures Bit(Shl(hi, b) + lo, b + j) == Bit(hi, j)
  {
    Compose(hi, lo, b);
    BitOfShr(Shl(hi, b) + lo, b, j);
  }

  /** The len bits of key k that follow its first d bits, counting down from
      bit 31: the segment that a node at depth d with keylen len must carry
      for k's path to run through it. */
  function Seg(k: nat, d: nat, len: nat): (r: nat)
    requires d + len <= 32
  {
    Low(Shr(k, 32 - d - len), len)
  }

  lemma SegBound(k: nat, d: nat, len: nat)
    requires d + len <= 32
    ensures Seg(k, d, len) < Pow2(len)
  {
    LowBound(Shr(k, 32 - d - len), len);
  }

  /** A segment of a + b bits is its first a bits followed by its last b bits. */
  lemma SegConcat(k: nat, d: nat, a: nat, b: nat)
    requires d + a + b <= 32
    ensures Seg(k, d, a + b) == Shl(Seg(k, d, a), b) + Seg(k, d + a, b)
  {
    var e := 32 - d - a - b;
    LowSplit(Shr(k, e), a, b);
    ShrShr(k, e, b);
  }

  /** The first a bits of an (a+b)-bit segment, and its last b bits. */
  lemma SegPrefix(k: nat, d: nat, a: nat, b: nat)
    requires d + a + b <= 32
    ensures Shr(Seg(k, d, a + b), b) == Seg(k, d, a)
    ensures Low(Seg(k, d, a + b), b) == Seg(k, d + a, b)
  {
    SegConcat(k, d, a, b);
    SegBound(k, d + a, b);
    Compose(Seg(k, d, a), Seg(k, d + a, b), b);
  }

  /** Bit j of a segment is the matching bit of the key. */
  lemma SegBit(k: nat, d: nat, len: nat, j: nat)
    requires d + len <= 32 && j < len
    ensures Bit(Seg(k, d, len), j) == Bit(k, 32 - d - len + j)
  {
    BitOfLow(Shr(k, 32 - d - len), len, j);
    BitOfShr(k, 32 - d - len, j);
  }

  /** The first bit of a segment is key bit 31 - d. */
  lemma SegTopBit(k: nat, d: nat, len: nat)
    requires d + len <= 32 && len >= 1
    ensures Bit(Seg(k, d, len), len - 1) == Bit(k, 31 - d)
  {
    SegBit(k, d, len, len - 1);
  }

  /** x % (1 << n): Low keeps the n low bits of x. */
  lemma {:induction false} LowMod(x: nat, n: nat)
    ensures Pow2(n) > 0 && Low(x, n) == x % Pow2(n)
  {
    if n > 0 {
      LowMod(x / 2, n - 1);
      var p := Pow2(n - 1);
      assert p > 0 && Pow2(n) == 2 * p;
      var y: nat := x / 2;
      var q: nat := y / p;
      var r: nat := y % p;
      assert y == q * p + r && r < p;
      assert x == q * (2 * p) + (2 * r + x % 2);
      ModUnique(x, 2 * p, q, 2 * r + x % 2);
    }
  }

  /** The remainder is the r of any division x = q * d + r with 0 <= r < d. */
  lemma ModUnique(x: nat, d: nat, q: nat, r: nat)
    requires 0 <= r < d && x == q * d + r
    ensures x % d == r
  {
    var q', r' := x / d, x % d;
    assert x == q' * d + r';
    if q > q' {
      MulAtLeast(q - q', d);
    } else if q < q' {
      MulAtLeast(q' - q, d);
    }
  }

  lemma {:induction false} MulAtLeast(a: nat, d: nat)
    requires a >= 1
    ensures a * d >= d
  {
    if a > 1 {
      MulAtLeast(a - 1, d);
      assert a * d == (a - 1) * d + d;
    }
  }

  /** Keys that agree on bits 31..m agree on every segment inside that range. */
  lemma SegAgree(k: nat, k': nat, m: nat, d: nat, len: nat)
    requires d + len <= 32 - m
    requires Shr(k, m) == Shr(k', m)
    ensures Seg(k, d, len) == Seg(k', d, len)
  {
    var b: nat := 32 - d - len - m;
    ShrAgree(k, k', m, b);
    assert m + b == 32 - d - len;
  }

  /** Keys that agree above bit a agree above every higher bit. */
  lemma ShrAgree(k: nat, k': nat, a: nat, b: nat)
    requires Shr(k, a) == Shr(k', a)
    ensures Shr(k, a + b) == Shr(k', a + b)
  {
    ShrShr(k, a, b);
    ShrShr(k', a, b);
  }

  /** Keys agreeing on their first d bits and on the next segment agree on
      their first d + len bits. */
  lemma PrefixExtend(k: nat, k': nat, d: nat, len: nat)
    requires d + len <= 32
    requires Shr(k, 32 - d) == Shr(k', 32 - d)
    requires Seg(k, d, len) == Seg(k', d, len)
    ensures Shr(k, 32 - d - len) == Shr(k', 32 - d - len)
  {
    var e: nat := 32 - d - len;
    assert e + len == 32 - d;
    ShrShr(k, e, len);
    ShrShr(k', e, len);
    Decompose(Shr(k, e), len);
    Decompose(Shr(k', e), len);
  }

  /** Number of leading bits, scanning down from bit len-1, on which x and y
      agree, given that they already agree on every bit from len up. */
  function CommonPrefix(x: nat, y: nat, len: nat): (j: nat)
    requires Shr(x, len) == Shr(y, len)
    ensures j <= len
    ensures Shr(x, len - j) == Shr(y, len - j)
    ensures j < len ==> Bit(x, len - j - 1) != Bit(y, len - j - 1)
  {
    if len == 0 then 0
    else if Bit(x, len - 1) != Bit(y, len - 1) then 0
    else
      ShrStep(x, len - 1);
      ShrStep(y, len - 1);
      1 + CommonPrefix(x, y, len - 1)
  }

  /** The common prefix is the j at which agreement stops. */
  lemma CommonPrefixIs(x: nat, y: nat, len: nat, j: nat)
    requires Shr(x, len) == Shr(y, len)
    requires j <= len && Shr(x, len - j) == Shr(y, len - j)
    requires j < len ==> Bit(x, len - j - 1) != Bit(y, len - j - 1)
    ensures CommonPrefix(x, y, len) == j
  {
    var r := CommonPrefix(x, y, len);
    if r > j {
      ShrAgree(x, y, len - r, r - j - 1);
    } else if r < j {
      ShrAgree(x, y, len - j, j - r - 1);
    }
  }
}
