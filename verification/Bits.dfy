/** Packed bit arrays: the machine words the sources shift and mask, and the bit
    sequences they stand for.

    A word is a natural number.  `word |= 1 << k` is `WithBit(word, k, true)` and
    `word &= ~(1 << k)` is `WithBit(word, k, false)`; `word & (1 << k)` is `Bit(word, k)`.
    Bit 0 is the least significant one. */
module Bits {

  type Byte = n: int | 0 <= n < 0x100
  type Word = n: int | 0 <= n < 0x1_0000_0000

  function Pow2(k: nat): (p: nat)
    ensures p >= 1
    ensures k >= 1 ==> p % 2 == 0
  {
    if k == 0 then 1 else 2 * Pow2(k - 1)
  }

  predicate Bit(n: nat, k: nat) {
    if k == 0 then n % 2 == 1 else Bit(n / 2, k - 1)
  }

  function WithBit(n: nat, k: nat, v: bool): (r: nat) {
    if k == 0 then n / 2 * 2 + (if v then 1 else 0) else n % 2 + 2 * WithBit(n / 2, k - 1, v)
  }

  /** Writing one bit changes that bit only. */
  lemma {:induction false} BitOfWithBit(n: nat, k: nat, v: bool, j: nat)
    ensures Bit(WithBit(n, k, v), j) == if j == k then v else Bit(n, j)
  {
    var w := WithBit(n, k, v);
    if k == 0 {
      assert w / 2 == n / 2 && w % 2 == if v then 1 else 0;
    } else {
      assert w / 2 == WithBit(n / 2, k - 1, v) && w % 2 == n % 2;
      if j > 0 {
        BitOfWithBit(n / 2, k - 1, v, j - 1);
      }
    }
  }

  lemma {:induction false} WithBitBound(n: nat, k: nat, v: bool, w: nat)
    requires k < w && n < Pow2(w)
    ensures WithBit(n, k, v) < Pow2(w)
  {
    if k > 0 {
      WithBitBound(n / 2, k - 1, v, w - 1);
    }
  }

  lemma {:induction false} BitBeyond(n: nat, w: nat, j: nat)
    requires n < Pow2(w) && w <= j
    ensures !Bit(n, j)
  {
    if w > 0 {
      BitBeyond(n / 2, w - 1, j - 1);
    } else if j > 0 {
      BitBeyond(0, 0, j - 1);
    }
  }

  lemma Pow2Constants()
    ensures Pow2(8) == 0x100 && Pow2(16) == 0x1_0000 && Pow2(32) == 0x1_0000_0000
    ensures Pow2(14) == 0x4000 && Pow2(15) == 0x8000
  {
    assert Pow2(4) == 16;
    Pow2Sum(4, 4);
    Pow2Sum(8, 8);
    Pow2Sum(16, 16);
    assert Pow2(16) == 2 * Pow2(15) == 4 * Pow2(14);
  }

  lemma {:induction false} Pow2Sum(a: nat, b: nat)
    ensures Pow2(a + b) == Pow2(a) * Pow2(b)
  {
    if a > 0 {
      var x, y := Pow2(a - 1), Pow2(b);
      assert Pow2(a + b) == 2 * Pow2(a - 1 + b) && Pow2(a) == 2 * x;
      Pow2Sum(a - 1, b);
      hide Pow2;
      MulAssociates(2, x, y);
    }
  }

  lemma {:induction false} Pow2Monotone(a: nat, b: nat)
    requires a <= b
    ensures Pow2(a) <= Pow2(b)
  {
    if a < b {
      Pow2Monotone(a, b - 1);
    }
  }

  /** `n << k`, `n >> k` and `n & ((1 << k) - 1)`, of integers in two's complement. */
  function Shl(n: int, k: nat): int {
    n * Pow2(k)
  }

  function Shr(n: int, k: nat): int {
    n / Pow2(k)
  }

  function Low(n: int, k: nat): nat {
    n % Pow2(k)
  }

  // ----- bit sequences, least significant bit first -----

  function Value(bs: seq<bool>): (v: nat) {
    if bs == [] then 0 else (if bs[0] then 1 else 0) + 2 * Value(bs[1..])
  }

  function ToBits(n: nat, w: nat): (bs: seq<bool>)
    ensures |bs| == w
  {
    if w == 0 then [] else [n % 2 == 1] + ToBits(n / 2, w - 1)
  }

  lemma {:induction false} ToBitsAt(n: nat, w: nat, j: nat)
    requires j < w
    ensures ToBits(n, w)[j] == Bit(n, j)
  {
    if j > 0 {
      ToBitsAt(n / 2, w - 1, j - 1);
    }
  }

  lemma {:induction false} ValueBound(bs: seq<bool>)
    ensures Value(bs) < Pow2(|bs|)
  {
    if bs != [] {
      ValueBound(bs[1..]);
    }
  }

  /** `ToBits` and `Value` undo each other. */
  lemma {:induction false} ValueOfToBits(n: nat, w: nat)
    requires n < Pow2(w)
    ensures Value(ToBits(n, w)) == n
  {
    if w > 0 {
      ValueOfToBits(n / 2, w - 1);
      assert ToBits(n, w)[1..] == ToBits(n / 2, w - 1);
    }
  }

  lemma {:induction false} BitOfValue(bs: seq<bool>, j: nat)
    ensures Bit(Value(bs), j) == (j < |bs| && bs[j])
  {
    if bs == [] {
      BitBeyond(0, 0, j);
    } else {
      assert Value(bs) / 2 == Value(bs[1..]);
      if j > 0 {
        BitOfValue(bs[1..], j - 1);
      }
    }
  }

  lemma {:induction false} ValueConcat(a: seq<bool>, b: seq<bool>)
    ensures Value(a + b) == Value(a) + Shl(Value(b), |a|)
  {
    if a == [] {
      assert a + b == b;
    } else {
      assert (a + b)[1..] == a[1..] + b;
      ValueConcat(a[1..], b);
      assert Pow2(|a|) == 2 * Pow2(|a| - 1);
      MulAssociates(Value(b), Pow2(|a| - 1), 2);
    }
  }

  lemma MulAssociates(a: int, b: int, c: int)
    ensures a * (b * c) == a * b * c
  {}

  /** Masking with `2^m - 1` keeps the first `m` bits. */
  lemma ValueMasked(bs: seq<bool>, m: nat)
    requires m <= |bs|
    ensures Low(Value(bs), m) == Value(bs[..m])
    ensures Shr(Value(bs), m) == Value(bs[m..])
  {
    hide Value, Pow2;
    assert bs == bs[..m] + bs[m..];
    ValueConcat(bs[..m], bs[m..]);
    ValueBound(bs[..m]);
    DivMod(Value(bs[..m]), Value(bs[m..]), Pow2(m));
  }

  lemma DivMod(r: nat, q: nat, d: nat)
    requires r < d
    ensures (r + q * d) % d == r && (r + q * d) / d == q
  {
    QuotientUnique(r + q * d, d, q, r);
  }

  lemma QuotientUnique(n: int, d: nat, q: int, r: nat)
    requires r < d && n == r + q * d
    ensures n % d == r && n / d == q
  {
    var q', r' := n / d, n % d;
    assert q' * d + r' == n;
    assert (q - q') * d == r' - r by {
      assert (q - q') * d == q * d - q' * d;
    }
    assert (q' - q) * d == -((q - q') * d);
    if q - q' >= 1 {
      MulGrows(d, q - q');
    } else if q' - q >= 1 {
      MulGrows(d, q' - q);
    }
  }

  lemma MulGrows(d: nat, k: nat)
    requires k >= 1
    ensures k * d >= d
  {}

  lemma {:induction false} BitOfShr(n: nat, k: nat, j: nat)
    ensures Shr(n, k) >= 0 && Bit(Shr(n, k), j) == Bit(n, k + j)
  {
    if k > 0 {
      BitOfShr(n / 2, k - 1, j);
      HalfFirst(n, Pow2(k - 1));
    }
  }

  lemma HalfFirst(n: nat, d: nat)
    requires d > 0
    ensures n / (2 * d) == n / 2 / d
  {
    var q, r := n / 2 / d, n / 2 % d;
    assert n / 2 == q * d + r;
    assert n == q * (2 * d) + (2 * r + n % 2) by {
      assert q * (2 * d) == 2 * (q * d);
    }
    QuotientUnique(n, 2 * d, q, 2 * r + n % 2);
  }

  /** Bit `k` is the remainder of `n / 2^k` by two. */
  lemma BitMeans(n: nat, k: nat)
    ensures Bit(n, k) <==> n / Pow2(k) % 2 == 1
  {
    BitOfShr(n, k, 0);
  }

  // ----- arrays of bytes and of 32-bit words -----

  function Bits8(s: seq<Byte>): (bs: seq<bool>)
    ensures |bs| == 8 * |s|
    ensures forall i {:trigger bs[i]} :: 0 <= i < |bs| ==> bs[i] == Bit(s[i / 8], i % 8)
  {
    seq(8 * |s|, i requires 0 <= i < 8 * |s| => Bit(s[i / 8], i % 8))
  }

  function Bits32(s: seq<Word>): (bs: seq<bool>)
    ensures |bs| == 32 * |s|
    ensures forall i {:trigger bs[i]} :: 0 <= i < |bs| ==> bs[i] == Bit(s[i / 32], i % 32)
  {
    seq(32 * |s|, i requires 0 <= i < 32 * |s| => Bit(s[i / 32], i % 32))
  }

  /** `if (v) a[i >> 3] |= 1 << (i & 7); else a[i >> 3] &= ~(1 << (i & 7));` */
  method PutBit8(a: array<Byte>, i: nat, v: bool)
    requires i < 8 * a.Length
    modifies a
    ensures Bits8(a[..]) == old(Bits8(a[..]))[i := v]
    ensures forall k :: 0 <= k < a.Length && k != i / 8 ==> a[k] == old(a[k])
  {
    var b := a[i / 8];
    Pow2Constants();
    WithBitBound(b, i % 8, v, 8);
    a[i / 8] := WithBit(b, i % 8, v);
    forall j | 0 <= j < 8 * a.Length
      ensures Bits8(a[..])[j] == if j == i then v else old(Bits8(a[..]))[j]
    {
      BitOfWithBit(b, i % 8, v, j % 8);
    }
  }

  /** `if (v) a[i >> 5] |= 1L << (i & 0x1f); else a[i >> 5] &= ~(1L << (i & 0x1f));` */
  method PutBit32(a: array<Word>, i: nat, v: bool)
    requires i < 32 * a.Length
    modifies a
    ensures Bits32(a[..]) == old(Bits32(a[..]))[i := v]
  {
    var b := a[i / 32];
    Pow2Constants();
    WithBitBound(b, i % 32, v, 32);
    a[i / 32] := WithBit(b, i % 32, v);
    forall j | 0 <= j < 32 * a.Length
      ensures Bits32(a[..])[j] == if j == i then v else old(Bits32(a[..]))[j]
    {
      BitOfWithBit(b, i % 32, v, j % 32);
    }
  }

  /** Overwriting a sequence in place, element by element. */
  function Overwritten<T>(s: seq<T>, from: nat, t: seq<T>): (r: seq<T>)
    requires from + |t| <= |s|
    ensures |r| == |s|
  {
    s[..from] + t + s[from + |t|..]
  }

  lemma OverwriteNothing<T>(s: seq<T>, from: nat)
    requires from <= |s|
    ensures Overwritten(s, from, []) == s
  {}

  lemma OverwrittenAt<T>(s: seq<T>, from: nat, t: seq<T>, i: nat)
    requires from + |t| <= |s| && i < |s|
    ensures Overwritten(s, from, t)[i] == if from <= i < from + |t| then t[i - from] else s[i]
  {}

  lemma OverwrittenPrefix<T>(s: seq<T>, t: seq<T>)
    requires |t| <= |s|
    ensures Overwritten(s, 0, t)[..|t|] == t
  {}

  lemma OverwriteOne<T>(s: seq<T>, from: nat, t: seq<T>, v: T)
    requires from + |t| < |s|
    ensures Overwritten(s, from, t)[from + |t| := v] == Overwritten(s, from, t + [v])
  {}

  lemma OverwriteTwice<T>(s: seq<T>, from: nat, a: seq<T>, b: seq<T>)
    requires from + |a| + |b| <= |s|
    ensures Overwritten(Overwritten(s, from, a), from + |a|, b) == Overwritten(s, from, a + b)
  {}

  /** The bits of one byte, read through the array view. */
  lemma ByteBits(s: seq<Byte>, k: nat)
    requires k < |s|
    ensures Bits8(s)[8 * k..8 * k + 8] == ToBits(s[k], 8)
    ensures Value(Bits8(s)[8 * k..8 * k + 8]) == s[k]
  {
    hide Bit, Value, Pow2, ToBits;
    Pow2Constants();
    ValueOfToBits(s[k], 8);
    forall j | 0 <= j < 8
      ensures Bits8(s)[8 * k..8 * k + 8][j] == ToBits(s[k], 8)[j]
    {
      ToBitsAt(s[k], 8, j);
    }
    assert Bits8(s)[8 * k..8 * k + 8] == ToBits(s[k], 8);
  }
}
