/**
 Bit strings and the arithmetic of shifts and masks.

 A bit string is a `seq<bool>` with the most significant bit first, the order in
 which the PER codec fills octets. Shifts and masks of the source are written as
 multiplication, division and remainder by powers of two.
 */
module Bits {

  type byte = x: int | 0 <= x < 0x100
  type uint32 = x: int | 0 <= x < 0x1_0000_0000
  type uint64 = x: int | 0 <= x < 0x1_0000_0000_0000_0000

  function Pow2(n: nat): (r: nat)
    ensures r > 0
  {
    if n == 0 then 1 else 2 * Pow2(n - 1)
  }

  function Min(a: int, b: int): (r: int)
    ensures r <= a && r <= b && r in {a, b}
  {
    if a <= b then a else b
  }

  function Max(a: int, b: int): (r: int)
    ensures a <= r && b <= r && r in {a, b}
  {
    if a <= b then b else a
  }

  function CeilDiv(n: nat, d: nat): nat
    requires d > 0
  {
    (n + (d - 1)) / d
  }

  /** `x << k`, `x >> k` and `x & ((1 << k) - 1)` on unbounded numbers. */
  function Shl(x: nat, k: nat): nat {
    if k == 0 then x else 2 * Shl(x, k - 1)
  }

  function Shr(x: nat, k: nat): nat {
    if k == 0 then x else Shr(x / 2, k - 1)
  }

  function Mask(x: nat, k: nat): (r: nat)
    ensures r < Pow2(k)
  {
    if k == 0 then 0 else 2 * Mask(x / 2, k - 1) + x % 2
  }

  /** The low `n` bits of `x`, most significant first. */
  function NatToBits(x: nat, n: nat): (s: seq<bool>)
    ensures |s| == n
  {
    if n == 0 then [] else NatToBits(x / 2, n - 1) + [x % 2 == 1]
  }

  /** The number a bit string denotes. */
  function BitsToNat(s: seq<bool>): (x: nat)
    ensures x < Pow2(|s|)
  {
    if s == [] then 0
    else 2 * BitsToNat(s[..|s| - 1]) + if s[|s| - 1] then 1 else 0
  }

  function Zeros(n: nat): (s: seq<bool>)
    ensures |s| == n
  {
    seq(n, i => false)
  }

  /** Exact `ceil(log2(ra))`: the least width that can tell `ra` values apart. */
  function CeilLog2(ra: nat): (w: nat)
    requires ra >= 1
    ensures ra <= Pow2(w)
    ensures w > 0 ==> Pow2(w - 1) < ra
  {
    if ra == 1 then 0 else 1 + CeilLog2((ra + 1) / 2)
  }

  /** Exact `floor(log2(x) + 1)`: the number of significant bits of `x`. */
  function BitLength(x: nat): (w: nat)
    requires x >= 1
    ensures w >= 1
    ensures Pow2(w - 1) <= x < Pow2(w)
  {
    if x == 1 then 1 else 1 + BitLength(x / 2)
  }

  /** The image of a byte buffer as one bit string. */
  function BytesToBits(bs: seq<byte>): (s: seq<bool>)
    ensures |s| == 8 * |bs|
  {
    seq(8 * |bs|, i requires 0 <= i < 8 * |bs| => NatToBits(bs[i / 8], 8)[i % 8])
  }

  // ------------------------------------------------------------------------
  // Powers of two
  // ------------------------------------------------------------------------

  lemma {:induction false} Pow2Add(a: nat, b: nat)
    ensures Pow2(a + b) == Pow2(a) * Pow2(b)
  {
    if a > 0 {
      Pow2Add(a - 1, b);
    }
  }

  lemma {:induction false} Pow2Mono(a: nat, b: nat)
    requires a <= b
    ensures Pow2(a) <= Pow2(b)
    ensures a < b ==> Pow2(a) < Pow2(b)
    decreases b
  {
    if a < b {
      Pow2Mono(a, b - 1);
    }
  }

  lemma Pow2Values()
    ensures Pow2(1) == 2 && Pow2(2) == 4 && Pow2(3) == 8 && Pow2(4) == 16
    ensures Pow2(5) == 32 && Pow2(6) == 64 && Pow2(7) == 128 && Pow2(8) == 256
    ensures Pow2(14) == 16384 && Pow2(16) == 65536
    ensures Pow2(32) == 0x1_0000_0000 && Pow2(64) == 0x1_0000_0000_0000_0000
  {
    assert Pow2(8) == 256;
    Pow2Add(6, 8);
    Pow2Add(8, 8);
    Pow2Add(16, 16);
    Pow2Add(32, 32);
  }

  // ------------------------------------------------------------------------
  // Shifts and masks
  // ------------------------------------------------------------------------

  lemma DivUnique(x: int, d: int, q: int, r: int)
    requires d > 0 && 0 <= r < d && x == q * d + r
    ensures x / d == q && x % d == r
  {
    var q', r' := x / d, x % d;
    assert x == q' * d + r';
    assert (q - q') * d == r' - r;
    MulBound(q - q', d);
  }

  lemma MulBound(k: int, d: int)
    requires d > 0
    ensures k >= 1 ==> k * d >= d
    ensures k <= -1 ==> k * d <= -d
  {
  }

  lemma ShiftByZero(x: nat)
    ensures Shl(x, 0) == x && Shr(x, 0) == x
  {
  }

  lemma {:induction false} ShlIsMul(x: nat, k: nat)
    ensures Shl(x, k) == x * Pow2(k)
  {
    if k > 0 {
      ShlIsMul(x, k - 1);
    }
  }

  /** A number is its high part shifted back plus its low part. */
  lemma {:induction false} ShrMask(x: nat, k: nat)
    ensures x == Shl(Shr(x, k), k) + Mask(x, k)
  {
    if k > 0 {
      ShrMask(x / 2, k - 1);
    }
  }

  /** `>>` and `&` with a mask are quotient and remainder by a power of two. */
  lemma ShrMaskAreDivMod(x: nat, k: nat)
    ensures x / Pow2(k) == Shr(x, k) && x % Pow2(k) == Mask(x, k)
  {
    ShrMask(x, k);
    ShlIsMul(Shr(x, k), k);
    DivUnique(x, Pow2(k), Shr(x, k), Mask(x, k));
  }

  lemma {:induction false} MaskSmall(x: nat, k: nat)
    requires x < Pow2(k)
    ensures Mask(x, k) == x && Shr(x, k) == 0
  {
    if k > 0 {
      MaskSmall(x / 2, k - 1);
    }
  }

  lemma {:induction false} ShrShl(a: nat, b: nat, k: nat)
    requires b < Pow2(k)
    ensures Shr(Shl(a, k) + b, k) == a && Mask(Shl(a, k) + b, k) == b
  {
    if k > 0 {
      assert (Shl(a, k) + b) / 2 == Shl(a, k - 1) + b / 2;
      ShrShl(a, b / 2, k - 1);
    }
  }

  lemma {:induction false} ShlAdd(a: nat, b: nat, k: nat)
    ensures Shl(a + b, k) == Shl(a, k) + Shl(b, k)
  {
    if k > 0 {
      ShlAdd(a, b, k - 1);
    }
  }

  lemma {:induction false} ShlShl(a: nat, j: nat, k: nat)
    ensures Shl(Shl(a, j), k) == Shl(a, j + k)
  {
    if k > 0 {
      ShlShl(a, j, k - 1);
    }
  }

  lemma {:induction false} ShrBound(x: nat, n: nat, k: nat)
    requires x < Pow2(n + k)
    ensures Shr(x, k) < Pow2(n)
  {
    if k > 0 {
      ShrBound(x / 2, n, k - 1);
    }
  }

  lemma {:induction false} ShlBound(x: nat, n: nat, k: nat)
    requires x < Pow2(n)
    ensures Shl(x, k) < Pow2(n + k)
    ensures Shl(x, k) + Pow2(k) <= Pow2(n + k)
  {
    if k > 0 {
      ShlBound(x, n, k - 1);
    }
  }

  // ------------------------------------------------------------------------
  // Bit strings and numbers
  // ------------------------------------------------------------------------

  lemma {:induction false} NatToBitsSplit(x: nat, n: nat, m: nat)
    ensures NatToBits(x, n + m) == NatToBits(Shr(x, m), n) + NatToBits(x, m)
  {
    if m == 0 {
      assert NatToBits(x, m) == [];
    } else {
      NatToBitsSplit(x / 2, n, m - 1);
    }
  }

  lemma {:induction false} NatToBitsMask(x: nat, n: nat)
    ensures NatToBits(x, n) == NatToBits(Mask(x, n), n)
  {
    if n > 0 {
      NatToBitsMask(x / 2, n - 1);
      assert Mask(x, n) / 2 == Mask(x / 2, n - 1);
    }
  }

  lemma NatToBitsConcat(a: nat, b: nat, n: nat, m: nat)
    requires b < Pow2(m)
    ensures NatToBits(Shl(a, m) + b, n + m) == NatToBits(a, n) + NatToBits(b, m)
  {
    var x := Shl(a, m) + b;
    ShrShl(a, b, m);
    NatToBitsSplit(x, n, m);
    NatToBitsMask(x, m);
  }

  lemma {:induction false} NatToBitsZero(n: nat)
    ensures NatToBits(0, n) == Zeros(n)
  {
    if n > 0 {
      NatToBitsZero(n - 1);
    }
  }

  /** Reading back the bits of a number gives its low bits. */
  lemma {:induction false} BitsOfNat(x: nat, n: nat)
    ensures BitsToNat(NatToBits(x, n)) == Mask(x, n)
  {
    if n > 0 {
      var s := NatToBits(x, n);
      assert s[..|s| - 1] == NatToBits(x / 2, n - 1);
      BitsOfNat(x / 2, n - 1);
    }
  }

  lemma BitsOfSmallNat(x: nat, n: nat)
    requires x < Pow2(n)
    ensures BitsToNat(NatToBits(x, n)) == x
  {
    BitsOfNat(x, n);
    MaskSmall(x, n);
  }

  /** Writing the number of a bit string gives the bit string back. */
  lemma {:induction false} NatOfBits(s: seq<bool>)
    ensures NatToBits(BitsToNat(s), |s|) == s
  {
    if s != [] {
      var h := s[..|s| - 1];
      NatOfBits(h);
      assert BitsToNat(s) / 2 == BitsToNat(h);
      assert s == h + [s[|s| - 1]];
    }
  }

  lemma {:induction false} BitsToNatConcat(a: seq<bool>, b: seq<bool>)
    ensures BitsToNat(a + b) == Shl(BitsToNat(a), |b|) + BitsToNat(b)
  {
    if b == [] {
      assert a + b == a;
    } else {
      var s, h := a + b, b[..|b| - 1];
      assert s[..|s| - 1] == a + h;
      BitsToNatConcat(a, h);
    }
  }

  // ------------------------------------------------------------------------
  // Byte buffers as bit strings
  // ------------------------------------------------------------------------

  lemma ByteOfBits(bs: seq<byte>, k: nat)
    requires k < |bs|
    ensures BytesToBits(bs)[8 * k..8 * k + 8] == NatToBits(bs[k], 8)
  {
    var s := BytesToBits(bs);
    forall j | 0 <= j < 8
      ensures s[8 * k..8 * k + 8][j] == NatToBits(bs[k], 8)[j]
    {
      assert (8 * k + j) / 8 == k && (8 * k + j) % 8 == j;
    }
  }

  lemma BytesToBitsConcat(a: seq<byte>, b: seq<byte>)
    ensures BytesToBits(a + b) == BytesToBits(a) + BytesToBits(b)
  {
    var s, t := BytesToBits(a + b), BytesToBits(a) + BytesToBits(b);
    forall i | 0 <= i < |s|
      ensures s[i] == t[i]
    {
      if i >= 8 * |a| {
        assert i / 8 == |a| + (i - 8 * |a|) / 8 && i % 8 == (i - 8 * |a|) % 8;
      }
    }
  }

  lemma BytesToBitsOne(x: byte)
    ensures BytesToBits([x]) == NatToBits(x, 8)
  {
    ByteOfBits([x], 0);
  }

  lemma BytesToBitsUpdate(bs: seq<byte>, k: nat, x: byte)
    requires k < |bs|
    ensures BytesToBits(bs[k := x])
         == BytesToBits(bs)[..8 * k] + NatToBits(x, 8) + BytesToBits(bs)[8 * k + 8..]
  {
    var s := BytesToBits(bs[k := x]);
    var t := BytesToBits(bs)[..8 * k] + NatToBits(x, 8) + BytesToBits(bs)[8 * k + 8..];
    forall i | 0 <= i < |s|
      ensures s[i] == t[i]
    {
      if 8 * k <= i < 8 * k + 8 {
        assert i / 8 == k && i % 8 == i - 8 * k;
      } else {
        assert i / 8 != k;
      }
    }
  }

  /** A byte buffer is determined by its image. */
  lemma BytesToBitsInjective(a: seq<byte>, b: seq<byte>)
    requires BytesToBits(a) == BytesToBits(b)
    ensures a == b
  {
    assert |a| == |b|;
    forall k | 0 <= k < |a|
      ensures a[k] == b[k]
    {
      ByteOfBits(a, k);
      ByteOfBits(b, k);
      Pow2Values();
      BitsOfSmallNat(a[k], 8);
      BitsOfSmallNat(b[k], 8);
    }
  }
}
