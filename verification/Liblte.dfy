/**
 The simple codec that keeps one bit per byte, and its agreement with the packed cursor.
 */
module Liblte {
  import opened Bits
  import opened BitImage
  import opened BitRefs

  /** `x | y` on unbounded numbers. */
  function BitOr(x: nat, y: nat): nat
    decreases x + y
  {
    if x == 0 && y == 0 then 0
    else 2 * BitOr(x / 2, y / 2) + if x % 2 == 1 || y % 2 == 1 then 1 else 0
  }

  lemma {:induction false} OrZero(x: nat)
    ensures BitOr(x, 0) == x
  {
    if x > 0 {
      OrZero(x / 2);
    }
  }

  /** Setting a bit below all others is addition. */
  lemma {:induction false} OrBelow(a: nat, b: nat, k: nat)
    requires b < 2
    ensures BitOr(Shl(a, k + 1), Shl(b, k)) == Shl(2 * a + b, k)
  {
    if k == 0 {
      assert Shl(a, 1) == 2 * a;
      assert (2 * a) / 2 == a && b / 2 == 0;
      OrZero(a);
      if a == 0 && b == 0 {
      } else {
        assert BitOr(2 * a, b) == 2 * BitOr(a, 0) + b;
      }
    } else {
      OrBelow(a, b, k - 1);
      var x, y := Shl(a, k), Shl(b, k - 1);
      assert Shl(a, k + 1) == 2 * x && Shl(b, k) == 2 * y;
      assert x == 0 && y == 0 ==> BitOr(x, y) == 0;
    }
  }

  /** The bytes hold zeros and ones only. */
  ghost predicate OneBitEach(bits: seq<byte>) {
    forall i | 0 <= i < |bits| :: bits[i] < 2
  }

  /** The bit string an array of single bits stands for. */
  ghost function Flags(bits: seq<byte>): (s: seq<bool>)
    ensures |s| == |bits|
  {
    seq(|bits|, i requires 0 <= i < |bits| => bits[i] == 1)
  }

  /** `liblte_value_2_bits`; the caller's pointer becomes an index. */
  method ValueToBits(value: uint32, bits: array<byte>, at: nat, nBits: nat) returns (next: nat)
    requires nBits <= 32 && at + nBits <= bits.Length
    modifies bits
    ensures next == at + nBits
    ensures OneBitEach(bits[at..next]) && Flags(bits[at..next]) == NatToBits(value, nBits)
    ensures bits[..at] == old(bits[..at]) && bits[next..] == old(bits[next..])
  {
    hide NatToBits;
    for i := 0 to nBits
      invariant forall k | at <= k < at + i :: bits[k] < 2 && (bits[k] == 1) == NatToBits(value, nBits)[k - at]
      invariant forall k | 0 <= k < bits.Length && !(at <= k < at + nBits) :: bits[k] == old(bits[k])
    {
      BitAt(value, nBits, i);
      bits[at + i] := Shr(value, nBits - i - 1) % 2;
    }
    next := at + nBits;
    assert forall j | 0 <= j < nBits :: bits[at..next][j] == bits[at + j];
  }

  lemma BitAt(x: nat, n: nat, i: nat)
    requires i < n
    ensures NatToBits(x, n)[i] == (Shr(x, n - i - 1) % 2 == 1)
  {
    NatToBitsSplit(x, i + 1, n - i - 1);
    var y := Shr(x, n - i - 1);
    assert NatToBits(y, i + 1)[i] == (y % 2 == 1);
  }

  /** `liblte_bits_2_value`, for values that fit the signed shifts it is computed with. */
  method BitsToValue(bits: seq<byte>, at: nat, nBits: nat) returns (value: nat, next: nat)
    requires nBits <= 31 && at + nBits <= |bits| && OneBitEach(bits)
    ensures next == at + nBits
    ensures value == BitsToNat(Flags(bits)[at..at + nBits])
  {
    hide BitsToNat, Shl, BitOr;
    value := 0;
    ghost var s := Flags(bits);
    ZeroRead(nBits);
    assert s[at..at] == [];
    for i := 0 to nBits
      invariant value == Shl(BitsToNat(s[at..at + i]), nBits - i)
    {
      var b := bits[at + i];
      OrBelow(BitsToNat(s[at..at + i]), b, nBits - i - 1);
      NextBit(s, at, at + i);
      value := BitOr(value, Shl(b, nBits - i - 1));
    }
    ShiftByZero(BitsToNat(s[at..at + nBits]));
    next := at + nBits;
  }

  lemma NextBit(s: seq<bool>, a: nat, e: nat)
    requires a <= e < |s|
    ensures BitsToNat(s[a..e + 1]) == 2 * BitsToNat(s[a..e]) + if s[e] then 1 else 0
  {
    assert s[a..e + 1][..e - a] == s[a..e];
  }

  /** `liblte_unpack`: every byte becomes eight single bits. */
  method Unpack(bytes: seq<byte>, bits: array<byte>)
    requires 8 * |bytes| <= bits.Length
    modifies bits
    ensures OneBitEach(bits[..8 * |bytes|]) && Flags(bits[..8 * |bytes|]) == BytesToBits(bytes)
    ensures bits[8 * |bytes|..] == old(bits[8 * |bytes|..])
  {
    hide NatToBits, BytesToBits;
    var p := 0;
    NoBytes();
    for i := 0 to |bytes|
      invariant p == 8 * i
      invariant OneBitEach(bits[..p]) && Flags(bits[..p]) == BytesToBits(bytes[..i])
      invariant bits[8 * |bytes|..] == old(bits[8 * |bytes|..])
    {
      ghost var before := bits[..p];
      p := ValueToBits(bytes[i], bits, p, 8);
      FlagsConcat(before, bits[8 * i..p]);
      assert bits[..p] == before + bits[8 * i..p];
      AppendOctet(bytes, i);
      assert forall j | 8 * |bytes| <= j < bits.Length :: bits[p..][j - p] == bits[j];
    }
    assert bytes[..|bytes|] == bytes;
  }

  lemma NoBytes()
    ensures BytesToBits([]) == []
  {
  }

  lemma FlagsConcat(a: seq<byte>, b: seq<byte>)
    ensures Flags(a + b) == Flags(a) + Flags(b)
    ensures OneBitEach(a) && OneBitEach(b) ==> OneBitEach(a + b)
  {
  }

  /** `liblte_pack`: eight single bits become a byte; a shorter tail is right-aligned in the
      last byte. */
  method Pack(bits: seq<byte>, bytes: array<byte>)
    requires OneBitEach(bits) && CeilDiv(|bits|, 8) <= bytes.Length
    modifies bytes
    ensures var n := |bits| / 8;
            && BytesToBits(bytes[..n]) == Flags(bits)[..8 * n]
            && (|bits| % 8 > 0 ==> bytes[n] == BitsToNat(Flags(bits)[8 * n..]))
    ensures bytes[CeilDiv(|bits|, 8)..] == old(bytes[CeilDiv(|bits|, 8)..])
  {
    hide NatToBits, BytesToBits, BitsToNat, Pow2, Flags;
    Pow2Values();
    var p := 0;
    var n := |bits| / 8;
    ghost var s := Flags(bits);
    NoBytes();
    assert s[0..0] == [];
    for i := 0 to n
      invariant p == 8 * i
      invariant BytesToBits(bytes[..i]) == s[..8 * i]
      invariant bytes[CeilDiv(|bits|, 8)..] == old(bytes[CeilDiv(|bits|, 8)..])
    {
      ghost var before := bytes[..i];
      var x;
      x, p := BitsToValue(bits, p, 8);
      OctetRange(s[8 * i..8 * i + 8]);
      assert s[0..8 * i] == s[..8 * i] && s[0..8 * (i + 1)] == s[..8 * (i + 1)];
      ReadOctet(before, x, s, 0, i);
      bytes[i] := x;
      assert bytes[..i + 1] == before + [x];
    }
    if |bits| % 8 > 0 {
      ghost var before := bytes[..n];
      var x, _ := BitsToValue(bits, p, |bits| % 8);
      assert s[8 * n..8 * n + |bits| % 8] == s[8 * n..];
      TailRange(s[8 * n..]);
      bytes[n] := x;
      assert bytes[..n] == before;
    }
  }

  lemma OctetRange(s: seq<bool>)
    requires |s| == 8
    ensures BitsToNat(s) < 256
  {
    Pow2Values();
  }

  lemma TailRange(s: seq<bool>)
    requires |s| < 8
    ensures BitsToNat(s) < 256
  {
    Pow2Values();
    Pow2Mono(|s|, 8);
  }

  /** Packing undoes unpacking. */
  method UnpackThenPack(bytes: seq<byte>) returns (out: seq<byte>)
    ensures out == bytes
  {
    hide BytesToBits;
    var bits := new byte[8 * |bytes|];
    Unpack(bytes, bits);
    var buffer := new byte[|bytes|];
    assert bits[..8 * |bytes|] == bits[..];
    Pack(bits[..], buffer);
    out := buffer[..];
    assert buffer[..|bytes|] == out;
    assert Flags(bits[..])[..8 * |bytes|] == Flags(bits[..]);
    BytesToBitsInjective(out, bytes);
  }

  /** The packed reader refines the naive one: at every position and for every width up to 31
      bits both read the same number. */
  method ReadBothWays(bytes: seq<byte>, p: nat, n: nat) returns (packed: nat, naive: nat)
    requires n <= 31 && p + n <= 8 * |bytes|
    ensures packed == naive == BitsToNat(BytesToBits(bytes)[p..p + n])
  {
    hide BytesToBits, BitsToNat, Pow2;
    var reader := new CBitRef(bytes);
    reader.ptr, reader.offset := p / 8, p % 8;
    var ok;
    ok, packed := reader.Unpack(32, n);
    var bits := new byte[8 * |bytes|];
    Unpack(bytes, bits);
    assert bits[..8 * |bytes|] == bits[..];
    var next;
    naive, next := BitsToValue(bits[..], p, n);
  }
}
