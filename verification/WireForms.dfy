/**
 What goes over the air, read as plain binary numbers. For every element: which values have an
 encoding, and which bits it consists of, without recourse to the encoding functions. The forms
 are those of X.691, except where the codec departs from it.
 */
module WireForms {
  import opened Bits
  import opened Options
  import opened BitImage
  import opened Per
  import opened PerTypes
  import opened Integer
  import opened BitString

  /** `b` is the `n`-bit binary number `x`. */
  ghost predicate IsNumber(b: seq<bool>, x: nat, n: nat) {
    |b| == n && BitsToNat(b) == x
  }

  lemma NumberForm(x: nat, n: nat)
    requires x < Pow2(n)
    ensures IsNumber(NatToBits(x, n), x, n)
  {
    BitsOfSmallNat(x, n);
  }

  lemma PairForm(a: seq<bool>, x: nat, n: nat, b: seq<bool>, y: nat, m: nat)
    requires IsNumber(a, x, n) && IsNumber(b, y, m)
    ensures IsNumber(a + b, Shl(x, m) + y, n + m)
  {
    BitsToNatConcat(a, b);
  }

  // ------------------------------------------------------------------------
  // Constrained whole numbers
  // ------------------------------------------------------------------------

  /** `k` is the least width with room for `ra` values. */
  ghost predicate LeastFor(ra: nat, k: nat) {
    ra <= Pow2(k) && (k > 0 ==> Pow2(k - 1) < ra)
  }

  /** Accepted is exactly what lies within the bounds, but the aligned variant has no room for
      2^56 and more in ranges above 64K. */
  lemma ConstrainedAccepted(al: bool, n: nat, lb: nat, ub: nat, p: nat)
    ensures EncConstrained(al, n, lb, ub, p).Some?
       <==> lb <= n <= ub && (al && ub - lb >= 65536 ==> n - lb < Pow2(56))
  {
    hide NatToBits, Pow2, CeilLog2, Zeros, OctetCount;
    if lb <= n {
      SevenOctets(n - lb);
    }
    Pow2Values();
    Pow2Mono(16, 56);
  }

  lemma SevenOctets(v: nat)
    ensures OctetCount(v) <= 7 <==> v < Pow2(56)
  {
    hide Pow2, BitLength;
    var b := BitLength(Max(v, 1));
    Pow2Mono(0, 56);
    Pow2Zero();
    if b <= 56 {
      Pow2Mono(b, 56);
    } else {
      Pow2Mono(56, b - 1);
    }
  }

  /** Without alignment a constrained number is its distance from the lower bound, in the least
      width that can tell the values of the range apart; a field of 64 bits is left out. */
  lemma ConstrainedForm(n: nat, lb: nat, ub: nat, p: nat)
    requires lb <= n <= ub && lb < ub
    ensures EncConstrained(false, n, lb, ub, p).Some?
    ensures var e := EncConstrained(false, n, lb, ub, p).value;
            if ub - lb < Pow2(63) then IsNumber(e, n - lb, |e|) && LeastFor(ub - lb + 1, |e|) else e == []
  {
    hide NatToBits, BitsToNat, Pow2, CeilLog2;
    var w := CeilLog2(ub - lb + 1);
    if ub - lb < Pow2(63) {
      LeastWidth(ub - lb + 1, 63);
      NumberForm(n - lb, w);
    } else if w < 64 {
      Pow2Mono(w, 63);
      assert false;
    }
  }

  /** With alignment: fewer than 256 values take a bit field of the least width, 256 values one
      octet and up to 64K values two octets from an octet boundary, more the length-prefixed
      form. A single value takes nothing in either variant. */
  lemma AlignedForm(n: nat, lb: nat, ub: nat, p: nat)
    requires lb <= n <= ub && EncConstrained(true, n, lb, ub, p).Some?
    ensures var e, ra := EncConstrained(true, n, lb, ub, p).value, ub - lb + 1;
            && (ra == 1 ==> e == [] && EncConstrained(false, n, lb, ub, p) == Some([]))
            && (2 <= ra < 256 ==> IsNumber(e, n - lb, |e|) && LeastFor(ra, |e|))
            && (ra == 256 ==> BehindPadding(e, p, n - lb, 8))
            && (256 < ra <= 65536 ==> BehindPadding(e, p, n - lb, 16))
            && (ra > 65536 ==> e == EncPrefixed(n - lb, CeilLog2(ra), p))
  {
    hide NatToBits, BitsToNat, Pow2, CeilLog2, Zeros, EncPrefixed;
    var ra := ub - lb + 1;
    if ra >= 2 {
      var w := CeilLog2(ra);
      NumberForm(n - lb, w);
      if 256 <= ra <= 65536 {
        OctetsFor(ra);
        var k := if ra == 256 then 8 else 16;
        Pow2Mono(w, k);
        Padded(p, n - lb, k);
      }
    }
  }

  /** Zeros up to the octet boundary and then the `n`-bit number `x`. */
  ghost predicate BehindPadding(e: seq<bool>, p: nat, x: nat, n: nat) {
    |e| == Pad(p) + n && e[..Pad(p)] == Zeros(Pad(p)) && IsNumber(e[Pad(p)..], x, n)
  }

  lemma Padded(p: nat, x: nat, n: nat)
    requires x < Pow2(n)
    ensures BehindPadding(Zeros(Pad(p)) + NatToBits(x, n), p, x, n)
  {
    hide NatToBits, BitsToNat, Pow2, Zeros, Pad;
    NumberForm(x, n);
    var z, b := Zeros(Pad(p)), NatToBits(x, n);
    assert (z + b)[..|z|] == z && (z + b)[|z|..] == b;
  }

  lemma OctetsFor(ra: nat)
    requires 256 <= ra <= 65536
    ensures 8 * CeilDiv(CeilLog2(ra), 8) == (if ra == 256 then 8 else 16) >= CeilLog2(ra)
  {
    hide Pow2, CeilLog2;
    Pow2Values();
    var w := CeilLog2(ra);
    LeastWidth(ra, 16);
    if ra == 256 {
      LeastWidth(ra, 8);
    }
    if w < 8 {
      Pow2Mono(w, 8);
      assert false;
    } else if w == 8 {
      assert ra == 256;
    }
  }

  /** A field of `w` bits keeps all values below `ra` apart exactly when `ra` is at most 2^w. */
  lemma FieldWidthExactly(ra: nat, w: nat)
    requires ra >= 1
    ensures (forall v: nat | v < ra :: BitsToNat(NatToBits(v, w)) == v) <==> ra <= Pow2(w)
  {
    hide NatToBits, BitsToNat, Pow2, Mask;
    if ra <= Pow2(w) {
      forall v: nat | v < ra
        ensures BitsToNat(NatToBits(v, w)) == v
      {
        BitsOfSmallNat(v, w);
      }
    } else {
      BitsOfNat(Pow2(w), w);
      MaskPow2(w);
    }
  }

  /** The length-prefixed form of a number of `w` bits: the octet count less one in the least
      width for all counts, zeros to the octet boundary, and the number in the fewest octets
      that hold it. */
  lemma PrefixedForm(v: nat, w: nat, p: nat)
    requires 0 < w <= 64 && v < Pow2(w)
    ensures var o, c := OctetCount(v), CountWidth(w);
            && EncPrefixed(v, w, p) == NatToBits(o - 1, c) + Zeros(Pad(p + c)) + NatToBits(v, 8 * o)
            && IsNumber(NatToBits(o - 1, c), o - 1, c) && IsNumber(NatToBits(v, 8 * o), v, 8 * o)
            && LeastFor(CeilDiv(w, 8), c)
            && (o > 1 ==> Pow2(8 * (o - 1)) <= v)
  {
    hide NatToBits, BitsToNat, Pow2, CountWidth;
    CountFits(v, w);
    NumberForm(OctetCount(v) - 1, CountWidth(w));
    NumberForm(v, 8 * OctetCount(v));
    var b := BitLength(Max(v, 1));
    if OctetCount(v) > 1 {
      Pow2Mono(8 * (OctetCount(v) - 1), b - 1);
      assert v >= 1 by { if v == 0 { OneBit(); assert false; } }
    }
  }

  lemma OneBit()
    ensures BitLength(1) == 1
  {
  }

  /** The number that a field of `k` bits at `q` adds to the lower bound, in `width` bits. */
  ghost function Offset(width: nat, lb: nat, s: seq<bool>, q: nat, k: nat): nat
    requires q + k <= |s|
  {
    (lb + BitsToNat(s[q..q + k])) % Pow2(width)
  }

  /** Reading a constrained number on any image, where `w` is the least width for the range and
      `c` the least one for its octet counts: which field is taken for each size of the range,
      that a field wider than the type or beyond the image is refused, and that only the
      unaligned variant looks at the upper bound. */
  lemma ConstrainedReads(width: nat, al: bool, lb: nat, ub: nat, w: nat, c: nat, s: seq<bool>, p: nat)
    requires lb < ub && LeastFor(ub - lb + 1, w) && LeastFor((w + 7) / 8, c)
    ensures var d, ra, q := DecConstrained(width, al, lb, ub, s, p), ub - lb + 1, p + Pad(p);
            if !al then
              if w > width || p + w > |s| || Offset(width, lb, s, p, w) > ub then d.Fail?
              else d == Ok(Offset(width, lb, s, p, w), p + w)
            else if ra < 256 then
              if w > width || p + w > |s| then d.Fail? else d == Ok(Offset(width, lb, s, p, w), p + w)
            else if ra <= 65536 then
              var k := if ra == 256 then 8 else 16;
              if k > width || q + k > |s| then d.Fail? else d == Ok(Offset(width, lb, s, q, k), q + k)
            else if c > 32 || p + c > |s| then d.Fail?
            else
              var k, r := 8 * (BitsToNat(s[p..p + c]) + 1), p + c + Pad(p + c);
              if k > width || r + k > |s| then d.Fail? else d == Ok(Offset(width, lb, s, r, k), r + k)
  {
    hide BitsToNat, Pow2, CeilLog2, Mask, DecPrefixed, CountWidth, Offset, LeastFor, CeilDiv, RoundUp8;
    var ra := ub - lb + 1;
    LeastIs(ra, w);
    WidthPositive(ra, w);
    if !al || ra < 256 {
      OffsetIs(width, lb, s, p, w);
    } else if ra <= 65536 {
      OctetsFor(ra);
      OffsetIs(width, lb, s, p + Pad(p), if ra == 256 then 8 else 16);
    } else {
      PrefixedReads(width, w, c, s, p);
      if p + c <= |s| {
        OffsetIs(width, lb, s, p + c + Pad(p + c), 8 * (BitsToNat(s[p..p + c]) + 1));
      }
    }
  }

  lemma WidthPositive(ra: nat, w: nat)
    requires ra >= 2 && LeastFor(ra, w)
    ensures w > 0
  {
  }

  lemma OffsetIs(width: nat, lb: nat, s: seq<bool>, q: nat, k: nat)
    ensures q + k <= |s| ==> Mask(BitsToNat(s[q..q + k]) + lb, width) == Offset(width, lb, s, q, k)
  {
    hide BitsToNat, Pow2, Mask;
    if q + k <= |s| {
      ShrMaskAreDivMod(BitsToNat(s[q..q + k]) + lb, width);
    }
  }

  lemma PrefixedReads(width: nat, w: nat, c: nat, s: seq<bool>, p: nat)
    requires LeastFor((w + 7) / 8, c)
    ensures w > 0 ==>
              var d := DecPrefixed(width, w, s, p);
              if c > 32 || p + c > |s| then d.Fail?
              else
                var k, r := 8 * (BitsToNat(s[p..p + c]) + 1), p + c + Pad(p + c);
                if k > width || r + k > |s| then d.Fail? else d == Ok(BitsToNat(s[r..r + k]), r + k)
  {
    hide BitsToNat, Pow2, CountWidth;
    if w > 0 {
      CountIs(w, c);
    }
  }

  lemma CountIs(w: nat, c: nat)
    requires w > 0 && LeastFor((w + 7) / 8, c)
    ensures CountWidth(w) == c
  {
    hide Pow2, CountWidth;
    var k := CountWidth(w);
    if k < c {
      Pow2Mono(k, c - 1);
    } else if c < k {
      Pow2Mono(c, k - 1);
    }
  }

  lemma LeastIs(ra: nat, w: nat)
    requires ra >= 1 && LeastFor(ra, w)
    ensures CeilLog2(ra) == w
  {
    hide Pow2, CeilLog2;
    LeastWidth(ra, w);
    if CeilLog2(ra) < w {
      Pow2Mono(CeilLog2(ra), w - 1);
    }
  }

  // ------------------------------------------------------------------------
  // Small numbers, lengths, enumerations, presence flags, octets
  // ------------------------------------------------------------------------

  /** Normally small numbers go up to 63 and take seven bits, the first of them zero. */
  lemma SmallForm(n: nat)
    ensures EncSmall(n).Some? <==> n <= 63
    ensures n <= 63 ==> IsNumber(EncSmall(n).value, n, 7)
  {
    hide NatToBits, BitsToNat, Pow2;
    Pow2Values();
    if n <= 63 {
      NumberForm(n, 7);
    }
  }

  /** Lengths: one octet below 128, two with the top bits `10` below 16K; three with the top bits
      `11` up to 64K in the aligned variant, which goes on from an octet boundary. */
  lemma LengthForm(al: bool, val: nat, p: nat)
    ensures EncLength(al, val, p).Some? <==> val < 16384 || (al && val <= 65536)
    ensures EncLength(al, val, p).Some? ==>
              var e, q := EncLength(al, val, p).value, if al then p else 0;
              && (val < 128 ==> BehindPadding(e, q, val, 8))
              && (128 <= val < 16384 ==> BehindPadding(e, q, 0x8000 + val, 16))
              && (val >= 16384 ==> BehindPadding(e, q, (0xC0 + val / 16384) * 0x1_0000 + val % 16384, 24))
  {
    hide NatToBits, BitsToNat, Pow2, Shl, Zeros, Pad;
    Pow2Values();
    var q := if al then p else 0;
    assert Pad(0) == 0 by { PadOf(0, 0); }
    NoZeros();
    assert [] + EncShortLength(val) == EncShortLength(val);
    if val < 128 {
      Padded(q, val, 8);
    } else if val < 16384 {
      ShlIsMul(2, 14);
      NatToBitsConcat(2, val, 2, 14);
      Padded(q, 0x8000 + val, 16);
    } else if al && val <= 65536 {
      LongLengthNumber(val);
      Padded(q, (0xC0 + val / 16384) * 0x1_0000 + val % 16384, 24);
    }
  }

  lemma LongLengthNumber(val: nat)
    requires 16384 <= val <= 65536
    ensures var x := (0xC0 + val / 16384) * 0x1_0000 + val % 16384;
            && x < Pow2(24)
            && NatToBits(3, 2) + NatToBits(val / 16384, 6) + NatToBits(val % 16384, 16) == NatToBits(x, 24)
  {
    hide NatToBits, Pow2, Shl;
    Pow2Values();
    Pow2Add(8, 16);
    ShlIsMul(3, 6);
    NatToBitsConcat(3, val / 16384, 2, 6);
    ShlIsMul(0xC0 + val / 16384, 16);
    NatToBitsConcat(0xC0 + val / 16384, val % 16384, 8, 16);
  }

  /** Enumerations of `nTypes` values, the last `nExts` of them extensions: encodable is every
      value up to the 64th extension. A value is itself in the least width, one bit wider with
      a zero in front if the type can be extended; an extension value is an octet with the top
      bit set. */
  lemma EnumForm(t: EnumType, e: nat)
    requires t.Valid()
    ensures EncEnum(t, e).Some? <==> e < t.nTypes && (t.hasExt ==> e < t.nTypes - t.nExts + 64)
    ensures EncEnum(t, e).Some? ==>
              var b, root := EncEnum(t, e).value, t.nTypes - t.nExts;
              && (!t.hasExt ==> IsNumber(b, e, |b|) && LeastFor(t.nTypes, |b|))
              && (t.hasExt && e < root ==> |b| > 0 && IsNumber(b, e, |b|) && !b[0] && LeastFor(root, |b| - 1))
              && (t.hasExt && e >= root ==> IsNumber(b, 128 + (e - root), 8))
  {
    hide NatToBits, BitsToNat, Pow2, Shl, CeilLog2;
    Pow2Values();
    if e < t.nTypes {
      var w := CeilLog2(t.Root());
      if e < t.Root() {
        NumberForm(e, w);
        if t.hasExt {
          NumberForm(0, 1);
          PairForm(NatToBits(0, 1), 0, 1, NatToBits(e, w), e, w);
          ShlIsMul(0, w);
          ZeroBit();
        }
      } else {
        SmallForm(e - t.Root());
        if EncEnum(t, e).Some? {
          NumberForm(1, 1);
          PairForm(NatToBits(1, 1), 1, 1, EncSmall(e - t.Root()).value, e - t.Root(), 7);
          ShlIsMul(1, 7);
        }
      }
    }
  }

  lemma ZeroBit()
    ensures NatToBits(0, 1) == [false] && NatToBits(1, 1) == [true]
  {
  }

  /** Presence flags of which the `n`-th is the last one set: `n - 1` in seven bits and the
      flags up to it; there is no encoding for none or for more than 64. */
  lemma FlagsForm(groups: seq<bool>, n: nat)
    requires n <= |groups| && (n > 0 ==> groups[n - 1]) && forall i | n <= i < |groups| :: !groups[i]
    ensures EncFlags(groups).Some? <==> 1 <= n <= 64
    ensures EncFlags(groups).Some? ==>
              var e := EncFlags(groups).value;
              |e| == 7 + n && IsNumber(e[..7], n - 1, 7) && e[7..] == groups[..n]
  {
    hide NatToBits, BitsToNat, Pow2, NofGroups;
    assert NofGroups(groups) == n;
    if 1 <= n <= 64 {
      Pow2Values();
      NumberForm(n - 1, 7);
    }
  }

  /** An octet string is its length and its octets. */
  lemma OctetsForm(al: bool, data: seq<byte>, p: nat)
    ensures EncOctets(al, data, p).Some? <==> EncLength(al, |data|, p).Some?
    ensures EncOctets(al, data, p).Some? ==>
              var e, k := EncOctets(al, data, p).value, |EncLength(al, |data|, p).value|;
              && |e| == k + 8 * |data| && e[..k] == EncLength(al, |data|, p).value
              && forall i | 0 <= i < |data| :: IsNumber(e[k + 8 * i..k + 8 * i + 8], data[i], 8)
  {
    hide NatToBits, BitsToNat, BytesToBits, EncLength, Pow2;
    var len := EncLength(al, |data|, p);
    if len.Some? {
      var b, k := BytesToBits(data), |len.value|;
      var e := len.value + b;
      assert e[..k] == len.value;
      forall i | 0 <= i < |data|
        ensures IsNumber(e[k + 8 * i..k + 8 * i + 8], data[i], 8)
      {
        ByteOfBits(data, i);
        assert e[k + 8 * i..k + 8 * i + 8] == b[8 * i..8 * i + 8];
        Pow2Values();
        NumberForm(data[i], 8);
      }
    }
  }

  // What the readers of these elements make of any image

  /** A number is its first bit and the rest. */
  lemma FirstBit(s: seq<bool>, p: nat, n: nat)
    requires p + 1 + n <= |s|
    ensures BitsToNat(s[p..p + 1 + n]) == (if s[p] then Pow2(n) else 0) + BitsToNat(s[p + 1..p + 1 + n])
  {
    hide BitsToNat, Pow2, Shl;
    BitAt(s, p);
    assert s[p..p + 1 + n] == s[p..p + 1] + s[p + 1..p + 1 + n];
    BitsToNatConcat(s[p..p + 1], s[p + 1..p + 1 + n]);
    ShlIsMul(if s[p] then 1 else 0, n);
  }

  /** Normally small numbers: seven bits with a zero in front. */
  lemma SmallReads(s: seq<bool>, p: nat)
    ensures DecSmall(s, p).Ok? <==> p + 7 <= |s| && !s[p]
    ensures DecSmall(s, p).Ok? ==> DecSmall(s, p) == Ok(BitsToNat(s[p..p + 7]), p + 7)
  {
    hide BitsToNat, Pow2;
    if p < |s| {
      BitAt(s, p);
      if p + 7 <= |s| {
        FirstBit(s, p, 6);
      }
    }
  }

  /** Lengths, in either variant: an octet below 128, or two octets less 8000 hex if the first is
      below 192; the aligned variant looks for them on the next octet boundary. */
  lemma LengthReads(al: bool, s: seq<bool>, p: nat)
    ensures var d, q := DecLength(al, s, p), if al then p + Pad(p) else p;
            if q + 8 > |s| then d.Fail?
            else
              var octet := BitsToNat(s[q..q + 8]);
              if octet < 128 then d == Ok(octet, q + 8)
              else if octet >= 192 || q + 16 > |s| then d.Fail?
              else d == Ok(BitsToNat(s[q..q + 16]) - 0x8000, q + 16)
  {
    hide BitsToNat, Pow2, DecLengthBits, DecLengthOctets;
    var q := if al then p + Pad(p) else p;
    if al {
      LengthOctetsRead(s, q);
    } else {
      LengthBitsRead(s, q);
    }
  }

  lemma LengthOctetsRead(s: seq<bool>, q: nat)
    ensures var d := DecLengthOctets(s, q);
            if q + 8 > |s| then d.Fail?
            else
              var octet := BitsToNat(s[q..q + 8]);
              if octet < 128 then d == Ok(octet, q + 8)
              else if octet >= 192 || q + 16 > |s| then d.Fail?
              else d == Ok(BitsToNat(s[q..q + 16]) - 0x8000, q + 16)
  {
    hide BitsToNat, Pow2, Shl;
    Pow2Values();
    if q + 16 <= |s| {
      assert s[q..q + 16] == s[q..q + 8] + s[q + 8..q + 16];
      BitsToNatConcat(s[q..q + 8], s[q + 8..q + 16]);
      ShlIsMul(BitsToNat(s[q..q + 8]), 8);
    }
  }

  lemma LengthBitsRead(s: seq<bool>, q: nat)
    ensures var d := DecLengthBits(s, q);
            if q + 8 > |s| then d.Fail?
            else
              var octet := BitsToNat(s[q..q + 8]);
              if octet < 128 then d == Ok(octet, q + 8)
              else if octet >= 192 || q + 16 > |s| then d.Fail?
              else d == Ok(BitsToNat(s[q..q + 16]) - 0x8000, q + 16)
  {
    hide BitsToNat, Pow2;
    Pow2Values();
    if q < |s| {
      BitAt(s, q);
      if q + 1 < |s| {
        BitAt(s, q + 1);
      }
    }
    if q + 8 <= |s| {
      FirstBit(s, q, 7);
      FirstBit(s, q + 1, 6);
    }
    if q + 16 <= |s| {
      FirstBit(s, q, 15);
      FirstBit(s, q + 1, 14);
      Pow2Add(1, 14);
    }
  }

  /** Enumerations: a number in the least width that is a value of the type; with an extension
      marker behind a clear bit, or, behind a set bit, a normally small number counted from the
      end of the root in 32 bits. */
  lemma EnumReads(t: EnumType, w: nat, s: seq<bool>, p: nat)
    requires t.Valid() && LeastFor(if t.hasExt then t.nTypes - t.nExts else t.nTypes, w)
    ensures var d, root := DecEnum(t, s, p), t.nTypes - t.nExts;
            if !t.hasExt then
              if p + w <= |s| && BitsToNat(s[p..p + w]) < t.nTypes then d == Ok(BitsToNat(s[p..p + w]), p + w) else d.Fail?
            else if p + 1 + w <= |s| && !s[p] && BitsToNat(s[p + 1..p + 1 + w]) < t.nTypes then
              d == Ok(BitsToNat(s[p + 1..p + 1 + w]), p + 1 + w)
            else if p + 8 <= |s| && s[p] && !s[p + 1] && (root + BitsToNat(s[p + 1..p + 8])) % 0x1_0000_0000 < t.nTypes then
              d == Ok((root + BitsToNat(s[p + 1..p + 8])) % 0x1_0000_0000, p + 8)
            else d.Fail?
  {
    hide BitsToNat, Pow2, CeilLog2, Mask, DecSmall;
    LeastIs(t.Root(), w);
    EnumRead(t, s, p);
    if t.hasExt && p < |s| {
      SmallReads(s, p + 1);
      if DecSmall(s, p + 1).Ok? {
        Pow2Values();
        ShrMaskAreDivMod(t.Root() + DecSmall(s, p + 1).value, 32);
      }
    }
  }

  /** Presence flags: a normally small number `n - 1`, then `n` flags, filled up with clear ones to
      the number of groups that the decoder supports. */
  lemma FlagsReads(supported: nat, s: seq<bool>, p: nat)
    ensures var d := DecFlags(supported, s, p);
            if p + 7 > |s| || s[p] then d.Fail?
            else
              var n := BitsToNat(s[p..p + 7]) + 1;
              && (d.Ok? <==> p + 7 + n <= |s|)
              && (d.Ok? ==> && d.next == p + 7 + n && |d.value| == Max(n, supported)
                            && forall i | 0 <= i < |d.value| :: d.value[i] == (i < n && s[p + 7 + i]))
  {
    hide BitsToNat, DecSmall, Pow2;
    SmallReads(s, p);
  }

  // What is left in the variables when one of these reads fails and nobody looks at the result

  /** The `n` bits from `p` on, with zeros for those behind the end of the image. */
  ghost function Filled(s: seq<bool>, p: nat, n: nat): (b: seq<bool>)
    ensures |b| == n
  {
    seq(n, i requires 0 <= i < n => p + i < |s| && s[p + i])
  }

  /** A read that meets the end of the image leaves the number that zeros behind the end would
      give, and stands at the end. */
  lemma ReadLeaves(s: seq<bool>, p: nat, n: nat)
    requires p <= |s|
    ensures ReadKept(s, p, n) == (BitsToNat(Filled(s, p, n)), Min(p + n, |s|))
  {
    hide BitsToNat;
    if p + n <= |s| {
      assert Filled(s, p, n) == s[p..p + n];
    } else {
      ShortLeaves(s, p, n);
    }
  }

  lemma ShortLeaves(s: seq<bool>, p: nat, n: nat)
    requires p <= |s| < p + n
    ensures ReadShort(s, p, n) == BitsToNat(Filled(s, p, n))
  {
    hide BitsToNat, Pow2, Shl;
    var z := Zeros(n - (|s| - p));
    assert Filled(s, p, n) == s[p..] + z;
    BitsToNatConcat(s[p..], z);
    NatToBitsZero(|z|);
    BitsOfSmallNat(0, |z|);
  }

  /** An enumeration: the number read as far as it goes; behind a set bit the root count is added
      to what is left of the number, which is nothing in the long form. */
  lemma EnumLeaves(t: EnumType, w: nat, s: seq<bool>, p: nat)
    requires t.Valid() && p <= |s| && LeastFor(if t.hasExt then t.nTypes - t.nExts else t.nTypes, w)
    ensures EnumKept(t, s, p) ==
            if !t.hasExt then (BitsToNat(Filled(s, p, w)), Min(p + w, |s|))
            else if p == |s| || !s[p] then (BitsToNat(Filled(s, p + 1, w)), Min(p + 1 + w, |s|))
            else
              var root := t.nTypes - t.nExts;
              if p + 1 < |s| && s[p + 1] then (root, p + 2)
              else ((root + BitsToNat(Filled(s, p + 2, 6))) % 0x1_0000_0000, Min(p + 8, |s|))
  {
    hide BitsToNat, Pow2, CeilLog2, Mask, DecSmall, ReadKept, Filled, SmallKept;
    LeastIs(t.Root(), w);
    if !t.hasExt {
      ReadLeaves(s, p, w);
    } else if p == |s| {
      NothingThere(s, p + 1, w);
    } else if !s[p] {
      ReadLeaves(s, p + 1, w);
    } else {
      SmallLeaves(s, p + 1);
      Pow2Values();
      ShrMaskAreDivMod(SmallKept(s, p + 1).0 + t.Root(), 32);
    }
  }

  lemma NothingThere(s: seq<bool>, p: nat, n: nat)
    requires p >= |s|
    ensures BitsToNat(Filled(s, p, n)) == 0
  {
    hide BitsToNat, Pow2;
    assert Filled(s, p, n) == Zeros(n);
    NatToBitsZero(n);
    BitsOfSmallNat(0, n);
  }

  /** A normally small number: nothing behind the first bit of the long form, otherwise the six
      bits as far as they go. */
  lemma SmallLeaves(s: seq<bool>, p: nat)
    requires p <= |s|
    ensures SmallKept(s, p) ==
            if p < |s| && s[p] then (0, p + 1) else (BitsToNat(Filled(s, p + 1, 6)), Min(p + 7, |s|))
  {
    hide BitsToNat, Pow2, ReadShort, Filled;
    if p < |s| {
      BitAt(s, p);
      ReadLeaves(s, p + 1, 6);
    } else {
      NothingThere(s, p + 1, 6);
    }
  }

  /** A length without alignment: nothing in the form for 16K and more, otherwise the seven or
      fourteen bits as far as they go. With alignment: the first octet less 80 hex where it is
      above, or nothing if there is no whole octet. */
  lemma LengthLeaves(al: bool, s: seq<bool>, p: nat)
    requires p <= |s| && DecLength(al, s, p).Fail?
    ensures LengthKept(al, s, p) ==
            if al then
              var q := p + Pad(p);
              if q + 8 > |s| then (0, |s|)
              else (BitsToNat(s[q..q + 8]) - 128, if BitsToNat(s[q..q + 8]) < 192 then |s| else q + 8)
            else if p < |s| && s[p] then
              if p + 1 < |s| && s[p + 1] then (0, p + 2) else (BitsToNat(Filled(s, p + 2, 14)), |s|)
            else (BitsToNat(Filled(s, p + 1, 7)), |s|)
  {
    hide BitsToNat, Pow2, ReadShort, Filled, DecLengthBits;
    LengthReads(al, s, p);
    if !al {
      if p == |s| {
        NothingThere(s, p + 1, 7);
      } else if s[p] && p + 1 == |s| {
        NothingThere(s, p + 2, 14);
      } else if !(s[p] && s[p + 1]) {
        LengthTooShort(s, p);
        if s[p] {
          ShortLeaves(s, p + 2, 14);
        } else {
          ShortLeaves(s, p + 1, 7);
        }
      }
    }
  }

  /** Presence flags: none behind the first bit of the long form, or where the number of flags is
      cut off; flags that are cut off themselves are taken as far as they go. */
  lemma FlagsLeave(supported: nat, s: seq<bool>, p: nat)
    requires p <= |s| && DecFlags(supported, s, p).Fail?
    ensures var r := FlagsKept(supported, s, p);
            if p < |s| && s[p] then r == Ok(Zeros(supported), p + 1)
            else if p + 7 > |s| then
              if BitsToNat(Filled(s, p + 1, 6)) > supported then r.Fail? else r == Ok(Zeros(supported), |s|)
            else
              && r.Ok? && r.next == |s| && |r.value| == Max(BitsToNat(s[p..p + 7]) + 1, supported)
              && forall i | 0 <= i < |r.value| :: r.value[i] == (p + 7 + i < |s| && s[p + 7 + i])
  {
    hide BitsToNat, DecSmall, Pow2, SmallKept, Filled;
    SmallReads(s, p);
    SmallLeaves(s, p);
    FlagsReads(supported, s, p);
  }

  // ------------------------------------------------------------------------
  // Integers
  // ------------------------------------------------------------------------

  /** A value outside the bounds: a set bit if the type can be extended, otherwise nothing; its
      octet count as a length; and the value in the fewest octets that hold it below a sign
      bit, fewer than eight. The aligned variant has the count on an octet boundary. */
  lemma OutsideForm(t: IntegerType, n: nat, o: nat, al: bool, p: nat)
    requires t.Valid() && !t.Within(n) && n >= 1
    requires o >= 1 && n <= Pow2(8 * o - 1) && (o > 1 ==> Pow2(8 * (o - 1) - 1) < n)
    ensures EncInteger(t, n, al, p).Some? <==> t.hasExt && o < 8
    ensures t.hasExt && o < 8 ==>
              var e, q := EncInteger(t, n, al, p).value, if al then p + 1 else 0;
              && |e| == 1 + Pad(q) + 8 + 8 * o && e[0]
              && BehindPadding(e[1..|e| - 8 * o], q, o, 8)
              && IsNumber(e[|e| - 8 * o..], n, 8 * o)
  {
    hide NatToBits, BitsToNat, Pow2, EncLength, Zeros, OutsideOctets, Pad, CeilLog2, EncConstrained;
    OutsideLeast(n, o);
    LengthForm(al, o, p + 1);
    if t.hasExt && o < 8 {
      var q := if al then p + 1 else 0;
      var len := EncLength(al, o, p + 1).value;
      assert |len| == Pad(q) + 8;
      var pad := if al then Zeros(Pad(p + 1 + |len|)) else [];
      assert pad == [] by { NoPadding(al, p + 1); NoZeros(); }
      ZeroBit();
      Pow2Mono(8 * o - 1, 8 * o);
      NumberForm(n, 8 * o);
      var e, b := EncInteger(t, n, al, p).value, NatToBits(n, 8 * o);
      assert e == [true] + (len + [] + b);
      assert len + [] == len;
      assert e[1..|e| - 8 * o] == len && e[|e| - 8 * o..] == b;
    }
  }

  lemma NoPadding(al: bool, q: nat)
    ensures al ==> Pad(q + Pad(q) + 8) == 0
  {
    PadAfterOctets(q, 1);
  }

  lemma OutsideLeast(n: nat, o: nat)
    requires n >= 1 && o >= 1 && n <= Pow2(8 * o - 1) && (o > 1 ==> Pow2(8 * (o - 1) - 1) < n)
    ensures OutsideOctets(n) == o
  {
    hide Pow2, OutsideOctets;
    var k := OutsideOctets(n);
    if k < o {
      Pow2Mono(8 * k - 1, 8 * (o - 1) - 1);
    } else if o < k {
      Pow2Mono(8 * o - 1, 8 * (k - 1) - 1);
    }
  }

  /** A value within the bounds: a clear bit if the type can be extended, and the constrained
      number; nothing more if there is one value only or the upper bound is the largest value
      of the C++ type. */
  lemma WithinForm(t: IntegerType, n: nat, al: bool, p: nat)
    requires t.Valid() && t.Within(n)
    ensures var k := if t.hasExt then 1 else 0;
            var number := if t.lb == t.ub || t.ub == Pow2(t.width) - 1 then Some([])
                          else EncConstrained(al, n, t.lb, t.ub, p + k);
            var e := EncInteger(t, n, al, p);
            && (e.Some? <==> number.Some?)
            && (e.Some? ==> e.value == (if t.hasExt then [false] else []) + number.value)
  {
    hide NatToBits, Pow2, EncConstrained;
    ZeroBit();
  }

  /** Which integers come back: those within proper bounds that do not take 64 unaligned bits,
      and those outside that fit below the sign bit of the type. */
  lemma ComesBackExactly(t: IntegerType, n: nat, al: bool)
    requires t.Valid() && (t.Within(n) || n >= 1)
    ensures ComesBack(t, n, al) <==>
            if t.Within(n) then t.lb < t.ub < Pow2(t.width) - 1 && (al || t.ub - t.lb < Pow2(63))
            else n <= Pow2(t.width - 1)
  {
    hide Pow2, CeilLog2, OutsideOctets;
    if t.Within(n) {
      if t.lb < t.ub {
        if t.ub - t.lb < Pow2(63) {
          LeastWidth(t.ub - t.lb + 1, 63);
        } else if CeilLog2(t.ub - t.lb + 1) < 64 {
          Pow2Mono(CeilLog2(t.ub - t.lb + 1), 63);
        }
      }
    } else {
      var o := OutsideOctets(n);
      if 8 * o <= t.width {
        Pow2Mono(8 * o - 1, t.width - 1);
      } else {
        Pow2Mono(t.width - 1, 8 * (o - 1) - 1);
      }
    }
  }

  /** Reading an integer on any image: behind a clear bit, or without an extension marker, the
      constrained number, or nothing where the writer writes nothing; behind a set bit a length
      and that many octets, from an octet boundary in the aligned variant, if they fit the type. */
  lemma IntegerReads(t: IntegerType, al: bool, s: seq<bool>, p: nat)
    requires t.Valid()
    ensures var d, k := DecInteger(t, al, s, p), if t.hasExt then 1 else 0;
            if p + k > |s| && t.hasExt then d.Fail?
            else if t.hasExt && s[p] then
              var len := DecLength(al, s, p + 1);
              if len.Fail? then d.Fail?
              else
                var q := if al then len.next + Pad(len.next) else len.next;
                if 8 * len.value > t.width || q + 8 * len.value > |s| then d.Fail?
                else d == Ok(Some(BitsToNat(s[q..q + 8 * len.value])), q + 8 * len.value)
            else if t.lb == t.ub || t.ub == Pow2(t.width) - 1 then d == Ok(None, p + k)
            else
              var n := DecConstrained(t.width, al, t.lb, t.ub, s, p + k);
              d == if n.Ok? then Ok(Some(n.value), n.next) else Fail
  {
    hide BitsToNat, Pow2, DecLength, DecConstrained;
    if p < |s| {
      BitAt(s, p);
    }
  }

  // ------------------------------------------------------------------------
  // Open fields
  // ------------------------------------------------------------------------

  /** An open field of `o` octets: their number as a length, the content, and up to seven zeros. */
  lemma OpenForm(al: bool, content: seq<bool>, o: nat, p: nat)
    requires 8 * o - 8 < |content| <= 8 * o < 8 * 16384
    ensures OpenOctets(content) == o && EncLength(al, o, p).Some?
    ensures OpenBits(al, content, p) == EncLength(al, o, p).value + content + Zeros(8 * o - |content|)
  {
    hide EncLength, Zeros;
    LengthForm(al, o, p);
  }

  // ------------------------------------------------------------------------
  // Bit strings
  // ------------------------------------------------------------------------

  /** What stands in front of the bits of an `n`-bit string: a bit that says whether the length
      is outside the bounds, if the type can be extended; then for a fixed length nothing, for
      an unbounded string or a length outside the bounds a general length without alignment,
      and otherwise the distance from the lower bound, reduced to the least width for `ub - lb`
      values, with zeros up to the octet boundary in the aligned variant. */
  lemma PrefixForm(n: nat, lb: nat, ub: nat, hasExt: bool, al: bool, p: nat)
    ensures EncPrefix(n, lb, ub, hasExt, al, p).Some? <==>
            if lb <= n <= ub then (hasExt ==> ub != 0xFFFF_FFFF) && (ub == 0xFFFF_FFFF && lb != ub ==> n < 16384)
            else hasExt && ub != 0xFFFF_FFFF && n < 16384
    ensures EncPrefix(n, lb, ub, hasExt, al, p).Some? ==>
              var e, k := EncPrefix(n, lb, ub, hasExt, al, p).value, if hasExt then 1 else 0;
              && k <= |e| && (hasExt ==> e[0] == !(lb <= n <= ub))
              && (lb == ub == n ==> |e| == k)
              && (lb != ub == 0xFFFF_FFFF || !(lb <= n <= ub) ==> e[k..] == EncLength(false, n, p + k).value)
              && (ub != 0xFFFF_FFFF && lb <= n <= ub && lb < ub ==> BoundedForm(e[k..], n - lb, ub - lb, al, p + k))
  {
    hide NatToBits, BitsToNat, Pow2, CeilLog2, EncLength, Zeros, Pad, EncPrefix, EncBoundedPrefix, EncAlignedPrefix,
         BoundedForm, BehindPadding;
    PrefixCases(n, lb, ub, hasExt, al, p);
    LengthForm(false, n, p + ExtWidth(hasExt));
    ZeroBit();
    var tail := PrefixTail(n, lb, ub, hasExt, al, p);
    var e := EncPrefix(n, lb, ub, hasExt, al, p);
    if e.Some? {
      var k := ExtWidth(hasExt);
      assert e.value[k..] == tail.value;
      if ub != 0xFFFF_FFFF && lb <= n <= ub && lb < ub {
        BoundedTail(n, lb, ub, al, p + k);
      }
    }
  }

  /** The distance `d` in the least width for `range` values, its upper bits lost, and padding if
      `al`. */
  ghost predicate BoundedForm(b: seq<bool>, d: nat, range: nat, al: bool, p: nat) {
    exists w: nat | w <= |b| ::
      && LeastFor(range, w)
      && IsNumber(b[..w], d % Pow2(w), w)
      && b[w..] == Zeros(if al then Pad(p + w) else 0)
  }

  lemma BoundedTail(n: nat, lb: nat, ub: nat, al: bool, p: nat)
    requires lb <= n <= ub && lb < ub
    ensures BoundedForm(if al then EncAlignedPrefix(n, lb, ub, p) else EncBoundedPrefix(n, lb, ub),
                        n - lb, ub - lb, al, p)
  {
    hide NatToBits, BitsToNat, Pow2, CeilLog2, Zeros, Pad, Mask;
    var w := CeilLog2(ub - lb);
    var number, b := EncBoundedPrefix(n, lb, ub), if al then EncAlignedPrefix(n, lb, ub, p) else EncBoundedPrefix(n, lb, ub);
    BitsOfNat(n - lb, w);
    ShrMaskAreDivMod(n - lb, w);
    NoZeros();
    assert b[..w] == number && b[w..] == Zeros(if al then Pad(p + w) else 0);
  }

  /** A bit string is its prefix and its bits, the most significant one first. In the aligned
      variant a string of a fixed length of at most 16 bits has its bits right behind the
      prefix; the bits of every other one begin on an octet boundary, behind zeros. */
  lemma BitStringForm(lb: nat, ub: nat, hasExt: bool, al: bool, buf: seq<byte>, n: nat, p: nat)
    ensures EncBitString(lb, ub, hasExt, al, buf, n, p).Some? <==> n > 0 && EncPrefix(n, lb, ub, hasExt, al, p).Some?
    ensures EncBitString(lb, ub, hasExt, al, buf, n, p).Some? ==>
              var e, k := EncBitString(lb, ub, hasExt, al, buf, n, p).value, |EncPrefix(n, lb, ub, hasExt, al, p).value|;
              && k + n <= |e| && e[..k] == EncPrefix(n, lb, ub, hasExt, al, p).value
              && IsNumber(e[|e| - n..], LittleEndian(buf) % Pow2(n), n)
              && (if !al || lb == ub <= 16 then |e| == k + n
                  else (p + |e| - n) % 8 == 0 && |e| < k + n + 8 && e[k..|e| - n] == Zeros(|e| - n - k))
  {
    hide NatToBits, BitsToNat, Pow2, EncPrefix, Zeros, LittleEndian, Mask;
    var pre := EncPrefix(n, lb, ub, hasExt, al, p);
    if pre.Some? && n > 0 {
      var x, k := LittleEndian(buf), |pre.value|;
      BitsOfNat(x, n);
      ShrMaskAreDivMod(x, n);
      var pad := if !al || lb == ub <= 16 then [] else Zeros(Pad(p + k));
      var e := EncBitString(lb, ub, hasExt, al, buf, n, p).value;
      assert e == pre.value + (pad + NatToBits(x, n));
      assert e[|e| - n..] == NatToBits(x, n) && e[..k] == pre.value && e[k..|e| - n] == pad;
      assert p + |e| - n == p + k + |pad|;
    }
  }

  /** Which bit strings are sure to be read back: those of a fixed length; within bounds below 64K
      whose distance is no power of two, in the aligned variant with fewer than 256 lengths or
      with a length of whole octets on a boundary; and elsewhere those below 16K bits, in the
      aligned variant with their length on a boundary. */
  lemma ReadableExactly(lb: nat, ub: nat, hasExt: bool, al: bool, n: nat, p: nat)
    ensures var q := if hasExt then p + 1 else p;
            Readable(lb, ub, hasExt, al, n, p) <==>
            if ub == 0xFFFF_FFFF || !(lb <= n <= ub) then n < 16384 && (al ==> q % 8 == 0)
            else lb == ub
                 || (ub < 65536 && !IsPow2(ub - lb)
                     && (al ==> ub - lb < 255 || (q % 8 == 0 && CeilLog2(ub - lb) % 8 == 0)))
  {
    hide CeilLog2, IsPow2;
    if lb < ub {
      PrefixWidths(ub - lb);
    }
  }

  /** A fixed length of at most 16 bits without extension is nothing but its bits. */
  lemma ShortFixedForm(n: nat, al: bool, buf: seq<byte>, p: nat)
    requires 0 < n <= 16
    ensures EncBitString(n, n, false, al, buf, n, p).Some?
    ensures IsNumber(EncBitString(n, n, false, al, buf, n, p).value, LittleEndian(buf) % Pow2(n), n)
  {
    hide EncBitString, EncPrefix, BitsToNat, Pow2, LittleEndian;
    PrefixForm(n, n, n, false, al, p);
    BitStringForm(n, n, false, al, buf, n, p);
    var e := EncBitString(n, n, false, al, buf, n, p).value;
    assert e[|e| - n..] == e;
  }

  /** Reading on any image: behind the prefix lie the bits of the octets, least significant octet
      first, right there for a fixed length of at most 16 bits and without alignment, otherwise
      from the next octet boundary. It fails exactly on more than 64K bits or at the end of the
      image. */
  lemma BitStringReads(lb: nat, ub: nat, hasExt: bool, al: bool, s: seq<bool>, p: nat)
    ensures var d, r := DecPrefix(lb, ub, hasExt, al, s, p), DecBitString(lb, ub, hasExt, al, s, p);
            if d.Fail? then r.Fail?
            else
              var n := d.value;
              var start := if n == 0 || !al || lb == ub <= 16 then d.next else d.next + Pad(d.next);
              && (r.Ok? <==> n <= 65536 && start + n <= |s|)
              && (r.Ok? ==> r.next == start + n && r.value.1 == n
                            && |r.value.0| == CeilDiv(n, 8) && LittleEndian(r.value.0) == BitsToNat(s[start..start + n]))
  {
    hide BitsToNat, DecPrefix, LittleEndian, ToOctets, Pow2;
    var d := DecPrefix(lb, ub, hasExt, al, s, p);
    if d.Ok? && DecBitString(lb, ub, hasExt, al, s, p).Ok? {
      var n := d.value;
      var start := if n > 0 then FieldStart(lb, ub, al, d.next) else d.next;
      Pow2Mono(n, 8 * CeilDiv(n, 8));
      LittleEndianOctets(BitsToNat(s[start..start + n]), CeilDiv(n, 8));
    }
  }

  lemma {:induction false} LittleEndianOctets(x: nat, k: nat)
    requires x < Pow2(8 * k)
    ensures LittleEndian(ToOctets(x, k)) == x
  {
    if k > 0 {
      Pow2Add(8, 8 * (k - 1));
      Pow2Values();
      LittleEndianOctets(x / 256, k - 1);
      assert ToOctets(x, k)[1..] == ToOctets(x / 256, k - 1);
    }
  }

  /** Reading the prefix on any image: behind a set bit, or for an unbounded string, a general
      length with the alignment of the variant; otherwise the fixed length, or the length as a
      constrained number, which for an upper bound of 64K and more is a general length again. */
  lemma PrefixReads(lb: nat, ub: nat, hasExt: bool, al: bool, s: seq<bool>, p: nat)
    ensures var d, q := DecPrefix(lb, ub, hasExt, al, s, p), if hasExt then p + 1 else p;
            if hasExt && p >= |s| then d.Fail?
            else if ub == 0xFFFF_FFFF || (hasExt && s[p]) then d == DecLength(al, s, q)
            else if lb == ub then d == Ok(lb, q)
            else if ub >= 65536 then d == DecLength(al, s, q)
            else d == DecConstrained(32, al, lb, ub, s, q)
  {
    hide BitsToNat, DecLength, DecConstrained;
    if p < |s| {
      BitAt(s, p);
    }
  }
}
