/**
 The packed encoding rules of the codec as functions on bit strings: for every element the
 bits that the encoder writes at a given position (`Enc...`), and what the decoder makes of
 an image at a given position (`Dec...`). The position matters because the aligned variant
 pads to octet boundaries. Round trips are proved here; `PerCodec` shows that the
 imperative encoders and decoders compute these functions.
 */
module Per {
  import opened Bits
  import opened Options
  import opened BitImage

  const ASN_16K := 16384
  const ASN_64K := 65536

  /** Result of a decoder: a value and the position behind it. */
  datatype Parsed<+T> = Fail | Ok(value: T, next: nat) {
    predicate IsFailure() { Fail? }
    function PropagateFailure<U>(): Parsed<U> requires Fail? { Fail }
    function Extract(): (T, nat) requires Ok? { (value, next) }
  }

  /** The image holds the bits `b` at position `p`. */
  ghost predicate At(s: seq<bool>, p: nat, b: seq<bool>) {
    p + |b| <= |s| && s[p..p + |b|] == b
  }

  lemma AtSplit(s: seq<bool>, p: nat, a: seq<bool>, b: seq<bool>)
    requires At(s, p, a + b)
    ensures At(s, p, a) && At(s, p + |a|, b)
  {
    var t := s[p..p + |a + b|];
    assert s[p..p + |a|] == t[..|a|];
    assert s[p + |a|..p + |a| + |b|] == t[|a|..];
  }

  /** Reads an `n`-bit number into a variable of `width` bits. */
  function ReadNat(s: seq<bool>, p: nat, width: nat, n: nat): Parsed<nat> {
    if n > width || p + n > |s| then Fail else Ok(BitsToNat(s[p..p + n]), p + n)
  }

  /** The number and the position after a read of a field, whether it succeeded or not. */
  function ReadKept(s: seq<bool>, p: nat, n: nat): (nat, nat) {
    if p + n <= |s| then (BitsToNat(s[p..p + n]), p + n)
    else if p <= |s| then (ReadShort(s, p, n), |s|)
    else (0, |s|)
  }

  lemma ReadBack(s: seq<bool>, p: nat, width: nat, v: nat, n: nat)
    requires v < Pow2(n) && n <= width && At(s, p, NatToBits(v, n))
    ensures ReadNat(s, p, width, n) == Ok(v, p + n)
  {
    BitsOfSmallNat(v, n);
  }

  // ------------------------------------------------------------------------
  // Constrained whole numbers (X.691, section 10.5)
  // ------------------------------------------------------------------------

  /** Octets of the length-prefixed form of `v`. */
  function OctetCount(v: nat): (r: nat)
    ensures r >= 1
  {
    CeilDiv(BitLength(Max(v, 1)), 8)
  }

  /** Width of the octet count that precedes the length-prefixed form: the least one that tells
      apart the counts a number of `w` bits can have. */
  function CountWidth(w: nat): (c: nat)
    requires w > 0
    ensures CeilDiv(w, 8) <= Pow2(c)
    ensures c > 0 ==> Pow2(c - 1) < CeilDiv(w, 8)
  {
    CeilLog2(CeilDiv(w, 8))
  }

  function EncConstrained(al: bool, n: nat, lb: nat, ub: nat, p: nat): Option<seq<bool>> {
    if ub < lb || n < lb || n > ub then None
    else if lb == ub then Some([])
    else
      var ra := ub - lb + 1;
      var w := CeilLog2(ra);
      if !al then Some(if w < 64 then NatToBits(n - lb, w) else [])
      else if ra < 256 then Some(NatToBits(n - lb, w))
      else if ra <= ASN_64K then Some(Zeros(Pad(p)) + NatToBits(n - lb, 8 * CeilDiv(w, 8)))
      else if OctetCount(n - lb) >= 8 then None
      else Some(EncPrefixed(n - lb, w, p))
  }

  /** A count of `o` octets in `c` bits, then the octets of `v` from the next boundary. */
  function EncCounted(v: nat, o: nat, c: nat, p: nat): seq<bool>
    requires o > 0
  {
    NatToBits(o - 1, c) + Zeros(Pad(p + c)) + NatToBits(v, 8 * o)
  }

  function EncPrefixed(v: nat, w: nat, p: nat): seq<bool>
    requires w > 0
  {
    EncCounted(v, OctetCount(v), CountWidth(w), p)
  }

  /** `width` is the size of the integer type; the final addition wraps in it. */
  function DecConstrained(width: nat, al: bool, lb: nat, ub: nat, s: seq<bool>, p: nat): Parsed<nat> {
    if ub < lb then Fail
    else if lb == ub then Ok(lb, p)
    else
      var ra := ub - lb + 1;
      var w := CeilLog2(ra);
      if !al then
        var (v, q) :- ReadNat(s, p, width, w);
        var n := Mask(v + lb, width);
        if n > ub then Fail else Ok(n, q)
      else
        var (v, q) :-
          if ra < 256 then ReadNat(s, p, width, w)
          else if ra <= ASN_64K then ReadNat(s, RoundUp8(p), width, 8 * CeilDiv(w, 8))
          else DecPrefixed(width, w, s, p);
        Ok(Mask(v + lb, width), q)
  }

  function DecPrefixed(width: nat, w: nat, s: seq<bool>, p: nat): Parsed<nat>
    requires w > 0
  {
    var (c, q) :- ReadNat(s, p, 32, CountWidth(w));
    ReadNat(s, RoundUp8(q), width, 8 * (c + 1))
  }

  /** The octet count minus one always fits the bits reserved for it. */
  lemma CountFits(v: nat, w: nat)
    requires w > 0 && v < Pow2(w)
    ensures OctetCount(v) <= CeilDiv(w, 8)
    ensures OctetCount(v) - 1 < Pow2(CountWidth(w))
    ensures v < Pow2(8 * OctetCount(v))
    ensures w <= 64 ==> CountWidth(w) <= 3
  {
    var x := Max(v, 1);
    var b := BitLength(x);
    if b > w {
      Pow2Mono(w, b - 1);
      assert false;
    }
    Pow2Mono(b, 8 * CeilDiv(b, 8));
    CountWidthSmall(w);
  }

  lemma CountWidthSmall(w: nat)
    requires w > 0
    ensures w <= 64 ==> CountWidth(w) <= 3
  {
    if w <= 64 && CountWidth(w) > 3 {
      Pow2Mono(3, CountWidth(w) - 1);
      Pow2Values();
      assert false;
    }
  }

  lemma CountedRoundTrip(width: nat, v: nat, o: nat, w: nat, s: seq<bool>, p: nat)
    requires 0 < w <= 64 && 0 < o <= Pow2(CountWidth(w)) && 8 * o <= width && v < Pow2(8 * o)
    requires At(s, p, EncCounted(v, o, CountWidth(w), p))
    ensures DecPrefixed(width, w, s, p) == Ok(v, p + |EncCounted(v, o, CountWidth(w), p)|)
  {
    hide NatToBits, CountWidth, Pow2, BitsToNat, Zeros, RoundUp8;
    CountWidthSmall(w);
    var c := CountWidth(w);
    var head, pad, body := NatToBits(o - 1, c), Zeros(Pad(p + c)), NatToBits(v, 8 * o);
    AtSplit(s, p, head + pad, body);
    AtSplit(s, p, head, pad);
    ReadBack(s, p, 32, o - 1, c);
    ReadBack(s, RoundUp8(p + c), width, v, 8 * o);
  }

  /** What the encoder writes for a number in range, the decoder reads back, and both stop at
      the same position, except in an unaligned field of 64 bits: there the encoder writes
      nothing and reports success. */
  lemma ConstrainedRoundTripExactly(width: nat, al: bool, n: nat, lb: nat, ub: nat, s: seq<bool>, p: nat)
    requires width <= 64 && width % 8 == 0 && ub < Pow2(width)
    requires EncConstrained(al, n, lb, ub, p).Some?
    requires At(s, p, EncConstrained(al, n, lb, ub, p).value)
    ensures DecConstrained(width, al, lb, ub, s, p) == Ok(n, p + |EncConstrained(al, n, lb, ub, p).value|)
       <==> al || lb == ub || CeilLog2(ub - lb + 1) < 64
  {
    hide NatToBits, CeilLog2, Pow2, BitsToNat, Mask, Zeros, RoundUp8, CeilDiv, EncPrefixed, DecPrefixed;
    if lb < ub {
      var ra, v := ub - lb + 1, n - lb;
      var w := CeilLog2(ra);
      WidthFits(ra, width);
      MaskSmall(n, width);
      if !al {
        if w < 64 {
          ReadBack(s, p, width, v, w);
        }
      } else if ra < 256 {
        ReadBack(s, p, width, v, w);
      } else if ra <= ASN_64K {
        OctetsRoundTrip(width, v, w, s, p);
      } else {
        PrefixedRoundTrip(width, v, w, s, p);
      }
    }
  }

  lemma OctetsRoundTrip(width: nat, v: nat, w: nat, s: seq<bool>, p: nat)
    requires 0 < w <= width && width % 8 == 0 && v < Pow2(w)
    requires At(s, p, Zeros(Pad(p)) + NatToBits(v, 8 * CeilDiv(w, 8)))
    ensures ReadNat(s, RoundUp8(p), width, 8 * CeilDiv(w, 8)) == Ok(v, RoundUp8(p) + 8 * CeilDiv(w, 8))
  {
    hide NatToBits, Pow2, BitsToNat, Zeros, RoundUp8;
    var k := 8 * CeilDiv(w, 8);
    Pow2Mono(w, k);
    AtSplit(s, p, Zeros(Pad(p)), NatToBits(v, k));
    ReadBack(s, RoundUp8(p), width, v, k);
  }

  lemma PrefixedRoundTrip(width: nat, v: nat, w: nat, s: seq<bool>, p: nat)
    requires 0 < w <= width <= 64 && width % 8 == 0 && v < Pow2(w)
    requires At(s, p, EncPrefixed(v, w, p))
    ensures DecPrefixed(width, w, s, p) == Ok(v, p + |EncPrefixed(v, w, p)|)
  {
    hide OctetCount, CountWidth, Pow2, EncCounted, DecPrefixed;
    CountFits(v, w);
    CountedRoundTrip(width, v, OctetCount(v), w, s, p);
  }

  lemma WidthFits(ra: nat, width: nat)
    requires 2 <= ra <= Pow2(width)
    ensures 0 < CeilLog2(ra) <= width
  {
    hide Pow2;
    var w := CeilLog2(ra);
    if w > width {
      Pow2Mono(width, w - 1);
      assert false;
    }
    Pow2Mono(0, width);
    assert Pow2(0) == 1 by { Pow2Zero(); }
  }

  lemma Pow2Zero()
    ensures Pow2(0) == 1
  {
  }

  /** Every unaligned decode that succeeds is within the bounds. */
  ghost predicate UnalignedDecodesInRange(width: nat, lb: nat, ub: nat) {
    forall s: seq<bool>, p: nat ::
      var r := DecConstrained(width, false, lb, ub, s, p);
      r.Ok? ==> lb <= r.value <= ub
  }

  /** The unaligned decoder checks only the upper bound, after an addition that wraps: its
      results are in range exactly when no field value can wrap. */
  lemma UnalignedRange(width: nat, lb: nat, ub: nat)
    requires lb < ub < Pow2(width)
    ensures UnalignedDecodesInRange(width, lb, ub)
       <==> lb + Pow2(CeilLog2(ub - lb + 1)) <= Pow2(width)
  {
    hide NatToBits, CeilLog2, Pow2, BitsToNat, Mask;
    var w := CeilLog2(ub - lb + 1);
    WidthFits(ub - lb + 1, width);
    if lb + Pow2(w) <= Pow2(width) {
      forall s: seq<bool>, p: nat | DecConstrained(width, false, lb, ub, s, p).Ok?
        ensures lb <= DecConstrained(width, false, lb, ub, s, p).value <= ub
      {
        MaskSmall(BitsToNat(s[p..p + w]) + lb, width);
      }
    } else {
      var v := Pow2(width) - lb;
      var s := NatToBits(v, w);
      assert s[0..0 + |s|] == s;
      ReadBack(s, 0, width, v, w);
      MaskPow2(width);
      assert DecConstrained(width, false, lb, ub, s, 0) == Ok(0, w);
      Pow2Mono(w, width);
    }
  }

  lemma {:induction false} MaskPow2(k: nat)
    ensures Mask(Pow2(k), k) == 0
  {
    if k > 0 {
      MaskPow2(k - 1);
    }
  }

  /** The most bits the aligned decoder takes for the number itself. */
  function FieldBits(width: nat, ra: nat): nat
    requires ra >= 2
  {
    var w := CeilLog2(ra);
    if ra < 256 then w
    else if ra <= ASN_64K then 8 * CeilDiv(w, 8)
    else 8 * Min(Pow2(CountWidth(Max(w, 1))), width / 8)
  }

  ghost predicate AlignedDecodesInRange(width: nat, lb: nat, ub: nat) {
    forall s: seq<bool>, p: nat ::
      var r := DecConstrained(width, true, lb, ub, s, p);
      r.Ok? ==> lb <= r.value <= ub
  }

  /** The aligned decoder checks no bound: its results are in range exactly when the range
      fills the field. */
  lemma AlignedRange(width: nat, lb: nat, ub: nat)
    requires width <= 64 && width % 8 == 0 && lb < ub < Pow2(width)
    ensures AlignedDecodesInRange(width, lb, ub)
       <==> ub - lb + 1 == Pow2(FieldBits(width, ub - lb + 1))
  {
    hide *;
    var ra := ub - lb + 1;
    FieldCovers(width, ra);
    if ra == Pow2(FieldBits(width, ra)) {
      forall s: seq<bool>, p: nat | DecConstrained(width, true, lb, ub, s, p).Ok?
        ensures lb <= DecConstrained(width, true, lb, ub, s, p).value <= ub
      {
        var v := AlignedRaw(width, lb, ub, s, p);
        MaskSmall(v + lb, width);
      }
      InRangeHolds(width, lb, ub);
    } else {
      var s := AlignedWitness(width, lb, ub);
      var n := Mask(ub + 1, width);
      if ub + 1 == Pow2(width) {
        MaskPow2(width);
      } else {
        MaskSmall(ub + 1, width);
      }
      InRangeFails(width, lb, ub, s);
    }
  }

  lemma InRangeHolds(width: nat, lb: nat, ub: nat)
    requires forall s: seq<bool>, p: nat | DecConstrained(width, true, lb, ub, s, p).Ok? ::
               lb <= DecConstrained(width, true, lb, ub, s, p).value <= ub
    ensures AlignedDecodesInRange(width, lb, ub)
  {
  }

  lemma InRangeFails(width: nat, lb: nat, ub: nat, s: seq<bool>)
    requires DecConstrained(width, true, lb, ub, s, 0).Ok?
    requires !(lb <= DecConstrained(width, true, lb, ub, s, 0).value <= ub)
    ensures !AlignedDecodesInRange(width, lb, ub)
  {
  }

  lemma FieldCovers(width: nat, ra: nat)
    requires width <= 64 && width % 8 == 0 && 2 <= ra <= Pow2(width)
    ensures 0 < CeilLog2(ra) <= FieldBits(width, ra) <= width
    ensures ra <= Pow2(FieldBits(width, ra)) <= Pow2(width)
  {
    hide Pow2, CountWidth;
    WidthFits(ra, width);
    var w := CeilLog2(ra);
    Pow2Mono(w, FieldBits(width, ra));
    Pow2Mono(FieldBits(width, ra), width);
  }

  /** An aligned decode adds the lower bound to some field value. */
  lemma AlignedRaw(width: nat, lb: nat, ub: nat, s: seq<bool>, p: nat) returns (v: nat)
    requires width <= 64 && width % 8 == 0 && lb < ub < Pow2(width)
    requires DecConstrained(width, true, lb, ub, s, p).Ok?
    ensures v < Pow2(FieldBits(width, ub - lb + 1))
    ensures DecConstrained(width, true, lb, ub, s, p).value == Mask(v + lb, width)
  {
    hide NatToBits, CeilLog2, Pow2, BitsToNat, Mask, Zeros, RoundUp8, CountWidth;
    var ra := ub - lb + 1;
    var w := CeilLog2(ra);
    FieldCovers(width, ra);
    if ra < 256 {
      v := ReadNat(s, p, width, w).value;
    } else if ra <= ASN_64K {
      v := ReadNat(s, RoundUp8(p), width, 8 * CeilDiv(w, 8)).value;
    } else {
      var c := ReadNat(s, p, 32, CountWidth(w));
      v := DecPrefixed(width, w, s, p).value;
      Pow2Mono(8 * (c.value + 1), FieldBits(width, ra));
    }
  }

  /** If the range does not fill the field, an image decodes to the value past the range. */
  lemma AlignedWitness(width: nat, lb: nat, ub: nat) returns (s: seq<bool>)
    requires width <= 64 && width % 8 == 0 && lb < ub < Pow2(width)
    requires ub - lb + 1 != Pow2(FieldBits(width, ub - lb + 1))
    ensures DecConstrained(width, true, lb, ub, s, 0).Ok?
    ensures DecConstrained(width, true, lb, ub, s, 0).value == Mask(ub + 1, width)
  {
    hide NatToBits, CeilLog2, Pow2, BitsToNat, Mask, Zeros, CountWidth, DecPrefixed;
    var ra := ub - lb + 1;
    var w, k := CeilLog2(ra), FieldBits(width, ra);
    FieldCovers(width, ra);
    if ra <= ASN_64K {
      s := NatToBits(ra, k);
      assert s[0..0 + |s|] == s;
      ReadBack(s, 0, width, ra, k);
    } else {
      s := EncCounted(ra, k / 8, CountWidth(w), 0);
      assert s[0..0 + |s|] == s;
      CountedRoundTrip(width, ra, k / 8, w, s, 0);
    }
  }

  // ------------------------------------------------------------------------
  // Normally small numbers (X.691, section 10.6)
  // ------------------------------------------------------------------------

  function EncSmall(n: nat): Option<seq<bool>> {
    if n <= 63 then Some(NatToBits(n, 7)) else None
  }

  function DecSmall(s: seq<bool>, p: nat): (r: Parsed<nat>)
    ensures r.Ok? ==> r.value < 64
  {
    Pow2Values();
    var (ext, q) :- ReadNat(s, p, 8, 1);
    if ext == 0 then ReadNat(s, q, 32, 6) else Fail
  }

  /** What a read that fails leaves in a variable that was zero, and where: nothing behind the
      flag of the long form; otherwise the bits up to the end of the image. */
  function SmallCutOff(s: seq<bool>, p: nat): (nat, nat)
    requires DecSmall(s, p).Fail?
  {
    if p >= |s| then (0, |s|)
    else if s[p] then (0, p + 1)
    else
      SmallTooShort(s, p);
      (ReadShort(s, p + 1, 6), |s|)
  }

  /** The number and the position after a read, whether it succeeded or not. */
  function SmallKept(s: seq<bool>, p: nat): (nat, nat) {
    var r := DecSmall(s, p);
    if r.Ok? then (r.value, r.next) else SmallCutOff(s, p)
  }

  lemma SmallTooShort(s: seq<bool>, p: nat)
    requires p < |s| && DecSmall(s, p).Fail? && !s[p]
    ensures |s| < p + 7
  {
    BitAt(s, p);
  }

  /** A read of one bit. */
  lemma BitAt(s: seq<bool>, p: nat)
    requires p < |s|
    ensures ReadNat(s, p, 8, 1) == Ok(if s[p] then 1 else 0, p + 1)
  {
    assert s[p..p + 1] == [s[p]];
    assert BitsToNat([s[p]]) == if s[p] then 1 else 0;
  }

  /** A number with a clear top bit is a zero flag and the number in one bit less. */
  lemma ZeroFlag(v: nat, n: nat)
    requires v < Pow2(n)
    ensures NatToBits(v, n + 1) == NatToBits(0, 1) + NatToBits(v, n)
  {
    NatToBitsSplit(v, 1, n);
    MaskSmall(v, n);
  }

  lemma SmallRoundTrip(n: nat, s: seq<bool>, p: nat)
    requires EncSmall(n).Some? && At(s, p, EncSmall(n).value)
    ensures DecSmall(s, p) == Ok(n, p + 7)
  {
    hide NatToBits, BitsToNat, Pow2;
    Pow2Values();
    ZeroFlag(n, 6);
    AtSplit(s, p, NatToBits(0, 1), NatToBits(n, 6));
    ReadBack(s, p, 8, 0, 1);
    ReadBack(s, p + 1, 32, n, 6);
  }

  // ------------------------------------------------------------------------
  // Length determinants (X.691, section 10.9)
  // ------------------------------------------------------------------------

  /** Lengths below 16K: one octet, or two with a leading `10`. */
  function EncShortLength(val: nat): seq<bool> {
    if val < 128 then NatToBits(val, 8) else NatToBits(2, 2) + NatToBits(val, 14)
  }

  function EncLength(al: bool, val: nat, p: nat): Option<seq<bool>> {
    if !al then
      if val < ASN_16K then Some(EncShortLength(val)) else None
    else if val > ASN_64K then None
    else
      Some(Zeros(Pad(p)) +
           if val < ASN_16K then EncShortLength(val)
           else NatToBits(3, 2) + NatToBits(val / ASN_16K, 6) + NatToBits(val % ASN_16K, 16))
  }

  function DecLength(al: bool, s: seq<bool>, p: nat): Parsed<nat> {
    if !al then DecLengthBits(s, p) else DecLengthOctets(s, RoundUp8(p))
  }

  /** The unaligned reader tests the two leading bits one by one. */
  function DecLengthBits(s: seq<bool>, p: nat): Parsed<nat> {
    var (ext, q) :- ReadNat(s, p, 8, 1);
    if ext == 0 then ReadNat(s, q, 32, 7)
    else
      var (ext2, r) :- ReadNat(s, q, 8, 1);
      if ext2 == 0 then ReadNat(s, r, 32, 14) else Fail
  }

  /** The aligned reader takes whole octets and compares them. */
  function DecLengthOctets(s: seq<bool>, p: nat): Parsed<nat> {
    var (v, q) :- ReadNat(s, p, 32, 8);
    if v < 128 then Ok(v, q)
    else if v - 128 < 64 then
      var (low, r) :- ReadNat(s, q, 32, 8);
      Ok((v - 128) * 256 + low, r)
    else Fail
  }

  /** The length and the position that remain after a read, also after one that fails: there
      the variable, zero before, holds what had been read up to the end of the image, or the
      number of the refused form. */
  function LengthKept(al: bool, s: seq<bool>, p: nat): (r: (nat, nat))
    ensures var d := DecLength(al, s, p);
            d.Ok? ==> r == (d.value, d.next)
  {
    var d := DecLength(al, s, p);
    if d.Ok? then (d.value, d.next)
    else if al then
      var q := RoundUp8(p);
      if q + 8 > |s| then (0, |s|)
      else
        var v := BitsToNat(s[q..q + 8]);
        (v - 128, if v < 192 then |s| else q + 8)
    else if p >= |s| || (s[p] && p + 1 == |s|) then (0, |s|)
    else if s[p] && s[p + 1] then (0, p + 2)
    else
      LengthTooShort(s, p);
      (if s[p] then ReadShort(s, p + 2, 14) else ReadShort(s, p + 1, 7), |s|)
  }

  lemma LengthTooShort(s: seq<bool>, p: nat)
    requires p < |s| && DecLengthBits(s, p).Fail?
    requires s[p] ==> p + 1 < |s| && !s[p + 1]
    ensures |s| < p + if s[p] then 16 else 8
  {
    BitAt(s, p);
    if s[p] {
      BitAt(s, p + 1);
    }
  }

  lemma LengthBitsRoundTrip(val: nat, s: seq<bool>, p: nat)
    requires val < ASN_16K && At(s, p, EncShortLength(val))
    ensures DecLengthBits(s, p) == Ok(val, p + |EncShortLength(val)|)
  {
    hide NatToBits, BitsToNat, Pow2;
    Pow2Values();
    if val < 128 {
      ZeroFlag(val, 7);
      AtSplit(s, p, NatToBits(0, 1), NatToBits(val, 7));
      ReadBack(s, p, 8, 0, 1);
      ReadBack(s, p + 1, 32, val, 7);
    } else {
      OneZero();
      AtSplit(s, p, NatToBits(2, 2), NatToBits(val, 14));
      AtSplit(s, p, NatToBits(1, 1), NatToBits(0, 1));
      ReadBack(s, p, 8, 1, 1);
      ReadBack(s, p + 1, 8, 0, 1);
      ReadBack(s, p + 2, 32, val, 14);
    }
  }

  lemma OneZero()
    ensures NatToBits(2, 2) == NatToBits(1, 1) + NatToBits(0, 1)
  {
  }

  /** The two-octet form, octet by octet. */
  lemma TwoOctets(val: nat)
    requires val < ASN_16K
    ensures NatToBits(2, 2) + NatToBits(val, 14) == NatToBits(128 + val / 256, 8) + NatToBits(val % 256, 8)
  {
    hide NatToBits, Pow2, Mask, Shr, Shl;
    Pow2Values();
    var x := 2 * 16384 + val;
    ShlIsMul(2, 14);
    NatToBitsConcat(2, val, 2, 14);
    NatToBitsSplit(x, 8, 8);
    NatToBitsMask(x, 8);
    ShrMaskAreDivMod(x, 8);
  }

  lemma LengthOctetsRoundTrip(val: nat, s: seq<bool>, p: nat)
    requires val < ASN_16K && At(s, p, EncShortLength(val))
    ensures DecLengthOctets(s, p) == Ok(val, p + |EncShortLength(val)|)
  {
    hide NatToBits, BitsToNat, Pow2;
    Pow2Values();
    if val < 128 {
      ReadBack(s, p, 32, val, 8);
    } else {
      TwoOctets(val);
      AtSplit(s, p, NatToBits(128 + val / 256, 8), NatToBits(val % 256, 8));
      ReadBack(s, p, 32, 128 + val / 256, 8);
      ReadBack(s, p + 8, 32, val % 256, 8);
    }
  }

  lemma LengthRoundTrip(al: bool, val: nat, s: seq<bool>, p: nat)
    requires val < ASN_16K && At(s, p, EncLength(al, val, p).value)
    ensures DecLength(al, s, p) == Ok(val, p + |EncLength(al, val, p).value|)
  {
    hide NatToBits, Zeros, EncShortLength, DecLengthBits, DecLengthOctets;
    if al {
      AtSplit(s, p, Zeros(Pad(p)), EncShortLength(val));
      LengthOctetsRoundTrip(val, s, RoundUp8(p));
    } else {
      LengthBitsRoundTrip(val, s, p);
    }
  }

  /** A length the encoder accepts is read back exactly when it is below 16K. */
  lemma LengthRoundTripExactly(al: bool, val: nat, s: seq<bool>, p: nat)
    requires EncLength(al, val, p).Some? && At(s, p, EncLength(al, val, p).value)
    ensures DecLength(al, s, p) == Ok(val, p + |EncLength(al, val, p).value|) <==> val < ASN_16K
    ensures val >= ASN_16K ==> DecLength(al, s, p).Fail?
  {
    if val < ASN_16K {
      LengthRoundTrip(al, val, s, p);
    } else {
      LongLengthRefused(val, s, p);
    }
  }

  lemma LongLengthRefused(val: nat, s: seq<bool>, p: nat)
    requires ASN_16K <= val <= ASN_64K && At(s, p, EncLength(true, val, p).value)
    ensures DecLength(true, s, p).Fail?
  {
    hide NatToBits, BitsToNat, Zeros, Pow2, Shl;
    Pow2Values();
    var m, low := val / ASN_16K, NatToBits(val % ASN_16K, 16);
    AtSplit(s, p, Zeros(Pad(p)), NatToBits(3, 2) + NatToBits(m, 6) + low);
    NatToBitsConcat(3, m, 2, 6);
    ShlIsMul(3, 6);
    AtSplit(s, RoundUp8(p), NatToBits(3, 2) + NatToBits(m, 6), low);
    ReadBack(s, RoundUp8(p), 32, 192 + m, 8);
  }

  /** The unaligned reader never yields 16K or more, whatever it is given. */
  lemma LengthBitsBounded(s: seq<bool>, p: nat)
    ensures DecLengthBits(s, p).Ok? ==> DecLengthBits(s, p).value < ASN_16K
  {
    hide BitsToNat, Pow2;
    Pow2Values();
  }

  /** From an octet boundary both variants write the same octets. */
  lemma LengthVariantsAgree(val: nat, p: nat)
    requires p % 8 == 0 && val < ASN_16K
    ensures EncLength(true, val, p) == EncLength(false, val, p)
  {
    assert Pad(p) == 0;
    assert Zeros(0) + EncShortLength(val) == EncShortLength(val);
  }

  /** Length with bounds: a constrained number when the upper bound is below 64K. */
  function EncBoundedLength(al: bool, n: nat, lb: nat, ub: nat, p: nat): Option<seq<bool>> {
    if ub >= ASN_64K then EncLength(al, n, p) else EncConstrained(al, n, lb, ub, p)
  }

  function DecBoundedLength(al: bool, lb: nat, ub: nat, s: seq<bool>, p: nat): Parsed<nat> {
    if ub >= ASN_64K then DecLength(al, s, p) else DecConstrained(32, al, lb, ub, s, p)
  }

  lemma BoundedLengthRoundTrip(al: bool, n: nat, lb: nat, ub: nat, s: seq<bool>, p: nat)
    requires EncBoundedLength(al, n, lb, ub, p).Some? && At(s, p, EncBoundedLength(al, n, lb, ub, p).value)
    requires ub >= ASN_64K ==> n < ASN_16K
    ensures DecBoundedLength(al, lb, ub, s, p) == Ok(n, p + |EncBoundedLength(al, n, lb, ub, p).value|)
  {
    if ub >= ASN_64K {
      LengthRoundTrip(al, n, s, p);
    } else {
      hide EncConstrained, DecConstrained, Pow2, CeilLog2;
      Pow2Values();
      NumberInRange(al, n, lb, ub, p);
      if lb < ub {
        WidthFits(ub - lb + 1, 16);
      }
      if lb == ub {
        FixedLength(al, n, lb, s, p);
      } else {
        ConstrainedRoundTripExactly(32, al, n, lb, ub, s, p);
      }
    }
  }

  lemma NumberInRange(al: bool, n: nat, lb: nat, ub: nat, p: nat)
    requires EncConstrained(al, n, lb, ub, p).Some?
    ensures lb <= n <= ub
  {
  }

  lemma FixedLength(al: bool, n: nat, lb: nat, s: seq<bool>, p: nat)
    requires EncConstrained(al, n, lb, lb, p).Some?
    ensures EncConstrained(al, n, lb, lb, p) == Some([]) && DecConstrained(32, al, lb, lb, s, p) == Ok(n, p)
  {
  }
}
