/**
 The imperative encoders and decoders, each proved to compute the function of `Per` or
 `PerTypes` that describes it.
 */
module PerCodec {
  import opened Bits
  import opened Options
  import opened BitImage
  import opened BitRefs
  import opened Per
  import opened PerTypes

  // ------------------------------------------------------------------------
  // Constrained whole numbers
  // ------------------------------------------------------------------------

  /** The unaligned variant drops the result of `Pack`: it reports success even when the
      buffer was too small, and then only the leading bits are written. */
  method PackConstrained(bref: BitRef, n: uint64, lb: uint64, ub: uint64, aligned: bool) returns (ok: bool)
    requires bref.Valid()
    requires ub - lb + 1 < 0x1_0000_0000_0000_0000
    modifies bref, bref.buf
    ensures bref.Valid() && bref.buf == old(bref.buf)
    ensures var e := EncConstrained(aligned, n, lb, ub, old(bref.Pos()));
            && (e.None? ==> !ok)
            && (e.Some? && old(bref.Room(|e.value|)) ==> ok && bref.Wrote(old(bref.Image()), old(bref.Pos()), e.value))
            && (e.Some? && !old(bref.Room(|e.value|)) ==> ok == !aligned)
            && (e.Some? ==> bref.WroteFitting(old(bref.Image()), old(bref.Pos()), e.value))
  {
    hide *;
    ConstrainedCases(aligned, n, lb, ub, bref.Pos());
    if ub < lb || n < lb || n > ub {
      return false;
    }
    var ra := ub - lb + 1;
    if ra == 1 {
      WroteNothing(bref);
      return true;
    }
    var nBits := CeilLog2(ra);
    var toEncode: uint64 := n - lb;
    SmallWidth(ra);
    if !aligned {
      PackIgnoringResult(bref, toEncode, nBits);
      return true;
    }
    if ra < 256 {
      ok := bref.Pack(toEncode, nBits);
    } else if ra <= ASN_64K {
      ok := PackOctetAligned(bref, toEncode, ra, nBits);
    } else {
      ok := PackPrefixed(bref, toEncode, ra, nBits);
    }
  }

  /** The branches of `EncConstrained`, one by one. */
  lemma ConstrainedCases(al: bool, n: nat, lb: nat, ub: nat, p: nat)
    ensures var e := EncConstrained(al, n, lb, ub, p);
            if ub < lb || n < lb || n > ub then e.None?
            else if ub - lb + 1 == 1 then e == Some([])
            else
              var ra := ub - lb + 1;
              var w := CeilLog2(ra);
              && w > 0
              && (!al ==> e == Some(if w < 64 then NatToBits(n - lb, w) else []))
              && (al && ra < 256 ==> e == Some(NatToBits(n - lb, w)))
              && (al && 256 <= ra <= ASN_64K ==> e == Some(Zeros(Pad(p)) + NatToBits(n - lb, 8 * CeilDiv(w, 8))))
              && (al && ra > ASN_64K ==>
                    e == if OctetCount(n - lb) >= 8 then None else Some(EncPrefixed(n - lb, w, p)))
  {
    hide NatToBits, Zeros, OctetCount, EncPrefixed;
  }

  lemma WroteNothing(bref: BitRef)
    requires bref.Valid()
    ensures bref.Room(0) && bref.Wrote(bref.Image(), bref.Pos(), [])
    ensures bref.WroteFitting(bref.Image(), bref.Pos(), [])
  {
    SpliceNothing(bref.Image(), bref.Pos());
  }

  method PackIgnoringResult(bref: BitRef, v: uint64, nBits: nat)
    requires bref.Valid() && nBits <= 64
    modifies bref, bref.buf
    ensures bref.Valid() && bref.buf == old(bref.buf)
    ensures var b := if nBits < 64 then NatToBits(v, nBits) else [];
            && (old(bref.Room(|b|)) ==> bref.Wrote(old(bref.Image()), old(bref.Pos()), b))
            && bref.WroteFitting(old(bref.Image()), old(bref.Pos()), b)
  {
    hide NatToBits, Splice, Canonical, BytesToBits;
    var _ := bref.Pack(v, nBits);
  }

  lemma SmallWidth(ra: nat)
    requires 2 <= ra <= 0x1_0000_0000_0000_0000
    ensures 0 < CeilLog2(ra) <= 64
    ensures ra <= ASN_64K ==> CeilLog2(ra) <= 16
    ensures ra <= 256 ==> CeilLog2(ra) <= 8
  {
    Pow2Values();
    WidthFits(ra, 64);
    if ra <= ASN_64K {
      WidthFits(ra, 16);
    }
    if ra <= 256 {
      WidthFits(ra, 8);
    }
  }

  /** One or two octets from an octet boundary. */
  method PackOctetAligned(bref: BitRef, v: uint64, ghost ra: nat, nBits: nat) returns (ok: bool)
    requires bref.Valid() && v < ra && 256 <= ra <= ASN_64K && nBits == CeilLog2(ra)
    modifies bref, bref.buf
    ensures bref.Valid() && bref.buf == old(bref.buf)
    ensures var b := Zeros(Pad(old(bref.Pos()))) + NatToBits(v, 8 * CeilDiv(nBits, 8));
            && ok == old(bref.Room(|b|))
            && (ok ==> bref.Wrote(old(bref.Image()), old(bref.Pos()), b))
            && bref.WroteFitting(old(bref.Image()), old(bref.Pos()), b)
  {
    hide Whole, RoundUp8, Pad, Splice, Canonical, NatToBits, BytesToBits, CeilLog2, Pow2, Zeros, Fitting,
         BitRef.WroteFitting;
    SmallWidth(ra);
    var nOctets := CeilDiv(nBits, 8);
    ghost var image, pos := bref.Image(), bref.Pos();
    ghost var pad, body := Zeros(Pad(pos)), NatToBits(v, 8 * nOctets);
    ok := bref.AlignBytesZero();
    ghost var mid := bref.Image();
    ok := PackZeroExtended(bref, v, nOctets * 8 - nBits, nBits);
    bref.ThenRest(image, pos, pad, mid, body);
    if !ok {
      return;
    }
    bref.ThenWrote(image, pos, pad, mid, body);
    PadAfterOctets(pos, nOctets);
    NoPad(image, pos, pad + body);
    ok := bref.AlignBytesZero();
    bref.WroteInFull(image, pos, pad + body);
  }

  method PackZeroExtended(bref: BitRef, v: uint64, zeros: nat, nBits: nat) returns (ok: bool)
    requires bref.Valid() && v < Pow2(nBits) && zeros + nBits < 64
    modifies bref, bref.buf
    ensures bref.Valid() && bref.buf == old(bref.buf)
    ensures ok == old(bref.Room(zeros + nBits))
    ensures ok ==> bref.Wrote(old(bref.Image()), old(bref.Pos()), NatToBits(v, zeros + nBits))
    ensures bref.WroteFitting(old(bref.Image()), old(bref.Pos()), NatToBits(v, zeros + nBits))
  {
    hide Whole, Splice, Canonical, NatToBits, BytesToBits, Pow2, Fitting;
    LeadingZeros(v, zeros, nBits);
    ok := PackBoth(bref, 0, zeros, v, nBits);
  }

  /** Two numbers one behind the other; the second only if the first was written. */
  method PackBoth(bref: BitRef, v: uint64, n: nat, w: uint64, m: nat) returns (ok: bool)
    requires bref.Valid() && n < 64 && m < 64
    modifies bref, bref.buf
    ensures bref.Valid() && bref.buf == old(bref.buf)
    ensures ok == old(bref.Room(n + m))
    ensures var b := NatToBits(v, n) + NatToBits(w, m);
            && (ok ==> bref.Wrote(old(bref.Image()), old(bref.Pos()), b))
            && bref.WroteFitting(old(bref.Image()), old(bref.Pos()), b)
  {
    hide Whole, Splice, Canonical, NatToBits, BytesToBits, Fitting;
    ghost var image, pos, a, b := bref.Image(), bref.Pos(), NatToBits(v, n), NatToBits(w, m);
    ok := bref.Pack(v, n);
    if !ok {
      bref.CutOff(image, pos, a, b);
      return;
    }
    ghost var mid := bref.Image();
    ok := bref.Pack(w, m);
    bref.ThenRest(image, pos, a, mid, b);
    if ok {
      bref.ThenWrote(image, pos, a, mid, b);
    }
  }

  lemma Assoc(a: seq<bool>, b: seq<bool>, c: seq<bool>)
    ensures a + b + c == a + (b + c)
  {
  }

  lemma LeadingZeros(v: nat, k: nat, n: nat)
    requires v < Pow2(n)
    ensures NatToBits(0, k) + NatToBits(v, n) == NatToBits(v, k + n)
  {
    NatToBitsSplit(v, k, n);
    MaskSmall(v, n);
  }

  lemma NoPad(image: seq<bool>, pos: nat, b: seq<bool>)
    requires Whole(image) && pos + |b| <= |image|
    ensures Splice(Splice(image, pos, b), pos + |b|, Zeros(0)) == Splice(image, pos, b)
  {
    assert Zeros(0) == [];
    SpliceNothing(Splice(image, pos, b), pos + |b|);
  }

  /** An octet count, then that many octets from an octet boundary. */
  method PackPrefixed(bref: BitRef, v: uint64, ghost ra: nat, nBits: nat) returns (ok: bool)
    requires bref.Valid() && v < ra && ASN_64K < ra <= 0x1_0000_0000_0000_0000 && nBits == CeilLog2(ra) > 0
    modifies bref, bref.buf
    ensures bref.Valid() && bref.buf == old(bref.buf)
    ensures var b := EncPrefixed(v, nBits, old(bref.Pos()));
            && ok == (OctetCount(v) < 8 && old(bref.Room(|b|)))
            && (ok ==> bref.Wrote(old(bref.Image()), old(bref.Pos()), b))
            && (OctetCount(v) < 8 ==> bref.WroteFitting(old(bref.Image()), old(bref.Pos()), b))
  {
    hide Whole, RoundUp8, Pad, Splice, Canonical, NatToBits, BytesToBits, CeilLog2, Pow2, Zeros, CountWidth, OctetCount, Fitting;
    SmallWidth(ra);
    CountFits(v, nBits);
    var nBitsLen := CountWidth(nBits);
    var nOctets := OctetCount(v);
    ghost var image, pos := bref.Image(), bref.Pos();
    ghost var head, body := NatToBits(nOctets - 1, nBitsLen) + Zeros(Pad(pos + nBitsLen)), NatToBits(v, 8 * nOctets);
    assert EncPrefixed(v, nBits, pos) == head + body;
    ok := PackCount(bref, nOctets, nBitsLen);
    if !ok {
      bref.CutOff(image, pos, head, body);
      return;
    }
    ghost var mid := bref.Image();
    ok := bref.Pack(v, nOctets * 8);
    if nOctets < 8 {
      bref.ThenRest(image, pos, head, mid, body);
    }
    if ok {
      bref.ThenWrote(image, pos, head, mid, body);
    }
  }

  /** The octet count, padded to the octet boundary where the octets start. */
  method PackCount(bref: BitRef, nOctets: nat, nBitsLen: nat) returns (ok: bool)
    requires bref.Valid() && 0 < nOctets <= 0x1_0000_0000 && nBitsLen < 64
    modifies bref, bref.buf
    ensures bref.Valid() && bref.buf == old(bref.buf)
    ensures ok == old(bref.Room(nBitsLen))
    ensures var b := NatToBits(nOctets - 1, nBitsLen) + Zeros(Pad(old(bref.Pos()) + nBitsLen));
            && (ok ==> bref.Wrote(old(bref.Image()), old(bref.Pos()), b))
            && bref.WroteFitting(old(bref.Image()), old(bref.Pos()), b)
  {
    hide Whole, RoundUp8, Pad, Splice, Canonical, NatToBits, BytesToBits, Zeros, Fitting;
    ghost var image, pos := bref.Image(), bref.Pos();
    ghost var count, pad := NatToBits(nOctets - 1, nBitsLen), Zeros(Pad(pos + nBitsLen));
    ok := bref.Pack(nOctets - 1, nBitsLen);
    if !ok {
      bref.CutOff(image, pos, count, pad);
      return;
    }
    ghost var mid := bref.Image();
    ok := bref.AlignBytesZero();
    bref.ThenWrote(image, pos, count, mid, pad);
    bref.WroteInFull(image, pos, count + pad);
  }

  method UnpackConstrained(bref: CBitRef, width: nat, lb: nat, ub: nat, aligned: bool) returns (ok: bool, n: nat)
    requires bref.Valid()
    requires width in {8, 16, 32, 64} && lb < Pow2(width) && ub < Pow2(width)
    requires ub - lb + 1 < 0x1_0000_0000_0000_0000
    modifies bref
    ensures bref.Valid()
    ensures var r := DecConstrained(width, aligned, lb, ub, bref.Image(), old(bref.Pos()));
            && ok == r.Ok?
            && (ok ==> n == r.value && bref.Pos() == r.next)
  {
    hide BytesToBits, BitsToNat, CeilLog2, Pow2, Mask, DecPrefixed, ReadNat, RoundUp8, Whole;
    n := 0;
    if ub < lb {
      return false, n;
    }
    var ra := ub - lb + 1;
    if ra == 1 {
      return true, lb;
    }
    var nBits := CeilLog2(ra);
    SmallWidth(ra);
    if !aligned {
      ok, n := UnpackNat(bref, width, nBits);
      if !ok {
        return;
      }
      n := Mask(n + lb, width);
      if n > ub {
        return false, n;
      }
    } else {
      if ra < 256 {
        ok, n := UnpackNat(bref, width, nBits);
      } else if ra <= ASN_64K {
        ok, n := UnpackOctetAligned(bref, width, CeilDiv(nBits, 8));
      } else {
        ok, n := UnpackPrefixed(bref, width, nBits);
      }
      if !ok {
        return;
      }
      n := Mask(n + lb, width);
    }
    return true, n;
  }

  /** `Unpack` in the terms of `ReadNat`. */
  method UnpackNat(bref: CBitRef, width: nat, nBits: nat) returns (ok: bool, n: nat)
    requires bref.Valid()
    modifies bref
    ensures bref.Valid()
    ensures var r := ReadNat(bref.Image(), old(bref.Pos()), width, nBits);
            && ok == r.Ok?
            && (ok ==> n == r.value && n < Pow2(nBits) && bref.Pos() == r.next)
    ensures nBits <= width ==> (n, bref.Pos()) == ReadKept(bref.Image(), old(bref.Pos()), nBits)
  {
    hide BytesToBits, BitsToNat, Pow2;
    ok, n := bref.Unpack(width, nBits);
  }

  method UnpackOctetAligned(bref: CBitRef, width: nat, nOctets: nat) returns (ok: bool, n: nat)
    requires bref.Valid()
    modifies bref
    ensures bref.Valid()
    ensures var r := ReadNat(bref.Image(), RoundUp8(old(bref.Pos())), width, 8 * nOctets);
            && ok == r.Ok?
            && (ok ==> n == r.value && bref.Pos() == r.next)
  {
    hide BytesToBits, BitsToNat, Pow2, RoundUp8, Whole;
    n := 0;
    ok := bref.AlignBytes();
    if !ok {
      return;
    }
    ok, n := UnpackNat(bref, width, nOctets * 8);
    if !ok {
      return;
    }
    WholeRead(old(bref.Pos()), nOctets);
    ok := bref.AlignBytes();
  }

  method UnpackPrefixed(bref: CBitRef, width: nat, nBits: nat) returns (ok: bool, n: nat)
    requires bref.Valid() && nBits > 0
    modifies bref
    ensures bref.Valid()
    ensures var r := DecPrefixed(width, nBits, bref.Image(), old(bref.Pos()));
            && ok == r.Ok?
            && (ok ==> n == r.value && bref.Pos() == r.next)
  {
    hide BytesToBits, BitsToNat, Pow2, CountWidth, RoundUp8, Whole;
    n := 0;
    var nOctets;
    ok, nOctets := UnpackNat(bref, 32, CountWidth(nBits));
    if !ok {
      return;
    }
    nOctets := nOctets + 1;
    ok := bref.AlignBytes();
    if !ok {
      return;
    }
    ok, n := UnpackNat(bref, width, nOctets * 8);
  }

  /** A read of whole octets from a boundary ends on a boundary. */
  lemma WholeRead(p: nat, n: nat)
    ensures RoundUp8(RoundUp8(p) + 8 * n) == RoundUp8(p) + 8 * n
  {
  }

  // ------------------------------------------------------------------------
  // Normally small numbers
  // ------------------------------------------------------------------------

  method PackSmall(bref: BitRef, n: uint64) returns (ok: bool)
    requires bref.Valid()
    modifies bref, bref.buf
    ensures bref.Valid() && bref.buf == old(bref.buf)
    ensures ok <==> EncSmall(n).Some? && old(bref.Room(7))
    ensures ok ==> bref.Wrote(old(bref.Image()), old(bref.Pos()), EncSmall(n).value)
    ensures bref.WroteFitting(old(bref.Image()), old(bref.Pos()), if n <= 63 then EncSmall(n).value else [true])
  {
    hide Splice, Canonical, BytesToBits, BitRef.WroteFitting;
    assert NatToBits(1, 1) == [true];
    if n <= 63 {
      ok := bref.Pack(n, 7);
    } else {
      ok := bref.Pack(1, 1);
      if !ok {
        return;
      }
      ok := false;
    }
  }

  method UnpackSmall(bref: CBitRef) returns (ok: bool, n: nat)
    requires bref.Valid()
    modifies bref
    ensures bref.Valid()
    ensures var r := DecSmall(bref.Image(), old(bref.Pos()));
            && ok == r.Ok?
            && (n, bref.Pos()) == SmallKept(bref.Image(), old(bref.Pos()))
  {
    hide BytesToBits, BitsToNat, Pow2;
    n := 0;
    var ext;
    ok, ext := bref.Unpack(8, 1);
    if !ok {
      return;
    }
    BitAt(bref.Image(), old(bref.Pos()));
    if ext == 0 {
      ok, n := bref.Unpack(32, 6);
    } else {
      ok := false;
    }
  }

  // ------------------------------------------------------------------------
  // Length determinants
  // ------------------------------------------------------------------------

  method PackShortLength(bref: BitRef, val: uint32) returns (ok: bool)
    requires bref.Valid() && val < ASN_16K
    modifies bref, bref.buf
    ensures bref.Valid() && bref.buf == old(bref.buf)
    ensures ok <==> old(bref.Room(|EncShortLength(val)|))
    ensures ok ==> bref.Wrote(old(bref.Image()), old(bref.Pos()), EncShortLength(val))
    ensures bref.WroteFitting(old(bref.Image()), old(bref.Pos()), EncShortLength(val))
  {
    hide Whole, Splice, Canonical, NatToBits, BytesToBits, Fitting;
    if val < 128 {
      ok := bref.Pack(val, 8);
    } else {
      ok := PackBoth(bref, 2, 2, val, 14);
    }
  }

  method PackLength(bref: BitRef, val: uint32, aligned: bool) returns (ok: bool)
    requires bref.Valid()
    modifies bref, bref.buf
    ensures bref.Valid() && bref.buf == old(bref.buf)
    ensures var e := EncLength(aligned, val, old(bref.Pos()));
            && (ok <==> e.Some? && old(bref.Room(|e.value|)))
            && (ok ==> bref.Wrote(old(bref.Image()), old(bref.Pos()), e.value))
            && (e.Some? ==> bref.WroteFitting(old(bref.Image()), old(bref.Pos()), e.value))
            && (e.None? ==> bref.Wrote(old(bref.Image()), old(bref.Pos()), []))
  {
    hide Whole, Splice, Canonical, NatToBits, BytesToBits, EncShortLength, Zeros, RoundUp8, Pad, Fitting;
    SpliceNothing(bref.Image(), bref.Pos());
    if !aligned {
      if val < ASN_16K {
        ok := PackShortLength(bref, val);
      } else {
        return false;
      }
    } else {
      if val > ASN_64K {
        return false;
      }
      ok := bref.AlignBytes();
      if !ok {
        return;
      }
      ghost var mid, pad := bref.Image(), Zeros(Pad(old(bref.Pos())));
      ghost var body := if val < ASN_16K then EncShortLength(val)
                        else NatToBits(3, 2) + NatToBits(val / ASN_16K, 6) + NatToBits(val % ASN_16K, 16);
      if val < ASN_16K {
        ok := PackShortLength(bref, val);
      } else {
        ok := PackLongLength(bref, val);
      }
      bref.ThenRest(old(bref.Image()), old(bref.Pos()), pad, mid, body);
      if ok {
        bref.ThenWrote(old(bref.Image()), old(bref.Pos()), pad, mid, body);
      }
    }
  }

  method PackLongLength(bref: BitRef, val: uint32) returns (ok: bool)
    requires bref.Valid() && ASN_16K <= val <= ASN_64K
    modifies bref, bref.buf
    ensures bref.Valid() && bref.buf == old(bref.buf)
    ensures ok <==> old(bref.Room(24))
    ensures var b := NatToBits(3, 2) + NatToBits(val / ASN_16K, 6) + NatToBits(val % ASN_16K, 16);
            && (ok ==> bref.Wrote(old(bref.Image()), old(bref.Pos()), b))
            && bref.WroteFitting(old(bref.Image()), old(bref.Pos()), b)
  {
    hide Whole, Splice, Canonical, NatToBits, BytesToBits, Fitting;
    ghost var image, pos := bref.Image(), bref.Pos();
    var m := val / ASN_16K;
    ghost var head, tail := NatToBits(3, 2) + NatToBits(m, 6), NatToBits(val % ASN_16K, 16);
    ok := PackBoth(bref, 3, 2, m, 6);
    if !ok {
      bref.CutOff(image, pos, head, tail);
      return;
    }
    ghost var mid := bref.Image();
    ok := bref.Pack(val - m * ASN_16K, 16);
    bref.ThenRest(image, pos, head, mid, tail);
    if ok {
      bref.ThenWrote(image, pos, head, mid, tail);
    }
  }

  method UnpackLength(bref: CBitRef, aligned: bool) returns (ok: bool, val: nat)
    requires bref.Valid()
    modifies bref
    ensures bref.Valid()
    ensures ok == DecLength(aligned, bref.Image(), old(bref.Pos())).Ok?
    ensures (val, bref.Pos()) == LengthKept(aligned, bref.Image(), old(bref.Pos()))
  {
    hide DecLength, LengthKept, BytesToBits;
    if !aligned {
      ok, val := UnpackLengthBits(bref);
    } else {
      ok, val := UnpackLengthOctets(bref);
    }
  }

  method UnpackLengthBits(bref: CBitRef) returns (ok: bool, val: nat)
    requires bref.Valid()
    modifies bref
    ensures bref.Valid()
    ensures ok == DecLength(false, bref.Image(), old(bref.Pos())).Ok?
    ensures (val, bref.Pos()) == LengthKept(false, bref.Image(), old(bref.Pos()))
  {
    hide BytesToBits, BitsToNat, Pow2, Whole, RoundUp8, ReadShort;
    val := 0;
    var ext;
    ghost var s, p := bref.Image(), bref.Pos();
    ok, ext := bref.Unpack(8, 1);
    if !ok {
      return;
    }
    BitAt(s, p);
    if ext == 0 {
      ok, val := bref.Unpack(32, 7);
    } else {
      ok, ext := bref.Unpack(8, 1);
      if !ok {
        return;
      }
      BitAt(s, p + 1);
      if ext == 0 {
        ok, val := bref.Unpack(32, 14);
      } else {
        return false, 0;
      }
    }
  }

  method UnpackLengthOctets(bref: CBitRef) returns (ok: bool, val: nat)
    requires bref.Valid()
    modifies bref
    ensures bref.Valid()
    ensures ok == DecLength(true, bref.Image(), old(bref.Pos())).Ok?
    ensures (val, bref.Pos()) == LengthKept(true, bref.Image(), old(bref.Pos()))
  {
    hide BytesToBits, BitsToNat, Pow2, Whole, RoundUp8, ReadShort;
    val := 0;
    ok := bref.AlignBytes();
    if !ok {
      return;
    }
    NothingRead(bref.Image());
    ok, val := bref.Unpack(32, 8);
    if !ok {
      return;
    }
    if val < 128 {
      return true, val;
    }
    val := val - 128;
    if val < 64 {
      var low;
      ok, low := bref.Unpack(32, 8);
      if !ok {
        return;
      }
      return true, val * 256 + low;
    }
    return false, val;
  }

  /** An octet cannot be cut off in the middle; what is read beyond the end is zero. */
  lemma NothingRead(s: seq<bool>)
    ensures ReadShort(s, |s|, 8) == 0
  {
    assert s[|s|..] == [];
    ZeroRead(8);
  }

  method PackBoundedLength(bref: BitRef, n: uint32, lb: uint32, ub: uint32, aligned: bool) returns (ok: bool)
    requires bref.Valid()
    modifies bref, bref.buf
    ensures bref.Valid() && bref.buf == old(bref.buf)
    ensures var e := EncBoundedLength(aligned, n, lb, ub, old(bref.Pos()));
            && (e.None? ==> !ok)
            && (e.Some? && old(bref.Room(|e.value|)) ==> ok && bref.Wrote(old(bref.Image()), old(bref.Pos()), e.value))
            && (e.Some? && !old(bref.Room(|e.value|)) ==> ok == (!aligned && ub < ASN_64K))
            && (e.Some? ==> bref.WroteFitting(old(bref.Image()), old(bref.Pos()), e.value))
  {
    hide EncLength, EncConstrained, Splice, Canonical, BytesToBits, Fitting;
    if ub >= ASN_64K {
      ok := PackLength(bref, n, aligned);
    } else {
      ok := PackConstrained(bref, n, lb, ub, aligned);
    }
  }

  method UnpackBoundedLength(bref: CBitRef, lb: uint32, ub: uint32, aligned: bool) returns (ok: bool, n: nat)
    requires bref.Valid()
    modifies bref
    ensures bref.Valid()
    ensures var r := DecBoundedLength(aligned, lb, ub, bref.Image(), old(bref.Pos()));
            && ok == r.Ok?
            && (ok ==> n == r.value && bref.Pos() == r.next)
  {
    hide DecLength, DecConstrained, BytesToBits, Pow2;
    if ub >= ASN_64K {
      ok, n := UnpackLength(bref, aligned);
    } else {
      Pow2Values();
      ok, n := UnpackConstrained(bref, 32, lb, ub, aligned);
    }
  }
}
