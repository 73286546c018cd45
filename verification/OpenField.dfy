/**
 The guards of open (variable-length) fields. Opening for writing points the caller's cursor
 at a scratch buffer; closing writes the octet count and the scratch octets at the place
 where the field began and points the cursor there.
 */
module OpenField {
  import opened Bits
  import opened Options
  import opened BitImage
  import opened BitRefs
  import opened Per
  import opened PerTypes
  import opened PerCodec

  class PackGuard {
    const bref: BitRef
    const start: BitRef
    const align: bool

    ghost predicate Valid()
      reads this, bref, bref.buf, start, start.buf
    {
      && bref.Valid() && start.Valid()
      && bref != start && bref.buf != start.buf
      && bref.buf.Length <= BLOCK_OCTETS
    }

    constructor (bref: BitRef, align: bool, scratch: ScratchSize)
      requires bref.Valid()
      modifies bref
      ensures this.bref == bref && this.align == align
      ensures Valid() && fresh(start) && fresh(bref.buf)
      ensures bref.Pos() == 0 && bref.buf.Length == scratch
      ensures start.buf == old(bref.buf) && start.Pos() == old(bref.Pos()) && start.Image() == old(bref.Image())
    {
      hide BytesToBits, Canonical, Whole;
      this.bref, this.align := bref, align;
      start := new BitRef(bref.buf);
      new;
      start.ptr, start.offset := bref.ptr, bref.offset;
      var buffer := new byte[scratch];
      bref.buf, bref.ptr, bref.offset := buffer, 0, 0;
      CanonicalAtBoundary(bref.Image(), 0);
    }

    /** Results are not looked at: where the outer buffer has no room, the field is cut off. */
    method Close()
      requires Valid()
      modifies bref, bref.buf, start, start.buf
      ensures bref.Valid() && bref.buf == old(start.buf)
      ensures var content := old(bref.Image())[..old(bref.Pos())];
              && OpenOctets(content) < ASN_16K
              && bref.WroteFitting(old(start.Image()), old(start.Pos()), OpenBits(align, content, old(start.Pos())))
    {
      hide Whole, Splice, Canonical, NatToBits, BytesToBits, EncLength, OpenBits, Fitting;
      ghost var content := bref.Image()[..bref.Pos()];
      ghost var pos := start.Pos();
      ScratchLengthAccepted(align, content, bref.buf.Length, pos);
      var data := FinishScratch();
      // back to where the field began
      OpenBitsParts(align, content, BytesToBits(data), pos);
      PackLengthAndOctets(start, data, align);
      bref.buf, bref.ptr, bref.offset := start.buf, start.ptr, start.offset;
    }

    /** Fills the spare bits of the last octet and takes the octets out of the scratch buffer. */
    method FinishScratch() returns (data: seq<byte>)
      requires Valid()
      modifies bref, bref.buf
      ensures Valid() && bref.buf == old(bref.buf)
      ensures |data| <= BLOCK_OCTETS
      ensures BytesToBits(data)
           == old(bref.Image())[..old(bref.Pos())] + Zeros(Pad(old(bref.Pos())))
    {
      hide Splice, Canonical, NatToBits, BytesToBits, Zeros, Pad, RoundUp8;
      var leftover := 7 - (bref.Distance() + 0xFFFF_FFFF) % 0x1_0000_0000 % 8;
      ghost var image, p := bref.Image(), bref.Pos();
      SpareBits(p, bref.buf.Length);
      var _ := bref.Pack(0, leftover);
      NatToBitsZero(leftover);
      var nofBytes := bref.Distance() / 8;
      data := bref.buf[..nofBytes];
      SliceBytes(bref.buf[..], 0, nofBytes);
      assert bref.buf[..][0..nofBytes] == data;
      SpliceWritten(image, p, Zeros(leftover));
      TwoSlices(bref.Image(), p, p + leftover);
    }
  }

  /** The source's formula gives the distance to the next octet boundary, also at distance zero. */
  lemma SpareBits(p: nat, length: nat)
    requires p <= 8 * length
    ensures 7 - (p + 0xFFFF_FFFF) % 0x1_0000_0000 % 8 == Pad(p)
    ensures p + Pad(p) <= 8 * length && (p + Pad(p)) / 8 * 8 == p + Pad(p)
  {
  }

  lemma TwoSlices(s: seq<bool>, p: nat, e: nat)
    requires p <= e <= |s|
    ensures s[..e] == s[..p] + s[p..e] && s[0..e] == s[..e]
  {
  }

  lemma OpenBitsParts(al: bool, content: seq<bool>, filled: seq<bool>, p: nat)
    requires filled == content + Zeros(Pad(|content|)) && OpenOctets(content) < ASN_16K
    ensures OpenOctets(content) == |filled| / 8
    ensures EncLength(al, |filled| / 8, p).Some?
    ensures OpenBits(al, content, p) == EncLength(al, |filled| / 8, p).value + filled
  {
    LengthOctetAligned(al, OpenOctets(content), p);
    hide EncLength;
    Assoc(EncLength(al, |filled| / 8, p).value, content, Zeros(Pad(|content|)));
  }

  /** Octets one by one, without looking at the results. */
  method PackAll(bref: BitRef, data: seq<byte>)
    requires bref.Valid()
    modifies bref, bref.buf
    ensures bref.Valid() && bref.buf == old(bref.buf)
    ensures bref.WroteFitting(old(bref.Image()), old(bref.Pos()), BytesToBits(data))
  {
    hide Whole, Splice, Canonical, NatToBits, BytesToBits, Fitting;
    ghost var image, pos := bref.Image(), bref.Pos();
    assert BytesToBits(data[..0]) == [];
    WroteNothing(bref);
    for i := 0 to |data|
      invariant bref.Valid() && bref.buf == old(bref.buf)
      invariant bref.WroteFitting(image, pos, BytesToBits(data[..i]))
    {
      ghost var mid := bref.Image();
      var _ := bref.Pack(data[i], 8);
      AppendOctet(data, i);
      bref.ThenWroteFitting(image, pos, BytesToBits(data[..i]), mid, NatToBits(data[i], 8));
    }
    assert data[..|data|] == data;
  }

  /** Length and octets, without looking at the results. */
  method PackLengthAndOctets(bref: BitRef, data: seq<byte>, align: bool)
    requires bref.Valid() && |data| < 0x1000_0000
    requires EncLength(align, |data|, bref.Pos()).Some?
    modifies bref, bref.buf
    ensures bref.Valid() && bref.buf == old(bref.buf)
    ensures bref.WroteFitting(old(bref.Image()), old(bref.Pos()),
                              EncLength(align, |data|, old(bref.Pos())).value + BytesToBits(data))
  {
    hide Whole, Splice, Canonical, BytesToBits, EncLength, Fitting;
    ghost var image, pos := bref.Image(), bref.Pos();
    var _ := PackLength(bref, |data|, align);
    ghost var mid := bref.Image();
    PackAll(bref, data);
    bref.ThenWroteFitting(image, pos, EncLength(align, |data|, pos).value, mid, BytesToBits(data));
  }

  class UnpackGuard {
    const bref: CBitRef
    /** The cursor behind the length, and the length read there. */
    const ptr0: nat
    const offset0: nat
    const len: nat

    ghost function Start(): nat {
      8 * ptr0 + offset0
    }

    /** The result of the length decoder is dropped: the guard goes on with what is left. */
    constructor (bref: CBitRef, align: bool)
      requires bref.Valid()
      modifies bref
      ensures this.bref == bref && bref.Valid() && Start() == bref.Pos()
      ensures (len, Start()) == LengthKept(align, bref.Image(), old(bref.Pos()))
    {
      hide DecLength, LengthKept, BytesToBits;
      this.bref := bref;
      var _, n := UnpackLength(bref, align);
      len := n;
      ptr0, offset0 := bref.ptr, bref.offset;
    }

    /** Reads what is left of the field into one 32-bit variable. */
    method Close()
      requires bref.Valid()
      modifies bref
      ensures bref.Valid()
      ensures bref.Pos() == CloseField(bref.Image(), Start(), len, old(bref.Pos()))
    {
      hide BytesToBits, BitsToNat, Pow2;
      var distance := (bref.offset - offset0) + 8 * (bref.ptr - ptr0);
      var _, _ := bref.Unpack(32, (len * 8 - distance) % 0x1_0000_0000);
    }
  }
}
