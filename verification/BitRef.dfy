/**
 The bit cursors of the codec: `BitRef` writes (`asn1::bit_ref`), `CBitRef` reads
 (`asn1::cbit_ref`). Each is specified on the image of its buffer, one bit string,
 and a bit position in it.
 */
module BitImage {
  import opened Bits

  /** The next octet boundary at or after a bit position. */
  function RoundUp8(p: nat): (r: nat)
    ensures p <= r < p + 8 && r % 8 == 0
  {
    (p + 7) / 8 * 8
  }

  /** Number of bits up to the next octet boundary. */
  function Pad(p: nat): (r: nat)
    ensures r < 8 && (p + r) % 8 == 0
  {
    RoundUp8(p) - p
  }

  /** A bit string that consists of whole octets. */
  predicate Whole(s: seq<bool>) {
    |s| % 8 == 0
  }

  /** The image after writing `b` at position `p`: earlier bits are kept, the rest of a
      partly filled octet is cleared, later octets are kept. */
  function Splice(s: seq<bool>, p: nat, b: seq<bool>): (r: seq<bool>)
    requires Whole(s) && p + |b| <= |s|
    ensures |r| == |s| && Whole(r)
  {
    seq(|s|, i requires 0 <= i < |s| =>
      if b == [] || i < p then s[i]
      else if i < p + |b| then b[i - p]
      else i >= RoundUp8(p + |b|) && s[i])
  }

  /** No stale bit is left between the position and the next octet boundary. */
  ghost predicate Canonical(s: seq<bool>, p: nat) {
    && Whole(s) && p <= |s|
    && forall i | p <= i < RoundUp8(p) :: !s[i]
  }

  /** What a read of `n` bits that meets the end of the image leaves: the bits there were, in
      the place of the leading ones. */
  function ReadShort(s: seq<bool>, p: nat, n: nat): nat
    requires p <= |s| < p + n
  {
    Shl(BitsToNat(s[p..]), n - (|s| - p))
  }

  /** The leading bits for which there is room. */
  ghost function Fitting(b: seq<bool>, room: nat): (r: seq<bool>)
    ensures |r| == Min(|b|, room)
  {
    b[..Min(|b|, room)]
  }

  lemma FittingAll(b: seq<bool>, room: nat)
    requires |b| <= room
    ensures Fitting(b, room) == b
  {
  }

  /** Once bits are cut off, nothing behind them is written. */
  lemma FittingConcat(a: seq<bool>, b: seq<bool>, room: nat)
    ensures Fitting(a + b, room) == Fitting(a, room) + Fitting(b, room - |Fitting(a, room)|)
    ensures |a| >= room ==> Fitting(a + b, room) == Fitting(a, room)
  {
  }

  lemma PadOf(ptr: nat, offset: nat)
    requires offset < 8
    ensures Pad(8 * ptr + offset) == if offset == 0 then 0 else 8 - offset
  {
  }

  lemma CanonicalAtBoundary(s: seq<bool>, k: nat)
    requires Whole(s) && 8 * k <= |s|
    ensures Canonical(s, 8 * k)
  {
  }

  lemma NoZeros()
    ensures Zeros(0) == []
  {
  }

  lemma PadAfterOctets(p: nat, n: nat)
    ensures Pad(p + Pad(p) + 8 * n) == 0
  {
  }

  lemma SpliceNothing(s: seq<bool>, p: nat)
    requires Whole(s) && p <= |s|
    ensures Splice(s, p, []) == s
  {
  }

  lemma SpliceParts(s: seq<bool>, p: nat, b: seq<bool>, e: nat)
    requires Whole(s) && p + |b| <= |s| && b != [] && e == RoundUp8(p + |b|)
    ensures Splice(s, p, b) == s[..p] + b + Zeros(e - (p + |b|)) + s[e..]
  {
  }

  lemma SpliceConcat(s: seq<bool>, p: nat, a: seq<bool>, b: seq<bool>)
    requires Whole(s) && p + |a| + |b| <= |s|
    ensures Splice(Splice(s, p, a), p + |a|, b) == Splice(s, p, a + b)
  {
    var t, u := Splice(Splice(s, p, a), p + |a|, b), Splice(s, p, a + b);
    forall i | 0 <= i < |s|
      ensures t[i] == u[i]
    {
      assert RoundUp8(p + |a|) <= RoundUp8(p + |a| + |b|);
    }
  }

  lemma SpliceWritten(s: seq<bool>, p: nat, b: seq<bool>)
    requires Whole(s) && p + |b| <= |s|
    ensures Splice(s, p, b)[..p] == s[..p]
    ensures Splice(s, p, b)[p..p + |b|] == b
  {
  }

  lemma SpliceCanonical(s: seq<bool>, p: nat, b: seq<bool>)
    requires Whole(s) && p + |b| <= |s| && Canonical(s, p)
    ensures Canonical(Splice(s, p, b), p + |b|)
  {
  }

  /** Writing zeros up to the octet boundary changes nothing in a canonical image. */
  lemma SplicePad(s: seq<bool>, p: nat)
    requires Canonical(s, p)
    ensures Splice(s, p, Zeros(Pad(p))) == s
  {
    assert RoundUp8(p + Pad(p)) == RoundUp8(p);
  }

  /** The octets in front of the final position do not depend on what the buffer held
      before encoding began. */
  lemma SpliceForgets(s: seq<bool>, t: seq<bool>, b: seq<bool>)
    requires Whole(s) && |b| <= |s| == |t|
    ensures Splice(s, 0, b)[..RoundUp8(|b|)] == Splice(t, 0, b)[..RoundUp8(|b|)]
    ensures Splice(s, 0, b)[..RoundUp8(|b|)] == b + Zeros(Pad(|b|))
  {
  }
}

module BitRefs {
  import opened Bits
  import opened BitImage

  /** `x & keepmask`: the octet with its `k` low bits cleared. */
  function ClearLow(x: nat, k: nat): nat {
    Shl(Shr(x, k), k)
  }

  /** What one step of the pack loop does to the word under the cursor: `free` low bits
      of `x` are replaced by the `k`-bit number `c` and `free - k` zeros. */
  lemma PackWord(x: nat, w: nat, free: nat, c: nat, k: nat)
    requires 1 <= k <= free <= w && x < Pow2(w) && c < Pow2(k)
    ensures Shl(c, free - k) < Pow2(free) <= Pow2(w)
    ensures ClearLow(x, free) + Shl(c, free - k) < Pow2(w)
    ensures NatToBits(ClearLow(x, free) + Shl(c, free - k), w)
         == NatToBits(x, w)[..w - free] + NatToBits(c, k) + Zeros(free - k)
  {
    hide NatToBits, Zeros, Shl, Shr, Pow2;
    var high, low := Shr(x, free), Shl(c, free - k);
    Pow2Mono(free, w);
    ShlBound(c, k, free - k);
    ShrBound(x, w - free, free);
    ShlBound(high, w - free, free);
    assert NatToBits(ClearLow(x, free) + low, w) == NatToBits(high, w - free) + NatToBits(low, free) by {
      NatToBitsConcat(high, low, w - free, free);
    }
    assert NatToBits(low, free) == NatToBits(c, k) + Zeros(free - k) by {
      NatToBitsConcat(c, 0, k, free - k);
      NatToBitsZero(free - k);
    }
    NatToBitsSplit(x, w - free, free);
  }

  /** The leading bits of an `n`-bit number are its quotient; the rest its remainder. */
  lemma PackChunk(v: nat, n: nat, k: nat)
    requires k <= n && v < Pow2(n)
    ensures Shr(v, n - k) < Pow2(k)
    ensures NatToBits(v, n)[..k] == NatToBits(Shr(v, n - k), k)
    ensures NatToBits(v, n)[k..] == NatToBits(v, n - k)
  {
    NatToBitsSplit(v, k, n - k);
    ShrBound(v, k, n - k);
  }

  /** Storing a rebuilt octet is a splice of the image. */
  lemma StoreOctet(bs: seq<byte>, ptr: nat, offset: nat, c: nat, k: nat, x: byte)
    requires ptr < |bs| && offset < 8 && 1 <= k <= 8 - offset && c < Pow2(k)
    requires x == ClearLow(bs[ptr], 8 - offset) + Shl(c, 8 - offset - k)
    ensures BytesToBits(bs[ptr := x]) == Splice(BytesToBits(bs), 8 * ptr + offset, NatToBits(c, k))
  {
    hide *;
    var s, b, p := BytesToBits(bs), NatToBits(c, k), 8 * ptr + offset;
    Pow2Values();
    PackWord(bs[ptr], 8, 8 - offset, c, k);
    BytesToBitsUpdate(bs, ptr, x);
    ByteOfBits(bs, ptr);
    SpliceParts(s, p, b, 8 * ptr + 8);
    SliceInside(s, 8 * ptr, 8 * ptr + 8, offset);
    Regroup(s[..8 * ptr], NatToBits(bs[ptr], 8)[..offset], b, Zeros(8 - offset - k), s[8 * ptr + 8..]);
  }

  lemma SubSlice(s: seq<bool>, a: nat, e: nat, i: nat, j: nat)
    requires i <= j && a + j <= e <= |s|
    ensures s[a..e][i..j] == s[a + i..a + j]
  {
    forall m | 0 <= m < j - i
      ensures s[a..e][i..j][m] == s[a + i..a + j][m]
    {
      assert s[a..e][i..j][m] == s[a..e][i + m];
    }
  }

  lemma SliceInside(s: seq<bool>, a: nat, e: nat, n: nat)
    requires a + n <= e <= |s|
    ensures s[..a + n] == s[..a] + s[a..e][..n]
  {
  }

  lemma Regroup(a: seq<bool>, b: seq<bool>, c: seq<bool>, d: seq<bool>, e: seq<bool>)
    ensures a + (b + c + d) + e == (a + b) + c + d + e
  {
  }

  /** One round of the pack loop, on the bytes before it: `k` leading bits of the `n`-bit
      number `v` go to the octet under the cursor. */
  lemma PackStep(bs: seq<byte>, ptr: nat, offset: nat, v: nat, n: nat, k: nat, bit: nat, octet: byte)
    requires ptr < |bs| && offset < 8 && n > 0 && v < Pow2(n)
    requires k == if 8 - offset > n then n else 8 - offset
    requires bit == if 8 - offset > n then Shl(v, 8 - offset - n) % 256 else Shr(v, n - (8 - offset)) % 256
    requires octet == (ClearLow(bs[ptr], 8 - offset) + bit) % 256
    ensures BytesToBits(bs[ptr := octet]) == Splice(BytesToBits(bs), 8 * ptr + offset, NatToBits(v, n)[..k])
    ensures NatToBits(v, n)[k..] == NatToBits(v, n - k)
  {
    hide *;
    var free := 8 - offset;
    var c := Shr(v, n - k);
    ShiftByZero(v);
    ShiftByZero(c);
    PackChunk(v, n, k);
    Pow2Values();
    PackWord(bs[ptr], 8, free, c, k);
    StoreOctet(bs, ptr, offset, c, k, octet);
  }

  lemma ClearOctet(bs: seq<byte>, ptr: nat, offset: nat)
    requires ptr < |bs| && 0 < offset < 8
    ensures ClearLow(bs[ptr], 8 - offset) < 256
    ensures BytesToBits(bs[ptr := ClearLow(bs[ptr], 8 - offset)])
         == Splice(BytesToBits(bs), 8 * ptr + offset, Zeros(8 - offset))
  {
    hide *;
    var k := 8 - offset;
    Pow2Values();
    PackWord(bs[ptr], 8, k, 0, k);
    ShiftByZero(0);
    var x: byte := ClearLow(bs[ptr], k);
    StoreOctet(bs, ptr, offset, 0, k, x);
    NatToBitsZero(k);
  }

  lemma BlockCopy(bs: seq<byte>, ptr: nat, data: seq<byte>)
    requires ptr + |data| <= |bs|
    ensures BytesToBits(bs[..ptr] + data + bs[ptr + |data|..])
         == Splice(BytesToBits(bs), 8 * ptr, BytesToBits(data))
  {
    hide BytesToBits, NatToBits, Splice;
    var a, middle, c := bs[..ptr], bs[ptr..ptr + |data|], bs[ptr + |data|..];
    assert bs == a + middle + c;
    BytesToBitsConcat(a + data, c);
    BytesToBitsConcat(a, data);
    BytesToBitsConcat(a + middle, c);
    BytesToBitsConcat(a, middle);
    SpliceMiddle(BytesToBits(a), BytesToBits(middle), BytesToBits(c), BytesToBits(data), ptr, |data|);
  }

  lemma SpliceMiddle(a: seq<bool>, b: seq<bool>, c: seq<bool>, d: seq<bool>, j: nat, k: nat)
    requires |a| == 8 * j && |b| == |d| == 8 * k && Whole(a + b + c)
    ensures Splice(a + b + c, |a|, d) == a + d + c
  {
    var s := a + b + c;
    if d != [] {
      SpliceParts(s, |a|, d, 8 * (j + k));
      assert s[..|a|] == a && s[8 * (j + k)..] == c;
      NoZeros();
      assert a + d + [] + c == a + d + c;
    } else {
      SpliceNothing(s, |a|);
      assert b == d;
    }
  }

  lemma AppendOctet(data: seq<byte>, i: nat)
    requires i < |data|
    ensures BytesToBits(data[..i + 1]) == BytesToBits(data[..i]) + NatToBits(data[i], 8)
  {
    assert data[..i + 1] == data[..i] + [data[i]];
    BytesToBitsConcat(data[..i], [data[i]]);
    BytesToBitsOne(data[i]);
  }

  /** Splitting law: packing `a` in `n` bits and then `b` in `m` bits leaves the same octets as
      packing `a * 2^m + b`, each reduced to its width, in `n + m` bits. */
  lemma SplittingLaw(bs: seq<byte>, p: nat, a: nat, n: nat, b: nat, m: nat, twice: seq<byte>, once: seq<byte>)
    requires p + n + m <= 8 * |bs|
    requires BytesToBits(twice) == Splice(Splice(BytesToBits(bs), p, NatToBits(a, n)), p + n, NatToBits(b, m))
    requires BytesToBits(once) == Splice(BytesToBits(bs), p, NatToBits(Shl(Mask(a, n), m) + Mask(b, m), n + m))
    ensures twice == once
  {
    hide NatToBits, BytesToBits, Splice, Mask, Shl;
    NatToBitsMask(a, n);
    NatToBitsMask(b, m);
    NatToBitsConcat(Mask(a, n), Mask(b, m), n, m);
    SpliceConcat(BytesToBits(bs), p, NatToBits(a, n), NatToBits(b, m));
    BytesToBitsInjective(twice, once);
  }

  class BitRef {
    var buf: array<byte>
    var ptr: nat
    var offset: nat

    ghost predicate Valid()
      reads this, buf
    {
      && offset < 8
      && ptr <= buf.Length
      && (offset > 0 ==> ptr < buf.Length)
      && Canonical(Image(), Pos())
    }

    ghost function Image(): (s: seq<bool>)
      reads this, buf
      ensures |s| == 8 * buf.Length && Whole(s)
    {
      BytesToBits(buf[..])
    }

    ghost function Pos(): nat
      reads this
    {
      8 * ptr + offset
    }

    ghost predicate Room(n: nat)
      reads this
    {
      Pos() + n <= 8 * buf.Length
    }

    /** The whole buffer and the position are those of `image` and `pos` after writing `bits`. */
    ghost predicate Wrote(image: seq<bool>, pos: nat, bits: seq<bool>)
      reads this, buf
    {
      && |image| == 8 * buf.Length && Whole(image)
      && pos + |bits| <= |image|
      && Image() == Splice(image, pos, bits)
      && Pos() == pos + |bits|
    }

    /** As many of `bits` as fit were written: all of them, or those up to the end of the buffer. */
    ghost predicate WroteFitting(image: seq<bool>, pos: nat, bits: seq<bool>)
      reads this, buf
    {
      pos <= |image| && Wrote(image, pos, Fitting(bits, |image| - pos))
    }

    /** Two writes in a row, of which the second or both may have been cut off, are one write of
        both bit strings. */
    lemma ThenWroteFitting(image: seq<bool>, pos: nat, a: seq<bool>, mid: seq<bool>, b: seq<bool>)
      requires Whole(image) && pos <= |image| == |mid|
      requires mid == Splice(image, pos, Fitting(a, |image| - pos))
      requires WroteFitting(mid, pos + |Fitting(a, |image| - pos)|, b)
      ensures WroteFitting(image, pos, a + b)
    {
      hide Splice, Fitting;
      var room := |image| - pos;
      FittingConcat(a, b, room);
      ThenWrote(image, pos, Fitting(a, room), mid, Fitting(b, room - |Fitting(a, room)|));
    }

    /** The second bit string follows one that was written in full. */
    lemma ThenRest(image: seq<bool>, pos: nat, a: seq<bool>, mid: seq<bool>, b: seq<bool>)
      requires Whole(image) && pos + |a| <= |image| == |mid| && mid == Splice(image, pos, a)
      requires WroteFitting(mid, pos + |a|, b)
      ensures WroteFitting(image, pos, a + b)
    {
      hide Splice, Fitting;
      FittingAll(a, |image| - pos);
      ThenWroteFitting(image, pos, a, mid, b);
    }

    /** A write that was cut off is also the write of anything longer. */
    lemma CutOff(image: seq<bool>, pos: nat, a: seq<bool>, b: seq<bool>)
      requires WroteFitting(image, pos, a) && pos + |a| >= |image|
      ensures WroteFitting(image, pos, a + b)
    {
      hide Splice, Fitting;
      FittingConcat(a, b, |image| - pos);
    }

    lemma WroteInFull(image: seq<bool>, pos: nat, a: seq<bool>)
      requires pos + |a| <= |image|
      ensures WroteFitting(image, pos, a) <==> Wrote(image, pos, a)
    {
      hide Splice;
      FittingAll(a, |image| - pos);
    }

    /** Two writes in a row are one write of both bit strings. */
    lemma ThenWrote(image: seq<bool>, pos: nat, a: seq<bool>, mid: seq<bool>, b: seq<bool>)
      requires Whole(image) && pos + |a| <= |image| && mid == Splice(image, pos, a)
      requires Wrote(mid, pos + |a|, b)
      ensures Wrote(image, pos, a + b)
    {
      SpliceConcat(image, pos, a, b);
    }

    constructor (buffer: array<byte>)
      ensures Valid() && buf == buffer && Pos() == 0
    {
      buf, ptr, offset := buffer, 0, 0;
    }

    function Distance(): (d: nat)
      reads this
      ensures d == Pos()
    {
      offset + 8 * ptr
    }

    /** The body of the pack loop: as many leading bits of the `n`-bit number `v` as fit go
        to the octet under the cursor. */
    method FillOctet(v: uint64, n: nat) returns (left: nat)
      requires Valid() && ptr < buf.Length
      requires 0 < n < 64 && v < Pow2(n)
      modifies this, buf
      ensures Valid() && buf == old(buf)
      ensures left == n - Min(8 - old(offset), n)
      ensures Wrote(old(Image()), old(Pos()), NatToBits(v, n)[..n - left])
      ensures NatToBits(v, left) == NatToBits(v, n)[n - left..]
    {
      hide Splice, Canonical, NatToBits, BytesToBits, Shl, Shr, ClearLow, Pow2;
      var free := 8 - offset;
      var kept := ClearLow(buf[ptr], free);
      var bit := if free > n then Shl(v, free - n) % 256 else Shr(v, n - free) % 256;
      var octet: byte := (kept + bit) % 256;
      ghost var k, bs := if free > n then n else free, buf[..];
      PackStep(bs, ptr, offset, v, n, k, bit, octet);
      SpliceCanonical(BytesToBits(bs), Pos(), NatToBits(v, n)[..k]);
      buf[ptr] := octet;
      assert buf[..] == bs[ptr := octet];
      if free > n {
        offset := offset + n;
        left := 0;
      } else {
        left := n - free;
        offset := 0;
        ptr := ptr + 1;
      }
    }

    method Pack(val: uint64, nBits: nat) returns (ok: bool)
      requires Valid()
      modifies this, buf
      ensures Valid() && buf == old(buf)
      ensures ok <==> nBits < 64 && old(Room(nBits))
      ensures ok ==> Wrote(old(Image()), old(Pos()), NatToBits(val, nBits))
      ensures nBits >= 64 ==> Wrote(old(Image()), old(Pos()), [])
      ensures nBits < 64 ==> WroteFitting(old(Image()), old(Pos()), NatToBits(val, nBits))
    {
      hide Splice, Canonical, NatToBits, BytesToBits, Mask, Pow2;
      ghost var image, pos, all := Image(), Pos(), NatToBits(val, nBits);
      SpliceNothing(image, pos);
      if nBits >= 64 {
        return false;
      }
      var n, v := nBits, val;
      while n > 0
        invariant 0 <= n <= nBits
        invariant Valid() && buf == old(buf)
        invariant Wrote(image, pos, all[..nBits - n])
        invariant NatToBits(v, n) == all[nBits - n..]
      {
        if ptr >= buf.Length {
          return false;
        }
        v := MaskValue(v, n);
        var left := FillOctet(v, n);
        SpliceConcat(image, pos, all[..nBits - n], NatToBits(v, n)[..n - left]);
        assert all[..nBits - left] == all[..nBits - n] + NatToBits(v, n)[..n - left];
        n := left;
      }
      assert all[..nBits] == all;
      return true;
    }

    method PackBytes(data: seq<byte>) returns (ok: bool)
      requires Valid()
      modifies this, buf
      ensures Valid() && buf == old(buf)
      ensures ok <==> data == [] || old(ptr) + |data| < buf.Length
      ensures Wrote(old(Image()), old(Pos()), if ok then BytesToBits(data) else [])
    {
      hide Splice, Canonical, NatToBits, BytesToBits, Pow2;
      SpliceNothing(Image(), Pos());
      if |data| == 0 {
        return true;
      }
      if ptr + |data| >= buf.Length {
        return false;
      }
      ghost var image, pos := Image(), Pos();
      if offset == 0 {
        ghost var bs := buf[..];
        CopyIn(data);
        BlockCopy(bs, ptr, data);
        ptr := ptr + |data|;
        SpliceCanonical(image, pos, BytesToBits(data));
      } else {
        assert BytesToBits(data[..0]) == [];
        for i := 0 to |data|
          invariant Valid() && buf == old(buf)
          invariant Wrote(image, pos, BytesToBits(data[..i]))
          invariant ptr == old(ptr) + i
        {
          Pow2Values();
          var _ := Pack(data[i], 8);
          AppendOctet(data, i);
          SpliceConcat(image, pos, BytesToBits(data[..i]), NatToBits(data[i], 8));
        }
        assert data[..|data|] == data;
      }
      return true;
    }

    /** `memcpy` to the cursor. */
    method CopyIn(data: seq<byte>)
      requires ptr + |data| <= buf.Length
      modifies buf
      ensures buf[..] == old(buf[..ptr]) + data + old(buf[ptr + |data|..])
    {
      for i := 0 to |data|
        invariant forall j | 0 <= j < buf.Length ::
                    buf[j] == if ptr <= j < ptr + i then data[j - ptr] else old(buf[j])
      {
        buf[ptr + i] := data[i];
      }
    }

    /** Skips to the next octet boundary and leaves the skipped bits as they are. */
    method AlignBytes() returns (ok: bool)
      requires Valid()
      modifies this
      ensures Valid() && buf == old(buf) && ok
      ensures Wrote(old(Image()), old(Pos()), Zeros(Pad(old(Pos()))))
    {
      hide Splice, BytesToBits, Pad, Zeros, Whole;
      SplicePad(Image(), Pos());
      PadOf(ptr, offset);
      if offset == 0 {
        return true;
      }
      if ptr >= buf.Length {
        return false;
      }
      CanonicalAtBoundary(Image(), ptr + 1);
      offset := 0;
      ptr := ptr + 1;
      return true;
    }

    /** Skips to the next octet boundary and clears the skipped bits. */
    method AlignBytesZero() returns (ok: bool)
      requires Valid()
      modifies this, buf
      ensures Valid() && buf == old(buf) && ok
      ensures Wrote(old(Image()), old(Pos()), Zeros(Pad(old(Pos()))))
    {
      hide Splice, BytesToBits, Pad, Zeros, Whole, Canonical, ClearLow;
      SpliceNothing(Image(), Pos());
      PadOf(ptr, offset);
      NoZeros();
      if offset == 0 {
        return true;
      }
      if ptr >= buf.Length {
        return false;
      }
      ghost var bs := buf[..];
      ClearOctet(bs, ptr, offset);
      buf[ptr] := ClearLow(buf[ptr], 8 - offset);
      assert buf[..] == bs[ptr := buf[ptr]];
      CanonicalAtBoundary(Image(), ptr + 1);
      offset := 0;
      ptr := ptr + 1;
      return true;
    }
  }

  method MaskValue(v: uint64, n: nat) returns (r: uint64)
    requires n < 64
    ensures r == Mask(v, n) && r < Pow2(n) && NatToBits(r, n) == NatToBits(v, n)
  {
    NatToBitsMask(v, n);
    Pow2Mono(n, 64);
    Pow2Values();
    r := Mask(v, n);
  }

  /** The bits `o..o + k` of a `w`-bit word, as the reader's mask and shift compute them. */
  lemma WordChunk(x: nat, w: nat, o: nat, k: nat)
    requires o + k <= w
    ensures BitsToNat(NatToBits(x, w)[o..o + k]) == Shr(Mask(x, w - o), w - o - k)
    ensures Shr(ClearLow(Mask(x, w - o), w - o - k), w - o - k) == Shr(Mask(x, w - o), w - o - k)
  {
    hide *;
    var m := Mask(x, w - o);
    NatToBitsSplit(x, o, w - o);
    NatToBitsMask(x, w - o);
    assert NatToBits(x, w)[o..o + k] == NatToBits(m, w - o)[..k];
    PackChunk(m, w - o, k);
    BitsOfSmallNat(Shr(m, w - o - k), k);
    ClearLowShr(m, w - o - k);
  }

  lemma ClearLowShr(x: nat, k: nat)
    ensures Shr(ClearLow(x, k), k) == Shr(x, k)
  {
    ShrShl(Shr(x, k), 0, k);
  }

  /** One round of the unpack loop: `k` more bits of the image enter the number. */
  lemma UnpackRound(bs: seq<byte>, ptr: nat, offset: nat, p: nat, q: nat, n: nat, k: nat)
    requires ptr < |bs| && offset < 8 && k <= n && k <= 8 - offset
    requires p <= q == 8 * ptr + offset
    ensures var s := BytesToBits(bs);
            && Shl(BitsToNat(s[p..q + k]), n - k)
               == Shl(BitsToNat(s[p..q]), n) + Shl(Shr(Mask(bs[ptr], 8 - offset), 8 - offset - k), n - k)
  {
    hide *;
    var s := BytesToBits(bs);
    var c := Shr(Mask(bs[ptr], 8 - offset), 8 - offset - k);
    WordChunk(bs[ptr], 8, offset, k);
    ByteOfBits(bs, ptr);
    SubSlice(s, 8 * ptr, 8 * ptr + 8, offset, offset + k);
    assert s[p..q + k] == s[p..q] + s[q..q + k];
    BitsToNatConcat(s[p..q], s[q..q + k]);
    ShlAdd(Shl(BitsToNat(s[p..q]), k), c, n - k);
    ShlShl(BitsToNat(s[p..q]), k, n - k);
  }

  lemma UnpackFits(s: seq<bool>, n: nat, width: nat)
    requires |s| + n <= width
    ensures Shl(BitsToNat(s), n) < Pow2(width)
    ensures Mask(Shl(BitsToNat(s), n), width) == Shl(BitsToNat(s), n)
  {
    ShlBound(BitsToNat(s), |s|, n);
    Pow2Mono(|s| + n, width);
    MaskSmall(Shl(BitsToNat(s), n), width);
  }

  class CBitRef {
    const buf: seq<byte>
    var ptr: nat
    var offset: nat

    ghost predicate Valid()
      reads this
    {
      offset < 8 && ptr <= |buf| && (offset > 0 ==> ptr < |buf|)
    }

    ghost function Image(): (s: seq<bool>)
      ensures |s| == 8 * |buf| && Whole(s)
    {
      BytesToBits(buf)
    }

    ghost function Pos(): nat
      reads this
    {
      8 * ptr + offset
    }

    constructor (buffer: seq<byte>)
      ensures Valid() && buf == buffer && Pos() == 0
    {
      buf, ptr, offset := buffer, 0, 0;
    }

    /** Reads an `nBits` number into a variable of `width` bits; `width` is 8 for flags. */
    method Unpack(width: nat, nBits: nat) returns (ok: bool, val: nat)
      requires Valid()
      modifies this
      ensures Valid()
      ensures ok <==> nBits <= width && old(Pos()) + nBits <= |Image()|
      ensures ok ==> Pos() == old(Pos()) + nBits
      ensures ok ==> val == BitsToNat(Image()[old(Pos())..old(Pos()) + nBits]) && val < Pow2(nBits)
      ensures !ok ==> Pos() == if nBits > width then old(Pos()) else |Image()|
      ensures !ok && nBits <= width ==> val == ReadShort(Image(), old(Pos()), nBits)
    {
      hide NatToBits, BytesToBits, BitsToNat, Mask, Shl, Shr, ClearLow, Pow2;
      if nBits > width {
        return false, 0;
      }
      val := 0;
      var n := nBits;
      ghost var s, p := Image(), Pos();
      assert s[p..p] == [];
      ZeroRead(nBits);
      while n > 0
        invariant 0 <= n <= nBits
        invariant Valid() && Pos() == p + nBits - n
        invariant val == Shl(BitsToNat(s[p..Pos()]), n)
      {
        if ptr >= |buf| {
          assert s[p..|s|] == s[p..];
          return false, val;
        }
        var free := 8 - offset;
        ghost var k, q := if free > n then n else free, Pos();
        UnpackRound(buf, ptr, offset, p, q, n, k);
        WordChunk(buf[ptr], 8, offset, k);
        UnpackFits(s[p..q + k], n - k, width);
        if free > n {
          val := Mask(val + Shr(ClearLow(Mask(buf[ptr], free), free - n), free - n), width);
          ShiftByZero(Shr(Mask(buf[ptr], free), free - n));
          offset := offset + n;
          n := 0;
        } else {
          val := Mask(val + Shl(Mask(buf[ptr], free), n - free), width);
          ShiftByZero(Mask(buf[ptr], free));
          n := n - free;
          offset := 0;
          ptr := ptr + 1;
        }
      }
      ShiftByZero(BitsToNat(s[p..Pos()]));
      return true, val;
    }

    method UnpackBytes(n: nat) returns (ok: bool, data: seq<byte>)
      requires Valid()
      modifies this
      ensures Valid()
      ensures ok <==> old(Pos()) + 8 * n <= |Image()|
      ensures ok ==> |data| == n && BytesToBits(data) == Image()[old(Pos())..old(Pos()) + 8 * n]
      ensures Pos() == if ok then old(Pos()) + 8 * n else old(Pos())
    {
      hide BytesToBits, NatToBits, BitsToNat, Pow2;
      if n == 0 {
        assert BytesToBits([]) == [];
        return true, [];
      }
      if offset == 0 {
        if ptr + n > |buf| {
          return false, [];
        }
        data := buf[ptr..ptr + n];
        SliceBytes(buf, ptr, ptr + n);
        ptr := ptr + n;
      } else {
        if ptr + n >= |buf| {
          return false, [];
        }
        data := [];
        ghost var p := Pos();
        assert BytesToBits([]) == [];
        for i := 0 to n
          invariant Valid() && Pos() == p + 8 * i
          invariant |data| == i && BytesToBits(data) == Image()[p..p + 8 * i]
        {
          Pow2Values();
          var ok', x := Unpack(8, 8);
          if !ok' {
            return false, data;
          }
          ReadOctet(data, x, Image(), p, i);
          data := data + [x];
        }
      }
      return true, data;
    }

    /** Skips to the next octet boundary. */
    method AlignBytes() returns (ok: bool)
      requires Valid()
      modifies this
      ensures Valid() && ok && Pos() == RoundUp8(old(Pos()))
    {
      if offset == 0 {
        return true;
      }
      if ptr >= |buf| {
        return false;
      }
      offset := 0;
      ptr := ptr + 1;
      return true;
    }

    /** Skips `nBits` bits. The bound is where the single-precision quotients of the source
        still round to the integers used here. */
    method AdvanceBits(nBits: nat) returns (ok: bool)
      requires Valid()
      requires nBits < 0x100_0000
      modifies this
      ensures Valid()
      ensures ok <==> old(Pos()) + nBits <= |Image()|
      ensures Pos() == if ok then old(Pos()) + nBits else old(Pos())
    {
      var extraBits := (offset + nBits) % 8;
      var bytesRequired := CeilDiv(offset + nBits, 8);
      var bytesOffset := (offset + nBits) / 8;
      if ptr + bytesRequired > |buf| {
        return false;
      }
      ptr := ptr + bytesOffset;
      offset := extraBits;
      return true;
    }
  }

  lemma SliceBytes(bs: seq<byte>, a: nat, e: nat)
    requires a <= e <= |bs|
    ensures BytesToBits(bs[a..e]) == BytesToBits(bs)[8 * a..8 * e]
  {
    hide NatToBits;
    assert bs == bs[..a] + bs[a..e] + bs[e..];
    BytesToBitsConcat(bs[..a] + bs[a..e], bs[e..]);
    BytesToBitsConcat(bs[..a], bs[a..e]);
  }

  lemma ReadOctet(data: seq<byte>, x: byte, s: seq<bool>, p: nat, i: nat)
    requires |data| == i && p + 8 * i + 8 <= |s|
    requires BytesToBits(data) == s[p..p + 8 * i]
    requires x == BitsToNat(s[p + 8 * i..p + 8 * i + 8])
    ensures BytesToBits(data + [x]) == s[p..p + 8 * (i + 1)]
  {
    hide *;
    var q := p + 8 * i;
    BytesToBitsConcat(data, [x]);
    BytesToBitsOne(x);
    NatOfBits(s[q..q + 8]);
    assert s[p..q + 8] == s[p..q] + s[q..q + 8];
  }

  lemma ZeroRead(n: nat)
    ensures Shl(BitsToNat([]), n) == 0
  {
    if n > 0 {
      ZeroRead(n - 1);
    }
  }
}
