/**
 Bit strings: a bit string of `n` bits is kept in a byte buffer with the least significant
 octet first, and goes out with the most significant bit first.
 */
module BitString {
  import opened Bits
  import opened Options
  import opened BitImage
  import opened BitRefs
  import opened Per
  import opened PerCodec

  const UNBOUNDED := 0xFFFF_FFFF

  /** The number held by a byte buffer, least significant octet first. */
  function LittleEndian(buf: seq<byte>): nat {
    if buf == [] then 0 else buf[0] + 256 * LittleEndian(buf[1..])
  }

  lemma {:induction false} LittleEndianInjective(a: seq<byte>, b: seq<byte>)
    requires |a| == |b| && LittleEndian(a) == LittleEndian(b)
    ensures a == b
  {
    if a != [] {
      LittleEndianInjective(a[1..], b[1..]);
      assert a == [a[0]] + a[1..] && b == [b[0]] + b[1..];
    }
  }

  /** Bits in the most significant octet of an `n`-bit string. */
  function TopBits(n: nat): (r: nat)
    requires n > 0
    ensures 1 <= r <= 8 && n == 8 * (CeilDiv(n, 8) - 1) + r
  {
    (n - 1) % 8 + 1
  }

  /** The low octet goes out after everything above it. */
  lemma OctetBelow(buf: seq<byte>, k: nat, m: nat)
    requires k < |buf|
    ensures NatToBits(LittleEndian(buf[k..]), m + 8)
         == NatToBits(LittleEndian(buf[k + 1..]), m) + NatToBits(buf[k], 8)
  {
    hide NatToBits, Pow2, Shl;
    Pow2Values();
    var high := LittleEndian(buf[k + 1..]);
    assert buf[k..][1..] == buf[k + 1..];
    ShlIsMul(high, 8);
    NatToBitsConcat(high, buf[k], m, 8);
  }

  method FromNumber(number: uint64, nBits: nat) returns (ok: bool, buf: seq<byte>)
    ensures ok <==> nBits <= 64
    ensures ok ==> |buf| == CeilDiv(nBits, 8) && LittleEndian(buf) == Mask(number, nBits)
  {
    hide Mask, Shr, Shl, Pow2, LittleEndian;
    buf := [];
    if nBits > 64 {
      return false, buf;
    }
    var nofBytes := CeilDiv(nBits, 8);
    NoOctet(number);
    for i := 0 to nofBytes
      invariant |buf| == i && LittleEndian(buf) == Mask(number, 8 * i)
    {
      NextOctet(buf, number, i);
      Pow2Values();
      buf := buf + [Mask(Shr(number, i * 8), 8)];
    }
    var offset := nBits % 8;
    if offset > 0 {
      CleanTop(buf, number, nBits);
      buf := buf[nofBytes - 1 := Mask(buf[nofBytes - 1], offset)];
    } else {
      assert nBits == 8 * nofBytes;
    }
    return true, buf;
  }

  lemma NoOctet(x: nat)
    ensures LittleEndian([]) == Mask(x, 0)
  {
  }

  lemma {:induction false} LittleEndianAppend(buf: seq<byte>, x: byte)
    ensures LittleEndian(buf + [x]) == LittleEndian(buf) + Shl(x, 8 * |buf|)
  {
    if buf == [] {
      assert [] + [x] == [x];
    } else {
      LittleEndianAppend(buf[1..], x);
      assert (buf + [x])[1..] == buf[1..] + [x];
      ShlShl(x, 8 * |buf[1..]|, 8);
      ShlIsMul(Shl(x, 8 * |buf[1..]|), 8);
      Pow2Values();
    }
  }

  /** A mask is the low octets' mask plus the next octets. */
  lemma {:induction false} MaskSplit(x: nat, j: nat, k: nat)
    ensures Mask(x, j + k) == Mask(x, j) + Shl(Mask(Shr(x, j), k), j)
  {
    if j > 0 {
      MaskSplit(x / 2, j - 1, k);
    }
  }

  lemma NextOctet(buf: seq<byte>, number: nat, i: nat)
    requires |buf| == i && LittleEndian(buf) == Mask(number, 8 * i)
    ensures Mask(Shr(number, i * 8), 8) < 256
    ensures LittleEndian(buf + [Mask(Shr(number, i * 8), 8)]) == Mask(number, 8 * (i + 1))
  {
    hide Mask, Shr, Shl, LittleEndian, Pow2;
    Pow2Values();
    LittleEndianAppend(buf, Mask(Shr(number, i * 8), 8));
    MaskSplit(number, 8 * i, 8);
  }

  lemma {:induction false} MaskMask(x: nat, j: nat, k: nat)
    requires j <= k
    ensures Mask(Mask(x, k), j) == Mask(x, j)
  {
    if j > 0 {
      MaskMask(x / 2, j - 1, k - 1);
      assert Mask(x, k) / 2 == Mask(x / 2, k - 1);
    }
  }

  /** Clearing the bits above the string in the top octet. */
  lemma CleanTop(buf: seq<byte>, number: nat, nBits: nat)
    requires nBits % 8 > 0 && |buf| == CeilDiv(nBits, 8) && LittleEndian(buf) == Mask(number, 8 * |buf|)
    ensures var k := |buf| - 1;
            && Mask(buf[k], nBits % 8) < 256
            && LittleEndian(buf[k := Mask(buf[k], nBits % 8)]) == Mask(number, nBits)
  {
    hide Mask, Shr, Shl, LittleEndian, Pow2;
    var k, r := |buf| - 1, nBits % 8;
    var low, top := buf[..k], buf[k];
    Pow2Values();
    Pow2Mono(r, 8);
    assert buf == low + [top] && nBits == 8 * k + r && 8 * |buf| == 8 * k + 8;
    LittleEndianAppend(low, top);
    LittleEndianBound(low);
    MaskSplit(number, 8 * k, 8);
    MaskSplit(number, 8 * k, r);
    ShrShl(top, LittleEndian(low), 8 * k);
    ShrShl(Mask(Shr(number, 8 * k), 8), Mask(number, 8 * k), 8 * k);
    assert top == Mask(Shr(number, 8 * k), 8) && LittleEndian(low) == Mask(number, 8 * k);
    MaskMask(Shr(number, 8 * k), r, 8);
    var x: byte := Mask(top, r);
    assert buf[k := x] == low + [x];
    LittleEndianAppend(low, x);
  }

  lemma {:induction false} LittleEndianBound(buf: seq<byte>)
    ensures LittleEndian(buf) < Pow2(8 * |buf|)
  {
    if buf != [] {
      LittleEndianBound(buf[1..]);
      Pow2Add(8, 8 * |buf[1..]|);
      Pow2Values();
    }
  }

  /** `to_number`; the shifts of the source are defined up to 31 bits. */
  method ToNumber(buf: seq<byte>, nBits: nat) returns (val: nat)
    requires CeilDiv(nBits, 8) <= |buf| && (nBits <= 31 || nBits > 64)
    ensures val == if nBits > 64 then 0 else LittleEndian(buf[..CeilDiv(nBits, 8)])
  {
    hide LittleEndian, Shl;
    if nBits > 64 {
      return 0;
    }
    val := 0;
    var nofBytes := CeilDiv(nBits, 8);
    NoOctet(0);
    assert buf[..0] == [] && Mask(0, 0) == 0;
    for i := 0 to nofBytes
      invariant val == LittleEndian(buf[..i])
    {
      LittleEndianAppend(buf[..i], buf[i]);
      assert buf[..i + 1] == buf[..i] + [buf[i]];
      val := val + Shl(buf[i], i * 8);
    }
  }

  /** A number goes into a bit string and comes out reduced to its width. */
  method NumberThereAndBack(number: uint64, nBits: nat) returns (r: nat)
    requires nBits <= 31
    ensures r == Mask(number, nBits)
  {
    hide Mask, LittleEndian;
    var ok, buf := FromNumber(number, nBits);
    assert buf[..CeilDiv(nBits, 8)] == buf;
    r := ToNumber(buf, nBits);
  }

  // ------------------------------------------------------------------------
  // The bit field
  // ------------------------------------------------------------------------

  predicate FieldAligns(lb: nat, ub: nat, aligned: bool) {
    aligned && (lb != ub || ub > 16)
  }

  /** The bits of an `n`-bit string, after alignment where the variant asks for it. */
  function EncField(buf: seq<byte>, n: nat, lb: nat, ub: nat, aligned: bool, p: nat): seq<bool> {
    (if FieldAligns(lb, ub, aligned) then Zeros(Pad(p)) else []) + NatToBits(LittleEndian(buf), n)
  }

  method PackField(bref: BitRef, buf: seq<byte>, n: nat, lb: nat, ub: nat, aligned: bool) returns (ok: bool)
    requires bref.Valid() && |buf| == CeilDiv(n, 8)
    modifies bref, bref.buf
    ensures bref.Valid() && bref.buf == old(bref.buf)
    ensures var b := EncField(buf, n, lb, ub, aligned, old(bref.Pos()));
            && (ok <==> n > 0 && old(bref.Room(|b|)))
            && (ok ==> bref.Wrote(old(bref.Image()), old(bref.Pos()), b))
            && (n > 0 ==> bref.WroteFitting(old(bref.Image()), old(bref.Pos()), b))
  {
    hide Whole, Splice, Canonical, NatToBits, BytesToBits, LittleEndian, Zeros, Pad, BitRef.WroteFitting;
    if n == 0 {
      return false;
    }
    ghost var image, pos := bref.Image(), bref.Pos();
    ghost var pad := if FieldAligns(lb, ub, aligned) then Zeros(Pad(pos)) else [];
    SpliceNothing(image, pos);
    if FieldAligns(lb, ub, aligned) {
      var _ := bref.AlignBytes();
    }
    ghost var mid := bref.Image();
    ok := PackOctetsDown(bref, buf, n);
    bref.ThenRest(image, pos, pad, mid, NatToBits(LittleEndian(buf), n));
    if ok {
      bref.ThenWrote(image, pos, pad, mid, NatToBits(LittleEndian(buf), n));
    }
  }

  /** The top octet in as many bits as it has, then the others downwards. */
  method PackOctetsDown(bref: BitRef, buf: seq<byte>, n: nat) returns (ok: bool)
    requires bref.Valid() && n > 0 && |buf| == CeilDiv(n, 8)
    modifies bref, bref.buf
    ensures bref.Valid() && bref.buf == old(bref.buf)
    ensures ok <==> old(bref.Room(n))
    ensures ok ==> bref.Wrote(old(bref.Image()), old(bref.Pos()), NatToBits(LittleEndian(buf), n))
    ensures bref.WroteFitting(old(bref.Image()), old(bref.Pos()), NatToBits(LittleEndian(buf), n))
  {
    hide Whole, Splice, Canonical, NatToBits, BytesToBits, LittleEndian, BitRef.WroteFitting;
    var nOcts := CeilDiv(n, 8);
    var offset := TopBits(n);
    ghost var image, pos := bref.Image(), bref.Pos();
    ok := bref.Pack(buf[nOcts - 1], offset);
    OneOctet(buf[nOcts - 1]);
    assert buf[nOcts - 1..] == [buf[nOcts - 1]];
    if !ok {
      CutOffDown(bref, image, pos, buf, nOcts - 1, offset);
      return;
    }
    for i := 1 to nOcts
      invariant bref.Valid() && bref.buf == old(bref.buf) && ok
      invariant bref.Wrote(image, pos, NatToBits(LittleEndian(buf[nOcts - i..]), offset + 8 * (i - 1)))
    {
      ghost var mid, done := bref.Image(), NatToBits(LittleEndian(buf[nOcts - i..]), offset + 8 * (i - 1));
      ok := bref.Pack(buf[nOcts - 1 - i], 8);
      OctetBelow(buf, nOcts - 1 - i, offset + 8 * (i - 1));
      bref.ThenRest(image, pos, done, mid, NatToBits(buf[nOcts - 1 - i], 8));
      if !ok {
        CutOffDown(bref, image, pos, buf, nOcts - 1 - i, offset + 8 * i);
        return;
      }
      bref.ThenWrote(image, pos, done, mid, NatToBits(buf[nOcts - 1 - i], 8));
    }
    assert buf[0..] == buf;
    bref.WroteInFull(image, pos, NatToBits(LittleEndian(buf), n));
  }

  /** What was cut off above the `k`-th octet is cut off in the whole string. */
  lemma CutOffDown(bref: BitRef, image: seq<bool>, pos: nat, buf: seq<byte>, k: nat, m: nat)
    requires k <= |buf| && pos + m > |image|
    requires bref.WroteFitting(image, pos, NatToBits(LittleEndian(buf[k..]), m))
    ensures bref.WroteFitting(image, pos, NatToBits(LittleEndian(buf), m + 8 * k))
  {
    hide NatToBits, LittleEndian, Splice, BytesToBits, BitRef.WroteFitting;
    OctetsAbove(buf, k);
    NatToBitsSplit(LittleEndian(buf), m, 8 * k);
    bref.CutOff(image, pos, NatToBits(LittleEndian(buf[k..]), m), NatToBits(LittleEndian(buf), 8 * k));
  }

  /** The octets from the `k`-th on are the number shifted down. */
  lemma {:induction false} OctetsAbove(buf: seq<byte>, k: nat)
    requires k <= |buf|
    ensures LittleEndian(buf[k..]) == Shr(LittleEndian(buf), 8 * k)
    decreases k
  {
    if k == 0 {
      assert buf[0..] == buf;
    } else {
      hide Shr, Shl, Pow2;
      OctetsAbove(buf, k - 1);
      assert buf[k - 1..][1..] == buf[k..];
      var high := LittleEndian(buf[k..]);
      Pow2Values();
      ShlIsMul(high, 8);
      ShrShl(high, buf[k - 1], 8);
      ShrShr(LittleEndian(buf), 8 * (k - 1), 8);
    }
  }

  lemma {:induction false} ShrShr(x: nat, j: nat, k: nat)
    ensures Shr(Shr(x, j), k) == Shr(x, j + k)
  {
    if j > 0 {
      ShrShr(x / 2, j - 1, k);
    }
  }

  lemma OneOctet(x: byte)
    ensures LittleEndian([x]) == x
  {
    assert LittleEndian([x][1..]) == 0;
  }

  method UnpackField(bref: CBitRef, n: nat, lb: nat, ub: nat, aligned: bool) returns (ok: bool, buf: seq<byte>)
    requires bref.Valid()
    modifies bref
    ensures bref.Valid()
    ensures var p := if n > 0 && FieldAligns(lb, ub, aligned) then RoundUp8(old(bref.Pos())) else old(bref.Pos());
            && (ok <==> n <= ASN_64K && p + n <= |bref.Image()|)
            && (ok ==> |buf| == CeilDiv(n, 8) && LittleEndian(buf) == BitsToNat(bref.Image()[p..p + n])
                       && bref.Pos() == p + n)
  {
    hide BytesToBits, BitsToNat, Pow2, LittleEndian, RoundUp8;
    buf := [];
    if n > ASN_64K {
      return false, buf;
    }
    if n == 0 {
      EmptyField(bref.Image(), bref.Pos());
      return true, buf;
    }
    if FieldAligns(lb, ub, aligned) {
      var _ := bref.AlignBytes();
    }
    ok, buf := UnpackOctetsDown(bref, n);
  }

  lemma EmptyField(s: seq<bool>, p: nat)
    requires p <= |s|
    ensures LittleEndian([]) == BitsToNat(s[p..p + 0])
  {
  }

  method UnpackOctetsDown(bref: CBitRef, n: nat) returns (ok: bool, buf: seq<byte>)
    requires bref.Valid() && n > 0
    modifies bref
    ensures bref.Valid()
    ensures var p := old(bref.Pos());
            && (ok <==> p + n <= |bref.Image()|)
            && (ok ==> |buf| == CeilDiv(n, 8) && LittleEndian(buf) == BitsToNat(bref.Image()[p..p + n])
                       && bref.Pos() == p + n)
  {
    hide BytesToBits, BitsToNat, Pow2, LittleEndian;
    var nOcts := CeilDiv(n, 8);
    var offset := TopBits(n);
    ghost var s, p := bref.Image(), bref.Pos();
    var x;
    buf := [];
    ok, x := bref.Unpack(8, offset);
    if !ok {
      return;
    }
    Pow2Mono(offset, 8);
    Pow2Values();
    buf := [x];
    OneOctet(x);
    for i := 1 to nOcts
      invariant bref.Valid() && bref.Pos() == p + offset + 8 * (i - 1) && ok && bref.Pos() <= |s|
      invariant |buf| == i && LittleEndian(buf) == BitsToNat(s[p..bref.Pos()])
    {
      ghost var q := bref.Pos();
      ok, x := bref.Unpack(8, 8);
      if !ok {
        return;
      }
      Pow2Values();
      OctetAbove(buf, x, s, p, q);
      buf := [x] + buf;
    }
  }

  lemma OctetAbove(buf: seq<byte>, x: byte, s: seq<bool>, p: nat, q: nat)
    requires p <= q && q + 8 <= |s| && LittleEndian(buf) == BitsToNat(s[p..q]) && x == BitsToNat(s[q..q + 8])
    ensures LittleEndian([x] + buf) == BitsToNat(s[p..q + 8])
  {
    hide BitsToNat, Shl, Pow2;
    assert ([x] + buf)[1..] == buf;
    assert s[p..q + 8] == s[p..q] + s[q..q + 8];
    BitsToNatConcat(s[p..q], s[q..q + 8]);
    ShlIsMul(LittleEndian(buf), 8);
    Pow2Values();
  }

  /** A bit string made from a number is written exactly as the number is packed. */
  lemma NumberFieldBits(number: uint64, buf: seq<byte>, n: nat, p: nat)
    requires LittleEndian(buf) == Mask(number, n)
    ensures EncField(buf, n, n, n, false, p) == NatToBits(number, n)
  {
    NatToBitsMask(number, n);
    assert [] + NatToBits(LittleEndian(buf), n) == NatToBits(LittleEndian(buf), n);
  }

  /** Reading back the bits of a clean buffer restores the buffer. */
  lemma FieldRoundTrip(buf: seq<byte>, read: seq<byte>, n: nat, s: seq<bool>, p: nat)
    requires |buf| == |read| && LittleEndian(buf) < Pow2(n) && At(s, p, NatToBits(LittleEndian(buf), n))
    requires LittleEndian(read) == BitsToNat(s[p..p + n])
    ensures read == buf
  {
    hide NatToBits, BitsToNat, LittleEndian, Pow2;
    BitsOfSmallNat(LittleEndian(buf), n);
    LittleEndianInjective(buf, read);
  }

  // ------------------------------------------------------------------------
  // The length prefix
  // ------------------------------------------------------------------------

  ghost predicate IsPow2(d: nat) {
    exists k: nat :: Pow2(k) == d
  }

  /** The writer's width `ceil(log2(d))` and the reader's `ceil(log2(d + 1))` agree exactly
      when `d` is not a power of two. */
  lemma PrefixWidths(d: nat)
    requires d >= 1
    ensures CeilLog2(d) == CeilLog2(d + 1) <==> !IsPow2(d)
  {
    hide CeilLog2, Pow2;
    var w, w' := CeilLog2(d), CeilLog2(d + 1);
    if IsPow2(d) {
      var k: nat :| Pow2(k) == d;
      LeastWidth(d, k);
      assert w <= k;
      if w' <= k {
        Pow2Mono(w', k);
        assert false;
      }
    } else {
      assert Pow2(w) != d;
      LeastWidth(d + 1, w);
      LeastWidth(d, w');
    }
  }

  lemma LeastWidth(ra: nat, k: nat)
    requires ra >= 1 && ra <= Pow2(k)
    ensures CeilLog2(ra) <= k
  {
    if CeilLog2(ra) > k {
      Pow2Mono(k, CeilLog2(ra) - 1);
      assert false;
    }
  }

  /** What the writer puts in front of a bounded bit string without extension, unaligned. */
  function EncBoundedPrefix(len: nat, lb: nat, ub: nat): seq<bool>
    requires lb < ub && lb <= len
  {
    NatToBits(len - lb, CeilLog2(ub - lb))
  }

  /** For bounds below 64K whose distance is not a power of two, the prefix is read back. */
  lemma BoundedPrefixRoundTrip(len: nat, lb: nat, ub: nat, s: seq<bool>, p: nat)
    requires lb < ub < ASN_64K && lb <= len <= ub && !IsPow2(ub - lb)
    requires At(s, p, EncBoundedPrefix(len, lb, ub))
    ensures DecBoundedLength(false, lb, ub, s, p) == Ok(len, p + |EncBoundedPrefix(len, lb, ub)|)
  {
    hide NatToBits, CeilLog2, Pow2, DecConstrained;
    PrefixWidths(ub - lb);
    Pow2Values();
    WidthFits(ub - lb + 1, 16);
    ConstrainedRoundTripExactly(32, false, len, lb, ub, s, p);
  }

  /** If the distance is a power of two, the longest string gets the prefix of the shortest. */
  lemma PowerOfTwoPrefixClash(lb: nat, ub: nat)
    requires lb < ub && IsPow2(ub - lb)
    ensures EncBoundedPrefix(ub, lb, ub) == EncBoundedPrefix(lb, lb, ub)
  {
    hide CeilLog2, NatToBits, Mask, Pow2;
    var k: nat :| Pow2(k) == ub - lb;
    LeastWidth(ub - lb, k);
    var w := CeilLog2(ub - lb);
    if w < k {
      Pow2Mono(w, k);
      assert false;
    }
    MaskPow2(k);
    MaskSmall(0, k);
    NatToBitsMask(ub - lb, k);
    NatToBitsMask(0, k);
  }

  /** The prefix of every permitted length is read back. */
  ghost predicate PrefixReadsBack(lb: nat, ub: nat)
    requires lb < ub
  {
    forall len: nat, s: seq<bool>, p: nat |
      lb <= len <= ub && At(s, p, EncBoundedPrefix(len, lb, ub)) ::
        DecBoundedLength(false, lb, ub, s, p) == Ok(len, p + |EncBoundedPrefix(len, lb, ub)|)
  }

  /** Bounds on which the writer's and the reader's unaligned prefix agree. */
  lemma PrefixReadsBackExactly(lb: nat, ub: nat)
    requires lb < ub < UNBOUNDED
    ensures PrefixReadsBack(lb, ub) <==> ub < ASN_64K && !IsPow2(ub - lb)
  {
    hide DecBoundedLength, EncBoundedPrefix, IsPow2;
    if ub >= ASN_64K {
      var s := EncBoundedPrefix(ub, lb, ub);
      assert s[0..0 + |s|] == s;
      LongLengthUnread(false, lb, ub, s, 0);
      assert At(s, 0, EncBoundedPrefix(ub, lb, ub));
    } else if IsPow2(ub - lb) {
      PowerOfTwoPrefixClash(lb, ub);
      var s := EncBoundedPrefix(ub, lb, ub);
      assert s[0..0 + |s|] == s;
      assert At(s, 0, EncBoundedPrefix(ub, lb, ub)) && At(s, 0, EncBoundedPrefix(lb, lb, ub));
      var r := DecBoundedLength(false, lb, ub, s, 0);
      assert r != Ok(ub, |s|) || r != Ok(lb, |s|);
    } else {
      forall len: nat, s: seq<bool>, p: nat | lb <= len <= ub && At(s, p, EncBoundedPrefix(len, lb, ub))
        ensures DecBoundedLength(false, lb, ub, s, p) == Ok(len, p + |EncBoundedPrefix(len, lb, ub)|)
      {
        BoundedPrefixRoundTrip(len, lb, ub, s, p);
      }
    }
  }

  /** With an upper bound of 64K or more the reader expects a general length, which is shorter. */
  lemma LongLengthUnread(al: bool, lb: nat, ub: nat, s: seq<bool>, p: nat)
    requires ub >= ASN_64K
    ensures DecBoundedLength(al, lb, ub, s, p).Ok? ==> DecBoundedLength(al, lb, ub, s, p).value < ASN_16K
  {
    hide BitsToNat, Pow2, RoundUp8;
    Pow2Values();
  }

  // The aligned variant

  /** What the aligned writer puts in front of a bounded bit string. */
  function EncAlignedPrefix(len: nat, lb: nat, ub: nat, p: nat): seq<bool>
    requires lb < ub && lb <= len
  {
    EncBoundedPrefix(len, lb, ub) + Zeros(Pad(p + |EncBoundedPrefix(len, lb, ub)|))
  }

  /** The aligned reader finds the length, and reaches the writer's position when it goes on to
      the octet boundary where the bits begin. */
  ghost predicate ReadsAligned(len: nat, lb: nat, ub: nat, s: seq<bool>, p: nat)
    requires lb < ub && lb <= len
  {
    var r := DecBoundedLength(true, lb, ub, s, p);
    r.Ok? && r.value == len && RoundUp8(r.next) == p + |EncAlignedPrefix(len, lb, ub, p)|
  }

  /** The prefix of every permitted length is read back at every position. */
  ghost predicate AlignedPrefixReadsBack(lb: nat, ub: nat)
    requires lb < ub
  {
    forall len: nat, s: seq<bool>, p: nat |
      lb <= len <= ub && At(s, p, EncAlignedPrefix(len, lb, ub, p)) :: ReadsAligned(len, lb, ub, s, p)
  }

  /** Bounds and positions where both ends use the same prefix: the same width, below 64K, and in
      the aligned variant fewer than 256 lengths or whole octets on a boundary. */
  predicate PrefixesAgree(lb: nat, ub: nat, al: bool, p: nat)
    requires lb < ub
  {
    && ub < ASN_64K && CeilLog2(ub - lb) == CeilLog2(ub - lb + 1)
    && (al ==> ub - lb + 1 < 256 || (p % 8 == 0 && CeilLog2(ub - lb) % 8 == 0))
  }

  lemma AlignedPrefixRoundTrip(len: nat, lb: nat, ub: nat, s: seq<bool>, p: nat)
    requires lb < ub && lb <= len <= ub && PrefixesAgree(lb, ub, true, p)
    requires At(s, p, EncAlignedPrefix(len, lb, ub, p))
    ensures ReadsAligned(len, lb, ub, s, p)
  {
    hide NatToBits, CeilLog2, Pow2, DecConstrained, Zeros;
    Pow2Values();
    var b := EncBoundedPrefix(len, lb, ub);
    AtSplit(s, p, b, Zeros(Pad(p + |b|)));
    WidthFits(ub - lb + 1, 16);
    assert EncConstrained(true, len, lb, ub, p) == Some(b) by {
      NoZeros();
      assert [] + b == b;
    }
    ConstrainedRoundTripExactly(32, true, len, lb, ub, s, p);
  }

  /** Bounds on which the writer's and the reader's aligned prefix agree: those of the unaligned
      variant with fewer than 256 lengths. From 256 lengths on the reader looks for the prefix on
      an octet boundary, where the writer did not put it. */
  lemma AlignedPrefixReadsBackExactly(lb: nat, ub: nat)
    requires lb < ub < UNBOUNDED
    ensures AlignedPrefixReadsBack(lb, ub) <==> ub < ASN_64K && ub - lb + 1 < 256 && !IsPow2(ub - lb)
  {
    hide DecBoundedLength, EncAlignedPrefix, IsPow2, CeilLog2, Zeros, RoundUp8;
    if ub >= ASN_64K {
      var s := EncAlignedPrefix(ub, lb, ub, 0);
      assert s[0..0 + |s|] == s;
      LongLengthUnread(true, lb, ub, s, 0);
      assert At(s, 0, EncAlignedPrefix(ub, lb, ub, 0)) && !ReadsAligned(ub, lb, ub, s, 0);
    } else if IsPow2(ub - lb) {
      AlignedClash(lb, ub, 0);
      var s := EncAlignedPrefix(ub, lb, ub, 0);
      assert s[0..0 + |s|] == s;
      assert At(s, 0, EncAlignedPrefix(ub, lb, ub, 0)) && At(s, 0, EncAlignedPrefix(lb, lb, ub, 0));
      assert !ReadsAligned(ub, lb, ub, s, 0) || !ReadsAligned(lb, lb, ub, s, 0);
    } else if ub - lb + 1 >= 256 {
      PrefixWidths(ub - lb);
      var b := EncAlignedPrefix(lb + 1, lb, ub, 1);
      var s := Zeros(1) + b;
      assert s[1..1 + |b|] == b;
      ManyLengthsUnread(lb, ub, s);
      assert At(s, 1, b) && !ReadsAligned(lb + 1, lb, ub, s, 1);
    } else {
      PrefixWidths(ub - lb);
      forall len: nat, s: seq<bool>, p: nat | lb <= len <= ub && At(s, p, EncAlignedPrefix(len, lb, ub, p))
        ensures ReadsAligned(len, lb, ub, s, p)
      {
        AlignedPrefixRoundTrip(len, lb, ub, s, p);
      }
    }
  }

  lemma AlignedClash(lb: nat, ub: nat, p: nat)
    requires lb < ub && IsPow2(ub - lb)
    ensures EncAlignedPrefix(ub, lb, ub, p) == EncAlignedPrefix(lb, lb, ub, p)
  {
    PowerOfTwoPrefixClash(lb, ub);
  }

  /** One bit into the buffer, the second-shortest length is not read back. */
  lemma ManyLengthsUnread(lb: nat, ub: nat, s: seq<bool>)
    requires lb < ub < ASN_64K && ub - lb + 1 >= 256 && CeilLog2(ub - lb) == CeilLog2(ub - lb + 1)
    requires s == Zeros(1) + EncAlignedPrefix(lb + 1, lb, ub, 1)
    ensures !ReadsAligned(lb + 1, lb, ub, s, 1)
  {
    hide NatToBits, CeilLog2, Pow2, BitsToNat, Mask;
    Pow2Values();
    var w := CeilLog2(ub - lb + 1);
    WidthFits(ub - lb + 1, 16);
    assert w >= 8 by {
      if w < 8 {
        Pow2Mono(w, 7);
        assert false;
      }
    }
    var k := 8 * CeilDiv(w, 8);
    var r := ReadNat(s, 8, 32, k);
    assert |s| == RoundUp8(1 + w);
    if r.Ok? && 8 + k == |s| {
      // the last bit of what is read is padding
      assert (1 + w) % 8 != 0 && !s[|s| - 1];
      var half := EvenNumber(s[8..8 + k]);
      Pow2Mono(k, 32);
      if r.value + lb < Pow2(32) {
        MaskSmall(r.value + lb, 32);
      }
    }
  }

  lemma EvenNumber(b: seq<bool>) returns (half: nat)
    requires b != [] && !b[|b| - 1]
    ensures BitsToNat(b) == 2 * half
  {
    hide BitsToNat, Pow2;
    var h := b[..|b| - 1];
    half := BitsToNat(h);
    assert b == h + [false];
    BitsToNatConcat(h, [false]);
    ShlIsMul(half, 1);
    Pow2Values();
    NoBit();
  }

  lemma NoBit()
    ensures BitsToNat([false]) == 0
  {
  }

  // Unbounded strings, and strings outside the bounds

  /** The general length in front of an unbounded bit string, or of one outside its bounds, is
      always written without alignment but read with the alignment of the variant: the aligned
      reader finds it exactly if it starts on an octet boundary. */
  lemma GeneralPrefixExactly(len: nat, s: seq<bool>, p: nat)
    requires len < ASN_16K && At(s, p, EncLength(false, len, p).value)
    ensures DecLength(true, s, p) == Ok(len, p + |EncLength(false, len, p).value|) <==> p % 8 == 0
  {
    hide NatToBits, BitsToNat;
    if p % 8 == 0 {
      LengthVariantsAgree(len, p);
      LengthRoundTrip(true, len, s, p);
    }
  }

  /** The same for a whole prefix, whose extension bit shifts the length. */
  lemma OutsidePrefixExactly(len: nat, lb: nat, ub: nat, hasExt: bool, s: seq<bool>, p: nat)
    requires len < ASN_16K && (ub == UNBOUNDED || !(lb <= len <= ub))
    requires EncPrefix(len, lb, ub, hasExt, true, p).Some? && At(s, p, EncPrefix(len, lb, ub, hasExt, true, p).value)
    ensures DecPrefix(lb, ub, hasExt, true, s, p) == Ok(len, p + |EncPrefix(len, lb, ub, hasExt, true, p).value|)
       <==> (p + ExtWidth(hasExt)) % 8 == 0
  {
    hide NatToBits, BitsToNat, EncLength, DecLength, Pow2;
    var q := p + ExtWidth(hasExt);
    var ext := if hasExt then NatToBits(1, 1) else [];
    assert lb == ub && lb <= len <= ub ==> false;
    var tail := EncLength(false, len, q).value;
    AtSplit(s, p, ext, tail);
    if hasExt {
      Pow2Values();
      ReadBack(s, p, 8, 1, 1);
    }
    GeneralPrefixExactly(len, s, q);
  }

  function ExtWidth(hasExt: bool): nat {
    if hasExt then 1 else 0
  }

  function EncPrefix(len: nat, lb: nat, ub: nat, hasExt: bool, aligned: bool, p: nat): Option<seq<bool>> {
    var within := lb <= len <= ub;
    var ext := if hasExt then NatToBits(if within then 0 else 1, 1) else [];
    if hasExt && ub == UNBOUNDED then None
    else if !within && !hasExt then None
    else if lb == ub && within then Some(ext)
    else if ub == UNBOUNDED || !within then
      match EncLength(false, len, p + |ext|)
      case Some(b) => Some(ext + b)
      case None => None
    else
      var b := ext + EncBoundedPrefix(len, lb, ub);
      Some(b + if aligned then Zeros(Pad(p + |b|)) else [])
  }

  function DecPrefix(lb: nat, ub: nat, hasExt: bool, aligned: bool, s: seq<bool>, p: nat): Parsed<nat> {
    var (ext, q) :- if hasExt then ReadNat(s, p, 8, 1) else Ok(0, p);
    if ub == UNBOUNDED || ext != 0 then DecLength(aligned, s, q)
    else if lb == ub then Ok(lb, q)
    else DecBoundedLength(aligned, lb, ub, s, q)
  }

  /** Whether it reports success is exact; so is what is written, as far as it fits. */
  method PackLengthPrefix(bref: BitRef, len: uint32, lb: uint32, ub: uint32, hasExt: bool, aligned: bool)
    returns (ok: bool)
    requires bref.Valid()
    modifies bref, bref.buf
    ensures bref.Valid() && bref.buf == old(bref.buf)
    ensures var e := EncPrefix(len, lb, ub, hasExt, aligned, old(bref.Pos()));
            && (e.None? ==> !ok)
            && (e.Some? ==> ok == old(bref.Room(|e.value|)))
            && (e.Some? && ok ==> bref.Wrote(old(bref.Image()), old(bref.Pos()), e.value))
            && (e.Some? ==> bref.WroteFitting(old(bref.Image()), old(bref.Pos()), e.value))
  {
    hide Whole, Splice, Canonical, NatToBits, BytesToBits, EncLength, EncBoundedPrefix, EncPrefix, Zeros, Pad,
         BitRef.WroteFitting;
    PrefixCases(len, lb, ub, hasExt, aligned, bref.Pos());
    if hasExt && ub == UNBOUNDED {
      return false;
    }
    var withinBounds := lb <= len <= ub;
    if !withinBounds && !hasExt {
      return false;
    }
    ghost var image, pos := bref.Image(), bref.Pos();
    ghost var ext, tail := ExtBits(hasExt, withinBounds), PrefixTail(len, lb, ub, hasExt, aligned, pos);
    ok := PackExtFlag(bref, hasExt, withinBounds);
    if !ok {
      if tail.Some? {
        bref.CutOff(image, pos, ext, tail.value);
      }
      return;
    }
    ghost var mid := bref.Image();
    if lb == ub && withinBounds {
      WroteNothing(bref);
    } else if ub == UNBOUNDED || !withinBounds {
      ok := PackLength(bref, len, false);
    } else {
      ok := PackBoundedPrefix(bref, len, lb, ub, aligned);
    }
    if tail.Some? {
      bref.ThenRest(image, pos, ext, mid, tail.value);
      if ok {
        bref.ThenWrote(image, pos, ext, mid, tail.value);
      }
    }
  }

  function ExtBits(hasExt: bool, within: bool): seq<bool> {
    if hasExt then NatToBits(if within then 0 else 1, 1) else []
  }

  /** The prefix behind its extension bit. */
  function PrefixTail(len: nat, lb: nat, ub: nat, hasExt: bool, aligned: bool, p: nat): Option<seq<bool>> {
    var q := p + ExtWidth(hasExt);
    if lb == ub && lb <= len <= ub then Some([])
    else if ub == UNBOUNDED || !(lb <= len <= ub) then EncLength(false, len, q)
    else if aligned then Some(EncAlignedPrefix(len, lb, ub, q))
    else Some(EncBoundedPrefix(len, lb, ub))
  }

  lemma PrefixCases(len: nat, lb: nat, ub: nat, hasExt: bool, al: bool, p: nat)
    ensures var e := EncPrefix(len, lb, ub, hasExt, al, p);
            if (hasExt && ub == UNBOUNDED) || (!(lb <= len <= ub) && !hasExt) then e.None?
            else
              var tail := PrefixTail(len, lb, ub, hasExt, al, p);
              if tail.None? then e.None?
              else e == Some(ExtBits(hasExt, lb <= len <= ub) + tail.value)
  {
    hide NatToBits, EncLength, EncBoundedPrefix, Zeros, Pad;
    var ext := ExtBits(hasExt, lb <= len <= ub);
    assert ext + [] == ext;
    if lb < ub && lb <= len <= ub {
      var b := EncBoundedPrefix(len, lb, ub);
      Assoc(ext, b, Zeros(Pad(p + |ext + b|)));
      assert ext + b + [] == ext + b;
    }
  }

  method PackExtFlag(bref: BitRef, hasExt: bool, within: bool) returns (ok: bool)
    requires bref.Valid()
    modifies bref, bref.buf
    ensures bref.Valid() && bref.buf == old(bref.buf)
    ensures ok == old(bref.Room(|ExtBits(hasExt, within)|))
    ensures ok ==> bref.Wrote(old(bref.Image()), old(bref.Pos()), ExtBits(hasExt, within))
    ensures bref.WroteFitting(old(bref.Image()), old(bref.Pos()), ExtBits(hasExt, within))
  {
    hide Splice, Canonical, NatToBits, BytesToBits, BitRef.WroteFitting;
    if hasExt {
      ok := bref.Pack(if within then 0 else 1, 1);
    } else {
      WroteNothing(bref);
      ok := true;
    }
  }

  method PackBoundedPrefix(bref: BitRef, len: uint32, lb: uint32, ub: uint32, aligned: bool) returns (ok: bool)
    requires bref.Valid() && lb < ub && lb <= len
    modifies bref, bref.buf
    ensures bref.Valid() && bref.buf == old(bref.buf)
    ensures var b := if aligned then EncAlignedPrefix(len, lb, ub, old(bref.Pos())) else EncBoundedPrefix(len, lb, ub);
            && (ok <==> old(bref.Room(|b|)))
            && (ok ==> bref.Wrote(old(bref.Image()), old(bref.Pos()), b))
            && bref.WroteFitting(old(bref.Image()), old(bref.Pos()), b)
  {
    hide Whole, Splice, Canonical, NatToBits, BytesToBits, Zeros, Pad, CeilLog2, Pow2, BitRef.WroteFitting;
    Pow2Values();
    LeastWidth(ub - lb, 32);
    ghost var image, pos, b := bref.Image(), bref.Pos(), EncBoundedPrefix(len, lb, ub);
    ghost var pad := Zeros(Pad(pos + |b|));
    PadFits(pos + |b|, bref.buf.Length);
    ok := bref.Pack(len - lb, CeilLog2(ub - lb));
    if aligned {
      if !ok {
        bref.CutOff(image, pos, b, pad);
        return;
      }
      ghost var mid := bref.Image();
      ok := bref.AlignBytesZero();
      bref.ThenWrote(image, pos, b, mid, pad);
      bref.WroteInFull(image, pos, b + pad);
    }
  }

  /** There is always room for padding behind bits that fit. */
  lemma PadFits(p: nat, length: nat)
    ensures p <= 8 * length <==> p + Pad(p) <= 8 * length
  {
  }

  method UnpackLengthPrefix(bref: CBitRef, lb: uint32, ub: uint32, hasExt: bool, aligned: bool)
    returns (ok: bool, len: nat)
    requires bref.Valid()
    modifies bref
    ensures bref.Valid()
    ensures var r := DecPrefix(lb, ub, hasExt, aligned, bref.Image(), old(bref.Pos()));
            && ok == r.Ok?
            && (ok ==> len == r.value && bref.Pos() == r.next)
  {
    hide BytesToBits, ReadNat, DecLength, DecBoundedLength, Pow2;
    var ext := 0;
    if hasExt {
      ok, ext := UnpackNat(bref, 8, 1);
      if !ok {
        return ok, 0;
      }
    }
    if ub == UNBOUNDED || ext != 0 {
      ok, len := UnpackLength(bref, aligned);
      return;
    }
    if lb == ub {
      return true, lb;
    }
    ok, len := UnpackBoundedLength(bref, lb, ub, aligned);
  }

  // ------------------------------------------------------------------------
  // Whole bit strings
  // ------------------------------------------------------------------------

  /** A string of `n` bits at position `p` that the reader is sure to understand: within the bounds
      where both prefixes agree; elsewhere with a general length below 16K, which the aligned
      variant needs on an octet boundary. Other strings are misread, except that in the aligned
      variant a bounded length may be found by coincidence. */
  predicate Readable(lb: nat, ub: nat, hasExt: bool, al: bool, n: nat, p: nat) {
    if ub != UNBOUNDED && lb <= n <= ub then
      lb == ub || PrefixesAgree(lb, ub, al, p + ExtWidth(hasExt))
    else
      n < ASN_16K && (al ==> (p + ExtWidth(hasExt)) % 8 == 0)
  }

  /** A buffer of the right size without bits above the string. */
  predicate Clean(buf: seq<byte>, n: nat) {
    |buf| == CeilDiv(n, 8) && LittleEndian(buf) < Pow2(n)
  }

  function EncBitString(lb: nat, ub: nat, hasExt: bool, al: bool, buf: seq<byte>, n: nat, p: nat): Option<seq<bool>> {
    var pre := EncPrefix(n, lb, ub, hasExt, al, p);
    if n == 0 || pre.None? then None
    else Some(pre.value + EncField(buf, n, lb, ub, al, p + |pre.value|))
  }

  /** The octets of a number, least significant first. */
  function ToOctets(x: nat, k: nat): (buf: seq<byte>)
    ensures |buf| == k
  {
    if k == 0 then [] else [x % 256] + ToOctets(x / 256, k - 1)
  }

  lemma {:induction false} OctetsOfLittleEndian(buf: seq<byte>)
    ensures ToOctets(LittleEndian(buf), |buf|) == buf
  {
    if buf != [] {
      OctetsOfLittleEndian(buf[1..]);
      assert LittleEndian(buf) / 256 == LittleEndian(buf[1..]);
      assert buf == [buf[0]] + buf[1..];
    }
  }

  /** Where the bits of a non-empty string begin. */
  function FieldStart(lb: nat, ub: nat, al: bool, p: nat): nat {
    if FieldAligns(lb, ub, al) then RoundUp8(p) else p
  }

  function DecField(n: nat, lb: nat, ub: nat, al: bool, s: seq<bool>, p: nat): Parsed<seq<byte>> {
    var start := if n > 0 then FieldStart(lb, ub, al, p) else p;
    if n > ASN_64K || start + n > |s| then Fail
    else Ok(ToOctets(BitsToNat(s[start..start + n]), CeilDiv(n, 8)), start + n)
  }

  function DecBitString(lb: nat, ub: nat, hasExt: bool, al: bool, s: seq<bool>, p: nat): Parsed<(seq<byte>, nat)> {
    var (n, q) :- DecPrefix(lb, ub, hasExt, al, s, p);
    var (buf, r) :- DecField(n, lb, ub, al, s, q);
    Ok((buf, n), r)
  }

  lemma FieldReadsBack(buf: seq<byte>, n: nat, lb: nat, ub: nat, al: bool, s: seq<bool>, p: nat)
    requires 0 < n <= ASN_64K && Clean(buf, n) && At(s, p, EncField(buf, n, lb, ub, al, p))
    ensures DecField(n, lb, ub, al, s, p) == Ok(buf, p + |EncField(buf, n, lb, ub, al, p)|)
  {
    hide NatToBits, BitsToNat, LittleEndian, Pow2, Zeros, RoundUp8, ToOctets, FieldAligns;
    var pad := if FieldAligns(lb, ub, al) then Zeros(Pad(p)) else [];
    AtSplit(s, p, pad, NatToBits(LittleEndian(buf), n));
    BitsOfSmallNat(LittleEndian(buf), n);
    OctetsOfLittleEndian(buf);
  }

  /** The prefix is read back, and the reader finds the beginning of the bits: it may stop short
      of the writer, but then its alignment brings it to the same place. */
  lemma PrefixRoundTrip(n: nat, lb: nat, ub: nat, hasExt: bool, al: bool, s: seq<bool>, p: nat)
    requires Readable(lb, ub, hasExt, al, n, p) && EncPrefix(n, lb, ub, hasExt, al, p).Some?
    requires At(s, p, EncPrefix(n, lb, ub, hasExt, al, p).value)
    ensures var r := DecPrefix(lb, ub, hasExt, al, s, p);
            && r.Ok? && r.value == n
            && FieldStart(lb, ub, al, r.next)
               == FieldStart(lb, ub, al, p + |EncPrefix(n, lb, ub, hasExt, al, p).value|)
            && (!al ==> r.next == p + |EncPrefix(n, lb, ub, hasExt, al, p).value|)
  {
    hide *;
    if ub != UNBOUNDED && lb <= n <= ub {
      WithinRoundTrip(n, lb, ub, hasExt, al, s, p);
    } else if al {
      OutsideReadable(n, lb, ub, hasExt, al, p);
      OutsidePrefixExactly(n, lb, ub, hasExt, s, p);
    } else {
      OutsideReadable(n, lb, ub, hasExt, al, p);
      OutsideRoundTrip(n, lb, ub, hasExt, s, p);
    }
  }

  lemma OutsideReadable(n: nat, lb: nat, ub: nat, hasExt: bool, al: bool, p: nat)
    requires ub == UNBOUNDED || !(lb <= n <= ub)
    ensures Readable(lb, ub, hasExt, al, n, p) <==> n < ASN_16K && (al ==> (p + ExtWidth(hasExt)) % 8 == 0)
  {
  }

  lemma OutsideRoundTrip(n: nat, lb: nat, ub: nat, hasExt: bool, s: seq<bool>, p: nat)
    requires n < ASN_16K && (ub == UNBOUNDED || !(lb <= n <= ub))
    requires EncPrefix(n, lb, ub, hasExt, false, p).Some? && At(s, p, EncPrefix(n, lb, ub, hasExt, false, p).value)
    ensures DecPrefix(lb, ub, hasExt, false, s, p) == Ok(n, p + |EncPrefix(n, lb, ub, hasExt, false, p).value|)
  {
    hide NatToBits, BitsToNat, EncLength, DecLength, Pow2;
    var q := p + ExtWidth(hasExt);
    var ext := if hasExt then NatToBits(1, 1) else [];
    assert lb == ub && lb <= n <= ub ==> false;
    AtSplit(s, p, ext, EncLength(false, n, q).value);
    if hasExt {
      Pow2Values();
      ReadBack(s, p, 8, 1, 1);
    }
    LengthRoundTrip(false, n, s, q);
  }

  lemma WithinRoundTrip(n: nat, lb: nat, ub: nat, hasExt: bool, al: bool, s: seq<bool>, p: nat)
    requires Readable(lb, ub, hasExt, al, n, p) && ub != UNBOUNDED && lb <= n <= ub
    requires At(s, p, EncPrefix(n, lb, ub, hasExt, al, p).value)
    ensures var r := DecPrefix(lb, ub, hasExt, al, s, p);
            && r.Ok? && r.value == n
            && FieldStart(lb, ub, al, r.next)
               == FieldStart(lb, ub, al, p + |EncPrefix(n, lb, ub, hasExt, al, p).value|)
            && (!al ==> r.next == p + |EncPrefix(n, lb, ub, hasExt, al, p).value|)
  {
    hide NatToBits, BitsToNat, CeilLog2, EncBoundedPrefix, DecBoundedLength, IsPow2, Pow2, RoundUp8, Zeros;
    var q := p + ExtWidth(hasExt);
    var ext := if hasExt then NatToBits(0, 1) else [];
    var e := EncPrefix(n, lb, ub, hasExt, al, p).value;
    var tail := if lb == ub then [] else if al then EncAlignedPrefix(n, lb, ub, q) else EncBoundedPrefix(n, lb, ub);
    assert e == ext + tail by {
      if lb < ub {
        var b := EncBoundedPrefix(n, lb, ub);
        Assoc(ext, b, if al then Zeros(Pad(q + |b|)) else []);
        assert b + [] == b;
      }
    }
    AtSplit(s, p, ext, tail);
    if hasExt {
      Pow2Values();
      ReadBack(s, p, 8, 0, 1);
    }
    if lb < ub {
      PrefixWidths(ub - lb);
      if al {
        AlignedPrefixRoundTrip(n, lb, ub, s, q);
        Boundary(q + |EncBoundedPrefix(n, lb, ub)|);
      } else {
        BoundedPrefixRoundTrip(n, lb, ub, s, q);
      }
    }
  }

  lemma Boundary(p: nat)
    ensures RoundUp8(p + Pad(p)) == p + Pad(p)
  {
  }

  /** A whole bit string comes back, in both variants, within the bounds and outside them. */
  lemma BitStringRoundTrip(lb: nat, ub: nat, hasExt: bool, al: bool, buf: seq<byte>, n: nat, s: seq<bool>, p: nat)
    requires Readable(lb, ub, hasExt, al, n, p) && Clean(buf, n) && n <= ASN_64K
    requires EncBitString(lb, ub, hasExt, al, buf, n, p).Some?
    requires At(s, p, EncBitString(lb, ub, hasExt, al, buf, n, p).value)
    ensures DecBitString(lb, ub, hasExt, al, s, p)
         == Ok((buf, n), p + |EncBitString(lb, ub, hasExt, al, buf, n, p).value|)
  {
    hide EncPrefix, DecPrefix, EncField, Readable, CeilLog2, Clean, FieldStart;
    var pre := EncPrefix(n, lb, ub, hasExt, al, p).value;
    AtSplit(s, p, pre, EncField(buf, n, lb, ub, al, p + |pre|));
    PrefixRoundTrip(n, lb, ub, hasExt, al, s, p);
    FieldReadsBack(buf, n, lb, ub, al, s, p + |pre|);
  }

  // Strings that do not come back

  /** In the unaligned variant, exactly the readable strings come back. */
  lemma UnalignedStringExactly(lb: nat, ub: nat, hasExt: bool, buf: seq<byte>, n: nat, s: seq<bool>, p: nat)
    requires Clean(buf, n) && n <= ASN_64K && EncBitString(lb, ub, hasExt, false, buf, n, p).Some?
    requires At(s, p, EncBitString(lb, ub, hasExt, false, buf, n, p).value)
    ensures DecBitString(lb, ub, hasExt, false, s, p)
            == Ok((buf, n), p + |EncBitString(lb, ub, hasExt, false, buf, n, p).value|)
       <==> Readable(lb, ub, hasExt, false, n, p)
  {
    hide EncPrefix, DecPrefix, EncField, Readable, CeilLog2, Clean, NatToBits, LittleEndian;
    if Readable(lb, ub, hasExt, false, n, p) {
      BitStringRoundTrip(lb, ub, hasExt, false, buf, n, s, p);
    } else {
      var pre := EncPrefix(n, lb, ub, hasExt, false, p).value;
      AtSplit(s, p, pre, EncField(buf, n, lb, ub, false, p + |pre|));
      UnalignedField(buf, n, lb, ub, p + |pre|);
      UnreadablePrefix(n, lb, ub, hasExt, s, p);
    }
  }

  lemma UnalignedField(buf: seq<byte>, n: nat, lb: nat, ub: nat, p: nat)
    ensures |EncField(buf, n, lb, ub, false, p)| == n
  {
    hide LittleEndian, NatToBits;
  }

  /** The length or the end of an unreadable prefix is mistaken. */
  lemma UnreadablePrefix(n: nat, lb: nat, ub: nat, hasExt: bool, s: seq<bool>, p: nat)
    requires EncPrefix(n, lb, ub, hasExt, false, p).Some? && !Readable(lb, ub, hasExt, false, n, p) && n <= ASN_64K
    requires At(s, p, EncPrefix(n, lb, ub, hasExt, false, p).value)
    ensures DecPrefix(lb, ub, hasExt, false, s, p) != Ok(n, p + |EncPrefix(n, lb, ub, hasExt, false, p).value|)
  {
    hide NatToBits, BitsToNat, CeilLog2, EncLength, DecLength, Pow2, Mask;
    UnreadableIsWithin(n, lb, ub, hasExt, p);
    var q := p + ExtWidth(hasExt);
    var ext := if hasExt then NatToBits(0, 1) else [];
    var b := EncBoundedPrefix(n, lb, ub);
    assert EncPrefix(n, lb, ub, hasExt, false, p).value == ext + b by {
      assert ext + b + [] == ext + b;
    }
    AtSplit(s, p, ext, b);
    if hasExt {
      Pow2Values();
      ReadBack(s, p, 8, 0, 1);
    }
    if ub >= ASN_64K {
      LongBoundUnread(n, lb, ub, s, q);
    }
  }

  lemma UnreadableIsWithin(n: nat, lb: nat, ub: nat, hasExt: bool, p: nat)
    requires EncPrefix(n, lb, ub, hasExt, false, p).Some? && !Readable(lb, ub, hasExt, false, n, p) && n <= ASN_64K
    ensures lb < ub != UNBOUNDED && lb <= n <= ub && !PrefixesAgree(lb, ub, false, p)
  {
    hide NatToBits, CeilLog2;
  }

  /** Where the bound is 64K or more, the reader takes a general length. It would have to have as
      many bits as the writer's number and to denote the length, but a length so short is the
      number itself or less. */
  lemma LongBoundUnread(n: nat, lb: nat, ub: nat, s: seq<bool>, q: nat)
    requires ASN_64K <= ub && lb < ub && lb <= n <= ub && At(s, q, EncBoundedPrefix(n, lb, ub))
    ensures DecLength(false, s, q) != Ok(n, q + |EncBoundedPrefix(n, lb, ub)|)
  {
    hide NatToBits, BitsToNat, CeilLog2, Pow2;
    Pow2Values();
    var w := CeilLog2(ub - lb);
    var r := DecLengthBits(s, q);
    if r == Ok(n, q + w) {
      LengthBitsBounded(s, q);
      if w == 8 {
        assert false;
      } else {
        GeneralLengthBits(s, q);
        BitsOfSmallNat(n - lb, 16);
        assert false;
      }
    }
  }

  /** The two-octet form of a length, taken as one number, is 8000 hex more. */
  lemma GeneralLengthBits(s: seq<bool>, q: nat)
    requires DecLengthBits(s, q).Ok? && DecLengthBits(s, q).next != q + 8
    ensures DecLengthBits(s, q).next == q + 16 <= |s|
    ensures BitsToNat(s[q..q + 16]) >= 32768
  {
    hide BitsToNat, Pow2, Shl;
    Pow2Values();
    BitAt(s, q);
    BitAt(s, q + 1);
    assert s[q..q + 16] == s[q..q + 1] + s[q + 1..q + 16];
    BitsToNatConcat(s[q..q + 1], s[q + 1..q + 16]);
    ShlIsMul(1, 15);
    Pow2Add(1, 14);
  }

  /** In the aligned variant, a string that is unbounded or outside its bounds comes back exactly
      if its length starts on an octet boundary. */
  lemma OutsideStringExactly(lb: nat, ub: nat, hasExt: bool, buf: seq<byte>, n: nat, s: seq<bool>, p: nat)
    requires Clean(buf, n) && n < ASN_16K && (ub == UNBOUNDED || !(lb <= n <= ub))
    requires EncBitString(lb, ub, hasExt, true, buf, n, p).Some?
    requires At(s, p, EncBitString(lb, ub, hasExt, true, buf, n, p).value)
    ensures DecBitString(lb, ub, hasExt, true, s, p)
            == Ok((buf, n), p + |EncBitString(lb, ub, hasExt, true, buf, n, p).value|)
       <==> (p + ExtWidth(hasExt)) % 8 == 0
  {
    hide EncPrefix, DecPrefix, EncField, Clean, NatToBits, BitsToNat, LittleEndian, FieldStart, EncLength, EncShortLength,
         DecLength, Readable, ToOctets;
    var q := p + ExtWidth(hasExt);
    OutsideReadable(n, lb, ub, hasExt, true, p);
    if q % 8 == 0 {
      BitStringRoundTrip(lb, ub, hasExt, true, buf, n, s, p);
    } else {
      var pre := EncPrefix(n, lb, ub, hasExt, true, p).value;
      AtSplit(s, p, pre, EncField(buf, n, lb, ub, true, p + |pre|));
      OutsidePrefixParts(n, lb, ub, hasExt, s, p);
      OffBoundary(buf, n, lb, ub, s, q);
    }
  }

  /** The prefix is an extension bit and a general length, and so is what the reader expects. */
  lemma OutsidePrefixParts(n: nat, lb: nat, ub: nat, hasExt: bool, s: seq<bool>, p: nat)
    requires n < ASN_16K && (ub == UNBOUNDED || !(lb <= n <= ub)) && EncPrefix(n, lb, ub, hasExt, true, p).Some?
    requires At(s, p, EncPrefix(n, lb, ub, hasExt, true, p).value)
    ensures var q := p + ExtWidth(hasExt);
            && p + |EncPrefix(n, lb, ub, hasExt, true, p).value| == q + |EncShortLength(n)|
            && At(s, q, EncShortLength(n))
            && DecPrefix(lb, ub, hasExt, true, s, p) == DecLength(true, s, q)
  {
    hide NatToBits, BitsToNat, EncShortLength, DecLength, Pow2;
    var ext := if hasExt then NatToBits(1, 1) else [];
    assert lb == ub && lb <= n <= ub ==> false;
    AtSplit(s, p, ext, EncShortLength(n));
    if hasExt {
      Pow2Values();
      ReadBack(s, p, 8, 1, 1);
    }
  }

  /** Off the boundary the reader would have to find the same length again behind the padding;
      its bits would then be their own shift, hence all zero. */
  lemma OffBoundary(buf: seq<byte>, n: nat, lb: nat, ub: nat, s: seq<bool>, q: nat)
    requires 0 < n < ASN_16K && q % 8 != 0 && At(s, q, EncShortLength(n))
    requires At(s, q + |EncShortLength(n)|, EncField(buf, n, lb, ub, true, q + |EncShortLength(n)|))
    ensures var e := q + |EncShortLength(n)|;
            var r := DecLength(true, s, q);
            !(r.Ok? && r.value == n
              && FieldStart(lb, ub, true, r.next) + n == e + |EncField(buf, n, lb, ub, true, e)|)
  {
    hide NatToBits, BitsToNat, LittleEndian, EncShortLength, DecLengthOctets, Zeros, RoundUp8, Pad, At, EncField;
    var len, r := EncShortLength(n), DecLength(true, s, q);
    LengthWhole(n);
    LengthReadWhole(s, RoundUp8(q));
    if r.Ok? && r.value == n {
      FieldEnds(buf, n, lb, ub, q, |len|, r.next);
      if FieldAligns(lb, ub, true) && r.next == RoundUp8(q) + |len| {
        FieldPad(buf, n, lb, ub, s, q + |len|);
        LengthUnique(s, RoundUp8(q), n);
        ShiftedLength(s, q, n);
      }
    }
  }

  /** Where the bits end for the writer and for a reader that took the length up to `x`: together
      only if both lengths have the same number of octets and the bits are aligned. */
  lemma FieldEnds(buf: seq<byte>, n: nat, lb: nat, ub: nat, q: nat, k: nat, x: nat)
    requires q % 8 != 0 && k % 8 == 0 && x % 8 == 0
    ensures FieldStart(lb, ub, true, x) + n == q + k + |EncField(buf, n, lb, ub, true, q + k)|
       <==> FieldAligns(lb, ub, true) && x == RoundUp8(q) + k
  {
    hide NatToBits, LittleEndian, FieldAligns, RoundUp8, Pad, Zeros;
    PadAgain(q, k);
    assert RoundUp8(x) == x;
  }

  lemma FieldPad(buf: seq<byte>, n: nat, lb: nat, ub: nat, s: seq<bool>, e: nat)
    requires FieldAligns(lb, ub, true) && At(s, e, EncField(buf, n, lb, ub, true, e))
    ensures At(s, e, Zeros(Pad(e)))
  {
    hide NatToBits, LittleEndian, Zeros, Pad, FieldAligns;
    AtSplit(s, e, Zeros(Pad(e)), NatToBits(LittleEndian(buf), n));
  }

  lemma LengthWhole(n: nat)
    ensures |EncShortLength(n)| % 8 == 0
  {
    hide NatToBits;
  }

  lemma LengthReadWhole(s: seq<bool>, x: nat)
    requires x % 8 == 0
    ensures DecLengthOctets(s, x).Ok? ==> DecLengthOctets(s, x).next % 8 == 0
  {
    hide BitsToNat;
  }

  /** A length that was read from as many bits as it has is its own encoding. */
  lemma LengthUnique(s: seq<bool>, x: nat, n: nat)
    requires n < ASN_16K && DecLengthOctets(s, x) == Ok(n, x + |EncShortLength(n)|)
    ensures At(s, x, EncShortLength(n))
  {
    hide NatToBits, BitsToNat, Pow2;
    Pow2Values();
    NatOfBits(s[x..x + 8]);
    if n >= 128 {
      NatOfBits(s[x + 8..x + 16]);
      TwoOctets(n);
      assert s[x..x + 16] == s[x..x + 8] + s[x + 8..x + 16];
    }
  }

  /** The same length cannot stand at a position and, behind zero padding, at the next boundary. */
  lemma ShiftedLength(s: seq<bool>, q: nat, n: nat)
    requires 0 < n < ASN_16K && q % 8 != 0 && At(s, q, EncShortLength(n)) && |EncShortLength(n)| % 8 == 0
    requires At(s, q + |EncShortLength(n)|, Zeros(Pad(q + |EncShortLength(n)|)))
    ensures !At(s, RoundUp8(q), EncShortLength(n))
  {
    hide EncShortLength, Zeros, At;
    if At(s, RoundUp8(q), EncShortLength(n)) {
      IsOwnShift(s, q, EncShortLength(n));
      OwnShift(EncShortLength(n), Pad(q), 0);
      LengthNotZero(n);
      assert false;
    }
  }

  lemma IsOwnShift(s: seq<bool>, q: nat, b: seq<bool>)
    requires q % 8 != 0 && |b| % 8 == 0 && At(s, q, b) && At(s, RoundUp8(q), b)
    requires At(s, q + |b|, Zeros(Pad(q + |b|)))
    ensures Pad(q) > 0
    ensures forall i | 0 <= i < |b| :: b[i] == (i + Pad(q) < |b| && b[i + Pad(q)])
  {
    var r := Pad(q);
    PadAgain(q, |b|);
    hide RoundUp8, Pad;
    forall i | 0 <= i < |b|
      ensures b[i] == (i + r < |b| && b[i + r])
    {
      AtIndex(s, q + r, b, i);
      if i + r < |b| {
        AtIndex(s, q, b, i + r);
      } else {
        AtIndex(s, q + |b|, Zeros(r), i + r - |b|);
      }
    }
  }

  lemma PadAgain(q: nat, k: nat)
    requires q % 8 != 0 && k % 8 == 0
    ensures Pad(q + k) == Pad(q) > 0 && RoundUp8(q) == q + Pad(q)
  {
  }

  lemma AtIndex(s: seq<bool>, p: nat, b: seq<bool>, i: nat)
    requires At(s, p, b) && i < |b|
    ensures p + i < |s| && s[p + i] == b[i]
  {
    assert s[p..p + |b|][i] == s[p + i];
  }

  lemma {:induction false} OwnShift(b: seq<bool>, r: nat, i: nat)
    requires r > 0 && forall j | 0 <= j < |b| :: b[j] == (j + r < |b| && b[j + r])
    ensures forall j | i <= j < |b| :: !b[j]
    decreases |b| - i
  {
    if i < |b| {
      OwnShift(b, r, i + 1);
      assert b[i] == (i + r < |b| && b[i + r]);
    }
  }

  lemma LengthNotZero(n: nat)
    requires 0 < n < ASN_16K
    ensures exists i | 0 <= i < |EncShortLength(n)| :: EncShortLength(n)[i]
  {
    hide Pow2, BitsToNat;
    if n < 128 {
      if forall i | 0 <= i < 8 :: !NatToBits(n, 8)[i] {
        assert NatToBits(n, 8) == Zeros(8);
        NatToBitsZero(8);
        Pow2Values();
        BitsOfSmallNat(n, 8);
        BitsOfSmallNat(0, 8);
        assert false;
      }
      var i :| 0 <= i < 8 && NatToBits(n, 8)[i];
      assert EncShortLength(n)[i];
    } else {
      assert NatToBits(2, 2)[0];
      assert EncShortLength(n)[0];
    }
  }

  method PackBitString(bref: BitRef, lb: uint32, ub: uint32, hasExt: bool, aligned: bool, buf: seq<byte>, n: uint32)
    returns (ok: bool)
    requires bref.Valid() && |buf| == CeilDiv(n, 8)
    modifies bref, bref.buf
    ensures bref.Valid() && bref.buf == old(bref.buf)
    ensures var e := EncBitString(lb, ub, hasExt, aligned, buf, n, old(bref.Pos()));
            && (e.None? ==> !ok)
            && (e.Some? ==> ok == old(bref.Room(|e.value|)))
            && (e.Some? && ok ==> bref.Wrote(old(bref.Image()), old(bref.Pos()), e.value))
            && (e.Some? ==> bref.WroteFitting(old(bref.Image()), old(bref.Pos()), e.value))
  {
    hide Whole, Splice, Canonical, BytesToBits, EncPrefix, EncField, BitRef.WroteFitting;
    ghost var image, pos, pre := bref.Image(), bref.Pos(), EncPrefix(n, lb, ub, hasExt, aligned, bref.Pos());
    ok := PackLengthPrefix(bref, n, lb, ub, hasExt, aligned);
    if !ok {
      if pre.Some? {
        bref.CutOff(image, pos, pre.value, EncField(buf, n, lb, ub, aligned, pos + |pre.value|));
      }
      return;
    }
    ghost var mid, field := bref.Image(), EncField(buf, n, lb, ub, aligned, bref.Pos());
    ok := PackField(bref, buf, n, lb, ub, aligned);
    if n > 0 {
      bref.ThenRest(image, pos, pre.value, mid, field);
      if ok {
        bref.ThenWrote(image, pos, pre.value, mid, field);
      }
    }
  }

  method UnpackBitString(bref: CBitRef, lb: uint32, ub: uint32, hasExt: bool, aligned: bool)
    returns (ok: bool, buf: seq<byte>, n: nat)
    requires bref.Valid()
    modifies bref
    ensures bref.Valid()
    ensures var r := DecBitString(lb, ub, hasExt, aligned, bref.Image(), old(bref.Pos()));
            && ok == r.Ok?
            && (ok ==> (buf, n) == r.value && bref.Pos() == r.next)
  {
    hide BytesToBits, DecPrefix, BitsToNat, LittleEndian, ToOctets, RoundUp8;
    buf := [];
    ok, n := UnpackLengthPrefix(bref, lb, ub, hasExt, aligned);
    if !ok {
      return;
    }
    ok, buf := UnpackField(bref, n, lb, ub, aligned);
    if ok {
      OctetsOfLittleEndian(buf);
    }
  }
}
