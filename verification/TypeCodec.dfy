/**
 Imperative encoders and decoders of enumerations, extension-group flags, octet strings and
 open fields, proved against the functions of `PerTypes`.
 */
module TypeCodec {
  import opened Bits
  import opened Options
  import opened BitImage
  import opened BitRefs
  import opened Per
  import opened PerTypes
  import opened PerCodec

  // ------------------------------------------------------------------------
  // Enumerations
  // ------------------------------------------------------------------------

  method PackEnum(bref: BitRef, t: EnumType, e: uint32) returns (ok: bool)
    requires bref.Valid() && t.Valid()
    modifies bref, bref.buf
    ensures bref.Valid() && bref.buf == old(bref.buf)
    ensures var enc := EncEnum(t, e);
            && (ok <==> enc.Some? && old(bref.Room(|enc.value|)))
            && (ok ==> bref.Wrote(old(bref.Image()), old(bref.Pos()), enc.value))
            && (enc.Some? ==> bref.WroteFitting(old(bref.Image()), old(bref.Pos()), enc.value))
  {
    hide Whole, Splice, Canonical, NatToBits, BytesToBits, CeilLog2, Pow2, BitRef.WroteFitting;
    if e >= t.nTypes {
      return false;
    }
    RootWidth(t);
    if !t.hasExt {
      ok := bref.Pack(e, CeilLog2(t.nTypes));
      return;
    }
    var nNoExt := t.nTypes - t.nExts;
    var nBits := CeilLog2(nNoExt);
    if e < nNoExt {
      ok := PackBoth(bref, 0, 1, e, nBits);
    } else {
      ok := PackExtension(bref, e - nNoExt);
    }
  }

  /** A set extension bit, then the number of the extension value. */
  method PackExtension(bref: BitRef, x: uint32) returns (ok: bool)
    requires bref.Valid()
    modifies bref, bref.buf
    ensures bref.Valid() && bref.buf == old(bref.buf)
    ensures ok <==> EncSmall(x).Some? && old(bref.Room(8))
    ensures EncSmall(x).Some? ==>
              var b := NatToBits(1, 1) + EncSmall(x).value;
              && (ok ==> bref.Wrote(old(bref.Image()), old(bref.Pos()), b))
              && bref.WroteFitting(old(bref.Image()), old(bref.Pos()), b)
  {
    hide Whole, Splice, Canonical, NatToBits, BytesToBits, BitRef.WroteFitting;
    ghost var image, pos, small := bref.Image(), bref.Pos(), EncSmall(x);
    ok := bref.Pack(1, 1);
    if !ok {
      if small.Some? {
        bref.CutOff(image, pos, NatToBits(1, 1), small.value);
      }
      return;
    }
    ghost var mid := bref.Image();
    ok := PackSmall(bref, x);
    if small.Some? {
      bref.ThenRest(image, pos, NatToBits(1, 1), mid, small.value);
      if ok {
        bref.ThenWrote(image, pos, NatToBits(1, 1), mid, small.value);
      }
    }
  }

  lemma RootWidth(t: EnumType)
    requires t.Valid()
    ensures CeilLog2(t.Root()) <= 32
  {
    Pow2Values();
    if t.Root() >= 2 {
      WidthFits(t.Root(), 32);
    }
  }

  method UnpackEnum(bref: CBitRef, t: EnumType) returns (ok: bool, e: nat)
    requires bref.Valid() && t.Valid()
    modifies bref
    ensures bref.Valid()
    ensures var r := DecEnum(t, bref.Image(), old(bref.Pos()));
            && ok == r.Ok?
            && (ok ==> e == r.value && bref.Pos() == r.next)
    ensures (e, bref.Pos()) == EnumKept(t, bref.Image(), old(bref.Pos()))
  {
    hide BytesToBits, CeilLog2, Pow2, Mask, DecSmall, BitsToNat, ReadShort;
    EnumRead(t, bref.Image(), bref.Pos());
    EnumKeptReads(t, bref.Image(), bref.Pos());
    e := 0;
    if t.hasExt {
      var nBits := CeilLog2(t.nTypes - t.nExts);
      var ext;
      ok, ext := UnpackNat(bref, 8, 1);
      if !ok {
        return;
      }
      if ext == 0 {
        ok, e := UnpackNat(bref, 32, nBits);
      } else {
        ok, e := UnpackSmall(bref);
        e := Mask(e + (t.nTypes - t.nExts), 32);
      }
    } else {
      ok, e := UnpackNat(bref, 32, CeilLog2(t.nTypes));
    }
    if e >= t.nTypes {
      ok := false;
    }
  }

  // ------------------------------------------------------------------------
  // Extension-group presence flags
  // ------------------------------------------------------------------------

  /** Without a group the count wraps around and is refused, but one bit has been written. */
  method PackFlags(bref: BitRef, groups: seq<bool>) returns (ok: bool)
    requires bref.Valid() && |groups| < 0x8000_0000
    modifies bref, bref.buf
    ensures bref.Valid() && bref.buf == old(bref.buf)
    ensures var e := EncFlags(groups);
            && (ok <==> e.Some? && old(bref.Room(|e.value|)))
            && (ok ==> bref.Wrote(old(bref.Image()), old(bref.Pos()), e.value))
            && bref.WroteFitting(old(bref.Image()), old(bref.Pos()), if e.Some? then e.value else [true])
  {
    hide Whole, Splice, Canonical, NatToBits, BytesToBits, Pow2, BitRef.WroteFitting, NofGroups;
    var n := CountGroups(groups);
    var last := (n + 0xFFFF_FFFF) % 0x1_0000_0000;
    ghost var image, pos := bref.Image(), bref.Pos();
    ok := PackSmall(bref, last);
    if !ok {
      if 0 < n <= 64 {
        bref.CutOff(image, pos, NatToBits(n - 1, 7), groups[..n]);
      }
      return;
    }
    ghost var mid, head := bref.Image(), NatToBits(n - 1, 7);
    ok := PackFlagBits(bref, groups[..n]);
    bref.ThenRest(image, pos, head, mid, groups[..n]);
    if ok {
      bref.ThenWrote(image, pos, head, mid, groups[..n]);
    }
  }

  method PackFlagBits(bref: BitRef, flags: seq<bool>) returns (ok: bool)
    requires bref.Valid()
    modifies bref, bref.buf
    ensures bref.Valid() && bref.buf == old(bref.buf)
    ensures ok <==> old(bref.Room(|flags|))
    ensures ok ==> bref.Wrote(old(bref.Image()), old(bref.Pos()), flags)
    ensures bref.WroteFitting(old(bref.Image()), old(bref.Pos()), flags)
  {
    hide Whole, Splice, Canonical, NatToBits, BytesToBits, BitRef.WroteFitting;
    ghost var image, pos := bref.Image(), bref.Pos();
    WroteNothing(bref);
    assert flags[..0] == [];
    for j := 0 to |flags|
      invariant bref.Valid() && bref.buf == old(bref.buf)
      invariant bref.Wrote(image, pos, flags[..j])
    {
      ghost var mid := bref.Image();
      ok := bref.Pack(if flags[j] then 1 else 0, 1);
      OneFlag(flags[j]);
      NextFlag([], flags, j);
      bref.ThenRest(image, pos, flags[..j], mid, [flags[j]]);
      if !ok {
        assert flags == flags[..j + 1] + flags[j + 1..];
        bref.CutOff(image, pos, flags[..j + 1], flags[j + 1..]);
        return;
      }
      bref.ThenWrote(image, pos, flags[..j], mid, [flags[j]]);
    }
    assert flags[..|flags|] == flags;
    bref.WroteInFull(image, pos, flags);
    ok := true;
  }

  lemma NextFlag(head: seq<bool>, groups: seq<bool>, j: nat)
    requires j < |groups|
    ensures head + groups[..j] + [groups[j]] == head + groups[..j + 1]
    ensures groups[..j] + [groups[j]] == groups[..j + 1]
  {
  }

  lemma OneFlag(b: bool)
    ensures NatToBits(if b then 1 else 0, 1) == [b]
  {
  }

  /** The downward scan for the last group that is present. */
  method CountGroups(groups: seq<bool>) returns (n: nat)
    ensures n == NofGroups(groups)
  {
    var i := |groups| - 1;
    assert groups[..i + 1] == groups;
    while i >= 0
      invariant -1 <= i < |groups|
      invariant NofGroups(groups[..i + 1]) == NofGroups(groups)
    {
      if groups[i] {
        break;
      }
      assert groups[..i + 1][..i] == groups[..i];
      i := i - 1;
    }
    n := i + 1;
  }

  /** Also says what is left for a caller who goes on after a failure: the flags read so far. */
  method UnpackFlags(bref: CBitRef, supported: nat) returns (ok: bool, groups: seq<bool>, nUnpacked: nat)
    requires bref.Valid()
    modifies bref
    ensures bref.Valid()
    ensures ok == DecFlags(supported, bref.Image(), old(bref.Pos())).Ok?
    ensures var r := FlagsKept(supported, bref.Image(), old(bref.Pos()));
            && r.Ok? == (nUnpacked <= |groups|)
            && (r.Ok? ==> groups == r.value && bref.Pos() == r.next)
    ensures supported <= |groups|
  {
    hide BytesToBits, DecSmall, BitsToNat, SmallCutOff, Zeros, Pow2;
    groups := Zeros(supported);
    ok, nUnpacked := UnpackSmall(bref);
    if !ok {
      return;
    }
    SmallNext(bref.Image(), old(bref.Pos()));
    nUnpacked := nUnpacked + 1;
    MoreZeros(supported, Max(nUnpacked, supported) - supported);
    groups := groups + Zeros(Max(nUnpacked, supported) - supported);
    ok, groups := UnpackFlagBits(bref, groups, nUnpacked);
  }

  /** The first `n` flags one by one, as far as there are bits. */
  method UnpackFlagBits(bref: CBitRef, clear: seq<bool>, n: nat) returns (ok: bool, groups: seq<bool>)
    requires bref.Valid() && n <= |clear| && clear == Zeros(|clear|)
    modifies bref
    ensures bref.Valid()
    ensures ok == (old(bref.Pos()) + n <= |bref.Image()|)
    ensures var q := old(bref.Pos());
            var k := if ok then n else |bref.Image()| - q;
            && bref.Pos() == q + k
            && groups == bref.Image()[q..q + k] + Zeros(|clear| - k)
  {
    hide BytesToBits, BitsToNat, Zeros, Pow2;
    ok, groups := true, clear;
    ghost var s, q, size := bref.Image(), bref.Pos(), |groups|;
    assert s[q..q + 0] + Zeros(size) == Zeros(size);
    for i := 0 to n
      invariant bref.Valid() && bref.Pos() == q + i && q + i <= |s| && ok
      invariant |groups| == size && groups == s[q..q + i] + Zeros(size - i)
    {
      var flag;
      ok, flag := bref.Unpack(8, 1);
      if !ok {
        return;
      }
      FlagValue(s[q + i]);
      OneBit(s, q + i);
      FlagRead(s, q, i, size);
      groups := groups[i := flag != 0];
    }
  }

  lemma FlagRead(s: seq<bool>, q: nat, i: nat, size: nat)
    requires i < size && q + i < |s|
    ensures (s[q..q + i] + Zeros(size - i))[i := s[q + i]] == s[q..q + i + 1] + Zeros(size - (i + 1))
  {
  }

  lemma MoreZeros(a: nat, b: nat)
    ensures Zeros(a) + Zeros(b) == Zeros(a + b)
  {
  }

  lemma OneBit(s: seq<bool>, k: nat)
    requires k < |s|
    ensures s[k..k + 1] == [s[k]]
  {
  }

  lemma FlagValue(b: bool)
    ensures BitsToNat([b]) == if b then 1 else 0
  {
  }

  // ------------------------------------------------------------------------
  // Octet strings
  // ------------------------------------------------------------------------

  method PackOctets(bref: BitRef, octets: seq<byte>, aligned: bool) returns (ok: bool)
    requires bref.Valid() && |octets| < 0x1_0000_0000
    modifies bref, bref.buf
    ensures bref.Valid() && bref.buf == old(bref.buf)
    ensures var e := EncOctets(aligned, octets, old(bref.Pos()));
            && (ok <==> e.Some? && old(bref.Room(|e.value|)))
            && (ok ==> bref.Wrote(old(bref.Image()), old(bref.Pos()), e.value))
            && (e.Some? ==> bref.WroteFitting(old(bref.Image()), old(bref.Pos()), e.value))
  {
    hide Whole, Splice, Canonical, NatToBits, BytesToBits, EncLength, BitRef.WroteFitting;
    ghost var image, pos, head := bref.Image(), bref.Pos(), EncLength(aligned, |octets|, bref.Pos());
    ok := PackLength(bref, |octets|, aligned);
    if !ok {
      if head.Some? {
        bref.CutOff(image, pos, head.value, BytesToBits(octets));
      }
      return;
    }
    ghost var mid := bref.Image();
    ok := PackOctetBits(bref, octets);
    bref.ThenRest(image, pos, head.value, mid, BytesToBits(octets));
    if ok {
      bref.ThenWrote(image, pos, head.value, mid, BytesToBits(octets));
    }
  }

  method PackOctetBits(bref: BitRef, octets: seq<byte>) returns (ok: bool)
    requires bref.Valid()
    modifies bref, bref.buf
    ensures bref.Valid() && bref.buf == old(bref.buf)
    ensures ok <==> old(bref.Room(8 * |octets|))
    ensures ok ==> bref.Wrote(old(bref.Image()), old(bref.Pos()), BytesToBits(octets))
    ensures bref.WroteFitting(old(bref.Image()), old(bref.Pos()), BytesToBits(octets))
  {
    hide Whole, Splice, Canonical, NatToBits, BytesToBits, BitRef.WroteFitting;
    ghost var image, pos := bref.Image(), bref.Pos();
    NoOctets(octets);
    WroteNothing(bref);
    for i := 0 to |octets|
      invariant bref.Valid() && bref.buf == old(bref.buf)
      invariant bref.Wrote(image, pos, BytesToBits(octets[..i]))
    {
      ghost var mid := bref.Image();
      ok := bref.Pack(octets[i], 8);
      AppendOctet(octets, i);
      bref.ThenRest(image, pos, BytesToBits(octets[..i]), mid, NatToBits(octets[i], 8));
      if !ok {
        assert octets == octets[..i + 1] + octets[i + 1..];
        BytesToBitsConcat(octets[..i + 1], octets[i + 1..]);
        bref.CutOff(image, pos, BytesToBits(octets[..i + 1]), BytesToBits(octets[i + 1..]));
        return;
      }
      bref.ThenWrote(image, pos, BytesToBits(octets[..i]), mid, NatToBits(octets[i], 8));
    }
    assert octets[..|octets|] == octets;
    bref.WroteInFull(image, pos, BytesToBits(octets));
    ok := true;
  }

  lemma NoOctets(octets: seq<byte>)
    ensures BytesToBits(octets[..0]) == []
  {
  }

  method UnpackOctets(bref: CBitRef, aligned: bool) returns (ok: bool, octets: seq<byte>)
    requires bref.Valid()
    modifies bref
    ensures bref.Valid()
    ensures var r := DecOctets(aligned, bref.Image(), old(bref.Pos()));
            && ok == r.Ok?
            && (ok ==> octets == r.value && bref.Pos() == r.next)
  {
    hide BytesToBits, DecLength, Pow2, BitsToNat;
    octets := [];
    var len;
    ok, len := UnpackLength(bref, aligned);
    if !ok {
      return;
    }
    ghost var s, q := bref.Image(), bref.Pos();
    for i := 0 to len
      invariant bref.Valid() && bref.Pos() == q + 8 * i
      invariant ReadOctets(s, q, i) == Ok(octets, q + 8 * i)
    {
      var x;
      ok, x := bref.Unpack(8, 8);
      if !ok {
        return;
      }
      Pow2Values();
      octets := octets + [x];
    }
  }
}
