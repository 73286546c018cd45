/**
 Enumerations, extension-group bitmaps, octet strings and open fields as functions on bit
 strings, in the manner of `Per`.
 */
module PerTypes {
  import opened Bits
  import opened Options
  import opened BitImage
  import opened BitRefs
  import opened Per

  // ------------------------------------------------------------------------
  // Enumerations
  // ------------------------------------------------------------------------

  /** The compile-time constants of an enumerated type: `nTypes` values, of which the last
      `nExts` are extensions if there is an extension marker. */
  datatype EnumType = EnumType(nTypes: nat, nExts: nat, hasExt: bool) {
    predicate Valid() {
      1 <= nTypes < 0x1_0000_0000 && (hasExt ==> nExts < nTypes)
    }
    /** Number of values outside the extension. */
    function Root(): nat
      requires Valid()
    {
      if hasExt then nTypes - nExts else nTypes
    }
  }

  function EncEnum(t: EnumType, e: nat): Option<seq<bool>>
    requires t.Valid()
  {
    if e >= t.nTypes then None
    else if !t.hasExt then Some(NatToBits(e, CeilLog2(t.Root())))
    else if e < t.Root() then Some(NatToBits(0, 1) + NatToBits(e, CeilLog2(t.Root())))
    else
      match EncSmall(e - t.Root())
      case Some(b) => Some(NatToBits(1, 1) + b)
      case None => None
  }

  function DecEnum(t: EnumType, s: seq<bool>, p: nat): (r: Parsed<nat>)
    requires t.Valid()
    ensures r.Ok? ==> r.value < t.nTypes
  {
    var (e, q) :-
      if !t.hasExt then ReadNat(s, p, 32, CeilLog2(t.Root()))
      else
        var (ext, q) :- ReadNat(s, p, 8, 1);
        if ext == 0 then ReadNat(s, q, 32, CeilLog2(t.Root()))
        else
          var (x, r) :- DecSmall(s, q);
          Ok(Mask(x + t.Root(), 32), r);
    if e >= t.nTypes then Fail else Ok(e, q)
  }

  /** The value and the position after reading an enumeration, whether the read succeeded or not:
      the variable is zero before, and the root count is added to whatever is left of the number
      of an extension value. */
  function EnumKept(t: EnumType, s: seq<bool>, p: nat): (nat, nat)
    requires t.Valid()
  {
    if !t.hasExt then ReadKept(s, p, CeilLog2(t.Root()))
    else if p >= |s| then (0, |s|)
    else if !s[p] then ReadKept(s, p + 1, CeilLog2(t.Root()))
    else
      var (x, q) := SmallKept(s, p + 1);
      (Mask(x + t.Root(), 32), q)
  }

  /** A read that succeeds leaves the value read, and one that leaves no value of the type fails. */
  lemma EnumKeptReads(t: EnumType, s: seq<bool>, p: nat)
    requires t.Valid()
    ensures var d, r := DecEnum(t, s, p), EnumKept(t, s, p);
            && (d.Ok? ==> r == (d.value, d.next))
            && (r.0 >= t.nTypes ==> d.Fail?)
  {
    hide BitsToNat, Pow2, CeilLog2, Mask, ReadShort, DecSmall, SmallCutOff;
    EnumRead(t, s, p);
  }

  lemma EnumRead(t: EnumType, s: seq<bool>, p: nat)
    requires t.Valid()
    ensures CeilLog2(t.Root()) <= 32
    ensures t.hasExt && p < |s| ==> ReadNat(s, p, 8, 1) == Ok(if s[p] then 1 else 0, p + 1)
  {
    hide ReadNat, CeilLog2;
    Pow2Values();
    if t.Root() >= 2 {
      WidthFits(t.Root(), 32);
    } else {
      WidthOfOne();
    }
    if p < |s| {
      BitAt(s, p);
    }
  }

  /** An extension value whose number is in the long form, which is refused, leaves the first
      value behind the root. */
  lemma LongFormKept(t: EnumType, s: seq<bool>, p: nat)
    requires t.Valid() && t.hasExt && p + 1 < |s| && s[p] && s[p + 1]
    ensures DecEnum(t, s, p).Fail? && EnumKept(t, s, p) == (t.nTypes - t.nExts, p + 2)
  {
    hide CeilLog2, Pow2, Mask;
    BitAt(s, p);
    BitAt(s, p + 1);
    Pow2Values();
    MaskSmall(t.Root(), 32);
  }

  /** At the end of the image a read that needs a bit leaves the first value. */
  lemma MissingKept(t: EnumType, s: seq<bool>)
    requires t.Valid() && (t.hasExt || t.nTypes >= 2)
    ensures DecEnum(t, s, |s|).Fail? && EnumKept(t, s, |s|) == (0, |s|)
  {
    hide Pow2, BitsToNat;
    if !t.hasExt {
      var w := CeilLog2(t.Root());
      assert w > 0 by {
        Pow2Zero();
      }
      assert s[|s|..] == [];
      ZeroRead(w);
    }
  }

  /** Exactly the values with at most 63 past the root can be encoded. */
  lemma EnumEncodable(t: EnumType, e: nat)
    requires t.Valid()
    ensures EncEnum(t, e).Some? <==> e < t.nTypes && (t.hasExt ==> e - (t.nTypes - t.nExts) <= 63)
  {
  }

  lemma EnumRoundTrip(t: EnumType, e: nat, s: seq<bool>, p: nat)
    requires t.Valid() && EncEnum(t, e).Some? && At(s, p, EncEnum(t, e).value)
    ensures DecEnum(t, s, p) == Ok(e, p + |EncEnum(t, e).value|)
  {
    hide NatToBits, BitsToNat, Pow2, CeilLog2, Mask, DecSmall;
    Pow2Values();
    var w := CeilLog2(t.Root());
    if t.Root() >= 2 {
      WidthFits(t.Root(), 32);
    } else {
      WidthOfOne();
    }
    if e >= t.Root() {
      var b := EncSmall(e - t.Root()).value;
      AtSplit(s, p, NatToBits(1, 1), b);
      ReadBack(s, p, 8, 1, 1);
      SmallRoundTrip(e - t.Root(), s, p + 1);
      MaskSmall(e, 32);
    } else if t.hasExt {
      AtSplit(s, p, NatToBits(0, 1), NatToBits(e, w));
      ReadBack(s, p, 8, 0, 1);
      ReadBack(s, p + 1, 32, e, w);
    } else {
      ReadBack(s, p, 32, e, w);
    }
  }

  lemma WidthOfOne()
    ensures CeilLog2(1) == 0
  {
  }

  // ------------------------------------------------------------------------
  // Extension-group presence flags
  // ------------------------------------------------------------------------

  /** One past the last group that is present. */
  function NofGroups(groups: seq<bool>): (n: nat)
    ensures n <= |groups|
    ensures n > 0 ==> groups[n - 1]
    ensures forall i | n <= i < |groups| :: !groups[i]
  {
    if groups == [] then 0
    else if groups[|groups| - 1] then |groups|
    else NofGroups(groups[..|groups| - 1])
  }

  function EncFlags(groups: seq<bool>): Option<seq<bool>> {
    var n := NofGroups(groups);
    if n == 0 || n > 64 then None else Some(NatToBits(n - 1, 7) + groups[..n])
  }

  /** The flags in the message, padded with `false` to the number the decoder supports. */
  function DecFlags(supported: nat, s: seq<bool>, p: nat): (r: Parsed<seq<bool>>)
    ensures r.Ok? ==> supported <= |r.value|
  {
    var (m, q) :- DecSmall(s, p);
    var n := m + 1;
    if q + n > |s| then Fail
    else Ok(s[q..q + n] + Zeros(Max(n, supported) - n), q + n)
  }

  /** The flags and the position that the decoder goes on with, since nobody looks at the result
      of reading them: after the flag of the long form, or at the end of the image, no group is
      present; flags that are cut off are taken as far as they go. It fails only where a count
      is cut off and what is left of it exceeds the flags there are. */
  function FlagsKept(supported: nat, s: seq<bool>, p: nat): (r: Parsed<seq<bool>>)
    ensures r.Ok? ==> supported <= |r.value|
    ensures DecFlags(supported, s, p).Ok? ==> r == DecFlags(supported, s, p)
  {
    var d := DecFlags(supported, s, p);
    if d.Ok? then d
    else
      var count := DecSmall(s, p);
      if count.Fail? then
        var (left, q) := SmallKept(s, p);
        if left > supported then Fail else Ok(Zeros(supported), q)
      else
        SmallNext(s, p);
        var read := s[count.next..];
        Ok(read + Zeros(Max(count.value + 1, supported) - |read|), |s|)
  }

  /** When the decoder goes on to look behind the flags it has: the image ends within the count,
      and the bits of it that are there, taken for the leading ones, exceed the groups known. */
  lemma CountOverrunExactly(supported: nat, s: seq<bool>, p: nat)
    ensures FlagsKept(supported, s, p).Fail?
       <==> p < |s| < p + 7 && !s[p] && ReadShort(s, p + 1, 6) > supported
  {
    hide BitsToNat, ReadShort, Pow2;
    if p < |s| {
      BitAt(s, p);
    }
  }

  lemma SmallNext(s: seq<bool>, p: nat)
    requires DecSmall(s, p).Ok?
    ensures DecSmall(s, p).next == p + 7 <= |s|
  {
  }

  /** A list of flags with at least one set decodes to the same flags: `true` where it was
      `true`, and `false` everywhere else up to the supported count. */
  lemma FlagsRoundTrip(groups: seq<bool>, supported: nat, s: seq<bool>, p: nat)
    requires EncFlags(groups).Some? && At(s, p, EncFlags(groups).value)
    ensures var r := DecFlags(supported, s, p);
            && r.Ok? && r.next == p + |EncFlags(groups).value|
            && |r.value| == Max(NofGroups(groups), supported)
            && forall i | 0 <= i < |r.value| :: r.value[i] == (i < |groups| && groups[i])
  {
    hide NatToBits, DecSmall;
    var n := NofGroups(groups);
    AtSplit(s, p, NatToBits(n - 1, 7), groups[..n]);
    AtPrefix(s, p, n - 1);
    assert s[p + 7..p + 7 + n] == groups[..n];
  }

  lemma AtPrefix(s: seq<bool>, p: nat, m: nat)
    requires m <= 63 && At(s, p, NatToBits(m, 7))
    ensures DecSmall(s, p) == Ok(m, p + 7)
  {
    SmallRoundTrip(m, s, p);
  }

  // ------------------------------------------------------------------------
  // Octet strings
  // ------------------------------------------------------------------------

  /** `n` successive reads of eight bits. */
  function ReadOctets(s: seq<bool>, p: nat, n: nat): (r: Parsed<seq<byte>>)
    ensures r.Ok? <==> p + 8 * n <= |s|
    ensures r.Ok? ==> |r.value| == n && r.next == p + 8 * n
  {
    if n == 0 then if p <= |s| then Ok([], p) else Fail
    else
      var (data, q) :- ReadOctets(s, p, n - 1);
      Pow2Values();
      var (x, r) :- ReadNat(s, q, 8, 8);
      Ok(data + [x], r)
  }

  /** The octets read are the ones whose bits lie in the image. */
  lemma {:induction false} ReadOctetsAt(s: seq<bool>, p: nat, data: seq<byte>)
    requires At(s, p, BytesToBits(data))
    ensures ReadOctets(s, p, |data|) == Ok(data, p + 8 * |data|)
  {
    hide NatToBits, BytesToBits, BitsToNat, Pow2, ReadNat;
    if data != [] {
      var n := |data| - 1;
      var x := data[n];
      assert data == data[..n] + [x];
      BytesToBitsConcat(data[..n], [x]);
      BytesToBitsOne(x);
      AtSplit(s, p, BytesToBits(data[..n]), NatToBits(x, 8));
      Pow2Values();
      ReadBack(s, p + 8 * n, 8, x, 8);
      ReadOctetsAt(s, p, data[..n]);
    }
  }

  lemma {:induction false} ReadOctetsBits(s: seq<bool>, p: nat, n: nat)
    requires p + 8 * n <= |s|
    ensures BytesToBits(ReadOctets(s, p, n).value) == s[p..p + 8 * n]
  {
    hide NatToBits, BytesToBits, BitsToNat, Pow2;
    if n == 0 {
      assert BytesToBits([]) == [];
    } else {
      ReadOctetsBits(s, p, n - 1);
      Pow2Values();
      ReadOctet(ReadOctets(s, p, n - 1).value, BitsToNat(s[p + 8 * (n - 1)..p + 8 * n]), s, p, n - 1);
    }
  }

  /** The block read, whose contract speaks of the image, and `n` reads of eight bits yield the
      same octets. */
  lemma BlockReadIsOctetReads(s: seq<bool>, p: nat, data: seq<byte>)
    requires p + 8 * |data| <= |s|
    ensures BytesToBits(data) == s[p..p + 8 * |data|] <==> ReadOctets(s, p, |data|) == Ok(data, p + 8 * |data|)
  {
    hide BytesToBits, ReadOctets;
    ReadOctetsBits(s, p, |data|);
    if BytesToBits(data) == s[p..p + 8 * |data|] {
      ReadOctetsAt(s, p, data);
    }
  }

  function EncOctets(al: bool, data: seq<byte>, p: nat): Option<seq<bool>> {
    match EncLength(al, |data|, p)
    case Some(b) => Some(b + BytesToBits(data))
    case None => None
  }

  function DecOctets(al: bool, s: seq<bool>, p: nat): Parsed<seq<byte>> {
    var (n, q) :- DecLength(al, s, p);
    ReadOctets(s, q, n)
  }

  lemma OctetStringRoundTrip(al: bool, data: seq<byte>, s: seq<bool>, p: nat)
    requires |data| < ASN_16K && At(s, p, EncOctets(al, data, p).value)
    ensures DecOctets(al, s, p) == Ok(data, p + |EncOctets(al, data, p).value|)
  {
    hide BytesToBits, DecLength, ReadOctets;
    var b := EncLength(al, |data|, p).value;
    AtSplit(s, p, b, BytesToBits(data));
    LengthRoundTrip(al, |data|, s, p);
    ReadOctetsAt(s, p + |b|, data);
  }

  // ------------------------------------------------------------------------
  // Open fields
  // ------------------------------------------------------------------------

  /** The scratch array of an open field has the size of a pool block: a buffer of
      97896 / 8 + 1020 octets and its bookkeeping, for which 256 octets are ample. */
  const BLOCK_OCTETS := 97896 / 8 + 1020 + 256

  type ScratchSize = n: nat | n <= BLOCK_OCTETS

  /** Octets of an open field. */
  function OpenOctets(content: seq<bool>): nat {
    CeilDiv(|content|, 8)
  }

  /** The guard drops the result of the length encoder, but content that was built in a scratch
      array never has a length that the encoder refuses, or that a decoder would. */
  lemma ScratchLengthAccepted(al: bool, content: seq<bool>, scratch: ScratchSize, p: nat)
    requires |content| <= 8 * scratch
    ensures OpenOctets(content) < ASN_16K && EncLength(al, OpenOctets(content), p).Some?
    ensures forall s | At(s, p, EncLength(al, OpenOctets(content), p).value) ::
              DecLength(al, s, p) == Ok(OpenOctets(content), p + |EncLength(al, OpenOctets(content), p).value|)
  {
    hide DecLength;
    forall s | At(s, p, EncLength(al, OpenOctets(content), p).value)
      ensures DecLength(al, s, p) == Ok(OpenOctets(content), p + |EncLength(al, OpenOctets(content), p).value|)
    {
      LengthRoundTrip(al, OpenOctets(content), s, p);
    }
  }

  /** What the closing guard writes at `p` for `content` built in the scratch array: the octet
      count, the content, and zeros up to a whole octet. */
  function OpenBits(al: bool, content: seq<bool>, p: nat): seq<bool>
    requires OpenOctets(content) < ASN_16K
  {
    EncLength(al, OpenOctets(content), p).value + content + Zeros(Pad(|content|))
  }

  /** Where the unpack guard leaves the reader that stopped at `q` in a field of `len` octets
      from `start`: the unread bits go to one 32-bit variable. */
  function CloseField(s: seq<bool>, start: nat, len: nat, q: nat): nat {
    var unread := (8 * len - (q - start)) % 0x1_0000_0000;
    if unread > 32 then q
    else if q + unread <= |s| then q + unread
    else |s|
  }

  /** The guard moves the reader to the end of the field, or of the input, exactly when it
      stopped at most 32 bits short of it and not beyond it; otherwise the reader stays. */
  lemma CloseFieldExactly(s: seq<bool>, start: nat, len: nat, q: nat)
    requires |s| < 0x8000_0000 && 8 * len < 0x8000_0000 && start <= q <= |s|
    ensures var end := start + 8 * len;
            && (start + 8 * len <= |s| ==> (CloseField(s, start, len, q) == end <==> end - 32 <= q <= end))
            && CloseField(s, start, len, q) == if end - 32 <= q <= end then Min(end, |s|) else q
  {
  }

  /** An aligned length starts and ends on an octet boundary. */
  lemma LengthOctetAligned(al: bool, val: nat, p: nat)
    requires val < ASN_16K
    ensures EncLength(al, val, p).Some?
    ensures al ==> (p + |EncLength(al, val, p).value|) % 8 == 0
  {
    hide NatToBits, Zeros;
  }

  /** The field starts with its octet count in the image, followed by the content. */
  lemma OpenFieldLayout(al: bool, content: seq<bool>, s: seq<bool>, p: nat)
    requires OpenOctets(content) < ASN_16K && At(s, p, OpenBits(al, content, p))
    ensures DecLength(al, s, p).Ok?
    ensures var start := DecLength(al, s, p).next;
            && DecLength(al, s, p).value == OpenOctets(content)
            && At(s, start, content)
            && p + |OpenBits(al, content, p)| == start + 8 * OpenOctets(content)
            && (al ==> start % 8 == 0)
  {
    LengthOctetAligned(al, OpenOctets(content), p);
    hide DecLength, EncLength, Zeros;
    var len := EncLength(al, OpenOctets(content), p).value;
    var pad := Zeros(Pad(|content|));
    AtSplit(s, p, len + content, pad);
    AtSplit(s, p, len, content);
    LengthRoundTrip(al, OpenOctets(content), s, p);
  }

  /** Reading the content of an open field back, up to its final bit, ends at the field's end. */
  lemma OpenFieldCloses(al: bool, content: seq<bool>, s: seq<bool>, p: nat)
    requires OpenOctets(content) < ASN_16K && At(s, p, OpenBits(al, content, p))
    ensures DecLength(al, s, p).Ok?
    ensures var start := DecLength(al, s, p).next;
            CloseField(s, start, OpenOctets(content), start + |content|) == p + |OpenBits(al, content, p)|
  {
    hide OpenBits, DecLength, EncLength;
    OpenFieldLayout(al, content, s, p);
  }

  /** A field that nobody reads is skipped exactly when it has at most four octets. */
  lemma SkipFieldExactly(al: bool, content: seq<bool>, s: seq<bool>, p: nat)
    requires OpenOctets(content) < ASN_16K && At(s, p, OpenBits(al, content, p))
    ensures DecLength(al, s, p).Ok?
    ensures var start := DecLength(al, s, p).next;
            && (CloseField(s, start, OpenOctets(content), start) == p + |OpenBits(al, content, p)|
                <==> OpenOctets(content) <= 4)
            && (OpenOctets(content) > 4 ==> CloseField(s, start, OpenOctets(content), start) == start)
  {
    hide OpenBits, DecLength, EncLength, OpenOctets;
    OpenFieldLayout(al, content, s, p);
    assert p + |OpenBits(al, content, p)| <= |s|;
  }
}
