/**
 The INTEGER entry points that message classes call, for unsigned types: constrained
 numbers, an extension marker, and values outside the bounds.
 */
module Integer {
  import opened Bits
  import opened Options
  import opened BitImage
  import opened BitRefs
  import opened Per
  import opened PerCodec

  datatype IntegerType = IntegerType(width: nat, lb: nat, ub: nat, hasExt: bool) {
    predicate Valid() {
      width in {8, 16, 32, 64} && lb <= ub < Pow2(width)
    }
    predicate Within(n: nat) {
      lb <= n <= ub
    }
    /** A type whose upper bound is the largest value of the C++ type counts as unbounded. */
    predicate UpperBounded() {
      ub != Pow2(width) - 1
    }
    function ExtBit(n: nat): seq<bool> {
      if hasExt then NatToBits(if Within(n) then 0 else 1, 1) else []
    }
  }

  /** Exact `ceil((log2(n) + 1) / 8)`: the fewest octets that hold a value outside the bounds
      below a sign bit. */
  function OutsideOctets(n: nat): (o: nat)
    requires n >= 1
    ensures o >= 1 && n <= Pow2(8 * o - 1)
    ensures o > 1 ==> Pow2(8 * (o - 1) - 1) < n
  {
    var o := CeilDiv(CeilLog2(n) + 1, 8);
    Pow2Mono(CeilLog2(n), 8 * o - 1);
    if o > 1 then Pow2Mono(8 * (o - 1) - 1, CeilLog2(n) - 1); o else o
  }

  /** The length and the octets of a value outside the bounds. */
  function EncOutside(n: nat, al: bool, p: nat): Option<seq<bool>>
    requires n >= 1
  {
    var o := OutsideOctets(n);
    match EncLength(al, o, p)
    case None => None
    case Some(len) =>
      if 8 * o >= 64 then None
      else Some(len + (if al then Zeros(Pad(p + |len|)) else []) + NatToBits(n, 8 * o))
  }

  function DecOutside(width: nat, al: bool, s: seq<bool>, p: nat): Parsed<nat> {
    var (o, q) :- DecLength(al, s, p);
    ReadNat(s, if al then RoundUp8(q) else q, width, 8 * o)
  }

  function EncInteger(t: IntegerType, n: nat, al: bool, p: nat): Option<seq<bool>>
    requires t.Valid() && (t.Within(n) || n >= 1)
  {
    var ext := t.ExtBit(n);
    if !t.hasExt && !t.Within(n) then None
    else if t.Within(n) && (t.lb == t.ub || !t.UpperBounded()) then Some(ext)
    else
      var body := if t.Within(n) then EncConstrained(al, n, t.lb, t.ub, p + |ext|) else EncOutside(n, al, p + |ext|);
      if body.None? then None else Some(ext + body.value)
  }

  /** The decoded value is `None` where the source returns success without setting it. */
  function DecInteger(t: IntegerType, al: bool, s: seq<bool>, p: nat): Parsed<Option<nat>>
    requires t.Valid()
  {
    var (ext, q) :- if t.hasExt then ReadNat(s, p, 8, 1) else Ok(0, p);
    if ext != 0 then
      var (n, r) :- DecOutside(t.width, al, s, q);
      Ok(Some(n), r)
    else if t.lb == t.ub || !t.UpperBounded() then Ok(None, q)
    else
      var (n, r) :- DecConstrained(t.width, al, t.lb, t.ub, s, q);
      Ok(Some(n), r)
  }

  lemma OutsideExactly(width: nat, n: nat, al: bool, s: seq<bool>, p: nat)
    requires n >= 1 && EncOutside(n, al, p).Some? && At(s, p, EncOutside(n, al, p).value)
    ensures var r := DecOutside(width, al, s, p);
            && (8 * OutsideOctets(n) <= width ==> r == Ok(n, p + |EncOutside(n, al, p).value|))
            && (8 * OutsideOctets(n) > width ==> r.Fail?)
  {
    hide NatToBits, BitsToNat, Pow2, OutsideOctets, EncLength, DecLength, Zeros, RoundUp8;
    var o := OutsideOctets(n);
    var len := EncLength(al, o, p).value;
    var pad := if al then Zeros(Pad(p + |len|)) else [];
    AtSplit(s, p, len + pad, NatToBits(n, 8 * o));
    AtSplit(s, p, len, pad);
    LengthRoundTrip(al, o, s, p);
    Pow2Mono(8 * o - 1, 8 * o);
    if 8 * o <= width {
      ReadBack(s, p + |len| + |pad|, width, n, 8 * o);
    }
  }

  /** Which encoded integers come back: those within proper bounds, unless they take 64 unaligned
      bits, and those outside whose octets fit the type. */
  predicate ComesBack(t: IntegerType, n: nat, al: bool)
    requires t.Valid() && (t.Within(n) || n >= 1)
  {
    if t.Within(n) then t.lb < t.ub && t.UpperBounded() && (al || CeilLog2(t.ub - t.lb + 1) < 64)
    else 8 * OutsideOctets(n) <= t.width
  }

  lemma IntegerRoundTripExactly(t: IntegerType, n: nat, al: bool, s: seq<bool>, p: nat)
    requires t.Valid() && (t.Within(n) || n >= 1)
    requires EncInteger(t, n, al, p).Some? && At(s, p, EncInteger(t, n, al, p).value)
    ensures DecInteger(t, al, s, p) == Ok(Some(n), p + |EncInteger(t, n, al, p).value|) <==> ComesBack(t, n, al)
  {
    hide NatToBits, BitsToNat, Pow2, EncOutside, DecOutside, EncConstrained, DecConstrained, OutsideOctets, CeilLog2,
         IntegerType.UpperBounded;
    var ext := t.ExtBit(n);
    var flag := if t.Within(n) then 0 else 1;
    var e := EncInteger(t, n, al, p).value;
    var body := e[|ext|..];
    assert e == ext + body;
    AtSplit(s, p, ext, body);
    if t.hasExt {
      Pow2Values();
      ReadBack(s, p, 8, flag, 1);
    }
    if !t.Within(n) {
      OutsideExactly(t.width, n, al, s, p + |ext|);
    } else if t.lb < t.ub && t.UpperBounded() {
      ConstrainedRoundTripExactly(t.width, al, n, t.lb, t.ub, s, p + |ext|);
    }
  }

  /** Without room it fails, except that an unaligned number within the bounds is cut off and
      reported as a success. */
  method PackInteger(bref: BitRef, t: IntegerType, n: uint64, aligned: bool) returns (ok: bool)
    requires bref.Valid() && t.Valid() && (t.Within(n) || n >= 1)
    modifies bref, bref.buf
    ensures bref.Valid() && bref.buf == old(bref.buf)
    ensures var e := EncInteger(t, n, aligned, old(bref.Pos()));
            && (e.None? ==> !ok)
            && (e.Some? ==> ok == old(bref.Room(|e.value|) || (!aligned && t.Within(n) && bref.Room(|t.ExtBit(n)|))))
            && (e.Some? && old(bref.Room(|e.value|)) ==> bref.Wrote(old(bref.Image()), old(bref.Pos()), e.value))
            && (e.Some? ==> bref.WroteFitting(old(bref.Image()), old(bref.Pos()), e.value))
  {
    hide Whole, Splice, Canonical, NatToBits, BytesToBits, Pow2, EncInteger, EncConstrained, EncOutside, Fitting,
         IntegerType.UpperBounded, IntegerType.ExtBit, BitRef.WroteFitting;
    IntegerCases(t, n, aligned, bref.Pos());
    ghost var image, pos, ext := bref.Image(), bref.Pos(), t.ExtBit(n);
    var withinBounds := t.Within(n);
    if !t.hasExt && !withinBounds {
      return false;
    }
    ok := PackExtBit(bref, t, n);
    if !ok {
      ghost var e := EncInteger(t, n, aligned, pos);
      if e.Some? {
        assert e.value == ext + e.value[|ext|..];
        bref.CutOff(image, pos, ext, e.value[|ext|..]);
      }
      return;
    }
    if withinBounds && (t.lb == t.ub || !t.UpperBounded()) {
      // a single value, or semi-constrained: nothing is written
      return true;
    }
    ghost var mid := bref.Image();
    ghost var body: Option<seq<bool>>;
    if withinBounds {
      BoundsAreWords(t);
      ok := PackConstrained(bref, n, t.lb, t.ub, aligned);
      body := EncConstrained(aligned, n, t.lb, t.ub, pos + |ext|);
    } else {
      ok := PackOutside(bref, n, aligned);
      body := EncOutside(n, aligned, pos + |ext|);
    }
    if body.Some? {
      bref.ThenRest(image, pos, ext, mid, body.value);
      if pos + |ext| + |body.value| <= |image| {
        bref.ThenWrote(image, pos, ext, mid, body.value);
      }
    }
  }

  /** The branches of `EncInteger`, one by one. */
  lemma IntegerCases(t: IntegerType, n: nat, al: bool, p: nat)
    requires t.Valid() && (t.Within(n) || n >= 1)
    ensures var ext := t.ExtBit(n);
            var e := EncInteger(t, n, al, p);
            if !t.hasExt && !t.Within(n) then e.None?
            else if t.Within(n) && (t.lb == t.ub || !t.UpperBounded()) then e == Some(ext)
            else
              var body := if t.Within(n) then EncConstrained(al, n, t.lb, t.ub, p + |ext|)
                          else EncOutside(n, al, p + |ext|);
              if body.None? then e.None? else e == Some(ext + body.value)
  {
    hide EncConstrained, EncOutside, NatToBits, IntegerType.UpperBounded;
  }

  method PackExtBit(bref: BitRef, t: IntegerType, n: uint64) returns (ok: bool)
    requires bref.Valid() && t.Valid()
    modifies bref, bref.buf
    ensures bref.Valid() && bref.buf == old(bref.buf)
    ensures ok == old(bref.Room(|t.ExtBit(n)|))
    ensures ok ==> bref.Wrote(old(bref.Image()), old(bref.Pos()), t.ExtBit(n))
    ensures bref.WroteFitting(old(bref.Image()), old(bref.Pos()), t.ExtBit(n))
  {
    hide Splice, Canonical, NatToBits, BytesToBits, Fitting;
    if t.hasExt {
      ok := bref.Pack(if t.Within(n) then 0 else 1, 1);
    } else {
      WroteNothing(bref);
      ok := true;
    }
  }

  lemma BoundsAreWords(t: IntegerType)
    requires t.Valid()
    ensures t.lb <= t.ub < 0x1_0000_0000_0000_0000
    ensures t.UpperBounded() ==> t.ub - t.lb + 1 < 0x1_0000_0000_0000_0000
  {
    Pow2Values();
    Pow2Mono(t.width, 64);
  }

  method PackOutside(bref: BitRef, n: uint64, aligned: bool) returns (ok: bool)
    requires bref.Valid() && n >= 1
    modifies bref, bref.buf
    ensures bref.Valid() && bref.buf == old(bref.buf)
    ensures var e := EncOutside(n, aligned, old(bref.Pos()));
            && (ok <==> e.Some? && old(bref.Room(|e.value|)))
            && (ok ==> bref.Wrote(old(bref.Image()), old(bref.Pos()), e.value))
            && (e.Some? ==> bref.WroteFitting(old(bref.Image()), old(bref.Pos()), e.value))
  {
    hide Whole, Splice, Canonical, NatToBits, BytesToBits, Pow2, EncLength, Zeros, Pad, OutsideOctets, Fitting,
         BitRef.WroteFitting;
    var o := OutsideOctets(n);
    WordOctets(n);
    ghost var image, pos, len := bref.Image(), bref.Pos(), EncLength(aligned, o, bref.Pos());
    OctetCountAccepted(aligned, o, pos);
    ok := PackLength(bref, o, aligned);
    ghost var pad, body := if aligned then Zeros(Pad(pos + |len.value|)) else [], NatToBits(n, 8 * o);
    if !ok {
      Assoc(len.value, pad, body);
      bref.CutOff(image, pos, len.value, pad + body);
      return;
    }
    ghost var mid := bref.Image();
    if aligned {
      ok := bref.AlignBytesZero();
    } else {
      SpliceNothing(mid, bref.Pos());
    }
    bref.ThenWrote(image, pos, len.value, mid, pad);
    mid := bref.Image();
    ok := bref.Pack(n, 8 * o);
    if o < 8 {
      bref.ThenRest(image, pos, len.value + pad, mid, body);
    }
    if ok {
      bref.ThenWrote(image, pos, len.value + pad, mid, body);
    }
  }

  lemma OctetCountAccepted(al: bool, o: nat, p: nat)
    requires o <= 9
    ensures EncLength(al, o, p).Some?
  {
  }

  lemma WordOctets(n: uint64)
    requires n >= 1
    ensures OutsideOctets(n) <= 9
  {
    hide Pow2, CeilLog2;
    Pow2Values();
    if CeilLog2(n) > 64 {
      Pow2Mono(64, CeilLog2(n) - 1);
      assert false;
    }
  }

  method UnpackInteger(bref: CBitRef, t: IntegerType, aligned: bool) returns (ok: bool, n: Option<nat>)
    requires bref.Valid() && t.Valid()
    modifies bref
    ensures bref.Valid()
    ensures var r := DecInteger(t, aligned, bref.Image(), old(bref.Pos()));
            && ok == r.Ok?
            && (ok ==> n == r.value && bref.Pos() == r.next)
  {
    hide BytesToBits, Pow2, ReadNat, DecConstrained, DecOutside, IntegerType.UpperBounded;
    n := None;
    var withinBounds := true;
    if t.hasExt {
      var flag;
      ok, flag := UnpackNat(bref, 8, 1);
      if !ok {
        return;
      }
      withinBounds := flag == 0;
    }
    var x;
    if withinBounds && t.UpperBounded() {
      if t.lb == t.ub {
        return true, None;
      }
      BoundsAreWords(t);
      ok, x := UnpackConstrained(bref, t.width, t.lb, t.ub, aligned);
      n := Some(x);
    } else if !withinBounds {
      ok, x := UnpackOutside(bref, t.width, aligned);
      n := Some(x);
    } else {
      ok := true;
    }
  }

  method UnpackOutside(bref: CBitRef, width: nat, aligned: bool) returns (ok: bool, n: nat)
    requires bref.Valid()
    modifies bref
    ensures bref.Valid()
    ensures var r := DecOutside(width, aligned, bref.Image(), old(bref.Pos()));
            && ok == r.Ok?
            && (ok ==> n == r.value && bref.Pos() == r.next)
  {
    hide BytesToBits, Pow2, ReadNat, DecLength, RoundUp8, Whole;
    n := 0;
    var len;
    ok, len := UnpackLength(bref, aligned);
    if !ok {
      return;
    }
    if aligned {
      ok := bref.AlignBytes();
      if !ok {
        return;
      }
    }
    ok, n := UnpackNat(bref, width, len * 8);
  }
}
