/**
 Whole messages through the imperative codec: the encoders and decoders of the elements
 composed along a schema, and the end-to-end round trip over a byte buffer.
 */
module MessageCodec {
  import opened Bits
  import opened Options
  import opened BitImage
  import opened BitRefs
  import opened Per
  import opened PerTypes
  import opened Integer
  import opened BitString
  import opened PerCodec
  import opened TypeCodec
  import opened OpenField
  import opened Message
  import opened MessageProofs

  /** The writer is at position `p` of the message, or at the end of the buffer if the message
      has been cut off in front of `p`. */
  ghost predicate Stands(bref: BitRef, p: nat)
    reads bref, bref.buf
  {
    bref.Valid() && bref.Pos() == Min(p, 8 * bref.buf.Length)
  }

  /** A writer that stood at `p` over `image` has written as much of `e` as fits; if all of it
      fits, it has reported success. */
  ghost predicate Sent(bref: BitRef, image: seq<bool>, p: nat, e: seq<bool>, ok: bool)
    reads bref, bref.buf
  {
    && Stands(bref, p + |e|)
    && |image| == 8 * bref.buf.Length
    && bref.WroteFitting(image, Min(p, |image|), e)
    && (p + |e| <= |image| ==> ok)
  }

  /** What was written at the cursor is what the message has at `p`: the same bits, or none. */
  lemma Settle(bref: BitRef, image: seq<bool>, p: nat, written: seq<bool>, e: seq<bool>, ok: bool)
    requires bref.Valid() && |image| == 8 * bref.buf.Length && bref.WroteFitting(image, Min(p, |image|), written)
    requires p <= |image| ==> written == e && (p + |e| <= |image| ==> ok)
    ensures Sent(bref, image, p, e, ok)
  {
    hide Splice, BytesToBits, Canonical;
    if p > |image| {
      assert Fitting(e, 0) == [] == Fitting(written, 0);
    }
  }

  lemma SentThen(bref: BitRef, image: seq<bool>, p: nat, a: seq<bool>, mid: seq<bool>, b: seq<bool>, ok: bool)
    requires Whole(image) && |mid| == |image|
    requires mid == Splice(image, Min(p, |image|), Fitting(a, |image| - Min(p, |image|)))
    requires Sent(bref, mid, p + |a|, b, ok)
    ensures Sent(bref, image, p, a + b, ok)
  {
    hide Splice, BytesToBits, Canonical, Fitting;
    bref.ThenWroteFitting(image, Min(p, |image|), a, mid, b);
  }

  /** A failure means that the message has been cut off. */
  lemma SentCut(bref: BitRef, image: seq<bool>, p: nat, a: seq<bool>, b: seq<bool>)
    requires Sent(bref, image, p, a, false)
    ensures Sent(bref, image, p, a + b, false)
  {
    hide Splice, BytesToBits, Canonical, Fitting, BitRef.WroteFitting;
    bref.CutOff(image, Min(p, |image|), a, b);
  }

  lemma SentNothing(bref: BitRef, p: nat)
    requires Stands(bref, p)
    ensures Sent(bref, bref.Image(), p, [], true)
  {
    WroteNothing(bref);
  }

  /** Encodes `v`, whose encoding starts at `p`. Whatever the room, the buffer then holds as much
      of the encoding as fits, and nothing else is changed; if all of it fits, success is
      reported. */
  method PackValue(bref: BitRef, cfg: Config, t: Schema, v: Value, ghost p: nat) returns (ok: bool)
    requires WellFormed(cfg, t) && Stands(bref, p) && Encode(cfg, t, v, p).Some?
    modifies bref, bref.buf
    ensures bref.buf == old(bref.buf) && Sent(bref, old(bref.Image()), p, Encode(cfg, t, v, p).value, ok)
    decreases t, 1
  {
    hide Whole, Splice, Canonical, NatToBits, BytesToBits, Pow2, EncInteger, ComesBack, EncBitString, EncEnum, EncOctets,
         Readable, EncodeExtensible, EncodeFields, EncodeAlternative, EncodeItems, EncodeOpen, AdditionFlags,
         EncBoundedLength, Preamble, Presence, CeilLog2, Sent, BitRef.WroteFitting;
    match t {
      case Raw(n) =>
        ok := PackRaw(bref, v.n, n, p);
      case Number(i) =>
        ok := PackNumber(bref, cfg, i, v.n, p);
      case Enum(e) =>
        ok := PackTag(bref, e, v.n, p);
      case Octets =>
        ok := PackOctetString(bref, cfg, v.data, p);
      case BitStr(lb, ub, hasExt) =>
        ok := PackBits(bref, cfg, lb, ub, hasExt, v.buf, v.length, p);
      case Group(fields, optional) =>
        ok := PackGroup(bref, cfg, fields, optional, v.fields, p);
      case ListOf(lb, ub, item) =>
        ok := PackList(bref, cfg, lb, ub, item, v.fields, p);
      case Choice(tag, alts) =>
        ok := PackChoice(bref, cfg, tag, alts, v.index, v.value, p);
      case Open(body) =>
        ok := PackOpen(bref, cfg, body, v, p);
      case Additions(groups) =>
        ok := PackAdditions(bref, cfg, groups, v.fields, p);
      case Extensible(root, additions) =>
        ok := PackExtensible(bref, cfg, root, additions, v.fields, p);
    }
  }

  // The leaves

  method PackRaw(bref: BitRef, x: nat, n: nat, ghost p: nat) returns (ok: bool)
    requires Stands(bref, p) && n < 64 && x < Pow2(n)
    modifies bref, bref.buf
    ensures bref.buf == old(bref.buf) && Sent(bref, old(bref.Image()), p, NatToBits(x, n), ok)
  {
    hide Whole, Splice, Canonical, NatToBits, BytesToBits, Pow2, BitRef.WroteFitting, Sent;
    Pow2Mono(n, 64);
    Pow2Values();
    ghost var image := bref.Image();
    ok := bref.Pack(x, n);
    Settle(bref, image, p, NatToBits(x, n), NatToBits(x, n), ok);
  }

  method PackNumber(bref: BitRef, cfg: Config, i: IntegerType, n: nat, ghost p: nat) returns (ok: bool)
    requires Stands(bref, p) && i.Valid() && (i.Within(n) || n >= 1) && ComesBack(i, n, cfg.aligned)
    requires EncInteger(i, n, cfg.aligned, p).Some?
    modifies bref, bref.buf
    ensures bref.buf == old(bref.buf) && Sent(bref, old(bref.Image()), p, EncInteger(i, n, cfg.aligned, p).value, ok)
  {
    hide Whole, Splice, Canonical, NatToBits, BytesToBits, EncInteger, ComesBack, Pow2, BitRef.WroteFitting, Sent;
    NumberIsWord(i, n, cfg.aligned);
    IntegerAnywhere(i, n, cfg.aligned, p, bref.Pos());
    ghost var image, pos := bref.Image(), bref.Pos();
    ok := PackInteger(bref, i, n, cfg.aligned);
    Settle(bref, image, p, EncInteger(i, n, cfg.aligned, pos).value, EncInteger(i, n, cfg.aligned, p).value, ok);
  }

  lemma IntegerAnywhere(i: IntegerType, n: nat, al: bool, p: nat, q: nat)
    requires i.Valid() && (i.Within(n) || n >= 1) && EncInteger(i, n, al, p).Some?
    ensures EncInteger(i, n, al, q).Some?
  {
    hide NatToBits, Zeros, Pad, CeilLog2, OctetCount, OutsideOctets, Pow2, EncPrefixed, EncShortLength;
    IntegerCases(i, n, al, p);
    IntegerCases(i, n, al, q);
  }

  method PackTag(bref: BitRef, t: EnumType, e: nat, ghost p: nat) returns (ok: bool)
    requires Stands(bref, p) && t.Valid() && EncEnum(t, e).Some?
    modifies bref, bref.buf
    ensures bref.buf == old(bref.buf) && Sent(bref, old(bref.Image()), p, EncEnum(t, e).value, ok)
  {
    hide Whole, Splice, Canonical, BytesToBits, EncEnum, BitRef.WroteFitting, Sent;
    EnumInRange(t, e);
    ghost var image := bref.Image();
    ok := PackEnum(bref, t, e);
    Settle(bref, image, p, EncEnum(t, e).value, EncEnum(t, e).value, ok);
  }

  method PackOctetString(bref: BitRef, cfg: Config, data: seq<byte>, ghost p: nat) returns (ok: bool)
    requires Stands(bref, p) && |data| < ASN_16K
    modifies bref, bref.buf
    ensures EncOctets(cfg.aligned, data, p).Some?
    ensures bref.buf == old(bref.buf) && Sent(bref, old(bref.Image()), p, EncOctets(cfg.aligned, data, p).value, ok)
  {
    hide Whole, Splice, Canonical, BytesToBits, NatToBits, BitRef.WroteFitting, Sent;
    ghost var image, pos := bref.Image(), bref.Pos();
    LengthOctetAligned(cfg.aligned, |data|, p);
    LengthOctetAligned(cfg.aligned, |data|, pos);
    ok := PackOctets(bref, data, cfg.aligned);
    Settle(bref, image, p, EncOctets(cfg.aligned, data, pos).value, EncOctets(cfg.aligned, data, p).value, ok);
  }

  method PackBits(bref: BitRef, cfg: Config, lb: uint32, ub: uint32, hasExt: bool, buf: seq<byte>, n: uint32,
                  ghost p: nat)
    returns (ok: bool)
    requires Stands(bref, p) && |buf| == CeilDiv(n, 8)
    requires EncBitString(lb, ub, hasExt, cfg.aligned, buf, n, p).Some?
    modifies bref, bref.buf
    ensures bref.buf == old(bref.buf)
    ensures Sent(bref, old(bref.Image()), p, EncBitString(lb, ub, hasExt, cfg.aligned, buf, n, p).value, ok)
  {
    hide Whole, Splice, Canonical, BytesToBits, NatToBits, EncBitString, BitRef.WroteFitting, Sent;
    ghost var image, pos := bref.Image(), bref.Pos();
    BitStringAnywhere(lb, ub, hasExt, cfg.aligned, buf, n, p, pos);
    ok := PackBitString(bref, lb, ub, hasExt, cfg.aligned, buf, n);
    Settle(bref, image, p, EncBitString(lb, ub, hasExt, cfg.aligned, buf, n, pos).value,
           EncBitString(lb, ub, hasExt, cfg.aligned, buf, n, p).value, ok);
  }

  lemma BitStringAnywhere(lb: nat, ub: nat, hasExt: bool, al: bool, buf: seq<byte>, n: nat, p: nat, q: nat)
    requires EncBitString(lb, ub, hasExt, al, buf, n, p).Some?
    ensures EncBitString(lb, ub, hasExt, al, buf, n, q).Some?
  {
    hide NatToBits, Zeros, Pad, CeilLog2, EncField, EncBoundedPrefix, EncShortLength;
  }

  lemma NumberIsWord(i: IntegerType, n: nat, al: bool)
    requires i.Valid() && (i.Within(n) || n >= 1) && ComesBack(i, n, al)
    ensures n < 0x1_0000_0000_0000_0000
  {
    hide OutsideOctets, Pow2, CeilLog2;
    Pow2Values();
    Pow2Mono(i.width, 64);
    if !i.Within(n) {
      Pow2Mono(8 * OutsideOctets(n) - 1, i.width);
    }
  }

  lemma EnumInRange(e: EnumType, x: nat)
    requires e.Valid() && EncEnum(e, x).Some?
    ensures x < 0x1_0000_0000
  {
  }

  // The composite types

  method PackOpen(bref: BitRef, cfg: Config, body: Schema, v: Value, ghost p: nat) returns (ok: bool)
    requires WellFormed(cfg, body) && Stands(bref, p) && EncodeOpen(cfg, body, v, p).Some?
    modifies bref, bref.buf
    ensures bref.buf == old(bref.buf) && Sent(bref, old(bref.Image()), p, EncodeOpen(cfg, body, v, p).value, ok)
    decreases body, 2
  {
    hide Whole, Splice, Canonical, BytesToBits, Encode, OpenBits, Fitting;
    ghost var image, pos, content := bref.Image(), bref.Pos(), Encode(cfg, body, v, 0).value;
    var guard := new PackGuard(bref, cfg.aligned, cfg.scratch);
    ghost var scratch := bref.Image();
    ok := PackValue(bref, cfg, body, v, 0);
    bref.WroteInFull(scratch, 0, content);
    SpliceWritten(scratch, 0, content);
    assert bref.Image()[..bref.Pos()] == content by { assert bref.Image()[0..|content|] == content; }
    guard.Close();
    Settle(bref, image, p, OpenBits(cfg.aligned, content, pos), OpenBits(cfg.aligned, content, p), ok);
  }

  /** The result of writing the tag is dropped. */
  method PackChoice(bref: BitRef, cfg: Config, tag: EnumType, alts: seq<Schema>, k: nat, x: Value, ghost p: nat)
    returns (ok: bool)
    requires WellFormed(cfg, Choice(tag, alts)) && Stands(bref, p)
    requires Encode(cfg, Choice(tag, alts), Chosen(k, x), p).Some?
    modifies bref, bref.buf
    ensures bref.buf == old(bref.buf)
    ensures Sent(bref, old(bref.Image()), p, Encode(cfg, Choice(tag, alts), Chosen(k, x), p).value, ok)
    decreases alts, 1
  {
    hide Whole, Splice, Canonical, BytesToBits, EncodeAlternative, EncEnum, Fitting;
    ghost var image, head := bref.Image(), EncEnum(tag, k).value;
    TagInRange(tag, k);
    var _ := PackTag(bref, tag, k, p);
    ghost var mid := bref.Image();
    ok := PackAlternative(bref, cfg, tag, alts, k, x, p + |head|);
    SentThen(bref, image, p, head, mid, EncodeAlternative(cfg, tag, alts, k, x, p + |head|).value, ok);
  }

  method PackAlternative(bref: BitRef, cfg: Config, tag: EnumType, alts: seq<Schema>, k: nat, x: Value, ghost p: nat)
    returns (ok: bool)
    requires AllWellFormed(cfg, alts) && tag.Valid() && k < |alts| && Stands(bref, p)
    requires EncodeAlternative(cfg, tag, alts, k, x, p).Some?
    modifies bref, bref.buf
    ensures bref.buf == old(bref.buf)
    ensures Sent(bref, old(bref.Image()), p, EncodeAlternative(cfg, tag, alts, k, x, p).value, ok)
    decreases alts, 0
  {
    hide Splice, Canonical, BytesToBits, EncodeField, WellFormed, Sent;
    ok := PackField(bref, cfg, k >= tag.Root(), alts[k], x, p);
  }

  method PackField(bref: BitRef, cfg: Config, open: bool, f: Schema, v: Value, ghost p: nat) returns (ok: bool)
    requires WellFormed(cfg, f) && Stands(bref, p) && EncodeField(cfg, open, f, v, p).Some?
    modifies bref, bref.buf
    ensures bref.buf == old(bref.buf) && Sent(bref, old(bref.Image()), p, EncodeField(cfg, open, f, v, p).value, ok)
    decreases f, 3
  {
    hide Splice, Canonical, BytesToBits, Encode, EncodeOpen, Sent;
    if v.Absent? {
      SentNothing(bref, p);
      ok := true;
    } else if open {
      ok := PackOpen(bref, cfg, f, v, p);
    } else {
      ok := PackValue(bref, cfg, f, v, p);
    }
  }

  method PackFields(bref: BitRef, cfg: Config, open: bool, fields: seq<Schema>, vs: seq<Value>, ghost p: nat)
    returns (ok: bool)
    requires AllWellFormed(cfg, fields) && |fields| == |vs| && Stands(bref, p)
    requires EncodeFields(cfg, open, fields, vs, p).Some?
    modifies bref, bref.buf
    ensures bref.buf == old(bref.buf)
    ensures Sent(bref, old(bref.Image()), p, EncodeFields(cfg, open, fields, vs, p).value, ok)
    decreases fields, 0
  {
    hide Whole, Splice, Canonical, BytesToBits, EncodeField, EncodeFields, WellFormed, Fitting;
    ok := true;
    ghost var image, all := bref.Image(), EncodeFields(cfg, open, fields, vs, p).value;
    ghost var done, rest := [], all;
    SentNothing(bref, p);
    assert fields[0..] == fields && vs[0..] == vs && done + rest == all;
    for i := 0 to |fields|
      invariant bref.buf == old(bref.buf) && ok
      invariant AllWellFormed(cfg, fields[i..])
      invariant Sent(bref, image, p, done, ok) && done + rest == all
      invariant EncodeFields(cfg, open, fields[i..], vs[i..], p + |done|) == Some(rest)
    {
      ghost var q := p + |done|;
      SuffixUnfold(cfg, open, fields, vs, i, q);
      ghost var head, mid := EncodeField(cfg, open, fields[i], vs[i], q).value, bref.Image();
      rest := EncodeFields(cfg, open, fields[i + 1..], vs[i + 1..], q + |head|).value;
      Assoc(done, head, rest);
      ok := PackField(bref, cfg, open, fields[i], vs[i], q);
      SentThen(bref, image, p, done, mid, head, ok);
      if !ok {
        SentCut(bref, image, p, done + head, rest);
        return;
      }
      done := done + head;
    }
    NoFields(cfg, open, fields[|fields|..], vs[|vs|..], p + |done|);
    assert done == all;
  }

  lemma SuffixUnfold(cfg: Config, open: bool, fields: seq<Schema>, vs: seq<Value>, i: nat, p: nat)
    requires i < |fields| == |vs| && AllWellFormed(cfg, fields[i..])
    requires EncodeFields(cfg, open, fields[i..], vs[i..], p).Some?
    ensures WellFormed(cfg, fields[i]) && AllWellFormed(cfg, fields[i + 1..])
    ensures var head := EncodeField(cfg, open, fields[i], vs[i], p);
            && head.Some?
            && var tail := EncodeFields(cfg, open, fields[i + 1..], vs[i + 1..], p + |head.value|);
               tail.Some? && EncodeFields(cfg, open, fields[i..], vs[i..], p) == Some(head.value + tail.value)
  {
    hide EncodeField, EncodeFields, WellFormed;
    assert fields[i..][0] == fields[i] && fields[i..][1..] == fields[i + 1..] && vs[i..][1..] == vs[i + 1..];
    FieldsUnfold(cfg, open, fields[i..], vs[i..], p);
  }

  method PackItems(bref: BitRef, cfg: Config, item: Schema, vs: seq<Value>, ghost p: nat) returns (ok: bool)
    requires WellFormed(cfg, item) && Stands(bref, p) && EncodeItems(cfg, item, vs, p).Some?
    modifies bref, bref.buf
    ensures bref.buf == old(bref.buf) && Sent(bref, old(bref.Image()), p, EncodeItems(cfg, item, vs, p).value, ok)
    decreases item, 2
  {
    hide Whole, Splice, Canonical, BytesToBits, Encode, EncodeItems, WellFormed, Fitting;
    ok := true;
    ghost var image, all := bref.Image(), EncodeItems(cfg, item, vs, p).value;
    ghost var done, rest := [], all;
    SentNothing(bref, p);
    assert vs[0..] == vs && done + rest == all;
    for i := 0 to |vs|
      invariant bref.buf == old(bref.buf) && ok
      invariant Sent(bref, image, p, done, ok) && done + rest == all
      invariant EncodeItems(cfg, item, vs[i..], p + |done|) == Some(rest)
    {
      ghost var q := p + |done|;
      ItemsUnfold(cfg, item, vs[i..], q);
      ghost var head, mid := Encode(cfg, item, vs[i], q).value, bref.Image();
      assert vs[i..][1..] == vs[i + 1..];
      rest := EncodeItems(cfg, item, vs[i + 1..], q + |head|).value;
      Assoc(done, head, rest);
      ok := PackValue(bref, cfg, item, vs[i], q);
      SentThen(bref, image, p, done, mid, head, ok);
      if !ok {
        SentCut(bref, image, p, done + head, rest);
        return;
      }
      done := done + head;
    }
    ItemsUnfold(cfg, item, vs[|vs|..], p + |done|);
    assert done == all;
  }

  method PackGroup(bref: BitRef, cfg: Config, fields: seq<Schema>, optional: seq<bool>, vs: seq<Value>, ghost p: nat)
    returns (ok: bool)
    requires WellFormed(cfg, Group(fields, optional)) && Stands(bref, p)
    requires Encode(cfg, Group(fields, optional), Record(vs), p).Some?
    modifies bref, bref.buf
    ensures bref.buf == old(bref.buf)
    ensures Sent(bref, old(bref.Image()), p, Encode(cfg, Group(fields, optional), Record(vs), p).value, ok)
    decreases fields, 1
  {
    hide Whole, Splice, Canonical, BytesToBits, EncodeFields, Preamble, Presence, Fitting;
    ghost var image, pre := bref.Image(), Preamble(optional, Presence(vs));
    ghost var rest := EncodeFields(cfg, false, fields, vs, p + |pre|).value;
    ok := PackPreamble(bref, optional, Presence(vs), p);
    if !ok {
      SentCut(bref, image, p, pre, rest);
      return;
    }
    ghost var mid := bref.Image();
    ok := PackFields(bref, cfg, false, fields, vs, p + |pre|);
    SentThen(bref, image, p, pre, mid, rest, ok);
  }

  method PackPreamble(bref: BitRef, optional: seq<bool>, present: seq<bool>, ghost p: nat) returns (ok: bool)
    requires |optional| == |present| && Stands(bref, p)
    modifies bref, bref.buf
    ensures bref.buf == old(bref.buf) && Sent(bref, old(bref.Image()), p, Preamble(optional, present), ok)
  {
    hide Whole, Splice, Canonical, BytesToBits, NatToBits, Preamble, Fitting;
    ok := true;
    ghost var image, all := bref.Image(), Preamble(optional, present);
    ghost var done := [];
    SentNothing(bref, p);
    assert optional[0..] == optional && present[0..] == present && done + all == all;
    for i := 0 to |optional|
      invariant bref.buf == old(bref.buf) && ok
      invariant Sent(bref, image, p, done, ok)
      invariant done + Preamble(optional[i..], present[i..]) == all
    {
      PreambleUnfold(optional[i..], present[i..]);
      assert optional[i..][1..] == optional[i + 1..] && present[i..][1..] == present[i + 1..];
      if optional[i] {
        ghost var mid, head, rest := bref.Image(), [present[i]], Preamble(optional[i + 1..], present[i + 1..]);
        Assoc(done, head, rest);
        ok := PackBit(bref, present[i], p + |done|);
        SentThen(bref, image, p, done, mid, head, ok);
        if !ok {
          SentCut(bref, image, p, done + head, rest);
          return;
        }
        done := done + head;
      } else {
        assert [] + Preamble(optional[i + 1..], present[i + 1..]) == Preamble(optional[i + 1..], present[i + 1..]);
      }
    }
    PreambleUnfold(optional[|optional|..], present[|present|..]);
    assert done == all;
  }

  method PackBit(bref: BitRef, flag: bool, ghost p: nat) returns (ok: bool)
    requires Stands(bref, p)
    modifies bref, bref.buf
    ensures bref.buf == old(bref.buf) && Sent(bref, old(bref.Image()), p, [flag], ok)
  {
    hide Whole, Splice, Canonical, BytesToBits, NatToBits, BitRef.WroteFitting, Sent;
    ghost var image := bref.Image();
    OneFlag(flag);
    ok := bref.Pack(if flag then 1 else 0, 1);
    Settle(bref, image, p, [flag], [flag], ok);
  }

  lemma PreambleUnfold(optional: seq<bool>, present: seq<bool>)
    requires |optional| == |present|
    ensures Preamble(optional, present)
         == if optional == [] then []
            else (if optional[0] then [present[0]] else []) + Preamble(optional[1..], present[1..])
  {
  }

  method PackList(bref: BitRef, cfg: Config, lb: nat, ub: nat, item: Schema, vs: seq<Value>, ghost p: nat)
    returns (ok: bool)
    requires WellFormed(cfg, ListOf(lb, ub, item)) && Stands(bref, p)
    requires Encode(cfg, ListOf(lb, ub, item), Record(vs), p).Some?
    modifies bref, bref.buf
    ensures bref.buf == old(bref.buf)
    ensures Sent(bref, old(bref.Image()), p, Encode(cfg, ListOf(lb, ub, item), Record(vs), p).value, ok)
    decreases item, 3
  {
    hide Whole, Splice, Canonical, BytesToBits, EncodeItems, EncBoundedLength, Fitting;
    ghost var image, len := bref.Image(), EncBoundedLength(cfg.aligned, |vs|, lb, ub, p).value;
    ghost var rest := EncodeItems(cfg, item, vs, p + |len|).value;
    ListIsShort(cfg.aligned, |vs|, lb, ub, p);
    ok := PackCounter(bref, cfg, |vs|, lb, ub, p);
    if !ok {
      SentCut(bref, image, p, len, rest);
      return;
    }
    ghost var mid := bref.Image();
    ok := PackItems(bref, cfg, item, vs, p + |len|);
    SentThen(bref, image, p, len, mid, rest, ok);
  }

  method PackCounter(bref: BitRef, cfg: Config, n: uint32, lb: uint32, ub: uint32, ghost p: nat) returns (ok: bool)
    requires Stands(bref, p) && EncBoundedLength(cfg.aligned, n, lb, ub, p).Some?
    modifies bref, bref.buf
    ensures bref.buf == old(bref.buf)
    ensures Sent(bref, old(bref.Image()), p, EncBoundedLength(cfg.aligned, n, lb, ub, p).value, ok)
  {
    hide Whole, Splice, Canonical, BytesToBits, EncBoundedLength, BitRef.WroteFitting, Sent;
    ghost var image, pos := bref.Image(), bref.Pos();
    CounterAnywhere(cfg.aligned, n, lb, ub, p, pos);
    ok := PackBoundedLength(bref, n, lb, ub, cfg.aligned);
    Settle(bref, image, p, EncBoundedLength(cfg.aligned, n, lb, ub, pos).value,
           EncBoundedLength(cfg.aligned, n, lb, ub, p).value, ok);
  }

  lemma CounterAnywhere(al: bool, n: nat, lb: nat, ub: nat, p: nat, q: nat)
    requires EncBoundedLength(al, n, lb, ub, p).Some?
    ensures EncBoundedLength(al, n, lb, ub, q).Some?
  {
    hide NatToBits, Zeros, Pad, CeilLog2, OctetCount, EncPrefixed, EncShortLength;
  }

  lemma ListIsShort(al: bool, n: nat, lb: nat, ub: nat, p: nat)
    requires EncBoundedLength(al, n, lb, ub, p).Some?
    ensures n <= ASN_64K
  {
  }

  /** The result of writing the flags is dropped. */
  method PackAdditions(bref: BitRef, cfg: Config, groups: seq<Schema>, vs: seq<Value>, ghost p: nat) returns (ok: bool)
    requires WellFormed(cfg, Additions(groups)) && Stands(bref, p)
    requires Encode(cfg, Additions(groups), Record(vs), p).Some?
    modifies bref, bref.buf
    ensures bref.buf == old(bref.buf)
    ensures Sent(bref, old(bref.Image()), p, Encode(cfg, Additions(groups), Record(vs), p).value, ok)
    decreases groups, 1
  {
    hide Whole, Splice, Canonical, BytesToBits, EncodeFields, AdditionFlags, Presence, Fitting, Encode;
    AdditionsParts(cfg, groups, vs, p);
    ghost var image, flags := bref.Image(), AdditionFlags(Presence(vs)).value;
    var _ := PackGroupFlags(bref, Presence(vs), p);
    ghost var mid := bref.Image();
    ok := PackFields(bref, cfg, true, groups, vs, p + |flags|);
    SentThen(bref, image, p, flags, mid, EncodeFields(cfg, true, groups, vs, p + |flags|).value, ok);
  }

  method PackGroupFlags(bref: BitRef, present: seq<bool>, ghost p: nat) returns (ok: bool)
    requires Stands(bref, p) && |present| < 0x8000_0000 && AdditionFlags(present).Some?
    modifies bref, bref.buf
    ensures bref.buf == old(bref.buf) && Sent(bref, old(bref.Image()), p, AdditionFlags(present).value, true)
  {
    hide Whole, Splice, Canonical, BytesToBits, NatToBits, BitRef.WroteFitting, Sent, EncFlags, NofGroups;
    ghost var image := bref.Image();
    NoGroupNoFlags(present);
    ok := PackFlags(bref, present);
    Settle(bref, image, p, AdditionFlags(present).value, AdditionFlags(present).value, true);
  }

  lemma NoGroupNoFlags(present: seq<bool>)
    ensures NofGroups(present) == 0 ==> EncFlags(present).None?
  {
  }

  /** The result of writing the extension bit is dropped. */
  method PackExtensible(bref: BitRef, cfg: Config, root: Schema, additions: Schema, vs: seq<Value>, ghost p: nat)
    returns (ok: bool)
    requires WellFormed(cfg, root) && WellFormed(cfg, additions) && Stands(bref, p)
    requires EncodeExtensible(cfg, root, additions, vs, p).Some?
    modifies bref, bref.buf
    ensures bref.buf == old(bref.buf)
    ensures Sent(bref, old(bref.Image()), p, EncodeExtensible(cfg, root, additions, vs, p).value, ok)
    decreases Extensible(root, additions), 0
  {
    hide Whole, Splice, Canonical, BytesToBits, NatToBits, Encode, EncodeField, WellFormed, Fitting;
    ghost var image := bref.Image();
    ghost var bit, head := [!vs[1].Absent?], Encode(cfg, root, vs[0], p + 1).value;
    ghost var tail := EncodeField(cfg, false, additions, vs[1], p + |bit + head|).value;
    var _ := PackBit(bref, !vs[1].Absent?, p);
    ghost var mid := bref.Image();
    ok := PackValue(bref, cfg, root, vs[0], p + 1);
    SentThen(bref, image, p, bit, mid, head, ok);
    if !ok {
      SentCut(bref, image, p, bit + head, tail);
      return;
    }
    mid := bref.Image();
    ok := PackField(bref, cfg, false, additions, vs[1], p + |bit + head|);
    SentThen(bref, image, p, bit + head, mid, tail, ok);
  }

  // ------------------------------------------------------------------------
  // Decoding
  // ------------------------------------------------------------------------

  /** The reader did exactly what `r` says: it fails if and only if `r` does. */
  ghost predicate Follows<T(!new)>(bref: CBitRef, r: Parsed<T>, ok: bool, v: T)
    reads bref
  {
    bref.Valid() && ok == r.Ok? && (ok ==> v == r.value && bref.Pos() == r.next)
  }

  method UnpackValue(bref: CBitRef, cfg: Config, t: Schema) returns (ok: bool, v: Value)
    requires WellFormed(cfg, t) && bref.Valid()
    modifies bref
    ensures Follows(bref, Decode(cfg, t, bref.Image(), old(bref.Pos())), ok, v)
    decreases t, 1
  {
    hide BytesToBits, BitsToNat, Pow2, CeilLog2, DecInteger, DecBitString, DecEnum, EnumKept, DecOctets, DecodeFields, DecodeItems,
         DecodeOpen, DecodeAlternative, DecodeExtensible, FlagsKept, DecBoundedLength, ReadPreamble, SkipUnknown;
    v := Absent;
    match t {
      case Raw(n) =>
        var x;
        ok, x := bref.Unpack(64, n);
        v := Num(x);
      case Number(i) =>
        var x;
        ok, x := UnpackInteger(bref, i, cfg.aligned);
        v := if x.Some? then Num(x.value) else Absent;
      case Enum(e) =>
        var x;
        ok, x := UnpackEnum(bref, e);
        v := Num(x);
      case Octets =>
        var data;
        ok, data := UnpackOctets(bref, cfg.aligned);
        v := Bytes(data);
      case BitStr(lb, ub, hasExt) =>
        var buf, n;
        ok, buf, n := UnpackBitString(bref, lb, ub, hasExt, cfg.aligned);
        v := BitBuffer(buf, n);
      case Group(fields, optional) =>
        var present, vs;
        ok, present := UnpackPreamble(bref, optional);
        if !ok {
          return;
        }
        ok, vs := UnpackFields(bref, cfg, false, fields, present);
        v := Record(vs);
      case ListOf(lb, ub, item) =>
        var n, vs;
        ok, n := UnpackBoundedLength(bref, lb, ub, cfg.aligned);
        if !ok {
          return;
        }
        ok, vs := UnpackItems(bref, cfg, item, n);
        v := Record(vs);
      case Choice(tag, alts) =>
        var _, k := UnpackEnum(bref, tag);
        if k >= tag.nTypes {
          return false, v;
        }
        var x;
        ok, x := UnpackAlternative(bref, cfg, tag, alts, k);
        v := Chosen(k, x);
      case Open(body) =>
        ok, v := UnpackOpen(bref, cfg, body);
      case Additions(groups) =>
        ok, v := UnpackAdditions(bref, cfg, groups);
      case Extensible(root, additions) =>
        ok, v := UnpackExtensible(bref, cfg, root, additions);
    }
  }

  method UnpackPreamble(bref: CBitRef, optional: seq<bool>) returns (ok: bool, present: seq<bool>)
    requires bref.Valid()
    modifies bref
    ensures Follows(bref, ReadPreamble(optional, bref.Image(), old(bref.Pos())), ok, present)
  {
    hide BytesToBits, BitsToNat, ReadPreamble, ReadNat, Pow2;
    ok, present := true, [];
    ghost var s := bref.Image();
    ghost var all := ReadPreamble(optional, s, bref.Pos());
    assert optional[0..] == optional;
    assert all.Ok? ==> [] + all.value == all.value;
    for i := 0 to |optional|
      invariant bref.Valid() && |present| == i && ok
      invariant Continues(all, present, ReadPreamble(optional[i..], s, bref.Pos()))
    {
      ReadPreambleUnfold(optional[i..], s, bref.Pos());
      assert optional[i..][1..] == optional[i + 1..];
      var flag := 1;
      if optional[i] {
        ok, flag := UnpackNat(bref, 8, 1);
        if !ok {
          return;
        }
      }
      ghost var rest := ReadPreamble(optional[i + 1..], s, bref.Pos());
      Shift(present, flag != 0, rest);
      present := present + [flag != 0];
    }
    ReadPreambleUnfold(optional[|optional|..], s, bref.Pos());
    assert present + [] == present;
  }

  /** `all` is what has been read so far followed by `rest`. */
  ghost predicate Continues<T(!new)>(all: Parsed<seq<T>>, read: seq<T>, rest: Parsed<seq<T>>) {
    all.Ok? == rest.Ok? && (all.Ok? ==> rest.next == all.next && read + rest.value == all.value)
  }

  lemma Shift<T>(read: seq<T>, x: T, rest: Parsed<seq<T>>)
    ensures rest.Ok? ==> read + ([x] + rest.value) == read + [x] + rest.value
  {
  }

  lemma ReadPreambleUnfold(optional: seq<bool>, s: seq<bool>, p: nat)
    ensures var all := ReadPreamble(optional, s, p);
            if optional == [] then all == Ok([], p)
            else if !optional[0] then
              var rest := ReadPreamble(optional[1..], s, p);
              all == if rest.Ok? then Ok([true] + rest.value, rest.next) else Fail
            else
              var flag := ReadNat(s, p, 8, 1);
              if flag.Fail? then all.Fail?
              else
                var rest := ReadPreamble(optional[1..], s, flag.next);
                all == if rest.Ok? then Ok([flag.value != 0] + rest.value, rest.next) else Fail
  {
    hide ReadNat;
  }

  method UnpackOpen(bref: CBitRef, cfg: Config, body: Schema) returns (ok: bool, v: Value)
    requires WellFormed(cfg, body) && bref.Valid()
    modifies bref
    ensures Follows(bref, DecodeOpen(cfg, body, bref.Image(), old(bref.Pos())), ok, v)
    decreases body, 2
  {
    hide BytesToBits, Decode, DecLength, LengthKept, CloseField;
    var guard := new UnpackGuard(bref, cfg.aligned);
    ok, v := UnpackValue(bref, cfg, body);
    guard.Close();
  }

  method UnpackField(bref: CBitRef, cfg: Config, open: bool, f: Schema, present: bool) returns (ok: bool, v: Value)
    requires WellFormed(cfg, f) && bref.Valid()
    modifies bref
    ensures Follows(bref, DecodeField(cfg, open, f, present, bref.Image(), old(bref.Pos())), ok, v)
    decreases f, 3
  {
    hide BytesToBits, Decode, DecodeOpen;
    if !present {
      ok, v := true, Absent;
    } else if open {
      ok, v := UnpackOpen(bref, cfg, f);
    } else {
      ok, v := UnpackValue(bref, cfg, f);
    }
  }

  method UnpackAlternative(bref: CBitRef, cfg: Config, tag: EnumType, alts: seq<Schema>, k: nat)
    returns (ok: bool, x: Value)
    requires AllWellFormed(cfg, alts) && tag.Valid() && k < |alts| && bref.Valid()
    modifies bref
    ensures Follows(bref, DecodeAlternative(cfg, tag, alts, k, bref.Image(), old(bref.Pos())), ok, x)
    decreases alts, 0
  {
    hide BytesToBits, DecodeField, WellFormed;
    ok, x := UnpackField(bref, cfg, k >= tag.Root(), alts[k], true);
  }

  method UnpackFields(bref: CBitRef, cfg: Config, open: bool, fields: seq<Schema>, present: seq<bool>)
    returns (ok: bool, vs: seq<Value>)
    requires AllWellFormed(cfg, fields) && |fields| == |present| && bref.Valid()
    modifies bref
    ensures Follows(bref, DecodeFields(cfg, open, fields, present, bref.Image(), old(bref.Pos())), ok, vs)
    decreases fields, 0
  {
    hide BytesToBits, DecodeFields, DecodeField, WellFormed;
    ok, vs := true, [];
    ghost var s := bref.Image();
    ghost var all := DecodeFields(cfg, open, fields, present, s, bref.Pos());
    assert fields[0..] == fields && present[0..] == present;
    assert all.Ok? ==> [] + all.value == all.value;
    for i := 0 to |fields|
      invariant bref.Valid() && ok
      invariant AllWellFormed(cfg, fields[i..])
      invariant Continues(all, vs, DecodeFields(cfg, open, fields[i..], present[i..], s, bref.Pos()))
    {
      DecodeFieldsUnfold(cfg, open, fields[i..], present[i..], s, bref.Pos());
      assert fields[i..][1..] == fields[i + 1..] && present[i..][1..] == present[i + 1..];
      var v;
      ok, v := UnpackField(bref, cfg, open, fields[i], present[i]);
      if !ok {
        return;
      }
      Shift(vs, v, DecodeFields(cfg, open, fields[i + 1..], present[i + 1..], s, bref.Pos()));
      vs := vs + [v];
    }
    DecodeFieldsUnfold(cfg, open, fields[|fields|..], present[|present|..], s, bref.Pos());
    assert vs + [] == vs;
  }

  lemma DecodeFieldsUnfold(cfg: Config, open: bool, fields: seq<Schema>, present: seq<bool>, s: seq<bool>, p: nat)
    requires AllWellFormed(cfg, fields) && |fields| == |present|
    ensures var all := DecodeFields(cfg, open, fields, present, s, p);
            if fields == [] then all == Ok([], p)
            else
              var head := DecodeField(cfg, open, fields[0], present[0], s, p);
              if head.Fail? then all.Fail?
              else
                var rest := DecodeFields(cfg, open, fields[1..], present[1..], s, head.next);
                all == if rest.Ok? then Ok([head.value] + rest.value, rest.next) else Fail
  {
    hide DecodeField;
  }

  method UnpackItems(bref: CBitRef, cfg: Config, item: Schema, n: nat) returns (ok: bool, vs: seq<Value>)
    requires WellFormed(cfg, item) && bref.Valid()
    modifies bref
    ensures Follows(bref, DecodeItems(cfg, item, n, bref.Image(), old(bref.Pos())), ok, vs)
    decreases item, 2
  {
    hide BytesToBits, Decode, DecodeItems, WellFormed;
    ok, vs := true, [];
    ghost var s := bref.Image();
    ghost var all := DecodeItems(cfg, item, n, s, bref.Pos());
    assert all.Ok? ==> [] + all.value == all.value;
    for i := 0 to n
      invariant bref.Valid() && ok
      invariant Continues(all, vs, DecodeItems(cfg, item, n - i, s, bref.Pos()))
    {
      DecodeItemsUnfold(cfg, item, n - i, s, bref.Pos());
      var v;
      ok, v := UnpackValue(bref, cfg, item);
      if !ok {
        return;
      }
      Shift(vs, v, DecodeItems(cfg, item, n - i - 1, s, bref.Pos()));
      vs := vs + [v];
    }
    DecodeItemsUnfold(cfg, item, 0, s, bref.Pos());
    assert vs + [] == vs;
  }

  lemma DecodeItemsUnfold(cfg: Config, item: Schema, n: nat, s: seq<bool>, p: nat)
    requires WellFormed(cfg, item)
    ensures var all := DecodeItems(cfg, item, n, s, p);
            if n == 0 then all == Ok([], p)
            else
              var head := Decode(cfg, item, s, p);
              if head.Fail? then all.Fail?
              else
                var rest := DecodeItems(cfg, item, n - 1, s, head.next);
                all == if rest.Ok? then Ok([head.value] + rest.value, rest.next) else Fail
  {
    hide Decode, WellFormed;
  }

  method UnpackAdditions(bref: CBitRef, cfg: Config, groups: seq<Schema>) returns (ok: bool, v: Value)
    requires WellFormed(cfg, Additions(groups)) && bref.Valid()
    modifies bref
    ensures Follows(bref, Decode(cfg, Additions(groups), bref.Image(), old(bref.Pos())), ok, v)
    decreases groups, 1
  {
    hide BytesToBits, DecodeFields, DecFlags, FlagsKept, SkipUnknown;
    v := Absent;
    var vs;
    var _, flags, nUnpacked := UnpackFlags(bref, |groups|);
    if nUnpacked > |flags| {
      // the source would look for flags behind those it has
      return false, v;
    }
    ok, vs := UnpackFields(bref, cfg, true, groups, flags[..|groups|]);
    v := Record(vs);
    SkipUnknownGroups(bref, flags[|groups|..]);
  }

  method UnpackExtensible(bref: CBitRef, cfg: Config, root: Schema, additions: Schema) returns (ok: bool, v: Value)
    requires WellFormed(cfg, root) && WellFormed(cfg, additions) && bref.Valid()
    modifies bref
    ensures Follows(bref, DecodeExtensible(cfg, root, additions, bref.Image(), old(bref.Pos())), ok, v)
    decreases Extensible(root, additions), 0
  {
    hide BytesToBits, BitsToNat, Decode, DecodeField, Pow2, WellFormed;
    v := Absent;
    var x, more;
    var ext := UnpackFlag(bref);
    ok, x := UnpackValue(bref, cfg, root);
    if !ok {
      return;
    }
    ok, more := UnpackField(bref, cfg, false, additions, ext);
    v := Record([x, more]);
  }

  /** One bit, without looking at the result of the read. */
  method UnpackFlag(bref: CBitRef) returns (flag: bool)
    requires bref.Valid()
    modifies bref
    ensures bref.Valid()
    ensures var s, p := bref.Image(), old(bref.Pos());
            (flag, bref.Pos()) == if p < |s| then (s[p], p + 1) else (false, |s|)
  {
    hide BytesToBits, BitsToNat;
    ghost var s, p := bref.Image(), bref.Pos();
    var ok, x := bref.Unpack(8, 1);
    flag := ok && x != 0;
    if p < |s| {
      BitAt(s, p);
    }
  }

  /** The destructor of the flags opens and closes every unknown group that is present. */
  method SkipUnknownGroups(bref: CBitRef, flags: seq<bool>)
    requires bref.Valid()
    modifies bref
    ensures bref.Valid() && bref.Pos() == SkipUnknown(flags, bref.Image(), old(bref.Pos()))
  {
    hide BytesToBits, DecLength, LengthKept, SkipUnknown, CloseField;
    ghost var s := bref.Image();
    ghost var all := SkipUnknown(flags, s, bref.Pos());
    assert flags[0..] == flags;
    for i := 0 to |flags|
      invariant bref.Valid()
      invariant SkipUnknown(flags[i..], s, bref.Pos()) == all
    {
      SkipUnfold(flags[i..], s, bref.Pos());
      assert flags[i..][1..] == flags[i + 1..];
      if flags[i] {
        var guard := new UnpackGuard(bref, false);
        guard.Close();
      }
    }
    SkipUnfold(flags[|flags|..], s, bref.Pos());
  }

  lemma SkipUnfold(flags: seq<bool>, s: seq<bool>, p: nat)
    ensures var all := SkipUnknown(flags, s, p);
            if flags == [] then all == p
            else if !flags[0] then all == SkipUnknown(flags[1..], s, p)
            else
              var (len, start) := LengthKept(false, s, p);
              all == SkipUnknown(flags[1..], s, CloseField(s, start, len, start))
  {
    hide LengthKept, CloseField;
  }

  // ------------------------------------------------------------------------
  // End to end
  // ------------------------------------------------------------------------

  /** Encoding a message into a buffer and decoding the buffer's octets gives the message back;
      both cursors end at the same place, whatever the buffer held before. */
  method SendAndReceive(cfg: Config, t: Schema, v: Value, buffer: array<byte>)
    returns (ok: bool, v': Value, sent: nat, received: nat)
    requires WellFormed(cfg, t)
    requires Encode(cfg, t, v, 0).Some? && |Encode(cfg, t, v, 0).value| <= 8 * buffer.Length
    modifies buffer
    ensures ok && v' == v && sent == received == |Encode(cfg, t, v, 0).value|
    ensures BytesToBits(buffer[..CeilDiv(sent, 8)]) == Encode(cfg, t, v, 0).value + Zeros(Pad(sent))
  {
    hide BytesToBits, Encode, Decode, Splice, Zeros;
    var writer := new BitRef(buffer);
    ghost var image, bits := writer.Image(), Encode(cfg, t, v, 0).value;
    ok := PackValue(writer, cfg, t, v, 0);
    writer.WroteInFull(image, 0, bits);
    sent := writer.Distance();
    SpliceWritten(image, 0, bits);
    SpliceForgets(image, image, bits);
    SliceBytes(buffer[..], 0, CeilDiv(sent, 8));
    assert buffer[..][0..CeilDiv(sent, 8)] == buffer[..CeilDiv(sent, 8)];
    var reader := new CBitRef(buffer[..]);
    RoundTrip(cfg, t, v, reader.Image(), 0);
    ok, v' := UnpackValue(reader, cfg, t);
    received := reader.offset + 8 * reader.ptr;
  }
}
