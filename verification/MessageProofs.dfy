/**
 Decoding undoes encoding, for every message tree; and a decoder that knows fewer extension
 groups than the encoder still finds its way.
 */
module MessageProofs {
  import opened Bits
  import opened Options
  import opened BitImage
  import opened Per
  import opened PerTypes
  import opened Integer
  import opened BitString
  import opened Message

  // ------------------------------------------------------------------------
  // Encodings depend on the position only through octet alignment
  // ------------------------------------------------------------------------

  /** Positions at which the encoders behave alike. */
  predicate SamePhase(al: bool, p: nat, q: nat) {
    al ==> p % 8 == q % 8
  }

  lemma PhaseAdd(al: bool, p: nat, q: nat, n: nat)
    requires SamePhase(al, p, q)
    ensures SamePhase(al, p + n, q + n)
  {
  }

  lemma PadPhase(p: nat, q: nat, k: nat)
    requires p % 8 == q % 8
    ensures Pad(p + k) == Pad(q + k)
  {
    hide Pad;
    PadOf((p + k) / 8, (p + k) % 8);
    PadOf((q + k) / 8, (q + k) % 8);
  }

  lemma LeafShift(al: bool, p: nat, q: nat)
    requires SamePhase(al, p, q)
    ensures forall n, lb, ub :: EncConstrained(al, n, lb, ub, p) == EncConstrained(al, n, lb, ub, q)
    ensures forall n :: EncLength(al, n, p) == EncLength(al, n, q)
  {
    if al {
      forall n: nat, lb: nat, ub: nat
        ensures EncConstrained(al, n, lb, ub, p) == EncConstrained(al, n, lb, ub, q)
      {
        ConstrainedShift(n, lb, ub, p, q);
      }
      PadPhase(p, q, 0);
    }
  }

  lemma ConstrainedShift(n: nat, lb: nat, ub: nat, p: nat, q: nat)
    requires p % 8 == q % 8
    ensures EncConstrained(true, n, lb, ub, p) == EncConstrained(true, n, lb, ub, q)
  {
    hide NatToBits, Zeros, CeilLog2, OctetCount, Pad, CountWidth;
    PadPhase(p, q, 0);
    if lb < ub {
      var w := CeilLog2(ub - lb + 1);
      assert w > 0 by { if w == 0 { Pow2Zero(); assert false; } }
      PadPhase(p, q, CountWidth(w));
    }
  }

  lemma IntegerShift(i: IntegerType, n: nat, al: bool, p: nat, q: nat)
    requires i.Valid() && (i.Within(n) || n >= 1) && SamePhase(al, p, q)
    ensures EncInteger(i, n, al, p) == EncInteger(i, n, al, q)
  {
    hide EncConstrained, EncOutside, NatToBits, SamePhase, Pow2;
    var k := |i.ExtBit(n)|;
    PhaseAdd(al, p, q, k);
    LeafShift(al, p + k, q + k);
    if n >= 1 {
      OutsideShift(n, al, p + k, q + k);
    }
  }

  lemma BitStringShift(lb: nat, ub: nat, hasExt: bool, al: bool, buf: seq<byte>, n: nat, p: nat, q: nat)
    requires lb <= ub && SamePhase(al, p, q)
    ensures Readable(lb, ub, hasExt, al, n, p) == Readable(lb, ub, hasExt, al, n, q)
    ensures EncBitString(lb, ub, hasExt, al, buf, n, p) == EncBitString(lb, ub, hasExt, al, buf, n, q)
  {
    hide NatToBits, LittleEndian, EncBoundedPrefix, EncPrefix, Zeros, Pad, CeilLog2, SamePhase;
    ReadableShift(lb, ub, hasExt, al, n, p, q);
    PrefixShift(n, lb, ub, hasExt, al, p, q);
    var pre := EncPrefix(n, lb, ub, hasExt, al, p);
    if pre.Some? {
      PhaseAdd(al, p, q, |pre.value|);
      if al {
        PadPhase(p, q, |pre.value|) by { AlignedPhase(p, q); }
      }
    }
  }

  lemma AlignedPhase(p: nat, q: nat)
    requires SamePhase(true, p, q)
    ensures p % 8 == q % 8
  {
  }

  lemma ReadableShift(lb: nat, ub: nat, hasExt: bool, al: bool, n: nat, p: nat, q: nat)
    requires SamePhase(al, p, q)
    ensures Readable(lb, ub, hasExt, al, n, p) == Readable(lb, ub, hasExt, al, n, q)
  {
    hide CeilLog2;
  }

  lemma PrefixShift(n: nat, lb: nat, ub: nat, hasExt: bool, al: bool, p: nat, q: nat)
    requires lb <= ub && SamePhase(al, p, q)
    ensures EncPrefix(n, lb, ub, hasExt, al, p) == EncPrefix(n, lb, ub, hasExt, al, q)
  {
    hide NatToBits, EncBoundedPrefix, Zeros, Pad;
    if al && lb < ub && lb <= n {
      PadPhase(p, q, ExtWidth(hasExt) + |EncBoundedPrefix(n, lb, ub)|);
    }
  }

  lemma OutsideShift(n: nat, al: bool, p: nat, q: nat)
    requires n >= 1 && SamePhase(al, p, q)
    ensures EncOutside(n, al, p) == EncOutside(n, al, q)
  {
    hide EncLength, NatToBits, Zeros, Pad, OutsideOctets;
    LeafShift(al, p, q);
    var len := EncLength(al, OutsideOctets(n), p);
    if al && len.Some? {
      PadPhase(p, q, |len.value|);
    }
  }

  lemma {:induction false} EncodeShift(cfg: Config, t: Schema, v: Value, p: nat, q: nat)
    requires WellFormed(cfg, t) && SamePhase(cfg.aligned, p, q)
    ensures Encode(cfg, t, v, p) == Encode(cfg, t, v, q)
    decreases t, 1
  {
    hide EncConstrained, EncLength, EncInteger, ComesBack, EncBitString, Readable, Clean, NatToBits, EncEnum, AdditionFlags,
         BytesToBits, Preamble, Presence, EncodeExtensible, Pow2, CeilLog2, EncodeFields, EncodeAlternative, EncodeItems, EncodeOpen, SamePhase;
    LeafShift(cfg.aligned, p, q);
    match (t, v) {
      case (Number(i), Num(x)) =>
        if i.Within(x) || x >= 1 {
          IntegerShift(i, x, cfg.aligned, p, q);
        }
      case (BitStr(lb, ub, hasExt), BitBuffer(buf, n)) =>
        BitStringShift(lb, ub, hasExt, cfg.aligned, buf, n, p, q);
      case (Group(fields, optional), Record(vs)) =>
        if |vs| == |fields| {
          var n := |Preamble(optional, Presence(vs))|;
          PhaseAdd(cfg.aligned, p, q, n);
          FieldsShift(cfg, false, fields, vs, p + n, q + n);
        }
      case (ListOf(lb, ub, item), Record(vs)) =>
        var len := EncBoundedLength(cfg.aligned, |vs|, lb, ub, p);
        if len.Some? {
          PhaseAdd(cfg.aligned, p, q, |len.value|);
          ItemsShift(cfg, item, vs, p + |len.value|, q + |len.value|);
        }
      case (Choice(tag, alts), Chosen(k, x)) =>
        var head := EncEnum(tag, k);
        if head.Some? {
          TagInRange(tag, k);
          PhaseAdd(cfg.aligned, p, q, |head.value|);
          AlternativeShift(cfg, tag, alts, k, x, p + |head.value|, q + |head.value|);
        }
      case (Open(body), _) => OpenShift(cfg, body, v, p, q);
      case (Additions(groups), Record(vs)) =>
        var flags := AdditionFlags(Presence(vs));
        if |vs| == |groups| && flags.Some? {
          PhaseAdd(cfg.aligned, p, q, |flags.value|);
          FieldsShift(cfg, true, groups, vs, p + |flags.value|, q + |flags.value|);
        }
      case (Extensible(root, additions), Record(vs)) => ExtensibleShift(cfg, root, additions, vs, p, q);
      case _ =>
    }
  }

  lemma ExtensibleShift(cfg: Config, root: Schema, additions: Schema, vs: seq<Value>, p: nat, q: nat)
    requires WellFormed(cfg, root) && WellFormed(cfg, additions) && SamePhase(cfg.aligned, p, q)
    ensures EncodeExtensible(cfg, root, additions, vs, p) == EncodeExtensible(cfg, root, additions, vs, q)
    decreases Extensible(root, additions), 0
  {
    hide SamePhase, Encode, EncodeField, WellFormed;
    if |vs| == 2 {
      PhaseAdd(cfg.aligned, p, q, 1);
      EncodeShift(cfg, root, vs[0], p + 1, q + 1);
      var head := Encode(cfg, root, vs[0], p + 1);
      if head.Some? {
        var front := [!vs[1].Absent?] + head.value;
        PhaseAdd(cfg.aligned, p, q, |front|);
        FieldShift(cfg, false, additions, vs[1], p + |front|, q + |front|);
      }
    }
  }

  lemma TagInRange(tag: EnumType, k: nat)
    requires tag.Valid() && EncEnum(tag, k).Some?
    ensures k < tag.nTypes
  {
  }

  lemma OpenShift(cfg: Config, body: Schema, v: Value, p: nat, q: nat)
    requires WellFormed(cfg, body) && SamePhase(cfg.aligned, p, q)
    ensures EncodeOpen(cfg, body, v, p) == EncodeOpen(cfg, body, v, q)
    decreases body, 2
  {
    LeafShift(cfg.aligned, p, q);
  }

  lemma FieldShift(cfg: Config, open: bool, f: Schema, v: Value, p: nat, q: nat)
    requires WellFormed(cfg, f) && SamePhase(cfg.aligned, p, q)
    ensures EncodeField(cfg, open, f, v, p) == EncodeField(cfg, open, f, v, q)
    decreases f, 3
  {
    hide Encode, EncodeOpen;
    EncodeShift(cfg, f, v, p, q);
    OpenShift(cfg, f, v, p, q);
  }

  lemma AlternativeShift(cfg: Config, tag: EnumType, alts: seq<Schema>, k: nat, x: Value, p: nat, q: nat)
    requires AllWellFormed(cfg, alts) && tag.Valid() && k < |alts| && SamePhase(cfg.aligned, p, q)
    ensures EncodeAlternative(cfg, tag, alts, k, x, p) == EncodeAlternative(cfg, tag, alts, k, x, q)
    decreases alts, 0
  {
    hide EncodeField, SamePhase;
    FieldShift(cfg, k >= tag.Root(), alts[k], x, p, q);
  }

  lemma {:induction false} FieldsShift(cfg: Config, open: bool, fields: seq<Schema>, vs: seq<Value>, p: nat, q: nat)
    requires AllWellFormed(cfg, fields)
    requires |fields| == |vs| && SamePhase(cfg.aligned, p, q)
    ensures EncodeFields(cfg, open, fields, vs, p) == EncodeFields(cfg, open, fields, vs, q)
    decreases fields, 0
  {
    hide EncodeField, EncodeFields, SamePhase, WellFormed, AllWellFormed;
    if fields == [] {
      NoFields(cfg, open, fields, vs, p);
      NoFields(cfg, open, fields, vs, q);
    } else {
      HeadAndTail(cfg, fields);
      FieldShift(cfg, open, fields[0], vs[0], p, q);
      var head := EncodeField(cfg, open, fields[0], vs[0], p);
      if head.Some? {
        PhaseAdd(cfg.aligned, p, q, |head.value|);
        FieldsShift(cfg, open, fields[1..], vs[1..], p + |head.value|, q + |head.value|);
      }
      FieldsShiftStep(cfg, open, fields, vs, p, q, head);
    }
  }

  lemma NoFields(cfg: Config, open: bool, fields: seq<Schema>, vs: seq<Value>, p: nat)
    requires fields == [] && vs == []
    ensures EncodeFields(cfg, open, fields, vs, p) == Some([])
  {
  }

  lemma HeadAndTail(cfg: Config, fields: seq<Schema>)
    requires fields != [] && AllWellFormed(cfg, fields)
    ensures WellFormed(cfg, fields[0]) && AllWellFormed(cfg, fields[1..])
  {
    hide WellFormed;
  }

  lemma FieldsShiftStep(cfg: Config, open: bool, fields: seq<Schema>, vs: seq<Value>, p: nat, q: nat,
                        head: Option<seq<bool>>)
    requires AllWellFormed(cfg, fields) && 0 < |fields| == |vs|
    requires EncodeField(cfg, open, fields[0], vs[0], p) == head == EncodeField(cfg, open, fields[0], vs[0], q)
    requires head.Some? ==>
               EncodeFields(cfg, open, fields[1..], vs[1..], p + |head.value|)
               == EncodeFields(cfg, open, fields[1..], vs[1..], q + |head.value|)
    ensures EncodeFields(cfg, open, fields, vs, p) == EncodeFields(cfg, open, fields, vs, q)
  {
    hide EncodeField, EncodeFields, WellFormed;
    FieldsUnfold(cfg, open, fields, vs, p);
    FieldsUnfold(cfg, open, fields, vs, q);
  }

  lemma {:induction false} ItemsShift(cfg: Config, item: Schema, vs: seq<Value>, p: nat, q: nat)
    requires WellFormed(cfg, item) && SamePhase(cfg.aligned, p, q)
    ensures EncodeItems(cfg, item, vs, p) == EncodeItems(cfg, item, vs, q)
    decreases item, 1 + |vs|
  {
    hide Encode, EncodeItems, SamePhase;
    ItemsUnfold(cfg, item, vs, p);
    ItemsUnfold(cfg, item, vs, q);
    if vs != [] {
      EncodeShift(cfg, item, vs[0], p, q);
      var head := Encode(cfg, item, vs[0], p);
      if head.Some? {
        PhaseAdd(cfg.aligned, p, q, |head.value|);
        ItemsShift(cfg, item, vs[1..], p + |head.value|, q + |head.value|);
      }
    }
  }

  lemma ItemsUnfold(cfg: Config, item: Schema, vs: seq<Value>, p: nat)
    requires WellFormed(cfg, item)
    ensures var all := EncodeItems(cfg, item, vs, p);
            if vs == [] then all == Some([])
            else
              var head := Encode(cfg, item, vs[0], p);
              if head.None? then all.None?
              else
                var tail := EncodeItems(cfg, item, vs[1..], p + |head.value|);
                && all.Some? == tail.Some?
                && (all.Some? ==> all.value == head.value + tail.value)
  {
    hide Encode, WellFormed;
  }

  // ------------------------------------------------------------------------
  // The round trip
  // ------------------------------------------------------------------------

  lemma {:induction false} PreambleRoundTrip(optional: seq<bool>, present: seq<bool>, s: seq<bool>, p: nat)
    requires |optional| == |present| && At(s, p, Preamble(optional, present))
    requires forall i | 0 <= i < |present| :: present[i] || optional[i]
    ensures ReadPreamble(optional, s, p) == Ok(present, p + |Preamble(optional, present)|)
  {
    if optional != [] {
      hide NatToBits, BitsToNat;
      var head := if optional[0] then [present[0]] else [];
      AtSplit(s, p, head, Preamble(optional[1..], present[1..]));
      PreambleRoundTrip(optional[1..], present[1..], s, p + |head|);
      if optional[0] {
        FlagBit(present[0]);
        Pow2Values();
        ReadBack(s, p, 8, if present[0] then 1 else 0, 1);
      }
      assert present == [present[0]] + present[1..];
    }
  }

  lemma FlagBit(b: bool)
    ensures [b] == NatToBits(if b then 1 else 0, 1)
  {
  }

  /** Main theorem: if the image holds the encoding of `v` at `p`, decoding there yields `v`
      and stops where the encoder stopped. */
  lemma {:induction false} RoundTrip(cfg: Config, t: Schema, v: Value, s: seq<bool>, p: nat)
    requires WellFormed(cfg, t)
    requires Encode(cfg, t, v, p).Some? && At(s, p, Encode(cfg, t, v, p).value)
    ensures Decode(cfg, t, s, p) == Ok(v, p + |Encode(cfg, t, v, p).value|)
    decreases t, 1
  {
    hide EncInteger, DecInteger, ComesBack, EncBitString, DecBitString, Readable, Clean, EncEnum, DecEnum, EncOctets, DecOctets,
         NatToBits, BitsToNat, Pow2, EncodeExtensible, DecodeExtensible, EncodeFields, DecodeFields, EncodeAlternative, DecodeAlternative, EncodeItems, DecodeItems, EncodeOpen, DecodeOpen;
    match t {
      case Raw(n) => ReadBack(s, p, 64, v.n, n);
      case Number(i) => IntegerRoundTripExactly(i, v.n, cfg.aligned, s, p);
      case Enum(e) => EnumRoundTrip(e, v.n, s, p);
      case Octets => OctetStringRoundTrip(cfg.aligned, v.data, s, p);
      case BitStr(lb, ub, hasExt) => BitStringRoundTrip(lb, ub, hasExt, cfg.aligned, v.buf, v.length, s, p);
      case Group(fields, optional) => GroupRoundTrip(cfg, fields, optional, v.fields, s, p);
      case ListOf(lb, ub, item) => ListRoundTrip(cfg, lb, ub, item, v.fields, s, p);
      case Choice(tag, alts) => ChoiceRoundTrip(cfg, tag, alts, v.index, v.value, s, p);
      case Open(body) => OpenRoundTrip(cfg, body, v, s, p);
      case Additions(groups) =>
        assert groups[..|groups|] == groups && v.fields[..|groups|] == v.fields;
        AdditionsRoundTrip(cfg, groups, v.fields, |groups|, s, p);
      case Extensible(root, additions) => ExtensibleRoundTrip(cfg, root, additions, v.fields, s, p);
    }
  }

  lemma ExtensibleRoundTrip(cfg: Config, root: Schema, additions: Schema, vs: seq<Value>, s: seq<bool>, p: nat)
    requires WellFormed(cfg, root) && WellFormed(cfg, additions)
    requires EncodeExtensible(cfg, root, additions, vs, p).Some?
    requires At(s, p, EncodeExtensible(cfg, root, additions, vs, p).value)
    ensures DecodeExtensible(cfg, root, additions, s, p)
         == Ok(Record(vs), p + |EncodeExtensible(cfg, root, additions, vs, p).value|)
    decreases Extensible(root, additions), 0
  {
    hide Encode, Decode, EncodeField, DecodeField, WellFormed;
    var bit, head := [!vs[1].Absent?], Encode(cfg, root, vs[0], p + 1).value;
    var tail := EncodeField(cfg, false, additions, vs[1], p + |bit + head|).value;
    AtSplit(s, p, bit + head, tail);
    AtSplit(s, p, bit, head);
    assert s[p] == s[p..p + 1][0];
    RoundTrip(cfg, root, vs[0], s, p + 1);
    FieldRoundTrip(cfg, false, additions, vs[1], s, p + |bit + head|);
    assert [vs[0], vs[1]] == vs;
  }

  /** Encodings delimit themselves: none is a proper prefix of another of the same type, and
      different messages have different encodings. */
  lemma PrefixFree(cfg: Config, t: Schema, v: Value, w: Value, p: nat)
    requires WellFormed(cfg, t) && Encode(cfg, t, v, p).Some? && Encode(cfg, t, w, p).Some?
    requires Encode(cfg, t, v, p).value <= Encode(cfg, t, w, p).value
    ensures v == w
  {
    hide Encode, Decode;
    var a, b := Encode(cfg, t, v, p).value, Encode(cfg, t, w, p).value;
    var s := Zeros(p) + b;
    BehindZeros(p, a, b);
    RoundTrip(cfg, t, v, s, p);
    RoundTrip(cfg, t, w, s, p);
  }

  lemma BehindZeros(p: nat, a: seq<bool>, b: seq<bool>)
    requires a <= b
    ensures At(Zeros(p) + b, p, a) && At(Zeros(p) + b, p, b)
  {
    hide Zeros;
    var s := Zeros(p) + b;
    assert s[p..p + |b|] == b;
    assert s[p..p + |a|] == b[..|a|];
  }

  lemma GroupRoundTrip(cfg: Config, fields: seq<Schema>, optional: seq<bool>, vs: seq<Value>, s: seq<bool>, p: nat)
    requires WellFormed(cfg, Group(fields, optional))
    requires Encode(cfg, Group(fields, optional), Record(vs), p).Some?
    requires At(s, p, Encode(cfg, Group(fields, optional), Record(vs), p).value)
    ensures Decode(cfg, Group(fields, optional), s, p)
         == Ok(Record(vs), p + |Encode(cfg, Group(fields, optional), Record(vs), p).value|)
    decreases fields, 1
  {
    hide Preamble, ReadPreamble, EncodeFields, DecodeFields;
    var present := Presence(vs);
    var pre := Preamble(optional, present);
    var rest := EncodeFields(cfg, false, fields, vs, p + |pre|).value;
    AtSplit(s, p, pre, rest);
    PreambleRoundTrip(optional, present, s, p);
    FieldsRoundTrip(cfg, false, fields, vs, s, p + |pre|);
  }

  lemma ListRoundTrip(cfg: Config, lb: nat, ub: nat, item: Schema, vs: seq<Value>, s: seq<bool>, p: nat)
    requires WellFormed(cfg, ListOf(lb, ub, item))
    requires Encode(cfg, ListOf(lb, ub, item), Record(vs), p).Some?
    requires At(s, p, Encode(cfg, ListOf(lb, ub, item), Record(vs), p).value)
    ensures Decode(cfg, ListOf(lb, ub, item), s, p)
         == Ok(Record(vs), p + |Encode(cfg, ListOf(lb, ub, item), Record(vs), p).value|)
    decreases item, 2 + |vs|
  {
    hide EncBoundedLength, DecBoundedLength, EncodeItems, DecodeItems;
    var len := EncBoundedLength(cfg.aligned, |vs|, lb, ub, p).value;
    var rest := EncodeItems(cfg, item, vs, p + |len|).value;
    AtSplit(s, p, len, rest);
    BoundedLengthRoundTrip(cfg.aligned, |vs|, lb, ub, s, p);
    ItemsRoundTrip(cfg, item, vs, s, p + |len|);
  }

  lemma ChoiceRoundTrip(cfg: Config, tag: EnumType, alts: seq<Schema>, k: nat, x: Value, s: seq<bool>, p: nat)
    requires WellFormed(cfg, Choice(tag, alts))
    requires Encode(cfg, Choice(tag, alts), Chosen(k, x), p).Some?
    requires At(s, p, Encode(cfg, Choice(tag, alts), Chosen(k, x), p).value)
    ensures Decode(cfg, Choice(tag, alts), s, p)
         == Ok(Chosen(k, x), p + |Encode(cfg, Choice(tag, alts), Chosen(k, x), p).value|)
    decreases alts, 1
  {
    hide EncEnum, DecEnum, EnumKept, EncodeAlternative, DecodeAlternative;
    var head := EncEnum(tag, k).value;
    TagInRange(tag, k);
    AtSplit(s, p, head, EncodeAlternative(cfg, tag, alts, k, x, p + |head|).value);
    EnumRoundTrip(tag, k, s, p);
    EnumKeptReads(tag, s, p);
    AlternativeRoundTrip(cfg, tag, alts, k, x, s, p + |head|);
  }

  /** A tag that cannot be read is refused if and only if the value left is no alternative, or
      the alternative it names cannot be read at the place where the reader was left. */
  lemma BadTagExactly(cfg: Config, tag: EnumType, alts: seq<Schema>, s: seq<bool>, p: nat)
    requires WellFormed(cfg, Choice(tag, alts)) && DecEnum(tag, s, p).Fail?
    ensures var (k, q) := EnumKept(tag, s, p);
            var r := Decode(cfg, Choice(tag, alts), s, p);
            && (r.Fail? <==> k >= tag.nTypes || DecodeAlternative(cfg, tag, alts, k, s, q).Fail?)
            && (r.Ok? ==> r.value.Chosen? && r.value.index == k)
  {
    hide EnumKept, DecodeAlternative;
  }

  /** An extensible choice takes a tag in the long form, which its reader refuses, for its first
      extension, and reads that from behind the two bits. */
  lemma LongTagTaken(cfg: Config, tag: EnumType, alts: seq<Schema>, s: seq<bool>, p: nat)
    requires WellFormed(cfg, Choice(tag, alts)) && tag.hasExt && tag.nExts > 0
    requires p + 1 < |s| && s[p] && s[p + 1]
    ensures DecEnum(tag, s, p).Fail?
    ensures var k := tag.nTypes - tag.nExts;
            var x := DecodeAlternative(cfg, tag, alts, k, s, p + 2);
            var r := Decode(cfg, Choice(tag, alts), s, p);
            if x.Ok? then r == Ok(Chosen(k, x.value), x.next) else r.Fail?
  {
    hide EnumKept, DecEnum, DecodeAlternative;
    LongFormKept(tag, s, p);
  }

  /** At the end of the input a choice is taken for its first alternative, and succeeds if that
      needs no bits. */
  lemma MissingTagTaken(cfg: Config, tag: EnumType, alts: seq<Schema>, s: seq<bool>)
    requires WellFormed(cfg, Choice(tag, alts)) && (tag.hasExt || tag.nTypes >= 2)
    ensures DecEnum(tag, s, |s|).Fail?
    ensures var x := DecodeAlternative(cfg, tag, alts, 0, s, |s|);
            var r := Decode(cfg, Choice(tag, alts), s, |s|);
            if x.Ok? then r == Ok(Chosen(0, x.value), x.next) else r.Fail?
  {
    hide EnumKept, DecEnum, DecodeAlternative;
    MissingKept(tag, s);
  }

  lemma AlternativeRoundTrip(cfg: Config, tag: EnumType, alts: seq<Schema>, k: nat, x: Value, s: seq<bool>, p: nat)
    requires AllWellFormed(cfg, alts) && tag.Valid() && k < |alts| && !x.Absent?
    requires EncodeAlternative(cfg, tag, alts, k, x, p).Some?
    requires At(s, p, EncodeAlternative(cfg, tag, alts, k, x, p).value)
    ensures DecodeAlternative(cfg, tag, alts, k, s, p)
         == Ok(x, p + |EncodeAlternative(cfg, tag, alts, k, x, p).value|)
    decreases alts, 0
  {
    hide EncodeField, DecodeField;
    FieldRoundTrip(cfg, k >= tag.Root(), alts[k], x, s, p);
  }

  lemma OpenRoundTrip(cfg: Config, body: Schema, v: Value, s: seq<bool>, p: nat)
    requires WellFormed(cfg, body)
    requires EncodeOpen(cfg, body, v, p).Some? && At(s, p, EncodeOpen(cfg, body, v, p).value)
    ensures DecodeOpen(cfg, body, s, p) == Ok(v, p + |EncodeOpen(cfg, body, v, p).value|)
    decreases body, 2
  {
    hide DecLength, LengthKept, OpenBits, CloseField, Encode, Decode;
    var content := Encode(cfg, body, v, 0).value;
    OpenFieldLayout(cfg.aligned, content, s, p);
    OpenFieldCloses(cfg.aligned, content, s, p);
    var start := DecLength(cfg.aligned, s, p).next;
    EncodeShift(cfg, body, v, 0, start);
    RoundTrip(cfg, body, v, s, start);
  }

  lemma FieldRoundTrip(cfg: Config, open: bool, f: Schema, v: Value, s: seq<bool>, p: nat)
    requires WellFormed(cfg, f)
    requires EncodeField(cfg, open, f, v, p).Some? && At(s, p, EncodeField(cfg, open, f, v, p).value)
    ensures DecodeField(cfg, open, f, !v.Absent?, s, p) == Ok(v, p + |EncodeField(cfg, open, f, v, p).value|)
    decreases f, 3
  {
    hide Encode, EncodeOpen, Decode, DecodeOpen;
    if v.Absent? {
    } else if open {
      OpenRoundTrip(cfg, f, v, s, p);
    } else {
      RoundTrip(cfg, f, v, s, p);
    }
  }

  lemma {:induction false} FieldsRoundTrip(cfg: Config, open: bool, fields: seq<Schema>, vs: seq<Value>,
                                           s: seq<bool>, p: nat)
    requires AllWellFormed(cfg, fields)
    requires |fields| == |vs|
    requires EncodeFields(cfg, open, fields, vs, p).Some? && At(s, p, EncodeFields(cfg, open, fields, vs, p).value)
    ensures DecodeFields(cfg, open, fields, Presence(vs), s, p)
         == Ok(vs, p + |EncodeFields(cfg, open, fields, vs, p).value|)
    decreases fields, 0
  {
    hide EncodeField, DecodeField;
    if fields != [] {
      var head := EncodeField(cfg, open, fields[0], vs[0], p).value;
      AtSplit(s, p, head, EncodeFields(cfg, open, fields[1..], vs[1..], p + |head|).value);
      FieldRoundTrip(cfg, open, fields[0], vs[0], s, p);
      FieldsRoundTrip(cfg, open, fields[1..], vs[1..], s, p + |head|);
      assert Presence(vs)[1..] == Presence(vs[1..]);
      assert [vs[0]] + vs[1..] == vs;
    }
  }

  lemma {:induction false} ItemsRoundTrip(cfg: Config, item: Schema, vs: seq<Value>, s: seq<bool>, p: nat)
    requires WellFormed(cfg, item)
    requires EncodeItems(cfg, item, vs, p).Some? && At(s, p, EncodeItems(cfg, item, vs, p).value)
    ensures DecodeItems(cfg, item, |vs|, s, p) == Ok(vs, p + |EncodeItems(cfg, item, vs, p).value|)
    decreases item, 1 + |vs|
  {
    hide Encode, Decode;
    if vs != [] {
      var head := Encode(cfg, item, vs[0], p).value;
      AtSplit(s, p, head, EncodeItems(cfg, item, vs[1..], p + |head|).value);
      RoundTrip(cfg, item, vs[0], s, p);
      ItemsRoundTrip(cfg, item, vs[1..], s, p + |head|);
      assert [vs[0]] + vs[1..] == vs;
    }
  }

  // ------------------------------------------------------------------------
  // Extension additions
  // ------------------------------------------------------------------------

  /** Every group from the `k`-th on that is present has at most four octets. */
  ghost predicate UnknownAreShort(cfg: Config, groups: seq<Schema>, vs: seq<Value>, k: nat)
    requires AllWellFormed(cfg, groups)
  {
    forall i | k <= i < |groups| && i < |vs| && !vs[i].Absent? ::
      var content := Encode(cfg, groups[i], vs[i], 0);
      content.Some? && OpenOctets(content.value) <= 4
  }

  /** A decoder that knows the first `k` groups reads them back and stops at the encoder's
      position, provided every unknown group that is present has at most four octets. */
  lemma AdditionsRoundTrip(cfg: Config, groups: seq<Schema>, vs: seq<Value>, k: nat, s: seq<bool>, p: nat)
    requires WellFormed(cfg, Additions(groups)) && k <= |groups|
    requires Encode(cfg, Additions(groups), Record(vs), p).Some?
    requires At(s, p, Encode(cfg, Additions(groups), Record(vs), p).value)
    requires UnknownAreShort(cfg, groups, vs, k)
    ensures WellFormed(cfg, Additions(groups[..k]))
    ensures Decode(cfg, Additions(groups[..k]), s, p)
         == Ok(Record(vs[..k]), p + |Encode(cfg, Additions(groups), Record(vs), p).value|)
    decreases groups, 2
  {
    hide EncFlags, FlagsKept, EncodeFields, DecodeFields, SkipUnknown, NofGroups, UnknownAreShort, AdditionFlags, Encode, Decode;
    AdditionsParts(cfg, groups, vs, p);
    var present := Presence(vs);
    var flags := AdditionFlags(present).value;
    var q := p + |flags|;
    AtSplit(s, p, flags, EncodeFields(cfg, true, groups, vs, q).value);
    AdditionFlagsRoundTrip(present, k, s, p);
    GroupsRoundTrip(cfg, groups, vs, k, FlagsKept(k, s, p).value, s, q);
    DecodeAdditions(cfg, groups[..k], s, p);
  }

  /** The groups behind the flags: the first `k` are read back, the others skipped. */
  lemma GroupsRoundTrip(cfg: Config, groups: seq<Schema>, vs: seq<Value>, k: nat, flags: seq<bool>, s: seq<bool>, p: nat)
    requires WellFormed(cfg, Additions(groups)) && k <= |groups| == |vs| && k <= |flags|
    requires EncodeFields(cfg, true, groups, vs, p).Some? && At(s, p, EncodeFields(cfg, true, groups, vs, p).value)
    requires UnknownAreShort(cfg, groups, vs, k)
    requires |flags| == Max(NofGroups(Presence(vs)), k)
    requires forall i | 0 <= i < |flags| :: flags[i] == (i < |vs| && !vs[i].Absent?)
    ensures WellFormed(cfg, Additions(groups[..k]))
    ensures var known := DecodeFields(cfg, true, groups[..k], flags[..k], s, p);
            && known.Ok? && known.value == vs[..k]
            && SkipUnknown(flags[k..], s, known.next) == p + |EncodeFields(cfg, true, groups, vs, p).value|
    decreases groups, 1
  {
    hide EncodeFields, DecodeFields, SkipUnknown, NofGroups, UnknownAreShort;
    assert flags[..k] == Presence(vs[..k]);
    var known, unknown := FieldsSplit(cfg, true, groups, vs, k, p);
    AtSplit(s, p, known, unknown);
    assert k == |groups| ==> groups[..k] == groups;
    FieldsRoundTrip(cfg, true, groups[..k], vs[..k], s, p);
    ShortSuffix(cfg, groups, vs, k);
    LateGroupsAbsent(vs, k, flags);
    UnknownSkipped(cfg, groups[k..], vs[k..], flags[k..], s, p + |known|);
  }

  lemma LateGroupsAbsent(vs: seq<Value>, k: nat, flags: seq<bool>)
    requires k <= |vs| && |flags| == Max(NofGroups(Presence(vs)), k)
    requires forall i | 0 <= i < |flags| :: flags[i] == (i < |vs| && !vs[i].Absent?)
    ensures |flags[k..]| <= |vs[k..]|
    ensures forall i | 0 <= i < |vs[k..]| :: vs[k..][i].Absent? <==> i >= |flags[k..]| || !flags[k..][i]
  {
    hide NofGroups;
    var present := Presence(vs);
    forall i | 0 <= i < |vs[k..]|
      ensures vs[k..][i].Absent? <==> i >= |flags[k..]| || !flags[k..][i]
    {
      assert vs[k..][i] == vs[k + i] && present[k + i] == !vs[k + i].Absent?;
    }
  }

  lemma AdditionsParts(cfg: Config, groups: seq<Schema>, vs: seq<Value>, p: nat)
    requires WellFormed(cfg, Additions(groups)) && Encode(cfg, Additions(groups), Record(vs), p).Some?
    ensures |vs| == |groups| && AdditionFlags(Presence(vs)).Some?
    ensures var flags := AdditionFlags(Presence(vs)).value;
            var rest := EncodeFields(cfg, true, groups, vs, p + |flags|);
            rest.Some? && Encode(cfg, Additions(groups), Record(vs), p) == Some(flags + rest.value)
  {
    hide EncodeFields, AdditionFlags, Presence;
  }

  lemma DecodeAdditions(cfg: Config, groups: seq<Schema>, s: seq<bool>, p: nat)
    requires WellFormed(cfg, Additions(groups))
    ensures var all := Decode(cfg, Additions(groups), s, p);
            var flags := FlagsKept(|groups|, s, p);
            if flags.Fail? then all.Fail?
            else
              var known := DecodeFields(cfg, true, groups, flags.value[..|groups|], s, flags.next);
              if known.Fail? then all.Fail?
              else all == Ok(Record(known.value), SkipUnknown(flags.value[|groups|..], s, known.next))
  {
    hide FlagsKept, DecodeFields, SkipUnknown;
  }

  /** What the decoder makes of the flags, also where no group is present. */
  lemma AdditionFlagsRoundTrip(present: seq<bool>, supported: nat, s: seq<bool>, p: nat)
    requires AdditionFlags(present).Some? && At(s, p, AdditionFlags(present).value)
    ensures var r := FlagsKept(supported, s, p);
            && r.Ok? && r.next == p + |AdditionFlags(present).value|
            && |r.value| == Max(NofGroups(present), supported)
            && forall i | 0 <= i < |r.value| :: r.value[i] == (i < |present| && present[i])
  {
    hide EncFlags, DecFlags, NofGroups, BitsToNat;
    if NofGroups(present) == 0 {
      assert s[p] == s[p..p + 1][0];
      LongFormRefused(supported, s, p);
    } else {
      FlagsRoundTrip(present, supported, s, p);
    }
  }

  lemma LongFormRefused(supported: nat, s: seq<bool>, p: nat)
    requires p < |s| && s[p]
    ensures DecSmall(s, p).Fail? && DecFlags(supported, s, p).Fail?
    ensures FlagsKept(supported, s, p) == Ok(Zeros(supported), p + 1)
  {
    hide BitsToNat, Pow2;
    BitAt(s, p);
  }

  lemma ShortSuffix(cfg: Config, groups: seq<Schema>, vs: seq<Value>, k: nat)
    requires AllWellFormed(cfg, groups)
    requires k <= |groups| == |vs| && UnknownAreShort(cfg, groups, vs, k)
    ensures UnknownAreShort(cfg, groups[k..], vs[k..], 0)
  {
    hide Encode, OpenOctets;
    forall i | 0 <= i < |groups[k..]| && !vs[k..][i].Absent?
      ensures var content := Encode(cfg, groups[k..][i], vs[k..][i], 0);
              content.Some? && OpenOctets(content.value) <= 4
    {
      assert groups[k..][i] == groups[k + i] && vs[k..][i] == vs[k + i];
    }
  }

  lemma {:induction false} FieldsSplit(cfg: Config, open: bool, fields: seq<Schema>, vs: seq<Value>, k: nat, p: nat)
    returns (a: seq<bool>, b: seq<bool>)
    requires AllWellFormed(cfg, fields)
    requires k <= |fields| == |vs| && EncodeFields(cfg, open, fields, vs, p).Some?
    ensures AllWellFormed(cfg, fields[..k]) && AllWellFormed(cfg, fields[k..])
    ensures EncodeFields(cfg, open, fields[..k], vs[..k], p) == Some(a)
    ensures EncodeFields(cfg, open, fields[k..], vs[k..], p + |a|) == Some(b)
    ensures EncodeFields(cfg, open, fields, vs, p) == Some(a + b)
    decreases k
  {
    if k == 0 {
      a, b := [], EncodeFields(cfg, open, fields, vs, p).value;
      assert fields[0..] == fields && vs[0..] == vs && a + b == b;
    } else {
      a, b := FieldsSplitStep(cfg, open, fields, vs, k, p);
    }
  }

  lemma FieldsSplitStep(cfg: Config, open: bool, fields: seq<Schema>, vs: seq<Value>, k: nat, p: nat)
    returns (a: seq<bool>, b: seq<bool>)
    requires AllWellFormed(cfg, fields)
    requires 0 < k <= |fields| == |vs| && EncodeFields(cfg, open, fields, vs, p).Some?
    ensures AllWellFormed(cfg, fields[..k]) && AllWellFormed(cfg, fields[k..])
    ensures EncodeFields(cfg, open, fields[..k], vs[..k], p) == Some(a)
    ensures EncodeFields(cfg, open, fields[k..], vs[k..], p + |a|) == Some(b)
    ensures EncodeFields(cfg, open, fields, vs, p) == Some(a + b)
    decreases k, 0
  {
    hide EncodeField, EncodeFields, WellFormed;
    FieldsUnfold(cfg, open, fields, vs, p);
    FieldsUnfold(cfg, open, fields[..k], vs[..k], p);
    var h := EncodeField(cfg, open, fields[0], vs[0], p).value;
    var t, u := FieldsSplit(cfg, open, fields[1..], vs[1..], k - 1, p + |h|);
    DropTake(fields, k);
    DropTake(vs, k);
    a, b := h + t, u;
    assert h + (t + u) == a + b;
  }

  lemma DropTake<T>(s: seq<T>, k: nat)
    requires 0 < k <= |s|
    ensures s[..k][1..] == s[1..][..k - 1] && s[k..] == s[1..][k - 1..]
  {
  }

  lemma FieldsUnfold(cfg: Config, open: bool, fields: seq<Schema>, vs: seq<Value>, p: nat)
    requires AllWellFormed(cfg, fields)
    requires 0 < |fields| == |vs|
    ensures var head := EncodeField(cfg, open, fields[0], vs[0], p);
            var all := EncodeFields(cfg, open, fields, vs, p);
            if head.None? then all.None?
            else
              var tail := EncodeFields(cfg, open, fields[1..], vs[1..], p + |head.value|);
              && all.Some? == tail.Some?
              && (all.Some? ==> all.value == head.value + tail.value)
  {
    hide EncodeField;
  }

  lemma {:induction false} UnknownSkipped(cfg: Config, groups: seq<Schema>, vs: seq<Value>, flags: seq<bool>,
                                          s: seq<bool>, p: nat)
    requires AllWellFormed(cfg, groups)
    requires !cfg.aligned && |flags| <= |groups| == |vs| && UnknownAreShort(cfg, groups, vs, 0)
    requires forall i | 0 <= i < |vs| :: vs[i].Absent? <==> i >= |flags| || !flags[i]
    requires EncodeFields(cfg, true, groups, vs, p).Some? && At(s, p, EncodeFields(cfg, true, groups, vs, p).value)
    ensures SkipUnknown(flags, s, p) == p + |EncodeFields(cfg, true, groups, vs, p).value|
    decreases |vs|
  {
    hide Encode, DecLength, LengthKept, OpenBits, CloseField;
    if vs != [] {
      var head := if vs[0].Absent? then [] else EncodeOpen(cfg, groups[0], vs[0], p).value;
      AtSplit(s, p, head, EncodeFields(cfg, true, groups[1..], vs[1..], p + |head|).value);
      if !vs[0].Absent? {
        var content := Encode(cfg, groups[0], vs[0], 0).value;
        SkipFieldExactly(false, content, s, p);
        OpenFieldLayout(false, content, s, p);
      }
      ShortTail(cfg, groups, vs);
      var rest := if flags == [] then [] else flags[1..];
      UnknownSkipped(cfg, groups[1..], vs[1..], rest, s, p + |head|);
    }
  }

  lemma ShortTail(cfg: Config, groups: seq<Schema>, vs: seq<Value>)
    requires AllWellFormed(cfg, groups)
    requires 0 < |groups| == |vs| && UnknownAreShort(cfg, groups, vs, 0)
    ensures UnknownAreShort(cfg, groups[1..], vs[1..], 0)
  {
    hide Encode, OpenOctets;
    ShortSuffix(cfg, groups, vs, 1);
  }

  /** If the last group is the only one the decoder does not know, it stops at the encoder's
      position exactly when that group has at most four octets. */
  lemma LastUnknownExactly(cfg: Config, groups: seq<Schema>, vs: seq<Value>, s: seq<bool>, p: nat)
    requires WellFormed(cfg, Additions(groups)) && 0 < |groups| == |vs|
    requires Encode(cfg, Additions(groups), Record(vs), p).Some?
    requires At(s, p, Encode(cfg, Additions(groups), Record(vs), p).value)
    requires !vs[|vs| - 1].Absent?
    ensures var k := |groups| - 1;
            && WellFormed(cfg, Additions(groups[..k]))
            && Encode(cfg, groups[k], vs[k], 0).Some?
            && var r := Decode(cfg, Additions(groups[..k]), s, p);
               && r.Ok? && r.value == Record(vs[..k])
               && (r.next == p + |Encode(cfg, Additions(groups), Record(vs), p).value|
                   <==> OpenOctets(Encode(cfg, groups[k], vs[k], 0).value) <= 4)
  {
    hide EncFlags, FlagsKept, EncodeFields, DecodeFields, NofGroups, SkipUnknown, OpenOctets, AdditionFlags, Encode, Decode;
    var k := |groups| - 1;
    AdditionsParts(cfg, groups, vs, p);
    DecodeAdditions(cfg, groups[..k], s, p);
    var present := Presence(vs);
    var flags := AdditionFlags(present).value;
    var q := p + |flags|;
    AtSplit(s, p, flags, EncodeFields(cfg, true, groups, vs, q).value);
    AdditionFlagsRoundTrip(present, k, s, p);
    var read := FlagsKept(k, s, p).value;
    assert read[..k] == Presence(vs[..k]);
    assert NofGroups(present) == |groups| by { assert present[k]; }
    assert read[k..] == [true];
    var known, unknown := FieldsSplit(cfg, true, groups, vs, k, q);
    AtSplit(s, q, known, unknown);
    FieldsRoundTrip(cfg, true, groups[..k], vs[..k], s, q);
    OneUnknown(cfg, groups[k], vs[k], groups[k..], vs[k..], unknown, s, q + |known|);
  }

  lemma OneUnknown(cfg: Config, g: Schema, v: Value, groups: seq<Schema>, vs: seq<Value>, b: seq<bool>,
                   s: seq<bool>, p: nat)
    requires !cfg.aligned && AllWellFormed(cfg, groups)
    requires groups == [g] && vs == [v] && !v.Absent?
    requires EncodeFields(cfg, true, groups, vs, p) == Some(b) && At(s, p, b)
    ensures WellFormed(cfg, g) && Encode(cfg, g, v, 0).Some?
    ensures SkipUnknown([true], s, p) == p + |b| <==> OpenOctets(Encode(cfg, g, v, 0).value) <= 4
  {
    assert WellFormed(cfg, groups[0]);
    hide Encode, OpenBits, DecLength, LengthKept, CloseField, EncodeFields, WellFormed, SkipUnknown;
    FieldsUnfold(cfg, true, groups, vs, p);
    assert groups[1..] == [] && vs[1..] == [];
    var head := EncodeField(cfg, true, g, v, p).value;
    assert EncodeFields(cfg, true, groups[1..], vs[1..], p + |head|) == Some([]) by { NoFields(cfg, true, [], [], p + |head|); }
    assert b == head + [];
    var content := Encode(cfg, g, v, 0).value;
    assert b == OpenBits(false, content, p);
    SkipFieldExactly(false, content, s, p);
    OpenFieldLayout(false, content, s, p);
    SkipOne(s, p);
  }

  lemma SkipOne(s: seq<bool>, p: nat)
    ensures var (len, start) := LengthKept(false, s, p);
            SkipUnknown([true], s, p) == CloseField(s, start, len, start)
  {
    hide LengthKept, CloseField;
    assert [true][1..] == [];
  }
}
