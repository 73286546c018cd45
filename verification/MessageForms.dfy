/**
 The shape of whole messages, one constructor at a time: which values have an encoding, in which
 order its parts stand, and what each flag in front of them says; and the same for decoding on
 any image. Parts are messages again, so the statements compose along the tree. The leaves are in
 `WireForms`.
 */
module MessageForms {
  import opened Bits
  import opened Options
  import opened BitImage
  import opened Per
  import opened PerTypes
  import opened Integer
  import opened BitString
  import opened Message
  import opened MessageProofs
  import opened WireForms

  // ------------------------------------------------------------------------
  // Leaves
  // ------------------------------------------------------------------------

  /** The leaves that are well formed: whatever the C++ types can express. */
  lemma LeafSchemas(cfg: Config)
    ensures forall n :: WellFormed(cfg, Raw(n)) <==> n < 64
    ensures forall i :: WellFormed(cfg, Number(i)) <==> i.width in {8, 16, 32, 64} && i.lb <= i.ub < Pow2(i.width)
    ensures forall e :: WellFormed(cfg, Enum(e)) <==> 1 <= e.nTypes <= 0xFFFF_FFFF && (e.hasExt ==> e.nExts < e.nTypes)
    ensures WellFormed(cfg, Octets)
    ensures forall lb, ub, hasExt :: WellFormed(cfg, BitStr(lb, ub, hasExt)) <==> lb <= ub <= 0xFFFF_FFFF
  {
  }

  /** Composite types are well formed if their parts are, within the limits of the C++ types;
      extension additions occur without alignment only. */
  lemma CompositeSchemas(cfg: Config, fields: seq<Schema>, optional: seq<bool>, tag: EnumType, lb: nat, ub: nat, t: Schema,
                         u: Schema)
    ensures var parts := forall i | 0 <= i < |fields| :: WellFormed(cfg, fields[i]);
            && (WellFormed(cfg, Group(fields, optional)) <==> |optional| == |fields| && parts)
            && (WellFormed(cfg, Choice(tag, fields)) <==> WellFormed(cfg, Enum(tag)) && |fields| == tag.nTypes && parts)
            && (WellFormed(cfg, Additions(fields)) <==> !cfg.aligned && |fields| <= 0x7FFF_FFFF && parts)
    ensures WellFormed(cfg, ListOf(lb, ub, t)) <==> lb <= ub <= 0xFFFF_FFFF && WellFormed(cfg, t)
    ensures WellFormed(cfg, Open(t)) <==> WellFormed(cfg, t)
    ensures WellFormed(cfg, Extensible(t, u)) <==> WellFormed(cfg, t) && WellFormed(cfg, u)
  {
  }

  /** Raw bits are a number of their width, and every such number has an encoding. */
  lemma RawForm(cfg: Config, n: nat, x: nat, e: seq<bool>, p: nat)
    requires n < 64
    ensures Encode(cfg, Raw(n), Num(x), p) == Some(e) <==> IsNumber(e, x, n)
  {
    hide NatToBits, BitsToNat, Pow2;
    if x < Pow2(n) {
      NumberForm(x, n);
    }
    if IsNumber(e, x, n) {
      NatOfBits(e);
    }
  }

  /** Integers, enumerations, octet strings and bit strings are encoded as by themselves, where
      they come back. */
  lemma LeafForm(cfg: Config, i: IntegerType, t: EnumType, x: nat, data: seq<byte>, p: nat)
    requires i.Valid() && t.Valid()
    ensures Encode(cfg, Enum(t), Num(x), p) == EncEnum(t, x)
    ensures i.Within(x) || x >= 1 ==>
              Encode(cfg, Number(i), Num(x), p)
              == if ComesBack(i, x, cfg.aligned) then EncInteger(i, x, cfg.aligned, p) else None
    ensures Encode(cfg, Octets, Bytes(data), p) == if |data| < 16384 then EncOctets(cfg.aligned, data, p) else None
  {
    hide EncEnum, EncInteger, EncOctets, ComesBack, Pow2;
  }

  lemma BitStrForm(cfg: Config, lb: nat, ub: nat, hasExt: bool, buf: seq<byte>, n: nat, p: nat)
    requires lb <= ub <= 0xFFFF_FFFF
    ensures var e := Encode(cfg, BitStr(lb, ub, hasExt), BitBuffer(buf, n), p);
            && (e.Some? <==> && |buf| == CeilDiv(n, 8) && LittleEndian(buf) < Pow2(n) && n <= 65536
                             && Readable(lb, ub, hasExt, cfg.aligned, n, p)
                             && EncBitString(lb, ub, hasExt, cfg.aligned, buf, n, p).Some?)
            && (e.Some? ==> e == EncBitString(lb, ub, hasExt, cfg.aligned, buf, n, p))
  {
    hide EncBitString, Readable, LittleEndian, Pow2;
  }

  // ------------------------------------------------------------------------
  // Extensible sequences, choices and open fields
  // ------------------------------------------------------------------------

  /** An extensible sequence: one bit that is set exactly if there are additions, the root, and
      the additions. */
  lemma ExtensibleForm(cfg: Config, root: Schema, additions: Schema, vs: seq<Value>, e: seq<bool>, p: nat)
    requires WellFormed(cfg, Extensible(root, additions))
    ensures Encode(cfg, Extensible(root, additions), Record(vs), p) == Some(e) <==>
            && |vs| == 2
            && Encode(cfg, root, vs[0], p + 1).Some?
            && var head := Encode(cfg, root, vs[0], p + 1).value;
               if vs[1].Absent? then e == [false] + head
               else
                 var tail := Encode(cfg, additions, vs[1], p + 1 + |head|);
                 tail.Some? && e == [true] + head + tail.value
  {
    hide Encode, WellFormed;
    ExtensibleParts(cfg, root, additions);
    ExtensibleIs(cfg, root, additions, vs, p);
    if |vs| == 2 && Encode(cfg, root, vs[0], p + 1).Some? {
      NothingBehind([false] + Encode(cfg, root, vs[0], p + 1).value);
    }
  }

  lemma NothingBehind(b: seq<bool>)
    ensures b + [] == b
  {
  }

  lemma ExtensibleParts(cfg: Config, root: Schema, additions: Schema)
    requires WellFormed(cfg, Extensible(root, additions))
    ensures WellFormed(cfg, root) && WellFormed(cfg, additions)
  {
  }

  lemma ExtensibleIs(cfg: Config, root: Schema, additions: Schema, vs: seq<Value>, p: nat)
    requires WellFormed(cfg, Extensible(root, additions)) && WellFormed(cfg, root) && WellFormed(cfg, additions)
    ensures var all := Encode(cfg, Extensible(root, additions), Record(vs), p);
            if |vs| != 2 || Encode(cfg, root, vs[0], p + 1).None? then all.None?
            else
              var front := [!vs[1].Absent?] + Encode(cfg, root, vs[0], p + 1).value;
              all == Then(front, EncodeField(cfg, false, additions, vs[1], p + |front|))
  {
    hide Encode, EncodeField, WellFormed;
    ExtensibleCase(cfg, root, additions, vs, p);
  }

  lemma ExtensibleCase(cfg: Config, root: Schema, additions: Schema, vs: seq<Value>, p: nat)
    requires WellFormed(cfg, Extensible(root, additions)) && WellFormed(cfg, root) && WellFormed(cfg, additions)
    ensures Encode(cfg, Extensible(root, additions), Record(vs), p) == EncodeExtensible(cfg, root, additions, vs, p)
  {
    hide EncodeExtensible;
  }

  /** On any image: a clear bit means no additions, a set bit that they follow the root; at the
      end of the image the bit counts as clear. */
  lemma ExtensibleReads(cfg: Config, root: Schema, additions: Schema, s: seq<bool>, p: nat)
    requires WellFormed(cfg, Extensible(root, additions)) && p <= |s|
    ensures var all := Decode(cfg, Extensible(root, additions), s, p);
            var head := Decode(cfg, root, s, if p < |s| then p + 1 else p);
            if head.Fail? then all.Fail?
            else if p == |s| || !s[p] then all == Ok(Record([head.value, Absent]), head.next)
            else
              var tail := Decode(cfg, additions, s, head.next);
              if tail.Fail? then all.Fail? else all == Ok(Record([head.value, tail.value]), tail.next)
  {
    hide Decode, WellFormed;
    ExtensibleParts(cfg, root, additions);
    ExtensibleReadIs(cfg, root, additions, s, p);
  }

  lemma ExtensibleReadIs(cfg: Config, root: Schema, additions: Schema, s: seq<bool>, p: nat)
    requires WellFormed(cfg, Extensible(root, additions)) && WellFormed(cfg, root) && WellFormed(cfg, additions)
    ensures var (ext, q) := if p < |s| then (s[p], p + 1) else (false, |s|);
            var all, head := Decode(cfg, Extensible(root, additions), s, p), Decode(cfg, root, s, q);
            if head.Fail? then all.Fail?
            else
              var tail := DecodeField(cfg, false, additions, ext, s, head.next);
              if tail.Fail? then all.Fail? else all == Ok(Record([head.value, tail.value]), tail.next)
  {
    hide DecodeField;
  }

  /** The `k`-th alternative as it is written: behind the root values it is an open field. */
  function Alternative(tag: EnumType, alts: seq<Schema>, k: nat): Schema
    requires k < |alts|
  {
    if tag.hasExt && k >= tag.nTypes - tag.nExts then Open(alts[k]) else alts[k]
  }

  /** A choice: its tag, and then its alternative. */
  lemma ChoiceForm(cfg: Config, tag: EnumType, alts: seq<Schema>, k: nat, x: Value, e: seq<bool>, p: nat)
    requires WellFormed(cfg, Choice(tag, alts))
    ensures Encode(cfg, Choice(tag, alts), Chosen(k, x), p) == Some(e) <==>
            && !x.Absent? && k < |alts|
            && EncEnum(tag, k).Some?
            && WellFormed(cfg, Alternative(tag, alts, k))
            && var head := EncEnum(tag, k).value;
               var tail := Encode(cfg, Alternative(tag, alts, k), x, p + |head|);
               tail.Some? && e == head + tail.value
  {
    hide EncEnum, EncodeAlternative, Encode, WellFormed, Alternative;
    ChoiceIs(cfg, tag, alts, k, x, p);
    if EncEnum(tag, k).Some? && !x.Absent? {
      AlternativeIs(cfg, tag, alts, k, x, p + |EncEnum(tag, k).value|);
    }
  }

  lemma ChoiceIs(cfg: Config, tag: EnumType, alts: seq<Schema>, k: nat, x: Value, p: nat)
    requires WellFormed(cfg, Choice(tag, alts))
    ensures tag.Valid() && AllWellFormed(cfg, alts)
    ensures EncEnum(tag, k).Some? ==> k < |alts|
    ensures var all := Encode(cfg, Choice(tag, alts), Chosen(k, x), p);
            var head := EncEnum(tag, k);
            if head.None? || x.Absent? then all.None?
            else all == Then(head.value, EncodeAlternative(cfg, tag, alts, k, x, p + |head.value|))
  {
    hide EncEnum, EncodeAlternative;
    if EncEnum(tag, k).Some? {
      TagInRange(tag, k);
    }
  }

  lemma AlternativeIs(cfg: Config, tag: EnumType, alts: seq<Schema>, k: nat, x: Value, p: nat)
    requires WellFormed(cfg, Choice(tag, alts)) && k < |alts| && !x.Absent?
    ensures WellFormed(cfg, Alternative(tag, alts, k))
    ensures EncodeAlternative(cfg, tag, alts, k, x, p) == Encode(cfg, Alternative(tag, alts, k), x, p)
  {
    assert WellFormed(cfg, alts[k]);
    OpenIs(cfg, alts[k], x, p);
    hide Encode, EncodeOpen;
  }

  lemma OpenIs(cfg: Config, body: Schema, v: Value, p: nat)
    requires WellFormed(cfg, body)
    ensures Encode(cfg, Open(body), v, p) == EncodeOpen(cfg, body, v, p)
  {
    hide EncodeOpen;
  }

  /** On any image: where the tag is read, the alternative it names is read behind it. */
  lemma ChoiceReads(cfg: Config, tag: EnumType, alts: seq<Schema>, s: seq<bool>, p: nat)
    requires WellFormed(cfg, Choice(tag, alts)) && DecEnum(tag, s, p).Ok?
    ensures var k := DecEnum(tag, s, p).value;
            && k < |alts| && WellFormed(cfg, Alternative(tag, alts, k))
            && var x := Decode(cfg, Alternative(tag, alts, k), s, DecEnum(tag, s, p).next);
               Decode(cfg, Choice(tag, alts), s, p) == if x.Ok? then Ok(Chosen(k, x.value), x.next) else Fail
  {
    hide DecEnum, EnumKept, DecodeAlternative;
    EnumKeptReads(tag, s, p);
    AlternativeReadIs(cfg, tag, alts, DecEnum(tag, s, p).value, s, DecEnum(tag, s, p).next);
  }

  lemma AlternativeReadIs(cfg: Config, tag: EnumType, alts: seq<Schema>, k: nat, s: seq<bool>, p: nat)
    requires WellFormed(cfg, Choice(tag, alts)) && k < |alts|
    ensures WellFormed(cfg, Alternative(tag, alts, k))
    ensures DecodeAlternative(cfg, tag, alts, k, s, p) == Decode(cfg, Alternative(tag, alts, k), s, p)
  {
    assert WellFormed(cfg, alts[k]);
    OpenReadIs(cfg, alts[k], s, p);
    hide Decode, DecodeOpen;
  }

  lemma OpenReadIs(cfg: Config, body: Schema, s: seq<bool>, p: nat)
    requires WellFormed(cfg, body)
    ensures Decode(cfg, Open(body), s, p) == DecodeOpen(cfg, body, s, p)
  {
    hide DecodeOpen;
  }

  /** An open field holds its message as it stands at the beginning of a buffer: the number of
      octets, the message, and up to seven zeros. It exists exactly if the octets fit in the
      scratch array. */
  lemma OpenFieldForm(cfg: Config, body: Schema, v: Value, content: seq<bool>, o: nat, e: seq<bool>, p: nat)
    requires WellFormed(cfg, Open(body)) && Encode(cfg, body, v, 0) == Some(content)
    requires 8 * o - 8 < |content| <= 8 * o
    ensures Encode(cfg, Open(body), v, p) == Some(e) <==>
            && o <= cfg.scratch
            && EncLength(cfg.aligned, o, p).Some?
            && e == EncLength(cfg.aligned, o, p).value + content + Zeros(8 * o - |content|)
  {
    hide Encode, EncLength, Zeros, OpenBits;
    OpenIs(cfg, body, v, p);
    if o <= cfg.scratch {
      OpenForm(cfg.aligned, content, o, p);
    }
  }

  /** A message without an encoding has none as an open field. */
  lemma OpenFieldExists(cfg: Config, body: Schema, v: Value, p: nat)
    requires WellFormed(cfg, Open(body))
    ensures Encode(cfg, Open(body), v, p).Some? ==> Encode(cfg, body, v, 0).Some?
  {
    hide Encode, OpenBits;
    OpenIs(cfg, body, v, p);
  }

  /** On any image that is not too long: the message is read behind the length, or what is left
      of it, and the reader moves on to the field's end, or the image's, if it stopped at most 32
      bits short of it. */
  lemma OpenFieldReads(cfg: Config, body: Schema, s: seq<bool>, p: nat)
    requires WellFormed(cfg, Open(body))
    ensures var (o, start) := LengthKept(cfg.aligned, s, p);
            var all, inner := Decode(cfg, Open(body), s, p), Decode(cfg, body, s, start);
            if inner.Fail? then all.Fail?
            else
              && all.Ok? && all.value == inner.value
              && (start <= inner.next <= |s| < 0x8000_0000 && o < 0x1000_0000 ==>
                    all.next == if start + 8 * o - 32 <= inner.next <= start + 8 * o then Min(start + 8 * o, |s|)
                                else inner.next)
  {
    hide Decode, CloseField, LengthKept, DecodeOpen;
    var (o, start) := LengthKept(cfg.aligned, s, p);
    var inner := Decode(cfg, body, s, start);
    OpenReadParts(cfg, body, s, p);
    if inner.Ok? && start <= inner.next <= |s| < 0x8000_0000 && o < 0x1000_0000 {
      CloseFieldExactly(s, start, o, inner.next);
    }
  }

  lemma OpenReadParts(cfg: Config, body: Schema, s: seq<bool>, p: nat)
    requires WellFormed(cfg, Open(body))
    ensures var (o, start) := LengthKept(cfg.aligned, s, p);
            var all, inner := Decode(cfg, Open(body), s, p), Decode(cfg, body, s, start);
            if inner.Fail? then all.Fail? else all == Ok(inner.value, CloseField(s, start, o, inner.next))
  {
    hide Decode, LengthKept, CloseField;
    OpenReadIs(cfg, body, s, p);
  }

  // ------------------------------------------------------------------------
  // Rows of fields
  // ------------------------------------------------------------------------

  /** The part of a row that belongs to one field: nothing if it is absent, otherwise its encoding,
      as an open field if `open`. */
  ghost predicate Part(cfg: Config, open: bool, f: Schema, v: Value, b: seq<bool>, p: nat)
    requires WellFormed(cfg, f)
  {
    if v.Absent? then b == [] else Encode(cfg, if open then Open(f) else f, v, p) == Some(b)
  }

  function Flatten(parts: seq<seq<bool>>): seq<bool> {
    if parts == [] then [] else parts[0] + Flatten(parts[1..])
  }

  /** Each part belongs to its field, at the position behind the parts in front of it. */
  ghost predicate FieldsLaid(cfg: Config, open: bool, fields: seq<Schema>, vs: seq<Value>, parts: seq<seq<bool>>, p: nat)
    requires AllWellFormed(cfg, fields)
  {
    && |vs| == |parts| == |fields|
    && forall i | 0 <= i < |fields| :: Part(cfg, open, fields[i], vs[i], parts[i], p + |Flatten(parts[..i])|)
  }

  lemma FlattenPrefix(parts: seq<seq<bool>>, i: nat)
    requires i < |parts|
    ensures Flatten(parts[..i + 1]) == parts[0] + Flatten(parts[1..][..i])
  {
    assert parts[..i + 1][1..] == parts[1..][..i];
  }

  lemma FieldsLaidCons(cfg: Config, open: bool, fields: seq<Schema>, vs: seq<Value>, parts: seq<seq<bool>>, p: nat)
    requires AllWellFormed(cfg, fields) && 0 < |fields| == |vs| == |parts|
    ensures WellFormed(cfg, fields[0]) && AllWellFormed(cfg, fields[1..])
    ensures FieldsLaid(cfg, open, fields, vs, parts, p) <==>
            && Part(cfg, open, fields[0], vs[0], parts[0], p)
            && FieldsLaid(cfg, open, fields[1..], vs[1..], parts[1..], p + |parts[0]|)
  {
    hide WellFormed, Part, Flatten;
    HeadAndTail(cfg, fields);
    NothingInFront(parts);
    if FieldsLaid(cfg, open, fields[1..], vs[1..], parts[1..], p + |parts[0]|)
       && Part(cfg, open, fields[0], vs[0], parts[0], p) {
      forall i | 0 <= i < |fields|
        ensures WellFormed(cfg, fields[i]) && Part(cfg, open, fields[i], vs[i], parts[i], p + |Flatten(parts[..i])|)
      {
        if i > 0 {
          FlattenPrefix(parts, i - 1);
          assert Part(cfg, open, fields[1..][i - 1], vs[1..][i - 1], parts[1..][i - 1],
                      p + |parts[0]| + |Flatten(parts[1..][..i - 1])|);
        }
      }
    }
    if FieldsLaid(cfg, open, fields, vs, parts, p) {
      forall i | 0 <= i < |fields[1..]|
        ensures Part(cfg, open, fields[1..][i], vs[1..][i], parts[1..][i], p + |parts[0]| + |Flatten(parts[1..][..i])|)
      {
        FlattenPrefix(parts, i);
        assert Part(cfg, open, fields[i + 1], vs[i + 1], parts[i + 1], p + |Flatten(parts[..i + 1])|);
      }
    }
  }

  lemma NothingInFront(parts: seq<seq<bool>>)
    ensures Flatten(parts[..0]) == []
  {
  }

  lemma {:induction false} FieldsParts(cfg: Config, open: bool, fields: seq<Schema>, vs: seq<Value>, p: nat)
    returns (parts: seq<seq<bool>>)
    requires AllWellFormed(cfg, fields) && |fields| == |vs| && EncodeFields(cfg, open, fields, vs, p).Some?
    ensures FieldsLaid(cfg, open, fields, vs, parts, p) && EncodeFields(cfg, open, fields, vs, p) == Some(Flatten(parts))
    decreases |fields|
  {
    hide EncodeField, EncodeFields, WellFormed, AllWellFormed, FieldsLaid;
    if fields == [] {
      NoFields(cfg, open, fields, vs, p);
      parts := [];
      NoParts(cfg, open, p);
    } else {
      HeadAndTail(cfg, fields);
      FieldsUnfold(cfg, open, fields, vs, p);
      var head := EncodeField(cfg, open, fields[0], vs[0], p).value;
      var rest := FieldsParts(cfg, open, fields[1..], vs[1..], p + |head|);
      parts := [head] + rest;
      assert parts[1..] == rest;
      PartIs(cfg, open, fields[0], vs[0], head, p);
      FieldsLaidLength(cfg, open, fields[1..], vs[1..], rest, p + |head|);
      FieldsLaidCons(cfg, open, fields, vs, parts, p);
    }
  }

  lemma FieldsLaidLength(cfg: Config, open: bool, fields: seq<Schema>, vs: seq<Value>, parts: seq<seq<bool>>, p: nat)
    requires AllWellFormed(cfg, fields) && FieldsLaid(cfg, open, fields, vs, parts, p)
    ensures |vs| == |parts| == |fields|
  {
    hide WellFormed, Part;
  }

  lemma NoParts(cfg: Config, open: bool, p: nat)
    ensures FieldsLaid(cfg, open, [], [], [], p)
  {
  }

  lemma PartIs(cfg: Config, open: bool, f: Schema, v: Value, b: seq<bool>, p: nat)
    requires WellFormed(cfg, f)
    ensures Part(cfg, open, f, v, b, p) <==> EncodeField(cfg, open, f, v, p) == Some(b)
  {
    OpenIs(cfg, f, v, p);
    hide Encode, EncodeOpen;
  }

  lemma {:induction false} FieldsOfParts(cfg: Config, open: bool, fields: seq<Schema>, vs: seq<Value>,
                                         parts: seq<seq<bool>>, p: nat)
    requires AllWellFormed(cfg, fields) && FieldsLaid(cfg, open, fields, vs, parts, p)
    ensures |vs| == |fields| && EncodeFields(cfg, open, fields, vs, p) == Some(Flatten(parts))
    decreases |fields|
  {
    hide EncodeField, EncodeFields, WellFormed, AllWellFormed, FieldsLaid;
    FieldsLaidLength(cfg, open, fields, vs, parts, p);
    if fields == [] {
      NoFields(cfg, open, fields, vs, p);
    } else {
      FieldsLaidCons(cfg, open, fields, vs, parts, p);
      PartIs(cfg, open, fields[0], vs[0], parts[0], p);
      FieldsOfParts(cfg, open, fields[1..], vs[1..], parts[1..], p + |parts[0]|);
      FieldsUnfold(cfg, open, fields, vs, p);
    }
  }

  /** How many of the flags in front of the `i`-th are set. */
  function Before(flags: seq<bool>, i: nat): nat
    requires i <= |flags|
  {
    multiset(flags[..i])[true]
  }

  lemma BeforeNext(flags: seq<bool>, i: nat)
    requires i < |flags|
    ensures Before(flags, i + 1) == (if flags[0] then 1 else 0) + Before(flags[1..], i)
    ensures Before(flags, 0) == 0
  {
    assert flags[..i + 1] == [flags[0]] + flags[1..][..i];
  }

  lemma NoneBefore(flags: seq<bool>)
    ensures Before(flags, 0) == 0
  {
  }

  /** Exactly one bit for every optional field, in order, set if and only if the field is present. */
  ghost predicate PresenceBits(optional: seq<bool>, present: seq<bool>, b: seq<bool>) {
    && |optional| == |present| && |b| == Before(optional, |optional|)
    && forall i | 0 <= i < |optional| && optional[i] ::
         Before(optional, i) < |b| && b[Before(optional, i)] == present[i]
  }

  lemma PresenceBitsCons(optional: seq<bool>, present: seq<bool>, b: seq<bool>)
    requires 0 < |optional| == |present|
    ensures var k := if optional[0] then 1 else 0;
            PresenceBits(optional, present, b) <==>
            k <= |b| && (optional[0] ==> b[0] == present[0]) && PresenceBits(optional[1..], present[1..], b[k..])
  {
    hide Before;
    var k := if optional[0] then 1 else 0;
    forall i | 0 <= i < |optional|
      ensures Before(optional, i + 1) == k + Before(optional[1..], i) && Before(optional, 0) == 0
    {
      BeforeNext(optional, i);
    }
    var o, q, n := optional[1..], present[1..], |optional| - 1;
    assert Before(optional, n + 1) == k + Before(o, n);
    if k <= |b| {
      var c := b[k..];
      if PresenceBits(optional, present, b) {
        forall i | 0 <= i < |o| && o[i]
          ensures Before(o, i) < |c| && c[Before(o, i)] == q[i]
        {
          assert optional[i + 1] && Before(optional, i + 1) == k + Before(o, i);
        }
      }
      if PresenceBits(o, q, c) && (optional[0] ==> b[0] == present[0]) {
        forall i | 0 <= i < |optional| && optional[i]
          ensures Before(optional, i) < |b| && b[Before(optional, i)] == present[i]
        {
          if i > 0 {
            assert o[i - 1] && Before(optional, i - 1 + 1) == k + Before(o, i - 1);
          }
        }
      }
    }
  }

  lemma {:induction false} PreambleExactly(optional: seq<bool>, present: seq<bool>, b: seq<bool>)
    requires |optional| == |present|
    ensures b == Preamble(optional, present) <==> PresenceBits(optional, present, b)
  {
    hide PresenceBits;
    if optional == [] {
      NoPresenceBits(optional, present, b);
    } else {
      var k := if optional[0] then 1 else 0;
      PresenceBitsCons(optional, present, b);
      if k <= |b| {
        PreambleExactly(optional[1..], present[1..], b[k..]);
        assert b == b[..k] + b[k..];
      }
    }
  }

  lemma NoPresenceBits(optional: seq<bool>, present: seq<bool>, b: seq<bool>)
    requires optional == [] && present == []
    ensures PresenceBits(optional, present, b) <==> b == []
  {
  }

  /** A sequence: one presence bit for every optional field, and then the fields that are
      present, in order; only optional fields may be absent. */
  lemma GroupForm(cfg: Config, fields: seq<Schema>, optional: seq<bool>, vs: seq<Value>, present: seq<bool>,
                  e: seq<bool>, p: nat)
    requires WellFormed(cfg, Group(fields, optional))
    requires |present| == |vs| && forall i | 0 <= i < |vs| :: present[i] == !vs[i].Absent?
    ensures Encode(cfg, Group(fields, optional), Record(vs), p) == Some(e) <==>
            && |vs| == |fields| && (forall i | 0 <= i < |vs| :: present[i] || optional[i])
            && exists b: seq<bool>, parts: seq<seq<bool>> ::
                 PresenceBits(optional, present, b) && FieldsLaid(cfg, false, fields, vs, parts, p + |b|)
                 && e == b + Flatten(parts)
  {
    hide Encode, EncodeFields, Preamble, PresenceBits, FieldsLaid, Flatten, WellFormed;
    assert present == Presence(vs);
    GroupIs(cfg, fields, optional, vs, p);
    if |vs| == |fields| {
      var pre := Preamble(optional, present);
      PreambleExactly(optional, present, pre);
      if EncodeFields(cfg, false, fields, vs, p + |pre|).Some? {
        var parts := FieldsParts(cfg, false, fields, vs, p + |pre|);
      }
      forall b: seq<bool>, parts: seq<seq<bool>> |
        PresenceBits(optional, present, b) && FieldsLaid(cfg, false, fields, vs, parts, p + |b|)
        ensures b == pre && EncodeFields(cfg, false, fields, vs, p + |b|) == Some(Flatten(parts))
      {
        PreambleExactly(optional, present, b);
        FieldsOfParts(cfg, false, fields, vs, parts, p + |b|);
      }
    }
  }

  lemma GroupIs(cfg: Config, fields: seq<Schema>, optional: seq<bool>, vs: seq<Value>, p: nat)
    requires WellFormed(cfg, Group(fields, optional))
    ensures |optional| == |fields| && AllWellFormed(cfg, fields)
    ensures var all := Encode(cfg, Group(fields, optional), Record(vs), p);
            if |vs| != |fields| || exists i | 0 <= i < |vs| :: !Presence(vs)[i] && !optional[i] then all.None?
            else
              var pre := Preamble(optional, Presence(vs));
              all == Then(pre, EncodeFields(cfg, false, fields, vs, p + |pre|))
  {
    hide EncodeFields, Preamble;
  }

  /** Extension additions: the presence flags of the groups, or a single set bit if none is
      present, and then the groups that are present as open fields, in order. */
  lemma AdditionsForm(cfg: Config, groups: seq<Schema>, vs: seq<Value>, present: seq<bool>, e: seq<bool>, p: nat)
    requires WellFormed(cfg, Additions(groups))
    requires |present| == |vs| && forall i | 0 <= i < |vs| :: present[i] == !vs[i].Absent?
    ensures var flags := if forall i | 0 <= i < |present| :: !present[i] then Some([true]) else EncFlags(present);
            Encode(cfg, Additions(groups), Record(vs), p) == Some(e) <==>
            && |vs| == |groups| && flags.Some?
            && exists parts: seq<seq<bool>> ::
                 FieldsLaid(cfg, true, groups, vs, parts, p + |flags.value|) && e == flags.value + Flatten(parts)
  {
    hide Encode, EncodeFields, EncFlags, NofGroups, FieldsLaid, Flatten, WellFormed;
    assert present == Presence(vs);
    var flags := AdditionFlags(present);
    assert NofGroups(present) == 0 <==> forall i | 0 <= i < |present| :: !present[i];
    AdditionsAre(cfg, groups, vs, p);
    if |vs| == |groups| && flags.Some? {
      if EncodeFields(cfg, true, groups, vs, p + |flags.value|).Some? {
        var parts := FieldsParts(cfg, true, groups, vs, p + |flags.value|);
      }
      forall parts: seq<seq<bool>> | FieldsLaid(cfg, true, groups, vs, parts, p + |flags.value|)
        ensures EncodeFields(cfg, true, groups, vs, p + |flags.value|) == Some(Flatten(parts))
      {
        FieldsOfParts(cfg, true, groups, vs, parts, p + |flags.value|);
      }
    }
  }

  lemma AdditionsAre(cfg: Config, groups: seq<Schema>, vs: seq<Value>, p: nat)
    requires WellFormed(cfg, Additions(groups))
    ensures AllWellFormed(cfg, groups)
    ensures var all, flags := Encode(cfg, Additions(groups), Record(vs), p), AdditionFlags(Presence(vs));
            if |vs| != |groups| || flags.None? then all.None?
            else all == Then(flags.value, EncodeFields(cfg, true, groups, vs, p + |flags.value|))
  {
    hide EncodeFields, AdditionFlags, Presence;
  }

  // ------------------------------------------------------------------------
  // Lists
  // ------------------------------------------------------------------------

  ghost predicate Item(cfg: Config, item: Schema, v: Value, b: seq<bool>, p: nat)
    requires WellFormed(cfg, item)
  {
    Encode(cfg, item, v, p) == Some(b)
  }

  /** Each part is the encoding of its item, at the position behind the parts in front of it. */
  ghost predicate ItemsLaid(cfg: Config, item: Schema, vs: seq<Value>, parts: seq<seq<bool>>, p: nat)
    requires WellFormed(cfg, item)
  {
    && |vs| == |parts|
    && forall i | 0 <= i < |vs| :: Item(cfg, item, vs[i], parts[i], p + |Flatten(parts[..i])|)
  }

  lemma ItemsLaidCons(cfg: Config, item: Schema, vs: seq<Value>, parts: seq<seq<bool>>, p: nat)
    requires WellFormed(cfg, item) && 0 < |vs| == |parts|
    ensures ItemsLaid(cfg, item, vs, parts, p) <==>
            Item(cfg, item, vs[0], parts[0], p) && ItemsLaid(cfg, item, vs[1..], parts[1..], p + |parts[0]|)
  {
    hide WellFormed, Item, Flatten, ItemsLaid;
    if ItemsLaid(cfg, item, vs, parts, p) {
      LaidTail(cfg, item, vs, parts, p);
    }
    if Item(cfg, item, vs[0], parts[0], p) && ItemsLaid(cfg, item, vs[1..], parts[1..], p + |parts[0]|) {
      LaidHead(cfg, item, vs, parts, p);
    }
  }

  lemma LaidTail(cfg: Config, item: Schema, vs: seq<Value>, parts: seq<seq<bool>>, p: nat)
    requires WellFormed(cfg, item) && 0 < |vs| && ItemsLaid(cfg, item, vs, parts, p)
    ensures Item(cfg, item, vs[0], parts[0], p) && ItemsLaid(cfg, item, vs[1..], parts[1..], p + |parts[0]|)
  {
    hide WellFormed, Item, Flatten;
    NothingInFront(parts);
    forall i | 0 <= i < |vs| - 1
      ensures Item(cfg, item, vs[i + 1], parts[i + 1], p + |parts[0]| + |Flatten(parts[1..][..i])|)
    {
      FlattenPrefix(parts, i);
      assert Item(cfg, item, vs[i + 1], parts[i + 1], p + |Flatten(parts[..i + 1])|);
    }
  }

  lemma LaidHead(cfg: Config, item: Schema, vs: seq<Value>, parts: seq<seq<bool>>, p: nat)
    requires WellFormed(cfg, item) && 0 < |vs| == |parts| && Item(cfg, item, vs[0], parts[0], p)
    requires ItemsLaid(cfg, item, vs[1..], parts[1..], p + |parts[0]|)
    ensures ItemsLaid(cfg, item, vs, parts, p)
  {
    hide WellFormed, Item, Flatten;
    NothingInFront(parts);
    forall i | 0 <= i < |vs|
      ensures Item(cfg, item, vs[i], parts[i], p + |Flatten(parts[..i])|)
    {
      if i > 0 {
        FlattenPrefix(parts, i - 1);
        assert Item(cfg, item, vs[1..][i - 1], parts[1..][i - 1], p + |parts[0]| + |Flatten(parts[1..][..i - 1])|);
      }
    }
  }

  lemma {:induction false} ItemsParts(cfg: Config, item: Schema, vs: seq<Value>, p: nat) returns (parts: seq<seq<bool>>)
    requires WellFormed(cfg, item) && EncodeItems(cfg, item, vs, p).Some?
    ensures ItemsLaid(cfg, item, vs, parts, p) && EncodeItems(cfg, item, vs, p) == Some(Flatten(parts))
    decreases |vs|
  {
    hide Encode, EncodeItems, WellFormed;
    ItemsUnfold(cfg, item, vs, p);
    if vs == [] {
      parts := [];
    } else {
      var head := Encode(cfg, item, vs[0], p).value;
      var rest := ItemsParts(cfg, item, vs[1..], p + |head|);
      parts := [head] + rest;
      assert parts[1..] == rest;
      ItemsLaidCons(cfg, item, vs, parts, p);
    }
  }

  lemma {:induction false} ItemsOfParts(cfg: Config, item: Schema, vs: seq<Value>, parts: seq<seq<bool>>, p: nat)
    requires WellFormed(cfg, item) && ItemsLaid(cfg, item, vs, parts, p)
    ensures EncodeItems(cfg, item, vs, p) == Some(Flatten(parts))
    decreases |vs|
  {
    hide Encode, EncodeItems, WellFormed;
    ItemsUnfold(cfg, item, vs, p);
    if vs != [] {
      ItemsLaidCons(cfg, item, vs, parts, p);
      ItemsOfParts(cfg, item, vs[1..], parts[1..], p + |parts[0]|);
    }
  }

  /** The count in front of a list: a constrained number if the upper bound is below 64K, a
      general length below 16K otherwise. */
  function Count(al: bool, n: nat, lb: nat, ub: nat, p: nat): Option<seq<bool>> {
    if ub < 65536 then EncConstrained(al, n, lb, ub, p)
    else if n < 16384 then EncLength(al, n, p)
    else None
  }

  /** A list: its count, and then its items in order. */
  lemma ListForm(cfg: Config, lb: nat, ub: nat, item: Schema, vs: seq<Value>, e: seq<bool>, p: nat)
    requires WellFormed(cfg, ListOf(lb, ub, item))
    ensures var count := Count(cfg.aligned, |vs|, lb, ub, p);
            Encode(cfg, ListOf(lb, ub, item), Record(vs), p) == Some(e) <==>
            && count.Some?
            && exists parts: seq<seq<bool>> ::
                 ItemsLaid(cfg, item, vs, parts, p + |count.value|) && e == count.value + Flatten(parts)
  {
    hide Encode, EncodeItems, ItemsLaid, Flatten, WellFormed, Count;
    var count := Count(cfg.aligned, |vs|, lb, ub, p);
    ListIs(cfg, lb, ub, item, vs, p);
    if count.Some? {
      var q := p + |count.value|;
      if EncodeItems(cfg, item, vs, q).Some? {
        var parts := ItemsParts(cfg, item, vs, q);
      }
      forall parts: seq<seq<bool>> | ItemsLaid(cfg, item, vs, parts, q)
        ensures EncodeItems(cfg, item, vs, q) == Some(Flatten(parts))
      {
        ItemsOfParts(cfg, item, vs, parts, q);
      }
    }
  }

  lemma ListIs(cfg: Config, lb: nat, ub: nat, item: Schema, vs: seq<Value>, p: nat)
    requires WellFormed(cfg, ListOf(lb, ub, item))
    ensures WellFormed(cfg, item)
    ensures var all, count := Encode(cfg, ListOf(lb, ub, item), Record(vs), p), Count(cfg.aligned, |vs|, lb, ub, p);
            if count.None? then all.None?
            else all == Then(count.value, EncodeItems(cfg, item, vs, p + |count.value|))
  {
    hide EncodeItems, EncConstrained, EncLength;
  }

  // ------------------------------------------------------------------------
  // Reading rows of fields and lists on any image
  // ------------------------------------------------------------------------

  /** What reading one field at `p` yields: nothing if it is not there, otherwise its value. */
  ghost predicate ReadsField(cfg: Config, open: bool, f: Schema, present: bool, v: Value, s: seq<bool>, p: nat, q: nat)
    requires WellFormed(cfg, f)
  {
    if !present then v == Absent && q == p else Decode(cfg, if open then Open(f) else f, s, p) == Ok(v, q)
  }

  /** The fields are read one after the other, the `i`-th between `at[i]` and `at[i + 1]`. */
  ghost predicate ReadsFields(cfg: Config, open: bool, fields: seq<Schema>, present: seq<bool>, vs: seq<Value>,
                              s: seq<bool>, at: seq<nat>)
    requires AllWellFormed(cfg, fields)
  {
    && |vs| == |present| == |fields| && |at| == |fields| + 1
    && forall i | 0 <= i < |fields| :: ReadsField(cfg, open, fields[i], present[i], vs[i], s, at[i], at[i + 1])
  }

  lemma ReadsFieldsCons(cfg: Config, open: bool, fields: seq<Schema>, present: seq<bool>, vs: seq<Value>,
                        s: seq<bool>, at: seq<nat>)
    requires AllWellFormed(cfg, fields) && 0 < |fields| == |vs| == |present| && |at| == |fields| + 1
    ensures WellFormed(cfg, fields[0]) && AllWellFormed(cfg, fields[1..])
    ensures ReadsFields(cfg, open, fields, present, vs, s, at) <==>
            && ReadsField(cfg, open, fields[0], present[0], vs[0], s, at[0], at[1])
            && ReadsFields(cfg, open, fields[1..], present[1..], vs[1..], s, at[1..])
  {
    hide WellFormed, ReadsField;
    HeadAndTail(cfg, fields);
    if ReadsFields(cfg, open, fields[1..], present[1..], vs[1..], s, at[1..])
       && ReadsField(cfg, open, fields[0], present[0], vs[0], s, at[0], at[1]) {
      forall i | 0 <= i < |fields|
        ensures ReadsField(cfg, open, fields[i], present[i], vs[i], s, at[i], at[i + 1])
      {
        if i > 0 {
          assert ReadsField(cfg, open, fields[1..][i - 1], present[1..][i - 1], vs[1..][i - 1], s,
                            at[1..][i - 1], at[1..][i - 1 + 1]);
        }
      }
    }
    if ReadsFields(cfg, open, fields, present, vs, s, at) {
      forall i | 0 <= i < |fields[1..]|
        ensures ReadsField(cfg, open, fields[1..][i], present[1..][i], vs[1..][i], s, at[1..][i], at[1..][i + 1])
      {
        assert ReadsField(cfg, open, fields[i + 1], present[i + 1], vs[i + 1], s, at[i + 1], at[i + 1 + 1]);
      }
    }
  }

  lemma ReadsFieldIs(cfg: Config, open: bool, f: Schema, present: bool, v: Value, s: seq<bool>, p: nat, q: nat)
    requires WellFormed(cfg, f)
    ensures ReadsField(cfg, open, f, present, v, s, p, q) <==> DecodeField(cfg, open, f, present, s, p) == Ok(v, q)
  {
    OpenReadIs(cfg, f, s, p);
    hide Decode, DecodeOpen;
  }

  lemma {:induction false} FieldsPlaces(cfg: Config, open: bool, fields: seq<Schema>, present: seq<bool>, s: seq<bool>, p: nat)
    returns (at: seq<nat>)
    requires AllWellFormed(cfg, fields) && |fields| == |present| && DecodeFields(cfg, open, fields, present, s, p).Ok?
    ensures var r := DecodeFields(cfg, open, fields, present, s, p);
            && ReadsFields(cfg, open, fields, present, r.value, s, at) && at[0] == p && at[|fields|] == r.next
    decreases |fields|
  {
    hide DecodeField, WellFormed;
    if fields == [] {
      at := [p];
    } else {
      HeadAndTail(cfg, fields);
      var head := DecodeField(cfg, open, fields[0], present[0], s, p);
      var rest := FieldsPlaces(cfg, open, fields[1..], present[1..], s, head.next);
      at := [p] + rest;
      assert at[1..] == rest;
      var vs := DecodeFields(cfg, open, fields, present, s, p).value;
      assert vs[1..] == DecodeFields(cfg, open, fields[1..], present[1..], s, head.next).value;
      ReadsFieldIs(cfg, open, fields[0], present[0], vs[0], s, p, head.next);
      ReadsFieldsCons(cfg, open, fields, present, vs, s, at);
    }
  }

  lemma {:induction false} FieldsAtPlaces(cfg: Config, open: bool, fields: seq<Schema>, present: seq<bool>, vs: seq<Value>,
                                          s: seq<bool>, at: seq<nat>)
    requires AllWellFormed(cfg, fields) && ReadsFields(cfg, open, fields, present, vs, s, at)
    ensures DecodeFields(cfg, open, fields, present, s, at[0]) == Ok(vs, at[|fields|])
    decreases |fields|
  {
    hide DecodeField, WellFormed;
    if fields != [] {
      ReadsFieldsCons(cfg, open, fields, present, vs, s, at);
      ReadsFieldIs(cfg, open, fields[0], present[0], vs[0], s, at[0], at[1]);
      FieldsAtPlaces(cfg, open, fields[1..], present[1..], vs[1..], s, at[1..]);
      assert vs == [vs[0]] + vs[1..];
    }
  }

  /** The flags that the image has in front of a sequence: fields that are not optional count as
      present, the others as their bit says. */
  ghost predicate FlagsAt(optional: seq<bool>, present: seq<bool>, s: seq<bool>, p: nat)
    requires p + Before(optional, |optional|) <= |s|
  {
    PresenceBits(optional, present, s[p..p + Before(optional, |optional|)])
    && forall i | 0 <= i < |optional| && !optional[i] :: present[i]
  }

  lemma FlagsRead(optional: seq<bool>, present: seq<bool>, s: seq<bool>, p: nat)
    requires p + Before(optional, |optional|) <= |s| && FlagsAt(optional, present, s, p)
    ensures ReadPreamble(optional, s, p) == Ok(present, p + Before(optional, |optional|))
  {
    hide PresenceBits, Preamble, ReadPreamble, Before;
    var b := s[p..p + Before(optional, |optional|)];
    PresenceLength(optional, present, b);
    PreambleExactly(optional, present, b);
    PreambleRoundTrip(optional, present, s, p);
  }

  lemma PresenceLength(optional: seq<bool>, present: seq<bool>, b: seq<bool>)
    requires PresenceBits(optional, present, b)
    ensures |present| == |optional|
  {
  }

  lemma {:induction false} FlagsMissing(optional: seq<bool>, s: seq<bool>, p: nat)
    requires p <= |s|
    ensures p + Before(optional, |optional|) > |s| ==> ReadPreamble(optional, s, p).Fail?
    decreases |optional|
  {
    hide Before, BitsToNat;
    if optional == [] {
      NoneBefore(optional);
    } else {
      BeforeNext(optional, |optional| - 1);
      if !optional[0] {
        FlagsMissing(optional[1..], s, p);
      } else if p < |s| {
        FlagsMissing(optional[1..], s, p + 1);
      }
    }
  }

  /** On any image, a sequence is read as one bit for every optional field and then exactly the
      fields that these bits announce, in order; it fails where a bit or a field cannot be read. */
  lemma GroupReads(cfg: Config, fields: seq<Schema>, optional: seq<bool>, present: seq<bool>, vs: seq<Value>,
                   s: seq<bool>, p: nat, r: nat)
    requires WellFormed(cfg, Group(fields, optional)) && p <= |s|
    ensures var m := Before(optional, |optional|);
            var all := Decode(cfg, Group(fields, optional), s, p);
            && (p + m > |s| ==> all.Fail?)
            && (p + m <= |s| && FlagsAt(optional, present, s, p) ==>
                 (all == Ok(Record(vs), r) <==>
                  exists at: seq<nat> :: ReadsFields(cfg, false, fields, present, vs, s, at)
                                         && at[0] == p + m && at[|fields|] == r))
  {
    hide DecodeFields, ReadPreamble, FlagsAt, ReadsFields, Before;
    var m := Before(optional, |optional|);
    var all := Decode(cfg, Group(fields, optional), s, p);
    FlagsMissing(optional, s, p);
    if p + m <= |s| && FlagsAt(optional, present, s, p) {
      FlagsRead(optional, present, s, p);
      FieldsReadExactly(cfg, false, fields, present, vs, s, p + m, r);
    }
  }

  lemma FieldsReadExactly(cfg: Config, open: bool, fields: seq<Schema>, present: seq<bool>, vs: seq<Value>,
                          s: seq<bool>, p: nat, r: nat)
    requires AllWellFormed(cfg, fields) && |present| == |fields|
    ensures DecodeFields(cfg, open, fields, present, s, p) == Ok(vs, r) <==>
            exists at: seq<nat> :: ReadsFields(cfg, open, fields, present, vs, s, at) && at[0] == p && at[|fields|] == r
  {
    hide DecodeFields, WellFormed, ReadsField;
    if DecodeFields(cfg, open, fields, present, s, p) == Ok(vs, r) {
      var at := FieldsPlaces(cfg, open, fields, present, s, p);
    }
    forall at: seq<nat> | ReadsFields(cfg, open, fields, present, vs, s, at) && at[0] == p && at[|fields|] == r
      ensures DecodeFields(cfg, open, fields, present, s, p) == Ok(vs, r)
    {
      FieldsAtPlaces(cfg, open, fields, present, vs, s, at);
    }
  }

  /** On any image where the flags of the additions can be read: exactly the known groups that
      they announce are read as open fields, in order, and the reader then is behind them, if
      there are no flags for unknown groups. */
  lemma AdditionsReads(cfg: Config, groups: seq<Schema>, vs: seq<Value>, s: seq<bool>, p: nat, r: nat)
    requires WellFormed(cfg, Additions(groups)) && DecFlags(|groups|, s, p).Ok?
    ensures var flags := DecFlags(|groups|, s, p);
            |flags.value| == |groups| ==>
              (Decode(cfg, Additions(groups), s, p) == Ok(Record(vs), r) <==>
               exists at: seq<nat> :: ReadsFields(cfg, true, groups, flags.value, vs, s, at)
                                      && at[0] == flags.next && at[|groups|] == r)
  {
    hide DecodeFields, DecFlags, ReadsFields, Decode;
    var flags := DecFlags(|groups|, s, p);
    if |flags.value| == |groups| {
      DecodeAdditions(cfg, groups, s, p);
      assert flags.value[..|groups|] == flags.value && flags.value[|groups|..] == [];
      FieldsReadExactly(cfg, true, groups, flags.value, vs, s, flags.next, r);
    }
  }

  /** The items are read one after the other, the `i`-th between `at[i]` and `at[i + 1]`. */
  ghost predicate ReadsItems(cfg: Config, item: Schema, vs: seq<Value>, s: seq<bool>, at: seq<nat>)
    requires WellFormed(cfg, item)
  {
    && |at| == |vs| + 1
    && forall i | 0 <= i < |vs| :: Decode(cfg, item, s, at[i]) == Ok(vs[i], at[i + 1])
  }

  lemma ReadsItemsCons(cfg: Config, item: Schema, vs: seq<Value>, s: seq<bool>, at: seq<nat>)
    requires WellFormed(cfg, item) && 0 < |vs| && |at| == |vs| + 1
    ensures ReadsItems(cfg, item, vs, s, at) <==>
            Decode(cfg, item, s, at[0]) == Ok(vs[0], at[1]) && ReadsItems(cfg, item, vs[1..], s, at[1..])
  {
    hide WellFormed, Decode;
    if ReadsItems(cfg, item, vs[1..], s, at[1..]) && Decode(cfg, item, s, at[0]) == Ok(vs[0], at[1]) {
      forall i | 0 <= i < |vs|
        ensures Decode(cfg, item, s, at[i]) == Ok(vs[i], at[i + 1])
      {
        if i > 0 {
          assert Decode(cfg, item, s, at[1..][i - 1]) == Ok(vs[1..][i - 1], at[1..][i - 1 + 1]);
        }
      }
    }
    if ReadsItems(cfg, item, vs, s, at) {
      forall i | 0 <= i < |vs[1..]|
        ensures Decode(cfg, item, s, at[1..][i]) == Ok(vs[1..][i], at[1..][i + 1])
      {
        assert Decode(cfg, item, s, at[i + 1]) == Ok(vs[i + 1], at[i + 1 + 1]);
      }
    }
  }

  lemma {:induction false} ItemsPlaces(cfg: Config, item: Schema, n: nat, s: seq<bool>, p: nat) returns (at: seq<nat>)
    requires WellFormed(cfg, item) && DecodeItems(cfg, item, n, s, p).Ok?
    ensures var r := DecodeItems(cfg, item, n, s, p);
            && |r.value| == n && ReadsItems(cfg, item, r.value, s, at) && at[0] == p && at[n] == r.next
    decreases n
  {
    hide Decode, WellFormed;
    if n == 0 {
      at := [p];
    } else {
      var head := Decode(cfg, item, s, p);
      var rest := ItemsPlaces(cfg, item, n - 1, s, head.next);
      at := [p] + rest;
      var vs := DecodeItems(cfg, item, n, s, p).value;
      assert at[1..] == rest && vs[1..] == DecodeItems(cfg, item, n - 1, s, head.next).value;
      ReadsItemsCons(cfg, item, vs, s, at);
    }
  }

  lemma {:induction false} ItemsAtPlaces(cfg: Config, item: Schema, vs: seq<Value>, s: seq<bool>, at: seq<nat>)
    requires WellFormed(cfg, item) && ReadsItems(cfg, item, vs, s, at)
    ensures DecodeItems(cfg, item, |vs|, s, at[0]) == Ok(vs, at[|vs|])
    decreases |vs|
  {
    hide Decode, WellFormed;
    if vs != [] {
      ReadsItemsCons(cfg, item, vs, s, at);
      ItemsAtPlaces(cfg, item, vs[1..], s, at[1..]);
      assert vs == [vs[0]] + vs[1..];
    }
  }

  /** On any image, a list is read as its count and then exactly that many items in order; it
      fails where the count or an item cannot be read. */
  lemma ListReads(cfg: Config, lb: nat, ub: nat, item: Schema, vs: seq<Value>, s: seq<bool>, p: nat, r: nat)
    requires WellFormed(cfg, ListOf(lb, ub, item))
    ensures var count := if ub < 65536 then DecConstrained(32, cfg.aligned, lb, ub, s, p) else DecLength(cfg.aligned, s, p);
            Decode(cfg, ListOf(lb, ub, item), s, p) == Ok(Record(vs), r) <==>
            && count.Ok? && |vs| == count.value
            && exists at: seq<nat> :: ReadsItems(cfg, item, vs, s, at) && at[0] == count.next && at[|vs|] == r
  {
    hide DecodeItems, DecConstrained, DecLength, ReadsItems;
    var count := if ub < 65536 then DecConstrained(32, cfg.aligned, lb, ub, s, p) else DecLength(cfg.aligned, s, p);
    if count.Ok? {
      ItemsReadExactly(cfg, item, count.value, vs, s, count.next, r);
    }
  }

  lemma ItemsReadExactly(cfg: Config, item: Schema, n: nat, vs: seq<Value>, s: seq<bool>, p: nat, r: nat)
    requires WellFormed(cfg, item)
    ensures DecodeItems(cfg, item, n, s, p) == Ok(vs, r) <==>
            |vs| == n && exists at: seq<nat> :: ReadsItems(cfg, item, vs, s, at) && at[0] == p && at[|vs|] == r
  {
    hide DecodeItems, WellFormed, Decode;
    if DecodeItems(cfg, item, n, s, p) == Ok(vs, r) {
      var at := ItemsPlaces(cfg, item, n, s, p);
    }
    if |vs| == n {
      forall at: seq<nat> | ReadsItems(cfg, item, vs, s, at) && at[0] == p && at[|vs|] == r
        ensures DecodeItems(cfg, item, n, s, p) == Ok(vs, r)
      {
        ItemsAtPlaces(cfg, item, vs, s, at);
      }
    }
  }
}
