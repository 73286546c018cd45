/**
 Messages: finite trees of fields as the generated message classes compose them, with the
 bits a value is encoded in and what a decoder makes of an image. `MessageProofs` shows that
 decoding undoes encoding.
 */
module Message {
  import opened Bits
  import opened Options
  import opened BitImage
  import opened Per
  import opened PerTypes
  import opened Integer
  import opened BitString

  /** The alignment variant and the size in octets of the scratch arrays of open fields. */
  datatype Config = Config(aligned: bool, scratch: ScratchSize)

  /** A finite tree of types. In an extensible type, `additions` is `Additions` where the decoder
      knows extension groups, and an empty group where it only reads the extension bit. */
  datatype Schema =
    | Raw(n: nat)
    | Number(i: IntegerType)
    | Enum(t: EnumType)
    | Octets
    | BitStr(lb: nat, ub: nat, hasExt: bool)
    | Group(fields: seq<Schema>, optional: seq<bool>)
    | ListOf(lb: nat, ub: nat, item: Schema)
    | Choice(tag: EnumType, alternatives: seq<Schema>)
    | Open(body: Schema)
    | Additions(groups: seq<Schema>)
    | Extensible(root: Schema, additions: Schema)

  /** `Absent` also stands for a field that the decoder accepts without setting it. The value of
      an extensible type is a record of its root and its additions. */
  datatype Value =
    | Absent
    | Num(n: nat)
    | Bytes(data: seq<byte>)
    | BitBuffer(buf: seq<byte>, length: nat)
    | Record(fields: seq<Value>)
    | Chosen(index: nat, value: Value)

  /** What the source's types and static bounds demand of a schema. Extension additions occur in
      the messages that are packed without alignment. */
  predicate WellFormed(cfg: Config, t: Schema)
    decreases t, 1
  {
    match t
    case Raw(n) => n < 64
    case Number(i) => i.Valid()
    case Enum(e) => e.Valid()
    case Octets => true
    case BitStr(lb, ub, hasExt) => lb <= ub <= UNBOUNDED
    case Group(fields, optional) => |optional| == |fields| && AllWellFormed(cfg, fields)
    case ListOf(lb, ub, item) => lb <= ub < 0x1_0000_0000 && WellFormed(cfg, item)
    case Choice(tag, alts) =>
      tag.Valid() && |alts| == tag.nTypes && AllWellFormed(cfg, alts)
    case Open(body) => WellFormed(cfg, body)
    case Additions(groups) => !cfg.aligned && |groups| < 0x8000_0000 && AllWellFormed(cfg, groups)
    case Extensible(root, additions) => WellFormed(cfg, root) && WellFormed(cfg, additions)
  }

  predicate AllWellFormed(cfg: Config, ts: seq<Schema>)
    decreases ts, 0
  {
    forall i | 0 <= i < |ts| :: WellFormed(cfg, ts[i])
  }

  // ------------------------------------------------------------------------
  // Encoding
  // ------------------------------------------------------------------------

  /** The bits of `v` at position `p`, if `v` is a value of `t` within the codec's limits. */
  function Encode(cfg: Config, t: Schema, v: Value, p: nat): Option<seq<bool>>
    requires WellFormed(cfg, t)
    decreases t, 1
  {
    match (t, v)
    case (Raw(n), Num(x)) => if x < Pow2(n) then Some(NatToBits(x, n)) else None
    case (Number(i), Num(x)) =>
      if (i.Within(x) || x >= 1) && ComesBack(i, x, cfg.aligned) then EncInteger(i, x, cfg.aligned, p) else None
    case (Enum(e), Num(x)) => EncEnum(e, x)
    case (Octets, Bytes(data)) => if |data| < ASN_16K then EncOctets(cfg.aligned, data, p) else None
    case (BitStr(lb, ub, hasExt), BitBuffer(buf, n)) =>
      if Clean(buf, n) && n <= ASN_64K && Readable(lb, ub, hasExt, cfg.aligned, n, p) then
        EncBitString(lb, ub, hasExt, cfg.aligned, buf, n, p)
      else None
    case (Group(fields, optional), Record(vs)) =>
      if |vs| == |fields| && forall i | 0 <= i < |vs| :: vs[i].Absent? ==> optional[i] then
        var pre := Preamble(optional, Presence(vs));
        Then(pre, EncodeFields(cfg, false, fields, vs, p + |pre|))
      else None
    case (ListOf(lb, ub, item), Record(vs)) =>
      if ub >= ASN_64K && |vs| >= ASN_16K then None
      else
        var len := EncBoundedLength(cfg.aligned, |vs|, lb, ub, p);
        if len.None? then None
        else Then(len.value, EncodeItems(cfg, item, vs, p + |len.value|))
    case (Choice(tag, alts), Chosen(k, x)) =>
      var head := EncEnum(tag, k);
      if head.None? || x.Absent? then None
      else Then(head.value, EncodeAlternative(cfg, tag, alts, k, x, p + |head.value|))
    case (Open(body), _) => EncodeOpen(cfg, body, v, p)
    case (Additions(groups), Record(vs)) =>
      var flags := AdditionFlags(Presence(vs));
      if |vs| != |groups| || flags.None? then None
      else Then(flags.value, EncodeFields(cfg, true, groups, vs, p + |flags.value|))
    case (Extensible(root, additions), Record(vs)) => EncodeExtensible(cfg, root, additions, vs, p)
    case _ => None
  }

  /** Presence flags of the groups. Where no group is present the writer tries a count it refuses,
      after the first bit of the long form; its result is dropped. */
  function AdditionFlags(present: seq<bool>): Option<seq<bool>> {
    if NofGroups(present) == 0 then Some([true]) else EncFlags(present)
  }

  function Then(head: seq<bool>, tail: Option<seq<bool>>): Option<seq<bool>> {
    if tail.None? then None else Some(head + tail.value)
  }

  function Presence(vs: seq<Value>): (r: seq<bool>)
    ensures |r| == |vs|
  {
    seq(|vs|, i requires 0 <= i < |vs| => !vs[i].Absent?)
  }

  /** Presence flags of the optional fields, in order. */
  function Preamble(optional: seq<bool>, present: seq<bool>): seq<bool>
    requires |optional| == |present|
  {
    if optional == [] then []
    else (if optional[0] then [present[0]] else []) + Preamble(optional[1..], present[1..])
  }

  function EncodeOpen(cfg: Config, body: Schema, v: Value, p: nat): Option<seq<bool>>
    requires WellFormed(cfg, body)
    decreases body, 2
  {
    var content := Encode(cfg, body, v, 0);
    if content.None? || OpenOctets(content.value) > cfg.scratch then None
    else Some(OpenBits(cfg.aligned, content.value, p))
  }

  /** A bit that says whether there are additions, the root, and the additions. */
  function EncodeExtensible(cfg: Config, root: Schema, additions: Schema, vs: seq<Value>, p: nat): Option<seq<bool>>
    requires WellFormed(cfg, root) && WellFormed(cfg, additions)
    decreases Extensible(root, additions), 0
  {
    if |vs| != 2 then None
    else
      var head := Encode(cfg, root, vs[0], p + 1);
      if head.None? then None
      else
        var front := [!vs[1].Absent?] + head.value;
        Then(front, EncodeField(cfg, false, additions, vs[1], p + |front|))
  }

  function EncodeField(cfg: Config, open: bool, f: Schema, v: Value, p: nat): Option<seq<bool>>
    requires WellFormed(cfg, f)
    decreases f, 3
  {
    if v.Absent? then Some([])
    else if open then EncodeOpen(cfg, f, v, p)
    else Encode(cfg, f, v, p)
  }

  /** Alternatives behind the extension marker are open fields. */
  function EncodeAlternative(cfg: Config, tag: EnumType, alts: seq<Schema>, k: nat, x: Value, p: nat)
    : Option<seq<bool>>
    requires AllWellFormed(cfg, alts) && tag.Valid() && k < |alts|
    decreases alts, 0
  {
    EncodeField(cfg, k >= tag.Root(), alts[k], x, p)
  }

  /** The fields that are present, each wrapped in an open field if `open`. */
  function EncodeFields(cfg: Config, open: bool, fields: seq<Schema>, vs: seq<Value>, p: nat): Option<seq<bool>>
    requires AllWellFormed(cfg, fields)
    requires |fields| == |vs|
    decreases fields, 0
  {
    if fields == [] then Some([])
    else
      var head := EncodeField(cfg, open, fields[0], vs[0], p);
      if head.None? then None
      else Then(head.value, EncodeFields(cfg, open, fields[1..], vs[1..], p + |head.value|))
  }

  function EncodeItems(cfg: Config, item: Schema, vs: seq<Value>, p: nat): Option<seq<bool>>
    requires WellFormed(cfg, item)
    decreases item, 1 + |vs|
  {
    if vs == [] then Some([])
    else
      var head := Encode(cfg, item, vs[0], p);
      if head.None? then None
      else Then(head.value, EncodeItems(cfg, item, vs[1..], p + |head.value|))
  }

  // ------------------------------------------------------------------------
  // Decoding
  // ------------------------------------------------------------------------

  /** What the decoder makes of any image, well-formed or not. It fails where the source returns
      an error; where the source drops a result, it goes on with what is left. */
  function Decode(cfg: Config, t: Schema, s: seq<bool>, p: nat): Parsed<Value>
    requires WellFormed(cfg, t)
    decreases t, 1
  {
    match t
    case Raw(n) =>
      var (x, q) :- ReadNat(s, p, 64, n);
      Ok(Num(x), q)
    case Number(i) =>
      var (x, q) :- DecInteger(i, cfg.aligned, s, p);
      Ok(if x.Some? then Num(x.value) else Absent, q)
    case Enum(e) =>
      var (x, q) :- DecEnum(e, s, p);
      Ok(Num(x), q)
    case Octets =>
      var (data, q) :- DecOctets(cfg.aligned, s, p);
      Ok(Bytes(data), q)
    case BitStr(lb, ub, hasExt) =>
      var (b, q) :- DecBitString(lb, ub, hasExt, cfg.aligned, s, p);
      Ok(BitBuffer(b.0, b.1), q)
    case Group(fields, optional) =>
      var (present, q) :- ReadPreamble(optional, s, p);
      var (vs, r) :- DecodeFields(cfg, false, fields, present, s, q);
      Ok(Record(vs), r)
    case ListOf(lb, ub, item) =>
      var (n, q) :- DecBoundedLength(cfg.aligned, lb, ub, s, p);
      var (vs, r) :- DecodeItems(cfg, item, n, s, q);
      Ok(Record(vs), r)
    case Choice(tag, alts) =>
      // the result of reading the tag is dropped
      var (k, q) := EnumKept(tag, s, p);
      if k >= tag.nTypes then Fail
      else
        var (x, r) :- DecodeAlternative(cfg, tag, alts, k, s, q);
        Ok(Chosen(k, x), r)
    case Open(body) => DecodeOpen(cfg, body, s, p)
    case Additions(groups) =>
      var (flags, q) :- FlagsKept(|groups|, s, p);
      var (vs, r) :- DecodeFields(cfg, true, groups, flags[..|groups|], s, q);
      Ok(Record(vs), SkipUnknown(flags[|groups|..], s, r))
    case Extensible(root, additions) => DecodeExtensible(cfg, root, additions, s, p)
  }

  function ReadPreamble(optional: seq<bool>, s: seq<bool>, p: nat): (r: Parsed<seq<bool>>)
    ensures r.Ok? ==> |r.value| == |optional|
  {
    if optional == [] then Ok([], p)
    else if !optional[0] then
      var (rest, q) :- ReadPreamble(optional[1..], s, p);
      Ok([true] + rest, q)
    else
      var (flag, q) :- ReadNat(s, p, 8, 1);
      var (rest, r) :- ReadPreamble(optional[1..], s, q);
      Ok([flag != 0] + rest, r)
  }

  function DecodeOpen(cfg: Config, body: Schema, s: seq<bool>, p: nat): Parsed<Value>
    requires WellFormed(cfg, body)
    decreases body, 2
  {
    var (len, start) := LengthKept(cfg.aligned, s, p);
    var (v, q) :- Decode(cfg, body, s, start);
    Ok(v, CloseField(s, start, len, q))
  }

  /** The result of reading the first bit is dropped. */
  function DecodeExtensible(cfg: Config, root: Schema, additions: Schema, s: seq<bool>, p: nat): Parsed<Value>
    requires WellFormed(cfg, root) && WellFormed(cfg, additions)
    decreases Extensible(root, additions), 0
  {
    var (ext, q) := if p < |s| then (s[p], p + 1) else (false, |s|);
    var (x, r) :- Decode(cfg, root, s, q);
    var (more, q2) :- DecodeField(cfg, false, additions, ext, s, r);
    Ok(Record([x, more]), q2)
  }

  function DecodeField(cfg: Config, open: bool, f: Schema, present: bool, s: seq<bool>, p: nat): Parsed<Value>
    requires WellFormed(cfg, f)
    decreases f, 3
  {
    if !present then Ok(Absent, p)
    else if open then DecodeOpen(cfg, f, s, p)
    else Decode(cfg, f, s, p)
  }

  function DecodeAlternative(cfg: Config, tag: EnumType, alts: seq<Schema>, k: nat, s: seq<bool>, p: nat): Parsed<Value>
    requires AllWellFormed(cfg, alts) && tag.Valid() && k < |alts|
    decreases alts, 0
  {
    DecodeField(cfg, k >= tag.Root(), alts[k], true, s, p)
  }

  function DecodeFields(cfg: Config, open: bool, fields: seq<Schema>, present: seq<bool>, s: seq<bool>, p: nat)
    : Parsed<seq<Value>>
    requires AllWellFormed(cfg, fields)
    requires |fields| == |present|
    decreases fields, 0
  {
    if fields == [] then Ok([], p)
    else
      var (v, q) :- DecodeField(cfg, open, fields[0], present[0], s, p);
      var (vs, r) :- DecodeFields(cfg, open, fields[1..], present[1..], s, q);
      Ok([v] + vs, r)
  }

  function DecodeItems(cfg: Config, item: Schema, n: nat, s: seq<bool>, p: nat): Parsed<seq<Value>>
    requires WellFormed(cfg, item)
    decreases item, 1 + n
  {
    if n == 0 then Ok([], p)
    else
      var (v, q) :- Decode(cfg, item, s, p);
      var (vs, r) :- DecodeItems(cfg, item, n - 1, s, q);
      Ok([v] + vs, r)
  }

  /** Extension groups that the decoder does not know are opened and closed unread. */
  function SkipUnknown(flags: seq<bool>, s: seq<bool>, p: nat): nat
    decreases |flags|
  {
    if flags == [] then p
    else if !flags[0] then SkipUnknown(flags[1..], s, p)
    else
      var (len, start) := LengthKept(false, s, p);
      SkipUnknown(flags[1..], s, CloseField(s, start, len, start))
  }
}
