/**
 The stateful JSON writer, and the text it produces for a nested value.
 */
module JsonWriter {

  datatype Separator = Comma | Newline | NoSep

  datatype Json =
    | Str(text: string)
    | Int(n: int)
    | Bool(b: bool)
    | Null
    | Obj(fields: seq<Member>)
    | Arr(items: seq<Json>)

  datatype Member = Member(name: string, value: Json)

  // ------------------------------------------------------------------------
  // The text of a value, as a recursive pretty printer gives it
  // ------------------------------------------------------------------------

  function Digits(n: nat): string {
    if n < 10 then [(n as char) + '0'] else Digits(n / 10) + [((n % 10) as char) + '0']
  }

  function Decimal(n: int): string {
    if n < 0 then "-" + Digits(-n) else Digits(n)
  }

  /** The number that a row of decimal digits denotes. */
  function Denotes(s: string): int {
    if s == "" then 0 else 10 * Denotes(s[..|s| - 1]) + (s[|s| - 1] as int - '0' as int)
  }

  /** Numbers are written as their decimal digits, without leading zeros. */
  lemma {:induction false} DigitsDenote(n: nat)
    ensures Denotes(Digits(n)) == n
    ensures |Digits(n)| >= 1 && forall i | 0 <= i < |Digits(n)| :: '0' <= Digits(n)[i] <= '9'
    ensures |Digits(n)| > 1 ==> Digits(n)[0] != '0'
  {
    var d := Digits(n);
    if n < 10 {
      assert d[..0] == "";
    } else {
      DigitsDenote(n / 10);
      assert d[..|d| - 1] == Digits(n / 10);
      FirstDigit(n / 10);
    }
  }

  lemma {:induction false} FirstDigit(n: nat)
    requires n > 0
    ensures Digits(n) != "" && Digits(n)[0] != '0'
  {
    if n >= 10 {
      FirstDigit(n / 10);
    }
  }

  /** Two spaces for every level of nesting. */
  function Indent(depth: nat): (s: string)
    ensures |s| == 2 * depth
  {
    seq(2 * depth, i => ' ')
  }

  function Key(name: string): string {
    if name == "" then "" else "\"" + name + "\": "
  }

  /** The lines with a comma and a line break between any two of them. */
  function Join(lines: seq<string>): string {
    if lines == [] then ""
    else if |lines| == 1 then lines[0]
    else Join(lines[..|lines| - 1]) + ",\n" + lines[|lines| - 1]
  }

  /** Brackets around the children, which start on a line of their own. */
  function Bracket(open: string, lines: seq<string>, close: string, depth: nat): string {
    open + (if lines == [] then "" else "\n" + Join(lines)) + "\n" + Indent(depth) + close
  }

  function Text(v: Json, depth: nat): string
    decreases v, 1
  {
    match v
    case Str(text) => "\"" + text + "\""
    case Int(n) => Decimal(n)
    case Bool(b) => if b then "true" else "false"
    case Null => "null"
    case Obj(fields) => Bracket("{", FieldLines(fields, depth + 1), "}", depth)
    case Arr(items) => Bracket("[", ItemLines(items, depth + 1), "]", depth)
  }

  function Line(name: string, v: Json, depth: nat): string
    decreases v, 2
  {
    Indent(depth) + Key(name) + Text(v, depth)
  }

  function FieldLines(fields: seq<Member>, depth: nat): (r: seq<string>)
    ensures |r| == |fields|
    decreases fields, 0
  {
    if fields == [] then []
    else
      var last := fields[|fields| - 1];
      FieldLines(fields[..|fields| - 1], depth) + [Line(last.name, last.value, depth)]
  }

  function ItemLines(items: seq<Json>, depth: nat): (r: seq<string>)
    ensures |r| == |items|
    decreases items, 0
  {
    if items == [] then []
    else ItemLines(items[..|items| - 1], depth) + [Line("", items[|items| - 1], depth)]
  }

  /** The text of a document, case by case. A scalar is its literal; brackets stand around the
      children, and the closing one on a line of its own at the indentation of the value. */
  lemma TextForm(text: string, n: int, depth: nat)
    ensures Text(Str(text), depth) == "\"" + text + "\""
    ensures Text(Int(n), depth) == if n < 0 then "-" + Digits(-n) else Digits(n)
    ensures Text(Bool(true), depth) == "true" && Text(Bool(false), depth) == "false" && Text(Null, depth) == "null"
    ensures Text(Obj([]), depth) == "{" + "\n" + Spaces(2 * depth) + "}"
    ensures Text(Arr([]), depth) == "[" + "\n" + Spaces(2 * depth) + "]"
  {
  }

  function Spaces(n: nat): (s: string)
    ensures |s| == n && forall i | 0 <= i < n :: s[i] == ' '
  {
    seq(n, i => ' ')
  }

  /** What one more child adds in front of the closing bracket: a comma if there are children
      already, a line break, the indentation of one level more, the key if there is one, and the
      text of the child. */
  function Child(first: bool, name: string, v: Json, depth: nat): string {
    (if first then "" else ",") + "\n" + Spaces(2 * depth) +
    (if name == "" then "" else "\"" + name + "\": ") + Text(v, depth)
  }

  lemma ObjectForm(fields: seq<Member>, f: Member, depth: nat) returns (body: string)
    ensures Text(Obj(fields), depth) == "{" + body + "\n" + Spaces(2 * depth) + "}"
    ensures Text(Obj(fields + [f]), depth)
         == "{" + (body + Child(fields == [], f.name, f.value, depth + 1)) + "\n" + Spaces(2 * depth) + "}"
  {
    hide Text, Join, Bracket, Child, Line;
    CompositeText(fields, [], depth);
    CompositeText(fields + [f], [], depth);
    assert (fields + [f])[..|fields|] == fields;
    body := Lines(FieldLines(fields, depth + 1));
    BracketGrows("{", FieldLines(fields, depth + 1), "}", f.name, f.value, depth);
  }

  lemma ArrayForm(items: seq<Json>, v: Json, depth: nat) returns (body: string)
    ensures Text(Arr(items), depth) == "[" + body + "\n" + Spaces(2 * depth) + "]"
    ensures Text(Arr(items + [v]), depth)
         == "[" + (body + Child(items == [], "", v, depth + 1)) + "\n" + Spaces(2 * depth) + "]"
  {
    hide Text, Join, Bracket, Child, Line;
    CompositeText([], items, depth);
    CompositeText([], items + [v], depth);
    assert (items + [v])[..|items|] == items;
    body := Lines(ItemLines(items, depth + 1));
    BracketGrows("[", ItemLines(items, depth + 1), "]", "", v, depth);
  }

  lemma CompositeText(fields: seq<Member>, items: seq<Json>, depth: nat)
    ensures Text(Obj(fields), depth) == Bracket("{", FieldLines(fields, depth + 1), "}", depth)
    ensures Text(Arr(items), depth) == Bracket("[", ItemLines(items, depth + 1), "]", depth)
  {
    hide Bracket, FieldLines, ItemLines;
  }

  function Lines(lines: seq<string>): string {
    if lines == [] then "" else "\n" + Join(lines)
  }

  lemma BracketGrows(open: string, lines: seq<string>, close: string, name: string, v: Json, depth: nat)
    ensures Bracket(open, lines, close, depth) == open + Lines(lines) + "\n" + Spaces(2 * depth) + close
    ensures Bracket(open, lines + [Line(name, v, depth + 1)], close, depth)
         == open + (Lines(lines) + Child(lines == [], name, v, depth + 1)) + "\n" + Spaces(2 * depth) + close
  {
    hide Join, Text, Child, Line;
    assert Indent(depth) == Spaces(2 * depth);
    AnotherLine(lines, name, v, depth + 1);
  }

  lemma AnotherLine(lines: seq<string>, name: string, v: Json, depth: nat)
    ensures "\n" + Join(lines + [Line(name, v, depth)])
         == Lines(lines) + Child(lines == [], name, v, depth)
  {
    hide Text, Join;
    var line := Line(name, v, depth);
    assert Indent(depth) == Spaces(2 * depth);
    JoinAppend(lines, line);
    assert ",\n" == "," + "\n";
    Regroup(Join(lines), ",", "\n", Spaces(2 * depth), Key(name), Text(v, depth));
    Regroup("", "", "\n", Spaces(2 * depth), Key(name), Text(v, depth));
  }

  lemma Regroup(j: string, c: string, nl: string, a: string, b: string, t: string)
    ensures nl + (j + (c + nl) + (a + b + t)) == (nl + j) + (c + nl + a + b + t)
    ensures nl + (a + b + t) == "" + ("" + nl + a + b + t)
  {
  }

  lemma JoinAppend(lines: seq<string>, line: string)
    ensures Join(lines + [line]) == if lines == [] then line else Join(lines) + ",\n" + line
  {
    var all := lines + [line];
    if lines != [] {
      assert all[..|all| - 1] == lines;
    }
  }

  // ------------------------------------------------------------------------
  // The writer
  // ------------------------------------------------------------------------

  class Writer {
    var buffer: string
    var ident: string
    var sep: Separator

    /** The indentation is always that of some nesting depth. */
    ghost predicate AtDepth(depth: nat)
      reads this
    {
      ident == Indent(depth)
    }

    /** What is written before the next name or value. */
    ghost function Lead(): string
      reads this
    {
      match sep
      case Comma => ",\n" + ident
      case Newline => "\n" + ident
      case NoSep => ""
    }

    constructor ()
      ensures buffer == "" && AtDepth(0) && sep == NoSep
    {
      buffer, ident, sep := "", "", NoSep;
    }

    method WriteFieldname(fieldname: string)
      modifies this
      ensures buffer == old(buffer) + old(Lead()) + Key(fieldname)
      ensures ident == old(ident) && sep == NoSep
    {
      var mark := match sep case Comma => ",\n" case Newline => "\n" case NoSep => "";
      buffer := buffer + (mark + if sep != NoSep then ident else "");
      if fieldname != "" {
        buffer := buffer + ("\"" + fieldname + "\": ");
      }
      sep := NoSep;
    }

    /** The four scalar writers. */
    method WriteScalar(fieldname: string, v: Json)
      requires !v.Obj? && !v.Arr?
      modifies this
      ensures forall depth: nat :: buffer == old(buffer) + old(Lead()) + Key(fieldname) + Text(v, depth)
      ensures ident == old(ident) && sep == Comma
    {
      hide Key, Decimal;
      WriteFieldname(fieldname);
      match v {
        case Str(text) => buffer := buffer + ("\"" + text + "\"");
        case Int(n) => buffer := buffer + Decimal(n);
        case Bool(b) => buffer := buffer + (if b then "true" else "false");
        case Null => buffer := buffer + "null";
      }
      sep := Comma;
    }

    /** `start_obj` with "{" and `start_array` with "[". */
    method Start(fieldname: string, open: string, ghost depth: nat)
      requires AtDepth(depth)
      modifies this
      ensures buffer == old(buffer) + old(Lead()) + Key(fieldname) + open
      ensures AtDepth(depth + 1) && sep == Newline
    {
      WriteFieldname(fieldname);
      buffer := buffer + open;
      ident := ident + "  ";
      sep := Newline;
    }

    /** `end_obj` with "}" and `end_array` with "]". */
    method End(close: string, ghost depth: nat)
      requires AtDepth(depth + 1)
      modifies this
      ensures buffer == old(buffer) + "\n" + Indent(depth) + close
      ensures AtDepth(depth) && sep == Comma
    {
      ident := ident[..|ident| - 2];
      assert ident == Indent(depth);
      buffer := buffer + "\n" + ident + close;
      sep := Comma;
    }
  }

  /** Between children the writer holds the lines written so far. */
  ghost predicate Holds(w: Writer, before: string, lines: seq<string>, depth: nat)
    reads w
  {
    && w.AtDepth(depth)
    && w.buffer == before + (if lines == [] then "" else "\n" + Join(lines))
    && w.sep == if lines == [] then Newline else Comma
  }

  lemma NextLine(before: string, lines: seq<string>, line: string)
    ensures before + (if lines == [] then "" else "\n" + Join(lines)) + (if lines == [] then "\n" else ",\n") + line
         == before + ("\n" + Join(lines + [line]))
  {
    var all := lines + [line];
    if lines != [] {
      assert all[..|all| - 1] == lines;
    }
  }

  /** Driving the writer over a value appends exactly the text of the pretty printer, and
      leaves the indentation as it was. */
  method WriteValue(w: Writer, fieldname: string, v: Json, ghost depth: nat)
    requires w.AtDepth(depth)
    modifies w
    ensures w.buffer == old(w.buffer) + old(w.Lead()) + Key(fieldname) + Text(v, depth)
    ensures w.AtDepth(depth) && w.sep == Comma
    decreases v, 1
  {
    hide Indent, Join, Bracket, Key, FieldLines, ItemLines;
    match v {
      case Obj(fields) =>
        w.Start(fieldname, "{", depth);
        ghost var before := w.buffer;
        WriteFields(w, fields, depth + 1, before);
        w.End("}", depth);
        Bracketed(old(w.buffer) + old(w.Lead()) + Key(fieldname), "{", FieldLines(fields, depth + 1), depth, "}");
      case Arr(items) =>
        w.Start(fieldname, "[", depth);
        ghost var before := w.buffer;
        WriteItems(w, items, depth + 1, before);
        w.End("]", depth);
        Bracketed(old(w.buffer) + old(w.Lead()) + Key(fieldname), "[", ItemLines(items, depth + 1), depth, "]");
      case _ =>
        w.WriteScalar(fieldname, v);
    }
  }

  lemma Bracketed(before: string, open: string, lines: seq<string>, depth: nat, close: string)
    ensures before + open + (if lines == [] then "" else "\n" + Join(lines)) + "\n" + Indent(depth) + close
         == before + Bracket(open, lines, close, depth)
  {
    hide Join, Indent;
    var body := if lines == [] then "" else "\n" + Join(lines);
    assert before + open + body + "\n" + Indent(depth) + close
        == before + (open + body + "\n" + Indent(depth) + close);
  }

  method WriteFields(w: Writer, fields: seq<Member>, ghost depth: nat, ghost before: string)
    requires Holds(w, before, [], depth)
    modifies w
    ensures Holds(w, before, FieldLines(fields, depth), depth)
    decreases fields, 0
  {
    hide Text, Join, Indent, Key, Line;
    assert FieldLines(fields[..0], depth) == [];
    for i := 0 to |fields|
      invariant Holds(w, before, FieldLines(fields[..i], depth), depth)
    {
      ghost var lines := FieldLines(fields[..i], depth);
      WriteValue(w, fields[i].name, fields[i].value, depth);
      ChildLine(w.ident, before, lines, fields[i].name, fields[i].value, depth);
      assert fields[..i + 1][..i] == fields[..i];
    }
    assert fields[..|fields|] == fields;
  }

  method WriteItems(w: Writer, items: seq<Json>, ghost depth: nat, ghost before: string)
    requires Holds(w, before, [], depth)
    modifies w
    ensures Holds(w, before, ItemLines(items, depth), depth)
    decreases items, 0
  {
    hide Text, Join, Indent, Key, Line;
    assert ItemLines(items[..0], depth) == [];
    for i := 0 to |items|
      invariant Holds(w, before, ItemLines(items[..i], depth), depth)
    {
      ghost var lines := ItemLines(items[..i], depth);
      WriteValue(w, "", items[i], depth);
      ChildLine(w.ident, before, lines, "", items[i], depth);
      assert items[..i + 1][..i] == items[..i];
    }
    assert items[..|items|] == items;
  }

  /** A child written after `lines` makes one more line. */
  lemma ChildLine(ident: string, before: string, lines: seq<string>, name: string, v: Json, depth: nat)
    requires ident == Indent(depth)
    ensures (before + (if lines == [] then "" else "\n" + Join(lines)))
              + ((if lines == [] then "\n" else ",\n") + ident) + Key(name) + Text(v, depth)
         == before + ("\n" + Join(lines + [Line(name, v, depth)]))
  {
    hide Join, Text, Key, Indent;
    var a := before + (if lines == [] then "" else "\n" + Join(lines));
    var sep := if lines == [] then "\n" else ",\n";
    assert a + (sep + ident) + Key(name) + Text(v, depth) == a + sep + (ident + Key(name) + Text(v, depth));
    NextLine(before, lines, Line(name, v, depth));
  }

  /** A fresh writer driven over a whole document holds the document's text. */
  method Print(v: Json) returns (text: string)
    ensures text == Text(v, 0)
  {
    var w := new Writer();
    WriteValue(w, "", v, 0);
    text := w.buffer;
    assert "" + "" + "" + Text(v, 0) == Text(v, 0);
  }
}
