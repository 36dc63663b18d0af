/** What an INI text means to ini_read and find_item (f1g_smart_conf.c), and why every layout of a
    configuration means that configuration. */
module Ini {
  import opened Common
  import opened BasicFuncs

  const NAME_SIZE := 64

  datatype Item = Item(name: string, value: string)

  datatype Section = Section(name: string, items: seq<Item>)

  // ---------------------------------------------------------------- one line

  datatype Line =
    | Skip
    | SectionLine(name: string)
    | BadSection
    | ItemLine(item: Item)
    | BadItem
    | BlankValue(name: string)

  /** The text up to the first NUL. */
  function CStr(s: string): (r: string)
    ensures r <= s && '\0' !in r
  {
    if s == "" || s[0] == '\0' then "" else [s[0]] + CStr(s[1..])
  }

  /** Where a name ends: at the first space or `=`. */
  function NameEnd(s: string): (k: nat)
    ensures k <= |s|
  {
    if s == "" || s[0] == ' ' || s[0] == '=' then 0 else 1 + NameEnd(s[1..])
  }

  /** How ini_read sees a line.  A value made of spaces only is singled out: there the code computes
      a negative length. */
  function Classify(l: string): Line {
    var s := SkipChar(l, ' ');
    if s == "" || s[0] == '#' then Skip
    else if s[0] == '[' then ClassifySection(s[1..])
    else ClassifyItem(s)
  }

  function ClassifySection(body: string): Line {
    var k := Find(body, "]");
    if k == -1 || k >= NAME_SIZE then BadSection else SectionLine(body[..k])
  }

  function ClassifyItem(s: string): Line {
    var k := NameEnd(s);
    if k >= NAME_SIZE || k == |s| then BadItem
    else
      var r := SkipChar(s[k..], ' ');
      if r == "" || r[0] != '=' then BadItem else ClassifyValue(s[..k], r[1..])
  }

  function ClassifyValue(name: string, after: string): Line {
    var v := SkipChar(after, ' ');
    if v != "" then ItemLine(Item(name, StripChar(v, ' ')))
    else if after == "" then ItemLine(Item(name, ""))
    else BlankValue(name)
  }

  // ---------------------------------------------------------------- names

  /** strcasecmp(a, b) == 0 */
  predicate SameName(a: string, b: string) {
    |a| == |b| && forall i | 0 <= i < |a| :: Lower(a[i]) == Lower(b[i])
  }

  predicate HasSection(secs: seq<Section>, name: string) {
    exists i | 0 <= i < |secs| :: SameName(name, secs[i].name)
  }

  predicate HasItem(items: seq<Item>, name: string) {
    exists i | 0 <= i < |items| :: SameName(name, items[i].name)
  }

  // ---------------------------------------------------------------- a whole text

  /** The sections read so far, and how many the section array can hold. */
  datatype Conf = Conf(secs: seq<Section>, size: nat)

  /** F1G_OK with a configuration, F1G_ERR, or behaviour the language does not define. */
  datatype Result = Good(conf: Conf) | Failed | Undefined

  const NO_SECTION := Section("", [])

  /** extend_sec_size copies `sec_num` sections, but `sec_num` is set only after the last line: the
      sections read so far come out empty. */
  function Grown(c: Conf): Conf {
    Conf(seq(|c.secs|, _ => NO_SECTION), c.size * 2)
  }

  function AddSection(c: Conf, name: string): Result {
    var d := if |c.secs| >= c.size then Grown(c) else c;
    if HasSection(d.secs, name) then Failed else Good(d.(secs := d.secs + [Section(name, [])]))
  }

  function Append(c: Conf, it: Item): Conf
    requires c.secs != []
  {
    var n := |c.secs| - 1;
    c.(secs := c.secs[n := c.secs[n].(items := c.secs[n].items + [it])])
  }

  function AddItem(c: Conf, it: Item): Result {
    if c.secs == [] then Undefined
    else if HasItem(c.secs[|c.secs| - 1].items, it.name) then Failed
    else Good(Append(c, it))
  }

  function Step(c: Conf, line: Line): Result {
    match line
    case Skip => Good(c)
    case SectionLine(name) => AddSection(c, name)
    case BadSection => Failed
    case ItemLine(it) => AddItem(c, it)
    case BadItem => if c.secs == [] then Undefined else Failed
    case BlankValue(name) =>
      if c.secs != [] && HasItem(c.secs[|c.secs| - 1].items, name) then Failed else Undefined
  }

  /** The first line of a text, and the text behind it. */
  function FirstLine(text: string): string {
    var k := Find(text, "\n");
    if k == -1 then text else text[..k]
  }

  function AfterLine(text: string): (r: string)
    requires text != ""
    ensures |r| < |text|
  {
    var k := Find(text, "\n");
    if k == -1 then "" else text[k + 1..]
  }

  function ReadText(text: string, c: Conf): Result
    decreases |text|
  {
    if text == "" then Good(c)
    else
      match Step(c, Classify(CStr(FirstLine(text))))
      case Good(d) => ReadText(AfterLine(text), d)
      case other => other
  }

  /** The inner loop of find_item: the first item of that name. */
  function FindInItems(items: seq<Item>, name: string): Option<Item> {
    if items == [] then None
    else if SameName(items[0].name, name) then Some(items[0])
    else FindInItems(items[1..], name)
  }

  /** find_item: the last section of that name that has the item, and the first such item in it. */
  function FindItem(secs: seq<Section>, sec: string, name: string): Option<Item> {
    if secs == [] then None
    else
      var last := secs[|secs| - 1];
      var here := if SameName(last.name, sec) then FindInItems(last.items, name) else None;
      if here.Some? then here else FindItem(secs[..|secs| - 1], sec, name)
  }

  // ---------------------------------------------------------------- layouts

  /** A line of a configuration file as a person may write it. */
  datatype Row =
    | Comment(indent: nat, text: string)
    | Blank(indent: nat)
    | SectionRow(indent: nat, name: string, rest: string)
    | ItemRow(indent: nat, name: string, before: nat, after: nat, value: string, trailing: nat)
    | OpenSection(indent: nat, name: string)                              // without its `]`
    | LoneName(indent: nat, name: string, before: nat, rest: string)      // without its `=`

  predicate Printable(s: string) {
    '\n' !in s && '\0' !in s
  }

  /** The row is what it looks like.  Nothing is said of what ini_read thinks of it. */
  ghost predicate RowOk(r: Row) {
    match r
    case Comment(_, text) => Printable(text)
    case Blank(_) => true
    case SectionRow(_, name, rest) => Printable(name) && Printable(rest) && ']' !in name
    case ItemRow(_, name, _, after, value, trailing) =>
      && ItemName(name) && Printable(value)
      && NoEdgeSpaces(value)
      && (value == "" ==> after == 0 && trailing == 0)
    case OpenSection(_, name) => Printable(name) && ']' !in name
    case LoneName(_, name, before, rest) =>
      && ItemName(name) && name != "" && Printable(rest)
      && (rest != "" ==> before > 0 && rest[0] != ' ' && rest[0] != '=')
  }

  predicate ItemName(name: string) {
    && Printable(name) && ' ' !in name && '=' !in name
    && (name != "" ==> name[0] != '#' && name[0] != '[')
  }

  /** The row is complete, and its name has at most 63 characters. */
  predicate Legible(r: Row) {
    match r
    case SectionRow(_, name, _) => |name| < 64
    case ItemRow(_, name, _, _, _, _) => |name| < 64
    case OpenSection(_, _) => false
    case LoneName(_, _, _, _) => false
    case _ => true
  }

  function RowText(r: Row): string {
    match r
    case Comment(indent, text) => Spaces(indent) + ("#" + text)
    case Blank(indent) => Spaces(indent)
    case SectionRow(indent, name, rest) => Spaces(indent) + ("[" + (name + ("]" + rest)))
    case ItemRow(indent, name, before, after, value, trailing) =>
      Spaces(indent) + (name + (Spaces(before) + ("=" + (Spaces(after) + (value + Spaces(trailing))))))
    case OpenSection(indent, name) => Spaces(indent) + ("[" + name)
    case LoneName(indent, name, before, rest) => Spaces(indent) + (name + (Spaces(before) + rest))
  }

  /** The rows as a text; the last line end may be missing. */
  function Text(rows: seq<Row>, closed: bool): string {
    if rows == [] then ""
    else if |rows| == 1 && !closed then RowText(rows[0])
    else RowText(rows[0]) + "\n" + Text(rows[1..], closed)
  }

  /** The configuration that the rows spell out. */
  function Spelled(rows: seq<Row>, secs: seq<Section>): seq<Section>
    decreases |rows|
  {
    if rows == [] then secs
    else
      match rows[0]
      case SectionRow(_, name, _) => Spelled(rows[1..], secs + [Section(name, [])])
      case ItemRow(_, name, _, _, value, _) =>
        if secs == [] then Spelled(rows[1..], secs)
        else
          var n := |secs| - 1;
          Spelled(rows[1..], secs[n := secs[n].(items := secs[n].items + [Item(name, value)])])
      case _ => Spelled(rows[1..], secs)
  }

  // ---------------------------------------------------------------- one row is read back

  lemma {:induction false} NameEndIs(name: string, rest: string)
    requires ' ' !in name && '=' !in name && (rest == "" || rest[0] == ' ' || rest[0] == '=')
    ensures NameEnd(name + rest) == |name|
  {
    if name == "" {
      assert name + rest == rest;
    } else {
      assert (name + rest)[1..] == name[1..] + rest;
      NameEndIs(name[1..], rest);
    }
  }

  function Meant(r: Row): Line {
    match r
    case Comment(_, _) => Skip
    case Blank(_) => Skip
    case SectionRow(_, name, _) => if Legible(r) then SectionLine(name) else BadSection
    case ItemRow(_, name, _, _, value, _) => if Legible(r) then ItemLine(Item(name, value)) else BadItem
    case OpenSection(_, _) => BadSection
    case LoneName(_, _, _, _) => BadItem
  }

  lemma SectionRowIsRead(indent: nat, name: string, rest: string)
    requires ']' !in name
    ensures Classify(RowText(SectionRow(indent, name, rest))) == if |name| < 64 then SectionLine(name) else BadSection
  {
    var body := name + ("]" + rest);
    SpacesAreSkipped(indent, "[" + body);
    assert ("[" + body)[1..] == body;
    CharIsFound(name, ']', rest);
    assert body[..|name|] == name;
  }

  lemma OpenSectionIsRead(indent: nat, name: string)
    requires ']' !in name
    ensures Classify(RowText(OpenSection(indent, name))) == BadSection
  {
    SpacesAreSkipped(indent, "[" + name);
    assert ("[" + name)[1..] == name;
    CharIsNotFound(name, ']');
  }

  lemma LoneNameIsRead(r: Row)
    requires r.LoneName? && RowOk(r)
    ensures Classify(RowText(r)) == BadItem
  {
    var tail := Spaces(r.before) + r.rest;
    var s := r.name + tail;
    SpacesAreSkipped(r.indent, s);
    assert r.rest == "" && r.before == 0 ==> tail == "";
    NameEndIs(r.name, tail);
    assert s[|r.name|..] == tail;
    SpacesAreSkipped(r.before, r.rest);
    assert Classify(RowText(r)) == ClassifyItem(s);
  }

  lemma ValueIsRead(name: string, after: nat, value: string, trailing: nat)
    requires NoEdgeSpaces(value) && (value == "" ==> after == 0 && trailing == 0)
    ensures ClassifyValue(name, Spaces(after) + (value + Spaces(trailing))) == ItemLine(Item(name, value))
  {
    if value == "" {
      assert Spaces(after) + (value + Spaces(trailing)) == "";
    } else {
      SpacesAreSkipped(after, value + Spaces(trailing));
      SpacesAreStripped(value, trailing);
    }
  }

  lemma ItemRowIsRead(r: Row)
    requires r.ItemRow? && RowOk(r)
    ensures Classify(RowText(r)) == if |r.name| < 64 then ItemLine(Item(r.name, r.value)) else BadItem
  {
    var tail := Spaces(r.after) + (r.value + Spaces(r.trailing));
    var eq := "=" + tail;
    var rest := Spaces(r.before) + eq;
    if r.name == "" {
      assert RowText(r) == Spaces(r.indent + r.before) + eq;
      SpacesAreSkipped(r.indent + r.before, eq);
      ItemIsRead("", 0, eq, tail);
      assert "" + (Spaces(0) + eq) == eq;
    } else {
      SpacesAreSkipped(r.indent, r.name + rest);
      ItemIsRead(r.name, r.before, eq, tail);
    }
    ValueIsRead(r.name, r.after, r.value, r.trailing);
  }

  lemma ItemIsRead(name: string, before: nat, eq: string, tail: string)
    requires ' ' !in name && '=' !in name && eq == "=" + tail
    ensures ClassifyItem(name + (Spaces(before) + eq)) == if |name| < 64 then ClassifyValue(name, tail) else BadItem
  {
    var rest := Spaces(before) + eq;
    var s := name + rest;
    NameEndIs(name, rest);
    assert s[..|name|] == name && s[|name|..] == rest;
    SpacesAreSkipped(before, eq);
    assert eq[1..] == tail;
  }

  lemma RowIsRead(r: Row)
    requires RowOk(r)
    ensures Classify(RowText(r)) == Meant(r)
  {
    match r
    case Comment(indent, text) => SpacesAreSkipped(indent, "#" + text);
    case Blank(indent) =>
      assert Spaces(indent) + "" == Spaces(indent);
      SpacesAreSkipped(indent, "");
    case SectionRow(indent, name, rest) => SectionRowIsRead(indent, name, rest);
    case ItemRow(_, _, _, _, _, _) => ItemRowIsRead(r);
    case OpenSection(indent, name) => OpenSectionIsRead(indent, name);
    case LoneName(_, _, _, _) => LoneNameIsRead(r);
  }

  // ---------------------------------------------------------------- the whole text is read back

  lemma {:induction false} NoNulNoCut(s: string)
    requires '\0' !in s
    ensures CStr(s) == s
  {
    if s != "" {
      NoNulNoCut(s[1..]);
      assert [s[0]] + s[1..] == s;
    }
  }

  lemma PrintableConcat(a: string, b: string)
    ensures Printable(a + b) <==> Printable(a) && Printable(b)
  {
    if Printable(a + b) {
      assert forall i | 0 <= i < |a| :: a[i] == (a + b)[i];
      assert forall i | 0 <= i < |b| :: b[i] == (a + b)[|a| + i];
    }
  }

  lemma FourPrintable(a: string, b: string, c: string, d: string)
    requires Printable(a) && Printable(b) && Printable(c) && Printable(d)
    ensures Printable(a + (b + (c + d)))
  {
    PrintableConcat(c, d);
    PrintableConcat(b, c + d);
    PrintableConcat(a, b + (c + d));
  }

  lemma SpacesArePrintable(n: nat)
    ensures Printable(Spaces(n))
  {
  }

  lemma ItemIsPrintable(r: Row)
    requires r.ItemRow? && RowOk(r)
    ensures Printable(RowText(r))
  {
    SpacesArePrintable(r.indent);
    SpacesArePrintable(r.before);
    SpacesArePrintable(r.after);
    SpacesArePrintable(r.trailing);
    var tail := Spaces(r.after) + (r.value + Spaces(r.trailing));
    PrintableConcat(r.value, Spaces(r.trailing));
    PrintableConcat(Spaces(r.after), r.value + Spaces(r.trailing));
    PrintableConcat("=", tail);
    FourPrintable(Spaces(r.indent), r.name, Spaces(r.before), "=" + tail);
  }

  lemma RowIsPrintable(r: Row)
    requires RowOk(r)
    ensures Printable(RowText(r))
  {
    SpacesArePrintable(r.indent);
    match r
    case Comment(indent, text) =>
      PrintableConcat("#", text);
      PrintableConcat(Spaces(indent), "#" + text);
    case Blank(indent) =>
    case SectionRow(indent, name, rest) =>
      PrintableConcat("]", rest);
      FourPrintable(Spaces(indent), "[", name, "]" + rest);
    case ItemRow(_, _, _, _, _, _) => ItemIsPrintable(r);
    case OpenSection(indent, name) =>
      PrintableConcat("[", name);
      PrintableConcat(Spaces(indent), "[" + name);
    case LoneName(indent, name, before, rest) =>
      SpacesArePrintable(before);
      FourPrintable(Spaces(indent), name, Spaces(before), rest);
  }

  lemma LineIsSplit(line: string, rest: string)
    requires '\n' !in line
    ensures FirstLine(line + "\n" + rest) == line && AfterLine(line + "\n" + rest) == rest
    ensures line != "" ==> FirstLine(line) == line && AfterLine(line) == ""
  {
    var text := line + "\n" + rest;
    assert text == line + (['\n'] + rest);
    CharIsFound(line, '\n', rest);
    assert text[..|line|] == line && text[|line| + 1..] == rest;
    CharIsNotFound(line, '\n');
  }

  /** No two sections and no two items of a section have the same name in any letter case. */
  ghost predicate Distinct(secs: seq<Section>) {
    && (forall i, j | 0 <= i < j < |secs| :: !SameName(secs[i].name, secs[j].name))
    && (forall i | 0 <= i < |secs| :: DistinctItems(secs[i].items))
  }

  ghost predicate DistinctItems(items: seq<Item>) {
    forall i, j | 0 <= i < j < |items| :: !SameName(items[i].name, items[j].name)
  }

  /** Every item row comes after some section row. */
  predicate Anchored(rows: seq<Row>, inSection: bool) {
    rows == [] ||
    ((rows[0].ItemRow? || rows[0].LoneName? ==> inSection) && Anchored(rows[1..], inSection || rows[0].SectionRow?))
  }

  /** One row: its line is split off, understood, and the rest is the text of the other rows. */
  lemma RowStep(rows: seq<Row>, closed: bool, c: Conf)
    requires rows != [] && RowOk(rows[0])
    ensures ReadText(Text(rows, closed), c) ==
            match Step(c, Meant(rows[0]))
            case Good(d) => ReadText(Text(rows[1..], closed), d)
            case other => other
  {
    var line, rest := RowText(rows[0]), Text(rows[1..], closed);
    RowIsRead(rows[0]);
    RowIsPrintable(rows[0]);
    NoNulNoCut(line);
    LineIsSplit(line, rest);
    if |rows| == 1 && !closed {
      assert Text(rows[1..], closed) == "";
      if line == "" {
        assert Meant(rows[0]) == Classify("") == Skip;
      }
    }
  }

  /** Later rows keep the names and extend the items of the sections before them. */
  lemma {:induction false} SpelledExtends(rows: seq<Row>, secs: seq<Section>)
    ensures |secs| <= |Spelled(rows, secs)|
    ensures forall i | 0 <= i < |secs| ::
              Spelled(rows, secs)[i].name == secs[i].name && secs[i].items <= Spelled(rows, secs)[i].items
    decreases |rows|
  {
    if rows != [] {
      match rows[0]
      case SectionRow(_, name, _) => SpelledExtends(rows[1..], secs + [Section(name, [])]);
      case ItemRow(_, name, _, _, value, _) =>
        if secs == [] {
          SpelledExtends(rows[1..], secs);
        } else {
          var n := |secs| - 1;
          SpelledExtends(rows[1..], secs[n := secs[n].(items := secs[n].items + [Item(name, value)])]);
        }
      case _ => SpelledExtends(rows[1..], secs);
    }
  }

  /** What the next row adds is new, because the whole configuration has distinct names. */
  lemma NextRowIsNew(rows: seq<Row>, secs: seq<Section>)
    requires rows != [] && Distinct(Spelled(rows, secs))
    ensures rows[0].SectionRow? ==> !HasSection(secs, rows[0].name)
    ensures rows[0].ItemRow? && secs != [] ==> !HasItem(secs[|secs| - 1].items, rows[0].name)
  {
    var all := Spelled(rows, secs);
    match rows[0]
    case SectionRow(_, name, _) =>
      var next := secs + [Section(name, [])];
      SpelledExtends(rows[1..], next);
      forall i | 0 <= i < |secs|
        ensures !SameName(name, secs[i].name)
      {
        assert all[i].name == next[i].name && all[|secs|].name == name;
        assert !SameName(all[i].name, all[|secs|].name);
      }
    case ItemRow(_, name, _, _, value, _) =>
      if secs != [] {
        var n := |secs| - 1;
        var items := secs[n].items + [Item(name, value)];
        SpelledExtends(rows[1..], secs[n := secs[n].(items := items)]);
        assert items <= all[n].items && DistinctItems(all[n].items);
        forall i | 0 <= i < |secs[n].items|
          ensures !SameName(name, secs[n].items[i].name)
        {
          assert all[n].items[i] == secs[n].items[i] && all[n].items[|secs[n].items|] == Item(name, value);
          assert !SameName(all[n].items[i].name, all[n].items[|secs[n].items|].name);
        }
      }
    case _ =>
  }

  /** What reading the rows one by one gives. */
  function ReadRows(rows: seq<Row>, c: Conf): Result
    decreases |rows|
  {
    if rows == [] then Good(c)
    else
      match Step(c, Meant(rows[0]))
      case Good(d) => ReadRows(rows[1..], d)
      case other => other
  }

  /** A text is read row by row, whatever its layout. */
  lemma {:induction false} TextIsRows(rows: seq<Row>, closed: bool, c: Conf)
    requires forall i | 0 <= i < |rows| :: RowOk(rows[i])
    ensures ReadText(Text(rows, closed), c) == ReadRows(rows, c)
    decreases |rows|
  {
    if rows != [] {
      RowStep(rows, closed, c);
      var r := Step(c, Meant(rows[0]));
      if r.Good? {
        TextIsRows(rows[1..], closed, r.conf);
      }
    }
  }

  /** All rows are complete, with names that are not too long. */
  predicate AllLegible(rows: seq<Row>) {
    forall i | 0 <= i < |rows| :: Legible(rows[i])
  }

  lemma {:induction false} FittingRows(rows: seq<Row>, c: Conf)
    requires AllLegible(rows)
    requires Anchored(rows, c.secs != []) && Distinct(Spelled(rows, c.secs)) && |Spelled(rows, c.secs)| <= c.size
    ensures ReadRows(rows, c) == Good(c.(secs := Spelled(rows, c.secs)))
    decreases |rows|
  {
    if rows != [] {
      NextRowIsNew(rows, c.secs);
      assert Legible(rows[0]);
      if rows[0].SectionRow? {
        var next := c.secs + [Section(rows[0].name, [])];
        SpelledExtends(rows[1..], next);
        FittingRows(rows[1..], c.(secs := next));
      } else if rows[0].ItemRow? {
        FittingRows(rows[1..], Append(c, Item(rows[0].name, rows[0].value)));
      } else {
        FittingRows(rows[1..], c);
      }
    }
  }

  /** Whatever comments, blank lines, indentation and spacing are used, a text that spells out a
      configuration with distinct names is read as that configuration, if its sections fit. */
  lemma RowsAreRead(rows: seq<Row>, closed: bool, c: Conf)
    requires (forall i | 0 <= i < |rows| :: RowOk(rows[i])) && AllLegible(rows)
    requires Anchored(rows, c.secs != []) && Distinct(Spelled(rows, c.secs)) && |Spelled(rows, c.secs)| <= c.size
    ensures ReadText(Text(rows, closed), c) == Good(c.(secs := Spelled(rows, c.secs)))
  {
    TextIsRows(rows, closed, c);
    FittingRows(rows, c);
  }

  // ---------------------------------------------------------------- what is refused

  lemma DuplicateIsFound(rows: seq<Row>, c: Conf)
    requires rows != [] && Anchored(rows, c.secs != []) && |Spelled(rows, c.secs)| <= c.size
    requires !Step(c, Meant(rows[0])).Good?
    ensures Step(c, Meant(rows[0])) == Failed
    ensures !Distinct(Spelled(rows, c.secs)) || !Legible(rows[0])
  {
    if Distinct(Spelled(rows, c.secs)) {
      NextRowIsNew(rows, c.secs);
    }
    if rows[0].SectionRow? {
      SpelledExtends(rows[1..], c.secs + [Section(rows[0].name, [])]);
    }
  }

  /** A row that is read adds something new, so the sections stay distinct. */
  lemma StaysDistinct(rows: seq<Row>, c: Conf)
    requires rows != [] && Anchored(rows, c.secs != []) && |Spelled(rows, c.secs)| <= c.size && Distinct(c.secs)
    requires Step(c, Meant(rows[0])).Good?
    ensures
      var d := Step(c, Meant(rows[0])).conf;
      && Distinct(d.secs) && d.size == c.size && Spelled(rows[1..], d.secs) == Spelled(rows, c.secs)
      && Anchored(rows[1..], d.secs != []) && Legible(rows[0])
  {
    match rows[0]
    case SectionRow(_, name, _) =>
      SpelledExtends(rows[1..], c.secs + [Section(name, [])]);
      forall i | 0 <= i < |c.secs|
        ensures !SameName(c.secs[i].name, name)
      {
        SameNameIsEquivalence(c.secs[i].name, name, name);
      }
    case ItemRow(_, name, _, _, _, _) =>
      var items := c.secs[|c.secs| - 1].items;
      forall i | 0 <= i < |items|
        ensures !SameName(items[i].name, name)
      {
        SameNameIsEquivalence(items[i].name, name, name);
      }
    case _ =>
  }

  lemma {:induction false} RowsAreReadOrRefused(rows: seq<Row>, c: Conf)
    requires Anchored(rows, c.secs != []) && |Spelled(rows, c.secs)| <= c.size && Distinct(c.secs)
    ensures ReadRows(rows, c) ==
            if AllLegible(rows) && Distinct(Spelled(rows, c.secs)) then Good(c.(secs := Spelled(rows, c.secs)))
            else Failed
    decreases |rows|
  {
    if rows != [] {
      var r := Step(c, Meant(rows[0]));
      if r.Good? {
        StaysDistinct(rows, c);
        RowsAreReadOrRefused(rows[1..], r.conf);
        assert AllLegible(rows) <==> AllLegible(rows[1..]);
      } else {
        DuplicateIsFound(rows, c);
      }
    }
  }

  /** The first main result: of all texts whose sections fit, exactly those are read whose rows are
      complete, with names of at most 63 characters, of which no two sections and no two items of one
      section have the same name in any letter case; all others are refused. */
  lemma ReadOrRefused(rows: seq<Row>, closed: bool, size: nat)
    requires forall i | 0 <= i < |rows| :: RowOk(rows[i])
    requires Anchored(rows, false) && |Spelled(rows, [])| <= size
    ensures ReadText(Text(rows, closed), Conf([], size)) ==
            if AllLegible(rows) && Distinct(Spelled(rows, [])) then Good(Conf(Spelled(rows, []), size)) else Failed
  {
    TextIsRows(rows, closed, Conf([], size));
    RowsAreReadOrRefused(rows, Conf([], size));
  }

  // ---------------------------------------------------------------- sections that do not fit

  /** In the outcome, if there is one, section `i` is empty and others follow it. */
  predicate LostIn(r: Result, i: nat) {
    r.Good? ==> i + 1 < |r.conf.secs| && r.conf.secs[i] == NO_SECTION
  }

  lemma StepKeepsBlank(c: Conf, line: Line, i: nat)
    requires i + 1 < |c.secs| && c.secs[i] == NO_SECTION
    ensures LostIn(Step(c, line), i)
  {
  }

  /** An emptied section stays empty once another one follows it. */
  lemma {:induction false} BlankStays(rows: seq<Row>, c: Conf, i: nat)
    requires i + 1 < |c.secs| && c.secs[i] == NO_SECTION
    ensures LostIn(ReadRows(rows, c), i)
    decreases |rows|
  {
    if rows != [] {
      var r := Step(c, Meant(rows[0]));
      StepKeepsBlank(c, Meant(rows[0]), i);
      if r.Good? {
        BlankStays(rows[1..], r.conf, i);
      }
    }
  }

  /** A row that does not make the array grow is read as it is spelled. */
  lemma StepSpells(rows: seq<Row>, c: Conf)
    requires rows != [] && Anchored(rows, c.secs != []) && Step(c, Meant(rows[0])).Good?
    requires rows[0].SectionRow? ==> |c.secs| < c.size
    ensures
      var d := Step(c, Meant(rows[0])).conf;
      && d.size == c.size && Spelled(rows[1..], d.secs) == Spelled(rows, c.secs)
      && Anchored(rows[1..], d.secs != [])
      && |d.secs| == |c.secs| + if rows[0].SectionRow? then 1 else 0
  {
  }

  /** With more sections than the array was made for, the first ones come out empty. */
  lemma {:induction false} OverfullRows(rows: seq<Row>, c: Conf, i: nat)
    requires Anchored(rows, c.secs != [])
    requires i < c.size && |c.secs| <= c.size < |Spelled(rows, c.secs)|
    ensures LostIn(ReadRows(rows, c), i)
    decreases |rows|
  {
    if rows != [] {
      var r := Step(c, Meant(rows[0]));
      if r.Good? {
        if rows[0].SectionRow? && |c.secs| == c.size {
          BlankStays(rows[1..], r.conf, i);
        } else {
          StepSpells(rows, c);
          OverfullRows(rows[1..], r.conf, i);
        }
      }
    }
  }

  /** The same for a text: that is what reading too many sections gives. */
  lemma TooManyAreLost(rows: seq<Row>, closed: bool, c: Conf, i: nat)
    requires forall k | 0 <= k < |rows| :: RowOk(rows[k])
    requires Anchored(rows, c.secs != [])
    requires i < c.size && |c.secs| <= c.size < |Spelled(rows, c.secs)|
    ensures match ReadText(Text(rows, closed), c)
            case Good(d) => i + 1 < |d.secs| && d.secs[i] == NO_SECTION
            case _ => true
  {
    TextIsRows(rows, closed, c);
    OverfullRows(rows, c, i);
  }

  /** A single empty and nameless section is what growth leaves of it anyway. */
  lemma {:induction false} NamelessSurvives(rows: seq<Row>, c: Conf)
    requires AllLegible(rows)
    requires Anchored(rows, c.secs != []) && Distinct(Spelled(rows, c.secs))
    requires c.size == 1 && (c.secs == [] || c.secs == [NO_SECTION])
    requires |Spelled(rows, c.secs)| == 2 && Spelled(rows, c.secs)[0] == NO_SECTION
    ensures ReadRows(rows, c) == Good(Conf(Spelled(rows, c.secs), 2))
    decreases |rows|
  {
    if rows != [] {
      NextRowIsNew(rows, c.secs);
      assert Legible(rows[0]);
      if rows[0].SectionRow? {
        var next := c.secs + [Section(rows[0].name, [])];
        SpelledExtends(rows[1..], next);
        if c.secs == [] {
          assert next == [NO_SECTION];
          NamelessSurvives(rows[1..], Conf(next, 1));
        } else {
          assert Grown(c).secs == c.secs;
          FittingRows(rows[1..], Conf(next, 2));
        }
      } else if rows[0].ItemRow? {
        SpelledExtends(rows[1..], Append(c, Item(rows[0].name, rows[0].value)).secs);
      } else {
        NamelessSurvives(rows[1..], c);
      }
    }
  }

  /** A second growth empties the second section too. */
  lemma {:induction false} SecondGrowth(rows: seq<Row>, c: Conf)
    requires Anchored(rows, c.secs != []) && |Spelled(rows, c.secs)| > 2
    requires c.size == 1 && |c.secs| <= 1
    ensures LostIn(ReadRows(rows, c), 1)
    decreases |rows|
  {
    if rows != [] {
      var r := Step(c, Meant(rows[0]));
      if r.Good? {
        if rows[0].SectionRow? && |c.secs| == 1 {
          SpelledLength(rows[1..], c.secs + [Section(rows[0].name, [])], r.conf.secs);
          OverfullRows(rows[1..], r.conf, 1);
        } else {
          StepSpells(rows, c);
          SecondGrowth(rows[1..], r.conf);
        }
      }
    }
  }

  lemma {:induction false} SpelledLength(rows: seq<Row>, a: seq<Section>, b: seq<Section>)
    requires |a| == |b|
    ensures |Spelled(rows, a)| == |Spelled(rows, b)|
    decreases |rows|
  {
    if rows != [] {
      match rows[0]
      case SectionRow(_, name, _) => SpelledLength(rows[1..], a + [Section(name, [])], b + [Section(name, [])]);
      case ItemRow(_, name, _, _, value, _) =>
        if a == [] {
          SpelledLength(rows[1..], a, b);
        } else {
          var n, it := |a| - 1, Item(name, value);
          SpelledLength(rows[1..], a[n := a[n].(items := a[n].items + [it])],
              b[n := b[n].(items := b[n].items + [it])]);
        }
      case _ => SpelledLength(rows[1..], a, b);
    }
  }

  /** Reading returns the configuration that the text spells out exactly when its sections fit into
      the array made by smart_conf_init, or the only one before growth is empty and nameless. */
  lemma ReadIsExact(rows: seq<Row>, closed: bool, size: nat)
    requires (forall k | 0 <= k < |rows| :: RowOk(rows[k])) && AllLegible(rows)
    requires Anchored(rows, false) && Distinct(Spelled(rows, [])) && size > 0
    ensures
      var r, secs := ReadText(Text(rows, closed), Conf([], size)), Spelled(rows, []);
      (r.Good? && r.conf.secs == secs) <==> |secs| <= size || (size == 1 && |secs| == 2 && secs[0] == NO_SECTION)
  {
    var c, secs := Conf([], size), Spelled(rows, []);
    TextIsRows(rows, closed, c);
    if |secs| <= size {
      FittingRows(rows, c);
    } else if size == 1 && |secs| == 2 && secs[0] == NO_SECTION {
      NamelessSurvives(rows, c);
    } else {
      OverfullRows(rows, c, 0);
      if size > 1 {
        OverfullRows(rows, c, 1);
        assert !SameName(secs[0].name, secs[1].name);
      } else if |secs| > 2 {
        SecondGrowth(rows, c);
        assert !SameName(secs[0].name, secs[1].name);
      }
    }
  }

  /** Concretely: two sections in an array made for one, and the first comes back without its name. */
  lemma FirstSectionIsLost()
    ensures ReadText("[a]\n[b]\n", Conf([], 1)) == Good(Conf([NO_SECTION, Section("b", [])], 2))
    ensures Spelled([SectionRow(0, "a", ""), SectionRow(0, "b", "")], []) == [Section("a", []), Section("b", [])]
  {
    var a, b := SectionRow(0, "a", ""), SectionRow(0, "b", "");
    var rows := [a, b];
    assert RowText(a) == "[a]" && RowText(b) == "[b]";
    assert rows[1..] == [b] && [b][1..] == [];
    assert Text([b], true) == "[b]\n";
    assert Text(rows, true) == "[a]\n[b]\n";
    var c0, c1, c2 := Conf([], 1), Conf([Section("a", [])], 1), Conf([NO_SECTION, Section("b", [])], 2);
    assert c0.secs + [Section("a", [])] == c1.secs;
    assert Grown(c1).secs == [NO_SECTION] && Grown(c1).secs + [Section("b", [])] == c2.secs;
    assert |"b"| != |NO_SECTION.name|;
    assert Step(c0, Meant(a)) == Good(c1) && Step(c1, Meant(b)) == Good(c2);
    assert ReadRows([b], c1) == ReadRows([], c2);
    TextIsRows(rows, true, c0);
    assert c1.secs + [Section("b", [])] == [Section("a", []), Section("b", [])];
    assert Spelled([b], c1.secs) == c1.secs + [Section("b", [])];
  }

  // ---------------------------------------------------------------- finding items

  lemma SameNameIsEquivalence(a: string, b: string, c: string)
    ensures SameName(a, a) && (SameName(a, b) ==> SameName(b, a))
    ensures SameName(a, b) && SameName(b, c) ==> SameName(a, c)
  {
  }

  lemma {:induction false} ItemIsFound(items: seq<Item>, j: nat, name: string)
    requires DistinctItems(items) && j < |items| && SameName(items[j].name, name)
    ensures FindInItems(items, name) == Some(items[j])
  {
    if j > 0 {
      assert !SameName(items[0].name, items[j].name);
      SameNameIsEquivalence(items[j].name, name, items[0].name);
      SameNameIsEquivalence(items[0].name, name, items[j].name);
      forall a, b | 0 <= a < b < |items[1..]|
        ensures !SameName(items[1..][a].name, items[1..][b].name)
      {
        assert !SameName(items[a + 1].name, items[b + 1].name);
      }
      ItemIsFound(items[1..], j - 1, name);
    }
  }

  lemma {:induction false} ItemIsNotFound(items: seq<Item>, name: string)
    requires forall j | 0 <= j < |items| :: !SameName(items[j].name, name)
    ensures FindInItems(items, name) == None
  {
    if items != [] {
      ItemIsNotFound(items[1..], name);
    }
  }

  /** In any configuration, distinct or not: of the sections with that name that have such an item, the
      last one counts, and in it the first such item. */
  lemma {:induction false} LastSectionCounts(secs: seq<Section>, i: nat, j: nat, sec: string, name: string)
    requires i < |secs| && j < |secs[i].items| && SameName(secs[i].name, sec) && SameName(secs[i].items[j].name, name)
    requires forall m | 0 <= m < j :: !SameName(secs[i].items[m].name, name)
    requires forall k, m | i < k < |secs| && 0 <= m < |secs[k].items| && SameName(secs[k].name, sec) ::
               !SameName(secs[k].items[m].name, name)
    ensures FindItem(secs, sec, name) == Some(secs[i].items[j])
  {
    var n := |secs| - 1;
    if i == n {
      FirstItemCounts(secs[n].items, j, name);
    } else {
      if SameName(secs[n].name, sec) {
        ItemIsNotFound(secs[n].items, name);
      }
      LastSectionCounts(secs[..n], i, j, sec, name);
    }
  }

  lemma {:induction false} FirstItemCounts(items: seq<Item>, j: nat, name: string)
    requires j < |items| && SameName(items[j].name, name) && forall m | 0 <= m < j :: !SameName(items[m].name, name)
    ensures FindInItems(items, name) == Some(items[j])
  {
    if j > 0 {
      FirstItemCounts(items[1..], j - 1, name);
    }
  }

  /** In a configuration with distinct names, every item is found under its names in any letter
      case, although the search goes on behind a match. */
  lemma {:induction false} EveryItemIsFound(secs: seq<Section>, i: nat, j: nat, sec: string, name: string)
    requires Distinct(secs) && i < |secs| && j < |secs[i].items|
    requires SameName(secs[i].name, sec) && SameName(secs[i].items[j].name, name)
    ensures FindItem(secs, sec, name) == Some(secs[i].items[j])
  {
    var n := |secs| - 1;
    if i == n {
      ItemIsFound(secs[n].items, j, name);
    } else {
      SameNameIsEquivalence(secs[i].name, sec, secs[n].name);
      SameNameIsEquivalence(secs[n].name, sec, secs[i].name);
      assert !SameName(secs[i].name, secs[n].name);
      EveryItemIsFound(secs[..n], i, j, sec, name);
    }
  }

  /** What is found is there: an item of a section, both under the given names. */
  lemma {:induction false} FoundItemIsThere(secs: seq<Section>, sec: string, name: string)
    ensures match FindItem(secs, sec, name)
            case Some(it) =>
              exists i, j :: 0 <= i < |secs| && 0 <= j < |secs[i].items| && it == secs[i].items[j] &&
                             SameName(secs[i].name, sec) && SameName(it.name, name)
            case None => true
  {
    if secs != [] {
      var n := |secs| - 1;
      FoundInItemsIsThere(secs[n].items, name);
      if FindItem(secs[..n], sec, name).Some? {
        FoundItemIsThere(secs[..n], sec, name);
        if !(SameName(secs[n].name, sec) && FindInItems(secs[n].items, name).Some?) {
          var i, j :| 0 <= i < n && 0 <= j < |secs[..n][i].items| &&
              FindItem(secs, sec, name).value == secs[..n][i].items[j] &&
                      SameName(secs[..n][i].name, sec);
          assert secs[..n][i] == secs[i];
        }
      }
    }
  }

  lemma {:induction false} FoundInItemsIsThere(items: seq<Item>, name: string)
    ensures match FindInItems(items, name)
            case Some(it) => exists j :: 0 <= j < |items| && it == items[j] && SameName(it.name, name)
            case None => true
  {
    if items != [] && !SameName(items[0].name, name) {
      FoundInItemsIsThere(items[1..], name);
      if FindInItems(items[1..], name).Some? {
        var j :| 0 <= j < |items[1..]| && FindInItems(items[1..], name).value == items[1..][j];
        assert items[1..][j] == items[j + 1];
      }
    }
  }

  /** The main result: write a configuration down in any layout, read it, and every item is found
      with its value, in any letter case. */
  lemma WrittenItemsAreFound(rows: seq<Row>, closed: bool, size: nat, i: nat, j: nat, sec: string, name: string)
    requires (forall k | 0 <= k < |rows| :: RowOk(rows[k])) && AllLegible(rows)
    requires Anchored(rows, false) && Distinct(Spelled(rows, [])) && |Spelled(rows, [])| <= size
    requires i < |Spelled(rows, [])| && j < |Spelled(rows, [])[i].items|
    requires SameName(Spelled(rows, [])[i].name, sec) && SameName(Spelled(rows, [])[i].items[j].name, name)
    ensures
      var r := ReadText(Text(rows, closed), Conf([], size));
      r.Good? && FindItem(r.conf.secs, sec, name) == Some(Spelled(rows, [])[i].items[j])
  {
    RowsAreRead(rows, closed, Conf([], size));
    EveryItemIsFound(Spelled(rows, []), i, j, sec, name);
  }
}
