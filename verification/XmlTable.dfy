/** Table descriptions, and the text makeRow writes for one row. */
module XmlTable {
  import opened Text
  import opened XmlEscape
  import opened XmlReader

  /** Values by DbField type: 1 bool, 2 int, 4 string, 5 date (its ISO text); any other type has no text. */
  datatype Cell = BoolCell(b: bool) | IntCell(i: int) | StrCell(s: string) | DateCell(iso: string) | OtherCell

  datatype Column = Column(name: string, cell: Cell, request: bool, update: bool)
  datatype DbTable = DbTable(name: string, cols: seq<Column>)

  type Record = map<string, string>

  /** map::insert keeps the value that came first. */
  function RecordOf(attrs: seq<Attr>): Record {
    if attrs == [] then map[] else RecordOf(attrs[1..])[attrs[0].name := attrs[0].value]
  }

  /** operator[] of the map: "" for a missing name. */
  function Field(rec: Record, name: string): string {
    if name in rec then rec[name] else ""
  }

  function CellPlain(c: Cell): string {
    match c
    case BoolCell(b) => if b then "true" else "false"
    case IntCell(i) => ToString(i)
    case StrCell(s) => s
    case DateCell(iso) => iso
    case OtherCell => ""
  }

  /** What makeRow writes between the quotes: only strings are escaped. */
  function CellText(c: Cell): string {
    if c.StrCell? then Encode(c.s) else CellPlain(c)
  }

  /** The value a column gets: kept from the old row in an update that does not mark it, else the table's. */
  function ColPlain(c: Column, upd: bool, prev: Record): string {
    if upd && !c.update then Field(prev, c.name) else CellPlain(c.cell)
  }

  function ColText(c: Column, upd: bool, prev: Record): string {
    if upd && !c.update then Encode(Field(prev, c.name)) else CellText(c.cell)
  }

  /** One column as makeRow writes it. */
  function ColPart(c: Column, upd: bool, prev: Record): string {
    " " + (c.name + " = '" + ColText(c, upd, prev) + "'") + " "
  }

  function ColsText(cols: seq<Column>, upd: bool, prev: Record): string {
    if cols == [] then "" else ColPart(cols[0], upd, prev) + ColsText(cols[1..], upd, prev)
  }

  function RowText(cols: seq<Column>, upd: bool, prev: Record): string {
    "<row " + ColsText(cols, upd, prev) + "/>"
  }

  function Spaces(n: nat): (s: string)
    ensures |s| == n && forall k :: 0 <= k < n ==> s[k] == ' '
  {
    seq(n, _ => ' ')
  }

  lemma ColsTextSnoc(cols: seq<Column>, c: Column, upd: bool, prev: Record)
    ensures ColsText(cols + [c], upd, prev) == ColsText(cols, upd, prev) + ColPart(c, upd, prev)
  {
    hide ColPart;
    if cols == [] {
      assert ColsText([c], upd, prev) == ColPart(c, upd, prev) + ColsText([c][1..], upd, prev);
      assert cols + [c] == [c];
    } else {
      assert (cols + [c])[1..] == cols[1..] + [c];
      ColsTextSnoc(cols[1..], c, upd, prev);
    }
  }

  /** The loop body of makeRow. */
  method MakeColumn(c: Column, upd: bool, prev: Record) returns (os: string)
    ensures os == ColPart(c, upd, prev)
  {
    os := c.name + " = '";
    if upd && !c.update {
      var v := Convert2WF(Field(prev, c.name));
      os := os + v;
    } else {
      match c.cell {
        case StrCell(s) =>
          var v := Convert2WF(s);
          os := os + v;
        case _ =>
          os := os + CellPlain(c.cell);
      }
    }
    os := " " + (os + "'") + " ";
  }

  /** makeRow; prev is the matched row of an update, indent the blanks put before the row. */
  method MakeRow(d: DbTable, upd: bool, prev: Record, indent: nat) returns (os: string)
    ensures os == Spaces(indent) + RowText(d.cols, upd, prev)
  {
    hide ColPart;
    var cols := "";
    var i := 0;
    while i < |d.cols|
      invariant i <= |d.cols| && cols == ColsText(d.cols[..i], upd, prev)
    {
      var p := MakeColumn(d.cols[i], upd, prev);
      ColsTextSnoc(d.cols[..i], d.cols[i], upd, prev);
      assert d.cols[..i + 1] == d.cols[..i] + [d.cols[i]];
      cols := cols + p;
      i := i + 1;
    }
    assert d.cols[..i] == d.cols;
    os := Spaces(indent) + ("<row " + cols + "/>");
  }

  // ----- the row is read back as the attributes it was made of

  predicate NameOk(n: string) {
    |n| > 0 && forall k :: 0 <= k < |n| ==> IsNameChar(n[k])
  }

  /** A date column holds the text time2iso prints. */
  predicate CellOk(c: Cell) {
    c.DateCell? ==> forall k :: 0 <= k < |c.iso| ==> IsDigit(c.iso[k]) || c.iso[k] in {'-', ':', ' '}
  }

  predicate ColsOk(cols: seq<Column>) {
    forall k :: 0 <= k < |cols| ==> NameOk(cols[k].name) && CellOk(cols[k].cell)
  }

  /** Attribute values come back with white space characters as blanks. */
  function Normal(s: string): (r: string)
    ensures |r| == |s|
  {
    if s == "" then "" else [if IsWs(s[0]) then ' ' else s[0]] + Normal(s[1..])
  }

  function RowAttrs(cols: seq<Column>, upd: bool, prev: Record): (r: seq<Attr>)
    ensures |r| == |cols|
    ensures forall k :: 0 <= k < |cols| ==> r[k] == Attr(cols[k].name, Normal(ColPlain(cols[k], upd, prev)))
  {
    seq(|cols|, k requires 0 <= k < |cols| => Attr(cols[k].name, Normal(ColPlain(cols[k], upd, prev))))
  }

  lemma {:induction false} EncodePlain(s: string)
    requires forall k :: 0 <= k < |s| ==> s[k] !in {'&', '<', '>', '\'', '\"'}
    ensures Encode(s) == s
  {
    if s != "" { EncodePlain(s[1..]); }
  }

  lemma CellTextEncodes(c: Cell)
    requires CellOk(c)
    ensures CellText(c) == Encode(CellPlain(c))
  {
    if !c.StrCell? { EncodePlain(CellPlain(c)); }
  }

  lemma EntityReads(s: string, i: nat, c: char)
    requires |Entity(c)| > 1 && At(s, i, Entity(c)) && s[i] == '&'
    ensures EntityAt(s, i) == (c, |Entity(c)|)
  {
    var e := Entity(c);
    assert e[1] == s[i + 1] && e[2] == s[i + 2];
    assert At(s, i, "&amp;") ==> s[i + 1] == "&amp;"[1] && s[i + 2] == "&amp;"[2];
    assert At(s, i, "&gt;") ==> s[i + 1] == "&gt;"[1];
    assert At(s, i, "&lt;") ==> s[i + 1] == "&lt;"[1];
    assert At(s, i, "&apos;") ==> s[i + 1] == "&apos;"[1] && s[i + 2] == "&apos;"[2];
  }

  lemma QuoteReads(s: string, i: nat)
    requires i < |s| && s[i] == '\''
    ensures ReadValue(s, i, '\'') == Some(("", i + 1))
  {
  }

  lemma OneCharReads(s: string, i: nat, c: char, j: nat, v: string)
    requires At(s, i, Entity(c)) && ReadValue(s, i + |Entity(c)|, '\'') == Some((v, j))
    ensures ReadValue(s, i, '\'') == Some(([if IsWs(c) then ' ' else c] + v, j))
  {
    hide EntityAt;
    var e := Entity(c);
    assert s[i + 0] == e[0];
    if |e| > 1 { EntityReads(s, i, c); }
  }

  /** Reading a quoted, escaped text gives the text back (up to white space normalisation). */
  lemma {:induction false} ValueReads(s: string, i: nat, v: string)
    requires At(s, i, Encode(v)) && i + |Encode(v)| < |s| && s[i + |Encode(v)|] == '\''
    ensures ReadValue(s, i, '\'') == Some((Normal(v), i + |Encode(v)| + 1))
    decreases |v|
  {
    hide EntityAt, Entity, ReadValue, At;
    if v == "" {
      QuoteReads(s, i);
    } else {
      AtAppend(s, i, Entity(v[0]), Encode(v[1..]));
      ValueReads(s, i + |Entity(v[0])|, v[1..]);
      OneCharReads(s, i, v[0], i + |Encode(v)| + 1, Normal(v[1..]));
    }
  }

  lemma NameEndIs(s: string, i: nat, n: string)
    requires At(s, i, n) && i + |n| < |s| && !IsNameChar(s[i + |n|])
    requires forall k :: 0 <= k < |n| ==> IsNameChar(n[k])
    ensures NameEnd(s, i) == i + |n|
    decreases |n|
  {
    if n != "" {
      assert s[i + 0] == n[0];
      assert n == [n[0]] + n[1..];
      AtAppend(s, i, [n[0]], n[1..]);
      NameEndIs(s, i + 1, n[1..]);
    }
  }

  lemma SkipWsOne(s: string, i: nat)
    requires i + 1 < |s| && IsWs(s[i]) && !IsWs(s[i + 1])
    ensures SkipWs(s, i) == i + 1
  {
    assert SkipWs(s, i + 1) == i + 1;
  }

  lemma AttrReads(s: string, a: nat, name: string, v: string, e: nat)
    requires NameOk(name) && At(s, a, AttrText(name, v)) && e == a + |AttrText(name, v)|
    ensures ReadAttr(s, a) == Some((Attr(name, Normal(v)), e))
  {
    hide ReadValue, EntityAt, Encode;
    var eq := " = '";
    var b := a + |name|;
    AtAppend(s, a, name + eq + Encode(v), "'");
    AtAppend(s, a, name + eq, Encode(v));
    AtAppend(s, a, name, eq);
    assert s[b + 0] == eq[0] && s[b + 1] == eq[1] && s[b + 2] == eq[2] && s[b + 3] == eq[3];
    var q := "'";
    assert s[b + 4 + |Encode(v)| + 0] == q[0];
    NameEndIs(s, a, name);
    SkipWsOne(s, b);
    SkipWsOne(s, b + 2);
    ValueReads(s, b + 4, v);
    assert s[a..b] == name;
  }

  function AttrText(name: string, v: string): string {
    name + " = '" + Encode(v) + "'"
  }

  /** The attribute list of a row text, with the blank that stands before each attribute. */
  function ListText(cols: seq<Column>, upd: bool, prev: Record): string {
    " " + ColsText(cols, upd, prev) + "/>"
  }

  /** The first attribute of a row text and what follows it, which has the same form. */
  lemma ColsSplit(cols: seq<Column>, upd: bool, prev: Record, x: string)
    requires ColsOk(cols) && cols != [] && x == AttrText(cols[0].name, ColPlain(cols[0], upd, prev))
    ensures ListText(cols, upd, prev) == "  " + x + ListText(cols[1..], upd, prev)
  {
    hide Encode, ColText, ColPlain;
    ColTextEncodes(cols[0], upd, prev);
    Regroup(" ", " ", x, " ", ColsText(cols[1..], upd, prev), "/>");
    assert " " + " " == "  ";
  }

  lemma RowAttrsCons(cols: seq<Column>, upd: bool, prev: Record)
    requires cols != []
    ensures RowAttrs(cols, upd, prev) ==
            [Attr(cols[0].name, Normal(ColPlain(cols[0], upd, prev)))] + RowAttrs(cols[1..], upd, prev)
  {
  }

  /** One attribute and the others. */
  lemma ReadsOn(s: string, i: nat, x: Attr, e: nat, rest: TagRest)
    requires SkipWs(s, i) < |s| && s[SkipWs(s, i)] !in {'>', '/'}
    requires ReadAttr(s, SkipWs(s, i)) == Some((x, e)) && ReadAttrs(s, e) == Some(rest)
    ensures ReadAttrs(s, i) == Some(TagRest([x] + rest.attrs, rest.empty, rest.end))
  {
    hide SkipWs, ReadAttr;
  }

  lemma {:induction false} AttrsRead(s: string, i: nat, cols: seq<Column>, upd: bool, prev: Record, end: nat)
    requires ColsOk(cols) && At(s, i, ListText(cols, upd, prev)) && end == i + |ListText(cols, upd, prev)|
    ensures ReadAttrs(s, i) == Some(TagRest(RowAttrs(cols, upd, prev), true, end))
    decreases |cols|
  {
    hide ReadAttr, At, RowAttrs, ColPlain, AttrText;
    if cols == [] {
      EmptyEndReads(s, i);
      NoRowAttrs(upd, prev);
    } else {
      hide ListText, ReadAttrs, SkipWs;
      var v := ColPlain(cols[0], upd, prev);
      var x := AttrText(cols[0].name, v);
      var tail := ListText(cols[1..], upd, prev);
      ColsSplit(cols, upd, prev, x);
      AtAppend(s, i, "  " + x, tail);
      AtAppend(s, i, "  ", x);
      var e := i + 2 + |x|;
      AttrReads(s, i + 2, cols[0].name, v, e);
      AttrsRead(s, e, cols[1..], upd, prev, end);
      FirstAttr(s, i, cols[0].name, v, x);
      ReadsOn(s, i, Attr(cols[0].name, Normal(v)), e, TagRest(RowAttrs(cols[1..], upd, prev), true, end));
      RowAttrsCons(cols, upd, prev);
    }
  }

  lemma NoRowAttrs(upd: bool, prev: Record)
    ensures RowAttrs([], upd, prev) == []
  {
  }

  lemma EmptyEndReads(s: string, i: nat)
    requires At(s, i, " " + "" + "/>")
    ensures ReadAttrs(s, i) == Some(TagRest([], true, i + 3))
  {
    var t := " " + "" + "/>";
    assert s[i + 0] == t[0] && s[i + 1] == t[1] && s[i + 2] == t[2];
    SkipWsOne(s, i);
  }

  lemma ColTextEncodes(c: Column, upd: bool, prev: Record)
    requires CellOk(c.cell)
    ensures ColText(c, upd, prev) == Encode(ColPlain(c, upd, prev))
  {
    CellTextEncodes(c.cell);
  }

  lemma FirstAttr(s: string, i: nat, name: string, v: string, x: string)
    requires At(s, i, "  ") && NameOk(name) && x == AttrText(name, v) && At(s, i + 2, x)
    ensures SkipWs(s, i) == i + 2 && i + 2 < |s| && IsNameChar(s[i + 2])
  {
    hide Encode;
    var t := "  ";
    assert s[i + 0] == t[0] && s[i + 1] == t[1];
    assert s[i + 2 + 0] == x[0] == name[0];
    SkipWsOne(s, i + 1);
  }

  /** makeRow's text is one well-formed row element whose attributes are the columns. */
  lemma RowReads(cols: seq<Column>, upd: bool, prev: Record, t: string)
    requires ColsOk(cols) && t == RowText(cols, upd, prev)
    ensures ReadNode(t, 0) == Some((Row("row", RowAttrs(cols, upd, prev), |t|, 0), |t|))
  {
    hide ReadAttrs, ColsText, At, RowAttrs;
    var rest := " " + ColsText(cols, upd, prev) + "/>";
    assert t == "<row" + rest;
    AtSelf(t);
    AtAppend(t, 0, "<row", rest);
    AttrsRead(t, 4, cols, upd, prev, |t|);
    RowTagReads(t, rest, RowAttrs(cols, upd, prev));
  }

  lemma RowTagReads(t: string, rest: string, attrs: seq<Attr>)
    requires t == "<row" + rest && |rest| > 0 && rest[0] == ' '
    requires ReadAttrs(t, 4) == Some(TagRest(attrs, true, |t|))
    ensures ReadNode(t, 0) == Some((Row("row", attrs, |t|, 0), |t|))
  {
    hide ReadAttrs, ReadRowBody, EqNoCase, MiscEnd, ReadClose;
    RowNameReads(t, rest);
    assert ReadMarkup(t, 0) == Some((Empty("row", attrs), |t|));
    EqNoCaseSelf("row");
  }

  lemma EqNoCaseSelf(s: string)
    ensures EqNoCase(s, s)
  {
  }

  lemma AtSelf(t: string)
    ensures At(t, 0, t)
  {
  }

  lemma RowNameReads(t: string, rest: string)
    requires t == "<row" + rest && |rest| > 0 && rest[0] == ' '
    ensures NameEnd(t, 1) == 4 && t[1..4] == "row" && t[0] == '<' && t[1] == 'r'
  {
    var n := "<row";
    assert t[0] == n[0] && t[1] == n[1] && t[2] == n[2] && t[3] == n[3] && t[4] == rest[0];
    assert NameEnd(t, 4) == 4 && NameEnd(t, 3) == 4 && NameEnd(t, 2) == 4;
    assert t[1..4] == "row";
  }
}
