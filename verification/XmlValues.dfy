/** Column values: what was stored comes back, and an update leaves unmarked columns alone. */
module XmlValues {
  import opened Text
  import opened XmlReader
  import opened XmlDoc
  import opened XmlTable
  import opened XmlPass
  import opened XmlEdit
  import opened XmlInsert
  import opened XmlRefine
  import opened XmlRows
  import opened XmlRuns

  /** No character that XML attribute normalisation changes. */
  predicate Clean(s: string) {
    forall k :: 0 <= k < |s| ==> s[k] !in {'\t', '\n', '\r'}
  }

  predicate CleanCell(c: Cell) {
    CellOk(c) && (c.StrCell? ==> Clean(c.s))
  }

  /** Names are told apart without regard to case, as xdb_compareRow does. */
  ghost predicate TableOk(d: DbTable) {
    ColsOk(d.cols) &&
    (forall k :: 0 <= k < |d.cols| ==> CleanCell(d.cols[k].cell)) &&
    (forall j, k :: 0 <= j < k < |d.cols| ==> !EqNoCase(d.cols[j].name, d.cols[k].name))
  }

  /** db_get's conversion of one field; iso2time is left as its argument. */
  function ReadCell(c: Cell, v: string): Cell {
    match c
    case BoolCell(_) => BoolCell(v != "" && v[0] == 't')
    case IntCell(_) => IntCell(Atoi(v))
    case StrCell(_) => StrCell(v)
    case DateCell(_) => DateCell(v)
    case OtherCell => c
  }

  lemma PlainClean(c: Cell)
    requires CleanCell(c)
    ensures Clean(CellPlain(c))
  {
  }

  /** Reading the text of a value gives the value. */
  lemma CellReads(c: Cell)
    requires CleanCell(c)
    ensures ReadCell(c, Normal(CellPlain(c))) == c
  {
    PlainClean(c);
    NormalPlain(CellPlain(c));
    if c.IntCell? { AtoiToString(c.i); }
  }

  lemma BoolTexts()
    ensures EqNoCase("true", "true") && !EqNoCase("false", "true")
  {
    assert |Lower("true")| == 4 && |Lower("false")| == 5;
  }

  /** When a value counts as the requested one: the same, for strings without regard to case. */
  predicate SameValue(c: Cell, e: Cell) {
    match c
    case StrCell(s) => e.StrCell? && EqNoCase(e.s, s)
    case OtherCell => true
    case _ => c == e
  }

  datatype CellType = Bool | Int | Str | Date | Other

  function TypeOf(c: Cell): CellType {
    match c case BoolCell(_) => Bool case IntCell(_) => Int case StrCell(_) => Str case DateCell(_) => Date
    case OtherCell => Other
  }

  lemma LowerDate(iso: string)
    requires CellOk(DateCell(iso))
    ensures Lower(iso) == iso
  {
  }

  /** The stored text of a value is accepted by a request for another of its type exactly when they are the same. */
  lemma CellMatchesIff(c: Cell, e: Cell)
    requires CleanCell(c) && CleanCell(e) && TypeOf(c) == TypeOf(e)
    ensures CellMatches(c, Normal(CellPlain(e))) <==> SameValue(c, e)
  {
    PlainClean(e);
    NormalPlain(CellPlain(e));
    BoolTexts();
    match c
    case IntCell(i) => AtoiToString(e.i);
    case DateCell(iso) =>
      LowerDate(iso);
      LowerDate(e.iso);
    case _ =>
  }

  lemma SameSelf(c: Cell)
    ensures SameValue(c, c)
  {
  }

  lemma RowMatchesSelf(d: DbTable)
    requires TableOk(d)
    ensures RowMatches(d.cols, RowAttrs(d.cols, false, map[]))
  {
    hide EqNoCase, CellMatches, Normal, CellPlain, CleanCell, NameOk;
    var attrs := RowAttrs(d.cols, false, map[]);
    forall i, k | 0 <= i < |d.cols| && d.cols[i].request && 0 <= k < |attrs| && EqNoCase(attrs[k].name, d.cols[i].name)
      ensures CellMatches(d.cols[i].cell, attrs[k].value)
    {
      if k > i { EqNoCaseFlip(attrs[k].name, d.cols[i].name); }
      assert k == i;
      CellMatchesIff(d.cols[i].cell, d.cols[i].cell);
      SameSelf(d.cols[i].cell);
    }
  }

  lemma EqNoCaseFlip(a: string, b: string)
    requires EqNoCase(a, b)
    ensures EqNoCase(b, a)
  {
  }

  /** The record of a row has the attribute's value under every name that occurs once. */
  lemma {:induction false} RecordField(attrs: seq<Attr>, k: nat)
    requires k < |attrs| && forall j :: 0 <= j < |attrs| && j != k ==> attrs[j].name != attrs[k].name
    ensures attrs[k].name in RecordOf(attrs) && RecordOf(attrs)[attrs[k].name] == attrs[k].value
    decreases |attrs|
  {
    if k > 0 {
      assert attrs[0].name != attrs[k].name;
      forall j | 0 <= j < |attrs[1..]| && j != k - 1 ensures attrs[1..][j].name != attrs[1..][k - 1].name {
        assert attrs[1..][j] == attrs[j + 1];
      }
      RecordField(attrs[1..], k - 1);
    }
  }

  lemma RowField(cols: seq<Column>, upd: bool, prev: Record, k: nat)
    requires k < |cols| && forall i, j :: 0 <= i < j < |cols| ==> !EqNoCase(cols[i].name, cols[j].name)
    ensures Field(RecordOf(RowAttrs(cols, upd, prev)), cols[k].name) == Normal(ColPlain(cols[k], upd, prev))
  {
    hide EqNoCase, ColPlain, Normal, RecordOf;
    var attrs := RowAttrs(cols, upd, prev);
    forall j | 0 <= j < |attrs| && j != k ensures attrs[j].name != attrs[k].name {
      if attrs[j].name == attrs[k].name { EqNoCaseSelf(attrs[k].name); }
    }
    RecordField(attrs, k);
  }

  /** add, then select with any of the row's own values as the request: the row is number 0 of the results. */
  lemma {:induction false} AddedIsFirst(tabs: seq<Tab>, d: DbTable, t: nat)
    requires TableOk(d) && t < |tabs| && EqNoCase(tabs[t].title, d.name) && Unique(tabs)
    ensures var found := Found(Apply(tabs, Add(d)), d);
            found != [] && found[0] == RowAttrs(d.cols, false, map[])
    decreases t
  {
    hide EqNoCase, RowAttrs, RowMatches, TableOk, Pick;
    var op := Add(d);
    assert tabs == [tabs[0]] + tabs[1..];
    OnTabsCons(tabs[0], tabs[1..], op);
    FoundCons(OnTab(tabs[0], op), OnTabs(tabs[1..], op), d);
    if t == 0 {
      RowMatchesSelf(d);
      PickCons(RowAttrs(d.cols, false, map[]), tabs[0].rows, d);
    } else {
      if EqNoCase(tabs[0].title, d.name) {
        EqNoCaseSym(tabs[0].title, d.name, tabs[t].title);
        EqNoCaseFlip(tabs[t].title, tabs[0].title);
      }
      forall j, k | 0 <= j < k < |tabs[1..]| ensures !EqNoCase(tabs[1..][j].title, tabs[1..][k].title) {
        assert tabs[1..][j] == tabs[j + 1] && tabs[1..][k] == tabs[k + 1];
      }
      AddedIsFirst(tabs[1..], d, t - 1);
    }
  }

  /** The whole way: db_add on the text, then db_query on the text, then db_get(0) yields the stored values. */
  lemma AddQueryGet(s: string, doc: Doc, d: DbTable, t: nat, k: nat)
    requires Scan(s) == Some(doc) && Inv(doc) && TableOk(d) && k < |d.cols|
    requires t < |Tables(doc.nodes)| && EqNoCase(Tables(doc.nodes)[t].title, d.name)
    ensures var added := RunAction(s, InsertRow, d).value;
            !added.failed && RunAction(added.buff, SelectRow, d).Some? &&
            var res := RunAction(added.buff, SelectRow, d).value.res;
            0 in res && ReadCell(d.cols[k].cell, Field(res[0], d.cols[k].name)) == d.cols[k].cell
  {
    hide Scan, RunAction, Tables, Inv, NextNodes, EqNoCase, RecordOf, RowAttrs, Found, Apply, ReadCell, Normal;
    OpRefines(s, doc, Add(d));
    var added := RunAction(s, InsertRow, d).value;
    var doc' := Doc(doc.head, NextNodes(doc, s, Add(d)));
    OpRefines(added.buff, doc', Query(d));
    InvUnique(doc);
    AddedIsFirst(Tables(doc.nodes), d, t);
    RowField(d.cols, false, map[], k);
    CellReads(d.cols[k].cell);
  }

  lemma InvUnique(doc: Doc)
    requires Inv(doc)
    ensures Unique(Tables(doc.nodes))
  {
  }

  // ----- update

  lemma {:induction false} ReadValueClean(s: string, i: nat, q: char)
    requires ReadValue(s, i, q).Some?
    ensures Clean(ReadValue(s, i, q).value.0)
    decreases |s| - i
  {
    hide EntityAt;
    if s[i] != q {
      var n := if s[i] == '&' then EntityAt(s, i).1 else 1;
      ReadValueClean(s, i + n, q);
    }
  }

  ghost predicate CleanAttrs(attrs: seq<Attr>) {
    forall k :: 0 <= k < |attrs| ==> Clean(attrs[k].value)
  }

  lemma {:induction false} ReadAttrsClean(s: string, i: nat)
    requires ReadAttrs(s, i).Some?
    ensures CleanAttrs(ReadAttrs(s, i).value.attrs)
    decreases |s| - i
  {
    hide ReadAttr, Clean;
    var a := SkipWs(s, i);
    if s[a] != '>' && s[a] != '/' {
      var (x, e) := ReadAttr(s, a).value;
      ReadAttrClean(s, a);
      ReadAttrsClean(s, e);
    }
  }

  lemma ReadAttrClean(s: string, a: nat)
    requires ReadAttr(s, a).Some?
    ensures Clean(ReadAttr(s, a).value.0.value)
  {
    hide ReadValue, Clean;
    var d := SkipWs(s, SkipWs(s, NameEnd(s, a)) + 1);
    ReadValueClean(s, d + 1, s[d]);
  }

  /** Attribute values of a parsed row contain no tabs or line breaks. */
  lemma ParsedRowClean(n: Node)
    requires NodeOk(n) && n.kind.Row?
    ensures CleanAttrs(n.kind.attrs)
  {
    hide ReadAttrs, ReadRowBody, MiscEnd, EqNoCase, CleanAttrs;
    ReadAttrsClean(n.raw, NameEnd(n.raw, 1));
  }

  lemma {:induction false} RecordClean(attrs: seq<Attr>, name: string)
    requires CleanAttrs(attrs)
    ensures Clean(Field(RecordOf(attrs), name))
    decreases |attrs|
  {
    hide Clean;
    if attrs == [] {
      assert Clean("") by { EmptyClean(); }
    } else {
      assert Clean(attrs[0].value);
      assert forall k :: 0 <= k < |attrs[1..]| ==> attrs[1..][k] == attrs[k + 1];
      RecordClean(attrs[1..], name);
    }
  }

  lemma EmptyClean()
    ensures Clean("")
  {
  }

  /** A rewritten row: unmarked columns keep the old row's value ("" if it had none), marked ones get the new value. */
  lemma UpdatedRow(n: Node, d: DbTable, k: nat)
    requires NodeOk(n) && n.kind.Row? && TableOk(d) && k < |d.cols|
    ensures var now := RecordOf(UpdNode(n, d).kind.attrs);
            Field(now, d.cols[k].name) ==
            if d.cols[k].update then CellPlain(d.cols[k].cell) else Field(RecordOf(n.kind.attrs), d.cols[k].name)
  {
    hide NodeOk, RecordOf, EqNoCase, CleanCell, Clean, RowText, RowAttrs;
    var prev := RecordOf(n.kind.attrs);
    RowField(d.cols, true, prev, k);
    ParsedRowClean(n);
    RecordClean(n.kind.attrs, d.cols[k].name);
    PlainClean(d.cols[k].cell);
    NormalClean(ColPlain(d.cols[k], true, prev));
  }

  lemma NormalClean(s: string)
    requires Clean(s)
    ensures Normal(s) == s
  {
    NormalPlain(s);
  }

  // ----- the whitespace that deletion relies on

  /** In a file without rows, the row just added can be deleted cleanly exactly when the table tag it was put
      behind is followed by a blank, tab or line break: being row-free is not enough. */
  lemma {:induction false} FirstRowSpaced(nodes: seq<Node>, off: nat, orig: string, d: DbTable, skip: bool, k: nat)
    requires TableOk(d) && k < |nodes| && Names(nodes[k], d.name)
    requires forall j :: 0 <= j < |nodes| ==> !nodes[j].kind.Row?
    requires forall j :: 0 <= j < |nodes| && j != k ==> !Names(nodes[j], d.name)
    ensures Spaced(AddNodes(nodes, off, orig, d), skip, d) <==> nodes[k].tail != "" && nodes[k].tail[0] in SPACES
    decreases |nodes|
  {
    hide IsTable, Title, EqNoCase, RowText, RowAttrs, ColumnOf, RowMatches, TableOk, NodeSkip;
    var n, rest := nodes[0], nodes[1..];
    if k == 0 {
      var t := n.(tail := "\n" + Spaces(ColumnOf(orig, off) + 3));
      var r := NewRow(d, n.tail);
      assert AddNodes(nodes, off, orig, d) == [t] + ([r] + rest);
      assert ([t] + ([r] + rest))[1..] == [r] + rest && ([r] + rest)[1..] == rest;
      NamedSkip(t, n, skip, d.name);
      RowMatchesSelf(d);
      RowlessSpaced(rest, NodeSkip(r, false, d.name), d);
    } else {
      var more := AddNodes(rest, off + |NodeText(n)|, orig, d);
      assert !Names(nodes[0], d.name);
      assert forall j :: 0 <= j < |rest| ==> rest[j] == nodes[j + 1];
      FirstRowSpaced(rest, off + |NodeText(n)|, orig, d, NodeSkip(n, skip, d.name), k - 1);
      assert ([n] + more)[1..] == more && ([n] + more)[0] == n;
    }
  }

  lemma NamedSkip(t: Node, n: Node, skip: bool, name: string)
    requires t.kind == n.kind && Names(n, name)
    ensures NodeSkip(t, skip, name) == false && !t.kind.Row?
  {
  }

  lemma RowlessSpaced(nodes: seq<Node>, skip: bool, d: DbTable)
    requires forall j :: 0 <= j < |nodes| ==> !nodes[j].kind.Row?
    ensures Spaced(nodes, skip, d)
    decreases |nodes|
  {
    hide NodeSkip, RowMatches;
    if nodes != [] { RowlessSpaced(nodes[1..], NodeSkip(nodes[0], skip, d.name), d); }
  }
}
