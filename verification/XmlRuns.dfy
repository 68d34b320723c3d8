/** Whole runs of create, add, update, delete and select over one file. */
module XmlRuns {
  import opened Text
  import opened XmlReader
  import opened XmlDoc
  import opened XmlTable
  import opened XmlPass
  import opened XmlEdit
  import opened XmlRefine
  import opened XmlInsert
  import opened XmlRows
  import T = XmlTrim

  /** Blanks and then a line break. */
  predicate BlankLine(t: string) {
    t != "" && (t[0] == '\n' || (t[0] in BLANKS && BlankLine(t[1..])))
  }

  /** Every table tag and every row is followed by blanks and then a line break. */
  ghost predicate LineEnded(nodes: seq<Node>) {
    forall k :: 0 <= k < |nodes| && (IsTable(nodes[k]) || nodes[k].kind.Row?) ==> BlankLine(nodes[k].tail)
  }

  lemma LineEndedSpaced(nodes: seq<Node>, skip: bool, d: DbTable)
    requires LineEnded(nodes)
    ensures Spaced(nodes, skip, d)
    decreases |nodes|
  {
    hide RowMatches, NodeSkip, IsTable;
    if nodes != [] {
      assert BlankLine(nodes[0].tail) ==> nodes[0].tail[0] in SPACES;
      LineEndedSpaced(nodes[1..], NodeSkip(nodes[0], skip, d.name), d);
    }
  }

  lemma BlankLineDrop(t: string)
    requires BlankLine(t)
    ensures DropBlanks(t) != "" && DropBlanks(t)[0] == '\n'
  {
  }

  lemma BlankLineMore(t: string, x: string)
    requires BlankLine(t)
    ensures BlankLine(t + x)
  {
    if t[0] != '\n' {
      assert (t + x)[1..] == t[1..] + x;
      BlankLineMore(t[1..], x);
    }
  }

  /** A prefix that reaches a character which is no white space contains the line break. */
  lemma BlankLinePrefix(t: string, n: nat)
    requires BlankLine(t) && 0 < n <= |t| && t[n - 1] !in SPACES
    ensures BlankLine(t[..n])
  {
    if t[0] != '\n' {
      assert t[..n][1..] == t[1..][..n - 1];
      BlankLinePrefix(t[1..], n - 1);
    }
  }

  /** The unit before a removed row stays followed by blanks and a line break. */
  lemma AbsorbBlankLine(n: Node, tail: string)
    requires BlankLine(n.tail) && BlankLine(tail)
    ensures BlankLine(Absorb(n, tail).tail)
  {
    hide TrimEnd, DropBlanks;
    var r, x := TrimEnd(n.tail), DropBlanks(tail);
    BlankLineDrop(tail);
    if r == "" {
      assert r + x == x;
    } else {
      BlankLinePrefix(n.tail, |r|);
      BlankLineMore(r, x);
    }
  }

  lemma LineEndedSnoc(a: seq<Node>, n: Node)
    requires LineEnded(a) && (IsTable(n) || n.kind.Row? ==> BlankLine(n.tail))
    ensures LineEnded(a + [n])
  {
    hide IsTable, BlankLine;
  }

  lemma {:induction false} DelLineEnded(done: seq<Node>, rest: seq<Node>, skip: bool, d: DbTable)
    requires LineEnded(done) && LineEnded(rest)
    ensures LineEnded(DelNodes(done, rest, skip, d))
    decreases |rest|
  {
    hide IsTable, BlankLine, Hit, NodeSkip, Absorb;
    if rest != [] {
      var n := rest[0];
      if Hit(n, skip, d) && done != [] {
        HitIsRow(n, skip, d);
        var front, last := done[..|done| - 1], done[|done| - 1];
        if BlankLine(last.tail) { AbsorbBlankLine(last, n.tail); }
        AbsorbKind(last, n.tail);
        LineEndedSnoc(front, Absorb(last, n.tail));
        DelLineEnded(front + [Absorb(last, n.tail)], rest[1..], skip, d);
      } else {
        LineEndedSnoc(done, n);
        DelLineEnded(done + [n], rest[1..], NodeSkip(n, skip, d.name), d);
      }
    }
  }

  lemma AbsorbKind(n: Node, tail: string)
    ensures Absorb(n, tail).kind == n.kind && IsTable(Absorb(n, tail)) == IsTable(n)
  {
  }

  lemma LineEndedCons(n: Node, a: seq<Node>)
    requires LineEnded(a) && (IsTable(n) || n.kind.Row? ==> BlankLine(n.tail))
    ensures LineEnded([n] + a)
  {
    hide IsTable, BlankLine;
  }

  lemma {:induction false} UpdLineEnded(nodes: seq<Node>, skip: bool, d: DbTable)
    requires LineEnded(nodes)
    ensures LineEnded(UpdNodes(nodes, skip, d))
    decreases |nodes|
  {
    hide IsTable, BlankLine, Hit, NodeSkip, UpdNode;
    if nodes != [] {
      var n, rest := nodes[0], nodes[1..];
      var up := UpdNodes(rest, NodeSkip(n, skip, d.name), d);
      UpdLineEnded(rest, NodeSkip(n, skip, d.name), d);
      if Hit(n, skip, d) {
        HitIsRow(n, skip, d);
        UpdTail(n, d);
        LineEndedCons(UpdNode(n, d), up);
      } else {
        LineEndedCons(n, up);
      }
    }
  }

  lemma UpdTail(n: Node, d: DbTable)
    requires n.kind.Row?
    ensures UpdNode(n, d).tail == n.tail
  {
  }

  lemma {:induction false} AddLineEnded(nodes: seq<Node>, off: nat, orig: string, d: DbTable)
    requires LineEnded(nodes)
    ensures LineEnded(AddNodes(nodes, off, orig, d))
    decreases |nodes|
  {
    hide IsTable, BlankLine, RowText, RowAttrs, ColumnOf, Title;
    if nodes != [] {
      var n, rest := nodes[0], nodes[1..];
      if Names(n, d.name) {
        var nl := "\n" + Spaces(ColumnOf(orig, off) + 3);
        NewLineBlank(nl);
        LineEndedCons(NewRow(d, n.tail), rest);
        LineEndedCons(n.(tail := nl), [NewRow(d, n.tail)] + rest);
        assert [n.(tail := nl), NewRow(d, n.tail)] + rest == [n.(tail := nl)] + ([NewRow(d, n.tail)] + rest);
      } else {
        AddLineEnded(rest, off + |NodeText(n)|, orig, d);
        LineEndedCons(n, AddNodes(rest, off + |NodeText(n)|, orig, d));
      }
    }
  }

  lemma NewLineBlank(t: string)
    requires t != "" && t[0] == '\n'
    ensures BlankLine(t)
  {
  }

  lemma SpacesBlank(n: nat, t: string)
    requires BlankLine(t)
    ensures BlankLine(Spaces(n) + t)
    decreases n
  {
    if n == 0 {
      assert Spaces(n) + t == t;
    } else {
      assert (Spaces(n) + t)[1..] == Spaces(n - 1) + t;
      SpacesBlank(n - 1, t);
    }
  }

  lemma GapBlank(col: nat)
    ensures BlankLine(TableGap(col))
  {
    var x := "\n" + Spaces(col + 3) + " ";
    NewLineBlank(x);
    SpacesBlank(15, x);
    assert TableGap(col) == Spaces(15) + x;
  }

  lemma {:induction false} CreateLineEnded(nodes: seq<Node>, off: nat, orig: string, name: string)
    requires LineEnded(nodes)
    ensures LineEnded(CreateNodes(nodes, off, orig, name))
    decreases |nodes|
  {
    hide IsTable, BlankLine, TableTag, TableGap, ColumnOf, IsDatabase;
    if nodes != [] {
      var n, rest := nodes[0], nodes[1..];
      if IsDatabase(n) {
        var col := ColumnOf(orig, off);
        var b := n.(tail := "\n" + Spaces(col + 3) + " ");
        var t, c := NewTable(name, col), NewClose(n.tail);
        DatabaseIsNotTable(n);
        DatabaseIsNoRow(n);
        SameTable(n, b);
        GapBlank(col);
        NewCloseIs(n.tail);
        LineEndedCons(c, rest);
        LineEndedCons(t, [c] + rest);
        LineEndedCons(b, [t] + ([c] + rest));
        assert [b, t, c] + rest == [b] + ([t] + ([c] + rest));
      } else {
        CreateLineEnded(rest, off + |NodeText(n)|, orig, name);
        LineEndedCons(n, CreateNodes(rest, off + |NodeText(n)|, orig, name));
      }
    }
  }

  lemma DatabaseIsNoRow(n: Node)
    requires IsDatabase(n)
    ensures !n.kind.Row?
  {
  }

  // ----- table names stay unique

  lemma OnTabsTitles(tabs: seq<Tab>, op: Op)
    ensures |OnTabs(tabs, op)| == |tabs|
    ensures forall k :: 0 <= k < |tabs| ==> OnTabs(tabs, op)[k].title == tabs[k].title
  {
    hide EqNoCase, Change, XmlRows.Keep;
    if tabs != [] { OnTabsTitles(tabs[1..], op); }
  }

  lemma NamedHasTab(nodes: seq<Node>, k: nat)
    requires k < |nodes| && IsTable(nodes[k])
    ensures exists i :: 0 <= i < |Tables(nodes)| && Tables(nodes)[i].title == Title(nodes[k])
  {
    hide IsTable, Title, RowsOf, Tables;
    assert nodes == [nodes[0]] + nodes[1..];
    TableCons(nodes[0], nodes[1..]);
    if k == 0 {
      assert Tables(nodes)[0].title == Title(nodes[0]);
    } else {
      NamedHasTab(nodes[1..], k - 1);
      var i :| 0 <= i < |Tables(nodes[1..])| && Tables(nodes[1..])[i].title == Title(nodes[k]);
      var j := if IsTable(nodes[0]) then i + 1 else i;
      assert Tables(nodes)[j] == Tables(nodes[1..])[i];
    }
  }

  lemma {:induction false} UniqueNames(nodes: seq<Node>, name: string, j: nat, k: nat)
    requires Unique(Tables(nodes)) && j < k < |nodes|
    ensures !(Names(nodes[j], name) && Names(nodes[k], name))
    decreases |nodes|
  {
    hide IsTable, Title, RowsOf, Tables, EqNoCase;
    var n, rest := nodes[0], nodes[1..];
    assert nodes == [n] + rest;
    TableCons(n, rest);
    if IsTable(n) { assert forall i :: 0 <= i < |Tables(rest)| ==> Tables(rest)[i] == Tables(nodes)[i + 1]; }
    if j > 0 {
      UniqueNames(rest, name, j - 1, k - 1);
    } else if Names(n, name) && Names(nodes[k], name) {
      NamedHasTab(rest, k - 1);
      var i :| 0 <= i < |Tables(rest)| && Tables(rest)[i].title == Title(nodes[k]);
      assert Tables(nodes)[i + 1] == Tables(rest)[i] && Tables(nodes)[0].title == Title(n);
      EqNoCaseSym(Title(nodes[k]), name, Title(n));
    }
  }

  lemma UniqueOnTabs(tabs: seq<Tab>, op: Op)
    requires Unique(tabs)
    ensures Unique(OnTabs(tabs, op))
  {
    hide EqNoCase, OnTabs;
    OnTabsTitles(tabs, op);
  }

  lemma UniqueCreate(tabs: seq<Tab>, name: string)
    requires Unique(tabs) && forall k :: 0 <= k < |tabs| ==> !EqNoCase(name, tabs[k].title)
    ensures Unique([Tab(name, [])] + tabs)
  {
    hide EqNoCase;
  }

  // ----- one operation

  /** The files the driver keeps: parsed, in the driver's grammar, table names unique, lines ended. */
  ghost predicate Inv(doc: Doc) {
    Wf(doc) && Shape(doc.nodes, Prolog) && LineEnded(doc.nodes) && Unique(Tables(doc.nodes))
  }

  /** What a caller must see to: column names are XML names, and a table is created once, under a plain name. */
  ghost predicate OpOk(tabs: seq<Tab>, op: Op) {
    match op
    case Create(d) => TitleOk(d.name) && forall k :: 0 <= k < |tabs| ==> !EqNoCase(d.name, tabs[k].title)
    case Add(d) => ColsOk(d.cols)
    case Update(d) => ColsOk(d.cols)
    case _ => true
  }

  function NextNodes(doc: Doc, s: string, op: Op): seq<Node> {
    match op
    case Create(d) => CreateNodes(doc.nodes, |doc.head|, s, d.name)
    case Add(d) => AddNodes(doc.nodes, |doc.head|, s, d)
    case Update(d) => UpdNodes(doc.nodes, false, d)
    case Delete(d) => DelNodes([], doc.nodes, false, d)
    case Query(_) => doc.nodes
  }

  /** The document list operation keeps the invariant and is the operation on rows. */
  lemma NextInv(doc: Doc, s: string, op: Op)
    requires Inv(doc) && OpOk(Tables(doc.nodes), op)
    ensures var nodes := NextNodes(doc, s, op);
            Shape(nodes, Prolog) && LineEnded(nodes) && Unique(Tables(nodes)) &&
            Tables(nodes) == Apply(Tables(doc.nodes), op)
  {
    hide NodeOk, AllOk, Tables, LineEnded, Shape, TitleOk, ColsOk, EqNoCase, OnTabs, Unique;
    var nodes := doc.nodes;
    match op
    case Create(d) =>
      CreateRefines(nodes, |doc.head|, s, d);
      CreateLineEnded(nodes, |doc.head|, s, d.name);
      UniqueCreate(Tables(nodes), d.name);
    case Add(d) =>
      AddShape(nodes, |doc.head|, s, d, Prolog);
      AddTables(nodes, |doc.head|, s, d, Prolog);
      AddLineEnded(nodes, |doc.head|, s, d);
      UniqueOnTabs(Tables(nodes), op);
    case Update(d) =>
      UpdShape(nodes, false, d, Prolog);
      UpdTables(nodes, false, d, Prolog);
      UpdLineEnded(nodes, false, d);
      UniqueOnTabs(Tables(nodes), op);
    case Delete(d) =>
      DelNodesRefine(nodes, d);
      LineEndedNone();
      DelLineEnded([], nodes, false, d);
      UniqueOnTabs(Tables(nodes), op);
    case Query(d) =>
      OnTabsQuery(Tables(nodes), d);
  }

  lemma LineEndedNone()
    ensures LineEnded([])
  {
  }

  lemma OnTabsQuery(tabs: seq<Tab>, d: DbTable)
    ensures OnTabs(tabs, Query(d)) == tabs
  {
    hide EqNoCase;
    if tabs != [] { OnTabsQuery(tabs[1..], d); }
  }

  lemma DelNodesRefine(nodes: seq<Node>, d: DbTable)
    requires Shape(nodes, Prolog)
    ensures Shape(DelNodes([], nodes, false, d), Prolog)
    ensures Tables(DelNodes([], nodes, false, d)) == OnTabs(Tables(nodes), Delete(d))
  {
    hide Tables, Shape, Kinds, Without, DelNodes, OnTabs;
    var w := Without(nodes, false, d);
    DelNodesKinds([], nodes, false, d, Prolog);
    KindsNone();
    assert [] + Kinds(w) == Kinds(w);
    WithoutShape(nodes, false, d, Prolog);
    WithoutTables(nodes, false, d, Prolog);
    KindsShape(DelNodes([], nodes, false, d), w, Prolog);
    KindsTables(DelNodes([], nodes, false, d), w);
  }

  /** What the pass of an operation leaves: the text of the next list of units, and for a query the numbered rows. */
  ghost predicate PassLeaves(doc: Doc, s: string, op: Op) {
    var nodes := NextNodes(doc, s, op);
    var q := Run(InitPass(s), ActOf(op), op.d, Events(doc.nodes, |doc.head|, s));
    !q.failed && q.buff == doc.head + Flat(nodes) && AllOk(nodes) &&
    (op.Query? ==> q.res == Numbered(Found(Tables(doc.nodes), op.d)))
  }

  lemma NoneDone(head: string)
    ensures head + Flat([]) == head
  {
    FlatEmpty();
  }

  lemma PassCreate(doc: Doc, s: string, d: DbTable)
    requires Inv(doc) && OpOk(Tables(doc.nodes), Create(d)) && s == DocText(doc)
    ensures PassLeaves(doc, s, Create(d))
  {
    hide NodeOk, Tables, Shape, TitleOk, EqNoCase, Unique, Run, Events, Flat, LineEnded;
    CreatePass(InitPass(s), d, doc.head, doc.nodes, |doc.head|, s);
  }

  lemma PassAdd(doc: Doc, s: string, d: DbTable)
    requires Inv(doc) && OpOk(Tables(doc.nodes), Add(d)) && s == DocText(doc)
    ensures PassLeaves(doc, s, Add(d))
  {
    hide NodeOk, Tables, Shape, ColsOk, EqNoCase, Unique, Run, Events, Flat, Names, LineEnded;
    var nodes := doc.nodes;
    forall j, k | 0 <= j < k < |nodes| ensures !(Names(nodes[j], d.name) && Names(nodes[k], d.name)) {
      UniqueNames(nodes, d.name, j, k);
    }
    AddPass(InitPass(s), d, doc.head, nodes, |doc.head|, s, Prolog);
  }

  lemma PassUpdate(doc: Doc, s: string, d: DbTable)
    requires Inv(doc) && OpOk(Tables(doc.nodes), Update(d)) && s == DocText(doc)
    ensures PassLeaves(doc, s, Update(d))
  {
    hide NodeOk, Tables, Shape, ColsOk, Unique, Run, Events, Flat, UpdNodes, LineEnded;
    NoneDone(doc.head);
    UpdatePass(InitPass(s), d, doc.head, [], doc.nodes, |doc.head|, s, Prolog);
    assert [] + UpdNodes(doc.nodes, false, d) == UpdNodes(doc.nodes, false, d);
  }

  lemma PassDelete(doc: Doc, s: string, d: DbTable)
    requires Inv(doc) && s == DocText(doc)
    ensures PassLeaves(doc, s, Delete(d))
  {
    hide NodeOk, Tables, Shape, Unique, Run, Events, Flat, DelNodes, LineEnded, Spaced;
    NoneDone(doc.head);
    LineEndedSpaced(doc.nodes, false, d);
    DeletePass(InitPass(s), d, doc.head, [], doc.nodes, |doc.head|, s, Prolog);
  }

  /** From the start of a file a select meets what is found in its tables. */
  lemma MeetsFound(nodes: seq<Node>, d: DbTable)
    requires Shape(nodes, Prolog)
    ensures SelRows(nodes, false, d) == Found(Tables(nodes), d)
  {
    hide Shape, SelRows, Tables, Found;
    SelTables(nodes, false, d, Prolog);
  }

  lemma PassQuery(doc: Doc, s: string, d: DbTable)
    requires Inv(doc) && s == DocText(doc)
    ensures PassLeaves(doc, s, Query(d))
  {
    hide NodeOk, Tables, Shape, Unique, Run, Events, Flat, Numbered, SelRows, Found, LineEnded;
    NoneDone(doc.head);
    NumberedNone();
    SelectPass(InitPass(s), d, doc.head, [], doc.nodes, |doc.head|, s, Prolog, []);
    MeetsFound(doc.nodes, d);
    assert [] + SelRows(doc.nodes, false, d) == SelRows(doc.nodes, false, d);
  }

  /** The pass over the text ends with the text of the next list of units. */
  lemma PassText(doc: Doc, s: string, op: Op)
    requires Inv(doc) && OpOk(Tables(doc.nodes), op) && s == DocText(doc)
    ensures PassLeaves(doc, s, op)
  {
    hide Inv, OpOk, PassLeaves;
    match op
    case Create(d) => PassCreate(doc, s, d);
    case Add(d) => PassAdd(doc, s, d);
    case Update(d) => PassUpdate(doc, s, d);
    case Delete(d) => PassDelete(doc, s, d);
    case Query(d) => PassQuery(doc, s, d);
  }

  lemma NumberedNone()
    ensures Numbered([]) == map[]
  {
  }

  /** One operation on the text refines the operation on rows, and keeps the invariant. */
  lemma OpRefines(s: string, doc: Doc, op: Op)
    requires Scan(s) == Some(doc) && Inv(doc) && OpOk(Tables(doc.nodes), op)
    ensures RunAction(s, ActOf(op), op.d).Some?
    ensures var q := RunAction(s, ActOf(op), op.d).value;
            var doc' := Doc(doc.head, NextNodes(doc, s, op));
            !q.failed && Scan(q.buff) == Some(doc') && Inv(doc') &&
            Tables(doc'.nodes) == Apply(Tables(doc.nodes), op) &&
            (op.Query? ==> q.buff == s && q.res == Numbered(Found(Tables(doc.nodes), op.d)))
  {
    hide Scan, Run, NextNodes, Tables, Shape, OpOk, NodeOk, AllOk, Events, Flat, Numbered, Apply, LineEnded;
    ScanSound(s, doc);
    PassText(doc, s, op);
    NextInv(doc, s, op);
    var doc' := Doc(doc.head, NextNodes(doc, s, op));
    ScanComplete(doc');
    if op.Query? { QueryNodes(doc, s, op); }
  }

  lemma QueryNodes(doc: Doc, s: string, op: Op)
    requires op.Query?
    ensures NextNodes(doc, s, op) == doc.nodes
  {
  }

  // ----- runs

  ghost predicate OpsOk(tabs: seq<Tab>, ops: seq<Op>)
    decreases |ops|
  {
    ops == [] || (OpOk(tabs, ops[0]) && OpsOk(Apply(tabs, ops[0]), ops[1..]))
  }

  function ApplyAll(tabs: seq<Tab>, ops: seq<Op>): seq<Tab>
    decreases |ops|
  {
    if ops == [] then tabs else ApplyAll(Apply(tabs, ops[0]), ops[1..])
  }

  /** The file after a run; None if some operation failed. */
  function RunText(s: string, ops: seq<Op>): Option<string>
    decreases |ops|
  {
    if ops == [] then Some(s)
    else
      match RunAction(s, ActOf(ops[0]), ops[0].d)
      case None => None
      case Some(q) => if q.failed then None else RunText(q.buff, ops[1..])
  }

  /** A run over the text never fails and leaves a file whose tables and rows are those of the run on lists. */
  lemma {:induction false} RunRefines(s: string, doc: Doc, ops: seq<Op>)
    requires Scan(s) == Some(doc) && Inv(doc) && OpsOk(Tables(doc.nodes), ops)
    ensures RunText(s, ops).Some? && Scan(RunText(s, ops).value).Some?
    ensures var doc' := Scan(RunText(s, ops).value).value;
            Inv(doc') && Tables(doc'.nodes) == ApplyAll(Tables(doc.nodes), ops)
    decreases |ops|
  {
    hide Scan, RunAction, Tables, Inv, OpOk, Apply, NextNodes;
    if ops != [] {
      var op := ops[0];
      OpRefines(s, doc, op);
      var q := RunAction(s, ActOf(op), op.d).value;
      RunRefines(q.buff, Doc(doc.head, NextNodes(doc, s, op)), ops[1..]);
    }
  }

  /** A file without tables, such as the one shipped as an example, meets the invariant. */
  lemma NoTablesInv(s: string, doc: Doc)
    requires Scan(s) == Some(doc) && Shape(doc.nodes, Prolog)
    requires forall k :: 0 <= k < |doc.nodes| ==> !IsTable(doc.nodes[k]) && !doc.nodes[k].kind.Row?
    ensures Inv(doc) && Tables(doc.nodes) == []
  {
    hide Scan, Shape, IsTable, NodeOk, AllOk;
    ScanSound(s, doc);
    NoTabs(doc.nodes);
  }

  lemma NoTabs(nodes: seq<Node>)
    requires forall k :: 0 <= k < |nodes| ==> !IsTable(nodes[k])
    ensures Tables(nodes) == []
  {
    hide IsTable, Title, RowsOf;
    if nodes != [] { NoTabs(nodes[1..]); }
  }

  // ----- from scratch

  const START_TAG: string := "<DATABASE>"
  const END_TAG: string := "</DATABASE>"

  /** The smallest database file. */
  function EmptyFile(): Doc {
    Doc("", [Node(START_TAG, Tag(Open("DATABASE", [])), "\n"), Node(END_TAG, Tag(Close("DATABASE")), "\n")])
  }

  lemma StartTagMarkup()
    ensures ReadMarkup(START_TAG, 0) == Some((Open("DATABASE", []), 10))
  {
    hide At, MiscEnd, ReadClose;
    var s := START_TAG;
    AtSelf(s);
    assert s == "<" + ("DATABASE" + ">");
    AtAppend(s, 0, "<", "DATABASE" + ">");
    NameFollows(s, 1, "DATABASE", ">");
    assert SkipWs(s, 9) == 9;
  }

  lemma StartTagReads()
    ensures ReadNode(START_TAG, 0) == Some((Tag(Open("DATABASE", [])), 10))
  {
    hide ReadMarkup, EqNoCase, ReadRowBody;
    StartTagMarkup();
    ElementsDiffer("DATABASE");
    DatabaseName();
  }

  lemma EndTagReads()
    ensures ReadNode(END_TAG, 0) == Some((Tag(Close("DATABASE")), 11))
  {
    hide At, MiscEnd, ReadRowBody;
    var s := END_TAG;
    AtSelf(s);
    assert s == "</" + ("DATABASE" + ">");
    AtAppend(s, 0, "</", "DATABASE" + ">");
    NameFollows(s, 2, "DATABASE", ">");
    assert SkipWs(s, 10) == 10;
  }

  lemma DatabaseName()
    ensures EqNoCase("DATABASE", "database")
  {
    var a, b := Lower("DATABASE"), Lower("database");
    assert forall k :: 0 <= k < 8 ==> a[k] == b[k];
    assert a == b;
  }

  lemma EmptyFileOk()
    ensures Wf(EmptyFile())
  {
    hide ReadNode;
    StartTagReads();
    EndTagReads();
    assert |START_TAG| == 10 && |END_TAG| == 11;
  }

  /** From the smallest file, every run whose callers see to their part ends with the rows of the run on lists. */
  lemma FromScratch(ops: seq<Op>)
    requires OpsOk([], ops)
    ensures RunText(DocText(EmptyFile()), ops).Some? && Scan(RunText(DocText(EmptyFile()), ops).value).Some?
    ensures var doc := Scan(RunText(DocText(EmptyFile()), ops).value).value;
            Inv(doc) && Tables(doc.nodes) == ApplyAll([], ops)
  {
    hide ReadNode, EqNoCase, RunText, ApplyAll, OpsOk, Scan, Inv, Wf;
    var d := EmptyFile();
    EmptyFileOk();
    ScanComplete(d);
    DatabaseName();
    ElementsDiffer("DATABASE");
    assert Shape(d.nodes, Prolog);
    NoTablesInv(DocText(d), d);
    RunRefines(DocText(d), d, ops);
  }
}
