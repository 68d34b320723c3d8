/** The file as a list of tables with lists of rows, and the proof that the text operations refine
    the operations on these lists, over whole runs. */
module XmlRows {
  import opened Text
  import opened XmlReader
  import opened XmlDoc
  import opened XmlTable
  import opened XmlPass
  import opened XmlEdit
  import opened XmlRefine
  import opened XmlInsert

  type RowData = seq<Attr>
  datatype Tab = Tab(title: string, rows: seq<RowData>)

  /** Rows from here to the end of the table. */
  function RowsOf(nodes: seq<Node>): seq<RowData> {
    if nodes == [] then []
    else if nodes[0].kind.Row? then [nodes[0].kind.attrs] + RowsOf(nodes[1..])
    else if IsMisc(nodes[0]) then RowsOf(nodes[1..])
    else []
  }

  function Tables(nodes: seq<Node>): seq<Tab> {
    if nodes == [] then []
    else (if IsTable(nodes[0]) then [Tab(Title(nodes[0]), RowsOf(nodes[1..]))] else []) + Tables(nodes[1..])
  }

  // ----- the operations on rows

  function Keep(rows: seq<RowData>, d: DbTable): seq<RowData> {
    if rows == [] then []
    else (if RowMatches(d.cols, rows[0]) then [] else [rows[0]]) + Keep(rows[1..], d)
  }

  function Pick(rows: seq<RowData>, d: DbTable): seq<RowData> {
    if rows == [] then []
    else (if RowMatches(d.cols, rows[0]) then [rows[0]] else []) + Pick(rows[1..], d)
  }

  function Change(rows: seq<RowData>, d: DbTable): seq<RowData> {
    if rows == [] then []
    else
      [if RowMatches(d.cols, rows[0]) then RowAttrs(d.cols, true, RecordOf(rows[0])) else rows[0]] +
      Change(rows[1..], d)
  }

  datatype Op = Create(d: DbTable) | Add(d: DbTable) | Update(d: DbTable) | Delete(d: DbTable) | Query(d: DbTable)

  function ActOf(op: Op): Action {
    match op
    case Create(_) => InsertTable
    case Add(_) => InsertRow
    case Update(_) => UpdateRow
    case Delete(_) => DeleteRow
    case Query(_) => SelectRow
  }

  function OnTab(t: Tab, op: Op): Tab {
    if !EqNoCase(t.title, op.d.name) then t
    else
      match op
      case Add(d) => t.(rows := [RowAttrs(d.cols, false, map[])] + t.rows)
      case Update(d) => t.(rows := Change(t.rows, d))
      case Delete(d) => t.(rows := Keep(t.rows, d))
      case _ => t
  }

  function OnTabs(tabs: seq<Tab>, op: Op): seq<Tab> {
    if tabs == [] then [] else [OnTab(tabs[0], op)] + OnTabs(tabs[1..], op)
  }

  function Apply(tabs: seq<Tab>, op: Op): seq<Tab> {
    if op.Create? then [Tab(op.d.name, [])] + tabs else OnTabs(tabs, op)
  }

  function Found(tabs: seq<Tab>, d: DbTable): seq<RowData> {
    if tabs == [] then []
    else (if EqNoCase(tabs[0].title, d.name) then Pick(tabs[0].rows, d) else []) + Found(tabs[1..], d)
  }

  // ----- everything but the character data decides the tables and the shape

  function Kinds(nodes: seq<Node>): seq<Kind> {
    if nodes == [] then [] else [nodes[0].kind] + Kinds(nodes[1..])
  }

  lemma KindsAppend(a: seq<Node>, b: seq<Node>)
    ensures Kinds(a + b) == Kinds(a) + Kinds(b)
  {
    if a == [] {
      assert a + b == b;
    } else {
      assert (a + b)[1..] == a[1..] + b;
      KindsAppend(a[1..], b);
    }
  }

  lemma KindsTail(a: seq<Node>, b: seq<Node>)
    requires Kinds(a) == Kinds(b)
    ensures (a == [] <==> b == []) && (a != [] ==> a[0].kind == b[0].kind && Kinds(a[1..]) == Kinds(b[1..]))
  {
    if a != [] { assert Kinds(a)[0] == a[0].kind && Kinds(a)[1..] == Kinds(a[1..]); }
    if b != [] { assert Kinds(b)[0] == b[0].kind && Kinds(b)[1..] == Kinds(b[1..]); }
  }

  lemma {:induction false} KindsShape(a: seq<Node>, b: seq<Node>, m: Mode)
    requires Kinds(a) == Kinds(b)
    ensures Shape(a, m) == Shape(b, m)
    decreases |a|
  {
    hide EqNoCase, NameValues, Kinds;
    KindsTail(a, b);
    if a != [] && NextMode(m, a[0]).Some? { KindsShape(a[1..], b[1..], NextMode(m, a[0]).value); }
  }

  lemma {:induction false} KindsRows(a: seq<Node>, b: seq<Node>)
    requires Kinds(a) == Kinds(b)
    ensures RowsOf(a) == RowsOf(b)
    decreases |a|
  {
    hide Kinds;
    KindsTail(a, b);
    if a != [] { KindsRows(a[1..], b[1..]); }
  }

  lemma {:induction false} KindsTables(a: seq<Node>, b: seq<Node>)
    requires Kinds(a) == Kinds(b)
    ensures Tables(a) == Tables(b)
    decreases |a|
  {
    hide EqNoCase, NameValues, Kinds;
    KindsTail(a, b);
    if a != [] {
      KindsRows(a[1..], b[1..]);
      KindsTables(a[1..], b[1..]);
    }
  }

  // ----- delete and update row by row

  /** The document without the hit rows, their neighbours' character data left alone. */
  function Without(nodes: seq<Node>, skip: bool, d: DbTable): seq<Node>
    decreases |nodes|
  {
    if nodes == [] then []
    else (if Hit(nodes[0], skip, d) then [] else [nodes[0]]) + Without(nodes[1..], NodeSkip(nodes[0], skip, d.name), d)
  }

  lemma KindsSnoc(a: seq<Node>, n: Node)
    ensures Kinds(a + [n]) == Kinds(a) + [n.kind]
  {
    KindsAppend(a, [n]);
    assert Kinds([n]) == [n.kind] + Kinds([n][1..]);
  }

  lemma KindsCons(n: Node, a: seq<Node>)
    ensures Kinds([n] + a) == [n.kind] + Kinds(a)
  {
    assert ([n] + a)[1..] == a;
  }

  lemma SnocCons<T>(a: seq<T>, x: T, b: seq<T>)
    ensures (a + [x]) + b == a + ([x] + b)
  {
  }

  lemma {:induction false} DelNodesKinds(done: seq<Node>, rest: seq<Node>, skip: bool, d: DbTable, m: Mode)
    requires Shape(rest, m) && (m.InTable? ==> done != [])
    ensures Kinds(DelNodes(done, rest, skip, d)) == Kinds(done) + Kinds(Without(rest, skip, d))
    decreases |rest|
  {
    hide Kinds, Hit, NodeSkip, NextMode;
    if rest == [] {
      KindsNone();
      assert Kinds(done) + [] == Kinds(done);
    } else {
      var n := rest[0];
      var wo := Without(rest[1..], NodeSkip(n, skip, d.name), d);
      if Hit(n, skip, d) {
        HitIsRow(n, skip, d);
        RowInside(m, rest);
        RowMode(m, n);
        var front, last := done[..|done| - 1], done[|done| - 1];
        assert done == front + [last];
        KindsSnoc(front, last);
        KindsSnoc(front, Absorb(last, n.tail));
        assert [] + wo == wo;
        DelNodesKinds(front + [Absorb(last, n.tail)], rest[1..], skip, d, m);
      } else {
        KindsSnoc(done, n);
        KindsCons(n, wo);
        SnocCons(Kinds(done), n.kind, Kinds(wo));
        DelNodesKinds(done + [n], rest[1..], NodeSkip(n, skip, d.name), d, NextMode(m, n).value);
      }
    }
  }

  lemma KindsNone()
    ensures Kinds([]) == []
  {
  }

  lemma OnTabsCons(t: Tab, tabs: seq<Tab>, op: Op)
    ensures OnTabs([t] + tabs, op) == [OnTab(t, op)] + OnTabs(tabs, op)
    ensures OnTabs([] + tabs, op) == OnTabs(tabs, op)
  {
    assert ([t] + tabs)[1..] == tabs && [] + tabs == tabs;
  }

  lemma {:induction false} WithoutShape(nodes: seq<Node>, skip: bool, d: DbTable, m: Mode)
    requires Shape(nodes, m)
    ensures Shape(Without(nodes, skip, d), m)
    decreases |nodes|
  {
    hide NextMode, Hit, NodeSkip;
    if nodes != [] {
      var n, rest := nodes[0], nodes[1..];
      var wo := Without(rest, NodeSkip(n, skip, d.name), d);
      WithoutShape(rest, NodeSkip(n, skip, d.name), d, NextMode(m, n).value);
      if Hit(n, skip, d) {
        HitIsRow(n, skip, d);
        RowMode(m, n);
        assert [] + wo == wo;
      } else {
        assert ([n] + wo)[1..] == wo;
      }
    }
  }

  /** Within a table, deleting units is deleting rows. */
  lemma {:induction false} WithoutRows(nodes: seq<Node>, skip: bool, d: DbTable)
    requires Shape(nodes, InTable)
    ensures RowsOf(Without(nodes, skip, d)) == if skip then RowsOf(nodes) else Keep(RowsOf(nodes), d)
    decreases |nodes|
  {
    hide EqNoCase, RowMatches;
    var n, rest := nodes[0], nodes[1..];
    var wo := Without(rest, NodeSkip(n, skip, d.name), d);
    assert nodes == [n] + rest && [] + wo == wo;
    RowsCons(n, rest);
    RowsCons(n, wo);
    if n.kind.Row? || IsMisc(n) {
      WithoutRows(rest, skip, d);
      if n.kind.Row? { KeepCons(n.kind.attrs, RowsOf(rest), d); }
    }
  }

  lemma RowsCons(n: Node, rest: seq<Node>)
    ensures RowsOf([n] + rest) ==
            if n.kind.Row? then [n.kind.attrs] + RowsOf(rest) else if IsMisc(n) then RowsOf(rest) else []
  {
    assert ([n] + rest)[1..] == rest;
  }

  lemma KeepCons(r: RowData, rows: seq<RowData>, d: DbTable)
    ensures Keep([r] + rows, d) == if RowMatches(d.cols, r) then Keep(rows, d) else [r] + Keep(rows, d)
  {
    assert ([r] + rows)[1..] == rows && [] + Keep(rows, d) == Keep(rows, d);
  }

  /** On the file, deleting units is deleting rows of the named table. */
  lemma {:induction false} WithoutTables(nodes: seq<Node>, skip: bool, d: DbTable, m: Mode)
    requires Shape(nodes, m)
    ensures Tables(Without(nodes, skip, d)) == OnTabs(Tables(nodes), Delete(d))
    decreases |nodes|
  {
    hide Tables, Hit, NextMode, NodeSkip, IsTable;
    if nodes == [] {
      TablesNone();
    } else {
      var n, rest := nodes[0], nodes[1..];
      var skip' := NodeSkip(n, skip, d.name);
      var wo := Without(rest, skip', d);
      WithoutTables(rest, skip', d, NextMode(m, n).value);
      assert [] + wo == wo && nodes == [n] + rest;
      TableCons(n, rest);
      TableCons(n, wo);
      if Hit(n, skip, d) {
        HitIsRow(n, skip, d);
        RowIsNotTable(n);
      } else if IsTable(n) {
        TableMode(m, n, skip, d.name);
        WithoutRows(rest, skip', d);
        OnTabsCons(Tab(Title(n), RowsOf(rest)), Tables(rest), Delete(d));
      }
    }
  }

  lemma RowIsNotTable(n: Node)
    requires n.kind.Row?
    ensures !IsTable(n)
  {
  }

  lemma TableMode(m: Mode, n: Node, skip: bool, name: string)
    requires IsTable(n) && NextMode(m, n).Some?
    ensures m.InDb? && NextMode(m, n) == Some(InTable) && NodeSkip(n, skip, name) == !EqNoCase(Title(n), name)
  {
    if IsDatabase(n) { ElementsDiffer(n.kind.markup.name); }
  }

  lemma TablesNone()
    ensures Tables([]) == []
  {
  }

  lemma TableCons(n: Node, rest: seq<Node>)
    ensures Tables([n] + rest) == if IsTable(n) then [Tab(Title(n), RowsOf(rest))] + Tables(rest) else Tables(rest)
  {
    hide RowsOf, Title, IsTable;
    assert ([n] + rest)[1..] == rest;
    assert [] + Tables(rest) == Tables(rest);
  }

  lemma {:induction false} UpdShape(nodes: seq<Node>, skip: bool, d: DbTable, m: Mode)
    requires Shape(nodes, m)
    ensures Shape(UpdNodes(nodes, skip, d), m)
    decreases |nodes|
  {
    hide Hit, NodeSkip, UpdNode, NextMode;
    if nodes != [] {
      var n, rest := nodes[0], nodes[1..];
      var up := UpdNodes(rest, NodeSkip(n, skip, d.name), d);
      UpdShape(rest, NodeSkip(n, skip, d.name), d, NextMode(m, n).value);
      if Hit(n, skip, d) {
        HitIsRow(n, skip, d);
        RowMode(m, n);
        UpdNodeRow(m, n, d);
        assert ([UpdNode(n, d)] + up)[1..] == up;
      } else {
        assert ([n] + up)[1..] == up;
      }
    }
  }

  lemma UpdNodeRow(m: Mode, n: Node, d: DbTable)
    requires n.kind.Row? && NextMode(m, n).Some?
    ensures UpdNode(n, d).kind.Row? && UpdNode(n, d).tail == n.tail && NextMode(m, UpdNode(n, d)) == NextMode(m, n)
    ensures UpdNode(n, d).kind.attrs == RowAttrs(d.cols, true, RecordOf(n.kind.attrs))
  {
  }

  lemma ChangeCons(r: RowData, rows: seq<RowData>, d: DbTable)
    ensures Change([r] + rows, d) ==
            [if RowMatches(d.cols, r) then RowAttrs(d.cols, true, RecordOf(r)) else r] + Change(rows, d)
  {
    assert ([r] + rows)[1..] == rows;
  }

  /** Within a table, replacing units is changing rows. */
  lemma {:induction false} UpdRows(nodes: seq<Node>, skip: bool, d: DbTable)
    requires Shape(nodes, InTable)
    ensures RowsOf(UpdNodes(nodes, skip, d)) == if skip then RowsOf(nodes) else Change(RowsOf(nodes), d)
    decreases |nodes|
  {
    hide EqNoCase, RowMatches, UpdNode, RowAttrs;
    var n, rest := nodes[0], nodes[1..];
    var up := UpdNodes(rest, NodeSkip(n, skip, d.name), d);
    assert nodes == [n] + rest;
    RowsCons(n, rest);
    RowsCons(n, up);
    if n.kind.Row? || IsMisc(n) {
      UpdRows(rest, skip, d);
      if n.kind.Row? {
        UpdNodeRow(InTable, n, d);
        RowsCons(UpdNode(n, d), up);
        ChangeCons(n.kind.attrs, RowsOf(rest), d);
      }
    }
  }

  lemma {:induction false} UpdTables(nodes: seq<Node>, skip: bool, d: DbTable, m: Mode)
    requires Shape(nodes, m)
    ensures Tables(UpdNodes(nodes, skip, d)) == OnTabs(Tables(nodes), Update(d))
    decreases |nodes|
  {
    hide Tables, Hit, NextMode, NodeSkip, IsTable, UpdNode;
    if nodes == [] {
      TablesNone();
    } else {
      var n, rest := nodes[0], nodes[1..];
      var skip' := NodeSkip(n, skip, d.name);
      var up := UpdNodes(rest, skip', d);
      UpdTables(rest, skip', d, NextMode(m, n).value);
      assert nodes == [n] + rest;
      TableCons(n, rest);
      TableCons(n, up);
      if Hit(n, skip, d) {
        HitIsRow(n, skip, d);
        RowIsNotTable(n);
        UpdNodeRow(m, n, d);
        RowIsNotTable(UpdNode(n, d));
        TableCons(UpdNode(n, d), up);
      } else if IsTable(n) {
        TableMode(m, n, skip, d.name);
        UpdRows(rest, skip', d);
        OnTabsCons(Tab(Title(n), RowsOf(rest)), Tables(rest), Update(d));
      }
    }
  }

  // ----- select

  lemma PickCons(r: RowData, rows: seq<RowData>, d: DbTable)
    ensures Pick([r] + rows, d) == (if RowMatches(d.cols, r) then [r] else []) + Pick(rows, d)
  {
    assert ([r] + rows)[1..] == rows;
  }

  lemma FoundCons(t: Tab, tabs: seq<Tab>, d: DbTable)
    ensures Found([t] + tabs, d) == (if EqNoCase(t.title, d.name) then Pick(t.rows, d) else []) + Found(tabs, d)
  {
    assert ([t] + tabs)[1..] == tabs;
  }

  function Current(nodes: seq<Node>, skip: bool, d: DbTable, m: Mode): seq<RowData> {
    if m.InTable? && !skip then Pick(RowsOf(nodes), d) else []
  }

  lemma SelRowsStep(n: Node, rest: seq<Node>, skip: bool, d: DbTable)
    ensures SelRows([n] + rest, skip, d) ==
            (if Hit(n, skip, d) then [n.kind.attrs] else []) + SelRows(rest, NodeSkip(n, skip, d.name), d)
  {
    hide Hit, NodeSkip;
    assert ([n] + rest)[1..] == rest;
  }

  /** The rows of the current table that are still to come. */
  lemma CurrentStep(n: Node, rest: seq<Node>, skip: bool, d: DbTable, m: Mode, m': Mode)
    requires NextMode(m, n) == Some(m') && !IsTable(n)
    ensures Current([n] + rest, skip, d, m) ==
            (if Hit(n, skip, d) then [n.kind.attrs] else []) + Current(rest, NodeSkip(n, skip, d.name), d, m')
  {
    hide EqNoCase, RowMatches;
    RowsCons(n, rest);
    if n.kind.Row? { PickCons(n.kind.attrs, RowsOf(rest), d); }
  }

  /** What a select meets: the rest of the table it is in, then the later tables. */
  lemma {:induction false} SelTables(nodes: seq<Node>, skip: bool, d: DbTable, m: Mode)
    requires Shape(nodes, m)
    ensures SelRows(nodes, skip, d) == Current(nodes, skip, d, m) + Found(Tables(nodes), d)
    decreases |nodes|
  {
    hide Tables, Hit, NodeSkip, IsTable, NextMode, EqNoCase, Found, SelRows, Current;
    if nodes == [] {
      SelEnd(skip, d, m);
    } else {
      var n, rest := nodes[0], nodes[1..];
      var skip', m' := NodeSkip(n, skip, d.name), NextMode(m, n).value;
      assert nodes == [n] + rest;
      SelTables(rest, skip', d, m');
      SelRowsStep(n, rest, skip, d);
      TableCons(n, rest);
      if IsTable(n) {
        TableMode(m, n, skip, d.name);
        FoundCons(Tab(Title(n), RowsOf(rest)), Tables(rest), d);
        SelTable(n, rest, skip, d);
      } else {
        CurrentStep(n, rest, skip, d, m, m');
      }
    }
  }

  lemma SelEnd(skip: bool, d: DbTable, m: Mode)
    requires m.Done?
    ensures SelRows([], skip, d) == Current([], skip, d, m) + Found(Tables([]), d)
  {
  }

  lemma SelTable(n: Node, rest: seq<Node>, skip: bool, d: DbTable)
    requires IsTable(n)
    ensures !Hit(n, skip, d) && Current([n] + rest, skip, d, InDb) == []
    ensures Current(rest, NodeSkip(n, skip, d.name), d, InTable) ==
            if EqNoCase(Title(n), d.name) then Pick(RowsOf(rest), d) else []
  {
  }

  // ----- add and create

  lemma {:induction false} AddShape(nodes: seq<Node>, off: nat, orig: string, d: DbTable, m: Mode)
    requires Shape(nodes, m)
    ensures Shape(AddNodes(nodes, off, orig, d), m)
    decreases |nodes|
  {
    hide EqNoCase, NameValues, RowText, RowAttrs, ColumnOf;
    if nodes != [] {
      var n, rest := nodes[0], nodes[1..];
      var more := AddNodes(rest, off + |NodeText(n)|, orig, d);
      if Names(n, d.name) {
        TableMode(m, n, false, d.name);
        var t := n.(tail := "\n" + Spaces(ColumnOf(orig, off) + 3));
        var r := NewRow(d, n.tail);
        assert ([t, r] + rest)[1..] == [r] + rest && ([r] + rest)[1..] == rest;
        assert Shape([r] + rest, InTable);
      } else {
        AddShape(rest, off + |NodeText(n)|, orig, d, NextMode(m, n).value);
        assert ([n] + more)[1..] == more;
      }
    }
  }

  /** No other table has the name. */
  lemma OnTabsNone(tabs: seq<Tab>, op: Op)
    requires forall k :: 0 <= k < |tabs| ==> !EqNoCase(tabs[k].title, op.d.name)
    ensures OnTabs(tabs, op) == tabs
  {
    hide EqNoCase;
    if tabs != [] { OnTabsNone(tabs[1..], op); }
  }

  ghost predicate Unique(tabs: seq<Tab>) {
    forall j, k :: 0 <= j < k < |tabs| ==> !EqNoCase(tabs[j].title, tabs[k].title)
  }

  lemma {:induction false} AddRows(nodes: seq<Node>, off: nat, orig: string, d: DbTable)
    requires Shape(nodes, InTable)
    ensures RowsOf(AddNodes(nodes, off, orig, d)) == RowsOf(nodes)
    decreases |nodes|
  {
    hide EqNoCase, NameValues, RowText, RowAttrs, ColumnOf;
    var n, rest := nodes[0], nodes[1..];
    var more := AddNodes(rest, off + |NodeText(n)|, orig, d);
    if Names(n, d.name) { TableMode(InTable, n, false, d.name); }
    assert nodes == [n] + rest;
    RowsCons(n, rest);
    RowsCons(n, more);
    if n.kind.Row? || IsMisc(n) { AddRows(rest, off + |NodeText(n)|, orig, d); }
  }

  /** The new row is the first of the named table; other rows and tables stay. */
  lemma {:induction false} AddTables(nodes: seq<Node>, off: nat, orig: string, d: DbTable, m: Mode)
    requires Shape(nodes, m) && Unique(Tables(nodes))
    ensures Tables(AddNodes(nodes, off, orig, d)) == OnTabs(Tables(nodes), Add(d))
    decreases |nodes|
  {
    hide Tables, NextMode, IsTable, Title, RowText, RowAttrs, ColumnOf, EqNoCase;
    if nodes == [] {
      TablesNone();
    } else {
      var n, rest := nodes[0], nodes[1..];
      var off' := off + |NodeText(n)|;
      var more := AddNodes(rest, off', orig, d);
      assert nodes == [n] + rest;
      TableCons(n, rest);
      if IsTable(n) {
        TableMode(m, n, false, d.name);
        var t := Tab(Title(n), RowsOf(rest));
        OnTabsCons(t, Tables(rest), Add(d));
        assert forall k :: 0 <= k < |Tables(rest)| ==> Tables(nodes)[k + 1] == Tables(rest)[k];
        if Names(n, d.name) {
          AddFirst(n, rest, off, orig, d);
          forall k | 0 <= k < |Tables(rest)| ensures !EqNoCase(Tables(rest)[k].title, d.name) {
            assert Tables(nodes)[k + 1] == Tables(rest)[k] && Tables(nodes)[0] == t;
            if EqNoCase(Tables(rest)[k].title, d.name) { EqNoCaseSym(Tables(rest)[k].title, d.name, t.title); }
          }
          OnTabsNone(Tables(rest), Add(d));
        } else {
          AddRows(rest, off', orig, d);
          AddTables(rest, off', orig, d, InTable);
          TableCons(n, more);
        }
      } else {
        AddTables(rest, off', orig, d, NextMode(m, n).value);
        TableCons(n, more);
      }
    }
  }

  lemma EqNoCaseSym(a: string, b: string, c: string)
    requires EqNoCase(a, b) && EqNoCase(c, b)
    ensures EqNoCase(c, a)
  {
  }

  lemma AddFirst(n: Node, rest: seq<Node>, off: nat, orig: string, d: DbTable)
    requires Names(n, d.name)
    ensures Tables(AddNodes([n] + rest, off, orig, d)) ==
            [Tab(Title(n), [RowAttrs(d.cols, false, map[])] + RowsOf(rest))] + Tables(rest)
  {
    hide RowText, RowAttrs, ColumnOf, EqNoCase, Tables, RowsOf;
    var t := n.(tail := "\n" + Spaces(ColumnOf(orig, off) + 3));
    var r := NewRow(d, n.tail);
    assert ([n] + rest)[1..] == rest && [t, r] + rest == [t] + ([r] + rest);
    assert AddNodes([n] + rest, off, orig, d) == [t] + ([r] + rest);
    TableCons(t, [r] + rest);
    TableCons(r, rest);
    RowsCons(r, rest);
    SameTable(n, t);
  }

  lemma SameTable(a: Node, b: Node)
    requires a.kind == b.kind
    ensures IsTable(a) == IsTable(b) && (IsTable(a) ==> Title(a) == Title(b))
  {
  }

  lemma NewTableIs(name: string, col: nat)
    ensures IsTable(NewTable(name, col)) && Title(NewTable(name, col)) == name
  {
    hide TableTag, TableGap;
    TableIsTable();
    var a := Attr("name", name);
    assert NameValues([a]) == [a.value] + NameValues([a][1..]);
  }

  lemma NewCloseIs(tail: string)
    ensures !IsTable(NewClose(tail)) && !IsMisc(NewClose(tail)) && NextMode(InTable, NewClose(tail)) == Some(InDb)
  {
    TableIsTable();
  }

  lemma {:induction false} CreateRefines(nodes: seq<Node>, off: nat, orig: string, d: DbTable)
    requires Shape(nodes, Prolog)
    ensures Shape(CreateNodes(nodes, off, orig, d.name), Prolog)
    ensures Tables(CreateNodes(nodes, off, orig, d.name)) == Apply(Tables(nodes), Create(d))
    decreases |nodes|
  {
    hide Tables, IsDatabase, IsTable, TableTag, TableGap, NextMode;
    var n, rest := nodes[0], nodes[1..];
    assert nodes == [n] + rest;
    TableCons(n, rest);
    if IsDatabase(n) {
      CreateFirst(n, rest, off, orig, d);
    } else {
      var off' := off + |NodeText(n)|;
      var more := CreateNodes(rest, off', orig, d.name);
      PrologNode(n);
      CreateRefines(rest, off', orig, d);
      TableCons(n, more);
      assert ([n] + more)[1..] == more;
    }
  }

  lemma PrologNode(n: Node)
    requires NextMode(Prolog, n).Some? && !IsDatabase(n)
    ensures NextMode(Prolog, n) == Some(Prolog) && !IsTable(n)
  {
  }

  lemma CreateFirst(n: Node, rest: seq<Node>, off: nat, orig: string, d: DbTable)
    requires IsDatabase(n) && Shape([n] + rest, Prolog)
    ensures Shape(CreateNodes([n] + rest, off, orig, d.name), Prolog)
    ensures Tables(CreateNodes([n] + rest, off, orig, d.name)) == [Tab(d.name, [])] + Tables([n] + rest)
  {
    hide Tables, TableTag, TableGap, ColumnOf, EqNoCase, NewTable, NewClose, RowsOf;
    var col := ColumnOf(orig, off);
    var b := n.(tail := "\n" + Spaces(col + 3) + " ");
    var t, c := NewTable(d.name, col), NewClose(n.tail);
    assert ([n] + rest)[1..] == rest;
    assert [b, t, c] + rest == [b] + ([t] + ([c] + rest));
    assert CreateNodes([n] + rest, off, orig, d.name) == [b] + ([t] + ([c] + rest));
    assert ([b] + ([t] + ([c] + rest)))[1..] == [t] + ([c] + rest);
    assert ([t] + ([c] + rest))[1..] == [c] + rest && ([c] + rest)[1..] == rest;
    DatabaseIsNotTable(n);
    SameTable(n, b);
    DatabaseMode(n);
    DatabaseMode(b);
    NewTableIs(d.name, col);
    TableInDb(t);
    NewCloseIs(n.tail);
    TableCons(n, rest);
    TableCons(b, [t] + ([c] + rest));
    TableCons(t, [c] + rest);
    TableCons(c, rest);
    CloseEndsRows(c, rest);
    assert Shape(rest, InDb) && Shape([c] + rest, InTable) && Shape([t] + ([c] + rest), InDb);
  }

  lemma CloseEndsRows(c: Node, rest: seq<Node>)
    requires !c.kind.Row? && !IsMisc(c)
    ensures RowsOf([c] + rest) == []
  {
  }

  lemma TableInDb(t: Node)
    requires IsTable(t)
    ensures NextMode(InDb, t) == Some(InTable)
  {
    hide EqNoCase, NameValues;
  }
}
