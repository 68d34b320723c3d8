/** From which files without rows every run of operations deletes cleanly. */
module XmlStart {
  import opened Text
  import opened XmlReader
  import opened XmlDoc
  import opened XmlTable
  import opened XmlPass
  import opened XmlEdit
  import opened XmlRefine
  import opened XmlInsert
  import opened XmlRows
  import opened XmlRuns
  import opened XmlValues

  predicate Rowless(nodes: seq<Node>) {
    forall j :: 0 <= j < |nodes| ==> !nodes[j].kind.Row?
  }

  /** The unit at k is the table of that name, and the only one. */
  predicate OnlyTable(nodes: seq<Node>, k: nat, name: string) {
    k < |nodes| && Names(nodes[k], name) && forall j :: 0 <= j < |nodes| && j != k ==> !Names(nodes[j], name)
  }

  /** If step i of a run is a delete, it meets a file in which white space follows every row it removes. */
  ghost predicate CleanAt(s: string, ops: seq<Op>, i: nat) {
    i < |ops| && ops[i].Delete? ==>
      var t := RunText(s, ops[..i]);
      t.Some? && Scan(t.value).Some? && Spaced(Scan(t.value).value.nodes, false, ops[i].d)
  }

  // ----- one add and one delete on the list of units

  /** Where the new row goes. */
  lemma {:induction false} AddNodesAt(nodes: seq<Node>, off: nat, orig: string, d: DbTable, k: nat) returns (c: nat)
    requires OnlyTable(nodes, k, d.name)
    ensures AddNodes(nodes, off, orig, d) ==
            nodes[..k] + [nodes[k].(tail := "\n" + Spaces(c)), NewRow(d, nodes[k].tail)] + nodes[k + 1..]
    decreases |nodes|
  {
    hide Names, NewRow, ColumnOf, Spaces;
    var n, rest, off' := nodes[0], nodes[1..], off + |NodeText(nodes[0])|;
    if k == 0 {
      c := ColumnOf(orig, off) + 3;
    } else {
      assert forall j :: 0 <= j < |rest| ==> rest[j] == nodes[j + 1];
      c := AddNodesAt(rest, off', orig, d, k - 1);
      assert nodes[..k] == [n] + rest[..k - 1] && nodes[k + 1..] == rest[k..];
    }
  }

  /** The skip flag after units without rows. */
  function SkipAfter(nodes: seq<Node>, skip: bool, name: string): bool
    decreases |nodes|
  {
    if nodes == [] then skip else SkipAfter(nodes[1..], NodeSkip(nodes[0], skip, name), name)
  }

  lemma {:induction false} DelQuiet(done: seq<Node>, a: seq<Node>, rest: seq<Node>, skip: bool, d: DbTable)
    requires Rowless(a)
    ensures DelNodes(done, a + rest, skip, d) == DelNodes(done + a, rest, SkipAfter(a, skip, d.name), d)
    decreases |a|
  {
    hide NodeSkip, Absorb, RowMatches;
    if a == [] {
      assert a + rest == rest && done + a == done;
    } else {
      assert (a + rest)[0] == a[0] && (a + rest)[1..] == a[1..] + rest;
      DelQuiet(done + [a[0]], a[1..], rest, NodeSkip(a[0], skip, d.name), d);
      assert done + [a[0]] + a[1..] == done + a;
    }
  }

  lemma DelNothing(done: seq<Node>, b: seq<Node>, skip: bool, d: DbTable)
    requires Rowless(b)
    ensures DelNodes(done, b, skip, d) == done + b
  {
    DelQuiet(done, b, [], skip, d);
    assert b + [] == b;
  }

  /** Removing the one row, behind its table's tag, leaves the tag followed by what followed the row. */
  lemma DelOnly(a: seq<Node>, t: Node, r: Node, b: seq<Node>, d: DbTable)
    requires Rowless(a) && Rowless(b) && Names(t, d.name) && r.kind.Row? && RowMatches(d.cols, r.kind.attrs)
    ensures DelNodes([], a + [t, r] + b, false, d) == a + [Absorb(t, r.tail)] + b
  {
    hide Names, Absorb, RowMatches, DelNodes;
    var skip := SkipAfter(a, false, d.name);
    assert a + [t, r] + b == a + ([t] + ([r] + b));
    DelQuiet([], a, [t] + ([r] + b), false, d);
    assert [] + a == a;
    TagOpens(t, d.name, skip);
    DelQuiet(a, [t], [r] + b, skip, d);
    assert SkipAfter([t], skip, d.name) == NodeSkip(t, skip, d.name);
    DelRow(a + [t], r, b, d);
    assert (a + [t])[..|a + [t]| - 1] == a;
    DelNothing(a + [Absorb(t, r.tail)], b, false, d);
  }

  lemma TagOpens(t: Node, name: string, skip: bool)
    requires Names(t, name)
    ensures NodeSkip(t, skip, name) == false && !t.kind.Row?
  {
  }

  lemma DelRow(done: seq<Node>, r: Node, b: seq<Node>, d: DbTable)
    requires done != [] && r.kind.Row? && RowMatches(d.cols, r.kind.attrs)
    ensures DelNodes(done, [r] + b, false, d) ==
            DelNodes(done[..|done| - 1] + [Absorb(done[|done| - 1], r.tail)], b, false, d)
  {
    hide RowMatches, Absorb;
    assert ([r] + b)[0] == r && ([r] + b)[1..] == b;
  }

  /** The line break and indentation before an added row are all white space. */
  lemma {:induction false} IndentTrimmed(t: string)
    requires forall k :: 0 <= k < |t| ==> t[k] in SPACES
    ensures TrimEnd(t) == ""
  {
    if t != "" { IndentTrimmed(t[..|t| - 1]); }
  }

  /** Adding a row and deleting it again: all is as before, but the table's tag has lost the blanks behind it. */
  lemma AddThenDelete(nodes: seq<Node>, off: nat, orig: string, d: DbTable, k: nat)
    requires OnlyTable(nodes, k, d.name) && Rowless(nodes) && TableOk(d)
    ensures DelNodes([], AddNodes(nodes, off, orig, d), false, d) ==
            nodes[k := nodes[k].(tail := DropBlanks(nodes[k].tail))]
  {
    hide Names, DelNodes, RowText, RowAttrs, RowMatches, TrimEnd, DropBlanks;
    var n := nodes[k];
    var c := AddNodesAt(nodes, off, orig, d, k);
    var t, r := n.(tail := "\n" + Spaces(c)), NewRow(d, n.tail);
    RowMatchesSelf(d);
    SameNames(n, t, d.name);
    DelOnly(nodes[..k], t, r, nodes[k + 1..], d);
    IndentTrimmed(t.tail);
    assert "" + DropBlanks(n.tail) == DropBlanks(n.tail);
    assert Absorb(t, r.tail) == n.(tail := DropBlanks(n.tail));
  }

  lemma SameNames(n: Node, t: Node, name: string)
    requires t.kind == n.kind
    ensures Names(t, name) == Names(n, name)
  {
  }

  // ----- the same on the text

  lemma TextAdd(s: string, doc: Doc, d: DbTable, k: nat)
    requires Scan(s) == Some(doc) && Shape(doc.nodes, Prolog) && ColsOk(d.cols) && OnlyTable(doc.nodes, k, d.name)
    ensures var nodes := AddNodes(doc.nodes, |doc.head|, s, d);
            RunAction(s, InsertRow, d).Some? && !RunAction(s, InsertRow, d).value.failed && Shape(nodes, Prolog) &&
            Scan(RunAction(s, InsertRow, d).value.buff) == Some(Doc(doc.head, nodes))
  {
    hide Scan, NodeOk, Names, Run, Events, Flat, Shape, ColsOk, AddNodes;
    ScanSound(s, doc);
    AddPass(InitPass(s), d, doc.head, doc.nodes, |doc.head|, s, Prolog);
    AddShape(doc.nodes, |doc.head|, s, d, Prolog);
    ScanComplete(Doc(doc.head, AddNodes(doc.nodes, |doc.head|, s, d)));
  }

  lemma TextDelete(s: string, doc: Doc, d: DbTable)
    requires Scan(s) == Some(doc) && Shape(doc.nodes, Prolog) && Spaced(doc.nodes, false, d)
    ensures var nodes := DelNodes([], doc.nodes, false, d);
            RunAction(s, DeleteRow, d).Some? && !RunAction(s, DeleteRow, d).value.failed && Shape(nodes, Prolog) &&
            Scan(RunAction(s, DeleteRow, d).value.buff) == Some(Doc(doc.head, nodes))
  {
    hide Scan, NodeOk, Run, Events, Flat, Shape, Spaced, DelNodes, OnTabs, Tables;
    ScanSound(s, doc);
    var h := doc.head;
    assert h + Flat([]) == h by { FlatEmpty(); }
    DeletePass(InitPass(s), d, h, [], doc.nodes, |h|, s, Prolog);
    DelNodesRefine(doc.nodes, d);
    ScanComplete(Doc(h, DelNodes([], doc.nodes, false, d)));
  }

  lemma RunTextCons(s: string, op: Op, rest: seq<Op>)
    requires RunAction(s, ActOf(op), op.d).Some? && !RunAction(s, ActOf(op), op.d).value.failed
    ensures RunText(s, [op] + rest) == RunText(RunAction(s, ActOf(op), op.d).value.buff, rest)
  {
    hide RunAction;
    assert ([op] + rest)[1..] == rest;
  }

  // ----- two rounds tell

  /** After the first unit of white space a line break must follow the blanks. */
  lemma BreakAfterBlanks(t: string)
    requires t != "" && DropBlanks(t) != "" && DropBlanks(t)[0] in SPACES
    ensures BlankLine(t)
  {
    if t[0] in BLANKS { BreakAfterBlanks(t[1..]); }
  }

  /** Add, delete, add, delete. */
  function TwoRounds(d: DbTable): seq<Op> {
    [Add(d), Delete(d), Add(d), Delete(d)]
  }

  lemma RoundsTell(s: string, doc: Doc, d: DbTable, k: nat)
    requires Scan(s) == Some(doc) && Shape(doc.nodes, Prolog) && Rowless(doc.nodes)
    requires TableOk(d) && OnlyTable(doc.nodes, k, d.name)
    requires CleanAt(s, TwoRounds(d), 1) && CleanAt(s, TwoRounds(d), 3)
    ensures BlankLine(doc.nodes[k].tail)
  {
    hide Scan, RunAction, Shape, Spaced, Names, TableOk, RunText, BlankLine, DropBlanks, AddNodes, DelNodes;
    var ops, nodes, h := TwoRounds(d), doc.nodes, doc.head;
    ColsAreOk(d);
    TextAdd(s, doc, d, k);
    var s1 := RunAction(s, InsertRow, d).value.buff;
    var nodes1 := AddNodes(nodes, |h|, s, d);
    RunTextCons(s, Add(d), []);
    NoOps(s1);
    assert ops[..1] == [Add(d)] + [];
    FirstRowSpaced(nodes, |h|, s, d, false, k);
    TextDelete(s1, Doc(h, nodes1), d);
    var s2 := RunAction(s1, DeleteRow, d).value.buff;
    var nodes2 := DelNodes([], nodes1, false, d);
    AddThenDelete(nodes, |h|, s, d, k);
    SameNames(nodes[k], nodes2[k], d.name);
    TextAdd(s2, Doc(h, nodes2), d, k);
    var s3 := RunAction(s2, InsertRow, d).value.buff;
    RunTextCons(s, Add(d), [Delete(d), Add(d)]);
    RunTextCons(s1, Delete(d), [Add(d)]);
    RunTextCons(s2, Add(d), []);
    NoOps(s3);
    assert ops[..3] == [Add(d)] + [Delete(d), Add(d)] && [Delete(d)] + [Add(d)] == [Delete(d), Add(d)];
    assert [Add(d)] + [] == [Add(d)];
    FirstRowSpaced(nodes2, |h|, s2, d, false, k);
    BreakAfterBlanks(nodes[k].tail);
  }

  lemma ColsAreOk(d: DbTable)
    requires TableOk(d)
    ensures ColsOk(d.cols)
  {
  }

  lemma NoOps(s: string)
    ensures RunText(s, []) == Some(s)
  {
  }

  // ----- over all runs

  lemma {:induction false} OpsOkFront(tabs: seq<Tab>, ops: seq<Op>, i: nat)
    requires OpsOk(tabs, ops) && i <= |ops|
    ensures OpsOk(tabs, ops[..i])
    decreases |ops|
  {
    hide OpOk, Apply;
    if i > 0 {
      OpsOkFront(Apply(tabs, ops[0]), ops[1..], i - 1);
      assert ops[..i][1..] == ops[1..][..i - 1];
    }
  }

  lemma LineEndedClean(s: string, doc: Doc, ops: seq<Op>, i: nat)
    requires Scan(s) == Some(doc) && Inv(doc) && OpsOk(Tables(doc.nodes), ops) && i < |ops|
    ensures CleanAt(s, ops, i)
  {
    hide Scan, RunText, Tables, OpsOk, Spaced, Shape, LineEnded, Unique, ApplyAll;
    OpsOkFront(Tables(doc.nodes), ops, i);
    RunRefines(s, doc, ops[..i]);
    LineEndedSpaced(Scan(RunText(s, ops[..i]).value).value.nodes, false, ops[i].d);
  }

  lemma RoundsOk(tabs: seq<Tab>, name: string)
    ensures OpsOk(tabs, TwoRounds(DbTable(name, [])))
  {
    hide Apply;
    var d := DbTable(name, []);
    var ops := TwoRounds(d);
    var t1 := Apply(tabs, Add(d));
    var t2 := Apply(t1, Delete(d));
    var t3 := Apply(t2, Add(d));
    assert OpsOk(Apply(t3, Delete(d)), ops[4..]);
    assert ops[3..][1..] == ops[4..] && OpsOk(t3, ops[3..]);
    assert ops[2..][1..] == ops[3..] && OpsOk(t2, ops[2..]);
    assert ops[1..][1..] == ops[2..] && OpsOk(t1, ops[1..]);
  }

  lemma NoColumnsOk(name: string)
    ensures TableOk(DbTable(name, []))
  {
  }

  /** A table tag by its own name. */
  lemma TableIsOnly(nodes: seq<Node>, k: nat)
    requires Unique(Tables(nodes)) && k < |nodes| && IsTable(nodes[k])
    ensures OnlyTable(nodes, k, Title(nodes[k]))
  {
    hide IsTable, Title, Tables, Unique, EqNoCase;
    var name := Title(nodes[k]);
    EqNoCaseSelf(name);
    forall j | 0 <= j < |nodes| && j != k ensures !Names(nodes[j], name) {
      UniqueNames(nodes, name, if j < k then j else k, if j < k then k else j);
    }
  }

  /**
   * Every delete of every run, from a file without rows, meets white space behind each row it removes if and only if
   * every table tag of that file is followed by blanks and then a line break.
   */
  lemma CleanRunsIff(s: string, doc: Doc)
    requires Scan(s) == Some(doc) && Shape(doc.nodes, Prolog) && Unique(Tables(doc.nodes)) && Rowless(doc.nodes)
    ensures (forall ops, i: nat :: OpsOk(Tables(doc.nodes), ops) && i < |ops| ==> CleanAt(s, ops, i)) <==>
            LineEnded(doc.nodes)
  {
    hide Scan, Shape, Unique, Tables, OpsOk, CleanAt, IsTable, Title, OnlyTable, TwoRounds, TableOk, BlankLine, Wf;
    ScanSound(s, doc);
    var tabs := Tables(doc.nodes);
    if LineEnded(doc.nodes) {
      forall ops, i: nat | OpsOk(tabs, ops) && i < |ops| ensures CleanAt(s, ops, i) { LineEndedClean(s, doc, ops, i); }
    }
    if forall ops, i: nat :: OpsOk(tabs, ops) && i < |ops| ==> CleanAt(s, ops, i) {
      forall k | 0 <= k < |doc.nodes| && IsTable(doc.nodes[k]) ensures BlankLine(doc.nodes[k].tail) {
        var d := DbTable(Title(doc.nodes[k]), []);
        RoundsOk(tabs, d.name);
        RoundsLength(d);
        NoColumnsOk(d.name);
        TableIsOnly(doc.nodes, k);
        assert CleanAt(s, TwoRounds(d), 1) && CleanAt(s, TwoRounds(d), 3);
        RoundsTell(s, doc, d, k);
      }
    }
  }

  lemma RoundsLength(d: DbTable)
    ensures |TwoRounds(d)| == 4
  {
  }
}
