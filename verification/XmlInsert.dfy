/** The two actions that insert text: a row behind its table's tag, an empty table behind the database tag. */
module XmlInsert {
  import opened Text
  import opened XmlEscape
  import opened XmlReader
  import opened XmlDoc
  import opened XmlTable
  import opened XmlPass
  import opened XmlEdit
  import opened XmlRefine

  predicate Names(n: Node, name: string) {
    IsTable(n) && EqNoCase(Title(n), name)
  }

  function NewRow(d: DbTable, tail: string): Node {
    var t := RowText(d.cols, false, map[]);
    Node(t, Row("row", RowAttrs(d.cols, false, map[]), |t|, 0), tail)
  }

  /** The new row comes first in its table: on its own line, before whatever followed the table tag. */
  function AddNodes(nodes: seq<Node>, off: nat, orig: string, d: DbTable): seq<Node> {
    if nodes == [] then []
    else if Names(nodes[0], d.name) then
      [nodes[0].(tail := "\n" + Spaces(ColumnOf(orig, off) + 3)), NewRow(d, nodes[0].tail)] + nodes[1..]
    else [nodes[0]] + AddNodes(nodes[1..], off + |NodeText(nodes[0])|, orig, d)
  }

  lemma NewRowOk(d: DbTable, tail: string)
    requires ColsOk(d.cols) && '<' !in tail
    ensures NodeOk(NewRow(d, tail))
  {
    hide ReadNode, RowText, RowAttrs;
    RowReads(d.cols, false, map[], RowText(d.cols, false, map[]));
  }

  // ----- add

  predicate InsertAction(act: Action) {
    act in {InsertRow, InsertTable}
  }

  /** Neither a matching table nor, when a table is created, the database tag. */
  predicate Calm(n: Node, act: Action, name: string) {
    if act.InsertRow? then !Names(n, name) else !IsDatabase(n)
  }

  lemma InsertQuiet(p: Pass, act: Action, d: DbTable, n: Node, off: nat, orig: string, m: Mode)
    requires InsertAction(act) && !p.failed && NextMode(m, n).Some? && NodeOk(n) && Calm(n, act, d.name)
    ensures Untouched(p, RunNode(p, act, d, n, off, orig))
  {
    hide CutRow, ColumnOf, ReadNode, RowMatches, EqNoCase, Replace;
    match n.kind
    case Row(el, attrs, ol, cl) =>
      NodeOkRow(n);
      ElementsDiffer(el);
      var evs := NodeEvents(n, off, orig);
      RunTwo(p, act, d, evs[0], evs[1]);
    case Tag(Open(el, attrs)) =>
      ElementsDiffer(el);
      var ev := NodeEvents(n, off, orig)[0];
      RunOne(p, act, d, ev);
      if EqNoCase(el, "table") { OnTableOnce(p, act, d, attrs, ev); }
    case Tag(Close(el)) =>
      ElementsDiffer(el);
      RunOne(p, act, d, NodeEvents(n, off, orig)[0]);
    case Tag(Misc) =>
  }

  lemma ReplaceInsert(a: string, c: string, t: string)
    ensures Replace(a + c, |a|, 0, t) == Some(a + t + c)
  {
    assert (a + c)[..|a|] == a && (a + c)[|a|..] == c;
  }

  lemma AddHit(p: Pass, d: DbTable, n: Node, off: nat, orig: string, a: string, c: string, m: Mode)
    requires !p.failed && NextMode(m, n).Some? && Names(n, d.name) && p.buff == a + c && |a| == off + |n.raw|
    ensures var q := RunNode(p, InsertRow, d, n, off, orig);
            !q.failed &&
            q.buff == a + ("\n" + (Spaces(ColumnOf(orig, off) + 3) + RowText(d.cols, false, map[]))) + c
  {
    hide CutRow, ColumnOf, ReadNode, RowMatches, EqNoCase, Replace, RowText;
    ElementsDiffer(n.kind.markup.name);
    var ev := NodeEvents(n, off, orig)[0];
    RunOne(p, InsertRow, d, ev);
    OnTableOnce(p, InsertRow, d, n.kind.markup.attrs, ev);
    ReplaceInsert(a, c, "\n" + (Spaces(ColumnOf(orig, off) + 3) + RowText(d.cols, false, map[])));
  }

  predicate AllCalm(nodes: seq<Node>, act: Action, name: string) {
    forall k :: 0 <= k < |nodes| ==> Calm(nodes[k], act, name)
  }

  /** After the insertion nothing more happens. */
  lemma {:induction false} InsertRest(p: Pass, act: Action, d: DbTable, rest: seq<Node>, off: nat, orig: string,
                                      m: Mode)
    requires InsertAction(act) && !p.failed && Shape(rest, m) && AllOk(rest) && AllCalm(rest, act, d.name)
    ensures var q := Run(p, act, d, Events(rest, off, orig)); !q.failed && q.buff == p.buff
    decreases |rest|
  {
    hide NodeOk, RunNode, NextMode, NodeEvents, Step, Calm;
    if rest != [] {
      hide Run, Events;
      RunCons(p, act, d, rest, off, orig);
      InsertQuiet(p, act, d, rest[0], off, orig, m);
      var q, off' := RunNode(p, act, d, rest[0], off, orig), off + |NodeText(rest[0])|;
      InsertRest(q, act, d, rest[1..], off', orig, NextMode(m, rest[0]).value);
    } else {
      hide Step;
    }
  }

  /** Text of the table tag, its new line, the new row and what followed the tag. */
  lemma AddText(h: string, n: Node, nl: string, row: Node, rt: string)
    requires row.tail == n.tail
    ensures (h + n.raw) + (nl + row.raw) + (n.tail + rt) == h + (NodeText(n.(tail := nl)) + (NodeText(row) + rt))
  {
    assert (h + n.raw) + (nl + row.raw) + (n.tail + rt) == h + (n.raw + nl + (row.raw + n.tail + rt));
  }

  lemma FlatTwo(a: Node, b: Node, rest: seq<Node>)
    ensures Flat([a, b] + rest) == NodeText(a) + (NodeText(b) + Flat(rest))
  {
    assert ([a, b] + rest)[1..] == [b] + rest;
    assert ([b] + rest)[1..] == rest;
  }

  lemma AddNodesStep(nodes: seq<Node>, off: nat, orig: string, d: DbTable)
    requires nodes != [] && !Names(nodes[0], d.name)
    ensures AddNodes(nodes, off, orig, d) == [nodes[0]] + AddNodes(nodes[1..], off + |NodeText(nodes[0])|, orig, d)
  {
  }

  /** The add pass: given at most one table of that name, the text becomes that of AddNodes. */
  lemma {:induction false} AddPass(p: Pass, d: DbTable, h: string, rest: seq<Node>, off: nat, orig: string, m: Mode)
    requires !p.failed && AllOk(rest) && Shape(rest, m) && ColsOk(d.cols)
    requires p.buff == h + Flat(rest) && off == |h|
    requires forall j, k :: 0 <= j < k < |rest| ==> !(Names(rest[j], d.name) && Names(rest[k], d.name))
    ensures var q := Run(p, InsertRow, d, Events(rest, off, orig));
            !q.failed && q.buff == h + Flat(AddNodes(rest, off, orig, d)) && AllOk(AddNodes(rest, off, orig, d))
    decreases |rest|
  {
    hide NodeOk, RunNode, NextMode, NodeEvents, Step, Names, Flat, Shape;
    if rest == [] {
    } else {
      hide Run, Events, AddNodes;
      ShapeFirst(rest, m);
      var n, rt := rest[0], rest[1..];
      var off' := off + |NodeText(n)|;
      var q := RunNode(p, InsertRow, d, n, off, orig);
      var m' := NextMode(m, n).value;
      RunCons(p, InsertRow, d, rest, off, orig);
      assert rest == [n] + rt;
      FlatCons(n, rt);
      if Names(n, d.name) {
        AddOne(p, d, h, n, rt, off, orig, m);
        InsertRest(q, InsertRow, d, rt, off', orig, m');
      } else {
        AddNodesStep(rest, off, orig, d);
        InsertQuiet(p, InsertRow, d, n, off, orig, m);
        Regroup6(h, n.raw, n.tail + Flat(rt));
        Regroup7(h, n.raw, n.tail, Flat(rt));
        AddPass(q, d, h + n.raw + n.tail, rt, off', orig, m');
        FlatCons(n, AddNodes(rt, off', orig, d));
        Regroup6(h, n.raw, n.tail + Flat(AddNodes(rt, off', orig, d)));
        Regroup7(h, n.raw, n.tail, Flat(AddNodes(rt, off', orig, d)));
      }
    }
  }

  lemma AddOne(p: Pass, d: DbTable, h: string, n: Node, rt: seq<Node>, off: nat, orig: string, m: Mode)
    requires !p.failed && NodeOk(n) && AllOk(rt) && NextMode(m, n).Some? && Names(n, d.name) && ColsOk(d.cols)
    requires p.buff == h + (n.raw + (n.tail + Flat(rt))) && off == |h|
    ensures var q := RunNode(p, InsertRow, d, n, off, orig);
            var nodes := AddNodes([n] + rt, off, orig, d);
            !q.failed && q.buff == h + Flat(nodes) && AllOk(nodes)
  {
    hide ReadNode, RunNode, NextMode, Names, Flat, RowText;
    var nl := "\n" + Spaces(ColumnOf(orig, off) + 3);
    var row := NewRow(d, n.tail);
    Regroup6(h, n.raw, n.tail + Flat(rt));
    AddHit(p, d, n, off, orig, h + n.raw, n.tail + Flat(rt), m);
    assert "\n" + (Spaces(ColumnOf(orig, off) + 3) + row.raw) == nl + row.raw;
    AddText(h, n, nl, row, Flat(rt));
    FlatTwo(n.(tail := nl), row, rt);
    NewRowOk(d, n.tail);
    assert ([n] + rt)[1..] == rt;
    assert '<' !in nl;
  }

  // ----- create

  /** getName() is written without escaping. */
  predicate TitleOk(name: string) {
    forall k :: 0 <= k < |name| ==> name[k] !in {'&', '<', '>', '\'', '\"', '\t', '\n', '\r'}
  }

  function NewTable(name: string, col: nat): Node {
    Node(TableTag(name), Tag(Open("TABLE", [Attr("name", name)])), TableGap(col))
  }

  function NewClose(tail: string): Node {
    Node("</TABLE>", Tag(Close("TABLE")), tail)
  }

  /** The new table is the first in the database. */
  function CreateNodes(nodes: seq<Node>, off: nat, orig: string, name: string): seq<Node> {
    if nodes == [] then []
    else if IsDatabase(nodes[0]) then
      var col := ColumnOf(orig, off);
      [nodes[0].(tail := "\n" + Spaces(col + 3) + " "), NewTable(name, col), NewClose(nodes[0].tail)] + nodes[1..]
    else [nodes[0]] + CreateNodes(nodes[1..], off + |NodeText(nodes[0])|, orig, name)
  }

  lemma {:induction false} NormalPlain(s: string)
    requires forall k :: 0 <= k < |s| ==> s[k] !in {'\t', '\n', '\r'}
    ensures Normal(s) == s
  {
    if s != "" { NormalPlain(s[1..]); }
  }

  lemma NameFollows(s: string, i: nat, n: string, t: string)
    requires At(s, i, n + t) && t != "" && !IsNameChar(t[0]) && forall k :: 0 <= k < |n| ==> IsNameChar(n[k])
    ensures NameEnd(s, i) == i + |n| && i + |n| < |s| && s[i + |n|] == t[0] && s[i..i + |n|] == n
  {
    AtAppend(s, i, n, t);
    assert s[i + |n| + 0] == t[0];
    NameEndIs(s, i, n);
  }

  lemma TableAttrReads(s: string, a: nat, name: string)
    requires TitleOk(name) && At(s, a, "name" + ("='" + (name + "'>"))) && |s| == a + 8 + |name|
    ensures ReadAttr(s, a) == Some((Attr("name", name), |s| - 1)) && s[|s| - 1] == '>'
  {
    hide ReadValue, EntityAt, At;
    var v := name + "'>";
    NameFollows(s, a, "name", "='" + v);
    AtAppend(s, a, "name", "='" + v);
    AtAppend(s, a + 4, "='", v);
    AtAppend(s, a + 6, name, "'>");
    TwoChars(s, a + 4, "='");
    TwoChars(s, a + 6 + |name|, "'>");
    EncodePlain(name);
    NormalPlain(name);
    ValueReads(s, a + 6, name);
    assert SkipWs(s, a + 4) == a + 4 && SkipWs(s, a + 5) == a + 5;
  }

  lemma TwoChars(s: string, i: nat, t: string)
    requires |t| == 2 && At(s, i, t)
    ensures i + 2 <= |s| && s[i] == t[0] && s[i + 1] == t[1]
  {
    assert s[i + 0] == t[0] && s[i + 1] == t[1];
  }

  lemma TableTagReads(name: string)
    requires TitleOk(name)
    ensures ReadNode(TableTag(name), 0) == Some((Tag(Open("TABLE", [Attr("name", name)])), |TableTag(name)|))
  {
    hide ReadAttr, At, ReadMarkup, ReadRowBody, NameEnd, SkipWs, TitleOk;
    var s := TableTag(name);
    var tail := "name" + ("='" + (name + "'>"));
    assert s == "<" + ("TABLE" + (" " + tail));
    AtSelf(s);
    AtAppend(s, 0, "<", "TABLE" + (" " + tail));
    NameFollows(s, 1, "TABLE", " " + tail);
    AtAppend(s, 1, "TABLE", " " + tail);
    AtAppend(s, 6, " ", tail);
    TableAttrReads(s, 7, name);
    CharAt(s, 0, "<", 0);
    CharAt(s, 1, "TABLE" + (" " + tail), 0);
    CharAt(s, 6, " ", 0);
    CharAt(s, 7, tail, 0);
    SkipWsOne(s, 6);
    TableTagEnd(s, name);
    ElementsDiffer("TABLE");
    TableIsTable();
  }

  lemma TableTagEnd(s: string, name: string)
    requires |s| > 8 && s[0] == '<' && s[1] == 'T' && s[7] == 'n' && s[|s| - 1] == '>'
    requires NameEnd(s, 1) == 6 && s[1..6] == "TABLE" && SkipWs(s, 6) == 7
    requires ReadAttr(s, 7) == Some((Attr("name", name), |s| - 1))
    ensures ReadMarkup(s, 0) == Some((Open("TABLE", [Attr("name", name)]), |s|))
  {
    hide ReadAttr, MiscEnd, ReadClose, NameEnd;
    assert SkipWs(s, |s| - 1) == |s| - 1;
    assert ReadAttrs(s, |s| - 1) == Some(TagRest([], false, |s|));
    assert [Attr("name", name)] + [] == [Attr("name", name)];
    assert ReadAttrs(s, 6) == Some(TagRest([Attr("name", name)], false, |s|));
  }

  lemma TableIsTable()
    ensures EqNoCase("TABLE", "table") && EqNoCase("name", "name")
  {
    var a, b := Lower("TABLE"), Lower("table");
    assert forall k :: 0 <= k < 5 ==> a[k] == b[k];
    assert a == b;
  }

  lemma CloseTagReads()
    ensures ReadNode("</TABLE>", 0) == Some((Tag(Close("TABLE")), 8))
  {
    hide At, MiscEnd, ReadRowBody;
    var s := "</TABLE>";
    AtSelf(s);
    assert s == "</" + ("TABLE" + ">");
    AtAppend(s, 0, "</", "TABLE" + ">");
    NameFollows(s, 2, "TABLE", ">");
    assert SkipWs(s, 7) == 7;
  }

  lemma TablePieces(name: string, col: nat)
    requires TitleOk(name)
    ensures NodeOk(NewTable(name, col)) && NodeOk(NewClose(""))
  {
    hide ReadNode;
    TableTagReads(name);
    CloseTagReads();
  }

  lemma CreateHit(p: Pass, d: DbTable, n: Node, off: nat, orig: string, a: string, c: string)
    requires !p.failed && IsDatabase(n) && p.buff == a + c && |a| == off + |n.raw|
    ensures var q := RunNode(p, InsertTable, d, n, off, orig);
            !q.failed && q.buff == a + TableText(d.name, ColumnOf(orig, off)) + c
  {
    hide CutRow, ColumnOf, EqNoCase, Replace, TableText;
    ElementsDiffer(n.kind.markup.name);
    var ev := NodeEvents(n, off, orig)[0];
    RunOne(p, InsertTable, d, ev);
    ReplaceInsert(a, c, TableText(d.name, ColumnOf(orig, off)));
  }

  /** The four pieces the literal of xdb_queryStart consists of. */
  lemma CreateText(h: string, n: Node, nl: string, t: Node, c: Node, rt: string)
    requires c.tail == n.tail
    ensures (h + n.raw) + (nl + t.raw + t.tail + c.raw) + (n.tail + rt) ==
            h + (NodeText(n.(tail := nl)) + (NodeText(t) + (NodeText(c) + rt)))
  {
    assert (h + n.raw) + (nl + t.raw + t.tail + c.raw) + (n.tail + rt) ==
      h + (n.raw + nl + (t.raw + t.tail + (c.raw + n.tail + rt)));
  }

  lemma FlatThree(a: Node, b: Node, c: Node, rest: seq<Node>)
    ensures Flat([a, b, c] + rest) == NodeText(a) + (NodeText(b) + (NodeText(c) + Flat(rest)))
  {
    hide NodeText;
    assert ([a, b, c] + rest)[1..] == [b, c] + rest;
    FlatTwo(b, c, rest);
  }

  lemma CreateOne(p: Pass, d: DbTable, h: string, n: Node, rt: seq<Node>, off: nat, orig: string)
    requires !p.failed && NodeOk(n) && AllOk(rt) && IsDatabase(n)
    requires p.buff == h + (n.raw + (n.tail + Flat(rt))) && off == |h|
    ensures var q := RunNode(p, InsertTable, d, n, off, orig);
            var nodes := CreateNodes([n] + rt, off, orig, d.name);
            !q.failed && q.buff == h + Flat(nodes) && (TitleOk(d.name) ==> AllOk(nodes))
  {
    hide ReadNode, RunNode, Flat, IsDatabase, TableTag, TableGap;
    var col := ColumnOf(orig, off);
    var nl := "\n" + Spaces(col + 3) + " ";
    var t, c := NewTable(d.name, col), NewClose(n.tail);
    Regroup6(h, n.raw, n.tail + Flat(rt));
    CreateHit(p, d, n, off, orig, h + n.raw, n.tail + Flat(rt));
    CreateText(h, n, nl, t, c, Flat(rt));
    FlatThree(n.(tail := nl), t, c, rt);
    if TitleOk(d.name) { TablePieces(d.name, col); }
    assert ([n] + rt)[1..] == rt;
    assert '<' !in nl;
  }

  lemma NoDatabaseLater(m: Mode, rest: seq<Node>, name: string)
    requires !m.Prolog? && Shape(rest, m)
    ensures AllCalm(rest, InsertTable, name)
    decreases |rest|
  {
    hide EqNoCase;
    if rest != [] {
      DatabaseIsNotTable(rest[0]);
      NoDatabaseLater(NextMode(m, rest[0]).value, rest[1..], name);
      assert forall k :: 0 < k < |rest| ==> rest[k] == rest[1..][k - 1];
    }
  }

  lemma DatabaseIsNotTable(n: Node)
    ensures !(IsDatabase(n) && IsTable(n))
  {
    if IsDatabase(n) && IsTable(n) { ElementsDiffer(n.kind.markup.name); }
  }

  /** The create pass: whatever the name, the table goes behind the database tag; a plain name makes it well formed. */
  lemma {:induction false} CreatePass(p: Pass, d: DbTable, h: string, rest: seq<Node>, off: nat, orig: string)
    requires !p.failed && AllOk(rest) && Shape(rest, Prolog)
    requires p.buff == h + Flat(rest) && off == |h|
    ensures var q := Run(p, InsertTable, d, Events(rest, off, orig));
            var nodes := CreateNodes(rest, off, orig, d.name);
            !q.failed && q.buff == h + Flat(nodes) && (TitleOk(d.name) ==> AllOk(nodes))
    decreases |rest|
  {
    hide NodeOk, RunNode, NodeEvents, Step, IsDatabase, Flat, TitleOk;
    if rest != [] {
      hide Run, Events;
      var n, rt := rest[0], rest[1..];
      var off' := off + |NodeText(n)|;
      var q := RunNode(p, InsertTable, d, n, off, orig);
      RunCons(p, InsertTable, d, rest, off, orig);
      assert rest == [n] + rt;
      FlatCons(n, rt);
      if IsDatabase(n) {
        DatabaseMode(n);
        CreateOne(p, d, h, n, rt, off, orig);
        NoDatabaseLater(InDb, rt, d.name);
        InsertRest(q, InsertTable, d, rt, off', orig, InDb);
      } else {
        InsertQuiet(p, InsertTable, d, n, off, orig, Prolog);
        Regroup6(h, n.raw, n.tail + Flat(rt));
        Regroup7(h, n.raw, n.tail, Flat(rt));
        CreatePass(q, d, h + n.raw + n.tail, rt, off', orig);
        var nodes := CreateNodes(rt, off', orig, d.name);
        FlatCons(n, nodes);
        Regroup6(h, n.raw, n.tail + Flat(nodes));
        Regroup7(h, n.raw, n.tail, Flat(nodes));
      }
    }
  }

  lemma DatabaseMode(n: Node)
    requires IsDatabase(n)
    ensures NextMode(Prolog, n) == Some(InDb)
  {
    hide EqNoCase;
  }
}
