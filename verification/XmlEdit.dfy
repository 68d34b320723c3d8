/** The same operations on the list of units, and the proof that a pass over the text carries them out. */
module XmlEdit {
  import opened Text
  import opened XmlReader
  import opened XmlDoc
  import opened XmlTable
  import opened XmlPass

  // ----- the documents the driver works on

  /** Values of the attributes called name, in any case. */
  function NameValues(attrs: seq<Attr>): seq<string> {
    if attrs == [] then []
    else (if EqNoCase(attrs[0].name, "name") then [attrs[0].value] else []) + NameValues(attrs[1..])
  }

  predicate IsTable(n: Node) {
    n.kind.Tag? && n.kind.markup.Open? && EqNoCase(n.kind.markup.name, "table") &&
    |NameValues(n.kind.markup.attrs)| == 1
  }

  function Title(n: Node): string
    requires IsTable(n)
  {
    NameValues(n.kind.markup.attrs)[0]
  }

  predicate IsDatabase(n: Node) {
    n.kind.Tag? && n.kind.markup.Open? && EqNoCase(n.kind.markup.name, "database")
  }

  predicate IsClose(n: Node, el: string) {
    n.kind.Tag? && n.kind.markup.Close? && EqNoCase(n.kind.markup.name, el)
  }

  predicate IsMisc(n: Node) {
    n.kind == Tag(Misc)
  }

  datatype Mode = Prolog | InDb | InTable | Done

  /** The grammar of a database file: one database element, in it tables with one name each, in them rows. */
  function NextMode(m: Mode, n: Node): Option<Mode> {
    if IsMisc(n) then Some(m)
    else
      match m
      case Prolog => if IsDatabase(n) then Some(InDb) else None
      case InDb => if IsTable(n) then Some(InTable) else if IsClose(n, "database") then Some(Done) else None
      case InTable => if n.kind.Row? then Some(InTable) else if IsClose(n, "table") then Some(InDb) else None
      case Done => None
  }

  predicate Shape(nodes: seq<Node>, m: Mode) {
    if nodes == [] then m.Done?
    else NextMode(m, nodes[0]).Some? && Shape(nodes[1..], NextMode(m, nodes[0]).value)
  }

  /** The skip flag after a unit. */
  function NodeSkip(n: Node, skip: bool, name: string): bool {
    if IsTable(n) then !EqNoCase(Title(n), name)
    else if n.kind.Tag? && n.kind.markup.Close? then true
    else skip
  }

  /** A row the action applies to. */
  predicate Hit(n: Node, skip: bool, d: DbTable) {
    n.kind.Row? && !skip && RowMatches(d.cols, n.kind.attrs)
  }

  // ----- deletion on the list of units

  function TrimEnd(t: string): (r: string)
    ensures |r| <= |t| && r == t[..|r|]
    ensures forall k :: |r| <= k < |t| ==> t[k] in SPACES
    ensures |r| > 0 ==> r[|r| - 1] !in SPACES
  {
    if t != "" && t[|t| - 1] in SPACES then TrimEnd(t[..|t| - 1]) else t
  }

  function DropBlanks(t: string): (r: string)
    ensures |r| <= |t| && r == t[|t| - |r|..]
    ensures forall k :: 0 <= k < |t| - |r| ==> t[k] in BLANKS
    ensures |r| > 0 ==> r[0] !in BLANKS
  {
    if t != "" && t[0] in BLANKS then DropBlanks(t[1..]) else t
  }

  /** The unit before a removed row loses its trailing white space and gains what follows the row's blanks. */
  function Absorb(n: Node, tail: string): Node {
    n.(tail := TrimEnd(n.tail) + DropBlanks(tail))
  }

  function AbsorbLast(done: seq<Node>, tail: string): (r: seq<Node>)
    requires done != []
    ensures |r| == |done|
  {
    done[..|done| - 1] + [Absorb(done[|done| - 1], tail)]
  }

  /** done: units already passed, with the removals made; rest: units still to come. */
  function DelNodes(done: seq<Node>, rest: seq<Node>, skip: bool, d: DbTable): seq<Node>
    decreases |rest|
  {
    if rest == [] then done
    else if Hit(rest[0], skip, d) && done != [] then
      DelNodes(AbsorbLast(done, rest[0].tail), rest[1..], skip, d)
    else DelNodes(done + [rest[0]], rest[1..], NodeSkip(rest[0], skip, d.name), d)
  }

  /** Every row the action applies to has a blank, tab or newline right after it. */
  predicate Spaced(nodes: seq<Node>, skip: bool, d: DbTable)
    decreases |nodes|
  {
    nodes == [] ||
    ((Hit(nodes[0], skip, d) ==> nodes[0].tail != "" && nodes[0].tail[0] in SPACES) &&
     Spaced(nodes[1..], NodeSkip(nodes[0], skip, d.name), d))
  }

  // ----- update on the list of units

  function UpdNode(n: Node, d: DbTable): Node
    requires n.kind.Row?
  {
    var prev := RecordOf(n.kind.attrs);
    var t := RowText(d.cols, true, prev);
    Node(t, Row("row", RowAttrs(d.cols, true, prev), |t|, 0), n.tail)
  }

  function UpdNodes(nodes: seq<Node>, skip: bool, d: DbTable): seq<Node>
    decreases |nodes|
  {
    if nodes == [] then []
    else [if Hit(nodes[0], skip, d) then UpdNode(nodes[0], d) else nodes[0]] +
         UpdNodes(nodes[1..], NodeSkip(nodes[0], skip, d.name), d)
  }

  /** The records of the rows a select meets, in document order. */
  function SelRows(nodes: seq<Node>, skip: bool, d: DbTable): seq<seq<Attr>>
    decreases |nodes|
  {
    if nodes == [] then []
    else (if Hit(nodes[0], skip, d) then [nodes[0].kind.attrs] else []) +
         SelRows(nodes[1..], NodeSkip(nodes[0], skip, d.name), d)
  }

  // ----- units that do not concern the action

  predicate RowAction(act: Action) {
    act in {SelectRow, UpdateRow, DeleteRow}
  }

  /** What a unit that is not hit leaves as it was. */
  ghost predicate Untouched(p: Pass, q: Pass) {
    q.buff == p.buff && q.dev == p.dev && q.res == p.res && !q.failed
  }

  /** The element names the driver knows are different in any case. */
  lemma ElementsDiffer(el: string)
    ensures EqNoCase(el, "table") ==> !EqNoCase(el, "row") && !EqNoCase(el, "database")
    ensures EqNoCase(el, "row") ==> !EqNoCase(el, "table") && !EqNoCase(el, "database")
    ensures EqNoCase(el, "database") ==> !EqNoCase(el, "table") && !EqNoCase(el, "row")
  {
    assert |Lower("table")| == 5 && |Lower("row")| == 3 && |Lower("database")| == 8;
  }

  /** The loop over a table tag's attributes acts once, on the one name. */
  lemma OnTableOnce(p: Pass, act: Action, d: DbTable, attrs: seq<Attr>, ev: Event)
    requires ev.Start? && !p.failed && |NameValues(attrs)| <= 1
    ensures OnTable(p, act, d, attrs, ev) ==
            if |NameValues(attrs)| == 0 then p else OnTableName(p, act, d, NameValues(attrs)[0], ev)
    decreases |attrs|
  {
    hide OnTableName, EqNoCase;
    if attrs != [] {
      if EqNoCase(attrs[0].name, "name") {
        var q := OnTableName(p, act, d, attrs[0].value, ev);
        assert NameValues(attrs) == [attrs[0].value] + NameValues(attrs[1..]);
        if !q.failed { OnTableOnce(q, act, d, attrs[1..], ev); }
      } else {
        assert NameValues(attrs) == [] + NameValues(attrs[1..]) == NameValues(attrs[1..]);
        OnTableOnce(p, act, d, attrs[1..], ev);
      }
    }
  }
}
