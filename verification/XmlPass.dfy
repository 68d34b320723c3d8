/** One pass over the file: the parser's callbacks edit dbBuff while the parser reads an untouched copy. */
module XmlPass {
  import opened Text
  import opened XmlReader
  import opened XmlDoc
  import opened XmlTable

  datatype Action = SelectRow | InsertRow | UpdateRow | DeleteRow | InsertTable

  // ----- what the parser reports

  /** el, attributes, byte index, byte count and column of a tag; for an empty tag the end has count 0. */
  datatype Event =
    | Start(el: string, attrs: seq<Attr>, idx: nat, cnt: nat, col: nat)
    | Stop(el: string, idx: nat, cnt: nat)

  /** Number of characters of s between the last line break before i and i. */
  function ColumnOf(s: string, i: nat): (c: nat)
    ensures c <= i
  {
    if i == 0 || i > |s| || s[i - 1] == '\n' then 0 else 1 + ColumnOf(s, i - 1)
  }

  function NodeEvents(n: Node, off: nat, orig: string): seq<Event> {
    var len := |n.raw|;
    match n.kind
    case Row(el, attrs, openLen, closeLen) =>
      [Start(el, attrs, off, openLen, ColumnOf(orig, off)),
       Stop(el, if closeLen <= len then off + len - closeLen else off, closeLen)]
    case Tag(Misc) => []
    case Tag(Open(el, attrs)) => [Start(el, attrs, off, len, ColumnOf(orig, off))]
    case Tag(Close(el)) => [Stop(el, off, len)]
    case Tag(Empty(el, attrs)) => [Start(el, attrs, off, len, ColumnOf(orig, off)), Stop(el, off + len, 0)]
  }

  /** The callbacks for units that start at off of the text orig. */
  function Events(nodes: seq<Node>, off: nat, orig: string): seq<Event> {
    if nodes == [] then []
    else NodeEvents(nodes[0], off, orig) + Events(nodes[1..], off + |NodeText(nodes[0])|, orig)
  }

  // ----- what the callbacks do (xdb_compareRow, xdb_queryStart, xdb_queryStop)

  predicate CellMatches(c: Cell, v: string) {
    match c
    case BoolCell(b) => EqNoCase(v, "true") == b
    case IntCell(i) => Atoi(v) == i
    case StrCell(s) => EqNoCase(v, s)
    case DateCell(iso) => EqNoCase(v, iso)
    case OtherCell => true
  }

  /** Every attribute named like a requested column has the requested value; a missing one does not count. */
  predicate RowMatches(cols: seq<Column>, attrs: seq<Attr>) {
    forall i :: 0 <= i < |cols| && cols[i].request ==>
      forall k :: 0 <= k < |attrs| && EqNoCase(attrs[k].name, cols[i].name) ==>
        CellMatches(cols[i].cell, attrs[k].value)
  }

  /** The state the callbacks work on; failed: std::out_of_range was thrown. */
  datatype Pass = Pass(buff: string, skip: bool, s0: int, s1: int, depth: nat, dev: int,
                       res: map<int, Record>, failed: bool)

  /** string::replace(pos, n, t) after conversion of both int arguments to size_t. */
  function Replace(s: string, pos: int, n: int, t: string): Option<string> {
    if pos < 0 || pos > |s| then None
    else Some(s[..pos] + t + s[if n < 0 || pos + n > |s| then |s| else pos + n..])
  }

  const BLANKS: set<char> := {' ', '\t'}
  const SPACES: set<char> := {' ', '\t', '\n'}

  function Edit(p: Pass, r: Option<string>): Pass {
    match r case None => p.(failed := true) case Some(b) => p.(buff := b)
  }

  /** A name attribute of a table tag. */
  function OnTableName(p: Pass, act: Action, d: DbTable, value: string, ev: Event): Pass
    requires ev.Start?
  {
    if !EqNoCase(value, d.name) then p.(skip := true)
    else
      var q := p.(skip := false, s0 := ev.idx, s1 := ev.cnt);
      if act.InsertRow? then
        Edit(q.(skip := true, depth := ev.col),
             Replace(p.buff, ev.idx + ev.cnt, 0, "\n" + (Spaces(ev.col + 3) + RowText(d.cols, false, map[]))))
      else q
  }

  function OnTable(p: Pass, act: Action, d: DbTable, attrs: seq<Attr>, ev: Event): Pass
    requires ev.Start?
    decreases |attrs|
  {
    if attrs == [] || p.failed then p
    else
      OnTable(if EqNoCase(attrs[0].name, "name") then OnTableName(p, act, d, attrs[0].value, ev) else p,
              act, d, attrs[1..], ev)
  }

  /** The text xdb_queryStart puts after the database tag: an empty table. */
  function TableText(name: string, col: nat): string {
    "\n" + Spaces(col + 3) + " " + TableTag(name) + TableGap(col) + "</TABLE>"
  }

  function TableTag(name: string): string {
    "<TABLE name='" + name + "'>"
  }

  /** The line continuation inside the literal leaves the next source line's indentation in the text. */
  function TableGap(col: nat): string {
    Spaces(15) + "\n" + Spaces(col + 3) + " "
  }

  function OnRowStart(p: Pass, act: Action, d: DbTable, ev: Event): Pass
    requires ev.Start?
  {
    var hit := RowMatches(d.cols, ev.attrs);
    match act
    case SelectRow => if hit then p.(res := p.res[|p.res| := RecordOf(ev.attrs)]) else p
    case UpdateRow =>
      if hit then p.(s0 := ev.idx, s1 := ev.cnt, depth := ev.col, res := p.res[|p.res| := RecordOf(ev.attrs)])
      else p.(s0 := -1, s1 := -1)
    case DeleteRow => if hit then p.(s0 := ev.idx, s1 := ev.cnt) else p.(s0 := -1, s1 := -1)
    case _ => p
  }

  /** Removal of len characters at pos, then of the white space around that place. */
  function CutRow(p: Pass, pos: int, len: int): Pass {
    match Replace(p.buff, pos, len, "")
    case None => p.(failed := true)
    case Some(b1) =>
      var dotE := FindFirstNotOf(b1, BLANKS, pos);
      var dotS := FindLastNotOf(b1, SPACES, pos) + 1;
      Edit(p.(dev := p.dev + len + (dotE - dotS)), Replace(b1, dotS, dotE - dotS, ""))
  }

  function OnRowStop(p: Pass, act: Action, d: DbTable, ev: Event): Pass
    requires ev.Stop?
  {
    var len := ev.idx + ev.cnt - p.s0;
    if act.DeleteRow? then
      if p.s0 == -1 && p.s1 == -1 then p else CutRow(p, p.s0 - p.dev, len)
    else if act.UpdateRow? then
      if p.s0 == -1 && p.s1 == -1 then p
      else
        var row := RowText(d.cols, true, if 0 in p.res then p.res[0] else map[]);
        Edit(p.(dev := p.dev + len - |row|, res := map[]), Replace(p.buff, p.s0 - p.dev, len, row))
    else p
  }

  function Step(p: Pass, act: Action, d: DbTable, ev: Event): Pass {
    if p.failed then p
    else
      match ev
      case Start(el, attrs, idx, cnt, col) =>
        if EqNoCase(el, "table") then OnTable(p, act, d, attrs, ev)
        else if EqNoCase(el, "database") && act.InsertTable? then
          Edit(p.(skip := true, s0 := idx, s1 := cnt, depth := col),
               Replace(p.buff, idx + cnt, 0, TableText(d.name, col)))
        else if !p.skip && EqNoCase(el, "row") then OnRowStart(p, act, d, ev)
        else p
      case Stop(el, idx, cnt) =>
        if p.skip then p
        else if EqNoCase(el, "row") then OnRowStop(p, act, d, ev)
        else p.(skip := true)
  }

  function Run(p: Pass, act: Action, d: DbTable, evs: seq<Event>): Pass
    decreases |evs|
  {
    if evs == [] then p else Run(Step(p, act, d, evs[0]), act, d, evs[1..])
  }

  function InitPass(buff: string): Pass {
    Pass(buff, false, 0, 0, 0, 0, map[], false)
  }

  /** xmlAction on a file that parses: None stands for exit(-1) on a parse error. */
  function RunAction(buff: string, act: Action, d: DbTable): Option<Pass> {
    match Scan(buff)
    case None => None
    case Some(doc) => Some(Run(InitPass(buff), act, d, Events(doc.nodes, |doc.head|, buff)))
  }

  lemma {:induction false} RunAppend(p: Pass, act: Action, d: DbTable, a: seq<Event>, b: seq<Event>)
    ensures Run(p, act, d, a + b) == Run(Run(p, act, d, a), act, d, b)
    decreases |a|
  {
    hide Step;
    if a == [] {
      assert a + b == b;
    } else {
      assert (a + b)[1..] == a[1..] + b;
      RunAppend(Step(p, act, d, a[0]), act, d, a[1..], b);
    }
  }
}
