/** The driver itself: one shared text buffer, a list of connections, callbacks that edit the buffer in place. */
module XmlDriver {
  import opened Text
  import opened XmlReader
  import opened XmlDoc
  import opened XmlTable
  import opened XmlPass
  import opened XmlEdit
  import opened XmlRefine
  import opened XmlRows
  import opened XmlRuns
  import opened XmlValues
  import opened ConNumbers

  /** connection_struct: streamByte[0] is (startIdx, startLen), streamByte[1] is (endIdx, endLen). */
  class Connection {
    const num: int
    var act: Action
    var dbt: DbTable
    var skipObj: bool
    var startIdx: int
    var startLen: int
    var endIdx: int
    var endLen: int
    var depth: nat
    var buffDeviation: int
    var resMap: map<int, Record>

    constructor (n: int, junk: Action)
      ensures num == n && resMap == map[] && act == junk
    {
      num := n;
      act, dbt := junk, DbTable("", []);
      skipObj, startIdx, startLen, endIdx, endLen, depth, buffDeviation := false, 0, 0, 0, 0, 0, 0;
      resMap := map[];
    }
  }

  /** The first connection with a number, as every entry point looks it up. */
  function Lookup(con: seq<Connection>, num: int): (i: int)
    ensures i == -1 ==> forall k :: 0 <= k < |con| ==> con[k].num != num
    ensures i != -1 ==> 0 <= i < |con| && con[i].num == num && forall k :: 0 <= k < i ==> con[k].num != num
  {
    if con == [] then -1
    else if con[0].num == num then 0
    else if Lookup(con[1..], num) == -1 then -1 else 1 + Lookup(con[1..], num)
  }

  /** xdb_compareRow. */
  method CompareRow(cols: seq<Column>, attrs: seq<Attr>) returns (r: bool)
    ensures r == RowMatches(cols, attrs)
  {
    hide CellMatches, EqNoCase;
    var i := 0;
    while i < |cols|
      invariant i <= |cols| && RowMatches(cols[..i], attrs)
    {
      if cols[i].request {
        var att := 0;
        while att < |attrs|
          invariant att <= |attrs|
          invariant forall k :: 0 <= k < att && EqNoCase(attrs[k].name, cols[i].name) ==>
                      CellMatches(cols[i].cell, attrs[k].value)
        {
          if EqNoCase(attrs[att].name, cols[i].name) && !CellMatches(cols[i].cell, attrs[att].value) {
            return false;
          }
          att := att + 1;
        }
      }
      assert cols[..i + 1] == cols[..i] + [cols[i]];
      i := i + 1;
    }
    assert cols[..i] == cols;
    return true;
  }

  class XmlDb {
    var dbBuff: string
    var file: string    // the file on disk, "" if it cannot be read
    var isOpen: bool
    var con: seq<Connection>
    var crashed: bool   // std::out_of_range left a callback
    var exited: bool    // exit(-1) after a parse error

    constructor (text: string)
      ensures file == text && dbBuff == "" && con == [] && !isOpen && !crashed && !exited
    {
      file, dbBuff, con, isOpen, crashed, exited := text, "", [], false, false, false;
    }

    function State(c: Connection): Pass
      reads this, c
    {
      Pass(dbBuff, c.skipObj, c.startIdx, c.startLen, c.depth, c.buffDeviation, c.resMap, crashed)
    }

    /** dbBuff.replace and dbBuff.insert. */
    method Splice(pos: int, n: int, t: string)
      modifies this`dbBuff, this`crashed
      ensures match Replace(old(dbBuff), pos, n, t)
              case None => dbBuff == old(dbBuff) && crashed
              case Some(b) => dbBuff == b && crashed == old(crashed)
    {
      if pos < 0 || pos > |dbBuff| {
        crashed := true;
      } else {
        var e := if n < 0 || pos + n > |dbBuff| then |dbBuff| else pos + n;
        dbBuff := dbBuff[..pos] + t + dbBuff[e..];
      }
    }

    /** The attribute loop of xdb_queryStart for a table tag. */
    method TableStart(c: Connection, ev: Event)
      requires ev.Start? && !crashed
      modifies this`dbBuff, this`crashed, c`skipObj, c`startIdx, c`startLen, c`depth
      ensures State(c) == OnTable(old(State(c)), c.act, c.dbt, ev.attrs, ev)
    {
      hide RowText, EqNoCase, Replace;
      var i := 0;
      while i < |ev.attrs| && !crashed
        invariant i <= |ev.attrs|
        invariant OnTable(State(c), c.act, c.dbt, ev.attrs[i..], ev) ==
                  OnTable(old(State(c)), c.act, c.dbt, ev.attrs, ev)
        invariant c.buffDeviation == old(c.buffDeviation) && c.resMap == old(c.resMap)
      {
        var a := ev.attrs[i];
        assert ev.attrs[i..][1..] == ev.attrs[i + 1..];
        if EqNoCase(a.name, "name") {
          if EqNoCase(a.value, c.dbt.name) {
            c.skipObj := false;
            c.startIdx, c.startLen := ev.idx, ev.cnt;
            if c.act == InsertRow {
              c.depth := ev.col;
              var row := MakeRow(c.dbt, false, map[], c.depth + 3);
              Splice(ev.idx + ev.cnt, 0, "\n" + row);
              c.skipObj := true;
            }
          } else {
            c.skipObj := true;
          }
        }
        i := i + 1;
      }
    }

    /** The row branch of xdb_queryStart. */
    method RowStart(c: Connection, ev: Event)
      requires ev.Start? && !crashed
      modifies c`startIdx, c`startLen, c`depth, c`resMap
      ensures State(c) == OnRowStart(old(State(c)), c.act, c.dbt, ev)
    {
      hide RowMatches, RecordOf;
      match c.act {
        case SelectRow =>
          var hit := CompareRow(c.dbt.cols, ev.attrs);
          if hit { c.resMap := c.resMap[|c.resMap| := RecordOf(ev.attrs)]; }
        case UpdateRow =>
          c.startIdx, c.startLen := -1, -1;
          var hit := CompareRow(c.dbt.cols, ev.attrs);
          if hit {
            c.startIdx, c.startLen := ev.idx, ev.cnt;
            c.depth := ev.col;
            c.resMap := c.resMap[|c.resMap| := RecordOf(ev.attrs)];
          }
        case DeleteRow =>
          c.startIdx, c.startLen := -1, -1;
          var hit := CompareRow(c.dbt.cols, ev.attrs);
          if hit { c.startIdx, c.startLen := ev.idx, ev.cnt; }
        case _ =>
      }
    }

    /** xdb_queryStart. */
    method QueryStart(c: Connection, ev: Event)
      requires ev.Start? && !crashed
      modifies this`dbBuff, this`crashed, c`skipObj, c`startIdx, c`startLen, c`depth, c`resMap
      ensures State(c) == Step(old(State(c)), c.act, c.dbt, ev)
    {
      hide OnTable, OnRowStart, EqNoCase, TableText, Replace;
      if EqNoCase(ev.el, "table") {
        TableStart(c, ev);
      } else if EqNoCase(ev.el, "database") && c.act == InsertTable {
        c.startIdx, c.startLen, c.depth := ev.idx, ev.cnt, ev.col;
        Splice(ev.idx + ev.cnt, 0, TableText(c.dbt.name, c.depth));
        c.skipObj := true;
      } else if !c.skipObj && EqNoCase(ev.el, "row") {
        RowStart(c, ev);
      }
    }

    /** The row branch of xdb_queryStop. */
    method RowStop(c: Connection, ev: Event)
      requires ev.Stop? && !crashed
      modifies this`dbBuff, this`crashed, c`endIdx, c`endLen, c`buffDeviation, c`resMap
      ensures State(c).failed == OnRowStop(old(State(c)), c.act, c.dbt, ev).failed
      ensures !crashed ==> State(c) == OnRowStop(old(State(c)), c.act, c.dbt, ev)
    {
      hide CutRow, Replace, RowText;
      if c.act == DeleteRow || c.act == UpdateRow {
        if c.startIdx == -1 && c.startLen == -1 { return; }
        c.endIdx, c.endLen := ev.idx, ev.cnt;
        var pos, len := c.startIdx - c.buffDeviation, c.endIdx + c.endLen - c.startIdx;
        if c.act == DeleteRow {
          Cut(c, pos, len);
        } else {
          var tmprow := MakeRow(c.dbt, true, if 0 in c.resMap then c.resMap[0] else map[], 0);
          assert tmprow == Spaces(0) + RowText(c.dbt.cols, true, if 0 in c.resMap then c.resMap[0] else map[]);
          assert tmprow == RowText(c.dbt.cols, true, if 0 in c.resMap then c.resMap[0] else map[]);
          Splice(pos, len, tmprow);
          if crashed { return; }
          c.buffDeviation := c.buffDeviation + len - |tmprow|;
          c.resMap := map[];
        }
      }
    }

    /** The removal of a row and of the white space around it. */
    method Cut(c: Connection, pos: int, len: int)
      requires !crashed
      modifies this`dbBuff, this`crashed, c`buffDeviation
      ensures State(c).failed == CutRow(old(State(c)), pos, len).failed
      ensures !crashed ==> State(c) == CutRow(old(State(c)), pos, len)
    {
      hide FindFirstNotOf, FindLastNotOf, Replace;
      var dotS := pos;
      Splice(pos, len, "");
      if crashed { return; }
      c.buffDeviation := c.buffDeviation + len;
      ReplacePosition(old(dbBuff), pos, len);
      var dotE := FindFirstNotOf(dbBuff, BLANKS, dotS);
      dotS := FindLastNotOf(dbBuff, SPACES, dotS) + 1;
      Splice(dotS, dotE - dotS, "");
      if crashed { return; }
      c.buffDeviation := c.buffDeviation + (dotE - dotS);
    }

    /** xdb_queryStop. */
    method QueryStop(c: Connection, ev: Event)
      requires ev.Stop? && !crashed
      modifies this`dbBuff, this`crashed, c`skipObj, c`endIdx, c`endLen, c`buffDeviation, c`resMap
      ensures State(c).failed == Step(old(State(c)), c.act, c.dbt, ev).failed
      ensures !crashed ==> State(c) == Step(old(State(c)), c.act, c.dbt, ev)
    {
      hide OnRowStop, EqNoCase;
      if c.skipObj { return; }
      if EqNoCase(ev.el, "row") {
        RowStop(c, ev);
      } else {
        c.endIdx, c.endLen := ev.idx, ev.cnt;
        c.skipObj := true;
      }
    }

    /** xmlAction: the callbacks run over an untouched copy of the buffer; connection i of con does the work. */
    method XmlAction(num: int, d: DbTable, act: Action) returns (res: bool)
      requires !crashed && !exited
      modifies this`dbBuff, this`crashed, this`exited, con
      ensures Lookup(con, num) == -1 ==> !res && unchanged(this) && forall c :: c in con ==> unchanged(c)
      ensures Lookup(con, num) != -1 ==>
                match RunAction(old(dbBuff), act, d)
                case None => exited && !res && dbBuff == old(dbBuff)
                case Some(q) => !exited && crashed == q.failed && res == !crashed &&
                                (!crashed ==> dbBuff == q.buff && con[Lookup(con, num)].resMap == q.res)
    {
      hide Step, Scan, Run, Events;
      var i := Lookup(con, num);
      if i == -1 { return false; }
      var c := con[i];
      c.act, c.dbt := act, d;
      c.skipObj := false;
      c.resMap := map[];
      c.startIdx, c.startLen, c.depth, c.buffDeviation := 0, 0, 0, 0;
      var duuf := dbBuff;
      var parsed := Scan(duuf);
      if parsed.None? {
        exited := true;
        return false;
      }
      var doc := parsed.value;
      var evs := Events(doc.nodes, |doc.head|, duuf);
      Deliver(c, evs);
      return !crashed;
    }

    /** The parser's callbacks, one after the other, until one throws. */
    method Deliver(c: Connection, evs: seq<Event>)
      requires !crashed
      modifies this`dbBuff, this`crashed, c
      ensures crashed == Run(old(State(c)), old(c.act), old(c.dbt), evs).failed
      ensures !crashed ==> State(c) == Run(old(State(c)), old(c.act), old(c.dbt), evs)
      ensures c.act == old(c.act) && c.dbt == old(c.dbt)
    {
      hide Step;
      ghost var act, d := c.act, c.dbt;
      ghost var want := Run(State(c), act, d, evs);
      var k := 0;
      assert evs[0..] == evs;
      while k < |evs| && !crashed
        invariant k <= |evs| && c.act == act && c.dbt == d
        invariant crashed ==> want.failed
        invariant !crashed ==> Run(State(c), act, d, evs[k..]) == want
      {
        assert evs[k..][1..] == evs[k + 1..] && evs[k..][0] == evs[k];
        ghost var before := State(c);
        if evs[k].Start? {
          QueryStart(c, evs[k]);
        } else {
          QueryStop(c, evs[k]);
        }
        if crashed { FailedStays(Step(before, act, d, evs[k]), act, d, evs[k + 1..]); }
        k := k + 1;
      }
      if !crashed { assert evs[k..] == []; NotFailed(State(c), act, d); }
    }

    /** db_create, db_add, db_update, db_del and db_query: given a connection and a file that meets the invariant,
        the text is edited so that its tables and rows are the result of the operation on rows. */
    method Perform(num: int, op: Op, ghost doc: Doc) returns (res: bool)
      requires !crashed && !exited && Lookup(con, num) != -1
      requires Scan(dbBuff) == Some(doc) && Inv(doc) && OpOk(Tables(doc.nodes), op)
      modifies this`dbBuff, this`crashed, this`exited, con
      ensures res && !crashed && !exited && con == old(con)
      ensures Scan(dbBuff).Some? && Inv(Scan(dbBuff).value)
      ensures Tables(Scan(dbBuff).value.nodes) == Apply(Tables(doc.nodes), op)
      ensures op.Query? ==> dbBuff == old(dbBuff)
      ensures op.Query? ==> con[Lookup(con, num)].resMap == Numbered(Found(Tables(doc.nodes), op.d))
    {
      hide RunAction, Scan, Inv, OpOk, Tables, Apply, Numbered, Found, NextNodes;
      OpRefines(dbBuff, doc, op);
      res := XmlAction(num, op.d, ActOf(op));
    }

    /** db_get: succeeds exactly for the rows of the last result; columns that were requested are not touched. */
    method DbGet(num: int, d: DbTable, row: int) returns (res: bool, d': DbTable)
      ensures res <==> Lookup(con, num) != -1 && row in con[Lookup(con, num)].resMap
      ensures !res ==> d' == d
      ensures d'.name == d.name && |d'.cols| == |d.cols|
      ensures res ==>
                forall k :: 0 <= k < |d.cols| ==>
                  d'.cols[k] == if d.cols[k].request then d.cols[k]
                                else d.cols[k].(cell := ReadCell(d.cols[k].cell,
                                  Field(con[Lookup(con, num)].resMap[row], d.cols[k].name)))
    {
      hide ReadCell;
      var n := Lookup(con, num);
      d' := d;
      if n == -1 || row !in con[n].resMap { return false, d; }
      var i := 0;
      while i < |d.cols|
        invariant i <= |d.cols| && d'.name == d.name && |d'.cols| == |d.cols|
        invariant forall k :: 0 <= k < i ==>
                    d'.cols[k] == if d.cols[k].request then d.cols[k]
                                  else d.cols[k].(cell := ReadCell(d.cols[k].cell,
                                    Field(con[n].resMap[row], d.cols[k].name)))
        invariant forall k :: i <= k < |d.cols| ==> d'.cols[k] == d.cols[k]
      {
        var c := d.cols[i];
        if !c.request {
          d' := d'.(cols := d'.cols[i := c.(cell := ReadCell(c.cell, Field(con[n].resMap[row], c.name)))]);
        }
        i := i + 1;
      }
      return true, d';
    }

    /**
     * db_open: after a clash the scan for a number restarts at the SECOND connection. The first open ever reads the
     * file; junk is the action of a connection that has done nothing yet.
     */
    method DbOpen(junk: Action) returns (num: int)
      modifies this`con, this`dbBuff, this`isOpen
      ensures num == NextNum(Nums(old(con))) && Nums(con) == Nums(old(con)) + [num]
      ensures |con| == |old(con)| + 1 && con[..|old(con)|] == old(con) && fresh(con[|old(con)|])
      ensures isOpen && dbBuff == if old(isOpen) then old(dbBuff) else old(dbBuff) + file
    {
      num := 1;
      var i := 0;
      ghost var nums := Nums(con);
      ghost var m := if nums == [] then 0 else MaxNum(nums);
      while i < |con|
        invariant unchanged(this) && 0 <= i <= |con| && 1 <= num
        invariant nums != [] ==> num <= m + 1 && m == MaxNum(nums)
        invariant nums != [] ==> if i == 0 then num == 1 else NumScan(nums, i, num)
        invariant nums == [] ==> num == 1
        decreases m + 1 - num, |con| - i
      {
        ScanStep(nums, i, num);
        if con[i].num == num {
          num := num + 1;
          i := 0;
        }
        i := i + 1;
      }
      if nums != [] { ScanEnds(nums, num); }
      var tmp := new Connection(num, junk);
      con := con + [tmp];
      if !isOpen {
        isOpen := true;
        dbBuff := dbBuff + file;
      }
    }

    /** db_close: the connection goes; the file is written when it was the last one and its last action no select. */
    method DbClose(num: int) returns (res: bool)
      requires isOpen
      modifies this`con, this`file
      ensures Nums(con) == Closed(Nums(old(con)), num)
      ensures var i := Lookup(old(con), num);
              var written := con == [] && (i == -1 || old(con[i].act) != SelectRow);
              file == (if written then dbBuff else old(file)) && res == (i != -1 || written)
    {
      res := false;
      var ac := UpdateRow;
      var i := Lookup(con, num);
      ClosedAt(con, num);
      if i != -1 {
        res := true;
        ac := con[i].act;
        con := con[..i] + con[i + 1..];
      }
      if con == [] && ac != SelectRow {
        file := dbBuff;
        res := true;
      }
    }
  }

  // ----- connection numbers

  function Nums(con: seq<Connection>): seq<int> {
    seq(|con|, i requires 0 <= i < |con| => con[i].num)
  }

  lemma ClosedAt(con: seq<Connection>, num: int)
    ensures var i := Lookup(con, num);
            Closed(Nums(con), num) == Nums(if i == -1 then con else con[..i] + con[i + 1..])
  {
    hide Lookup;
    var i := Lookup(con, num);
    FirstIs(Nums(con), num, if i == -1 then |con| else i);
  }

  lemma FailedStays(p: Pass, act: Action, d: DbTable, evs: seq<Event>)
    requires p.failed
    ensures Run(p, act, d, evs).failed
    decreases |evs|
  {
    if evs != [] { FailedStays(Step(p, act, d, evs[0]), act, d, evs[1..]); }
  }

  lemma NotFailed(p: Pass, act: Action, d: DbTable)
    ensures Run(p, act, d, []) == p
  {
  }

  lemma ReplacePosition(s: string, pos: int, n: int)
    ensures Replace(s, pos, n, "").Some? ==> pos >= 0
  {
  }
}
