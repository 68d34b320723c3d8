/** The file as tables of typed values: which rows a request names, and what a run leaves, without any text. */
module XmlTyped {
  import opened Text
  import opened XmlReader
  import opened XmlDoc
  import opened XmlTable
  import opened XmlPass
  import opened XmlRefine
  import opened XmlRows
  import opened XmlRuns
  import opened XmlValues

  /** A table: its columns by name and type, and its rows by value. */
  datatype Relation = Relation(title: string, names: seq<string>, types: seq<CellType>, rows: seq<seq<Cell>>)

  ghost predicate Conforms(rel: Relation, vals: seq<Cell>) {
    |vals| == |rel.names| == |rel.types| &&
    forall k :: 0 <= k < |vals| ==> CleanCell(vals[k]) && TypeOf(vals[k]) == rel.types[k]
  }

  ghost predicate RelOk(rel: Relation) {
    |rel.names| == |rel.types| && (forall k :: 0 <= k < |rel.rows| ==> Conforms(rel, rel.rows[k])) &&
    forall j, k :: 0 <= j < k < |rel.names| ==> !EqNoCase(rel.names[j], rel.names[k])
  }

  /** The columns of a request, in the order of the table. */
  ghost predicate Fits(d: DbTable, rel: Relation) {
    TableOk(d) && |d.cols| == |rel.names| == |rel.types| &&
    forall k :: 0 <= k < |d.cols| ==> d.cols[k].name == rel.names[k] && TypeOf(d.cols[k].cell) == rel.types[k]
  }

  // ----- the operations on values

  /** Every column marked as request holds the requested value. */
  predicate Wanted(cols: seq<Column>, vals: seq<Cell>) {
    forall k :: 0 <= k < |cols| && k < |vals| && cols[k].request ==> SameValue(cols[k].cell, vals[k])
  }

  function Chosen(rows: seq<seq<Cell>>, cols: seq<Column>, wanted: bool): seq<seq<Cell>> {
    if rows == [] then []
    else (if Wanted(cols, rows[0]) == wanted then [rows[0]] else []) + Chosen(rows[1..], cols, wanted)
  }

  function Values(cols: seq<Column>): seq<Cell> {
    seq(|cols|, k requires 0 <= k < |cols| => cols[k].cell)
  }

  /** Columns marked for update get their new value. */
  function Merged(cols: seq<Column>, vals: seq<Cell>): seq<Cell> {
    seq(|vals|, k requires 0 <= k < |vals| => if k < |cols| && cols[k].update then cols[k].cell else vals[k])
  }

  function Changed(rows: seq<seq<Cell>>, cols: seq<Column>): seq<seq<Cell>> {
    seq(|rows|, k requires 0 <= k < |rows| => if Wanted(cols, rows[k]) then Merged(cols, rows[k]) else rows[k])
  }

  function OnRel(rel: Relation, op: Op): Relation {
    if !EqNoCase(rel.title, op.d.name) then rel
    else
      match op
      case Add(d) => rel.(rows := [Values(d.cols)] + rel.rows)
      case Update(d) => rel.(rows := Changed(rel.rows, d.cols))
      case Delete(d) => rel.(rows := Chosen(rel.rows, d.cols, false))
      case _ => rel
  }

  function OnRels(rels: seq<Relation>, op: Op): seq<Relation> {
    if rels == [] then [] else [OnRel(rels[0], op)] + OnRels(rels[1..], op)
  }

  function NewRel(d: DbTable): Relation {
    Relation(d.name, seq(|d.cols|, k requires 0 <= k < |d.cols| => d.cols[k].name),
             seq(|d.cols|, k requires 0 <= k < |d.cols| => TypeOf(d.cols[k].cell)), [])
  }

  function Typed(rels: seq<Relation>, op: Op): seq<Relation> {
    if op.Create? then [NewRel(op.d)] + rels else OnRels(rels, op)
  }

  /** The rows a request meets, in order. */
  function Answers(rels: seq<Relation>, d: DbTable): seq<seq<Cell>> {
    if rels == [] then []
    else
      (if EqNoCase(rels[0].title, d.name) then Chosen(rels[0].rows, d.cols, true) else []) + Answers(rels[1..], d)
  }

  // ----- their text

  function AttrsOf(names: seq<string>, vals: seq<Cell>): (r: seq<Attr>)
    requires |names| == |vals|
    ensures |r| == |names| && forall k :: 0 <= k < |r| ==> r[k] == Attr(names[k], Normal(CellPlain(vals[k])))
  {
    seq(|names|, k requires 0 <= k < |names| => Attr(names[k], Normal(CellPlain(vals[k]))))
  }

  ghost predicate RowsFit(names: seq<string>, rows: seq<seq<Cell>>) {
    forall k :: 0 <= k < |rows| ==> |rows[k]| == |names|
  }

  ghost function RowsText(names: seq<string>, rows: seq<seq<Cell>>): (r: seq<RowData>)
    requires RowsFit(names, rows)
    ensures |r| == |rows| && forall k :: 0 <= k < |rows| ==> r[k] == AttrsOf(names, rows[k])
  {
    seq(|rows|, k requires 0 <= k < |rows| => AttrsOf(names, rows[k]))
  }

  ghost predicate RelsOk(rels: seq<Relation>) {
    forall k :: 0 <= k < |rels| ==> RelOk(rels[k])
  }

  ghost function TabOf(rel: Relation): Tab
    requires RelOk(rel)
  {
    Tab(rel.title, RowsText(rel.names, rel.rows))
  }

  ghost function TabsOf(rels: seq<Relation>): (r: seq<Tab>)
    requires RelsOk(rels)
    ensures |r| == |rels| && forall k :: 0 <= k < |rels| ==> r[k] == TabOf(rels[k])
  {
    seq(|rels|, k requires 0 <= k < |rels| => TabOf(rels[k]))
  }

  // ----- which rows a request names

  /**
   * A row written from values vals under these names is selected, updated or deleted by a request exactly when every
   * requested column that the row has holds the requested value.
   */
  lemma RequestIff(cols: seq<Column>, names: seq<string>, vals: seq<Cell>)
    requires |names| == |vals|
    requires forall i :: 0 <= i < |cols| ==> CleanCell(cols[i].cell)
    requires forall k :: 0 <= k < |vals| ==> CleanCell(vals[k])
    requires forall i, k :: 0 <= i < |cols| && 0 <= k < |vals| && EqNoCase(names[k], cols[i].name) ==>
               TypeOf(cols[i].cell) == TypeOf(vals[k])
    ensures RowMatches(cols, AttrsOf(names, vals)) <==>
            forall i, k :: 0 <= i < |cols| && 0 <= k < |vals| && cols[i].request && EqNoCase(names[k], cols[i].name) ==>
              SameValue(cols[i].cell, vals[k])
  {
    hide EqNoCase, CellMatches, Normal, CellPlain, CleanCell, SameValue, TypeOf;
    var attrs := AttrsOf(names, vals);
    forall i, k | 0 <= i < |cols| && 0 <= k < |vals| && EqNoCase(names[k], cols[i].name)
      ensures CellMatches(cols[i].cell, attrs[k].value) <==> SameValue(cols[i].cell, vals[k])
    {
      CellMatchesIff(cols[i].cell, vals[k]);
    }
  }

  lemma WantedIff(d: DbTable, rel: Relation, vals: seq<Cell>)
    requires Fits(d, rel) && Conforms(rel, vals)
    ensures RowMatches(d.cols, AttrsOf(rel.names, vals)) <==> Wanted(d.cols, vals)
  {
    hide EqNoCase, CleanCell, SameValue, TypeOf, RowMatches, ColsOk;
    forall i, k | 0 <= i < |d.cols| && 0 <= k < |vals| ensures EqNoCase(rel.names[k], d.cols[i].name) <==> i == k {
      if i == k { EqNoCaseSelf(rel.names[k]); }
      if i != k && EqNoCase(d.cols[k].name, d.cols[i].name) { EqNoCaseFlip(d.cols[k].name, d.cols[i].name); }
    }
    RequestIff(d.cols, rel.names, vals);
  }

  lemma AddedText(d: DbTable, rel: Relation)
    requires Fits(d, rel)
    ensures Conforms(rel, Values(d.cols)) && RowAttrs(d.cols, false, map[]) == AttrsOf(rel.names, Values(d.cols))
  {
    hide CleanCell, TypeOf, Normal, CellPlain, ColsOk, EqNoCase;
  }

  lemma MergedText(d: DbTable, rel: Relation, vals: seq<Cell>)
    requires Fits(d, rel) && Conforms(rel, vals)
    ensures Conforms(rel, Merged(d.cols, vals))
    ensures RowAttrs(d.cols, true, RecordOf(AttrsOf(rel.names, vals))) == AttrsOf(rel.names, Merged(d.cols, vals))
  {
    hide CleanCell, TypeOf, Normal, CellPlain, ColsOk, EqNoCase, RecordOf, Field;
    var was := AttrsOf(rel.names, vals);
    var now := RowAttrs(d.cols, true, RecordOf(was));
    forall k | 0 <= k < |now| ensures now[k] == AttrsOf(rel.names, Merged(d.cols, vals))[k] {
      TextField(rel.names, vals, k);
      PlainClean(vals[k]);
      NormalClean(CellPlain(vals[k]));
      assert now[k] == Attr(d.cols[k].name, Normal(ColPlain(d.cols[k], true, RecordOf(was))));
    }
  }

  lemma TextField(names: seq<string>, vals: seq<Cell>, k: nat)
    requires |names| == |vals| && k < |vals|
    requires forall i, j :: 0 <= i < j < |names| ==> !EqNoCase(names[i], names[j])
    ensures Field(RecordOf(AttrsOf(names, vals)), names[k]) == Normal(CellPlain(vals[k]))
  {
    hide EqNoCase, Normal, CellPlain, RecordOf;
    var attrs := AttrsOf(names, vals);
    forall j | 0 <= j < |attrs| && j != k ensures attrs[j].name != attrs[k].name {
      if attrs[j].name == attrs[k].name { EqNoCaseSelf(attrs[k].name); }
    }
    RecordField(attrs, k);
  }

  // ----- the operations on rows of text are those on values

  ghost predicate AllConform(rel: Relation, rows: seq<seq<Cell>>) {
    forall k :: 0 <= k < |rows| ==> Conforms(rel, rows[k])
  }

  lemma ConformFit(rel: Relation, rows: seq<seq<Cell>>)
    requires AllConform(rel, rows)
    ensures RowsFit(rel.names, rows)
  {
  }

  lemma RowsTextCons(names: seq<string>, v: seq<Cell>, rows: seq<seq<Cell>>)
    requires |v| == |names| && RowsFit(names, rows)
    ensures RowsFit(names, [v] + rows) && RowsText(names, [v] + rows) == [AttrsOf(names, v)] + RowsText(names, rows)
  {
  }

  lemma ChosenConform(rel: Relation, rows: seq<seq<Cell>>, cols: seq<Column>, wanted: bool)
    requires AllConform(rel, rows)
    ensures AllConform(rel, Chosen(rows, cols, wanted)) && RowsFit(rel.names, Chosen(rows, cols, wanted))
  {
    hide Wanted;
    if rows != [] { ChosenConform(rel, rows[1..], cols, wanted); }
  }

  lemma {:induction false} KeepText(d: DbTable, rel: Relation, rows: seq<seq<Cell>>)
    requires Fits(d, rel) && AllConform(rel, rows)
    ensures RowsFit(rel.names, rows) && RowsFit(rel.names, Chosen(rows, d.cols, false)) &&
            Keep(RowsText(rel.names, rows), d) == RowsText(rel.names, Chosen(rows, d.cols, false))
    ensures RowsFit(rel.names, Chosen(rows, d.cols, true)) &&
            Pick(RowsText(rel.names, rows), d) == RowsText(rel.names, Chosen(rows, d.cols, true))
    decreases rows
  {
    hide Wanted, RowMatches, AttrsOf, Fits;
    ConformFit(rel, rows);
    ChosenConform(rel, rows, d.cols, false);
    ChosenConform(rel, rows, d.cols, true);
    if rows != [] {
      assert rows == [rows[0]] + rows[1..];
      KeepText(d, rel, rows[1..]);
      WantedIff(d, rel, rows[0]);
      RowsTextCons(rel.names, rows[0], rows[1..]);
      var more := RowsText(rel.names, rows[1..]);
      KeepCons(AttrsOf(rel.names, rows[0]), more, d);
      PickCons(AttrsOf(rel.names, rows[0]), more, d);
      RowsTextCons(rel.names, rows[0], Chosen(rows[1..], d.cols, false));
      RowsTextCons(rel.names, rows[0], Chosen(rows[1..], d.cols, true));
    }
  }

  lemma KeepCons(r: RowData, rows: seq<RowData>, d: DbTable)
    ensures Keep([r] + rows, d) == (if RowMatches(d.cols, r) then [] else [r]) + Keep(rows, d)
  {
    assert ([r] + rows)[1..] == rows;
  }

  lemma {:induction false} ChangeAt(rows: seq<RowData>, d: DbTable)
    ensures |Change(rows, d)| == |rows|
    ensures forall k :: 0 <= k < |rows| ==>
              Change(rows, d)[k] ==
              if RowMatches(d.cols, rows[k]) then RowAttrs(d.cols, true, RecordOf(rows[k])) else rows[k]
  {
    hide RowMatches, RowAttrs;
    if rows != [] { ChangeAt(rows[1..], d); }
  }

  lemma ChangeText(d: DbTable, rel: Relation, rows: seq<seq<Cell>>)
    requires Fits(d, rel) && AllConform(rel, rows)
    ensures RowsFit(rel.names, rows) && AllConform(rel, Changed(rows, d.cols)) &&
            RowsFit(rel.names, Changed(rows, d.cols)) &&
            Change(RowsText(rel.names, rows), d) == RowsText(rel.names, Changed(rows, d.cols))
  {
    hide Wanted, RowMatches, RowAttrs, AttrsOf, Fits, Conforms, Merged;
    assert RowsFit(rel.names, rows) by { ConformFit(rel, rows); }
    var text, now := RowsText(rel.names, rows), Changed(rows, d.cols);
    forall k | 0 <= k < |rows| ensures Conforms(rel, now[k]) {
      MergedText(d, rel, rows[k]);
    }
    assert RowsFit(rel.names, now) by { ConformFit(rel, now); }
    ChangeAt(text, d);
    forall k | 0 <= k < |rows| ensures Change(text, d)[k] == RowsText(rel.names, now)[k] {
      WantedIff(d, rel, rows[k]);
      MergedText(d, rel, rows[k]);
    }
  }

  /** What a caller must see to: a request has the columns of its table, and names columns by distinct XML names. */
  ghost predicate FitsAll(rels: seq<Relation>, op: Op) {
    if op.Create? then TableOk(op.d)
    else forall k :: 0 <= k < |rels| && EqNoCase(rels[k].title, op.d.name) ==> Fits(op.d, rels[k])
  }

  lemma OnRelText(rel: Relation, op: Op)
    requires RelOk(rel) && !op.Create? && (EqNoCase(rel.title, op.d.name) ==> Fits(op.d, rel))
    ensures RelOk(OnRel(rel, op)) && TabOf(OnRel(rel, op)) == OnTab(TabOf(rel), op)
  {
    hide EqNoCase, Fits, Keep, Change, Pick, Chosen, Changed, Values, RowAttrs, AttrsOf, Conforms;
    var r := OnRel(rel, op);
    if EqNoCase(rel.title, op.d.name) {
      match op
      case Add(d) =>
        AddedText(d, rel);
        AddOk(rel, Values(d.cols));
        RowsTextCons(rel.names, Values(d.cols), rel.rows);
      case Update(d) =>
        ChangeText(d, rel, rel.rows);
        SameShape(rel, Changed(rel.rows, d.cols));
      case Delete(d) =>
        KeepText(d, rel, rel.rows);
        ChosenConform(rel, rel.rows, d.cols, false);
        SameShape(rel, Chosen(rel.rows, d.cols, false));
      case _ =>
    }
  }

  lemma SameShape(rel: Relation, rows: seq<seq<Cell>>)
    requires RelOk(rel) && AllConform(rel, rows)
    ensures RelOk(rel.(rows := rows))
  {
    hide EqNoCase;
  }

  lemma AddOk(rel: Relation, v: seq<Cell>)
    requires RelOk(rel) && Conforms(rel, v)
    ensures RelOk(rel.(rows := [v] + rel.rows)) && |v| == |rel.names| && RowsFit(rel.names, rel.rows)
  {
    hide EqNoCase;
  }

  lemma TabsOfCons(r: Relation, rels: seq<Relation>)
    requires RelOk(r) && RelsOk(rels)
    ensures RelsOk([r] + rels) && TabsOf([r] + rels) == [TabOf(r)] + TabsOf(rels)
  {
    hide RelOk, TabOf;
  }

  lemma FitsSplit(rels: seq<Relation>, op: Op)
    requires RelsOk(rels) && !op.Create? && FitsAll(rels, op) && rels != []
    ensures RelOk(rels[0]) && (EqNoCase(rels[0].title, op.d.name) ==> Fits(op.d, rels[0]))
    ensures RelsOk(rels[1..]) && FitsAll(rels[1..], op)
  {
    hide EqNoCase, Fits, RelOk;
  }

  lemma {:induction false} OnRelsText(rels: seq<Relation>, op: Op)
    requires RelsOk(rels) && !op.Create? && FitsAll(rels, op)
    ensures RelsOk(OnRels(rels, op)) && TabsOf(OnRels(rels, op)) == OnTabs(TabsOf(rels), op)
    decreases rels
  {
    hide EqNoCase, Fits, FitsAll, RelOk, RelsOk, OnRel, OnTab, TabOf, OnTabs;
    if rels == [] {
      NoTabsOf(rels);
      OnTabsNil(op);
    } else {
      FitsSplit(rels, op);
      OnRelText(rels[0], op);
      OnRelsText(rels[1..], op);
      TabsOfCons(rels[0], rels[1..]);
      assert [rels[0]] + rels[1..] == rels;
      OnTabsCons(TabOf(rels[0]), TabsOf(rels[1..]), op);
      TabsOfCons(OnRel(rels[0], op), OnRels(rels[1..], op));
    }
  }

  lemma NoTabsOf(rels: seq<Relation>)
    requires rels == []
    ensures RelsOk(rels) && TabsOf(rels) == []
  {
  }

  lemma OnTabsNil(op: Op)
    ensures OnTabs([], op) == []
  {
  }

  /** One operation on rows of text is the operation on values. */
  lemma TypedStep(rels: seq<Relation>, op: Op)
    requires RelsOk(rels) && FitsAll(rels, op)
    ensures RelsOk(Typed(rels, op)) && TabsOf(Typed(rels, op)) == Apply(TabsOf(rels), op)
  {
    hide EqNoCase, Fits, OnRels, OnTabs, CleanCell, TypeOf, ColsOk;
    if op.Create? {
      var r := NewRel(op.d);
      assert RelOk(r);
      assert TabOf(r) == Tab(op.d.name, []);
      TabsOfCons(r, rels);
    } else {
      OnRelsText(rels, op);
    }
  }

  // ----- queries

  /** The text of the answers: each row under the column names of its table. */
  ghost predicate AnswerText(found: seq<RowData>, answers: seq<seq<Cell>>, d: DbTable) {
    |found| == |answers| && forall k :: 0 <= k < |found| ==> IsAnswer(found[k], answers[k], d)
  }

  ghost predicate IsAnswer(row: RowData, vals: seq<Cell>, d: DbTable) {
    |vals| == |d.cols| && row == AttrsOf(ColNames(d), vals) &&
    forall j :: 0 <= j < |d.cols| ==> CleanCell(vals[j]) && TypeOf(vals[j]) == TypeOf(d.cols[j].cell)
  }

  function ColNames(d: DbTable): (r: seq<string>)
    ensures |r| == |d.cols|
  {
    seq(|d.cols|, k requires 0 <= k < |d.cols| => d.cols[k].name)
  }

  lemma ChosenText(rel: Relation, d: DbTable)
    requires RelOk(rel) && Fits(d, rel)
    ensures AnswerText(Pick(TabOf(rel).rows, d), Chosen(rel.rows, d.cols, true), d)
  {
    hide EqNoCase, CleanCell, TypeOf, TableOk, Chosen, Pick, AttrsOf;
    var c := Chosen(rel.rows, d.cols, true);
    KeepTextOf(rel, d);
    assert ColNames(d) == rel.names;
    forall k | 0 <= k < |c| ensures Conforms(rel, c[k]) {}
  }

  lemma KeepTextOf(rel: Relation, d: DbTable)
    requires RelOk(rel) && Fits(d, rel)
    ensures var c := Chosen(rel.rows, d.cols, true);
            AllConform(rel, c) && RowsFit(rel.names, c) && Pick(TabOf(rel).rows, d) == RowsText(rel.names, c)
  {
    hide Fits, Chosen, Pick, RelOk, Conforms;
    assert AllConform(rel, rel.rows) by { RelConforms(rel); }
    KeepText(d, rel, rel.rows);
    ChosenConform(rel, rel.rows, d.cols, true);
  }

  lemma RelConforms(rel: Relation)
    requires RelOk(rel)
    ensures AllConform(rel, rel.rows)
  {
  }

  lemma AnswerTextAppend(f1: seq<RowData>, a1: seq<seq<Cell>>, f2: seq<RowData>, a2: seq<seq<Cell>>, d: DbTable)
    requires AnswerText(f1, a1, d) && AnswerText(f2, a2, d)
    ensures AnswerText(f1 + f2, a1 + a2, d)
  {
    hide IsAnswer;
    var f, a := f1 + f2, a1 + a2;
    forall k | |f1| <= k < |f| ensures f[k] == f2[k - |f1|] && a[k] == a2[k - |f1|] {}
  }

  lemma {:induction false} FoundText(rels: seq<Relation>, d: DbTable)
    requires RelsOk(rels) && FitsAll(rels, Query(d))
    ensures AnswerText(Found(TabsOf(rels), d), Answers(rels, d), d)
    decreases rels
  {
    hide EqNoCase, Fits, FitsAll, RelOk, RelsOk, TabOf, AnswerText, Pick, Chosen, Found;
    if rels == [] {
      NoTabsOf(rels);
      NothingFound(d);
    } else {
      FitsSplit(rels, Query(d));
      FoundText(rels[1..], d);
      TabsOfCons(rels[0], rels[1..]);
      assert [rels[0]] + rels[1..] == rels;
      FoundCons(TabOf(rels[0]), TabsOf(rels[1..]), d);
      var here := EqNoCase(rels[0].title, d.name);
      assert TabOf(rels[0]).title == rels[0].title by { TitleOfRel(rels[0]); }
      if here { ChosenText(rels[0], d); } else { NoAnswerText(d); }
      var found := if here then Pick(TabOf(rels[0]).rows, d) else [];
      var answers := if here then Chosen(rels[0].rows, d.cols, true) else [];
      AnswerTextAppend(found, answers, Found(TabsOf(rels[1..]), d), Answers(rels[1..], d), d);
    }
  }

  lemma TitleOfRel(rel: Relation)
    requires RelOk(rel)
    ensures TabOf(rel).title == rel.title
  {
  }

  lemma NoAnswerText(d: DbTable)
    ensures AnswerText([], [], d)
  {
  }

  lemma NothingFound(d: DbTable)
    ensures Found([], d) == [] && AnswerText([], [], d)
  {
  }

  // ----- runs

  ghost predicate RunFits(rels: seq<Relation>, ops: seq<Op>)
    decreases |ops|
  {
    ops == [] || (FitsAll(rels, ops[0]) && RunFits(Typed(rels, ops[0]), ops[1..]))
  }

  function TypedRun(rels: seq<Relation>, ops: seq<Op>): seq<Relation>
    decreases |ops|
  {
    if ops == [] then rels else TypedRun(Typed(rels, ops[0]), ops[1..])
  }

  lemma {:induction false} TypedRefines(rels: seq<Relation>, ops: seq<Op>)
    requires RelsOk(rels) && RunFits(rels, ops)
    ensures RelsOk(TypedRun(rels, ops)) && TabsOf(TypedRun(rels, ops)) == ApplyAll(TabsOf(rels), ops)
    decreases |ops|
  {
    hide FitsAll, RelsOk, Typed, TabsOf, Apply;
    if ops != [] {
      TypedStep(rels, ops[0]);
      TypedRefines(Typed(rels, ops[0]), ops[1..]);
    }
  }

  /** Results numbered from 0, each column of which reads back as the value of the answer. */
  ghost predicate ReadsAs(res: map<int, Record>, answers: seq<seq<Cell>>, d: DbTable) {
    (forall r :: r in res <==> 0 <= r < |answers|) &&
    forall r :: 0 <= r < |answers| ==> RowReadsAs(res[r], answers[r], d)
  }

  ghost predicate RowReadsAs(rec: Record, vals: seq<Cell>, d: DbTable) {
    |vals| == |d.cols| &&
    forall k :: 0 <= k < |d.cols| ==> ReadCell(d.cols[k].cell, Field(rec, d.cols[k].name)) == vals[k]
  }

  lemma AnswersRead(found: seq<RowData>, answers: seq<seq<Cell>>, d: DbTable)
    requires TableOk(d) && AnswerText(found, answers, d)
    ensures ReadsAs(Numbered(found), answers, d)
  {
    hide CleanCell, TypeOf, TableOk, RowReadsAs, RecordOf, AttrsOf;
    forall r | 0 <= r < |answers| ensures RowReadsAs(Numbered(found)[r], answers[r], d) {
      AnswerReads(answers[r], d);
    }
  }

  lemma AnswerReads(vals: seq<Cell>, d: DbTable)
    requires TableOk(d) && |vals| == |d.cols|
    requires forall j :: 0 <= j < |d.cols| ==> CleanCell(vals[j]) && TypeOf(vals[j]) == TypeOf(d.cols[j].cell)
    ensures RowReadsAs(RecordOf(AttrsOf(ColNames(d), vals)), vals, d)
  {
    hide EqNoCase, CleanCell, TypeOf, ColsOk, ReadCell, RecordOf, Field, Normal, CellPlain, AttrsOf;
    var rec := RecordOf(AttrsOf(ColNames(d), vals));
    forall k | 0 <= k < |d.cols| ensures ReadCell(d.cols[k].cell, Field(rec, d.cols[k].name)) == vals[k] {
      TextField(ColNames(d), vals, k);
      CellReads(vals[k]);
      ReadByType(d.cols[k].cell, vals[k], Field(rec, d.cols[k].name));
    }
  }

  lemma ReadByType(c: Cell, e: Cell, v: string)
    requires TypeOf(c) == TypeOf(e)
    ensures ReadCell(c, v) == ReadCell(e, v)
  {
  }

  /**
   * From the smallest file, after any run on the text, a query numbers exactly the rows of the run on values that hold
   * the requested values, and db_get reads each of their columns back as the value it holds.
   */
  lemma QueryAnswers(ops: seq<Op>, d: DbTable)
    requires OpsOk([], ops) && RunFits([], ops) && FitsAll(TypedRun([], ops), Query(d)) && TableOk(d)
    ensures var s := RunText(DocText(EmptyFile()), ops);
            s.Some? && RunAction(s.value, SelectRow, d).Some? &&
            var q := RunAction(s.value, SelectRow, d).value;
            !q.failed && q.buff == s.value && ReadsAs(q.res, Answers(TypedRun([], ops), d), d)
  {
    hide OpsOk, RunFits, FitsAll, TableOk, RunText, RunAction, Scan, Inv, Tables, ApplyAll, TypedRun, Answers, Found;
    hide ReadsAs, AnswerText, NextNodes, Numbered;
    FromScratch(ops);
    var s := RunText(DocText(EmptyFile()), ops).value;
    OpRefines(s, Scan(s).value, Query(d));
    NoTabsOf([]);
    TypedRefines([], ops);
    var rels := TypedRun([], ops);
    FoundText(rels, d);
    AnswersRead(Found(TabsOf(rels), d), Answers(rels, d), d);
  }
}
