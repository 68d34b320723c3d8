/** A pass over the text carries out the operation on the list of units. */
module XmlRefine {
  import opened Text
  import opened XmlReader
  import opened XmlDoc
  import opened XmlTable
  import opened XmlPass
  import opened XmlEdit

  function RunNode(p: Pass, act: Action, d: DbTable, n: Node, off: nat, orig: string): Pass {
    Run(p, act, d, NodeEvents(n, off, orig))
  }

  lemma RunOne(p: Pass, act: Action, d: DbTable, a: Event)
    ensures Run(p, act, d, [a]) == Step(p, act, d, a)
  {
    hide Step;
    assert Run(p, act, d, [a]) == Run(Step(p, act, d, a), act, d, [a][1..]);
  }

  lemma RunTwo(p: Pass, act: Action, d: DbTable, a: Event, b: Event)
    ensures Run(p, act, d, [a, b]) == Step(Step(p, act, d, a), act, d, b)
  {
    hide Step;
    assert [a, b][1..] == [b];
    RunOne(Step(p, act, d, a), act, d, b);
  }

  /** The callbacks of a document are those of its first unit and then of the others. */
  lemma RunCons(p: Pass, act: Action, d: DbTable, nodes: seq<Node>, off: nat, orig: string)
    requires nodes != []
    ensures Run(p, act, d, Events(nodes, off, orig)) ==
            Run(RunNode(p, act, d, nodes[0], off, orig), act, d, Events(nodes[1..], off + |NodeText(nodes[0])|, orig))
  {
    hide Step, NodeEvents;
    RunAppend(p, act, d, NodeEvents(nodes[0], off, orig), Events(nodes[1..], off + |NodeText(nodes[0])|, orig));
  }

  /** A unit that is not hit changes the skip flag at most. */
  lemma Quiet(p: Pass, act: Action, d: DbTable, n: Node, off: nat, orig: string, m: Mode)
    requires RowAction(act) && !p.failed && NextMode(m, n).Some? && NodeOk(n) && !Hit(n, p.skip, d)
    ensures var q := RunNode(p, act, d, n, off, orig); Untouched(p, q) && q.skip == NodeSkip(n, p.skip, d.name)
  {
    hide CutRow, ColumnOf, ReadNode, RowMatches, EqNoCase, Replace;
    match n.kind
    case Row(el, attrs, ol, cl) =>
      NodeOkRow(n);
      ElementsDiffer(el);
      var evs := NodeEvents(n, off, orig);
      RunTwo(p, act, d, evs[0], evs[1]);
    case Tag(Open(el, attrs)) =>
      ElementsDiffer(el);
      var ev := NodeEvents(n, off, orig)[0];
      RunOne(p, act, d, ev);
      if EqNoCase(el, "table") { OnTableOnce(p, act, d, attrs, ev); }
    case Tag(Close(el)) =>
      ElementsDiffer(el);
      RunOne(p, act, d, NodeEvents(n, off, orig)[0]);
    case Tag(Misc) =>
  }

  lemma NodeOkRow(n: Node)
    requires NodeOk(n) && n.kind.Row?
    ensures EqNoCase(n.kind.name, "row") && n.kind.openLen + n.kind.closeLen <= |n.raw|
  {
    hide ReadMarkup, ReadRowBody, EqNoCase;
    NodeOkBrackets(n);
    assert ReadNode(n.raw, 0).Some?;
  }

  // ----- the deletion of one row as text surgery

  lemma FirstNotOfIs(s: string, cs: set<char>, i: nat, p: nat)
    requires i <= p < |s| && s[p] !in cs && forall k :: i <= k < p ==> s[k] in cs
    ensures FindFirstNotOf(s, cs, i) == p
  {
  }

  lemma LastNotOfIs(s: string, cs: set<char>, i: nat, p: nat)
    requires p < |s| && p <= i < |s| && s[p] !in cs && forall k :: p < k <= i ==> s[k] in cs
    ensures FindLastNotOf(s, cs, i) == p
  {
  }

  /** The blanks after the removed row: the search stops at the line break, the text or the next tag. */
  lemma TrimRight(a: string, tail: string, rest: string, dotE: nat)
    requires rest != "" && rest[0] == '<' && dotE == |a| + |tail| - |DropBlanks(tail)|
    ensures FindFirstNotOf(a + (tail + rest), BLANKS, |a|) == dotE
    ensures (a + (tail + rest))[dotE..] == DropBlanks(tail) + rest
  {
    hide DropBlanks;
    var b1 := a + (tail + rest);
    var db := DropBlanks(tail);
    assert b1[dotE..] == db + rest;
    assert b1[dotE] == (db + rest)[0];
    assert forall k :: |a| <= k < dotE ==> b1[k] == tail[k - |a|];
    FirstNotOfIs(b1, BLANKS, |a|, dotE);
  }

  /** The white space before it: the search starts on the character after the row, which must be white space. */
  lemma TrimLeft(pre: string, ptail: string, next: string, dotS: nat)
    requires pre != "" && pre[|pre| - 1] == '>' && dotS == |pre| + |TrimEnd(ptail)|
    requires next != "" && next[0] in SPACES
    ensures FindLastNotOf(pre + ptail + next, SPACES, |pre + ptail|) + 1 == dotS
    ensures (pre + ptail + next)[..dotS] == pre + TrimEnd(ptail)
  {
    hide TrimEnd;
    var b1 := pre + ptail + next;
    var te := TrimEnd(ptail);
    var pos := |pre + ptail|;
    assert b1[..dotS] == pre + te;
    assert b1[dotS - 1] == (pre + te)[dotS - 1];
    assert b1[pos] == next[0];
    assert forall k :: dotS <= k < pos ==> b1[k] == ptail[k - |pre|];
    LastNotOfIs(b1, SPACES, pos, dotS - 1);
  }

  lemma CutRowIs(p: Pass, pos: nat, len: int, b1: string, dotE: int, dotS: int, b2: string)
    requires Replace(p.buff, pos, len, "") == Some(b1)
    requires FindFirstNotOf(b1, BLANKS, pos) == dotE && FindLastNotOf(b1, SPACES, pos) + 1 == dotS
    requires Replace(b1, dotS, dotE - dotS, "") == Some(b2)
    ensures CutRow(p, pos, len) == p.(buff := b2, dev := p.dev + len + (dotE - dotS))
  {
    hide Replace, FindFirstNotOf, FindLastNotOf;
  }

  /** The text around a removed row: pre ends in a tag, ptail precedes the row, tail follows it. */
  lemma CutRowText(p: Pass, pre: string, ptail: string, raw: string, tail: string, rest: string, pos: nat)
    requires p.buff == pre + ptail + raw + (tail + rest) && pos == |pre + ptail|
    requires pre != "" && pre[|pre| - 1] == '>' && rest != "" && rest[0] == '<'
    requires tail != "" && tail[0] in SPACES
    ensures CutRow(p, pos, |raw|) ==
            p.(buff := pre + (TrimEnd(ptail) + DropBlanks(tail)) + rest,
               dev := p.dev + |raw| + (|ptail| - |TrimEnd(ptail)|) + (|tail| - |DropBlanks(tail)|))
  {
    hide TrimEnd, DropBlanks, FindFirstNotOf, FindLastNotOf, Replace, CutRow;
    var a, te, db := pre + ptail, TrimEnd(ptail), DropBlanks(tail);
    var b1 := a + (tail + rest);
    ReplaceMiddle(a, raw, tail + rest, "");
    Drop0(a, tail + rest);
    var dotE: nat, dotS: nat := |a| + |tail| - |db|, |pre| + |te|;
    TrimRight(a, tail, rest, dotE);
    HeadOf(tail, rest);
    TrimLeft(pre, ptail, tail + rest, dotS);
    ReplaceSlice(b1, dotS, dotE, pre + te, db + rest);
    Regroup4(pre, te, db, rest);
    CutRowIs(p, pos, |raw|, b1, dotE, dotS, pre + (te + db) + rest);
  }

  lemma Drop0(a: string, b: string)
    ensures a + "" + b == a + b
  {
  }

  lemma HeadOf(a: string, b: string)
    requires a != ""
    ensures (a + b)[0] == a[0]
  {
  }

  lemma Regroup4(a: string, b: string, c: string, d: string)
    ensures (a + b) + (c + d) == a + (b + c) + d
  {
  }

  lemma ReplaceSlice(s: string, i: nat, j: nat, a: string, c: string)
    requires i <= j <= |s| && s[..i] == a && s[j..] == c
    ensures Replace(s, i, j - i, "") == Some(a + c)
  {
    assert a + "" + c == a + c;
  }

  lemma ReplaceMiddle(a: string, b: string, c: string, t: string)
    ensures Replace(a + b + c, |a|, |b|, t) == Some(a + t + c)
  {
    var s := a + b + c;
    assert s[..|a|] == a && s[|a| + |b|..] == c;
  }

  // ----- a whole delete pass

  /** The two callbacks of a row that is deleted. */
  lemma DeleteHit(p: Pass, d: DbTable, n: Node, off: nat, orig: string, pos: nat)
    requires !p.failed && NodeOk(n) && Hit(n, p.skip, d) && off - p.dev == pos
    ensures exists s1 :: RunNode(p, DeleteRow, d, n, off, orig) == CutRow(p.(s0 := off, s1 := s1), pos, |n.raw|)
  {
    hide CutRow, ColumnOf, RowMatches, EqNoCase, NodeOk;
    NodeOkRow(n);
    ElementsDiffer(n.kind.name);
    var evs := NodeEvents(n, off, orig);
    RunTwo(p, DeleteRow, d, evs[0], evs[1]);
    assert Step(p, DeleteRow, d, evs[0]) == p.(s0 := off, s1 := n.kind.openLen);
  }

  /** Text of the passed units, split before the character data of the last one. */
  function Before(head: string, done: seq<Node>): string
    requires done != []
  {
    head + Flat(done[..|done| - 1]) + done[|done| - 1].raw
  }

  lemma FlatSnoc(head: string, front: seq<Node>, n: Node)
    ensures head + Flat(front + [n]) == (head + Flat(front) + n.raw) + n.tail
  {
    FlatAppend(front, [n]);
    FlatOne(n);
    assert head + (Flat(front) + (n.raw + n.tail)) == (head + Flat(front) + n.raw) + n.tail;
  }

  lemma BeforeSplit(head: string, done: seq<Node>, tail': string)
    requires done != []
    ensures var last := done[|done| - 1];
            head + Flat(done) == Before(head, done) + last.tail &&
            head + Flat(done[..|done| - 1] + [last.(tail := tail')]) == Before(head, done) + tail'
  {
    hide Flat;
    var front, last := done[..|done| - 1], done[|done| - 1];
    assert done == front + [last];
    FlatSnoc(head, front, last);
    FlatSnoc(head, front, last.(tail := tail'));
  }

  lemma BeforeEndsTag(head: string, done: seq<Node>)
    requires done != [] && NodeOk(done[|done| - 1])
    ensures Before(head, done) != "" && Before(head, done)[|Before(head, done)| - 1] == '>'
  {
    NodeOkBrackets(done[|done| - 1]);
  }

  lemma FlatCons(n: Node, rest: seq<Node>)
    ensures Flat([n] + rest) == n.raw + (n.tail + Flat(rest))
  {
    assert ([n] + rest)[1..] == rest;
    assert n.raw + n.tail + Flat(rest) == n.raw + (n.tail + Flat(rest));
  }

  /** The state in front of the units rest, whose text starts at off in the untouched copy. */
  ghost predicate Between(p: Pass, head: string, done: seq<Node>, rest: seq<Node>, off: nat) {
    !p.failed && AllOk(done) && AllOk(rest) &&
    p.buff == head + Flat(done) + Flat(rest) && off - p.dev == |head + Flat(done)|
  }

  /** One deleted row. */
  lemma DeleteStep(p: Pass, d: DbTable, head: string, done: seq<Node>, rest: seq<Node>, off: nat, orig: string)
    requires Between(p, head, done, rest, off) && done != [] && |rest| > 1
    requires Hit(rest[0], p.skip, d) && rest[0].tail != "" && rest[0].tail[0] in SPACES
    ensures var q := RunNode(p, DeleteRow, d, rest[0], off, orig);
            Between(q, head, AbsorbLast(done, rest[0].tail), rest[1..], off + |NodeText(rest[0])|) && q.skip == p.skip
  {
    hide CutRow, TrimEnd, DropBlanks, NodeOk, Flat, RunNode, Hit, Before;
    var n, last := rest[0], done[|done| - 1];
    var pre := Before(head, done);
    var tail' := TrimEnd(last.tail) + DropBlanks(n.tail);
    var rt := Flat(rest[1..]);
    var pos := |head + Flat(done)|;
    BeforeSplit(head, done, tail');
    BeforeEndsTag(head, done);
    assert rest == [n] + rest[1..];
    FlatCons(n, rest[1..]);
    FlatStart(rest[1..]);
    Regroup4(pre, last.tail, n.raw, n.tail + rt);
    assert p.buff == pre + last.tail + n.raw + (n.tail + rt);
    DeleteHit(p, d, n, off, orig, pos);
    var s1 :| RunNode(p, DeleteRow, d, n, off, orig) == CutRow(p.(s0 := off, s1 := s1), pos, |n.raw|);
    CutRowText(p.(s0 := off, s1 := s1), pre, last.tail, n.raw, n.tail, rt, pos);
    TailOk(n);
    AbsorbOk(last, n.tail);
  }

  lemma AbsorbOk(n: Node, tail: string)
    requires NodeOk(n) && '<' !in tail
    ensures NodeOk(Absorb(n, tail)) && '<' !in DropBlanks(tail)
  {
    hide ReadNode;
  }

  lemma TailOk(n: Node)
    requires NodeOk(n)
    ensures '<' !in n.tail
  {
    hide ReadNode;
  }

  /** A unit that is not hit is passed as it stands. */
  lemma QuietStep(p: Pass, act: Action, d: DbTable, head: string, done: seq<Node>, rest: seq<Node>,
                  off: nat, orig: string, m: Mode)
    requires RowAction(act) && Between(p, head, done, rest, off)
    requires rest != [] && NextMode(m, rest[0]).Some? && !Hit(rest[0], p.skip, d)
    ensures var q := RunNode(p, act, d, rest[0], off, orig);
            Between(q, head, done + [rest[0]], rest[1..], off + |NodeText(rest[0])|) &&
            q.skip == NodeSkip(rest[0], p.skip, d.name) && q.res == p.res
  {
    hide NodeOk, Flat, RunNode, Hit, NextMode, NodeSkip;
    var n := rest[0];
    Quiet(p, act, d, n, off, orig, m);
    assert rest == [n] + rest[1..];
    FlatCons(n, rest[1..]);
    FlatSnoc(head, done, n);
    Regroup5(head + Flat(done), n.raw, n.tail, Flat(rest[1..]));
  }

  lemma Regroup5(a: string, b: string, c: string, d: string)
    ensures a + (b + (c + d)) == a + b + c + d
  {
  }

  /** In table mode there is a unit before the row, and units after it. */
  lemma RowInside(m: Mode, rest: seq<Node>)
    requires Shape(rest, m) && rest != [] && rest[0].kind.Row?
    ensures m.InTable? && |rest| > 1
  {
    assert NextMode(m, rest[0]).Some?;
  }

  /** The front of a document, its first unit and the rest of the front. */
  lemma FrontCons(rest: seq<Node>, k: nat, off: nat)
    requires 0 < k <= |rest|
    ensures rest[..k] != [] && rest[..k][0] == rest[0] && rest[..k][1..] == rest[1..][..k - 1]
    ensures rest[1..][k - 1..] == rest[k..]
    ensures off + |NodeText(rest[0])| + |Flat(rest[1..][..k - 1])| == off + |Flat(rest[..k])|
  {
    hide Flat;
    assert rest[..k] == [rest[0]] + rest[1..][..k - 1];
    FlatCons(rest[0], rest[1..][..k - 1]);
  }

  lemma DelNodesStep(done: seq<Node>, rest: seq<Node>, skip: bool, d: DbTable)
    requires rest != []
    ensures DelNodes(done, rest, skip, d) ==
            if Hit(rest[0], skip, d) && done != [] then
              DelNodes(AbsorbLast(done, rest[0].tail), rest[1..], skip, d)
            else DelNodes(done + [rest[0]], rest[1..], NodeSkip(rest[0], skip, d.name), d)
  {
    hide Hit, Absorb, NodeSkip;
  }

  lemma ShapeFirst(rest: seq<Node>, m: Mode)
    requires rest != [] && Shape(rest, m)
    ensures NextMode(m, rest[0]).Some? && Shape(rest[1..], NextMode(m, rest[0]).value)
  {
    hide NextMode;
  }

  /** What the grammar and the spacing say of the first unit and of the others. */
  lemma FirstOf(rest: seq<Node>, skip: bool, d: DbTable, m: Mode)
    requires rest != [] && Shape(rest, m) && Spaced(rest, skip, d)
    ensures NextMode(m, rest[0]).Some? && Shape(rest[1..], NextMode(m, rest[0]).value)
    ensures Spaced(rest[1..], NodeSkip(rest[0], skip, d.name), d)
    ensures Hit(rest[0], skip, d) ==>
            m.InTable? && NextMode(m, rest[0]) == Some(m) && |rest| > 1 && NodeSkip(rest[0], skip, d.name) == skip &&
            rest[0].tail != "" && rest[0].tail[0] in SPACES
  {
    hide Hit, NodeSkip, NextMode;
    if Hit(rest[0], skip, d) {
      HitIsRow(rest[0], skip, d);
      RowInside(m, rest);
      RowMode(m, rest[0]);
    }
  }

  /** The delete pass after k units: the text still to come is the untouched copy's, at the position minus
      buffDeviation, and the text before it is that of the passed units without the hit rows. */
  lemma {:induction false} DeleteFront(p: Pass, d: DbTable, head: string, done: seq<Node>, rest: seq<Node>, k: nat,
                                       off: nat, orig: string, m: Mode)
    requires Between(p, head, done, rest, off) && Shape(rest, m) && (m.InTable? ==> done != [])
    requires Spaced(rest, p.skip, d) && k <= |rest|
    ensures var q := Run(p, DeleteRow, d, Events(rest[..k], off, orig));
            Between(q, head, DelNodes(done, rest[..k], p.skip, d), rest[k..], off + |Flat(rest[..k])|)
    decreases |rest|
  {
    hide NodeOk, RunNode, Hit, Flat, NextMode, NodeSkip, NodeEvents, Step, AbsorbLast, Between, Shape, Spaced;
    if k == 0 {
      FlatEmpty();
      assert rest[..0] == [] && rest[0..] == rest;
    } else {
      hide Run, Events, DelNodes;
      var n, off' := rest[0], off + |NodeText(rest[0])|;
      var q := RunNode(p, DeleteRow, d, n, off, orig);
      DelNodesStep(done, rest[..k], p.skip, d);
      RunCons(p, DeleteRow, d, rest[..k], off, orig);
      FrontCons(rest, k, off);
      FirstOf(rest, p.skip, d, m);
      if Hit(n, p.skip, d) {
        DeleteStep(p, d, head, done, rest, off, orig);
        DeleteFront(q, d, head, AbsorbLast(done, n.tail), rest[1..], k - 1, off', orig, m);
      } else {
        QuietStep(p, DeleteRow, d, head, done, rest, off, orig, m);
        DeleteFront(q, d, head, done + [n], rest[1..], k - 1, off', orig, NextMode(m, n).value);
      }
    }
  }

  /** The delete pass: at the end exactly the hit rows and white space beside them are gone. */
  lemma DeletePass(p: Pass, d: DbTable, head: string, done: seq<Node>, rest: seq<Node>, off: nat, orig: string, m: Mode)
    requires Between(p, head, done, rest, off) && Shape(rest, m) && (m.InTable? ==> done != [])
    requires Spaced(rest, p.skip, d)
    ensures var q := Run(p, DeleteRow, d, Events(rest, off, orig));
            var nodes := DelNodes(done, rest, p.skip, d);
            !q.failed && q.buff == head + Flat(nodes) && AllOk(nodes)
  {
    hide NodeOk, Flat, DelNodes, Run, Events;
    DeleteFront(p, d, head, done, rest, |rest|, off, orig, m);
    assert rest[..|rest|] == rest && rest[|rest|..] == [];
    var q := Run(p, DeleteRow, d, Events(rest, off, orig));
    PassEnd(q, DeleteRow, d, head, DelNodes(done, rest, p.skip, d), off + |Flat(rest)|, orig);
  }

  lemma HitIsRow(n: Node, skip: bool, d: DbTable)
    requires Hit(n, skip, d)
    ensures n.kind.Row? && NodeSkip(n, skip, d.name) == skip
  {
  }

  lemma RowMode(m: Mode, n: Node)
    requires n.kind.Row? && NextMode(m, n).Some?
    ensures NextMode(m, n) == Some(m)
  {
  }

  // ----- update and select passes

  lemma UpdateHit(p: Pass, d: DbTable, n: Node, off: nat, orig: string, pos: nat, a: string, c: string, row: string)
    requires !p.failed && NodeOk(n) && Hit(n, p.skip, d) && off - p.dev == pos && p.res == map[]
    requires p.buff == a + n.raw + c && pos == |a| && row == RowText(d.cols, true, RecordOf(n.kind.attrs))
    ensures var q := RunNode(p, UpdateRow, d, n, off, orig);
            !q.failed && q.buff == a + row + c && q.dev == p.dev + |n.raw| - |row| && q.res == map[] && q.skip == p.skip
  {
    hide CutRow, ColumnOf, RowMatches, EqNoCase, NodeOk, Replace, RowText, RecordOf;
    NodeOkRow(n);
    ElementsDiffer(n.kind.name);
    ReplaceMiddle(a, n.raw, c, row);
    var evs := NodeEvents(n, off, orig);
    RunTwo(p, UpdateRow, d, evs[0], evs[1]);
    var p1 := Step(p, UpdateRow, d, evs[0]);
    assert p1.res == map[0 := RecordOf(n.kind.attrs)];
  }

  lemma UpdNodeOk(n: Node, d: DbTable)
    requires NodeOk(n) && n.kind.Row? && ColsOk(d.cols)
    ensures NodeOk(UpdNode(n, d))
  {
    hide ReadNode, RowText, RowAttrs;
    var prev := RecordOf(n.kind.attrs);
    RowReads(d.cols, true, prev, RowText(d.cols, true, prev));
  }

  lemma UpdateStep(p: Pass, d: DbTable, head: string, done: seq<Node>, rest: seq<Node>, off: nat, orig: string)
    requires Between(p, head, done, rest, off) && rest != [] && p.res == map[] && ColsOk(d.cols)
    requires Hit(rest[0], p.skip, d)
    ensures var q := RunNode(p, UpdateRow, d, rest[0], off, orig);
            rest[0].kind.Row? &&
            Between(q, head, done + [UpdNode(rest[0], d)], rest[1..], off + |NodeText(rest[0])|) &&
            q.skip == p.skip && q.res == map[]
  {
    hide NodeOk, Flat, RunNode, Hit, RowText;
    var n := rest[0];
    HitIsRow(n, p.skip, d);
    var n' := UpdNode(n, d);
    var a, rt := head + Flat(done), Flat(rest[1..]);
    assert rest == [n] + rest[1..];
    FlatCons(n, rest[1..]);
    Regroup6(a, n.raw, n.tail + rt);
    UpdateHit(p, d, n, off, orig, |a|, a, n.tail + rt, n'.raw);
    FlatSnoc(head, done, n');
    Regroup7(a, n'.raw, n.tail, rt);
    UpdNodeOk(n, d);
  }

  lemma Regroup6(a: string, b: string, c: string)
    ensures a + (b + c) == a + b + c
  {
  }

  lemma Regroup7(a: string, b: string, c: string, d: string)
    ensures a + b + (c + d) == (a + b) + c + d
  {
  }

  /** Nothing is left to pass. */
  lemma PassEnd(p: Pass, act: Action, d: DbTable, head: string, done: seq<Node>, off: nat, orig: string)
    requires Between(p, head, done, [], off)
    ensures Run(p, act, d, Events([], off, orig)) == p && p.buff == head + Flat(done)
  {
    hide NodeOk;
    FlatEmpty();
    assert head + Flat(done) + "" == head + Flat(done);
  }

  lemma UpdNodesCons(done: seq<Node>, rest: seq<Node>, skip: bool, d: DbTable)
    requires rest != []
    ensures var n := if Hit(rest[0], skip, d) then UpdNode(rest[0], d) else rest[0];
            (done + [n]) + UpdNodes(rest[1..], NodeSkip(rest[0], skip, d.name), d) == done + UpdNodes(rest, skip, d)
  {
    UpdNodesStep(rest, skip, d);
    hide Hit, NodeSkip, UpdNode, UpdNodes;
    var n := if Hit(rest[0], skip, d) then UpdNode(rest[0], d) else rest[0];
    Shift(done, n, UpdNodes(rest[1..], NodeSkip(rest[0], skip, d.name), d));
  }

  lemma UpdNodesStep(rest: seq<Node>, skip: bool, d: DbTable)
    requires rest != []
    ensures var n := if Hit(rest[0], skip, d) then UpdNode(rest[0], d) else rest[0];
            UpdNodes(rest, skip, d) == [n] + UpdNodes(rest[1..], NodeSkip(rest[0], skip, d.name), d)
  {
    hide Hit, NodeSkip, UpdNode;
  }

  lemma Shift(a: seq<Node>, n: Node, b: seq<Node>)
    ensures (a + [n]) + b == a + ([n] + b)
  {
  }

  /** The update pass after k units: as DeleteFront, with the hit rows replaced. */
  lemma {:induction false} UpdateFront(p: Pass, d: DbTable, head: string, done: seq<Node>, rest: seq<Node>, k: nat,
                                       off: nat, orig: string, m: Mode)
    requires Between(p, head, done, rest, off) && Shape(rest, m) && p.res == map[] && ColsOk(d.cols) && k <= |rest|
    ensures var q := Run(p, UpdateRow, d, Events(rest[..k], off, orig));
            Between(q, head, done + UpdNodes(rest[..k], p.skip, d), rest[k..], off + |Flat(rest[..k])|) &&
            q.res == map[]
    decreases |rest|
  {
    hide NodeOk, RunNode, Hit, Flat, NextMode, NodeSkip, NodeEvents, Step, UpdNode, ColsOk, Between, Shape;
    if k == 0 {
      FlatEmpty();
      assert rest[..0] == [] && rest[0..] == rest && done + [] == done;
    } else {
      hide UpdNodes, Run, Events;
      var n, off' := rest[0], off + |NodeText(rest[0])|;
      var q := RunNode(p, UpdateRow, d, n, off, orig);
      RunCons(p, UpdateRow, d, rest[..k], off, orig);
      FrontCons(rest, k, off);
      UpdNodesCons(done, rest[..k], p.skip, d);
      ShapeFirst(rest, m);
      if Hit(n, p.skip, d) {
        UpdateStep(p, d, head, done, rest, off, orig);
        HitIsRow(n, p.skip, d);
        RowMode(m, n);
        UpdateFront(q, d, head, done + [UpdNode(n, d)], rest[1..], k - 1, off', orig, m);
      } else {
        QuietStep(p, UpdateRow, d, head, done, rest, off, orig, m);
        UpdateFront(q, d, head, done + [n], rest[1..], k - 1, off', orig, NextMode(m, n).value);
      }
    }
  }

  /** The update pass replaces exactly the hit rows. */
  lemma UpdatePass(p: Pass, d: DbTable, head: string, done: seq<Node>, rest: seq<Node>, off: nat, orig: string, m: Mode)
    requires Between(p, head, done, rest, off) && Shape(rest, m) && p.res == map[] && ColsOk(d.cols)
    ensures var q := Run(p, UpdateRow, d, Events(rest, off, orig));
            var nodes := done + UpdNodes(rest, p.skip, d);
            !q.failed && q.buff == head + Flat(nodes) && AllOk(nodes)
  {
    hide NodeOk, Flat, UpdNodes, Run, Events, ColsOk;
    UpdateFront(p, d, head, done, rest, |rest|, off, orig, m);
    assert rest[..|rest|] == rest && rest[|rest|..] == [];
    var q := Run(p, UpdateRow, d, Events(rest, off, orig));
    PassEnd(q, UpdateRow, d, head, done + UpdNodes(rest, p.skip, d), off + |Flat(rest)|, orig);
  }

  /** Results of a select: the records numbered from 0. */
  function Numbered(rows: seq<seq<Attr>>): (r: map<int, Record>)
    ensures |r| == |rows| && forall k :: k in r <==> 0 <= k < |rows|
    ensures forall k :: 0 <= k < |rows| ==> r[k] == RecordOf(rows[k])
  {
    if rows == [] then map[]
    else
      var r := Numbered(rows[..|rows| - 1]);
      r[|rows| - 1 := RecordOf(rows[|rows| - 1])]
  }

  lemma SelectHit(p: Pass, d: DbTable, n: Node, off: nat, orig: string)
    requires !p.failed && NodeOk(n) && Hit(n, p.skip, d)
    ensures RunNode(p, SelectRow, d, n, off, orig) == p.(res := p.res[|p.res| := RecordOf(n.kind.attrs)])
  {
    hide CutRow, ColumnOf, RowMatches, EqNoCase, NodeOk, Replace;
    NodeOkRow(n);
    ElementsDiffer(n.kind.name);
    var evs := NodeEvents(n, off, orig);
    RunTwo(p, SelectRow, d, evs[0], evs[1]);
  }

  lemma NumberedSnoc(rows: seq<seq<Attr>>, x: seq<Attr>)
    ensures Numbered(rows + [x]) == Numbered(rows)[|rows| := RecordOf(x)]
  {
    assert (rows + [x])[..|rows|] == rows;
  }

  lemma SelRowsCons(found: seq<seq<Attr>>, rest: seq<Node>, skip: bool, d: DbTable)
    requires rest != []
    ensures (if Hit(rest[0], skip, d) then found + [rest[0].kind.attrs] else found) +
            SelRows(rest[1..], NodeSkip(rest[0], skip, d.name), d) == found + SelRows(rest, skip, d)
  {
    hide RowMatches, NodeSkip;
  }

  /** The select pass collects exactly the hit rows, numbered 0, 1, 2, ... in document order. */
  lemma {:induction false} SelectPass(p: Pass, d: DbTable, head: string, done: seq<Node>, rest: seq<Node>,
                                      off: nat, orig: string, m: Mode, found: seq<seq<Attr>>)
    requires Between(p, head, done, rest, off) && Shape(rest, m) && p.res == Numbered(found)
    ensures var q := Run(p, SelectRow, d, Events(rest, off, orig));
            !q.failed && q.buff == p.buff && q.res == Numbered(found + SelRows(rest, p.skip, d))
    decreases |rest|
  {
    hide NodeOk, RunNode, Hit, Flat, NextMode, NodeSkip, NodeEvents, Step, Numbered, ReadNode;
    if rest == [] {
      PassEnd(p, SelectRow, d, head, done, off, orig);
      assert found + [] == found;
    } else {
      hide SelRows, Run, Events, Between;
      var n, off' := rest[0], off + |NodeText(rest[0])|;
      var q := RunNode(p, SelectRow, d, n, off, orig);
      RunCons(p, SelectRow, d, rest, off, orig);
      SelRowsCons(found, rest, p.skip, d);
      if Hit(n, p.skip, d) {
        HitIsRow(n, p.skip, d);
        RowMode(m, n);
        SelectStep(p, d, head, done, rest, off, orig, found);
        SelectPass(q, d, head, done + [n], rest[1..], off', orig, m, found + [n.kind.attrs]);
      } else {
        QuietStep(p, SelectRow, d, head, done, rest, off, orig, m);
        SelectPass(q, d, head, done + [n], rest[1..], off', orig, NextMode(m, n).value, found);
        Untouch(p, head, done, rest, off, orig, d, m);
      }
    }
  }

  /** A row that is selected. */
  lemma SelectStep(p: Pass, d: DbTable, head: string, done: seq<Node>, rest: seq<Node>, off: nat, orig: string,
                   found: seq<seq<Attr>>)
    requires Between(p, head, done, rest, off) && p.res == Numbered(found)
    requires rest != [] && Hit(rest[0], p.skip, d)
    ensures var q := RunNode(p, SelectRow, d, rest[0], off, orig);
            rest[0].kind.Row? && Between(q, head, done + [rest[0]], rest[1..], off + |NodeText(rest[0])|) &&
            q.res == Numbered(found + [rest[0].kind.attrs]) && q.buff == p.buff && q.skip == p.skip
  {
    hide NodeOk, RunNode, Hit, Flat, Numbered;
    var n := rest[0];
    var q := RunNode(p, SelectRow, d, n, off, orig);
    HitIsRow(n, p.skip, d);
    SelectHit(p, d, n, off, orig);
    NumberedSnoc(found, n.kind.attrs);
    BetweenPass(p, q, head, done, rest, off);
  }

  lemma Untouch(p: Pass, head: string, done: seq<Node>, rest: seq<Node>, off: nat, orig: string, d: DbTable, m: Mode)
    requires Between(p, head, done, rest, off) && rest != [] && NextMode(m, rest[0]).Some? && !Hit(rest[0], p.skip, d)
    ensures RunNode(p, SelectRow, d, rest[0], off, orig).buff == p.buff
  {
    hide NodeOk, RunNode, Hit, NextMode, Flat, NodeSkip;
    Quiet(p, SelectRow, d, rest[0], off, orig, m);
  }

  /** Passing a unit without editing anything. */
  lemma BetweenPass(p: Pass, q: Pass, head: string, done: seq<Node>, rest: seq<Node>, off: nat)
    requires Between(p, head, done, rest, off) && rest != []
    requires q.buff == p.buff && q.dev == p.dev && !q.failed
    ensures Between(q, head, done + [rest[0]], rest[1..], off + |NodeText(rest[0])|)
  {
    hide NodeOk, Flat;
    var n := rest[0];
    assert rest == [n] + rest[1..];
    FlatCons(n, rest[1..]);
    FlatSnoc(head, done, n);
    Regroup5(head + Flat(done), n.raw, n.tail, Flat(rest[1..]));
  }
}
