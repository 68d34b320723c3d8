/** When the delete pass removes rows and nothing else: exactly when each of them is followed by white space. */
module XmlTrim {
  import opened Text
  import opened XmlReader
  import opened XmlDoc
  import opened XmlTable
  import opened XmlPass
  import opened XmlEdit
  import opened XmlRefine

  /** The text without blanks, tabs and newlines. */
  function Solid(s: string): string {
    if s == "" then "" else (if s[0] in SPACES then "" else [s[0]]) + Solid(s[1..])
  }

  /** The text that must survive: everything but the hit row elements themselves. */
  function RestText(nodes: seq<Node>, skip: bool, d: DbTable): string
    decreases |nodes|
  {
    if nodes == [] then ""
    else (if Hit(nodes[0], skip, d) then nodes[0].tail else NodeText(nodes[0])) +
         RestText(nodes[1..], NodeSkip(nodes[0], skip, d.name), d)
  }

  lemma SolidAppend(a: string, b: string)
    ensures Solid(a + b) == Solid(a) + Solid(b)
  {
    if a == "" {
      assert a + b == b;
    } else {
      assert (a + b)[1..] == a[1..] + b;
      SolidAppend(a[1..], b);
    }
  }

  lemma SolidBlank(s: string)
    requires forall k :: 0 <= k < |s| ==> s[k] in SPACES
    ensures Solid(s) == ""
  {
    if s != "" { SolidBlank(s[1..]); }
  }

  lemma SolidTrimEnd(t: string)
    ensures Solid(TrimEnd(t)) == Solid(t)
  {
    var r := TrimEnd(t);
    assert t == r + t[|r|..];
    SolidAppend(r, t[|r|..]);
    SolidBlank(t[|r|..]);
  }

  lemma SolidDropBlanks(t: string)
    ensures Solid(DropBlanks(t)) == Solid(t)
  {
    var r := DropBlanks(t);
    var b := t[..|t| - |r|];
    assert t == b + r;
    SolidAppend(b, r);
    SolidBlank(b);
  }

  lemma SolidFront(h: string, front: seq<Node>, n: Node)
    ensures Solid(h + Flat(front + [n])) == Solid(h + Flat(front) + n.raw) + Solid(n.tail)
  {
    hide Solid, Flat;
    FlatSnoc(h, front, n);
    SolidAppend(h + Flat(front) + n.raw, n.tail);
  }

  /** Removal on the list of units keeps the solid text of all other units. */
  lemma {:induction false} DelNodesSolid(h: string, done: seq<Node>, rest: seq<Node>, skip: bool, d: DbTable, m: Mode)
    requires Shape(rest, m) && (m.InTable? ==> done != [])
    ensures Solid(h + Flat(DelNodes(done, rest, skip, d))) == Solid(h + Flat(done)) + Solid(RestText(rest, skip, d))
    decreases |rest|
  {
    hide Solid, Flat, Hit, NodeSkip, NextMode, Absorb;
    if rest == [] {
      SolidNone();
    } else {
      var n := rest[0];
      var rt := RestText(rest[1..], NodeSkip(n, skip, d.name), d);
      if Hit(n, skip, d) {
        HitIsRow(n, skip, d);
        RowInside(m, rest);
        RowMode(m, n);
        var front, last := done[..|done| - 1], done[|done| - 1];
        assert done == front + [last];
        SolidFront(h, front, last);
        SolidFront(h, front, Absorb(last, n.tail));
        AbsorbSolid(last, n.tail);
        DelNodesSolid(h, front + [Absorb(last, n.tail)], rest[1..], skip, d, m);
        SolidAppend(n.tail, rt);
      } else {
        SolidFront(h, done, n);
        SolidAppend(h + Flat(done), n.raw);
        SolidAppend(n.raw, n.tail);
        DelNodesSolid(h, done + [n], rest[1..], NodeSkip(n, skip, d.name), d, NextMode(m, n).value);
        SolidAppend(NodeText(n), rt);
      }
    }
  }

  lemma SolidNone()
    ensures Solid("") == ""
  {
  }

  lemma AbsorbSolid(n: Node, tail: string)
    ensures Absorb(n, tail).raw == n.raw && Solid(Absorb(n, tail).tail) == Solid(n.tail) + Solid(tail)
  {
    hide Solid, TrimEnd, DropBlanks;
    SolidAppend(TrimEnd(n.tail), DropBlanks(tail));
    SolidTrimEnd(n.tail);
    SolidDropBlanks(tail);
  }

  // ----- a row that is not followed by white space

  /** The search for the white space before the row then starts on the next character itself, and the
      second replacement gets a negative length: everything behind that character is erased. */
  lemma CutUnspaced(p: Pass, a: string, raw: string, next: string, pos: nat)
    requires !p.failed && p.buff == a + raw + next && pos == |a| && next != "" && next[0] !in SPACES
    ensures !CutRow(p, pos, |raw|).failed && CutRow(p, pos, |raw|).buff == a + [next[0]]
  {
    hide FindFirstNotOf, FindLastNotOf, Replace, CutRow;
    var b1 := a + next;
    ReplaceMiddle(a, raw, next, "");
    Drop0(a, next);
    assert b1[pos] == next[0];
    FirstNotOfIs(b1, BLANKS, pos, pos);
    LastNotOfIs(b1, SPACES, pos, pos);
    NegativeReplace(b1, pos + 1);
    CutRowIs(p, pos, |raw|, b1, pos, pos + 1, b1[..pos + 1]);
    assert b1[..pos + 1] == a + [next[0]];
  }

  lemma NegativeReplace(s: string, i: nat)
    requires i <= |s|
    ensures Replace(s, i, -1, "") == Some(s[..i])
  {
    assert s[..i] + "" + s[|s|..] == s[..i];
  }

  lemma EraseShrinks(s: string, pos: int, n: int)
    ensures Replace(s, pos, n, "").Some? ==> 0 <= pos && |Solid(Replace(s, pos, n, "").value)| <= |Solid(s)|
  {
    hide Solid;
    if 0 <= pos <= |s| {
      var e := if n < 0 || pos + n > |s| then |s| else pos + n;
      var a, b, c := s[..pos], s[pos..e], s[e..];
      assert s == (a + b) + c && a + "" + c == a + c;
      SolidAppend(a + b, c);
      SolidAppend(a, b);
      SolidAppend(a, c);
    }
  }

  /** No callback of a delete pass adds text. */
  lemma StepShrinks(p: Pass, d: DbTable, ev: Event)
    ensures |Solid(Step(p, DeleteRow, d, ev).buff)| <= |Solid(p.buff)|
    ensures p.failed ==> Step(p, DeleteRow, d, ev).failed
  {
    hide Solid, CutRow, EqNoCase, RowMatches;
    if !p.failed {
      match ev
      case Start(el, attrs, idx, cnt, col) =>
        OnTableBuff(p, d, attrs, ev);
      case Stop(el, idx, cnt) =>
        CutShrinks(p, p.s0 - p.dev, idx + cnt - p.s0);
    }
  }

  lemma CutShrinks(p: Pass, pos: int, len: int)
    ensures |Solid(CutRow(p, pos, len).buff)| <= |Solid(p.buff)|
  {
    hide Solid, Replace, FindFirstNotOf, FindLastNotOf;
    EraseShrinks(p.buff, pos, len);
    var r := Replace(p.buff, pos, len, "");
    if r.Some? {
      var b1 := r.value;
      var dotE := FindFirstNotOf(b1, BLANKS, pos);
      var dotS := FindLastNotOf(b1, SPACES, pos) + 1;
      EraseShrinks(b1, dotS, dotE - dotS);
    }
  }

  lemma OnTableBuff(p: Pass, d: DbTable, attrs: seq<Attr>, ev: Event)
    requires ev.Start?
    ensures OnTable(p, DeleteRow, d, attrs, ev).buff == p.buff
    decreases |attrs|
  {
    hide EqNoCase;
    if attrs != [] && !p.failed {
      var q := if EqNoCase(attrs[0].name, "name") then OnTableName(p, DeleteRow, d, attrs[0].value, ev) else p;
      OnTableBuff(q, d, attrs[1..], ev);
    }
  }

  lemma {:induction false} RunShrinks(p: Pass, d: DbTable, evs: seq<Event>)
    ensures |Solid(Run(p, DeleteRow, d, evs).buff)| <= |Solid(p.buff)|
    decreases |evs|
  {
    hide Solid, Step;
    if evs != [] {
      StepShrinks(p, d, evs[0]);
      RunShrinks(Step(p, DeleteRow, d, evs[0]), d, evs[1..]);
    }
  }

  /** What must survive behind a row inside a table holds at least a tag. */
  lemma RestHasTag(rest: seq<Node>, skip: bool, d: DbTable, m: Mode)
    requires m.InTable? && Shape(rest, m) && AllOk(rest)
    ensures |Solid(RestText(rest, skip, d))| >= 2
    decreases |rest|
  {
    hide Solid, Hit, NodeSkip, NodeOk, NextMode, NodeText;
    var n := rest[0];
    var rt := RestText(rest[1..], NodeSkip(n, skip, d.name), d);
    if n.kind.Row? {
      RowMode(m, n);
      RestHasTag(rest[1..], NodeSkip(n, skip, d.name), d, m);
      SolidAppend(if Hit(n, skip, d) then n.tail else NodeText(n), rt);
    } else {
      if Hit(n, skip, d) { HitIsRow(n, skip, d); }
      TagSolid(n);
      SolidAppend(NodeText(n), rt);
    }
  }

  lemma TagSolid(n: Node)
    requires NodeOk(n)
    ensures |Solid(NodeText(n))| >= 2
  {
    hide NodeOk;
    NodeOkBrackets(n);
    var mid := n.raw[1..|n.raw| - 1];
    assert NodeText(n) == ("<" + (mid + ">")) + n.tail;
    SolidAppend("<" + (mid + ">"), n.tail);
    SolidAppend("<", mid + ">");
    SolidAppend(mid, ">");
    assert Solid("<") == "<" && Solid(">") == ">";
  }

  /** The pass at a hit row without white space behind it: one character of the rest survives. */
  lemma UnspacedStep(p: Pass, d: DbTable, head: string, done: seq<Node>, rest: seq<Node>, off: nat, orig: string)
    requires Between(p, head, done, rest, off) && |rest| > 1
    requires Hit(rest[0], p.skip, d) && (rest[0].tail == "" || rest[0].tail[0] !in SPACES)
    ensures var q := RunNode(p, DeleteRow, d, rest[0], off, orig);
            |Solid(q.buff)| <= |Solid(head + Flat(done))| + 1
  {
    hide CutRow, NodeOk, Flat, RunNode, Hit, Solid;
    var n := rest[0];
    var a, rt := head + Flat(done), Flat(rest[1..]);
    var next := n.tail + rt;
    assert rest == [n] + rest[1..];
    FlatCons(n, rest[1..]);
    FlatStart(rest[1..]);
    Regroup6(a, n.raw, next);
    DeleteHit(p, d, n, off, orig, |a|);
    var s1 :| RunNode(p, DeleteRow, d, n, off, orig) == CutRow(p.(s0 := off, s1 := s1), |a|, |n.raw|);
    assert next[0] !in SPACES by { if n.tail != "" { HeadOf(n.tail, rt); } else { assert next == rt; } }
    CutUnspaced(p.(s0 := off, s1 := s1), a, n.raw, next, |a|);
    SolidAppend(a, [next[0]]);
    SolidOne(next[0]);
  }

  lemma SolidOne(c: char)
    ensures |Solid([c])| <= 1
  {
    assert Solid([c]) == (if c in SPACES then "" else [c]) + Solid([c][1..]);
  }

  /** If some hit row is not followed by white space, part of the surviving text is lost. */
  lemma {:induction false} LosesText(p: Pass, d: DbTable, head: string, done: seq<Node>, rest: seq<Node>,
                                     off: nat, orig: string, m: Mode)
    requires Between(p, head, done, rest, off) && Shape(rest, m) && (m.InTable? ==> done != [])
    requires !Spaced(rest, p.skip, d)
    ensures var q := Run(p, DeleteRow, d, Events(rest, off, orig));
            |Solid(q.buff)| < |Solid(head + Flat(done))| + |Solid(RestText(rest, p.skip, d))|
    decreases |rest|
  {
    hide NodeOk, RunNode, Hit, Flat, NextMode, NodeSkip, NodeEvents, Step, Absorb, Solid, Events, Run;
    var n, off' := rest[0], off + |NodeText(rest[0])|;
    var q := RunNode(p, DeleteRow, d, n, off, orig);
    var skip' := NodeSkip(n, p.skip, d.name);
    var rt := RestText(rest[1..], skip', d);
    RunCons(p, DeleteRow, d, rest, off, orig);
    if Hit(n, p.skip, d) {
      HitIsRow(n, p.skip, d);
      RowInside(m, rest);
      RowMode(m, n);
      SolidAppend(n.tail, rt);
      if n.tail == "" || n.tail[0] !in SPACES {
        UnspacedStep(p, d, head, done, rest, off, orig);
        RunShrinks(q, d, Events(rest[1..], off', orig));
        RestHasTag(rest[1..], skip', d, m);
      } else {
        DeleteStep(p, d, head, done, rest, off, orig);
        var front, last := done[..|done| - 1], done[|done| - 1];
        assert done == front + [last];
        SolidFront(head, front, last);
        SolidFront(head, front, Absorb(last, n.tail));
        AbsorbSolid(last, n.tail);
        LosesText(q, d, head, front + [Absorb(last, n.tail)], rest[1..], off', orig, m);
      }
    } else {
      QuietStep(p, DeleteRow, d, head, done, rest, off, orig, m);
      SolidFront(head, done, n);
      SolidAppend(head + Flat(done), n.raw);
      SolidAppend(n.raw, n.tail);
      SolidAppend(NodeText(n), rt);
      LosesText(q, d, head, done + [n], rest[1..], off', orig, NextMode(m, n).value);
    }
  }

  /** db_del on a whole file removes the matching rows and nothing but white space besides, exactly when a
      blank, tab or newline follows each of them. */
  lemma DeleteIsCleanIff(s: string, doc: Doc, d: DbTable)
    requires Scan(s) == Some(doc) && Shape(doc.nodes, Prolog)
    ensures var q := RunAction(s, DeleteRow, d).value;
            !q.failed && Solid(q.buff) == Solid(doc.head + RestText(doc.nodes, false, d))
            <==> Spaced(doc.nodes, false, d)
  {
    hide Scan, Solid, Run, Flat, Events, NodeOk;
    ScanSound(s, doc);
    var p := InitPass(s);
    assert doc.head + Flat([]) == doc.head by { FlatEmpty(); }
    if Spaced(doc.nodes, false, d) {
      DeletePass(p, d, doc.head, [], doc.nodes, |doc.head|, s, Prolog);
      DelNodesSolid(doc.head, [], doc.nodes, false, d, Prolog);
    } else {
      LosesText(p, d, doc.head, [], doc.nodes, |doc.head|, s, Prolog);
    }
    SolidAppend(doc.head, RestText(doc.nodes, false, d));
  }
}
