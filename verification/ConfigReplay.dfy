/** Reading the printed access lists back: line by line, word by word, command by command. */
module ConfigReplay {
  import opened Text
  import opened LineSplitter
  import opened AccessLists

  /** Lines as getline cuts them. */
  function Lines(s: string): seq<string> {
    if s == "" then [""]
    else if s[0] == '\n' then [""] + Lines(s[1..])
    else var r := Lines(s[1..]); [[s[0]] + r[0]] + r[1..]
  }

  function Word(s: string, w: Span): string {
    if w.first + w.len <= |s| then s[w.first..w.first + w.len] else ""
  }

  /** The words of a line as parseCommand extracts them from vt_line. */
  function WordsOf(line: string): seq<string> {
    var s := Cut(line);
    Texts(s, Words(s, 0))
  }

  function Texts(s: string, ws: seq<Span>): (r: seq<string>)
    ensures |r| == |ws| && forall k :: 0 <= k < |ws| ==> r[k] == Word(s, ws[k])
  {
    if ws == [] then [] else [Word(s, ws[0])] + Texts(s, ws[1..])
  }

  /** A numeric parameter, mask {int:0-}. */
  predicate IntParam(p: string) {
    forall k :: 0 <= k < |p| ==> IsDigit(p[k])
  }

  /** A pattern parameter, mask {str:2-255}. */
  predicate StrParam(p: string) {
    2 <= |p| <= 255
  }

  /** The reader's state: the lists so far and the parameter of the open access command, if any. */
  datatype Reader = Reader(lists: seq<Acl>, up: string, inside: bool) | Failed

  /** One line: no words, no action; otherwise the command the keywords select. Failed: the load is aborted. */
  function OnWords(r: Reader, ws: seq<string>): Reader
    requires r.Reader?
  {
    if ws == [] then r
    else if !r.inside then
      if |ws| == 2 && ws[0] == "access" && IntParam(ws[1]) then
        Reader(Applied(r.lists, ConfAccessNode, ws[1], ""), ws[1], true)
      else Failed
    else if ws == ["exit"] then r.(inside := false)
    else if |ws| == 2 && ws[0] == "permit" && StrParam(ws[1]) then
      r.(lists := Applied(r.lists, ConfAccessPermit, ws[1], r.up))
    else if |ws| == 2 && ws[0] == "deny" && StrParam(ws[1]) then
      r.(lists := Applied(r.lists, ConfAccessDeny, ws[1], r.up))
    else Failed
  }

  function OnLine(r: Reader, line: string): Reader {
    if r.Failed? then r else OnWords(r, WordsOf(line))
  }

  function OnLines(r: Reader, lines: seq<string>): Reader
    decreases |lines|
  {
    if lines == [] then r else OnLines(OnLine(r, lines[0]), lines[1..])
  }

  lemma OnLinesAppend(r: Reader, a: seq<string>, b: seq<string>)
    ensures OnLines(r, a + b) == OnLines(OnLines(r, a), b)
    decreases |a|
  {
    hide OnLine;
    if a == [] {
      assert a + b == b;
    } else {
      assert (a + b)[1..] == a[1..] + b;
      OnLinesAppend(OnLine(r, a[0]), a[1..], b);
    }
  }

  lemma FailedForGood(lines: seq<string>)
    ensures OnLines(Failed, lines) == Failed
  {
    if lines != [] { FailedForGood(lines[1..]); }
  }

  /** The reader as a program: it stops at the first line that no command takes. */
  method Load(access: CoreAccess, splitter: VtyLineSplitter, text: string) returns (ok: bool)
    requires access.Valid()
    modifies access, Objects(access.acl), splitter
    ensures access.Valid()
    ensures ok == OnLines(Reader(old(access.View()), "", false), Lines(text)).Reader?
    ensures ok ==> access.View() == OnLines(Reader(old(access.View()), "", false), Lines(text)).lists
  {
    hide Lines, Views, OnLine, OnLines, OnWords, WordsOf, Words;
    var lines := Lines(text);
    var up, inside := "", false;
    var i := 0;
    ghost var r := Reader(access.View(), up, inside);
    ghost var want := OnLines(r, lines);
    assert lines[0..] == lines;
    ok := true;
    while i < |lines| && ok
      invariant i <= |lines| && access.Valid() && fresh(Objects(access.acl) - Objects(old(access.acl)))
      invariant if ok then r == Reader(access.View(), up, inside) && OnLines(r, lines[i..]) == want else want == Failed
    {
      OnLinesFrom(r, lines, i);
      ok, up, inside := LoadLine(access, splitter, lines[i], up, inside);
      r := OnLine(r, lines[i]);
      if !ok { FailedForGood(lines[i + 1..]); }
      i := i + 1;
    }
    if ok {
      assert lines[i..] == [];
      OnNoLines(r);
    }
  }

  /** The list objects themselves. */
  ghost function Objects(acl: seq<AclData>): set<AclData> {
    set a | a in acl
  }

  lemma OnLinesFrom(r: Reader, lines: seq<string>, i: nat)
    requires i < |lines|
    ensures OnLines(r, lines[i..]) == OnLines(OnLine(r, lines[i]), lines[i + 1..])
  {
    hide OnLine;
    assert lines[i..][0] == lines[i] && lines[i..][1..] == lines[i + 1..];
  }

  lemma OnNoLines(r: Reader)
    ensures OnLines(r, []) == r
  {
  }

  /** One line of the text: split, and the command that its keyword selects. */
  method LoadLine(access: CoreAccess, splitter: VtyLineSplitter, line: string, up: string, inside: bool)
    returns (ok: bool, up': string, inside': bool)
    requires access.Valid()
    modifies access, Objects(access.acl), splitter
    ensures access.Valid() && fresh(Objects(access.acl) - Objects(old(access.acl)))
    ensures OnLine(Reader(old(access.View()), up, inside), line) ==
            if ok then Reader(access.View(), up', inside') else Failed
  {
    hide Applied, Views, Words;
    ok, up', inside' := true, up, inside;
    splitter.Split(line);
    var ws := Texts(Cut(line), splitter.splitLine);
    assert ws == WordsOf(line);
    if ws == [] {
    } else if !inside && |ws| == 2 && ws[0] == "access" && IntParam(ws[1]) {
      var e := access.ApplyCf(ConfAccessNode, ws[1], "");
      up', inside' := ws[1], true;
    } else if inside && ws == ["exit"] {
      inside' := false;
    } else if inside && |ws| == 2 && ws[0] == "permit" && StrParam(ws[1]) {
      var e := access.ApplyCf(ConfAccessPermit, ws[1], up);
    } else if inside && |ws| == 2 && ws[0] == "deny" && StrParam(ws[1]) {
      var e := access.ApplyCf(ConfAccessDeny, ws[1], up);
    } else {
      ok := false;
    }
  }

  // ----- lines of the printed text

  /** A line, its end, and what follows. */
  lemma LinesCons(a: string, b: string)
    requires '\n' !in a
    ensures Lines(a + "\n" + b) == [a] + Lines(b)
  {
    var t := a + "\n" + b;
    if a == "" {
      assert t[1..] == b;
    } else {
      assert t[1..] == a[1..] + "\n" + b;
      LinesCons(a[1..], b);
      assert t[0] == a[0];
      assert [a[0]] + a[1..] == a;
    }
  }

  lemma LinesLast(a: string)
    requires '\n' !in a
    ensures Lines(a) == [a]
  {
    if a != "" {
      LinesLast(a[1..]);
      assert [a[0]] + a[1..] == a;
    }
  }

  // ----- how the splitter sees a printed line

  /** A letter-only keyword. */
  predicate Keyword(kw: string) {
    kw != "" && forall k :: 0 <= k < |kw| ==> 'a' <= kw[k] <= 'z'
  }

  /** indent blanks, a keyword, and either the end of the line or a blank. */
  lemma KeywordFirst(s: string, indent: nat, kw: string, e: nat)
    requires Keyword(kw) && e == indent + |kw| <= |s| && s[indent..e] == kw
    requires forall k :: 0 <= k < indent ==> s[k] == ' '
    requires e < |s| ==> s[e] == ' '
    ensures Words(s, 0) == [Span(indent, |kw|)] + if e < |s| then Words(s, e + 1) else []
  {
    hide Words, WordEnd;
    SkipBlanks(s, 0, indent);
    assert forall k :: indent <= k < e ==> s[k] == s[indent..e][k - indent];
    assert Slashes(s, indent + 1, e) == 0;
    EndIs(s, indent + 1, ' ', e);
    BareWord(s, indent, e);
  }

  lemma BareWord(s: string, i: nat, e: nat)
    requires i < e <= |s| && WordEnd(s, i + 1, ' ') == e
    requires s[i] != ' ' && s[i] != '\\' && !IsQuote(s[i]) && !IsCommentSign(s[i])
    ensures Words(s, i) == [Span(i, e - i)] + if e < |s| then Words(s, e + 1) else []
  {
    hide WordEnd;
  }

  lemma SkipBlanks(s: string, i: nat, j: nat)
    requires i <= j <= |s| && forall k :: i <= k < j ==> s[k] == ' '
    ensures Words(s, i) == Words(s, j)
    decreases j - i
  {
    if i < j { SkipBlanks(s, i + 1, j); }
  }

  /** What a rule line hands to the command: the pattern as the splitter sees it, None if the line is refused. */
  datatype Seen = Refused | Taken(pattern: string)

  function SeenAs(kw: string, p: string): Seen {
    var ws := WordsOf("  " + kw + " " + p);
    if |ws| == 2 && StrParam(ws[1]) then Taken(ws[1]) else Refused
  }

  /** A pattern that survives: 2 to 255 characters, one plain word. */
  predicate Survives(p: string) {
    2 <= |p| <= 255 && Plain(p)
  }

  lemma WordsOfRule(kw: string, p: string, s: string, pre: nat)
    requires Keyword(kw) && |kw| <= 6 && s == Cut("  " + kw + " " + p) && pre == 3 + |kw|
    ensures |s| >= pre && Words(s, 0) == [Span(2, |kw|)] + Words(s, pre)
    ensures s[2..2 + |kw|] == kw
  {
    hide Words;
    var t := "  " + kw + " " + p;
    assert |t| == pre + |p|;
    assert forall k :: 0 <= k < 2 ==> t[k] == ' ';
    assert t[2..2 + |kw|] == kw && t[pre - 1] == ' ';
    assert s == t[..|s|];
    assert s[2..2 + |kw|] == t[2..2 + |kw|];
    KeywordFirst(s, 2, kw, pre - 1);
  }

  lemma TextsCons(s: string, w: Span, ws: seq<Span>)
    ensures Texts(s, [w] + ws) == [Word(s, w)] + Texts(s, ws)
  {
    assert ([w] + ws)[1..] == ws;
  }

  /** A printed rule comes back as it was printed exactly if its pattern survives. */
  lemma SeenIff(kw: string, p: string)
    requires Keyword(kw) && |kw| <= 6
    ensures SeenAs(kw, p) == Taken(p) <==> Survives(p)
    ensures WordsOf("  " + kw + " " + p) != [] && WordsOf("  " + kw + " " + p)[0] == kw
  {
    hide Words, Plain;
    var t := "  " + kw + " " + p;
    var s, pre := Cut(t), 3 + |kw|;
    WordsOfRule(kw, p, s, pre);
    var more := Words(s, pre);
    TextsCons(s, Span(2, |kw|), more);
    var ws := WordsOf(t);
    assert ws == [kw] + Texts(s, more);
    if |p| <= 255 {
      assert s == t && s[pre..] == p;
      PlainIffWord(s, pre, p);
      if |more| == 1 && Word(s, more[0]) == p && p != "" {
        WordsApart(s, pre);
        assert more[0].len == |p| && more[0].first == pre;
      }
      if Plain(p) { assert more == [Span(pre, |p|)] && Word(s, more[0]) == p; }
    }
  }

  // ----- the round trip

  function OnText(r: Reader, text: string): Reader {
    OnLines(r, Lines(text))
  }

  lemma OnTextLine(r: Reader, a: string, b: string)
    requires '\n' !in a
    ensures OnText(r, a + "\n" + b) == OnText(OnLine(r, a), b)
  {
    hide OnLine;
    LinesCons(a, b);
    assert ([a] + Lines(b))[1..] == Lines(b);
  }

  /** Rules as add_permit and add_deny make them; a pattern never spans lines. */
  predicate RuleOk(e: Entry) {
    ((e.permit == "") != (e.deny == "")) && '\n' !in e.permit && '\n' !in e.deny
  }

  /** A printed rule without its end of line. */
  function RuleText(e: Entry): string {
    "  " + (if e.permit != "" then "permit" else "deny") + " " + (if e.permit != "" then e.permit else e.deny)
  }

  ghost predicate ListsOk(lists: seq<Acl>) {
    Distinct(lists) &&
    forall k :: 0 <= k < |lists| ==> lists[k].number >= 0 && forall e :: e in lists[k].entries ==> RuleOk(e)
  }

  datatype SeenRule = NoRule | SomeRule(e: Entry)

  /** The rule that a printed rule turns into. */
  function SeenEntry(e: Entry): SeenRule {
    var s := if e.permit != "" then SeenAs("permit", e.permit) else SeenAs("deny", e.deny);
    if s.Refused? then NoRule
    else SomeRule(if e.permit != "" then Entry(s.pattern, "") else Entry("", s.pattern))
  }

  datatype SeenRules = NoRules | SomeRules(es: seq<Entry>)

  function SeenEntries(es: seq<Entry>): SeenRules {
    if es == [] then SomeRules([])
    else if SeenEntry(es[0]).NoRule? || SeenEntries(es[1..]).NoRules? then NoRules
    else SomeRules([SeenEntry(es[0]).e] + SeenEntries(es[1..]).es)
  }

  /** A rule line read inside the list with number n, the last list so far. */
  lemma RuleLine(lists: seq<Acl>, n: int, done: seq<Entry>, up: string, e: Entry)
    requires RuleOk(e) && Atoi(up) == n && forall k :: 0 <= k < |lists| ==> lists[k].number != n
    ensures var r := Reader(lists + [Acl(n, done)], up, true);
            var line := RuleText(e);
            OnLine(r, line) == if SeenEntry(e).NoRule? then Failed
                               else Reader(lists + [Acl(n, done + [SeenEntry(e).e])], up, true)
  {
    hide WordsOf, OnWords, Atoi;
    var kw := if e.permit != "" then "permit" else "deny";
    var p := if e.permit != "" then e.permit else e.deny;
    SeenIff(kw, p);
    RuleWords(lists, n, done, up, kw, WordsOf("  " + kw + " " + p));
  }

  lemma RuleWords(lists: seq<Acl>, n: int, done: seq<Entry>, up: string, kw: string, ws: seq<string>)
    requires ws != [] && ws[0] == kw && kw in {"permit", "deny"}
    requires Atoi(up) == n && forall k :: 0 <= k < |lists| ==> lists[k].number != n
    ensures OnWords(Reader(lists + [Acl(n, done)], up, true), ws) ==
            if |ws| == 2 && StrParam(ws[1]) then
              Reader(lists + [Acl(n, done + [if kw == "permit" then Entry(ws[1], "") else Entry("", ws[1])])], up, true)
            else Failed
  {
    hide WithRule, Atoi;
    if |ws| == 2 && StrParam(ws[1]) {
      LastList(lists, n, done, if kw == "permit" then Entry(ws[1], "") else Entry("", ws[1]));
    }
  }

  lemma LastList(lists: seq<Acl>, n: int, done: seq<Entry>, e: Entry)
    requires e != Entry("", "") && forall k :: 0 <= k < |lists| ==> lists[k].number != n
    ensures WithRule(lists + [Acl(n, done)], n, e) == lists + [Acl(n, done + [e])]
  {
    var l := lists + [Acl(n, done)];
    IndexIs(l, n, |lists|);
    assert l[|lists| := Acl(n, done + [e])] == lists + [Acl(n, done + [e])];
  }

  lemma EntryTextLine(e: Entry)
    requires RuleOk(e)
    ensures EntryText(e) ==
            RuleText(e) + "\n"
  {
    if e.permit != "" {
      assert "  permit " == "  " + "permit" + " ";
    } else {
      assert "  deny " == "  " + "deny" + " ";
    }
  }

  lemma FailedText(text: string)
    ensures OnText(Failed, text) == Failed
  {
    FailedForGood(Lines(text));
  }

  /** The rules of a list, read one by one. */
  lemma {:induction false} RulesRead(lists: seq<Acl>, n: int, done: seq<Entry>, up: string, es: seq<Entry>,
                                     rest: string)
    requires Atoi(up) == n && forall k :: 0 <= k < |lists| ==> lists[k].number != n
    requires forall e :: e in es ==> RuleOk(e)
    ensures OnText(Reader(lists + [Acl(n, done)], up, true), EntriesText(es) + rest) ==
            if SeenEntries(es).NoRules? then Failed
            else OnText(Reader(lists + [Acl(n, done + SeenEntries(es).es)], up, true), rest)
    decreases |es|
  {
    hide OnText, OnLine, EntryText, SeenEntry, Atoi;
    if es == [] {
      assert "" + rest == rest && done + [] == done;
    } else {
      var e, more := es[0], EntriesText(es[1..]) + rest;
      var line := RuleText(e);
      EntryTextLine(e);
      assert EntriesText(es) + rest == line + "\n" + more;
      var r := Reader(lists + [Acl(n, done)], up, true);
      OnTextLine(r, line, more);
      RuleLine(lists, n, done, up, e);
      if SeenEntry(e).NoRule? {
        FailedText(more);
      } else {
        var e' := SeenEntry(e).e;
        RulesRead(lists, n, done + [e'], up, es[1..], rest);
        if SeenEntries(es[1..]).SomeRules? {
          assert (done + [e']) + SeenEntries(es[1..]).es == done + ([e'] + SeenEntries(es[1..]).es);
        }
      }
    }
  }

  lemma DigitsPlain(n: nat)
    ensures Plain(NatToString(n)) && IntParam(NatToString(n)) && '\n' !in NatToString(n)
  {
  }

  lemma OpenWords(p: string)
    requires Plain(p) && |p| <= 200
    ensures WordsOf(" access " + p) == ["access", p]
  {
    hide Words, Plain, Texts;
    var s := " access " + p;
    assert s == " " + "access" + " " + p;
    assert s[1..7] == "access" && s[7] == ' ' && s[8..] == p && s[0] == ' ';
    KeywordFirst(s, 1, "access", 7);
    PlainIffWord(s, 8, p);
    TwoTexts(s, Span(1, 6), Span(8, |p|));
    assert Cut(s) == s && s[8..8 + |p|] == s[8..];
  }

  lemma TwoTexts(s: string, a: Span, b: Span)
    ensures Texts(s, [a] + [b]) == [Word(s, a), Word(s, b)]
  {
  }

  /** The line that opens a list. */
  lemma OpenLine(lists: seq<Acl>, up: string, n: nat)
    requires forall k :: 0 <= k < |lists| ==> lists[k].number != n
    requires |NatToString(n)| <= 200
    ensures OnLine(Reader(lists, up, false), " access " + NatToString(n)) ==
            Reader(lists + [Acl(n, [])], NatToString(n), true)
  {
    hide WordsOf, Plain, NatToString, Atoi;
    DigitsPlain(n);
    OpenWords(NatToString(n));
    AtoiNat(n);
    Missing(lists, n);
  }

  lemma AtoiNat(n: nat)
    ensures Atoi(NatToString(n)) == n
  {
    AtoiToString(n);
  }

  lemma ExitLine(r: Reader)
    requires r.Reader? && r.inside
    ensures OnLine(r, "  exit") == r.(inside := false)
  {
    hide Words;
    var s := "  exit";
    assert s == "  " + "exit" && s[2..6] == "exit" && s[0] == ' ' && s[1] == ' ';
    KeywordFirst(s, 2, "exit", 6);
    TextsCons(s, Span(2, 4), []);
    assert [Span(2, 4)] + [] == [Span(2, 4)];
    assert WordsOf(s) == ["exit"];
  }

  /** Numbers of up to 200 digits: the line is not cut. An int has at most ten. */
  predicate NumberFits(n: int) {
    n >= 0 && |NatToString(n)| <= 200
  }

  lemma AclRead(lists: seq<Acl>, up: string, a: Acl, rest: string)
    requires NumberFits(a.number) && (forall e :: e in a.entries ==> RuleOk(e))
    requires forall k :: 0 <= k < |lists| ==> lists[k].number != a.number
    ensures OnText(Reader(lists, up, false), AclText(a) + "\n" + rest) ==
            if SeenEntries(a.entries).NoRules? then Failed
            else OnText(Reader(lists + [Acl(a.number, SeenEntries(a.entries).es)], ToString(a.number), false), rest)
  {
    hide OnText, OnLine, SeenEntries, EntriesText, Atoi, NatToString, RuleOk;
    var n := ToString(a.number);
    var body := EntriesText(a.entries) + ("  exit" + "\n" + rest);
    AclTextSplit(a, rest, n, body);
    DigitsPlain(a.number);
    AccessNoBreak(n);
    OnTextLine(Reader(lists, up, false), " access " + n, body);
    OpenLine(lists, up, a.number);
    AtoiNat(a.number);
    RulesRead(lists, a.number, [], n, a.entries, "  exit" + "\n" + rest);
    if SeenEntries(a.entries).SomeRules? {
      var es := SeenEntries(a.entries).es;
      assert [] + es == es;
      var r := Reader(lists + [Acl(a.number, es)], n, true);
      OnTextLine(r, "  exit", rest);
      ExitLine(r);
    }
  }

  lemma AclTextSplit(a: Acl, rest: string, n: string, body: string)
    requires n == ToString(a.number) && body == EntriesText(a.entries) + ("  exit" + "\n" + rest)
    ensures AclText(a) + "\n" + rest == " access " + n + "\n" + body
  {
    hide EntriesText, ToString;
  }

  lemma AccessNoBreak(n: string)
    requires '\n' !in n
    ensures '\n' !in " access " + n
  {
    var k := " access ";
    assert '\n' !in k;
  }

  datatype SeenLists = NoLists | SomeLists(lists: seq<Acl>)

  /** The lists that the printed lists turn into. */
  function SeenAcls(lists: seq<Acl>): SeenLists {
    if lists == [] then SomeLists([])
    else if SeenEntries(lists[0].entries).NoRules? || SeenAcls(lists[1..]).NoLists? then NoLists
    else SomeLists([Acl(lists[0].number, SeenEntries(lists[0].entries).es)] + SeenAcls(lists[1..]).lists)
  }

  /** Printed lists from the second on. */
  lemma {:induction false} PiecesRead(done: seq<Acl>, up: string, lists: seq<Acl>, n: nat)
    requires 0 < n <= |lists| && ListsOk(lists) && (forall k :: 0 <= k < |lists| ==> NumberFits(lists[k].number))
    requires |done| == n && forall k :: 0 <= k < n ==> done[k].number == lists[k].number
    ensures var r := OnText(Reader(done, up, false), PiecesFrom(lists, n));
            if SeenAcls(lists[n..]).NoLists? then r == Failed
            else r.Reader? && r.lists == done + SeenAcls(lists[n..]).lists && !r.inside
    decreases |lists| - n
  {
    hide OnText, AclText, SeenEntries, NumberFits, RuleOk;
    if n == |lists| {
      EmptyText(Reader(done, up, false));
      assert lists[n..] == [] && done + [] == done;
    } else {
      var a := lists[n];
      PieceIs(lists, n);
      AclRead(done, up, a, PiecesFrom(lists, n + 1));
      assert lists[n..][0] == a && lists[n..][1..] == lists[n + 1..];
      if SeenEntries(a.entries).SomeRules? {
        var a' := Acl(a.number, SeenEntries(a.entries).es);
        PiecesRead(done + [a'], ToString(a.number), lists, n + 1);
        if SeenAcls(lists[n + 1..]).SomeLists? {
          assert (done + [a']) + SeenAcls(lists[n + 1..]).lists == done + ([a'] + SeenAcls(lists[n + 1..]).lists);
        }
      }
    }
  }

  lemma PieceIs(lists: seq<Acl>, n: nat)
    requires 0 < n < |lists|
    ensures PiecesFrom(lists, n) == AclText(lists[n]) + "\n" + PiecesFrom(lists, n + 1)
  {
    hide AclText;
    assert "" + AclText(lists[n]) == AclText(lists[n]);
  }

  lemma EmptyText(r: Reader)
    requires r.Reader?
    ensures OnText(r, "") == r
  {
    assert Lines("") == [""] && WordsOf("") == [];
    assert OnLines(OnLine(r, ""), [""][1..]) == r;
  }

  lemma HeadingRead(r: Reader, rest: string)
    requires r.Reader?
    ensures OnText(r, Header() + rest) == OnText(r, rest)
  {
    hide OnText;
    var h := " ! " + DESCR;
    assert Header() + rest == "" + "\n" + (h + "\n" + rest);
    OnTextLine(r, "", h + "\n" + rest);
    assert WordsOf("") == [];
    assert '\n' !in h;
    OnTextLine(r, h, rest);
    assert h[0] == ' ' && h[1] == '!';
    assert Words(h, 1) == [] && Words(h, 0) == [];
    assert WordsOf(h) == [];
  }

  lemma PrintedIs(lists: seq<Acl>)
    ensures Printed(lists) == if lists == [] then Header() + "\n"
                              else Header() + (AclText(lists[0]) + "\n" + PiecesFrom(lists, 1))
  {
    hide Header, AclText;
    if lists == [] {
      assert PiecesFrom(lists, 1) == "";
      assert Header() + "" + "\n" + "" == Header() + "\n";
    } else {
      assert Header() + AclText(lists[0]) + "\n" + PiecesFrom(lists, 1) ==
        Header() + (AclText(lists[0]) + "\n" + PiecesFrom(lists, 1));
    }
  }

  lemma EmptyLineRead(r: Reader)
    requires r.Reader?
    ensures OnText(r, "\n") == r
  {
    assert "\n" == "" + "\n" + "";
    OnTextLine(r, "", "");
    assert WordsOf("") == [];
    EmptyText(r);
  }

  /** Printing the section and reading it into an empty configuration yields the lists as the splitter sees them. */
  lemma ReplayIs(lists: seq<Acl>)
    requires ListsOk(lists) && forall k :: 0 <= k < |lists| ==> NumberFits(lists[k].number)
    ensures var r := OnText(Reader([], "", false), Printed(lists));
            if SeenAcls(lists).NoLists? then r == Failed
            else r.Reader? && r.lists == SeenAcls(lists).lists && !r.inside
  {
    hide OnText, AclText, SeenEntries, NumberFits, RuleOk, Header, Printed, PiecesFrom;
    var r0 := Reader([], "", false);
    PrintedIs(lists);
    if lists == [] {
      HeadingRead(r0, "\n");
      EmptyLineRead(r0);
    } else {
      var a, rest := lists[0], PiecesFrom(lists, 1);
      HeadingRead(r0, AclText(a) + "\n" + rest);
      AclRead([], "", a, rest);
      if SeenEntries(a.entries).SomeRules? {
        var a' := Acl(a.number, SeenEntries(a.entries).es);
        assert [] + [a'] == [a'];
        PiecesRead([a'], ToString(a.number), lists, 1);
      }
    }
  }

  // ----- when nothing changes

  ghost predicate RulesSurvive(es: seq<Entry>) {
    forall e :: e in es ==> Survives(if e.permit != "" then e.permit else e.deny)
  }

  ghost predicate AllSurvive(lists: seq<Acl>) {
    forall k :: 0 <= k < |lists| ==> RulesSurvive(lists[k].entries)
  }

  lemma SeenEntryIff(e: Entry)
    requires RuleOk(e)
    ensures SeenEntry(e) == SomeRule(e) <==> Survives(if e.permit != "" then e.permit else e.deny)
  {
    hide SeenAs, Survives;
    SeenIff("permit", e.permit);
    SeenIff("deny", e.deny);
  }

  lemma {:induction false} SeenEntriesIff(es: seq<Entry>)
    requires forall e :: e in es ==> RuleOk(e)
    ensures SeenEntries(es) == SomeRules(es) <==> RulesSurvive(es)
    decreases |es|
  {
    hide SeenEntry, Survives, RuleOk;
    if es != [] {
      SeenEntryIff(es[0]);
      SeenEntriesIff(es[1..]);
      assert es == [es[0]] + es[1..];
    }
  }

  lemma {:induction false} SeenAclsIff(lists: seq<Acl>)
    requires forall k :: 0 <= k < |lists| ==> forall e :: e in lists[k].entries ==> RuleOk(e)
    ensures SeenAcls(lists) == SomeLists(lists) <==> AllSurvive(lists)
    decreases |lists|
  {
    hide SeenEntries, RulesSurvive, RuleOk;
    if lists != [] {
      var a, rest := lists[0], lists[1..];
      SeenEntriesIff(a.entries);
      SeenAclsIff(rest);
      assert lists == [a] + rest;
      assert forall k :: 0 <= k < |rest| ==> rest[k] == lists[k + 1];
    }
  }

  /** The central law of the configuration file: all lists come back, in order, exactly if every pattern has 2 to 255
      characters and is one plain word. */
  lemma RoundTripIff(lists: seq<Acl>)
    requires ListsOk(lists) && forall k :: 0 <= k < |lists| ==> NumberFits(lists[k].number)
    ensures var r := OnText(Reader([], "", false), Printed(lists));
            (r.Reader? && r.lists == lists) <==> AllSurvive(lists)
  {
    hide OnText, Printed, SeenAcls, AllSurvive, RuleOk, NumberFits;
    ReplayIs(lists);
    SeenAclsIff(lists);
  }
}
