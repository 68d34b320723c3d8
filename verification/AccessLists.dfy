/** Access lists: numbered lists of permit and deny patterns, edited in place and printed as configuration. */
module AccessLists {
  import opened Text

  /** A rule; each holds a permit or a deny pattern. */
  datatype Entry = Entry(permit: string, deny: string)
  datatype Acl = Acl(number: int, entries: seq<Entry>)

  /** What regcomp and regexec decide for a pattern and a subject. */
  type Regex = (string, string) -> bool

  predicate Permits(m: Regex, e: Entry, s: string) {
    e.permit != "" && m(e.permit, s)
  }

  predicate Denies(m: Regex, e: Entry, s: string) {
    e.deny != "" && m(e.deny, s)
  }

  /** The printed form of a rule: two blanks, the keyword, the pattern. */
  function EntryText(e: Entry): string {
    (if e.permit != "" then "  permit " + e.permit + "\n" else "") +
    (if e.deny != "" then "  deny " + e.deny + "\n" else "")
  }

  function EntriesText(es: seq<Entry>): string {
    if es == [] then "" else EntryText(es[0]) + EntriesText(es[1..])
  }

  function AclText(a: Acl): string {
    " access " + ToString(a.number) + "\n" + EntriesText(a.entries) + "  exit"
  }

  lemma EntriesTextSnoc(es: seq<Entry>, e: Entry)
    ensures EntriesText(es + [e]) == EntriesText(es) + EntryText(e)
  {
    hide EntryText;
    if es == [] {
      assert es + [e] == [e] && EntriesText([e]) == EntryText(e) + EntriesText([e][1..]);
    } else {
      assert (es + [e])[1..] == es[1..] + [e];
      EntriesTextSnoc(es[1..], e);
    }
  }

  // ----- the operations on lists

  /** The first list with a number. */
  function IndexOf(lists: seq<Acl>, n: int): (i: int)
    ensures i == -1 ==> forall k :: 0 <= k < |lists| ==> lists[k].number != n
    ensures i != -1 ==> 0 <= i < |lists| && lists[i].number == n && forall k :: 0 <= k < i ==> lists[k].number != n
  {
    if lists == [] then -1
    else if lists[0].number == n then 0
    else if IndexOf(lists[1..], n) == -1 then -1 else 1 + IndexOf(lists[1..], n)
  }

  lemma IndexIs(lists: seq<Acl>, n: int, i: nat)
    requires i < |lists| && lists[i].number == n && forall k :: 0 <= k < i ==> lists[k].number != n
    ensures IndexOf(lists, n) == i
  {
  }

  function WithList(lists: seq<Acl>, n: int): seq<Acl> {
    if IndexOf(lists, n) == -1 then lists + [Acl(n, [])] else lists
  }

  /** add_permit and add_deny: the list is created if need be; an empty pattern adds no rule. */
  function WithRule(lists: seq<Acl>, n: int, e: Entry): seq<Acl> {
    var l := WithList(lists, n);
    WithListHas(lists, n);
    var i := IndexOf(l, n);
    if e == Entry("", "") then l else l[i := l[i].(entries := l[i].entries + [e])]
  }

  lemma WithListHas(lists: seq<Acl>, n: int)
    ensures IndexOf(WithList(lists, n), n) != -1
  {
    if IndexOf(lists, n) == -1 { assert WithList(lists, n)[|lists|].number == n; }
  }

  function WithoutList(lists: seq<Acl>, n: int): seq<Acl> {
    if lists == [] then []
    else (if lists[0].number == n then [] else [lists[0]]) + WithoutList(lists[1..], n)
  }

  /** The comparison of del_permit and del_deny; an empty pattern names no rule. */
  predicate Same(e: Entry, r: Entry) {
    (r.permit != "" && e.permit == r.permit) || (r.deny != "" && e.deny == r.deny)
  }

  /** del_permit and del_deny remove the first such rule. */
  function DropFirst(es: seq<Entry>, r: Entry): seq<Entry> {
    if es == [] then [] else if Same(es[0], r) then es[1..] else [es[0]] + DropFirst(es[1..], r)
  }

  /** The entries a removal names: those with its permit pattern or its deny pattern, where that is not empty. */
  ghost predicate Named(e: Entry, r: Entry) {
    e.permit == r.permit != "" || e.deny == r.deny != ""
  }

  /** now is was without the i-th entry, the first one the removal names. */
  ghost predicate RemovedAt(was: seq<Entry>, r: Entry, now: seq<Entry>, i: nat) {
    i < |was| && Named(was[i], r) && (forall j :: 0 <= j < i ==> !Named(was[j], r)) &&
    now == was[..i] + was[i + 1..]
  }

  /** A removal takes away the first entry it names and nothing else; it changes nothing when it names none. */
  ghost predicate FirstGone(was: seq<Entry>, r: Entry, now: seq<Entry>) {
    if exists i :: 0 <= i < |was| && Named(was[i], r) then exists i: nat :: RemovedAt(was, r, now, i) else now == was
  }

  lemma {:induction false} DropAt(es: seq<Entry>, r: Entry, i: nat)
    requires i < |es| && Same(es[i], r) && forall j :: 0 <= j < i ==> !Same(es[j], r)
    ensures DropFirst(es, r) == es[..i] + es[i + 1..]
  {
    if i > 0 { DropAt(es[1..], r, i - 1); }
  }

  lemma {:induction false} DropNone(es: seq<Entry>, r: Entry)
    requires forall j :: 0 <= j < |es| ==> !Same(es[j], r)
    ensures DropFirst(es, r) == es
  {
    if es != [] { DropNone(es[1..], r); }
  }

  lemma DropIs(es: seq<Entry>, r: Entry)
    ensures FirstGone(es, r, DropFirst(es, r))
  {
    hide DropFirst;
    var i := 0;
    while i < |es| && !Same(es[i], r)
      invariant i <= |es| && forall j :: 0 <= j < i ==> !Same(es[j], r)
    {
      i := i + 1;
    }
    if i < |es| {
      DropAt(es, r, i);
      assert RemovedAt(es, r, DropFirst(es, r), i);
    } else {
      DropNone(es, r);
    }
  }

  /** The numbers are told apart; add, add_permit and add_deny keep it so. */
  ghost predicate Distinct(lists: seq<Acl>) {
    forall j, k :: 0 <= j < k < |lists| ==> lists[j].number != lists[k].number
  }

  lemma WithRuleDistinct(lists: seq<Acl>, n: int, e: Entry)
    requires Distinct(lists)
    ensures Distinct(WithList(lists, n)) && Distinct(WithRule(lists, n, e))
  {
    hide IndexOf;
    var l, r := WithList(lists, n), WithRule(lists, n, e);
    WithListHas(lists, n);
    assert Distinct(l);
    assert |r| == |l| && forall k :: 0 <= k < |l| ==> r[k].number == l[k].number;
  }

  lemma WithoutListMembers(lists: seq<Acl>, n: int)
    ensures forall a :: a in WithoutList(lists, n) <==> a in lists && a.number != n
  {
  }

  lemma WithoutListDistinct(lists: seq<Acl>, n: int)
    requires Distinct(lists)
    ensures Distinct(WithoutList(lists, n))
  {
    if lists != [] {
      var rest := WithoutList(lists[1..], n);
      WithoutListDistinct(lists[1..], n);
      WithoutListMembers(lists[1..], n);
      forall k | 0 <= k < |rest| ensures rest[k].number != lists[0].number { assert rest[k] in lists[1..]; }
    }
  }

  // ----- checking

  /** A list accepts a subject: some rule permits it and neither that rule nor an earlier one denies it. */
  ghost predicate Accepts(m: Regex, es: seq<Entry>, s: string) {
    exists i :: 0 <= i < |es| && Permits(m, es[i], s) && forall j :: 0 <= j <= i ==> !Denies(m, es[j], s)
  }

  class AclData {
    const number: int
    var acl: seq<Entry>

    constructor (n: int)
      ensures number == n && acl == []
    {
      number, acl := n, [];
    }

    function View(): Acl
      reads this
    {
      Acl(number, acl)
    }

    method Check(m: Regex, s: string) returns (r: bool)
      ensures r <==> Accepts(m, acl, s)
    {
      var i := 0;
      while i < |acl|
        invariant i <= |acl|
        invariant forall j :: 0 <= j < i ==> !Denies(m, acl[j], s) && !Permits(m, acl[j], s)
      {
        if Denies(m, acl[i], s) { return false; }
        if Permits(m, acl[i], s) { return true; }
        i := i + 1;
      }
      return false;
    }

    method BuildCfStr() returns (str: string)
      ensures str == AclText(View())
    {
      hide EntryText;
      var rules := "";
      var i := 0;
      while i < |acl|
        invariant i <= |acl| && rules == EntriesText(acl[..i])
      {
        var t := "";
        if |acl[i].permit| > 0 { t := t + ("  permit " + acl[i].permit + "\n"); }
        if |acl[i].deny| > 0 { t := t + ("  deny " + acl[i].deny + "\n"); }
        assert t == EntryText(acl[i]) by { EntryTextIs(acl[i]); }
        EntriesTextSnoc(acl[..i], acl[i]);
        assert acl[..i + 1] == acl[..i] + [acl[i]];
        rules := rules + t;
        i := i + 1;
      }
      assert acl[..i] == acl;
      str := " access " + ToString(number) + "\n" + rules + "  exit";
    }

    method AddRule(e: Entry) returns (r: bool)
      modifies this
      ensures r == (e != Entry("", ""))
      ensures acl == if r then old(acl) + [e] else old(acl)
    {
      r := e != Entry("", "");
      if r { acl := acl + [e]; }
    }

    /** del_permit and del_deny. */
    method DelRule(e: Entry) returns (r: bool)
      modifies this
      ensures acl == DropFirst(old(acl), e) && FirstGone(old(acl), e, acl)
      ensures r <==> exists i :: 0 <= i < |old(acl)| && Named(old(acl)[i], e)
    {
      hide FirstGone, DropFirst;
      DropIs(acl, e);
      var i := 0;
      while i < |acl|
        invariant i <= |acl| && acl == old(acl)
        invariant forall j :: 0 <= j < i ==> !Same(acl[j], e)
      {
        if Same(acl[i], e) {
          DropAt(acl, e, i);
          acl := acl[..i] + acl[i + 1..];
          return true;
        }
        i := i + 1;
      }
      DropNone(acl, e);
      return false;
    }
  }

  lemma EntryTextIs(e: Entry)
    ensures EntryText(e) ==
            ("" + if |e.permit| > 0 then "  permit " + e.permit + "\n" else "") +
            if |e.deny| > 0 then "  deny " + e.deny + "\n" else ""
  {
  }

  function Views(acl: seq<AclData>): (v: seq<Acl>)
    reads acl
    ensures |v| == |acl| && forall i :: 0 <= i < |acl| ==> v[i] == acl[i].View()
  {
    if acl == [] then [] else [acl[0].View()] + Views(acl[1..])
  }

  const DESCR := "access list"

  function Header(): string {
    "\n ! " + DESCR + "\n"
  }

  /** One piece of the printed configuration; the first carries the heading. */
  function Piece(lists: seq<Acl>, n: nat): string {
    (if n == 0 then Header() else "") + (if n < |lists| then AclText(lists[n]) else "") + "\n"
  }

  function PiecesFrom(lists: seq<Acl>, n: nat): string
    decreases |lists| - n
  {
    if n > 0 && n >= |lists| then "" else Piece(lists, n) + PiecesFrom(lists, n + 1)
  }

  /** The whole section. */
  function Printed(lists: seq<Acl>): string {
    PiecesFrom(lists, 0)
  }

  datatype Cmd =
    | ConfAccessNo
    | ConfAccessNode
    | ConfAccessIntNoDeny
    | ConfAccessIntNoPermit
    | ConfAccessDeny
    | ConfAccessPermit

  /** applycf on the lists: param is the command's parameter, up that of the enclosing access command. */
  function Applied(lists: seq<Acl>, cmd: Cmd, param: string, up: string): seq<Acl> {
    match cmd
    case ConfAccessNo => WithoutList(lists, Atoi(param))
    case ConfAccessNode => WithList(lists, Atoi(param))
    case ConfAccessPermit => WithRule(lists, Atoi(up), Entry(param, ""))
    case ConfAccessDeny => WithRule(lists, Atoi(up), Entry("", param))
    case ConfAccessIntNoPermit => RuleDropped(lists, Atoi(up), Entry(param, ""))
    case ConfAccessIntNoDeny => RuleDropped(lists, Atoi(up), Entry("", param))
  }

  /** Only a removal is refused, when its list does not exist. */
  predicate Refused(lists: seq<Acl>, cmd: Cmd, param: string, up: string) {
    match cmd
    case ConfAccessNo => IndexOf(lists, Atoi(param)) == -1
    case ConfAccessIntNoPermit => IndexOf(lists, Atoi(up)) == -1
    case ConfAccessIntNoDeny => IndexOf(lists, Atoi(up)) == -1
    case _ => false
  }

  function RuleDropped(lists: seq<Acl>, n: int, e: Entry): seq<Acl> {
    var i := IndexOf(lists, n);
    if i == -1 then lists else lists[i := lists[i].(entries := DropFirst(lists[i].entries, e))]
  }

  /** Of all lists only the first one with the number can change, and it loses at most that rule. */
  ghost predicate RuleGone(was: seq<Acl>, n: int, e: Entry, now: seq<Acl>) {
    |now| == |was| && forall k :: 0 <= k < |was| ==>
      if was[k].number == n && forall j :: 0 <= j < k ==> was[j].number != n then
        now[k].number == n && FirstGone(was[k].entries, e, now[k].entries)
      else now[k] == was[k]
  }

  lemma RuleDroppedIs(lists: seq<Acl>, n: int, e: Entry)
    ensures RuleGone(lists, n, e, RuleDropped(lists, n, e))
  {
    hide FirstGone, DropFirst, IndexOf;
    var i := IndexOf(lists, n);
    if i != -1 { DropIs(lists[i].entries, e); }
  }

  class CoreAccess {
    var acl: seq<AclData>

    ghost predicate Valid()
      reads this
    {
      forall j, k :: 0 <= j < k < |acl| ==> acl[j] != acl[k]
    }

    function View(): seq<Acl>
      reads this, acl
    {
      Views(acl)
    }

    constructor ()
      ensures Valid() && View() == [] && acl == []
    {
      acl := [];
    }

    /** The scan every operation starts with. */
    method Seek(n: int) returns (i: nat)
      ensures i == (if IndexOf(View(), n) == -1 then |acl| else IndexOf(View(), n))
    {
      i := 0;
      while i < |acl| && acl[i].number != n
        invariant i <= |acl| && forall k :: 0 <= k < i ==> View()[k].number != n
      {
        i := i + 1;
      }
      if i < |acl| { IndexIs(View(), n, i); }
    }

    /** check: some list of that number accepts the subject; an unknown number accepts nothing. */
    method Check(m: Regex, n: int, s: string) returns (res: bool)
      ensures res <==> exists k :: 0 <= k < |acl| && acl[k].number == n && Accepts(m, acl[k].acl, s)
    {
      hide Accepts;
      res := false;
      var i := 0;
      while i < |acl|
        invariant i <= |acl| && !res
        invariant forall k :: 0 <= k < i ==> acl[k].number != n || !Accepts(m, acl[k].acl, s)
      {
        if acl[i].number == n {
          res := acl[i].Check(m, s);
          if res { return; }
        }
        i := i + 1;
      }
    }

    method Append(x: AclData)
      requires Valid() && x !in acl
      modifies this
      ensures Valid() && acl == old(acl) + [x] && View() == old(View()) + [x.View()]
    {
      acl := acl + [x];
      assert Views(acl) == old(Views(acl)) + [x.View()];
    }

    method Add(n: int)
      requires Valid()
      modifies this
      ensures Valid() && View() == WithList(old(View()), n)
      ensures forall a :: a in acl ==> a in old(acl) || fresh(a)
    {
      var i := Seek(n);
      if i < |acl| { return; }
      var x := new AclData(n);
      Append(x);
    }

    method RuleAt(i: nat, e: Entry)
      requires Valid() && i < |acl|
      modifies acl
      ensures Valid() && acl == old(acl)
      ensures var v := old(View());
              View() == v[i := if e == Entry("", "") then v[i] else v[i].(entries := v[i].entries + [e])]
    {
      hide Views;
      ghost var v := View();
      var ok := acl[i].AddRule(e);
      forall k | 0 <= k < |acl| && k != i ensures View()[k] == v[k] { assert acl[k] != acl[i]; }
    }

    /** add_permit and add_deny. */
    method AddRule(n: int, e: Entry) returns (r: bool)
      requires Valid()
      modifies this, acl
      ensures Valid() && r && View() == WithRule(old(View()), n, e)
      ensures forall a :: a in acl ==> a in old(acl) || fresh(a)
    {
      hide IndexOf, WithRule, Views;
      ghost var before := View();
      var i := Seek(n);
      if i < |acl| {
        RuleAt(i, e);
        OldRule(before, n, e, i);
        return true;
      }
      var x := new AclData(n);
      var ok := x.AddRule(e);
      assert x.acl == if ok then [e] else [];
      assert View() == before;
      Append(x);
      NewRule(before, n, e);
      return true;
    }

    /** list::erase. */
    method Erase(i: nat)
      requires Valid() && i < |acl|
      modifies this
      ensures Valid() && acl == old(acl)[..i] + old(acl)[i + 1..]
      ensures View() == old(View())[..i] + old(View())[i + 1..]
      ensures forall a :: a in acl ==> a in old(acl)
    {
      ghost var v := View();
      acl := acl[..i] + acl[i + 1..];
      assert View() == v[..i] + v[i + 1..];
    }

    /** del. */
    method Del(n: int) returns (res: bool)
      requires Valid()
      modifies this
      ensures Valid() && View() == WithoutList(old(View()), n)
      ensures res <==> IndexOf(old(View()), n) != -1
      ensures forall a :: a in acl ==> a in old(acl)
    {
      hide WithoutList, IndexOf, Views;
      ghost var before := View();
      res := false;
      var i := 0;
      while i < |acl|
        invariant i <= |acl| && Valid() && forall a :: a in acl ==> a in old(acl)
        invariant forall k :: 0 <= k < i ==> acl[k].number != n
        invariant WithoutList(View(), n) == WithoutList(before, n)
        invariant !res ==> acl == old(acl)
        invariant res ==> IndexOf(before, n) != -1
        decreases |acl| - i
      {
        if acl[i].number == n {
          ghost var v := View();
          if !res { NotMissing(before, i, n); }
          RemoveSame(v, i, n);
          Erase(i);
          res := true;
        } else {
          i := i + 1;
        }
      }
      WithoutNone(View(), n);
      if !res { Missing(before, n); }
    }

    /** del_permit and del_deny: true if the list exists, whether or not the rule does. */
    method DelRule(n: int, e: Entry) returns (res: bool)
      requires Valid()
      modifies acl
      ensures Valid() && acl == old(acl) && View() == RuleDropped(old(View()), n, e)
      ensures RuleGone(old(View()), n, e, View())
      ensures res <==> exists k :: 0 <= k < |acl| && acl[k].number == n
    {
      hide IndexOf, DropFirst, FirstGone, RuleGone;
      RuleDroppedIs(View(), n, e);
      ghost var before := View();
      var i := Seek(n);
      if i == |acl| { return false; }
      var ok := acl[i].DelRule(e);
      assert View() == before[i := before[i].(entries := DropFirst(before[i].entries, e))];
      return true;
    }

    method BuildCfStr(n: nat) returns (str: string)
      ensures str == if n < |acl| then AclText(View()[n]) else ""
    {
      str := "";
      if |acl| > 0 && |acl| > n {
        var i := 0;
        while i < |acl| && i <= n
          invariant i <= |acl| && i <= n + 1
          invariant str == if i == n + 1 then AclText(View()[n]) else ""
        {
          if i == n { str := acl[i].BuildCfStr(); }
          i := i + 1;
        }
      }
    }

    /** Core_data::buildcf(n, descr). */
    method BuildPiece(n: nat) returns (str: string)
      ensures str == Piece(View(), n)
    {
      hide AclText;
      str := "";
      if n == 0 { str := str + "\n ! " + DESCR + "\n"; }
      var s := BuildCfStr(n);
      str := str + s + "\n";
    }

    /** Core_data::buildcf: pieces are collected until one has at most 5 characters. */
    method BuildCf() returns (out: string)
      ensures out == Printed(View())
    {
      hide Piece;
      out := "";
      var i := 0;
      var stmp := BuildPiece(0);
      PieceSize(View(), 0);
      assert "" + PiecesFrom(View(), 0) == Printed(View());
      while |stmp| > 5
        invariant i <= |acl| + 1 && stmp == Piece(View(), i)
        invariant out + PiecesFrom(View(), i) == Printed(View())
        decreases |acl| + 2 - i
      {
        PieceSize(View(), i);
        assert out + (Piece(View(), i) + PiecesFrom(View(), i + 1)) == out + stmp + PiecesFrom(View(), i + 1);
        out := out + stmp;
        i := i + 1;
        stmp := BuildPiece(i);
      }
      PieceSize(View(), i);
      assert out + "" == out;
    }

    method ApplyCf(cmd: Cmd, param: string, up: string) returns (error: bool)
      requires Valid()
      modifies this, acl
      ensures Valid() && View() == Applied(old(View()), cmd, param, up)
      ensures error <==> Refused(old(View()), cmd, param, up)
      ensures forall a :: a in acl ==> a in old(acl) || fresh(a)
    {
      hide WithList, WithRule, WithoutList, RuleDropped, Atoi, IndexOf;
      error := false;
      match cmd {
        case ConfAccessNo => var ok := Del(Atoi(param)); error := !ok;
        case ConfAccessNode => Add(Atoi(param));
        case ConfAccessIntNoDeny => var ok := DelRule(Atoi(up), Entry("", param)); error := !ok;
        case ConfAccessIntNoPermit => var ok := DelRule(Atoi(up), Entry(param, "")); error := !ok;
        case ConfAccessDeny => var ok := AddRule(Atoi(up), Entry("", param)); error := !ok;
        case ConfAccessPermit => var ok := AddRule(Atoi(up), Entry(param, "")); error := !ok;
      }
    }
  }

  lemma OldRule(lists: seq<Acl>, n: int, e: Entry, i: nat)
    requires IndexOf(lists, n) == i && i < |lists|
    ensures WithRule(lists, n, e) ==
            lists[i := if e == Entry("", "") then lists[i] else lists[i].(entries := lists[i].entries + [e])]
  {
  }

  lemma NewRule(lists: seq<Acl>, n: int, e: Entry)
    requires IndexOf(lists, n) == -1
    ensures WithRule(lists, n, e) == lists + [Acl(n, if e == Entry("", "") then [] else [e])]
  {
    var l := lists + [Acl(n, [])];
    IndexIs(l, n, |lists|);
    assert [] + [e] == [e];
  }

  lemma NotMissing(lists: seq<Acl>, i: nat, n: int)
    requires i < |lists| && lists[i].number == n
    ensures IndexOf(lists, n) != -1
  {
  }

  lemma Missing(lists: seq<Acl>, n: int)
    requires forall k :: 0 <= k < |lists| ==> lists[k].number != n
    ensures IndexOf(lists, n) == -1
  {
  }

  lemma RemoveSame(lists: seq<Acl>, i: nat, n: int)
    requires i < |lists| && lists[i].number == n
    ensures WithoutList(lists[..i] + lists[i + 1..], n) == WithoutList(lists, n)
  {
    if i == 0 {
      assert lists[..i] + lists[i + 1..] == lists[1..];
    } else {
      assert (lists[..i] + lists[i + 1..])[1..] == lists[1..][..i - 1] + lists[1..][i..];
      RemoveSame(lists[1..], i - 1, n);
    }
  }

  lemma WithoutNone(lists: seq<Acl>, n: int)
    requires forall k :: 0 <= k < |lists| ==> lists[k].number != n
    ensures WithoutList(lists, n) == lists
  {
    if lists != [] { WithoutNone(lists[1..], n); }
  }

  /** Exactly the pieces that print something, and the heading, are longer than five characters. */
  lemma PieceSize(lists: seq<Acl>, n: nat)
    ensures |Piece(lists, n)| > 5 <==> n == 0 || n < |lists|
  {
    hide EntriesText, ToString;
  }

  // ----- what one command undoes

  lemma RuleUndone(lists: seq<Acl>, n: int, e: Entry, k: nat)
    requires k < |lists| && lists[k].number == n && forall j :: 0 <= j < k ==> lists[j].number != n
    requires Named(e, e) && forall x :: x in lists[k].entries ==> !Named(x, e)
    ensures RuleDropped(WithRule(lists, n, e), n, e) == lists
  {
    hide DropFirst;
    var es, r := lists[k].entries, WithRule(lists, n, e);
    IndexIs(lists, n, k);
    OldRule(lists, n, e, k);
    IndexIs(r, n, k);
    forall j | 0 <= j < |es| ensures !Same((es + [e])[j], e) { assert es[j] in es; }
    DropAt(es + [e], e, |es|);
    assert (es + [e])[..|es|] + (es + [e])[|es| + 1..] == es;
  }

  /** "no permit" and "no deny" take back the rule just made with the pattern, if the list had no such rule before. */
  lemma RuleCommandUndone(lists: seq<Acl>, param: string, up: string, k: nat)
    requires k < |lists| && lists[k].number == Atoi(up) && forall j :: 0 <= j < k ==> lists[j].number != Atoi(up)
    requires param != ""
    ensures (forall x :: x in lists[k].entries ==> x.permit != param) ==>
              Applied(Applied(lists, ConfAccessPermit, param, up), ConfAccessIntNoPermit, param, up) == lists
    ensures (forall x :: x in lists[k].entries ==> x.deny != param) ==>
              Applied(Applied(lists, ConfAccessDeny, param, up), ConfAccessIntNoDeny, param, up) == lists
  {
    hide WithRule, RuleDropped, Atoi;
    if forall x :: x in lists[k].entries ==> x.permit != param {
      RuleUndone(lists, Atoi(up), Entry(param, ""), k);
    }
    if forall x :: x in lists[k].entries ==> x.deny != param {
      RuleUndone(lists, Atoi(up), Entry("", param), k);
    }
  }

  /** "no access" takes back the list just made, if there was none of that number before. */
  lemma ListCommandUndone(lists: seq<Acl>, param: string, up: string)
    requires forall k :: 0 <= k < |lists| ==> lists[k].number != Atoi(param)
    ensures Applied(Applied(lists, ConfAccessNode, param, up), ConfAccessNo, param, up) == lists
  {
    hide Atoi;
    var n := Atoi(param);
    var l := lists + [Acl(n, [])];
    Missing(lists, n);
    RemoveSame(l, |lists|, n);
    assert l[..|lists|] + l[|lists| + 1..] == lists;
    WithoutNone(lists, n);
  }
}
