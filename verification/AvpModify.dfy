/** Rewriting the computed attribute-value pairs of a user: the scan that restarts after every change. */
module AvpModify {

  /** An attribute-value pair as text, such as "addr=INT:addrpool=1". */
  type Avp = string

  function EqualsAt(s: string): (k: nat)
    ensures k <= |s| && (k < |s| ==> s[k] == '=') && forall i :: 0 <= i < k ==> s[i] != '='
  {
    if s == [] || s[0] == '=' then 0 else 1 + EqualsAt(s[1..])
  }

  /** getAvpName: the text before the first '=', or nothing. */
  function Name(s: Avp): string {
    if EqualsAt(s) < |s| then s[..EqualsAt(s)] else ""
  }

  /** getAvpValue: the text after the first '=', or nothing. */
  function Value(s: Avp): string {
    if EqualsAt(s) < |s| then s[EqualsAt(s) + 1..] else ""
  }

  /** Whether the value names an internal function, a query or an external program. */
  predicate Needs(s: Avp) {
    var v := Value(s);
    |v| >= 4 && (v[..4] == "INT:" || v[..4] == "SQL:" || v[..4] == "EXT:")
  }

  /** The answers of the modifiers, numbered by call. */
  type Answers = (nat, Avp) -> string

  function Rewritten(ans: Answers, n: nat, s: Avp): Avp {
    Name(s) + "=" + ans(n, s)
  }

  /** No answer is itself a call: each step resolves its pair. */
  ghost predicate Resolves(ans: Answers) {
    forall n, s :: Needs(s) ==> !Needs(Rewritten(ans, n, s))
  }

  lemma RewrittenIs(ans: Answers, n: nat, s: Avp)
    ensures Value(Rewritten(ans, n, s)) == ans(n, s) && Name(Rewritten(ans, n, s)) == Name(s)
  {
    var t, k := Rewritten(ans, n, s), |Name(s)|;
    assert forall i :: 0 <= i < k ==> t[i] == Name(s)[i];
    assert t[k] == '=' && EqualsAt(t) == k;
    assert t[..k] == Name(s) && t[k + 1..] == ans(n, s);
  }

  function Hits(l: seq<Avp>): nat {
    if l == [] then 0 else Hits(l[1..]) + if Needs(l[0]) then 1 else 0
  }

  function Keep(l: seq<Avp>): seq<Avp> {
    if l == [] then [] else (if Needs(l[0]) then [] else [l[0]]) + Keep(l[1..])
  }

  /** The computed pairs of a list, rewritten in order from call number n on. */
  function Fix(ans: Answers, n: nat, l: seq<Avp>): seq<Avp>
    decreases l
  {
    if l == [] then []
    else if Needs(l[0]) then [Rewritten(ans, n, l[0])] + Fix(ans, n + 1, l[1..])
    else Fix(ans, n, l[1..])
  }

  /** A computed head goes to the end, and its successor becomes a head that is never looked at. */
  function Base(ans: Answers, l: seq<Avp>): seq<Avp> {
    if l != [] && Needs(l[0]) then l[1..] + [Rewritten(ans, 0, l[0])] else l
  }

  /** Past the head, the plain pairs keep their order and the computed ones follow, rewritten in order. */
  function Settled(ans: Answers, n: nat, b: seq<Avp>): seq<Avp> {
    if b == [] then [] else [b[0]] + Keep(b[1..]) + Fix(ans, n, b[1..])
  }

  /** What the scan makes of a list. */
  function Outcome(ans: Answers, l: seq<Avp>): seq<Avp> {
    Settled(ans, if l != [] && Needs(l[0]) then 1 else 0, Base(ans, l))
  }

  lemma {:induction false} KeepFix(ans: Answers, n: nat, p: seq<Avp>, q: seq<Avp>)
    requires forall i :: 0 <= i < |p| ==> !Needs(p[i])
    ensures Keep(p + q) == p + Keep(q) && Fix(ans, n, p + q) == Fix(ans, n, q) && Hits(p + q) == Hits(q)
  {
    hide Needs, Rewritten;
    if p == [] {
      assert p + q == q;
    } else {
      assert (p + q)[1..] == p[1..] + q;
      KeepFix(ans, n, p[1..], q);
    }
  }

  lemma {:induction false} PlainLast(ans: Answers, n: nat, p: seq<Avp>, f: Avp)
    requires !Needs(f)
    ensures Keep(p + [f]) == Keep(p) + [f] && Fix(ans, n, p + [f]) == Fix(ans, n, p) && Hits(p + [f]) == Hits(p)
    decreases p
  {
    hide Needs, Rewritten;
    if p == [] {
      assert p + [f] == [f] && [f][1..] == [];
    } else {
      assert (p + [f])[1..] == p[1..] + [f];
      PlainLast(ans, if Needs(p[0]) then n + 1 else n, p[1..], f);
    }
  }

  lemma StepTail(ans: Answers, n: nat, p: seq<Avp>, x: Avp, q: seq<Avp>)
    requires Resolves(ans) && Needs(x) && forall k :: 0 <= k < |p| ==> !Needs(p[k])
    ensures var was, now := p + ([x] + q), p + (q + [Rewritten(ans, n, x)]);
            Keep(now) + Fix(ans, n + 1, now) == Keep(was) + Fix(ans, n, was) && Hits(now) == Hits(was) - 1
  {
    hide Needs, Rewritten;
    var f := Rewritten(ans, n, x);
    KeepFix(ans, n, p, [x] + q);
    KeepFix(ans, n + 1, p, q + [f]);
    PlainLast(ans, n + 1, q, f);
    assert ([x] + q)[1..] == q;
    Shift(p, Keep(q), f, Fix(ans, n + 1, q));
  }

  lemma Shift(p: seq<Avp>, k: seq<Avp>, f: Avp, r: seq<Avp>)
    ensures p + (k + [f]) + r == p + k + ([f] + r)
  {
  }

  /** One change past the head leaves the outcome as it was, with one computed pair less to go. */
  lemma StepSettles(ans: Answers, n: nat, cur: seq<Avp>, i: nat)
    requires Resolves(ans) && 1 <= i < |cur| && Needs(cur[i]) && forall k :: 1 <= k < i ==> !Needs(cur[k])
    ensures var next := cur[..i] + cur[i + 1..] + [Rewritten(ans, n, cur[i])];
            Settled(ans, n + 1, next) == Settled(ans, n, cur) && Hits(next[1..]) == Hits(cur[1..]) - 1
  {
    hide Needs, Rewritten, Keep, Fix, Hits;
    var p, q := cur[1..i], cur[i + 1..];
    var f := Rewritten(ans, n, cur[i]);
    StepTail(ans, n, p, cur[i], q);
    assert cur[1..] == p + ([cur[i]] + q);
    assert (cur[..i] + q + [f])[1..] == p + (q + [f]);
    Regroup(cur[0], Keep(cur[1..]), Fix(ans, n, cur[1..]));
    Regroup(cur[0], Keep(p + (q + [f])), Fix(ans, n + 1, p + (q + [f])));
  }

  lemma Regroup(h: Avp, a: seq<Avp>, b: seq<Avp>)
    ensures [h] + a + b == [h] + (a + b)
  {
  }

  class DbUser {
    var avp: seq<Avp>

    constructor (l: seq<Avp>)
      ensures avp == l
    {
      avp := l;
    }

    method AvpSize() returns (n: nat)
      ensures n == |avp|
    {
      n := |avp|;
    }

    method AvpGet(s: nat) returns (a: Avp)
      ensures a == if s < |avp| then avp[s] else ""
    {
      a := "";
      var count := 0;
      while count < |avp|
        invariant count <= |avp| && (count <= s || s >= |avp|) && a == ""
      {
        if count == s { return avp[count]; }
        count := count + 1;
      }
    }

    /** avp_set: the entry is erased and the new one appended, so it moves to the end. */
    method AvpSet(s: nat, a: Avp)
      modifies this
      ensures avp == (if s < |old(avp)| then old(avp)[..s] + old(avp)[s + 1..] else old(avp)) + [a]
    {
      var count := 0;
      while count < |avp|
        invariant count <= |avp| && avp == old(avp) && (count <= s || s >= |avp|)
      {
        if count == s {
          avp := avp[..count] + avp[count + 1..];
          break;
        }
        count := count + 1;
      }
      avp := avp + [a];
    }
  }

  /** The first turn: a plain head stays, a computed one goes to the end. */
  lemma HeadSettles(ans: Answers, l: seq<Avp>)
    ensures l == [] ==> Outcome(ans, l) == []
    ensures l != [] && !Needs(l[0]) ==> Settled(ans, 0, l) == Outcome(ans, l)
    ensures l != [] && Needs(l[0]) ==> Settled(ans, 1, l[1..] + [Rewritten(ans, 0, l[0])]) == Outcome(ans, l)
  {
    hide Needs, Rewritten, Keep, Fix;
  }

  /** AModify::modifyer: after a change the index is set to 0 and then incremented, so the scan resumes at 1. */
  method Modifyer(ax: DbUser, ans: Answers) returns (d: DbUser)
    requires Resolves(ans)
    ensures fresh(d) && d.avp == Outcome(ans, ax.avp) && ax.avp == old(ax.avp)
  {
    hide Needs, Rewritten, Keep, Fix, Hits, Outcome, Settled;
    HeadSettles(ans, ax.avp);
    d := new DbUser(ax.avp);
    var n := 0;   // calls made so far
    var i := 0;
    var size := d.AvpSize();
    while i < size
      invariant size == |d.avp|
      invariant fresh(d) && ax.avp == old(ax.avp)
      invariant i == 0 ==> n == 0 && d.avp == ax.avp
      invariant i >= 1 ==> d.avp != [] && Settled(ans, n, d.avp) == Outcome(ans, ax.avp)
      invariant forall k :: 1 <= k < i && k < |d.avp| ==> !Needs(d.avp[k])
      invariant i > 0 || ax.avp == [] || i < |d.avp|
      decreases if i == 0 then 1 else 0, if d.avp == [] then 0 else Hits(d.avp[1..]), |d.avp| - i
    {
      var avp := d.AvpGet(i);
      if Needs(avp) {
        if i > 0 { StepSettles(ans, n, d.avp, i); }
        var a := Rewritten(ans, n, avp);
        d.AvpSet(i, a);
        n := n + 1;
        if i == 0 { assert d.avp == ax.avp[1..] + [a]; }
        i := 0;
      }
      i := i + 1;
      size := d.AvpSize();
    }
    if d.avp != [] { NothingLeft(ans, n, d.avp); }
  }

  lemma NothingLeft(ans: Answers, n: nat, cur: seq<Avp>)
    requires cur != [] && forall k :: 1 <= k < |cur| ==> !Needs(cur[k])
    ensures Settled(ans, n, cur) == cur
  {
    KeepFix(ans, n, cur[1..], []);
    assert cur[1..] + [] == cur[1..];
  }

  lemma {:induction false} FixResolved(ans: Answers, n: nat, l: seq<Avp>)
    requires Resolves(ans)
    ensures forall k :: 0 <= k < |Fix(ans, n, l)| ==> !Needs(Fix(ans, n, l)[k])
    ensures forall k :: 0 <= k < |Keep(l)| ==> !Needs(Keep(l)[k])
    ensures |Keep(l)| + |Fix(ans, n, l)| == |l|
    decreases l
  {
    hide Needs, Rewritten;
    if l != [] { FixResolved(ans, if Needs(l[0]) then n + 1 else n, l[1..]); }
  }

  /** Every pair past the head is resolved; the head too, unless the first two were both computed. */
  lemma ResolvedIff(ans: Answers, l: seq<Avp>)
    requires Resolves(ans)
    ensures var r := Outcome(ans, l);
            |r| == |l| && (forall k :: 1 <= k < |r| ==> !Needs(r[k])) &&
            (l != [] ==> (Needs(r[0]) <==> |l| >= 2 && Needs(l[0]) && Needs(l[1])))
  {
    hide Needs, Rewritten;
    if l != [] {
      var b, n := Base(ans, l), if Needs(l[0]) then 1 else 0;
      FixResolved(ans, n, b[1..]);
      var r := Outcome(ans, l);
      assert r == [b[0]] + (Keep(b[1..]) + Fix(ans, n, b[1..]));
      assert |l| == 1 && Needs(l[0]) ==> b == [Rewritten(ans, 0, l[0])];
    }
  }

  function Names(l: seq<Avp>): seq<string> {
    seq(|l|, i requires 0 <= i < |l| => Name(l[i]))
  }

  lemma {:induction false} FixNames(ans: Answers, n: nat, l: seq<Avp>)
    ensures multiset(Names(Keep(l))) + multiset(Names(Fix(ans, n, l))) == multiset(Names(l))
    decreases l
  {
    hide Needs, Name, Rewritten, Names;
    if l == [] {
      NamesSplit([], []);
      assert [] + [] == l;
    } else {
      var m := if Needs(l[0]) then n + 1 else n;
      FixNames(ans, m, l[1..]);
      NamesSplit([l[0]], l[1..]);
      assert l == [l[0]] + l[1..];
      NamesSplit([l[0]], Keep(l[1..]));
      NamesSplit([Rewritten(ans, n, l[0])], Fix(ans, n + 1, l[1..]));
      SameName(ans, n, l[0]);
      assert Keep(l) == if Needs(l[0]) then Keep(l[1..]) else [l[0]] + Keep(l[1..]);
    }
  }

  lemma SameName(ans: Answers, n: nat, x: Avp)
    ensures Names([Rewritten(ans, n, x)]) == Names([x])
  {
    hide Rewritten, Name;
    RewrittenIs(ans, n, x);
  }

  lemma NamesSplit(p: seq<Avp>, q: seq<Avp>)
    ensures multiset(Names(p + q)) == multiset(Names(p)) + multiset(Names(q))
  {
    hide Name;
    assert Names(p + q) == Names(p) + Names(q);
  }

  /** The rewriting keeps the attribute names, each as often as before. */
  lemma NamesKept(ans: Answers, l: seq<Avp>)
    ensures multiset(Names(Outcome(ans, l))) == multiset(Names(l))
  {
    hide Needs, Name, Rewritten, Names;
    if l != [] {
      var b, n := Base(ans, l), if Needs(l[0]) then 1 else 0;
      var rest := Keep(b[1..]) + Fix(ans, n, b[1..]);
      FixNames(ans, n, b[1..]);
      NamesSplit(Keep(b[1..]), Fix(ans, n, b[1..]));
      assert Outcome(ans, l) == [b[0]] + rest;
      NamesSplit([b[0]], rest);
      NamesSplit([b[0]], b[1..]);
      assert b == [b[0]] + b[1..];
      RotateNames(ans, l);
    }
  }

  lemma RotateNames(ans: Answers, l: seq<Avp>)
    ensures multiset(Names(Base(ans, l))) == multiset(Names(l))
  {
    hide Needs, Name, Rewritten, Names;
    if l != [] && Needs(l[0]) {
      var x := Rewritten(ans, 0, l[0]);
      SameName(ans, 0, l[0]);
      NamesSplit(l[1..], [x]);
      NamesSplit([l[0]], l[1..]);
      assert l == [l[0]] + l[1..];
    }
  }

  // ----- which pairs are rewritten, by their text

  /** The pair called name whose value is p, one of the three markers, and then rest. */
  ghost predicate CallText(s: Avp, name: string, p: string, rest: string) {
    '=' !in name && p in {"INT:", "SQL:", "EXT:"} && s == name + "=" + (p + rest)
  }

  ghost predicate Computed(s: Avp) {
    exists name, p, rest :: CallText(s, name, p, rest)
  }

  lemma NameValue(name: string, v: string)
    requires '=' !in name
    ensures Name(name + "=" + v) == name && Value(name + "=" + v) == v
  {
    var s, k := name + "=" + v, |name|;
    assert forall i :: 0 <= i < k ==> s[i] == name[i];
    assert s[k] == '=' && EqualsAt(s) == k;
    assert s[..k] == name && s[k + 1..] == v;
  }

  lemma NeedsIff(s: Avp)
    ensures Needs(s) <==> Computed(s)
  {
    hide Name, Value, EqualsAt;
    if Needs(s) {
      var v := Value(s);
      Parts(s);
      assert v == v[..4] + v[4..];
      assert CallText(s, Name(s), v[..4], v[4..]);
    }
    if name: string, p, rest :| CallText(s, name, p, rest) {
      NameValue(name, p + rest);
      assert (p + rest)[..4] == p;
    }
  }

  lemma Parts(s: Avp)
    requires Value(s) != ""
    ensures '=' !in Name(s) && s == Name(s) + "=" + Value(s)
  {
    var k := EqualsAt(s);
    assert s == s[..k] + [s[k]] + s[k + 1..];
  }

  lemma {:induction false} KeepHas(l: seq<Avp>, s: Avp)
    requires s in l && !Needs(s)
    ensures s in Keep(l)
  {
    hide Needs;
    if l[0] != s { KeepHas(l[1..], s); }
  }

  lemma {:induction false} FixHas(ans: Answers, n: nat, l: seq<Avp>, s: Avp)
    requires s in l && Needs(s)
    ensures exists m :: n <= m && Rewritten(ans, m, s) in Fix(ans, n, l)
    decreases l
  {
    hide Needs, Rewritten;
    if l[0] == s {
      assert Fix(ans, n, l)[0] == Rewritten(ans, n, s);
    } else {
      FixHas(ans, if Needs(l[0]) then n + 1 else n, l[1..], s);
    }
  }

  /** In the outcome every value that started INT:, SQL: or EXT: has been replaced by an answer, save at most the head,
      every other pair is there as it was, and past the head no value starts so. */
  lemma ComputedRewritten(ans: Answers, l: seq<Avp>, s: Avp)
    requires Resolves(ans) && s in l
    ensures var r := Outcome(ans, l);
            (!Computed(s) ==> s in r) &&
            (Computed(s) ==> r[0] == s || exists m: nat :: Name(s) + "=" + ans(m, s) in r) &&
            forall k :: 1 <= k < |r| ==> !Computed(r[k])
  {
    hide Needs, Computed, Name, Value, Keep, Fix;
    var r, b, n := Outcome(ans, l), Base(ans, l), if Needs(l[0]) then 1 else 0;
    ResolvedIff(ans, l);
    forall k | 1 <= k < |r| ensures !Computed(r[k]) { NeedsIff(r[k]); }
    NeedsIff(s);
    assert r == [b[0]] + Keep(b[1..]) + Fix(ans, n, b[1..]);
    if s in b {
      assert s == b[0] || s in b[1..];
      if s in b[1..] { if Needs(s) { FixHas(ans, n, b[1..], s); } else { KeepHas(b[1..], s); } }
    } else {
      assert s == l[0] && Needs(s);
      var w := Rewritten(ans, 0, s);
      assert b[|b| - 1] == w && !Needs(w);
      if |b| > 1 {
        assert b[1..][|b| - 2] == w;
        KeepHas(b[1..], w);
      }
      assert Name(s) + "=" + ans(0, s) == w && w in r;
    }
  }
}
