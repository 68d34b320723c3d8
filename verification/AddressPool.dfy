/** Address pools: expanding an address range, and handing addresses out and taking them back. */
module AddressPool {
  import opened IpAddr
  import opened Text

  /** The address an operand names, by inet_addr or the resolver. */
  type Resolver = string -> Quad

  /** Dotted texts that pass the address check are read as the address they show. */
  ghost predicate ReadsDotted(addrOf: Resolver) {
    forall q: Quad :: q.a > 0 && 0 < q.d < 255 ==> addrOf(Dotted(q)) == q
  }

  // ----- expanding a range

  predicate IsSeparator(c: char) {
    c == ',' || c == '-'
  }

  /** End of the operand that starts at i. */
  function OperandEnd(s: string, i: nat): (e: nat)
    requires i <= |s|
    ensures i <= e <= |s| && (e < |s| ==> IsSeparator(s[e])) && forall k :: i <= k < e ==> !IsSeparator(s[k])
    decreases |s| - i
  {
    if i < |s| && !IsSeparator(s[i]) then OperandEnd(s, i + 1) else i
  }

  /** An operand alone, two operands joined by a hyphen, or an operand and a hyphen with nothing usable after it. */
  datatype Item = Single(text: string) | Range(from: string, to: string) | Checked(text: string)

  /** The part of the text that is looked at: up to the first comma, or the second hyphen. */
  function FirstItem(s: string): Item {
    var e := OperandEnd(s, 0);
    if e < |s| && s[e] == '-' then
      var f := OperandEnd(s, e + 1);
      if e > 0 && f > e + 1 then Range(s[..e], s[e + 1..f]) else Checked(s[..e])
    else Single(s[..e])
  }

  /** The n-th address of a text, "" for none. */
  function Nth(s: string, n: nat, addrOf: Resolver): string {
    match FirstItem(s)
    case Single(t) => if n == 0 then t else ""
    case Checked(t) => if n == 0 && IsIp(t) then t else ""
    case Range(from, to) =>
      var x, y := addrOf(from), addrOf(to);
      if x.d + n <= y.d && IsIp(Dotted(x.(d := x.d + n))) then Dotted(x.(d := x.d + n)) else ""
  }

  method ReadOperand(s: string, i: nat) returns (t: string, e: nat)
    requires i <= |s|
    ensures e == OperandEnd(s, i) && t == s[i..e]
  {
    t, e := "", i;
    while e < |s| && !IsSeparator(s[e])
      invariant i <= e <= |s| && t == s[i..e] && OperandEnd(s, e) == OperandEnd(s, i)
    {
      t := t + [s[e]];
      e := e + 1;
    }
  }

  /** getAddr: it never steps over a comma, so past the first item it only finds empty operands. */
  method GetAddr(str: string, n: nat, addrOf: Resolver) returns (ret: string)
    ensures ret == Nth(str, n, addrOf)
  {
    hide IsIp, Dotted;
    var want, k, i := n + 1, 0, 0;
    while i < |str|
      invariant i <= |str| && k < want
      invariant (i == 0 && k == 0) || (Nth(str, n, addrOf) == "" && (i < |str| ==> IsSeparator(str[i])))
      decreases |str| - i, want - k
    {
      var s1, e := ReadOperand(str, i);
      i := e;
      if i == |str| || str[i] == ',' {
        k := k + 1;
        if k == want { return s1; }
      }
      if i < |str| && str[i] == '-' {
        var s2;
        s2, i := ReadOperand(str, i + 1);
        if |s1| > 0 && |s2| > 0 {
          var ip1, ip2 := addrOf(s1), addrOf(s2);
          var p: int := ip1.d;
          while p <= ip2.d
            invariant p >= ip1.d && k == p - ip1.d < want
          {
            k := k + 1;
            if k == want {
              var q := Dotted(ip1.(d := p));
              if IsIp(q) { return q; }
              return "";
            }
            p := p + 1;
          }
        } else {
          k := k + 1;
          if k == want {
            if IsIp(s1) { return s1; }
            return "";
          }
        }
      }
    }
    return "";
  }

  /** The addresses a text stands for: what add and del go through, the first one twice. */
  function Listed(s: string, addrOf: Resolver): seq<string> {
    match FirstItem(s)
    case Single(t) => if t == "" then [] else [t]
    case Checked(t) => if t != "" && IsIp(t) then [t] else []
    case Range(from, to) => Between(addrOf(from), addrOf(to).d)
  }

  /** The usable addresses from x up to last number hi: none at all if the first one is not usable. */
  function Between(x: Quad, hi: Octet): seq<string> {
    if x.a == 0 || x.d == 0 || x.d > hi || x.d == 255 then []
    else seq((if hi == 255 then 254 else hi) - x.d + 1, k requires 0 <= k <= 255 - x.d => Dotted(x.(d := x.d + k)))
  }

  /** Counting from 0, getAddr gives the listed addresses and then "". */
  lemma NthIsListed(s: string, n: nat, addrOf: Resolver)
    ensures var list := Listed(s, addrOf);
            (n < |list| ==> Nth(s, n, addrOf) == list[n] && list[n] != "") && (n == |list| ==> Nth(s, n, addrOf) == "")
  {
    hide IsIp, Dotted, FirstItem, Between;
    var item := FirstItem(s);
    if item.Range? { InBetween(addrOf(item.from), addrOf(item.to).d, n); }
  }

  lemma InBetween(x: Quad, hi: Octet, n: nat)
    ensures var list := Between(x, hi);
            var ok := x.d + n <= hi && IsIp(Dotted(x.(d := x.d + n)));
            (n < |list| ==> ok && list[n] == Dotted(x.(d := x.d + n)) && list[n] != "") && (n == |list| ==> !ok)
  {
    hide IsIp, Dotted;
    if x.d + n <= hi {
      IsIpDotted(x.(d := x.d + n));
      DottedParts(x.(d := x.d + n));
    }
  }

  /** A range x-y lists the addresses with last number x..y exactly when it is empty, or stays within 1..254 and the
      first number is not 0. */
  lemma RangeIff(s: string, addrOf: Resolver)
    requires FirstItem(s).Range?
    ensures var x, hi := addrOf(FirstItem(s).from), addrOf(FirstItem(s).to).d;
            (forall t :: t in Listed(s, addrOf) <==> exists p: Octet :: x.d <= p <= hi && t == Dotted(x.(d := p)))
            <==> (x.d > hi || (x.a > 0 && x.d > 0 && hi < 255))
  {
    hide IsIp, Dotted;
    var x, hi := addrOf(FirstItem(s).from), addrOf(FirstItem(s).to).d;
    var list := Listed(s, addrOf);
    if x.d <= hi {
      if x.a > 0 && x.d > 0 && hi < 255 {
        forall t ensures t in list <==> exists p: Octet :: x.d <= p <= hi && t == Dotted(x.(d := p)) {
          if t in list {
            var k :| 0 <= k < |list| && list[k] == t;
            var p: Octet := x.d + k;
            assert x.d <= p <= hi && t == Dotted(x.(d := p));
          }
          if p: Octet :| x.d <= p <= hi && t == Dotted(x.(d := p)) {
            assert list[p - x.d] == t;
          }
        }
      } else {
        LastMissing(x, hi);
        assert Dotted(x.(d := hi)) !in list;
      }
    }
  }

  lemma LastMissing(x: Quad, hi: Octet)
    requires x.d <= hi && !(x.a > 0 && x.d > 0 && hi < 255)
    ensures Dotted(x.(d := hi)) !in Between(x, hi)
  {
    hide Dotted;
    var list := Between(x, hi);
    forall k | 0 <= k < |list| ensures list[k] != Dotted(x.(d := hi)) {
      if list[k] == Dotted(x.(d := hi)) { DottedApart(x.(d := x.d + k), x.(d := hi)); }
    }
  }

  // ----- a pool

  /** An address and whether it is free. */
  datatype Entry = Entry(address: Quad, tag: bool)

  function IndexOf(ae: seq<Entry>, ip: Quad): (k: nat)
    ensures k <= |ae| && (k < |ae| ==> ae[k].address == ip) && forall i :: 0 <= i < k ==> ae[i].address != ip
  {
    if ae == [] || ae[0].address == ip then 0 else 1 + IndexOf(ae[1..], ip)
  }

  function FirstFree(ae: seq<Entry>): (k: nat)
    ensures k <= |ae| && (k < |ae| ==> ae[k].tag) && forall i :: 0 <= i < k ==> !ae[i].tag
  {
    if ae == [] || ae[0].tag then 0 else 1 + FirstFree(ae[1..])
  }

  function Added(ae: seq<Entry>, ip: Quad): seq<Entry> {
    if IndexOf(ae, ip) < |ae| then ae else ae + [Entry(ip, true)]
  }

  function Deleted(ae: seq<Entry>, ip: Quad): seq<Entry> {
    var k := IndexOf(ae, ip);
    if k < |ae| then ae[..k] + ae[k + 1..] else ae
  }

  function Taken(ae: seq<Entry>): seq<Entry> {
    var k := FirstFree(ae);
    if k < |ae| then ae[k := ae[k].(tag := false)] else ae
  }

  function Returned(ae: seq<Entry>, ip: Quad): seq<Entry> {
    var k := IndexOf(ae, ip);
    if k < |ae| then ae[k := ae[k].(tag := true)] else ae
  }

  /** Entry i is the first one of the address. */
  ghost predicate IsFirst(ae: seq<Entry>, ip: Quad, i: nat) {
    i < |ae| && ae[i].address == ip && forall j :: 0 <= j < i ==> ae[j].address != ip
  }

  /** The addresses in their order and all tags but the k-th are kept. */
  ghost predicate OneTag(was: seq<Entry>, now: seq<Entry>, k: nat, tag: bool) {
    |now| == |was| && forall i :: 0 <= i < |was| ==>
      now[i].address == was[i].address && now[i].tag == if i == k then tag else was[i].tag
  }

  /** get's effect: the k-th entry, the first free one, becomes occupied. */
  ghost predicate TakesAt(was: seq<Entry>, now: seq<Entry>, k: nat) {
    k < |was| && was[k].tag && (forall j :: 0 <= j < k ==> !was[j].tag) && OneTag(was, now, k, false)
  }

  /** ret's effect: the k-th entry, the first one of the address, becomes free. */
  ghost predicate FreesAt(was: seq<Entry>, ip: Quad, now: seq<Entry>, k: nat) {
    IsFirst(was, ip, k) && OneTag(was, now, k, true)
  }

  ghost predicate Freed(was: seq<Entry>, ip: Quad, now: seq<Entry>) {
    if exists i :: 0 <= i < |was| && was[i].address == ip then exists k: nat :: FreesAt(was, ip, now, k) else now == was
  }

  class AddrpoolData {
    const pool: int
    var ae: seq<Entry>

    constructor (p: int)
      ensures pool == p && ae == []
    {
      pool, ae := p, [];
    }

    method Add(ip: Quad)
      modifies this`ae
      ensures ae == Added(old(ae), ip)
      ensures ae == if exists i :: 0 <= i < |old(ae)| && old(ae)[i].address == ip then old(ae)
                    else old(ae) + [Entry(ip, true)]
    {
      var i := 0;
      while i < |ae|
        invariant i <= |ae| && ae == old(ae) && forall k :: 0 <= k < i ==> ae[k].address != ip
      {
        if ae[i].address == ip { return; }
        i := i + 1;
      }
      ae := ae + [Entry(ip, true)];
    }

    method Del(ip: Quad)
      modifies this`ae
      ensures ae == Deleted(old(ae), ip)
      ensures if exists i :: 0 <= i < |old(ae)| && old(ae)[i].address == ip then
                exists i: nat :: IsFirst(old(ae), ip, i) && ae == old(ae)[..i] + old(ae)[i + 1..]
              else ae == old(ae)
    {
      var i := 0;
      while i < |ae|
        invariant i <= |ae| && ae == old(ae) && forall k :: 0 <= k < i ==> ae[k].address != ip
      {
        if ae[i].address == ip {
          ae := ae[..i] + ae[i + 1..];
          return;
        }
        i := i + 1;
      }
    }

    /** get: the first free address, now occupied; "" exactly when none is free. */
    method Get() returns (r: string)
      modifies this`ae
      ensures ae == Taken(old(ae))
      ensures if r == "" then ae == old(ae)
              else exists k: nat :: TakesAt(old(ae), ae, k) && r == Dotted(old(ae)[k].address)
      ensures var k := FirstFree(old(ae));
              r == if k < |old(ae)| then Dotted(old(ae)[k].address) else ""
      ensures r == "" <==> forall i :: 0 <= i < |old(ae)| ==> !old(ae)[i].tag
    {
      hide Dotted;
      var i := 0;
      while i < |ae|
        invariant i <= |ae| && ae == old(ae) && forall k :: 0 <= k < i ==> !ae[k].tag
      {
        if ae[i].tag {
          ae := ae[i := ae[i].(tag := false)];
          assert TakesAt(old(ae), ae, i);
          DottedParts(ae[i].address);
          return Dotted(ae[i].address);
        }
        i := i + 1;
      }
      return "";
    }

    method Ret(ip: Quad)
      modifies this`ae
      ensures ae == Returned(old(ae), ip)
      ensures Freed(old(ae), ip, ae)
    {
      var i := 0;
      while i < |ae|
        invariant i <= |ae| && ae == old(ae) && forall k :: 0 <= k < i ==> ae[k].address != ip
      {
        if ae[i].address == ip {
          ae := ae[i := ae[i].(tag := true)];
          assert FreesAt(old(ae), ip, ae, i);
          return;
        }
        i := i + 1;
      }
    }
  }

  // ----- runs of one pool

  datatype Op = Add(ip: Quad) | Del(ip: Quad) | Get | Ret(ip: Quad)

  /** The pool and the addresses handed out and not returned since. */
  datatype State = State(ae: seq<Entry>, held: set<Quad>)

  /** What a step hands out. */
  function Answer(s: State, op: Op): set<Quad> {
    if op.Get? && FirstFree(s.ae) < |s.ae| then {s.ae[FirstFree(s.ae)].address} else {}
  }

  function Step(s: State, op: Op): State {
    match op
    case Add(ip) => s.(ae := Added(s.ae, ip))
    case Del(ip) => s.(ae := Deleted(s.ae, ip))
    case Get => State(Taken(s.ae), s.held + Answer(s, op))
    case Ret(ip) => State(Returned(s.ae, ip), s.held - {ip})
  }

  function Run(ops: seq<Op>): State {
    if ops == [] then State([], {}) else Step(Run(ops[..|ops| - 1]), ops[|ops| - 1])
  }

  ghost predicate Distinct(ae: seq<Entry>) {
    forall i, j :: 0 <= i < j < |ae| ==> ae[i].address != ae[j].address
  }

  /** Addresses are distinct, and an address of the pool is free exactly when nobody holds it. */
  ghost predicate Tight(s: State) {
    Distinct(s.ae) && forall i :: 0 <= i < |s.ae| ==> (s.ae[i].tag <==> s.ae[i].address !in s.held)
  }

  /** Adding an address that is held although it is not, or no longer, in the pool. */
  predicate AddsHeld(s: State, op: Op) {
    op.Add? && op.ip in s.held && IndexOf(s.ae, op.ip) == |s.ae|
  }

  lemma StepTight(s: State, op: Op)
    requires Tight(s) && !AddsHeld(s, op)
    ensures Tight(Step(s, op)) && Answer(s, op) * s.held == {}
  {
    hide IndexOf, FirstFree;
  }

  lemma Found(ae: seq<Entry>, q: Quad)
    ensures IndexOf(ae, q) < |ae| <==> exists i :: 0 <= i < |ae| && ae[i].address == q
  {
  }

  /** The run never adds an address that is held but not in the pool. */
  ghost predicate NoHeldAdded(ops: seq<Op>) {
    forall i :: 0 <= i < |ops| ==> !AddsHeld(Run(ops[..i]), ops[i])
  }

  /** Such a run keeps addresses distinct and free exactly when not held. */
  lemma {:induction false} RunTight(ops: seq<Op>)
    requires NoHeldAdded(ops)
    ensures Tight(Run(ops))
  {
    hide Step, Answer, AddsHeld;
    if ops != [] {
      var n := |ops| - 1;
      assert forall i :: 0 <= i < n ==> ops[..n][..i] == ops[..i] && ops[..n][i] == ops[i];
      RunTight(ops[..n]);
      StepTight(Run(ops[..n]), ops[n]);
    }
  }

  function Gets(n: nat): seq<Op> {
    seq(n, _ => Get)
  }

  lemma RunSnoc(ops: seq<Op>, op: Op)
    ensures Run(ops + [op]) == Step(Run(ops), op)
  {
    assert (ops + [op])[..|ops|] == ops;
  }

  /** Asking long enough, a free entry is handed out. */
  lemma {:induction false} HandedOutAtLast(ops: seq<Op>, k: nat) returns (n: nat)
    requires var s := Run(ops); k < |s.ae| && s.ae[k].tag && s.ae[k].address in s.held
    ensures var s, t := Run(ops), Run(ops + Gets(n));
            Answer(t, Get) == {s.ae[k].address} && s.ae[k].address in t.held
    decreases k - FirstFree(Run(ops).ae)
  {
    var s := Run(ops);
    if FirstFree(s.ae) == k {
      n := 0;
      assert ops + Gets(0) == ops;
    } else {
      RunSnoc(ops, Get);
      var m := HandedOutAtLast(ops + [Get], k);
      n := m + 1;
      assert ops + [Get] + Gets(m) == ops + Gets(n);
    }
  }

  /** At every point of the run, however often get is called then, it hands out nothing that is held. */
  ghost predicate HandsOutOnce(ops: seq<Op>) {
    forall i, n: nat :: 0 <= i <= |ops| ==>
      var s := Run(ops[..i] + Gets(n));
      Answer(s, Get) * s.held == {}
  }

  lemma StillNoHeldAdded(ops: seq<Op>, i: nat, n: nat)
    requires NoHeldAdded(ops) && i <= |ops|
    ensures NoHeldAdded(ops[..i] + Gets(n))
  {
    hide Run;
    var all := ops[..i] + Gets(n);
    forall j | 0 <= j < |all| ensures !AddsHeld(Run(all[..j]), all[j]) {
      if j < i { assert all[..j] == ops[..j] && all[j] == ops[j]; }
    }
  }

  /** No held address is ever handed out if and only if none is added that is held but not in the pool. */
  lemma RunSafeIff(ops: seq<Op>)
    ensures HandsOutOnce(ops) <==> NoHeldAdded(ops)
  {
    hide Step, Answer, FirstFree, IndexOf;
    if NoHeldAdded(ops) {
      forall i, n: nat | 0 <= i <= |ops| ensures var s := Run(ops[..i] + Gets(n)); Answer(s, Get) * s.held == {} {
        StillNoHeldAdded(ops, i, n);
        RunTight(ops[..i] + Gets(n));
        StepTight(Run(ops[..i] + Gets(n)), Get);
      }
    } else {
      var i :| 0 <= i < |ops| && AddsHeld(Run(ops[..i]), ops[i]);
      HeldThenFree(ops, i);
    }
  }

  lemma HeldThenFree(ops: seq<Op>, i: nat)
    requires i < |ops| && AddsHeld(Run(ops[..i]), ops[i])
    ensures !HandsOutOnce(ops)
  {
    var s, q := Run(ops[..i]), ops[i].ip;
    assert ops[..i + 1] == ops[..i] + [ops[i]];
    RunSnoc(ops[..i], ops[i]);
    var t := Run(ops[..i + 1]);
    assert t.ae[|s.ae|] == Entry(q, true) && q in t.held;
    var n := HandedOutAtLast(ops[..i + 1], |s.ae|);
    assert q in Answer(Run(ops[..i + 1] + Gets(n)), Get) * Run(ops[..i + 1] + Gets(n)).held;
  }

  /** Deleting a held address and adding it again makes it free while it is held; get then hands it out once more. */
  lemma HandedOutTwice(s: State, q: Quad)
    requires Tight(s) && q in s.held
    ensures var t := Step(Step(s, Del(q)), Add(q));
            q in t.held && Entry(q, true) in t.ae &&
            ((forall i :: 0 <= i < |s.ae| ==> !s.ae[i].tag) ==> Answer(t, Get) == {q})
  {
    var d := Deleted(s.ae, q);
    var t := Step(Step(s, Del(q)), Add(q));
    Found(d, q);
    assert forall i :: 0 <= i < |d| ==> d[i].address != q;
    assert t.ae[|d|] == Entry(q, true);
  }

  // ----- runs without del

  /** The addresses a run adds, in the order first added. */
  function FirstAdds(ops: seq<Op>): seq<Quad> {
    if ops == [] then []
    else
      var front, op := FirstAdds(ops[..|ops| - 1]), ops[|ops| - 1];
      if op.Add? && op.ip !in front then front + [op.ip] else front
  }

  function Addresses(ae: seq<Entry>): (a: seq<Quad>)
    ensures |a| == |ae| && forall i :: 0 <= i < |ae| ==> a[i] == ae[i].address
  {
    seq(|ae|, i requires 0 <= i < |ae| => ae[i].address)
  }

  lemma AddedHolds(ae: seq<Entry>, ip: Quad)
    ensures Addresses(Added(ae, ip)) == if ip in Addresses(ae) then Addresses(ae) else Addresses(ae) + [ip]
  {
    hide IndexOf;
    Found(ae, ip);
    if ip in Addresses(ae) {
      var i :| 0 <= i < |ae| && Addresses(ae)[i] == ip;
      assert ae[i].address == ip;
    }
  }

  /** Without del a pool holds exactly the addresses ever added, in the order first added, and nobody holds another. */
  lemma {:induction false} RunHolds(ops: seq<Op>)
    requires forall i :: 0 <= i < |ops| ==> !ops[i].Del?
    ensures Addresses(Run(ops).ae) == FirstAdds(ops) && Tight(Run(ops))
    ensures forall q :: q in Run(ops).held ==> q in FirstAdds(ops)
  {
    hide IndexOf, FirstFree;
    if ops != [] {
      var n := |ops| - 1;
      var s, op := Run(ops[..n]), ops[n];
      RunHolds(ops[..n]);
      if op.Add? { AddedHolds(s.ae, op.ip); }
      NotHeldAdded(s, op);
      StepTight(s, op);
      forall q | q in Run(ops).held ensures q in FirstAdds(ops) {
        if q !in s.held { assert q == Addresses(s.ae)[FirstFree(s.ae)]; }
      }
      assert !op.Add? ==> Addresses(Run(ops).ae) == Addresses(s.ae);
    }
  }

  lemma NotHeldAdded(s: State, op: Op)
    requires forall q :: q in s.held ==> q in Addresses(s.ae)
    ensures !AddsHeld(s, op)
  {
    if op.Add? && op.ip in s.held {
      Found(s.ae, op.ip);
      var i :| 0 <= i < |s.ae| && Addresses(s.ae)[i] == op.ip;
      assert s.ae[i].address == op.ip;
    }
  }

  ghost predicate FirstSpare(all: seq<Quad>, held: set<Quad>, q: Quad) {
    q !in held && exists k :: 0 <= k < |all| && all[k] == q && forall j :: 0 <= j < k ==> all[j] in held
  }

  /** Without del, get hands out the first address added that nobody holds, and nothing exactly when all are held. */
  lemma FirstNotHeld(ops: seq<Op>)
    requires forall i :: 0 <= i < |ops| ==> !ops[i].Del?
    ensures var all, s := FirstAdds(ops), Run(ops);
            (Answer(s, Get) == {} <==> forall q :: q in all ==> q in s.held) &&
            forall q :: q in Answer(s, Get) ==> FirstSpare(all, s.held, q)
  {
    hide IndexOf, FirstAdds;
    RunHolds(ops);
    var all, s := FirstAdds(ops), Run(ops);
    assert forall k :: 0 <= k < |all| ==> all[k] == s.ae[k].address;
    var f := FirstFree(s.ae);
    if f < |s.ae| { assert all[f] == s.ae[f].address; }
  }

  // ----- all pools

  /** The buffer for one address has room for 15 characters. */
  function Chop(r: string): string {
    if |r| > 15 then r[..15] else r
  }

  /** A pool after adding a list of addresses in turn. */
  function AddAll(ae: seq<Entry>, list: seq<string>, addrOf: Resolver): seq<Entry> {
    if list == [] then ae
    else Added(AddAll(ae, list[..|list| - 1], addrOf), addrOf(Chop(list[|list| - 1])))
  }

  /** Adding an address that was just added changes nothing. */
  lemma AddedTwice(ae: seq<Entry>, ip: Quad)
    ensures Added(Added(ae, ip), ip) == Added(ae, ip)
  {
    hide IndexOf;
    var t := Added(ae, ip);
    if IndexOf(ae, ip) == |ae| { assert t[|ae|].address == ip; }
    Found(t, ip);
  }

  lemma AddNone(ae: seq<Entry>, addrOf: Resolver)
    ensures AddAll(ae, [], addrOf) == ae
  {
  }

  /** Adding the next address, and the first one twice. */
  lemma FillStep(ae: seq<Entry>, list: seq<string>, n: nat, addrOf: Resolver)
    requires n < |list|
    ensures Added(AddAll(ae, list[..n], addrOf), addrOf(Chop(list[n]))) == AddAll(ae, list[..n + 1], addrOf)
    ensures n == 0 ==> Added(AddAll(ae, list[..1], addrOf), addrOf(Chop(list[0]))) == AddAll(ae, list[..1], addrOf)
  {
    hide Added, Chop;
    assert list[..n + 1][..n] == list[..n];
    if n == 0 {
      assert list[..0] == [];
      AddedTwice(ae, addrOf(Chop(list[0])));
    }
  }

  function PoolAt(ap: seq<AddrpoolData>, p: int): (k: nat)
    ensures k <= |ap| && (k < |ap| ==> ap[k].pool == p) && forall i :: 0 <= i < k ==> ap[i].pool != p
  {
    if ap == [] || ap[0].pool == p then 0 else 1 + PoolAt(ap[1..], p)
  }

  class CorePool {
    var ap: seq<AddrpoolData>

    constructor ()
      ensures ap == []
    {
      ap := [];
    }

    /** One object per entry of the list. */
    ghost predicate Valid()
      reads this
    {
      forall i, j :: 0 <= i < j < |ap| ==> ap[i] != ap[j]
    }

    method FindPool(p: int) returns (k: nat)
      ensures k == PoolAt(ap, p)
    {
      k := 0;
      while k < |ap| && ap[k].pool != p
        invariant k <= |ap| && forall i :: 0 <= i < k ==> ap[i].pool != p
      {
        k := k + 1;
      }
    }

    /** The loop of add on the pool it has found: the first address is looked up twice. */
    method Fill(tmp: AddrpoolData, a: string, addrOf: Resolver)
      modifies tmp`ae
      ensures tmp.ae == AddAll(old(tmp.ae), Listed(a, addrOf), addrOf)
    {
      hide Nth, Listed, Added, Chop, AddAll;
      ghost var list, was := Listed(a, addrOf), tmp.ae;
      var r := GetAddr(a, 0, addrOf);
      var i := 0;
      NthIsListed(a, 0, addrOf);
      assert list[..0] == [];
      AddNone(was, addrOf);
      while |r| > 0
        invariant i <= |list| + 1 && r == Nth(a, if i == 0 then 0 else i - 1, addrOf)
        invariant var n := if i < 2 then i else i - 1; n <= |list| && tmp.ae == AddAll(was, list[..n], addrOf)
        decreases |list| + 1 - i
      {
        NthIsListed(a, if i == 0 then 0 else i - 1, addrOf);
        NthIsListed(a, i, addrOf);
        FillStep(was, list, if i < 2 then 0 else i - 1, addrOf);
        tmp.Add(addrOf(Chop(r)));
        r := GetAddr(a, i, addrOf);
        i := i + 1;
      }
      NthIsListed(a, if i == 0 then 0 else i - 1, addrOf);
      ghost var n := if i < 2 then i else i - 1;
      assert list[..n] == list;
    }

    /** add: the listed addresses go into pool p, which is made if there is none; no other pool changes. */
    method Add(p: int, a: string, addrOf: Resolver)
      requires Valid()
      modifies this, ap
      ensures Valid()
      ensures var k := PoolAt(old(ap), p);
              old(ap) <= ap && |ap| == (if k < |old(ap)| then |old(ap)| else |old(ap)| + 1) && ap[k].pool == p &&
              ap[k].ae == AddAll(if k < |old(ap)| then old(ap[k].ae) else [], Listed(a, addrOf), addrOf)
      ensures forall i :: 0 <= i < |old(ap)| && i != PoolAt(old(ap), p) ==> ap[i].ae == old(ap[i].ae)
      ensures forall o :: o in ap ==> o in old(ap) || fresh(o)
    {
      hide AddAll, Listed;
      var k := FindPool(p);
      if k == |ap| {
        var tmp := new AddrpoolData(p);
        ap := ap + [tmp];
      }
      Fill(ap[k], a, addrOf);
    }

    /** get: from the first pool of that number; "" when there is none or nothing is free in it. */
    method Get(p: int) returns (addr: string)
      requires Valid()
      modifies ap
      ensures var k := PoolAt(ap, p);
              if k == |ap| then addr == "" else
                var f := FirstFree(old(ap[k].ae));
                addr == (if f < |old(ap[k].ae)| then Dotted(old(ap[k].ae)[f].address) else "") &&
                ap[k].ae == Taken(old(ap[k].ae))
      ensures forall i :: 0 <= i < |ap| && i != PoolAt(ap, p) ==> ap[i].ae == old(ap[i].ae)
    {
      hide Dotted, Taken;
      addr := "";
      var k := FindPool(p);
      if k < |ap| { addr := ap[k].Get(); }
    }

    /** ret: the address becomes free in every pool that has it. */
    method Ret(ip: Quad)
      requires Valid()
      modifies ap
      ensures forall i :: 0 <= i < |ap| ==> ap[i].ae == Returned(old(ap[i].ae), ip)
      ensures forall i :: 0 <= i < |ap| ==> Freed(old(ap[i].ae), ip, ap[i].ae)
    {
      hide Returned, Freed;
      var i := 0;
      while i < |ap|
        invariant i <= |ap|
        invariant forall k :: 0 <= k < |ap| ==> ap[k].ae == if k < i then Returned(old(ap[k].ae), ip) else old(ap[k].ae)
        invariant forall k :: 0 <= k < i ==> Freed(old(ap[k].ae), ip, ap[k].ae)
      {
        ap[i].Ret(ip);
        i := i + 1;
      }
    }
  }

  /** Adding a usable range to an empty pool makes exactly its addresses, once each, in order and all free. */
  lemma {:induction false} RangeFills(x: Quad, hi: Octet, n: nat, addrOf: Resolver)
    requires ReadsDotted(addrOf) && x.a > 0 && 0 < x.d <= hi < 255 && n <= hi - x.d + 1
    ensures |Between(x, hi)| == hi - x.d + 1
    ensures AddAll([], Between(x, hi)[..n], addrOf) == seq(n, k requires 0 <= k < n => Entry(x.(d := x.d + k), true))
  {
    hide Dotted, ReadsDotted;
    if n > 0 {
      var list := Between(x, hi);
      RangeFills(x, hi, n - 1, addrOf);
      assert list[..n][..n - 1] == list[..n - 1];
      ReadsOne(addrOf, x.(d := x.d + (n - 1)));
    }
  }

  lemma ReadsOne(addrOf: Resolver, q: Quad)
    requires ReadsDotted(addrOf) && q.a > 0 && 0 < q.d < 255
    ensures addrOf(Chop(Dotted(q))) == q
  {
    hide Dotted;
    DottedParts(q);
  }

  lemma {:induction false} OperandIs(s: string, i: nat, e: nat)
    requires i <= e <= |s| && (forall k :: i <= k < e ==> !IsSeparator(s[k])) && (e < |s| ==> IsSeparator(s[e]))
    ensures OperandEnd(s, i) == e
    decreases e - i
  {
    if i < e { OperandIs(s, i + 1, e); }
  }

  lemma DottedPlain(q: Quad)
    ensures Dotted(q) != "" && forall k :: 0 <= k < |Dotted(q)| ==> !IsSeparator(Dotted(q)[k])
  {
    hide NatToString;
  }

  /** The operand text x-y is read as the range from x to y. */
  lemma RangeText(x: Quad, y: Quad)
    ensures FirstItem(Dotted(x) + "-" + Dotted(y)) == Range(Dotted(x), Dotted(y))
  {
    hide Dotted, OperandEnd;
    var a, b := Dotted(x), Dotted(y);
    var s := a + "-" + b;
    DottedPlain(x);
    DottedPlain(y);
    OperandIs(s, 0, |a|);
    forall k | |a| + 1 <= k < |s| ensures !IsSeparator(s[k]) { assert s[k] == b[k - |a| - 1]; }
    OperandIs(s, |a| + 1, |s|);
    assert s[..|a|] == a && s[|a| + 1..] == b;
  }

  /** Whatever stands behind the first comma is never looked at. */
  lemma BehindComma(t: string, rest: string, addrOf: Resolver)
    requires t != "" && ',' !in t && '-' !in t
    ensures Listed(t + "," + rest, addrOf) == [t]
  {
    var s := t + "," + rest;
    forall k | 0 <= k < |t| ensures !IsSeparator(s[k]) { assert s[k] == t[k]; }
    OperandIs(s, 0, |t|);
    assert s[..|t|] == t;
  }

  /** Adding the text x-y of a usable range to an empty pool makes exactly its addresses. */
  lemma RangeTextFills(x: Quad, y: Quad, addrOf: Resolver)
    requires ReadsDotted(addrOf) && x.a > 0 && y.a > 0 && 0 < x.d <= y.d < 255
    ensures AddAll([], Listed(Dotted(x) + "-" + Dotted(y), addrOf), addrOf) ==
            seq(y.d - x.d + 1, k requires 0 <= k < y.d - x.d + 1 => Entry(x.(d := x.d + k), true))
  {
    hide Dotted, AddAll, FirstItem, Between;
    RangeText(x, y);
    assert addrOf(Dotted(x)) == x && addrOf(Dotted(y)) == y;
    var n := y.d - x.d + 1;
    RangeFills(x, y.d, n, addrOf);
    assert Between(x, y.d)[..n] == Between(x, y.d);
  }
}
