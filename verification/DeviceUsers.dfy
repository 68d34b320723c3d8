/** The users tracked on a network device, and the polling loop that drops those the device no longer reports. */
module DeviceUsers {

  datatype Option<T> = None | Some(value: T)
  datatype User = User(nas: string, name: string, port: string)

  /** A row of the SNMP answer; an empty name is an unused port. */
  datatype Row = Row(name: string, port: string)

  /** Whether the answer still shows the user on its port; conv turns a reported port into a tracked one. */
  predicate Reported(u: User, sd: seq<Row>, conv: string -> string) {
    exists j :: 0 <= j < |sd| && sd[j].name != "" && u.name == sd[j].name && u.port == conv(sd[j].port)
  }

  /** What the loop treats as gone: an entry of the polled device that is not reported. */
  predicate Gone(u: User, nas: string, sd: seq<Row>, conv: string -> string) {
    u.nas == nas && !Reported(u, sd, conv)
  }

  /** The entry stays: it belongs to another device, or some row of the answer has its name and its port. */
  ghost predicate Stays(u: User, nas: string, sd: seq<Row>, conv: string -> string) {
    u.nas != nas || (u.name != "" && exists r :: r in sd && r.name == u.name && conv(r.port) == u.port)
  }

  lemma GoneIff(u: User, nas: string, sd: seq<Row>, conv: string -> string)
    ensures Gone(u, nas, sd, conv) <==> !Stays(u, nas, sd, conv)
  {
    if j :| 0 <= j < |sd| && sd[j].name != "" && u.name == sd[j].name && u.port == conv(sd[j].port) {
      assert sd[j] in sd;
    }
  }

  /** Position of the first entry on a port. */
  function PortAt(l: seq<User>, p: string): (k: nat)
    ensures k <= |l| && (k < |l| ==> l[k].port == p) && forall i :: 0 <= i < k ==> l[i].port != p
  {
    if l == [] || l[0].port == p then 0 else 1 + PortAt(l[1..], p)
  }

  function Without(l: seq<User>, k: nat): seq<User>
    requires k < |l|
  {
    l[..k] + l[k + 1..]
  }

  /** The loop from index i on; gone says which entries have to go. */
  function Sweep(l: seq<User>, i: nat, gone: User -> bool): seq<User>
    decreases |l|, |l| - i
  {
    if i >= |l| then l
    else if gone(l[i]) then Sweep(Without(l, PortAt(l, l[i].port)), 1, gone)
    else Sweep(l, i + 1, gone)
  }

  function Stay(l: seq<User>, gone: User -> bool): seq<User> {
    if l == [] then [] else (if gone(l[0]) then [] else [l[0]]) + Stay(l[1..], gone)
  }

  /** What the loop is meant to leave, given that it resumes at 1: the entries that stay, and an unseen new head. */
  function Meant(l: seq<User>, gone: User -> bool): seq<User> {
    var b := Base(l, gone);
    if b == [] then [] else [b[0]] + Stay(b[1..], gone)
  }

  /** A gone head is dropped first; its successor becomes a head that is never looked at. */
  function Base(l: seq<User>, gone: User -> bool): seq<User> {
    if l != [] && gone(l[0]) then l[1..] else l
  }

  class DeviceData {
    var cusr: seq<User>

    constructor ()
      ensures cusr == []
    {
      cusr := [];
    }

    method Gets(n: nat) returns (r: Option<User>)
      ensures r == if n < |cusr| then Some(cusr[n]) else None
    {
      r := None;
      var count := 0;
      while count < |cusr|
        invariant count <= |cusr| && (count <= n || n >= |cusr|)
      {
        if count == n { return Some(cusr[count]); }
        count := count + 1;
      }
    }

    /** usr_del: the first entry on the port goes, whoever it is. */
    method UsrDel(p: string) returns (res: bool)
      modifies this
      ensures res == (PortAt(old(cusr), p) < |old(cusr)|)
      ensures cusr == if res then Without(old(cusr), PortAt(old(cusr), p)) else old(cusr)
    {
      var i := 0;
      while i < |cusr|
        invariant i <= |cusr| && cusr == old(cusr) && forall k :: 0 <= k < i ==> cusr[k].port != p
      {
        if cusr[i].port == p {
          cusr := cusr[..i] + cusr[i + 1..];
          return true;
        }
        i := i + 1;
      }
      res := false;
    }

    /** usr_add: a user already on the port is not added twice. */
    method UsrAdd(u: User) returns (ret: bool)
      modifies this
      ensures ret == (forall k :: 0 <= k < |old(cusr)| ==> old(cusr)[k].port != u.port || old(cusr)[k].name != u.name)
      ensures cusr == if ret then old(cusr) + [u] else old(cusr)
      ensures old(Distinct(cusr)) ==> Distinct(cusr)
    {
      var i := 0;
      while i < |cusr|
        invariant i <= |cusr| && cusr == old(cusr)
        invariant forall k :: 0 <= k < i ==> cusr[k].port != u.port || cusr[k].name != u.name
      {
        if cusr[i].port == u.port && cusr[i].name == u.name { return false; }
        i := i + 1;
      }
      cusr := cusr + [u];
      ret := true;
    }

    /** The second loop of periodicPolling. */
    method DropUnreported(nas: string, sd: seq<Row>, conv: string -> string)
      modifies this
      ensures cusr == Sweep(old(cusr), 0, u => Gone(u, nas, sd, conv))
      ensures forall k :: 1 <= k < |cusr| ==> Stays(cusr[k], nas, sd, conv)
      ensures forall u :: u in cusr ==> u in old(cusr)
      ensures OwnPorts(old(cusr)) ==> forall u :: u in old(cusr) && Stays(u, nas, sd, conv) ==> u in cusr
    {
      var iii := 0;
      ghost var gone := u => Gone(u, nas, sd, conv);
      while true
        invariant Sweep(cusr, iii, gone) == Sweep(old(cusr), 0, gone)
        decreases |cusr|, |cusr| - iii
      {
        var dutmp := Gets(iii);
        if dutmp.None? { break; }
        var u := dutmp.value;
        if nas == u.nas {
          var present := Present(u, sd, conv);
          if !present {
            var _ := UsrDel(u.port);
            iii := 0;
          }
        }
        iii := iii + 1;
      }
      SweepLeaves(old(cusr), nas, sd, conv);
    }
  }

  ghost predicate OwnPorts(l: seq<User>) {
    forall i, j :: 0 <= i < j < |l| ==> l[i].port != l[j].port
  }

  /** What the loop leaves, by the rows of the answer: past the head only entries that stay, none that is new, and with
      one user on a port all that stay. */
  lemma SweepLeaves(l: seq<User>, nas: string, sd: seq<Row>, conv: string -> string)
    ensures var r := Sweep(l, 0, u => Gone(u, nas, sd, conv));
            (forall k :: 1 <= k < |r| ==> Stays(r[k], nas, sd, conv)) && (forall u :: u in r ==> u in l) &&
            (OwnPorts(l) ==> forall u :: u in l && Stays(u, nas, sd, conv) ==> u in r)
  {
    hide Sweep, Gone, Stays;
    var gone := u => Gone(u, nas, sd, conv);
    var r := Sweep(l, 0, gone);
    PastHead(l, 0, gone);
    forall u: User ensures gone(u) <==> !Stays(u, nas, sd, conv) { GoneIff(u, nas, sd, conv); }
    SweepWithin(l, 0, gone);
    forall u | u in r ensures u in l {
      assert u in multiset(r);
      assert u in multiset(l);
    }
    if OwnPorts(l) {
      OnePerPort(l, gone);
      forall u | u in l && !gone(u) ensures u in r { MeantHas(l, u, gone); }
    }
  }

  lemma MeantHas(l: seq<User>, u: User, gone: User -> bool)
    requires u in l && !gone(u)
    ensures u in Meant(l, gone)
  {
    var b := Base(l, gone);
    assert b != [] && (u == b[0] || u in b[1..]);
    if u in b[1..] { StayHas(b[1..], u, gone); }
  }

  method Present(u: User, sd: seq<Row>, conv: string -> string) returns (present: bool)
    ensures present == Reported(u, sd, conv)
  {
    present := false;
    var j := 0;
    while j < |sd|
      invariant j <= |sd|
      invariant forall k :: 0 <= k < j ==> !(sd[k].name != "" && u.name == sd[k].name && u.port == conv(sd[k].port))
    {
      if sd[j].name != "" && u.name == sd[j].name && u.port == conv(sd[j].port) { return true; }
      j := j + 1;
    }
  }

  /** usr_add keeps this: no user is tracked twice on a port. */
  ghost predicate Distinct(l: seq<User>) {
    forall i, j :: 0 <= i < j < |l| ==> l[i].port != l[j].port || l[i].name != l[j].name
  }

  ghost predicate SeenStay(l: seq<User>, i: nat, gone: User -> bool) {
    forall k :: 1 <= k < i && k < |l| ==> !gone(l[k])
  }

  /** Whatever the ports, no entry past the head is left that should go. */
  lemma {:induction false} PastHead(l: seq<User>, i: nat, gone: User -> bool)
    requires SeenStay(l, i, gone)
    ensures forall k :: 1 <= k < |Sweep(l, i, gone)| ==> !gone(Sweep(l, i, gone)[k])
    decreases |l|, |l| - i
  {
    if i >= |l| {
    } else if gone(l[i]) {
      PastHead(Without(l, PortAt(l, l[i].port)), 1, gone);
    } else {
      PastHead(l, i + 1, gone);
    }
  }

  /** A gone entry past the head whose port is not first held by a user that stays, or by the unseen head. */
  ghost predicate Clashes(b: seq<User>, j: nat, k: nat, gone: User -> bool) {
    j < k < |b| && gone(b[k]) && b[j].port == b[k].port && (j == 0 || !gone(b[j]))
  }

  ghost predicate NoClash(b: seq<User>, gone: User -> bool) {
    forall j, k :: !Clashes(b, j, k, gone)
  }

  lemma WithoutLess(l: seq<User>, k: nat)
    requires k < |l|
    ensures multiset(Without(l, k)) <= multiset(l)
  {
    assert l == l[..k] + ([l[k]] + l[k + 1..]);
  }

  lemma {:induction false} SweepWithin(l: seq<User>, i: nat, gone: User -> bool)
    ensures multiset(Sweep(l, i, gone)) <= multiset(l)
    decreases |l|, |l| - i
  {
    if i >= |l| {
    } else if gone(l[i]) {
      var k := PortAt(l, l[i].port);
      SweepWithin(Without(l, k), 1, gone);
      WithoutLess(l, k);
    } else {
      SweepWithin(l, i + 1, gone);
    }
  }

  lemma {:induction false} StayHas(l: seq<User>, e: User, gone: User -> bool)
    requires e in l && !gone(e)
    ensures e in Stay(l, gone)
  {
    if l[0] != e { StayHas(l[1..], e, gone); }
  }

  lemma {:induction false} StayConcat(p: seq<User>, q: seq<User>, gone: User -> bool)
    ensures Stay(p + q, gone) == Stay(p, gone) + Stay(q, gone)
  {
    if p == [] {
      assert p + q == q;
    } else {
      assert (p + q)[1..] == p[1..] + q;
      StayConcat(p[1..], q, gone);
    }
  }

  lemma {:induction false} StayAll(l: seq<User>, gone: User -> bool)
    requires forall k :: 0 <= k < |l| ==> !gone(l[k])
    ensures Stay(l, gone) == l
  {
    if l != [] { StayAll(l[1..], gone); }
  }

  /** Dropping the examined entry itself changes neither what is meant nor whether ports clash. */
  lemma DropSelf(l: seq<User>, i: nat, gone: User -> bool)
    requires 1 <= i < |l| && gone(l[i])
    ensures var n := Without(l, i);
            [n[0]] + Stay(n[1..], gone) == [l[0]] + Stay(l[1..], gone)
  {
    var n := Without(l, i);
    var p, q := l[1..i], l[i + 1..];
    assert l[1..] == p + ([l[i]] + q) && n[1..] == p + q;
    StayConcat(p, [l[i]] + q, gone);
    StayConcat([l[i]], q, gone);
    StayConcat(p, q, gone);
  }

  lemma ClashSame(l: seq<User>, i: nat, gone: User -> bool)
    requires 1 <= i < |l| && gone(l[i]) && PortAt(l, l[i].port) == i
    ensures NoClash(Without(l, i), gone) <==> NoClash(l, gone)
  {
    hide PortAt;
    var n := Without(l, i);
    forall j: nat, k: nat | Clashes(n, j, k, gone) ensures !NoClash(l, gone) {
      assert Clashes(l, if j < i then j else j + 1, if k < i then k else k + 1, gone);
    }
    forall j: nat, k: nat | Clashes(l, j, k, gone) ensures !NoClash(n, gone) {
      assert k != i && j != i && j < k;
      assert Clashes(n, if j < i then j else j - 1, if k < i then k else k - 1, gone);
    }
  }

  /** Dropping another entry on the port loses one that is meant to stay. */
  lemma DropOther(l: seq<User>, i: nat, gone: User -> bool)
    requires 1 <= i < |l| && gone(l[i]) && SeenStay(l, i, gone) && PortAt(l, l[i].port) != i && Distinct(l)
    ensures Sweep(Without(l, PortAt(l, l[i].port)), 1, gone) != [l[0]] + Stay(l[1..], gone) && !NoClash(l, gone)
  {
    var j := PortAt(l, l[i].port);
    var n, e := Without(l, j), l[j];
    assert Clashes(l, j, i, gone);
    SweepWithin(n, 1, gone);
    assert e !in n;
    assert e !in multiset(n);
    assert e !in Sweep(n, 1, gone) by { assert e !in multiset(Sweep(n, 1, gone)); }
    assert e in [l[0]] + Stay(l[1..], gone) by {
      if j > 0 {
        assert l[1..][j - 1] == e;
        StayHas(l[1..], e, gone);
      }
    }
  }

  lemma {:induction false} SweepMeant(l: seq<User>, i: nat, gone: User -> bool)
    requires 1 <= i && l != [] && SeenStay(l, i, gone) && Distinct(l)
    ensures Sweep(l, i, gone) == [l[0]] + Stay(l[1..], gone) <==> NoClash(l, gone)
    decreases |l|, |l| - i
  {
    hide Distinct, NoClash;
    if i >= |l| {
      StayAll(l[1..], gone);
      assert NoClash(l, gone) by { AllStayNoClash(l, gone); }
    } else if !gone(l[i]) {
      SweepMeant(l, i + 1, gone);
    } else if PortAt(l, l[i].port) == i {
      DropSelf(l, i, gone);
      ClashSame(l, i, gone);
      DistinctWithout(l, i);
      SweepMeant(Without(l, i), 1, gone);
    } else {
      DropOther(l, i, gone);
    }
  }

  lemma AllStayNoClash(l: seq<User>, gone: User -> bool)
    requires forall k :: 1 <= k < |l| ==> !gone(l[k])
    ensures NoClash(l, gone)
  {
  }

  lemma DistinctWithout(l: seq<User>, i: nat)
    requires i < |l| && Distinct(l)
    ensures Distinct(Without(l, i))
  {
  }

  /**
   * The polling loop leaves what is meant exactly when no entry to be dropped shares its port with an earlier one
   * that stays or with the head that is not looked at: the deletion goes by port alone.
   */
  lemma PollingIff(l: seq<User>, gone: User -> bool)
    requires Distinct(l)
    ensures Sweep(l, 0, gone) == Meant(l, gone) <==> NoClash(Base(l, gone), gone)
  {
    hide Sweep, Stay;
    SweepStart(l, gone);
    var b := Base(l, gone);
    if b != [] {
      if l != [] && gone(l[0]) {
        assert b == Without(l, 0);
        DistinctWithout(l, 0);
      }
      SweepMeant(b, 1, gone);
    }
  }

  lemma SweepStart(l: seq<User>, gone: User -> bool)
    ensures Sweep(l, 0, gone) == if Base(l, gone) == [] then [] else Sweep(Base(l, gone), 1, gone)
  {
    if l != [] && gone(l[0]) {
      assert PortAt(l, l[0].port) == 0;
      assert Without(l, 0) == l[1..];
    }
  }

  /** With one user on a port the loop does what is meant; the head is left unresolved iff the first two should go. */
  lemma OnePerPort(l: seq<User>, gone: User -> bool)
    requires OwnPorts(l)
    ensures var r := Sweep(l, 0, gone);
            r == Meant(l, gone) && (r != [] && gone(r[0]) <==> |l| >= 2 && gone(l[0]) && gone(l[1]))
  {
    PollingIff(l, gone);
  }

  /** With two users on a port, the one that stays can be dropped in place of the one that should go. */
  lemma WrongUserDropped(a: User, b: User, gone: User -> bool)
    requires a.port == b.port && !gone(a) && gone(b)
    ensures Sweep([a, b], 0, gone) == [b]
  {
    var l := [a, b];
    assert PortAt(l, l[1].port) == 0;
    assert Without(l, 0) == [b];
    assert Sweep(l, 0, gone) == Sweep(l, 1, gone);
    assert Sweep(l, 1, gone) == Sweep([b], 1, gone);
  }
}
