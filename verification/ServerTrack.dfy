/** The servers of a bundle: tracking the neighbours, and which server thinks it is the active one. */
module ServerTrack {

  type Ip = nat

  /** 0.0.0.0, the address of the record for this server. */
  const UNKNOWN_IP: Ip := 0

  /** 127.0.0.1, what an address object made without arguments holds. */
  const LOCALHOST: Ip := 0x7F00_0001

  datatype Record = Record(ip: Ip, pri: int, time: int)

  predicate IsLocal(ip: Ip) {
    ip == LOCALHOST || ip == UNKNOWN_IP
  }

  // ----- the operations on a list of records

  /** Which record a packet refreshes: as coded the first one of the sender or of no address, as meant the sender's. */
  function Match(l: seq<Record>, ip: Ip, coded: bool): (k: nat)
    ensures k <= |l| && (k < |l| ==> l[k].ip == ip || (coded && l[k].ip == UNKNOWN_IP))
    ensures forall i :: 0 <= i < k ==> l[i].ip != ip && !(coded && l[i].ip == UNKNOWN_IP)
  {
    if l == [] || l[0].ip == ip || (coded && l[0].ip == UNKNOWN_IP) then 0 else 1 + Match(l[1..], ip, coded)
  }

  function Updated(l: seq<Record>, ip: Ip, p: int, now: int, coded: bool): seq<Record> {
    var k := Match(l, ip, coded);
    if k < |l| then l[k := Record(l[k].ip, p, now)] else l + [Record(ip, p, now)]
  }

  predicate Kept(r: Record, now: int) {
    IsLocal(r.ip) || now - r.time <= 31
  }

  /** checkTtl: three keepalive intervals and a second, never for this server. */
  function Checked(l: seq<Record>, now: int): seq<Record> {
    if l == [] then []
    else (if Kept(l[0], now) then [l[0]] else []) + Checked(l[1..], now)
  }

  /** The record that wins: the first of the highest priority, if that is positive. */
  ghost predicate Leads(l: seq<Record>, k: nat) {
    k < |l| && l[k].pri > 0 &&
    (forall i :: 0 <= i < k ==> l[i].pri < l[k].pri) && (forall i :: k < i < |l| ==> l[i].pri <= l[k].pri)
  }

  /** This server is active when its record leads, and also when no record has a positive priority. */
  ghost predicate Active(l: seq<Record>) {
    forall k: nat :: Leads(l, k) ==> IsLocal(l[k].ip)
  }

  lemma CheckedAt(l: seq<Record>, i: nat, now: int)
    requires i < |l|
    ensures Checked(l[i..], now) == (if Kept(l[i], now) then [l[i]] else []) + Checked(l[i + 1..], now)
    ensures Kept(l[i], now) ==> l[..i + 1] + Checked(l[i + 1..], now) == l[..i] + Checked(l[i..], now)
  {
    assert l[i..][1..] == l[i + 1..];
    assert l[..i + 1] == l[..i] + [l[i]];
  }

  lemma CheckedNone(now: int)
    ensures Checked([], now) == []
  {
  }

  /** The scan of isActive after i records: at is the best one so far, -1 for none. */
  ghost predicate Best(l: seq<Record>, i: nat, at: int, pri: int, ip: Ip) {
    i <= |l| && -1 <= at < i && (forall k :: 0 <= k < i ==> l[k].pri <= pri) &&
    (if at == -1 then pri == 0 && ip == LOCALHOST
     else pri == l[at].pri > 0 && ip == l[at].ip && forall k :: 0 <= k < at ==> l[k].pri < pri)
  }

  lemma BestActive(l: seq<Record>, at: int, pri: int, ip: Ip)
    requires Best(l, |l|, at, pri, ip)
    ensures Active(l) <==> IsLocal(ip)
  {
    if at >= 0 { OneLeads(l, at); }
  }

  class ServerTrackData {
    const ip: Ip
    var entryTime: int
    var priority: int

    constructor (ipa: Ip, p: int, now: int)
      ensures Value() == Record(ipa, p, now)
    {
      ip, priority, entryTime := ipa, p, now;
    }

    function Value(): Record
      reads this
    {
      Record(ip, priority, entryTime)
    }

    method Update(p: int, now: int)
      modifies this
      ensures Value() == Record(ip, p, now)
    {
      entryTime := now;
      priority := p;
    }
  }

  class ServerTrack {
    var csrv: seq<ServerTrackData>

    constructor ()
      ensures csrv == [] && Valid() && Records() == []
    {
      csrv := [];
    }

    ghost predicate Valid()
      reads this
    {
      forall i, j :: 0 <= i < j < |csrv| ==> csrv[i] != csrv[j]
    }

    ghost function Records(): seq<Record>
      reads this, csrv
    {
      seq(|csrv|, i requires 0 <= i < |csrv| reads this, csrv => csrv[i].Value())
    }

    /** sendStart: this server's own record, without an address, at the end of the list. */
    method SendStart(pri: int, now: int)
      requires Valid()
      modifies this
      ensures Valid() && Records() == old(Records()) + [Record(UNKNOWN_IP, pri, now)]
    {
      var tmp := new ServerTrackData(UNKNOWN_IP, pri, now);
      csrv := csrv + [tmp];
    }

    method CheckTtl(now: int)
      requires Valid()
      modifies this
      ensures Valid() && Records() == Checked(old(Records()), now)
      ensures forall r :: r in Records() <==> r in old(Records()) && (IsLocal(r.ip) || now <= r.time + 31)
    {
      hide Checked;
      ghost var was := Records();
      CheckedWithin(was, now);
      var i := 0;
      assert Records()[..0] == [] && Records()[0..] == was;
      while i < |csrv|
        invariant Valid() && i <= |csrv|
        invariant Records()[..i] + Checked(Records()[i..], now) == Checked(was, now)
        decreases |csrv| - i
      {
        ghost var l := Records();
        CheckedAt(l, i, now);
        var tmp := csrv[i];
        assert l[i] == tmp.Value();
        if !(tmp.ip == LOCALHOST || tmp.ip == UNKNOWN_IP) && now - tmp.entryTime > 31 {
          Erase(i);
          assert Records()[..i] == l[..i] && Records()[i..] == l[i + 1..];
        } else {
          i := i + 1;
        }
      }
      CheckedNone(now);
      assert Records()[i..] == [] && Records()[..i] == Records();
    }

    method Erase(i: nat)
      requires Valid() && i < |csrv|
      modifies this
      ensures Valid() && |csrv| == |old(csrv)| - 1
      ensures Records() == old(Records())[..i] + old(Records())[i + 1..]
    {
      csrv := csrv[..i] + csrv[i + 1..];
    }

    method Update(ipa: Ip, p: int, now: int)
      requires Valid()
      modifies this, csrv
      ensures Valid() && Records() == Updated(old(Records()), ipa, p, now, true)
    {
      ghost var l := Records();
      var i := 0;
      while i < |csrv|
        invariant i <= |csrv| && csrv == old(csrv) && Records() == l
        invariant forall k :: 0 <= k < i ==> l[k].ip != ipa && l[k].ip != UNKNOWN_IP
      {
        var tmp := csrv[i];
        assert tmp.Value() == l[i];
        if tmp.ip == ipa || tmp.ip == UNKNOWN_IP {
          assert Match(l, ipa, true) == i;
          tmp.Update(p, now);
          assert Records() == l[i := Record(l[i].ip, p, now)];
          return;
        }
        i := i + 1;
      }
      assert Match(l, ipa, true) == |l|;
      var tmp := new ServerTrackData(ipa, p, now);
      csrv := csrv + [tmp];
    }

    method IsActive() returns (b: bool)
      requires Valid()
      ensures b == Active(Records())
    {
      ghost var l := Records();
      var activepri, activeip := 0, LOCALHOST;
      ghost var at := -1;
      var i := 0;
      while i < |csrv|
        invariant i <= |csrv| && Best(l, i, at, activepri, activeip)
      {
        var tmp := csrv[i];
        assert tmp.Value() == l[i];
        if activepri < tmp.priority {
          activepri, activeip, at := tmp.priority, tmp.ip, i;
        }
        i := i + 1;
      }
      BestActive(l, at, activepri, activeip);
      b := activeip == LOCALHOST || activeip == UNKNOWN_IP;
    }
  }

  // ----- runs of one server

  datatype Event = Packet(ip: Ip, pri: int, time: int) | Tick(time: int)

  /** The list of a server that started with the given records. */
  function Run(start: seq<Record>, events: seq<Event>, coded: bool): seq<Record> {
    if events == [] then start
    else
      var l := Run(start, events[..|events| - 1], coded);
      match events[|events| - 1]
      case Packet(ip, p, t) => Updated(l, ip, p, t, coded)
      case Tick(t) => Checked(l, t)
  }

  /** As coded, a server that started on an empty list has one record for ever and always thinks it is active. */
  lemma {:induction false} AsCoded(pri: int, t0: int, events: seq<Event>)
    ensures var l := Run([Record(UNKNOWN_IP, pri, t0)], events, true);
            |l| == 1 && l[0].ip == UNKNOWN_IP && Active(l)
  {
    hide Checked;
    if events != [] {
      var front, e := Run([Record(UNKNOWN_IP, pri, t0)], events[..|events| - 1], true), events[|events| - 1];
      AsCoded(pri, t0, events[..|events| - 1]);
      assert front == [front[0]];
      if e.Tick? { AllKept(front, e.time); }
    }
  }

  ghost predicate HasIp(l: seq<Record>, ip: Ip) {
    exists k :: 0 <= k < |l| && l[k].ip == ip
  }

  /** As coded, once a record without an address is in the list no server is ever added to it. */
  lemma {:induction false} CodedNeverGrows(start: seq<Record>, events: seq<Event>)
    requires HasIp(start, UNKNOWN_IP)
    ensures var l := Run(start, events, true);
            HasIp(l, UNKNOWN_IP) && |l| <= |start| && forall ip :: HasIp(l, ip) ==> HasIp(start, ip)
  {
    if events != [] {
      CodedNeverGrows(start, events[..|events| - 1]);
      CodedStep(Run(start, events[..|events| - 1], true), events[|events| - 1]);
    }
  }

  lemma CodedStep(l: seq<Record>, e: Event)
    requires HasIp(l, UNKNOWN_IP)
    ensures var r := if e.Packet? then Updated(l, e.ip, e.pri, e.time, true) else Checked(l, e.time);
            HasIp(r, UNKNOWN_IP) && |r| <= |l| && forall ip :: HasIp(r, ip) ==> HasIp(l, ip)
  {
    var k :| 0 <= k < |l| && l[k].ip == UNKNOWN_IP;
    if e.Packet? {
      var r, m := Updated(l, e.ip, e.pri, e.time, true), Match(l, e.ip, true);
      assert m <= k && r[k].ip == UNKNOWN_IP;
      assert forall i :: 0 <= i < |r| ==> r[i].ip == l[i].ip;
    } else {
      CheckedWithin(l, e.time);
      var r := Checked(l, e.time);
      assert l[k] in r;
      forall ip | HasIp(r, ip) ensures HasIp(l, ip) {
        var i :| 0 <= i < |r| && r[i].ip == ip;
        assert r[i] in l;
      }
    }
  }

  lemma {:induction false} CheckedWithin(l: seq<Record>, now: int)
    ensures forall r :: r in Checked(l, now) <==> r in l && Kept(r, now)
    ensures |Checked(l, now)| <= |l|
  {
    if l != [] {
      CheckedWithin(l[1..], now);
      assert l == [l[0]] + l[1..];
    }
  }

  /** A server of a bundle: its address, its own priority, and what it has received. */
  datatype Server = Server(ip: Ip, pri: int, start: int, events: seq<Event>)

  ghost predicate ActiveIn(s: Server, coded: bool) {
    Active(Run([Record(UNKNOWN_IP, s.pri, s.start)], s.events, coded))
  }

  ghost predicate ExactlyOneActive(bundle: seq<Server>, coded: bool) {
    (exists i :: 0 <= i < |bundle| && ActiveIn(bundle[i], coded)) &&
    forall i, j :: 0 <= i < j < |bundle| ==> !(ActiveIn(bundle[i], coded) && ActiveIn(bundle[j], coded))
  }

  /** As coded a bundle has exactly one active server only when it has exactly one server. */
  lemma CodedLeaderIff(bundle: seq<Server>)
    ensures ExactlyOneActive(bundle, true) <==> |bundle| == 1
  {
    hide Active, Run;
    forall i | 0 <= i < |bundle| ensures ActiveIn(bundle[i], true) {
      AsCoded(bundle[i].pri, bundle[i].start, bundle[i].events);
    }
    if |bundle| == 1 { assert ActiveIn(bundle[0], true); }
    if |bundle| > 1 { assert ActiveIn(bundle[0], true) && ActiveIn(bundle[1], true); }
  }

  // ----- as meant: a packet refreshes its sender's record

  /** The time of the last packet from ip, if any. */
  function LastHeard(events: seq<Event>, ip: Ip): (t: (bool, int)) {
    if events == [] then (false, 0)
    else
      var e := events[|events| - 1];
      if e.Packet? && e.ip == ip then (true, e.time) else LastHeard(events[..|events| - 1], ip)
  }

  /** No neighbour that has been heard is silent for more than 31 seconds when the list is checked. */
  ghost predicate Timely(events: seq<Event>) {
    forall i, ip :: 0 <= i < |events| && events[i].Tick? && LastHeard(events[..i], ip).0 ==>
      events[i].time - LastHeard(events[..i], ip).1 <= 31
  }

  /** Packets come from other servers of the bundle and carry the sender's priority. */
  ghost predicate FromBundle(events: seq<Event>, pris: map<Ip, int>) {
    forall i :: 0 <= i < |events| && events[i].Packet? ==>
      events[i].ip in pris && events[i].pri == pris[events[i].ip] && !IsLocal(events[i].ip)
  }

  ghost predicate SilentFrom(events: seq<Event>, i: nat, ip: Ip) {
    forall j :: i <= j < |events| ==> !(events[j].Packet? && events[j].ip == ip)
  }

  /** Heard, and at every check since then not longer ago than 31 seconds. */
  ghost predicate Fresh(events: seq<Event>, ip: Ip) {
    LastHeard(events, ip).0 && forall i :: 0 <= i < |events| && events[i].Tick? && SilentFrom(events, i, ip) ==>
      events[i].time - LastHeard(events, ip).1 <= 31
  }

  ghost predicate Lists(l: seq<Record>, ip: Ip) {
    exists k :: 0 <= k < |l| && l[k].ip == ip && ip != UNKNOWN_IP
  }

  /** Each server once: this one, and others with their priority and the time they were last heard. */
  ghost predicate Sound(l: seq<Record>, me: int, events: seq<Event>, pris: map<Ip, int>) {
    (exists k :: 0 <= k < |l| && l[k].ip == UNKNOWN_IP && l[k].pri == me) &&
    (forall i, j :: 0 <= i < j < |l| ==> l[i].ip != l[j].ip) &&
    (forall k :: 0 <= k < |l| && l[k].ip != UNKNOWN_IP ==>
       l[k].ip in pris && l[k].pri == pris[l[k].ip] && !IsLocal(l[k].ip) &&
       LastHeard(events, l[k].ip) == (true, l[k].time))
  }

  /** The list tracks this server and exactly the neighbours that are fresh. */
  ghost predicate Tracks(l: seq<Record>, me: int, events: seq<Event>, pris: map<Ip, int>) {
    Sound(l, me, events, pris) && forall ip :: Lists(l, ip) <==> Fresh(events, ip)
  }

  /** As meant, whatever the timing, a server tracks itself and exactly the neighbours that are fresh. */
  lemma {:induction false} RunTracks(start: int, me: int, events: seq<Event>, pris: map<Ip, int>)
    requires FromBundle(events, pris)
    ensures Tracks(Run([Record(UNKNOWN_IP, me, start)], events, false), me, events, pris)
  {
    hide Sound, Lists, Fresh, Updated, Checked;
    var s := [Record(UNKNOWN_IP, me, start)];
    if events == [] {
      NoneTracked(start, me, pris);
    } else {
      var n := |events| - 1;
      var front, e := events[..n], events[n];
      assert forall i :: 0 <= i < n ==> front[i] == events[i];
      RunTracks(start, me, front, pris);
      var l := Run(s, front, false);
      assert events == front + [e];
      if e.Packet? {
        PacketTracks(l, me, front, pris, e);
      } else {
        TickTracks(l, me, front, pris, e);
      }
    }
  }

  lemma NoneTracked(start: int, me: int, pris: map<Ip, int>)
    ensures Tracks([Record(UNKNOWN_IP, me, start)], me, [], pris)
  {
    assert [Record(UNKNOWN_IP, me, start)][0].ip == UNKNOWN_IP;
  }

  lemma FreshMore(front: seq<Event>, e: Event, ip: Ip)
    ensures Fresh(front + [e], ip) <==>
            (e.Packet? && e.ip == ip) ||
            (Fresh(front, ip) && (e.Tick? ==> e.time - LastHeard(front, ip).1 <= 31))
  {
    hide LastHeard;
    var n, all := |front|, front + [e];
    HeardMore(front, e);
    if e.Packet? && e.ip == ip {
      assert forall i :: 0 <= i <= n && SilentFrom(all, i, ip) ==> all[n].ip != ip;
    } else {
      forall i: nat | i < n ensures SilentFrom(all, i, ip) <==> SilentFrom(front, i, ip) {
        SilentMore(front, e, i, ip);
      }
      assert SilentFrom(all, n, ip);
      assert forall i :: 0 <= i < n ==> all[i] == front[i];
    }
  }

  lemma SilentMore(front: seq<Event>, e: Event, i: nat, ip: Ip)
    requires i <= |front| && !(e.Packet? && e.ip == ip)
    ensures SilentFrom(front + [e], i, ip) <==> SilentFrom(front, i, ip)
  {
    var all := front + [e];
    assert forall j :: 0 <= j < |front| ==> all[j] == front[j];
  }

  lemma PacketTracks(l: seq<Record>, me: int, front: seq<Event>, pris: map<Ip, int>, e: Event)
    requires Tracks(l, me, front, pris) && e.Packet? && e.ip in pris && e.pri == pris[e.ip] && !IsLocal(e.ip)
    ensures Tracks(Updated(l, e.ip, e.pri, e.time, false), me, front + [e], pris)
  {
    hide Match, Fresh, LastHeard, Lists, Sound;
    var r := Updated(l, e.ip, e.pri, e.time, false);
    PacketSound(l, me, front, pris, e);
    forall ip ensures Lists(r, ip) <==> Fresh(front + [e], ip) {
      FreshMore(front, e, ip);
      PacketLists(l, e, ip);
    }
  }

  lemma PacketSound(l: seq<Record>, me: int, front: seq<Event>, pris: map<Ip, int>, e: Event)
    requires Sound(l, me, front, pris) && e.Packet? && e.ip in pris && e.pri == pris[e.ip] && !IsLocal(e.ip)
    ensures Sound(Updated(l, e.ip, e.pri, e.time, false), me, front + [e], pris)
  {
    hide Match;
    var r := Updated(l, e.ip, e.pri, e.time, false);
    HeardMore(front, e);
    var m :| 0 <= m < |l| && l[m].ip == UNKNOWN_IP && l[m].pri == me;
    assert r[m] == l[m];
  }

  lemma PacketLists(l: seq<Record>, e: Event, ip: Ip)
    requires e.Packet? && !IsLocal(e.ip)
    ensures Lists(Updated(l, e.ip, e.pri, e.time, false), ip) <==> Lists(l, ip) || ip == e.ip
  {
    hide Match;
    var r, k := Updated(l, e.ip, e.pri, e.time, false), Match(l, e.ip, false);
    assert r[k].ip == e.ip;
    assert forall j :: 0 <= j < |l| ==> r[j].ip == l[j].ip;
  }

  lemma HeardMore(front: seq<Event>, e: Event)
    ensures forall ip :: LastHeard(front + [e], ip) ==
                         if e.Packet? && e.ip == ip then (true, e.time) else LastHeard(front, ip)
  {
    assert (front + [e])[..|front|] == front;
  }

  lemma {:induction false} AllKept(l: seq<Record>, now: int)
    requires forall k :: 0 <= k < |l| ==> Kept(l[k], now)
    ensures Checked(l, now) == l
  {
    if l != [] { AllKept(l[1..], now); }
  }

  lemma {:induction false} CheckedDistinct(l: seq<Record>, now: int)
    requires forall i, j :: 0 <= i < j < |l| ==> l[i].ip != l[j].ip
    ensures var r := Checked(l, now); forall i, j :: 0 <= i < j < |r| ==> r[i].ip != r[j].ip
  {
    if l != [] {
      CheckedDistinct(l[1..], now);
      CheckedWithin(l[1..], now);
      var rest := Checked(l[1..], now);
      forall j | 0 <= j < |rest| ensures rest[j].ip != l[0].ip { assert rest[j] in l[1..]; }
    }
  }

  lemma TickTracks(l: seq<Record>, me: int, front: seq<Event>, pris: map<Ip, int>, e: Event)
    requires Tracks(l, me, front, pris) && e.Tick?
    ensures Tracks(Checked(l, e.time), me, front + [e], pris)
  {
    hide Checked, Fresh, LastHeard, Lists, Sound;
    var r := Checked(l, e.time);
    TickSound(l, me, front, pris, e);
    forall ip ensures Lists(r, ip) <==> Fresh(front + [e], ip) {
      FreshMore(front, e, ip);
      TickLists(l, me, front, pris, e, ip);
    }
  }

  lemma TickSound(l: seq<Record>, me: int, front: seq<Event>, pris: map<Ip, int>, e: Event)
    requires Sound(l, me, front, pris) && e.Tick?
    ensures Sound(Checked(l, e.time), me, front + [e], pris)
  {
    hide Checked;
    var r := Checked(l, e.time);
    CheckedWithin(l, e.time);
    CheckedDistinct(l, e.time);
    HeardMore(front, e);
    var m :| 0 <= m < |l| && l[m].ip == UNKNOWN_IP && l[m].pri == me;
    assert l[m] in r;
    assert forall k :: 0 <= k < |r| ==> r[k] in l;
  }

  lemma TickLists(l: seq<Record>, me: int, front: seq<Event>, pris: map<Ip, int>, e: Event, ip: Ip)
    requires Sound(l, me, front, pris) && e.Tick?
    ensures Lists(Checked(l, e.time), ip) <==> Lists(l, ip) && e.time - LastHeard(front, ip).1 <= 31
  {
    hide Checked;
    var r := Checked(l, e.time);
    CheckedWithin(l, e.time);
    if Lists(r, ip) {
      var k :| 0 <= k < |r| && r[k].ip == ip;
      assert r[k] in r && r[k] in l;
    }
    if Lists(l, ip) && e.time - LastHeard(front, ip).1 <= 31 {
      var k :| 0 <= k < |l| && l[k].ip == ip;
      assert l[k] in r;
    }
  }

  // ----- which neighbours are tracked, by the times of their packets

  lemma {:induction false} SilentSame(events: seq<Event>, i: nat, ip: Ip)
    requires i <= |events| && SilentFrom(events, i, ip)
    ensures LastHeard(events[..i], ip) == LastHeard(events, ip)
  {
    if i == |events| {
      assert events[..i] == events;
    } else {
      var front := events[..|events| - 1];
      assert front[..i] == events[..i];
      SilentSame(front, i, ip);
    }
  }

  /** With timely packets the fresh neighbours are all that have ever been heard. */
  lemma TimelyFresh(events: seq<Event>, ip: Ip)
    requires Timely(events)
    ensures Fresh(events, ip) <==> LastHeard(events, ip).0
  {
    hide LastHeard, SilentFrom;
    if LastHeard(events, ip).0 {
      forall i | 0 <= i < |events| && events[i].Tick? && SilentFrom(events, i, ip)
        ensures events[i].time - LastHeard(events, ip).1 <= 31
      {
        SilentSame(events, i, ip);
      }
    }
  }

  /** The last event is a check, and none before it was later. */
  ghost predicate EndsInCheck(events: seq<Event>) {
    events != [] && events[|events| - 1].Tick? &&
    forall i :: 0 <= i < |events| && events[i].Tick? ==> events[i].time <= events[|events| - 1].time
  }

  /** The last packet from ip is at most 31 seconds older than the last event. */
  ghost predicate HeardLately(events: seq<Event>, ip: Ip)
    requires events != []
  {
    LastHeard(events, ip).0 && events[|events| - 1].time - LastHeard(events, ip).1 <= 31
  }

  lemma CheckedFresh(events: seq<Event>, ip: Ip)
    requires EndsInCheck(events)
    ensures Fresh(events, ip) <==> HeardLately(events, ip)
  {
    hide LastHeard;
    assert SilentFrom(events, |events| - 1, ip);
  }

  /** As meant, after a check the list holds this server and exactly the neighbours whose last packet is at most 31
      seconds old. */
  lemma AfterCheck(start: int, me: int, events: seq<Event>, pris: map<Ip, int>, ip: Ip)
    requires FromBundle(events, pris) && EndsInCheck(events) && ip != UNKNOWN_IP
    ensures var l := Run([Record(UNKNOWN_IP, me, start)], events, false);
            (exists k :: 0 <= k < |l| && l[k].ip == UNKNOWN_IP && l[k].pri == me) &&
            ((exists k :: 0 <= k < |l| && l[k].ip == ip) <==> HeardLately(events, ip))
  {
    hide Run, LastHeard, Fresh, HeardLately;
    RunTracks(start, me, events, pris);
    CheckedFresh(events, ip);
  }

  // ----- which server leads

  /** The server is known to the others of its bundle, and its packets come from there. */
  ghost predicate Known(s: Server, pris: map<Ip, int>) {
    FromBundle(s.events, pris) && s.ip in pris && pris[s.ip] == s.pri && s.pri > 0 && !IsLocal(s.ip)
  }

  /** ip belongs to another server than the i-th. */
  ghost predicate IsOther(bundle: seq<Server>, i: nat, ip: Ip) {
    exists j :: 0 <= j < |bundle| && j != i && bundle[j].ip == ip
  }

  /** Every server has heard every other one, and nobody else, and knows its priority. */
  ghost predicate Linked(bundle: seq<Server>, pris: map<Ip, int>) {
    forall i :: 0 <= i < |bundle| ==>
      Known(bundle[i], pris) && forall ip :: LastHeard(bundle[i].events, ip).0 <==> IsOther(bundle, i, ip)
  }

  /** And every server that has been heard is heard again in time. */
  ghost predicate Connected(bundle: seq<Server>, pris: map<Ip, int>) {
    Linked(bundle, pris) && forall i :: 0 <= i < |bundle| ==> Timely(bundle[i].events)
  }

  /** Every server tracks exactly the others. */
  ghost predicate Mutual(bundle: seq<Server>, pris: map<Ip, int>) {
    forall i :: 0 <= i < |bundle| ==>
      Known(bundle[i], pris) && forall ip :: Fresh(bundle[i].events, ip) <==> IsOther(bundle, i, ip)
  }

  /** Every server has just checked its list, and of all the neighbours it ever heard it has heard exactly the others
      here in the last 31 seconds. */
  ghost predicate Surviving(bundle: seq<Server>, pris: map<Ip, int>) {
    forall i :: 0 <= i < |bundle| ==>
      Known(bundle[i], pris) && EndsInCheck(bundle[i].events) &&
      forall ip :: HeardLately(bundle[i].events, ip) <==> IsOther(bundle, i, ip)
  }

  lemma ConnectedMutual(bundle: seq<Server>, pris: map<Ip, int>)
    requires Connected(bundle, pris)
    ensures Mutual(bundle, pris)
  {
    hide Timely, Fresh, LastHeard, Known, IsOther;
    forall i, ip | 0 <= i < |bundle| ensures Fresh(bundle[i].events, ip) <==> IsOther(bundle, i, ip) {
      TimelyFresh(bundle[i].events, ip);
    }
  }

  lemma SurvivingMutual(bundle: seq<Server>, pris: map<Ip, int>)
    requires Surviving(bundle, pris)
    ensures Mutual(bundle, pris)
  {
    hide EndsInCheck, Fresh, HeardLately, Known, IsOther;
    forall i, ip | 0 <= i < |bundle| ensures Fresh(bundle[i].events, ip) <==> IsOther(bundle, i, ip) {
      CheckedFresh(bundle[i].events, ip);
    }
  }

  /** The record stands for another server than the i-th. */
  ghost predicate ForOther(r: Record, bundle: seq<Server>, i: nat) {
    !IsLocal(r.ip) && exists j :: 0 <= j < |bundle| && j != i && bundle[j].pri == r.pri
  }

  /** Some record of another server has this priority. */
  ghost predicate HasRecord(l: seq<Record>, pri: int) {
    exists k :: 0 <= k < |l| && l[k].ip != UNKNOWN_IP && l[k].pri == pri
  }

  /** The records other than this server's stand for the other servers, and each of those has one. */
  ghost predicate Mirrors(l: seq<Record>, m: nat, bundle: seq<Server>, i: nat) {
    m < |l| && i < |bundle| && l[m].ip == UNKNOWN_IP && l[m].pri == bundle[i].pri > 0 &&
    (forall k: nat :: k < |l| && k != m ==> ForOther(l[k], bundle, i)) &&
    (forall j: nat :: j < |bundle| && j != i ==> HasRecord(l, bundle[j].pri))
  }

  lemma RecordHasServer(l: seq<Record>, k: nat, bundle: seq<Server>, pris: map<Ip, int>, i: nat)
    requires Mutual(bundle, pris) && i < |bundle| && Tracks(l, bundle[i].pri, bundle[i].events, pris)
    requires k < |l| && l[k].ip != UNKNOWN_IP
    ensures ForOther(l[k], bundle, i)
  {
    hide Fresh, FromBundle, LastHeard;
    assert Lists(l, l[k].ip);
    var j :| 0 <= j < |bundle| && j != i && bundle[j].ip == l[k].ip;
    assert bundle[j].pri == pris[bundle[j].ip];
  }

  lemma ServerHasRecord(l: seq<Record>, j: nat, bundle: seq<Server>, pris: map<Ip, int>, i: nat)
    requires Mutual(bundle, pris) && i < |bundle| && Tracks(l, bundle[i].pri, bundle[i].events, pris)
    requires j < |bundle| && j != i
    ensures HasRecord(l, bundle[j].pri)
  {
    hide Fresh, FromBundle, LastHeard;
    assert IsOther(bundle, i, bundle[j].ip) && Lists(l, bundle[j].ip);
    var k :| 0 <= k < |l| && l[k].ip == bundle[j].ip;
    assert l[k].pri == pris[bundle[j].ip] == bundle[j].pri;
  }

  lemma ListMirrors(bundle: seq<Server>, pris: map<Ip, int>, i: nat) returns (m: nat)
    requires Mutual(bundle, pris) && i < |bundle|
    ensures var s := bundle[i];
            Mirrors(Run([Record(UNKNOWN_IP, s.pri, s.start)], s.events, false), m, bundle, i)
  {
    hide Run, Fresh, FromBundle, Tracks;
    var s := bundle[i];
    var l := Run([Record(UNKNOWN_IP, s.pri, s.start)], s.events, false);
    RunTracks(s.start, s.pri, s.events, pris);
    m := TrackedMirrors(l, bundle, pris, i);
  }

  lemma TrackedMirrors(l: seq<Record>, bundle: seq<Server>, pris: map<Ip, int>, i: nat) returns (m: nat)
    requires Mutual(bundle, pris) && i < |bundle| && Tracks(l, bundle[i].pri, bundle[i].events, pris)
    ensures Mirrors(l, m, bundle, i)
  {
    m := OwnRecord(l, bundle[i].pri, bundle[i].events, pris);
    assert bundle[i].pri > 0;
    hide Tracks, Mutual, ForOther, HasRecord;
    forall k: nat | k < |l| && k != m ensures ForOther(l[k], bundle, i) { RecordHasServer(l, k, bundle, pris, i); }
    forall j: nat | j < |bundle| && j != i ensures HasRecord(l, bundle[j].pri) {
      ServerHasRecord(l, j, bundle, pris, i);
    }
  }

  lemma OwnRecord(l: seq<Record>, me: int, events: seq<Event>, pris: map<Ip, int>) returns (m: nat)
    requires Tracks(l, me, events, pris)
    ensures m < |l| && l[m].ip == UNKNOWN_IP && l[m].pri == me
    ensures forall k :: 0 <= k < |l| && k != m ==> l[k].ip != UNKNOWN_IP
  {
    m :| 0 <= m < |l| && l[m].ip == UNKNOWN_IP && l[m].pri == me;
    forall k | 0 <= k < |l| && k != m ensures l[k].ip != UNKNOWN_IP {
      assert l[if k < m then k else m].ip != l[if k < m then m else k].ip;
    }
  }

  lemma MirrorActive(l: seq<Record>, m: nat, bundle: seq<Server>, i: nat)
    requires Mirrors(l, m, bundle, i)
    requires forall a, b :: 0 <= a < b < |bundle| ==> bundle[a].pri != bundle[b].pri
    ensures Active(l) <==> forall j :: 0 <= j < |bundle| && j != i ==> bundle[j].pri < bundle[i].pri
  {
    var top := Top(l, m);
    OneLeads(l, top);
    if top == m {
      LeaderIsHighest(l, m, bundle, i);
    } else {
      assert ForOther(l[top], bundle, i);
      var j :| 0 <= j < |bundle| && j != i && bundle[j].pri == l[top].pri;
      assert bundle[j].pri >= bundle[i].pri;
      assert !IsLocal(l[top].ip);
    }
  }

  lemma OneLeads(l: seq<Record>, top: nat)
    requires Leads(l, top)
    ensures Active(l) <==> IsLocal(l[top].ip)
  {
    assert forall k: nat :: Leads(l, k) ==> k == top;
  }

  lemma LeaderIsHighest(l: seq<Record>, m: nat, bundle: seq<Server>, i: nat)
    requires Mirrors(l, m, bundle, i) && Leads(l, m)
    requires forall a, b :: 0 <= a < b < |bundle| ==> bundle[a].pri != bundle[b].pri
    ensures forall j :: 0 <= j < |bundle| && j != i ==> bundle[j].pri < bundle[i].pri
  {
    forall j: nat | j < |bundle| && j != i ensures bundle[j].pri < bundle[i].pri {
      assert HasRecord(l, bundle[j].pri);
      var k :| 0 <= k < |l| && l[k].ip != UNKNOWN_IP && l[k].pri == bundle[j].pri;
      assert l[k].pri <= l[m].pri;
      assert bundle[j].pri != bundle[i].pri;
    }
  }

  /** As meant, a server that tracks exactly the others is active exactly when its priority is the highest. */
  lemma ActiveIff(bundle: seq<Server>, pris: map<Ip, int>, i: nat)
    requires Mutual(bundle, pris) && i < |bundle|
    requires forall a, b :: 0 <= a < b < |bundle| ==> bundle[a].pri != bundle[b].pri
    ensures ActiveIn(bundle[i], false) <==> forall j :: 0 <= j < |bundle| && j != i ==> bundle[j].pri < bundle[i].pri
  {
    hide Run, Mutual, Active, Mirrors;
    var s := bundle[i];
    var m := ListMirrors(bundle, pris, i);
    MirrorActive(Run([Record(UNKNOWN_IP, s.pri, s.start)], s.events, false), m, bundle, i);
  }

  /** Some record leads when one has a positive priority. */
  lemma {:induction false} Top(l: seq<Record>, k: nat) returns (top: nat)
    requires k < |l| && l[k].pri > 0
    ensures Leads(l, top) && l[top].pri >= l[k].pri
  {
    top := k;
    var i := 0;
    while i < |l|
      invariant i <= |l| && top < |l| && l[top].pri >= l[k].pri > 0
      invariant top < i || top == k
      invariant forall j :: 0 <= j < i ==> l[j].pri <= l[top].pri
      invariant forall j :: 0 <= j < i && j < top ==> l[j].pri < l[top].pri
    {
      if l[i].pri > l[top].pri || (l[i].pri == l[top].pri && i < top) { top := i; }
      i := i + 1;
    }
  }

  lemma OneActive(bundle: seq<Server>, pris: map<Ip, int>)
    requires Mutual(bundle, pris) && bundle != []
    requires forall a, b :: 0 <= a < b < |bundle| ==> bundle[a].pri != bundle[b].pri
    ensures ExactlyOneActive(bundle, false)
  {
    hide Mutual, ActiveIn;
    var top := 0;
    var n := 0;
    while n < |bundle|
      invariant n <= |bundle| && 0 <= top < |bundle|
      invariant forall j :: 0 <= j < n ==> bundle[j].pri <= bundle[top].pri
    {
      if bundle[n].pri > bundle[top].pri { top := n; }
      n := n + 1;
    }
    ActiveIff(bundle, pris, top);
    assert ActiveIn(bundle[top], false) by {
      forall j | 0 <= j < |bundle| && j != top ensures bundle[j].pri < bundle[top].pri {}
    }
    forall i, j | 0 <= i < j < |bundle| ensures !(ActiveIn(bundle[i], false) && ActiveIn(bundle[j], false)) {
      ActiveIff(bundle, pris, i);
      ActiveIff(bundle, pris, j);
    }
  }

  /** As meant, with positive and distinct priorities, exactly one server of a connected bundle is active. */
  lemma MeantSingleLeader(bundle: seq<Server>, pris: map<Ip, int>)
    requires Connected(bundle, pris) && bundle != []
    requires forall a, b :: 0 <= a < b < |bundle| ==> bundle[a].pri != bundle[b].pri
    ensures ExactlyOneActive(bundle, false)
  {
    hide Connected, Mutual, ExactlyOneActive;
    ConnectedMutual(bundle, pris);
    OneActive(bundle, pris);
  }

  /** As meant, once others have been silent for more than 31 seconds at a check, whatever their priorities, the
      highest of the servers still heard is the active one, and no other. */
  lemma Takeover(bundle: seq<Server>, pris: map<Ip, int>)
    requires Surviving(bundle, pris) && bundle != []
    requires forall a, b :: 0 <= a < b < |bundle| ==> bundle[a].pri != bundle[b].pri
    ensures ExactlyOneActive(bundle, false)
    ensures forall i :: 0 <= i < |bundle| ==>
              (ActiveIn(bundle[i], false) <==>
               forall j :: 0 <= j < |bundle| && j != i ==> bundle[j].pri < bundle[i].pri)
  {
    hide Surviving, Mutual, ExactlyOneActive, ActiveIn;
    SurvivingMutual(bundle, pris);
    OneActive(bundle, pris);
    forall i | 0 <= i < |bundle|
      ensures ActiveIn(bundle[i], false) <==> forall j :: 0 <= j < |bundle| && j != i ==> bundle[j].pri < bundle[i].pri
    {
      ActiveIff(bundle, pris, i);
    }
  }
}
