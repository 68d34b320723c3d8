/** The keepalives of a bundle server and the packets it accepts. */
module Bundle {
  import opened ServerTrack

  datatype PacketType = DeviceTrack | UserTrack | Keepalive | Start | Other

  class CoreBundle {
    var mgroup: Ip
    var port: int
    var keepaliveTime: int

    constructor (now: int)
      ensures mgroup == UNKNOWN_IP && keepaliveTime == now
    {
      mgroup, port, keepaliveTime := UNKNOWN_IP, 0, now;
    }

    predicate IsBundle()
      reads this
    {
      mgroup != UNKNOWN_IP
    }

    /** periodic: neighbours are checked, and a keepalive is sent at most every 10 seconds. */
    method Periodic(track: ServerTrack, checkTime: int, t: int) returns (sent: bool)
      requires track.Valid()
      modifies this`keepaliveTime, track
      ensures track.Valid() && track.Records() == Checked(old(track.Records()), checkTime)
      ensures sent == (IsBundle() && Due(old(keepaliveTime), t))
      ensures keepaliveTime == if sent then t else old(keepaliveTime)
    {
      track.CheckTtl(checkTime);
      sent := false;
      if IsBundle() {
        if t - keepaliveTime >= 10 {
          keepaliveTime := t;
          sent := true;
        }
      }
    }

    /**
     * BundleProcessor: a packet to the bundle's port updates the sender's record, whatever its known type;
     * a starting neighbour is told everything if this server is active. The server track is updated first.
     */
    method Process(track: ServerTrack, ip: Ip, toPort: int, kind: PacketType, pri: int, now: int) returns (tell: bool)
      requires track.Valid()
      modifies track, track.csrv
      ensures track.Valid()
      ensures var known := IsBundle() && toPort == port && kind != Other;
              track.Records() ==
                (if known then Updated(old(track.Records()), ip, pri, now, true) else old(track.Records())) &&
              tell == (known && kind == Start && Active(track.Records()))
    {
      tell := false;
      if !IsBundle() || toPort != port { return; }
      match kind
      case DeviceTrack => track.Update(ip, pri, now);
      case UserTrack => track.Update(ip, pri, now);
      case Keepalive => track.Update(ip, pri, now);
      case Start =>
        track.Update(ip, pri, now);
        tell := track.IsActive();
      case Other =>
    }
  }

  predicate Due(last: int, t: int) {
    t - last >= 10
  }

  /** The times a keepalive is sent, by the times periodic is called, after one sent at time last. */
  function Sends(last: int, calls: seq<int>): seq<int>
    decreases calls
  {
    if calls == [] then []
    else if Due(last, calls[0]) then [calls[0]] + Sends(calls[0], calls[1..])
    else Sends(last, calls[1..])
  }

  /** Calls follow one another, and the time from, by at most g seconds. */
  ghost predicate Regular(from: int, calls: seq<int>, g: nat) {
    (calls != [] ==> from <= calls[0] <= from + g) &&
    forall i :: 0 <= i < |calls| - 1 ==> calls[i] <= calls[i + 1] <= calls[i] + g
  }

  /** Keepalives are at least 10 and at most 9 + g seconds apart when periodic runs every g seconds. */
  lemma {:induction false} SendGap(last: int, at: int, calls: seq<int>, g: nat)
    requires g >= 1 && last <= at < last + 10 && Regular(at, calls, g)
    ensures var s := [last] + Sends(last, calls);
            (forall i :: 0 <= i < |s| - 1 ==> 10 <= s[i + 1] - s[i] <= 9 + g) &&
            (calls != [] ==> s[|s| - 1] <= calls[|calls| - 1] < s[|s| - 1] + 10)
    decreases calls
  {
    if calls != [] {
      var c, rest := calls[0], calls[1..];
      assert rest != [] ==> rest[0] == calls[1] && rest[|rest| - 1] == calls[|calls| - 1];
      if Due(last, c) {
        SendGap(c, c, rest, g);
        var s, t := [last] + Sends(last, calls), [c] + Sends(c, rest);
        assert s == [last] + t;
        assert forall i :: 0 < i < |s| - 1 ==> s[i] == t[i - 1] && s[i + 1] == t[i];
      } else {
        SendGap(last, c, rest, g);
      }
    }
  }

  /** Of keepalives sent at times s, numbers ks arrive at times at: at most two in a row are lost, none is late by
      more than a second. */
  ghost predicate Delivered(s: seq<int>, ks: seq<nat>, at: seq<int>) {
    |ks| == |at| &&
    (forall m :: 0 <= m < |ks| ==> ks[m] < |s| && s[ks[m]] <= at[m] <= s[ks[m]] + 1) &&
    (forall m :: 0 <= m < |ks| - 1 ==> ks[m] < ks[m + 1] <= ks[m] + 3)
  }

  /** The times of the packets from ip. */
  function HeardAt(events: seq<Event>, ip: Ip): seq<int> {
    if events == [] then []
    else
      var e := events[|events| - 1];
      HeardAt(events[..|events| - 1], ip) + if e.Packet? && e.ip == ip then [e.time] else []
  }

  /** A server's events are in the order of time: before a check, the arrivals up to then, and it is not later than
      the arrival that comes next. */
  ghost predicate InTimeOrder(events: seq<Event>, ip: Ip, at: seq<int>) {
    forall i :: 0 <= i < |events| && events[i].Tick? && HeardAt(events[..i], ip) != [] ==>
      var n := |HeardAt(events[..i], ip)|;
      n < |at| && HeardAt(events[..i], ip) == at[..n] && events[i].time <= at[n]
  }

  lemma {:induction false} LastIsLast(events: seq<Event>, ip: Ip)
    ensures var h := HeardAt(events, ip);
            LastHeard(events, ip) == if h == [] then (false, 0) else (true, h[|h| - 1])
  {
    if events != [] { LastIsLast(events[..|events| - 1], ip); }
  }

  /** Keepalive number k arrives at s[k] + d, and the next that arrives is number m: at most 31 seconds later. */
  lemma HeardInTime(s: seq<int>, k: nat, m: nat, d: nat, e: nat)
    requires forall i :: 0 <= i < |s| - 1 ==> s[i + 1] - s[i] <= 10
    requires k < m <= k + 3 && m < |s| && e <= 1
    ensures (s[m] + e) - (s[k] + d) <= 31
  {
    assert s[k + 1] - s[k] <= 10;
    assert m > k + 1 ==> s[k + 2] - s[k + 1] <= 10;
    assert m > k + 2 ==> s[k + 3] - s[k + 2] <= 10;
  }

  /** A neighbour runs periodic every second, from a keepalive sent at time start on, and its keepalives get through
      to the receiver of these events. */
  ghost predicate Steady(events: seq<Event>, ip: Ip, start: int, calls: seq<int>) {
    Regular(start, calls, 1) &&
    exists ks, at :: Delivered([start] + Sends(start, calls), ks, at) && InTimeOrder(events, ip, at)
  }

  /** Such a neighbour is never silent for more than 31 seconds at a check. */
  lemma SteadyTimely(events: seq<Event>, ip: Ip, start: int, calls: seq<int>, i: nat)
    requires Steady(events, ip, start, calls)
    requires i < |events| && events[i].Tick? && LastHeard(events[..i], ip).0
    ensures events[i].time - LastHeard(events[..i], ip).1 <= 31
  {
    hide HeardAt, LastHeard, Regular;
    var s := [start] + Sends(start, calls);
    var ks, at :| Delivered(s, ks, at) && InTimeOrder(events, ip, at);
    SendGap(start, start, calls, 1);
    LastIsLast(events[..i], ip);
    var h := HeardAt(events[..i], ip);
    var n := |h|;
    assert h == at[..n] && events[i].time <= at[n];
    assert ks[n - 1] < ks[n - 1 + 1] <= ks[n - 1] + 3;
    HeardInTime(s, ks[n - 1], ks[n], at[n - 1] - s[ks[n - 1]], at[n] - s[ks[n]]);
  }

  /** The timing of periodic is enough: with positive distinct priorities, exactly one server of the bundle is active,
      if packets refresh their sender's record. */
  lemma SteadySingleLeader(bundle: seq<Server>, pris: map<Ip, int>, starts: seq<int>, calls: seq<seq<int>>)
    requires Linked(bundle, pris) && bundle != [] && |starts| == |calls| == |bundle|
    requires forall a, b :: 0 <= a < b < |bundle| ==> bundle[a].pri != bundle[b].pri
    requires forall i, j :: 0 <= i < |bundle| && 0 <= j < |bundle| && i != j ==>
               Steady(bundle[i].events, bundle[j].ip, starts[j], calls[j])
    ensures ExactlyOneActive(bundle, false)
  {
    hide Steady, ExactlyOneActive;
    forall i | 0 <= i < |bundle| ensures Timely(bundle[i].events) {
      AllSteady(bundle, pris, starts, calls, i);
    }
    MeantSingleLeader(bundle, pris);
  }

  lemma AllSteady(bundle: seq<Server>, pris: map<Ip, int>, starts: seq<int>, calls: seq<seq<int>>, i: nat)
    requires Linked(bundle, pris) && |starts| == |calls| == |bundle| && i < |bundle|
    requires forall j :: 0 <= j < |bundle| && i != j ==> Steady(bundle[i].events, bundle[j].ip, starts[j], calls[j])
    ensures Timely(bundle[i].events)
  {
    hide Steady, FromBundle, LastHeard;
    var events := bundle[i].events;
    forall t, ip | 0 <= t < |events| && events[t].Tick? && LastHeard(events[..t], ip).0
      ensures events[t].time - LastHeard(events[..t], ip).1 <= 31
    {
      HeardStays(events, t, ip);
      var j :| 0 <= j < |bundle| && j != i && bundle[j].ip == ip;
      SteadyTimely(events, ip, starts[j], calls[j], t);
    }
  }

  lemma {:induction false} HeardStays(events: seq<Event>, t: nat, ip: Ip)
    requires t <= |events| && LastHeard(events[..t], ip).0
    ensures LastHeard(events, ip).0
    decreases |events|
  {
    if t == |events| {
      assert events[..t] == events;
    } else {
      assert events[..|events| - 1][..t] == events[..t];
      HeardStays(events[..|events| - 1], t, ip);
    }
  }
}
