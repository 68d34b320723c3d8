/** The connection limit of a listener: one accept loop, any number of handler threads, and the configuration. */
module Listener {

  datatype Kind = TCP | UDP

  /** del_session: one less, never below zero. */
  function Less(n: int): int {
    if n - 1 < 0 then 0 else n - 1
  }

  /** Where the accept loop stands. The comparison reads the count and the limit separately, in either order. */
  datatype Phase =
    | Waiting
    | Arrived
    | GotCount(count: int)
    | GotMax(limit: int)
    | Admitted
    | Starting(id: nat)

  /** live: the connections between add_session and del_session; top: the highest limit there has been. */
  datatype State = State(counter: int, max: int, phase: Phase, live: set<nat>, used: nat, top: int)

  /** Refused stands for a failed accept or an address outside the access list; Spawned fails when no thread starts. */
  datatype Step =
    | Accept
    | Refused
    | ReadCount
    | ReadMax
    | Add
    | Spawned(ok: bool)
    | Finish(id: nat)
    | SetMax(max: int)

  function Init(max: int): State {
    State(0, max, Waiting, {}, 0, max)
  }

  function Compared(s: State, kind: Kind, count: int, limit: int): State {
    s.(phase := if count >= limit && kind == TCP then Waiting else Admitted)
  }

  function Ended(s: State, id: nat): State {
    s.(counter := Less(s.counter), live := s.live - {id})
  }

  /** One step of some thread; a step that is not possible changes nothing. */
  function Do(s: State, step: Step, kind: Kind): State {
    match step
    case Accept => if s.phase.Waiting? then s.(phase := Arrived) else s
    case Refused => if s.phase.Arrived? then s.(phase := Waiting) else s
    case ReadCount =>
      if s.phase.Arrived? then s.(phase := GotCount(s.counter))
      else if s.phase.GotMax? then Compared(s, kind, s.counter, s.phase.limit)
      else s
    case ReadMax =>
      if s.phase.Arrived? then s.(phase := GotMax(s.max))
      else if s.phase.GotCount? then Compared(s, kind, s.phase.count, s.max)
      else s
    case Add =>
      if s.phase.Admitted? then
        s.(counter := s.counter + 1, live := s.live + {s.used}, used := s.used + 1, phase := Starting(s.used))
      else s
    case Spawned(ok) =>
      if !s.phase.Starting? then s
      else if kind == UDP || !ok then Ended(s.(phase := Waiting), s.phase.id)
      else s.(phase := Waiting)
    case Finish(id) =>
      if id in s.live && s.phase != Starting(id) then Ended(s, id) else s
    case SetMax(m) => s.(max := m, top := if m > s.top then m else s.top)
  }

  function From(s: State, steps: seq<Step>, kind: Kind): State {
    if steps == [] then s else Do(From(s, steps[..|steps| - 1], kind), steps[|steps| - 1], kind)
  }

  function Run(max: int, steps: seq<Step>, kind: Kind): State {
    From(Init(max), steps, kind)
  }

  lemma FromSnoc(s: State, steps: seq<Step>, step: Step, kind: Kind)
    ensures From(s, steps + [step], kind) == Do(From(s, steps, kind), step, kind)
  {
    assert (steps + [step])[..|steps|] == steps;
  }

  lemma {:induction false} FromAppend(s: State, a: seq<Step>, b: seq<Step>, kind: Kind)
    ensures From(s, a + b, kind) == From(From(s, a, kind), b, kind)
  {
    hide Do;
    if b == [] {
      assert a + b == a;
    } else {
      var front, last := b[..|b| - 1], b[|b| - 1];
      FromAppend(s, a, front, kind);
      FromSnoc(s, a + front, last, kind);
      assert a + b == a + front + [last];
    }
  }

  /** The limit below which the loop has admitted a connection, in force while nothing else can add one. */
  ghost predicate Room(s: State, kind: Kind) {
    match s.phase
    case GotCount(n) => s.counter <= n
    case GotMax(m) => m <= s.top
    case Admitted => kind == TCP ==> s.counter < s.top
    case Starting(id) => id in s.live
    case _ => true
  }

  /** UDP requests are served by the accept loop itself. */
  ghost predicate Inline(s: State) {
    if s.phase.Starting? then s.live == {s.phase.id} else s.live == {}
  }

  ghost predicate Inv(s: State, kind: Kind) {
    s.counter == |s.live| && s.max <= s.top && (forall id :: id in s.live ==> id < s.used) &&
    (kind == TCP ==> s.counter <= s.top || s.counter == 0) && (kind == UDP ==> Inline(s)) && Room(s, kind)
  }

  lemma AddKeeps(s: State, kind: Kind)
    requires Inv(s, kind) && s.phase.Admitted?
    ensures Inv(Do(s, Add, kind), kind)
  {
    assert s.used !in s.live;
  }

  lemma EndKeeps(s: State, id: nat, next: Phase, kind: Kind)
    requires Inv(s, kind) && id in s.live && next == if s.phase == Starting(id) then Waiting else s.phase
    ensures Inv(Ended(s.(phase := next), id), kind)
  {
    Remove(s.live, id);
  }

  /** A step that changes no session: only the loop's place or the limits. */
  lemma PlaceKeeps(s: State, t: State, kind: Kind)
    requires Inv(s, kind) && t.counter == s.counter && t.live == s.live && t.used == s.used
    requires s.top <= t.top && t.max <= t.top && Room(t, kind)
    requires t.phase == s.phase || (!s.phase.Starting? && !t.phase.Starting?)
    ensures Inv(t, kind)
  {
    hide Room;
  }

  lemma DoKeeps(s: State, step: Step, kind: Kind)
    requires Inv(s, kind)
    ensures Inv(Do(s, step, kind), kind)
  {
    assert Room(s, kind) && s.counter == |s.live| && s.max <= s.top;
    hide Inv;
    match step
    case Add => if s.phase.Admitted? { AddKeeps(s, kind); }
    case Spawned(ok) => if s.phase.Starting? { SpawnedKeeps(s, ok, kind); }
    case Finish(id) => if id in s.live && s.phase != Starting(id) { EndKeeps(s, id, s.phase, kind); }
    case _ => PlaceKeeps(s, Do(s, step, kind), kind);
  }

  lemma SpawnedKeeps(s: State, ok: bool, kind: Kind)
    requires Inv(s, kind) && s.phase.Starting?
    ensures Inv(Do(s, Spawned(ok), kind), kind)
  {
    if kind == UDP || !ok { EndKeeps(s, s.phase.id, Waiting, kind); }
  }

  lemma Remove(live: set<nat>, id: nat)
    requires id in live
    ensures |live - {id}| == |live| - 1
  {
    assert live == (live - {id}) + {id};
  }

  /**
   * In every interleaving the counter is the number of live connections. For TCP it stays within the highest limit
   * there has been, and for UDP it is at most 1.
   */
  lemma {:induction false} CountsLive(max: int, steps: seq<Step>, kind: Kind)
    ensures var s := Run(max, steps, kind);
            Inv(s, kind) && s.counter == |s.live| && (kind == TCP ==> s.counter <= s.top || s.counter == 0) &&
            (kind == UDP ==> s.counter <= 1)
  {
    hide Do, Inline, Room;
    if steps == [] {
      InitKeeps(max, kind);
    } else {
      CountsLive(max, steps[..|steps| - 1], kind);
      DoKeeps(Run(max, steps[..|steps| - 1], kind), steps[|steps| - 1], kind);
    }
    AtMostOne(Run(max, steps, kind), kind);
  }

  lemma InitKeeps(max: int, kind: Kind)
    ensures Inv(Init(max), kind)
  {
  }

  lemma AtMostOne(s: State, kind: Kind)
    requires Inv(s, kind)
    ensures kind == UDP ==> s.counter <= 1
  {
  }

  ghost predicate FixedMax(steps: seq<Step>) {
    forall i :: 0 <= i < |steps| ==> !steps[i].SetMax?
  }

  lemma {:induction false} FixedTop(max: int, steps: seq<Step>, kind: Kind)
    requires FixedMax(steps)
    ensures Run(max, steps, kind).top == max && Run(max, steps, kind).max == max
  {
    if steps != [] { FixedTop(max, steps[..|steps| - 1], kind); }
  }

  /** With a fixed limit the connections never exceed it; a limit below zero admits none. */
  lemma WithinLimit(max: int, steps: seq<Step>)
    requires FixedMax(steps)
    ensures var s := Run(max, steps, TCP);
            |s.live| == s.counter <= (if max < 0 then 0 else max)
  {
    CountsLive(max, steps, TCP);
    FixedTop(max, steps, TCP);
  }

  /** A step that ends a session. */
  ghost predicate Ends(s: State, step: Step, kind: Kind) {
    (step.Finish? && step.id in s.live && s.phase != Starting(step.id)) ||
    (step.Spawned? && s.phase.Starting? && (kind == UDP || !step.ok))
  }

  /** The clamp of del_session never fires: a session that ends is always counted. */
  lemma NeverClamps(max: int, steps: seq<Step>, step: Step, kind: Kind)
    requires Ends(Run(max, steps, kind), step, kind)
    ensures var s := Run(max, steps, kind);
            s.counter >= 1 && Do(s, step, kind).counter == s.counter - 1
  {
    var s := Run(max, steps, kind);
    hide Run, Inline;
    CountsLive(max, steps, kind);
    var id := if step.Finish? then step.id else s.phase.id;
    Remove(s.live, id);
  }

  // ----- the listener as a program

  /** What other threads do meanwhile: handlers end, and the configuration sets the limit. */
  predicate Others(steps: seq<Step>) {
    forall i :: 0 <= i < |steps| ==> steps[i].Finish? || steps[i].SetMax?
  }

  /**
   * Listener_data with its counter and limit, together with where the accept loop stands and which connections are
   * live. Every method but AcceptTurn and Meanwhile is one step.
   */
  class ListenerData {
    const kind: Kind
    var qDescrNum: int
    var maxconnect: int
    var phase: Phase
    var live: set<nat>
    var used: nat
    var top: int

    ghost function View(): State
      reads this
    {
      State(qDescrNum, maxconnect, phase, live, used, top)
    }

    constructor (k: Kind, max: int)
      ensures kind == k && View() == Init(max) && Inv(View(), kind)
    {
      kind, qDescrNum, maxconnect, phase, live, used, top := k, 0, max, Waiting, {}, 0, max;
    }

    /** add_session: the new count, which numbers the connection, is the number of live connections. */
    method AddSession() returns (number: int)
      requires Inv(View(), kind) && phase.Admitted?
      modifies this
      ensures View() == Do(old(View()), Add, kind) && Inv(View(), kind) && phase.Starting?
      ensures number == qDescrNum == |live|
    {
      DoKeeps(View(), Add, kind);
      qDescrNum := qDescrNum + 1;
      number := qDescrNum;
      live, used, phase := live + {used}, used + 1, Starting(used);
    }

    /** del_session: the clamp never fires, for a session that ends is counted. */
    method DelSession(id: nat)
      requires qDescrNum == |live| && id in live
      modifies this`qDescrNum, this`live
      ensures View() == Ended(old(View()), id) && qDescrNum == old(qDescrNum) - 1 == |live|
    {
      Remove(live, id);
      qDescrNum := qDescrNum - 1;
      qDescrNum := if qDescrNum < 0 then 0 else qDescrNum;
      live := live - {id};
    }

    /** con_session, as the accept loop reads it. */
    method ConSession() returns (n: int)
      requires Inv(View(), kind) && phase.Arrived?
      modifies this`phase
      ensures View() == Do(old(View()), ReadCount, kind) && Inv(View(), kind) && phase == GotCount(n) && n == |live|
    {
      DoKeeps(View(), ReadCount, kind);
      n := qDescrNum;
      phase := GotCount(n);
    }

    /** getMaxconnect and the comparison: too many connections, or admitted. */
    method Admit(n: int) returns (admitted: bool)
      requires Inv(View(), kind) && phase == GotCount(n)
      modifies this`phase
      ensures View() == Do(old(View()), ReadMax, kind) && Inv(View(), kind)
      ensures admitted == phase.Admitted? == !(n >= maxconnect && kind == TCP) && (!admitted ==> phase.Waiting?)
    {
      DoKeeps(View(), ReadMax, kind);
      var m := maxconnect;
      admitted := !(n >= m && kind == TCP);
      phase := if admitted then Admitted else Waiting;
    }

    method SetMaxconnect(d: int)
      requires Inv(View(), kind)
      modifies this`maxconnect, this`top
      ensures View() == Do(old(View()), SetMax(d), kind) && Inv(View(), kind)
    {
      DoKeeps(View(), SetMax(d), kind);
      maxconnect := d;
      top := if d > top then d else top;
    }

    /** The end of a turn: a thread takes the connection, or it ends at once; UDP requests are served in place. */
    method StartHandler(ok: bool)
      requires Inv(View(), kind) && phase.Starting?
      modifies this
      ensures View() == Do(old(View()), Spawned(ok), kind) && Inv(View(), kind) && phase.Waiting?
    {
      DoKeeps(View(), Spawned(ok), kind);
      if kind == UDP || !ok { DelSession(phase.id); }
      phase := Waiting;
    }

    /** HandleConnection, when the user function has returned. */
    method HandleConnection(id: nat)
      requires Inv(View(), kind) && id in live && phase != Starting(id)
      modifies this
      ensures View() == Do(old(View()), Finish(id), kind) && Inv(View(), kind)
    {
      DoKeeps(View(), Finish(id), kind);
      DelSession(id);
    }

    /** Steps of other threads, one after the other. */
    method Meanwhile(steps: seq<Step>)
      requires Inv(View(), kind) && Others(steps)
      modifies this
      ensures View() == From(old(View()), steps, kind) && Inv(View(), kind) && phase == old(phase)
    {
      hide Inv, Do;
      ghost var was := View();
      var i := 0;
      assert steps[..0] == [];
      while i < |steps|
        invariant i <= |steps| && View() == From(was, steps[..i], kind) && Inv(View(), kind) && phase == was.phase
      {
        FromSnoc(was, steps[..i], steps[i], kind);
        assert steps[..i + 1] == steps[..i] + [steps[i]];
        Other(steps[i]);
        i := i + 1;
      }
      assert steps[..i] == steps;
    }

    method Other(step: Step)
      requires Inv(View(), kind) && (step.Finish? || step.SetMax?)
      modifies this
      ensures View() == Do(old(View()), step, kind) && Inv(View(), kind) && phase == old(phase)
    {
      match step
      case Finish(id) => if id in live && phase != Starting(id) { HandleConnection(id); }
      case SetMax(d) => SetMaxconnect(d);
    }

    /**
     * One turn of the accept loop for a connection that arrives, with what other threads do in between: it is the
     * run of these steps, so all that is proved of runs holds of the loop.
     */
    method AcceptTurn(allowed: bool, o1: seq<Step>, o2: seq<Step>, o3: seq<Step>, o4: seq<Step>, ok: bool)
      requires Inv(View(), kind) && phase.Waiting? && Others(o1) && Others(o2) && Others(o3) && Others(o4)
      modifies this
      ensures Inv(View(), kind) && phase.Waiting?
      ensures View() == From(old(View()), Turn(allowed, o1, o2, o3, o4, ok), kind)
    {
      hide Inv, From, Do, Turn;
      ghost var was := View();
      TurnIs(was, allowed, o1, o2, o3, o4, ok, kind);
      Arrive();
      Meanwhile(o1);
      if !allowed {
        Refuse();
        return;
      }
      var n := ConSession();
      Meanwhile(o2);
      var admitted := Admit(n);
      Meanwhile(o3);
      if admitted { var number := AddSession(); } else { NothingToDo(View(), ok, kind); }
      Meanwhile(o4);
      if admitted { StartHandler(ok); } else { NothingToDo(View(), ok, kind); }
    }

    method Arrive()
      requires Inv(View(), kind) && phase.Waiting?
      modifies this`phase
      ensures View() == Do(old(View()), Accept, kind) && Inv(View(), kind) && phase.Arrived?
    {
      DoKeeps(View(), Accept, kind);
      phase := Arrived;
    }

    method Refuse()
      requires Inv(View(), kind) && phase.Arrived?
      modifies this`phase
      ensures View() == Do(old(View()), Refused, kind) && Inv(View(), kind) && phase.Waiting?
    {
      DoKeeps(View(), Refused, kind);
      phase := Waiting;
    }
  }

  lemma NothingToDo(s: State, ok: bool, kind: Kind)
    requires s.phase.Waiting?
    ensures Do(s, Add, kind) == s && Do(s, Spawned(ok), kind) == s
  {
  }

  function Turn(allowed: bool, o1: seq<Step>, o2: seq<Step>, o3: seq<Step>, o4: seq<Step>, ok: bool): seq<Step> {
    if !allowed then [Accept] + o1 + [Refused]
    else [Accept] + o1 + [ReadCount] + o2 + [ReadMax] + o3 + [Add] + o4 + [Spawned(ok)]
  }

  lemma TurnIs(s: State, allowed: bool, o1: seq<Step>, o2: seq<Step>, o3: seq<Step>, o4: seq<Step>, ok: bool,
               kind: Kind)
    ensures From(s, Turn(allowed, o1, o2, o3, o4, ok), kind) ==
            var a := From(Do(s, Accept, kind), o1, kind);
            if !allowed then Do(a, Refused, kind) else
              var b := From(Do(a, ReadCount, kind), o2, kind);
              var c := From(Do(b, ReadMax, kind), o3, kind);
              Do(From(Do(c, Add, kind), o4, kind), Spawned(ok), kind)
  {
    hide Do;
    var a := [Accept] + o1;
    FromSnoc(s, [], Accept, kind);
    assert [] + [Accept] == [Accept];
    FromAppend(s, [Accept], o1, kind);
    if !allowed {
      FromSnoc(s, a, Refused, kind);
    } else {
      FromSnoc(s, a, ReadCount, kind);
      FromAppend(s, a + [ReadCount], o2, kind);
      var b := a + [ReadCount] + o2;
      FromSnoc(s, b, ReadMax, kind);
      FromAppend(s, b + [ReadMax], o3, kind);
      var c := b + [ReadMax] + o3;
      FromSnoc(s, c, Add, kind);
      FromAppend(s, c + [Add], o4, kind);
      FromSnoc(s, c + [Add] + o4, Spawned(ok), kind);
    }
  }

  function Connects(n: nat): seq<Step> {
    if n == 0 then [] else Connects(n - 1) + [Accept, ReadCount, ReadMax, Add, Spawned(true)]
  }

  /** From any point where the loop waits, connections are admitted one by one while there is room. */
  lemma {:induction false} ConnectsFrom(s: State, n: nat)
    requires s.phase == Waiting && s.counter + n <= s.max
    ensures var t := From(s, Connects(n), TCP);
            t.counter == s.counter + n && t.phase == Waiting && t.max == s.max
  {
    if n > 0 {
      ConnectsFrom(s, n - 1);
      var one := Turn(true, [], [], [], [], true);
      assert one == [Accept, ReadCount, ReadMax, Add, Spawned(true)];
      FromAppend(s, Connects(n - 1), one, TCP);
      TurnIs(From(s, Connects(n - 1), TCP), true, [], [], [], [], true, TCP);
    }
  }

  /** The limit is reached: up to it, every connection that arrives is admitted, and the next one is not. */
  lemma LimitReached(max: nat, n: nat)
    requires n <= max
    ensures var s := Run(max, Connects(n), TCP);
            s.counter == n && s.phase == Waiting && s.max == max &&
            (n == max ==> Do(Do(Do(s, Accept, TCP), ReadCount, TCP), ReadMax, TCP).phase == Waiting)
  {
    ConnectsFrom(Init(max), n);
  }

  // ----- limits that change

  function Floor(m: int): nat {
    if m < 0 then 0 else m
  }

  /** The limits that are set, in order. */
  function Limits(steps: seq<Step>): seq<int> {
    if steps == [] then []
    else Limits(steps[..|steps| - 1]) + match steps[|steps| - 1] case SetMax(m) => [m] case _ => []
  }

  function Sets(limits: seq<int>): seq<Step> {
    seq(|limits|, i requires 0 <= i < |limits| => SetMax(limits[i]))
  }

  predicate NeverLowered(limits: seq<int>) {
    forall i :: 0 <= i < |limits| - 1 ==> Floor(limits[i]) <= Floor(limits[i + 1])
  }

  /** However connections come and go while these limits are in force one after the other, none is ever exceeded. */
  ghost predicate KeepsLimits(limits: seq<int>)
    requires limits != []
  {
    forall steps, i :: Limits(steps) == limits[1..] && 0 <= i <= |steps| ==>
      var s := Run(limits[0], steps[..i], TCP);
      s.counter <= Floor(s.max)
  }

  lemma {:induction false} LimitsAppend(a: seq<Step>, b: seq<Step>)
    ensures Limits(a + b) == Limits(a) + Limits(b)
  {
    if b == [] {
      assert a + b == a;
    } else {
      assert (a + b)[..|a + b| - 1] == a + b[..|b| - 1];
      LimitsAppend(a, b[..|b| - 1]);
    }
  }

  lemma {:induction false} LimitsOfSets(limits: seq<int>)
    ensures Limits(Sets(limits)) == limits
  {
    if limits != [] {
      var n := |limits| - 1;
      assert Sets(limits)[..n] == Sets(limits[..n]);
      LimitsOfSets(limits[..n]);
    }
  }

  lemma {:induction false} LimitsOfConnects(n: nat)
    ensures Limits(Connects(n)) == []
  {
    if n > 0 {
      LimitsOfConnects(n - 1);
      var c := Connects(n - 1);
      LimitsAppend(c + [Accept, ReadCount, ReadMax, Add], [Spawned(true)]);
      LimitsAppend(c + [Accept, ReadCount, ReadMax], [Add]);
      LimitsAppend(c + [Accept, ReadCount], [ReadMax]);
      LimitsAppend(c + [Accept], [ReadCount]);
      LimitsAppend(c, [Accept]);
      assert c + [Accept] + [ReadCount] == c + [Accept, ReadCount];
      assert c + [Accept, ReadCount] + [ReadMax] == c + [Accept, ReadCount, ReadMax];
      assert c + [Accept, ReadCount, ReadMax] + [Add] == c + [Accept, ReadCount, ReadMax, Add];
      assert c + [Accept, ReadCount, ReadMax, Add] + [Spawned(true)] == Connects(n);
    }
  }

  /** While limits only rise, the one in force is the highest there has been. */
  lemma {:induction false} TopInForce(max: int, steps: seq<Step>)
    requires NeverLowered([max] + Limits(steps))
    ensures var s := Run(max, steps, TCP);
            s.max == ([max] + Limits(steps))[|Limits(steps)|] && Floor(s.top) == Floor(s.max)
  {
    if steps != [] {
      var front := steps[..|steps| - 1];
      assert forall k :: 0 <= k <= |Limits(front)| ==> ([max] + Limits(steps))[k] == ([max] + Limits(front))[k];
      TopInForce(max, front);
    }
  }

  lemma RisingKept(max: int, steps: seq<Step>)
    requires NeverLowered([max] + Limits(steps))
    ensures var s := Run(max, steps, TCP); s.counter <= Floor(s.max)
  {
    hide Run;
    TopInForce(max, steps);
    CountsLive(max, steps, TCP);
  }

  lemma {:induction false} SetsOnly(max: int, limits: seq<int>)
    ensures var s := Run(max, Sets(limits), TCP);
            s.phase == Waiting && s.counter == 0 && s.max == ([max] + limits)[|limits|]
  {
    if limits != [] {
      var n := |limits| - 1;
      assert Sets(limits)[..n] == Sets(limits[..n]);
      SetsOnly(max, limits[..n]);
    }
  }

  /** A limit that is lowered below the connections it has let in is exceeded. */
  lemma LoweredExceeded(limits: seq<int>, j: nat)
    requires j + 1 < |limits| && Floor(limits[j]) > Floor(limits[j + 1])
    ensures !KeepsLimits(limits)
  {
    hide From, Limits, Sets, Connects;
    var max, n, down, rest := limits[0], Floor(limits[j]), limits[j + 1], limits[j + 2..];
    var before, to := Sets(limits[1..j + 1]), Connects(n);
    var upto := before + to + [SetMax(down)];
    var steps := upto + Sets(rest);
    SetsOnly(max, limits[1..j + 1]);
    assert ([max] + limits[1..j + 1])[j] == limits[j];
    var s := Run(max, before, TCP);
    ConnectsFrom(s, n);
    FromAppend(Init(max), before, to, TCP);
    FromSnoc(Init(max), before + to, SetMax(down), TCP);
    LimitsAppend(upto, Sets(rest));
    LimitsAppend(before + to, [SetMax(down)]);
    LimitsAppend(before, to);
    LimitsOfSets(limits[1..j + 1]);
    LimitsOfSets(rest);
    LimitsOfConnects(n);
    OneLimit(down);
    assert limits[1..j + 1] + [] + [down] + rest == limits[1..];
    assert steps[..|upto|] == upto;
  }

  lemma OneLimit(m: int)
    ensures Limits([SetMax(m)]) == [m]
  {
    assert [SetMax(m)][..0] == [];
  }

  /** No limit in force is ever exceeded, in any interleaving, if and only if the limits are never lowered. */
  lemma LimitsKeptIff(limits: seq<int>)
    requires limits != []
    ensures KeepsLimits(limits) <==> NeverLowered(limits)
  {
    hide Run, Limits;
    if NeverLowered(limits) {
      forall steps, i | Limits(steps) == limits[1..] && 0 <= i <= |steps|
        ensures var s := Run(limits[0], steps[..i], TCP); s.counter <= Floor(s.max)
      {
        assert steps == steps[..i] + steps[i..];
        LimitsAppend(steps[..i], steps[i..]);
        var some := [limits[0]] + Limits(steps[..i]);
        assert forall k :: 0 <= k < |some| ==> some[k] == limits[k];
        RisingKept(limits[0], steps[..i]);
      }
    } else {
      var j :| 0 <= j < |limits| - 1 && Floor(limits[j]) > Floor(limits[j + 1]);
      LoweredExceeded(limits, j);
    }
  }
}
