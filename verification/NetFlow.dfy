/** The NetFlow aggregator: flows are summed per device, source and destination, and emitted when they expire. */
module NetFlow {

  /** unsigned long of a 64-bit machine. */
  const ULONG: nat := 0x1_0000_0000_0000_0000

  /** Addresses are only compared. */
  newtype Bit32 = x: int | 0 <= x < 0x1_0000_0000

  datatype Key = Key(dev: Bit32, src: Bit32, dst: Bit32)
  datatype Flow = Flow(octets: nat, packets: nat, ifin: nat, startt: int, stopt: int)

  /** One exported flow record as add receives it. */
  datatype Item = Item(octets: nat, packets: nat, ifin: nat, startt: int, stopt: int)

  datatype Event = Added(key: Key, item: Item) | Emitted(key: Key, flow: Flow)

  function First(x: Item): Flow {
    Flow(x.octets % ULONG, x.packets % ULONG, x.ifin, x.startt, x.stopt)
  }

  function More(f: Flow, x: Item): Flow {
    f.(octets := (f.octets + x.octets) % ULONG, packets := (f.packets + x.packets) % ULONG, stopt := x.stopt)
  }

  /** A run of records merged into one flow: first start, last stop, summed counters. */
  function Fold(xs: seq<Item>): Flow
    requires xs != []
  {
    if |xs| == 1 then First(xs[0]) else More(Fold(xs[..|xs| - 1]), xs[|xs| - 1])
  }

  /** The records for a key since that key was last emitted. */
  function Pending(trace: seq<Event>, k: Key): seq<Item> {
    if trace == [] then []
    else
      var e, front := trace[|trace| - 1], trace[..|trace| - 1];
      if e.key != k then Pending(front, k)
      else match e case Added(_, x) => Pending(front, k) + [x] case Emitted(_, _) => []
  }

  /** The two counters of a flow. */
  datatype Counter = OctetCount | PacketCount

  function InItem(x: Item, c: Counter): nat {
    match c case OctetCount => x.octets case PacketCount => x.packets
  }

  function InFlow(f: Flow, c: Counter): nat {
    match c case OctetCount => f.octets case PacketCount => f.packets
  }

  function Sum(xs: seq<Item>, c: Counter): nat {
    if xs == [] then 0 else Sum(xs[..|xs| - 1], c) + InItem(xs[|xs| - 1], c)
  }

  /** A merged flow has the first record's start and interface, the last one's stop, and the sums, modulo the word. */
  lemma {:induction false} FoldIs(xs: seq<Item>)
    requires xs != []
    ensures Fold(xs) == Flow(Sum(xs, OctetCount) % ULONG, Sum(xs, PacketCount) % ULONG,
                             xs[0].ifin, xs[0].startt, xs[|xs| - 1].stopt)
  {
    var n := |xs| - 1;
    if n == 0 {
      assert xs[..n] == [];
    } else {
      FoldIs(xs[..n]);
      AddMod(Sum(xs[..n], OctetCount), xs[n].octets);
      AddMod(Sum(xs[..n], PacketCount), xs[n].packets);
    }
  }

  lemma AddMod(a: nat, b: nat)
    ensures (a % ULONG + b) % ULONG == (a + b) % ULONG
  {
    var q := a / ULONG;
    assert a % ULONG + b + q * ULONG == a + b;
    ModShift(a % ULONG + b, q);
  }

  lemma {:induction false} ModShift(a: nat, q: nat)
    ensures (a + q * ULONG) % ULONG == a % ULONG
  {
    if q > 0 { ModShift(a, q - 1); }
  }

  /** Everything ever added for a key. */
  function TotalAdded(trace: seq<Event>, k: Key, c: Counter): nat {
    if trace == [] then 0
    else
      var e, front := trace[|trace| - 1], trace[..|trace| - 1];
      TotalAdded(front, k, c) + if e.Added? && e.key == k then InItem(e.item, c) else 0
  }

  /** Everything ever emitted for a key. */
  function TotalEmitted(trace: seq<Event>, k: Key, c: Counter): nat {
    if trace == [] then 0
    else
      var e, front := trace[|trace| - 1], trace[..|trace| - 1];
      TotalEmitted(front, k, c) + if e.Emitted? && e.key == k then InFlow(e.flow, c) else 0
  }

  /** What a stored flow holds for a key. */
  function Held(flows: map<Key, Flow>, k: Key, c: Counter): nat {
    if k in flows then InFlow(flows[k], c) else 0
  }

  /** The number of words lost by counters that wrapped, over the emitted flows of a key. */
  function Wraps(trace: seq<Event>, k: Key, c: Counter): nat {
    if trace == [] then 0
    else
      var e, front := trace[|trace| - 1], trace[..|trace| - 1];
      Wraps(front, k, c) + if e.Emitted? && e.key == k then Sum(Pending(front, k), c) / ULONG else 0
  }

  /** No emitted flow of the key was summed past the counter's width. */
  ghost predicate NoneWrapped(trace: seq<Event>, k: Key, c: Counter) {
    forall i :: 0 <= i < |trace| && trace[i].Emitted? && trace[i].key == k ==> Sum(Pending(trace[..i], k), c) < ULONG
  }

  /** Every emission is the merge of exactly the records pending for its key at that point. */
  ghost predicate EmissionsOk(trace: seq<Event>) {
    forall i :: 0 <= i < |trace| && trace[i].Emitted? ==>
      Pending(trace[..i], trace[i].key) != [] && trace[i].flow == Fold(Pending(trace[..i], trace[i].key))
  }

  /** Counting: what was added is what was emitted, what is pending, and the words lost to wrapping. */
  lemma {:induction false} Ledger(trace: seq<Event>, k: Key, c: Counter)
    requires EmissionsOk(trace)
    ensures TotalAdded(trace, k, c) ==
            TotalEmitted(trace, k, c) + Sum(Pending(trace, k), c) + ULONG * Wraps(trace, k, c)
  {
    hide Fold;
    if trace == [] { return; }
    var n := |trace| - 1;
    var e, front := trace[n], trace[..n];
    assert forall i :: 0 <= i < n ==> front[..i] == trace[..i] && front[i] == trace[i];
    Ledger(front, k, c);
    if e.key == k {
      var xs := Pending(front, k);
      if e.Added? {
        assert (xs + [e.item])[..|xs|] == xs;
      } else {
        assert trace[..n] == front;
        FoldIs(xs);
        DivLess(Sum(xs, c));
      }
    }
  }

  lemma {:induction false} NoWraps(trace: seq<Event>, k: Key, c: Counter)
    ensures Wraps(trace, k, c) == 0 <==> NoneWrapped(trace, k, c)
  {
    hide Sum, Pending;
    if trace == [] { return; }
    var n := |trace| - 1;
    var front := trace[..n];
    assert forall i :: 0 <= i < n ==> front[..i] == trace[..i] && front[i] == trace[i];
    NoWraps(front, k, c);
    DivLess(Sum(Pending(front, k), c));
    assert trace[..n] == front;
  }

  lemma DivLess(a: nat)
    ensures a == ULONG * (a / ULONG) + a % ULONG && (a / ULONG == 0 <==> a < ULONG)
  {
  }

  /** Conservation: added equals emitted plus stored up to the counter width, and exactly iff no counter wrapped. */
  lemma Conserved(flows: map<Key, Flow>, trace: seq<Event>, k: Key, c: Counter)
    requires Merged(flows, trace) && EmissionsOk(trace)
    ensures (TotalEmitted(trace, k, c) + Held(flows, k, c)) % ULONG == TotalAdded(trace, k, c) % ULONG
    ensures TotalEmitted(trace, k, c) + Held(flows, k, c) == TotalAdded(trace, k, c) <==>
            NoneWrapped(trace, k, c) && Sum(Pending(trace, k), c) < ULONG
  {
    hide Fold, EmissionsOk, TotalAdded, TotalEmitted, Wraps, NoneWrapped;
    var xs := Pending(trace, k);
    Ledger(trace, k, c);
    NoWraps(trace, k, c);
    if xs != [] { FoldIs(xs); }
    var p := Sum(xs, c);
    DivLess(p);
    assert Held(flows, k, c) == p % ULONG;
    var kept, lost := TotalEmitted(trace, k, c) + Held(flows, k, c), Wraps(trace, k, c) + p / ULONG;
    assert TotalAdded(trace, k, c) == kept + lost * ULONG;
    ModShift(kept, lost);
  }

  /** isExpired: now1 and now2 are the two readings of the clock. */
  predicate Expired(f: Flow, expireTime: int, now1: int, now2: int) {
    f.stopt - f.startt > expireTime || now1 - f.stopt > expireTime || now2 - f.startt > expireTime * 2
  }

  /** Still running at clock readings now: it spans at most e seconds, its last packet is at most e seconds and its
      first one at most 2 * e seconds old. */
  ghost predicate Running(f: Flow, e: int, now: (int, int)) {
    f.stopt <= f.startt + e && now.0 <= f.stopt + e && now.1 <= f.startt + 2 * e
  }

  lemma RunningIff(f: Flow, e: int, now1: int, now2: int)
    ensures Running(f, e, (now1, now2)) <==> !Expired(f, e, now1, now2)
  {
  }

  /** With one clock reading the third test never decides: it can fire alone only between two readings. */
  lemma ThirdTestNeedsLaterClock(f: Flow, e: int, now1: int, now2: int)
    ensures now1 == now2 ==> (Expired(f, e, now1, now2) <==> f.stopt - f.startt > e || now1 - f.stopt > e)
    ensures f.stopt - f.startt <= e && now1 - f.stopt <= e && Expired(f, e, now1, now2) ==> now2 > now1
  {
  }

  class NfData {
    var octets: nat
    var packets: nat
    var ifin: nat
    var startt: int
    var stopt: int

    constructor (x: Item)
      ensures AsFlow() == First(x)
    {
      octets, packets, ifin, startt, stopt := x.octets % ULONG, x.packets % ULONG, x.ifin, x.startt, x.stopt;
    }

    function AsFlow(): Flow
      reads this
    {
      Flow(octets, packets, ifin, startt, stopt)
    }

    method Add(r: nat, p: nat, t: int)
      modifies this
      ensures AsFlow() == More(old(AsFlow()), Item(r, p, 0, 0, t))
    {
      octets := (octets + r) % ULONG;
      stopt := t;
      packets := (packets + p) % ULONG;
    }

    method IsExpired(expireTime: int, now1: int, now2: int) returns (b: bool)
      ensures b == Expired(AsFlow(), expireTime, now1, now2) == !Running(AsFlow(), expireTime, (now1, now2))
    {
      var r := stopt - startt;
      if r > expireTime { return true; }
      r := now1 - stopt;
      if r > expireTime { return true; }
      r := now2 - startt;
      if r > expireTime * 2 { return true; }
      return false;
    }
  }

  type Nested = map<Bit32, map<Bit32, map<Bit32, NfData>>>

  predicate Has(nfb: Nested, k: Key) {
    k.dev in nfb && k.src in nfb[k.dev] && k.dst in nfb[k.dev][k.src]
  }

  function At(nfb: Nested, k: Key): NfData
    requires Has(nfb, k)
  {
    nfb[k.dev][k.src][k.dst]
  }

  /** The nested map holds exactly the entries of a map on triples, each flow object under one triple. */
  ghost predicate Indexed(nfb: Nested, flat: map<Key, NfData>) {
    (forall k :: k in flat <==> Has(nfb, k)) &&
    (forall k :: k in flat ==> flat[k] == At(nfb, k)) &&
    (forall j, k :: j in flat && k in flat && flat[j] == flat[k] ==> j == k)
  }

  /** Every stored flow is the merge of its pending records; keys without pending records are not stored. */
  ghost predicate Merged(flows: map<Key, Flow>, trace: seq<Event>) {
    (forall k :: k in flows <==> Pending(trace, k) != []) &&
    (forall k :: k in flows ==> flows[k] == Fold(Pending(trace, k)))
  }

  function Put(nfb: Nested, k: Key, v: NfData): Nested {
    var m1: map<Bit32, map<Bit32, NfData>> := if k.dev in nfb then nfb[k.dev] else map[];
    var m2: map<Bit32, NfData> := if k.src in m1 then m1[k.src] else map[];
    nfb[k.dev := m1[k.src := m2[k.dst := v]]]
  }

  function Erase(nfb: Nested, k: Key): Nested
    requires Has(nfb, k)
  {
    nfb[k.dev := nfb[k.dev][k.src := nfb[k.dev][k.src] - {k.dst}]]
  }

  lemma PutIndexed(nfb: Nested, flat: map<Key, NfData>, k: Key, v: NfData)
    requires Indexed(nfb, flat) && k !in flat && v !in flat.Values
    ensures Indexed(Put(nfb, k, v), flat[k := v]) && |flat[k := v]| == |flat| + 1
  {
    hide Put, Has;
    var n, f := Put(nfb, k, v), flat[k := v];
    forall j ensures Has(n, j) <==> Has(nfb, j) || j == k { PutAt(nfb, k, v, j); }
    forall j | j in flat ensures flat[j] != v { assert flat[j] in flat.Values; }
    forall j | j in f ensures Has(n, j) && At(n, j) == f[j] {
      PutAt(nfb, k, v, j);
      if j != k { assert flat[j] == At(nfb, j); }
    }
  }

  lemma PutAt(nfb: Nested, k: Key, v: NfData, j: Key)
    ensures Has(Put(nfb, k, v), j) <==> Has(nfb, j) || j == k
    ensures var n := Put(nfb, k, v);
            Has(n, j) ==> At(n, j) == if j == k then v else At(nfb, j)
  {
  }

  lemma EraseAt(nfb: Nested, k: Key, j: Key)
    requires Has(nfb, k)
    ensures Has(Erase(nfb, k), j) <==> Has(nfb, j) && j != k
    ensures Has(Erase(nfb, k), j) ==> At(Erase(nfb, k), j) == At(nfb, j)
  {
  }

  lemma EraseIndexed(nfb: Nested, flat: map<Key, NfData>, k: Key)
    requires Indexed(nfb, flat) && k in flat
    ensures Indexed(Erase(nfb, k), flat - {k}) && |flat - {k}| == |flat| - 1
  {
    hide Erase, Has, At;
    var n := Erase(nfb, k);
    forall j ensures (Has(n, j) <==> Has(nfb, j) && j != k) && (Has(n, j) ==> At(n, j) == At(nfb, j)) {
      EraseAt(nfb, k, j);
    }
    assert flat == (flat - {k})[k := flat[k]];
  }

  class NfAggregator {
    var nfb: Nested
    var bufSize: int
    var expireTime: int
    ghost var flat: map<Key, NfData>   // the nested map as one map on triples
    ghost var trace: seq<Event>        // all records and emissions so far

    /** The stored flows by triple. */
    ghost function Flows(): map<Key, Flow>
      reads this`flat, flat.Values
    {
      map k | k in flat :: flat[k].AsFlow()
    }

    ghost predicate Valid()
      reads this, flat.Values
    {
      Indexed(nfb, flat) && bufSize == |flat| && Merged(Flows(), trace) && EmissionsOk(trace) &&
      180 <= expireTime <= 900
    }

    constructor ()
      ensures Valid() && trace == [] && flat == map[] && expireTime == 900
    {
      nfb, bufSize, expireTime, flat, trace := map[], 0, 900, map[], [];
    }

    /** The three places of add where a new flow object enters the nested map. */
    method Place(k: Key, tmp: NfData)
      requires !Has(nfb, k)
      modifies this`nfb
      ensures nfb == Put(old(nfb), k, tmp)
    {
      if k.dev !in nfb {
        nfb := nfb[k.dev := map[k.src := map[k.dst := tmp]]];
      } else if k.src !in nfb[k.dev] {
        nfb := nfb[k.dev := nfb[k.dev][k.src := map[k.dst := tmp]]];
      } else {
        nfb := nfb[k.dev := nfb[k.dev][k.src := nfb[k.dev][k.src][k.dst := tmp]]];
      }
    }

    /** A new flow object enters the maps. */
    method Enter(k: Key, tmp: NfData)
      requires Indexed(nfb, flat) && bufSize == |flat| && k !in flat && !Has(nfb, k) && tmp !in flat.Values
      modifies this`nfb, this`bufSize, this`flat
      ensures Indexed(nfb, flat) && bufSize == |flat| && flat == old(flat)[k := tmp]
    {
      hide Indexed, Put, Has, At;
      PutIndexed(nfb, flat, k, tmp);
      Place(k, tmp);
      bufSize := bufSize + 1;
      flat := flat[k := tmp];
    }

    /** A record for a key that is not stored. */
    method Insert(k: Key, x: Item)
      requires Indexed(nfb, flat) && bufSize == |flat| && k !in flat && !Has(nfb, k)
      modifies this`nfb, this`bufSize, this`flat
      ensures Indexed(nfb, flat) && bufSize == |flat|
      ensures Flows() == old(Flows())[k := First(x)]
      ensures forall v :: v in flat.Values ==> v in old(flat).Values || fresh(v)
    {
      hide Indexed, First, Has;
      var tmp := new NfData(x);
      Enter(k, tmp);
    }

    /** A record for a stored key. */
    method Bump(k: Key, x: Item)
      requires Indexed(nfb, flat) && k in flat
      modifies flat.Values
      ensures k in old(Flows()) && Flows() == old(Flows())[k := More(old(Flows())[k], x)]
      ensures unchanged(this)
    {
      var tmp := nfb[k.dev][k.src][k.dst];
      assert tmp == flat[k] && tmp in flat.Values;
      assert forall j :: j in flat && j != k ==> flat[j] != tmp;
      tmp.Add(x.octets, x.packets, x.stopt);
      assert Flows()[k] == More(old(Flows())[k], x);
    }

    method Add(d: Bit32, sa: Bit32, da: Bit32, x: Item)
      requires Valid()
      modifies this, flat.Values
      ensures Valid() && trace == old(trace) + [Added(Key(d, sa, da), x)] && expireTime == old(expireTime)
      ensures forall v :: v in flat.Values ==> v in old(flat).Values || fresh(v)
    {
      hide EmissionsOk, Merged, Indexed, First, More;
      var k := Key(d, sa, da);
      MergedAdd(Flows(), trace, k, x);
      InFlat(nfb, flat, k);
      ghost var was := Flows();
      assert k in flat <==> k in was;
      if !Has(nfb, k) {
        Insert(k, x);
        assert Flows() == was[k := First(x)];
      } else {
        Bump(k, x);
        assert Flows() == was[k := More(was[k], x)];
      }
      trace := trace + [Added(k, x)];
    }

    /** The expiry of one flow: taken out of the maps and handed to the writer. */
    method Emit(k: Key) returns (f: Flow)
      requires Valid() && k in flat
      modifies this`nfb, this`bufSize, this`flat, this`trace
      ensures Valid() && flat == old(flat) - {k} && f == old(flat[k].AsFlow())
      ensures trace == old(trace) + [Emitted(k, f)]
      ensures nfb == Erase(old(nfb), k)
    {
      hide EmissionsOk, Merged, Indexed, Erase;
      InFlat(nfb, flat, k);
      EraseIndexed(nfb, flat, k);
      MergedEmit(Flows(), trace, k);
      ghost var was := Flows();
      var tmp := nfb[k.dev][k.src][k.dst];
      f := tmp.AsFlow();
      nfb := Erase(nfb, k);
      bufSize := bufSize - 1;
      flat := flat - {k};
      trace := trace + [Emitted(k, f)];
      assert Flows() == was - {k};
      assert f == was[k];
    }

    /** One turn of the inner loop. */
    method Visit(k: Key, now: (int, int)) returns (due: bool)
      requires Valid() && k in flat
      modifies this`nfb, this`bufSize, this`flat, this`trace
      ensures Valid() && due == DueIn(old(Flows()), k, expireTime, now) && expireTime == old(expireTime)
      ensures Flows() == if due then old(Flows()) - {k} else old(Flows())
      ensures due ==> flat == old(flat) - {k} && trace == old(trace) + [Emitted(k, old(Flows())[k])]
      ensures k.dev in nfb && k.src in nfb[k.dev]
      ensures !due ==> unchanged(this)
    {
      hide EmissionsOk, Merged, Indexed, Expired;
      InFlat(nfb, flat, k);
      var tmp := nfb[k.dev][k.src][k.dst];
      due := tmp.IsExpired(expireTime, now.0, now.1);
      if due {
        var f := Emit(k);
      }
    }

    /** The state of the inner loop: out has been taken out and emitted, todo is still stored. */
    ghost predicate Swept(was: map<Key, Flow>, objs: map<Key, NfData>, past: seq<Event>, d: Bit32, s: Bit32,
                          expire: int, clock: Bit32 -> (int, int), todo: set<Bit32>, out: seq<Bit32>)
      reads this, flat.Values
    {
      Valid() && d in nfb && s in nfb[d] && expireTime == expire &&
      flat == objs - Keys(d, s, out) && Flows() == was - Keys(d, s, out) &&
      (forall da :: da in todo ==> Key(d, s, da) in was - Keys(d, s, out)) &&
      (forall da :: da in out ==> Key(d, s, da) in was) &&
      SweepState(was, d, s, expire, clock, todo, out) &&
      trace == past + Emissions(d, s, out, was)
    }

    /** One turn of the inner loop, with the lists it keeps. */
    method Turn(ghost was: map<Key, Flow>, ghost objs: map<Key, NfData>, ghost past: seq<Event>, d: Bit32, s: Bit32,
                ghost expire: int, clock: Bit32 -> (int, int), ghost todo: set<Bit32>, out: seq<Bit32>, da: Bit32)
      returns (grown: seq<Bit32>)
      requires Swept(was, objs, past, d, s, expire, clock, todo, out) && IsLeast(da, todo)
      modifies this`nfb, this`bufSize, this`flat, this`trace
      ensures Swept(was, objs, past, d, s, expire, clock, todo - {da}, grown)
    {
      hide Valid, Expired, SweepState, Emissions, Keys, DueIn;
      SweepStep(was, d, s, expireTime, clock, todo, out, da);
      ghost var k := Key(d, s, da);
      assert k in Flows() && k in flat;
      DueSame(was, Flows(), k, expireTime, clock(da));
      var due := Visit(Key(d, s, da), clock(da));
      grown := out;
      if due {
        EmissionsGrow(d, s, out, da, was);
        MinusMinus(was, Keys(d, s, out), k);
        MinusMinus(objs, Keys(d, s, out), k);
        grown := out + [da];
      }
    }

    /**
     * The inner loop of expire over one source. clock gives the two clock readings made when a flow is visited;
     * out lists the expired destinations in the order they are emitted.
     */
    method ExpireSource(d: Bit32, s: Bit32, clock: Bit32 -> (int, int)) returns (out: seq<Bit32>)
      requires Valid() && d in nfb && s in nfb[d]
      modifies this`nfb, this`bufSize, this`flat, this`trace
      ensures Valid() && flat == old(flat) - Keys(d, s, out) && Flows() == old(Flows()) - Keys(d, s, out)
      ensures forall da :: Key(d, s, da) in Flows() ==> Running(Flows()[Key(d, s, da)], expireTime, clock(da))
      ensures forall da :: da in out ==> Key(d, s, da) in old(Flows())
      ensures forall da :: da in out ==> !Running(old(Flows())[Key(d, s, da)], expireTime, clock(da))
      ensures forall i, j :: 0 <= i < j < |out| ==> out[i] < out[j]
      ensures trace == old(trace) + Emissions(d, s, out, old(Flows()))
    {
      hide EmissionsOk, Merged, Indexed, Expired, Running, SweepState, Emissions, Keys, DueIn;
      ghost var was, objs, past := Flows(), flat, trace;
      var todo := nfb[d][s].Keys;
      out := [];
      forall da ensures da in todo <==> Key(d, s, da) in flat { InFlat(nfb, flat, Key(d, s, da)); }
      SweepStart(was, d, s, expireTime, clock, todo);
      while todo != {}
        invariant Swept(was, objs, past, d, s, old(expireTime), clock, todo, out)
        decreases todo
      {
        hide Swept;
        LeastExists(todo);
        var da :| IsLeast(da, todo);
        out := Turn(was, objs, past, d, s, old(expireTime), clock, todo, out, da);
        todo := todo - {da};
      }
      SweepDone(was, d, s, expireTime, clock, out);
      SweepRunning(was, d, s, expireTime, clock, out);
    }

    /** The outer loops drop a source or a device whose map has become empty: no flow goes with it. */
    method DropSource(d: Bit32, s: Bit32)
      requires Valid() && d in nfb && s in nfb[d] && |nfb[d][s]| == 0
      modifies this`nfb
      ensures Valid() && nfb == old(nfb)[d := old(nfb)[d] - {s}]
    {
      hide Merged, EmissionsOk, Indexed;
      DropIndexed(nfb, flat, d, s);
      nfb := nfb[d := nfb[d] - {s}];
    }

    method DropDevice(d: Bit32)
      requires Valid() && d in nfb && |nfb[d]| == 0
      modifies this`nfb
      ensures Valid() && nfb == old(nfb) - {d}
    {
      hide Merged, EmissionsOk, Indexed;
      DropIndexed(nfb, flat, d, 0);
      nfb := nfb - {d};
    }

    method AddExpireTime()
      requires Valid()
      modifies this`expireTime
      ensures Valid() && expireTime == if old(expireTime) < 900 then old(expireTime) + 1 else 900
    {
      if expireTime < 900 { expireTime := expireTime + 1; }
    }

    method DelExpireTime()
      requires Valid()
      modifies this`expireTime
      ensures Valid() && expireTime == if old(expireTime) > 180 then old(expireTime) - 1 else 180
    {
      if expireTime > 180 { expireTime := expireTime - 1; }
    }
  }

  /** The triples of a list of destinations of one source. */
  ghost function Keys(d: Bit32, s: Bit32, out: seq<Bit32>): set<Key> {
    set da | da in out :: Key(d, s, da)
  }

  lemma EmissionsGrow(d: Bit32, s: Bit32, out: seq<Bit32>, da: Bit32, flows: map<Key, Flow>)
    requires forall da :: da in out ==> Key(d, s, da) in flows
    requires Key(d, s, da) in flows
    ensures Emissions(d, s, out + [da], flows) ==
            Emissions(d, s, out, flows) + [Emitted(Key(d, s, da), flows[Key(d, s, da)])]
    ensures Keys(d, s, out + [da]) == Keys(d, s, out) + {Key(d, s, da)}
  {
    forall k ensures k in Keys(d, s, out + [da]) <==> k in Keys(d, s, out) || k == Key(d, s, da) {
      assert k.dst in out + [da] <==> k.dst in out || k.dst == da;
    }
  }

  lemma SweepStart(was: map<Key, Flow>, d: Bit32, s: Bit32, expireTime: int,
                   clock: Bit32 -> (int, int), todo: set<Bit32>)
    requires forall da :: da in todo <==> Key(d, s, da) in was
    ensures SweepState(was, d, s, expireTime, clock, todo, []) && Keys(d, s, []) == {} && Emissions(d, s, [], was) == []
  {
  }

  predicate IsLeast(da: Bit32, todo: set<Bit32>) {
    da in todo && forall e :: e in todo ==> da <= e
  }

  lemma {:induction false} LeastExists(todo: set<Bit32>)
    requires todo != {}
    ensures exists da :: IsLeast(da, todo)
  {
    var x :| x in todo;
    var rest := todo - {x};
    assert forall e :: e in todo ==> e == x || e in rest;
    if rest == {} {
      assert IsLeast(x, todo);
    } else {
      LeastExists(rest);
      var y :| IsLeast(y, rest);
      assert IsLeast(if x <= y then x else y, todo);
    }
  }

  /** The loop of ExpireSource: out lists, ascending, the expired destinations among those no longer to do. */
  ghost predicate SweepState(was: map<Key, Flow>, d: Bit32, s: Bit32, expireTime: int,
                             clock: Bit32 -> (int, int), todo: set<Bit32>, out: seq<Bit32>)
  {
    (forall da :: da in out <==> da !in todo && DueIn(was, Key(d, s, da), expireTime, clock(da))) &&
    (forall i, j :: 0 <= i < j < |out| ==> out[i] < out[j]) &&
    (forall o, e :: o in out && e in todo ==> o < e)
  }

  lemma MinusMinus<V>(m: map<Key, V>, gone: set<Key>, k: Key)
    ensures m - gone - {k} == m - (gone + {k})
  {
  }

  lemma DueSame(was: map<Key, Flow>, now: map<Key, Flow>, k: Key, expireTime: int, clock: (int, int))
    requires k in was && k in now && was[k] == now[k]
    ensures DueIn(was, k, expireTime, clock) == DueIn(now, k, expireTime, clock)
  {
  }

  lemma SweepDone(was: map<Key, Flow>, d: Bit32, s: Bit32, expireTime: int, clock: Bit32 -> (int, int), out: seq<Bit32>)
    requires SweepState(was, d, s, expireTime, clock, {}, out)
    ensures forall da :: da in out <==> DueIn(was, Key(d, s, da), expireTime, clock(da))
    ensures forall i, j :: 0 <= i < j < |out| ==> out[i] < out[j]
    ensures forall da :: !DueIn(was - Keys(d, s, out), Key(d, s, da), expireTime, clock(da))
  {
    hide Expired;
    assert forall da :: da in out ==> Key(d, s, da) in Keys(d, s, out);
  }

  /** The same by the ages of the flows. */
  lemma SweepRunning(was: map<Key, Flow>, d: Bit32, s: Bit32, expireTime: int, clock: Bit32 -> (int, int),
                     out: seq<Bit32>)
    requires forall da :: da in out <==> DueIn(was, Key(d, s, da), expireTime, clock(da))
    requires forall da :: !DueIn(was - Keys(d, s, out), Key(d, s, da), expireTime, clock(da))
    ensures var now := was - Keys(d, s, out);
            (forall da :: Key(d, s, da) in now ==> Running(now[Key(d, s, da)], expireTime, clock(da))) &&
            (forall da :: da in out ==> Key(d, s, da) in was && !Running(was[Key(d, s, da)], expireTime, clock(da)))
  {
    hide Expired, Running, Keys;
    var now := was - Keys(d, s, out);
    forall da | Key(d, s, da) in now ensures Running(now[Key(d, s, da)], expireTime, clock(da)) {
      RunningIff(now[Key(d, s, da)], expireTime, clock(da).0, clock(da).1);
      assert !DueIn(now, Key(d, s, da), expireTime, clock(da));
    }
    forall da | da in out ensures Key(d, s, da) in was && !Running(was[Key(d, s, da)], expireTime, clock(da)) {
      assert DueIn(was, Key(d, s, da), expireTime, clock(da));
      RunningIff(was[Key(d, s, da)], expireTime, clock(da).0, clock(da).1);
    }
  }

  lemma SweepStep(was: map<Key, Flow>, d: Bit32, s: Bit32, expireTime: int,
                  clock: Bit32 -> (int, int), todo: set<Bit32>, out: seq<Bit32>, da: Bit32)
    requires SweepState(was, d, s, expireTime, clock, todo, out) && IsLeast(da, todo)
    ensures SweepState(was, d, s, expireTime, clock, todo - {da},
                       if DueIn(was, Key(d, s, da), expireTime, clock(da)) then out + [da] else out)
  {
    hide DueIn;
    var due := DueIn(was, Key(d, s, da), expireTime, clock(da));
    var now := if due then out + [da] else out;
    var left := todo - {da};
    assert forall x :: x in now <==> x in out || (due && x == da);
    assert forall x :: x in left <==> x in todo && x != da;
    forall i, j | 0 <= i < j < |now| ensures now[i] < now[j] {
      assert j < |out| || (now[j] == da && now[i] in out);
    }
  }

  /** A map with the same entries everywhere is indexed alike. */
  lemma SameIndexed(nfb: Nested, n: Nested, flat: map<Key, NfData>)
    requires Indexed(nfb, flat)
    requires forall k :: (Has(n, k) <==> Has(nfb, k)) && (Has(n, k) ==> At(n, k) == At(nfb, k))
    ensures Indexed(n, flat)
  {
    hide Has, At;
  }

  lemma DropIndexed(nfb: Nested, flat: map<Key, NfData>, d: Bit32, s: Bit32)
    requires Indexed(nfb, flat) && d in nfb
    ensures s in nfb[d] && |nfb[d][s]| == 0 ==> Indexed(nfb[d := nfb[d] - {s}], flat)
    ensures |nfb[d]| == 0 ==> Indexed(nfb - {d}, flat)
  {
    hide Indexed;
    if |nfb[d]| == 0 { SameIndexed(nfb, nfb - {d}, flat); }
    if s in nfb[d] && |nfb[d][s]| == 0 { SameIndexed(nfb, nfb[d := nfb[d] - {s}], flat); }
  }

  /** A stored flow that has expired at the clock readings now. */
  ghost predicate DueIn(flows: map<Key, Flow>, k: Key, expireTime: int, now: (int, int)) {
    k in flows && Expired(flows[k], expireTime, now.0, now.1)
  }

  /** The emissions for a list of destinations of one source. */
  ghost function Emissions(d: Bit32, s: Bit32, out: seq<Bit32>, flows: map<Key, Flow>): seq<Event>
    requires forall da :: da in out ==> Key(d, s, da) in flows
  {
    seq(|out|, i requires 0 <= i < |out| => Emitted(Key(d, s, out[i]), flows[Key(d, s, out[i])]))
  }

  lemma InFlat(nfb: Nested, flat: map<Key, NfData>, k: Key)
    requires Indexed(nfb, flat)
    ensures k in flat <==> Has(nfb, k)
    ensures k in flat ==> flat[k] == nfb[k.dev][k.src][k.dst]
  {
  }

  /** A record starts a flow or is merged into the stored one. */
  lemma MergedAdd(flows: map<Key, Flow>, trace: seq<Event>, k: Key, x: Item)
    requires Merged(flows, trace) && EmissionsOk(trace)
    ensures Merged(flows[k := if k in flows then More(flows[k], x) else First(x)], trace + [Added(k, x)])
    ensures EmissionsOk(trace + [Added(k, x)])
  {
    hide Fold, Pending;
    AddedPending(trace, k, x);
  }

  lemma AddedPending(trace: seq<Event>, k: Key, x: Item)
    ensures var t := trace + [Added(k, x)];
            Pending(t, k) == Pending(trace, k) + [x] && (forall j :: j != k ==> Pending(t, j) == Pending(trace, j)) &&
            Fold(Pending(t, k)) == (if Pending(trace, k) == [] then First(x) else More(Fold(Pending(trace, k)), x)) &&
            (EmissionsOk(trace) ==> EmissionsOk(t))
  {
    var t := trace + [Added(k, x)];
    assert t[..|trace|] == trace;
    var xs := Pending(trace, k) + [x];
    assert xs[..|xs| - 1] == Pending(trace, k);
    assert forall i :: 0 <= i < |trace| ==> t[..i] == trace[..i] && t[i] == trace[i];
  }

  lemma EmittedPending(trace: seq<Event>, k: Key, f: Flow)
    ensures var t := trace + [Emitted(k, f)];
            Pending(t, k) == [] && (forall j :: j != k ==> Pending(t, j) == Pending(trace, j)) &&
            (EmissionsOk(trace) && Pending(trace, k) != [] && f == Fold(Pending(trace, k)) ==> EmissionsOk(t))
  {
    hide Fold;
    var t := trace + [Emitted(k, f)];
    assert t[..|trace|] == trace;
    assert forall i :: 0 <= i < |trace| ==> t[..i] == trace[..i] && t[i] == trace[i];
  }

  /** An emission takes the flow out. */
  lemma MergedEmit(flows: map<Key, Flow>, trace: seq<Event>, k: Key)
    requires Merged(flows, trace) && EmissionsOk(trace) && k in flows
    ensures Merged(flows - {k}, trace + [Emitted(k, flows[k])]) && EmissionsOk(trace + [Emitted(k, flows[k])])
  {
    hide Fold, Pending;
    EmittedPending(trace, k, flows[k]);
  }
}
