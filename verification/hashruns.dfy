/** Whole runs of the hash table: agreement with a map, and exactly which removals break it. */
module HashRuns {
  import opened Tokens
  import opened Bits
  import opened Probing
  import opened HashModel

  datatype Op<D> = InsertOp(key: Key, data: D) | FindOp(key: Key) | RemoveOp(key: Key)

  datatype Reply<D> = Code(code: int) | Answer(found: Option<D>) | Silent

  // ---------- The table and the map it should be ----------

  ghost function Do<D>(t: Table<D>, op: Op<D>): (r: (Reply<D>, Table<D>))
    requires LoadOk(t)
    ensures LoadOk(r.1)
  {
    match op
    case InsertOp(k, d) =>
      InsertLoad(t, k, d);
      var (code, t2) := Insert(t, k, d);
      (Code(code), t2)
    case FindOp(k) =>
      var (found, t2) := Find(t, k);
      (Answer(found), t2)
    case RemoveOp(k) =>
      RemoveLoad(t, k);
      (Silent, Remove(t, k))
  }

  function DoMap<D>(m: map<Key, D>, op: Op<D>): (Reply<D>, map<Key, D>) {
    match op
    case InsertOp(k, d) => if k in m then (Code(0), m) else (Code(1), m[k := d])
    case FindOp(k) => (Answer(Get(m, k)), m)
    case RemoveOp(k) => (Silent, m - {k})
  }

  ghost function Run<D>(t: Table<D>, ops: seq<Op<D>>): (seq<Reply<D>>, Table<D>)
    requires LoadOk(t)
    decreases |ops|
  {
    if ops == [] then ([], t)
    else
      var (reply, next) := Do(t, ops[0]);
      var (rest, last) := Run(next, ops[1..]);
      ([reply] + rest, last)
  }

  function RunMap<D>(m: map<Key, D>, ops: seq<Op<D>>): (seq<Reply<D>>, map<Key, D>)
    decreases |ops|
  {
    if ops == [] then ([], m)
    else
      var (reply, next) := DoMap(m, ops[0]);
      var (rest, last) := RunMap(next, ops[1..]);
      ([reply] + rest, last)
  }

  lemma CreatedOk<D>()
    ensures LoadOk(Created<D>()) && Room(Created<D>().slots)
    ensures Is(Created<D>(), map[])
  {
    NoneLive(Empties<D>(4));
    EmptiesRepresent<D>(4);
    assert IsPow2(2);
  }

  /** In every state any mix of operations leads to: live keys <= count < capacity, the capacity is a power
      of two, and a bucket is left for find_slot to stop at. */
  lemma {:induction false} EveryRunKeepsTheLoad<D>(t: Table<D>, ops: seq<Op<D>>)
    requires LoadOk(t)
    ensures LoadOk(Run(t, ops).1)
    ensures var last := Run(t, ops).1; LiveCount(last.slots) <= last.count < |last.slots| && Room(last.slots)
    decreases |ops|
  {
    LoadGivesRoom(t);
    if ops != [] {
      EveryRunKeepsTheLoad(Do(t, ops[0]).1, ops[1..]);
    }
  }

  // ---------- Removal ----------

  /** On the way to its bucket the probe of k2 passes through bucket s. */
  ghost predicate PassesThrough<D>(slots: seq<Slot<D>>, k2: Key, s: nat)
    requires Room(slots)
  {
    exists j :: 0 <= j < Reach(slots, k2) && Probe(k2, |slots|, j) == s
  }

  /** Removing key would cut no other live key off: a check a caller could make before the call. */
  ghost predicate SafeToRemove<D>(slots: seq<Slot<D>>, key: Key)
    requires Room(slots)
  {
    var s := SlotFor(slots, key);
    slots[s].Live? ==>
      forall i :: 0 <= i < |slots| && slots[i].Live? && i != s ==> !PassesThrough(slots, slots[i].key, s)
  }

  /** A probe that does not pass through the bucket goes as before. */
  lemma ReachAround<D>(slots: seq<Slot<D>>, s: nat, k: Key)
    requires Room(slots) && s < |slots| && Room(slots[s := Tombstone])
    requires !PassesThrough(slots, k, s)
    ensures Reach(slots[s := Tombstone], k) == Reach(slots, k)
  {
    var after := slots[s := Tombstone];
    var r := Reach(slots, k);
    forall j | 0 <= j < r ensures !StopsAt(after, k, j) {
      assert !StopsAt(slots, k, j);
      assert Probe(k, |slots|, j) != s;
    }
    assert StopsAt(slots, k, r);
    ReachUnique(after, k, r);
  }

  /** A probe that passes through it ends there, and the search fails. */
  lemma ReachCut<D>(slots: seq<Slot<D>>, s: nat, k: Key)
    requires Room(slots) && s < |slots| && Room(slots[s := Tombstone])
    requires PassesThrough(slots, k, s)
    ensures Lookup(slots[s := Tombstone], k) == None
  {
    var after := slots[s := Tombstone];
    var p :| 0 <= p < Reach(slots, k) && Probe(k, |slots|, p) == s;
    var r := Reach(after, k);
    assert StopsAt(after, k, p);
    assert r <= p;
    assert !StopsAt(slots, k, r);
    assert StopsAt(after, k, r);
  }

  lemma RoomAfterRemoval<D>(slots: seq<Slot<D>>, s: nat)
    requires s < |slots|
    ensures Room(slots[s := Tombstone])
  {
    assert !slots[s := Tombstone][s].Live?;
  }

  lemma RemovalRepresents<D>(slots: seq<Slot<D>>, m: map<Key, D>, key: Key)
    requires Room(slots) && Represents(slots, m) && key in m
    requires SafeToRemove(slots, key) && Room(slots[SlotFor(slots, key) := Tombstone])
    ensures Represents(slots[SlotFor(slots, key) := Tombstone], m - {key})
  {
    var s := SlotFor(slots, key);
    var after, m2 := slots[s := Tombstone], m - {key};
    assert Bound(slots, m, key);
    forall k2 | k2 in m2 ensures Bound(after, m2, k2) {
      assert Bound(slots, m, k2);
      ReachAround(slots, s, k2);
    }
    forall i | 0 <= i < |after| ensures OwnBucket(after, m2, i) {
      assert OwnBucket(slots, m, i);
      if after[i].Live? {
        ReachAround(slots, s, after[i].key);
      }
    }
  }

  /** With the bucket of a bound key made a tombstone every search is right exactly when the removal was safe. */
  lemma FreedBucketExact<D>(slots: seq<Slot<D>>, m: map<Key, D>, key: Key)
    requires Room(slots) && Represents(slots, m) && key in m
    ensures Room(slots[SlotFor(slots, key) := Tombstone])
    ensures (forall k :: Lookup(slots[SlotFor(slots, key) := Tombstone], k) == Get(m - {key}, k))
       <==> SafeToRemove(slots, key)
  {
    var s := SlotFor(slots, key);
    var after, m2 := slots[s := Tombstone], m - {key};
    RoomAfterRemoval(slots, s);
    assert Bound(slots, m, key);
    if SafeToRemove(slots, key) {
      RemovalRepresents(slots, m, key);
      forall k ensures Lookup(after, k) == Get(m2, k) {
        RepresentsLookup(after, m2, k);
      }
    } else {
      var i :| 0 <= i < |slots| && slots[i].Live? && i != s && PassesThrough(slots, slots[i].key, s);
      var k := slots[i].key;
      assert OwnBucket(slots, m, i);
      ReachCut(slots, s, k);
      assert Lookup(after, k) != Get(m2, k);
    }
  }

  // ---------- Runs ----------

  /** Every removal of the run is safe where it happens. */
  ghost predicate RemovalsSafe<D>(t: Table<D>, ops: seq<Op<D>>)
    requires LoadOk(t)
    decreases |ops|
  {
    LoadGivesRoom(t);
    ops != [] ==> (ops[0].RemoveOp? ==> SafeToRemove(t.slots, ops[0].key)) && RemovalsSafe(Do(t, ops[0]).1, ops[1..])
  }

  /** The table is the map m: same bindings, each where it will be found, and count is their number. */
  ghost predicate Is<D>(t: Table<D>, m: map<Key, D>) {
    LoadOk(t) && Room(t.slots) && Represents(t.slots, m) && t.count == |m|
  }

  /** rehash_table keeps the bindings and sets count to the number of live nodes. */
  lemma RehashRefines<D>(t: Table<D>, m: map<Key, D>)
    requires Is(t, m)
    ensures Is(Rehash(t), m) && 7 * Rehash(t).count < 4 * |Rehash(t).slots|
  {
    RehashRepresents(t, m);
    RehashLoad(t);
    LiveCountIsSize(t.slots, m);
  }

  lemma InsertRefines<D>(t: Table<D>, m: map<Key, D>, k: Key, d: D)
    requires Is(t, m)
    ensures Insert(t, k, d).0 == if k in m then 0 else 1
    ensures Is(Insert(t, k, d).1, if k in m then m else m[k := d])
  {
    RehashRefines(t, m);
    InsertLoad(t, k, d);
    LoadGivesRoom(Insert(t, k, d).1);
    var t1 := Rehash(t);
    RepresentsLookup(t1.slots, m, k);
    if k !in m {
      PlaceRepresents(t1.slots, m, k, d);
    }
  }

  lemma RemoveRefines<D>(t: Table<D>, m: map<Key, D>, k: Key)
    requires Is(t, m) && SafeToRemove(t.slots, k)
    ensures Is(Remove(t, k), m - {k})
  {
    RemoveLoad(t, k);
    LoadGivesRoom(Remove(t, k));
    RepresentsLookup(t.slots, m, k);
    if k in m {
      RemovalRepresents(t.slots, m, k);
      assert |m - {k}| == |m| - 1 by { assert m == (m - {k})[k := m[k]]; }
    } else {
      assert m - {k} == m;
    }
  }

  /** After a removal every search is right, and the table is the smaller map, exactly when the removal was safe:
      find_slot stops at the first tombstone even when it is only looking. */
  lemma RemovalExact<D>(t: Table<D>, m: map<Key, D>, key: Key)
    requires Is(t, m)
    ensures Room(Remove(t, key).slots)
    ensures (forall k :: Lookup(Remove(t, key).slots, k) == Get(m - {key}, k)) <==> SafeToRemove(t.slots, key)
    ensures Is(Remove(t, key), m - {key}) <==> SafeToRemove(t.slots, key)
  {
    hide Lookup, SlotFor, LiveCount, PassesThrough;
    var after, m2 := Remove(t, key), m - {key};
    RemoveLoad(t, key);
    LoadGivesRoom(after);
    if Is(after, m2) {
      forall k ensures Lookup(after.slots, k) == Get(m2, k) {
        RepresentsLookup(after.slots, m2, k);
      }
    }
    if SafeToRemove(t.slots, key) {
      RemoveRefines(t, m, key);
    } else {
      LiveIsBound(t.slots, m, key);
      FreedBucketExact(t.slots, m, key);
    }
  }

  lemma LiveIsBound<D>(slots: seq<Slot<D>>, m: map<Key, D>, key: Key)
    requires Room(slots) && Represents(slots, m) && slots[SlotFor(slots, key)].Live?
    ensures key in m
  {
    RepresentsLookup(slots, m, key);
  }

  lemma StepRefines<D>(t: Table<D>, m: map<Key, D>, op: Op<D>)
    requires Is(t, m)
    requires op.RemoveOp? ==> SafeToRemove(t.slots, op.key)
    ensures Do(t, op).0 == DoMap(m, op).0
    ensures Is(Do(t, op).1, DoMap(m, op).1)
  {
    match op {
      case InsertOp(k, d) => InsertRefines(t, m, k, d);
      case FindOp(k) => RepresentsLookup(t.slots, m, k);
      case RemoveOp(k) => RemoveRefines(t, m, k);
    }
  }

  /** Every run whose removals are safe answers as an abstract map would, across any number of rehashes. */
  lemma {:induction false} RunsRefine<D>(t: Table<D>, m: map<Key, D>, ops: seq<Op<D>>)
    requires Is(t, m) && RemovalsSafe(t, ops)
    ensures Run(t, ops).0 == RunMap(m, ops).0
    ensures Is(Run(t, ops).1, RunMap(m, ops).1)
    decreases |ops|
  {
    if ops != [] {
      StepRefines(t, m, ops[0]);
      RunsRefine(Do(t, ops[0]).1, DoMap(m, ops[0]).1, ops[1..]);
    }
  }

  lemma {:induction false} NoRemovalsAreSafe<D>(t: Table<D>, ops: seq<Op<D>>)
    requires LoadOk(t) && forall i :: 0 <= i < |ops| ==> !ops[i].RemoveOp?
    ensures RemovalsSafe(t, ops)
    decreases |ops|
  {
    if ops != [] {
      NoRemovalsAreSafe(Do(t, ops[0]).1, ops[1..]);
    }
  }

  /** Any run of inserts and finds on a new table answers as a map: insert gives 1 and binds only an absent
      key, gives 0 and changes nothing for a present one, find gives exactly the bound data. */
  lemma RemovalFreeRuns<D>(ops: seq<Op<D>>)
    requires forall i :: 0 <= i < |ops| ==> !ops[i].RemoveOp?
    ensures LoadOk(Created<D>())
    ensures Run(Created(), ops).0 == RunMap(map[], ops).0
    ensures Is(Run(Created(), ops).1, RunMap(map[], ops).1)
  {
    CreatedOk<D>();
    NoRemovalsAreSafe(Created<D>(), ops);
    RunsRefine(Created<D>(), map[], ops);
  }

  // ---------- A removal that is not safe ----------

  const KEY_A: Key := [0x61]
  const KEY_E: Key := [0x65]

  lemma XorA()
    ensures Xor(OFFSET_BASIS, 0x61) == 2166136228
  {
    assert Xor(33845879, 1) == 33845878;
    assert Xor(135383516, 6) == 135383514;
    assert Xor(541534065, 24) == 541534057;
  }

  lemma XorE()
    ensures Xor(OFFSET_BASIS, 0x65) == 2166136224
  {
    assert Xor(33845879, 1) == 33845878;
    assert Xor(135383516, 6) == 135383514;
    assert Xor(541534065, 25) == 541534056;
  }

  lemma HashA()
    ensures Fnv(KEY_A) == 0xE40C_292C
  {
    hide Xor;
    XorA();
    assert KEY_A[..0] == [];
    assert Fnv([]) == OFFSET_BASIS;
  }

  lemma HashE()
    ensures Fnv(KEY_E) == 0xE00C_22E0
  {
    hide Xor;
    XorE();
    assert KEY_E[..0] == [];
    assert Fnv([]) == OFFSET_BASIS;
  }

  lemma Collision()
    ensures Home(KEY_A, 4) == 0 && Home(KEY_E, 4) == 0
    ensures Stride(KEY_A, 4) == 1 && Stride(KEY_E, 4) == 1
  {
    hide Fnv;
    HashA();
    HashE();
    MaskIsMod(Fnv(KEY_A), 4);
    MaskIsMod(Fnv(KEY_E), 4);
  }

  lemma CollidingProbes<D>(slots: seq<Slot<D>>, key: Key)
    requires |slots| == 4 && Room(slots) && (key == KEY_A || key == KEY_E)
    ensures Stops(slots[0], key) ==> SlotFor(slots, key) == 0
    ensures !Stops(slots[0], key) && Stops(slots[1], key) ==> SlotFor(slots, key) == 1
  {
    hide Fnv, And, Home, Stride;
    Collision();
    assert Probe(key, 4, 0) == 0 && Probe(key, 4, 1) == 1;
    if Stops(slots[0], key) {
      ReachUnique(slots, key, 0);
    } else if Stops(slots[1], key) {
      ReachUnique(slots, key, 1);
    }
  }

  function OneKey<D>(x: D): Table<D> { Table([Live(KEY_A, x), Empty, Empty, Empty], 1, 0) }
  function TwoKeys<D>(x: D, y: D): Table<D> { Table([Live(KEY_A, x), Live(KEY_E, y), Empty, Empty], 2, 0) }
  function CutOff<D>(y: D, tombstones: int): Table<D> { Table([Tombstone, Live(KEY_E, y), Empty, Empty], 1, tombstones) }

  lemma LostKeyInserts<D>(x: D, y: D)
    ensures LoadOk(Created<D>()) && Do(Created(), InsertOp(KEY_A, x)) == (Code(1), OneKey(x))
    ensures LoadOk(OneKey(x)) && Do(OneKey(x), InsertOp(KEY_E, y)) == (Code(1), TwoKeys(x, y))
  {
    hide Fnv, And, Probe, Reach;
    CreatedOk<D>();
    CollidingProbes(Created<D>().slots, KEY_A);
    assert Created<D>().slots[0 := Live(KEY_A, x)] == OneKey(x).slots;
    assert Do(Created(), InsertOp(KEY_A, x)) == (Code(1), OneKey(x));
    LoadGivesRoom(OneKey(x));
    CollidingProbes(OneKey(x).slots, KEY_E);
    assert OneKey(x).slots[1 := Live(KEY_E, y)] == TwoKeys(x, y).slots;
  }

  lemma LostKeyRemoval<D>(x: D, y: D)
    requires LoadOk(TwoKeys(x, y))
    ensures Do(TwoKeys(x, y), RemoveOp(KEY_A)) == (Silent, CutOff(y, 1))
    ensures LoadOk(CutOff(y, 1)) && Do(CutOff(y, 1), FindOp(KEY_E)) == (Answer(None), CutOff(y, 0))
    ensures LoadOk(CutOff(y, 0)) && Do(CutOff(y, 0), InsertOp(KEY_E, x)).0 == Code(1)
  {
    hide Fnv, And, Probe, Reach;
    LoadGivesRoom(TwoKeys(x, y));
    CollidingProbes(TwoKeys(x, y).slots, KEY_A);
    assert TwoKeys(x, y).slots[0 := Tombstone] == CutOff(y, 1).slots;
    assert Do(TwoKeys(x, y), RemoveOp(KEY_A)) == (Silent, CutOff(y, 1));
    LoadGivesRoom(CutOff(y, 1));
    CollidingProbes(CutOff(y, 1).slots, KEY_E);
  }

  lemma RunOne<D>(t: Table<D>, op: Op<D>, ops: seq<Op<D>>)
    requires LoadOk(t)
    ensures Run(t, [op] + ops).0 == [Do(t, op).0] + Run(Do(t, op).1, ops).0
  {
    assert ([op] + ops)[1..] == ops;
  }

  lemma RunMapOne<D>(m: map<Key, D>, op: Op<D>, ops: seq<Op<D>>)
    ensures RunMap(m, [op] + ops).0 == [DoMap(m, op).0] + RunMap(DoMap(m, op).1, ops).0
  {
    assert ([op] + ops)[1..] == ops;
  }

  /** "a" and "e" share a home bucket: once "a" is removed, "e" is no longer found and is stored a second time. */
  lemma LostKey<D>(x: D, y: D)
    ensures LoadOk(Created<D>())
    ensures var ops := [InsertOp(KEY_A, x)] + ([InsertOp(KEY_E, y)] + ([RemoveOp(KEY_A)] + ([FindOp(KEY_E)] + ([InsertOp(KEY_E, x)] + []))));
      && Run(Created(), ops).0 == [Code(1), Code(1), Silent, Answer(None), Code(1)]
      && RunMap(map[], ops).0 == [Code(1), Code(1), Silent, Answer(Some(y)), Code(0)]
  {
    hide Do, LoadOk;
    LostKeyInserts(x, y);
    LostKeyRemoval(x, y);
    var op5 := [InsertOp(KEY_E, x)] + [];
    var op4 := [FindOp(KEY_E)] + op5;
    var op3 := [RemoveOp(KEY_A)] + op4;
    var op2 := [InsertOp(KEY_E, y)] + op3;
    RunOne(CutOff(y, 0), InsertOp(KEY_E, x), []);
    RunOne(CutOff(y, 1), FindOp(KEY_E), op5);
    RunOne(TwoKeys(x, y), RemoveOp(KEY_A), op4);
    RunOne(OneKey(x), InsertOp(KEY_E, y), op3);
    RunOne(Created(), InsertOp(KEY_A, x), op2);
    var m0: map<Key, D> := map[];
    var m1 := m0[KEY_A := x];
    var m2 := m1[KEY_E := y];
    RunMapOne(m2 - {KEY_A}, InsertOp(KEY_E, x), []);
    RunMapOne(m2 - {KEY_A}, FindOp(KEY_E), op5);
    RunMapOne(m2, RemoveOp(KEY_A), op4);
    RunMapOne(m1, InsertOp(KEY_E, y), op3);
    RunMapOne(m0, InsertOp(KEY_A, x), op2);
    assert KEY_A[0] != KEY_E[0];
  }
}
