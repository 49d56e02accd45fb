/** The hash table of src/common/hash.c as a value: what each operation answers and leaves behind. */
module HashModel {
  import opened Tokens
  import opened Bits
  import opened Probing

  datatype Table<D> = Table(slots: seq<Slot<D>>, count: int, tombstones: int)

  /** The load invariant: it leaves find_slot a bucket to stop at. */
  ghost predicate LoadOk<D>(t: Table<D>) {
    && IsPow2(|t.slots|) && 4 <= |t.slots|
    && LiveCount(t.slots) <= t.count
    && 7 * (t.count - 1) < 4 * |t.slots|
  }

  lemma LoadGivesRoom<D>(t: Table<D>)
    requires LoadOk(t)
    ensures LiveCount(t.slots) <= t.count < |t.slots|
    ensures Room(t.slots)
  {
    CountGivesRoom(t.slots);
  }

  function Empties<D>(n: nat): (s: seq<Slot<D>>)
    ensures |s| == n && forall i :: 0 <= i < n ==> s[i] == Empty
  {
    seq(n, _ => Empty)
  }

  function Created<D>(): Table<D> {
    Table(Empties(4), 0, 0)
  }

  /** find_slot itself: it takes a tombstone it stops at off the tombstone count, even when only looking. */
  ghost function Visit<D>(t: Table<D>, key: Key): Table<D>
    requires Room(t.slots)
  {
    if t.slots[SlotFor(t.slots, key)].Tombstone? then t.(tombstones := t.tombstones - 1) else t
  }

  /** The loop of rehash_table from bucket i of the old table on. */
  ghost function Reinsert<D>(source: seq<Slot<D>>, i: nat, t: Table<D>): (r: Table<D>)
    requires i <= |source| < |t.slots| && LiveCount(t.slots) <= t.count <= i
    ensures |r.slots| == |t.slots| && LiveCount(r.slots) <= r.count <= |source|
    ensures r.count == t.count + LiveCount(source) - LiveCount(source[..i])
    decreases |source| - i
  {
    if i == |source| then
      assert source[..i] == source;
      t
    else
      assert source[..i + 1][..i] == source[..i];
      if source[i].Live? then
        CountGivesRoom(t.slots);
        var s := SlotFor(t.slots, source[i].key);
        CountUpdate(t.slots, s, source[i]);
        Reinsert(source, i + 1, Table(t.slots[s := source[i]], t.count + 1, Visit(t, source[i].key).tombstones))
      else
        Reinsert(source, i + 1, t)
  }

  ghost function Rehash<D>(t: Table<D>): Table<D>
    requires LoadOk(t)
  {
    if 7 * t.count >= 4 * |t.slots| then
      NoneLive(Empties<D>(2 * |t.slots|));
      Reinsert(t.slots, 0, Table(Empties(2 * |t.slots|), 0, 0))
    else t
  }

  /** One doubling always brings the load back under 4/7, whatever mix of operations came before. */
  lemma RehashLoad<D>(t: Table<D>)
    requires LoadOk(t)
    ensures LoadOk(Rehash(t))
    ensures 7 * Rehash(t).count < 4 * |Rehash(t).slots|
    ensures Rehash(t) != t ==> Rehash(t).count == LiveCount(t.slots) && |Rehash(t).slots| == 2 * |t.slots|
  {
    LoadGivesRoom(t);
    NoneLive(Empties<D>(2 * |t.slots|));
    if 7 * t.count >= 4 * |t.slots| {
      assert LiveCount(t.slots[..0]) == 0;
      assert 2 * |t.slots| / 2 == |t.slots|;
    }
  }

  /** A table without tombstones takes the live nodes in without counting any. */
  lemma {:induction false} ReinsertMeetsNone<D>(source: seq<Slot<D>>, i: nat, t: Table<D>)
    requires i <= |source| < |t.slots| && LiveCount(t.slots) <= t.count <= i
    requires forall s :: 0 <= s < |t.slots| ==> !t.slots[s].Tombstone?
    ensures Reinsert(source, i, t).tombstones == t.tombstones
    decreases |source| - i
  {
    hide LiveCount, SlotFor, Reach;
    if i < |source| {
      if source[i].Live? {
        CountGivesRoom(t.slots);
        var s := SlotFor(t.slots, source[i].key);
        CountUpdate(t.slots, s, source[i]);
        ReinsertMeetsNone(source, i + 1, Table(t.slots[s := source[i]], t.count + 1, Visit(t, source[i].key).tombstones));
      } else {
        ReinsertMeetsNone(source, i + 1, t);
      }
    }
  }

  /** The table grows exactly when the count has reached four sevenths of the capacity: then to twice the capacity,
      with the live nodes counted and no tombstone left; otherwise nothing changes. */
  lemma RehashExact<D>(t: Table<D>)
    requires LoadOk(t)
    ensures 7 * t.count >= 4 * |t.slots| ==>
              var r := Rehash(t);
              |r.slots| == 2 * |t.slots| && r.count == LiveCount(t.slots) && r.tombstones == 0
    ensures 7 * t.count < 4 * |t.slots| ==> Rehash(t) == t
  {
    LoadGivesRoom(t);
    RehashLoad(t);
    if 7 * t.count >= 4 * |t.slots| {
      NoneLive(Empties<D>(2 * |t.slots|));
      ReinsertMeetsNone(t.slots, 0, Table(Empties(2 * |t.slots|), 0, 0));
    }
  }

  ghost function Insert<D>(t: Table<D>, key: Key, data: D): (r: (int, Table<D>))
    requires LoadOk(t)
  {
    RehashLoad(t);
    var t1 := Rehash(t);
    LoadGivesRoom(t1);
    var s := SlotFor(t1.slots, key);
    var t2 := Visit(t1, key);
    if t1.slots[s].Live? then (0, t2)
    else (1, Table(t1.slots[s := Live(key, data)], t1.count + 1, t2.tombstones))
  }

  ghost function Find<D>(t: Table<D>, key: Key): (r: (Option<D>, Table<D>))
    requires LoadOk(t)
  {
    LoadGivesRoom(t);
    (Lookup(t.slots, key), Visit(t, key))
  }

  ghost function Remove<D>(t: Table<D>, key: Key): Table<D>
    requires LoadOk(t)
  {
    LoadGivesRoom(t);
    var s := SlotFor(t.slots, key);
    var t2 := Visit(t, key);
    if t.slots[s].Live? then Table(t.slots[s := Tombstone], t.count - 1, t2.tombstones + 1) else t2
  }

  /** What a search for key finds. */
  ghost function Lookup<D>(slots: seq<Slot<D>>, key: Key): Option<D>
    requires Room(slots)
  {
    var slot := slots[SlotFor(slots, key)];
    if slot.Live? then Some(slot.data) else None
  }

  lemma InsertLoad<D>(t: Table<D>, key: Key, data: D)
    requires LoadOk(t)
    ensures LoadOk(Insert(t, key, data).1)
  {
    RehashLoad(t);
    var t1 := Rehash(t);
    LoadGivesRoom(t1);
    CountUpdate(t1.slots, SlotFor(t1.slots, key), Live(key, data));
  }

  lemma RemoveLoad<D>(t: Table<D>, key: Key)
    requires LoadOk(t)
    ensures LoadOk(Remove(t, key))
  {
    LoadGivesRoom(t);
    var s := SlotFor(t.slots, key);
    CountUpdate(t.slots, s, Tombstone);
  }

  // ---------- Agreement with an abstract map ----------

  /** A live key in bucket i is bound in m, and a search for it ends in this bucket. */
  ghost predicate OwnBucket<D>(slots: seq<Slot<D>>, m: map<Key, D>, i: nat)
    requires Room(slots) && i < |slots|
  {
    slots[i].Live? ==> slots[i].key in m && SlotFor(slots, slots[i].key) == i
  }

  /** A search for k ends at a bucket with its data. */
  ghost predicate Bound<D>(slots: seq<Slot<D>>, m: map<Key, D>, k: Key)
    requires Room(slots) && k in m
  {
    slots[SlotFor(slots, k)] == Live(k, m[k])
  }

  /** The table holds exactly the bindings of m, every one where it will be found. */
  ghost predicate Represents<D>(slots: seq<Slot<D>>, m: map<Key, D>)
    requires Room(slots)
  {
    && (forall i {:trigger OwnBucket(slots, m, i)} :: 0 <= i < |slots| ==> OwnBucket(slots, m, i))
    && (forall k {:trigger Bound(slots, m, k)} :: k in m ==> Bound(slots, m, k))
  }

  function Get<D>(m: map<Key, D>, k: Key): Option<D> {
    if k in m then Some(m[k]) else None
  }

  lemma RepresentsLookup<D>(slots: seq<Slot<D>>, m: map<Key, D>, k: Key)
    requires Room(slots) && Represents(slots, m)
    ensures Lookup(slots, k) == Get(m, k)
  {
    assert OwnBucket(slots, m, SlotFor(slots, k));
    if k in m {
      assert Bound(slots, m, k);
    }
  }

  /** The state of a probe does not change when a bucket it never stops short of is filled. */
  lemma ReachKept<D>(slots: seq<Slot<D>>, s: nat, x: Slot<D>, k: Key)
    requires Room(slots) && s < |slots| && !slots[s].Live? && Room(slots[s := x])
    requires SlotFor(slots, k) == s ==> Stops(x, k)
    ensures Reach(slots[s := x], k) == Reach(slots, k)
  {
    var after := slots[s := x];
    var r := Reach(slots, k);
    forall j | 0 <= j < r ensures !StopsAt(after, k, j) {
      assert !StopsAt(slots, k, j);
    }
    assert StopsAt(slots, k, r);
    ReachUnique(after, k, r);
  }

  /** Storing an absent key where its probe stops, on an empty bucket or a tombstone, adds one binding. */
  lemma PlaceRepresents<D>(slots: seq<Slot<D>>, m: map<Key, D>, k: Key, d: D)
    requires Room(slots) && Represents(slots, m) && k !in m
    requires Room(slots[SlotFor(slots, k) := Live(k, d)])
    ensures Represents(slots[SlotFor(slots, k) := Live(k, d)], m[k := d])
  {
    var s := SlotFor(slots, k);
    var after, m2 := slots[s := Live(k, d)], m[k := d];
    assert OwnBucket(slots, m, s);
    ReachKept(slots, s, Live(k, d), k);
    forall k2 | k2 in m2 ensures Bound(after, m2, k2) {
      if k2 != k {
        assert Bound(slots, m, k2);
        ReachKept(slots, s, Live(k, d), k2);
      }
    }
    forall i | 0 <= i < |after| ensures OwnBucket(after, m2, i) {
      assert OwnBucket(slots, m, i);
      if i != s && after[i].Live? {
        ReachKept(slots, s, Live(k, d), after[i].key);
      }
    }
  }

  lemma EmptiesRepresent<D>(n: nat)
    requires n > 0
    ensures Room(Empties<D>(n)) && Represents<D>(Empties(n), map[])
  {
    assert !Empties<D>(n)[0].Live?;
  }

  /** The bindings whose bucket in the old table lies before i. */
  ghost function Below<D>(slots: seq<Slot<D>>, m: map<Key, D>, i: nat): map<Key, D>
    requires Room(slots)
  {
    map k | k in m && SlotFor(slots, k) < i :: m[k]
  }

  lemma BelowNext<D>(slots: seq<Slot<D>>, m: map<Key, D>, i: nat)
    requires Room(slots) && Represents(slots, m) && i < |slots|
    ensures slots[i].Live? ==>
      slots[i].key !in Below(slots, m, i) && Below(slots, m, i + 1) == Below(slots, m, i)[slots[i].key := slots[i].data]
    ensures !slots[i].Live? ==> Below(slots, m, i + 1) == Below(slots, m, i)
  {
    assert OwnBucket(slots, m, i);
    forall k | k in m && SlotFor(slots, k) == i ensures slots[i] == Live(k, m[k]) {
      assert Bound(slots, m, k);
    }
    if slots[i].Live? {
      assert Bound(slots, m, slots[i].key);
    }
  }

  lemma PlaceNext<D>(slots: seq<Slot<D>>, m: map<Key, D>, i: nat, t: Table<D>)
    requires Room(slots) && Represents(slots, m) && i < |slots| && slots[i].Live?
    requires LiveCount(t.slots) <= t.count <= i && |slots| < |t.slots|
    requires Room(t.slots) && Represents(t.slots, Below(slots, m, i))
    ensures var next := t.slots[SlotFor(t.slots, slots[i].key) := slots[i]];
      LiveCount(next) <= t.count + 1 && Room(next) && Represents(next, Below(slots, m, i + 1))
  {
    var s := SlotFor(t.slots, slots[i].key);
    CountUpdate(t.slots, s, slots[i]);
    CountGivesRoom(t.slots[s := slots[i]]);
    BelowNext(slots, m, i);
    PlaceRepresents(t.slots, Below(slots, m, i), slots[i].key, slots[i].data);
  }

  lemma {:induction false} ReinsertRepresents<D>(slots: seq<Slot<D>>, m: map<Key, D>, i: nat, t: Table<D>)
    requires Room(slots) && Represents(slots, m)
    requires i <= |slots| < |t.slots| && LiveCount(t.slots) <= t.count <= i
    requires Room(t.slots) && Represents(t.slots, Below(slots, m, i))
    ensures Room(Reinsert(slots, i, t).slots)
    ensures Represents(Reinsert(slots, i, t).slots, m)
    decreases |slots| - i
  {
    hide Probe, LiveCount, Reach, OwnBucket, Bound, Stops;
    if i == |slots| {
      assert Below(slots, m, i) == m;
    } else if slots[i].Live? {
      PlaceNext(slots, m, i, t);
      var s := SlotFor(t.slots, slots[i].key);
      var next := Table(t.slots[s := slots[i]], t.count + 1, Visit(t, slots[i].key).tombstones);
      assert Reinsert(slots, i, t) == Reinsert(slots, i + 1, next);
      ReinsertRepresents(slots, m, i + 1, next);
    } else {
      BelowNext(slots, m, i);
      ReinsertRepresents(slots, m, i + 1, t);
    }
  }

  lemma {:induction false} BelowSize<D>(slots: seq<Slot<D>>, m: map<Key, D>, i: nat)
    requires Room(slots) && Represents(slots, m) && i <= |slots|
    ensures |Below(slots, m, i)| == LiveCount(slots[..i])
  {
    if i == 0 {
      assert Below(slots, m, 0) == map[];
    } else {
      BelowSize(slots, m, i - 1);
      BelowNext(slots, m, i - 1);
      assert slots[..i][..i - 1] == slots[..i - 1];
    }
  }

  /** The live buckets are as many as the bindings. */
  lemma LiveCountIsSize<D>(slots: seq<Slot<D>>, m: map<Key, D>)
    requires Room(slots) && Represents(slots, m)
    ensures LiveCount(slots) == |m|
  {
    BelowSize(slots, m, |slots|);
    assert Below(slots, m, |slots|) == m;
    assert slots[..|slots|] == slots;
  }

  /** Rehashing keeps exactly the same bindings, tombstones or not. */
  lemma RehashRepresents<D>(t: Table<D>, m: map<Key, D>)
    requires LoadOk(t) && Room(t.slots) && Represents(t.slots, m)
    ensures Room(Rehash(t).slots) && Represents(Rehash(t).slots, m)
  {
    var larger := Table(Empties<D>(2 * |t.slots|), 0, 0);
    NoneLive(larger.slots);
    EmptiesRepresent<D>(2 * |t.slots|);
    assert Below(t.slots, m, 0) == map[];
    if 7 * t.count >= 4 * |t.slots| {
      ReinsertRepresents(t.slots, m, 0, larger);
    }
  }
}
