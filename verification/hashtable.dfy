/** The hash table of src/common/hash.c, in place: an array of nodes, updated by each operation. */
module HashTables {
  import opened Tokens
  import opened Bits
  import opened Probing
  import opened HashModel

  /** A bucket's node; a node without a key is a tombstone. */
  class HashNode<D> {
    var key: Option<Key>
    var data: D

    constructor (key: Key, data: D)
      ensures this.key == Some(key) && this.data == data
    {
      this.key, this.data := Some(key), data;
    }
  }

  method HashFunc(key: Key) returns (hash: nat)
    ensures hash == Fnv(key)
  {
    hash := OFFSET_BASIS;
    assert key[..0] == [];
    for i := 0 to |key|
      invariant hash == Fnv(key[..i])
    {
      assert key[..i + 1][..i] == key[..i];
      hash := Xor(hash, key[i]);
      hash := hash * FNV_PRIME % WORD;
    }
    assert key[..|key|] == key;
  }

  ghost predicate NodeIs<D>(node: HashNode?<D>, slot: Slot<D>)
    reads node
  {
    match slot
    case Empty => node == null
    case Tombstone => node != null && node.key == None
    case Live(k, d) => node != null && node.key == Some(k) && node.data == d
  }

  /** The buckets of tab hold slots, in distinct nodes. */
  ghost predicate Buckets<D>(tab: array<HashNode?<D>>, slots: seq<Slot<D>>, nodes: set<HashNode<D>>)
    reads tab, nodes
  {
    && tab.Length == |slots|
    && (forall i :: 0 <= i < |slots| ==> tab[i] == null || tab[i] in nodes)
    && (forall i :: 0 <= i < |slots| ==> NodeIs(tab[i], slots[i]))
    && (forall i, j :: 0 <= i < j < |slots| && tab[i] != null ==> tab[i] != tab[j])
  }

  /** No node from bucket i of the old table on is in the new one. */
  ghost predicate Unmoved<D>(oldtab: array<HashNode?<D>>, i: nat, table: array<HashNode?<D>>)
    reads oldtab, table
  {
    forall s, k :: 0 <= s < table.Length && i <= k < oldtab.Length && oldtab[k] != null ==> table[s] != oldtab[k]
  }

  class HashTable<D> {
    var table: array<HashNode?<D>>
    var cap: nat
    var count: int
    var tombstones: int

    ghost var slots: seq<Slot<D>>  // what the buckets hold
    ghost var nodes: set<HashNode<D>>  // the nodes this table owns

    ghost predicate Valid()
      reads this, table, nodes
    {
      cap == |slots| && Buckets(table, slots, nodes) && LoadOk(Model())
    }

    ghost function Model(): Table<D>
      reads this
    {
      Table(slots, count, tombstones)
    }

    constructor ()
      ensures Valid() && fresh(table) && fresh(nodes) && Model() == Created()
      ensures cap == 4 && count == 0 && tombstones == 0 && forall s :: 0 <= s < cap ==> table[s] == null
    {
      count, tombstones := 0, 0;
      cap := 4;
      table := new HashNode?<D>[4](_ => null);
      slots := Empties(4);
      nodes := {};
      NoneLive(Empties<D>(4));
      assert IsPow2(2);
    }

    method FindSlot(key: Key) returns (slot: nat)
      requires Valid()
      modifies this`tombstones
      ensures Valid() && Room(slots)
      ensures slot == SlotFor(slots, key)
      ensures Model() == Visit(old(Model()), key)
      ensures tombstones == old(tombstones) - if slots[slot].Tombstone? then 1 else 0
    {
      hide Fnv, Probe, And, IsPow2, LiveCount;
      LoadGivesRoom(Model());
      var word := HashFunc(key);
      var hash := And(word, cap - 1);
      var inc := And(hash, 15);
      inc := if inc == 0 then 1 else inc;
      ProbeStart(key, cap);
      if table[hash] == null {
        ReachUnique(slots, key, 0);
        return hash;
      }
      ghost var j: nat := 0;
      while true
        invariant j == 0 || j == cap
        invariant j <= Reach(slots, key)
        invariant hash == Probe(key, cap, j)
        invariant inc == if j < cap then Stride(key, cap) else 1
        invariant tombstones == old(tombstones)
        decreases 2 * cap - j
      {
        var i := 0;
        ghost var start := j;
        while i < cap
          invariant 0 <= i <= cap && j == start + i
          invariant j <= Reach(slots, key)
          invariant hash == Probe(key, cap, j)
          invariant tombstones == old(tombstones)
        {
          assert NodeIs(table[hash], slots[hash]);
          if table[hash] == null {
            ReachUnique(slots, key, j);
            return hash;
          } else if table[hash].key == None {
            ReachUnique(slots, key, j);
            tombstones := tombstones - 1;
            return hash;
          } else if table[hash].key.value == key {
            ReachUnique(slots, key, j);
            return hash;
          } else {
            assert !StopsAt(slots, key, j);
            ProbeMasked(key, cap, j, inc);
            hash := And(hash + inc, cap - 1);
            j := j + 1;
          }
          i := i + 1;
        }
        inc := 1;
      }
    }

    /** The body of rehash_table's loop for a node with a key: it moves to the new table. */
    method Move(node: HashNode<D>)
      requires Valid() && node in nodes && node.key.Some?
      requires forall s :: 0 <= s < cap ==> table[s] != node
      requires 7 * count < 4 * cap
      modifies this, table
      ensures Valid() && table == old(table) && nodes == old(nodes) && cap == old(cap)
      ensures forall s :: 0 <= s < cap ==> table[s] == old(table[s]) || table[s] == node
      ensures Room(old(slots))
      ensures var key := node.key.value;
        Model() == Table(old(slots)[SlotFor(old(slots), key) := Live(key, node.data)], old(count) + 1,
                         Visit(old(Model()), key).tombstones)
    {
      hide Fnv, Probe, Reach, LiveCount, SlotFor;
      var slot := FindSlot(node.key.value);
      ghost var x := Live(node.key.value, node.data);
      CountUpdate(slots, slot, x);
      table[slot] := node;
      slots := slots[slot := x];
      count := count + 1;
    }

    /** Doubles the capacity and starts with an empty table. */
    method Enlarge()
      requires Valid()
      modifies this
      ensures Valid() && cap == 2 * old(cap) && nodes == old(nodes) && fresh(table)
      ensures Model() == Table(Empties(2 * old(cap)), 0, 0)
      ensures forall s :: 0 <= s < cap ==> table[s] == null
    {
      cap := cap * 2;
      tombstones, count := 0, 0;
      table := new HashNode?<D>[cap](_ => null);
      slots := Empties(cap);
      NoneLive(slots);
      assert cap / 2 == old(cap);
    }

    /** The body of rehash_table's loop. */
    method MoveBucket(oldtab: array<HashNode?<D>>, i: nat, ghost oldslots: seq<Slot<D>>)
      requires Valid() && oldtab != table && Buckets(oldtab, oldslots, nodes) && Unmoved(oldtab, i, table)
      requires i < |oldslots| && 2 * |oldslots| == cap && count <= i
      modifies this, table
      ensures Valid() && table == old(table) && nodes == old(nodes) && cap == old(cap)
      ensures Buckets(oldtab, oldslots, nodes) && Unmoved(oldtab, i + 1, table)
      ensures old(LiveCount(slots) <= count) && LiveCount(slots) <= count <= i + 1
      ensures Reinsert(oldslots, i + 1, Model()) == Reinsert(oldslots, i, old(Model()))
    {
      hide Fnv, Probe, Reach, LiveCount, SlotFor;
      assert NodeIs(oldtab[i], oldslots[i]);
      if oldtab[i] != null && oldtab[i].key.Some? {
        Move(oldtab[i]);
      }
    }

    method RehashTable()
      requires Valid()
      modifies this
      ensures Valid() && Model() == Rehash(old(Model()))
      ensures 7 * old(count) >= 4 * old(cap) ==>
        cap == 2 * old(cap) && count == old(LiveCount(slots)) && tombstones == 0
      ensures 7 * old(count) < 4 * old(cap) ==>
        cap == old(cap) && count == old(count) && tombstones == old(tombstones) && slots == old(slots)
      ensures nodes == old(nodes) && (table == old(table) || fresh(table))
    {
      RehashExact(Model());
      if 7 * count >= 4 * cap {  // at four sevenths of the capacity
        hide Fnv, Probe, Reach, LiveCount, SlotFor;
        ghost var goal := Rehash(Model());
        ghost var oldslots := slots;
        LoadGivesRoom(Model());
        var oldcap, oldtab := cap, table;
        Enlarge();
        for i := 0 to oldcap
          invariant cap == 2 * oldcap && count <= i
          invariant fresh(table) && nodes == old(nodes)
          invariant Valid() && Buckets(oldtab, oldslots, nodes) && Unmoved(oldtab, i, table)
          invariant Reinsert(oldslots, i, Model()) == goal
        {
          MoveBucket(oldtab, i, oldslots);
        }
      }
    }

    /** The end of insert_hashtable: the key goes into an empty bucket or onto a tombstone. */
    method StoreKey(slot: nat, key: Key, data: D)
      requires Valid() && slot < cap && !slots[slot].Live? && 7 * count < 4 * cap
      modifies this, table, nodes
      ensures Valid() && table == old(table) && fresh(nodes - old(nodes))
      ensures Model() == Table(old(slots)[slot := Live(key, data)], old(count) + 1, old(tombstones))
    {
      hide LiveCount;
      CountUpdate(slots, slot, Live(key, data));
      assert NodeIs(table[slot], slots[slot]);
      if table[slot] == null {
        var node := new HashNode<D>(key, data);
        table[slot] := node;
        nodes := nodes + {node};
      }
      table[slot].key := Some(key);
      table[slot].data := data;
      slots := slots[slot := Live(key, data)];
      count := count + 1;
    }

    method InsertKey(key: Key, data: D) returns (r: int)
      requires Valid()
      modifies this, table, nodes
      ensures Valid() && (r, Model()) == Insert(old(Model()), key, data)
      ensures cap == if 7 * old(count) >= 4 * old(cap) then 2 * old(cap) else old(cap)
      ensures count == (if 7 * old(count) >= 4 * old(cap) then old(LiveCount(slots)) else old(count)) + r
      ensures fresh(nodes - old(nodes)) && (table == old(table) || fresh(table))
    {
      hide Fnv, Probe, Reach, LiveCount, SlotFor, Rehash;
      RehashLoad(Model());
      RehashTable();
      var slot := FindSlot(key);
      assert NodeIs(table[slot], slots[slot]);
      if table[slot] != null {
        if table[slot].key.Some? {
          return 0;
        }
      }
      StoreKey(slot, key, data);
      return 1;
    }

    method FindKey(key: Key) returns (found: bool, data: Option<D>)
      requires Valid()
      modifies this`tombstones
      ensures Valid() && (data, Model()) == Find(old(Model()), key)
      ensures slots == old(slots) && count == old(count)
      ensures found == data.Some?
    {
      hide Fnv, Probe, Reach, LiveCount;
      data := None;
      var slot := FindSlot(key);
      assert NodeIs(table[slot], slots[slot]);
      if table[slot] != null && table[slot].key.Some? {
        if table[slot].key.value == key {
          data := Some(table[slot].data);
          return true, data;
        }
      }
      return false, data;
    }

    method RemoveKey(key: Key)
      requires Valid()
      modifies this, nodes
      ensures Valid() && Model() == Remove(old(Model()), key)
      ensures old(Room(slots)) && var s := SlotFor(old(slots), key);
        if old(slots)[s].Live? then
          slots == old(slots)[s := Tombstone] && count == old(count) - 1 && tombstones == old(tombstones) + 1
        else
          slots == old(slots) && count == old(count)
          && tombstones == old(tombstones) - if old(slots)[s].Tombstone? then 1 else 0
      ensures table == old(table) && nodes == old(nodes)
    {
      hide Fnv, Probe, Reach, LiveCount, SlotFor;
      RemoveLoad(Model(), key);
      var slot := FindSlot(key);
      assert NodeIs(table[slot], slots[slot]);
      if table[slot] != null && table[slot].key.Some? {
        if table[slot].key.value == key {
          table[slot].key := None;
          slots := slots[slot := Tombstone];
          count := count - 1;
          tombstones := tombstones + 1;
        }
      }
    }

    method NameExists(key: Key) returns (r: int)
      requires Valid()
      modifies this`tombstones
      ensures Valid() && Model() == Find(old(Model()), key).1
      ensures slots == old(slots) && count == old(count)
      ensures r == if Find(old(Model()), key).0.Some? then 1 else 0
    {
      hide Fnv, Probe, Reach, LiveCount;
      var slot := FindSlot(key);
      assert NodeIs(table[slot], slots[slot]);
      if table[slot] != null && table[slot].key.Some? {
        if table[slot].key.value == key {
          return 1;
        }
      }
      return 0;
    }
  }
}
