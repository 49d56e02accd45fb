/** The probe sequence of src/common/hash.c and the slot a key is looked for in. */
module Probing {
  import opened Bits

  type Key = seq<Byte>

  const OFFSET_BASIS := 2166136261
  const FNV_PRIME := 16777619
  const WORD := 0x1_0000_0000

  /** FNV-1a, 32 bits (section 2 of draft-eastlake-fnv), on unsigned 32-bit words. */
  function Fnv(key: Key): (hash: nat)
    ensures hash < WORD
  {
    if key == [] then OFFSET_BASIS
    else Xor(Fnv(key[..|key| - 1]), key[|key| - 1]) * FNV_PRIME % WORD
  }

  lemma FnvNext(key: Key, b: Byte, q: nat, r: Byte)
    requires Fnv(key) == 0x100 * q + r
    ensures Fnv(key + [b]) == (0x100 * q + Xor(r, b)) * FNV_PRIME % WORD
  {
    hide Xor;
    assert (key + [b])[..|key|] == key;
    XorByte(q, r, b);
  }

  lemma HexXors()
    ensures Xor(0xC, 6) == 0xA && Xor(5, 6) == 3 && Xor(9, 6) == 0xF && Xor(9, 0xF) == 6
    ensures Xor(4, 6) == 2 && Xor(2, 0xF) == 0xD && Xor(0xD, 6) == 0xB && Xor(7, 2) == 5
    ensures Xor(0xE, 6) == 8 && Xor(0xF, 1) == 0xE && Xor(8, 7) == 0xF && Xor(0xA, 2) == 8
  {
    hide Xor;
    XorBits(0xC, 6);
    XorBits(5, 6);
    XorBits(9, 6);
    XorBits(9, 0xF);
    XorBits(4, 6);
    XorBits(2, 0xF);
    XorBits(0xD, 6);
    XorBits(7, 2);
    XorBits(0xE, 6);
    XorBits(0xF, 1);
    XorBits(8, 7);
    XorBits(0xA, 2);
  }

  lemma FoobarXors()
    ensures Xor(0xC5, 0x66) == 0xA3 && Xor(0x99, 0x6F) == 0xF6 && Xor(0x42, 0x6F) == 0x2D
    ensures Xor(0xD7, 0x62) == 0xB5 && Xor(0xEF, 0x61) == 0x8E && Xor(0x8A, 0x72) == 0xF8
  {
    HexXors();
    hide Xor;
    XorHex(0xC, 5, 6, 6);
    XorHex(9, 9, 6, 0xF);
    XorHex(4, 2, 6, 0xF);
    XorHex(0xD, 7, 6, 2);
    XorHex(0xE, 0xF, 6, 1);
    XorHex(8, 0xA, 7, 2);
  }

  /** The published hash of "foobar". */
  lemma HashFoobar()
    ensures Fnv([0x66, 0x6F, 0x6F, 0x62, 0x61, 0x72]) == 0xBF9C_F968
  {
    hide Fnv, Xor;
    assert Fnv([]) == 0x811C_9DC5 by { FnvEmpty(); }
    FoobarXors();
    var f: Key := [] + [0x66];
    var fo := f + [0x6F];
    var foo := fo + [0x6F];
    var foob := foo + [0x62];
    var fooba := foob + [0x61];
    FnvNext([], 0x66, 0x81_1C9D, 0xC5);
    FnvNext(f, 0x6F, 0xE3_0C27, 0x99);
    FnvNext(fo, 0x6F, 0x62_22E8, 0x42);
    FnvNext(foo, 0x62, 0xA9_F37E, 0xD7);
    FnvNext(foob, 0x61, 0x3F_5076, 0xEF);
    FnvNext(fooba, 0x72, 0x39_AAA1, 0x8A);
    assert fooba + [0x72] == [0x66, 0x6F, 0x6F, 0x62, 0x61, 0x72];
  }

  lemma FnvEmpty()
    ensures Fnv([]) == OFFSET_BASIS
  {
  }

  function Home(key: Key, cap: nat): (h: nat)
    requires cap > 0
    ensures h < cap
  {
    And(Fnv(key), cap - 1)
  }

  function Stride(key: Key, cap: nat): (s: nat)
    requires cap > 0
    ensures s > 0
  {
    var s := And(Home(key, cap), 15);
    if s == 0 then 1 else s
  }

  /** In a power-of-two table the home bucket is the hash modulo the capacity, and the stride is the home
      bucket's low four bits, never 0. */
  lemma ProbeParameters(key: Key, cap: nat)
    requires IsPow2(cap)
    ensures Home(key, cap) == Fnv(key) % cap
    ensures 1 <= Stride(key, cap) <= 15
    ensures Stride(key, cap) == Home(key, cap) % 16 || (Home(key, cap) % 16 == 0 && Stride(key, cap) == 1)
  {
    hide Fnv;
    MaskIsMod(Fnv(key), cap);
    assert IsPow2(16) by { assert IsPow2(2) && IsPow2(4) && IsPow2(8); }
    MaskIsMod(Home(key, cap), 16);
  }

  /** A bucket of the table: no node, a node without a key, or a node with one. */
  datatype Slot<D> = Empty | Tombstone | Live(key: Key, data: D)

  /** The bucket examined after j steps: cap strided steps come back to the home bucket, then the stride is 1. */
  function Probe(key: Key, cap: nat, j: nat): (i: nat)
    requires cap > 0
    ensures i < cap
  {
    if j < cap then (Home(key, cap) + j * Stride(key, cap)) % cap else (Home(key, cap) + (j - cap)) % cap
  }

  lemma ProbeStart(key: Key, cap: nat)
    requires cap > 0
    ensures Probe(key, cap, 0) == Home(key, cap)
  {
    ModUnique(Home(key, cap), 0, Home(key, cap), cap);
  }

  /** For any stride, cap steps of it end where they began. */
  lemma FullCircle(key: Key, cap: nat)
    requires cap > 0
    ensures (Home(key, cap) + cap * Stride(key, cap)) % cap == Home(key, cap)
    ensures Probe(key, cap, cap) == Home(key, cap)
  {
    ModUnique(Home(key, cap) + cap * Stride(key, cap), Stride(key, cap), Home(key, cap), cap);
    ModUnique(Home(key, cap), 0, Home(key, cap), cap);
  }

  lemma OneStrideMore(h: nat, j: nat, s: nat)
    ensures h + j * s + s == h + (j + 1) * s
  {
  }

  /** One pass of the inner loop, whichever stride is in force. */
  lemma ProbeNext(key: Key, cap: nat, j: nat)
    requires cap > 0
    ensures j < cap ==> Probe(key, cap, j + 1) == (Probe(key, cap, j) + Stride(key, cap)) % cap
    ensures j >= cap ==> Probe(key, cap, j + 1) == (Probe(key, cap, j) + 1) % cap
  {
    hide Home, Stride;
    var h, s := Home(key, cap), Stride(key, cap);
    if j < cap {
      ModAdd(h + j * s, s, cap);
      OneStrideMore(h, j, s);
      if j + 1 == cap { FullCircle(key, cap); }
    } else {
      ModAdd(h + (j - cap), 1, cap);
    }
  }

  /** The step as find_slot takes it, with a mask. */
  lemma ProbeMasked(key: Key, cap: nat, j: nat, inc: nat)
    requires IsPow2(cap) && inc == if j < cap then Stride(key, cap) else 1
    ensures Probe(key, cap, j + 1) == And(Probe(key, cap, j) + inc, cap - 1)
  {
    ProbeNext(key, cap, j);
    MaskIsMod(Probe(key, cap, j) + inc, cap);
  }

  /** The second pass visits every bucket. */
  lemma SecondPassReaches(key: Key, cap: nat, i: nat) returns (j: nat)
    requires i < cap
    ensures cap <= j < 2 * cap && Probe(key, cap, j) == i
  {
    var h := Home(key, cap);
    if h <= i {
      j := cap + (i - h);
      ModUnique(i, 0, i, cap);
    } else {
      j := cap + (i + cap - h);
      ModUnique(i + cap, 1, i, cap);
    }
  }

  // ---------- Where find_slot stops ----------

  predicate Stops<D>(slot: Slot<D>, key: Key) {
    slot.Live? ==> slot.key == key
  }

  predicate StopsAt<D>(slots: seq<Slot<D>>, key: Key, j: nat)
    requires |slots| > 0
  {
    Stops(slots[Probe(key, |slots|, j)], key)
  }

  /** Some bucket has no live key in it. */
  ghost predicate Room<D>(slots: seq<Slot<D>>) {
    exists i :: 0 <= i < |slots| && !slots[i].Live?
  }

  /** Some step from j on, within the two passes, is a stop. */
  ghost predicate WillStop<D>(slots: seq<Slot<D>>, key: Key, j: nat)
    requires |slots| > 0
  {
    exists k :: j <= k < 2 * |slots| && StopsAt(slots, key, k)
  }

  ghost function FirstStop<D>(slots: seq<Slot<D>>, key: Key, j: nat): (k: nat)
    requires |slots| > 0 && WillStop(slots, key, j)
    ensures j <= k < 2 * |slots| && StopsAt(slots, key, k)
    ensures forall i :: j <= i < k ==> !StopsAt(slots, key, i)
    decreases 2 * |slots| - j
  {
    if StopsAt(slots, key, j) then j else FirstStop(slots, key, j + 1)
  }

  lemma RoomStops<D>(slots: seq<Slot<D>>, key: Key)
    requires Room(slots)
    ensures |slots| > 0 && WillStop(slots, key, 0)
  {
    var i :| 0 <= i < |slots| && !slots[i].Live?;
    var j := SecondPassReaches(key, |slots|, i);
    assert StopsAt(slots, key, j);
  }

  /** How far a key's probe goes, and the bucket find_slot returns for it. */
  ghost function Reach<D>(slots: seq<Slot<D>>, key: Key): (j: nat)
    requires Room(slots)
    ensures |slots| > 0 && j < 2 * |slots| && StopsAt(slots, key, j)
    ensures forall i :: 0 <= i < j ==> !StopsAt(slots, key, i)
  {
    RoomStops(slots, key);
    FirstStop(slots, key, 0)
  }

  ghost function SlotFor<D>(slots: seq<Slot<D>>, key: Key): (i: nat)
    requires Room(slots)
    ensures i < |slots| && Stops(slots[i], key)
  {
    Probe(key, |slots|, Reach(slots, key))
  }

  lemma ReachUnique<D>(slots: seq<Slot<D>>, key: Key, j: nat)
    requires Room(slots) && StopsAt(slots, key, j)
    requires forall i :: 0 <= i < j ==> !StopsAt(slots, key, i)
    ensures Reach(slots, key) == j
  {
  }

  // ---------- Counting live buckets ----------

  function LiveCount<D>(slots: seq<Slot<D>>): (n: nat)
    ensures n <= |slots|
  {
    if slots == [] then 0
    else LiveCount(slots[..|slots| - 1]) + if slots[|slots| - 1].Live? then 1 else 0
  }

  lemma {:induction false} CountGivesRoom<D>(slots: seq<Slot<D>>)
    requires LiveCount(slots) < |slots|
    ensures Room(slots)
  {
    var n := |slots| - 1;
    if slots[n].Live? {
      CountGivesRoom(slots[..n]);
      var i :| 0 <= i < n && !slots[..n][i].Live?;
      assert !slots[i].Live?;
    }
  }

  lemma {:induction false} CountUpdate<D>(slots: seq<Slot<D>>, i: nat, x: Slot<D>)
    requires i < |slots|
    ensures LiveCount(slots[i := x]) ==
            LiveCount(slots) - (if slots[i].Live? then 1 else 0) + (if x.Live? then 1 else 0)
  {
    var n := |slots| - 1;
    if i == n {
      assert slots[i := x][..n] == slots[..n];
    } else {
      CountUpdate(slots[..n], i, x);
      assert slots[i := x][..n] == slots[..n][i := x];
    }
  }

  lemma {:induction false} NoneLive<D>(slots: seq<Slot<D>>)
    requires forall i :: 0 <= i < |slots| ==> !slots[i].Live?
    ensures LiveCount(slots) == 0
  {
    if slots != [] {
      NoneLive(slots[..|slots| - 1]);
    }
  }
}
