/** Comparators, order and stability, shared by the sorts of src/common/array.c and src/common/pointer_list.c. */
module Ordering {
  import opened Sequences

  /** The comparator's sign is antisymmetric and "not greater" is transitive. */
  ghost predicate TotalPreorder<T(!new)>(comp: (T, T) -> int) {
    && (forall x, y :: comp(x, y) > 0 <==> comp(y, x) < 0)
    && (forall x, y, z :: comp(x, y) <= 0 && comp(y, z) <= 0 ==> comp(x, z) <= 0)
  }

  ghost predicate Sorted<T>(s: seq<T>, comp: (T, T) -> int) {
    forall i, j :: 0 <= i < j < |s| ==> comp(s[i], s[j]) <= 0
  }

  /** The elements that compare equal to x, in their order in s. */
  function Class<T>(s: seq<T>, comp: (T, T) -> int, x: T): seq<T> {
    if s == [] then [] else (if comp(x, s[0]) == 0 then [s[0]] else []) + Class(s[1..], comp, x)
  }

  /** Nothing is lost or made, and equal elements keep their relative order. */
  ghost predicate StablePermutation<T(!new)>(a: seq<T>, b: seq<T>, comp: (T, T) -> int) {
    |a| == |b| && multiset(a) == multiset(b) && forall x :: Class(a, comp, x) == Class(b, comp, x)
  }

  lemma {:induction false} ClassAppend<T>(a: seq<T>, b: seq<T>, comp: (T, T) -> int, x: T)
    ensures Class(a + b, comp, x) == Class(a, comp, x) + Class(b, comp, x)
  {
    if a == [] {
      assert a + b == b;
    } else {
      assert (a + b)[1..] == a[1..] + b;
      ClassAppend(a[1..], b, comp, x);
      Assoc(if comp(x, a[0]) == 0 then [a[0]] else [], Class(a[1..], comp, x), Class(b, comp, x));
    }
  }

  function Swapped<T>(s: seq<T>, i: nat): seq<T>
    requires i + 1 < |s|
  {
    s[i := s[i + 1]][i + 1 := s[i]]
  }

  lemma ClassPair<T>(y: T, z: T, comp: (T, T) -> int, x: T)
    ensures Class([y, z], comp, x) == (if comp(x, y) == 0 then [y] else []) + (if comp(x, z) == 0 then [z] else [])
  {
    assert [y, z] == [y] + [z];
    ClassAppend([y], [z], comp, x);
    assert [y][1..] == [] && [z][1..] == [];
  }

  /** Swapping two neighbours that do not compare equal keeps every class. */
  lemma SwapKeepsClass<T(!new)>(s: seq<T>, i: nat, comp: (T, T) -> int, x: T)
    requires i + 1 < |s| && TotalPreorder(comp) && comp(s[i], s[i + 1]) > 0
    ensures Class(Swapped(s, i), comp, x) == Class(s, comp, x)
  {
    hide Class, TotalPreorder;
    var y, z := s[i], s[i + 1];
    var front, back := s[..i], s[i + 2..];
    assert s == front + [y, z] + back;
    assert Swapped(s, i) == front + [z, y] + back;
    ClassThree(front, [y, z], back, comp, x);
    ClassThree(front, [z, y], back, comp, x);
    ClassPair(y, z, comp, x);
    ClassPair(z, y, comp, x);
    NotBothEqual(x, y, z, comp);
  }

  lemma ClassThree<T>(a: seq<T>, b: seq<T>, c: seq<T>, comp: (T, T) -> int, x: T)
    ensures Class(a + b + c, comp, x) == Class(a, comp, x) + Class(b, comp, x) + Class(c, comp, x)
  {
    ClassAppend(a + b, c, comp, x);
    ClassAppend(a, b, comp, x);
  }

  lemma NotBothEqual<T(!new)>(x: T, y: T, z: T, comp: (T, T) -> int)
    requires TotalPreorder(comp) && comp(y, z) > 0
    ensures !(comp(x, y) == 0 && comp(x, z) == 0)
  {
    if comp(y, x) <= 0 && comp(x, z) <= 0 { assert false; }
  }

  lemma SwapIsStable<T(!new)>(s: seq<T>, i: nat, comp: (T, T) -> int)
    requires i + 1 < |s| && TotalPreorder(comp) && comp(s[i], s[i + 1]) > 0
    ensures StablePermutation(s, Swapped(s, i), comp)
  {
    forall x ensures Class(Swapped(s, i), comp, x) == Class(s, comp, x) {
      SwapKeepsClass(s, i, comp, x);
    }
    assert s == s[..i] + [s[i], s[i + 1]] + s[i + 2..];
    assert Swapped(s, i) == s[..i] + [s[i + 1], s[i]] + s[i + 2..];
  }

  lemma StableTransitive<T(!new)>(a: seq<T>, b: seq<T>, c: seq<T>, comp: (T, T) -> int)
    requires StablePermutation(a, b, comp) && StablePermutation(b, c, comp)
    ensures StablePermutation(a, c, comp)
  {
  }

  lemma SameMembers<T(!new)>(a: seq<T>, b: seq<T>, comp: (T, T) -> int)
    requires StablePermutation(a, b, comp)
    ensures forall x :: x in a <==> x in b
  {
    forall x ensures x in a <==> x in b {
      assert x in a <==> x in multiset(a);
      assert x in b <==> x in multiset(b);
    }
  }

  // ---------- The passes of a bubble sort ----------

  /** After step passes the last step elements are in order and no smaller than what stands before them. */
  ghost predicate Settled<T>(s: seq<T>, step: nat, comp: (T, T) -> int)
    requires step <= |s|
  {
    forall i, j :: 0 <= i < j < |s| && |s| - step <= j ==> comp(s[i], s[j]) <= 0
  }

  /** Element i is a greatest one of the first i + 1. */
  ghost predicate GreatestAt<T>(s: seq<T>, i: nat, comp: (T, T) -> int)
    requires i < |s|
  {
    forall k :: 0 <= k < i ==> comp(s[k], s[i]) <= 0
  }

  /** One comparison of the inner loop. */
  function Bubble<T>(s: seq<T>, i: nat, comp: (T, T) -> int): seq<T>
    requires i + 1 < |s|
  {
    if comp(s[i], s[i + 1]) > 0 then Swapped(s, i) else s
  }

  lemma SortStarts<T(!new)>(s: seq<T>, comp: (T, T) -> int)
    ensures Settled(s, 0, comp) && StablePermutation(s, s, comp)
    ensures s != [] ==> GreatestAt(s, 0, comp)
  {
  }

  lemma BubbleCarries<T(!new)>(s: seq<T>, step: nat, i: nat, comp: (T, T) -> int)
    requires TotalPreorder(comp) && step <= |s| && i + 1 < |s| - step
    requires Settled(s, step, comp) && GreatestAt(s, i, comp)
    ensures var t := Bubble(s, i, comp);
      && |t| == |s| && Settled(t, step, comp) && GreatestAt(t, i + 1, comp) && StablePermutation(s, t, comp)
  {
    var t := Bubble(s, i, comp);
    if comp(s[i], s[i + 1]) > 0 {
      SwapIsStable(s, i, comp);
      forall k, j | 0 <= k < j < |t| && |t| - step <= j ensures comp(t[k], t[j]) <= 0 {
        assert t[j] == s[j];
        assert t[k] == s[k] || t[k] == s[i] || t[k] == s[i + 1];
      }
    } else {
      forall k | 0 <= k < i ensures comp(s[k], s[i + 1]) <= 0 {
        assert comp(s[k], s[i]) <= 0 && comp(s[i], s[i + 1]) <= 0;
      }
    }
  }

  lemma PassSettles<T(!new)>(s: seq<T>, step: nat, comp: (T, T) -> int)
    requires TotalPreorder(comp) && step < |s|
    requires Settled(s, step, comp) && GreatestAt(s, |s| - step - 1, comp)
    ensures Settled(s, step + 1, comp)
  {
  }

  lemma SettledIsSorted<T>(s: seq<T>, step: nat, comp: (T, T) -> int)
    requires step <= |s| <= step + 1 && Settled(s, step, comp)
    ensures Sorted(s, comp)
  {
  }

  // ---------- There is only one stable sorting ----------

  lemma {:induction false} ClassMembers<T>(s: seq<T>, comp: (T, T) -> int, x: T)
    ensures forall y :: y in Class(s, comp, x) <==> y in s && comp(x, y) == 0
  {
    if s != [] {
      ClassMembers(s[1..], comp, x);
      assert s == [s[0]] + s[1..];
    }
  }

  lemma SameHead<T(!new)>(a: seq<T>, b: seq<T>, comp: (T, T) -> int)
    requires TotalPreorder(comp) && Sorted(a, comp) && Sorted(b, comp) && a != [] && b != []
    requires forall x :: Class(a, comp, x) == Class(b, comp, x)
    ensures a[0] == b[0]
  {
    ClassMembers(a, comp, a[0]);
    ClassMembers(b, comp, a[0]);
    ClassMembers(a, comp, b[0]);
    ClassMembers(b, comp, b[0]);
    assert comp(a[0], a[0]) == 0 && comp(b[0], b[0]) == 0;
    assert a[0] in Class(b, comp, a[0]) && b[0] in Class(a, comp, b[0]);
    assert a[0] in b && b[0] in a;
    assert comp(a[0], b[0]) <= 0 && comp(b[0], a[0]) <= 0;
    assert comp(a[0], b[0]) == 0;
    assert Class(a, comp, a[0])[0] == a[0];
    assert Class(b, comp, a[0])[0] == b[0];
  }

  /** Two sorted sequences with the same classes are the same: a stable sort has no freedom left. */
  lemma {:induction false} StableSortUnique<T(!new)>(a: seq<T>, b: seq<T>, comp: (T, T) -> int)
    requires TotalPreorder(comp) && Sorted(a, comp) && Sorted(b, comp) && |a| == |b|
    requires forall x :: Class(a, comp, x) == Class(b, comp, x)
    ensures a == b
  {
    hide Class, TotalPreorder, Sorted;
    if a != [] {
      SameHead(a, b, comp);
      SortedTail(a, comp);
      SortedTail(b, comp);
      forall x ensures Class(a[1..], comp, x) == Class(b[1..], comp, x) {
        SameTail(a, b, comp, x);
      }
      StableSortUnique(a[1..], b[1..], comp);
      assert a == [a[0]] + a[1..] && b == [b[0]] + b[1..];
    }
  }

  lemma SortedTail<T>(s: seq<T>, comp: (T, T) -> int)
    requires Sorted(s, comp) && s != []
    ensures Sorted(s[1..], comp)
  {
  }

  lemma SameTail<T>(a: seq<T>, b: seq<T>, comp: (T, T) -> int, x: T)
    requires a != [] && b != [] && a[0] == b[0] && Class(a, comp, x) == Class(b, comp, x)
    ensures Class(a[1..], comp, x) == Class(b[1..], comp, x)
  {
    var head := if comp(x, a[0]) == 0 then [a[0]] else [];
    var p, q := Class(a[1..], comp, x), Class(b[1..], comp, x);
    assert head + p == head + q;
    assert p == (head + p)[|head|..] && q == (head + q)[|head|..];
  }

  // ---------- Searching ----------

  /** What a binary search still has to look at: everything left of low is smaller, right of high greater. */
  ghost predicate Narrowed<T>(s: seq<T>, key: T, low: int, high: int, comp: (T, T) -> int) {
    && 0 <= low <= high + 1 <= |s|
    && (forall i :: 0 <= i < low ==> comp(key, s[i]) > 0)
    && (forall i :: high < i < |s| ==> comp(key, s[i]) < 0)
  }

  lemma AboveToo<T(!new)>(key: T, y: T, z: T, comp: (T, T) -> int)
    requires TotalPreorder(comp) && comp(key, z) > 0 && comp(y, z) <= 0
    ensures comp(key, y) > 0
  {
  }

  lemma BelowToo<T(!new)>(key: T, y: T, z: T, comp: (T, T) -> int)
    requires TotalPreorder(comp) && comp(key, y) < 0 && comp(y, z) <= 0
    ensures comp(key, z) < 0
  {
  }

  lemma NarrowUp<T(!new)>(s: seq<T>, key: T, low: int, high: int, mid: int, comp: (T, T) -> int)
    requires TotalPreorder(comp) && Sorted(s, comp) && Narrowed(s, key, low, high, comp)
    requires low <= mid <= high && comp(key, s[mid]) > 0
    ensures Narrowed(s, key, mid + 1, high, comp)
  {
    forall i | 0 <= i < mid + 1 ensures comp(key, s[i]) > 0 {
      if i < mid { AboveToo(key, s[i], s[mid], comp); }
    }
  }

  lemma NarrowDown<T(!new)>(s: seq<T>, key: T, low: int, high: int, mid: int, comp: (T, T) -> int)
    requires TotalPreorder(comp) && Sorted(s, comp) && Narrowed(s, key, low, high, comp)
    requires low <= mid <= high && comp(key, s[mid]) < 0
    ensures Narrowed(s, key, low, mid - 1, comp)
  {
    forall i | mid - 1 < i < |s| ensures comp(key, s[i]) < 0 {
      if i > mid { BelowToo(key, s[mid], s[i], comp); }
    }
  }
}
