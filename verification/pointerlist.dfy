/** The growable pointer list of src/common/pointer_list.c. */
module PointerLists {
  import opened Tokens
  import opened Bits
  import opened Ordering

  class PointerList<T(0,!new)> {
    var buffer: array<T>
    var cap: nat
    var len: nat
    var isSorted: bool

    ghost predicate Valid()
      reads this, buffer
    {
      len <= cap == buffer.Length && 8 <= cap && IsPow2(cap)
    }

    ghost function Contents(): seq<T>
      requires Valid()
      reads this, buffer
    {
      buffer[..len]
    }

    constructor ()
      ensures Valid() && fresh(buffer) && Contents() == [] && !isSorted && cap == 8
    {
      len, cap, isSorted := 0, 8, false;
      buffer := new T[8];
      assert IsPow2(4) && IsPow2(2);
    }

    method Append(x: T)
      requires Valid()
      modifies this, buffer
      ensures Valid() && (buffer == old(buffer) || fresh(buffer))
      ensures Contents() == old(Contents()) + [x] && !isSorted
      ensures cap == if old(len) == old(cap) then 2 * old(cap) else old(cap)
    {
      if len + 1 > cap {
        cap := cap * 2;
        var bigger := new T[cap];
        forall i | 0 <= i < len {
          bigger[i] := buffer[i];
        }
        assert cap / 2 == old(cap);
        assert bigger[..len] == buffer[..len];
        buffer := bigger;
      }
      buffer[len] := x;
      len := len + 1;
      isSorted := false;
      assert buffer[..len] == buffer[..len - 1] + [x];
    }

    /** The item at index, None outside the list. A negative index that reaches into the list is read beyond
        its end in the source, so callers must not pass one. */
    method Index(index: int) returns (x: Option<T>)
      requires Valid() && (index >= 0 || -index >= len)
      ensures x == if 0 <= index < len then Some(Contents()[index]) else None
    {
      if 0 <= index < len {
        return Some(buffer[index]);
      }
      return None;
    }

    method Pop() returns (x: Option<T>)
      requires Valid()
      modifies this`len
      ensures Valid() && isSorted == old(isSorted)
      ensures var n := |old(Contents())|;
        if n == 0 then x == None && Contents() == []
        else x == Some(old(Contents())[n - 1]) && Contents() == old(Contents())[..n - 1]
    {
      x := None;
      if len > 0 {
        x := Some(buffer[len - 1]);
        len := len - 1;
      }
    }

    method Iterate(post: int) returns (x: Option<T>, post': int)
      requires Valid()
      ensures 0 <= post < len ==> x == Some(Contents()[post]) && post' == post + 1
      ensures !(0 <= post < len) ==> x == None && post' == post
    {
      if 0 <= post < len {
        return Some(buffer[post]), post + 1;
      }
      return None, post;
    }

    /** One comparison of the inner loop of sort_ptr_list. */
    method CompareAt(i: nat, comp: (T, T) -> int)
      requires Valid() && i + 1 < len
      modifies buffer
      ensures Valid() && Contents() == Bubble(old(Contents()), i, comp)
    {
      if comp(buffer[i], buffer[i + 1]) > 0 {
        buffer[i], buffer[i + 1] := buffer[i + 1], buffer[i];
      }
    }

    /** Bubble sort. */
    method Sort(comp: (T, T) -> int)
      requires Valid() && TotalPreorder(comp)
      modifies this`isSorted, buffer
      ensures Valid() && isSorted
      ensures Sorted(Contents(), comp) && StablePermutation(old(Contents()), Contents(), comp)
    {
      hide TotalPreorder, Settled, GreatestAt, Sorted, StablePermutation, Bubble;
      ghost var before := Contents();
      SortStarts(before, comp);
      var step := 0;
      while step < len - 1
        invariant 0 <= step <= len && (len > 0 ==> step < len)
        invariant StablePermutation(before, Contents(), comp) && Settled(Contents(), step, comp)
      {
        var i := 0;
        SortStarts(Contents(), comp);
        while i < len - step - 1
          invariant 0 <= i <= len - step - 1
          invariant StablePermutation(before, Contents(), comp) && Settled(Contents(), step, comp)
          invariant GreatestAt(Contents(), i, comp)
        {
          ghost var s := Contents();
          BubbleCarries(s, step, i, comp);
          CompareAt(i, comp);
          StableTransitive(before, s, Contents(), comp);
          i := i + 1;
        }
        PassSettles(Contents(), step, comp);
        step := step + 1;
      }
      SettledIsSorted(Contents(), step, comp);
      isSorted := true;
    }

    /** Binary search; a list that is not flagged as sorted is never searched. */
    method FindIndex(key: T, comp: (T, T) -> int) returns (idx: int)
      requires Valid() && TotalPreorder(comp) && (isSorted ==> Sorted(Contents(), comp))
      ensures -1 <= idx < len
      ensures !isSorted ==> idx == -1
      ensures idx >= 0 ==> comp(key, Contents()[idx]) == 0
      ensures isSorted ==> (idx >= 0 <==> exists i :: 0 <= i < len && comp(key, Contents()[i]) == 0)
    {
      if !isSorted {
        return -1;
      }
      var low, high := 0, len - 1;
      while low <= high
        invariant Narrowed(Contents(), key, low, high, comp)
        decreases high - low
      {
        var mid := low + (high - low) / 2;
        var val := comp(key, buffer[mid]);
        if val == 0 {
          assert comp(key, Contents()[mid]) == 0;
          return mid;
        }
        if val > 0 {
          NarrowUp(Contents(), key, low, high, mid, comp);
          low := mid + 1;
        } else {
          NarrowDown(Contents(), key, low, high, mid, comp);
          high := mid - 1;
        }
      }
      return -1;
    }

    method Copy() returns (lst: PointerList<T>)
      requires Valid()
      ensures fresh(lst) && fresh(lst.buffer) && lst.Valid() && lst.Contents() == Contents() && !lst.isSorted
    {
      lst := new PointerList<T>();
      for i := 0 to len
        invariant fresh(lst) && fresh(lst.buffer) && lst.Valid() && !lst.isSorted
        invariant lst.Contents() == Contents()[..i]
      {
        lst.Append(buffer[i]);
      }
    }
  }
}
