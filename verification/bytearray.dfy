/** The growable array of src/common/array.c: items packed in a byte buffer, sorted only when searched. */
module ByteArrays {
  import opened Tokens
  import opened Bits
  import opened Items
  import opened Ordering

  /** normalize_write_index: -k means length - (k - 1); None is its error exit. */
  function WriteIndex(length: nat, index: int): Option<int> {
    if index < 0 then
      if index == -1 then Some(length) else Some(length + (index + 1))
    else if index <= length then Some(index)
    else None
  }

  /** normalize_read_index: -k means length - k; None is its error exit. */
  function ReadIndex(length: nat, index: int): Option<int> {
    if index < 0 then
      if index == -1 then Some(length - 1) else Some(length + index)
    else if index <= length then Some(index)
    else None
  }

  /** memmove within one buffer. */
  method MemMove(a: array<Byte>, dst: nat, src: nat, n: nat)
    requires dst + n <= a.Length && src + n <= a.Length
    modifies a
    ensures a[..] == old(a[..dst] + a[src..src + n] + a[dst + n..])
  {
    forall k | 0 <= k < n {
      a[dst + k] := a[src + k];
    }
  }

  /** memcpy into a buffer from bytes outside it. */
  method MemCpy(a: array<Byte>, dst: nat, bytes: seq<Byte>)
    requires dst + |bytes| <= a.Length
    modifies a
    ensures a[..] == old(a[..dst]) + bytes + old(a[dst + |bytes|..])
  {
    forall k | 0 <= k < |bytes| {
      a[dst + k] := bytes[k];
    }
  }

  lemma SpliceBytes(a: seq<Byte>, b: seq<Byte>, c: seq<Byte>, bytes: seq<Byte>, at: nat, used: nat)
    requires at <= used && used + |bytes| <= |a|
    requires b == a[..at + |bytes|] + a[at..used] + a[used + |bytes|..]
    requires c == b[..at] + bytes + b[at + |bytes|..]
    ensures c[..used + |bytes|] == a[..used][..at] + bytes + a[..used][at..]
  {
  }

  /** The byte offsets of an insertion of m items at idx. */
  lemma Offsets(size: nat, idx: nat, length: nat, m: nat, capacity: nat)
    requires idx <= length && length + m <= capacity
    ensures 0 <= size * idx <= size * length && 0 <= size * m
    ensures size * (idx + m) == size * idx + size * m
    ensures size * (length - idx) == size * length - size * idx
    ensures size * (length + m) == size * length + size * m <= size * capacity
  {
    OffsetBound(size, idx, length);
    OffsetBound(size, length + m, capacity);
  }

  lemma TopInRange(size: nat, n: nat)
    requires size > 0 && n > 0
    ensures n - 1 + size <= size * n
    ensures n - 1 + size == size * n <==> n == 1 || size == 1
  {
    assert size * n - (n - 1 + size) == (size - 1) * (n - 1);
    if n > 1 && size > 1 {
      MultipleIsFar(n - 1, size - 1);
    }
  }

  /** The bytes a caller of pop_array or peek_array reads as the top of n items. */
  function BytesAt(bytes: seq<Byte>, size: nat, n: nat): seq<Byte>
    requires size > 0 && n > 0 && |bytes| == size * n
  {
    TopInRange(size, n);
    bytes[n - 1..n - 1 + size]
  }

  /** The top read this way is the last item, whatever the bytes, exactly when there is one item only or items
      are single bytes: the address is not scaled by the item size. */
  lemma TopIsLastItem(size: nat, n: nat)
    requires size > 0 && n > 0
    ensures (forall bytes: seq<Byte> :: |bytes| == size * n ==> BytesAt(bytes, size, n) == Decode(bytes, size, n)[n - 1])
       <==> n == 1 || size == 1
  {
    TopInRange(size, n);
    OneMore(size, n - 1);
    if n == 1 || size == 1 {
      forall bytes: seq<Byte> | |bytes| == size * n ensures BytesAt(bytes, size, n) == Decode(bytes, size, n)[n - 1] {
        DecodeAt(bytes, size, n, n - 1);
      }
    } else {
      var bytes: seq<Byte> := seq(size * n, i => if i == size * n - 1 then 1 else 0);
      DecodeAt(bytes, size, n, n - 1);
      assert BytesAt(bytes, size, n)[size - 1] == 0;
      assert Decode(bytes, size, n)[n - 1][size - 1] == 1;
    }
  }

  /** Two saved pairs of four-byte counters, the second with one atom: the pop gives a pair without it. */
  lemma LostAtom()
    ensures var outer: Item := [0, 0, 0, 0, 0, 0, 0, 0];
      var inner: Item := [0, 0, 0, 0, 1, 0, 0, 0];
      Decode(outer + inner, 8, 2)[1] == inner && BytesAt(outer + inner, 8, 2) == outer
  {
    var outer: Item := [0, 0, 0, 0, 0, 0, 0, 0];
    var inner: Item := [0, 0, 0, 0, 1, 0, 0, 0];
    DecodeAt(outer + inner, 8, 2, 1);
  }

  class ByteArray {
    var buffer: array<Byte>
    var capacity: nat
    var length: nat
    var isSorted: bool
    const size: nat
    const comp: Option<(Item, Item) -> int>

    ghost predicate Valid()
      reads this, buffer
    {
      && buffer.Length == size * capacity
      && 8 <= capacity && IsPow2(capacity) && length <= capacity
      && size * length <= buffer.Length
      && (comp.Some? ==> TotalPreorder(comp.value))
      && (isSorted ==> comp.Some? && Sorted(Contents(), comp.value))
    }

    /** The bytes in use. */
    ghost function Bytes(): seq<Byte>
      requires size * length <= buffer.Length
      reads this, buffer
    {
      buffer[..size * length]
    }

    ghost function Contents(): (items: seq<Item>)
      requires size * length <= buffer.Length
      reads this, buffer
    {
      Decode(Bytes(), size, length)
    }

    constructor (size: nat, comp: Option<(Item, Item) -> int>)
      requires comp.Some? ==> TotalPreorder(comp.value)
      ensures Valid() && fresh(buffer) && Contents() == [] && !isSorted
      ensures this.size == size && this.comp == comp && capacity == 8
    {
      this.size := size;
      this.comp := comp;
      capacity, length, isSorted := 8, 0, false;
      buffer := new Byte[size * 8];
      assert IsPow2(4) && IsPow2(2);
    }

    /** realloc: the bytes that were there stay. */
    method Reallocate(wanted: nat)
      requires Valid() && capacity <= wanted && IsPow2(wanted)
      modifies this`capacity, this`buffer
      ensures Valid() && capacity == wanted && fresh(buffer)
      ensures Bytes() == old(Bytes())
    {
      hide Decode, Sorted, TotalPreorder, IsPow2;
      OffsetBound(size, capacity, wanted);
      var bigger := new Byte[size * wanted];
      forall k | 0 <= k < buffer.Length {
        bigger[k] := buffer[k];
      }
      assert bigger[..size * length] == buffer[..size * length];
      capacity := wanted;
      buffer := bigger;
      assert size * length <= buffer.Length;
      assert Bytes() == old(Bytes());
      assert Contents() == old(Contents());
      assert comp.Some? ==> TotalPreorder(comp.value);
      assert isSorted ==> Sorted(Contents(), comp.value);
    }

    /** Doubles the capacity until extra more items fit. */
    method Resize(extra: nat)
      requires Valid()
      modifies this`capacity, this`buffer
      ensures Valid() && length + extra <= capacity
      ensures length + extra <= old(capacity) ==> capacity == old(capacity)
      ensures length + extra > old(capacity) ==> capacity < 2 * (length + extra)
      ensures Bytes() == old(Bytes())
      ensures buffer == old(buffer) || fresh(buffer)
    {
      if length + extra > capacity {
        var wanted := capacity;
        while length + extra > wanted
          invariant capacity <= wanted && IsPow2(wanted)
          invariant wanted < 2 * (length + extra)
          decreases length + extra - wanted
        {
          assert wanted * 2 / 2 == wanted;
          wanted := wanted * 2;
        }
        Reallocate(wanted);
      }
    }

    /** Both insertions: the tail moves up, then the new items fill the gap. */
    method Splice(idx: nat, bytes: seq<Byte>, m: nat)
      requires Valid() && idx <= length && |bytes| == size * m
      modifies this, buffer
      ensures Valid() && length == old(length) + m && !isSorted
      ensures buffer == old(buffer) || fresh(buffer)
      ensures 0 <= size * idx <= |old(Bytes())|
      ensures Bytes() == old(Bytes())[..size * idx] + bytes + old(Bytes())[size * idx..]
      ensures Contents() == old(Contents())[..idx] + Decode(bytes, size, m) + old(Contents())[idx..]
    {
      hide Decode, Sorted, TotalPreorder, IsPow2;
      ghost var was := Bytes();
      Resize(m);
      Offsets(size, idx, length, m, capacity);
      MoveAndFill(size * idx, size * length, bytes);
      length := length + m;
      isSorted := false;
      DecodeSplice(was, bytes, size, length - m, m, idx);
    }

    /** The memmove and the memcpy, in bytes. */
    method MoveAndFill(at: nat, used: nat, bytes: seq<Byte>)
      requires at <= used && used + |bytes| <= buffer.Length
      modifies buffer
      ensures buffer[..used + |bytes|] == old(buffer[..used][..at]) + bytes + old(buffer[..used][at..])
    {
      ghost var a := buffer[..];
      MemMove(buffer, at + |bytes|, at, used - at);
      ghost var b := buffer[..];
      MemCpy(buffer, at, bytes);
      SpliceBytes(a, b, buffer[..], bytes, at, used);
      assert buffer[..used + |bytes|] == buffer[..][..used + |bytes|];
      assert old(buffer[..used]) == a[..used];
    }

    /** Inserts all of src; an index beyond the end is the error exit. */
    method InsertArray(src: ByteArray, index: int) returns (ok: bool)
      requires Valid() && src.Valid() && (src == this || src.buffer != buffer) && src.size == size
      requires index >= -(length + 1)
      requires src == this ==> index == -1 || index >= length
      modifies this, buffer
      ensures Valid() && (buffer == old(buffer) || fresh(buffer))
      ensures ok == (index <= old(length))
      ensures ok ==> var i := if index >= 0 then index else old(length) - (-index - 1);
        && 0 <= i <= old(length) && !isSorted
        && Contents() == old(Contents())[..i] + old(src.Contents()) + old(Contents())[i..]
      ensures !ok ==> Contents() == old(Contents()) && isSorted == old(isSorted)
    {
      var idx := WriteIndex(length, index);
      ok := idx.Some?;
      if ok {
        Splice(idx.value, src.buffer[..size * src.length], src.length);
      }
    }

    method InsertData(item: Item, index: int) returns (ok: bool)
      requires Valid() && |item| == size && index >= -(length + 1)
      modifies this, buffer
      ensures Valid() && (buffer == old(buffer) || fresh(buffer))
      ensures ok == (index <= old(length))
      ensures ok ==> var i := if index >= 0 then index else old(length) - (-index - 1);
        && 0 <= i <= old(length) && !isSorted
        && Contents() == old(Contents())[..i] + [item] + old(Contents())[i..]
      ensures !ok ==> Contents() == old(Contents()) && isSorted == old(isSorted)
    {
      var idx := WriteIndex(length, index);
      ok := idx.Some?;
      if ok {
        DecodeOne(item, size);
        Splice(idx.value, item, 1);
      }
    }

    /** Both appends: no tail has to move. */
    method Extend(bytes: seq<Byte>, m: nat)
      requires Valid() && |bytes| == size * m
      modifies this, buffer
      ensures Valid() && length == old(length) + m && !isSorted
      ensures buffer == old(buffer) || fresh(buffer)
      ensures Bytes() == old(Bytes()) + bytes
      ensures Contents() == old(Contents()) + Decode(bytes, size, m)
    {
      hide Decode, Sorted, TotalPreorder, IsPow2;
      ghost var was := Bytes();
      Resize(m);
      Offsets(size, 0, length, m, capacity);
      MemCpy(buffer, size * length, bytes);
      length := length + m;
      isSorted := false;
      assert buffer[..size * length] == buffer[..][..size * length] == was + bytes;
      DecodeAppend(was, bytes, size, length - m, m);
    }

    method AppendArray(src: ByteArray)
      requires Valid() && src.Valid() && (src == this || src.buffer != buffer) && src.size == size
      modifies this, buffer
      ensures Valid() && !isSorted && (buffer == old(buffer) || fresh(buffer))
      ensures Contents() == old(Contents()) + old(src.Contents())
    {
      Extend(src.buffer[..size * src.length], src.length);
    }

    method AppendData(item: Item)
      requires Valid() && |item| == size
      modifies this, buffer
      ensures Valid() && !isSorted && (buffer == old(buffer) || fresh(buffer))
      ensures Contents() == old(Contents()) + [item]
    {
      DecodeOne(item, size);
      Extend(item, 1);
    }

    method Clear()
      requires Valid()
      modifies this
      ensures Valid() && Contents() == [] && !isSorted && capacity == 8 && fresh(buffer)
    {
      OffsetBound(size, 8, capacity);
      length := 0;
      isSorted := false;
      var smaller := new Byte[size * 8];
      forall k | 0 <= k < size * 8 {
        smaller[k] := buffer[k];
      }
      capacity := 8;
      buffer := smaller;
      assert IsPow2(4) && IsPow2(2);
    }

    /** peek_array: the item-sized stretch of bytes at the address it returns, which is a byte index. */
    method Peek() returns (top: Option<seq<Byte>>)
      requires Valid() && size > 0
      ensures length == 0 ==> top == None
      ensures length > 0 ==> (TopInRange(size, length); top == Some(Bytes()[length - 1..length - 1 + size]))
    {
      hide Decode, Sorted, TotalPreorder, IsPow2;
      if length > 0 {
        TopInRange(size, length);
        assert Bytes()[length - 1..length - 1 + size] == buffer[length - 1..length - 1 + size];
        return Some(buffer[length - 1..length - 1 + size]);
      }
      return None;
    }

    /** pop_array: as peek_array, and the last item goes; the sorted flag stays. */
    method Pop() returns (top: Option<seq<Byte>>)
      requires Valid() && size > 0
      modifies this`length
      ensures Valid() && isSorted == old(isSorted)
      ensures Contents() == if old(length) == 0 then [] else old(Contents())[..old(length) - 1]
      ensures old(length) == 0 ==> top == None
      ensures old(length) > 0 ==>
        (TopInRange(size, old(length)); top == Some(old(Bytes())[old(length) - 1..old(length) - 1 + size]))
    {
      top := Peek();
      if length > 0 {
        DecodeSplit(Bytes(), size, length, length - 1);
        assert buffer[..size * length][..size * (length - 1)] == buffer[..size * (length - 1)];
        length := length - 1;
      }
    }

    method ItemAt(i: nat) returns (item: Item)
      requires Valid() && i < length
      ensures item == Contents()[i]
    {
      hide Decode, Sorted, TotalPreorder, IsPow2;
      DecodeAt(Bytes(), size, length, i);
      item := buffer[size * i..size * i + size];
    }

    /** memcpy over item i. */
    method SetItem(i: nat, item: Item)
      requires Valid() && i < length && |item| == size
      modifies this`isSorted, buffer
      ensures Valid() && !isSorted
      ensures Contents() == old(Contents())[i := item]
    {
      hide Decode, Sorted, TotalPreorder, IsPow2;
      ghost var was := Bytes();
      OneMore(size, i);
      OffsetBound(size, i + 1, length);
      DecodeUpdate(was, size, length, i, item);
      MemCpy(buffer, size * i, item);
      isSorted := false;
      assert buffer[..size * length] == was[..size * i] + item + was[size * (i + 1)..];
    }

    /** An index beyond the end is the error exit. */
    method SwapData(idx1: int, idx2: int) returns (ok: bool)
      requires Valid()
      requires idx1 > length || idx2 > length || (0 <= length + idx1 < 2 * length && 0 <= length + idx2 < 2 * length)
      modifies this`isSorted, buffer
      ensures Valid() && ok == (idx1 <= length && idx2 <= length)
      ensures ok ==> var i1 := if idx1 >= 0 then idx1 else length - -idx1;
        var i2 := if idx2 >= 0 then idx2 else length - -idx2;
        && !isSorted
        && Contents() == old(Contents())[i1 := old(Contents())[i2]][i2 := old(Contents())[i1]]
      ensures !ok ==> Contents() == old(Contents()) && isSorted == old(isSorted)
    {
      var read1, read2 := ReadIndex(length, idx1), ReadIndex(length, idx2);
      ok := read1.Some? && read2.Some?;
      if !ok {
        return;
      }
      var i1, i2 := read1.value, read2.value;
      var tmp := ItemAt(i1);
      var other := ItemAt(i2);
      SetItem(i1, other);
      SetItem(i2, tmp);
    }

    /** One comparison of the inner loop of sort_array. */
    method CompareAt(i: nat)
      requires Valid() && comp.Some? && i + 1 < length
      modifies this`isSorted, buffer
      ensures Valid()
      ensures Contents() == Bubble(old(Contents()), i, comp.value)
    {
      hide Decode, TotalPreorder, Sorted, IsPow2;
      var left := ItemAt(i);
      var right := ItemAt(i + 1);
      if comp.value(left, right) > 0 {
        var _ := SwapData(i, i + 1);
      }
    }

    /** Bubble sort by the comparator given at creation. */
    method Sort()
      requires Valid() && comp.Some?
      modifies this`isSorted, buffer
      ensures Valid() && isSorted
      ensures Sorted(Contents(), comp.value) && StablePermutation(old(Contents()), Contents(), comp.value)
    {
      hide Decode, TotalPreorder, Settled, GreatestAt, Sorted, StablePermutation, IsPow2, Bubble, ReadIndex;
      ghost var before := Contents();
      SortStarts(before, comp.value);
      var step := 0;
      while step < length - 1
        invariant 0 <= step <= length && (length > 0 ==> step < length)
        invariant Valid()
        invariant StablePermutation(before, Contents(), comp.value) && Settled(Contents(), step, comp.value)
      {
        var i := 0;
        SortStarts(Contents(), comp.value);
        while i < length - step - 1
          invariant 0 <= i <= length - step - 1
          invariant Valid()
          invariant StablePermutation(before, Contents(), comp.value) && Settled(Contents(), step, comp.value)
          invariant GreatestAt(Contents(), i, comp.value)
        {
          ghost var s := Contents();
          BubbleCarries(s, step, i, comp.value);
          CompareAt(i);
          StableTransitive(before, s, Contents(), comp.value);
          i := i + 1;
        }
        PassSettles(Contents(), step, comp.value);
        step := step + 1;
      }
      SettledIsSorted(Contents(), step, comp.value);
      isSorted := true;
    }

    /** The search loop of find_array_index. */
    method Search(key: Item) returns (idx: int)
      requires Valid() && isSorted && comp.Some?
      ensures -1 <= idx < length
      ensures idx >= 0 ==> comp.value(key, Contents()[idx]) == 0
      ensures idx == -1 ==> forall i :: 0 <= i < length ==> comp.value(key, Contents()[i]) != 0
    {
      hide Decode, TotalPreorder, Sorted, IsPow2;
      ghost var s := Contents();
      var low, high := 0, length - 1;
      while low <= high
        invariant Narrowed(s, key, low, high, comp.value)
        decreases high - low
      {
        var mid := low + (high - low) / 2;
        var item := ItemAt(mid);
        var val := comp.value(key, item);
        if val == 0 {
          return mid;
        }
        if val > 0 {
          NarrowUp(s, key, low, high, mid, comp.value);
          low := mid + 1;
        } else {
          NarrowDown(s, key, low, high, mid, comp.value);
          high := mid - 1;
        }
      }
      return -1;
    }

    /** The index of an item that compares equal to key, if there is one; an unsorted array is sorted first. */
    method FindIndex(key: Item) returns (idx: int)
      requires Valid()
      modifies this`isSorted, buffer
      ensures Valid() && -1 <= idx < length
      ensures comp.None? ==> idx == -1 && Contents() == old(Contents()) && isSorted == old(isSorted)
      ensures comp.Some? ==> isSorted && (old(isSorted) ==> Contents() == old(Contents()))
      ensures comp.Some? ==>
        && Sorted(Contents(), comp.value) && StablePermutation(old(Contents()), Contents(), comp.value)
        && (idx >= 0 ==> comp.value(key, Contents()[idx]) == 0)
        && (idx >= 0 <==> exists item :: item in old(Contents()) && comp.value(key, item) == 0)
    {
      if comp.None? {
        return -1;
      }
      hide Decode, TotalPreorder, Sorted, IsPow2, StablePermutation;
      ghost var before := Contents();
      if !isSorted {
        Sort();
      } else {
        SortStarts(before, comp.value);
      }
      idx := Search(key);
      SameMembers(before, Contents(), comp.value);
    }
  }
}
