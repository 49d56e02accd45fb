/** Fixed-size items packed in bytes, as src/common/array.c lays them out. */
module Items {
  import opened Bits

  type Item = seq<Byte>

  lemma OneMore(size: nat, n: nat)
    ensures size * (n + 1) == size * n + size
  {
  }

  lemma OffsetBound(size: nat, i: nat, n: nat)
    requires i <= n
    ensures 0 <= size * i <= size * n
  {
    assert size * n == size * i + size * (n - i);
  }

  /** The n items of the given size in a stretch of bytes. */
  function Decode(bytes: seq<Byte>, size: nat, n: nat): (items: seq<Item>)
    requires |bytes| == size * n
    ensures |items| == n && forall i :: 0 <= i < n ==> |items[i]| == size
    decreases n
  {
    if n == 0 then []
    else
      OneMore(size, n - 1);
      [bytes[..size]] + Decode(bytes[size..], size, n - 1)
  }

  lemma {:induction false} DecodeAppend(a: seq<Byte>, b: seq<Byte>, size: nat, n: nat, m: nat)
    requires |a| == size * n && |b| == size * m
    ensures |a + b| == size * (n + m)
    ensures Decode(a + b, size, n + m) == Decode(a, size, n) + Decode(b, size, m)
    decreases n
  {
    assert size * (n + m) == size * n + size * m;
    if n == 0 {
      assert a + b == b;
    } else {
      OneMore(size, n - 1);
      OneMore(size, n + m - 1);
      assert (a + b)[..size] == a[..size];
      assert (a + b)[size..] == a[size..] + b;
      DecodeAppend(a[size..], b, size, n - 1, m);
    }
  }

  /** Cutting the bytes at an item boundary cuts the items there. */
  lemma DecodeSplit(bytes: seq<Byte>, size: nat, n: nat, i: nat)
    requires |bytes| == size * n && i <= n
    ensures 0 <= size * i <= |bytes| && |bytes| - size * i == size * (n - i)
    ensures Decode(bytes[..size * i], size, i) == Decode(bytes, size, n)[..i]
    ensures Decode(bytes[size * i..], size, n - i) == Decode(bytes, size, n)[i..]
  {
    OffsetBound(size, i, n);
    assert size * n == size * i + size * (n - i);
    assert bytes == bytes[..size * i] + bytes[size * i..];
    DecodeAppend(bytes[..size * i], bytes[size * i..], size, i, n - i);
  }

  lemma DecodeOne(bytes: seq<Byte>, size: nat)
    requires |bytes| == size
    ensures |bytes| == size * 1 && Decode(bytes, size, 1) == [bytes]
  {
    assert bytes[..size] == bytes;
    assert Decode(bytes[size..], size, 0) == [];
  }

  /** Splicing whole items into the bytes at an item boundary splices them into the items. */
  lemma DecodeSplice(bytes: seq<Byte>, src: seq<Byte>, size: nat, n: nat, m: nat, i: nat)
    requires |bytes| == size * n && |src| == size * m && i <= n
    ensures 0 <= size * i <= |bytes|
    ensures var spliced := bytes[..size * i] + src + bytes[size * i..];
      && |spliced| == size * (n + m)
      && Decode(spliced, size, n + m) == Decode(bytes, size, n)[..i] + Decode(src, size, m) + Decode(bytes, size, n)[i..]
  {
    DecodeSplit(bytes, size, n, i);
    DecodeAppend(bytes[..size * i], src, size, i, m);
    DecodeAppend(bytes[..size * i] + src, bytes[size * i..], size, i + m, n - i);
  }

  /** Overwriting the bytes of item i replaces that item. */
  lemma DecodeUpdate(bytes: seq<Byte>, size: nat, n: nat, i: nat, item: Item)
    requires |bytes| == size * n && i < n && |item| == size
    ensures 0 <= size * i <= size * (i + 1) <= |bytes|
    ensures var updated := bytes[..size * i] + item + bytes[size * (i + 1)..];
      && |updated| == size * n
      && Decode(updated, size, n) == Decode(bytes, size, n)[i := item]
  {
    OneMore(size, i);
    DecodeSplit(bytes, size, n, i);
    DecodeSplit(bytes, size, n, i + 1);
    DecodeOne(item, size);
    DecodeAppend(bytes[..size * i], item, size, i, 1);
    DecodeAppend(bytes[..size * i] + item, bytes[size * (i + 1)..], size, i + 1, n - i - 1);
  }

  /** The bytes of item i. */
  lemma DecodeAt(bytes: seq<Byte>, size: nat, n: nat, i: nat)
    requires |bytes| == size * n && i < n
    ensures 0 <= size * i <= size * i + size <= |bytes|
    ensures Decode(bytes, size, n)[i] == bytes[size * i..size * i + size]
  {
    DecodeSplit(bytes, size, n, i);
    OneMore(size, n - i - 1);
    assert bytes[size * i..][..size] == bytes[size * i..size * i + size];
    assert Decode(bytes[size * i..], size, n - i)[0] == bytes[size * i..][..size];
  }
}
