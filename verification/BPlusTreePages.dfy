/**
 The pages of the B+ tree as they lie in memory: pairs in a fixed array, of which the first `size` count. Each loop
 that shifts pairs in place is shown to compute the sequence operation that the tree is stated with.
 */
module BPlusTreePages {
  import opened Basics
  import opened BPlusTreeNodes

  /** `memcpy` of `n` pairs between two pages, or within one page where the ranges do not overlap. */
  method CopyPairs<T>(src: array<T>, from: nat, dst: array<T>, to: nat, n: nat)
    requires from + n <= src.Length && to + n <= dst.Length && (src == dst ==> from + n <= to || to + n <= from)
    modifies dst
    ensures dst[to..to + n] == old(src[from..from + n])
    ensures dst[..to] == old(dst[..to]) && dst[to + n..] == old(dst[to + n..])
  {
    for k := 0 to n
      invariant dst[..to] == old(dst[..to]) && dst[to + n..] == old(dst[to + n..])
      invariant dst[to..to + k] == old(src[from..from + k])
      invariant src[from..from + n] == old(src[from..from + n])
    {
      assert src[from + k] == src[from..from + n][k];
      dst[to + k] := src[from + k];
      assert dst[to..to + k + 1] == dst[to..to + k] + [dst[to + k]];
    }
  }

  /** The loop `for (i = size; i > index; i--) pair[i] = pair[i - 1]`. */
  method ShiftUp<T>(a: array<T>, index: nat, size: nat)
    requires index <= size < a.Length
    modifies a
    ensures a[..index] == old(a[..index])
    ensures a[index + 1..size + 1] == old(a[index..size])
    ensures a[size + 1..] == old(a[size + 1..])
  {
    var i := size;
    while i > index
      invariant index <= i <= size
      invariant a[..index] == old(a[..index]) && a[index..i] == old(a[index..i])
      invariant forall k | i < k <= size :: a[k] == old(a[k - 1])
      invariant a[size + 1..] == old(a[size + 1..])
    {
      assert a[index..i][i - 1 - index] == old(a[index..i])[i - 1 - index];
      a[i] := a[i - 1];
      i := i - 1;
      assert a[index..i] == old(a[index..i + 1])[..i - index];
    }
  }

  lemma PutTogether<T>(s: seq<T>, index: nat, size: nat)
    requires index <= size < |s|
    ensures s[..size + 1] == s[..index] + [s[index]] + s[index + 1..size + 1]
  {
  }

  /** The loop `for (i = index; i < size - 1; i++) pair[i] = pair[i + 1]`. */
  method ShiftDown<T>(a: array<T>, index: nat, size: nat)
    requires index < size <= a.Length
    modifies a
    ensures a[..index] == old(a[..index])
    ensures a[index..size - 1] == old(a[index + 1..size])
    ensures a[size..] == old(a[size..])
  {
    var i := index;
    while i < size - 1
      invariant index <= i <= size - 1
      invariant a[..index] == old(a[..index]) && a[size..] == old(a[size..])
      invariant forall k | index <= k < i :: a[k] == old(a[k + 1])
      invariant forall k | i <= k < size :: a[k] == old(a[k])
    {
      a[i] := a[i + 1];
      i := i + 1;
    }
  }

  class LeafPage {
    const data: array<Entry>
    var size: nat
    var nextPageId: PageId

    ghost predicate Valid()
      reads this
    {
      size <= data.Length
    }

    ghost function Entries(): seq<Entry>
      requires Valid()
      reads this, data
    {
      data[..size]
    }

    constructor (capacity: nat)
      ensures Valid() && Entries() == [] && data.Length == capacity && nextPageId == INVALID_PAGE_ID && fresh(data)
    {
      data := new Entry[capacity](_ => Entry(0, 0));
      size := 0;
      nextPageId := INVALID_PAGE_ID;
    }

    /** Puts the pair in key order; there must be room for one more. */
    method Insert(key: Key, value: RowId) returns (newSize: nat)
      requires Valid() && size < data.Length && SortedEntries(Entries())
      modifies this`size, data
      ensures Valid() && newSize == size == old(size) + 1
      ensures exists i ::
        IsKeyIndex(old(Entries()), key, i) && Entries() == InsertAt(old(Entries()), i, Entry(key, value))
    {
      var index := KeyIndex(data[..size], key);
      ShiftUp(data, index, size);
      data[index] := Entry(key, value);
      size := size + 1;
      assert data[..size] == data[..index] + [data[index]] + data[index + 1..size];
      assert Entries() == InsertAt(old(Entries()), index, Entry(key, value));
      return size;
    }

    /** Takes the pair with the key out; -1, and no change, when there is none. */
    method RemoveAndDeleteRecord(key: Key) returns (newSize: int)
      requires Valid() && SortedEntries(Entries())
      modifies this`size, data
      ensures Valid()
      ensures newSize == -1 ==> Entries() == old(Entries()) && forall e | e in Entries() :: e.key != key
      ensures newSize != -1 ==> newSize == size
      ensures newSize != -1 ==>
        exists i :: 0 <= i < |old(Entries())| && old(Entries())[i].key == key
            && Entries() == RemoveAt(old(Entries()), i)
    {
      ghost var before := Entries();
      var index := KeyIndex(data[..size], key);
      if index < size && data[index].key == key {
        ShiftDown(data, index, size);
        size := size - 1;
        assert data[..size] == data[..index] + data[index..size];
        assert 0 <= index < |before| && before[index].key == key && Entries() == RemoveAt(before, index);
        return size;
      }
      assert index < size ==> before[index].key != key;
      return -1;
    }

    /** Appends pairs that lie elsewhere. */
    method CopyNFrom(src: array<Entry>, from: nat, n: nat)
      requires Valid() && src != data && from + n <= src.Length && size + n <= data.Length
      modifies this`size, data
      ensures Valid() && Entries() == old(Entries()) + old(src[from..from + n])
    {
      CopyPairs(src, from, data, size, n);
      size := size + n;
      assert data[..size] == data[..old(size)] + data[old(size)..size];
    }

    method MoveHalfTo(recipient: LeafPage)
      requires Valid() && recipient.Valid() && recipient != this && recipient.data != data
      requires recipient.size == 0 && size / 2 <= recipient.data.Length
      modifies this`size, recipient`size, recipient.data
      ensures Valid() && recipient.Valid()
      ensures Entries() == old(Entries())[..old(size) - old(size) / 2]
      ensures recipient.Entries() == old(Entries())[old(size) - old(size) / 2..]
    {
      var moveSize := size / 2;
      recipient.CopyNFrom(data, size - moveSize, moveSize);
      size := size - moveSize;
    }

    /** Everything goes to the page on the left, together with the link to the next leaf. */
    method MoveAllTo(recipient: LeafPage)
      requires Valid() && recipient.Valid() && recipient != this && recipient.data != data
      requires recipient.size + size <= recipient.data.Length
      modifies this`size, recipient`size, recipient`nextPageId, recipient.data
      ensures Valid() && recipient.Valid() && Entries() == []
      ensures recipient.Entries() == old(recipient.Entries()) + old(Entries())
      ensures recipient.nextPageId == nextPageId
    {
      recipient.CopyNFrom(data, 0, size);
      size := 0;
      recipient.nextPageId := nextPageId;
      recipient.size := recipient.size + size;
    }

    method MoveFirstToEndOf(recipient: LeafPage)
      requires Valid() && recipient.Valid() && recipient != this && recipient.data != data
      requires size > 0 && recipient.size < recipient.data.Length
      modifies this`size, data, recipient`size, recipient.data
      ensures Valid() && recipient.Valid()
      ensures recipient.Entries() == old(recipient.Entries()) + [old(Entries())[0]]
      ensures Entries() == old(Entries())[1..]
    {
      recipient.data[recipient.size] := data[0];
      recipient.size := recipient.size + 1;
      ShiftDown(data, 0, size);
      size := size - 1;
    }

    method MoveLastToFrontOf(recipient: LeafPage)
      requires Valid() && recipient.Valid() && recipient != this && recipient.data != data
      requires size > 0 && recipient.size < recipient.data.Length
      modifies this`size, recipient`size, recipient.data
      ensures Valid() && recipient.Valid()
      ensures recipient.Entries() == [old(Entries())[old(size) - 1]] + old(recipient.Entries())
      ensures Entries() == old(Entries())[..old(size) - 1]
    {
      recipient.CopyFirstFrom(data[size - 1]);
      size := size - 1;
    }

    method CopyFirstFrom(e: Entry)
      requires Valid() && size < data.Length
      modifies this`size, data
      ensures Valid() && Entries() == [e] + old(Entries())
    {
      ghost var was := Entries();
      ShiftUp(data, 0, size);
      ghost var shifted := data[..];
      assert shifted[1..size + 1] == was;
      data[0] := e;
      size := size + 1;
      assert data[..] == shifted[0 := e];
      FrontPut(shifted, was, e);
    }
  }

  lemma FrontPut<T>(shifted: seq<T>, was: seq<T>, x: T)
    requires |was| + 1 <= |shifted| && shifted[1..|was| + 1] == was
    ensures shifted[0 := x][..|was| + 1] == [x] + was
  {
  }

  class InternalPage {
    const data: array<Slot>
    var size: nat

    ghost predicate Valid()
      reads this
    {
      size <= data.Length
    }

    ghost function Slots(): seq<Slot>
      requires Valid()
      reads this, data
    {
      data[..size]
    }

    constructor (capacity: nat)
      ensures Valid() && Slots() == [] && data.Length == capacity && fresh(data)
    {
      data := new Slot[capacity](_ => Slot(0, INVALID_PAGE_ID));
      size := 0;
    }

    /** Enters a child after the first place that holds `oldValue`. */
    method InsertNodeAfter(oldValue: PageId, newKey: Key, newValue: PageId) returns (newSize: nat)
      requires Valid() && size < data.Length && exists i :: 0 <= i < |Slots()| && Slots()[i].child == oldValue
      modifies this`size, data
      ensures Valid() && newSize == size
      ensures exists i ::
        && 0 <= i < |old(Slots())| && old(Slots())[i].child == oldValue
        && (forall j | 0 <= j < i :: old(Slots())[j].child != oldValue)
        && Slots() == InsertAt(old(Slots()), i + 1, Slot(newKey, newValue))
    {
      ghost var was := data[..size];
      var place := ValueIndex(data[..size], oldValue);
      var index := place + 1;
      ShiftUp(data, index, size);
      data[index] := Slot(newKey, newValue);
      assert data[..index] == was[..index] && data[index + 1..size + 1] == was[index..];
      PutTogether(data[..], index, size);
      size := size + 1;
      assert Slots() == InsertAt(was, place + 1, Slot(newKey, newValue));
      return size;
    }

    /** Takes out the pair after position `index`; with -1, the first pair. */
    method Remove(index: int)
      requires Valid() && -1 <= index && index + 1 < size
      modifies this`size, data
      ensures Valid() && Slots() == RemoveAt(old(Slots()), index + 1)
    {
      var k := index + 1;
      ghost var before := data[..];
      ShiftDown(data, k, size);
      size := size - 1;
      assert data[..k] == before[..k] && data[k..size] == before[k + 1..size + 1];
      assert data[..size] == data[..k] + data[k..size];
    }

    method CopyNFrom(src: array<Slot>, from: nat, n: nat)
      requires Valid() && src != data && from + n <= src.Length && size + n <= data.Length
      modifies this`size, data
      ensures Valid() && Slots() == old(Slots()) + old(src[from..from + n])
    {
      CopyPairs(src, from, data, size, n);
      size := size + n;
      assert data[..size] == data[..old(size)] + data[old(size)..size];
    }

    method MoveHalfTo(recipient: InternalPage)
      requires Valid() && recipient.Valid() && recipient != this && recipient.data != data
      requires recipient.size == 0 && size / 2 <= recipient.data.Length
      modifies this`size, recipient`size, recipient.data
      ensures Valid() && recipient.Valid()
      ensures Slots() == old(Slots())[..old(size) - old(size) / 2]
      ensures recipient.Slots() == old(Slots())[old(size) - old(size) / 2..]
    {
      var moveSize := size / 2;
      recipient.CopyNFrom(data, size - moveSize, moveSize);
      size := size - moveSize;
    }

    /** The key from the parent is not used: the key at position 0 goes along as it is. */
    method MoveAllTo(recipient: InternalPage, middleKey: Key)
      requires Valid() && recipient.Valid() && recipient != this && recipient.data != data
      requires recipient.size + size <= recipient.data.Length
      modifies this`size, recipient`size, recipient.data
      ensures Valid() && recipient.Valid() && Slots() == []
      ensures recipient.Slots() == old(recipient.Slots()) + old(Slots())
    {
      recipient.CopyNFrom(data, 0, size);
      size := 0;
    }

    /** The first child goes over under the key from the parent. */
    method MoveFirstToEndOf(recipient: InternalPage, middleKey: Key)
      requires Valid() && recipient.Valid() && recipient != this && recipient.data != data
      requires size > 0 && recipient.size < recipient.data.Length
      modifies this`size, data, recipient`size, recipient.data
      ensures Valid() && recipient.Valid()
      ensures recipient.Slots() == old(recipient.Slots()) + [Slot(middleKey, old(Slots())[0].child)]
      ensures Slots() == old(Slots())[1..]
    {
      recipient.data[recipient.size] := Slot(middleKey, data[0].child);
      recipient.size := recipient.size + 1;
      Remove(-1);
    }

    /** The last pair goes over with its own key; the key from the parent is not used. */
    method MoveLastToFrontOf(recipient: InternalPage, middleKey: Key)
      requires Valid() && recipient.Valid() && recipient != this && recipient.data != data
      requires size > 0 && recipient.size < recipient.data.Length
      modifies this`size, data, recipient`size, recipient.data
      ensures Valid() && recipient.Valid()
      ensures recipient.Slots() == [old(Slots())[old(size) - 1]] + old(recipient.Slots())
      ensures Slots() == old(Slots())[..old(size) - 1]
    {
      ghost var mine, last, others := Slots(), Slots()[size - 1], recipient.Slots();
      recipient.CopyFirstFrom(data[size - 1].child);
      ghost var shifted := recipient.data[..];
      assert shifted[1..|others| + 1] == recipient.Slots()[1..];
      var first := Slot(data[size - 1].key, recipient.data[0].child);
      recipient.data[0] := first;
      assert recipient.data[..] == shifted[0 := last];
      FrontPut(shifted, others, last);
      Remove(size - 2);
      assert Slots() == RemoveAt(mine, |mine| - 1) == mine[..|mine| - 1];
    }

    /** Makes room at the front for a child; its key is still the old first key. */
    method CopyFirstFrom(value: PageId)
      requires Valid() && size < data.Length
      modifies this`size, data
      ensures Valid() && size == old(size) + 1 && |Slots()| == size
      ensures Slots()[0].child == value && Slots()[1..] == old(Slots())
    {
      size := size + 1;
      ShiftUp(data, 0, size - 1);
      data[0] := Slot(data[0].key, value);
      assert Slots()[1..] == data[1..size];
    }
  }

  // ----- the sizes a tree gets by default

  const LEAF_PAGE_HEADER_SIZE := 32
  const INTERNAL_PAGE_HEADER_SIZE := 28
  const ROW_ID_SIZE := 8
  const PAGE_ID_SIZE := 4

  function DefaultLeafMaxSize(keySize: nat): int {
    (PAGE_SIZE - LEAF_PAGE_HEADER_SIZE) / (ROW_ID_SIZE + keySize) - 1
  }

  function DefaultInternalMaxSize(keySize: nat): int {
    (PAGE_SIZE - INTERNAL_PAGE_HEADER_SIZE) / (ROW_ID_SIZE + keySize) - 1
  }

  /** A page holds one pair more than its maximum while it waits to be split: that many fit in its data area. */
  lemma OverflowFits(keySize: nat)
    requires DefaultLeafMaxSize(keySize) >= 0
    ensures (DefaultLeafMaxSize(keySize) + 1) * (keySize + ROW_ID_SIZE) <= PAGE_SIZE - LEAF_PAGE_HEADER_SIZE
    ensures (DefaultInternalMaxSize(keySize) + 1) * (keySize + PAGE_ID_SIZE) <= PAGE_SIZE - INTERNAL_PAGE_HEADER_SIZE
  {
    var d := ROW_ID_SIZE + keySize;
    var q := DefaultInternalMaxSize(keySize) + 1;
    assert q * d <= PAGE_SIZE - INTERNAL_PAGE_HEADER_SIZE;
    assert q * (keySize + PAGE_ID_SIZE) <= q * d by {
      assert q >= 0 && keySize + PAGE_ID_SIZE <= d;
    }
  }
}
