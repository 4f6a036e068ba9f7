/**
 The pages of the B+ tree index as values, and the searches the tree makes in them.

 A key is an `int`: the tree only ever compares keys through the key manager, whose comparison is shown to be
 a strict total order in module `GenericKeys`.
 */
module BPlusTreeNodes {
  import opened Basics

  type PageId = int
  type Key = int
  type RowId = int

  datatype Entry = Entry(key: Key, rid: RowId)

  datatype Slot = Slot(key: Key, child: PageId)

  /** A leaf page holds row ids and the id of the next leaf; an internal page holds child page ids. */
  datatype Page =
    | Leaf(parent: PageId, next: PageId, entries: seq<Entry>)
    | Internal(parent: PageId, slots: seq<Slot>)
  {
    function Size(): nat {
      if Leaf? then |entries| else |slots|
    }

    /** The key stored at position 0, whatever the kind of page. */
    function FirstKey(): Key
      requires Size() > 0
    {
      if Leaf? then entries[0].key else slots[0].key
    }
  }

  function InsertAt<T>(s: seq<T>, i: nat, x: T): seq<T>
    requires i <= |s|
  {
    s[..i] + [x] + s[i..]
  }

  function RemoveAt<T>(s: seq<T>, i: nat): seq<T>
    requires i < |s|
  {
    s[..i] + s[i + 1..]
  }

  function KeySet(entries: seq<Entry>): set<Key> {
    set e | e in entries :: e.key
  }

  ghost predicate SortedEntries(entries: seq<Entry>) {
    forall i, j | 0 <= i < j < |entries| :: entries[i].key < entries[j].key
  }

  /** Separators are compared from position 1 on: the key at position 0 takes no part in a search. */
  ghost predicate SortedSlots(slots: seq<Slot>) {
    forall i, j | 1 <= i < j < |slots| :: slots[i].key < slots[j].key
  }

  /** `i` is where `key` is, or would go: the first position whose key is not smaller. */
  ghost predicate IsKeyIndex(entries: seq<Entry>, key: Key, i: nat) {
    && i <= |entries|
    && (forall j | 0 <= j < i :: entries[j].key < key)
    && (forall j | i <= j < |entries| :: key <= entries[j].key)
  }

  /** `i` is the child a search for `key` descends to. */
  ghost predicate IsRoute(slots: seq<Slot>, key: Key, i: nat) {
    && i < |slots|
    && (i > 0 ==> slots[i].key <= key)
    && (i + 1 < |slots| ==> key < slots[i + 1].key)
  }

  method KeyIndex(entries: seq<Entry>, key: Key) returns (index: nat)
    requires SortedEntries(entries)
    ensures IsKeyIndex(entries, key, index)
  {
    var left, right := 0, |entries|;
    while left < right
      invariant 0 <= left <= right <= |entries|
      invariant forall j | 0 <= j < left :: entries[j].key < key
      invariant forall j | right <= j < |entries| :: key <= entries[j].key
    {
      var mid := (left + right) / 2;
      if entries[mid].key < key {
        left := mid + 1;
      } else {
        right := mid;
      }
    }
    return right;
  }

  method LeafLookup(entries: seq<Entry>, key: Key) returns (result: Option<RowId>)
    requires SortedEntries(entries)
    ensures result.Some? ==> Entry(key, result.value) in entries
    ensures result.None? ==> forall e | e in entries :: e.key != key
  {
    var left, right := 0, |entries| - 1;
    while left <= right
      invariant 0 <= left <= right + 1 <= |entries|
      invariant forall j | 0 <= j < left :: entries[j].key < key
      invariant forall j | right < j < |entries| :: key < entries[j].key
    {
      var index := (left + right) / 2;
      if entries[index].key == key {
        return Some(entries[index].rid);
      } else if entries[index].key < key {
        left := index + 1;
      } else {
        right := index - 1;
      }
    }
    return None;
  }

  /** The child that a search descends to, and its position. The page reads the key at position 1, so it must hold at
      least two children. */
  method InternalLookup(slots: seq<Slot>, key: Key) returns (child: PageId, i: nat)
    requires SortedSlots(slots) && |slots| >= 2
    ensures IsRoute(slots, key, i) && child == slots[i].child
  {
    if slots[1].key > key {
      return slots[0].child, 0;
    }
    if slots[|slots| - 1].key <= key {
      return slots[|slots| - 1].child, |slots| - 1;
    }
    child, i := slots[1].child, 1;
    var left, right := 1, |slots| - 2;
    while left <= right
      invariant 1 <= left <= right + 1 < |slots|
      invariant slots[left].key <= key
      invariant key < slots[right + 1].key
    {
      var mid := (left + right) / 2;
      if slots[mid].key <= key && slots[mid + 1].key > key {
        return slots[mid].child, mid;
      } else if slots[mid].key > key {
        right := mid - 1;
      } else {
        left := mid + 1;
      }
    }
    assert false;  // the search always ends inside the loop
  }

  /** First position holding `child`, or -1. */
  method ValueIndex(slots: seq<Slot>, child: PageId) returns (index: int)
    ensures index == -1 ==> forall j | 0 <= j < |slots| :: slots[j].child != child
    ensures index != -1 ==> 0 <= index < |slots| && slots[index].child == child
    ensures index != -1 ==> forall j | 0 <= j < index :: slots[j].child != child
  {
    for i := 0 to |slots|
      invariant forall j | 0 <= j < i :: slots[j].child != child
    {
      if slots[i].child == child {
        return i;
      }
    }
    return -1;
  }
}
