/**
 The index over the B+ tree: iterators along the leaf chain, and the six comparison scans made of them.
 */
module BPlusTreeScan {
  import opened Basics
  import opened BPlusTreeNodes
  import opened BPlusTreeInvariant
  import opened BPlusTreeRemove
  import opened BPlusTrees

  /** Position `i` of leaf `p` holds an entry. */
  ghost predicate OnEntry(S: Store, p: PageId, i: int) {
    p in S && S[p].Leaf? && 0 <= i < |S[p].entries|
  }

  /** `key` is stored in the tree, at the position or further on; past the end there is nothing. */
  ghost predicate Ahead(S: Store, p: PageId, i: int, key: Key) {
    OnEntry(S, p, i) && S[p].entries[i].key <= key
  }

  /** One key, one position. */
  lemma PositionOfKey(S: Store, I: Shape, root: PageId, p: PageId, i: int, q: PageId, j: int)
    requires Ordered(S, I, root) && OnEntry(S, p, i) && OnEntry(S, q, j)
    requires S[p].entries[i].key == S[q].entries[j].key
    ensures p == q && i == j
  {
    assert PageOk(S, I, p) && PageOk(S, I, q);
    UniqueAtLevel(S, I, root, p, q, S[p].entries[i].key);
  }

  /** Keys further on than position `i` of leaf `p` are in the rest of that leaf or from the next leaf on. */
  lemma NextPosition(S: Store, I: Shape, root: PageId, c: Caps, p: PageId, i: int, e: Entry)
    requires Tree(S, I, root, c) && OnEntry(S, p, i) && Has(S, e) && e.key > S[p].entries[i].key
    ensures i + 1 < |S[p].entries| ==> S[p].entries[i + 1].key <= e.key
    ensures i + 1 >= |S[p].entries| ==>
      var n := S[p].next; n != INVALID_PAGE_ID && OnEntry(S, n, 0) && S[n].entries[0].key <= e.key
  {
    assert PageOk(S, I, p);
    if Covers(I[p], e.key) {
      LeafDecides(S, I, root, p, e);
    } else {
      var n := S[p].next;
      assert PageOk(S, I, n) && SizeOk(c, S[n], n == root);
      if Covers(I[n], e.key) {
        LeafDecides(S, I, root, n, e);
      }
    }
  }

  /** The step along the chain goes up. */
  lemma NextIsGreater(S: Store, I: Shape, root: PageId, c: Caps, p: PageId)
    requires Tree(S, I, root, c) && OnEntry(S, p, 0) && S[p].next != INVALID_PAGE_ID
    ensures OnEntry(S, S[p].next, 0)
    ensures forall i | 0 <= i < |S[p].entries| :: S[p].entries[i].key < S[S[p].next].entries[0].key
  {
    assert PageOk(S, I, p);
    var n := S[p].next;
    assert PageOk(S, I, n) && SizeOk(c, S[n], n == root);
    assert Admits(I[n], S[n].entries[0].key);
  }

  class IndexIterator {
    const tree: BPlusTree
    var currentPageId: PageId
    var itemIndex: int

    ghost predicate Valid()
      reads this, tree
    {
      && tree.Valid()
      && if currentPageId == INVALID_PAGE_ID then itemIndex == 0
         else tree.rootPageId != INVALID_PAGE_ID && OnEntry(tree.pages, currentPageId, itemIndex)
    }

    /** The keys of the tree from here on. */
    ghost predicate Reaches(key: Key)
      reads this, tree
    {
      Ahead(tree.pages, currentPageId, itemIndex, key)
    }

    ghost function Left(): set<Key>
      reads this, tree
    {
      set k | k in tree.contents && Reaches(k)
    }

    constructor (tree: BPlusTree, pageId: PageId, index: int)
      requires tree.Valid()
      requires if pageId == INVALID_PAGE_ID then index == 0
               else tree.rootPageId != INVALID_PAGE_ID && OnEntry(tree.pages, pageId, index)
      ensures Valid() && this.tree == tree && currentPageId == pageId && itemIndex == index
    {
      this.tree := tree;
      currentPageId := pageId;
      itemIndex := index;
    }

    method GetItem() returns (e: Entry)
      requires Valid() && currentPageId != INVALID_PAGE_ID
      ensures e == tree.pages[currentPageId].entries[itemIndex]
      ensures Has(tree.pages, e) && Reaches(e.key) && forall k | Reaches(k) :: e.key <= k
    {
      e := tree.pages[currentPageId].entries[itemIndex];
      assert e in tree.pages[currentPageId].entries;
    }

    /** Steps to the entry with the next greater key, or to the end when there is none. */
    method Advance()
      requires Valid() && currentPageId != INVALID_PAGE_ID
      modifies this
      ensures Valid()
      ensures var key := old(tree.pages[currentPageId].entries[itemIndex].key);
        forall e | Has(tree.pages, e) :: Reaches(e.key) <==> key < e.key
      ensures forall k | Reaches(k) :: old(Reaches(k))
      ensures !Reaches(old(tree.pages[currentPageId].entries[itemIndex].key))
    {
      ghost var S, p, i := tree.pages, currentPageId, itemIndex;
      ghost var key := S[p].entries[i].key;
      assert PageOk(S, tree.shape, p);
      forall e | Has(S, e) && key < e.key {
        NextPosition(S, tree.shape, tree.rootPageId, tree.caps, p, i, e);
      }
      itemIndex := itemIndex + 1;
      if itemIndex >= |tree.pages[currentPageId].entries| {
        var nextPageId := tree.pages[currentPageId].next;
        if nextPageId == INVALID_PAGE_ID {
          currentPageId := INVALID_PAGE_ID;
        } else {
          NextIsGreater(S, tree.shape, tree.rootPageId, tree.caps, p);
          currentPageId := nextPageId;
        }
        itemIndex := 0;
      }
      assert currentPageId != INVALID_PAGE_ID ==> key < tree.pages[currentPageId].entries[itemIndex].key;
    }
  }

  datatype CompareOp = Eq | Ne | Lt | Le | Gt | Ge

  predicate Satisfies(op: CompareOp, stored: Key, probe: Key) {
    match op
    case Eq => stored == probe
    case Ne => stored != probe
    case Lt => stored < probe
    case Le => stored <= probe
    case Gt => stored > probe
    case Ge => stored >= probe
  }

  function Rids(es: seq<Entry>): (r: seq<RowId>)
    ensures |r| == |es| && forall i | 0 <= i < |es| :: r[i] == es[i].rid
  {
    seq(|es|, i requires 0 <= i < |es| => es[i].rid)
  }

  ghost predicate Held(contents: map<Key, RowId>, e: Entry) {
    e.key in contents && contents[e.key] == e.rid
  }

  /** `es` lists, in ascending key order, exactly the entries of `contents` whose keys satisfy the comparison. */
  ghost predicate Selects(es: seq<Entry>, contents: map<Key, RowId>, op: CompareOp, probe: Key) {
    && SortedEntries(es)
    && forall e :: e in es <==> Held(contents, e) && Satisfies(op, e.key, probe)
  }

  /** The loops of `ScanKey`: from one iterator up to another. */
  method Collect(iter: IndexIterator, stop: IndexIterator) returns (es: seq<Entry>)
    requires iter.Valid() && stop.Valid() && iter.tree == stop.tree && iter != stop
    requires forall k | stop.Reaches(k) :: iter.Reaches(k)
    modifies iter
    ensures iter.Valid() && SortedEntries(es)
    ensures forall e :: e in es <==> Has(iter.tree.pages, e) && old(iter.Reaches(e.key)) && !stop.Reaches(e.key)
  {
    hide Ordered, SizedBut;
    es := [];
    ghost var t := iter.tree;
    while iter.currentPageId != stop.currentPageId || iter.itemIndex != stop.itemIndex
      invariant iter.Valid() && SortedEntries(es)
      invariant forall k | stop.Reaches(k) :: iter.Reaches(k)
      invariant forall k | iter.Reaches(k) :: old(iter.Reaches(k))
      invariant forall e :: e in es <==> Has(t.pages, e) && old(iter.Reaches(e.key)) && !iter.Reaches(e.key)
      decreases iter.Left()
    {
      EndsTogether(iter, stop);
      RootFacts(t.pages, t.shape, t.rootPageId);
      ghost var before := iter.Left();
      var e := iter.GetItem();
      forall f | f in es ensures f.key < e.key {
      }
      StopIsFurther(iter, stop, e.key);
      iter.Advance();
      assert stop.currentPageId != INVALID_PAGE_ID
          ==> iter.Reaches(t.pages[stop.currentPageId].entries[stop.itemIndex].key);
      assert e.key in before && e.key !in iter.Left();
      forall f ensures f in es + [e] <==> Has(t.pages, f) && old(iter.Reaches(f.key)) && !iter.Reaches(f.key) {
        if f.key == e.key && Has(t.pages, f) {
          OneEntryPerKey(t.pages, t.shape, t.rootPageId, e, f);
        }
      }
      es := es + [e];
    }
  }

  lemma EndsTogether(iter: IndexIterator, stop: IndexIterator)
    requires iter.Valid() && stop.Valid() && iter.tree == stop.tree
    requires forall k | stop.Reaches(k) :: iter.Reaches(k)
    ensures iter.currentPageId == INVALID_PAGE_ID ==> stop.currentPageId == INVALID_PAGE_ID
  {
    if stop.currentPageId != INVALID_PAGE_ID {
      assert stop.Reaches(stop.tree.pages[stop.currentPageId].entries[stop.itemIndex].key);
    }
  }

  /** Two different positions reach different keys. */
  lemma StopIsFurther(iter: IndexIterator, stop: IndexIterator, key: Key)
    requires iter.Valid() && stop.Valid() && iter.tree == stop.tree && iter.currentPageId != INVALID_PAGE_ID
    requires iter.currentPageId != stop.currentPageId || iter.itemIndex != stop.itemIndex
    requires forall k | stop.Reaches(k) :: iter.Reaches(k)
    requires key == iter.tree.pages[iter.currentPageId].entries[iter.itemIndex].key
    ensures forall k | stop.Reaches(k) :: key < k
    ensures stop.currentPageId != INVALID_PAGE_ID ==>
      var e := stop.tree.pages[stop.currentPageId].entries[stop.itemIndex]; Has(stop.tree.pages, e) && key < e.key
  {
    var t := iter.tree;
    if stop.currentPageId != INVALID_PAGE_ID {
      var s := t.pages[stop.currentPageId].entries[stop.itemIndex].key;
      assert stop.Reaches(s);
      assert t.pages[stop.currentPageId].entries[stop.itemIndex] in t.pages[stop.currentPageId].entries;
      if s == key {
        PositionOfKey(t.pages, t.shape, t.rootPageId, iter.currentPageId, iter.itemIndex, stop.currentPageId,
                      stop.itemIndex);
      }
    } else {
      assert PageOk(t.pages, t.shape, iter.currentPageId);
    }
  }

  /** The probe is not stored, but some greater key is. */
  ghost predicate MoreBeyond(contents: map<Key, RowId>, probe: Key) {
    probe !in contents && exists k :: k in contents && probe < k
  }

  /** A sorted list of the stored entries that satisfy the comparison, or in a gap of none. */
  lemma SelectsIf(es: seq<Entry>, S: Store, contents: map<Key, RowId>, op: CompareOp, probe: Key, gap: bool)
    requires SortedEntries(es) && forall e :: Has(S, e) <==> Held(contents, e)
    requires forall e :: e in es <==> Has(S, e) && !gap && Satisfies(op, e.key, probe)
    ensures if gap then es == [] else Selects(es, contents, op, probe)
  {
    if gap {
      EmptyIfNone(es);
    }
  }

  /**
   The probe lies beyond the last key of the leaf it belongs to, but that leaf is not the last one. `Begin` then
   answers with the end of the index.
   */
  ghost predicate ProbeInGap(S: Store, I: Shape, probe: Key) {
    exists p :: p in S && p in I && S[p].Leaf? && Covers(I[p], probe)
        && !I[p].top && forall e | e in S[p].entries :: e.key < probe
  }

  class BPlusTreeIndex {
    const container: BPlusTree

    constructor (container: BPlusTree)
      requires container.Valid()
      ensures Valid() && this.container == container
    {
      this.container := container;
    }

    ghost predicate Valid()
      reads this, container
    {
      container.Valid()
    }

    ghost predicate InGap(probe: Key)
      reads this, container
    {
      ProbeInGap(container.pages, container.shape, probe)
    }

    method GetBeginIterator() returns (iter: IndexIterator)
      requires Valid()
      ensures fresh(iter) && iter.Valid() && iter.tree == container
      ensures forall k | k in container.contents :: iter.Reaches(k)
    {
      var p := container.FindLeafPage(0, true);
      if p == INVALID_PAGE_ID {
        NothingHeld(container.contents);
        iter := GetEndIterator();
        return;
      }
      ghost var S, I := container.pages, container.shape;
      assert PageOk(S, I, p) && SizeOk(container.caps, S[p], p == container.rootPageId);
      forall k | k in container.contents ensures S[p].entries[0].key <= k {
        LeftmostFirst(S, I, container.rootPageId, container.caps, p, Entry(k, container.contents[k]));
      }
      iter := new IndexIterator(container, p, 0);
    }

    /** Without a gap the iterator reaches exactly the keys that are not smaller than the probe; in a gap, none. */
    method GetBeginIteratorAt(probe: Key) returns (iter: IndexIterator)
      requires Valid()
      ensures fresh(iter) && iter.Valid() && iter.tree == container
      ensures !InGap(probe) ==> forall k | k in container.contents :: iter.Reaches(k) <==> probe <= k
      ensures InGap(probe) ==> forall k :: !iter.Reaches(k)
      ensures InGap(probe) ==> MoreBeyond(container.contents, probe)
    {
      var p := container.FindLeafPage(probe, false);
      if p == INVALID_PAGE_ID {
        NothingHeld(container.contents);
        iter := GetEndIterator();
        return;
      }
      ghost var S, I, root := container.pages, container.shape, container.rootPageId;
      assert PageOk(S, I, p);
      var index := KeyIndex(container.pages[p].entries, probe);
      forall k | k in container.contents {
        IndexReaches(S, I, root, p, probe, index, Entry(k, container.contents[k]));
      }
      if InGap(probe) {
        var g :| g in S && g in I && S[g].Leaf? && Covers(I[g], probe) && !I[g].top
            && forall e | e in S[g].entries :: e.key < probe;
        assert PageOk(S, I, g);
        UniqueAtLevel(S, I, root, g, p, probe);
        GapHasMore(S, I, root, container.caps, container.contents, p, probe);
      }
      if index == |container.pages[p].entries| {
        iter := GetEndIterator();
      } else {
        iter := new IndexIterator(container, p, index);
      }
    }

    method GetEndIterator() returns (iter: IndexIterator)
      requires Valid()
      ensures fresh(iter) && iter.Valid() && iter.tree == container
      ensures forall k :: !iter.Reaches(k)
    {
      iter := new IndexIterator(container, INVALID_PAGE_ID, 0);
    }

    /** Past the probe itself, when it is there. */
    method GetIteratorAfter(probe: Key) returns (iter: IndexIterator)
      requires Valid()
      ensures fresh(iter) && iter.Valid() && iter.tree == container
      ensures !InGap(probe) ==> forall e | Has(container.pages, e) :: iter.Reaches(e.key) <==> probe < e.key
      ensures InGap(probe) ==> forall k :: !iter.Reaches(k)
      ensures InGap(probe) ==> MoreBeyond(container.contents, probe)
    {
      iter := GetBeginIteratorAt(probe);
      var found := container.GetValue(probe);
      if found.Some? {
        assert Has(container.pages, Entry(probe, found.value));
        assert Held(container.contents, Entry(probe, found.value));
        iter.Advance();
      }
    }

    method ScanGreater(probe: Key) returns (es: seq<Entry>)
      requires Valid()
      ensures InGap(probe) ==> MoreBeyond(container.contents, probe)
      ensures if InGap(probe) then es == [] else Selects(es, container.contents, Gt, probe)
    {
      hide Ordered, SizedBut, Ahead;
      var iter := GetIteratorAfter(probe);
      ghost var gap := InGap(probe);
      var end := GetEndIterator();
      es := Collect(iter, end);
      SelectsIf(es, container.pages, container.contents, Gt, probe, gap);
    }

    method ScanGreaterEqual(probe: Key) returns (es: seq<Entry>)
      requires Valid()
      ensures InGap(probe) ==> MoreBeyond(container.contents, probe)
      ensures if InGap(probe) then es == [] else Selects(es, container.contents, Ge, probe)
    {
      hide Ordered, SizedBut, Ahead;
      var iter := GetBeginIteratorAt(probe);
      ghost var gap := InGap(probe);
      assert !gap ==> forall e | Has(container.pages, e) :: iter.Reaches(e.key) <==> probe <= e.key;
      var end := GetEndIterator();
      es := Collect(iter, end);
      SelectsIf(es, container.pages, container.contents, Ge, probe, gap);
    }

    method ScanLess(probe: Key) returns (es: seq<Entry>)
      requires Valid()
      ensures InGap(probe) ==> MoreBeyond(container.contents, probe)
      ensures if InGap(probe) then SortedEntries(es) && forall e :: e in es <==> Held(container.contents, e)
              else Selects(es, container.contents, Lt, probe)
    {
      var stop := GetBeginIteratorAt(probe);
      var iter := GetBeginIterator();
      es := Collect(iter, stop);
    }

    method ScanAll() returns (es: seq<Entry>)
      requires Valid()
      ensures SortedEntries(es) && forall e :: e in es <==> Held(container.contents, e)
    {
      hide Ordered, SizedBut, Ahead;
      var iter := GetBeginIterator();
      var end := GetEndIterator();
      es := Collect(iter, end);
    }

    /**
     The row ids of the entries that stand in relation `op` to the probe. Equality and inequality are always answered
     right; the other four are if and only if the probe is not in a gap. Wrong or right, they are row ids of the index.
     */
    method ScanKey(probe: Key, op: CompareOp) returns (result: seq<RowId>)
      requires Valid()
      ensures Answers(result, container.contents, op, probe) <==> op in {Eq, Ne} || !InGap(probe)
      ensures forall rid | rid in result :: Stored(container.contents, rid)
      ensures op in {Eq, Ne} || !InGap(probe) ==>
        ListsRelated(result, container.contents, op, probe)
    {
      hide Ordered, SizedBut, ProbeInGap, Has, MoreBeyond;
      var es: seq<Entry> := [];
      match op {
        case Eq =>
          var found := container.GetValue(probe);
          if found.Some? {
            es := [Entry(probe, found.value)];
          }
          result := Rids(es);
        case Gt =>
          es := ScanGreater(probe);
          result := Rids(es);
          if InGap(probe) {
            GapMisses(container.contents, Gt, probe);
          }
        case Ge =>
          es := ScanGreaterEqual(probe);
          result := Rids(es);
          if InGap(probe) {
            GapMisses(container.contents, Ge, probe);
          }
        case Lt =>
          es := ScanLess(probe);
          result := Rids(es);
          if InGap(probe) {
            GapAdds(es, container.contents, Lt, probe);
          }
        case Le =>
          es := ScanLess(probe);
          var found := container.GetValue(probe);
          if found.Some? {
            es := es + [Entry(probe, found.value)];
          }
          result := Rids(es);
          if InGap(probe) {
            GapAdds(es, container.contents, Le, probe);
          }
        case Ne =>
          es := ScanAll();
          result := Rids(es);
          var found := container.GetValue(probe);
          if found.Some? {
            ghost var rest;
            result, rest := EraseFirst(es, Entry(probe, found.value));
            assert Selects(rest, container.contents, op, probe);
          }
      }
      RidsStored(es, container.contents);
      assert op != Ne && (op == Eq || !InGap(probe)) ==> Selects(es, container.contents, op, probe);
      if op in {Eq, Ne} || !InGap(probe) {
        AnswersAreRelated(result, container.contents, op, probe);
      }
    }
  }

  /** `result` lists the row ids of the entries that satisfy the comparison: in key order, except for inequality. */
  ghost predicate Answers(result: seq<RowId>, contents: map<Key, RowId>, op: CompareOp, probe: Key) {
    exists es :: Selects(es, contents, op, probe)
      && if op == Ne then multiset(result) == multiset(Rids(es)) else result == Rids(es)
  }

  /** The index has an entry for the row. */
  ghost predicate Stored(contents: map<Key, RowId>, rid: RowId) {
    exists e :: Held(contents, e) && e.rid == rid
  }

  lemma RidsStored(es: seq<Entry>, contents: map<Key, RowId>)
    requires forall e | e in es :: Held(contents, e)
    ensures forall rid | rid in Rids(es) :: Stored(contents, rid)
  {
    forall rid | rid in Rids(es) ensures Stored(contents, rid) {
      var i :| 0 <= i < |es| && Rids(es)[i] == rid;
      assert es[i] in es;
    }
  }

  lemma {:induction false} RidMembers(es: seq<Entry>, rid: RowId)
    ensures rid in Rids(es) <==> exists e :: e in es && e.rid == rid
  {
    if rid in Rids(es) {
      var i :| 0 <= i < |Rids(es)| && Rids(es)[i] == rid;
      assert es[i] in es;
    }
    if e: Entry :| e in es && e.rid == rid {
      var i :| 0 <= i < |es| && es[i] == e;
      assert Rids(es)[i] == rid;
    }
  }

  /** What an answer says, key by key. */
  ghost predicate ListsRelated(result: seq<RowId>, contents: map<Key, RowId>, op: CompareOp, probe: Key) {
    forall rid :: rid in result <==> exists k :: k in contents && contents[k] == rid && Related(op, k, probe)
  }

  /** The operators, by where the key stands. */
  predicate Related(op: CompareOp, k: Key, probe: Key) {
    && (k < probe ==> op in {Ne, Lt, Le})
    && (k == probe ==> op in {Eq, Le, Ge})
    && (k > probe ==> op in {Ne, Gt, Ge})
  }

  lemma SatisfiesIsRelated(op: CompareOp, k: Key, probe: Key)
    ensures Related(op, k, probe) <==> Satisfies(op, k, probe)
  {
  }

  lemma AnswersAreRelated(result: seq<RowId>, contents: map<Key, RowId>, op: CompareOp, probe: Key)
    requires Answers(result, contents, op, probe)
    ensures ListsRelated(result, contents, op, probe)
  {
    hide SortedEntries, Related, Satisfies, Rids;
    var es :| Selects(es, contents, op, probe)
      && if op == Ne then multiset(result) == multiset(Rids(es)) else result == Rids(es);
    forall rid ensures rid in result <==> exists k :: k in contents && contents[k] == rid && Related(op, k, probe) {
      assert rid in result <==> rid in multiset(result);
      assert rid in Rids(es) <==> rid in multiset(Rids(es));
      RidMembers(es, rid);
      forall k ensures Related(op, k, probe) <==> Satisfies(op, k, probe) {
        SatisfiesIsRelated(op, k, probe);
      }
      if k :| k in contents && contents[k] == rid && Related(op, k, probe) {
        assert Held(contents, Entry(k, rid));
      }
    }
  }

  lemma GapMisses(contents: map<Key, RowId>, op: CompareOp, probe: Key)
    requires op in {Gt, Ge} && MoreBeyond(contents, probe)
    ensures !Answers([], contents, op, probe)
  {
    var k :| k in contents && probe < k;
    forall es | Selects(es, contents, op, probe) ensures Rids(es) != [] {
      assert Entry(k, contents[k]) in es;
    }
  }

  lemma GapAdds(all: seq<Entry>, contents: map<Key, RowId>, op: CompareOp, probe: Key)
    requires op in {Lt, Le} && MoreBeyond(contents, probe)
    requires SortedEntries(all) && forall e :: e in all <==> Held(contents, e)
    ensures !Answers(Rids(all), contents, op, probe)
  {
    var k :| k in contents && probe < k;
    forall es | Selects(es, contents, op, probe) ensures |es| < |all| {
      FewerEntries(es, all, Entry(k, contents[k]));
    }
  }

  lemma KeyOnce(entries: seq<Entry>, e: Entry, f: Entry)
    requires SortedEntries(entries) && e in entries && f in entries && e.key == f.key
    ensures e == f
  {
    var i :| 0 <= i < |entries| && entries[i] == e;
    var j :| 0 <= j < |entries| && entries[j] == f;
  }

  lemma FewerEntries(es: seq<Entry>, all: seq<Entry>, x: Entry)
    requires SortedEntries(es) && SortedEntries(all)
    requires (forall e | e in es :: e in all) && x in all && x !in es
    ensures |es| < |all|
  {
    KeyCount(es);
    KeyCount(all);
    var fewer, more := KeySet(es), KeySet(all);
    forall k | k in fewer ensures k in more && k != x.key {
      var e :| e in es && e.key == k;
      if k == x.key {
        KeyOnce(all, e, x);
      }
    }
    assert x.key in more;
    SubsetSize(fewer + {x.key}, more);
  }

  lemma EraseRid(all: seq<Entry>, i: nat, j: nat)
    requires i < |all| && j < |all| && all[i].rid == all[j].rid
    ensures multiset(RemoveAt(Rids(all), j)) == multiset(Rids(RemoveAt(all, i)))
  {
    var r := Rids(all);
    assert Rids(RemoveAt(all, i)) == RemoveAt(r, i);
    RemoveAtMultiset(r, i);
    RemoveAtMultiset(r, j);
  }

  lemma RemoveAtMultiset<T>(s: seq<T>, i: nat)
    requires i < |s|
    ensures multiset(RemoveAt(s, i)) == multiset(s) - multiset{s[i]}
  {
    assert s == s[..i] + [s[i]] + s[i + 1..];
  }

  /** Takes the first occurrence of the entry's row id out of the row ids of `all`. */
  method EraseFirst(all: seq<Entry>, e: Entry) returns (result: seq<RowId>, ghost rest: seq<Entry>)
    requires SortedEntries(all) && e in all
    ensures SortedEntries(rest) && forall f :: f in rest <==> f in all && f != e
    ensures multiset(result) == multiset(Rids(rest))
    ensures exists j: nat :: j < |all| && all[j].rid == e.rid && result == RemoveAt(Rids(all), j)
  {
    var rids := Rids(all);
    ghost var i :| 0 <= i < |all| && all[i] == e;
    var j := 0;
    while rids[j] != e.rid
      invariant 0 <= j <= i
      decreases i - j
    {
      j := j + 1;
    }
    result := RemoveAt(rids, j);
    rest := RemoveAt(all, i);
    EraseRid(all, i, j);
    forall f ensures f in rest <==> f in all && f != e {
      RemoveAtMembers(all, i, f);
      if f in all && f.key == e.key {
        var k :| 0 <= k < |all| && all[k] == f;
      }
    }
  }

  lemma EmptyIfNone(es: seq<Entry>)
    ensures (forall e :: e !in es) ==> es == []
  {
    if |es| > 0 {
      assert es[0] in es;
    }
  }

  lemma IndexReaches(S: Store, I: Shape, root: PageId, p: PageId, probe: Key, index: nat, e: Entry)
    requires Ordered(S, I, root) && p in S && S[p].Leaf? && Covers(I[p], probe) && Has(S, e)
    requires IsKeyIndex(S[p].entries, probe, index)
    ensures index < |S[p].entries| ==> (S[p].entries[index].key <= e.key <==> probe <= e.key)
    ensures index == |S[p].entries| && I[p].top ==> e.key < probe
  {
    assert PageOk(S, I, p);
    if probe <= e.key && Covers(I[p], e.key) {
      LeafDecides(S, I, root, p, e);
    } else if index < |S[p].entries| {
      assert Admits(I[p], S[p].entries[index].key);
    }
  }

  lemma GapHasMore(S: Store, I: Shape, root: PageId, c: Caps, contents: map<Key, RowId>, p: PageId, probe: Key)
    requires Tree(S, I, root, c) && Holds(S, contents) && p in S && S[p].Leaf? && Covers(I[p], probe) && !I[p].top
    requires forall e | e in S[p].entries :: e.key < probe
    ensures MoreBeyond(contents, probe)
  {
    LeafAnswers(S, I, root, contents, p, probe);
    assert PageOk(S, I, p);
    var n := S[p].next;
    assert PageOk(S, I, n) && SizeOk(c, S[n], n == root);
    var e := S[n].entries[0];
    assert Admits(I[n], e.key) && Has(S, e);
    assert e.key in contents && probe < e.key;
  }

  lemma LeftmostFirst(S: Store, I: Shape, root: PageId, c: Caps, p: PageId, e: Entry)
    requires Tree(S, I, root, c) && p in S && S[p].Leaf? && !I[p].off && |S[p].entries| > 0 && Has(S, e)
    ensures S[p].entries[0].key <= e.key
  {
    assert PageOk(S, I, p);
    if Covers(I[p], e.key) {
      LeafDecides(S, I, root, p, e);
    }
  }
}