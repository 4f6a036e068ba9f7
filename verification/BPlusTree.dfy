/**
 The B+ tree index: its pages are a map from page id to page contents that the methods update, and every method is
 stated against the map from keys to row ids that the tree stands for.
 */
module BPlusTrees {
  import opened Basics
  import opened BPlusTreeNodes
  import opened BPlusTreeInvariant
  import opened BPlusTreeInsert
  import opened BPlusTreeSeparators
  import opened BPlusTreeGaps
  import opened BPlusTreeRemove
  import opened BPlusTreeMerges
  import opened BPlusTreeRepairs

  /** The leaves hold exactly the entries of `contents`. */
  ghost predicate Holds(S: Store, contents: map<Key, RowId>) {
    forall e :: Has(S, e) <==> e.key in contents && contents[e.key] == e.rid
  }

  lemma FreshExists(s: set<PageId>)
    ensures exists id :: id !in s && id >= 0
  {
    var m := UpperBound(s);
    assert m !in s;
  }

  lemma UpperBound(s: set<PageId>) returns (m: nat)
    ensures forall x | x in s :: x < m
  {
    if x :| x in s {
      var k := UpperBound(s - {x});
      m := if x < k then k else x + 1;
      assert forall y | y in s :: y == x || y in s - {x};
    } else {
      m := 0;
    }
  }

  lemma AdoptNext(S: Store, kids: seq<Slot>, i: nat, q: PageId)
    requires i < |kids| && kids[i].child in S
    ensures Adopt(S, kids[..i], q)[kids[i].child := Adopt(S, kids[..i], q)[kids[i].child].(parent := q)]
        == Adopt(S, kids[..i + 1], q)
  {
    assert kids[..i + 1] == kids[..i] + [kids[i]];
    var before, after := kids[..i], kids[..i + 1];
    forall x | x in S
      ensures (exists j | 0 <= j < |after| :: after[j].child == x)
          <==> (exists j | 0 <= j < |before| :: before[j].child == x) || kids[i].child == x
    {
      if exists j | 0 <= j < |before| :: before[j].child == x {
        var j :| 0 <= j < |before| && before[j].child == x;
        assert after[j].child == x;
      }
      assert after[i].child == kids[i].child;
    }
  }

  lemma EmptyHolds()
    ensures Holds(map[], map[])
  {
  }

  lemma NothingHeld(contents: map<Key, RowId>)
    requires Holds(map[], contents)
    ensures contents == map[]
  {
    forall k ensures k !in contents {
      assert !Has(map[], Entry(k, if k in contents then contents[k] else 0));
    }
  }

  /** The leaf that covers a key says whether the tree holds the key. */
  lemma LeafAnswers(S: Store, I: Shape, root: PageId, contents: map<Key, RowId>, p: PageId, key: Key)
    requires Ordered(S, I, root) && Holds(S, contents) && p in S && S[p].Leaf? && Covers(I[p], key)
    ensures key !in contents <==> forall e | e in S[p].entries :: e.key != key
    ensures forall e | e in S[p].entries && e.key == key :: key in contents && contents[key] == e.rid
  {
    forall e | e in S[p].entries && e.key == key ensures key in contents && contents[key] == e.rid {
      assert Has(S, e);
    }
    if key in contents {
      LeafDecides(S, I, root, p, Entry(key, contents[key]));
    }
  }

  lemma RootLeafAlone(S: Store, I: Shape, root: PageId)
    requires Ordered(S, I, root) && S[root].Leaf?
    ensures S.Keys == {root}
  {
    assert PageOk(S, I, root);
    forall x | x in S ensures x == root {
      if x != root {
        var q, j := ChildOf(S, I, root, x);
      }
    }
  }

  /** Splitting leaves the parent of the page alone and starts the new page with the separator. */
  lemma SplitFacts(S: Store, I: Shape, root: PageId, p: PageId, q: PageId)
    requires Ordered(S, I, root) && p in S && S[p].Size() >= 2 && q !in S
    ensures var S' := SplitPage(S, p, q);
      && S'[p].parent == S[p].parent && S'[p].Size() > 0
      && S'[q].Size() > 0 && S'[q].FirstKey() == SplitKey(S[p])
  {
    if S[p].Internal? {
      SplitAdopts(S, I, root, p, q);
    }
  }

  /** From `S` to `S'` the entry went into leaf `p`, where its key belongs. */
  ghost predicate StoredIn(S: Store, p: PageId, e: Entry, S': Store) {
    p in S && S[p].Leaf? && exists i :: IsKeyIndex(S[p].entries, e.key, i) && S' == LeafInsert(S, p, i, e)
  }

  // ----- what a removal starts from and ends in

  /** A search for `key` ends in leaf `p`. */
  ghost predicate Searched(S: Store, I: Shape, key: Key, p: PageId) {
    p in S && p in I && S[p].Leaf? && Covers(I[p], key)
  }

  ghost predicate KeyAt(entries: seq<Entry>, key: Key, i: nat) {
    i < |entries| && entries[i].key == key
  }

  ghost function Without(entries: seq<Entry>, key: Key): seq<Entry> {
    if exists i :: KeyAt(entries, key, i) then
      var i :| KeyAt(entries, key, i); RemoveAt(entries, i)
    else
      entries
  }

  ghost function WithoutKey(S: Store, p: PageId, key: Key): Store
    requires p in S && S[p].Leaf?
  {
    S[p := S[p].(entries := Without(S[p].entries, key))]
  }

  lemma WithoutAt(entries: seq<Entry>, key: Key, index: nat)
    requires SortedEntries(entries) && IsKeyIndex(entries, key, index)
    ensures Without(entries, key) == if KeyAt(entries, key, index) then RemoveAt(entries, index) else entries
  {
    forall i | KeyAt(entries, key, i) ensures i == index {
    }
  }

  /** The entry for the key, if there is one, is at the position that the binary search finds. */
  lemma RecordFound(S: Store, I: Shape, root: PageId, contents: map<Key, RowId>, leaf: PageId, key: Key, index: nat)
    requires Ordered(S, I, root) && Holds(S, contents) && leaf in S && S[leaf].Leaf? && Covers(I[leaf], key)
    requires SortedEntries(S[leaf].entries) && IsKeyIndex(S[leaf].entries, key, index)
    ensures key in contents <==> KeyAt(S[leaf].entries, key, index)
    ensures key !in contents ==> WithoutKey(S, leaf, key) == S && contents == contents - {key}
    ensures key in contents ==> WithoutKey(S, leaf, key) == LeafRemove(S, leaf, index)
  {
    hide Ordered, Holds;
    LeafAnswers(S, I, root, contents, leaf, key);
    WithoutAt(S[leaf].entries, key, index);
    if KeyAt(S[leaf].entries, key, index) {
      assert S[leaf].entries[index] in S[leaf].entries;
    }
  }

  lemma RecordRemoved(S: Store, I: Shape, root: PageId, contents: map<Key, RowId>, leaf: PageId, index: nat)
    requires Ordered(S, I, root) && Holds(S, contents) && leaf in S && S[leaf].Leaf? && index < |S[leaf].entries|
    ensures var S' := LeafRemove(S, leaf, index);
      Ordered(S', I, root) && Holds(S', contents - {S[leaf].entries[index].key})
  {
    hide Ordered, Has, LeafRemove;
    LeafRemoveOrdered(S, I, root, leaf, index);
    LeafRemoveEntries(S, I, root, leaf, index);
  }

  /** The first key of leaf `p` copied beside it in its parent and, from a first child, on to the grandparent. */
  ghost function RefreshAbove(S: Store, p: PageId): Store {
    if InParent(S, p) && S[p].Size() > 0 then
      var r, k := S[p].parent, S[p].FirstKey();
      var i := PlaceOf(S[r].slots, p);
      var S1 := SetKey(S, r, i, k);
      if i == 0 && InParent(S1, r) then
        var g := S1[r].parent;
        SetKey(S1, g, PlaceOf(S1[g].slots, r), k)
      else
        S1
    else
      S
  }

  /** The pages when `key` has left its leaf `p` and the keys above it have been refreshed. */
  ghost function AfterDelete(S: Store, p: PageId, key: Key): Store
    requires p in S && S[p].Leaf?
  {
    RefreshAbove(WithoutKey(S, p, key), p)
  }

  /** The places that the code finds are the ones meant: `i` is that of `p` and `j` that of its parent. */
  lemma RefreshAboveIs(S: Store, I: Shape, root: PageId, p: PageId, i: nat, j: nat)
    requires Ordered(S, I, root) && p in S && p != root && S[p].Leaf? && S[p].Size() > 0
    requires var r := S[p].parent;
      && r in S && S[r].Internal? && i < |S[r].slots| && S[r].slots[i].child == p
      && (r != root ==> var g := S[r].parent; g in S && S[g].Internal? && j < |S[g].slots| && S[g].slots[j].child == r)
    ensures var r, k := S[p].parent, S[p].FirstKey();
      var S1 := SetKey(S, r, i, k);
      && (i > 0 || r == root ==> RefreshAbove(S, p) == S1)
      && (i == 0 && r != root ==>
            var g := S[r].parent; g in S1 && S1[g] == S[g] && RefreshAbove(S, p) == SetKey(S1, g, j, k))
  {
    var r := S[p].parent;
    KidsDistinct(S, I, root, r, i, PlaceOf(S[r].slots, p));
    if r == root {
      assert LinkOk(S, root, root);
    } else {
      var g, t := ChildOf(S, I, root, r);
      KidsDistinct(S, I, root, g, j, PlaceOf(S[g].slots, r));
    }
  }

  lemma RefreshStopsAtParent(S: Store, I: Shape, root: PageId, p: PageId, i: nat)
    requires Ordered(S, I, root) && p in S && p != root && S[p].Leaf? && S[p].Size() > 0
    requires var r := S[p].parent;
      r in S && S[r].Internal? && i < |S[r].slots| && S[r].slots[i].child == p && (i > 0 || r == root)
    ensures RefreshAbove(S, p) == SetKey(S, S[p].parent, i, S[p].FirstKey())
  {
    var r, j := S[p].parent, 0;
    if r != root {
      var g, t := ChildOf(S, I, root, r);
      j := t;
    }
    RefreshAboveIs(S, I, root, p, i, j);
  }

  lemma RootStays(S: Store, I: Shape, root: PageId)
    requires Ordered(S, I, root)
    ensures RefreshAbove(S, root) == S
  {
    assert LinkOk(S, root, root);
  }

  lemma AfterDeleteIs(S: Store, p: PageId, key: Key)
    requires p in S && S[p].Leaf?
    ensures AfterDelete(S, p, key) == RefreshAbove(WithoutKey(S, p, key), p)
  {
  }

  lemma RefreshedHolds(S: Store, I: Shape, root: PageId, leaf: PageId, S': Store, I': Shape, contents: map<Key, RowId>)
    requires Refreshed(S, I, root, leaf, S', I') && Holds(S, contents)
    ensures Holds(S', contents)
  {
    hide Ordered, Has;
  }

  lemma RefreshedSize(S: Store, p: PageId)
    requires p in S
    ensures p in RefreshAbove(S, p) && RefreshAbove(S, p)[p].Size() == S[p].Size()
  {
  }

  /** No size changes but that of the leaf. */
  lemma AfterDeleteSizes(S: Store, root: PageId, c: Caps, p: PageId, key: Key)
    requires SizedBut(S, root, c, INVALID_PAGE_ID) && INVALID_PAGE_ID !in S && p in S && S[p].Leaf?
    ensures SizedBut(AfterDelete(S, p, key), root, c, p)
  {
    var S2 := AfterDelete(S, p, key);
    forall x | x in S2 && x != p ensures SizeOk(c, S2[x], x == root) {
      assert SizeOk(c, S[x], x == root);
    }
  }

  ghost predicate OpensGapWithout(S: Store, I: Shape, root: PageId, p: PageId, key: Key)
    requires p in S && S[p].Leaf?
  {
    var entries := Without(S[p].entries, key);
    |entries| > 0 && OpensGap(S, I, root, p, entries[0].key)
  }

  lemma OpensGapSame(S: Store, I: Shape, root: PageId, p: PageId, key: Key)
    requires p in S && S[p].Leaf?
    ensures var S' := WithoutKey(S, p, key);
      S'[p].Size() > 0 ==> (OpensGap(S', I, root, p, S'[p].FirstKey()) <==> OpensGapWithout(S, I, root, p, key))
  {
  }

  /** The shape that a removal starts from: one with the key-zero order if the tree has it. */
  lemma RemovalShape(S: Store, I: Shape, root: PageId, c: Caps) returns (J: Shape)
    requires Tree(S, I, root, c)
    ensures Tree(S, J, root, c) && (HasZeroOrder(S, root, c) ==> J[root].zero && (NeverGap(S, I) ==> Tight(J)))
  {
    J := I;
    if HasZeroOrder(S, root, c) {
      J :| ZeroTree(S, J, root, c);
      NeverGapIff(S, I, J, root);
    }
  }

  ghost predicate SameRank(info: Info, info': Info) {
    info'.zero == info.zero && info'.level == info.level
  }

  lemma KeyShapeZero(S: Store, I: Shape, root: PageId, q: PageId, i: nat, k: Key)
    requires q in S && S[q].Internal? && i < |S[q].slots| && q in I && S[q].slots[i].child in I && root in I
    ensures root in KeyShape(S, I, q, i, k) && SameRank(I[root], KeyShape(S, I, q, i, k)[root])
  {
  }

  /** `k` is led to leaf `p` and is below the first key that `p` has without `key`, and that first key is copied up two
      levels but would have to go further. */
  ghost predicate GapWithout(S: Store, I: Shape, root: PageId, p: PageId, key: Key, k: Key)
    requires p in S && S[p].Leaf? && p in I
  {
    OpensGapWithout(S, I, root, p, key) && Covers(I[p], k) && k < Without(S[p].entries, key)[0].key
  }

  /** The removal of `key` leaves `k` in a gap, unless pages are repaired. */
  ghost predicate RemovalOpensGap(S: Store, I: Shape, root: PageId, key: Key, k: Key) {
    exists p :: Searched(S, I, key, p) && GapWithout(S, I, root, p, key, k)
  }

  lemma OneLeaf(S: Store, I: Shape, root: PageId, key: Key, p: PageId, q: PageId)
    requires Ordered(S, I, root) && Searched(S, I, key, p) && Searched(S, I, key, q)
    ensures p == q
  {
    assert PageOk(S, I, q) && PageOk(S, I, p);
    UniqueAtLevel(S, I, root, p, q, key);
  }

  /** Whichever shape is looked at, the search ends in one leaf, whose removal opens a gap or not. */
  lemma RemovalLeaf(S: Store, I: Shape, J: Shape, root: PageId, p: PageId, key: Key)
    requires Ordered(S, I, root) && Ordered(S, J, root) && Searched(S, J, key, p)
    ensures Searched(S, I, key, p) && forall q | Searched(S, I, key, q) :: q == p
    ensures OpensGapWithout(S, I, root, p, key) <==> OpensGapWithout(S, J, root, p, key)
    ensures forall k :: RemovalOpensGap(S, I, root, key, k) <==> GapWithout(S, J, root, p, key, k)
  {
    SameSearch(S, I, J, root, p);
    forall q | Searched(S, I, key, q) ensures q == p {
      OneLeaf(S, I, root, key, p, q);
    }
    var r := S[p].parent;
    if r in S && S[r].parent in S {
      SameSearch(S, I, J, root, S[r].parent);
    }
    forall k ensures RemovalOpensGap(S, I, root, key, k) <==> GapWithout(S, J, root, p, key, k) {
      assert GapWithout(S, I, root, p, key, k) <==> GapWithout(S, J, root, p, key, k);
    }
  }

  /** What the refreshing of the keys above `leaf` makes of a store. */
  ghost predicate Refreshed(S: Store, I: Shape, root: PageId, leaf: PageId, S': Store, I': Shape) {
    && Ordered(S', I', root) && SameEntries(S, S')
    && root in I && root in I' && SameRank(I[root], I'[root])
    && leaf in S && S[leaf].Leaf? && S[leaf].Size() > 0 && leaf in S' && S'[leaf].Leaf?
    && (I[root].zero && Tight(I) ==> GapsRefreshed(S, I, root, leaf, S[leaf].FirstKey(), I'))
  }

  /** Tight intervals stay tight unless a gap is opened, which is then the only one. */
  ghost predicate GapsRefreshed(S: Store, I: Shape, root: PageId, leaf: PageId, k: Key, I': Shape) {
    && (Tight(I') <==> !OpensGap(S, I, root, leaf, k))
    && (OpensGap(S, I, root, leaf, k) ==> GapAt(I, I', leaf, k))
  }

  lemma RefreshedOnce(S: Store, I: Shape, root: PageId, leaf: PageId, i: nat)
    requires Ordered(S, I, root) && leaf in S && S[leaf].Leaf? && leaf != root && S[leaf].Size() > 0
    requires var r := S[leaf].parent; r in S && S[r].Internal? && i < |S[r].slots| && S[r].slots[i].child == leaf
    requires i > 0 || S[leaf].parent == root
    ensures var r, k := S[leaf].parent, S[leaf].FirstKey();
      r in I && leaf in I && Refreshed(S, I, root, leaf, SetKey(S, r, i, k), KeyShape(S, I, r, i, k))
  {
    var r, k := S[leaf].parent, S[leaf].FirstKey();
    RefreshParent(S, I, root, leaf, i);
    KeyShapeZero(S, I, root, r, i, k);
    if I[root].zero && Tight(I) {
      TightRefreshParent(S, I, root, leaf, i);
    }
  }

  lemma RefreshedTwice(S: Store, I: Shape, root: PageId, leaf: PageId, j: nat)
    requires Ordered(S, I, root) && leaf in S && S[leaf].Leaf? && leaf != root && S[leaf].Size() > 0
    requires var r := S[leaf].parent;
      r in S && r != root && S[r].Internal? && |S[r].slots| > 0 && S[r].slots[0].child == leaf
    requires var g := S[S[leaf].parent].parent;
      g in S && S[g].Internal? && j < |S[g].slots| && S[g].slots[j].child == S[leaf].parent
    ensures var r, g, k := S[leaf].parent, S[S[leaf].parent].parent, S[leaf].FirstKey();
      var S1 := SetKey(S, r, 0, k);
      r in I && leaf in I && g in S1 && S1[g] == S[g] && g in KeyShape(S, I, r, 0, k) && r in KeyShape(S, I, r, 0, k)
      && Refreshed(S, I, root, leaf, SetKey(S1, g, j, k), KeyShape(S1, KeyShape(S, I, r, 0, k), g, j, k))
  {
    var r, g, k := S[leaf].parent, S[S[leaf].parent].parent, S[leaf].FirstKey();
    RefreshParent(S, I, root, leaf, 0);
    KeyShapeZero(S, I, root, r, 0, k);
    var q, t := ChildOf(S, I, root, r);
    var S1, I1 := SetKey(S, r, 0, k), KeyShape(S, I, r, 0, k);
    RefreshGrandparent(S1, I1, root, r, leaf, j);
    KeyShapeZero(S1, I1, root, g, j, k);
    if I[root].zero && Tight(I) {
      TightRefreshIff(S, I, root, leaf, j);
    }
  }

  /** `S2` is `S` without `key`, with the keys above its leaf refreshed. */
  ghost predicate Deleted(S: Store, I: Shape, root: PageId, leaf: PageId, key: Key, S2: Store, I2: Shape) {
    && leaf in S && S[leaf].Leaf? && root in I && root in I2
    && Ordered(S2, I2, root) && SameRank(I[root], I2[root]) && leaf in S2 && S2[leaf].Leaf?
    && (I[root].zero && Tight(I) ==>
          if OpensGapWithout(S, I, root, leaf, key) then GapAt(I, I2, leaf, Without(S[leaf].entries, key)[0].key)
          else Tight(I2))
  }

  lemma DeletedIs(S: Store, I: Shape, root: PageId, leaf: PageId, key: Key, S2: Store, I2: Shape)
    requires leaf in S && S[leaf].Leaf? && root in I && Ordered(S2, I2, root)
    requires if leaf == root then S2 == WithoutKey(S, leaf, key) && I2 == I
             else Refreshed(WithoutKey(S, leaf, key), I, root, leaf, S2, I2)
    ensures Deleted(S, I, root, leaf, key, S2, I2)
  {
    OpensGapSame(S, I, root, leaf, key);
  }

  lemma LeafSizes(S: Store, I: Shape, root: PageId, c: Caps, contents: map<Key, RowId>, leaf: PageId, key: Key)
    requires Tree(S, I, root, c) && c.leafMax >= 4 && Holds(S, contents) && leaf in S && S[leaf].Leaf?
    ensures SizeOk(c, S[leaf], leaf == root) && (leaf == root ==> S.Keys == {leaf})
    ensures leaf != root ==> |contents - {key}| > 1
  {
    hide Ordered, SizedBut, Holds;
    RootFacts(S, I, root);
    LastInRoot(S, I, root, c, contents, key);
    if S[root].Leaf? {
      RootLeafAlone(S, I, root);
    }
    TreeSize(S, root, c, leaf);
  }

  lemma TreeSize(S: Store, root: PageId, c: Caps, p: PageId)
    requires SizedBut(S, root, c, INVALID_PAGE_ID) && p in S && INVALID_PAGE_ID !in S
    ensures SizeOk(c, S[p], p == root)
  {
  }

  lemma DeletedTree(S: Store, I: Shape, root: PageId, c: Caps, leaf: PageId)
    requires Ordered(S, I, root) && SizedBut(S, root, c, leaf) && leaf in S && SizeOk(c, S[leaf], leaf == root)
    ensures Tree(S, I, root, c) && Mirrors(S, S)
  {
  }

  lemma OrderKeptSame(I: Shape, root: PageId)
    requires root in I
    ensures OrderKept(I, root, I, root)
  {
  }

  lemma GapsAfter(S: Store, J: Shape, root: PageId, p: PageId, key: Key, S2: Store, I2: Shape)
    requires Deleted(S, J, root, p, key, S2, I2) && J[root].zero && Tight(J) && p in J
    ensures forall k :: NoGapOnPath(S2, I2, k) <==> !GapWithout(S, J, root, p, key, k)
    ensures (forall k :: !GapWithout(S, J, root, p, key, k)) ==> Tight(I2)
  {
    NeverGapIff(S2, I2, I2, root);
    if OpensGapWithout(S, J, root, p, key) {
      GapKeys(S2, I2, root, p);
    }
  }

  /** What the shape at the end of a removal says of the tree: `J` is the shape at its start, `S2` and `I2` are what the
      deletion left, and `S3` and `I3` are what the repair of pages left. */
  lemma RemovalOutcome(S: Store, I: Shape, J: Shape, root: PageId, c: Caps, leaf: PageId, key: Key, S2: Store,
        I2: Shape, S3: Store, I3: Shape, root3: PageId)
    requires Tree(S, I, root, c) && Tree(S, J, root, c) && Searched(S, J, key, leaf)
    requires HasZeroOrder(S, root, c) ==> J[root].zero && (NeverGap(S, I) ==> Tight(J))
    requires Deleted(S, J, root, leaf, key, S2, I2) && Tree(S3, I3, root3, c) && OrderKept(I2, root, I3, root3)
    ensures HasZeroOrder(S, root, c) ==> HasZeroOrder(S3, root3, c)
    ensures HasZeroOrder(S, root, c) && NeverGap(S, I) && (forall k :: !RemovalOpensGap(S, I, root, key, k)) ==>
      NeverGap(S3, I3)
    ensures HasZeroOrder(S, root, c) && NeverGap(S, I) && S3 == S2 && I3 == I2 ==>
      forall k :: NoGapOnPath(S3, I3, k) <==> !RemovalOpensGap(S, I, root, key, k)
  {
    if HasZeroOrder(S, root, c) {
      assert ZeroTree(S3, I3, root3, c);
      if NeverGap(S, I) {
        RemovalLeaf(S, I, J, root, leaf, key);
        GapsAfter(S, J, root, leaf, key, S2, I2);
        NeverGapIff(S3, I3, I3, root3);
      }
    }
  }

  /** A root no more than two levels above the leaves is too low for a gap to open. */
  lemma LowTreeOpensNoGap(S: Store, I: Shape, root: PageId, key: Key)
    requires Ordered(S, I, root)
    ensures I[root].level <= 2 ==> forall k :: !RemovalOpensGap(S, I, root, key, k)
  {
    if I[root].level <= 2 {
      forall k ensures !RemovalOpensGap(S, I, root, key, k) {
        if RemovalOpensGap(S, I, root, key, k) {
          var p :| Searched(S, I, key, p) && GapWithout(S, I, root, p, key, k);
          var r, i := ChildOf(S, I, root, p);
          var g, j := ChildOf(S, I, root, r);
          var h, t := ChildOf(S, I, root, g);
        }
      }
    }
  }

  lemma RootOpensNoGap(S: Store, I: Shape, J: Shape, root: PageId, leaf: PageId, key: Key)
    requires Ordered(S, I, root) && Ordered(S, J, root) && Searched(S, J, key, leaf)
    ensures leaf == root ==> forall k :: !RemovalOpensGap(S, I, root, key, k)
  {
    RemovalLeaf(S, I, J, root, leaf, key);
  }

  lemma NothingInGap(I: Shape)
    ensures NeverGap(map[], I)
  {
  }

  /** The leaf holds more entries than it must, or will not lose one. */
  ghost predicate KeepsEnough(S: Store, c: Caps, contents: map<Key, RowId>, leaf: PageId, key: Key) {
    leaf in S && (key !in contents || S[leaf].Size() > MinSize(c, S[leaf]))
  }

  // ----- how many keys a tree has

  lemma {:induction false} KeyCount(entries: seq<Entry>)
    requires SortedEntries(entries)
    ensures |KeySet(entries)| == |entries|
  {
    if |entries| > 0 {
      var m := |entries| - 1;
      KeyCount(entries[..m]);
      KeySetLast(entries, m);
    }
  }

  lemma KeySetLast(entries: seq<Entry>, m: nat)
    requires m < |entries| && SortedEntries(entries)
    ensures KeySet(entries[..m + 1]) == KeySet(entries[..m]) + {entries[m].key}
    ensures entries[m].key !in KeySet(entries[..m])
    ensures m + 1 == |entries| ==> entries[..m + 1] == entries
  {
    assert entries[..m + 1] == entries[..m] + [entries[m]];
  }

  /** A leaf root has as many entries as the map has keys. */
  lemma RootLeafCount(S: Store, I: Shape, root: PageId, contents: map<Key, RowId>)
    requires Ordered(S, I, root) && S[root].Leaf? && Holds(S, contents)
    ensures |contents| == |S[root].entries|
  {
    RootLeafAlone(S, I, root);
    assert PageOk(S, I, root);
    var entries := S[root].entries;
    forall k ensures k in KeySet(entries) <==> k in contents {
      if k in contents {
        assert Has(S, Entry(k, contents[k]));
      }
      if k in KeySet(entries) {
        var e :| e in entries && e.key == k;
        assert Has(S, e);
      }
    }
    assert KeySet(entries) == contents.Keys;
    KeyCount(entries);
  }

  /** Below every page there is a leaf whose interval lies in that of the page. */
  lemma {:induction false} SomeLeafBelow(S: Store, I: Shape, root: PageId, p: PageId) returns (y: PageId)
    requires Ordered(S, I, root) && p in S
    ensures y in S && S[y].Leaf? && (p != root ==> y != root) && forall k | Covers(I[y], k) :: Covers(I[p], k)
    decreases I[p].level
  {
    assert PageOk(S, I, p);
    if S[p].Leaf? {
      y := p;
    } else {
      assert ChildOk(S, I, p, 0);
      var c := S[p].slots[0].child;
      var q, j := ChildOf(S, I, root, c) by {
        assert LinkOk(S, root, root);
      }
      y := SomeLeafBelow(S, I, root, c);
    }
  }

  lemma TwoKeys(S: Store, I: Shape, root: PageId, c: Caps, contents: map<Key, RowId>, y: PageId)
    requires Tree(S, I, root, c) && c.leafMax >= 4 && Holds(S, contents) && y in S && S[y].Leaf? && y != root
    ensures |S[y].entries| >= 2
    ensures var a, b := S[y].entries[0].key, S[y].entries[1].key;
      a != b && a in contents && b in contents && Covers(I[y], a) && Covers(I[y], b)
  {
    assert PageOk(S, I, y) && SizeOk(c, S[y], false);
    assert Has(S, S[y].entries[0]) && Has(S, S[y].entries[1]);
  }

  /** A tree of more than one page has more than two keys. */
  lemma InternalRootCount(S: Store, I: Shape, root: PageId, c: Caps, contents: map<Key, RowId>)
    requires Tree(S, I, root, c) && c.leafMax >= 4 && Holds(S, contents) && S[root].Internal?
    ensures |contents| > 2
  {
    assert PageOk(S, I, root) && SizeOk(c, S[root], true) && LinkOk(S, root, root);
    var slots := S[root].slots;
    assert ChildOk(S, I, root, 0) && ChildOk(S, I, root, 1);
    var y := SomeLeafBelow(S, I, root, slots[0].child);
    var z := SomeLeafBelow(S, I, root, slots[1].child);
    TwoKeys(S, I, root, c, contents, y);
    TwoKeys(S, I, root, c, contents, z);
    var a, b, d := S[y].entries[0].key, S[y].entries[1].key, S[z].entries[0].key;
    SiblingsDisjoint(I[root], slots, 0, 1, d);
    assert Covers(ChildInfo(I[root], slots, 1), d);
    assert {a, b, d} <= contents.Keys;
    SubsetSize({a, b, d}, contents.Keys);
  }

  /** Only a leaf root can be left with one entry. */
  lemma LastInRoot(S: Store, I: Shape, root: PageId, c: Caps, contents: map<Key, RowId>, key: Key)
    requires Tree(S, I, root, c) && c.leafMax >= 4 && Holds(S, contents)
    ensures |contents - {key}| <= 1 ==> S[root].Leaf?
  {
    if S[root].Internal? {
      InternalRootCount(S, I, root, c, contents);
      assert contents.Keys <= (contents - {key}).Keys + {key};
      SubsetSize(contents.Keys, (contents - {key}).Keys + {key});
    }
  }

  class BPlusTree {
    var rootPageId: PageId
    var pages: Store
    const caps: Caps
    ghost var shape: Shape
    ghost var contents: map<Key, RowId>

    /** The pages are a tree in search order. */
    ghost predicate Valid()
      reads this
    {
      && caps.leafMax >= 1 && caps.internalMax >= 3
      && Holds(pages, contents)
      && if rootPageId == INVALID_PAGE_ID then pages == map[] else Tree(pages, shape, rootPageId, caps)
    }

    /** The tree has the key-zero order as well. */
    ghost predicate KeyZeroOk()
      reads this
    {
      rootPageId == INVALID_PAGE_ID || HasZeroOrder(pages, rootPageId, caps)
    }

    /** The key-zero order holds and every insertion will keep it. */
    ghost predicate GapFree()
      reads this
    {
      KeyZeroOk() && NeverGap(pages, shape)
    }

    constructor (caps: Caps)
      requires caps.leafMax >= 1 && caps.internalMax >= 3
      ensures Valid() && GapFree() && contents == map[] && this.caps == caps
    {
      rootPageId := INVALID_PAGE_ID;
      pages := map[];
      this.caps := caps;
      shape := map[];
      contents := map[];
    }

    /** A tree whose pages are there already. */
    constructor Open(caps: Caps, root: PageId, pages: Store, ghost shape: Shape, ghost contents: map<Key, RowId>)
      requires caps.leafMax >= 1 && caps.internalMax >= 3 && Tree(pages, shape, root, caps) && Holds(pages, contents)
      ensures Valid() && this.caps == caps && rootPageId == root
      ensures this.pages == pages && this.shape == shape && this.contents == contents
    {
      rootPageId := root;
      this.pages := pages;
      this.caps := caps;
      this.shape := shape;
      this.contents := contents;
    }

    // ----- search

    method FindLeafPage(key: Key, leftMost: bool) returns (p: PageId)
      requires Valid()
      ensures rootPageId == INVALID_PAGE_ID <==> p == INVALID_PAGE_ID
      ensures p != INVALID_PAGE_ID ==>
        p in pages && p in shape && pages[p].Leaf? && if leftMost then !shape[p].off else Covers(shape[p], key)
    {
      if rootPageId == INVALID_PAGE_ID {
        return INVALID_PAGE_ID;
      }
      p := rootPageId;
      while !pages[p].Leaf?
        invariant p in pages && p in shape && if leftMost then !shape[p].off else Covers(shape[p], key)
        decreases shape[p].level
      {
        assert PageOk(pages, shape, p) && SizeOk(caps, pages[p], p == rootPageId);
        if leftMost {
          assert ChildOk(pages, shape, p, 0);
          p := pages[p].slots[0].child;
        } else {
          var child, i := InternalLookup(pages[p].slots, key);
          RouteCovers(pages, shape, rootPageId, p, key, i);
          p := child;
        }
      }
    }

    /** The value stored for the key, if there is one. */
    method GetValue(key: Key) returns (result: Option<RowId>)
      requires Valid()
      ensures result == if key in contents then Some(contents[key]) else None
    {
      var p := FindLeafPage(key, false);
      if p == INVALID_PAGE_ID {
        NothingHeld(contents);
        return None;
      }
      assert PageOk(pages, shape, p);
      result := LeafLookup(pages[p].entries, key);
      LeafAnswers(pages, shape, rootPageId, contents, p, key);
    }

    // ----- insertion

    method NewPage() returns (id: PageId)
      ensures id !in pages && id >= 0
    {
      FreshExists(pages.Keys);
      id :| id !in pages && id >= 0;
    }

    method StartNewTree(key: Key, value: RowId)
      requires Valid() && rootPageId == INVALID_PAGE_ID
      modifies this
      ensures Valid() && GapFree() && contents == map[key := value]
    {
      var id := NewPage();
      rootPageId := id;
      pages := map[id := Leaf(INVALID_PAGE_ID, INVALID_PAGE_ID, [Entry(key, value)])];
      shape := map[id := RootInfo(0, true)];
      contents := map[key := value];
      assert Entry(key, value) in pages[id].entries;
      assert ZeroTree(pages, shape, rootPageId, caps);
    }

    /** The new page to the right of `p`; the pages below the children that moved are adopted one by one. */
    method Split(p: PageId) returns (q: PageId)
      requires p in pages && pages[p].Size() >= 2
      requires pages[p].Internal? ==>
        forall i | 0 <= i < |pages[p].slots| :: var c := pages[p].slots[i].child; c in pages && c != p
      modifies this`pages
      ensures q !in old(pages) && q >= 0
      ensures pages == SplitPage(old(pages), p, q)
    {
      q := NewPage();
      match pages[p] {
        case Leaf(parent, next, entries) =>
          var size := |entries|;
          var moveSize := size / 2;
          pages := pages[q := Leaf(parent, next, entries[size - moveSize..])];
          pages := pages[p := Leaf(parent, q, entries[..size - moveSize])];
        case Internal(parent, slots) =>
          var size := |slots|;
          var moveSize := size / 2;
          var moved := slots[size - moveSize..];
          pages := pages[q := Internal(parent, moved)];
          pages := pages[p := Internal(parent, slots[..size - moveSize])];
          AdoptAll(moved, q);
      }
    }

    method AdoptAll(kids: seq<Slot>, q: PageId)
      requires forall i | 0 <= i < |kids| :: kids[i].child in pages
      modifies this`pages
      ensures pages == Adopt(old(pages), kids, q)
    {
      for i := 0 to |kids|
        invariant pages == Adopt(old(pages), kids[..i], q)
      {
        AdoptNext(old(pages), kids, i, q);
        var c := kids[i].child;
        pages := pages[c := pages[c].(parent := q)];
      }
      assert kids[..|kids|] == kids;
    }

    lemma SplittableKids(S: Store, I: Shape, root: PageId, p: PageId)
      requires Ordered(S, I, root) && p in S && S[p].Internal?
      ensures forall i | 0 <= i < |S[p].slots| :: S[p].slots[i].child in S && S[p].slots[i].child != p
    {
      assert PageOk(S, I, p);
      forall i | 0 <= i < |S[p].slots| ensures S[p].slots[i].child in S && S[p].slots[i].child != p {
        assert ChildOk(S, I, p, i);
      }
    }

    /** The halves `p` and `q` of the old root become the children of a new root. */
    method GrowNewRoot(p: PageId, key: Key, q: PageId, ghost S0: Store)
      requires caps.leafMax >= 1 && caps.internalMax >= 3
      requires Overfull(S0, shape, p, caps, p) && q !in S0 && q >= 0
      requires pages == SplitPage(S0, p, q) && key == SplitKey(S0[p])
      modifies this`rootPageId, this`pages, this`shape
      ensures Tree(pages, shape, rootPageId, caps) && SameEntries(S0, pages)
      ensures Carried(S0, old(shape), p, pages, shape, rootPageId)
    {
      hide Ordered, SizedBut, Carried, SplitPage, SplitShape, SplitKey, RootInfo;
      RootFacts(S0, shape, p);
      SplitSizes(S0, p, q);
      var n := NewPage();
      ghost var split, was := pages, shape;
      var slots := [Slot(pages[p].FirstKey(), p), Slot(key, q)];
      pages := pages[p := pages[p].(parent := n)];
      pages := pages[q := pages[q].(parent := n)];
      pages := pages[n := Internal(INVALID_PAGE_ID, slots)];
      rootPageId := n;
      shape := SplitShape(shape[n := RootInfo(shape[p].level + 1, shape[p].zero)], p, q, key);
      assert pages == GrowRoot(split, p, key, q, n);
      Grown(S0, was, caps, p, q, n, pages, shape);
      GrowCarries(S0, was, p, q, n);
    }

    /** The page `q` is entered after `p` in their parent. */
    method LinkIntoParent(p: PageId, key: Key, q: PageId, ghost S0: Store) returns (r: PageId)
      requires caps.leafMax >= 1 && caps.internalMax >= 3
      requires Overfull(S0, shape, rootPageId, caps, p) && p != rootPageId && q !in S0 && q >= 0
      requires pages == SplitPage(S0, p, q) && key == SplitKey(S0[p])
      modifies this`pages, this`shape
      ensures r in pages && pages[r].Internal? && r in shape && p in old(shape)
      ensures shape[r].level == old(shape)[p].level + 1 && rootPageId in shape
          && shape[rootPageId] == old(shape)[rootPageId]
      ensures if pages[r].Size() > caps.internalMax then Overfull(pages, shape, rootPageId, caps, r)
          else Tree(pages, shape, rootPageId, caps)
      ensures SameEntries(S0, pages)
      ensures Carried(S0, old(shape), rootPageId, pages, shape, rootPageId)
    {
      SplitFacts(S0, shape, rootPageId, p, q);
      r := pages[p].parent;
      ghost var ro, jo := ChildOf(S0, shape, rootPageId, p);
      LinkSizes(S0, shape, rootPageId, caps, p, q, r, jo);
      var j := ValueIndex(pages[r].slots, p);
      LinkSizes(S0, shape, rootPageId, caps, p, q, r, j);
      LinkCarries(S0, shape, rootPageId, p, q, r, j);
      pages := pages[r := pages[r].(slots := InsertAt(pages[r].slots, j + 1, Slot(key, q)))];
      assert LinkOk(S0, rootPageId, rootPageId);
      shape := SplitShape(shape, p, q, key);
    }

    /**
     Enters the page `q` that was split off `p` in the parent of `p`, splitting further pages up to the root.
     `S0` is the store before the split, in which `p` held one pair too many.
     */
    method InsertIntoParent(p: PageId, key: Key, q: PageId, ghost S0: Store)
      requires caps.leafMax >= 1 && caps.internalMax >= 3
      requires Overfull(S0, shape, rootPageId, caps, p) && q !in S0 && q >= 0
      requires pages == SplitPage(S0, p, q) && key == SplitKey(S0[p])
      modifies this`rootPageId, this`pages, this`shape
      ensures Tree(pages, shape, rootPageId, caps) && SameEntries(S0, pages)
      ensures Carried(S0, old(shape), old(rootPageId), pages, shape, rootPageId)
      decreases shape[rootPageId].level - shape[p].level
    {
      SplitFacts(S0, shape, rootPageId, p, q);
      assert LinkOk(S0, rootPageId, p) && PageOk(S0, shape, p);
      if pages[p].parent == INVALID_PAGE_ID {
        GrowNewRoot(p, key, q, S0);
      } else {
        var r := LinkIntoParent(p, key, q, S0);
        if pages[r].Size() > caps.internalMax {
          ghost var S1 := pages;
          SplittableKids(S1, shape, rootPageId, r);
          var newParent := Split(r);
          SplitFacts(S1, shape, rootPageId, r, newParent);
          InsertIntoParent(r, pages[newParent].slots[0].key, newParent, S1);
        }
      }
    }

    /**
     Returns false, and changes nothing, exactly when the key is present. The tree stays in search order whatever the
     key; it stays in key-zero order, if it was, exactly when the key is not in a gap.
     */
    method Insert(key: Key, value: RowId) returns (inserted: bool)
      requires Valid()
      modifies this
      ensures Valid()
      ensures inserted == (key !in old(contents))
      ensures contents == if inserted then old(contents)[key := value] else old(contents)
      ensures !inserted ==> pages == old(pages) && rootPageId == old(rootPageId)
      ensures forall p | old(inserted && Searched(pages, shape, key, p) && pages[p].Size() < caps.leafMax) ::
        rootPageId == old(rootPageId) && StoredIn(old(pages), p, Entry(key, value), pages)
      ensures old(KeyZeroOk()) ==> (KeyZeroOk() <==> !inserted || old(NoGapOnPath(pages, shape, key)))
      ensures old(GapFree()) ==> GapFree()
    {
      if rootPageId == INVALID_PAGE_ID {
        NothingHeld(contents);
        StartNewTree(key, value);
        return true;
      }
      inserted := InsertIntoLeaf(key, value);
    }

    method InsertIntoLeaf(key: Key, value: RowId) returns (inserted: bool)
      requires Valid() && rootPageId != INVALID_PAGE_ID
      modifies this
      ensures Valid() && rootPageId != INVALID_PAGE_ID
      ensures inserted == (key !in old(contents))
      ensures contents == if inserted then old(contents)[key := value] else old(contents)
      ensures !inserted ==> pages == old(pages) && rootPageId == old(rootPageId)
      ensures forall p | old(inserted && Searched(pages, shape, key, p) && pages[p].Size() < caps.leafMax) ::
        rootPageId == old(rootPageId) && StoredIn(old(pages), p, Entry(key, value), pages)
      ensures old(KeyZeroOk()) ==> (KeyZeroOk() <==> !inserted || old(NoGapOnPath(pages, shape, key)))
      ensures old(GapFree()) ==> GapFree()
    {
      hide Ordered, StoredIn, Started, SizedBut, Has, NoGapOnPath, SomeUndercut, Tight;
      var leaf := FindLeafPage(key, false);
      PageFacts(pages, shape, rootPageId, leaf);
      var found := LeafLookup(pages[leaf].entries, key);
      LeafAnswers(pages, shape, rootPageId, contents, leaf, key);
      if found.Some? {
        return false;
      }
      ghost var S, I, root := pages, shape, rootPageId;
      ghost var S1, J := StoreInLeaf(leaf, Entry(key, value));
      if pages[leaf].Size() > caps.leafMax {
        var newLeaf := Split(leaf);
        SplitFacts(S1, J, root, leaf, newLeaf);
        InsertIntoParent(leaf, pages[newLeaf].entries[0].key, newLeaf, S1);
      }
      RootFacts(S1, J, root);
      RootFacts(pages, shape, rootPageId);
      InsertOutcome(S, I, root, caps, key, S1, J, pages, shape, rootPageId);
      forall p | Searched(S, I, key, p) ensures p == leaf {
        OneLeaf(S, I, root, key, p, leaf);
      }
      return true;
    }

    /** A new entry goes into its leaf, which may then hold one too many. */
    method StoreInLeaf(leaf: PageId, e: Entry) returns (ghost S1: Store, ghost J: Shape)
      requires Valid() && rootPageId != INVALID_PAGE_ID && leaf in pages && leaf in shape && pages[leaf].Leaf?
      requires Covers(shape[leaf], e.key) && e.key !in contents
      modifies this`pages, this`shape, this`contents
      ensures pages == S1 && shape == J && contents == old(contents)[e.key := e.rid] && Holds(pages, contents)
      ensures leaf in pages && pages[leaf].Leaf?
      ensures if pages[leaf].Size() > caps.leafMax then Overfull(pages, shape, rootPageId, caps, leaf)
          else Tree(pages, shape, rootPageId, caps)
      ensures Started(old(pages), old(shape), rootPageId, caps, e.key, S1, J)
      ensures StoredIn(old(pages), leaf, e, pages) && pages[leaf].Size() == old(pages)[leaf].Size() + 1
    {
      hide Ordered, Started, SizedBut, Has, NoGapOnPath;
      ghost var S := pages;
      PageFacts(S, shape, rootPageId, leaf);
      LeafAnswers(S, shape, rootPageId, contents, leaf, e.key);
      var index := KeyIndex(pages[leaf].entries, e.key);
      J := InsertShape(S, shape, rootPageId, caps, leaf, index, e);
      LeafInsertSizes(S, J, rootPageId, caps, leaf, index, e);
      LeafInsertEntries(S, leaf, index, e);
      S1 := LeafInsert(S, leaf, index, e);
      shape := J;
      pages := pages[leaf := pages[leaf].(entries := InsertAt(pages[leaf].entries, index, e))];
      contents := contents[e.key := e.rid];
    }

    // ----- removal

    /** Page `p` lacks a pair, or it is a leaf that is the whole tree. The pages are those of the tree `T` but for
        separators, none of which is out of its place at the level of `p` or above. */
    ghost predicate Lacking(T: Store, J: Shape, p: PageId)
      reads this
    {
      && rootPageId in J && p in J && p in pages && Stands(pages, shape, T, J, rootPageId, J[p].level)
      && if p == rootPageId && pages[p].Leaf? then pages.Keys == {p} && pages[p].Size() <= caps.leafMax
         else Underfull(T, J, rootPageId, caps, p)
    }

    /** The pages are those of the tree `T'` but for separators, and the order they had as `S` is kept if and only if
        `ok` holds. */
    ghost predicate RepairedFrom(S: Store, I: Shape, root: PageId, T: Store, ok: bool, T': Store, J': Shape)
      reads this
    {
      Repaired(S, I, root, T, ok, pages, shape, rootPageId, caps, T', J')
    }

    /** A root with a single child gives way to it; a leaf root with at most one entry is dropped, entry and all. */
    method AdjustRoot(p: PageId, ghost T: Store, ghost J: Shape)
      returns (deleted: bool, ghost T': Store, ghost J': Shape)
      requires Lacking(T, J, p) && p == rootPageId
      modifies this`rootPageId, this`pages, this`shape
      ensures deleted == (old(pages[p].Size()) <= 1)
      ensures !deleted ==> pages == old(pages) && rootPageId == old(rootPageId) && shape == old(shape)
      ensures if deleted && old(pages[p].Leaf?) then rootPageId == INVALID_PAGE_ID && pages == map[] && shape == map[]
              else RepairedFrom(old(pages), old(shape), old(rootPageId), T, true, T', J')
    {
      hide Ordered, SizedBut, Broken, Repaired;
      T', J' := T, J;
      assert SamePage(pages[p], T[p]);
      if pages[p].Size() > 1 {
        RootRepaired(pages, shape, T, J, p, caps);
        return false, T', J';
      }
      if pages[p].Leaf? {
        rootPageId := INVALID_PAGE_ID;
        shape := map[];
      } else {
        DropRootStands(pages, shape, T, J, p, caps);
        var c := pages[p].slots[0].child;
        rootPageId := c;
        pages := pages[c := pages[c].(parent := INVALID_PAGE_ID)];
        shape := shape - {p};
        T', J' := DropRoot(T, p), J - {p};
      }
      pages := pages - {p};
      return true, T', J';
    }

    /** `node`, child `index` of `r`, and its sibling `neighbor`: the next child for the first one, else the one
        before. */
    ghost predicate Neighbors(T: Store, J: Shape, neighbor: PageId, node: PageId, r: PageId, index: nat)
      reads this
    {
      && (if index == 0 then HelpedOut(T, J, rootPageId, caps, node, r, 0, node, neighbor)
          else HelpedOut(T, J, rootPageId, caps, node, r, index - 1, neighbor, node))
      && node in J && Stands(pages, shape, T, J, rootPageId, J[node].level)
    }

    /** Leaves that are evened out stay in order. */
    method RedistributeLeaf(neighbor: PageId, node: PageId, r: PageId, index: nat, ghost T: Store, ghost J: Shape)
      returns (ghost T': Store, ghost J': Shape)
      requires Neighbors(T, J, neighbor, node, r, index) && node in pages && pages[node].Leaf?
      requires neighbor in pages && pages[node].Size() + pages[neighbor].Size() >= caps.leafMax
      modifies this`pages, this`shape
      ensures RepairedFrom(old(pages), old(shape), old(rootPageId), T, true, T', J')
    {
      hide Ordered, SizedBut, OrderKept, HelpedOut, Stands;
      ghost var S, I' := pages, shape;
      if index == 0 {
        I', T', J' := EvenStands(S, shape, T, J, rootPageId, caps, node, r, 0, node, neighbor);
        var first := pages[neighbor].entries[0];
        pages := pages[node := pages[node].(entries := pages[node].entries + [first])];
        pages := pages[neighbor := pages[neighbor].(entries := pages[neighbor].entries[1..])];
        pages := SetKey(pages, r, 1, pages[neighbor].entries[0].key);
      } else {
        I', T', J' := EvenStands(S, shape, T, J, rootPageId, caps, node, r, index - 1, neighbor, node);
        var m := |pages[neighbor].entries| - 1;
        var last := pages[neighbor].entries[m];
        pages := pages[neighbor := pages[neighbor].(entries := pages[neighbor].entries[..m])];
        pages := pages[node := pages[node].(entries := [last] + pages[node].entries)];
        pages := SetKey(pages, r, index, pages[node].entries[0].key);
      }
      shape := I';
    }

    /** Internal pages stay in order if and only if the page is a first child, or the key at its position 0, which
        becomes a separator, separates it from its sibling. */
    method RedistributeInternal(neighbor: PageId, node: PageId, r: PageId, index: nat, ghost T: Store, ghost J: Shape)
      returns (ghost T': Store, ghost J': Shape)
      requires Neighbors(T, J, neighbor, node, r, index) && node in pages && pages[node].Internal?
      requires neighbor in pages && pages[node].Size() + pages[neighbor].Size() >= caps.internalMax
      modifies this`pages, this`shape
      ensures RepairedFrom(old(pages), old(shape), old(rootPageId), T,
                           index == 0 || ZeroSplits(old(pages), neighbor, node, J[node].level), T', J')
    {
      hide Ordered, SizedBut, OrderKept, HelpedOut, Stands;
      ghost var S, I' := pages, shape;
      if index == 0 {
        I', T', J' := EvenStands(S, shape, T, J, rootPageId, caps, node, r, 0, node, neighbor);
        var middleKey, child := pages[r].slots[1].key, pages[neighbor].slots[0].child;
        pages := pages[node := pages[node].(slots := pages[node].slots + [Slot(middleKey, child)])];
        pages := pages[neighbor := pages[neighbor].(slots := pages[neighbor].slots[1..])];
        pages := pages[child := pages[child].(parent := node)];
        pages := SetKey(pages, r, 1, pages[neighbor].slots[0].key);
        assert pages == InternalFirstToEnd(S, r, 0, node, neighbor);
      } else {
        I', T', J' := EvenStands(S, shape, T, J, rootPageId, caps, node, r, index - 1, neighbor, node);
        var m := |pages[neighbor].slots| - 1;
        var last := pages[neighbor].slots[m];
        pages := pages[neighbor := pages[neighbor].(slots := pages[neighbor].slots[..m])];
        pages := pages[node := pages[node].(slots := [last] + pages[node].slots)];
        pages := pages[last.child := pages[last.child].(parent := node)];
        pages := SetKey(pages, r, index, pages[node].slots[0].key);
        assert pages == InternalLastToFront(S, r, index - 1, neighbor, node);
      }
      shape := I';
    }

    /** Page `n` is emptied into `l`, on its left. */
    method MoveAll(l: PageId, n: PageId, r: PageId, i: nat, ghost T: Store, ghost J: Shape)
      requires Mirrors(pages, T) && Siblings(T, J, rootPageId, r, i, l, n)
      modifies this`pages
      ensures l in old(pages) && n in old(pages) && r in old(pages) && old(pages)[l].Leaf? == old(pages)[n].Leaf?
      ensures old(pages)[r].Internal? && i + 1 < |old(pages)[r].slots| && r != l && r != n && l != n
      ensures pages == MergeOf(old(pages), r, i, l, n)
    {
      hide Ordered, Mirrors;
      SiblingMirrors(pages, T, J, rootPageId, r, i, l, n);
      if pages[l].Leaf? {
        pages := pages[l := Leaf(pages[l].parent, pages[n].next, pages[l].entries + pages[n].entries)];
      } else {
        MirrorKids(pages, T, J, rootPageId, n);
        var moved := pages[n].slots;
        pages := pages[l := pages[l].(slots := pages[l].slots + moved)];
        AdoptAll(moved, l);
      }
      pages := pages - {n};
      pages := DropSlot(pages, r, i + 1);
    }

    /** Page `n` is emptied into `l`, on its left, and deleted; the parent, if it now lacks a pair, is seen to in
        turn. */
    method Coalesce(l: PageId, n: PageId, r: PageId, i: nat, ghost x: PageId, ghost T: Store, ghost J: Shape)
      returns (ghost T': Store, ghost J': Shape)
      requires HelpedOut(T, J, rootPageId, caps, x, r, i, l, n) && l in pages && n in pages && x in pages && r in J
      requires x in J && rootPageId in J && Stands(pages, shape, T, J, rootPageId, J[x].level)
      requires pages[l].Size() + pages[n].Size() < MaxSize(caps, pages[x])
      requires r in pages && pages[r].Internal? && PairOk(pages, Pair(r, i, l, n))
      modifies this`rootPageId, this`pages, this`shape
      ensures RepairedFrom(old(pages), old(shape), old(rootPageId), T,
                           old(MergeSeparates(pages, rootPageId, caps, Pair(r, i, l, n), J[x].level,
                                              J[rootPageId].level - J[x].level)), T', J')
      decreases J[rootPageId].level - J[r].level, 1
    {
      hide Ordered, SizedBut, MergeOf, ZeroSplits, Repaired, Stands, OrderKept, RepairSeparates, HelpedOut;
      ghost var S, I, root, q := pages, shape, rootPageId, Pair(r, i, l, n);
      HelpedFacts(T, J, root, caps, x, r, i, l, n);
      PageFacts(T, J, root, r);
      ghost var I1, T1, J1 := MergeStands(S, I, T, J, root, caps, x, r, i, l, n);
      StandsMirrors(S, I, T, J, root, J[x].level);
      MoveAll(l, n, r, i, T, J);
      shape := I1;
      MergeNext(S, I, root, T, J, caps, x, q, pages, I1, T1, J1);
      T', J' := T1, J1;
      if pages[r].Size() < MinSize(caps, pages[r]) {
        ghost var S1 := pages;
        var deleted;
        deleted, T', J' := CoalesceOrRedistribute(r, T1, J1);
        RepairedOn(S, I, root, T, ZeroSplits(S, l, n, J[x].level), S1, I1, T1,
                   RepairSeparates(S1, root, caps, r, J1[r].level, J1[root].level - J1[r].level),
                   pages, shape, rootPageId, caps, T', J');
        MergeParents(S, q);
      }
    }

    /** The page that lacks a pair is merged with its sibling if one page has room for both, and else gets a pair. */
    method CoalesceOrRedistribute(node: PageId, ghost T: Store, ghost J: Shape)
      returns (deleted: bool, ghost T': Store, ghost J': Shape)
      requires Lacking(T, J, node) && caps.leafMax >= 4 && caps.internalMax >= 4
      modifies this`rootPageId, this`pages, this`shape
      ensures if old(node == rootPageId && pages[node].Leaf? && pages[node].Size() <= 1)
              then rootPageId == INVALID_PAGE_ID && pages == map[] && shape == map[]
              else RepairedFrom(old(pages), old(shape), old(rootPageId), T,
                                old(RepairSeparates(pages, rootPageId, caps, node, J[node].level,
                                                    J[rootPageId].level - J[node].level)), T', J')
      decreases J[rootPageId].level - J[node].level, 0
    {
      hide Ordered, SizedBut, MergeOf, KeySplits, Repaired, Mirrors, Broken, OrderKept, MergeSeparates, HelpedOut;
      MirrorParent(pages, T, J, rootPageId, node);
      if pages[node].parent == INVALID_PAGE_ID {
        deleted, T', J' := AdjustRoot(node, T, J);
        return;
      }
      var r := pages[node].parent;
      var index := ValueIndex(pages[r].slots, node);
      SiblingHelps(pages, T, J, rootPageId, caps, node, index);
      var siblingIndex := if index == 0 then 1 else index - 1;
      var sibling := pages[r].slots[siblingIndex].child;
      if pages[node].Size() + pages[sibling].Size() < MaxSize(caps, pages[node]) {
        if index == 0 {
          T', J' := Coalesce(node, sibling, r, index, node, T, J);
        } else {
          T', J' := Coalesce(sibling, node, r, siblingIndex, node, T, J);
        }
      } else if pages[node].Leaf? {
        T', J' := RedistributeLeaf(sibling, node, r, index, T, J);
      } else {
        T', J' := RedistributeInternal(sibling, node, r, index, T, J);
      }
      deleted := false;
    }

    /** `Remove` keeps nothing of the last entry that a tree would be left with. */
    ghost predicate DropsLast(key: Key)
      reads this
    {
      |contents - {key}| == 1
    }

    /** The key is in a leaf below the root that holds no more entries than it must. */
    ghost predicate Starves(key: Key)
      reads this
    {
      && key in contents
      && exists p :: Searched(pages, shape, key, p) && p != rootPageId && pages[p].Size() <= MinSize(caps, pages[p])
    }

    /** Every key at position 0 that the removal of `key` makes a separator separates. */
    ghost predicate RemovalSeparates(key: Key)
      reads this
    {
      key in contents ==>
        forall p | Searched(pages, shape, key, p) && p != rootPageId && pages[p].Size() <= MinSize(caps, pages[p]) ::
          RepairSeparates(AfterDelete(pages, p, key), rootPageId, caps, p, 0, RootLevel())
    }

    ghost function RootLevel(): nat
      reads this
    {
      if rootPageId in shape then shape[rootPageId].level else 0
    }

    /** Some intervals make sense of the pages. */
    ghost predicate InOrder()
      reads this
    {
      rootPageId == INVALID_PAGE_ID || exists J :: Ordered(pages, J, rootPageId)
    }

    /** But for the separators the pages are a tree: depth, parents, sizes, leaves and leaf chain. */
    ghost predicate WellLinked()
      reads this
    {
      if rootPageId == INVALID_PAGE_ID then pages == map[]
      else exists T, J :: Tree(T, J, rootPageId, caps) && Mirrors(pages, T)
    }

    /** `LeafPage::RemoveAndDeleteRecord`: the entry for the key, if there is one, is taken out of the leaf. */
    method RemoveRecord(leaf: PageId, key: Key)
      requires Valid() && leaf in pages && leaf in shape && pages[leaf].Leaf? && Covers(shape[leaf], key)
      modifies this`pages, this`contents
      ensures Ordered(pages, shape, rootPageId) && Holds(pages, contents)
      ensures contents == old(contents) - {key}
      ensures pages == WithoutKey(old(pages), leaf, key)
      ensures leaf in pages && pages[leaf].Size() == old(pages)[leaf].Size() - if key in old(contents) then 1 else 0
    {
      hide Ordered, SizedBut, Holds, Without;
      ghost var S := pages;
      PageFacts(S, shape, rootPageId, leaf);
      var index := KeyIndex(pages[leaf].entries, key);
      RecordFound(S, shape, rootPageId, contents, leaf, key, index);
      if index < |pages[leaf].entries| && pages[leaf].entries[index].key == key {
        RecordRemoved(S, shape, rootPageId, contents, leaf, index);
        pages := pages[leaf := pages[leaf].(entries := RemoveAt(pages[leaf].entries, index))];
        contents := contents - {key};
      }
    }

    /** The first key of the leaf is copied beside it in its parent. */
    method RefreshInParent(leaf: PageId) returns (r: PageId, i: nat)
      requires Ordered(pages, shape, rootPageId) && leaf in pages && pages[leaf].Leaf?
      requires leaf != rootPageId && pages[leaf].Size() > 0
      modifies this`pages, this`shape
      ensures r == old(pages)[leaf].parent && r in old(pages) && r in old(shape) && old(pages)[r].Internal?
      ensures i < |old(pages)[r].slots| && old(pages)[r].slots[i].child == leaf
      ensures pages == SetKey(old(pages), r, i, old(pages)[leaf].FirstKey())
      ensures shape == KeyShape(old(pages), old(shape), r, i, old(pages)[leaf].FirstKey())
      ensures rootPageId in old(shape) && shape[rootPageId].zero == old(shape)[rootPageId].zero
      ensures Ordered(pages, shape, rootPageId) && SameEntries(old(pages), pages)
      ensures r in shape && shape[r] == old(shape)[r]
      ensures var k := old(pages)[leaf].FirstKey();
        (shape[r].off ==> shape[r].dlo <= k) && (shape[r].top || k < shape[r].hi)
    {
      ghost var S, I := pages, shape;
      ghost var q, k := ChildOf(S, I, rootPageId, leaf);
      r := pages[leaf].parent;
      var index := ValueIndex(pages[r].slots, leaf);
      i := index;
      RefreshParent(S, I, rootPageId, leaf, i);
      KeyShapeZero(S, I, rootPageId, r, i, S[leaf].FirstKey());
      pages := SetKey(pages, r, i, pages[leaf].entries[0].key);
      shape := KeyShape(S, I, r, i, S[leaf].FirstKey());
    }

    /** The key at position 0 of page `r`, now the first key of the leaf, is copied beside it in its parent. */
    method RefreshInGrandparent(r: PageId, leaf: PageId) returns (g: PageId, j: nat)
      requires Ordered(pages, shape, rootPageId) && r in pages && r != rootPageId && pages[r].Internal?
          && |pages[r].slots| > 0
      requires pages[r].slots[0].child == leaf && leaf in pages && pages[leaf].Leaf? && pages[leaf].Size() > 0
      requires pages[r].slots[0].key == pages[leaf].FirstKey()
      requires var k := pages[r].slots[0].key;
        (shape[r].off ==> shape[r].dlo <= k) && (shape[r].top || k < shape[r].hi)
      modifies this`pages, this`shape
      ensures g == old(pages)[r].parent && g in old(pages) && g in old(shape) && old(pages)[g].Internal?
      ensures j < |old(pages)[g].slots| && old(pages)[g].slots[j].child == r && r in old(shape)
      ensures pages == SetKey(old(pages), g, j, old(pages)[r].slots[0].key)
      ensures shape == KeyShape(old(pages), old(shape), g, j, old(pages)[r].slots[0].key)
      ensures rootPageId in old(shape) && shape[rootPageId].zero == old(shape)[rootPageId].zero
      ensures Ordered(pages, shape, rootPageId) && SameEntries(old(pages), pages)
    {
      ghost var S, I := pages, shape;
      ghost var q, k := ChildOf(S, I, rootPageId, r);
      g := pages[r].parent;
      var index := ValueIndex(pages[g].slots, r);
      j := index;
      RefreshGrandparent(S, I, rootPageId, r, leaf, j);
      KeyShapeZero(S, I, rootPageId, g, j, S[r].slots[0].key);
      pages := SetKey(pages, g, j, pages[r].slots[0].key);
      shape := KeyShape(S, I, g, j, S[r].slots[0].key);
    }

    /**
     The first key of the leaf is copied to the parent and, from a first child, on to the grandparent. In key-zero
     order with no gap anywhere, no gap appears if and only if the key needs to go no further.
     */
    method RefreshKeys(leaf: PageId)
      requires Ordered(pages, shape, rootPageId) && leaf in pages && pages[leaf].Leaf?
      requires leaf != rootPageId && pages[leaf].Size() > 0
      modifies this`pages, this`shape
      ensures pages == RefreshAbove(old(pages), leaf)
      ensures Refreshed(old(pages), old(shape), rootPageId, leaf, pages, shape)
      ensures old(shape)[rootPageId].zero && old(Tight(shape)) ==>
        (Tight(shape) <==> !OpensGap(old(pages), old(shape), rootPageId, leaf, old(pages)[leaf].FirstKey()))
    {
      ghost var S, I := pages, shape;
      assert LinkOk(S, rootPageId, rootPageId);
      var r, i := RefreshInParent(leaf);
      assert LinkOk(S, rootPageId, r);
      if i == 0 && pages[r].parent != INVALID_PAGE_ID {
        var g, j := RefreshInGrandparent(r, leaf);
        RefreshAboveIs(S, I, rootPageId, leaf, i, j);
        RefreshedTwice(S, I, rootPageId, leaf, j);
      } else {
        RefreshStopsAtParent(S, I, rootPageId, leaf, i);
        RefreshedOnce(S, I, rootPageId, leaf, i);
      }
    }

    /** The removal up to the point where a leaf may have too few entries. */
    method DeleteEntry(leaf: PageId, key: Key)
      requires Valid() && caps.leafMax >= 4 && leaf in pages && leaf in shape && pages[leaf].Leaf?
          && Covers(shape[leaf], key)
      modifies this`pages, this`shape, this`contents
      ensures Holds(pages, contents) && contents == old(contents) - {key}
      ensures pages == AfterDelete(old(pages), leaf, key)
      ensures Deleted(old(pages), old(shape), rootPageId, leaf, key, pages, shape)
      ensures SizedBut(pages, rootPageId, caps, leaf)
      ensures pages[leaf].Size() == old(pages)[leaf].Size() - if key in old(contents) then 1 else 0
    {
      hide Ordered, SizedBut, Holds, AfterDelete, Deleted, Refreshed;
      ghost var S, I := pages, shape;
      RootFacts(S, I, rootPageId);
      PageFacts(S, I, rootPageId, leaf);
      TreeSize(S, rootPageId, caps, leaf);
      RemoveRecord(leaf, key);
      ghost var S1 := pages;
      PageFacts(S1, I, rootPageId, leaf);
      if pages[leaf].parent != INVALID_PAGE_ID {
        RefreshKeys(leaf);
        RefreshedSize(S1, leaf);
        RefreshedHolds(S1, I, rootPageId, leaf, pages, shape, contents);
      } else {
        RootStays(S1, I, rootPageId);
      }
      DeletedIs(S, I, rootPageId, leaf, key, pages, shape);
      AfterDeleteIs(S, leaf, key);
      AfterDeleteSizes(S, rootPageId, caps, leaf, key);
    }

    /** A leaf that lacks an entry is repaired. */
    method RepairLeaf(leaf: PageId)
      requires caps.leafMax >= 4 && caps.internalMax >= 4 && rootPageId in shape && leaf in shape
      requires Ordered(pages, shape, rootPageId) && SizedBut(pages, rootPageId, caps, leaf) && Holds(pages, contents)
      requires leaf in pages && pages[leaf].Leaf? && pages[leaf].Size() < MinSize(caps, pages[leaf])
      requires if leaf == rootPageId then pages.Keys == {leaf}
               else pages[leaf].Size() + 1 == MinSize(caps, pages[leaf])
      modifies this
      ensures Holds(pages, contents) && WellLinked()
      ensures if old(leaf == rootPageId && pages[leaf].Size() <= 1)
              then rootPageId == INVALID_PAGE_ID && pages == map[] && contents == map[]
              else rootPageId in pages && contents == old(contents)
      ensures rootPageId in pages ==>
        && (InOrder() <==> old(RepairSeparates(pages, rootPageId, caps, leaf, 0, shape[rootPageId].level)))
        && (InOrder() ==> Tree(pages, shape, rootPageId, caps))
        && (InOrder() ==> OrderKept(old(shape), old(rootPageId), shape, rootPageId))
        && (old(shape[rootPageId].zero) ==> InOrder())
    {
      hide Ordered, OrderKept, RepairSeparates, Repaired, Stands, Has, SizedBut, Tightened, TightShape, Mirrors, PageOk;
      ghost var S, I, root := pages, shape, rootPageId;
      PageFacts(S, I, root, leaf);
      RepairStarts(S, I, root, caps, leaf);
      ghost var T, J := Tightened(S, I), TightShape(I);
      StandsMirrors(S, I, T, J, root, J[leaf].level);
      var deleted;
      ghost var T', J';
      deleted, T', J' := CoalesceOrRedistribute(leaf, T, J);
      if leaf == root && S[leaf].Size() <= 1 {
        contents := map[];
        EmptyHolds();
      } else {
        RepairEnds(S, I, root, T, RepairSeparates(S, root, caps, leaf, J[leaf].level, J[root].level - J[leaf].level),
                   pages, shape, rootPageId, caps, T', J');
      }
    }

    /** The key is deleted from its leaf, which is then repaired if it lacks an entry. */
    method DeleteAndRepair(leaf: PageId, key: Key) returns (ghost S2: Store, ghost I2: Shape)
      requires Valid() && caps.leafMax >= 4 && caps.internalMax >= 4 && rootPageId != INVALID_PAGE_ID
      requires Searched(pages, shape, key, leaf) && rootPageId in shape
      modifies this
      ensures S2 == AfterDelete(old(pages), leaf, key)
      ensures Deleted(old(pages), old(shape), old(rootPageId), leaf, key, S2, I2)
      ensures Holds(pages, contents) && WellLinked()
      ensures contents == if old(DropsLast(key)) then map[] else old(contents) - {key}
      ensures rootPageId == INVALID_PAGE_ID ==> leaf == old(rootPageId)
      ensures leaf != old(rootPageId) && KeepsEnough(old(pages), caps, old(contents), leaf, key) ==>
        pages == S2 && shape == I2 && rootPageId == old(rootPageId)
      ensures InOrder() ==> Valid()
      ensures InOrder() && rootPageId != INVALID_PAGE_ID ==> OrderKept(I2, old(rootPageId), shape, rootPageId)
      ensures InOrder() <==>
        || leaf == old(rootPageId) || KeepsEnough(old(pages), caps, old(contents), leaf, key)
        || RepairSeparates(S2, old(rootPageId), caps, leaf, 0, old(RootLevel()))
      ensures old(shape[rootPageId].zero) ==> InOrder()
    {
      hide Ordered, OrderKept, AfterDelete, Has, OpensGapWithout, GapAt;
      ghost var root := rootPageId;
      LeafSizes(pages, shape, root, caps, contents, leaf, key);
      DeleteEntry(leaf, key);
      S2, I2 := pages, shape;
      PageFacts(pages, shape, root, leaf);
      if leaf == root {
        RootLeafCount(pages, shape, leaf, contents);
        RootLeafAlone(pages, shape, leaf);
      }
      if pages[leaf].Size() < MinSize(caps, pages[leaf]) {
        RepairLeaf(leaf);
      } else {
        OrderKeptSame(I2, root);
        DeletedTree(pages, shape, root, caps, leaf);
      }
    }

    /**
     The key goes, and nothing else does, except that the last entry of a tree goes too when it is left alone. The pages
     are linked as a tree with the right sizes in any case. They are in order, and the tree valid, if and only if every
     key at position 0 that becomes a separator separates; with the key-zero order they all do.
     Where no key was in a gap, the keys that the removal opens a gap for are the only ones in a gap before pages are
     repaired; in a tree of up to three levels there are none.
     */
    method Remove(key: Key)
      requires Valid() && caps.leafMax >= 4 && caps.internalMax >= 4
      modifies this
      ensures Holds(pages, contents) && WellLinked()
      ensures contents == if old(DropsLast(key)) then map[] else old(contents) - {key}
      ensures contents == old(contents) - {key} <==> !old(DropsLast(key))
      ensures InOrder() <==> old(RemovalSeparates(key))
      ensures InOrder() ==> Valid()
      ensures forall p |
        old(Searched(pages, shape, key, p) && p != rootPageId && KeepsEnough(pages, caps, contents, p, key)) ::
        rootPageId == old(rootPageId) && pages == AfterDelete(old(pages), p, key)
      ensures old(KeyZeroOk()) ==> Valid() && KeyZeroOk()
      ensures old(GapFree() && forall k :: !RemovalOpensGap(pages, shape, rootPageId, key, k)) ==> GapFree()
      ensures old(GapFree() && (rootPageId in shape ==> shape[rootPageId].level <= 2)) ==> GapFree()
      ensures old(GapFree() && !Starves(key)) ==>
        forall k :: NoGapOnPath(pages, shape, k) <==> !RemovalOpensGap(old(pages), old(shape), old(rootPageId), key, k)
    {
      hide Ordered, Deleted, NoGapOnPath, OrderKept, Holds, RepairSeparates, AfterDelete;
      if rootPageId == INVALID_PAGE_ID {
        NothingHeld(contents);
        return;
      }
      ghost var S, I, root := pages, shape, rootPageId;
      ghost var J := RemovalShape(S, I, root, caps);
      shape := J;
      var leaf := FindLeafPage(key, false);
      RootFacts(S, I, root);
      RootFacts(S, J, root);
      SameSearch(S, I, J, root, root);
      RemovalLeaf(S, I, J, root, leaf, key);
      RootOpensNoGap(S, I, J, root, leaf, key);
      LowTreeOpensNoGap(S, I, root, key);
      ghost var S2, I2 := DeleteAndRepair(leaf, key);
      if rootPageId == INVALID_PAGE_ID {
        NothingInGap(shape);
      } else if InOrder() {
        RemovalOutcome(S, I, J, root, caps, leaf, key, S2, I2, pages, shape, rootPageId);
      }
    }
  }
}
