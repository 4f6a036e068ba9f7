/**
 Trees that show what the conditions of the theorems shut out: a scan that starts in a gap between two leaves, a last
 entry that goes with another, and a key at position 0 that a removal leaves too large.
 */
module BPlusTreeExamples {
  import opened Basics
  import opened BPlusTreeNodes
  import opened BPlusTreeInvariant
  import opened BPlusTreeInsert
  import opened BPlusTreeSeparators
  import opened BPlusTreeGaps
  import opened BPlusTreeRemove
  import opened BPlusTreeMerges
  import opened BPlusTreeRepairs
  import opened BPlusTrees
  import opened BPlusTreeScan

  // ----- a tree of four levels

  /** Page `i` of a tree of four levels: its children are `2 * i` and `2 * i + 1`, and pages 8 to 15 are the leaves. */
  function Level(i: nat): nat {
    if i >= 8 then 0 else if i >= 4 then 1 else if i >= 2 then 2 else 3
  }

  /** The first key below page `i`. */
  function Start(i: nat): nat {
    if i >= 8 then 10 * i else if i >= 4 then 20 * i else if i >= 2 then 40 * i else 80 * i
  }

  function TallPage(i: nat): Page
    requires 1 <= i <= 15
  {
    if i >= 8 then
      Leaf(i / 2, if i == 15 then INVALID_PAGE_ID else i + 1,
           [Entry(10 * i, 10 * i), Entry(10 * i + 1, 10 * i + 1), Entry(10 * i + 2, 10 * i + 2)])
    else
      Internal(if i == 1 then INVALID_PAGE_ID else i / 2, [Slot(Start(i), 2 * i), Slot(Start(2 * i + 1), 2 * i + 1)])
  }

  function TallStore(): Store {
    map i: PageId | 1 <= i <= 15 :: TallPage(i)
  }

  ghost function TallInfo(i: nat): Info {
    var off, top := i !in {1, 2, 4, 8}, i in {1, 3, 7, 15};
    var lo := if off then Start(i) else 0;
    Info(Level(i), off, lo, lo, top, if top then 0 else Start(i + 1), true)
  }

  ghost function TallShape(): Shape {
    map i: PageId | 1 <= i <= 15 :: TallInfo(i)
  }

  ghost function TallKeys(): map<Key, RowId> {
    map k | 80 <= k < 160 && k % 10 < 3 :: k
  }

  lemma TallLeafOk(S: Store, I: Shape, i: nat)
    requires S == TallStore() && I == TallShape() && 8 <= i <= 15
    ensures PageOk(S, I, i)
  {
  }

  lemma TallKid(S: Store, I: Shape, i: nat, j: nat)
    requires S == TallStore() && I == TallShape() && 1 <= i < 8 && j < 2
    ensures S[i].Internal? && |S[i].slots| == 2 && I[i].level > 0 && ChildOk(S, I, i, j)
  {
    var c := 2 * i + j;
    assert S[i].slots[j].child == c && S[c].parent == i;
    TallKidInfo(i, j);
  }

  lemma TallKidInfo(i: nat, j: nat)
    requires 1 <= i < 8 && j < 2
    ensures TallInfo(i).level > 0
    ensures TallInfo(2 * i + j) == ChildInfo(TallInfo(i), [Slot(Start(i), 2 * i), Slot(Start(2 * i + 1), 2 * i + 1)], j)
  {
  }

  lemma TallInternalOk(S: Store, I: Shape, i: nat)
    requires S == TallStore() && I == TallShape() && 1 <= i < 8
    ensures PageOk(S, I, i)
  {
    hide ChildOk;
    TallKid(S, I, i, 0);
    TallKid(S, I, i, 1);
  }

  lemma TallLinkOk(S: Store, i: nat)
    requires S == TallStore() && 1 <= i <= 15
    ensures LinkOk(S, 1, i)
  {
    if i > 1 {
      assert S[i / 2].slots[i % 2].child == i;
    }
  }

  lemma TallSizeOk(S: Store, i: nat)
    requires S == TallStore() && 1 <= i <= 15
    ensures SizeOk(Caps(4, 4), S[i], i == 1)
  {
  }

  lemma TallInfos(I: Shape)
    requires I == TallShape()
    ensures I[1] == RootInfo(3, true) && Tight(I) && forall i | i in I :: I[i].level <= 3
  {
  }

  lemma TallTree()
    ensures Tree(TallStore(), TallShape(), 1, Caps(4, 4)) && TallShape()[1].zero && Tight(TallShape())
  {
    hide TallPage, TallInfo, PageOk, LinkOk, SizeOk, Tight;
    var S, I := TallStore(), TallShape();
    TallInfos(I);
    forall i | i in S ensures PageOk(S, I, i) && LinkOk(S, 1, i) && SizeOk(Caps(4, 4), S[i], i == 1) {
      TallLinkOk(S, i);
      TallSizeOk(S, i);
      if i >= 8 {
        TallLeafOk(S, I, i);
      } else {
        TallInternalOk(S, I, i);
      }
    }
  }

  lemma TallHolds()
    ensures Holds(TallStore(), TallKeys())
  {
    var S := TallStore();
    forall e ensures Has(S, e) <==> e.key in TallKeys() && TallKeys()[e.key] == e.rid {
      if e.key in TallKeys() && TallKeys()[e.key] == e.rid {
        var i := e.key / 10;
        assert S[i].Leaf? && S[i].entries[e.key % 10] == e;
      }
    }
  }

  // ----- a scan from a gap between two leaves

  lemma TallProbe()
    ensures ProbeInGap(TallStore(), TallShape(), 85)
  {
    assert TallStore()[8].Leaf? && Covers(TallShape()[8], 85);
  }

  /** All keys from 90 on are greater than 85, and a scan for the keys greater than 85 does not find them. */
  method ScanFromGap() returns (result: seq<RowId>)
    ensures !Answers(result, TallKeys(), Gt, 85)
  {
    hide Tree, Holds, ProbeInGap, TallStore, TallShape, TallKeys, Answers;
    TallTree();
    TallHolds();
    TallProbe();
    var tree := new BPlusTree.Open(Caps(4, 4), 1, TallStore(), TallShape(), TallKeys());
    var index := new BPlusTreeIndex(tree);
    result := index.ScanKey(85, Gt);
  }

  // ----- the last entry

  /** Two keys go in, one is removed, and the other is gone. */
  method LastEntryLost() returns (before: Option<RowId>, after: Option<RowId>)
    ensures before == Some(20) && after == None
  {
    hide Tree, Holds, NoGapOnPath;
    var tree := new BPlusTree(Caps(4, 4));
    var first := tree.Insert(1, 10);
    var second := tree.Insert(2, 20);
    before := tree.GetValue(2);
    assert tree.contents - {1} == map[2 := 20];
    tree.Remove(1);
    after := tree.GetValue(2);
  }

  // ----- a removal that opens a gap

  lemma TallTwelve()
    ensures var S := TallStore();
      && 12 in S && 6 in S && 3 in S && S[12].Leaf? && S[6].Internal? && S[3].Internal? && |S[6].slots| == 2
      && |S[3].slots| == 2
      && S[12] == Leaf(6, 13, [Entry(120, 120), Entry(121, 121), Entry(122, 122)]) && S[6].parent == 3
      && S[6].slots[0] == Slot(120, 12) && S[6].slots[1].child == 13
      && S[3].slots[0].child == 6 && S[3].slots[1].child == 7
  {
  }

  lemma TallTwelveInfo()
    ensures var I := TallShape(); 12 in I && Covers(I[12], 120) && 3 in I && I[3].off
  {
  }

  /** The removal of 120, the first key below pages 3, 6 and 12, leaves it in a gap. */
  lemma TallGap()
    ensures RemovalOpensGap(TallStore(), TallShape(), 1, 120, 120)
    ensures forall p | Searched(TallStore(), TallShape(), 120, p) :: p == 12 && TallStore()[p].Size() == 3
    ensures Searched(TallStore(), TallShape(), 120, 12)
  {
    hide TallStore, TallShape, Ordered;
    TallTree();
    TallTwelve();
    TallTwelveInfo();
    var S, I := TallStore(), TallShape();
    var entries := S[12].entries;
    assert KeyAt(entries, 120, 0);
    WithoutAt(entries, 120, 0);
    assert RemoveAt(entries, 0)[0] == entries[1];
    assert GapWithout(S, I, 1, 12, 120, 120);
    forall p | Searched(S, I, 120, p) ensures p == 12 {
      OneLeaf(S, I, 1, 120, p, 12);
    }
  }

  /** The pages once 120 has been removed and put back. */
  function PutBack(): Store {
    SetKey(SetKey(TallStore(), 6, 0, 121), 3, 0, 121)
  }

  ghost function LooseShape(): Shape {
    Loosen(TallShape())
  }

  lemma PutBackOrdered()
    ensures Ordered(PutBack(), LooseShape(), 1)
  {
    hide Ordered, PageOk, LinkOk;
    TallTree();
    LoosenOrdered(TallStore(), TallShape(), 1);
    var I := Loosen(TallShape());
    SetKeyZero(TallStore(), I, 1, 6, 121);
    SetKeyZero(SetKey(TallStore(), 6, 0, 121), I, 1, 3, 121);
  }

  /** While 120 is gone, it is missing from the same pages. */
  lemma TakenFromLeaf()
    ensures var S := TallStore();
      12 in S && S[12].Leaf? && |S[12].entries| == 3 && WithoutKey(S, 12, 120) == LeafRemove(S, 12, 0)
  {
    hide TallStore;
    TallTwelve();
    var entries := TallStore()[12].entries;
    assert KeyAt(entries, 120, 0);
    WithoutAt(entries, 120, 0);
  }

  /** Two keys above leaf 12 follow its first key. */
  ghost predicate BelowSix(S: Store) {
    && {3, 6, 12} <= S.Keys && S[12].Leaf? && |S[12].entries| == 2 && S[12].parent == 6
    && S[12].entries[0].key == 121
    && S[6].Internal? && |S[6].slots| == 2 && S[6].parent == 3 && S[6].slots[0].child == 12 && S[6].slots[1].child == 13
    && S[3].Internal? && |S[3].slots| == 2 && S[3].slots[0].child == 6 && S[3].slots[1].child == 7
  }

  lemma BelowSixRefreshed(S: Store)
    requires BelowSix(S)
    ensures RefreshAbove(S, 12) == SetKey(SetKey(S, 6, 0, 121), 3, 0, 121)
  {
    assert S[6].slots[0].child == 12 && S[3].slots[0].child == 6;
    assert PlaceOf(S[6].slots, 12) == 0;
    var S1 := SetKey(S, 6, 0, 121);
    assert S1[3] == S[3] && S1[6].parent == 3 && PlaceOf(S1[3].slots, 6) == 0;
  }

  lemma TakenOut()
    ensures AfterDelete(TallStore(), 12, 120) == LeafRemove(PutBack(), 12, 0)
  {
    hide TallStore, RefreshAbove;
    TallTwelve();
    TakenFromLeaf();
    BelowSixRefreshed(LeafRemove(TallStore(), 12, 0));
  }

  lemma GoneLeaf()
    ensures var S0 := LeafRemove(PutBack(), 12, 0);
      12 in S0 && S0[12].Leaf? && S0[12].entries == [Entry(121, 121), Entry(122, 122)]
  {
  }

  lemma PutInLeaf(S: Store)
    requires StoredIn(LeafRemove(PutBack(), 12, 0), 12, Entry(120, 120), S)
    ensures S == LeafInsert(LeafRemove(PutBack(), 12, 0), 12, 0, Entry(120, 120))
  {
    hide TallStore, LeafInsert;
    TallTwelve();
    var S0 := LeafRemove(PutBack(), 12, 0);
    GoneLeaf();
    var i :| IsKeyIndex(S0[12].entries, 120, i) && S == LeafInsert(S0, 12, i, Entry(120, 120));
    assert S0[12].entries[0].key == 121;
    assert i == 0;
  }

  lemma PutIn(S: Store)
    requires StoredIn(LeafRemove(PutBack(), 12, 0), 12, Entry(120, 120), S)
    ensures S == PutBack()
  {
    hide StoredIn, TallStore;
    TallTwelve();
    PutInLeaf(S);
    assert S[12] == PutBack()[12];
  }

  /** Whatever intervals are looked at, a search ends in the same leaf. */
  lemma FoundIn(S: Store, K: Shape, I: Shape, root: PageId, key: Key, p: PageId)
    requires Ordered(S, K, root) && Ordered(S, I, root) && Searched(S, K, key, p)
    ensures Searched(S, I, key, p)
  {
    SameSearch(S, K, I, root, p);
  }

  lemma GoneSearch(I: Shape)
    requires Ordered(LeafRemove(PutBack(), 12, 0), I, 1)
    ensures Searched(LeafRemove(PutBack(), 12, 0), I, 120, 12) && LeafRemove(PutBack(), 12, 0)[12].Size() < 4
  {
    hide Ordered;
    PutBackOrdered();
    LeafRemoveOrdered(PutBack(), LooseShape(), 1, 12, 0);
    FoundIn(LeafRemove(PutBack(), 12, 0), LooseShape(), I, 1, 120, 12);
  }

  /** The key 120 is removed and put back. The tree has it, but no longer in key-zero order. */
  method GapOpened() returns (tree: BPlusTree, before: Option<RowId>, after: Option<RowId>)
    ensures fresh(tree) && tree.Valid() && !tree.KeyZeroOk()
    ensures before == None && after == Some(120)
    ensures tree.pages == PutBack() && tree.rootPageId == 1 && tree.caps == Caps(4, 4)
  {
    hide TallStore, TallShape, TallKeys, PutBack, AfterDelete, StoredIn, Ordered, SizedBut, Holds, LeafRemove;
    hide RemovalOpensGap, NoGapOnPath, Tight;
    TallTree();
    TallHolds();
    TallGap();
    var caps := Caps(4, 4);
    tree := new BPlusTree.Open(caps, 1, TallStore(), TallShape(), TallKeys());
    assert ZeroTree(tree.pages, tree.shape, 1, caps);
    NeverGapIff(tree.pages, tree.shape, tree.shape, 1);
    tree.Remove(120);
    TakenOut();
    before := tree.GetValue(120);
    GoneSearch(tree.shape);
    var inserted := tree.Insert(120, 120);
    PutIn(tree.pages);
    after := tree.GetValue(120);
  }

  // ----- and a removal that is misled by it

  lemma SetKeySame(S: Store, q: PageId, i: nat)
    requires q in S && S[q].Internal? && i < |S[q].slots|
    ensures SetKey(S, q, i, S[q].slots[i].key) == S
  {
    assert S[q].slots[i := S[q].slots[i]] == S[q].slots;
  }

  /** A removal that leaves the first key of a leaf alone changes nothing but the leaf, when the keys above it are
      right. */
  lemma QuietDelete(S: Store, p: PageId, key: Key, i: nat)
    requires p in S && S[p].Leaf? && SortedEntries(S[p].entries) && i > 0 && KeyAt(S[p].entries, key, i)
    requires InParent(S, p)
    requires var k, slots := S[p].FirstKey(), S[S[p].parent].slots;
      && (forall j | 0 <= j < |slots| && slots[j].child == p :: slots[j].key == k)
      && (slots[0].child == p ==> FollowedAbove(S, S[p].parent, k))
    ensures AfterDelete(S, p, key) == LeafRemove(S, p, i)
  {
    WithoutAt(S[p].entries, key, i);
    var S0 := WithoutKey(S, p, key);
    var r, k := S0[p].parent, S0[p].FirstKey();
    assert r != p && InParent(S0, p);
    var j := PlaceOf(S0[r].slots, p);
    assert S0[r] == S[r] && S0[r].slots[j].key == k;
    SetKeySame(S0, r, j);
    if j == 0 && InParent(S0, r) {
      var g := S0[r].parent;
      assert g != p && S0[g] == S[g] && InParent(S, r);
      SetKeySame(S0, g, PlaceOf(S0[g].slots, r));
    }
  }

  ghost predicate FollowedAbove(S: Store, r: PageId, k: Key) {
    InParent(S, r) ==>
      var slots := S[S[r].parent].slots; forall j | 0 <= j < |slots| && slots[j].child == r :: slots[j].key == k
  }

  /** The pages once 142 and 152 have gone as well. */
  function Thinned(): Store {
    LeafRemove(LeafRemove(PutBack(), 14, 2), 15, 2)
  }

  lemma PutBackPages()
    ensures var S := PutBack();
      && {3, 7, 14, 15} <= S.Keys && S[3].Internal? && |S[3].slots| == 2 && S[3].slots[1] == Slot(140, 7)
      && S[3].slots[0].child == 6 && S[7] == Internal(3, [Slot(140, 14), Slot(150, 15)])
      && S[14].Leaf? && S[14].parent == 7 && S[14].entries == [Entry(140, 140), Entry(141, 141), Entry(142, 142)]
      && S[15].Leaf? && S[15].parent == 7 && S[15].entries == [Entry(150, 150), Entry(151, 151), Entry(152, 152)]
  {
  }

  lemma LooseLeaves()
    ensures 14 in LooseShape() && Covers(LooseShape()[14], 142)
    ensures 15 in LooseShape() && Covers(LooseShape()[15], 151) && Covers(LooseShape()[15], 152)
  {
  }

  lemma FirstThinned()
    ensures 14 in PutBack() && PutBack()[14].Leaf? && |PutBack()[14].entries| == 3
    ensures AfterDelete(PutBack(), 14, 142) == LeafRemove(PutBack(), 14, 2)
    ensures Ordered(LeafRemove(PutBack(), 14, 2), LooseShape(), 1)
    ensures Searched(PutBack(), LooseShape(), 142, 14) && PutBack()[14].Size() == 3
  {
    hide PutBack, LooseShape, AfterDelete, Ordered;
    PutBackPages();
    LooseLeaves();
    assert PutBack()[7].slots[0].child == 14 && PutBack()[3].slots[1].child == 7;
    QuietDelete(PutBack(), 14, 142, 2);
    PutBackOrdered();
    LeafRemoveOrdered(PutBack(), LooseShape(), 1, 14, 2);
  }

  lemma SecondThinned()
    requires 14 in PutBack() && PutBack()[14].Leaf? && |PutBack()[14].entries| == 3
    requires Ordered(LeafRemove(PutBack(), 14, 2), LooseShape(), 1)
    ensures var S := LeafRemove(PutBack(), 14, 2);
      && 15 in S && S[15].Leaf? && AfterDelete(S, 15, 152) == Thinned() && Ordered(Thinned(), LooseShape(), 1)
      && Searched(S, LooseShape(), 152, 15) && S[15].Size() == 3
  {
    hide PutBack, LooseShape, AfterDelete, Ordered;
    PutBackPages();
    LooseLeaves();
    var S := LeafRemove(PutBack(), 14, 2);
    assert S[7].slots[1].child == 15;
    QuietDelete(S, 15, 152, 2);
    LeafRemoveOrdered(S, LooseShape(), 1, 15, 2);
  }

  /** What matters of the pages when 151 has left leaf 15. */
  ghost predicate AboutToMerge(S: Store) {
    && {1, 2, 3, 6, 7, 12, 14, 15} <= S.Keys
    && S[1] == Internal(-1, [Slot(80, 2), Slot(120, 3)]) && S[2].Internal? && |S[2].slots| == 2 && S[2].parent == 1
    && S[3] == Internal(1, [Slot(121, 6), Slot(140, 7)])
    && S[6] == Internal(3, [Slot(121, 12), Slot(130, 13)]) && S[7] == Internal(3, [Slot(140, 14), Slot(150, 15)])
    && S[12].Leaf? && |S[12].entries| == 3 && S[12].entries[0].key == 120
    && S[14].Leaf? && S[14].parent == 7 && |S[14].entries| == 2
    && S[15].Leaf? && S[15].parent == 7 && |S[15].entries| == 1
  }

  lemma ThinnedAboutToMerge()
    ensures 15 in Thinned() && Thinned()[15].Leaf? && |Thinned()[15].entries| == 2
    ensures AfterDelete(Thinned(), 15, 151) == LeafRemove(Thinned(), 15, 1)
    ensures AboutToMerge(LeafRemove(Thinned(), 15, 1))
    ensures Searched(Thinned(), LooseShape(), 151, 15) && Thinned()[15].Size() == 2
  {
    hide LooseShape, AfterDelete;
    LooseLeaves();
    var S := Thinned();
    assert S[7].slots[1].child == 15;
    QuietDelete(S, 15, 151, 1);
  }

  lemma ThinnedHolds(contents: map<Key, RowId>)
    requires Holds(Thinned(), contents)
    ensures 151 in contents
  {
    assert Thinned()[15].entries[1] == Entry(151, 151);
    assert Has(Thinned(), Entry(151, 151));
  }

  /** Pages `l` and `n` are the only children of `r`, which has no more than it must. */
  ghost predicate TwoKids(S: Store, r: PageId, l: PageId, n: PageId) {
    && r in S && l in S && n in S && r != l && r != n && l != n && S[l].Leaf? == S[n].Leaf?
    && S[r].Internal? && |S[r].slots| == 2 && S[r].slots[0].child == l && S[r].slots[1].child == n
    && S[l].parent == r && S[n].parent == r && S[l].Size() + S[n].Size() < 4
  }

  /** One of them lacks a pair: they are merged, and `r` is next. */
  lemma KidsMerge(S: Store, r: PageId, l: PageId, n: PageId, x: PageId, k: nat, h: nat)
    requires TwoKids(S, r, l, n) && x in {l, n} && x != 1 && h > 0
    ensures RepairSeparates(S, 1, Caps(4, 4), x, k, h) ==>
      ZeroSplits(S, l, n, k) && RepairSeparates(MergeOf(S, r, 0, l, n), 1, Caps(4, 4), r, k + 1, h - 1)
  {
    hide MergeOf, KeySplits;
    assert S[r].slots[if x == l then 0 else 1].child == x;
    var q := Pair(r, 0, l, n);
    assert PairOf(S, x) == q;
    if RepairSeparates(S, 1, Caps(4, 4), x, k, h) {
      assert MergeSeparates(S, 1, Caps(4, 4), q, k, h);
    }
  }

  ghost predicate LeavesMerged(S: Store) {
    && {1, 2, 3, 6, 7, 12} <= S.Keys
    && S[1] == Internal(-1, [Slot(80, 2), Slot(120, 3)]) && S[2].Internal? && |S[2].slots| == 2 && S[2].parent == 1
    && S[3] == Internal(1, [Slot(121, 6), Slot(140, 7)])
    && S[6] == Internal(3, [Slot(121, 12), Slot(130, 13)]) && S[7] == Internal(3, [Slot(140, 14)])
    && S[12].Leaf? && |S[12].entries| == 3 && S[12].entries[0].key == 120
  }

  ghost predicate PagesMerged(S: Store) {
    && {1, 2, 3, 6, 12} <= S.Keys
    && S[1] == Internal(-1, [Slot(80, 2), Slot(120, 3)]) && S[2].Internal? && |S[2].slots| == 2 && S[2].parent == 1
    && S[3] == Internal(1, [Slot(121, 6)])
    && S[6].Internal? && |S[6].slots| == 3 && S[6].slots[0] == Slot(121, 12)
    && S[12].Leaf? && |S[12].entries| == 3 && S[12].entries[0].key == 120
  }

  lemma LeavesMerge(S: Store)
    requires AboutToMerge(S)
    ensures TwoKids(S, 7, 14, 15) && LeavesMerged(MergeOf(S, 7, 0, 14, 15))
  {
  }

  lemma PagesMerge(S: Store)
    requires LeavesMerged(S)
    ensures TwoKids(S, 3, 6, 7) && PagesMerged(MergeOf(S, 3, 0, 6, 7))
  {
    assert S[7].slots[0].child == 14;
  }

  lemma LastMergeMisleads(S: Store)
    requires PagesMerged(S)
    ensures TwoKids(S, 1, 2, 3) && !ZeroSplits(S, 2, 3, 2)
  {
    assert !Above(S[12], 121);
    assert !StartsAbove(S, 12, 121, 0);
    assert !StartsAbove(S, 6, 121, 1);
  }

  /** Leaves 14 and 15 are merged, then pages 6 and 7, and then pages 2 and 3 through the key 121, although 120 is below
      page 3. */
  lemma MergesMislead(S: Store)
    requires AboutToMerge(S)
    ensures !RepairSeparates(S, 1, Caps(4, 4), 15, 0, 3)
  {
    hide *;
    LeavesMerge(S);
    KidsMerge(S, 7, 14, 15, 15, 0, 3);
    var S1 := MergeOf(S, 7, 0, 14, 15);
    PagesMerge(S1);
    KidsMerge(S1, 3, 6, 7, 7, 1, 2);
    var S2 := MergeOf(S1, 3, 0, 6, 7);
    LastMergeMisleads(S2);
    KidsMerge(S2, 1, 2, 3, 3, 2, 1);
  }

  /** A key goes from a leaf that has more entries than it must. */
  method RemoveQuietly(tree: BPlusTree, key: Key, p: PageId)
    requires tree.Valid() && tree.caps == Caps(4, 4) && tree.rootPageId == 1
    requires Ordered(tree.pages, LooseShape(), 1) && Searched(tree.pages, LooseShape(), key, p)
    requires p != 1 && tree.pages[p].Size() == 3 && Ordered(AfterDelete(tree.pages, p, key), LooseShape(), 1)
    modifies tree
    ensures tree.Valid() && tree.rootPageId == 1 && tree.pages == AfterDelete(old(tree.pages), p, key)
  {
    hide Ordered, AfterDelete, LooseShape, SizedBut, Holds, NoGapOnPath, RemovalOpensGap, RepairSeparates;
    RootFacts(tree.pages, LooseShape(), 1);
    FoundIn(tree.pages, LooseShape(), tree.shape, 1, key, p);
    tree.Remove(key);
  }

  lemma ThinnedMisleads(I: Shape)
    requires Ordered(Thinned(), LooseShape(), 1) && Ordered(Thinned(), I, 1)
    ensures Searched(Thinned(), I, 151, 15) && 1 in I && I[1].level == 3 && Thinned()[15].Size() == 2
    ensures !RepairSeparates(AfterDelete(Thinned(), 15, 151), 1, Caps(4, 4), 15, 0, 3)
  {
    hide Ordered, LeafRemove, AfterDelete, Thinned, RepairSeparates, AboutToMerge;
    RootFacts(Thinned(), I, 1);
    ThinnedAboutToMerge();
    FoundIn(Thinned(), LooseShape(), I, 1, 151, 15);
    SameSearch(Thinned(), LooseShape(), I, 1, 1);
    MergesMislead(LeafRemove(Thinned(), 15, 1));
  }

  /** A run of the tree that ends in no tree: 120 is put back below the key that was copied above it, 142 and 152 make
      room, and 151 sets off the merges. */
  method MergeMisled() returns (tree: BPlusTree)
    ensures fresh(tree) && !tree.InOrder() && tree.WellLinked() && Holds(tree.pages, tree.contents)
  {
    hide TallStore, TallShape, PutBack, Thinned, LooseShape, LeafRemove, Ordered, AfterDelete, SizedBut, Holds, Without;
    hide RepairSeparates, AboutToMerge, NoGapOnPath, RemovalOpensGap, Has, HasZeroOrder;
    var before, after;
    tree, before, after := GapOpened();
    PutBackOrdered();
    FirstThinned();
    SecondThinned();
    RemoveQuietly(tree, 142, 14);
    RemoveQuietly(tree, 152, 15);
    ThinnedMisleads(tree.shape);
    ThinnedHolds(tree.contents);
    tree.Remove(151);
  }
}
