/**
 Merging two internal pages appends the slots of the right page to those of the left one as they are, and moving the
 last child of the left page puts it before them. Either way the key at position 0 of the right page becomes a
 separator. When this keeps the search order.
 */
module BPlusTreeMerges {
  import opened Basics
  import opened BPlusTreeNodes
  import opened BPlusTreeInvariant
  import opened BPlusTreeSeparators
  import opened BPlusTreeRemove
  import opened BPlusTreeGaps

  // ----- what a separator has to separate

  /** On the way down the first children of page `d`, for `h` levels, nothing that a search compares with is below
      `b`. */
  ghost predicate StartsAbove(S: Store, d: PageId, b: Key, h: nat)
    decreases h
  {
    && d in S && Above(S[d], b)
    && (S[d].Internal? && |S[d].slots| > 0 && h > 0 ==> StartsAbove(S, S[d].slots[0].child, b, h - 1))
  }

  /** And on the way down its last children everything is. */
  ghost predicate EndsBelow(S: Store, d: PageId, b: Key, h: nat)
    decreases h
  {
    && d in S && Below(S[d], b)
    && (S[d].Internal? && |S[d].slots| > 0 && h > 0 ==> EndsBelow(S, S[d].slots[|S[d].slots| - 1].child, b, h - 1))
  }

  /** `b` separates what lies below page `l` from what lies below page `n`, `h` levels deep. */
  ghost predicate KeySplits(S: Store, l: PageId, n: PageId, b: Key, h: nat) {
    EndsBelow(S, l, b, h) && StartsAbove(S, n, b, h)
  }

  ghost predicate SplitsAt(S: Store, p: PageId, j: nat, h: nat)
    requires p in S && S[p].Internal? && 1 <= j < |S[p].slots| && h > 0
  {
    KeySplits(S, S[p].slots[j - 1].child, S[p].slots[j].child, S[p].slots[j].key, h - 1)
  }

  /** The separators of page `p`, which has level `h`, ascend and separate what lies below its children. */
  ghost predicate InPlace(S: Store, p: PageId, h: nat)
    requires p in S && S[p].Internal?
  {
    SortedSlots(S[p].slots) && (h > 0 ==> forall j | 1 <= j < |S[p].slots| :: SplitsAt(S, p, j, h))
  }

  lemma {:induction false} SpineStarts(S: Store, I: Shape, root: PageId, d: PageId)
    requires Ordered(S, I, root) && d in S && I[d].off
    ensures StartsAbove(S, d, I[d].rlo, I[d].level)
    decreases I[d].level
  {
    assert PageOk(S, I, d);
    if S[d].Leaf? {
      assert forall k | 0 <= k < |S[d].entries| :: Admits(I[d], S[d].entries[k].key);
    } else {
      assert ChildOk(S, I, d, 0);
      SpineStarts(S, I, root, S[d].slots[0].child);
    }
  }

  lemma {:induction false} SpineEnds(S: Store, I: Shape, root: PageId, d: PageId)
    requires Ordered(S, I, root) && d in S && !I[d].top
    ensures EndsBelow(S, d, I[d].hi, I[d].level)
    decreases I[d].level
  {
    assert PageOk(S, I, d);
    if S[d].Leaf? {
      assert forall k | 0 <= k < |S[d].entries| :: Admits(I[d], S[d].entries[k].key);
    } else {
      assert forall j | 1 <= j < |S[d].slots| :: Admits(I[d], S[d].slots[j].key);
      assert ChildOk(S, I, d, |S[d].slots| - 1);
      SpineEnds(S, I, root, S[d].slots[|S[d].slots| - 1].child);
    }
  }

  /** In search order all separators are in their place. */
  lemma OrderedInPlace(S: Store, I: Shape, root: PageId, p: PageId)
    requires Ordered(S, I, root) && p in S && S[p].Internal?
    ensures InPlace(S, p, I[p].level)
  {
    assert PageOk(S, I, p);
    forall j | 1 <= j < |S[p].slots| ensures SplitsAt(S, p, j, I[p].level) {
      assert ChildOk(S, I, p, j - 1) && ChildOk(S, I, p, j);
      SpineEnds(S, I, root, S[p].slots[j - 1].child);
      SpineStarts(S, I, root, S[p].slots[j].child);
    }
  }

  // ----- it depends on lower levels only

  ghost predicate LayersTo(S: Store, J: Shape, p: PageId, c: PageId)
    requires p in J
  {
    c in S && c in J && J[c].level + 1 == J[p].level
  }

  ghost predicate LayersOk(S: Store, J: Shape, p: PageId)
    requires p in S
  {
    && p in J
    && if S[p].Leaf? then J[p].level == 0
       else
         && |S[p].slots| > 0
         && forall j | 0 <= j < |S[p].slots| :: LayersTo(S, J, p, S[p].slots[j].child)
  }

  /** Leaves have level 0, and other pages are one level above their children. */
  ghost predicate Layered(S: Store, J: Shape) {
    forall p | p in S :: LayersOk(S, J, p)
  }

  lemma OrderedLayers(S: Store, I: Shape, root: PageId)
    requires Ordered(S, I, root)
    ensures Layered(S, I)
  {
    forall p | p in S ensures LayersOk(S, I, p) {
      assert PageOk(S, I, p);
      if S[p].Internal? {
        forall j | 0 <= j < |S[p].slots| ensures LayersTo(S, I, p, S[p].slots[j].child) {
          assert ChildOk(S, I, p, j);
        }
      }
    }
  }

  /** Below level `k` nothing changed but parents. */
  ghost predicate KeptBelow(S: Store, J: Shape, k: nat, S': Store) {
    forall x | x in S && x in J && J[x].level < k :: x in S' && S'[x] == S[x].(parent := S'[x].parent)
  }

  lemma {:induction false} StartsKept(S: Store, J: Shape, k: nat, S': Store, d: PageId, b: Key, h: nat)
    requires Layered(S, J) && KeptBelow(S, J, k, S') && d in S && d in J && J[d].level < k
    ensures StartsAbove(S, d, b, h) <==> StartsAbove(S', d, b, h)
    decreases h
  {
    assert LayersOk(S, J, d);
    if S[d].Internal? && h > 0 {
      StartsKept(S, J, k, S', S[d].slots[0].child, b, h - 1);
    }
  }

  lemma {:induction false} EndsKept(S: Store, J: Shape, k: nat, S': Store, d: PageId, b: Key, h: nat)
    requires Layered(S, J) && KeptBelow(S, J, k, S') && d in S && d in J && J[d].level < k
    ensures EndsBelow(S, d, b, h) <==> EndsBelow(S', d, b, h)
    decreases h
  {
    assert LayersOk(S, J, d);
    if S[d].Internal? && h > 0 {
      EndsKept(S, J, k, S', S[d].slots[|S[d].slots| - 1].child, b, h - 1);
    }
  }

  lemma InPlaceKept(S: Store, J: Shape, k: nat, S': Store, p: PageId, h: nat)
    requires Layered(S, J) && KeptBelow(S, J, k, S') && p in S && p in J && J[p].level < k && S[p].Internal?
    ensures p in S' && S'[p].Internal? && (InPlace(S, p, h) <==> InPlace(S', p, h))
  {
    assert LayersOk(S, J, p);
    if h > 0 {
      forall j | 1 <= j < |S[p].slots| ensures SplitsAt(S, p, j, h) <==> SplitsAt(S', p, j, h) {
        EndsKept(S, J, k, S', S[p].slots[j - 1].child, S[p].slots[j].key, h - 1);
        StartsKept(S, J, k, S', S[p].slots[j].child, S[p].slots[j].key, h - 1);
      }
    }
  }

  /** The levels follow from the pages. */
  lemma {:induction false} SameLayers(S: Store, J: Shape, k: nat, S': Store, J': Shape, x: PageId)
    requires Layered(S, J) && Layered(S', J') && KeptBelow(S, J, k, S') && x in S && x in J && J[x].level < k
    ensures x in S' && x in J' && J'[x].level == J[x].level
    decreases J[x].level
  {
    assert LayersOk(S, J, x) && LayersOk(S', J', x);
    if S[x].Internal? {
      SameLayers(S, J, k, S', J', S[x].slots[0].child);
    }
  }

  // ----- the key at position 0 of the right page has to separate

  ghost predicate NoEmptyLeaf(S: Store) {
    forall x | x in S && S[x].Leaf? :: |S[x].entries| > 0
  }

  lemma {:induction false} SpineLeaf(S: Store, I: Shape, root: PageId, x: PageId) returns (y: PageId)
    requires Ordered(S, I, root) && x in S && I[x].off
    ensures OnSpine(S, I, x, y) && S[y].Leaf?
    ensures !I[x].top ==> !I[y].top && I[y].hi <= I[x].hi
    decreases I[x].level
  {
    assert PageOk(S, I, x);
    if S[x].Leaf? {
      y := x;
    } else {
      assert ChildOk(S, I, x, 0);
      y := SpineLeaf(S, I, root, S[x].slots[0].child);
    }
  }

  lemma {:induction false} RightSpineLeaf(S: Store, I: Shape, root: PageId, x: PageId) returns (y: PageId)
    requires Ordered(S, I, root) && x in S && !I[x].top
    ensures OnRightSpine(S, I, x, y) && S[y].Leaf?
    ensures I[x].off ==> I[y].off && I[x].rlo <= I[y].rlo
    decreases I[x].level
  {
    assert PageOk(S, I, x);
    if S[x].Leaf? {
      y := x;
    } else {
      var j := |S[x].slots| - 1;
      assert ChildOk(S, I, x, j);
      y := RightSpineLeaf(S, I, root, S[x].slots[j].child);
    }
  }

  /** The pages that start where `n` does are the ones on the way down its first children. */
  lemma {:induction false} SpineAbove(S: Store, I: Shape, root: PageId, n: PageId, b: Key, x: PageId)
    requires Ordered(S, I, root) && n in S && I[n].off && StartsAbove(S, n, b, I[n].level) && OnSpine(S, I, n, x)
    ensures StartsAbove(S, x, b, I[x].level)
    decreases I[n].level - I[x].level
  {
    var a := I[n].rlo;
    IntervalProper(S, I, root, n);
    IntervalProper(S, I, root, x);
    if I[x].level == I[n].level {
      UniqueAtLevel(S, I, root, x, n, a);
    } else {
      assert PageOk(S, I, n);
      var q, j := ChildOf(S, I, root, x);
      NotInside(S, I, root, n, q, a);
      SpineAbove(S, I, root, n, b, q);
    }
  }

  /** No page not above `l` goes on beyond the end of `l`. */
  lemma RightSpineUp(S: Store, I: Shape, root: PageId, r: PageId, i: nat, l: PageId, n: PageId, x: PageId)
    returns (q: PageId, j: nat)
    requires Siblings(S, I, root, r, i, l, n) && l in I && OnRightSpine(S, I, l, x) && I[x].level < I[l].level
    ensures q in S && S[q].Internal? && j + 1 == |S[q].slots| && S[q].slots[j].child == x
    ensures OnRightSpine(S, I, l, q) && I[q].level == I[x].level + 1
  {
    SiblingFacts(S, I, root, r, i, l, n);
    var a := I[l].hi;
    q, j := ChildOf(S, I, root, x);
    IntervalProper(S, I, root, n);
    if j + 1 < |S[q].slots| {
      assert Admits(I[q], S[q].slots[j + 1].key);
      NotInside(S, I, root, n, q, a);
      assert false;
    }
  }

  lemma {:induction false} SpineBelow(S: Store, I: Shape, root: PageId, r: PageId, i: nat, l: PageId, n: PageId, b: Key,
        x: PageId)
    requires Siblings(S, I, root, r, i, l, n) && l in I && EndsBelow(S, l, b, I[l].level) && OnRightSpine(S, I, l, x)
    ensures EndsBelow(S, x, b, I[x].level)
    decreases I[l].level - I[x].level
  {
    SiblingFacts(S, I, root, r, i, l, n);
    if I[x].level == I[l].level {
      IntervalProper(S, I, root, x);
      UniqueAtLevel(S, I, root, x, l, I[l].hi - 1);
    } else {
      var q, j := RightSpineUp(S, I, root, r, i, l, n, x);
      SpineBelow(S, I, root, r, i, l, n, b, q);
    }
  }

  /** Such a key can be the separator, and with the key-zero order it always is one. */
  lemma SplitsSeparate(S: Store, I: Shape, root: PageId, r: PageId, i: nat, l: PageId, n: PageId)
    requires Siblings(S, I, root, r, i, l, n) && NoEmptyLeaf(S) && n in S && S[n].Internal? && |S[n].slots| > 0
    requires l in I && (I[root].zero || KeySplits(S, l, n, S[n].slots[0].key, I[l].level))
    ensures ZeroSeparates(S, I, root, r, i, n)
  {
    if I[root].zero {
      KeyZeroSeparates(S, I, root, r, i, l, n);
    } else {
      SiblingFacts(S, I, root, r, i, l, n);
      OneOrder(S, I, root, n);
      var b := S[n].slots[0].key;
      forall x | OnSpine(S, I, n, x) ensures Above(S[x], b) {
        SpineAbove(S, I, root, n, b, x);
      }
      forall x | OnRightSpine(S, I, l, x) ensures Below(S[x], b) {
        SpineBelow(S, I, root, r, i, l, n, b, x);
      }
      var y := SpineLeaf(S, I, root, n);
      var z := RightSpineLeaf(S, I, root, l);
      assert PageOk(S, I, y) && PageOk(S, I, z);
      assert Admits(I[y], S[y].entries[0].key) && Admits(I[z], S[z].entries[0].key);
      assert ClearBelow(S, I, l, b);
    }
  }

  // ----- merging

  lemma MergeKeepsBelow(S: Store, I: Shape, root: PageId, r: PageId, i: nat, l: PageId, n: PageId)
    requires Siblings(S, I, root, r, i, l, n) && l in S && n in S && l in I && S[l].Internal? && S[n].Internal?
    requires r != l && r != n && l != n
    ensures KeptBelow(S, I, I[l].level, InternalMerge(S, r, i, l, n))
    ensures var S' := InternalMerge(S, r, i, l, n); l in S' && S'[l] == S[l].(slots := S[l].slots + S[n].slots)
  {
    SiblingFacts(S, I, root, r, i, l, n);
    KidsApart(S, I, root, r, i, l, n);
    var all := S[l].slots + S[n].slots;
    forall k | 0 <= k < |S[n].slots| ensures S[n].slots[k] == all[|S[l].slots| + k] {
    }
  }

  /** If the separators of the merged page are in their place, the key at position 0 separates. */
  lemma MergedInPlace(S: Store, I: Shape, root: PageId, r: PageId, i: nat, l: PageId, n: PageId)
    requires Siblings(S, I, root, r, i, l, n) && l in S && n in S && S[l].Internal? && S[n].Internal?
    requires r != l && r != n && l != n
    ensures l in I && |S[l].slots| > 0 && |S[n].slots| > 0
    ensures var S' := InternalMerge(S, r, i, l, n);
      && l in S' && S'[l].Internal?
      && (InPlace(S', l, I[l].level) ==> KeySplits(S, l, n, S[n].slots[0].key, I[l].level))
  {
    hide Ordered, InternalMerge, PageOk, LinkOk, KeptBelow;
    SiblingFacts(S, I, root, r, i, l, n);
    OrderedLayers(S, I, root);
    assert LayersOk(S, I, l) && LayersOk(S, I, n);
    MergeKeepsBelow(S, I, root, r, i, l, n);
    var S', k, b, m := InternalMerge(S, r, i, l, n), I[l].level, S[n].slots[0].key, |S[l].slots|;
    var all := S'[l].slots;
    if InPlace(S', l, k) {
      assert all[m] == S[n].slots[0] && all[m - 1] == S[l].slots[m - 1];
      assert forall j | 0 <= j < m :: S[l].slots[j] == all[j];
      assert forall j | 0 <= j < |S[n].slots| :: S[n].slots[j] == all[m + j];
      assert SplitsAt(S', l, m, k);
      EndsKept(S, I, k, S', all[m - 1].child, b, k - 1);
      StartsKept(S, I, k, S', all[m].child, b, k - 1);
    }
  }

  lemma MergedLevel(S: Store, I: Shape, root: PageId, r: PageId, i: nat, l: PageId, n: PageId, J: Shape)
    requires Siblings(S, I, root, r, i, l, n) && l in S && n in S && l in I && S[l].Internal? && S[n].Internal?
    requires r != l && r != n && l != n && Layered(InternalMerge(S, r, i, l, n), J)
    ensures l in J && J[l].level == I[l].level
  {
    var S' := InternalMerge(S, r, i, l, n);
    MergeKeepsBelow(S, I, root, r, i, l, n);
    OrderedLayers(S, I, root);
    assert LayersOk(S, I, l) && LayersOk(S', J, l);
    assert S'[l].slots[0] == S[l].slots[0];
    SameLayers(S, I, I[l].level, S', J, S[l].slots[0].child);
  }

  /** The merge leaves a store in search order, under whatever intervals, if and only if the key at position 0 of the
      right page separates what lies below the two pages. */
  lemma MergeInOrderIff(S: Store, I: Shape, root: PageId, r: PageId, i: nat, l: PageId, n: PageId)
    requires Siblings(S, I, root, r, i, l, n) && NoEmptyLeaf(S)
    requires l in S && n in S && l in I && S[l].Internal? && S[n].Internal? && |S[n].slots| > 0
    requires r != l && r != n && l != n
    ensures (exists J :: Ordered(InternalMerge(S, r, i, l, n), J, root))
        <==> KeySplits(S, l, n, S[n].slots[0].key, I[l].level)
  {
    var S' := InternalMerge(S, r, i, l, n);
    if KeySplits(S, l, n, S[n].slots[0].key, I[l].level) {
      SplitsSeparate(S, I, root, r, i, l, n);
      InternalMergeOrdered(S, I, root, r, i, l, n);
    }
    if exists J :: Ordered(S', J, root) {
      var J :| Ordered(S', J, root);
      MergedInPlace(S, I, root, r, i, l, n);
      OrderedLayers(S', J, root);
      MergedLevel(S, I, root, r, i, l, n, J);
      OrderedInPlace(S', J, root, l);
    }
  }

  /** So a key stored in a gap below `n` breaks the order when `n` is merged. */
  lemma UndercutBreaksMerge(S: Store, I: Shape, root: PageId, r: PageId, i: nat, l: PageId, n: PageId, p: PageId)
    requires Siblings(S, I, root, r, i, l, n) && NoEmptyLeaf(S) && Undercut(S, I, n, p)
    requires l in S && S[l].Internal? && r != l && r != n && l != n
    ensures !exists J :: Ordered(InternalMerge(S, r, i, l, n), J, root)
  {
    SiblingFacts(S, I, root, r, i, l, n);
    MergeInOrderIff(S, I, root, r, i, l, n);
    var b := S[n].slots[0].key;
    assert !Above(S[p], b);
    if StartsAbove(S, n, b, I[n].level) {
      SpineAbove(S, I, root, n, b, p);
    }
  }

  // ----- moving the last child to the front

  lemma LastMoves(S: Store, I: Shape, root: PageId, r: PageId, i: nat, l: PageId, n: PageId)
    requires Siblings(S, I, root, r, i, l, n) && l in S && n in S && S[l].Internal? && S[n].Internal?
    requires r != l && r != n && l != n && |S[l].slots| > 1
    ensures l in I && |S[n].slots| > 0
    ensures var last := S[l].slots[|S[l].slots| - 1];
      && last.child in S && last.child != r && last.child != l && last.child != n
      && var S' := InternalLastToFront(S, r, i, l, n);
      && KeptBelow(S, I, I[l].level, S') && r in S' && l in S' && n in S'
      && S'[l] == S[l].(slots := S[l].slots[..|S[l].slots| - 1])
      && S'[n] == S[n].(slots := [last] + S[n].slots)
      && S'[r] == S[r].(slots := S[r].slots[i + 1 := Slot(last.key, n)])
  {
    SiblingFacts(S, I, root, r, i, l, n);
    KidsApart(S, I, root, r, i, l, n);
    var m := |S[l].slots| - 1;
    assert (S[l].slots + S[n].slots)[m] == S[l].slots[m];
  }

  /** If the separators of the right page and its parent are then in their place, the key that was at position 0
      separates. */
  lemma MovedInPlace(S: Store, I: Shape, root: PageId, r: PageId, i: nat, l: PageId, n: PageId)
    requires Siblings(S, I, root, r, i, l, n) && l in S && n in S && S[l].Internal? && S[n].Internal?
    requires r != l && r != n && l != n && |S[l].slots| > 1
    ensures l in I && r in I && |S[n].slots| > 0
    ensures var c := S[l].slots[|S[l].slots| - 1].child; c in S && c != r && c != l && c != n
    ensures var S' := InternalLastToFront(S, r, i, l, n);
      && n in S' && S'[n].Internal? && r in S' && S'[r].Internal?
      && (InPlace(S', n, I[l].level) && InPlace(S', r, I[r].level)
          ==> KeySplits(S, l, n, S[n].slots[0].key, I[l].level))
  {
    hide Ordered, InternalLastToFront, ChildOk, ChainOk, LinkOk, KeptBelow, BoundsOk, ChildInfo, Admits;
    SiblingFacts(S, I, root, r, i, l, n);
    LastMoves(S, I, root, r, i, l, n);
    OrderedLayers(S, I, root);
    assert LayersOk(S, I, l) && LayersOk(S, I, n) && LayersOk(S, I, r);
    var S', k, b, m := InternalLastToFront(S, r, i, l, n), I[l].level, S[n].slots[0].key, |S[l].slots| - 1;
    var last := S[l].slots[m];
    if InPlace(S', n, k) && InPlace(S', r, I[r].level) {
      assert S'[n].slots[1] == S[n].slots[0];
      assert SplitsAt(S', r, i + 1, I[r].level);
      assert Above(S'[n], last.key);
      assert forall j | 0 <= j < |S[n].slots| :: S'[n].slots[j + 1] == S[n].slots[j];
      assert SplitsAt(S', n, 1, k);
      EndsKept(S, I, k, S', last.child, b, k - 1);
      StartsKept(S, I, k, S', S[n].slots[0].child, b, k - 1);
    }
  }

  lemma MovedLevel(S: Store, I: Shape, root: PageId, r: PageId, i: nat, l: PageId, n: PageId, J: Shape)
    requires Siblings(S, I, root, r, i, l, n) && l in S && n in S && S[l].Internal? && S[n].Internal?
    requires r != l && r != n && l != n && |S[l].slots| > 1
    requires var c := S[l].slots[|S[l].slots| - 1].child; c in S && c != r && c != l && c != n
    requires Layered(InternalLastToFront(S, r, i, l, n), J)
    ensures l in I && r in I && n in J && J[n].level == I[l].level && r in J && J[r].level == I[r].level
  {
    var S' := InternalLastToFront(S, r, i, l, n);
    SiblingFacts(S, I, root, r, i, l, n);
    LastMoves(S, I, root, r, i, l, n);
    OrderedLayers(S, I, root);
    assert LayersOk(S, I, n) && LayersOk(S', J, n) && LayersOk(S', J, r);
    assert S'[n].slots[1] == S[n].slots[0];
    SameLayers(S, I, I[l].level, S', J, S[n].slots[0].child);
    assert S'[r].slots[i + 1].child == n;
  }

  /** The same condition decides about moving the last child of the left page to the front of the right one. */
  lemma LastToFrontInOrderIff(S: Store, I: Shape, root: PageId, r: PageId, i: nat, l: PageId, n: PageId)
    requires Siblings(S, I, root, r, i, l, n) && NoEmptyLeaf(S)
    requires l in S && n in S && l in I && S[l].Internal? && S[n].Internal? && |S[n].slots| > 0
    requires r != l && r != n && l != n && |S[l].slots| > 1
    ensures var c := S[l].slots[|S[l].slots| - 1].child; c in S && c != r && c != l && c != n
    ensures (exists J :: Ordered(InternalLastToFront(S, r, i, l, n), J, root))
        <==> KeySplits(S, l, n, S[n].slots[0].key, I[l].level)
  {
    LastMoves(S, I, root, r, i, l, n);
    var S' := InternalLastToFront(S, r, i, l, n);
    if KeySplits(S, l, n, S[n].slots[0].key, I[l].level) {
      SplitsSeparate(S, I, root, r, i, l, n);
      LastToFrontOrdered(S, I, root, r, i, l, n);
    }
    if exists J :: Ordered(S', J, root) {
      var J :| Ordered(S', J, root);
      MovedInPlace(S, I, root, r, i, l, n);
      OrderedLayers(S', J, root);
      MovedLevel(S, I, root, r, i, l, n, J);
      OrderedInPlace(S', J, root, n);
      OrderedInPlace(S', J, root, r);
    }
  }
}
