/**
 The repair of pages that lack a pair, from the bottom of the tree to the top, whatever the keys at position 0 are.

 Sizes, links and leaves alone decide what a repair does, so it works out even when a key at position 0 that became a
 separator does not separate. To say so, the pages are compared with a tree that has the same pages but for the keys
 in internal pages (`Mirrors`). A separator out of its place stays out of its place, because repair only goes up.
 */
module BPlusTreeRepairs {
  import opened Basics
  import opened BPlusTreeNodes
  import opened BPlusTreeInvariant
  import opened BPlusTreeSeparators
  import opened BPlusTreeRemove
  import opened BPlusTreeGaps
  import opened BPlusTreeMerges

  // ----- the same pages with other separators

  ghost predicate SameKids(slots: seq<Slot>, slots': seq<Slot>) {
    |slots'| == |slots| && forall j | 0 <= j < |slots| :: slots'[j].child == slots[j].child
  }

  ghost predicate SamePage(page: Page, page': Page) {
    && page'.parent == page.parent
    && if page.Leaf? then page' == page else page'.Internal? && SameKids(page.slots, page'.slots)
  }

  /** The stores differ in keys of internal pages only. */
  ghost predicate Mirrors(S: Store, T: Store) {
    S.Keys == T.Keys && forall x | x in S :: SamePage(S[x], T[x])
  }

  lemma MirrorEntries(S: Store, T: Store)
    requires Mirrors(S, T)
    ensures forall e :: Has(S, e) <==> Has(T, e)
  {
    forall x | x in S ensures SamePage(S[x], T[x]) {
    }
    SameLeaves(S, T);
  }

  lemma MirrorLayers(S: Store, T: Store, J: Shape, root: PageId)
    requires Mirrors(S, T) && Ordered(T, J, root)
    ensures Layered(S, J)
  {
    OrderedLayers(T, J, root);
    forall p | p in S ensures LayersOk(S, J, p) {
      assert LayersOk(T, J, p) && SamePage(S[p], T[p]);
      if S[p].Internal? {
        forall j | 0 <= j < |S[p].slots| ensures LayersTo(S, J, p, S[p].slots[j].child) {
          assert LayersTo(T, J, p, T[p].slots[j].child);
        }
      }
    }
  }

  lemma MirrorSizes(S: Store, T: Store, root: PageId, c: Caps, x: PageId)
    requires Mirrors(S, T)
    ensures SizedBut(S, root, c, x) <==> SizedBut(T, root, c, x)
  {
    forall p | p in S ensures SizeOk(c, S[p], p == root) <==> SizeOk(c, T[p], p == root) {
      assert SamePage(S[p], T[p]);
    }
  }

  lemma MirrorHelped(S: Store, I: Shape, T: Store, J: Shape, root: PageId, c: Caps, x: PageId, r: PageId, i: nat,
        l: PageId, n: PageId)
    requires Mirrors(S, T) && Ordered(S, I, root) && HelpedOut(T, J, root, c, x, r, i, l, n)
    ensures HelpedOut(S, I, root, c, x, r, i, l, n)
  {
    hide Ordered, SizedBut;
    MirrorSizes(S, T, root, c, x);
    assert SamePage(S[x], T[x]) && SamePage(S[r], T[r]);
  }

  /** The tree with the same searches in which every key at position 0 is the lower bound of its page. */
  ghost function Tightened(S: Store, I: Shape): Store {
    map x | x in S ::
      if S[x].Internal? && |S[x].slots| > 0 && x in I && I[x].off
      then S[x].(slots := S[x].slots[0 := Slot(I[x].rlo, S[x].slots[0].child)])
      else S[x]
  }

  ghost function TightShape(I: Shape): Shape {
    map x | x in I :: I[x].(zero := true, dlo := if I[x].off then I[x].rlo else I[x].dlo)
  }

  lemma TightenedLink(S: Store, I: Shape, root: PageId, x: PageId)
    requires Ordered(S, I, root) && x in S
    ensures LinkOk(Tightened(S, I), root, x)
  {
    hide Ordered, PageOk;
    PageFacts(S, I, root, x);
    if x != root {
      var q := S[x].parent;
      var j :| 0 <= j < |S[q].slots| && S[q].slots[j].child == x;
      assert Tightened(S, I)[q].slots[j].child == x;
    }
  }

  lemma TightenedPage(S: Store, I: Shape, root: PageId, x: PageId)
    requires Ordered(S, I, root) && x in S
    ensures PageOk(Tightened(S, I), TightShape(I), x)
  {
    hide Ordered, LinkOk;
    PageFacts(S, I, root, x);
    var T, J := Tightened(S, I), TightShape(I);
    IntervalProper(S, I, root, x);
    if S[x].Leaf? {
      assert forall k | 0 <= k < |S[x].entries| :: Admits(I[x], S[x].entries[k].key);
    } else {
      assert forall j | 1 <= j < |S[x].slots| :: Admits(I[x], S[x].slots[j].key);
      forall j | 0 <= j < |S[x].slots| ensures ChildOk(T, J, x, j) {
        assert ChildOk(S, I, x, j);
      }
    }
  }

  lemma TightenedOrdered(S: Store, I: Shape, root: PageId)
    requires Ordered(S, I, root)
    ensures Ordered(Tightened(S, I), TightShape(I), root) && TightShape(I)[root].zero
    ensures Mirrors(S, Tightened(S, I)) && forall x | x in I :: TightShape(I)[x].level == I[x].level
  {
    var T, J := Tightened(S, I), TightShape(I);
    forall x | x in T ensures PageOk(T, J, x) && LinkOk(T, root, x) && J[x].level <= J[root].level {
      assert PageOk(S, I, x);
      TightenedLink(S, I, root, x);
      TightenedPage(S, I, root, x);
    }
  }

  // ----- a separator out of its place

  ghost predicate OutOfPlace(S: Store, J: Shape, p: PageId, k: nat) {
    p in S && p in J && S[p].Internal? && J[p].level < k && !InPlace(S, p, J[p].level)
  }

  /** Some page below level `k` has a separator that does not separate. */
  ghost predicate Broken(S: Store, J: Shape, k: nat) {
    exists p :: OutOfPlace(S, J, p, k)
  }

  /** Then the store is in no order. */
  lemma BrokenUnordered(S: Store, T: Store, J: Shape, root: PageId, k: nat, I: Shape, root': PageId)
    requires Mirrors(S, T) && Ordered(T, J, root) && Broken(S, J, k)
    ensures !Ordered(S, I, root')
  {
    if Ordered(S, I, root') {
      var p :| OutOfPlace(S, J, p, k);
      MirrorLayers(S, T, J, root);
      OrderedLayers(S, I, root');
      SameLayers(S, J, k, S, I, p);
      OrderedInPlace(S, I, root', p);
    }
  }

  /** And so is what comes of it when no page below level `k` changes but in its parent. */
  lemma BrokenKept(S: Store, T: Store, J: Shape, root: PageId, k: nat, S': Store, T': Store, J': Shape, root': PageId,
        k': nat)
    requires Mirrors(S, T) && Ordered(T, J, root) && Mirrors(S', T') && Ordered(T', J', root')
    requires Broken(S, J, k) && KeptBelow(S, J, k, S') && root' in J' && (k <= k' || J'[root'].level < k')
    ensures Broken(S', J', k')
  {
    var p :| OutOfPlace(S, J, p, k);
    MirrorLayers(S, T, J, root);
    MirrorLayers(S', T', J', root');
    SameLayers(S, J, k, S', J', p);
    InPlaceKept(S, J, k, S', p, J[p].level);
    assert PageOk(T', J', p);
    assert OutOfPlace(S', J', p, k');
  }

  /** The pages of `S` are those of the tree `T` but for separators, and they are in order, or a separator is out of its
      place below level `k`. */
  ghost predicate Stands(S: Store, I: Shape, T: Store, J: Shape, root: PageId, k: nat) {
    && Mirrors(S, T) && ZeroOrdered(T, J, root)
    && (Ordered(S, I, root) || Broken(S, J, k))
  }

  // ----- a merge

  function MergeOf(S: Store, r: PageId, i: nat, l: PageId, n: PageId): Store
    requires l in S && n in S && r in S && S[l].Leaf? == S[n].Leaf? && S[r].Internal? && i + 1 < |S[r].slots|
    requires r != l && r != n && l != n
  {
    if S[l].Leaf? then LeafMerge(S, r, i, l, n) else InternalMerge(S, r, i, l, n)
  }

  lemma SiblingMirrors(S: Store, T: Store, J: Shape, root: PageId, r: PageId, i: nat, l: PageId, n: PageId)
    requires Mirrors(S, T) && Siblings(T, J, root, r, i, l, n)
    ensures l in S && n in S && r in S && S[l].Leaf? == S[n].Leaf? && S[r].Internal? && i + 1 < |S[r].slots|
    ensures l in T && n in T && r in T && T[l].Leaf? == T[n].Leaf? && l != n && r != l && r != n
    ensures SamePage(S[l], T[l]) && SamePage(S[n], T[n]) && SamePage(S[r], T[r]) && T[r].Internal?
  {
    SiblingFacts(T, J, root, r, i, l, n);
    assert SamePage(S[l], T[l]) && SamePage(S[n], T[n]) && SamePage(S[r], T[r]);
  }

  lemma MergedPages(S: Store, r: PageId, i: nat, l: PageId, n: PageId)
    requires l in S && n in S && r in S && S[l].Internal? && S[n].Internal? && S[r].Internal? && i + 1 < |S[r].slots|
    requires r != l && r != n && l != n
    requires forall k | 0 <= k < |S[n].slots| :: S[n].slots[k].child !in {r, l, n}
    ensures var S' := InternalMerge(S, r, i, l, n);
      && S'.Keys == S.Keys - {n}
      && S'[r] == S[r].(slots := RemoveAt(S[r].slots, i + 1))
      && S'[l] == S[l].(slots := S[l].slots + S[n].slots)
      && forall x | x in S && x !in {r, l, n} ::
           S'[x] == if HasChild(S[n].slots, x) then S[x].(parent := l) else S[x]
  {
  }

  lemma InternalMergeMirrors(S: Store, T: Store, J: Shape, root: PageId, r: PageId, i: nat, l: PageId, n: PageId)
    requires Mirrors(S, T) && Siblings(T, J, root, r, i, l, n) && l in T && n in T && T[l].Internal?
    requires l in S && n in S && r in S && S[l].Internal? && S[n].Internal? && S[r].Internal? && i + 1 < |S[r].slots|
    requires l in T && n in T && r in T && T[n].Internal? && l != n && r != l && r != n
    ensures Mirrors(InternalMerge(S, r, i, l, n), InternalMerge(T, r, i, l, n))
  {
    hide Ordered, InternalMerge;
    SiblingMirrors(S, T, J, root, r, i, l, n);
    KidsApart(T, J, root, r, i, l, n);
    forall k | 0 <= k < |T[n].slots| ensures T[n].slots[k].child !in {r, l, n} {
      assert (T[l].slots + T[n].slots)[|T[l].slots| + k] == T[n].slots[k];
    }
    MergedPages(S, r, i, l, n);
    MergedPages(T, r, i, l, n);
    var S', T' := InternalMerge(S, r, i, l, n), InternalMerge(T, r, i, l, n);
    forall x | x in S' ensures SamePage(S'[x], T'[x]) {
      assert SamePage(S[x], T[x]);
      assert HasChild(S[n].slots, x) <==> HasChild(T[n].slots, x);
    }
  }

  lemma MergeMirrors(S: Store, T: Store, J: Shape, root: PageId, r: PageId, i: nat, l: PageId, n: PageId)
    requires Mirrors(S, T) && Siblings(T, J, root, r, i, l, n)
    ensures l in S && n in S && r in S && S[l].Leaf? == S[n].Leaf? && S[r].Internal? && i + 1 < |S[r].slots|
    ensures l in T && n in T && r in T && T[l].Leaf? == T[n].Leaf? && l != n && r != l && r != n
    ensures Mirrors(MergeOf(S, r, i, l, n), MergeOf(T, r, i, l, n))
  {
    hide Ordered, InternalMerge;
    SiblingMirrors(S, T, J, root, r, i, l, n);
    if S[l].Internal? {
      InternalMergeMirrors(S, T, J, root, r, i, l, n);
    } else {
      var S', T' := LeafMerge(S, r, i, l, n), LeafMerge(T, r, i, l, n);
      forall x | x in S' ensures SamePage(S'[x], T'[x]) {
        assert SamePage(S[x], T[x]);
      }
    }
  }

  /** The key at position 0 of the right page, which becomes a separator, separates. */
  ghost predicate ZeroSplits(S: Store, l: PageId, n: PageId, k: nat) {
    n in S && (S[n].Internal? ==> |S[n].slots| > 0 && KeySplits(S, l, n, S[n].slots[0].key, k))
  }

  lemma LeavesFilled(S: Store, I: Shape, root: PageId, c: Caps, x: PageId)
    requires Underfull(S, I, root, c, x) && x != root && c.leafMax >= 4
    ensures NoEmptyLeaf(S)
  {
    forall y | y in S && S[y].Leaf? ensures |S[y].entries| > 0 {
      assert y != x ==> SizeOk(c, S[y], y == root);
    }
  }

  /** A tree, but for page `r` if that lacks a pair. */
  ghost predicate Shrunk(S: Store, I: Shape, root: PageId, c: Caps, r: PageId) {
    r in S && if S[r].Size() < MinSize(c, S[r]) then Underfull(S, I, root, c, r) else Tree(S, I, root, c)
  }

  /** Merging the pages of a tree with the key-zero order. */
  lemma ZeroMergeTree(T: Store, J: Shape, root: PageId, c: Caps, x: PageId, r: PageId, i: nat, l: PageId, n: PageId)
    returns (J': Shape)
    requires HelpedOut(T, J, root, c, x, r, i, l, n) && root in J && J[root].zero
    requires l in T && n in T && x in T && T[l].Size() + T[n].Size() < MaxSize(c, T[x])
    ensures r in T && T[l].Leaf? == T[n].Leaf? && T[r].Internal? && r != l && r != n && l != n
    ensures var T' := MergeOf(T, r, i, l, n);
      (forall e :: Has(T, e) <==> Has(T', e)) && Shrunk(T', J', root, c, r)
    ensures root in J' && r in J && r in J' && J'[r] == J[r] && J'[root] == J[root]
  {
    hide Ordered, SizedBut;
    RootFacts(T, J, root);
    HelperSizes(T, J, root, c, x, r, i, l, n);
    if T[l].Leaf? {
      J' := LeafMergeTree(T, J, root, c, x, r, i, l, n);
    } else {
      KeyZeroSeparates(T, J, root, r, i, l, n);
      J' := InternalMergeTree(T, J, root, c, x, r, i, l, n);
    }
  }

  /** Merging pages in order keeps them in order exactly when the key that becomes a separator separates. */
  lemma MergeOrdered(S: Store, I: Shape, root: PageId, c: Caps, x: PageId, r: PageId, i: nat, l: PageId, n: PageId)
    returns (I': Shape)
    requires HelpedOut(S, I, root, c, x, r, i, l, n) && l in I
    requires l in S && n in S && x in S && S[l].Size() + S[n].Size() < MaxSize(c, S[x])
    ensures r in S && S[l].Leaf? == S[n].Leaf? && S[r].Internal? && r != l && r != n && l != n
    ensures var S' := MergeOf(S, r, i, l, n);
      && l in S'
      && (I[root].zero || ZeroSplits(S, l, n, I[l].level) ==> Ordered(S', I', root) && OrderKept(I, root, I', root))
      && (!ZeroSplits(S, l, n, I[l].level) ==> S'[l].Internal? && !InPlace(S', l, I[l].level))
  {
    hide Ordered, SizedBut, InPlace, KeySplits;
    RootFacts(S, I, root);
    HelperSizes(S, I, root, c, x, r, i, l, n);
    LeavesFilled(S, I, root, c, x);
    I' := I;
    if S[l].Leaf? {
      I' := LeafMergeTree(S, I, root, c, x, r, i, l, n);
    } else {
      MergedInPlace(S, I, root, r, i, l, n);
      if I[root].zero || ZeroSplits(S, l, n, I[l].level) {
        SplitsSeparate(S, I, root, r, i, l, n);
        I' := InternalMergeTree(S, I, root, c, x, r, i, l, n);
      }
    }
  }

  lemma MergeKeeps(S: Store, J: Shape, r: PageId, i: nat, l: PageId, n: PageId)
    requires l in S && n in S && r in S && S[l].Leaf? == S[n].Leaf? && S[r].Internal? && i + 1 < |S[r].slots|
    requires r != l && r != n && l != n && l in J && n in J && r in J
    requires J[n].level == J[l].level < J[r].level && (S[l].Leaf? ==> J[l].level == 0)
    ensures KeptBelow(S, J, J[l].level, MergeOf(S, r, i, l, n))
  {
  }

  lemma MirrorLevel(S: Store, I: Shape, T: Store, J: Shape, root: PageId, x: PageId)
    requires Mirrors(S, T) && Ordered(S, I, root) && Ordered(T, J, root) && x in S
    ensures x in I && x in J && I[x].level == J[x].level
  {
    OrderedLayers(S, I, root);
    MirrorLayers(S, T, J, root);
    SameLayers(S, I, I[x].level + 1, S, J, x);
  }

  lemma HelpedFacts(T: Store, J: Shape, root: PageId, c: Caps, x: PageId, r: PageId, i: nat, l: PageId, n: PageId)
    requires HelpedOut(T, J, root, c, x, r, i, l, n)
    ensures Ordered(T, J, root) && Siblings(T, J, root, r, i, l, n) && root in J && c.leafMax >= 4 && c.internalMax >= 4
    ensures l in T && n in T && r in T && T[l].Leaf? == T[n].Leaf? && x in {l, n} && l != n && r != l && r != n
    ensures l in J && n in J && r in J && J[l].level == J[n].level == J[x].level && J[l].level + 1 == J[r].level
    ensures T[l].Leaf? ==> J[l].level == 0
  {
    SiblingFacts(T, J, root, r, i, l, n);
  }

  lemma MergedBroken(S: Store, T: Store, J: Shape, root: PageId, r: PageId, i: nat, l: PageId, n: PageId, T': Store,
        J': Shape)
    requires Mirrors(S, T) && Siblings(T, J, root, r, i, l, n) && l in T && n in T && r in T && l in J && r in J
    requires r != l && r != n && l != n && T[l].Leaf? == T[n].Leaf? && T[r].Internal? && i + 1 < |T[r].slots|
    requires l in S && n in S && r in S && S[l].Leaf? == S[n].Leaf? && S[r].Internal? && i + 1 < |S[r].slots|
    requires T' == MergeOf(T, r, i, l, n) && Ordered(T', J', root) && J[l].level < J[r].level
    requires var S' := MergeOf(S, r, i, l, n);
      Mirrors(S', T') && l in S' && S'[l].Internal? && !InPlace(S', l, J[l].level)
    ensures Broken(MergeOf(S, r, i, l, n), J', J[r].level)
  {
    hide Ordered, InPlace, InternalMerge;
    var S' := MergeOf(S, r, i, l, n);
    assert SamePage(S'[l], T'[l]);
    OrderedLayers(T', J', root);
    MergedLevel(T, J, root, r, i, l, n, J');
    assert OutOfPlace(S', J', l, J[r].level);
  }

  /** A merge, whatever the separators: it leaves pages in order exactly when they were and the key that becomes a
      separator separates, and else a separator out of its place. */
  lemma MergeStands(S: Store, I: Shape, T: Store, J: Shape, root: PageId, c: Caps, x: PageId, r: PageId, i: nat,
        l: PageId, n: PageId)
    returns (I': Shape, T': Store, J': Shape)
    requires HelpedOut(T, J, root, c, x, r, i, l, n) && x in J && Stands(S, I, T, J, root, J[x].level)
    requires l in S && n in S && x in S && S[l].Size() + S[n].Size() < MaxSize(c, S[x])
    ensures r in S && S[l].Leaf? == S[n].Leaf? && S[r].Internal? && i + 1 < |S[r].slots|
    ensures r != l && r != n && l != n && r in J && r in J' && J'[r] == J[r] && root in J && root in J'
        && J'[root] == J[root]
    ensures Shrunk(T', J', root, c, r)
    ensures forall e :: Has(T, e) <==> Has(T', e)
    ensures var S' := MergeOf(S, r, i, l, n);
      && Stands(S', I', T', J', root, J[r].level)
      && (Ordered(S', I', root) <==> Ordered(S, I, root) && ZeroSplits(S, l, n, J[x].level))
      && (ZeroOrdered(S, I, root) ==> ZeroSplits(S, l, n, J[x].level))
      && (Ordered(S', I', root) ==> OrderKept(I, root, I', root))
  {
    hide Ordered, SizedBut, InPlace, KeySplits, MergeOf, KeptBelow, Siblings, Has, MinSize, OrderKept;
    var k := J[x].level;
    HelpedFacts(T, J, root, c, x, r, i, l, n);
    MergeMirrors(S, T, J, root, r, i, l, n);
    assert SamePage(S[x], T[x]);
    J' := ZeroMergeTree(T, J, root, c, x, r, i, l, n);
    T' := MergeOf(T, r, i, l, n);
    I' := I;
    if Ordered(S, I, root) {
      MirrorHelped(S, I, T, J, root, c, x, r, i, l, n);
      MirrorLevel(S, I, T, J, root, l);
      I' := MergeOrdered(S, I, root, c, x, r, i, l, n);
      if !ZeroSplits(S, l, n, k) {
        MergedBroken(S, T, J, root, r, i, l, n, T', J');
      }
    } else {
      MergeKeeps(S, J, r, i, l, n);
      BrokenKept(S, T, J, root, k, MergeOf(S, r, i, l, n), T', J', root, J[r].level);
    }
    if Broken(MergeOf(S, r, i, l, n), J', J[r].level) {
      BrokenUnordered(MergeOf(S, r, i, l, n), T', J', root, J[r].level, I', root);
    }
  }

  // ----- a pair changes sides

  ghost predicate CanGive(S: Store, x: PageId, r: PageId, i: nat, l: PageId, n: PageId) {
    && l in S && n in S && r in S && S[l].Leaf? == S[n].Leaf? && S[r].Internal? && i + 1 < |S[r].slots|
    && r != l && r != n && l != n && (if x == l then S[n] else S[l]).Size() > 1
    && (S[l].Internal? ==>
          var c := if x == l then S[n].slots[0].child else S[l].slots[|S[l].slots| - 1].child;
          c in S && c != r && c != l && c != n)
  }

  /** Page `x` gets a pair from its sibling. */
  ghost function EvenOf(S: Store, x: PageId, r: PageId, i: nat, l: PageId, n: PageId): Store
    requires CanGive(S, x, r, i, l, n)
  {
    if x == l then
      if S[l].Leaf? then LeafFirstToEnd(S, r, i, l, n) else InternalFirstToEnd(S, r, i, l, n)
    else
      if S[l].Leaf? then LeafLastToFront(S, r, i, l, n) else InternalLastToFront(S, r, i, l, n)
  }

  lemma EvenMirrors(S: Store, T: Store, J: Shape, root: PageId, x: PageId, r: PageId, i: nat, l: PageId, n: PageId)
    requires Mirrors(S, T) && Siblings(T, J, root, r, i, l, n) && CanGive(T, x, r, i, l, n)
    ensures CanGive(S, x, r, i, l, n) && Mirrors(EvenOf(S, x, r, i, l, n), EvenOf(T, x, r, i, l, n))
  {
    hide Ordered, Mirrors, LeafFirstToEnd, LeafLastToFront, InternalFirstToEnd, InternalLastToFront;
    SiblingMirrors(S, T, J, root, r, i, l, n);
    CanGiveMirrors(S, T, x, r, i, l, n);
    if S[l].Leaf? {
      LeafEvenMirrors(S, T, x, r, i, l, n);
    } else if x == l {
      FirstToEndMirrors(S, T, x, r, i, l, n);
    } else {
      LastToFrontMirrors(S, T, x, r, i, l, n);
    }
  }

  lemma CanGiveMirrors(S: Store, T: Store, x: PageId, r: PageId, i: nat, l: PageId, n: PageId)
    requires Mirrors(S, T) && CanGive(T, x, r, i, l, n)
    ensures CanGive(S, x, r, i, l, n) && S[l].Leaf? == T[l].Leaf?
  {
    assert SamePage(S[l], T[l]) && SamePage(S[n], T[n]) && SamePage(S[r], T[r]);
  }

  lemma LeafEvenMirrors(S: Store, T: Store, x: PageId, r: PageId, i: nat, l: PageId, n: PageId)
    requires Mirrors(S, T) && CanGive(T, x, r, i, l, n) && CanGive(S, x, r, i, l, n) && S[l].Leaf? && T[l].Leaf?
    ensures Mirrors(EvenOf(S, x, r, i, l, n), EvenOf(T, x, r, i, l, n))
  {
    var S', T' := EvenOf(S, x, r, i, l, n), EvenOf(T, x, r, i, l, n);
    assert SamePage(S[l], T[l]) && SamePage(S[n], T[n]);
    forall y | y in S' ensures SamePage(S'[y], T'[y]) {
      assert SamePage(S[y], T[y]);
    }
  }

  lemma FirstToEndMirrors(S: Store, T: Store, x: PageId, r: PageId, i: nat, l: PageId, n: PageId)
    requires Mirrors(S, T) && CanGive(T, x, r, i, l, n) && CanGive(S, x, r, i, l, n) && S[l].Internal? && T[l].Internal?
    requires x == l
    ensures Mirrors(EvenOf(S, x, r, i, l, n), EvenOf(T, x, r, i, l, n))
  {
    hide LeafFirstToEnd, LeafLastToFront, InternalLastToFront;
    var S', T' := InternalFirstToEnd(S, r, i, l, n), InternalFirstToEnd(T, r, i, l, n);
    assert SamePage(S[n], T[n]);
    forall y | y in S' ensures SamePage(S'[y], T'[y]) {
      assert SamePage(S[y], T[y]);
    }
  }

  lemma LastToFrontMirrors(S: Store, T: Store, x: PageId, r: PageId, i: nat, l: PageId, n: PageId)
    requires Mirrors(S, T) && CanGive(T, x, r, i, l, n) && CanGive(S, x, r, i, l, n) && S[l].Internal? && T[l].Internal?
    requires x != l
    ensures Mirrors(EvenOf(S, x, r, i, l, n), EvenOf(T, x, r, i, l, n))
  {
    hide LeafFirstToEnd, LeafLastToFront, InternalFirstToEnd;
    var S', T' := InternalLastToFront(S, r, i, l, n), InternalLastToFront(T, r, i, l, n);
    assert SamePage(S[l], T[l]);
    forall y | y in S' ensures SamePage(S'[y], T'[y]) {
      assert SamePage(S[y], T[y]);
    }
  }

  /** Evening out two pages of a tree with the key-zero order. */
  lemma ZeroEvenTree(T: Store, J: Shape, root: PageId, c: Caps, x: PageId, r: PageId, i: nat, l: PageId, n: PageId)
    returns (J': Shape)
    requires HelpedOut(T, J, root, c, x, r, i, l, n) && root in J && J[root].zero
    requires l in T && n in T && x in T && T[l].Size() + T[n].Size() >= MaxSize(c, T[x])
    ensures CanGive(T, x, r, i, l, n)
    ensures var T' := EvenOf(T, x, r, i, l, n);
      (forall e :: Has(T, e) <==> Has(T', e)) && ZeroTree(T', J', root, c)
  {
    hide Ordered, SizedBut, LeafFirstToEnd, LeafLastToFront, InternalFirstToEnd, InternalLastToFront;
    RootFacts(T, J, root);
    HelperSizes(T, J, root, c, x, r, i, l, n);
    if x == l {
      if T[l].Leaf? {
        J' := LeafFirstToEndTree(T, J, root, c, r, i, l, n);
      } else {
        J' := InternalFirstToEndTree(T, J, root, c, r, i, l, n);
      }
    } else {
      if T[l].Leaf? {
        J' := LeafLastToFrontTree(T, J, root, c, r, i, l, n);
      } else {
        KeyZeroSeparates(T, J, root, r, i, l, n);
        J' := InternalLastToFrontTree(T, J, root, c, r, i, l, n);
      }
    }
  }

  ghost predicate MisplacedBy(S: Store, p: PageId, k: nat) {
    p in S && S[p].Internal? && !InPlace(S, p, k)
  }

  /** Evening out keeps pages in order exactly when they are leaves, or the left one lacks a pair, or the key at
      position 0 of the right one separates. */
  lemma EvenOrdered(S: Store, I: Shape, root: PageId, c: Caps, x: PageId, r: PageId, i: nat, l: PageId, n: PageId)
    returns (I': Shape)
    requires HelpedOut(S, I, root, c, x, r, i, l, n) && l in I && r in I
    requires l in S && n in S && x in S && S[l].Size() + S[n].Size() >= MaxSize(c, S[x])
    ensures CanGive(S, x, r, i, l, n)
    ensures var S', ok := EvenOf(S, x, r, i, l, n), x == l || ZeroSplits(S, l, n, I[l].level);
      && (I[root].zero || ok ==> Ordered(S', I', root) && OrderKept(I, root, I', root))
      && (!ok ==> MisplacedBy(S', n, I[l].level) || MisplacedBy(S', r, I[r].level))
  {
    hide Ordered, SizedBut, InPlace, KeySplits;
    hide LeafFirstToEnd, LeafLastToFront, InternalFirstToEnd, InternalLastToFront;
    RootFacts(S, I, root);
    HelperSizes(S, I, root, c, x, r, i, l, n);
    LeavesFilled(S, I, root, c, x);
    I' := I;
    if x == l {
      if S[l].Leaf? {
        I' := LeafFirstToEndTree(S, I, root, c, r, i, l, n);
      } else {
        I' := InternalFirstToEndTree(S, I, root, c, r, i, l, n);
      }
    } else {
      if S[l].Leaf? {
        I' := LeafLastToFrontTree(S, I, root, c, r, i, l, n);
      } else {
        MovedInPlace(S, I, root, r, i, l, n);
        if I[root].zero || ZeroSplits(S, l, n, I[l].level) {
          SplitsSeparate(S, I, root, r, i, l, n);
          I' := InternalLastToFrontTree(S, I, root, c, r, i, l, n);
        }
      }
    }
  }

  lemma EvenKeeps(S: Store, J: Shape, x: PageId, r: PageId, i: nat, l: PageId, n: PageId)
    requires CanGive(S, x, r, i, l, n) && l in J && n in J && r in J
    requires J[n].level == J[l].level < J[r].level && (S[l].Leaf? ==> J[l].level == 0)
    ensures KeptBelow(S, J, J[l].level, EvenOf(S, x, r, i, l, n))
  {
  }

  lemma EvenBroken(S': Store, T': Store, J': Shape, root: PageId, p: PageId, k: nat)
    requires Mirrors(S', T') && Ordered(T', J', root) && MisplacedBy(S', p, k) && p in J' && J'[p].level == k
    ensures Broken(S', J', J'[root].level + 1)
  {
    assert PageOk(T', J', p);
    assert OutOfPlace(S', J', p, J'[root].level + 1);
  }

  /** The levels of two siblings and their parent stay when a pair changes sides. */
  lemma EvenLevels(T: Store, J: Shape, root: PageId, x: PageId, r: PageId, i: nat, l: PageId, n: PageId, J': Shape)
    requires Siblings(T, J, root, r, i, l, n) && CanGive(T, x, r, i, l, n) && T[l].Internal? && x == n
    requires |T[l].slots| > 1 && Layered(EvenOf(T, x, r, i, l, n), J')
    ensures l in J && r in J && n in J' && J'[n].level == J[l].level && r in J' && J'[r].level == J[r].level
  {
    MovedLevel(T, J, root, r, i, l, n, J');
  }

  /** Evening out, whatever the separators. */
  lemma EvenStands(S: Store, I: Shape, T: Store, J: Shape, root: PageId, c: Caps, x: PageId, r: PageId, i: nat,
        l: PageId, n: PageId)
    returns (I': Shape, T': Store, J': Shape)
    requires HelpedOut(T, J, root, c, x, r, i, l, n) && x in J && Stands(S, I, T, J, root, J[x].level)
    requires l in S && n in S && x in S && S[l].Size() + S[n].Size() >= MaxSize(c, S[x])
    ensures CanGive(S, x, r, i, l, n) && ZeroTree(T', J', root, c) && root in J'
    ensures forall e :: Has(T, e) <==> Has(T', e)
    ensures var S' := EvenOf(S, x, r, i, l, n);
      && Stands(S', I', T', J', root, J'[root].level + 1)
      && (Ordered(S', I', root) <==> Ordered(S, I, root) && (x == l || ZeroSplits(S, l, n, J[x].level)))
      && (ZeroOrdered(S, I, root) ==> x == l || ZeroSplits(S, l, n, J[x].level))
      && (Ordered(S', I', root) ==> OrderKept(I, root, I', root))
  {
    hide Ordered, SizedBut, InPlace, KeySplits, EvenOf, KeptBelow, Siblings, Has, MinSize, OrderKept;
    var k := J[x].level;
    HelpedFacts(T, J, root, c, x, r, i, l, n);
    SiblingMirrors(S, T, J, root, r, i, l, n);
    assert SamePage(S[x], T[x]);
    J' := ZeroEvenTree(T, J, root, c, x, r, i, l, n);
    T' := EvenOf(T, x, r, i, l, n);
    EvenMirrors(S, T, J, root, x, r, i, l, n);
    RootFacts(T', J', root);
    I' := I;
    var S', top := EvenOf(S, x, r, i, l, n), J'[root].level + 1;
    if Ordered(S, I, root) {
      MirrorHelped(S, I, T, J, root, c, x, r, i, l, n);
      MirrorLevel(S, I, T, J, root, l);
      MirrorLevel(S, I, T, J, root, r);
      I' := EvenOrdered(S, I, root, c, x, r, i, l, n);
      if x != l && !ZeroSplits(S, l, n, k) {
        OrderedLayers(T', J', root);
        EvenLevels(T, J, root, x, r, i, l, n, J');
        if MisplacedBy(S', n, k) {
          EvenBroken(S', T', J', root, n, k);
        } else {
          EvenBroken(S', T', J', root, r, k + 1);
        }
      }
    } else {
      EvenKeeps(S, J, x, r, i, l, n);
      BrokenKept(S, T, J, root, k, S', T', J', root, top);
    }
    if Broken(S', J', top) {
      BrokenUnordered(S', T', J', root, top, I', root);
    }
  }

  // ----- a root with one child

  lemma DropRootTree(T: Store, J: Shape, root: PageId, c: Caps)
    requires Underfull(T, J, root, c, root) && |T[root].slots| == 1
    ensures var d := T[root].slots[0].child;
      d in T && d != root && d in J && J[d].zero == J[root].zero && Tree(DropRoot(T, root), J - {root}, d, c)
    ensures forall e :: Has(T, e) <==> Has(DropRoot(T, root), e)
  {
    hide Ordered;
    RootFacts(T, J, root);
    DropRootOrdered(T, J, root);
    var d := T[root].slots[0].child;
    forall x | x in T && x != root ensures SizeOk(c, T[x], false) {
    }
  }

  lemma DropRootMirrors(S: Store, T: Store, root: PageId)
    requires Mirrors(S, T) && root in T && T[root].Internal? && |T[root].slots| == 1 && T[root].slots[0].child in T
    ensures root in S && S[root].Internal? && |S[root].slots| == 1 && S[root].slots[0].child == T[root].slots[0].child
    ensures Mirrors(DropRoot(S, root), DropRoot(T, root))
  {
    assert SamePage(S[root], T[root]);
    var S', T' := DropRoot(S, root), DropRoot(T, root);
    forall x | x in S' ensures SamePage(S'[x], T'[x]) {
      assert SamePage(S[x], T[x]);
    }
  }

  lemma DropRootKeeps(S: Store, J: Shape, root: PageId)
    requires root in S && S[root].Internal? && |S[root].slots| == 1 && S[root].slots[0].child in S && root in J
    ensures KeptBelow(S, J, J[root].level, DropRoot(S, root))
  {
  }

  /** The root gives way to its only child, whatever the separators. */
  lemma DropRootStands(S: Store, I: Shape, T: Store, J: Shape, root: PageId, c: Caps)
    requires Underfull(T, J, root, c, root) && |T[root].slots| == 1 && root in J
    requires Stands(S, I, T, J, root, J[root].level)
    ensures var d := T[root].slots[0].child;
      && d in T && d in S && d != root && root in S && S[root].Internal? && |S[root].slots| == 1
      && S[root].slots[0].child == d
      && Repaired(S, I, root, T, true, DropRoot(S, root), I - {root}, d, c, DropRoot(T, root), J - {root})
  {
    hide Ordered, SizedBut, InPlace, DropRoot, KeptBelow, Has;
    var d := T[root].slots[0].child;
    DropRootTree(T, J, root, c);
    DropRootMirrors(S, T, root);
    var S', T', J' := DropRoot(S, root), DropRoot(T, root), J - {root};
    RootFacts(T', J', d);
    if Ordered(S, I, root) {
      RootFacts(S, I, root);
      DropRootOrdered(S, I, root);
    } else {
      DropRootKeeps(S, J, root);
      BrokenKept(S, T, J, root, J[root].level, S', T', J', d, J'[d].level + 1);
      BrokenUnordered(S', T', J', d, J'[d].level + 1, I - {root}, d);
    }
  }

  // ----- the repair, level by level

  /** From `S` to `S'`: the tree `T'` that `S'` mirrors holds the entries of `T`, and the order that `S` had is kept if
      and only if `ok` holds. */
  ghost predicate Repaired(S: Store, I: Shape, root: PageId, T: Store, ok: bool, S': Store, I': Shape, root': PageId,
      c: Caps, T': Store, J': Shape)
  {
    && ZeroTree(T', J', root', c) && (forall e :: Has(T, e) <==> Has(T', e))
    && root' in J' && Stands(S', I', T', J', root', J'[root'].level + 1)
    && (Ordered(S', I', root') <==> Ordered(S, I, root) && ok)
    && (ZeroOrdered(S, I, root) ==> ok)
    && (Ordered(S', I', root') ==> OrderKept(I, root, I', root'))
  }

  /** A root with more than one pair lacks nothing. */
  lemma RootRepaired(S: Store, I: Shape, T: Store, J: Shape, root: PageId, c: Caps)
    requires root in J && Stands(S, I, T, J, root, J[root].level) && root in T && T[root].Size() > 1
    requires Underfull(T, J, root, c, root) || (T.Keys == {root} && T[root].Leaf? && T[root].Size() <= c.leafMax)
    ensures Repaired(S, I, root, T, true, S, I, root, c, T, J)
  {
    hide Ordered, InPlace;
    RootFacts(T, J, root);
    forall x | x in T ensures SizeOk(c, T[x], x == root) {
    }
    if Ordered(S, I, root) {
      RootFacts(S, I, root);
    } else {
      var p :| OutOfPlace(S, J, p, J[root].level);
      assert OutOfPlace(S, J, p, J[root].level + 1);
    }
  }

  /** Pages `l` and `n` are children `i` and `i + 1` of page `r`. */
  datatype Pair = Pair(r: PageId, i: nat, l: PageId, n: PageId)

  ghost function PlaceOf(slots: seq<Slot>, c: PageId): (j: nat)
    requires HasChild(slots, c)
    ensures j < |slots| && slots[j].child == c
  {
    var j: nat :| j < |slots| && slots[j].child == c;
    j
  }

  ghost predicate InParent(S: Store, x: PageId) {
    && x in S && S[x].parent in S
    && S[S[x].parent].Internal? && HasChild(S[S[x].parent].slots, x)
  }

  ghost predicate HasSibling(S: Store, x: PageId) {
    InParent(S, x) && |S[S[x].parent].slots| > 1
  }

  /** A page and the sibling it turns to: the next child of its parent for the first one, else the one before. */
  ghost function PairOf(S: Store, x: PageId): Pair
    requires HasSibling(S, x)
  {
    var r := S[x].parent;
    var j := PlaceOf(S[r].slots, x);
    var i := if j == 0 then 0 else j - 1;
    Pair(r, i, S[r].slots[i].child, S[r].slots[i + 1].child)
  }

  ghost predicate PairOk(S: Store, q: Pair) {
    && q.l in S && q.n in S && q.r in S && S[q.l].Leaf? == S[q.n].Leaf? && S[q.r].Internal?
    && q.i + 1 < |S[q.r].slots| && q.r != q.l && q.r != q.n && q.l != q.n
  }

  /**
   The repair that starts at page `x`, which lacks a pair and is at level `k`, `h` levels below the root, makes no
   separator of a key at position 0 that does not separate.
   */
  ghost predicate RepairSeparates(S: Store, root: PageId, c: Caps, x: PageId, k: nat, h: int)
    decreases h, 1
  {
    h > 0 && x != root && HasSibling(S, x) && PairOk(S, PairOf(S, x)) ==>
      var q := PairOf(S, x);
      if S[q.l].Size() + S[q.n].Size() < MaxSize(c, S[x]) then MergeSeparates(S, root, c, q, k, h)
      else x == q.l || ZeroSplits(S, q.l, q.n, k)
  }

  /** The same of a repair that starts with a merge. */
  ghost predicate MergeSeparates(S: Store, root: PageId, c: Caps, q: Pair, k: nat, h: int)
    requires PairOk(S, q)
    decreases h, 0
  {
    && ZeroSplits(S, q.l, q.n, k)
    && (h > 0 && S[q.r].Size() <= MinSize(c, S[q.r]) ==>
          RepairSeparates(MergeOf(S, q.r, q.i, q.l, q.n), root, c, q.r, k + 1, h - 1))
  }

  /** The pair that the code finds: `j` is the place of `x` in its parent. */
  lemma PairIs(S: Store, T: Store, J: Shape, root: PageId, x: PageId, j: nat)
    requires Mirrors(S, T) && Ordered(T, J, root) && x in S && x != root
    requires var r := S[x].parent;
      r in S && S[r].Internal? && |S[r].slots| > 1 && j < |S[r].slots| && S[r].slots[j].child == x
    ensures var r, i := S[x].parent, if j == 0 then 0 else j - 1;
      var l, n := S[r].slots[i].child, S[r].slots[i + 1].child;
      && HasSibling(S, x) && PairOf(S, x) == Pair(r, i, l, n) && PairOk(S, PairOf(S, x))
      && Siblings(T, J, root, r, i, l, n)
  {
    var r, i := S[x].parent, if j == 0 then 0 else j - 1;
    assert SamePage(S[x], T[x]) && SamePage(S[r], T[r]);
    KidsDistinct(T, J, root, r, j, PlaceOf(S[r].slots, x));
    var l, n := S[r].slots[i].child, S[r].slots[i + 1].child;
    SiblingFacts(T, J, root, r, i, l, n);
    SiblingMirrors(S, T, J, root, r, i, l, n);
  }

  /** A merge and the rest of the repair. */
  lemma RepairedOn(S: Store, I: Shape, root: PageId, T: Store, ok: bool, S1: Store, I1: Shape, T1: Store, more: bool,
        S2: Store, I2: Shape, root2: PageId, c: Caps, T2: Store, J2: Shape)
    requires forall e :: Has(T, e) <==> Has(T1, e)
    requires Ordered(S1, I1, root) <==> Ordered(S, I, root) && ok
    requires ZeroOrdered(S, I, root) ==> ok
    requires Ordered(S1, I1, root) ==> OrderKept(I, root, I1, root)
    requires Repaired(S1, I1, root, T1, more, S2, I2, root2, c, T2, J2)
    ensures Repaired(S, I, root, T, ok && more, S2, I2, root2, c, T2, J2)
  {
    hide Ordered, Stands, ZeroTree;
  }

  /** What a repair starts from: pages in order. */
  lemma RepairStarts(S: Store, I: Shape, root: PageId, c: Caps, x: PageId)
    requires Ordered(S, I, root) && x in S
    ensures var T, J := Tightened(S, I), TightShape(I);
      && x in J && x in I && J[x].level == I[x].level && root in J && root in I && J[root].level == I[root].level
      && Stands(S, I, T, J, root, J[x].level) && (Underfull(S, I, root, c, x) ==> Underfull(T, J, root, c, x))
  {
    hide Ordered, SizedBut;
    RootFacts(S, I, root);
    TightenedOrdered(S, I, root);
    MirrorSizes(S, Tightened(S, I), root, c, x);
    assert SamePage(S[x], Tightened(S, I)[x]);
  }

  /** What it ends in: a tree but for separators, with the entries there were, in order under the intervals it comes
      with or none. */
  lemma RepairEnds(S: Store, I: Shape, root: PageId, T: Store, ok: bool, S': Store, I': Shape, root': PageId, c: Caps,
        T': Store, J': Shape)
    requires Repaired(S, I, root, T, ok, S', I', root', c, T', J') && Mirrors(S, T) && Ordered(S, I, root)
    ensures Tree(T', J', root', c) && Mirrors(S', T') && forall e :: Has(S, e) <==> Has(S', e)
    ensures ok ==> Tree(S', I', root', c) && OrderKept(I, root, I', root')
    ensures (exists K :: Ordered(S', K, root')) <==> ok
    ensures root in I && (I[root].zero ==> ok) && root' in S' && root' != INVALID_PAGE_ID
  {
    hide Ordered, SizedBut, SamePage, Broken, OrderKept;
    RootFacts(S, I, root);
    RootFacts(T', J', root');
    MirrorEntries(S, T);
    MirrorEntries(S', T');
    MirrorSizes(S', T', root', c, INVALID_PAGE_ID);
    if !ok && exists K :: Ordered(S', K, root') {
      var K :| Ordered(S', K, root');
      BrokenUnordered(S', T', J', root', J'[root'].level + 1, K, root');
    }
  }

  lemma StandsMirrors(S: Store, I: Shape, T: Store, J: Shape, root: PageId, k: nat)
    requires Stands(S, I, T, J, root, k)
    ensures Mirrors(S, T) && Ordered(T, J, root)
  {
  }

  /** The children of a page are pages other than it. */
  lemma MirrorKids(S: Store, T: Store, J: Shape, root: PageId, p: PageId)
    requires Mirrors(S, T) && Ordered(T, J, root) && p in S && S[p].Internal?
    ensures forall i | 0 <= i < |S[p].slots| :: S[p].slots[i].child in S && S[p].slots[i].child != p
  {
    MirrorLayers(S, T, J, root);
    assert LayersOk(S, J, p);
    assert forall i | 0 <= i < |S[p].slots| :: LayersTo(S, J, p, S[p].slots[i].child);
  }

  /** Only the root has no parent. */
  lemma MirrorParent(S: Store, T: Store, J: Shape, root: PageId, x: PageId)
    requires Mirrors(S, T) && Ordered(T, J, root) && x in S
    ensures S[x].parent == INVALID_PAGE_ID <==> x == root
    ensures x != root ==> InParent(S, x)
  {
    assert LinkOk(T, root, x) && SamePage(S[x], T[x]);
    if x != root {
      var r, j := ChildOf(T, J, root, x);
      assert SamePage(S[r], T[r]);
      assert S[r].slots[j].child == x;
    }
  }

  /** The sibling that the code turns to can help out. */
  lemma SiblingHelps(S: Store, T: Store, J: Shape, root: PageId, c: Caps, x: PageId, j: nat)
    requires c.leafMax >= 4 && c.internalMax >= 4 && Mirrors(S, T) && Underfull(T, J, root, c, x)
    requires x != root && InParent(S, x) && j < |S[S[x].parent].slots| && S[S[x].parent].slots[j].child == x
    ensures HasSibling(S, x) && PairOk(S, PairOf(S, x))
    ensures var r, i := S[x].parent, if j == 0 then 0 else j - 1;
      var l, n := S[r].slots[i].child, S[r].slots[i + 1].child;
      && PairOf(S, x) == Pair(r, i, l, n) && r in J && r in T && x in J && root in J
      && HelpedOut(T, J, root, c, x, r, i, l, n) && J[r].level == J[x].level + 1 && J[r].level <= J[root].level
      && T[r].parent == S[r].parent && S[r].slots[j].child == x
  {
    hide Ordered;
    var r := S[x].parent;
    assert SamePage(S[r], T[r]);
    RootFacts(T, J, root);
    PageFacts(T, J, root, r);
    assert r != x by {
      assert SamePage(S[x], T[x]);
      var q, t := ChildOf(T, J, root, x);
    }
    assert SizeOk(c, T[r], r == root);
    PairIs(S, T, J, root, x, j);
    var q := PairOf(S, x);
    HelpedFacts(T, J, root, c, x, r, q.i, q.l, q.n);
  }

  lemma MergeDone(S: Store, I: Shape, root: PageId, T: Store, ok: bool, S1: Store, I1: Shape, T1: Store, J1: Shape,
        c: Caps, k: nat)
    requires Tree(T1, J1, root, c) && (forall e :: Has(T, e) <==> Has(T1, e))
    requires Stands(S1, I1, T1, J1, root, k) && k <= J1[root].level
    requires Ordered(S1, I1, root) <==> Ordered(S, I, root) && ok
    requires ZeroOrdered(S, I, root) ==> ok
    requires Ordered(S1, I1, root) ==> OrderKept(I, root, I1, root)
    ensures Repaired(S, I, root, T, ok, S1, I1, root, c, T1, J1)
  {
    hide Ordered, InPlace;
    RootFacts(T1, J1, root);
    if Broken(S1, J1, k) {
      var p :| OutOfPlace(S1, J1, p, k);
      assert OutOfPlace(S1, J1, p, J1[root].level + 1);
    }
  }

  /** A merge is the whole repair, or its parent is next. */
  lemma MergeNext(S: Store, I: Shape, root: PageId, T: Store, J: Shape, c: Caps, x: PageId, q: Pair, S1: Store,
        I1: Shape, T1: Store, J1: Shape)
    requires PairOk(S, q) && x in J && root in J && q.r in J && J[q.r].level == J[x].level + 1 <= J[root].level
    requires S1 == MergeOf(S, q.r, q.i, q.l, q.n) && q.r in J1 && root in J1
    requires J1[q.r] == J[q.r] && J1[root] == J[root]
    requires Shrunk(T1, J1, root, c, q.r) && (forall e :: Has(T, e) <==> Has(T1, e))
    requires Stands(S1, I1, T1, J1, root, J[q.r].level)
    requires Ordered(S1, I1, root) <==> Ordered(S, I, root) && ZeroSplits(S, q.l, q.n, J[x].level)
    requires ZeroOrdered(S, I, root) ==> ZeroSplits(S, q.l, q.n, J[x].level)
    requires Ordered(S1, I1, root) ==> OrderKept(I, root, I1, root)
    ensures q.r in S1 && S1[q.r].Internal?
    ensures S1[q.r].Size() < MinSize(c, S1[q.r]) ==> Underfull(T1, J1, root, c, q.r)
    ensures S1[q.r].Size() >= MinSize(c, S1[q.r]) ==>
      Repaired(S, I, root, T, MergeSeparates(S, root, c, q, J[x].level, J[root].level - J[x].level),
               S1, I1, root, c, T1, J1)
  {
    hide Ordered, InPlace, OrderKept, ZeroSplits;
    MergeParents(S, q);
    assert SamePage(S1[q.r], T1[q.r]);
    if S1[q.r].Size() >= MinSize(c, S1[q.r]) {
      MergeDone(S, I, root, T, ZeroSplits(S, q.l, q.n, J[x].level), S1, I1, T1, J1, c, J[q.r].level);
    }
  }

  lemma MergeParents(S: Store, q: Pair)
    requires PairOk(S, q)
    ensures var S1 := MergeOf(S, q.r, q.i, q.l, q.n);
      q.r in S1 && S1[q.r].Internal? && S1[q.r].Size() == S[q.r].Size() - 1
  {
  }
}
