/**
 The key at position 0 of an internal page. No search reads it, so the search order of a tree does not depend on it
 and every insertion keeps that order; but pages are merged through it. This module says when an insertion keeps the
 key-zero order too, and what a merge does when it does not hold.

 `Insert` never lowers a key at position 0, and `Remove` raises it two levels up at most. A search can therefore lead
 a key to a page off the leftmost spine that has a larger key at position 0: such a key is in a gap.
 */
module BPlusTreeGaps {
  import opened Basics
  import opened BPlusTreeNodes
  import opened BPlusTreeInvariant
  import opened BPlusTreeSeparators
  import opened BPlusTreeInsert

  // ----- the two orders of one store

  /** The shape for the search order alone. */
  ghost function Loosen(I: Shape): Shape {
    map x | x in I :: I[x].(zero := false, dlo := if I[x].off then I[x].rlo else I[x].dlo)
  }

  lemma LoosenPage(S: Store, I: Shape, root: PageId, x: PageId)
    requires Ordered(S, I, root) && x in S
    ensures PageOk(S, Loosen(I), x)
  {
    var J := Loosen(I);
    assert PageOk(S, I, x);
    if S[x].Leaf? {
      assert forall i | 0 <= i < |S[x].entries| :: Admits(I[x], S[x].entries[i].key);
    } else {
      forall j | 0 <= j < |S[x].slots| ensures ChildOk(S, J, x, j) {
        assert ChildOk(S, I, x, j);
      }
    }
  }

  /** The key-zero order implies the search order. */
  lemma LoosenOrdered(S: Store, I: Shape, root: PageId)
    requires Ordered(S, I, root)
    ensures Ordered(S, Loosen(I), root)
  {
    var J := Loosen(I);
    forall x | x in S ensures PageOk(S, J, x) && LinkOk(S, root, x) && J[x].level <= J[root].level {
      assert LinkOk(S, root, x);
      LoosenPage(S, I, root, x);
    }
  }

  ghost predicate SameInternals(S: Store, S': Store) {
    && S'.Keys == S.Keys
    && forall x | x in S :: S'[x].Leaf? == S[x].Leaf? && S'[x].parent == S[x].parent
        && (S[x].Internal? ==> S'[x] == S[x])
  }

  lemma {:induction false} SameLevel(S: Store, I: Shape, S': Store, I': Shape, root: PageId, x: PageId)
    requires Ordered(S, I, root) && Ordered(S', I', root) && SameInternals(S, S') && x in S
    ensures I[x].level == I'[x].level
    decreases I[x].level
  {
    assert PageOk(S, I, x) && PageOk(S', I', x);
    if S[x].Internal? {
      assert ChildOk(S, I, x, 0) && ChildOk(S', I', x, 0);
      SameLevel(S, I, S', I', root, S[x].slots[0].child);
    }
  }

  /** The intervals of all pages follow from the internal pages. */
  lemma {:induction false} SameInfo(S: Store, I: Shape, S': Store, I': Shape, root: PageId, x: PageId)
    requires Ordered(S, I, root) && Ordered(S', I', root) && SameInternals(S, S') && x in S
    requires I[root].zero == I'[root].zero
    ensures I[x] == I'[x]
    decreases I[root].level - I[x].level
  {
    if x == root {
      SameLevel(S, I, S', I', root, root);
    } else {
      var q, j := ChildOf(S, I, root, x);
      SameInfo(S, I, S', I', root, q);
      assert PageOk(S', I', q);
      assert ChildOk(S', I', q, j);
    }
  }

  /** Searches do not depend on the order that is asked for. */
  lemma SameSearch(S: Store, I: Shape, J: Shape, root: PageId, x: PageId)
    requires Ordered(S, I, root) && Ordered(S, J, root) && x in S
    ensures I[x].level == J[x].level && I[x].off == J[x].off && I[x].rlo == J[x].rlo
    ensures I[x].top == J[x].top && I[x].hi == J[x].hi
  {
    LoosenOrdered(S, I, root);
    LoosenOrdered(S, J, root);
    SameInfo(S, Loosen(I), S, Loosen(J), root, x);
    assert Loosen(I)[x] == Loosen(J)[x];
  }

  // ----- which keys a leaf can store

  /** Every page off the leftmost spine that a search for `key` passes has a key not above it at position 0. */
  ghost predicate NoGapOnPath(S: Store, I: Shape, key: Key) {
    forall x | x in S && S[x].Internal? && x in I && I[x].off && Covers(I[x], key) && |S[x].slots| > 0 ::
      S[x].slots[0].key <= key
  }

  lemma SamePath(S: Store, I: Shape, J: Shape, root: PageId, key: Key)
    requires Ordered(S, I, root) && Ordered(S, J, root)
    ensures NoGapOnPath(S, I, key) <==> NoGapOnPath(S, J, key)
  {
    forall x | x in S ensures I[x].off == J[x].off && (Covers(I[x], key) <==> Covers(J[x], key)) {
      SameSearch(S, I, J, root, x);
    }
  }

  lemma {:induction false} PathAdmits(S: Store, I: Shape, root: PageId, x: PageId, p: PageId, key: Key)
    requires ZeroOrdered(S, I, root) && x in S && S[x].Internal? && I[x].off && Covers(I[x], key)
    requires p in S && S[p].Leaf? && Covers(I[p], key) && Admits(I[p], key)
    ensures |S[x].slots| > 0 && S[x].slots[0].key <= key
    decreases I[x].level
  {
    assert PageOk(S, I, x);
    OneOrder(S, I, root, x);
    var slots := S[x].slots;
    if key < slots[0].key {
      assert IsRoute(slots, key, 0);
      RouteCovers(S, I, root, x, key, 0);
      assert ChildOk(S, I, x, 0);
      var c := slots[0].child;
      assert PageOk(S, I, c);
      if S[c].Leaf? {
        assert PageOk(S, I, p);
        UniqueAtLevel(S, I, root, c, p, key);
      } else {
        PathAdmits(S, I, root, c, p, key);
      }
    }
  }

  /** What a caller can check before an insertion: the leaf admits the key exactly when there is no gap on the way. */
  lemma AdmitsIff(S: Store, I: Shape, root: PageId, p: PageId, key: Key)
    requires ZeroOrdered(S, I, root) && p in S && S[p].Leaf? && Covers(I[p], key)
    ensures Admits(I[p], key) <==> NoGapOnPath(S, I, key)
  {
    if Admits(I[p], key) {
      forall x | x in S && S[x].Internal? && I[x].off && Covers(I[x], key) && |S[x].slots| > 0
        ensures S[x].slots[0].key <= key
      {
        PathAdmits(S, I, root, x, p, key);
      }
    }
    if NoGapOnPath(S, I, key) && p != root {
      var q, j := ChildOf(S, I, root, p);
    }
  }

  /** The two lower bounds agree on every page exactly when no key at all is in a gap. */
  lemma TightIff(S: Store, I: Shape, root: PageId)
    requires ZeroOrdered(S, I, root)
    ensures Tight(I) <==> forall key :: NoGapOnPath(S, I, key)
  {
    if Tight(I) {
      forall key ensures NoGapOnPath(S, I, key) {
        forall x | x in S && S[x].Internal? && I[x].off && Covers(I[x], key) && |S[x].slots| > 0
          ensures S[x].slots[0].key <= key
        {
          TightKeyZero(S, I, root, x);
        }
      }
    }
    if forall key :: NoGapOnPath(S, I, key) {
      forall p | p in I && I[p].off ensures I[p].rlo == I[p].dlo {
        GapIfLoose(S, I, root, p);
        assert NoGapOnPath(S, I, I[p].rlo);
      }
    }
  }

  lemma TightKeyZero(S: Store, I: Shape, root: PageId, x: PageId)
    requires ZeroOrdered(S, I, root) && Tight(I) && x in S && S[x].Internal? && I[x].off
    ensures |S[x].slots| > 0 && S[x].slots[0].key == I[x].rlo
  {
    assert PageOk(S, I, x);
    OneOrder(S, I, root, x);
    assert ChildOk(S, I, x, 0);
  }

  /** Where the bounds differ, the lower one is in a gap. */
  lemma GapIfLoose(S: Store, I: Shape, root: PageId, p: PageId)
    requires Ordered(S, I, root) && p in S && I[p].off
    ensures NoGapOnPath(S, I, I[p].rlo) ==> I[p].rlo == I[p].dlo
  {
    assert PageOk(S, I, p);
    var q, j := ChildOf(S, I, root, p);
    IntervalProper(S, I, root, p);
    if j == 0 && I[p].zero && I[p].dlo > I[p].rlo {
      assert Covers(I[q], I[p].rlo);
    }
  }

  lemma {:induction false} SomeRoute(slots: seq<Slot>, key: Key, n: nat) returns (i: nat)
    requires SortedSlots(slots) && 0 < n <= |slots| && (n == |slots| || key < slots[n].key)
    ensures IsRoute(slots, key, i)
    decreases n
  {
    if n == 1 || slots[n - 1].key <= key {
      i := n - 1;
    } else {
      i := SomeRoute(slots, key, n - 1);
    }
  }

  /** A search always gets to a leaf. */
  lemma {:induction false} SomeLeaf(S: Store, I: Shape, root: PageId, x: PageId, key: Key) returns (p: PageId)
    requires Ordered(S, I, root) && x in S && Covers(I[x], key)
    ensures p in S && S[p].Leaf? && Covers(I[p], key)
    decreases I[x].level
  {
    assert PageOk(S, I, x);
    if S[x].Leaf? {
      p := x;
    } else {
      var i := SomeRoute(S[x].slots, key, |S[x].slots|);
      RouteCovers(S, I, root, x, key, i);
      p := SomeLeaf(S, I, root, S[x].slots[i].child, key);
    }
  }

  /** When `p` is the only leaf that cannot store all keys that are led to it, these keys are the ones in a gap. */
  lemma GapKeys(S: Store, I: Shape, root: PageId, p: PageId)
    requires ZeroOrdered(S, I, root) && p in S && S[p].Leaf? && I[p].off
    requires forall x | x in I && I[x].off && I[x].level == 0 && x != p :: I[x].rlo == I[x].dlo
    ensures forall key :: NoGapOnPath(S, I, key) <==> !(Covers(I[p], key) && key < I[p].dlo)
  {
    forall key ensures NoGapOnPath(S, I, key) <==> !(Covers(I[p], key) && key < I[p].dlo) {
      var y := SomeLeaf(S, I, root, root, key);
      AdmitsIff(S, I, root, y, key);
      assert PageOk(S, I, p) && PageOk(S, I, y);
      if Covers(I[p], key) {
        UniqueAtLevel(S, I, root, p, y, key);
      }
    }
  }

  /** Putting a key into the leaf it is led to keeps the key-zero order, under whatever intervals, if and only if the
      leaf admits it. */
  lemma InsertInOrderIff(S: Store, I: Shape, root: PageId, p: PageId, i: nat, e: Entry)
    requires ZeroOrdered(S, I, root) && p in S && S[p].Leaf? && Covers(I[p], e.key)
    requires IsKeyIndex(S[p].entries, e.key, i) && forall f | f in S[p].entries :: f.key != e.key
    ensures (exists J :: ZeroOrdered(LeafInsert(S, p, i, e), J, root)) <==> Admits(I[p], e.key)
  {
    var S' := LeafInsert(S, p, i, e);
    if Admits(I[p], e.key) {
      LeafInsertOrdered(S, I, root, p, i, e);
      assert ZeroOrdered(S', I, root);
    }
    if exists J :: ZeroOrdered(S', J, root) {
      var J :| ZeroOrdered(S', J, root);
      SameInfo(S, I, S', J, root, p);
      assert PageOk(S', J, p);
      assert S'[p].entries[i] == e;
    }
  }

  // ----- a key stored in a gap

  /** The first entry of leaf `p`, on the left spine of `x`, is smaller than the key at position 0 of `x`. */
  ghost predicate Undercut(S: Store, I: Shape, x: PageId, p: PageId) {
    && x in S && S[x].Internal? && |S[x].slots| > 0 && x in I && I[x].off
    && p in S && S[p].Leaf? && |S[p].entries| > 0 && OnSpine(S, I, x, p)
    && S[p].entries[0].key < S[x].slots[0].key
  }

  ghost predicate SomeUndercut(S: Store, I: Shape) {
    exists x, p :: Undercut(S, I, x, p)
  }

  /** There is no such leaf with the key-zero order. */
  lemma NoUndercut(S: Store, I: Shape, root: PageId, J: Shape)
    requires Ordered(S, I, root) && ZeroOrdered(S, J, root)
    ensures !SomeUndercut(S, I)
  {
    if SomeUndercut(S, I) {
      var x, p :| Undercut(S, I, x, p);
      SameSearch(S, I, J, root, x);
      SameSearch(S, I, J, root, p);
      assert PageOk(S, J, x) && PageOk(S, J, p);
      SpineRoom(S, J, root, x, p, S[x].slots[0].key);
    }
  }

  /** Below a page with a larger key at position 0, the search for a key goes down the left spine. */
  lemma {:induction false} GapOnSpine(S: Store, I: Shape, root: PageId, x: PageId, y: PageId, p: PageId, key: Key)
    requires ZeroOrdered(S, I, root) && x in S && S[x].Internal? && |S[x].slots| > 0 && I[x].off
    requires key < S[x].slots[0].key
    requires OnSpine(S, I, x, y) && Covers(I[y], key) && S[y].Internal? && (y == x || key < I[y].dlo)
    requires p in S && S[p].Leaf? && Covers(I[p], key)
    ensures OnSpine(S, I, x, p)
    decreases I[y].level
  {
    assert PageOk(S, I, y) && ChildOk(S, I, y, 0);
    OneOrder(S, I, root, y);
    assert Admits(I[y], S[y].slots[0].key);
    assert IsRoute(S[y].slots, key, 0);
    RouteCovers(S, I, root, y, key, 0);
    var c := S[y].slots[0].child;
    assert PageOk(S, I, c) && PageOk(S, I, p);
    if S[c].Leaf? {
      UniqueAtLevel(S, I, root, c, p, key);
    } else {
      GapOnSpine(S, I, root, x, c, p, key);
    }
  }

  /** A key that its leaf does not admit, once stored, undercuts a key at position 0. */
  lemma InsertUndercuts(S: Store, I: Shape, root: PageId, p: PageId, i: nat, e: Entry)
    requires ZeroOrdered(S, I, root) && p in S && S[p].Leaf? && Covers(I[p], e.key)
    requires IsKeyIndex(S[p].entries, e.key, i) && !NoGapOnPath(S, I, e.key)
    ensures SomeUndercut(LeafInsert(S, p, i, e), Loosen(I))
  {
    var S' := LeafInsert(S, p, i, e);
    var x :| x in S && S[x].Internal? && I[x].off && Covers(I[x], e.key) && |S[x].slots| > 0
        && S[x].slots[0].key > e.key;
    GapOnSpine(S, I, root, x, x, p, e.key);
    assert S'[p].entries[0].key <= e.key by {
      if i > 0 {
        assert S'[p].entries[0] == S[p].entries[0];
      }
    }
    assert Undercut(S', Loosen(I), x, p);
  }

  // ----- what splits leave alone

  /** Every page still has the first key it had. */
  ghost predicate FirstsKept(S: Store, S': Store) {
    forall x | x in S && S[x].Size() > 0 ::
      x in S' && S'[x].Leaf? == S[x].Leaf? && S'[x].Size() > 0 && S'[x].FirstKey() == S[x].FirstKey()
  }

  /** From one store and shape to another: the order asked for is the same one, tight intervals are still tight, and
      an undercut key at position 0 is still undercut. */
  ghost predicate Carried(S: Store, I: Shape, root: PageId, S': Store, I': Shape, root': PageId) {
    && root in I && root' in I' && I'[root'].zero == I[root].zero
    && (Tight(I) ==> Tight(I'))
    && (SomeUndercut(S, I) ==> SomeUndercut(S', I'))
  }

  lemma SplitCarries(S: Store, I: Shape, root: PageId, p: PageId, q: PageId, sep: Key, S': Store)
    requires root in I && p in I && q !in S && q !in I && S.Keys <= I.Keys && FirstsKept(S, S')
    ensures Carried(S, I, root, S', SplitShape(I, p, q, sep), root)
  {
    var I' := SplitShape(I, p, q, sep);
    if SomeUndercut(S, I) {
      var x, y :| Undercut(S, I, x, y);
      assert Undercut(S', I', x, y);
    }
  }

  /** One round of `InsertIntoParent`. */
  lemma LinkCarries(S: Store, I: Shape, root: PageId, p: PageId, q: PageId, r: PageId, j: nat)
    requires Ordered(S, I, root) && p in S && p != root && q !in S && S[p].Size() >= 2
    requires r == S[p].parent && r in S && S[r].Internal? && j < |S[r].slots| && r in SplitPage(S, p, q)
    requires SplitPage(S, p, q)[r] == S[r]
    ensures var S' := LinkAfter(SplitPage(S, p, q), r, j, SplitKey(S[p]), q);
      Carried(S, I, root, S', SplitShape(I, p, q, SplitKey(S[p])), root)
  {
    SplitSizes(S, p, q);
    SplitFirst(S, I, root, p, q);
    SplitCarries(S, I, root, p, q, SplitKey(S[p]), LinkAfter(SplitPage(S, p, q), r, j, SplitKey(S[p]), q));
  }

  lemma SplitFirst(S: Store, I: Shape, root: PageId, p: PageId, q: PageId)
    requires Ordered(S, I, root) && p in S && q !in S && S[p].Size() >= 2
    ensures FirstsKept(S, SplitPage(S, p, q))
  {
    SplitSizes(S, p, q);
    if S[p].Internal? {
      SplitAdopts(S, I, root, p, q);
    }
  }

  /** And its last one, when the root itself was split. */
  lemma GrowCarries(S: Store, I: Shape, p: PageId, q: PageId, n: PageId)
    requires Ordered(S, I, p) && S[p].Size() >= 2 && q !in S && n !in S && n != q
    requires SplitPage(S, p, q)[p].Size() > 0 && q in SplitPage(S, p, q)
    ensures var sep := SplitKey(S[p]);
      Carried(S, I, p, GrowRoot(SplitPage(S, p, q), p, sep, q, n),
              SplitShape(I[n := RootInfo(I[p].level + 1, I[p].zero)], p, q, sep), n)
  {
    var sep := SplitKey(S[p]);
    var S' := GrowRoot(SplitPage(S, p, q), p, sep, q, n);
    var J := I[n := RootInfo(I[p].level + 1, I[p].zero)];
    SplitFirst(S, I, p, p, q);
    SplitCarries(S, J, n, p, q, sep, S');
    if SomeUndercut(S, I) {
      var x, y :| Undercut(S, I, x, y);
      assert Undercut(S, J, x, y);
    }
  }

  // ----- an insertion from its first step to its last

  /** The shape that an insertion starts from: one with the key-zero order if the tree has it and can keep it. */
  lemma InsertShape(S: Store, I: Shape, root: PageId, c: Caps, p: PageId, i: nat, e: Entry) returns (J: Shape)
    requires Tree(S, I, root, c) && p in S && S[p].Leaf? && Covers(I[p], e.key) && IsKeyIndex(S[p].entries, e.key, i)
    ensures Tree(S, J, root, c) && Admits(J[p], e.key) && Started(S, I, root, c, e.key, LeafInsert(S, p, i, e), J)
  {
    if HasZeroOrder(S, root, c) {
      J :| ZeroTree(S, J, root, c);
      SamePath(S, I, J, root, e.key);
      SameSearch(S, I, J, root, p);
      if NoGapOnPath(S, I, e.key) {
        AdmitsIff(S, J, root, p, e.key);
        if NeverGap(S, I) {
          NeverGapIff(S, I, J, root);
        }
      } else {
        InsertUndercuts(S, J, root, p, i, e);
        LoosenOrdered(S, J, root);
        J := Loosen(J);
      }
    } else {
      J := I;
      assert !ZeroTree(S, I, root, c);
      OneOrder(S, I, root, p);
      assert PageOk(S, I, p);
    }
  }

  /** No key at all is in a gap. */
  ghost predicate NeverGap(S: Store, I: Shape) {
    forall key :: NoGapOnPath(S, I, key)
  }

  lemma NeverGapIff(S: Store, I: Shape, J: Shape, root: PageId)
    requires Ordered(S, I, root) && ZeroOrdered(S, J, root)
    ensures NeverGap(S, I) <==> Tight(J)
  {
    TightIff(S, J, root);
    forall key ensures NoGapOnPath(S, I, key) <==> NoGapOnPath(S, J, key) {
      SamePath(S, I, J, root, key);
    }
  }

  /** What the shape `J` says when the entry has been put into its leaf, which made `S` into `S1`. */
  ghost predicate Started(S: Store, I: Shape, root: PageId, c: Caps, key: Key, S1: Store, J: Shape) {
    HasZeroOrder(S, root, c) ==>
      && root in J
      && (NoGapOnPath(S, I, key) ==> J[root].zero)
      && (!NoGapOnPath(S, I, key) ==> SomeUndercut(S1, J))
      && (NeverGap(S, I) ==> Tight(J))
  }

  /** The key-zero order survives an insertion exactly when the key is not in a gap; where no key is, none will be. */
  lemma InsertOutcome(S: Store, I: Shape, root: PageId, c: Caps, key: Key, S1: Store, J: Shape, S2: Store, I2: Shape,
        root2: PageId)
    requires Tree(S, I, root, c) && Started(S, I, root, c, key, S1, J)
    requires Tree(S2, I2, root2, c) && Carried(S1, J, root, S2, I2, root2)
    ensures HasZeroOrder(S, root, c) ==> (HasZeroOrder(S2, root2, c) <==> NoGapOnPath(S, I, key))
    ensures HasZeroOrder(S, root, c) && NeverGap(S, I) ==> HasZeroOrder(S2, root2, c) && NeverGap(S2, I2)
  {
    if HasZeroOrder(S, root, c) {
      if NoGapOnPath(S, I, key) {
        assert ZeroTree(S2, I2, root2, c);
        if NeverGap(S, I) {
          NeverGapIff(S2, I2, I2, root2);
        }
      } else if HasZeroOrder(S2, root2, c) {
        var K :| ZeroTree(S2, K, root2, c);
        NoUndercut(S2, I2, root2, K);
      }
    }
  }

  // ----- what goes wrong at a merge

  /** Once `n` is merged into `l`, searches for a key below the one at position 0 of `n` stay in `l`. */
  lemma MergeMisroutes(l: seq<Slot>, n: seq<Slot>, sep: Key, key: Key, i: nat, j: nat)
    requires |l| > 0 && |n| > 1 && SortedSlots(l) && SortedSlots(n) && n[0].key < n[1].key
    requires forall k | 1 <= k < |l| :: l[k].key < sep
    requires sep <= key < n[0].key
    requires IsRoute(n, key, i) && IsRoute(l + n, key, j)
    ensures i == 0 && j == |l| - 1
  {
    var all := l + n;
    assert forall k | 1 <= k < |n| :: n[1].key <= n[k].key;
    assert forall k | 0 <= k < |l| :: all[k] == l[k];
    assert forall k | 0 <= k < |n| :: all[|l| + k] == n[k];
  }
}
