/**
 The page-store changes a removal makes, and what each of them keeps.
 */
module BPlusTreeRemove {
  import opened Basics
  import opened BPlusTreeNodes
  import opened BPlusTreeInvariant
  import opened BPlusTreeSeparators

  // ----- an entry leaves its leaf

  function LeafRemove(S: Store, p: PageId, i: nat): Store
    requires p in S && S[p].Leaf? && i < |S[p].entries|
  {
    S[p := S[p].(entries := RemoveAt(S[p].entries, i))]
  }

  lemma RemoveAtMembers(entries: seq<Entry>, i: nat, e: Entry)
    requires SortedEntries(entries) && i < |entries|
    ensures e in RemoveAt(entries, i) <==> e in entries && e.key != entries[i].key
  {
    var less := RemoveAt(entries, i);
    if e in entries && e.key != entries[i].key {
      var k :| 0 <= k < |entries| && entries[k] == e;
      assert less[if k < i then k else k - 1] == e;
    }
    if e in less {
      var k :| 0 <= k < |less| && less[k] == e;
      assert entries[if k < i then k else k + 1] == e;
    }
  }

  lemma LeafRemoveEntries(S: Store, I: Shape, root: PageId, p: PageId, i: nat)
    requires Ordered(S, I, root) && p in S && S[p].Leaf? && i < |S[p].entries|
    ensures forall f :: Has(LeafRemove(S, p, i), f) <==> Has(S, f) && f.key != S[p].entries[i].key
  {
    var S' := LeafRemove(S, p, i);
    var e := S[p].entries[i];
    assert PageOk(S, I, p);
    forall f ensures Has(S', f) <==> Has(S, f) && f.key != e.key {
      RemoveAtMembers(S[p].entries, i, f);
      if Has(S', f) {
        var x :| x in S' && S'[x].Leaf? && f in S'[x].entries;
        assert f in S[x].entries;
        if f.key == e.key {
          assert Has(S, e);
          OneEntryPerKey(S, I, root, e, f);
          assert PageOk(S, I, x);
          UniqueAtLevel(S, I, root, x, p, e.key);
        }
      }
      if Has(S, f) && f.key != e.key {
        var x :| x in S && S[x].Leaf? && f in S[x].entries;
        assert f in S'[x].entries;
      }
    }
  }

  lemma LeafRemoveOrdered(S: Store, I: Shape, root: PageId, p: PageId, i: nat)
    requires Ordered(S, I, root) && p in S && S[p].Leaf? && i < |S[p].entries|
    ensures Ordered(LeafRemove(S, p, i), I, root)
  {
    var S' := LeafRemove(S, p, i);
    forall x | x in S' ensures PageOk(S', I, x) && LinkOk(S', root, x) && I[x].level <= I[root].level {
      assert PageOk(S, I, x) && LinkOk(S, root, x);
      if x != p {
        PageKept(S, I, S', I, x);
      }
    }
  }

  // ----- the keys above a leaf follow its first key

  ghost function KeyShape(S: Store, I: Shape, q: PageId, i: nat, k: Key): Shape
    requires q in S && S[q].Internal? && i < |S[q].slots| && q in I && S[q].slots[i].child in I
  {
    if i == 0 then KeyZeroShape(S, I, q, k) else SeparatorShape(S, I, q, i, k)
  }

  /** The key beside a child may be raised to any key that nothing below the child is smaller than. */
  lemma SetKeyOrdered(S: Store, I: Shape, root: PageId, q: PageId, i: nat, k: Key)
    requires Ordered(S, I, root) && q in S && S[q].Internal? && i < |S[q].slots|
    requires var d := S[q].slots[i].child;
      d in S && d in I && (I[d].top || k < I[d].hi) && (I[d].off ==> I[d].dlo <= k && Clear(S, I, d, k))
    ensures Ordered(SetKey(S, q, i, k), KeyShape(S, I, q, i, k), root)
    ensures forall e :: Has(S, e) <==> Has(SetKey(S, q, i, k), e)
  {
    assert PageOk(S, I, q) && ChildOk(S, I, q, i);
    OneOrder(S, I, root, q);
    if i == 0 {
      SetKeyZero(S, I, root, q, k);
    } else {
      SetSeparator(S, I, root, q, i, k);
    }
    SetKeyEntries(S, q, i, k);
  }

  /** A leaf may start at its first key. */
  lemma LeafClear(S: Store, I: Shape, root: PageId, p: PageId)
    requires Ordered(S, I, root) && p in S && S[p].Leaf? && I[p].off && |S[p].entries| > 0
    ensures Clear(S, I, p, S[p].FirstKey())
  {
    assert PageOk(S, I, p);
    IntervalProper(S, I, root, p);
    forall x | OnSpine(S, I, p, x) ensures x == p {
      IntervalProper(S, I, root, x);
      UniqueAtLevel(S, I, root, x, p, I[p].rlo);
    }
  }

  /** So may the page that it is the first child of. */
  lemma FirstChildClear(S: Store, I: Shape, root: PageId, r: PageId, p: PageId)
    requires Ordered(S, I, root) && r in S && S[r].Internal? && |S[r].slots| > 0 && I[r].off
    requires p == S[r].slots[0].child && p in S && S[p].Leaf? && |S[p].entries| > 0
    requires S[r].slots[0].key == S[p].FirstKey()
    ensures Clear(S, I, r, S[p].FirstKey())
  {
    assert PageOk(S, I, r) && PageOk(S, I, p);
    assert ChildOk(S, I, r, 0);
    assert Admits(I[p], S[p].entries[0].key);
    IntervalProper(S, I, root, p);
    IntervalProper(S, I, root, r);
    forall x | OnSpine(S, I, r, x) ensures x == r || x == p {
      IntervalProper(S, I, root, x);
      UniqueAtLevel(S, I, root, x, if I[x].level == I[r].level then r else p, I[r].rlo);
    }
  }

  /** The first key of leaf `p` is copied beside it in its parent. */
  lemma RefreshParent(S: Store, I: Shape, root: PageId, p: PageId, i: nat)
    requires Ordered(S, I, root) && p in S && p != root && S[p].Leaf? && |S[p].entries| > 0
    requires var r := S[p].parent; r in S && S[r].Internal? && i < |S[r].slots| && S[r].slots[i].child == p
    ensures var r, k := S[p].parent, S[p].FirstKey();
      var S', I' := SetKey(S, r, i, k), KeyShape(S, I, r, i, k);
      && Ordered(S', I', root) && I'[r] == I[r]
      && (I[r].off ==> I[r].dlo <= k) && (I[r].top || k < I[r].hi)
      && forall e :: Has(S, e) <==> Has(S', e)
  {
    var r, k := S[p].parent, S[p].FirstKey();
    assert PageOk(S, I, p) && PageOk(S, I, r) && ChildOk(S, I, r, i);
    assert Admits(I[p], k);
    if I[p].off {
      LeafClear(S, I, root, p);
    }
    SetKeyOrdered(S, I, root, r, i, k);
    assert forall j | 1 <= j < |S[r].slots| :: Admits(I[r], S[r].slots[j].key);
  }

  /** The key at position 0 of page `r` is copied beside it in its parent, once it is the first key of its first
      child, the leaf `p`. */
  lemma RefreshGrandparent(S: Store, I: Shape, root: PageId, r: PageId, p: PageId, j: nat)
    requires Ordered(S, I, root) && r in S && r != root && S[r].Internal? && |S[r].slots| > 0
    requires p == S[r].slots[0].child && p in S && S[p].Leaf? && |S[p].entries| > 0
    requires S[r].slots[0].key == S[p].FirstKey()
    requires var k := S[r].slots[0].key; (I[r].off ==> I[r].dlo <= k) && (I[r].top || k < I[r].hi)
    requires var g := S[r].parent; g in S && S[g].Internal? && j < |S[g].slots| && S[g].slots[j].child == r
    ensures var g, k := S[r].parent, S[r].slots[0].key;
      var S', I' := SetKey(S, g, j, k), KeyShape(S, I, g, j, k);
      && Ordered(S', I', root)
      && forall e :: Has(S, e) <==> Has(S', e)
  {
    if I[r].off {
      FirstChildClear(S, I, root, r, p);
    }
    SetKeyOrdered(S, I, root, S[r].parent, j, S[r].slots[0].key);
  }

  // ----- neighbouring pages are merged or evened out

  /** `l` and `n` are children `i` and `i + 1` of `r`. */
  ghost predicate Siblings(S: Store, I: Shape, root: PageId, r: PageId, i: nat, l: PageId, n: PageId) {
    && Ordered(S, I, root) && r in S && S[r].Internal? && i + 1 < |S[r].slots|
    && S[r].slots[i].child == l && S[r].slots[i + 1].child == n
  }

  lemma SiblingFacts(S: Store, I: Shape, root: PageId, r: PageId, i: nat, l: PageId, n: PageId)
    requires Siblings(S, I, root, r, i, l, n)
    ensures l in S && n in S && l != n && l != r && n != r && n != root && l != root
    ensures S[l].parent == r && S[n].parent == r && S[l].Leaf? == S[n].Leaf?
    ensures I[l].level == I[n].level && I[l].level + 1 == I[r].level
    ensures I[l] == ChildInfo(I[r], S[r].slots, i) && I[n] == ChildInfo(I[r], S[r].slots, i + 1)
    ensures !I[l].top && I[n].off && I[l].hi == I[n].rlo == I[n].dlo == S[r].slots[i + 1].key
    ensures I[l].off ==> I[l].rlo < I[l].hi
    ensures !I[n].top ==> I[n].rlo < I[n].hi
    ensures PageOk(S, I, l) && PageOk(S, I, n) && PageOk(S, I, r)
  {
    assert PageOk(S, I, r) && ChildOk(S, I, r, i) && ChildOk(S, I, r, i + 1);
    assert PageOk(S, I, l) && PageOk(S, I, n);
    assert LinkOk(S, root, root);
    IntervalProper(S, I, root, l);
    IntervalProper(S, I, root, n);
  }

  /** Nothing changed but the pages `l`, `n` and `r`, and the parents of children that went from one of the first two
      to the other. */
  ghost predicate OthersKept(S: Store, S': Store, l: PageId, n: PageId, r: PageId) {
    forall x | x in S && x != l && x != n && x != r ::
      && x in S' && S'[x] == S[x].(parent := S'[x].parent)
      && (S'[x].parent == S[x].parent || (S[x].parent in {l, n} && S'[x].parent in {l, n}))
  }

  /** Only `l` comes before leaf `n` in the chain. */
  lemma PreviousLeaf(S: Store, I: Shape, root: PageId, r: PageId, i: nat, l: PageId, n: PageId, x: PageId)
    requires Siblings(S, I, root, r, i, l, n) && x in S && S[x].Leaf? && !I[x].top
    requires S[x].next == n && l in S && S[l].Leaf?
    ensures x == l
  {
    SiblingFacts(S, I, root, r, i, l, n);
    assert PageOk(S, I, x);
    IntervalProper(S, I, root, x);
    UniqueAtLevel(S, I, root, x, l, I[l].hi - 1);
  }

  lemma NextLeaf(S: Store, I: Shape, root: PageId, r: PageId, i: nat, l: PageId, n: PageId)
    requires Siblings(S, I, root, r, i, l, n) && l in S && S[l].Leaf?
    ensures S[l].next == n
  {
    SiblingFacts(S, I, root, r, i, l, n);
    var x := S[l].next;
    assert PageOk(S, I, x);
    IntervalProper(S, I, root, x);
    UniqueAtLevel(S, I, root, x, n, I[n].rlo);
  }

  // ----- evening out: pairs move between `l` and `n`, and the separator between them becomes `s`

  ghost function EvenShape(I: Shape, l: PageId, n: PageId, s: Key): Shape
    requires l in I && n in I
  {
    I[l := I[l].(hi := s)][n := I[n].(rlo := s, dlo := s)]
  }

  lemma EvenChild(S: Store, I: Shape, root: PageId, r: PageId, i: nat, l: PageId, n: PageId, s: Key, S': Store, j: nat)
    requires Siblings(S, I, root, r, i, l, n) && S'.Keys == S.Keys && OthersKept(S, S', l, n, r)
    requires S'[r] == S[r].(slots := S[r].slots[i + 1 := Slot(s, n)])
    requires l in S && n in S && S'[l].parent == r && S'[n].parent == r
    requires j < |S[r].slots|
    ensures l in I && n in I && r in EvenShape(I, l, n, s) && EvenShape(I, l, n, s)[r] == I[r] && I[r].level > 0
    ensures ChildOk(S', EvenShape(I, l, n, s), r, j)
  {
    SiblingFacts(S, I, root, r, i, l, n);
    assert ChildOk(S, I, r, j);
    if j < i {
      assert S[r].slots[j + 1].key != S[r].slots[i + 1].key;
    }
  }

  lemma EvenParent(S: Store, I: Shape, root: PageId, r: PageId, i: nat, l: PageId, n: PageId, s: Key, S': Store)
    requires Siblings(S, I, root, r, i, l, n) && S'.Keys == S.Keys && OthersKept(S, S', l, n, r)
    requires S'[r] == S[r].(slots := S[r].slots[i + 1 := Slot(s, n)])
    requires l in S && n in S && S'[l].parent == r && S'[n].parent == r
    requires (I[l].off ==> I[l].dlo < s) && (I[n].top || s < I[n].hi)
    ensures PageOk(S', EvenShape(I, l, n, s), r)
  {
    SiblingFacts(S, I, root, r, i, l, n);
    var slots := S[r].slots;
    forall j | 0 <= j < |slots| ensures ChildOk(S', EvenShape(I, l, n, s), r, j) {
      EvenChild(S, I, root, r, i, l, n, s, S', j);
    }
    SeparatorKeys(I[r], slots, i + 1, s);
  }

  lemma EvenOther(S: Store, I: Shape, root: PageId, r: PageId, i: nat, l: PageId, n: PageId, s: Key, S': Store,
        x: PageId)
    requires Siblings(S, I, root, r, i, l, n) && S'.Keys == S.Keys && OthersKept(S, S', l, n, r)
    requires l in S && n in S && S'[l].Leaf? == S[l].Leaf? && S'[n].Leaf? == S[n].Leaf?
    requires S'[r].parent == S[r].parent && x in S && x != l && x != n && x != r
    ensures PageOk(S', EvenShape(I, l, n, s), x)
  {
    SiblingFacts(S, I, root, r, i, l, n);
    assert PageOk(S, I, x);
    if S[x].Leaf? && !I[x].top && S[x].next == n {
      PreviousLeaf(S, I, root, r, i, l, n, x);
    }
    PageKept(S, I, S', EvenShape(I, l, n, s), x);
  }

  lemma EvenLink(S: Store, I: Shape, root: PageId, r: PageId, i: nat, l: PageId, n: PageId, s: Key, S': Store,
        x: PageId)
    requires Siblings(S, I, root, r, i, l, n) && S'.Keys == S.Keys && OthersKept(S, S', l, n, r)
    requires S'[r] == S[r].(slots := S[r].slots[i + 1 := Slot(s, n)])
    requires l in S && n in S && S'[l].parent == r && S'[n].parent == r && S'[l].Leaf? == S[l].Leaf?
    requires S[l].Internal? ==> forall y | y in S && S[y].parent in {l, n} :: LinkOk(S', root, y)
    requires x in S
    ensures LinkOk(S', root, x)
  {
    hide PageOk;
    SiblingFacts(S, I, root, r, i, l, n);
    assert LinkOk(S, root, x);
    SetKeyLinks(S, root, r, i + 1, s, x);
  }

  lemma EvenStep(S: Store, I: Shape, root: PageId, r: PageId, i: nat, l: PageId, n: PageId, s: Key, S': Store)
    requires Siblings(S, I, root, r, i, l, n) && S'.Keys == S.Keys && OthersKept(S, S', l, n, r)
    requires S'[r] == S[r].(slots := S[r].slots[i + 1 := Slot(s, n)])
    requires l in S && n in S && S'[l].parent == r && S'[n].parent == r && S'[l].Leaf? == S[l].Leaf?
        && S'[n].Leaf? == S[n].Leaf?
    requires (I[l].off ==> I[l].dlo < s) && (I[n].top || s < I[n].hi)
    requires PageOk(S', EvenShape(I, l, n, s), l) && PageOk(S', EvenShape(I, l, n, s), n)
    requires S[l].Internal? ==> forall y | y in S && S[y].parent in {l, n} :: LinkOk(S', root, y)
    ensures Ordered(S', EvenShape(I, l, n, s), root)
  {
    hide PageOk;
    SiblingFacts(S, I, root, r, i, l, n);
    var I' := EvenShape(I, l, n, s);
    EvenParent(S, I, root, r, i, l, n, s, S');
    forall x | x in S' ensures PageOk(S', I', x) && LinkOk(S', root, x) && I'[x].level <= I'[root].level {
      EvenLink(S, I, root, r, i, l, n, s, S', x);
      if x != l && x != n && x != r {
        EvenOther(S, I, root, r, i, l, n, s, S', x);
      }
      assert PageOk(S, I, x);
    }
  }

  /** Leaves `l` and `n` hold `L` and `N` afterwards, and the separator is the first key of `N`. */
  function LeafEven(S: Store, r: PageId, i: nat, l: PageId, n: PageId, L: seq<Entry>, N: seq<Entry>): Store
    requires l in S && n in S && r in S && S[l].Leaf? && S[n].Leaf? && S[r].Internal? && i + 1 < |S[r].slots| && |N| > 0
    requires r != l && r != n
  {
    SetKey(S[l := S[l].(entries := L)][n := S[n].(entries := N)], r, i + 1, N[0].key)
  }

  lemma SortedTogether(l: seq<Entry>, n: seq<Entry>, b: Key)
    requires SortedEntries(l) && SortedEntries(n)
    requires (forall k | 0 <= k < |l| :: l[k].key < b) && (forall k | 0 <= k < |n| :: b <= n[k].key)
    ensures SortedEntries(l + n)
  {
  }

  lemma SortedApart(all: seq<Entry>, L: seq<Entry>, N: seq<Entry>)
    requires SortedEntries(all) && all == L + N
    ensures SortedEntries(L) && SortedEntries(N)
    ensures |N| > 0 ==> forall k | 0 <= k < |L| :: L[k].key < N[0].key
  {
    assert forall k | 0 <= k < |L| :: L[k] == all[k];
    assert forall k | 0 <= k < |N| :: N[k] == all[|L| + k];
  }

  lemma PairEntries(S: Store, S': Store, l: PageId, n: PageId)
    requires l in S && n in S && S[l].Leaf? && S[n].Leaf? && S'.Keys == S.Keys && S'[l].Leaf? && S'[n].Leaf?
    requires S'[l].entries + S'[n].entries == S[l].entries + S[n].entries
    requires forall x | x in S && x != l && x != n ::
      S'[x].Leaf? == S[x].Leaf? && (S[x].Leaf? ==> S'[x].entries == S[x].entries)
    ensures forall e :: Has(S, e) <==> Has(S', e)
  {
    var all := S[l].entries + S[n].entries;
    forall e ensures Has(S, e) <==> Has(S', e) {
      assert e in all <==> e in S[l].entries || e in S[n].entries;
      assert e in all <==> e in S'[l].entries || e in S'[n].entries;
      if Has(S, e) {
        var x :| x in S && S[x].Leaf? && e in S[x].entries;
        assert e in S'[x].entries || e in all;
      }
      if Has(S', e) {
        var x :| x in S' && S'[x].Leaf? && e in S'[x].entries;
        assert e in S[x].entries || e in all;
      }
    }
  }

  lemma LeafEvenStep(S: Store, I: Shape, root: PageId, r: PageId, i: nat, l: PageId, n: PageId, L: seq<Entry>,
        N: seq<Entry>)
    requires Siblings(S, I, root, r, i, l, n) && l in S && n in S && S[l].Leaf? && S[n].Leaf? && l != r && n != r
    requires L + N == S[l].entries + S[n].entries && |L| > 0 && |N| > 0
    ensures var S' := LeafEven(S, r, i, l, n, L, N);
      Ordered(S', EvenShape(I, l, n, N[0].key), root) && forall e :: Has(S, e) <==> Has(S', e)
  {
    hide ChildOk, LinkOk;
    SiblingFacts(S, I, root, r, i, l, n);
    var S' := LeafEven(S, r, i, l, n, L, N);
    var I' := EvenShape(I, l, n, N[0].key);
    var all := S[l].entries + S[n].entries;
    SortedTogether(S[l].entries, S[n].entries, I[n].rlo);
    SortedApart(all, L, N);
    forall k | 0 <= k < |all| ensures (I[l].off ==> I[l].dlo <= all[k].key) && (I[n].top || all[k].key < I[n].hi) {
      if k < |S[l].entries| {
        assert Admits(I[l], S[l].entries[k].key);
      } else {
        assert Admits(I[n], S[n].entries[k - |S[l].entries|].key);
      }
    }
    assert forall k | 0 <= k < |L| :: L[k] == all[k];
    assert forall k | 0 <= k < |N| :: N[k] == all[|L| + k];
    assert I[l].off ==> I[l].dlo <= L[0].key < N[0].key;
    NextLeaf(S, I, root, r, i, l, n);
    assert PageOk(S', I', l);
    assert ChainOk(S', I', n);
    EvenStep(S, I, root, r, i, l, n, N[0].key, S');
    PairEntries(S, S', l, n);
  }

  /** Internal pages `l` and `n` end up with the children in `L` and `N`; those that moved have the other page as
      parent. */
  ghost predicate KidsDealt(S: Store, S': Store, l: PageId, n: PageId, L: seq<Slot>, N: seq<Slot>) {
    && l in S && n in S && S[l].Internal? && S[n].Internal?
    && L + N == S[l].slots + S[n].slots
    && l in S' && n in S' && S'[l] == S[l].(slots := L) && S'[n] == S[n].(slots := N)
    && (forall k | 0 <= k < |L| :: L[k].child in S' && S'[L[k].child].parent == l)
    && (forall k | 0 <= k < |N| :: N[k].child in S' && S'[N[k].child].parent == n)
  }

  /** The same, and nothing else changed but the separator between `l` and `n`. */
  ghost predicate EvenDealt(S: Store, S': Store, r: PageId, i: nat, l: PageId, n: PageId, L: seq<Slot>, N: seq<Slot>) {
    && KidsDealt(S, S', l, n, L, N) && |L| > 0 && |N| > 0
    && S'.Keys == S.Keys && OthersKept(S, S', l, n, r)
    && r in S && S[r].Internal? && i + 1 < |S[r].slots|
    && S'[r] == S[r].(slots := S[r].slots[i + 1 := Slot(N[0].key, n)])
  }

  lemma DealtLinks(S: Store, I: Shape, root: PageId, l: PageId, n: PageId, L: seq<Slot>, N: seq<Slot>, S': Store,
        y: PageId)
    requires Ordered(S, I, root) && KidsDealt(S, S', l, n, L, N) && y in S && y in S' && S[y].parent in {l, n}
    ensures LinkOk(S', root, y)
  {
    var all := S[l].slots + S[n].slots;
    assert LinkOk(S, root, root) && LinkOk(S, root, y);
    var h := S[y].parent;
    var k :| 0 <= k < |S[h].slots| && S[h].slots[k].child == y;
    var m := if h == l then k else |S[l].slots| + k;
    assert all[m].child == y;
    if m < |L| {
      assert L[m] == all[m];
      assert S'[l].slots[m].child == y;
    } else {
      assert N[m - |L|] == all[m];
      assert S'[n].slots[m - |L|].child == y;
    }
  }

  /** The separators and intervals around the children of two siblings do not depend on how the children are dealt
      out. */
  lemma DealtInfo(S: Store, I: Shape, root: PageId, r: PageId, i: nat, l: PageId, n: PageId, k: nat)
    requires Siblings(S, I, root, r, i, l, n) && l in S && n in S && S[l].Internal? && S[n].Internal?
    requires |S[n].slots| > 0 && S[n].slots[0].key == S[r].slots[i + 1].key
    requires k < |S[l].slots + S[n].slots|
    ensures I[l].level > 0
    ensures var all := S[l].slots + S[n].slots;
      var c := all[k].child;
      c in S && c in I && I[c] == ChildInfo(I[l].(top := I[n].top, hi := I[n].hi), all, k)
  {
    SiblingFacts(S, I, root, r, i, l, n);
    var m := |S[l].slots|;
    if k < m {
      assert ChildOk(S, I, l, k);
    } else {
      assert ChildOk(S, I, n, k - m);
    }
  }

  lemma DealtKeys(S: Store, I: Shape, root: PageId, r: PageId, i: nat, l: PageId, n: PageId)
    requires Siblings(S, I, root, r, i, l, n) && l in S && n in S && S[l].Internal? && S[n].Internal?
    requires |S[n].slots| > 0 && S[n].slots[0].key == S[r].slots[i + 1].key
    ensures KeysOk(S[l].slots + S[n].slots, I[l].(top := I[n].top, hi := I[n].hi))
  {
    SiblingFacts(S, I, root, r, i, l, n);
    var m := |S[l].slots|;
    var all := S[l].slots + S[n].slots;
    var b := S[n].slots[0].key;
    assert forall k | 1 <= k < m :: all[k] == S[l].slots[k] && Admits(I[l], all[k].key);
    assert forall k | m < k < |all| :: all[k] == S[n].slots[k - m] && Admits(I[n], all[k].key) && b < all[k].key;
    assert Admits(I[n], b);
    assert I[l].off && I[l].zero ==> Admits(I[l], S[l].slots[0].key);
  }

  lemma EvenHalves(S: Store, I: Shape, root: PageId, r: PageId, i: nat, l: PageId, n: PageId, L: seq<Slot>,
        N: seq<Slot>, S': Store)
    requires Siblings(S, I, root, r, i, l, n) && KidsDealt(S, S', l, n, L, N) && |L| > 0 && |N| > 0
    requires S'.Keys == S.Keys
    requires |S[n].slots| > 0 && S[n].slots[0].key == S[r].slots[i + 1].key
    ensures PageOk(S', EvenShape(I, l, n, N[0].key), l) && PageOk(S', EvenShape(I, l, n, N[0].key), n)
    ensures (I[l].off ==> I[l].dlo < N[0].key) && (I[n].top || N[0].key < I[n].hi)
  {
    hide LinkOk, ChainOk;
    SiblingFacts(S, I, root, r, i, l, n);
    DealtKeys(S, I, root, r, i, l, n);
    var I' := EvenShape(I, l, n, N[0].key);
    var info := I[l].(top := I[n].top, hi := I[n].hi);
    var all := S[l].slots + S[n].slots;
    var m := |L|;
    KeysApart(info, all, L, N);
    forall k | 0 <= k < m ensures ChildOk(S', I', l, k) {
      DealtInfo(S, I, root, r, i, l, n, k);
      assert all[k] == L[k];
    }
    forall k | 0 <= k < |N| ensures ChildOk(S', I', n, k) {
      DealtInfo(S, I, root, r, i, l, n, m + k);
      assert all[m + k] == N[k];
    }
  }

  /** The children of internal pages `l` and `n` are dealt out anew, and the separator is the first key of `N`. */
  lemma InternalEvenStep(S: Store, I: Shape, root: PageId, r: PageId, i: nat, l: PageId, n: PageId, L: seq<Slot>,
        N: seq<Slot>, S': Store)
    requires Siblings(S, I, root, r, i, l, n) && EvenDealt(S, S', r, i, l, n, L, N)
    requires |S[n].slots| > 0 && S[n].slots[0].key == S[r].slots[i + 1].key
    ensures Ordered(S', EvenShape(I, l, n, N[0].key), root) && forall e :: Has(S, e) <==> Has(S', e)
  {
    SiblingFacts(S, I, root, r, i, l, n);
    EvenHalves(S, I, root, r, i, l, n, L, N, S');
    forall y | y in S && S[y].parent in {l, n} ensures LinkOk(S', root, y) {
      DealtLinks(S, I, root, l, n, L, N, S', y);
    }
    EvenStep(S, I, root, r, i, l, n, N[0].key, S');
    SameLeaves(S, S');
  }

  // ----- merging: all pairs of `n` move to `l`, and `n` goes away

  ghost function MergeShape(I: Shape, l: PageId, n: PageId): Shape
    requires l in I && n in I
  {
    (I - {n})[l := I[l].(top := I[n].top, hi := I[n].hi)]
  }

  lemma SiblingPlace(S: Store, I: Shape, root: PageId, r: PageId, i: nat, l: PageId, n: PageId, k: nat)
    requires Siblings(S, I, root, r, i, l, n) && k < |S[r].slots|
    ensures S[r].slots[k].child == l ==> k == i
    ensures S[r].slots[k].child == n ==> k == i + 1
  {
    SiblingFacts(S, I, root, r, i, l, n);
    assert ChildOk(S, I, r, k);
  }

  lemma KeysWithout(slots: seq<Slot>, info: Info, k: nat)
    requires KeysOk(slots, info) && 1 <= k < |slots|
    ensures KeysOk(RemoveAt(slots, k), info)
  {
    var less := RemoveAt(slots, k);
    assert forall j | 0 <= j < |less| :: less[j] == slots[if j < k then j else j + 1];
  }

  /** The interval of a child once the slot after position `i` is gone. */
  lemma InfoWithout(slots: seq<Slot>, info: Info, i: nat, j: nat)
    requires KeysOk(slots, info) && info.level > 0 && i + 1 < |slots| && j < |slots| - 1
    ensures var less := RemoveAt(slots, i + 1);
      var k := if j <= i then j else j + 1;
      var before, after := ChildInfo(info, slots, i), ChildInfo(info, slots, i + 1);
      && less[j] == slots[k]
      && ChildInfo(info, less, j) ==
           if j == i then before.(top := after.top, hi := after.hi) else ChildInfo(info, slots, k)
  {
  }

  lemma MergeParent(S: Store, I: Shape, root: PageId, r: PageId, i: nat, l: PageId, n: PageId, S': Store)
    requires Siblings(S, I, root, r, i, l, n) && l in S && n in S && S'.Keys == S.Keys - {n} && l != n && r != n
        && r in S'
    requires OthersKept(S, S', l, n, r)
    requires S'[r] == S[r].(slots := RemoveAt(S[r].slots, i + 1)) && S'[l].parent == r
    ensures PageOk(S', MergeShape(I, l, n), r)
  {
    SiblingFacts(S, I, root, r, i, l, n);
    var I' := MergeShape(I, l, n);
    var slots := S[r].slots;
    KeysWithout(slots, I[r], i + 1);
    forall j | 0 <= j < |slots| - 1 ensures ChildOk(S', I', r, j) {
      var k := if j <= i then j else j + 1;
      assert ChildOk(S, I, r, k);
      InfoWithout(slots, I[r], i, j);
      if slots[k].child in {l, n} {
        SiblingPlace(S, I, root, r, i, l, n, k);
      }
    }
  }

  lemma MergeOther(S: Store, I: Shape, root: PageId, r: PageId, i: nat, l: PageId, n: PageId, S': Store, x: PageId)
    requires Siblings(S, I, root, r, i, l, n) && l in S && n in S && S'.Keys == S.Keys - {n} && l != n && r != n
    requires OthersKept(S, S', l, n, r) && S'[l].Leaf? == S[l].Leaf? && S'[r].parent == S[r].parent
    requires x in S && x != l && x != n && x != r
    ensures PageOk(S', MergeShape(I, l, n), x)
  {
    SiblingFacts(S, I, root, r, i, l, n);
    assert PageOk(S, I, x);
    if S[x].Leaf? && !I[x].top && S[x].next == n {
      PreviousLeaf(S, I, root, r, i, l, n, x);
    }
    PageKept(S, I, S', MergeShape(I, l, n), x);
  }

  lemma MergeLink(S: Store, I: Shape, root: PageId, r: PageId, i: nat, l: PageId, n: PageId, S': Store, x: PageId)
    requires Siblings(S, I, root, r, i, l, n) && l in S && n in S && S'.Keys == S.Keys - {n} && l != n && r != n
    requires OthersKept(S, S', l, n, r)
    requires S'[r] == S[r].(slots := RemoveAt(S[r].slots, i + 1)) && S'[l].parent == r && S'[l].Leaf? == S[l].Leaf?
    requires S[l].Internal? ==> forall y | y in S' && S[y].parent in {l, n} :: LinkOk(S', root, y)
    requires x in S'
    ensures LinkOk(S', root, x)
  {
    SiblingFacts(S, I, root, r, i, l, n);
    assert LinkOk(S, root, x);
    var slots, less := S[r].slots, S'[r].slots;
    if x != root && S[x].parent == r {
      var k :| 0 <= k < |slots| && slots[k].child == x;
      assert less[if k <= i then k else k - 1] == slots[k];
    }
  }

  lemma MergeStep(S: Store, I: Shape, root: PageId, r: PageId, i: nat, l: PageId, n: PageId, S': Store)
    requires Siblings(S, I, root, r, i, l, n) && l in S && n in S && S'.Keys == S.Keys - {n} && l != n && r != n
    requires OthersKept(S, S', l, n, r)
    requires S'[r] == S[r].(slots := RemoveAt(S[r].slots, i + 1)) && S'[l].parent == r && S'[l].Leaf? == S[l].Leaf?
    requires PageOk(S', MergeShape(I, l, n), l)
    requires S[l].Internal? ==> forall y | y in S' && S[y].parent in {l, n} :: LinkOk(S', root, y)
    ensures Ordered(S', MergeShape(I, l, n), root)
  {
    SiblingFacts(S, I, root, r, i, l, n);
    var I' := MergeShape(I, l, n);
    MergeParent(S, I, root, r, i, l, n, S');
    forall x | x in S' ensures PageOk(S', I', x) && LinkOk(S', root, x) && I'[x].level <= I'[root].level {
      assert PageOk(S, I, x);
      MergeLink(S, I, root, r, i, l, n, S', x);
      if x != l && x != r {
        MergeOther(S, I, root, r, i, l, n, S', x);
      }
    }
  }

  function DropSlot(S: Store, r: PageId, k: nat): Store
    requires r in S && S[r].Internal? && k < |S[r].slots|
  {
    S[r := S[r].(slots := RemoveAt(S[r].slots, k))]
  }

  /** What `LeafPage::MoveAllTo` and the parent's `Remove` leave; the emptied page is deleted. */
  function LeafMerge(S: Store, r: PageId, i: nat, l: PageId, n: PageId): Store
    requires l in S && n in S && r in S && S[l].Leaf? && S[n].Leaf? && S[r].Internal? && i + 1 < |S[r].slots|
    requires r != l && r != n && l != n
  {
    DropSlot(S[l := Leaf(S[l].parent, S[n].next, S[l].entries + S[n].entries)] - {n}, r, i + 1)
  }

  lemma LeafMergeStep(S: Store, I: Shape, root: PageId, r: PageId, i: nat, l: PageId, n: PageId)
    requires Siblings(S, I, root, r, i, l, n) && l in S && n in S && S[l].Leaf? && S[n].Leaf? && l != r && n != r
        && l != n
    ensures var S' := LeafMerge(S, r, i, l, n);
      Ordered(S', MergeShape(I, l, n), root) && forall e :: Has(S, e) <==> Has(S', e)
  {
    hide ChildOk, LinkOk;
    SiblingFacts(S, I, root, r, i, l, n);
    var S' := LeafMerge(S, r, i, l, n);
    var I' := MergeShape(I, l, n);
    var all := S[l].entries + S[n].entries;
    SortedTogether(S[l].entries, S[n].entries, I[n].rlo);
    forall k | 0 <= k < |all| ensures Admits(I'[l], all[k].key) {
      if k < |S[l].entries| {
        assert Admits(I[l], S[l].entries[k].key);
      } else {
        assert Admits(I[n], S[n].entries[k - |S[l].entries|].key);
      }
    }
    assert PageOk(S, I, n);
    if !I[n].top {
      PreviousLeafNotSelf(S, I, root, n);
    }
    assert ChainOk(S', I', l);
    MergeStep(S, I, root, r, i, l, n, S');
    forall e ensures Has(S, e) <==> Has(S', e) {
      assert e in all <==> e in S[l].entries || e in S[n].entries;
      if Has(S, e) {
        var x :| x in S && S[x].Leaf? && e in S[x].entries;
        assert e in S'[if x == n then l else x].entries;
      }
      if Has(S', e) {
        var x :| x in S' && S'[x].Leaf? && e in S'[x].entries;
        assert e in S[x].entries || e in S[n].entries;
      }
    }
  }

  lemma PreviousLeafNotSelf(S: Store, I: Shape, root: PageId, n: PageId)
    requires Ordered(S, I, root) && n in S && S[n].Leaf? && !I[n].top
    ensures S[n].next != n
  {
    assert PageOk(S, I, n);
    IntervalProper(S, I, root, n);
  }

  /** All children of `n` are now behind those of `l`, and nothing else changed but that `n` is gone. */
  ghost predicate KidsMerged(S: Store, S': Store, r: PageId, i: nat, l: PageId, n: PageId) {
    && l in S && n in S && S[l].Internal? && S[n].Internal? && l != n && r != n
    && S'.Keys == S.Keys - {n} && OthersKept(S, S', l, n, r)
    && r in S && S[r].Internal? && i + 1 < |S[r].slots| && S'[r] == S[r].(slots := RemoveAt(S[r].slots, i + 1))
    && S'[l] == S[l].(slots := S[l].slots + S[n].slots)
    && forall k | 0 <= k < |S'[l].slots| :: var c := S'[l].slots[k].child; c in S' && S'[c].parent == l
  }

  lemma InternalMergeStep(S: Store, I: Shape, root: PageId, r: PageId, i: nat, l: PageId, n: PageId, S': Store)
    requires Siblings(S, I, root, r, i, l, n) && KidsMerged(S, S', r, i, l, n)
    requires |S[n].slots| > 0 && S[n].slots[0].key == S[r].slots[i + 1].key
    ensures Ordered(S', MergeShape(I, l, n), root) && forall e :: Has(S, e) <==> Has(S', e)
  {
    SiblingFacts(S, I, root, r, i, l, n);
    DealtKeys(S, I, root, r, i, l, n);
    var I' := MergeShape(I, l, n);
    var all := S[l].slots + S[n].slots;
    forall k | 0 <= k < |all| ensures ChildOk(S', I', l, k) {
      DealtInfo(S, I, root, r, i, l, n, k);
    }
    forall y | y in S' && S[y].parent in {l, n} ensures LinkOk(S', root, y) {
      assert LinkOk(S, root, y) && LinkOk(S, root, root);
      var h := S[y].parent;
      var k :| 0 <= k < |S[h].slots| && S[h].slots[k].child == y;
      assert all[if h == l then k else |S[l].slots| + k].child == y;
    }
    MergeStep(S, I, root, r, i, l, n, S');
    SameLeaves(S, S');
  }

  // ----- what the code does to two internal siblings

  lemma KidsApart(S: Store, I: Shape, root: PageId, r: PageId, i: nat, l: PageId, n: PageId)
    requires Siblings(S, I, root, r, i, l, n) && l in S && n in S && S[l].Internal? && S[n].Internal?
    ensures var all := S[l].slots + S[n].slots;
      forall k | 0 <= k < |all| ::
        var c := all[k].child;
        && c in S && c != l && c != n && c != r
        && S[c].parent == if k < |S[l].slots| then l else n
  {
    SiblingFacts(S, I, root, r, i, l, n);
    var all := S[l].slots + S[n].slots;
    forall k | 0 <= k < |all|
      ensures var c := all[k].child;
        && c in S && c != l && c != n && c != r
        && S[c].parent == if k < |S[l].slots| then l else n
    {
      if k < |S[l].slots| {
        assert ChildOk(S, I, l, k);
      } else {
        assert ChildOk(S, I, n, k - |S[l].slots|);
      }
    }
  }

  ghost function RaisedShape(S: Store, I: Shape, r: PageId, i: nat, n: PageId): Shape
    requires r in S && S[r].Internal? && i + 1 < |S[r].slots| && r in I && S[r].slots[i + 1].child in I
    requires n in S && S[n].Internal? && |S[n].slots| > 0
  {
    SeparatorShape(S, I, r, i + 1, S[n].slots[0].key)
  }

  /** The key at position 0 of `n` can serve as the separator before `n`. */
  ghost predicate ZeroSeparates(S: Store, I: Shape, root: PageId, r: PageId, i: nat, n: PageId) {
    && n in S && S[n].Internal? && |S[n].slots| > 0
    && CanMove(S, I, root, r, i + 1, S[n].slots[0].key)
  }

  /** The key-zero order says so. */
  lemma KeyZeroSeparates(S: Store, I: Shape, root: PageId, r: PageId, i: nat, l: PageId, n: PageId)
    requires Siblings(S, I, root, r, i, l, n) && I[root].zero && n in S && S[n].Internal?
    ensures ZeroSeparates(S, I, root, r, i, n)
  {
    SiblingFacts(S, I, root, r, i, l, n);
    OneOrder(S, I, root, n);
    assert Admits(I[n], S[n].slots[0].key);
  }

  /** Seen with the separator before `n` moved to the key at position 0 of `n`, the siblings are still siblings. */
  lemma MoveSeparator(S: Store, I: Shape, root: PageId, r: PageId, i: nat, l: PageId, n: PageId)
    requires Siblings(S, I, root, r, i, l, n) && ZeroSeparates(S, I, root, r, i, n)
    ensures r in I && S[r].slots[i + 1].child in I
    ensures Siblings(SetKey(S, r, i + 1, S[n].slots[0].key), RaisedShape(S, I, r, i, n), root, r, i, l, n)
  {
    SiblingFacts(S, I, root, r, i, l, n);
    SetSeparator(S, I, root, r, i + 1, S[n].slots[0].key);
  }

  lemma LowRoom(S: Store, I: Shape, root: PageId, n: PageId)
    requires Ordered(S, I, root) && n in S && S[n].Internal? && |S[n].slots| > 0 && I[n].off
    ensures var d := S[n].slots[0].child;
      && d in S && d in I && (I[n].zero ==> Room(S, d, I[n].dlo))
      && (I[d].top || I[n].dlo < I[d].hi)
  {
    var d := S[n].slots[0].child;
    assert PageOk(S, I, n) && ChildOk(S, I, n, 0);
    assert PageOk(S, I, d);
    IntervalProper(S, I, root, d);
    if S[d].Leaf? {
      assert forall k | 0 <= k < |S[d].entries| :: Admits(I[d], S[d].entries[k].key);
    }
  }

  /** Seen with the key at position 0 of `n` lowered to the separator before `n`, the siblings are still siblings. */
  lemma LowerKeyZero(S: Store, I: Shape, root: PageId, r: PageId, i: nat, l: PageId, n: PageId)
    requires Siblings(S, I, root, r, i, l, n) && n in S && S[n].Internal? && |S[n].slots| > 0
    ensures n in I && S[n].slots[0].child in I
    ensures var b := S[r].slots[i + 1].key;
      Siblings(SetKey(S, n, 0, b), KeyZeroShape(S, I, n, b), root, r, i, l, n)
  {
    SiblingFacts(S, I, root, r, i, l, n);
    LowRoom(S, I, root, n);
    SetKeyZero(S, I, root, n, S[r].slots[i + 1].key);
  }

  /** `InternalPage::MoveAllTo`, then the parent's `Remove`; the emptied page is deleted. */
  function InternalMerge(S: Store, r: PageId, i: nat, l: PageId, n: PageId): Store
    requires l in S && n in S && r in S && S[l].Internal? && S[n].Internal? && S[r].Internal? && i + 1 < |S[r].slots|
    requires r != l && r != n && l != n
  {
    DropSlot(Adopt(S[l := S[l].(slots := S[l].slots + S[n].slots)], S[n].slots, l) - {n}, r, i + 1)
  }

  lemma InternalMergeDeals(S: Store, I: Shape, root: PageId, r: PageId, i: nat, l: PageId, n: PageId)
    requires Siblings(S, I, root, r, i, l, n) && l in S && n in S && S[l].Internal? && S[n].Internal?
    requires r != l && r != n && l != n && |S[n].slots| > 0
    ensures KidsMerged(SetKey(S, r, i + 1, S[n].slots[0].key), InternalMerge(S, r, i, l, n), r, i, l, n)
  {
    hide Ordered, PageOk;
    KidsApart(S, I, root, r, i, l, n);
    var S0, S' := SetKey(S, r, i + 1, S[n].slots[0].key), InternalMerge(S, r, i, l, n);
    var all := S[l].slots + S[n].slots;
    assert forall k | 0 <= k < |S[n].slots| :: S[n].slots[k] == all[|S[l].slots| + k];
    assert S'[r] == S0[r].(slots := RemoveAt(S0[r].slots, i + 1));
  }

  lemma InternalMergeOrdered(S: Store, I: Shape, root: PageId, r: PageId, i: nat, l: PageId, n: PageId)
    requires Siblings(S, I, root, r, i, l, n) && ZeroSeparates(S, I, root, r, i, n) && l in S && S[l].Internal?
    requires r != l && r != n && l != n
    ensures r in I && S[r].slots[i + 1].child in I && l in RaisedShape(S, I, r, i, n) && n in RaisedShape(S, I, r, i, n)
    ensures var S' := InternalMerge(S, r, i, l, n);
      && Ordered(S', MergeShape(RaisedShape(S, I, r, i, n), l, n), root)
      && forall e :: Has(S, e) <==> Has(S', e)
  {
    hide Ordered, KidsMerged, InternalMerge, CanMove, MergeShape;
    RootFacts(S, I, root);
    SiblingFacts(S, I, root, r, i, l, n);
    MoveSeparator(S, I, root, r, i, l, n);
    InternalMergeDeals(S, I, root, r, i, l, n);
    var S0 := SetKey(S, r, i + 1, S[n].slots[0].key);
    InternalMergeStep(S0, RaisedShape(S, I, r, i, n), root, r, i, l, n, InternalMerge(S, r, i, l, n));
    SetKeyEntries(S, r, i + 1, S[n].slots[0].key);
  }

  /** `InternalPage::MoveLastToFrontOf`: the last child of `l` becomes the first of `n`, and its key the separator. */
  function InternalLastToFront(S: Store, r: PageId, i: nat, l: PageId, n: PageId): Store
    requires l in S && n in S && r in S && S[l].Internal? && S[n].Internal? && S[r].Internal? && i + 1 < |S[r].slots|
    requires |S[l].slots| > 0 && r != l && r != n && l != n
    requires var c := S[l].slots[|S[l].slots| - 1].child; c in S && c != r && c != l && c != n
  {
    var m := |S[l].slots| - 1;
    var last := S[l].slots[m];
    var S1 := S[l := S[l].(slots := S[l].slots[..m])][n := S[n].(slots := [last] + S[n].slots)];
    SetKey(S1[last.child := S1[last.child].(parent := n)], r, i + 1, last.key)
  }

  lemma LastToFrontDeals(S: Store, I: Shape, root: PageId, r: PageId, i: nat, l: PageId, n: PageId)
    requires Siblings(S, I, root, r, i, l, n) && l in S && n in S && S[l].Internal? && S[n].Internal?
    requires r != l && r != n && l != n && |S[n].slots| > 0 && |S[l].slots| > 1
    ensures var m := |S[l].slots| - 1;
      var last := S[l].slots[m];
      && last.child in S && last.child != r && last.child != l && last.child != n
      && EvenDealt(SetKey(S, r, i + 1, S[n].slots[0].key), InternalLastToFront(S, r, i, l, n), r, i, l, n,
                   S[l].slots[..m], [last] + S[n].slots)
  {
    KidsApart(S, I, root, r, i, l, n);
    var m := |S[l].slots| - 1;
    var last := S[l].slots[m];
    var all := S[l].slots + S[n].slots;
    assert all[m] == last;
    var S' := InternalLastToFront(S, r, i, l, n);
    var L, N := S[l].slots[..m], [last] + S[n].slots;
    assert L + N == all;
    forall k | 0 <= k < |L| ensures L[k].child in S' && S'[L[k].child].parent == l {
      assert L[k] == all[k];
      if L[k].child == last.child {
        KidsDistinct(S, I, root, l, k, m);
      }
    }
    forall k | 0 <= k < |N| ensures N[k].child in S' && S'[N[k].child].parent == n {
      assert N[k] == all[m + k];
    }
  }

  lemma LastToFrontOrdered(S: Store, I: Shape, root: PageId, r: PageId, i: nat, l: PageId, n: PageId)
    requires Siblings(S, I, root, r, i, l, n) && ZeroSeparates(S, I, root, r, i, n) && l in S && S[l].Internal?
    requires r != l && r != n && l != n && |S[l].slots| > 1
    ensures r in I && S[r].slots[i + 1].child in I && l in RaisedShape(S, I, r, i, n) && n in RaisedShape(S, I, r, i, n)
    ensures var last := S[l].slots[|S[l].slots| - 1];
      && last.child in S && last.child != r && last.child != l && last.child != n
      && var S' := InternalLastToFront(S, r, i, l, n);
      && Ordered(S', EvenShape(RaisedShape(S, I, r, i, n), l, n, last.key), root)
      && forall e :: Has(S, e) <==> Has(S', e)
  {
    hide Ordered, EvenDealt, CanMove, EvenShape, InternalLastToFront;
    RootFacts(S, I, root);
    SiblingFacts(S, I, root, r, i, l, n);
    MoveSeparator(S, I, root, r, i, l, n);
    LastToFrontDeals(S, I, root, r, i, l, n);
    var S0 := SetKey(S, r, i + 1, S[n].slots[0].key);
    var m := |S[l].slots| - 1;
    var L, N := S[l].slots[..m], [S[l].slots[m]] + S[n].slots;
    InternalEvenStep(S0, RaisedShape(S, I, r, i, n), root, r, i, l, n, L, N, InternalLastToFront(S, r, i, l, n));
    SetKeyEntries(S, r, i + 1, S[n].slots[0].key);
  }

  /** `InternalPage::MoveFirstToEndOf`: the first child of `n` goes to the end of `l` under the parent's separator. */
  function InternalFirstToEnd(S: Store, r: PageId, i: nat, l: PageId, n: PageId): Store
    requires l in S && n in S && r in S && S[l].Internal? && S[n].Internal? && S[r].Internal? && i + 1 < |S[r].slots|
    requires |S[n].slots| > 1 && r != l && r != n && l != n
    requires var c := S[n].slots[0].child; c in S && c != r && c != l && c != n
  {
    var c := S[n].slots[0].child;
    var L := S[l].slots + [Slot(S[r].slots[i + 1].key, c)];
    var S1 := S[l := S[l].(slots := L)][n := S[n].(slots := S[n].slots[1..])];
    SetKey(S1[c := S1[c].(parent := l)], r, i + 1, S[n].slots[1].key)
  }

  lemma FirstToEndDeals(S: Store, I: Shape, root: PageId, r: PageId, i: nat, l: PageId, n: PageId)
    requires Siblings(S, I, root, r, i, l, n) && l in S && n in S && S[l].Internal? && S[n].Internal?
    requires r != l && r != n && l != n && |S[n].slots| > 1 && |S[l].slots| > 0
    ensures var a, c := S[r].slots[i + 1].key, S[n].slots[0].child;
      && c in S && c != r && c != l && c != n
      && EvenDealt(SetKey(S, n, 0, a), InternalFirstToEnd(S, r, i, l, n), r, i, l, n,
                   S[l].slots + [Slot(a, c)], S[n].slots[1..])
  {
    KidsApart(S, I, root, r, i, l, n);
    var a, c := S[r].slots[i + 1].key, S[n].slots[0].child;
    var S0 := SetKey(S, n, 0, a);
    var all := S[l].slots + S[n].slots;
    assert all[|S[l].slots|] == S[n].slots[0];
    var S' := InternalFirstToEnd(S, r, i, l, n);
    var L, N := S[l].slots + [Slot(a, c)], S[n].slots[1..];
    assert L + N == S0[l].slots + S0[n].slots;
    forall k | 0 <= k < |L| ensures L[k].child in S' && S'[L[k].child].parent == l {
      assert L[k].child == all[k].child;
    }
    forall k | 0 <= k < |N| ensures N[k].child in S' && S'[N[k].child].parent == n {
      assert N[k] == all[|L| + k];
      if N[k].child == c {
        KidsDistinct(S, I, root, n, 0, k + 1);
      }
    }
  }

  lemma FirstToEndOrdered(S: Store, I: Shape, root: PageId, r: PageId, i: nat, l: PageId, n: PageId)
    requires Siblings(S, I, root, r, i, l, n) && l in S && n in S && S[l].Internal? && S[n].Internal?
    requires r != l && r != n && l != n && |S[n].slots| > 1 && |S[l].slots| > 0
    ensures n in I && S[n].slots[0].child in I
    ensures var I0 := KeyZeroShape(S, I, n, S[r].slots[i + 1].key);
      var c := S[n].slots[0].child;
      && c in S && c != r && c != l && c != n
      && l in I0 && n in I0
      && var S' := InternalFirstToEnd(S, r, i, l, n);
      && Ordered(S', EvenShape(I0, l, n, S[n].slots[1].key), root)
      && forall e :: Has(S, e) <==> Has(S', e)
  {
    hide Ordered, EvenDealt, EvenShape, InternalFirstToEnd;
    RootFacts(S, I, root);
    SiblingFacts(S, I, root, r, i, l, n);
    LowerKeyZero(S, I, root, r, i, l, n);
    FirstToEndDeals(S, I, root, r, i, l, n);
    var a, c := S[r].slots[i + 1].key, S[n].slots[0].child;
    var L, N := S[l].slots + [Slot(a, c)], S[n].slots[1..];
    InternalEvenStep(SetKey(S, n, 0, a), KeyZeroShape(S, I, n, a), root, r, i, l, n, L, N,
                     InternalFirstToEnd(S, r, i, l, n));
    SetKeyEntries(S, n, 0, a);
  }

  // ----- an internal root with one child gives way to it

  function DropRoot(S: Store, root: PageId): Store
    requires root in S && S[root].Internal? && |S[root].slots| > 0 && S[root].slots[0].child in S
  {
    var c := S[root].slots[0].child;
    S[c := S[c].(parent := INVALID_PAGE_ID)] - {root}
  }

  lemma DropRootOrdered(S: Store, I: Shape, root: PageId)
    requires Ordered(S, I, root) && S[root].Internal? && |S[root].slots| == 1
    ensures var c := S[root].slots[0].child;
      && c in S && c != root && I[c].zero == I[root].zero
      && Ordered(DropRoot(S, root), I - {root}, c)
      && forall e :: Has(S, e) <==> Has(DropRoot(S, root), e)
  {
    assert PageOk(S, I, root);
    assert ChildOk(S, I, root, 0);
    var c := S[root].slots[0].child;
    assert PageOk(S, I, c) && LinkOk(S, root, root);
    var S', I' := DropRoot(S, root), I - {root};
    forall x | x in S' ensures PageOk(S', I', x) && LinkOk(S', c, x) && I'[x].level <= I'[c].level {
      assert PageOk(S, I, x) && LinkOk(S, root, x);
      PageKept(S, I, S', I', x);
      if x != c {
        var q, j := ChildOf(S, I, root, x);
      }
    }
    SameLeaves(S, S');
  }

  /** The order asked for is the same one, and tight intervals are still tight. */
  ghost predicate OrderKept(I: Shape, root: PageId, I': Shape, root': PageId) {
    root in I && root' in I' && I'[root'].zero == I[root].zero && (Tight(I) ==> Tight(I'))
  }

  // ----- page sizes

  /** Page `x`, a child of `r`, lacks a pair; `l` and `n` are it and the sibling that is to help out. */
  ghost predicate HelpedOut(S: Store, I: Shape, root: PageId, c: Caps, x: PageId, r: PageId, i: nat, l: PageId,
        n: PageId) {
    && c.leafMax >= 4 && c.internalMax >= 4
    && Underfull(S, I, root, c, x) && x != root && x in {l, n}
    && Siblings(S, I, root, r, i, l, n)
  }

  lemma HelperSizes(S: Store, I: Shape, root: PageId, c: Caps, x: PageId, r: PageId, i: nat, l: PageId, n: PageId)
    requires HelpedOut(S, I, root, c, x, r, i, l, n)
    ensures l in S && n in S && l != n && r != l && r != n && S[l].Leaf? == S[n].Leaf?
    ensures l != root && n != root && r in S && S[r].Internal?
    ensures SizeOk(c, S[r], r == root)
    ensures var y := if x == l then n else l; SizeOk(c, S[y], false)
    ensures S[l].Size() >= 1 && S[n].Size() >= 1
  {
    SiblingFacts(S, I, root, r, i, l, n);
    var y := if x == l then n else l;
    assert SizeOk(c, S[r], r == root) && SizeOk(c, S[y], y == root);
  }

  /** The sizes after a merge. */
  ghost predicate MergedInto(S: Store, S': Store, l: PageId, n: PageId, r: PageId) {
    && l in S && n in S && r in S && S'.Keys == S.Keys - {n} && l in S' && r in S'
    && S'[l].Leaf? == S[l].Leaf? && S'[l].Size() == S[l].Size() + S[n].Size()
    && S'[r].Internal? && S'[r].Size() == S[r].Size() - 1
    && forall y | y in S' && y != l && y != r :: S'[y] == S[y].(parent := S'[y].parent)
  }

  /** Few enough pairs for one page: after a merge only the parent can lack one. */
  lemma MergeSizes(S: Store, I: Shape, root: PageId, c: Caps, x: PageId, r: PageId, i: nat, l: PageId, n: PageId,
        S': Store, I': Shape)
    requires HelpedOut(S, I, root, c, x, r, i, l, n) && Ordered(S', I', root) && MergedInto(S, S', l, n, r)
    requires S[l].Size() + S[n].Size() < MaxSize(c, S[x])
    ensures if S'[r].Size() < MinSize(c, S'[r]) then Underfull(S', I', root, c, r) else Tree(S', I', root, c)
  {
    hide Ordered, Siblings;
    HelperSizes(S, I, root, c, x, r, i, l, n);
    forall y | y in S' && y != r ensures SizeOk(c, S'[y], y == root) {
      if y != l {
        assert SizeOk(c, S[y], y == root);
      }
    }
  }

  /** The sizes after one pair went from one sibling to the other, which is `x`. */
  ghost predicate OneMoved(S: Store, S': Store, l: PageId, n: PageId, r: PageId, x: PageId) {
    && l in S && n in S && r in S && S'.Keys == S.Keys
    && S'[l].Leaf? == S[l].Leaf? && S'[n].Leaf? == S[n].Leaf?
    && S'[r].Internal? && S'[r].Size() == S[r].Size()
    && S'[l].Size() == (if x == l then S[l].Size() + 1 else S[l].Size() - 1)
    && S'[n].Size() == (if x == n then S[n].Size() + 1 else S[n].Size() - 1)
    && forall y | y in S' && y != l && y != n && y != r :: S'[y] == S[y].(parent := S'[y].parent)
  }

  lemma EvenedSizes(S: Store, I: Shape, root: PageId, c: Caps, x: PageId, r: PageId, i: nat, l: PageId, n: PageId,
        S': Store)
    requires HelpedOut(S, I, root, c, x, r, i, l, n) && OneMoved(S, S', l, n, r, x)
    requires S[l].Size() + S[n].Size() >= MaxSize(c, S[x])
    ensures SizeOk(c, S'[l], l == root) && SizeOk(c, S'[n], n == root)
  {
    hide Ordered;
    HelperSizes(S, I, root, c, x, r, i, l, n);
  }

  /** Too many pairs for one page: one of them changes sides and both pages have enough. */
  lemma EvenSizes(S: Store, I: Shape, root: PageId, c: Caps, x: PageId, r: PageId, i: nat, l: PageId, n: PageId,
        S': Store, I': Shape)
    requires HelpedOut(S, I, root, c, x, r, i, l, n) && Ordered(S', I', root) && OneMoved(S, S', l, n, r, x)
    requires S[l].Size() + S[n].Size() >= MaxSize(c, S[x])
    ensures Tree(S', I', root, c)
  {
    hide Ordered, Siblings;
    HelperSizes(S, I, root, c, x, r, i, l, n);
    EvenedSizes(S, I, root, c, x, r, i, l, n, S');
    forall y | y in S' ensures SizeOk(c, S'[y], y == root) {
      if y != l && y != n && y != r {
        assert SizeOk(c, S[y], y == root);
      }
    }
  }

  // ----- tight intervals stay tight

  lemma TightRaise(S: Store, I: Shape, root: PageId, r: PageId, i: nat, l: PageId, n: PageId)
    requires Siblings(S, I, root, r, i, l, n) && Tight(I) && n in S && S[n].Internal? && |S[n].slots| > 0
    requires n in I && I[n].zero
    ensures r in I && S[r].slots[i + 1].child in I && RaisedShape(S, I, r, i, n) == I
    ensures S[n].slots[0].child in I && KeyZeroShape(S, I, n, S[r].slots[i + 1].key) == I
  {
    SiblingFacts(S, I, root, r, i, l, n);
    assert ChildOk(S, I, n, 0);
    assert S[n].slots[0].key == S[r].slots[i + 1].key;
    forall x | x in I ensures RaisedShape(S, I, r, i, n)[x] == I[x] {
    }
    assert RaisedShape(S, I, r, i, n) == I;
  }

  /** Leaf `p` is the first child of a first child of a page off the leftmost spine, and `k`, its first key from now on,
      is above the key at position 0 of its parent. */
  ghost predicate OpensGap(S: Store, I: Shape, root: PageId, p: PageId, k: Key) {
    && p in S && p != root && S[p].Leaf?
    && var r := S[p].parent;
    && r in S && r != root && S[r].Internal? && |S[r].slots| > 0 && S[r].slots[0].child == p && S[r].slots[0].key < k
    && var g := S[r].parent;
    && g in S && g in I && I[g].off && S[g].Internal? && |S[g].slots| > 0 && S[g].slots[0].child == r
  }

  /** Only leaf `p`, among the leaves, cannot store all keys that searches lead to it: it starts at `k` now. */
  ghost predicate GapAt(I: Shape, I': Shape, p: PageId, k: Key) {
    && p in I && p in I' && I[p].off && I[p].rlo < k && I'[p] == I[p].(dlo := k)
    && forall x | x in I' && I'[x].off && I'[x].level == 0 && x != p :: I'[x].rlo == I'[x].dlo
  }

  lemma TightMove(S: Store, I: Shape, root: PageId, q: PageId, i: nat, k: Key)
    requires CanMove(S, I, root, q, i, k) && I[root].zero
    requires forall x | x in I && I[x].off && x != S[q].slots[i].child ::
      I[x].rlo == I[x].dlo || (I[x].level < I[q].level && I[x].rlo == S[q].slots[i].key && I[x].dlo == k)
    ensures Tight(SeparatorShape(S, I, q, i, k))
  {
    var J := SeparatorShape(S, I, q, i, k);
    assert PageOk(S, I, q);
    forall x | x in J && J[x].off ensures J[x].rlo == J[x].dlo {
      if x != S[q].slots[i].child && I[x].level < I[q].level && I[x].rlo == S[q].slots[i].key {
        SeparatorBounds(S, I, root, q, i, k, x);
        OneOrder(S, I, root, x);
      }
    }
  }

  /** Refreshing the parent alone keeps tight intervals tight when the leaf is no first child, or the parent is on the
      leftmost spine. */
  lemma TightRefreshParent(S: Store, I: Shape, root: PageId, p: PageId, i: nat)
    requires ZeroOrdered(S, I, root) && Tight(I) && p in S && p != root && S[p].Leaf? && |S[p].entries| > 0
    requires var r := S[p].parent; r in S && S[r].Internal? && i < |S[r].slots| && S[r].slots[i].child == p
    requires i > 0 || S[p].parent == root
    ensures var r, k := S[p].parent, S[p].FirstKey();
      r in I && p in I && Tight(KeyShape(S, I, r, i, k)) && !OpensGap(S, I, root, p, k)
  {
    var r, k := S[p].parent, S[p].FirstKey();
    assert PageOk(S, I, p) && PageOk(S, I, r) && ChildOk(S, I, r, i);
    assert Admits(I[p], k);
    if i > 0 {
      LeafClear(S, I, root, p);
      TightMove(S, I, root, r, i, k);
      if S[r].slots[0].child == p {
        KidsDistinct(S, I, root, r, 0, i);
      }
    }
  }

  /** Refreshing two levels of keys keeps tight intervals tight exactly when it opens no gap. */
  lemma TightRefreshIff(S: Store, I: Shape, root: PageId, p: PageId, j: nat)
    requires ZeroOrdered(S, I, root) && Tight(I) && p in S && S[p].Leaf? && |S[p].entries| > 0
    requires var r := S[p].parent;
      r in S && r != root && S[r].Internal? && |S[r].slots| > 0 && S[r].slots[0].child == p
    requires var g := S[S[p].parent].parent;
      g in S && S[g].Internal? && j < |S[g].slots| && S[g].slots[j].child == S[p].parent
    ensures var r, g, k := S[p].parent, S[S[p].parent].parent, S[p].FirstKey();
      var S1 := SetKey(S, r, 0, k);
      r in I && g in I && p in I && g in S1 && S1[g] == S[g] && r in KeyShape(S, I, r, 0, k)
      && var J := KeyShape(S1, KeyShape(S, I, r, 0, k), g, j, k);
      if OpensGap(S, I, root, p, k) then GapAt(I, J, p, k) else Tight(J)
  {
    var r, g, k := S[p].parent, S[S[p].parent].parent, S[p].FirstKey();
    var S1, I1 := SetKey(S, r, 0, k), KeyShape(S, I, r, 0, k);
    assert PageOk(S, I, p) && PageOk(S, I, r) && ChildOk(S, I, r, 0) && PageOk(S, I, g) && ChildOk(S, I, g, j);
    assert Admits(I[p], k);
    OneOrder(S, I, root, r);
    OneOrder(S, I, root, g);
    RefreshParent(S, I, root, p, 0);
    if j > 0 {
      TightRefreshAbove(S, I, root, p, r, g, j);
    }
  }

  lemma TightRefreshAbove(S: Store, I: Shape, root: PageId, p: PageId, r: PageId, g: PageId, j: nat)
    requires ZeroOrdered(S, I, root) && Tight(I) && p in S && S[p].Leaf? && |S[p].entries| > 0
    requires S[p].parent == r && r in S && r != root && S[r].Internal? && |S[r].slots| > 0 && S[r].slots[0].child == p
    requires S[r].parent == g && g in S && S[g].Internal? && 0 < j < |S[g].slots| && S[g].slots[j].child == r
    requires var k := S[p].FirstKey();
      r in I && p in I && Ordered(SetKey(S, r, 0, k), KeyShape(S, I, r, 0, k), root)
    ensures var k := S[p].FirstKey();
      var S1 := SetKey(S, r, 0, k);
      g in S1 && S1[g] == S[g] && g in I && r in KeyShape(S, I, r, 0, k)
      && Tight(KeyShape(S1, KeyShape(S, I, r, 0, k), g, j, k)) && !OpensGap(S, I, root, p, k)
  {
    var k := S[p].FirstKey();
    var S1, I1 := SetKey(S, r, 0, k), KeyShape(S, I, r, 0, k);
    assert PageOk(S, I, p) && PageOk(S, I, r) && ChildOk(S, I, r, 0) && PageOk(S, I, g) && ChildOk(S, I, g, j);
    if S[g].slots[0].child == r {
      KidsDistinct(S, I, root, g, 0, j);
    }
    FirstChildClear(S1, I1, root, r, p);
    assert Admits(I[p], k);
    assert CanMove(S1, I1, root, g, j, k);
    TightMove(S1, I1, root, g, j, k);
  }

  lemma EvenKept(I: Shape, root: PageId, l: PageId, n: PageId, s: Key)
    requires root in I && l in I && n in I && root != l && root != n
    ensures OrderKept(I, root, EvenShape(I, l, n, s), root)
  {
  }

  lemma MergeKept(I: Shape, root: PageId, l: PageId, n: PageId, r: PageId)
    requires root in I && l in I && n in I && r in I && root != l && root != n && r != l && r != n && l != n
    ensures var I' := MergeShape(I, l, n);
      OrderKept(I, root, I', root) && I'.Keys == I.Keys - {n} && I'[r] == I[r] && I'[root] == I[root]
  {
  }

  /** In search order the two lower bounds are the same on every page. */
  lemma SearchIsTight(S: Store, I: Shape, root: PageId)
    requires Ordered(S, I, root) && !I[root].zero
    ensures Tight(I)
  {
    forall p | p in I && I[p].off ensures I[p].rlo == I[p].dlo {
      assert PageOk(S, I, p);
      OneOrder(S, I, root, p);
    }
  }

  lemma RaisedKept(S: Store, I: Shape, root: PageId, r: PageId, i: nat, l: PageId, n: PageId)
    requires Siblings(S, I, root, r, i, l, n) && ZeroSeparates(S, I, root, r, i, n)
    ensures r in I && S[r].slots[i + 1].child in I
    ensures var I' := RaisedShape(S, I, r, i, n);
      OrderKept(I, root, I', root) && I'.Keys == I.Keys && I'[r] == I[r] && I'[root] == I[root]
  {
    OneOrder(S, I, root, n);
    SiblingFacts(S, I, root, r, i, l, n);
    if !I[root].zero {
      MoveSeparator(S, I, root, r, i, l, n);
      SearchIsTight(SetKey(S, r, i + 1, S[n].slots[0].key), RaisedShape(S, I, r, i, n), root);
    } else if Tight(I) {
      TightRaise(S, I, root, r, i, l, n);
    }
  }

  lemma LoweredKept(S: Store, I: Shape, root: PageId, r: PageId, i: nat, l: PageId, n: PageId)
    requires Siblings(S, I, root, r, i, l, n) && n in S && S[n].Internal? && |S[n].slots| > 0
    ensures n in I && S[n].slots[0].child in I
    ensures OrderKept(I, root, KeyZeroShape(S, I, n, S[r].slots[i + 1].key), root)
  {
    SiblingFacts(S, I, root, r, i, l, n);
    assert ChildOk(S, I, n, 0);
    if Tight(I) && I[n].zero {
      TightRaise(S, I, root, r, i, l, n);
    }
  }

  // ----- a page that lacks a pair gets one from its sibling

  /** `LeafPage::MoveFirstToEndOf`: the first entry of `n` goes to the end of `l`. */
  function LeafFirstToEnd(S: Store, r: PageId, i: nat, l: PageId, n: PageId): Store
    requires l in S && n in S && r in S && S[l].Leaf? && S[n].Leaf? && S[r].Internal? && i + 1 < |S[r].slots|
    requires |S[n].entries| > 1 && r != l && r != n && l != n
  {
    LeafEven(S, r, i, l, n, S[l].entries + [S[n].entries[0]], S[n].entries[1..])
  }

  /** `LeafPage::MoveLastToFrontOf`: the last entry of `l` goes to the front of `n`. */
  function LeafLastToFront(S: Store, r: PageId, i: nat, l: PageId, n: PageId): Store
    requires l in S && n in S && r in S && S[l].Leaf? && S[n].Leaf? && S[r].Internal? && i + 1 < |S[r].slots|
    requires |S[l].entries| > 1 && r != l && r != n && l != n
  {
    var m := |S[l].entries| - 1;
    LeafEven(S, r, i, l, n, S[l].entries[..m], [S[l].entries[m]] + S[n].entries)
  }

  lemma LeafFirstToEndMoves(S: Store, r: PageId, i: nat, l: PageId, n: PageId)
    requires l in S && n in S && r in S && S[l].Leaf? && S[n].Leaf? && S[r].Internal? && i + 1 < |S[r].slots|
    requires |S[n].entries| > 1 && r != l && r != n && l != n
    ensures OneMoved(S, LeafFirstToEnd(S, r, i, l, n), l, n, r, l)
  {
  }

  lemma LeafLastToFrontMoves(S: Store, r: PageId, i: nat, l: PageId, n: PageId)
    requires l in S && n in S && r in S && S[l].Leaf? && S[n].Leaf? && S[r].Internal? && i + 1 < |S[r].slots|
    requires |S[l].entries| > 1 && r != l && r != n && l != n
    ensures OneMoved(S, LeafLastToFront(S, r, i, l, n), l, n, r, n)
  {
  }

  lemma InternalFirstToEndMoves(S: Store, r: PageId, i: nat, l: PageId, n: PageId)
    requires l in S && n in S && r in S && S[l].Internal? && S[n].Internal? && S[r].Internal? && i + 1 < |S[r].slots|
    requires |S[n].slots| > 1 && r != l && r != n && l != n
    requires var c := S[n].slots[0].child; c in S && c != r && c != l && c != n
    ensures OneMoved(S, InternalFirstToEnd(S, r, i, l, n), l, n, r, l)
  {
  }

  lemma InternalLastToFrontMoves(S: Store, r: PageId, i: nat, l: PageId, n: PageId)
    requires l in S && n in S && r in S && S[l].Internal? && S[n].Internal? && S[r].Internal? && i + 1 < |S[r].slots|
    requires |S[l].slots| > 0 && r != l && r != n && l != n
    requires var c := S[l].slots[|S[l].slots| - 1].child; c in S && c != r && c != l && c != n
    ensures OneMoved(S, InternalLastToFront(S, r, i, l, n), l, n, r, n)
  {
  }

  lemma LeafFirstToEndTree(S: Store, I: Shape, root: PageId, c: Caps, r: PageId, i: nat, l: PageId, n: PageId)
    returns (I': Shape)
    requires HelpedOut(S, I, root, c, l, r, i, l, n) && l in S && S[l].Leaf?
    requires n in S && S[l].Size() + S[n].Size() >= c.leafMax
    ensures S[n].Leaf? && |S[n].entries| > 1 && r != l && r != n && l != n
    ensures Tree(LeafFirstToEnd(S, r, i, l, n), I', root, c)
    ensures forall e :: Has(S, e) <==> Has(LeafFirstToEnd(S, r, i, l, n), e)
    ensures OrderKept(I, root, I', root)
  {
    hide Ordered, PageOk, SizedBut, CanMove, MergedInto, OneMoved;
    hide Tight, EvenShape, MergeShape, RaisedShape, KeyZeroShape;
    hide LeafEven;
    RootFacts(S, I, root);
    HelperSizes(S, I, root, c, l, r, i, l, n);
    SiblingFacts(S, I, root, r, i, l, n);
    var L, N := S[l].entries + [S[n].entries[0]], S[n].entries[1..];
    assert L + N == S[l].entries + S[n].entries;
    LeafEvenStep(S, I, root, r, i, l, n, L, N);
    I' := EvenShape(I, l, n, N[0].key);
    EvenKept(I, root, l, n, N[0].key);
    LeafFirstToEndMoves(S, r, i, l, n);
    EvenSizes(S, I, root, c, l, r, i, l, n, LeafFirstToEnd(S, r, i, l, n), I');
  }

  lemma LeafLastToFrontTree(S: Store, I: Shape, root: PageId, c: Caps, r: PageId, i: nat, l: PageId, n: PageId)
    returns (I': Shape)
    requires HelpedOut(S, I, root, c, n, r, i, l, n) && l in S && n in S && S[n].Leaf?
    requires S[l].Size() + S[n].Size() >= c.leafMax
    ensures S[l].Leaf? && |S[l].entries| > 1 && r != l && r != n && l != n
    ensures Tree(LeafLastToFront(S, r, i, l, n), I', root, c)
    ensures forall e :: Has(S, e) <==> Has(LeafLastToFront(S, r, i, l, n), e)
    ensures OrderKept(I, root, I', root)
  {
    hide Ordered, PageOk, SizedBut, CanMove, MergedInto, OneMoved;
    hide Tight, EvenShape, MergeShape, RaisedShape, KeyZeroShape;
    hide LeafEven;
    RootFacts(S, I, root);
    HelperSizes(S, I, root, c, n, r, i, l, n);
    SiblingFacts(S, I, root, r, i, l, n);
    var m := |S[l].entries| - 1;
    var L, N := S[l].entries[..m], [S[l].entries[m]] + S[n].entries;
    assert L + N == S[l].entries + S[n].entries;
    LeafEvenStep(S, I, root, r, i, l, n, L, N);
    I' := EvenShape(I, l, n, N[0].key);
    EvenKept(I, root, l, n, N[0].key);
    LeafLastToFrontMoves(S, r, i, l, n);
    EvenSizes(S, I, root, c, n, r, i, l, n, LeafLastToFront(S, r, i, l, n), I');
  }

  lemma InternalFirstToEndTree(S: Store, I: Shape, root: PageId, c: Caps, r: PageId, i: nat, l: PageId, n: PageId)
    returns (I': Shape)
    requires HelpedOut(S, I, root, c, l, r, i, l, n) && l in S && S[l].Internal?
    requires n in S && S[l].Size() + S[n].Size() >= c.internalMax
    ensures S[n].Internal? && |S[n].slots| > 1 && r != l && r != n && l != n
    ensures var k := S[n].slots[0].child; k in S && k != r && k != l && k != n
    ensures Tree(InternalFirstToEnd(S, r, i, l, n), I', root, c)
    ensures forall e :: Has(S, e) <==> Has(InternalFirstToEnd(S, r, i, l, n), e)
    ensures OrderKept(I, root, I', root)
  {
    hide Ordered, PageOk, SizedBut, CanMove, MergedInto, OneMoved;
    hide Tight, EvenShape, MergeShape, RaisedShape, KeyZeroShape;
    hide LeafFirstToEnd, LeafLastToFront, InternalFirstToEnd, InternalLastToFront, LeafMerge, InternalMerge;
    RootFacts(S, I, root);
    HelperSizes(S, I, root, c, l, r, i, l, n);
    SiblingFacts(S, I, root, r, i, l, n);
    FirstToEndOrdered(S, I, root, r, i, l, n);
    LoweredKept(S, I, root, r, i, l, n);
    var I0, s := KeyZeroShape(S, I, n, S[r].slots[i + 1].key), S[n].slots[1].key;
    I' := EvenShape(I0, l, n, s);
    EvenKept(I0, root, l, n, s);
    InternalFirstToEndMoves(S, r, i, l, n);
    EvenSizes(S, I, root, c, l, r, i, l, n, InternalFirstToEnd(S, r, i, l, n), I');
  }

  lemma InternalLastToFrontTree(S: Store, I: Shape, root: PageId, c: Caps, r: PageId, i: nat, l: PageId, n: PageId)
    returns (I': Shape)
    requires HelpedOut(S, I, root, c, n, r, i, l, n) && l in S && n in S && S[n].Internal?
    requires ZeroSeparates(S, I, root, r, i, n)
    requires S[l].Size() + S[n].Size() >= c.internalMax
    ensures S[l].Internal? && |S[l].slots| > 1 && r != l && r != n && l != n
    ensures var k := S[l].slots[|S[l].slots| - 1].child; k in S && k != r && k != l && k != n
    ensures Tree(InternalLastToFront(S, r, i, l, n), I', root, c)
    ensures forall e :: Has(S, e) <==> Has(InternalLastToFront(S, r, i, l, n), e)
    ensures OrderKept(I, root, I', root)
  {
    hide Ordered, PageOk, SizedBut, CanMove, MergedInto, OneMoved;
    hide Tight, EvenShape, MergeShape, RaisedShape, KeyZeroShape;
    hide LeafFirstToEnd, LeafLastToFront, InternalFirstToEnd, InternalLastToFront, LeafMerge, InternalMerge;
    RootFacts(S, I, root);
    HelperSizes(S, I, root, c, n, r, i, l, n);
    SiblingFacts(S, I, root, r, i, l, n);
    LastToFrontOrdered(S, I, root, r, i, l, n);
    RaisedKept(S, I, root, r, i, l, n);
    var I0, s := RaisedShape(S, I, r, i, n), S[l].slots[|S[l].slots| - 1].key;
    I' := EvenShape(I0, l, n, s);
    EvenKept(I0, root, l, n, s);
    InternalLastToFrontMoves(S, r, i, l, n);
    EvenSizes(S, I, root, c, n, r, i, l, n, InternalLastToFront(S, r, i, l, n), I');
  }

  // ----- two pages become one

  lemma LeafMergeMoves(S: Store, r: PageId, i: nat, l: PageId, n: PageId)
    requires l in S && n in S && r in S && S[l].Leaf? && S[n].Leaf? && S[r].Internal? && i + 1 < |S[r].slots|
    requires r != l && r != n && l != n
    ensures MergedInto(S, LeafMerge(S, r, i, l, n), l, n, r)
  {
  }

  lemma InternalMergeMoves(S: Store, r: PageId, i: nat, l: PageId, n: PageId)
    requires l in S && n in S && r in S && S[l].Internal? && S[n].Internal? && S[r].Internal? && i + 1 < |S[r].slots|
    requires r != l && r != n && l != n
    requires var all := S[l].slots + S[n].slots; forall k | 0 <= k < |all| :: all[k].child !in {l, r}
    ensures MergedInto(S, InternalMerge(S, r, i, l, n), l, n, r)
  {
    var all := S[l].slots + S[n].slots;
    assert forall k | 0 <= k < |S[n].slots| :: all[|S[l].slots| + k] == S[n].slots[k];
  }

  lemma LeafMergeTree(S: Store, I: Shape, root: PageId, c: Caps, x: PageId, r: PageId, i: nat, l: PageId, n: PageId)
    returns (I': Shape)
    requires HelpedOut(S, I, root, c, x, r, i, l, n) && l in S && S[l].Leaf?
    requires n in S && S[l].Size() + S[n].Size() < c.leafMax
    ensures S[n].Leaf? && r != l && r != n && l != n
    ensures var S' := LeafMerge(S, r, i, l, n);
      && (forall e :: Has(S, e) <==> Has(S', e))
      && if S'[r].Size() < MinSize(c, S'[r]) then Underfull(S', I', root, c, r) else Tree(S', I', root, c)
    ensures OrderKept(I, root, I', root)
    ensures I'.Keys == I.Keys - {n} && r in I' && root in I' && I'[r] == I[r] && I'[root] == I[root]
  {
    hide Ordered, PageOk, SizedBut, CanMove, MergedInto, OneMoved;
    hide Tight, EvenShape, MergeShape, RaisedShape, KeyZeroShape;
    hide LeafFirstToEnd, LeafLastToFront, InternalFirstToEnd, InternalLastToFront, LeafMerge, InternalMerge;
    RootFacts(S, I, root);
    HelperSizes(S, I, root, c, x, r, i, l, n);
    SiblingFacts(S, I, root, r, i, l, n);
    LeafMergeStep(S, I, root, r, i, l, n);
    I' := MergeShape(I, l, n);
    MergeKept(I, root, l, n, r);
    LeafMergeMoves(S, r, i, l, n);
    MergeSizes(S, I, root, c, x, r, i, l, n, LeafMerge(S, r, i, l, n), I');
  }

  lemma InternalMergeSized(S: Store, I: Shape, root: PageId, c: Caps, x: PageId, r: PageId, i: nat, l: PageId,
        n: PageId)
    returns (I': Shape)
    requires HelpedOut(S, I, root, c, x, r, i, l, n) && l in S && S[l].Internal?
    requires ZeroSeparates(S, I, root, r, i, n)
    requires n in S && S[l].Size() + S[n].Size() < c.internalMax
    ensures S[n].Internal? && r != l && r != n && l != n
    ensures r in I && S[r].slots[i + 1].child in I && l in RaisedShape(S, I, r, i, n) && n in RaisedShape(S, I, r, i, n)
    ensures |S[n].slots| > 0 && I' == MergeShape(RaisedShape(S, I, r, i, n), l, n)
    ensures var S' := InternalMerge(S, r, i, l, n);
      && (forall e :: Has(S, e) <==> Has(S', e))
      && if S'[r].Size() < MinSize(c, S'[r]) then Underfull(S', I', root, c, r) else Tree(S', I', root, c)
  {
    hide Ordered, PageOk, SizedBut, CanMove, MergedInto, OneMoved;
    hide Tight, EvenShape, MergeShape, RaisedShape, KeyZeroShape;
    hide LeafFirstToEnd, LeafLastToFront, InternalFirstToEnd, InternalLastToFront, LeafMerge, InternalMerge;
    RootFacts(S, I, root);
    HelperSizes(S, I, root, c, x, r, i, l, n);
    SiblingFacts(S, I, root, r, i, l, n);
    KidsApart(S, I, root, r, i, l, n);
    InternalMergeOrdered(S, I, root, r, i, l, n);
    I' := MergeShape(RaisedShape(S, I, r, i, n), l, n);
    InternalMergeMoves(S, r, i, l, n);
    MergeSizes(S, I, root, c, x, r, i, l, n, InternalMerge(S, r, i, l, n), I');
  }

  lemma InternalMergeTree(S: Store, I: Shape, root: PageId, c: Caps, x: PageId, r: PageId, i: nat, l: PageId, n: PageId)
    returns (I': Shape)
    requires HelpedOut(S, I, root, c, x, r, i, l, n) && l in S && S[l].Internal?
    requires ZeroSeparates(S, I, root, r, i, n)
    requires n in S && S[l].Size() + S[n].Size() < c.internalMax
    ensures S[n].Internal? && r != l && r != n && l != n
    ensures var S' := InternalMerge(S, r, i, l, n);
      && (forall e :: Has(S, e) <==> Has(S', e))
      && if S'[r].Size() < MinSize(c, S'[r]) then Underfull(S', I', root, c, r) else Tree(S', I', root, c)
    ensures OrderKept(I, root, I', root)
    ensures I'.Keys == I.Keys - {n} && r in I' && root in I' && I'[r] == I[r] && I'[root] == I[root]
  {
    hide Ordered, PageOk, SizedBut, CanMove, MergedInto, OneMoved;
    hide Tight, EvenShape, MergeShape, RaisedShape, KeyZeroShape;
    hide LeafFirstToEnd, LeafLastToFront, InternalFirstToEnd, InternalLastToFront, LeafMerge, InternalMerge;
    RootFacts(S, I, root);
    HelperSizes(S, I, root, c, x, r, i, l, n);
    SiblingFacts(S, I, root, r, i, l, n);
    I' := InternalMergeSized(S, I, root, c, x, r, i, l, n);
    RaisedKept(S, I, root, r, i, l, n);
    MergeKept(RaisedShape(S, I, r, i, n), root, l, n, r);
  }
}
