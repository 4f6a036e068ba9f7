/**
 What it means for the page store of a B+ tree to be in order.

 Every page has a ghost `Info`: its level, and the interval of keys it answers for. A search reaches a page with
 the keys in `[rlo, hi)`; the keys stored below it are in `[dlo, hi)`.
 There are two orders. The search order leaves the key at position 0 of an internal page alone, as no search looks
 at it; the two lower bounds are then the same. The key-zero order (`zero`) asks in addition that the key at
 position 0 could serve as a separator, as it does when pages are merged: what lies below the first child is never
 smaller than that key, so the two lower bounds can differ.
 All conditions are local: they relate a page to its children, its parent and the next leaf.
 */
module BPlusTreeInvariant {
  import opened Basics
  import opened BPlusTreeNodes

  /** `off`: the page is off the leftmost spine, so it has lower bounds; `top`: it has no upper bound; `zero`: the keys
      at position 0 count. */
  datatype Info = Info(level: nat, off: bool, rlo: Key, dlo: Key, top: bool, hi: Key, zero: bool)

  type Store = map<PageId, Page>

  type Shape = map<PageId, Info>

  ghost function RootInfo(level: nat, zero: bool): Info {
    Info(level, false, 0, 0, true, 0, zero)
  }

  /** Searches for `key` come to the page. */
  ghost predicate Covers(info: Info, key: Key) {
    (info.off ==> info.rlo <= key) && (!info.top ==> key < info.hi)
  }

  /** `key` may be stored below the page. */
  ghost predicate Admits(info: Info, key: Key) {
    (info.off ==> info.dlo <= key) && (!info.top ==> key < info.hi)
  }

  /** The interval that child `j` gets from its parent's interval and the separators around it. */
  ghost function ChildInfo(info: Info, slots: seq<Slot>, j: nat): Info
    requires j < |slots| && info.level > 0
  {
    Info(
      info.level - 1,
      j > 0 || info.off,
      if j > 0 then slots[j].key else info.rlo,
      if j > 0 then slots[j].key else if info.off && info.zero then slots[0].key else info.dlo,
      j + 1 == |slots| && info.top,
      if j + 1 < |slots| then slots[j + 1].key else info.hi,
      info.zero)
  }

  ghost predicate BoundsOk(info: Info) {
    info.off ==> if info.zero then info.rlo <= info.dlo else info.rlo == info.dlo
  }

  ghost predicate KeysOk(slots: seq<Slot>, info: Info) {
    && |slots| >= 1
    && SortedSlots(slots)
    && (forall j | 1 <= j < |slots| :: Admits(info, slots[j].key) && (info.off ==> info.dlo < slots[j].key))
    && (info.off && info.zero ==> Admits(info, slots[0].key))
    && (info.off && info.zero ==> forall j | 1 <= j < |slots| :: slots[0].key < slots[j].key)
  }

  ghost predicate ChildOk(S: Store, I: Shape, p: PageId, j: nat)
    requires p in S && S[p].Internal? && j < |S[p].slots|
    requires p in I && I[p].level > 0
  {
    var c := S[p].slots[j].child;
    c in S && c in I && S[c].parent == p && I[c] == ChildInfo(I[p], S[p].slots, j)
  }

  /** The next leaf starts where this one ends. */
  ghost predicate ChainOk(S: Store, I: Shape, p: PageId)
    requires p in S && S[p].Leaf? && p in I
  {
    if I[p].top then
      S[p].next == INVALID_PAGE_ID
    else
      var n := S[p].next;
      n in S && S[n].Leaf? && n in I && I[n].off && I[n].rlo == I[p].hi
  }

  ghost predicate PageOk(S: Store, I: Shape, p: PageId)
    requires p in S && p in I
  {
    && BoundsOk(I[p])
    && if S[p].Leaf? then
         && I[p].level == 0
         && SortedEntries(S[p].entries)
         && (forall i | 0 <= i < |S[p].entries| :: Admits(I[p], S[p].entries[i].key))
         && ChainOk(S, I, p)
       else
         && I[p].level > 0
         && KeysOk(S[p].slots, I[p])
         && (forall j | 0 <= j < |S[p].slots| :: ChildOk(S, I, p, j))
  }

  ghost predicate HasChild(slots: seq<Slot>, c: PageId) {
    exists j :: 0 <= j < |slots| && slots[j].child == c
  }

  ghost predicate LinkOk(S: Store, root: PageId, p: PageId)
    requires p in S
  {
    if p == root then
      S[p].parent == INVALID_PAGE_ID
    else
      var q := S[p].parent;
      q in S && S[q].Internal? && HasChild(S[q].slots, p)
  }

  /** Order, depth, parent pointers and leaf chain; page sizes are a separate condition. The order is the key-zero order
      when `I[root].zero` holds, and otherwise the search order. */
  ghost predicate Ordered(S: Store, I: Shape, root: PageId) {
    && root in S
    && INVALID_PAGE_ID !in S
    && I.Keys == S.Keys
    && I[root] == RootInfo(I[root].level, I[root].zero)
    && forall p {:trigger PageOk(S, I, p)} {:trigger LinkOk(S, root, p)} | p in S ::
         PageOk(S, I, p) && LinkOk(S, root, p) && I[p].level <= I[root].level
  }

  /** The key-zero order. */
  ghost predicate ZeroOrdered(S: Store, I: Shape, root: PageId) {
    Ordered(S, I, root) && I[root].zero
  }

  // ----- page sizes

  /** The `leaf_max_size_` and `internal_max_size_` of a tree. */
  datatype Caps = Caps(leafMax: nat, internalMax: nat)

  function MaxSize(c: Caps, page: Page): nat {
    if page.Leaf? then c.leafMax else c.internalMax
  }

  function MinSize(c: Caps, page: Page): nat {
    MaxSize(c, page) / 2
  }

  ghost predicate SizeOk(c: Caps, page: Page, isRoot: bool) {
    && page.Size() <= MaxSize(c, page)
    && page.Size() >= (if page.Leaf? then 1 else 2)
    && (!isRoot ==> page.Size() >= MinSize(c, page))
  }

  /** Every page but `x` is neither too full nor too empty. */
  ghost predicate SizedBut(S: Store, root: PageId, c: Caps, x: PageId) {
    forall p | p in S && p != x :: SizeOk(c, S[p], p == root)
  }

  ghost predicate Tree(S: Store, I: Shape, root: PageId, c: Caps) {
    Ordered(S, I, root) && SizedBut(S, root, c, INVALID_PAGE_ID)
  }

  /** A tree with the key-zero order. */
  ghost predicate ZeroTree(S: Store, I: Shape, root: PageId, c: Caps) {
    Tree(S, I, root, c) && I[root].zero
  }

  /** Whatever the shape that is known, the tree is one with the key-zero order. */
  ghost predicate HasZeroOrder(S: Store, root: PageId, c: Caps) {
    exists J :: ZeroTree(S, J, root, c)
  }

  /** A tree but for page `x`, which holds one pair too many. */
  ghost predicate Overfull(S: Store, I: Shape, root: PageId, c: Caps, x: PageId) {
    && Ordered(S, I, root) && SizedBut(S, root, c, x)
    && x in S && S[x].Size() == MaxSize(c, S[x]) + 1
  }

  /** A tree but for page `x`: below the root it holds one pair too few, as the root it has at least one child. */
  ghost predicate Underfull(S: Store, I: Shape, root: PageId, c: Caps, x: PageId) {
    && Ordered(S, I, root) && SizedBut(S, root, c, x)
    && x in S && S[x].Size() <= MaxSize(c, S[x])
    && if x == root then S[x].Internal? && S[x].Size() >= 1 else S[x].Size() + 1 == MinSize(c, S[x])
  }

  /** The two lower bounds agree everywhere: no search reaches a page for a key that the page cannot store. */
  ghost predicate Tight(I: Shape) {
    forall p | p in I && I[p].off :: I[p].rlo == I[p].dlo
  }

  ghost predicate Has(S: Store, e: Entry) {
    exists p :: p in S && S[p].Leaf? && e in S[p].entries
  }

  /** The children in `kids` get page `parent` as their parent. */
  function Adopt(S: Store, kids: seq<Slot>, parent: PageId): Store {
    map x | x in S :: if exists j | 0 <= j < |kids| :: kids[j].child == x then S[x].(parent := parent) else S[x]
  }

  // ----- consequences

  lemma RootFacts(S: Store, I: Shape, root: PageId)
    requires Ordered(S, I, root)
    ensures root in S && INVALID_PAGE_ID !in S && I.Keys == S.Keys && !I[root].off && I[root].top
  {
  }

  lemma PageFacts(S: Store, I: Shape, root: PageId, p: PageId)
    requires Ordered(S, I, root) && p in S
    ensures p in I && PageOk(S, I, p) && LinkOk(S, root, p) && I[p].level <= I[root].level
  {
    assert PageOk(S, I, p);
  }

  lemma ChildOf(S: Store, I: Shape, root: PageId, c: PageId) returns (p: PageId, j: nat)
    requires Ordered(S, I, root) && c in S && c != root
    ensures p == S[c].parent && p in S && S[p].Internal?
    ensures j < |S[p].slots| && S[p].slots[j].child == c && I[p].level == I[c].level + 1
    ensures I[c] == ChildInfo(I[p], S[p].slots, j)
    ensures PageOk(S, I, p) && I[p].level <= I[root].level
    ensures forall k | Covers(I[c], k) :: Covers(I[p], k)
    ensures j > 0 && I[p].off ==> I[p].rlo < I[c].rlo
  {
    p := S[c].parent;
    assert LinkOk(S, root, c);
    j :| 0 <= j < |S[p].slots| && S[p].slots[j].child == c;
    assert PageOk(S, I, p);
    assert ChildOk(S, I, p, j);
  }

  /** Either order holds for the whole tree. */
  lemma {:induction false} OneOrder(S: Store, I: Shape, root: PageId, p: PageId)
    requires Ordered(S, I, root) && p in S
    ensures I[p].zero == I[root].zero
    decreases I[root].level - I[p].level
  {
    if p != root {
      var q, j := ChildOf(S, I, root, p);
      OneOrder(S, I, root, q);
    }
  }

  lemma SiblingsDisjoint(info: Info, slots: seq<Slot>, i: nat, j: nat, k: Key)
    requires KeysOk(slots, info) && info.level > 0 && i < j < |slots|
    ensures !(Covers(ChildInfo(info, slots, i), k) && Covers(ChildInfo(info, slots, j), k))
  {
    assert slots[i + 1].key <= slots[j].key;
  }

  /** Pages of one level answer for disjoint intervals. */
  lemma {:induction false} UniqueAtLevel(S: Store, I: Shape, root: PageId, p: PageId, q: PageId, k: Key)
    requires Ordered(S, I, root) && p in S && q in S
    requires I[p].level == I[q].level && Covers(I[p], k) && Covers(I[q], k)
    ensures p == q
    decreases I[root].level - I[p].level
  {
    if p != root && q != root {
      var pp, i := ChildOf(S, I, root, p);
      var qq, j := ChildOf(S, I, root, q);
      UniqueAtLevel(S, I, root, pp, qq, k);
      if i < j {
        SiblingsDisjoint(I[pp], S[pp].slots, i, j, k);
      } else if j < i {
        SiblingsDisjoint(I[pp], S[pp].slots, j, i, k);
      }
    } else if p != root {
      var pp, i := ChildOf(S, I, root, p);
    } else if q != root {
      var qq, j := ChildOf(S, I, root, q);
    }
  }

  /** A key is stored in at most one place. */
  lemma OneEntryPerKey(S: Store, I: Shape, root: PageId, e: Entry, f: Entry)
    requires Ordered(S, I, root) && Has(S, e) && Has(S, f) && e.key == f.key
    ensures e == f
  {
    var p :| p in S && S[p].Leaf? && e in S[p].entries;
    var q :| q in S && S[q].Leaf? && f in S[q].entries;
    assert PageOk(S, I, p) && PageOk(S, I, q);
    UniqueAtLevel(S, I, root, p, q, e.key);
  }

  /** What the leaf that a search reaches holds for the key is all that the tree holds for it. */
  lemma LeafDecides(S: Store, I: Shape, root: PageId, p: PageId, e: Entry)
    requires Ordered(S, I, root) && p in S && S[p].Leaf? && Covers(I[p], e.key)
    ensures Has(S, e) <==> e in S[p].entries
  {
    if Has(S, e) {
      var q :| q in S && S[q].Leaf? && e in S[q].entries;
      assert PageOk(S, I, p) && PageOk(S, I, q);
      UniqueAtLevel(S, I, root, p, q, e.key);
    }
  }

  /** One step down: the child that a search picks answers for the key. */
  lemma RouteCovers(S: Store, I: Shape, root: PageId, p: PageId, k: Key, j: nat)
    requires Ordered(S, I, root) && p in S && S[p].Internal?
    requires Covers(I[p], k) && IsRoute(S[p].slots, k, j)
    ensures var c := S[p].slots[j].child; c in S && I[c].level + 1 == I[p].level && Covers(I[c], k)
  {
    assert PageOk(S, I, p);
    assert ChildOk(S, I, p, j);
  }

  // ----- a page's slots in two parts

  lemma KeysApart(info: Info, all: seq<Slot>, L: seq<Slot>, N: seq<Slot>)
    requires KeysOk(all, info) && all == L + N && |L| > 0 && |N| > 0
    ensures KeysOk(L, info.(top := false, hi := N[0].key))
    ensures KeysOk(N, Info(info.level, true, N[0].key, N[0].key, info.top, info.hi, info.zero))
    ensures info.off ==> info.dlo < N[0].key
    ensures info.top || N[0].key < info.hi
  {
    var m := |L|;
    assert forall k | 0 <= k < m :: L[k] == all[k];
    assert forall k | 0 <= k < |N| :: N[k] == all[m + k];
    assert Admits(info, all[m].key);
    assert info.off && info.zero ==> Admits(info, all[0].key);
  }

  lemma InfoApart(info: Info, all: seq<Slot>, L: seq<Slot>, N: seq<Slot>, k: nat)
    requires info.level > 0 && all == L + N && |L| > 0 && |N| > 0 && k < |all|
    ensures k < |L| ==>
      L[k] == all[k] && ChildInfo(info.(top := false, hi := N[0].key), L, k) == ChildInfo(info, all, k)
    ensures k >= |L| ==>
      var right := Info(info.level, true, N[0].key, N[0].key, info.top, info.hi, info.zero);
      N[k - |L|] == all[k] && ChildInfo(right, N, k - |L|) == ChildInfo(info, all, k)
  {
    assert k + 1 < |all| ==> all[k + 1] == if k + 1 < |L| then L[k + 1] else N[k + 1 - |L|];
  }

  // ----- what changes elsewhere leave alone

  /** A page stays in order when its contents and interval stay, and its children and its next leaf are still its. */
  lemma PageKept(S: Store, I: Shape, S': Store, I': Shape, p: PageId)
    requires p in S && p in S' && p in I && p in I'
    requires PageOk(S, I, p) && I'[p] == I[p]
    requires S'[p] == S[p].(parent := S'[p].parent)
    requires S[p].Internal? ==> forall c | c in S && c in I && S[c].parent == p ::
               c in S' && c in I' && S'[c].parent == p && I'[c] == I[c]
    requires S[p].Leaf? && !I[p].top ==>
               var n := S[p].next; n in S' && S'[n].Leaf? && n in I' && I'[n].off && I'[n].rlo == I[p].hi
    ensures PageOk(S', I', p)
  {
    if S[p].Internal? {
      forall j | 0 <= j < |S'[p].slots| ensures ChildOk(S', I', p, j) {
        assert ChildOk(S, I, p, j);
      }
    }
  }

  lemma LinkKept(S: Store, S': Store, root: PageId, p: PageId)
    requires p in S && p in S' && LinkOk(S, root, p) && S'[p].parent == S[p].parent
    requires p != root ==> var q := S[p].parent; q in S' && S'[q].Internal? && HasChild(S'[q].slots, p)
    ensures LinkOk(S', root, p)
  {
  }

  /** Stores with the same leaf entries hold the same entries. */
  lemma SameLeaves(S: Store, S': Store)
    requires forall x | x in S && S[x].Leaf? :: x in S' && S'[x].Leaf? && S'[x].entries == S[x].entries
    requires forall x | x in S' && S'[x].Leaf? :: x in S && S[x].Leaf?
    ensures forall e :: Has(S, e) <==> Has(S', e)
  {
    forall e ensures Has(S, e) <==> Has(S', e) {
      if Has(S, e) {
        var x :| x in S && S[x].Leaf? && e in S[x].entries;
        assert e in S'[x].entries;
      }
      if Has(S', e) {
        var x :| x in S' && S'[x].Leaf? && e in S'[x].entries;
        assert e in S[x].entries;
      }
    }
  }

  /** Two places of a page hold different children. */
  lemma KidsDistinct(S: Store, I: Shape, root: PageId, h: PageId, j: nat, k: nat)
    requires Ordered(S, I, root) && h in S && S[h].Internal? && j < |S[h].slots| && k < |S[h].slots|
    requires S[h].slots[j].child == S[h].slots[k].child
    ensures j == k
  {
    assert PageOk(S, I, h);
    assert ChildOk(S, I, h, j) && ChildOk(S, I, h, k);
  }
}
