/**
 The page-store changes an insertion makes, and what each of them keeps.
 */
module BPlusTreeInsert {
  import opened Basics
  import opened BPlusTreeNodes
  import opened BPlusTreeInvariant

  // ----- an entry goes into its leaf

  function LeafInsert(S: Store, p: PageId, i: nat, e: Entry): Store
    requires p in S && S[p].Leaf? && i <= |S[p].entries|
  {
    S[p := S[p].(entries := InsertAt(S[p].entries, i, e))]
  }

  lemma InsertAtMembers<T>(s: seq<T>, i: nat, x: T)
    requires i <= |s|
    ensures forall y :: y in InsertAt(s, i, x) <==> y == x || y in s
  {
    assert s == s[..i] + s[i..];
  }

  lemma InsertSorted(entries: seq<Entry>, i: nat, e: Entry)
    requires SortedEntries(entries) && IsKeyIndex(entries, e.key, i)
    requires forall f | f in entries :: f.key != e.key
    ensures SortedEntries(InsertAt(entries, i, e))
  {
    assert forall j | i <= j < |entries| :: entries[j] in entries;
  }

  lemma LeafInsertEntries(S: Store, p: PageId, i: nat, e: Entry)
    requires p in S && S[p].Leaf? && i <= |S[p].entries|
    ensures forall f :: Has(LeafInsert(S, p, i, e), f) <==> f == e || Has(S, f)
  {
    var S' := LeafInsert(S, p, i, e);
    InsertAtMembers(S[p].entries, i, e);
    assert S'[p].Leaf? && e in S'[p].entries;
    forall f | Has(S, f) ensures Has(S', f) {
      var x :| x in S && S[x].Leaf? && f in S[x].entries;
      assert f in S'[x].entries;
    }
    forall f | Has(S', f) ensures f == e || Has(S, f) {
      var x :| x in S' && S'[x].Leaf? && f in S'[x].entries;
      assert x == p || S'[x] == S[x];
    }
  }

  /** The store stays ordered. */
  lemma LeafInsertOrdered(S: Store, I: Shape, root: PageId, p: PageId, i: nat, e: Entry)
    requires Ordered(S, I, root) && p in S && S[p].Leaf? && Admits(I[p], e.key)
    requires IsKeyIndex(S[p].entries, e.key, i) && forall f | f in S[p].entries :: f.key != e.key
    ensures Ordered(LeafInsert(S, p, i, e), I, root)
  {
    var S' := LeafInsert(S, p, i, e);
    forall x | x in S' ensures PageOk(S', I, x) && LinkOk(S', root, x) && I[x].level <= I[root].level {
      assert PageOk(S, I, x) && LinkOk(S, root, x);
      if x == p {
        InsertSorted(S[p].entries, i, e);
        InsertAtMembers(S[p].entries, i, e);
        assert forall k | 0 <= k < |S'[p].entries| :: S'[p].entries[k] in S'[p].entries;
      } else {
        PageKept(S, I, S', I, x);
      }
      LinkKept(S, S', root, x);
    }
  }

  // ----- an overfull page is split

  /** How many pairs the page that is split keeps. */
  function Kept(size: nat): nat {
    size - size / 2
  }

  /** The upper half of the pairs of `p` moves to the new page `q` on its right. */
  function SplitPage(S: Store, p: PageId, q: PageId): Store
    requires p in S
  {
    match S[p]
    case Leaf(parent, next, entries) =>
      var m := Kept(|entries|);
      S[p := Leaf(parent, q, entries[..m])][q := Leaf(parent, next, entries[m..])]
    case Internal(parent, slots) =>
      var m := Kept(|slots|);
      Adopt(S[p := Internal(parent, slots[..m])][q := Internal(parent, slots[m..])], slots[m..], q)
  }

  /** The first key that moves: the separator between the halves. */
  function SplitKey(page: Page): Key
    requires page.Size() >= 2
  {
    if page.Leaf? then page.entries[Kept(|page.entries|)].key else page.slots[Kept(|page.slots|)].key
  }

  ghost function SplitShape(I: Shape, p: PageId, q: PageId, sep: Key): Shape
    requires p in I
  {
    I[p := I[p].(top := false, hi := sep)][q := Info(I[p].level, true, sep, sep, I[p].top, I[p].hi, I[p].zero)]
  }

  /** The new page is entered in the parent `r`, just after position `j`. */
  function LinkAfter(S: Store, r: PageId, j: nat, key: Key, q: PageId): Store
    requires r in S && S[r].Internal? && j < |S[r].slots|
  {
    S[r := S[r].(slots := InsertAt(S[r].slots, j + 1, Slot(key, q)))]
  }

  ghost predicate SameEntries(S: Store, S': Store) {
    forall e :: Has(S, e) <==> Has(S', e)
  }

  lemma SplitLeafEntries(S: Store, S': Store, p: PageId, q: PageId, m: nat)
    requires p in S && q !in S && S[p].Leaf? && m <= |S[p].entries|
    requires S'.Keys == S.Keys + {q} && S'[p].Leaf? && S'[q].Leaf?
    requires S'[p].entries == S[p].entries[..m] && S'[q].entries == S[p].entries[m..]
    requires forall x | x in S && x != p :: S'[x].Leaf? == S[x].Leaf? && (S[x].Leaf? ==> S'[x].entries == S[x].entries)
    ensures SameEntries(S, S')
  {
    assert S[p].entries == S'[p].entries + S'[q].entries;
    forall e ensures Has(S, e) <==> Has(S', e) {
      if Has(S, e) {
        var x :| x in S && S[x].Leaf? && e in S[x].entries;
        assert e in S'[x].entries || e in S'[q].entries;
      }
      if Has(S', e) {
        var x :| x in S' && S'[x].Leaf? && e in S'[x].entries;
        assert e in S[if x == q then p else x].entries;
      }
    }
  }

  lemma HasChildInsert(slots: seq<Slot>, i: nat, x: Slot, c: PageId)
    requires i <= |slots|
    ensures x.child == c || HasChild(slots, c) ==> HasChild(InsertAt(slots, i, x), c)
  {
    var more := InsertAt(slots, i, x);
    if x.child == c {
      assert more[i].child == c;
    } else if HasChild(slots, c) {
      var k :| 0 <= k < |slots| && slots[k].child == c;
      assert more[if k < i then k else k + 1].child == c;
    }
  }

  /** What a parent `r` sees when `q` is entered after child `j`. */
  ghost predicate Entered(S: Store, I: Shape, S': Store, I': Shape, r: PageId, j: nat, q: PageId, sep: Key) {
    && r in S && r in I && S[r].Internal? && PageOk(S, I, r) && j < |S[r].slots|
    && r in S' && r in I' && I'[r] == I[r] && S'[r].Internal?
    && S'[r].slots == InsertAt(S[r].slots, j + 1, Slot(sep, q))
    && var p := S[r].slots[j].child;
    && p in S && p in I && p in S' && p in I' && S'[p].parent == r && I'[p] == I[p].(top := false, hi := sep)
    && (I[p].off ==> I[p].dlo < sep) && Covers(I[p], sep)
    && q in S' && q in I' && S'[q].parent == r
    && I'[q] == Info(I[p].level, true, sep, sep, I[p].top, I[p].hi, I[p].zero)
    && forall c | c in S && c in I && S[c].parent == r && c != p ::
         c in S' && c in I' && S'[c].parent == r && I'[c] == I[c]
  }

  lemma EnteredBefore(S: Store, I: Shape, S': Store, I': Shape, r: PageId, j: nat, q: PageId, sep: Key, i: nat)
    requires Entered(S, I, S', I', r, j, q, sep) && i < j
    ensures ChildOk(S', I', r, i)
  {
    var slots := S[r].slots;
    assert ChildOk(S, I, r, j) && ChildOk(S, I, r, i);
    assert I[slots[i].child].hi == slots[i + 1].key <= slots[j].key;
  }

  lemma EnteredHere(S: Store, I: Shape, S': Store, I': Shape, r: PageId, j: nat, q: PageId, sep: Key)
    requires Entered(S, I, S', I', r, j, q, sep)
    ensures ChildOk(S', I', r, j) && ChildOk(S', I', r, j + 1)
  {
    assert ChildOk(S, I, r, j);
  }

  lemma EnteredAfter(S: Store, I: Shape, S': Store, I': Shape, r: PageId, j: nat, q: PageId, sep: Key, i: nat)
    requires Entered(S, I, S', I', r, j, q, sep) && j + 1 < i < |S'[r].slots|
    ensures ChildOk(S', I', r, i)
  {
    assert ChildOk(S, I, r, j) && ChildOk(S, I, r, i - 1);
    assert S'[r].slots[i] == S[r].slots[i - 1];
  }

  lemma EnteredKeys(slots: seq<Slot>, info: Info, j: nat, sep: Key, q: PageId)
    requires KeysOk(slots, info) && j < |slots| && Admits(info, sep) && (info.off ==> info.dlo < sep)
    requires j > 0 || (info.off && info.zero) ==> slots[j].key < sep
    requires j + 1 < |slots| ==> sep < slots[j + 1].key
    ensures KeysOk(InsertAt(slots, j + 1, Slot(sep, q)), info)
  {
    var more := InsertAt(slots, j + 1, Slot(sep, q));
    forall a, b | 1 <= a < b < |more| ensures more[a].key < more[b].key {
      assert more[a] == if a < j + 1 then slots[a] else if a == j + 1 then Slot(sep, q) else slots[a - 1];
      assert more[b] == if b < j + 1 then slots[b] else if b == j + 1 then Slot(sep, q) else slots[b - 1];
    }
    forall a | 1 <= a < |more|
      ensures Admits(info, more[a].key) && (info.off ==> info.dlo < more[a].key)
      ensures info.off && info.zero ==> slots[0].key < more[a].key
    {
      assert more[a] == if a < j + 1 then slots[a] else if a == j + 1 then Slot(sep, q) else slots[a - 1];
    }
    assert more[0] == slots[0];
  }

  /** The parent of a page that was split is in order once the new page is entered. */
  lemma LinkedParentOk(S: Store, I: Shape, S': Store, I': Shape, r: PageId, j: nat, q: PageId, sep: Key)
    requires Entered(S, I, S', I', r, j, q, sep)
    ensures PageOk(S', I', r)
  {
    assert ChildOk(S, I, r, j);
    EnteredKeys(S[r].slots, I[r], j, sep, q);
    forall i | 0 <= i < |S'[r].slots| ensures ChildOk(S', I', r, i) {
      if i < j {
        EnteredBefore(S, I, S', I', r, j, q, sep, i);
      } else if i <= j + 1 {
        EnteredHere(S, I, S', I', r, j, q, sep);
      } else {
        EnteredAfter(S, I, S', I', r, j, q, sep, i);
      }
    }
  }

  /** `S'` is `S` with `p` split into `p` and `q` and nothing else changed but the parents of the pages that moved. */
  ghost predicate SplitLinks(S: Store, S': Store, p: PageId, q: PageId, r: PageId)
    requires p in S && q !in S && r in S && S[r].Internal?
  {
    && S'.Keys == S.Keys + {q}
    && S'[p].parent == r && S'[q].parent == r
    && S'[r].Internal? && S'[r].parent == S[r].parent
    && (forall x | x in S && x != p && x != r ::
          S'[x] == S[x].(parent := S'[x].parent)
              && (S'[x].parent == S[x].parent || (S[x].parent == p && S'[x].parent == q)))
  }

  lemma SplitOther(S: Store, I: Shape, root: PageId, p: PageId, q: PageId, r: PageId, sep: Key, S': Store, x: PageId)
    requires Ordered(S, I, root) && p in S && p != root && q !in S
    requires r == S[p].parent && r in S && S[r].Internal? && SplitLinks(S, S', p, q, r) && S'[p].Leaf? == S[p].Leaf?
    requires x in S && x != p && x != r
    ensures PageOk(S', SplitShape(I, p, q, sep), x)
  {
    assert PageOk(S, I, x);
    PageKept(S, I, S', SplitShape(I, p, q, sep), x);
  }

  lemma SplitParent(S: Store, I: Shape, root: PageId, p: PageId, q: PageId, r: PageId, j: nat, sep: Key, S': Store)
    requires Ordered(S, I, root) && p in S && p != root && q !in S
    requires r == S[p].parent && r in S && S[r].Internal? && j < |S[r].slots| && S[r].slots[j].child == p
    requires (I[p].off ==> I[p].dlo < sep) && Covers(I[p], sep)
    requires SplitLinks(S, S', p, q, r)
    requires S'[r].slots == InsertAt(S[r].slots, j + 1, Slot(sep, q))
    ensures r != p && PageOk(S', SplitShape(I, p, q, sep), r)
  {
    assert PageOk(S, I, r) && PageOk(S, I, p) && ChildOk(S, I, r, j);
    LinkedParentOk(S, I, S', SplitShape(I, p, q, sep), r, j, q, sep);
  }

  lemma SplitLink(S: Store, I: Shape, root: PageId, p: PageId, q: PageId, r: PageId, j: nat, sep: Key, S': Store,
        x: PageId)
    requires Ordered(S, I, root) && p in S && p != root && q !in S
    requires r == S[p].parent && r in S && S[r].Internal? && j < |S[r].slots| && S[r].slots[j].child == p
    requires SplitLinks(S, S', p, q, r)
    requires S'[r].slots == InsertAt(S[r].slots, j + 1, Slot(sep, q))
    requires S[p].Internal? ==> forall y | y in S && S[y].parent == p :: LinkOk(S', root, y)
    requires x in S
    ensures LinkOk(S', root, x)
  {
    HasChildInsert(S[r].slots, j + 1, Slot(sep, q), x);
    assert LinkOk(S, root, x);
  }

  /** Joins what is known of the halves and of the parent. */
  lemma SplitStep(S: Store, I: Shape, root: PageId, p: PageId, q: PageId, r: PageId, j: nat, sep: Key, S': Store)
    requires Ordered(S, I, root) && p in S && p != root && q !in S && q != INVALID_PAGE_ID
    requires r == S[p].parent && r in S && S[r].Internal? && j < |S[r].slots| && S[r].slots[j].child == p
    requires (I[p].off ==> I[p].dlo < sep) && Covers(I[p], sep)
    requires SplitLinks(S, S', p, q, r)
    requires S'[r].slots == InsertAt(S[r].slots, j + 1, Slot(sep, q))
    requires var I' := SplitShape(I, p, q, sep); PageOk(S', I', p) && PageOk(S', I', q)
    requires S'[p].Leaf? == S[p].Leaf?
    requires S[p].Internal? ==> forall y | y in S && S[y].parent == p :: LinkOk(S', root, y)
    ensures Ordered(S', SplitShape(I, p, q, sep), root)
  {
    hide PageOk;
    var I' := SplitShape(I, p, q, sep);
    SplitParent(S, I, root, p, q, r, j, sep, S');
    HasChildInsert(S[r].slots, j + 1, Slot(sep, q), q);
    forall x | x in S' ensures PageOk(S', I', x) && LinkOk(S', root, x) && I'[x].level <= I'[root].level {
      if x != q {
        assert PageOk(S, I, x);
        if x != p && x != r {
          SplitOther(S, I, root, p, q, r, sep, S', x);
        }
        SplitLink(S, I, root, p, q, r, j, sep, S', x);
      } else {
        assert PageOk(S, I, p);
      }
    }
  }

  lemma SplitKeyInside(S: Store, I: Shape, p: PageId)
    requires p in S && p in I && S[p].Size() >= 2 && PageOk(S, I, p)
    ensures var sep := SplitKey(S[p]); (I[p].off ==> I[p].dlo < sep) && Covers(I[p], sep)
  {
    var m := Kept(S[p].Size());
    assert 0 < m < S[p].Size();
    if S[p].Leaf? {
      assert Admits(I[p], S[p].entries[0].key) && Admits(I[p], S[p].entries[m].key);
    } else {
      assert Admits(I[p], S[p].slots[m].key);
    }
  }

  lemma SplitLeafStep(S: Store, I: Shape, root: PageId, p: PageId, q: PageId, r: PageId, j: nat)
    requires Ordered(S, I, root) && p in S && p != root && S[p].Leaf? && |S[p].entries| >= 2
    requires q !in S && q != INVALID_PAGE_ID
    requires r == S[p].parent && r in S && S[r].Internal? && j < |S[r].slots| && S[r].slots[j].child == p
    ensures var sep := SplitKey(S[p]);
      var S' := LinkAfter(SplitPage(S, p, q), r, j, sep, q);
      Ordered(S', SplitShape(I, p, q, sep), root) && SameEntries(S, S')
  {
    var sep := SplitKey(S[p]);
    var S' := LinkAfter(SplitPage(S, p, q), r, j, sep, q);
    assert PageOk(S, I, p);
    SplitKeyInside(S, I, p);
    SplitStep(S, I, root, p, q, r, j, sep, S');
    SplitLeafEntries(S, S', p, q, Kept(|S[p].entries|));
  }

  lemma KidOf(S: Store, I: Shape, root: PageId, p: PageId, x: PageId) returns (i: nat)
    requires Ordered(S, I, root) && p in S && S[p].Internal? && x in S && S[x].parent == p
    ensures i < |S[p].slots| && S[p].slots[i].child == x
    ensures I[x].level + 1 == I[p].level && x != root
  {
    assert LinkOk(S, root, x);
    i :| 0 <= i < |S[p].slots| && S[p].slots[i].child == x;
    assert PageOk(S, I, p);
    assert ChildOk(S, I, p, i);
  }

  lemma SplitInternalHalves(S: Store, I: Shape, root: PageId, p: PageId, q: PageId, S': Store)
    requires Ordered(S, I, root) && p in S && S[p].Internal? && |S[p].slots| >= 2
    requires q !in S && q != INVALID_PAGE_ID && S'.Keys == S.Keys + {q}
    requires var m := Kept(|S[p].slots|);
      && S'[p].Internal? && S'[p].slots == S[p].slots[..m]
      && S'[q].Internal? && S'[q].slots == S[p].slots[m..]
      && forall i | 0 <= i < |S[p].slots| ::
           var c := S[p].slots[i].child; c in S' && S'[c].parent == if i < m then p else q
    ensures var I' := SplitShape(I, p, q, SplitKey(S[p])); PageOk(S', I', p) && PageOk(S', I', q)
  {
    var m := Kept(|S[p].slots|);
    var I' := SplitShape(I, p, q, SplitKey(S[p]));
    assert PageOk(S, I, p);
    var all, L, N := S[p].slots, S[p].slots[..m], S[p].slots[m..];
    assert all == L + N;
    KeysApart(I[p], all, L, N);
    forall i | 0 <= i < m ensures ChildOk(S', I', p, i) {
      assert ChildOk(S, I, p, i);
      InfoApart(I[p], all, L, N, i);
    }
    forall i | 0 <= i < |all| - m ensures ChildOk(S', I', q, i) {
      assert ChildOk(S, I, p, m + i);
      InfoApart(I[p], all, L, N, m + i);
    }
  }

  /** Every child ends up with the page that lists it as its parent. */
  lemma SplitAdopts(S: Store, I: Shape, root: PageId, p: PageId, q: PageId)
    requires Ordered(S, I, root) && p in S && S[p].Internal? && |S[p].slots| >= 2 && q !in S
    ensures var S' := SplitPage(S, p, q);
      var m := Kept(|S[p].slots|);
      && S'.Keys == S.Keys + {q}
      && S'[p] == Internal(S[p].parent, S[p].slots[..m]) && S'[q] == Internal(S[p].parent, S[p].slots[m..])
      && (forall x | x in S && x != p && S[x].parent != p :: S'[x] == S[x])
      && (forall x | x in S && x != p :: S'[x] == S[x].(parent := S'[x].parent))
      && (forall i | 0 <= i < |S[p].slots| ::
            var c := S[p].slots[i].child;
            c in S && c != p && S[c].parent == p && S'[c].parent == if i < m then p else q)
  {
    var S' := SplitPage(S, p, q);
    var m := Kept(|S[p].slots|);
    var kids := S[p].slots[m..];
    assert PageOk(S, I, p);
    forall i | 0 <= i < |S[p].slots|
      ensures var c := S[p].slots[i].child;
        c in S && c != p && c != q && S[c].parent == p && I[c].level + 1 == I[p].level
    {
      assert ChildOk(S, I, p, i);
    }
    assert forall k | 0 <= k < |kids| :: kids[k] == S[p].slots[m + k];
    forall i | 0 <= i < |S[p].slots|
      ensures var c := S[p].slots[i].child; S'[c].parent == if i < m then p else q
    {
      if i < m {
        forall k | 0 <= k < |kids| ensures kids[k].child != S[p].slots[i].child {
          if kids[k].child == S[p].slots[i].child {
            KidsDistinct(S, I, root, p, i, m + k);
          }
        }
      } else {
        assert kids[i - m].child == S[p].slots[i].child;
      }
    }
  }

  lemma SplitKidLinks(S: Store, I: Shape, root: PageId, p: PageId, q: PageId, S': Store, y: PageId)
    requires Ordered(S, I, root) && p in S && S[p].Internal? && |S[p].slots| >= 2
    requires y in S && S[y].parent == p && y in S' && p in S' && q in S'
    requires var m := Kept(|S[p].slots|);
      && S'[p].Internal? && S'[p].slots == S[p].slots[..m]
      && S'[q].Internal? && S'[q].slots == S[p].slots[m..]
      && forall i | 0 <= i < |S[p].slots| ::
           var c := S[p].slots[i].child; c in S' && S'[c].parent == if i < m then p else q
    ensures LinkOk(S', root, y)
  {
    var m := Kept(|S[p].slots|);
    var i := KidOf(S, I, root, p, y);
    if i < m {
      assert S'[p].slots[i].child == y;
    } else {
      assert S'[q].slots[i - m].child == y;
    }
  }

  lemma SplitInternalLinks(S: Store, I: Shape, root: PageId, p: PageId, q: PageId, r: PageId, j: nat)
    requires Ordered(S, I, root) && p in S && p != root && S[p].Internal? && |S[p].slots| >= 2 && q !in S
    requires r == S[p].parent && r in S && S[r].Internal? && j < |S[r].slots| && S[r].slots[j].child == p
    ensures r != p && r in SplitPage(S, p, q) && SplitPage(S, p, q)[r] == S[r]
    ensures SplitLinks(S, LinkAfter(SplitPage(S, p, q), r, j, SplitKey(S[p]), q), p, q, r)
  {
    SplitAdopts(S, I, root, p, q);
    assert PageOk(S, I, r) && ChildOk(S, I, r, j);
    if S[r].parent == p {
      var i := KidOf(S, I, root, p, r);
    }
    forall x | x in S && x != p && S[x].parent == p ensures SplitPage(S, p, q)[x].parent in {p, q} {
      var i := KidOf(S, I, root, p, x);
    }
  }

  lemma SplitInternalStep(S: Store, I: Shape, root: PageId, p: PageId, q: PageId, r: PageId, j: nat)
    requires Ordered(S, I, root) && p in S && p != root && S[p].Internal? && |S[p].slots| >= 2
    requires q !in S && q != INVALID_PAGE_ID
    requires r == S[p].parent && r in S && S[r].Internal? && j < |S[r].slots| && S[r].slots[j].child == p
    ensures r in SplitPage(S, p, q) && SplitPage(S, p, q)[r] == S[r]
    ensures var sep := SplitKey(S[p]);
      var S' := LinkAfter(SplitPage(S, p, q), r, j, sep, q);
      Ordered(S', SplitShape(I, p, q, sep), root) && SameEntries(S, S')
  {
    hide Ordered, PageOk, SplitShape;
    var sep := SplitKey(S[p]);
    SplitAdopts(S, I, root, p, q);
    SplitInternalLinks(S, I, root, p, q, r, j);
    PageFacts(S, I, root, p);
    var S' := LinkAfter(SplitPage(S, p, q), r, j, sep, q);
    SplitKeyInside(S, I, p);
    SplitInternalHalves(S, I, root, p, q, S');
    forall y | y in S && S[y].parent == p ensures LinkOk(S', root, y) {
      SplitKidLinks(S, I, root, p, q, S', y);
    }
    SplitStep(S, I, root, p, q, r, j, sep, S');
    SameLeaves(S, S');
  }

  // ----- a root that was split gets a new root above it

  function GrowRoot(S: Store, p: PageId, key: Key, q: PageId, n: PageId): Store
    requires p in S && q in S && S[p].Size() > 0
  {
    S[p := S[p].(parent := n)]
     [q := S[q].(parent := n)]
     [n := Internal(INVALID_PAGE_ID, [Slot(S[p].FirstKey(), p), Slot(key, q)])]
  }

  /** A root with a single child, put above the root: the state a root split is seen to start from. */
  ghost function RootAbove(S: Store, p: PageId, n: PageId): Store
    requires p in S && S[p].Size() > 0
  {
    S[p := S[p].(parent := n)][n := Internal(INVALID_PAGE_ID, [Slot(S[p].FirstKey(), p)])]
  }

  lemma RootAboveOrdered(S: Store, I: Shape, p: PageId, n: PageId)
    requires Ordered(S, I, p) && n !in S && n != INVALID_PAGE_ID && S[p].Size() > 0
    ensures Ordered(RootAbove(S, p, n), I[n := RootInfo(I[p].level + 1, I[p].zero)], n)
    ensures SameEntries(S, RootAbove(S, p, n))
  {
    var S' := RootAbove(S, p, n);
    var I' := I[n := RootInfo(I[p].level + 1, I[p].zero)];
    assert LinkOk(S, p, p);
    forall x | x in S' ensures PageOk(S', I', x) && LinkOk(S', n, x) && I'[x].level <= I'[n].level {
      if x != n {
        assert PageOk(S, I, x) && LinkOk(S, p, x);
        PageKept(S, I, S', I', x);
        assert S'[n].slots[0].child == p;
      }
    }
    SameLeaves(S, S');
  }

  lemma GrowIsLinkLeaf(S: Store, p: PageId, q: PageId, n: PageId)
    requires p in S && S[p].Leaf? && |S[p].entries| >= 2 && q !in S && n !in S && n != q
    ensures SplitPage(S, p, q)[p].Size() > 0
    ensures GrowRoot(SplitPage(S, p, q), p, SplitKey(S[p]), q, n)
         == LinkAfter(SplitPage(RootAbove(S, p, n), p, q), n, 0, SplitKey(S[p]), q)
  {
    var k0, sep := S[p].FirstKey(), SplitKey(S[p]);
    assert InsertAt([Slot(k0, p)], 1, Slot(sep, q)) == [Slot(k0, p), Slot(sep, q)];
    assert SplitPage(S, p, q)[p].FirstKey() == k0;
  }

  lemma GrowIsLinkInternal(S: Store, I: Shape, p: PageId, q: PageId, n: PageId)
    requires Ordered(S, I, p) && S[p].Internal? && |S[p].slots| >= 2
    requires q !in S && n !in S && n != q && q != INVALID_PAGE_ID && n != INVALID_PAGE_ID
    ensures SplitPage(S, p, q)[p].Size() > 0
    ensures var S0 := RootAbove(S, p, n);
      && n in SplitPage(S0, p, q) && SplitPage(S0, p, q)[n] == S0[n]
      && GrowRoot(SplitPage(S, p, q), p, SplitKey(S[p]), q, n)
          == LinkAfter(SplitPage(S0, p, q), n, 0, SplitKey(S[p]), q)
  {
    var S0 := RootAbove(S, p, n);
    var I0 := I[n := RootInfo(I[p].level + 1, I[p].zero)];
    RootAboveOrdered(S, I, p, n);
    SplitAdopts(S, I, p, p, q);
    SplitAdopts(S0, I0, n, p, q);
    var S1 := SplitPage(S, p, q);
    var S2 := SplitPage(S0, p, q);
    forall x | x in S && x != p ensures S1[x] == S2[x] {
      if S[x].parent == p {
        var i := KidOf(S, I, p, p, x);
      }
    }
    var k0, sep := S[p].FirstKey(), SplitKey(S[p]);
    assert InsertAt([Slot(k0, p)], 1, Slot(sep, q)) == [Slot(k0, p), Slot(sep, q)];
    assert S1[p].FirstKey() == k0;
    assert GrowRoot(S1, p, sep, q, n) == LinkAfter(S2, n, 0, sep, q);
  }

  /** The height grows by one and the tree stays in order. */
  lemma GrowStep(S: Store, I: Shape, p: PageId, q: PageId, n: PageId)
    requires Ordered(S, I, p) && S[p].Size() >= 2
    requires q !in S && n !in S && n != q && q != INVALID_PAGE_ID && n != INVALID_PAGE_ID
    ensures SplitPage(S, p, q)[p].Size() > 0
    ensures var sep := SplitKey(S[p]);
      var S' := GrowRoot(SplitPage(S, p, q), p, sep, q, n);
      && Ordered(S', SplitShape(I[n := RootInfo(I[p].level + 1, I[p].zero)], p, q, sep), n)
      && SameEntries(S, S')
  {
    var S0 := RootAbove(S, p, n);
    var I0 := I[n := RootInfo(I[p].level + 1, I[p].zero)];
    RootAboveOrdered(S, I, p, n);
    if S[p].Leaf? {
      GrowIsLinkLeaf(S, p, q, n);
      SplitLeafStep(S0, I0, n, p, q, n, 0);
    } else {
      GrowIsLinkInternal(S, I, p, q, n);
      SplitInternalStep(S0, I0, n, p, q, n, 0);
    }
  }

  // ----- page sizes on the way up

  lemma SplitSizes(S: Store, p: PageId, q: PageId)
    requires p in S && q !in S && S[p].Size() >= 2
    ensures var S' := SplitPage(S, p, q);
      && S'.Keys == S.Keys + {q}
      && S'[p].Size() == Kept(S[p].Size()) && S'[q].Size() == S[p].Size() / 2
      && S'[p].Leaf? == S[p].Leaf? && S'[q].Leaf? == S[p].Leaf?
      && (forall x | x in S && x != p :: S'[x] == S[x].(parent := S'[x].parent))
  {
  }

  /** After a split below the root, only the parent can hold one pair too many. */
  lemma LinkSizes(S: Store, I: Shape, root: PageId, c: Caps, p: PageId, q: PageId, r: PageId, j: nat)
    requires c.leafMax >= 1 && c.internalMax >= 3
    requires Overfull(S, I, root, c, p) && p != root && q !in S && q != INVALID_PAGE_ID
    requires r == S[p].parent && r in S && S[r].Internal? && j < |S[r].slots| && S[r].slots[j].child == p
    ensures r in SplitPage(S, p, q) && SplitPage(S, p, q)[r] == S[r]
    ensures var sep := SplitKey(S[p]);
      var S' := LinkAfter(SplitPage(S, p, q), r, j, sep, q);
      var I' := SplitShape(I, p, q, sep);
      && SameEntries(S, S')
      && if S'[r].Size() > c.internalMax then Overfull(S', I', root, c, r) else Tree(S', I', root, c)
  {
    hide Ordered, SplitShape;
    if S[p].Leaf? {
      SplitLeafStep(S, I, root, p, q, r, j);
    } else {
      SplitInternalStep(S, I, root, p, q, r, j);
    }
    var sep := SplitKey(S[p]);
    var S' := LinkAfter(SplitPage(S, p, q), r, j, sep, q);
    SplitSizes(S, p, q);
    assert SizeOk(c, S[r], r == root);
    forall x | x in S' && x != r ensures SizeOk(c, S'[x], x == root) {
      if x != p && x != q {
        assert SizeOk(c, S[x], x == root);
      }
    }
  }

  lemma GrowSizes(S: Store, I: Shape, c: Caps, p: PageId, q: PageId, n: PageId)
    requires c.leafMax >= 1 && c.internalMax >= 3
    requires Overfull(S, I, p, c, p)
    requires q !in S && n !in S && n != q && q != INVALID_PAGE_ID && n != INVALID_PAGE_ID
    ensures SplitPage(S, p, q)[p].Size() > 0
    ensures var sep := SplitKey(S[p]);
      var S' := GrowRoot(SplitPage(S, p, q), p, sep, q, n);
      && SameEntries(S, S')
      && Tree(S', SplitShape(I[n := RootInfo(I[p].level + 1, I[p].zero)], p, q, sep), n, c)
  {
    hide Ordered, Has;
    GrowStep(S, I, p, q, n);
    SplitSizes(S, p, q);
    var S' := GrowRoot(SplitPage(S, p, q), p, SplitKey(S[p]), q, n);
    forall x | x in S' ensures SizeOk(c, S'[x], x == n) {
      if x != p && x != q && x != n {
        assert SizeOk(c, S[x], x == p);
      }
    }
  }

  /** The same, for a store and a shape that were built step by step. */
  lemma Grown(S: Store, I: Shape, c: Caps, p: PageId, q: PageId, n: PageId, S': Store, I': Shape)
    requires c.leafMax >= 1 && c.internalMax >= 3
    requires Overfull(S, I, p, c, p)
    requires q !in S && n !in S && n != q && q != INVALID_PAGE_ID && n != INVALID_PAGE_ID
    requires var split := SplitPage(S, p, q);
      split[p].Size() > 0 && S' == GrowRoot(split, p, SplitKey(S[p]), q, n)
    requires I' == SplitShape(I[n := RootInfo(I[p].level + 1, I[p].zero)], p, q, SplitKey(S[p]))
    ensures SameEntries(S, S') && Tree(S', I', n, c)
  {
    GrowSizes(S, I, c, p, q, n);
  }

  lemma LeafInsertSizes(S: Store, I: Shape, root: PageId, c: Caps, p: PageId, i: nat, e: Entry)
    requires Tree(S, I, root, c) && p in S && S[p].Leaf? && Admits(I[p], e.key)
    requires IsKeyIndex(S[p].entries, e.key, i) && forall f | f in S[p].entries :: f.key != e.key
    ensures var S' := LeafInsert(S, p, i, e);
      if S'[p].Size() > c.leafMax then Overfull(S', I, root, c, p) else Tree(S', I, root, c)
  {
    LeafInsertOrdered(S, I, root, p, i, e);
    var S' := LeafInsert(S, p, i, e);
    forall x | x in S' && x != p ensures SizeOk(c, S'[x], x == root) {
      assert SizeOk(c, S[x], x == root);
    }
    assert SizeOk(c, S[p], p == root);
  }
}
