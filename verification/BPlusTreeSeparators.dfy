/**
 Moving a separator: what the key stored beside a child may be changed to.

 A key at position 1 or above bounds the whole left spine of the child to its right and the whole right spine of
 the child to its left, so changing it moves an end of the interval of pages at every level below.
 */
module BPlusTreeSeparators {
  import opened Basics
  import opened BPlusTreeNodes
  import opened BPlusTreeInvariant

  function SetKey(S: Store, q: PageId, i: nat, k: Key): Store
    requires q in S && S[q].Internal? && i < |S[q].slots|
  {
    S[q := S[q].(slots := S[q].slots[i := Slot(k, S[q].slots[i].child)])]
  }

  /** Nothing in page `d` is below `k`, the key at position 0 included. */
  ghost predicate Room(S: Store, d: PageId, k: Key)
    requires d in S
  {
    if S[d].Leaf? then forall i | 0 <= i < |S[d].entries| :: k <= S[d].entries[i].key
    else |S[d].slots| > 0 && k <= S[d].slots[0].key
  }

  /** Nothing that a search compares with in the page is below `k`. */
  ghost predicate Above(page: Page, k: Key) {
    if page.Leaf? then forall i | 0 <= i < |page.entries| :: k <= page.entries[i].key
    else forall j | 1 <= j < |page.slots| :: k < page.slots[j].key
  }

  /** Everything that a search compares with in the page is below `k`. */
  ghost predicate Below(page: Page, k: Key) {
    if page.Leaf? then forall i | 0 <= i < |page.entries| :: page.entries[i].key < k
    else forall j | 1 <= j < |page.slots| :: page.slots[j].key < k
  }

  /** Page `x` is on the left spine of `d`: not above it, and starting where it starts. */
  ghost predicate OnSpine(S: Store, I: Shape, d: PageId, x: PageId)
    requires d in I
  {
    x in S && x in I && I[x].off && I[x].rlo == I[d].rlo && I[x].level <= I[d].level
  }

  /** And on its right spine: ending where `d` ends. */
  ghost predicate OnRightSpine(S: Store, I: Shape, d: PageId, x: PageId)
    requires d in I
  {
    x in S && x in I && !I[x].top && I[x].hi == I[d].hi && I[x].level <= I[d].level
  }

  /** Page `d` may start at `k`: nothing on its left spine is below. With the key-zero order a look at `d` tells. */
  ghost predicate Clear(S: Store, I: Shape, d: PageId, k: Key)
    requires d in S && d in I
  {
    if I[d].zero then Room(S, d, k) else forall x | OnSpine(S, I, d, x) :: Above(S[x], k)
  }

  lemma SetKeyLinks(S: Store, root: PageId, q: PageId, i: nat, k: Key, x: PageId)
    requires q in S && S[q].Internal? && i < |S[q].slots| && x in S && LinkOk(S, root, x)
    ensures LinkOk(SetKey(S, q, i, k), root, x)
  {
    var S' := SetKey(S, q, i, k);
    if x != root && S[x].parent == q {
      var j :| 0 <= j < |S[q].slots| && S[q].slots[j].child == x;
      assert S'[q].slots[j].child == x;
    }
  }

  lemma SetKeyEntries(S: Store, q: PageId, i: nat, k: Key)
    requires q in S && S[q].Internal? && i < |S[q].slots|
    ensures forall e :: Has(S, e) <==> Has(SetKey(S, q, i, k), e)
  {
    var S' := SetKey(S, q, i, k);
    SameLeaves(S, S');
  }

  // ----- the key at position 0

  ghost function KeyZeroShape(S: Store, I: Shape, r: PageId, k: Key): Shape
    requires r in S && S[r].Internal? && |S[r].slots| > 0 && r in I && S[r].slots[0].child in I
  {
    var d := S[r].slots[0].child;
    if I[r].off && I[r].zero then I[d := I[d].(dlo := k)] else I
  }

  lemma KeyZeroParent(S: Store, I: Shape, S': Store, I': Shape, r: PageId, k: Key)
    requires r in S && r in I && PageOk(S, I, r) && S[r].Internal?
    requires r in S' && r in I' && I'[r] == I[r]
    requires var d := S[r].slots[0].child;
      && S'[r] == S[r].(slots := S[r].slots[0 := Slot(k, d)])
      && d in S && d in I && d in S' && d in I' && S'[d].parent == r
      && (I[r].off && I[r].zero ==> I[r].dlo <= k && (I[d].top || k < I[d].hi))
      && I'[d] == (if I[r].off && I[r].zero then I[d].(dlo := k) else I[d])
      && forall c | c in S && c in I && S[c].parent == r && c != d ::
           c in S' && c in I' && S'[c].parent == r && I'[c] == I[c]
    ensures PageOk(S', I', r)
  {
    assert ChildOk(S, I, r, 0);
    forall j | 0 <= j < |S'[r].slots| ensures ChildOk(S', I', r, j) {
      assert ChildOk(S, I, r, j);
    }
  }

  /** Only the lower bound for stored keys moves. */
  lemma KeyZeroChild(S: Store, I: Shape, S': Store, I': Shape, d: PageId, k: Key)
    requires d in S && d in I && PageOk(S, I, d) && Room(S, d, k) && I[d].off && I[d].zero && I[d].rlo <= k
        && (I[d].top || k < I[d].hi)
    requires d in S' && d in I' && S'[d] == S[d] && I'[d] == I[d].(dlo := k)
    requires S[d].Internal? ==> forall c | c in S && c in I && S[c].parent == d ::
               c in S' && c in I' && S'[c].parent == d && I'[c] == I[c]
    requires S[d].Leaf? && !I[d].top ==>
               var n := S[d].next; n in S' && S'[n].Leaf? && n in I' && I'[n].off && I'[n].rlo == I[d].hi
    ensures PageOk(S', I', d)
  {
    if S[d].Internal? {
      forall j | 0 <= j < |S'[d].slots| ensures ChildOk(S', I', d, j) {
        assert ChildOk(S, I, d, j);
      }
    }
  }

  lemma SetKeyZeroPage(S: Store, I: Shape, root: PageId, r: PageId, k: Key, x: PageId)
    requires Ordered(S, I, root) && r in S && S[r].Internal? && |S[r].slots| > 0 && x in S
    requires var d := S[r].slots[0].child;
      d in S && (I[r].off && I[r].zero ==> I[r].dlo <= k && Room(S, d, k) && (I[d].top || k < I[d].hi))
    ensures PageOk(SetKey(S, r, 0, k), KeyZeroShape(S, I, r, k), x)
  {
    hide Ordered, LinkOk, Room, KeysOk;
    PageFacts(S, I, root, r);
    PageFacts(S, I, root, x);
    assert ChildOk(S, I, r, 0);
    var d := S[r].slots[0].child;
    var S' := SetKey(S, r, 0, k);
    var I' := KeyZeroShape(S, I, r, k);
    if x == r {
      KeyZeroParent(S, I, S', I', r, k);
    } else if x == d && I[r].off && I[r].zero {
      KeyZeroChild(S, I, S', I', d, k);
    } else {
      PageKept(S, I, S', I', x);
    }
  }

  /** The key at position 0 may be any key; with the key-zero order, any between the page's lower bound and what lies
      below the first child. */
  lemma SetKeyZero(S: Store, I: Shape, root: PageId, r: PageId, k: Key)
    requires Ordered(S, I, root) && r in S && S[r].Internal? && |S[r].slots| > 0
    requires var d := S[r].slots[0].child;
      d in S && (I[r].off && I[r].zero ==> I[r].dlo <= k && Room(S, d, k) && (I[d].top || k < I[d].hi))
    ensures S[r].slots[0].child in I
    ensures Ordered(SetKey(S, r, 0, k), KeyZeroShape(S, I, r, k), root)
  {
    var d := S[r].slots[0].child;
    var S' := SetKey(S, r, 0, k);
    var I' := KeyZeroShape(S, I, r, k);
    forall x | x in S' ensures PageOk(S', I', x) && LinkOk(S', root, x) && I'[x].level <= I'[root].level {
      assert PageOk(S, I, x) && LinkOk(S, root, x);
      SetKeyLinks(S, root, r, 0, k, x);
      SetKeyZeroPage(S, I, root, r, k, x);
    }
    assert d != root by {
      assert PageOk(S, I, r);
      assert ChildOk(S, I, r, 0) && LinkOk(S, root, root);
    }
  }

  // ----- a key at position 1 or above

  lemma {:induction false} IntervalProper(S: Store, I: Shape, root: PageId, p: PageId)
    requires Ordered(S, I, root) && p in S
    ensures I[p].off && !I[p].top ==> I[p].rlo < I[p].hi
    decreases I[root].level - I[p].level
  {
    if p != root && I[p].off {
      var q, j := ChildOf(S, I, root, p);
      IntervalProper(S, I, root, q);
      assert j > 0 ==> Admits(I[q], S[q].slots[j].key);
      assert j + 1 < |S[q].slots| ==> Admits(I[q], S[q].slots[j + 1].key);
    }
  }

  /** No page below the level of `d` has `a` strictly inside its interval when `d` starts at `a`. */
  lemma {:induction false} NotInside(S: Store, I: Shape, root: PageId, d: PageId, y: PageId, a: Key)
    requires Ordered(S, I, root) && d in S && I[d].off && I[d].rlo == a && y in S
    requires I[y].level <= I[d].level && Covers(I[y], a) && Covers(I[d], a)
    ensures I[y].off && I[y].rlo == a
    decreases I[d].level - I[y].level
  {
    if I[y].level == I[d].level {
      UniqueAtLevel(S, I, root, y, d, a);
    } else {
      assert PageOk(S, I, d);
      var q, j := ChildOf(S, I, root, y);
      NotInside(S, I, root, d, q, a);
    }
  }

  /** The left spine of `d` stores nothing below the key at position 0 of `d`. */
  lemma {:induction false} SpineRoom(S: Store, I: Shape, root: PageId, d: PageId, x: PageId, k: Key)
    requires Ordered(S, I, root) && d in S && S[d].Internal? && Room(S, d, k) && I[d].off && I[root].zero
    requires x in S && I[x].off && I[x].rlo == I[d].rlo && I[x].level < I[d].level
    ensures k <= I[x].dlo
    decreases I[d].level - I[x].level
  {
    var a := I[d].rlo;
    assert PageOk(S, I, d);
    IntervalProper(S, I, root, d);
    IntervalProper(S, I, root, x);
    var q, j := ChildOf(S, I, root, x);
    NotInside(S, I, root, d, q, a);
    OneOrder(S, I, root, q);
    assert PageOk(S, I, q);
    if I[q].level == I[d].level {
      UniqueAtLevel(S, I, root, q, d, a);
    } else {
      SpineRoom(S, I, root, d, q, k);
    }
  }

  /** So nothing on it is below that key, whichever the order. */
  lemma SpineClear(S: Store, I: Shape, root: PageId, d: PageId, x: PageId, k: Key)
    requires Ordered(S, I, root) && d in S && Clear(S, I, d, k) && I[d].off
    requires OnSpine(S, I, d, x) && I[x].level < I[d].level
    ensures Above(S[x], k) && (I[x].zero ==> k <= I[x].dlo)
  {
    OneOrder(S, I, root, d);
    OneOrder(S, I, root, x);
    assert PageOk(S, I, x) && PageOk(S, I, d);
    if I[root].zero {
      SpineRoom(S, I, root, d, x, k);
    }
  }

  /** An end of the interval that is at `a` moves to `b`. */
  ghost function MovedInfo(info: Info, a: Key, b: Key): Info {
    info.(rlo := if info.off && info.rlo == a then b else info.rlo,
          dlo := if info.off && info.rlo == a && !info.zero then b else info.dlo,
          hi := if !info.top && info.hi == a then b else info.hi)
  }

  lemma MovedKid(info: Info, slots: seq<Slot>, j: nat, a: Key, b: Key)
    requires info.level > 0 && j < |slots|
    requires (j > 0 ==> slots[j].key != a) && (j + 1 < |slots| ==> slots[j + 1].key != a)
    ensures ChildInfo(MovedInfo(info, a, b), slots, j) == MovedInfo(ChildInfo(info, slots, j), a, b)
    ensures info.zero && info.off ==>
      ChildInfo(MovedInfo(info, a, b).(dlo := b), slots, j) == MovedInfo(ChildInfo(info, slots, j), a, b)
  {
  }

  /** The interval ends at `a` of the pages below level `level` move to `b`. */
  ghost function MoveBound(I: Shape, a: Key, b: Key, level: nat): Shape {
    map x | x in I :: if I[x].level < level then MovedInfo(I[x], a, b) else I[x]
  }

  ghost function SeparatorShape(S: Store, I: Shape, q: PageId, i: nat, b: Key): Shape
    requires q in S && S[q].Internal? && 0 < i < |S[q].slots| && q in I && S[q].slots[i].child in I
  {
    var d := S[q].slots[i].child;
    var J := MoveBound(I, S[q].slots[i].key, b, I[q].level);
    J[d := J[d].(dlo := b)]
  }

  /** Page `e` may end at `k`: everything on its right spine is below. */
  ghost predicate ClearBelow(S: Store, I: Shape, e: PageId, k: Key) {
    && e in S && e in I && (I[e].off ==> I[e].rlo < k)
    && forall x | OnRightSpine(S, I, e, x) :: Below(S[x], k)
  }

  /** The separator at position `i` of `q` may move to `b`: nothing below child `i` is smaller, and `b` stays below its
      end; with the search order it may also move down if everything below the child before is smaller. */
  ghost predicate CanMove(S: Store, I: Shape, root: PageId, q: PageId, i: nat, b: Key) {
    && Ordered(S, I, root) && q in S && S[q].Internal? && 0 < i < |S[q].slots| && I[q].level > 0
    && (S[q].slots[i].key <= b || (!I[root].zero && ClearBelow(S, I, S[q].slots[i - 1].child, b)))
    && var d := S[q].slots[i].child;
    && d in S && I[d] == ChildInfo(I[q], S[q].slots, i) && S[d].parent == q && I[q].level == I[d].level + 1
    && Clear(S, I, d, b) && (I[d].top || b < I[d].hi)
  }

  /** At the level of the moved child, only it starts and only its left sibling ends at the separator. */
  lemma EndsElsewhere(S: Store, I: Shape, root: PageId, q: PageId, i: nat, b: Key, c: PageId)
    requires CanMove(S, I, root, q, i, b) && c in S && I[c].level + 1 == I[q].level && S[c].parent != q
    ensures I[c].off ==> I[c].rlo != S[q].slots[i].key
    ensures !I[c].top ==> I[c].hi != S[q].slots[i].key
  {
    var a, d := S[q].slots[i].key, S[q].slots[i].child;
    assert PageOk(S, I, q);
    if I[c].off && I[c].rlo == a {
      IntervalProper(S, I, root, c);
      IntervalProper(S, I, root, d);
      UniqueAtLevel(S, I, root, c, d, a);
    }
    if !I[c].top && I[c].hi == a {
      var e := S[q].slots[i - 1].child;
      assert ChildOk(S, I, q, i - 1);
      IntervalProper(S, I, root, c);
      IntervalProper(S, I, root, e);
      UniqueAtLevel(S, I, root, c, e, a - 1);
    }
  }

  lemma SeparatorAbove(S: Store, I: Shape, root: PageId, q: PageId, i: nat, b: Key, x: PageId)
    requires CanMove(S, I, root, q, i, b) && x in S && x != q && I[x].level >= I[q].level
    ensures PageOk(SetKey(S, q, i, b), SeparatorShape(S, I, q, i, b), x)
  {
    var S' := SetKey(S, q, i, b);
    var I' := SeparatorShape(S, I, q, i, b);
    assert PageOk(S, I, x);
    forall c | c in S && S[c].parent == x ensures I'[c] == I[c] {
      if c != root {
        var y, j := ChildOf(S, I, root, c);
        if I[c].level + 1 == I[q].level {
          EndsElsewhere(S, I, root, q, i, b, c);
        }
      }
      assert LinkOk(S, root, root);
    }
    PageKept(S, I, S', I', x);
  }

  /** Below the separator no page has it strictly inside its interval. */
  lemma SeparatorNotBelow(S: Store, I: Shape, root: PageId, q: PageId, i: nat, b: Key, x: PageId, j: nat)
    requires CanMove(S, I, root, q, i, b) && x in S && S[x].Internal? && I[x].level < I[q].level
    requires 0 < j < |S[x].slots|
    ensures S[x].slots[j].key != S[q].slots[i].key
  {
    var a, d := S[q].slots[i].key, S[q].slots[i].child;
    assert PageOk(S, I, x);
    assert Admits(I[x], S[x].slots[j].key);
    if S[x].slots[j].key == a {
      IntervalProper(S, I, root, d);
      NotInside(S, I, root, d, x, a);
    }
  }

  lemma SeparatorBounds(S: Store, I: Shape, root: PageId, q: PageId, i: nat, b: Key, x: PageId)
    requires CanMove(S, I, root, q, i, b) && x in S && x != S[q].slots[i].child && I[x].level < I[q].level
    requires I[x].off && I[x].rlo == S[q].slots[i].key
    ensures Above(S[x], b) && (I[x].zero ==> b <= I[x].dlo)
  {
    var a, d := S[q].slots[i].key, S[q].slots[i].child;
    OneOrder(S, I, root, x);
    IntervalProper(S, I, root, x);
    IntervalProper(S, I, root, d);
    if I[x].level == I[d].level {
      UniqueAtLevel(S, I, root, x, d, a);
    } else {
      SpineClear(S, I, root, d, x, b);
    }
  }

  lemma SeparatorEnds(S: Store, I: Shape, root: PageId, q: PageId, i: nat, b: Key, x: PageId)
    requires CanMove(S, I, root, q, i, b) && x in S && I[x].level < I[q].level
    requires !I[x].top && I[x].hi == S[q].slots[i].key
    ensures b < S[q].slots[i].key ==> Below(S[x], b)
  {
    assert PageOk(S, I, q);
    assert ChildOk(S, I, q, i - 1);
    assert OnRightSpine(S, I, S[q].slots[i - 1].child, x);
  }

  /** The children of a page below the separator still get their intervals from it. */
  lemma SeparatorKid(S: Store, I: Shape, root: PageId, q: PageId, i: nat, b: Key, x: PageId, j: nat)
    requires CanMove(S, I, root, q, i, b) && x in S && S[x].Internal? && I[x].level < I[q].level && j < |S[x].slots|
    ensures var I' := SeparatorShape(S, I, q, i, b);
      x in SetKey(S, q, i, b) && SetKey(S, q, i, b)[x] == S[x] && x in I' && I'[x].level > 0
      && ChildOk(SetKey(S, q, i, b), I', x, j)
  {
    hide Ordered, Clear, ClearBelow, LinkOk, ChainOk, BoundsOk;
    PageFacts(S, I, root, x);
    assert ChildOk(S, I, x, j);
    if j > 0 {
      SeparatorNotBelow(S, I, root, q, i, b, x, j);
    }
    if j + 1 < |S[x].slots| {
      SeparatorNotBelow(S, I, root, q, i, b, x, j + 1);
    }
    MovedKid(I[x], S[x].slots, j, S[q].slots[i].key, b);
  }

  lemma SeparatorLeaf(S: Store, I: Shape, root: PageId, q: PageId, i: nat, b: Key, x: PageId)
    requires CanMove(S, I, root, q, i, b) && x in S && x != S[q].slots[i].child && S[x].Leaf?
    ensures PageOk(SetKey(S, q, i, b), SeparatorShape(S, I, q, i, b), x)
  {
    hide Ordered, Clear, ClearBelow, ChildOk, KeysOk, LinkOk;
    PageFacts(S, I, root, x);
    if I[x].off && I[x].rlo == S[q].slots[i].key {
      SeparatorBounds(S, I, root, q, i, b, x);
    }
    if !I[x].top && I[x].hi == S[q].slots[i].key {
      SeparatorEnds(S, I, root, q, i, b, x);
    }
    if !I[x].top {
      PageFacts(S, I, root, S[x].next);
    }
  }

  lemma SeparatorBelow(S: Store, I: Shape, root: PageId, q: PageId, i: nat, b: Key, x: PageId)
    requires CanMove(S, I, root, q, i, b) && x in S && x != S[q].slots[i].child && S[x].Internal?
        && I[x].level < I[q].level
    ensures PageOk(SetKey(S, q, i, b), SeparatorShape(S, I, q, i, b), x)
  {
    hide Clear, ClearBelow;
    OneOrder(S, I, root, x);
    assert PageOk(S, I, x);
    if I[x].off && I[x].rlo == S[q].slots[i].key {
      SeparatorBounds(S, I, root, q, i, b, x);
    }
    if !I[x].top && I[x].hi == S[q].slots[i].key {
      SeparatorEnds(S, I, root, q, i, b, x);
    }
    forall j | 0 <= j < |S[x].slots|
      ensures ChildOk(SetKey(S, q, i, b), SeparatorShape(S, I, q, i, b), x, j)
    {
      SeparatorKid(S, I, root, q, i, b, x, j);
    }
  }

  lemma SeparatorChild(S: Store, I: Shape, root: PageId, q: PageId, i: nat, b: Key)
    requires CanMove(S, I, root, q, i, b)
    ensures PageOk(SetKey(S, q, i, b), SeparatorShape(S, I, q, i, b), S[q].slots[i].child)
  {
    var d := S[q].slots[i].child;
    IntervalProper(S, I, root, d);
    assert PageOk(S, I, d) && OnSpine(S, I, d, d);
    if S[d].Leaf? {
      assert !I[d].top ==> PageOk(S, I, S[d].next);
    } else {
      forall j | 0 <= j < |S[d].slots|
        ensures ChildOk(SetKey(S, q, i, b), SeparatorShape(S, I, q, i, b), d, j)
      {
        SeparatorKid(S, I, root, q, i, b, d, j);
      }
    }
  }

  /** The intervals of the children around the separator. */
  lemma SeparatorInfo(info: Info, slots: seq<Slot>, i: nat, j: nat, b: Key)
    requires KeysOk(slots, info) && BoundsOk(info) && info.level > 0 && 0 < i < |slots| && j < |slots|
    ensures var moved := MovedInfo(ChildInfo(info, slots, j), slots[i].key, b);
      ChildInfo(info, slots[i := Slot(b, slots[i].child)], j) == if j == i then moved.(dlo := b) else moved
  {
    var a := slots[i].key;
    assert Admits(info, a);
    assert j > 0 && j != i ==> slots[j].key != a;
    assert j + 1 < |slots| && j + 1 != i ==> slots[j + 1].key != a;
  }

  lemma SeparatorKeys(info: Info, slots: seq<Slot>, i: nat, b: Key)
    requires KeysOk(slots, info) && 0 < i < |slots|
    requires (i > 1 || (info.off && info.zero) ==> slots[i - 1].key < b) && (info.off ==> info.dlo < b)
    requires if i + 1 < |slots| then b < slots[i + 1].key else info.top || b < info.hi
    ensures KeysOk(slots[i := Slot(b, slots[i].child)], info)
  {
    assert Admits(info, slots[i].key);
    assert i + 1 < |slots| ==> Admits(info, slots[i + 1].key);
    assert forall j | i < j < |slots| :: b < slots[j].key;
    assert forall j | 1 <= j < i - 1 :: slots[j].key < slots[i - 1].key;
  }

  lemma SeparatorParent(S: Store, I: Shape, root: PageId, q: PageId, i: nat, b: Key)
    requires CanMove(S, I, root, q, i, b)
    ensures PageOk(SetKey(S, q, i, b), SeparatorShape(S, I, q, i, b), q)
  {
    var S' := SetKey(S, q, i, b);
    var I' := SeparatorShape(S, I, q, i, b);
    assert PageOk(S, I, q) && PageOk(S, I, S[q].slots[i].child);
    assert ChildOk(S, I, q, i - 1);
    OneOrder(S, I, root, q);
    assert Admits(I[q], S[q].slots[i].key);
    SeparatorKeys(I[q], S[q].slots, i, b);
    forall j | 0 <= j < |S[q].slots| ensures ChildOk(S', I', q, j) {
      assert ChildOk(S, I, q, j) && ChildOk(S, I, q, i);
      SeparatorInfo(I[q], S[q].slots, i, j, b);
    }
  }

  lemma SetSeparator(S: Store, I: Shape, root: PageId, q: PageId, i: nat, b: Key)
    requires CanMove(S, I, root, q, i, b)
    ensures Ordered(SetKey(S, q, i, b), SeparatorShape(S, I, q, i, b), root)
  {
    var S' := SetKey(S, q, i, b);
    var I' := SeparatorShape(S, I, q, i, b);
    forall x | x in S' ensures PageOk(S', I', x) && LinkOk(S', root, x) && I'[x].level <= I'[root].level {
      assert PageOk(S, I, x) && LinkOk(S, root, x);
      SetKeyLinks(S, root, q, i, b, x);
      if x == q {
        SeparatorParent(S, I, root, q, i, b);
      } else if x == S[q].slots[i].child {
        SeparatorChild(S, I, root, q, i, b);
      } else if S[x].Leaf? {
        SeparatorLeaf(S, I, root, q, i, b, x);
      } else if I[x].level < I[q].level {
        SeparatorBelow(S, I, root, q, i, b, x);
      } else {
        SeparatorAbove(S, I, root, q, i, b, x);
      }
    }
    assert PageOk(S, I, q);
  }
}
