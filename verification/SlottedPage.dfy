/**
 The slotted page of a table as a value: a free space pointer, a slot directory, and the bytes the slots point into.
 Tuples are packed against the end of the page, so changing the length of one moves all that lie before it.
 */
module SlottedPages {
  import opened Basics
  import opened ByteCodec

  const SIZE_TABLE_PAGE_HEADER := 24
  const SIZE_TUPLE := 8
  const DELETE_MASK := 0x8000_0000

  datatype Slot = Slot(offset: nat, size: nat)

  datatype Page = Page(free: nat, slots: seq<Slot>, mem: seq<byte>)

  /** What a slot means: nothing, or a tuple that may be marked as deleted. */
  datatype SlotView = Free | Tuple(bytes: seq<byte>, deleted: bool)

  predicate IsDeleted(size: nat) {
    size >= DELETE_MASK || size == 0
  }

  function SetDeletedFlag(size: nat): nat {
    if size >= DELETE_MASK then size else size + DELETE_MASK
  }

  function UnsetDeletedFlag(size: nat): nat {
    if size >= DELETE_MASK then size - DELETE_MASK else size
  }

  /** The bytes a slot occupies, flagged or not. */
  function Extent(s: Slot): nat {
    UnsetDeletedFlag(s.size)
  }

  predicate Used(s: Slot) {
    s.size != 0
  }

  ghost predicate Inside(s: Slot, x: int) {
    Used(s) && s.offset <= x < s.offset + Extent(s)
  }

  ghost predicate SlotOk(p: Page, s: Slot) {
    Used(s) ==> 0 < Extent(s) && p.free <= s.offset && s.offset + Extent(s) <= PAGE_SIZE
  }

  ghost predicate Apart(s: Slot, t: Slot) {
    Used(s) && Used(t) ==> s.offset + Extent(s) <= t.offset || t.offset + Extent(t) <= s.offset
  }

  ghost predicate Covered(slots: seq<Slot>, x: int) {
    exists i :: 0 <= i < |slots| && Inside(slots[i], x)
  }

  /** The extents of the used slots partition the bytes from the free space pointer to the end of the page. */
  ghost predicate Packed(p: Page) {
    && |p.mem| == PAGE_SIZE
    && SIZE_TABLE_PAGE_HEADER + SIZE_TUPLE * |p.slots| <= p.free <= PAGE_SIZE
    && (forall i | 0 <= i < |p.slots| :: SlotOk(p, p.slots[i]))
    && (forall i, j | 0 <= i < j < |p.slots| :: Apart(p.slots[i], p.slots[j]))
    && (forall x | p.free <= x < PAGE_SIZE :: Covered(p.slots, x))
  }

  ghost function ViewSlot(p: Page, s: Slot): SlotView
    requires |p.mem| == PAGE_SIZE && SlotOk(p, s)
  {
    if Used(s) then Tuple(p.mem[s.offset..s.offset + Extent(s)], s.size >= DELETE_MASK) else Free
  }

  /** What the page holds, slot by slot. */
  ghost function View(p: Page): seq<SlotView>
    requires Packed(p)
  {
    seq(|p.slots|, i requires 0 <= i < |p.slots| => ViewSlot(p, p.slots[i]))
  }

  /** A page is read through its slots only. */
  ghost predicate SameBytes(p: Page, q: Page, from: nat) {
    |p.mem| == PAGE_SIZE == |q.mem| && forall x | from <= x < PAGE_SIZE :: q.mem[x] == p.mem[x]
  }

  // ----- a new tuple goes just before the others

  ghost predicate Inserted(p: Page, q: Page, s: nat, row: seq<byte>)
    requires s <= |p.slots|
  {
    && 0 < |row| < DELETE_MASK && |row| <= p.free
    && q.free == p.free - |row|
    && (s < |p.slots| ==> !Used(p.slots[s]))
    && q.slots == (if s < |p.slots| then p.slots[s := Slot(q.free, |row|)] else p.slots + [Slot(q.free, |row|)])
    && SIZE_TABLE_PAGE_HEADER + SIZE_TUPLE * |q.slots| <= q.free && p.free <= PAGE_SIZE
    && SameBytes(p, q, p.free) && q.mem[q.free..p.free] == row
  }

  lemma InsertedPacked(p: Page, q: Page, s: nat, row: seq<byte>)
    requires Packed(p) && s <= |p.slots| && Inserted(p, q, s, row)
    ensures Packed(q)
  {
    forall x | q.free <= x < PAGE_SIZE ensures Covered(q.slots, x) {
      if x < p.free {
        assert Inside(q.slots[s], x);
      } else {
        assert Covered(p.slots, x);
        var i :| 0 <= i < |p.slots| && Inside(p.slots[i], x);
        assert Inside(q.slots[i], x);
      }
    }
  }

  lemma InsertedView(p: Page, q: Page, s: nat, row: seq<byte>)
    requires Packed(p) && s <= |p.slots| && Inserted(p, q, s, row)
    ensures Packed(q)
    ensures View(q) == if s < |p.slots| then View(p)[s := Tuple(row, false)] else View(p) + [Tuple(row, false)]
  {
    InsertedPacked(p, q, s, row);
    forall i | 0 <= i < |p.slots| && i != s ensures ViewSlot(q, q.slots[i]) == ViewSlot(p, p.slots[i]) {
      var t := p.slots[i];
      if Used(t) {
        assert q.mem[t.offset..t.offset + Extent(t)] == p.mem[t.offset..t.offset + Extent(t)];
      }
    }
  }

  // ----- a tuple changes its length, down to nothing at all

  /** Slot `s` comes to hold `row`, or is freed when `row` is empty; tuples before it move by the difference in
      length. */
  ghost predicate Resized(p: Page, q: Page, s: nat, row: seq<byte>)
    requires s < |p.slots|
  {
    var t := p.slots[s];
    var shift := Extent(t) - |row|;
    && Used(t) && SlotOk(p, t) && |row| < DELETE_MASK
    && |p.mem| == PAGE_SIZE == |q.mem|
    && p.free + shift >= SIZE_TABLE_PAGE_HEADER + SIZE_TUPLE * |p.slots| && q.free == p.free + shift
    && |q.slots| == |p.slots|
    && q.slots[s] == (if row == [] then Slot(0, 0) else Slot(t.offset + shift, |row|))
    && (forall i | 0 <= i < |p.slots| && i != s ::
          q.slots[i].size == p.slots[i].size
          && q.slots[i].offset == if Used(p.slots[i]) && p.slots[i].offset < t.offset then p.slots[i].offset + shift
              else p.slots[i].offset)
    && (forall x | p.free <= x < t.offset :: q.mem[x + shift] == p.mem[x])
    && (forall x | 0 <= x < |row| :: q.mem[t.offset + shift + x] == row[x])
    && (forall x | t.offset + Extent(t) <= x < PAGE_SIZE :: q.mem[x] == p.mem[x])
  }

  /** Where a byte outside the old tuple goes. */
  function Moved(t: Slot, shift: int, x: int): int {
    if x < t.offset then x + shift else x
  }

  /** No other tuple starts inside this one. */
  lemma StartsElsewhere(p: Page, s: nat, i: nat)
    requires Packed(p) && s < |p.slots| && i < |p.slots| && i != s && Used(p.slots[s]) && Used(p.slots[i])
    ensures p.free <= p.slots[i].offset <= PAGE_SIZE
    ensures p.slots[i].offset < p.slots[s].offset + Extent(p.slots[s]) <==> p.slots[i].offset < p.slots[s].offset
  {
    assert SlotOk(p, p.slots[i]) && SlotOk(p, p.slots[s]);
    assert if i < s then Apart(p.slots[i], p.slots[s]) else Apart(p.slots[s], p.slots[i]);
  }

  /** The bytes of another tuple move along with its slot. */
  lemma ResizedBytes(p: Page, q: Page, s: nat, row: seq<byte>, u: Slot, o: nat)
    requires s < |p.slots| && Resized(p, q, s, row) && SlotOk(p, u) && Used(u)
    requires var t := p.slots[s]; u.offset + Extent(u) <= t.offset || t.offset + Extent(t) <= u.offset
    requires var t := p.slots[s]; o == if u.offset < t.offset then u.offset + Extent(t) - |row| else u.offset
    requires o + Extent(u) <= PAGE_SIZE
    ensures q.mem[o..o + Extent(u)] == p.mem[u.offset..u.offset + Extent(u)]
  {
    var t := p.slots[s];
    var shift := Extent(t) - |row|;
    var now, before := q.mem[o..o + Extent(u)], p.mem[u.offset..u.offset + Extent(u)];
    forall k | 0 <= k < Extent(u) ensures now[k] == before[k] {
      if u.offset < t.offset {
        assert q.mem[(u.offset + k) + shift] == p.mem[u.offset + k];
      }
    }
  }

  lemma ResizedSlot(p: Page, q: Page, s: nat, row: seq<byte>, i: nat)
    requires Packed(p) && s < |p.slots| && Resized(p, q, s, row) && i < |p.slots| && i != s
    ensures SlotOk(q, q.slots[i]) && ViewSlot(q, q.slots[i]) == ViewSlot(p, p.slots[i])
    ensures Used(p.slots[i]) ==> forall x ::
              Inside(p.slots[i], x) ==> Inside(q.slots[i], Moved(p.slots[s], Extent(p.slots[s]) - |row|, x))
  {
    var t, u := p.slots[s], p.slots[i];
    assert SlotOk(p, u) && (if i < s then Apart(u, t) else Apart(t, u));
    if Used(u) {
      ResizedBytes(p, q, s, row, u, q.slots[i].offset);
    }
  }

  lemma ResizedApart(p: Page, q: Page, s: nat, row: seq<byte>, i: nat, j: nat)
    requires Packed(p) && s < |p.slots| && Resized(p, q, s, row) && i < j < |p.slots|
    ensures Apart(q.slots[i], q.slots[j])
  {
    var t := p.slots[s];
    assert Apart(p.slots[i], p.slots[j]);
    assert i < s ==> Apart(p.slots[i], t);
    assert s < i ==> Apart(t, p.slots[i]);
    assert j < s ==> Apart(p.slots[j], t);
    assert s < j ==> Apart(t, p.slots[j]);
    assert SlotOk(p, t) && SlotOk(p, p.slots[i]) && SlotOk(p, p.slots[j]);
  }

  lemma ResizedCovers(p: Page, q: Page, s: nat, row: seq<byte>, y: int)
    requires Packed(p) && s < |p.slots| && Resized(p, q, s, row) && q.free <= y < PAGE_SIZE
    ensures Covered(q.slots, y)
  {
    var t := p.slots[s];
    var shift := Extent(t) - |row|;
    if t.offset + shift <= y < t.offset + Extent(t) {
      assert Inside(q.slots[s], y);
    } else {
      var x := if y < t.offset + shift then y - shift else y;
      assert Moved(t, shift, x) == y && p.free <= x < PAGE_SIZE;
      assert Covered(p.slots, x);
      var i :| 0 <= i < |p.slots| && Inside(p.slots[i], x);
      if i != s {
        ResizedSlot(p, q, s, row, i);
        assert Inside(q.slots[i], y);
      }
    }
  }

  /** Only slot `s` changes its meaning, and the page stays packed. */
  lemma ResizedView(p: Page, q: Page, s: nat, row: seq<byte>)
    requires Packed(p) && s < |p.slots| && Resized(p, q, s, row)
    ensures Packed(q)
    ensures View(q) == View(p)[s := if row == [] then Free else Tuple(row, false)]
  {
    hide Covered, Apart;
    forall i | 0 <= i < |q.slots| && i != s
      ensures SlotOk(q, q.slots[i]) && ViewSlot(q, q.slots[i]) == ViewSlot(p, p.slots[i])
    {
      ResizedSlot(p, q, s, row, i);
    }
    forall i, j | 0 <= i < j < |q.slots| ensures Apart(q.slots[i], q.slots[j]) {
      ResizedApart(p, q, s, row, i, j);
    }
    forall y | q.free <= y < PAGE_SIZE ensures Covered(q.slots, y) {
      ResizedCovers(p, q, s, row, y);
    }
    var t := q.slots[s];
    if row != [] {
      assert q.mem[t.offset..t.offset + |row|] == row;
    }
  }

  // ----- a flag changes

  /** Slot `s` keeps its place and gets a size that differs in the flag at most. */
  ghost predicate Flagged(p: Page, q: Page, s: nat, size: nat)
    requires s < |p.slots|
  {
    && Used(p.slots[s]) && size in {SetDeletedFlag(p.slots[s].size), UnsetDeletedFlag(p.slots[s].size)}
    && q.free == p.free && q.slots == p.slots[s := p.slots[s].(size := size)] && SameBytes(p, q, p.free)
  }

  lemma FlaggedPacked(p: Page, q: Page, s: nat, size: nat)
    requires Packed(p) && s < |p.slots| && Flagged(p, q, s, size)
    ensures Packed(q)
  {
    forall x | q.free <= x < PAGE_SIZE ensures Covered(q.slots, x) {
      assert Covered(p.slots, x);
      var i :| 0 <= i < |p.slots| && Inside(p.slots[i], x);
      assert Inside(q.slots[i], x);
    }
    forall i | 0 <= i < |q.slots| ensures SlotOk(q, q.slots[i]) {
      assert SlotOk(p, p.slots[i]);
    }
    forall i, j | 0 <= i < j < |q.slots| ensures Apart(q.slots[i], q.slots[j]) {
      assert Apart(p.slots[i], p.slots[j]);
    }
  }

  lemma FlaggedView(p: Page, q: Page, s: nat, size: nat)
    requires Packed(p) && s < |p.slots| && Flagged(p, q, s, size)
    ensures Packed(q)
    ensures View(q) == View(p)[s := View(p)[s].(deleted := size >= DELETE_MASK)]
  {
    FlaggedPacked(p, q, s, size);
    forall i | 0 <= i < |q.slots| && Used(p.slots[i])
      ensures var t := p.slots[i]; q.mem[t.offset..t.offset + Extent(t)] == p.mem[t.offset..t.offset + Extent(t)]
    {
      assert SlotOk(p, p.slots[i]);
    }
  }

  lemma UntouchedView(p: Page, q: Page)
    requires Packed(p) && q.free == p.free && q.slots == p.slots && SameBytes(p, q, p.free)
    ensures Packed(q) && View(q) == View(p)
  {
    forall i | 0 <= i < |p.slots| && Used(p.slots[i])
      ensures var t := p.slots[i]; q.mem[t.offset..t.offset + Extent(t)] == p.mem[t.offset..t.offset + Extent(t)]
    {
      assert SlotOk(p, p.slots[i]);
    }
  }

  // ----- no byte is lost

  function SumExtents(slots: seq<Slot>): nat {
    if slots == [] then 0
    else SumExtents(slots[..|slots| - 1]) + Extent(slots[|slots| - 1])
  }

  ghost function Interval(from: nat, to: nat): (r: set<int>)
    requires from <= to
    ensures (forall x :: x in r <==> from <= x < to) && |r| == to - from
  {
    if from == to then {} else Interval(from, to - 1) + {to - 1}
  }

  ghost function Bytes(slots: seq<Slot>): set<int> {
    set x | 0 <= x < PAGE_SIZE && Covered(slots, x)
  }

  ghost function Own(s: Slot): set<int> {
    if Used(s) then Interval(s.offset, s.offset + Extent(s)) else {}
  }

  lemma CoveredMore(slots: seq<Slot>, s: Slot, x: int)
    ensures Covered(slots + [s], x) <==> Covered(slots, x) || Inside(s, x)
  {
    var all := slots + [s];
    if Covered(slots, x) {
      var i :| 0 <= i < |slots| && Inside(slots[i], x);
      assert Inside(all[i], x);
    }
    if Inside(s, x) {
      assert Inside(all[|slots|], x);
    }
    if Covered(all, x) {
      var i :| 0 <= i < |all| && Inside(all[i], x);
      assert i < |slots| ==> Inside(slots[i], x);
    }
  }

  lemma BytesMore(slots: seq<Slot>, s: Slot)
    requires Used(s) ==> s.offset + Extent(s) <= PAGE_SIZE
    ensures Bytes(slots + [s]) == Bytes(slots) + Own(s)
  {
    forall x ensures x in Bytes(slots + [s]) <==> x in Bytes(slots) + Own(s) {
      CoveredMore(slots, s, x);
    }
  }

  lemma OwnApart(p: Page, n: nat, before: seq<Slot>)
    requires Packed(p) && n < |p.slots| && before == p.slots[..n]
    ensures forall x | x in Bytes(before) :: x !in Own(p.slots[n])
  {
    hide SlotOk, SameBytes;
    var s := p.slots[n];
    forall x | x in Bytes(before) ensures x !in Own(s) {
      var i :| 0 <= i < n && Inside(before[i], x);
      assert Apart(p.slots[i], s);
    }
  }

  lemma {:induction false} BytesCount(p: Page, n: nat)
    requires Packed(p) && n <= |p.slots|
    ensures |Bytes(p.slots[..n])| == SumExtents(p.slots[..n])
  {
    if n > 0 {
      BytesCount(p, n - 1);
      var before, s := p.slots[..n - 1], p.slots[n - 1];
      assert p.slots[..n] == before + [s];
      assert (before + [s])[..n - 1] == before;
      assert SlotOk(p, s);
      BytesMore(before, s);
      OwnApart(p, n - 1, before);
      assert |Own(s)| == Extent(s);
    } else {
      assert Bytes([]) == {};
    }
  }

  /** Every byte past the free space pointer belongs to one tuple, so the lengths add up to what is not free. */
  lemma PackedSum(p: Page)
    requires Packed(p)
    ensures SumExtents(p.slots) == PAGE_SIZE - p.free
  {
    BytesCount(p, |p.slots|);
    assert p.slots[..|p.slots|] == p.slots;
    forall x | x in Bytes(p.slots) ensures x in Interval(p.free, PAGE_SIZE) {
      var i :| 0 <= i < |p.slots| && Inside(p.slots[i], x);
      assert SlotOk(p, p.slots[i]);
    }
    assert Bytes(p.slots) == Interval(p.free, PAGE_SIZE);
  }

  /** The bytes that slots with this meaning take up, those of tuples marked as deleted included. */
  function Lengths(tuples: seq<SlotView>): nat {
    if tuples == [] then 0
    else
      var t := tuples[|tuples| - 1];
      Lengths(tuples[..|tuples| - 1]) + if t.Tuple? then |t.bytes| else 0
  }

  lemma {:induction false} LengthsAreExtents(p: Page, n: nat)
    requires Packed(p) && n <= |p.slots|
    ensures Lengths(View(p)[..n]) == SumExtents(p.slots[..n])
  {
    if n > 0 {
      LengthsAreExtents(p, n - 1);
      var s, t := p.slots[..n], View(p)[..n];
      assert s[..n - 1] == p.slots[..n - 1] && t[..n - 1] == View(p)[..n - 1];
      assert SlotOk(p, p.slots[n - 1]);
    }
  }

  /** What a packed page has left. */
  lemma FreeIsWhatIsLeft(p: Page)
    requires Packed(p)
    ensures p.free == PAGE_SIZE - Lengths(View(p))
  {
    LengthsAreExtents(p, |p.slots|);
    PackedSum(p);
    assert View(p)[..|p.slots|] == View(p) && p.slots[..|p.slots|] == p.slots;
  }
}
