/**
 The table page as 4096 bytes: header, slot directory growing up, tuples growing down. Every method is shown to make
 on the bytes the change that module `SlottedPages` describes, and so to change the meaning of its own slot
 only. */
module TablePages {
  import opened Basics
  import opened ByteCodec
  import opened SlottedPages

  type PageId = nat

  const OFFSET_LSN := 4
  const OFFSET_PREV_PAGE_ID := 8
  const OFFSET_NEXT_PAGE_ID := 12
  const OFFSET_FREE_SPACE := 16
  const OFFSET_TUPLE_COUNT := 20
  const OFFSET_TUPLE_OFFSET := 24
  const OFFSET_TUPLE_SIZE := 28
  const MAX_SLOTS := 509

  /** The words of the header that place the page in its table: nothing that happens to tuples may touch them. */
  datatype Links = Links(pageId: nat, lsn: nat, prevId: nat, nextId: nat)

  function LinksOf(b: seq<byte>): Links
    requires |b| == PAGE_SIZE
  {
    Links(ReadU32(b, 0), ReadU32(b, OFFSET_LSN), ReadU32(b, OFFSET_PREV_PAGE_ID), ReadU32(b, OFFSET_NEXT_PAGE_ID))
  }

  lemma SameLinks(b: seq<byte>, c: seq<byte>)
    requires |b| == PAGE_SIZE == |c| && forall x | 0 <= x < OFFSET_FREE_SPACE :: c[x] == b[x]
    ensures LinksOf(c) == LinksOf(b)
  {
    SameNumber(b, c, 0);
    SameNumber(b, c, OFFSET_LSN);
    SameNumber(b, c, OFFSET_PREV_PAGE_ID);
    SameNumber(b, c, OFFSET_NEXT_PAGE_ID);
  }

  /** The page format: the header, word by word. */
  lemma HeaderLayout(b: seq<byte>)
    requires |b| == PAGE_SIZE && CountOf(b) <= MAX_SLOTS
    ensures var l := LinksOf(b);
      b[..DirectoryEnd(0)] == U32Bytes(l.pageId) + U32Bytes(l.lsn) + U32Bytes(l.prevId) + U32Bytes(l.nextId)
                              + U32Bytes(HeadOf(b).free) + U32Bytes(|HeadOf(b).slots|)
  {
    hide SlotsOf;
    WordBytes(b, 0);
    WordBytes(b, 4);
    WordBytes(b, 8);
    WordBytes(b, 12);
    WordBytes(b, 16);
    WordBytes(b, 20);
    assert b[..24] == b[0..4] + b[4..8] + b[8..12] + b[12..16] + b[16..20] + b[20..24];
  }

  /** The page format: each slot of the directory, offset before size. */
  lemma SlotLayout(b: seq<byte>, i: nat)
    requires |b| == PAGE_SIZE && CountOf(b) <= MAX_SLOTS && i < |HeadOf(b).slots|
    ensures var t := HeadOf(b).slots[i];
      b[DirectoryEnd(i)..DirectoryEnd(i + 1)] == U32Bytes(t.offset) + U32Bytes(t.size)
  {
    SlotsAt(b, CountOf(b));
    var at := DirectoryEnd(i);
    WordBytes(b, at);
    WordBytes(b, at + 4);
    assert b[at..at + 8] == b[at..at + 4] + b[at + 4..at + 8];
  }

  lemma WordBytes(b: seq<byte>, at: nat)
    requires at + 4 <= |b|
    ensures U32Bytes(ReadU32(b, at)) == b[at..at + 4]
  {
    EncodeDecode(b[at..at + 4]);
  }

  /** What the header and the slot directory of a page say. */
  datatype Head = Head(free: nat, slots: seq<Slot>)

  function CountOf(b: seq<byte>): nat
    requires |b| == PAGE_SIZE
  {
    ReadU32(b, OFFSET_TUPLE_COUNT)
  }

  function SlotOf(b: seq<byte>, i: nat): Slot
    requires |b| == PAGE_SIZE && i < MAX_SLOTS
  {
    Slot(ReadU32(b, OFFSET_TUPLE_OFFSET + SIZE_TUPLE * i), ReadU32(b, OFFSET_TUPLE_SIZE + SIZE_TUPLE * i))
  }

  function HeadOf(b: seq<byte>): Head
    requires |b| == PAGE_SIZE && CountOf(b) <= MAX_SLOTS
  {
    Head(ReadU32(b, OFFSET_FREE_SPACE), SlotsOf(b, CountOf(b)))
  }

  lemma CountIs(b: seq<byte>)
    requires |b| == PAGE_SIZE && CountOf(b) <= MAX_SLOTS
    ensures |HeadOf(b).slots| == CountOf(b)
  {
  }

  /** The first `n` slots of the directory. */
  function SlotsOf(b: seq<byte>, n: nat): (slots: seq<Slot>)
    requires |b| == PAGE_SIZE && n <= MAX_SLOTS
    ensures |slots| == n
  {
    if n == 0 then [] else SlotsOf(b, n - 1) + [SlotOf(b, n - 1)]
  }

  lemma {:induction false} SlotsAt(b: seq<byte>, n: nat)
    requires |b| == PAGE_SIZE && n <= MAX_SLOTS
    ensures forall i | 0 <= i < n :: SlotsOf(b, n)[i] == SlotOf(b, i)
  {
    if n > 0 {
      SlotsAt(b, n - 1);
    }
  }

  function DirectoryEnd(count: nat): nat {
    SIZE_TABLE_PAGE_HEADER + SIZE_TUPLE * count
  }

  lemma SameNumber(b: seq<byte>, c: seq<byte>, at: nat)
    requires at + 4 <= |b| && at + 4 <= |c| && forall x | at <= x < at + 4 :: b[x] == c[x]
    ensures ReadU32(b, at) == ReadU32(c, at)
  {
    assert b[at..at + 4] == c[at..at + 4];
  }

  /** Header and directory are read from the bytes before the directory's end. */
  lemma SameHead(b: seq<byte>, c: seq<byte>)
    requires |b| == PAGE_SIZE == |c| && CountOf(b) <= MAX_SLOTS
    requires forall x | OFFSET_FREE_SPACE <= x < DirectoryEnd(CountOf(b)) :: c[x] == b[x]
    ensures CountOf(c) == CountOf(b) && HeadOf(c) == HeadOf(b)
  {
    SlotsAt(b, CountOf(b));
    SlotsAt(c, CountOf(b));
    SameNumber(b, c, OFFSET_FREE_SPACE);
    SameNumber(b, c, OFFSET_TUPLE_COUNT);
    forall i | 0 <= i < CountOf(b) ensures SlotOf(c, i) == SlotOf(b, i) {
      SameNumber(b, c, OFFSET_TUPLE_OFFSET + SIZE_TUPLE * i);
      SameNumber(b, c, OFFSET_TUPLE_SIZE + SIZE_TUPLE * i);
    }
    assert SlotsOf(c, CountOf(b)) == SlotsOf(b, CountOf(b));
  }

  lemma EnteredSlots(b: seq<byte>, c: seq<byte>, i: nat, t: Slot)
    requires |b| == PAGE_SIZE == |c| && i <= CountOf(b) < MAX_SLOTS
    requires CountOf(c) == CountOf(b) + (if i == CountOf(b) then 1 else 0) && SlotOf(c, i) == t
    requires ReadU32(c, OFFSET_FREE_SPACE) == ReadU32(b, OFFSET_FREE_SPACE)
    requires forall j | 0 <= j < CountOf(b) && j != i :: SlotOf(c, j) == SlotOf(b, j)
    ensures var h := HeadOf(b); HeadOf(c) == h.(slots := if i < |h.slots| then h.slots[i := t] else h.slots + [t])
  {
    SlotsAt(b, CountOf(b));
    SlotsAt(c, CountOf(c));
    var h := HeadOf(b);
    assert HeadOf(c).slots == if i < |h.slots| then h.slots[i := t] else h.slots + [t];
  }

  lemma OneSlotSet(b: seq<byte>, c: seq<byte>, i: nat, t: Slot)
    requires |b| == PAGE_SIZE == |c| && i < CountOf(b) <= MAX_SLOTS
    requires CountOf(c) == CountOf(b) && SlotOf(c, i) == t
    requires ReadU32(c, OFFSET_FREE_SPACE) == ReadU32(b, OFFSET_FREE_SPACE)
    requires forall j | 0 <= j < CountOf(b) && j != i :: SlotOf(c, j) == SlotOf(b, j)
    ensures var h := HeadOf(b); h.slots[i] == SlotOf(b, i) && HeadOf(c) == h.(slots := h.slots[i := t])
  {
    SlotsAt(b, CountOf(b));
    SlotsAt(c, CountOf(c));
    assert HeadOf(c).slots == HeadOf(b).slots[i := t];
  }

  function ToPage(b: seq<byte>): Page
    requires |b| == PAGE_SIZE && CountOf(b) <= MAX_SLOTS
  {
    Page(HeadOf(b).free, HeadOf(b).slots, b)
  }

  /** Used slots that point before `limit` are moved along. */
  ghost predicate IsShifted(slots: seq<Slot>, moved: seq<Slot>, limit: nat, shift: int) {
    && |moved| == |slots|
    && forall i | 0 <= i < |slots| ::
         && moved[i].size == slots[i].size
         && moved[i].offset == slots[i].offset + (if Used(slots[i]) && slots[i].offset < limit then shift else 0)
         && moved[i].offset < TWO_TO_THE_32
  }

  /** No other tuple starts inside tuple `s` of `p`, and none before the free space pointer. */
  ghost predicate StartsApart(p: Page, s: nat)
    requires s < |p.slots|
  {
    forall i | 0 <= i < |p.slots| && i != s && Used(p.slots[i]) ::
      && p.free <= p.slots[i].offset <= PAGE_SIZE
      && (p.slots[i].offset < p.slots[s].offset + Extent(p.slots[s]) <==> p.slots[i].offset < p.slots[s].offset)
  }

  lemma PackedStartsApart(p: Page, s: nat)
    requires Packed(p) && s < |p.slots| && Used(p.slots[s])
    ensures StartsApart(p, s)
  {
    forall i | 0 <= i < |p.slots| && i != s && Used(p.slots[i])
      ensures p.free <= p.slots[i].offset <= PAGE_SIZE
      ensures p.slots[i].offset < p.slots[s].offset + Extent(p.slots[s]) <==> p.slots[i].offset < p.slots[s].offset
    {
      StartsElsewhere(p, s, i);
    }
  }

  /** Where the tuples of `p` start once slot `s` has the length `size`. */
  ghost function ResizedSlots(p: Page, s: nat, size: nat): seq<Slot>
    requires s < |p.slots| && StartsApart(p, s) && p.free <= p.slots[s].offset && p.free + Extent(p.slots[s]) >= size
  {
    var shift := Extent(p.slots[s]) - size;
    seq(|p.slots|, i requires 0 <= i < |p.slots| =>
      if i == s then (if size == 0 then Slot(0, 0) else Slot(p.slots[s].offset + shift, size))
      else if Used(p.slots[i])
          && p.slots[i].offset < p.slots[s].offset then Slot(p.slots[i].offset + shift, p.slots[i].size)
      else p.slots[i])
  }

  lemma ResizedIsShifted(p: Page, s: nat, size: nat)
    requires s < |p.slots| && StartsApart(p, s) && p.free <= p.slots[s].offset && p.free + Extent(p.slots[s]) >= size
    requires Used(p.slots[s]) && Extent(p.slots[s]) > 0 && 0 < size
        && p.slots[s].offset + Extent(p.slots[s]) <= PAGE_SIZE
    requires forall i | 0 <= i < |p.slots| :: p.slots[i].offset < TWO_TO_THE_32
    ensures var t := p.slots[s];
      IsShifted(p.slots[s := Slot(t.offset, size)], ResizedSlots(p, s, size), t.offset + Extent(t), Extent(t) - size)
  {
  }

  lemma OffsetsBounded(b: seq<byte>)
    requires |b| == PAGE_SIZE && CountOf(b) <= MAX_SLOTS
    ensures forall i | 0 <= i < |HeadOf(b).slots| :: HeadOf(b).slots[i].offset < TWO_TO_THE_32
  {
    SlotsAt(b, CountOf(b));
    forall i | 0 <= i < CountOf(b) ensures HeadOf(b).slots[i].offset < TWO_TO_THE_32 {
      ReadBound(b, OFFSET_TUPLE_OFFSET + SIZE_TUPLE * i);
    }
  }

  ghost predicate BytesResized(before: seq<byte>, after: seq<byte>, free: nat, offset: nat, size: nat, row: seq<byte>)
    requires |before| == PAGE_SIZE == |after| && free <= offset && offset + size <= PAGE_SIZE
        && free + size - |row| >= 0
  {
    && (forall x | free <= x < offset :: after[x + (size - |row|)] == before[x])
    && (forall x | 0 <= x < |row| :: after[offset + (size - |row|) + x] == row[x])
    && (forall x | offset + size <= x < PAGE_SIZE :: after[x] == before[x])
  }

  lemma BytesAndSlots(p: Page, q: Page, s: nat, row: seq<byte>)
    requires s < |p.slots| && StartsApart(p, s) && SlotOk(p, p.slots[s]) && Used(p.slots[s])
    requires |p.mem| == PAGE_SIZE == |q.mem| && |row| <= PAGE_SIZE
    requires p.free + Extent(p.slots[s]) - |row| >= SIZE_TABLE_PAGE_HEADER + SIZE_TUPLE * |p.slots|
    requires q.free == p.free + Extent(p.slots[s]) - |row| && q.slots == ResizedSlots(p, s, |row|)
    requires BytesResized(p.mem, q.mem, p.free, p.slots[s].offset, Extent(p.slots[s]), row)
    ensures Resized(p, q, s, row)
  {
  }

  /** `n` bytes are moved from `free` to `to`, then the row is written at `at`, up to the old end of the tuple. */
  lemma MovedAndWritten(b: seq<byte>, c: seq<byte>, e: seq<byte>, d: seq<byte>, free: nat, offset: nat, size: nat,
        row: seq<byte>,
                        to: nat, n: nat, at: nat)
    requires |b| == PAGE_SIZE == |c| == |d| == |e| && OFFSET_TUPLE_COUNT <= free <= offset && offset + size <= PAGE_SIZE
    requires to == free + size - |row| && n == offset - free && at == offset + size - |row| && to >= OFFSET_TUPLE_COUNT
    requires c[to..to + n] == b[free..free + n]
    requires forall x | 0 <= x < PAGE_SIZE && !(to <= x < to + n) :: c[x] == b[x]
    requires forall x | OFFSET_TUPLE_COUNT <= x < PAGE_SIZE :: e[x] == c[x]
    requires d[at..at + |row|] == row
    requires forall x | 0 <= x < PAGE_SIZE && !(at <= x < at + |row|) :: d[x] == e[x]
    ensures BytesResized(b, d, free, offset, size, row)
  {
    forall x | free <= x < offset ensures d[x + (size - |row|)] == b[x] {
      var y := x + (size - |row|);
      assert c[to..to + n][x - free] == b[free..free + n][x - free];
      assert d[y] == e[y] == c[y];
    }
    forall k | 0 <= k < |row| ensures d[offset + (size - |row|) + k] == row[k] {
      assert d[at..at + |row|][k] == row[k];
    }
  }

  /** Writing in the directory does not disturb the tuples. */
  lemma BytesResizedKept(before: seq<byte>, mid: seq<byte>, next: seq<byte>, after: seq<byte>,
                         free: nat, offset: nat, size: nat, row: seq<byte>, count: nat)
    requires |before| == PAGE_SIZE == |after| == |mid| == |next| && free <= offset && offset + size <= PAGE_SIZE
    requires free + size - |row| >= DirectoryEnd(count)
    requires BytesResized(before, mid, free, offset, size, row)
    requires forall x | DirectoryEnd(count) <= x < PAGE_SIZE :: next[x] == mid[x]
    requires forall x | DirectoryEnd(count) <= x < PAGE_SIZE :: after[x] == next[x]
    ensures BytesResized(before, after, free, offset, size, row)
  {
    forall x | free <= x < offset ensures after[x + (size - |row|)] == before[x] {
      assert mid[x + (size - |row|)] == before[x];
    }
    forall x | 0 <= x < |row| ensures after[offset + (size - |row|) + x] == row[x] {
      assert mid[offset + (size - |row|) + x] == row[x];
    }
  }

  /** The row lies between the directory and the other tuples, and neither is disturbed by the other's writes. */
  lemma RowKept(b: seq<byte>, c: seq<byte>, d: seq<byte>, e: seq<byte>, at: nat, row: seq<byte>, free: nat, end: nat)
    requires |b| == PAGE_SIZE == |c| == |d| == |e| && OFFSET_TUPLE_COUNT <= end <= at && free == at + |row|
        && free <= PAGE_SIZE
    requires forall x | OFFSET_TUPLE_COUNT <= x < PAGE_SIZE :: c[x] == b[x]
    requires d[at..at + |row|] == row
    requires forall x | 0 <= x < PAGE_SIZE && !(at <= x < at + |row|) :: d[x] == c[x]
    requires forall x | end <= x < PAGE_SIZE :: e[x] == d[x]
    ensures e[at..free] == row
    ensures forall x | free <= x < PAGE_SIZE :: e[x] == b[x]
  {
    forall k | 0 <= k < |row| ensures e[at..free][k] == row[k] {
      assert d[at..at + |row|][k] == row[k];
    }
  }

  /** The bytes `b` are page `p` with the row put in, in slot `i`. */
  lemma PlacedView(p: Page, b: seq<byte>, i: nat, row: seq<byte>)
    requires Packed(p) && i <= |p.slots| && (i < |p.slots| ==> !Used(p.slots[i])) && |row| > 0
    requires DirectoryEnd(|p.slots| + 1) + |row| <= p.free
    requires |b| == PAGE_SIZE && CountOf(b) <= MAX_SLOTS
    requires var t := Slot(p.free - |row|, |row|);
      HeadOf(b) == Head(t.offset, if i < |p.slots| then p.slots[i := t] else p.slots + [t])
    requires b[p.free - |row|..p.free] == row
    requires forall x | p.free <= x < PAGE_SIZE :: b[x] == p.mem[x]
    ensures Packed(ToPage(b))
    ensures View(ToPage(b)) == if i < |p.slots| then View(p)[i := Tuple(row, false)] else View(p) + [Tuple(row, false)]
  {
    var q := ToPage(b);
    assert SameBytes(p, q, p.free);
    InsertedView(p, q, i, row);
  }

  /** The bytes `b` are page `p` with tuple `s` replaced. */
  lemma ResizedPage(p: Page, b: seq<byte>, s: nat, row: seq<byte>)
    requires Packed(p) && s < |p.slots| && !IsDeleted(p.slots[s].size) && 0 < |row| <= PAGE_SIZE && StartsApart(p, s)
    requires SlotOk(p, p.slots[s]) && p.free + p.slots[s].size - |row| >= DirectoryEnd(|p.slots|)
    requires |b| == PAGE_SIZE && CountOf(b) <= MAX_SLOTS
    requires HeadOf(b) == Head(p.free + p.slots[s].size - |row|, ResizedSlots(p, s, |row|))
    requires BytesResized(p.mem, b, p.free, p.slots[s].offset, p.slots[s].size, row)
    ensures Packed(ToPage(b)) && View(ToPage(b)) == View(p)[s := Tuple(row, false)]
  {
    var q := ToPage(b);
    BytesAndSlots(p, q, s, row);
    ResizedView(p, q, s, row);
  }

  lemma FreedIsShifted(p: Page, s: nat)
    requires s < |p.slots| && StartsApart(p, s) && p.free <= p.slots[s].offset && Used(p.slots[s])
    requires p.slots[s].offset + Extent(p.slots[s]) <= PAGE_SIZE
    requires forall i | 0 <= i < |p.slots| :: p.slots[i].offset < TWO_TO_THE_32
    ensures var t := p.slots[s]; IsShifted(p.slots[s := Slot(0, 0)], ResizedSlots(p, s, 0), t.offset, Extent(t))
  {
  }

  /** The bytes `b` are page `p` with slot `s` freed. */
  lemma FreedPage(p: Page, b: seq<byte>, s: nat)
    requires Packed(p) && s < |p.slots| && Used(p.slots[s]) && StartsApart(p, s) && SlotOk(p, p.slots[s])
    requires |b| == PAGE_SIZE && CountOf(b) <= MAX_SLOTS
    requires HeadOf(b) == Head(p.free + Extent(p.slots[s]), ResizedSlots(p, s, 0))
    requires BytesResized(p.mem, b, p.free, p.slots[s].offset, Extent(p.slots[s]), [])
    ensures Packed(ToPage(b)) && View(ToPage(b)) == View(p)[s := Free]
  {
    var q := ToPage(b);
    BytesAndSlots(p, q, s, []);
    ResizedView(p, q, s, []);
  }

  /** The bytes `b` are page `p` with the size field of slot `s` changed. */
  lemma FlaggedPage(p: Page, b: seq<byte>, s: nat, size: nat)
    requires Packed(p) && s < |p.slots|
    requires size in {SetDeletedFlag(p.slots[s].size), UnsetDeletedFlag(p.slots[s].size)}
    requires |b| == PAGE_SIZE && CountOf(b) <= MAX_SLOTS
    requires HeadOf(b) == Head(p.free, p.slots[s := p.slots[s].(size := size)])
    requires forall x | DirectoryEnd(s + 1) <= x < PAGE_SIZE :: b[x] == p.mem[x]
    ensures Used(p.slots[s]) ==>
      && Packed(ToPage(b))
      && View(ToPage(b)) == View(p)[s := View(p)[s].(deleted := size >= DELETE_MASK)]
    ensures !Used(p.slots[s]) && size == 0 ==> Packed(ToPage(b)) && View(ToPage(b)) == View(p)
  {
    var q := ToPage(b);
    if Used(p.slots[s]) {
      FlaggedView(p, q, s, size);
    } else if size == 0 {
      assert q.slots == p.slots;
      UntouchedView(p, q);
    }
  }

  /** What lies before the free space pointer's word is not part of any tuple. */
  lemma SameTuples(b: seq<byte>, c: seq<byte>)
    requires |b| == PAGE_SIZE == |c| && forall x | OFFSET_FREE_SPACE <= x < PAGE_SIZE :: c[x] == b[x]
    ensures CountOf(b) <= MAX_SLOTS ==> CountOf(c) == CountOf(b)
    ensures CountOf(b) <= MAX_SLOTS && Packed(ToPage(b)) ==> Packed(ToPage(c)) && View(ToPage(c)) == View(ToPage(b))
  {
    if CountOf(b) <= MAX_SLOTS {
      SameHead(b, c);
      if Packed(ToPage(b)) {
        UntouchedView(ToPage(b), ToPage(c));
      }
    }
  }

  class TablePage {
    const data: array<byte>

    ghost predicate Sized()
      reads this, data
    {
      data.Length == PAGE_SIZE && CountOf(data[..]) <= MAX_SLOTS
    }

    ghost predicate Valid()
      reads this, data
    {
      Sized() && Packed(ToPage(data[..]))
    }

    /** What the page holds, slot by slot. */
    ghost function Tuples(): seq<SlotView>
      requires Valid()
      reads this, data
    {
      View(ToPage(data[..]))
    }

    constructor ()
      ensures data.Length == PAGE_SIZE && fresh(data)
    {
      data := new byte[PAGE_SIZE](_ => 0);
    }

    // ----- numbers in the page

    function GetNumber(at: nat): (v: nat)
      requires data.Length == PAGE_SIZE && at + 4 <= PAGE_SIZE
      reads this, data
      ensures v == ReadU32(data[..], at)
    {
      assert data[at..at + 4] == data[..][at..at + 4];
      Decode(data[at..at + 4])
    }

    method SetNumber(at: nat, v: nat)
      requires data.Length == PAGE_SIZE && at + 4 <= PAGE_SIZE && v < TWO_TO_THE_32
      modifies data
      ensures ReadU32(data[..], at) == v
      ensures forall x | 0 <= x < PAGE_SIZE && !(at <= x < at + 4) :: data[x] == old(data[x])
      ensures forall k: nat | k + 4 <= PAGE_SIZE
          && (k + 4 <= at || at + 4 <= k) :: ReadU32(data[..], k) == ReadU32(old(data[..]), k)
    {
      ghost var b := data[..];
      var bytes := U32Bytes(v);
      data[at], data[at + 1], data[at + 2], data[at + 3] := bytes[0], bytes[1], bytes[2], bytes[3];
      assert data[..][at..at + 4] == bytes;
      ReadWritten(data[..], at, v);
      forall k: nat | k + 4 <= PAGE_SIZE && (k + 4 <= at || at + 4 <= k) ensures ReadU32(data[..], k) == ReadU32(b, k) {
        SameNumber(b, data[..], k);
      }
    }

    method SetPrevPageId(prevId: PageId)
      requires data.Length == PAGE_SIZE && prevId < TWO_TO_THE_32
      modifies data
      ensures LinksOf(data[..]) == old(LinksOf(data[..])).(prevId := prevId)
      ensures old(Valid()) ==> Valid() && Tuples() == old(Tuples())
    {
      ghost var b := data[..];
      SetNumber(OFFSET_PREV_PAGE_ID, prevId);
      SameTuples(b, data[..]);
    }

    method SetNextPageId(nextId: PageId)
      requires data.Length == PAGE_SIZE && nextId < TWO_TO_THE_32
      modifies data
      ensures LinksOf(data[..]) == old(LinksOf(data[..])).(nextId := nextId)
      ensures old(Valid()) ==> Valid() && Tuples() == old(Tuples())
    {
      ghost var b := data[..];
      SetNumber(OFFSET_NEXT_PAGE_ID, nextId);
      SameTuples(b, data[..]);
    }

    method GetFreeSpacePointer() returns (v: nat)
      requires Sized()
      ensures v == HeadOf(data[..]).free
    {
      v := GetNumber(OFFSET_FREE_SPACE);
    }

    method GetTupleCount() returns (v: nat)
      requires Sized()
      ensures v == |HeadOf(data[..]).slots|
    {
      v := GetNumber(OFFSET_TUPLE_COUNT);
    }

    method GetTupleOffsetAtSlot(i: nat) returns (v: nat)
      requires Sized() && i < |HeadOf(data[..]).slots|
      ensures v == HeadOf(data[..]).slots[i].offset
    {
      SlotsAt(data[..], CountOf(data[..]));
      v := GetNumber(OFFSET_TUPLE_OFFSET + SIZE_TUPLE * i);
    }

    method GetTupleSize(i: nat) returns (v: nat)
      requires Sized() && i < |HeadOf(data[..]).slots|
      ensures v == HeadOf(data[..]).slots[i].size
    {
      SlotsAt(data[..], CountOf(data[..]));
      v := GetNumber(OFFSET_TUPLE_SIZE + SIZE_TUPLE * i);
    }

    method SetFreeSpacePointer(free: nat)
      requires Sized() && free < TWO_TO_THE_32
      modifies data
      ensures Sized() && HeadOf(data[..]) == HeadOf(old(data[..])).(free := free)
      ensures LinksOf(data[..]) == old(LinksOf(data[..]))
      ensures forall x | OFFSET_TUPLE_COUNT <= x < PAGE_SIZE :: data[x] == old(data[x])
    {
      ghost var b := data[..];
      SetNumber(OFFSET_FREE_SPACE, free);
      SlotsAt(b, CountOf(b));
      SlotsAt(data[..], CountOf(b));
      assert forall i | 0 <= i < CountOf(b) :: SlotOf(data[..], i) == SlotOf(b, i);
      assert SlotsOf(data[..], CountOf(b)) == SlotsOf(b, CountOf(b));
    }

    method SetTupleOffsetAtSlot(i: nat, offset: nat)
      requires Sized() && i < |HeadOf(data[..]).slots| && offset < TWO_TO_THE_32
      modifies data
      ensures Sized()
      ensures LinksOf(data[..]) == old(LinksOf(data[..]))
      ensures var h := HeadOf(old(data[..]));
        HeadOf(data[..]) == h.(slots := h.slots[i := h.slots[i].(offset := offset)])
      ensures forall x | DirectoryEnd(i + 1) <= x < PAGE_SIZE :: data[x] == old(data[x])
    {
      ghost var b := data[..];
      SetNumber(OFFSET_TUPLE_OFFSET + SIZE_TUPLE * i, offset);
      ghost var b' := data[..];
      assert forall j | 0 <= j < CountOf(b) && j != i :: SlotOf(b', j) == SlotOf(b, j);
      OneSlotSet(b, b', i, SlotOf(b, i).(offset := offset));
    }

    method SetTupleSize(i: nat, size: nat)
      requires Sized() && i < |HeadOf(data[..]).slots| && size < TWO_TO_THE_32
      modifies data
      ensures Sized()
      ensures LinksOf(data[..]) == old(LinksOf(data[..]))
      ensures var h := HeadOf(old(data[..])); HeadOf(data[..]) == h.(slots := h.slots[i := h.slots[i].(size := size)])
      ensures forall x | DirectoryEnd(i + 1) <= x < PAGE_SIZE :: data[x] == old(data[x])
    {
      ghost var b := data[..];
      SetNumber(OFFSET_TUPLE_SIZE + SIZE_TUPLE * i, size);
      ghost var b' := data[..];
      assert forall j | 0 <= j < CountOf(b) && j != i :: SlotOf(b', j) == SlotOf(b, j);
      OneSlotSet(b, b', i, SlotOf(b, i).(size := size));
    }

    /** A slot is filled in; when it comes after all others it is a new one. */
    method EnterSlot(i: nat, offset: nat, size: nat)
      requires Sized() && i <= |HeadOf(data[..]).slots| < MAX_SLOTS && offset < TWO_TO_THE_32 && size < TWO_TO_THE_32
      modifies data
      ensures Sized()
      ensures LinksOf(data[..]) == old(LinksOf(data[..]))
      ensures var h := HeadOf(old(data[..]));
        HeadOf(data[..]) == h.(slots := if i < |h.slots| then h.slots[i := Slot(offset, size)]
            else h.slots + [Slot(offset, size)])
      ensures forall x | DirectoryEnd(i + 1) <= x < PAGE_SIZE :: data[x] == old(data[x])
    {
      ghost var b := data[..];
      var count := GetTupleCount();
      SetNumber(OFFSET_TUPLE_OFFSET + SIZE_TUPLE * i, offset);
      SetNumber(OFFSET_TUPLE_SIZE + SIZE_TUPLE * i, size);
      if i == count {
        SetNumber(OFFSET_TUPLE_COUNT, count + 1);
      }
      EnteredSlots(b, data[..], i, Slot(offset, size));
    }

    // ----- bytes past the directory

    /** `memmove`: the ranges may overlap. */
    method MemMove(dst: nat, src: nat, n: nat)
      requires Sized() && dst + n <= PAGE_SIZE && src + n <= PAGE_SIZE && DirectoryEnd(CountOf(data[..])) <= dst
      modifies data
      ensures Sized() && HeadOf(data[..]) == HeadOf(old(data[..]))
      ensures LinksOf(data[..]) == old(LinksOf(data[..]))
      ensures data[..][dst..dst + n] == old(data[..])[src..src + n]
      ensures forall x | 0 <= x < PAGE_SIZE && !(dst <= x < dst + n) :: data[x] == old(data[x])
    {
      ghost var b := data[..];
      forall k | 0 <= k < n {
        data[dst + k] := data[src + k];
      }
      SameHead(b, data[..]);
      SameLinks(b, data[..]);
    }

    /** Serialises a row into the page. */
    method Write(at: nat, bytes: seq<byte>)
      requires Sized() && at + |bytes| <= PAGE_SIZE && DirectoryEnd(CountOf(data[..])) <= at
      modifies data
      ensures Sized() && HeadOf(data[..]) == HeadOf(old(data[..]))
      ensures LinksOf(data[..]) == old(LinksOf(data[..]))
      ensures data[..][at..at + |bytes|] == bytes
      ensures forall x | 0 <= x < PAGE_SIZE && !(at <= x < at + |bytes|) :: data[x] == old(data[x])
    {
      ghost var b := data[..];
      forall k | 0 <= k < |bytes| {
        data[at + k] := bytes[k];
      }
      SameHead(b, data[..]);
      SameLinks(b, data[..]);
    }

    /** A new page has no tuples, and no page after it yet. */
    method Init(pageId: PageId, prevId: PageId)
      requires data.Length == PAGE_SIZE && pageId < TWO_TO_THE_32 && prevId < TWO_TO_THE_32
      modifies data
      ensures Valid() && Tuples() == []
      ensures LinksOf(data[..]) == Links(pageId, old(LinksOf(data[..])).lsn, prevId, TWO_TO_THE_32 - 1)
    {
      SetNumber(0, pageId);
      SetPrevPageId(prevId);
      SetNextPageId(TWO_TO_THE_32 - 1);
      SetNumber(OFFSET_FREE_SPACE, PAGE_SIZE);
      SetNumber(OFFSET_TUPLE_COUNT, 0);
    }

    // ----- insertion

    /** The first slot that is free, or the number of slots. */
    method FindFreeSlot() returns (i: nat)
      requires Sized()
      ensures var slots := HeadOf(data[..]).slots;
        i <= |slots| && (i < |slots| ==> !Used(slots[i])) && forall j | 0 <= j < i :: Used(slots[j])
    {
      i := 0;
      var count := GetTupleCount();
      while i < count
        invariant i <= count && forall j | 0 <= j < i :: Used(HeadOf(data[..]).slots[j])
      {
        var size := GetTupleSize(i);
        if size == 0 {
          return;
        }
        i := i + 1;
      }
    }

    method PlaceTuple(i: nat, row: seq<byte>, ghost h: Head)
      requires Sized() && HeadOf(data[..]) == h && i <= |h.slots| && |row| > 0
      requires DirectoryEnd(|h.slots| + 1) + |row| <= h.free <= PAGE_SIZE
      modifies data
      ensures Sized()
      ensures LinksOf(data[..]) == old(LinksOf(data[..]))
      ensures var t := Slot(h.free - |row|, |row|);
        && HeadOf(data[..]) == Head(h.free - |row|, if i < |h.slots| then h.slots[i := t] else h.slots + [t])
        && data[..][h.free - |row|..h.free] == row
        && (forall x | h.free <= x < PAGE_SIZE :: data[x] == old(data[x]))
    {
      hide HeadOf, LinksOf, SlotsOf, CountOf, ReadU32;
      CountIs(data[..]);
      var free := GetFreeSpacePointer();
      var at, size := free - |row|, |row|;
      ghost var b := data[..];
      SetFreeSpacePointer(at);
      ghost var c := data[..];
      CountIs(data[..]);
      Write(at, row);
      ghost var d := data[..];
      EnterSlot(i, at, size);
      RowKept(b, c, d, data[..], at, row, free, DirectoryEnd(i + 1));
    }

    /** Fails exactly when the row and one more slot do not fit; otherwise the first free slot, or a new one, holds
        the row. */
    method InsertTuple(row: seq<byte>) returns (ok: bool, slot: nat)
      requires Valid() && |row| > 0
      modifies data
      ensures Valid()
      ensures LinksOf(data[..]) == old(LinksOf(data[..]))
      ensures ok <==> DirectoryEnd(|old(Tuples())| + 1) + old(Lengths(Tuples())) + |row| <= PAGE_SIZE
      ensures !ok ==> data[..] == old(data[..])
      ensures ok ==> slot <= |old(Tuples())| && forall j | 0 <= j < slot :: old(Tuples())[j] != Free
      ensures ok && slot < |old(Tuples())| ==>
        old(Tuples())[slot] == Free && Tuples() == old(Tuples())[slot := Tuple(row, false)]
      ensures ok && slot == |old(Tuples())| ==> Tuples() == old(Tuples()) + [Tuple(row, false)]
    {
      hide HeadOf, LinksOf, SlotsOf, CountOf, ReadU32;
      ghost var p := ToPage(data[..]);
      FreeIsWhatIsLeft(p);
      var free := GetFreeSpacePointer();
      var count := GetTupleCount();
      if free - SIZE_TABLE_PAGE_HEADER - SIZE_TUPLE * count < |row| + SIZE_TUPLE {
        return false, 0;
      }
      slot := FindFreeSlot();
      PlaceTuple(slot, row, Head(p.free, p.slots));
      PlacedView(p, data[..], slot, row);
      ok := true;
    }

    // ----- changes of length

    /** Closes or opens the room: tuples before `offset` move by the difference in length, and the row takes the
        rest. */
    method ResizeBytes(offset: nat, size: nat, row: seq<byte>)
      requires Sized() && DirectoryEnd(|HeadOf(data[..]).slots|) <= HeadOf(data[..]).free <= offset
          && offset + size <= PAGE_SIZE
      requires HeadOf(data[..]).free + size - |row| >= DirectoryEnd(|HeadOf(data[..]).slots|)
      modifies data
      ensures Sized()
      ensures LinksOf(data[..]) == old(LinksOf(data[..]))
      ensures var h := HeadOf(old(data[..]));
        && HeadOf(data[..]) == h.(free := h.free + size - |row|)
        && BytesResized(old(data[..]), data[..], h.free, offset, size, row)
    {
      hide HeadOf, LinksOf, SlotsOf, CountOf, ReadU32;
      CountIs(data[..]);
      var free := GetFreeSpacePointer();
      var to, n, at := free + size - |row|, offset - free, offset + size - |row|;
      ghost var b := data[..];
      MemMove(to, free, n);
      ghost var c := data[..];
      SetFreeSpacePointer(to);
      ghost var e := data[..];
      CountIs(data[..]);
      Write(at, row);
      MovedAndWritten(b, c, e, data[..], free, offset, size, row, to, n, at);
    }

    method ShiftOne(i: nat, limit: nat, shift: int, ghost h: Head, ghost t: Slot)
      requires Sized() && HeadOf(data[..]) == h && i < |h.slots|
      requires t.size == h.slots[i].size && t.offset < TWO_TO_THE_32
      requires t.offset == h.slots[i].offset + if Used(h.slots[i]) && h.slots[i].offset < limit then shift else 0
      modifies data
      ensures Sized() && HeadOf(data[..]) == h.(slots := h.slots[i := t])
      ensures LinksOf(data[..]) == old(LinksOf(data[..]))
      ensures forall x | DirectoryEnd(|h.slots|) <= x < PAGE_SIZE :: data[x] == old(data[x])
    {
      hide LinksOf;
      var offset := GetTupleOffsetAtSlot(i);
      var size := GetTupleSize(i);
      if size > 0 && offset < limit {
        SetTupleOffsetAtSlot(i, offset + shift);
      } else {
        assert h.slots[i := t] == h.slots;
      }
    }

    /** The loop over the directory that follows: used slots that point before `limit` are moved along. */
    method ShiftOffsets(limit: nat, shift: int, ghost h: Head, ghost moved: seq<Slot>)
      requires Sized() && HeadOf(data[..]) == h && IsShifted(h.slots, moved, limit, shift)
      modifies data
      ensures Sized() && HeadOf(data[..]) == Head(h.free, moved)
      ensures LinksOf(data[..]) == old(LinksOf(data[..]))
      ensures forall x | DirectoryEnd(|h.slots|) <= x < PAGE_SIZE :: data[x] == old(data[x])
    {
      hide LinksOf;
      var count := GetTupleCount();
      ghost var now := h.slots;
      for i := 0 to count
        invariant Sized() && HeadOf(data[..]) == Head(h.free, now) && |now| == count
        invariant LinksOf(data[..]) == old(LinksOf(data[..]))
        invariant forall j | 0 <= j < i :: now[j] == moved[j]
        invariant forall j | i <= j < count :: now[j] == h.slots[j]
        invariant forall x | DirectoryEnd(count) <= x < PAGE_SIZE :: data[x] == old(data[x])
      {
        ShiftOne(i, limit, shift, Head(h.free, now), moved[i]);
        now := now[i := moved[i]];
      }
      assert now == moved;
    }

    method Resize(slot: nat, row: seq<byte>, ghost p: Page)
      requires Sized() && p == ToPage(data[..])
      requires slot < |p.slots| && !IsDeleted(p.slots[slot].size) && 0 < |row| <= PAGE_SIZE
      requires StartsApart(p, slot) && DirectoryEnd(|p.slots|) <= p.free <= p.slots[slot].offset
          && p.slots[slot].offset + p.slots[slot].size <= PAGE_SIZE
      requires p.free + p.slots[slot].size - |row| >= DirectoryEnd(|p.slots|)
      modifies data
      ensures Sized()
      ensures LinksOf(data[..]) == old(LinksOf(data[..]))
      ensures HeadOf(data[..]) == Head(p.free + p.slots[slot].size - |row|, ResizedSlots(p, slot, |row|))
      ensures BytesResized(p.mem, data[..], p.free, p.slots[slot].offset, p.slots[slot].size, row)
    {
      hide LinksOf, SlotsOf, ReadU32, BytesResized;
      var offset := GetTupleOffsetAtSlot(slot);
      var size := GetTupleSize(slot);
      var n := |row|;
      var limit, shift := offset + size, size - n;
      OffsetsBounded(data[..]);
      ResizedIsShifted(p, slot, n);
      ghost var free, count := p.free + shift, |p.slots|;
      ghost var slots, moved := p.slots[slot := Slot(offset, n)], ResizedSlots(p, slot, n);
      ResizeBytes(offset, size, row);
      ghost var mid := data[..];
      SetTupleSize(slot, n);
      ghost var next := data[..];
      ShiftOffsets(limit, shift, Head(free, slots), moved);
      BytesResizedKept(p.mem, mid, next, data[..], p.free, offset, size, row, count);
    }

    /** Fails, and changes nothing, exactly when the slot is unknown, free or flagged, or when the page is too full. */
    method UpdateTuple(slot: nat, newRow: seq<byte>) returns (ok: bool, oldRow: seq<byte>)
      requires Valid() && |newRow| > 0
      modifies data
      ensures Valid()
      ensures LinksOf(data[..]) == old(LinksOf(data[..]))
      ensures !ok ==> data[..] == old(data[..])
      ensures ok <==>
        && slot < |old(Tuples())| && old(Tuples())[slot].Tuple? && !old(Tuples())[slot].deleted
        && DirectoryEnd(|old(Tuples())|) + old(Lengths(Tuples())) - |old(Tuples())[slot].bytes| + |newRow| <= PAGE_SIZE
      ensures ok ==> oldRow == old(Tuples())[slot].bytes && Tuples() == old(Tuples())[slot := Tuple(newRow, false)]
    {
      hide LinksOf;
      ghost var p := ToPage(data[..]);
      var count := GetTupleCount();
      if slot >= count {
        return false, [];
      }
      assert SlotOk(p, p.slots[slot]);
      FreeIsWhatIsLeft(p);
      var size := GetTupleSize(slot);
      if IsDeleted(size) {
        return false, [];
      }
      var free := GetFreeSpacePointer();
      if free - SIZE_TABLE_PAGE_HEADER - SIZE_TUPLE * count + size < |newRow| {
        return false, [];
      }
      oldRow := ReadTuple(slot, p);
      PackedStartsApart(p, slot);
      Resize(slot, newRow, p);
      ResizedPage(p, data[..], slot, newRow);
      ok := true;
    }

    /** The bytes of a tuple that is not flagged. */
    method ReadTuple(slot: nat, ghost p: Page) returns (row: seq<byte>)
      requires Sized() && p == ToPage(data[..]) && Packed(p) && slot < |p.slots| && !IsDeleted(p.slots[slot].size)
      ensures View(p)[slot] == Tuple(row, false) && |row| == p.slots[slot].size
    {
      assert SlotOk(p, p.slots[slot]);
      var offset := GetTupleOffsetAtSlot(slot);
      var size := GetTupleSize(slot);
      row := data[offset..offset + size];
    }

    // ----- deletion in two steps

    /** Fails, and changes nothing, exactly when there is no live tuple in the slot. */
    method MarkDelete(slot: nat) returns (ok: bool)
      requires Valid()
      modifies data
      ensures Valid()
      ensures LinksOf(data[..]) == old(LinksOf(data[..]))
      ensures ok <==> slot < |old(Tuples())| && old(Tuples())[slot].Tuple? && !old(Tuples())[slot].deleted
      ensures !ok ==> data[..] == old(data[..])
      ensures ok ==> Tuples() == old(Tuples())[slot := old(Tuples())[slot].(deleted := true)]
    {
      hide LinksOf;
      ghost var p := ToPage(data[..]);
      var count := GetTupleCount();
      if slot >= count {
        return false;
      }
      assert SlotOk(p, p.slots[slot]);
      var size := GetTupleSize(slot);
      if IsDeleted(size) {
        return false;
      }
      SetTupleSize(slot, SetDeletedFlag(size));
      FlaggedPage(p, data[..], slot, SetDeletedFlag(size));
      return true;
    }

    /** A tuple marked as deleted is live again; any other slot is left as it is. */
    method RollbackDelete(slot: nat)
      requires Valid() && slot < |Tuples()|
      modifies data
      ensures Valid()
      ensures LinksOf(data[..]) == old(LinksOf(data[..]))
      ensures var was := old(Tuples());
        Tuples() == if was[slot].Tuple? then was[slot := was[slot].(deleted := false)] else was
    {
      hide LinksOf;
      ghost var p := ToPage(data[..]);
      assert SlotOk(p, p.slots[slot]);
      var size := GetTupleSize(slot);
      if IsDeleted(size) {
        SetTupleSize(slot, UnsetDeletedFlag(size));
        FlaggedPage(p, data[..], slot, UnsetDeletedFlag(size));
      }
    }

    method FreeSlot(slot: nat, offset: nat, size: nat, ghost p: Page)
      requires Sized() && p == ToPage(data[..]) && slot < |p.slots| && Used(p.slots[slot]) && StartsApart(p, slot)
      requires offset == p.slots[slot].offset && size == Extent(p.slots[slot]) > 0
      requires DirectoryEnd(|p.slots|) <= p.free <= offset && offset + size <= PAGE_SIZE
      modifies data
      ensures Sized() && HeadOf(data[..]) == Head(p.free + size, ResizedSlots(p, slot, 0))
      ensures LinksOf(data[..]) == old(LinksOf(data[..]))
      ensures BytesResized(p.mem, data[..], p.free, offset, size, [])
    {
      hide LinksOf, SlotsOf, ReadU32, BytesResized;
      OffsetsBounded(data[..]);
      ghost var free, slots, moved := p.free + size, p.slots[slot := Slot(0, 0)], ResizedSlots(p, slot, 0);
      FreedIsShifted(p, slot);
      ResizeBytes(offset, size, []);
      ghost var mid := data[..];
      SetTupleSize(slot, 0);
      SetTupleOffsetAtSlot(slot, 0);
      ghost var next := data[..];
      ShiftOffsets(offset, size, Head(free, slots), moved);
      BytesResizedKept(p.mem, mid, next, data[..], p.free, offset, size, [], |p.slots|);
    }

    /** Frees the slot and closes the gap, whether the tuple was marked as deleted or not. */
    method ApplyDelete(slot: nat)
      requires Valid() && slot < |Tuples()| && Tuples()[slot].Tuple?
      modifies data
      ensures Valid() && Tuples() == old(Tuples())[slot := Free]
      ensures LinksOf(data[..]) == old(LinksOf(data[..]))
    {
      hide LinksOf;
      ghost var p := ToPage(data[..]);
      assert SlotOk(p, p.slots[slot]);
      var offset := GetTupleOffsetAtSlot(slot);
      var size := GetTupleSize(slot);
      if IsDeleted(size) {
        size := UnsetDeletedFlag(size);
      }
      PackedStartsApart(p, slot);
      FreeSlot(slot, offset, size, p);
      FreedPage(p, data[..], slot);
    }

    // ----- reading

    /** Nothing for an unknown slot, a free one, or a tuple marked as deleted; otherwise the bytes last written
        there. */
    method GetTuple(slot: nat) returns (ok: bool, row: seq<byte>)
      requires Valid()
      ensures ok <==> slot < |Tuples()| && Tuples()[slot].Tuple? && !Tuples()[slot].deleted
      ensures ok ==> row == Tuples()[slot].bytes
    {
      ghost var p := ToPage(data[..]);
      row := [];
      var count := GetTupleCount();
      if slot >= count {
        return false, [];
      }
      assert SlotOk(p, p.slots[slot]);
      var size := GetTupleSize(slot);
      if IsDeleted(size) {
        return false, [];
      }
      row := ReadTuple(slot, p);
      ok := true;
    }

    /** The first live slot from `from` on. */
    method GetNextTupleRid(from: nat) returns (found: bool, slot: nat)
      requires Valid()
      ensures found ==> from <= slot < |Tuples()| && IsLive(Tuples()[slot])
      ensures found ==> forall j | from <= j < slot :: !IsLive(Tuples()[j])
      ensures !found ==> forall j | from <= j < |Tuples()| :: !IsLive(Tuples()[j])
    {
      hide HeadOf, LinksOf, SlotsOf, CountOf, ReadU32;
      var count := GetTupleCount();
      slot := from;
      while slot < count
        invariant from <= slot && forall j | from <= j < slot && j < count :: !IsLive(Tuples()[j])
      {
        assert SlotOk(ToPage(data[..]), ToPage(data[..]).slots[slot]);
        var size := GetTupleSize(slot);
        if !IsDeleted(size) {
          return true, slot;
        }
        slot := slot + 1;
      }
      return false, 0;
    }
  }

  predicate IsLive(v: SlotView) {
    v.Tuple? && !v.deleted
  }
}
