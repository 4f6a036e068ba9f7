/** Where pages lie in the file, and which of them are allocated (disk_manager.cpp). */
module DiskLayout {
  import opened Basics
  import opened BitmapPages

  /** The pages one bitmap page can record: its own header takes eight bytes. */
  const MAX_CHARS: nat := 4088
  const BITMAP_SIZE: nat := 32704

  /** The extents the meta page has room for. */
  const MAX_BITMAP: nat := 1022
  const MAX_VALID_PAGE_ID: nat := 33_423_488
  const META_PAGE_ID: nat := 0

  /** A physical page, as whoever wrote it last meant it.  A page never written reads as zeros. */
  datatype Physical = BitmapOnDisk(bitmap: Bitmap) | DataOnDisk(bytes: seq<bv8>)

  type File = map<nat, Physical>

  // -------------------------------------------------------------- Addresses

  function BitmapAddress(extent: nat): nat {
    extent * (BITMAP_SIZE + 1) + 1
  }

  function MapPageId(logical: nat): nat {
    (logical / BITMAP_SIZE) * (BITMAP_SIZE + 1) + logical % BITMAP_SIZE + 2
  }

  /** The logical pages lie one to one on the physical pages that are neither
      the meta page nor a bitmap page, and leave none of those out. */
  lemma MapPageIdIsInjective(a: nat, b: nat)
    requires MapPageId(a) == MapPageId(b)
    ensures a == b
  {
    SplitId(a);
    SplitId(b);
  }

  function ExtentOf(logical: nat): nat {
    logical / BITMAP_SIZE
  }

  function InnerOf(logical: nat): nat {
    logical % BITMAP_SIZE
  }

  lemma SplitId(logical: nat)
    ensures logical == ExtentOf(logical) * BITMAP_SIZE + InnerOf(logical)
    ensures InnerOf(logical) < BITMAP_SIZE
    ensures logical < MAX_VALID_PAGE_ID <==> ExtentOf(logical) < MAX_BITMAP
  {
  }

  lemma JoinId(extent: nat, inner: nat)
    requires inner < BITMAP_SIZE
    ensures ExtentOf(extent * BITMAP_SIZE + inner) == extent
    ensures InnerOf(extent * BITMAP_SIZE + inner) == inner
  {
  }

  lemma MapPageIdMissesReserved(logical: nat, extent: nat)
    ensures MapPageId(logical) != META_PAGE_ID
    ensures MapPageId(logical) != BitmapAddress(extent)
  {
    SplitId(logical);
  }

  /** Logical order is physical order; with the three facts beside this one no other mapping is left. */
  lemma MapPageIdIncreases(a: nat, b: nat)
    requires a < b
    ensures MapPageId(a) < MapPageId(b)
  {
    SplitId(a);
    SplitId(b);
    assert ExtentOf(a) < ExtentOf(b) ==> (ExtentOf(a) + 1) * (BITMAP_SIZE + 1) <= ExtentOf(b) * (BITMAP_SIZE + 1);
  }

  /** A bitmap page lies right before the pages it records, and the next one right after them. */
  lemma ExtentLayout(extent: nat, inner: nat)
    requires inner < BITMAP_SIZE
    ensures MapPageId(extent * BITMAP_SIZE + inner) == BitmapAddress(extent) + 1 + inner
    ensures BitmapAddress(extent + 1) == BitmapAddress(extent) + 1 + BITMAP_SIZE
    ensures BitmapAddress(0) == META_PAGE_ID + 1
  {
    JoinId(extent, inner);
  }

  lemma MapPageIdLeavesNoGap(physical: nat)
    requires physical != META_PAGE_ID
    requires forall extent: nat :: physical != BitmapAddress(extent)
    ensures exists logical: nat :: MapPageId(logical) == physical
  {
    var extent := (physical - 1) / (BITMAP_SIZE + 1);
    assert physical != BitmapAddress(extent);
    var inner := physical - 2 - extent * (BITMAP_SIZE + 1);
    JoinId(extent, inner);
    assert MapPageId(extent * BITMAP_SIZE + inner) == physical;
  }

  // --------------------------------------------------------- The allocation

  /** The bitmap of an extent, as a read of its page gives it. */
  function BitmapOf(file: File, extent: nat): Bitmap {
    var at := BitmapAddress(extent);
    if at in file && file[at].BitmapOnDisk? then file[at].bitmap else Blank(MAX_CHARS)
  }

  function InnerUsed(file: File, extent: nat): set<nat> {
    Bits(BitmapOf(file, extent).bytes)
  }

  ghost predicate BitmapReady(file: File, extent: nat) {
    && Sound(BitmapOf(file, extent))
    && |BitmapOf(file, extent).bytes| == MAX_CHARS
  }

  /** Every bitmap is sound, and bitmaps lie on bitmap pages only. */
  ghost predicate Layout(file: File) {
    && (forall extent: nat :: extent < MAX_BITMAP ==> BitmapReady(file, extent))
    && (forall extent: nat :: BitmapAddress(extent) in file ==> file[BitmapAddress(extent)].BitmapOnDisk?)
    && (forall logical: nat :: MapPageId(logical) in file ==> file[MapPageId(logical)].DataOnDisk?)
  }

  predicate IsAllocated(file: File, logical: nat) {
    InnerOf(logical) in InnerUsed(file, ExtentOf(logical))
  }

  /** The allocated logical pages of the first `extents` extents. */
  function AllocatedBelow(file: File, extents: nat): set<nat> {
    set logical: nat | logical < extents * BITMAP_SIZE && IsAllocated(file, logical)
  }

  function Allocated(file: File): set<nat> {
    AllocatedBelow(file, MAX_BITMAP)
  }

  /** What a read of a logical page gives. */
  function PageData(file: File, logical: nat): seq<bv8> {
    var at := MapPageId(logical);
    if at in file && file[at].DataOnDisk? then file[at].bytes else Zeros(PAGE_SIZE)
  }

  function Sum(counts: seq<nat>): nat {
    if counts == [] then 0 else Sum(counts[..|counts| - 1]) + counts[|counts| - 1]
  }

  /** An extent's counter on the meta page is the number of set bits in its bitmap. */
  ghost predicate CountedExtent(file: File, used: seq<nat>, extent: nat) {
    extent < |used| && used[extent] == |InnerUsed(file, extent)|
  }

  /** The meta page agrees with the bitmaps. */
  ghost predicate Counted(file: File, total: nat, extents: nat, used: seq<nat>) {
    && |used| == MAX_BITMAP && extents <= MAX_BITMAP
    && (forall e: nat :: e < MAX_BITMAP ==> CountedExtent(file, used, e))
    && (forall e: nat :: extents <= e < MAX_BITMAP ==> used[e] == 0)
    && total == Sum(used)
  }

  ghost predicate SameExtent(file: File, after: File, extent: nat) {
    BitmapOf(after, extent) == BitmapOf(file, extent)
  }

  /** No logical page reads differently. */
  ghost predicate SameData(file: File, after: File) {
    forall logical: nat :: PageData(after, logical) == PageData(file, logical)
  }

  // ------------------------------------------------------------- The counts

  lemma {:induction false} SumChanged(counts: seq<nat>, i: nat, v: nat)
    requires i < |counts|
    ensures Sum(counts[i := v]) == Sum(counts) - counts[i] + v
  {
    var n := |counts| - 1;
    if i < n {
      SumChanged(counts[..n], i, v);
      assert counts[i := v][..n] == counts[..n][i := v];
    } else {
      assert counts[i := v][..n] == counts[..n];
    }
  }

  /** Offsets within an extent, as logical ids. */
  function Shift(s: set<nat>, base: nat): set<nat> {
    set logical: nat | logical < base + BITMAP_SIZE && Shifted(s, base, logical)
  }

  predicate Shifted(s: set<nat>, base: nat, logical: nat) {
    base <= logical && logical - base in s
  }

  lemma {:induction false} ShiftSize(s: set<nat>, base: nat)
    requires forall x :: x in s ==> x < BITMAP_SIZE
    ensures |Shift(s, base)| == |s|
    decreases |s|
  {
    if s == {} {
      assert Shift(s, base) == {};
    } else {
      var x :| x in s;
      ShiftSize(s - {x}, base);
      assert Shift(s, base) == Shift(s - {x}, base) + {base + x};
    }
  }

  lemma InnerBound(file: File, extent: nat)
    requires BitmapReady(file, extent)
    ensures forall x :: x in InnerUsed(file, extent) ==> x < BITMAP_SIZE
    ensures |InnerUsed(file, extent)| <= BITMAP_SIZE
    ensures |InnerUsed(file, extent)| == BITMAP_SIZE ==>
      forall x: nat :: x < BITMAP_SIZE ==> x in InnerUsed(file, extent)
  {
    FullBits(BitmapOf(file, extent).bytes);
  }

  lemma NextExtent(file: File, extents: nat)
    ensures AllocatedBelow(file, extents + 1)
         == AllocatedBelow(file, extents) + Shift(InnerUsed(file, extents), extents * BITMAP_SIZE)
    ensures AllocatedBelow(file, extents) !! Shift(InnerUsed(file, extents), extents * BITMAP_SIZE)
  {
    var base := extents * BITMAP_SIZE;
    forall logical: nat | base <= logical < base + BITMAP_SIZE
      ensures IsAllocated(file, logical) <==> logical - base in InnerUsed(file, extents)
    {
      JoinId(extents, logical - base);
    }
  }

  lemma {:induction false} AllocatedSum(file: File, used: seq<nat>)
    requires forall e: nat :: e < |used| ==> BitmapReady(file, e) && CountedExtent(file, used, e)
    ensures |AllocatedBelow(file, |used|)| == Sum(used)
  {
    if used == [] {
      assert AllocatedBelow(file, 0) == {};
    } else {
      var last := |used| - 1;
      assert BitmapReady(file, last) && CountedExtent(file, used, last);
      forall e: nat | e < last ensures CountedExtent(file, used[..last], e) {
        assert CountedExtent(file, used, e);
      }
      AllocatedSum(file, used[..last]);
      NextExtent(file, last);
      InnerBound(file, last);
      ShiftSize(InnerUsed(file, last), last * BITMAP_SIZE);
    }
  }

  /** The total on the meta page is the number of allocated logical pages. */
  lemma TotalIsAllocated(file: File, total: nat, extents: nat, used: seq<nat>)
    requires Layout(file) && Counted(file, total, extents, used)
    ensures total == |Allocated(file)|
  {
    AllocatedSum(file, used);
  }

  lemma {:induction false} AllZero(counts: seq<nat>)
    requires forall i :: 0 <= i < |counts| ==> counts[i] == 0
    ensures Sum(counts) == 0
  {
    if counts != [] {
      AllZero(counts[..|counts| - 1]);
    }
  }

  lemma AllocatedBound(file: File)
    ensures |Allocated(file)| <= MAX_VALID_PAGE_ID
    ensures (forall logical: nat :: logical < MAX_VALID_PAGE_ID ==> logical in Allocated(file)) ==>
      |Allocated(file)| == MAX_VALID_PAGE_ID
  {
    SizeBelow(Allocated(file), MAX_VALID_PAGE_ID);
  }

  /** Every page of the extent is taken. */
  ghost predicate NoRoom(file: File, extent: nat) {
    forall inner: nat :: inner < BITMAP_SIZE ==> inner in InnerUsed(file, extent)
  }

  /** An extent whose counter is at the limit has no free page. */
  lemma FullExtent(file: File, used: seq<nat>, extent: nat)
    requires BitmapReady(file, extent) && CountedExtent(file, used, extent) && used[extent] >= BITMAP_SIZE
    ensures NoRoom(file, extent)
  {
    InnerBound(file, extent);
  }

  lemma AllFull(file: File)
    requires forall e: nat :: e < MAX_BITMAP ==> NoRoom(file, e)
    ensures |Allocated(file)| == MAX_VALID_PAGE_ID
  {
    forall logical: nat | logical < MAX_VALID_PAGE_ID ensures logical in Allocated(file) {
      SplitId(logical);
      assert NoRoom(file, ExtentOf(logical));
      assert IsAllocated(file, logical);
    }
    AllocatedBound(file);
  }

  /** No counter is near the end of its 32 bits. */
  lemma CountersFit(file: File, total: nat, extents: nat, used: seq<nat>, extent: nat)
    requires Layout(file) && Counted(file, total, extents, used) && extent < MAX_BITMAP
    ensures used[extent] == |InnerUsed(file, extent)| <= BITMAP_SIZE && total <= MAX_VALID_PAGE_ID
  {
    TotalIsAllocated(file, total, extents, used);
    AllocatedBound(file);
    assert BitmapReady(file, extent) && CountedExtent(file, used, extent);
    InnerBound(file, extent);
  }

  // --------------------------------------------------- Writing a page back

  /** A bitmap page written back changes its own extent only. */
  lemma BitmapWritten(file: File, extent: nat, bitmap: Bitmap)
    requires Layout(file) && extent < MAX_BITMAP && Sound(bitmap) && |bitmap.bytes| == MAX_CHARS
    ensures var after := file[BitmapAddress(extent) := BitmapOnDisk(bitmap)];
            && Layout(after)
            && BitmapOf(after, extent) == bitmap
            && (forall e: nat :: e != extent ==> SameExtent(file, after, e))
            && SameData(file, after)
  {
    var after := file[BitmapAddress(extent) := BitmapOnDisk(bitmap)];
    forall logical: nat ensures MapPageId(logical) != BitmapAddress(extent) {
      MapPageIdMissesReserved(logical, extent);
    }
    forall e: nat | e < MAX_BITMAP ensures BitmapReady(after, e) {
      assert BitmapReady(file, e);
    }
  }

  /** A data page written back changes neither a bitmap nor another page. */
  lemma DataWritten(file: File, logical: nat, bytes: seq<bv8>)
    requires Layout(file)
    ensures var after := file[MapPageId(logical) := DataOnDisk(bytes)];
            && Layout(after)
            && PageData(after, logical) == bytes
            && (forall e: nat :: SameExtent(file, after, e))
            && (forall other: nat :: other != logical ==> PageData(after, other) == PageData(file, other))
  {
    var after := file[MapPageId(logical) := DataOnDisk(bytes)];
    forall e: nat ensures BitmapAddress(e) != MapPageId(logical) {
      MapPageIdMissesReserved(logical, e);
    }
    forall e: nat | e < MAX_BITMAP ensures BitmapReady(after, e) {
      assert BitmapReady(file, e);
    }
    forall other: nat | other != logical ensures MapPageId(other) != MapPageId(logical) {
      if MapPageId(other) == MapPageId(logical) {
        MapPageIdIsInjective(other, logical);
      }
    }
  }

  lemma SameBitmaps(file: File, after: File, total: nat, extents: nat, used: seq<nat>)
    requires forall e: nat :: SameExtent(file, after, e)
    requires Counted(file, total, extents, used)
    ensures Counted(after, total, extents, used) && Allocated(after) == Allocated(file)
  {
    forall e: nat | e < MAX_BITMAP ensures CountedExtent(after, used, e) {
      assert CountedExtent(file, used, e) && SameExtent(file, after, e);
    }
    forall logical: nat ensures IsAllocated(after, logical) <==> IsAllocated(file, logical) {
      assert SameExtent(file, after, ExtentOf(logical));
    }
  }

  // ------------------------------------------------------ The two changes

  /** The bitmap of `logical`'s extent after its bit was set or cleared. */
  ghost predicate BitChanged(file: File, bitmap: Bitmap, logical: nat, used: bool) {
    var was := InnerUsed(file, ExtentOf(logical));
    && ExtentOf(logical) < MAX_BITMAP
    && Sound(bitmap) && |bitmap.bytes| == MAX_CHARS
    && Bits(bitmap.bytes) == if used then was + {InnerOf(logical)} else was - {InnerOf(logical)}
  }

  /** The file after that bitmap was written back. */
  ghost predicate BitWritten(file: File, after: File, logical: nat, used: bool) {
    var was := InnerUsed(file, ExtentOf(logical));
    && Layout(after)
    && Allocated(after) == (if used then Allocated(file) + {logical} else Allocated(file) - {logical})
    && InnerUsed(after, ExtentOf(logical)) == (if used then was + {InnerOf(logical)} else was - {InnerOf(logical)})
    && (forall e: nat :: e != ExtentOf(logical) ==> SameExtent(file, after, e))
    && SameData(file, after)
  }

  lemma AllocatedAfter(file: File, after: File, logical: nat, used: bool)
    requires logical < MAX_VALID_PAGE_ID
    requires forall e: nat :: e != ExtentOf(logical) ==> SameExtent(file, after, e)
    requires var was := InnerUsed(file, ExtentOf(logical));
             InnerUsed(after, ExtentOf(logical)) == if used then was + {InnerOf(logical)} else was - {InnerOf(logical)}
    ensures Allocated(after) == if used then Allocated(file) + {logical} else Allocated(file) - {logical}
  {
    forall other: nat | other != logical ensures IsAllocated(after, other) <==> IsAllocated(file, other) {
      SplitId(other);
      SplitId(logical);
      if ExtentOf(other) != ExtentOf(logical) {
        assert SameExtent(file, after, ExtentOf(other));
      } else {
        assert InnerOf(other) != InnerOf(logical);
      }
    }
  }

  lemma BitWrittenBack(file: File, after: File, bitmap: Bitmap, logical: nat, used: bool)
    requires Layout(file) && BitChanged(file, bitmap, logical, used)
    requires after == file[BitmapAddress(ExtentOf(logical)) := BitmapOnDisk(bitmap)]
    requires logical < MAX_VALID_PAGE_ID
    ensures BitWritten(file, after, logical, used)
  {
    BitmapWritten(file, ExtentOf(logical), bitmap);
    AllocatedAfter(file, after, logical, used);
  }

  lemma OthersCounted(file: File, after: File, used: seq<nat>, moved: seq<nat>, extent: nat)
    requires extent < |used| == MAX_BITMAP && |moved| == |used| && moved == used[extent := moved[extent]]
    requires forall e: nat :: e < MAX_BITMAP ==> CountedExtent(file, used, e)
    requires forall e: nat :: e != extent ==> SameExtent(file, after, e)
    ensures forall e: nat :: e < MAX_BITMAP && e != extent ==> CountedExtent(after, moved, e)
  {
    forall e: nat | e < MAX_BITMAP && e != extent ensures CountedExtent(after, moved, e) {
      assert CountedExtent(file, used, e) && SameExtent(file, after, e);
    }
  }

  /** The counters move with the bit. */
  lemma CountTaken(file: File, after: File, total: nat, extents: nat, used: seq<nat>, extent: nat, logical: nat)
    requires Counted(file, total, extents, used) && extent < extents
    requires BitWritten(file, after, logical, true) && !IsAllocated(file, logical) && extent == ExtentOf(logical)
    ensures Counted(after, total + 1, extents, used[extent := used[extent] + 1])
  {
    assert CountedExtent(file, used, extent);
    SumChanged(used, extent, used[extent] + 1);
    OthersCounted(file, after, used, used[extent := used[extent] + 1], extent);
    assert CountedExtent(after, used[extent := used[extent] + 1], extent);
  }

  lemma CountGiven(file: File, after: File, total: nat, extents: nat, used: seq<nat>, extent: nat, logical: nat)
    requires Counted(file, total, extents, used) && extent < MAX_BITMAP
    requires BitWritten(file, after, logical, false) && IsAllocated(file, logical) && extent == ExtentOf(logical)
    ensures used[extent] > 0 && total > 0
    ensures Counted(after, total - 1, extents, used[extent := used[extent] - 1])
  {
    assert CountedExtent(file, used, extent);
    SumChanged(used, extent, used[extent] - 1);
    OthersCounted(file, after, used, used[extent := used[extent] - 1], extent);
    assert CountedExtent(after, used[extent := used[extent] - 1], extent);
  }

  lemma NothingCleared(file: File, after: File, logical: nat)
    requires BitWritten(file, after, logical, false) && !IsAllocated(file, logical)
    ensures InnerUsed(after, ExtentOf(logical)) == InnerUsed(file, ExtentOf(logical))
  {
  }

  /** A counter that moves although no bit changed no longer counts its bitmap. */
  lemma CountBroken(file: File, after: File, used: seq<nat>, extent: nat, v: nat)
    requires CountedExtent(file, used, extent) && v != used[extent]
    requires InnerUsed(after, extent) == InnerUsed(file, extent)
    ensures !CountedExtent(after, used[extent := v], extent)
  {
  }

  /** A free page was handed out, of the first extent that had any. */
  ghost predicate Taken(file: File, after: File, logical: nat) {
    && logical < MAX_VALID_PAGE_ID && logical !in Allocated(file)
    && Allocated(after) == Allocated(file) + {logical}
    && forall e: nat :: e < ExtentOf(logical) ==> NoRoom(file, e)
  }

  lemma TakenRoom(file: File, after: File, logical: nat)
    requires Taken(file, after, logical)
    ensures |Allocated(file)| < MAX_VALID_PAGE_ID
  {
    AllocatedBound(after);
  }
}

module DiskManagers {
  import opened Basics
  import opened BitmapPages
  import opened DiskLayout


  class DiskManager {
    var numAllocatedPages: nat
    var numExtents: nat
    const extentUsedPage: array<nat>
    var file: File

    /** A new, empty file. */
    constructor ()
      ensures Valid() && fresh(this) && fresh(extentUsedPage)
      ensures Allocated(file) == {} && file == map[]
    {
      numAllocatedPages := 0;
      numExtents := 0;
      extentUsedPage := new nat[MAX_BITMAP](i => 0);
      file := map[];
      new;
      BlankBits(MAX_CHARS);
      assert forall e: nat :: InnerUsed(file, e) == {};
      assert forall e: nat :: e < MAX_BITMAP ==> CountedExtent(file, extentUsedPage[..], e);
      AllZero(extentUsedPage[..]);
    }

    ghost predicate CountsAgree()
      reads this, extentUsedPage
    {
      Counted(file, numAllocatedPages, numExtents, extentUsedPage[..])
    }

    ghost predicate Valid()
      reads this, extentUsedPage
    {
      Layout(file) && CountsAgree()
    }

    function GetExtentUsedPage(extent: nat): nat
      requires extentUsedPage.Length == MAX_BITMAP && numExtents <= MAX_BITMAP
      reads this, extentUsedPage
    {
      if extent >= numExtents then 0 else extentUsedPage[extent]
    }

    /** The read, change and write of one extent's bitmap page. */
    method TakeIn(extent: nat) returns (logical: nat)
      requires Layout(file) && extent < MAX_BITMAP && |InnerUsed(file, extent)| < BITMAP_SIZE
      modifies this`file
      ensures ExtentOf(logical) == extent && logical < MAX_VALID_PAGE_ID
      ensures !IsAllocated(old(file), logical) && BitWritten(old(file), file, logical, true)
    {
      ghost var was := file;
      assert BitmapReady(file, extent);
      FullBits(BitmapOf(file, extent).bytes);
      var buffer := new BitmapPage(BitmapOf(file, extent));
      var ok, inner := buffer.AllocatePage();
      var bitmap := buffer.Value();
      file := file[BitmapAddress(extent) := BitmapOnDisk(bitmap)];
      logical := extent * BITMAP_SIZE + inner;
      JoinId(extent, inner);
      BitWrittenBack(was, file, bitmap, logical, true);
    }

    /** The first extent in use whose counter leaves room, or the number of extents. */
    method FirstWithRoom() returns (i: nat)
      requires Valid()
      ensures i <= numExtents && forall e: nat :: e < i ==> NoRoom(file, e)
      ensures i < numExtents ==> extentUsedPage[i] < BITMAP_SIZE
    {
      i := 0;
      while i < numExtents && GetExtentUsedPage(i) >= BITMAP_SIZE
        invariant i <= numExtents
        invariant forall e: nat :: e < i ==> NoRoom(file, e)
      {
        assert BitmapReady(file, i) && CountedExtent(file, extentUsedPage[..], i);
        FullExtent(file, extentUsedPage[..], i);
        i := i + 1;
      }
    }

    /** One more page of the extent is in use. */
    method CountUp(extent: nat)
      requires extent < extentUsedPage.Length
      requires extentUsedPage[extent] < TWO_TO_THE_32 - 1 && numAllocatedPages < TWO_TO_THE_32 - 1
      modifies this`numAllocatedPages, extentUsedPage
      ensures numAllocatedPages == old(numAllocatedPages) + 1
      ensures extentUsedPage[..] == old(extentUsedPage[..])[extent := old(extentUsedPage[extent]) + 1]
    {
      extentUsedPage[extent] := Incremented(extentUsedPage[extent]);
      numAllocatedPages := Incremented(numAllocatedPages);
    }

    /** The second half of AllocatePage: count the page, and take it from its extent's bitmap. */
    method AllocateIn(extent: nat) returns (logical: nat)
      requires Valid() && extent < numExtents && extentUsedPage[extent] < BITMAP_SIZE
      requires forall e: nat :: e < extent ==> NoRoom(file, e)
      modifies this`file, this`numAllocatedPages, extentUsedPage
      ensures Valid() && Taken(old(file), file, logical) && SameData(old(file), file)
    {
      ghost var was := file;
      ghost var used := extentUsedPage[..];
      CountersFit(was, numAllocatedPages, numExtents, used, extent);
      CountUp(extent);
      logical := TakeIn(extent);
      CountTaken(was, file, old(numAllocatedPages), numExtents, used, extent, logical);
    }

    /** Allocates a page that was free, in the first extent with room; gives
        INVALID_PAGE_ID exactly when every page of every extent is taken. */
    method AllocatePage() returns (logical: int)
      requires Valid()
      modifies this, extentUsedPage
      ensures Valid()
      ensures logical == INVALID_PAGE_ID <==> |old(Allocated(file))| == MAX_VALID_PAGE_ID
      ensures logical == INVALID_PAGE_ID ==> file == old(file)
      ensures logical != INVALID_PAGE_ID ==> 0 <= logical && Taken(old(file), file, logical)
      ensures SameData(old(file), file)
    {
      var i := FirstWithRoom();
      if i == numExtents {
        if numExtents == MAX_BITMAP {
          AllFull(file);
          return INVALID_PAGE_ID;
        }
        numExtents := numExtents + 1;
      }
      ghost var was := file;
      logical := AllocateIn(i);
      TakenRoom(was, file, logical);
    }

    /** The read, change and write of one extent's bitmap page. */
    method GiveIn(extent: nat, inner: nat, ghost logical: nat)
      requires Layout(file) && logical < MAX_VALID_PAGE_ID && extent == ExtentOf(logical) && inner == InnerOf(logical)
      modifies this`file
      ensures BitWritten(old(file), file, logical, false)
    {
      ghost var was := file;
      SplitId(logical);
      assert BitmapReady(file, extent);
      var buffer := new BitmapPage(BitmapOf(file, extent));
      var ok := buffer.DeAllocatePage(inner);
      var bitmap := buffer.Value();
      file := file[BitmapAddress(extent) := BitmapOnDisk(bitmap)];
      BitWrittenBack(was, file, bitmap, logical, false);
    }

    /** Frees a page.  The counters are moved whether the page was allocated or
        not, so they stay right exactly when it was. */
    method DeAllocatePage(logical: nat)
      requires Valid()
      modifies this, extentUsedPage
      ensures Layout(file) && SameData(old(file), file)
      ensures logical < MAX_VALID_PAGE_ID ==> Allocated(file) == old(Allocated(file)) - {logical}
      ensures logical < MAX_VALID_PAGE_ID ==> (Valid() <==> logical in old(Allocated(file)))
      ensures logical >= MAX_VALID_PAGE_ID ==> Valid() && file == old(file)
    {
      if logical >= MAX_VALID_PAGE_ID {
        return;
      }
      ghost var was := file;
      ghost var used := extentUsedPage[..];
      var extent := (logical + BITMAP_SIZE) / BITMAP_SIZE - 1;
      var inner := logical % BITMAP_SIZE;
      SplitId(logical);
      assert CountedExtent(was, used, extent);
      var left := Decremented(extentUsedPage[extent]);
      extentUsedPage[extent] := left;
      numAllocatedPages := Decremented(numAllocatedPages);
      GiveIn(extent, inner, logical);
      assert extentUsedPage[..] == used[extent := left];
      if IsAllocated(was, logical) {
        CountGiven(was, file, old(numAllocatedPages), numExtents, used, extent, logical);
      } else {
        NothingCleared(was, file, logical);
        CountBroken(was, file, used, extent, left);
      }
    }

    method IsPageFree(logical: nat) returns (free: bool)
      requires Layout(file)
      ensures free <==> logical < MAX_VALID_PAGE_ID && logical !in Allocated(file)
    {
      if logical >= MAX_VALID_PAGE_ID {
        return false;
      }
      var extent := (logical + BITMAP_SIZE) / BITMAP_SIZE - 1;
      var inner := logical % BITMAP_SIZE;
      SplitId(logical);
      assert BitmapReady(file, extent);
      var buffer := new BitmapPage(BitmapOf(file, extent));
      free := buffer.IsPageFree(inner);
    }

    method ReadPage(logical: nat) returns (bytes: seq<bv8>)
      ensures bytes == PageData(file, logical)
    {
      return PageData(file, logical);
    }

    /** A written page reads back, and no other page nor the allocation changes. */
    method WritePage(logical: nat, bytes: seq<bv8>)
      requires Valid()
      modifies this`file
      ensures Valid() && Allocated(file) == old(Allocated(file))
      ensures PageData(file, logical) == bytes
      ensures forall other: nat :: other != logical ==> PageData(file, other) == PageData(old(file), other)
    {
      ghost var was := file;
      file := file[MapPageId(logical) := DataOnDisk(bytes)];
      DataWritten(was, logical, bytes);
      SameBitmaps(was, file, numAllocatedPages, numExtents, extentUsedPage[..]);
    }
  }
}
