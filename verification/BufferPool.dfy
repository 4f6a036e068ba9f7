/** What the buffer pool knows about its frames, as values (buffer_pool_manager.cpp). */
module PoolFrames {
  import opened Basics
  import opened BitmapPages
  import opened DiskLayout
  import opened ReplacerOrder

  datatype Page = Page(pageId: int, pinCount: nat, isDirty: bool, data: seq<bv8>)

  /** The frames, the page table, the free list, and the replacer's order (newest first). */
  datatype Pool = Pool(pages: seq<Page>, table: map<int, FrameId>, free: seq<FrameId>, order: seq<FrameId>)

  predicate Pinned(pool: Pool, f: FrameId) {
    f < |pool.pages| && pool.pages[f].pinCount > 0
  }

  /** One frame: it is free, or waits in the replacer, or is pinned, and if it
      holds a page then the page table leads from that page back to it. */
  ghost predicate FrameOk(pool: Pool, f: FrameId) {
    && f < |pool.pages|
    && var page := pool.pages[f];
    && (f in pool.free <==> page.pageId == INVALID_PAGE_ID)
    && (f in pool.order <==> page.pageId != INVALID_PAGE_ID && page.pinCount == 0)
    && (page.pageId == INVALID_PAGE_ID ==> page.pinCount == 0 && !page.isDirty)
    && (page.pageId != INVALID_PAGE_ID ==> page.pageId in pool.table && pool.table[page.pageId] == f)
  }

  ghost predicate EntryOk(pool: Pool, id: int) {
    && id in pool.table && id != INVALID_PAGE_ID
    && pool.table[id] < |pool.pages| && pool.pages[pool.table[id]].pageId == id
  }

  ghost predicate PoolOk(pool: Pool) {
    && (forall f: FrameId :: f < |pool.pages| ==> FrameOk(pool, f))
    && (forall id :: id in pool.table ==> EntryOk(pool, id))
    && Distinct(pool.free) && Distinct(pool.order)
    && (forall f :: f in pool.free + pool.order ==> f < |pool.pages|)
  }

  /** Every frame is in exactly one of the free list, the replacer and the pinned frames. */
  lemma EachFrameOnce(pool: Pool, f: FrameId)
    requires PoolOk(pool) && f < |pool.pages|
    ensures f in pool.free || f in pool.order || Pinned(pool, f)
    ensures !(f in pool.free && f in pool.order) && !(f in pool.free && Pinned(pool, f))
    ensures !(f in pool.order && Pinned(pool, f))
  {
    assert FrameOk(pool, f);
  }

  /** The page table and the frames' page ids are inverse to each other. */
  lemma TableIsInverse(pool: Pool, id: int, f: FrameId)
    requires PoolOk(pool) && id != INVALID_PAGE_ID
    ensures id in pool.table && pool.table[id] == f <==> f < |pool.pages| && pool.pages[f].pageId == id
  {
    if f < |pool.pages| {
      assert FrameOk(pool, f);
    }
    if id in pool.table {
      assert EntryOk(pool, id);
    }
  }

  // ------------------------------------------------------------ The changes

  predicate HasFrame(pool: Pool) {
    pool.free != [] || pool.order != []
  }

  /** The frame a page goes to: the free list first, then the replacer's victim. */
  function ChosenFrame(pool: Pool): FrameId {
    if pool.free != [] then pool.free[0] else if pool.order != [] then pool.order[|pool.order| - 1] else 0
  }

  function WithoutChosen(pool: Pool): Pool {
    if pool.free != [] then pool.(free := pool.free[1..]) else pool.(order := After(pool.order, Victim))
  }

  /** The chosen frame gives up its page and holds `page`. */
  function Installed(pool: Pool, page: Page): Pool {
    var f := ChosenFrame(pool);
    if f >= |pool.pages| then pool else
    WithoutChosen(pool).(pages := pool.pages[f := page],
                         table := (pool.table - {pool.pages[f].pageId})[page.pageId := f])
  }

  function Repinned(pool: Pool, f: FrameId): Pool
    requires f < |pool.pages|
  {
    pool.(pages := pool.pages[f := pool.pages[f].(pinCount := pool.pages[f].pinCount + 1)],
          order := After(pool.order, Pin(f)))
  }

  function Unpinned(pool: Pool, f: FrameId, dirty: bool): Pool
    requires Pinned(pool, f)
  {
    var page := pool.pages[f].(pinCount := pool.pages[f].pinCount - 1, isDirty := dirty || pool.pages[f].isDirty);
    pool.(pages := pool.pages[f := page],
          order := if page.pinCount == 0 then After(pool.order, Unpin(f)) else pool.order)
  }

  function Cleaned(pool: Pool, f: FrameId): Pool
    requires f < |pool.pages|
  {
    pool.(pages := pool.pages[f := pool.pages[f].(isDirty := false)])
  }

  /** What a page that has no frame is found to hold once it has one: what is on disk, unless the frame it gets is
      dirty. */
  function Incoming(pool: Pool, file: File, id: nat): seq<bv8> {
    var f := ChosenFrame(pool);
    if f < |pool.pages| && pool.pages[f].isDirty then pool.pages[f].data else PageData(file, id)
  }

  /** Whatever a page holds on disk, a dirty frame can be in its way: brought in there, it is found to hold something
      else. */
  lemma DirtyFrameMisleads(file: File, id: nat) returns (pool: Pool)
    ensures PoolOk(pool) && HasFrame(pool) && id !in pool.table && Incoming(pool, file, id) != PageData(file, id)
  {
    var ones := seq(PAGE_SIZE, i => 1 as bv8);
    assert ones[0] != Zeros(PAGE_SIZE)[0];
    var data := if PageData(file, id) == ones then Zeros(PAGE_SIZE) else ones;
    pool := Pool([Page(id + 1, 0, true, data)], map[id + 1 := 0], [], [0]);
    forall f: FrameId | f < 1 ensures FrameOk(pool, f) {
      assert f == 0 && pool.order[0] == 0;
    }
    forall other | other in pool.table ensures EntryOk(pool, other) {
    }
  }

  predicate Lives(file: File, id: int) {
    id >= 0 && id in Allocated(file)
  }

  /** Pages with a frame are allocated, so a newly allocated page has none. */
  ghost predicate Allotted(table: map<int, FrameId>, file: File) {
    forall id :: id in table ==> Lives(file, id)
  }

  lemma AllottedAfter(table: map<int, FrameId>, file: File, after: File)
    requires Allotted(table, file) && Allocated(file) <= Allocated(after)
    ensures Allotted(table, after)
  {
    forall id | id in table ensures Lives(after, id) {
      assert Lives(file, id);
    }
  }

  lemma InstalledAllotted(pool: Pool, page: Page, file: File)
    requires Allotted(pool.table, file) && Lives(file, page.pageId)
    ensures Allotted(Installed(pool, page).table, file)
  {
  }

  /** A write to one logical page: the others, and the allocation, are as they were. */
  ghost predicate OnlyPageWritten(file: File, after: File, id: nat, data: seq<bv8>) {
    && PageData(after, id) == data
    && (forall other: nat :: other != id ==> PageData(after, other) == PageData(file, other))
    && Allocated(after) == Allocated(file)
  }

  /** The page is in the frame, pinned. */
  ghost predicate Holding(pool: Pool, id: int, f: FrameId) {
    id in pool.table && pool.table[id] == f && Pinned(pool, f) && pool.pages[f].pageId == id
  }

  /** Whether the frame a page would get is dirty. */
  predicate ChosenDirty(pool: Pool) {
    ChosenFrame(pool) < |pool.pages| && pool.pages[ChosenFrame(pool)].isDirty
  }

  /** No page in use loses its frame, its contents or a pin. */
  ghost predicate PinnedKept(pool: Pool, after: Pool) {
    forall id :: id in pool.table && EntryOk(pool, id) && Pinned(pool, pool.table[id]) ==> StillThere(pool, after, id)
  }

  ghost predicate StillThere(pool: Pool, after: Pool, id: int)
    requires EntryOk(pool, id)
  {
    && EntryOk(after, id) && after.table[id] == pool.table[id]
    && after.pages[after.table[id]].pinCount >= pool.pages[pool.table[id]].pinCount
    && after.pages[after.table[id]].data == pool.pages[pool.table[id]].data
  }

  lemma ChosenIsUnpinned(pool: Pool)
    requires PoolOk(pool)
    ensures HasFrame(pool) <==> exists f: FrameId :: f < |pool.pages| && !Pinned(pool, f)
    ensures HasFrame(pool) ==> ChosenFrame(pool) < |pool.pages| && !Pinned(pool, ChosenFrame(pool))
  {
    if HasFrame(pool) {
      var f := ChosenFrame(pool);
      assert f in pool.free + pool.order;
      assert f < |pool.pages| && FrameOk(pool, f);
      assert !Pinned(pool, f);
    }
    forall f: FrameId | f < |pool.pages| && !Pinned(pool, f) ensures HasFrame(pool) {
      assert FrameOk(pool, f);
    }
  }

  lemma ChosenLeaves(pool: Pool)
    requires PoolOk(pool) && HasFrame(pool)
    ensures var rest := WithoutChosen(pool);
            && Distinct(rest.free) && Distinct(rest.order)
            && (forall f :: f in rest.free <==> f in pool.free && f != ChosenFrame(pool))
            && (forall f :: f in rest.order <==> f in pool.order && f != ChosenFrame(pool))
  {
    var f := ChosenFrame(pool);
    assert f in pool.free + pool.order && FrameOk(pool, f);
    if pool.free != [] {
      assert pool.free == [f] + pool.free[1..];
    } else {
      var last := |pool.order| - 1;
      WithoutMembers(pool.order, last);
      assert Without(pool.order, last) == pool.order[..last];
    }
  }

  /** Bringing in a page that has no frame keeps everything in order. */
  lemma InstalledSound(pool: Pool, page: Page)
    requires PoolOk(pool) && HasFrame(pool) && ChosenFrame(pool) < |pool.pages|
    requires page.pageId !in pool.table && page.pageId != INVALID_PAGE_ID && page.pinCount > 0
    ensures PoolOk(Installed(pool, page))
    ensures PinnedKept(pool, Installed(pool, page))
    ensures Holding(Installed(pool, page), page.pageId, ChosenFrame(pool))
  {
    var after, chosen := Installed(pool, page), ChosenFrame(pool);
    ChosenLeaves(pool);
    ChosenIsUnpinned(pool);
    assert FrameOk(pool, chosen);
    forall f: FrameId | f < |after.pages| ensures FrameOk(after, f) {
      assert FrameOk(pool, f);
    }
    forall id | id in after.table ensures EntryOk(after, id) {
      if id != page.pageId {
        assert EntryOk(pool, id);
      }
    }
    forall id | id in pool.table && EntryOk(pool, id) && Pinned(pool, pool.table[id])
        ensures StillThere(pool, after, id) {
      assert pool.table[id] != chosen;
    }
    forall f | f in after.free + after.order ensures f < |after.pages| {
      assert f in pool.free + pool.order;
    }
  }

  /** The frame comes off the free list, if there is one on it, and else it is the one longest in the replacer. */
  ghost predicate TakenFrom(pool: Pool, after: Pool, f: FrameId) {
    if pool.free != [] then
      f == pool.free[0] && after.free == pool.free[1..] && after.order == pool.order
    else
      var last := |pool.order| - 1;
      last >= 0 && f == pool.order[last] && after.free == [] && after.order == pool.order[..last]
  }

  /** What is left of the list is in the same order. */
  ghost predicate TakenOut(order: seq<FrameId>, rest: seq<FrameId>, f: FrameId) {
    if f in order then exists k :: 0 <= k < |order| && order[k] == f && rest == Without(order, k)
    else rest == order
  }

  lemma FrameOfPage(pool: Pool, id: int)
    requires PoolOk(pool) && id in pool.table
    ensures EntryOk(pool, id)
  {
  }

  lemma InstalledFields(pool: Pool, page: Page)
    requires PoolOk(pool) && HasFrame(pool)
    ensures var f, after := ChosenFrame(pool), Installed(pool, page);
      && f < |pool.pages| && TakenFrom(pool, after, f)
      && after.pages == pool.pages[f := page]
      && after.table == (pool.table - {pool.pages[f].pageId})[page.pageId := f]
  {
    ChosenIsUnpinned(pool);
  }

  lemma RepinnedOrder(pool: Pool, f: FrameId)
    requires PoolOk(pool) && f < |pool.pages|
    ensures TakenOut(pool.order, Repinned(pool, f).order, f)
  {
    if f in pool.order {
      var k := Position(pool.order, f);
    }
  }

  lemma RepinnedSound(pool: Pool, f: FrameId)
    requires PoolOk(pool) && f < |pool.pages| && pool.pages[f].pageId != INVALID_PAGE_ID
    ensures PoolOk(Repinned(pool, f)) && PinnedKept(pool, Repinned(pool, f))
  {
    var after := Repinned(pool, f);
    if f in pool.order {
      var k := Position(pool.order, f);
    }
    assert FrameOk(pool, f);
    assert f !in after.order && Pinned(after, f);
    EveryFrame(pool, after, f);
  }

  /** Frames other than `f`, and all page ids, are as they were. */
  lemma EveryFrame(pool: Pool, after: Pool, f: FrameId)
    requires PoolOk(pool) && f < |pool.pages| && FrameOk(after, f)
    requires after.table == pool.table && after.free == pool.free
    requires |after.pages| == |pool.pages| && after.pages == pool.pages[f := after.pages[f]]
    requires after.pages[f].pageId == pool.pages[f].pageId && after.pages[f].data == pool.pages[f].data
    requires forall g :: g != f ==> (g in after.order <==> g in pool.order)
    requires Distinct(after.order)
    ensures PoolOk(after)
    ensures after.pages[f].pinCount >= pool.pages[f].pinCount ==> PinnedKept(pool, after)
  {
    forall g: FrameId | g < |after.pages| ensures FrameOk(after, g) {
      assert FrameOk(pool, g);
    }
    forall id | id in after.table ensures EntryOk(after, id) {
      assert EntryOk(pool, id);
    }
    forall g | g in after.free + after.order ensures g < |after.pages| {
      assert g == f || g in pool.free + pool.order;
    }
  }

  lemma UnpinnedSound(pool: Pool, f: FrameId, dirty: bool)
    requires PoolOk(pool) && Pinned(pool, f)
    ensures PoolOk(Unpinned(pool, f, dirty))
  {
    assert FrameOk(pool, f);
    EveryFrame(pool, Unpinned(pool, f, dirty), f);
  }

  lemma CleanedSound(pool: Pool, f: FrameId)
    requires PoolOk(pool) && f < |pool.pages|
    ensures PoolOk(Cleaned(pool, f)) && PinnedKept(pool, Cleaned(pool, f))
  {
    assert FrameOk(pool, f);
    EveryFrame(pool, Cleaned(pool, f), f);
  }
}

/** Runs of the pool: what flags and pin counts say about everything that was asked of it. */
module PoolRuns {
  import opened Basics
  import opened BitmapPages
  import opened ReplacerOrder
  import opened PoolFrames

  /** A call; the contents that a fetch reads are given with it. */
  datatype Call =
    | Fetch(id: int, data: seq<bv8>)
    | New(id: int)
    | Release(id: int, dirty: bool)
    | Flush(id: int)

  function Called(pool: Pool, call: Call): Pool {
    match call
    case Fetch(id, data) =>
      if id in pool.table then (if pool.table[id] < |pool.pages| then Repinned(pool, pool.table[id]) else pool)
      else if HasFrame(pool) then Installed(pool, Page(id, 1, false, data))
      else pool
    case New(id) =>
      if HasFrame(pool) then Installed(pool, Page(id, 1, ChosenDirty(pool), Zeros(PAGE_SIZE))) else pool
    case Release(id, dirty) =>
      if id in pool.table && Pinned(pool, pool.table[id]) then Unpinned(pool, pool.table[id], dirty) else pool
    case Flush(id) =>
      if id in pool.table && pool.table[id] < |pool.pages| then Cleaned(pool, pool.table[id]) else pool
  }

  /** Pages have ids, and a new page has none that is in use. */
  predicate Callable(pool: Pool, call: Call) {
    (call.Fetch? || call.New? ==> call.id != INVALID_PAGE_ID) && (call.New? ==> call.id !in pool.table)
  }

  ghost predicate NextPool(pools: seq<Pool>, calls: seq<Call>, i: nat) {
    && i + 1 < |pools| && i < |calls|
    && Callable(pools[i], calls[i]) && pools[i + 1] == Called(pools[i], calls[i])
  }

  ghost predicate Run(pools: seq<Pool>, calls: seq<Call>) {
    && |pools| == |calls| + 1 && PoolOk(pools[0])
    && forall i: nat | i < |calls| :: NextPool(pools, calls, i)
  }

  predicate In(pool: Pool, id: int, f: FrameId) {
    id in pool.table && pool.table[id] == f
  }

  /** The page in the frame is given back as dirty. */
  predicate Marks(pool: Pool, call: Call, f: FrameId) {
    call.Release? && call.dirty && In(pool, call.id, f) && Pinned(pool, f)
  }

  /** The page in the frame is written to disk, or another is read into it. */
  predicate Clears(pool: Pool, after: Pool, call: Call, f: FrameId) {
    || (call.Flush? && In(pool, call.id, f))
    || (call.Fetch? && call.id !in pool.table && In(after, call.id, f))
  }

  function PinsOf(pool: Pool, id: int): int {
    if id in pool.table && pool.table[id] < |pool.pages| then pool.pages[pool.table[id]].pinCount else 0
  }

  function Gained(pool: Pool, after: Pool, call: Call, id: int): int {
    if (call.Fetch? || call.New?) && call.id == id && id in after.table then 1
    else if call.Release? && call.id == id && id in pool.table && Pinned(pool, pool.table[id]) then -1
    else 0
  }

  /** One call: the pool stays sound, flags change where the call says so, and a page's pins by what the call asks. */
  ghost predicate Effect(pool: Pool, after: Pool, call: Call) {
    && PoolOk(after) && |after.pages| == |pool.pages|
    && (forall f: FrameId | f < |pool.pages| :: FlagAfter(pool, after, call, f))
    && (forall id :: PinsOf(after, id) == PinsOf(pool, id) + Gained(pool, after, call, id))
  }

  predicate FlagAfter(pool: Pool, after: Pool, call: Call, f: FrameId)
    requires f < |pool.pages| == |after.pages|
  {
    after.pages[f].isDirty <==> Marks(pool, call, f) || (pool.pages[f].isDirty && !Clears(pool, after, call, f))
  }

  lemma CallEffect(pool: Pool, call: Call)
    requires PoolOk(pool) && Callable(pool, call)
    ensures Effect(pool, Called(pool, call), call)
  {
    match call
    case Fetch(id, data) =>
      if id in pool.table {
        assert EntryOk(pool, id);
        RepinnedSound(pool, pool.table[id]);
        SamePageEffect(pool, call, pool.table[id]);
      } else if HasFrame(pool) {
        InstalledEffect(pool, call, Page(id, 1, false, data));
      }
    case New(id) =>
      if HasFrame(pool) {
        InstalledEffect(pool, call, Page(id, 1, ChosenDirty(pool), Zeros(PAGE_SIZE)));
      }
    case Release(id, dirty) =>
      if id in pool.table && Pinned(pool, pool.table[id]) {
        UnpinnedSound(pool, pool.table[id], dirty);
        SamePageEffect(pool, call, pool.table[id]);
      }
    case Flush(id) =>
      if id in pool.table {
        assert EntryOk(pool, id);
        CleanedSound(pool, pool.table[id]);
        SamePageEffect(pool, call, pool.table[id]);
      }
  }

  lemma SamePageEffect(pool: Pool, call: Call, f: FrameId)
    requires PoolOk(pool) && f < |pool.pages| && call.id in pool.table && pool.table[call.id] == f && !call.New?
    requires PoolOk(Called(pool, call))
    ensures Effect(pool, Called(pool, call), call)
  {
    var after := Called(pool, call);
    forall id ensures PinsOf(after, id) == PinsOf(pool, id) + Gained(pool, after, call, id) {
      if id in pool.table {
        assert EntryOk(pool, id) && EntryOk(pool, call.id);
      }
    }
  }

  lemma InstalledEffect(pool: Pool, call: Call, page: Page)
    requires PoolOk(pool) && Callable(pool, call) && HasFrame(pool) && (call.Fetch? || call.New?)
    requires page.pageId == call.id && call.id !in pool.table && page.pinCount == 1
    requires page.isDirty == (call.New? && ChosenDirty(pool)) && Called(pool, call) == Installed(pool, page)
    ensures Effect(pool, Called(pool, call), call)
  {
    var after, chosen := Called(pool, call), ChosenFrame(pool);
    ChosenIsUnpinned(pool);
    InstalledSound(pool, page);
    assert FrameOk(pool, chosen);
    forall id ensures PinsOf(after, id) == PinsOf(pool, id) + Gained(pool, after, call, id) {
      if id in pool.table {
        assert EntryOk(pool, id);
      }
    }
  }

  lemma {:induction false} RunSound(pools: seq<Pool>, calls: seq<Call>, n: nat)
    requires Run(pools, calls) && n <= |calls|
    ensures PoolOk(pools[n]) && |pools[n].pages| == |pools[0].pages|
    ensures n < |calls| ==> Effect(pools[n], pools[n + 1], calls[n])
  {
    if n > 0 {
      RunSound(pools, calls, n - 1);
    }
    if n < |calls| {
      assert NextPool(pools, calls, n);
      CallEffect(pools[n], calls[n]);
    }
  }

  predicate ClearedAt(pools: seq<Pool>, calls: seq<Call>, i: nat, f: FrameId) {
    i + 1 < |pools| && i < |calls| && Clears(pools[i], pools[i + 1], calls[i], f)
  }

  /** Call `i` marked the frame, and of the first `n` calls none cleared it later. */
  predicate MarkedAt(pools: seq<Pool>, calls: seq<Call>, n: nat, i: nat, f: FrameId) {
    && i < n && i < |pools| && i < |calls| && Marks(pools[i], calls[i], f)
    && forall j: nat | i < j < n :: !ClearedAt(pools, calls, j, f)
  }

  /**
   Over any run a frame is dirty if and only if a page in it was given back as dirty, or it was dirty from the start,
   and since then neither was that page flushed nor another read in. A new page does not clear the flag.
   */
  lemma {:induction false} DirtyIffMarked(pools: seq<Pool>, calls: seq<Call>, n: nat, f: FrameId)
    requires Run(pools, calls) && n <= |calls| && f < |pools[0].pages|
    ensures |pools[n].pages| == |pools[0].pages|
    ensures pools[n].pages[f].isDirty <==>
      || (exists i: nat :: i < n && MarkedAt(pools, calls, n, i, f))
      || (pools[0].pages[f].isDirty && forall j: nat | j < n :: !ClearedAt(pools, calls, j, f))
  {
    RunSound(pools, calls, n);
    if n > 0 {
      var m := n - 1;
      RunSound(pools, calls, m);
      DirtyIffMarked(pools, calls, m, f);
      assert FlagAfter(pools[m], pools[n], calls[m], f);
      assert ClearedAt(pools, calls, m, f) <==> Clears(pools[m], pools[n], calls[m], f);
      hide Run, Effect, Clears, ClearedAt, FlagAfter;
      MarkedOn(pools, calls, m, n, f);
    }
  }

  lemma MarkedOn(pools: seq<Pool>, calls: seq<Call>, m: nat, n: nat, f: FrameId)
    requires n == m + 1 && m < |calls| && m < |pools|
    ensures (exists i: nat :: i < n && MarkedAt(pools, calls, n, i, f)) <==>
      || Marks(pools[m], calls[m], f)
      || (!ClearedAt(pools, calls, m, f) && exists i: nat :: i < m && MarkedAt(pools, calls, m, i, f))
  {
    hide ClearedAt, Marks;
    if Marks(pools[m], calls[m], f) {
      assert MarkedAt(pools, calls, n, m, f);
    }
    forall i: nat | i < m
      ensures MarkedAt(pools, calls, n, i, f) <==> MarkedAt(pools, calls, m, i, f) && !ClearedAt(pools, calls, m, f)
    {
    }
  }

  /** What the first `n` calls took of a page, less what they gave back. */
  function Balance(pools: seq<Pool>, calls: seq<Call>, n: nat, id: int): int
    requires n < |pools| && n <= |calls|
  {
    if n == 0 then 0 else Balance(pools, calls, n - 1, id) + Gained(pools[n - 1], pools[n], calls[n - 1], id)
  }

  /** Over any run no pin is lost or made up: a page has as many as calls for it took and did not give back. */
  lemma {:induction false} PinsBalance(pools: seq<Pool>, calls: seq<Call>, n: nat, id: int)
    requires Run(pools, calls) && n <= |calls|
    ensures PinsOf(pools[n], id) == PinsOf(pools[0], id) + Balance(pools, calls, n, id)
  {
    if n > 0 {
      PinsBalance(pools, calls, n - 1, id);
      RunSound(pools, calls, n - 1);
    }
  }
}

/** The buffer pool manager over its replacer and its disk manager. */
module BufferPools {
  import opened Basics
  import opened BitmapPages
  import opened DiskLayout
  import opened DiskManagers
  import opened LRUReplacers
  import opened ReplacerOrder
  import opened PoolFrames
  import opened PoolRuns

  class BufferPoolManager {
    const poolSize: nat
    const pages: array<Page>
    const replacer: LRUReplacer
    const diskManager: DiskManager
    var pageTable: map<int, FrameId>
    var freeList: seq<FrameId>

    ghost function State(): Pool
      reads this, pages, replacer
    {
      Pool(pages[..], pageTable, freeList, replacer.order)
    }

    ghost predicate Valid()
      reads this, pages, replacer, replacer.Nodes(), replacer.unpinned, diskManager, diskManager.extentUsedPage
    {
      && pages.Length == poolSize == replacer.maxNumPages
      && replacer.Valid() && diskManager.Valid()
      && PoolOk(State()) && Allotted(pageTable, diskManager.file)
    }

    constructor (size: nat, disk: DiskManager)
      requires disk.Valid()
      ensures Valid() && poolSize == size && diskManager == disk && pageTable == map[]
      ensures |freeList| == size && forall f: FrameId :: f < size ==> freeList[f] == f
    {
      poolSize := size;
      pages := new Page[size](i => Page(INVALID_PAGE_ID, 0, false, Zeros(PAGE_SIZE)));
      replacer := new LRUReplacer(size);
      diskManager := disk;
      pageTable := map[];
      freeList := seq(size, i => i);
      new;
      forall f: FrameId | f < size ensures f in freeList && FrameOk(State(), f) {
        assert freeList[f] == f;
      }
    }

    /** Pops the free list, or else evicts; gives nothing exactly when every frame is pinned. */
    method ChooseFrame() returns (ok: bool, frame: FrameId)
      requires Valid()
      modifies this`freeList, replacer, replacer.Nodes(), replacer.unpinned
      ensures replacer.Valid() && replacer.Nodes() <= old(replacer.Nodes())
      ensures ok <==> HasFrame(old(State()))
      ensures ok ==> frame == ChosenFrame(old(State())) && State() == WithoutChosen(old(State()))
      ensures !ok ==> State() == old(State())
    {
      hide DiskManager.Valid;
      if freeList != [] {
        frame := freeList[0];
        freeList := freeList[1..];
        ok := true;
      } else if replacer.Size() == 0 {
        ok, frame := false, 0;
      } else {
        ok, frame := replacer.Victim();
      }
    }

    /** The frame gets the page and its pin; the replacer no longer has it. */
    method Install(frame: FrameId, page: Page, ghost was: Pool)
      requires pages.Length == poolSize == replacer.maxNumPages && replacer.Valid()
      requires PoolOk(was) && HasFrame(was) && frame == ChosenFrame(was) && State() == WithoutChosen(was)
      requires page.pageId !in was.table && page.pinCount > 0
      requires Allotted(pageTable, diskManager.file) && Lives(diskManager.file, page.pageId)
      modifies this`pageTable, pages, replacer, replacer.Nodes(), replacer.unpinned
      ensures State() == Installed(was, page) && Allotted(pageTable, diskManager.file)
      ensures replacer.Valid() && replacer.Nodes() <= old(replacer.Nodes())
      ensures PoolOk(State()) && PinnedKept(was, State()) && Holding(State(), page.pageId, frame)
    {
      hide LRUReplacer.Valid, DiskManager.Valid, PoolOk, Allotted, PinnedKept;
      ChosenIsUnpinned(was);
      assert frame !in replacer.order by {
        ChosenLeaves(was);
      }
      pageTable := (pageTable - {pages[frame].pageId})[page.pageId := frame];
      pages[frame] := page;
      replacer.Pin(frame);
      InstalledSound(was, page);
      InstalledAllotted(was, page, diskManager.file);
    }

    /** A dirty frame is written out: to the place on disk of the page that comes in. */
    method WriteBack(frame: FrameId, pageId: nat)
      requires diskManager.Valid() && frame < pages.Length
      requires Allotted(pageTable, diskManager.file)
      modifies diskManager`file
      ensures diskManager.Valid() && Allotted(pageTable, diskManager.file)
      ensures var data := if pages[frame].isDirty then pages[frame].data else PageData(old(diskManager.file), pageId);
        OnlyPageWritten(old(diskManager.file), diskManager.file, pageId, data)
    {
      ghost var file := diskManager.file;
      if pages[frame].isDirty {
        diskManager.WritePage(pageId, pages[frame].data);
      }
      AllottedAfter(pageTable, file, diskManager.file);
    }

    /** The page has a frame: pin it there. */
    method PinFrame(frame: FrameId)
      requires Valid() && frame < poolSize && pages[frame].pageId != INVALID_PAGE_ID
      modifies this`pageTable, pages, replacer, replacer.Nodes(), replacer.unpinned
      ensures Valid() && PinnedKept(old(State()), State()) && Pinned(State(), frame)
      ensures State() == Repinned(old(State()), frame)
    {
      hide LRUReplacer.Valid, DiskManager.Valid, PinnedKept;
      RepinnedSound(State(), frame);
      pages[frame] := pages[frame].(pinCount := pages[frame].pinCount + 1);
      replacer.Pin(frame);
    }

    /** The page has no frame: choose one, and read the page into it. */
    method BringIn(pageId: int) returns (ok: bool, frame: FrameId)
      requires Valid() && Lives(diskManager.file, pageId) && pageId !in pageTable
      modifies this, pages, replacer, replacer.Nodes(), replacer.unpinned, diskManager
      ensures Valid() && PinnedKept(old(State()), State())
      ensures ok <==> HasFrame(old(State()))
      ensures !ok ==> State() == old(State()) && diskManager.file == old(diskManager.file)
      ensures ok ==> frame == ChosenFrame(old(State())) < poolSize
      ensures ok ==> var data := Incoming(old(State()), old(diskManager.file), pageId);
        && State() == Installed(old(State()), Page(pageId, 1, false, data))
        && OnlyPageWritten(old(diskManager.file), diskManager.file, pageId, data)
    {
      hide LRUReplacer.Valid, DiskManager.Valid, PoolOk, Allotted, OnlyPageWritten, Allocated, PageData;
      ghost var was := State();
      ok, frame := ChooseFrame();
      if !ok {
        return;
      }
      ChosenIsUnpinned(was);
      WriteBack(frame, pageId);
      var data := diskManager.ReadPage(pageId);
      Install(frame, Page(pageId, 1, false, data), was);
    }

    /** Pins the page's frame, bringing the page in first if it has none.  No frame is to be had exactly when every
        frame is pinned.  A page that comes in to a dirty frame is overwritten, on disk too, by what the frame held. */
    method FetchPage(pageId: int) returns (ok: bool, frame: FrameId)
      requires Valid() && Lives(diskManager.file, pageId)
      modifies this, pages, replacer, replacer.Nodes(), replacer.unpinned, diskManager
      ensures Valid() && PinnedKept(old(State()), State())
      ensures ok <==> pageId in old(pageTable) || exists f: FrameId :: f < poolSize && !Pinned(old(State()), f)
      ensures ok ==> Holding(State(), pageId, frame)
      ensures !ok ==> State() == old(State()) && diskManager.file == old(diskManager.file)
      ensures pageId in old(pageTable) ==>
        State() == Repinned(old(State()), frame) && diskManager.file == old(diskManager.file)
      ensures ok && pageId !in old(pageTable) ==>
        var data := Incoming(old(State()), old(diskManager.file), pageId);
        && State() == Installed(old(State()), Page(pageId, 1, false, data))
        && OnlyPageWritten(old(diskManager.file), diskManager.file, pageId, data)
      ensures pageId in old(pageTable) ==>
        && frame == old(pageTable)[pageId] < poolSize && pageTable == old(pageTable) && freeList == old(freeList)
        && pages[..] == old(pages[..])[frame := pages[frame]]
        && pages[frame] == old(pages[..])[frame].(pinCount := old(pages[..])[frame].pinCount + 1)
        && TakenOut(old(replacer.order), replacer.order, frame)
      ensures ok && pageId !in old(pageTable) ==>
        && TakenFrom(old(State()), State(), frame) && frame < poolSize
        && pages[..] == old(pages[..])[frame := pages[frame]]
        && var was := old(pages[..])[frame];
        && var data := if was.isDirty then was.data else PageData(old(diskManager.file), pageId);
        && pages[frame] == Page(pageId, 1, false, data)
        && pageTable == (old(pageTable) - {was.pageId})[pageId := frame]
      ensures exists data :: State() == Called(old(State()), Fetch(pageId, data))
    {
      hide LRUReplacer.Valid, DiskManager.Valid, Allotted, Allocated, PageData;
      ghost var was := State();
      ChosenIsUnpinned(was);
      if pageId in pageTable {
        frame := pageTable[pageId];
        assert EntryOk(was, pageId);
        RepinnedOrder(was, frame);
        PinFrame(frame);
        ok := true;
        assert State() == Called(was, Fetch(pageId, []));
      } else {
        ghost var data := Incoming(was, diskManager.file, pageId);
        ok, frame := BringIn(pageId);
        assert State() == Called(was, Fetch(pageId, data));
        if ok {
          InstalledFields(was, Page(pageId, 1, false, data));
        }
      }
    }

    /** A new page, zeroed, in a frame of its own.  The dirty flag of the frame's last page stays, and if it is set
        that page's contents go to the new page's place on disk. */
    method NewPage() returns (ok: bool, frame: FrameId, pageId: int)
      requires Valid() && |Allocated(diskManager.file)| < MAX_VALID_PAGE_ID
      modifies this, pages, replacer, replacer.Nodes(), replacer.unpinned, diskManager, diskManager.extentUsedPage
      ensures Valid() && PinnedKept(old(State()), State())
      ensures ok <==> exists f: FrameId :: f < poolSize && !Pinned(old(State()), f)
      ensures !ok ==> State() == old(State()) && diskManager.file == old(diskManager.file)
      ensures ok ==> !Lives(old(diskManager.file), pageId) && Holding(State(), pageId, frame)
      ensures ok ==> Allocated(diskManager.file) == old(Allocated(diskManager.file)) + {pageId}
      ensures ok ==> State() == Installed(old(State()), Page(pageId, 1, ChosenDirty(old(State())), Zeros(PAGE_SIZE)))
      ensures ok ==> forall other: nat :: other != pageId ==>
        PageData(diskManager.file, other) == PageData(old(diskManager.file), other)
      ensures ok ==>
        && TakenFrom(old(State()), State(), frame) && frame < poolSize
        && pages[..] == old(pages[..])[frame := pages[frame]]
        && var was := old(pages[..])[frame];
        && pages[frame] == Page(pageId, 1, was.isDirty, Zeros(PAGE_SIZE))
        && pageTable == (old(pageTable) - {was.pageId})[pageId := frame]
      ensures State() == Called(old(State()), New(pageId))
    {
      hide LRUReplacer.Valid, DiskManager.Valid, PoolOk, Allotted, Allocated, PageData;
      ghost var was := State();
      ChosenIsUnpinned(was);
      pageId := INVALID_PAGE_ID;
      ok, frame := ChooseFrame();
      if !ok {
        return;
      }
      pageId := PlaceNew(frame, was);
      InstalledFields(was, Page(pageId, 1, ChosenDirty(was), Zeros(PAGE_SIZE)));
    }

    /** A page of its own, with the frame's last contents written to its place if they are dirty. */
    method AllocateFor(frame: FrameId) returns (pageId: int)
      requires diskManager.Valid() && |Allocated(diskManager.file)| < MAX_VALID_PAGE_ID
      requires Allotted(pageTable, diskManager.file) && frame < pages.Length
      modifies diskManager, diskManager.extentUsedPage
      ensures diskManager.Valid() && Allotted(pageTable, diskManager.file)
      ensures Lives(diskManager.file, pageId) && pageId !in pageTable && !Lives(old(diskManager.file), pageId)
      ensures Allocated(diskManager.file) == old(Allocated(diskManager.file)) + {pageId}
      ensures forall other: nat :: other != pageId ==>
        PageData(diskManager.file, other) == PageData(old(diskManager.file), other)
    {
      hide LRUReplacer.Valid, DiskManager.Valid;
      ghost var file := diskManager.file;
      pageId := diskManager.AllocatePage();
      AllottedAfter(pageTable, file, diskManager.file);
      assert pageId in pageTable ==> Lives(file, pageId);
      WriteBack(frame, pageId);
    }

    /** The second half of NewPage: allocate the page, and put it in the chosen frame. */
    method PlaceNew(frame: FrameId, ghost was: Pool) returns (pageId: int)
      requires pages.Length == poolSize == replacer.maxNumPages && replacer.Valid() && diskManager.Valid()
      requires PoolOk(was) && HasFrame(was) && frame == ChosenFrame(was) && State() == WithoutChosen(was)
      requires Allotted(pageTable, diskManager.file) && |Allocated(diskManager.file)| < MAX_VALID_PAGE_ID
      modifies this`pageTable, pages, replacer, replacer.Nodes(), replacer.unpinned
      modifies diskManager, diskManager.extentUsedPage
      ensures Valid() && PinnedKept(was, State())
      ensures replacer.Nodes() <= old(replacer.Nodes())
      ensures !Lives(old(diskManager.file), pageId) && Holding(State(), pageId, frame)
      ensures Allocated(diskManager.file) == old(Allocated(diskManager.file)) + {pageId}
      ensures State() == Installed(was, Page(pageId, 1, ChosenDirty(was), Zeros(PAGE_SIZE)))
      ensures forall other: nat :: other != pageId ==>
        PageData(diskManager.file, other) == PageData(old(diskManager.file), other)
    {
      hide LRUReplacer.Valid, DiskManager.Valid, PoolOk, Allotted, PinnedKept, Allocated, PageData;
      ChosenIsUnpinned(was);
      pageId := AllocateFor(frame);
      var page := Page(pageId, pages[frame].pinCount + 1, pages[frame].isDirty, Zeros(PAGE_SIZE));
      assert page == Page(pageId, 1, ChosenDirty(was), Zeros(PAGE_SIZE));
      Install(frame, page, was);
    }

    /** Gives a pin back; the last one sends the frame to the replacer.  The answer is false exactly when the page is
        still pinned. */
    method UnpinPage(pageId: int, isDirty: bool) returns (ok: bool)
      requires Valid()
      modifies this, pages, replacer, replacer.Nodes(), replacer.unpinned
      ensures Valid() && pageTable == old(pageTable)
      ensures var inUse := pageId in old(pageTable) && Pinned(old(State()), old(pageTable[pageId]));
        && (!inUse ==> ok && State() == old(State()))
        && (inUse ==> State() == Unpinned(old(State()), pageTable[pageId], isDirty))
        && (inUse ==> var f := pageTable[pageId]; var was := old(pages[..])[f];
              && pages[..] == old(pages[..])[f := pages[f]]
              && pages[f] == Page(pageId, was.pinCount - 1, was.isDirty || isDirty, was.data)
              && freeList == old(freeList)
              && replacer.order == if was.pinCount == 1 then [f] + old(replacer.order) else old(replacer.order))
        && (ok <==> pageId !in pageTable || !Pinned(State(), pageTable[pageId]))
      ensures State() == Called(old(State()), Release(pageId, isDirty))
    {
      hide LRUReplacer.Valid, DiskManager.Valid;
      if pageId !in pageTable {
        return true;
      }
      var frame := pageTable[pageId];
      assert EntryOk(State(), pageId);
      if pages[frame].pinCount == 0 {
        return true;
      }
      ghost var was := State();
      UnpinnedSound(was, frame, isDirty);
      pages[frame] := pages[frame].(isDirty := isDirty || pages[frame].isDirty, pinCount := pages[frame].pinCount - 1);
      if pages[frame].pinCount == 0 {
        replacer.Unpin(frame);
        ok := true;
      } else {
        ok := false;
      }
      assert State() == Unpinned(was, frame, isDirty);
      assert frame !in was.order by {
        assert FrameOk(was, frame);
      }
    }

    /** Writes the frame of a page to that page's place on disk, and marks it clean. */
    method FlushPage(pageId: int) returns (ok: bool)
      requires Valid()
      modifies pages, diskManager
      ensures Valid() && PinnedKept(old(State()), State()) && ok
      ensures pageId in pageTable ==>
        && pageTable[pageId] < poolSize && State() == Cleaned(old(State()), pageTable[pageId])
        && pageId >= 0
        && OnlyPageWritten(old(diskManager.file), diskManager.file, pageId, pages[pageTable[pageId]].data)
        && var f := pageTable[pageId];
        && pages[..] == old(pages[..])[f := pages[f]] && pages[f] == old(pages[..])[f].(isDirty := false)
      ensures State() == Called(old(State()), Flush(pageId))
      ensures pageId !in pageTable ==> State() == old(State()) && diskManager.file == old(diskManager.file)
    {
      hide PoolOk;
      ok := true;
      if pageId !in pageTable {
        return;
      }
      var frame := pageTable[pageId];
      assert EntryOk(State(), pageId) by {
        FrameOfPage(State(), pageId);
      }
      CleanedSound(State(), frame);
      diskManager.WritePage(pageId, pages[frame].data);
      pages[frame] := pages[frame].(isDirty := false);
    }
  }
}
