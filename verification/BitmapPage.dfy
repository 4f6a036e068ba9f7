/** A free-page bitmap: a counter, a hint and one bit for each page of an extent (bitmap_page.cpp). */
module BitmapPages {
  import opened Basics

  /** A bitmap page as the bytes on disk hold it. */
  datatype Bitmap = Bitmap(pageAllocated: nat, nextFreePage: nat, bytes: seq<bv8>)

  function Mask(k: nat): bv8
    requires k < 8
  {
    1 << k
  }

  predicate Bit(b: bv8, k: nat)
    requires k < 8
  {
    (b >> k) & 1 == 1
  }

  lemma ZeroBits(k: nat)
    requires k < 8
    ensures !Bit(0, k)
  {
  }

  lemma SetBit(b: bv8, k: nat, j: nat)
    requires k < 8 && j < 8
    ensures Bit(b | Mask(k), j) <==> j == k || Bit(b, j)
  {
  }

  lemma ResetBit(b: bv8, k: nat, j: nat)
    requires k < 8 && j < 8
    ensures Bit(b & (255 ^ Mask(k)), j) <==> j != k && Bit(b, j)
  {
  }

  predicate BitAt(bytes: seq<bv8>, x: nat)
    requires x < 8 * |bytes|
  {
    Bit(bytes[x / 8], x % 8)
  }

  /** The offsets whose bit is set. */
  function Bits(bytes: seq<bv8>): set<nat> {
    set x: nat | x < 8 * |bytes| && BitAt(bytes, x)
  }

  /** The bytes as the set they stand for: one assignment to one byte adds or
      removes one offset. */
  lemma SetAdds(bytes: seq<bv8>, x: nat)
    requires x < 8 * |bytes|
    ensures Bits(bytes[x / 8 := bytes[x / 8] | Mask(x % 8)]) == Bits(bytes) + {x}
  {
    var after := bytes[x / 8 := bytes[x / 8] | Mask(x % 8)];
    forall y: nat | y < 8 * |bytes| ensures BitAt(after, y) <==> y == x || BitAt(bytes, y) {
      if y / 8 == x / 8 {
        SetBit(bytes[x / 8], x % 8, y % 8);
      }
    }
  }

  lemma ResetRemoves(bytes: seq<bv8>, x: nat)
    requires x < 8 * |bytes|
    ensures Bits(bytes[x / 8 := bytes[x / 8] & (255 ^ Mask(x % 8))]) == Bits(bytes) - {x}
  {
    var after := bytes[x / 8 := bytes[x / 8] & (255 ^ Mask(x % 8))];
    forall y: nat | y < 8 * |bytes| ensures BitAt(after, y) <==> y != x && BitAt(bytes, y) {
      if y / 8 == x / 8 {
        ResetBit(bytes[x / 8], x % 8, y % 8);
      }
    }
  }

  function Zeros(n: nat): (bytes: seq<bv8>)
    ensures |bytes| == n
  {
    seq(n, i => 0)
  }

  /** An all-zero page, read as a bitmap. */
  function Blank(chars: nat): Bitmap {
    Bitmap(0, 0, Zeros(chars))
  }

  lemma BlankBits(chars: nat)
    ensures Bits(Blank(chars).bytes) == {}
  {
    forall x: nat | x < 8 * chars ensures !BitAt(Zeros(chars), x) {
      ZeroBits(x % 8);
    }
  }

  function Below(n: nat): (s: set<nat>)
    ensures |s| == n
    ensures forall x: nat :: x in s <==> x < n
  {
    if n == 0 then {} else Below(n - 1) + {n - 1}
  }

  /** A bitmap that is not full has a free offset. */
  lemma Pigeonhole(used: set<nat>, n: nat) returns (free: nat)
    requires |used| < n
    ensures free < n && free !in used
  {
    if forall x :: x in Below(n) ==> x in used {
      SubsetSize(Below(n), used);
      assert false;
    }
    free :| free in Below(n) && free !in used;
  }

  /** A set of numbers below `n` has at most `n` members, and `n` of them only when it has them all. */
  lemma SizeBelow(used: set<nat>, n: nat)
    requires forall x :: x in used ==> x < n
    ensures |used| <= n
    ensures |used| == n <==> forall x: nat :: x < n ==> x in used
  {
    SubsetSize(used, Below(n));
    if forall x: nat :: x < n ==> x in used {
      assert used == Below(n);
    }
  }

  lemma FullBits(bytes: seq<bv8>)
    ensures |Bits(bytes)| <= 8 * |bytes|
    ensures |Bits(bytes)| == 8 * |bytes| <==> forall x: nat :: x < 8 * |bytes| ==> x in Bits(bytes)
  {
    SizeBelow(Bits(bytes), 8 * |bytes|);
  }

  /** The counter is the number of set bits, and the hint is a free offset
      unless there is none. */
  ghost predicate Sound(b: Bitmap) {
    && |b.bytes| > 0
    && b.pageAllocated == |Bits(b.bytes)|
    && b.nextFreePage < 8 * |b.bytes|
    && (b.pageAllocated < 8 * |b.bytes| ==> b.nextFreePage !in Bits(b.bytes))
  }

  /** `steps` positions after `start`, going round. */
  function Round(start: nat, steps: nat, n: nat): nat
    requires start < n && steps < n
  {
    if start + steps < n then start + steps else start + steps - n
  }

  function StepsTo(start: nat, x: nat, n: nat): (steps: nat)
    requires start < n && x < n
    ensures steps < n && Round(start, steps, n) == x
  {
    if start <= x then x - start else x + n - start
  }

  lemma RoundNext(start: nat, steps: nat, n: nat)
    requires start < n && steps + 1 < n
    ensures var next := Round(start, steps, n) + 1; Round(start, steps + 1, n) == if next >= n then next % n else next
  {
    var next := Round(start, steps, n) + 1;
    if next >= n {
      assert next == 1 * n + 0;
    }
  }

  /** Going up from `start`, and from the end on to 0, `x` is met before `stop`. */
  predicate Between(start: nat, stop: nat, n: nat, x: nat) {
    if start < stop then start <= x < stop else start <= x < n || x < stop
  }

  lemma BetweenIsRound(start: nat, stop: nat, n: nat, x: nat)
    requires start < n && stop < n && start != stop && Between(start, stop, n, x)
    ensures StepsTo(start, x, n) < StepsTo(start, stop, n) && Round(start, StepsTo(start, x, n), n) == x
  {
  }

  class BitmapPage {
    var pageAllocated: nat
    var nextFreePage: nat
    const bytes: array<bv8>

    /** The bitmap that a page buffer holds. */
    constructor (page: Bitmap)
      ensures Value() == page && fresh(this) && fresh(bytes)
    {
      pageAllocated := page.pageAllocated;
      nextFreePage := page.nextFreePage;
      bytes := new bv8[|page.bytes|](i requires 0 <= i < |page.bytes| => page.bytes[i]);
    }

    function Value(): Bitmap
      reads this, bytes
    {
      Bitmap(pageAllocated, nextFreePage, bytes[..])
    }

    ghost function Used(): set<nat>
      reads this, bytes
    {
      Bits(bytes[..])
    }

    ghost predicate Valid()
      reads this, bytes
    {
      Sound(Value())
    }

    function MaxPages(): nat {
      8 * bytes.Length
    }

    function Get(x: nat): (set_: bool)
      requires x < MaxPages()
      reads this, bytes
      ensures set_ <==> x in Used()
    {
      Bit(bytes[x / 8], x % 8)
    }

    method Set(x: nat)
      requires x < MaxPages()
      modifies bytes
      ensures Used() == old(Used()) + {x}
    {
      ghost var was := bytes[..];
      var at := x / 8;
      var filled := bytes[at] | Mask(x % 8);
      bytes[at] := filled;
      assert bytes[..] == was[at := filled];
      SetAdds(was, x);
    }

    method Reset(x: nat)
      requires x < MaxPages()
      modifies bytes
      ensures Used() == old(Used()) - {x}
    {
      ghost var was := bytes[..];
      var at := x / 8;
      var cleared := bytes[at] & (255 ^ Mask(x % 8));
      bytes[at] := cleared;
      assert bytes[..] == was[at := cleared];
      ResetRemoves(was, x);
    }

    function IsPageFree(offset: nat): (free: bool)
      reads this, bytes
      ensures free <==> offset < MaxPages() && offset !in Used()
    {
      offset < MaxPages() && !Get(offset)
    }

    /** Hands out the hint, which was free; fails exactly when every bit is set.  The new hint is the first
        free offset going round from the one just taken. */
    method AllocatePage() returns (ok: bool, offset: nat)
      requires Valid()
      modifies this, bytes
      ensures Valid()
      ensures ok <==> |old(Used())| < MaxPages()
      ensures !ok ==> Value() == old(Value())
      ensures ok ==> offset == old(nextFreePage) && offset !in old(Used()) && offset < MaxPages()
      ensures ok ==> Used() == old(Used()) + {offset}
      ensures ok ==> pageAllocated == old(pageAllocated) + 1
      ensures ok && |Used()| == MaxPages() ==> nextFreePage == 0
      ensures ok && |Used()| < MaxPages() ==>
        && nextFreePage < MaxPages() && nextFreePage !in Used()
        && forall x: nat :: Between(offset, nextFreePage, MaxPages(), x) ==> x in Used()
    {
      FullBits(bytes[..]);
      if pageAllocated + 1 > MaxPages() {
        return false, 0;
      }
      pageAllocated := pageAllocated + 1;
      Set(nextFreePage);
      FullBits(bytes[..]);
      offset := nextFreePage;
      ok := true;
      if pageAllocated == MaxPages() {
        nextFreePage := 0;
      } else {
        AdvanceHint();
      }
    }

    /** The scan: from the offset just taken to the first free one, going round the end.  It ends because a
        bitmap that is not full has a free offset within one round. */
    method AdvanceHint()
      requires nextFreePage < MaxPages() && |Used()| < MaxPages()
      modifies this`nextFreePage
      ensures nextFreePage < MaxPages() && nextFreePage !in Used()
      ensures old(nextFreePage) in Used() ==>
        forall x: nat :: Between(old(nextFreePage), nextFreePage, MaxPages(), x) ==> x in Used()
    {
      ghost var start := nextFreePage;
      ghost var steps := 0;
      ghost var free := Pigeonhole(Used(), MaxPages());
      ghost var limit := StepsTo(start, free, MaxPages());
      while !IsPageFree(nextFreePage)
        invariant steps <= limit && nextFreePage == Round(start, steps, MaxPages())
        invariant forall k: nat :: k < steps ==> Round(start, k, MaxPages()) in Used()
        decreases limit - steps
      {
        assert steps != limit;
        RoundNext(start, steps, MaxPages());
        nextFreePage := nextFreePage + 1;
        if nextFreePage >= MaxPages() {
          nextFreePage := nextFreePage % MaxPages();
        }
        steps := steps + 1;
      }
      if start in Used() {
        assert steps == StepsTo(start, nextFreePage, MaxPages());
        forall x: nat | Between(start, nextFreePage, MaxPages(), x) ensures x in Used() {
          BetweenIsRound(start, nextFreePage, MaxPages(), x);
        }
      }
    }

    /** Frees an allocated offset, and refuses any other. */
    method DeAllocatePage(offset: nat) returns (ok: bool)
      requires Valid()
      modifies this, bytes
      ensures Valid()
      ensures ok <==> offset in old(Used())
      ensures Used() == old(Used()) - {offset}
      ensures !ok ==> Value() == old(Value())
      ensures ok ==> nextFreePage == if |old(Used())| == MaxPages() then offset else old(nextFreePage)
      ensures ok ==> pageAllocated == old(pageAllocated) - 1
    {
      FullBits(bytes[..]);
      if offset >= MaxPages() || IsPageFree(offset) {
        return false;
      }
      Reset(offset);
      if pageAllocated == MaxPages() {
        nextFreePage := offset;
      }
      pageAllocated := pageAllocated - 1;
      ok := true;
    }
  }
}
