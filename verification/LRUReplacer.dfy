/** The LRU order as a plain sequence of frames, newest first, and what each operation does to it. */
module ReplacerOrder {
  import opened Basics

  type FrameId = nat

  function Removed(order: seq<FrameId>, frame: FrameId): (rest: seq<FrameId>)
    ensures frame !in order ==> rest == order
    ensures |rest| <= |order|
  {
    if order == [] then []
    else if order[0] == frame then order[1..]
    else [order[0]] + Removed(order[1..], frame)
  }

  lemma {:induction false} RemovedAt(order: seq<FrameId>, k: nat)
    requires k < |order| && order[k] !in order[..k]
    ensures Removed(order, order[k]) == order[..k] + order[k + 1..]
  {
    if k == 0 {
      assert order[..0] == [];
    } else {
      assert order[1..][..k - 1] == order[..k][1..];
      assert order[0] == order[..k][0];
      RemovedAt(order[1..], k - 1);
      assert order[..k] == [order[0]] + order[1..][..k - 1];
    }
  }

  function Without(order: seq<FrameId>, k: nat): seq<FrameId>
    requires k < |order|
  {
    order[..k] + order[k + 1..]
  }

  lemma WithoutMembers(order: seq<FrameId>, k: nat)
    requires Distinct(order) && k < |order|
    ensures Distinct(Without(order, k))
    ensures forall f :: f in Without(order, k) <==> f in order && f != order[k]
  {
    var rest := Without(order, k);
    forall i | 0 <= i < |rest| ensures rest[i] in order && rest[i] != order[k] {
      assert rest[i] == order[if i < k then i else i + 1];
    }
    forall f | f in order && f != order[k] ensures f in rest {
      var i :| 0 <= i < |order| && order[i] == f;
      assert rest[if i < k then i else i - 1] == f;
    }
  }

  lemma RemovedIsWithout(order: seq<FrameId>, k: nat)
    requires Distinct(order) && k < |order|
    ensures Removed(order, order[k]) == Without(order, k)
  {
    RemovedAt(order, k);
  }

  datatype Op = Unpin(frame: FrameId) | Pin(frame: FrameId) | Victim

  /** The order after an operation on frames within bounds. */
  function After(order: seq<FrameId>, op: Op): seq<FrameId> {
    match op
    case Unpin(f) => if f in order then order else [f] + order
    case Pin(f) => Removed(order, f)
    case Victim => if order == [] then [] else order[..|order| - 1]
  }

  function Play(ops: seq<Op>): seq<FrameId> {
    if ops == [] then [] else After(Play(ops[..|ops| - 1]), ops[|ops| - 1])
  }

  /** Operation `i` put the frame in: it was an Unpin of a frame that was out. */
  predicate Effective(ops: seq<Op>, i: nat, frame: FrameId) {
    i < |ops| && ops[i] == Unpin(frame) && frame !in Play(ops[..i])
  }

  /** One more than the position of the last effective Unpin of the frame; 0 if there is none. */
  function LastEffective(ops: seq<Op>, frame: FrameId): (n: nat)
    ensures n <= |ops|
  {
    if ops == [] then 0
    else if Effective(ops, |ops| - 1, frame) then |ops|
    else LastEffective(ops[..|ops| - 1], frame)
  }

  function Rank(ops: seq<Op>): FrameId -> nat {
    f => LastEffective(ops, f)
  }

  /** The order goes down, strictly, by rank. */
  ghost predicate Descending(order: seq<FrameId>, rank: FrameId -> nat) {
    && (forall i, j :: 0 <= i < j < |order| ==> rank(order[i]) > rank(order[j]))
    && (forall i :: 0 <= i < |order| ==> rank(order[i]) > 0)
  }

  lemma SameRanks(order: seq<FrameId>, rank: FrameId -> nat, rank': FrameId -> nat)
    requires Descending(order, rank)
    requires forall f :: f in order ==> rank'(f) == rank(f)
    ensures Descending(order, rank')
  {
    assert forall i :: 0 <= i < |order| ==> order[i] in order;
  }

  lemma WithoutDescends(order: seq<FrameId>, k: nat, rank: FrameId -> nat)
    requires Descending(order, rank) && k < |order|
    ensures Descending(Without(order, k), rank)
  {
    var rest := Without(order, k);
    assert forall i :: 0 <= i < |rest| ==> rest[i] == order[if i < k then i else i + 1];
  }

  lemma FrontDescends(order: seq<FrameId>, f: FrameId, rank: FrameId -> nat)
    requires Descending(order, rank) && rank(f) > 0
    requires forall g :: g in order ==> rank(g) < rank(f)
    ensures Descending([f] + order, rank)
  {
    assert forall i :: 0 <= i < |order| ==> order[i] in order;
  }

  lemma Position(order: seq<FrameId>, frame: FrameId) returns (k: nat)
    requires Distinct(order) && frame in order
    ensures k < |order| && order[k] == frame
    ensures Removed(order, frame) == Without(order, k)
    ensures Distinct(Removed(order, frame)) && |Removed(order, frame)| == |order| - 1
    ensures forall f :: f in Removed(order, frame) <==> f in order && f != frame
  {
    k :| 0 <= k < |order| && order[k] == frame;
    RemovedIsWithout(order, k);
    WithoutMembers(order, k);
  }

  lemma DescendingDistinct(order: seq<FrameId>, rank: FrameId -> nat)
    requires Descending(order, rank)
    ensures Distinct(order)
  {
    forall i, j | 0 <= i < j < |order| ensures order[i] != order[j] {
      assert rank(order[i]) > rank(order[j]);
    }
  }

  /** Over any run the order has no duplicates and is the order of the last effective Unpins, so that the victim
      is the frame that has been out of use the longest. */
  lemma {:induction false} OrderedByUnpin(ops: seq<Op>)
    ensures Descending(Play(ops), Rank(ops)) && Distinct(Play(ops))
  {
    if ops != [] {
      var n := |ops| - 1;
      var front, op := ops[..n], ops[n];
      var was := Play(front);
      OrderedByUnpin(front);
      if op.Unpin? && op.frame !in was {
        assert Effective(ops, n, op.frame);
        RanksKept(ops, was);
        FrontDescends(was, op.frame, Rank(ops));
      } else if op.Pin? && op.frame in was {
        var k := Position(was, op.frame);
        WithoutDescends(was, k, Rank(front));
        RanksKept(ops, Play(ops));
      } else if op.Victim? && was != [] {
        WithoutDescends(was, |was| - 1, Rank(front));
        assert Without(was, |was| - 1) == Play(ops);
        RanksKept(ops, Play(ops));
      } else {
        RanksKept(ops, was);
      }
      DescendingDistinct(Play(ops), Rank(ops));
    }
  }

  /** A frame that the last operation did not put in keeps its rank. */
  lemma RanksKept(ops: seq<Op>, order: seq<FrameId>)
    requires ops != [] && Descending(order, Rank(ops[..|ops| - 1]))
    requires forall f :: f in order ==> !Effective(ops, |ops| - 1, f)
    ensures Descending(order, Rank(ops))
    ensures forall f :: f in order ==> Rank(ops)(f) < |ops|
  {
    forall f | f in order ensures Rank(ops)(f) == Rank(ops[..|ops| - 1])(f) < |ops| {
      assert !Effective(ops, |ops| - 1, f);
    }
    SameRanks(order, Rank(ops[..|ops| - 1]), Rank(ops));
  }

  lemma VictimIsOldest(ops: seq<Op>, frame: FrameId)
    requires frame in Play(ops)
    ensures LastEffective(ops, Play(ops)[|Play(ops)| - 1]) <= LastEffective(ops, frame)
  {
    OrderedByUnpin(ops);
    var order := Play(ops);
    var i :| 0 <= i < |order| && order[i] == frame;
    assert i < |order| - 1 ==> Rank(ops)(order[i]) > Rank(ops)(order[|order| - 1]);
  }
}

/** The replacer itself: a doubly linked list between two sentinels, a map from frames to list nodes, a flag for each
    frame and a counter (lru_replacer.cpp). */
module LRUReplacers {
  import opened Basics
  import opened ReplacerOrder

  class Node {
    var val: FrameId
    var prev: Node?
    var next: Node?

    constructor ()
      ensures fresh(this)
    {
      val := 0;
      prev := null;
      next := null;
    }
  }

  /** Neighbour `i` of the chain and the next agree in both directions. */
  ghost predicate Linked(chain: seq<Node>, i: nat)
    reads chain
  {
    i + 1 < |chain| && chain[i].next == chain[i + 1] && chain[i + 1].prev == chain[i]
  }

  /** Node `i + 1` of the chain, after the head sentinel, holds frame `i` of the order. */
  ghost predicate Holds(chain: seq<Node>, order: seq<FrameId>, nodes: map<FrameId, Node>, i: nat)
    reads chain
  {
    && i < |order| && i + 1 < |chain|
    && chain[i + 1].val == order[i]
    && order[i] in nodes && nodes[order[i]] == chain[i + 1]
  }

  /** The map, the flags and the counter all say which frames are in the order. */
  ghost predicate Agree(order: seq<FrameId>, mapped: set<FrameId>, flags: seq<bool>, size: nat, bound: nat) {
    && Distinct(order)
    && (forall f :: f in order ==> f <= bound)
    && (forall f :: f in mapped ==> f in order)
    && |flags| == bound + 5
    && (forall f: nat :: f < |flags| ==> (flags[f] <==> f in order))
    && size == |order|
  }

  lemma AgreeWithout(order: seq<FrameId>, mapped: set<FrameId>, flags: seq<bool>, size: nat, bound: nat, frame: FrameId)
    requires Agree(order, mapped, flags, size, bound) && frame in order
    ensures size > 0
    ensures Agree(Removed(order, frame), mapped - {frame}, flags[frame := false], size - 1, bound)
  {
    var k := Position(order, frame);
  }

  lemma AgreeWith(order: seq<FrameId>, mapped: set<FrameId>, flags: seq<bool>, size: nat, bound: nat, frame: FrameId)
    requires Agree(order, mapped, flags, size, bound) && frame !in order && frame <= bound
    ensures Agree([frame] + order, mapped + {frame}, flags[frame := true], size + 1, bound)
  {
  }

  class LRUReplacer {
    const head: Node
    const tail: Node
    const maxNumPages: nat
    var nowSize: nat
    var nodes: map<FrameId, Node>
    const unpinned: array<bool>

    /** The frames from the newest to the oldest, and the list from head to tail. */
    ghost var order: seq<FrameId>
    ghost var chain: seq<Node>

    ghost function Nodes(): set<Node>
      reads this
    {
      set n | n in chain
    }

    ghost predicate Chained()
      reads this, Nodes()
    {
      && |chain| == |order| + 2 && chain[0] == head && chain[|chain| - 1] == tail
      && (forall i, j :: 0 <= i < j < |chain| ==> chain[i] != chain[j])
      && (forall i: nat :: i + 1 < |chain| ==> Linked(chain, i))
      && (forall i: nat :: i < |order| ==> Holds(chain, order, nodes, i))
    }

    ghost predicate Valid()
      reads this, Nodes(), unpinned
    {
      Chained() && Agree(order, nodes.Keys, unpinned[..], nowSize, maxNumPages)
    }

    constructor (numPages: nat)
      ensures Valid() && order == [] && maxNumPages == numPages
      ensures fresh(this) && fresh(unpinned) && fresh(Nodes())
    {
      maxNumPages := numPages;
      nowSize := 0;
      nodes := map[];
      unpinned := new bool[numPages + 5](i => false);
      order := [];
      var first := new Node();
      var last := new Node();
      head := first;
      tail := last;
      chain := [first, last];
      new;
      tail.prev := head;
      head.next := tail;
      assert Linked(chain, 0);
    }

    /** Takes the node at position `k` of the order out of the list. */
    method Unlink(now: Node, ghost k: nat)
      requires Chained() && Distinct(order) && k < |order| && now == chain[k + 1]
      modifies this`nodes, this`order, this`chain, Nodes()
      ensures Chained()
      ensures order == Removed(old(order), old(order)[k])
      ensures chain == old(chain)[..k + 1] + old(chain)[k + 2..]
      ensures nodes.Keys == old(nodes.Keys) - {old(order)[k]}
    {
      ghost var was := chain;
      assert Linked(was, k) && Linked(was, k + 1);
      assert Holds(was, order, nodes, k);
      var next, prev := now.next, now.prev;
      next.prev := prev;
      prev.next := next;
      nodes := nodes - {now.val};
      chain := was[..k + 1] + was[k + 2..];
      ghost var orderWas := order;
      RemovedIsWithout(order, k);
      order := Removed(order, order[k]);
      forall i: nat | i + 1 < |chain| ensures Linked(chain, i) {
        assert old(Linked(was, if i <= k then i else i + 1));
        assert old(Linked(was, k)) && old(Linked(was, k + 1));
      }
      forall i: nat | i < |order| ensures Holds(chain, order, nodes, i) {
        assert old(Holds(was, orderWas, nodes, if i < k then i else i + 1));
        assert order[i] == orderWas[if i < k then i else i + 1];
      }
    }

    lemma OldestNode()
      requires Valid() && order != []
      ensures var last := |order| - 1;
        && tail.prev == chain[last + 1] && chain[last + 1].val == order[last]
        && order[last] <= maxNumPages < unpinned.Length && nowSize > 0
    {
      var last := |order| - 1;
      assert Linked(chain, last + 1) && Holds(chain, order, nodes, last);
      assert order[last] in order;
    }

    /** Takes the oldest frame out; fails exactly when there is none. */
    method Victim() returns (ok: bool, frame: FrameId)
      requires Valid()
      modifies this, Nodes(), unpinned
      ensures Valid() && Nodes() <= old(Nodes())
      ensures ok <==> old(order) != []
      ensures ok ==> frame == old(order)[|old(order)| - 1]
      ensures ok ==> order == old(order)[..|old(order)| - 1]
      ensures order == After(old(order), ReplacerOrder.Victim)
    {
      hide Linked, Holds;
      if nowSize == 0 {
        return false, 0;
      }
      ghost var last := |order| - 1;
      OldestNode();
      var now := tail.prev;
      frame := now.val;
      RemovedIsWithout(order, last);
      AgreeWithout(order, nodes.Keys, unpinned[..], nowSize, maxNumPages, frame);
      ghost var flags := unpinned[..];
      Unlink(now, last);
      unpinned[frame] := false;
      nowSize := nowSize - 1;
      ok := true;
      assert unpinned[..] == flags[frame := false];
    }

    /** Takes the frame out, wherever it stands; a frame that is not in or out of bounds changes nothing. */
    method Pin(frame: FrameId)
      requires Valid()
      modifies this, Nodes(), unpinned
      ensures Valid() && Nodes() <= old(Nodes())
      ensures frame !in old(order) ==> order == old(order)
      ensures frame in old(order) ==>
        exists k :: 0 <= k < |old(order)| && old(order)[k] == frame && order == Without(old(order), k)
      ensures order == After(old(order), ReplacerOrder.Pin(frame))
    {
      if frame > maxNumPages {
        return;
      }
      if !unpinned[frame] {
        return;
      }
      ghost var k := Position(order, frame);
      TakeOut(frame);
    }

    method TakeOut(frame: FrameId)
      requires Valid() && frame in order
      modifies this, Nodes(), unpinned
      ensures Valid() && Nodes() <= old(Nodes())
      ensures order == Removed(old(order), frame)
    {
      hide Linked;
      AgreeWithout(order, nodes.Keys, unpinned[..], nowSize, maxNumPages, frame);
      ghost var flags := unpinned[..];
      unpinned[frame] := false;
      assert unpinned[..] == flags[frame := false];
      ghost var k :| 0 <= k < |order| && order[k] == frame;
      assert Holds(chain, order, nodes, k);
      Unlink(nodes[frame], k);
      nowSize := nowSize - 1;
    }

    /** Puts the frame in as the newest, unless it is in or out of bounds. */
    method Unpin(frame: FrameId)
      requires Valid()
      modifies this, Nodes(), unpinned
      ensures Valid() && fresh(Nodes() - old(Nodes()))
      ensures order == (if frame <= maxNumPages && frame !in old(order) then [frame] else []) + old(order)
      ensures order == if frame <= maxNumPages then After(old(order), ReplacerOrder.Unpin(frame)) else old(order)
    {
      if frame > maxNumPages {
        return;
      }
      if unpinned[frame] {
        return;
      }
      AgreeWith(order, nodes.Keys, unpinned[..], nowSize, maxNumPages, frame);
      ghost var flags := unpinned[..];
      unpinned[frame] := true;
      assert unpinned[..] == flags[frame := true];
      nowSize := nowSize + 1;
      LinkFirst(frame);
    }

    /** Puts a new node for the frame right after the head. */
    method LinkFirst(frame: FrameId)
      requires Chained() && frame !in order
      modifies this`nodes, this`order, this`chain, Nodes()
      ensures Chained() && fresh(Nodes() - old(Nodes()))
      ensures order == [frame] + old(order)
      ensures nodes.Keys == old(nodes.Keys) + {frame}
    {
      var now := new Node();
      ghost var was, orderWas := chain, order;
      assert Linked(chain, 0);
      now.val := frame;
      now.prev := head;
      now.next := head.next;
      head.next.prev := now;
      head.next := now;
      nodes := nodes[frame := now];
      chain := [head, now] + was[1..];
      order := [frame] + orderWas;
      forall i: nat | i + 1 < |chain| ensures Linked(chain, i) {
        if i >= 2 {
          assert old(Linked(was, i - 1));
        }
      }
      forall i: nat | i < |order| ensures Holds(chain, order, nodes, i) {
        if i >= 1 {
          assert old(Holds(was, orderWas, nodes, i - 1));
          assert orderWas[i - 1] in orderWas;
        }
      }
    }

    function Size(): nat
      reads this
    {
      nowSize
    }
  }
}
