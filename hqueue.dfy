/**
 * `HeightQueue` and `match_heights` from src/lib/hqueue.rs, in their
 * imperative form: the queue is an object whose entry sequence each method
 * updates in place, as the source's `Vec` is. Every method is proved to
 * leave exactly the sequence (and return exactly the result) that the
 * matching function of module Frontier gives, and to keep the queue
 * invariant of Frontier.ValidQueue.
 */
module HQueue {
  import opened ArenaModel
  import opened Frontier

  /** A queue of node handles kept in ascending order of their heights. */
  class HeightQueue<H(==)> {
    var queue: Queue<H>

    /** `new`: an empty queue. */
    constructor ()
      ensures queue == []
    {
      queue := [];
    }

    /** `clear`: remove every entry. */
    method Clear()
      modifies this
      ensures queue == []
    {
      queue := [];
    }

    /** `is_empty` */
    function IsEmpty(): (r: bool)
      reads this
      ensures r <==> |queue| == 0
    {
      queue == []
    }

    /** `size` */
    function Size(): (r: nat)
      reads this
      ensures r == |queue|
    {
      |queue|
    }

    /** `peek_max`: the height of the tallest entry, None when empty. */
    function PeekMax(): (r: Option<nat>)
      reads this
      ensures r == MaxHeight(queue)
    {
      if IsEmpty() then None else Some(queue[|queue| - 1].height)
    }

    /** `push`: insert a handle with its height, keeping the queue sorted. */
    method Push(index: H, arena: Arena<H>)
      modifies this
      ensures queue == Frontier.Push(old(queue), Entry(arena, index))
      ensures ValidQueue(old(queue), arena) ==> ValidQueue(queue, arena)
    {
      var height := arena.height(index);
      var newNode := PriorityNodeId(index, height);
      if ValidQueue(queue, arena) {
        PushKeepsValid(queue, arena, index);
      }
      if newNode in queue {
        // Case 1: already present.
        return;
      } else if IsEmpty() || height <= queue[0].height {
        // Case 2: the shortest.
        queue := [newNode] + queue;
      } else if height >= queue[|queue| - 1].height {
        // Case 3: the tallest.
        queue := queue + [newNode];
      } else {
        // Case 4: somewhere in the middle.
        for i := 0 to |queue| - 1
          invariant queue == old(queue)
          invariant Scan(queue, height, 0) == Scan(queue, height, i)
        {
          if queue[i].height <= height && queue[i + 1].height > height {
            queue := queue[..i + 1] + [newNode] + queue[i + 1..];
            return;
          }
        }
      }
    }

    /** `push_children`: push every child of `parent`. */
    method PushChildren(parent: H, arena: Arena<H>)
      modifies this
      ensures queue == Frontier.PushChildren(old(queue), parent, arena)
      ensures ValidQueue(old(queue), arena) ==> ValidQueue(queue, arena)
    {
      var children := arena.children(parent);
      for i := 0 to |children|
        invariant queue == PushEach(old(queue), children[..i], arena)
      {
        assert children[..i + 1][..i] == children[..i];
        Push(children[i], arena);
      }
      assert children[..|children|] == children;
      if ValidQueue(old(queue), arena) {
        PushEachKeepsValid(old(queue), children, arena);
      }
    }

    /** `pop`: remove the whole tallest tier and return its handles. */
    method Pop() returns (nodes: seq<H>)
      modifies this
      ensures (queue, nodes) == Frontier.Pop(old(queue))
      ensures queue == old(queue)[..|queue|]
    {
      nodes := [];
      if IsEmpty() {
        return;
      }
      var max := queue[|queue| - 1].height;
      while !IsEmpty() && queue[|queue| - 1].height == max
        invariant PopTier(old(queue), max).0 == PopTier(queue, max).0
        invariant PopTier(old(queue), max).1 == nodes + PopTier(queue, max).1
        decreases |queue|
      {
        ghost var taken := PopTier(queue[..|queue| - 1], max).1;
        assert nodes + PopTier(queue, max).1 == (nodes + [queue[|queue| - 1].index]) + taken;
        nodes := nodes + [queue[|queue| - 1].index];
        queue := queue[..|queue| - 1];
      }
      assert nodes + [] == nodes;
    }

    /** `pop_and_push_children`: pop the tallest tier, then push its children. */
    method PopAndPushChildren(arena: Arena<H>) returns (r: Option<seq<H>>)
      modifies this
      ensures (queue, r) == Frontier.PopAndPushChildren(old(queue), arena)
      ensures ValidQueue(old(queue), arena) ==> ValidQueue(queue, arena)
    {
      if ValidQueue(queue, arena) {
        PopAndPushChildrenKeepsValid(queue, arena);
      }
      var tallest := Pop();
      ghost var rest := queue;
      if tallest != [] {
        for i := 0 to |tallest|
          invariant queue == PushChildrenOfAll(rest, tallest[..i], arena)
        {
          assert tallest[..i + 1][..i] == tallest[..i];
          PushChildren(tallest[i], arena);
        }
        assert tallest[..|tallest|] == tallest;
        return Some(tallest);
      }
      return None;
    }
  }

  /**
   * `match_heights`: expand whichever queue has the strictly taller maximum
   * until one queue is empty or both maxima are equal. The two queues are
   * distinct objects (the source borrows both mutably).
   */
  method MatchHeights<S(==, !new), D(==, !new)>(srcQ: HeightQueue<S>, src: Arena<S>, dstQ: HeightQueue<D>, dst: Arena<D>)
    requires ChildrenShorter(src) && ChildrenShorter(dst)
    requires ValidQueue(srcQ.queue, src) && ValidQueue(dstQ.queue, dst)
    requires srcQ as object != dstQ as object
    modifies srcQ, dstQ
    ensures (srcQ.queue, dstQ.queue) == Frontier.MatchHeights(old(srcQ.queue), src, old(dstQ.queue), dst)
    ensures srcQ.IsEmpty() || dstQ.IsEmpty() || srcQ.PeekMax() == dstQ.PeekMax()
  {
    MatchHeightsSettles(srcQ.queue, src, dstQ.queue, dst);
    while !srcQ.IsEmpty() && !dstQ.IsEmpty() && srcQ.PeekMax().value != dstQ.PeekMax().value
      invariant ValidQueue(srcQ.queue, src) && ValidQueue(dstQ.queue, dst)
      invariant Frontier.MatchHeights(srcQ.queue, src, dstQ.queue, dst)
        == Frontier.MatchHeights(old(srcQ.queue), src, old(dstQ.queue), dst)
      decreases Top(srcQ.queue) + Top(dstQ.queue)
    {
      if srcQ.PeekMax().value > dstQ.PeekMax().value {
        PopAndPushChildrenLowers(srcQ.queue, src);
        var _ := srcQ.PopAndPushChildren(src);
      } else {
        PopAndPushChildrenLowers(dstQ.queue, dst);
        var _ := dstQ.PopAndPushChildren(dst);
      }
    }
  }
}
