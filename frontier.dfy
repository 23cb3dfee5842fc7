/**
 * The height queue as a value: the sequence of entries kept by
 * `HeightQueue` in src/lib/hqueue.rs, and one function per operation giving
 * the sequence (and result) that operation produces. The imperative class in
 * module HQueue is proved to compute exactly these functions; the lemmas here
 * prove what the source promises about them.
 */
module Frontier {
  import opened ArenaModel

  datatype Option<T> = None | Some(value: T)

  /**
   * A queue entry: a node handle with the height it had when pushed.
   * Equality compares both fields; the queue orders entries by height only.
   */
  datatype PriorityNodeId<H> = PriorityNodeId(index: H, height: nat)

  type Queue<H> = seq<PriorityNodeId<H>>

  // ----- Invariants of a queue -----

  /** Ascending by height: position 0 is the shortest, the last the tallest. */
  ghost predicate Sorted<H>(q: Queue<H>) {
    forall i, j :: 0 <= i < j < |q| ==> q[i].height <= q[j].height
  }

  /** No handle occurs twice. */
  ghost predicate DistinctHandles<H>(q: Queue<H>) {
    forall i, j :: 0 <= i < j < |q| ==> q[i].index != q[j].index
  }

  /** Every cached height is the arena's height of that handle. */
  ghost predicate HeightsCached<H>(q: Queue<H>, a: Arena<H>) {
    forall e :: e in q ==> e.height == a.height(e.index)
  }

  ghost predicate ValidQueue<H>(q: Queue<H>, a: Arena<H>) {
    Sorted(q) && DistinctHandles(q) && HeightsCached(q, a)
  }

  /** Every entry is strictly shorter than `m`. */
  ghost predicate AllBelow<H>(q: Queue<H>, m: nat) {
    forall e :: e in q ==> e.height < m
  }

  ghost function HandleSet<H>(q: Queue<H>): set<H> {
    set e | e in q :: e.index
  }

  /**
   * `contains` in the source compares the pair; with cached heights that
   * is the same as asking whether the handle is present.
   */
  lemma ContainsPairIffHandle<H>(q: Queue<H>, a: Arena<H>, x: H)
    requires HeightsCached(q, a)
    ensures PriorityNodeId(x, a.height(x)) in q <==> x in HandleSet(q)
  {
    if x in HandleSet(q) {
      var e :| e in q && e.index == x;
      assert e == PriorityNodeId(x, a.height(x));
    }
  }

  /** The queue size counts distinct handles. */
  lemma {:induction false} SizeCountsHandles<H>(q: Queue<H>)
    requires DistinctHandles(q)
    ensures |HandleSet(q)| == |q|
    decreases |q|
  {
    if q != [] {
      var init, last := q[..|q| - 1], q[|q| - 1];
      assert q == init + [last];
      assert DistinctHandles(init);
      SizeCountsHandles(init);
      assert HandleSet(q) == HandleSet(init) + {last.index};
      forall e | e in init ensures e.index != last.index {
        var i :| 0 <= i < |init| && init[i] == e;
        assert q[i] == e;
      }
    }
  }

  // ----- Read-only queries -----

  /** `peek_max`: the height of the last entry, which is the tallest. */
  function MaxHeight<H>(q: Queue<H>): (r: Option<nat>)
    ensures r.None? <==> |q| == 0
    ensures r.Some? ==> exists i :: 0 <= i < |q| && q[i].height == r.value
    ensures r.Some? && Sorted(q) ==> forall i :: 0 <= i < |q| ==> q[i].height <= r.value
  {
    if |q| == 0 then None else Some(q[|q| - 1].height)
  }

  /** The maximum height, or 0 for an empty queue. */
  function Top<H>(q: Queue<H>): nat {
    if |q| == 0 then 0 else q[|q| - 1].height
  }

  // ----- push -----

  /** An entry of height `h` belongs between positions `j` and `j + 1`. */
  predicate Boundary<H>(q: Queue<H>, j: nat, h: nat) {
    j + 1 < |q| && q[j].height <= h < q[j + 1].height
  }

  /** The Case-4 scan of `push`: the first boundary at or after `i`, if any. */
  function Scan<H>(q: Queue<H>, h: nat, i: nat): (r: Option<nat>)
    ensures r.Some? ==> i <= r.value && Boundary(q, r.value, h)
    ensures r.Some? ==> forall j :: i <= j < r.value ==> !Boundary(q, j, h)
    ensures r.None? ==> forall j :: i <= j ==> !Boundary(q, j, h)
    decreases |q| - i
  {
    if i + 1 >= |q| then None
    else if q[i].height <= h && q[i + 1].height > h then Some(i)
    else Scan(q, h, i + 1)
  }

  /** `push` of an entry, with its four cases as the source has them. */
  function Push<H(==)>(q: Queue<H>, e: PriorityNodeId<H>): Queue<H> {
    if e in q then q
    else if |q| == 0 || e.height <= q[0].height then [e] + q
    else if e.height >= q[|q| - 1].height then q + [e]
    else match Scan(q, e.height, 0)
      case Some(i) => q[..i + 1] + [e] + q[i + 1..]
      case None => q
  }

  /** The entry `push` builds for a handle. */
  function Entry<H>(a: Arena<H>, x: H): PriorityNodeId<H> {
    PriorityNodeId(x, a.height(x))
  }

  /** Entries before `p` are no taller than `h`, entries from `p` on no shorter. */
  ghost predicate Fits<H>(q: Queue<H>, p: nat, h: nat) {
    (forall i :: 0 <= i < p && i < |q| ==> q[i].height <= h) &&
    (forall i :: p <= i < |q| ==> h <= q[i].height)
  }

  /**
   * When the scan runs, its bounds guarantee at least two entries and a
   * boundary it finds, whether or not the queue is sorted.
   */
  lemma {:induction false} ScanFinds<H>(q: Queue<H>, h: nat, i: nat)
    requires i < |q| && q[i].height <= h < q[|q| - 1].height
    ensures i + 2 <= |q|
    ensures Scan(q, h, i).Some?
    decreases |q| - i
  {
    if q[i + 1].height <= h {
      ScanFinds(q, h, i + 1);
    }
  }

  /**
   * `push` of an entry already present changes nothing; any other entry is
   * inserted at one position, nothing else changes, and on a sorted queue the
   * position keeps the order.
   */
  lemma PushInserts<H>(q: Queue<H>, e: PriorityNodeId<H>)
    ensures e in q ==> Push(q, e) == q
    ensures e !in q ==>
      exists p :: 0 <= p <= |q| && Push(q, e) == q[..p] + [e] + q[p..] && (Sorted(q) ==> Fits(q, p, e.height))
  {
    if e !in q {
      if |q| == 0 || e.height <= q[0].height {
        assert Push(q, e) == q[..0] + [e] + q[0..];
        assert Sorted(q) ==> Fits(q, 0, e.height);
      } else if e.height >= q[|q| - 1].height {
        assert Push(q, e) == q[..|q|] + [e] + q[|q|..];
        assert Sorted(q) ==> Fits(q, |q|, e.height);
      } else {
        ScanFinds(q, e.height, 0);
        var i := Scan(q, e.height, 0).value;
        assert Sorted(q) ==> Fits(q, i + 1, e.height);
      }
    }
  }

  lemma InsertAtSorted<H>(q: Queue<H>, p: nat, e: PriorityNodeId<H>)
    requires p <= |q| && Sorted(q) && Fits(q, p, e.height)
    ensures Sorted(q[..p] + [e] + q[p..])
  {
    var r := q[..p] + [e] + q[p..];
    forall i, j | 0 <= i < j < |r| ensures r[i].height <= r[j].height {
      if j < p {
        assert r[i] == q[i] && r[j] == q[j];
      } else if j == p {
        assert r[i] == q[i];
      } else if i == p {
        assert r[j] == q[j - 1];
      } else if i < p {
        assert r[i] == q[i] && r[j] == q[j - 1];
      } else {
        assert r[i] == q[i - 1] && r[j] == q[j - 1];
      }
    }
  }

  lemma InsertAtDistinct<H>(q: Queue<H>, p: nat, e: PriorityNodeId<H>)
    requires p <= |q| && DistinctHandles(q)
    requires forall i :: 0 <= i < |q| ==> q[i].index != e.index
    ensures DistinctHandles(q[..p] + [e] + q[p..])
  {
    var r := q[..p] + [e] + q[p..];
    forall i, j | 0 <= i < j < |r| ensures r[i].index != r[j].index {
      if j < p {
        assert r[i] == q[i] && r[j] == q[j];
      } else if j == p {
        assert r[i] == q[i];
      } else if i == p {
        assert r[j] == q[j - 1];
      } else if i < p {
        assert r[i] == q[i] && r[j] == q[j - 1];
      } else {
        assert r[i] == q[i - 1] && r[j] == q[j - 1];
      }
    }
  }

  /** The entries after `push` are the old ones plus the pushed one. */
  lemma PushMembers<H>(q: Queue<H>, e: PriorityNodeId<H>)
    ensures forall y :: y in Push(q, e) <==> y in q || y == e
  {
    PushInserts(q, e);
    if e !in q {
      var p :| 0 <= p <= |q| && Push(q, e) == q[..p] + [e] + q[p..];
      assert q == q[..p] + q[p..];
    }
  }

  /** `push` keeps the queue sorted, in each of its four cases. */
  lemma PushKeepsSorted<H>(q: Queue<H>, e: PriorityNodeId<H>)
    requires Sorted(q)
    ensures Sorted(Push(q, e))
  {
    PushInserts(q, e);
    if e !in q {
      var p :| 0 <= p <= |q| && Push(q, e) == q[..p] + [e] + q[p..] && Fits(q, p, e.height);
      InsertAtSorted(q, p, e);
    }
  }

  /** `push` of a handle keeps the queue sorted, duplicate-free and its heights cached. */
  lemma PushKeepsValid<H>(q: Queue<H>, a: Arena<H>, x: H)
    requires ValidQueue(q, a)
    ensures ValidQueue(Push(q, Entry(a, x)), a)
  {
    var e := Entry(a, x);
    PushKeepsSorted(q, e);
    PushMembers(q, e);
    PushInserts(q, e);
    if e !in q {
      var p :| 0 <= p <= |q| && Push(q, e) == q[..p] + [e] + q[p..];
      forall i | 0 <= i < |q| ensures q[i].index != e.index {
        assert q[i] in q;
      }
      InsertAtDistinct(q, p, e);
    }
  }

  /** The handles after `push` are the old ones plus the pushed one. */
  lemma PushHandles<H>(q: Queue<H>, e: PriorityNodeId<H>)
    ensures HandleSet(Push(q, e)) == HandleSet(q) + {e.index}
  {
    PushMembers(q, e);
    if e in q {
      assert e.index in HandleSet(q);
    }
    assert e in Push(q, e);
  }

  // ----- push_children -----

  /** Push each handle of `hs` in turn (the loop of `push_children`). */
  function PushEach<H(==)>(q: Queue<H>, hs: seq<H>, a: Arena<H>): Queue<H>
    decreases |hs|
  {
    if hs == [] then q
    else Push(PushEach(q, hs[..|hs| - 1], a), Entry(a, hs[|hs| - 1]))
  }

  /** `push_children`: push every child of `parent`. */
  function PushChildren<H(==)>(q: Queue<H>, parent: H, a: Arena<H>): Queue<H> {
    PushEach(q, a.children(parent), a)
  }

  lemma {:induction false} PushEachKeepsValid<H>(q: Queue<H>, hs: seq<H>, a: Arena<H>)
    requires ValidQueue(q, a)
    ensures ValidQueue(PushEach(q, hs, a), a)
    decreases |hs|
  {
    if hs != [] {
      PushEachKeepsValid(q, hs[..|hs| - 1], a);
      PushKeepsValid(PushEach(q, hs[..|hs| - 1], a), a, hs[|hs| - 1]);
    }
  }

  lemma {:induction false} PushEachHandles<H>(q: Queue<H>, hs: seq<H>, a: Arena<H>)
    ensures forall x :: x in HandleSet(PushEach(q, hs, a)) <==> x in HandleSet(q) || x in hs
    decreases |hs|
  {
    if hs != [] {
      var init := hs[..|hs| - 1];
      PushEachHandles(q, init, a);
      PushHandles(PushEach(q, init, a), Entry(a, hs[|hs| - 1]));
      assert hs == init + [hs[|hs| - 1]];
    }
  }

  lemma {:induction false} PushEachBelow<H>(q: Queue<H>, hs: seq<H>, a: Arena<H>, m: nat)
    requires AllBelow(q, m)
    requires forall x :: x in hs ==> a.height(x) < m
    ensures AllBelow(PushEach(q, hs, a), m)
    decreases |hs|
  {
    if hs != [] {
      var init := hs[..|hs| - 1];
      assert forall x :: x in init ==> x in hs;
      PushEachBelow(q, init, a, m);
      PushMembers(PushEach(q, init, a), Entry(a, hs[|hs| - 1]));
    }
  }

  // ----- pop -----

  /**
   * The `while` loop of `pop`: take entries off the tail while their height
   * is `max`, collecting their handles in the order they are taken.
   */
  function PopTier<H>(q: Queue<H>, max: nat): (r: (Queue<H>, seq<H>))
    ensures |r.0| <= |q| && r.0 == q[..|r.0|]
    ensures forall i :: |r.0| <= i < |q| ==> q[i].height == max
    ensures |r.0| > 0 ==> q[|r.0| - 1].height != max
    ensures |r.1| == |q| - |r.0|
    ensures forall k :: 0 <= k < |r.1| ==> r.1[k] == q[|q| - 1 - k].index
    decreases |q|
  {
    if |q| > 0 && q[|q| - 1].height == max then
      var r := PopTier(q[..|q| - 1], max);
      (r.0, [q[|q| - 1].index] + r.1)
    else (q, [])
  }

  /** `pop`: the remaining queue and the handles removed from it. */
  function Pop<H>(q: Queue<H>): (r: (Queue<H>, seq<H>))
    ensures |q| > 0 ==> |r.0| < |q| && |r.1| > 0
  {
    if |q| == 0 then (q, []) else PopTier(q, q[|q| - 1].height)
  }

  /**
   * `pop` on a sorted queue removes the whole tallest tier and nothing else:
   * what remains is a prefix strictly below the old maximum, and the handles
   * returned are exactly those of the removed tail, tallest position first.
   */
  lemma PopTakesTopTier<H>(q: Queue<H>)
    requires Sorted(q)
    ensures |q| == 0 ==> Pop(q) == (q, [])
    ensures |q| > 0 ==>
      var (rest, tier) := Pop(q);
      var max := q[|q| - 1].height;
      |rest| < |q| && rest == q[..|rest|] &&
      (forall i :: 0 <= i < |rest| ==> q[i].height < max) &&
      (forall i :: |rest| <= i < |q| ==> q[i].height == max) &&
      |tier| == |q| - |rest| &&
      (forall k :: 0 <= k < |tier| ==> tier[k] == q[|q| - 1 - k].index)
  {
    if |q| > 0 {
      var rest := Pop(q).0;
      var max := q[|q| - 1].height;
      forall i | 0 <= i < |rest| ensures q[i].height < max {
        assert q[i].height <= q[|rest| - 1].height <= max;
      }
    }
  }

  lemma PrefixKeepsValid<H>(q: Queue<H>, k: nat, a: Arena<H>)
    requires k <= |q| && ValidQueue(q, a)
    ensures ValidQueue(q[..k], a)
  {
    assert q == q[..k] + q[k..];
  }

  /** `pop` keeps the queue sorted, duplicate-free and its heights cached. */
  lemma PopKeepsValid<H>(q: Queue<H>, a: Arena<H>)
    requires ValidQueue(q, a)
    ensures ValidQueue(Pop(q).0, a)
  {
    if |q| > 0 {
      PrefixKeepsValid(q, |Pop(q).0|, a);
    }
  }

  // ----- repeated pops -----

  /** The tiers returned by popping until the queue is empty. */
  function Drain<H>(q: Queue<H>): seq<seq<H>>
    decreases |q|
  {
    if |q| == 0 then [] else [Pop(q).1] + Drain(Pop(q).0)
  }

  function Flatten<H>(ss: seq<seq<H>>): seq<H>
    decreases |ss|
  {
    if ss == [] then [] else ss[0] + Flatten(ss[1..])
  }

  /** Repeated pops return every entry's handle exactly once, tallest end first. */
  lemma {:induction false} DrainCoversAll<H>(q: Queue<H>)
    ensures |Flatten(Drain(q))| == |q|
    ensures forall k :: 0 <= k < |q| ==> Flatten(Drain(q))[k] == q[|q| - 1 - k].index
    decreases |q|
  {
    if |q| > 0 {
      var (rest, tier) := Pop(q);
      DrainCoversAll(rest);
      assert ([tier] + Drain(rest))[1..] == Drain(rest);
      assert Flatten(Drain(q)) == tier + Flatten(Drain(rest));
    }
  }

  lemma {:induction false} DrainBelow<H>(q: Queue<H>, a: Arena<H>, b: nat)
    requires HeightsCached(q, a) && AllBelow(q, b)
    ensures forall i, k :: 0 <= i < |Drain(q)| && 0 <= k < |Drain(q)[i]| ==> a.height(Drain(q)[i][k]) < b
    decreases |q|
  {
    if |q| > 0 {
      var (rest, tier) := Pop(q);
      assert rest == q[..|rest|];
      assert q == rest + q[|rest|..];
      DrainBelow(rest, a, b);
      forall k | 0 <= k < |tier| ensures a.height(tier[k]) < b {
        assert q[|q| - 1 - k] in q;
      }
    }
  }

  /**
   * Repeated pops of a valid queue return non-empty tiers, each of one
   * height, in strictly decreasing order of height.
   */
  lemma {:induction false} DrainTiersDescend<H>(q: Queue<H>, a: Arena<H>)
    requires Sorted(q) && HeightsCached(q, a)
    ensures forall i :: 0 <= i < |Drain(q)| ==> |Drain(q)[i]| > 0
    ensures forall i, k :: 0 <= i < |Drain(q)| && 0 <= k < |Drain(q)[i]| ==>
      a.height(Drain(q)[i][k]) == a.height(Drain(q)[i][0])
    ensures forall i, j :: 0 <= i < j < |Drain(q)| ==> a.height(Drain(q)[i][0]) > a.height(Drain(q)[j][0])
    decreases |q|
  {
    if |q| > 0 {
      var (rest, tier) := Pop(q);
      var max := q[|q| - 1].height;
      PopTakesTopTier(q);
      assert q == rest + q[|rest|..];
      forall k | 0 <= k < |tier| ensures a.height(tier[k]) == max {
        assert q[|q| - 1 - k] in q;
      }
      assert Sorted(rest);
      forall e | e in rest ensures e.height < max {
        var i :| 0 <= i < |rest| && rest[i] == e;
      }
      DrainTiersDescend(rest, a);
      DrainBelow(rest, a, max);
      assert Drain(q) == [tier] + Drain(rest);
      TiersPrepend(tier, Drain(rest), a, max);
    }
  }

  /**
   * Helper for DrainTiersDescend: a non-empty tier of height `max` in front
   * of descending tiers that are all below `max` gives descending tiers.
   */
  lemma TiersPrepend<H>(tier: seq<H>, ts: seq<seq<H>>, a: Arena<H>, max: nat)
    requires |tier| > 0 && forall k :: 0 <= k < |tier| ==> a.height(tier[k]) == max
    requires forall i :: 0 <= i < |ts| ==> |ts[i]| > 0
    requires forall i, k :: 0 <= i < |ts| && 0 <= k < |ts[i]| ==> a.height(ts[i][k]) == a.height(ts[i][0])
    requires forall i, j :: 0 <= i < j < |ts| ==> a.height(ts[i][0]) > a.height(ts[j][0])
    requires forall i, k :: 0 <= i < |ts| && 0 <= k < |ts[i]| ==> a.height(ts[i][k]) < max
    ensures var d := [tier] + ts;
      (forall i :: 0 <= i < |d| ==> |d[i]| > 0) &&
      (forall i, k :: 0 <= i < |d| && 0 <= k < |d[i]| ==> a.height(d[i][k]) == a.height(d[i][0])) &&
      (forall i, j :: 0 <= i < j < |d| ==> a.height(d[i][0]) > a.height(d[j][0]))
  {
    var d := [tier] + ts;
    forall i, j | 0 <= i < j < |d| ensures a.height(d[i][0]) > a.height(d[j][0]) {
      assert d[j] == ts[j - 1];
      if i > 0 {
        assert d[i] == ts[i - 1];
      }
    }
  }

  // ----- pop_and_push_children -----

  /** Push the children of each of `parents` in turn. */
  function PushChildrenOfAll<H(==)>(q: Queue<H>, parents: seq<H>, a: Arena<H>): Queue<H>
    decreases |parents|
  {
    if parents == [] then q
    else PushChildren(PushChildrenOfAll(q, parents[..|parents| - 1], a), parents[|parents| - 1], a)
  }

  /** `pop_and_push_children`: pop the tallest tier, then push its children. */
  function PopAndPushChildren<H(==)>(q: Queue<H>, a: Arena<H>): (Queue<H>, Option<seq<H>>) {
    var (rest, tallest) := Pop(q);
    if tallest != [] then (PushChildrenOfAll(rest, tallest, a), Some(tallest)) else (rest, None)
  }

  lemma {:induction false} PushChildrenOfAllKeepsValid<H>(q: Queue<H>, ps: seq<H>, a: Arena<H>)
    requires ValidQueue(q, a)
    ensures ValidQueue(PushChildrenOfAll(q, ps, a), a)
    decreases |ps|
  {
    if ps != [] {
      PushChildrenOfAllKeepsValid(q, ps[..|ps| - 1], a);
      PushEachKeepsValid(PushChildrenOfAll(q, ps[..|ps| - 1], a), a.children(ps[|ps| - 1]), a);
    }
  }

  lemma {:induction false} PushChildrenOfAllHandles<H>(q: Queue<H>, ps: seq<H>, a: Arena<H>)
    ensures forall x :: x in HandleSet(PushChildrenOfAll(q, ps, a)) <==>
      x in HandleSet(q) || exists p :: p in ps && x in a.children(p)
    decreases |ps|
  {
    if ps != [] {
      var init := ps[..|ps| - 1];
      PushChildrenOfAllHandles(q, init, a);
      PushEachHandles(PushChildrenOfAll(q, init, a), a.children(ps[|ps| - 1]), a);
      assert ps == init + [ps[|ps| - 1]];
    }
  }

  lemma {:induction false} PushChildrenOfAllBelow<H(!new)>(q: Queue<H>, ps: seq<H>, a: Arena<H>, m: nat)
    requires ChildrenShorter(a) && AllBelow(q, m)
    requires forall p :: p in ps ==> a.height(p) <= m
    ensures AllBelow(PushChildrenOfAll(q, ps, a), m)
    decreases |ps|
  {
    if ps != [] {
      var init := ps[..|ps| - 1];
      assert forall p :: p in init ==> p in ps;
      PushChildrenOfAllBelow(q, init, a, m);
      PushEachBelow(PushChildrenOfAll(q, init, a), a.children(ps[|ps| - 1]), a, m);
    }
  }

  /** `pop_and_push_children` returns None exactly when the queue was empty. */
  lemma PopAndPushChildrenNone<H>(q: Queue<H>, a: Arena<H>)
    ensures PopAndPushChildren(q, a).1.None? <==> |q| == 0
    ensures |q| == 0 ==> PopAndPushChildren(q, a).0 == q
    ensures |q| > 0 ==> PopAndPushChildren(q, a).1 == Some(Pop(q).1)
  {
  }

  lemma PopAndPushChildrenKeepsValid<H>(q: Queue<H>, a: Arena<H>)
    requires ValidQueue(q, a)
    ensures ValidQueue(PopAndPushChildren(q, a).0, a)
  {
    PopKeepsValid(q, a);
    if |q| > 0 {
      PushChildrenOfAllKeepsValid(Pop(q).0, Pop(q).1, a);
    }
  }

  /** The entries of the tallest tier of a valid queue, found by handle. */
  lemma PoppedAreTallest<H>(q: Queue<H>, a: Arena<H>)
    requires ValidQueue(q, a) && |q| > 0
    ensures forall p :: p in Pop(q).1 ==> a.height(p) == q[|q| - 1].height
    ensures AllBelow(Pop(q).0, q[|q| - 1].height)
  {
    PopTakesTopTier(q);
    var (rest, tier) := Pop(q);
    forall p | p in tier ensures a.height(p) == q[|q| - 1].height {
      var k :| 0 <= k < |tier| && tier[k] == p;
      assert q[|q| - 1 - k] in q;
    }
    forall e | e in rest ensures e.height < q[|q| - 1].height {
      var i :| 0 <= i < |rest| && rest[i] == e;
    }
  }

  /**
   * Given child heights below parent heights, `pop_and_push_children` leaves
   * a valid queue whose maximum, if any, is strictly below the old one.
   */
  lemma PopAndPushChildrenLowers<H(!new)>(q: Queue<H>, a: Arena<H>)
    requires ChildrenShorter(a) && ValidQueue(q, a) && |q| > 0
    ensures ValidQueue(PopAndPushChildren(q, a).0, a)
    ensures AllBelow(PopAndPushChildren(q, a).0, Top(q))
    ensures var m := MaxHeight(PopAndPushChildren(q, a).0); m.None? || m.value < MaxHeight(q).value
  {
    PopAndPushChildrenKeepsValid(q, a);
    PoppedAreTallest(q, a);
    var (rest, tier) := Pop(q);
    PushChildrenOfAllBelow(rest, tier, a, Top(q));
    var r := PopAndPushChildren(q, a).0;
    if |r| > 0 {
      assert r[|r| - 1] in r;
    }
  }

  /** A child of the last entry of a valid queue is present once the queue is expanded. */
  lemma ChildOfTopIsPushed<H>(q: Queue<H>, a: Arena<H>, c: H)
    requires ValidQueue(q, a) && |q| > 0
    requires c in a.children(q[|q| - 1].index)
    ensures Entry(a, c) in PopAndPushChildren(q, a).0
  {
    PopTakesTopTier(q);
    var (rest, tier) := Pop(q);
    assert tier[0] == q[|q| - 1].index;
    PushChildrenOfAllHandles(rest, tier, a);
    PopAndPushChildrenKeepsValid(q, a);
    ContainsPairIffHandle(PopAndPushChildren(q, a).0, a, c);
  }

  /**
   * Under exact heights, expanding a queue whose maximum is above 0 leaves
   * a non-empty queue whose maximum is exactly one lower.
   */
  lemma PopAndPushChildrenStepsDown<H(!new)>(q: Queue<H>, a: Arena<H>)
    requires ExactHeights(a) && ValidQueue(q, a) && Top(q) > 0
    ensures var r := PopAndPushChildren(q, a).0; |r| > 0 && Top(r) == Top(q) - 1
  {
    ExactHeightsAreShorter(a);
    var p := q[|q| - 1].index;
    assert q[|q| - 1] in q;
    ExactHeightsTallChild(a, p);
    var c :| c in a.children(p) && a.height(c) == Top(q) - 1;
    StepsDownThrough(q, a, c);
  }

  lemma StepsDownThrough<H(!new)>(q: Queue<H>, a: Arena<H>, c: H)
    requires ChildrenShorter(a) && ValidQueue(q, a) && |q| > 0
    requires c in a.children(q[|q| - 1].index) && a.height(c) == Top(q) - 1
    ensures var r := PopAndPushChildren(q, a).0; |r| > 0 && Top(r) == Top(q) - 1
  {
    PopAndPushChildrenLowers(q, a);
    ChildOfTopIsPushed(q, a, c);
    var r := PopAndPushChildren(q, a).0;
    var i :| 0 <= i < |r| && r[i] == Entry(a, c);
    assert r[|r| - 1] in r;
    assert r[i].height <= r[|r| - 1].height;
  }

  /**
   * Expanding a queue that holds only a root yields one entry per distinct
   * child of that root.
   */
  lemma PopAndPushChildrenOfRoot<H>(root: H, a: Arena<H>)
    ensures PopAndPushChildren([Entry(a, root)], a).1 == Some([root])
    ensures |PopAndPushChildren([Entry(a, root)], a).0| == |set c | c in a.children(root)|
  {
    var q := [Entry(a, root)];
    assert q[..0] == [];
    var t := Pop(q);
    assert |t.0| == 0 && |t.1| == 1 && t.1[0] == root;
    assert t.1 == [root] && t.0 == [];
    var r := PopAndPushChildren(q, a).0;
    assert [root][..0] == [];
    var none: Queue<H> := [];
    assert r == PushChildrenOfAll(none, [root], a);
    assert PushChildrenOfAll(none, [root], a) == PushChildren(PushChildrenOfAll(none, [], a), root, a);
    assert r == PushEach(none, a.children(root), a);
    PushEachKeepsValid([], a.children(root), a);
    PushEachHandles([], a.children(root), a);
    assert HandleSet(r) == set c | c in a.children(root);
    SizeCountsHandles(r);
  }

  // ----- match_heights -----

  /**
   * `match_heights`: while both queues are non-empty and their maxima
   * differ, expand the queue whose maximum is taller.
   */
  function MatchHeights<S(==, !new), D(==, !new)>(srcQ: Queue<S>, src: Arena<S>, dstQ: Queue<D>, dst: Arena<D>): (r: (Queue<S>, Queue<D>))
    requires ChildrenShorter(src) && ChildrenShorter(dst)
    requires ValidQueue(srcQ, src) && ValidQueue(dstQ, dst)
    decreases Top(srcQ) + Top(dstQ)
  {
    if |srcQ| == 0 || |dstQ| == 0 || MaxHeight(srcQ).value == MaxHeight(dstQ).value then (srcQ, dstQ)
    else if MaxHeight(srcQ).value > MaxHeight(dstQ).value then
      PopAndPushChildrenLowers(srcQ, src);
      MatchHeights(PopAndPushChildren(srcQ, src).0, src, dstQ, dst)
    else
      PopAndPushChildrenLowers(dstQ, dst);
      MatchHeights(srcQ, src, PopAndPushChildren(dstQ, dst).0, dst)
  }

  /**
   * On return one queue is empty or both maxima are equal; both queues stay
   * valid and neither maximum has grown.
   */
  lemma {:induction false} MatchHeightsSettles<S(!new), D(!new)>(srcQ: Queue<S>, src: Arena<S>, dstQ: Queue<D>, dst: Arena<D>)
    requires ChildrenShorter(src) && ChildrenShorter(dst)
    requires ValidQueue(srcQ, src) && ValidQueue(dstQ, dst)
    ensures var (s, d) := MatchHeights(srcQ, src, dstQ, dst);
      ValidQueue(s, src) && ValidQueue(d, dst) &&
      (s == [] || d == [] || MaxHeight(s) == MaxHeight(d)) &&
      Top(s) <= Top(srcQ) && Top(d) <= Top(dstQ)
    decreases Top(srcQ) + Top(dstQ)
  {
    if |srcQ| == 0 || |dstQ| == 0 || MaxHeight(srcQ).value == MaxHeight(dstQ).value {
    } else if MaxHeight(srcQ).value > MaxHeight(dstQ).value {
      PopAndPushChildrenLowers(srcQ, src);
      MatchHeightsSettles(PopAndPushChildren(srcQ, src).0, src, dstQ, dst);
    } else {
      PopAndPushChildrenLowers(dstQ, dst);
      MatchHeightsSettles(srcQ, src, PopAndPushChildren(dstQ, dst).0, dst);
    }
  }

  /**
   * Under exact heights, starting from two non-empty queues, both stay
   * non-empty, their common maximum is the smaller starting maximum, and the
   * queue that started no taller is left untouched.
   */
  lemma {:induction false} MatchHeightsMeetAtLower<S(!new), D(!new)>(srcQ: Queue<S>, src: Arena<S>, dstQ: Queue<D>, dst: Arena<D>)
    requires ExactHeights(src) && ExactHeights(dst)
    requires ValidQueue(srcQ, src) && ValidQueue(dstQ, dst)
    requires |srcQ| > 0 && |dstQ| > 0
    ensures ChildrenShorter(src) && ChildrenShorter(dst)
    ensures var (s, d) := MatchHeights(srcQ, src, dstQ, dst);
      |s| > 0 && |d| > 0 &&
      Top(s) == Top(d) == (if Top(srcQ) <= Top(dstQ) then Top(srcQ) else Top(dstQ)) &&
      (Top(srcQ) <= Top(dstQ) ==> s == srcQ) &&
      (Top(dstQ) <= Top(srcQ) ==> d == dstQ)
    decreases Top(srcQ) + Top(dstQ)
  {
    ExactHeightsAreShorter(src);
    ExactHeightsAreShorter(dst);
    if Top(srcQ) > Top(dstQ) {
      var next := PopAndPushChildren(srcQ, src).0;
      PopAndPushChildrenStepsDown(srcQ, src);
      PopAndPushChildrenKeepsValid(srcQ, src);
      assert MatchHeights(srcQ, src, dstQ, dst) == MatchHeights(next, src, dstQ, dst);
      MatchHeightsMeetAtLower(next, src, dstQ, dst);
    } else if Top(srcQ) < Top(dstQ) {
      var next := PopAndPushChildren(dstQ, dst).0;
      PopAndPushChildrenStepsDown(dstQ, dst);
      PopAndPushChildrenKeepsValid(dstQ, dst);
      assert MatchHeights(srcQ, src, dstQ, dst) == MatchHeights(srcQ, src, next, dst);
      MatchHeightsMeetAtLower(srcQ, src, next, dst);
    } else {
      assert MatchHeights(srcQ, src, dstQ, dst) == (srcQ, dstQ);
    }
  }
}
