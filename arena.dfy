/**
 * The tree storage a height queue reads from. The queue only ever asks a
 * node's height and its list of children; the arena itself (node
 * insertion, labels, parent links, height computation) is outside the model,
 * so an arena is represented by those two lookups.
 */
module ArenaModel {

  /** Read-only view of one tree: every handle has a height and a child list. */
  datatype Arena<!H> = Arena(height: H -> nat, children: H -> seq<H>)

  /** Heights strictly decrease from a node to each of its children. */
  ghost predicate ChildrenShorter<H(!new)>(a: Arena<H>) {
    forall p, c :: c in a.children(p) ==> a.height(c) < a.height(p)
  }

  /** The largest height among `cs`, and 0 for no children. */
  function TallestChild<H>(a: Arena<H>, cs: seq<H>): (m: nat)
    ensures forall c :: c in cs ==> a.height(c) <= m
    ensures cs != [] ==> exists c :: c in cs && a.height(c) == m
    decreases |cs|
  {
    if cs == [] then 0
    else
      var rest := TallestChild(a, cs[1..]);
      assert cs == [cs[0]] + cs[1..];
      if a.height(cs[0]) >= rest then a.height(cs[0]) else rest
  }

  /**
   * Heights are the length of the longest downward path to a leaf:
   * a leaf has height 0, any other node 1 + the tallest of its children.
   */
  ghost predicate ExactHeights<H(!new)>(a: Arena<H>) {
    forall p {:trigger a.children(p)} :: a.height(p) == if a.children(p) == [] then 0 else 1 + TallestChild(a, a.children(p))
  }

  lemma ExactHeightsAreShorter<H(!new)>(a: Arena<H>)
    requires ExactHeights(a)
    ensures ChildrenShorter(a)
  {
    forall p, c | c in a.children(p)
      ensures a.height(c) < a.height(p)
    {
      assert a.children(p) != [];
    }
  }

  /** A node above height 0 has a child exactly one level below it. */
  lemma ExactHeightsTallChild<H(!new)>(a: Arena<H>, p: H)
    requires ExactHeights(a) && a.height(p) > 0
    ensures exists c :: c in a.children(p) && a.height(c) == a.height(p) - 1
  {
    assert a.children(p) != [];
  }
}
