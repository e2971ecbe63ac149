/**
 * The binary heap of the vector search (src/hnsw.js, class Heap), ordered by distance: lowest first
 * or highest first.
 */
module Heaps {

  datatype Item = Item(id: string, dist: real)

  predicate Before(lowest: bool, a: Item, b: Item) {
    if lowest then a.dist < b.dist else a.dist > b.dist
  }

  /** `i` is not before its parent. */
  predicate InOrder(lowest: bool, s: seq<Item>, i: nat) {
    0 < i < |s| ==> !Before(lowest, s[i], s[(i - 1) / 2])
  }

  ghost predicate IsHeap(lowest: bool, s: seq<Item>) {
    forall i {:trigger InOrder(lowest, s, i)} :: InOrder(lowest, s, i)
  }

  function Swap(s: seq<Item>, i: nat, j: nat): seq<Item>
    requires i < |s| && j < |s|
  {
    s[i := s[j]][j := s[i]]
  }

  lemma SwapKeeps(s: seq<Item>, i: nat, j: nat)
    requires i < |s| && j < |s|
    ensures |Swap(s, i, j)| == |s| && multiset(Swap(s, i, j)) == multiset(s)
  {
  }

  /** Nothing comes before the root. */
  lemma {:induction false} RootFirst(lowest: bool, s: seq<Item>, i: nat)
    requires IsHeap(lowest, s) && i < |s|
    ensures !Before(lowest, s[i], s[0])
  {
    if i != 0 {
      assert InOrder(lowest, s, i);
      RootFirst(lowest, s, (i - 1) / 2);
    }
  }

  /** A child of `at` is not before the parent of `at`. */
  predicate SuitsGrandparent(lowest: bool, s: seq<Item>, at: nat, i: nat) {
    0 < at && at < i < |s| && (i - 1) / 2 == at ==> !Before(lowest, s[i], s[(at - 1) / 2])
  }

  /** A heap but for the place at `at`, whose children already suit its parent. */
  ghost predicate RisingAt(lowest: bool, s: seq<Item>, at: nat) {
    && at < |s|
    && (forall i: nat {:trigger InOrder(lowest, s, i)} | i != at :: InOrder(lowest, s, i))
    && (forall i {:trigger SuitsGrandparent(lowest, s, at, i)} :: SuitsGrandparent(lowest, s, at, i))
  }

  lemma RiseStep(lowest: bool, s: seq<Item>, at: nat)
    requires RisingAt(lowest, s, at) && at > 0 && Before(lowest, s[at], s[(at - 1) / 2])
    ensures RisingAt(lowest, Swap(s, at, (at - 1) / 2), (at - 1) / 2)
  {
    var parent := (at - 1) / 2;
    var t := Swap(s, at, parent);
    forall i: nat | i != parent ensures InOrder(lowest, t, i) {
      assert i != at ==> InOrder(lowest, s, i);
      assert SuitsGrandparent(lowest, s, at, i);
    }
    forall i: nat ensures SuitsGrandparent(lowest, t, parent, i) {
      assert InOrder(lowest, s, parent);
      assert i != at ==> InOrder(lowest, s, i);
    }
  }

  /** A heap but for the children of `at`. */
  ghost predicate SinkingAt(lowest: bool, s: seq<Item>, at: nat) {
    && at < |s|
    && (forall i: nat {:trigger InOrder(lowest, s, i)} | i == 0 || (i - 1) / 2 != at :: InOrder(lowest, s, i))
    && (forall i {:trigger SuitsGrandparent(lowest, s, at, i)} :: SuitsGrandparent(lowest, s, at, i))
  }

  lemma SinkStep(lowest: bool, s: seq<Item>, at: nat, child: nat)
    requires SinkingAt(lowest, s, at) && at < child < |s| && (child - 1) / 2 == at
    requires Before(lowest, s[child], s[at])
    requires forall i | at < i < |s| && (i - 1) / 2 == at :: !Before(lowest, s[i], s[child])
    ensures SinkingAt(lowest, Swap(s, at, child), child)
  {
    var t := Swap(s, at, child);
    forall i: nat | i == 0 || (i - 1) / 2 != child ensures InOrder(lowest, t, i) {
      if 0 < i < |s| && (i - 1) / 2 != at {
        assert InOrder(lowest, s, i);
      }
      assert SuitsGrandparent(lowest, s, at, child);
    }
    forall i: nat ensures SuitsGrandparent(lowest, t, child, i) {
      assert (i - 1) / 2 == child && child < i ==> InOrder(lowest, s, i);
    }
  }

  /** Moving the last item to the root of a heap leaves only the root's children to check. */
  lemma LastToRoot(lowest: bool, s: seq<Item>)
    requires IsHeap(lowest, s) && |s| > 1
    ensures var t := s[..|s| - 1][0 := s[|s| - 1]];
            SinkingAt(lowest, t, 0) && multiset(t) == multiset(s) - multiset{s[0]}
  {
    LastReplacesRoot(s);
    var rest, last := s[..|s| - 1], s[|s| - 1];
    var t := rest[0 := last];
    forall i: nat | i == 0 || (i - 1) / 2 != 0 ensures InOrder(lowest, t, i) {
      assert InOrder(lowest, s, i);
    }
  }

  lemma LastReplacesRoot(s: seq<Item>)
    requires |s| > 1
    ensures multiset(s[..|s| - 1][0 := s[|s| - 1]]) == multiset(s) - multiset{s[0]}
  {
    var rest, last := s[..|s| - 1], s[|s| - 1];
    assert s == [s[0]] + rest[1..] + [last];
    assert rest[0 := last] == [last] + rest[1..];
  }

  class Heap {
    const lowest: bool
    var items: seq<Item>

    ghost predicate Valid()
      reads this
    {
      IsHeap(lowest, items)
    }

    constructor (lowest: bool)
      ensures this.lowest == lowest && items == [] && Valid()
    {
      this.lowest := lowest;
      items := [];
    }

    method Push(item: Item)
      requires Valid()
      modifies this
      ensures Valid() && multiset(items) == multiset(old(items)) + multiset{item} && |items| == |old(items)| + 1
    {
      ghost var before := items;
      items := items + [item];
      forall i: nat | i != |before| ensures InOrder(lowest, items, i) {
        assert InOrder(lowest, before, i);
      }
      Up(|items| - 1);
    }

    method Up(start: nat)
      requires RisingAt(lowest, items, start)
      modifies this
      ensures Valid() && multiset(items) == multiset(old(items)) && |items| == |old(items)|
    {
      var index: nat := start;
      while index > 0
        invariant RisingAt(lowest, items, index)
        invariant multiset(items) == multiset(old(items)) && |items| == |old(items)|
        decreases index
      {
        var parent: nat := (index - 1) / 2;
        if !Before(lowest, items[index], items[parent]) {
          assert InOrder(lowest, items, index);
          break;
        }
        RiseStep(lowest, items, index);
        SwapKeeps(items, index, parent);
        items := Swap(items, index, parent);
        index := parent;
      }
      assert index == 0 ==> InOrder(lowest, items, 0);
    }

    /** Takes the root: nothing left comes before it. */
    method Pop() returns (top: Item)
      requires Valid() && items != []
      modifies this
      ensures Valid() && top == old(items)[0]
      ensures multiset(items) == multiset(old(items)) - multiset{top} && |items| == |old(items)| - 1
      ensures forall i | 0 <= i < |old(items)| :: !Before(lowest, old(items)[i], top)
    {
      ghost var before := items;
      top := items[0];
      forall i | 0 <= i < |before| ensures !Before(lowest, before[i], top) {
        RootFirst(lowest, before, i);
      }
      var last := items[|items| - 1];
      items := items[..|items| - 1];
      assert before == items + [last];
      if |items| > 0 {
        LastToRoot(lowest, before);
        items := items[0 := last];
        Down(0);
      } else {
        assert forall i: nat :: InOrder(lowest, items, i);
      }
    }

    method Down(start: nat)
      requires SinkingAt(lowest, items, start)
      modifies this
      ensures Valid() && multiset(items) == multiset(old(items)) && |items| == |old(items)|
    {
      var index: nat := start;
      while true
        invariant SinkingAt(lowest, items, index)
        invariant multiset(items) == multiset(old(items)) && |items| == |old(items)|
        decreases |items| - index
      {
        var best := index;
        var left := index * 2 + 1;
        var right := left + 1;
        if left < |items| && Before(lowest, items[left], items[best]) {
          best := left;
        }
        if right < |items| && Before(lowest, items[right], items[best]) {
          best := right;
        }
        if best == index {
          forall i: nat ensures InOrder(lowest, items, i) {
            if 0 < i && (i - 1) / 2 == index {
              assert i == left || i == right;
            }
          }
          break;
        }
        SinkStep(lowest, items, index, best);
        SwapKeeps(items, index, best);
        items := Swap(items, index, best);
        index := best;
      }
    }
  }
}
