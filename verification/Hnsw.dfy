/**
 * The layered neighbour graph of the vector index (src/hnsw.js, class HNSWIndex): best-first layer
 * search, insertion with pruned links, and removal.
 *
 * Distances come as functions: `near` from the query to a stored vector (`None` when there is no
 * vector), `apart` between two stored vectors.  The random level of a new node is an input.
 */
module Hnsw {
  import opened Wrappers
  import opened Heaps
  import opened Paging

  /** A node's neighbour lists, one a layer. */
  type Node = seq<seq<string>>

  type Graph = map<string, Node>

  type Near = string -> Option<real>

  function Links(nodes: Graph, id: string, layer: nat): seq<string> {
    if id in nodes && layer < |nodes[id]| then nodes[id][layer] else []
  }

  ghost function Linked(nodes: Graph, layer: nat): set<string> {
    set id, k | id in nodes && 0 <= k < |Links(nodes, id, layer)| :: Links(nodes, id, layer)[k]
  }

  // Layer search.

  predicate Measured(near: Near, x: Item) {
    near(x.id) == Some(x.dist)
  }

  ghost predicate AllMeasured(near: Near, s: seq<Item>) {
    forall i {:trigger s[i]} | 0 <= i < |s| :: Measured(near, s[i])
  }

  predicate DistinctIds(s: seq<Item>) {
    forall i, j | 0 <= i < j < |s| :: s[i].id != s[j].id
  }

  ghost predicate Ascending(s: seq<Item>) {
    forall i, j | 0 <= i < j < |s| :: s[i].dist <= s[j].dist
  }

  /** Of all items seen, the kept ones are the nearest, at most `ef` of them. */
  ghost predicate Nearest(kept: multiset<Item>, seen: set<Item>, ef: nat) {
    && |kept| <= ef
    && (forall x {:trigger kept[x]} | x in kept :: x in seen && kept[x] == 1)
    && (forall x, r {:trigger x in seen, kept[r]} | x in seen && x !in kept && r in kept :: r.dist <= x.dist)
    && (forall x {:trigger x in seen} | x in seen && x !in kept :: |kept| == ef)
  }

  /** What has been seen is what has been visited and has a vector. */
  ghost predicate SeenVisited(near: Near, visited: set<string>, seen: set<Item>) {
    && (forall x {:trigger x in seen} | x in seen :: Measured(near, x) && x.id in visited)
    && (forall id {:trigger id in visited} | id in visited && near(id).Some? :: Item(id, near(id).value) in seen)
  }

  /** The neighbours of an item have all been visited. */
  predicate Expanded(nodes: Graph, layer: nat, visited: set<string>, x: Item) {
    forall id | id in Links(nodes, x.id, layer) :: id in visited
  }

  /** Every kept item is expanded, is being expanded, or is still a candidate. */
  ghost predicate Pending(nodes: Graph, layer: nat, visited: set<string>, kept: multiset<Item>, candidates: multiset<Item>, current: Option<Item>) {
    forall x {:trigger kept[x]} | x in kept :: Expanded(nodes, layer, visited, x) || x in candidates || current == Some(x)
  }

  lemma KeepMore(kept: multiset<Item>, seen: set<Item>, ef: nat, x: Item)
    requires Nearest(kept, seen, ef) && x !in seen && |kept| < ef
    ensures Nearest(kept + multiset{x}, seen + {x}, ef)
  {
  }

  lemma KeepNot(kept: multiset<Item>, seen: set<Item>, ef: nat, x: Item, worst: Item)
    requires Nearest(kept, seen, ef) && |kept| == ef && worst.dist <= x.dist
    requires forall r | r in kept :: r.dist <= worst.dist
    ensures Nearest(kept, seen + {x}, ef)
  {
  }

  /** A nearer item pushes out the farthest kept one. */
  lemma KeepInstead(kept: multiset<Item>, seen: set<Item>, ef: nat, x: Item, worst: Item, top: Item)
    requires Nearest(kept, seen, ef) && x !in seen && |kept| == ef && worst in kept && x.dist < worst.dist
    requires top in kept + multiset{x} && forall r | r in kept + multiset{x} :: r.dist <= top.dist
    ensures Nearest(kept + multiset{x} - multiset{top}, seen + {x}, ef)
  {
    var kept' := kept + multiset{x} - multiset{top};
    assert top != x;
    assert kept[top] == 1;
    forall y | y in kept' ensures y in seen + {x} && kept'[y] == 1 {
      assert y == x || kept[y] == 1;
    }
    forall y, r | y in seen + {x} && y !in kept' && r in kept' ensures r.dist <= y.dist {
      if y == top {
        assert r in kept + multiset{x};
      } else {
        assert y in seen && y !in kept;
        assert worst.dist <= y.dist;
        assert r != x ==> r in kept;
      }
    }
  }

  lemma MultisetItems(s: seq<Item>, x: Item)
    ensures x in multiset(s) <==> x in s
    ensures |multiset(s)| == |s|
  {
  }

  /** What one newly seen item does to the two heaps. */
  method Offer(candidates: Heap, kept: Heap, x: Item, ef: nat, ghost seen: set<Item>)
    requires candidates.Valid() && kept.Valid() && candidates != kept && candidates.lowest && !kept.lowest && ef >= 1
    requires Nearest(multiset(kept.items), seen, ef) && x !in seen
    modifies candidates, kept
    ensures candidates.Valid() && kept.Valid()
    ensures Nearest(multiset(kept.items), seen + {x}, ef)
    ensures multiset(candidates.items) == multiset(old(candidates.items)) || multiset(candidates.items) == multiset(old(candidates.items)) + multiset{x}
    ensures forall r | r in multiset(kept.items) :: r in multiset(old(kept.items)) || (r == x && x in multiset(candidates.items))
    ensures old(kept.items) != [] || ef >= 1 ==> kept.items != []
  {
    ghost var before := multiset(kept.items);
    MultisetItems(kept.items, x);
    if |kept.items| < ef {
      KeepMore(before, seen, ef, x);
      candidates.Push(x);
      kept.Push(x);
    } else {
      ghost var worst := kept.items[0];
      WorstIsRoot(kept.items);
      if x.dist < kept.items[0].dist {
        candidates.Push(x);
        kept.Push(x);
        ghost var full := kept.items;
        assert multiset(full) == before + multiset{x};
        var top := kept.Pop();
        TopIsLast(full, top);
        KeepInstead(before, seen, ef, x, worst, top);
      } else {
        KeepNot(before, seen, ef, x, worst);
      }
    }
  }

  lemma WorstIsRoot(s: seq<Item>)
    requires IsHeap(false, s) && s != []
    ensures s[0] in multiset(s) && forall r | r in multiset(s) :: r.dist <= s[0].dist
  {
    forall r | r in multiset(s) ensures r.dist <= s[0].dist {
      var i :| 0 <= i < |s| && s[i] == r;
      RootFirst(false, s, i);
    }
  }

  lemma TopIsLast(s: seq<Item>, top: Item)
    requires s != [] && s[0] == top && forall i | 0 <= i < |s| :: !Before(false, s[i], top)
    ensures top in multiset(s) && forall r | r in multiset(s) :: r.dist <= top.dist
  {
    forall r | r in multiset(s) ensures r.dist <= top.dist {
      var i :| 0 <= i < |s| && s[i] == r;
    }
  }

  /** Candidates are items already seen. */
  ghost predicate AmongSeen(items: multiset<Item>, seen: set<Item>) {
    forall x {:trigger items[x]} | x in items :: x in seen
  }

  /**
   * Visit the unvisited neighbours of one item.  What is kept stays the nearest of all seen, every
   * kept item newly seen is a candidate, and the item's whole neighbourhood has been visited.
   */
  method VisitNeighbors(nodes: Graph, near: Near, ef: nat, layer: nat, current: Item, candidates: Heap, kept: Heap,
                        visited: set<string>, ghost seen: set<Item>)
    returns (visited': set<string>, ghost seen': set<Item>)
    requires candidates.Valid() && kept.Valid() && candidates != kept && candidates.lowest && !kept.lowest && ef >= 1
    requires Nearest(multiset(kept.items), seen, ef) && SeenVisited(near, visited, seen) && AmongSeen(multiset(candidates.items), seen)
    requires Pending(nodes, layer, visited, multiset(kept.items), multiset(candidates.items), Some(current))
    requires kept.items != []
    modifies candidates, kept
    ensures candidates.Valid() && kept.Valid() && kept.items != []
    ensures Nearest(multiset(kept.items), seen', ef) && SeenVisited(near, visited', seen') && AmongSeen(multiset(candidates.items), seen')
    ensures Pending(nodes, layer, visited', multiset(kept.items), multiset(candidates.items), None)
    ensures seen <= seen' && visited <= visited' <= visited + Linked(nodes, layer)
    ensures visited' == visited ==> candidates.items == old(candidates.items)
  {
    hide Nearest, Pending, SeenVisited, AmongSeen;
    visited', seen' := visited, seen;
    var links := Links(nodes, current.id, layer);
    for i := 0 to |links|
      invariant candidates.Valid() && kept.Valid() && kept.items != []
      invariant Nearest(multiset(kept.items), seen', ef) && SeenVisited(near, visited', seen') && AmongSeen(multiset(candidates.items), seen')
      invariant Pending(nodes, layer, visited', multiset(kept.items), multiset(candidates.items), Some(current))
      invariant seen <= seen' && visited <= visited' <= visited + Linked(nodes, layer)
      invariant visited' == visited ==> candidates.items == old(candidates.items)
      invariant forall k | 0 <= k < i :: links[k] in visited'
    {
      var id := links[i];
      if id in visited' {
        continue;
      }
      assert id in Linked(nodes, layer) by {
        assert current.id in nodes && Links(nodes, current.id, layer)[i] == id;
      }
      ghost var before := visited';
      visited' := visited' + {id};
      PendingVisits(nodes, layer, before, visited', multiset(kept.items), multiset(candidates.items), Some(current));
      var d := near(id);
      SeenOne(near, before, seen', id);
      if d.None? {
        continue;
      }
      var x := Item(id, d.value);
      ghost var keptBefore, candidatesBefore := multiset(kept.items), multiset(candidates.items);
      Offer(candidates, kept, x, ef, seen');
      AmongOffered(candidatesBefore, multiset(candidates.items), seen', x);
      seen' := seen' + {x};
      PendingOffered(nodes, layer, visited', keptBefore, candidatesBefore, multiset(kept.items), multiset(candidates.items), Some(current), x);
    }
    PendingDone(nodes, layer, visited', multiset(kept.items), multiset(candidates.items), current);
  }

  lemma SeenOne(near: Near, visited: set<string>, seen: set<Item>, id: string)
    requires SeenVisited(near, visited, seen) && id !in visited
    ensures near(id).None? ==> SeenVisited(near, visited + {id}, seen)
    ensures near(id).Some? ==> Item(id, near(id).value) !in seen && SeenVisited(near, visited + {id}, seen + {Item(id, near(id).value)})
  {
    if near(id).Some? {
      assert Item(id, near(id).value) in seen ==> id in visited;
    }
  }

  lemma AmongOffered(items: multiset<Item>, items': multiset<Item>, seen: set<Item>, x: Item)
    requires AmongSeen(items, seen) && (items' == items || items' == items + multiset{x})
    ensures AmongSeen(items', seen + {x})
  {
    forall y | y in items' ensures y in seen + {x} {
      assert y != x ==> items[y] > 0;
    }
  }

  lemma PendingDone(nodes: Graph, layer: nat, visited: set<string>, kept: multiset<Item>, candidates: multiset<Item>, current: Item)
    requires Pending(nodes, layer, visited, kept, candidates, Some(current)) && Expanded(nodes, layer, visited, current)
    ensures Pending(nodes, layer, visited, kept, candidates, None)
  {
  }

  lemma PendingVisits(nodes: Graph, layer: nat, visited: set<string>, more: set<string>, kept: multiset<Item>, candidates: multiset<Item>, current: Option<Item>)
    requires Pending(nodes, layer, visited, kept, candidates, current) && visited <= more
    ensures Pending(nodes, layer, more, kept, candidates, current)
  {
  }

  lemma PendingOffered(nodes: Graph, layer: nat, visited: set<string>, kept: multiset<Item>, candidates: multiset<Item>,
                       kept': multiset<Item>, candidates': multiset<Item>, current: Option<Item>, x: Item)
    requires Pending(nodes, layer, visited, kept, candidates, current)
    requires candidates' == candidates || candidates' == candidates + multiset{x}
    requires forall r | r in kept' :: r in kept || (r == x && x in candidates')
    ensures Pending(nodes, layer, visited, kept', candidates', current)
  {
    forall r | r in kept'
      ensures Expanded(nodes, layer, visited, r) || r in candidates' || current == Some(r)
    {
      assert r in kept ==> kept[r] > 0;
    }
  }

  /** Every neighbour of a kept item that has a vector has been seen. */
  ghost predicate Closed(nodes: Graph, near: Near, layer: nat, out: seq<Item>, seen: set<Item>) {
    forall i, id {:trigger id in Links(nodes, out[i].id, layer)} | 0 <= i < |out| && id in Links(nodes, out[i].id, layer) && near(id).Some? ::
      Item(id, near(id).value) in seen
  }

  /** Nothing in `rest` is farther than anything in `out`. */
  ghost predicate NoneFarther(rest: multiset<Item>, out: seq<Item>) {
    forall r {:trigger rest[r]} | r in rest :: forall i | 0 <= i < |out| :: r.dist <= out[i].dist
  }

  /** The kept items, drained from the heap, nearest first. */
  method Drain(kept: Heap) returns (out: seq<Item>)
    requires kept.Valid() && !kept.lowest
    modifies kept
    ensures multiset(out) == multiset(old(kept.items)) && |out| == |old(kept.items)| && Ascending(out)
  {
    out := [];
    while kept.items != []
      invariant kept.Valid()
      invariant multiset(out) + multiset(kept.items) == multiset(old(kept.items)) && |out| + |kept.items| == |old(kept.items)|
      invariant Ascending(out) && NoneFarther(multiset(kept.items), out)
      decreases |kept.items|
    {
      WorstIsRoot(kept.items);
      DrainStep(multiset(kept.items), out, kept.items[0]);
      var top := kept.Pop();
      out := [top] + out;
    }
  }

  lemma DrainStep(rest: multiset<Item>, out: seq<Item>, top: Item)
    requires Ascending(out) && NoneFarther(rest, out) && top in rest && forall r | r in rest :: r.dist <= top.dist
    ensures Ascending([top] + out) && multiset([top] + out) == multiset(out) + multiset{top}
    ensures NoneFarther(rest - multiset{top}, [top] + out)
  {
    assert rest[top] > 0;
    forall r | r in rest - multiset{top} ensures forall i | 0 <= i < |[top] + out| :: r.dist <= ([top] + out)[i].dist {
      assert rest[r] > 0;
    }
  }

  lemma EntryItems(near: Near, entry: seq<Item>, ef: nat)
    requires AllMeasured(near, entry) && DistinctIds(entry) && |entry| <= ef
    ensures var seen := set x | x in entry; var visited := set i | 0 <= i < |entry| :: entry[i].id;
            SeenVisited(near, visited, seen) && Nearest(multiset(entry), seen, ef)
  {
    var seen := set x | x in entry;
    forall x | x in multiset(entry) ensures multiset(entry)[x] == 1 {
      OnceOnly(entry, x);
    }
    assert |multiset(entry)| == |entry|;
    var visited := set i | 0 <= i < |entry| :: entry[i].id;
    forall x | x in seen ensures Measured(near, x) && x.id in visited {
      var i :| 0 <= i < |entry| && entry[i] == x;
    }
    forall id | id in visited && near(id).Some? ensures Item(id, near(id).value) in seen {
      var i :| 0 <= i < |entry| && entry[i].id == id;
      assert Measured(near, entry[i]);
    }
  }

  lemma {:induction false} OnceOnly(s: seq<Item>, x: Item)
    requires DistinctIds(s) && x in s
    ensures multiset(s)[x] == 1
  {
    var front, last := s[..|s| - 1], s[|s| - 1];
    assert s == front + [last];
    if x == last {
      forall i | 0 <= i < |front| ensures front[i] != x {
        assert s[i].id != s[|s| - 1].id;
      }
    } else {
      OnceOnly(front, x);
    }
  }

  /**
   * What one search of a layer finds: ascending, distinct items, at most `ef` of them, the nearest of
   * all it has seen, where it began among them; and it is locally best: every neighbour of a found
   * item has been seen.
   */
  ghost predicate SearchedFrom(nodes: Graph, near: Near, ef: nat, layer: nat, entry: seq<Item>, out: seq<Item>, seen: set<Item>) {
    && Ascending(out) && |out| <= ef && (entry != [] ==> out != [])
    && (forall x | x in entry :: x in seen) && (forall x | x in seen :: Measured(near, x))
    && (entry == [] ==> out == [] && seen == {})
    && Nearest(multiset(out), seen, ef)
    && Closed(nodes, near, layer, out, seen)
    && AllMeasured(near, out) && DistinctIds(out)
  }

  /** Best-first search of one layer.  It ends. */
  method SearchLayer(nodes: Graph, near: Near, entry: seq<Item>, ef: nat, layer: nat) returns (out: seq<Item>, ghost seen: set<Item>)
    requires ef >= 1 && |entry| <= ef && AllMeasured(near, entry) && DistinctIds(entry)
    ensures SearchedFrom(nodes, near, ef, layer, entry, out, seen)
  {
    if entry == [] {
      seen := {};
      return [], {};
    }
    var candidates := new Heap(true);
    var kept := new Heap(false);
    Seed(entry, candidates, kept);
    EntryItems(near, entry, ef);
    seen := set x | x in entry;
    var visited := set i | 0 <= i < |entry| :: entry[i].id;
    assert AmongSeen(multiset(candidates.items), seen) && Pending(nodes, layer, visited, multiset(kept.items), multiset(candidates.items), None);
    visited, seen := Explore(nodes, near, ef, layer, candidates, kept, visited, seen);
    ghost var last := multiset(kept.items);
    out := Drain(kept);
    ClosedWhenDone(nodes, near, layer, visited, seen, out);
    KeptDistinct(near, out, seen, ef);
  }

  lemma KeptDistinct(near: Near, out: seq<Item>, seen: set<Item>, ef: nat)
    requires Nearest(multiset(out), seen, ef) && forall x | x in seen :: Measured(near, x)
    ensures AllMeasured(near, out) && DistinctIds(out)
  {
    forall i | 0 <= i < |out| ensures Measured(near, out[i]) {
      assert multiset(out)[out[i]] > 0;
    }
    forall i, j | 0 <= i < j < |out| ensures out[i].id != out[j].id {
      assert Measured(near, out[i]) && Measured(near, out[j]);
      assert multiset(out)[out[i]] == 1;
      CountedTwice(out, i, j);
    }
  }

  lemma CountedTwice(s: seq<Item>, i: nat, j: nat)
    requires i < j < |s|
    ensures s[i] == s[j] ==> multiset(s)[s[i]] >= 2
  {
    assert s == s[..j] + s[j..];
    assert s[..j][i] == s[i] && s[j..][0] == s[j];
    assert s[i] in multiset(s[..j]) && s[j] in multiset(s[j..]);
  }

  method Seed(entry: seq<Item>, candidates: Heap, kept: Heap)
    requires candidates != kept && candidates.Valid() && kept.Valid() && candidates.items == [] && kept.items == []
    modifies candidates, kept
    ensures candidates.Valid() && kept.Valid() && |kept.items| == |entry|
    ensures multiset(candidates.items) == multiset(entry) && multiset(kept.items) == multiset(entry)
  {
    for i := 0 to |entry|
      invariant candidates.Valid() && kept.Valid() && |kept.items| == i
      invariant multiset(candidates.items) == multiset(entry[..i]) && multiset(kept.items) == multiset(entry[..i])
    {
      assert entry[..i + 1] == entry[..i] + [entry[i]];
      candidates.Push(entry[i]);
      kept.Push(entry[i]);
    }
    assert entry[..|entry|] == entry;
  }

  /** The search loop: nearest candidate first, until it is farther than everything kept. */
  method Explore(nodes: Graph, near: Near, ef: nat, layer: nat, candidates: Heap, kept: Heap, visited: set<string>, ghost seen: set<Item>)
    returns (visited': set<string>, ghost seen': set<Item>)
    requires candidates.Valid() && kept.Valid() && candidates != kept && candidates.lowest && !kept.lowest && ef >= 1
    requires Nearest(multiset(kept.items), seen, ef) && SeenVisited(near, visited, seen) && AmongSeen(multiset(candidates.items), seen)
    requires Pending(nodes, layer, visited, multiset(kept.items), multiset(candidates.items), None) && kept.items != []
    modifies candidates, kept
    ensures kept.Valid() && kept.items != [] && seen <= seen'
    ensures Nearest(multiset(kept.items), seen', ef) && SeenVisited(near, visited', seen')
    ensures Pending(nodes, layer, visited', multiset(kept.items), multiset{}, None)
  {
    hide Nearest, SeenVisited, AmongSeen, Pending;
    visited', seen' := visited, seen;
    ghost var all := visited + Linked(nodes, layer);
    while candidates.items != []
      invariant candidates.Valid() && kept.Valid() && kept.items != []
      invariant Nearest(multiset(kept.items), seen', ef) && SeenVisited(near, visited', seen') && AmongSeen(multiset(candidates.items), seen')
      invariant Pending(nodes, layer, visited', multiset(kept.items), multiset(candidates.items), None)
      invariant seen <= seen' && visited <= visited' <= all
      decreases all - visited', |candidates.items|
    {
      ghost var before := candidates.items;
      var current := candidates.Pop();
      PopPending(nodes, layer, visited', multiset(kept.items), before, candidates.items, current, seen');
      if |kept.items| >= ef && current.dist > kept.items[0].dist {
        WorstIsRoot(kept.items);
        FarCandidates(nodes, layer, visited', multiset(kept.items), before, candidates.items, current, kept.items[0]);
        return;
      }
      visited', seen' := VisitNeighbors(nodes, near, ef, layer, current, candidates, kept, visited', seen');
    }
    assert multiset(candidates.items) == multiset{};
  }

  lemma ClosedWhenDone(nodes: Graph, near: Near, layer: nat, visited: set<string>, seen: set<Item>, out: seq<Item>)
    requires SeenVisited(near, visited, seen) && Pending(nodes, layer, visited, multiset(out), multiset{}, None)
    ensures Closed(nodes, near, layer, out, seen)
  {
    forall i, id | 0 <= i < |out| && id in Links(nodes, out[i].id, layer) && near(id).Some? ensures Item(id, near(id).value) in seen {
      assert multiset(out)[out[i]] > 0;
      assert Expanded(nodes, layer, visited, out[i]);
    }
  }

  lemma PopPending(nodes: Graph, layer: nat, visited: set<string>, kept: multiset<Item>, before: seq<Item>, after: seq<Item>, current: Item, seen: set<Item>)
    requires Pending(nodes, layer, visited, kept, multiset(before), None) && AmongSeen(multiset(before), seen)
    requires multiset(after) == multiset(before) - multiset{current}
    ensures Pending(nodes, layer, visited, kept, multiset(after), Some(current)) && AmongSeen(multiset(after), seen)
  {
    forall x | x in kept ensures Expanded(nodes, layer, visited, x) || x in multiset(after) || Some(current) == Some(x) {
      assert kept[x] > 0;
    }
    forall x | x in multiset(after) ensures x in seen {
      assert multiset(before)[x] > 0;
    }
  }

  /** When the nearest candidate is farther than the worst kept item, no kept item is a candidate. */
  lemma FarCandidates(nodes: Graph, layer: nat, visited: set<string>, kept: multiset<Item>, before: seq<Item>, after: seq<Item>, current: Item, worst: Item)
    requires Pending(nodes, layer, visited, kept, multiset(after), Some(current))
    requires multiset(after) == multiset(before) - multiset{current}
    requires forall i | 0 <= i < |before| :: !Before(true, before[i], current)
    requires current.dist > worst.dist && forall r | r in kept :: r.dist <= worst.dist
    ensures Pending(nodes, layer, visited, kept, multiset{}, None)
  {
    forall x | x in kept ensures x !in before && x != current {
      forall i | 0 <= i < |before| ensures before[i] != x {
        assert !Before(true, before[i], current);
      }
    }
    forall x | x in kept ensures Expanded(nodes, layer, visited, x) {
      assert kept[x] > 0;
      assert multiset(before)[x] == 0;
    }
  }

  // Choosing neighbours.

  /** How many of the candidates have a vector. */
  function Usable(candidates: seq<Item>, has: string -> bool): nat {
    if candidates == [] then 0
    else Usable(candidates[..|candidates| - 1], has) + (if has(candidates[|candidates| - 1].id) then 1 else 0)
  }

  /** Some chosen one is nearer to the item than the item is to the query. */
  predicate Crowds(chosen: seq<Item>, x: Item, apart: (string, string) -> real) {
    exists i {:trigger chosen[i]} :: 0 <= i < |chosen| && apart(x.id, chosen[i].id) < x.dist
  }

  /** The first choice: usable candidates in turn, each not crowded by those before it, up to the limit. */
  function Spread(candidates: seq<Item>, limit: nat, has: string -> bool, apart: (string, string) -> real): (chosen: seq<Item>)
    ensures |chosen| <= limit
  {
    if candidates == [] then []
    else
      var n := |candidates| - 1;
      var chosen, x := Spread(candidates[..n], limit, has, apart), candidates[n];
      if |chosen| < limit && has(x.id) && !Crowds(chosen, x, apart) then chosen + [x] else chosen
  }

  /** The second choice: usable candidates that were crowded. */
  function Crowded(candidates: seq<Item>, limit: nat, has: string -> bool, apart: (string, string) -> real): seq<Item> {
    if candidates == [] then []
    else
      var n := |candidates| - 1;
      var chosen, x := Spread(candidates[..n], limit, has, apart), candidates[n];
      if |chosen| < limit && has(x.id) && Crowds(chosen, x, apart) then Crowded(candidates[..n], limit, has, apart) + [x]
      else Crowded(candidates[..n], limit, has, apart)
  }

  function Selected(candidates: seq<Item>, limit: nat, has: string -> bool, apart: (string, string) -> real): seq<Item> {
    var chosen, rest := Spread(candidates, limit, has, apart), Crowded(candidates, limit, has, apart);
    chosen + rest[..Min(|rest|, limit - |chosen|)]
  }

  /** Once the limit is reached, later candidates change nothing. */
  lemma {:induction false} SpreadFull(candidates: seq<Item>, limit: nat, has: string -> bool, apart: (string, string) -> real, i: nat)
    requires i <= |candidates| && |Spread(candidates[..i], limit, has, apart)| == limit
    ensures Spread(candidates, limit, has, apart) == Spread(candidates[..i], limit, has, apart)
    ensures Crowded(candidates, limit, has, apart) == Crowded(candidates[..i], limit, has, apart)
  {
    var n := |candidates| - 1;
    if i <= n {
      assert candidates[..n][..i] == candidates[..i];
      SpreadFull(candidates[..n], limit, has, apart, i);
    } else {
      assert candidates[..i] == candidates;
    }
  }

  /** Nothing usable is passed over while there is room. */
  lemma {:induction false} SpreadCounts(candidates: seq<Item>, limit: nat, has: string -> bool, apart: (string, string) -> real)
    ensures var chosen, rest := Spread(candidates, limit, has, apart), Crowded(candidates, limit, has, apart);
            && (|chosen| < limit ==> |chosen| + |rest| == Usable(candidates, has))
            && |chosen| + |rest| <= Usable(candidates, has)
  {
    if candidates != [] {
      SpreadCounts(candidates[..|candidates| - 1], limit, has, apart);
    }
  }

  /** As many are selected as are usable, up to the limit. */
  lemma SelectedSize(candidates: seq<Item>, limit: nat, has: string -> bool, apart: (string, string) -> real)
    ensures |Selected(candidates, limit, has, apart)| == Min(limit, Usable(candidates, has))
  {
    SpreadCounts(candidates, limit, has, apart);
  }

  /** Both choices are usable candidates, each only once. */
  lemma {:induction false} SpreadDistinct(candidates: seq<Item>, limit: nat, has: string -> bool, apart: (string, string) -> real)
    ensures forall x | x in Spread(candidates, limit, has, apart) + Crowded(candidates, limit, has, apart) :: x in candidates && has(x.id)
    ensures DistinctIds(candidates) ==> DistinctIds(Spread(candidates, limit, has, apart) + Crowded(candidates, limit, has, apart))
  {
    if candidates != [] {
      var n := |candidates| - 1;
      var front, x := candidates[..n], candidates[n];
      SpreadDistinct(front, limit, has, apart);
      var chosen, rest := Spread(front, limit, has, apart), Crowded(front, limit, has, apart);
      if DistinctIds(candidates) {
        forall y: Item | y in chosen + rest ensures y.id != x.id {
          assert y in front;
          var i :| 0 <= i < n && front[i] == y;
          assert candidates[i].id != candidates[n].id;
        }
        DistinctInsert(chosen, rest, x);
      }
    }
  }

  lemma DistinctInsert(a: seq<Item>, b: seq<Item>, x: Item)
    requires DistinctIds(a + b) && forall y: Item | y in a + b :: y.id != x.id
    ensures DistinctIds(a + [x] + b) && DistinctIds(a + (b + [x]))
  {
    var s := a + b;
    forall i | 0 <= i < |s| ensures s[i].id != x.id {
      assert s[i] in s;
    }
    forall i, j | 0 <= i < j < |s| + 1 ensures (a + [x] + b)[i].id != (a + [x] + b)[j].id {
      var i', j' := if i < |a| then i else i - 1, if j < |a| then j else j - 1;
      assert i != |a| ==> (a + [x] + b)[i] == s[i'];
      assert j != |a| ==> (a + [x] + b)[j] == s[j'];
    }
    assert a + (b + [x]) == s + [x];
  }

  lemma SelectedMembers(candidates: seq<Item>, limit: nat, has: string -> bool, apart: (string, string) -> real)
    ensures forall x | x in Selected(candidates, limit, has, apart) :: x in candidates && has(x.id)
    ensures DistinctIds(candidates) ==> DistinctIds(Selected(candidates, limit, has, apart))
  {
    SpreadDistinct(candidates, limit, has, apart);
    var chosen, rest := Spread(candidates, limit, has, apart), Crowded(candidates, limit, has, apart);
    var all, some := chosen + rest, Selected(candidates, limit, has, apart);
    assert some == all[..|some|];
    forall x | x in some ensures x in all {
      var i :| 0 <= i < |some| && some[i] == x;
      assert all[i] == x;
    }
  }

  /**
   * The first choice is spread out: none is nearer to an earlier one than to the query.  And it
   * leaves out a usable candidate only for being crowded, or at the limit.
   */
  lemma {:induction false} SpreadMeans(candidates: seq<Item>, limit: nat, has: string -> bool, apart: (string, string) -> real)
    ensures var s := Spread(candidates, limit, has, apart);
            && (forall i, j | 0 <= i < j < |s| :: apart(s[j].id, s[i].id) >= s[j].dist)
            && (forall x | x in candidates && has(x.id) :: x in s || |s| == limit || Crowds(s, x, apart))
  {
    if candidates != [] {
      var n := |candidates| - 1;
      var front, x := candidates[..n], candidates[n];
      assert candidates == front + [x];
      SpreadMeans(front, limit, has, apart);
      var chosen, s := Spread(front, limit, has, apart), Spread(candidates, limit, has, apart);
      forall y: Item | y in candidates && has(y.id) ensures y in s || |s| == limit || Crowds(s, y, apart) {
        if y in front && Crowds(chosen, y, apart) {
          var i :| 0 <= i < |chosen| && apart(y.id, chosen[i].id) < y.dist;
          assert s[i] == chosen[i];
        }
      }
    }
  }

  /**
   * What is selected: first nodes none of which is nearer to an earlier one than to the query, where
   * a usable candidate is passed over only for being nearer to a chosen node, or at the limit; then
   * some that were passed over, as long as there is room and any is left.
   */
  lemma SelectedMeans(candidates: seq<Item>, limit: nat, has: string -> bool, apart: (string, string) -> real) returns (n: nat)
    ensures var s := Selected(candidates, limit, has, apart);
            && n <= |s| <= limit
            && (forall i, j | 0 <= i < j < n :: apart(s[j].id, s[i].id) >= s[j].dist)
            && (forall x | x in candidates && has(x.id) ::
                  x in s[..n] || n == limit || exists i :: 0 <= i < n && apart(x.id, s[i].id) < x.dist)
            && (forall x | x in s :: x in candidates && has(x.id))
            && |s| == Min(limit, Usable(candidates, has))
  {
    var chosen, s := Spread(candidates, limit, has, apart), Selected(candidates, limit, has, apart);
    n := |chosen|;
    assert s[..n] == chosen;
    SpreadMeans(candidates, limit, has, apart);
    SelectedSize(candidates, limit, has, apart);
    SelectedMembers(candidates, limit, has, apart);
    hide Spread, Selected, Usable;
    forall x | x in candidates && has(x.id)
      ensures x in s[..n] || n == limit || exists i :: 0 <= i < n && apart(x.id, s[i].id) < x.dist
    {
      if Crowds(chosen, x, apart) {
        var i :| 0 <= i < |chosen| && apart(x.id, chosen[i].id) < x.dist;
        assert s[i] == chosen[i];
      }
    }
    forall i, j | 0 <= i < j < n ensures apart(s[j].id, s[i].id) >= s[j].dist {
      assert s[i] == chosen[i] && s[j] == chosen[j];
    }
  }

  lemma SpreadStep(candidates: seq<Item>, limit: nat, has: string -> bool, apart: (string, string) -> real, i: nat)
    requires i < |candidates|
    ensures var chosen, rest, x := Spread(candidates[..i], limit, has, apart), Crowded(candidates[..i], limit, has, apart), candidates[i];
            && Spread(candidates[..i + 1], limit, has, apart) == (if |chosen| < limit && has(x.id) && !Crowds(chosen, x, apart) then chosen + [x] else chosen)
            && Crowded(candidates[..i + 1], limit, has, apart) == (if |chosen| < limit && has(x.id) && Crowds(chosen, x, apart) then rest + [x] else rest)
            && (forall y | y in chosen :: has(y.id))
  {
    assert candidates[..i + 1][..i] == candidates[..i];
    SpreadDistinct(candidates[..i], limit, has, apart);
    assert forall y | y in Spread(candidates[..i], limit, has, apart) :: y in Spread(candidates[..i], limit, has, apart) + Crowded(candidates[..i], limit, has, apart);
  }

  method Good(candidate: Item, chosen: seq<Item>, has: string -> bool, apart: (string, string) -> real) returns (good: bool)
    requires forall y | y in chosen :: has(y.id)
    ensures good == !Crowds(chosen, candidate, apart)
  {
    for k := 0 to |chosen|
      invariant forall j | 0 <= j < k :: apart(candidate.id, chosen[j].id) >= candidate.dist
    {
      assert chosen[k] in chosen;
      if has(chosen[k].id) && apart(candidate.id, chosen[k].id) < candidate.dist {
        return false;
      }
    }
    good := true;
  }

  /** Prefer candidates that no chosen one is nearer to, then fill up with the others. */
  method SelectNeighbors(candidates: seq<Item>, limit: nat, has: string -> bool, apart: (string, string) -> real) returns (selected: seq<Item>)
    ensures selected == Selected(candidates, limit, has, apart)
  {
    selected := [];
    var discarded: seq<Item> := [];
    var i := 0;
    assert Spread([], limit, has, apart) == [] && Crowded([], limit, has, apart) == [];
    hide Spread, Crowded, Crowds;
    while i < |candidates| && |selected| < limit
      invariant 0 <= i <= |candidates| && |selected| <= limit
      invariant selected == Spread(candidates[..i], limit, has, apart)
      invariant discarded == Crowded(candidates[..i], limit, has, apart)
    {
      SpreadStep(candidates, limit, has, apart, i);
      var candidate := candidates[i];
      i := i + 1;
      if !has(candidate.id) {
        continue;
      }
      var good := Good(candidate, selected, has, apart);
      if good {
        selected := selected + [candidate];
      } else {
        discarded := discarded + [candidate];
      }
    }
    assert candidates[..|candidates|] == candidates;
    if i < |candidates| {
      SpreadFull(candidates, limit, has, apart, i);
    }
    selected := FillUp(selected, discarded, limit);
  }

  method FillUp(chosen: seq<Item>, discarded: seq<Item>, limit: nat) returns (selected: seq<Item>)
    requires |chosen| <= limit
    ensures selected == chosen + discarded[..Min(|discarded|, limit - |chosen|)]
  {
    selected := chosen;
    var k := 0;
    while k < |discarded| && |selected| < limit
      invariant 0 <= k <= |discarded| && |selected| <= limit
      invariant selected == chosen + discarded[..k]
    {
      selected := selected + [discarded[k]];
      k := k + 1;
    }
  }

  // The index.

  function Limit(m: nat, layer: nat): nat {
    if layer == 0 then 2 * m else m
  }

  predicate NodeOk(m: nat, node: Node) {
    |node| >= 1 && forall layer {:trigger node[layer]} | 0 <= layer < |node| :: |node[layer]| <= Limit(m, layer)
  }

  predicate DegreesOk(m: nat, nodes: Graph) {
    forall id | id in nodes :: NodeOk(m, nodes[id])
  }

  predicate LevelsAtMost(nodes: Graph, top: int) {
    forall id | id in nodes :: |nodes[id]| - 1 <= top
  }

  /** The entry point is a node of the highest layer. */
  predicate EntryOk(nodes: Graph, entryPoint: Option<string>, maxLayer: int) {
    if nodes == map[] then entryPoint == None && maxLayer == -1
    else
      && entryPoint.Some? && entryPoint.value in nodes
      && maxLayer == |nodes[entryPoint.value]| - 1
      && LevelsAtMost(nodes, maxLayer)
  }

  function Without(ids: seq<string>, id: string): (rest: seq<string>)
    ensures |rest| <= |ids| && id !in rest
    ensures forall other | other != id :: other in rest <==> other in ids
  {
    if ids == [] then []
    else
      var front, last := Without(ids[..|ids| - 1], id), ids[|ids| - 1];
      assert ids == ids[..|ids| - 1] + [last];
      if last == id then front else front + [last]
  }

  /** A node with a list at `layer`, growing empty layers below it if it lacks them. */
  function Grown(node: Node, layer: nat): (r: Node)
    ensures |r| == (if layer < |node| then |node| else layer + 1)
    ensures forall i | 0 <= i < |r| :: r[i] == if i < |node| then node[i] else []
    decreases layer
  {
    if layer < |node| then node
    else if layer == 0 then [[]]
    else Grown(node, layer - 1) + [[]]
  }

  function Empties(n: nat): (r: Node)
    ensures |r| == n && forall i | 0 <= i < n :: r[i] == []
  {
    if n == 0 then [] else Empties(n - 1) + [[]]
  }

  class HNSWIndex {
    const M: nat
    const ef: nat
    var nodes: Graph
    var entryPoint: Option<string>
    var maxLayer: int

    ghost predicate Valid()
      reads this
    {
      M >= 1 && ef >= 1 && DegreesOk(M, nodes) && EntryOk(nodes, entryPoint, maxLayer)
    }

    constructor (M: nat, ef: nat)
      requires M >= 1 && ef >= 1
      ensures Valid() && nodes == map[] && this.M == M && this.ef == ef
    {
      this.M, this.ef := M, ef;
      nodes, entryPoint, maxLayer := map[], None, -1;
    }

    /** A node of the highest layer becomes the entry point. */
    method ResetEntryPoint()
      requires DegreesOk(M, nodes)
      modifies `entryPoint, `maxLayer
      ensures EntryOk(nodes, entryPoint, maxLayer)
    {
      var bestId: Option<string>, bestLayer: int := None, -1;
      var left := nodes.Keys;
      while left != {}
        invariant left <= nodes.Keys
        invariant bestId.None? ==> bestLayer == -1 && left == nodes.Keys
        invariant bestId.Some? ==> bestId.value in nodes && bestLayer == |nodes[bestId.value]| - 1
        invariant forall id | id in nodes && id !in left :: |nodes[id]| - 1 <= bestLayer
        decreases left
      {
        var id :| id in left;
        left := left - {id};
        assert NodeOk(M, nodes[id]);
        if |nodes[id]| - 1 > bestLayer {
          bestId, bestLayer := Some(id), |nodes[id]| - 1;
        }
      }
      entryPoint, maxLayer := bestId, bestLayer;
      assert bestId.None? ==> nodes == map[];
    }

    /** Take a node out; the entry point is again at the highest layer, and stays if it can. */
    method UnlinkExisting(id: string)
      requires Valid() && id in nodes
      modifies this
      ensures Valid() && Unlinked(old(nodes), nodes, id)
      ensures old(entryPoint) != Some(id) ==> entryPoint == old(entryPoint)
    {
      var before := nodes;
      var rest := UnlinkAll(nodes, id);
      nodes := rest - {id};
      UnlinkedOk(M, before, nodes, id, maxLayer);
      if entryPoint == Some(id) {
        ResetEntryPoint();
      }
    }

    /**
     * Insert a node with a given level.  On each layer it shares with the rest of the graph it is
     * linked to chosen nodes that have a vector, to some if the entry point has one, and each chosen
     * node links back unless its list was full; no other list gains anything but the new node.
     * Degrees stay within their limits, the entry point stays at the highest layer, and no other
     * node comes or goes.
     *
     * Which nodes are chosen: `found` holds, layer by layer, what a search there finds that begins at
     * what the layer above found, and at the top at the end of a greedy descent.  All lists follow.
     */
    method Insert(key: string, level: nat, near: Near, has: string -> bool, apart: (string, string) -> real)
      returns (ghost rest: Graph, ghost start: Option<string>, ghost top: int, ghost entry: seq<Item>, ghost found: map<int, seq<Item>>)
      requires Valid() && forall id :: has(id) == near(id).Some?
      modifies this
      ensures Valid() && nodes.Keys == old(nodes).Keys + {key} && |nodes[key]| == level + 1
      ensures EntryOk(rest, start, top) && (old(entryPoint) != Some(key) ==> start == old(entryPoint))
      ensures if key in old(nodes) then Unlinked(old(nodes), rest, key) else rest == old(nodes)
      ensures if start.None? then nodes == map[key := Empties(level + 1)]
              else
                && LayersLinked(M, rest, nodes, key, 0, Lower(level, top), has, near(start.value).Some?)
                && EntersAt(rest, near, start.value, top, level, entry)
                && LayersSearched(rest, near, ef, 0, Lower(level, top), entry, found)
                && LayersExact(M, rest, nodes, key, 0, Lower(level, top), found, has, apart)
    {
      hide DegreesOk, EntryOk, LevelsKept, LevelsAtMost, LayersLinked, LayersSearched, LayersExact, LocallyNearest, EntersAt, UnlinkedBelow;
      entry, found := [], map[];
      if key in nodes {
        UnlinkExisting(key);
      }
      var before := nodes;
      rest, start, top := before, entryPoint, maxLayer;
      EntryTop(M, before, entryPoint, maxLayer);
      if entryPoint.None? {
        FirstNode(M, key, level);
        nodes, entryPoint, maxLayer := map[key := Empties(level + 1)], Some(key), level;
        return;
      }
      var ep, highest := entryPoint.value, maxLayer;
      var d := near(ep);
      var first: seq<Item> := if d.Some? then [Item(ep, d.value)] else [];
      FreshNode(M, before, key, level, highest);
      nodes := before[key := Empties(level + 1)];
      var best := Descend(first, near, highest, level);
      entry := best;
      EntersFresh(before, near, key, level, highest, ep, best);
      var linked;
      linked, found := LinkLayers(M, ef, nodes, before, key, level, highest, best, near, has, apart);
      EntryAfter(M, before, linked, key, level, ep, highest, has, d.Some?);
      nodes := linked;
      if level > highest {
        maxLayer, entryPoint := level, Some(key);
      }
    }

    /**
     * Greedy descent through the layers above `level`: never farther from the query, and in the end at
     * a node with no nearer neighbour on the layer above.
     */
    method Descend(entry: seq<Item>, near: Near, from: int, level: nat) returns (best: seq<Item>)
      requires |entry| <= 1 && AllMeasured(near, entry)
      ensures |best| == |entry| && AllMeasured(near, best) && (entry != [] ==> best[0].dist <= entry[0].dist)
      ensures if from > level then best != [] ==> LocallyNearest(nodes, near, level + 1, best[0]) else best == entry
    {
      best := entry;
      var layer := from;
      while layer > level
        invariant |best| == |entry| && AllMeasured(near, best) && (entry != [] ==> best[0].dist <= entry[0].dist)
        invariant layer >= level || layer == from
        invariant if layer < from then best != [] ==> LocallyNearest(nodes, near, layer + 1, best[0]) else best == entry
        decreases layer
      {
        var found, seen := SearchLayer(nodes, near, best, 1, layer);
        if found != [] {
          NotFarther(found, seen, best[0]);
          NoneNearer(nodes, near, layer, found, seen);
          best := found[..1];
        }
        layer := layer - 1;
      }
    }

    /**
     * The `k` nearest of what the search of the lowest layer found, which keeps as many as the larger
     * of `ef` and `k`, and begins where a greedy descent ends; they are the `k` nearest of all seen.
     */
    method Search(near: Near, k: nat, ef: nat) returns (out: seq<Item>, ghost entry: seq<Item>, ghost found: seq<Item>, ghost seen: set<Item>)
      requires Valid() && ef >= 1
      ensures if entryPoint.None? then entry == [] else EntersAt(nodes, near, entryPoint.value, maxLayer, 0, entry)
      ensures SearchedFrom(nodes, near, if ef >= k then ef else k, 0, entry, found, seen)
      ensures out == (if k < |found| then found[..k] else found) && Nearest(multiset(out), seen, k)
    {
      hide SearchedFrom, LocallyNearest, Nearest, DegreesOk;
      if entryPoint.None? || near(entryPoint.value).None? {
        FoundNothing(nodes, near, if ef >= k then ef else k);
        FoundNothing(nodes, near, k);
        return [], [], [], {};
      }
      var best := Descend([Item(entryPoint.value, near(entryPoint.value).value)], near, maxLayer, 0);
      var nearest;
      nearest, seen := SearchLayer(nodes, near, best, Max(ef, k), 0);
      entry, found := best, nearest;
      out := if k < |nearest| then nearest[..k] else nearest;
      FirstNearest(nodes, near, entry, found, seen, Max(ef, k), k);
    }

    method Remove(id: string)
      requires Valid()
      modifies this
      ensures Valid() && if id in old(nodes) then Unlinked(old(nodes), nodes, id) else nodes == old(nodes)
      ensures old(entryPoint) != Some(id) ==> entryPoint == old(entryPoint)
    {
      if id in nodes {
        UnlinkExisting(id);
      }
    }
  }

  /** Other nodes may grow layers, but none above `top`; the entry's node keeps its height. */
  ghost predicate LevelsKept(before: Graph, now: Graph, key: string, top: int) {
    forall id {:trigger id in now} | id in now && id != key :: id in before && |before[id]| <= |now[id]| && |now[id]| - 1 <= top
  }

  lemma EntryTop(m: nat, nodes: Graph, entryPoint: Option<string>, maxLayer: int)
    requires DegreesOk(m, nodes) && EntryOk(nodes, entryPoint, maxLayer)
    ensures entryPoint.None? ==> nodes == map[]
    ensures entryPoint.Some? ==> maxLayer >= 0 && LevelsAtMost(nodes, maxLayer)
  {
    if entryPoint.Some? && nodes != map[] {
      assert NodeOk(m, nodes[entryPoint.value]);
    }
  }

  lemma FirstNode(m: nat, key: string, level: nat)
    ensures var now: Graph := map[key := Empties(level + 1)];
            DegreesOk(m, now) && EntryOk(now, Some(key), level)
  {
    assert key in map[key := Empties(level + 1)];
  }

  lemma FreshNode(m: nat, before: Graph, key: string, level: nat, top: int)
    requires DegreesOk(m, before) && LevelsAtMost(before, top) && key !in before
    ensures var now := before[key := Empties(level + 1)]; DegreesOk(m, now) && LevelsKept(before, now, key, top)
  {
    var now := before[key := Empties(level + 1)];
    forall id | id in now ensures NodeOk(m, now[id]) {
      assert id != key ==> NodeOk(m, before[id]);
    }
  }

  lemma EntryAfter(m: nat, before: Graph, now: Graph, key: string, level: nat, entry: string, top: int, has: string -> bool, some: bool)
    requires LayersLinked(m, before, now, key, 0, Lower(level, top), has, some) && |now[key]| == level + 1
    requires EntryOk(before, Some(entry), top) && LevelsKept(before, now, key, top)
    ensures now.Keys == before.Keys + {key}
    ensures if level > top then EntryOk(now, Some(key), level) else EntryOk(now, Some(entry), top)
  {
    assert entry in now;
    forall id | id in now && id != key ensures |now[id]| - 1 <= top {}
  }

  /** No neighbour of the item on the layer is nearer to the query. */
  predicate LocallyNearest(nodes: Graph, near: Near, layer: nat, x: Item) {
    forall id | id in Links(nodes, x.id, layer) && near(id).Some? :: x.dist <= near(id).value
  }

  lemma NoneNearer(nodes: Graph, near: Near, layer: nat, found: seq<Item>, seen: set<Item>)
    requires Nearest(multiset(found), seen, 1) && Closed(nodes, near, layer, found, seen) && found != []
    ensures LocallyNearest(nodes, near, layer, found[0])
  {
    forall id | id in Links(nodes, found[0].id, layer) && near(id).Some? ensures found[0].dist <= near(id).value {
      assert Item(id, near(id).value) in seen;
      NotFarther(found, seen, Item(id, near(id).value));
    }
  }

  lemma NotFarther(found: seq<Item>, seen: set<Item>, x: Item)
    requires Nearest(multiset(found), seen, 1) && x in seen && found != []
    ensures |found| == 1 && found[0].dist <= x.dist
  {
    assert |multiset(found)| == |found|;
    assert multiset(found)[found[0]] > 0;
    if x in multiset(found) {
      assert x in found;
    }
  }

  lemma FoundNothing(nodes: Graph, near: Near, ef: nat)
    ensures SearchedFrom(nodes, near, ef, 0, [], [], {}) && Nearest(multiset([]), {}, ef)
  {
    var none: seq<Item> := [];
    assert |multiset(none)| == 0;
  }

  /** The first `k` of the nearest, in ascending order, are the `k` nearest. */
  lemma FirstNearest(nodes: Graph, near: Near, entry: seq<Item>, found: seq<Item>, seen: set<Item>, ef: nat, k: nat)
    requires SearchedFrom(nodes, near, ef, 0, entry, found, seen) && k <= ef
    ensures Nearest(multiset(if k < |found| then found[..k] else found), seen, k)
  {
    hide Closed;
    var out := if k < |found| then found[..k] else found;
    assert |multiset(found)| == |found| && |multiset(out)| == |out|;
    forall i | 0 <= i < |out| ensures out[i] == found[i] && Measured(near, out[i]) {
      assert Measured(near, found[i]);
    }
    forall x | x in multiset(out) ensures x in seen && multiset(out)[x] == 1 {
      OnceOnly(out, x);
      assert x in out;
      var i :| 0 <= i < |out| && out[i] == x;
      assert found[i] == x && multiset(found)[x] > 0;
    }
    forall x, r | x in seen && x !in multiset(out) && r in multiset(out) ensures r.dist <= x.dist {
      var i :| 0 <= i < |out| && out[i] == r;
      assert found[i] == r && multiset(found)[r] > 0;
      if x in multiset(found) {
        var j :| 0 <= j < |found| && found[j] == x;
        assert x !in out;
        assert i < j;
      }
    }
  }

  /** The layers from `from` up are linked: their lists, the links back, and nothing else. */
  ghost predicate LayersLinked(m: nat, before: Graph, now: Graph, key: string, from: int, top: int, has: string -> bool, some: bool) {
    && key !in before && now.Keys == before.Keys + {key}
    && (forall id, l: nat {:trigger ListAt(now[id], l)} | id in before && id in now ::
          && (l < from || l > top ==> ListAt(now[id], l) == ListAt(before[id], l))
          && (forall x | x in ListAt(now[id], l) :: x in ListAt(before[id], l) || x == key))
    && (forall l: nat {:trigger ListAt(now[key], l)} ::
          && (l < from || l > top ==> ListAt(now[key], l) == [])
          && (from <= l <= top && some ==> ListAt(now[key], l) != [])
          && (forall x | x in ListAt(now[key], l) :: x == key || (has(x) && LinksBack(m, before, now, key, l, x))))
  }

  /** The layers the new node shares with the graph, from the top down. */
  method LinkLayers(m: nat, ef: nat, nodes: Graph, ghost before: Graph, key: string, level: nat, maxLayer: int, start: seq<Item>, near: Near,
                    has: string -> bool, apart: (string, string) -> real)
    returns (result: Graph, ghost found: map<int, seq<Item>>)
    requires m >= 1 && ef >= 1 && maxLayer >= 0 && key !in before && forall id :: has(id) == near(id).Some?
    requires DegreesOk(m, nodes) && nodes == before[key := Empties(level + 1)] && LevelsKept(before, nodes, key, maxLayer)
    requires |start| <= 1 && AllMeasured(near, start)
    ensures DegreesOk(m, result) && key in result && |result[key]| == level + 1 && LevelsKept(before, result, key, maxLayer)
    ensures LayersLinked(m, before, result, key, 0, Lower(level, maxLayer), has, start != [])
    ensures LayersSearched(before, near, ef, 0, Lower(level, maxLayer), start, found)
    ensures LayersExact(m, before, result, key, 0, Lower(level, maxLayer), found, has, apart)
  {
    hide DegreesOk, LevelsKept, LayersLinked, LinkedUpTo, LinkedExactly, Selected, Usable, LayersExact, LayerFound, SearchedFrom, AllMeasured;
    result, found := nodes, map[];
    NoLayersExact(m, before, key, level, Lower(level, maxLayer), has, apart);
    var entry := start;
    var layer: int := if level < maxLayer then level else maxLayer;
    NoLayersLinked(m, before, key, level, layer, has, start != []);
    while layer >= 0
      invariant -1 <= layer <= Lower(level, maxLayer)
      invariant DegreesOk(m, result) && key in result && |result[key]| == level + 1 && LevelsKept(before, result, key, maxLayer)
      invariant LayersLinked(m, before, result, key, layer + 1, Lower(level, maxLayer), has, start != [])
      invariant |entry| <= ef && AllMeasured(near, entry) && DistinctIds(entry) && (start != [] ==> entry != [])
      invariant LayersSearched(before, near, ef, layer + 1, Lower(level, maxLayer), start, found)
      invariant LayersExact(m, before, result, key, layer + 1, Lower(level, maxLayer), found, has, apart)
      invariant entry == EntryAt(start, found, Lower(level, maxLayer), layer)
      decreases layer
    {
      var candidates, seen := SearchLayer(result, near, entry, ef, layer);
      FoundUsable(result, near, ef, layer, entry, candidates, seen);
      LayerSearchedNext(m, before, result, near, ef, key, layer, Lower(level, maxLayer), start, entry, found, candidates, seen, has, apart);
      var neighbors := SelectNeighbors(candidates, Limit(m, layer), has, apart);
      SelectedSome(candidates, Limit(m, layer), near, has, apart);
      ghost var last := result;
      result := LinkNode(m, result, key, layer, neighbors, has, apart);
      LayerNext(m, before, last, result, key, layer, Lower(level, maxLayer), maxLayer, neighbors, has, start != []);
      LayerExactNext(m, before, last, result, key, layer, Lower(level, maxLayer), found, candidates, has, apart);
      found := found[layer := candidates];
      entry := candidates;
      layer := layer - 1;
    }
  }

  /** Where the search of the highest shared layer begins. */
  ghost predicate EntersAt(nodes: Graph, near: Near, start: string, top: int, level: nat, entry: seq<Item>) {
    if near(start).None? then entry == []
    else
      && |entry| == 1 && Measured(near, entry[0]) && entry[0].dist <= near(start).value
      && if top > level then LocallyNearest(nodes, near, level + 1, entry[0]) else entry[0].id == start
  }

  lemma EntersFresh(before: Graph, near: Near, key: string, level: nat, top: int, start: string, best: seq<Item>)
    requires key !in before && AllMeasured(near, best) && |best| == (if near(start).Some? then 1 else 0)
    requires best != [] ==> best[0].dist <= near(start).value
    requires var now := before[key := Empties(level + 1)];
             if top > level then best != [] ==> LocallyNearest(now, near, level + 1, best[0])
             else best != [] ==> best[0].id == start
    ensures EntersAt(before, near, start, top, level, best)
  {
    if best != [] && top > level {
      var now := before[key := Empties(level + 1)];
      assert Links(now, best[0].id, level + 1) == Links(before, best[0].id, level + 1);
    }
  }

  ghost predicate LayerFound(nodes: Graph, near: Near, ef: nat, layer: nat, entry: seq<Item>, found: seq<Item>) {
    exists seen :: SearchedFrom(nodes, near, ef, layer, entry, found, seen)
  }

  /** The searches of the layers from `from` to `top`, each beginning at what the layer above found. */
  ghost predicate LayersSearched(nodes: Graph, near: Near, ef: nat, from: int, top: int, start: seq<Item>, found: map<int, seq<Item>>) {
    && (forall l {:trigger l in found} :: l in found <==> from <= l <= top)
    && forall l: nat {:trigger EntryAt(start, found, top, l)} | from <= l <= top ::
         LayerFound(nodes, near, ef, l, EntryAt(start, found, top, l), found[l])
  }

  /** Where the search of a layer begins. */
  function EntryAt(start: seq<Item>, found: map<int, seq<Item>>, top: int, l: int): seq<Item>
    requires l < top ==> l + 1 in found
  {
    if l >= top then start else found[l + 1]
  }

  /** A layer's lists once the new node has chosen from what was found there and is linked to it. */
  function ListsAfter(m: nat, before: Graph, id: string, key: string, layer: nat, found: seq<Item>, has: string -> bool, apart: (string, string) -> real): seq<string> {
    var chosen := Selected(found, if layer == 0 then 2 * m else m, has, apart);
    var listed := if id == key then Ids(chosen) else if id in before then ListAt(before[id], layer) else [];
    if id in Ids(chosen) then Pruned(m, id, listed + [key], layer, has, apart) else listed
  }

  /** Every list of every node: linked on the layers from `from` to `top`, as before on the others. */
  ghost predicate LayersExact(m: nat, before: Graph, now: Graph, key: string, from: int, top: int, found: map<int, seq<Item>>,
                              has: string -> bool, apart: (string, string) -> real)
    requires forall l | from <= l <= top :: l in found
  {
    && now.Keys == before.Keys + {key}
    && forall id, l: nat {:trigger ListAt(now[id], l)} | id in now ::
         ListAt(now[id], l) ==
         if from <= l <= top then ListsAfter(m, before, id, key, l, found[l], has, apart)
         else if id in before then ListAt(before[id], l) else []
  }

  lemma NoLayersExact(m: nat, before: Graph, key: string, level: nat, top: int, has: string -> bool, apart: (string, string) -> real)
    requires key !in before
    ensures LayersExact(m, before, before[key := Empties(level + 1)], key, top + 1, top, map[], has, apart)
  {
    hide ListsAfter;
    var none := Empties(level + 1);
    assert forall l: nat :: ListAt(none, l) == [];
  }

  lemma FoundUsable(nodes: Graph, near: Near, ef: nat, layer: nat, entry: seq<Item>, out: seq<Item>, seen: set<Item>)
    requires SearchedFrom(nodes, near, ef, layer, entry, out, seen)
    ensures |out| <= ef && AllMeasured(near, out) && DistinctIds(out) && (entry != [] ==> out != [])
  {
  }

  /** The search of one more layer: what is linked above does not show on it. */
  lemma LayerSearchedNext(m: nat, before: Graph, last: Graph, near: Near, ef: nat, key: string, layer: nat, top: int, start: seq<Item>, entry: seq<Item>,
                          found: map<int, seq<Item>>, more: seq<Item>, seen: set<Item>, has: string -> bool, apart: (string, string) -> real)
    requires LayersSearched(before, near, ef, layer + 1, top, start, found) && layer <= top && key !in before
    requires LayersExact(m, before, last, key, layer + 1, top, found, has, apart)
    requires entry == EntryAt(start, found, top, layer)
    requires SearchedFrom(last, near, ef, layer, entry, more, seen)
    ensures LayersSearched(before, near, ef, layer, top, start, found[layer := more])
  {
    hide SearchedFrom, LayersExact;
    SearchedBefore(m, before, last, near, ef, key, layer, top, found, entry, more, seen, has, apart);
    assert LayerFound(before, near, ef, layer, entry, more);
    LayersSearchedMore(before, near, ef, layer, top, start, found, more);
  }

  lemma SearchedBefore(m: nat, before: Graph, last: Graph, near: Near, ef: nat, key: string, layer: nat, top: int,
                       found: map<int, seq<Item>>, entry: seq<Item>, more: seq<Item>, seen: set<Item>, has: string -> bool, apart: (string, string) -> real)
    requires key !in before && layer <= top && (forall l | layer < l <= top :: l in found)
    requires LayersExact(m, before, last, key, layer + 1, top, found, has, apart)
    requires SearchedFrom(last, near, ef, layer, entry, more, seen)
    ensures SearchedFrom(before, near, ef, layer, entry, more, seen)
  {
    hide Nearest, Ascending, DistinctIds, AllMeasured, Measured, ListsAfter;
    SameLinksClosed(before, last, near, layer, more, seen, key);
    hide Closed, LayersExact;
  }

  lemma LayersSearchedMore(nodes: Graph, near: Near, ef: nat, layer: nat, top: int, start: seq<Item>, found: map<int, seq<Item>>, more: seq<Item>)
    requires LayersSearched(nodes, near, ef, layer + 1, top, start, found) && layer <= top
    requires LayerFound(nodes, near, ef, layer, EntryAt(start, found, top, layer), more)
    ensures LayersSearched(nodes, near, ef, layer, top, start, found[layer := more])
  {
    hide LayerFound;
    var now := found[layer := more];
    forall l: nat | layer <= l <= top
      ensures LayerFound(nodes, near, ef, l, EntryAt(start, now, top, l), now[l])
    {
      if l > layer {
        assert EntryAt(start, now, top, l) == EntryAt(start, found, top, l);
      }
    }
  }

  lemma SameLinksClosed(before: Graph, last: Graph, near: Near, layer: nat, out: seq<Item>, seen: set<Item>, key: string)
    requires Closed(last, near, layer, out, seen) && last.Keys == before.Keys + {key}
    requires forall id | id in before :: ListAt(last[id], layer) == ListAt(before[id], layer)
    ensures Closed(before, near, layer, out, seen)
  {
    forall i, id | 0 <= i < |out| && id in Links(before, out[i].id, layer) && near(id).Some? ensures Item(id, near(id).value) in seen {
      var x := out[i].id;
      assert ListAt(last[x], layer) == ListAt(before[x], layer);
      assert id in Links(last, x, layer);
    }
  }

  lemma LayerExactNext(m: nat, before: Graph, last: Graph, now: Graph, key: string, layer: nat, top: int, found: map<int, seq<Item>>, more: seq<Item>,
                       has: string -> bool, apart: (string, string) -> real)
    requires key !in before && layer <= top && (forall l | layer < l <= top :: l in found)
    requires LayersExact(m, before, last, key, layer + 1, top, found, has, apart)
    requires var chosen := Selected(more, if layer == 0 then 2 * m else m, has, apart);
             LinkedExactly(m, last, now, key, layer, chosen, |chosen|, has, apart)
    ensures LayersExact(m, before, now, key, layer, top, found[layer := more], has, apart)
  {
    var chosen := Selected(more, if layer == 0 then 2 * m else m, has, apart);
    hide Pruned, Selected;
    forall id, l: nat | id in now
      ensures ListAt(now[id], l) ==
              if layer <= l <= top then ListsAfter(m, before, id, key, l, found[layer := more][l], has, apart)
              else if id in before then ListAt(before[id], l) else []
    {
      assert ListAt(last[id], l) == ListAt(last[id], l);
      if l == layer {
        ChosenIds(chosen, id);
      }
    }
  }

  lemma ChosenIds(chosen: seq<Item>, id: string)
    ensures id in Ids(chosen) <==> ChosenBefore(chosen, |chosen|, id)
  {
    if k :| 0 <= k < |chosen| && chosen[k].id == id {
      assert Ids(chosen)[k] == id;
    }
  }

  function Lower(level: nat, maxLayer: int): int {
    if level < maxLayer then level else maxLayer
  }

  lemma NoLayersLinked(m: nat, before: Graph, key: string, level: nat, top: int, has: string -> bool, some: bool)
    requires key !in before
    ensures LayersLinked(m, before, before[key := Empties(level + 1)], key, top + 1, top, has, some)
  {
    var none := Empties(level + 1);
    assert forall l: nat :: ListAt(none, l) == [];
  }

  lemma SelectedSome(candidates: seq<Item>, limit: nat, near: Near, has: string -> bool, apart: (string, string) -> real)
    requires limit >= 1 && AllMeasured(near, candidates) && DistinctIds(candidates) && forall id :: has(id) == near(id).Some?
    ensures var s := Selected(candidates, limit, has, apart);
            |s| <= limit && DistinctIds(s) && (forall x | x in s :: has(x.id)) && (candidates != [] ==> s != [])
  {
    SelectedSize(candidates, limit, has, apart);
    SelectedMembers(candidates, limit, has, apart);
    if candidates != [] {
      assert Measured(near, candidates[0]);
      UsableSome(candidates, has, candidates[0]);
    }
  }

  /** Linking one more layer keeps what the layers above have. */
  lemma LayerNext(m: nat, before: Graph, last: Graph, now: Graph, key: string, layer: nat, top: int, maxLayer: int, neighbors: seq<Item>, has: string -> bool, some: bool)
    requires layer <= top <= maxLayer && LayersLinked(m, before, last, key, layer + 1, top, has, some)
    requires LevelsKept(before, last, key, maxLayer)
    requires LinkedUpTo(m, last, now, key, layer, neighbors, |neighbors|)
    requires (forall x | x in neighbors :: has(x.id)) && (some ==> neighbors != [])
    ensures LayersLinked(m, before, now, key, layer, top, has, some)
    ensures LevelsKept(before, now, key, maxLayer) && |now[key]| == |last[key]|
  {
    forall x | x in Ids(neighbors) ensures has(x) && LinksBack(m, last, now, key, layer, x) {
      var i :| 0 <= i < |neighbors| && Ids(neighbors)[i] == x;
      assert neighbors[i] in neighbors && neighbors[i].id == x;
    }
    forall id | id in now && id != key ensures id in before && |before[id]| <= |now[id]| && |now[id]| - 1 <= maxLayer {
      assert id in last;
    }
    forall id, l: nat | id in before && id in now
      ensures l < layer || l > top ==> ListAt(now[id], l) == ListAt(before[id], l)
      ensures forall x | x in ListAt(now[id], l) :: x in ListAt(before[id], l) || x == key
    {
      assert id in last;
      assert forall x | x in ListAt(last[id], l) :: x in ListAt(before[id], l) || x == key;
    }
    forall l: nat
      ensures l < layer || l > top ==> ListAt(now[key], l) == []
      ensures layer <= l <= top && some ==> ListAt(now[key], l) != []
      ensures forall x | x in ListAt(now[key], l) :: x == key || (has(x) && LinksBack(m, before, now, key, l, x))
    {
      forall x | x in ListAt(now[key], l) && x != key ensures has(x) && LinksBack(m, before, now, key, l, x) {
        if l == layer {
          assert LinksBack(m, last, now, key, layer, x);
          assert x in before && x in last ==> ListAt(last[x], l) == ListAt(before[x], l);
        } else {
          assert x in ListAt(last[key], l) && LinksBack(m, before, last, key, l, x);
          assert x in before && x in now ==> ListAt(now[x], l) == ListAt(last[x], l);
        }
      }
    }
  }

  function Ids(items: seq<Item>): (ids: seq<string>)
    ensures |ids| == |items| && forall i | 0 <= i < |ids| :: ids[i] == items[i].id
  {
    if items == [] then [] else Ids(items[..|items| - 1]) + [items[|items| - 1].id]
  }

  /** The listed nodes that have a vector, with their distance from `id`. */
  function Measure(id: string, links: seq<string>, has: string -> bool, apart: (string, string) -> real): seq<Item> {
    if links == [] then []
    else
      var front, last := Measure(id, links[..|links| - 1], has, apart), links[|links| - 1];
      if has(last) then front + [Item(last, apart(id, last))] else front
  }

  predicate Closer(a: Item, b: Item) {
    a.dist <= b.dist
  }

  lemma SortMembers(items: seq<Item>)
    ensures forall x :: x in Sort(Closer, items) <==> x in items
  {
    InsertAllSorted(Closer, [], items);
    var sorted := Sort(Closer, items);
    forall x ensures x in sorted <==> x in items {
      assert x in multiset(sorted) <==> x in multiset(items);
    }
  }

  function ListAt(node: Node, layer: nat): seq<string> {
    if layer < |node| then node[layer] else []
  }

  /** A list with one more entry, cut back to a selection of the nearest when it is too long. */
  function Pruned(m: nat, id: string, links: seq<string>, layer: nat, has: string -> bool, apart: (string, string) -> real): seq<string> {
    if |links| <= Limit(m, layer) then links
    else Ids(Selected(Sort(Closer, Measure(id, links, has, apart)), Limit(m, layer), has, apart))
  }

  lemma {:induction false} MeasureMembers(id: string, links: seq<string>, has: string -> bool, apart: (string, string) -> real)
    ensures forall x | x in Measure(id, links, has, apart) :: x.id in links && has(x.id)
    ensures forall other | other in links && has(other) :: Item(other, apart(id, other)) in Measure(id, links, has, apart)
  {
    if links != [] {
      assert links == links[..|links| - 1] + [links[|links| - 1]];
      MeasureMembers(id, links[..|links| - 1], has, apart);
    }
  }

  lemma {:induction false} UsableSome(candidates: seq<Item>, has: string -> bool, x: Item)
    requires x in candidates && has(x.id)
    ensures Usable(candidates, has) >= 1
  {
    var n := |candidates| - 1;
    if candidates[n] != x {
      assert candidates == candidates[..n] + [candidates[n]];
      UsableSome(candidates[..n], has, x);
    }
  }

  /** A list that fits stays; a longer one is cut to a selection from its entries with a vector, nearest first. */
  lemma PrunedIs(m: nat, id: string, links: seq<string>, layer: nat, has: string -> bool, apart: (string, string) -> real) returns (sorted: seq<Item>)
    ensures var pruned, limit := Pruned(m, id, links, layer, has, apart), if layer == 0 then 2 * m else m;
            if |links| <= limit then pruned == links
            else
              && Ascending(sorted) && pruned == Ids(Selected(sorted, limit, has, apart))
              && forall x :: x in sorted <==> x.id in links && has(x.id) && x.dist == apart(id, x.id)
  {
    hide Measure, Selected, Ids;
    var measured := Measure(id, links, has, apart);
    sorted := Sort(Closer, measured);
    MeasureMembers(id, links, has, apart);
    MeasureApart(id, links, has, apart);
    SortAscends(measured);
    hide Sort;
    SortMembers(measured);
  }

  lemma SortAscends(items: seq<Item>)
    ensures Ascending(Sort(Closer, items))
  {
    InsertAllSorted(Closer, [], items);
  }

  lemma {:induction false} MeasureApart(id: string, links: seq<string>, has: string -> bool, apart: (string, string) -> real)
    ensures forall x | x in Measure(id, links, has, apart) :: x.dist == apart(id, x.id)
  {
    if links != [] {
      MeasureApart(id, links[..|links| - 1], has, apart);
    }
  }

  /** Pruning keeps within the limit, adds nothing, and leaves something if some entry has a vector. */
  lemma PrunedMeans(m: nat, id: string, links: seq<string>, layer: nat, has: string -> bool, apart: (string, string) -> real)
    ensures var pruned := Pruned(m, id, links, layer, has, apart);
            && |pruned| <= Limit(m, layer)
            && (forall other | other in pruned :: other in links)
            && (m >= 1 && (exists other :: other in links && has(other)) ==> pruned != [])
  {
    if |links| > Limit(m, layer) {
      var measured := Measure(id, links, has, apart);
      var sorted := Sort(Closer, measured);
      SortMembers(measured);
      MeasureMembers(id, links, has, apart);
      SelectedSize(sorted, Limit(m, layer), has, apart);
      SelectedMembers(sorted, Limit(m, layer), has, apart);
      var selected := Selected(sorted, Limit(m, layer), has, apart);
      forall other | other in Ids(selected) ensures other in links {
        var i :| 0 <= i < |selected| && Ids(selected)[i] == other;
        assert selected[i] in selected && selected[i] in sorted;
      }
      if other :| other in links && has(other) {
        assert Item(other, apart(id, other)) in sorted;
        UsableSome(sorted, has, Item(other, apart(id, other)));
      }
    }
  }

  /** What one link back does to a node: only the list at `layer` changes, only by `key` coming in. */
  ghost predicate NodeLinked(m: nat, node: Node, result: Node, key: string, layer: nat) {
    && |result| == (if layer < |node| then |node| else layer + 1)
    && (forall l: nat {:trigger ListAt(result, l)} | l != layer :: ListAt(result, l) == ListAt(node, l))
    && (forall x | x in ListAt(result, layer) :: x in ListAt(node, layer) || x == key)
    && (key in ListAt(result, layer) || |ListAt(node, layer)| >= Limit(m, layer))
  }

  /** One link back, pruned when the list is too long. */
  method LinkBack(m: nat, node: Node, id: string, key: string, layer: nat, has: string -> bool, apart: (string, string) -> real) returns (result: Node)
    requires NodeOk(m, node) && has(id) && m >= 1
    ensures result == Grown(node, layer)[layer := Pruned(m, id, ListAt(node, layer) + [key], layer, has, apart)]
    ensures NodeOk(m, result) && NodeLinked(m, node, result, key, layer)
    ensures has(key) ==> ListAt(result, layer) != []
  {
    var grown := Grown(node, layer);
    var links := grown[layer] + [key];
    PrunedMeans(m, id, links, layer, has, apart);
    assert key in links;
    if |links| > Limit(m, layer) {
      var pruned := Sort(Closer, Measure(id, links, has, apart));
      var selected := SelectNeighbors(pruned, Limit(m, layer), has, apart);
      links := Ids(selected);
    }
    result := grown[layer := links];
    forall l | 0 <= l < |result| ensures |result[l]| <= Limit(m, l) {
      assert l < |node| ==> |node[l]| <= Limit(m, l);
    }
  }

  /** All other nodes keep their lists, but for `key` coming in on one layer. */
  ghost predicate OthersLinked(before: Graph, now: Graph, key: string, layer: nat) {
    forall id {:trigger id in now} | id in before && id in now && id != key ::
      && |before[id]| <= |now[id]| && (|now[id]| == |before[id]| || |now[id]| == layer + 1)
      && (forall l: nat {:trigger ListAt(now[id], l)} | l != layer :: ListAt(now[id], l) == ListAt(before[id], l))
      && (forall x | x in ListAt(now[id], layer) :: x in ListAt(before[id], layer) || x == key)
  }

  /** The new node's own lists: one layer holds the chosen ones, the others stay. */
  ghost predicate KeyLinked(before: Node, now: Node, key: string, layer: nat, chosen: seq<Item>) {
    && |now| == |before|
    && (forall l: nat {:trigger ListAt(now, l)} | l != layer :: ListAt(now, l) == ListAt(before, l))
    && (forall x | x in ListAt(now, layer) :: x in Ids(chosen) || x == key)
    && (chosen != [] ==> ListAt(now, layer) != [])
  }

  /** A chosen node links back, unless its list was full. */
  ghost predicate LinksBack(m: nat, before: Graph, now: Graph, key: string, layer: nat, id: string) {
    id in before && id in now && id != key ==>
      key in ListAt(now[id], layer) || |ListAt(before[id], layer)| >= Limit(m, layer)
  }

  /** The state of linking after the first `i` chosen nodes. */
  ghost predicate LinkedUpTo(m: nat, nodes: Graph, now: Graph, key: string, layer: nat, neighbors: seq<Item>, i: nat) {
    && key in nodes && now.Keys == nodes.Keys && i <= |neighbors|
    && OthersLinked(nodes, now, key, layer) && KeyLinked(nodes[key], now[key], key, layer, neighbors)
    && (forall k {:trigger neighbors[k]} | 0 <= k < i :: LinksBack(m, nodes, now, key, layer, neighbors[k].id))
    && (forall id {:trigger id in now} | id in now && id != key && (forall k | 0 <= k < i :: neighbors[k].id != id) :: now[id] == nodes[id])
  }

  /** What a node lists at `layer` once the new one has listed what it chose. */
  function Listing(nodes: Graph, id: string, key: string, layer: nat, chosen: seq<Item>): seq<string>
    requires id in nodes
  {
    if id == key then Ids(chosen) else ListAt(nodes[id], layer)
  }

  predicate ChosenBefore(chosen: seq<Item>, i: nat, id: string)
    requires i <= |chosen|
  {
    exists k {:trigger chosen[k]} :: 0 <= k < i && chosen[k].id == id
  }

  /** The lists after the first `i` links back: a chosen node's gains the new one, pruned, and no other changes. */
  ghost predicate LinkedExactly(m: nat, nodes: Graph, now: Graph, key: string, layer: nat, chosen: seq<Item>, i: nat,
                                has: string -> bool, apart: (string, string) -> real)
    requires i <= |chosen|
  {
    && now.Keys == nodes.Keys
    && forall id, l: nat {:trigger ListAt(now[id], l)} | id in nodes && id in now :: ListAt(now[id], l) ==
         if l != layer then ListAt(nodes[id], l)
         else
           var listed := Listing(nodes, id, key, layer, chosen);
           if ChosenBefore(chosen, i, id) then Pruned(m, id, listed + [key], layer, has, apart) else listed
  }

  lemma ExactFirst(m: nat, nodes: Graph, key: string, layer: nat, chosen: seq<Item>, has: string -> bool, apart: (string, string) -> real)
    requires key in nodes && layer < |nodes[key]|
    ensures LinkedExactly(m, nodes, nodes[key := nodes[key][layer := Ids(chosen)]], key, layer, chosen, 0, has, apart)
  {
    hide Ids, Pruned;
    var now := nodes[key := nodes[key][layer := Ids(chosen)]];
    forall id, l: nat | id in nodes
      ensures ListAt(now[id], l) == if l != layer then ListAt(nodes[id], l) else Listing(nodes, id, key, layer, chosen)
    {
      assert id != key ==> now[id] == nodes[id];
    }
  }

  lemma ExactNext(m: nat, nodes: Graph, last: Graph, linked: Node, key: string, layer: nat, chosen: seq<Item>, i: nat,
                  has: string -> bool, apart: (string, string) -> real)
    requires i < |chosen| && DistinctIds(chosen) && LinkedExactly(m, nodes, last, key, layer, chosen, i, has, apart)
    requires var id := chosen[i].id;
             id in last ==> linked == Grown(last[id], layer)[layer := Pruned(m, id, ListAt(last[id], layer) + [key], layer, has, apart)]
    ensures LinkedExactly(m, nodes, if chosen[i].id in last then last[chosen[i].id := linked] else last, key, layer, chosen, i + 1, has, apart)
  {
    hide Pruned, Listing;
    var id := chosen[i].id;
    var now := if id in last then last[id := linked] else last;
    assert !ChosenBefore(chosen, i, id);
    forall other | other in nodes ensures ChosenBefore(chosen, i + 1, other) <==> ChosenBefore(chosen, i, other) || other == id {
      assert chosen[i].id == id;
    }
    forall other, l: nat | other in nodes && other in now
      ensures ListAt(now[other], l) ==
              if l != layer then ListAt(nodes[other], l)
              else
                var listed := Listing(nodes, other, key, layer, chosen);
                if ChosenBefore(chosen, i + 1, other) then Pruned(m, other, listed + [key], layer, has, apart) else listed
    {
      assert ListAt(last[other], l) == ListAt(last[other], l);
      if other == id {
        assert ListAt(linked, l) == if l == layer then Pruned(m, id, ListAt(last[id], layer) + [key], layer, has, apart) else ListAt(last[id], l);
      }
    }
  }

  /** The new node's list on one layer, and the links back. */
  method LinkNode(m: nat, nodes: Graph, key: string, layer: nat, neighbors: seq<Item>, has: string -> bool, apart: (string, string) -> real)
    returns (result: Graph)
    requires m >= 1 && DegreesOk(m, nodes) && key in nodes && layer < |nodes[key]| && |neighbors| <= Limit(m, layer)
    requires DistinctIds(neighbors) && forall x | x in neighbors :: has(x.id)
    ensures DegreesOk(m, result) && LinkedUpTo(m, nodes, result, key, layer, neighbors, |neighbors|)
    ensures LinkedExactly(m, nodes, result, key, layer, neighbors, |neighbors|, has, apart)
  {
    hide LinkedUpTo, LinkedExactly, DegreesOk, NodeOk, NodeLinked, Pruned, Grown, ListAt;
    LinkedFirst(m, nodes, key, layer, neighbors);
    ExactFirst(m, nodes, key, layer, neighbors, has, apart);
    result := nodes[key := nodes[key][layer := Ids(neighbors)]];
    for i := 0 to |neighbors|
      invariant DegreesOk(m, result) && LinkedUpTo(m, nodes, result, key, layer, neighbors, i)
      invariant LinkedExactly(m, nodes, result, key, layer, neighbors, i, has, apart)
    {
      KeyLength(m, nodes, result, key, layer, neighbors, i);
      var id := neighbors[i].id;
      assert neighbors[i] in neighbors;
      if id in result {
        DegreeOf(m, result, id);
        var linked := LinkBack(m, result[id], id, key, layer, has, apart);
        LinkedNext(m, nodes, result, linked, key, layer, neighbors, i);
        ExactNext(m, nodes, result, linked, key, layer, neighbors, i, has, apart);
        DegreesUpdate(m, result, id, linked);
        result := result[id := linked];
      } else {
        LinkedSkip(m, nodes, result, key, layer, neighbors, i);
        ExactNext(m, nodes, result, [], key, layer, neighbors, i, has, apart);
      }
    }
  }

  lemma DegreeOf(m: nat, nodes: Graph, id: string)
    requires DegreesOk(m, nodes) && id in nodes
    ensures NodeOk(m, nodes[id])
  {
  }

  lemma DegreesUpdate(m: nat, nodes: Graph, id: string, node: Node)
    requires DegreesOk(m, nodes) && NodeOk(m, node)
    ensures DegreesOk(m, nodes[id := node])
  {
  }

  lemma KeyLength(m: nat, nodes: Graph, now: Graph, key: string, layer: nat, neighbors: seq<Item>, i: nat)
    requires LinkedUpTo(m, nodes, now, key, layer, neighbors, i)
    ensures key in now && |now[key]| == |nodes[key]|
  {
  }

  lemma KeyFirst(m: nat, node: Node, key: string, layer: nat, neighbors: seq<Item>, ids: seq<string>)
    requires NodeOk(m, node) && layer < |node| && |neighbors| <= Limit(m, layer) && ids == Ids(neighbors)
    ensures NodeOk(m, node[layer := ids]) && KeyLinked(node, node[layer := ids], key, layer, neighbors)
  {
    hide Ids;
    var now := node[layer := ids];
    forall l | 0 <= l < |now| ensures |now[l]| <= Limit(m, l) {
      assert |node[l]| <= Limit(m, l);
    }
    assert ListAt(now, layer) == ids;
  }

  lemma LinkedFirst(m: nat, nodes: Graph, key: string, layer: nat, neighbors: seq<Item>)
    requires DegreesOk(m, nodes) && key in nodes && layer < |nodes[key]| && |neighbors| <= Limit(m, layer)
    ensures var now := nodes[key := nodes[key][layer := Ids(neighbors)]];
            DegreesOk(m, now) && LinkedUpTo(m, nodes, now, key, layer, neighbors, 0)
  {
    hide Ids, NodeOk, KeyLinked;
    DegreeOf(m, nodes, key);
    KeyFirst(m, nodes[key], key, layer, neighbors, Ids(neighbors));
    DegreesUpdate(m, nodes, key, nodes[key][layer := Ids(neighbors)]);
  }

  lemma LinkedSkip(m: nat, nodes: Graph, now: Graph, key: string, layer: nat, neighbors: seq<Item>, i: nat)
    requires i < |neighbors| && LinkedUpTo(m, nodes, now, key, layer, neighbors, i) && neighbors[i].id !in now
    ensures LinkedUpTo(m, nodes, now, key, layer, neighbors, i + 1)
  {
    assert LinksBack(m, nodes, now, key, layer, neighbors[i].id);
  }

  /** One more link back. */
  lemma LinkedNext(m: nat, nodes: Graph, last: Graph, linked: Node, key: string, layer: nat, neighbors: seq<Item>, i: nat)
    requires i < |neighbors| && DistinctIds(neighbors) && LinkedUpTo(m, nodes, last, key, layer, neighbors, i)
    requires neighbors[i].id in last && NodeLinked(m, last[neighbors[i].id], linked, key, layer)
    requires neighbors[i].id == key ==> layer < |last[key]| && ListAt(linked, layer) != []
    ensures LinkedUpTo(m, nodes, last[neighbors[i].id := linked], key, layer, neighbors, i + 1)
  {
    var id := neighbors[i].id;
    var now := last[id := linked];
    if id != key {
      assert last[id] == nodes[id];
    }
    forall k | 0 <= k < i + 1 ensures LinksBack(m, nodes, now, key, layer, neighbors[k].id) {
      if k < i {
        assert neighbors[k].id != id && LinksBack(m, nodes, last, key, layer, neighbors[k].id);
      }
    }
    assert KeyLinked(nodes[key], now[key], key, layer, neighbors);
    forall other | other in now && other != key && (forall k | 0 <= k < i + 1 :: neighbors[k].id != other) ensures now[other] == nodes[other] {
      assert neighbors[i].id != other;
    }
  }

  /** On the layers below `upto` the nodes listed by `node` have lost `id`; every other list is as before. */
  ghost predicate UnlinkedBelow(before: Graph, now: Graph, id: string, node: Node, upto: nat) {
    forall other {:trigger now[other]} | other in before && other in now ::
      && |now[other]| == |before[other]|
      && forall l {:trigger now[other][l]} | 0 <= l < |now[other]| ::
           now[other][l] == if l < upto && l < |node| && other in node[l] then Without(before[other][l], id) else before[other][l]
  }

  /** The node is gone, and the nodes it listed on a layer have lost it there; no other list changes. */
  ghost predicate Unlinked(before: Graph, now: Graph, id: string) {
    id in before && now.Keys == before.Keys - {id} && UnlinkedBelow(before, now, id, before[id], |before[id]|)
  }

  lemma UnlinkedOk(m: nat, before: Graph, after: Graph, id: string, top: int)
    requires DegreesOk(m, before) && LevelsAtMost(before, top) && Unlinked(before, after, id)
    ensures DegreesOk(m, after) && LevelsAtMost(after, top) && forall other | other in after :: |after[other]| == |before[other]|
  {
    forall other | other in after ensures NodeOk(m, after[other]) && |after[other]| == |before[other]| {
      assert NodeOk(m, before[other]);
      forall l | 0 <= l < |after[other]| ensures |after[other][l]| <= Limit(m, l) {
        assert |before[other][l]| <= Limit(m, l);
      }
    }
  }

  method UnlinkAll(nodes: Graph, id: string) returns (result: Graph)
    requires id in nodes
    ensures result.Keys == nodes.Keys && UnlinkedBelow(nodes, result, id, nodes[id], |nodes[id]|)
  {
    hide ShrunkAt;
    result := nodes;
    var node := nodes[id];
    assert UnlinkedBelow(nodes, result, id, node, 0);
    hide UnlinkedBelow;
    for layer := 0 to |node|
      invariant result.Keys == nodes.Keys && UnlinkedBelow(nodes, result, id, node, layer)
    {
      ghost var last := result;
      result := UnlinkLayer(result, id, node[layer], layer);
      UnlinkedNext(nodes, last, result, id, node, layer);
    }
  }

  lemma UnlinkedNext(nodes: Graph, last: Graph, now: Graph, id: string, node: Node, layer: nat)
    requires layer < |node| && last.Keys == nodes.Keys == now.Keys && UnlinkedBelow(nodes, last, id, node, layer)
    requires forall other | other in last :: ShrunkAt(last[other], now[other], id, layer, other in node[layer])
    ensures UnlinkedBelow(nodes, now, id, node, layer + 1)
  {
    hide Without;
    forall other | other in nodes
      ensures |now[other]| == |nodes[other]|
      ensures forall l | 0 <= l < |now[other]| ::
                now[other][l] == if l < layer + 1 && other in node[l] then Without(nodes[other][l], id) else nodes[other][l]
    {
      assert |last[other]| == |nodes[other]| && ShrunkAt(last[other], now[other], id, layer, other in node[layer]);
      assert forall l | 0 <= l < |last[other]| :: last[other][l] == if l < layer && other in node[l] then Without(nodes[other][l], id) else nodes[other][l];
    }
  }

  method UnlinkLayer(nodes: Graph, id: string, neighbors: seq<string>, layer: nat) returns (result: Graph)
    ensures result.Keys == nodes.Keys
    ensures forall other | other in nodes :: ShrunkAt(nodes[other], result[other], id, layer, other in neighbors)
  {
    result := nodes;
    for i := 0 to |neighbors|
      invariant result.Keys == nodes.Keys
      invariant forall other | other in nodes :: ShrunkAt(nodes[other], result[other], id, layer, other in neighbors[..i])
    {
      var other := neighbors[i];
      if other in result && layer < |result[other]| {
        WithoutTwice(nodes[other], id, layer);
        result := result[other := result[other][layer := Without(result[other][layer], id)]];
      }
    }
    assert neighbors[..|neighbors|] == neighbors;
  }

  lemma WithoutTwice(node: Node, id: string, layer: nat)
    ensures layer < |node| ==> Without(Without(node[layer], id), id) == Without(node[layer], id)
  {
    if layer < |node| {
      NothingToRemove(Without(node[layer], id), id);
    }
  }

  lemma {:induction false} NothingToRemove(ids: seq<string>, id: string)
    requires id !in ids
    ensures Without(ids, id) == ids
  {
    if ids != [] {
      assert ids == ids[..|ids| - 1] + [ids[|ids| - 1]];
      NothingToRemove(ids[..|ids| - 1], id);
    }
  }

  /** Only the list at one layer may lose `id`, and does when asked to. */
  predicate ShrunkAt(a: Node, b: Node, id: string, layer: nat, removed: bool) {
    b == if removed && layer < |a| then a[layer := Without(a[layer], id)] else a
  }
}
