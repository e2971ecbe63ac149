/**
 * Sorted pages over several shards (src/shard-router.js, shardFetchOptions, sortObjects, paginate):
 * each shard sends its first `offset + limit` rows, the router merges, sorts and slices.
 */
module Paging {
  import opened Wrappers
  import opened Layout

  /** Whether the first row may come before the second. */
  type Order<!T> = (T, T) -> bool

  ghost predicate TotalPreorder<T(!new)>(leq: Order<T>) {
    && (forall a, b :: leq(a, b) || leq(b, a))
    && (forall a, b, c :: leq(a, b) && leq(b, c) ==> leq(a, c))
  }

  /** Put a row behind every row it need not precede: the step of a stable sort. */
  function Insert<T>(leq: Order<T>, s: seq<T>, x: T): seq<T> {
    if s == [] then [x]
    else if leq(s[|s| - 1], x) then s + [x]
    else Insert(leq, s[..|s| - 1], x) + [s[|s| - 1]]
  }

  function InsertAll<T>(leq: Order<T>, s: seq<T>, xs: seq<T>): seq<T>
    decreases |xs|
  {
    if xs == [] then s else InsertAll(leq, Insert(leq, s, xs[0]), xs[1..])
  }

  function Sort<T>(leq: Order<T>, xs: seq<T>): seq<T> {
    InsertAll(leq, [], xs)
  }

  function Take<T>(s: seq<T>, n: nat): seq<T> {
    if n <= |s| then s[..n] else s
  }

  ghost predicate Sorted<T>(leq: Order<T>, s: seq<T>) {
    forall i, j | 0 <= i < j < |s| :: leq(s[i], s[j])
  }

  // The sort is a sort.

  lemma {:induction false} InsertMembers<T(!new)>(leq: Order<T>, s: seq<T>, x: T)
    ensures multiset(Insert(leq, s, x)) == multiset(s) + multiset{x} && |Insert(leq, s, x)| == |s| + 1
  {
    if s != [] {
      assert s == s[..|s| - 1] + [s[|s| - 1]];
      InsertMembers(leq, s[..|s| - 1], x);
    }
  }

  lemma {:induction false} InsertSorted<T(!new)>(leq: Order<T>, s: seq<T>, x: T)
    requires TotalPreorder(leq) && Sorted(leq, s)
    ensures Sorted(leq, Insert(leq, s, x)) && multiset(Insert(leq, s, x)) == multiset(s) + multiset{x}
    ensures |Insert(leq, s, x)| == |s| + 1
  {
    InsertMembers(leq, s, x);
    if s != [] && !leq(s[|s| - 1], x) {
      var front, last := s[..|s| - 1], s[|s| - 1];
      InsertSorted(leq, front, x);
      var t := Insert(leq, front, x);
      forall i | 0 <= i < |t| ensures leq(t[i], last) {
        assert t[i] in multiset(t);
        assert t[i] in front || t[i] == x;
      }
    }
  }

  lemma {:induction false} InsertAllSorted<T(!new)>(leq: Order<T>, s: seq<T>, xs: seq<T>)
    requires TotalPreorder(leq) && Sorted(leq, s)
    ensures Sorted(leq, InsertAll(leq, s, xs)) && multiset(InsertAll(leq, s, xs)) == multiset(s) + multiset(xs)
    ensures |InsertAll(leq, s, xs)| == |s| + |xs|
    decreases |xs|
  {
    if xs != [] {
      InsertSorted(leq, s, xs[0]);
      InsertAllSorted(leq, Insert(leq, s, xs[0]), xs[1..]);
      assert xs == [xs[0]] + xs[1..];
    }
  }

  // Only the first rows matter for the first rows.

  /** An insertion's first `n` rows depend on the list's first `n` rows only. */
  lemma {:induction false} InsertTake<T(!new)>(leq: Order<T>, s: seq<T>, x: T, n: nat)
    requires TotalPreorder(leq) && Sorted(leq, s)
    ensures Take(Insert(leq, s, x), n) == Take(Insert(leq, Take(s, n), x), n)
  {
    InsertSorted(leq, s, x);
    if n < |s| {
      var front, last := s[..|s| - 1], s[|s| - 1];
      assert front[..n] == s[..n];
      if leq(last, x) {
        forall i | 0 <= i < n ensures leq(s[i], x) {
          assert leq(s[i], last);
        }
        InsertLate(leq, s[..n], x);
        assert (s + [x])[..n] == s[..n] && (s[..n] + [x])[..n] == s[..n];
      } else {
        InsertSorted(leq, front, x);
        assert Take(front, n) == Take(s, n);
        InsertTake(leq, front, x, n);
        var t := Insert(leq, front, x);
        assert (t + [last])[..n] == t[..n];
      }
    } else {
      assert Take(s, n) == s;
    }
  }

  /** A row that need not precede any of them goes to the end. */
  lemma InsertLate<T(!new)>(leq: Order<T>, s: seq<T>, x: T)
    requires forall i | 0 <= i < |s| :: leq(s[i], x)
    ensures Insert(leq, s, x) == s + [x]
  {
  }

  lemma {:induction false} InsertAllTake<T(!new)>(leq: Order<T>, s: seq<T>, xs: seq<T>, n: nat)
    requires TotalPreorder(leq) && Sorted(leq, s)
    ensures Take(InsertAll(leq, s, xs), n) == Take(InsertAll(leq, Take(s, n), xs), n)
    decreases |xs|
  {
    if xs != [] {
      var s1, t1 := Insert(leq, s, xs[0]), Insert(leq, Take(s, n), xs[0]);
      InsertSorted(leq, s, xs[0]);
      InsertSorted(leq, Take(s, n), xs[0]);
      InsertTake(leq, s, xs[0], n);
      InsertAllTake(leq, s1, xs[1..], n);
      InsertAllTake(leq, t1, xs[1..], n);
    }
  }

  lemma InsertAllSnoc<T(!new)>(leq: Order<T>, s: seq<T>, xs: seq<T>, x: T)
    ensures InsertAll(leq, s, xs + [x]) == Insert(leq, InsertAll(leq, s, xs), x)
  {
    InsertAllAppend(leq, s, xs, [x]);
    assert [x][1..] == [];
  }

  // Inserting a list, or the sorted list, is the same.

  /** Rows that differ strictly may be inserted in either order. */
  lemma {:induction false} InsertSwap<T(!new)>(leq: Order<T>, s: seq<T>, x: T, y: T)
    requires TotalPreorder(leq) && !leq(y, x)
    ensures Insert(leq, Insert(leq, s, x), y) == Insert(leq, Insert(leq, s, y), x)
  {
    if s == [] {
      assert [x] + [y] == [x, y];
      assert [y][..0] == [] && [] + [x] == [x] && [x, y][..1] == [x] && [x][..0] == [];
      assert leq(x, y);
    } else {
      var front, last := s[..|s| - 1], s[|s| - 1];
      if leq(last, x) {
        assert leq(last, y) && leq(x, y);
        assert (s + [y])[..|s|] == s;
        assert Insert(leq, s + [y], x) == Insert(leq, s, x) + [y];
      } else if leq(last, y) {
        var t := Insert(leq, front, x) + [last];
        assert Insert(leq, t, y) == t + [y];
        assert (s + [y])[..|s|] == s;
        assert Insert(leq, s + [y], x) == Insert(leq, s, x) + [y];
      } else {
        InsertSwap(leq, front, x, y);
        var tx, ty := Insert(leq, front, x), Insert(leq, front, y);
        assert (tx + [last])[..|tx|] == tx && (ty + [last])[..|ty|] == ty;
      }
    }
  }

  lemma {:induction false} InsertAllAppend<T(!new)>(leq: Order<T>, s: seq<T>, xs: seq<T>, ys: seq<T>)
    ensures InsertAll(leq, s, xs + ys) == InsertAll(leq, InsertAll(leq, s, xs), ys)
    decreases |xs|
  {
    if xs == [] {
      assert xs + ys == ys;
    } else {
      assert (xs + ys)[1..] == xs[1..] + ys;
      InsertAllAppend(leq, Insert(leq, s, xs[0]), xs[1..], ys);
    }
  }

  lemma {:induction false} InsertAllInsert<T(!new)>(leq: Order<T>, s: seq<T>, t: seq<T>, x: T)
    requires TotalPreorder(leq) && Sorted(leq, t)
    ensures InsertAll(leq, s, Insert(leq, t, x)) == Insert(leq, InsertAll(leq, s, t), x)
    decreases |t|
  {
    if t == [] {
      InsertAllSnoc(leq, s, [], x);
      assert [] + [x] == [x];
    } else {
      var front, last := t[..|t| - 1], t[|t| - 1];
      assert t == front + [last];
      if leq(last, x) {
        InsertAllSnoc(leq, s, t, x);
      } else {
        InsertAllSnoc(leq, s, Insert(leq, front, x), last);
        InsertAllSnoc(leq, s, front, last);
        InsertAllInsert(leq, s, front, x);
        InsertSwap(leq, InsertAll(leq, s, front), x, last);
      }
    }
  }

  /** Inserting sorted rows gives what inserting them as they come gives. */
  lemma {:induction false} InsertAllSortedFirst<T(!new)>(leq: Order<T>, s: seq<T>, xs: seq<T>)
    requires TotalPreorder(leq)
    ensures InsertAll(leq, s, Sort(leq, xs)) == InsertAll(leq, s, xs)
    decreases |xs|
  {
    if xs != [] {
      var front, last := xs[..|xs| - 1], xs[|xs| - 1];
      assert xs == front + [last];
      InsertAllSortedFirst(leq, s, front);
      InsertAllSnoc(leq, s, front, last);
      InsertAllSnoc(leq, [], front, last);
      InsertAllSorted(leq, [], front);
      InsertAllInsert(leq, s, Sort(leq, front), last);
    }
  }

  lemma SortedFront<T(!new)>(leq: Order<T>, t: seq<T>)
    requires t != [] && Sorted(leq, t)
    ensures var front := t[..|t| - 1]; Sorted(leq, front) && forall i | 0 <= i < |front| :: leq(front[i], t[|t| - 1])
  {
  }

  /** Rows beyond the first `n` of a sorted list never reach the first `n` of the result. */
  lemma {:induction false} InsertAllOnlyFirst<T(!new)>(leq: Order<T>, s: seq<T>, t: seq<T>, n: nat)
    requires TotalPreorder(leq) && Sorted(leq, s) && Sorted(leq, t)
    ensures Take(InsertAll(leq, s, t), n) == Take(InsertAll(leq, s, Take(t, n)), n)
    decreases |t|
  {
    if n < |t| {
      var front, last := t[..|t| - 1], t[|t| - 1];
      assert t == front + [last];
      assert Take(front, n) == Take(t, n);
      SortedFront(leq, t);
      InsertAllOnlyFirst(leq, s, front, n);
      InsertAllSnoc(leq, s, front, last);
      var all := InsertAll(leq, s, front);
      assert Sorted(leq, all) && multiset(front) <= multiset(all) by {
        InsertAllSorted(leq, s, front);
      }
      LateRow(leq, all, front, last, n);
    } else {
      assert Take(t, n) == t;
    }
  }

  /** Inserting a row behind `n` rows of the list leaves its first `n` rows alone. */
  lemma LateRow<T(!new)>(leq: Order<T>, s: seq<T>, before: seq<T>, x: T, n: nat)
    requires TotalPreorder(leq) && Sorted(leq, s) && n <= |before|
    requires multiset(before) <= multiset(s) && forall i | 0 <= i < |before| :: leq(before[i], x)
    ensures Take(Insert(leq, s, x), n) == Take(s, n)
  {
    InsertTake(leq, s, x, n);
    FewerRows(multiset(before), multiset(s));
    assert |multiset(before)| == |before| && |multiset(s)| == |s|;
    FirstNotAfter(leq, s, before, x, n);
    InsertLate(leq, s[..n], x);
    assert (s[..n] + [x])[..n] == s[..n];
  }

  lemma {:induction false} FirstNotAfter<T(!new)>(leq: Order<T>, s: seq<T>, before: seq<T>, x: T, n: nat)
    requires TotalPreorder(leq) && Sorted(leq, s) && n <= |before| <= |s|
    requires multiset(before) <= multiset(s) && forall i | 0 <= i < |before| :: leq(before[i], x)
    ensures forall i | 0 <= i < n :: leq(s[i], x)
  {
    forall i | 0 <= i < n ensures leq(s[i], x) {
      if !leq(s[i], x) {
        TooFewBefore(leq, s, before, x, i);
      }
    }
  }

  /** If the row at `i` is after `x`, at most `i` rows of the list are not. */
  lemma TooFewBefore<T(!new)>(leq: Order<T>, s: seq<T>, before: seq<T>, x: T, i: nat)
    requires TotalPreorder(leq) && Sorted(leq, s) && i < |s| && !leq(s[i], x)
    requires multiset(before) <= multiset(s) && forall k | 0 <= k < |before| :: leq(before[k], x)
    ensures |before| <= i
  {
    assert s == s[..i] + s[i..];
    assert multiset(s) == multiset(s[..i]) + multiset(s[i..]);
    forall y | y in before ensures multiset(s[i..])[y] == 0 {
      assert leq(y, x);
      NotBehind(leq, s, x, i, y);
    }
    assert multiset(before) <= multiset(s[..i]);
    FewerRows(multiset(before), multiset(s[..i]));
    assert |multiset(before)| == |before| && |multiset(s[..i])| == i;
  }

  lemma NotBehind<T(!new)>(leq: Order<T>, s: seq<T>, x: T, i: nat, y: T)
    requires TotalPreorder(leq) && Sorted(leq, s) && i < |s| && !leq(s[i], x) && leq(y, x)
    ensures y !in s[i..]
  {
    forall k | 0 <= k < |s[i..]| ensures s[i..][k] != y {
      assert leq(s[i], s[i + k]);
    }
  }

  lemma FewerRows<T(!new)>(a: multiset<T>, b: multiset<T>)
    requires a <= b
    ensures |a| <= |b|
  {
    assert b == a + (b - a);
  }

  // Pages.

  function Concat<T>(parts: seq<seq<T>>): seq<T> {
    if parts == [] then [] else Concat(parts[..|parts| - 1]) + parts[|parts| - 1]
  }

  /** What each shard sends: its own sorted rows, cut after `n`. */
  function Fetched<T>(leq: Order<T>, parts: seq<seq<T>>, n: nat): seq<seq<T>> {
    if parts == [] then []
    else Fetched(leq, parts[..|parts| - 1], n) + [Take(Sort(leq, parts[|parts| - 1]), n)]
  }

  function Page<T>(s: seq<T>, offset: nat, limit: nat): seq<T> {
    if offset >= |s| then [] else Take(s[offset..], limit)
  }

  /** A page begins at its offset and holds up to its limit of what is there. */
  lemma PageIs<T>(s: seq<T>, offset: nat, limit: nat)
    ensures |Page(s, offset, limit)| == if offset >= |s| then 0 else Min(limit, |s| - offset)
    ensures forall i | 0 <= i < |Page(s, offset, limit)| :: Page(s, offset, limit)[i] == s[offset + i]
  {
  }

  /** The first pages of one size, one after the other. */
  function Pages<T>(s: seq<T>, size: nat, count: nat): seq<T> {
    if count == 0 then [] else Pages(s, size, count - 1) + Page(s, (count - 1) * size, size)
  }

  lemma {:induction false} PagesCover<T>(s: seq<T>, size: nat, count: nat)
    ensures Pages(s, size, count) == if count * size <= |s| then s[..count * size] else s
  {
    if count != 0 {
      PagesCover(s, size, count - 1);
      PageEnds(count, size);
      NextPage(s, (count - 1) * size, size);
    }
  }

  lemma PageEnds(count: nat, size: nat)
    requires count > 0
    ensures count * size == (count - 1) * size + size
  {
  }

  lemma NextPage<T>(s: seq<T>, offset: nat, size: nat)
    ensures var before := if offset <= |s| then s[..offset] else s;
            before + Page(s, offset, size) == if offset + size <= |s| then s[..offset + size] else s
  {
    if offset < |s| {
      assert s == s[..offset] + s[offset..];
    } else {
      assert Page(s, offset, size) == [];
    }
  }

  lemma {:induction false} FetchedSuffices<T(!new)>(leq: Order<T>, parts: seq<seq<T>>, n: nat)
    requires TotalPreorder(leq)
    ensures Take(Sort(leq, Concat(Fetched(leq, parts, n))), n) == Take(Sort(leq, Concat(parts)), n)
  {
    if parts != [] {
      var front, last := parts[..|parts| - 1], parts[|parts| - 1];
      FetchedSuffices(leq, front, n);
      var sent := Take(Sort(leq, last), n);
      var fetched, whole := Concat(Fetched(leq, front, n)), Concat(front);
      assert Concat(Fetched(leq, parts, n)) == fetched + sent by {
        assert (Fetched(leq, front, n) + [sent])[..|Fetched(leq, front, n)|] == Fetched(leq, front, n);
      }
      InsertAllAppend(leq, [], fetched, sent);
      InsertAllAppend(leq, [], whole, last);
      InsertAllSorted(leq, [], fetched);
      InsertAllSorted(leq, [], whole);
      InsertAllSorted(leq, [], last);
      SentSuffices(leq, Sort(leq, fetched), Sort(leq, whole), last, n);
    }
  }

  lemma SentSuffices<T(!new)>(leq: Order<T>, s: seq<T>, t: seq<T>, part: seq<T>, n: nat)
    requires TotalPreorder(leq) && Sorted(leq, s) && Sorted(leq, t) && Take(s, n) == Take(t, n)
    ensures Take(InsertAll(leq, s, Take(Sort(leq, part), n)), n) == Take(InsertAll(leq, t, part), n)
  {
    InsertAllSorted(leq, [], part);
    InsertAllTake(leq, s, Take(Sort(leq, part), n), n);
    InsertAllTake(leq, t, Take(Sort(leq, part), n), n);
    InsertAllOnlyFirst(leq, t, Sort(leq, part), n);
    InsertAllSortedFirst(leq, t, part);
  }

  lemma PageOfAllRows<T(!new)>(leq: Order<T>, parts: seq<seq<T>>, offset: nat, limit: nat)
    requires TotalPreorder(leq)
    ensures Page(Sort(leq, Concat(Fetched(leq, parts, offset + limit))), offset, limit) ==
            Page(Sort(leq, Concat(parts)), offset, limit)
  {
    FetchedSuffices(leq, parts, offset + limit);
    PageOfTake(Sort(leq, Concat(Fetched(leq, parts, offset + limit))), offset, limit);
    PageOfTake(Sort(leq, Concat(parts)), offset, limit);
  }

  lemma PageOfTake<T(!new)>(s: seq<T>, offset: nat, limit: nat)
    ensures Page(s, offset, limit) == Page(Take(s, offset + limit), offset, limit)
  {
  }

  /** Ties aside, the order in which rows reach the sort does not matter: positions hold equal keys. */
  lemma SortedKeysAgree<T(!new)>(leq: Order<T>, s: seq<T>, t: seq<T>)
    requires TotalPreorder(leq) && Sorted(leq, s) && Sorted(leq, t) && multiset(s) == multiset(t)
    ensures |s| == |t| && forall i | 0 <= i < |s| :: leq(s[i], t[i]) && leq(t[i], s[i])
  {
    assert |multiset(s)| == |s| && |multiset(t)| == |t|;
    forall i | 0 <= i < |s| ensures leq(s[i], t[i]) && leq(t[i], s[i]) {
      KeyNotAfter(leq, s, t, i);
      KeyNotAfter(leq, t, s, i);
    }
  }

  lemma KeyNotAfter<T(!new)>(leq: Order<T>, s: seq<T>, t: seq<T>, i: nat)
    requires TotalPreorder(leq) && Sorted(leq, s) && Sorted(leq, t) && multiset(s) == multiset(t)
    requires i < |s| && i < |t|
    ensures leq(s[i], t[i])
  {
    if !leq(s[i], t[i]) {
      var first := t[..i + 1];
      assert t == first + t[i + 1..];
      forall k | 0 <= k < |first| ensures leq(first[k], t[i]) {
        assert first[k] == t[k];
      }
      TooFewBefore(leq, s, first, t[i], i);
    }
  }

  // An order need only be one on the rows at hand.

  /** The order is total and transitive among the rows it is asked about. */
  ghost predicate PreorderOn<T(!new)>(leq: Order<T>, ok: T -> bool) {
    && (forall a, b | ok(a) && ok(b) :: leq(a, b) || leq(b, a))
    && (forall a, b, c | ok(a) && ok(b) && ok(c) && leq(a, b) && leq(b, c) :: leq(a, c))
  }

  predicate All<T>(ok: T -> bool, s: seq<T>) {
    forall i | 0 <= i < |s| :: ok(s[i])
  }

  /** The order with all other rows behind. */
  function Extended<T>(leq: Order<T>, ok: T -> bool): Order<T> {
    (a, b) => if ok(a) && ok(b) then leq(a, b) else ok(a) || !ok(b)
  }

  lemma {:induction false} SameInsert<T(!new)>(leq: Order<T>, ok: T -> bool, s: seq<T>, x: T)
    requires All(ok, s) && ok(x)
    ensures Insert(Extended(leq, ok), s, x) == Insert(leq, s, x) && All(ok, Insert(leq, s, x))
  {
    if s != [] {
      SameInsert(leq, ok, s[..|s| - 1], x);
    }
  }

  lemma {:induction false} SameInsertAll<T(!new)>(leq: Order<T>, ok: T -> bool, s: seq<T>, xs: seq<T>)
    requires All(ok, s) && All(ok, xs)
    ensures InsertAll(Extended(leq, ok), s, xs) == InsertAll(leq, s, xs) && All(ok, InsertAll(leq, s, xs))
    decreases |xs|
  {
    if xs != [] {
      SameInsert(leq, ok, s, xs[0]);
      SameInsertAll(leq, ok, Insert(leq, s, xs[0]), xs[1..]);
    }
  }

  lemma {:induction false} SameFetched<T(!new)>(leq: Order<T>, ok: T -> bool, parts: seq<seq<T>>, n: nat)
    requires All(ok, Concat(parts))
    ensures Fetched(Extended(leq, ok), parts, n) == Fetched(leq, parts, n)
    ensures All(ok, Concat(Fetched(leq, parts, n)))
  {
    if parts != [] {
      var front, last := parts[..|parts| - 1], parts[|parts| - 1];
      var whole := Concat(parts);
      assert All(ok, Concat(front)) by {
        assert forall i | 0 <= i < |Concat(front)| :: whole[i] == Concat(front)[i];
      }
      assert All(ok, last) by {
        assert forall i | 0 <= i < |last| :: whole[|Concat(front)| + i] == last[i];
      }
      SameFetched(leq, ok, front, n);
      SameInsertAll(leq, ok, [], last);
      var sent := Take(Sort(leq, last), n);
      assert (Fetched(leq, front, n) + [sent])[..|Fetched(leq, front, n)|] == Fetched(leq, front, n);
    }
  }

  lemma ExtendedIsOrder<T(!new)>(leq: Order<T>, ok: T -> bool)
    requires PreorderOn(leq, ok)
    ensures TotalPreorder(Extended(leq, ok))
  {
  }

  /**
   * The distributed page is the page of the globally sorted rows, for every split into shards and
   * every offset and limit; rows that tie keep the order of the shards.
   */
  lemma DistributedPage<T(!new)>(leq: Order<T>, ok: T -> bool, parts: seq<seq<T>>, offset: nat, limit: nat)
    requires PreorderOn(leq, ok) && All(ok, Concat(parts))
    ensures Page(Sort(leq, Concat(Fetched(leq, parts, offset + limit))), offset, limit) ==
            Page(Sort(leq, Concat(parts)), offset, limit)
  {
    ExtendedIsOrder(leq, ok);
    SameFetched(leq, ok, parts, offset + limit);
    SameInsertAll(leq, ok, [], Concat(parts));
    SameInsertAll(leq, ok, [], Concat(Fetched(leq, parts, offset + limit)));
    PageOfAllRows(Extended(leq, ok), parts, offset, limit);
  }

  /** Sorting sorts: the rows in order, none lost, none new. */
  lemma SortSorts<T(!new)>(leq: Order<T>, ok: T -> bool, rows: seq<T>)
    requires PreorderOn(leq, ok) && All(ok, rows)
    ensures Sorted(leq, Sort(leq, rows)) && multiset(Sort(leq, rows)) == multiset(rows) && All(ok, Sort(leq, rows))
  {
    ExtendedIsOrder(leq, ok);
    SameInsertAll(leq, ok, [], rows);
    InsertAllSorted(Extended(leq, ok), [], rows);
    assert multiset([]) + multiset(rows) == multiset(rows);
    assert Sorted(Extended(leq, ok), Sort(leq, rows));
  }

  lemma AllPermuted<T(!new)>(ok: T -> bool, xs: seq<T>, ys: seq<T>)
    requires All(ok, xs) && multiset(xs) == multiset(ys)
    ensures All(ok, ys)
  {
    forall i | 0 <= i < |ys| ensures ok(ys[i]) {
      assert ys[i] in multiset(xs);
    }
  }

  /** However rows arrive, the sorted positions hold equal keys. */
  lemma SortKeysAgree<T(!new)>(leq: Order<T>, ok: T -> bool, xs: seq<T>, ys: seq<T>)
    requires PreorderOn(leq, ok) && All(ok, xs) && multiset(xs) == multiset(ys)
    ensures All(ok, ys) && |Sort(leq, xs)| == |Sort(leq, ys)|
    ensures forall i | 0 <= i < |Sort(leq, xs)| :: leq(Sort(leq, xs)[i], Sort(leq, ys)[i]) && leq(Sort(leq, ys)[i], Sort(leq, xs)[i])
  {
    AllPermuted(ok, xs, ys);
    ExtendedIsOrder(leq, ok);
    SortSorts(leq, ok, xs);
    SortSorts(leq, ok, ys);
    var s, t, total := Sort(leq, xs), Sort(leq, ys), Extended(leq, ok);
    hide TotalPreorder, PreorderOn, Sort;
    assert Sorted(total, s) && Sorted(total, t);
    SortedKeysAgree(total, s, t);
    forall i | 0 <= i < |s| ensures leq(s[i], t[i]) && leq(t[i], s[i]) {
      assert total(s[i], t[i]) && total(t[i], s[i]) && ok(s[i]) && ok(t[i]);
    }
  }

  lemma PagesAgree<T(!new)>(leq: Order<T>, s: seq<T>, t: seq<T>, offset: nat, limit: nat)
    requires |s| == |t| && forall i | 0 <= i < |s| :: leq(s[i], t[i]) && leq(t[i], s[i])
    ensures var page, wanted := Page(s, offset, limit), Page(t, offset, limit);
            |page| == |wanted| && forall i | 0 <= i < |page| :: leq(page[i], wanted[i]) && leq(wanted[i], page[i])
  {
    if offset < |s| {
      var page, wanted := Page(s, offset, limit), Page(t, offset, limit);
      forall i | 0 <= i < |page| ensures leq(page[i], wanted[i]) && leq(wanted[i], page[i]) {
        assert page[i] == s[offset + i] && wanted[i] == t[offset + i];
      }
    }
  }

  /** The rows with the sort key of `x`, in their order. */
  ghost function Tying<T>(leq: Order<T>, x: T, s: seq<T>): seq<T> {
    if s == [] then []
    else
      var last := s[|s| - 1];
      Tying(leq, x, s[..|s| - 1]) + (if leq(last, x) && leq(x, last) then [last] else [])
  }

  lemma {:induction false} InsertKeepsTies<T(!new)>(leq: Order<T>, ok: T -> bool, s: seq<T>, x: T, y: T)
    requires PreorderOn(leq, ok) && All(ok, s) && ok(x) && ok(y) && Sorted(leq, s)
    ensures Tying(leq, x, Insert(leq, s, y)) == Tying(leq, x, s) + (if leq(y, x) && leq(x, y) then [y] else [])
  {
    hide PreorderOn, Tying;
    if s == [] || leq(s[|s| - 1], y) {
      TyingSnoc(leq, x, s, y);
      assert Insert(leq, s, y) == s + [y];
    } else {
      var front, last := s[..|s| - 1], s[|s| - 1];
      Between(leq, ok, last, x, y);
      InsertKeepsTies(leq, ok, front, x, y);
      hide Sorted, All;
      TyingSnoc(leq, x, Insert(leq, front, y), last);
      TyingSnoc(leq, x, front, last);
      assert s == front + [last];
    }
  }

  lemma Between<T(!new)>(leq: Order<T>, ok: T -> bool, a: T, x: T, b: T)
    requires PreorderOn(leq, ok) && ok(a) && ok(x) && ok(b) && !leq(a, b)
    ensures !(leq(a, x) && leq(x, b))
  {
  }

  lemma {:induction false} TyingSnoc<T(!new)>(leq: Order<T>, x: T, s: seq<T>, y: T)
    ensures Tying(leq, x, s + [y]) == Tying(leq, x, s) + (if leq(y, x) && leq(x, y) then [y] else [])
  {
    assert (s + [y])[..|s|] == s;
  }

  lemma {:induction false} InsertAllKeepsTies<T(!new)>(leq: Order<T>, ok: T -> bool, s: seq<T>, xs: seq<T>, x: T)
    requires PreorderOn(leq, ok) && All(ok, s) && All(ok, xs) && ok(x) && Sorted(leq, s)
    ensures Tying(leq, x, InsertAll(leq, s, xs)) == Tying(leq, x, s) + Tying(leq, x, xs)
  {
    if xs != [] {
      var front, last := xs[..|xs| - 1], xs[|xs| - 1];
      assert xs == front + [last];
      InsertAllSnoc(leq, s, front, last);
      InsertAllKeepsTies(leq, ok, s, front, x);
      InsertAllSortedOn(leq, ok, s, front);
      InsertKeepsTies(leq, ok, InsertAll(leq, s, front), x, last);
    }
  }

  lemma InsertAllSortedOn<T(!new)>(leq: Order<T>, ok: T -> bool, s: seq<T>, xs: seq<T>)
    requires PreorderOn(leq, ok) && All(ok, s) && All(ok, xs) && Sorted(leq, s)
    ensures Sorted(leq, InsertAll(leq, s, xs)) && All(ok, InsertAll(leq, s, xs))
  {
    ExtendedIsOrder(leq, ok);
    SameInsertAll(leq, ok, s, xs);
    assert Sorted(Extended(leq, ok), s);
    InsertAllSorted(Extended(leq, ok), s, xs);
    assert Sorted(Extended(leq, ok), InsertAll(leq, s, xs));
  }

  /** The sort is stable: rows with one sort key keep their order. */
  lemma SortStable<T(!new)>(leq: Order<T>, ok: T -> bool, rows: seq<T>, x: T)
    requires PreorderOn(leq, ok) && All(ok, rows) && ok(x)
    ensures Tying(leq, x, Sort(leq, rows)) == Tying(leq, x, rows)
  {
    InsertAllKeepsTies(leq, ok, [], rows, x);
    assert [] + Tying(leq, x, rows) == Tying(leq, x, rows);
  }

  /** Row by row the same keys. */
  ghost predicate SameKeys<T>(leq: Order<T>, page: seq<T>, wanted: seq<T>) {
    |page| == |wanted| && forall i | 0 <= i < |page| :: leq(page[i], wanted[i]) && leq(wanted[i], page[i])
  }

  /** So the page has the sort keys of the page of the same rows sorted in any other order. */
  lemma DistributedPageKeys<T(!new)>(leq: Order<T>, ok: T -> bool, parts: seq<seq<T>>, rows: seq<T>, offset: nat, limit: nat)
    requires PreorderOn(leq, ok) && All(ok, Concat(parts)) && multiset(Concat(parts)) == multiset(rows)
    ensures var page := Page(Sort(leq, Concat(Fetched(leq, parts, offset + limit))), offset, limit);
            var wanted := Page(Sort(leq, rows), offset, limit);
            SameKeys(leq, page, wanted)
  {
    DistributedPage(leq, ok, parts, offset, limit);
    SortKeysAgree(leq, ok, Concat(parts), rows);
    PagesAgree(leq, Sort(leq, Concat(parts)), Sort(leq, rows), offset, limit);
  }

  // Without a sort field.

  function Cut<T>(parts: seq<seq<T>>, n: nat): seq<seq<T>> {
    if parts == [] then [] else Cut(parts[..|parts| - 1], n) + [Take(parts[|parts| - 1], n)]
  }

  lemma {:induction false} CutSuffices<T(!new)>(parts: seq<seq<T>>, n: nat)
    ensures Take(Concat(Cut(parts, n)), n) == Take(Concat(parts), n)
  {
    if parts != [] {
      var front, last := parts[..|parts| - 1], parts[|parts| - 1];
      CutSuffices(front, n);
      assert (Cut(front, n) + [Take(last, n)])[..|Cut(front, n)|] == Cut(front, n);
      TakeAppend(Concat(Cut(front, n)), Concat(front), last, n);
    }
  }

  lemma TakeAppend<T(!new)>(s: seq<T>, t: seq<T>, more: seq<T>, n: nat)
    requires Take(s, n) == Take(t, n)
    ensures Take(s + Take(more, n), n) == Take(t + more, n)
  {
    if n <= |t| {
      assert (s + Take(more, n))[..n] == s[..n] && (t + more)[..n] == t[..n];
    } else {
      assert s == t;
      assert Take(s + Take(more, n), n) == Take(t + more, n);
    }
  }

  /** Unsorted pages agree too. */
  lemma UnsortedPage<T(!new)>(parts: seq<seq<T>>, offset: nat, limit: nat)
    ensures Page(Concat(Cut(parts, offset + limit)), offset, limit) == Page(Concat(parts), offset, limit)
  {
    CutSuffices(parts, offset + limit);
    PageOfTake(Concat(Cut(parts, offset + limit)), offset, limit);
    PageOfTake(Concat(parts), offset, limit);
  }

  // The sort order of the program.

  /** `compareSortValues`: negative, zero or positive as the first key is before, with or after the second. */
  function CompareKeys(collate: Collation, a: Option<Value>, b: Option<Value>): int {
    if a == b then 0
    else if Missing(a) then 1
    else if Missing(b) then -1
    else if a.value.Num? && b.value.Num? then a.value.n - b.value.n
    else if collate(a.value) < collate(b.value) then -1
    else if collate(a.value) > collate(b.value) then 1 else 0
  }

  /** The place of a value's text in the collation. */
  type Collation = Value -> real

  predicate Missing(k: Option<Value>) {
    k.None? || k.value.Null?
  }

  /** `sortObjects`: rows by the value at a path, one way or the other. */
  function ByPath(collate: Collation, path: string, ascending: bool): Order<Value> {
    (l, r) => Directed(ascending, CompareKeys(collate, GetPath(l, path), GetPath(r, path))) <= 0
  }

  function Directed(ascending: bool, compared: int): int {
    if ascending then compared else -compared
  }

  /**
   * Keys that any collation orders: not both null and undefined among them, and not two different
   * numbers together with something that is no number.
   */
  ghost predicate Sortable(keys: iset<Option<Value>>) {
    && !(None in keys && Some(Null) in keys)
    && forall a, b, k | a in keys && b in keys && k in keys && !Missing(k) && Numeric(a) && Numeric(b) && a != b :: Numeric(k)
  }

  predicate Numeric(k: Option<Value>) {
    k.Some? && k.value.Num?
  }

  ghost predicate KeysInOrder(collate: Collation, keys: iset<Option<Value>>) {
    && (forall a, b | a in keys && b in keys :: CompareKeys(collate, a, b) < 0 <==> CompareKeys(collate, b, a) > 0)
    && (forall a, b, c | a in keys && b in keys && c in keys && CompareKeys(collate, a, b) <= 0 && CompareKeys(collate, b, c) <= 0 ::
          CompareKeys(collate, a, c) <= 0)
  }

  lemma SortableInOrder(collate: Collation, keys: iset<Option<Value>>)
    requires Sortable(keys)
    ensures KeysInOrder(collate, keys)
  {
    forall a, b, c | a in keys && b in keys && c in keys && CompareKeys(collate, a, b) <= 0 && CompareKeys(collate, b, c) <= 0
      ensures CompareKeys(collate, a, c) <= 0
    {
    }
  }

  /** Two numbers the wrong way round to a text between them: 10 before "5" before 9 before 10. */
  lemma MixedKeysCycle(collate: Collation, low: int, high: int, k: Value)
    requires low < high && k != Null && !k.Num? && collate(Num(high)) < collate(k) < collate(Num(low))
    ensures CompareKeys(collate, Some(Num(high)), Some(k)) < 0 && CompareKeys(collate, Some(k), Some(Num(low))) < 0
    ensures CompareKeys(collate, Some(Num(low)), Some(Num(high))) < 0
  {
  }

  /** Null and undefined are each after the other. */
  lemma NullAndUndefinedDisagree(collate: Collation)
    ensures CompareKeys(collate, None, Some(Null)) > 0 && CompareKeys(collate, Some(Null), None) > 0
  {
  }

  /** The program's comparison orders a set of keys under every collation exactly when the set is sortable. */
  lemma KeysOrdered(keys: iset<Option<Value>>)
    ensures (forall collate :: KeysInOrder(collate, keys)) <==> Sortable(keys)
  {
    if Sortable(keys) {
      forall collate ensures KeysInOrder(collate, keys) {
        SortableInOrder(collate, keys);
      }
    } else if None in keys && Some(Null) in keys {
      var flat: Collation := v => 0.0;
      NullAndUndefinedDisagree(flat);
      assert !KeysInOrder(flat, keys);
    } else {
      var x, y, k :| x in keys && y in keys && k in keys && !Missing(k) && Numeric(x) && Numeric(y) && x != y && !Numeric(k);
      var low, high := if x.value.n < y.value.n then x else y, if x.value.n < y.value.n then y else x;
      var turned: Collation := v => if v == high.value then 0.0 else if v == low.value then 2.0 else 1.0;
      MixedKeysCycle(turned, low.value.n, high.value.n, k.value);
      assert low in keys && high in keys && k in keys;
      assert !KeysInOrder(turned, keys);
    }
  }

  function KeyIn(keys: iset<Option<Value>>, path: string): Value -> bool {
    row => GetPath(row, path) in keys
  }

  /** So rows with sortable keys are ordered, in either direction. */
  lemma RowsOrdered(collate: Collation, keys: iset<Option<Value>>, path: string, ascending: bool)
    requires Sortable(keys)
    ensures PreorderOn(ByPath(collate, path, ascending), KeyIn(keys, path))
  {
    SortableInOrder(collate, keys);
  }

  /**
   * The order asked for: numbers by size and other keys by their place in the collation, the other way
   * round when descending; rows without a key after all others, or before them when descending.
   */
  predicate InOrder(collate: Collation, path: string, ascending: bool, l: Value, r: Value) {
    var a, b := GetPath(l, path), GetPath(r, path);
    if Missing(a) || Missing(b) then if ascending then Missing(b) else Missing(a)
    else if Numeric(a) && Numeric(b) then if ascending then a.value.n <= b.value.n else b.value.n <= a.value.n
    else a == b || if ascending then collate(a.value) <= collate(b.value) else collate(b.value) <= collate(a.value)
  }

  function Asked(collate: Collation, path: string, ascending: bool): Order<Value> {
    (l, r) => InOrder(collate, path, ascending, l, r)
  }

  lemma OrderMeans(collate: Collation, keys: iset<Option<Value>>, path: string, ascending: bool, l: Value, r: Value)
    requires Sortable(keys) && KeyIn(keys, path)(l) && KeyIn(keys, path)(r)
    ensures ByPath(collate, path, ascending)(l, r) <==> InOrder(collate, path, ascending, l, r)
  {
  }

  // Shards that sort otherwise.

  /** Each shard orders its rows by their keys, but ties as it likes. */
  ghost predicate Ordered<T(!new)>(leq: Order<T>, parts: seq<seq<T>>, sorted: seq<seq<T>>) {
    && |sorted| == |parts|
    && forall i {:trigger sorted[i]} | 0 <= i < |sorted| :: Sorted(leq, sorted[i]) && multiset(sorted[i]) == multiset(parts[i])
  }

  lemma {:induction false} InsertAllInOrder<T(!new)>(leq: Order<T>, s: seq<T>, k: nat)
    requires Sorted(leq, s) && k <= |s|
    ensures InsertAll(leq, s[..k], s[k..]) == s
    decreases |s| - k
  {
    if k < |s| {
      assert Insert(leq, s[..k], s[k]) == s[..k + 1];
      assert s[k..][1..] == s[k + 1..];
      InsertAllInOrder(leq, s, k + 1);
    } else {
      assert s[..k] == s;
    }
  }

  lemma {:induction false} FetchedOrdered<T(!new)>(leq: Order<T>, sorted: seq<seq<T>>, n: nat)
    requires forall i {:trigger sorted[i]} | 0 <= i < |sorted| :: Sorted(leq, sorted[i])
    ensures Fetched(leq, sorted, n) == Cut(sorted, n)
  {
    if sorted != [] {
      var last := sorted[|sorted| - 1];
      FetchedOrdered(leq, sorted[..|sorted| - 1], n);
      InsertAllInOrder(leq, last, 0);
      assert last[..0] == [] && last[0..] == last;
    }
  }

  lemma {:induction false} ConcatPermutes<T>(parts: seq<seq<T>>, sorted: seq<seq<T>>)
    requires |sorted| == |parts| && forall i | 0 <= i < |sorted| :: multiset(sorted[i]) == multiset(parts[i])
    ensures multiset(Concat(sorted)) == multiset(Concat(parts))
  {
    if parts != [] {
      var n := |parts| - 1;
      ConcatPermutes(parts[..n], sorted[..n]);
      ConcatLast(parts);
      ConcatLast(sorted);
    }
  }

  lemma ConcatLast<T>(parts: seq<seq<T>>)
    requires parts != []
    ensures multiset(Concat(parts)) == multiset(Concat(parts[..|parts| - 1])) + multiset(parts[|parts| - 1])
  {
  }

  lemma OrderedParts<T(!new)>(leq: Order<T>, parts: seq<seq<T>>, sorted: seq<seq<T>>, n: nat)
    requires Ordered(leq, parts, sorted)
    ensures Fetched(leq, sorted, n) == Cut(sorted, n) && multiset(Concat(sorted)) == multiset(Concat(parts))
  {
    hide Sorted, Fetched, Cut, Concat;
    FetchedOrdered(leq, sorted, n);
    ConcatPermutes(parts, sorted);
  }

  /** However the shards break ties, the page has the sort keys of the page of all rows. */
  lemma DistributedPageAnyTies<T(!new)>(leq: Order<T>, ok: T -> bool, parts: seq<seq<T>>, sorted: seq<seq<T>>, offset: nat, limit: nat)
    requires PreorderOn(leq, ok) && All(ok, Concat(parts)) && Ordered(leq, parts, sorted)
    ensures SameKeys(leq, Page(Sort(leq, Concat(Cut(sorted, offset + limit))), offset, limit), Page(Sort(leq, Concat(parts)), offset, limit))
  {
    hide *;
    OrderedParts(leq, parts, sorted, offset + limit);
    AllPermuted(ok, Concat(parts), Concat(sorted));
    DistributedPageKeys(leq, ok, sorted, Concat(parts), offset, limit);
  }

  lemma {:induction false} CutOfSorts<T(!new)>(leq: Order<T>, parts: seq<seq<T>>, sorted: seq<seq<T>>, n: nat)
    requires |sorted| == |parts| && forall i | 0 <= i < |sorted| :: sorted[i] == Sort(leq, parts[i])
    ensures Cut(sorted, n) == Fetched(leq, parts, n)
  {
    if parts != [] {
      CutOfSorts(leq, parts[..|parts| - 1], sorted[..|parts| - 1], n);
    }
  }

  /** With the shards' own ties the page has the right keys, with the stable sort's ties it is the page. */
  lemma MergedPage<T(!new)>(leq: Order<T>, ok: T -> bool, parts: seq<seq<T>>, sorted: seq<seq<T>>, offset: nat, limit: nat)
    requires PreorderOn(leq, ok) && All(ok, Concat(parts)) && Ordered(leq, parts, sorted)
    ensures var page := Page(Sort(leq, Concat(Cut(sorted, offset + limit))), offset, limit);
            var wanted := Page(Sort(leq, Concat(parts)), offset, limit);
            && SameKeys(leq, page, wanted)
            && ((forall i | 0 <= i < |sorted| :: sorted[i] == Sort(leq, parts[i])) ==> page == wanted)
  {
    assert |sorted| == |parts|;
    hide *;
    DistributedPageAnyTies(leq, ok, parts, sorted, offset, limit);
    if forall i | 0 <= i < |sorted| :: sorted[i] == Sort(leq, parts[i]) {
      CutOfSorts(leq, parts, sorted, offset + limit);
      DistributedPage(leq, ok, parts, offset, limit);
    }
  }

  /** As many rows as there are from the offset on, up to the limit, row by row with their keys. */
  ghost predicate KeysFrom<T>(leq: Order<T>, page: seq<T>, whole: seq<T>, offset: nat, limit: nat) {
    && |page| == (if offset >= |whole| then 0 else Min(limit, |whole| - offset))
    && forall i | 0 <= i < |page| :: leq(page[i], whole[offset + i]) && leq(whole[offset + i], page[i])
  }

  /** With any listing of all rows in order: how long the page is, and which keys it has. */
  lemma MergedPageMeans<T(!new)>(leq: Order<T>, ok: T -> bool, parts: seq<seq<T>>, sorted: seq<seq<T>>, whole: seq<T>, offset: nat, limit: nat)
    requires PreorderOn(leq, ok) && All(ok, Concat(parts)) && Ordered(leq, parts, sorted)
    requires Sorted(leq, whole) && multiset(whole) == multiset(Concat(parts))
    ensures KeysFrom(leq, Page(Sort(leq, Concat(Cut(sorted, offset + limit))), offset, limit), whole, offset, limit)
  {
    InsertAllInOrder(leq, whole, 0);
    assert whole[..0] == [] && whole[0..] == whole;
    assert Sort(leq, whole) == whole;
    MergedPage(leq, ok, parts, sorted, offset, limit);
    hide *;
    AllPermuted(ok, Concat(parts), whole);
    KeysOfWhole(leq, ok, parts, sorted, whole, offset, limit);
  }

  lemma KeysOfWhole<T(!new)>(leq: Order<T>, ok: T -> bool, parts: seq<seq<T>>, sorted: seq<seq<T>>, whole: seq<T>, offset: nat, limit: nat)
    requires PreorderOn(leq, ok) && All(ok, Concat(parts)) && Ordered(leq, parts, sorted)
    requires Sort(leq, whole) == whole && multiset(whole) == multiset(Concat(parts))
    ensures KeysFrom(leq, Page(Sort(leq, Concat(Cut(sorted, offset + limit))), offset, limit), whole, offset, limit)
  {
    hide *;
    OrderedParts(leq, parts, sorted, offset + limit);
    AllPermuted(ok, Concat(parts), Concat(sorted));
    KeysOfSorted(leq, ok, sorted, whole, offset, limit);
  }

  lemma KeysOfSorted<T(!new)>(leq: Order<T>, ok: T -> bool, sorted: seq<seq<T>>, whole: seq<T>, offset: nat, limit: nat)
    requires PreorderOn(leq, ok) && All(ok, Concat(sorted)) && multiset(Concat(sorted)) == multiset(whole) && Sort(leq, whole) == whole
    ensures KeysFrom(leq, Page(Sort(leq, Concat(Fetched(leq, sorted, offset + limit))), offset, limit), whole, offset, limit)
  {
    hide *;
    DistributedPageKeys(leq, ok, sorted, whole, offset, limit);
    SameKeysAt(leq, Page(Sort(leq, Concat(Fetched(leq, sorted, offset + limit))), offset, limit), whole, offset, limit);
  }

  lemma SameKeysAt<T(!new)>(leq: Order<T>, page: seq<T>, whole: seq<T>, offset: nat, limit: nat)
    requires SameKeys(leq, page, Page(whole, offset, limit))
    ensures KeysFrom(leq, page, whole, offset, limit)
  {
    PageIs(whole, offset, limit);
  }

  lemma {:induction false} CutWithin<T(!new)>(parts: seq<seq<T>>, n: nat)
    ensures multiset(Concat(Cut(parts, n))) <= multiset(Concat(parts))
  {
    if parts != [] {
      var front, last := parts[..|parts| - 1], parts[|parts| - 1];
      CutWithin(front, n);
      assert Cut(parts, n)[..|Cut(parts, n)| - 1] == Cut(front, n);
      assert n <= |last| ==> last == last[..n] + last[n..];
    }
  }

  lemma PageWithin<T(!new)>(s: seq<T>, offset: nat, limit: nat)
    ensures multiset(Page(s, offset, limit)) <= multiset(s)
  {
    if offset < |s| {
      var tail := s[offset..];
      assert s == s[..offset] + tail;
      assert limit <= |tail| ==> tail == tail[..limit] + tail[limit..];
    }
  }

  /** A page holds rows of the shards only, and each as often as they do. */
  lemma PageOfSent<T(!new)>(leq: Order<T>, ok: T -> bool, parts: seq<seq<T>>, sorted: seq<seq<T>>, offset: nat, limit: nat)
    requires PreorderOn(leq, ok) && All(ok, Concat(parts)) && Ordered(leq, parts, sorted)
    ensures var page := Page(Sort(leq, Concat(Cut(sorted, offset + limit))), offset, limit);
            multiset(page) <= multiset(Concat(parts)) && All(ok, page)
  {
    assert |sorted| == |parts|;
    var sent := Concat(Cut(sorted, offset + limit));
    ConcatPermutes(parts, sorted);
    CutWithin(sorted, offset + limit);
    PageWithin(Sort(leq, sent), offset, limit);
    hide *;
    AllWithin(ok, Concat(parts), sent);
    SortSorts(leq, ok, sent);
    AllWithin(ok, Concat(parts), Page(Sort(leq, sent), offset, limit));
  }

  lemma AllWithin<T(!new)>(ok: T -> bool, xs: seq<T>, ys: seq<T>)
    requires All(ok, xs) && multiset(ys) <= multiset(xs)
    ensures All(ok, ys)
  {
    forall i | 0 <= i < |ys| ensures ok(ys[i]) {
      assert ys[i] in multiset(ys);
      assert ys[i] in multiset(xs);
    }
  }

  lemma KeysAsAsked(collate: Collation, keys: iset<Option<Value>>, path: string, ascending: bool, page: seq<Value>, whole: seq<Value>, offset: nat, limit: nat)
    requires Sortable(keys) && All(KeyIn(keys, path), page) && All(KeyIn(keys, path), whole)
    ensures Sorted(ByPath(collate, path, ascending), whole) <==> Sorted(Asked(collate, path, ascending), whole)
    ensures KeysFrom(ByPath(collate, path, ascending), page, whole, offset, limit) <==> KeysFrom(Asked(collate, path, ascending), page, whole, offset, limit)
  {
    var leq, asked := ByPath(collate, path, ascending), Asked(collate, path, ascending);
    forall l, r | KeyIn(keys, path)(l) && KeyIn(keys, path)(r) ensures leq(l, r) == asked(l, r) {
      OrderMeans(collate, keys, path, ascending, l, r);
    }
    hide ByPath, Asked, KeyIn, Sortable;
  }

  /**
   * The router's sorted find: gather what the shards sent, sort by the path, slice.  With sortable keys,
   * ascending or descending, and `whole` all rows in the order asked for: the answer has as many rows as
   * there are from the offset on, up to the limit, its row `i` has the key of row `offset + i`, and they
   * are rows of the shards.  It is that very row of the stable sort when every shard breaks ties as the
   * stable sort does.
   */
  method Find(collate: Collation, path: string, ascending: bool, ghost keys: iset<Option<Value>>, ghost parts: seq<seq<Value>>,
              ghost sorted: seq<seq<Value>>, ghost whole: seq<Value>, sent: seq<seq<Value>>, offset: nat, limit: nat)
    returns (page: seq<Value>)
    requires Sortable(keys) && All(KeyIn(keys, path), Concat(parts))
    requires Ordered(ByPath(collate, path, ascending), parts, sorted) && sent == Cut(sorted, offset + limit)
    requires Sorted(Asked(collate, path, ascending), whole) && multiset(whole) == multiset(Concat(parts))
    ensures KeysFrom(Asked(collate, path, ascending), page, whole, offset, limit) && multiset(page) <= multiset(Concat(parts))
    ensures var leq := ByPath(collate, path, ascending);
            (forall i | 0 <= i < |sorted| :: sorted[i] == Sort(leq, parts[i])) ==>
              page == Page(Sort(leq, Concat(parts)), offset, limit)
  {
    var all := Gather(sent);
    ghost var leq, ok := ByPath(collate, path, ascending), KeyIn(keys, path);
    RowsOrdered(collate, keys, path, ascending);
    hide *;
    page := Page(Sort(ByPath(collate, path, ascending), all), offset, limit);
    AllPermuted(ok, Concat(parts), whole);
    PageOfSent(leq, ok, parts, sorted, offset, limit);
    KeysAsAsked(collate, keys, path, ascending, page, whole, offset, limit);
    MergedPage(leq, ok, parts, sorted, offset, limit);
    MergedPageMeans(leq, ok, parts, sorted, whole, offset, limit);
  }

  method Gather(sent: seq<seq<Value>>) returns (all: seq<Value>)
    ensures all == Concat(sent)
  {
    all := [];
    for i := 0 to |sent|
      invariant all == Concat(sent[..i])
    {
      assert sent[..i + 1][..i] == sent[..i];
      all := all + sent[i];
    }
    assert sent[..|sent|] == sent;
  }

  // Several sort keys.

  type Comparator<!T> = (T, T) -> int

  /** The first key that tells two rows apart decides. */
  function Lexical<T>(keys: seq<Comparator<T>>, a: T, b: T): int {
    if keys == [] then 0
    else
      var first := keys[0](a, b);
      if first != 0 then first else Lexical(keys[1..], a, b)
  }

  ghost predicate Consistent<T(!new)>(compare: Comparator<T>, ok: T -> bool) {
    && (forall a, b | ok(a) && ok(b) :: compare(a, b) < 0 <==> compare(b, a) > 0)
    && (forall a, b, c | ok(a) && ok(b) && ok(c) && compare(a, b) <= 0 && compare(b, c) <= 0 :: compare(a, c) <= 0)
  }

  function LexicalOrder<T>(keys: seq<Comparator<T>>): Order<T> {
    (a, b) => Lexical(keys, a, b) <= 0
  }

  lemma {:induction false} LexicalConsistent<T(!new)>(keys: seq<Comparator<T>>, ok: T -> bool, a: T, b: T, c: T)
    requires forall i | 0 <= i < |keys| :: Consistent(keys[i], ok)
    requires ok(a) && ok(b) && ok(c)
    ensures Lexical(keys, a, b) < 0 <==> Lexical(keys, b, a) > 0
    ensures Lexical(keys, a, b) <= 0 && Lexical(keys, b, c) <= 0 ==> Lexical(keys, a, c) <= 0
  {
    if keys != [] {
      var first := keys[0];
      assert Consistent(first, ok);
      LexicalConsistent(keys[1..], ok, a, b, c);
      assert first(a, b) < 0 <==> first(b, a) > 0;
      assert first(b, c) < 0 <==> first(c, b) > 0;
      assert first(a, c) < 0 <==> first(c, a) > 0;
      assert first(c, a) <= 0 && first(a, b) <= 0 ==> first(c, b) <= 0;
      assert first(b, c) <= 0 && first(c, a) <= 0 ==> first(b, a) <= 0;
    }
  }

  /** Consistent keys make a consistent order, however many there are. */
  lemma LexicalOrdered<T(!new)>(keys: seq<Comparator<T>>, ok: T -> bool)
    requires forall i | 0 <= i < |keys| :: Consistent(keys[i], ok)
    ensures PreorderOn(LexicalOrder(keys), ok)
  {
    var leq := LexicalOrder(keys);
    forall a, b | ok(a) && ok(b) ensures leq(a, b) || leq(b, a) {
      LexicalConsistent(keys, ok, a, b, b);
    }
    forall a, b, c | ok(a) && ok(b) && ok(c) && leq(a, b) && leq(b, c) ensures leq(a, c) {
      LexicalConsistent(keys, ok, a, b, c);
    }
  }
}
