/** Lamport stamps and the clock of one node (src/clock.js). */
module Clocks {
  import opened Wrappers

  type NodeId = string

  datatype Stamp = Stamp(c: nat, n: NodeId)

  /** JavaScript's `>` on strings: the first differing unit decides, a proper extension is greater. */
  predicate StringGt(a: string, b: string) {
    a != [] && (b == [] || (if a[0] != b[0] then a[0] > b[0] else StringGt(a[1..], b[1..])))
  }

  predicate StampGt(a: Stamp, b: Stamp) {
    if a.c != b.c then a.c > b.c else StringGt(a.n, b.n)
  }

  predicate StampGeq(a: Stamp, b: Stamp) {
    a == b || StampGt(a, b)
  }

  /** `gt` as written: a missing side counts as older on the right, and as newer on the left. */
  predicate Gt(a: Option<Stamp>, b: Option<Stamp>) {
    a.None? || b.None? || StampGt(a.value, b.value)
  }

  lemma {:induction false} StringGtTotal(a: string, b: string)
    ensures !StringGt(a, a)
    ensures StringGt(a, b) ==> !StringGt(b, a)
    ensures a == b || StringGt(a, b) || StringGt(b, a)
  {
    if a != [] && b != [] {
      StringGtTotal(a[1..], b[1..]);
      if a[0] == b[0] && a[1..] == b[1..] {
        assert a == [a[0]] + a[1..] && b == [b[0]] + b[1..];
      }
    } else if a != [] {
      StringGtTotal(a[1..], b);
    }
  }

  lemma {:induction false} StringGtTransitive(a: string, b: string, c: string)
    requires StringGt(a, b) && StringGt(b, c)
    ensures StringGt(a, c)
  {
    if c != [] && a[0] == b[0] == c[0] {
      StringGtTransitive(a[1..], b[1..], c[1..]);
    }
  }

  /** Stamps are strictly and totally ordered, so any two different stamps have a winner. */
  lemma StampOrder(a: Stamp, b: Stamp, c: Stamp)
    ensures !StampGt(a, a)
    ensures StampGt(a, b) ==> !StampGt(b, a)
    ensures a == b || StampGt(a, b) || StampGt(b, a)
    ensures StampGt(a, b) && StampGt(b, c) ==> StampGt(a, c)
  {
    StringGtTotal(a.n, b.n);
    StringGtTotal(a.n, a.n);
    if StringGt(a.n, b.n) && StringGt(b.n, c.n) {
      StringGtTransitive(a.n, b.n, c.n);
    }
  }

  lemma StampGeqTransitive(a: Stamp, b: Stamp, c: Stamp)
    requires StampGeq(a, b) && StampGeq(b, c)
    ensures StampGeq(a, c)
  {
    StampOrder(a, b, c);
  }

  lemma StampGeqAntisymmetric(a: Stamp, b: Stamp)
    requires StampGeq(a, b) && StampGeq(b, a)
    ensures a == b
  {
    StampOrder(a, b, a);
  }

  /** The clock object of one node: `c` only ever grows. */
  class LamportClock {
    var c: nat
    const n: NodeId

    constructor (n: NodeId)
      ensures this.n == n && c == 0
    {
      this.n := n;
      c := 0;
    }

    /** A fresh stamp beats every stamp whose counter the clock has seen. */
    method NextTs() returns (ts: Stamp)
      modifies this
      ensures ts == Stamp(c, n)
      ensures c == old(c) + 1
      ensures forall s: Stamp | s.c <= old(c) :: StampGt(ts, s)
    {
      c := c + 1;
      ts := Stamp(c, n);
    }

    method Touch(ts: Option<Stamp>)
      modifies this
      ensures c == if ts.Some? then Max(old(c), ts.value.c) else old(c)
      ensures ts.Some? ==> ts.value.c <= c
    {
      if ts.Some? && ts.value.c > c {
        c := ts.value.c;
      }
    }
  }
}
