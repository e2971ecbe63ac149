/**
 * Reference-counted value codes, as the typed column uses them for strings (src/store.js,
 * TypedRidColumn) and the shape columns for whole values (src/shape.js, ValueColumn): codes count
 * from one, freed codes are used again, and equal values share a code.
 */
module Pools {
  import opened Wrappers

  datatype Pool<T(==)> = Pool(values: seq<Option<T>>, ids: map<T, nat>, refs: seq<nat>, free: seq<nat>)

  /** Codes in range: what makes the operations below well defined. */
  predicate PoolShape<T(==)>(p: Pool<T>) {
    && |p.refs| == |p.values|
    && (forall t | t in p.ids :: 1 <= p.ids[t] <= |p.values|)
    && (forall i | 0 <= i < |p.free| :: 1 <= p.free[i] <= |p.values|)
  }

  /** The code for a value: an existing one, a freed one, or a new one. */
  function Acquire<T(==)>(p: Pool<T>, s: T): (Pool<T>, nat)
    requires PoolShape(p)
  {
    if s in p.ids then
      var code := p.ids[s];
      (p.(refs := p.refs[code - 1 := p.refs[code - 1] + 1]), code)
    else if p.free != [] then
      var code := p.free[|p.free| - 1];
      (Pool(p.values[code - 1 := Some(s)], p.ids[s := code], p.refs[code - 1 := 1], p.free[..|p.free| - 1]), code)
    else
      (Pool(p.values + [Some(s)], p.ids[s := |p.values| + 1], p.refs + [1], p.free), |p.values| + 1)
  }

  function Release<T(==)>(p: Pool<T>, code: nat): Pool<T>
    requires |p.refs| == |p.values| && 1 <= code <= |p.values|
  {
    var left := if p.refs[code - 1] == 0 then 0 else p.refs[code - 1] - 1;
    if left != 0 then p.(refs := p.refs[code - 1 := left])
    else
      var s := p.values[code - 1];
      Pool(p.values[code - 1 := None],
           if s.Some? && s.value in p.ids && p.ids[s.value] == code then p.ids - {s.value} else p.ids,
           p.refs[code - 1 := 0], p.free + [code])
  }

  predicate Distinct(s: seq<nat>) {
    forall i, j | 0 <= i < j < |s| :: s[i] != s[j]
  }

  function Uses(codes: seq<nat>, c: nat): nat {
    if codes == [] then 0 else Uses(codes[..|codes| - 1], c) + (if codes[|codes| - 1] == c then 1 else 0)
  }

  lemma {:induction false} UsesUpdate(codes: seq<nat>, r: nat, x: nat, c: nat)
    requires r < |codes|
    ensures Uses(codes[r := x], c) == Uses(codes, c) - (if codes[r] == c then 1 else 0) + (if x == c then 1 else 0)
  {
    var n := |codes| - 1;
    if r < n {
      assert codes[r := x][..n] == codes[..n][r := x];
      UsesUpdate(codes[..n], r, x, c);
    } else {
      assert codes[r := x][..n] == codes[..n];
    }
  }

  lemma {:induction false} UsesPositive(codes: seq<nat>, c: nat)
    ensures Uses(codes, c) > 0 <==> c in codes
  {
    if codes != [] {
      UsesPositive(codes[..|codes| - 1], c);
      assert codes == codes[..|codes| - 1] + [codes[|codes| - 1]];
    }
  }

  /** A code is counted once per row that uses it, and is live, with its value, while it is used. */
  ghost predicate CodeOk<T(!new)>(p: Pool<T>, codes: seq<nat>, c: nat)
    requires |p.refs| == |p.values|
  {
    1 <= c <= |p.values| ==>
      && p.refs[c - 1] == Uses(codes, c)
      && (p.values[c - 1].Some? <==> p.refs[c - 1] > 0)
      && (p.values[c - 1].Some? ==> p.values[c - 1].value in p.ids && p.ids[p.values[c - 1].value] == c)
      && (c in p.free <==> p.refs[c - 1] == 0)
  }

  predicate IdOk<T(==)>(p: Pool<T>, s: T) {
    s in p.ids && 1 <= p.ids[s] <= |p.values| && p.values[p.ids[s] - 1] == Some(s)
  }

  ghost predicate PoolValid<T(!new)>(p: Pool<T>, codes: seq<nat>) {
    && PoolShape(p)
    && Distinct(p.free)
    && (forall i | 0 <= i < |codes| :: codes[i] <= |p.values|)
    && (forall c {:trigger CodeOk(p, codes, c)} :: CodeOk(p, codes, c))
    && (forall s {:trigger IdOk(p, s)} | s in p.ids :: IdOk(p, s))
  }

  /** The value of a code. */
  function CodeValue<T(==)>(p: Pool<T>, c: nat): Option<T> {
    if 1 <= c <= |p.values| then p.values[c - 1] else None
  }

  lemma LiveCode<T(!new)>(p: Pool<T>, codes: seq<nat>, i: nat)
    requires PoolValid(p, codes) && i < |codes| && codes[i] != 0
    ensures 1 <= codes[i] <= |p.values| && CodeValue(p, codes[i]).Some? && codes[i] !in p.free
  {
    UsesPositive(codes, codes[i]);
    assert CodeOk(p, codes, codes[i]);
  }

  lemma FreePopped(free: seq<nat>, code: nat)
    requires free != [] && Distinct(free) && code == free[|free| - 1]
    ensures Distinct(free[..|free| - 1])
    ensures forall c :: c in free[..|free| - 1] <==> c in free && c != code
  {
    assert free == free[..|free| - 1] + [code];
  }

  /** Giving row `r` the value `s`: its new code stands for `s`, every other row keeps its value. */
  lemma AcquireValid<T(!new)>(p: Pool<T>, codes: seq<nat>, r: nat, s: T)
    requires PoolValid(p, codes) && r < |codes| && codes[r] == 0
    ensures var (q, code) := Acquire(p, s);
            && PoolValid(q, codes[r := code])
            && code != 0 && CodeValue(q, code) == Some(s)
  {
    var (q, code) := Acquire(p, s);
    if s in p.ids {
      assert IdOk(p, s);
    }
    AcquireShape(p, codes, s);
    var codes' := codes[r := code];
    forall c ensures CodeOk(q, codes', c) {
      if c != 0 {
        UsesUpdate(codes, r, code, c);
        AcquireCode(p, codes, s, c);
        assert CodeOk(p, codes, c);
      }
    }
    forall t | t in q.ids ensures IdOk(q, t) {
      if t != s {
        assert IdOk(p, t);
        assert CodeOk(p, codes, p.ids[t]);
      }
    }
  }

  lemma AcquireShape<T(!new)>(p: Pool<T>, codes: seq<nat>, s: T)
    requires PoolValid(p, codes)
    ensures var (q, code) := Acquire(p, s);
            PoolShape(q) && Distinct(q.free) && |p.values| <= |q.values| && 1 <= code <= |q.values|
  {
    if s in p.ids {
      assert IdOk(p, s);
    } else if p.free != [] {
      FreePopped(p.free, p.free[|p.free| - 1]);
    }
  }

  lemma AcquireCode<T(!new)>(p: Pool<T>, codes: seq<nat>, s: T, c: nat)
    requires PoolValid(p, codes) && 1 <= c
    ensures var (q, code) := Acquire(p, s);
            c <= |q.values| ==>
              && q.refs[c - 1] == Uses(codes, c) + (if c == code then 1 else 0)
              && (if c == code then q.values[c - 1] == Some(s) else c <= |p.values| && q.values[c - 1] == p.values[c - 1])
              && (c in q.free <==> c in p.free && c != code)
              && (c != code && q.values[c - 1].Some? ==> q.values[c - 1].value != s)
  {
    assert CodeOk(p, codes, c);
    if s in p.ids {
      assert IdOk(p, s) && CodeOk(p, codes, p.ids[s]);
    } else if p.free != [] {
      var code := p.free[|p.free| - 1];
      FreePopped(p.free, code);
      assert CodeOk(p, codes, code);
    } else if c == |p.values| + 1 {
      UsesPositive(codes, c);
    }
  }

  lemma ReleaseValid<T(!new)>(p: Pool<T>, codes: seq<nat>, r: nat)
    requires PoolValid(p, codes) && r < |codes| && codes[r] != 0
    ensures 1 <= codes[r] <= |p.values|
    ensures PoolValid(Release(p, codes[r]), codes[r := 0])
    ensures forall i | 0 <= i < |codes| && i != r && codes[i] != 0 :: CodeValue(Release(p, codes[r]), codes[i]) == CodeValue(p, codes[i])
  {
    var code := codes[r];
    LiveCode(p, codes, r);
    var q := Release(p, code);
    assert CodeOk(p, codes, code);
    var codes' := codes[r := 0];
    forall c ensures CodeOk(q, codes', c) {
      UsesUpdate(codes, r, 0, c);
      assert CodeOk(p, codes, c);
    }
    forall t | t in q.ids ensures IdOk(q, t) {
      assert IdOk(p, t);
    }
    forall i | 0 <= i < |codes| && i != r && codes[i] != 0 ensures CodeValue(q, codes[i]) == CodeValue(p, codes[i]) {
      assert codes[r := 0][i] == codes[i];
      UsesPositive(codes[r := 0], codes[i]);
      UsesUpdate(codes, r, 0, codes[i]);
    }
  }
}
