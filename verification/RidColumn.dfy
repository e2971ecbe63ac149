/**
 * The typed column of one path (src/store.js, class TypedRidColumn): numbers, booleans, coded
 * strings and nulls in growable arrays, everything else in an overflow map, with running totals.
 *
 * The value functions below say what each operation does to the arrays; the class is proved against
 * them, and they are proved to implement a plain map from row to value.
 */
module RidColumns {
  import opened Wrappers
  import opened Pools

  datatype State = Absent | NullState | Scalar(value: Value) | NonScalar(other: Value)

  predicate ScalarValue(v: Value) {
    v.Num? || v.Bool? || v.Str?
  }

  predicate ValidState(s: State) {
    match s
    case Scalar(v) => ScalarValue(v)
    case NonScalar(v) => v.Arr? || v.Obj?
    case _ => true
  }

  // The cells.

  datatype Cells = Cells(
    numberValues: seq<int>, numberPresent: seq<bool>, booleanValues: seq<bool>, booleanPresent: seq<bool>,
    stringCodes: seq<nat>, nulls: seq<bool>, pool: Pool<string>, overflow: map<nat, Value>,
    numberSum: int, numberCount: int, scalarCount: int, nullCount: int)

  const NO_CELLS := Cells([], [], [], [], [], [], Pool([], map[], [], []), map[], 0, 0, 0, 0)

  predicate SameLengths(c: Cells) {
    |c.numberPresent| == |c.booleanValues| == |c.booleanPresent| == |c.stringCodes| == |c.nulls| == |c.numberValues|
  }

  function Total(s: seq<int>): int {
    if s == [] then 0 else Total(s[..|s| - 1]) + s[|s| - 1]
  }

  function Trues(s: seq<bool>): nat {
    if s == [] then 0 else Trues(s[..|s| - 1]) + (if s[|s| - 1] then 1 else 0)
  }

  function Coded(s: seq<nat>): nat {
    if s == [] then 0 else Coded(s[..|s| - 1]) + (if s[|s| - 1] != 0 then 1 else 0)
  }

  lemma {:induction false} TotalUpdate(s: seq<int>, r: nat, x: int)
    requires r < |s|
    ensures Total(s[r := x]) == Total(s) - s[r] + x
  {
    var n := |s| - 1;
    if r < n {
      assert s[r := x][..n] == s[..n][r := x];
      TotalUpdate(s[..n], r, x);
    } else {
      assert s[r := x][..n] == s[..n];
    }
  }

  lemma {:induction false} TruesUpdate(s: seq<bool>, r: nat, x: bool)
    requires r < |s|
    ensures Trues(s[r := x]) == Trues(s) - (if s[r] then 1 else 0) + (if x then 1 else 0)
  {
    var n := |s| - 1;
    if r < n {
      assert s[r := x][..n] == s[..n][r := x];
      TruesUpdate(s[..n], r, x);
    } else {
      assert s[r := x][..n] == s[..n];
    }
  }

  lemma {:induction false} CodedUpdate(s: seq<nat>, r: nat, x: nat)
    requires r < |s|
    ensures Coded(s[r := x]) == Coded(s) - (if s[r] != 0 then 1 else 0) + (if x != 0 then 1 else 0)
  {
    var n := |s| - 1;
    if r < n {
      assert s[r := x][..n] == s[..n][r := x];
      CodedUpdate(s[..n], r, x);
    } else {
      assert s[r := x][..n] == s[..n];
    }
  }

  /** At most one kind of value in a row; absent numbers are zero. */
  predicate CellOk(c: Cells, r: nat)
    requires SameLengths(c)
  {
    r < |c.numberValues| ==>
      && (!c.numberPresent[r] ==> c.numberValues[r] == 0)
      && (c.numberPresent[r] ==> !c.booleanPresent[r])
      && (c.numberPresent[r] || c.booleanPresent[r] ==> c.stringCodes[r] == 0)
      && (c.numberPresent[r] || c.booleanPresent[r] || c.stringCodes[r] != 0 ==> !c.nulls[r])
      && (c.numberPresent[r] || c.booleanPresent[r] || c.stringCodes[r] != 0 || c.nulls[r] ==> r !in c.overflow)
  }

  predicate OverflowOk(overflow: map<nat, Value>, n: nat) {
    forall r | r in overflow :: r < n && (overflow[r].Arr? || overflow[r].Obj?)
  }

  predicate TotalsOk(c: Cells) {
    && c.numberSum == Total(c.numberValues)
    && c.numberCount == Trues(c.numberPresent)
    && c.scalarCount == Trues(c.numberPresent) + Trues(c.booleanPresent) + Coded(c.stringCodes)
    && c.nullCount == Trues(c.nulls)
  }

  ghost predicate CellsValid(c: Cells) {
    && SameLengths(c)
    && PoolValid(c.pool, c.stringCodes)
    && TotalsOk(c)
    && (forall r {:trigger CellOk(c, r)} :: CellOk(c, r))
    && OverflowOk(c.overflow, |c.numberValues|)
  }

  /** What a row holds: the meaning of the column. */
  function At(c: Cells, r: nat): State
    requires SameLengths(c)
  {
    if r >= |c.numberValues| then (if r in c.overflow then NonScalar(c.overflow[r]) else Absent)
    else if c.numberPresent[r] then Scalar(Num(c.numberValues[r]))
    else if c.booleanPresent[r] then Scalar(Bool(c.booleanValues[r]))
    else if c.stringCodes[r] != 0 then Scalar(Str(CodeValue(c.pool, c.stringCodes[r]).GetOr("")))
    else if c.nulls[r] then NullState
    else if r in c.overflow then NonScalar(c.overflow[r])
    else Absent
  }

  // Clearing, one kind at a time.

  function ClearNumber(c: Cells, r: nat): Cells
    requires SameLengths(c)
  {
    if r < |c.numberPresent| && c.numberPresent[r] then
      c.(numberPresent := c.numberPresent[r := false], numberSum := c.numberSum - c.numberValues[r],
         numberValues := c.numberValues[r := 0], numberCount := c.numberCount - 1, scalarCount := c.scalarCount - 1)
    else c
  }

  function ClearBoolean(c: Cells, r: nat): Cells
    requires SameLengths(c)
  {
    if r < |c.booleanPresent| && c.booleanPresent[r] then
      c.(booleanPresent := c.booleanPresent[r := false], booleanValues := c.booleanValues[r := false], scalarCount := c.scalarCount - 1)
    else c
  }

  function ClearString(c: Cells, r: nat): Cells
    requires SameLengths(c) && |c.pool.refs| == |c.pool.values|
    requires r < |c.stringCodes| ==> c.stringCodes[r] <= |c.pool.values|
  {
    if r < |c.stringCodes| && c.stringCodes[r] != 0 then
      c.(pool := Release(c.pool, c.stringCodes[r]), stringCodes := c.stringCodes[r := 0], scalarCount := c.scalarCount - 1)
    else c
  }

  function ClearNull(c: Cells, r: nat): Cells
    requires SameLengths(c)
  {
    if r < |c.nulls| && c.nulls[r] then c.(nulls := c.nulls[r := false], nullCount := c.nullCount - 1) else c
  }

  ghost predicate Cleared(c: Cells, d: Cells, r: nat)
    requires SameLengths(c)
  {
    && CellsValid(d)
    && |d.numberValues| == |c.numberValues|
    && (forall k {:trigger At(d, k)} | k != r :: At(d, k) == At(c, k))
    && (At(d, r) == At(c, r) || At(d, r) == Absent)
  }

  lemma ClearNumberValid(c: Cells, r: nat)
    requires CellsValid(c)
    ensures Cleared(c, ClearNumber(c, r), r)
    ensures forall v | At(c, r) == Scalar(Num(v)) :: At(ClearNumber(c, r), r) == Absent
  {
    var d := ClearNumber(c, r);
    if r < |c.numberPresent| && c.numberPresent[r] {
      TotalUpdate(c.numberValues, r, 0);
      TruesUpdate(c.numberPresent, r, false);
    }
    forall k ensures CellOk(d, k) {
      assert CellOk(c, k);
    }
    assert CellOk(c, r);
    assert TotalsOk(d);
    assert PoolValid(d.pool, d.stringCodes);
  }

  lemma ClearBooleanValid(c: Cells, r: nat)
    requires CellsValid(c)
    ensures Cleared(c, ClearBoolean(c, r), r)
    ensures forall v | At(c, r) == Scalar(Bool(v)) :: At(ClearBoolean(c, r), r) == Absent
  {
    var d := ClearBoolean(c, r);
    if r < |c.booleanPresent| && c.booleanPresent[r] {
      TruesUpdate(c.booleanPresent, r, false);
    }
    forall k ensures CellOk(d, k) {
      assert CellOk(c, k);
    }
    assert CellOk(c, r);
    assert TotalsOk(d);
    assert PoolValid(d.pool, d.stringCodes);
  }

  lemma ClearStringAt(c: Cells, r: nat, k: nat)
    requires CellsValid(c) && r < |c.stringCodes| && c.stringCodes[r] != 0 && k != r
    ensures c.stringCodes[r] <= |c.pool.values|
    ensures At(ClearString(c, r), k) == At(c, k)
  {
    ReleaseValid(c.pool, c.stringCodes, r);
    var pool := Release(c.pool, c.stringCodes[r]);
    assert k < |c.stringCodes| && c.stringCodes[k] != 0 ==> CodeValue(pool, c.stringCodes[k]) == CodeValue(c.pool, c.stringCodes[k]);
  }

  lemma ClearStringCells(c: Cells, r: nat)
    requires CellsValid(c) && r < |c.stringCodes| && c.stringCodes[r] != 0
    ensures c.stringCodes[r] <= |c.pool.values| && CellsValid(ClearString(c, r))
  {
    ReleaseValid(c.pool, c.stringCodes, r);
    CodedUpdate(c.stringCodes, r, 0);
    var d := ClearString(c, r);
    assert PoolValid(d.pool, d.stringCodes);
    forall k ensures CellOk(d, k) {
      assert CellOk(c, k);
    }
  }

  lemma ClearStringValid(c: Cells, r: nat)
    requires CellsValid(c)
    ensures Cleared(c, ClearString(c, r), r)
    ensures forall v | At(c, r) == Scalar(Str(v)) :: At(ClearString(c, r), r) == Absent
  {
    assert CellOk(c, r);
    if r < |c.stringCodes| && c.stringCodes[r] != 0 {
      ClearStringCells(c, r);
      var d := ClearString(c, r);
      forall k: nat | k != r ensures At(d, k) == At(c, k) {
        ClearStringAt(c, r, k);
      }
    }
  }

  lemma ClearNullValid(c: Cells, r: nat)
    requires CellsValid(c)
    ensures Cleared(c, ClearNull(c, r), r)
    ensures At(c, r) == NullState ==> At(ClearNull(c, r), r) == Absent
  {
    var d := ClearNull(c, r);
    if r < |c.nulls| && c.nulls[r] {
      TruesUpdate(c.nulls, r, false);
    }
    forall k ensures CellOk(d, k) {
      assert CellOk(c, k);
    }
    assert CellOk(c, r);
    assert TotalsOk(d);
    assert PoolValid(d.pool, d.stringCodes);
  }

  lemma ClearOverflowValid(c: Cells, r: nat)
    requires CellsValid(c)
    ensures Cleared(c, c.(overflow := c.overflow - {r}), r)
    ensures At(c, r).NonScalar? ==> At(c.(overflow := c.overflow - {r}), r) == Absent
  {
    var d := c.(overflow := c.overflow - {r});
    forall k ensures CellOk(d, k) {
      assert CellOk(c, k);
    }
    assert TotalsOk(d);
    assert PoolValid(d.pool, d.stringCodes);
  }

  function ClearRid(c: Cells, r: nat): Cells
    requires CellsValid(c)
  {
    var c1 := ClearNumber(c, r);
    var c2 := ClearBoolean(c1, r);
    assert c2.stringCodes == c.stringCodes && c2.pool == c.pool;
    var c3 := ClearString(c2, r);
    var c4 := ClearNull(c3, r);
    c4.(overflow := c4.overflow - {r})
  }

  lemma ClearRidValid(c: Cells, r: nat)
    requires CellsValid(c)
    ensures Cleared(c, ClearRid(c, r), r) && At(ClearRid(c, r), r) == Absent
  {
    var c1 := ClearNumber(c, r);
    ClearNumberValid(c, r);
    var c2 := ClearBoolean(c1, r);
    ClearBooleanValid(c1, r);
    var c3 := ClearString(c2, r);
    ClearStringValid(c2, r);
    var c4 := ClearNull(c3, r);
    ClearNullValid(c3, r);
    ClearOverflowValid(c4, r);
    var d := c4.(overflow := c4.overflow - {r});
    assert At(d, r) == Absent;
    forall k: nat | k != r ensures At(d, k) == At(c, k) {
      assert At(d, k) == At(c4, k) == At(c3, k) == At(c2, k) == At(c1, k) == At(c, k);
    }
  }

  // Growing.

  function Zeros(n: nat): (s: seq<nat>)
    ensures |s| == n && forall i | 0 <= i < n :: s[i] == 0
  {
    if n == 0 then [] else Zeros(n - 1) + [0]
  }

  function IntZeros(n: nat): (s: seq<int>)
    ensures |s| == n && forall i | 0 <= i < n :: s[i] == 0
  {
    if n == 0 then [] else IntZeros(n - 1) + [0]
  }

  function Falses(n: nat): (s: seq<bool>)
    ensures |s| == n && forall i | 0 <= i < n :: !s[i]
  {
    if n == 0 then [] else Falses(n - 1) + [false]
  }

  lemma {:induction false} PadTotal(numbers: seq<int>, n: nat)
    ensures Total(numbers + IntZeros(n)) == Total(numbers)
  {
    if n == 0 {
      assert numbers + [] == numbers;
    } else {
      PadTotal(numbers, n - 1);
      assert (numbers + IntZeros(n))[..|numbers| + n - 1] == numbers + IntZeros(n - 1);
    }
  }

  lemma {:induction false} PadTrues(flags: seq<bool>, n: nat)
    ensures Trues(flags + Falses(n)) == Trues(flags)
  {
    if n == 0 {
      assert flags + [] == flags;
    } else {
      PadTrues(flags, n - 1);
      assert (flags + Falses(n))[..|flags| + n - 1] == flags + Falses(n - 1);
    }
  }

  lemma {:induction false} PadCodes(codes: seq<nat>, n: nat, c: nat)
    ensures Coded(codes + Zeros(n)) == Coded(codes)
    ensures c != 0 ==> Uses(codes + Zeros(n), c) == Uses(codes, c)
  {
    if n == 0 {
      assert codes + [] == codes;
    } else {
      PadCodes(codes, n - 1, c);
      assert (codes + Zeros(n))[..|codes| + n - 1] == codes + Zeros(n - 1);
    }
  }

  /** The next capacity: doubled until it holds the row. */
  function Capacity(next: nat, r: nat): (n: nat)
    requires next > 0
    ensures n > r && n >= next
    decreases r - next
  {
    if next > r then next else Capacity(2 * next, r)
  }

  function Ensure(c: Cells, r: nat): Cells
    requires SameLengths(c)
  {
    var len := |c.numberValues|;
    if r < len then c
    else
      var n := Capacity(if len == 0 then 1024 else len, r) - len;
      c.(numberValues := c.numberValues + IntZeros(n), numberPresent := c.numberPresent + Falses(n),
         booleanValues := c.booleanValues + Falses(n), booleanPresent := c.booleanPresent + Falses(n),
         stringCodes := c.stringCodes + Zeros(n), nulls := c.nulls + Falses(n))
  }

  lemma PadPool(p: Pool<string>, codes: seq<nat>, n: nat)
    requires PoolValid(p, codes)
    ensures PoolValid(p, codes + Zeros(n))
  {
    forall c ensures CodeOk(p, codes + Zeros(n), c) {
      PadCodes(codes, n, c);
      assert CodeOk(p, codes, c);
    }
  }

  lemma EnsureTotals(c: Cells, r: nat)
    requires SameLengths(c) && TotalsOk(c)
    ensures TotalsOk(Ensure(c, r)) && SameLengths(Ensure(c, r)) && r < |Ensure(c, r).numberValues|
  {
    var len := |c.numberValues|;
    if r >= len {
      var n := Capacity(if len == 0 then 1024 else len, r) - len;
      PadTotal(c.numberValues, n);
      PadTrues(c.numberPresent, n);
      PadTrues(c.booleanPresent, n);
      PadTrues(c.nulls, n);
      PadCodes(c.stringCodes, n, 0);
    }
  }

  lemma EnsureAt(c: Cells, r: nat, k: nat)
    requires CellsValid(c)
    ensures SameLengths(Ensure(c, r)) && CellOk(Ensure(c, r), k) && At(Ensure(c, r), k) == At(c, k)
  {
    assert CellOk(c, k);
  }

  lemma EnsureValid(c: Cells, r: nat)
    requires CellsValid(c)
    ensures CellsValid(Ensure(c, r)) && r < |Ensure(c, r).numberValues|
    ensures forall k {:trigger At(Ensure(c, r), k)} :: At(Ensure(c, r), k) == At(c, k)
  {
    EnsureTotals(c, r);
    var len := |c.numberValues|;
    if r >= len {
      PadPool(c.pool, c.stringCodes, Capacity(if len == 0 then 1024 else len, r) - len);
      forall k: nat ensures CellOk(Ensure(c, r), k) && At(Ensure(c, r), k) == At(c, k) {
        EnsureAt(c, r, k);
      }
      hide CellOk, At;
    }
  }

  // Setting.

  function SetScalar(c: Cells, r: nat, v: Value): Cells
    requires CellsValid(c) && r < |c.numberValues|
  {
    match v
    case Num(n) =>
      c.(numberValues := c.numberValues[r := n], numberPresent := c.numberPresent[r := true],
         numberSum := c.numberSum + n, numberCount := c.numberCount + 1, scalarCount := c.scalarCount + 1)
    case Bool(b) =>
      c.(booleanValues := c.booleanValues[r := b], booleanPresent := c.booleanPresent[r := true], scalarCount := c.scalarCount + 1)
    case Str(s) =>
      var (pool, code) := Acquire(c.pool, s);
      c.(pool := pool, stringCodes := c.stringCodes[r := code], scalarCount := c.scalarCount + 1)
    case _ => c
  }

  function SetState(c: Cells, r: nat, s: State): Cells
    requires CellsValid(c) && r < |c.numberValues|
  {
    match s
    case Absent => c
    case NullState => c.(nulls := c.nulls[r := true], nullCount := c.nullCount + 1)
    case Scalar(v) => SetScalar(c, r, v)
    case NonScalar(v) => c.(overflow := c.overflow[r := v])
  }

  lemma SetNumberValid(c: Cells, r: nat, n: int)
    requires CellsValid(c) && r < |c.numberValues| && At(c, r) == Absent
    ensures CellsValid(SetScalar(c, r, Num(n)))
  {
    var d := SetScalar(c, r, Num(n));
    assert CellOk(c, r);
    TotalUpdate(c.numberValues, r, n);
    TruesUpdate(c.numberPresent, r, true);
    assert PoolValid(d.pool, d.stringCodes);
    forall k ensures CellOk(d, k) {
      assert CellOk(c, k);
    }
  }

  lemma SetBooleanValid(c: Cells, r: nat, b: bool)
    requires CellsValid(c) && r < |c.numberValues| && At(c, r) == Absent
    ensures CellsValid(SetScalar(c, r, Bool(b)))
  {
    var d := SetScalar(c, r, Bool(b));
    assert CellOk(c, r);
    TruesUpdate(c.booleanPresent, r, true);
    assert PoolValid(d.pool, d.stringCodes);
    forall k ensures CellOk(d, k) {
      assert CellOk(c, k);
    }
  }

  lemma SetStringValid(c: Cells, r: nat, s: string)
    requires CellsValid(c) && r < |c.numberValues| && At(c, r) == Absent
    ensures CellsValid(SetScalar(c, r, Str(s)))
  {
    var d := SetScalar(c, r, Str(s));
    AcquireValid(c.pool, c.stringCodes, r, s);
    assert PoolValid(d.pool, d.stringCodes);
    CodedUpdate(c.stringCodes, r, d.stringCodes[r]);
    forall k ensures CellOk(d, k) {
      assert CellOk(c, k);
    }
  }

  lemma SetStringAt(c: Cells, r: nat, s: string, k: nat)
    requires CellsValid(c) && r < |c.numberValues| && At(c, r) == Absent
    ensures At(SetScalar(c, r, Str(s)), k) == if k == r then Scalar(Str(s)) else At(c, k)
  {
    AcquireValid(c.pool, c.stringCodes, r, s);
    var (q, code) := Acquire(c.pool, s);
    if k != r && k < |c.stringCodes| && c.stringCodes[k] != 0 {
      LiveCode(c.pool, c.stringCodes, k);
      AcquireCode(c.pool, c.stringCodes, s, c.stringCodes[k]);
      assert CodeOk(c.pool, c.stringCodes, c.stringCodes[k]);
    }
  }

  lemma SetOtherValid(c: Cells, r: nat, s: State)
    requires CellsValid(c) && r < |c.numberValues| && At(c, r) == Absent && !s.Scalar? && ValidState(s)
    ensures CellsValid(SetState(c, r, s))
    ensures forall k {:trigger At(SetState(c, r, s), k)} :: At(SetState(c, r, s), k) == if k == r then s else At(c, k)
  {
    var d := SetState(c, r, s);
    assert CellOk(c, r);
    if s.NullState? {
      TruesUpdate(c.nulls, r, true);
    }
    assert PoolValid(d.pool, d.stringCodes);
    forall k ensures CellOk(d, k) {
      assert CellOk(c, k);
    }
  }

  lemma SetScalarValid(c: Cells, r: nat, v: Value)
    requires CellsValid(c) && r < |c.numberValues| && At(c, r) == Absent && ScalarValue(v)
    ensures CellsValid(SetScalar(c, r, v))
  {
    match v
    case Num(n) => SetNumberValid(c, r, n);
    case Bool(b) => SetBooleanValid(c, r, b);
    case Str(t) => SetStringValid(c, r, t);
  }

  lemma SetScalarAt(c: Cells, r: nat, v: Value, k: nat)
    requires CellsValid(c) && r < |c.numberValues| && At(c, r) == Absent && ScalarValue(v)
    ensures SameLengths(SetScalar(c, r, v))
    ensures At(SetScalar(c, r, v), k) == if k == r then Scalar(v) else At(c, k)
  {
    assert CellOk(c, r);
    if v.Str? {
      SetStringAt(c, r, v.s, k);
    }
  }

  lemma SetStateValid(c: Cells, r: nat, s: State)
    requires CellsValid(c) && r < |c.numberValues| && At(c, r) == Absent && ValidState(s)
    ensures CellsValid(SetState(c, r, s))
    ensures forall k {:trigger At(SetState(c, r, s), k)} :: At(SetState(c, r, s), k) == if k == r then s else At(c, k)
  {
    if s.Scalar? {
      SetScalarValid(c, r, s.value);
      forall k: nat ensures At(SetState(c, r, s), k) == if k == r then s else At(c, k) {
        SetScalarAt(c, r, s.value, k);
      }
    } else {
      SetOtherValid(c, r, s);
    }
  }

  // The whole update.

  function ResetIfEmpty(c: Cells): Cells {
    if c.scalarCount != 0 || c.nullCount != 0 || c.overflow != map[] then c else NO_CELLS
  }

  lemma {:induction false} NoTrues(s: seq<bool>, i: nat)
    requires Trues(s) == 0 && i < |s|
    ensures !s[i]
  {
    if i < |s| - 1 {
      NoTrues(s[..|s| - 1], i);
    }
  }

  lemma {:induction false} NoCodes(s: seq<nat>, i: nat)
    requires Coded(s) == 0 && i < |s|
    ensures s[i] == 0
  {
    if i < |s| - 1 {
      NoCodes(s[..|s| - 1], i);
    }
  }

  lemma NoCellsValid()
    ensures CellsValid(NO_CELLS)
  {
  }

  lemma EmptyAt(c: Cells, k: nat)
    requires CellsValid(c) && c.scalarCount == 0 && c.nullCount == 0 && c.overflow == map[]
    ensures At(c, k) == Absent
  {
    if k < |c.numberValues| {
      NoTrues(c.numberPresent, k);
      NoTrues(c.booleanPresent, k);
      NoCodes(c.stringCodes, k);
      NoTrues(c.nulls, k);
    }
  }

  lemma NoCellsAt(k: nat)
    ensures SameLengths(NO_CELLS) && At(NO_CELLS, k) == Absent
  {
  }

  lemma ResetAt(c: Cells, k: nat)
    requires CellsValid(c)
    ensures SameLengths(ResetIfEmpty(c)) && At(ResetIfEmpty(c), k) == At(c, k)
  {
    if c.scalarCount == 0 && c.nullCount == 0 && c.overflow == map[] {
      EmptyAt(c, k);
      NoCellsAt(k);
    }
  }

  lemma ResetValid(c: Cells)
    requires CellsValid(c)
    ensures CellsValid(ResetIfEmpty(c))
  {
    if c.scalarCount == 0 && c.nullCount == 0 && c.overflow == map[] {
      NoCellsValid();
      assert ResetIfEmpty(c) == NO_CELLS;
    } else {
      assert ResetIfEmpty(c) == c;
    }
  }

  function ApplyState(c: Cells, r: nat, s: State): Cells
    requires CellsValid(c)
  {
    ClearRidValid(c, r);
    var cleared := ClearRid(c, r);
    EnsureValid(cleared, r);
    if s.Absent? then ResetIfEmpty(cleared) else SetState(Ensure(cleared, r), r, s)
  }

  /** An update writes one row of the map and leaves every other row alone. */
  lemma ApplyStateMeans(c: Cells, r: nat, s: State)
    requires CellsValid(c) && ValidState(s)
    ensures CellsValid(ApplyState(c, r, s))
    ensures forall k {:trigger At(ApplyState(c, r, s), k)} :: At(ApplyState(c, r, s), k) == if k == r then s else At(c, k)
  {
    var cleared := ClearRid(c, r);
    ClearRidValid(c, r);
    if s.Absent? {
      ResetValid(cleared);
      forall k: nat ensures At(ApplyState(c, r, s), k) == if k == r then s else At(c, k) {
        ResetAt(cleared, k);
      }
    } else {
      EnsureValid(cleared, r);
      SetStateValid(Ensure(cleared, r), r, s);
      forall k: nat ensures At(ApplyState(c, r, s), k) == if k == r then s else At(c, k) {
        assert At(Ensure(cleared, r), k) == At(cleared, k);
      }
    }
  }

  // The running totals against the map they summarise.

  datatype Figure = Sum | Numbers | Scalars | Nulls

  function Weight(f: Figure, s: State): int {
    match f
    case Sum => if s.Scalar? && s.value.Num? then s.value.n else 0
    case Numbers => if s.Scalar? && s.value.Num? then 1 else 0
    case Scalars => if s.Scalar? then 1 else 0
    case Nulls => if s.NullState? then 1 else 0
  }

  /** A figure recomputed from what the first `n` rows hold. */
  function Recount(f: Figure, c: Cells, n: nat): int
    requires SameLengths(c)
  {
    if n == 0 then 0 else Recount(f, c, n - 1) + Weight(f, At(c, n - 1))
  }

  lemma RowWeights(c: Cells, r: nat)
    requires CellsValid(c) && r < |c.numberValues|
    ensures Weight(Sum, At(c, r)) == c.numberValues[r]
    ensures Weight(Numbers, At(c, r)) == if c.numberPresent[r] then 1 else 0
    ensures Weight(Scalars, At(c, r)) ==
            (if c.numberPresent[r] then 1 else 0) + (if c.booleanPresent[r] then 1 else 0) + (if c.stringCodes[r] != 0 then 1 else 0)
    ensures Weight(Nulls, At(c, r)) == if c.nulls[r] then 1 else 0
  {
    assert CellOk(c, r);
  }

  lemma {:induction false} RecountPrefix(c: Cells, n: nat)
    requires CellsValid(c) && n <= |c.numberValues|
    ensures Recount(Sum, c, n) == Total(c.numberValues[..n])
    ensures Recount(Numbers, c, n) == Trues(c.numberPresent[..n])
    ensures Recount(Scalars, c, n) == Trues(c.numberPresent[..n]) + Trues(c.booleanPresent[..n]) + Coded(c.stringCodes[..n])
    ensures Recount(Nulls, c, n) == Trues(c.nulls[..n])
  {
    if n != 0 {
      RecountPrefix(c, n - 1);
      RowWeights(c, n - 1);
      hide Weight, At, CellsValid;
      assert c.numberValues[..n][..n - 1] == c.numberValues[..n - 1];
      assert c.numberPresent[..n][..n - 1] == c.numberPresent[..n - 1];
      assert c.booleanPresent[..n][..n - 1] == c.booleanPresent[..n - 1];
      assert c.stringCodes[..n][..n - 1] == c.stringCodes[..n - 1];
      assert c.nulls[..n][..n - 1] == c.nulls[..n - 1];
    }
  }

  /** The four totals are exact, and no row beyond the capacity holds anything. */
  lemma TotalsExact(c: Cells)
    requires CellsValid(c)
    ensures var n := |c.numberValues|;
            && c.numberSum == Recount(Sum, c, n) && c.numberCount == Recount(Numbers, c, n)
            && c.scalarCount == Recount(Scalars, c, n) && c.nullCount == Recount(Nulls, c, n)
            && (forall r: nat | r >= n :: At(c, r) == Absent)
  {
    var n := |c.numberValues|;
    RecountPrefix(c, n);
    assert c.numberValues[..n] == c.numberValues && c.numberPresent[..n] == c.numberPresent;
    assert c.booleanPresent[..n] == c.booleanPresent && c.stringCodes[..n] == c.stringCodes && c.nulls[..n] == c.nulls;
  }

  // The column object.

  datatype Status = Ready | Building | Error

  /** Updates waiting for a build; the empty map stands for none. */
  predicate PendingValid(pending: map<nat, State>) {
    forall r | r in pending :: ValidState(pending[r])
  }

  /** The waiting updates except those of `left` lie over the base column. */
  ghost predicate Overlaid(base: Cells, waiting: map<nat, State>, left: set<nat>, now: Cells)
    requires SameLengths(base) && SameLengths(now)
  {
    forall k {:trigger At(now, k)} :: At(now, k) == if k in waiting && k !in left then waiting[k] else At(base, k)
  }

  lemma OverlayOne(base: Cells, waiting: map<nat, State>, left: set<nat>, now: Cells, rid: nat)
    requires SameLengths(base) && CellsValid(now) && PendingValid(waiting) && rid in waiting
    requires forall k {:trigger At(now, k)} | k != rid :: At(now, k) == if k in waiting && k !in left then waiting[k] else At(base, k)
    ensures CellsValid(ApplyState(now, rid, waiting[rid]))
    ensures rid !in left ==> Overlaid(base, waiting, left, ApplyState(now, rid, waiting[rid]))
  {
    ApplyStateMeans(now, rid, waiting[rid]);
  }

  method FreshCells() returns (c: Cells)
    ensures CellsValid(c)
    ensures forall k {:trigger At(c, k)} :: At(c, k) == Absent
  {
    NoCellsValid();
    c := NO_CELLS;
    hide CellsValid, At;
    forall k: nat ensures At(c, k) == Absent {
      NoCellsAt(k);
    }
  }

  class TypedRidColumn {
    var cells: Cells
    var pending: map<nat, State>
    var status: Status
    var buildId: nat

    ghost predicate Valid()
      reads this
    {
      && CellsValid(cells)
      && PendingValid(pending)
    }

    constructor ()
      ensures Valid() && status == Ready && pending == map[] && buildId == 0
      ensures forall k {:trigger At(cells, k)} :: At(cells, k) == Absent
    {
      var none := FreshCells();
      cells := none;
      pending, status, buildId := map[], Ready, 0;
    }

    method StartBuild() returns (id: nat)
      requires Valid()
      modifies `status, `pending, `buildId
      ensures Valid() && status == Building && pending == map[]
      ensures id == buildId == old(buildId) + 1
    {
      status, pending, buildId := Building, map[], buildId + 1;
      id := buildId;
    }

    method Fail(id: nat)
      requires Valid()
      modifies `status, `pending
      ensures Valid()
      ensures if id != buildId then status == old(status) && pending == old(pending) else status == Error && pending == map[]
    {
      if id != buildId {
        return;
      }
      status, pending := Error, map[];
    }

    /** While a build runs, updates wait; otherwise they apply at once. */
    method UpdateScalarState(rid: nat, state: State)
      requires Valid() && ValidState(state)
      modifies `cells, `pending
      ensures Valid()
      ensures if status.Building?
              then cells == old(cells) && pending == old(pending)[rid := state]
              else pending == old(pending) && forall k {:trigger At(cells, k)} :: At(cells, k) == if k == rid then state else At(old(cells), k)
    {
      if status.Building? {
        pending := pending[rid := state];
        return;
      }
      ApplyStateMeans(cells, rid, state);
      hide CellsValid, At, ValidState, ApplyState, SameLengths;
      cells := ApplyState(cells, rid, state);
    }

    method Remove(rid: nat)
      requires Valid()
      modifies `cells, `pending
      ensures Valid()
      ensures if status.Building?
              then cells == old(cells) && pending == old(pending)[rid := Absent]
              else pending == old(pending) && forall k {:trigger At(cells, k)} :: At(cells, k) == if k == rid then Absent else At(old(cells), k)
    {
      UpdateScalarState(rid, Absent);
    }

    /**
     * The newest build wins: its column takes the place of the old contents, and the updates that
     * arrived meanwhile are applied over it.  An outdated build changes nothing.
     */
    method Install(source: TypedRidColumn, id: nat) returns (installed: bool)
      requires Valid() && source.Valid() && source != this
      modifies `cells, `pending, `status
      ensures Valid()
      ensures installed <==> id == buildId
      ensures !installed ==> cells == old(cells) && status == old(status) && pending == old(pending)
      ensures installed ==>
                && status == Ready && pending == map[]
                && forall k {:trigger At(cells, k)} ::
                     At(cells, k) == if k in old(pending) then old(pending)[k] else At(source.cells, k)
    {
      if id != buildId {
        return false;
      }
      cells := source.cells;
      var waiting := pending;
      assert Overlaid(source.cells, waiting, waiting.Keys, cells);
      var left := waiting.Keys;
      while left != {}
        invariant left <= waiting.Keys
        invariant CellsValid(cells) && Overlaid(source.cells, waiting, left, cells)
        decreases left
      {
        var rid :| rid in left;
        OverlayOne(source.cells, waiting, left - {rid}, cells, rid);
        left := left - {rid};
        cells := ApplyState(cells, rid, waiting[rid]);
      }
      pending, status := map[], Ready;
      installed := true;
    }

    method ValueFor(rid: nat) returns (value: Option<Value>)
      requires Valid()
      ensures value == StateValue(At(cells, rid))
    {
      assert CellOk(cells, rid);
      if rid < |cells.numberPresent| && cells.numberPresent[rid] {
        return Some(Num(cells.numberValues[rid]));
      }
      if rid < |cells.booleanPresent| && cells.booleanPresent[rid] {
        return Some(Bool(cells.booleanValues[rid]));
      }
      var code := if rid < |cells.stringCodes| then cells.stringCodes[rid] else 0;
      if code != 0 {
        LiveCode(cells.pool, cells.stringCodes, rid);
        return Some(Str(cells.pool.values[code - 1].value));
      }
      if rid < |cells.nulls| && cells.nulls[rid] {
        return Some(Null);
      }
      value := if rid in cells.overflow then Some(cells.overflow[rid]) else None;
    }
  }

  function StateValue(s: State): Option<Value> {
    match s
    case Absent => None
    case NullState => Some(Null)
    case Scalar(v) => Some(v)
    case NonScalar(v) => Some(v)
  }

  /** The state a value is stored under; reading it back gives the value. */
  function ColumnState(v: Option<Value>): State {
    if v.None? then Absent
    else if v.value.Null? then NullState
    else if ScalarValue(v.value) then Scalar(v.value)
    else NonScalar(v.value)
  }

  /** Values and the states the column keeps them under determine each other. */
  lemma ColumnStateRoundTrip(v: Option<Value>, s: State)
    requires ValidState(s)
    ensures ValidState(ColumnState(v)) && StateValue(ColumnState(v)) == v
    ensures ColumnState(StateValue(s)) == s
  {
  }
}
