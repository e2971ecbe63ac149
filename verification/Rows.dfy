/**
 * Whole-object last-write-wins rows (src/store.js, the row rules of Collection and Store.applyOps).
 *
 * The stored row carries two stamps.  Its meaning is one event, the newest write or delete; every
 * row rule is shown to be `Absorb` on that event, and absorbing is independent of order, repetition
 * and batching.
 */
module Rows {
  import opened Wrappers
  import opened Clocks

  datatype Key = Key(db: string, coll: string, id: string)

  datatype Kind = Touch | PutObj | DelObj

  datatype Op = Op(kind: Kind, key: Key, shard: string, value: Value, ts: Stamp, from: NodeId, seqNo: nat)

  datatype Row = Row(ts: Option<Stamp>, deleted: Option<Stamp>, shard: string, value: Value)

  datatype SnapshotRow = SnapshotRow(ts: Option<Stamp>, deleted: Option<Stamp>, shard: string, value: Value)

  /** A write (`Some(value)`) or a delete (`None`) at a stamp. */
  datatype Event = Event(ts: Stamp, content: Option<Value>)

  const FRESH := Row(None, None, "", EMPTY_OBJECT)

  predicate ValidRow(m: Row) {
    m.deleted.Some? && m.ts.Some? ==> StampGt(m.deleted.value, m.ts.value)
  }

  function Winner(m: Row): Option<Event> {
    if m.deleted.Some? then Some(Event(m.deleted.value, None))
    else if m.ts.Some? then Some(Event(m.ts.value, Some(m.value)))
    else None
  }

  /** An absent or empty shard name keeps the one already stored. */
  function NextShard(m: Row, shard: string): string {
    if shard != "" then shard else m.shard
  }

  // The three row rules; the second result tells whether the row was accepted.

  function PutRow(m: Row, value: Value, ts: Stamp, shard: string): (Row, bool) {
    if m.deleted.Some? && !Gt(Some(ts), m.deleted) then (m, false)
    else if m.ts.Some? && !Gt(Some(ts), m.ts) then (m, false)
    else (Row(Some(ts), None, NextShard(m, shard), value), true)
  }

  function DeleteRow(m: Row, ts: Stamp, shard: string): (Row, bool) {
    var last := if m.deleted.Some? then m.deleted else m.ts;
    if last.Some? && !Gt(Some(ts), last) then (m, false)
    else (Row(m.ts, Some(ts), NextShard(m, shard), EMPTY_OBJECT), true)
  }

  function RestoreRow(m: Row, r: SnapshotRow): (Row, bool) {
    if r.deleted.Some? then
      var last := if m.deleted.Some? then m.deleted else m.ts;
      if last.Some? && !Gt(r.deleted, last) then (m, false)
      else (Row(if r.ts.Some? then r.ts else m.ts, r.deleted, NextShard(m, r.shard), EMPTY_OBJECT), true)
    else if r.ts.None? then (m, false)
    else if m.deleted.Some? && !Gt(r.ts, m.deleted) then (m, false)
    else if m.ts.Some? && !Gt(r.ts, m.ts) then (m, false)
    else (Row(r.ts, None, NextShard(m, r.shard), r.value), true)
  }

  // The meaning of a row rule.

  function Absorb(best: Option<Event>, e: Event): Option<Event> {
    if best.None? || StampGt(e.ts, best.value.ts) then Some(e) else best
  }

  predicate Beats(best: Option<Event>, e: Event) {
    best.None? || StampGt(e.ts, best.value.ts)
  }

  lemma PutRowAbsorbs(m: Row, value: Value, ts: Stamp, shard: string)
    requires ValidRow(m)
    ensures var (m', accepted) := PutRow(m, value, ts, shard);
            && ValidRow(m')
            && Winner(m') == Absorb(Winner(m), Event(ts, Some(value)))
            && (accepted <==> Beats(Winner(m), Event(ts, Some(value))))
  {
    if m.deleted.Some? && m.ts.Some? {
      StampOrder(ts, m.deleted.value, m.ts.value);
    }
  }

  lemma DeleteRowAbsorbs(m: Row, ts: Stamp, shard: string)
    requires ValidRow(m)
    ensures var (m', accepted) := DeleteRow(m, ts, shard);
            && ValidRow(m')
            && Winner(m') == Absorb(Winner(m), Event(ts, None))
            && (accepted <==> Beats(Winner(m), Event(ts, None)))
  {
    if m.deleted.Some? && m.ts.Some? {
      StampOrder(ts, m.deleted.value, m.ts.value);
    }
  }

  /** Rows read from a snapshot: a tombstone is newer than the write it replaced. */
  predicate ValidSnapshotRow(r: SnapshotRow) {
    && (r.ts.Some? || r.deleted.Some?)
    && (r.ts.Some? && r.deleted.Some? ==> StampGt(r.deleted.value, r.ts.value))
  }

  function SnapshotEvent(r: SnapshotRow): Event
    requires ValidSnapshotRow(r)
  {
    if r.deleted.Some? then Event(r.deleted.value, None) else Event(r.ts.value, Some(r.value))
  }

  lemma RestoreRowAbsorbs(m: Row, r: SnapshotRow)
    requires ValidRow(m) && ValidSnapshotRow(r)
    ensures var (m', accepted) := RestoreRow(m, r);
            && ValidRow(m')
            && Winner(m') == Absorb(Winner(m), SnapshotEvent(r))
            && (accepted <==> Beats(Winner(m), SnapshotEvent(r)))
  {
    if m.deleted.Some? && m.ts.Some? {
      StampOrder(SnapshotEvent(r).ts, m.deleted.value, m.ts.value);
    } else if m.ts.Some? && r.deleted.Some? {
      StampOrder(r.deleted.value, m.ts.value, m.ts.value);
    }
  }

  /** The row a node writes into a snapshot; restoring it alone gives back the same event. */
  function SnapshotOf(m: Row): SnapshotRow {
    SnapshotRow(m.ts, m.deleted, m.shard, m.value)
  }

  lemma SnapshotRoundTrip(m: Row)
    requires ValidRow(m) && Winner(m).Some?
    ensures ValidSnapshotRow(SnapshotOf(m))
    ensures Some(SnapshotEvent(SnapshotOf(m))) == Winner(m)
    ensures Winner(RestoreRow(FRESH, SnapshotOf(m)).0) == Winner(m)
  {
  }

  // A database is a map from keys to rows; every write, from whatever channel, is one `Write`.

  type Db = map<Key, Row>

  datatype Write = Applied(op: Op) | Restored(key: Key, row: SnapshotRow) {
    function Target(): Key {
      if Applied? then op.key else key
    }
  }

  predicate ValidWrite(w: Write) {
    w.Restored? ==> ValidSnapshotRow(w.row)
  }

  function EventOf(w: Write): Event
    requires ValidWrite(w)
  {
    match w
    case Applied(op) => OpEvent(op)
    case Restored(_, row) => SnapshotEvent(row)
  }

  /** `touch` writes the empty object. */
  function OpEvent(op: Op): Event {
    Event(op.ts, if op.kind.DelObj? then None else Some(OpValue(op)))
  }

  function OpValue(op: Op): Value {
    if op.kind.Touch? then EMPTY_OBJECT else op.value
  }

  function RowAt(db: Db, k: Key): Row {
    if k in db then db[k] else FRESH
  }

  function WinnerAt(db: Db, k: Key): Option<Event> {
    Winner(RowAt(db, k))
  }

  predicate ValidDb(db: Db) {
    forall k | k in db :: ValidRow(db[k])
  }

  function StepRow(m: Row, w: Write): (Row, bool) {
    match w
    case Applied(op) =>
      if op.kind.DelObj? then DeleteRow(m, op.ts, op.shard) else PutRow(m, OpValue(op), op.ts, op.shard)
    case Restored(_, row) => RestoreRow(m, row)
  }

  function ApplyWrite(db: Db, w: Write): Db {
    db[w.Target() := StepRow(RowAt(db, w.Target()), w).0]
  }

  predicate Accepts(db: Db, w: Write) {
    StepRow(RowAt(db, w.Target()), w).1
  }

  function ApplyWrites(db: Db, ws: seq<Write>): Db {
    if ws == [] then db else ApplyWrite(ApplyWrites(db, ws[..|ws| - 1]), ws[|ws| - 1])
  }

  lemma ApplyWriteAbsorbs(db: Db, w: Write)
    requires ValidDb(db) && ValidWrite(w)
    ensures ValidDb(ApplyWrite(db, w))
    ensures WinnerAt(ApplyWrite(db, w), w.Target()) == Absorb(WinnerAt(db, w.Target()), EventOf(w))
    ensures forall k | k != w.Target() :: WinnerAt(ApplyWrite(db, w), k) == WinnerAt(db, k)
    ensures Accepts(db, w) <==> Beats(WinnerAt(db, w.Target()), EventOf(w))
  {
    var m := RowAt(db, w.Target());
    match w
    case Applied(op) =>
      if op.kind.DelObj? {
        DeleteRowAbsorbs(m, op.ts, op.shard);
      } else {
        PutRowAbsorbs(m, OpValue(op), op.ts, op.shard);
      }
    case Restored(_, row) => RestoreRowAbsorbs(m, row);
  }

  /** The newest event of `ws` for `k`, as a fold. */
  function Newest(ws: seq<Write>, k: Key): Option<Event>
    requires forall w | w in ws :: ValidWrite(w)
  {
    if ws == [] then None
    else
      var older := Newest(ws[..|ws| - 1], k);
      var w := ws[|ws| - 1];
      if w.Target() == k then Absorb(older, EventOf(w)) else older
  }

  lemma {:induction false} ApplyWritesMeans(ws: seq<Write>)
    requires forall w | w in ws :: ValidWrite(w)
    ensures ValidDb(ApplyWrites(map[], ws))
    ensures forall k :: WinnerAt(ApplyWrites(map[], ws), k) == Newest(ws, k)
  {
    if ws != [] {
      ApplyWritesMeans(ws[..|ws| - 1]);
      ApplyWriteAbsorbs(ApplyWrites(map[], ws[..|ws| - 1]), ws[|ws| - 1]);
    }
  }

  /** `best` is the event of greatest stamp among the writes to `k`, or there is no write to `k`. */
  ghost predicate IsGreatest(ws: seq<Write>, k: Key, best: Option<Event>)
    requires forall w | w in ws :: ValidWrite(w)
  {
    && (best.Some? ==> exists w :: w in ws && w.Target() == k && EventOf(w) == best.value)
    && (forall w | w in ws && w.Target() == k :: best.Some? && StampGeq(best.value.ts, EventOf(w).ts))
  }

  lemma {:induction false} NewestIsGreatest(ws: seq<Write>, k: Key)
    requires forall w | w in ws :: ValidWrite(w)
    ensures IsGreatest(ws, k, Newest(ws, k))
  {
    if ws != [] {
      var front, last := ws[..|ws| - 1], ws[|ws| - 1];
      assert ws == front + [last];
      NewestIsGreatest(front, k);
      forall w | w in ws && w.Target() == k
        ensures Newest(ws, k).Some? && StampGeq(Newest(ws, k).value.ts, EventOf(w).ts)
      {
        if last.Target() == k && w in front {
          StampOrder(EventOf(last).ts, Newest(front, k).value.ts, EventOf(w).ts);
        } else if last.Target() == k && Newest(front, k).Some? {
          StampOrder(EventOf(last).ts, Newest(front, k).value.ts, EventOf(w).ts);
        }
      }
      if Newest(ws, k).Some? {
        if Newest(front, k) == Newest(ws, k) {
          var w :| w in front && w.Target() == k && EventOf(w) == Newest(front, k).value;
          assert w in ws;
        } else {
          assert last in ws;
        }
      }
    }
  }

  /** One stamp names one write: what the clock protocol guarantees. */
  ghost predicate Coherent(ws: seq<Write>)
    requires forall w | w in ws :: ValidWrite(w)
  {
    forall v, w | v in ws && w in ws && v.Target() == w.Target() && EventOf(v).ts == EventOf(w).ts ::
      EventOf(v) == EventOf(w)
  }

  /**
   * Any two histories with the same set of writes, in any order, with any repetition, leave every
   * object with the same newest event.
   */
  lemma OrderIndependence(ws: seq<Write>, vs: seq<Write>)
    requires forall w | w in ws :: ValidWrite(w)
    requires forall w :: w in ws <==> w in vs
    requires Coherent(ws)
    ensures forall k :: WinnerAt(ApplyWrites(map[], ws), k) == WinnerAt(ApplyWrites(map[], vs), k)
    ensures forall k :: IsGreatest(ws, k, WinnerAt(ApplyWrites(map[], ws), k))
  {
    ApplyWritesMeans(ws);
    ApplyWritesMeans(vs);
    forall k
      ensures Newest(ws, k) == Newest(vs, k) && IsGreatest(ws, k, Newest(ws, k))
    {
      NewestIsGreatest(ws, k);
      NewestIsGreatest(vs, k);
      if Newest(ws, k).Some? {
        var w :| w in ws && w.Target() == k && EventOf(w) == Newest(ws, k).value;
        assert w in vs;
        var v :| v in vs && v.Target() == k && EventOf(v) == Newest(vs, k).value;
        assert v in ws;
        StampGeqAntisymmetric(EventOf(v).ts, EventOf(w).ts);
      }
    }
  }

  // Batched application.

  predicate Skipped(dropped: set<(string, string)>, op: Op) {
    (op.key.db, op.key.coll) in dropped
  }

  /** One op at a time: the resulting rows and the ops that were accepted, in order. */
  function ApplyOps(db: Db, dropped: set<(string, string)>, ops: seq<Op>): (Db, seq<Op>) {
    if ops == [] then (db, [])
    else
      var (db', accepted) := ApplyOps(db, dropped, ops[..|ops| - 1]);
      var op := ops[|ops| - 1];
      if Skipped(dropped, op) then (db', accepted)
      else (ApplyWrite(db', Applied(op)), if Accepts(db', Applied(op)) then accepted + [op] else accepted)
  }

  // What an accepted op leaves in its row.

  predicate Live(m: Row) {
    m.deleted.None? && m.ts.Some?
  }

  /** A put shows its value, a touch the empty object, a delete nothing. */
  predicate Shows(m: Row, kind: Kind, value: Value) {
    match kind
    case PutObj => Live(m) && m.value == value
    case Touch => Live(m) && m.value == EMPTY_OBJECT
    case DelObj => m.deleted.Some?
  }

  /** The stamp a later op has to beat. */
  function LastStamp(m: Row): Option<Stamp> {
    if m.deleted.Some? then m.deleted else m.ts
  }

  predicate Stores(m: Row, op: Op) {
    Shows(m, op.kind, op.value) && LastStamp(m) == Some(op.ts)
  }

  /** An op is accepted when it is newer than its row; then the row shows it, and else nothing changes. */
  lemma ApplyShows(db: Db, op: Op)
    requires ValidDb(db)
    ensures var last := LastStamp(RowAt(db, op.key));
            Accepts(db, Applied(op)) <==> last.None? || StampGt(op.ts, last.value)
    ensures var db' := ApplyWrite(db, Applied(op));
            if Accepts(db, Applied(op)) then
              op.key in db' && Stores(db'[op.key], op) && db'[op.key].shard == if op.shard == "" then RowAt(db, op.key).shard else op.shard
            else RowAt(db', op.key) == RowAt(db, op.key)
    ensures forall k | k != op.key :: RowAt(ApplyWrite(db, Applied(op)), k) == RowAt(db, k)
  {
    ApplyWriteAbsorbs(db, Applied(op));
  }

  /** The last event of a row says what the row shows. */
  lemma WinnerShows(m: Row, op: Op)
    requires Winner(m) == Some(OpEvent(op))
    ensures Stores(m, op)
  {
  }

  predicate LastOnKey(ops: seq<Op>, i: nat)
    requires i < |ops|
  {
    forall j | i < j < |ops| :: ops[j].key != ops[i].key
  }

  predicate OnKey(ops: seq<Op>, k: Key) {
    exists i :: 0 <= i < |ops| && ops[i].key == k
  }

  /** Each row shows the last op accepted on it, and a row without one is as it was. */
  ghost predicate BatchShown(before: Db, after: Db, accepted: seq<Op>) {
    && (forall i | 0 <= i < |accepted| && LastOnKey(accepted, i) :: accepted[i].key in after && Stores(after[accepted[i].key], accepted[i]))
    && (forall k | !OnKey(accepted, k) :: RowAt(after, k) == RowAt(before, k))
  }

  lemma ShownMore(before: Db, mid: Db, after: Db, accepted: seq<Op>, op: Op)
    requires BatchShown(before, mid, accepted) && op.key in after && Stores(after[op.key], op)
    requires forall k | k != op.key :: RowAt(after, k) == RowAt(mid, k)
    ensures BatchShown(before, after, accepted + [op])
  {
    var more := accepted + [op];
    assert more[|accepted|] == op;
    hide Stores;
    forall i | 0 <= i < |more| && LastOnKey(more, i) ensures more[i].key in after && Stores(after[more[i].key], more[i]) {
      if i < |accepted| {
        assert op.key != more[i].key && RowAt(after, more[i].key) == RowAt(mid, more[i].key);
        assert forall j | 0 <= j < |accepted| :: accepted[j] == more[j];
        assert LastOnKey(accepted, i);
        StoresInRow(after, more[i]);
      }
    }
    forall k | !OnKey(more, k) ensures RowAt(after, k) == RowAt(before, k) {
      assert op.key != k && forall j | 0 <= j < |accepted| :: accepted[j] == more[j];
      assert !OnKey(accepted, k);
    }
  }

  lemma ShownStill(before: Db, mid: Db, after: Db, accepted: seq<Op>)
    requires BatchShown(before, mid, accepted) && forall k :: RowAt(after, k) == RowAt(mid, k)
    ensures BatchShown(before, after, accepted)
  {
    hide Stores;
    forall i | 0 <= i < |accepted| && LastOnKey(accepted, i) ensures accepted[i].key in after && Stores(after[accepted[i].key], accepted[i]) {
      assert RowAt(after, accepted[i].key) == RowAt(mid, accepted[i].key);
      StoresInRow(after, accepted[i]);
    }
  }

  lemma {:induction false} BatchShows(db: Db, dropped: set<(string, string)>, ops: seq<Op>)
    requires ValidDb(db)
    ensures var (db', accepted) := ApplyOps(db, dropped, ops);
            && ValidDb(db') && (forall op | op in accepted :: op in ops && !Skipped(dropped, op))
            && BatchShown(db, db', accepted)
  {
    if ops == [] {
      assert forall k :: !OnKey([], k);
    } else {
      var op := ops[|ops| - 1];
      var (mid, accepted) := ApplyOps(db, dropped, ops[..|ops| - 1]);
      BatchShows(db, dropped, ops[..|ops| - 1]);
      assert ops == ops[..|ops| - 1] + [op];
      if !Skipped(dropped, op) {
        ApplyWriteAbsorbs(mid, Applied(op));
        ApplyShows(mid, op);
        hide Stores, Accepts, ApplyWrite, ValidDb, BatchShown;
        if Accepts(mid, Applied(op)) {
          ShownMore(db, mid, ApplyWrite(mid, Applied(op)), accepted, op);
        } else {
          ShownStill(db, mid, ApplyWrite(mid, Applied(op)), accepted);
        }
      }
    }
  }

  lemma StoresInRow(db: Db, op: Op)
    requires Stores(RowAt(db, op.key), op)
    ensures op.key in db && Stores(db[op.key], op)
  {
  }

  /**
   * The in-memory store: it gathers consecutive ops on one collection and of one kind into a run
   * and hands each run to the collection's bulk operation.
   */
  class Store {
    var rows: Db
    var dropped: set<(string, string)>

    constructor ()
      ensures rows == map[] && dropped == {}
    {
      rows := map[];
      dropped := {};
    }

    /** `putObjects` or `deleteObjects` on one collection. */
    method ApplyRun(run: seq<Op>, deletes: bool) returns (accepted: seq<Op>)
      requires forall op | op in run :: !Skipped(dropped, op) && op.kind.DelObj? == deletes
      modifies `rows
      ensures rows == ApplyOps(old(rows), dropped, run).0
      ensures accepted == ApplyOps(old(rows), dropped, run).1
    {
      accepted := [];
      for i := 0 to |run|
        invariant (rows, accepted) == ApplyOps(old(rows), dropped, run[..i])
      {
        assert run[..i + 1][..i] == run[..i];
        var op := run[i];
        assert op in run;
        var m := RowAt(rows, op.key);
        var (m', ok) := if deletes then DeleteRow(m, op.ts, op.shard) else PutRow(m, OpValue(op), op.ts, op.shard);
        rows := rows[op.key := m'];
        if ok {
          accepted := accepted + [op];
        }
      }
      assert run[..|run|] == run;
    }

    predicate SameRun(a: Op, b: Op) {
      a.key.db == b.key.db && a.key.coll == b.key.coll && a.kind.DelObj? == b.kind.DelObj?
    }

    /**
     * Batching changes nothing: the result is that of one op at a time, and each row shows the last op
     * accepted on it.
     */
    method ApplyBatch(ops: seq<Op>) returns (accepted: seq<Op>)
      requires ValidDb(rows)
      modifies `rows
      ensures (rows, accepted) == ApplyOps(old(rows), dropped, ops)
      ensures ValidDb(rows) && forall op | op in accepted :: op in ops && !Skipped(dropped, op)
      ensures BatchShown(old(rows), rows, accepted)
    {
      BatchShows(rows, dropped, ops);
      hide ValidDb, BatchShown;
      accepted := [];
      var run: seq<Op> := [];
      for i := 0 to |ops|
        invariant forall op | op in run :: !Skipped(dropped, op) && SameRun(run[0], op)
        invariant ApplyOps(rows, dropped, run).0 == ApplyOps(old(rows), dropped, ops[..i]).0
        invariant accepted + ApplyOps(rows, dropped, run).1 == ApplyOps(old(rows), dropped, ops[..i]).1
      {
        var op := ops[i];
        assert ops[..i + 1][..i] == ops[..i];
        if Skipped(dropped, op) {
          continue;
        }
        if run != [] && !SameRun(run[0], op) {
          var more := ApplyRun(run, run[0].kind.DelObj?);
          accepted, run := accepted + more, [];
          assert accepted + [] == accepted;
        }
        ghost var gathered := ApplyOps(rows, dropped, run);
        assert (run + [op])[..|run|] == run;
        assert (accepted + gathered.1) + [op] == accepted + (gathered.1 + [op]);
        run := run + [op];
      }
      if run != [] {
        var more := ApplyRun(run, run[0].kind.DelObj?);
        accepted := accepted + more;
      }
      assert accepted + [] == accepted;
      assert ops[..|ops|] == ops;
    }
  }
}
