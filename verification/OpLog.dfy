/**
 * The retained operation log of one node (src/crdt.js): numbering, pruning, discarding, and the
 * test that tells a puller whether the log still holds everything after its cursor.
 *
 * `history` is every op the node ever issued and `gone` the sequence numbers no longer in the log;
 * neither exists in the program.
 */
module OpLogs {
  import opened Wrappers
  import opened Rows

  const ANY := "*"

  /** Database, collection and shard; a requested scope may use the wildcard for the first two. */
  datatype Scope = Scope(db: string, coll: string, shard: string)

  datatype Log = Log(seqNo: nat, ops: seq<Op>, trimmed: nat, scopeTrimmed: map<Scope, nat>)

  const EMPTY_LOG := Log(0, [], 0, map[])

  function ScopeOf(op: Op): Scope {
    Scope(op.key.db, op.key.coll, op.shard)
  }

  predicate ScopeMatches(own: Scope, requested: Scope) {
    && (requested.db == ANY || requested.db == own.db)
    && (requested.coll == ANY || requested.coll == own.coll)
    && requested.shard == own.shard
  }

  predicate Matches(op: Op, scope: Option<Scope>) {
    scope.Some? ==> ScopeMatches(ScopeOf(op), scope.value)
  }

  // Operations on the log.

  function Append(log: Log, op: Op): Log {
    log.(seqNo := log.seqNo + 1, ops := log.ops + [op])
  }

  function Remember(trims: map<Scope, nat>, op: Op): map<Scope, nat> {
    trims[ScopeOf(op) := Max(if ScopeOf(op) in trims then trims[ScopeOf(op)] else 0, op.seqNo)]
  }

  function RememberAll(trims: map<Scope, nat>, ops: seq<Op>): map<Scope, nat> {
    if ops == [] then trims else Remember(RememberAll(trims, ops[..|ops| - 1]), ops[|ops| - 1])
  }

  /** The ops whose number is (`member`) or is not in `numbers`, in order. */
  function Pick(ops: seq<Op>, numbers: set<nat>, member: bool): seq<Op> {
    if ops == [] then []
    else
      var rest := Pick(ops[..|ops| - 1], numbers, member);
      if (ops[|ops| - 1].seqNo in numbers) == member then rest + [ops[|ops| - 1]] else rest
  }

  function Remove(log: Log, numbers: set<nat>): Log {
    log.(ops := Pick(log.ops, numbers, false),
         scopeTrimmed := RememberAll(log.scopeTrimmed, Pick(log.ops, numbers, true)))
  }

  function UpTo(cut: nat): (numbers: set<nat>)
    ensures forall i: nat :: i in numbers <==> 1 <= i <= cut
  {
    if cut == 0 then {} else UpTo(cut - 1) + {cut}
  }

  /** How far acknowledged ops may be pruned; `None` when no peer has acknowledged. */
  function PruneCut(log: Log, watermark: Option<nat>, retainOps: nat): nat {
    if watermark.None? then log.trimmed
    else
      var safe := if watermark.value > retainOps then watermark.value - retainOps else 0;
      if safe <= log.trimmed then log.trimmed else Max(log.trimmed, Min(safe, log.seqNo))
  }

  function Prune(log: Log, watermark: Option<nat>, retainOps: nat): Log {
    var cut := PruneCut(log, watermark, retainOps);
    if cut == log.trimmed then log else Remove(log, UpTo(cut)).(trimmed := cut)
  }

  function NumbersOf(ops: seq<Op>, db: string, coll: string): set<nat> {
    set op | op in ops && op.key.db == db && op.key.coll == coll :: op.seqNo
  }

  /** A collection drop removes its ops from the log without moving `trimmed`. */
  function Discard(log: Log, db: string, coll: string): Log {
    Remove(log, NumbersOf(log.ops, db, coll))
  }

  // Pulls.

  predicate NeedsSnapshot(log: Log, after: nat, scope: Option<Scope>) {
    if scope.None? then after < log.trimmed
    else exists own :: own in log.scopeTrimmed && log.scopeTrimmed[own] > after && ScopeMatches(own, scope.value)
  }

  predicate Wanted(op: Op, after: nat, scope: Option<Scope>) {
    op.seqNo > after && Matches(op, scope)
  }

  function Select(ops: seq<Op>, after: nat, scope: Option<Scope>): seq<Op> {
    if ops == [] then []
    else
      var rest := Select(ops[..|ops| - 1], after, scope);
      if Wanted(ops[|ops| - 1], after, scope) then rest + [ops[|ops| - 1]] else rest
  }

  /** A limit of zero means no limit. */
  function Limited(ops: seq<Op>, limit: nat): seq<Op> {
    if limit != 0 && limit < |ops| then ops[..limit] else ops
  }

  function OpsAfter(log: Log, after: nat, limit: nat, scope: Option<Scope>): seq<Op> {
    Limited(Select(log.ops, after, scope), limit)
  }

  // What the log represents.

  predicate Numbered(history: seq<Op>) {
    forall i | 0 <= i < |history| :: history[i].seqNo == i + 1
  }

  ghost predicate Represents(log: Log, history: seq<Op>, gone: set<nat>) {
    && log.seqNo == |history|
    && Numbered(history)
    && log.ops == Pick(history, gone, false)
    && gone <= UpTo(|history|)
    && log.trimmed <= |history|
    && UpTo(log.trimmed) <= gone
    && (forall i {:trigger Recorded(log.scopeTrimmed, history, i)} | i in gone :: Recorded(log.scopeTrimmed, history, i))
    && (forall own {:trigger Witnessed(log.scopeTrimmed, history, gone, own)} | own in log.scopeTrimmed ::
          Witnessed(log.scopeTrimmed, history, gone, own))
  }

  /** The loss of op number `i` is recorded against its scope. */
  predicate Recorded(trims: map<Scope, nat>, history: seq<Op>, i: nat) {
    && 1 <= i <= |history|
    && ScopeOf(history[i - 1]) in trims
    && trims[ScopeOf(history[i - 1])] >= i
  }

  /** What is recorded for `own` is the number of a lost op of that scope. */
  predicate Witnessed(trims: map<Scope, nat>, history: seq<Op>, gone: set<nat>, own: Scope)
    requires own in trims
  {
    && trims[own] in gone
    && 1 <= trims[own] <= |history|
    && ScopeOf(history[trims[own] - 1]) == own
  }

  lemma EmptyRepresents()
    ensures Represents(EMPTY_LOG, [], {})
  {
  }

  lemma AppendRepresents(log: Log, history: seq<Op>, gone: set<nat>, op: Op)
    requires Represents(log, history, gone) && op.seqNo == |history| + 1
    ensures Represents(Append(log, op), history + [op], gone)
  {
    var history' := history + [op];
    assert history'[..|history|] == history;
    forall i | i in gone ensures Recorded(log.scopeTrimmed, history', i) {
      assert Recorded(log.scopeTrimmed, history, i);
    }
    forall own | own in log.scopeTrimmed ensures Witnessed(log.scopeTrimmed, history', gone, own) {
      assert Witnessed(log.scopeTrimmed, history, gone, own);
    }
  }

  lemma {:induction false} PickPick(ops: seq<Op>, a: set<nat>, b: set<nat>)
    ensures Pick(Pick(ops, a, false), b, false) == Pick(ops, a + b, false)
  {
    if ops != [] {
      var front, last := ops[..|ops| - 1], ops[|ops| - 1];
      PickPick(front, a, b);
      var picked := Pick(front, a, false);
      if last.seqNo !in a {
        assert (picked + [last])[..|picked|] == picked;
      }
    }
  }

  lemma {:induction false} PickMembers(ops: seq<Op>, numbers: set<nat>, member: bool)
    ensures forall op :: op in Pick(ops, numbers, member) <==> op in ops && (op.seqNo in numbers) == member
  {
    if ops != [] {
      assert ops == ops[..|ops| - 1] + [ops[|ops| - 1]];
      PickMembers(ops[..|ops| - 1], numbers, member);
    }
  }

  lemma {:induction false} RememberAllMeans(trims: map<Scope, nat>, ops: seq<Op>)
    ensures forall op | op in ops :: ScopeOf(op) in RememberAll(trims, ops) && RememberAll(trims, ops)[ScopeOf(op)] >= op.seqNo
    ensures forall own | own in trims :: own in RememberAll(trims, ops) && RememberAll(trims, ops)[own] >= trims[own]
    ensures forall own | own in RememberAll(trims, ops) ::
              || (own in trims && RememberAll(trims, ops)[own] == trims[own])
              || (exists op :: op in ops && ScopeOf(op) == own && op.seqNo == RememberAll(trims, ops)[own])
  {
    if ops != [] {
      var front, last := ops[..|ops| - 1], ops[|ops| - 1];
      assert ops == front + [last];
      RememberAllMeans(trims, front);
      var before, after := RememberAll(trims, front), RememberAll(trims, ops);
      forall own | own in after && !(own in trims && after[own] == trims[own])
        ensures exists op :: op in ops && ScopeOf(op) == own && op.seqNo == after[own]
      {
        if own == ScopeOf(last) && after[own] == last.seqNo {
          assert last in ops;
        } else {
          var op :| op in front && ScopeOf(op) == own && op.seqNo == before[own];
          assert op in ops;
        }
      }
    }
  }

  lemma RemoveRecords(log: Log, history: seq<Op>, gone: set<nat>, numbers: set<nat>, i: nat)
    requires Represents(log, history, gone) && numbers <= UpTo(|history|)
    requires i in gone + numbers
    ensures Recorded(Remove(log, numbers).scopeTrimmed, history, i)
  {
    var removed := Pick(log.ops, numbers, true);
    RememberAllMeans(log.scopeTrimmed, removed);
    if i in gone {
      assert Recorded(log.scopeTrimmed, history, i);
    } else {
      PickMembers(history, gone, false);
      PickMembers(log.ops, numbers, true);
      assert history[i - 1] in history && history[i - 1] in removed;
    }
  }

  lemma RemoveWitnesses(log: Log, history: seq<Op>, gone: set<nat>, numbers: set<nat>, own: Scope)
    requires Represents(log, history, gone) && numbers <= UpTo(|history|)
    requires own in Remove(log, numbers).scopeTrimmed
    ensures Witnessed(Remove(log, numbers).scopeTrimmed, history, gone + numbers, own)
  {
    var removed := Pick(log.ops, numbers, true);
    var trims := RememberAll(log.scopeTrimmed, removed);
    RememberAllMeans(log.scopeTrimmed, removed);
    if own in log.scopeTrimmed && trims[own] == log.scopeTrimmed[own] {
      assert Witnessed(log.scopeTrimmed, history, gone, own);
    } else {
      var op :| op in removed && ScopeOf(op) == own && op.seqNo == trims[own];
      RemovedOp(history, gone, numbers, op);
    }
  }

  lemma RemovedOp(history: seq<Op>, gone: set<nat>, numbers: set<nat>, op: Op)
    requires Numbered(history) && op in Pick(Pick(history, gone, false), numbers, true)
    ensures op.seqNo in numbers && 1 <= op.seqNo <= |history| && history[op.seqNo - 1] == op
  {
    PickMembers(history, gone, false);
    PickMembers(Pick(history, gone, false), numbers, true);
    var i :| 0 <= i < |history| && history[i] == op;
  }

  lemma RemoveRepresents(log: Log, history: seq<Op>, gone: set<nat>, numbers: set<nat>)
    requires Represents(log, history, gone) && numbers <= UpTo(|history|)
    ensures Represents(Remove(log, numbers), history, gone + numbers)
  {
    PickPick(history, gone, numbers);
    var after := Remove(log, numbers);
    forall i | i in gone + numbers ensures Recorded(after.scopeTrimmed, history, i) {
      RemoveRecords(log, history, gone, numbers, i);
    }
    forall own | own in after.scopeTrimmed ensures Witnessed(after.scopeTrimmed, history, gone + numbers, own) {
      RemoveWitnesses(log, history, gone, numbers, own);
    }
  }

  /** Pruning and discarding record every op they drop. */
  lemma PruneRepresents(log: Log, history: seq<Op>, gone: set<nat>, watermark: Option<nat>, retainOps: nat)
    requires Represents(log, history, gone)
    ensures Represents(Prune(log, watermark, retainOps), history, gone + UpTo(Prune(log, watermark, retainOps).trimmed))
  {
    var cut := PruneCut(log, watermark, retainOps);
    if cut != log.trimmed {
      RemoveRepresents(log, history, gone, UpTo(cut));
    } else {
      assert gone + UpTo(log.trimmed) == gone;
    }
  }

  /** Every retained op is above the trim mark and within the numbers given out. */
  predicate AboveTrim(log: Log) {
    forall op | op in log.ops :: log.trimmed < op.seqNo <= log.seqNo
  }

  lemma RepresentsAboveTrim(log: Log, history: seq<Op>, gone: set<nat>)
    requires Represents(log, history, gone)
    ensures AboveTrim(log)
  {
    PickMembers(history, gone, false);
  }

  /**
   * Pruning keeps exactly the ops that some peer has not acknowledged or that are among the last
   * `retainOps` up to the least acknowledgement; without an acknowledgement it keeps all.
   */
  lemma PruneExact(log: Log, watermark: Option<nat>, retainOps: nat)
    requires AboveTrim(log)
    ensures forall op :: op in Prune(log, watermark, retainOps).ops <==> op in log.ops && (watermark.Some? ==> op.seqNo + retainOps > watermark.value)
    ensures AboveTrim(Prune(log, watermark, retainOps)) && Prune(log, watermark, retainOps).seqNo == log.seqNo
    ensures Ascending(log.ops) ==> Ascending(Prune(log, watermark, retainOps).ops)
    ensures watermark.None? ==> Prune(log, watermark, retainOps) == log
  {
    var cut := PruneCut(log, watermark, retainOps);
    PickMembers(log.ops, UpTo(cut), false);
    if Ascending(log.ops) {
      PickAscends(log.ops, UpTo(cut), false);
    }
  }

  /** Dropping a collection takes exactly its ops. */
  lemma DiscardExact(log: Log, db: string, coll: string)
    requires Ascending(log.ops)
    ensures forall op :: op in Discard(log, db, coll).ops <==> op in log.ops && !(op.key.db == db && op.key.coll == coll)
    ensures Ascending(Discard(log, db, coll).ops) && Discard(log, db, coll).trimmed == log.trimmed
  {
    var numbers := NumbersOf(log.ops, db, coll);
    PickMembers(log.ops, numbers, false);
    PickAscends(log.ops, numbers, false);
    forall op | op in log.ops ensures op.seqNo in numbers <==> op.key.db == db && op.key.coll == coll {
      if op.seqNo in numbers {
        var other :| other in log.ops && other.key.db == db && other.key.coll == coll && other.seqNo == op.seqNo;
        var i :| 0 <= i < |log.ops| && log.ops[i] == op;
        var j :| 0 <= j < |log.ops| && log.ops[j] == other;
        assert i == j;
      }
    }
  }

  lemma DiscardRepresents(log: Log, history: seq<Op>, gone: set<nat>, db: string, coll: string)
    requires Represents(log, history, gone)
    ensures Represents(Discard(log, db, coll), history, gone + NumbersOf(log.ops, db, coll))
  {
    PickMembers(history, gone, false);
    RemoveRepresents(log, history, gone, NumbersOf(log.ops, db, coll));
  }

  lemma {:induction false} SelectMembers(ops: seq<Op>, after: nat, scope: Option<Scope>)
    ensures forall op :: op in Select(ops, after, scope) <==> op in ops && Wanted(op, after, scope)
  {
    if ops != [] {
      assert ops == ops[..|ops| - 1] + [ops[|ops| - 1]];
      SelectMembers(ops[..|ops| - 1], after, scope);
    }
  }

  predicate Ascending(ops: seq<Op>) {
    forall i, j | 0 <= i < j < |ops| :: ops[i].seqNo < ops[j].seqNo
  }

  lemma {:induction false} SelectAscends(ops: seq<Op>, after: nat, scope: Option<Scope>)
    requires Ascending(ops)
    ensures Ascending(Select(ops, after, scope))
  {
    if ops != [] {
      var front, last := ops[..|ops| - 1], ops[|ops| - 1];
      SelectAscends(front, after, scope);
      SelectMembers(front, after, scope);
      var rest := Select(front, after, scope);
      forall i | 0 <= i < |rest| ensures rest[i].seqNo < last.seqNo {
        assert rest[i] in front;
      }
      assert Ascending(rest + [last]);
    }
  }

  lemma {:induction false} PickAscends(ops: seq<Op>, numbers: set<nat>, member: bool)
    requires Ascending(ops)
    ensures Ascending(Pick(ops, numbers, member))
  {
    if ops != [] {
      var front, last := ops[..|ops| - 1], ops[|ops| - 1];
      PickAscends(front, numbers, member);
      PickMembers(front, numbers, member);
      var rest := Pick(front, numbers, member);
      forall i | 0 <= i < |rest| ensures rest[i].seqNo < last.seqNo {
        assert rest[i] in front;
      }
      assert Ascending(rest + [last]);
    }
  }

  /** Whether a wanted op of `history` is gone. */
  ghost predicate Lost(history: seq<Op>, gone: set<nat>, after: nat, scope: Option<Scope>) {
    exists op :: op in history && Wanted(op, after, scope) && op.seqNo in gone
  }

  /** Selecting from the log finds every wanted op exactly when no wanted op is gone. */
  lemma {:induction false} SelectPick(history: seq<Op>, gone: set<nat>, after: nat, scope: Option<Scope>)
    ensures var picked := Select(Pick(history, gone, false), after, scope);
            if Lost(history, gone, after, scope) then |picked| < |Select(history, after, scope)|
            else picked == Select(history, after, scope)
  {
    if history != [] {
      var front, last := history[..|history| - 1], history[|history| - 1];
      assert history == front + [last];
      SelectPick(front, gone, after, scope);
      assert Lost(history, gone, after, scope) <==> Lost(front, gone, after, scope) || (Wanted(last, after, scope) && last.seqNo in gone);
      var kept := Pick(front, gone, false);
      assert (kept + [last])[..|kept|] == kept;
    }
  }

  ghost predicate Complete(log: Log, history: seq<Op>, after: nat, scope: Option<Scope>) {
    Select(log.ops, after, scope) == Select(history, after, scope)
  }

  /**
   * Scoped pulls: the test is exact.  A snapshot is demanded precisely when the log has lost an op
   * the puller still needs, whatever mixture of prunes and drops came before.
   */
  lemma ScopedTestIsExact(log: Log, history: seq<Op>, gone: set<nat>, after: nat, scope: Scope)
    requires Represents(log, history, gone)
    ensures NeedsSnapshot(log, after, Some(scope)) <==> !Complete(log, history, after, Some(scope))
  {
    SelectPick(history, gone, after, Some(scope));
    if NeedsSnapshot(log, after, Some(scope)) {
      var own :| own in log.scopeTrimmed && log.scopeTrimmed[own] > after && ScopeMatches(own, scope);
      assert Witnessed(log.scopeTrimmed, history, gone, own);
      var op := history[log.scopeTrimmed[own] - 1];
      assert op in history && Wanted(op, after, Some(scope)) && op.seqNo in gone;
    } else {
      forall op | op in history && Wanted(op, after, Some(scope))
        ensures op.seqNo !in gone
      {
        var i :| 0 <= i < |history| && history[i] == op;
        assert i + 1 in gone ==> Recorded(log.scopeTrimmed, history, i + 1);
      }
    }
  }

  /**
   * Unscoped pulls: `after >= trimmed` is not enough once a collection was dropped.  The log is
   * complete exactly when no scope has lost an op after the cursor.
   */
  lemma UnscopedTestIsExact(log: Log, history: seq<Op>, gone: set<nat>, after: nat)
    requires Represents(log, history, gone)
    ensures Complete(log, history, after, None) <==> (forall own | own in log.scopeTrimmed :: log.scopeTrimmed[own] <= after)
    ensures gone == UpTo(log.trimmed) ==> (NeedsSnapshot(log, after, None) <==> !Complete(log, history, after, None))
  {
    SelectPick(history, gone, after, None);
    if own :| own in log.scopeTrimmed && log.scopeTrimmed[own] > after {
      assert Witnessed(log.scopeTrimmed, history, gone, own);
      var op := history[log.scopeTrimmed[own] - 1];
      assert op in history && Wanted(op, after, None) && op.seqNo in gone;
    } else {
      forall op | op in history && Wanted(op, after, None)
        ensures op.seqNo !in gone
      {
        var i :| 0 <= i < |history| && history[i] == op;
        assert i + 1 in gone ==> Recorded(log.scopeTrimmed, history, i + 1);
      }
    }
    if gone == UpTo(log.trimmed) {
      TrimmedTestIsExact(log, history, gone, after);
    }
  }

  /** Without drops the unscoped test is exact. */
  lemma TrimmedTestIsExact(log: Log, history: seq<Op>, gone: set<nat>, after: nat)
    requires Represents(log, history, gone) && gone == UpTo(log.trimmed)
    ensures NeedsSnapshot(log, after, None) <==> !Complete(log, history, after, None)
  {
    SelectPick(history, gone, after, None);
    if after < log.trimmed {
      var op := history[log.trimmed - 1];
      assert op in history && Wanted(op, after, None) && op.seqNo in gone;
    }
  }

  /** An unscoped pull that silently misses an op: one write, then its collection is dropped. */
  lemma UnscopedGapAfterDrop(op: Op)
    requires op.seqNo == 1
    ensures var log := Discard(Append(EMPTY_LOG, op), op.key.db, op.key.coll);
            && Represents(log, [op], {1})
            && !NeedsSnapshot(log, 0, None)
            && OpsAfter(log, 0, 0, None) == []
            && !Complete(log, [op], 0, None)
  {
    EmptyRepresents();
    AppendRepresents(EMPTY_LOG, [], {}, op);
    assert [] + [op] == [op];
    var log := Append(EMPTY_LOG, op);
    DiscardRepresents(log, [op], {}, op.key.db, op.key.coll);
    assert {} + NumbersOf(log.ops, op.key.db, op.key.coll) == {1} by {
      assert op in [op];
    }
    var dropped := Discard(log, op.key.db, op.key.coll);
    assert Recorded(dropped.scopeTrimmed, [op], 1);
    UnscopedTestIsExact(dropped, [op], {1}, 0);
    PickMembers([op], {1}, false);
    assert dropped.ops == [];
  }

  /** The cursor a puller moves to: the last op received, or the source's end when none came. */
  function SeenAfter(after: nat, ops: seq<Op>, lastSeq: nat): nat {
    if ops != [] then ops[|ops| - 1].seqNo else if lastSeq != 0 then lastSeq else after
  }

  /** Up to the new cursor, a reply leaves out only ops that are gone from the log. */
  lemma PullCovers(log: Log, history: seq<Op>, gone: set<nat>, after: nat, limit: nat, scope: Option<Scope>)
    requires Represents(log, history, gone) && after <= log.seqNo
    ensures var ops := OpsAfter(log, after, limit, scope);
            var seen := SeenAfter(after, ops, log.seqNo);
            && after <= seen <= |history|
            && (forall op | op in ops :: op in history && Wanted(op, after, scope))
            && (forall op | op in history && Wanted(op, after, scope) && op.seqNo <= seen :: op in ops || op.seqNo in gone)
  {
    var all, ops := Select(log.ops, after, scope), OpsAfter(log, after, limit, scope);
    assert Ascending(history);
    PickAscends(history, gone, false);
    SelectAscends(log.ops, after, scope);
    PickMembers(history, gone, false);
    SelectMembers(log.ops, after, scope);
    var seen := SeenAfter(after, ops, log.seqNo);
    forall op | op in history && Wanted(op, after, scope) && op.seqNo <= seen && op.seqNo !in gone
      ensures op in ops
    {
      var i :| 0 <= i < |all| && all[i] == op;
      assert ops != [];
      assert i >= |ops| ==> all[|ops| - 1].seqNo < all[i].seqNo;
    }
    if ops != [] {
      assert ops[|ops| - 1] in history;
    }
  }

  /**
   * A granted pull returns exactly the first `limit` issued ops of its scope after the cursor, and
   * the new cursor passes none that was not returned.
   */
  lemma GrantedPullIsExact(log: Log, history: seq<Op>, gone: set<nat>, after: nat, limit: nat, scope: Option<Scope>)
    requires Represents(log, history, gone) && after <= log.seqNo
    requires !NeedsSnapshot(log, after, scope) && (scope.None? ==> gone == UpTo(log.trimmed))
    ensures var ops := OpsAfter(log, after, limit, scope);
            && ops == Limited(Select(history, after, scope), limit)
            && Ascending(ops)
            && (forall op | op in history && Wanted(op, after, scope) && op.seqNo <= SeenAfter(after, ops, log.seqNo) :: op in ops)
  {
    if scope.Some? {
      ScopedTestIsExact(log, history, gone, after, scope.value);
    } else {
      UnscopedTestIsExact(log, history, gone, after);
    }
    assert Ascending(history);
    SelectAscends(history, after, scope);
    SelectPick(history, gone, after, scope);
    PullCovers(log, history, gone, after, limit, scope);
  }

  /** The generator behind a pull: it stops as soon as the limit is reached. */
  method CollectOpsAfter(log: Log, after: nat, limit: nat, scope: Option<Scope>) returns (ops: seq<Op>)
    ensures ops == OpsAfter(log, after, limit, scope)
  {
    ops := [];
    for i := 0 to |log.ops|
      invariant ops == Select(log.ops[..i], after, scope)
      invariant limit != 0 ==> |ops| < limit
    {
      assert log.ops[..i + 1][..i] == log.ops[..i];
      if Wanted(log.ops[i], after, scope) {
        ops := ops + [log.ops[i]];
        if limit != 0 && |ops| >= limit {
          SelectPrefix(log.ops, i + 1, after, scope);
          return;
        }
      }
    }
    assert log.ops[..|log.ops|] == log.ops;
  }

  lemma {:induction false} SelectPrefix(ops: seq<Op>, n: nat, after: nat, scope: Option<Scope>)
    requires n <= |ops|
    ensures Select(ops[..n], after, scope) <= Select(ops, after, scope)
  {
    if n < |ops| {
      SelectPrefix(ops[..|ops| - 1], n, after, scope);
      assert ops[..|ops| - 1][..n] == ops[..n];
    } else {
      assert ops[..n] == ops;
    }
  }
}
