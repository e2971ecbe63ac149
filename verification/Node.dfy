/**
 * The node object (src/crdt.js, class CRDTNode): the methods update fields in place and are proved
 * against the node functions of the protocol.
 */
module Nodes {
  import opened Wrappers
  import opened Clocks
  import opened Rows
  import opened OpLogs
  import R = Replication

  /** Receiving ops only moves rows forward, and leaves every received op absorbed. */
  lemma {:induction false} ReceiveAbsorbs(n: R.NodeState, ops: seq<Op>)
    requires ValidDb(n.rows)
    ensures ValidDb(R.Receive(n, ops).rows)
    ensures R.Grows(n, R.Receive(n, ops)) && R.AllAbsorbed(R.Receive(n, ops), ops)
    ensures R.Receive(n, ops).dropped == n.dropped
  {
    if ops != [] {
      var front, last := ops[..|ops| - 1], ops[|ops| - 1];
      assert ops == front + [last];
      ReceiveAbsorbs(n, front);
      var m := R.Receive(n, front);
      R.GrowsWhenApplied(m, last, R.ReceiveOne(m, last));
      R.ApplyOneGrows(m.rows, m.dropped, last);
    }
  }

  class CRDTNode {
    const id: NodeId
    const clock: LamportClock
    const store: Store
    const retainOps: nat
    var seqNo: nat
    var ops: seq<Op>
    var trimmed: nat
    var scopeTrimmed: map<Scope, nat>
    var lastSeen: map<R.Cursor, nat>
    var acks: map<R.Cursor, nat>

    ghost function State(): R.NodeState
      reads this, clock, store
    {
      R.NodeState(id, clock.c, OpLogs.Log(seqNo, ops, trimmed, scopeTrimmed), retainOps, lastSeen, acks,
                  store.rows, store.dropped)
    }

    ghost predicate Valid()
      reads this, clock, store
    {
      && clock.n == id
      && ValidDb(store.rows)
      && Ascending(ops)
      && trimmed <= seqNo && AboveTrim(OpLogs.Log(seqNo, ops, trimmed, scopeTrimmed))
    }

    constructor (id: NodeId, retainOps: nat)
      ensures Valid() && fresh(clock) && fresh(store)
      ensures State() == R.NodeState(id, 0, EMPTY_LOG, retainOps, map[], map[], map[], {})
    {
      this.id := id;
      this.retainOps := retainOps;
      clock := new LamportClock(id);
      store := new Store();
      seqNo, ops, trimmed := 0, [], 0;
      scopeTrimmed, lastSeen, acks := map[], map[], map[];
    }

    method LogOps(requests: seq<R.Request>) returns (logged: seq<Op>)
      requires Valid()
      modifies this`seqNo, this`ops, clock
      ensures Valid()
      ensures logged == Stamped(id, old(clock.c), old(seqNo), requests)
      ensures ops == old(ops) + logged
      ensures seqNo == old(seqNo) + |requests| && clock.c == old(clock.c) + |requests|
    {
      logged := [];
      for i := 0 to |requests|
        invariant seqNo == old(seqNo) + i && clock.c == old(clock.c) + i
        invariant logged == Stamped(id, old(clock.c), old(seqNo), requests[..i])
        invariant ops == old(ops) + logged
      {
        assert requests[..i + 1][..i] == requests[..i];
        var ts := clock.NextTs();
        seqNo := seqNo + 1;
        var r := requests[i];
        var op := Op(r.kind, r.key, r.shard, r.value, ts, id, seqNo);
        ops := ops + [op];
        logged := logged + [op];
      }
      assert requests[..|requests|] == requests;
      StampedNumbers(id, old(clock.c), old(seqNo), requests);
    }

    /** All ops are stamped and logged first, then applied as one batch. */
    method CommitLocal(requests: seq<R.Request>) returns (logged: seq<Op>, accepted: seq<Op>)
      requires Valid()
      modifies this`seqNo, this`ops, clock, store
      ensures Valid()
      ensures State() == R.Commit(old(State()), requests)
      ensures accepted == ApplyOps(old(store.rows), store.dropped, logged).1
    {
      ghost var n := State();
      logged := LogOps(requests);
      ApplyOpsValid(n.rows, n.dropped, logged);
      accepted := store.ApplyBatch(logged);
      CommitSplits(n, requests);
    }

    method ApplyRemote(cursor: R.Cursor, incoming: seq<Op>) returns (accepted: seq<Op>)
      requires Valid()
      modifies this`lastSeen, clock, store
      ensures Valid()
      ensures State() == R.Advance(R.Receive(old(State()), incoming), cursor, SeenAfter(0, incoming, 0))
    {
      ghost var n := State();
      for i := 0 to |incoming|
        invariant Valid() && State() == n.(clock := R.Receive(n, incoming[..i]).clock)
      {
        assert incoming[..i + 1][..i] == incoming[..i];
        clock.Touch(Some(incoming[i].ts));
      }
      assert incoming[..|incoming|] == incoming;
      ApplyOpsValid(store.rows, store.dropped, incoming);
      ReceiveSplits(n, incoming);
      hide R.Receive, ApplyOps, BatchShown, Ascending, AboveTrim;
      accepted := store.ApplyBatch(incoming);
      lastSeen := lastSeen[cursor := Max(if cursor in lastSeen then lastSeen[cursor] else 0,
                                         if incoming != [] then incoming[|incoming| - 1].seqNo else 0)];
    }

    method LowestAck() returns (watermark: Option<nat>)
      ensures watermark == R.Watermark(acks)
    {
      watermark := None;
      var left := acks.Keys;
      while left != {}
        invariant left <= acks.Keys
        invariant watermark.None? <==> left == acks.Keys
        invariant watermark.Some? ==> watermark.value in acks.Values
        invariant watermark.Some? ==> forall c | c in acks.Keys - left :: watermark.value <= acks[c]
        decreases |left|
      {
        var c :| c in left;
        left := left - {c};
        if watermark.None? || acks[c] < watermark.value {
          watermark := Some(acks[c]);
        }
      }
    }

    /** An op stays while some peer lacks it, or it is among the last ones that are retained, or no peer has acknowledged. */
    method PruneLog()
      requires Valid()
      modifies this`ops, this`trimmed, this`scopeTrimmed
      ensures Valid()
      ensures State() == R.PruneNode(old(State()))
      ensures Retained(old(ops), ops, acks, retainOps)
    {
      ghost var n := State();
      PruneNodeKeeps(n);
      hide R.PruneNode;
      PruneInPlace();
    }

    method PruneInPlace()
      requires forall op | op in ops :: op.seqNo >= 1
      modifies this`ops, this`trimmed, this`scopeTrimmed
      ensures State() == R.PruneNode(old(State()))
    {
      ghost var n := State();
      var watermark := LowestAck();
      if watermark.None? {
        return;
      }
      var safe := if watermark.value > retainOps then watermark.value - retainOps else 0;
      if safe <= trimmed {
        return;
      }
      var cut := if safe < seqNo then safe else seqNo;
      if cut <= trimmed {
        return;
      }
      var kept, removed := SplitAt(ops, cut);
      var trims := RememberTrims(scopeTrimmed, removed);
      PruneFields(n.log, watermark, retainOps, cut);
      ops, trimmed, scopeTrimmed := kept, cut, trims;
      assert State().log == R.PruneNode(n).log;
    }

    method TakeAck(cursor: R.Cursor, after: nat)
      requires Valid()
      modifies this`ops, this`trimmed, this`scopeTrimmed, this`acks
      ensures Valid() && State() == R.ReceiveAck(old(State()), cursor, after)
      ensures acks == old(acks)[cursor := if after <= old(seqNo) then after else old(seqNo)]
      ensures Retained(old(ops), ops, acks, retainOps)
    {
      acks := acks[cursor := Min(after, seqNo)];
      PruneLog();
    }

    method MustSnapshot(after: nat, scope: Option<Scope>) returns (needed: bool)
      ensures needed == NeedsSnapshot(OpLogs.Log(seqNo, ops, trimmed, scopeTrimmed), after, scope)
    {
      if scope.None? {
        return after < trimmed;
      }
      var left := scopeTrimmed.Keys;
      while left != {}
        invariant left <= scopeTrimmed.Keys
        invariant forall own | own in scopeTrimmed.Keys - left :: !(scopeTrimmed[own] > after && ScopeMatches(own, scope.value))
        decreases |left|
      {
        var own :| own in left;
        if scopeTrimmed[own] > after && ScopeMatches(own, scope.value) {
          return true;
        }
        left := left - {own};
      }
      needed := false;
    }

    /** One pull: ask, apply, move the cursor, acknowledge. */
    method PullOnce(peer: CRDTNode, scope: Option<Scope>, batch: nat) returns (granted: bool, done: bool)
      requires Valid() && peer.Valid() && this != peer && clock != peer.clock && store != peer.store
      modifies this`lastSeen, clock, store
      modifies peer`ops, peer`trimmed, peer`scopeTrimmed, peer`acks
      ensures Valid() && peer.Valid()
      ensures granted == !NeedsSnapshot(old(peer.State()).log, R.CursorAt(old(State()), R.Cursor(peer.id, scope)), scope)
      ensures !granted ==> State() == old(State()) && peer.State() == old(peer.State())
      ensures granted ==> Pulled(old(State()), old(peer.State()), State(), peer.State(), scope, done)
    {
      var c := R.Cursor(peer.id, scope);
      var after := if c in lastSeen then lastSeen[c] else 0;
      var refused := peer.MustSnapshot(after, scope);
      if refused {
        return false, false;
      }
      ghost var n, p := State(), peer.State();
      var reply := CollectOpsAfter(OpLogs.Log(peer.seqNo, peer.ops, peer.trimmed, peer.scopeTrimmed), after, batch, scope);
      var lastSeq := peer.seqNo;
      PullOutcome(n, p, scope, batch);
      hide Pulled, Retained, AboveTrim, Ascending, ValidDb, NeedsSnapshot, OpsAfter, R.Receive, R.ReceiveAck;
      var _ := ApplyRemote(c, reply);
      var seen := SeenAfter(after, reply, lastSeq);
      lastSeen := lastSeen[c := Max(lastSeen[c], seen)];
      peer.TakeAck(R.Cursor(id, scope), seen);
      granted := true;
      done := reply == [] || seen >= lastSeq;
    }

    /**
     * Pull from `peer` until it has no more.  The loop ends, is refused exactly when the first pull
     * would be, and otherwise leaves everything the peer's log held in the scope absorbed here and
     * the cursor at the peer's end.
     */
    method SyncPeer(peer: CRDTNode, scope: Option<Scope>, batch: nat) returns (granted: bool)
      requires Valid() && peer.Valid() && this != peer && clock != peer.clock && store != peer.store
      modifies this`lastSeen, clock, store
      modifies peer`ops, peer`trimmed, peer`scopeTrimmed, peer`acks
      ensures Valid() && peer.Valid() && peer.seqNo == old(peer.seqNo)
      ensures granted == !NeedsSnapshot(old(peer.State()).log, R.CursorAt(old(State()), R.Cursor(peer.id, scope)), scope)
      ensures !granted ==> State() == old(State()) && peer.State() == old(peer.State())
      ensures granted ==>
                var after := R.CursorAt(old(State()), R.Cursor(peer.id, scope));
                && R.CursorAt(State(), R.Cursor(peer.id, scope)) == Max(after, peer.seqNo)
                && R.Grows(old(State()), State())
                && AbsorbedBetween(old(peer.ops), after, Max(after, peer.seqNo), scope, State())
    {
      var c := R.Cursor(peer.id, scope);
      ghost var n, p := State(), peer.State();
      ghost var start, held := R.CursorAt(n, c), peer.ops;
      var done;
      granted, done := PullOnce(peer, scope, batch);
      while granted && !done
        invariant Valid() && peer.Valid()
        invariant granted == !NeedsSnapshot(p.log, start, scope)
        invariant !granted ==> State() == n && peer.State() == p
        invariant granted ==> Pulled(n, p, State(), peer.State(), scope, done)
        decreases peer.seqNo - R.CursorAt(State(), c), !done
      {
        ghost var n1, p1 := State(), peer.State();
        granted, done := PullOnce(peer, scope, batch);
        PulledTwice(n, p, n1, p1, State(), peer.State(), scope, done);
      }
    }
  }

  lemma PulledTwice(n: R.NodeState, p: R.NodeState, n1: R.NodeState, p1: R.NodeState,
                    n2: R.NodeState, p2: R.NodeState, scope: Option<Scope>, done: bool)
    requires Pulled(n, p, n1, p1, scope, false) && Pulled(n1, p1, n2, p2, scope, done)
    ensures Pulled(n, p, n2, p2, scope, done)
  {
    var after, mid, upto := R.CursorAt(n, R.Cursor(p.id, scope)), R.CursorAt(n1, R.Cursor(p.id, scope)),
      R.CursorAt(n2, R.Cursor(p.id, scope));
    AbsorbedJoin(p.log.ops, p1.log.ops, after, mid, upto, scope, n, n1, n2);
    forall op | op in p.log.ops && op.seqNo > upto ensures op in p2.log.ops {
      assert op in p1.log.ops;
    }
  }

  /** The ops issued for `rs` by a node whose clock and sequence stood at `c` and `last`. */
  function Stamped(id: NodeId, c: nat, last: nat, rs: seq<R.Request>): seq<Op> {
    if rs == [] then []
    else
      var r := rs[|rs| - 1];
      Stamped(id, c, last, rs[..|rs| - 1]) + [Op(r.kind, r.key, r.shard, r.value, Stamp(c + |rs|, id), id, last + |rs|)]
  }

  lemma {:induction false} StampedNumbers(id: NodeId, c: nat, last: nat, rs: seq<R.Request>)
    ensures |Stamped(id, c, last, rs)| == |rs|
    ensures forall i | 0 <= i < |rs| :: Stamped(id, c, last, rs)[i].seqNo == last + i + 1
  {
    if rs != [] {
      StampedNumbers(id, c, last, rs[..|rs| - 1]);
    }
  }

  /** Receiving one by one is touching the clock for everything and then applying the batch. */
  lemma {:induction false} ReceiveSplits(n: R.NodeState, ops: seq<Op>)
    ensures R.Receive(n, ops) == n.(clock := R.Receive(n, ops).clock, rows := ApplyOps(n.rows, n.dropped, ops).0)
  {
    if ops != [] {
      ReceiveSplits(n, ops[..|ops| - 1]);
    }
  }

  lemma NothingCommitted(n: R.NodeState)
    ensures R.Commit(n, []) == n && Stamped(n.id, n.clock, n.log.seqNo, []) == [] && ApplyOps(n.rows, n.dropped, []).0 == n.rows
    ensures n.log.ops + [] == n.log.ops
  {
  }

  lemma {:induction false} LastCommit(n: R.NodeState, rs: seq<R.Request>)
    requires rs != []
    ensures var r := rs[|rs| - 1];
            && R.Commit(n, rs) == R.CommitOne(R.Commit(n, rs[..|rs| - 1]), r)
            && Stamped(n.id, n.clock, n.log.seqNo, rs) == Stamped(n.id, n.clock, n.log.seqNo, rs[..|rs| - 1]) +
                 [Op(r.kind, r.key, r.shard, r.value, Stamp(n.clock + |rs|, n.id), n.id, n.log.seqNo + |rs|)]
  {
    hide R.CommitOne;
  }

  lemma {:induction false} LastApplied(n: R.NodeState, logged: seq<Op>, op: Op)
    ensures ApplyOps(n.rows, n.dropped, logged + [op]).0 == R.ApplyOne(ApplyOps(n.rows, n.dropped, logged).0, n.dropped, op)
  {
    assert (logged + [op])[..|logged|] == logged;
  }

  lemma CommitOneSplits(n: R.NodeState, k: nat, logged: seq<Op>, rows: Db, r: R.Request)
    ensures var before := n.(clock := n.clock + k, log := n.log.(seqNo := n.log.seqNo + k, ops := n.log.ops + logged), rows := rows);
            var op := Op(r.kind, r.key, r.shard, r.value, Stamp(n.clock + k + 1, n.id), n.id, n.log.seqNo + k + 1);
            R.CommitOne(before, r) == n.(clock := n.clock + k + 1,
                                         log := n.log.(seqNo := n.log.seqNo + k + 1, ops := n.log.ops + (logged + [op])),
                                         rows := R.ApplyOne(rows, n.dropped, op))
  {
    var op := Op(r.kind, r.key, r.shard, r.value, Stamp(n.clock + k + 1, n.id), n.id, n.log.seqNo + k + 1);
    assert (n.log.ops + logged) + [op] == n.log.ops + (logged + [op]);
  }

  /** Committing one by one is stamping and logging everything and then applying the batch. */
  lemma {:induction false} CommitSplits(n: R.NodeState, rs: seq<R.Request>)
    ensures var logged := Stamped(n.id, n.clock, n.log.seqNo, rs);
            R.Commit(n, rs) == n.(clock := n.clock + |rs|,
                                  log := n.log.(seqNo := n.log.seqNo + |rs|, ops := n.log.ops + logged),
                                  rows := ApplyOps(n.rows, n.dropped, logged).0)
  {
    hide *;
    if rs == [] {
      NothingCommitted(n);
    } else {
      var front, r := rs[..|rs| - 1], rs[|rs| - 1];
      var k := |front|;
      var logged := Stamped(n.id, n.clock, n.log.seqNo, front);
      var op := Op(r.kind, r.key, r.shard, r.value, Stamp(n.clock + k + 1, n.id), n.id, n.log.seqNo + k + 1);
      CommitSplits(n, front);
      LastCommit(n, rs);
      assert Stamped(n.id, n.clock, n.log.seqNo, rs) == logged + [op];
      LastApplied(n, logged, op);
      CommitOneSplits(n, k, logged, ApplyOps(n.rows, n.dropped, logged).0, r);
    }
  }

  /** What one granted pull achieves between the puller `n` and the source `p`. */
  ghost predicate Pulled(n: R.NodeState, p: R.NodeState, n': R.NodeState, p': R.NodeState, scope: Option<Scope>, done: bool) {
    var after, cursor := R.CursorAt(n, R.Cursor(p.id, scope)), R.CursorAt(n', R.Cursor(p.id, scope));
    && n'.id == n.id && p'.id == p.id && p'.log.seqNo == p.log.seqNo
    && (if done then cursor == Max(after, p.log.seqNo) else after < cursor < p.log.seqNo)
    && R.Grows(n, n')
    && !NeedsSnapshot(p'.log, cursor, scope)
    && AbsorbedBetween(p.log.ops, after, cursor, scope, n')
    && StillHeld(p.log.ops, cursor, p'.log.ops)
  }

  ghost predicate StillHeld(ops: seq<Op>, cursor: nat, later: seq<Op>) {
    forall op {:trigger op in later} | op in ops && op.seqNo > cursor :: op in later
  }

  /** The puller after applying `reply` and moving its cursor. */
  function AfterReply(n: R.NodeState, c: R.Cursor, reply: seq<Op>, lastSeq: nat): R.NodeState {
    var seen := SeenAfter(R.CursorAt(n, c), reply, lastSeq);
    R.Advance(R.Advance(R.Receive(n, reply), c, SeenAfter(0, reply, 0)), c, seen)
  }

  lemma PullAbsorbs(n: R.NodeState, p: R.NodeState, scope: Option<Scope>, batch: nat)
    requires ValidDb(n.rows)
    requires Ascending(p.log.ops) && forall op | op in p.log.ops :: 1 <= op.seqNo <= p.log.seqNo
    ensures var c := R.Cursor(p.id, scope); var after := R.CursorAt(n, c);
            var reply := OpsAfter(p.log, after, batch, scope);
            var n' := AfterReply(n, c, reply, p.log.seqNo);
            R.Grows(n, n') && AbsorbedBetween(p.log.ops, after, R.CursorAt(n', c), scope, n')
  {
    var c := R.Cursor(p.id, scope);
    var after := R.CursorAt(n, c);
    var reply := OpsAfter(p.log, after, batch, scope);
    var n' := AfterReply(n, c, reply, p.log.seqNo);
    ReplyCovers(p.log.ops, p.log.seqNo, after, batch, scope);
    R.ReceiveKeeps(n, reply);
    ReceiveAbsorbs(n, reply);
    SameRowsAbsorb(R.Receive(n, reply), n');
    forall op | op in p.log.ops && Wanted(op, after, scope) && op.seqNo <= R.CursorAt(n', c)
      ensures R.Absorbed(n', op)
    {
      assert op in reply;
    }
  }

  lemma {:induction false} PullOutcome(n: R.NodeState, p: R.NodeState, scope: Option<Scope>, batch: nat)
    requires ValidDb(n.rows)
    requires Ascending(p.log.ops) && forall op | op in p.log.ops :: 1 <= op.seqNo <= p.log.seqNo
    requires !NeedsSnapshot(p.log, R.CursorAt(n, R.Cursor(p.id, scope)), scope)
    ensures var after := R.CursorAt(n, R.Cursor(p.id, scope));
            var reply := OpsAfter(p.log, after, batch, scope);
            var seen := SeenAfter(after, reply, p.log.seqNo);
            Pulled(n, p, AfterReply(n, R.Cursor(p.id, scope), reply, p.log.seqNo),
                   R.ReceiveAck(p, R.Cursor(n.id, scope), seen), scope, reply == [] || seen >= p.log.seqNo)
  {
    var c := R.Cursor(p.id, scope);
    var after := R.CursorAt(n, c);
    var reply := OpsAfter(p.log, after, batch, scope);
    var seen := SeenAfter(after, reply, p.log.seqNo);
    var n' := AfterReply(n, c, reply, p.log.seqNo);
    hide R.Receive, R.ReceiveAck, R.Grows, R.Absorbed, NeedsSnapshot, AbsorbedBetween, Ascending, Wanted;
    PullAbsorbs(n, p, scope, batch);
    ReplyCovers(p.log.ops, p.log.seqNo, after, batch, scope);
    hide OpsAfter;
    R.ReceiveKeeps(n, reply);
    AckKeepsServing(p, R.Cursor(n.id, scope), R.CursorAt(n', c), seen, after, scope);
  }

  method SplitAt(ops: seq<Op>, cut: nat) returns (kept: seq<Op>, removed: seq<Op>)
    requires forall op | op in ops :: op.seqNo >= 1
    ensures kept == Pick(ops, UpTo(cut), false) && removed == Pick(ops, UpTo(cut), true)
  {
    kept, removed := [], [];
    for i := 0 to |ops|
      invariant kept == Pick(ops[..i], UpTo(cut), false) && removed == Pick(ops[..i], UpTo(cut), true)
    {
      assert ops[..i + 1][..i] == ops[..i];
      assert ops[i] in ops;
      if ops[i].seqNo > cut {
        kept := kept + [ops[i]];
      } else {
        removed := removed + [ops[i]];
      }
    }
    assert ops[..|ops|] == ops;
  }

  lemma PruneFields(log: Log, watermark: Option<nat>, retainOps: nat, cut: nat)
    requires cut == PruneCut(log, watermark, retainOps) && cut != log.trimmed
    ensures Prune(log, watermark, retainOps) ==
            OpLogs.Log(log.seqNo, Pick(log.ops, UpTo(cut), false), cut,
                       RememberAll(log.scopeTrimmed, Pick(log.ops, UpTo(cut), true)))
  {
  }

  /** What pruning keeps: all without an acknowledgement, else what some peer lacks or is retained. */
  ghost predicate Retained(before: seq<Op>, after: seq<Op>, acks: map<R.Cursor, nat>, retainOps: nat) {
    forall op :: op in after <==> op in before && (acks == map[] || exists c :: c in acks && op.seqNo + retainOps > acks[c])
  }

  /** What pruning keeps, in order and above the new trim mark. */
  lemma PruneNodeKeeps(n: R.NodeState)
    requires AboveTrim(n.log) && Ascending(n.log.ops) && n.log.trimmed <= n.log.seqNo
    ensures forall op :: op in R.PruneNode(n).log.ops <==>
                         op in n.log.ops && (n.acks != map[] ==> exists c :: c in n.acks && op.seqNo + n.retainOps > n.acks[c])
    ensures var log := R.PruneNode(n).log; AboveTrim(log) && Ascending(log.ops) && log.trimmed <= log.seqNo
    ensures R.PruneNode(n) == n.(log := R.PruneNode(n).log)
  {
    R.PruneNodeExact(n);
    PruneExact(n.log, R.Watermark(n.acks), n.retainOps);
  }

  method RememberTrims(trims: map<Scope, nat>, removed: seq<Op>) returns (result: map<Scope, nat>)
    ensures result == RememberAll(trims, removed)
  {
    result := trims;
    for i := 0 to |removed|
      invariant result == RememberAll(trims, removed[..i])
    {
      assert removed[..i + 1][..i] == removed[..i];
      result := Remember(result, removed[i]);
    }
    assert removed[..|removed|] == removed;
  }

  /** Every op of `ops` wanted after `after` and numbered up to `upto` has been absorbed. */
  ghost predicate AbsorbedBetween(ops: seq<Op>, after: nat, upto: nat, scope: Option<Scope>, n: R.NodeState) {
    forall op {:trigger R.Absorbed(n, op)} | op in ops && Wanted(op, after, scope) && op.seqNo <= upto :: R.Absorbed(n, op)
  }

  lemma AbsorbedJoin(ops: seq<Op>, later: seq<Op>, after: nat, mid: nat, upto: nat, scope: Option<Scope>,
                     n: R.NodeState, n1: R.NodeState, n2: R.NodeState)
    requires R.Grows(n, n1) && R.Grows(n1, n2)
    requires AbsorbedBetween(ops, after, mid, scope, n1) && AbsorbedBetween(later, mid, upto, scope, n2)
    requires forall op | op in ops && op.seqNo > mid :: op in later
    ensures R.Grows(n, n2) && AbsorbedBetween(ops, after, upto, scope, n2)
  {
    forall op | op in ops && Wanted(op, after, scope) && op.seqNo <= upto ensures R.Absorbed(n2, op) {
      assert op.seqNo <= mid ==> R.Absorbed(n1, op);
    }
  }

  lemma SameRowsAbsorb(a: R.NodeState, b: R.NodeState)
    requires b.rows == a.rows && b.dropped == a.dropped
    ensures forall op :: R.Absorbed(b, op) <==> R.Absorbed(a, op)
  {
  }

  lemma {:induction false} ApplyOpsValid(db: Db, dropped: set<(string, string)>, ops: seq<Op>)
    requires ValidDb(db)
    ensures ValidDb(ApplyOps(db, dropped, ops).0)
  {
    if ops != [] {
      ApplyOpsValid(db, dropped, ops[..|ops| - 1]);
      ApplyWriteAbsorbs(ApplyOps(db, dropped, ops[..|ops| - 1]).0, Applied(ops[|ops| - 1]));
    }
  }

  /** A reply holds every wanted op of the log up to the new cursor. */
  lemma ReplyCovers(ops: seq<Op>, last: nat, after: nat, limit: nat, scope: Option<Scope>)
    requires Ascending(ops) && forall op | op in ops :: op.seqNo <= last
    ensures var reply := Limited(Select(ops, after, scope), limit);
            var seen := SeenAfter(after, reply, last);
            && (forall op | op in reply :: op in ops && op.seqNo > after)
            && (reply != [] ==> after < seen <= last)
            && (forall op | op in ops && Wanted(op, after, scope) && op.seqNo <= seen :: op in reply)
  {
    var all, reply := Select(ops, after, scope), Limited(Select(ops, after, scope), limit);
    SelectMembers(ops, after, scope);
    SelectAscends(ops, after, scope);
    forall op | op in ops && Wanted(op, after, scope) && op.seqNo <= SeenAfter(after, reply, last)
      ensures op in reply
    {
      var i :| 0 <= i < |all| && all[i] == op;
      assert reply != [];
      assert i >= |reply| ==> all[|reply| - 1].seqNo < all[i].seqNo;
    }
    if reply != [] {
      assert reply[|reply| - 1] in all;
    }
  }

  /** Acknowledging up to `seen` never prunes an op, or demands a snapshot, after `seen`. */
  lemma {:induction false} AckKeepsServing(p: R.NodeState, c: R.Cursor, cursor: nat, seen: nat, after: nat, scope: Option<Scope>)
    requires !NeedsSnapshot(p.log, after, scope) && after <= cursor && seen <= cursor
    ensures var log := R.ReceiveAck(p, c, seen).log;
            && R.ReceiveAck(p, c, seen).id == p.id && log.seqNo == p.log.seqNo
            && !NeedsSnapshot(log, cursor, scope)
            && (forall op | op in p.log.ops && op.seqNo > cursor :: op in log.ops)
  {
    var acks := p.acks[c := Min(seen, p.log.seqNo)];
    assert acks[c] in acks.Values;
    var watermark := R.Watermark(acks);
    var cut := PruneCut(p.log, watermark, p.retainOps);
    if cut != p.log.trimmed {
      assert cut <= seen;
      PickMembers(p.log.ops, UpTo(cut), false);
      PickMembers(p.log.ops, UpTo(cut), true);
      RememberAllMeans(p.log.scopeTrimmed, Pick(p.log.ops, UpTo(cut), true));
    }
  }
}
