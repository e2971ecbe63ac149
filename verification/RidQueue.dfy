/**
 * The queue of rows whose derived state is out of date (src/store.js, class RidBitmapQueue): a
 * bitmap for membership and a list with a moving head for order.
 */
module RidQueues {
  import opened Wrappers
  import opened RidColumns

  predicate Member(bits: seq<bool>, rid: nat) {
    rid < |bits| && bits[rid]
  }

  /** Every member is in the list from `head` on, or among `out`. */
  ghost predicate AllListed(bits: seq<bool>, queue: seq<nat>, head: nat, out: seq<nat>) {
    head <= |queue| && forall rid: nat | rid < |bits| && bits[rid] :: rid in out || rid in queue[head..]
  }

  class RidBitmapQueue {
    var bits: seq<bool>
    var queue: seq<nat>
    var head: nat
    var size: int

    ghost predicate Holds(rid: nat)
      reads this
    {
      Member(bits, rid)
    }

    ghost predicate Valid()
      reads this
    {
      head <= |queue| && size == Trues(bits)
    }

    /** Every member is still ahead of the head. */
    ghost predicate Waiting()
      reads this
    {
      AllListed(bits, queue, head, [])
    }

    constructor ()
      ensures Valid() && Waiting() && forall rid :: !Holds(rid)
    {
      bits, queue, head, size := [], [], 0, 0;
    }

    method Add(rid: nat) returns (added: bool)
      requires Valid() && Waiting()
      modifies this
      ensures Valid() && Waiting()
      ensures added == !old(Holds(rid))
      ensures forall k :: Holds(k) <==> old(Holds(k)) || k == rid
    {
      Ensure(rid);
      if bits[rid] {
        return false;
      }
      TruesUpdate(bits, rid, true);
      assert forall k | k in queue[head..] :: k in (queue + [rid])[head..] by {
        assert (queue + [rid])[head..] == queue[head..] + [rid];
      }
      assert rid in (queue + [rid])[head..] by {
        assert (queue + [rid])[head..] == queue[head..] + [rid];
      }
      bits, size, queue := bits[rid := true], size + 1, queue + [rid];
      added := true;
    }

    method Delete(rid: nat) returns (deleted: bool)
      requires Valid()
      modifies this
      ensures Valid()
      ensures deleted == old(Holds(rid))
      ensures forall k :: Holds(k) <==> old(Holds(k)) && k != rid
      ensures forall out | old(AllListed(bits, queue, head, out)) :: AllListed(bits, queue, head, out)
    {
      if rid >= |bits| || !bits[rid] {
        return false;
      }
      TruesUpdate(bits, rid, false);
      bits, size := bits[rid := false], size - 1;
      if size == 0 {
        Compact();
      }
      deleted := true;
    }

    method Clear()
      modifies this
      ensures Valid() && Waiting()
      ensures forall rid :: !Holds(rid)
    {
      bits := Falses(|bits|);
      NoTrue(|bits|);
      queue, head, size := [], 0, 0;
    }

    /**
     * The next members, at most `limit`.  They stay members until deleted; whatever member is not
     * handed out is still waiting, so an empty answer means there is none.
     */
    method Take(limit: nat) returns (out: seq<nat>)
      requires Valid() && Waiting()
      modifies `queue, `head
      ensures Valid() && |out| <= limit
      ensures forall rid | rid in out :: Holds(rid)
      ensures AllListed(bits, queue, head, out)
      ensures out == [] && limit != 0 ==> forall rid :: !Holds(rid)
    {
      out := [];
      if limit == 0 || size <= 0 {
        if size <= 0 {
          Empty();
        }
        return;
      }
      while |out| < limit && head < |queue|
        invariant Valid() && |out| <= limit
        invariant forall rid | rid in out :: Holds(rid)
        invariant AllListed(bits, queue, head, out)
        decreases |queue| - head
      {
        var rid := queue[head];
        assert queue[head..] == [rid] + queue[head + 1..];
        head := head + 1;
        if rid < |bits| && bits[rid] {
          out := out + [rid];
        }
      }
      assert out == [] ==> queue[head..] == [];
      Compact();
    }

    /** A zero size means no member. */
    lemma Empty()
      requires Valid() && size <= 0
      ensures forall rid: nat | rid < |bits| :: !bits[rid]
    {
      forall rid: nat | rid < |bits| ensures !bits[rid] {
        NoTrues(bits, rid);
      }
    }

    method Compact()
      requires Valid()
      modifies `queue, `head
      ensures Valid()
      ensures forall out | old(AllListed(bits, queue, head, out)) :: AllListed(bits, queue, head, out)
    {
      if size == 0 {
        Empty();
        queue, head := [], 0;
        return;
      }
      if head < 4096 || head * 2 < |queue| {
        return;
      }
      queue, head := queue[head..], 0;
    }

    method Ensure(rid: nat)
      requires Valid() && Waiting()
      modifies `bits
      ensures Valid() && Waiting() && rid < |bits|
      ensures forall k :: Holds(k) <==> old(Holds(k))
    {
      if rid < |bits| {
        return;
      }
      var next := if |bits| == 0 then 1024 else |bits|;
      while next <= rid
        invariant |bits| <= next && 0 < next
        decreases rid - next
      {
        next := 2 * next;
      }
      PadTrues(bits, next - |bits|);
      bits := bits + Falses(next - |bits|);
    }
  }

  lemma {:induction false} NoTrue(n: nat)
    ensures Trues(Falses(n)) == 0
  {
    if n != 0 {
      NoTrue(n - 1);
      assert Falses(n)[..n - 1] == Falses(n - 1);
    }
  }
}
