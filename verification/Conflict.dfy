/**
  First-committer-wins bookkeeping (mvcc/conflict.go), the commit clock
  (mvcc/mvcc.go) and the watermark oracle (mvcc/oracle.go) as the stateful objects
  they are.
 */
module Conflict {
  import opened VersionChain

  /** The largest value of the 64-bit counters; also the oracle's "nobody" marker. */
  const MAX_SEQ: nat := 0xFFFF_FFFF_FFFF_FFFF

  class Clock {
    var current: CommitSeq
    var lastTxn: TxnId

    constructor (start: CommitSeq)
      ensures current == start && lastTxn == 0
    {
      current := start;
      lastTxn := 0;
    }

    method NextSeq() returns (n: CommitSeq)
      modifies this`current
      ensures n == current == old(current) + 1
    {
      current := current + 1;
      return current;
    }

    method NextTxn() returns (t: TxnId)
      modifies this`lastTxn
      ensures t == lastTxn == old(lastTxn) + 1
    {
      lastTxn := lastTxn + 1;
      return lastTxn;
    }
  }

  /** A sequence that is at most the clock and every live read point. */
  ghost predicate AtMostLive(live: map<TxnId, CommitSeq>, current: CommitSeq, w: CommitSeq) {
    w <= current && forall t :: t in live ==> w <= live[t]
  }

  class WatermarkOracle {
    var live: map<TxnId, CommitSeq>
    const clock: Clock

    constructor (clk: Clock)
      ensures live == map[] && clock == clk
    {
      live := map[];
      clock := clk;
    }

    method Register(txn: TxnId, readSeq: CommitSeq)
      modifies this
      ensures live == old(live)[txn := readSeq]
    {
      live := live[txn := readSeq];
    }

    method Deregister(txn: TxnId)
      modifies this
      ensures live == old(live) - {txn}
    {
      live := live - {txn};
    }

    /** The least live read point, or the clock when there is none.  As long as no read
        point is ahead of the clock it is the greatest sequence reclamation may use. */
    method Watermark() returns (w: CommitSeq)
      requires clock.current <= MAX_SEQ
      ensures if exists t :: t in live && live[t] < MAX_SEQ
              then (exists t :: t in live && live[t] == w) && forall t :: t in live ==> w <= live[t]
              else w == clock.current
      ensures (forall t :: t in live ==> live[t] <= clock.current) ==>
        AtMostLive(live, clock.current, w) && forall x: CommitSeq :: AtMostLive(live, clock.current, x) ==> x <= w
    {
      var least := MAX_SEQ;
      var todo := live.Keys;
      while todo != {}
        invariant todo <= live.Keys
        invariant least <= MAX_SEQ
        invariant forall t :: t in live && t !in todo ==> least <= live[t]
        invariant least < MAX_SEQ ==> exists t :: t in live && live[t] == least
        decreases todo
      {
        var t :| t in todo;
        var r := live[t];
        if r < least {
          least := r;
        }
        todo := todo - {t};
      }
      if least == MAX_SEQ {
        return clock.current;
      }
      return least;
    }
  }

  /** What one transaction modified, for conflict detection at point granularity. */
  class WriteSet<K(==)> {
    var modified: set<K>
    var inserted: seq<nat>

    constructor ()
      ensures modified == {} && inserted == []
    {
      modified, inserted := {}, [];
    }

    method MarkModified(id: K)
      modifies this`modified
      ensures modified == old(modified) + {id}
    {
      modified := modified + {id};
    }

    method MarkInserted(pos: nat)
      modifies this`inserted
      ensures inserted == old(inserted) + [pos]
    {
      inserted := inserted + [pos];
    }

    /** Whether two sets share a point, looking each member of the smaller up in the
        larger. */
    static method ConflictsWith(ws: set<K>, other: set<K>) returns (r: bool)
      ensures r <==> ws * other != {}
    {
      var a, b := ws, other;
      if |b| < |a| {
        a, b := b, a;
      }
      var todo := a;
      while todo != {}
        invariant todo <= a
        invariant (a - todo) * b == {}
        decreases todo
      {
        var id :| id in todo;
        if id in b {
          assert id in ws * other;
          return true;
        }
        todo := todo - {id};
      }
      return false;
    }
  }

  /** A committed transaction's write set, kept for validating open ones. */
  datatype CommittedWrite<K> = CommittedWrite(txn: TxnId, seqno: CommitSeq, ids: set<K>)

  datatype Verdict = Clear | Conflicts(txn: TxnId) | Expired

  function FirstConflict<K>(entries: seq<CommittedWrite<K>>, r: CommitSeq, ws: set<K>): Verdict {
    if entries == [] then Clear
    else if entries[0].seqno > r && ws * entries[0].ids != {} then Conflicts(entries[0].txn)
    else FirstConflict(entries[1..], r, ws)
  }

  function Validated<K>(entries: seq<CommittedWrite<K>>, r: CommitSeq, ws: set<K>): Verdict {
    if entries != [] && entries[0].seqno > r + 1 then Expired else FirstConflict(entries, r, ws)
  }

  function Pruned<K>(entries: seq<CommittedWrite<K>>, w: CommitSeq): seq<CommittedWrite<K>> {
    if entries == [] || entries[0].seqno >= w then entries else Pruned(entries[1..], w)
  }

  ghost predicate Opposes<K>(e: CommittedWrite<K>, r: CommitSeq, ws: set<K>) {
    e.seqno > r && ws * e.ids != {}
  }

  /** The verdict over a scanned prefix of harmless entries is the verdict over the rest. */
  lemma {:induction false} ConflictAfter<K>(entries: seq<CommittedWrite<K>>, r: CommitSeq, ws: set<K>, i: nat)
    requires i <= |entries| && forall j :: 0 <= j < i ==> !Opposes(entries[j], r, ws)
    ensures FirstConflict(entries, r, ws) == FirstConflict(entries[i..], r, ws)
  {
    if i > 0 {
      assert !Opposes(entries[0], r, ws);
      ConflictAfter(entries[1..], r, ws, i - 1);
      assert entries[1..][i - 1..] == entries[i..];
    } else {
      assert entries[0..] == entries;
    }
  }

  /** The scan is clear exactly when no retained later commit shares a point, and
      otherwise names the first that does. */
  lemma {:induction false} ConflictExact<K>(entries: seq<CommittedWrite<K>>, r: CommitSeq, ws: set<K>)
    ensures FirstConflict(entries, r, ws) == Clear <==>
            forall i :: 0 <= i < |entries| ==> !Opposes(entries[i], r, ws)
    ensures FirstConflict(entries, r, ws) != Clear ==>
            exists i :: 0 <= i < |entries| && Opposes(entries[i], r, ws)
              && FirstConflict(entries, r, ws) == Conflicts(entries[i].txn)
              && forall j :: 0 <= j < i ==> !Opposes(entries[j], r, ws)
  {
    var i := 0;
    while i < |entries| && !Opposes(entries[i], r, ws)
      invariant i <= |entries|
      invariant forall j :: 0 <= j < i ==> !Opposes(entries[j], r, ws)
    {
      i := i + 1;
    }
    ConflictAfter(entries, r, ws, i);
    if i < |entries| {
      assert entries[i..][0] == entries[i];
    }
  }

  class CommittedRing<K(==)> {
    var entries: seq<CommittedWrite<K>>

    constructor ()
      ensures entries == []
    {
      entries := [];
    }

    method Record(txn: TxnId, n: CommitSeq, ws: set<K>)
      modifies this
      ensures entries == old(entries) + [CommittedWrite(txn, n, ws)]
    {
      entries := entries + [CommittedWrite(txn, n, ws)];
    }

    method Validate(readSeq: CommitSeq, ws: set<K>) returns (v: Verdict)
      ensures v == Validated(entries, readSeq, ws)
    {
      if |entries| > 0 && entries[0].seqno > readSeq + 1 {
        return Expired;
      }
      var i := 0;
      while i < |entries|
        invariant 0 <= i <= |entries|
        invariant forall j :: 0 <= j < i ==> !Opposes(entries[j], readSeq, ws)
      {
        var c := entries[i];
        if c.seqno > readSeq {
          var shared := WriteSet<K>.ConflictsWith(ws, c.ids);
          if shared {
            ConflictAfter(entries, readSeq, ws, i);
            assert entries[i..][0] == c;
            return Conflicts(c.txn);
          }
        }
        i := i + 1;
      }
      ConflictExact(entries, readSeq, ws);
      return Clear;
    }

    method Prune(watermark: CommitSeq)
      modifies this
      ensures entries == Pruned(old(entries), watermark)
    {
      var keep := 0;
      while keep < |entries| && entries[keep].seqno < watermark
        invariant 0 <= keep <= |entries|
        invariant entries == old(entries)
        invariant Pruned(entries, watermark) == Pruned(entries[keep..], watermark)
      {
        assert entries[keep..][1..] == entries[keep + 1..];
        keep := keep + 1;
      }
      assert keep < |entries| ==> entries[keep..][0] == entries[keep];
      if keep > 0 {
        entries := entries[keep..];
      }
    }
  }

  /** The single-writer lock (mvcc/writerlock.go): a one-slot channel. */
  class WriterLock {
    var held: bool

    constructor ()
      ensures !held
    {
      held := false;
    }

    method TryAcquire() returns (ok: bool)
      modifies this
      ensures ok == !old(held) && held
    {
      ok := !held;
      held := true;
    }

    method Release()
      modifies this
      ensures !held
    {
      held := false;
    }
  }
}
