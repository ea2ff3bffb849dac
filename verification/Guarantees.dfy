/** What every run of the concurrent-writer protocol guarantees its transactions. */
module Guarantees {
  import opened Prelude
  import opened VersionChain
  import opened VersionTable
  import opened Conflict
  import opened Transactions
  import opened SnapshotIsolation

  // ---- the theorems ----

  /** In every run, a live transaction reads its own latest write, else the last write
      the log holds at its read point. */
  lemma SnapshotReads<K(!new), V>(start: CommitSeq, run: seq<Step<K, V>>, t: TxnId, k: K)
    requires IsRun(Init<K, V>(start), run) && t in After(Init<K, V>(start), run).g.live
    ensures var s := After(Init<K, V>(start), run);
            && Inv(s) && TxnOk(s.g, t) && t in s.g.txns && t in s.b.writes
            && Read(ChainAt(s.b.chains, k), Through(s.g.txns[t].snap)) == SpecRead(s.g, s.b, t, k)
  {
    ReachableInv(start, run);
    var s := After(Init<K, V>(start), run);
    LiveRead(s.g, s.b, t, k);
    assert TxnOk(s.g, t);
  }

  /** In every run, two committed transactions that wrote a common key did not overlap:
      one had committed by the time the other took its snapshot. */
  lemma NoOverlappingWriters<K(!new), V>(start: CommitSeq, run: seq<Step<K, V>>, t: TxnId, u: TxnId)
    requires IsRun(Init<K, V>(start), run) && t != u
    requires var s := After(Init<K, V>(start), run);
             && t in s.g.txns && s.g.txns[t].status.Committed?
             && u in s.g.txns && s.g.txns[u].status.Committed?
             && Overlap(s.b.writes, t, u)
    ensures var s := After(Init<K, V>(start), run);
            || s.g.txns[t].status.at <= s.g.txns[u].snap.readSeq
            || s.g.txns[u].status.at <= s.g.txns[t].snap.readSeq
  {
    ReachableInv(start, run);
    var s := After(Init<K, V>(start), run);
    assert LoggedOk(s.g, t) && LoggedOk(s.g, u);
    assert CommittedBefore(s.g, t, u) || CommittedBefore(s.g, u, t);
    assert Overlap(s.b.writes, u, t) by {
      assert s.b.writes[t].Keys * s.b.writes[u].Keys == s.b.writes[u].Keys * s.b.writes[t].Keys;
    }
  }

  /** In every run, an open transaction's commit is refused only for a real conflict. */
  lemma RefusedOnlyForConflict<K(!new), V>(start: CommitSeq, run: seq<Step<K, V>>, t: TxnId)
    requires IsRun(Init<K, V>(start), run) && IsActive(After(Init<K, V>(start), run).g, t)
    ensures var s := After(Init<K, V>(start), run);
            && t in s.b.writes && CommitVerdict(s, t) != Expired
            && (CommitVerdict(s, t).Conflicts? <==>
                exists u :: CommittedSince(s.g, u, s.g.txns[t].snap.readSeq) && Overlap(s.b.writes, u, t))
  {
    ReachableInv(start, run);
    var s := After(Init<K, V>(start), run);
    assert TxnOk(s.g, t) && LiveOk(s.g, t);
    ValidateExact(s, t);
    NeverExpires(s, t, s.b.writes[t].Keys);
  }

  /** In every run, validating any write set at any read point the clock has passed is
      exact: expired if and only if the commit after the read point is in the log and its
      write set is no longer kept, else the first later writer of one of the keys, else
      clear. */
  lemma VerdictExact<K(!new), V>(start: CommitSeq, run: seq<Step<K, V>>, r: CommitSeq, ws: set<K>)
    requires IsRun(Init<K, V>(start), run)
    requires start <= r <= After(Init<K, V>(start), run).g.clock
    ensures var s := After(Init<K, V>(start), run);
            s.g.clock == start + |s.g.log| && VerdictOk(s, r, ws, Validated(s.ring, r, ws))
  {
    ReachableInv(start, run);
    BaseKept(Init<K, V>(start), run);
    ValidatedExact(After(Init<K, V>(start), run), r, ws);
  }

  lemma {:induction false} BaseKept<K, V>(s: State<K, V>, run: seq<Step<K, V>>)
    requires IsRun(s, run)
    ensures After(s, run).g.base == s.g.base
    decreases |run|
  {
    if run != [] {
      BaseKept(Next(s, run[0]), run[1..]);
    }
  }

  /** So a clear verdict is never given over a lost write: no transaction the log holds after
      the read point wrote any of the keys, retained or not. */
  lemma ClearIsSafe<K(!new), V>(start: CommitSeq, run: seq<Step<K, V>>, r: CommitSeq, ws: set<K>, u: TxnId)
    requires IsRun(Init<K, V>(start), run)
    requires start <= r <= After(Init<K, V>(start), run).g.clock
    requires var s := After(Init<K, V>(start), run);
             Validated(s.ring, r, ws) == Clear && CommittedSince(s.g, u, r)
    ensures var s := After(Init<K, V>(start), run);
            u in s.b.writes && ws * s.b.writes[u].Keys == {}
  {
    VerdictExact(start, run, r, ws);
    ReachableInv(start, run);
    var s := After(Init<K, V>(start), run);
    assert LoggedOk(s.g, u) && TxnOk(s.g, u);
    assert !WroteSince(s, r, ws, s.g.txns[u].status.at - s.g.base - 1);
  }

  // ---- reads are repeatable ----

  /** A step by others changes neither the log so far nor what t has written. */
  lemma StepKeeps<K, V>(s: State<K, V>, a: Step<K, V>, t: TxnId)
    requires Enabled(s, a) && t in s.g.txns && t in s.b.writes
    requires !(a.Stage? && a.t == t) && !(a.Abort? && a.t == t)
    requires s.g.lastTxn + 1 !in s.g.txns
    requires forall i :: 0 <= i < |s.g.log| ==> s.g.log[i] in s.g.txns && !IsActive(s.g, s.g.log[i])
    ensures var s' := Next(s, a);
            && t in s'.g.txns && s'.g.txns[t].snap == s.g.txns[t].snap
            && t in s'.b.writes && s'.b.writes[t] == s.b.writes[t]
            && s'.g.base == s.g.base && s.g.log <= s'.g.log
            && forall i :: 0 <= i < |s.g.log| ==>
                 (s.g.log[i] in s.b.writes <==> s.g.log[i] in s'.b.writes)
                 && (s.g.log[i] in s.b.writes ==> s.b.writes[s.g.log[i]] == s'.b.writes[s.g.log[i]])
  {
  }

  lemma SpecReadStable<K(!new), V>(s: State<K, V>, a: Step<K, V>, t: TxnId, k: K)
    requires Inv(s) && Enabled(s, a) && t in s.g.txns && t in s.b.writes
    requires !(a.Stage? && a.t == t) && !(a.Abort? && a.t == t)
    ensures Inv(Next(s, a)) && t in Next(s, a).g.txns && t in Next(s, a).b.writes
    ensures TxnOk(s.g, t) && TxnOk(Next(s, a).g, t)
    ensures Next(s, a).g.txns[t].snap == s.g.txns[t].snap
    ensures SpecRead(Next(s, a).g, Next(s, a).b, t, k) == SpecRead(s.g, s.b, t, k)
  {
    LogClosed(s.g);
    StepKeeps(s, a, t);
    StepInv(s, a);
    var s' := Next(s, a);
    assert TxnOk(s.g, t) && TxnOk(s'.g, t);
    LogReadStable(s.g.base, s.g.log, s'.g.log, s.b.writes, s'.b.writes, k, s.g.txns[t].snap.readSeq);
  }

  ghost predicate LeavesAlone<K, V>(run: seq<Step<K, V>>, t: TxnId) {
    forall i :: 0 <= i < |run| ==> !(run[i].Stage? && run[i].t == t) && !(run[i].Abort? && run[i].t == t)
  }

  lemma {:induction false} SpecReadRun<K(!new), V>(s: State<K, V>, run: seq<Step<K, V>>, t: TxnId, k: K)
    requires Inv(s) && IsRun(s, run) && t in s.g.txns && t in s.b.writes && LeavesAlone(run, t)
    ensures var s' := After(s, run);
            && Inv(s') && t in s'.g.txns && t in s'.b.writes && TxnOk(s.g, t) && TxnOk(s'.g, t)
            && s'.g.txns[t].snap == s.g.txns[t].snap
            && SpecRead(s'.g, s'.b, t, k) == SpecRead(s.g, s.b, t, k)
    decreases |run|
  {
    assert TxnOk(s.g, t);
    if run != [] {
      SpecReadStable(s, run[0], t, k);
      SpecReadRun(Next(s, run[0]), run[1..], t, k);
    }
  }

  /** Whatever others stage, commit, abort, collect or prune in between, a live
      transaction that does not write reads the same value again. */
  lemma RepeatableRead<K(!new), V>(s: State<K, V>, run: seq<Step<K, V>>, t: TxnId, k: K)
    requires Inv(s) && IsRun(s, run) && t in s.g.live && t in After(s, run).g.live && LeavesAlone(run, t)
    ensures var s' := After(s, run);
            && t in s.g.txns && t in s'.g.txns
            && Read(ChainAt(s'.b.chains, k), Through(s'.g.txns[t].snap))
               == Read(ChainAt(s.b.chains, k), Through(s.g.txns[t].snap))
  {
    LiveRead(s.g, s.b, t, k);
    SpecReadRun(s, run, t, k);
    var s' := After(s, run);
    LiveRead(s'.g, s'.b, t, k);
  }

  // ---- collection is lossless ----

  /** Collection at a watermark changes no live transaction's read and drops none of
      its entries; its three-way answer changes only where the whole chain is dropped,
      from a tombstone to nothing. */
  lemma CollectLossless<K(!new), V>(s: State<K, V>, w: CommitSeq, t: TxnId, k: K)
    requires Inv(s) && AtMostWatermark(s.g, w) && t in s.g.live
    ensures t in s.g.txns
    ensures var c, c' := ChainAt(s.b.chains, k), ChainAt(CollectIn(s.b, w).chains, k);
            var view := Through(s.g.txns[t].snap);
            && Read(c', view) == Read(c, view)
            && (forall i :: 0 <= i < |c| && c[i].txn == t ==> i < |c'| && c'[i] == c[i])
            && (Find(c', view) != Find(c, view) ==>
                  && k in s.b.chains && k !in CollectIn(s.b, w).chains
                  && Find(c, view).Some? && Find(c, view).value.tomb && Find(c', view) == None)
  {
    assert LiveOk(s.g, t) && TxnOk(s.g, t);
    var c, r := ChainAt(s.b.chains, k), s.g.txns[t].snap.readSeq;
    var view := Through(s.g.txns[t].snap);
    var c' := VersionChain.Collect(c, w);
    assert ChainAt(CollectIn(s.b, w).chains, k) == c';
    assert KeyOk(s.g, s.b.writes, k, c);
    CollectKeepsOwn(s.g, s.b.writes, w, k, c, t);
    LiveRead(s.g, s.b, t, k);
    CollectInv(s.g, s.b, w);
    LiveRead(RaiseHorizon(s.g, w), CollectIn(s.b, w), t, k);
    if Dead(c, w) {
      assert EntryOk(s.g, s.b.writes, k, c[0]);
      FindFirst(c, view, 0);
    } else if Cut(c, w) < |c| {
      var cut := Cut(c, w);
      assert EntryOk(s.g, s.b.writes, k, c[cut]);
      FindPrefix(c, view, cut + 1, cut);
    }
  }

  /** Collection is just as invisible to snapshots taken later, or unregistered, at any
      sequence it has not passed. */
  lemma CollectInvisibleToFresh<K(!new), V>(s: State<K, V>, w: CommitSeq, snap: Snapshot, k: K)
    requires Inv(s) && AtMostWatermark(s.g, w) && Unregistered(s.g, snap) && w <= snap.readSeq
    ensures Read(ChainAt(CollectIn(s.b, w).chains, k), Through(snap)) == Read(ChainAt(s.b.chains, k), Through(snap))
  {
    FreshRead(s.g, s.b, snap, k);
    CollectInv(s.g, s.b, w);
    forall u | u in snap.inFlight && u in s.g.txns ensures NotSeenBy(RaiseHorizon(s.g, w), u, snap.readSeq) {
      assert NotSeenBy(s.g, u, snap.readSeq);
    }
    FreshRead(RaiseHorizon(s.g, w), CollectIn(s.b, w), snap, k);
  }

  /** The watermark never falls, so a watermark computed earlier in a run stays safe. */
  lemma {:induction false} StaleWatermark<K(!new), V>(s: State<K, V>, run: seq<Step<K, V>>, w: CommitSeq)
    requires IsRun(s, run) && AtMostWatermark(s.g, w)
    ensures AtMostWatermark(After(s, run).g, w)
    decreases |run|
  {
    if run != [] {
      StaleWatermark(Next(s, run[0]), run[1..], w);
    }
  }
}
