/**
  The concurrent-writer protocol as one transition system over the version table, the
  clock, the oracle and the committed ring.  Begin takes the snapshot and registers it;
  commit validates against the ring and, when clear, takes the next sequence, stamps
  the table and records the write set in one step.  Collection and pruning may use any
  sequence the oracle's watermark allows, including one computed earlier.
 */
module SnapshotIsolation {
  import opened VersionChain
  import opened Conflict
  import opened Transactions

  datatype State<K, +V> = State(g: Ledger, b: Table<K, V>, ring: seq<CommittedWrite<K>>)

  datatype Step<K, +V> =
    | Begin(inFlight: seq<TxnId>)
    | Stage(t: TxnId, k: K, v: Version<V>)
    | Commit(t: TxnId)
    | Abort(t: TxnId)
    | Deregister(t: TxnId)
    | Collect(w: CommitSeq)
    | Prune(w: CommitSeq)

  function Init<K, V>(start: CommitSeq): State<K, V> {
    State(InitLedger(start), InitTable(), [])
  }

  ghost predicate Enabled<K, V>(s: State<K, V>, a: Step<K, V>) {
    match a
    case Begin(f) => forall u :: u in f ==> IsActive(s.g, u)
    case Stage(t, _, _) => IsActive(s.g, t) && t in s.b.writes
    case Commit(t) => IsActive(s.g, t) && t in s.b.writes
    case Abort(t) => IsActive(s.g, t)
    case Deregister(t) => !IsActive(s.g, t)
    case Collect(w) => AtMostWatermark(s.g, w)
    case Prune(w) => AtMostWatermark(s.g, w)
  }

  function CommitVerdict<K, V>(s: State<K, V>, t: TxnId): Verdict
    requires t in s.g.txns && t in s.b.writes
  {
    Validated(s.ring, s.g.txns[t].snap.readSeq, s.b.writes[t].Keys)
  }

  /** A commit that is not clear changes nothing; its transaction stays open. */
  ghost function Next<K, V>(s: State<K, V>, a: Step<K, V>): State<K, V>
    requires Enabled(s, a)
  {
    match a
    case Begin(f) => s.(g := BeginTxn(s.g, f), b := BeginIn(s.b, s.g.lastTxn + 1))
    case Stage(t, k, v) => s.(b := StageIn(s.b, t, k, v))
    case Commit(t) =>
      if CommitVerdict(s, t) != Clear then s
      else State(CommitTxn(s.g, t), CommitIn(s.b, t, s.g.clock + 1),
                 s.ring + [CommittedWrite(t, s.g.clock + 1, s.b.writes[t].Keys)])
    case Abort(t) => s.(g := AbortTxn(s.g, t), b := AbortIn(s.b, t))
    case Deregister(t) => s.(g := EndTxn(s.g, t))
    case Collect(w) => s.(g := RaiseHorizon(s.g, w), b := CollectIn(s.b, w))
    case Prune(w) => s.(ring := Pruned(s.ring, w))
  }

  ghost predicate IsRun<K, V>(s: State<K, V>, run: seq<Step<K, V>>)
    decreases |run|
  {
    run == [] || (Enabled(s, run[0]) && IsRun(Next(s, run[0]), run[1..]))
  }

  ghost function After<K, V>(s: State<K, V>, run: seq<Step<K, V>>): State<K, V>
    requires IsRun(s, run)
    decreases |run|
  {
    if run == [] then s else After(Next(s, run[0]), run[1..])
  }

  // ---- the ring ----

  /** How many of the oldest commits the ring has let go of. */
  function Dropped<K, V>(s: State<K, V>): int {
    |s.g.log| - |s.ring|
  }

  ghost predicate RingEntryOk<K, V>(s: State<K, V>, i: nat) {
    i < |s.ring| && |s.ring| <= |s.g.log| ==>
      var t := s.g.log[Dropped(s) + i];
      t in s.b.writes && s.ring[i] == CommittedWrite(t, s.g.base + Dropped(s) + i + 1, s.b.writes[t].Keys)
  }

  ghost predicate RingCovers<K, V>(s: State<K, V>, t: TxnId) {
    t in s.g.live ==> s.g.base + Dropped(s) <= s.g.live[t]
  }

  /** The ring is the log's suffix, never without the last commit, and reaches back to
      every live read point. */
  ghost predicate RingInv<K, V>(s: State<K, V>) {
    && |s.ring| <= |s.g.log| && (s.ring == [] ==> s.g.log == [])
    && (forall i :: RingEntryOk(s, i))
    && (forall t :: RingCovers(s, t))
  }

  ghost predicate Inv<K(!new), V>(s: State<K, V>) {
    TableInv(s.g, s.b) && RingInv(s)
  }

  /** A live transaction is never told that its snapshot expired. */
  lemma NeverExpires<K, V>(s: State<K, V>, t: TxnId, ws: set<K>)
    requires RingInv(s) && t in s.g.live
    ensures Validated(s.ring, s.g.live[t], ws) != Expired
  {
    assert RingCovers(s, t);
    if s.ring != [] {
      assert RingEntryOk(s, 0);
    }
    ConflictExact(s.ring, s.g.live[t], ws);
  }

  // ---- validation at any read point ----

  /** The j-th commit came after the read point and wrote one of the keys. */
  ghost predicate WroteSince<K, V>(s: State<K, V>, r: CommitSeq, ws: set<K>, j: nat) {
    j < |s.g.log| && s.g.base + j + 1 > r && s.g.log[j] in s.b.writes && ws * s.b.writes[s.g.log[j]].Keys != {}
  }

  /** The commit right after the read point is in the log and its write set is gone. */
  ghost predicate Forgotten<K, V>(s: State<K, V>, r: CommitSeq) {
    r < s.g.base + |s.g.log| && forall i :: 0 <= i < |s.ring| ==> s.ring[i].seqno != r + 1
  }

  /** What validating a write set against the history should say. */
  ghost predicate VerdictOk<K, V>(s: State<K, V>, r: CommitSeq, ws: set<K>, v: Verdict) {
    match v
    case Expired => Forgotten(s, r)
    case Clear => !Forgotten(s, r) && forall j: nat :: !WroteSince(s, r, ws, j)
    case Conflicts(u) =>
      && !Forgotten(s, r)
      && exists j: nat :: WroteSince(s, r, ws, j) && s.g.log[j] == u
                          && forall i: nat :: i < j ==> !WroteSince(s, r, ws, i)
  }

  /** Where the ring begins in the log. */
  lemma ForgottenIs<K, V>(s: State<K, V>, r: CommitSeq)
    requires RingInv(s) && s.g.base <= r
    ensures Forgotten(s, r) <==> r < s.g.base + Dropped(s)
  {
    forall i: nat | i < |s.ring| ensures s.ring[i].seqno == s.g.base + Dropped(s) + i + 1 {
      assert RingEntryOk(s, i);
    }
    if s.g.base + Dropped(s) <= r < s.g.base + |s.g.log| {
      assert s.ring[r - s.g.base - Dropped(s)].seqno == r + 1;
    }
  }

  /** A commit after the read point is in the ring unless it is forgotten, and opposes there
      exactly when it wrote one of the keys. */
  lemma WroteIs<K, V>(s: State<K, V>, r: CommitSeq, ws: set<K>, j: nat)
    requires RingInv(s) && s.g.base + Dropped(s) <= r
    ensures WroteSince(s, r, ws, j) <==>
      Dropped(s) <= j < |s.g.log| && Opposes(s.ring[j - Dropped(s)], r, ws)
  {
    if Dropped(s) <= j < |s.g.log| {
      assert RingEntryOk(s, j - Dropped(s));
    }
  }

  /** Validation is exact at every read point, registered or not: it answers expired exactly
      when the next commit is forgotten, else it names the first later commit that wrote one
      of the keys, else it is clear. */
  lemma ValidatedExact<K, V>(s: State<K, V>, r: CommitSeq, ws: set<K>)
    requires RingInv(s) && s.g.base <= r <= s.g.base + |s.g.log|
    ensures VerdictOk(s, r, ws, Validated(s.ring, r, ws))
  {
    ForgottenIs(s, r);
    if s.ring != [] {
      assert RingEntryOk(s, 0);
    }
    if !Forgotten(s, r) {
      forall j: nat ensures WroteSince(s, r, ws, j) <==>
        Dropped(s) <= j < |s.g.log| && Opposes(s.ring[j - Dropped(s)], r, ws)
      {
        WroteIs(s, r, ws, j);
      }
      ConflictExact(s.ring, r, ws);
      if FirstConflict(s.ring, r, ws) != Clear {
        FirstInLog(s, r, ws);
      }
    }
  }

  lemma FirstInLog<K, V>(s: State<K, V>, r: CommitSeq, ws: set<K>)
    requires RingInv(s) && s.g.base + Dropped(s) <= r && FirstConflict(s.ring, r, ws) != Clear
    ensures exists j: nat :: WroteSince(s, r, ws, j) && FirstConflict(s.ring, r, ws) == Conflicts(s.g.log[j])
              && forall i: nat :: i < j ==> !WroteSince(s, r, ws, i)
  {
    ConflictExact(s.ring, r, ws);
    var i :| 0 <= i < |s.ring| && Opposes(s.ring[i], r, ws)
      && FirstConflict(s.ring, r, ws) == Conflicts(s.ring[i].txn)
      && forall j :: 0 <= j < i ==> !Opposes(s.ring[j], r, ws);
    var j := Dropped(s) + i;
    WroteIs(s, r, ws, j);
    assert RingEntryOk(s, i);
    forall k: nat | k < j ensures !WroteSince(s, r, ws, k) {
      WroteIs(s, r, ws, k);
    }
  }

  /** Validation is exact: clear if and only if no transaction that committed after the
      read point wrote a common key; a reported transaction is one that did. */
  lemma ValidateExact<K(!new), V>(s: State<K, V>, t: TxnId)
    requires Inv(s) && IsActive(s.g, t)
    ensures t in s.b.writes
    ensures CommitVerdict(s, t) == Clear <==> Unopposed(s.g, s.b.writes, t)
    ensures CommitVerdict(s, t).Conflicts? ==>
      var u := CommitVerdict(s, t).txn;
      CommittedSince(s.g, u, s.g.txns[t].snap.readSeq) && Overlap(s.b.writes, u, t)
  {
    assert TxnOk(s.g, t) && LiveOk(s.g, t) && RingCovers(s, t);
    var r, ws := s.g.txns[t].snap.readSeq, s.b.writes[t].Keys;
    NeverExpires(s, t, ws);
    ConflictExact(s.ring, r, ws);
    forall i: nat | i < |s.ring| && Opposes(s.ring[i], r, ws)
      ensures CommittedSince(s.g, s.ring[i].txn, r) && Overlap(s.b.writes, s.ring[i].txn, t)
    {
      assert RingEntryOk(s, i) && LogEntryOk(s.g, Dropped(s) + i);
    }
    forall u | CommittedSince(s.g, u, r) && Overlap(s.b.writes, u, t)
      ensures exists i :: 0 <= i < |s.ring| && Opposes(s.ring[i], r, ws)
    {
      assert LoggedOk(s.g, u);
      var i := s.g.txns[u].status.at - s.g.base - 1 - Dropped(s);
      assert RingEntryOk(s, i);
      assert Opposes(s.ring[i], r, ws);
    }
  }

  // ---- every step keeps the invariant ----

  /** The ring is untouched, logged writes stay, and newcomers read at the clock. */
  lemma RingFrame<K, V>(s: State<K, V>, s': State<K, V>)
    requires RingInv(s) && s'.ring == s.ring && s'.g.log == s.g.log && s'.g.base == s.g.base
    requires forall i :: 0 <= i < |s.g.log| && s.g.log[i] in s.b.writes ==>
      s.g.log[i] in s'.b.writes && s'.b.writes[s.g.log[i]] == s.b.writes[s.g.log[i]]
    requires forall t :: t in s'.g.live ==>
      (t in s.g.live && s'.g.live[t] == s.g.live[t]) || s'.g.live[t] >= s.g.base + |s.g.log|
    ensures RingInv(s')
  {
    forall i: nat ensures RingEntryOk(s', i) {
      assert RingEntryOk(s, i);
    }
    forall t ensures RingCovers(s', t) {
      assert RingCovers(s, t);
    }
  }

  lemma RingCommit<K, V>(s: State<K, V>, t: TxnId, s': State<K, V>)
    requires RingInv(s) && s.g.clock == s.g.base + |s.g.log| && t in s.b.writes
    requires s'.g.log == s.g.log + [t] && s'.g.base == s.g.base && s'.g.live == s.g.live
    requires s'.b.writes == s.b.writes
    requires s'.ring == s.ring + [CommittedWrite(t, s.g.clock + 1, s.b.writes[t].Keys)]
    ensures RingInv(s')
  {
    forall i: nat ensures RingEntryOk(s', i) {
      assert RingEntryOk(s, i);
    }
    forall u ensures RingCovers(s', u) {
      assert RingCovers(s, u);
    }
  }

  /** Pruning drops the longest prefix of entries below the watermark. */
  lemma {:induction false} PrunedSuffix<K>(entries: seq<CommittedWrite<K>>, w: CommitSeq) returns (n: nat)
    ensures n <= |entries| && Pruned(entries, w) == entries[n..]
    ensures forall i :: 0 <= i < n ==> entries[i].seqno < w
    ensures n < |entries| ==> entries[n].seqno >= w
  {
    if entries == [] || entries[0].seqno >= w {
      n := 0;
    } else {
      var m := PrunedSuffix(entries[1..], w);
      assert entries[1..][m..] == entries[m + 1..];
      n := m + 1;
    }
  }

  lemma RingPrune<K, V>(s: State<K, V>, w: CommitSeq)
    requires RingInv(s) && AtMostWatermark(s.g, w) && s.g.clock == s.g.base + |s.g.log|
    ensures RingInv(s.(ring := Pruned(s.ring, w)))
  {
    var n := PrunedSuffix(s.ring, w);
    var s' := s.(ring := Pruned(s.ring, w));
    if s.ring != [] {
      assert RingEntryOk(s, |s.ring| - 1);
    }
    forall i: nat ensures RingEntryOk(s', i) {
      assert RingEntryOk(s, i + n);
    }
    forall t ensures RingCovers(s', t) {
      assert RingCovers(s, t);
      if n > 0 {
        assert RingEntryOk(s, n - 1);
      }
    }
  }

  /** Pruning forgets exactly the retained commits below the watermark. */
  lemma PruneExact<K(!new), V>(s: State<K, V>, w: CommitSeq, e: CommittedWrite<K>)
    requires RingInv(s)
    ensures e in Pruned(s.ring, w) <==> e in s.ring && e.seqno >= w
  {
    var n := PrunedSuffix(s.ring, w);
    if e in s.ring && e.seqno >= w {
      var i :| 0 <= i < |s.ring| && s.ring[i] == e;
      assert s.ring[n..][i - n] == e;
    }
    if e in Pruned(s.ring, w) {
      var i :| 0 <= i < |s.ring[n..]| && s.ring[n..][i] == e;
      assert RingEntryOk(s, n) && RingEntryOk(s, n + i) && s.ring[n + i] == e;
    }
  }

  lemma StepRing<K(!new), V>(s: State<K, V>, a: Step<K, V>)
    requires LogKnown(s.g, s.b.writes) && RingInv(s) && Enabled(s, a) && s.g.clock == s.g.base + |s.g.log|
    requires s.g.lastTxn + 1 !in s.g.txns && forall t :: IsActive(s.g, t) ==> t !in s.g.log
    ensures RingInv(Next(s, a))
  {
    var s' := Next(s, a);
    if a.Commit? {
      if CommitVerdict(s, a.t) == Clear {
        RingCommit(s, a.t, s');
      }
    } else if a.Prune? {
      RingPrune(s, a.w);
    } else {
      RingFrame(s, s');
    }
  }

  lemma CommitTable<K(!new), V>(s: State<K, V>, t: TxnId)
    requires Inv(s) && IsActive(s.g, t) && t in s.b.writes
    ensures CommitVerdict(s, t) == Clear ==> TableInv(CommitTxn(s.g, t), CommitIn(s.b, t, s.g.clock + 1))
  {
    if CommitVerdict(s, t) == Clear {
      ValidateExact(s, t);
      CommitInv(s.g, s.b, t);
    }
  }

  lemma StepTable<K(!new), V>(s: State<K, V>, a: Step<K, V>, s': State<K, V>)
    requires TableInv(s.g, s.b) && Enabled(s, a) && !a.Commit? && s' == Next(s, a)
    ensures TableInv(s'.g, s'.b)
  {
    match a
    case Begin(f) => BeginInv(s.g, s.b, f);
    case Stage(t, k, v) => StageInv(s.g, s.b, t, k, v);
    case Abort(t) => AbortInv(s.g, s.b, t);
    case Deregister(t) => EndInv(s.g, s.b, t);
    case Collect(w) => CollectInv(s.g, s.b, w);
    case Prune(w) =>
  }

  lemma StepInv<K(!new), V>(s: State<K, V>, a: Step<K, V>)
    requires Inv(s) && Enabled(s, a)
    ensures Inv(Next(s, a))
  {
    LedgerLog(s.g, s.b);
    assert TxnOk(s.g, s.g.lastTxn + 1);
    StepRing(s, a);
    if a.Commit? {
      CommitTable(s, a.t);
    } else {
      StepTable(s, a, Next(s, a));
    }
  }

  lemma {:induction false} RunInv<K(!new), V>(s: State<K, V>, run: seq<Step<K, V>>)
    requires Inv(s) && IsRun(s, run)
    ensures Inv(After(s, run))
    decreases |run|
  {
    if run != [] {
      StepInv(s, run[0]);
      RunInv(Next(s, run[0]), run[1..]);
    }
  }

  lemma ReachableInv<K(!new), V>(start: CommitSeq, run: seq<Step<K, V>>)
    requires IsRun(Init<K, V>(start), run)
    ensures Inv(After(Init<K, V>(start), run))
  {
    InitInv<K, V>(start);
    RunInv(Init<K, V>(start), run);
  }
}
