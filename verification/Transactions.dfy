/**
  The history of a database's transactions and what it promises about one version
  table.  A ledger joins the commit clock (mvcc/mvcc.go), the watermark oracle's live
  map (mvcc/oracle.go) and the specification: every transaction ever begun and the
  order in which they committed.  A table joins a version table's two maps with the
  last version each transaction wrote at each key.
 */
module Transactions {
  import opened Prelude
  import opened VersionChain
  import opened VersionTable
  import opened Conflict

  datatype Status = Active | Committed(at: CommitSeq) | Aborted

  datatype TxnInfo = TxnInfo(snap: Snapshot, status: Status)

  datatype Ledger = Ledger(
    base: CommitSeq,                // the sequence the clock was seeded with
    clock: CommitSeq,               // highest commit sequence assigned
    lastTxn: TxnId,                 // highest transaction id issued
    live: map<TxnId, CommitSeq>,    // registered snapshots and their read points
    txns: map<TxnId, TxnInfo>,      // every transaction ever begun
    log: seq<TxnId>,                // log[i] committed with sequence base + i + 1
    horizon: CommitSeq)             // the highest watermark GC has been given

  /** A sequence GC may be given: at most the clock and every live read point. */
  ghost predicate AtMostWatermark(g: Ledger, w: CommitSeq) {
    AtMostLive(g.live, g.clock, w)
  }

  function InitLedger(start: CommitSeq): Ledger {
    Ledger(start, start, 0, map[], map[], [], 0)
  }

  /** Begin: a snapshot at the current sequence, registered at once. */
  function BeginTxn(g: Ledger, inFlight: seq<TxnId>): Ledger {
    var t := g.lastTxn + 1;
    g.(lastTxn := t,
       live := g.live[t := g.clock],
       txns := g.txns[t := TxnInfo(Snapshot(g.clock, t, inFlight), Active)])
  }

  function CommitTxn(g: Ledger, t: TxnId): Ledger
    requires t in g.txns
  {
    g.(clock := g.clock + 1,
       txns := g.txns[t := g.txns[t].(status := Committed(g.clock + 1))],
       log := g.log + [t])
  }

  function AbortTxn(g: Ledger, t: TxnId): Ledger
    requires t in g.txns
  {
    g.(txns := g.txns[t := g.txns[t].(status := Aborted)])
  }

  function EndTxn(g: Ledger, t: TxnId): Ledger {
    g.(live := g.live - {t})
  }

  function RaiseHorizon(g: Ledger, w: CommitSeq): Ledger {
    g.(horizon := Max(g.horizon, w))
  }

  predicate IsActive(g: Ledger, t: TxnId) {
    t in g.txns && g.txns[t].status == Active
  }

  /** What is known of one transaction. */
  ghost predicate TxnOk(g: Ledger, t: TxnId) {
    t in g.txns ==>
      var x := g.txns[t];
      && 0 < t <= g.lastTxn
      && x.snap.txn == t
      && g.base <= x.snap.readSeq <= g.clock
      && (x.status == Active ==> t in g.live)
      && (x.status.Committed? ==> x.snap.readSeq < x.status.at <= g.clock)
      && forall u :: u in x.snap.inFlight ==> NotSeenBy(g, u, x.snap.readSeq)
  }

  /** The transaction was in flight at the read point: it has not committed since, or
      only at a later sequence. */
  ghost predicate NotSeenBy(g: Ledger, u: TxnId, r: CommitSeq) {
    u in g.txns && (g.txns[u].status.Committed? ==> g.txns[u].status.at > r)
  }

  ghost predicate LiveOk(g: Ledger, t: TxnId) {
    t in g.live ==> t in g.txns && g.live[t] == g.txns[t].snap.readSeq && g.horizon <= g.live[t]
  }

  /** The log lists each committed transaction at its sequence, and nothing else. */
  ghost predicate LogEntryOk(g: Ledger, i: nat) {
    i < |g.log| ==> g.log[i] in g.txns && g.txns[g.log[i]].status == Committed(g.base + i + 1)
  }

  ghost predicate LoggedOk(g: Ledger, t: TxnId) {
    t in g.txns && g.txns[t].status.Committed? ==>
      g.base < g.txns[t].status.at <= g.base + |g.log| && g.log[g.txns[t].status.at - g.base - 1] == t
  }

  ghost predicate LedgerInv(g: Ledger) {
    && g.clock == g.base + |g.log|
    && g.horizon <= g.clock
    && (forall t :: TxnOk(g, t))
    && (forall t :: LiveOk(g, t))
    && (forall i :: LogEntryOk(g, i))
    && (forall t :: LoggedOk(g, t))
  }

  lemma BeginLedger(g: Ledger, inFlight: seq<TxnId>)
    requires LedgerInv(g)
    requires forall u :: u in inFlight ==> IsActive(g, u)
    ensures g.lastTxn + 1 !in g.txns
    ensures LedgerInv(BeginTxn(g, inFlight))
  {
    var t, g' := g.lastTxn + 1, BeginTxn(g, inFlight);
    assert TxnOk(g, t);
    forall u ensures TxnOk(g', u) && LiveOk(g', u) && LoggedOk(g', u) {
      assert TxnOk(g, u) && LiveOk(g, u) && LoggedOk(g, u);
    }
    forall i: nat ensures LogEntryOk(g', i) {
      assert LogEntryOk(g, i);
    }
  }

  lemma CommitLedger(g: Ledger, t: TxnId)
    requires LedgerInv(g) && IsActive(g, t)
    ensures LedgerInv(CommitTxn(g, t))
  {
    var g' := CommitTxn(g, t);
    forall u ensures TxnOk(g', u) && LiveOk(g', u) && LoggedOk(g', u) {
      assert TxnOk(g, u) && LiveOk(g, u) && LoggedOk(g, u);
    }
    forall i: nat ensures LogEntryOk(g', i) {
      assert LogEntryOk(g, i);
    }
  }

  lemma AbortLedger(g: Ledger, t: TxnId)
    requires LedgerInv(g) && IsActive(g, t)
    ensures LedgerInv(AbortTxn(g, t))
  {
    var g' := AbortTxn(g, t);
    forall u ensures TxnOk(g', u) && LiveOk(g', u) && LoggedOk(g', u) {
      assert TxnOk(g, u) && LiveOk(g, u) && LoggedOk(g, u);
    }
    forall i: nat ensures LogEntryOk(g', i) {
      assert LogEntryOk(g, i);
    }
  }

  lemma EndLedger(g: Ledger, t: TxnId)
    requires LedgerInv(g) && !IsActive(g, t)
    ensures LedgerInv(EndTxn(g, t))
  {
    var g' := EndTxn(g, t);
    forall u ensures TxnOk(g', u) && LiveOk(g', u) && LoggedOk(g', u) {
      assert TxnOk(g, u) && LiveOk(g, u) && LoggedOk(g, u);
    }
    forall i: nat ensures LogEntryOk(g', i) {
      assert LogEntryOk(g, i);
    }
  }

  lemma HorizonLedger(g: Ledger, w: CommitSeq)
    requires LedgerInv(g) && AtMostWatermark(g, w)
    ensures LedgerInv(RaiseHorizon(g, w))
  {
    var g' := RaiseHorizon(g, w);
    forall u ensures TxnOk(g', u) && LiveOk(g', u) && LoggedOk(g', u) {
      assert TxnOk(g, u) && LiveOk(g, u) && LoggedOk(g, u);
    }
    forall i: nat ensures LogEntryOk(g', i) {
      assert LogEntryOk(g, i);
    }
  }

  // ---- the specification of a read ----

  type Writes<K, +V> = map<TxnId, map<K, Version<V>>>

  /** The last write to the key among the commits up to sequence r. */
  function LogRead<K, V>(base: CommitSeq, log: seq<TxnId>, ws: Writes<K, V>, k: K, r: CommitSeq): Option<V>
    requires r <= base + |log|
    decreases r
  {
    if r <= base then None
    else
      var t := log[r - base - 1];
      if t in ws && k in ws[t] then ws[t][k].Value() else LogRead(base, log, ws, k, r - 1)
  }

  /** Reads of the past depend only on the commits they cover. */
  lemma {:induction false} LogReadStable<K, V>(
    base: CommitSeq, log: seq<TxnId>, log': seq<TxnId>, ws: Writes<K, V>, ws': Writes<K, V>, k: K, r: CommitSeq)
    requires r <= base + |log| && log <= log'
    requires forall i :: 0 <= i < |log| ==>
      (log[i] in ws <==> log[i] in ws') && (log[i] in ws ==> ws[log[i]] == ws'[log[i]])
    ensures LogRead(base, log', ws', k, r) == LogRead(base, log, ws, k, r)
    decreases r
  {
    if r > base {
      LogReadStable(base, log, log', ws, ws', k, r - 1);
    }
  }

  datatype Table<K, +V> = Table(
    chains: Chains<K, V>,
    staged: StagedKeys<K>,
    writes: Writes<K, V>)

  /** What transaction t is promised at key k: its own latest write, else the log at
      its read point. */
  ghost function SpecRead<K, V>(g: Ledger, b: Table<K, V>, t: TxnId, k: K): Option<V>
    requires g.clock == g.base + |g.log| && TxnOk(g, t) && t in g.txns && t in b.writes
  {
    if k in b.writes[t] then b.writes[t][k].Value()
    else LogRead(g.base, g.log, b.writes, k, g.txns[t].snap.readSeq)
  }

  // ---- the table invariant, key by key ----

  ghost predicate EntryOk<K, V>(g: Ledger, ws: Writes<K, V>, k: K, e: Entry<V>) {
    && e.txn in g.txns && e.txn in ws && k in ws[e.txn]
    && match g.txns[e.txn].status
       case Active => e.seqno == 0
       case Committed(at) => e.seqno == at
       case Aborted => false
  }

  /** Entries belong to their writers, and a committed entry never lies in front of an
      entry whose writer could already see it. */
  ghost predicate ChainOk<K, V>(g: Ledger, ws: Writes<K, V>, k: K, c: Chain<V>) {
    && (forall i :: 0 <= i < |c| ==> EntryOk(g, ws, k, c[i]))
    && (forall i, j :: 0 <= i < j < |c| && c[i].seqno != 0 ==> c[i].seqno > g.txns[c[j].txn].snap.readSeq)
  }

  /** Every live transaction finds its own latest write. */
  ghost predicate OwnOk<K, V>(g: Ledger, ws: Writes<K, V>, k: K, c: Chain<V>) {
    forall t :: t in g.live && t in ws && k in ws[t] ==> Find(c, OwnedBy(t)) == Some(ws[t][k])
  }

  /** At every sequence GC has not passed, the chain reads as the log does. */
  ghost predicate LogOk<K, V>(g: Ledger, ws: Writes<K, V>, k: K, c: Chain<V>)
    requires g.clock <= g.base + |g.log|
  {
    forall r :: g.horizon <= r <= g.clock ==> Read(c, AsOf(r)) == LogRead(g.base, g.log, ws, k, r)
  }

  ghost predicate KeyOk<K, V>(g: Ledger, ws: Writes<K, V>, k: K, c: Chain<V>)
    requires g.clock <= g.base + |g.log|
  {
    ChainOk(g, ws, k, c) && OwnOk(g, ws, k, c) && LogOk(g, ws, k, c)
  }

  /** First committer wins: of two committed transactions that wrote a common key, the
      later one began after the earlier one committed. */
  ghost predicate FirstCommitterWins<K, V>(g: Ledger, ws: Writes<K, V>) {
    forall t, u :: CommittedBefore(g, t, u) && Overlap(ws, t, u) ==>
      g.txns[t].status.at <= g.txns[u].snap.readSeq
  }

  predicate CommittedBefore(g: Ledger, t: TxnId, u: TxnId) {
    && t in g.txns && g.txns[t].status.Committed?
    && u in g.txns && g.txns[u].status.Committed?
    && g.txns[t].status.at < g.txns[u].status.at
  }

  predicate CommittedSince(g: Ledger, u: TxnId, r: CommitSeq) {
    u in g.txns && g.txns[u].status.Committed? && g.txns[u].status.at > r
  }

  predicate Overlap<K, V>(ws: Writes<K, V>, t: TxnId, u: TxnId) {
    t in ws && u in ws && ws[t].Keys * ws[u].Keys != {}
  }

  ghost predicate WritesOk<K, V>(g: Ledger, b: Table<K, V>) {
    && b.writes.Keys == g.txns.Keys
    && (forall t :: t in g.txns && g.txns[t].status == Aborted ==> b.writes[t] == map[])
    && (forall t, k :: t in g.txns && g.txns[t].status == Active && k in b.writes[t] ==>
          k in KeysOf(b.staged, t))
  }

  ghost predicate KeysOk<K(!new), V>(g: Ledger, ws: Writes<K, V>, m: Chains<K, V>)
    requires g.clock <= g.base + |g.log|
  {
    forall k :: KeyOk(g, ws, k, ChainAt(m, k))
  }

  ghost predicate TableInv<K(!new), V>(g: Ledger, b: Table<K, V>) {
    && LedgerInv(g)
    && WritesOk(g, b)
    && FirstCommitterWins(g, b.writes)
    && KeysOk(g, b.writes, b.chains)
  }

  // ---- framing: what survives a step that leaves a chain alone ----

  /** The ledger and the writes may grow, but what is known of a transaction stays. */
  ghost predicate Grows<K, V>(g: Ledger, ws: Writes<K, V>, g': Ledger, ws': Writes<K, V>) {
    && (forall t :: t in g.txns ==> t in g'.txns && g'.txns[t] == g.txns[t])
    && (forall t :: t in ws ==> t in ws' && ws[t].Keys <= ws'[t].Keys)
  }

  lemma ChainFrame<K, V>(g: Ledger, ws: Writes<K, V>, g': Ledger, ws': Writes<K, V>, k: K, c: Chain<V>)
    requires Grows(g, ws, g', ws') && ChainOk(g, ws, k, c)
    ensures ChainOk(g', ws', k, c)
  {
    forall i | 0 <= i < |c| ensures EntryOk(g', ws', k, c[i]) {
      assert EntryOk(g, ws, k, c[i]);
    }
  }

  lemma LogFrame<K, V>(g: Ledger, ws: Writes<K, V>, g': Ledger, ws': Writes<K, V>, k: K, c: Chain<V>)
    requires g.clock == g.base + |g.log| && LogOk(g, ws, k, c)
    requires g'.base == g.base && g'.clock == g.clock && g'.log == g.log && g'.horizon >= g.horizon
    requires forall i :: 0 <= i < |g.log| ==>
      g.log[i] in ws && g.log[i] in ws' && ws[g.log[i]] == ws'[g.log[i]]
    ensures LogOk(g', ws', k, c)
  {
    forall r | g'.horizon <= r <= g'.clock
      ensures Read(c, AsOf(r)) == LogRead(g'.base, g'.log, ws', k, r)
    {
      LogReadStable(g.base, g.log, g.log, ws, ws', k, r);
    }
  }

  // ---- what the invariant is for ----

  /** A live transaction's read walks the chain to exactly what it was promised. */
  lemma LiveRead<K(!new), V>(g: Ledger, b: Table<K, V>, t: TxnId, k: K)
    requires TableInv(g, b) && t in g.live
    ensures t in g.txns && t in b.writes
    ensures Read(ChainAt(b.chains, k), Through(g.txns[t].snap)) == SpecRead(g, b, t, k)
  {
    assert LiveOk(g, t) && TxnOk(g, t);
    var c := ChainAt(b.chains, k);
    var s := g.txns[t].snap;
    assert KeyOk(g, b.writes, k, c);
    if k in b.writes[t] {
      var p := FirstOrNothing(c, OwnedBy(t));
      forall i | 0 <= i < p ensures !Sees(Through(s), c[i]) {
        assert EntryOk(g, b.writes, k, c[i]);
      }
      FindFirst(c, Through(s), p);
    } else {
      forall i | 0 <= i < |c| ensures Sees(Through(s), c[i]) == Sees(AsOf(s.readSeq), c[i]) {
        assert EntryOk(g, b.writes, k, c[i]);
      }
      FindAgree(c, Through(s), AsOf(s.readSeq));
    }
  }

  /** An unregistered snapshot, taken now or at any sequence GC has not passed, with any
      transactions in flight that had not committed by then. */
  ghost predicate Unregistered(g: Ledger, s: Snapshot) {
    && s.txn !in g.txns && g.horizon <= s.readSeq <= g.clock
    && forall u :: u in s.inFlight && u in g.txns ==> NotSeenBy(g, u, s.readSeq)
  }

  /** It reads the log at its read point. */
  lemma FreshRead<K(!new), V>(g: Ledger, b: Table<K, V>, s: Snapshot, k: K)
    requires TableInv(g, b) && Unregistered(g, s)
    ensures Read(ChainAt(b.chains, k), Through(s)) == LogRead(g.base, g.log, b.writes, k, s.readSeq)
  {
    assert KeyOk(g, b.writes, k, ChainAt(b.chains, k));
    var c := ChainAt(b.chains, k);
    forall i | 0 <= i < |c| ensures Sees(Through(s), c[i]) == Sees(AsOf(s.readSeq), c[i]) {
      assert EntryOk(g, b.writes, k, c[i]);
    }
    FindAgree(c, Through(s), AsOf(s.readSeq));
  }

  // ---- the table's part of each step ----

  function InitTable<K, V>(): Table<K, V> {
    Table(map[], map[], map[])
  }

  function BeginIn<K, V>(b: Table<K, V>, t: TxnId): Table<K, V> {
    b.(writes := b.writes[t := map[]])
  }

  function StageIn<K, V>(b: Table<K, V>, t: TxnId, k: K, v: Version<V>): Table<K, V>
    requires t in b.writes
  {
    Table(StageAt(b.chains, k, Entry(0, t, v)),
          b.staged[t := KeysOf(b.staged, t) + [k]],
          b.writes[t := b.writes[t][k := v]])
  }

  function CommitIn<K, V>(b: Table<K, V>, t: TxnId, n: CommitSeq): Table<K, V> {
    b.(chains := StampKeys(b.chains, KeysOf(b.staged, t), t, n), staged := b.staged - {t})
  }

  function AbortIn<K, V>(b: Table<K, V>, t: TxnId): Table<K, V> {
    Table(DropKeys(b.chains, KeysOf(b.staged, t), t), b.staged - {t}, b.writes[t := map[]])
  }

  function CollectIn<K, V>(b: Table<K, V>, w: CommitSeq): Table<K, V> {
    b.(chains := CollectAll(b.chains, w))
  }

  lemma InitInv<K(!new), V>(start: CommitSeq)
    ensures TableInv(InitLedger(start), InitTable<K, V>())
  {
  }

  /** The part of the ledger invariant the chains' framing needs. */
  ghost predicate LogKnown<K, V>(g: Ledger, ws: Writes<K, V>) {
    && g.clock == g.base + |g.log|
    && ws.Keys == g.txns.Keys
    && forall i :: 0 <= i < |g.log| ==> g.log[i] in ws
  }

  /** The log names finished transactions, and the next number is unused. */
  lemma LogClosed(g: Ledger)
    requires LedgerInv(g)
    ensures g.lastTxn + 1 !in g.txns
    ensures forall i :: 0 <= i < |g.log| ==> g.log[i] in g.txns && !IsActive(g, g.log[i])
  {
    assert TxnOk(g, g.lastTxn + 1);
    forall i | 0 <= i < |g.log| ensures g.log[i] in g.txns && !IsActive(g, g.log[i]) {
      assert LogEntryOk(g, i);
    }
  }

  lemma LedgerLog<K, V>(g: Ledger, b: Table<K, V>)
    requires LedgerInv(g) && WritesOk(g, b)
    ensures LogKnown(g, b.writes)
    ensures forall t :: IsActive(g, t) ==> t !in g.log
  {
    forall i | 0 <= i < |g.log| ensures g.log[i] in b.writes && !IsActive(g, g.log[i]) {
      assert LogEntryOk(g, i);
    }
  }

  lemma BeginKeys<K(!new), V>(g: Ledger, b: Table<K, V>, inFlight: seq<TxnId>)
    requires LogKnown(g, b.writes) && g.lastTxn + 1 !in g.txns && KeysOk(g, b.writes, b.chains)
    ensures KeysOk(BeginTxn(g, inFlight), BeginIn(b, g.lastTxn + 1).writes, b.chains)
  {
    var g', b' := BeginTxn(g, inFlight), BeginIn(b, g.lastTxn + 1);
    forall k ensures KeyOk(g', b'.writes, k, ChainAt(b.chains, k)) {
      var c := ChainAt(b.chains, k);
      assert KeyOk(g, b.writes, k, c);
      ChainFrame(g, b.writes, g', b'.writes, k, c);
      LogFrame(g, b.writes, g', b'.writes, k, c);
    }
  }

  lemma BeginWins<K, V>(g: Ledger, b: Table<K, V>, inFlight: seq<TxnId>)
    requires b.writes.Keys == g.txns.Keys && g.lastTxn + 1 !in g.txns && FirstCommitterWins(g, b.writes)
    ensures FirstCommitterWins(BeginTxn(g, inFlight), BeginIn(b, g.lastTxn + 1).writes)
  {
    var g', ws' := BeginTxn(g, inFlight), BeginIn(b, g.lastTxn + 1).writes;
    forall x, u | CommittedBefore(g', x, u) && Overlap(ws', x, u)
      ensures g'.txns[x].status.at <= g'.txns[u].snap.readSeq
    {
      assert CommittedBefore(g, x, u) && Overlap(b.writes, x, u);
    }
  }

  lemma BeginInv<K(!new), V>(g: Ledger, b: Table<K, V>, inFlight: seq<TxnId>)
    requires TableInv(g, b)
    requires forall u :: u in inFlight ==> IsActive(g, u)
    ensures TableInv(BeginTxn(g, inFlight), BeginIn(b, g.lastTxn + 1))
  {
    BeginLedger(g, inFlight);
    LedgerLog(g, b);
    BeginKeys(g, b, inFlight);
    BeginWins(g, b, inFlight);
  }

  lemma StageKeys<K(!new), V>(g: Ledger, b: Table<K, V>, t: TxnId, k: K, v: Version<V>)
    requires LogKnown(g, b.writes) && KeysOk(g, b.writes, b.chains) && IsActive(g, t) && t !in g.log
    ensures KeysOk(g, StageIn(b, t, k, v).writes, StageIn(b, t, k, v).chains)
  {
    var b' := StageIn(b, t, k, v);
    forall x ensures KeyOk(g, b'.writes, x, ChainAt(b'.chains, x)) {
      var c := ChainAt(b.chains, x);
      assert KeyOk(g, b.writes, x, c);
      ChainFrame(g, b.writes, g, b'.writes, x, c);
      LogFrame(g, b.writes, g, b'.writes, x, c);
      if x == k {
        StageChain(g, b.writes, b'.writes, t, k, v, c);
      }
    }
  }

  lemma StageInv<K(!new), V>(g: Ledger, b: Table<K, V>, t: TxnId, k: K, v: Version<V>)
    requires TableInv(g, b) && IsActive(g, t)
    ensures TableInv(g, StageIn(b, t, k, v))
  {
    LedgerLog(g, b);
    StageKeys(g, b, t, k, v);
    var ws' := StageIn(b, t, k, v).writes;
    assert FirstCommitterWins(g, ws') by {
      forall x, u | CommittedBefore(g, x, u) && Overlap(ws', x, u)
        ensures g.txns[x].status.at <= g.txns[u].snap.readSeq
      {
        assert Overlap(b.writes, x, u);
      }
    }
  }

  /** Putting a new in-flight entry in front of its key's chain. */
  lemma StageChain<K, V>(g: Ledger, ws: Writes<K, V>, ws': Writes<K, V>, t: TxnId, k: K, v: Version<V>, c: Chain<V>)
    requires IsActive(g, t) && t in ws && ws' == ws[t := ws[t][k := v]]
    requires g.clock <= g.base + |g.log|
    requires ChainOk(g, ws', k, c) && OwnOk(g, ws, k, c) && LogOk(g, ws', k, c)
    ensures KeyOk(g, ws', k, [Entry(0, t, v)] + c)
  {
    var c' := [Entry(0, t, v)] + c;
    assert c'[1..] == c;
    forall i | 0 <= i < |c'| ensures EntryOk(g, ws', k, c'[i]) {
      assert i > 0 ==> EntryOk(g, ws', k, c[i - 1]);
    }
  }

  /** The condition under which a commit keeps the invariant: nobody who committed
      after the transaction's read point wrote a key it wrote. */
  ghost predicate Unopposed<K, V>(g: Ledger, ws: Writes<K, V>, t: TxnId)
    requires t in g.txns
  {
    forall u :: CommittedSince(g, u, g.txns[t].snap.readSeq) ==> !Overlap(ws, u, t)
  }

  lemma CommitInv<K(!new), V>(g: Ledger, b: Table<K, V>, t: TxnId)
    requires TableInv(g, b) && IsActive(g, t) && Unopposed(g, b.writes, t)
    ensures TableInv(CommitTxn(g, t), CommitIn(b, t, g.clock + 1))
  {
    CommitLedger(g, t);
    CommitWins(g, b.writes, t);
    CommitKeys(g, b, t);
  }

  /** A transaction that reads at the clock has nothing committed behind its back. */
  lemma CommitAtClock<K(!new), V>(g: Ledger, b: Table<K, V>, t: TxnId)
    requires TableInv(g, b) && IsActive(g, t) && g.txns[t].snap.readSeq == g.clock
    ensures TableInv(CommitTxn(g, t), CommitIn(b, t, g.clock + 1))
  {
    forall u ensures !CommittedSince(g, u, g.txns[t].snap.readSeq) {
      assert TxnOk(g, u);
    }
    CommitInv(g, b, t);
  }

  lemma CommitKeys<K(!new), V>(g: Ledger, b: Table<K, V>, t: TxnId)
    requires TableInv(g, b) && IsActive(g, t) && Unopposed(g, b.writes, t)
    ensures KeysOk(CommitTxn(g, t), b.writes, CommitIn(b, t, g.clock + 1).chains)
  {
    var g', m' := CommitTxn(g, t), CommitIn(b, t, g.clock + 1).chains;
    forall k ensures KeyOk(g', b.writes, k, ChainAt(m', k)) {
      assert KeyOk(g, b.writes, k, ChainAt(b.chains, k));
      CommitKey(g, b, t, k);
    }
  }

  lemma CommitKey<K(!new), V>(g: Ledger, b: Table<K, V>, t: TxnId, k: K)
    requires LedgerInv(g) && WritesOk(g, b) && IsActive(g, t) && Unopposed(g, b.writes, t)
    requires KeyOk(g, b.writes, k, ChainAt(b.chains, k))
    ensures KeyOk(CommitTxn(g, t), b.writes, k, ChainAt(CommitIn(b, t, g.clock + 1).chains, k))
  {
    var c := ChainAt(b.chains, k);
    CommitChainAt(g, b, t, k);
    CommitChainOk(g, b.writes, t, k, c);
    CommitOwn(g, b.writes, t, k, c);
    CommitLog(g, b.writes, t, k, c);
  }

  lemma CommitWins<K, V>(g: Ledger, ws: Writes<K, V>, t: TxnId)
    requires LedgerInv(g) && IsActive(g, t) && Unopposed(g, ws, t)
    requires FirstCommitterWins(g, ws)
    ensures FirstCommitterWins(CommitTxn(g, t), ws)
  {
    var g' := CommitTxn(g, t);
    forall x, u | CommittedBefore(g', x, u) && Overlap(ws, x, u)
      ensures g'.txns[x].status.at <= g'.txns[u].snap.readSeq
    {
      assert TxnOk(g, u);
      assert u != t ==> CommittedBefore(g, x, u);
    }
  }

  /** The chain of a key after the commit: the in-flight entries of t, which only lie
      on keys it staged, are stamped. */
  lemma CommitChainAt<K(!new), V>(g: Ledger, b: Table<K, V>, t: TxnId, k: K)
    requires IsActive(g, t) && WritesOk(g, b) && ChainOk(g, b.writes, k, ChainAt(b.chains, k))
    ensures ChainAt(CommitIn(b, t, g.clock + 1).chains, k) == Stamp(ChainAt(b.chains, k), t, g.clock + 1)
  {
    var c := ChainAt(b.chains, k);
    if k in b.chains && k !in KeysOf(b.staged, t) {
      forall i | 0 <= i < |c| ensures Stamp(c, t, g.clock + 1)[i] == c[i] {
        assert EntryOk(g, b.writes, k, c[i]);
      }
    }
  }

  lemma CommitChainOk<K, V>(g: Ledger, ws: Writes<K, V>, t: TxnId, k: K, c: Chain<V>)
    requires LedgerInv(g) && IsActive(g, t) && ChainOk(g, ws, k, c)
    ensures ChainOk(CommitTxn(g, t), ws, k, Stamp(c, t, g.clock + 1))
  {
    var g', c' := CommitTxn(g, t), Stamp(c, t, g.clock + 1);
    forall i | 0 <= i < |c'| ensures EntryOk(g', ws, k, c'[i]) {
      assert EntryOk(g, ws, k, c[i]);
    }
    forall i, j | 0 <= i < j < |c'| && c'[i].seqno != 0
      ensures c'[i].seqno > g'.txns[c'[j].txn].snap.readSeq
    {
      assert EntryOk(g, ws, k, c[j]);
      assert TxnOk(g, c[j].txn);
    }
  }

  lemma CommitOwn<K, V>(g: Ledger, ws: Writes<K, V>, t: TxnId, k: K, c: Chain<V>)
    requires IsActive(g, t) && OwnOk(g, ws, k, c)
    ensures OwnOk(CommitTxn(g, t), ws, k, Stamp(c, t, g.clock + 1))
  {
    var c' := Stamp(c, t, g.clock + 1);
    forall u | u in g.live && u in ws && k in ws[u] ensures Find(c', OwnedBy(u)) == Some(ws[u][k]) {
      var p := FirstOrNothing(c, OwnedBy(u));
      FindFirst(c', OwnedBy(u), p);
    }
  }

  lemma CommitLog<K, V>(g: Ledger, ws: Writes<K, V>, t: TxnId, k: K, c: Chain<V>)
    requires LedgerInv(g) && IsActive(g, t) && Unopposed(g, ws, t) && t in ws
    requires KeyOk(g, ws, k, c)
    ensures LogOk(CommitTxn(g, t), ws, k, Stamp(c, t, g.clock + 1))
  {
    var n, g', c' := g.clock + 1, CommitTxn(g, t), Stamp(c, t, g.clock + 1);
    forall r | g'.horizon <= r <= g'.clock
      ensures Read(c', AsOf(r)) == LogRead(g'.base, g'.log, ws, k, r)
    {
      if r < n {
        CommitReadPast(g, ws, t, k, c, r);
      } else if k in ws[t] {
        CommitReadNew(g, ws, t, k, c);
      } else {
        CommitReadSame(g, ws, t, k, c);
      }
    }
  }

  /** A snapshot older than the commit reads what it read before. */
  lemma CommitReadPast<K, V>(g: Ledger, ws: Writes<K, V>, t: TxnId, k: K, c: Chain<V>, r: CommitSeq)
    requires g.clock == g.base + |g.log| && LogOk(g, ws, k, c) && g.horizon <= r <= g.clock
    ensures Read(Stamp(c, t, g.clock + 1), AsOf(r)) == LogRead(g.base, g.log + [t], ws, k, r)
  {
    var c' := Stamp(c, t, g.clock + 1);
    LogReadStable(g.base, g.log, g.log + [t], ws, ws, k, r);
    var p := FirstOrNothing(c, AsOf(r));
    if p < |c| {
      FindFirst(c', AsOf(r), p);
    } else {
      FindNothing(c', AsOf(r));
    }
  }

  /** A snapshot at the new sequence reads the committed transaction's write. */
  lemma CommitReadNew<K, V>(g: Ledger, ws: Writes<K, V>, t: TxnId, k: K, c: Chain<V>)
    requires LedgerInv(g) && IsActive(g, t) && Unopposed(g, ws, t)
    requires ChainOk(g, ws, k, c) && OwnOk(g, ws, k, c)
    requires t in ws && k in ws[t]
    ensures Read(Stamp(c, t, g.clock + 1), AsOf(g.clock + 1)) == ws[t][k].Value()
  {
    assert TxnOk(g, t);
    var n, c' := g.clock + 1, Stamp(c, t, g.clock + 1);
    var p := FirstOrNothing(c, OwnedBy(t));
    assert EntryOk(g, ws, k, c[p]);
    forall i | 0 <= i < p ensures !Sees(AsOf(n), c'[i]) {
      assert EntryOk(g, ws, k, c[i]);
      assert k in ws[c[i].txn].Keys * ws[t].Keys;
      assert Overlap(ws, c[i].txn, t);
    }
    FindFirst(c', AsOf(n), p);
  }

  /** At a key the transaction did not write, the new sequence reads as the previous one. */
  lemma CommitReadSame<K, V>(g: Ledger, ws: Writes<K, V>, t: TxnId, k: K, c: Chain<V>)
    requires LedgerInv(g) && ChainOk(g, ws, k, c) && LogOk(g, ws, k, c)
    requires t in ws && k !in ws[t]
    ensures Read(Stamp(c, t, g.clock + 1), AsOf(g.clock + 1))
         == LogRead(g.base, g.log + [t], ws, k, g.clock + 1)
  {
    var n, c' := g.clock + 1, Stamp(c, t, g.clock + 1);
    CommitReadPast(g, ws, t, k, c, g.clock);
    forall i | 0 <= i < |c| ensures Sees(AsOf(n), c'[i]) <==> Sees(AsOf(g.clock), c'[i]) {
      assert EntryOk(g, ws, k, c[i]);
      assert TxnOk(g, c[i].txn);
    }
    FindAgree(c', AsOf(n), AsOf(g.clock));
  }

  lemma AbortInv<K(!new), V>(g: Ledger, b: Table<K, V>, t: TxnId)
    requires TableInv(g, b) && IsActive(g, t)
    ensures TableInv(AbortTxn(g, t), AbortIn(b, t))
  {
    AbortLedger(g, t);
    LedgerLog(g, b);
    AbortKeys(g, b, t);
    var g', b' := AbortTxn(g, t), AbortIn(b, t);
    assert FirstCommitterWins(g', b'.writes) by {
      forall x, u | CommittedBefore(g', x, u) && Overlap(b'.writes, x, u)
        ensures g'.txns[x].status.at <= g'.txns[u].snap.readSeq
      {
        assert CommittedBefore(g, x, u) && Overlap(b.writes, x, u);
      }
    }
  }

  lemma AbortKeys<K(!new), V>(g: Ledger, b: Table<K, V>, t: TxnId)
    requires LogKnown(g, b.writes) && WritesOk(g, b) && IsActive(g, t) && t !in g.log
    requires KeysOk(g, b.writes, b.chains)
    ensures KeysOk(AbortTxn(g, t), AbortIn(b, t).writes, AbortIn(b, t).chains)
  {
    var g', b' := AbortTxn(g, t), AbortIn(b, t);
    forall k ensures KeyOk(g', b'.writes, k, ChainAt(b'.chains, k)) {
      var c := ChainAt(b.chains, k);
      assert KeyOk(g, b.writes, k, c);
      AbortChainAt(g, b, t, k);
      AbortChainOk(g, b.writes, t, k, c);
      AbortReads(g, b.writes, t, k, c);
    }
  }

  lemma {:induction false} DropNothing<V>(c: Chain<V>, t: TxnId)
    requires forall i :: 0 <= i < |c| ==> !(c[i].txn == t && c[i].seqno == 0)
    ensures Drop(c, t) == c
  {
    if c != [] {
      DropNothing(c[1..], t);
    }
  }

  lemma AbortChainAt<K(!new), V>(g: Ledger, b: Table<K, V>, t: TxnId, k: K)
    requires IsActive(g, t) && WritesOk(g, b) && ChainOk(g, b.writes, k, ChainAt(b.chains, k))
    ensures ChainAt(AbortIn(b, t).chains, k) == Drop(ChainAt(b.chains, k), t)
  {
    var c := ChainAt(b.chains, k);
    if k in b.chains && k !in KeysOf(b.staged, t) {
      forall i | 0 <= i < |c| ensures !(c[i].txn == t && c[i].seqno == 0) {
        assert EntryOk(g, b.writes, k, c[i]);
      }
      DropNothing(c, t);
    }
  }

  lemma AbortChainOk<K, V>(g: Ledger, ws: Writes<K, V>, t: TxnId, k: K, c: Chain<V>)
    requires IsActive(g, t) && ChainOk(g, ws, k, c)
    ensures ChainOk(AbortTxn(g, t), ws[t := map[]], k, Drop(c, t))
  {
    var g', c' := AbortTxn(g, t), Drop(c, t);
    var at := DropEmbeds(c, t);
    forall i | 0 <= i < |c'| ensures EntryOk(g', ws[t := map[]], k, c'[i]) {
      assert EntryOk(g, ws, k, c[at[i]]);
    }
    forall i, j | 0 <= i < j < |c'| && c'[i].seqno != 0
      ensures c'[i].seqno > g'.txns[c'[j].txn].snap.readSeq
    {
      assert at[i] < at[j];
      assert c[at[i]].seqno > g.txns[c[at[j]].txn].snap.readSeq;
    }
  }

  lemma AbortReads<K, V>(g: Ledger, ws: Writes<K, V>, t: TxnId, k: K, c: Chain<V>)
    requires LogKnown(g, ws) && t in g.txns && t !in g.log
    requires OwnOk(g, ws, k, c) && LogOk(g, ws, k, c)
    ensures OwnOk(AbortTxn(g, t), ws[t := map[]], k, Drop(c, t))
    ensures LogOk(AbortTxn(g, t), ws[t := map[]], k, Drop(c, t))
  {
    var g', ws' := AbortTxn(g, t), ws[t := map[]];
    forall u | u in g'.live && u in ws' && k in ws'[u]
      ensures Find(Drop(c, t), OwnedBy(u)) == Some(ws'[u][k])
    {
      assert u != t;
      FindDrop(c, t, OwnedBy(u));
    }
    LogFrame(g, ws, g', ws', k, c);
    forall r | g'.horizon <= r <= g'.clock
      ensures Read(Drop(c, t), AsOf(r)) == LogRead(g'.base, g'.log, ws', k, r)
    {
      FindDrop(c, t, AsOf(r));
    }
  }

  lemma EndInv<K(!new), V>(g: Ledger, b: Table<K, V>, t: TxnId)
    requires TableInv(g, b) && !IsActive(g, t)
    ensures TableInv(EndTxn(g, t), b)
  {
    EndLedger(g, t);
    var g' := EndTxn(g, t);
    forall k ensures KeyOk(g', b.writes, k, ChainAt(b.chains, k)) {
      var c := ChainAt(b.chains, k);
      assert KeyOk(g, b.writes, k, c);
      ChainFrame(g, b.writes, g', b.writes, k, c);
    }
  }

  lemma CollectInv<K(!new), V>(g: Ledger, b: Table<K, V>, w: CommitSeq)
    requires TableInv(g, b) && AtMostWatermark(g, w)
    ensures TableInv(RaiseHorizon(g, w), CollectIn(b, w))
  {
    HorizonLedger(g, w);
    var g', b' := RaiseHorizon(g, w), CollectIn(b, w);
    forall k ensures KeyOk(g', b'.writes, k, ChainAt(b'.chains, k)) {
      var c := ChainAt(b.chains, k);
      assert KeyOk(g, b.writes, k, c);
      assert ChainAt(b'.chains, k) == Collect(c, w);
      CollectChain(g, b.writes, w, k, c);
    }
  }

  /** GC at a watermark keeps every entry of a live writer: the entry it cuts at was
      visible to that writer, so the writer's entries all lie in front of it. */
  lemma CollectKeepsOwn<K, V>(g: Ledger, ws: Writes<K, V>, w: CommitSeq, k: K, c: Chain<V>, t: TxnId)
    requires LedgerInv(g) && ChainOk(g, ws, k, c) && AtMostWatermark(g, w) && t in g.live
    ensures Find(Collect(c, w), OwnedBy(t)) == Find(c, OwnedBy(t))
    ensures forall i :: 0 <= i < |c| && c[i].txn == t ==> i < |Collect(c, w)| && Collect(c, w)[i] == c[i]
  {
    var cut := Cut(c, w);
    if cut < |c| {
      forall i | 0 <= i < |c| && c[i].txn == t ensures i < cut {
        assert EntryOk(g, ws, k, c[i]);
        assert TxnOk(g, t) && LiveOk(g, t);
      }
      var p := FirstOrNothing(c, OwnedBy(t));
      if p < |c| {
        FindPrefix(c, OwnedBy(t), cut + 1, p);
      } else {
        FindNothing(Collect(c, w), OwnedBy(t));
      }
    }
  }

  lemma CollectChain<K, V>(g: Ledger, ws: Writes<K, V>, w: CommitSeq, k: K, c: Chain<V>)
    requires LedgerInv(g) && KeyOk(g, ws, k, c) && AtMostWatermark(g, w)
    ensures KeyOk(RaiseHorizon(g, w), ws, k, Collect(c, w))
  {
    var g', c' := RaiseHorizon(g, w), Collect(c, w);
    ChainFrame(g, ws, g', ws, k, c);
    assert c' <= c;
    forall u | u in g'.live && u in ws && k in ws[u] ensures Find(c', OwnedBy(u)) == Some(ws[u][k]) {
      CollectKeepsOwn(g, ws, w, k, c, u);
    }
    forall r | g'.horizon <= r <= g'.clock
      ensures Read(c', AsOf(r)) == LogRead(g'.base, g'.log, ws, k, r)
    {
      CollectKeepsReads(c, w, r);
    }
  }

  // ---- what a staged write does ----

  /** The writer reads what it has just staged, and every other key as before. */
  lemma StagedRead<K(!new), V>(g: Ledger, b: Table<K, V>, t: TxnId, k: K, v: Version<V>, other: K)
    requires TableInv(g, b) && IsActive(g, t) && t in b.writes
    ensures t in g.txns
    ensures Read(ChainAt(StageIn(b, t, k, v).chains, other), Through(g.txns[t].snap))
            == if other == k then v.Value() else Read(ChainAt(b.chains, other), Through(g.txns[t].snap))
  {
    var b' := StageIn(b, t, k, v);
    assert TxnOk(g, t);
    if other == k {
      StageInv(g, b, t, k, v);
      LiveRead(g, b', t, other);
    }
  }
}
