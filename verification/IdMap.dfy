/**
  The versioned bijection point id <-> position (mvcc/typed.go) on the single-writer
  path: write transactions hold the writer lock from begin to commit or rollback, so
  commits need no validation; readers come and go freely.
 */
module IdMap {
  import opened Prelude
  import opened VersionChain
  import opened VersionTable
  import opened Transactions

  type PointId = nat
  type Position = nat

  /** The position a tombstone carries. */
  const UNASSIGNED: Position := 0xFFFF_FFFF

  class IDMap {
    const forward: VersionTable<PointId, Position>
    const reverse: VersionTable<Position, PointId>

    ghost predicate Valid() {
      forward != reverse
    }

    constructor ()
      ensures Valid() && fresh(forward) && fresh(reverse)
      ensures forward.chains == map[] && reverse.chains == map[]
      ensures forward.staged == map[] && reverse.staged == map[]
    {
      forward := new VersionTable<PointId, Position>();
      reverse := new VersionTable<Position, PointId>();
    }

    method Assign(id: PointId, pos: Position, txn: TxnId)
      requires Valid()
      modifies forward, reverse
      ensures forward.chains == StageAt(old(forward.chains), id, Entry(0, txn, Version(pos, false)))
      ensures reverse.chains == StageAt(old(reverse.chains), pos, Entry(0, txn, Version(id, false)))
      ensures forward.staged == old(forward.staged)[txn := KeysOf(old(forward.staged), txn) + [id]]
      ensures reverse.staged == old(reverse.staged)[txn := KeysOf(old(reverse.staged), txn) + [pos]]
    {
      forward.Stage(id, txn, pos, false);
      reverse.Stage(pos, txn, id, false);
    }

    method Delete(id: PointId, pos: Position, txn: TxnId)
      requires Valid()
      modifies forward, reverse
      ensures forward.chains == StageAt(old(forward.chains), id, Entry(0, txn, Version(UNASSIGNED, true)))
      ensures reverse.chains == StageAt(old(reverse.chains), pos, Entry(0, txn, Version(id, true)))
      ensures forward.staged == old(forward.staged)[txn := KeysOf(old(forward.staged), txn) + [id]]
      ensures reverse.staged == old(reverse.staged)[txn := KeysOf(old(reverse.staged), txn) + [pos]]
    {
      forward.Stage(id, txn, UNASSIGNED, true);
      reverse.Stage(pos, txn, id, true);
    }

    method Lookup(id: PointId, s: Snapshot) returns (pos: Option<Position>)
      ensures pos == Read(ChainAt(forward.chains, id), Through(s))
    {
      pos := forward.Visible(id, s);
    }

    method Reverse(pos: Position, s: Snapshot) returns (id: Option<PointId>)
      ensures id == Read(ChainAt(reverse.chains, pos), Through(s))
    {
      id := reverse.Visible(pos, s);
    }

    method Commit(txn: TxnId, n: CommitSeq)
      requires Valid()
      modifies forward, reverse
      ensures forward.chains == StampKeys(old(forward.chains), KeysOf(old(forward.staged), txn), txn, n)
      ensures reverse.chains == StampKeys(old(reverse.chains), KeysOf(old(reverse.staged), txn), txn, n)
      ensures forward.staged == old(forward.staged) - {txn} && reverse.staged == old(reverse.staged) - {txn}
    {
      forward.Commit(txn, n);
      reverse.Commit(txn, n);
    }

    method Abort(txn: TxnId)
      requires Valid()
      modifies forward, reverse
      ensures forward.chains == DropKeys(old(forward.chains), KeysOf(old(forward.staged), txn), txn)
      ensures reverse.chains == DropKeys(old(reverse.chains), KeysOf(old(reverse.staged), txn), txn)
      ensures forward.staged == old(forward.staged) - {txn} && reverse.staged == old(reverse.staged) - {txn}
    {
      forward.Abort(txn);
      reverse.Abort(txn);
    }

    method GC(watermark: CommitSeq)
      requires Valid()
      modifies forward, reverse
      ensures forward.chains == CollectAll(old(forward.chains), watermark)
      ensures reverse.chains == CollectAll(old(reverse.chains), watermark)
      ensures forward.staged == old(forward.staged) && reverse.staged == old(reverse.staged)
    {
      forward.GC(watermark);
      reverse.GC(watermark);
    }
  }

  // ---- the single-writer protocol ----

  datatype State = State(
    g: Ledger,
    f: Table<PointId, Position>,
    r: Table<Position, PointId>,
    writer: Option<TxnId>)          // who holds the writer lock

  datatype Step =
    | BeginRead(inFlight: seq<TxnId>)
    | BeginWrite(inFlight: seq<TxnId>)
    | Assign(id: PointId, pos: Position)
    | Delete(id: PointId, pos: Position)
    | CommitWrite
    | Rollback(t: TxnId)
    | Deregister(t: TxnId)
    | Collect(w: CommitSeq)

  function Init(start: CommitSeq): State {
    State(InitLedger(start), InitTable(), InitTable(), None)
  }

  /** What Lookup and Reverse answer a transaction. */
  function LookupBy(s: State, t: TxnId, id: PointId): Option<Position>
    requires t in s.g.txns
  {
    Read(ChainAt(s.f.chains, id), Through(s.g.txns[t].snap))
  }

  function ReverseBy(s: State, t: TxnId, pos: Position): Option<PointId>
    requires t in s.g.txns
  {
    Read(ChainAt(s.r.chains, pos), Through(s.g.txns[t].snap))
  }

  /** The lock is taken and its holder has a snapshot and staging records. */
  predicate Writing(s: State) {
    && s.writer.Some? && s.writer.value in s.g.txns
    && s.writer.value in s.f.writes && s.writer.value in s.r.writes
  }

  /** Writers assign only ids and positions they see unmapped, and delete only pairs
      they see mapped. */
  ghost predicate Enabled(s: State, a: Step) {
    match a
    case BeginRead(f) => forall u :: u in f ==> IsActive(s.g, u)
    case BeginWrite(f) => s.writer == None && forall u :: u in f ==> IsActive(s.g, u)
    case Assign(id, pos) =>
      && Writing(s)
      && LookupBy(s, s.writer.value, id) == None && ReverseBy(s, s.writer.value, pos) == None
    case Delete(id, pos) => Writing(s) && LookupBy(s, s.writer.value, id) == Some(pos)
    case CommitWrite => Writing(s)
    case Rollback(t) => IsActive(s.g, t)
    case Deregister(t) => !IsActive(s.g, t)
    case Collect(w) => AtMostWatermark(s.g, w)
  }

  function StageBoth(s: State, t: TxnId, id: PointId, fv: Version<Position>, pos: Position, rv: Version<PointId>): State
    requires t in s.f.writes && t in s.r.writes
  {
    s.(f := StageIn(s.f, t, id, fv), r := StageIn(s.r, t, pos, rv))
  }

  ghost function Next(s: State, a: Step): State
    requires Enabled(s, a)
  {
    match a
    case BeginRead(f) => Begun(s, f)
    case BeginWrite(f) => Begun(s, f).(writer := Some(s.g.lastTxn + 1))
    case Assign(id, pos) => StageBoth(s, s.writer.value, id, Version(pos, false), pos, Version(id, false))
    case Delete(id, pos) => StageBoth(s, s.writer.value, id, Version(UNASSIGNED, true), pos, Version(id, true))
    case CommitWrite =>
      var t, n := s.writer.value, s.g.clock + 1;
      State(CommitTxn(s.g, t), CommitIn(s.f, t, n), CommitIn(s.r, t, n), None)
    case Rollback(t) =>
      State(AbortTxn(s.g, t), AbortIn(s.f, t), AbortIn(s.r, t), if s.writer == Some(t) then None else s.writer)
    case Deregister(t) => s.(g := EndTxn(s.g, t))
    case Collect(w) => s.(g := RaiseHorizon(s.g, w), f := CollectIn(s.f, w), r := CollectIn(s.r, w))
  }

  function Begun(s: State, inFlight: seq<TxnId>): State {
    var t := s.g.lastTxn + 1;
    s.(g := BeginTxn(s.g, inFlight), f := BeginIn(s.f, t), r := BeginIn(s.r, t))
  }

  ghost predicate IsRun(s: State, run: seq<Step>)
    decreases |run|
  {
    run == [] || (Enabled(s, run[0]) && IsRun(Next(s, run[0]), run[1..]))
  }

  ghost function After(s: State, run: seq<Step>): State
    requires IsRun(s, run)
    decreases |run|
  {
    if run == [] then s else After(Next(s, run[0]), run[1..])
  }

  // ---- the invariant ----

  ghost predicate Tables(s: State) {
    TableInv(s.g, s.f) && TableInv(s.g, s.r)
  }

  /** The log at sequence n maps the id to the position exactly when it maps the
      position to the id. */
  ghost predicate PairAt(g: Ledger, fw: Writes<PointId, Position>, rw: Writes<Position, PointId>,
                         n: CommitSeq, id: PointId, pos: Position)
    requires n <= g.base + |g.log|
  {
    LogRead(g.base, g.log, fw, id, n) == Some(pos) <==> LogRead(g.base, g.log, rw, pos, n) == Some(id)
  }

  ghost predicate InverseAt(s: State, n: CommitSeq) {
    n <= s.g.base + |s.g.log| ==>
      forall id: PointId, pos: Position :: PairAt(s.g, s.f.writes, s.r.writes, n, id, pos)
  }

  /** So does what the transaction is promised. */
  ghost predicate PairFor(s: State, t: TxnId, id: PointId, pos: Position)
    requires s.g.clock == s.g.base + |s.g.log| && TxnOk(s.g, t)
    requires t in s.g.txns && t in s.f.writes && t in s.r.writes
  {
    SpecRead(s.g, s.f, t, id) == Some(pos) <==> SpecRead(s.g, s.r, t, pos) == Some(id)
  }

  ghost predicate InverseFor(s: State, t: TxnId)
    requires s.g.clock == s.g.base + |s.g.log| && TxnOk(s.g, t)
    requires t in s.g.txns && t in s.f.writes && t in s.r.writes
  {
    forall id: PointId, pos: Position :: PairFor(s, t, id, pos)
  }

  /** Only the lock holder writes, and it reads at the clock until it commits. */
  ghost predicate RoleOk(s: State, t: TxnId) {
    t in s.g.txns && t in s.f.writes && t in s.r.writes ==>
      match s.g.txns[t].status
      case Committed(at) => at == s.g.txns[t].snap.readSeq + 1
      case _ => s.writer == Some(t) || (s.f.writes[t] == map[] && s.r.writes[t] == map[])
  }

  ghost predicate WriterOk(s: State) {
    s.writer.Some? ==>
      && IsActive(s.g, s.writer.value) && s.g.txns[s.writer.value].snap.readSeq == s.g.clock
      && s.g.clock == s.g.base + |s.g.log| && TxnOk(s.g, s.writer.value)
      && s.writer.value in s.f.writes && s.writer.value in s.r.writes
      && InverseFor(s, s.writer.value)
  }

  ghost predicate Inv(s: State) {
    && Tables(s)
    && (forall t :: RoleOk(s, t))
    && (forall n :: InverseAt(s, n))
    && WriterOk(s)
  }

  /** A transaction that is not writing is promised the log at one sequence. */
  lemma SettledPair(s: State, t: TxnId, n: CommitSeq, id: PointId, pos: Position)
    requires s.g.clock == s.g.base + |s.g.log| && TxnOk(s.g, t) && LoggedOk(s.g, t)
    requires t in s.g.txns && t in s.f.writes && t in s.r.writes
    requires s.writer != Some(t) && RoleOk(s, t)
    requires n == if s.g.txns[t].status.Committed? then s.g.txns[t].status.at else s.g.txns[t].snap.readSeq
    requires n <= s.g.clock && PairAt(s.g, s.f.writes, s.r.writes, n, id, pos)
    ensures PairFor(s, t, id, pos)
  {
  }

  /** The invariant's point: every live transaction is promised a bijection. */
  lemma LiveInverse(s: State, t: TxnId)
    requires Inv(s) && t in s.g.live
    ensures t in s.g.txns && t in s.f.writes && t in s.r.writes && TxnOk(s.g, t)
    ensures InverseFor(s, t)
  {
    assert LiveOk(s.g, t) && TxnOk(s.g, t) && RoleOk(s, t) && LoggedOk(s.g, t);
    if s.writer != Some(t) {
      var x := s.g.txns[t];
      var n := if x.status.Committed? then x.status.at else x.snap.readSeq;
      assert InverseAt(s, n);
      forall id: PointId, pos: Position ensures PairFor(s, t, id, pos) {
        assert PairAt(s.g, s.f.writes, s.r.writes, n, id, pos);
        SettledPair(s, t, n, id, pos);
      }
    }
  }

  // ---- framing ----

  /** The commits so far and what they wrote are the same in both states. */
  ghost predicate SameHistory(s: State, s': State) {
    && s'.g.base == s.g.base && s.g.log <= s'.g.log
    && forall i :: 0 <= i < |s.g.log| ==>
         var t := s.g.log[i];
         && t in s.f.writes && t in s'.f.writes && s.f.writes[t] == s'.f.writes[t]
         && t in s.r.writes && t in s'.r.writes && s.r.writes[t] == s'.r.writes[t]
  }

  lemma PairStable(s: State, s': State, n: CommitSeq, id: PointId, pos: Position)
    requires SameHistory(s, s') && n <= s.g.base + |s.g.log|
    ensures LogRead(s'.g.base, s'.g.log, s'.f.writes, id, n) == LogRead(s.g.base, s.g.log, s.f.writes, id, n)
    ensures LogRead(s'.g.base, s'.g.log, s'.r.writes, pos, n) == LogRead(s.g.base, s.g.log, s.r.writes, pos, n)
  {
    LogReadStable(s.g.base, s.g.log, s'.g.log, s.f.writes, s'.f.writes, id, n);
    LogReadStable(s.g.base, s.g.log, s'.g.log, s.r.writes, s'.r.writes, pos, n);
  }

  lemma InverseFrame(s: State, s': State, n: CommitSeq)
    requires SameHistory(s, s') && n <= s.g.base + |s.g.log| && InverseAt(s, n)
    ensures InverseAt(s', n)
  {
    forall id: PointId, pos: Position ensures PairAt(s'.g, s'.f.writes, s'.r.writes, n, id, pos) {
      assert PairAt(s.g, s.f.writes, s.r.writes, n, id, pos);
      PairStable(s, s', n, id, pos);
    }
  }

  /** A transaction whose snapshot and writes stay is promised the same. */
  lemma InverseForFrame(s: State, s': State, t: TxnId)
    requires SameHistory(s, s')
    requires s.g.clock == s.g.base + |s.g.log| && TxnOk(s.g, t)
    requires t in s.g.txns && t in s.f.writes && t in s.r.writes
    requires s'.g.clock == s'.g.base + |s'.g.log| && TxnOk(s'.g, t)
    requires t in s'.g.txns && t in s'.f.writes && t in s'.r.writes
    requires s'.g.txns[t].snap == s.g.txns[t].snap
    requires s'.f.writes[t] == s.f.writes[t] && s'.r.writes[t] == s.r.writes[t]
    requires InverseFor(s, t)
    ensures InverseFor(s', t)
  {
    forall id: PointId, pos: Position ensures PairFor(s', t, id, pos) {
      assert PairFor(s, t, id, pos);
      PairStable(s, s', s.g.txns[t].snap.readSeq, id, pos);
    }
  }

  /** A step that only adds or ends transactions, or edits chains, keeps the bijection. */
  lemma QuietStep(s: State, s': State)
    requires Inv(s) && Tables(s') && SameHistory(s, s') && s'.g.log == s.g.log
    requires s'.writer == s.writer || s'.writer == None
    requires s'.writer.Some? ==>
      var t := s'.writer.value;
      && IsActive(s'.g, t) && s'.g.txns[t].snap == s.g.txns[t].snap
      && t in s'.f.writes && s'.f.writes[t] == s.f.writes[t]
      && t in s'.r.writes && s'.r.writes[t] == s.r.writes[t]
    requires forall t :: RoleOk(s', t)
    ensures Inv(s')
  {
    InverseKeeps(s, s');
    if s'.writer.Some? {
      var t := s'.writer.value;
      assert TxnOk(s'.g, t) && TxnOk(s.g, t);
      InverseForFrame(s, s', t);
    }
  }

  /** With no new commit, the bijection at every sequence carries over. */
  lemma InverseKeeps(s: State, s': State)
    requires (forall n :: InverseAt(s, n)) && SameHistory(s, s') && s'.g.log == s.g.log
    ensures forall n :: InverseAt(s', n)
  {
    forall n: CommitSeq ensures InverseAt(s', n) {
      assert InverseAt(s, n);
      if n <= s.g.base + |s.g.log| {
        InverseFrame(s, s', n);
      }
    }
  }

  lemma History(s: State)
    requires Tables(s)
    ensures SameHistory(s, s)
    ensures s.g.lastTxn + 1 !in s.g.txns
    ensures forall t :: IsActive(s.g, t) ==> t !in s.g.log
    ensures LogIn(s.g)
  {
    LedgerLog(s.g, s.f);
    LedgerLog(s.g, s.r);
    LogClosed(s.g);
  }

  ghost predicate LogIn(g: Ledger) {
    forall i :: 0 <= i < |g.log| ==> g.log[i] in g.txns
  }

  // ---- steps ----

  lemma BeginTables(s: State, f: seq<TxnId>)
    requires Tables(s) && forall u :: u in f ==> IsActive(s.g, u)
    ensures Tables(Begun(s, f))
  {
    BeginInv(s.g, s.f, f);
    BeginInv(s.g, s.r, f);
  }

  lemma BeginHistory(s: State, f: seq<TxnId>)
    requires SameHistory(s, s) && s.g.lastTxn + 1 !in s.g.txns && LogIn(s.g)
    ensures SameHistory(s, Begun(s, f))
  {
  }

  lemma BeginRoles(s: State, f: seq<TxnId>)
    requires (forall u :: RoleOk(s, u)) && s.g.lastTxn + 1 !in s.g.txns
    ensures forall u :: RoleOk(Begun(s, f), u)
  {
    var s' := Begun(s, f);
    forall u ensures RoleOk(s', u) {
      assert RoleOk(s, u);
    }
  }

  lemma BeginReader(s: State, f: seq<TxnId>)
    requires Inv(s) && Tables(Begun(s, f))
    ensures Inv(Begun(s, f))
  {
    History(s);
    BeginHistory(s, f);
    BeginRoles(s, f);
    QuietStep(s, Begun(s, f));
  }

  lemma BeginStep(s: State, f: seq<TxnId>)
    requires Inv(s) && forall u :: u in f ==> IsActive(s.g, u)
    ensures Inv(Begun(s, f))
    ensures s.writer == None ==> Inv(Begun(s, f).(writer := Some(s.g.lastTxn + 1)))
  {
    BeginTables(s, f);
    BeginReader(s, f);
    if s.writer == None {
      var s' := Begun(s, f);
      BeginWriter(s', s'.(writer := Some(s.g.lastTxn + 1)), s.g.lastTxn + 1);
    }
  }

  lemma BeginWriter(s': State, s'': State, t: TxnId)
    requires Inv(s') && s''.writer == Some(t) && s'' == s'.(writer := Some(t)) && s'.writer == None
    requires t in s'.g.live && IsActive(s'.g, t) && s'.g.txns[t].snap.readSeq == s'.g.clock
    requires t in s'.f.writes && s'.f.writes[t] == map[] && t in s'.r.writes && s'.r.writes[t] == map[]
    ensures Inv(s'')
  {
    LiveInverse(s', t);
    History(s');
    forall u ensures RoleOk(s'', u) {
      assert RoleOk(s', u);
    }
    forall n: CommitSeq ensures InverseAt(s'', n) {
      assert InverseAt(s', n);
    }
    assert TxnOk(s''.g, t);
    InverseForFrame(s', s'', t);
  }

  lemma StageTables(s: State, t: TxnId, id: PointId, fv: Version<Position>, pos: Position, rv: Version<PointId>)
    requires Tables(s) && IsActive(s.g, t)
    ensures t in s.f.writes && t in s.r.writes
    ensures Tables(StageBoth(s, t, id, fv, pos, rv))
  {
    StageInv(s.g, s.f, t, id, fv);
    StageInv(s.g, s.r, t, pos, rv);
  }

  /** What the writer is promised after staging at one id and one position. */
  lemma StagedSpec(s: State, t: TxnId, id: PointId, fv: Version<Position>, pos: Position, rv: Version<PointId>,
                   id': PointId, pos': Position)
    requires Tables(s) && IsActive(s.g, t) && t in s.f.writes && t in s.r.writes && TxnOk(s.g, t)
    ensures var s' := StageBoth(s, t, id, fv, pos, rv);
            && SpecRead(s'.g, s'.f, t, id') == (if id' == id then fv.Value() else SpecRead(s.g, s.f, t, id'))
            && SpecRead(s'.g, s'.r, t, pos') == (if pos' == pos then rv.Value() else SpecRead(s.g, s.r, t, pos'))
  {
    History(s);
    var s' := StageBoth(s, t, id, fv, pos, rv);
    PairStable(s, s', s.g.txns[t].snap.readSeq, id', pos');
  }

  lemma StageStep(s: State, t: TxnId, id: PointId, fv: Version<Position>, pos: Position, rv: Version<PointId>)
    requires Inv(s) && s.writer == Some(t) && t in s.f.writes && t in s.r.writes && TxnOk(s.g, t)
    requires t in s.g.txns && s.g.clock == s.g.base + |s.g.log|
    requires (fv == Version(pos, false) && rv == Version(id, false)
                && SpecRead(s.g, s.f, t, id) == None && SpecRead(s.g, s.r, t, pos) == None)
          || (fv.tomb && rv.tomb && SpecRead(s.g, s.f, t, id) == Some(pos))
    ensures Inv(StageBoth(s, t, id, fv, pos, rv))
  {
    History(s);
    StageTables(s, t, id, fv, pos, rv);
    StageHistory(s, t, id, fv, pos, rv);
    StageRoles(s, t, id, fv, pos, rv);
    InverseKeeps(s, StageBoth(s, t, id, fv, pos, rv));
    StageInverse(s, t, id, fv, pos, rv);
  }

  lemma StageHistory(s: State, t: TxnId, id: PointId, fv: Version<Position>, pos: Position, rv: Version<PointId>)
    requires SameHistory(s, s) && t in s.f.writes && t in s.r.writes && t !in s.g.log
    ensures SameHistory(s, StageBoth(s, t, id, fv, pos, rv))
  {
  }

  lemma StageRoles(s: State, t: TxnId, id: PointId, fv: Version<Position>, pos: Position, rv: Version<PointId>)
    requires (forall u :: RoleOk(s, u)) && s.writer == Some(t) && t in s.f.writes && t in s.r.writes
    ensures forall u :: RoleOk(StageBoth(s, t, id, fv, pos, rv), u)
  {
    var s' := StageBoth(s, t, id, fv, pos, rv);
    forall u ensures RoleOk(s', u) {
      assert RoleOk(s, u);
    }
  }

  lemma StageInverse(s: State, t: TxnId, id: PointId, fv: Version<Position>, pos: Position, rv: Version<PointId>)
    requires Tables(s) && IsActive(s.g, t) && t in s.f.writes && t in s.r.writes && TxnOk(s.g, t)
    requires s.g.clock == s.g.base + |s.g.log| && InverseFor(s, t)
    requires (fv == Version(pos, false) && rv == Version(id, false)
                && SpecRead(s.g, s.f, t, id) == None && SpecRead(s.g, s.r, t, pos) == None)
          || (fv.tomb && rv.tomb && SpecRead(s.g, s.f, t, id) == Some(pos))
    ensures InverseFor(StageBoth(s, t, id, fv, pos, rv), t)
  {
    var s' := StageBoth(s, t, id, fv, pos, rv);
    forall id': PointId, pos': Position ensures PairFor(s', t, id', pos') {
      assert PairFor(s, t, id', pos') && PairFor(s, t, id, pos') && PairFor(s, t, id', pos) && PairFor(s, t, id, pos);
      StagedSpec(s, t, id, fv, pos, rv, id', pos');
    }
  }

  /** At the new sequence the log reads as the writer did just before committing. */
  lemma CommitPair(s: State, t: TxnId, id: PointId, pos: Position)
    requires Inv(s) && s.writer == Some(t)
    ensures PairAt(CommitTxn(s.g, t), s.f.writes, s.r.writes, s.g.clock + 1, id, pos)
  {
    assert PairFor(s, t, id, pos);
    var s' := s.(g := CommitTxn(s.g, t));
    History(s);
    PairStable(s, s', s.g.clock, id, pos);
  }

  lemma CommitTables(s: State, s': State, t: TxnId)
    requires Tables(s) && IsActive(s.g, t) && s.g.txns[t].snap.readSeq == s.g.clock
    requires s'.g == CommitTxn(s.g, t) && s'.f == CommitIn(s.f, t, s.g.clock + 1)
    requires s'.r == CommitIn(s.r, t, s.g.clock + 1)
    ensures Tables(s')
  {
    CommitAtClock(s.g, s.f, t);
    CommitAtClock(s.g, s.r, t);
  }

  lemma CommitInverse(s: State, m: CommitSeq)
    requires Inv(s) && Writing(s)
    ensures InverseAt(Next(s, CommitWrite), m)
  {
    History(s);
    var t, s' := s.writer.value, Next(s, CommitWrite);
    assert InverseAt(s, m);
    if m <= s.g.clock {
      InverseFrame(s, s', m);
    } else if m == s.g.clock + 1 {
      forall id: PointId, pos: Position ensures PairAt(s'.g, s'.f.writes, s'.r.writes, m, id, pos) {
        CommitPair(s, t, id, pos);
      }
    }
  }

  lemma CommitStep(s: State)
    requires Inv(s) && Writing(s)
    ensures Inv(Next(s, CommitWrite))
  {
    var s' := Next(s, CommitWrite);
    CommitTables(s, s', s.writer.value);
    forall u ensures RoleOk(s', u) {
      assert RoleOk(s, u);
    }
    forall m: CommitSeq ensures InverseAt(s', m) {
      CommitInverse(s, m);
    }
  }

  lemma StepInv(s: State, a: Step)
    requires Inv(s) && Enabled(s, a)
    ensures Inv(Next(s, a))
  {
    var s' := Next(s, a);
    match a
    case BeginRead(f) => BeginStep(s, f);
    case BeginWrite(f) => BeginStep(s, f);
    case Assign(id, pos) =>
      var t := s.writer.value;
      LiveRead(s.g, s.f, t, id);
      LiveRead(s.g, s.r, t, pos);
      StageStep(s, t, id, Version(pos, false), pos, Version(id, false));
    case Delete(id, pos) =>
      var t := s.writer.value;
      LiveRead(s.g, s.f, t, id);
      StageStep(s, t, id, Version(UNASSIGNED, true), pos, Version(id, true));
    case CommitWrite => CommitStep(s);
    case Rollback(t) => RollbackStep(s, t);
    case Deregister(t) => DeregisterStep(s, t);
    case Collect(w) => CollectStep(s, w);
  }

  lemma RollbackStep(s: State, t: TxnId)
    requires Inv(s) && IsActive(s.g, t)
    ensures Inv(Next(s, Rollback(t)))
  {
    History(s);
    AbortInv(s.g, s.f, t);
    AbortInv(s.g, s.r, t);
    var s' := Next(s, Rollback(t));
    forall u ensures RoleOk(s', u) {
      assert RoleOk(s, u);
    }
    QuietStep(s, s');
  }

  lemma DeregisterStep(s: State, t: TxnId)
    requires Inv(s) && !IsActive(s.g, t)
    ensures Inv(Next(s, Deregister(t)))
  {
    History(s);
    EndInv(s.g, s.f, t);
    EndInv(s.g, s.r, t);
    var s' := Next(s, Deregister(t));
    forall u ensures RoleOk(s', u) {
      assert RoleOk(s, u);
    }
    QuietStep(s, s');
  }

  lemma CollectStep(s: State, w: CommitSeq)
    requires Inv(s) && AtMostWatermark(s.g, w)
    ensures Inv(Next(s, Collect(w)))
  {
    History(s);
    CollectInv(s.g, s.f, w);
    CollectInv(s.g, s.r, w);
    var s' := Next(s, Collect(w));
    forall u ensures RoleOk(s', u) {
      assert RoleOk(s, u);
    }
    QuietStep(s, s');
  }

  lemma {:induction false} RunInv(s: State, run: seq<Step>)
    requires Inv(s) && IsRun(s, run)
    ensures Inv(After(s, run))
    decreases |run|
  {
    if run != [] {
      StepInv(s, run[0]);
      RunInv(Next(s, run[0]), run[1..]);
    }
  }

  lemma InitIdMap(start: CommitSeq)
    ensures Inv(Init(start))
  {
    InitInv<PointId, Position>(start);
    InitInv<Position, PointId>(start);
  }

  /** In every run, Lookup and Reverse are mutually inverse for every live snapshot. */
  lemma Bijection(start: CommitSeq, run: seq<Step>, t: TxnId, id: PointId, pos: Position)
    requires IsRun(Init(start), run) && t in After(Init(start), run).g.live
    ensures var s := After(Init(start), run);
            && t in s.g.txns
            && (LookupBy(s, t, id) == Some(pos) <==> ReverseBy(s, t, pos) == Some(id))
  {
    InitIdMap(start);
    RunInv(Init(start), run);
    var s := After(Init(start), run);
    LiveInverse(s, t);
    LiveRead(s.g, s.f, t, id);
    LiveRead(s.g, s.r, t, pos);
    assert PairFor(s, t, id, pos);
  }

  /** The same holds for an unregistered snapshot taken at any sequence collection has not
      passed. */
  lemma FreshBijection(start: CommitSeq, run: seq<Step>, snap: Snapshot, id: PointId, pos: Position)
    requires IsRun(Init(start), run) && Unregistered(After(Init(start), run).g, snap)
    ensures var s := After(Init(start), run);
            Read(ChainAt(s.f.chains, id), Through(snap)) == Some(pos) <==>
            Read(ChainAt(s.r.chains, pos), Through(snap)) == Some(id)
  {
    InitIdMap(start);
    RunInv(Init(start), run);
    var s := After(Init(start), run);
    FreshRead(s.g, s.f, snap, id);
    FreshRead(s.g, s.r, snap, pos);
    assert InverseAt(s, snap.readSeq);
    assert PairAt(s.g, s.f.writes, s.r.writes, snap.readSeq, id, pos);
  }

  // ---- what a writer's steps do ----

  /** After assigning, the writer finds the pair both ways; after deleting, neither way; and
      every other id and position reads as before. */
  lemma WriterReads(s: State, a: Step, other: PointId, spot: Position)
    requires Inv(s) && Enabled(s, a) && (a.Assign? || a.Delete?)
    ensures var t, s' := s.writer.value, Next(s, a);
            && t in s'.g.txns
            && LookupBy(s', t, other)
               == (if other != a.id then LookupBy(s, t, other) else if a.Assign? then Some(a.pos) else None)
            && ReverseBy(s', t, spot)
               == (if spot != a.pos then ReverseBy(s, t, spot) else if a.Assign? then Some(a.id) else None)
  {
    var t := s.writer.value;
    match a
    case Assign(id, pos) =>
      StagedRead(s.g, s.f, t, id, Version(pos, false), other);
      StagedRead(s.g, s.r, t, pos, Version(id, false), spot);
    case Delete(id, pos) =>
      StagedRead(s.g, s.f, t, id, Version(UNASSIGNED, true), other);
      StagedRead(s.g, s.r, t, pos, Version(id, true), spot);
  }
}
