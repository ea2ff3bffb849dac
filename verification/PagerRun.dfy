/** A run of the pager that ends with a page handed out twice. */
module PagerRun {
  import opened Prelude
  import opened PageFormat
  import opened Freelist
  import opened BufferPool
  import opened Pager

  /** Nothing is pinned. */
  ghost predicate AllIdle(frames: seq<Frame>) {
    forall j :: 0 <= j < |frames| ==> frames[j].pins == 0
  }

  /** Valid, and nothing is in use. */
  ghost predicate Idle(p: Pager)
    reads p
  {
    p.Valid() && AllIdle(p.pool) && p.wet == {}
  }

  /** A frame is taken. */
  lemma OneBusy(a: seq<Frame>, b: seq<Frame>, slot: nat)
    requires |a| == |b| && slot < |b| && AllIdle(a)
    requires forall j :: 0 <= j < |b| && j != slot ==> Undisturbed(b[j], a[j])
    ensures AllIdle(b[slot := b[slot].(pins := 0)])
  {
    var c := b[slot := b[slot].(pins := 0)];
    forall j | 0 <= j < |c| ensures c[j].pins == 0 {
      assert j != slot ==> Undisturbed(b[j], a[j]);
    }
  }

  /** Allocates a page past the high-water mark in a pager that is not in use. */
  method AllocateOne(p: Pager) returns (slot: nat)
    requires Idle(p) && p.free == [] && p.dbSize + 1 < U32
    modifies p
    ensures p.Valid() && p.wet == {} && p.free == [] && p.dbSize == old(p.dbSize) + 1 && p.header == old(p.header)
    ensures p.store == old(p.store)[p.dbSize := Zeros(p.pageSize)]
    ensures slot < |p.pool| && p.pool[slot].pins == 1 && AllIdle(p.pool[slot := p.pool[slot].(pins := 0)])
    ensures |p.file| == old(|p.file|) || |p.file| in old(p.store)
  {
    assert !Stuck(p.pool[0], {});
    ghost var before := p.pool;
    var r := p.Allocate({});
    slot := r.value.1;
    OneBusy(before, p.pool, slot);
  }

  /** Exactly the pages up to the high-water mark are live. */
  ghost predicate Dense(p: Pager)
    reads p
  {
    p.free == [] && forall x :: x in p.store <==> 1 <= x <= p.dbSize
  }

  /** The same, and lets go of it. */
  method AllocateIdle(p: Pager)
    requires Idle(p) && Dense(p) && p.dbSize + 1 < U32
    modifies p
    ensures Idle(p) && Dense(p) && p.dbSize == old(p.dbSize) + 1 && p.header == old(p.header)
    ensures |p.file| <= old(p.dbSize)
  {
    var slot := AllocateOne(p);
    ghost var before := p.pool;
    p.Unpin(slot, true);
    Released(before, p.pool, slot);
  }

  lemma Released(b: seq<Frame>, c: seq<Frame>, slot: nat)
    requires |b| == |c| && slot < |b| && AllIdle(b[slot := b[slot].(pins := 0)]) && c == b[slot := c[slot]]
    requires c[slot].pins == 0
    ensures AllIdle(c)
  {
    var z := b[slot := b[slot].(pins := 0)];
    forall j | 0 <= j < |c| ensures c[j].pins == 0 {
      assert j != slot ==> c[j] == z[j];
    }
  }

  method FreeIdle(p: Pager, pgno: nat)
    requires Idle(p) && pgno in p.store && pgno != 1
    modifies p
    ensures Idle(p) && p.store == old(p.store) - {pgno} && p.free == old(p.free) + [pgno]
    ensures p.header == old(p.header) && p.file == old(p.file)
  {
    p.Free(pgno);
  }

  method OnePage(crc: seq<Byte> -> nat) returns (p: Pager)
    ensures fresh(p) && Idle(p) && Dense(p) && p.dbSize == 1
    ensures p.header.pageSize == 4096 && p.header.reserved == 0
  {
    p := new Pager.Create(4096, 1, 0, crc, 8);
  }

  method TwoPages(crc: seq<Byte> -> nat) returns (p: Pager)
    ensures fresh(p) && Idle(p) && Dense(p) && p.dbSize == 2
    ensures p.header.pageSize == 4096 && p.header.reserved == 0
  {
    p := OnePage(crc);
    AllocateIdle(p);
  }

  method FourPages(crc: seq<Byte> -> nat) returns (p: Pager)
    ensures fresh(p) && Idle(p) && Dense(p) && p.dbSize == 4 && |p.file| <= 3
    ensures p.header.pageSize == 4096 && p.header.reserved == 0
  {
    p := TwoPages(crc);
    AllocateIdle(p);
    AllocateIdle(p);
  }

  /** Pages 2, 3 and 4 are allocated, 4 and then 3 freed before they reach the file. */
  method FreeUnwritten(crc: seq<Byte> -> nat) returns (p: Pager)
    ensures fresh(p) && Idle(p) && p.free == [4, 3] && |p.file| <= 3
    ensures p.header.pageSize == 4096 && p.header.reserved == 0 && forall x :: x in p.store ==> x <= 2
  {
    p := FourPages(crc);
    FreeIdle(p, 4);
    FreeIdle(p, 3);
  }

  /** What a checkpoint then writes back is page 2 at most. */
  lemma OnlyPageTwo(m: Pool)
    requires PoolOk(m) && forall x :: x in m.store ==> x <= 2
    ensures forall x :: x in DirtyPages(m.frames, |m.frames|) ==> x == 2
  {
    forall x | x in DirtyPages(m.frames, |m.frames|) ensures x == 2 {
      DirtyPagesAre(m.frames, |m.frames|, x);
      var j :| 0 <= j < |m.frames| && m.frames[j].dirty && m.frames[j].pgno == x;
      assert SlotOk(m, j);
    }
  }

  lemma OneTrunk()
    ensures ListTrunks([4, 3], 4096, 0) == {3}
  {
    assert TrunkCapacity(4096, 0) == 1015 && TrunkCount(2, 1015) == 1;
    assert TrunksOf([4, 3], 1) == [3];
  }

  lemma TwiceFour(free: seq<nat>)
    requires multiset(free) == multiset([4, 3])
    ensures exists j: nat, k: nat :: j < k && Handout(free, 3, j) == 4 == Handout(free, 3, k)
  {
    assert |free| == |multiset(free)| == 2 && 4 in multiset(free);
    var i :| 0 <= i < |free| && free[i] == 4;
    assert Handout(free, 3, 1 - i) == 4 == Handout(free, 3, 2);
  }

  lemma EndsAtThree(was: nat, now: nat, written: set<nat>)
    requires EndsAt(was, now, written + {3}) && was <= 3 && forall x :: x in written ==> x == 2
    ensures now == 3
  {
    assert 3 in written + {3};
  }

  /** The checkpoint makes page 3 the trunk and page 4 its leaf, so that the file ends at
      page 3. */
  method CheckpointShort(crc: seq<Byte> -> nat) returns (p: Pager, ghost visits: seq<nat>)
    ensures p.Valid() && p.Settled() && p.HeaderOnFile() && p.wet == {} && p.free == [4, 3] && |p.file| == 3
    ensures ChainHolds(p.file, p.pageSize, p.header.freelistTrunk, visits, p.free)
  {
    p := FreeUnwritten(crc);
    OnlyPageTwo(p.Now());
    OneTrunk();
    ghost var size, dirty := |p.file|, DirtyPages(p.pool, |p.pool|);
    var r;
    r, visits := p.Checkpoint({});
    EndsAtThree(size, |p.file|, dirty);
  }

  /** The reopened pager hands page 4 out twice. */
  method ReopenTwice(crc: seq<Byte> -> nat) returns (q: Pager)
    ensures !q.Valid() && !HandoutSafe(q.free, q.store.Keys, q.dbSize)
    ensures exists j: nat, k: nat :: j < k && Handout(q.free, q.dbSize, j) == 4 == Handout(q.free, q.dbSize, k)
  {
    var p;
    ghost var visits;
    p, visits := CheckpointShort(crc);
    assert 4 in p.free;
    q := Reopen(p, 8, visits);
    TwiceFour(q.free);
  }
}
