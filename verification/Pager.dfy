/**
  The pager (pager/pager.go, pager/ops.go): a CLOCK buffer pool over the main file
  with page allocation against a freelist.  A frame is handed out as its slot in the
  pool; writes to a set of pages may be made to fail during a call.
 */
module Pager {
  import opened Prelude
  import opened PageFormat
  import opened DbHeader
  import opened Freelist
  import opened BufferPool

  datatype PagerError = NullPage | PoolExhausted

  datatype OpenError = NoHeader | BadHeader(error: HeaderError) | LostTrunk

  datatype CheckpointResult = Done | FlushFailed | FreelistFailed | HeaderFailed

  // ---- page conservation ----

  /** Page p is exactly one of live, free and leaked if it is at or below the high-water
      mark, and none of them otherwise. */
  ghost predicate Accounted(free: seq<nat>, live: set<nat>, leaked: set<nat>, dbSize: nat, p: nat) {
    && ((p in live || p in leaked || p in free) <==> 1 <= p <= dbSize)
    && !(p in live && p in leaked) && (p in free ==> p !in live && p !in leaked)
  }

  /** Every page is accounted for, and no page is free twice. */
  ghost predicate Partition(free: seq<nat>, live: set<nat>, leaked: set<nat>, dbSize: nat) {
    NoDup(free) && 1 in live && forall p :: Accounted(free, live, leaked, dbSize, p)
  }

  /** The k-th page number allocation hands out, counting from 0: the free list from
      its end, then page numbers past the high-water mark. */
  function Handout(free: seq<nat>, dbSize: nat, k: nat): nat {
    if k < |free| then free[|free| - 1 - k] else dbSize + (k - |free|) + 1
  }

  /** No allocation ever returns a live page, or the same page twice. */
  ghost predicate HandoutSafe(free: seq<nat>, live: set<nat>, dbSize: nat) {
    && (forall k :: Handout(free, dbSize, k) !in live)
    && (forall j, k :: j < k ==> Handout(free, dbSize, j) != Handout(free, dbSize, k))
  }

  lemma PartitionSafe(free: seq<nat>, live: set<nat>, leaked: set<nat>, dbSize: nat)
    requires Partition(free, live, leaked, dbSize)
    ensures HandoutSafe(free, live, dbSize)
  {
    forall k: nat ensures Handout(free, dbSize, k) !in live && (k < |free| ==> Handout(free, dbSize, k) <= dbSize) {
      assert Accounted(free, live, leaked, dbSize, Handout(free, dbSize, k));
    }
  }

  /** Reopening takes the page count from the file's size.  Allocation stays safe
      exactly when the file is long enough to hold every free page; otherwise some free
      page is handed out twice. */
  lemma ReopenSafe(free: seq<nat>, free': seq<nat>, live: set<nat>, leaked: set<nat>, dbSize: nat, size: nat)
    requires Partition(free, live, leaked, dbSize) && multiset(free') == multiset(free)
    requires 1 <= size <= dbSize && forall p :: p in live ==> p <= size
    ensures HandoutSafe(free', live, size) <==> forall f :: f in free ==> f <= size
    ensures (forall f :: f in free ==> f <= size) <==>
      Partition(free', live, (set p | p in leaked && p <= size), size)
  {
    SamePages(free, free');
    var leaked' := set p | p in leaked && p <= size;
    if forall f :: f in free ==> f <= size {
      forall p: nat ensures Accounted(free', live, leaked', size, p) {
        assert Accounted(free, live, leaked, dbSize, p);
      }
      PartitionSafe(free', live, leaked', size);
    } else {
      var f :| f in free && f > size;
      assert f in free' && !Accounted(free', live, leaked', size, f);
      var i :| 0 <= i < |free'| && free'[i] == f;
      var j, k := |free'| - 1 - i, |free'| + (f - size) - 1;
      assert Handout(free', size, j) == f == Handout(free', size, k);
    }
  }

  /** Freeing a page that is free already makes allocation hand it out twice. */
  lemma FreedTwice(free: seq<nat>, live: set<nat>, dbSize: nat, p: nat)
    requires p in free
    ensures !HandoutSafe(free + [p], live, dbSize)
  {
    var i :| 0 <= i < |free| && free[i] == p;
    assert Handout(free + [p], dbSize, 0) == p == Handout(free + [p], dbSize, |free| - i);
  }

  lemma {:induction false} CountInTail(s: seq<nat>, i: nat, j: nat)
    requires i < j < |s| && s[i] == s[j]
    ensures multiset(s)[s[i]] >= 2
  {
    assert s == s[..j] + [s[j]] + s[j + 1..];
    assert s[i] == s[..j][i];
    assert s[i] in multiset(s[..j]);
  }

  lemma {:induction false} CountNoDup(s: seq<nat>, x: nat)
    requires NoDup(s)
    ensures multiset(s)[x] <= 1
  {
    if s != [] {
      CountNoDup(s[1..], x);
      assert s == [s[0]] + s[1..];
      if x == s[0] {
        assert x !in s[1..];
      }
    }
  }

  lemma SamePages(a: seq<nat>, b: seq<nat>)
    requires multiset(a) == multiset(b) && NoDup(a)
    ensures NoDup(b) && forall x :: x in a <==> x in b
  {
    forall x ensures x in a <==> x in b {
      assert x in a <==> x in multiset(a);
      assert x in b <==> x in multiset(b);
    }
    forall i, j | 0 <= i < j < |b| ensures b[i] != b[j] {
      if b[i] == b[j] {
        CountInTail(b, i, j);
        CountNoDup(a, b[i]);
      }
    }
  }

  // ---- CLOCK ----

  /** A frame no eviction can take: pinned, or dirty with a failing write. */
  predicate Stuck(f: Frame, failing: set<nat>) {
    f.pins != 0 || (f.dirty && f.pgno in failing)
  }

  /** The slot the hand shows after d steps from slot h, d < n. */
  function Ahead(h: nat, d: nat, n: nat): nat {
    if h + d < n then h + d else h + d - n
  }

  /** The slot after slot h. */
  function Onward(h: nat, n: nat): nat {
    if h + 1 < n then h + 1 else 0
  }

  /** How far into its sweep the hand is after i of 2n steps. */
  function Turn(i: nat, n: nat): nat {
    if i < n then i else if i < 2 * n then i - n else 0
  }

  lemma Advance(h: nat, i: nat, n: nat)
    requires h < n && i < 2 * n
    ensures Ahead(h, Turn(i + 1, n), n) == Onward(Ahead(h, Turn(i, n), n), n)
  {
  }

  /** A frame the hand has been over in the first sweep. */
  predicate Passed(f: Frame) {
    f.pins != 0 || !f.ref
  }

  /** After i steps from slot h: nothing is disturbed; the frames of the
      first sweep have lost theirs or are pinned; those of the second are stuck. */
  ghost predicate SweepOk(frames: seq<Frame>, start: seq<Frame>, h: nat, i: nat, failing: set<nat>) {
    var n := |frames|;
    && |start| == n && h < n
    && (forall j :: 0 <= j < n ==> Undisturbed(frames[j], start[j]))
    && (forall d :: 0 <= d < n && d < i ==> Passed(frames[Ahead(h, d, n)]))
    && (forall d :: 0 <= d < n && d < i - n ==> Stuck(frames[Ahead(h, d, n)], failing))
  }

  lemma SweepStep(frames: seq<Frame>, frames': seq<Frame>, start: seq<Frame>, h: nat, i: nat, failing: set<nat>)
    requires SweepOk(frames, start, h, i, failing) && |frames'| == |frames| && i < 2 * |frames|
    requires var slot := Ahead(h, Turn(i, |frames|), |frames|);
             && (forall j :: 0 <= j < |frames| && j != slot ==> frames'[j] == frames[j])
             && Undisturbed(frames'[slot], frames[slot]) && Passed(frames'[slot])
             && (!frames[slot].ref || frames[slot].pins != 0 ==> Stuck(frames'[slot], failing))
    ensures SweepOk(frames', start, h, i + 1, failing)
  {
    var n := |frames|;
    var slot := Ahead(h, Turn(i, n), n);
    forall d | 0 <= d < n && d < i + 1 ensures Passed(frames'[Ahead(h, d, n)]) {
      assert d < i ==> Passed(frames[Ahead(h, d, n)]);
    }
    forall d | 0 <= d < n && d < i + 1 - n ensures Stuck(frames'[Ahead(h, d, n)], failing) {
      assert Passed(frames[Ahead(h, d, n)]);
      assert d < i - n ==> Stuck(frames[Ahead(h, d, n)], failing);
    }
  }

  lemma SweepDone(frames: seq<Frame>, start: seq<Frame>, h: nat, failing: set<nat>)
    requires SweepOk(frames, start, h, 2 * |frames|, failing)
    ensures forall j :: 0 <= j < |start| ==> Stuck(start[j], failing)
  {
    var n := |frames|;
    forall j | 0 <= j < n ensures Stuck(start[j], failing) {
      var d := if j >= h then j - h else j - h + n;
      assert Ahead(h, d, n) == j;
      assert Stuck(frames[Ahead(h, d, n)], failing) && Undisturbed(frames[j], start[j]);
    }
  }

  /** After i steps: frames the hand has not reached are as they were, and those it has
      been over had been used recently or are stuck. */
  ghost predicate Chances(frames: seq<Frame>, start: seq<Frame>, h: nat, i: nat, failing: set<nat>) {
    var n := |frames|;
    && |start| == n && h < n
    && (forall d :: 0 <= d < n && i <= d ==> frames[Ahead(h, d, n)] == start[Ahead(h, d, n)])
    && (forall d :: 0 <= d < n && d < i ==> start[Ahead(h, d, n)].ref || Stuck(start[Ahead(h, d, n)], failing))
  }

  lemma ChanceStep(frames: seq<Frame>, frames': seq<Frame>, start: seq<Frame>, h: nat, i: nat, failing: set<nat>)
    requires Chances(frames, start, h, i, failing) && |frames'| == |frames| && i < 2 * |frames|
    requires var slot := Ahead(h, Turn(i, |frames|), |frames|);
             && (forall j :: 0 <= j < |frames| && j != slot ==> frames'[j] == frames[j])
             && (!frames[slot].ref ==> Stuck(frames'[slot], failing))
             && Undisturbed(frames'[slot], frames[slot])
    ensures Chances(frames', start, h, i + 1, failing)
  {
    var n := |frames|;
    forall d | 0 <= d < n && i + 1 <= d ensures frames'[Ahead(h, d, n)] == start[Ahead(h, d, n)] {
      assert frames[Ahead(h, d, n)] == start[Ahead(h, d, n)];
    }
    forall d | 0 <= d < n && d < i + 1 ensures start[Ahead(h, d, n)].ref || Stuck(start[Ahead(h, d, n)], failing) {
      assert d < i ==> start[Ahead(h, d, n)].ref || Stuck(start[Ahead(h, d, n)], failing);
      assert d == i ==> frames[Ahead(h, d, n)] == start[Ahead(h, d, n)];
    }
  }

  /** The frame d steps from slot h is the one to go: the first not used recently among
      those that are not stuck; only when all of those were, the first of them. */
  ghost predicate Victim(frames: seq<Frame>, h: nat, d: nat, failing: set<nat>) {
    var n := |frames|;
    && d < n && h < n && !Stuck(frames[Ahead(h, d, n)], failing)
    && if frames[Ahead(h, d, n)].ref
       then (forall j :: 0 <= j < n ==> frames[j].ref || Stuck(frames[j], failing))
            && (forall e :: 0 <= e < d ==> Stuck(frames[Ahead(h, e, n)], failing))
       else forall e :: 0 <= e < d ==> frames[Ahead(h, e, n)].ref || Stuck(frames[Ahead(h, e, n)], failing)
  }

  ghost predicate HandTook(frames: seq<Frame>, h: nat, failing: set<nat>, slot: nat) {
    exists d :: 0 <= d < |frames| && Victim(frames, h, d, failing) && slot == Ahead(h, d, |frames|)
  }

  lemma VictimFound(frames: seq<Frame>, start: seq<Frame>, h: nat, i: nat, failing: set<nat>)
    requires SweepOk(frames, start, h, i, failing) && Chances(frames, start, h, i, failing) && i < 2 * |frames|
    requires var slot := Ahead(h, Turn(i, |frames|), |frames|); !frames[slot].ref && !Stuck(frames[slot], failing)
    ensures Victim(start, h, Turn(i, |frames|), failing)
  {
    var n := |frames|;
    if i >= n {
      forall j | 0 <= j < n ensures start[j].ref || Stuck(start[j], failing) {
        var d := if j >= h then j - h else j - h + n;
        assert Ahead(h, d, n) == j;
      }
      forall e | 0 <= e < i - n ensures Stuck(start[Ahead(h, e, n)], failing) {
        assert Stuck(frames[Ahead(h, e, n)], failing);
      }
    }
  }

  /** Equal but for the tail checksum, which page 1 has not. */
  predicate SameBody(p: nat, a: Page, b: Page) {
    || a == b
    || (p != 1 && |a| == |b| >= PAGE_CHECKSUM_SIZE
        && a[..|a| - PAGE_CHECKSUM_SIZE] == b[..|b| - PAGE_CHECKSUM_SIZE])
  }

  /** What a sweep leaves alone: everything but reference bits and tail checksums of
      unpinned frames. */
  predicate Undisturbed(f: Frame, g: Frame) {
    f == g.(ref := f.ref, data := f.data) && SameBody(g.pgno, f.data, g.data) && (g.pins != 0 ==> f == g)
  }

  const DEFAULT_CACHE_FRAMES: nat := 2000

  /** The empty frames of a new pager. */
  function NewPool(ps: nat, cacheFrames: int): (r: seq<Frame>)
    ensures |r| == (if cacheFrames <= 0 then DEFAULT_CACHE_FRAMES else cacheFrames)
    ensures forall i :: 0 <= i < |r| ==> r[i] == Frame(0, Zeros(ps), 0, false, false)
  {
    seq(if cacheFrames <= 0 then DEFAULT_CACHE_FRAMES else cacheFrames, i => Frame(0, Zeros(ps), 0, false, false))
  }

  /** Before anything is resident, the pool is sound if the file holds the store. */
  lemma FreshPool(m: Pool)
    requires m.ps >= HEADER_SIZE + PAGE_CHECKSUM_SIZE && AllSized(m.file, m.ps) && |m.frames| > 0
    requires forall i :: 0 <= i < |m.frames| ==> m.frames[i] == Frame(0, Zeros(m.ps), 0, false, false)
    requires m.index == map[] && m.wet == {}
    requires forall p :: p in m.store ==> 1 <= p <= |m.file| && Agree(m.ps, p, PageAt(m.file, m.ps, p), m.store[p])
    ensures PoolOk(m)
  {
    forall p: nat ensures PageOk(m, p) {
    }
  }

  class Pager {
    const pageSize: nat
    const algo: ChecksumAlgo
    const crc: seq<Byte> -> nat

    var header: Header
    var file: Pages
    var pool: seq<Frame>
    var index: map<nat, nat>
    var hand: nat
    var dbSize: nat
    var free: seq<nat>

    ghost var store: map<nat, Page>   // the plain page store this pager stands for
    ghost var wet: set<nat>           // slots modified through a pin, not yet marked dirty
    ghost var leaked: set<nat>        // pages lost by allocations that found no frame

    ghost function Now(): Pool
      reads this
    {
      Pool(pageSize, pool, index, file, store, wet)
    }

    ghost predicate PoolValid()
      reads this
    {
      PoolOk(Now()) && hand < |pool|
    }

    /** Page 1 of the file begins with the encoded header. */
    ghost predicate HeaderOnFile()
      reads this
    {
      |file| >= 1 && |file[0]| >= HEADER_SIZE && file[0][..HEADER_SIZE] == HeaderBytes(header, crc)
    }

    /** A new database: one page, the header, already on file. */
    constructor Create(ps: nat, kind: Byte, flags: Byte, crc: seq<Byte> -> nat, cacheFrames: int)
      requires ValidPageSize(ps)
      ensures Valid() && HeaderOnFile() && header == NewHeader(ps, kind).(flags := flags) && this.crc == crc
      ensures header.pageSize == ps && header.checksum == kind && header.reserved == 0 && header.pageCount == 1
      ensures header.changeCounter == 1 == header.versionValidFor && header.freelistTrunk == 0 == header.freelistCount
      ensures dbSize == 1 && free == [] && leaked == {} && wet == {}
      ensures store.Keys == {1} && |file| == 1 && index == map[] && pool == NewPool(ps, cacheFrames)
    {
      var h := NewHeader(ps, kind).(flags := flags);
      var page1 := HeaderBytes(h, crc) + Zeros(ps - HEADER_SIZE);
      pageSize, algo, this.crc, header := ps, AlgoOf(kind, crc), crc, h;
      file, dbSize, free, index, hand := [page1], 1, [], map[], 0;
      pool := NewPool(ps, cacheFrames);
      store, wet, leaked := map[1 := page1], {}, {};
      new;
      FreshPool(Now());
      forall p: nat ensures Accounted(free, store.Keys, leaked, dbSize, p) {
      }
    }

    /** A pager over an existing file, given its header and free list.  It is valid exactly
        when the pages of the file are partitioned. */
    constructor Over(crc: seq<Byte> -> nat, h: Header, disk: Pages, list: seq<nat>, cacheFrames: int,
                     ghost st: map<nat, Page>, ghost lost: set<nat>)
      requires Fits(h) && h.textEncoding == 0 && AllSized(disk, h.pageSize) && 1 <= |disk| < U32
      requires Backed(disk, h.pageSize, st)
      ensures pageSize == h.pageSize && this.crc == crc && header == h
      ensures file == disk && dbSize == |disk| && free == list
      ensures store == st && leaked == lost && wet == {} && index == map[] && PoolValid()
      ensures Valid() <==> Partition(list, st.Keys, lost, |disk|)
    {
      pageSize, algo, this.crc, header := h.pageSize, AlgoOf(h.checksum, crc), crc, h;
      file, dbSize, free, index, hand := disk, |disk|, list, map[], 0;
      pool := NewPool(h.pageSize, cacheFrames);
      store, wet, leaked := st, {}, lost;
      new;
      FreshPool(Now());
    }

    /** Stamps the frame's checksum, writes it back and leaves it clean, unless the write
        fails. */
    method WriteBack(i: nat, failing: set<nat>) returns (ok: bool)
      requires PoolOk(Now()) && i < |pool| && pool[i].pgno != 0
      modifies this`pool, this`file, this`wet
      ensures |old(pool[i]).data| == pageSize >= PAGE_CHECKSUM_SIZE
      ensures ok == (old(pool[i]).pgno !in failing)
      ensures PoolOk(Now())
      ensures Now() == if ok then Written(old(Now()), i, algo) else Stamped(old(Now()), i, algo)
      ensures ok ==> |file| == Max(|old(file)|, old(pool[i]).pgno)
      ensures ok && old(pool[i]).pgno != 1 ==> PageAt(file, pageSize, 1) == PageAt(old(file), pageSize, 1)
      ensures ok && old(pool[i]).pgno != 1 ==> Verifies(file, pageSize, algo, old(pool[i]).pgno)
    {
      assert SlotOk(Now(), i);
      ghost var m := Now();
      WriteBackOk(Now(), i, algo);
      StampOk(Now(), i, algo);
      SealVerifies(pool[i].data, algo);
      WriteSeen(file, pageSize, pool[i].pgno, Outgoing(pool[i], algo));
      if pool[i].pgno != 1 {
        pool := pool[i := pool[i].(data := Seal(pool[i].data, algo))];
      }
      if pool[i].pgno in failing {
        return false;
      }
      file := WritePage(file, pageSize, pool[i].pgno, pool[i].data);
      pool := pool[i := pool[i].(dirty := false)];
      wet := wet - {i};
      assert pool == m.frames[i := pool[i]] && Now() == Written(m, i, algo);
      return true;
    }

    /** Empties an unpinned frame, writing it back first if it is dirty. */
    method TakeVictim(i: nat, failing: set<nat>) returns (ok: bool)
      requires PoolOk(Now()) && i < |pool| && pool[i].pgno != 0 && pool[i].pins == 0
      modifies this`pool, this`file, this`wet, this`index
      ensures ok == !Stuck(old(pool[i]), failing)
      ensures PoolOk(Now()) && wet == old(wet) && |pool| == |old(pool)|
      ensures !ok ==> file == old(file) && index == old(index) && Undisturbed(pool[i], old(pool)[i])
      ensures !ok ==> pool[i].ref == old(pool)[i].ref
      ensures ok ==> pool[i].pgno == 0 && index == old(index) - {old(pool[i]).pgno}
      ensures |file| == |old(file)| || (|file| > |old(file)| && |file| in store)
      ensures forall j :: 0 <= j < |pool| && j != i ==> pool[j] == old(pool)[j]
    {
      assert SlotOk(Now(), i);
      ghost var p := pool[i].pgno;
      if pool[i].dirty {
        var written := WriteBack(i, failing);
        if !written {
          return false;
        }
      }
      Unbind(Now(), i);
      index := index - {pool[i].pgno};
      pool := pool[i := pool[i].(pgno := 0, dirty := false)];
      return true;
    }

    method FindEmpty() returns (r: Option<nat>)
      ensures r.Some? ==> r.value < |pool| && pool[r.value].pgno == 0 && pool[r.value].pins == 0
      ensures r.Some? ==> forall j :: 0 <= j < r.value && pool[j].pins == 0 ==> pool[j].pgno != 0
      ensures r == None ==> forall j :: 0 <= j < |pool| && pool[j].pins == 0 ==> pool[j].pgno != 0
    {
      var k := 0;
      while k < |pool|
        invariant 0 <= k <= |pool|
        invariant forall j :: 0 <= j < k && pool[j].pins == 0 ==> pool[j].pgno != 0
      {
        if pool[k].pgno == 0 && pool[k].pins == 0 {
          return Some(k);
        }
        k := k + 1;
      }
      return None;
    }

    /** One position of the hand: a pinned frame is passed over, a recently used one loses
        its reference bit, any other is taken unless its write-back fails. */
    method Visit(slot: nat, failing: set<nat>) returns (taken: bool)
      requires PoolOk(Now()) && slot < |pool| && (pool[slot].pins == 0 ==> pool[slot].pgno != 0)
      modifies this`pool, this`file, this`wet, this`index
      ensures PoolOk(Now()) && wet == old(wet) && |pool| == |old(pool)|
      ensures forall j :: 0 <= j < |pool| && j != slot ==> pool[j] == old(pool)[j]
      ensures !taken ==> file == old(file) && index == old(index) && Undisturbed(pool[slot], old(pool)[slot])
      ensures !taken ==> pool[slot].pins != 0 || !pool[slot].ref
      ensures !taken && !old(pool)[slot].ref ==> Stuck(pool[slot], failing)
      ensures !taken && old(pool)[slot].pins != 0 ==> Stuck(pool[slot], failing)
      ensures taken ==> pool[slot].pgno == 0 && !Stuck(old(pool)[slot], failing) && !old(pool)[slot].ref
      ensures taken ==> index == old(index) - {old(pool)[slot].pgno}
      ensures |file| == |old(file)| || (|file| > |old(file)| && |file| in store)
    {
      assert SlotOk(Now(), slot);
      if pool[slot].pins != 0 {
        return false;
      }
      if pool[slot].ref {
        Mark(Now(), slot, pool[slot].(ref := false), wet);
        pool := pool[slot := pool[slot].(ref := false)];
        return false;
      }
      taken := TakeVictim(slot, failing);
    }

    method MoveOn()
      requires hand < |pool|
      modifies this`hand
      ensures hand == Onward(old(hand), |pool|)
    {
      hand := (hand + 1) % |pool|;
      assert old(hand) + 1 == |pool| ==> |pool| % |pool| == 0;
    }

    /** Two sweeps of the CLOCK hand over a pool without empty frames: takes the first
        frame it meets that is unpinned and not recently used. */
    method Sweep(failing: set<nat>) returns (r: Option<nat>)
      requires PoolValid() && forall j :: 0 <= j < |pool| && pool[j].pins == 0 ==> pool[j].pgno != 0
      modifies this`pool, this`file, this`wet, this`index, this`hand
      ensures PoolValid() && Reclaimed(r, old(pool), old(index), failing) && wet == old(wet)
      ensures |file| == |old(file)| || (|file| > |old(file)| && |file| in store)
      ensures r.Some? ==> HandTook(old(pool), old(hand), failing, r.value) && hand == Onward(r.value, |pool|)
    {
      var n := |pool|;
      ghost var h := hand;
      var i := 0;
      while i < 2 * n
        invariant 0 <= i <= 2 * n && |pool| == n && hand == Ahead(h, Turn(i, n), n)
        invariant PoolOk(Now()) && wet == old(wet) && index == old(index) && file == old(file)
        invariant SweepOk(pool, old(pool), h, i, failing) && Chances(pool, old(pool), h, i, failing)
      {
        var slot := hand;
        Advance(h, i, n);
        MoveOn();
        assert Undisturbed(pool[slot], old(pool)[slot]);
        ghost var before := pool;
        var taken := Visit(slot, failing);
        if taken {
          VictimFound(before, old(pool), h, i, failing);
          return Some(slot);
        }
        SweepStep(before, pool, old(pool), h, i, failing);
        ChanceStep(before, pool, old(pool), h, i, failing);
        i := i + 1;
      }
      SweepDone(pool, old(pool), h, failing);
      return None;
    }

    /** What reclaiming a frame leaves behind: an empty slot that was not stuck and its
        page gone from the index, or nothing at all exactly when every frame is stuck.
        Every other frame is as it was but for a reference bit. */
    ghost predicate Reclaimed(r: Option<nat>, frames: seq<Frame>, ix: map<nat, nat>, failing: set<nat>)
      reads this`pool, this`index
    {
      && |pool| == |frames|
      && (r == None <==> forall j :: 0 <= j < |frames| ==> Stuck(frames[j], failing))
      && (forall j :: 0 <= j < |frames| && r != Some(j) ==> Undisturbed(pool[j], frames[j]))
      && (r == None ==> index == ix)
      && (r.Some? ==>
            && r.value < |pool| && pool[r.value].pgno == 0 && !Stuck(frames[r.value], failing)
            && index == ix - {frames[r.value].pgno})
    }

    /** A reusable frame: an empty one if there is any, else one the hand finds. */
    method Evict(failing: set<nat>) returns (r: Option<nat>)
      requires PoolValid()
      modifies this`pool, this`file, this`wet, this`index, this`hand
      ensures PoolValid() && Reclaimed(r, old(pool), old(index), failing) && wet == old(wet)
      ensures |file| == |old(file)| || (|file| > |old(file)| && |file| in store)
      ensures r.Some? ==>
        if old(pool)[r.value].pgno == 0 then
          hand == old(hand) && forall j :: 0 <= j < r.value && old(pool)[j].pins == 0 ==> old(pool)[j].pgno != 0
        else
          && (forall j :: 0 <= j < |pool| && old(pool)[j].pins == 0 ==> old(pool)[j].pgno != 0)
          && HandTook(old(pool), old(hand), failing, r.value) && hand == Onward(r.value, |pool|)
    {
      r := FindEmpty();
      if r == None {
        r := Sweep(failing);
      } else {
        assert SlotOk(Now(), r.value) && IndexOk(Now(), 0);
      }
    }

    /** Binds a reclaimed frame to a page, with the bytes it is to show. */
    method Install(slot: nat, f: Frame, ghost st: map<nat, Page>)
      requires PoolOk(Now()) && slot < |pool| && pool[slot].pgno == 0
      requires f.pgno != 0 && f.pgno !in index && f.pins == 1 && |f.data| == pageSize
      requires (f.dirty && st == store[f.pgno := f.data]) ||
               (st == store && f.pgno in store && Agree(pageSize, f.pgno, f.data, store[f.pgno]))
      modifies this`pool, this`index, this`store
      ensures PoolOk(Now()) && store == st
      ensures pool == old(pool)[slot := f] && index == old(index)[f.pgno := slot]
    {
      Bind(Now(), slot, f, st);
      pool := pool[slot := f];
      index := index[f.pgno := slot];
      store := st;
    }

    // ---- the operations ----

    /** Everything allocation is made of. */
    ghost predicate Accounts()
      reads this
    {
      && Fits(header) && header.textEncoding == 0 && header.pageSize == pageSize
      && algo == AlgoOf(header.checksum, crc)
      && Partition(free, store.Keys, leaked, dbSize)
      && dbSize < U32 && 1 <= |file| <= dbSize
    }

    ghost predicate Valid()
      reads this
    {
      PoolValid() && Accounts()
    }

    /** Pins a live page, reading it from the file if it is not resident.  The frame
        shows the last bytes written to the page. */
    method Get(pgno: nat, failing: set<nat>) returns (r: Result<nat, PagerError>)
      requires Valid() && (pgno == 0 || pgno in store)
      modifies this`pool, this`file, this`wet, this`index, this`hand, this`store
      ensures Valid() && store == old(store) && wet == old(wet) && |pool| == |old(pool)|
      ensures r == Err(NullPage) <==> pgno == 0
      ensures r == Err(PoolExhausted) <==>
        pgno != 0 && pgno !in old(index) && forall j :: 0 <= j < |pool| ==> Stuck(old(pool)[j], failing)
      ensures r.Ok? ==>
        && r.value < |pool| && pool[r.value].pgno == pgno
        && Agree(pageSize, pgno, pool[r.value].data, store[pgno])
        && pool[r.value].pins == old(pool)[r.value].pins + 1
        && pool[r.value].ref && pool[r.value].dirty == (pgno in old(index) && old(pool)[r.value].dirty)
        && (pgno in old(index) ==> r.value == old(index)[pgno] && pool[r.value].data == old(pool)[r.value].data)
        && (pgno !in old(index) ==> pool[r.value].data == PageAt(file, pageSize, pgno))
      ensures r.Ok? && pgno !in old(index) && old(pool)[r.value].pgno != 0 ==>
        HandTook(old(pool), old(hand), failing, r.value)
      ensures forall j :: 0 <= j < |pool| && r != Ok(j) ==> Undisturbed(pool[j], old(pool)[j])
    {
      if pgno == 0 {
        return Err(NullPage);
      }
      assert IndexOk(Now(), pgno);
      if pgno in index {
        var slot := index[pgno];
        Repin(slot);
        return Ok(slot);
      }
      var victim := Evict(failing);
      assert Accounted(free, store.Keys, leaked, dbSize, |file|);
      if victim == None {
        return Err(PoolExhausted);
      }
      var slot := victim.value;
      assert PageOk(Now(), pgno);
      Install(slot, Frame(pgno, PageAt(file, pageSize, pgno), 1, false, true), store);
      return Ok(slot);
    }

    /** One more pin on a resident page. */
    method Repin(slot: nat)
      requires PoolOk(Now()) && slot < |pool| && pool[slot].pgno != 0
      modifies this`pool
      ensures PoolOk(Now())
      ensures pool == old(pool)[slot := old(pool)[slot].(pins := old(pool)[slot].pins + 1, ref := true)]
      ensures pool[slot].pgno in store && Agree(pageSize, pool[slot].pgno, pool[slot].data, store[pool[slot].pgno])
    {
      assert SlotOk(Now(), slot);
      var f := pool[slot].(pins := pool[slot].pins + 1, ref := true);
      Mark(Now(), slot, f, wet);
      pool := pool[slot := f];
    }

    /** The client writes to the page through its pin: the store's new last bytes. */
    method Write(slot: nat, data: Page)
      requires Valid() && slot < |pool| && pool[slot].pins > 0 && |data| == pageSize
      modifies this`pool, this`store, this`wet
      ensures Valid() && pool == old(pool)[slot := old(pool)[slot].(data := data)]
      ensures pool[slot].pgno in old(store) && store == old(store)[pool[slot].pgno := data]
      ensures wet == old(wet) + {slot}
    {
      Poke(Now(), slot, data);
      store := store[pool[slot].pgno := data];
      wet := wet + {slot};
      pool := pool[slot := pool[slot].(data := data)];
      assert store.Keys == old(store).Keys;
    }

    /** Releases one pin.  If it is the last one and a frame that was written to is not
        marked dirty, the pager stays valid exactly when the file has those bytes. */
    method Unpin(slot: nat, dirty: bool)
      requires Valid() && slot < |pool| && pool[slot].pins > 0
      modifies this`pool, this`wet
      ensures pool == old(pool)[slot := old(pool)[slot].(pins := old(pool)[slot].pins - 1,
                                                         dirty := old(pool)[slot].dirty || dirty)]
      ensures wet == if pool[slot].dirty || pool[slot].pins == 0 then old(wet) - {slot} else old(wet)
      ensures pool[slot].pgno in store && pool[slot].pgno > 0
      ensures Valid() <==>
        (slot in old(wet) && pool[slot].pins == 0 && !pool[slot].dirty ==> OnFile(old(Now()), pool[slot].pgno))
    {
      assert SlotOk(Now(), slot);
      var f := pool[slot].(pins := pool[slot].pins - 1, dirty := pool[slot].dirty || dirty);
      ghost var wet' := if f.dirty || f.pins == 0 then wet - {slot} else wet;
      if slot in wet && f.pins == 0 && !f.dirty {
        DroppedMark(Now(), slot);
      } else {
        Mark(Now(), slot, f, wet');
      }
      pool := pool[slot := f];
      wet := wet';
    }

    /** Hands out a page that is not live, zeroed and pinned: the end of the free list,
        else a page past the high-water mark.  If no frame can be had, the page is lost:
        neither live nor free. */
    method Allocate(failing: set<nat>) returns (r: Result<(nat, nat), PagerError>)
      requires Valid() && (free == [] ==> dbSize + 1 < U32)
      modifies this
      ensures Valid() && header == old(header) && wet == old(wet) && |pool| == |old(pool)|
      ensures free == (if old(free) == [] then [] else old(free)[..|old(free)| - 1])
      ensures dbSize == (if old(free) == [] then old(dbSize) + 1 else old(dbSize))
      ensures r.Err? <==> forall j :: 0 <= j < |pool| ==> Stuck(old(pool)[j], failing)
      ensures r.Err? ==> store == old(store) && leaked == old(leaked) + {Handout(old(free), old(dbSize), 0)}
      ensures r.Ok? ==>
        var (pgno, slot) := r.value;
        && pgno == Handout(old(free), old(dbSize), 0) && pgno !in old(store) && leaked == old(leaked)
        && store == old(store)[pgno := Zeros(pageSize)]
        && slot < |pool| && pool[slot] == Frame(pgno, Zeros(pageSize), 1, true, true)
      ensures |file| == |old(file)| || |file| in old(store)
      ensures forall j :: 0 <= j < |pool| && (r.Ok? ==> j != r.value.1) ==> Undisturbed(pool[j], old(pool)[j])
    {
      ghost var live := store.Keys;
      var pgno;
      var n := |free|;
      if n > 0 {
        pgno := free[n - 1];
        free := free[..n - 1];
      } else {
        dbSize := dbSize + 1;
        pgno := dbSize;
      }
      TakePage(old(free), live, leaked, old(dbSize));
      var slot := AdmitNew(pgno, failing);
      assert Accounted(old(free), live, old(leaked), old(dbSize), |file|);
      if slot == None {
        leaked := leaked + {pgno};
        return Err(PoolExhausted);
      }
      assert store.Keys == live + {pgno};
      return Ok((pgno, slot.value));
    }

    /** A zeroed, pinned, dirty frame for a page that does not exist yet. */
    method AdmitNew(pgno: nat, failing: set<nat>) returns (r: Option<nat>)
      requires PoolValid() && pgno != 0 && pgno !in store
      modifies this`pool, this`file, this`wet, this`index, this`hand, this`store
      ensures PoolValid() && wet == old(wet) && |pool| == |old(pool)|
      ensures r == None <==> forall j :: 0 <= j < |pool| ==> Stuck(old(pool)[j], failing)
      ensures r == None ==> store == old(store)
      ensures r.Some? ==>
        && store == old(store)[pgno := Zeros(pageSize)]
        && r.value < |pool| && pool[r.value] == Frame(pgno, Zeros(pageSize), 1, true, true)
      ensures forall j :: 0 <= j < |pool| && r != Some(j) ==> Undisturbed(pool[j], old(pool)[j])
      ensures |file| == |old(file)| || (|file| > |old(file)| && |file| in old(store))
    {
      r := Evict(failing);
      if r.Some? {
        NotResident(Now(), pgno);
        var f := Frame(pgno, Zeros(pageSize), 1, true, true);
        Install(r.value, f, store[pgno := f.data]);
      }
    }

    /** Returns a live, unpinned page to the free list; its bytes are forgotten. */
    method Free(pgno: nat)
      requires Valid() && pgno in store && pgno != 1
      requires pgno in index && index[pgno] < |pool| ==> pool[index[pgno]].pins == 0
      modifies this`pool, this`index, this`free, this`store
      ensures Valid() && store == old(store) - {pgno} && free == old(free) + [pgno]
      ensures pgno !in index && |pool| == |old(pool)|
      ensures forall j :: 0 <= j < |pool| ==> pool[j].pins == old(pool)[j].pins
      ensures forall j :: 0 <= j < |pool| && old(pool)[j].pgno != pgno ==> pool[j] == old(pool)[j]
    {
      ghost var live := store.Keys;
      Discard(Now(), pgno);
      assert IndexOk(Now(), pgno);
      GivePage(free, live, leaked, dbSize, pgno);
      if pgno in index {
        var slot := index[pgno];
        index := index - {pgno};
        pool := pool[slot := pool[slot].(pgno := 0, dirty := false, ref := false)];
      }
      free := free + [pgno];
      store := store - {pgno};
      assert store.Keys == live - {pgno};
    }

    // ---- checkpoint ----

    /** The frame of page 1 keeps its pin's claim, and page 1 its bytes on file. */
    ghost predicate HeaderKept(wet': set<nat>, wet: set<nat>, file': Pages, file: Pages)
      reads this`index
    {
      && wet' <= wet && (1 in index && index[1] in wet ==> index[1] in wet')
      && |file| <= |file'| && PageAt(file', pageSize, 1) == PageAt(file, pageSize, 1)
    }

    method FlushFrame(k: nat, failing: set<nat>, ghost done: set<nat>) returns (ok: bool)
      requires PoolOk(Now()) && k < |pool| && AllVerify(file, pageSize, algo, done)
      modifies this`pool, this`file, this`wet
      ensures PoolOk(Now()) && |pool| == |old(pool)| && HeaderKept(wet, old(wet), file, old(file))
      ensures forall j :: 0 <= j < |pool| && j != k ==> pool[j] == old(pool)[j]
      ensures ok ==> pool[k].pgno == 1 || !pool[k].dirty
      ensures ok <==> !(Flushed(old(pool)[k]) && old(pool)[k].pgno in failing)
      ensures |file| == if ok && Flushed(old(pool)[k]) then Max(|old(file)|, old(pool)[k].pgno) else |old(file)|
      ensures Flushed(old(pool)[k]) ==> old(pool)[k].pgno in store
      ensures ok ==> AllVerify(file, pageSize, algo, if Flushed(old(pool)[k]) then done + {old(pool)[k].pgno} else done)
    {
      assert SlotOk(Now(), k) && IndexOk(Now(), 1);
      ok := true;
      if Flushed(pool[k]) {
        SealVerifies(pool[k].data, algo);
        VerifiedWrite(file, pageSize, algo, done, pool[k].pgno, Seal(pool[k].data, algo));
        ok := WriteBack(k, failing);
      }
    }

    /** Writes every dirty frame except page 1's. */
    method FlushDirty(failing: set<nat>) returns (ok: bool)
      requires PoolOk(Now())
      modifies this`pool, this`file, this`wet
      ensures PoolOk(Now()) && |pool| == |old(pool)|
      ensures ok ==> forall j :: 0 <= j < |pool| && pool[j].pgno != 1 ==> !pool[j].dirty
      ensures !ok ==> exists j :: 0 <= j < |pool| && old(pool)[j].dirty && old(pool)[j].pgno in failing
      ensures ok ==> EndsAt(|old(file)|, |file|, DirtyPages(old(pool), |old(pool)|))
      ensures ok ==> AllVerify(file, pageSize, algo, DirtyPages(old(pool), |old(pool)|))
      ensures HeaderKept(wet, old(wet), file, old(file))
      ensures |file| == |old(file)| || (|file| > |old(file)| && |file| in store)
    {
      var k := 0;
      while k < |pool|
        invariant 0 <= k <= |pool| == |old(pool)| && PoolOk(Now()) && HeaderKept(wet, old(wet), file, old(file))
        invariant forall j :: 0 <= j < k && pool[j].pgno != 1 ==> !pool[j].dirty
        invariant forall j :: k <= j < |pool| ==> pool[j] == old(pool)[j]
        invariant EndsAt(|old(file)|, |file|, DirtyPages(old(pool), k))
        invariant AllVerify(file, pageSize, algo, DirtyPages(old(pool), k))
        invariant |file| == |old(file)| || (|file| > |old(file)| && |file| in store)
      {
        ghost var size := |file|;
        var written := FlushFrame(k, failing, DirtyPages(old(pool), k));
        if !written {
          return false;
        }
        if Flushed(old(pool)[k]) {
          EndsNext(|old(file)|, size, |file|, DirtyPages(old(pool), k), old(pool)[k].pgno);
        }
        k := k + 1;
      }
      return true;
    }

    /** Writes the freelist out as a trunk chain and records its head and length. */
    method WriteFreelist(failing: set<nat>, ghost done: set<nat>) returns (ok: bool, ghost visits: seq<nat>)
      requires Valid() && AllVerify(file, pageSize, algo, done)
      modifies this`file, this`header
      ensures Valid() && |old(file)| <= |file| && PageAt(file, pageSize, 1) == PageAt(old(file), pageSize, 1)
      ensures ok ==> EndsAt(|old(file)|, |file|, ListTrunks(free, pageSize, header.reserved))
      ensures ok ==> AllVerify(file, pageSize, algo, done + SetOf(visits))
      ensures ok ==> 1 !in visits && ChainHolds(file, pageSize, header.freelistTrunk, visits, free)
      ensures ok ==> header == Listed(old(header), header.freelistTrunk, |free|)
      ensures !ok ==> header == old(header) && exists f :: f in free && f in failing
    {
      var r, file';
      r, file', visits :=
        PersistBeside(Now(), pageSize, header.reserved, algo, file, free, failing, leaked, dbSize, done);
      file := file';
      if r.Ok? {
        FreeNumbers(free, store.Keys, leaked, dbSize);
        FitsList(header, r.value, |free|);
        header := Listed(header, r.value, |free|);
      }
      ok := r.Ok?;
    }

    /** Every resident page is clean, and every page without an unsettled pin is on file. */
    ghost predicate Settled()
      reads this
    {
      && (forall j :: 0 <= j < |pool| ==> !pool[j].dirty)
      && (forall p :: p in store && p != 0 ==> OnFile(Now(), p) || (p in index && index[p] in wet))
    }

    /** The first two steps: dirty frames, then the freelist. */
    method FlushAll(failing: set<nat>) returns (r: CheckpointResult, ghost visits: seq<nat>)
      requires Valid()
      modifies this`pool, this`file, this`wet, this`header
      ensures Valid() && HeaderKept(wet, old(wet), file, old(file)) && r != HeaderFailed
      ensures r != Done ==> failing != {}
      ensures r == Done ==>
        && EndsAt(|old(file)|, |file|, DirtyPages(old(pool), |old(pool)|) + ListTrunks(free, pageSize, header.reserved))
        && AllVerify(file, pageSize, algo, DirtyPages(old(pool), |old(pool)|) + SetOf(visits))
        && (forall j :: 0 <= j < |pool| && pool[j].pgno != 1 ==> !pool[j].dirty)
        && 1 !in visits && ChainHolds(file, pageSize, header.freelistTrunk, visits, free)
        && header == Listed(old(header), header.freelistTrunk, |free|)
    {
      visits := [];
      var ok := FlushDirty(failing);
      assert Accounted(free, store.Keys, leaked, dbSize, |file|);
      if !ok {
        return FlushFailed, visits;
      }
      ok, visits := WriteFreelist(failing, DirtyPages(old(pool), |old(pool)|));
      return if ok then Done else FreelistFailed, visits;
    }

    /** Writes all dirty frames, the freelist and the header.  When it succeeds the pool is
        settled, the file holds the header on page 1 and the freelist under its trunk, and
        it ends at the farthest page written.  It keeps the pager valid, except that a
        failed write of page 1 loses what was only in its frame. */
    method Checkpoint(failing: set<nat>) returns (r: CheckpointResult, ghost visits: seq<nat>)
      requires Valid()
      modifies this`pool, this`file, this`wet, this`header
      ensures r != HeaderFailed ==> Valid()
      ensures wet <= old(wet) && 1 in old(store)
      ensures r != Done ==> failing != {}
      ensures r == Done ==>
        Settled() && ChainHolds(file, pageSize, header.freelistTrunk, visits, free) && HeaderOnFile()
      ensures r == Done ==>
        EndsAt(|old(file)|, |file|, DirtyPages(old(pool), |old(pool)|) + ListTrunks(free, pageSize, header.reserved))
      ensures r == Done ==> Advanced(old(header), header, dbSize, |free|)
      ensures r == Done ==>
        AllIntact(file, pageSize, header.checksum, crc, DirtyPages(old(pool), |old(pool)|) + SetOf(visits))
      ensures r == HeaderFailed ==>
        1 in failing && (Valid() <==> (1 in index ==> OnFile(old(Now()), 1) || index[1] in old(wet)))
    {
      r, visits := FlushAll(failing);
      if r != Done {
        return;
      }
      NeverFirst(old(pool), |old(pool)|);
      var ok := Conclude(failing, visits, DirtyPages(old(pool), |old(pool)|) + SetOf(visits), old(header));
      r := if ok then Done else HeaderFailed;
    }

    /** The header is brought up to date and written. */
    method Conclude(failing: set<nat>, ghost visits: seq<nat>, ghost done: set<nat>, ghost was: Header)
      returns (ok: bool)
      requires Valid() && (forall j :: 0 <= j < |pool| && pool[j].pgno != 1 ==> !pool[j].dirty)
      requires 1 !in visits && ChainHolds(file, pageSize, header.freelistTrunk, visits, free)
      requires 1 !in done && AllVerify(file, pageSize, algo, done)
      requires Fits(was) && header == Listed(was, header.freelistTrunk, |free|)
      modifies this`pool, this`file, this`wet, this`header
      ensures ok == (1 !in failing) && wet <= old(wet) && Advanced(was, header, dbSize, |free|)
      ensures header.reserved == old(header.reserved) && header.freelistTrunk == old(header.freelistTrunk)
      ensures ok ==> Valid() && Settled() && HeaderOnFile() && |file| == |old(file)|
      ensures ok ==> ChainHolds(file, pageSize, old(header).freelistTrunk, visits, free)
      ensures ok ==> AllIntact(file, pageSize, header.checksum, crc, done)
      ensures 1 in store && (!ok ==> (Valid() <==> (1 in index ==> OnFile(old(Now()), 1) || index[1] in old(wet))))
    {
      FitsCount(header, dbSize);
      CountedAdvances(was, header.freelistTrunk, |free|, dbSize);
      header := Counted(header, dbSize);
      ghost var before := file;
      var page1;
      ok, page1 := WriteHeaderPage(failing);
      if ok {
        ChainKept(before, pageSize, page1, header.freelistTrunk, visits, free);
        VerifiedWrite(before, pageSize, algo, done, 1, page1);
        VerifiedIntact(file, pageSize, header.checksum, crc, done);
      }
    }

    /** The last step: page 1 with the new header, in its frame and on file. */
    method WriteHeaderPage(failing: set<nat>) returns (ok: bool, page1: Page)
      requires Valid() && (forall j :: 0 <= j < |pool| && pool[j].pgno != 1 ==> !pool[j].dirty)
      modifies this`pool, this`file, this`wet
      ensures ok == (1 !in failing) && wet <= old(wet)
      ensures ok ==> Valid() && Settled() && HeaderOnFile() && |file| == |old(file)|
      ensures ok ==> file == WritePage(old(file), pageSize, 1, page1)
      ensures 1 in store && (!ok ==> (Valid() <==> (1 in index ==> OnFile(old(Now()), 1) || index[1] in old(wet))))
    {
      HeaderLast(Now(), HeaderBytes(header, crc));
      HeaderLost(Now(), HeaderBytes(header, crc));
      assert IndexOk(Now(), 1);
      ghost var m := Now();
      page1 := if 1 in index then pool[index[1]].data else PageAt(file, pageSize, 1);
      page1 := HeaderBytes(header, crc) + page1[HEADER_SIZE..];
      if 1 in index {
        pool := pool[index[1] := pool[index[1]].(data := page1, dirty := false)];
      }
      assert Now() == Rehead(m, page1);
      if 1 in failing {
        return false, page1;
      }
      file := WritePage(file, pageSize, 1, page1);
      wet := if 1 in index then wet - {index[1]} else wet;
      assert Now() == Saved(m, page1);
      Quiet(Now());
      return true, page1;
    }
  }

  /** The header once the freelist is written. */
  function Listed(h: Header, trunk: nat, count: nat): Header {
    h.(freelistTrunk := trunk, freelistCount := count)
  }

  /** The header a checkpoint writes: a new page count, under a counter that wraps at 32
      bits. */
  function Counted(h: Header, pages: nat): Header {
    var n := (h.changeCounter + 1) % U32;
    h.(pageCount := pages, changeCounter := n, versionValidFor := n)
  }

  /** What a checkpoint makes of the header: it counts the pages and the free ones, the
      counter moves on by one and wraps at 32 bits, the page count is valid for it, and apart
      from the trunk nothing else changes. */
  ghost predicate Advanced(h: Header, h': Header, pages: nat, free: nat) {
    && h'.pageCount == pages && h'.freelistCount == free
    && h'.changeCounter == (if h.changeCounter + 1 == U32 then 0 else h.changeCounter + 1)
    && h'.versionValidFor == h'.changeCounter
    && h'.(pageCount := h.pageCount, freelistCount := h.freelistCount, changeCounter := h.changeCounter,
           versionValidFor := h.versionValidFor, freelistTrunk := h.freelistTrunk) == h
  }

  lemma CountedAdvances(h: Header, trunk: nat, free: nat, pages: nat)
    requires Fits(h)
    ensures Advanced(h, Counted(Listed(h, trunk, free), pages), pages, free)
  {
    assert h.Words()[0] < U32;
  }

  lemma FitsList(h: Header, trunk: nat, count: nat)
    requires Fits(h) && trunk < U32 && count < U32
    ensures Fits(Listed(h, trunk, count))
  {
    assert Listed(h, trunk, count).Words() == h.Words()[2 := trunk][3 := count];
  }

  lemma FitsCount(h: Header, pages: nat)
    requires Fits(h) && pages < U32
    ensures Fits(Counted(h, pages)) && Counted(h, pages).freelistTrunk == h.freelistTrunk
  {
    assert Counted(h, pages).Words() == h.Words()[0 := (h.changeCounter + 1) % U32][1 := pages];
  }

  /** Every page of the store is on file. */
  ghost predicate Backed(disk: Pages, ps: nat, st: map<nat, Page>) {
    forall p :: p in st ==> 1 <= p <= |disk| && Agree(ps, p, PageAt(disk, ps, p), st[p])
  }

  /** The header page 1 of a file holds. */
  function FileHeader(disk: Pages, crc: seq<Byte> -> nat): Result<Header, HeaderError> {
    if disk == [] then Err(TooShort) else DecodeHeader(disk[0], crc)
  }

  /** Opens an existing file of whole pages.  The page size and the trunk come from the
      header on page 1, the page count from the size of the file, the free list from the
      chain.  It fails exactly when there is no header, the header does not decode, or a
      trunk is past the end of the file. */
  method Open(disk: Pages, crc: seq<Byte> -> nat, cacheFrames: int,
              ghost visits: seq<nat>, ghost st: map<nat, Page>, ghost lost: set<nat>)
    returns (r: Result<Pager, OpenError>)
    requires FileHeader(disk, crc).Ok? ==>
      var h := FileHeader(disk, crc).value;
      && AllSized(disk, h.pageSize) && |disk| < U32 && Backed(disk, h.pageSize, st)
      && (IsChain(disk, h.pageSize, h.freelistTrunk, visits) || Dangles(disk, h.pageSize, h.freelistTrunk, visits))
    ensures r == Err(NoHeader) <==> FileHeader(disk, crc) == Err(TooShort)
    ensures (r.Err? && r.error.BadHeader?) <==> FileHeader(disk, crc).Err? && !FileHeader(disk, crc).error.TooShort?
    ensures r.Err? && r.error.BadHeader? ==> FileHeader(disk, crc) == Err(r.error.error)
    ensures r.Ok? <==> (FileHeader(disk, crc).Ok? && var h := FileHeader(disk, crc).value;
                        IsChain(disk, h.pageSize, h.freelistTrunk, visits))
    ensures r.Ok? ==>
      var q := r.value;
      && fresh(q) && FileHeader(disk, crc) == Ok(q.header) && q.file == disk && q.dbSize == |disk| && q.store == st
      && q.free == ChainPages(disk, q.header.pageSize, q.header.freelistTrunk, visits)
      && (q.Valid() <==> Partition(q.free, st.Keys, lost, |disk|))
  {
    if disk == [] || |disk[0]| < HEADER_SIZE {
      return Err(NoHeader);
    }
    var d := DecodeHeader(disk[0], crc);
    if d.Err? {
      return Err(BadHeader(d.error));
    }
    DecodedFits(disk[0], crc);
    var list := LoadFreelist(disk, d.value.pageSize, d.value.freelistTrunk, visits);
    if list.Err? {
      return Err(LostTrunk);
    }
    var q := new Pager.Over(crc, d.value, disk, list.value, cacheFrames, st, lost);
    return Ok(q);
  }

  /** Close and reopen after a checkpoint that left nothing unsettled.  The header is the
      one page 1 of the file decodes to; every live page comes back with its last bytes and
      the same pages are free; the reopened pager is valid, and allocates safely, exactly
      when the file holds every free page. */
  method Reopen(p: Pager, cacheFrames: int, ghost visits: seq<nat>) returns (q: Pager)
    requires p.Valid() && p.Settled() && p.HeaderOnFile() && p.wet == {}
    requires ChainHolds(p.file, p.pageSize, p.header.freelistTrunk, visits, p.free)
    ensures fresh(q) && q.header == p.header && q.file == p.file && q.store == p.store && q.dbSize == |p.file|
    ensures multiset(q.free) == multiset(p.free)
    ensures q.Valid() <==> forall f :: f in p.free ==> f <= |p.file|
    ensures HandoutSafe(q.free, q.store.Keys, q.dbSize) <==> forall f :: f in p.free ==> f <= |p.file|
  {
    forall x | x in p.store
      ensures 1 <= x <= |p.file| && Agree(p.pageSize, x, PageAt(p.file, p.pageSize, x), p.store[x])
    {
      assert PageOk(p.Now(), x);
    }
    HeaderReadBack(p.file, p.header, p.crc);
    ghost var lost := set x | x in p.leaked && x <= |p.file|;
    var r := Open(p.file, p.crc, cacheFrames, visits, p.store, lost);
    q := r.value;
    ReopenSafe(p.free, q.free, p.store.Keys, p.leaked, p.dbSize, |p.file|);
  }

  lemma HeaderReadBack(disk: Pages, h: Header, crc: seq<Byte> -> nat)
    requires Fits(h) && h.textEncoding == 0
    requires |disk| >= 1 && |disk[0]| >= HEADER_SIZE && disk[0][..HEADER_SIZE] == HeaderBytes(h, crc)
    ensures FileHeader(disk, crc) == Ok(h)
  {
    assert disk[0] == HeaderBytes(h, crc) + disk[0][HEADER_SIZE..];
    DbHeaderRoundTrip(h, crc, disk[0][HEADER_SIZE..]);
  }

  /** With no frame dirty, a page is on file or waits for a pin to mark it. */
  lemma Quiet(m: Pool)
    requires PoolOk(m) && forall j :: 0 <= j < |m.frames| ==> !m.frames[j].dirty
    ensures forall p :: p in m.store && p != 0 ==> OnFile(m, p) || (p in m.index && m.index[p] in m.wet)
  {
    forall p | p in m.store && p != 0 ensures OnFile(m, p) || (p in m.index && m.index[p] in m.wet) {
      assert PageOk(m, p);
    }
  }

  /** Persisting the free list of a pool disturbs no live page, and a complete pass leaves
      a chain that holds the list. */
  method PersistBeside(ghost m: Pool, ps: nat, reserved: Byte, algo: ChecksumAlgo, file: Pages, free: seq<nat>,
                       failing: set<nat>, ghost leaked: set<nat>, ghost dbSize: nat, ghost done: set<nat>)
    returns (r: Result<nat, ()>, file': Pages, ghost visits: seq<nat>)
    requires PoolOk(m) && m.file == file && m.ps == ps && ValidPageSize(ps) && |file| <= dbSize < U32
    requires Partition(free, m.store.Keys, leaked, dbSize) && AllVerify(file, ps, algo, done)
    ensures PoolOk(m.(file := file')) && |file| <= |file'| <= dbSize && PageAt(file', ps, 1) == PageAt(file, ps, 1)
    ensures r.Ok? ==> EndsAt(|file|, |file'|, ListTrunks(free, ps, reserved)) && r.value < U32
    ensures r.Ok? ==> AllVerify(file', ps, algo, done + SetOf(visits))
    ensures r.Ok? ==> 1 !in visits && ChainHolds(file', ps, r.value, visits, free)
    ensures r.Err? ==> exists f :: f in free && f in failing
  {
    var cap := TrunkCapacity(ps, reserved);
    LegalGeometry(ps, reserved);
    FreeNumbers(free, m.store.Keys, leaked, dbSize);
    var nTrunks, written;
    r, file', nTrunks, written := PersistFreelist(file, ps, cap, algo, free, failing);
    TrunksHarmless(m, cap, algo, free, nTrunks, written, dbSize);
    visits := Visits(TrunksOf(free, nTrunks), nTrunks);
    if r.Ok? {
      TrunkCountIs(|free|, cap, nTrunks);
      ListWritten(file, ps, cap, algo, free, nTrunks);
      ListVerifies(file, ps, cap, algo, free, nTrunks, done);
    } else {
      assert TrunksOf(free, nTrunks)[written] in free;
    }
  }

  /** A complete pass leaves every trunk with its checksum. */
  lemma ListVerifies(file: Pages, ps: nat, cap: nat, algo: ChecksumAlgo, free: seq<nat>, nTrunks: nat, done: set<nat>)
    requires Geometry(ps, cap) && nTrunks <= |free| && Positive(TrunksOf(free, nTrunks))
    requires AllVerify(file, ps, algo, done)
    ensures var trunks := TrunksOf(free, nTrunks);
            AllVerify(WriteTrunks(file, ps, cap, algo, trunks, LeavesOf(free, nTrunks), nTrunks), ps, algo,
                      done + SetOf(Visits(trunks, nTrunks)))
  {
    var trunks := TrunksOf(free, nTrunks);
    TrunksVerify(file, ps, cap, algo, trunks, LeavesOf(free, nTrunks), nTrunks, done);
    forall x ensures x in SetOf(Visits(trunks, nTrunks)) <==> x in SetOf(trunks[..nTrunks]) {
      Visited(trunks, nTrunks, x);
    }
  }

  /** A complete pass: the chain holds the list, and the file ends at the farthest trunk. */
  lemma ListWritten(file: Pages, ps: nat, cap: nat, algo: ChecksumAlgo, free: seq<nat>, nTrunks: nat)
    requires Geometry(ps, cap) && PageNumbers(free) && NoDup(free) && Enough(|free|, cap, nTrunks)
    requires Positive(TrunksOf(free, nTrunks))
    ensures var trunks := TrunksOf(free, nTrunks);
            var file' := WriteTrunks(file, ps, cap, algo, trunks, LeavesOf(free, nTrunks), nTrunks);
            && EndsAt(|file|, |file'|, SetOf(trunks)) && Link(trunks, nTrunks) < U32
            && ChainHolds(file', ps, Link(trunks, nTrunks), Visits(trunks, nTrunks), free)
  {
    var trunks := TrunksOf(free, nTrunks);
    WriteTrunksEnd(file, ps, cap, algo, trunks, LeavesOf(free, nTrunks), nTrunks);
    assert trunks[..nTrunks] == trunks;
    FreelistRoundTrip(file, ps, cap, algo, free, nTrunks);
  }

  /** The pages a checkpoint turns into trunks. */
  ghost function ListTrunks(free: seq<nat>, ps: nat, reserved: Byte): set<nat> {
    var n := TrunkCount(|free|, TrunkCapacity(ps, reserved));
    if n <= |free| then SetOf(TrunksOf(free, n)) else {}
  }

  /** Whether a checkpoint writes the frame back. */
  predicate Flushed(f: Frame) {
    f.pgno != 0 && f.dirty && f.pgno != 1
  }

  /** The pages of the first n frames that a checkpoint writes back. */
  ghost function DirtyPages(frames: seq<Frame>, n: nat): set<nat>
    requires n <= |frames|
    decreases n
  {
    if n == 0 then {}
    else if Flushed(frames[n - 1]) then DirtyPages(frames, n - 1) + {frames[n - 1].pgno}
    else DirtyPages(frames, n - 1)
  }

  /** Every page of the set is on file and ends in its checksum. */
  ghost predicate AllIntact(file: Pages, ps: nat, kind: Byte, crc: seq<Byte> -> nat, s: set<nat>) {
    forall p :: p in s ==> 0 < p <= |file| && Intact(PageAt(file, ps, p), kind, crc)
  }

  lemma VerifiedIntact(file: Pages, ps: nat, kind: Byte, crc: seq<Byte> -> nat, s: set<nat>)
    requires AllVerify(file, ps, AlgoOf(kind, crc), s)
    ensures AllIntact(file, ps, kind, crc, s)
  {
    forall p | p in s ensures 0 < p <= |file| && Intact(PageAt(file, ps, p), kind, crc) {
      assert Verifies(file, ps, AlgoOf(kind, crc), p);
      IntactVerifies(PageAt(file, ps, p), kind, crc);
    }
  }

  lemma {:induction false} NeverFirst(frames: seq<Frame>, n: nat)
    requires n <= |frames|
    ensures 1 !in DirtyPages(frames, n)
    decreases n
  {
    if n > 0 {
      NeverFirst(frames, n - 1);
    }
  }

  lemma {:induction false} DirtyPagesAre(frames: seq<Frame>, n: nat, p: nat)
    requires n <= |frames| && p in DirtyPages(frames, n)
    ensures exists j :: 0 <= j < n && frames[j].dirty && frames[j].pgno == p && p > 1
    decreases n
  {
    if p in DirtyPages(frames, n - 1) {
      DirtyPagesAre(frames, n - 1, p);
    }
  }

  lemma FreeNumbers(free: seq<nat>, live: set<nat>, leaked: set<nat>, dbSize: nat)
    requires Partition(free, live, leaked, dbSize) && dbSize < U32
    ensures PageNumbers(free) && Positive(free) && NoDup(free) && 1 !in free && |free| <= dbSize
    ensures forall i :: 0 <= i < |free| ==> free[i] <= dbSize && free[i] !in live
  {
    forall i | 0 <= i < |free| ensures 0 < free[i] <= dbSize && free[i] !in live {
      assert Accounted(free, live, leaked, dbSize, free[i]);
    }
    AtMost(free, dbSize);
  }

  /** Trunks are free pages, so writing them disturbs no live page. */
  lemma TrunksHarmless(m: Pool, cap: nat, algo: ChecksumAlgo, free: seq<nat>, nTrunks: nat, written: nat, dbSize: nat)
    requires PoolOk(m) && Geometry(m.ps, cap) && |m.file| <= dbSize && 1 !in free
    requires forall i :: 0 <= i < |free| ==> free[i] <= dbSize && free[i] !in m.store
    requires written <= nTrunks <= |free| && Positive(TrunksOf(free, nTrunks))
    ensures var trunks := TrunksOf(free, nTrunks);
            var file' := WriteTrunks(m.file, m.ps, cap, algo, trunks, LeavesOf(free, nTrunks), written);
            && PoolOk(m.(file := file')) && |m.file| <= |file'| <= dbSize && 1 !in Visits(trunks, nTrunks)
            && PageAt(file', m.ps, 1) == PageAt(m.file, m.ps, 1)
  {
    var trunks := TrunksOf(free, nTrunks);
    assert forall i :: 0 <= i < |trunks| ==> trunks[i] == free[|free| - nTrunks + i];
    var file' := WriteTrunks(m.file, m.ps, cap, algo, trunks, LeavesOf(free, nTrunks), written);
    WriteTrunksSize(m.file, m.ps, cap, algo, trunks, LeavesOf(free, nTrunks), written, dbSize);
    forall p | p > 0 && p in m.store ensures PageAt(file', m.ps, p) == PageAt(m.file, m.ps, p) {
      WriteTrunksElsewhere(m.file, m.ps, cap, algo, trunks, LeavesOf(free, nTrunks), written, p);
    }
    WriteElsewhere(m, file');
    Visited(trunks, nTrunks, 1);
  }

  /** Taking the next page keeps the partition, whether it becomes live or is lost. */
  lemma TakePage(free: seq<nat>, live: set<nat>, leaked: set<nat>, dbSize: nat)
    requires Partition(free, live, leaked, dbSize)
    ensures var p := Handout(free, dbSize, 0);
            var free' := if free == [] then [] else free[..|free| - 1];
            var dbSize' := if free == [] then dbSize + 1 else dbSize;
            && p != 0 && p !in live && p !in leaked
            && Partition(free', live + {p}, leaked, dbSize') && Partition(free', live, leaked + {p}, dbSize')
  {
    var p := Handout(free, dbSize, 0);
    var free' := if free == [] then [] else free[..|free| - 1];
    var dbSize' := if free == [] then dbSize + 1 else dbSize;
    assert Accounted(free, live, leaked, dbSize, p);
    if free != [] {
      assert free == free' + [p];
      assert p !in free';
    }
    forall q: nat
      ensures Accounted(free', live + {p}, leaked, dbSize', q) && Accounted(free', live, leaked + {p}, dbSize', q)
    {
      assert Accounted(free, live, leaked, dbSize, q);
      assert q in free <==> q in free' || (free != [] && q == p);
    }
  }

  lemma GivePage(free: seq<nat>, live: set<nat>, leaked: set<nat>, dbSize: nat, p: nat)
    requires Partition(free, live, leaked, dbSize) && p in live && p != 1
    ensures Partition(free + [p], live - {p}, leaked, dbSize)
  {
    assert Accounted(free, live, leaked, dbSize, p);
    forall q: nat ensures Accounted(free + [p], live - {p}, leaked, dbSize, q) {
      assert Accounted(free, live, leaked, dbSize, q);
    }
  }
}
