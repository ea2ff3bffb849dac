/**
  The buffer pool as a value (pager/pager.go, pager/ops.go): the frames, the index,
  the file underneath, and the plain page store they stand for.  Every edit the pager
  makes to the pool is shown here to keep the pool standing for the same store.
 */
module BufferPool {
  import opened Prelude
  import opened PageFormat
  import opened DbHeader
  import opened Freelist

  datatype Frame = Frame(pgno: nat, data: Page, pins: nat, dirty: bool, ref: bool)

  datatype Pool = Pool(
    ps: nat,                    // page size
    frames: seq<Frame>,
    index: map<nat, nat>,       // page number -> slot of the frame that holds it
    file: Pages,
    store: map<nat, Page>,      // the plain store: last bytes written to each live page
    wet: set<nat>)              // slots written through a pin and not yet marked dirty

  /** Equality up to what the pager itself maintains: the tail checksum, and on page 1
      the header. */
  predicate Agree(ps: nat, p: nat, a: Page, b: Page) {
    && |a| == |b| == ps && ps >= HEADER_SIZE + PAGE_CHECKSUM_SIZE
    && if p == 1 then a[HEADER_SIZE..] == b[HEADER_SIZE..] else a[..ps - 4] == b[..ps - 4]
  }

  predicate OnlyInMemory(m: Pool, p: nat) {
    && p in m.index && m.index[p] < |m.frames|
    && (m.frames[m.index[p]].dirty || m.index[p] in m.wet)
  }

  predicate OnFile(m: Pool, p: nat)
    requires p in m.store && p > 0
  {
    p <= |m.file| && Agree(m.ps, p, PageAt(m.file, m.ps, p), m.store[p])
  }

  ghost predicate SlotOk(m: Pool, i: nat) {
    i < |m.frames| ==>
      var f := m.frames[i];
      && |f.data| == m.ps
      && (f.pgno == 0 ==> f.pins == 0 && !f.dirty)
      && (i in m.wet ==> f.pins > 0)
      && (f.pgno != 0 ==>
            && f.pgno in m.index && m.index[f.pgno] == i
            && f.pgno in m.store && Agree(m.ps, f.pgno, f.data, m.store[f.pgno]))
  }

  ghost predicate IndexOk(m: Pool, p: nat) {
    p in m.index ==> p != 0 && m.index[p] < |m.frames| && m.frames[m.index[p]].pgno == p
  }

  ghost predicate PageOk(m: Pool, p: nat) {
    p in m.store ==> p != 0 && |m.store[p]| == m.ps && (OnlyInMemory(m, p) || OnFile(m, p))
  }

  /** Frames and index agree one to one, every frame shows its page's last bytes, and
      every page is safe in memory or on file. */
  ghost predicate PoolOk(m: Pool) {
    && m.ps >= HEADER_SIZE + PAGE_CHECKSUM_SIZE && AllSized(m.file, m.ps) && |m.frames| > 0
    && (forall i :: SlotOk(m, i)) && (forall p :: IndexOk(m, p)) && (forall p :: PageOk(m, p))
  }

  // ---- edits to one frame ----

  function SetFrame(m: Pool, i: nat, f: Frame): Pool
    requires i < |m.frames|
  {
    m.(frames := m.frames[i := f])
  }

  /** A change of bookkeeping only: pins, reference bit, or a dirty mark. */
  lemma Mark(m: Pool, i: nat, f: Frame, wet: set<nat>)
    requires PoolOk(m) && i < |m.frames|
    requires f.pgno == m.frames[i].pgno && f.data == m.frames[i].data
    requires f.pgno == 0 ==> f.pins == 0 && !f.dirty
    requires wet == m.wet || (wet == m.wet - {i} && (f.dirty || i !in m.wet))
    requires i in wet ==> f.pins > 0
    requires m.frames[i].dirty ==> f.dirty
    ensures PoolOk(SetFrame(m, i, f).(wet := wet))
  {
    var m' := SetFrame(m, i, f).(wet := wet);
    forall j: nat ensures SlotOk(m', j) {
      assert SlotOk(m, j);
    }
    forall p: nat ensures IndexOk(m', p) {
      assert IndexOk(m, p);
    }
    forall p: nat ensures PageOk(m', p) {
      assert PageOk(m, p) && IndexOk(m, p);
    }
  }

  /** The client writes through its pin. */
  lemma Poke(m: Pool, i: nat, data: Page)
    requires PoolOk(m) && i < |m.frames| && m.frames[i].pins > 0 && |data| == m.ps
    ensures var p := m.frames[i].pgno;
            && p in m.store
            && PoolOk(SetFrame(m, i, m.frames[i].(data := data)).(store := m.store[p := data], wet := m.wet + {i}))
  {
    assert SlotOk(m, i);
    var p := m.frames[i].pgno;
    var m' := SetFrame(m, i, m.frames[i].(data := data)).(store := m.store[p := data], wet := m.wet + {i});
    forall j: nat ensures SlotOk(m', j) {
      assert SlotOk(m, j);
    }
    forall q: nat ensures IndexOk(m', q) {
      assert IndexOk(m, q);
    }
    forall q: nat ensures PageOk(m', q) {
      assert PageOk(m, q) && IndexOk(m, q);
    }
  }

  /** What write-back puts on file: page 1 as it is, other pages with their checksum. */
  function Outgoing(f: Frame, algo: ChecksumAlgo): Page
    requires |f.data| >= PAGE_CHECKSUM_SIZE
  {
    if f.pgno != 1 then Seal(f.data, algo) else f.data
  }

  /** The frame as write-back leaves it when the write fails: its checksum is stamped. */
  function Stamped(m: Pool, i: nat, algo: ChecksumAlgo): Pool
    requires i < |m.frames| && |m.frames[i].data| >= PAGE_CHECKSUM_SIZE
  {
    SetFrame(m, i, m.frames[i].(data := Outgoing(m.frames[i], algo)))
  }

  lemma StampOk(m: Pool, i: nat, algo: ChecksumAlgo)
    requires PoolOk(m) && i < |m.frames|
    ensures |m.frames[i].data| == m.ps && PoolOk(Stamped(m, i, algo))
  {
    assert SlotOk(m, i);
    var m' := Stamped(m, i, algo);
    forall j: nat ensures SlotOk(m', j) {
      assert SlotOk(m, j);
    }
    forall p: nat ensures IndexOk(m', p) {
      assert IndexOk(m, p);
    }
    forall p: nat ensures PageOk(m', p) {
      assert PageOk(m, p) && IndexOk(m, p);
    }
  }

  function Written(m: Pool, i: nat, algo: ChecksumAlgo): Pool
    requires i < |m.frames| && m.frames[i].pgno != 0 && |m.frames[i].data| >= PAGE_CHECKSUM_SIZE
  {
    var f := m.frames[i];
    var page := Outgoing(f, algo);
    SetFrame(m, i, f.(data := page, dirty := false))
    .(file := WritePage(m.file, m.ps, f.pgno, page), wet := m.wet - {i})
  }

  lemma WriteBackOk(m: Pool, i: nat, algo: ChecksumAlgo)
    requires PoolOk(m) && i < |m.frames| && m.frames[i].pgno != 0
    ensures |m.frames[i].data| == m.ps
    ensures PoolOk(Written(m, i, algo))
  {
    assert SlotOk(m, i);
    var f := m.frames[i];
    var m' := Written(m, i, algo);
    assert Agree(m.ps, f.pgno, Outgoing(f, algo), m.store[f.pgno]);
    WriteSeen(m.file, m.ps, f.pgno, Outgoing(f, algo));
    forall j: nat ensures SlotOk(m', j) {
      assert SlotOk(m, j);
    }
    forall p: nat ensures IndexOk(m', p) {
      assert IndexOk(m, p);
    }
    forall p: nat ensures PageOk(m', p) {
      assert PageOk(m, p) && IndexOk(m, p);
      if p in m.store && p != f.pgno && p != 0 {
        assert PageAt(m'.file, m.ps, p) == PageAt(m.file, m.ps, p);
      }
    }
  }

  /** A clean unpinned frame gives its page up. */
  lemma Unbind(m: Pool, i: nat)
    requires PoolOk(m) && i < |m.frames|
    requires m.frames[i].pgno != 0 && m.frames[i].pins == 0 && !m.frames[i].dirty
    ensures PoolOk(SetFrame(m, i, m.frames[i].(pgno := 0)).(index := m.index - {m.frames[i].pgno}))
  {
    var m' := SetFrame(m, i, m.frames[i].(pgno := 0)).(index := m.index - {m.frames[i].pgno});
    assert SlotOk(m, i);
    forall j: nat ensures SlotOk(m', j) {
      assert SlotOk(m, j);
    }
    forall p: nat ensures IndexOk(m', p) {
      assert IndexOk(m, p);
    }
    forall p: nat ensures PageOk(m', p) {
      assert PageOk(m, p) && IndexOk(m, p);
    }
  }

  /** A free frame takes a page that is not resident: bytes read from the file, or the
      zeros of a page that did not exist before. */
  lemma Bind(m: Pool, i: nat, f: Frame, store: map<nat, Page>)
    requires PoolOk(m) && i < |m.frames| && m.frames[i].pgno == 0
    requires f.pgno != 0 && f.pgno !in m.index && f.pins > 0 && |f.data| == m.ps
    requires store == m.store[f.pgno := f.data] ||
             (store == m.store && f.pgno in m.store && Agree(m.ps, f.pgno, f.data, m.store[f.pgno]))
    requires f.dirty || store == m.store
    ensures PoolOk(SetFrame(m, i, f).(index := m.index[f.pgno := i], store := store))
  {
    var m' := SetFrame(m, i, f).(index := m.index[f.pgno := i], store := store);
    assert SlotOk(m, i);
    forall j: nat ensures SlotOk(m', j) {
      assert SlotOk(m, j);
    }
    forall p: nat ensures IndexOk(m', p) {
      assert IndexOk(m, p);
    }
    forall p: nat ensures PageOk(m', p) {
      assert PageOk(m, p) && IndexOk(m, p);
    }
  }

  /** A page leaves the store, and its frame, if it has an unpinned one, is dropped. */
  lemma Discard(m: Pool, p: nat)
    requires PoolOk(m) && p in m.store
    ensures p !in m.index ==> PoolOk(m.(store := m.store - {p}))
    ensures p in m.index && m.index[p] < |m.frames| && m.frames[m.index[p]].pins == 0 ==>
      var i := m.index[p];
      PoolOk(SetFrame(m, i, m.frames[i].(pgno := 0, dirty := false, ref := false))
             .(index := m.index - {p}, store := m.store - {p}))
  {
    if p !in m.index {
      var m' := m.(store := m.store - {p});
      forall j: nat ensures SlotOk(m', j) { assert SlotOk(m, j); }
      forall q: nat ensures IndexOk(m', q) { assert IndexOk(m, q); }
      forall q: nat ensures PageOk(m', q) { assert PageOk(m, q) && IndexOk(m, q); }
    } else if m.index[p] < |m.frames| && m.frames[m.index[p]].pins == 0 {
      var i := m.index[p];
      assert IndexOk(m, p);
      var m' := SetFrame(m, i, m.frames[i].(pgno := 0, dirty := false, ref := false))
                .(index := m.index - {p}, store := m.store - {p});
      forall j: nat ensures SlotOk(m', j) { assert SlotOk(m, j); }
      forall q: nat ensures IndexOk(m', q) { assert IndexOk(m, q); }
      forall q: nat ensures PageOk(m', q) { assert PageOk(m, q) && IndexOk(m, q); }
    }
  }

  /** Writes to pages outside the store are invisible to it. */
  lemma WriteElsewhere(m: Pool, file: Pages)
    requires PoolOk(m) && AllSized(file, m.ps) && |m.file| <= |file|
    requires forall p :: p > 0 && p in m.store ==> PageAt(file, m.ps, p) == PageAt(m.file, m.ps, p)
    ensures PoolOk(m.(file := file))
  {
    var m' := m.(file := file);
    forall j: nat ensures SlotOk(m', j) { assert SlotOk(m, j); }
    forall p: nat ensures IndexOk(m', p) { assert IndexOk(m, p); }
    forall p: nat ensures PageOk(m', p) { assert PageOk(m, p); }
  }

  lemma NotResident(m: Pool, p: nat)
    requires PoolOk(m) && p !in m.store
    ensures p !in m.index
  {
    assert IndexOk(m, p);
    assert p in m.index ==> SlotOk(m, m.index[p]);
  }

  // ---- the header page ----

  /** Page 1 with a new header in front. */
  function WithHeader(page: Page, hdr: seq<Byte>): Page
    requires |page| >= HEADER_SIZE
  {
    hdr + page[HEADER_SIZE..]
  }

  /** Page 1 as the checkpoint sees it: its frame if resident, else the file. */
  function HeaderPage(m: Pool): Page {
    if 1 in m.index && m.index[1] < |m.frames| then m.frames[m.index[1]].data else PageAt(m.file, m.ps, 1)
  }

  /** The resident frame of page 1, if any, takes the new bytes and is marked clean
      before they are written. */
  function Rehead(m: Pool, page: Page): Pool {
    if 1 in m.index && m.index[1] < |m.frames|
    then SetFrame(m, m.index[1], m.frames[m.index[1]].(data := page, dirty := false))
    else m
  }

  lemma HeaderPageSized(m: Pool)
    requires PoolOk(m) && 1 in m.store
    ensures |HeaderPage(m)| == m.ps && Agree(m.ps, 1, HeaderPage(m), m.store[1])
  {
    assert IndexOk(m, 1) && PageOk(m, 1);
    assert 1 in m.index ==> SlotOk(m, m.index[1]);
  }

  /** The pool once page 1 is on file with its new header. */
  function Saved(m: Pool, page: Page): Pool {
    Rehead(m, page).(file := WritePage(m.file, m.ps, 1, page),
                     wet := if 1 in m.index then m.wet - {m.index[1]} else m.wet)
  }

  lemma HeaderWritten(m: Pool, hdr: seq<Byte>)
    requires PoolOk(m) && 1 in m.store && |hdr| == HEADER_SIZE
    ensures |HeaderPage(m)| == m.ps
    ensures PoolOk(Saved(m, WithHeader(HeaderPage(m), hdr)))
  {
    HeaderPageSized(m);
    var page := WithHeader(HeaderPage(m), hdr);
    var m' := Saved(m, page);
    WriteSeen(m.file, m.ps, 1, page);
    assert IndexOk(m, 1);
    forall j: nat ensures SlotOk(m', j) {
      assert SlotOk(m, j);
    }
    forall p: nat ensures IndexOk(m', p) {
      assert IndexOk(m, p);
    }
    forall p: nat ensures PageOk(m', p) {
      assert PageOk(m, p) && IndexOk(m, p);
    }
  }

  /** If every other frame was clean, all are now. */
  lemma HeaderLast(m: Pool, hdr: seq<Byte>)
    requires PoolOk(m) && 1 in m.store && |hdr| == HEADER_SIZE && |m.file| > 0
    requires forall j :: 0 <= j < |m.frames| && m.frames[j].pgno != 1 ==> !m.frames[j].dirty
    ensures |HeaderPage(m)| == m.ps
    ensures var m' := Saved(m, WithHeader(HeaderPage(m), hdr));
            && PoolOk(m') && |m'.file| == |m.file|
            && (forall j :: 0 <= j < |m'.frames| ==> !m'.frames[j].dirty)
  {
    HeaderWritten(m, hdr);
    WriteSeen(m.file, m.ps, 1, WithHeader(HeaderPage(m), hdr));
    assert IndexOk(m, 1);
    forall j: nat | j < |m.frames| && m.frames[j].pgno == 1 ensures 1 in m.index && m.index[1] == j {
      assert SlotOk(m, j);
    }
  }

  /** A chain of trunks elsewhere holds what it held. */
  lemma ChainKept(file: Pages, ps: nat, page: Page, head: nat, visits: seq<nat>, pages: seq<nat>)
    requires 1 !in visits && ChainHolds(file, ps, head, visits, pages)
    ensures ChainHolds(WritePage(file, ps, 1, page), ps, head, visits, pages)
  {
    WriteSeen(file, ps, 1, page);
    ChainFrame(file, WritePage(file, ps, 1, page), ps, head, visits);
  }

  /** If that write fails, the frame has already been marked clean.  Page 1 then stays
      safe exactly when its bytes were on file anyway, or a pin still owes a dirty mark,
      or it has no frame. */
  lemma HeaderLost(m: Pool, hdr: seq<Byte>)
    requires PoolOk(m) && 1 in m.store && |hdr| == HEADER_SIZE
    ensures |HeaderPage(m)| == m.ps
    ensures PoolOk(Rehead(m, WithHeader(HeaderPage(m), hdr)))
       <==> (1 in m.index ==> OnFile(m, 1) || m.index[1] in m.wet)
  {
    HeaderPageSized(m);
    var page := WithHeader(HeaderPage(m), hdr);
    var m' := Rehead(m, page);
    assert IndexOk(m, 1);
    if 1 in m.index ==> OnFile(m, 1) || m.index[1] in m.wet {
      forall j: nat ensures SlotOk(m', j) {
        assert SlotOk(m, j);
      }
      forall p: nat ensures IndexOk(m', p) {
        assert IndexOk(m, p);
      }
      forall p: nat ensures PageOk(m', p) {
        assert PageOk(m, p) && IndexOk(m, p);
      }
    } else {
      assert !PageOk(m', 1);
    }
  }

  /** A pool whose page 1 is lost that way: its only frame is dirty and the file has other
      bytes. */
  lemma HeaderLostInput(hdr: seq<Byte>)
    requires |hdr| == HEADER_SIZE
    ensures var page := seq(4096, i => 1);
            var m := Pool(4096, [Frame(1, page, 0, true, false)], map[1 := 0], [Zeros(4096)], map[1 := page], {});
            && PoolOk(m) && |HeaderPage(m)| == m.ps && !PoolOk(Rehead(m, WithHeader(HeaderPage(m), hdr)))
  {
    var page := seq(4096, i => 1);
    var m := Pool(4096, [Frame(1, page, 0, true, false)], map[1 := 0], [Zeros(4096)], map[1 := page], {});
    assert Zeros(4096)[HEADER_SIZE..][0] == 0 && page[HEADER_SIZE..][0] == 1;
    assert PoolOk(m);
    HeaderLost(m, hdr);
  }

  // ---- misuse ----

  /** Releasing the last pin of a written frame without marking it dirty: the pool stays
      sound exactly when the file has those bytes anyway. */
  lemma DroppedMark(m: Pool, i: nat)
    requires PoolOk(m) && i < |m.frames| && i in m.wet && m.frames[i].pins == 1 && !m.frames[i].dirty
    ensures m.frames[i].pgno in m.store && m.frames[i].pgno > 0
    ensures PoolOk(SetFrame(m, i, m.frames[i].(pins := 0)).(wet := m.wet - {i})) <==> OnFile(m, m.frames[i].pgno)
  {
    assert SlotOk(m, i);
    var p := m.frames[i].pgno;
    var m' := SetFrame(m, i, m.frames[i].(pins := 0)).(wet := m.wet - {i});
    if OnFile(m, p) {
      forall j: nat ensures SlotOk(m', j) {
        assert SlotOk(m, j);
      }
      forall q: nat ensures IndexOk(m', q) {
        assert IndexOk(m, q);
      }
      forall q: nat ensures PageOk(m', q) {
        assert PageOk(m, q) && IndexOk(m, q);
      }
    } else {
      assert !PageOk(m', p);
    }
  }

  /** A frame takes a page, as getting or allocating the page does. */
  function Taken(m: Pool, i: nat, f: Frame): Pool
    requires i < |m.frames|
  {
    SetFrame(m, i, f).(index := m.index[f.pgno := i])
  }

  /** Getting a page that is not live, and then allocating it, leaves two frames with its
      number, of which the index knows one. */
  lemma DeadPage(m: Pool, i: nat, j: nat, p: nat, f: Frame, g: Frame, store: map<nat, Page>)
    requires PoolOk(m) && i < |m.frames| && j < |m.frames| && i != j && p != 0 && p !in m.store
    requires m.frames[i].pgno == 0 == m.frames[j].pgno && f.pgno == p == g.pgno
    ensures !PoolOk(Taken(m, i, f))
    ensures var m' := Taken(Taken(m, i, f), j, g).(store := store);
            !PoolOk(m') && m'.frames[i].pgno == p == m'.frames[j].pgno && m'.index[p] == j
  {
    assert !SlotOk(Taken(m, i, f), i);
    assert !SlotOk(Taken(Taken(m, i, f), j, g).(store := store), i);
  }
}
