/**
  The freelist's trip through the file (pager/ops.go): at a checkpoint the in-memory
  list becomes a chain of trunk pages built out of the free pages themselves; at open
  the chain is followed from the header back into a list.
 */
module Freelist {
  import opened Prelude
  import opened PageFormat

  // ---- the file as whole pages, zero past its end ----

  type Pages = seq<Page>

  ghost predicate AllSized(file: Pages, ps: nat) {
    forall i :: 0 <= i < |file| ==> |file[i]| == ps
  }

  /** Page numbers start at 1; reading past the end yields zeros. */
  function PageAt(file: Pages, ps: nat, pgno: nat): Page
    requires pgno > 0
  {
    if pgno <= |file| then file[pgno - 1] else Zeros(ps)
  }

  /** Writing past the end grows the file, leaving zero pages in between. */
  function WritePage(file: Pages, ps: nat, pgno: nat, page: Page): (r: Pages)
    requires pgno > 0
  {
    if pgno <= |file| then file[pgno - 1 := page]
    else file + seq(pgno - 1 - |file|, i => Zeros(ps)) + [page]
  }

  /** A write is seen at its page and nowhere else. */
  lemma WriteSeen(file: Pages, ps: nat, pgno: nat, page: Page)
    requires pgno > 0
    ensures var r := WritePage(file, ps, pgno, page);
            && |r| == Max(|file|, pgno)
            && PageAt(r, ps, pgno) == page
            && (forall q :: q > 0 && q != pgno ==> PageAt(r, ps, q) == PageAt(file, ps, q))
            && (AllSized(file, ps) && |page| == ps ==> AllSized(r, ps))
  {
  }

  // ---- pages with their checksum ----

  /** The page is on file and passes verification. */
  ghost predicate Verifies(file: Pages, ps: nat, algo: ChecksumAlgo, p: nat) {
    && 0 < p <= |file| && |PageAt(file, ps, p)| >= PAGE_CHECKSUM_SIZE
    && VerifyPageChecksum(PageAt(file, ps, p), algo) == Ok(())
  }

  ghost predicate AllVerify(file: Pages, ps: nat, algo: ChecksumAlgo, s: set<nat>) {
    forall p :: p in s ==> Verifies(file, ps, algo, p)
  }

  /** Writing a page that verifies, or one outside the set, keeps the set verified. */
  lemma VerifiedWrite(file: Pages, ps: nat, algo: ChecksumAlgo, s: set<nat>, q: nat, page: Page)
    requires q > 0 && AllVerify(file, ps, algo, s)
    requires q !in s || (|page| >= PAGE_CHECKSUM_SIZE && VerifyPageChecksum(page, algo) == Ok(()))
    ensures AllVerify(WritePage(file, ps, q, page), ps, algo, s)
    ensures |page| >= PAGE_CHECKSUM_SIZE && VerifyPageChecksum(page, algo) == Ok(()) ==>
      AllVerify(WritePage(file, ps, q, page), ps, algo, s + {q})
  {
    WriteSeen(file, ps, q, page);
    var file' := WritePage(file, ps, q, page);
    forall p | p in s ensures Verifies(file', ps, algo, p) {
      assert Verifies(file, ps, algo, p);
    }
  }

  // ---- how many trunks ----

  /** Every leaf finds a place: the trunks hold the pages left over. */
  predicate Enough(pages: nat, cap: nat, trunks: nat) {
    trunks <= pages && pages - trunks <= cap * trunks
  }

  /** The least number of trunks that is enough. */
  function TrunkCount(pages: nat, cap: nat): nat {
    (pages + cap) / (cap + 1)
  }

  lemma TrunkCountIs(pages: nat, cap: nat, trunks: nat)
    requires Enough(pages, cap, trunks) && forall t :: 0 <= t < trunks ==> !Enough(pages, cap, t)
    ensures trunks == TrunkCount(pages, cap)
  {
    var q := TrunkCount(pages, cap);
    assert (cap + 1) * trunks == cap * trunks + trunks && (cap + 1) * q == cap * q + q;
    CeilDiv(pages, cap + 1, trunks);
    CeilDiv(pages, cap + 1, q);
    if q < trunks {
      assert Enough(pages, cap, q);
    }
  }

  /** The selection loop stops at the least number of trunks that is enough. */
  method SelectTrunks(free: seq<nat>, cap: nat) returns (trunks: seq<nat>)
    requires cap > 0
    ensures Enough(|free|, cap, |trunks|)
    ensures forall t :: 0 <= t < |trunks| ==> !Enough(|free|, cap, t)
    ensures forall i :: 0 <= i < |trunks| ==> trunks[i] == free[|free| - 1 - i]
  {
    trunks := [];
    while true
      invariant |trunks| <= |free|
      invariant forall t :: 0 <= t < |trunks| ==> !Enough(|free|, cap, t)
      invariant forall i :: 0 <= i < |trunks| ==> trunks[i] == free[|free| - 1 - i]
      decreases |free| - |trunks|
    {
      var nTrunks := |trunks|;
      var leaves := |free| - nTrunks;
      var need := (leaves + cap - 1) / cap;
      CeilDiv(leaves, cap, nTrunks);
      if need <= nTrunks {
        break;
      }
      trunks := trunks + [free[|free| - 1 - nTrunks]];
    }
  }

  // ---- the chain on file ----

  /** The geometry a checkpoint needs: whole trunks fit in front of the checksum. */
  predicate Geometry(ps: nat, cap: nat) {
    0 < cap < U16 && PAGE_HEADER_SIZE + 4 * cap + PAGE_CHECKSUM_SIZE <= ps
  }

  lemma LegalGeometry(ps: nat, reserved: Byte)
    requires ValidPageSize(ps)
    ensures Geometry(ps, TrunkCapacity(ps, reserved))
    ensures var room := ps - PAGE_HEADER_SIZE - PAGE_CHECKSUM_SIZE - reserved;
            4 * TrunkCapacity(ps, reserved) <= room < 4 * (TrunkCapacity(ps, reserved) + 1)
  {
  }

  /** The page image of a trunk that takes the first leaves that fit. */
  function TrunkBytes(ps: nat, cap: nat, algo: ChecksumAlgo, next: nat, leaves: seq<nat>): Page
    requires Geometry(ps, cap)
  {
    Seal(TrunkImage(ps, TrunkPage(next, leaves[..Min(cap, |leaves|)])), algo)
  }

  /** The leaves still unplaced after n trunks. */
  function Rest(leaves: seq<nat>, cap: nat, n: nat): seq<nat>
    decreases n
  {
    if n == 0 then leaves
    else
      var r := Rest(leaves, cap, n - 1);
      r[Min(cap, |r|)..]
  }

  /** What the n-th trunk links to: the trunk before it. */
  function Link(trunks: seq<nat>, n: nat): nat
    requires n <= |trunks|
  {
    if n == 0 then 0 else trunks[n - 1]
  }

  /** The file once the first n trunks are written. */
  function WriteTrunks(file: Pages, ps: nat, cap: nat, algo: ChecksumAlgo,
                       trunks: seq<nat>, leaves: seq<nat>, n: nat): Pages
    requires Geometry(ps, cap) && n <= |trunks| && Positive(trunks)
    decreases n
  {
    if n == 0 then file
    else WritePage(WriteTrunks(file, ps, cap, algo, trunks, leaves, n - 1), ps, trunks[n - 1],
                   TrunkBytes(ps, cap, algo, Link(trunks, n - 1), Rest(leaves, cap, n - 1)))
  }

  predicate Positive(s: seq<nat>) {
    forall i :: 0 <= i < |s| ==> s[i] > 0
  }

  /** Following the chain from a head visits exactly these trunk pages. */
  ghost predicate IsChain(file: Pages, ps: nat, head: nat, visits: seq<nat>)
    decreases |visits|
  {
    if visits == [] then head == 0
    else
      && head == visits[0] != 0
      && head <= |file| && TrunkReadable(PageAt(file, ps, head))
      && IsChain(file, ps, TrunkOf(PageAt(file, ps, head)).next, visits[1..])
  }

  /** The list the chain yields: each trunk's leaves, then the trunk itself. */
  ghost function ChainPages(file: Pages, ps: nat, head: nat, visits: seq<nat>): seq<nat>
    requires IsChain(file, ps, head, visits)
    decreases |visits|
  {
    if visits == [] then []
    else
      var tp := TrunkOf(PageAt(file, ps, head));
      tp.leafs + [head] + ChainPages(file, ps, tp.next, visits[1..])
  }

  /** A chain is unaffected by writes elsewhere. */
  lemma {:induction false} ChainFrame(file: Pages, file': Pages, ps: nat, head: nat, visits: seq<nat>)
    requires IsChain(file, ps, head, visits)
    requires |file| <= |file'| && forall q :: q in visits && q > 0 ==> PageAt(file', ps, q) == PageAt(file, ps, q)
    ensures IsChain(file', ps, head, visits)
    ensures ChainPages(file', ps, head, visits) == ChainPages(file, ps, head, visits)
    decreases |visits|
  {
    if visits != [] {
      ChainFrame(file, file', ps, TrunkOf(PageAt(file, ps, head)).next, visits[1..]);
    }
  }

  ghost predicate PageNumbers(s: seq<nat>) {
    forall i :: 0 <= i < |s| ==> 0 < s[i] < U32
  }

  /** The trunks in the order a walk from the n-th one visits them. */
  function Visits(trunks: seq<nat>, n: nat): seq<nat>
    requires n <= |trunks|
    decreases n
  {
    if n == 0 then [] else [trunks[n - 1]] + Visits(trunks, n - 1)
  }

  lemma {:induction false} Visited(trunks: seq<nat>, n: nat, x: nat)
    requires n <= |trunks|
    ensures x in Visits(trunks, n) <==> exists i :: 0 <= i < n && trunks[i] == x
    decreases n
  {
    if n > 0 {
      Visited(trunks, n - 1, x);
    }
  }

  /** The list that walk yields. */
  function Yield(trunks: seq<nat>, leaves: seq<nat>, cap: nat, n: nat): seq<nat>
    requires n <= |trunks|
    decreases n
  {
    if n == 0 then []
    else
      var r := Rest(leaves, cap, n - 1);
      r[..Min(cap, |r|)] + [trunks[n - 1]] + Yield(trunks, leaves, cap, n - 1)
  }

  /** Following the chain from a head visits these trunks and yields this list. */
  ghost predicate Yields(file: Pages, ps: nat, head: nat, visits: seq<nat>, list: seq<nat>) {
    IsChain(file, ps, head, visits) && ChainPages(file, ps, head, visits) == list
  }

  /** Writing one trunk extends a chain by that trunk. */
  lemma WriteOneTrunk(file: Pages, ps: nat, cap: nat, algo: ChecksumAlgo,
                      trunk: nat, leaves: seq<nat>, next: nat, visits: seq<nat>, list: seq<nat>)
    requires Geometry(ps, cap) && 0 < trunk < U32 && next < U32 && PageNumbers(leaves)
    requires Yields(file, ps, next, visits, list) && trunk !in visits
    ensures Yields(WritePage(file, ps, trunk, TrunkBytes(ps, cap, algo, next, leaves)), ps, trunk, [trunk] + visits,
                   leaves[..Min(cap, |leaves|)] + [trunk] + list)
  {
    var n := Min(cap, |leaves|);
    var tp := TrunkPage(next, leaves[..n]);
    var file' := WritePage(file, ps, trunk, TrunkBytes(ps, cap, algo, next, leaves));
    WriteSeen(file, ps, trunk, TrunkBytes(ps, cap, algo, next, leaves));
    SealedTrunk(ps, tp, algo);
    ChainFrame(file, file', ps, next, visits);
    assert ([trunk] + visits)[1..] == visits;
  }

  lemma {:induction false} RestLength(leaves: seq<nat>, cap: nat, n: nat)
    ensures |Rest(leaves, cap, n)| == Max(0, |leaves| - cap * n)
    decreases n
  {
    if n > 0 {
      RestLength(leaves, cap, n - 1);
      assert cap * n == cap * (n - 1) + cap;
    }
  }

  lemma {:induction false} RestNumbers(leaves: seq<nat>, cap: nat, n: nat)
    requires PageNumbers(leaves)
    ensures PageNumbers(Rest(leaves, cap, n))
    decreases n
  {
    if n > 0 {
      RestNumbers(leaves, cap, n - 1);
    }
  }

  /** One more trunk, in terms of the walk before it. */
  lemma YieldStep(trunks: seq<nat>, leaves: seq<nat>, cap: nat, n: nat)
    requires 0 < n <= |trunks|
    ensures var r := Rest(leaves, cap, n - 1);
            var m := Min(cap, |r|);
            && Yield(trunks, leaves, cap, n) == r[..m] + [trunks[n - 1]] + Yield(trunks, leaves, cap, n - 1)
            && Rest(leaves, cap, n) == r[m..]
            && Visits(trunks, n) == [trunks[n - 1]] + Visits(trunks, n - 1)
  {
  }

  /** Nothing is lost or repeated: the list so far and the unplaced leaves hold what the
      leaves and the visited trunks do. */
  lemma {:induction false} YieldPages(trunks: seq<nat>, leaves: seq<nat>, cap: nat, n: nat)
    requires n <= |trunks|
    ensures SameTotal(Yield(trunks, leaves, cap, n), Rest(leaves, cap, n), leaves, Visits(trunks, n))
    decreases n
  {
    if n > 0 {
      var y, r, v := Yield(trunks, leaves, cap, n - 1), Rest(leaves, cap, n - 1), Visits(trunks, n - 1);
      assert SameTotal(y, r, leaves, v) by {
        YieldPages(trunks, leaves, cap, n - 1);
      }
      SplitOff(r, Min(cap, |r|), trunks[n - 1], y, v, leaves);
      YieldStep(trunks, leaves, cap, n);
    }
  }

  /** Two pairs of lists hold the same numbers, each as often. */
  ghost predicate SameTotal(a: seq<nat>, b: seq<nat>, c: seq<nat>, d: seq<nat>) {
    multiset(a) + multiset(b) == multiset(c) + multiset(d)
  }

  lemma SplitOff(r: seq<nat>, m: nat, t: nat, y: seq<nat>, v: seq<nat>, leaves: seq<nat>)
    requires m <= |r| && SameTotal(y, r, leaves, v)
    ensures SameTotal(r[..m] + [t] + y, r[m..], leaves, [t] + v)
  {
    var a, b := r[..m], r[m..];
    assert r == a + b;
    calc {
      multiset(a + [t] + y) + multiset(b);
      (multiset(y) + (multiset(a) + multiset(b))) + multiset{t};
      (multiset(leaves) + multiset(v)) + multiset{t};
    }
  }

  lemma OtherEnd(a: seq<nat>, b: seq<nat>, x: nat)
    requires multiset(a) == multiset(b)
    ensures multiset([x] + a) == multiset(b + [x])
  {
  }

  lemma {:induction false} VisitsAll(trunks: seq<nat>, n: nat)
    requires n <= |trunks|
    ensures multiset(Visits(trunks, n)) == multiset(trunks[..n])
    decreases n
  {
    if n > 0 {
      var v, t := Visits(trunks, n - 1), trunks[..n - 1];
      assert multiset(v) == multiset(t) by {
        VisitsAll(trunks, n - 1);
      }
      OtherEnd(v, t, trunks[n - 1]);
      assert trunks[..n] == t + [trunks[n - 1]];
    }
  }

  /** With enough trunks everything is placed. */
  lemma YieldAll(trunks: seq<nat>, leaves: seq<nat>, cap: nat)
    requires |leaves| <= cap * |trunks|
    ensures multiset(Yield(trunks, leaves, cap, |trunks|)) == multiset(leaves) + multiset(trunks)
  {
    RestLength(leaves, cap, |trunks|);
    YieldPages(trunks, leaves, cap, |trunks|);
    VisitsAll(trunks, |trunks|);
    assert Rest(leaves, cap, |trunks|) == [] && trunks[..|trunks|] == trunks;
  }

  lemma NextTrunk(trunks: seq<nat>, leaves: seq<nat>, cap: nat, n: nat)
    requires 0 < n <= |trunks| && NoDup(trunks) && PageNumbers(trunks) && PageNumbers(leaves)
    ensures 0 < trunks[n - 1] < U32 && Link(trunks, n - 1) < U32
    ensures trunks[n - 1] !in Visits(trunks, n - 1)
    ensures PageNumbers(Rest(leaves, cap, n - 1))
  {
    Visited(trunks, n - 1, trunks[n - 1]);
    RestNumbers(leaves, cap, n - 1);
  }

  /** The walk from the n-th trunk, as the file stands once it is written. */
  ghost predicate WalkOk(file: Pages, ps: nat, cap: nat, algo: ChecksumAlgo, trunks: seq<nat>, leaves: seq<nat>, n: nat)
    requires Geometry(ps, cap) && n <= |trunks| && Positive(trunks)
  {
    Yields(WriteTrunks(file, ps, cap, algo, trunks, leaves, n), ps, Link(trunks, n), Visits(trunks, n),
           Yield(trunks, leaves, cap, n))
  }

  lemma WalkStep(file: Pages, ps: nat, cap: nat, algo: ChecksumAlgo, trunks: seq<nat>, leaves: seq<nat>, n: nat)
    requires Geometry(ps, cap) && 0 < n <= |trunks| && Positive(trunks)
    requires 0 < trunks[n - 1] < U32 && Link(trunks, n - 1) < U32
    requires trunks[n - 1] !in Visits(trunks, n - 1) && PageNumbers(Rest(leaves, cap, n - 1))
    requires WalkOk(file, ps, cap, algo, trunks, leaves, n - 1)
    ensures WalkOk(file, ps, cap, algo, trunks, leaves, n)
  {
    WriteOneTrunk(WriteTrunks(file, ps, cap, algo, trunks, leaves, n - 1), ps, cap, algo, trunks[n - 1],
                  Rest(leaves, cap, n - 1), Link(trunks, n - 1), Visits(trunks, n - 1),
                  Yield(trunks, leaves, cap, n - 1));
  }

  /** Writing trunk after trunk builds the chain front to back. */
  lemma {:induction false} TrunksChain(file: Pages, ps: nat, cap: nat, algo: ChecksumAlgo,
                                       trunks: seq<nat>, leaves: seq<nat>, n: nat)
    requires Geometry(ps, cap) && n <= |trunks| && Positive(trunks)
    requires PageNumbers(trunks) && PageNumbers(leaves) && NoDup(trunks)
    ensures WalkOk(file, ps, cap, algo, trunks, leaves, n)
    decreases n
  {
    if n == 0 {
      WalkStart(file, ps, cap, algo, trunks, leaves);
    } else {
      TrunksChain(file, ps, cap, algo, trunks, leaves, n - 1);
      NextTrunk(trunks, leaves, cap, n);
      WalkStep(file, ps, cap, algo, trunks, leaves, n);
    }
  }

  lemma WalkStart(file: Pages, ps: nat, cap: nat, algo: ChecksumAlgo, trunks: seq<nat>, leaves: seq<nat>)
    requires Geometry(ps, cap) && Positive(trunks)
    ensures WalkOk(file, ps, cap, algo, trunks, leaves, 0)
  {
  }

  /** Following the chain from a head visits these trunks and yields these pages, each
      as often as it is listed. */
  ghost predicate ChainHolds(file: Pages, ps: nat, head: nat, visits: seq<nat>, pages: seq<nat>) {
    && IsChain(file, ps, head, visits)
    && multiset(ChainPages(file, ps, head, visits)) == multiset(pages)
    && |ChainPages(file, ps, head, visits)| == |pages|
  }

  /** Round trip: writing the free list out with its last pages as trunks, and following
      the chain from the last trunk written, visits those trunks and yields the same
      pages, each as often as it was free. */
  lemma FreelistRoundTrip(file: Pages, ps: nat, cap: nat, algo: ChecksumAlgo, free: seq<nat>, nTrunks: nat)
    requires Geometry(ps, cap) && PageNumbers(free) && Enough(|free|, cap, nTrunks) && NoDup(TrunksOf(free, nTrunks))
    ensures Positive(TrunksOf(free, nTrunks))
    ensures var trunks := TrunksOf(free, nTrunks);
            var file' := WriteTrunks(file, ps, cap, algo, trunks, LeavesOf(free, nTrunks), nTrunks);
            ChainHolds(file', ps, Link(trunks, nTrunks), Visits(trunks, nTrunks), free)
  {
    var trunks, leaves := TrunksOf(free, nTrunks), LeavesOf(free, nTrunks);
    SplitFacts(free, nTrunks);
    TrunksChain(file, ps, cap, algo, trunks, leaves, nTrunks);
    YieldAll(trunks, leaves, cap);
    SameCount(Yield(trunks, leaves, cap, nTrunks), free);
  }

  // ---- a repeated trunk ----

  /** The last of the first n trunks that is page p; -1 if there is none. */
  function LastAt(trunks: seq<nat>, n: nat, p: nat): (k: int)
    requires n <= |trunks|
    ensures -1 <= k < n && (k >= 0 ==> trunks[k] == p)
    ensures forall i :: 0 <= i < n && trunks[i] == p ==> i <= k
    decreases n
  {
    if n == 0 then -1 else if trunks[n - 1] == p then n - 1 else LastAt(trunks, n - 1, p)
  }

  lemma TrunkWritten(ps: nat, cap: nat, algo: ChecksumAlgo, next: nat, leaves: seq<nat>)
    requires Geometry(ps, cap) && next < U32 && PageNumbers(leaves)
    ensures var page := TrunkBytes(ps, cap, algo, next, leaves);
            TrunkReadable(page) && TrunkOf(page).next == next
  {
    SealedTrunk(ps, TrunkPage(next, leaves[..Min(cap, |leaves|)]), algo);
  }

  /** The page holds a trunk that links to the given page. */
  ghost predicate LinksTo(file: Pages, ps: nat, p: nat, next: nat) {
    p > 0 && TrunkReadable(PageAt(file, ps, p)) && TrunkOf(PageAt(file, ps, p)).next == next
  }

  /** A write replaces the link of its page and no other. */
  lemma LinkWritten(file: Pages, ps: nat, cap: nat, algo: ChecksumAlgo, trunk: nat, next: nat, leaves: seq<nat>,
                    p: nat, other: nat)
    requires Geometry(ps, cap) && trunk > 0 && next < U32 && PageNumbers(leaves)
    requires p != trunk ==> LinksTo(file, ps, p, other)
    ensures LinksTo(WritePage(file, ps, trunk, TrunkBytes(ps, cap, algo, next, leaves)), ps, p,
                    if p == trunk then next else other)
  {
    TrunkWritten(ps, cap, algo, next, leaves);
    WriteSeen(file, ps, trunk, TrunkBytes(ps, cap, algo, next, leaves));
  }

  /** A page that was written several times holds the last trunk written to it. */
  ghost predicate Held(file: Pages, ps: nat, trunks: seq<nat>, n: nat, p: nat)
    requires n <= |trunks|
  {
    LastAt(trunks, n, p) >= 0 ==> LinksTo(file, ps, p, Link(trunks, LastAt(trunks, n, p)))
  }

  lemma HeldNext(file: Pages, ps: nat, cap: nat, algo: ChecksumAlgo, trunks: seq<nat>, n: nat, rest: seq<nat>, p: nat)
    requires Geometry(ps, cap) && 0 < n <= |trunks| && PageNumbers(trunks) && PageNumbers(rest)
    requires Held(file, ps, trunks, n - 1, p)
    ensures Held(WritePage(file, ps, trunks[n - 1], TrunkBytes(ps, cap, algo, Link(trunks, n - 1), rest)),
                 ps, trunks, n, p)
  {
    var k := LastAt(trunks, n - 1, p);
    if p == trunks[n - 1] || k >= 0 {
      LinkWritten(file, ps, cap, algo, trunks[n - 1], Link(trunks, n - 1), rest, p,
                  if k >= 0 then Link(trunks, k) else 0);
    }
  }

  lemma {:induction false} TrunkHeld(file: Pages, ps: nat, cap: nat, algo: ChecksumAlgo,
                                     trunks: seq<nat>, leaves: seq<nat>, n: nat, p: nat)
    requires Geometry(ps, cap) && n <= |trunks| && PageNumbers(trunks) && PageNumbers(leaves) && Positive(trunks)
    ensures Held(WriteTrunks(file, ps, cap, algo, trunks, leaves, n), ps, trunks, n, p)
    decreases n
  {
    if n > 0 {
      var before, rest := WriteTrunks(file, ps, cap, algo, trunks, leaves, n - 1), Rest(leaves, cap, n - 1);
      assert PageNumbers(rest) by {
        RestNumbers(leaves, cap, n - 1);
      }
      assert Held(before, ps, trunks, n - 1, p) by {
        TrunkHeld(file, ps, cap, algo, trunks, leaves, n - 1, p);
      }
      HeldNext(before, ps, cap, algo, trunks, n, rest, p);
    }
  }

  /** Every page of the set links to another of them. */
  ghost predicate Looping(file: Pages, ps: nat, on: set<nat>) {
    forall p :: p in on ==> exists q :: q in on && LinksTo(file, ps, p, q)
  }

  lemma {:induction false} NeverEnds(file: Pages, ps: nat, on: set<nat>, head: nat, visits: seq<nat>)
    requires head in on && Looping(file, ps, on)
    ensures !IsChain(file, ps, head, visits)
    decreases |visits|
  {
    var q :| q in on && LinksTo(file, ps, head, q);
    if visits != [] {
      NeverEnds(file, ps, on, q, visits[1..]);
    }
  }

  /** The trunks written after one that a later one overwrote link in a cycle. */
  lemma Cyclic(file: Pages, ps: nat, trunks: seq<nat>) returns (on: set<nat>)
    requires !NoDup(trunks) && forall p: nat :: Held(file, ps, trunks, |trunks|, p)
    ensures Link(trunks, |trunks|) in on && Looping(file, ps, on)
  {
    var n := |trunks|;
    var a, b :| 0 <= a < b < n && trunks[a] == trunks[b];
    on := set k | a < k < n :: trunks[k];
    forall p | p in on ensures exists q :: q in on && LinksTo(file, ps, p, q) {
      var k := LastAt(trunks, n, p);
      assert Held(file, ps, trunks, n, p);
      assert trunks[k - 1] in on by {
        assert k - 1 == a ==> trunks[k - 1] == trunks[b];
      }
    }
  }

  /** Following the chain from the head comes to an end. */
  ghost predicate Ends(file: Pages, ps: nat, head: nat) {
    exists visits :: IsChain(file, ps, head, visits)
  }

  lemma LoopNeverEnds(file: Pages, ps: nat, on: set<nat>, head: nat)
    requires head in on && Looping(file, ps, on)
    ensures !Ends(file, ps, head)
  {
    forall visits ensures !IsChain(file, ps, head, visits) {
      NeverEnds(file, ps, on, head, visits);
    }
  }

  /** With a repeated trunk page the chain is a cycle, and following it never ends. */
  lemma RepeatedTrunk(file: Pages, ps: nat, cap: nat, algo: ChecksumAlgo, trunks: seq<nat>, leaves: seq<nat>)
    requires Geometry(ps, cap) && PageNumbers(trunks) && PageNumbers(leaves) && Positive(trunks) && !NoDup(trunks)
    ensures !Ends(WriteTrunks(file, ps, cap, algo, trunks, leaves, |trunks|), ps, Link(trunks, |trunks|))
  {
    var file' := WriteTrunks(file, ps, cap, algo, trunks, leaves, |trunks|);
    forall p: nat ensures Held(file', ps, trunks, |trunks|, p) {
      TrunkHeld(file, ps, cap, algo, trunks, leaves, |trunks|, p);
    }
    var on := Cyclic(file', ps, trunks);
    LoopNeverEnds(file', ps, on, Link(trunks, |trunks|));
  }

  /** So the chain can be followed to its end exactly when no trunk page is repeated. */
  lemma ChainEnds(file: Pages, ps: nat, cap: nat, algo: ChecksumAlgo, trunks: seq<nat>, leaves: seq<nat>)
    requires Geometry(ps, cap) && PageNumbers(trunks) && PageNumbers(leaves) && Positive(trunks)
    ensures NoDup(trunks) <==>
      Ends(WriteTrunks(file, ps, cap, algo, trunks, leaves, |trunks|), ps, Link(trunks, |trunks|))
  {
    if NoDup(trunks) {
      TrunksChain(file, ps, cap, algo, trunks, leaves, |trunks|);
    } else {
      RepeatedTrunk(file, ps, cap, algo, trunks, leaves);
    }
  }

  /** A checkpoint turns the last pages of the list into trunks and keeps the others as
      leaves. */
  function TrunksOf(free: seq<nat>, n: nat): (t: seq<nat>)
    requires n <= |free|
    ensures |t| == n
  {
    free[|free| - n..]
  }

  function LeavesOf(free: seq<nat>, n: nat): seq<nat>
    requires n <= |free|
  {
    free[..|free| - n]
  }

  lemma SplitFacts(free: seq<nat>, n: nat)
    requires PageNumbers(free) && n <= |free|
    ensures PageNumbers(TrunksOf(free, n)) && PageNumbers(LeavesOf(free, n))
    ensures multiset(free) == multiset(LeavesOf(free, n)) + multiset(TrunksOf(free, n))
  {
    assert free == LeavesOf(free, n) + TrunksOf(free, n);
  }

  lemma SameCount(a: seq<nat>, b: seq<nat>)
    requires multiset(a) == multiset(b)
    ensures |a| == |b|
  {
    assert |multiset(a)| == |a| && |multiset(b)| == |b|;
  }

  /** Only trunk pages are written. */
  lemma {:induction false} WriteTrunksElsewhere(file: Pages, ps: nat, cap: nat, algo: ChecksumAlgo,
                                                trunks: seq<nat>, leaves: seq<nat>, n: nat, q: nat)
    requires Geometry(ps, cap) && n <= |trunks| && Positive(trunks) && q > 0 && q !in trunks
    ensures PageAt(WriteTrunks(file, ps, cap, algo, trunks, leaves, n), ps, q) == PageAt(file, ps, q)
    decreases n
  {
    if n > 0 {
      WriteTrunksElsewhere(file, ps, cap, algo, trunks, leaves, n - 1, q);
      WriteSeen(WriteTrunks(file, ps, cap, algo, trunks, leaves, n - 1), ps, trunks[n - 1],
                TrunkBytes(ps, cap, algo, Link(trunks, n - 1), Rest(leaves, cap, n - 1)));
    }
  }

  /** The file grows no further than the trunks reach. */
  lemma {:induction false} WriteTrunksSize(file: Pages, ps: nat, cap: nat, algo: ChecksumAlgo,
                                           trunks: seq<nat>, leaves: seq<nat>, n: nat, bound: nat)
    requires Geometry(ps, cap) && n <= |trunks| && Positive(trunks) && AllSized(file, ps)
    requires |file| <= bound && forall i :: 0 <= i < |trunks| ==> trunks[i] <= bound
    ensures var file' := WriteTrunks(file, ps, cap, algo, trunks, leaves, n);
            AllSized(file', ps) && |file| <= |file'| <= bound
    decreases n
  {
    if n > 0 {
      WriteTrunksSize(file, ps, cap, algo, trunks, leaves, n - 1, bound);
      WriteSeen(WriteTrunks(file, ps, cap, algo, trunks, leaves, n - 1), ps, trunks[n - 1],
                TrunkBytes(ps, cap, algo, Link(trunks, n - 1), Rest(leaves, cap, n - 1)));
    }
  }

  /** The file ends where it did or at the farthest page written. */
  ghost predicate EndsAt(was: nat, now: nat, written: set<nat>) {
    was <= now && (forall p :: p in written ==> p <= now) && (now == was || now in written)
  }

  lemma EndsNext(was: nat, mid: nat, now: nat, written: set<nat>, p: nat)
    requires EndsAt(was, mid, written) && now == Max(mid, p)
    ensures EndsAt(was, now, written + {p})
  {
  }

  lemma {:induction false} WriteTrunksEnd(file: Pages, ps: nat, cap: nat, algo: ChecksumAlgo,
                                          trunks: seq<nat>, leaves: seq<nat>, n: nat)
    requires Geometry(ps, cap) && n <= |trunks| && Positive(trunks)
    ensures EndsAt(|file|, |WriteTrunks(file, ps, cap, algo, trunks, leaves, n)|, SetOf(trunks[..n]))
    decreases n
  {
    if n > 0 {
      var before := WriteTrunks(file, ps, cap, algo, trunks, leaves, n - 1);
      var page := TrunkBytes(ps, cap, algo, Link(trunks, n - 1), Rest(leaves, cap, n - 1));
      WriteTrunksEnd(file, ps, cap, algo, trunks, leaves, n - 1);
      WriteSeen(before, ps, trunks[n - 1], page);
      EndsNext(|file|, |before|, |WritePage(before, ps, trunks[n - 1], page)|, SetOf(trunks[..n - 1]), trunks[n - 1]);
      SetOfNext(trunks, n - 1);
    }
  }

  /** Every trunk reaches the file with its checksum, and other verified pages stay so. */
  lemma {:induction false} TrunksVerify(file: Pages, ps: nat, cap: nat, algo: ChecksumAlgo,
                                        trunks: seq<nat>, leaves: seq<nat>, n: nat, s: set<nat>)
    requires Geometry(ps, cap) && n <= |trunks| && Positive(trunks) && AllVerify(file, ps, algo, s)
    ensures AllVerify(WriteTrunks(file, ps, cap, algo, trunks, leaves, n), ps, algo, s + SetOf(trunks[..n]))
    decreases n
  {
    if n == 0 {
      assert s + SetOf(trunks[..0]) == s;
    } else {
      TrunksVerify(file, ps, cap, algo, trunks, leaves, n - 1, s);
      var before := WriteTrunks(file, ps, cap, algo, trunks, leaves, n - 1);
      TrunkWrite(before, ps, cap, algo, trunks[n - 1], Link(trunks, n - 1), Rest(leaves, cap, n - 1),
                 s + SetOf(trunks[..n - 1]));
      SetOfNext(trunks, n - 1);
      assert s + SetOf(trunks[..n]) == s + SetOf(trunks[..n - 1]) + {trunks[n - 1]};
    }
  }

  lemma TrunkWrite(file: Pages, ps: nat, cap: nat, algo: ChecksumAlgo, trunk: nat, next: nat, leaves: seq<nat>,
                   s: set<nat>)
    requires Geometry(ps, cap) && trunk > 0 && AllVerify(file, ps, algo, s)
    ensures AllVerify(WritePage(file, ps, trunk, TrunkBytes(ps, cap, algo, next, leaves)), ps, algo, s + {trunk})
  {
    var image := TrunkImage(ps, TrunkPage(next, leaves[..Min(cap, |leaves|)]));
    SealVerifies(image, algo);
    VerifiedWrite(file, ps, algo, s, trunk, TrunkBytes(ps, cap, algo, next, leaves));
  }

  // ---- the methods ----

  /** The writing loop.  A write that fails stops it where it is: the trunks before that
      one are on file, the rest are not. */
  method WriteChain(file: Pages, ps: nat, cap: nat, algo: ChecksumAlgo,
                    trunkPages: seq<nat>, leaves: seq<nat>, failing: set<nat>)
    returns (ti: nat, file': Pages)
    requires Geometry(ps, cap) && Positive(trunkPages)
    ensures ti <= |trunkPages| && file' == WriteTrunks(file, ps, cap, algo, trunkPages, leaves, ti)
    ensures ti < |trunkPages| ==> trunkPages[ti] in failing
  {
    file', ti := file, 0;
    var next: nat, li: nat := 0, 0;
    while ti < |trunkPages|
      invariant ti <= |trunkPages| && li <= |leaves|
      invariant next == Link(trunkPages, ti) && leaves[li..] == Rest(leaves, cap, ti)
      invariant file' == WriteTrunks(file, ps, cap, algo, trunkPages, leaves, ti)
      decreases |trunkPages| - ti
    {
      if trunkPages[ti] in failing {
        return;
      }
      file', li := WriteTrunk(file', ps, cap, algo, trunkPages[ti], next, leaves, li);
      next, ti := trunkPages[ti], ti + 1;
    }
  }

  /** One turn of the loop: the next run of leaves goes into the trunk page. */
  method WriteTrunk(file: Pages, ps: nat, cap: nat, algo: ChecksumAlgo, trunk: nat, next: nat, leaves: seq<nat>,
                    li: nat)
    returns (file': Pages, end: nat)
    requires Geometry(ps, cap) && trunk > 0 && li <= |leaves|
    ensures end <= |leaves| && leaves[end..] == leaves[li..][Min(cap, |leaves[li..]|)..]
    ensures file' == WritePage(file, ps, trunk, TrunkBytes(ps, cap, algo, next, leaves[li..]))
  {
    end := li + cap;
    if end > |leaves| {
      end := |leaves|;
    }
    var buf := new Byte[ps];
    EncodeTrunk(buf, TrunkPage(next, leaves[li..end]));
    WritePageChecksum(buf, algo);
    assert leaves[li..end] == leaves[li..][..Min(cap, |leaves[li..]|)];
    file' := WritePage(file, ps, trunk, buf[..]);
  }

  /** Rebuilds the whole chain.  It fails only at a chosen trunk whose write fails. */
  method PersistFreelist(file: Pages, ps: nat, cap: nat, algo: ChecksumAlgo, free: seq<nat>, failing: set<nat>)
    returns (r: Result<nat, ()>, file': Pages, nTrunks: nat, written: nat)
    requires Geometry(ps, cap) && Positive(free)
    ensures Enough(|free|, cap, nTrunks) && written <= nTrunks
    ensures forall t :: 0 <= t < nTrunks ==> !Enough(|free|, cap, t)
    ensures Positive(TrunksOf(free, nTrunks))
    ensures file' == WriteTrunks(file, ps, cap, algo, TrunksOf(free, nTrunks), LeavesOf(free, nTrunks), written)
    ensures r.Ok? <==> written == nTrunks
    ensures r.Ok? ==> r.value == Link(TrunksOf(free, nTrunks), nTrunks)
    ensures r.Err? ==> TrunksOf(free, nTrunks)[written] in failing
  {
    if |free| == 0 {
      return Ok(0), file, 0, 0;
    }
    var picked := SelectTrunks(free, cap);
    nTrunks := |picked|;
    written, file' := WriteChain(file, ps, cap, algo, TrunksOf(free, nTrunks), LeavesOf(free, nTrunks), failing);
    if written == nTrunks {
      r := Ok(Link(TrunksOf(free, nTrunks), nTrunks));
    } else {
      r := Err(());
    }
  }

  /** Following the chain from a head visits these trunk pages and then meets one past the
      end of the file. */
  ghost predicate Dangles(file: Pages, ps: nat, head: nat, visits: seq<nat>)
    decreases |visits|
  {
    if visits == [] then head > |file|
    else
      && head == visits[0] != 0
      && head <= |file| && TrunkReadable(PageAt(file, ps, head))
      && Dangles(file, ps, TrunkOf(PageAt(file, ps, head)).next, visits[1..])
  }

  /** The walk from the head has yielded `free` and goes on from `trunk`. */
  ghost predicate Leads(file: Pages, ps: nat, head: nat, visits: seq<nat>, free: seq<nat>, trunk: nat,
                        ahead: seq<nat>) {
    if IsChain(file, ps, head, visits)
    then && IsChain(file, ps, trunk, ahead)
         && free + ChainPages(file, ps, trunk, ahead) == ChainPages(file, ps, head, visits)
    else Dangles(file, ps, trunk, ahead)
  }

  lemma LeadsOn(file: Pages, ps: nat, head: nat, visits: seq<nat>, free: seq<nat>, trunk: nat, ahead: seq<nat>)
    requires Leads(file, ps, head, visits, free, trunk, ahead) && trunk != 0
    ensures trunk > |file| ==> !IsChain(file, ps, head, visits)
    ensures trunk <= |file| ==>
      && ahead != [] && TrunkReadable(PageAt(file, ps, trunk))
      && var tp := TrunkOf(PageAt(file, ps, trunk));
         Leads(file, ps, head, visits, free + tp.leafs + [trunk], tp.next, ahead[1..])
  {
  }

  /** Follows the chain; the visited trunks bound the walk.  It fails exactly when a trunk
      is past the end of the file. */
  method LoadFreelist(file: Pages, ps: nat, head: nat, ghost visits: seq<nat>) returns (r: Result<seq<nat>, ()>)
    requires IsChain(file, ps, head, visits) || Dangles(file, ps, head, visits)
    ensures r.Ok? <==> IsChain(file, ps, head, visits)
    ensures r.Ok? ==> r.value == ChainPages(file, ps, head, visits)
  {
    var free: seq<nat> := [];
    var trunk: nat := head;
    ghost var ahead := visits;
    while trunk != 0
      invariant Leads(file, ps, head, visits, free, trunk, ahead)
      decreases |ahead|
    {
      LeadsOn(file, ps, head, visits, free, trunk, ahead);
      if trunk > |file| {
        return Err(());
      }
      var tp := DecodeTrunk(PageAt(file, ps, trunk));
      free := free + tp.leafs;
      free := free + [trunk];
      trunk := tp.next;
      ahead := ahead[1..];
    }
    return Ok(free);
  }
}
