/**
  Bounded top-k selection and the morsel-parallel flat scan (query/batch.go,
  query/ops.go, query/context.go).  Each worker offers the items of its own chunk to
  its own heap, in any interleaving with the others; the heaps are then merged.
 */
module TopK {
  import opened Prelude
  import opened Ranking
  import opened Heap
  import opened Vectors

  // ---- keeping the best ----

  /** The list, in any order, holds the k best of what has been offered. */
  ghost predicate KeepsBest(data: seq<Candidate>, offered: set<Candidate>, k: nat) {
    && Lists(data, Elems(data)) && Elems(data) <= offered
    && |data| == Min(k, |offered|)
    && (forall x, y :: x in offered && x !in data && y in data ==> Before(y, x))
  }

  /** Room left: everything offered so far is there. */
  lemma BelowCapacity(data: seq<Candidate>, offered: set<Candidate>, k: nat)
    requires KeepsBest(data, offered, k) && |data| < k
    ensures Elems(data) == offered
  {
    ListsFacts(data, Elems(data));
    SubsetEqual(Elems(data), offered);
  }

  lemma OfferGrow(data: seq<Candidate>, data': seq<Candidate>, offered: set<Candidate>, k: nat, c: Candidate)
    requires KeepsBest(data, offered, k) && |data| < k && c !in offered
    requires multiset(data') == multiset(data) + multiset{c}
    ensures KeepsBest(data', offered + {c}, k)
  {
    BelowCapacity(data, offered, k);
    assert multiset(data') == multiset(offered + {c});
    ListsFacts(data', offered + {c});
    assert Elems(data') == offered + {c};
  }

  lemma OfferSkip(data: seq<Candidate>, offered: set<Candidate>, k: nat, c: Candidate)
    requires KeepsBest(data, offered, k) && |data| == k && c !in offered
    requires forall y :: y in data ==> Before(y, c)
    ensures KeepsBest(data, offered + {c}, k)
  {
    ListsFacts(data, Elems(data));
    SubsetSize(Elems(data), offered);
  }

  /** The root, which nothing kept comes after, makes way for a better candidate. */
  lemma OfferReplace(data: seq<Candidate>, data': seq<Candidate>, offered: set<Candidate>, k: nat, c: Candidate,
                     root: Candidate)
    requires KeepsBest(data, offered, k) && |data| == k && c !in offered
    requires root in data && Before(c, root) && forall x :: x in data ==> !Before(root, x)
    requires multiset(data') + multiset{root} == multiset(data) + multiset{c} && |data'| == |data|
    ensures KeepsBest(data', offered + {c}, k)
  {
    var kept := Elems(data) - {root} + {c};
    ListsFacts(data, Elems(data));
    assert multiset(Elems(data)) == multiset(Elems(data) - {root}) + multiset{root};
    assert multiset(kept) == multiset(Elems(data) - {root}) + multiset{c};
    assert multiset(data') == (multiset(data') + multiset{root}) - multiset{root};
    ListsFacts(data', kept);
    assert Elems(data') == kept;
    SubsetSize(Elems(data), offered);
    forall x, y | x in offered + {c} && x !in data' && y in data' ensures Before(y, x) {
      assert y in kept;
      if x == root {
        assert y != root;
      } else {
        assert x !in data && Before(root, x);
      }
    }
  }

  /** Sorting what is kept gives the k best, best first. */
  lemma SortedBest(data: seq<Candidate>, out: seq<Candidate>, offered: set<Candidate>, k: nat)
    requires KeepsBest(data, offered, k) && multiset(out) == multiset(data) && Ranked(out)
    ensures IsTopK(out, offered, k)
  {
    ListsFacts(data, Elems(data));
    ListsFacts(out, Elems(data));
  }

  class TopKHeap {
    const k: nat
    var data: seq<Candidate>

    ghost predicate Valid()
      reads this
    {
      k >= 1 && Ordered(true, data)
    }

    constructor (size: int)
      ensures Valid() && k == Max(size, 1) && data == []
    {
      k := if size < 1 then 1 else size;
      data := [];
    }

    /** Offers a candidate: keeps it while there is room, or when it beats the farthest
        one kept, which is then dropped. */
    method Push(c: Candidate, ghost offered: set<Candidate>)
      requires Valid() && KeepsBest(data, offered, k) && c !in offered
      modifies this
      ensures Valid() && KeepsBest(data, offered + {c}, k)
    {
      ghost var was := data;
      if |data| < k {
        data := Rise(true, data, c);
        OfferGrow(was, data, offered, k, c);
        return;
      }
      ListsFacts(data, Elems(data));
      SubsetSize(Elems(data), offered);
      var root := data[0];
      Top(true, data);
      if root.dist > c.dist || (root.dist == c.dist && c.pos < root.pos) {
        data := ReplaceRoot(true, data, c);
        OfferReplace(was, data, offered, k, c, root);
      } else {
        assert root in data && root != c;
        OfferSkip(was, offered, k, c);
      }
    }

    /** Empties the heap from the farthest to the nearest, filling the result backwards. */
    method Drain() returns (out: seq<Candidate>)
      requires Valid() && Lists(data, Elems(data))
      modifies this
      ensures Valid() && data == [] && multiset(out) == multiset(old(data)) && Ranked(out)
    {
      out := [];
      ghost var all := Elems(data);
      while data != []
        invariant Valid()
        invariant multiset(data) + multiset(out) == multiset(all)
        invariant Ranked(out) && forall x, i :: x in data && 0 <= i < |out| ==> Before(x, out[i])
        decreases |data|
      {
        ghost var was := data;
        var c;
        c, data := TakeRoot(true, data);
        DrainStep(was, data, c, out, all);
        out := [c] + out;
      }
    }
  }

  lemma DrainStep(was: seq<Candidate>, data: seq<Candidate>, c: Candidate, out: seq<Candidate>, all: set<Candidate>)
    requires multiset(was) == multiset(data) + multiset{c} && multiset(was) + multiset(out) == multiset(all)
    requires Ranked(out) && forall x, i :: x in was && 0 <= i < |out| ==> Before(x, out[i])
    requires forall x :: x in was ==> !Before(c, x)
    ensures multiset(data) + multiset([c] + out) == multiset(all)
    ensures Ranked([c] + out) && forall x, i :: x in data && 0 <= i < |[c] + out| ==> Before(x, ([c] + out)[i])
  {
    assert c in multiset(was) && c in was;
    assert multiset(all)[c] <= 1;
    forall x | x in data ensures x in was && Before(x, c) {
      assert x in multiset(data) && x in multiset(was);
      assert multiset(was)[c] <= multiset(all)[c];
      assert c !in multiset(data);
    }
  }

  // ---- merging ----

  /** The k best among the workers' bests are the k best of everything: a candidate
      dropped by its worker has k better ones beside it. */
  lemma MergeBest(out: seq<Candidate>, kept: seq<seq<Candidate>>, chunks: seq<set<Candidate>>, k: nat,
                  pool: set<Candidate>, all: set<Candidate>)
    requires |kept| == |chunks| && forall w :: 0 <= w < |kept| ==> KeepsBest(kept[w], chunks[w], k)
    requires pool == KeptBy(kept, |kept|)
    requires forall x :: x in all <==> exists w :: 0 <= w < |chunks| && x in chunks[w]
    requires IsTopK(out, pool, k)
    ensures IsTopK(out, all, k)
  {
    assert pool <= all by {
      forall x | x in pool ensures x in all {
        KeptMember(kept, |kept|, x);
        var w :| 0 <= w < |kept| && x in kept[w];
        assert x in Elems(kept[w]) && x in chunks[w];
      }
    }
    forall i, x | 0 <= i < |out| && x in all && x !in out ensures Before(out[i], x) {
      if x !in pool {
        var w :| 0 <= w < |chunks| && x in chunks[w];
        KeptMember(kept, |kept|, x);
        assert Elems(kept[w]) <= pool by {
          forall y | y in kept[w] ensures y in pool { KeptMember(kept, |kept|, y); }
        }
        Crowded(out, kept[w], chunks[w], k, pool, x, i);
      }
    }
    MergeSize(out, kept, chunks, k, pool, all);
  }

  lemma Crowded(out: seq<Candidate>, data: seq<Candidate>, chunk: set<Candidate>, k: nat, pool: set<Candidate>,
                x: Candidate, i: nat)
    requires IsTopK(out, pool, k) && KeepsBest(data, chunk, k) && Elems(data) <= pool
    requires x in chunk && x !in data && x !in out && i < |out|
    ensures Before(out[i], x)
  {
    if !Before(out[i], x) {
      ListsFacts(data, Elems(data));
      RankedElems(out);
      assert out[i] != x && Before(x, out[i]);
      DroppedMeansFull(data, chunk, k, x);
      forall y | y in data ensures y in Elems(out) && y != out[i] {
        assert Before(y, x);
      }
      SubsetSize(Elems(data), Elems(out) - {out[i]});
      assert false;
    }
  }

  lemma DroppedMeansFull(data: seq<Candidate>, chunk: set<Candidate>, k: nat, x: Candidate)
    requires KeepsBest(data, chunk, k) && x in chunk && x !in data
    ensures |data| == k
  {
    ListsFacts(data, Elems(data));
    SubsetSize(Elems(data), chunk - {x});
  }

  lemma MergeSize(out: seq<Candidate>, kept: seq<seq<Candidate>>, chunks: seq<set<Candidate>>, k: nat,
                  pool: set<Candidate>, all: set<Candidate>)
    requires |kept| == |chunks| && forall w :: 0 <= w < |kept| ==> KeepsBest(kept[w], chunks[w], k)
    requires pool == KeptBy(kept, |kept|)
    requires forall x :: x in all <==> exists w :: 0 <= w < |chunks| && x in chunks[w]
    requires pool <= all && |out| == Min(k, |pool|)
    ensures |out| == Min(k, |all|)
  {
    SubsetSize(pool, all);
    if !(all <= pool) {
      var x :| x in all && x !in pool;
      var w :| 0 <= w < |chunks| && x in chunks[w];
      KeptMember(kept, |kept|, x);
      forall y | y in kept[w] ensures y in pool { KeptMember(kept, |kept|, y); }
      DroppedMeansFull(kept[w], chunks[w], k, x);
      ListsFacts(kept[w], Elems(kept[w]));
      SubsetSize(Elems(kept[w]), pool);
    } else {
      assert pool == all;
    }
  }

  // ---- the parallel flat scan ----

  datatype Item = Item(pos: nat, vec: Vec)

  /** The candidates a query makes of the scanned items. */
  function Scored(items: seq<Item>, query: Vec, kernel: Distance): (cs: seq<Candidate>)
    ensures |cs| == |items|
    ensures forall i :: 0 <= i < |cs| ==> cs[i] == Candidate(items[i].pos, kernel(query, items[i].vec))
  {
    seq(|items|, i requires 0 <= i < |items| => Candidate(items[i].pos, kernel(query, items[i].vec)))
  }

  ghost predicate DistinctPositions(items: seq<Item>) {
    forall i, j :: 0 <= i < j < |items| ==> items[i].pos != items[j].pos
  }

  ghost predicate DistinctCandidates(cs: seq<Candidate>) {
    forall i, j :: 0 <= i < j < |cs| ==> cs[i] != cs[j]
  }

  /** A worker's share of the items: chunk w, cut off at the end of the list. */
  function Lo(w: nat, chunk: nat): nat {
    w * chunk
  }

  function Hi(w: nat, chunk: nat, n: nat): nat {
    Min(Lo(w, chunk) + chunk, n)
  }

  ghost function Between(cs: seq<Candidate>, lo: nat, hi: nat): set<Candidate> {
    set i | lo <= i < hi && i < |cs| :: cs[i]
  }

  lemma BetweenNext(cs: seq<Candidate>, lo: nat, i: nat)
    requires DistinctCandidates(cs) && lo <= i < |cs|
    ensures cs[i] !in Between(cs, lo, i) && Between(cs, lo, i + 1) == Between(cs, lo, i) + {cs[i]}
  {
  }

  /** Every item is in some worker's share. */
  lemma ShareOf(n: nat, workers: nat, chunk: nat, i: nat) returns (w: nat)
    requires workers >= 1 && chunk == (n + workers - 1) / workers && i < n
    ensures w < workers && InShare(i, Lo(w, chunk), Hi(w, chunk, n))
  {
    CeilDiv(n, workers, chunk);
    assert chunk > 0;
    w := i / chunk;
    assert w * chunk <= i < w * chunk + chunk;
    if w >= workers {
      MulLe(chunk, workers, w);
      assert false;
    }
  }

  /** The shares lie one behind the other. */
  lemma SharesApart(v: nat, w: nat, chunk: nat)
    requires v < w
    ensures Lo(v, chunk) + chunk <= Lo(w, chunk)
  {
    MulLe(chunk, v + 1, w);
    assert (v + 1) * chunk == v * chunk + chunk;
  }

  /** A worker's heap holds the k best of the part of its share it has reached. */
  ghost predicate WorkerOk(h: TopKHeap, cs: seq<Candidate>, lo: nat, next: nat, k: nat)
    reads h
  {
    h.Valid() && h.k == k && KeepsBest(h.data, Between(cs, lo, next), k)
  }

  ghost predicate DistinctHeaps(heaps: seq<TopKHeap>) {
    forall v, w :: 0 <= v < w < |heaps| ==> heaps[v] != heaps[w]
  }

  /** Shares given by their bounds, one behind the other. */
  ghost predicate Shares(lo: seq<nat>, hi: seq<nat>, n: nat) {
    && |lo| == |hi|
    && (forall w :: 0 <= w < |hi| ==> hi[w] <= n)
    && (forall v, w :: 0 <= v < w < |lo| ==> hi[v] <= lo[w])
  }

  /** A worker stays within its share, and the items it has still to offer are pending. */
  ghost predicate PendingOk(pending: set<nat>, lo: nat, hi: nat, next: nat) {
    && lo <= next && (next == lo || next <= hi)
    && forall i :: next <= i < hi ==> i in pending
  }

  function Upto(n: nat): (r: set<nat>)
    ensures forall i :: i in r <==> 0 <= i < n
  {
    if n == 0 then {} else Upto(n - 1) + {n - 1}
  }

  /** One offer by one worker. */
  method Offer(items: seq<Item>, query: Vec, kernel: Distance, h: TopKHeap, lo: nat, i: nat, k: nat)
    requires DistinctPositions(items) && lo <= i < |items| && k >= 1
    requires WorkerOk(h, Scored(items, query, kernel), lo, i, k)
    modifies h
    ensures WorkerOk(h, Scored(items, query, kernel), lo, i + 1, k)
  {
    ghost var cs := Scored(items, query, kernel);
    BetweenNext(cs, lo, i);
    var d := kernel(query, items[i].vec);
    h.Push(Candidate(items[i].pos, d), Between(cs, lo, i));
  }

  ghost predicate AllPending(pending: set<nat>, lo: seq<nat>, hi: seq<nat>, next: seq<nat>) {
    |lo| == |hi| == |next| && forall w :: 0 <= w < |lo| ==> PendingOk(pending, lo[w], hi[w], next[w])
  }

  lemma PendingStep(pending: set<nat>, lo: seq<nat>, hi: seq<nat>, next: seq<nat>, w: nat, n: nat)
    requires Shares(lo, hi, n) && AllPending(pending, lo, hi, next) && w < |lo| && next[w] < hi[w]
    ensures next[w] in pending && AllPending(pending - {next[w]}, lo, hi, next[w := next[w] + 1])
  {
    var i, pending', next' := next[w], pending - {next[w]}, next[w := next[w] + 1];
    assert PendingOk(pending, lo[w], hi[w], next[w]);
    forall v | 0 <= v < |lo| ensures PendingOk(pending', lo[v], hi[v], next'[v]) {
      assert PendingOk(pending, lo[v], hi[v], next[v]);
      assert v < w ==> hi[v] <= lo[w];
      assert w < v ==> hi[w] <= lo[v];
    }
  }

  ghost predicate AllWorkers(heaps: seq<TopKHeap>, cs: seq<Candidate>, lo: seq<nat>, next: seq<nat>, k: nat)
    reads heaps
  {
    && |lo| == |next| == |heaps|
    && forall w :: 0 <= w < |heaps| ==> WorkerOk(heaps[w], cs, lo[w], next[w], k)
  }

  /** One worker makes one offer; the others' heaps are not its business. */
  method Tick(items: seq<Item>, query: Vec, kernel: Distance, heaps: seq<TopKHeap>,
              lo: seq<nat>, next: seq<nat>, w: nat, k: nat)
    requires DistinctPositions(items) && DistinctHeaps(heaps) && k >= 1 && |lo| == |next| == |heaps|
    requires w < |heaps| && lo[w] <= next[w] < |items|
    requires AllWorkers(heaps, Scored(items, query, kernel), lo, next, k)
    modifies heaps
    ensures AllWorkers(heaps, Scored(items, query, kernel), lo, next[w := next[w] + 1], k)
  {
    forall v | 0 <= v < |heaps| && v != w ensures heaps[v] != heaps[w] {
    }
    Offer(items, query, kernel, heaps[w], lo[w], next[w], k);
  }

  /** Runs every job to its end.  Which worker moves next is left open at every step, so
      what is shown holds of every interleaving and of every order of dispatch. */
  method RunJobs(items: seq<Item>, query: Vec, kernel: Distance, heaps: seq<TopKHeap>,
                 lo: seq<nat>, hi: seq<nat>, k: nat)
    requires DistinctPositions(items) && DistinctHeaps(heaps) && k >= 1
    requires Shares(lo, hi, |items|) && |lo| == |heaps|
    requires forall w :: 0 <= w < |heaps| ==> heaps[w].Valid() && heaps[w].k == k && heaps[w].data == []
    modifies heaps
    ensures AllWorkers(heaps, Scored(items, query, kernel), lo, hi, k)
  {
    ghost var cs := Scored(items, query, kernel);
    var next := lo;
    var todo := Upto(|heaps|);
    ghost var pending := Upto(|items|);
    JobsStart(heaps, cs, lo, hi, k);
    while todo != {}
      invariant |next| == |heaps| && todo <= Upto(|heaps|)
      invariant AllPending(pending, lo, hi, next)
      invariant AllWorkers(heaps, cs, lo, next, k)
      invariant Finished(next, hi, todo)
      decreases pending, todo
    {
      var w :| w in todo;
      var i := next[w];
      assert PendingOk(pending, lo[w], hi[w], i);
      if i < hi[w] {
        Tick(items, query, kernel, heaps, lo, next, w, k);
        PendingStep(pending, lo, hi, next, w, |items|);
        pending := pending - {i};
        next := next[w := next[w] + 1];
        assert AllWorkers(heaps, cs, lo, next, k);
      } else {
        todo := todo - {w};
      }
    }
    JobsDone(heaps, cs, lo, hi, next, pending, k);
  }

  /** Workers that are no longer scheduled have reached the end of their share. */
  ghost predicate Finished(next: seq<nat>, hi: seq<nat>, todo: set<nat>) {
    |next| == |hi| && forall w :: 0 <= w < |hi| && w !in todo ==> next[w] >= hi[w]
  }

  lemma JobsStart(heaps: seq<TopKHeap>, cs: seq<Candidate>, lo: seq<nat>, hi: seq<nat>, k: nat)
    requires k >= 1 && Shares(lo, hi, |cs|) && |lo| == |heaps|
    requires forall w :: 0 <= w < |heaps| ==> heaps[w].Valid() && heaps[w].k == k && heaps[w].data == []
    ensures AllWorkers(heaps, cs, lo, lo, k) && AllPending(Upto(|cs|), lo, hi, lo)
  {
    forall w | 0 <= w < |heaps| ensures WorkerOk(heaps[w], cs, lo[w], lo[w], k) {
      assert Between(cs, lo[w], lo[w]) == {};
    }
  }

  lemma JobsDone(heaps: seq<TopKHeap>, cs: seq<Candidate>, lo: seq<nat>, hi: seq<nat>, next: seq<nat>,
                 pending: set<nat>, k: nat)
    requires AllWorkers(heaps, cs, lo, next, k) && AllPending(pending, lo, hi, next) && Finished(next, hi, {})
    ensures AllWorkers(heaps, cs, lo, hi, k)
  {
    forall w | 0 <= w < |heaps| ensures WorkerOk(heaps[w], cs, lo[w], hi[w], k) {
      assert WorkerOk(heaps[w], cs, lo[w], next[w], k) && PendingOk(pending, lo[w], hi[w], next[w]);
      assert Between(cs, lo[w], next[w]) == Between(cs, lo[w], hi[w]);
    }
  }

  /** What the first n workers kept. */
  ghost function KeptBy(kept: seq<seq<Candidate>>, n: nat): set<Candidate>
    requires n <= |kept|
    decreases n
  {
    if n == 0 then {} else KeptBy(kept, n - 1) + Elems(kept[n - 1])
  }

  lemma {:induction false} KeptMember(kept: seq<seq<Candidate>>, n: nat, x: Candidate)
    requires n <= |kept|
    ensures x in KeptBy(kept, n) <==> exists w :: 0 <= w < n && x in kept[w]
    decreases n
  {
    if n > 0 {
      KeptMember(kept, n - 1, x);
    }
  }

  /** Offers one worker's candidates, none of them offered before. */
  method MergeOne(merged: TopKHeap, data: seq<Candidate>, ghost before: set<Candidate>)
    requires merged.Valid() && KeepsBest(merged.data, before, merged.k)
    requires Lists(data, Elems(data)) && Elems(data) !! before
    modifies merged
    ensures merged.Valid() && KeepsBest(merged.data, before + Elems(data), merged.k)
  {
    ListsFacts(data, Elems(data));
    var i := 0;
    while i < |data|
      invariant 0 <= i <= |data| && merged.Valid()
      invariant KeepsBest(merged.data, before + Between(data, 0, i), merged.k)
    {
      BetweenNext(data, 0, i);
      assert data[i] in Elems(data);
      assert before + Between(data, 0, i) + {data[i]} == before + Between(data, 0, i + 1);
      merged.Push(data[i], before + Between(data, 0, i));
      i := i + 1;
    }
    BetweenAll(data);
  }

  lemma BetweenAll(data: seq<Candidate>)
    ensures Between(data, 0, |data|) == Elems(data)
  {
    forall x | x in data ensures x in Between(data, 0, |data|) {
      var i :| 0 <= i < |data| && data[i] == x;
    }
  }

  /** Offers everything the workers kept to one more heap. */
  method MergeHeaps(kept: seq<seq<Candidate>>, k: int, ghost shares: seq<set<Candidate>>) returns (merged: TopKHeap)
    requires |kept| == |shares| && forall w :: 0 <= w < |kept| ==> KeepsBest(kept[w], shares[w], Max(k, 1))
    requires forall v, w :: 0 <= v < w < |shares| ==> shares[v] !! shares[w]
    ensures fresh(merged) && merged.Valid() && merged.k == Max(k, 1)
    ensures KeepsBest(merged.data, KeptBy(kept, |kept|), Max(k, 1))
  {
    merged := new TopKHeap(k);
    var w := 0;
    while w < |kept|
      invariant 0 <= w <= |kept| && fresh(merged) && merged.Valid() && merged.k == Max(k, 1)
      invariant KeepsBest(merged.data, KeptBy(kept, w), merged.k)
    {
      KeptApart(kept, shares, w, Max(k, 1));
      MergeOne(merged, kept[w], KeptBy(kept, w));
      w := w + 1;
    }
  }

  lemma KeptApart(kept: seq<seq<Candidate>>, shares: seq<set<Candidate>>, w: nat, k: nat)
    requires |kept| == |shares| && w < |kept| && forall v :: 0 <= v < |kept| ==> KeepsBest(kept[v], shares[v], k)
    requires forall u, v :: 0 <= u < v < |shares| ==> shares[u] !! shares[v]
    ensures Elems(kept[w]) !! KeptBy(kept, w)
  {
    forall x | x in Elems(kept[w]) ensures x !in KeptBy(kept, w) {
      KeptMember(kept, w, x);
      assert x in shares[w];
      forall v | 0 <= v < w ensures x !in kept[v] {
        assert Elems(kept[v]) <= shares[v] && shares[v] !! shares[w];
        assert x !in Elems(kept[v]);
      }
    }
  }

  method NewHeaps(workers: nat, k: int) returns (heaps: seq<TopKHeap>)
    ensures |heaps| == workers && DistinctHeaps(heaps)
    ensures forall w :: 0 <= w < |heaps| ==>
      fresh(heaps[w]) && heaps[w].Valid() && heaps[w].k == Max(k, 1) && heaps[w].data == []
  {
    heaps := [];
    while |heaps| < workers
      invariant |heaps| <= workers && DistinctHeaps(heaps)
      invariant forall w :: 0 <= w < |heaps| ==>
        fresh(heaps[w]) && heaps[w].Valid() && heaps[w].k == Max(k, 1) && heaps[w].data == []
      decreases workers - |heaps|
    {
      var h := new TopKHeap(k);
      heaps := heaps + [h];
    }
  }

  /** The workers' part: the k best of each share. */
  method ScanShares(items: seq<Item>, query: Vec, kernel: Distance, maxK: int, lo: seq<nat>, hi: seq<nat>)
    returns (kept: seq<seq<Candidate>>)
    requires DistinctPositions(items) && Shares(lo, hi, |items|)
    ensures |kept| == |lo|
    ensures forall w :: 0 <= w < |kept| ==>
      KeepsBest(kept[w], Between(Scored(items, query, kernel), lo[w], hi[w]), Max(maxK, 1))
  {
    var heaps := NewHeaps(|lo|, maxK);
    RunJobs(items, query, kernel, heaps, lo, hi, Max(maxK, 1));
    kept := seq(|heaps|, w requires 0 <= w < |heaps| reads heaps => heaps[w].data);
    forall w | 0 <= w < |kept|
      ensures KeepsBest(kept[w], Between(Scored(items, query, kernel), lo[w], hi[w]), Max(maxK, 1))
    {
      assert WorkerOk(heaps[w], Scored(items, query, kernel), lo[w], hi[w], Max(maxK, 1));
    }
  }

  /** The scan returns the k best of all scanned candidates, k at least 1, whatever the
      number of workers and however they are scheduled. */
  method FlatScan(items: seq<Item>, query: Vec, kernel: Distance, maxK: int, poolWorkers: int)
    returns (out: seq<Candidate>)
    requires DistinctPositions(items)
    ensures IsTopK(out, Elems(Scored(items, query, kernel)), Max(maxK, 1))
  {
    ghost var cs := Scored(items, query, kernel);
    var n := |items|;
    var workers := poolWorkers;
    if workers > n {
      workers := n;
    }
    if workers < 1 {
      workers := 1;
    }
    var lo, hi := MakeShares(n, workers);
    ghost var shares := seq(workers, w requires 0 <= w < workers => Between(cs, lo[w], hi[w]));
    SharesPartition(cs, shares, lo, hi);
    var kept := ScanShares(items, query, kernel, maxK, lo, hi);
    var merged := MergeHeaps(kept, maxK, shares);
    ghost var data := merged.data;
    out := merged.Drain();
    SortedBest(data, out, KeptBy(kept, |kept|), Max(maxK, 1));
    MergeBest(out, kept, shares, Max(maxK, 1), KeptBy(kept, |kept|), Elems(cs));
  }

  predicate InShare(i: nat, lo: nat, hi: nat) {
    lo <= i < hi
  }

  ghost predicate Covered(lo: seq<nat>, hi: seq<nat>, i: nat)
    requires |lo| == |hi|
  {
    exists w :: 0 <= w < |lo| && InShare(i, lo[w], hi[w])
  }

  /** Every item is in some share. */
  ghost predicate Covers(lo: seq<nat>, hi: seq<nat>, n: nat) {
    |lo| == |hi| && forall i :: 0 <= i < n ==> Covered(lo, hi, i)
  }

  /** Equal chunks in order, the last ones cut off at the end of the list. */
  method MakeShares(n: nat, workers: nat) returns (lo: seq<nat>, hi: seq<nat>)
    requires workers >= 1
    ensures |lo| == workers && Shares(lo, hi, n) && Covers(lo, hi, n)
  {
    var chunk := (n + workers - 1) / workers;
    lo := seq(workers, (w: nat) => Lo(w, chunk));
    hi := seq(workers, (w: nat) => Hi(w, chunk, n));
    forall v, w | 0 <= v < w < workers ensures hi[v] <= lo[w] {
      SharesApart(v, w, chunk);
    }
    forall i | 0 <= i < n ensures Covered(lo, hi, i) {
      var w := ShareOf(n, workers, chunk, i);
      assert InShare(i, lo[w], hi[w]);
    }
  }

  lemma SharesPartition(cs: seq<Candidate>, shares: seq<set<Candidate>>, lo: seq<nat>, hi: seq<nat>)
    requires DistinctCandidates(cs) && Shares(lo, hi, |cs|) && Covers(lo, hi, |cs|) && |shares| == |lo|
    requires forall w :: 0 <= w < |shares| ==> shares[w] == Between(cs, lo[w], hi[w])
    ensures forall x :: x in Elems(cs) <==> exists w :: 0 <= w < |shares| && x in shares[w]
    ensures forall v, w :: 0 <= v < w < |shares| ==> shares[v] !! shares[w]
  {
    forall x | x in cs ensures exists w :: 0 <= w < |shares| && x in shares[w] {
      var i :| 0 <= i < |cs| && cs[i] == x;
      assert Covered(lo, hi, i);
      var w :| 0 <= w < |lo| && InShare(i, lo[w], hi[w]);
      assert x in shares[w];
    }
  }
}
