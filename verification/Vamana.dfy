/** The Vamana graph index (index/vamana.go): construction by greedy search, robust
    pruning and backward links. */
module Vamana {
  import opened Prelude
  import opened Ranking
  import opened Heap
  import opened Vectors
  import opened VamanaPrune

  type Adj = map<nat, seq<nat>>

  function Out(adj: Adj, p: nat): seq<nat> {
    if p in adj then adj[p] else []
  }

  // ---- the shape of the graph ----

  ghost predicate GoodOut(adj: Adj, r: nat, p: nat, l: seq<nat>) {
    |l| <= r && NoDup(l) && forall j :: 0 <= j < |l| ==> l[j] != p && l[j] in adj
  }

  ghost predicate EdgesOk(adj: Adj, r: nat, p: nat) {
    GoodOut(adj, r, p, Out(adj, p))
  }

  /** At most r distinct out-edges a node, none to itself, all to stored nodes. */
  ghost predicate AdjOk(adj: Adj, r: nat) {
    forall p: nat :: EdgesOk(adj, r, p)
  }

  lemma SetOut(adj: Adj, r: nat, p: nat, l: seq<nat>)
    requires AdjOk(adj, r) && GoodOut(adj, r, p, l)
    ensures AdjOk(adj[p := l], r)
  {
    var now := adj[p := l];
    forall q: nat ensures EdgesOk(now, r, q) {
      assert EdgesOk(adj, r, q);
    }
  }

  ghost predicate StaysIn(adj: Adj, s: set<nat>, p: nat) {
    forall j :: 0 <= j < |Out(adj, p)| ==> Out(adj, p)[j] in s
  }

  ghost predicate ClosedUnder(adj: Adj, s: set<nat>) {
    forall p :: p in s ==> StaysIn(adj, s, p)
  }

  /** What can be reached from a node: the meet of the closed sets around it. */
  ghost function ReachFrom(adj: Adj, start: nat): set<nat> {
    set q | q in adj.Keys && forall s: set<nat> :: start in s && ClosedUnder(adj, s) ==> q in s
  }

  lemma ReachClosed(adj: Adj, r: nat, start: nat)
    requires AdjOk(adj, r) && start in adj
    ensures start in ReachFrom(adj, start) && ClosedUnder(adj, ReachFrom(adj, start))
    ensures forall s :: start in s && ClosedUnder(adj, s) ==> ReachFrom(adj, start) <= s
  {
    var reach := ReachFrom(adj, start);
    forall p | p in reach ensures StaysIn(adj, reach, p) {
      assert EdgesOk(adj, r, p);
      var l := Out(adj, p);
      forall j | 0 <= j < |l| ensures l[j] in reach {
        forall s | start in s && ClosedUnder(adj, s) ensures l[j] in s {
          assert StaysIn(adj, s, p);
        }
      }
    }
  }

  // ---- greedy search for candidates ----

  ghost function CandsOf(score: Score, s: set<nat>): set<Candidate> {
    set p | p in s :: Cand(score, p)
  }

  /** The positions of a list of candidates. */
  ghost function Spots(cs: seq<Candidate>): set<nat> {
    set c | c in cs :: c.pos
  }

  lemma SpotsAre(cs: seq<Candidate>, score: Score, s: set<nat>)
    requires Lists(cs, CandsOf(score, s))
    ensures Spots(cs) == s
  {
    ListsFacts(cs, CandsOf(score, s));
    forall p ensures p in Spots(cs) <==> p in s {
      if p in s {
        assert Cand(score, p) in cs;
      }
    }
  }

  /** Every visited node waits, or has had its out-edges followed (p may be in progress). */
  ghost predicate Followed(adj: Adj, score: Score, visited: set<nat>, waiting: set<Candidate>, p: Option<nat>) {
    forall v: nat :: v in visited && p != Some(v) ==> Cand(score, v) in waiting || StaysIn(adj, visited, v)
  }

  ghost predicate Sweeping(score: Score, inside: set<nat>, visited: set<nat>, frontier: seq<Candidate>,
                           results: seq<Candidate>, waiting: set<Candidate>) {
    && visited <= inside && waiting <= CandsOf(score, visited)
    && Lists(frontier, waiting) && Ordered(false, frontier)
    && Lists(results, CandsOf(score, visited))
  }

  lemma CandsNext(score: Score, s: set<nat>, q: nat)
    requires q !in s
    ensures Cand(score, q) !in CandsOf(score, s)
    ensures CandsOf(score, s + {q}) == CandsOf(score, s) + {Cand(score, q)}
  {
  }

  method Follow(adj: Adj, score: Score, p: nat, visited: set<nat>, frontier: seq<Candidate>, results: seq<Candidate>,
                ghost inside: set<nat>, ghost waiting: set<Candidate>)
    returns (visited': set<nat>, frontier': seq<Candidate>, results': seq<Candidate>, ghost waiting': set<Candidate>)
    requires Sweeping(score, inside, visited, frontier, results, waiting) && ClosedUnder(adj, inside) && p in inside
    requires Followed(adj, score, visited, waiting, Some(p))
    ensures Sweeping(score, inside, visited', frontier', results', waiting') && visited <= visited'
    ensures Followed(adj, score, visited', waiting', None)
    ensures visited' == visited ==> frontier' == frontier
  {
    visited', frontier', results', waiting' := visited, frontier, results, waiting;
    assert StaysIn(adj, inside, p);
    var nbrs := Out(adj, p);
    var j := 0;
    while j < |nbrs|
      invariant 0 <= j <= |nbrs| && visited <= visited'
      invariant Sweeping(score, inside, visited', frontier', results', waiting')
      invariant Followed(adj, score, visited', waiting', Some(p))
      invariant forall i :: 0 <= i < j ==> nbrs[i] in visited'
      invariant visited' == visited ==> frontier' == frontier
    {
      var nb := nbrs[j];
      if nb !in visited' {
        visited', frontier', results', waiting' := MeetNode(adj, score, p, nb, visited', frontier', results', inside,
                                                            waiting');
      }
      j := j + 1;
    }
  }

  method MeetNode(adj: Adj, score: Score, p: nat, nb: nat, visited: set<nat>, frontier: seq<Candidate>,
                  results: seq<Candidate>, ghost inside: set<nat>, ghost waiting: set<Candidate>)
    returns (visited': set<nat>, frontier': seq<Candidate>, results': seq<Candidate>, ghost waiting': set<Candidate>)
    requires Sweeping(score, inside, visited, frontier, results, waiting) && nb in inside && nb !in visited
    requires Followed(adj, score, visited, waiting, Some(p))
    ensures Sweeping(score, inside, visited', frontier', results', waiting') && visited' == visited + {nb}
    ensures Followed(adj, score, visited', waiting', Some(p))
  {
    CandsNext(score, visited, nb);
    visited' := visited + {nb};
    frontier' := Rise(false, frontier, Candidate(nb, score(nb)));
    ListsPush(frontier, frontier', waiting, Cand(score, nb));
    results' := results + [Candidate(nb, score(nb))];
    ListsPush(results, results', CandsOf(score, visited), Cand(score, nb));
    waiting' := waiting + {Cand(score, nb)};
  }

  /** The n-th smallest distance, or the largest when there are fewer. */
  function NthDist(results: seq<Candidate>, n: nat): real
    requires n >= 1 && results != []
  {
    var sorted := Sort(results);
    assert |multiset(sorted)| == |sorted| && |multiset(results)| == |results|;
    sorted[Min(n, |results|) - 1].dist
  }

  /** It is the distance of the last of the n best. */
  lemma NthIs(results: seq<Candidate>, all: set<Candidate>, n: nat, top: seq<Candidate>)
    requires n >= 1 && results != [] && Lists(results, all) && IsTopK(top, all, n)
    ensures top != [] && NthDist(results, n) == top[|top| - 1].dist
  {
    var sorted := Sort(results);
    SortRanked(results, all);
    ListsFacts(results, all);
    ListsFacts(sorted, all);
    PrefixIsTopK(sorted, all, n);
    TopKUnique(if |sorted| > n then sorted[..n] else sorted, top, all, n);
  }

  /** With at most n of them, none is farther than the n-th. */
  lemma NthLast(results: seq<Candidate>, n: nat)
    requires n >= 1 && 0 < |results| <= n
    ensures forall c :: c in results ==> c.dist <= NthDist(results, n)
  {
    var sorted := Sort(results);
    SortSorted(results);
    assert |multiset(sorted)| == |sorted| && |multiset(results)| == |results|;
    forall c | c in results ensures c.dist <= NthDist(results, n) {
      assert c in multiset(sorted);
      var i :| 0 <= i < |sorted| && sorted[i] == c;
      assert i < |sorted| - 1 ==> !Before(sorted[|sorted| - 1], sorted[i]);
    }
  }

  /** A visited node no farther than the l-th result has had its out-edges followed. */
  ghost predicate NearFollowed(adj: Adj, score: Score, l: nat, visited: set<nat>, results: seq<Candidate>, v: nat) {
    v in visited && l >= 1 && results != [] && score(v) <= NthDist(results, l) ==> StaysIn(adj, visited, v)
  }

  ghost predicate AllNear(adj: Adj, score: Score, l: nat, visited: set<nat>, results: seq<Candidate>) {
    forall v: nat :: NearFollowed(adj, score, l, visited, results, v)
  }

  /** Stopping: what waits is no nearer than a node beyond the l-th result. */
  lemma Stopped(adj: Adj, score: Score, l: nat, visited: set<nat>, waiting: set<Candidate>, results: seq<Candidate>,
                best: Candidate)
    requires Followed(adj, score, visited, waiting, None) && (forall x :: x in waiting ==> !Before(x, best))
    requires l >= 1 && results != [] && best.dist > NthDist(results, l)
    ensures AllNear(adj, score, l, visited, results)
  {
    forall v: nat ensures NearFollowed(adj, score, l, visited, results, v) {
      if v in visited && Cand(score, v) in waiting {
        assert !Before(Cand(score, v), best);
      }
    }
  }

  /** Takes the nearest waiting node and follows its edges, unless it is beyond the l-th
      result. */
  method GreedyRound(adj: Adj, score: Score, l: nat, visited: set<nat>, frontier: seq<Candidate>,
                     results: seq<Candidate>, ghost inside: set<nat>, ghost waiting: set<Candidate>)
    returns (stop: bool, visited': set<nat>, frontier': seq<Candidate>, results': seq<Candidate>,
             ghost waiting': set<Candidate>)
    requires Sweeping(score, inside, visited, frontier, results, waiting) && ClosedUnder(adj, inside) && l >= 1
    requires frontier != []
    requires Followed(adj, score, visited, waiting, None)
    ensures Sweeping(score, inside, visited', frontier', results', waiting')
    ensures if stop then AllNear(adj, score, l, visited', results') else Followed(adj, score, visited', waiting', None)
    ensures visited <= visited' && (visited' == visited ==> |frontier'| < |frontier|)
  {
    var best;
    best, frontier' := TakeRoot(false, frontier);
    ListsPop(frontier, frontier', waiting, best);
    visited', results', waiting' := visited, results, waiting - {best};
    if |results| >= l && best.dist > NthDist(results, l) {
      ListsFacts(frontier, waiting);
      Stopped(adj, score, l, visited, waiting, results, best);
      return true, visited', frontier', results', waiting';
    }
    visited', frontier', results', waiting' := Follow(adj, score, best.pos, visited, frontier', results, inside,
                                                      waiting');
    stop := false;
  }

  /** The outcome of a greedy search: each visited node once, the start among them, all
      within reach of it, and the near ones with their edges followed. */
  ghost predicate Swept(adj: Adj, score: Score, start: nat, l: nat, results: seq<Candidate>) {
    && start in Spots(results) && Spots(results) <= ReachFrom(adj, start)
    && Lists(results, CandsOf(score, Spots(results))) && AllNear(adj, score, l, Spots(results), results)
  }

  /** With at most l of them, they are all that can be reached. */
  lemma SweptAll(adj: Adj, r: nat, score: Score, start: nat, l: nat, results: seq<Candidate>)
    requires AdjOk(adj, r) && start in adj && Swept(adj, score, start, l, results) && l >= 1 && |results| <= l
    ensures Spots(results) == ReachFrom(adj, start)
  {
    ListsFacts(results, CandsOf(score, Spots(results)));
    NthLast(results, l);
    forall v | v in Spots(results) ensures StaysIn(adj, Spots(results), v) {
      assert Cand(score, v) in CandsOf(score, Spots(results));
      assert NearFollowed(adj, score, l, Spots(results), results, v);
    }
    ReachClosed(adj, r, start);
  }

  /** Best-first from the start until the nearest waiting node is beyond the l-th result. */
  method GreedyForBuild(adj: Adj, score: Score, start: nat, l: nat, ghost r: nat) returns (results: seq<Candidate>)
    requires l >= 1 && AdjOk(adj, r) && start in adj
    ensures Swept(adj, score, start, l, results)
  {
    ghost var inside := ReachFrom(adj, start);
    ReachClosed(adj, r, start);
    var seen, frontier, stop := {start}, [Candidate(start, score(start))], false;
    results := frontier;
    ghost var waiting := {Cand(score, start)};
    while |frontier| > 0 && !stop
      invariant Sweeping(score, inside, seen, frontier, results, waiting) && start in seen
      invariant if stop then AllNear(adj, score, l, seen, results) else Followed(adj, score, seen, waiting, None)
      decreases inside - seen, |frontier|
    {
      ghost var before := seen;
      stop, seen, frontier, results, waiting := GreedyRound(adj, score, l, seen, frontier, results, inside, waiting);
      assert seen == before || exists v :: v in seen && v !in before;
    }
    SpotsAre(results, score, seen);
    ListsFacts(frontier, waiting);
    if !stop {
      forall v: nat ensures NearFollowed(adj, score, l, seen, results, v) {
        assert Cand(score, v) !in waiting;
      }
    }
  }

  // ---- linking ----

  /** The list was pruned from nodes a search had visited. */
  ghost predicate PrunedFrom(space: Space, alpha: real, r: nat, p: nat, l: seq<nat>, visited: set<nat>) {
    PrunesTo(space, alpha, r, CandsOf(space.To(space.At(p)), visited - {p}), l)
  }

  /** What becomes of q's list when p is offered to it: unchanged if p is there, extended
      while there is room, else pruned from what it held and p. */
  ghost predicate Welcomed(space: Space, alpha: real, r: nat, q: nat, l: seq<nat>, p: nat, l': seq<nat>) {
    if p in l then l' == l
    else if |l| < r then l' == l + [p]
    else Repruned(space, alpha, r, q, l + [p], l')
  }

  ghost predicate Repruned(space: Space, alpha: real, r: nat, q: nat, l: seq<nat>, l': seq<nat>) {
    PrunesTo(space, alpha, r, Firsts(Measure(space.From(space.At(q)), l), q), l')
  }

  /** Exactly the nodes of `asked` were offered p. */
  ghost predicate Offered(space: Space, alpha: real, r: nat, was: Adj, now: Adj, p: nat, asked: seq<nat>, q: nat) {
    q != p ==>
      if q in asked then Welcomed(space, alpha, r, q, Out(was, q), p, Out(now, q)) else Out(now, q) == Out(was, q)
  }

  /** What is gathered around p: the outcome of a greedy search from the medoid, nothing
      without one. */
  ghost predicate Gathered(space: Space, l: nat, medoid: nat, adj: Adj, p: nat, results: seq<Candidate>) {
    if medoid == INVALID_POS then results == [] else Swept(adj, space.To(space.At(p)), medoid, l, results)
  }

  /** A node has been linked in: its out-edges were pruned from what a search of the graph
      gathered, and each of them was offered the edge back; no other list changed. */
  ghost predicate LinkedIn(space: Space, alpha: real, r: nat, l: nat, medoid: nat, was: Adj, now: Adj, p: nat) {
    && now.Keys == was.Keys + {p}
    && (exists results :: Gathered(space, l, medoid, was, p, results)
                          && PrunedFrom(space, alpha, r, p, Out(now, p), Spots(results)))
    && (forall q: nat :: Offered(space, alpha, r, was, now, p, Out(now, p), q))
  }

  /** Pruning something keeps something. */
  lemma PrunedSome(space: Space, alpha: real, r: nat, pool: set<Candidate>, l: seq<nat>, c: Candidate)
    requires PrunesTo(space, alpha, r, pool, l) && c in pool && r >= 1
    ensures l != []
  {
    var kept :| Pruned(space, alpha, r, pool, kept) && l == Positions(kept);
    assert c in kept || Rejected(space, alpha, r, kept, c);
  }

  /** A node linked in while the medoid is another node has an out-edge. */
  lemma LinkedSome(space: Space, alpha: real, r: nat, l: nat, medoid: nat, was: Adj, now: Adj, p: nat)
    requires LinkedIn(space, alpha, r, l, medoid, was, now, p) && medoid != INVALID_POS && medoid != p && r >= 1
    ensures Out(now, p) != []
  {
    var results :| && Gathered(space, l, medoid, was, p, results)
                   && PrunedFrom(space, alpha, r, p, Out(now, p), Spots(results));
    var score := space.To(space.At(p));
    assert medoid in Spots(results) - {p};
    PrunedSome(space, alpha, r, CandsOf(score, Spots(results) - {p}), Out(now, p), Cand(score, medoid));
  }

  /** Linking a node in takes no other node's last out-edge. */
  lemma LinkedKeeps(space: Space, alpha: real, r: nat, l: nat, medoid: nat, was: Adj, now: Adj, p: nat, q: nat)
    requires LinkedIn(space, alpha, r, l, medoid, was, now, p) && q != p && Out(was, q) != [] && r >= 1
    requires q !in Out(was, q)
    ensures Out(now, q) != []
  {
    assert Offered(space, alpha, r, was, now, p, Out(now, p), q);
    var list := Out(was, q) + [p];
    if q in Out(now, p) && p !in Out(was, q) && |Out(was, q)| >= r {
      var cands := Measure(space.From(space.At(q)), list);
      assert First(cands, cands[0]) && cands[0].pos == list[0] && list[0] in Out(was, q);
      PrunedSome(space, alpha, r, Firsts(cands, q), Out(now, q), cands[0]);
    }
  }

  lemma FirstsScored(results: seq<Candidate>, score: Score, visited: set<nat>, p: nat)
    requires Lists(results, CandsOf(score, visited))
    ensures Firsts(results, p) == CandsOf(score, visited - {p})
    ensures forall q :: Named(results, q) ==> q in visited
  {
    ListsFacts(results, CandsOf(score, visited));
    forall c ensures c in results && c.pos != p && First(results, c) <==> c in CandsOf(score, visited - {p}) {
      if c in results {
        var i :| 0 <= i < |results| && results[i] == c;
        forall j | 0 <= j < i ensures results[j].pos != c.pos {
          assert results[j] in CandsOf(score, visited) && results[j] != results[i];
        }
        assert First(results, c);
      }
      if c in CandsOf(score, visited - {p}) {
        assert c in CandsOf(score, visited);
      }
    }
    forall q | Named(results, q) ensures q in visited {
      var i :| 0 <= i < |results| && results[i].pos == q;
      assert results[i] in CandsOf(score, visited);
    }
  }

  // ---- building ----

  function Isolated(positions: seq<nat>): Adj {
    map p | p in positions :: []
  }

  lemma IsolatedOk(positions: seq<nat>, r: nat)
    ensures AdjOk(Isolated(positions), r)
  {
    forall p: nat ensures EdgesOk(Isolated(positions), r, p) {
    }
  }

  ghost predicate PassStep(space: Space, slack: real, r: nat, l: nat, medoid: nat, nodes: seq<nat>, steps: seq<Adj>,
                           i: nat) {
    i < |nodes| && i + 1 < |steps| ==> LinkedIn(space, slack, r, l, medoid, steps[i], steps[i + 1], nodes[i])
  }

  /** The nodes were linked in one after the other, all at the same slack. */
  ghost predicate IsPass(space: Space, slack: real, r: nat, l: nat, medoid: nat, nodes: seq<nat>, steps: seq<Adj>) {
    |steps| == |nodes| + 1 && forall i: nat :: PassStep(space, slack, r, l, medoid, nodes, steps, i)
  }

  lemma PassNext(space: Space, slack: real, r: nat, l: nat, medoid: nat, nodes: seq<nat>, steps: seq<Adj>, p: nat,
                 now: Adj)
    requires IsPass(space, slack, r, l, medoid, nodes, steps)
    requires LinkedIn(space, slack, r, l, medoid, steps[|nodes|], now, p)
    ensures IsPass(space, slack, r, l, medoid, nodes + [p], steps + [now])
  {
    forall i: nat ensures PassStep(space, slack, r, l, medoid, nodes + [p], steps + [now], i) {
      assert PassStep(space, slack, r, l, medoid, nodes, steps, i);
    }
  }

  class Vamana {
    const dim: nat
    const dist: Distance
    const r: nat
    const l: nat
    const alpha: real
    var neighbors: Adj
    var vecs: map<nat, Vec>
    var deleted: set<nat>
    var order: seq<nat>
    var medoid: nat

    function TheSpace(): Space
      reads this
    {
      Space(vecs, dist)
    }

    ghost predicate Valid()
      reads this
    {
      && r >= 1 && l >= 1 && AdjOk(neighbors, r)
      && neighbors.Keys == vecs.Keys && deleted <= vecs.Keys && INVALID_POS !in vecs
      && (forall p :: p in vecs ==> p in order)
      && (medoid != INVALID_POS ==> medoid in vecs && medoid !in deleted)
    }

    constructor (d: nat, distance: Distance, degree: int, pool: int, slack: real)
      ensures Valid() && dim == d && dist == distance && vecs == map[] && medoid == INVALID_POS
      ensures r == (if degree > 0 then degree else 64) && l == (if pool > 0 then pool else 100)
      ensures alpha == if slack > 0.0 then slack else 1.2
    {
      dim, dist := d, distance;
      r := if degree <= 0 then 64 else degree;
      l := if pool <= 0 then 100 else pool;
      alpha := if slack <= 0.0 then 1.2 else slack;
      neighbors, vecs, deleted, order, medoid := map[], map[], {}, [], INVALID_POS;
    }

    /** Offers p to q's list; no other list changes. */
    method LinkBackward(q: nat, p: nat, slack: real)
      requires AdjOk(neighbors, r) && q in neighbors && p in neighbors && q != p
      modifies this`neighbors
      ensures AdjOk(neighbors, r) && neighbors.Keys == old(neighbors.Keys)
      ensures Welcomed(TheSpace(), slack, r, q, Out(old(neighbors), q), p, Out(neighbors, q))
      ensures forall x: nat :: x != q ==> Out(neighbors, x) == Out(old(neighbors), x)
    {
      var qn := neighbors[q];
      assert EdgesOk(neighbors, r, q);
      var i := 0;
      while i < |qn|
        invariant 0 <= i <= |qn| && p !in qn[..i]
      {
        if qn[i] == p {
          return;
        }
        i := i + 1;
      }
      assert qn[..i] == qn;
      ghost var all := qn + [p];
      qn := qn + [p];
      if |qn| > r {
        qn := Reprune(q, qn, slack);
      } else {
        assert GoodOut(neighbors, r, q, qn);
      }
      SetOut(neighbors, r, q, qn);
      neighbors := neighbors[q := qn];
    }

    method Reprune(q: nat, list: seq<nat>, slack: real) returns (out: seq<nat>)
      requires forall j :: 0 <= j < |list| ==> list[j] in neighbors
      ensures GoodOut(neighbors, r, q, out)
      ensures Repruned(TheSpace(), slack, r, q, list, out)
    {
      var score := TheSpace().From(TheSpace().At(q));
      var cands: seq<Candidate> := [];
      var i := 0;
      while i < |list|
        invariant 0 <= i <= |list| && cands == Measure(score, list[..i])
      {
        cands := cands + [Cand(score, list[i])];
        i := i + 1;
      }
      assert list[..i] == list;
      out := RobustPrune(TheSpace(), r, q, cands, slack);
      PrunedList(TheSpace(), slack, r, cands, q, out);
    }

    /** Searches for candidates around p, prunes them to its out-edges and offers p to
        each of those. */
    method LinkIn(p: nat, slack: real)
      requires AdjOk(neighbors, r) && l >= 1 && p in vecs && (medoid != INVALID_POS ==> medoid in neighbors)
      modifies this`neighbors
      ensures AdjOk(neighbors, r) && LinkedIn(TheSpace(), slack, r, l, medoid, old(neighbors), neighbors, p)
    {
      ghost var results: seq<Candidate>, was := [], neighbors;
      var nbrs;
      nbrs, results := ChooseOut(p, slack);
      SetOut(neighbors, r, p, nbrs);
      neighbors := neighbors[p := nbrs];
      ghost var mid := neighbors;
      forall q: nat ensures Offered(TheSpace(), slack, r, was, mid, p, [], q) {
      }
      LinkEach(p, nbrs, slack, was);
      assert Gathered(TheSpace(), l, medoid, was, p, results);
    }

    method ChooseOut(p: nat, slack: real) returns (nbrs: seq<nat>, ghost results: seq<Candidate>)
      requires AdjOk(neighbors, r) && l >= 1 && (medoid != INVALID_POS ==> medoid in neighbors)
      ensures GoodOut(neighbors, r, p, nbrs) && GoodOut(neighbors[p := nbrs], r, p, nbrs)
      ensures Gathered(TheSpace(), l, medoid, neighbors, p, results)
      ensures PrunedFrom(TheSpace(), slack, r, p, nbrs, Spots(results))
    {
      var score := TheSpace().To(TheSpace().At(p));
      var cands: seq<Candidate> := [];
      if medoid != INVALID_POS {
        cands := GreedyForBuild(neighbors, score, medoid, l, r);
      }
      results := cands;
      FirstsScored(cands, score, Spots(cands), p);
      nbrs := RobustPrune(TheSpace(), r, p, cands, slack);
      PrunedList(TheSpace(), slack, r, cands, p, nbrs);
    }

    method LinkEach(p: nat, nbrs: seq<nat>, slack: real, ghost was: Adj)
      requires AdjOk(neighbors, r) && p in neighbors && Out(neighbors, p) == nbrs
      requires forall q: nat :: Offered(TheSpace(), slack, r, was, neighbors, p, [], q)
      modifies this`neighbors
      ensures AdjOk(neighbors, r) && neighbors.Keys == old(neighbors.Keys) && Out(neighbors, p) == nbrs
      ensures forall q: nat :: Offered(TheSpace(), slack, r, was, neighbors, p, nbrs, q)
    {
      ghost var space := TheSpace();
      assert EdgesOk(neighbors, r, p);
      var i := 0;
      while i < |nbrs|
        invariant 0 <= i <= |nbrs| && TheSpace() == space
        invariant AdjOk(neighbors, r) && neighbors.Keys == old(neighbors.Keys) && Out(neighbors, p) == nbrs
        invariant forall q: nat :: Offered(space, slack, r, was, neighbors, p, nbrs[..i], q)
      {
        ghost var before := neighbors;
        LinkBackward(nbrs[i], p, slack);
        OfferedNext(space, slack, r, was, before, neighbors, p, nbrs[..i], nbrs[i]);
        assert nbrs[..i + 1] == nbrs[..i] + [nbrs[i]];
        i := i + 1;
      }
      assert nbrs[..i] == nbrs;
    }

    /** Links every node in again at the given slack, in the given order; each of them but
        the medoid comes out with an edge. */
    method BuildPass(shuffled: seq<nat>, slack: real) returns (ghost steps: seq<Adj>)
      requires Valid() && forall i :: 0 <= i < |shuffled| ==> shuffled[i] in vecs
      modifies this`neighbors
      ensures Valid() && IsPass(TheSpace(), slack, r, l, medoid, shuffled, steps)
      ensures steps[0] == old(neighbors) && steps[|shuffled|] == neighbors
      ensures medoid != INVALID_POS ==> forall i :: 0 <= i < |shuffled| ==> Attached(neighbors, medoid, shuffled[i])
    {
      steps := [neighbors];
      for i := 0 to |shuffled|
        invariant Valid() && IsPass(TheSpace(), slack, r, l, medoid, shuffled[..i], steps)
        invariant steps[0] == old(neighbors) && steps[i] == neighbors
        invariant medoid != INVALID_POS ==> forall j :: 0 <= j < i ==> Attached(neighbors, medoid, shuffled[j])
      {
        ghost var was := neighbors;
        LinkIn(shuffled[i], slack);
        PassNext(TheSpace(), slack, r, l, medoid, shuffled[..i], steps, shuffled[i], neighbors);
        assert shuffled[..i + 1] == shuffled[..i] + [shuffled[i]];
        steps := steps + [neighbors];
        if medoid != INVALID_POS {
          forall j | 0 <= j <= i ensures Attached(neighbors, medoid, shuffled[j]) {
            StaysAttached(TheSpace(), slack, r, l, medoid, was, neighbors, shuffled[i], shuffled[j]);
          }
        }
      }
      assert shuffled[..|shuffled|] == shuffled;
    }

    /** Rebuilds the graph: all points isolated, then two passes over a shuffled order, the
        first without slack.  The centre stands for the mean of the points. */
    method Build(positions: seq<nat>, vectorAt: nat -> Vec, center: Vec, draws: nat -> nat)
      returns (ghost shuffled: seq<nat>, ghost first: seq<Adj>, ghost second: seq<Adj>)
      requires Valid() && INVALID_POS !in positions
      modifies this
      ensures Valid() && deleted == {} && vecs.Keys == (set p | p in positions) && order == positions
      ensures forall p :: p in positions ==> vecs[p] == Fit(vectorAt(p), dim)
      ensures medoid != INVALID_POS ==> Central(vecs, deleted, dist, center, medoid)
      ensures medoid == INVALID_POS ==> forall p :: p in vecs ==> dist(center, vecs[p]) >= MAX_FLOAT32
      ensures medoid != INVALID_POS ==> forall p :: p in positions ==> Attached(neighbors, medoid, p)
      ensures multiset(shuffled) == multiset(positions)
      ensures IsPass(TheSpace(), 1.0, r, l, medoid, shuffled, first) && first[0] == Isolated(positions)
      ensures IsPass(TheSpace(), alpha, r, l, medoid, shuffled, second) && second[0] == first[|shuffled|]
      ensures neighbors == second[|shuffled|]
    {
      Reset(positions, vectorAt, center);
      var nodes := Shuffle(order, draws);
      shuffled := nodes;
      forall i | 0 <= i < |shuffled| ensures shuffled[i] in vecs {
        assert shuffled[i] in multiset(shuffled);
      }
      first := BuildPass(nodes, 1.0);
      second := BuildPass(nodes, alpha);
      forall p | p in positions && medoid != INVALID_POS ensures Attached(neighbors, medoid, p) {
        assert p in multiset(shuffled);
      }
    }

    /** All points stored without edges, and the medoid among them. */
    method Reset(positions: seq<nat>, vectorAt: nat -> Vec, center: Vec)
      requires Valid() && INVALID_POS !in positions
      modifies this
      ensures Valid() && deleted == {} && vecs.Keys == (set p | p in positions) && order == positions
      ensures forall p :: p in positions ==> vecs[p] == Fit(vectorAt(p), dim)
      ensures medoid != INVALID_POS ==> Central(vecs, deleted, dist, center, medoid)
      ensures medoid == INVALID_POS ==> forall p :: p in vecs ==> dist(center, vecs[p]) >= MAX_FLOAT32
      ensures neighbors == Isolated(positions)
    {
      neighbors, vecs, deleted, order, medoid := map[], map[], {}, [], INVALID_POS;
      Load(positions, vectorAt);
      medoid := ComputeMedoid(center);
    }

    method Load(positions: seq<nat>, vectorAt: nat -> Vec)
      requires Valid() && vecs == map[] && order == [] && medoid == INVALID_POS && INVALID_POS !in positions
      modifies this`neighbors, this`vecs, this`order
      ensures neighbors == Isolated(positions)
      ensures Valid() && vecs.Keys == (set p | p in positions) && order == positions
      ensures forall p :: p in positions ==> vecs[p] == Fit(vectorAt(p), dim)
    {
      var i := 0;
      while i < |positions|
        invariant 0 <= i <= |positions| && neighbors == Isolated(positions[..i]) && order == positions[..i]
        invariant vecs.Keys == (set p | p in positions[..i])
        invariant forall p :: p in positions[..i] ==> vecs[p] == Fit(vectorAt(p), dim)
      {
        var p := positions[i];
        assert positions[..i + 1] == positions[..i] + [p];
        vecs := vecs[p := Fit(vectorAt(p), dim)];
        neighbors := neighbors[p := []];
        order := order + [p];
        i := i + 1;
      }
      assert positions[..i] == positions;
      IsolatedOk(positions, r);
    }

    /** Adds a point, or replaces one. */
    method Insert(pos: nat, vec: Vec) returns (res: Result<(), IndexError>)
      requires Valid() && pos != INVALID_POS
      modifies this
      ensures Valid() && res == if |vec| != dim then Err(DimMismatch) else Ok(())
      ensures res.Err? ==> neighbors == old(neighbors) && vecs == old(vecs) && deleted == old(deleted)
      ensures res.Ok? ==> vecs == old(vecs)[pos := vec] && deleted == old(deleted) - {pos}
      ensures res.Ok? && old(medoid) == INVALID_POS ==> medoid == pos && neighbors == old(neighbors)[pos := []]
      ensures res.Ok? && old(medoid) != INVALID_POS ==>
        medoid == old(medoid) && LinkedIn(TheSpace(), alpha, r, l, medoid, old(neighbors), neighbors, pos)
    {
      if |vec| != dim {
        return Err(DimMismatch);
      }
      deleted := deleted - {pos};
      vecs := vecs[pos := vec];
      if pos !in neighbors {
        order := order + [pos];
      }
      if medoid == INVALID_POS {
        SetOut(neighbors, r, pos, []);
        neighbors := neighbors[pos := []];
        medoid := pos;
        return Ok(());
      }
      LinkIn(pos, alpha);
      return Ok(());
    }

    /** Tombstones a point and replaces the medoid if it was the one. */
    method Delete(pos: nat, center: Vec)
      requires Valid()
      modifies this`deleted, this`medoid
      ensures Valid() && deleted == if pos in vecs then old(deleted) + {pos} else old(deleted)
      ensures medoid != old(medoid) ==> old(medoid) == pos
      ensures medoid != old(medoid) && medoid != INVALID_POS ==> Central(vecs, deleted, dist, center, medoid)
      ensures pos in vecs ==> medoid != pos
    {
      if pos !in vecs {
        return;
      }
      deleted := deleted + {pos};
      if pos == medoid {
        medoid := ComputeMedoid(center);
      }
    }

    /** The live point nearest the centre. */
    method ComputeMedoid(center: Vec) returns (best: nat)
      requires deleted <= vecs.Keys && INVALID_POS !in vecs && forall p :: p in vecs ==> p in order
      ensures best != INVALID_POS ==> Central(vecs, deleted, dist, center, best)
      ensures best == INVALID_POS <==> forall p :: p in vecs && p !in deleted ==> dist(center, vecs[p]) >= MAX_FLOAT32
    {
      best := INVALID_POS;
      if |vecs| == |deleted| {
        SubsetEqual(deleted, vecs.Keys);
        return;
      }
      var bestD := MAX_FLOAT32;
      var i := 0;
      while i < |order|
        invariant 0 <= i <= |order|
        invariant best == INVALID_POS ==> bestD == MAX_FLOAT32
        invariant best != INVALID_POS ==>
          best in vecs && best !in deleted && bestD == dist(center, vecs[best]) < MAX_FLOAT32
        invariant forall p :: p in order[..i] && p in vecs && p !in deleted ==> bestD <= dist(center, vecs[p])
      {
        var pos := order[i];
        assert order[..i + 1] == order[..i] + [pos];
        if pos !in deleted && pos in vecs {
          var d := dist(center, vecs[pos]);
          if d < bestD {
            bestD, best := d, pos;
          }
        }
        i := i + 1;
      }
      assert order[..i] == order;
    }
  }

  /** A node other than the medoid has an out-edge. */
  ghost predicate Attached(adj: Adj, medoid: nat, p: nat) {
    p != medoid ==> Out(adj, p) != []
  }

  lemma StaysAttached(space: Space, alpha: real, r: nat, l: nat, medoid: nat, was: Adj, now: Adj, p: nat, q: nat)
    requires LinkedIn(space, alpha, r, l, medoid, was, now, p) && medoid != INVALID_POS && r >= 1 && AdjOk(was, r)
    requires q == p || Attached(was, medoid, q)
    ensures Attached(now, medoid, q)
  {
    assert EdgesOk(was, r, q);
    if q != medoid {
      if q == p {
        LinkedSome(space, alpha, r, l, medoid, was, now, p);
      } else {
        LinkedKeeps(space, alpha, r, l, medoid, was, now, p, q);
      }
    }
  }

  lemma OfferedNext(space: Space, alpha: real, r: nat, was: Adj, mid: Adj, now: Adj, p: nat, asked: seq<nat>, x: nat)
    requires x !in asked && x != p
    requires forall q: nat :: Offered(space, alpha, r, was, mid, p, asked, q)
    requires forall q: nat :: q != x ==> Out(now, q) == Out(mid, q)
    requires Welcomed(space, alpha, r, x, Out(mid, x), p, Out(now, x))
    ensures forall q: nat :: Offered(space, alpha, r, was, now, p, asked + [x], q)
  {
    forall q: nat ensures Offered(space, alpha, r, was, now, p, asked + [x], q) {
      assert Offered(space, alpha, r, was, mid, p, asked, q);
    }
  }

  /** A live point at least as near to the centre as any other. */
  ghost predicate Central(vecs: map<nat, Vec>, deleted: set<nat>, dist: Distance, center: Vec, best: nat) {
    && best in vecs && best !in deleted
    && forall p :: p in vecs && p !in deleted ==> dist(center, vecs[best]) <= dist(center, vecs[p])
  }

  method Shuffle(order: seq<nat>, draws: nat -> nat) returns (s: seq<nat>)
    ensures multiset(s) == multiset(order)
  {
    s := order;
    var i := |s| - 1;
    while i > 0
      invariant |s| == |order| && i < |s| && multiset(s) == multiset(order)
    {
      var j := draws(i) % (i + 1);
      s := s[i := s[j]][j := s[i]];
      i := i - 1;
    }
  }
}
