/**
  Searching an HNSW graph (index/hnsw.go): greedy descent through the upper layers and
  the ef-bounded best-first search of one layer.
 */
module HnswSearch {
  import opened Prelude
  import opened Ranking
  import opened Heap
  import opened Vectors

  datatype Node = Node(maxLevel: nat, neighbors: seq<seq<nat>>, deleted: bool)

  type Nodes = map<nat, Node>

  /** A node's neighbours at a layer; none where it does not reach that layer. */
  function Nbrs(nodes: Nodes, p: nat, layer: nat): seq<nat> {
    if p in nodes && layer <= nodes[p].maxLevel && layer < |nodes[p].neighbors| then nodes[p].neighbors[layer] else []
  }

  /** A node that may be returned: live and admitted by the filter. */
  predicate Admissible(nodes: Nodes, p: nat, filter: Filter) {
    p in nodes && !nodes[p].deleted && Passes(filter, p)
  }

  // ---- reachability at a layer ----

  ghost predicate StaysIn(nodes: Nodes, layer: nat, s: set<nat>, p: nat) {
    forall j :: 0 <= j < |Nbrs(nodes, p, layer)| ==> Nbrs(nodes, p, layer)[j] in s
  }

  ghost predicate Closed(nodes: Nodes, layer: nat, s: set<nat>) {
    forall p :: p in s ==> StaysIn(nodes, layer, s, p)
  }

  /** The least closed set that contains the entry: what can be reached from it. */
  ghost predicate IsReach(nodes: Nodes, layer: nat, ep: nat, reach: set<nat>) {
    && ep in reach && Closed(nodes, layer, reach)
    && forall s :: ep in s && Closed(nodes, layer, s) ==> reach <= s
  }

  /** The admissible nodes of a set, as candidates. */
  ghost function Answers(nodes: Nodes, score: Score, filter: Filter, s: set<nat>): set<Candidate> {
    set p | p in s && Admissible(nodes, p, filter) :: Cand(score, p)
  }

  // ---- greedy descent ----

  /** No neighbour at the layer is closer. */
  ghost predicate LocalBest(nodes: Nodes, layer: nat, score: Score, p: nat) {
    forall j :: 0 <= j < |Nbrs(nodes, p, layer)| ==> score(Nbrs(nodes, p, layer)[j]) >= score(p)
  }

  /** The closest of a node and the first n of a list, the first among equals. */
  function Closest(score: Score, l: seq<nat>, n: nat, p: nat): nat
    requires n <= |l|
    decreases n
  {
    if n == 0 then p
    else
      var c := Closest(score, l, n - 1, p);
      if score(l[n - 1]) < score(c) then l[n - 1] else c
  }

  lemma {:induction false} ClosestFacts(score: Score, l: seq<nat>, n: nat, p: nat)
    requires n <= |l|
    ensures var c := Closest(score, l, n, p);
            && (c == p || (score(c) < score(p) && c in l))
            && forall i :: 0 <= i < n ==> score(l[i]) >= score(c)
    decreases n
  {
    if n > 0 {
      ClosestFacts(score, l, n - 1, p);
    }
  }

  ghost function Closer(nodes: Nodes, score: Score, p: nat): set<nat> {
    set q | q in nodes.Keys && score(q) < score(p)
  }

  /** Where the greedy walk of a layer ends: it moves to the closest neighbour as long as
      that is strictly closer. */
  ghost function Greedy(nodes: Nodes, score: Score, p: nat, layer: nat): nat
    decreases Closer(nodes, score, p)
  {
    var l := Nbrs(nodes, p, layer);
    var c := Closest(score, l, |l|, p);
    if score(c) >= score(p) || c !in nodes then c
    else
      assert c in Closer(nodes, score, p) && c !in Closer(nodes, score, c);
      assert Closer(nodes, score, c) <= Closer(nodes, score, p);
      Greedy(nodes, score, c, layer)
  }

  /** The greedy walks of the layers above floor, from the top down. */
  ghost function Descent(nodes: Nodes, score: Score, p: nat, top: int, floor: nat): nat
    decreases top - floor
  {
    if top <= floor then p else Greedy(nodes, score, Descent(nodes, score, p, top, floor + 1), floor + 1)
  }

  lemma GreedyStep(nodes: Nodes, score: Score, p: nat, layer: nat)
    ensures var l := Nbrs(nodes, p, layer);
            Greedy(nodes, score, p, layer) == Greedy(nodes, score, Closest(score, l, |l|, p), layer)
  {
    var l := Nbrs(nodes, p, layer);
    ClosestFacts(score, l, |l|, p);
  }

  /** The walk stays within a closed set. */
  lemma {:induction false} GreedyIn(nodes: Nodes, score: Score, p: nat, layer: nat, inside: set<nat>)
    requires p in inside && Closed(nodes, layer, inside)
    ensures Greedy(nodes, score, p, layer) in inside
    decreases Closer(nodes, score, p)
  {
    var l := Nbrs(nodes, p, layer);
    var c := Closest(score, l, |l|, p);
    ClosestFacts(score, l, |l|, p);
    assert StaysIn(nodes, layer, inside, p);
    if score(c) < score(p) && c in nodes {
      assert c in Closer(nodes, score, p) && c !in Closer(nodes, score, c);
      assert Closer(nodes, score, c) <= Closer(nodes, score, p);
      GreedyIn(nodes, score, c, layer, inside);
    }
  }

  /** The walk ends, at a node no farther than the entry with no nearer neighbour. */
  method GreedyDescend(nodes: Nodes, score: Score, ep: nat, layer: nat, ghost inside: set<nat>) returns (cur: nat)
    requires ep in inside && Closed(nodes, layer, inside)
    ensures cur == Greedy(nodes, score, ep, layer)
    ensures cur in inside && score(cur) <= score(ep) && LocalBest(nodes, layer, score, cur)
  {
    cur := ep;
    var curDist := score(cur);
    while true
      invariant cur in inside && curDist == score(cur) && curDist <= score(ep)
      invariant Greedy(nodes, score, cur, layer) == Greedy(nodes, score, ep, layer)
      decreases set p | p in inside && score(p) < curDist
    {
      ghost var before := set p | p in inside && score(p) < curDist;
      var start, startDist := cur, curDist;
      var nbrs := Nbrs(nodes, start, layer);
      assert StaysIn(nodes, layer, inside, start);
      var j := 0;
      while j < |nbrs|
        invariant 0 <= j <= |nbrs| && cur == Closest(score, nbrs, j, start) && curDist == score(cur)
      {
        var d := score(nbrs[j]);
        if d < curDist {
          cur, curDist := nbrs[j], d;
        }
        j := j + 1;
      }
      ClosestFacts(score, nbrs, |nbrs|, start);
      GreedyStep(nodes, score, start, layer);
      if cur == start {
        break;
      }
      assert cur in before && cur !in set p | p in inside && score(p) < curDist;
    }
  }

  // ---- best-first search of one layer ----

  /** The state of the search: visited positions, frontier and results as sets. */
  datatype Hunt = Hunt(visited: set<nat>, frontier: set<Candidate>, results: set<Candidate>)

  /** The node is no result, and ef results are at least as close. */
  ghost predicate Beaten(score: Score, ef: nat, h: Hunt, v: nat) {
    Cand(score, v) !in h.results && |h.results| == ef && forall r :: r in h.results ==> r.dist <= score(v)
  }

  /** A visited node is a result unless it is not admissible or beaten. */
  ghost predicate KeptOrBeaten(nodes: Nodes, score: Score, filter: Filter, ef: nat, h: Hunt, v: nat) {
    v in h.visited && Admissible(nodes, v, filter) ==> Cand(score, v) in h.results || Beaten(score, ef, h, v)
  }

  /** Once beaten, beaten for good. */
  ghost predicate StaysBeaten(score: Score, ef: nat, h: Hunt, h': Hunt, v: nat) {
    v in h.visited && Beaten(score, ef, h, v) ==> Beaten(score, ef, h', v)
  }

  ghost predicate HuntOk(nodes: Nodes, score: Score, filter: Filter, ef: nat, inside: set<nat>, h: Hunt) {
    && h.visited <= inside
    && (forall c :: c in h.frontier ==> c.pos in h.visited && c == Cand(score, c.pos))
    && (forall c :: c in h.results ==>
          c.pos in h.visited && c == Cand(score, c.pos) && Admissible(nodes, c.pos, filter))
    && |h.results| <= ef
    && (forall v :: KeptOrBeaten(nodes, score, filter, ef, h, v))
  }

  /** A visited node has had all its neighbours visited, or is beaten. */
  ghost predicate Done(nodes: Nodes, score: Score, layer: nat, ef: nat, h: Hunt, v: nat) {
    v in h.visited ==> StaysIn(nodes, layer, h.visited, v) || Beaten(score, ef, h, v)
  }

  /** A visited node waits in the frontier unless it is done. */
  ghost predicate Covered(nodes: Nodes, score: Score, layer: nat, ef: nat, h: Hunt, v: nat) {
    v in h.visited && Cand(score, v) !in h.frontier ==> Done(nodes, score, layer, ef, h, v)
  }

  /** Nothing is skipped, except that node p may be under expansion. */
  ghost predicate Thorough(nodes: Nodes, score: Score, layer: nat, ef: nat, h: Hunt, p: Option<nat>) {
    forall v: nat :: p != Some(v) ==> Covered(nodes, score, layer, ef, h, v)
  }

  /** The search is over: nothing that was put aside can matter. */
  ghost predicate AllDone(nodes: Nodes, score: Score, layer: nat, ef: nat, h: Hunt) {
    forall v: nat :: Done(nodes, score, layer, ef, h, v)
  }

  /** Meeting a node that is too far to matter. */
  lemma Ignore(nodes: Nodes, score: Score, filter: Filter, ef: nat, inside: set<nat>, h: Hunt, nb: nat)
    requires HuntOk(nodes, score, filter, ef, inside, h) && nb in inside && nb !in h.visited
    requires |h.results| == ef && forall r :: r in h.results ==> r.dist <= score(nb)
    ensures HuntOk(nodes, score, filter, ef, inside, h.(visited := h.visited + {nb}))
  {
    var h' := h.(visited := h.visited + {nb});
    forall v ensures KeptOrBeaten(nodes, score, filter, ef, h', v) {
      assert KeptOrBeaten(nodes, score, filter, ef, h, v);
    }
  }

  /** Meeting a node that is a hop but not an answer. */
  lemma Hop(nodes: Nodes, score: Score, filter: Filter, ef: nat, inside: set<nat>, h: Hunt, nb: nat)
    requires HuntOk(nodes, score, filter, ef, inside, h) && nb in inside && nb !in h.visited
    requires !Admissible(nodes, nb, filter)
    ensures HuntOk(nodes, score, filter, ef, inside, Hunt(h.visited + {nb}, h.frontier + {Cand(score, nb)}, h.results))
  {
    var h' := Hunt(h.visited + {nb}, h.frontier + {Cand(score, nb)}, h.results);
    forall v ensures KeptOrBeaten(nodes, score, filter, ef, h', v) {
      assert KeptOrBeaten(nodes, score, filter, ef, h, v);
    }
  }

  /** Meeting an answer while there is room. */
  lemma Admit(nodes: Nodes, score: Score, filter: Filter, ef: nat, inside: set<nat>, h: Hunt, nb: nat)
    requires HuntOk(nodes, score, filter, ef, inside, h) && nb in inside && nb !in h.visited
    requires Admissible(nodes, nb, filter) && |h.results| < ef
    ensures Cand(score, nb) !in h.results
    ensures HuntOk(nodes, score, filter, ef, inside,
                   Hunt(h.visited + {nb}, h.frontier + {Cand(score, nb)}, h.results + {Cand(score, nb)}))
    ensures forall v :: StaysBeaten(score, ef, h,
      Hunt(h.visited + {nb}, h.frontier + {Cand(score, nb)}, h.results + {Cand(score, nb)}), v)
  {
    var h' := Hunt(h.visited + {nb}, h.frontier + {Cand(score, nb)}, h.results + {Cand(score, nb)});
    forall v ensures KeptOrBeaten(nodes, score, filter, ef, h', v) {
      assert KeptOrBeaten(nodes, score, filter, ef, h, v);
    }
  }

  /** Meeting a better answer when the results are full: the farthest goes. */
  lemma Displace(nodes: Nodes, score: Score, filter: Filter, ef: nat, inside: set<nat>, h: Hunt, nb: nat,
                 top: Candidate)
    requires HuntOk(nodes, score, filter, ef, inside, h) && nb in inside && nb !in h.visited
    requires Admissible(nodes, nb, filter) && |h.results| == ef >= 1
    requires exists r :: r in h.results && score(nb) < r.dist && forall x :: x in h.results ==> x.dist <= r.dist
    requires top in h.results + {Cand(score, nb)} && forall x :: x in h.results + {Cand(score, nb)} ==> !Before(top, x)
    ensures Cand(score, nb) !in h.results
    ensures HuntOk(nodes, score, filter, ef, inside,
                   Hunt(h.visited + {nb}, h.frontier + {Cand(score, nb)}, h.results + {Cand(score, nb)} - {top}))
    ensures forall v :: StaysBeaten(score, ef, h,
      Hunt(h.visited + {nb}, h.frontier + {Cand(score, nb)}, h.results + {Cand(score, nb)} - {top}), v)
  {
    var c := Cand(score, nb);
    var h' := Hunt(h.visited + {nb}, h.frontier + {c}, h.results + {c} - {top});
    assert |h.results + {c}| == ef + 1 && |h'.results| == ef;
    forall x | x in h'.results ensures x.dist <= top.dist {
      assert !Before(top, x);
    }
    forall v ensures KeptOrBeaten(nodes, score, filter, ef, h', v) {
      assert KeptOrBeaten(nodes, score, filter, ef, h, v);
    }
  }

  // ---- the search loops ----

  /** The two heaps hold the frontier and the results of the hunt. */
  ghost predicate Holds(frontier: seq<Candidate>, results: seq<Candidate>, h: Hunt) {
    && Lists(frontier, h.frontier) && Ordered(false, frontier)
    && Lists(results, h.results) && Ordered(true, results)
  }

  /** The root of a full result heap is at least as far as every result. */
  lemma Farthest(results: seq<Candidate>, all: set<Candidate>)
    requires Lists(results, all) && Ordered(true, results) && results != []
    ensures results[0] in all && forall x :: x in all ==> x.dist <= results[0].dist
  {
    ListsFacts(results, all);
    Top(true, results);
    assert results[0] in results;
  }

  /** What meeting a neighbour does: it is visited, and waits in the frontier unless it is
      beaten; what was beaten stays so. */
  ghost predicate Met(score: Score, ef: nat, h: Hunt, h': Hunt, nb: nat) {
    && h'.visited == h.visited + {nb} && h.frontier <= h'.frontier
    && (Cand(score, nb) in h'.frontier || Beaten(score, ef, h', nb))
    && (forall v :: StaysBeaten(score, ef, h, h', v))
  }

  method Meet(nodes: Nodes, score: Score, filter: Filter, ef: nat, nb: nat,
              frontier: seq<Candidate>, results: seq<Candidate>, ghost inside: set<nat>, ghost h: Hunt)
    returns (frontier': seq<Candidate>, results': seq<Candidate>, ghost h': Hunt)
    requires HuntOk(nodes, score, filter, ef, inside, h) && Holds(frontier, results, h)
    requires ef >= 1 && nb in inside && nb !in h.visited
    ensures HuntOk(nodes, score, filter, ef, inside, h') && Holds(frontier', results', h') && Met(score, ef, h, h', nb)
  {
    frontier', results' := frontier, results;
    ListsFacts(results, h.results);
    var d := score(nb);
    if |results| < ef || d < results[0].dist {
      frontier' := Rise(false, frontier, Candidate(nb, d));
      ListsPush(frontier, frontier', h.frontier, Cand(score, nb));
      if Admissible(nodes, nb, filter) {
        results', h' := Accept(nodes, score, filter, ef, nb, results, inside, h);
      } else {
        Hop(nodes, score, filter, ef, inside, h, nb);
        h' := Hunt(h.visited + {nb}, h.frontier + {Cand(score, nb)}, h.results);
      }
    } else {
      Farthest(results, h.results);
      Ignore(nodes, score, filter, ef, inside, h, nb);
      h' := h.(visited := h.visited + {nb});
    }
  }

  /** An admissible node enters the results; if they overflow, the farthest leaves. */
  method Accept(nodes: Nodes, score: Score, filter: Filter, ef: nat, nb: nat,
                results: seq<Candidate>, ghost inside: set<nat>, ghost h: Hunt)
    returns (results': seq<Candidate>, ghost h': Hunt)
    requires HuntOk(nodes, score, filter, ef, inside, h) && Lists(results, h.results) && Ordered(true, results)
    requires ef >= 1 && nb in inside && nb !in h.visited && Admissible(nodes, nb, filter)
    requires |results| < ef || score(nb) < results[0].dist
    ensures HuntOk(nodes, score, filter, ef, inside, h') && Lists(results', h'.results) && Ordered(true, results')
    ensures h'.visited == h.visited + {nb} && h'.frontier == h.frontier + {Cand(score, nb)}
    ensures forall v :: StaysBeaten(score, ef, h, h', v)
  {
    var c := Candidate(nb, score(nb));
    ListsFacts(results, h.results);
    results' := Rise(true, results, c);
    ListsPush(results, results', h.results, c);
    if |results'| > ef {
      Farthest(results, h.results);
      ghost var full := results';
      var top;
      top, results' := TakeRoot(true, results');
      ListsFacts(full, h.results + {c});
      ListsPop(full, results', h.results + {c}, top);
      Displace(nodes, score, filter, ef, inside, h, nb, top);
      h' := Hunt(h.visited + {nb}, h.frontier + {c}, h.results + {c} - {top});
      ListsFacts(results', h'.results);
    } else {
      Admit(nodes, score, filter, ef, inside, h, nb);
      h' := Hunt(h.visited + {nb}, h.frontier + {c}, h.results + {c});
    }
  }

  lemma ThoroughMet(nodes: Nodes, score: Score, layer: nat, ef: nat, h: Hunt, h': Hunt, nb: nat, p: nat)
    requires Thorough(nodes, score, layer, ef, h, Some(p)) && Met(score, ef, h, h', nb)
    ensures Thorough(nodes, score, layer, ef, h', Some(p))
  {
    forall v: nat | v != p ensures Covered(nodes, score, layer, ef, h', v) {
      assert Covered(nodes, score, layer, ef, h, v) && StaysBeaten(score, ef, h, h', v);
    }
  }

  /** Visits every neighbour of the node being expanded. */
  method Expand(nodes: Nodes, score: Score, filter: Filter, ef: nat, layer: nat, p: nat,
                visited: set<nat>, frontier: seq<Candidate>, results: seq<Candidate>,
                ghost inside: set<nat>, ghost h: Hunt)
    returns (visited': set<nat>, frontier': seq<Candidate>, results': seq<Candidate>, ghost h': Hunt)
    requires HuntOk(nodes, score, filter, ef, inside, h) && Holds(frontier, results, h) && visited == h.visited
    requires ef >= 1 && p in inside && Closed(nodes, layer, inside) && Thorough(nodes, score, layer, ef, h, Some(p))
    ensures HuntOk(nodes, score, filter, ef, inside, h') && Holds(frontier', results', h') && visited' == h'.visited
    ensures visited <= visited' && Thorough(nodes, score, layer, ef, h', None)
    ensures visited' == visited ==> h'.frontier == h.frontier
  {
    visited', frontier', results', h' := visited, frontier, results, h;
    var nbrs := Nbrs(nodes, p, layer);
    assert StaysIn(nodes, layer, inside, p);
    var j := 0;
    while j < |nbrs|
      invariant 0 <= j <= |nbrs|
      invariant HuntOk(nodes, score, filter, ef, inside, h') && Holds(frontier', results', h') && visited' == h'.visited
      invariant visited <= visited' && Thorough(nodes, score, layer, ef, h', Some(p))
      invariant forall i :: 0 <= i < j ==> nbrs[i] in visited'
      invariant visited' == visited ==> h' == h
    {
      var nb := nbrs[j];
      if nb !in visited' {
        ghost var before := h';
        frontier', results', h' := Meet(nodes, score, filter, ef, nb, frontier', results', inside, h');
        ThoroughMet(nodes, score, layer, ef, before, h', nb, p);
        visited' := visited' + {nb};
      }
      j := j + 1;
    }
    assert Covered(nodes, score, layer, ef, h', p);
  }

  /** The search begins with the entry visited and waiting, and a result if admissible. */
  method Start(nodes: Nodes, score: Score, ep: nat, ef: nat, layer: nat, filter: Filter, ghost inside: set<nat>)
    returns (visited: set<nat>, frontier: seq<Candidate>, results: seq<Candidate>, ghost h: Hunt)
    requires ef >= 1 && ep in inside
    ensures HuntOk(nodes, score, filter, ef, inside, h) && Holds(frontier, results, h) && visited == h.visited == {ep}
    ensures Thorough(nodes, score, layer, ef, h, None)
  {
    var c := Candidate(ep, score(ep));
    visited, frontier := {ep}, [c];
    results := if Admissible(nodes, ep, filter) then [c] else [];
    h := Hunt({ep}, {c}, if Admissible(nodes, ep, filter) then {c} else {});
  }

  /** Taking a node off the frontier to expand it. */
  lemma Popped(nodes: Nodes, score: Score, filter: Filter, ef: nat, inside: set<nat>, layer: nat, h: Hunt, c: Candidate)
    requires HuntOk(nodes, score, filter, ef, inside, h) && Thorough(nodes, score, layer, ef, h, None)
    requires c in h.frontier
    ensures HuntOk(nodes, score, filter, ef, inside, h.(frontier := h.frontier - {c}))
    ensures Thorough(nodes, score, layer, ef, h.(frontier := h.frontier - {c}), Some(c.pos))
  {
    var h' := h.(frontier := h.frontier - {c});
    forall v: nat ensures KeptOrBeaten(nodes, score, filter, ef, h', v) {
      assert KeptOrBeaten(nodes, score, filter, ef, h, v);
    }
    forall v: nat | v != c.pos ensures Covered(nodes, score, layer, ef, h', v) {
      assert Covered(nodes, score, layer, ef, h, v);
    }
  }

  /** Stopping early: the nearest waiting node is beyond a full set of results, so every
      node that waits is beaten. */
  lemma Stopped(nodes: Nodes, score: Score, filter: Filter, ef: nat, inside: set<nat>, layer: nat, h: Hunt,
                c: Candidate, worst: real)
    requires HuntOk(nodes, score, filter, ef, inside, h) && Thorough(nodes, score, layer, ef, h, None)
    requires c in h.frontier && (forall x :: x in h.frontier ==> !Before(x, c))
    requires |h.results| == ef && c.dist > worst && forall r :: r in h.results ==> r.dist <= worst
    ensures AllDone(nodes, score, layer, ef, h.(frontier := h.frontier - {c}))
  {
    var h' := h.(frontier := h.frontier - {c});
    forall v: nat ensures Done(nodes, score, layer, ef, h', v) {
      assert Covered(nodes, score, layer, ef, h, v);
      if Cand(score, v) in h.frontier {
        assert !Before(Cand(score, v), c);
      }
    }
  }

  /** One round: the nearest waiting node is expanded, unless the results are full and
      nothing that waits can improve them. */
  method Round(nodes: Nodes, score: Score, filter: Filter, ef: nat, layer: nat,
               visited: set<nat>, frontier: seq<Candidate>, results: seq<Candidate>,
               ghost inside: set<nat>, ghost h: Hunt)
    returns (stop: bool, visited': set<nat>, frontier': seq<Candidate>, results': seq<Candidate>, ghost h': Hunt)
    requires HuntOk(nodes, score, filter, ef, inside, h) && Holds(frontier, results, h) && visited == h.visited
    requires ef >= 1 && Closed(nodes, layer, inside) && Thorough(nodes, score, layer, ef, h, None) && frontier != []
    ensures HuntOk(nodes, score, filter, ef, inside, h') && Holds(frontier', results', h') && visited' == h'.visited
    ensures visited <= visited'
    ensures stop ==> AllDone(nodes, score, layer, ef, h')
    ensures !stop ==> Thorough(nodes, score, layer, ef, h', None)
    ensures visited' <= inside && (visited' == visited ==> |frontier'| < |frontier|)
  {
    var c;
    c, frontier' := TakeRoot(false, frontier);
    ListsPop(frontier, frontier', h.frontier, c);
    ListsFacts(frontier, h.frontier);
    h' := h.(frontier := h.frontier - {c});
    Popped(nodes, score, filter, ef, inside, layer, h, c);
    ListsFacts(results, h.results);
    visited', results' := visited, results;
    if |results| >= ef && c.dist > results[0].dist {
      Farthest(results, h.results);
      Stopped(nodes, score, filter, ef, inside, layer, h, c, results[0].dist);
      return true, visited', frontier', results', h';
    }
    visited', frontier', results', h' :=
      Expand(nodes, score, filter, ef, layer, c.pos, visited, frontier', results, inside, h');
    ListsFacts(frontier', h'.frontier);
    stop := false;
  }

  /** Rounds until nothing waits or nothing that waits can matter. */
  method Explore(nodes: Nodes, score: Score, ep: nat, ef: nat, layer: nat, filter: Filter, ghost inside: set<nat>)
    returns (results: seq<Candidate>, ghost h: Hunt)
    requires ef >= 1 && ep in inside && Closed(nodes, layer, inside)
    ensures HuntOk(nodes, score, filter, ef, inside, h) && Lists(results, h.results) && ep in h.visited
    ensures AllDone(nodes, score, layer, ef, h)
  {
    var visited, frontier;
    visited, frontier, results, h := Start(nodes, score, ep, ef, layer, filter, inside);
    var stop := false;
    while |frontier| > 0 && !stop
      invariant HuntOk(nodes, score, filter, ef, inside, h) && Holds(frontier, results, h)
      invariant visited == h.visited && ep in visited
      invariant if stop then AllDone(nodes, score, layer, ef, h) else Thorough(nodes, score, layer, ef, h, None)
      decreases inside - visited, |frontier|
    {
      ghost var before := visited;
      stop, visited, frontier, results, h :=
        Round(nodes, score, filter, ef, layer, visited, frontier, results, inside, h);
      assert visited == before || exists v :: v in visited && v !in before;
    }
    ListsFacts(frontier, h.frontier);
    if !stop {
      forall v: nat ensures Done(nodes, score, layer, ef, h, v) {
        assert Covered(nodes, score, layer, ef, h, v);
      }
    }
  }

  // ---- what a search of a layer returns ----

  /** A visited answer that is not returned: the results are full and none is farther. */
  ghost predicate LeftOut(nodes: Nodes, score: Score, filter: Filter, ef: nat, visited: set<nat>, out: seq<Candidate>,
                          v: nat) {
    v in visited && Admissible(nodes, v, filter) && Cand(score, v) !in out ==>
      |out| == ef && forall i :: 0 <= i < |out| ==> out[i].dist <= score(v)
  }

  /** A visited node had its neighbours visited if it is returned, if the results are not
      full, or if it is nearer than the farthest of them. */
  ghost predicate Followed(nodes: Nodes, score: Score, layer: nat, ef: nat, visited: set<nat>, out: seq<Candidate>,
                           v: nat) {
    v in visited && (Cand(score, v) in out || |out| < ef || (out != [] && score(v) < out[|out| - 1].dist)) ==>
      StaysIn(nodes, layer, visited, v)
  }

  /** The outcome of a search with room for ef results that saw these nodes. */
  ghost predicate Beam(nodes: Nodes, score: Score, filter: Filter, ef: nat, layer: nat, ep: nat,
                       visited: set<nat>, out: seq<Candidate>) {
    && ep in visited && Ranked(out) && |out| <= ef
    && Elems(out) <= Answers(nodes, score, filter, visited)
    && (forall v: nat :: LeftOut(nodes, score, filter, ef, visited, out, v))
    && (forall v: nat :: Followed(nodes, score, layer, ef, visited, out, v))
  }

  /** With room to spare, the search has seen and returned everything within reach. */
  lemma BeamAll(nodes: Nodes, score: Score, filter: Filter, ef: nat, layer: nat, ep: nat,
                visited: set<nat>, out: seq<Candidate>, reach: set<nat>)
    requires Beam(nodes, score, filter, ef, layer, ep, visited, out) && visited <= reach
    requires IsReach(nodes, layer, ep, reach) && |out| < ef
    ensures visited == reach && Elems(out) == Answers(nodes, score, filter, reach)
  {
    forall v | v in visited ensures StaysIn(nodes, layer, visited, v) {
      assert Followed(nodes, score, layer, ef, visited, out, v);
    }
    assert Closed(nodes, layer, visited);
    forall v | v in reach && Admissible(nodes, v, filter) ensures Cand(score, v) in Elems(out) {
      assert LeftOut(nodes, score, filter, ef, visited, out, v);
    }
  }

  /** If at most ef answers are within reach, all of them are returned. */
  lemma BeamWide(nodes: Nodes, score: Score, filter: Filter, ef: nat, layer: nat, ep: nat,
                 visited: set<nat>, out: seq<Candidate>, reach: set<nat>)
    requires Beam(nodes, score, filter, ef, layer, ep, visited, out) && visited <= reach
    requires IsReach(nodes, layer, ep, reach) && |Answers(nodes, score, filter, reach)| <= ef
    ensures Elems(out) == Answers(nodes, score, filter, reach)
  {
    if |out| < ef {
      BeamAll(nodes, score, filter, ef, layer, ep, visited, out, reach);
    } else {
      RankedElems(out);
      assert Elems(out) <= Answers(nodes, score, filter, reach);
      SubsetSize(Elems(out), Answers(nodes, score, filter, reach));
      SubsetEqual(Elems(out), Answers(nodes, score, filter, reach));
    }
  }

  /** A search finds something whenever there is an answer within reach. */
  lemma BeamFinds(nodes: Nodes, score: Score, filter: Filter, ef: nat, layer: nat, ep: nat,
                  visited: set<nat>, out: seq<Candidate>, reach: set<nat>, q: nat)
    requires Beam(nodes, score, filter, ef, layer, ep, visited, out) && visited <= reach && ef >= 1
    requires IsReach(nodes, layer, ep, reach) && q in reach && Admissible(nodes, q, filter)
    ensures out != []
  {
    if |out| < ef {
      BeamAll(nodes, score, filter, ef, layer, ep, visited, out, reach);
      assert Cand(score, q) in Elems(out);
    }
  }

  /** Cutting the results to k leaves the outcome of a search with room for k. */
  lemma BeamCut(nodes: Nodes, score: Score, filter: Filter, ef: nat, k: nat, layer: nat, ep: nat,
                visited: set<nat>, out: seq<Candidate>)
    requires Beam(nodes, score, filter, ef, layer, ep, visited, out) && k <= ef
    ensures Beam(nodes, score, filter, k, layer, ep, visited, if |out| > k then out[..k] else out)
  {
    var cut := if |out| > k then out[..k] else out;
    forall v: nat ensures LeftOut(nodes, score, filter, k, visited, cut, v) {
      assert LeftOut(nodes, score, filter, ef, visited, out, v);
      if Cand(score, v) in out && Cand(score, v) !in cut {
        var j :| 0 <= j < |out| && out[j] == Cand(score, v);
        InPrefix(out, |cut|, j);
      }
    }
    forall v: nat ensures Followed(nodes, score, layer, k, visited, cut, v) {
      assert Followed(nodes, score, layer, ef, visited, out, v);
      if cut != [] && |cut| < |out| {
        assert Before(out[|cut| - 1], out[|out| - 1]);
      }
    }
  }

  lemma HuntIsBeam(nodes: Nodes, score: Score, filter: Filter, ef: nat, layer: nat, ep: nat, inside: set<nat>, h: Hunt,
                   out: seq<Candidate>)
    requires HuntOk(nodes, score, filter, ef, inside, h) && AllDone(nodes, score, layer, ef, h) && ep in h.visited
    requires Lists(out, h.results) && Ranked(out)
    ensures Beam(nodes, score, filter, ef, layer, ep, h.visited, out)
  {
    ListsFacts(out, h.results);
    forall v: nat ensures LeftOut(nodes, score, filter, ef, h.visited, out, v) {
      assert KeptOrBeaten(nodes, score, filter, ef, h, v);
    }
    forall v: nat ensures Followed(nodes, score, layer, ef, h.visited, out, v) {
      assert Done(nodes, score, layer, ef, h, v);
    }
  }

  /** The best-first search. */
  method SearchLayer(nodes: Nodes, score: Score, ep: nat, ef: nat, layer: nat, filter: Filter, ghost inside: set<nat>)
    returns (out: seq<Candidate>, ghost visited: set<nat>)
    requires ef >= 1 && ep in inside && Closed(nodes, layer, inside)
    ensures visited <= inside && Beam(nodes, score, filter, ef, layer, ep, visited, out)
  {
    var results;
    ghost var h;
    results, h := Explore(nodes, score, ep, ef, layer, filter, inside);
    SortRanked(results, h.results);
    out := Sort(results);
    visited := h.visited;
    HuntIsBeam(nodes, score, filter, ef, layer, ep, inside, h, out);
  }
}
