/**
  The shape of an HNSW graph (index/hnsw.go): degree bounds, no self-loops or repeated
  edges, neighbours tall enough for their layer; and the edits that keep it.
 */
module HnswGraph {
  import opened Prelude
  import opened Ranking
  import opened Vectors
  import opened HnswSearch
  import opened HnswLinks

  /** The degree bound of a layer. */
  function Cap(m: nat, m0: nat, layer: nat): nat {
    if layer == 0 then m0 else m
  }

  predicate Reaches(nodes: Nodes, q: nat, layer: nat) {
    q in nodes && nodes[q].maxLevel >= layer
  }

  ghost predicate GoodList(nodes: Nodes, p: nat, layer: nat, cap: nat, l: seq<nat>) {
    && |l| <= cap && NoDup(l)
    && forall j :: 0 <= j < |l| ==> l[j] != p && Reaches(nodes, l[j], layer)
  }

  ghost predicate ListOk(nodes: Nodes, m: nat, m0: nat, p: nat, layer: nat) {
    GoodList(nodes, p, layer, Cap(m, m0, layer), Nbrs(nodes, p, layer))
  }

  predicate Sized(nodes: Nodes, p: nat) {
    p in nodes ==> |nodes[p].neighbors| == nodes[p].maxLevel + 1
  }

  ghost predicate GraphOk(nodes: Nodes, m: nat, m0: nat) {
    && (forall p: nat :: Sized(nodes, p))
    && (forall p: nat, l: nat :: ListOk(nodes, m, m0, p, l))
  }

  predicate Live(nodes: Nodes, p: nat) {
    p in nodes && !nodes[p].deleted
  }

  /** The entrypoint is a live node at the top layer, or absent exactly when nothing is
      live. */
  ghost predicate EntryOk(nodes: Nodes, entry: nat, maxLayer: int) {
    && INVALID_POS !in nodes
    && if entry == INVALID_POS then maxLayer == -1 && forall p :: !Live(nodes, p)
       else Live(nodes, entry) && nodes[entry].maxLevel == maxLayer
  }

  /** Same nodes, levels and tombstones; only edges may differ. */
  ghost predicate SameNodes(a: Nodes, b: Nodes) {
    && a.Keys == b.Keys
    && forall p :: p in a ==> a[p].maxLevel == b[p].maxLevel && a[p].deleted == b[p].deleted
  }

  /** Base-layer lists hold at most m0 neighbours, the lists above at most m, all distinct
      and none the node itself. */
  lemma DegreeBounds(nodes: Nodes, m: nat, m0: nat, p: nat, l: nat)
    requires GraphOk(nodes, m, m0)
    ensures |Nbrs(nodes, p, l)| <= (if l == 0 then m0 else m) && NoDup(Nbrs(nodes, p, l)) && p !in Nbrs(nodes, p, l)
    ensures forall q :: q in Nbrs(nodes, p, l) ==> q in nodes && nodes[q].maxLevel >= l
  {
    assert ListOk(nodes, m, m0, p, l);
  }

  // ---- edits ----

  function WithNode(nodes: Nodes, pos: nat, level: nat): Nodes {
    nodes[pos := Node(level, seq(level + 1, i => []), false)]
  }

  function WithList(nodes: Nodes, p: nat, layer: nat, l: seq<nat>): Nodes
    requires p in nodes && layer < |nodes[p].neighbors|
  {
    nodes[p := nodes[p].(neighbors := nodes[p].neighbors[layer := l])]
  }

  /** No node lists pos at the layer. */
  ghost predicate Unlisted(nodes: Nodes, pos: nat, layer: nat) {
    forall p: nat :: pos !in Nbrs(nodes, p, layer)
  }

  lemma AddNode(nodes: Nodes, m: nat, m0: nat, pos: nat, level: nat)
    requires GraphOk(nodes, m, m0) && pos !in nodes
    ensures var now := WithNode(nodes, pos, level);
            && GraphOk(now, m, m0)
            && (forall l: nat :: Unlisted(now, pos, l) && Nbrs(now, pos, l) == [])
            && (forall p: nat, l: nat :: Nbrs(now, p, l) == Nbrs(nodes, p, l))
  {
    var now := WithNode(nodes, pos, level);
    forall p: nat ensures Sized(now, p) {
      assert Sized(nodes, p);
    }
    forall p: nat, l: nat
      ensures Nbrs(now, p, l) == Nbrs(nodes, p, l) && pos !in Nbrs(now, p, l) && ListOk(now, m, m0, p, l)
    {
      assert ListOk(nodes, m, m0, p, l);
    }
  }

  lemma SetList(nodes: Nodes, m: nat, m0: nat, p: nat, layer: nat, l: seq<nat>)
    requires GraphOk(nodes, m, m0) && Reaches(nodes, p, layer)
    requires layer < |nodes[p].neighbors| && GoodList(nodes, p, layer, Cap(m, m0, layer), l)
    ensures var now := WithList(nodes, p, layer, l);
            && GraphOk(now, m, m0) && SameNodes(nodes, now)
            && (forall q: nat, k: nat :: Nbrs(now, q, k) == if q == p && k == layer then l else Nbrs(nodes, q, k))
  {
    var now := WithList(nodes, p, layer, l);
    forall q: nat ensures Sized(now, q) {
      assert Sized(nodes, q);
    }
    forall q: nat, k: nat
      ensures Nbrs(now, q, k) == (if q == p && k == layer then l else Nbrs(nodes, q, k)) && ListOk(now, m, m0, q, k)
    {
      assert ListOk(nodes, m, m0, q, k);
    }
  }

  /** Tombstoning changes no edge. */
  lemma Tombstone(nodes: Nodes, m: nat, m0: nat, p: nat)
    requires GraphOk(nodes, m, m0) && p in nodes
    ensures GraphOk(nodes[p := nodes[p].(deleted := true)], m, m0)
  {
    var now := nodes[p := nodes[p].(deleted := true)];
    forall q: nat ensures Sized(now, q) {
      assert Sized(nodes, q);
    }
    forall q: nat, k: nat ensures ListOk(now, m, m0, q, k) {
      assert ListOk(nodes, m, m0, q, k);
    }
  }

  // ---- offering a link ----

  /** A list that is offered a new neighbour takes it while there is room; when full it
      stays full, with members from what it had and the newcomer. */
  lemma RelinkGood(space: Space, naive: bool, nodes: Nodes, dst: nat, layer: nat, cap: nat, l: seq<nat>, src: nat)
    requires GoodList(nodes, dst, layer, cap, l) && Reaches(nodes, src, layer) && src != dst
    ensures var r := Relink(space, naive, dst, l, src, cap);
            && GoodList(nodes, dst, layer, cap, r)
            && |r| == (if src in l then |l| else Min(cap, |l| + 1))
            && forall j :: 0 <= j < |r| ==> r[j] in l || r[j] == src
  {
    if src !in l && |l| + 1 > cap {
      var all := l + [src];
      assert NoDup(all);
      PruneChosen(space, naive, dst, all, cap);
      var r := Relink(space, naive, dst, l, src, cap);
      forall j | 0 <= j < |r| ensures r[j] != dst && Reaches(nodes, r[j], layer) && (r[j] in l || r[j] == src) {
        assert r[j] in all;
      }
    }
  }

  // ---- what an insertion does to every list ----

  /** At this layer, exactly the new node's neighbours were offered a link back to it. */
  ghost predicate Joined(space: Space, naive: bool, cap: nat, was: Nodes, now: Nodes, pos: nat, p: nat, layer: nat) {
    p != pos ==>
      Nbrs(now, p, layer) ==
      if p in Nbrs(now, pos, layer) then Relink(space, naive, p, Nbrs(was, p, layer), pos, cap) else Nbrs(was, p, layer)
  }

  // ---- where searches stay ----

  /** The nodes of a layer other than pos. */
  ghost function Tall(nodes: Nodes, layer: nat, pos: nat): set<nat> {
    set q | q in nodes && q != pos && nodes[q].maxLevel >= layer
  }

  lemma TallClosed(nodes: Nodes, m: nat, m0: nat, layer: nat, pos: nat)
    requires GraphOk(nodes, m, m0) && Unlisted(nodes, pos, layer)
    ensures Closed(nodes, layer, Tall(nodes, layer, pos))
  {
    var s := Tall(nodes, layer, pos);
    forall p | p in s ensures StaysIn(nodes, layer, s, p) {
      assert ListOk(nodes, m, m0, p, layer);
      var l := Nbrs(nodes, p, layer);
      forall j | 0 <= j < |l| ensures l[j] in s {
        assert l[j] in l && Reaches(nodes, l[j], layer);
      }
    }
  }

  // ---- reachability ----

  /** What can be reached from ep at the layer: the meet of the closed sets around it. */
  ghost function Reach(nodes: Nodes, layer: nat, ep: nat): set<nat> {
    set q | q in nodes.Keys && forall s: set<nat> :: ep in s && Closed(nodes, layer, s) ==> q in s
  }

  lemma ReachIs(nodes: Nodes, m: nat, m0: nat, layer: nat, ep: nat)
    requires GraphOk(nodes, m, m0) && ep in nodes
    ensures IsReach(nodes, layer, ep, Reach(nodes, layer, ep))
  {
    var r := Reach(nodes, layer, ep);
    forall p | p in r ensures StaysIn(nodes, layer, r, p) {
      assert ListOk(nodes, m, m0, p, layer);
      var l := Nbrs(nodes, p, layer);
      forall j | 0 <= j < |l| ensures l[j] in r {
        assert Reaches(nodes, l[j], layer);
        forall s | ep in s && Closed(nodes, layer, s) ensures l[j] in s {
          assert StaysIn(nodes, layer, s, p);
        }
      }
    }
  }

  /** Searches of a layer stay among its nodes and away from one that nobody lists. */
  lemma ReachTall(nodes: Nodes, m: nat, m0: nat, layer: nat, pos: nat, ep: nat)
    requires GraphOk(nodes, m, m0) && Unlisted(nodes, pos, layer) && ep in Tall(nodes, layer, pos)
    ensures Reach(nodes, layer, ep) <= Tall(nodes, layer, pos)
  {
    TallClosed(nodes, m, m0, layer, pos);
    ReachIs(nodes, m, m0, layer, ep);
  }

  /** What is within reach depends on the edges of the layer alone. */
  lemma ReachSame(a: Nodes, b: Nodes, layer: nat, ep: nat)
    requires a.Keys == b.Keys && forall p: nat :: Nbrs(a, p, layer) == Nbrs(b, p, layer)
    ensures Reach(a, layer, ep) == Reach(b, layer, ep)
  {
    forall s: set<nat> ensures Closed(a, layer, s) <==> Closed(b, layer, s) {
      assert forall p :: StaysIn(a, layer, s, p) == StaysIn(b, layer, s, p);
    }
  }

  /** So does the outcome of a search, given the same nodes and tombstones. */
  lemma BeamSame(a: Nodes, b: Nodes, score: Score, filter: Filter, ef: nat, layer: nat, ep: nat,
                 visited: set<nat>, out: seq<Candidate>)
    requires SameNodes(a, b) && forall p: nat :: Nbrs(a, p, layer) == Nbrs(b, p, layer)
    requires Beam(a, score, filter, ef, layer, ep, visited, out)
    ensures Beam(b, score, filter, ef, layer, ep, visited, out)
  {
    assert forall p :: Admissible(a, p, filter) == Admissible(b, p, filter);
    assert Answers(a, score, filter, visited) == Answers(b, score, filter, visited);
    forall v: nat ensures LeftOut(b, score, filter, ef, visited, out, v) {
      assert LeftOut(a, score, filter, ef, visited, out, v);
    }
    forall v: nat ensures Followed(b, score, layer, ef, visited, out, v) {
      assert Followed(a, score, layer, ef, visited, out, v) && Nbrs(a, v, layer) == Nbrs(b, v, layer);
      assert StaysIn(a, layer, visited, v) == StaysIn(b, layer, visited, v);
    }
  }

  // ---- choosing a new node's neighbours ----

  /** The search behind the new node's list at a layer. */
  datatype Probe = Probe(ep: nat, visited: set<nat>, cands: seq<Candidate>) {
    /** Where the search of the next layer down starts. */
    function Next(): nat {
      if cands != [] then cands[0].pos else ep
    }
  }

  /** A search over what is within reach of its entry. */
  ghost predicate Probed(nodes: Nodes, score: Score, ef: nat, layer: nat, t: Probe) {
    t.visited <= Reach(nodes, layer, t.ep) && Beam(nodes, score, None, ef, layer, t.ep, t.visited, t.cands)
  }

  lemma ProbedSame(a: Nodes, b: Nodes, score: Score, ef: nat, layer: nat, t: Probe)
    requires SameNodes(a, b) && forall p: nat :: Nbrs(a, p, layer) == Nbrs(b, p, layer)
    requires Probed(a, score, ef, layer, t)
    ensures Probed(b, score, ef, layer, t)
  {
    ReachSame(a, b, layer, t.ep);
    BeamSame(a, b, score, None, ef, layer, t.ep, t.visited, t.cands);
  }

  /** The search finds live nodes of the layer, and goes on from one of its nodes. */
  lemma ProbedLive(nodes: Nodes, m: nat, m0: nat, score: Score, ef: nat, pos: nat, layer: nat, t: Probe)
    requires GraphOk(nodes, m, m0) && Unlisted(nodes, pos, layer) && t.ep in Tall(nodes, layer, pos)
    requires Probed(nodes, score, ef, layer, t)
    ensures Scored(t.cands, score) && t.Next() in Tall(nodes, layer, pos)
    ensures forall i :: 0 <= i < |t.cands| ==> t.cands[i].pos in Tall(nodes, layer, pos) && Live(nodes, t.cands[i].pos)
  {
    ReachTall(nodes, m, m0, layer, pos, t.ep);
    forall i | 0 <= i < |t.cands|
      ensures && t.cands[i] == Cand(score, t.cands[i].pos)
              && t.cands[i].pos in Tall(nodes, layer, pos) && Live(nodes, t.cands[i].pos)
    {
      assert t.cands[i] in Elems(t.cands);
    }
    RankedScored(t.cands, score);
  }

  /** The search of the next layer starts at the nearest node found, or where this one did
      if it found none. */
  lemma ProbedNext(nodes: Nodes, score: Score, ef: nat, layer: nat, t: Probe, c: Candidate)
    requires Probed(nodes, score, ef, layer, t)
    ensures t.cands == [] ==> t.Next() == t.ep
    ensures c in t.cands ==> Cand(score, t.Next()) in t.cands && score(t.Next()) <= c.dist
  {
    if c in t.cands {
      assert t.cands[0] in Elems(t.cands);
      var i :| 0 <= i < |t.cands| && t.cands[i] == c;
      assert i > 0 ==> Before(t.cands[0], t.cands[i]);
    }
  }

  /** A list selected from what the search found is fit for the new node. */
  lemma ProbedGood(space: Space, naive: bool, m: nat, m0: nat, nodes: Nodes, score: Score, ef: nat, pos: nat,
                   layer: nat, t: Probe)
    requires GraphOk(nodes, m, m0) && Unlisted(nodes, pos, layer) && t.ep in Tall(nodes, layer, pos)
    requires Probed(nodes, score, ef, layer, t)
    ensures GoodList(nodes, pos, layer, Cap(m, m0, layer), Select(space, naive, t.cands, Cap(m, m0, layer)))
    ensures forall q :: q in Select(space, naive, t.cands, Cap(m, m0, layer)) ==> Live(nodes, q)
  {
    var list := Select(space, naive, t.cands, Cap(m, m0, layer));
    ProbedLive(nodes, m, m0, score, ef, pos, layer, t);
    SelectChosen(space, naive, score, t.cands, Cap(m, m0, layer));
    forall j | 0 <= j < |list| ensures list[j] != pos && Reaches(nodes, list[j], layer) && Live(nodes, list[j]) {
      assert Among(t.cands, |t.cands|, list[j]);
    }
  }

  /** The search finds something, and something is selected, whenever a live node is
      within reach of its entry. */
  lemma ProbedSome(space: Space, naive: bool, m: nat, m0: nat, nodes: Nodes, score: Score, ef: nat, layer: nat,
                   t: Probe, q: nat)
    requires GraphOk(nodes, m, m0) && Probed(nodes, score, ef, layer, t) && ef >= 1 && Cap(m, m0, layer) >= 1
    requires q in Reach(nodes, layer, t.ep) && Live(nodes, q)
    ensures t.cands != [] && Select(space, naive, t.cands, Cap(m, m0, layer)) != []
  {
    assert t.ep in Reach(nodes, layer, t.ep);
    ReachIs(nodes, m, m0, layer, t.ep);
    BeamFinds(nodes, score, None, ef, layer, t.ep, t.visited, t.cands, Reach(nodes, layer, t.ep), q);
    forall i | 0 <= i < |t.cands| ensures t.cands[i] == Cand(score, t.cands[i].pos) {
      assert t.cands[i] in Elems(t.cands);
    }
    RankedScored(t.cands, score);
    SelectChosen(space, naive, score, t.cands, Cap(m, m0, layer));
  }
}
