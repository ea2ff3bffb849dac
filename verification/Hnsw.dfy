/** The HNSW index (index/hnsw.go). */
module Hnsw {
  import opened Prelude
  import opened Ranking
  import opened Vectors
  import opened HnswSearch
  import opened HnswLinks
  import opened HnswGraph
  import Flat

  // ---- the effect of one insertion ----

  /** The fixed surroundings of an insertion: geometry, mode, bounds and beam width. */
  datatype Setup = Setup(space: Space, naive: bool, m: nat, m0: nat, ef: nat) {
    function CapAt(layer: nat): nat {
      Cap(m, m0, layer)
    }

    function ScoreFor(pos: nat): Score {
      space.From(space.At(pos))
    }
  }

  /** The same, but for the vectors stored. */
  datatype BuildRules = BuildRules(dist: Distance, naive: bool, m: nat, m0: nat, ef: nat) {
    function With(vecs: map<nat, Vec>): Setup {
      Setup(Space(vecs, dist), naive, m, m0, ef)
    }
  }

  /** While layers above `layer` are done and the rest untouched. */
  ghost predicate Settled(s: Setup, base: Nodes, now: Nodes, pos: nat, layer: int, p: nat, l: nat) {
    if l <= layer then Nbrs(now, p, l) == Nbrs(base, p, l)
    else Joined(s.space, s.naive, s.CapAt(l), base, now, pos, p, l)
  }

  /** A list selected from what a search of the layer found. */
  ghost predicate PickedAt(s: Setup, base: Nodes, pos: nat, l: nat, list: seq<nat>, t: Probe) {
    Probed(base, s.ScoreFor(pos), s.ef, l, t) && list == Select(s.space, s.naive, t.cands, s.CapAt(l))
  }

  /** The entry of the i-th search: where the descent ended, then where the search of the
      layer above found the nearest. */
  function EntryOf(ep: nat, trace: seq<Probe>, i: nat): nat
    requires i <= |trace|
  {
    if i == 0 then ep else trace[i - 1].Next()
  }

  /** The i-th search, of layer top - i, gave the new node's list there. */
  ghost predicate Picked(s: Setup, base: Nodes, now: Nodes, pos: nat, top: int, ep: nat, trace: seq<Probe>, i: nat) {
    i < |trace| && i <= top ==>
      trace[i].ep == EntryOf(ep, trace, i) && PickedAt(s, base, pos, top - i, Nbrs(now, pos, top - i), trace[i])
  }

  /** The new node has no list at a layer not yet done, nor above those it joins. */
  ghost predicate Bare(now: Nodes, pos: nat, top: int, layer: int, l: nat) {
    layer < l <= top || Nbrs(now, pos, l) == []
  }

  /** The layers from top down to just above `layer` are done. */
  ghost predicate Linking(s: Setup, base: Nodes, now: Nodes, pos: nat, top: int, layer: int, ep: nat,
                          trace: seq<Probe>) {
    && SameNodes(base, now) && GraphOk(now, s.m, s.m0) && |trace| == top - layer && layer >= -1
    && (forall p: nat, l: nat :: Settled(s, base, now, pos, layer, p, l))
    && (forall l: nat :: Bare(now, pos, top, layer, l))
    && (forall i: nat :: Picked(s, base, now, pos, top, ep, trace, i))
  }

  /** A graph and where searches of it start. */
  datatype Graph = Graph(nodes: Nodes, entry: nat, maxLayer: int) {
    /** Where the greedy descent to a layer ends. */
    ghost function Landing(score: Score, floor: nat): nat {
      Descent(nodes, score, entry, maxLayer, floor)
    }
  }

  /** A fresh node has been linked into the graph: the layers it joins were searched from
      the top down, from where the greedy descent ended and then from the nearest node
      found above; it took the neighbours selected from what each search found, each of
      them was offered the link back, and no other list, level or tombstone changed. */
  ghost predicate Inserted(s: Setup, was: Graph, now: Nodes, pos: nat, level: nat) {
    var base := WithNode(was.nodes, pos, level);
    var top := Min(level, was.maxLayer);
    exists trace: seq<Probe> ::
      Linking(s, base, now, pos, top, -1, was.(nodes := base).Landing(s.ScoreFor(pos), level), trace)
  }

  /** The graph once a node has been linked in: its entry rises exactly when the node is the
      first or the highest. */
  function Raised(was: Graph, now: Nodes, pos: nat, level: nat): Graph {
    if was.entry == INVALID_POS || level > was.maxLayer then Graph(now, pos, level)
    else Graph(now, was.entry, was.maxLayer)
  }

  lemma LinkStart(s: Setup, base: Nodes, pos: nat, top: int, ep: nat)
    requires GraphOk(base, s.m, s.m0) && (forall l: nat :: Nbrs(base, pos, l) == []) && top >= -1
    ensures Linking(s, base, base, pos, top, top, ep, [])
  {
  }

  lemma LinkEnd(s: Setup, was: Graph, now: Nodes, pos: nat, level: nat, trace: seq<Probe>)
    requires var base := WithNode(was.nodes, pos, level);
             Linking(s, base, now, pos, Min(level, was.maxLayer), -1,
                     was.(nodes := base).Landing(s.ScoreFor(pos), level), trace)
    ensures Inserted(s, was, now, pos, level)
  {
  }

  /** One more layer done. */
  lemma LinkLayer(s: Setup, base: Nodes, was: Nodes, now: Nodes, pos: nat, top: int, ep: nat, trace: seq<Probe>,
                  layer: nat, t: Probe)
    requires Linking(s, base, was, pos, top, layer, ep, trace)
    requires SameNodes(was, now) && GraphOk(now, s.m, s.m0)
    requires forall p: nat, l: nat :: l != layer ==> Nbrs(now, p, l) == Nbrs(was, p, l)
    requires forall p: nat :: Joined(s.space, s.naive, s.CapAt(layer), was, now, pos, p, layer)
    requires t.ep == EntryOf(ep, trace, |trace|) && PickedAt(s, was, pos, layer, Nbrs(now, pos, layer), t)
    ensures Linking(s, base, now, pos, top, layer - 1, ep, trace + [t])
  {
    var below, trace' := layer - 1, trace + [t];
    forall p: nat, l: nat ensures Settled(s, base, now, pos, below, p, l) {
      assert Settled(s, base, was, pos, layer, p, l);
      assert Settled(s, base, was, pos, layer, pos, l);
      assert Joined(s.space, s.naive, s.CapAt(layer), was, now, pos, p, layer);
      assert l != layer ==> Nbrs(now, p, l) == Nbrs(was, p, l) && Nbrs(now, pos, l) == Nbrs(was, pos, l);
    }
    forall l: nat ensures Bare(now, pos, top, below, l) {
      assert Bare(was, pos, top, layer, l);
      assert l != layer ==> Nbrs(now, pos, l) == Nbrs(was, pos, l);
    }
    forall p: nat ensures Nbrs(was, p, layer) == Nbrs(base, p, layer) {
      assert Settled(s, base, was, pos, layer, p, layer);
    }
    ProbedSame(was, base, s.ScoreFor(pos), s.ef, layer, t);
    forall i: nat ensures Picked(s, base, now, pos, top, ep, trace', i) {
      PickedMore(s, base, was, now, pos, top, ep, trace, t, i);
    }
  }

  lemma PickedMore(s: Setup, base: Nodes, was: Nodes, now: Nodes, pos: nat, top: int, ep: nat, trace: seq<Probe>,
                   t: Probe, i: nat)
    requires |trace| <= top && Picked(s, base, was, pos, top, ep, trace, i)
    requires forall l: nat :: l != top - |trace| ==> Nbrs(now, pos, l) == Nbrs(was, pos, l)
    requires t.ep == EntryOf(ep, trace, |trace|)
    requires PickedAt(s, base, pos, top - |trace|, Nbrs(now, pos, top - |trace|), t)
    ensures Picked(s, base, now, pos, top, ep, trace + [t], i)
  {
    if i <= |trace| {
      assert EntryOf(ep, trace + [t], i) == EntryOf(ep, trace, i);
    }
  }

  /** At this layer the nodes of `asked` were offered a link to pos and no others. */
  ghost predicate Offered(space: Space, naive: bool, cap: nat, was: Nodes, now: Nodes, pos: nat, p: nat, layer: nat,
                          asked: seq<nat>) {
    p != pos ==>
      Nbrs(now, p, layer) ==
      if p in asked then Relink(space, naive, p, Nbrs(was, p, layer), pos, cap) else Nbrs(was, p, layer)
  }

  lemma OfferedNext(space: Space, naive: bool, cap: nat, was: Nodes, mid: Nodes, now: Nodes, pos: nat, layer: nat,
                    asked: seq<nat>, q: nat)
    requires q !in asked && q != pos
    requires forall p: nat :: Offered(space, naive, cap, was, mid, pos, p, layer, asked)
    requires forall p: nat :: p != q ==> Nbrs(now, p, layer) == Nbrs(mid, p, layer)
    requires Nbrs(now, q, layer) == Relink(space, naive, q, Nbrs(mid, q, layer), pos, cap)
    ensures forall p: nat :: Offered(space, naive, cap, was, now, pos, p, layer, asked + [q])
  {
    forall p: nat ensures Offered(space, naive, cap, was, now, pos, p, layer, asked + [q]) {
      assert Offered(space, naive, cap, was, mid, pos, p, layer, asked);
    }
  }

  class HNSW {
    const dim: nat
    const dist: Distance
    var m: nat
    var m0: nat
    var efConstruction: nat
    var naiveSelect: bool
    var nodes: Nodes
    var vecs: map<nat, Vec>
    var entrypoint: nat
    var maxLayer: int
    var closed: bool

    ghost predicate Bounds()
      reads this
    {
      m >= 1 && m0 >= 1 && efConstruction >= 1
    }

    ghost predicate Valid()
      reads this
    {
      && Bounds() && vecs.Keys == nodes.Keys && GraphOk(nodes, m, m0)
      && (closed || EntryOk(nodes, entrypoint, maxLayer))
    }

    function TheSpace(): Space
      reads this
    {
      Space(vecs, dist)
    }

    function TheSetup(): Setup
      reads this
    {
      Setup(TheSpace(), naiveSelect, m, m0, efConstruction)
    }

    function Rules(): BuildRules
      reads this
    {
      BuildRules(dist, naiveSelect, m, m0, efConstruction)
    }

    function TheGraph(): Graph
      reads this
    {
      Graph(nodes, entrypoint, maxLayer)
    }

    constructor (d: nat, distance: Distance, degree: int, degree0: int, beam: int, naive: bool)
      ensures Valid() && nodes == map[] && !closed && dim == d && dist == distance
      ensures m == (if degree > 0 then degree else 16) && m0 == (if degree0 > 0 then degree0 else 2 * m)
      ensures efConstruction == (if beam > 0 then beam else 200) && naiveSelect == naive
    {
      dim, dist := d, distance;
      m := Defaulted(degree, 16);
      m0 := Defaulted(degree0, 2 * Defaulted(degree, 16));
      efConstruction := Defaulted(beam, 200);
      naiveSelect := naive;
      nodes, vecs, entrypoint, maxLayer, closed := map[], map[], INVALID_POS, -1, false;
    }

    method PruneNeighbors(p: nat, l: seq<nat>, cap: nat) returns (r: seq<nat>)
      ensures r == Prune(TheSpace(), naiveSelect, p, l, cap)
    {
      var score := TheSpace().From(TheSpace().At(p));
      var cands: seq<Candidate> := [];
      var i := 0;
      while i < |l|
        invariant 0 <= i <= |l| && cands == Measure(score, l[..i])
      {
        cands := cands + [Cand(score, l[i])];
        i := i + 1;
      }
      assert l[..i] == l;
      r := SelectNeighbors(TheSpace(), naiveSelect, Sort(cands), cap);
    }

    /** Offers src to dst's list at the layer; nothing else changes. */
    method LinkBack(dst: nat, src: nat, layer: nat, maxM: nat)
      requires GraphOk(nodes, m, m0) && Reaches(nodes, src, layer) && src != dst && maxM == Cap(m, m0, layer)
      modifies this`nodes
      ensures GraphOk(nodes, m, m0) && SameNodes(old(nodes), nodes)
      ensures forall q: nat, k: nat :: q != dst || k != layer ==> Nbrs(nodes, q, k) == Nbrs(old(nodes), q, k)
      ensures Reaches(old(nodes), dst, layer) ==>
        Nbrs(nodes, dst, layer) == Relink(TheSpace(), naiveSelect, dst, Nbrs(old(nodes), dst, layer), src, maxM)
      ensures !Reaches(old(nodes), dst, layer) ==> nodes == old(nodes)
    {
      if !Reaches(nodes, dst, layer) {
        return;
      }
      assert Sized(nodes, dst) && ListOk(nodes, m, m0, dst, layer);
      var existing := nodes[dst].neighbors[layer];
      var i := 0;
      while i < |existing|
        invariant 0 <= i <= |existing| && src !in existing[..i]
      {
        if existing[i] == src {
          return;
        }
        i := i + 1;
      }
      assert existing[..i] == existing;
      RelinkGood(TheSpace(), naiveSelect, nodes, dst, layer, maxM, existing, src);
      existing := existing + [src];
      if |existing| > maxM {
        existing := PruneNeighbors(dst, existing, maxM);
      }
      SetList(nodes, m, m0, dst, layer, existing);
      nodes := WithList(nodes, dst, layer, existing);
    }

    /** Chooses neighbours for the new node from a beam search of the layer. */
    method ChooseNeighbors(pos: nat, ep: nat, layer: nat) returns (neighbors: seq<nat>, next: nat, ghost t: Probe)
      requires Bounds() && GraphOk(nodes, m, m0) && Unlisted(nodes, pos, layer) && ep in Tall(nodes, layer, pos)
      ensures GoodList(nodes, pos, layer, Cap(m, m0, layer), neighbors)
      ensures PickedAt(TheSetup(), nodes, pos, layer, neighbors, t)
      ensures t.ep == ep && next == t.Next() && next in Tall(nodes, layer, pos)
    {
      var maxM := Cap(m, m0, layer);
      var score := TheSetup().ScoreFor(pos);
      ReachIs(nodes, m, m0, layer, ep);
      var candidates: seq<Candidate>;
      ghost var visited;
      candidates, visited := SearchLayer(nodes, score, ep, efConstruction, layer, None, Reach(nodes, layer, ep));
      neighbors := SelectNeighbors(TheSpace(), naiveSelect, candidates, maxM);
      next := if |candidates| > 0 then candidates[0].pos else ep;
      t := Probe(ep, visited, candidates);
      ProbedLive(nodes, m, m0, score, efConstruction, pos, layer, t);
      ProbedGood(TheSpace(), naiveSelect, m, m0, nodes, score, efConstruction, pos, layer, t);
    }

    /** Links the new node at one layer: it takes the chosen neighbours and each is offered
        the link back. */
    method ConnectLayer(pos: nat, ep: nat, layer: nat) returns (next: nat, ghost t: Probe)
      requires Bounds() && GraphOk(nodes, m, m0) && Reaches(nodes, pos, layer)
      requires Unlisted(nodes, pos, layer) && ep in Tall(nodes, layer, pos)
      modifies this`nodes
      ensures GraphOk(nodes, m, m0) && SameNodes(old(nodes), nodes)
      ensures forall p: nat, k: nat :: k != layer ==> Nbrs(nodes, p, k) == Nbrs(old(nodes), p, k)
      ensures forall p: nat :: Joined(TheSpace(), naiveSelect, Cap(m, m0, layer), old(nodes), nodes, pos, p, layer)
      ensures PickedAt(TheSetup(), old(nodes), pos, layer, Nbrs(nodes, pos, layer), t)
      ensures t.ep == ep && next == t.Next() && next in Tall(nodes, layer, pos)
    {
      var neighbors;
      neighbors, next, t := ChooseNeighbors(pos, ep, layer);
      assert Sized(nodes, pos);
      SetList(nodes, m, m0, pos, layer, neighbors);
      nodes := WithList(nodes, pos, layer, neighbors);
      ghost var mid := nodes;
      LinkAll(pos, layer, neighbors);
      forall p: nat
        ensures Joined(TheSpace(), naiveSelect, Cap(m, m0, layer), old(nodes), nodes, pos, p, layer)
      {
        assert Joined(TheSpace(), naiveSelect, Cap(m, m0, layer), mid, nodes, pos, p, layer);
      }
    }

    /** Offers the new node to each of its neighbours. */
    method LinkAll(pos: nat, layer: nat, neighbors: seq<nat>)
      requires GraphOk(nodes, m, m0) && Reaches(nodes, pos, layer) && Nbrs(nodes, pos, layer) == neighbors
      modifies this`nodes
      ensures GraphOk(nodes, m, m0) && SameNodes(old(nodes), nodes) && Nbrs(nodes, pos, layer) == neighbors
      ensures forall p: nat, k: nat :: k != layer ==> Nbrs(nodes, p, k) == Nbrs(old(nodes), p, k)
      ensures forall p: nat :: Joined(TheSpace(), naiveSelect, Cap(m, m0, layer), old(nodes), nodes, pos, p, layer)
    {
      var maxM := Cap(m, m0, layer);
      ghost var space := TheSpace();
      assert ListOk(nodes, m, m0, pos, layer);
      var j := 0;
      while j < |neighbors|
        invariant 0 <= j <= |neighbors| && TheSpace() == space
        invariant GraphOk(nodes, m, m0) && SameNodes(old(nodes), nodes) && Nbrs(nodes, pos, layer) == neighbors
        invariant forall p: nat, k: nat :: k != layer ==> Nbrs(nodes, p, k) == Nbrs(old(nodes), p, k)
        invariant forall p: nat :: Offered(space, naiveSelect, maxM, old(nodes), nodes, pos, p, layer, neighbors[..j])
      {
        ghost var before := nodes;
        LinkBack(neighbors[j], pos, layer, maxM);
        OfferedNext(space, naiveSelect, maxM, old(nodes), before, nodes, pos, layer, neighbors[..j], neighbors[j]);
        assert neighbors[..j + 1] == neighbors[..j] + [neighbors[j]];
        j := j + 1;
      }
      assert neighbors[..j] == neighbors;
      forall p: nat ensures Joined(space, naiveSelect, maxM, old(nodes), nodes, pos, p, layer) {
        assert Offered(space, naiveSelect, maxM, old(nodes), nodes, pos, p, layer, neighbors);
      }
    }

    /** The greedy walk of one layer. */
    method DescendLayer(score: Score, ep: nat, layer: nat, ghost pos: nat) returns (cur: nat)
      requires GraphOk(nodes, m, m0) && Unlisted(nodes, pos, layer) && ep in Tall(nodes, layer, pos) && layer > 0
      ensures cur in Tall(nodes, layer - 1, pos) && score(cur) <= score(ep) && LocalBest(nodes, layer, score, cur)
      ensures cur == Greedy(nodes, score, ep, layer)
    {
      TallClosed(nodes, m, m0, layer, pos);
      cur := GreedyDescend(nodes, score, ep, layer, Tall(nodes, layer, pos));
    }

    /** Greedy descent from the entrypoint through the layers above floor. */
    method Descend(score: Score, floor: nat, ghost pos: nat) returns (cur: nat)
      requires GraphOk(nodes, m, m0) && EntryOk(nodes, entrypoint, maxLayer)
      requires entrypoint != INVALID_POS && entrypoint != pos && forall l: nat :: Unlisted(nodes, pos, l)
      ensures cur in Tall(nodes, Min(floor, maxLayer), pos)
      ensures Landed(nodes, score, entrypoint, maxLayer, floor, cur)
    {
      cur := entrypoint;
      var layer := maxLayer;
      while layer > floor
        invariant Min(floor, maxLayer) <= layer <= maxLayer && cur in Tall(nodes, layer, pos)
        invariant Landed(nodes, score, entrypoint, maxLayer, Max(layer, floor), cur)
      {
        ghost var before := cur;
        cur := DescendLayer(score, cur, layer, pos);
        LandedNext(nodes, score, entrypoint, maxLayer, layer, before, cur);
        layer := layer - 1;
      }
    }

    /** Links the new node at each layer from top down to 0. */
    method LinkLayers(pos: nat, ep: nat, top: nat) returns (ghost trace: seq<Probe>)
      requires Bounds() && GraphOk(nodes, m, m0) && Reaches(nodes, pos, top) && ep in Tall(nodes, top, pos)
      requires forall l: nat :: Unlisted(nodes, pos, l) && Nbrs(nodes, pos, l) == []
      modifies this`nodes
      ensures Linking(TheSetup(), old(nodes), nodes, pos, top, -1, ep, trace)
    {
      ghost var s := TheSetup();
      LinkStart(s, nodes, pos, top, ep);
      var cur, layer := ep, top;
      trace := [];
      while layer >= 0
        invariant -1 <= layer <= top && TheSetup() == s
        invariant Linking(s, old(nodes), nodes, pos, top, layer, ep, trace)
        invariant cur == EntryOf(ep, trace, |trace|) && cur in Tall(nodes, Max(layer, 0), pos)
      {
        ghost var was, t := nodes, Probe(ep, {}, []);
        StillUnlisted(s, old(nodes), nodes, pos, top, layer, ep, trace);
        cur, t := ConnectLayer(pos, cur, layer);
        LinkLayer(s, old(nodes), was, nodes, pos, top, ep, trace, layer, t);
        trace := trace + [t];
        layer := layer - 1;
      }
    }

    /** Links a fresh position into the graph at the given level. */
    method InsertLocked(pos: nat, level: nat)
      requires Bounds() && GraphOk(nodes, m, m0) && EntryOk(nodes, entrypoint, maxLayer)
      requires pos !in nodes && pos != INVALID_POS && pos in vecs
      modifies this`nodes, this`entrypoint, this`maxLayer
      ensures EntryOk(nodes, entrypoint, maxLayer)
      ensures Inserted(TheSetup(), old(TheGraph()), nodes, pos, level)
      ensures TheGraph() == Raised(old(TheGraph()), nodes, pos, level)
      ensures (entrypoint, maxLayer) == if level > old(maxLayer) then (pos, level) else old((entrypoint, maxLayer))
    {
      ghost var s := TheSetup();
      AddNode(nodes, m, m0, pos, level);
      nodes := WithNode(nodes, pos, level);
      if entrypoint == INVALID_POS {
        LinkStart(s, nodes, pos, -1, entrypoint);
        LinkEnd(s, old(TheGraph()), nodes, pos, level, []);
        entrypoint, maxLayer := pos, level;
        return;
      }
      var cur := Descend(TheSetup().ScoreFor(pos), level, pos);
      ghost var trace := LinkLayers(pos, cur, Min(level, maxLayer));
      LinkEnd(s, old(TheGraph()), nodes, pos, level, trace);
      if level > maxLayer {
        maxLayer, entrypoint := level, pos;
      }
    }

    /** Adds one fresh point. */
    method Insert(pos: nat, vec: Vec, level: nat) returns (r: Result<(), IndexError>)
      requires Valid() && pos !in nodes && pos != INVALID_POS
      modifies this
      ensures Valid() && closed == old(closed) && Rules() == old(Rules())
      ensures r == if |vec| != dim then Err(DimMismatch) else if closed then Err(IndexClosed) else Ok(())
      ensures r.Err? ==> nodes == old(nodes) && vecs == old(vecs)
      ensures r.Ok? ==> vecs == old(vecs)[pos := vec]
      ensures r.Ok? ==> Inserted(TheSetup(), old(TheGraph()), nodes, pos, level)
      ensures r.Ok? ==> TheGraph() == Raised(old(TheGraph()), nodes, pos, level)
      ensures r.Ok? ==>
        (entrypoint, maxLayer) == if level > old(maxLayer) then (pos, level) else old((entrypoint, maxLayer))
    {
      if |vec| != dim {
        return Err(DimMismatch);
      }
      if closed {
        return Err(IndexClosed);
      }
      vecs := vecs[pos := vec];
      InsertLocked(pos, level);
      return Ok(());
    }

    /** Rebuilds the graph from scratch: the positions are inserted in order, at the levels
        drawn for them, under the parameters given or else those in force. */
    method Build(positions: seq<nat>, vectorAt: nat -> Vec, levels: seq<nat>, degree: int, degree0: int, beam: int,
                 naive: bool)
      returns (r: Result<(), IndexError>, ghost stages: seq<Graph>)
      requires Valid() && NoDup(positions) && INVALID_POS !in positions && |levels| == |positions|
      modifies this
      ensures Valid() && closed == old(closed)
      ensures closed ==> r == Err(IndexClosed) && nodes == old(nodes)
      ensures !closed ==> (r.Ok? <==> forall i :: 0 <= i < |positions| ==> |vectorAt(positions[i])| == dim)
      ensures !closed ==>
        Rules() == BuildRules(dist, naive, if degree > 0 then degree else old(m),
                              if degree0 > 0 then degree0 else if degree > 0 then 2 * degree else old(m0),
                              if beam > 0 then beam else old(efConstruction))
      ensures r.Ok? ==> Filled(positions, levels, vectorAt, |positions|, stages)
    {
      stages := [];
      if closed {
        return Err(IndexClosed), stages;
      }
      Reset(degree, degree0, beam, naive);
      r, stages := Fill(positions, vectorAt, levels);
    }

    /** Takes over the parameters that are given and empties the graph. */
    method Reset(degree: int, degree0: int, beam: int, naive: bool)
      requires Bounds()
      modifies this
      ensures Valid() && closed == old(closed) && TheGraph() == Graph(map[], INVALID_POS, -1) && vecs == map[]
      ensures Rules() == BuildRules(dist, naive, if degree > 0 then degree else old(m),
                                    if degree0 > 0 then degree0 else if degree > 0 then 2 * degree else old(m0),
                                    if beam > 0 then beam else old(efConstruction))
    {
      m0 := if degree0 > 0 then degree0 else if degree > 0 then 2 * degree else m0;
      m := if degree > 0 then degree else m;
      efConstruction := if beam > 0 then beam else efConstruction;
      naiveSelect := naive;
      nodes, vecs, entrypoint, maxLayer := map[], map[], INVALID_POS, -1;
    }

    /** The first n positions have been inserted, one after the other. */
    ghost predicate Filled(positions: seq<nat>, levels: seq<nat>, vectorAt: nat -> Vec, n: nat, stages: seq<Graph>)
      reads this
    {
      && Valid() && !closed && AllLive(nodes)
      && IsBuild(Rules(), positions, levels, vectorAt, stages, n)
      && stages[n] == TheGraph() && vecs == Stored(positions, n, vectorAt)
    }

    /** Inserts the positions in order, up to the first vector of the wrong dimension. */
    method Fill(positions: seq<nat>, vectorAt: nat -> Vec, levels: seq<nat>)
      returns (r: Result<(), IndexError>, ghost stages: seq<Graph>)
      requires Valid() && !closed && TheGraph() == Graph(map[], INVALID_POS, -1)
      requires NoDup(positions) && INVALID_POS !in positions && |levels| == |positions|
      modifies this
      ensures Valid() && !closed && Rules() == old(Rules())
      ensures r.Ok? <==> forall i :: 0 <= i < |positions| ==> |vectorAt(positions[i])| == dim
      ensures r.Ok? ==> Filled(positions, levels, vectorAt, |positions|, stages)
    {
      var i := 0;
      stages := [TheGraph()];
      BuildStart(Rules(), positions, levels, vectorAt, TheGraph());
      while i < |positions|
        invariant 0 <= i <= |positions| && Rules() == old(Rules())
        invariant forall j :: 0 <= j < i ==> |vectorAt(positions[j])| == dim
        invariant Filled(positions, levels, vectorAt, i, stages)
      {
        r, stages := FillOne(positions, vectorAt, levels, i, stages);
        if r.Err? {
          return;
        }
        i := i + 1;
      }
      r := Ok(());
    }

    method FillOne(positions: seq<nat>, vectorAt: nat -> Vec, levels: seq<nat>, i: nat, ghost before: seq<Graph>)
      returns (r: Result<(), IndexError>, ghost stages: seq<Graph>)
      requires i < |positions| == |levels| && NoDup(positions) && INVALID_POS !in positions
      requires Filled(positions, levels, vectorAt, i, before)
      modifies this
      ensures Valid() && !closed && Rules() == old(Rules()) && (r.Ok? <==> |vectorAt(positions[i])| == dim)
      ensures r.Ok? ==> Filled(positions, levels, vectorAt, i + 1, stages)
    {
      StoredHas(positions, i, vectorAt, positions[i]);
      assert positions[i] in positions;
      r := Insert(positions[i], vectorAt(positions[i]), levels[i]);
      stages := before;
      if r.Ok? {
        stages := before + [TheGraph()];
        BuildNext(Rules(), positions, levels, vectorAt, before, TheGraph(), i);
      }
    }

    /** Tombstones a point; the entrypoint is replaced if it was the one. */
    method Delete(pos: nat) returns (r: Result<(), IndexError>)
      requires Valid()
      modifies this`nodes, this`entrypoint, this`maxLayer
      ensures Valid() && r == if closed then Err(IndexClosed) else Ok(())
      ensures nodes == if !closed && Live(old(nodes), pos)
                       then old(nodes)[pos := old(nodes)[pos].(deleted := true)]
                       else old(nodes)
      ensures entrypoint != old(entrypoint) ==> old(entrypoint) == pos && Heir(nodes, pos, entrypoint)
      ensures !closed && entrypoint == pos ==> pos == INVALID_POS
    {
      if closed {
        return Err(IndexClosed);
      }
      if !Live(nodes, pos) {
        return Ok(());
      }
      Tombstone(nodes, m, m0, pos);
      nodes := nodes[pos := nodes[pos].(deleted := true)];
      if pos == entrypoint {
        RepairEntrypoint(pos);
      }
      return Ok(());
    }

    /** Picks a new entrypoint in place of a tombstoned one. */
    method RepairEntrypoint(gone: nat)
      requires GraphOk(nodes, m, m0) && INVALID_POS !in nodes && gone in nodes && !Live(nodes, gone)
      modifies this`entrypoint, this`maxLayer
      ensures EntryOk(nodes, entrypoint, maxLayer) && Heir(nodes, gone, entrypoint)
    {
      assert Sized(nodes, gone);
      var layer := nodes[gone].maxLevel;
      while layer >= 0
        invariant -1 <= layer <= nodes[gone].maxLevel
        invariant forall k: nat :: k > layer ==> NoneLive(nodes, Nbrs(nodes, gone, k))
      {
        var q := FindLive(nodes, nodes[gone].neighbors[layer]);
        assert ListOk(nodes, m, m0, gone, layer);
        if q.Some? {
          entrypoint, maxLayer := q.value, nodes[q.value].maxLevel;
          assert HeirAt(nodes, gone, layer, q.value);
          return;
        }
        layer := layer - 1;
      }
      entrypoint, maxLayer := ScanHighest(nodes);
    }

    /** The k nearest live points that pass the filter among those a beam search sees from
        where the greedy descent ends.  The beam is as wide as asked for, 50 by default, and
        never narrower than k; if that is room for every answer within reach, the result is
        the k best of them. */
    method Search(query: Vec, k: nat, filter: Filter, efSearch: int)
      returns (r: Result<seq<Candidate>, IndexError>, ghost ep: nat, ghost visited: set<nat>)
      requires Valid()
      ensures r.Err? ==> r.error == if closed then IndexClosed else DimMismatch
      ensures r.Err? <==> closed || |query| != dim
      ensures r.Ok? && entrypoint == INVALID_POS ==> r.value == []
      ensures r.Ok? && entrypoint != INVALID_POS ==>
        && Landed(nodes, TheSpace().From(query), entrypoint, maxLayer, 0, ep)
        && (efSearch > 0 && efSearch >= k ==>
              Found(nodes, TheSpace().From(query), filter, k, efSearch, ep, visited, r.value))
        && (0 < efSearch < k ==> Found(nodes, TheSpace().From(query), filter, k, k, ep, visited, r.value))
        && (efSearch <= 0 ==> Found(nodes, TheSpace().From(query), filter, k, Max(50, k), ep, visited, r.value))
      ensures r.Ok? && entrypoint != INVALID_POS ==>
        var answers := Answers(nodes, TheSpace().From(query), filter, Reach(nodes, 0, ep));
        |answers| <= efSearch || (efSearch <= 0 && |answers| <= 50) ==> IsTopK(r.value, answers, k)
    {
      ep, visited := INVALID_POS, {};
      if closed {
        return Err(IndexClosed), ep, visited;
      }
      if |query| != dim {
        return Err(DimMismatch), ep, visited;
      }
      if entrypoint == INVALID_POS {
        return Ok([]), ep, visited;
      }
      var score, ef := TheSpace().From(query), if efSearch <= 0 then 50 else efSearch;
      if ef < k {
        ef := k;
      }
      NeverListed(nodes, m, m0, INVALID_POS);
      var start := Descend(score, 0, INVALID_POS);
      ReachIs(nodes, m, m0, 0, start);
      var candidates;
      candidates, visited := SearchLayer(nodes, score, start, ef, 0, filter, Reach(nodes, 0, start));
      ep := start;
      FoundCut(nodes, score, filter, k, ef, ep, visited, candidates);
      if |candidates| > k {
        candidates := candidates[..k];
      }
      return Ok(candidates), ep, visited;
    }

    method Close()
      requires Valid()
      modifies this
      ensures Valid() && closed && nodes == map[] && vecs == map[]
    {
      closed, nodes, vecs := true, map[], map[];
    }
  }

  // ---- building ----

  function Defaulted(x: int, default: nat): nat {
    if x <= 0 then default else x
  }

  method NewHNSW(d: int, distance: Distance, degree: int, degree0: int, beam: int, naive: bool)
    returns (r: Result<HNSW, IndexError>)
    ensures r == Err(BadParams) <==>
            d <= 0 || (if beam > 0 then beam else 200) < if degree > 0 then degree else 16
    ensures r.Ok? ==>
      && fresh(r.value) && r.value.Valid() && r.value.dim == d && !r.value.closed && r.value.nodes == map[]
      && r.value.Rules() == BuildRules(distance, naive, if degree > 0 then degree else 16,
                                       if degree0 > 0 then degree0 else 2 * (if degree > 0 then degree else 16),
                                       if beam > 0 then beam else 200)
  {
    if d <= 0 || Defaulted(beam, 200) < Defaulted(degree, 16) {
      return Err(BadParams);
    }
    var h := new HNSW(d, distance, degree, degree0, beam, naive);
    return Ok(h);
  }

  ghost predicate Early(positions: seq<nat>, n: nat, p: nat) {
    exists j :: 0 <= j < n && j < |positions| && positions[j] == p
  }

  ghost predicate AllLive(nodes: Nodes) {
    forall p :: p in nodes ==> Live(nodes, p)
  }

  /** Exactly the first n positions are stored, with their vectors. */
  lemma {:induction false} StoredHas(positions: seq<nat>, n: nat, vectorAt: nat -> Vec, p: nat)
    requires n <= |positions|
    ensures p in Stored(positions, n, vectorAt) <==> Early(positions, n, p)
    ensures p in Stored(positions, n, vectorAt) ==> Stored(positions, n, vectorAt)[p] == vectorAt(p)
    decreases n
  {
    if n > 0 {
      StoredHas(positions, n - 1, vectorAt, p);
    }
  }

  /** The vectors of the first n positions. */
  function Stored(positions: seq<nat>, n: nat, vectorAt: nat -> Vec): map<nat, Vec>
    requires n <= |positions|
    decreases n
  {
    if n == 0 then map[] else Stored(positions, n - 1, vectorAt)[positions[n - 1] := vectorAt(positions[n - 1])]
  }

  /** The i-th position was inserted, at its level, into the graph of those before it. */
  ghost predicate BuildStep(rules: BuildRules, positions: seq<nat>, levels: seq<nat>, vectorAt: nat -> Vec,
                            stages: seq<Graph>, i: nat) {
    i < |positions| && i < |levels| && i + 1 < |stages| ==>
      && Inserted(rules.With(Stored(positions, i + 1, vectorAt)), stages[i], stages[i + 1].nodes, positions[i],
                  levels[i])
      && stages[i + 1] == Raised(stages[i], stages[i + 1].nodes, positions[i], levels[i])
  }

  /** A build of the first n positions, from the empty graph. */
  ghost predicate IsBuild(rules: BuildRules, positions: seq<nat>, levels: seq<nat>, vectorAt: nat -> Vec,
                          stages: seq<Graph>, n: nat) {
    && n <= |positions| && |stages| == n + 1 && stages[0] == Graph(map[], INVALID_POS, -1)
    && forall i: nat :: BuildStep(rules, positions, levels, vectorAt, stages, i)
  }

  lemma BuildStart(rules: BuildRules, positions: seq<nat>, levels: seq<nat>, vectorAt: nat -> Vec, g: Graph)
    requires g == Graph(map[], INVALID_POS, -1)
    ensures IsBuild(rules, positions, levels, vectorAt, [g], 0)
  {
  }

  lemma BuildNext(rules: BuildRules, positions: seq<nat>, levels: seq<nat>, vectorAt: nat -> Vec,
                  stages: seq<Graph>, g: Graph, n: nat)
    requires IsBuild(rules, positions, levels, vectorAt, stages, n) && n < |positions| == |levels|
    requires Inserted(rules.With(Stored(positions, n + 1, vectorAt)), stages[n], g.nodes, positions[n], levels[n])
    requires g == Raised(stages[n], g.nodes, positions[n], levels[n])
    ensures IsBuild(rules, positions, levels, vectorAt, stages + [g], n + 1)
  {
    var more := stages + [g];
    forall i: nat ensures BuildStep(rules, positions, levels, vectorAt, more, i) {
      assert BuildStep(rules, positions, levels, vectorAt, stages, i);
      assert i < n ==> more[i] == stages[i] && more[i + 1] == stages[i + 1];
    }
  }

  // ---- replacing the entrypoint ----

  ghost predicate NoneLive(nodes: Nodes, l: seq<nat>) {
    forall i :: 0 <= i < |l| ==> !Live(nodes, l[i])
  }

  ghost predicate FirstLive(nodes: Nodes, l: seq<nat>, q: nat) {
    exists j :: 0 <= j < |l| && l[j] == q && Live(nodes, q) && NoneLive(nodes, l[..j])
  }

  /** The highest live node, the lowest position among equals. */
  ghost predicate Highest(nodes: Nodes, q: nat) {
    Live(nodes, q) && forall p :: Live(nodes, p) ==>
      nodes[p].maxLevel < nodes[q].maxLevel || (nodes[p].maxLevel == nodes[q].maxLevel && q <= p)
  }

  ghost predicate HeirAt(nodes: Nodes, gone: nat, layer: nat, q: nat) {
    && FirstLive(nodes, Nbrs(nodes, gone, layer), q)
    && forall k: nat :: k > layer ==> NoneLive(nodes, Nbrs(nodes, gone, k))
  }

  /** The first live neighbour from the top layer down; failing that, the highest live
      node; failing that, none. */
  ghost predicate Heir(nodes: Nodes, gone: nat, q: nat) {
    || (exists layer: nat :: HeirAt(nodes, gone, layer, q))
    || ((forall k: nat :: NoneLive(nodes, Nbrs(nodes, gone, k)))
        && if q == INVALID_POS then forall p :: !Live(nodes, p) else Highest(nodes, q))
  }

  method FindLive(nodes: Nodes, l: seq<nat>) returns (q: Option<nat>)
    ensures q.Some? ==> FirstLive(nodes, l, q.value)
    ensures q.None? ==> NoneLive(nodes, l)
  {
    var j := 0;
    while j < |l|
      invariant 0 <= j <= |l| && NoneLive(nodes, l[..j])
    {
      if Live(nodes, l[j]) {
        return Some(l[j]);
      }
      j := j + 1;
    }
    assert l[..j] == l;
    return None;
  }

  /** Looks at the nodes in any order. */
  method ScanHighest(nodes: Nodes) returns (best: nat, bestLevel: int)
    requires INVALID_POS !in nodes
    ensures best == INVALID_POS ==> bestLevel == -1 && forall p :: !Live(nodes, p)
    ensures best != INVALID_POS ==> Highest(nodes, best) && bestLevel == nodes[best].maxLevel
  {
    best, bestLevel := INVALID_POS, -1;
    var todo := nodes.Keys;
    while todo != {}
      invariant todo <= nodes.Keys
      invariant best == INVALID_POS ==> bestLevel == -1
      invariant best != INVALID_POS ==> Live(nodes, best) && bestLevel == nodes[best].maxLevel
      invariant forall p :: Live(nodes, p) && p !in todo ==>
        best != INVALID_POS && (nodes[p].maxLevel < bestLevel || (nodes[p].maxLevel == bestLevel && best <= p))
      decreases todo
    {
      var p :| p in todo;
      todo := todo - {p};
      if !nodes[p].deleted {
        var level := nodes[p].maxLevel;
        if level > bestLevel || (level == bestLevel && p < best) {
          best, bestLevel := p, level;
        }
      }
    }
  }

  // ---- descending ----

  /** Where the greedy descent to a layer ends: no farther than it began, and with no nearer
      neighbour in the layer above. */
  ghost predicate Landed(nodes: Nodes, score: Score, entry: nat, maxLayer: int, floor: nat, p: nat) {
    && p == Descent(nodes, score, entry, maxLayer, floor) && score(p) <= score(entry)
    && (floor < maxLayer ==> LocalBest(nodes, floor + 1, score, p))
  }

  lemma LandedNext(nodes: Nodes, score: Score, entry: nat, maxLayer: int, layer: nat, p: nat, q: nat)
    requires Landed(nodes, score, entry, maxLayer, layer, p) && 0 < layer <= maxLayer
    requires q == Greedy(nodes, score, p, layer) && score(q) <= score(p) && LocalBest(nodes, layer, score, q)
    ensures Landed(nodes, score, entry, maxLayer, layer - 1, q)
  {
  }

  // ---- what a search returns ----

  function Firsts(out: seq<Candidate>, k: nat): seq<Candidate> {
    if |out| > k then out[..k] else out
  }

  /** What a search returns: the first k results of a beam of width ef over nodes within
      reach of the entry. So it is itself the outcome of a beam of width k, and when the
      beam holds everything within reach, exactly the k best of that. */
  ghost predicate Found(nodes: Nodes, score: Score, filter: Filter, k: nat, ef: nat, ep: nat,
                        visited: set<nat>, out: seq<Candidate>) {
    && visited <= Reach(nodes, 0, ep)
    && (exists full :: Beam(nodes, score, filter, ef, 0, ep, visited, full) && out == Firsts(full, k))
    && Beam(nodes, score, filter, k, 0, ep, visited, out)
    && (|Answers(nodes, score, filter, Reach(nodes, 0, ep))| <= ef ==>
          IsTopK(out, Answers(nodes, score, filter, Reach(nodes, 0, ep)), k))
  }

  lemma FoundCut(nodes: Nodes, score: Score, filter: Filter, k: nat, ef: nat, ep: nat,
                 visited: set<nat>, full: seq<Candidate>)
    requires visited <= Reach(nodes, 0, ep) && IsReach(nodes, 0, ep, Reach(nodes, 0, ep)) && k <= ef
    requires Beam(nodes, score, filter, ef, 0, ep, visited, full)
    ensures Found(nodes, score, filter, k, ef, ep, visited, Firsts(full, k))
  {
    BeamCut(nodes, score, filter, ef, k, 0, ep, visited, full);
    var reach := Reach(nodes, 0, ep);
    if |Answers(nodes, score, filter, reach)| <= ef {
      BeamWide(nodes, score, filter, ef, 0, ep, visited, full, reach);
      RankedElems(full);
      PrefixIsTopK(full, Elems(full), k);
    }
  }

  lemma NeverListed(nodes: Nodes, m: nat, m0: nat, pos: nat)
    requires GraphOk(nodes, m, m0) && pos !in nodes
    ensures forall l: nat :: Unlisted(nodes, pos, l)
  {
    forall l: nat, p: nat ensures pos !in Nbrs(nodes, p, l) {
      assert ListOk(nodes, m, m0, p, l);
    }
  }

  ghost function Within(vecs: map<nat, Vec>, s: set<nat>): map<nat, Vec> {
    map p | p in vecs && p in s :: vecs[p]
  }

  ghost function Tombstones(nodes: Nodes): set<nat> {
    set p | p in nodes && nodes[p].deleted
  }

  /** Agreement with brute force: over the same stored points, a wide enough search and
      the flat scan of what is within reach return the same list. */
  lemma MatchesFlat(nodes: Nodes, space: Space, query: Vec, filter: Filter, k: nat, ef: nat, ep: nat, visited: set<nat>,
                    found: seq<Candidate>, flat: seq<Candidate>)
    requires space.vecs.Keys == nodes.Keys && Found(nodes, space.From(query), filter, k, ef, ep, visited, found)
    requires |Answers(nodes, space.From(query), filter, Reach(nodes, 0, ep))| <= ef
    requires IsTopK(flat, Flat.Pool(Within(space.vecs, Reach(nodes, 0, ep)), Tombstones(nodes), filter, space.dist,
                                    query), k)
    ensures found == flat
  {
    var reach := Reach(nodes, 0, ep);
    var pool := Flat.Pool(Within(space.vecs, reach), Tombstones(nodes), filter, space.dist, query);
    var answers := Answers(nodes, space.From(query), filter, reach);
    forall p: nat ensures space.From(query)(p) == space.dist(query, space.At(p)) {
    }
    assert pool == answers;
    TopKUnique(found, flat, pool, k);
  }

  // ---- consequences of an insertion ----

  lemma InsertedTrace(s: Setup, was: Graph, now: Nodes, pos: nat, level: nat) returns (trace: seq<Probe>)
    requires Inserted(s, was, now, pos, level)
    ensures var base, top := WithNode(was.nodes, pos, level), Min(level, was.maxLayer);
            Linking(s, base, now, pos, top, -1, was.(nodes := base).Landing(s.ScoreFor(pos), level), trace)
  {
    var base, top := WithNode(was.nodes, pos, level), Min(level, was.maxLayer);
    trace :| Linking(s, base, now, pos, top, -1, was.(nodes := base).Landing(s.ScoreFor(pos), level), trace);
  }

  /** The search of the next layer down starts at one of its nodes too. */
  lemma NextTall(s: Setup, base: Nodes, pos: nat, upper: nat, lower: nat, list: seq<nat>, t: Probe)
    requires GraphOk(base, s.m, s.m0) && Unlisted(base, pos, upper) && lower < upper
    requires PickedAt(s, base, pos, upper, list, t) && t.ep in Tall(base, upper, pos)
    ensures t.Next() in Tall(base, lower, pos)
  {
    ProbedLive(base, s.m, s.m0, s.ScoreFor(pos), s.ef, pos, upper, t);
  }

  lemma EntryNext(s: Setup, base: Nodes, now: Nodes, pos: nat, top: nat, ep: nat, trace: seq<Probe>, i: nat, l: nat)
    requires GraphOk(base, s.m, s.m0) && 0 < i < |trace| && l == top - i && Unlisted(base, pos, l + 1)
    requires Picked(s, base, now, pos, top, ep, trace, i - 1) && trace[i - 1].ep in Tall(base, l + 1, pos)
    ensures EntryOf(ep, trace, i) in Tall(base, l, pos)
  {
    NextTall(s, base, pos, l + 1, l, Nbrs(now, pos, l + 1), trace[i - 1]);
  }

  /** Every search of an insertion starts at a node of its layer other than the new one,
      if the first does. */
  lemma {:induction false} EntriesTall(s: Setup, base: Nodes, now: Nodes, pos: nat, top: nat, ep: nat,
                                       trace: seq<Probe>, i: nat, l: nat)
    requires GraphOk(base, s.m, s.m0) && (forall l: nat :: Unlisted(base, pos, l)) && ep in Tall(base, top, pos)
    requires forall j: nat :: Picked(s, base, now, pos, top, ep, trace, j)
    requires i < |trace| && l == top - i
    ensures trace[i].ep in Tall(base, l, pos)
    decreases i
  {
    assert Picked(s, base, now, pos, top, ep, trace, i);
    if i > 0 {
      EntriesTall(s, base, now, pos, top, ep, trace, i - 1, l + 1);
      EntryNext(s, base, now, pos, top, ep, trace, i, l);
    }
  }

  /** The greedy descent ends at a node tall enough for the layer below it. */
  lemma {:induction false} DescentTall(nodes: Nodes, m: nat, m0: nat, score: Score, p: nat, top: nat, floor: nat,
                                       pos: nat)
    requires GraphOk(nodes, m, m0) && (forall l: nat :: Unlisted(nodes, pos, l)) && p in Tall(nodes, top, pos)
    ensures Descent(nodes, score, p, top, floor) in Tall(nodes, Min(floor, top), pos)
    decreases top - floor
  {
    if floor < top {
      DescentTall(nodes, m, m0, score, p, top, floor + 1, pos);
      TallClosed(nodes, m, m0, floor + 1, pos);
      GreedyIn(nodes, score, Descent(nodes, score, p, top, floor + 1), floor + 1, Tall(nodes, floor + 1, pos));
    }
  }

  lemma PickedThere(s: Setup, base: Nodes, now: Nodes, pos: nat, top: nat, ep: nat, trace: seq<Probe>, i: nat, l: nat)
    requires forall j: nat :: Picked(s, base, now, pos, top, ep, trace, j)
    requires i < |trace| && l == top - i
    ensures PickedAt(s, base, pos, l, Nbrs(now, pos, l), trace[i])
  {
    assert Picked(s, base, now, pos, top, ep, trace, i);
  }

  /** An insertion with its searches laid out: each list of the new node at a layer it
      joins was selected from a search that started at another node of the layer. */
  lemma InsertedSearch(s: Setup, was: Graph, now: Nodes, pos: nat, level: nat, trace: seq<Probe>, l: nat)
    requires GraphOk(was.nodes, s.m, s.m0) && EntryOk(was.nodes, was.entry, was.maxLayer) && pos !in was.nodes
    requires l <= level && l <= was.maxLayer
    requires Linking(s, WithNode(was.nodes, pos, level), now, pos, Min(level, was.maxLayer), -1,
                     was.(nodes := WithNode(was.nodes, pos, level)).Landing(s.ScoreFor(pos), level), trace)
    ensures var base, t := WithNode(was.nodes, pos, level), trace[Min(level, was.maxLayer) - l];
            t.ep in Tall(base, l, pos) && PickedAt(s, base, pos, l, Nbrs(now, pos, l), t)
  {
    var base, top := WithNode(was.nodes, pos, level), Min(level, was.maxLayer);
    var ep := was.(nodes := base).Landing(s.ScoreFor(pos), level);
    AddNode(was.nodes, s.m, s.m0, pos, level);
    DescentTall(base, s.m, s.m0, s.ScoreFor(pos), was.entry, was.maxLayer, level, pos);
    EntriesTall(s, base, now, pos, top, ep, trace, top - l, l);
    PickedThere(s, base, now, pos, top, ep, trace, top - l, l);
  }

  /** Links go both ways unless the other end is full: every neighbour the new node took
      is live, and lists it back or already holds as many links as its layer allows. */
  lemma LinksBothWays(s: Setup, was: Graph, now: Nodes, pos: nat, level: nat, q: nat, l: nat)
    requires GraphOk(was.nodes, s.m, s.m0) && EntryOk(was.nodes, was.entry, was.maxLayer) && pos !in was.nodes
    requires Inserted(s, was, now, pos, level) && q in Nbrs(now, pos, l)
    ensures Live(was.nodes, q) && Reaches(was.nodes, q, l)
    ensures var cap := if l == 0 then s.m0 else s.m;
            && (|Nbrs(was.nodes, q, l)| < cap ==> Nbrs(now, q, l) == Nbrs(was.nodes, q, l) + [pos])
            && (|Nbrs(was.nodes, q, l)| == cap ==> |Nbrs(now, q, l)| == cap)
  {
    var base, top := WithNode(was.nodes, pos, level), Min(level, was.maxLayer);
    AddNode(was.nodes, s.m, s.m0, pos, level);
    var trace := InsertedTrace(s, was, now, pos, level);
    assert Settled(s, base, now, pos, -1, q, l);
    assert Bare(now, pos, top, -1, l);
    InsertedSearch(s, was, now, pos, level, trace, l);
    ProbedGood(s.space, s.naive, s.m, s.m0, base, s.ScoreFor(pos), s.ef, pos, l, trace[top - l]);
    assert ListOk(base, s.m, s.m0, q, l);
    RelinkGood(s.space, s.naive, base, q, l, s.CapAt(l), Nbrs(base, q, l), pos);
  }

  /** A search that found something sends the next one to a live node. */
  lemma NextLive(s: Setup, base: Nodes, now: Nodes, pos: nat, top: nat, ep: nat, trace: seq<Probe>, i: nat, l: nat)
    requires GraphOk(base, s.m, s.m0) && 0 < i < |trace| && l == top - i && Unlisted(base, pos, l + 1)
    requires Picked(s, base, now, pos, top, ep, trace, i - 1) && trace[i - 1].ep in Tall(base, l + 1, pos)
    requires trace[i - 1].cands != []
    ensures Live(base, EntryOf(ep, trace, i)) && EntryOf(ep, trace, i) in Reach(base, l, EntryOf(ep, trace, i))
  {
    ProbedLive(base, s.m, s.m0, s.ScoreFor(pos), s.ef, pos, l + 1, trace[i - 1]);
  }

  /** A search with a live node within reach of its entry gives the new node a neighbour. */
  lemma LinkedAt(s: Setup, base: Nodes, now: Nodes, pos: nat, top: nat, ep: nat, trace: seq<Probe>, i: nat, l: nat,
                 q: nat)
    requires GraphOk(base, s.m, s.m0) && s.m >= 1 && s.m0 >= 1 && s.ef >= 1 && i < |trace| && l == top - i
    requires Picked(s, base, now, pos, top, ep, trace, i)
    requires q in Reach(base, l, EntryOf(ep, trace, i)) && Live(base, q)
    ensures Nbrs(now, pos, l) != [] && trace[i].cands != []
  {
    ProbedSome(s.space, s.naive, s.m, s.m0, base, s.ScoreFor(pos), s.ef, l, trace[i], q);
  }

  /** By induction from the top layer down. */
  lemma {:induction false} LinkedDown(s: Setup, base: Nodes, now: Nodes, pos: nat, top: nat, ep: nat,
                                      trace: seq<Probe>, q: nat, i: nat, l: nat)
    requires GraphOk(base, s.m, s.m0) && (forall l: nat :: Unlisted(base, pos, l)) && ep in Tall(base, top, pos)
    requires s.m >= 1 && s.m0 >= 1 && s.ef >= 1
    requires forall j: nat :: Picked(s, base, now, pos, top, ep, trace, j)
    requires q in Reach(base, top, ep) && Live(base, q) && i < |trace| && l == top - i
    ensures Nbrs(now, pos, l) != [] && trace[i].cands != [] && trace[i].ep in Tall(base, l, pos)
    decreases i
  {
    assert Picked(s, base, now, pos, top, ep, trace, i);
    var near := q;
    if i > 0 {
      assert Picked(s, base, now, pos, top, ep, trace, i - 1) && Unlisted(base, pos, l + 1);
      LinkedDown(s, base, now, pos, top, ep, trace, q, i - 1, l + 1);
      EntryNext(s, base, now, pos, top, ep, trace, i, l);
      NextLive(s, base, now, pos, top, ep, trace, i, l);
      near := EntryOf(ep, trace, i);
    }
    LinkedAt(s, base, now, pos, top, ep, trace, i, l, near);
  }

  /** No node is left alone: if a live node is within reach of where the descent ended,
      the new node has neighbours at every layer it joins. */
  lemma NeverAlone(s: Setup, was: Graph, now: Nodes, pos: nat, level: nat, q: nat, l: nat)
    requires GraphOk(was.nodes, s.m, s.m0) && EntryOk(was.nodes, was.entry, was.maxLayer) && pos !in was.nodes
    requires Inserted(s, was, now, pos, level) && s.m >= 1 && s.m0 >= 1 && s.ef >= 1
    requires l <= level && l <= was.maxLayer
    requires var base := WithNode(was.nodes, pos, level);
             && q in Reach(base, Min(level, was.maxLayer), was.(nodes := base).Landing(s.ScoreFor(pos), level))
             && Live(base, q)
    ensures Nbrs(now, pos, l) != []
  {
    var base, top := WithNode(was.nodes, pos, level), Min(level, was.maxLayer);
    var ep := was.(nodes := base).Landing(s.ScoreFor(pos), level);
    AddNode(was.nodes, s.m, s.m0, pos, level);
    DescentTall(base, s.m, s.m0, s.ScoreFor(pos), was.entry, was.maxLayer, level, pos);
    var trace := InsertedTrace(s, was, now, pos, level);
    LinkedDown(s, base, now, pos, top, ep, trace, q, top - l, l);
  }

  lemma StillUnlisted(s: Setup, base: Nodes, now: Nodes, pos: nat, top: int, layer: nat, ep: nat, trace: seq<Probe>)
    requires Linking(s, base, now, pos, top, layer, ep, trace) && Unlisted(base, pos, layer)
    ensures Unlisted(now, pos, layer)
  {
    forall p: nat ensures pos !in Nbrs(now, p, layer) {
      assert Settled(s, base, now, pos, layer, p, layer);
    }
  }
}
