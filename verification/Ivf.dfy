/** The inverted-file index (index/ivf.go): points partitioned into the cells of a coarse
    quantizer, and search over the nearest cells. */
module Ivf {
  import opened Prelude
  import opened Ranking
  import opened Vectors
  import Flat

  type Code = seq<nat>

  /** A residual codec: encoding, and the distance from a query's residual to a code. */
  datatype Codec = Codec(encode: Vec -> Code, adc: (Vec, Code) -> real)

  datatype Entry = Entry(pos: nat, code: Code)

  /** The trained partition and what it holds. */
  datatype Store = Store(
    centroids: seq<Vec>, lists: seq<seq<Entry>>, assignOf: map<nat, nat>, vecs: map<nat, Vec>, codec: Option<Codec>)

  /** The residual: what is to be added to b to get a. */
  function Sub(a: Vec, b: Vec): (r: Vec)
    ensures |r| == |a| && forall i :: 0 <= i < |a| && i < |b| ==> r[i] + b[i] == a[i]
  {
    seq(|a|, i requires 0 <= i < |a| => if i < |b| then a[i] - b[i] else a[i])
  }

  // ---- each stored position lies in exactly one posting list ----

  /** A point's code relative to its cell, when there is a codec. */
  function CodeIn(s: Store, c: nat, vec: Vec): Code
    requires c < |s.centroids|
  {
    if s.codec.Some? then s.codec.value.encode(Sub(vec, s.centroids[c])) else []
  }

  ghost predicate EntryOk(s: Store, c: nat, j: nat)
    requires |s.lists| == |s.centroids|
  {
    c < |s.lists| && j < |s.lists[c]| ==>
      var e := s.lists[c][j];
      e.pos in s.assignOf && s.assignOf[e.pos] == c && e.pos in s.vecs && e.code == CodeIn(s, c, s.vecs[e.pos])
  }

  ghost predicate Apart(s: Store, c: nat) {
    c < |s.lists| ==> forall i, j :: 0 <= i < j < |s.lists[c]| ==> s.lists[c][i].pos != s.lists[c][j].pos
  }

  ghost predicate Holds(list: seq<Entry>, p: nat) {
    exists j :: 0 <= j < |list| && list[j].pos == p
  }

  ghost predicate Placed(s: Store, p: nat) {
    p in s.assignOf ==> s.assignOf[p] < |s.lists| && Holds(s.lists[s.assignOf[p]], p)
  }

  /** The cell whose centroid is nearest, the first among equals; the first cell when no
      distance is below the largest float. */
  ghost predicate NearestCell(centroids: seq<Vec>, coarse: Distance, vec: Vec, c: nat) {
    && c < |centroids|
    && (forall i :: 0 <= i < |centroids| ==> coarse(vec, centroids[i]) >= Min32(coarse(vec, centroids[c])))
    && (forall i :: 0 <= i < c ==> coarse(vec, centroids[i]) > coarse(vec, centroids[c]))
  }

  function Min32(d: real): real {
    if d < MAX_FLOAT32 then d else MAX_FLOAT32
  }

  ghost predicate Assigned(s: Store, coarse: Distance, p: nat) {
    p in s.assignOf ==> p in s.vecs && NearestCell(s.centroids, coarse, s.vecs[p], s.assignOf[p])
  }

  /** The posting lists partition the stored positions, each in its nearest cell. */
  ghost predicate StoreOk(s: Store, coarse: Distance) {
    && |s.lists| == |s.centroids| && s.vecs.Keys == s.assignOf.Keys
    && (forall c: nat, j: nat :: EntryOk(s, c, j))
    && (forall c: nat :: Apart(s, c))
    && (forall p: nat :: Placed(s, p))
    && (forall p: nat :: Assigned(s, coarse, p))
  }

  function Place(s: Store, pos: nat, vec: Vec, c: nat): Store
    requires c < |s.lists| == |s.centroids|
  {
    s.(lists := s.lists[c := s.lists[c] + [Entry(pos, CodeIn(s, c, vec))]],
       assignOf := s.assignOf[pos := c], vecs := s.vecs[pos := vec])
  }

  lemma PlaceOk(s: Store, coarse: Distance, pos: nat, vec: Vec, c: nat)
    requires StoreOk(s, coarse) && pos !in s.assignOf && NearestCell(s.centroids, coarse, vec, c)
    ensures StoreOk(Place(s, pos, vec, c), coarse)
  {
    var t := Place(s, pos, vec, c);
    forall b: nat, j: nat ensures EntryOk(t, b, j) {
      assert EntryOk(s, b, j);
    }
    forall b: nat ensures Apart(t, b) {
      assert Apart(s, b);
      if b == c {
        forall j: nat | j < |s.lists[c]| ensures s.lists[c][j].pos != pos {
          assert EntryOk(s, c, j);
        }
      }
    }
    forall p: nat ensures Placed(t, p) {
      assert Placed(s, p);
      HoldsMore(s.lists[c], Entry(pos, CodeIn(s, c, vec)), p);
    }
    forall p: nat ensures Assigned(t, coarse, p) {
      assert Assigned(s, coarse, p);
    }
  }

  lemma HoldsMore(list: seq<Entry>, e: Entry, p: nat)
    ensures Holds(list + [e], p) <==> Holds(list, p) || p == e.pos
  {
    var more := list + [e];
    if Holds(list, p) {
      var j :| 0 <= j < |list| && list[j].pos == p;
      assert more[j].pos == p;
    }
    assert more[|list|] == e;
  }

  /** Placing a position that is stored already posts it twice, so a placement keeps the
      partition exactly when the position is fresh. */
  lemma PlaceExact(s: Store, coarse: Distance, pos: nat, vec: Vec, c: nat)
    requires StoreOk(s, coarse) && NearestCell(s.centroids, coarse, vec, c)
    ensures StoreOk(Place(s, pos, vec, c), coarse) <==> pos !in s.assignOf
  {
    if pos !in s.assignOf {
      PlaceOk(s, coarse, pos, vec, c);
    } else {
      assert Placed(s, pos);
      var t, b := Place(s, pos, vec, c), s.assignOf[pos];
      var j :| 0 <= j < |s.lists[b]| && s.lists[b][j].pos == pos;
      if b == c {
        assert t.lists[c][j].pos == pos == t.lists[c][|s.lists[c]|].pos;
        assert !Apart(t, c);
      } else {
        assert !EntryOk(t, b, j);
      }
    }
  }

  /** No position is in two cells, or twice in one. */
  lemma OnePosting(s: Store, coarse: Distance, c: nat, i: nat, d: nat, j: nat)
    requires StoreOk(s, coarse) && c < |s.lists| && i < |s.lists[c]| && d < |s.lists| && j < |s.lists[d]|
    ensures s.lists[c][i].pos == s.lists[d][j].pos ==> c == d && i == j
  {
    assert EntryOk(s, c, i) && EntryOk(s, d, j) && Apart(s, c);
  }

  // ---- what a scan of some cells collects ----

  /** The distance a scan uses: through the codec when there is one. */
  function ScanScore(s: Store, dist: Distance, query: Vec): Score {
    (p: nat) =>
      if p !in s.vecs then 0.0
      else if s.codec.Some? && p in s.assignOf && s.assignOf[p] < |s.centroids| then
        s.codec.value.adc(Sub(query, s.centroids[s.assignOf[p]]), CodeIn(s, s.assignOf[p], s.vecs[p]))
      else dist(query, s.vecs[p])
  }

  function ExactScore(s: Store, dist: Distance, query: Vec): Score {
    (p: nat) => if p in s.vecs then dist(query, s.vecs[p]) else 0.0
  }

  predicate Wanted(deleted: set<nat>, filter: Filter, p: nat) {
    p !in deleted && Passes(filter, p)
  }

  /** The live, admitted points of the cells. */
  ghost function InCells(s: Store, deleted: set<nat>, filter: Filter, score: Score, cells: set<nat>): set<Candidate> {
    set p | p in s.assignOf && s.assignOf[p] in cells && Wanted(deleted, filter, p) :: Cand(score, p)
  }

  /** Their positions. */
  ghost function WantedIn(s: Store, deleted: set<nat>, filter: Filter, cells: set<nat>): set<nat> {
    set p | p in s.assignOf && s.assignOf[p] in cells && Wanted(deleted, filter, p)
  }

  ghost function Images(score: Score, ps: set<nat>): set<Candidate> {
    set p | p in ps :: Cand(score, p)
  }

  lemma {:induction false} ImagesSize(score: Score, ps: set<nat>)
    ensures |Images(score, ps)| == |ps|
    decreases ps
  {
    if ps == {} {
      assert Images(score, ps) == {};
    } else {
      var p :| p in ps;
      ImagesSize(score, ps - {p});
      assert Images(score, ps) == Images(score, ps - {p}) + {Cand(score, p)};
    }
  }

  /** However they are scored, there are as many candidates as wanted points. */
  lemma InCellsSize(s: Store, deleted: set<nat>, filter: Filter, score: Score, cells: set<nat>)
    ensures |InCells(s, deleted, filter, score, cells)| == |WantedIn(s, deleted, filter, cells)|
  {
    ImagesSize(score, WantedIn(s, deleted, filter, cells));
    assert InCells(s, deleted, filter, score, cells) == Images(score, WantedIn(s, deleted, filter, cells));
  }

  function PosOf(list: seq<Entry>): seq<nat> {
    seq(|list|, i requires 0 <= i < |list| => list[i].pos)
  }

  ghost function Among(deleted: set<nat>, filter: Filter, score: Score, ps: seq<nat>): set<Candidate> {
    set p | p in ps && Wanted(deleted, filter, p) :: Cand(score, p)
  }

  lemma AmongMore(deleted: set<nat>, filter: Filter, score: Score, ps: seq<nat>, p: nat)
    requires p !in ps
    ensures Cand(score, p) !in Among(deleted, filter, score, ps)
    ensures Among(deleted, filter, score, ps + [p]) ==
            Among(deleted, filter, score, ps) + if Wanted(deleted, filter, p) then {Cand(score, p)} else {}
  {
    assert forall q :: q in ps + [p] <==> q in ps || q == p;
  }

  lemma CellIs(s: Store, coarse: Distance, deleted: set<nat>, filter: Filter, score: Score, cells: set<nat>, c: nat)
    requires StoreOk(s, coarse) && c < |s.lists|
    ensures InCells(s, deleted, filter, score, cells + {c}) ==
            InCells(s, deleted, filter, score, cells) + Among(deleted, filter, score, PosOf(s.lists[c]))
    ensures c !in cells ==>
      InCells(s, deleted, filter, score, cells) !! Among(deleted, filter, score, PosOf(s.lists[c]))
  {
    forall p: nat ensures p in s.assignOf && s.assignOf[p] == c <==> p in PosOf(s.lists[c]) {
      assert Placed(s, p);
      if p in PosOf(s.lists[c]) {
        var j :| 0 <= j < |PosOf(s.lists[c])| && PosOf(s.lists[c])[j] == p;
        assert EntryOk(s, c, j);
      }
      if p in s.assignOf && s.assignOf[p] == c {
        var j :| 0 <= j < |s.lists[c]| && s.lists[c][j].pos == p;
        assert PosOf(s.lists[c])[j] == p;
      }
    }
  }

  // ---- choosing cells ----

  function Count(n: nat): seq<nat> {
    seq(n, i requires 0 <= i < n => i)
  }

  function CellScore(centroids: seq<Vec>, coarse: Distance, query: Vec): Score {
    (c: nat) => if c < |centroids| then coarse(query, centroids[c]) else 0.0
  }

  /** Every cell with the distance of its centroid to the query. */
  ghost function Cells(centroids: seq<Vec>, coarse: Distance, query: Vec): set<Candidate> {
    Measured(CellScore(centroids, coarse, query), Count(|centroids|))
  }

  ghost function AsSet(ps: seq<nat>): set<nat> {
    set p | p in ps
  }

  lemma CellsListed(centroids: seq<Vec>, coarse: Distance, query: Vec)
    ensures Lists(Measure(CellScore(centroids, coarse, query), Count(|centroids|)), Cells(centroids, coarse, query))
  {
    MeasureLists(CellScore(centroids, coarse, query), Count(|centroids|));
  }

  /** A list of probes: real cells, each once. */
  ghost predicate ProbesOk(centroids: seq<Vec>, coarse: Distance, query: Vec, n: nat, probes: seq<Candidate>) {
    IsTopK(probes, Cells(centroids, coarse, query), n)
  }

  lemma ProbesAre(centroids: seq<Vec>, coarse: Distance, query: Vec, n: nat, probes: seq<Candidate>)
    requires ProbesOk(centroids, coarse, query, n, probes)
    ensures forall i :: 0 <= i < |probes| ==> probes[i].pos < |centroids|
    ensures NoDup(Positions(probes))
  {
    var score := CellScore(centroids, coarse, query);
    forall i | 0 <= i < |probes| ensures probes[i] == Cand(score, probes[i].pos) && probes[i].pos < |centroids| {
      assert probes[i] in Cells(centroids, coarse, query);
    }
    RankedScored(probes, score);
  }

  /** Asking for as many probes as there are cells takes them all. */
  lemma AllProbed(centroids: seq<Vec>, coarse: Distance, query: Vec, n: nat, probes: seq<Candidate>)
    requires ProbesOk(centroids, coarse, query, n, probes) && n >= |centroids|
    ensures forall c: nat :: c < |centroids| ==> c in AsSet(Positions(probes))
  {
    var all := Cells(centroids, coarse, query);
    var score := CellScore(centroids, coarse, query);
    CellsListed(centroids, coarse, query);
    ListsFacts(Measure(score, Count(|centroids|)), all);
    RankedElems(probes);
    SubsetEqual(Elems(probes), all);
    forall c: nat | c < |centroids| ensures c in AsSet(Positions(probes)) {
      assert Count(|centroids|)[c] == c;
      assert Cand(score, c) in all;
      assert Cand(score, c) in probes;
      var i :| 0 <= i < |probes| && probes[i] == Cand(score, c);
      assert Positions(probes)[i] == c;
    }
  }

  // ---- what a search answers ----

  /** With exact distances, the k best of the probed cells; through a codec, the k best by
      exact distance of a shortlist that is best by the codec's distance. */
  ghost predicate Answered(s: Store, deleted: set<nat>, filter: Filter, dist: Distance, query: Vec, k: nat, limit: nat,
                           cells: set<nat>, out: seq<Candidate>) {
    var pool := InCells(s, deleted, filter, ScanScore(s, dist, query), cells);
    if s.codec.None? then IsTopK(out, pool, k)
    else exists short ::
        IsTopK(short, pool, limit) && IsTopK(out, Measured(ExactScore(s, dist, query), Positions(short)), k)
  }

  lemma PoolScored(s: Store, deleted: set<nat>, filter: Filter, score: Score, cells: set<nat>, cands: seq<Candidate>)
    requires Ranked(cands) && forall i :: 0 <= i < |cands| ==> cands[i] in InCells(s, deleted, filter, score, cells)
    ensures Scored(cands, score)
  {
    RankedScored(cands, score);
  }

  /** The shortlist holds every wanted point when it is long enough for them. */
  lemma ShortlistAll(s: Store, deleted: set<nat>, filter: Filter, score: Score, exact: Score, cells: set<nat>,
                     limit: nat, short: seq<Candidate>)
    requires IsTopK(short, InCells(s, deleted, filter, score, cells), limit)
    requires |InCells(s, deleted, filter, score, cells)| <= limit
    ensures Measured(exact, Positions(short)) == InCells(s, deleted, filter, exact, cells)
  {
    var pool := InCells(s, deleted, filter, score, cells);
    RankedElems(short);
    SubsetEqual(Elems(short), pool);
    forall p: nat
      ensures p in Positions(short) <==> p in s.assignOf && s.assignOf[p] in cells && Wanted(deleted, filter, p)
    {
      if p in Positions(short) {
        var i :| 0 <= i < |Positions(short)| && Positions(short)[i] == p;
        assert short[i] in pool;
      }
      if p in s.assignOf && s.assignOf[p] in cells && Wanted(deleted, filter, p) {
        assert Cand(score, p) in pool;
        assert Cand(score, p) in short;
        var i :| 0 <= i < |short| && short[i] == Cand(score, p);
        assert Positions(short)[i] == p;
      }
    }
  }

  /** An answer with as many members as there are wanted points, up to k; and through a codec
      whose shortlist has room for all of those, the k best by exact distance. */
  ghost predicate Full(s: Store, deleted: set<nat>, filter: Filter, dist: Distance, query: Vec, k: nat, limit: nat,
                       cells: set<nat>, out: seq<Candidate>) {
    && Answered(s, deleted, filter, dist, query, k, limit, cells, out)
    && |out| == Min(k, |WantedIn(s, deleted, filter, cells)|)
    && (s.codec.Some? && |WantedIn(s, deleted, filter, cells)| <= limit ==>
          IsTopK(out, InCells(s, deleted, filter, ExactScore(s, dist, query), cells), k))
  }

  lemma AnsweredFull(s: Store, deleted: set<nat>, filter: Filter, dist: Distance, query: Vec, k: nat, limit: nat,
                     cells: set<nat>, out: seq<Candidate>)
    requires Answered(s, deleted, filter, dist, query, k, limit, cells, out) && k <= limit
    ensures Full(s, deleted, filter, dist, query, k, limit, cells, out)
  {
    var exact, score := ExactScore(s, dist, query), ScanScore(s, dist, query);
    var pool := InCells(s, deleted, filter, score, cells);
    InCellsSize(s, deleted, filter, score, cells);
    if s.codec.Some? {
      var short :| IsTopK(short, pool, limit) && IsTopK(out, Measured(exact, Positions(short)), k);
      PoolScored(s, deleted, filter, score, cells, short);
      MeasureLists(exact, Positions(short));
      ListsFacts(Measure(exact, Positions(short)), Measured(exact, Positions(short)));
      if |pool| <= limit {
        ShortlistAll(s, deleted, filter, score, exact, cells, limit, short);
      }
    }
  }

  /** Over every cell, the exact pool is what the flat scan sees. */
  lemma EveryCell(s: Store, coarse: Distance, deleted: set<nat>, filter: Filter, dist: Distance, query: Vec,
                  cells: set<nat>)
    requires StoreOk(s, coarse) && forall c: nat :: c < |s.centroids| ==> c in cells
    ensures InCells(s, deleted, filter, ExactScore(s, dist, query), cells)
            == Flat.Pool(s.vecs, deleted, filter, dist, query)
    ensures s.codec.None? ==>
      InCells(s, deleted, filter, ScanScore(s, dist, query), cells) == Flat.Pool(s.vecs, deleted, filter, dist, query)
  {
    forall p: nat ensures p in s.vecs <==> p in s.assignOf && s.assignOf[p] in cells {
      assert Placed(s, p);
    }
    forall p: nat | p in s.vecs
      ensures ExactScore(s, dist, query)(p) == dist(query, s.vecs[p])
      ensures s.codec.None? ==> ScanScore(s, dist, query)(p) == dist(query, s.vecs[p])
    {
    }
  }

  /** Agreement with brute force: probing every cell returns the flat scan's list, exactly
      or through a codec whose shortlist has room for every wanted point. */
  lemma MatchesFlat(s: Store, coarse: Distance, deleted: set<nat>, filter: Filter, dist: Distance, query: Vec,
                    k: nat, limit: nat, nprobe: nat, probes: seq<Candidate>, out: seq<Candidate>, flat: seq<Candidate>)
    requires StoreOk(s, coarse) && nprobe >= |s.centroids| && ProbesOk(s.centroids, coarse, query, nprobe, probes)
    requires Answered(s, deleted, filter, dist, query, k, limit, AsSet(Positions(probes)), out)
    requires s.codec.None? || |WantedIn(s, deleted, filter, AsSet(Positions(probes)))| <= limit
    requires IsTopK(flat, Flat.Pool(s.vecs, deleted, filter, dist, query), k)
    ensures out == flat
  {
    var cells := AsSet(Positions(probes));
    AllProbed(s.centroids, coarse, query, nprobe, probes);
    EveryCell(s, coarse, deleted, filter, dist, query, cells);
    if s.codec.Some? {
      var exact, score := ExactScore(s, dist, query), ScanScore(s, dist, query);
      var short :| && IsTopK(short, InCells(s, deleted, filter, score, cells), limit)
                   && IsTopK(out, Measured(exact, Positions(short)), k);
      InCellsSize(s, deleted, filter, score, cells);
      ShortlistAll(s, deleted, filter, score, exact, cells, limit, short);
    }
    TopKUnique(out, flat, Flat.Pool(s.vecs, deleted, filter, dist, query), k);
  }

  /** How many cells are trained for n points: as many as asked for, as long as each has
      39 points on average, and at least one. */
  function CellCount(configured: int, guess: int, n: nat): (r: nat)
    requires n > 0
    ensures 1 <= r <= n
    ensures var asked := if configured > 0 then configured else guess;
            (r == 1 || (r <= asked && 39 * r <= n)) && (r >= asked || 39 * (r + 1) > n)
  {
    var a := if configured <= 0 then guess else configured;
    var b := if a > n then n else a;
    var c := if n < 39 * b then n / 39 else b;
    if c < 1 then 1 else c
  }

  class IVF {
    const dim: nat
    const dist: Distance
    const coarse: Distance
    var nlist: int
    const nprobe: nat
    var centroids: seq<Vec>
    var lists: seq<seq<Entry>>
    var assignOf: map<nat, nat>
    var vecs: map<nat, Vec>
    var deleted: set<nat>
    var codec: Option<Codec>

    function Now(): Store
      reads this
    {
      Store(centroids, lists, assignOf, vecs, codec)
    }

    /** Untrained, or trained with the posting lists in order. */
    ghost predicate Valid()
      reads this
    {
      && nprobe >= 1
      && (centroids == [] ==> lists == [])
      && (centroids != [] ==> nlist == |centroids| && StoreOk(Now(), coarse) && deleted <= vecs.Keys)
    }

    constructor (d: nat, distance: Distance, coarseDistance: Distance, cells: int, probes: int)
      ensures Valid() && dim == d && dist == distance && coarse == coarseDistance && centroids == [] && vecs == map[]
      ensures nlist == cells && nprobe == if probes > 0 then probes else 16
    {
      dim, dist, coarse, nlist := d, distance, coarseDistance, cells;
      nprobe := if probes <= 0 then 16 else probes;
      centroids, lists, assignOf, vecs, deleted, codec := [], [], map[], map[], {}, None;
    }

    /** The cell of the nearest centroid. */
    method CoarseQuantize(vec: Vec) returns (best: nat)
      requires centroids != []
      ensures NearestCell(centroids, coarse, vec, best)
    {
      best := 0;
      var bestD := MAX_FLOAT32;
      var c := 0;
      while c < |centroids|
        invariant 0 <= c <= |centroids| && best < |centroids|
        invariant (bestD == MAX_FLOAT32 && best == 0) || bestD == coarse(vec, centroids[best]) < MAX_FLOAT32
        invariant forall i :: 0 <= i < c ==> coarse(vec, centroids[i]) >= bestD
        invariant forall i :: 0 <= i < best ==> coarse(vec, centroids[i]) > bestD
      {
        var d := coarse(vec, centroids[c]);
        if d < bestD {
          bestD, best := d, c;
        }
        c := c + 1;
      }
    }

    /** Appends a point to its nearest cell. */
    method Append(pos: nat, vec: Vec)
      requires centroids != [] && StoreOk(Now(), coarse)
      modifies this`lists, this`assignOf, this`vecs
      ensures vecs == old(vecs)[pos := vec] && pos in assignOf
      ensures NearestCell(centroids, coarse, vec, assignOf[pos]) && Now() == Place(old(Now()), pos, vec, assignOf[pos])
      ensures StoreOk(Now(), coarse) <==> pos !in old(assignOf)
    {
      var c := CoarseQuantize(vec);
      var code := if codec.Some? then codec.value.encode(Sub(vec, centroids[c])) else [];
      PlaceExact(Now(), coarse, pos, vec, c);
      lists := lists[c := lists[c] + [Entry(pos, code)]];
      assignOf := assignOf[pos := c];
      vecs := vecs[pos := vec];
    }

    /** Trains and assigns every position.  The trainers are arguments. */
    method Build(positions: seq<nat>, vectorAt: nat -> Vec, guess: int, train: nat -> seq<Vec>, residual: Option<Codec>)
      requires Valid() && NoDup(positions) && forall n :: |train(n)| == n
      modifies this
      ensures Valid() && (centroids == [] <==> positions == [])
      ensures positions != [] ==> vecs.Keys == (set p | p in positions) && deleted == {} && codec == residual
      ensures positions != [] ==> centroids == train(CellCount(old(nlist), guess, |positions|))
      ensures positions != [] ==> forall p :: p in positions ==> vecs[p] == Fit(vectorAt(p), dim)
    {
      if positions == [] {
        centroids, lists := [], [];
        return;
      }
      nlist := CellCount(nlist, guess, |positions|);
      centroids, codec := train(nlist), residual;
      lists, assignOf, vecs, deleted := seq(nlist, i => []), map[], map[], {};
      AssignAll(positions, vectorAt);
    }

    method AssignAll(positions: seq<nat>, vectorAt: nat -> Vec)
      requires centroids != [] && StoreOk(Now(), coarse) && assignOf == map[] && NoDup(positions)
      modifies this`lists, this`assignOf, this`vecs
      ensures StoreOk(Now(), coarse) && vecs.Keys == (set p | p in positions)
      ensures forall p :: p in positions ==> vecs[p] == Fit(vectorAt(p), dim)
    {
      var i := 0;
      while i < |positions|
        invariant 0 <= i <= |positions| && StoreOk(Now(), coarse)
        invariant vecs.Keys == (set p | p in positions[..i])
        invariant forall p :: p in positions[..i] ==> vecs[p] == Fit(vectorAt(p), dim)
      {
        assert positions[i] !in positions[..i];
        assert positions[..i + 1] == positions[..i] + [positions[i]];
        Append(positions[i], Fit(vectorAt(positions[i]), dim));
        i := i + 1;
      }
      assert positions[..i] == positions;
    }

    /** Adds a position.  The index stays valid exactly when it was not stored yet, or the
        call is refused. */
    method Insert(pos: nat, vec: Vec) returns (r: Result<(), IndexError>)
      requires Valid()
      modifies this
      ensures centroids == old(centroids) && codec == old(codec)
      ensures Valid() <==> r.Err? || pos !in old(assignOf)
      ensures r == if |vec| != dim then Err(DimMismatch)
                   else if nlist == 0 || centroids == [] then Err(BadParams)
                   else Ok(())
      ensures r.Ok? ==>
        && vecs == old(vecs)[pos := vec] && deleted == old(deleted) - {pos} && pos in assignOf
        && NearestCell(centroids, coarse, vec, assignOf[pos]) && Now() == Place(old(Now()), pos, vec, assignOf[pos])
      ensures r.Err? ==> Now() == old(Now()) && deleted == old(deleted)
    {
      if |vec| != dim {
        return Err(DimMismatch);
      }
      if nlist == 0 || centroids == [] {
        return Err(BadParams);
      }
      deleted := deleted - {pos};
      Append(pos, vec);
      return Ok(());
    }

    method Delete(pos: nat)
      requires Valid()
      modifies this`deleted
      ensures Valid() && deleted == if pos in assignOf then old(deleted) + {pos} else old(deleted)
    {
      if pos in assignOf {
        deleted := deleted + {pos};
      }
    }

    /** The nearest n cells, best first. */
    method RankCells(query: Vec, n: nat) returns (probes: seq<Candidate>)
      ensures ProbesOk(centroids, coarse, query, n, probes)
    {
      var score := CellScore(centroids, coarse, query);
      var cds: seq<Candidate> := [];
      var c := 0;
      while c < |centroids|
        invariant 0 <= c <= |centroids| && cds == Measure(score, Count(c))
      {
        cds := cds + [Candidate(c, coarse(query, centroids[c]))];
        c := c + 1;
      }
      CellsListed(centroids, coarse, query);
      SortRanked(cds, Cells(centroids, coarse, query));
      PrefixIsTopK(Sort(cds), Cells(centroids, coarse, query), n);
      cds := Sort(cds);
      probes := if |cds| > n then cds[..n] else cds;
    }

    /** The k best live, admitted points of the nearest cells.  Through a codec the best 128,
        or k times the factor if that is more, 3 by default, are rescored exactly. */
    method Search(query: Vec, k: int, filter: Filter, probeCount: int, rerankFactor: int)
      returns (r: Result<seq<Candidate>, IndexError>, ghost probes: seq<Candidate>)
      requires Valid()
      ensures r.Err? <==> |query| != dim
      ensures r.Err? ==> r.error == DimMismatch
      ensures r.Ok? && (centroids == [] || k <= 0) ==> r.value == []
      ensures r.Ok? && centroids != [] && k > 0 ==>
        && ProbesOk(centroids, coarse, query, if probeCount <= 0 then nprobe else probeCount, probes)
        && Full(Now(), deleted, filter, dist, query, k, Max(k * (if rerankFactor > 0 then rerankFactor else 3), 128),
                AsSet(Positions(probes)), r.value)
    {
      probes := [];
      if |query| != dim {
        return Err(DimMismatch), probes;
      }
      if nlist == 0 || centroids == [] || k <= 0 {
        return Ok([]), probes;
      }
      var n := if probeCount <= 0 then nprobe else probeCount;
      var cds := RankCells(query, n);
      probes := cds;
      ProbesAre(centroids, coarse, query, n, probes);
      var out := ScanProbes(query, filter, cds);
      if codec.Some? {
        var f := if rerankFactor <= 0 then 3 else rerankFactor;
        var rerankN := k * f;
        MulLe(k, 1, f);
        if rerankN < 128 {
          rerankN := 128;
        }
        out := Rerank(query, filter, rerankN, k, out, AsSet(Positions(cds)));
      } else {
        ghost var limit := k * (if rerankFactor > 0 then rerankFactor else 3);
        out := CutBest(query, filter, k, limit, out, AsSet(Positions(cds)));
      }
      return Ok(out), probes;
    }

    /** Sorts what was scanned and keeps the k best. */
    method CutBest(query: Vec, filter: Filter, k: nat, ghost limit: nat, scanned: seq<Candidate>, ghost cells: set<nat>)
      returns (out: seq<Candidate>)
      requires codec.None?
      requires Lists(scanned, InCells(Now(), deleted, filter, ScanScore(Now(), dist, query), cells))
      ensures Full(Now(), deleted, filter, dist, query, k, Max(limit, 128), cells, out)
    {
      ghost var pool := InCells(Now(), deleted, filter, ScanScore(Now(), dist, query), cells);
      InCellsSize(Now(), deleted, filter, ScanScore(Now(), dist, query), cells);
      SortRanked(scanned, pool);
      out := Sort(scanned);
      PrefixIsTopK(out, pool, k);
      out := if |out| > k then out[..k] else out;
    }

    method ScanProbes(query: Vec, filter: Filter, cds: seq<Candidate>) returns (out: seq<Candidate>)
      requires StoreOk(Now(), coarse) && NoDup(Positions(cds))
      requires forall i :: 0 <= i < |cds| ==> cds[i].pos < |lists|
      ensures Lists(out, InCells(Now(), deleted, filter, ScanScore(Now(), dist, query), AsSet(Positions(cds))))
    {
      out := [];
      ghost var cells := {};
      var i := 0;
      while i < |cds|
        invariant 0 <= i <= |cds| && cells == AsSet(Positions(cds)[..i])
        invariant Lists(out, InCells(Now(), deleted, filter, ScanScore(Now(), dist, query), cells))
      {
        assert Positions(cds)[..i + 1] == Positions(cds)[..i] + [Positions(cds)[i]];
        assert Positions(cds)[i] == cds[i].pos;
        out := ScanCell(Now(), coarse, dist, deleted, filter, query, cds[i].pos, out, cells);
        cells := cells + {cds[i].pos};
        i := i + 1;
      }
      assert Positions(cds)[..i] == Positions(cds);
    }

    /** Cuts to a shortlist, rescoring it exactly. */
    method Rerank(query: Vec, filter: Filter, limit: nat, k: nat, scanned: seq<Candidate>, ghost cells: set<nat>)
      returns (out: seq<Candidate>)
      requires codec.Some? && vecs.Keys == assignOf.Keys && k <= limit
      requires Lists(scanned, InCells(Now(), deleted, filter, ScanScore(Now(), dist, query), cells))
      ensures Full(Now(), deleted, filter, dist, query, k, limit, cells, out)
    {
      ghost var score := ScanScore(Now(), dist, query);
      ghost var exact := ExactScore(Now(), dist, query);
      ghost var pool := InCells(Now(), deleted, filter, score, cells);
      SortRanked(scanned, pool);
      out := Sort(scanned);
      PrefixIsTopK(out, pool, limit);
      out := if |out| > limit then out[..limit] else out;
      ghost var short := out;
      PoolScored(Now(), deleted, filter, score, cells, short);
      out := Rescore(Now(), dist, query, out);
      MeasureLists(exact, Positions(short));
      SortRanked(out, Measured(exact, Positions(short)));
      out := Sort(out);
      PrefixIsTopK(out, Measured(exact, Positions(short)), k);
      out := if |out| > k then out[..k] else out;
      AnsweredFull(Now(), deleted, filter, dist, query, k, limit, cells, out);
    }
  }

  /** Exact distances in place of the codec's. */
  method Rescore(s: Store, dist: Distance, query: Vec, short: seq<Candidate>) returns (out: seq<Candidate>)
    requires forall i :: 0 <= i < |short| ==> short[i].pos in s.vecs
    ensures out == Measure(ExactScore(s, dist, query), Positions(short))
  {
    out := short;
    ghost var done := Measure(ExactScore(s, dist, query), Positions(short));
    var i := 0;
    while i < |out|
      invariant 0 <= i <= |out| == |short|
      invariant forall j :: 0 <= j < i ==> out[j] == done[j]
      invariant forall j :: i <= j < |short| ==> out[j] == short[j]
    {
      out := out[i := Candidate(out[i].pos, dist(query, s.vecs[out[i].pos]))];
      i := i + 1;
    }
  }

  /** Adds one cell's wanted points to what has been collected. */
  method ScanCell(s: Store, ghost coarse: Distance, dist: Distance, deleted: set<nat>, filter: Filter, query: Vec,
                  c: nat, sofar: seq<Candidate>, ghost cells: set<nat>)
    returns (out: seq<Candidate>)
    requires StoreOk(s, coarse) && c < |s.lists| && c !in cells
    requires Lists(sofar, InCells(s, deleted, filter, ScanScore(s, dist, query), cells))
    ensures Lists(out, InCells(s, deleted, filter, ScanScore(s, dist, query), cells + {c}))
  {
    ghost var score := ScanScore(s, dist, query);
    CellIs(s, coarse, deleted, filter, score, cells, c);
    out := sofar;
    var j := 0;
    assert Partial(s, deleted, filter, score, cells, c, j) == InCells(s, deleted, filter, score, cells);
    while j < |s.lists[c]|
      invariant 0 <= j <= |s.lists[c]|
      invariant Lists(out, Partial(s, deleted, filter, score, cells, c, j))
    {
      out := ScanEntry(s, coarse, dist, deleted, filter, query, c, j, out, cells);
      j := j + 1;
    }
    assert s.lists[c][..j] == s.lists[c];
  }

  /** The cells collected so far and the first j entries of the next. */
  ghost function Partial(s: Store, deleted: set<nat>, filter: Filter, score: Score, cells: set<nat>, c: nat,
                         j: nat): set<Candidate>
    requires c < |s.lists| && j <= |s.lists[c]|
  {
    InCells(s, deleted, filter, score, cells) + Among(deleted, filter, score, PosOf(s.lists[c][..j]))
  }

  method ScanEntry(s: Store, ghost coarse: Distance, dist: Distance, deleted: set<nat>, filter: Filter, query: Vec,
                   c: nat, j: nat, sofar: seq<Candidate>, ghost cells: set<nat>)
    returns (out: seq<Candidate>)
    requires StoreOk(s, coarse) && c < |s.lists| && j < |s.lists[c]| && c !in cells
    requires Lists(sofar, Partial(s, deleted, filter, ScanScore(s, dist, query), cells, c, j))
    ensures Lists(out, Partial(s, deleted, filter, ScanScore(s, dist, query), cells, c, j + 1))
  {
    var e := s.lists[c][j];
    ghost var score := ScanScore(s, dist, query);
    ScanStep(s, coarse, deleted, filter, score, cells, c, j);
    ScoreIs(s, coarse, dist, query, c, j);
    if e.pos in deleted || !Passes(filter, e.pos) {
      return sofar;
    }
    var d := if s.codec.Some? then s.codec.value.adc(Sub(query, s.centroids[c]), e.code)
             else dist(query, s.vecs[e.pos]);
    out := sofar + [Candidate(e.pos, d)];
    ListsPush(sofar, out, Partial(s, deleted, filter, score, cells, c, j), Cand(score, e.pos));
  }

  lemma ScoreIs(s: Store, coarse: Distance, dist: Distance, query: Vec, c: nat, j: nat)
    requires StoreOk(s, coarse) && c < |s.lists| && j < |s.lists[c]|
    ensures var e := s.lists[c][j];
            e.pos in s.vecs && ScanScore(s, dist, query)(e.pos) ==
            if s.codec.Some? then s.codec.value.adc(Sub(query, s.centroids[c]), e.code) else dist(query, s.vecs[e.pos])
  {
    assert EntryOk(s, c, j);
  }

  lemma ScanStep(s: Store, coarse: Distance, deleted: set<nat>, filter: Filter, score: Score, cells: set<nat>, c: nat,
                 j: nat)
    requires StoreOk(s, coarse) && c < |s.lists| && j < |s.lists[c]| && c !in cells
    ensures var p := s.lists[c][j].pos;
            var before := Partial(s, deleted, filter, score, cells, c, j);
            && Cand(score, p) !in before
            && Partial(s, deleted, filter, score, cells, c, j + 1)
               == before + if Wanted(deleted, filter, p) then {Cand(score, p)} else {}
  {
    var ps, p := PosOf(s.lists[c][..j]), s.lists[c][j].pos;
    assert PosOf(s.lists[c][..j + 1]) == ps + [p];
    assert Apart(s, c) && EntryOk(s, c, j);
    AmongMore(deleted, filter, score, ps, p);
  }
}
