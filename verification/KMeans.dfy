/** K-means training (quant/kmeans.go, index/kmeans.go): the loops, over arrays of rows. */
module KMeans {
  import opened Prelude
  import opened Vectors
  import opened Lloyd

  ghost predicate Rows(data: seq<Vec>, d: nat) {
    forall i :: 0 <= i < |data| ==> |data[i]| == d
  }

  // ---- assigning ----

  method FindNearest(x: Vec, cents: seq<Vec>, d: nat) returns (best: nat)
    requires |x| == d && Rows(cents, d) && cents != []
    ensures Nearest(x, cents, d, best)
  {
    best := 0;
    var bestD := MAX_FLOAT32;
    var c := 0;
    while c < |cents|
      invariant 0 <= c <= |cents| && best < |cents|
      invariant if bestD == MAX_FLOAT32 then best == 0 else bestD == L2(x, cents[best], d) < MAX_FLOAT32
      invariant forall b :: 0 <= b < c ==> bestD <= L2(x, cents[b], d)
      invariant bestD < MAX_FLOAT32 ==> forall b :: 0 <= b < best ==> bestD < L2(x, cents[b], d)
    {
      var dist := L2(x, cents[c], d);
      if dist < bestD {
        bestD, best := dist, c;
      }
      c := c + 1;
    }
  }

  /** Moves every point to its nearest centroid and reports whether any moved. */
  method AssignStep(data: seq<Vec>, d: nat, centroids: array<Vec>, assign: array<nat>) returns (changed: bool)
    requires Rows(data, d) && Rows(centroids[..], d) && centroids.Length >= 1 && assign.Length == |data|
    modifies assign
    ensures forall i :: 0 <= i < |data| ==> Nearest(data[i], centroids[..], d, assign[i])
    ensures changed <==> assign[..] != old(assign[..])
  {
    changed := false;
    var i := 0;
    while i < |data|
      invariant 0 <= i <= |data|
      invariant forall j :: 0 <= j < i ==> Nearest(data[j], centroids[..], d, assign[j])
      invariant forall j :: i <= j < |data| ==> assign[j] == old(assign[j])
      invariant changed <==> exists j :: 0 <= j < i && assign[j] != old(assign[j])
    {
      var best := FindNearest(data[i], centroids[..], d);
      if assign[i] != best {
        assign[i] := best;
        changed := true;
      }
      i := i + 1;
    }
    if changed {
      ghost var j :| 0 <= j < i && assign[j] != old(assign[j]);
      assert assign[..][j] != old(assign[..])[j];
    }
  }

  // ---- recentring ----

  /** Sums and counts of the clusters over the first n points. */
  ghost predicate Tallied(data: seq<Vec>, assign: seq<nat>, d: nat, sums: seq<Vec>, counts: seq<nat>, n: nat)
    requires Rows(data, d) && n <= |data| == |assign|
  {
    && |sums| == |counts|
    && forall c :: 0 <= c < |sums| ==> sums[c] == SumOf(data, assign, d, c, n) && counts[c] == CountOf(assign, c, n)
  }

  ghost function Sums(data: seq<Vec>, assign: seq<nat>, d: nat, k: nat): (r: seq<Vec>)
    requires Rows(data, d) && |data| == |assign|
    ensures |r| == k
  {
    seq(k, c requires 0 <= c < k => SumOf(data, assign, d, c, |data|))
  }

  method Tally(data: seq<Vec>, d: nat, centroids: array<Vec>, assign: array<nat>, counts: array<nat>)
    requires Rows(data, d) && assign.Length == |data| && counts.Length == centroids.Length && counts != assign
    requires forall i :: 0 <= i < assign.Length ==> assign[i] < centroids.Length
    modifies centroids, counts
    ensures Tallied(data, assign[..], d, centroids[..], counts[..], |data|)
  {
    var c := 0;
    while c < centroids.Length
      invariant 0 <= c <= centroids.Length
      invariant forall b :: 0 <= b < c ==> centroids[b] == Zero(d) && counts[b] == 0
    {
      counts[c], centroids[c] := 0, Zero(d);
      c := c + 1;
    }
    ghost var a := assign[..];
    var i := 0;
    while i < |data|
      invariant 0 <= i <= |data| && assign[..] == a
      invariant Tallied(data, a, d, centroids[..], counts[..], i)
    {
      var b := assign[i];
      ghost var sums, tallies := centroids[..], counts[..];
      counts[b] := counts[b] + 1;
      centroids[b] := Add(centroids[b], data[i]);
      assert centroids[..] == sums[b := Add(sums[b], data[i])] && counts[..] == tallies[b := tallies[b] + 1];
      i := i + 1;
    }
  }

  /** The point farthest from the centroid it is assigned to, as the centroids stand;
      any point when all are assigned to c. */
  method FindWorst(data: seq<Vec>, d: nat, cents: seq<Vec>, assign: seq<nat>, c: nat, draw: nat) returns (worst: nat)
    requires Shaped(data, cents, assign, d) && data != []
    ensures worst < |data|
    ensures (exists i :: 0 <= i < |data| && assign[i] != c) ==> assign[worst] != c
    ensures forall i :: 0 <= i < |data| && assign[i] != c ==>
      L2(data[i], cents[assign[i]], d) <= L2(data[worst], cents[assign[worst]], d)
  {
    worst := draw % |data|;
    var worstD := -1.0;
    var i := 0;
    while i < |data|
      invariant 0 <= i <= |data| && worst < |data|
      invariant worstD == -1.0 || (assign[worst] != c && worstD == L2(data[worst], cents[assign[worst]], d))
      invariant forall j :: 0 <= j < i && assign[j] != c ==>
        worstD != -1.0 && L2(data[j], cents[assign[j]], d) <= worstD
    {
      if assign[i] != c {
        var dist := L2(data[i], cents[assign[i]], d);
        L2NonNeg(data[i], cents[assign[i]], d);
        if dist > worstD {
          worstD, worst := dist, i;
        }
      }
      i := i + 1;
    }
  }

  /** A centroid without points restarts at the point farthest from its own centroid, as
      the centroids stand when its turn comes. */
  ghost predicate Restarted(data: seq<Vec>, assign: seq<nat>, d: nat, mid: seq<Vec>, c: nat, x: Vec) {
    && Shaped(data, mid, assign, d)
    && (CountOf(assign, c, |assign|) == 0 ==>
          exists w :: 0 <= w < |data| && x == data[w] && forall i :: 0 <= i < |data| && assign[i] != c ==>
            L2(data[i], mid[assign[i]], d) <= L2(data[w], mid[assign[w]], d))
  }

  method Place(data: seq<Vec>, d: nat, centroids: array<Vec>, assign: array<nat>, count: nat, c: nat, draw: nat)
    requires Shaped(data, centroids[..], assign[..], d) && data != [] && c < centroids.Length
    requires centroids[c] == SumOf(data, assign[..], d, c, |data|) && count == CountOf(assign[..], c, |data|)
    modifies centroids
    ensures centroids[..] == old(centroids[..])[c := centroids[c]]
    ensures Finished(data, assign[..], d, c, centroids[c])
    ensures Restarted(data, assign[..], d, old(centroids[..]), c, centroids[c])
  {
    if count == 0 {
      var worst := FindWorst(data, d, centroids[..], assign[..], c, draw);
      centroids[c] := data[worst];
    } else {
      centroids[c] := Scale(centroids[c], 1.0 / count as real);
    }
  }

  /** Centroids before the c-th are final while the others are still sums. */
  ghost predicate PlacedAt(data: seq<Vec>, assign: seq<nat>, d: nat, sums: seq<Vec>, now: seq<Vec>, c: nat)
    requires Rows(data, d) && |data| == |assign| && |now| == |sums|
  {
    c < |now| ==> Finished(data, assign, d, c, now[c]) && Restarted(data, assign, d, Half(sums, now, c), c, now[c])
  }

  ghost predicate AllPlaced(data: seq<Vec>, assign: seq<nat>, d: nat, sums: seq<Vec>, now: seq<Vec>) {
    && Rows(data, d) && |data| == |assign| && |now| == |sums|
    && forall c: nat :: PlacedAt(data, assign, d, sums, now, c)
  }

  method Divide(data: seq<Vec>, d: nat, centroids: array<Vec>, assign: array<nat>, counts: array<nat>,
                draws: nat -> nat)
    requires Rows(data, d) && data != [] && assign.Length == |data| && counts.Length == centroids.Length
    requires counts != assign
    requires forall i :: 0 <= i < assign.Length ==> assign[i] < centroids.Length
    requires Tallied(data, assign[..], d, centroids[..], counts[..], |data|)
    modifies centroids
    ensures AllPlaced(data, assign[..], d, old(centroids[..]), centroids[..])
  {
    ghost var a, sums := assign[..], centroids[..];
    assert Shaped(data, sums, a, d);
    var c := 0;
    while c < centroids.Length
      invariant 0 <= c <= centroids.Length && Shaped(data, centroids[..], a, d) && sums[c..] == centroids[c..]
      invariant forall b :: 0 <= b < c ==> PlacedAt(data, a, d, sums, centroids[..], b)
    {
      ghost var was := centroids[..];
      assert was == Half(sums, was, c) && centroids[c] == sums[c];
      Place(data, d, centroids, assign, counts[c], c, draws(c));
      PlacedNext(data, a, d, sums, was, centroids[..], c);
      c := c + 1;
    }
    forall b: nat ensures PlacedAt(data, a, d, sums, centroids[..], b) {
    }
  }

  lemma PlacedNext(data: seq<Vec>, assign: seq<nat>, d: nat, sums: seq<Vec>, was: seq<Vec>, now: seq<Vec>, c: nat)
    requires Shaped(data, was, assign, d) && c < |was| == |now| == |sums| && was == Half(sums, was, c)
    requires now == was[c := now[c]]
    requires Finished(data, assign, d, c, now[c]) && Restarted(data, assign, d, was, c, now[c])
    requires forall b :: 0 <= b < c ==> PlacedAt(data, assign, d, sums, was, b)
    ensures Shaped(data, now, assign, d) && sums[c + 1..] == now[c + 1..]
    ensures forall b :: 0 <= b < c + 1 ==> PlacedAt(data, assign, d, sums, now, b)
  {
    assert forall j :: c <= j < |was| ==> was[j] == sums[j] by {
      forall j | c <= j < |was| ensures was[j] == sums[j] {
        assert Half(sums, was, c)[j] == sums[j];
      }
    }
    forall b | 0 <= b < c + 1 ensures PlacedAt(data, assign, d, sums, now, b) {
      assert Half(sums, now, b) == Half(sums, was, b);
      assert b < c ==> PlacedAt(data, assign, d, sums, was, b);
    }
  }

  lemma PlacedFinished(data: seq<Vec>, assign: seq<nat>, d: nat, sums: seq<Vec>, now: seq<Vec>)
    requires AllPlaced(data, assign, d, sums, now)
    ensures forall c: nat :: c < |now| ==> Finished(data, assign, d, c, now[c])
  {
    forall c: nat | c < |now| ensures Finished(data, assign, d, c, now[c]) {
      assert PlacedAt(data, assign, d, sums, now, c);
    }
  }

  /** Recomputes every centroid from the assignment. */
  method UpdateStep(data: seq<Vec>, d: nat, centroids: array<Vec>, assign: array<nat>, counts: array<nat>,
                    draws: nat -> nat)
    requires Rows(data, d) && data != [] && assign.Length == |data| && counts.Length == centroids.Length
    requires counts != assign
    requires forall i :: 0 <= i < assign.Length ==> assign[i] < centroids.Length
    modifies centroids, counts
    ensures AllPlaced(data, assign[..], d, Sums(data, assign[..], d, centroids.Length), centroids[..])
  {
    ghost var a := assign[..];
    Tally(data, d, centroids, assign, counts);
    ghost var sums := centroids[..];
    assert sums == Sums(data, a, d, centroids.Length);
    Divide(data, d, centroids, assign, counts, draws);
    assert assign[..] == a;
  }

  // ---- points that keep every distance below the largest float ----

  ghost predicate InBox(v: Vec, d: nat, b: real) {
    |v| == d && forall j :: 0 <= j < d ==> -b <= v[j] <= b
  }

  /** A bound on the coordinates that keeps every squared distance in range. */
  ghost predicate Bounded(data: seq<Vec>, d: nat, b: real) {
    b >= 0.0 && (forall i :: 0 <= i < |data| ==> InBox(data[i], d, b)) && Times(d, 4.0 * b * b) < MAX_FLOAT32
  }

  ghost predicate Tame(data: seq<Vec>, d: nat) {
    exists b :: Bounded(data, d, b)
  }

  lemma {:induction false} BoxDistance(x: Vec, c: Vec, d: nat, n: nat, b: real, q: real)
    requires InBox(x, d, b) && InBox(c, d, b) && n <= d && q == 4.0 * b * b
    ensures L2(x, c, n) <= Times(n, q)
    decreases n
  {
    if n > 0 {
      BoxDistance(x, c, d, n - 1, b, q);
      assert -b <= x[n - 1] <= b && -b <= c[n - 1] <= b;
      SquareBound(x[n - 1] - c[n - 1], b);
      assert Times(n, q) == Times(n - 1, q) + q;
    }
  }

  lemma SquareBound(t: real, b: real)
    requires -2.0 * b <= t <= 2.0 * b
    ensures t * t <= 4.0 * b * b
  {
    SquareNonNeg(t);
    assert (2.0 * b - t) * (2.0 * b + t) >= 0.0;
    assert (2.0 * b - t) * (2.0 * b + t) == 4.0 * b * b - t * t;
  }

  lemma {:induction false} BoxSum(data: seq<Vec>, assign: seq<nat>, d: nat, c: nat, n: nat, b: real, j: nat)
    requires Rows(data, d) && n <= |data| == |assign| && j < d && forall i :: 0 <= i < |data| ==> InBox(data[i], d, b)
    ensures -Times(CountOf(assign, c, n), b) <= SumOf(data, assign, d, c, n)[j] <= Times(CountOf(assign, c, n), b)
    decreases n
  {
    if n > 0 {
      BoxSum(data, assign, d, c, n - 1, b, j);
      assert InBox(data[n - 1], d, b);
    }
  }

  lemma {:induction false} TimesIs(k: nat, x: real)
    ensures Times(k, x) == k as real * x
    decreases k
  {
    if k > 0 {
      TimesIs(k - 1, x);
      assert k as real * x == (k - 1) as real * x + x;
    }
  }

  /** Means and points of the data stay in its box. */
  lemma BoxFinished(data: seq<Vec>, assign: seq<nat>, d: nat, c: nat, m: Vec, b: real)
    requires Rows(data, d) && |data| == |assign| && (forall i :: 0 <= i < |data| ==> InBox(data[i], d, b))
    requires Finished(data, assign, d, c, m)
    ensures InBox(m, d, b)
  {
    var k := CountOf(assign, c, |assign|);
    if k > 0 {
      var s := SumOf(data, assign, d, c, |assign|);
      forall j | 0 <= j < d ensures -(k as real * b) <= s[j] <= k as real * b {
        BoxSum(data, assign, d, c, |assign|, b, j);
        TimesIs(k, b);
      }
      BoxScaled(s, k as real, b);
    }
  }

  lemma BoxScaled(s: Vec, k: real, b: real)
    requires k > 0.0 && forall j :: 0 <= j < |s| ==> -(k * b) <= s[j] <= k * b
    ensures InBox(Scale(s, 1.0 / k), |s|, b)
  {
    forall j | 0 <= j < |s| ensures -b <= s[j] * (1.0 / k) <= b {
      MeanBound(s[j], k, b);
    }
  }

  lemma MeanBound(s: real, k: real, b: real)
    requires k > 0.0 && -(k * b) <= s <= k * b
    ensures -b <= s * (1.0 / k) <= b
  {
    var m := s * (1.0 / k);
    Undo(s, k);
    Grows(k, b, m);
    Grows(k, m, -b);
  }

  lemma Grows(k: real, x: real, y: real)
    requires k > 0.0
    ensures x < y ==> k * x < k * y
  {
    if x < y {
      assert k * (y - x) > 0.0;
    }
  }

  ghost predicate Boxed(cents: seq<Vec>, d: nat, b: real) {
    forall c :: 0 <= c < |cents| ==> InBox(cents[c], d, b)
  }

  lemma BoxReach(data: seq<Vec>, cents: seq<Vec>, d: nat, b: real)
    requires Bounded(data, d, b) && Boxed(cents, d, b) && cents != []
    ensures AllServed(data, cents, d)
  {
    forall i | 0 <= i < |data| ensures Served(data[i], cents, d) {
      BoxDistance(data[i], cents[0], d, d, b, 4.0 * b * b);
      assert L2(data[i], cents[0], d) < MAX_FLOAT32;
    }
  }

  // ---- training ----

  /** Rounds one after the other. */
  ghost predicate IsRun(data: seq<Vec>, d: nat, stages: seq<Stage>) {
    && (forall t :: 0 <= t < |stages| ==> Shaped(data, stages[t].cents, stages[t].assign, d))
    && (forall t :: 0 <= t < |stages| - 1 ==> IsRound(data, d, stages[t], stages[t + 1]))
  }

  lemma RunMore(data: seq<Vec>, d: nat, stages: seq<Stage>, s: Stage)
    requires IsRun(data, d, stages) && stages != [] && IsRound(data, d, stages[|stages| - 1], s)
    ensures IsRun(data, d, stages + [s])
  {
    var more := stages + [s];
    forall t | 0 <= t < |more| - 1 ensures IsRound(data, d, more[t], more[t + 1]) {
      assert t < |stages| - 1 ==> IsRound(data, d, stages[t], stages[t + 1]);
    }
  }

  /** In a run from centroids in the box, all centroids stay in the box. */
  lemma {:induction false} RunInBox(data: seq<Vec>, d: nat, stages: seq<Stage>, b: real, t: nat)
    requires IsRun(data, d, stages) && t < |stages| && Bounded(data, d, b) && Boxed(stages[0].cents, d, b)
    ensures Boxed(stages[t].cents, d, b)
    decreases t
  {
    if t > 0 {
      RunInBox(data, d, stages, b, t - 1);
      var s := stages[t];
      assert IsRound(data, d, stages[t - 1], stages[t - 1 + 1]);
      forall c | 0 <= c < |s.cents| ensures InBox(s.cents[c], d, b) {
        BoxFinished(data, s.assign, d, c, s.cents[c], b);
      }
    }
  }

  /** Training on data whose distances stay below the largest float serves every point
      well in every round. */
  lemma RunServed(data: seq<Vec>, d: nat, stages: seq<Stage>, t: nat)
    requires IsRun(data, d, stages) && t < |stages| && Tame(data, d)
    requires stages[0].cents != [] && forall c :: 0 <= c < |stages[0].cents| ==> stages[0].cents[c] in data
    ensures AllServed(data, stages[t].cents, d)
  {
    var b :| Bounded(data, d, b);
    BoxStart(data, d, stages[0].cents, b);
    RunInBox(data, d, stages, b, t);
    SameWidth(data, d, stages, t);
    BoxReach(data, stages[t].cents, d, b);
  }

  lemma BoxStart(data: seq<Vec>, d: nat, cents: seq<Vec>, b: real)
    requires Bounded(data, d, b) && forall c :: 0 <= c < |cents| ==> cents[c] in data
    ensures Boxed(cents, d, b)
  {
    forall c | 0 <= c < |cents| ensures InBox(cents[c], d, b) {
      assert cents[c] in data;
    }
  }

  /** So its cost never rises from one stage to a later one. */
  lemma {:induction false} RunLowers(data: seq<Vec>, d: nat, stages: seq<Stage>, i: nat, j: nat)
    requires IsRun(data, d, stages) && i <= j < |stages| && Tame(data, d)
    requires stages[0].cents != [] && forall c :: 0 <= c < |stages[0].cents| ==> stages[0].cents[c] in data
    ensures CostOf(data, d, stages[j]) <= CostOf(data, d, stages[i])
    decreases j
  {
    if i < j {
      RunLowers(data, d, stages, i, j - 1);
      RunServed(data, d, stages, j - 1);
      assert IsRound(data, d, stages[j - 1], stages[j - 1 + 1]);
      RoundLowers(data, d, stages[j - 1], stages[j]);
    }
  }

  ghost predicate NeverRises(data: seq<Vec>, d: nat, stages: seq<Stage>)
    requires IsRun(data, d, stages)
  {
    forall i, j :: 0 <= i <= j < |stages| ==> CostOf(data, d, stages[j]) <= CostOf(data, d, stages[i])
  }

  lemma RunNeverRaises(data: seq<Vec>, d: nat, stages: seq<Stage>)
    requires IsRun(data, d, stages) && stages != []
    requires stages[0].cents != [] && forall c :: 0 <= c < |stages[0].cents| ==> stages[0].cents[c] in data
    ensures Tame(data, d) ==> NeverRises(data, d, stages)
  {
    if Tame(data, d) {
      forall i, j | 0 <= i <= j < |stages| ensures CostOf(data, d, stages[j]) <= CostOf(data, d, stages[i]) {
        RunLowers(data, d, stages, i, j);
      }
    }
  }

  lemma {:induction false} SameWidth(data: seq<Vec>, d: nat, stages: seq<Stage>, t: nat)
    requires IsRun(data, d, stages) && t < |stages|
    ensures |stages[t].cents| == |stages[0].cents|
    decreases t
  {
    if t > 0 {
      SameWidth(data, d, stages, t - 1);
      assert IsRound(data, d, stages[t - 1], stages[t - 1 + 1]);
    }
  }

  /** One round of training on a live pair of arrays. */
  method Round(data: seq<Vec>, d: nat, centroids: array<Vec>, assign: array<nat>, counts: array<nat>, draws: nat -> nat)
    returns (changed: bool)
    requires data != [] && centroids.Length >= 1 && counts.Length == centroids.Length && counts != assign
    requires Shaped(data, centroids[..], assign[..], d)
    modifies centroids, assign, counts
    ensures IsRound(data, d, old(Stage(centroids[..], assign[..])), Stage(centroids[..], assign[..]))
    ensures changed <==> assign[..] != old(assign[..])
  {
    ghost var cents := centroids[..];
    changed := AssignStep(data, d, centroids, assign);
    forall i | 0 <= i < assign.Length ensures assign[i] < centroids.Length {
      assert Nearest(data[i], centroids[..], d, assign[i]);
    }
    ghost var now := assign[..];
    assert Shaped(data, cents, now, d);
    UpdateStep(data, d, centroids, assign, counts, draws);
    assert assign[..] == now;
    PlacedFinished(data, now, d, Sums(data, now, d, centroids.Length), centroids[..]);
  }

  function Initial(data: seq<Vec>, picks: seq<nat>): seq<Vec>
    requires forall c :: 0 <= c < |picks| ==> picks[c] < |data|
  {
    seq(|picks|, c requires 0 <= c < |picks| => data[picks[c]])
  }

  /** Trains from initial centroids drawn among the points, round after round, until the
      iterations are used up or a round after the first moves no point. */
  method Train(data: seq<Vec>, d: nat, k: nat, iters: nat, picks: seq<nat>, draws: nat -> nat)
    returns (centroids: array<Vec>, assign: array<nat>, ghost stages: seq<Stage>)
    requires Rows(data, d) && data != [] && k >= 1
    requires |picks| == Min(k, |data|) && forall c :: 0 <= c < |picks| ==> picks[c] < |data|
    ensures centroids.Length == Min(k, |data|) && Shaped(data, centroids[..], assign[..], d)
    ensures 1 <= |stages| <= iters + 1 && IsRun(data, d, stages)
    ensures stages[0] == Stage(Initial(data, picks), seq(|data|, i => 0))
    ensures stages[|stages| - 1] == Stage(centroids[..], assign[..])
    ensures |stages| <= iters ==> |stages| >= 3 && stages[|stages| - 2].assign == assign[..]
    ensures Tame(data, d) ==> NeverRises(data, d, stages)
  {
    centroids := new Vec[Min(k, |data|)](c requires 0 <= c < |picks| => data[picks[c]]);
    assign := new nat[|data|](i => 0);
    var counts := new nat[centroids.Length](c => 0);
    assert centroids[..] == Initial(data, picks) && assign[..] == seq(|data|, i => 0);
    stages := [Stage(centroids[..], assign[..])];
    ghost var first := stages[0];
    var it, settled := 0, false;
    while it < iters && !settled
      invariant fresh(centroids) && fresh(assign) && fresh(counts) && counts != assign
      invariant centroids.Length == counts.Length == Min(k, |data|) && Shaped(data, centroids[..], assign[..], d)
      invariant it <= iters && |stages| == it + 1 && IsRun(data, d, stages) && stages[0] == first
      invariant stages[it] == Stage(centroids[..], assign[..])
      invariant settled ==> it >= 2 && stages[it - 1].assign == assign[..]
    {
      var changed := Round(data, d, centroids, assign, counts, draws);
      RunMore(data, d, stages, Stage(centroids[..], assign[..]));
      stages := stages + [Stage(centroids[..], assign[..])];
      settled := !changed && it > 0;
      it := it + 1;
    }
    RunNeverRaises(data, d, stages);
  }

  // ---- a run whose cost rises ----

  /** Points on a line. */
  function Line(xs: seq<real>): (r: seq<Vec>)
    ensures |r| == |xs| && forall i :: 0 <= i < |r| ==> r[i] == [xs[i]]
  {
    seq(|xs|, i requires 0 <= i < |xs| => [xs[i]])
  }

  lemma LineDistance(x: real, y: real)
    ensures L2([x], [y], 1) == (x - y) * (x - y)
  {
    assert L2([x], [y], 0) == 0.0;
  }

  /** The total of the cluster's points. */
  function Total(xs: seq<real>, assign: seq<nat>, c: nat, n: nat): real
    requires n <= |xs| == |assign|
    decreases n
  {
    if n == 0 then 0.0 else Total(xs, assign, c, n - 1) + if assign[n - 1] == c then xs[n - 1] else 0.0
  }

  lemma {:induction false} LineSum(xs: seq<real>, assign: seq<nat>, c: nat, n: nat)
    requires n <= |xs| == |assign|
    ensures SumOf(Line(xs), assign, 1, c, n) == [Total(xs, assign, c, n)]
    decreases n
  {
    if n > 0 {
      LineSum(xs, assign, c, n - 1);
    }
  }

  lemma MeanIs(s: real, k: real, m: real)
    requires k > 0.0 && s == k * m
    ensures s * (1.0 / k) == m
  {
    assert k * m * (1.0 / k) == m * (k * (1.0 / k));
  }

  lemma ScaleOne(s: real, f: real, m: real)
    requires s * f == m
    ensures Scale([s], f) == [m]
  {
    assert |Scale([s], f)| == 1 && Scale([s], f)[0] == m;
  }

  lemma MeanOne(s: real, k: nat, m: real)
    requires k > 0 && s == k as real * m
    ensures Scale([s], 1.0 / k as real) == [m]
  {
    MeanIs(s, k as real, m);
    ScaleOne(s, 1.0 / k as real, m);
  }

  lemma MeanVector(data: seq<Vec>, assign: seq<nat>, c: nat, sum: Vec, k: nat, mean: Vec)
    requires Rows(data, 1) && |data| == |assign| && SumOf(data, assign, 1, c, |assign|) == sum
    requires CountOf(assign, c, |assign|) == k > 0 && mean == Scale(sum, 1.0 / k as real)
    ensures Finished(data, assign, 1, c, mean)
  {
  }

  lemma LineMean(xs: seq<real>, assign: seq<nat>, c: nat, s: real, k: nat, m: real)
    requires |xs| == |assign| && CountOf(assign, c, |assign|) == k > 0 && Total(xs, assign, c, |assign|) == s
    requires s == k as real * m
    ensures Finished(Line(xs), assign, 1, c, [m])
  {
    LineSum(xs, assign, c, |assign|);
    MeanOne(s, k, m);
    MeanVector(Line(xs), assign, c, [s], k, [m]);
  }

  /** Which of two centroids on the line a point goes to. */
  lemma LinePick(x: real, a: real, b: real, p: real, q: real)
    ensures p == (x - a) * (x - a) && q == (x - b) * (x - b) ==>
      Nearest([x], Line([a, b]), 1, if q < MAX_FLOAT32 && q < p then 1 else 0)
  {
    LineDistance(x, a);
    LineDistance(x, b);
    var cents := Line([a, b]);
    assert cents[0] == [a] && cents[1] == [b];
  }

  lemma FivePicks(data: seq<Vec>, cents: seq<Vec>, assign: seq<nat>)
    requires |data| == |assign| == 5 && Rows(data, 1) && Rows(cents, 1)
    requires Nearest(data[0], cents, 1, assign[0]) && Nearest(data[1], cents, 1, assign[1])
    requires Nearest(data[2], cents, 1, assign[2]) && Nearest(data[3], cents, 1, assign[3])
    requires Nearest(data[4], cents, 1, assign[4])
    ensures forall i :: 0 <= i < 5 ==> Nearest(data[i], cents, 1, assign[i])
  {
  }

  lemma FiveRound(data: seq<Vec>, s: Stage, t: Stage)
    requires |data| == 5 && Shaped(data, s.cents, s.assign, 1) && Shaped(data, t.cents, t.assign, 1)
    requires |s.cents| == |t.cents| == 2 && Finished(data, t.assign, 1, 0, t.cents[0])
    requires Finished(data, t.assign, 1, 1, t.cents[1])
    requires forall i :: 0 <= i < 5 ==> Nearest(data[i], s.cents, 1, t.assign[i])
    ensures IsRound(data, 1, s, t)
  {
  }

  lemma FiveCost(data: seq<Vec>, s: Stage)
    requires |data| == 5 && Shaped(data, s.cents, s.assign, 1)
    ensures CostOf(data, 1, s)
            == L2(data[0], s.cents[s.assign[0]], 1) + L2(data[1], s.cents[s.assign[1]], 1)
               + L2(data[2], s.cents[s.assign[2]], 1) + L2(data[3], s.cents[s.assign[3]], 1)
               + L2(data[4], s.cents[s.assign[4]], 1)
  {
    assert Cost(data, s.cents, s.assign, 1, 2)
        == L2(data[0], s.cents[s.assign[0]], 1) + L2(data[1], s.cents[s.assign[1]], 1);
    assert Cost(data, s.cents, s.assign, 1, 4)
        == Cost(data, s.cents, s.assign, 1, 2)
           + L2(data[2], s.cents[s.assign[2]], 1) + L2(data[3], s.cents[s.assign[3]], 1);
  }

  const FAR: seq<real> := [2.0e20, 0.0, -1.8e19, 1.8e19, 1.8e19]

  /** The three stages: the third point leaves its cluster as soon as the mean has moved
      beyond the largest float, for a centroid that is much farther. */
  function FarStage(i: nat): Stage {
    if i == 0 then Stage(Line([2.0e20, 0.0]), [0, 0, 0, 0, 0])
    else if i == 1 then Stage(Line([2.0e20, 4.5e18]), [0, 1, 1, 1, 1])
    else Stage(Line([9.1e19, 1.2e19]), [0, 1, 0, 1, 1])
  }

  lemma FarPicks1()
    ensures forall i :: 0 <= i < 5 ==> Nearest(Line(FAR)[i], Line([2.0e20, 0.0]), 1, [0, 1, 1, 1, 1][i])
  {
    LinePick(2.0e20, 2.0e20, 0.0, 0.0, 4.0e40);
    LinePick(0.0, 2.0e20, 0.0, 4.0e40, 0.0);
    LinePick(-1.8e19, 2.0e20, 0.0, 4.7524e40, 3.24e38);
    LinePick(1.8e19, 2.0e20, 0.0, 3.3124e40, 3.24e38);
    FivePicks(Line(FAR), Line([2.0e20, 0.0]), [0, 1, 1, 1, 1]);
  }

  lemma FarPicks2()
    ensures forall i :: 0 <= i < 5 ==> Nearest(Line(FAR)[i], Line([2.0e20, 4.5e18]), 1, [0, 1, 0, 1, 1][i])
  {
    LinePick(2.0e20, 2.0e20, 4.5e18, 0.0, 3.822025e40);
    LinePick(0.0, 2.0e20, 4.5e18, 4.0e40, 2.025e37);
    LinePick(-1.8e19, 2.0e20, 4.5e18, 4.7524e40, 5.0625e38);
    LinePick(1.8e19, 2.0e20, 4.5e18, 3.3124e40, 1.8225e38);
    FivePicks(Line(FAR), Line([2.0e20, 4.5e18]), [0, 1, 0, 1, 1]);
  }

  lemma FarTallies(assign: seq<nat>)
    requires assign == [0, 1, 1, 1, 1] || assign == [0, 1, 0, 1, 1]
    ensures CountOf(assign, 0, 5) + CountOf(assign, 1, 5) == 5
    ensures assign[2] == 1 ==> CountOf(assign, 0, 5) == 1 && Total(FAR, assign, 0, 5) == 2.0e20
    ensures assign[2] == 1 ==> Total(FAR, assign, 1, 5) == 1.8e19
    ensures assign[2] == 0 ==> CountOf(assign, 0, 5) == 2 && Total(FAR, assign, 0, 5) == 1.82e20
    ensures assign[2] == 0 ==> Total(FAR, assign, 1, 5) == 3.6e19
  {
    assert CountOf(assign, 0, 2) == 1 && Total(FAR, assign, 0, 2) == 2.0e20;
    assert CountOf(assign, 1, 2) == 1 && Total(FAR, assign, 1, 2) == 0.0;
    assert CountOf(assign, 1, 4) == if assign[2] == 1 then 3 else 2;
  }

  lemma FarRounds()
    ensures IsRound(Line(FAR), 1, FarStage(0), FarStage(1)) && IsRound(Line(FAR), 1, FarStage(1), FarStage(2))
  {
    var r, s, t := FarStage(0), FarStage(1), FarStage(2);
    FarTallies(s.assign);
    LineMean(FAR, s.assign, 0, 2.0e20, 1, 2.0e20);
    LineMean(FAR, s.assign, 1, 1.8e19, 4, 4.5e18);
    FarPicks1();
    FiveRound(Line(FAR), r, s);
    FarTallies(t.assign);
    LineMean(FAR, t.assign, 0, 1.82e20, 2, 9.1e19);
    LineMean(FAR, t.assign, 1, 3.6e19, 3, 1.2e19);
    FarPicks2();
    FiveRound(Line(FAR), s, t);
  }

  lemma FarCost1()
    ensures Shaped(Line(FAR), FarStage(1).cents, FarStage(1).assign, 1)
    ensures CostOf(Line(FAR), 1, FarStage(1)) == 8.91e38
  {
    var s := FarStage(1);
    assert Shaped(Line(FAR), s.cents, s.assign, 1);
    FiveCost(Line(FAR), s);
    LineDistance(2.0e20, 2.0e20);
    LineDistance(0.0, 4.5e18);
    LineDistance(-1.8e19, 4.5e18);
    LineDistance(1.8e19, 4.5e18);
  }

  lemma FarCost2()
    ensures Shaped(Line(FAR), FarStage(2).cents, FarStage(2).assign, 1)
    ensures CostOf(Line(FAR), 1, FarStage(2)) == 2.3978e40
  {
    var s := FarStage(2);
    assert Shaped(Line(FAR), s.cents, s.assign, 1);
    FiveCost(Line(FAR), s);
    LineDistance(2.0e20, 9.1e19);
    LineDistance(0.0, 1.2e19);
    LineDistance(-1.8e19, 9.1e19);
    LineDistance(1.8e19, 1.2e19);
  }

  /** Training can raise the cost: a run on five far points from two of them, whose second
      round makes it more than twenty times what the first left. */
  lemma RunRaises()
    ensures FarStage(0) == Stage(Initial(Line(FAR), [0, 1]), seq(5, i => 0))
    ensures IsRun(Line(FAR), 1, [FarStage(0), FarStage(1), FarStage(2)])
    ensures CostOf(Line(FAR), 1, FarStage(2)) > 20.0 * CostOf(Line(FAR), 1, FarStage(1))
  {
    FarStart();
    FarRounds();
    FarCost1();
    FarCost2();
    TwoRounds(Line(FAR), 1, FarStage(0), FarStage(1), FarStage(2));
  }

  lemma FarStart()
    ensures FarStage(0) == Stage(Initial(Line(FAR), [0, 1]), seq(5, i => 0))
  {
    assert FarStage(0).cents == Initial(Line(FAR), [0, 1]);
  }

  lemma TwoRounds(data: seq<Vec>, d: nat, r: Stage, s: Stage, t: Stage)
    requires IsRound(data, d, r, s) && IsRound(data, d, s, t)
    ensures IsRun(data, d, [r, s, t])
  {
    RunMore(data, d, [r], s);
    RunMore(data, d, [r] + [s], t);
    assert [r] + [s] + [t] == [r, s, t];
  }
}
