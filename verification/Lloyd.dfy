/**
  Lloyd's iterations (quant/kmeans.go, index/kmeans.go) in exact arithmetic: each round
  reassigns every point to its nearest centroid and moves each centroid to the mean of
  its points.  Rows are vectors; the loops over coordinates are folded into them.
 */
module Lloyd {
  import opened Vectors

  // ---- squared distance, coordinate by coordinate ----

  function L2(a: Vec, b: Vec, d: nat): real
    requires d <= |a| && d <= |b|
    decreases d
  {
    if d == 0 then 0.0 else L2(a, b, d - 1) + (a[d - 1] - b[d - 1]) * (a[d - 1] - b[d - 1])
  }

  lemma {:induction false} L2NonNeg(a: Vec, b: Vec, d: nat)
    requires d <= |a| && d <= |b|
    ensures L2(a, b, d) >= 0.0
    decreases d
  {
    if d > 0 {
      L2NonNeg(a, b, d - 1);
      SquareNonNeg(a[d - 1] - b[d - 1]);
    }
  }

  lemma SquareNonNeg(x: real)
    ensures x * x >= 0.0
  {
  }

  /** How a sum of points, weighted n, deviates from n times m along v - m. */
  ghost function Lean(s: Vec, n: real, v: Vec, m: Vec, d: nat): real
    requires d <= |s| && d <= |v| && d <= |m|
    decreases d
  {
    if d == 0 then 0.0 else Lean(s, n, v, m, d - 1) + (s[d - 1] - n * m[d - 1]) * (v[d - 1] - m[d - 1])
  }

  /** The cost of serving x from v instead of m. */
  lemma {:induction false} Detour(x: Vec, v: Vec, m: Vec, d: nat)
    requires d <= |x| && d <= |v| && d <= |m|
    ensures L2(x, v, d) - L2(x, m, d) == L2(m, v, d) - 2.0 * Lean(x, 1.0, v, m, d)
    decreases d
  {
    if d > 0 {
      Detour(x, v, m, d - 1);
      DetourAt(x[d - 1], v[d - 1], m[d - 1]);
    }
  }

  lemma DetourAt(x: real, v: real, m: real)
    ensures (x - v) * (x - v) - (x - m) * (x - m) == (m - v) * (m - v) - 2.0 * ((x - 1.0 * m) * (v - m))
  {
  }

  lemma {:induction false} LeanAdd(s: Vec, n: real, x: Vec, v: Vec, m: Vec, d: nat)
    requires d <= |s| == |x| && d <= |v| && d <= |m|
    ensures Lean(Add(s, x), n + 1.0, v, m, d) == Lean(s, n, v, m, d) + Lean(x, 1.0, v, m, d)
    decreases d
  {
    if d > 0 {
      LeanAdd(s, n, x, v, m, d - 1);
      LeanAddAt(s[d - 1], n, x[d - 1], v[d - 1], m[d - 1]);
    }
  }

  lemma LeanAddAt(s: real, n: real, x: real, v: real, m: real)
    ensures (s + x - (n + 1.0) * m) * (v - m) == (s - n * m) * (v - m) + (x - 1.0 * m) * (v - m)
  {
    assert s + x - (n + 1.0) * m == (s - n * m) + (x - 1.0 * m);
  }

  /** A mean does not lean. */
  lemma {:induction false} LeanMean(s: Vec, n: real, v: Vec, m: Vec, d: nat)
    requires d <= |s| && d <= |v| && d <= |m| && forall j :: 0 <= j < d ==> s[j] == n * m[j]
    ensures Lean(s, n, v, m, d) == 0.0
    decreases d
  {
    if d > 0 {
      LeanMean(s, n, v, m, d - 1);
    }
  }

  function Add(a: Vec, b: Vec): Vec
    requires |a| == |b|
  {
    seq(|a|, j requires 0 <= j < |a| => a[j] + b[j])
  }

  function Scale(a: Vec, f: real): Vec {
    seq(|a|, j requires 0 <= j < |a| => a[j] * f)
  }

  function Zero(d: nat): Vec {
    seq(d, j => 0.0)
  }

  // ---- clusters ----

  /** Rows and centroids of one dimension, and an assignment of rows to centroids. */
  ghost predicate Shaped(data: seq<Vec>, cents: seq<Vec>, assign: seq<nat>, d: nat) {
    && |assign| == |data|
    && (forall i :: 0 <= i < |data| ==> |data[i]| == d)
    && (forall c :: 0 <= c < |cents| ==> |cents[c]| == d)
    && (forall i :: 0 <= i < |assign| ==> assign[i] < |cents|)
  }

  function SumOf(data: seq<Vec>, assign: seq<nat>, d: nat, c: nat, n: nat): (r: Vec)
    requires n <= |data| == |assign| && forall i :: 0 <= i < |data| ==> |data[i]| == d
    ensures |r| == d
    decreases n
  {
    if n == 0 then Zero(d)
    else if assign[n - 1] == c then Add(SumOf(data, assign, d, c, n - 1), data[n - 1])
    else SumOf(data, assign, d, c, n - 1)
  }

  function CountOf(assign: seq<nat>, c: nat, n: nat): nat
    requires n <= |assign|
    decreases n
  {
    if n == 0 then 0 else CountOf(assign, c, n - 1) + if assign[n - 1] == c then 1 else 0
  }

  /** Total squared distance of the first n points to their centroids. */
  ghost function Cost(data: seq<Vec>, cents: seq<Vec>, assign: seq<nat>, d: nat, n: nat): real
    requires Shaped(data, cents, assign, d) && n <= |data|
    decreases n
  {
    if n == 0 then 0.0 else Cost(data, cents, assign, d, n - 1) + L2(data[n - 1], cents[assign[n - 1]], d)
  }

  // ---- moving one centroid to the mean of its points ----

  function Times(k: nat, x: real): (r: real)
    ensures x >= 0.0 ==> r >= 0.0
    decreases k
  {
    if k == 0 then 0.0 else Times(k - 1, x) + x
  }

  /** What moving the centroid of c to m saves over the first n points. */
  lemma {:induction false} MoveSaves(data: seq<Vec>, cents: seq<Vec>, moved: seq<Vec>, assign: seq<nat>, d: nat, c: nat,
                                     n: nat)
    requires Shaped(data, cents, assign, d) && Shaped(data, moved, assign, d) && n <= |data| && c < |cents|
    requires |moved| == |cents| && forall b :: 0 <= b < |cents| && b != c ==> moved[b] == cents[b]
    ensures Cost(data, cents, assign, d, n) - Cost(data, moved, assign, d, n)
            == Times(CountOf(assign, c, n), L2(moved[c], cents[c], d))
               - 2.0 * Lean(SumOf(data, assign, d, c, n), CountOf(assign, c, n) as real, cents[c], moved[c], d)
    decreases n
  {
    if n == 0 {
      LeanMean(Zero(d), 0.0, cents[c], moved[c], d);
    } else {
      MoveSaves(data, cents, moved, assign, d, c, n - 1);
      if assign[n - 1] == c {
        Detour(data[n - 1], cents[c], moved[c], d);
        LeanAdd(SumOf(data, assign, d, c, n - 1), CountOf(assign, c, n - 1) as real, data[n - 1], cents[c], moved[c],
                d);
      }
    }
  }

  /** The centroid a round leaves for a cluster: the mean, or anything if it is empty. */
  ghost predicate Recentred(data: seq<Vec>, assign: seq<nat>, d: nat, c: nat, m: Vec)
    requires |data| == |assign| && forall i :: 0 <= i < |data| ==> |data[i]| == d
  {
    && |m| == d
    && var k := CountOf(assign, c, |assign|);
       k > 0 ==> m == Scale(SumOf(data, assign, d, c, |assign|), 1.0 / k as real)
  }

  lemma RecentredLean(data: seq<Vec>, assign: seq<nat>, d: nat, c: nat, v: Vec, m: Vec)
    requires |data| == |assign| && (forall i :: 0 <= i < |data| ==> |data[i]| == d) && |v| == d
    requires Recentred(data, assign, d, c, m)
    ensures Lean(SumOf(data, assign, d, c, |data|), CountOf(assign, c, |data|) as real, v, m, d) == 0.0
  {
    var s, k := SumOf(data, assign, d, c, |data|), CountOf(assign, c, |data|);
    if k == 0 {
      EmptySum(data, assign, d, c, |data|);
    }
    forall j | 0 <= j < d ensures s[j] == k as real * m[j] {
      if k > 0 {
        Undo(s[j], k as real);
      }
    }
    LeanMean(s, k as real, v, m, d);
  }

  /** Moving a centroid to its mean, or moving an unused one anywhere, costs nothing. */
  lemma MoveLowers(data: seq<Vec>, cents: seq<Vec>, moved: seq<Vec>, assign: seq<nat>, d: nat, c: nat)
    requires Shaped(data, cents, assign, d) && c < |cents| == |moved|
    requires forall b :: 0 <= b < |cents| && b != c ==> moved[b] == cents[b]
    requires Recentred(data, assign, d, c, moved[c])
    ensures Shaped(data, moved, assign, d)
    ensures Cost(data, moved, assign, d, |data|) <= Cost(data, cents, assign, d, |data|)
  {
    assert Shaped(data, moved, assign, d);
    MoveSaves(data, cents, moved, assign, d, c, |data|);
    RecentredLean(data, assign, d, c, cents[c], moved[c]);
    L2NonNeg(moved[c], cents[c], d);
  }

  lemma Undo(x: real, k: real)
    requires k > 0.0
    ensures k * (x * (1.0 / k)) == x
  {
    assert k * (1.0 / k) == 1.0;
    assert k * (x * (1.0 / k)) == x * (k * (1.0 / k));
  }

  lemma {:induction false} EmptySum(data: seq<Vec>, assign: seq<nat>, d: nat, c: nat, n: nat)
    requires n <= |data| == |assign| && (forall i :: 0 <= i < |data| ==> |data[i]| == d) && CountOf(assign, c, n) == 0
    ensures SumOf(data, assign, d, c, n) == Zero(d)
    decreases n
  {
    if n > 0 {
      EmptySum(data, assign, d, c, n - 1);
    }
  }

  // ---- a whole update ----

  /** The first c centroids replaced. */
  ghost function Half(was: seq<Vec>, next: seq<Vec>, c: nat): seq<Vec>
    requires c <= |was| == |next|
  {
    next[..c] + was[c..]
  }

  lemma {:induction false} UpdateLowers(data: seq<Vec>, cents: seq<Vec>, next: seq<Vec>, assign: seq<nat>, d: nat,
                                        c: nat)
    requires Shaped(data, cents, assign, d) && |next| == |cents| && c <= |cents|
    requires forall b: nat :: b < |cents| ==> Recentred(data, assign, d, b, next[b])
    ensures Shaped(data, Half(cents, next, c), assign, d)
    ensures Cost(data, Half(cents, next, c), assign, d, |data|) <= Cost(data, cents, assign, d, |data|)
    decreases c
  {
    if c == 0 {
      assert Half(cents, next, 0) == cents;
    } else {
      UpdateLowers(data, cents, next, assign, d, c - 1);
      MoveLowers(data, Half(cents, next, c - 1), Half(cents, next, c), assign, d, c - 1);
    }
  }

  // ---- a whole reassignment ----

  /** No centroid is closer. */
  ghost predicate Best(x: Vec, cents: seq<Vec>, d: nat, best: nat)
    requires |x| == d && forall c :: 0 <= c < |cents| ==> |cents[c]| == d
  {
    best < |cents| && forall c :: 0 <= c < |cents| ==> L2(x, cents[best], d) <= L2(x, cents[c], d)
  }

  ghost predicate HasNear(x: Vec, cents: seq<Vec>, d: nat)
    requires |x| == d && forall c :: 0 <= c < |cents| ==> |cents[c]| == d
  {
    exists c :: 0 <= c < |cents| && L2(x, cents[c], d) < MAX_FLOAT32
  }

  /** What the search for the nearest centroid gives: the first of the closest, provided
      one is closer than the largest float, else the first of all. */
  ghost predicate Nearest(x: Vec, cents: seq<Vec>, d: nat, best: nat)
    requires |x| == d && forall c :: 0 <= c < |cents| ==> |cents[c]| == d
  {
    && best < |cents|
    && if HasNear(x, cents, d)
       then Best(x, cents, d, best) && forall c :: 0 <= c < best ==> L2(x, cents[c], d) > L2(x, cents[best], d)
       else best == 0
  }

  /** A point that the search serves well: some centroid is closer than the largest float,
      or the first of all is a closest one. */
  ghost predicate Served(x: Vec, cents: seq<Vec>, d: nat)
    requires |x| == d && forall c :: 0 <= c < |cents| ==> |cents[c]| == d
  {
    HasNear(x, cents, d) || Best(x, cents, d, 0)
  }

  ghost predicate AllServed(data: seq<Vec>, cents: seq<Vec>, d: nat)
    requires (forall i :: 0 <= i < |data| ==> |data[i]| == d) && forall c :: 0 <= c < |cents| ==> |cents[c]| == d
  {
    forall i :: 0 <= i < |data| ==> Served(data[i], cents, d)
  }

  lemma {:induction false} AssignLowers(data: seq<Vec>, cents: seq<Vec>, was: seq<nat>, now: seq<nat>, d: nat, n: nat)
    requires Shaped(data, cents, was, d) && Shaped(data, cents, now, d) && n <= |data| && AllServed(data, cents, d)
    requires forall i :: 0 <= i < |data| ==> Nearest(data[i], cents, d, now[i])
    ensures Cost(data, cents, now, d, n) <= Cost(data, cents, was, d, n)
    decreases n
  {
    if n > 0 {
      AssignLowers(data, cents, was, now, d, n - 1);
      assert Served(data[n - 1], cents, d);
      assert Nearest(data[n - 1], cents, d, now[n - 1]);
    }
  }

  /** What moving one point to another centroid does to the cost. */
  lemma {:induction false} Reassign(data: seq<Vec>, cents: seq<Vec>, assign: seq<nat>, d: nat, n: nat, i: nat, c: nat)
    requires Shaped(data, cents, assign, d) && n <= |data| && i < |data| && c < |cents|
    ensures Shaped(data, cents, assign[i := c], d)
    ensures Cost(data, cents, assign[i := c], d, n) - Cost(data, cents, assign, d, n)
            == if i < n then L2(data[i], cents[c], d) - L2(data[i], cents[assign[i]], d) else 0.0
    decreases n
  {
    assert Shaped(data, cents, assign[i := c], d);
    if n > 0 {
      Reassign(data, cents, assign, d, n - 1, i, c);
    }
  }

  /** Exactly when reassigning never raises the cost, whatever the assignment was. */
  lemma AssignExact(data: seq<Vec>, cents: seq<Vec>, now: seq<nat>, d: nat)
    requires Shaped(data, cents, now, d) && forall i :: 0 <= i < |data| ==> Nearest(data[i], cents, d, now[i])
    ensures (forall was: seq<nat> :: Shaped(data, cents, was, d) ==>
               Cost(data, cents, now, d, |data|) <= Cost(data, cents, was, d, |data|))
            <==> AllServed(data, cents, d)
  {
    if AllServed(data, cents, d) {
      forall was: seq<nat> | Shaped(data, cents, was, d)
        ensures Cost(data, cents, now, d, |data|) <= Cost(data, cents, was, d, |data|)
      {
        AssignLowers(data, cents, was, now, d, |data|);
      }
    } else {
      var i :| 0 <= i < |data| && !Served(data[i], cents, d);
      assert Nearest(data[i], cents, d, now[i]);
      var c :| 0 <= c < |cents| && L2(data[i], cents[c], d) < L2(data[i], cents[0], d);
      Reassign(data, cents, now, d, |data|, i, c);
    }
  }

  /** A point that is served badly: both centroids are beyond the largest float, and it
      goes to the first, four times as far. */
  lemma ServedBadly()
    ensures var x, cents := [-1.0e20], [[1.0e20], [0.0]];
            && Nearest(x, cents, 1, 0) && !Served(x, cents, 1)
            && L2(x, cents[0], 1) == 4.0 * L2(x, cents[1], 1)
  {
    var x, cents := [-1.0e20], [[1.0e20], [0.0]];
    assert L2(x, cents[0], 1) == 4.0e40 && L2(x, cents[1], 1) == 1.0e40;
  }

  // ---- rounds ----

  datatype Stage = Stage(cents: seq<Vec>, assign: seq<nat>)

  /** A finished centroid: the mean of its points, or one of the points if it has none. */
  ghost predicate Finished(data: seq<Vec>, assign: seq<nat>, d: nat, c: nat, m: Vec)
    requires |data| == |assign| && forall i :: 0 <= i < |data| ==> |data[i]| == d
  {
    Recentred(data, assign, d, c, m) && (CountOf(assign, c, |assign|) == 0 ==> m in data)
  }

  /** One round: every point goes where the search sends it, then every centroid is
      recomputed. */
  ghost predicate IsRound(data: seq<Vec>, d: nat, s: Stage, t: Stage) {
    && Shaped(data, s.cents, s.assign, d) && Shaped(data, t.cents, t.assign, d) && |s.cents| == |t.cents|
    && (forall i :: 0 <= i < |data| ==> Nearest(data[i], s.cents, d, t.assign[i]))
    && (forall c: nat :: c < |t.cents| ==> Finished(data, t.assign, d, c, t.cents[c]))
  }

  ghost function CostOf(data: seq<Vec>, d: nat, s: Stage): real
    requires Shaped(data, s.cents, s.assign, d)
  {
    Cost(data, s.cents, s.assign, d, |data|)
  }

  /** A round that serves every point well never raises the cost. */
  lemma RoundLowers(data: seq<Vec>, d: nat, s: Stage, t: Stage)
    requires IsRound(data, d, s, t) && AllServed(data, s.cents, d)
    ensures CostOf(data, d, t) <= CostOf(data, d, s)
  {
    assert Shaped(data, s.cents, t.assign, d);
    AssignLowers(data, s.cents, s.assign, t.assign, d, |data|);
    UpdateLowers(data, s.cents, t.cents, t.assign, d, |s.cents|);
    assert Half(s.cents, t.cents, |s.cents|) == t.cents;
  }
}
