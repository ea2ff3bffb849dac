/** Robust pruning (index/vamana.go): which candidates a node keeps as neighbours. */
module VamanaPrune {
  import opened Prelude
  import opened Ranking
  import opened Vectors

  // ---- distinct candidates ----

  /** The candidate is the first to name its position. */
  ghost predicate First(cands: seq<Candidate>, c: Candidate) {
    exists i :: 0 <= i < |cands| && cands[i] == c && forall j :: 0 <= j < i ==> cands[j].pos != c.pos
  }

  ghost predicate Named(cands: seq<Candidate>, q: nat) {
    exists i :: 0 <= i < |cands| && cands[i].pos == q
  }

  /** Each named position once, without p. */
  ghost function Firsts(cands: seq<Candidate>, p: nat): set<Candidate> {
    set c | c in cands && c.pos != p && First(cands, c)
  }

  lemma FirstsNext(cands: seq<Candidate>, c: Candidate, p: nat)
    ensures forall q :: Named(cands + [c], q) <==> Named(cands, q) || q == c.pos
    ensures c in Firsts(cands, p) ==> Named(cands, c.pos)
    ensures Firsts(cands + [c], p)
            == if c.pos == p || Named(cands, c.pos) then Firsts(cands, p) else Firsts(cands, p) + {c}
  {
    var more := cands + [c];
    forall q ensures Named(more, q) <==> Named(cands, q) || q == c.pos {
      if Named(cands, q) {
        var i :| 0 <= i < |cands| && cands[i].pos == q;
        assert more[i].pos == q;
      }
      assert more[|cands|].pos == c.pos;
    }
    forall x ensures First(more, x) <==> First(cands, x) || (x == c && !Named(cands, c.pos)) {
      FirstMore(cands, c, x);
    }
  }

  lemma FirstMore(cands: seq<Candidate>, c: Candidate, x: Candidate)
    ensures First(cands + [c], x) <==> First(cands, x) || (x == c && !Named(cands, c.pos))
  {
    var more := cands + [c];
    if First(cands, x) {
      var i :| 0 <= i < |cands| && cands[i] == x && forall j :: 0 <= j < i ==> cands[j].pos != x.pos;
      assert more[i] == x;
    }
    if x == c && !Named(cands, c.pos) {
      assert more[|cands|] == x;
    }
    if First(more, x) {
      var i :| 0 <= i < |more| && more[i] == x && forall j :: 0 <= j < i ==> more[j].pos != x.pos;
      if i < |cands| {
        assert cands[i] == x;
        forall j | 0 <= j < i ensures cands[j].pos != x.pos {
          assert more[j] == cands[j];
        }
      } else {
        forall j | 0 <= j < |cands| ensures cands[j].pos != x.pos {
          assert more[j] == cands[j];
        }
      }
    }
  }

  method Dedup(cands: seq<Candidate>, p: nat) returns (filtered: seq<Candidate>)
    ensures Lists(filtered, Firsts(cands, p))
  {
    filtered := [];
    var seen: set<nat> := {};
    var i := 0;
    while i < |cands|
      invariant 0 <= i <= |cands|
      invariant Deduped(cands[..i], p, filtered, seen)
    {
      DedupedNext(cands[..i], cands[i], p, filtered, seen);
      assert cands[..i + 1] == cands[..i] + [cands[i]];
      if cands[i].pos != p && cands[i].pos !in seen {
        filtered := filtered + [cands[i]];
        seen := seen + {cands[i].pos};
      }
      i := i + 1;
    }
    assert cands[..i] == cands;
  }

  ghost predicate Deduped(cands: seq<Candidate>, p: nat, filtered: seq<Candidate>, seen: set<nat>) {
    Lists(filtered, Firsts(cands, p)) && forall q :: q in seen <==> q != p && Named(cands, q)
  }

  lemma DedupedNext(cands: seq<Candidate>, c: Candidate, p: nat, filtered: seq<Candidate>, seen: set<nat>)
    requires Deduped(cands, p, filtered, seen)
    ensures if c.pos != p && c.pos !in seen then Deduped(cands + [c], p, filtered + [c], seen + {c.pos})
            else Deduped(cands + [c], p, filtered, seen)
  {
    FirstsNext(cands, c, p);
  }

  // ---- diversity with slack ----

  /** A kept neighbour lies on the way to a candidate, within the factor alpha. */
  predicate Covers(space: Space, alpha: real, a: Candidate, c: Candidate) {
    space.Between(a.pos, c.pos) * alpha <= c.dist
  }

  ghost predicate Dominated(space: Space, alpha: real, kept: seq<Candidate>, c: Candidate) {
    exists k :: 0 <= k < |kept| && Before(kept[k], c) && Covers(space, alpha, kept[k], c)
  }

  ghost predicate Spread(space: Space, alpha: real, kept: seq<Candidate>) {
    forall i, j :: 0 <= i < j < |kept| ==> !Covers(space, alpha, kept[i], kept[j])
  }

  /** Nearest first, at most r are kept, none dominated by an earlier one; whatever is
      rejected is dominated by a nearer kept one, or comes after all r of them. */
  ghost predicate Pruned(space: Space, alpha: real, r: nat, pool: set<Candidate>, kept: seq<Candidate>) {
    && Ranked(kept) && |kept| <= r && Elems(kept) <= pool && Spread(space, alpha, kept)
    && forall c :: c in pool && c !in kept ==> Rejected(space, alpha, r, kept, c)
  }

  ghost predicate Rejected(space: Space, alpha: real, r: nat, kept: seq<Candidate>, c: Candidate) {
    Dominated(space, alpha, kept, c) || (|kept| == r && forall k :: 0 <= k < |kept| ==> Before(kept[k], c))
  }

  /** The positions such a choice keeps. */
  ghost predicate PrunesTo(space: Space, alpha: real, r: nat, pool: set<Candidate>, l: seq<nat>) {
    exists kept :: Pruned(space, alpha, r, pool, kept) && l == Positions(kept)
  }

  /** So the outcome of pruning is determined by what is pruned. */
  lemma OutcomeUnique(space: Space, alpha: real, r: nat, pool: set<Candidate>, l: seq<nat>, l': seq<nat>)
    requires PrunesTo(space, alpha, r, pool, l) && PrunesTo(space, alpha, r, pool, l')
    ensures l == l'
  {
    var a :| Pruned(space, alpha, r, pool, a) && l == Positions(a);
    var b :| Pruned(space, alpha, r, pool, b) && l' == Positions(b);
    PrunedUnique(space, alpha, r, pool, a, b);
  }

  /** The description leaves no freedom: there is one such list. */
  lemma PrunedUnique(space: Space, alpha: real, r: nat, pool: set<Candidate>, a: seq<Candidate>, b: seq<Candidate>)
    requires Pruned(space, alpha, r, pool, a) && Pruned(space, alpha, r, pool, b)
    ensures a == b
  {
    PrunedAgree(space, alpha, r, pool, a, b, |a|);
    PrunedAgree(space, alpha, r, pool, b, a, |b|);
  }

  lemma {:induction false} PrunedAgree(space: Space, alpha: real, r: nat, pool: set<Candidate>, a: seq<Candidate>,
                                       b: seq<Candidate>, n: nat)
    requires Pruned(space, alpha, r, pool, a) && Pruned(space, alpha, r, pool, b) && n <= |a|
    ensures n <= |b| && a[..n] == b[..n]
    decreases n
  {
    if n > 0 {
      var i := n - 1;
      PrunedAgree(space, alpha, r, pool, a, b, i);
      SamePrefix(a, b, i);
      NotBehind(space, alpha, r, pool, a, b, i);
      NotBehind(space, alpha, r, pool, b, a, i);
      assert a[..n] == a[..i] + [a[i]];
      assert b[..n] == b[..i] + [b[i]];
    }
  }

  lemma SamePrefix(a: seq<Candidate>, b: seq<Candidate>, i: nat)
    requires i <= |a| && i <= |b| && a[..i] == b[..i]
    ensures forall j :: 0 <= j < i ==> a[j] == b[j]
  {
    forall j | 0 <= j < i ensures a[j] == b[j] {
      assert a[j] == a[..i][j] == b[..i][j];
    }
  }

  /** What a keeps at i cannot be rejected by a list that agrees with a before i and has
      nothing nearer than a[i] from there on. */
  lemma NotRejected(space: Space, alpha: real, r: nat, a: seq<Candidate>, b: seq<Candidate>, i: nat)
    requires i < |a| <= r && i <= |b| && Spread(space, alpha, a) && forall j :: 0 <= j < i ==> a[j] == b[j]
    requires forall j :: i <= j < |b| ==> !Before(b[j], a[i])
    ensures !Rejected(space, alpha, r, b, a[i])
  {
    forall k | 0 <= k < |b| ensures !Before(b[k], a[i]) || !Covers(space, alpha, b[k], a[i]) {
      assert k < i ==> a[k] == b[k];
    }
    if |b| == r {
      assert !Before(b[i], a[i]);
    }
  }

  /** Past a common prefix, b has an element too, and not a later one. */
  lemma NotBehind(space: Space, alpha: real, r: nat, pool: set<Candidate>, a: seq<Candidate>, b: seq<Candidate>, i: nat)
    requires Pruned(space, alpha, r, pool, a) && Pruned(space, alpha, r, pool, b)
    requires i <= |a| && i <= |b| && forall j :: 0 <= j < i ==> a[j] == b[j]
    ensures i < |a| ==> i < |b| && !Before(a[i], b[i])
  {
    if i < |a| && (i == |b| || Before(a[i], b[i])) {
      assert a[i] in Elems(a);
      forall j | 0 <= j < |b| ensures b[j] != a[i] && (j >= i ==> !Before(b[j], a[i])) {
        if j < i {
          assert Before(a[j], a[i]);
        } else {
          assert j > i ==> Before(b[i], b[j]);
        }
      }
      NotRejected(space, alpha, r, a, b, i);
      assert false;
    }
  }

  method FindCover(space: Space, alpha: real, result: seq<nat>, c: Candidate, ghost kept: seq<Candidate>)
    returns (dominated: bool)
    requires result == Positions(kept)
    ensures dominated <==> exists j :: 0 <= j < |kept| && Covers(space, alpha, kept[j], c)
  {
    var k := 0;
    while k < |result|
      invariant 0 <= k <= |result|
      invariant forall j :: 0 <= j < k ==> !Covers(space, alpha, kept[j], c)
    {
      if space.Between(result[k], c.pos) * alpha <= c.dist {
        assert Covers(space, alpha, kept[k], c);
        return true;
      }
      k := k + 1;
    }
    return false;
  }

  /** Walks the candidates nearest first. */
  method RobustPrune(space: Space, r: nat, p: nat, cands: seq<Candidate>, alpha: real) returns (result: seq<nat>)
    ensures PrunesTo(space, alpha, r, Firsts(cands, p), result)
  {
    var filtered := Dedup(cands, p);
    ghost var pool := Firsts(cands, p);
    SortRanked(filtered, pool);
    filtered := Sort(filtered);
    ListsFacts(filtered, pool);
    result := KeepNearest(space, r, filtered, alpha, pool);
  }

  method KeepNearest(space: Space, r: nat, f: seq<Candidate>, alpha: real, ghost pool: set<Candidate>)
    returns (result: seq<nat>)
    requires Ranked(f) && forall x :: x in f <==> x in pool
    ensures PrunesTo(space, alpha, r, pool, result)
  {
    result := [];
    ghost var kept: seq<Candidate> := [];
    var i := 0;
    while i < |f| && |result| < r
      invariant 0 <= i <= |f| && result == Positions(kept)
      invariant Walked(space, alpha, r, f, i, kept)
    {
      var dominated := FindCover(space, alpha, result, f[i], kept);
      WalkedNext(space, alpha, r, f, i, kept, dominated);
      if !dominated {
        PositionsMore(kept, f[i]);
        result, kept := result + [f[i].pos], kept + [f[i]];
      }
      i := i + 1;
    }
    WalkedDone(space, alpha, r, f, i, kept, pool);
  }

  /** After the first i candidates. */
  ghost predicate Walked(space: Space, alpha: real, r: nat, f: seq<Candidate>, i: nat, kept: seq<Candidate>) {
    && i <= |f| && |kept| <= r && Ranked(kept) && Spread(space, alpha, kept)
    && (forall k :: 0 <= k < |kept| ==> kept[k] in f[..i])
    && (forall j :: 0 <= j < i ==> f[j] in kept || Dominated(space, alpha, kept, f[j]))
  }

  lemma DominatedMore(space: Space, alpha: real, kept: seq<Candidate>, x: Candidate, c: Candidate)
    requires Dominated(space, alpha, kept, c)
    ensures Dominated(space, alpha, kept + [x], c)
  {
    var k :| 0 <= k < |kept| && Before(kept[k], c) && Covers(space, alpha, kept[k], c);
    assert (kept + [x])[k] == kept[k];
  }

  lemma WalkedNext(space: Space, alpha: real, r: nat, f: seq<Candidate>, i: nat, kept: seq<Candidate>, dominated: bool)
    requires Walked(space, alpha, r, f, i, kept) && Ranked(f) && i < |f| && |kept| < r
    requires dominated <==> exists j :: 0 <= j < |kept| && Covers(space, alpha, kept[j], f[i])
    ensures Walked(space, alpha, r, f, i + 1, if dominated then kept else kept + [f[i]])
  {
    forall k | 0 <= k < |kept| ensures Before(kept[k], f[i]) {
      assert kept[k] in f[..i];
    }
    if dominated {
      WalkedSkip(space, alpha, r, f, i, kept);
    } else {
      WalkedKeep(space, alpha, r, f, i, kept);
    }
  }

  lemma WalkedSkip(space: Space, alpha: real, r: nat, f: seq<Candidate>, i: nat, kept: seq<Candidate>)
    requires Walked(space, alpha, r, f, i, kept) && i < |f| && Dominated(space, alpha, kept, f[i])
    ensures Walked(space, alpha, r, f, i + 1, kept)
  {
    assert f[..i + 1] == f[..i] + [f[i]];
    forall k | 0 <= k < |kept| ensures kept[k] in f[..i + 1] {
      assert kept[k] in f[..i];
    }
  }

  lemma WalkedKeep(space: Space, alpha: real, r: nat, f: seq<Candidate>, i: nat, kept: seq<Candidate>)
    requires Walked(space, alpha, r, f, i, kept) && i < |f| && |kept| < r
    requires forall k :: 0 <= k < |kept| ==> Before(kept[k], f[i]) && !Covers(space, alpha, kept[k], f[i])
    ensures Walked(space, alpha, r, f, i + 1, kept + [f[i]])
  {
    var c := f[i];
    var more := kept + [c];
    assert f[..i + 1] == f[..i] + [c];
    forall k | 0 <= k < |more| ensures more[k] in f[..i + 1] {
      assert k < |kept| ==> kept[k] in f[..i];
    }
    forall j | 0 <= j < i + 1 ensures f[j] in more || Dominated(space, alpha, more, f[j]) {
      if j == i {
        assert more[|kept|] == c;
      } else if f[j] !in kept {
        DominatedMore(space, alpha, kept, c, f[j]);
      }
    }
  }

  lemma WalkedDone(space: Space, alpha: real, r: nat, f: seq<Candidate>, i: nat, kept: seq<Candidate>,
                   pool: set<Candidate>)
    requires Walked(space, alpha, r, f, i, kept) && Ranked(f) && (forall x :: x in f <==> x in pool)
    requires i == |f| || |kept| == r
    ensures Pruned(space, alpha, r, pool, kept)
  {
    forall x | x in Elems(kept) ensures x in pool {
      var k :| 0 <= k < |kept| && kept[k] == x;
      assert kept[k] in f[..i];
    }
    forall c | c in pool && c !in kept ensures Rejected(space, alpha, r, kept, c) {
      var j :| 0 <= j < |f| && f[j] == c;
      if j >= i {
        forall k | 0 <= k < |kept| ensures Before(kept[k], c) {
          var n :| 0 <= n < |f[..i]| && f[..i][n] == kept[k];
          assert Before(f[n], f[j]);
        }
      }
    }
  }

  /** A pruned list has room, repeats nothing and leaves out p. */
  lemma PrunedList(space: Space, alpha: real, r: nat, cands: seq<Candidate>, p: nat, l: seq<nat>)
    requires PrunesTo(space, alpha, r, Firsts(cands, p), l)
    ensures |l| <= r && NoDup(l) && p !in l && forall j :: 0 <= j < |l| ==> Named(cands, l[j])
  {
    var kept :| Pruned(space, alpha, r, Firsts(cands, p), kept) && l == Positions(kept);
    forall j | 0 <= j < |l| ensures kept[j] in Firsts(cands, p) && l[j] != p && Named(cands, l[j]) {
      assert kept[j] in Elems(kept);
    }
    forall i, j | 0 <= i < j < |l| ensures l[i] != l[j] {
      OneFirst(cands, kept[i], kept[j]);
      assert Before(kept[i], kept[j]);
    }
  }

  lemma OneFirst(cands: seq<Candidate>, a: Candidate, b: Candidate)
    requires First(cands, a) && First(cands, b)
    ensures a.pos == b.pos ==> a == b
  {
  }
}
