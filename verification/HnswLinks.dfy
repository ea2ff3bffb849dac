/**
  Neighbour lists of an HNSW graph (index/hnsw.go): the selection heuristic, pruning a
  list that overflows, and what keeps the graph well formed.
 */
module HnswLinks {
  import opened Prelude
  import opened Ranking
  import opened Vectors

  // ---- the diversity heuristic ----

  /** Some chosen neighbour is nearer to the candidate than the new point is. */
  predicate Crowded(space: Space, kept: seq<nat>, e: Candidate) {
    exists i :: 0 <= i < |kept| && space.Between(e.pos, kept[i]) < e.dist
  }

  datatype Pick = Pick(kept: seq<nat>, spare: seq<nat>)

  /** The first n candidates sorted into kept and spare, until maxM are kept. */
  function Picks(space: Space, cands: seq<Candidate>, n: nat, maxM: nat): Pick
    requires n <= |cands|
    decreases n
  {
    if n == 0 then Pick([], [])
    else
      var p := Picks(space, cands, n - 1, maxM);
      var e := cands[n - 1];
      if |p.kept| >= maxM then p
      else if Crowded(space, p.kept, e) then p.(spare := p.spare + [e.pos])
      else p.(kept := p.kept + [e.pos])
  }

  /** The neighbours chosen from the candidates, nearest first. */
  function Select(space: Space, naive: bool, cands: seq<Candidate>, maxM: nat): seq<nat> {
    if |cands| <= maxM then Positions(cands)
    else if naive then Positions(cands)[..maxM]
    else
      var p := Picks(space, cands, |cands|, maxM);
      if |p.kept| >= maxM then p.kept
      else p.kept + p.spare[..Min(maxM - |p.kept|, |p.spare|)]
  }

  lemma {:induction false} PicksDone(space: Space, cands: seq<Candidate>, n: nat, maxM: nat)
    requires n <= |cands| && |Picks(space, cands, n, maxM).kept| >= maxM
    ensures Picks(space, cands, |cands|, maxM) == Picks(space, cands, n, maxM)
    decreases |cands| - n
  {
    if n < |cands| {
      PicksDone(space, cands, n + 1, maxM);
    }
  }

  method SelectNeighbors(space: Space, naive: bool, cands: seq<Candidate>, maxM: nat) returns (out: seq<nat>)
    ensures out == Select(space, naive, cands, maxM)
  {
    if |cands| <= maxM {
      return Positions(cands);
    }
    if naive {
      return Positions(cands)[..maxM];
    }
    var selected: seq<nat>, discarded: seq<nat> := [], [];
    var n := 0;
    while n < |cands| && |selected| < maxM
      invariant 0 <= n <= |cands|
      invariant Picks(space, cands, n, maxM) == Pick(selected, discarded)
    {
      var e := cands[n];
      var closer, i := true, 0;
      while i < |selected| && closer
        invariant 0 <= i <= |selected|
        invariant closer ==> forall k :: 0 <= k < i ==> !(space.Between(e.pos, selected[k]) < e.dist)
        invariant !closer ==> Crowded(space, selected, e)
      {
        if space.Between(e.pos, selected[i]) < e.dist {
          closer := false;
        }
        i := i + 1;
      }
      if closer {
        selected := selected + [e.pos];
      } else {
        discarded := discarded + [e.pos];
      }
      n := n + 1;
    }
    if |selected| >= maxM {
      PicksDone(space, cands, n, maxM);
    }
    ghost var kept := selected;
    var i := 0;
    while |selected| < maxM && i < |discarded|
      invariant 0 <= i <= |discarded| && selected == kept + discarded[..i]
      invariant i == 0 || |selected| <= maxM
    {
      selected := selected + [discarded[i]];
      i := i + 1;
    }
    return selected;
  }

  // ---- what the heuristic guarantees ----

  ghost predicate Among(cands: seq<Candidate>, n: nat, q: nat) {
    exists i :: 0 <= i < n && i < |cands| && cands[i].pos == q
  }

  /** Later choices are no nearer to an earlier one than to the base. */
  ghost predicate Diverse(space: Space, score: Score, kept: seq<nat>) {
    forall i, j :: 0 <= i < j < |kept| ==> space.Between(kept[j], kept[i]) >= score(kept[j])
  }

  /** The i-th candidate was kept, or crowded out, or not looked at for want of room. */
  ghost predicate Judged(space: Space, p: Pick, maxM: nat, e: Candidate) {
    e.pos in p.kept || (e.pos in p.spare && Crowded(space, p.kept, e)) || |p.kept| >= maxM
  }

  ghost predicate PickOk(space: Space, score: Score, cands: seq<Candidate>, n: nat, maxM: nat, p: Pick) {
    && NoDup(p.kept + p.spare)
    && (forall q :: q in p.kept + p.spare ==> Among(cands, n, q))
    && |p.kept| <= maxM && |p.kept| + |p.spare| <= n
    && (|p.kept| < maxM ==> |p.kept| + |p.spare| == n)
    && Diverse(space, score, p.kept)
    && (forall i :: 0 <= i < n && i < |cands| ==> Judged(space, p, maxM, cands[i]))
  }

  lemma CrowdedMore(space: Space, kept: seq<nat>, q: nat, e: Candidate)
    requires Crowded(space, kept, e)
    ensures Crowded(space, kept + [q], e)
  {
    var i :| 0 <= i < |kept| && space.Between(e.pos, kept[i]) < e.dist;
    assert (kept + [q])[i] == kept[i];
  }

  lemma Fresh(cands: seq<Candidate>, n: nat)
    requires n < |cands| && NoDup(Positions(cands))
    ensures !Among(cands, n, cands[n].pos)
  {
    forall i | 0 <= i < n ensures cands[i].pos != cands[n].pos {
      assert Positions(cands)[i] != Positions(cands)[n];
    }
  }

  lemma NoDupMore(a: seq<nat>, b: seq<nat>, q: nat)
    requires NoDup(a + b) && q !in a + b
    ensures NoDup((a + [q]) + b) && NoDup(a + (b + [q]))
    ensures forall x :: (x in (a + [q]) + b <==> x in a + b || x == q) && (x in a + (b + [q]) <==> x in a + b || x == q)
  {
    var s, t, u := (a + [q]) + b, a + (b + [q]), a + b;
    assert t == u + [q];
    forall i, j | 0 <= i < j < |s| ensures s[i] != s[j] {
      assert i < |a| ==> s[i] == u[i];
      assert i > |a| ==> s[i] == u[i - 1];
      assert j < |a| ==> s[j] == u[j];
      assert j > |a| ==> s[j] == u[j - 1];
    }
  }

  lemma {:induction false} PicksOk(space: Space, score: Score, cands: seq<Candidate>, n: nat, maxM: nat)
    requires n <= |cands| && Scored(cands, score)
    ensures PickOk(space, score, cands, n, maxM, Picks(space, cands, n, maxM))
    decreases n
  {
    if n > 0 {
      PicksOk(space, score, cands, n - 1, maxM);
      PickStep(space, score, cands, n - 1, maxM, Picks(space, cands, n - 1, maxM), Picks(space, cands, n, maxM));
    }
  }

  lemma PickStep(space: Space, score: Score, cands: seq<Candidate>, n: nat, maxM: nat, p: Pick, p': Pick)
    requires n < |cands| && Scored(cands, score) && PickOk(space, score, cands, n, maxM, p)
    requires p' == (if |p.kept| >= maxM then p
                    else if Crowded(space, p.kept, cands[n]) then p.(spare := p.spare + [cands[n].pos])
                    else p.(kept := p.kept + [cands[n].pos]))
    ensures PickOk(space, score, cands, n + 1, maxM, p')
  {
    var e := cands[n];
    Fresh(cands, n);
    NoDupMore(p.kept, p.spare, e.pos);
    forall q | q in p'.kept + p'.spare ensures Among(cands, n + 1, q) {
      if q != e.pos {
        assert Among(cands, n, q);
      }
    }
    forall i | 0 <= i < n + 1 ensures Judged(space, p', maxM, cands[i]) {
      if i < n {
        assert Judged(space, p, maxM, cands[i]);
        if Crowded(space, p.kept, cands[i]) {
          CrowdedMore(space, p.kept, e.pos, cands[i]);
        }
      }
    }
  }

  /** What comes of a selection: as many as there is room for, each a candidate, none
      twice. */
  ghost predicate Chosen(cands: seq<Candidate>, maxM: nat, out: seq<nat>) {
    && |out| == Min(maxM, |cands|) && NoDup(out)
    && forall j :: 0 <= j < |out| ==> Among(cands, |cands|, out[j])
  }

  lemma SelectChosen(space: Space, naive: bool, score: Score, cands: seq<Candidate>, maxM: nat)
    requires Scored(cands, score)
    ensures Chosen(cands, maxM, Select(space, naive, cands, maxM))
  {
    var out := Select(space, naive, cands, maxM);
    var p := Picks(space, cands, |cands|, maxM);
    PicksOk(space, score, cands, |cands|, maxM);
    if |cands| <= maxM || naive {
      forall j | 0 <= j < |out| ensures Among(cands, |cands|, out[j]) {
        assert cands[j].pos == out[j];
      }
    } else {
      assert out <= p.kept + p.spare;
      forall j | 0 <= j < |out| ensures Among(cands, |cands|, out[j]) {
        assert (p.kept + p.spare)[j] == out[j];
        assert out[j] in p.kept + p.spare;
      }
    }
  }

  /** When there are more candidates than room, the first `kept` choices are mutually
      diverse and everything else is crowded out by them; only crowded
      candidates fill the rest of the list. */
  lemma SelectDiverse(space: Space, score: Score, cands: seq<Candidate>, maxM: nat) returns (kept: nat)
    requires Scored(cands, score) && |cands| > maxM
    ensures var out := Select(space, false, cands, maxM);
            && kept <= |out| && Diverse(space, score, out[..kept])
            && (kept < maxM ==> forall i :: 0 <= i < |cands| ==>
                  cands[i].pos in out[..kept]
                  || exists k :: 0 <= k < kept && space.Between(cands[i].pos, out[k]) < cands[i].dist)
            && (forall j, e :: kept <= j < |out| && e in cands && e.pos == out[j] ==>
                  exists k :: 0 <= k < kept && space.Between(e.pos, out[k]) < e.dist)
  {
    var out := Select(space, false, cands, maxM);
    var p := Picks(space, cands, |cands|, maxM);
    PicksOk(space, score, cands, |cands|, maxM);
    kept := |p.kept|;
    assert out[..kept] == p.kept;
    forall j, e | kept <= j < |out| && e in cands && e.pos == out[j]
      ensures exists k :: 0 <= k < kept && space.Between(e.pos, out[k]) < e.dist
    {
      var i :| 0 <= i < |cands| && cands[i] == e;
      assert Judged(space, p, maxM, cands[i]);
      NotKept(p, e.pos, j);
    }
    forall i | 0 <= i < |cands| && kept < maxM
      ensures cands[i].pos in out[..kept]
              || exists k :: 0 <= k < kept && space.Between(cands[i].pos, out[k]) < cands[i].dist
    {
      assert Judged(space, p, maxM, cands[i]);
    }
  }

  // ---- and in what order ----

  ghost predicate InOrder(score: Score, l: seq<nat>) {
    forall i, j :: 0 <= i < j < |l| ==> Before(Cand(score, l[i]), Cand(score, l[j]))
  }

  ghost predicate AllBefore(score: Score, l: seq<nat>, e: Candidate) {
    forall i :: 0 <= i < |l| ==> Before(Cand(score, l[i]), e)
  }

  /** An earlier choice is nearer to the candidate than the base is. */
  ghost predicate Overtaken(space: Space, score: Score, kept: seq<nat>, e: Candidate) {
    exists k :: 0 <= k < |kept| && Before(Cand(score, kept[k]), e) && space.Between(e.pos, kept[k]) < e.dist
  }

  ghost predicate Decided(space: Space, score: Score, p: Pick, maxM: nat, e: Candidate) {
    || e.pos in p.kept
    || (e.pos in p.spare && Overtaken(space, score, p.kept, e))
    || (|p.kept| == maxM && AllBefore(score, p.kept, e) && AllBefore(score, p.spare, e))
  }

  ghost predicate GreedyPick(space: Space, score: Score, cands: seq<Candidate>, n: nat, maxM: nat, p: Pick) {
    && InOrder(score, p.kept) && InOrder(score, p.spare)
    && (forall i :: 0 <= i < n && i < |cands| ==> Decided(space, score, p, maxM, cands[i]))
  }

  lemma NextAfter(score: Score, cands: seq<Candidate>, n: nat, l: seq<nat>)
    requires n < |cands| && Scored(cands, score) && Ranked(cands)
    requires forall i :: 0 <= i < |l| ==> Among(cands, n, l[i])
    ensures AllBefore(score, l, cands[n])
  {
    forall i | 0 <= i < |l| ensures Before(Cand(score, l[i]), cands[n]) {
      assert Among(cands, n, l[i]);
      var j :| 0 <= j < n && j < |cands| && cands[j].pos == l[i];
    }
  }

  lemma OvertakenMore(space: Space, score: Score, kept: seq<nat>, q: nat, e: Candidate)
    requires Overtaken(space, score, kept, e)
    ensures Overtaken(space, score, kept + [q], e)
  {
    var k :| 0 <= k < |kept| && Before(Cand(score, kept[k]), e) && space.Between(e.pos, kept[k]) < e.dist;
    assert (kept + [q])[k] == kept[k];
  }

  lemma GreedyStep(space: Space, score: Score, cands: seq<Candidate>, n: nat, maxM: nat, p: Pick, p': Pick)
    requires n < |cands| && Scored(cands, score) && GreedyPick(space, score, cands, n, maxM, p) && |p.kept| <= maxM
    requires AllBefore(score, p.kept, cands[n]) && AllBefore(score, p.spare, cands[n])
    requires p' == (if |p.kept| >= maxM then p
                    else if Crowded(space, p.kept, cands[n]) then p.(spare := p.spare + [cands[n].pos])
                    else p.(kept := p.kept + [cands[n].pos]))
    ensures GreedyPick(space, score, cands, n + 1, maxM, p')
  {
    var e := cands[n];
    assert Cand(score, e.pos) == e;
    forall i | 0 <= i < n + 1 ensures Decided(space, score, p', maxM, cands[i]) {
      if i < n {
        assert Decided(space, score, p, maxM, cands[i]);
        if Overtaken(space, score, p.kept, cands[i]) {
          OvertakenMore(space, score, p.kept, e.pos, cands[i]);
        }
      }
    }
  }

  lemma GreedyNext(space: Space, score: Score, cands: seq<Candidate>, n: nat, maxM: nat, p: Pick, p': Pick)
    requires n < |cands| && Scored(cands, score) && Ranked(cands)
    requires PickOk(space, score, cands, n, maxM, p) && GreedyPick(space, score, cands, n, maxM, p)
    requires p' == (if |p.kept| >= maxM then p
                    else if Crowded(space, p.kept, cands[n]) then p.(spare := p.spare + [cands[n].pos])
                    else p.(kept := p.kept + [cands[n].pos]))
    ensures GreedyPick(space, score, cands, n + 1, maxM, p')
  {
    forall i | 0 <= i < |p.kept| ensures Among(cands, n, p.kept[i]) {
      assert p.kept[i] in p.kept + p.spare;
    }
    forall i | 0 <= i < |p.spare| ensures Among(cands, n, p.spare[i]) {
      assert p.spare[i] in p.kept + p.spare;
    }
    NextAfter(score, cands, n, p.kept);
    NextAfter(score, cands, n, p.spare);
    GreedyStep(space, score, cands, n, maxM, p, p');
  }

  lemma {:induction false} PicksGreedy(space: Space, score: Score, cands: seq<Candidate>, n: nat, maxM: nat, p: Pick)
    requires n <= |cands| && Scored(cands, score) && Ranked(cands) && p == Picks(space, cands, n, maxM)
    ensures PickOk(space, score, cands, n, maxM, p) && GreedyPick(space, score, cands, n, maxM, p)
    decreases n
  {
    if n > 0 {
      var q := Picks(space, cands, n - 1, maxM);
      PicksGreedy(space, score, cands, n - 1, maxM, q);
      PickStep(space, score, cands, n - 1, maxM, q, p);
      GreedyNext(space, score, cands, n - 1, maxM, q, p);
    }
  }

  /** The choice is greedy: both parts of the list are in order of distance; a candidate not
      among the leading choices is overtaken by an earlier one of them, or comes after all of
      a full list; and those that fill up are the first of the overtaken. */
  lemma SelectGreedy(space: Space, score: Score, cands: seq<Candidate>, maxM: nat) returns (kept: nat)
    requires Scored(cands, score) && Ranked(cands) && |cands| > maxM
    ensures var out := Select(space, false, cands, maxM);
            && kept <= |out| && InOrder(score, out[..kept]) && InOrder(score, out[kept..])
            && Diverse(space, score, out[..kept])
            && (forall e :: e in cands && e.pos !in out[..kept] ==>
                  Overtaken(space, score, out[..kept], e) || (kept == maxM && AllBefore(score, out, e)))
            && (forall e :: e in cands && e.pos !in out ==> AllBefore(score, out[kept..], e))
  {
    var out, p := Select(space, false, cands, maxM), Picks(space, cands, |cands|, maxM);
    PicksGreedy(space, score, cands, |cands|, maxM, p);
    kept := |p.kept|;
    assert out[..kept] == p.kept && out[kept..] <= p.spare;
    assert kept == maxM ==> out == p.kept;
    forall e | e in cands
      ensures e.pos !in out[..kept] ==>
                Overtaken(space, score, out[..kept], e) || (kept == maxM && AllBefore(score, out, e))
      ensures e.pos !in out ==> AllBefore(score, out[kept..], e)
    {
      var i :| 0 <= i < |cands| && cands[i] == e;
      assert Decided(space, score, p, maxM, cands[i]);
      if e.pos in p.spare && e.pos !in out {
        var j :| 0 <= j < |p.spare| && p.spare[j] == e.pos;
        assert j >= |out[kept..]|;
      }
    }
  }

  lemma {:induction false} PicksFirst(space: Space, cands: seq<Candidate>, n: nat, maxM: nat)
    requires 1 <= n <= |cands| && maxM >= 1
    ensures Picks(space, cands, n, maxM).kept != [] && Picks(space, cands, n, maxM).kept[0] == cands[0].pos
    decreases n
  {
    if n > 1 {
      PicksFirst(space, cands, n - 1, maxM);
    } else {
      assert Picks(space, cands, 0, maxM) == Pick([], []);
    }
  }

  /** The first candidate is always chosen first. */
  lemma SelectFirst(space: Space, naive: bool, cands: seq<Candidate>, maxM: nat)
    requires cands != [] && maxM >= 1
    ensures var out := Select(space, naive, cands, maxM); out != [] && out[0] == cands[0].pos
  {
    PicksFirst(space, cands, |cands|, maxM);
  }

  lemma NotKept(p: Pick, q: nat, j: nat)
    requires NoDup(p.kept + p.spare) && |p.kept| <= j < |p.kept + p.spare| && (p.kept + p.spare)[j] == q
    ensures q !in p.kept
  {
    forall i | 0 <= i < |p.kept| ensures p.kept[i] != q {
      assert (p.kept + p.spare)[i] == p.kept[i];
    }
  }

  // ---- pruning a neighbour list ----

  /** The best cap neighbours of p, by the same heuristic, scored from p. */
  function Prune(space: Space, naive: bool, p: nat, l: seq<nat>, cap: nat): seq<nat> {
    Select(space, naive, Sort(Measure(space.From(space.At(p)), l)), cap)
  }

  /** A neighbour list after src has been offered to it. */
  function Relink(space: Space, naive: bool, dst: nat, l: seq<nat>, src: nat, cap: nat): seq<nat> {
    if src in l then l
    else if |l| + 1 <= cap then l + [src]
    else Prune(space, naive, dst, l + [src], cap)
  }

  lemma PruneScored(score: Score, l: seq<nat>)
    requires NoDup(l)
    ensures var cands := Sort(Measure(score, l));
            |cands| == |l| && Scored(cands, score) && forall i :: 0 <= i < |cands| ==> cands[i].pos in l
  {
    var cands := Sort(Measure(score, l));
    var all := Measured(score, l);
    MeasureLists(score, l);
    SortRanked(Measure(score, l), all);
    ListsFacts(cands, all);
    ListsFacts(Measure(score, l), all);
    forall i | 0 <= i < |cands| ensures cands[i] == Cand(score, cands[i].pos) && cands[i].pos in l {
      assert cands[i] in all;
    }
    RankedScored(cands, score);
  }

  lemma PruneChosen(space: Space, naive: bool, p: nat, l: seq<nat>, cap: nat)
    requires NoDup(l)
    ensures var r := Prune(space, naive, p, l, cap);
            |r| == Min(cap, |l|) && NoDup(r) && forall j :: 0 <= j < |r| ==> r[j] in l
  {
    var score := space.From(space.At(p));
    var cands := Sort(Measure(score, l));
    PruneScored(score, l);
    SelectChosen(space, naive, score, cands, cap);
    var r := Prune(space, naive, p, l, cap);
    forall j | 0 <= j < |r| ensures r[j] in l {
      assert Among(cands, |cands|, r[j]);
    }
  }

  /** Pruning always keeps the member nearest p, and without the heuristic all it drops is
      no nearer than all it keeps. */
  lemma PruneNearest(space: Space, naive: bool, p: nat, l: seq<nat>, cap: nat, q: nat, x: nat)
    requires NoDup(l) && cap >= 1 && q in Prune(space, naive, p, l, cap) && x in l
    requires q == Prune(space, naive, p, l, cap)[0] || (naive && x !in Prune(space, naive, p, l, cap))
    ensures space.dist(space.At(p), space.At(q)) <= space.dist(space.At(p), space.At(x))
  {
    var score := space.From(space.At(p));
    var cands, out := Sort(Measure(score, l)), Prune(space, naive, p, l, cap);
    PruneScored(score, l);
    SortSorted(Measure(score, l));
    SelectFirst(space, naive, cands, cap);
    var i := PlaceOf(score, l, x);
    if q != out[0] {
      assert forall k :: 0 <= k < |out| ==> out[k] == cands[k].pos;
      var j :| 0 <= j < |out| && out[j] == q;
    }
  }

  lemma PlaceOf(score: Score, l: seq<nat>, x: nat) returns (i: nat)
    requires NoDup(l) && x in l
    ensures i < |Sort(Measure(score, l))| && Sort(Measure(score, l))[i] == Cand(score, x)
  {
    var cands, all := Sort(Measure(score, l)), Measured(score, l);
    MeasureLists(score, l);
    SortRanked(Measure(score, l), all);
    ListsFacts(cands, all);
    assert Cand(score, x) in cands;
    i :| 0 <= i < |cands| && cands[i] == Cand(score, x);
  }
}
