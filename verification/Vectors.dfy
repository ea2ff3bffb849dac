/** What every index works on (index/index.go): vectors, a ranking distance, filters. */
module Vectors {
  import opened Prelude
  import opened Ranking

  type Vec = seq<real>

  /** A distance where smaller means closer; nothing else is known of it. */
  type Distance = (Vec, Vec) -> real

  datatype IndexError = IndexClosed | DimMismatch | BadParams

  /** The positions a query may return, or no restriction. */
  type Filter = Option<set<nat>>

  predicate Passes(filter: Filter, pos: nat) {
    filter.None? || pos in filter.value
  }

  /** The position that stands for "none". */
  const INVALID_POS: nat := 0xFFFF_FFFF

  /** The largest finite value of the source's distances. */
  const MAX_FLOAT32: real := 340282346638528859811704183484516925440.0

  /** A vector copied into d places. */
  function Fit(v: Vec, d: nat): Vec {
    seq(d, i requires 0 <= i < d => if i < |v| then v[i] else 0.0)
  }

  // ---- scoring positions ----

  /** Distance from the query to each position. */
  type Score = nat -> real

  function Cand(score: Score, p: nat): Candidate {
    Candidate(p, score(p))
  }

  /** The stored vectors and the distance between them. */
  datatype Space = Space(vecs: map<nat, Vec>, dist: Distance) {
    function At(p: nat): Vec {
      if p in vecs then vecs[p] else []
    }

    function Between(p: nat, q: nat): real {
      dist(At(p), At(q))
    }

    function From(query: Vec): Score {
      (p: nat) => dist(query, At(p))
    }

    function To(query: Vec): Score {
      (p: nat) => dist(At(p), query)
    }
  }

  // ---- lists of positions and their candidates ----

  function Positions(cands: seq<Candidate>): seq<nat> {
    seq(|cands|, i requires 0 <= i < |cands| => cands[i].pos)
  }

  lemma PositionsMore(cands: seq<Candidate>, c: Candidate)
    ensures Positions(cands + [c]) == Positions(cands) + [c.pos]
  {
  }

  function Measure(score: Score, l: seq<nat>): seq<Candidate> {
    seq(|l|, i requires 0 <= i < |l| => Cand(score, l[i]))
  }

  ghost function Measured(score: Score, l: seq<nat>): set<Candidate> {
    set q | q in l :: Cand(score, q)
  }

  lemma {:induction false} MeasureLists(score: Score, l: seq<nat>)
    requires NoDup(l)
    ensures Lists(Measure(score, l), Measured(score, l))
    decreases |l|
  {
    if l == [] {
      assert Measure(score, l) == [];
    } else {
      var t, q := l[..|l| - 1], l[|l| - 1];
      assert l == t + [q];
      MeasureLists(score, t);
      assert Measure(score, l) == Measure(score, t) + [Cand(score, q)];
      MeasuredNext(score, t, q);
    }
  }

  lemma MeasuredNext(score: Score, t: seq<nat>, q: nat)
    requires q !in t
    ensures Cand(score, q) !in Measured(score, t)
    ensures Measured(score, t + [q]) == Measured(score, t) + {Cand(score, q)}
  {
    var l := t + [q];
    forall x ensures x in Measured(score, l) <==> x in Measured(score, t) || x == Cand(score, q) {
      assert forall y :: y in l <==> y in t || y == q;
    }
  }

  /** Candidates scored from one base point, each position once. */
  ghost predicate Scored(cands: seq<Candidate>, score: Score) {
    && NoDup(Positions(cands))
    && forall i :: 0 <= i < |cands| ==> cands[i] == Cand(score, cands[i].pos)
  }

  /** A ranked list of scored points names each position once. */
  lemma RankedScored(cands: seq<Candidate>, score: Score)
    requires Ranked(cands) && forall i :: 0 <= i < |cands| ==> cands[i] == Cand(score, cands[i].pos)
    ensures Scored(cands, score)
  {
    var ps := Positions(cands);
    forall i, j | 0 <= i < j < |ps| ensures ps[i] != ps[j] {
      assert Before(cands[i], cands[j]);
    }
  }
}
