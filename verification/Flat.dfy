/** The brute-force index (index/flat.go), the oracle other indexes are held against. */
module Flat {
  import opened Prelude
  import opened Ranking
  import opened Vectors

  /** Every stored, live, admitted point as a candidate. */
  ghost function Pool(vecs: map<nat, Vec>, deleted: set<nat>, filter: Filter, dist: Distance,
                      query: Vec): set<Candidate> {
    set p | p in vecs && p !in deleted && Passes(filter, p) :: Candidate(p, dist(query, vecs[p]))
  }

  class Flat {
    const dim: nat
    const dist: Distance
    var vecs: map<nat, Vec>
    var deleted: set<nat>
    var closed: bool

    constructor (d: nat, distance: Distance)
      ensures dim == d && dist == distance && vecs == map[] && deleted == {} && !closed
    {
      dim, dist := d, distance;
      vecs, deleted, closed := map[], {}, false;
    }

    method Insert(pos: nat, vec: Vec) returns (r: Result<(), IndexError>)
      modifies this
      ensures r == if |vec| != dim then Err(DimMismatch) else if closed then Err(IndexClosed) else Ok(())
      ensures closed == old(closed)
      ensures r.Ok? ==> vecs == old(vecs)[pos := vec] && deleted == old(deleted) - {pos}
      ensures r.Err? ==> vecs == old(vecs) && deleted == old(deleted)
    {
      if |vec| != dim {
        return Err(DimMismatch);
      }
      if closed {
        return Err(IndexClosed);
      }
      vecs := vecs[pos := vec];
      deleted := deleted - {pos};
      return Ok(());
    }

    method Delete(pos: nat) returns (r: Result<(), IndexError>)
      modifies this
      ensures r == (if closed then Err(IndexClosed) else Ok(())) && closed == old(closed) && vecs == old(vecs)
      ensures deleted == if !closed && pos in vecs then old(deleted) + {pos} else old(deleted)
    {
      if closed {
        return Err(IndexClosed);
      }
      if pos in vecs {
        deleted := deleted + {pos};
      }
      return Ok(());
    }

    /** Returns the k best of all live admitted points. */
    method Search(query: Vec, k: nat, filter: Filter) returns (r: Result<seq<Candidate>, IndexError>)
      ensures r.Err? <==> closed
      ensures r.Ok? ==> IsTopK(r.value, Pool(vecs, deleted, filter, dist, query), k)
    {
      if closed {
        return Err(IndexClosed);
      }
      var out: seq<Candidate> := [];
      var todo := vecs.Keys;
      while todo != {}
        invariant todo <= vecs.Keys
        invariant Lists(out, Pool(vecs - todo, deleted, filter, dist, query))
        decreases todo
      {
        var pos :| pos in todo;
        PoolNext(vecs, todo, deleted, filter, dist, query, pos);
        if pos !in deleted && Passes(filter, pos) {
          out := out + [Candidate(pos, dist(query, vecs[pos]))];
        }
        todo := todo - {pos};
      }
      assert vecs - {} == vecs;
      SortRanked(out, Pool(vecs, deleted, filter, dist, query));
      out := Sort(out);
      PrefixIsTopK(out, Pool(vecs, deleted, filter, dist, query), k);
      return Ok(if |out| > k then out[..k] else out);
    }
  }

  lemma PoolNext(vecs: map<nat, Vec>, todo: set<nat>, deleted: set<nat>, filter: Filter, dist: Distance, query: Vec,
                 pos: nat)
    requires pos in todo && todo <= vecs.Keys
    ensures var c := Candidate(pos, dist(query, vecs[pos]));
            var before := Pool(vecs - todo, deleted, filter, dist, query);
            && c !in before
            && Pool(vecs - (todo - {pos}), deleted, filter, dist, query)
               == if pos !in deleted && Passes(filter, pos) then before + {c} else before
  {
    var before := Pool(vecs - todo, deleted, filter, dist, query);
    var after := Pool(vecs - (todo - {pos}), deleted, filter, dist, query);
    var c := Candidate(pos, dist(query, vecs[pos]));
    forall x ensures x in after <==> x in before || (x == c && pos !in deleted && Passes(filter, pos)) {
    }
  }
}
