/** The top-k operator over batches of rows (query/ops.go, query/batch.go). */
module TopKOp {
  import opened Prelude
  import opened Ranking
  import opened TopK

  /** Columns of positions and distances; with a selection only the rows it names count. */
  datatype Batch = Batch(numRows: nat, sel: Option<seq<nat>>, pos: seq<nat>, dist: seq<real>)

  ghost predicate BatchOk(b: Batch) {
    && b.numRows <= |b.pos| && b.numRows <= |b.dist|
    && (b.sel.Some? ==> forall i :: 0 <= i < |b.sel.value| ==> b.sel.value[i] < b.numRows)
  }

  function RowAt(b: Batch, i: nat): Candidate
    requires i < |b.pos| && i < |b.dist|
  {
    Candidate(b.pos[i], b.dist[i])
  }

  /** The rows that count, in order. */
  function LiveRows(b: Batch): seq<Candidate>
    requires BatchOk(b)
  {
    if b.sel.None? then seq(b.numRows, i requires 0 <= i < b.numRows => RowAt(b, i))
    else seq(|b.sel.value|, i requires 0 <= i < |b.sel.value| => RowAt(b, b.sel.value[i]))
  }

  /** What a child delivers: its batches up to the first that reports no rows. */
  function Delivered(batches: seq<Batch>): (n: nat)
    ensures n <= |batches|
    ensures forall i :: 0 <= i < n ==> batches[i].numRows > 0
    ensures n < |batches| ==> batches[n].numRows == 0
  {
    if batches == [] || batches[0].numRows == 0 then 0 else 1 + Delivered(batches[1..])
  }

  /** The rows of the first n batches. */
  ghost function RowsUpTo(batches: seq<Batch>, n: nat): set<Candidate>
    requires n <= |batches| && forall i :: 0 <= i < n ==> BatchOk(batches[i])
    decreases n
  {
    if n == 0 then {} else RowsUpTo(batches, n - 1) + Elems(LiveRows(batches[n - 1]))
  }

  /** No row is delivered twice. */
  ghost predicate Fresh(batches: seq<Batch>, n: nat)
    requires n <= |batches| && forall i :: 0 <= i < n ==> BatchOk(batches[i])
    decreases n
  {
    n > 0 ==>
      && Fresh(batches, n - 1)
      && Lists(LiveRows(batches[n - 1]), Elems(LiveRows(batches[n - 1])))
      && Elems(LiveRows(batches[n - 1])) !! RowsUpTo(batches, n - 1)
  }

  lemma {:induction false} FreshBefore(batches: seq<Batch>, i: nat, n: nat)
    requires i <= n <= |batches| && (forall j :: 0 <= j < n ==> BatchOk(batches[j])) && Fresh(batches, n)
    ensures Fresh(batches, i)
    decreases n
  {
    if i < n {
      FreshBefore(batches, i, n - 1);
    }
  }

  /** Collects the rows of one batch. */
  method Collect(b: Batch) returns (rows: seq<Candidate>)
    requires BatchOk(b)
    ensures rows == LiveRows(b)
  {
    rows := [];
    var n := if b.sel.None? then b.numRows else |b.sel.value|;
    var i := 0;
    while i < n
      invariant 0 <= i <= n && rows == LiveRows(b)[..i]
    {
      rows := rows + [RowAt(b, if b.sel.None? then i else b.sel.value[i])];
      i := i + 1;
    }
  }

  /** The columns of a batch become the candidates, all of them live. */
  method WriteCandidates(cands: seq<Candidate>) returns (b: Batch)
    ensures BatchOk(b) && LiveRows(b) == cands && b.numRows == |cands| && b.sel == None
  {
    var pos: seq<nat>, dist: seq<real> := [], [];
    var i := 0;
    while i < |cands|
      invariant 0 <= i <= |cands| && |pos| == |dist| == i
      invariant forall j :: 0 <= j < i ==> pos[j] == cands[j].pos && dist[j] == cands[j].dist
    {
      pos, dist := pos + [cands[i].pos], dist + [cands[i].dist];
      i := i + 1;
    }
    b := Batch(|cands|, None, pos, dist);
  }

  /** Offers one more batch to the heap. */
  method Absorb(h: TopKHeap, batches: seq<Batch>, i: nat, ghost n: nat)
    requires i < n <= |batches| && (forall j :: 0 <= j < n ==> BatchOk(batches[j])) && Fresh(batches, n)
    requires h.Valid() && KeepsBest(h.data, RowsUpTo(batches, i), h.k)
    modifies h
    ensures h.Valid() && KeepsBest(h.data, RowsUpTo(batches, i + 1), h.k)
  {
    FreshBefore(batches, i + 1, n);
    var rows := Collect(batches[i]);
    MergeOne(h, rows, RowsUpTo(batches, i));
  }

  /** Offers every batch the child delivers. */
  method AbsorbAll(h: TopKHeap, batches: seq<Batch>, ghost n: nat)
    requires n == Delivered(batches) && (forall j :: 0 <= j < |batches| ==> BatchOk(batches[j])) && Fresh(batches, n)
    requires h.Valid() && KeepsBest(h.data, {}, h.k)
    modifies h
    ensures h.Valid() && KeepsBest(h.data, RowsUpTo(batches, n), h.k)
  {
    var i := 0;
    while i < |batches| && batches[i].numRows > 0
      invariant 0 <= i <= n && h.Valid()
      invariant KeepsBest(h.data, RowsUpTo(batches, i), h.k)
    {
      Absorb(h, batches, i, n);
      i := i + 1;
    }
  }

  /** The operator emits the k best rows its child delivers, best first. */
  method Next(batches: seq<Batch>, k: int) returns (out: Batch)
    requires forall i :: 0 <= i < |batches| ==> BatchOk(batches[i])
    requires Fresh(batches, Delivered(batches))
    ensures BatchOk(out) && IsTopK(LiveRows(out), RowsUpTo(batches, Delivered(batches)), Max(k, 1))
  {
    var h := new TopKHeap(k);
    AbsorbAll(h, batches, Delivered(batches));
    out := Emit(h, RowsUpTo(batches, Delivered(batches)));
  }

  /** Empties the heap into a batch. */
  method Emit(h: TopKHeap, ghost rows: set<Candidate>) returns (out: Batch)
    requires h.Valid() && KeepsBest(h.data, rows, h.k)
    modifies h
    ensures BatchOk(out) && IsTopK(LiveRows(out), rows, h.k)
  {
    ghost var data := h.data;
    var best := h.Drain();
    SortedBest(data, best, rows, h.k);
    out := WriteCandidates(best);
  }
}
