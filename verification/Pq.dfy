/** Product quantization (quant/pq.go): codes, reconstruction and lookup-table distances. */
module Pq {
  import opened Prelude
  import opened Vectors
  import opened Lloyd
  import opened KMeans

  type Code = seq<nat>

  /** m subspaces of ds dimensions, each with a codebook of ksub rows. */
  datatype Codebook = Codebook(m: nat, ksub: nat, ds: nat, centroids: seq<seq<Vec>>)

  ghost predicate BookAt(cb: Codebook, j: nat) {
    j < |cb.centroids| ==> |cb.centroids[j]| == cb.ksub && Rows(cb.centroids[j], cb.ds)
  }

  ghost predicate WellFormed(cb: Codebook) {
    && |cb.centroids| == cb.m && 1 <= cb.ksub <= 256
    && forall j: nat :: BookAt(cb, j)
  }

  /** Where subspace j begins. */
  function Start(ds: nat, j: nat): nat
    decreases j
  {
    if j == 0 then 0 else Start(ds, j - 1) + ds
  }

  lemma {:induction false} StartIs(ds: nat, j: nat)
    ensures Start(ds, j) == j * ds
    decreases j
  {
    if j > 0 {
      StartIs(ds, j - 1);
      assert j * ds == (j - 1) * ds + ds;
    }
  }

  lemma {:induction false} StartUp(ds: nat, i: nat, j: nat)
    requires i <= j
    ensures Start(ds, i) <= Start(ds, j)
    decreases j
  {
    if i < j {
      StartUp(ds, i, j - 1);
    }
  }

  /** The part of a vector in subspace j. */
  function Part(cb: Codebook, v: Vec, j: nat): (r: Vec)
    requires j < cb.m && |v| == Start(cb.ds, cb.m)
    ensures |r| == cb.ds
  {
    StartUp(cb.ds, j + 1, cb.m);
    v[Start(cb.ds, j)..Start(cb.ds, j + 1)]
  }

  /** The rows of subspace j. */
  function Book(cb: Codebook, j: nat): (r: seq<Vec>)
    requires WellFormed(cb) && j < cb.m
    ensures |r| == cb.ksub && Rows(r, cb.ds)
  {
    assert BookAt(cb, j);
    cb.centroids[j]
  }

  predicate ValidCode(cb: Codebook, code: Code) {
    |code| == cb.m && forall j :: 0 <= j < cb.m ==> code[j] < cb.ksub
  }

  // ---- reconstruction ----

  /** The chosen centroids of the first n subspaces, end to end. */
  function Decoded(cb: Codebook, code: Code, n: nat): (r: Vec)
    requires WellFormed(cb) && ValidCode(cb, code) && n <= cb.m
    ensures |r| == Start(cb.ds, n)
    decreases n
  {
    if n == 0 then [] else Decoded(cb, code, n - 1) + Book(cb, n - 1)[code[n - 1]]
  }

  method Decode(cb: Codebook, code: Code) returns (out: Vec)
    requires WellFormed(cb) && ValidCode(cb, code)
    ensures out == Decoded(cb, code, cb.m)
  {
    out := [];
    for j := 0 to cb.m
      invariant out == Decoded(cb, code, j)
    {
      out := out + Book(cb, j)[code[j]];
    }
  }

  // ---- distances split over subspaces ----

  function Dot(a: Vec, b: Vec, d: nat): real
    requires d <= |a| && d <= |b|
    decreases d
  {
    if d == 0 then 0.0 else Dot(a, b, d - 1) + a[d - 1] * b[d - 1]
  }

  lemma {:induction false} SplitAt(a: Vec, b: Vec, x: Vec, y: Vec, n: nat, e: nat)
    requires n + |x| <= |a| && |b| == n && |x| == |y| && e <= |x| && a[n..n + |x|] == x
    ensures L2(a, b + y, n + e) == L2(a, b, n) + L2(x, y, e)
    ensures Dot(a, b + y, n + e) == Dot(a, b, n) + Dot(x, y, e)
    decreases e
  {
    if e == 0 {
      Beyond(a, b, y, n);
    } else {
      SplitAt(a, b, x, y, n, e - 1);
      assert a[n + (e - 1)] == x[e - 1] && (b + y)[n + (e - 1)] == y[e - 1];
    }
  }

  lemma {:induction false} Beyond(a: Vec, b: Vec, y: Vec, n: nat)
    requires n <= |a| && n <= |b|
    ensures L2(a, b + y, n) == L2(a, b, n) && Dot(a, b + y, n) == Dot(a, b, n)
    decreases n
  {
    if n > 0 {
      Beyond(a, b, y, n - 1);
    }
  }

  datatype Metric = Euclidean | InnerProduct

  /** The distance of whole vectors under the metric. */
  function Whole(metric: Metric, a: Vec, b: Vec, d: nat): real
    requires d <= |a| && d <= |b|
  {
    if metric == InnerProduct then -Dot(a, b, d) else L2(a, b, d)
  }

  /** The table entry for centroid c of subspace j. */
  function Cell(cb: Codebook, metric: Metric, q: Vec, j: nat, c: nat): real
    requires WellFormed(cb) && |q| == Start(cb.ds, cb.m) && j < cb.m && c < cb.ksub
  {
    Whole(metric, Part(cb, q, j), Book(cb, j)[c], cb.ds)
  }

  ghost function TableSum(cb: Codebook, metric: Metric, q: Vec, code: Code, n: nat): real
    requires WellFormed(cb) && |q| == Start(cb.ds, cb.m) && ValidCode(cb, code) && n <= cb.m
    decreases n
  {
    if n == 0 then 0.0 else TableSum(cb, metric, q, code, n - 1) + Cell(cb, metric, q, n - 1, code[n - 1])
  }

  /** Adding table entries gives the distance to the reconstruction. */
  lemma {:induction false} TableSumIs(cb: Codebook, metric: Metric, q: Vec, code: Code, n: nat)
    requires WellFormed(cb) && |q| == Start(cb.ds, cb.m) && ValidCode(cb, code) && n <= cb.m
    ensures Start(cb.ds, n) <= |q|
    ensures TableSum(cb, metric, q, code, n) == Whole(metric, q, Decoded(cb, code, n), Start(cb.ds, n))
    decreases n
  {
    StartUp(cb.ds, n, cb.m);
    if n > 0 {
      TableSumIs(cb, metric, q, code, n - 1);
      SplitAt(q, Decoded(cb, code, n - 1), Part(cb, q, n - 1), Book(cb, n - 1)[code[n - 1]], Start(cb.ds, n - 1),
              cb.ds);
    }
  }

  // ---- the lookup table ----

  ghost predicate Filled(cb: Codebook, metric: Metric, q: Vec, table: array2<real>)
    requires WellFormed(cb) && |q| == Start(cb.ds, cb.m)
    reads table
  {
    && table.Length0 == cb.m && table.Length1 == cb.ksub
    && forall j, c :: 0 <= j < cb.m && 0 <= c < cb.ksub ==> table[j, c] == Cell(cb, metric, q, j, c)
  }

  method BuildTable(cb: Codebook, metric: Metric, q: Vec) returns (table: array2<real>)
    requires WellFormed(cb) && |q| == Start(cb.ds, cb.m)
    ensures fresh(table) && Filled(cb, metric, q, table)
  {
    table := new real[cb.m, cb.ksub];
    var j := 0;
    while j < cb.m
      invariant 0 <= j <= cb.m
      invariant forall i, c :: 0 <= i < j && 0 <= c < cb.ksub ==> table[i, c] == Cell(cb, metric, q, i, c)
    {
      var c := 0;
      while c < cb.ksub
        invariant 0 <= c <= cb.ksub
        invariant forall i, b :: 0 <= i < j && 0 <= b < cb.ksub ==> table[i, b] == Cell(cb, metric, q, i, b)
        invariant forall b :: 0 <= b < c ==> table[j, b] == Cell(cb, metric, q, j, b)
      {
        table[j, c] := Cell(cb, metric, q, j, c);
        c := c + 1;
      }
      j := j + 1;
    }
  }

  /** The table distance of a code is the distance from the query to its reconstruction. */
  method TableDistance(cb: Codebook, metric: Metric, q: Vec, table: array2<real>, code: Code) returns (d: real)
    requires WellFormed(cb) && |q| == Start(cb.ds, cb.m) && Filled(cb, metric, q, table) && ValidCode(cb, code)
    ensures d == Whole(metric, q, Decoded(cb, code, cb.m), |q|)
  {
    d := 0.0;
    var j := 0;
    while j < table.Length0
      invariant 0 <= j <= cb.m && d == TableSum(cb, metric, q, code, j)
    {
      d := d + table[j, code[j]];
      j := j + 1;
    }
    TableSumIs(cb, metric, q, code, cb.m);
  }

  // ---- encoding ----

  /** The byte names the nearest row of subspace j, or the first when none is in range. */
  ghost predicate PartOk(cb: Codebook, vec: Vec, j: nat, q: nat)
    requires WellFormed(cb) && |vec| == Start(cb.ds, cb.m) && j < cb.m
  {
    Nearest(Part(cb, vec, j), Book(cb, j), cb.ds, q)
  }

  /** The code a vector gets. */
  ghost predicate Encoded(cb: Codebook, vec: Vec, code: Code)
    requires WellFormed(cb) && |vec| == Start(cb.ds, cb.m)
  {
    ValidCode(cb, code) && forall j :: 0 <= j < cb.m ==> PartOk(cb, vec, j, code[j])
  }

  method Encode(cb: Codebook, vec: Vec) returns (code: Code)
    requires WellFormed(cb) && |vec| == Start(cb.ds, cb.m)
    ensures Encoded(cb, vec, code)
  {
    code := [];
    var j := 0;
    while j < cb.m
      invariant 0 <= j <= cb.m && |code| == j
      invariant forall i :: 0 <= i < j ==> code[i] < cb.ksub && PartOk(cb, vec, i, code[i])
    {
      var best := FindNearest(Part(cb, vec, j), Book(cb, j), cb.ds);
      code := code + [best % 256];
      j := j + 1;
    }
  }

  // ---- when encoding is optimal ----

  /** No row of subspace j is nearer than q. */
  ghost predicate BestAt(cb: Codebook, vec: Vec, j: nat, q: nat)
    requires WellFormed(cb) && |vec| == Start(cb.ds, cb.m) && j < cb.m && q < cb.ksub
  {
    forall c :: 0 <= c < cb.ksub ==> Cell(cb, Euclidean, vec, j, q) <= Cell(cb, Euclidean, vec, j, c)
  }

  /** Every subspace has a row in range, or its first row is nearest anyway. */
  ghost predicate Encodable(cb: Codebook, vec: Vec)
    requires WellFormed(cb) && |vec| == Start(cb.ds, cb.m)
  {
    forall j :: 0 <= j < cb.m ==> HasNear(Part(cb, vec, j), Book(cb, j), cb.ds) || BestAt(cb, vec, j, 0)
  }

  ghost function Error(cb: Codebook, vec: Vec, code: Code): real
    requires WellFormed(cb) && |vec| == Start(cb.ds, cb.m) && ValidCode(cb, code)
  {
    L2(vec, Decoded(cb, code, cb.m), |vec|)
  }

  lemma {:induction false} SumBest(cb: Codebook, vec: Vec, best: Code, code: Code, n: nat)
    requires WellFormed(cb) && |vec| == Start(cb.ds, cb.m) && ValidCode(cb, best) && ValidCode(cb, code) && n <= cb.m
    requires forall j :: 0 <= j < n ==> BestAt(cb, vec, j, best[j])
    ensures TableSum(cb, Euclidean, vec, best, n) <= TableSum(cb, Euclidean, vec, code, n)
    decreases n
  {
    if n > 0 {
      SumBest(cb, vec, best, code, n - 1);
      assert BestAt(cb, vec, n - 1, best[n - 1]);
    }
  }

  /** Changing one byte changes one table entry. */
  lemma {:induction false} SumSwap(cb: Codebook, vec: Vec, code: Code, j: nat, q: nat, n: nat)
    requires WellFormed(cb) && |vec| == Start(cb.ds, cb.m) && ValidCode(cb, code) && n <= cb.m && j < cb.m
    requires q < cb.ksub
    ensures ValidCode(cb, code[j := q])
    ensures TableSum(cb, Euclidean, vec, code[j := q], n) - TableSum(cb, Euclidean, vec, code, n)
            == if j < n then Cell(cb, Euclidean, vec, j, q) - Cell(cb, Euclidean, vec, j, code[j]) else 0.0
    decreases n
  {
    assert ValidCode(cb, code[j := q]);
    if n > 0 {
      SumSwap(cb, vec, code, j, q, n - 1);
    }
  }

  /** The code a vector gets decodes nearest among all codes exactly when every subspace
      has a row in range or its first row is nearest. */
  lemma EncodeOptimal(cb: Codebook, vec: Vec, code: Code)
    requires WellFormed(cb) && |vec| == Start(cb.ds, cb.m) && Encoded(cb, vec, code)
    ensures Encodable(cb, vec) <==>
      forall other :: ValidCode(cb, other) ==> Error(cb, vec, code) <= Error(cb, vec, other)
  {
    TableSumIs(cb, Euclidean, vec, code, cb.m);
    if Encodable(cb, vec) {
      forall j | 0 <= j < cb.m ensures BestAt(cb, vec, j, code[j]) {
        assert PartOk(cb, vec, j, code[j]);
      }
      forall other | ValidCode(cb, other) ensures Error(cb, vec, code) <= Error(cb, vec, other) {
        TableSumIs(cb, Euclidean, vec, other, cb.m);
        SumBest(cb, vec, code, other, cb.m);
      }
    } else {
      var j :| 0 <= j < cb.m && !HasNear(Part(cb, vec, j), Book(cb, j), cb.ds) && !BestAt(cb, vec, j, 0);
      assert PartOk(cb, vec, j, code[j]);
      var c :| 0 <= c < cb.ksub && Cell(cb, Euclidean, vec, j, 0) > Cell(cb, Euclidean, vec, j, c);
      SumSwap(cb, vec, code, j, c, cb.m);
      TableSumIs(cb, Euclidean, vec, code[j := c], cb.m);
      assert Error(cb, vec, code) > Error(cb, vec, code[j := c]);
    }
  }

  /** A vector that is encoded badly: both rows are beyond the largest float, and the code
      names the first, which is farther. */
  lemma EncodedBadly()
    ensures var cb, vec := Codebook(1, 2, 1, [[[2.0e20], [1.9e20]]]), [0.0];
            && WellFormed(cb) && |vec| == Start(cb.ds, cb.m) && Encoded(cb, vec, [0]) && !Encodable(cb, vec)
            && Error(cb, vec, [0]) > Error(cb, vec, [1])
  {
    var cb, vec := Codebook(1, 2, 1, [[[2.0e20], [1.9e20]]]), [0.0];
    assert Start(cb.ds, 0) == 0 && Start(cb.ds, 1) == 1;
    assert WellFormed(cb) && Part(cb, vec, 0) == vec;
    assert L2(vec, [2.0e20], 1) == 4.0e40 && L2(vec, [1.9e20], 1) == 3.61e40;
    assert PartOk(cb, vec, 0, 0);
    assert Decoded(cb, [0], 1) == [2.0e20] && Decoded(cb, [1], 1) == [1.9e20];
    EncodeOptimal(cb, vec, [0]);
    assert ValidCode(cb, [1]) && Error(cb, vec, [0]) > Error(cb, vec, [1]);
  }

  // ---- training ----

  datatype TrainError = EmptyTraining | NotDivisible

  /** The rows of subspace j. */
  function Columns(data: seq<Vec>, ds: nat, j: nat): seq<Vec>
    requires forall i :: 0 <= i < |data| ==> Start(ds, j + 1) <= |data[i]|
  {
    assert Start(ds, j + 1) == Start(ds, j) + ds;
    seq(|data|, i requires 0 <= i < |data| => data[i][Start(ds, j)..Start(ds, j + 1)])
  }

  /** The book is what a k-means run on the rows ended with: from the rows first picked,
      as long as the iterations last or until a round after the first moves no row. */
  ghost predicate Learned(rows: seq<Vec>, ds: nat, iters: nat, picks: seq<nat>, stages: seq<Stage>, book: seq<Vec>) {
    && IsRun(rows, ds, stages) && 1 <= |stages| <= iters + 1 && stages[|stages| - 1].cents == book
    && |book| == |picks| == |stages[0].cents|
    && (forall c :: 0 <= c < |picks| ==> picks[c] < |rows| && stages[0].cents[c] == rows[picks[c]])
    && (forall i :: 0 <= i < |rows| ==> stages[0].assign[i] == 0)
    && (|stages| <= iters ==> |stages| >= 3 && stages[|stages| - 2].assign == stages[|stages| - 1].assign)
  }

  method TrainBook(rows: seq<Vec>, ds: nat, ksub: nat, iters: nat, picks: seq<nat>, draws: nat -> nat)
    returns (book: seq<Vec>, ghost stages: seq<Stage>)
    requires Rows(rows, ds) && rows != [] && ksub >= 1
    requires |picks| == Min(ksub, |rows|) && forall c :: 0 <= c < |picks| ==> picks[c] < |rows|
    ensures |book| == Min(ksub, |rows|) && Rows(book, ds) && Learned(rows, ds, iters, picks, stages, book)
  {
    var cents, assign;
    cents, assign, stages := Train(rows, ds, ksub, iters, picks, draws);
    book := cents[..];
  }

  /** The rows subspace j starts from. */
  function Picks(pick: (nat, nat) -> nat, j: nat, k: nat, n: nat): (r: seq<nat>)
    requires n >= 1
    ensures |r| == k && forall c :: 0 <= c < k ==> r[c] < n
  {
    seq(k, c requires 0 <= c < k => pick(j, c) % n)
  }

  /** The book was learned from the columns of subspace j. */
  ghost predicate LearnedAt(data: seq<Vec>, ds: nat, iters: nat, picks: seq<nat>, book: seq<Vec>, j: nat) {
    && (forall i :: 0 <= i < |data| ==> Start(ds, j + 1) <= |data[i]|)
    && exists stages :: Learned(Columns(data, ds, j), ds, iters, picks, stages, book)
  }

  /** Trains each subspace on its columns.  The codebook is well formed exactly when the
      sample has at least as many rows as a subspace has centroids. */
  method TrainPQ(data: seq<Vec>, d: nat, m: nat, ksub: nat, iters: nat, pick: (nat, nat) -> nat, draws: nat -> nat)
    returns (r: Result<Codebook, TrainError>)
    requires Rows(data, d) && m >= 1 && 1 <= ksub <= 256
    ensures r == Err(EmptyTraining) <==> data == []
    ensures r == Err(NotDivisible) <==> data != [] && d % m != 0
    ensures r.Ok? ==> r.value.m == m && r.value.ksub == ksub && Start(r.value.ds, m) == d
    ensures r.Ok? ==> (WellFormed(r.value) <==> ksub <= |data|)
    ensures r.Ok? ==> |r.value.centroids| == m && forall j :: 0 <= j < m ==>
      LearnedAt(data, r.value.ds, iters, Picks(pick, j, Min(ksub, |data|), |data|), r.value.centroids[j], j)
  {
    if data == [] {
      return Err(EmptyTraining);
    }
    if d % m != 0 {
      return Err(NotDivisible);
    }
    var ds := d / m;
    StartIs(ds, m);
    assert m * ds == d;
    var books: seq<seq<Vec>> := [];
    for j := 0 to m
      invariant |books| == j
      invariant forall i :: 0 <= i < j ==> |books[i]| == Min(ksub, |data|) && Rows(books[i], ds)
      invariant forall i :: 0 <= i < j ==>
        LearnedAt(data, ds, iters, Picks(pick, i, Min(ksub, |data|), |data|), books[i], i)
    {
      StartUp(ds, j + 1, m);
      var picks := Picks(pick, j, Min(ksub, |data|), |data|);
      var book;
      ghost var stages;
      book, stages := TrainBook(Columns(data, ds, j), ds, ksub, iters, picks, draws);
      assert LearnedAt(data, ds, iters, picks, book, j);
      books := books + [book];
    }
    var cb := Codebook(m, ksub, ds, books);
    TrainedBooks(cb, Min(ksub, |data|));
    return Ok(cb);
  }

  lemma TrainedBooks(cb: Codebook, n: nat)
    requires |cb.centroids| == cb.m >= 1 && 1 <= cb.ksub <= 256
    requires forall j :: 0 <= j < cb.m ==> |cb.centroids[j]| == n && Rows(cb.centroids[j], cb.ds)
    ensures WellFormed(cb) <==> n == cb.ksub
  {
    if n == cb.ksub {
      forall j: nat ensures BookAt(cb, j) {
      }
    } else {
      assert !BookAt(cb, 0);
    }
  }
}
