/**
  Search results (index/index.go, index/heap.go): candidates ordered by distance and
  then position, sorted lists of them, and what it means to be the k best.
 */
module Ranking {
  import opened Prelude

  /** A position and its distance to the query; smaller is closer. */
  datatype Candidate = Candidate(pos: nat, dist: real)

  /** The strict order of every result list: distance, then position. */
  predicate Before(a: Candidate, b: Candidate) {
    if a.dist != b.dist then a.dist < b.dist else a.pos < b.pos
  }

  ghost predicate Sorted(s: seq<Candidate>) {
    forall i, j :: 0 <= i < j < |s| ==> !Before(s[j], s[i])
  }

  /** Sorted without repetition. */
  ghost predicate Ranked(s: seq<Candidate>) {
    forall i, j :: 0 <= i < j < |s| ==> Before(s[i], s[j])
  }

  // ---- sorting ----

  function Insert(x: Candidate, s: seq<Candidate>): (r: seq<Candidate>)
    ensures multiset(r) == multiset{x} + multiset(s)
  {
    if s == [] || !Before(s[0], x) then [x] + s
    else
      assert s == [s[0]] + s[1..];
      [s[0]] + Insert(x, s[1..])
  }

  /** The sorted arrangement of a list; stands for the library's sort. */
  function Sort(s: seq<Candidate>): (r: seq<Candidate>)
    ensures multiset(r) == multiset(s)
  {
    if s == [] then []
    else
      assert s == [s[0]] + s[1..];
      Insert(s[0], Sort(s[1..]))
  }

  lemma {:induction false} InsertSorted(x: Candidate, s: seq<Candidate>)
    requires Sorted(s)
    ensures Sorted(Insert(x, s))
  {
    if s != [] && Before(s[0], x) {
      InsertSorted(x, s[1..]);
      var t := Insert(x, s[1..]);
      var r := [s[0]] + t;
      forall j | 0 <= j < |t| ensures !Before(t[j], s[0]) {
        assert t[j] in multiset(t);
        assert t[j] == x || t[j] in s[1..];
      }
      forall i, j | 0 <= i < j < |r| ensures !Before(r[j], r[i]) {
        assert r[j] == t[j - 1];
        assert i > 0 ==> r[i] == t[i - 1];
      }
    }
  }

  lemma {:induction false} SortSorted(s: seq<Candidate>)
    ensures Sorted(Sort(s))
  {
    if s != [] {
      SortSorted(s[1..]);
      InsertSorted(s[0], Sort(s[1..]));
    }
  }

  // ---- lists as sets ----

  function Elems(s: seq<Candidate>): set<Candidate> {
    set x | x in s
  }

  /** The list enumerates the set, each member once. */
  ghost predicate Lists(s: seq<Candidate>, all: set<Candidate>) {
    multiset(s) == multiset(all)
  }

  lemma Repeated(s: seq<Candidate>, i: nat, j: nat)
    requires i < j < |s|
    ensures s[i] == s[j] ==> multiset(s)[s[j]] >= 2
  {
    assert s == s[..j] + [s[j]] + s[j + 1..];
    assert s[..j][i] == s[i];
    assert s[i] in multiset(s[..j]);
  }

  lemma ListsFacts(s: seq<Candidate>, all: set<Candidate>)
    requires Lists(s, all)
    ensures |s| == |all|
    ensures forall x :: x in s <==> x in all
    ensures forall i, j :: 0 <= i < j < |s| ==> s[i] != s[j]
  {
    assert |multiset(s)| == |s| && |multiset(all)| == |all|;
    forall x ensures x in s <==> x in all {
      assert x in multiset(s) <==> x in s;
    }
    forall i, j | 0 <= i < j < |s| ensures s[i] != s[j] {
      Repeated(s, i, j);
    }
  }

  lemma ListsPush(data: seq<Candidate>, data': seq<Candidate>, all: set<Candidate>, c: Candidate)
    requires Lists(data, all) && c !in all && multiset(data') == multiset(data) + multiset{c}
    ensures Lists(data', all + {c})
  {
  }

  lemma ListsPop(data: seq<Candidate>, data': seq<Candidate>, all: set<Candidate>, c: Candidate)
    requires Lists(data, all) && multiset(data) == multiset(data') + multiset{c}
    ensures c in all && c in data && Lists(data', all - {c})
  {
    assert c in multiset(data);
    assert multiset(all) == multiset(all - {c}) + multiset{c};
    assert multiset(data') == (multiset(data') + multiset{c}) - multiset{c};
  }

  lemma SortRanked(s: seq<Candidate>, all: set<Candidate>)
    requires Lists(s, all)
    ensures Lists(Sort(s), all) && Ranked(Sort(s))
  {
    SortSorted(s);
    ListsFacts(Sort(s), all);
    var r := Sort(s);
    forall i, j | 0 <= i < j < |r| ensures Before(r[i], r[j]) {
      assert !Before(r[j], r[i]) && r[i] != r[j];
    }
  }

  // ---- the k best ----

  /** The list is the k best of the set, best first: ranked, drawn from the set, as long
      as it can be, and nothing left out comes before anything in it. */
  ghost predicate IsTopK(out: seq<Candidate>, all: set<Candidate>, k: nat) {
    && Ranked(out)
    && (forall i :: 0 <= i < |out| ==> out[i] in all)
    && |out| == Min(k, |all|)
    && (forall i, x :: 0 <= i < |out| && x in all && x !in out ==> Before(out[i], x))
  }

  lemma InPrefix(s: seq<Candidate>, k: nat, j: nat)
    requires k <= |s| && j < |s|
    ensures j < k ==> s[j] in s[..k]
  {
    if j < k {
      assert s[..k][j] == s[j];
    }
  }

  /** A ranked enumeration cut at k is the k best. */
  lemma PrefixIsTopK(s: seq<Candidate>, all: set<Candidate>, k: nat)
    requires Lists(s, all) && Ranked(s)
    ensures IsTopK(if |s| > k then s[..k] else s, all, k)
  {
    ListsFacts(s, all);
    var out := if |s| > k then s[..k] else s;
    forall i, x | 0 <= i < |out| && x in all && x !in out ensures Before(out[i], x) {
      assert x in s;
      var j :| 0 <= j < |s| && s[j] == x;
      InPrefix(s, |out|, j);
    }
  }

  /** There is only one such list. */
  lemma TopKUnique(a: seq<Candidate>, b: seq<Candidate>, all: set<Candidate>, k: nat)
    requires IsTopK(a, all, k) && IsTopK(b, all, k)
    ensures a == b
  {
    forall x | x in a ensures x in b {
      TopKMember(a, b, all, k, x);
    }
    forall x | x in b ensures x in a {
      TopKMember(b, a, all, k, x);
    }
    RankedUnique(a, b);
  }

  lemma TopKMember(a: seq<Candidate>, b: seq<Candidate>, all: set<Candidate>, k: nat, x: Candidate)
    requires IsTopK(a, all, k) && IsTopK(b, all, k) && x in a
    ensures x in b
  {
    // were x missing from b, some y of b would be missing from a
    RankedElems(a);
    RankedElems(b);
    ProperSize(Elems(b), Elems(a), x);
    if y :| y in Elems(b) && y !in Elems(a) {
      NotBothMissing(a, b, all, k, x, y);
    }
  }

  /** Each of two missing members would have to come before the other. */
  lemma NotBothMissing(a: seq<Candidate>, b: seq<Candidate>, all: set<Candidate>, k: nat, x: Candidate, y: Candidate)
    requires IsTopK(a, all, k) && IsTopK(b, all, k) && x in a && y in b
    ensures x in b || y in a
  {
    var i :| 0 <= i < |a| && a[i] == x;
    var j :| 0 <= j < |b| && b[j] == y;
    assert y !in a ==> Before(a[i], y);
    assert x !in b ==> Before(b[j], x);
  }

  lemma ElemsTail(s: seq<Candidate>)
    requires Ranked(s) && s != []
    ensures s[0] !in Elems(s[1..]) && Elems(s) == Elems(s[1..]) + {s[0]}
  {
    forall x ensures x in Elems(s) <==> x in Elems(s[1..]) + {s[0]} {
      TailMember(s, x);
    }
    TailMember(s, s[0]);
  }

  lemma {:induction false} RankedElems(s: seq<Candidate>)
    requires Ranked(s)
    ensures Lists(s, Elems(s)) && |Elems(s)| == |s|
    decreases |s|
  {
    if s == [] {
      assert Elems(s) == {};
    } else {
      var x, t := s[0], s[1..];
      assert s == [x] + t;
      RankedElems(t);
      ElemsTail(s);
      ListsPush(t, s, Elems(t), x);
    }
  }

  lemma {:induction false} RankedUnique(a: seq<Candidate>, b: seq<Candidate>)
    requires Ranked(a) && Ranked(b)
    requires forall x :: x in a <==> x in b
    ensures a == b
    decreases |a|
  {
    HeadIn(a);
    HeadIn(b);
    if a != [] && b != [] {
      assert a[0] in b && b[0] in a;
      var i :| 0 <= i < |b| && b[i] == a[0];
      var j :| 0 <= j < |a| && a[j] == b[0];
      assert a[0] == b[0];
      forall x ensures x in a[1..] <==> x in b[1..] {
        TailMember(a, x);
        TailMember(b, x);
      }
      RankedUnique(a[1..], b[1..]);
      assert a == [a[0]] + a[1..] && b == [b[0]] + b[1..];
    }
  }

  lemma HeadIn(s: seq<Candidate>)
    ensures s == [] || s[0] in s
  {
  }

  lemma TailMember(s: seq<Candidate>, x: Candidate)
    requires Ranked(s) && s != []
    ensures x in s[1..] <==> x in s && x != s[0]
  {
    if x in s && x != s[0] {
      var i :| 0 <= i < |s| && s[i] == x;
      assert s[1..][i - 1] == x;
    }
    if x in s[1..] {
      var i :| 0 <= i < |s[1..]| && s[1..][i] == x;
      assert Before(s[0], s[i + 1]);
    }
  }
}
