/**
  The binary heaps of index/heap.go: the nearest-first frontier (minHeap) and the
  farthest-first result set (maxHeap), which also is the order of the bounded top-k
  heap in query/batch.go.  They differ only in which end of the ranking is on top.
 */
module Heap {
  import opened Ranking

  /** x belongs strictly above y. */
  predicate Above(far: bool, x: Candidate, y: Candidate) {
    if far then Before(y, x) else Before(x, y)
  }

  function Parent(i: nat): nat
    requires i > 0
  {
    (i - 1) / 2
  }

  /** The element at i does not belong above its parent. */
  ghost predicate EdgeOk(far: bool, s: seq<Candidate>, i: nat) {
    0 < i < |s| ==> !Above(far, s[i], s[Parent(i)])
  }

  ghost predicate Ordered(far: bool, s: seq<Candidate>) {
    forall i :: EdgeOk(far, s, i)
  }

  /** A child j of i does not belong above i's parent. */
  ghost predicate GrandOk(far: bool, s: seq<Candidate>, i: nat, j: nat) {
    0 < i < |s| && 0 < j < |s| && Parent(j) == i ==> !Above(far, s[j], s[Parent(i)])
  }

  /** Ordered except that the element at i may belong above its parent. */
  ghost predicate RisingAt(far: bool, s: seq<Candidate>, i: nat) {
    && i < |s|
    && (forall j :: j != i ==> EdgeOk(far, s, j))
    && (forall j :: GrandOk(far, s, i, j))
  }

  /** Ordered except that the children of i may belong above it. */
  ghost predicate SinkingAt(far: bool, s: seq<Candidate>, i: nat) {
    && (forall j :: j > 0 && Parent(j) != i ==> EdgeOk(far, s, j))
    && (forall j :: GrandOk(far, s, i, j))
  }

  function Swapped(s: seq<Candidate>, i: nat, j: nat): (r: seq<Candidate>)
    requires i < |s| && j < |s|
    ensures |r| == |s| && multiset(r) == multiset(s)
  {
    s[i := s[j]][j := s[i]]
  }

  lemma RiseStep(far: bool, s: seq<Candidate>, i: nat)
    requires RisingAt(far, s, i) && i > 0 && Above(far, s[i], s[Parent(i)])
    ensures RisingAt(far, Swapped(s, i, Parent(i)), Parent(i))
  {
    var p := Parent(i);
    var t := Swapped(s, i, p);
    forall j: nat | j != p ensures EdgeOk(far, t, j) {
      assert (j != i ==> EdgeOk(far, s, j)) && GrandOk(far, s, i, j);
    }
    forall j: nat ensures GrandOk(far, t, p, j) {
      assert j != i ==> EdgeOk(far, s, j);
      assert p != i ==> EdgeOk(far, s, p);
    }
  }

  lemma RiseDone(far: bool, s: seq<Candidate>, i: nat)
    requires RisingAt(far, s, i) && EdgeOk(far, s, i)
    ensures Ordered(far, s)
  {
    forall j: nat ensures EdgeOk(far, s, j) {
      assert j != i ==> EdgeOk(far, s, j);
    }
  }

  /** The child that belongs on top of i and its other child moves up. */
  lemma SinkStep(far: bool, s: seq<Candidate>, i: nat, top: nat)
    requires SinkingAt(far, s, i) && i < top < |s| && Parent(top) == i && Above(far, s[top], s[i])
    requires forall c :: c in {2 * i + 1, 2 * i + 2} && c < |s| ==> !Above(far, s[c], s[top])
    ensures SinkingAt(far, Swapped(s, i, top), top)
  {
    var t := Swapped(s, i, top);
    forall j: nat | j > 0 && Parent(j) != top ensures EdgeOk(far, t, j) {
      assert (Parent(j) != i ==> EdgeOk(far, s, j)) && GrandOk(far, s, i, top);
      assert Parent(j) == i ==> j in {2 * i + 1, 2 * i + 2};
    }
    forall j: nat ensures GrandOk(far, t, top, j) {
      assert j > 0 && Parent(j) != i ==> EdgeOk(far, s, j);
    }
  }

  lemma SinkDone(far: bool, s: seq<Candidate>, i: nat)
    requires SinkingAt(far, s, i)
    requires forall c :: c in {2 * i + 1, 2 * i + 2} && c < |s| ==> !Above(far, s[c], s[i])
    ensures Ordered(far, s)
  {
    forall j: nat ensures EdgeOk(far, s, j) {
      if j > 0 {
        assert Parent(j) != i ==> EdgeOk(far, s, j);
        assert Parent(j) == i ==> j in {2 * i + 1, 2 * i + 2};
      }
    }
  }

  /** No element of an ordered heap belongs above its root. */
  lemma {:induction false} RootOnTop(far: bool, s: seq<Candidate>, i: nat)
    requires Ordered(far, s) && i < |s|
    ensures !Above(far, s[i], s[0])
    decreases i
  {
    if i > 0 {
      RootOnTop(far, s, Parent(i));
      assert EdgeOk(far, s, i);
    }
  }

  /** Moving the last element to the root removes exactly the old root. */
  lemma Moved(s: seq<Candidate>)
    requires s != []
    ensures var t := s[0 := s[|s| - 1]][..|s| - 1];
            multiset(s) == multiset(t) + multiset{s[0]}
  {
    var n := |s|;
    var u := s[0 := s[n - 1]];
    assert u == u[..n - 1] + [u[n - 1]];
    assert multiset(u) == multiset(s) - multiset{s[0]} + multiset{s[n - 1]};
    assert u[n - 1] == s[n - 1];
  }

  lemma Top(far: bool, s: seq<Candidate>)
    requires Ordered(far, s) && s != []
    ensures forall x :: x in s ==> !Above(far, x, s[0])
  {
    forall x | x in s ensures !Above(far, x, s[0]) {
      var i :| 0 <= i < |s| && s[i] == x;
      RootOnTop(far, s, i);
    }
  }

  // ---- the sifting loops ----

  /** Appends an element and lets it rise. */
  method Rise(far: bool, s: seq<Candidate>, c: Candidate) returns (data: seq<Candidate>)
    requires Ordered(far, s)
    ensures Ordered(far, data) && multiset(data) == multiset(s) + multiset{c}
    ensures |data| == |s| + 1
  {
    data := s + [c];
    var i := |data| - 1;
    assert RisingAt(far, data, i) by {
      forall j: nat | j != i ensures EdgeOk(far, data, j) {
        assert EdgeOk(far, s, j);
      }
    }
    while i > 0
      invariant 0 <= i < |data| && |data| == |s| + 1
      invariant multiset(data) == multiset(s) + multiset{c}
      invariant RisingAt(far, data, i)
      decreases i
    {
      var parent := (i - 1) / 2;
      if !Above(far, data[i], data[parent]) {
        break;
      }
      RiseStep(far, data, i);
      data := Swapped(data, i, parent);
      i := parent;
    }
    RiseDone(far, data, i);
  }

  /** Sinks the element at the root to its place; everything below is ordered. */
  method Sink(far: bool, s: seq<Candidate>) returns (data: seq<Candidate>)
    requires SinkingAt(far, s, 0)
    ensures Ordered(far, data) && multiset(data) == multiset(s) && |data| == |s|
  {
    data := s;
    var n := |data|;
    var i := 0;
    while true
      invariant 0 <= i && (n > 0 ==> i < n) && |data| == n
      invariant multiset(data) == multiset(s)
      invariant SinkingAt(far, data, i)
      decreases n - i
    {
      var l, r := 2 * i + 1, 2 * i + 2;
      var top := i;
      if l < n && Above(far, data[l], data[top]) {
        top := l;
      }
      if r < n && Above(far, data[r], data[top]) {
        top := r;
      }
      if top == i {
        SinkDone(far, data, i);
        return;
      }
      SinkStep(far, data, i, top);
      data := Swapped(data, i, top);
      i := top;
    }
  }

  /** Removes the root: nothing in the heap belongs above it. */
  method TakeRoot(far: bool, s: seq<Candidate>) returns (top: Candidate, data: seq<Candidate>)
    requires Ordered(far, s) && s != []
    ensures Ordered(far, data) && |data| == |s| - 1
    ensures multiset(s) == multiset(data) + multiset{top}
    ensures top == s[0] && forall x :: x in s ==> !Above(far, x, top)
  {
    top := s[0];
    Top(far, s);
    Moved(s);
    data := s[0 := s[|s| - 1]][..|s| - 1];
    assert SinkingAt(far, data, 0) by {
      forall j: nat | j > 0 && Parent(j) != 0 ensures EdgeOk(far, data, j) {
        assert EdgeOk(far, s, j);
      }
    }
    data := Sink(far, data);
  }

  /** Replaces the root and restores order. */
  method ReplaceRoot(far: bool, s: seq<Candidate>, c: Candidate) returns (data: seq<Candidate>)
    requires Ordered(far, s) && s != []
    ensures Ordered(far, data) && |data| == |s|
    ensures multiset(data) + multiset{s[0]} == multiset(s) + multiset{c}
  {
    data := s[0 := c];
    assert SinkingAt(far, data, 0) by {
      forall j: nat | j > 0 && Parent(j) != 0 ensures EdgeOk(far, data, j) {
        assert EdgeOk(far, s, j);
      }
    }
    assert multiset(data) == multiset(s) - multiset{s[0]} + multiset{c};
    data := Sink(far, data);
  }

  class CandidateHeap {
    const farthestFirst: bool
    var data: seq<Candidate>

    ghost predicate Valid()
      reads this
    {
      Ordered(farthestFirst, data)
    }

    constructor (far: bool)
      ensures Valid() && data == [] && farthestFirst == far
    {
      farthestFirst := far;
      data := [];
    }

    method Push(c: Candidate)
      requires Valid()
      modifies this
      ensures Valid() && multiset(data) == multiset(old(data)) + multiset{c} && |data| == |old(data)| + 1
    {
      data := Rise(farthestFirst, data, c);
    }

    method Pop() returns (top: Candidate)
      requires Valid() && data != []
      modifies this
      ensures Valid() && |data| == |old(data)| - 1
      ensures multiset(old(data)) == multiset(data) + multiset{top}
      ensures top == old(data)[0] && forall x :: x in old(data) ==> !Above(farthestFirst, x, top)
    {
      top, data := TakeRoot(farthestFirst, data);
    }
  }
}
