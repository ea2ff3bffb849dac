/** Options, results, byte and word sizes shared by every component. */
module Prelude {

  datatype Option<+T> = None | Some(value: T)

  datatype Result<+T, +E> = Ok(value: T) | Err(error: E)

  type Byte = x: int | 0 <= x < 256

  const U16: nat := 0x1_0000
  const U32: nat := 0x1_0000_0000
  const U64: nat := 0x1_0000_0000_0000_0000

  function Min(a: int, b: int): int {
    if a <= b then a else b
  }

  function Max(a: int, b: int): int {
    if a <= b then b else a
  }

  ghost predicate NoDup(s: seq<nat>) {
    forall i, j :: 0 <= i < j < |s| ==> s[i] != s[j]
  }

  function SetOf(s: seq<nat>): set<nat> {
    set x | x in s
  }

  lemma SetOfNext(s: seq<nat>, n: nat)
    requires n < |s|
    ensures SetOf(s[..n + 1]) == SetOf(s[..n]) + {s[n]}
  {
    assert s[..n + 1] == s[..n] + [s[n]];
  }

  // ---- multiplication and rounding up ----

  lemma MulLe(a: nat, x: nat, y: nat)
    requires x <= y
    ensures a * x <= a * y && x * a <= y * a
  {
  }

  /** The quotient rounded up is the least number of portions that is enough. */
  lemma CeilDiv(total: nat, portion: nat, n: nat)
    requires portion > 0
    ensures (total + portion - 1) / portion <= n <==> total <= portion * n
  {
    var q := (total + portion - 1) / portion;
    assert portion * q <= total + portion - 1 < portion * q + portion;
    if q <= n {
      MulLe(portion, q, n);
    } else {
      MulLe(portion, n, q - 1);
      assert portion * (q - 1) == portion * q - portion;
    }
  }

  // ---- sizes of sets ----

  lemma ProperSize<T>(a: set<T>, b: set<T>, x: T)
    ensures a <= b && x in b && x !in a ==> |a| < |b|
  {
    if a <= b && x in b && x !in a {
      SubsetSize(a, b - {x});
    }
  }

  lemma SubsetSize<T>(a: set<T>, b: set<T>)
    requires a <= b
    ensures |a| <= |b|
  {
    assert b == a + (b - a);
  }

  lemma SubsetEqual<T>(a: set<T>, b: set<T>)
    requires a <= b && |a| == |b|
    ensures a == b
  {
    assert b == a + (b - a);
  }

  /** Distinct members of a set are at most as many as it has. */
  lemma {:induction false} FitIn(s: seq<nat>, all: set<nat>)
    requires NoDup(s) && forall i :: 0 <= i < |s| ==> s[i] in all
    ensures |s| <= |all|
    decreases |s|
  {
    if s != [] {
      FitIn(s[1..], all - {s[0]});
    }
  }

  function UpTo(n: nat): (r: set<nat>)
    ensures |r| == n && forall x :: x in r <==> 1 <= x <= n
    decreases n
  {
    if n == 0 then {} else UpTo(n - 1) + {n}
  }

  /** Distinct numbers from 1 to n are at most n. */
  lemma AtMost(s: seq<nat>, n: nat)
    requires NoDup(s) && forall i :: 0 <= i < |s| ==> 1 <= s[i] <= n
    ensures |s| <= n
  {
    FitIn(s, UpTo(n));
  }
}
