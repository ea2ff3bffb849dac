/**
  One key's version chain (mvcc/delta.go): the newest-first list of entries a
  snapshot walks until it meets the first one it can see, and the three edits the
  version table makes to it.
 */
module VersionChain {
  import opened Prelude

  type CommitSeq = nat
  type TxnId = nat

  /** The read point of a transaction (mvcc/mvcc.go). */
  datatype Snapshot = Snapshot(readSeq: CommitSeq, txn: TxnId, inFlight: seq<TxnId>) {
    predicate IsVisible(vSeq: CommitSeq, vTxn: TxnId) {
      if vTxn == txn then true
      else if vTxn in inFlight then false
      else vSeq != 0 && vSeq <= readSeq
    }
  }

  /** The payload of a version: a value or a tombstone that also carries one. */
  datatype Version<+V> = Version(val: V, tomb: bool) {
    function Value(): Option<V> {
      if tomb then None else Some(val)
    }
  }

  /** A version on a chain; sequence 0 marks a write that is still in flight. */
  datatype Entry<+V> = Entry(seqno: CommitSeq, txn: TxnId, version: Version<V>)

  type Chain<+V> = seq<Entry<V>>

  /** The three ways of looking at a chain: as a snapshot does, as of a commit
      sequence regardless of who reads, and at one transaction's own entries. */
  datatype View = Through(s: Snapshot) | AsOf(r: CommitSeq) | OwnedBy(t: TxnId)

  predicate Sees<V>(w: View, e: Entry<V>) {
    match w
    case Through(s) => s.IsVisible(e.seqno, e.txn)
    case AsOf(r) => e.seqno != 0 && e.seqno <= r
    case OwnedBy(t) => e.txn == t
  }

  /** The newest entry of the chain the view sees. */
  function Find<V>(c: Chain<V>, w: View): Option<Version<V>> {
    if c == [] then None
    else if Sees(w, c[0]) then Some(c[0].version)
    else Find(c[1..], w)
  }

  /** What a reader gets: tombstones and missing versions both read as absent. */
  function Read<V>(c: Chain<V>, w: View): Option<V> {
    match Find(c, w)
    case None => None
    case Some(v) => v.Value()
  }

  ghost predicate FirstSeen<V>(c: Chain<V>, w: View, i: nat) {
    i < |c| && Sees(w, c[i]) && forall j :: 0 <= j < i ==> !Sees(w, c[j])
  }

  lemma {:induction false} FindFirst<V>(c: Chain<V>, w: View, i: nat)
    requires FirstSeen(c, w, i)
    ensures Find(c, w) == Some(c[i].version)
  {
    if i > 0 {
      assert !Sees(w, c[0]);
      assert FirstSeen(c[1..], w, i - 1) by {
        forall j | 0 <= j < i - 1 ensures !Sees(w, c[1..][j]) {
          assert c[1..][j] == c[j + 1];
        }
      }
      FindFirst(c[1..], w, i - 1);
    }
  }

  lemma {:induction false} FindNothing<V>(c: Chain<V>, w: View)
    requires forall j :: 0 <= j < |c| ==> !Sees(w, c[j])
    ensures Find(c, w) == None
  {
    if c != [] {
      FindNothing(c[1..], w);
    }
  }

  /** Either nothing on the chain is seen, or there is a first seen entry. */
  lemma {:induction false} FirstOrNothing<V>(c: Chain<V>, w: View) returns (i: nat)
    ensures i <= |c|
    ensures forall j :: 0 <= j < i ==> !Sees(w, c[j])
    ensures i == |c| ==> Find(c, w) == None
    ensures i < |c| ==> FirstSeen(c, w, i) && Find(c, w) == Some(c[i].version)
  {
    i := 0;
    while i < |c| && !Sees(w, c[i])
      invariant i <= |c|
      invariant forall j :: 0 <= j < i ==> !Sees(w, c[j])
    {
      i := i + 1;
    }
    if i < |c| {
      FindFirst(c, w, i);
    } else {
      FindNothing(c, w);
    }
  }

  /** Two views that agree on every entry of a chain find the same version. */
  lemma FindAgree<V>(c: Chain<V>, w: View, w': View)
    requires forall j :: 0 <= j < |c| ==> Sees(w, c[j]) == Sees(w', c[j])
    ensures Find(c, w) == Find(c, w')
  {
    var i := FirstOrNothing(c, w);
    if i < |c| {
      FindFirst(c, w', i);
    } else {
      FindNothing(c, w');
    }
  }

  /** Cutting a chain behind a seen entry changes nothing for that view. */
  lemma FindPrefix<V>(c: Chain<V>, w: View, m: nat, i: nat)
    requires i < m <= |c| && Sees(w, c[i])
    ensures Find(c[..m], w) == Find(c, w)
  {
    var j := FirstOrNothing(c, w);
    assert j <= i;
    assert FirstSeen(c[..m], w, j);
    FindFirst(c[..m], w, j);
  }

  // ---- the edits ----

  /** Commit: every in-flight entry of the transaction receives its sequence. */
  function Stamp<V>(c: Chain<V>, t: TxnId, n: CommitSeq): (r: Chain<V>)
    ensures |r| == |c|
    ensures forall i :: 0 <= i < |c| ==>
      r[i] == if c[i].txn == t && c[i].seqno == 0 then c[i].(seqno := n) else c[i]
  {
    if c == [] then []
    else [if c[0].txn == t && c[0].seqno == 0 then c[0].(seqno := n) else c[0]] + Stamp(c[1..], t, n)
  }

  /** Abort: the in-flight entries of the transaction are filtered out. */
  function Drop<V>(c: Chain<V>, t: TxnId): Chain<V> {
    if c == [] then []
    else if c[0].txn == t && c[0].seqno == 0 then Drop(c[1..], t)
    else [c[0]] + Drop(c[1..], t)
  }

  /** Abort hides nothing from a view that saw none of the dropped entries. */
  lemma {:induction false} FindDrop<V>(c: Chain<V>, t: TxnId, w: View)
    requires forall j :: 0 <= j < |c| && c[j].txn == t && c[j].seqno == 0 ==> !Sees(w, c[j])
    ensures Find(Drop(c, t), w) == Find(c, w)
  {
    if c != [] {
      forall j | 0 <= j < |c[1..]| && c[1..][j].txn == t && c[1..][j].seqno == 0
        ensures !Sees(w, c[1..][j])
      {
        assert c[1..][j] == c[j + 1];
      }
      FindDrop(c[1..], t, w);
      if !(c[0].txn == t && c[0].seqno == 0) {
        assert Drop(c, t)[1..] == Drop(c[1..], t);
      }
    }
  }

  /** The positions `at` of c, in order, spell d. */
  ghost predicate Embeds<V>(c: Chain<V>, d: Chain<V>, at: seq<nat>) {
    && |at| == |d|
    && (forall i :: 0 <= i < |at| ==> at[i] < |c| && d[i] == c[at[i]])
    && (forall i, j :: 0 <= i < j < |at| ==> at[i] < at[j])
  }

  lemma EmbedsTail<V>(c: Chain<V>, d: Chain<V>, at: seq<nat>)
    requires c != [] && Embeds(c[1..], d, at)
    ensures var more := seq(|at|, i requires 0 <= i < |at| => at[i] + 1);
            Embeds(c, d, more) && Embeds(c, [c[0]] + d, [0] + more)
  {
    var more := seq(|at|, i requires 0 <= i < |at| => at[i] + 1);
    forall i | 0 <= i < |at| ensures more[i] < |c| && d[i] == c[more[i]] {
      assert c[1..][at[i]] == c[at[i] + 1];
    }
    assert Embeds(c, d, more);
    var at', d' := [0] + more, [c[0]] + d;
    forall i | 0 <= i < |at'| ensures at'[i] < |c| && d'[i] == c[at'[i]] {
      assert i > 0 ==> at'[i] == more[i - 1] && d'[i] == d[i - 1];
    }
  }

  /** An entry an abort removes: its own and not committed. */
  predicate Dropped<V>(e: Entry<V>, t: TxnId) {
    e.txn == t && e.seqno == 0
  }

  /** The survivors of an abort keep their order, a strictly increasing embedding, and they
      are exactly the entries that are not dropped. */
  lemma {:induction false} DropEmbeds<V>(c: Chain<V>, t: TxnId) returns (at: seq<nat>)
    ensures Embeds(c, Drop(c, t), at)
    ensures forall i: nat :: i in at <==> i < |c| && !Dropped(c[i], t)
  {
    at := [];
    if c != [] {
      var rest := DropEmbeds(c[1..], t);
      EmbedsTail(c, Drop(c[1..], t), rest);
      var shifted := seq(|rest|, i requires 0 <= i < |rest| => rest[i] + 1);
      at := if Dropped(c[0], t) then shifted else [0] + shifted;
      forall i: nat ensures i in at <==> i < |c| && !Dropped(c[i], t) {
        ShiftedHas(rest, i);
        assert i > 0 ==> (i - 1 in rest <==> i - 1 < |c[1..]| && !Dropped(c[1..][i - 1], t));
        assert i in [0] + shifted <==> i == 0 || i in shifted;
      }
    }
  }

  lemma ShiftedHas(s: seq<nat>, i: nat)
    ensures i in seq(|s|, j requires 0 <= j < |s| => s[j] + 1) <==> i > 0 && i - 1 in s
  {
    var shifted := seq(|s|, j requires 0 <= j < |s| => s[j] + 1);
    if i > 0 && i - 1 in s {
      var j :| 0 <= j < |s| && s[j] == i - 1;
      assert shifted[j] == i;
    }
  }

  /** GC: index of the newest committed entry at or below the watermark. */
  function Cut<V>(c: Chain<V>, w: CommitSeq): (i: nat)
    ensures i <= |c|
    ensures i < |c| ==> c[i].seqno != 0 && c[i].seqno <= w
    ensures forall j :: 0 <= j < i ==> !(c[j].seqno != 0 && c[j].seqno <= w)
  {
    if c == [] || (c[0].seqno != 0 && c[0].seqno <= w) then 0
    else 1 + Cut(c[1..], w)
  }

  /** A chain whose newest entry is a tombstone at or below the watermark. */
  predicate Dead<V>(c: Chain<V>, w: CommitSeq) {
    c != [] && Cut(c, w) == 0 && c[0].version.tomb
  }

  /** What GC leaves of a chain that is not dead. */
  function Trim<V>(c: Chain<V>, w: CommitSeq): Chain<V> {
    var i := Cut(c, w);
    if i == |c| then c else c[..i + 1]
  }

  function Collect<V>(c: Chain<V>, w: CommitSeq): Chain<V> {
    if Dead(c, w) then [] else Trim(c, w)
  }

  /** An entry every reader at or above the watermark sees as committed. */
  predicate Settled<V>(e: Entry<V>, w: CommitSeq) {
    e.seqno != 0 && e.seqno <= w
  }

  /** GC keeps the front of a chain: an entry stays exactly when no settled one lies in front
      of it and the chain does not begin with a settled tombstone. */
  lemma CollectExact<V>(c: Chain<V>, w: CommitSeq, i: nat)
    requires i < |c|
    ensures Collect(c, w) <= c
    ensures i < |Collect(c, w)| <==>
      (forall j :: 0 <= j < i ==> !Settled(c[j], w)) && !(Settled(c[0], w) && c[0].version.tomb)
  {
    var cut := Cut(c, w);
    assert cut < |c| ==> Settled(c[cut], w);
    assert forall j :: 0 <= j < cut ==> !Settled(c[j], w);
  }

  /** So GC leaves at most one settled entry, the last, and what it leaves it leaves again. */
  lemma CollectDone<V>(c: Chain<V>, w: CommitSeq)
    ensures var d := Collect(c, w);
            && (forall i :: 0 <= i < |d| - 1 ==> !Settled(d[i], w))
            && Collect(d, w) == d
  {
    var d := Collect(c, w);
    forall i | 0 <= i < |d| - 1 ensures !Settled(d[i], w) {
      CollectExact(c, w, |d| - 1);
    }
    if d != [] {
      CollectExact(c, w, |d| - 1);
      CollectExact(d, w, |d| - 1);
    }
  }

  /** GC is invisible to every view at or above the watermark. */
  lemma CollectKeepsReads<V>(c: Chain<V>, w: CommitSeq, r: CommitSeq)
    requires w <= r
    ensures Read(Collect(c, w), AsOf(r)) == Read(c, AsOf(r))
    ensures Find(Collect(c, w), AsOf(r)) != Find(c, AsOf(r)) ==>
      Dead(c, w) && Find(c, AsOf(r)).Some? && Find(c, AsOf(r)).value.tomb
  {
    var i := Cut(c, w);
    if Dead(c, w) {
      FindFirst(c, AsOf(r), 0);
    } else if i < |c| {
      FindPrefix(c, AsOf(r), i + 1, i);
    }
  }
}
