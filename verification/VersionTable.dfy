/**
  The delta-over-base engine of mvcc/delta.go: one chain per key plus, for every
  in-flight transaction, the keys it has staged.  The specification functions act on
  the two maps as values; the class updates them in place with the source's loops.
 */
module VersionTable {
  import opened Prelude
  import opened VersionChain

  type Chains<K, +V> = map<K, Chain<V>>
  type StagedKeys<K> = map<TxnId, seq<K>>

  function ChainAt<K, V>(m: Chains<K, V>, k: K): Chain<V> {
    if k in m then m[k] else []
  }

  function KeysOf<K>(staged: StagedKeys<K>, t: TxnId): seq<K> {
    if t in staged then staged[t] else []
  }

  function StageAt<K, V>(m: Chains<K, V>, k: K, e: Entry<V>): Chains<K, V> {
    m[k := [e] + ChainAt(m, k)]
  }

  function StampKeys<K, V>(m: Chains<K, V>, keys: seq<K>, t: TxnId, n: CommitSeq): Chains<K, V> {
    map k | k in m :: if k in keys then Stamp(m[k], t, n) else m[k]
  }

  function DropKeys<K, V>(m: Chains<K, V>, keys: seq<K>, t: TxnId): Chains<K, V> {
    map k | k in m && (k in keys ==> Drop(m[k], t) != []) ::
      if k in keys then Drop(m[k], t) else m[k]
  }

  function CollectAll<K, V>(m: Chains<K, V>, w: CommitSeq): Chains<K, V> {
    map k | k in m && !Dead(m[k], w) :: Trim(m[k], w)
  }

  /** GC drops a key exactly when its chain begins with a tombstone every reader at or above
      the watermark sees, and collects every other chain. */
  lemma CollectAllExact<K, V>(m: Chains<K, V>, w: CommitSeq, k: K)
    ensures k in CollectAll(m, w) <==> k in m && !(m[k] != [] && Settled(m[k][0], w) && m[k][0].version.tomb)
    ensures k in CollectAll(m, w) ==> CollectAll(m, w)[k] == Collect(m[k], w)
  {
    if k in m && m[k] != [] {
      assert Cut(m[k], w) == 0 <==> Settled(m[k][0], w);
    }
  }

  lemma {:induction false} StampTwice<V>(c: Chain<V>, t: TxnId, n: CommitSeq)
    ensures Stamp(Stamp(c, t, n), t, n) == Stamp(c, t, n)
  {
    assert forall i :: 0 <= i < |c| ==> Stamp(Stamp(c, t, n), t, n)[i] == Stamp(c, t, n)[i];
  }

  lemma {:induction false} DropTwice<V>(c: Chain<V>, t: TxnId)
    ensures Drop(Drop(c, t), t) == Drop(c, t)
  {
    if c != [] {
      DropTwice(c[1..], t);
      if !(c[0].txn == t && c[0].seqno == 0) {
        assert Drop(c, t)[1..] == Drop(c[1..], t);
      }
    }
  }

  lemma {:induction false} DropAppend<V>(c: Chain<V>, e: Entry<V>, t: TxnId)
    ensures Drop(c + [e], t) == Drop(c, t) + (if e.txn == t && e.seqno == 0 then [] else [e])
  {
    if c == [] {
      assert c + [e] == [e];
      assert [e][1..] == [];
    } else {
      assert (c + [e])[1..] == c[1..] + [e];
      DropAppend(c[1..], e, t);
    }
  }

  /** Stamping one more staged key, which may repeat an earlier one. */
  lemma StampStep<K, V>(m: Chains<K, V>, keys: seq<K>, key: K, t: TxnId, n: CommitSeq)
    ensures var m' := StampKeys(m, keys, t, n);
            StampKeys(m, keys + [key], t, n) == if key in m then m'[key := Stamp(m'[key], t, n)] else m'
  {
    var m' := StampKeys(m, keys, t, n);
    if key in m {
      if key in keys {
        StampTwice(m[key], t, n);
      }
      var r := m'[key := Stamp(m'[key], t, n)];
      assert r.Keys == StampKeys(m, keys + [key], t, n).Keys;
    }
  }

  lemma DropStep<K, V>(m: Chains<K, V>, keys: seq<K>, key: K, t: TxnId)
    ensures var m' := DropKeys(m, keys, t);
            var out := Drop(ChainAt(m', key), t);
            DropKeys(m, keys + [key], t) == if out == [] then m' - {key} else m'[key := out]
  {
    var m' := DropKeys(m, keys, t);
    var out := Drop(ChainAt(m', key), t);
    if key in m && key in keys {
      DropTwice(m[key], t);
    }
    var r := if out == [] then m' - {key} else m'[key := out];
    assert r.Keys == DropKeys(m, keys + [key], t).Keys;
  }

  /** The in-place stamping loop over one chain. */
  method StampChain<V>(c: Chain<V>, t: TxnId, n: CommitSeq) returns (chain: Chain<V>)
    ensures chain == Stamp(c, t, n)
  {
    chain := c;
    ghost var stamped := Stamp(c, t, n);
    var i := 0;
    while i < |chain|
      invariant 0 <= i <= |chain| == |c|
      invariant forall j :: 0 <= j < i ==> chain[j] == stamped[j]
      invariant forall j :: i <= j < |chain| ==> chain[j] == c[j]
    {
      if chain[i].txn == t && chain[i].seqno == 0 {
        chain := chain[i := chain[i].(seqno := n)];
      }
      assert chain[i] == stamped[i];
      i := i + 1;
    }
    assert chain == stamped;
  }

  /** The filtering loop over one chain. */
  method DropChain<V>(chain: Chain<V>, t: TxnId) returns (out: Chain<V>)
    ensures out == Drop(chain, t)
  {
    out := [];
    var i := 0;
    while i < |chain|
      invariant 0 <= i <= |chain|
      invariant out == Drop(chain[..i], t)
    {
      var e := chain[i];
      DropAppend(chain[..i], e, t);
      assert chain[..i + 1] == chain[..i] + [e];
      if !(e.txn == t && e.seqno == 0) {
        out := out + [e];
      }
      i := i + 1;
    }
    assert chain[..|chain|] == chain;
  }

  /** The search for the newest committed entry at or below the watermark. */
  method FindCut<V>(chain: Chain<V>, watermark: CommitSeq) returns (cut: nat)
    ensures cut == Cut(chain, watermark)
  {
    cut := 0;
    while cut < |chain| && !(chain[cut].seqno != 0 && chain[cut].seqno <= watermark)
      invariant cut <= |chain|
      invariant forall j :: 0 <= j < cut ==> !(chain[j].seqno != 0 && chain[j].seqno <= watermark)
    {
      cut := cut + 1;
    }
  }

  /** What GC leaves of one chain, or that nothing is left but a settled tombstone. */
  method CollectChain<V>(chain: Chain<V>, watermark: CommitSeq) returns (gone: bool, kept: Chain<V>)
    ensures gone == Dead(chain, watermark) && (!gone ==> kept == Trim(chain, watermark))
  {
    var cut := FindCut(chain, watermark);
    if cut == |chain| {
      return false, chain;
    }
    return chain[cut].version.tomb && cut == 0, chain[..cut + 1];
  }

  /** GC part way through its pass over the keys: those in todo are untouched. */
  function CollectExcept<K, V>(m: Chains<K, V>, w: CommitSeq, todo: set<K>): Chains<K, V> {
    map k | k in m && (k in todo || !Dead(m[k], w)) :: if k in todo then m[k] else Trim(m[k], w)
  }

  lemma CollectStep<K, V>(m: Chains<K, V>, w: CommitSeq, todo: set<K>, key: K)
    requires key in todo && key in m
    ensures var m' := CollectExcept(m, w, todo);
            CollectExcept(m, w, todo - {key}) ==
              if Dead(m[key], w) then m' - {key} else m'[key := Trim(m[key], w)]
  {
    var m' := CollectExcept(m, w, todo);
    var r := if Dead(m[key], w) then m' - {key} else m'[key := Trim(m[key], w)];
    assert r.Keys == CollectExcept(m, w, todo - {key}).Keys;
  }

  class VersionTable<K(==), V> {
    var chains: Chains<K, V>
    var staged: StagedKeys<K>

    constructor ()
      ensures chains == map[] && staged == map[]
    {
      chains := map[];
      staged := map[];
    }

    method Stage(key: K, txn: TxnId, val: V, tombstone: bool)
      modifies this
      ensures chains == StageAt(old(chains), key, Entry(0, txn, Version(val, tombstone)))
      ensures staged == old(staged)[txn := KeysOf(old(staged), txn) + [key]]
    {
      chains := chains[key := [Entry(0, txn, Version(val, tombstone))] + ChainAt(chains, key)];
      staged := staged[txn := KeysOf(staged, txn) + [key]];
    }

    /** The value seen by the snapshot; absent when nothing is seen or a tombstone is. */
    method Visible(key: K, s: Snapshot) returns (r: Option<V>)
      ensures r == Read(ChainAt(chains, key), Through(s))
    {
      var chain := ChainAt(chains, key);
      var i := 0;
      while i < |chain|
        invariant 0 <= i <= |chain|
        invariant forall j :: 0 <= j < i ==> !Sees(Through(s), chain[j])
      {
        var e := chain[i];
        if s.IsVisible(e.seqno, e.txn) {
          FindFirst(chain, Through(s), i);
          if e.version.tomb {
            return None;
          }
          return Some(e.version.val);
        }
        i := i + 1;
      }
      FindNothing(chain, Through(s));
      return None;
    }

    /** The three-way answer: no delta, a tombstone, or a value. */
    method VisibleEntry(key: K, s: Snapshot) returns (r: Option<Version<V>>)
      ensures r == Find(ChainAt(chains, key), Through(s))
    {
      var chain := ChainAt(chains, key);
      var i := 0;
      while i < |chain|
        invariant 0 <= i <= |chain|
        invariant forall j :: 0 <= j < i ==> !Sees(Through(s), chain[j])
      {
        var e := chain[i];
        if s.IsVisible(e.seqno, e.txn) {
          FindFirst(chain, Through(s), i);
          return Some(e.version);
        }
        i := i + 1;
      }
      FindNothing(chain, Through(s));
      return None;
    }

    /** Stamps the transaction's entries at one key. */
    method CommitKey(key: K, txn: TxnId, n: CommitSeq)
      modifies this`chains
      ensures chains == if key in old(chains) then old(chains)[key := Stamp(old(chains)[key], txn, n)] else old(chains)
    {
      if key in chains {
        var chain := StampChain(chains[key], txn, n);
        chains := chains[key := chain];
      }
    }

    method Commit(txn: TxnId, n: CommitSeq)
      modifies this
      ensures chains == StampKeys(old(chains), KeysOf(old(staged), txn), txn, n)
      ensures staged == old(staged) - {txn}
    {
      var keys := KeysOf(staged, txn);
      var ki := 0;
      while ki < |keys|
        invariant 0 <= ki <= |keys|
        invariant chains == StampKeys(old(chains), keys[..ki], txn, n)
        invariant staged == old(staged)
      {
        StampStep(old(chains), keys[..ki], keys[ki], txn, n);
        assert keys[..ki + 1] == keys[..ki] + [keys[ki]];
        CommitKey(keys[ki], txn, n);
        ki := ki + 1;
      }
      assert keys[..|keys|] == keys;
      staged := staged - {txn};
    }

    method Abort(txn: TxnId)
      modifies this
      ensures chains == DropKeys(old(chains), KeysOf(old(staged), txn), txn)
      ensures staged == old(staged) - {txn}
    {
      var keys := KeysOf(staged, txn);
      var ki := 0;
      while ki < |keys|
        invariant 0 <= ki <= |keys|
        invariant chains == DropKeys(old(chains), keys[..ki], txn)
        invariant staged == old(staged)
      {
        var key := keys[ki];
        DropStep(old(chains), keys[..ki], key, txn);
        assert keys[..ki + 1] == keys[..ki] + [key];
        var out := DropChain(ChainAt(chains, key), txn);
        if out == [] {
          chains := chains - {key};
        } else {
          chains := chains[key := out];
        }
        ki := ki + 1;
      }
      assert keys[..|keys|] == keys;
      staged := staged - {txn};
    }

    method GC(watermark: CommitSeq)
      modifies this
      ensures chains == CollectAll(old(chains), watermark)
      ensures staged == old(staged)
    {
      var todo := chains.Keys;
      while todo != {}
        invariant todo <= old(chains).Keys
        invariant staged == old(staged)
        invariant chains == CollectExcept(old(chains), watermark, todo)
        decreases todo
      {
        var key :| key in todo;
        CollectStep(old(chains), watermark, todo, key);
        var gone, kept := CollectChain(chains[key], watermark);
        chains := if gone then chains - {key} else chains[key := kept];
        todo := todo - {key};
      }
    }

    /** The number of keys that still have a chain. */
    method Len() returns (n: nat)
      ensures n == |chains|
    {
      return |chains|;
    }
  }
}
