/** Id-keyed collections: Python's insertion-ordered dict, and the
    insert-or-replace ("upsert") fold that both the in-memory dicts and the
    database tables follow. */
module Dicts {

  /** Writing the pairs of `kvs` into `m` one after the other: later writes
      to the same key replace earlier ones. */
  function Upserts<K, V>(m: map<K, V>, kvs: seq<(K, V)>): (r: map<K, V>)
    ensures m.Keys <= r.Keys
  {
    if kvs == [] then m
    else Upserts(m, kvs[..|kvs| - 1])[kvs[|kvs| - 1].0 := kvs[|kvs| - 1].1]
  }

  /** Writing one more pair is one more map update. */
  lemma UpsertsSnoc<K, V>(m: map<K, V>, kvs: seq<(K, V)>, k: K, v: V)
    ensures Upserts(m, kvs + [(k, v)]) == Upserts(m, kvs)[k := v]
  {
    assert (kvs + [(k, v)])[..|kvs|] == kvs;
  }

  /** `i` is the last position of `kvs` that writes key `k`. */
  ghost predicate LastWriteAt<K, V>(kvs: seq<(K, V)>, k: K, i: int) {
    0 <= i < |kvs| && kvs[i].0 == k && forall j :: i < j < |kvs| ==> kvs[j].0 != k
  }

  /** Last write wins: a key written by `kvs` holds the value of its last write;
      a key `kvs` never writes keeps its old value, or stays absent. */
  lemma {:induction false} UpsertsLastWins<K, V>(m: map<K, V>, kvs: seq<(K, V)>, k: K)
    ensures k in Upserts(m, kvs) <==> k in m || exists i :: 0 <= i < |kvs| && kvs[i].0 == k
    ensures forall i :: LastWriteAt(kvs, k, i) ==> Upserts(m, kvs)[k] == kvs[i].1
    ensures (forall i :: 0 <= i < |kvs| ==> kvs[i].0 != k) && k in m ==> Upserts(m, kvs)[k] == m[k]
    decreases |kvs|
  {
    if kvs != [] {
      var init := kvs[..|kvs| - 1];
      UpsertsLastWins(m, init, k);
      assert forall i | 0 <= i < |init| :: init[i] == kvs[i];
      if exists i :: 0 <= i < |kvs| && kvs[i].0 == k {
        var i :| 0 <= i < |kvs| && kvs[i].0 == k;
        if i < |init| {
          assert init[i].0 == k;
        }
      }
      forall i | LastWriteAt(kvs, k, i)
        ensures Upserts(m, kvs)[k] == kvs[i].1
      {
        if i < |kvs| - 1 {
          assert kvs[|kvs| - 1].0 != k;
          assert LastWriteAt(init, k, i);
        }
      }
      if forall i :: 0 <= i < |kvs| ==> kvs[i].0 != k {
        assert forall i :: 0 <= i < |init| ==> init[i].0 != k by {
          forall i | 0 <= i < |init| ensures init[i].0 != k { assert init[i] == kvs[i]; }
        }
      }
    }
  }

  /** Writing the same pairs a second time changes nothing: re-running an
      export over unchanged data leaves the tables as they were. */
  lemma UpsertsIdempotent<K, V>(m: map<K, V>, kvs: seq<(K, V)>)
    ensures Upserts(Upserts(m, kvs), kvs) == Upserts(m, kvs)
  {
    var once := Upserts(m, kvs);
    var twice := Upserts(once, kvs);
    forall k | k in twice
      ensures k in once && twice[k] == once[k]
    {
      UpsertsLastWins(m, kvs, k);
      UpsertsLastWins(once, kvs, k);
      if exists i :: 0 <= i < |kvs| && kvs[i].0 == k {
        var i := LastWrite(kvs, k);
        assert twice[k] == kvs[i].1 == once[k];
      }
    }
    forall k | k in once ensures k in twice {
      UpsertsLastWins(once, kvs, k);
    }
  }

  /** The last position that writes `k`, when there is one. */
  lemma LastWrite<K, V>(kvs: seq<(K, V)>, k: K) returns (i: int)
    requires exists i :: 0 <= i < |kvs| && kvs[i].0 == k
    ensures LastWriteAt(kvs, k, i)
  {
    i := |kvs| - 1;
    while kvs[i].0 != k
      invariant 0 <= i < |kvs|
      invariant forall j :: i < j < |kvs| ==> kvs[j].0 != k
      invariant exists j :: 0 <= j <= i && kvs[j].0 == k
      decreases i
    {
      i := i - 1;
    }
  }

  /** Upserting a concatenation is upserting its parts in turn. */
  lemma {:induction false} UpsertsAppend<K, V>(m: map<K, V>, a: seq<(K, V)>, b: seq<(K, V)>)
    ensures Upserts(m, a + b) == Upserts(Upserts(m, a), b)
    decreases |b|
  {
    if b == [] {
      assert a + b == a;
    } else {
      assert (a + b)[..|a + b| - 1] == a + b[..|b| - 1];
      UpsertsAppend(m, a, b[..|b| - 1]);
    }
  }

  /** A Python dict: its entries and the order in which its keys were first inserted. */
  datatype Dict<K, V> = Dict(order: seq<K>, entries: map<K, V>) {

    ghost predicate Valid() {
      && (forall i, j :: 0 <= i < j < |order| ==> order[i] != order[j])
      && (forall k | k in entries :: k in order)
      && (forall i | 0 <= i < |order| :: order[i] in entries)
    }

    /** `d[k] = v`: a new key goes to the end of the order, an existing key keeps its place. */
    function Put(k: K, v: V): (d: Dict<K, V>)
      ensures d.entries == entries[k := v]
      ensures Valid() ==> d.Valid()
      ensures Valid() ==> (k in entries <==> d.order == order)
      ensures k !in entries ==> d.order == order + [k]
    {
      if k in entries then Dict(order, entries[k := v]) else Dict(order + [k], entries[k := v])
    }

    /** `list(d.values())`: the values in key-insertion order. */
    function Values(): (vs: seq<V>)
      requires Valid()
      ensures |vs| == |order|
      ensures forall i :: 0 <= i < |order| ==> vs[i] == entries[order[i]]
    {
      seq(|order|, i requires 0 <= i < |order| => entries[order[i]])
    }

    /** Replaces every entry's value, keeping the keys and their order. */
    function WithEntries(m: map<K, V>): (d: Dict<K, V>)
      requires m.Keys == entries.Keys
      ensures Valid() ==> d.Valid()
    {
      Dict(order, m)
    }
  }

  function EmptyDict<K, V>(): (d: Dict<K, V>)
    ensures d.Valid() && d.entries == map[]
  {
    Dict([], map[])
  }

  /** Putting the pairs of `kvs` one after the other. */
  function PutAll<K, V>(d: Dict<K, V>, kvs: seq<(K, V)>): (r: Dict<K, V>)
    ensures r.entries == Upserts(d.entries, kvs)
    ensures d.Valid() ==> r.Valid()
  {
    if kvs == [] then d
    else PutAll(d, kvs[..|kvs| - 1]).Put(kvs[|kvs| - 1].0, kvs[|kvs| - 1].1)
  }
}
