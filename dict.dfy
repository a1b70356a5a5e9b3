/** A Python `dict` as the services use it: a sequence of (key, value)
    entries in insertion order. Assigning to a key that is present replaces
    its value where it stands; assigning to a new key appends it. Iteration
    (`d.items()`) walks the entries in this order. */
module Dict {
  import opened Common

  type Dict<K, V> = seq<(K, V)>

  /** No key appears twice. */
  predicate UniqueKeys<K(==), V>(d: Dict<K, V>) {
    forall i, j :: 0 <= i < j < |d| ==> d[i].0 != d[j].0
  }

  /** The keys of `d`, in iteration order. */
  function Keys<K, V>(d: Dict<K, V>): (ks: seq<K>)
    ensures |ks| == |d|
    ensures forall i :: 0 <= i < |d| ==> ks[i] == d[i].0
  {
    if |d| == 0 then [] else [d[0].0] + Keys(d[1..])
  }

  /** `d.get(k)`. */
  function Get<K(==), V>(d: Dict<K, V>, k: K): (r: Option<V>)
    ensures r.None? <==> k !in Keys(d)
    ensures r.Some? ==> exists i :: 0 <= i < |d| && d[i] == (k, r.value)
  {
    if |d| == 0 then None
    else if d[0].0 == k then Some(d[0].1)
    else
      var r := Get(d[1..], k);
      assert r.Some? ==> exists i :: 0 <= i < |d[1..]| && d[1..][i] == (k, r.value);
      r
  }

  /** `d[k] = v`. */
  function Put<K(==), V>(d: Dict<K, V>, k: K, v: V): (r: Dict<K, V>)
    ensures Keys(r) == if k in Keys(d) then Keys(d) else Keys(d) + [k]
    ensures |r| == if k in Keys(d) then |d| else |d| + 1
  {
    if |d| == 0 then [(k, v)]
    else if d[0].0 == k then [(k, v)] + d[1..]
    else
      var r := [d[0]] + Put(d[1..], k, v);
      assert Keys(d) == [d[0].0] + Keys(d[1..]);
      r
  }

  /** After `d[k] = v` the key `k` maps to `v`. */
  lemma {:induction false} GetPutSame<K, V>(d: Dict<K, V>, k: K, v: V)
    ensures Get(Put(d, k, v), k) == Some(v)
  {
    if |d| > 0 && d[0].0 != k {
      GetPutSame(d[1..], k, v);
      assert Put(d, k, v)[1..] == Put(d[1..], k, v);
    }
  }

  /** After `d[k] = v` every other key keeps its value (or its absence). */
  lemma {:induction false} GetPutOther<K, V>(d: Dict<K, V>, k: K, v: V, k': K)
    requires k' != k
    ensures Get(Put(d, k, v), k') == Get(d, k')
  {
    if |d| > 0 && d[0].0 != k {
      assert Put(d, k, v)[1..] == Put(d[1..], k, v);
      if d[0].0 != k' {
        GetPutOther(d[1..], k, v, k');
      }
    } else if |d| > 0 {
      assert Put(d, k, v)[1..] == d[1..];
    }
  }

  lemma {:induction false} UniqueKeysOfKeys<K, V>(d: Dict<K, V>, d': Dict<K, V>)
    requires Keys(d') == Keys(d) && UniqueKeys(d)
    ensures UniqueKeys(d')
  {
    forall i, j | 0 <= i < j < |d'| ensures d'[i].0 != d'[j].0 {
      assert d'[i].0 == Keys(d')[i] == Keys(d)[i] == d[i].0;
      assert d'[j].0 == Keys(d')[j] == Keys(d)[j] == d[j].0;
    }
  }

  /** `d[k] = v` keeps the keys distinct. */
  lemma PutKeepsUniqueKeys<K, V>(d: Dict<K, V>, k: K, v: V)
    requires UniqueKeys(d)
    ensures UniqueKeys(Put(d, k, v))
  {
    var r := Put(d, k, v);
    if k in Keys(d) {
      UniqueKeysOfKeys(d, r);
    } else {
      forall i, j | 0 <= i < j < |r| ensures r[i].0 != r[j].0 {
        assert r[i].0 == Keys(r)[i] && r[j].0 == Keys(r)[j];
        if j == |d| {
          assert Keys(r)[j] == k;
          assert Keys(r)[i] == Keys(d)[i];
        } else {
          assert Keys(r)[i] == Keys(d)[i] == d[i].0;
          assert Keys(r)[j] == Keys(d)[j] == d[j].0;
        }
      }
    }
  }
}
