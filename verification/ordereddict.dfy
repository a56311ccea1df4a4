/** Python's insertion-ordered dict, as used for the `controls` map of the
    control-map builder: a sequence of key/value pairs in which a store to
    an existing key replaces its value in place and a store to a new key
    appends it. */
module OrderedDict {
  import opened Wrappers

  type Dict<K, V> = seq<(K, V)>

  /** The keys in insertion order */
  function Keys<K(==), V>(d: Dict<K, V>): (r: seq<K>)
    ensures |r| == |d|
    ensures forall i :: 0 <= i < |d| ==> r[i] == d[i].0
  {
    seq(|d|, i requires 0 <= i < |d| => d[i].0)
  }

  /** No key occurs twice */
  predicate UniqueKeys<K(==), V>(d: Dict<K, V>) {
    forall i, j :: 0 <= i < j < |d| ==> d[i].0 != d[j].0
  }

  /** `d.get(k)`: the value stored for k, if any */
  function Get<K(==), V>(d: Dict<K, V>, k: K): (r: Option<V>)
    ensures r.None? <==> k !in Keys(d)
  {
    if d == [] then None
    else if d[0].0 == k then Some(d[0].1)
    else Get(d[1..], k)
  }

  /** `d[k] = v` */
  function Put<K(==), V>(d: Dict<K, V>, k: K, v: V): Dict<K, V> {
    if d == [] then [(k, v)]
    else if d[0].0 == k then [(k, v)] + d[1..]
    else [d[0]] + Put(d[1..], k, v)
  }

  /** The stores of kvs, in order */
  function PutAll<K(==), V>(d: Dict<K, V>, kvs: seq<(K, V)>): Dict<K, V>
    decreases |kvs|
  {
    if kvs == [] then d else PutAll(Put(d, kvs[0].0, kvs[0].1), kvs[1..])
  }

  /** A store keeps the order of the keys, appending a key that is new */
  lemma {:induction false} PutKeys<K, V>(d: Dict<K, V>, k: K, v: V)
    ensures Keys(Put(d, k, v)) == if k in Keys(d) then Keys(d) else Keys(d) + [k]
    decreases |d|
  {
    if d != [] && d[0].0 != k {
      var t := Put(d[1..], k, v);
      PutKeys(d[1..], k, v);
      assert Put(d, k, v) == [d[0]] + t;
      KeysCons(d[0], t);
      assert d == [d[0]] + d[1..];
      KeysCons(d[0], d[1..]);
      assert k in Keys(d) <==> k in Keys(d[1..]);
      if k !in Keys(d) {
        SeqAssoc([d[0].0], Keys(d[1..]), [k]);
      }
    }
  }

  /** The keys of a dict with one more pair in front */
  lemma KeysCons<K, V>(x: (K, V), d: Dict<K, V>)
    ensures Keys([x] + d) == [x.0] + Keys(d)
  {
  }

  lemma SeqAssoc<T>(a: seq<T>, b: seq<T>, c: seq<T>)
    ensures (a + b) + c == a + (b + c)
  {
  }

  /** After a store, k maps to the stored value and every other key to
      what it mapped to before. */
  lemma {:induction false} GetPut<K, V>(d: Dict<K, V>, k: K, v: V, k': K)
    ensures Get(Put(d, k, v), k') == if k' == k then Some(v) else Get(d, k')
    decreases |d|
  {
    if d != [] && d[0].0 != k {
      GetPut(d[1..], k, v, k');
      assert Put(d, k, v)[1..] == Put(d[1..], k, v);
    } else if d != [] {
      assert Put(d, k, v)[1..] == d[1..];
    }
  }

  /** A store never introduces a duplicate key */
  lemma PutUnique<K, V>(d: Dict<K, V>, k: K, v: V)
    requires UniqueKeys(d)
    ensures UniqueKeys(Put(d, k, v))
  {
    var r := Put(d, k, v);
    PutKeys(d, k, v);
    forall i, j | 0 <= i < j < |r|
      ensures r[i].0 != r[j].0
    {
      assert Keys(r)[i] == r[i].0 && Keys(r)[j] == r[j].0;
    }
  }

  /** In a dict without duplicate keys the value of the key at position i
      is the one stored there */
  lemma {:induction false} GetAt<K, V>(d: Dict<K, V>, i: nat)
    requires UniqueKeys(d) && i < |d|
    ensures Get(d, d[i].0) == Some(d[i].1)
    decreases i
  {
    if i > 0 {
      assert d[0].0 != d[i].0;
      GetAt(d[1..], i - 1);
    }
  }

  /** Storing the value a key already has changes nothing */
  lemma {:induction false} PutSame<K, V>(d: Dict<K, V>, k: K, v: V)
    requires UniqueKeys(d) && Get(d, k) == Some(v)
    ensures Put(d, k, v) == d
    decreases |d|
  {
    if d[0].0 != k {
      PutSame(d[1..], k, v);
    } else {
      assert d == [(k, v)] + d[1..];
    }
  }

  /** Storing a new key appends the pair at the end */
  lemma {:induction false} PutFresh<K, V>(d: Dict<K, V>, k: K, v: V)
    requires k !in Keys(d)
    ensures Put(d, k, v) == d + [(k, v)]
    decreases |d|
  {
    if d != [] {
      assert d[0].0 == Keys(d)[0];
      assert Keys(d[1..]) == Keys(d)[1..];
      PutFresh(d[1..], k, v);
      assert d == [d[0]] + d[1..];
    }
  }

  /** Stores of keys that are all new, and distinct, append in order */
  lemma {:induction false} PutAllFresh<K, V>(d: Dict<K, V>, kvs: seq<(K, V)>)
    requires UniqueKeys(d + kvs)
    ensures PutAll(d, kvs) == d + kvs
    decreases |kvs|
  {
    if kvs != [] {
      var k, v := kvs[0].0, kvs[0].1;
      assert k !in Keys(d) by {
        forall i | 0 <= i < |d|
          ensures Keys(d)[i] != k
        {
          assert (d + kvs)[i].0 != (d + kvs)[|d|].0;
        }
      }
      PutFresh(d, k, v);
      assert d + kvs == (d + [(k, v)]) + kvs[1..];
      PutAllFresh(d + [(k, v)], kvs[1..]);
    }
  }

  /** Stores that repeat values the dict already holds change nothing */
  lemma {:induction false} PutAllSame<K, V>(d: Dict<K, V>, kvs: seq<(K, V)>)
    requires UniqueKeys(d)
    requires forall i :: 0 <= i < |kvs| ==> Get(d, kvs[i].0) == Some(kvs[i].1)
    ensures PutAll(d, kvs) == d
    decreases |kvs|
  {
    if kvs != [] {
      PutSame(d, kvs[0].0, kvs[0].1);
      assert forall i :: 0 <= i < |kvs[1..]| ==> kvs[1..][i] == kvs[i + 1];
      PutAllSame(d, kvs[1..]);
    }
  }

  /** Storing a + b is storing a, then b */
  lemma {:induction false} PutAllAppend<K, V>(d: Dict<K, V>, a: seq<(K, V)>, b: seq<(K, V)>)
    ensures PutAll(d, a + b) == PutAll(PutAll(d, a), b)
    decreases |a|
  {
    if a != [] {
      assert (a + b)[0] == a[0];
      assert (a + b)[1..] == a[1..] + b;
      PutAllAppend(Put(d, a[0].0, a[0].1), a[1..], b);
    } else {
      assert a + b == b;
    }
  }
}
