/** Python's insertion-ordered `dict`, as a sequence of key/value pairs. */
module Dicts {
  import opened Wrappers

  /** The items of a dict in insertion order. */
  type Dict<K, V> = seq<(K, V)>

  /** `list(d.keys())` */
  function Keys<K, V>(d: Dict<K, V>): (ks: seq<K>)
    ensures |ks| == |d|
    ensures forall i | 0 <= i < |d| :: ks[i] == d[i].0
  {
    if d == [] then [] else [d[0].0] + Keys(d[1..])
  }

  /** No key occurs twice, which every real dict satisfies. */
  predicate DistinctKeys<K(==), V>(d: Dict<K, V>) {
    forall i, j | 0 <= i < j < |d| :: d[i].0 != d[j].0
  }

  /** `d.get(k)` */
  function Get<K(==), V>(d: Dict<K, V>, k: K): Option<V>
  {
    if d == [] then None else if d[0].0 == k then Some(d[0].1) else Get(d[1..], k)
  }

  /** `d.get(k)` finds a value exactly when `k` is a key, and then it is the value
      stored with the first occurrence of `k`. */
  lemma {:induction false} GetFirst<K, V>(d: Dict<K, V>, k: K)
    ensures Get(d, k).Some? <==> k in Keys(d)
    ensures Get(d, k).Some? ==>
      exists i | 0 <= i < |d| :: d[i].0 == k && Get(d, k).value == d[i].1
        && forall j | 0 <= j < i :: d[j].0 != k
  {
    if d != [] {
      GetFirst(d[1..], k);
      if d[0].0 != k && Get(d, k).Some? {
        var i :| 0 <= i < |d[1..]| && d[1..][i].0 == k && Get(d[1..], k).value == d[1..][i].1
          && forall j | 0 <= j < i :: d[1..][j].0 != k;
        assert forall j | 0 <= j < i + 1 :: d[j].0 != k by {
          forall j | 0 <= j < i + 1 ensures d[j].0 != k {
            if j > 0 { assert d[j] == d[1..][j - 1]; }
          }
        }
        assert d[i + 1].0 == k && Get(d, k).value == d[i + 1].1;
      } else if d[0].0 == k {
        assert d[0].0 == k && Get(d, k).value == d[0].1;
      }
    }
  }

  /** `d[k] = v`: an existing key keeps its position and takes the new value,
      a new key is appended. */
  function Insert<K(==), V>(d: Dict<K, V>, k: K, v: V): Dict<K, V>
  {
    if d == [] then [(k, v)]
    else if d[0].0 == k then [(k, v)] + d[1..]
    else [d[0]] + Insert(d[1..], k, v)
  }

  /** After `d[k] = v`, `k` maps to `v` and every other key keeps its value. */
  lemma {:induction false} InsertGet<K, V>(d: Dict<K, V>, k: K, v: V, k': K)
    ensures Get(Insert(d, k, v), k') == if k' == k then Some(v) else Get(d, k')
  {
    if d != [] && d[0].0 != k {
      InsertGet(d[1..], k, v, k');
      assert Insert(d, k, v)[1..] == Insert(d[1..], k, v);
    } else if d != [] {
      assert Insert(d, k, v)[1..] == d[1..];
    }
  }

  /** `d[k] = v` leaves the key order alone, or appends `k` when it is new. */
  lemma {:induction false} InsertKeys<K, V>(d: Dict<K, V>, k: K, v: V)
    ensures Keys(Insert(d, k, v)) == if k in Keys(d) then Keys(d) else Keys(d) + [k]
  {
    if d != [] && d[0].0 != k {
      InsertKeys(d[1..], k, v);
      assert Keys(d) == [d[0].0] + Keys(d[1..]);
      assert k in Keys(d) <==> k in Keys(d[1..]);
      assert Insert(d, k, v) == [d[0]] + Insert(d[1..], k, v);
      assert Keys([d[0]] + Insert(d[1..], k, v)) == [d[0].0] + Keys(Insert(d[1..], k, v)) by {
        assert ([d[0]] + Insert(d[1..], k, v))[1..] == Insert(d[1..], k, v);
      }
    } else if d != [] {
      assert ([(k, v)] + d[1..])[1..] == d[1..];
      assert Keys(d) == [d[0].0] + Keys(d[1..]);
    }
  }

  /** `d[k] = v` keeps the keys distinct. */
  lemma InsertDistinct<K, V>(d: Dict<K, V>, k: K, v: V)
    requires DistinctKeys(d)
    ensures DistinctKeys(Insert(d, k, v))
  {
    InsertKeys(d, k, v);
    var e := Insert(d, k, v);
    forall i, j | 0 <= i < j < |e| ensures e[i].0 != e[j].0 {
      assert Keys(e)[i] == e[i].0 && Keys(e)[j] == e[j].0;
      if k !in Keys(d) && j == |d| {
        assert Keys(d)[i] == Keys(e)[i];
      } else {
        assert Keys(d)[i] == d[i].0 && Keys(d)[j] == d[j].0;
      }
    }
  }

  /** `d.update(pairs)`, or the successive items of a dict literal. */
  function InsertAll<K(==), V>(d: Dict<K, V>, pairs: seq<(K, V)>): Dict<K, V>
    decreases |pairs|
  {
    if pairs == [] then d else InsertAll(Insert(d, pairs[0].0, pairs[0].1), pairs[1..])
  }

  /** The dict a literal `{k1: v1, k2: v2, ...}` builds. */
  function FromLiteral<K(==), V>(pairs: seq<(K, V)>): Dict<K, V>
  {
    InsertAll([], pairs)
  }

  /** The value of the last pair whose key is `k`. */
  function LastValue<K(==), V>(pairs: seq<(K, V)>, k: K): Option<V>
  {
    if pairs == [] then None
    else if pairs[|pairs| - 1].0 == k then Some(pairs[|pairs| - 1].1)
    else LastValue(pairs[..|pairs| - 1], k)
  }

  /** `ks` without repetitions and without the keys already in `seen`, each key
      at its first occurrence. */
  function NewKeys<K(==)>(seen: seq<K>, ks: seq<K>): seq<K>
    decreases |ks|
  {
    if ks == [] then []
    else if ks[0] in seen then NewKeys(seen, ks[1..])
    else [ks[0]] + NewKeys(seen + [ks[0]], ks[1..])
  }

  /** A pair at the front of an update wins unless a later pair overrides it. */
  lemma LastValueCons<K, V>(p: (K, V), rest: seq<(K, V)>, k: K)
    ensures LastValue([p] + rest, k) ==
      if LastValue(rest, k).Some? then LastValue(rest, k)
      else if p.0 == k then Some(p.1) else None
    decreases |rest|
  {
    if rest != [] {
      var q := [p] + rest;
      assert q[..|q| - 1] == [p] + rest[..|rest| - 1];
      LastValueCons(p, rest[..|rest| - 1], k);
    } else {
      assert ([p] + rest)[..0] == [];
    }
  }

  /** After `d.update(pairs)` a key holds the value of its last pair, or its old
      value when no pair names it. */
  lemma {:induction false} InsertAllGet<K, V>(d: Dict<K, V>, pairs: seq<(K, V)>, k: K)
    ensures Get(InsertAll(d, pairs), k) ==
      if LastValue(pairs, k).Some? then LastValue(pairs, k) else Get(d, k)
    decreases |pairs|
  {
    if pairs != [] {
      InsertAllGet(Insert(d, pairs[0].0, pairs[0].1), pairs[1..], k);
      InsertGet(d, pairs[0].0, pairs[0].1, k);
      LastValueCons(pairs[0], pairs[1..], k);
      assert [pairs[0]] + pairs[1..] == pairs;
    }
  }

  /** After `d.update(pairs)` the old keys keep their order and the new ones
      follow in order of first appearance. */
  lemma {:induction false} InsertAllKeys<K, V>(d: Dict<K, V>, pairs: seq<(K, V)>)
    ensures Keys(InsertAll(d, pairs)) == Keys(d) + NewKeys(Keys(d), Keys(pairs))
    decreases |pairs|
  {
    if pairs == [] {
      assert Keys(d) + [] == Keys(d);
    } else {
      var k := pairs[0].0;
      var d' := Insert(d, k, pairs[0].1);
      InsertAllKeys(d', pairs[1..]);
      InsertKeys(d, k, pairs[0].1);
      KeysTail(pairs);
      var later := Keys(pairs[1..]);
      if k in Keys(d) {
        assert NewKeys(Keys(d), Keys(pairs)) == NewKeys(Keys(d), later);
      } else {
        assert NewKeys(Keys(d), Keys(pairs)) == [k] + NewKeys(Keys(d) + [k], later);
        SeqAssoc(Keys(d), [k], NewKeys(Keys(d) + [k], later));
      }
    }
  }

  /** The keys after the first pair are the keys of the later pairs. */
  lemma KeysTail<K, V>(pairs: seq<(K, V)>)
    requires pairs != []
    ensures Keys(pairs)[0] == pairs[0].0 && Keys(pairs)[1..] == Keys(pairs[1..])
  {
  }

  lemma SeqAssoc<T>(a: seq<T>, b: seq<T>, c: seq<T>)
    ensures a + b + c == a + (b + c)
  {
  }

  /** `d.update(pairs)` keeps the keys distinct. */
  lemma {:induction false} InsertAllDistinct<K, V>(d: Dict<K, V>, pairs: seq<(K, V)>)
    requires DistinctKeys(d)
    ensures DistinctKeys(InsertAll(d, pairs))
    decreases |pairs|
  {
    if pairs != [] {
      InsertDistinct(d, pairs[0].0, pairs[0].1);
      InsertAllDistinct(Insert(d, pairs[0].0, pairs[0].1), pairs[1..]);
    }
  }

  /** A dict literal: distinct keys in order of first appearance, each holding the
      value written last for it. */
  lemma Literal<K, V>(pairs: seq<(K, V)>, k: K)
    ensures DistinctKeys(FromLiteral(pairs))
    ensures Keys(FromLiteral(pairs)) == NewKeys([], Keys(pairs))
    ensures Get(FromLiteral(pairs), k) == LastValue(pairs, k)
  {
    InsertAllDistinct([], pairs);
    InsertAllKeys([], pairs);
    InsertAllGet([], pairs, k);
    assert Keys<K, V>([]) + NewKeys([], Keys(pairs)) == NewKeys([], Keys(pairs));
  }

  /** Applying the pairs of `a + b` is applying those of `a`, then those of `b`. */
  lemma {:induction false} InsertAllAppend<K, V>(d: Dict<K, V>, a: seq<(K, V)>, b: seq<(K, V)>)
    ensures InsertAll(d, a + b) == InsertAll(InsertAll(d, a), b)
    decreases |a|
  {
    if a == [] {
      assert a + b == b;
    } else {
      assert (a + b)[0] == a[0] && (a + b)[1..] == a[1..] + b;
      InsertAllAppend(Insert(d, a[0].0, a[0].1), a[1..], b);
    }
  }

  /** Assigning a key twice is assigning it the second value. */
  lemma {:induction false} InsertTwice<K, V>(d: Dict<K, V>, k: K, v1: V, v2: V)
    ensures Insert(Insert(d, k, v1), k, v2) == Insert(d, k, v2)
  {
    if d != [] && d[0].0 != k {
      InsertTwice(d[1..], k, v1, v2);
      assert Insert(d, k, v1)[1..] == Insert(d[1..], k, v1);
    }
  }

  /** A key written twice in a row in a literal acts as one entry, at the position
      of the first, holding the value of the second. */
  lemma LiteralRepeat<K, V>(p: seq<(K, V)>, k: K, v1: V, v2: V, q: seq<(K, V)>)
    ensures FromLiteral(p + [(k, v1), (k, v2)] + q) == FromLiteral(p + [(k, v2)] + q)
  {
    var d := InsertAll([], p);
    InsertAllAppend([], p, [(k, v1), (k, v2)] + q);
    InsertAllAppend([], p, [(k, v2)] + q);
    assert p + [(k, v1), (k, v2)] + q == p + ([(k, v1), (k, v2)] + q);
    assert p + [(k, v2)] + q == p + ([(k, v2)] + q);
    assert ([(k, v1), (k, v2)] + q)[1..] == [(k, v2)] + q;
    assert ([(k, v2)] + q)[1..] == q;
    InsertTwice(d, k, v1, v2);
  }

  /** Looking up in a dict with one more pair at the end finds the old value, or
      else the new pair's. */
  lemma {:induction false} GetSnoc<K, V>(d: Dict<K, V>, p: (K, V), k: K)
    ensures Get(d + [p], k) == if Get(d, k).Some? then Get(d, k) else if p.0 == k then Some(p.1) else None
  {
    if d == [] {
      assert d + [p] == [p];
    } else {
      assert (d + [p])[1..] == d[1..] + [p];
      GetSnoc(d[1..], p, k);
    }
  }

  /** With distinct keys the last pair for a key is also the first: the value
      written last is the value `d.get(k)` finds. */
  lemma {:induction false} LastValueDistinct<K, V>(pairs: seq<(K, V)>, k: K)
    requires DistinctKeys(pairs)
    ensures LastValue(pairs, k) == Get(pairs, k)
    decreases |pairs|
  {
    if pairs != [] {
      var init, last := pairs[..|pairs| - 1], pairs[|pairs| - 1];
      assert pairs == init + [last];
      LastValueDistinct(init, k);
      GetSnoc(init, last, k);
      GetFirst(init, k);
    }
  }

  /** Every new key comes from the list it was taken from. */
  lemma {:induction false} NewKeysFrom<K>(seen: seq<K>, ks: seq<K>, k: K)
    ensures k in NewKeys(seen, ks) ==> k in ks
    decreases |ks|
  {
    if ks != [] {
      NewKeysFrom(seen, ks[1..], k);
      NewKeysFrom(seen + [ks[0]], ks[1..], k);
      assert forall x | x in ks[1..] :: x in ks;
    }
  }
}
