/**
 * An insertion-ordered mapping (Python's `collections.OrderedDict`), kept as a
 * sequence of (key, value) pairs.  Assigning to an existing key replaces its
 * value in place; assigning to a new key appends it at the end.
 */
module OrderedMap {
  import opened Wrappers

  type Pairs<K, V> = seq<(K, V)>

  /** Some pair of `m` has key `k`. */
  predicate HasKey<K(==), V>(m: Pairs<K, V>, k: K)
  {
    exists i :: 0 <= i < |m| && m[i].0 == k
  }

  /** No key occurs twice: the invariant of an `OrderedDict`. */
  predicate UniqueKeys<K(==), V>(m: Pairs<K, V>)
  {
    forall i, j :: 0 <= i < j < |m| ==> m[i].0 != m[j].0
  }

  /** The position of the first pair whose key is `k`. */
  function FirstIndex<K(==), V>(m: Pairs<K, V>, k: K): (i: nat)
    requires HasKey(m, k)
    ensures i < |m| && m[i].0 == k
    ensures forall j :: 0 <= j < i ==> m[j].0 != k
  {
    if m[0].0 == k then 0
    else
      assert HasKey(m[1..], k) by {
        var i :| 0 <= i < |m| && m[i].0 == k;
        assert m[1..][i - 1].0 == k;
      }
      1 + FirstIndex(m[1..], k)
  }

  /** `OrderedDict.get`: the value stored under `k`, if any. */
  function Get<K(==), V>(m: Pairs<K, V>, k: K): (r: Option<V>)
    ensures r.None? <==> !HasKey(m, k)
    ensures UniqueKeys(m) ==> forall i :: 0 <= i < |m| && m[i].0 == k ==> r == Some(m[i].1)
  {
    if m == [] then None
    else if m[0].0 == k then Some(m[0].1)
    else
      var r := Get(m[1..], k);
      assert HasKey(m, k) ==> HasKey(m[1..], k) by {
        if HasKey(m, k) {
          var i :| 0 <= i < |m| && m[i].0 == k;
          assert m[1..][i - 1].0 == k;
        }
      }
      r
  }

  /**
   * `OrderedDict.__setitem__`: an existing key keeps its position and gets the
   * new value, a new key is appended last; every other pair is unchanged.
   */
  function Put<K(==), V>(m: Pairs<K, V>, k: K, v: V): (r: Pairs<K, V>)
    requires UniqueKeys(m)
    ensures UniqueKeys(r)
    ensures !HasKey(m, k) ==> r == m + [(k, v)]
    ensures HasKey(m, k) ==> |r| == |m|
    ensures HasKey(m, k) ==> forall i :: 0 <= i < |m| ==> r[i] == if m[i].0 == k then (k, v) else m[i]
  {
    if m == [] then [(k, v)]
    else if m[0].0 == k then [(k, v)] + m[1..]
    else
      var r := [m[0]] + Put(m[1..], k, v);
      assert HasKey(m, k) <==> HasKey(m[1..], k) by {
        if HasKey(m, k) {
          var i :| 0 <= i < |m| && m[i].0 == k;
          assert m[1..][i - 1].0 == k;
        }
      }
      r
  }

  /** After `Put`, `k` reads back as `v` and every other key reads as before. */
  lemma PutGet<K, V>(m: Pairs<K, V>, k: K, v: V, k': K)
    requires UniqueKeys(m)
    ensures Get(Put(m, k, v), k) == Some(v)
    ensures k' != k ==> Get(Put(m, k, v), k') == Get(m, k')
  {
    var r := Put(m, k, v);
    if HasKey(m, k) {
      var i := FirstIndex(m, k);
      assert r[i] == (k, v);
    } else {
      assert r[|m|] == (k, v);
    }
    if k' != k && HasKey(m, k') {
      var i := FirstIndex(m, k');
      assert r[i] == m[i];
    }
  }

  /**
   * `OrderedDict(pairs)`: the pairs are assigned one after the other, left to
   * right, starting from an empty map.
   */
  function FromPairs<K(==), V>(ps: Pairs<K, V>): (r: Pairs<K, V>)
    ensures UniqueKeys(r)
  {
    if ps == [] then []
    else
      var n := |ps| - 1;
      Put(FromPairs(ps[..n]), ps[n].0, ps[n].1)
  }

  /** Reference reading of a list of pairs: the value of the last pair whose key is `k`. */
  function LastValue<K(==), V>(ps: Pairs<K, V>, k: K): (r: Option<V>)
    ensures r.None? <==> !HasKey(ps, k)
  {
    if ps == [] then None
    else if ps[|ps| - 1].0 == k then Some(ps[|ps| - 1].1)
    else
      var n := |ps| - 1;
      assert HasKey(ps, k) ==> HasKey(ps[..n], k) by {
        if HasKey(ps, k) {
          var i :| 0 <= i < |ps| && ps[i].0 == k;
          assert ps[..n][i].0 == k;
        }
      }
      LastValue(ps[..n], k)
  }

  /** `LastValue` is the value of a pair with key `k` that no later pair overrides. */
  lemma {:induction false} LastValueIsLast<K, V>(ps: Pairs<K, V>, k: K)
    requires HasKey(ps, k)
    ensures exists i :: 0 <= i < |ps| && ps[i] == (k, LastValue(ps, k).value)
                        && forall j :: i < j < |ps| ==> ps[j].0 != k
  {
    var n := |ps| - 1;
    if ps[n].0 == k {
      assert ps[n] == (k, LastValue(ps, k).value);
    } else {
      var v := LastValue(ps, k).value;
      assert LastValue(ps[..n], k) == Some(v);
      LastValueIsLast(ps[..n], k);
      var i :| 0 <= i < n && ps[..n][i] == (k, v)
               && forall j :: i < j < n ==> ps[..n][j].0 != k;
      assert ps[i] == (k, v);
      forall j | i < j < |ps| ensures ps[j].0 != k {
        if j < n {
          assert ps[..n][j] == ps[j];
        }
      }
    }
  }

  /** A key repeated in the input is stored with the value of its last occurrence. */
  lemma {:induction false} FromPairsGet<K, V>(ps: Pairs<K, V>, k: K)
    ensures Get(FromPairs(ps), k) == LastValue(ps, k)
  {
    if ps != [] {
      var n := |ps| - 1;
      FromPairsGet(ps[..n], k);
      PutGet(FromPairs(ps[..n]), ps[n].0, ps[n].1, k);
    }
  }

  /** The keys of `FromPairs(ps)` are exactly the keys occurring in `ps`. */
  lemma FromPairsKeys<K, V>(ps: Pairs<K, V>, k: K)
    ensures HasKey(FromPairs(ps), k) <==> HasKey(ps, k)
  {
    FromPairsGet(ps, k);
  }

  /** Where `k` occurs in a prefix of `ps`, its first occurrence in `ps` lies in that prefix. */
  lemma FirstIndexPrefix<K, V>(ps: Pairs<K, V>, n: nat, k: K)
    requires n <= |ps|
    requires HasKey(ps[..n], k)
    ensures HasKey(ps, k) && FirstIndex(ps, k) == FirstIndex(ps[..n], k)
  {
    var i := FirstIndex(ps[..n], k);
    assert ps[i].0 == k;
    var f := FirstIndex(ps, k);
    assert !(f < i) && !(i < f);
  }

  /** A key absent from the prefix `ps[..n]` first occurs at `n`. */
  lemma FirstIndexNew<K, V>(ps: Pairs<K, V>, n: nat)
    requires n < |ps|
    requires !HasKey(ps[..n], ps[n].0)
    ensures HasKey(ps, ps[n].0) && FirstIndex(ps, ps[n].0) == n
  {
    assert ps[n].0 == ps[n].0;
    var f := FirstIndex(ps, ps[n].0);
    assert forall j :: 0 <= j < n ==> ps[..n][j].0 != ps[n].0;
  }

  /**
   * Keys keep the order of their first occurrence in the input: a key placed
   * earlier in `FromPairs(ps)` also occurs first earlier in `ps`.
   */
  lemma {:induction false} FromPairsOrder<K, V>(ps: Pairs<K, V>, i: nat, j: nat)
    requires i < j < |FromPairs(ps)|
    ensures HasKey(ps, FromPairs(ps)[i].0) && HasKey(ps, FromPairs(ps)[j].0)
    ensures FirstIndex(ps, FromPairs(ps)[i].0) < FirstIndex(ps, FromPairs(ps)[j].0)
  {
    var r := FromPairs(ps);
    var n := |ps| - 1;
    var prev := FromPairs(ps[..n]);
    var k := ps[n].0;
    var a, b := r[i].0, r[j].0;
    assert HasKey(r, a) && HasKey(r, b);
    FromPairsKeys(ps, a);
    FromPairsKeys(ps, b);
    assert r[i].0 == prev[i].0;
    assert HasKey(prev, a);
    FromPairsKeys(ps[..n], a);
    FirstIndexPrefix(ps, n, a);
    if j < |prev| {
      assert r[j].0 == prev[j].0;
      assert HasKey(prev, b);
      FromPairsKeys(ps[..n], b);
      FromPairsOrder(ps[..n], i, j);
      FirstIndexPrefix(ps, n, b);
    } else {
      assert b == k && !HasKey(prev, k);
      FromPairsKeys(ps[..n], k);
      FirstIndexNew(ps, n);
    }
  }

  /** A sequence of pairs that already has unique keys is its own `OrderedDict`. */
  lemma {:induction false} FromPairsUnique<K, V>(m: Pairs<K, V>)
    requires UniqueKeys(m)
    ensures FromPairs(m) == m
  {
    if m != [] {
      var n := |m| - 1;
      assert UniqueKeys(m[..n]);
      FromPairsUnique(m[..n]);
      assert m[..n] + [m[n]] == m;
      assert !HasKey(m[..n], m[n].0);
    }
  }

  /** The lists joined left to right, as summing them onto the empty list does. */
  function Concat<T>(lists: seq<seq<T>>): seq<T>
  {
    if lists == [] then [] else Concat(lists[..|lists| - 1]) + lists[|lists| - 1]
  }

  /** A list of mappings folded into one ordered map, left to right. */
  function Flatten<K(==), V>(items: seq<Pairs<K, V>>): (r: Pairs<K, V>)
    ensures UniqueKeys(r)
  {
    FromPairs(Concat(items))
  }

  /** The ordered map as a list of single-key mappings, in map order. */
  function Serialise<K, V>(m: Pairs<K, V>): (items: seq<Pairs<K, V>>)
  {
    seq(|m|, i requires 0 <= i < |m| => [m[i]])
  }

  lemma {:induction false} ConcatSerialise<K, V>(m: Pairs<K, V>)
    ensures Concat(Serialise(m)) == m
  {
    if m != [] {
      var n := |m| - 1;
      assert Serialise(m)[..n] == Serialise(m[..n]);
      ConcatSerialise(m[..n]);
      assert m[..n] + [m[n]] == m;
    }
  }

  /**
   * Writing an ordered map out as single-key mappings and flattening that list
   * again gives back the same map; every written item holds exactly one key.
   */
  lemma FlattenSerialise<K, V>(m: Pairs<K, V>)
    requires UniqueKeys(m)
    ensures |Serialise(m)| == |m|
    ensures forall i :: 0 <= i < |m| ==> Serialise(m)[i] == [m[i]]
    ensures Flatten(Serialise(m)) == m
  {
    ConcatSerialise(m);
    FromPairsUnique(m);
  }

  /** The first key of `OrderedDict(pairs)` is the key of the first pair. */
  lemma FirstKeyFirst<K, V>(ps: Pairs<K, V>)
    requires ps != []
    ensures FromPairs(ps) != [] && FromPairs(ps)[0].0 == ps[0].0
  {
    var r := FromPairs(ps);
    assert HasKey(ps, ps[0].0);
    FromPairsKeys(ps, ps[0].0);
    var p :| 0 <= p < |r| && r[p].0 == ps[0].0;
    if p > 0 {
      FromPairsOrder(ps, 0, p);
    }
  }
}
