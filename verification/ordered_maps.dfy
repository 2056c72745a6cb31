/** Insertion-ordered dictionaries with the semantics of Python's `dict`:
    assigning to a new key appends it, assigning to a present key replaces its
    value where it stands. The converters' output records are built this way. */
module OrderedMaps {
  import opened Wrappers

  /** The key/value pairs of a dictionary in iteration order. */
  type Assoc<K, V> = seq<(K, V)>

  function Keys<K, V>(m: Assoc<K, V>): (ks: seq<K>)
    ensures |ks| == |m|
    ensures forall i :: 0 <= i < |m| ==> ks[i] == m[i].0
  {
    if |m| == 0 then [] else [m[0].0] + Keys(m[1..])
  }

  /** `k in m`. */
  predicate HasKey<K(==), V>(m: Assoc<K, V>, k: K) {
    exists i :: 0 <= i < |m| && m[i].0 == k
  }

  /** No key occurs twice, which every dictionary guarantees. */
  predicate DistinctKeys<K(==), V>(m: Assoc<K, V>) {
    forall i, j :: 0 <= i < j < |m| ==> m[i].0 != m[j].0
  }

  predicate Distinct<T(==)>(s: seq<T>) {
    forall i, j :: 0 <= i < j < |s| ==> s[i] != s[j]
  }

  lemma HasKeyCons<K, V>(m: Assoc<K, V>, k: K)
    requires |m| > 0
    ensures HasKey(m, k) <==> m[0].0 == k || HasKey(m[1..], k)
  {
    if HasKey(m[1..], k) {
      var i :| 0 <= i < |m| - 1 && m[1..][i].0 == k;
      assert m[i + 1].0 == k;
    }
  }

  lemma HasKeyInit<K, V>(m: Assoc<K, V>, k: K)
    requires |m| > 0
    ensures HasKey(m, k) <==> HasKey(m[..|m| - 1], k) || m[|m| - 1].0 == k
  {
    if HasKey(m, k) && m[|m| - 1].0 != k {
      var i :| 0 <= i < |m| && m[i].0 == k;
      assert m[..|m| - 1][i] == m[i];
    }
    if HasKey(m[..|m| - 1], k) {
      var i :| 0 <= i < |m| - 1 && m[..|m| - 1][i].0 == k;
      assert m[i] == m[..|m| - 1][i];
    }
  }

  /** `m.get(k)`: the value stored under `k`, if any. */
  function Get<K(==), V>(m: Assoc<K, V>, k: K): (r: Option<V>)
    ensures r.Some? <==> HasKey(m, k)
    ensures DistinctKeys(m) ==> forall i :: 0 <= i < |m| && m[i].0 == k ==> r == Some(m[i].1)
  {
    if |m| == 0 then None
    else
      HasKeyCons(m, k);
      if m[0].0 == k then Some(m[0].1) else Get(m[1..], k)
  }

  /** `m[k] = v`. */
  function Put<K(==), V>(m: Assoc<K, V>, k: K, v: V): (r: Assoc<K, V>)
    ensures Get(r, k) == Some(v)
    ensures !HasKey(m, k) ==> r == m + [(k, v)]
  {
    if |m| == 0 then [(k, v)]
    else if m[0].0 == k then
      [(k, v)] + m[1..]
    else
      var rest := Put(m[1..], k, v);
      HasKeyCons(m, k);
      assert [m[0]] + (m[1..] + [(k, v)]) == m + [(k, v)];
      [m[0]] + rest
  }

  /** Assignment leaves the other keys' values alone. */
  lemma {:induction false} PutOther<K, V>(m: Assoc<K, V>, k: K, v: V, other: K)
    requires other != k
    ensures Get(Put(m, k, v), other) == Get(m, other)
  {
    if |m| > 0 && m[0].0 != k {
      PutOther(m[1..], k, v, other);
    }
  }

  /** Assigning to a present key keeps every key where it stands. */
  lemma {:induction false} PutKeys<K, V>(m: Assoc<K, V>, k: K, v: V)
    requires HasKey(m, k)
    ensures Keys(Put(m, k, v)) == Keys(m)
  {
    if |m| > 0 && m[0].0 != k {
      HasKeyCons(m, k);
      PutKeys(m[1..], k, v);
      assert Keys(m) == [m[0].0] + Keys(m[1..]);
      assert Keys(Put(m, k, v)) == [m[0].0] + Keys(Put(m[1..], k, v));
    }
  }

  /** Assignment keeps the keys distinct. */
  lemma {:induction false} PutDistinct<K, V>(m: Assoc<K, V>, k: K, v: V)
    requires DistinctKeys(m)
    ensures DistinctKeys(Put(m, k, v))
  {
    if |m| > 0 && m[0].0 != k {
      var tail := m[1..];
      var rest := Put(tail, k, v);
      var r := Put(m, k, v);
      assert r == [m[0]] + rest;
      assert DistinctKeys(tail) by {
        forall i, j | 0 <= i < j < |tail|
          ensures tail[i].0 != tail[j].0
        {
          assert tail[i] == m[i + 1] && tail[j] == m[j + 1];
        }
      }
      PutDistinct(tail, k, v);
      assert !HasKey(tail, m[0].0);
      assert !HasKey(rest, m[0].0) by {
        PutOther(tail, k, v, m[0].0);
      }
      forall i, j | 0 <= i < j < |r|
        ensures r[i].0 != r[j].0
      {
        if i == 0 {
          assert r[j] == rest[j - 1];
        } else {
          assert r[i] == rest[i - 1] && r[j] == rest[j - 1];
        }
      }
    }
  }

  // ---------------------------------------------------------------------------
  // building a dictionary from a sequence of assignments

  /** The dictionary that results from assigning the pairs one after the other,
      as a Python loop `for k, v in pairs: d[k] = v` does. */
  function FromPairs<K(==), V>(pairs: seq<(K, V)>): (m: Assoc<K, V>)
    ensures DistinctKeys(m)
  {
    if |pairs| == 0 then []
    else
      var last := pairs[|pairs| - 1];
      var prev := FromPairs(pairs[..|pairs| - 1]);
      PutDistinct(prev, last.0, last.1);
      Put(prev, last.0, last.1)
  }

  /** The value of the last pair with key `k`. */
  function LastValue<K(==), V>(pairs: seq<(K, V)>, k: K): Option<V> {
    if |pairs| == 0 then None
    else if pairs[|pairs| - 1].0 == k then Some(pairs[|pairs| - 1].1)
    else LastValue(pairs[..|pairs| - 1], k)
  }

  /** The elements in order of first occurrence, each once. */
  function Dedup<T(==)>(s: seq<T>): (r: seq<T>)
    ensures Distinct(r)
    ensures forall i :: 0 <= i < |r| ==> r[i] in s
  {
    if |s| == 0 then []
    else
      var prefix := Dedup(s[..|s| - 1]);
      var x := s[|s| - 1];
      assert forall i :: 0 <= i < |s| - 1 ==> s[i] == s[..|s| - 1][i];
      if x in prefix then prefix else prefix + [x]
  }

  /** Every element survives deduplication. */
  lemma {:induction false} DedupCovers<T>(s: seq<T>)
    ensures forall i :: 0 <= i < |s| ==> s[i] in Dedup(s)
  {
    if |s| > 0 {
      DedupCovers(s[..|s| - 1]);
      assert forall i :: 0 <= i < |s| - 1 ==> s[i] == s[..|s| - 1][i];
    }
  }

  /** A later assignment to a key overrides every earlier one. */
  lemma {:induction false} FromPairsGet<K, V>(pairs: seq<(K, V)>, k: K)
    ensures Get(FromPairs(pairs), k) == LastValue(pairs, k)
  {
    if |pairs| > 0 {
      var last := pairs[|pairs| - 1];
      FromPairsGet(pairs[..|pairs| - 1], k);
      if last.0 != k {
        PutOther(FromPairs(pairs[..|pairs| - 1]), last.0, last.1, k);
      }
    }
  }

  lemma HasKeyKeys<K, V>(m: Assoc<K, V>, k: K)
    ensures HasKey(m, k) <==> k in Keys(m)
  {
    if k in Keys(m) {
      var i :| 0 <= i < |m| && Keys(m)[i] == k;
    }
  }

  lemma KeysPrefix<K, V>(m: Assoc<K, V>, n: nat)
    requires n <= |m|
    ensures Keys(m[..n]) == Keys(m)[..n]
  {
  }

  lemma KeysSnoc<K, V>(m: Assoc<K, V>, kv: (K, V))
    ensures Keys(m + [kv]) == Keys(m) + [kv.0]
  {
  }

  /** Keys keep the position of their first assignment. */
  lemma {:induction false} FromPairsKeys<K, V>(pairs: seq<(K, V)>)
    ensures Keys(FromPairs(pairs)) == Dedup(Keys(pairs))
  {
    if |pairs| > 0 {
      var init := pairs[..|pairs| - 1];
      var last := pairs[|pairs| - 1];
      var prev := FromPairs(init);
      FromPairsKeys(init);
      KeysPrefix(pairs, |pairs| - 1);
      HasKeyKeys(prev, last.0);
      if HasKey(prev, last.0) {
        PutKeys(prev, last.0, last.1);
      } else {
        KeysSnoc(prev, last);
      }
    }
  }

  lemma DistinctKeysInit<K, V>(pairs: seq<(K, V)>)
    requires DistinctKeys(pairs) && |pairs| > 0
    ensures DistinctKeys(pairs[..|pairs| - 1])
    ensures !HasKey(pairs[..|pairs| - 1], pairs[|pairs| - 1].0)
  {
  }

  /** With no repeated key, the dictionary holds the pairs exactly, in order. */
  lemma {:induction false} FromPairsDistinct<K, V>(pairs: seq<(K, V)>)
    requires DistinctKeys(pairs)
    ensures FromPairs(pairs) == pairs
  {
    if |pairs| > 0 {
      var n := |pairs| - 1;
      DistinctKeysInit(pairs);
      FromPairsDistinct(pairs[..n]);
      assert FromPairs(pairs) == pairs[..n] + [pairs[n]];
      assert pairs[..n] + [pairs[n]] == pairs;
    }
  }

  /** Assigning the pairs one by one equals assigning all but the last and then the last. */
  lemma FromPairsSnoc<K, V>(pairs: seq<(K, V)>, k: K, v: V)
    ensures FromPairs(pairs + [(k, v)]) == Put(FromPairs(pairs), k, v)
  {
    assert (pairs + [(k, v)])[..|pairs|] == pairs;
  }

  /** The last pair with a given key supplies its value. */
  lemma {:induction false} LastValueAt<K, V>(pairs: seq<(K, V)>, j: nat)
    requires j < |pairs|
    requires forall l :: j < l < |pairs| ==> pairs[l].0 != pairs[j].0
    ensures LastValue(pairs, pairs[j].0) == Some(pairs[j].1)
  {
    if j < |pairs| - 1 {
      var init := pairs[..|pairs| - 1];
      assert forall l :: j < l < |init| ==> init[l] == pairs[l];
      LastValueAt(init, j);
    }
  }

  /** A key no pair carries has no value. */
  lemma {:induction false} LastValueNone<K, V>(pairs: seq<(K, V)>, k: K)
    requires forall l :: 0 <= l < |pairs| ==> pairs[l].0 != k
    ensures LastValue(pairs, k) == None
  {
    if |pairs| > 0 {
      LastValueNone(pairs[..|pairs| - 1], k);
    }
  }

  /** The last assignment to a key decides its value in the dictionary. */
  lemma FromPairsLast<K, V>(pairs: seq<(K, V)>, j: nat)
    requires j < |pairs|
    requires forall l :: j < l < |pairs| ==> pairs[l].0 != pairs[j].0
    ensures Get(FromPairs(pairs), pairs[j].0) == Some(pairs[j].1)
  {
    FromPairsGet(pairs, pairs[j].0);
    LastValueAt(pairs, j);
  }

  /** A key is in the dictionary exactly when some assignment uses it. */
  lemma FromPairsHasKey<K, V>(pairs: seq<(K, V)>, k: K)
    ensures HasKey(FromPairs(pairs), k) <==> HasKey(pairs, k)
  {
    FromPairsKeys(pairs);
    HasKeyKeys(FromPairs(pairs), k);
    HasKeyKeys(pairs, k);
    DedupCovers(Keys(pairs));
  }

  /** When every assignment to a key stores the same value, that is the value. */
  lemma {:induction false} LastValueUniform<K, V>(pairs: seq<(K, V)>, k: K, v: V)
    requires forall l :: 0 <= l < |pairs| && pairs[l].0 == k ==> pairs[l].1 == v
    ensures LastValue(pairs, k) == if HasKey(pairs, k) then Some(v) else None
  {
    if |pairs| > 0 {
      var n := |pairs| - 1;
      var init := pairs[..n];
      LastValueUniform(init, k, v);
      if pairs[n].0 != k {
        assert HasKey(pairs, k) <==> HasKey(init, k) by {
          if HasKey(pairs, k) {
            var l :| 0 <= l < |pairs| && pairs[l].0 == k;
            assert init[l] == pairs[l];
          }
          if HasKey(init, k) {
            var l :| 0 <= l < |init| && init[l].0 == k;
            assert init[l] == pairs[l];
          }
        }
      }
    }
  }

  /** The dictionary holds a key's common value exactly when some assignment uses the key. */
  lemma FromPairsUniform<K, V>(pairs: seq<(K, V)>, k: K, v: V)
    requires forall l :: 0 <= l < |pairs| && pairs[l].0 == k ==> pairs[l].1 == v
    ensures Get(FromPairs(pairs), k) == if HasKey(pairs, k) then Some(v) else None
  {
    FromPairsGet(pairs, k);
    LastValueUniform(pairs, k, v);
  }
}
