/**
 * Python dicts whose insertion order matters, as association lists: a key is looked up at its first
 * entry, assigning to a present key replaces that entry in place, and a new key goes at the end.
 */
module Dicts {
  import opened Common

  type Dict<K, V> = seq<(K, V)>

  /** `list(d.keys())`. */
  function Keys<K, V>(d: Dict<K, V>): (ks: seq<K>)
    ensures |ks| == |d| && forall i :: 0 <= i < |d| ==> ks[i] == d[i].0
  {
    if d == [] then [] else [d[0].0] + Keys(d[1..])
  }

  /** `list(d.values())`. */
  function Values<K, V>(d: Dict<K, V>): (vs: seq<V>)
    ensures |vs| == |d| && forall i :: 0 <= i < |d| ==> vs[i] == d[i].1
  {
    if d == [] then [] else [d[0].1] + Values(d[1..])
  }

  /** `d.get(k, default)`. */
  function Get<K(==), V>(d: Dict<K, V>, k: K, default: V): V
  {
    if d == [] then default else if d[0].0 == k then d[0].1 else Get(d[1..], k, default)
  }

  /** `d[k] = v`. */
  function Put<K(==), V>(d: Dict<K, V>, k: K, v: V): Dict<K, V>
  {
    if d == [] then [(k, v)] else if d[0].0 == k then [(k, v)] + d[1..] else [d[0]] + Put(d[1..], k, v)
  }

  /** The sum of the values of a dict of counts. */
  function Total<K>(d: Dict<K, nat>): nat
  {
    if d == [] then 0 else d[0].1 + Total(d[1..])
  }

  /** Reading back after an assignment sees the new value for that key and the old value for every other. */
  lemma {:induction false} GetPut<K, V>(d: Dict<K, V>, k: K, v: V, k': K, default: V)
    ensures Get(Put(d, k, v), k', default) == if k' == k then v else Get(d, k', default)
  {
    if d != [] && d[0].0 != k {
      GetPut(d[1..], k, v, k', default);
    }
  }

  /** A present key keeps its place; a new key is added at the end. */
  lemma {:induction false} KeysPut<K, V>(d: Dict<K, V>, k: K, v: V)
    ensures Keys(Put(d, k, v)) == if k in Keys(d) then Keys(d) else Keys(d) + [k]
  {
    if d != [] {
      KeysPut(d[1..], k, v);
      assert Keys(d) == [d[0].0] + Keys(d[1..]);
      if d[0].0 != k {
        assert k in Keys(d) <==> k in Keys(d[1..]);
      }
    }
  }

  /** A key absent from the dict reads as the default. */
  lemma {:induction false} GetAbsent<K, V>(d: Dict<K, V>, k: K, default: V)
    requires k !in Keys(d)
    ensures Get(d, k, default) == default
  {
    if d != [] {
      assert Keys(d) == [d[0].0] + Keys(d[1..]);
      GetAbsent(d[1..], k, default);
    }
  }

  /** Assigning a count changes the total by the difference from the count it replaces. */
  lemma {:induction false} TotalPut<K>(d: Dict<K, nat>, k: K, v: nat)
    ensures Total(Put(d, k, v)) + Get(d, k, 0) == Total(d) + v
  {
    if d != [] && d[0].0 != k {
      TotalPut(d[1..], k, v);
    }
  }

  /** `{k: f(k) for k in ks}`, or a loop assigning `d[k] = f(k)` to an empty dict: keys in first-occurrence order. */
  function FromKeys<K(==), V>(ks: seq<K>, f: K -> V): Dict<K, V>
  {
    if ks == [] then [] else Put(FromKeys(ks[..|ks| - 1], f), ks[|ks| - 1], f(ks[|ks| - 1]))
  }

  lemma {:induction false} KeysAppend<K, V>(a: Dict<K, V>, b: Dict<K, V>)
    ensures Keys(a + b) == Keys(a) + Keys(b)
  {
  }

  /** Every entry of a dict is where `Get` looks for its key, when the keys are distinct. */
  lemma {:induction false} GetEntry<K, V>(d: Dict<K, V>, i: nat, default: V)
    requires i < |d| && NoDuplicates(Keys(d))
    ensures Get(d, d[i].0, default) == d[i].1
  {
    if i > 0 {
      assert Keys(d)[0] != Keys(d)[i];
      assert Keys(d[1..]) == Keys(d)[1..];
      GetEntry(d[1..], i - 1, default);
    }
  }

  /** A comprehension has the distinct keys of its list in first-occurrence order, each mapped by `f`. */
  lemma FromKeysProperties<K, V>(ks: seq<K>, f: K -> V)
    ensures Keys(FromKeys(ks, f)) == Dedup(ks)
    ensures forall e :: e in FromKeys(ks, f) ==> e.1 == f(e.0)
    ensures forall k, default :: k in ks ==> Get(FromKeys(ks, f), k, default) == f(k)
  {
    FromKeysKeys(ks, f);
    FromKeysEntries(ks, f);
    forall k, default | k in ks ensures Get(FromKeys(ks, f), k, default) == f(k) {
      FromKeysGet(ks, f, k, default);
    }
  }

  lemma {:induction false} FromKeysKeys<K, V>(ks: seq<K>, f: K -> V)
    ensures Keys(FromKeys(ks, f)) == Dedup(ks)
  {
    if ks != [] {
      var init, last := ks[..|ks| - 1], ks[|ks| - 1];
      FromKeysKeys(init, f);
      KeysPut(FromKeys(init, f), last, f(last));
    }
  }

  lemma {:induction false} FromKeysEntries<K, V>(ks: seq<K>, f: K -> V)
    ensures forall e :: e in FromKeys(ks, f) ==> e.1 == f(e.0)
  {
    if ks != [] {
      var init, last := ks[..|ks| - 1], ks[|ks| - 1];
      FromKeysEntries(init, f);
      PutEntries(FromKeys(init, f), last, f(last));
    }
  }

  lemma {:induction false} FromKeysGet<K, V>(ks: seq<K>, f: K -> V, k: K, default: V)
    requires k in ks
    ensures Get(FromKeys(ks, f), k, default) == f(k)
  {
    var init, last := ks[..|ks| - 1], ks[|ks| - 1];
    GetPut(FromKeys(init, f), last, f(last), k, default);
    if k != last {
      assert ks == init + [last];
      FromKeysGet(init, f, k, default);
    }
  }

  lemma {:induction false} PutEntries<K, V>(d: Dict<K, V>, k: K, v: V)
    ensures forall e :: e in Put(d, k, v) ==> e == (k, v) || e in d
  {
    if d != [] && d[0].0 != k {
      PutEntries(d[1..], k, v);
      assert forall e :: e in d[1..] ==> e in d;
    }
  }

  /** A filter over the entries of a dict with distinct keys keeps them distinct. */
  lemma {:induction false} FilterDistinctKeys<K, V>(d: Dict<K, V>, p: ((K, V)) -> bool)
    requires NoDuplicates(Keys(d))
    ensures NoDuplicates(Keys(Filter(d, p)))
    ensures forall k :: k in Keys(Filter(d, p)) ==> k in Keys(d)
  {
    if d != [] {
      assert Keys(d[1..]) == Keys(d)[1..];
      FilterDistinctKeys(d[1..], p);
      var head: Dict<K, V> := if p(d[0]) then [d[0]] else [];
      KeysAppend(head, Filter(d[1..], p));
      assert d[0].0 !in Keys(d[1..]) by {
        assert forall j :: 1 <= j < |d| ==> Keys(d)[0] != Keys(d)[j];
      }
    }
  }

  /** A key is listed exactly when some entry carries it. */
  lemma KeysMembership<K, V>(d: Dict<K, V>, k: K)
    ensures k in Keys(d) <==> exists v :: (k, v) in d
  {
    if k in Keys(d) {
      var i :| 0 <= i < |d| && Keys(d)[i] == k;
      assert (k, d[i].1) == d[i];
    }
    if exists v :: (k, v) in d {
      var v :| (k, v) in d;
      var i :| 0 <= i < |d| && d[i] == (k, v);
      assert Keys(d)[i] == k;
    }
  }

  /** Filtering a dict's entries keeps an ordered selection of its keys. */
  lemma {:induction false} FilterKeysSubsequence<K, V>(d: Dict<K, V>, p: ((K, V)) -> bool)
    ensures IsSubsequence(Keys(Filter(d, p)), Keys(d))
  {
    if d != [] {
      FilterKeysSubsequence(d[1..], p);
      var rest := Keys(Filter(d[1..], p));
      assert Keys(d)[1..] == Keys(d[1..]);
      var head: Dict<K, V> := if p(d[0]) then [d[0]] else [];
      KeysAppend(head, Filter(d[1..], p));
      if p(d[0]) {
        assert Keys(Filter(d, p)) == [d[0].0] + rest;
        assert ([d[0].0] + rest)[1..] == rest;
      } else {
        assert Keys(Filter(d, p)) == rest;
        if rest != [] {
          assert IsSubsequence(rest, Keys(d)[1..]);
        }
      }
    }
  }
}
