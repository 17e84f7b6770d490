/** Python dicts with string keys, as their entries in insertion order: `d.get(k)`,
    `d[k] = v`, `del d[k]` and `len(d)`. */
module Dicts {
  import opened Wrappers

  /** A dict's entries in insertion order. */
  type Items<V> = seq<(string, V)>

  /** The keys in order. */
  function Keys<V>(d: Items<V>): (ks: seq<string>)
    ensures |ks| == |d| && forall i :: 0 <= i < |d| ==> ks[i] == d[i].0
  {
    if d == [] then [] else [d[0].0] + Keys(d[1..])
  }

  /** No key occurs twice, as in every Python dict. */
  predicate UniqueKeys<V>(d: Items<V>) {
    forall i, j :: 0 <= i < j < |d| ==> d[i].0 != d[j].0
  }

  /** `d.get(k)`: the value of the key's entry, if there is one. */
  function Get<V>(d: Items<V>, k: string): Option<V> {
    if d == [] then None
    else if d[0].0 == k then Some(d[0].1)
    else Get(d[1..], k)
  }

  /** `d[k] = v`: an existing key keeps its place, a new key goes last. */
  function Put<V>(d: Items<V>, k: string, v: V): (r: Items<V>)
    ensures |r| == if Get(d, k).Some? then |d| else |d| + 1
  {
    if d == [] then [(k, v)]
    else if d[0].0 == k then [(k, v)] + d[1..]
    else [d[0]] + Put(d[1..], k, v)
  }

  /** `del d[k]`: the entries of every other key, in their order. */
  function Remove<V>(d: Items<V>, k: string): (r: Items<V>)
    ensures |r| <= |d|
  {
    if d == [] then []
    else if d[0].0 == k then Remove(d[1..], k)
    else [d[0]] + Remove(d[1..], k)
  }

  /** A key reads as absent exactly when no entry has it. */
  lemma {:induction false} GetNone<V>(d: Items<V>, k: string)
    ensures Get(d, k).None? <==> forall i :: 0 <= i < |d| ==> d[i].0 != k
  {
    if d != [] {
      GetNone(d[1..], k);
      assert forall i :: 1 <= i < |d| ==> d[i] == d[1..][i - 1];
    }
  }

  /** In a dict, the value read under an entry's key is that entry's value. */
  lemma {:induction false} GetAt<V>(d: Items<V>, i: nat)
    requires UniqueKeys(d) && i < |d|
    ensures Get(d, d[i].0) == Some(d[i].1)
  {
    if i > 0 {
      assert d[1..][i - 1] == d[i];
      GetAt(d[1..], i - 1);
    }
  }

  /** After `d[k] = v`, `d[k]` is `v`, every other key reads as before, and the key
      order is the old one with `k` added at the end if it was new. */
  lemma {:induction false} PutGet<V>(d: Items<V>, k: string, v: V, other: string)
    ensures Get(Put(d, k, v), k) == Some(v)
    ensures other != k ==> Get(Put(d, k, v), other) == Get(d, other)
    ensures Keys(Put(d, k, v)) == if Get(d, k).Some? then Keys(d) else Keys(d) + [k]
  {
    if d != [] && d[0].0 != k {
      PutGet(d[1..], k, v, other);
    }
  }

  /** `d[k] = v` keeps the keys unique. */
  lemma PutUnique<V>(d: Items<V>, k: string, v: V)
    requires UniqueKeys(d)
    ensures UniqueKeys(Put(d, k, v))
  {
    var r := Put(d, k, v);
    PutGet(d, k, v, k);
    var ks, rs := Keys(d), Keys(r);
    if Get(d, k).None? {
      GetNone(d, k);
      assert forall i :: 0 <= i < |d| ==> rs[i] == ks[i];
    }
    assert forall i :: 0 <= i < |r| ==> r[i].0 == rs[i];
  }

  /** In a dict, `d[k] = v` for the key of entry `i` replaces that entry in place. */
  lemma {:induction false} PutAt<V>(d: Items<V>, i: nat, v: V)
    requires UniqueKeys(d) && i < |d|
    ensures Put(d, d[i].0, v) == d[i := (d[i].0, v)]
  {
    if i > 0 {
      assert d[1..][i - 1] == d[i];
      assert UniqueKeys(d[1..]);
      PutAt(d[1..], i - 1, v);
      assert d[1..][i - 1 := (d[i].0, v)] == d[i := (d[i].0, v)][1..];
    }
  }

  /** After `del d[k]`, `k` is absent and every other key reads as before. */
  lemma {:induction false} RemoveGet<V>(d: Items<V>, k: string, other: string)
    ensures Get(Remove(d, k), k).None?
    ensures other != k ==> Get(Remove(d, k), other) == Get(d, other)
  {
    if d != [] {
      RemoveGet(d[1..], k, other);
    }
  }

  /** Every entry left by `del d[k]` is an entry of `d`, in the same relative order,
      so `del` keeps the keys unique. */
  lemma {:induction false} RemoveUnique<V>(d: Items<V>, k: string)
    requires UniqueKeys(d)
    ensures UniqueKeys(Remove(d, k))
  {
    if d != [] {
      RemoveUnique(d[1..], k);
      if d[0].0 != k {
        var r := Remove(d[1..], k);
        forall i | 0 <= i < |r| ensures r[i].0 != d[0].0 {
          RemoveKeeps(d[1..], k, i);
        }
      }
    }
  }

  /** Each entry left by `del d[k]` comes from `d`. */
  lemma {:induction false} RemoveKeeps<V>(d: Items<V>, k: string, i: nat)
    requires i < |Remove(d, k)|
    ensures exists j :: 0 <= j < |d| && d[j] == Remove(d, k)[i]
  {
    if d[0].0 == k {
      RemoveKeeps(d[1..], k, i);
      var j :| 0 <= j < |d| - 1 && d[1..][j] == Remove(d[1..], k)[i];
      assert d[j + 1] == d[1..][j];
    } else if i > 0 {
      RemoveKeeps(d[1..], k, i - 1);
      var j :| 0 <= j < |d| - 1 && d[1..][j] == Remove(d[1..], k)[i - 1];
      assert d[j + 1] == d[1..][j];
    } else {
      assert d[0] == Remove(d, k)[0];
    }
  }

  /** Every value of the dict satisfies `p`. */
  predicate AllValues<V>(d: Items<V>, p: V -> bool) {
    forall i :: 0 <= i < |d| ==> p(d[i].1)
  }

  /** A value read from a dict is one of its values. */
  lemma {:induction false} GetAll<V>(d: Items<V>, k: string, p: V -> bool)
    requires AllValues(d, p) && Get(d, k).Some?
    ensures p(Get(d, k).value)
  {
    if d[0].0 != k {
      assert AllValues(d[1..], p) by {
        forall i | 0 <= i < |d| - 1 ensures p(d[1..][i].1) {
          assert d[1..][i] == d[i + 1];
        }
      }
      GetAll(d[1..], k, p);
    }
  }

  /** `d[k] = v` with a value satisfying `p` keeps every value satisfying `p`. */
  lemma {:induction false} PutAll<V>(d: Items<V>, k: string, v: V, p: V -> bool)
    requires AllValues(d, p) && p(v)
    ensures AllValues(Put(d, k, v), p)
  {
    if d != [] && d[0].0 != k {
      assert AllValues(d[1..], p) by {
        forall i | 0 <= i < |d| - 1 ensures p(d[1..][i].1) {
          assert d[1..][i] == d[i + 1];
        }
      }
      PutAll(d[1..], k, v, p);
    }
  }

  /** `del d[k]` keeps every value satisfying `p`. */
  lemma {:induction false} RemoveAll<V>(d: Items<V>, k: string, p: V -> bool)
    requires AllValues(d, p)
    ensures AllValues(Remove(d, k), p)
  {
    if d != [] {
      assert AllValues(d[1..], p) by {
        forall i | 0 <= i < |d| - 1 ensures p(d[1..][i].1) {
          assert d[1..][i] == d[i + 1];
        }
      }
      RemoveAll(d[1..], k, p);
    }
  }

  /** Reading a key from a dict with one more entry at the end. */
  lemma {:induction false} GetSnoc<V>(d: Items<V>, e: (string, V), k: string)
    ensures Get(d + [e], k) == if Get(d, k).Some? then Get(d, k) else if e.0 == k then Some(e.1) else None
  {
    if d == [] {
      assert d + [e] == [e];
    } else {
      assert (d + [e])[0] == d[0] && (d + [e])[1..] == d[1..] + [e];
      GetSnoc(d[1..], e, k);
    }
  }

  /** `for k in ks: del d[k]`. */
  function RemoveKeys<V>(d: Items<V>, ks: seq<string>): Items<V>
    decreases |ks|
  {
    if ks == [] then d else Remove(RemoveKeys(d, ks[..|ks| - 1]), ks[|ks| - 1])
  }

  /** After deleting the keys `ks`, exactly those keys read as absent and every other
      key reads as before; the keys stay unique and the values keep `p`. */
  lemma {:induction false} RemoveKeysGet<V>(d: Items<V>, ks: seq<string>, k: string, p: V -> bool)
    ensures Get(RemoveKeys(d, ks), k) == if k in ks then None else Get(d, k)
    ensures UniqueKeys(d) ==> UniqueKeys(RemoveKeys(d, ks))
    ensures AllValues(d, p) ==> AllValues(RemoveKeys(d, ks), p)
    decreases |ks|
  {
    if ks != [] {
      var front := ks[..|ks| - 1];
      RemoveKeysGet(d, front, k, p);
      RemoveGet(RemoveKeys(d, front), ks[|ks| - 1], k);
      assert ks == front + [ks[|ks| - 1]];
      if UniqueKeys(d) {
        RemoveUnique(RemoveKeys(d, front), ks[|ks| - 1]);
      }
      if AllValues(d, p) {
        RemoveAll(RemoveKeys(d, front), ks[|ks| - 1], p);
      }
    }
  }
}
