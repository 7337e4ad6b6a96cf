/** Python's `dict`: a map that remembers the order in which keys were first
    inserted. Assigning to an existing key replaces its value in place; a new
    key goes to the end. */
module OrderedMaps {
  import opened Wrappers

  type OrderedMap<K, V> = seq<(K, V)>

  /** The keys in iteration order. */
  function Keys<K, V>(m: OrderedMap<K, V>): (ks: seq<K>)
    ensures |ks| == |m|
    ensures forall i :: 0 <= i < |m| ==> ks[i] == m[i].0
  {
    if |m| == 0 then [] else [m[0].0] + Keys(m[1..])
  }

  /** The keys of a map with one more pair at the end. */
  lemma KeysSnoc<K, V>(m: OrderedMap<K, V>, last: (K, V))
    ensures Keys(m + [last]) == Keys(m) + [last.0]
  {
    var l, r := Keys(m + [last]), Keys(m) + [last.0];
    assert |l| == |r|;
    forall i | 0 <= i < |l|
      ensures l[i] == r[i]
    {
      assert (m + [last])[i] == if i < |m| then m[i] else last;
    }
  }

  lemma InitLast<T>(s: seq<T>)
    requires |s| > 0
    ensures s == s[..|s| - 1] + [s[|s| - 1]]
  {
  }

  /** The keys of a map are those of all but its last pair, then the last
      pair's key. */
  lemma KeysOfInit<K, V>(m: OrderedMap<K, V>)
    requires |m| > 0
    ensures Keys(m) == Keys(m[..|m| - 1]) + [m[|m| - 1].0]
  {
    InitLast(m);
    KeysSnoc(m[..|m| - 1], m[|m| - 1]);
  }

  /** `d.get(k)`. */
  function Get<K(==), V>(m: OrderedMap<K, V>, k: K): (r: Option<V>)
    ensures r.Some? <==> k in Keys(m)
  {
    if |m| == 0 then None
    else if m[0].0 == k then Some(m[0].1)
    else Get(m[1..], k)
  }

  predicate Distinct<K(==)>(ks: seq<K>) {
    forall i, j :: 0 <= i < j < |ks| ==> ks[i] != ks[j]
  }

  /** `d[k] = v`. */
  function Put<K(==,!new), V>(m: OrderedMap<K, V>, k: K, v: V): (r: OrderedMap<K, V>)
    ensures Keys(r) == if k in Keys(m) then Keys(m) else Keys(m) + [k]
    ensures Get(r, k) == Some(v)
    ensures forall j :: j != k ==> Get(r, j) == Get(m, j)
  {
    if |m| == 0 then [(k, v)]
    else if m[0].0 == k then
      var r := [(k, v)] + m[1..];
      assert r[1..] == m[1..];
      r
    else
      var rest := Put(m[1..], k, v);
      var r := [m[0]] + rest;
      assert r[1..] == rest;
      r
  }

  /** The dict built by assigning each pair in turn, as a loop
      `for k, v in pairs: d[k] = v` does starting from `{}`. */
  function FromPairs<K(==,!new), V>(pairs: seq<(K, V)>): (r: OrderedMap<K, V>)
    ensures Distinct(Keys(r))
    ensures forall k :: k in Keys(r) <==> k in Keys(pairs)
  {
    if |pairs| == 0 then []
    else
      var init := pairs[..|pairs| - 1];
      var last := pairs[|pairs| - 1];
      var m := FromPairs(init);
      var r := Put(m, last.0, last.1);
      assert Distinct(Keys(r)) && forall k :: k in Keys(r) <==> k in Keys(pairs) by {
        KeysOfInit(pairs);
        PutKeys(m, last.0, last.1);
      }
      r
  }

  /** Assignment keeps the keys distinct and adds exactly the assigned key. */
  lemma PutKeys<K(!new), V>(m: OrderedMap<K, V>, k: K, v: V)
    requires Distinct(Keys(m))
    ensures Distinct(Keys(Put(m, k, v)))
    ensures forall j :: j in Keys(Put(m, k, v)) <==> j in Keys(m) || j == k
  {
    if k !in Keys(m) {
      DistinctSnoc(Keys(m), k);
    }
  }

  lemma DistinctSnoc<K>(ks: seq<K>, k: K)
    requires Distinct(ks) && k !in ks
    ensures Distinct(ks + [k])
  {
    var all := ks + [k];
    forall i, j | 0 <= i < j < |all|
      ensures all[i] != all[j]
    {
      assert all[i] == ks[i];
      if j < |ks| {
        assert all[j] == ks[j];
      }
    }
  }

  /** The position at which `k` first occurs in `ks`. */
  function FirstIndex<K(==)>(ks: seq<K>, k: K): (i: nat)
    requires k in ks
    ensures i < |ks| && ks[i] == k && k !in ks[..i]
  {
    if ks[0] == k then 0 else 1 + FirstIndex(ks[1..], k)
  }

  /** The value paired with the last occurrence of `k`, if any. */
  function LastValue<K(==), V>(pairs: seq<(K, V)>, k: K): Option<V>
  {
    if |pairs| == 0 then None
    else if pairs[|pairs| - 1].0 == k then Some(pairs[|pairs| - 1].1)
    else LastValue(pairs[..|pairs| - 1], k)
  }

  /** Each key of a dict built from pairs holds the value of its last
      assignment. */
  lemma {:induction false} FromPairsValues<K(!new), V>(pairs: seq<(K, V)>, k: K)
    ensures Get(FromPairs(pairs), k) == LastValue(pairs, k)
  {
    if |pairs| > 0 {
      FromPairsValues(pairs[..|pairs| - 1], k);
    }
  }

  /** `ks` lists keys of `all` in the order of their first occurrence there. */
  ghost predicate InFirstSeenOrder<K>(ks: seq<K>, all: seq<K>) {
    && (forall i :: 0 <= i < |ks| ==> ks[i] in all)
    && (forall i, j :: 0 <= i < j < |ks| ==> FirstIndex(all, ks[i]) < FirstIndex(all, ks[j]))
  }

  /** A dict built from pairs lists its keys in the order in which they were
      first seen among the pairs: a repeated key keeps its first position. */
  lemma {:induction false} FromPairsOrder<K(!new), V>(pairs: seq<(K, V)>)
    ensures InFirstSeenOrder(Keys(FromPairs(pairs)), Keys(pairs))
  {
    if |pairs| > 0 {
      var init := pairs[..|pairs| - 1];
      var last := pairs[|pairs| - 1];
      FromPairsOrder(init);
      var ks0 := Keys(init);
      assert Keys(pairs) == ks0 + [last.0] by {
        KeysOfInit(pairs);
      }
      var m := Keys(FromPairs(init));
      assert Keys(FromPairs(pairs)) == if last.0 in m then m else m + [last.0] by {
        assert FromPairs(pairs) == Put(FromPairs(init), last.0, last.1);
      }
      ExtendOrder(m, ks0, last.0);
    }
  }

  /** Recording one more key keeps an ordered listing ordered: a key seen
      before keeps its place, and a new one goes to the end. */
  lemma ExtendOrder<K>(m: seq<K>, all: seq<K>, k: K)
    requires InFirstSeenOrder(m, all)
    requires k in m <==> k in all
    ensures InFirstSeenOrder(if k in m then m else m + [k], all + [k])
  {
    forall x | x in all
      ensures FirstIndex(all + [k], x) == FirstIndex(all, x)
    {
      FirstIndexOfPrefix(all, [k], x);
    }
    if k in m {
      forall i, j | 0 <= i < j < |m|
        ensures FirstIndex(all + [k], m[i]) < FirstIndex(all + [k], m[j])
      {
        assert m[i] in all && m[j] in all;
      }
    } else {
      FirstIndexAfterPrefix(all, k);
      var m' := m + [k];
      forall i, j | 0 <= i < j < |m'|
        ensures FirstIndex(all + [k], m'[i]) < FirstIndex(all + [k], m'[j])
      {
        assert m'[i] == m[i] && m[i] in all;
        if j < |m| {
          assert m'[j] == m[j];
        }
      }
    }
  }

  /** Extending a sequence does not move the first occurrence of a key it
      already holds. */
  lemma {:induction false} FirstIndexOfPrefix<K>(ks: seq<K>, more: seq<K>, k: K)
    requires k in ks
    ensures FirstIndex(ks + more, k) == FirstIndex(ks, k)
  {
    if ks[0] != k {
      assert (ks + more)[1..] == ks[1..] + more;
      FirstIndexOfPrefix(ks[1..], more, k);
    }
  }

  /** A key absent from `ks` first occurs in `ks + [k]` at position `|ks|`. */
  lemma {:induction false} FirstIndexAfterPrefix<K>(ks: seq<K>, k: K)
    requires k !in ks
    ensures FirstIndex(ks + [k], k) == |ks|
  {
    if |ks| > 0 {
      assert (ks + [k])[1..] == ks[1..] + [k];
      FirstIndexAfterPrefix(ks[1..], k);
    }
  }
  /** Assigning a key the dict does not hold appends the pair. */
  lemma {:induction false} PutNew<K(!new), V>(m: OrderedMap<K, V>, k: K, v: V)
    requires k !in Keys(m)
    ensures Put(m, k, v) == m + [(k, v)]
  {
    if |m| > 0 {
      assert m[0].0 != k by {
        assert Keys(m)[0] == m[0].0;
      }
      assert k !in Keys(m[1..]) by {
        forall i | 0 <= i < |m| - 1
          ensures Keys(m[1..])[i] != k
        {
          assert Keys(m[1..])[i] == Keys(m)[i + 1];
        }
      }
      PutNew(m[1..], k, v);
      assert Put(m, k, v) == [m[0]] + (m[1..] + [(k, v)]);
      HeadTailSnoc(m, (k, v));
    }
  }

  lemma HeadTailSnoc<T>(s: seq<T>, x: T)
    requires |s| > 0
    ensures [s[0]] + (s[1..] + [x]) == s + [x]
  {
    assert s == [s[0]] + s[1..];
  }

  /** Pairs with distinct keys build the dict that lists them as given. */
  lemma {:induction false} FromPairsDistinct<K(!new), V>(pairs: seq<(K, V)>)
    requires Distinct(Keys(pairs))
    ensures FromPairs(pairs) == pairs
  {
    if |pairs| > 0 {
      var init := pairs[..|pairs| - 1];
      var last := pairs[|pairs| - 1];
      InitLast(pairs);
      KeysOfInit(pairs);
      assert Keys(init) == Keys(pairs)[..|pairs| - 1];
      FromPairsDistinct(init);
      assert last.0 !in Keys(init) by {
        forall i | 0 <= i < |init|
          ensures Keys(init)[i] != last.0
        {
          assert Keys(pairs)[i] != Keys(pairs)[|pairs| - 1];
        }
      }
      PutNew(init, last.0, last.1);
    }
  }
}
