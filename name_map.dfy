/**
 * A dictionary from names to values that is traversed in ascending name
 * order, as the checker's `std::map<string, ...>` locals are: an association
 * list kept strictly sorted by the byte-wise lexicographic order of
 * `std::string`.
 */
module NameMap {
  import opened Ast

  /** `a` sorts strictly before `b`: lexicographic, a proper prefix first. */
  predicate StrLess(a: string, b: string)
    decreases |a|
  {
    if |a| == 0 then |b| > 0
    else if |b| == 0 then false
    else if a[0] != b[0] then a[0] < b[0]
    else StrLess(a[1..], b[1..])
  }

  lemma {:induction false} StrLessIrreflexive(a: string)
    ensures !StrLess(a, a)
    decreases |a|
  {
    if |a| > 0 {
      StrLessIrreflexive(a[1..]);
    }
  }

  lemma {:induction false} StrLessTransitive(a: string, b: string, c: string)
    requires StrLess(a, b) && StrLess(b, c)
    ensures StrLess(a, c)
    decreases |a|
  {
    if |a| > 0 && a[0] == b[0] && b[0] == c[0] {
      StrLessTransitive(a[1..], b[1..], c[1..]);
    }
  }

  lemma {:induction false} StrLessTotal(a: string, b: string)
    requires a != b
    ensures StrLess(a, b) || StrLess(b, a)
    decreases |a|
  {
    if |a| > 0 && |b| > 0 && a[0] == b[0] {
      assert a == [a[0]] + a[1..] && b == [b[0]] + b[1..];
      StrLessTotal(a[1..], b[1..]);
    }
  }

  datatype Entry<V> = Entry(key: string, value: V)

  type NameMap<V> = seq<Entry<V>>

  /** Keys strictly ascending; in particular no key occurs twice. */
  predicate Sorted<V>(m: NameMap<V>)
  {
    forall i, j :: 0 <= i < j < |m| ==> StrLess(m[i].key, m[j].key)
  }

  /** Every key of `m` sorts after `k`. */
  predicate Above<V>(k: string, m: NameMap<V>)
  {
    forall i :: 0 <= i < |m| ==> StrLess(k, m[i].key)
  }

  function Keys<V>(m: NameMap<V>): set<string>
  {
    set i | 0 <= i < |m| :: m[i].key
  }

  lemma KeysCons<V>(e: Entry<V>, m: NameMap<V>)
    ensures Keys([e] + m) == {e.key} + Keys(m)
  {
    var l := [e] + m;
    forall k | k in Keys(l) ensures k in {e.key} + Keys(m) {
      var i :| 0 <= i < |l| && l[i].key == k;
      if i > 0 { assert m[i - 1].key == k; }
    }
    forall k | k in Keys(m) ensures k in Keys(l) {
      var i :| 0 <= i < |m| && m[i].key == k;
      assert l[i + 1].key == k;
    }
    assert l[0].key == e.key;
  }

  /** The value stored under `k`, if any. */
  function Get<V>(m: NameMap<V>, k: string): (r: Option<V>)
    ensures r.Some? ==> k in Keys(m)
  {
    if m == [] then None
    else if m[0].key == k then Some(m[0].value)
    else
      KeysCons(m[0], m[1..]);
      assert [m[0]] + m[1..] == m;
      Get(m[1..], k)
  }

  /** `k` is found exactly when it is a key, and then at an entry holding it. */
  lemma {:induction false} GetFound<V>(m: NameMap<V>, k: string)
    ensures Get(m, k).None? <==> k !in Keys(m)
    ensures Get(m, k).Some? ==> exists i :: 0 <= i < |m| && m[i] == Entry(k, Get(m, k).value)
  {
    if m != [] && m[0].key != k {
      GetFound(m[1..], k);
      KeysCons(m[0], m[1..]);
      assert [m[0]] + m[1..] == m;
      if Get(m, k).Some? {
        var i :| 0 <= i < |m[1..]| && m[1..][i] == Entry(k, Get(m, k).value);
        assert m[i + 1] == m[1..][i];
      }
    } else if m != [] {
      assert m[0] == Entry(k, Get(m, k).value);
    }
  }

  /** In a sorted map, each entry is what its key finds. */
  lemma {:induction false} GetAt<V>(m: NameMap<V>, i: nat)
    requires Sorted(m) && i < |m|
    ensures Get(m, m[i].key) == Some(m[i].value)
  {
    if i > 0 {
      assert StrLess(m[0].key, m[i].key);
      StrLessIrreflexive(m[i].key);
      assert m[1..][i - 1] == m[i];
      GetAt(m[1..], i - 1);
    }
  }

  /** `m[k]` on a map whose values are sequences: the stored sequence or, when absent, the empty one. */
  function GetSeq<T>(m: NameMap<seq<T>>, k: string): seq<T>
  {
    match Get(m, k)
    case Some(v) => v
    case None => []
  }

  /** Stores `v` under `k`: replaces the entry of `k` or inserts one before
      the first key that sorts after `k`. */
  function Put<V>(m: NameMap<V>, k: string, v: V): NameMap<V>
    decreases |m|
  {
    if m == [] then [Entry(k, v)]
    else if m[0].key == k then [Entry(k, v)] + m[1..]
    else if StrLess(k, m[0].key) then [Entry(k, v)] + m
    else [m[0]] + Put(m[1..], k, v)
  }

  /** Put keeps a sorted map sorted (and keeps every bound below `k` a bound). */
  lemma {:induction false} PutSorted<V>(m: NameMap<V>, k: string, v: V)
    requires Sorted(m)
    ensures Sorted(Put(m, k, v))
    ensures forall b :: StrLess(b, k) && Above(b, m) ==> Above(b, Put(m, k, v))
    decreases |m|
  {
    if m == [] {
    } else if m[0].key == k {
    } else if StrLess(k, m[0].key) {
      assert Above(k, m) by {
        forall i | 0 < i < |m| ensures StrLess(k, m[i].key) {
          StrLessTransitive(k, m[0].key, m[i].key);
        }
      }
    } else {
      StrLessTotal(k, m[0].key);
      PutSorted(m[1..], k, v);
      var rest := Put(m[1..], k, v);
      assert Above(m[0].key, m[1..]);
      assert Above(m[0].key, rest);
      forall b | StrLess(b, k) && Above(b, m) ensures Above(b, Put(m, k, v)) {
        assert Above(b, m[1..]);
      }
    }
  }

  /** Put adds `k` to the keys and nothing else. */
  lemma {:induction false} PutKeys<V>(m: NameMap<V>, k: string, v: V)
    ensures Keys(Put(m, k, v)) == Keys(m) + {k}
    decreases |m|
  {
    if m == [] {
      KeysCons(Entry(k, v), m);
      assert [Entry(k, v)] + m == [Entry(k, v)];
    } else if m[0].key == k {
      KeysCons(m[0], m[1..]);
      KeysCons(Entry(k, v), m[1..]);
      assert [m[0]] + m[1..] == m;
    } else if StrLess(k, m[0].key) {
      KeysCons(Entry(k, v), m);
    } else {
      PutKeys(m[1..], k, v);
      KeysCons(m[0], m[1..]);
      assert [m[0]] + m[1..] == m;
      KeysCons(m[0], Put(m[1..], k, v));
    }
  }

  /** After Put, `k` finds `v` and every other key what it found before. */
  lemma {:induction false} PutGet<V>(m: NameMap<V>, k: string, v: V, k': string)
    ensures Get(Put(m, k, v), k') == if k' == k then Some(v) else Get(m, k')
    decreases |m|
  {
    if m != [] && m[0].key != k && !StrLess(k, m[0].key) {
      PutGet(m[1..], k, v, k');
    }
  }

  /** `functions[k].push_back(x)`: appends `x` to the sequence stored under `k`
      (creating an empty one first when `k` is absent). */
  function Append<T>(m: NameMap<seq<T>>, k: string, x: T): NameMap<seq<T>>
  {
    Put(m, k, GetSeq(m, k) + [x])
  }

  lemma AppendSorted<T>(m: NameMap<seq<T>>, k: string, x: T)
    requires Sorted(m)
    ensures Sorted(Append(m, k, x))
  {
    PutSorted(m, k, GetSeq(m, k) + [x]);
  }

  /** Append adds `k` to the keys, extends the sequence under `k` by `x` and
      leaves every other key alone. */
  lemma AppendExact<T>(m: NameMap<seq<T>>, k: string, x: T)
    ensures Keys(Append(m, k, x)) == Keys(m) + {k}
    ensures GetSeq(Append(m, k, x), k) == GetSeq(m, k) + [x]
    ensures forall k' :: k' != k ==> Get(Append(m, k, x), k') == Get(m, k')
  {
    PutKeys(m, k, GetSeq(m, k) + [x]);
    PutGet(m, k, GetSeq(m, k) + [x], k);
    forall k' | k' != k ensures Get(Append(m, k, x), k') == Get(m, k') {
      PutGet(m, k, GetSeq(m, k) + [x], k');
    }
  }
}
