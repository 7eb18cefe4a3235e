/** Python's insertion-ordered `dict`, as a sequence of entries with
    distinct keys kept in insertion order. */
module OrderedMaps {
  import opened Optional

  /** The elements of `s` are pairwise different. */
  predicate Distinct<T(==)>(s: seq<T>) {
    forall i, j :: 0 <= i < j < |s| ==> s[i] != s[j]
  }

  /** The keys of a sequence of entries, in entry order. */
  function Keys<K, V>(m: seq<(K, V)>): (ks: seq<K>)
    ensures |ks| == |m|
    ensures forall i :: 0 <= i < |m| ==> ks[i] == m[i].0
  {
    seq(|m|, i requires 0 <= i < |m| => m[i].0)
  }

  /** An insertion-ordered dictionary: no key occurs in two entries. */
  type Dict<K(==), V> = m: seq<(K, V)> | Distinct(Keys(m)) witness []

  /** The position of the first occurrence of `x` in `s`. */
  function IndexOf<T(==)>(s: seq<T>, x: T): (i: nat)
    requires x in s
    ensures i < |s| && s[i] == x
    ensures forall j :: 0 <= j < i ==> s[j] != x
  {
    if s[0] == x then 0 else 1 + IndexOf(s[1..], x)
  }

  /** The first occurrence of an element of a prefix lies in that prefix. */
  lemma {:induction false} IndexOfPrefix<T>(s: seq<T>, n: nat, x: T)
    requires n <= |s| && x in s[..n]
    ensures x in s && IndexOf(s, x) == IndexOf(s[..n], x)
  {
    if s[0] != x {
      assert s[1..][..n - 1] == s[..n][1..];
      IndexOfPrefix(s[1..], n - 1, x);
    }
  }

  /** Every element of `s` occurs in `ref`, and `s` lists them in the
      order in which they first occur in `ref`. */
  predicate InOrderOf<T(==)>(s: seq<T>, ref: seq<T>) {
    && (forall i :: 0 <= i < |s| ==> s[i] in ref)
    && (forall i, j :: 0 <= i < j < |s| ==>
          s[i] in ref && s[j] in ref && IndexOf(ref, s[i]) < IndexOf(ref, s[j]))
  }

  /** An order-respecting listing drawn from all but the last element of
      `ref` stays order-respecting, also when that last element is added. */
  lemma InOrderOfExtend<T>(s: seq<T>, ref: seq<T>)
    requires |ref| > 0 && Distinct(ref)
    requires InOrderOf(s, ref[..|ref| - 1])
    ensures InOrderOf(s, ref)
    ensures InOrderOf(s + [ref[|ref| - 1]], ref)
  {
    var n := |ref| - 1;
    forall x | x in ref[..n]
      ensures x in ref && IndexOf(ref, x) == IndexOf(ref[..n], x) < n
    {
      IndexOfPrefix(ref, n, x);
    }
    assert IndexOf(ref, ref[n]) == n;
  }

  /** The front counterpart of `InOrderOfExtend`: a listing in the order of
      the tail of `ref` is in the order of `ref`, also with the head of
      `ref` put in front. */
  lemma InOrderOfCons<T>(s: seq<T>, ref: seq<T>)
    requires |ref| > 0 && Distinct(ref)
    requires InOrderOf(s, ref[1..])
    ensures InOrderOf(s, ref)
    ensures InOrderOf([ref[0]] + s, ref)
  {
    var tail := ref[1..];
    forall x | x in tail
      ensures x in ref && x != ref[0] && IndexOf(ref, x) == 1 + IndexOf(tail, x)
    {
      var k :| 0 <= k < |tail| && tail[k] == x;
      assert ref[k + 1] == x;
    }
    var t := [ref[0]] + s;
    forall i, j | 0 <= i < j < |t|
      ensures t[i] in ref && t[j] in ref && IndexOf(ref, t[i]) < IndexOf(ref, t[j])
    {
      assert t[j] == s[j - 1];
      if i > 0 {
        assert t[i] == s[i - 1];
      }
    }
  }

  /** `d.get(k)`: the value stored under `k`, or `None`. */
  function Get<K(==), V>(m: seq<(K, V)>, k: K): (r: Option<V>)
    ensures r.Some? <==> k in Keys(m)
    ensures r.Some? ==> (k, r.value) in m
  {
    if |m| == 0 then None
    else if m[0].0 == k then Some(m[0].1)
    else
      assert Keys(m) == [m[0].0] + Keys(m[1..]);
      Get(m[1..], k)
  }

  /** In a dictionary, the lookup of an entry's key yields that entry's value. */
  lemma {:induction false} GetEntry<K, V>(m: Dict<K, V>, i: nat)
    requires i < |m|
    ensures Get(m, m[i].0) == Some(m[i].1)
  {
    if i > 0 {
      assert m[0].0 == Keys(m)[0] != Keys(m)[i] == m[i].0;
      var tail := m[1..];
      assert Keys(tail) == Keys(m)[1..];
      GetEntry(tail, i - 1);
    }
  }

  /** In a dictionary, every stored entry is what a lookup of its key yields. */
  lemma GetMember<K, V>(m: Dict<K, V>, k: K, v: V)
    requires (k, v) in m
    ensures Get(m, k) == Some(v)
  {
    var i :| 0 <= i < |m| && m[i] == (k, v);
    GetEntry(m, i);
  }

  /** Order-respecting listings compose: a listing in the order of `mid`,
      where `mid` itself lists distinct elements in the order of `ref`, is
      in the order of `ref`. */
  lemma InOrderOfTransitive<T>(s: seq<T>, mid: seq<T>, ref: seq<T>)
    requires Distinct(mid) && InOrderOf(s, mid) && InOrderOf(mid, ref)
    ensures InOrderOf(s, ref)
  {
    forall i, j | 0 <= i < j < |s|
      ensures s[i] in ref && s[j] in ref && IndexOf(ref, s[i]) < IndexOf(ref, s[j])
    {
      var a, b := IndexOf(mid, s[i]), IndexOf(mid, s[j]);
      assert mid[a] == s[i] && mid[b] == s[j] && a < b;
    }
  }

  /** A lookup in `m + [(k, v)]`: a key already in `m` is unaffected by the
      appended entry, and the appended key is found only when `m` lacks it. */
  lemma {:induction false} GetAppend<K, V>(m: seq<(K, V)>, k: K, v: V, x: K)
    ensures Get(m + [(k, v)], x) ==
              if x in Keys(m) then Get(m, x)
              else if x == k then Some(v)
              else None
  {
    if |m| > 0 {
      assert (m + [(k, v)])[1..] == m[1..] + [(k, v)];
      assert Keys(m) == [m[0].0] + Keys(m[1..]);
      GetAppend(m[1..], k, v, x);
    }
  }

  /** `d[k] = v`: an existing key keeps its position and takes the new
      value; a new key is appended at the end. */
  function Put<K(==, !new), V>(m: Dict<K, V>, k: K, v: V): (r: Dict<K, V>)
    ensures Keys(r) == if k in Keys(m) then Keys(m) else Keys(m) + [k]
    ensures k !in Keys(m) ==> r == m + [(k, v)]
    ensures Get(r, k) == Some(v)
    ensures forall x :: x != k ==> Get(r, x) == Get(m, x)
  {
    if k in Keys(m) then
      var i := IndexOf(Keys(m), k);
      var r := m[i := (k, v)];
      assert Keys(r) == Keys(m);
      GetEntry(r, i);
      assert forall x :: x != k ==> Get(r, x) == Get(m, x) by {
        forall x | x != k
          ensures Get(r, x) == Get(m, x)
        {
          if x in Keys(m) {
            var j := IndexOf(Keys(m), x);
            GetEntry(m, j);
            GetEntry(r, j);
          }
        }
      }
      r
    else
      var r := m + [(k, v)];
      assert Keys(r) == Keys(m) + [k];
      GetAppend(m, k, v, k);
      assert forall x :: x != k ==> Get(r, x) == Get(m, x) by {
        forall x | x != k
          ensures Get(r, x) == Get(m, x)
        {
          GetAppend(m, k, v, x);
        }
      }
      r
  }

  /** `d.setdefault(k, default)`: a key already present keeps its entry
      (value and position) untouched; a missing key is appended with the
      default value. */
  function SetDefault<K(==, !new), V>(m: Dict<K, V>, k: K, default: V): (r: Dict<K, V>)
    ensures |m| <= |r| && r[..|m|] == m
    ensures Keys(r) == if k in Keys(m) then Keys(m) else Keys(m) + [k]
    ensures k !in Keys(m) ==> r == m + [(k, default)]
    ensures Get(r, k) == Some(Get(m, k).GetOr(default))
    ensures forall x :: x != k ==> Get(r, x) == Get(m, x)
  {
    if k in Keys(m) then m else Put(m, k, default)
  }
}
