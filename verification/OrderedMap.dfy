/** A dictionary that remembers the order in which its keys were first inserted: a sequence of
    entries with distinct keys. */
module OrderedMap {
  import opened Wrappers

  datatype Entry<K, V> = Entry(key: K, value: V)

  function Keys<K, V>(es: seq<Entry<K, V>>): (ks: seq<K>)
    ensures |ks| == |es| && forall i :: 0 <= i < |es| ==> ks[i] == es[i].key
  {
    if es == [] then [] else [es[0].key] + Keys(es[1..])
  }

  predicate Distinct<T(==)>(s: seq<T>) {
    forall i, j :: 0 <= i < j < |s| ==> s[i] != s[j]
  }

  function Find<K(==), V>(es: seq<Entry<K, V>>, k: K): (r: Option<V>)
    ensures r.Some? <==> k in Keys(es)
  {
    if es == [] then None else if es[0].key == k then Some(es[0].value) else Find(es[1..], k)
  }

  /** Replaces the value in place, or appends a new entry. */
  function Put<K(==), V>(es: seq<Entry<K, V>>, k: K, v: V): seq<Entry<K, V>> {
    if es == [] then [Entry(k, v)]
    else if es[0].key == k then [Entry(k, v)] + es[1..]
    else [es[0]] + Put(es[1..], k, v)
  }

  function Remove<K(==), V>(es: seq<Entry<K, V>>, k: K): seq<Entry<K, V>> {
    if es == [] then []
    else if es[0].key == k then Remove(es[1..], k)
    else [es[0]] + Remove(es[1..], k)
  }

  /** The keys without k. */
  function Without<K(==)>(ks: seq<K>, k: K): seq<K> {
    if ks == [] then [] else if ks[0] == k then Without(ks[1..], k) else [ks[0]] + Without(ks[1..], k)
  }

  lemma {:induction false} KeysPut<K, V>(es: seq<Entry<K, V>>, k: K, v: V)
    ensures Keys(Put(es, k, v)) == if k in Keys(es) then Keys(es) else Keys(es) + [k]
  {
    if es != [] && es[0].key != k {
      KeysPut(es[1..], k, v);
    }
  }

  lemma {:induction false} KeysRemove<K, V>(es: seq<Entry<K, V>>, k: K)
    ensures Keys(Remove(es, k)) == Without(Keys(es), k)
  {
    if es != [] {
      KeysRemove(es[1..], k);
      assert Keys(es)[1..] == Keys(es[1..]);
    }
  }

  lemma {:induction false} FindPut<K, V>(es: seq<Entry<K, V>>, k: K, v: V, q: K)
    ensures Find(Put(es, k, v), q) == if q == k then Some(v) else Find(es, q)
  {
    if es != [] && es[0].key != k {
      FindPut(es[1..], k, v, q);
    }
  }

  lemma {:induction false} FindRemove<K, V>(es: seq<Entry<K, V>>, k: K, q: K)
    ensures Find(Remove(es, k), q) == if q == k then None else Find(es, q)
  {
    if es != [] {
      FindRemove(es[1..], k, q);
    }
  }

  lemma {:induction false} WithoutMembers<K>(ks: seq<K>, k: K)
    ensures forall q :: q in Without(ks, k) <==> q in ks && q != k
  {
    if ks != [] {
      WithoutMembers(ks[1..], k);
    }
  }

  lemma {:induction false} WithoutDistinct<K>(ks: seq<K>, k: K)
    requires Distinct(ks)
    ensures Distinct(Without(ks, k))
    ensures |Without(ks, k)| == if k in ks then |ks| - 1 else |ks|
  {
    if ks != [] {
      WithoutDistinct(ks[1..], k);
      WithoutMembers(ks[1..], k);
      assert ks[0] !in ks[1..];
    }
  }

  /** Entries with distinct keys are told apart by their key order and their lookups. */
  lemma {:induction false} Extensional<K, V>(a: seq<Entry<K, V>>, b: seq<Entry<K, V>>)
    requires Distinct(Keys(a)) && Keys(a) == Keys(b)
    requires forall k :: Find(a, k) == Find(b, k)
    ensures a == b
  {
    if a != [] {
      assert Find(a, a[0].key) == Find(b, a[0].key);
      assert Keys(a)[1..] == Keys(a[1..]) && Keys(b)[1..] == Keys(b[1..]);
      forall k
        ensures Find(a[1..], k) == Find(b[1..], k)
      {
        assert Find(a, k) == Find(b, k);
        assert Keys(a)[0] !in Keys(a)[1..];
      }
      Extensional(a[1..], b[1..]);
    }
  }

  /* ---- lookups from outside ---- */

  lemma {:induction false} PutNew<K, V>(es: seq<Entry<K, V>>, k: K, v: V)
    requires k !in Keys(es)
    ensures Put(es, k, v) == es + [Entry(k, v)]
  {
    if es != [] {
      assert Keys(es)[0] == es[0].key && Keys(es)[1..] == Keys(es[1..]);
      PutNew(es[1..], k, v);
    }
  }

  lemma {:induction false} FindEntry<K, V>(es: seq<Entry<K, V>>, i: nat)
    requires Distinct(Keys(es)) && i < |es|
    ensures Find(es, es[i].key) == Some(es[i].value)
  {
    if i > 0 {
      assert Keys(es)[0] != Keys(es)[i] && Keys(es)[1..] == Keys(es[1..]);
      FindEntry(es[1..], i - 1);
    }
  }

  /** The first key that holds the value. */
  function Holder<K, V(==)>(es: seq<Entry<K, V>>, v: V): Option<K> {
    if es == [] then None else if es[0].value == v then Some(es[0].key) else Holder(es[1..], v)
  }

  lemma {:induction false} HolderAt<K, V>(es: seq<Entry<K, V>>, i: nat, v: V)
    requires i <= |es| && forall j :: 0 <= j < i ==> es[j].value != v
    requires i < |es| ==> es[i].value == v
    ensures Holder(es, v) == if i < |es| then Some(es[i].key) else None
  {
    if i > 0 {
      HolderAt(es[1..], i - 1, v);
    }
  }

  /** The entries that do not hold the value. */
  function WithoutValue<K, V(==)>(es: seq<Entry<K, V>>, v: V): seq<Entry<K, V>> {
    if es == [] then [] else if es[0].value == v then WithoutValue(es[1..], v) else [es[0]] + WithoutValue(es[1..], v)
  }

  lemma {:induction false} RemoveMissing<K, V>(es: seq<Entry<K, V>>, k: K)
    requires k !in Keys(es)
    ensures Remove(es, k) == es
  {
    if es != [] {
      assert Keys(es)[0] == es[0].key && Keys(es)[1..] == Keys(es[1..]);
      RemoveMissing(es[1..], k);
    }
  }

  /* ---- what a walk along the entries finds ---- */

  lemma {:induction false} FindAt<K, V>(es: seq<Entry<K, V>>, i: nat, key: K)
    requires i <= |es| && forall j :: 0 <= j < i ==> es[j].key != key
    requires i < |es| ==> es[i].key == key
    ensures Find(es, key) == if i < |es| then Some(es[i].value) else None
  {
    if i > 0 {
      FindAt(es[1..], i - 1, key);
    }
  }

  lemma {:induction false} PutAt<K, V>(es: seq<Entry<K, V>>, i: nat, key: K, v: V)
    requires i <= |es| && forall j :: 0 <= j < i ==> es[j].key != key
    requires i < |es| ==> es[i].key == key
    ensures Put(es, key, v) == if i < |es| then es[i := Entry(key, v)] else es + [Entry(key, v)]
  {
    if i > 0 {
      PutAt(es[1..], i - 1, key, v);
      assert es == [es[0]] + es[1..];
    }
  }

  lemma {:induction false} RemoveAt<K, V>(es: seq<Entry<K, V>>, i: nat, key: K)
    requires i < |es| && es[i].key == key && Distinct(Keys(es))
    ensures Remove(es, key) == es[..i] + es[i + 1..]
  {
    hide Keys;
    assert forall j :: 0 <= j < |es| ==> Keys(es)[j] == es[j].key;
    assert forall j :: 0 <= j < |es| - 1 ==> Keys(es[1..])[j] == Keys(es)[j + 1];
    if i > 0 {
      RemoveAt(es[1..], i - 1, key);
      assert es[..i] + es[i + 1..] == [es[0]] + (es[1..][..i - 1] + es[1..][i..]);
    } else {
      assert Keys(es)[0] !in Keys(es)[1..] && Keys(es)[1..] == Keys(es[1..]);
      RemoveMissing(es[1..], key);
    }
  }

  lemma {:induction false} RemoveHolder<K, V>(es: seq<Entry<K, V>>, v: V)
    requires Distinct(Keys(es)) && Holder(es, v).Some?
    ensures var rest := Remove(es, Holder(es, v).value);
            |rest| < |es| && WithoutValue(rest, v) == WithoutValue(es, v)
  {
    assert Keys(es)[1..] == Keys(es[1..]) && Keys(es)[0] !in Keys(es)[1..];
    if es[0].value == v {
      RemoveMissing(es[1..], es[0].key);
    } else {
      HolderIsKey(es[1..], v);
      RemoveHolder(es[1..], v);
    }
  }

  lemma {:induction false} HolderIsKey<K, V>(es: seq<Entry<K, V>>, v: V)
    ensures Holder(es, v).Some? ==> Holder(es, v).value in Keys(es)
    ensures Holder(es, v) == None ==> WithoutValue(es, v) == es
  {
    if es != [] && es[0].value != v {
      HolderIsKey(es[1..], v);
    }
  }

  /** Exactly the keys that held the value are gone. */
  lemma {:induction false} FindWithoutValue<K, V>(es: seq<Entry<K, V>>, v: V, k: K)
    requires Distinct(Keys(es))
    ensures Find(WithoutValue(es, v), k) == if Find(es, k) == Some(v) then None else Find(es, k)
  {
    if es != [] {
      assert Keys(es)[1..] == Keys(es[1..]) && Keys(es)[0] !in Keys(es)[1..];
      FindWithoutValue(es[1..], v, k);
    }
  }

  lemma {:induction false} WithoutValueDistinct<K, V>(es: seq<Entry<K, V>>, v: V)
    requires Distinct(Keys(es))
    ensures Distinct(Keys(WithoutValue(es, v)))
    ensures forall k :: k in Keys(WithoutValue(es, v)) ==> k in Keys(es)
  {
    if es != [] {
      assert Keys(es)[1..] == Keys(es[1..]) && Keys(es)[0] !in Keys(es)[1..];
      WithoutValueDistinct(es[1..], v);
    }
  }

  lemma {:induction false} WithoutValueMissing<K, V>(es: seq<Entry<K, V>>, v: V)
    requires forall e :: e in es ==> e.value != v
    ensures WithoutValue(es, v) == es
  {
    if es != [] {
      WithoutValueMissing(es[1..], v);
    }
  }

  lemma {:induction false} WithoutValueMembers<K, V>(es: seq<Entry<K, V>>, v: V)
    ensures forall e :: e in WithoutValue(es, v) <==> e in es && e.value != v
  {
    if es != [] {
      WithoutValueMembers(es[1..], v);
    }
  }

  lemma {:induction false} WithoutValueIndexed<K, V>(es: seq<Entry<K, V>>, v: V)
    ensures forall i :: 0 <= i < |WithoutValue(es, v)| ==> WithoutValue(es, v)[i] in es && WithoutValue(es, v)[i].value != v
  {
    if es != [] {
      WithoutValueIndexed(es[1..], v);
    }
  }

  /* ---- equality that ignores the order ---- */

  ghost function Domain<K, V>(es: seq<Entry<K, V>>): set<K> {
    set k | k in Keys(es)
  }

  lemma {:induction false} DomainSize<K, V>(es: seq<Entry<K, V>>)
    requires Distinct(Keys(es))
    ensures |Domain(es)| == |es|
  {
    if es == [] {
      assert Domain(es) == {};
    } else {
      assert Keys(es)[1..] == Keys(es[1..]) && Keys(es)[0] !in Keys(es)[1..];
      DomainSize(es[1..]);
      assert Domain(es) == {es[0].key} + Domain(es[1..]);
    }
  }

  lemma SameSize<T>(a: set<T>, b: set<T>)
    requires a <= b && |a| == |b|
    ensures a == b
  {
    assert |b - a| == 0;
  }

  /** Every entry of a is found in b. */
  predicate Covers<K(==), V(==)>(b: seq<Entry<K, V>>, a: seq<Entry<K, V>>) {
    forall i :: 0 <= i < |a| ==> Find(b, a[i].key) == Some(a[i].value)
  }

  /** The two are the same map: every lookup answers the same. */
  ghost predicate SameLookups<K(!new), V>(a: seq<Entry<K, V>>, b: seq<Entry<K, V>>) {
    forall k :: Find(a, k) == Find(b, k)
  }

  lemma AllEntriesFound<K(!new), V>(a: seq<Entry<K, V>>, b: seq<Entry<K, V>>)
    requires Distinct(Keys(a)) && Distinct(Keys(b)) && |a| == |b|
    requires Covers(b, a)
    ensures SameLookups(a, b)
  {
    hide Find, Keys, Distinct;
    DomainSize(a);
    DomainSize(b);
    forall k | k in Keys(a)
      ensures k in Keys(b) && Find(a, k) == Find(b, k)
    {
      var i :| 0 <= i < |a| && Keys(a)[i] == k;
      FindEntry(a, i);
    }
    SameSize(Domain(a), Domain(b));
    forall k
      ensures Find(a, k) == Find(b, k)
    {
      assert k in Domain(a) <==> k in Domain(b);
    }
  }

  lemma SameFinds<K(!new), V>(a: seq<Entry<K, V>>, b: seq<Entry<K, V>>)
    requires Distinct(Keys(a)) && Distinct(Keys(b))
    requires SameLookups(a, b)
    ensures |a| == |b| && Covers(b, a)
  {
    hide Find, Keys, Distinct;
    DomainSize(a);
    DomainSize(b);
    forall k
      ensures k in Domain(a) <==> k in Domain(b)
    {
      assert Find(a, k) == Find(b, k);
    }
    assert Domain(a) == Domain(b);
    forall i | 0 <= i < |a|
      ensures Find(b, a[i].key) == Some(a[i].value)
    {
      FindEntry(a, i);
    }
  }

  /** Two dictionaries of the same size, every entry of one found in the other: the same map. */
  lemma SameMap<K(!new), V>(a: seq<Entry<K, V>>, b: seq<Entry<K, V>>)
    requires Distinct(Keys(a)) && Distinct(Keys(b))
    ensures (|a| == |b| && Covers(b, a)) <==> SameLookups(a, b)
  {
    hide Find, Keys, Distinct, Covers, SameLookups;
    if |a| == |b| && Covers(b, a) {
      AllEntriesFound(a, b);
    }
    if SameLookups(a, b) {
      SameFinds(a, b);
    }
  }
}
