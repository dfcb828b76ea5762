/** What a deep merge of two hashes means, key by key and in order, and exactly when merging the same
    argument twice changes nothing more. */
module DeepMerge {
  import opened Wrappers
  import opened OrderedMap
  import opened Values

  /** One turn of the loop over the argument's keys. */
  function MergeOne(a: seq<Entry<Key, Value>>, key: Key, v: Value): seq<Entry<Key, Value>>
    decreases v, 1
  {
    match Find(a, key)
    case Some(was) =>
      if was.HashValue? && v.HashValue? then Put(a, key, HashValue(Merge(was.entries, v.entries)))
      else if v.NilValue? then Remove(a, key)
      else Put(a, key, v)
    case None => Put(a, key, v)
  }

  function Merge(a: seq<Entry<Key, Value>>, b: seq<Entry<Key, Value>>): seq<Entry<Key, Value>>
    decreases b, 0
  {
    if b == [] then a else
      assert b[0] decreases to b[0].value;
      Merge(MergeOne(a, b[0].key, b[0].value), b[1..])
  }

  /** Distinct keys, in this hash and in every hash that is a value of it. */
  predicate WellFormed(es: seq<Entry<Key, Value>>) {
    Distinct(Keys(es)) && forall e :: e in es ==> (e.value.HashValue? ==> assert e decreases to e.value; WellFormed(e.value.entries))
  }

  /** What one key holds after the merge, from what it held on both sides. */
  function MergedAt(was: Option<Value>, v: Option<Value>): Option<Value> {
    if v == None then was
    else if was == None then v
    else if was.value.HashValue? && v.value.HashValue? then Some(HashValue(Merge(was.value.entries, v.value.entries)))
    else if v.value.NilValue? then None
    else v
  }

  /** The meaning of a merge at one depth: every key by itself. */
  lemma {:induction false} MergeLookup(a: seq<Entry<Key, Value>>, b: seq<Entry<Key, Value>>, k: Key)
    requires Distinct(Keys(b))
    ensures Find(Merge(a, b), k) == MergedAt(Find(a, k), Find(b, k))
    decreases |b|
  {
    if b != [] {
      var a' := MergeOne(a, b[0].key, b[0].value);
      assert Keys(b)[1..] == Keys(b[1..]);
      assert Keys(b)[0] !in Keys(b)[1..];
      MergeLookup(a', b[1..], k);
      MergeOneLookup(a, b[0].key, b[0].value, k);
    }
  }

  lemma MergeOneLookup(a: seq<Entry<Key, Value>>, key: Key, v: Value, k: Key)
    ensures Find(MergeOne(a, key, v), k) == if k == key then MergedAt(Find(a, k), Some(v)) else Find(a, k)
  {
    FindRemove(a, key, k);
    FindPut(a, key, v, k);
    if Find(a, key).Some? && Find(a, key).value.HashValue? && v.HashValue? {
      FindPut(a, key, HashValue(Merge(Find(a, key).value.entries, v.entries)), k);
    }
  }

  /** The keys that survive, in their old order, then the new keys in the argument's order. */
  function MergedKeys(a: seq<Entry<Key, Value>>, b: seq<Entry<Key, Value>>): seq<Key> {
    Survivors(Keys(a), b) + NewKeys(Keys(a), b)
  }

  function Survivors(ks: seq<Key>, b: seq<Entry<Key, Value>>): seq<Key> {
    if ks == [] then []
    else if Find(b, ks[0]) == Some(NilValue) then Survivors(ks[1..], b)
    else [ks[0]] + Survivors(ks[1..], b)
  }

  function NewKeys(ks: seq<Key>, b: seq<Entry<Key, Value>>): seq<Key> {
    if b == [] then [] else (if b[0].key in ks then [] else [b[0].key]) + NewKeys(ks, b[1..])
  }

  lemma {:induction false} MergeOrder(a: seq<Entry<Key, Value>>, b: seq<Entry<Key, Value>>)
    requires Distinct(Keys(a)) && Distinct(Keys(b))
    ensures Keys(Merge(a, b)) == MergedKeys(a, b)
    ensures Distinct(Keys(Merge(a, b)))
    decreases |b|
  {
    hide Survivors, NewKeys, MergeOne;
    if b == [] {
      NewKeysNone(Keys(a), b);
      SurvivorsOfNone(Keys(a), b);
    } else {
      var key, v := b[0].key, b[0].value;
      var a' := MergeOne(a, key, v);
      assert Keys(b)[1..] == Keys(b[1..]);
      assert Keys(b)[0] !in Keys(b)[1..];
      MergeOneKeys(a, key, v);
      MergeOrder(a', b[1..]);
      OrderStep(Keys(a), Keys(a'), b);
    }
  }

  /** The order law, one key of the argument at a time. */
  lemma OrderStep(ks: seq<Key>, ks': seq<Key>, b: seq<Entry<Key, Value>>)
    requires b != [] && b[0].key !in Keys(b[1..])
    requires ks' == if b[0].key !in ks then ks + [b[0].key] else if b[0].value.NilValue? then Without(ks, b[0].key) else ks
    ensures Survivors(ks', b[1..]) + NewKeys(ks', b[1..]) == Survivors(ks, b) + NewKeys(ks, b)
  {
    hide Survivors, Find, Keys, Without;
    var key := b[0].key;
    if key !in ks {
      SurvivorsAppend(ks, key, b[1..]);
      SurvivorsSkip(ks, b);
      NewKeysSkip(ks, key, b[1..]);
      Regrouped(Survivors(ks, b), [key], NewKeys(ks, b[1..]));
    } else if b[0].value.NilValue? {
      SurvivorsWithout(ks, b);
      NewKeysWithout(ks, key, b[1..]);
      Regrouped([], [], NewKeys(ks, b[1..]));
    } else {
      SurvivorsKeep(ks, b);
      Regrouped([], [], NewKeys(ks, b[1..]));
    }
  }

  lemma Regrouped(x: seq<Key>, y: seq<Key>, z: seq<Key>)
    ensures (x + y) + z == x + (y + z)
    ensures [] + z == z
  {
  }

  lemma MergeOneKeys(a: seq<Entry<Key, Value>>, key: Key, v: Value)
    requires Distinct(Keys(a))
    ensures Keys(MergeOne(a, key, v)) ==
            if key !in Keys(a) then Keys(a) + [key] else if v.NilValue? then Without(Keys(a), key) else Keys(a)
    ensures Distinct(Keys(MergeOne(a, key, v)))
  {
    KeysRemove(a, key);
    WithoutDistinct(Keys(a), key);
    KeysPut(a, key, v);
    if Find(a, key).Some? && Find(a, key).value.HashValue? && v.HashValue? {
      KeysPut(a, key, HashValue(Merge(Find(a, key).value.entries, v.entries)));
    }
  }

  lemma {:induction false} SurvivorsOfNone(ks: seq<Key>, b: seq<Entry<Key, Value>>)
    requires b == []
    ensures Survivors(ks, b) == ks
  {
    if ks != [] {
      SurvivorsOfNone(ks[1..], b);
    }
  }

  lemma {:induction false} SurvivorsAppend(ks: seq<Key>, key: Key, b: seq<Entry<Key, Value>>)
    requires Find(b, key) == None
    ensures Survivors(ks + [key], b) == Survivors(ks, b) + [key]
  {
    if ks != [] {
      SurvivorsAppend(ks[1..], key, b);
      assert (ks + [key])[1..] == ks[1..] + [key];
    }
  }

  lemma {:induction false} SurvivorsSkip(ks: seq<Key>, b: seq<Entry<Key, Value>>)
    requires b != [] && b[0].key !in ks
    ensures Survivors(ks, b) == Survivors(ks, b[1..])
  {
    if ks != [] {
      SurvivorsSkip(ks[1..], b);
    }
  }

  lemma {:induction false} SurvivorsKeep(ks: seq<Key>, b: seq<Entry<Key, Value>>)
    requires b != [] && !b[0].value.NilValue? && b[0].key !in Keys(b[1..])
    ensures Survivors(ks, b) == Survivors(ks, b[1..])
  {
    if ks != [] {
      SurvivorsKeep(ks[1..], b);
    }
  }

  lemma {:induction false} SurvivorsWithout(ks: seq<Key>, b: seq<Entry<Key, Value>>)
    requires b != [] && b[0].value.NilValue? && b[0].key !in Keys(b[1..])
    ensures Survivors(ks, b) == Survivors(Without(ks, b[0].key), b[1..])
  {
    if ks != [] {
      SurvivorsWithout(ks[1..], b);
    }
  }

  lemma {:induction false} NewKeysSkip(ks: seq<Key>, key: Key, b: seq<Entry<Key, Value>>)
    requires key !in Keys(b)
    ensures NewKeys(ks + [key], b) == NewKeys(ks, b)
  {
    if b != [] {
      assert Keys(b)[1..] == Keys(b[1..]);
      NewKeysSkip(ks, key, b[1..]);
    }
  }

  lemma {:induction false} NewKeysWithout(ks: seq<Key>, key: Key, b: seq<Entry<Key, Value>>)
    requires key !in Keys(b)
    ensures NewKeys(Without(ks, key), b) == NewKeys(ks, b)
  {
    if b != [] {
      assert Keys(b)[1..] == Keys(b[1..]);
      WithoutMembers(ks, key);
      NewKeysWithout(ks, key, b[1..]);
    }
  }

  /* ---- idempotence ---- */

  /** No nil in the argument, nor in any hash that is a value of it. */
  predicate NilFree(es: seq<Entry<Key, Value>>) {
    forall e :: e in es ==> !e.value.NilValue? && (e.value.HashValue? ==> assert e decreases to e.value; NilFree(e.value.entries))
  }

  lemma {:induction false} MergeIntoNothing(b: seq<Entry<Key, Value>>)
    requires Distinct(Keys(b))
    ensures Merge([], b) == b
  {
    MergeOrder([], b);
    NewKeysAll(b);
    forall k
      ensures Find(Merge([], b), k) == Find(b, k)
    {
      MergeLookup([], b, k);
    }
    Extensional(Merge([], b), b);
  }

  lemma {:induction false} NewKeysAll(b: seq<Entry<Key, Value>>)
    ensures NewKeys([], b) == Keys(b)
  {
    if b != [] {
      NewKeysAll(b[1..]);
    }
  }

  lemma {:induction false} FoundInside(es: seq<Entry<Key, Value>>, k: Key)
    requires Find(es, k).Some?
    ensures Entry(k, Find(es, k).value) in es
  {
    if es[0].key != k {
      FoundInside(es[1..], k);
    }
  }

  lemma EntryFound(es: seq<Entry<Key, Value>>, e: Entry<Key, Value>)
    requires Distinct(Keys(es)) && e in es
    ensures Find(es, e.key) == Some(e.value)
  {
    var i :| 0 <= i < |es| && es[i] == e;
    OrderedMap.FindEntry(es, i);
  }

  /** The hash a merged hash value was merged into: the old hash, or nothing. */
  function Base(was: Option<Value>): seq<Entry<Key, Value>> {
    if was.Some? && was.value.HashValue? then was.value.entries else []
  }

  lemma BaseDistinct(es: seq<Entry<Key, Value>>, k: Key)
    requires WellFormed(es)
    ensures WellFormed(Base(Find(es, k)))
  {
    if Find(es, k).Some? {
      FoundInside(es, k);
    }
  }

  lemma HashMergedAt(was: Option<Value>, ys: seq<Entry<Key, Value>>)
    requires Distinct(Keys(ys))
    ensures MergedAt(was, Some(HashValue(ys))) == Some(HashValue(Merge(Base(was), ys)))
  {
    MergeIntoNothing(ys);
  }

  /** Merging the same argument a second time changes nothing exactly when the argument holds no nil
      at any depth. */
  lemma {:induction false} MergeTwice(a: seq<Entry<Key, Value>>, b: seq<Entry<Key, Value>>)
    requires WellFormed(a) && WellFormed(b)
    ensures Merge(Merge(a, b), b) == Merge(a, b) <==> NilFree(b)
    decreases b
  {
    if NilFree(b) {
      MergeTwiceSame(a, b);
    } else {
      var e :| e in b && (e.value.NilValue? || (e.value.HashValue? && !NilFree(e.value.entries)));
      var once := Merge(a, b);
      EntryFound(b, e);
      MergeOrder(a, b);
      MergeLookup(a, b, e.key);
      MergeLookup(once, b, e.key);
      if e.value.HashValue? {
        var ys := e.value.entries;
        HashMergedAt(Find(a, e.key), ys);
        assert (b decreases to e) && (e decreases to e.value);
        BaseDistinct(a, e.key);
        MergeTwice(Base(Find(a, e.key)), ys);
      }
    }
  }

  lemma {:induction false} MergeTwiceSame(a: seq<Entry<Key, Value>>, b: seq<Entry<Key, Value>>)
    requires WellFormed(a) && WellFormed(b) && NilFree(b)
    ensures Merge(Merge(a, b), b) == Merge(a, b)
    decreases b
  {
    var once := Merge(a, b);
    MergeOrder(a, b);
    MergeOrder(once, b);
    forall k
      ensures Find(Merge(once, b), k) == Find(once, k)
    {
      MergeLookup(a, b, k);
      MergeLookup(once, b, k);
      if Find(b, k).Some? {
        FoundInside(b, k);
        if Find(b, k).value.HashValue? {
          HashMergedAt(Find(a, k), Find(b, k).value.entries);
          BaseDistinct(a, k);
          assert (b decreases to Entry(k, Find(b, k).value)) && (Entry(k, Find(b, k).value) decreases to Find(b, k).value);
          MergeTwiceSame(Base(Find(a, k)), Find(b, k).value.entries);
        }
      }
    }
    SameKeysAgain(a, b);
    Extensional(Merge(once, b), once);
  }

  lemma SameKeysAgain(a: seq<Entry<Key, Value>>, b: seq<Entry<Key, Value>>)
    requires Distinct(Keys(a)) && WellFormed(b) && NilFree(b)
    ensures Keys(Merge(Merge(a, b), b)) == Keys(Merge(a, b))
  {
    var once := Merge(a, b);
    MergeOrder(a, b);
    MergeOrder(once, b);
    SurvivorsAll(Keys(once), b);
    forall k | k in Keys(b)
      ensures k in Keys(once)
    {
      MergeLookup(a, b, k);
      assert Find(b, k).Some?;
      FoundInside(b, k);
    }
    NewKeysNone(Keys(once), b);
  }

  lemma {:induction false} SurvivorsAll(ks: seq<Key>, b: seq<Entry<Key, Value>>)
    requires NilFree(b)
    ensures Survivors(ks, b) == ks
  {
    if ks != [] {
      SurvivorsAll(ks[1..], b);
      if Find(b, ks[0]).Some? {
        FoundInside(b, ks[0]);
      }
    }
  }

  lemma {:induction false} NewKeysNone(ks: seq<Key>, b: seq<Entry<Key, Value>>)
    requires forall k :: k in Keys(b) ==> k in ks
    ensures NewKeys(ks, b) == []
  {
    if b != [] {
      assert Keys(b)[0] == b[0].key && Keys(b)[1..] == Keys(b[1..]);
      NewKeysNone(ks, b[1..]);
    }
  }
}
