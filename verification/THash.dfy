/** The chained hash table with in-table heads and a separate list of keys: for any hash function it
    behaves as a dictionary that remembers the order in which its keys were first inserted. */
module THashes {
  import opened Wrappers
  import opened OrderedMap

  class THashElement<K, V> {
    var key: K
    var obj: Option<V>
    var next: THashElement?<K, V>
    ghost const home: nat // the cell whose chain this element is on

    constructor (ghost home: nat, key: K)
      ensures this.home == home && obj == None && next == null
    {
      this.home, this.key, obj, next := home, key, None, null;
    }
  }

  /* ---- buckets and the dictionary they make up ---- */

  /** Every entry sits in the bucket of its own hash, once. */
  ghost predicate Sorted<K, V>(buckets: seq<seq<Entry<K, V>>>, hashId: K -> nat) {
    forall b :: 0 <= b < |buckets| ==>
      && Distinct(Keys(buckets[b]))
      && forall k :: k in Keys(buckets[b]) ==> hashId(k) % |buckets| == b
  }

  /** Looking into the one bucket of the key's hash is looking into the dictionary. */
  ghost predicate Represents<K(!new), V>(buckets: seq<seq<Entry<K, V>>>, hashId: K -> nat, entries: seq<Entry<K, V>>) {
    && |buckets| > 0
    && Distinct(Keys(entries))
    && forall k :: Find(buckets[hashId(k) % |buckets|], k) == Find(entries, k)
  }

  lemma AllEmpty<K(!new), V>(buckets: seq<seq<Entry<K, V>>>, hashId: K -> nat)
    requires |buckets| > 0 && forall b :: 0 <= b < |buckets| ==> buckets[b] == []
    ensures Sorted(buckets, hashId) && Represents(buckets, hashId, [])
  {
  }

  lemma PutSorted<K, V>(buckets: seq<seq<Entry<K, V>>>, hashId: K -> nat, key: K, v: V)
    requires |buckets| > 0 && Sorted(buckets, hashId)
    ensures var b := hashId(key) % |buckets|;
            Sorted(buckets[b := Put(buckets[b], key, v)], hashId)
  {
    hide Keys, Put;
    var b := hashId(key) % |buckets|;
    KeysPut(buckets[b], key, v);
  }

  lemma PutRepresents<K(!new), V>(buckets: seq<seq<Entry<K, V>>>, hashId: K -> nat, entries: seq<Entry<K, V>>, key: K, v: V)
    requires Represents(buckets, hashId, entries)
    ensures var b := hashId(key) % |buckets|;
            Represents(buckets[b := Put(buckets[b], key, v)], hashId, Put(entries, key, v))
  {
    hide Keys, Put, Find;
    var b := hashId(key) % |buckets|;
    var after := buckets[b := Put(buckets[b], key, v)];
    KeysPut(entries, key, v);
    forall k
      ensures Find(after[hashId(k) % |after|], k) == Find(Put(entries, key, v), k)
    {
      FindPut(buckets[b], key, v, k);
      FindPut(entries, key, v, k);
    }
  }

  lemma RemoveSorted<K, V>(buckets: seq<seq<Entry<K, V>>>, hashId: K -> nat, key: K)
    requires |buckets| > 0 && Sorted(buckets, hashId)
    ensures var b := hashId(key) % |buckets|;
            Sorted(buckets[b := Remove(buckets[b], key)], hashId)
  {
    hide Keys, Remove, Without;
    var b := hashId(key) % |buckets|;
    KeysRemove(buckets[b], key);
    WithoutMembers(Keys(buckets[b]), key);
    WithoutDistinct(Keys(buckets[b]), key);
    var after := buckets[b := Remove(buckets[b], key)];
    forall c, k | 0 <= c < |after| && k in Keys(after[c])
      ensures hashId(k) % |after| == c
    {
      assert k in Keys(buckets[c]);
    }
  }

  lemma RemoveRepresents<K(!new), V>(buckets: seq<seq<Entry<K, V>>>, hashId: K -> nat, entries: seq<Entry<K, V>>, key: K)
    requires Represents(buckets, hashId, entries)
    ensures var b := hashId(key) % |buckets|;
            Represents(buckets[b := Remove(buckets[b], key)], hashId, Remove(entries, key))
  {
    hide Keys, Remove, Without, Find;
    var b := hashId(key) % |buckets|;
    var after := buckets[b := Remove(buckets[b], key)];
    KeysRemove(entries, key);
    WithoutDistinct(Keys(entries), key);
    forall k
      ensures Find(after[hashId(k) % |after|], k) == Find(Remove(entries, key), k)
    {
      FindRemove(buckets[b], key, k);
      FindRemove(entries, key, k);
    }
  }

  lemma FindAgrees<K(!new), V>(buckets: seq<seq<Entry<K, V>>>, hashId: K -> nat, entries: seq<Entry<K, V>>, key: K)
    requires Represents(buckets, hashId, entries)
    ensures Find(buckets[hashId(key) % |buckets|], key) == Find(entries, key)
  {
  }

  /** A chain holds the entries of its bucket in order, and has no tail when its head is empty. */
  ghost predicate Linked<K, V>(chain: seq<THashElement<K, V>>, bucket: seq<Entry<K, V>>)
    reads chain
  {
    && |chain| == (if bucket == [] then 1 else |bucket|)
    && (forall i :: 0 <= i < |bucket| ==> chain[i].key == bucket[i].key && chain[i].obj == Some(bucket[i].value))
    && (bucket == [] ==> chain[0].obj == None)
    && (forall i :: 0 <= i < |chain| - 1 ==> chain[i].next == chain[i + 1])
    && chain[|chain| - 1].next == null
    && Distinct(chain)
  }

  lemma Apart<T>(s: seq<T>, i: nat)
    requires Distinct(s)
    ensures forall k :: 0 <= k < |s| && k != i < |s| ==> s[k] != s[i]
  {
  }

  lemma DistinctSnoc<T>(s: seq<T>, x: T)
    requires Distinct(s) && x !in s
    ensures Distinct(s + [x])
  {
  }

  lemma DistinctWithout<T>(s: seq<T>, i: nat)
    requires Distinct(s) && i < |s|
    ensures Distinct(s[..i] + s[i + 1..])
  {
    var t := s[..i] + s[i + 1..];
    assert forall k :: 0 <= k < |t| ==> t[k] == s[if k < i then k else k + 1];
  }

  /** The second half of set: an empty head is filled, a missing element is linked in behind the last
      one, a present one gets the new value. */
  method Store<K, V>(found: THashElement?<K, V>, last: THashElement<K, V>, key: K, v: V,
                     ghost home: nat, ghost chain: seq<THashElement<K, V>>, ghost bucket: seq<Entry<K, V>>, ghost i: nat)
    returns (isNew: bool, ghost after: seq<THashElement<K, V>>)
    requires Linked(chain, bucket) && forall n :: n in chain ==> n.home == home
    requires i <= |bucket| && found == (if i < |chain| then chain[i] else null)
    requires last == chain[if i == 0 then 0 else i - 1]
    modifies chain
    ensures after != [] && after[0] == chain[0] && forall n :: n in after ==> n.home == home
    ensures Linked(after, if i < |bucket| then bucket[i := Entry(key, v)] else bucket + [Entry(key, v)])
    ensures isNew <==> i == |bucket|
    ensures forall n :: n in after ==> n in chain || fresh(n)
  {
    hide Distinct;
    Apart(chain, i);
    after := chain;
    var target := found;
    if target == null { // collision
      var added := new THashElement<K, V>(home, key);
      Apart(chain, i - 1);
      DistinctSnoc(chain, added);
      after := chain + [added];
      last.next := added;
      target := added;
    }
    isNew := target.obj == None;
    target.obj := Some(v);
    target.key := key;
  }

  /** A linked element is taken out of its chain. */
  method LinkPast<K, V>(found: THashElement<K, V>, last: THashElement<K, V>,
                        ghost chain: seq<THashElement<K, V>>, ghost bucket: seq<Entry<K, V>>, ghost i: nat)
    requires Linked(chain, bucket) && 0 < i < |bucket| && found == chain[i] && last == chain[i - 1]
    modifies last`next
    ensures Linked(chain[..i] + chain[i + 1..], bucket[..i] + bucket[i + 1..])
  {
    hide Distinct;
    Apart(chain, i - 1);
    DistinctWithout(chain, i);
    last.next := found.next;
  }

  /** A head with a tail takes over its successor. */
  method MoveUp<K, V>(found: THashElement<K, V>, next: THashElement<K, V>,
                      ghost chain: seq<THashElement<K, V>>, ghost bucket: seq<Entry<K, V>>)
    requires Linked(chain, bucket) && 1 < |bucket| && found == chain[0] && next == chain[1]
    modifies found
    ensures Linked([found] + chain[2..], bucket[1..])
  {
    hide Distinct;
    Apart(chain, 0);
    DistinctWithout(chain, 1);
    assert chain[..1] + chain[2..] == [found] + chain[2..];
    found.obj, found.key, found.next := next.obj, next.key, next.next;
  }

  /** A head without a tail is emptied. */
  method EmptyHead<K, V>(found: THashElement<K, V>, ghost chain: seq<THashElement<K, V>>, ghost bucket: seq<Entry<K, V>>)
    requires Linked(chain, bucket) && |bucket| == 1 && found == chain[0]
    modifies found`obj
    ensures Linked(chain, [])
  {
    found.obj := None;
  }

  lemma ChainOf<K, V>(chain: seq<THashElement<K, V>>, bucket: seq<Entry<K, V>>)
    requires Linked(chain, bucket) && bucket != []
    ensures |chain| == |bucket| && Distinct(chain) && chain[0].next == if |chain| > 1 then chain[1] else null
  {
  }

  /** The second half of remove_keeping_key. */
  method Unlink<K, V>(found: THashElement<K, V>, last: THashElement<K, V>,
                      ghost chain: seq<THashElement<K, V>>, ghost bucket: seq<Entry<K, V>>, ghost i: nat)
    returns (ghost after: seq<THashElement<K, V>>)
    requires Linked(chain, bucket)
    requires i < |bucket| && i < |chain| && found == chain[i] && last == chain[if i == 0 then 0 else i - 1]
    modifies chain
    ensures after != [] && after[0] == chain[0] && forall n :: n in after ==> n in chain
    ensures Linked(after, bucket[..i] + bucket[i + 1..])
  {
    hide Distinct, Linked;
    ChainOf(chain, bucket);
    Apart(chain, i);
    if found != last {
      LinkPast(found, last, chain, bucket, i);
      after := chain[..i] + chain[i + 1..];
    } else {
      assert bucket[..i] + bucket[i + 1..] == bucket[1..];
      if found.next != null { // there was a collision
        MoveUp(found, found.next, chain, bucket);
        after := [found] + chain[2..];
      } else {
        EmptyHead(found, chain, bucket);
        after := chain;
      }
    }
  }

  /** Every chain starts in its cell and keeps to itself. */
  ghost predicate Housed<K, V>(cells: seq<THashElement<K, V>>, chains: seq<seq<THashElement<K, V>>>, nodes: set<THashElement<K, V>>) {
    && |cells| == |chains|
    && forall b :: 0 <= b < |cells| ==>
         && chains[b] != [] && chains[b][0] == cells[b]
         && forall n :: n in chains[b] ==> n in nodes && n.home == b
  }

  lemma OfChain<K, V>(cells: seq<THashElement<K, V>>, chains: seq<seq<THashElement<K, V>>>, nodes: set<THashElement<K, V>>, b: nat)
    requires Housed(cells, chains, nodes) && b < |cells|
    ensures |chains| == |cells| && chains[b] != [] && chains[b][0] == cells[b]
    ensures forall n :: n in chains[b] ==> n in nodes && n.home == b
  {
  }

  lemma HousedChain<K, V>(cells: seq<THashElement<K, V>>, chains: seq<seq<THashElement<K, V>>>, nodes: set<THashElement<K, V>>,
                          b: nat, after: seq<THashElement<K, V>>)
    requires Housed(cells, chains, nodes) && b < |cells|
    requires after != [] && after[0] == cells[b] && forall n :: n in after ==> n.home == b
    ensures Housed(cells, chains[b := after], nodes + set n | n in after)
  {
  }

  class THash<K(!new, ==), V(==)> {
    const size: nat
    const hashId: K -> nat
    const table: array<THashElement<K, V>>
    var keys: seq<K>
    ghost var entries: seq<Entry<K, V>>                 // the dictionary
    ghost var buckets: seq<seq<Entry<K, V>>>            // its entries, cell by cell in chain order
    ghost var chains: seq<seq<THashElement<K, V>>>      // the elements that hold them
    ghost var nodes: set<THashElement<K, V>>

    ghost predicate TableValid()
      reads this`chains, this`buckets, this`nodes, table, nodes
    {
      && size == table.Length == |chains| == |buckets| && size > 0
      && Sorted(buckets, hashId)
      && Housed(table[..], chains, nodes)
      && forall b :: 0 <= b < size ==> Linked(chains[b], buckets[b])
    }

    ghost predicate Valid()
      reads this, table, nodes
    {
      && TableValid()
      && keys == Keys(entries)
      && Represents(buckets, hashId, entries)
    }

    constructor (size: nat, hashId: K -> nat, unset: K)
      requires size > 0
      ensures Valid() && fresh(table) && fresh(nodes) && entries == []
      ensures this.size == size && this.hashId == hashId
    {
      hide Sorted, Represents, Keys;
      this.size, this.hashId := size, hashId;
      var head := new THashElement<K, V>(0, unset);
      var cells := new THashElement<K, V>[size](_ => head);
      table, keys, entries := cells, [], [];
      ghost var none: seq<seq<Entry<K, V>>> := seq(size, _ => []);
      buckets := none;
      var chain := [[head]];
      var made := {head};
      var b := 1;
      while b < size
        invariant 1 <= b <= size && |chain| == b && head in made && head.home == 0
        invariant forall c :: 0 <= c < b ==> chain[c] == [cells[c]] && cells[c] in made && cells[c].home == c
        invariant forall n :: n in made ==> fresh(n) && n.obj == None && n.next == null
      {
        var cell := new THashElement<K, V>(b, unset);
        cells[b] := cell;
        chain := chain + [[cell]];
        made := made + {cell};
        b := b + 1;
      }
      chains, nodes := chain, made;
      new;
      NewTable();
    }

    /** One empty head in every cell: an empty dictionary. */
    lemma NewTable()
      requires size == table.Length == |chains| == |buckets| && size > 0 && keys == [] && entries == []
      requires forall c :: 0 <= c < size ==> chains[c] == [table[c]] && table[c] in nodes && table[c].home == c
      requires forall n :: n in nodes ==> n.obj == None && n.next == null
      requires forall c :: 0 <= c < size ==> buckets[c] == []
      ensures Valid()
    {
      hide Sorted, Represents;
      AllEmpty(buckets, hashId);
    }

    function Cell(key: K): (b: nat)
      requires size > 0
      ensures b < size
    {
      hashId(key) % size
    }

    /** The walk that all operations share. It stops at the key's element, at an empty head, or behind
        the end of the chain; last is the element whose next field led there. */
    method Walk(key: K) returns (found: THashElement?<K, V>, last: THashElement<K, V>, ghost i: nat)
      requires TableValid()
      ensures var chain, bucket := chains[Cell(key)], buckets[Cell(key)];
              && i <= |bucket| && i <= |chain| && |chain| > 0
              && found == (if i < |chain| then chain[i] else null)
              && last == chain[if i == 0 then 0 else i - 1]
              && (forall j :: 0 <= j < i ==> bucket[j].key != key)
              && (i < |bucket| ==> bucket[i].key == key)
              && (i < |bucket| <==> found != null && found.obj.Some?)
    {
      hide Sorted;
      found, last, i := table[Cell(key)], table[Cell(key)], 0;
      ghost var chain, bucket := chains[Cell(key)], buckets[Cell(key)];
      assert Linked(chain, bucket);
      while found != null && found.obj.Some? && found.key != key
        invariant i <= |chain| && found == (if i < |chain| then chain[i] else null)
        invariant last == chain[if i == 0 then 0 else i - 1]
        invariant i <= |bucket| && forall j :: 0 <= j < i ==> bucket[j].key != key
        decreases |chain| - i
      {
        last := found;
        found := found.next;
        i := i + 1;
      }
    }

    /** All four lookups: the value under the key. */
    method Get(key: K) returns (r: Option<V>)
      requires TableValid()
      ensures r == Find(buckets[Cell(key)], key)
      ensures Valid() ==> r == Find(entries, key)
    {
      hide Sorted;
      var found, last, i := Walk(key);
      assert Linked(chains[Cell(key)], buckets[Cell(key)]);
      FindAt(buckets[Cell(key)], i, key);
      if found != null && found.obj.Some? && found.key == key {
        r := found.obj;
      } else {
        r := None;
      }
    }

    /** The part of set that works on the table. */
    method SetInTable(key: K, v: V) returns (isNew: bool)
      requires TableValid()
      modifies this`chains, this`buckets, this`nodes, nodes
      ensures TableValid() && fresh(nodes - old(nodes))
      ensures buckets == old(buckets)[Cell(key) := Put(old(buckets)[Cell(key)], key, v)]
      ensures isNew <==> Find(old(buckets)[Cell(key)], key) == None
    {
      hide Sorted, Put, Keys, Find, Distinct, Linked, Housed;
      OfChain(table[..], chains, nodes, Cell(key));
      var found, last, i := Walk(key);
      ghost var b := Cell(key);
      ghost var chain, bucket := chains[b], buckets[b];
      PutAt(bucket, i, key, v);
      FindAt(bucket, i, key);
      PutSorted(buckets, hashId, key, v);
      isNew, chain := Store(found, last, key, v, b, chain, bucket, i);
      HousedChain(table[..], chains, nodes, b, chain);
      OtherChains(b);
      nodes := nodes + set n | n in chain;
      chains, buckets := chains[b := chain], buckets[b := Put(bucket, key, v)];
    }

    method Set(key: K, v: V)
      requires Valid()
      modifies this, nodes
      ensures Valid() && fresh(nodes - old(nodes))
      ensures entries == Put(old(entries), key, v)
    {
      hide TableValid, Represents, Put, Keys, Find, Distinct;
      TableShape();
      FindAgrees(buckets, hashId, entries, key);
      KeysPut(entries, key, v);
      PutRepresents(buckets, hashId, entries, key, v);
      var isNew := SetInTable(key, v);
      if isNew {
        keys := keys + [key];
      }
      entries := Put(entries, key, v);
    }

    method RemoveKeepingKey(key: K) returns (removed: bool)
      requires TableValid()
      modifies this`chains, this`buckets, nodes
      ensures TableValid()
      ensures buckets == old(buckets)[Cell(key) := OrderedMap.Remove(old(buckets)[Cell(key)], key)]
      ensures removed <==> Find(old(buckets)[Cell(key)], key).Some?
    {
      hide Keys, Find, Distinct, Linked, Housed, OrderedMap.Remove;
      OfChain(table[..], chains, nodes, Cell(key));
      var found, last, i := Walk(key);
      ghost var b := Cell(key);
      ghost var chain, bucket := chains[b], buckets[b];
      FindAt(bucket, i, key);
      RemoveSorted(buckets, hashId, key);
      removed := found != null && found.obj.Some?;
      if removed {
        RemoveAt(bucket, i, key);
        chain := Unlink(found, last, chain, bucket, i);
        HousedChain(table[..], chains, nodes, b, chain);
        OtherChains(b);
        assert nodes + (set n | n in chain) == nodes;
        chains, buckets := chains[b := chain], buckets[b := OrderedMap.Remove(bucket, key)];
      } else {
        RemoveMissing(bucket, key);
      }
    }

    method EraseKey(key: K)
      modifies this`keys
      ensures keys == Without(old(keys), key)
    {
      var it := 0;
      while it < |keys|
        invariant 0 <= it <= |keys|
        invariant keys[..it] + Without(keys[it..], key) == Without(old(keys), key)
        decreases |keys| - it
      {
        ghost var done, rest := keys[..it], keys[it..];
        if keys[it] == key {
          keys := keys[..it] + keys[it + 1..];
          assert keys[..it] == done && keys[it..] == rest[1..];
        } else {
          assert keys[..it + 1] == done + [rest[0]] && keys[it + 1..] == rest[1..];
          assert done + ([rest[0]] + Without(rest[1..], key)) == (done + [rest[0]]) + Without(rest[1..], key);
          it := it + 1;
        }
      }
    }

    method Remove(key: K)
      requires Valid()
      modifies this, nodes
      ensures Valid() && nodes == old(nodes)
      ensures entries == OrderedMap.Remove(old(entries), key)
    {
      hide TableValid, Represents, OrderedMap.Remove, Keys, Find, Distinct;
      TableShape();
      FindAgrees(buckets, hashId, entries, key);
      KeysRemove(entries, key);
      RemoveRepresents(buckets, hashId, entries, key);
      var removed := RemoveKeepingKey(key);
      if removed { // object has been removed, remove key
        EraseKey(key);
      } else {
        RemoveMissing(entries, key);
      }
      entries := OrderedMap.Remove(entries, key);
    }

    /** The first key, in insertion order, that holds the element. */
    method GetKey(v: V) returns (r: Option<K>)
      requires Valid()
      ensures r == Holder(entries, v)
      ensures r == None ==> forall e :: e in entries ==> e.value != v
      ensures r.Some? ==> exists i :: 0 <= i < |entries| && entries[i] == Entry(r.value, v)
                                      && forall j :: 0 <= j < i ==> entries[j].value != v
    {
      hide TableValid, Represents, Keys, Find, Distinct;
      var it := 0;
      while it < |keys|
        invariant 0 <= it <= |keys| && forall j :: 0 <= j < it ==> entries[j].value != v
      {
        var element := Get(keys[it]);
        EntriesDistinct();
        FindEntry(entries, it);
        if element == Some(v) {
          HolderAt(entries, it, v);
          assert entries[it] == Entry(keys[it], v);
          return Some(keys[it]);
        }
        it := it + 1;
      }
      HolderAt(entries, it, v);
      r := None;
    }

    method RemoveElement(v: V)
      requires Valid()
      modifies this, nodes
      ensures Valid() && nodes == old(nodes)
      ensures entries == WithoutValue(old(entries), v)
    {
      hide Valid, Holder, WithoutValue;
      var key := GetKey(v);
      while key.Some?
        invariant Valid() && nodes == old(nodes) && key == Holder(entries, v)
        invariant WithoutValue(entries, v) == WithoutValue(old(entries), v)
        decreases |entries|
      {
        EntriesDistinct();
        RemoveHolder(entries, v);
        Remove(key.value);
        key := GetKey(v);
      }
      HolderIsKey(entries, v);
    }

    method Clear()
      requires Valid()
      modifies this, nodes
      ensures Valid() && nodes == old(nodes)
      ensures entries == []
    {
      hide TableValid, Represents, OrderedMap.Remove, Keys, Find, Distinct;
      TableShape();
      var it := 0;
      while it < |keys|
        invariant 0 <= it <= |keys| == |entries| && TableValid()
        invariant unchanged(this`keys, this`entries, this`nodes)
        invariant |buckets| == size && Represents(buckets, hashId, entries[it..])
      {
        TableShape();
        DistinctTail(buckets, hashId, entries[it..]);
        RemoveRepresents(buckets, hashId, entries[it..], keys[it]);
        var removed := RemoveKeepingKey(keys[it]);
        it := it + 1;
      }
      assert entries[it..] == [];
      keys, entries := [], [];
      assert Keys(entries) == [];
    }

    /** The copy constructor, and assignment to a table that is still empty. */
    static method Copy(other: THash<K, V>, unset: K) returns (r: THash<K, V>)
      requires other.Valid()
      ensures fresh(r) && fresh(r.table) && fresh(r.nodes) && r.Valid()
      ensures r.entries == other.entries && r.size == other.size
    {
      hide THash.TableValid, Represents, Keys, Find, Distinct, Put;
      other.TableShape();
      r := new THash(other.size, other.hashId, unset);
      var it := 0;
      while it < |other.keys|
        invariant 0 <= it <= |other.keys| && r.size == other.size
        invariant fresh(r) && fresh(r.table) && fresh(r.nodes) && r.Valid()
        invariant r.entries == other.entries[..it]
      {
        var value := other.Get(other.keys[it]);
        other.EntriesDistinct();
        FindEntry(other.entries, it);
        NextEntry(other.entries, it);
        if value.Some? {
          r.Set(other.keys[it], value.value);
        }
        it := it + 1;
      }
    }

    /** operator==, which compares lookups and not the order of the keys. */
    method Equals(other: THash<K, V>) returns (r: bool)
      requires Valid() && other.Valid()
      ensures r <==> SameLookups(entries, other.entries)
    {
      hide TableValid, Represents, Keys, Find, Distinct, SameLookups;
      EntriesDistinct();
      other.EntriesDistinct();
      SameMap(entries, other.entries);
      if |keys| != |other.keys| {
        return false;
      }
      var it := 0;
      while it < |keys|
        invariant 0 <= it <= |keys|
        invariant forall j :: 0 <= j < it ==> Find(other.entries, entries[j].key) == Some(entries[j].value)
      {
        var val1 := Get(keys[it]);
        var val2 := other.Get(keys[it]);
        FindEntry(entries, it);
        if val1.Some? && val2.Some? {
          if val1.value != val2.value {
            return false;
          }
        } else {
          return false;
        }
        it := it + 1;
      }
      r := true;
    }

    /** Writing elements of one cell's chain leaves the chains of all other cells as they were. */
    twostate lemma OtherChains(new written: nat)
      requires old(TableValid()) && chains == old(chains) && buckets == old(buckets)
      requires forall n :: n in old(nodes) && n.home != written ==> unchanged(n)
      ensures forall c :: 0 <= c < |chains| && c != written ==> |chains| == |buckets| && Linked(chains[c], buckets[c])
    {
      hide Sorted;
      forall c | 0 <= c < |chains| && c != written
        ensures Linked(chains[c], buckets[c])
      {
        forall i | 0 <= i < |chains[c]|
          ensures unchanged(chains[c][i])
        {
          assert chains[c][i] in chains[c];
        }
      }
    }

    lemma TableShape()
      requires TableValid()
      ensures size == |buckets| == |chains| == table.Length && size > 0
    {
    }

    lemma EntriesDistinct()
      requires Valid()
      ensures Distinct(Keys(entries))
    {
    }
  }

  lemma DistinctTail<K(!new), V>(buckets: seq<seq<Entry<K, V>>>, hashId: K -> nat, es: seq<Entry<K, V>>)
    requires Represents(buckets, hashId, es) && es != []
    ensures Remove(es, es[0].key) == es[1..]
  {
    RemoveAt(es, 0, es[0].key);
  }

  lemma NotBefore<K, V>(es: seq<Entry<K, V>>, i: nat)
    requires Distinct(Keys(es)) && i < |es|
    ensures es[i].key !in Keys(es[..i])
  {
    hide Keys;
    forall j | 0 <= j < i
      ensures Keys(es[..i])[j] != es[i].key
    {
      assert Keys(es)[j] != Keys(es)[i];
    }
  }

  lemma NextEntry<K, V>(es: seq<Entry<K, V>>, i: nat)
    requires Distinct(Keys(es)) && i < |es|
    ensures Put(es[..i], es[i].key, es[i].value) == es[..i + 1]
  {
    hide Keys, Put, Distinct;
    NotBefore(es, i);
    PutNew(es[..i], es[i].key, es[i].value);
    TakeOneMore(es, i);
  }

  lemma TakeOneMore<T>(s: seq<T>, i: nat)
    requires i < |s|
    ensures s[..i + 1] == s[..i] + [s[i]]
  {
  }

  /* ---- any run of changes ---- */

  datatype Change<K, V> = SetTo(key: K, v: V) | RemoveKey(key: K) | RemoveValue(v: V) | ClearAll

  /** What one call does to the dictionary, as the methods above promise it. */
  function Changed<K(==), V(==)>(es: seq<Entry<K, V>>, c: Change<K, V>): seq<Entry<K, V>> {
    match c
    case SetTo(key, v) => Put(es, key, v)
    case RemoveKey(key) => Remove(es, key)
    case RemoveValue(v) => WithoutValue(es, v)
    case ClearAll => []
  }

  function Run<K(==), V(==)>(es: seq<Entry<K, V>>, changes: seq<Change<K, V>>): seq<Entry<K, V>>
    decreases |changes|
  {
    if changes == [] then es else Run(Changed(es, changes[0]), changes[1..])
  }

  /** The plain reference: a map, and its keys in the order in which they were first inserted. */
  datatype Reference<K, V> = Reference(values: map<K, V>, order: seq<K>)

  function Holding<K(==), V(==)>(order: seq<K>, values: map<K, V>, v: V): seq<K> {
    if order == [] then []
    else (if order[0] in values && values[order[0]] == v then [] else [order[0]]) + Holding(order[1..], values, v)
  }

  function ChangedReference<K(==), V(==)>(m: Reference<K, V>, c: Change<K, V>): Reference<K, V> {
    match c
    case SetTo(key, v) => Reference(m.values[key := v], if key in m.values then m.order else m.order + [key])
    case RemoveKey(key) => Reference(m.values - {key}, Without(m.order, key))
    case RemoveValue(v) =>
      Reference(map k | k in m.values && m.values[k] != v :: m.values[k], Holding(m.order, m.values, v))
    case ClearAll => Reference(map[], [])
  }

  function RunReference<K(==), V(==)>(m: Reference<K, V>, changes: seq<Change<K, V>>): Reference<K, V>
    decreases |changes|
  {
    if changes == [] then m else RunReference(ChangedReference(m, changes[0]), changes[1..])
  }

  function AsReference<K(==), V>(es: seq<Entry<K, V>>): Reference<K, V> {
    Reference(map k | k in Keys(es) :: Find(es, k).value, Keys(es))
  }

  lemma {:induction false} HoldingKeys<K, V>(es: seq<Entry<K, V>>, values: map<K, V>, v: V)
    requires Distinct(Keys(es))
    requires forall k :: k in Keys(es) ==> k in values && Find(es, k) == Some(values[k])
    ensures Keys(WithoutValue(es, v)) == Holding(Keys(es), values, v)
  {
    if es != [] {
      assert Keys(es)[1..] == Keys(es[1..]) && Keys(es)[0] !in Keys(es)[1..];
      forall k | k in Keys(es[1..])
        ensures k in values && Find(es[1..], k) == Some(values[k])
      {
        assert k in Keys(es);
      }
      HoldingKeys(es[1..], values, v);
      assert Keys(es)[0] in Keys(es);
    }
  }

  lemma SetAgrees<K(!new), V>(es: seq<Entry<K, V>>, key: K, v: V)
    requires Distinct(Keys(es))
    ensures Distinct(Keys(Put(es, key, v)))
    ensures AsReference(Put(es, key, v)) == ChangedReference(AsReference(es), SetTo(key, v))
  {
    hide Keys, Find, Put;
    KeysPut(es, key, v);
    forall k
      ensures Find(Put(es, key, v), k) == if k == key then Some(v) else Find(es, k)
    {
      FindPut(es, key, v, k);
    }
  }

  lemma RemoveAgrees<K(!new), V>(es: seq<Entry<K, V>>, key: K)
    requires Distinct(Keys(es))
    ensures Distinct(Keys(Remove(es, key)))
    ensures AsReference(Remove(es, key)) == ChangedReference(AsReference(es), RemoveKey(key))
  {
    hide Keys, Find, Remove, Without, Distinct;
    KeysRemove(es, key);
    WithoutMembers(Keys(es), key);
    WithoutDistinct(Keys(es), key);
    forall k
      ensures Find(Remove(es, key), k) == if k == key then None else Find(es, k)
    {
      FindRemove(es, key, k);
    }
  }

  lemma RemoveValueAgrees<K(!new), V>(es: seq<Entry<K, V>>, v: V)
    requires Distinct(Keys(es))
    ensures Distinct(Keys(WithoutValue(es, v)))
    ensures AsReference(WithoutValue(es, v)) == ChangedReference(AsReference(es), RemoveValue(v))
  {
    hide Keys, Find, WithoutValue, Holding, Distinct;
    HoldingKeys(es, AsReference(es).values, v);
    WithoutValueDistinct(es, v);
    forall k
      ensures Find(WithoutValue(es, v), k) == if Find(es, k) == Some(v) then None else Find(es, k)
    {
      FindWithoutValue(es, v, k);
    }
  }

  lemma OneChange<K(!new), V>(es: seq<Entry<K, V>>, c: Change<K, V>)
    requires Distinct(Keys(es))
    ensures Distinct(Keys(Changed(es, c)))
    ensures AsReference(Changed(es, c)) == ChangedReference(AsReference(es), c)
  {
    hide Keys, Distinct, Put, Remove, WithoutValue, AsReference;
    match c {
      case SetTo(key, v) => SetAgrees(es, key, v);
      case RemoveKey(key) => RemoveAgrees(es, key);
      case RemoveValue(v) => RemoveValueAgrees(es, v);
      case ClearAll => NothingLeft<K, V>();
    }
  }

  lemma NothingLeft<K, V>()
    ensures Distinct(Keys<K, V>([])) && AsReference<K, V>([]) == Reference(map[], [])
  {
  }

  /** After any run, from any state, the table's dictionary is the plain map, and its key list is free of
      duplicates and holds the live keys in the order of their first insertion. */
  lemma {:induction false} RunsAgree<K(!new), V>(es: seq<Entry<K, V>>, changes: seq<Change<K, V>>)
    requires Distinct(Keys(es))
    ensures Distinct(Keys(Run(es, changes)))
    ensures AsReference(Run(es, changes)) == RunReference(AsReference(es), changes)
    decreases |changes|
  {
    hide AsReference, Changed, ChangedReference, Keys, Distinct;
    if changes != [] {
      OneChange(es, changes[0]);
      RunsAgree(Changed(es, changes[0]), changes[1..]);
    }
  }
}
