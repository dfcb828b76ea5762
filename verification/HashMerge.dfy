/** deep_merge as it runs: hashes are shared objects with a reference count, the receiver's are changed
    in place, the argument's are only shared once more. */
module HashMerge {
  import opened Wrappers
  import opened OrderedMap
  import opened Values
  import DeepMerge

  /** A value inside a hash: a hash by reference, anything else by value. */
  datatype Cell = Plain(value: Value) | Nested(hash: Hash)

  type Cells = seq<Entry<Key, Cell>>

  class Hash {
    var refs: int
    var cells: Cells
    ghost var content: seq<Entry<Key, Value>> // what the cells mean
    ghost var region: set<Hash>               // this hash and all below it, while nobody shares them
  }

  ghost function Children(cells: Cells): set<Hash> {
    set e | e in cells && e.value.Nested? :: e.value.hash
  }

  /** The content is what the cells mean. */
  ghost predicate Means(cells: Cells, content: seq<Entry<Key, Value>>)
    reads Children(cells)`content
  {
    && |content| == |cells|
    && forall i :: 0 <= i < |cells| ==>
         && content[i].key == cells[i].key
         && assert cells[i] in cells; match cells[i].value
            case Plain(v) => !v.HashValue? && content[i].value == v
            case Nested(h) => content[i].value == HashValue(h.content)
  }

  /** A hash that nobody shares, down to the last hash in it. */
  ghost predicate Unshared(h: Hash)
    reads h, h.region
    decreases h.region
  {
    && h in h.region && h.refs == 1 && Distinct(Keys(h.cells))
    && Children(h.cells) <= h.region
    && Means(h.cells, h.content)
    && (forall c :: c in Children(h.cells) ==> c.region <= h.region - {h} && Unshared(c))
    && (forall i, j :: 0 <= i < j < |h.cells| && h.cells[i].value.Nested? && h.cells[j].value.Nested? ==>
          h.cells[i].value.hash.region !! h.cells[j].value.hash.region)
  }

  /** Hashes that mean something and refer only to each other. */
  ghost predicate Closed(B: set<Hash>)
    reads B`cells, B`content
  {
    forall h :: h in B ==> Children(h.cells) <= B && Distinct(Keys(h.cells)) && Means(h.cells, h.content)
  }

  /** The hashes under the keys still to come are unshared, and away from everything else. */
  ghost predicate Apart(cells: Cells, todo: set<Key>, R: set<Hash>)
    reads R
  {
    forall i :: 0 <= i < |cells| && cells[i].value.Nested? && cells[i].key in todo ==>
      var c := cells[i].value.hash;
      && c in R && c.region <= R && Unshared(c)
      && forall j :: 0 <= j < |cells| && j != i && cells[j].value.Nested? ==>
           var d := cells[j].value.hash;
           d !in c.region && (cells[j].key in todo ==> d in R && d.region !! c.region)
  }

  /** The receiver in the middle of the loop. */
  ghost predicate Working(cells: Cells, content: seq<Entry<Key, Value>>, todo: set<Key>, R: set<Hash>, B: set<Hash>)
    reads R, B`content
  {
    Distinct(Keys(cells)) && Children(cells) <= R + B && Means(cells, content) && Apart(cells, todo, R)
  }

  /** What the loop is at: the receiver's cells and meaning, the keys to come, the receiver's other hashes
      and the argument's. */
  datatype Turn = Turn(cells: Cells, content: seq<Entry<Key, Value>>, todo: set<Key>, R: set<Hash>, B: set<Hash>)

  lemma StartsWorking(a: Hash, B: set<Hash>)
    requires Unshared(a) && a.region !! B
    ensures a in a.region && a.refs == 1 && Working(a.cells, a.content, set e | e in a.cells :: e.key, a.region - {a}, B)
  {
  }

  /** T holds the hashes that the loop is done with: what they mean can be read from their cells, down to
      the last hash, and nothing that is still to come can disturb them. */
  ghost predicate Finished(cells: Cells, todo: set<Key>, T: set<Hash>, R: set<Hash>, B: set<Hash>)
    reads T`cells, T`content, T`refs, B`cells, B`content, R`region
  {
    && T <= R && Closed(T + B) && (forall h :: h in T ==> h.refs == 1)
    && forall i :: 0 <= i < |cells| && cells[i].value.Nested? ==>
         var c := cells[i].value.hash;
         if cells[i].key in todo then c in R && c.region !! T else c in T + B
  }

  /** All that can be reached from a hash that nobody shares. */
  lemma {:induction false} Reached(h: Hash) returns (T: set<Hash>)
    requires Unshared(h)
    ensures h in T && T <= h.region && Closed(T) && forall x :: x in T ==> x.refs == 1
    decreases h.region
  {
    hide Keys, Distinct, Means;
    T := {h};
    var i := 0;
    while i < |h.cells|
      invariant i <= |h.cells| && h in T && T <= h.region && forall x :: x in T ==> x.refs == 1
      invariant forall x :: x in T && x != h ==> Children(x.cells) <= T && Distinct(Keys(x.cells)) && Means(x.cells, x.content)
      invariant forall j :: 0 <= j < i && h.cells[j].value.Nested? ==> h.cells[j].value.hash in T
    {
      if h.cells[i].value.Nested? {
        assert h.cells[i] in h.cells && h.cells[i].value.hash in Children(h.cells);
        var U := Reached(h.cells[i].value.hash);
        T := T + U;
      }
      i := i + 1;
    }
  }

  /** At the start the loop is done with the hashes under keys that the argument does not have. */
  lemma {:induction false} StartsFinished(a: Hash, todo: set<Key>, B: set<Hash>) returns (T: set<Hash>)
    requires Unshared(a) && a.region !! B && Closed(B)
    ensures Finished(a.cells, todo, T, a.region - {a}, B)
  {
    hide Keys, Distinct, Means;
    T := {};
    var i := 0;
    while i < |a.cells|
      invariant i <= |a.cells| && T <= a.region - {a} && Closed(T + B) && forall x :: x in T ==> x.refs == 1
      invariant forall j :: 0 <= j < i && a.cells[j].value.Nested? && a.cells[j].key !in todo ==> a.cells[j].value.hash in T
      invariant forall j :: 0 <= j < |a.cells| && a.cells[j].value.Nested? && (j >= i || a.cells[j].key in todo) ==>
                  a.cells[j].value.hash.region !! T
    {
      if a.cells[i].value.Nested? && a.cells[i].key !in todo {
        assert a.cells[i] in a.cells && a.cells[i].value.hash in Children(a.cells);
        var U := Reached(a.cells[i].value.hash);
        assert Closed(U + B);
        ClosedUnion(T, U, B);
        T := T + U;
      }
      i := i + 1;
    }
    assert forall e :: e in a.cells && e.value.Nested? ==> e.value.hash in Children(a.cells);
  }

  lemma ClosedUnion(T: set<Hash>, U: set<Hash>, B: set<Hash>)
    requires Closed(T + B) && Closed(U + B)
    ensures Closed(T + U + B)
  {
    hide Keys, Distinct, Means, Children;
  }

  lemma OneKey(cells: Cells, i: nat, j: nat)
    requires Distinct(Keys(cells)) && i < |cells| && j < |cells| && cells[i].key == cells[j].key
    ensures i == j
  {
  }

  /** Merging into the hash under one key leaves everything else as it was. */
  twostate lemma MergedInto(t: Turn, new p: nat)
    requires old(Working(t.cells, t.content, t.todo, t.R, t.B)) && p < |t.cells| && t.cells[p].value.Nested? && t.cells[p].key in t.todo
    requires t.R !! t.B
    requires forall h :: h in t.R && h !in old(t.cells[p].value.hash.region) ==> unchanged(h)
    requires forall h :: h in t.B ==> h.content == old(h.content)
    ensures Working(t.cells, t.content[p := Entry(t.cells[p].key, HashValue(t.cells[p].value.hash.content))],
                    t.todo - {t.cells[p].key}, t.R, t.B)
  {
    hide Keys, Distinct;
    var c := t.cells[p].value.hash;
    forall i | 0 <= i < |t.cells| && i != p && t.cells[i].value.Nested?
      ensures t.cells[i].value.hash.content == old(t.cells[i].value.hash.content)
    {
      assert t.cells[i] in t.cells && t.cells[i].value.hash in Children(t.cells);
    }
    forall i | 0 <= i < |t.cells| && t.cells[i].value.Nested? && t.cells[i].key in t.todo - {t.cells[p].key}
      ensures unchanged(t.cells[i].value.hash) && Unshared(t.cells[i].value.hash)
    {
      assert t.cells[i] in t.cells && i != p;
    }
  }

  /** The hash under that key, with all that was merged into it, is done with. */
  twostate lemma MergedFinished(t: Turn, new p: nat, new T: set<Hash>, new U: set<Hash>)
    requires old(Working(t.cells, t.content, t.todo, t.R, t.B)) && p < |t.cells| && t.cells[p].value.Nested? && t.cells[p].key in t.todo
    requires old(allocated(T)) && t.R !! t.B && old(Finished(t.cells, t.todo, T, t.R, t.B))
    requires forall h :: h in t.R && h !in old(t.cells[p].value.hash.region) ==> unchanged(h)
    requires forall h :: h in t.B ==> h.cells == old(h.cells) && h.content == old(h.content)
    requires t.cells[p].value.hash in U && U <= old(t.cells[p].value.hash.region) && Closed(U + t.B)
    requires forall h :: h in U ==> h.refs == 1
    ensures Finished(t.cells, t.todo - {t.cells[p].key}, T + U, t.R, t.B)
  {
    hide Keys, Distinct, Means, Unshared;
    assert forall h :: h in T ==> unchanged(h);
    forall i | 0 <= i < |t.cells| && t.cells[i].value.Nested? && t.cells[i].key in t.todo - {t.cells[p].key}
      ensures unchanged(t.cells[i].value.hash) && t.cells[i].value.hash.region !! U
    {
      assert t.cells[i] in t.cells && i != p;
    }
    forall i | 0 <= i < |t.cells| && t.cells[i].value.Nested? && t.cells[i].key !in t.todo - {t.cells[p].key}
      ensures t.cells[i].value.hash in T + U + t.B
    {
      if i != p && t.cells[i].key == t.cells[p].key {
        OneKey(t.cells, i, p);
      }
    }
    StillClosed(T, t.B);
    ClosedUnion(T, U, t.B);
  }

  twostate lemma StillClosed(T: set<Hash>, new B: set<Hash>)
    requires old(allocated(B)) && old(Closed(T + B))
    requires forall h :: h in T + B ==> h.cells == old(h.cells) && h.content == old(h.content)
    ensures Closed(T + B)
  {
    hide Keys, Distinct;
  }

  /** A cell that stands for a value, and belongs to the argument if it is a hash. */
  ghost predicate Stands(cell: Cell, v: Value, B: set<Hash>)
    reads B`content
  {
    match cell
    case Plain(w) => !w.HashValue? && v == w
    case Nested(h) => h in B && v == HashValue(h.content)
  }

  /** Both sequences have the key at the same place. */
  lemma PutBoth(cells: Cells, content: seq<Entry<Key, Value>>, todo: set<Key>, R: set<Hash>, B: set<Hash>, key: Key, cell: Cell, v: Value)
    returns (p: nat)
    requires Working(cells, content, todo, R, B)
    ensures p <= |cells| == |content| && (forall j :: 0 <= j < p ==> cells[j].key != key) && (p < |cells| ==> cells[p].key == key)
    ensures forall i :: 0 <= i < |cells| && cells[i].key == key ==> i == p
    ensures p == |cells| <==> Find(cells, key) == None
    ensures p < |cells| ==> Find(cells, key) == Some(cells[p].value) && Find(content, key) == Some(content[p].value)
    ensures Find(cells, key).Some? <==> Find(content, key).Some?
    ensures Put(cells, key, cell) == if p < |cells| then cells[p := Entry(key, cell)] else cells + [Entry(key, cell)]
    ensures Put(content, key, v) == if p < |cells| then content[p := Entry(key, v)] else content + [Entry(key, v)]
    ensures p < |cells| ==> Remove(cells, key) == cells[..p] + cells[p + 1..]
    ensures p < |cells| ==> Remove(content, key) == content[..p] + content[p + 1..]
  {
    hide Unshared;
    p := 0;
    while p < |cells| && cells[p].key != key
      invariant p <= |cells| && forall j :: 0 <= j < p ==> cells[j].key != key
    {
      p := p + 1;
    }
    SameKeys(cells, content);
    forall i | 0 <= i < |cells| && cells[i].key == key
      ensures i == p
    {
      if p < |cells| {
        OneKey(cells, i, p);
      }
    }
    FindAt(cells, p, key);
    FindAt(content, p, key);
    PutAt(cells, p, key, cell);
    PutAt(content, p, key, v);
    if p < |cells| {
      RemoveAt(cells, p, key);
      RemoveAt(content, p, key);
    }
  }

  lemma {:induction false} SameKeys<V, W>(a: seq<Entry<Key, V>>, b: seq<Entry<Key, W>>)
    requires |a| == |b| && forall i :: 0 <= i < |a| ==> a[i].key == b[i].key
    ensures Keys(a) == Keys(b)
  {
  }

  lemma AssignedAt(cells: Cells, content: seq<Entry<Key, Value>>, todo: set<Key>,
                   R: set<Hash>, B: set<Hash>, key: Key, cell: Cell, v: Value, p: nat)
    requires Working(cells, content, todo, R, B) && R !! B && p <= |cells|
    requires (forall j :: 0 <= j < p ==> cells[j].key != key) && (p < |cells| ==> cells[p].key == key)
    requires Stands(cell, v, B)
    ensures var after := if p < |cells| then cells[p := Entry(key, cell)] else cells + [Entry(key, cell)];
            var meaning := if p < |cells| then content[p := Entry(key, v)] else content + [Entry(key, v)];
            Working(after, meaning, todo - {key}, R, B)
  {
    hide Unshared, Apart, Keys;
    var after := if p < |cells| then cells[p := Entry(key, cell)] else cells + [Entry(key, cell)];
    assert forall e :: e in after ==> e in cells || e == Entry(key, cell);
    KeysAfter(cells, key, cell, p);
    ApartAfter(cells, todo, R, B, key, cell, p);
  }

  lemma KeysAfter(cells: Cells, key: Key, cell: Cell, p: nat)
    requires Distinct(Keys(cells)) && p <= |cells|
    requires (forall j :: 0 <= j < p ==> cells[j].key != key) && (p < |cells| ==> cells[p].key == key)
    ensures Distinct(Keys(if p < |cells| then cells[p := Entry(key, cell)] else cells + [Entry(key, cell)]))
  {
    hide Keys;
    var after := if p < |cells| then cells[p := Entry(key, cell)] else cells + [Entry(key, cell)];
    assert forall i :: 0 <= i < |after| ==> Keys(after)[i] == if i < |cells| then Keys(cells)[i] else key;
  }

  lemma ApartAfter(cells: Cells, todo: set<Key>, R: set<Hash>, B: set<Hash>, key: Key, cell: Cell, p: nat)
    requires Apart(cells, todo, R) && R !! B && p <= |cells|
    requires (forall j :: 0 <= j < p ==> cells[j].key != key) && (p < |cells| ==> cells[p].key == key)
    requires cell.Nested? ==> cell.hash in B
    ensures Apart(if p < |cells| then cells[p := Entry(key, cell)] else cells + [Entry(key, cell)], todo - {key}, R)
  {
    hide Unshared;
    var after := if p < |cells| then cells[p := Entry(key, cell)] else cells + [Entry(key, cell)];
    assert forall i :: 0 <= i < |after| && i != p ==> after[i] == cells[i];
  }

  lemma FinishedInside(cells: Cells, todo: set<Key>, T: set<Hash>, R: set<Hash>, B: set<Hash>)
    requires Finished(cells, todo, T, R, B)
    ensures T <= R
  {
  }

  /** What stands under a key to come is not among the finished hashes. */
  lemma NotYet(cells: Cells, content: seq<Entry<Key, Value>>, todo: set<Key>, T: set<Hash>, R: set<Hash>, B: set<Hash>, p: nat)
    requires Working(cells, content, todo, R, B) && Finished(cells, todo, T, R, B)
    requires p < |cells| && cells[p].key in todo && cells[p].value.Nested?
    ensures cells[p].value.hash in R - T
  {
  }

  lemma FinishedAssigned(cells: Cells, todo: set<Key>, T: set<Hash>, R: set<Hash>, B: set<Hash>, key: Key, cell: Cell, p: nat)
    requires Finished(cells, todo, T, R, B) && p <= |cells| && (p < |cells| ==> cells[p].key == key)
    requires forall i :: 0 <= i < |cells| && cells[i].key == key ==> i == p
    requires cell.Nested? ==> cell.hash in B
    ensures Finished(if p < |cells| then cells[p := Entry(key, cell)] else cells + [Entry(key, cell)], todo - {key}, T, R, B)
  {
    hide Closed;
  }

  lemma FinishedRemoved(cells: Cells, todo: set<Key>, T: set<Hash>, R: set<Hash>, B: set<Hash>, p: nat)
    requires Finished(cells, todo, T, R, B) && p < |cells|
    requires forall i :: 0 <= i < |cells| && cells[i].key == cells[p].key ==> i == p
    ensures Finished(cells[..p] + cells[p + 1..], todo - {cells[p].key}, T, R, B)
  {
    hide Closed;
    var after := cells[..p] + cells[p + 1..];
    assert forall i :: 0 <= i < |after| ==> after[i] == cells[if i < p then i else i + 1];
  }

  lemma RemovedAt(cells: Cells, content: seq<Entry<Key, Value>>, todo: set<Key>, R: set<Hash>, B: set<Hash>, p: nat)
    requires Working(cells, content, todo, R, B) && p < |cells|
    ensures Working(cells[..p] + cells[p + 1..], content[..p] + content[p + 1..], todo - {cells[p].key}, R, B)
  {
    hide Unshared, Apart, Keys;
    var after, meaning := cells[..p] + cells[p + 1..], content[..p] + content[p + 1..];
    assert forall i :: 0 <= i < |after| ==> after[i] == cells[if i < p then i else i + 1];
    assert forall i :: 0 <= i < |after| ==> meaning[i] == content[if i < p then i else i + 1];
    assert forall e :: e in after ==> e in cells;
    KeysWithout(cells, p);
    ApartWithout(cells, todo, R, p);
  }

  lemma KeysWithout(cells: Cells, p: nat)
    requires Distinct(Keys(cells)) && p < |cells|
    ensures Distinct(Keys(cells[..p] + cells[p + 1..]))
  {
    hide Keys, Distinct, Remove, Without;
    RemoveAt(cells, p, cells[p].key);
    KeysRemove(cells, cells[p].key);
    WithoutDistinct(Keys(cells), cells[p].key);
  }

  lemma ApartWithout(cells: Cells, todo: set<Key>, R: set<Hash>, p: nat)
    requires Apart(cells, todo, R) && p < |cells|
    ensures Apart(cells[..p] + cells[p + 1..], todo - {cells[p].key}, R)
  {
    hide Unshared;
    var after := cells[..p] + cells[p + 1..];
    assert forall i :: 0 <= i < |after| ==> after[i] == cells[if i < p then i else i + 1];
  }

  /* ---- the merge ---- */

  /** The hash that a cell holds on to. */
  function Held(cell: Option<Cell>): set<Hash> {
    if cell.Some? && cell.value.Nested? then {cell.value.hash} else {}
  }

  /** Value::set on a hash that is not shared: what was under the key is released, the new value's hash is
      acquired. */
  method SetCell(h: Hash, key: Key, was: Option<Cell>, cell: Cell)
    requires was == Find(h.cells, key)
    modifies h`cells, Held(was)`refs, Held(Some(cell))`refs
    ensures h.cells == Put(old(h.cells), key, cell)
    ensures forall c :: c in Held(was) - Held(Some(cell)) ==> c.refs == old(c.refs) - 1
    ensures forall c :: c in Held(Some(cell)) ==> c.refs == old(c.refs) + if c in Held(was) then 0 else 1
  {
    if was.Some? && was.value.Nested? {
      was.value.hash.refs := was.value.hash.refs - 1;
    }
    if cell.Nested? {
      cell.hash.refs := cell.hash.refs + 1;
    }
    h.cells := Put(h.cells, key, cell);
  }

  /** Value::remove, in the same way. */
  method RemoveCell(h: Hash, key: Key, was: Option<Cell>)
    requires was == Find(h.cells, key)
    modifies h`cells, Held(was)`refs
    ensures h.cells == Remove(old(h.cells), key)
    ensures forall c :: c in Held(was) ==> c.refs == old(c.refs) - 1
  {
    if was.Some? && was.value.Nested? {
      was.value.hash.refs := was.value.hash.refs - 1;
    }
    h.cells := Remove(h.cells, key);
  }

  /** The keys of the entries from i on. */
  ghost function KeysFrom(cells: Cells, i: nat): set<Key>
    requires i <= |cells|
    decreases |cells| - i
  {
    if i == |cells| then {} else {cells[i].key} + KeysFrom(cells, i + 1)
  }

  lemma {:induction false} NotLater(cells: Cells, i: nat, j: nat)
    requires Distinct(Keys(cells)) && i < j <= |cells|
    ensures cells[i].key !in KeysFrom(cells, j)
    decreases |cells| - j
  {
    hide Keys, Distinct;
    if j < |cells| {
      NotLater(cells, i, j + 1);
      if cells[i].key == cells[j].key {
        OneKey(cells, i, j);
      }
    }
  }

  lemma OneKeyLess(cells: Cells, i: nat)
    requires Distinct(Keys(cells)) && i < |cells|
    ensures cells[i].key in KeysFrom(cells, i) && KeysFrom(cells, i) - {cells[i].key} == KeysFrom(cells, i + 1)
  {
    hide Keys, Distinct;
    NotLater(cells, i, i + 1);
  }

  lemma EveryKey(a: Hash, cells: Cells, R: set<Hash>, B: set<Hash>)
    requires Working(a.cells, a.content, set e | e in a.cells :: e.key, R, B)
    ensures Working(a.cells, a.content, KeysFrom(cells, 0), R, B)
  {
    hide Working;
    MoreKeys(a.cells, a.content, set e | e in a.cells :: e.key, KeysFrom(cells, 0), R, B);
  }

  lemma MoreKeys(cells: Cells, content: seq<Entry<Key, Value>>, todo: set<Key>, fewer: set<Key>, R: set<Hash>, B: set<Hash>)
    requires Working(cells, content, todo, R, B) && forall i :: 0 <= i < |cells| && cells[i].key in fewer ==> cells[i].key in todo
    ensures Working(cells, content, fewer, R, B)
  {
    hide Keys, Distinct, Unshared;
  }

  lemma NextKey(a: seq<Entry<Key, Value>>, b: seq<Entry<Key, Value>>, i: nat)
    requires i < |b|
    ensures DeepMerge.Merge(a, b[i..]) == DeepMerge.Merge(DeepMerge.MergeOne(a, b[i].key, b[i].value), b[i + 1..])
  {
    hide DeepMerge.MergeOne;
    assert b[i..][1..] == b[i + 1..];
  }

  lemma NothingMore(a: seq<Entry<Key, Value>>, b: seq<Entry<Key, Value>>)
    requires b == []
    ensures DeepMerge.Merge(a, b) == a
  {
  }

  /** The turn for a key that is a hash on both sides. */
  method MergeNested(a: Hash, key: Key, c: Hash, cb: Hash,
                     ghost todo: set<Key>, ghost T: set<Hash>, ghost R: set<Hash>, ghost B: set<Hash>)
    returns (ghost after: set<Hash>)
    requires Working(a.cells, a.content, todo, R, B) && Finished(a.cells, todo, T, R, B) && Closed(B) && R !! B && a !in R && a !in B
    requires key in todo && Find(a.cells, key) == Some(Nested(c)) && cb in B
    modifies R, a`content, B`refs
    ensures Working(a.cells, a.content, todo - {key}, R, B) && Finished(a.cells, todo - {key}, after, R, B)
    ensures a.cells == old(a.cells) && T + {c} <= after <= T + old(c.region)
    ensures a.content == DeepMerge.MergeOne(old(a.content), key, HashValue(cb.content))
    ensures forall h :: h in B ==> h.cells == old(h.cells) && h.content == old(h.content) && h.refs >= old(h.refs)
    decreases cb.content, 1
  {
    hide Distinct, Keys, Put, Remove, Find, DeepMerge.Merge;
    ghost var p := PutBoth(a.cells, a.content, todo, R, B, key, Nested(c), NilValue);
    assert Apart(a.cells, todo, R) && a.cells[p].value == Nested(c) && a.cells[p] in a.cells;
    label before:
    ghost var done := SDeepMerge(c, cb, B);
    MergedInto@before(Turn(a.cells, a.content, todo, R, B), p);
    MergedFinished@before(Turn(a.cells, a.content, todo, R, B), p, T, done);
    after := T + done;
    PutAt(a.content, p, key, HashValue(c.content));
    a.content := Put(a.content, key, HashValue(c.content));
  }

  /** Releasing what is under one key disturbs none of the keys to come after it. */
  twostate lemma OneReleased(t: Turn, new p: nat, new key: Key)
    requires old(Working(t.cells, t.content, t.todo, t.R, t.B)) && p <= |t.cells| && (p < |t.cells| ==> t.cells[p].key == key)
    requires forall i :: 0 <= i < |t.cells| && t.cells[i].key == key ==> i == p
    requires forall h :: h in t.R && (p < |t.cells| && t.cells[p].value.Nested? ==> h != t.cells[p].value.hash) ==> unchanged(h)
    requires forall h :: h in t.R + t.B ==> h.content == old(h.content)
    ensures Working(t.cells, t.content, t.todo - {key}, t.R, t.B)
  {
    hide Keys, Distinct;
    forall i | 0 <= i < |t.cells| && t.cells[i].value.Nested?
      ensures t.cells[i].value.hash.content == old(t.cells[i].value.hash.content)
    {
      assert t.cells[i] in t.cells && t.cells[i].value.hash in Children(t.cells);
    }
    forall i | 0 <= i < |t.cells| && t.cells[i].value.Nested? && t.cells[i].key in t.todo - {key}
      ensures unchanged(t.cells[i].value.hash) && Unshared(t.cells[i].value.hash)
    {
      assert t.cells[i] in t.cells && i != p;
    }
  }

  /** The turn for a key that takes the argument's value. */
  method AssignKey(a: Hash, key: Key, valB: Cell, ghost v: Value,
                   ghost todo: set<Key>, ghost T: set<Hash>, ghost R: set<Hash>, ghost B: set<Hash>)
    requires Working(a.cells, a.content, todo, R, B) && Finished(a.cells, todo, T, R, B) && R !! B && a !in R && a !in B && key in todo
    requires Stands(valB, v, B)
    requires Find(a.cells, key) == None || (!v.NilValue? && (Find(a.cells, key).value.Plain? || valB.Plain?))
    modifies R`refs, a`cells, a`content, B`refs
    ensures Working(a.cells, a.content, todo - {key}, R, B) && Finished(a.cells, todo - {key}, T, R, B)
    ensures a.cells == Put(old(a.cells), key, valB)
    ensures a.content == DeepMerge.MergeOne(old(a.content), key, v)
    ensures forall h :: h in B ==> h.refs == old(h.refs) + if valB == Nested(h) then 1 else 0
  {
    hide Distinct, Keys, Put, Remove, Find, Unshared, Finished;
    FinishedInside(a.cells, todo, T, R, B);
    ghost var p := PutBoth(a.cells, a.content, todo, R, B, key, valB, v);
    if p < |a.cells| && a.cells[p].value.Nested? {
      NotYet(a.cells, a.content, todo, T, R, B, p);
    }
    var was := Find(a.cells, key);
    SetCell(a, key, was, valB);
    OneReleased(Turn(old(a.cells), a.content, todo, R, B), p, key);
    AssignedAt(old(a.cells), a.content, todo - {key}, R, B, key, valB, v, p);
    FinishedAssigned(old(a.cells), todo, T, R, B, key, valB, p);
    a.content := Put(a.content, key, v);
  }

  /** The turn for a key that the argument sets to nil. */
  method DropKey(a: Hash, key: Key, ghost todo: set<Key>, ghost T: set<Hash>, ghost R: set<Hash>, ghost B: set<Hash>)
    requires Working(a.cells, a.content, todo, R, B) && Finished(a.cells, todo, T, R, B) && R !! B && a !in R && a !in B && key in todo
    requires Find(a.cells, key).Some?
    modifies R`refs, a`cells, a`content
    ensures Working(a.cells, a.content, todo - {key}, R, B) && Finished(a.cells, todo - {key}, T, R, B)
    ensures a.cells == Remove(old(a.cells), key)
    ensures a.content == DeepMerge.MergeOne(old(a.content), key, NilValue)
  {
    hide Distinct, Keys, Put, Remove, Find, Unshared, Finished;
    FinishedInside(a.cells, todo, T, R, B);
    ghost var p := PutBoth(a.cells, a.content, todo, R, B, key, Plain(NilValue), NilValue);
    if a.cells[p].value.Nested? {
      NotYet(a.cells, a.content, todo, T, R, B, p);
    }
    var was := Find(a.cells, key);
    RemoveCell(a, key, was);
    OneReleased(Turn(old(a.cells), a.content, todo, R, B), p, key);
    RemovedAt(old(a.cells), a.content, todo - {key}, R, B, p);
    FinishedRemoved(old(a.cells), todo, T, R, B, p);
    a.content := Remove(a.content, key);
  }

  lemma FinishedAll(a: Hash, T: set<Hash>, R: set<Hash>, B: set<Hash>)
    requires Working(a.cells, a.content, {}, R, B) && Finished(a.cells, {}, T, R, B) && a.refs == 1
    ensures Closed(T + {a} + B) && forall h :: h in T + {a} ==> h.refs == 1
  {
    hide Distinct, Keys, Means;
    assert forall e :: e in a.cells ==> exists i :: 0 <= i < |a.cells| && a.cells[i] == e;
  }

  /** s_deep_merge. Nobody shares the receiver, so detach hands back the hash itself. Afterwards it means
      the merge of what both meant, and it is closed: what every hash below it means can be read from that
      hash's own cells. The argument means and holds what it did, though it may be shared more; hashes of
      neither are not touched. */
  method SDeepMerge(a: Hash, b: Hash, ghost B: set<Hash>) returns (ghost T: set<Hash>)
    requires Unshared(a) && b in B && Closed(B) && a.region !! B
    modifies a.region, B`refs
    ensures a.content == DeepMerge.Merge(old(a.content), b.content)
    ensures forall h :: h in B ==> h.cells == old(h.cells) && h.content == old(h.content) && h.refs >= old(h.refs)
    ensures a in T && T <= old(a.region) && Closed(T + B) && forall h :: h in T ==> h.refs == 1
    decreases b.content, 0
  {
    hide Distinct, Keys, Put, Remove, Find, DeepMerge.Merge, DeepMerge.MergeOne, Unshared, Working, KeysFrom, Finished;
    ghost var R := a.region - {a};
    StartsWorking(a, B);
    EveryKey(a, b.cells, R, B);
    T := StartsFinished(a, KeysFrom(b.cells, 0), B);
    var i := 0;
    while i < |b.cells|
      invariant 0 <= i <= |b.cells|
      invariant forall h :: h in B ==> h.cells == old(h.cells) && h.content == old(h.content) && h.refs >= old(h.refs)
      invariant Working(a.cells, a.content, KeysFrom(b.cells, i), R, B)
      invariant Finished(a.cells, KeysFrom(b.cells, i), T, R, B) && a.refs == 1
      invariant DeepMerge.Merge(a.content, b.content[i..]) == DeepMerge.Merge(old(a.content), b.content)
    {
      var key, valB := b.cells[i].key, b.cells[i].value;
      var valA := Find(a.cells, key);
      OneKeyLess(b.cells, i);
      NextKey(a.content, b.content, i);
      assert (b.content decreases to b.content[i]) && (b.content[i] decreases to b.content[i].value);
      if valA.Some? && valA.value.Nested? && valB.Nested? {
        T := MergeNested(a, key, valA.value.hash, valB.hash, KeysFrom(b.cells, i), T, R, B);
      } else if valA.Some? && valB == Plain(NilValue) {
        DropKey(a, key, KeysFrom(b.cells, i), T, R, B);
      } else {
        AssignKey(a, key, valB, b.content[i].value, KeysFrom(b.cells, i), T, R, B);
      }
      i := i + 1;
    }
    NothingMore(a.content, b.content[i..]);
    NoKeys(b.cells);
    FinishedInside(a.cells, {}, T, R, B);
    FinishedAll(a, T, R, B);
    T := T + {a};
  }

  lemma NoKeys(cells: Cells)
    ensures KeysFrom(cells, |cells|) == {}
  {
  }

  /* ---- what is read from the cells alone ---- */

  /** The entries from i on, read from the cells of the hash and of those below it. */
  ghost function ReadFrom(h: Hash, i: nat, S: set<Hash>): seq<Entry<Key, Value>>
    requires Closed(S) && h in S && i <= |h.cells|
    reads S`cells, S`content
    decreases h.content, |h.cells| - i
  {
    if i == |h.cells| then [] else
      assert h.cells[i] in h.cells;
      var v := match h.cells[i].value
        case Plain(v) => v
        case Nested(c) =>
          assert c in Children(h.cells);
          assert (h.content decreases to h.content[i]) && (h.content[i] decreases to h.content[i].value)
              && (h.content[i].value decreases to c.content);
          HashValue(ReadFrom(c, 0, S));
      [Entry(h.cells[i].key, v)] + ReadFrom(h, i + 1, S)
  }

  ghost function Read(h: Hash, S: set<Hash>): seq<Entry<Key, Value>>
    requires Closed(S) && h in S
    reads S`cells, S`content
  {
    ReadFrom(h, 0, S)
  }

  /** In a closed set, what a hash is said to mean is what its cells say, at every depth. */
  lemma {:induction false} ReadBack(h: Hash, i: nat, S: set<Hash>)
    requires Closed(S) && h in S && i <= |h.cells|
    ensures ReadFrom(h, i, S) == h.content[i..]
    decreases h.content, |h.cells| - i
  {
    hide Keys, Distinct;
    if i < |h.cells| {
      assert h.cells[i] in h.cells;
      if h.cells[i].value.Nested? {
        var c := h.cells[i].value.hash;
        assert c in Children(h.cells);
        assert (h.content decreases to h.content[i]) && (h.content[i] decreases to h.content[i].value)
            && (h.content[i].value decreases to c.content);
        ReadBack(c, 0, S);
        assert c.content[0..] == c.content;
      }
      ReadBack(h, i + 1, S);
      assert h.content[i..] == [h.content[i]] + h.content[i + 1..];
    }
  }

  lemma ReadAll(h: Hash, S: set<Hash>)
    requires Closed(S) && h in S
    ensures Read(h, S) == h.content
  {
    ReadBack(h, 0, S);
    assert h.content[0..] == h.content;
  }

  /** deep_merge: nothing happens unless both values are hashes. What is then read from the receiver's
      cells, at every depth, is the merge of what was read from both before; the argument still reads as it
      did. */
  method DeepMergeValue(self: Cell, other: Cell, ghost A: set<Hash>, ghost B: set<Hash>) returns (ghost T: set<Hash>)
    requires self.Nested? && other.Nested? ==>
               && Unshared(self.hash) && self.hash in A && Closed(A) && A <= self.hash.region
               && other.hash in B && Closed(B) && self.hash.region !! B
    modifies if self.Nested? && other.Nested? then self.hash.region else {}
    modifies (if self.Nested? && other.Nested? then B else {})`refs
    ensures self.Nested? && other.Nested? ==>
              && self.hash in T && T <= old(self.hash.region) && Closed(T + B) && Closed(B)
              && (forall h :: h in T ==> h.refs == 1)
              && Read(self.hash, T + B) == DeepMerge.Merge(old(Read(self.hash, A)), old(Read(other.hash, B)))
              && Read(other.hash, B) == old(Read(other.hash, B))
              && forall h :: h in B ==> h.cells == old(h.cells) && h.refs >= old(h.refs)
  {
    T := {};
    if !self.Nested? || !other.Nested? {
      return;
    }
    ReadAll(self.hash, A);
    ReadAll(other.hash, B);
    T := SDeepMerge(self.hash, other.hash, B);
    StillClosed({}, B);
    ReadAll(self.hash, T + B);
    ReadAll(other.hash, B);
  }
}
