/** The object tree and the index from urls to objects that its root keeps. */
module ObjectTree {
  import opened Bytes
  import opened OrderedMap
  import opened Names
  import opened Values

  type Url = seq<Byte>

  /** What the structure of the tree says of an object: the objects from the top down to it, the name it is
      known by, its url, and the root above it. */
  datatype Place = Place(line: seq<Object>, name: Name, url: Url, root: Object?)

  type Plan = map<Object, Place>

  /** The objects in play, and their places. */
  datatype World = World(objects: set<Object>, plan: Plan)

  /* ---- registration ---- */

  function EraseFirst(s: seq<Object>, x: Object): seq<Object> {
    if s == [] then [] else if s[0] == x then s[1..] else [s[0]] + EraseFirst(s[1..], x)
  }

  lemma {:induction false} EraseAt(s: seq<Object>, i: nat, x: Object)
    requires i <= |s| && (forall j :: 0 <= j < i ==> s[j] != x) && (i < |s| ==> s[i] == x)
    ensures EraseFirst(s, x) == if i < |s| then s[..i] + s[i + 1..] else s
  {
    if i > 0 {
      EraseAt(s[1..], i - 1, x);
      AroundTail(s, i);
    }
  }

  lemma AroundTail<T>(s: seq<T>, i: nat)
    requires 0 < i <= |s|
    ensures [s[0]] + s[1..] == s
    ensures i < |s| ==> [s[0]] + (s[1..][..i - 1] + s[1..][i..]) == s[..i] + s[i + 1..]
  {
  }

  /** The links to all other children. */
  function WithoutChild(links: seq<Entry<Name, Object>>, o: Object): seq<Entry<Name, Object>> {
    WithoutValue<Name, Object>(links, o)
  }

  /** Where the first keep_last object stands. */
  function FirstLast(v: seq<Object>): (i: nat)
    reads v`keepLast
    ensures i <= |v| && (forall j :: 0 <= j < i ==> !v[j].keepLast) && (i < |v| ==> v[i].keepLast)
  {
    if v == [] || v[0].keepLast then 0 else FirstLast(v[1..]) + 1
  }

  /** Where a child goes in the vector. */
  function Inserted(v: seq<Object>, o: Object): seq<Object>
    reads v`keepLast, o`keepLast
  {
    if o.keepLast || v == [] || !v[|v| - 1].keepLast then v + [o]
    else v[..FirstLast(v)] + [o] + v[FirstLast(v)..]
  }

  /** No ordinary child behind a keep_last one. */
  ghost predicate Ordered(v: seq<Object>)
    reads v`keepLast
  {
    forall i, j :: 0 <= i < j < |v| && v[i].keepLast ==> v[j].keepLast
  }

  /** The index entries of other objects. */
  function WithoutObject(index: map<Url, Object>, o: Object): map<Url, Object> {
    map u | u in index && index[u] != o :: index[u]
  }

  /* ---- the tree and what is cached about it ---- */

  /** One object's place, from its parent's. */
  ghost predicate Placed(o: Object, plan: Plan)
    reads o`parent
  {
    && o in plan
    && if o.parent == null then
         plan[o].line == [o] && plan[o].url == (if o.isRoot then [] else plan[o].name)
         && plan[o].root == (if o.isRoot then o else null)
       else
         && !o.isRoot && o.parent in plan
         && plan[o].line == plan[o.parent].line + [o]
         && plan[o].url == plan[o.parent].url + [SLASH] + plan[o].name
         && plan[o].root == plan[o.parent].root
  }

  /** The links between an object, its parent and its children. */
  ghost predicate Kin(o: Object, S: set<Object>, plan: Plan)
    requires S <= plan.Keys
    reads S`parent, S`children, o`parent, o`children
  {
    && Distinct(Keys(o.children))
    && (forall e :: e in o.children ==> e.value in S && e.value.parent == o && e.key == plan[e.value].name)
    && (o.parent != null ==> o in plan && o.parent in S && Entry(plan[o].name, o) in o.parent.children)
  }

  /** The structure: no cycles, links that agree, names that do not hide slashes. */
  ghost predicate Tree(S: set<Object>, plan: Plan)
    reads S`parent, S`children
  {
    && S <= plan.Keys
    && forall o :: o in S ==> Placed(o, plan) && Kin(o, S, plan) && SLASH !in plan[o].name
  }

  /** The names that the structure goes by are the objects' names. */
  ghost predicate Named(S: set<Object>, plan: Plan)
    reads S`name
  {
    forall o :: o in S ==> o in plan && o.name == plan[o].name
  }

  /** The object's cached url and root, and its entry in the root's index. */
  ghost predicate Settled(o: Object, S: set<Object>, plan: Plan)
    reads S`objects, o`url, o`root
  {
    && o in plan && o.url == plan[o].url && o.root == plan[o].root
    && (o.root != null ==> o.root in S && o.url in o.root.objects && o.root.objects[o.url] == o)
  }

  /** No index has an entry that is not its own. */
  ghost predicate Owned(S: set<Object>)
    reads S`url, S`root, S`objects
  {
    && (forall o :: o in S && o.root != null ==> o.root in S && o.root.isRoot)
    && forall r, u :: r in S && u in r.objects ==> r.objects[u] in S && r.objects[u].root == r && r.objects[u].url == u
  }

  /** Under one root a url belongs to one object. */
  ghost predicate Unique(S: set<Object>, plan: Plan)
    requires S <= plan.Keys
  {
    && (forall a :: a in S && plan[a].root != null ==> plan[a].root in S && plan[a].root.isRoot)
    && forall a, b :: a in S && b in S && plan[a].root == plan[b].root != null && plan[a].url == plan[b].url ==> a == b
  }

  /* ---- moving a subtree ---- */

  /** Nothing that was settled is unsettled. */
  twostate predicate Keeps(S: set<Object>, plan: Plan)
    reads S`url, S`root, S`objects
  {
    forall o :: o in S && old(Settled(o, S, plan)) ==> Settled(o, S, plan)
  }

  /** The object and everything below it is settled. */
  ghost predicate SettledUnder(x: Object, S: set<Object>, plan: Plan)
    requires S <= plan.Keys
    reads S`url, S`root, S`objects
  {
    forall o :: o in S && x in plan[o].line ==> Settled(o, S, plan)
  }

  /** The first n children and everything below them are settled. */
  ghost predicate SettledChildren(links: seq<Entry<Name, Object>>, n: nat, S: set<Object>, plan: Plan)
    requires S <= plan.Keys && n <= |links|
    reads S`url, S`root, S`objects
  {
    forall j :: 0 <= j < n ==> SettledUnder(links[j].value, S, plan)
  }

  lemma NoChildYet(links: seq<Entry<Name, Object>>, S: set<Object>, plan: Plan)
    requires Tree(S, plan)
    ensures S <= plan.Keys && SettledChildren(links, 0, S, plan)
  {
  }

  twostate lemma OneMoreChild(w: World, new x: Object, new n: nat)
    requires x in w.objects && x.children == old(x.children) && n < |x.children|
    requires w.objects <= w.plan.Keys && Keeps(w.objects, w.plan) && old(SettledChildren(x.children, n, w.objects, w.plan))
    requires SettledUnder(x.children[n].value, w.objects, w.plan)
    ensures SettledChildren(x.children, n + 1, w.objects, w.plan)
  {
    hide Settled;
    forall j | 0 <= j < n
      ensures SettledUnder(x.children[j].value, w.objects, w.plan)
    {
      assert old(SettledUnder(x.children[j].value, w.objects, w.plan));
    }
  }

  /** Below an object comes one of its children. */
  lemma {:induction false} NextInLine(x: Object, o: Object, S: set<Object>, plan: Plan)
    requires Tree(S, plan) && x in S && o in S && x in plan[o].line && o != x
    ensures exists e :: e in x.children && e.value in plan[o].line
    decreases |plan[o].line|
  {
    hide Distinct, Keys;
    assert Placed(o, plan) && Kin(o, S, plan);
    var link := Entry(plan[o].name, o);
    if o.parent == x {
      assert link in x.children && link.value in plan[o].line;
    } else {
      NextInLine(x, o.parent, S, plan);
      var e :| e in x.children && e.value in plan[o.parent].line;
      assert e.value in plan[o].line;
    }
  }

  ghost predicate Bounded(S: set<Object>, plan: Plan, bound: nat) {
    forall o :: o in S ==> o in plan && |plan[o].line| <= bound
  }

  lemma ChildOf(x: Object, i: nat, S: set<Object>, plan: Plan, bound: nat)
    requires Tree(S, plan) && x in S && i < |x.children| && Bounded(S, plan, bound)
    ensures var child := x.children[i].value;
            && child in S && child.parent == x && !child.isRoot
            && S <= plan.Keys && |plan[x].line| < |plan[child].line| <= bound
  {
    assert Kin(x, S, plan) && x.children[i] in x.children;
    assert Placed(x.children[i].value, plan);
  }

  lemma AllUnder(x: Object, S: set<Object>, plan: Plan)
    requires Tree(S, plan) && x in S && Settled(x, S, plan)
    requires S <= plan.Keys && SettledChildren(x.children, |x.children|, S, plan)
    ensures SettledUnder(x, S, plan)
  {
    hide Settled, Tree;
    forall o | o in S && x in plan[o].line
      ensures Settled(o, S, plan)
    {
      if o != x {
        NextInLine(x, o, S, plan);
        var e :| e in x.children && e.value in plan[o].line;
        var j :| 0 <= j < |x.children| && x.children[j] == e;
        assert SettledUnder(x.children[j].value, S, plan);
      }
    }
  }

  /** What set_root does to the indexes. */
  twostate predicate Relocated(x: Object, S: set<Object>)
    reads S`url, S`root, S`objects, x`url, x`root
  {
    && (forall o :: o in S && o != x ==> o.url == old(o.url) && o.root == old(o.root))
    && forall r :: r in S ==>
         var base := if r == old(x.root) then WithoutObject(old(r.objects), x) else old(r.objects);
         r.objects == if r == x.root then base[x.url := x] else base
  }

  lemma IndexRoots(x: Object, S: set<Object>, plan: Plan)
    requires x in S && S <= plan.Keys && Unique(S, plan) && Owned(S)
    ensures x.root != null ==> x.root in S
    ensures plan[x].root != null ==> plan[x].root in S
  {
  }

  twostate lemma RelocatedSettles(w: World, new x: Object)
    requires x in w.objects && w.objects <= w.plan.Keys && Unique(w.objects, w.plan) && Relocated(x, w.objects)
    requires x.url == w.plan[x].url && x.root == w.plan[x].root
    ensures Settled(x, w.objects, w.plan) && Keeps(w.objects, w.plan)
  {
    forall o | o in w.objects && o != x && old(Settled(o, w.objects, w.plan))
      ensures Settled(o, w.objects, w.plan)
    {
      var r := o.root;
      if r != null {
        assert r in w.objects && old(r.objects[o.url]) == o;
        assert r == x.root ==> o.url != x.url;
      }
    }
  }

  twostate lemma RelocatedOwns(w: World, new x: Object)
    requires x in w.objects && w.objects <= w.plan.Keys && Unique(w.objects, w.plan) && Relocated(x, w.objects) && old(Owned(w.objects))
    requires x.url == w.plan[x].url && x.root == w.plan[x].root
    ensures Owned(w.objects)
  {
    forall r, u | r in w.objects && u in r.objects
      ensures r.objects[u] in w.objects && r.objects[u].root == r && r.objects[u].url == u
    {
      if r != x.root || u != x.url {
        assert u in old(r.objects) && r.objects[u] == old(r.objects[u]);
      }
    }
  }

  /* ---- two views of the children ---- */

  ghost function Offspring(links: seq<Entry<Name, Object>>): set<Object> {
    set e | e in links :: e.value
  }

  /** The vector holds each child once, and nothing else. */
  ghost predicate Listed(v: seq<Object>, links: seq<Entry<Name, Object>>) {
    Distinct(v) && (set y: Object | y in v) == Offspring(links)
  }

  ghost predicate Views(S: set<Object>)
    reads S`children, S`childrenVector
  {
    forall o :: o in S ==> Listed(o.childrenVector, o.children)
  }

  /** Ordinary children first, leaving x out of account. */
  ghost predicate OrderedBut(v: seq<Object>, x: Object?, S: set<Object>)
    reads S`keepLast
  {
    forall i, j :: 0 <= i < j < |v| && v[i] in S && v[j] in S && v[i] != x && v[j] != x && v[i].keepLast ==> v[j].keepLast
  }

  ghost predicate SortedBut(S: set<Object>, x: Object?)
    reads S`childrenVector, S`keepLast
  {
    forall o :: o in S ==> OrderedBut(o.childrenVector, x, S)
  }

  lemma EraseOrdered(v: seq<Object>, x: Object, S: set<Object>)
    requires Distinct(v) && OrderedBut(v, x, S) && forall y :: y in v ==> y in S
    ensures Ordered(EraseFirst(v, x))
  {
    hide EraseFirst;
    var i := if x in v then PlaceOf(v, x) else |v|;
    EraseAt(v, i, x);
    var rest := EraseFirst(v, x);
    assert forall k :: 0 <= k < |rest| ==> rest[k] == v[if k < i then k else k + 1] && rest[k] in v;
  }

  ghost function PlaceOf(v: seq<Object>, x: Object): (i: nat)
    requires x in v
    ensures i < |v| && v[i] == x
  {
    var i :| 0 <= i < |v| && v[i] == x;
    i
  }

  lemma {:induction false} EraseMembers(s: seq<Object>, x: Object)
    requires Distinct(s)
    ensures Distinct(EraseFirst(s, x)) && forall y: Object :: y in EraseFirst(s, x) <==> y in s && y != x
    ensures forall j :: 0 <= j < |EraseFirst(s, x)| ==> EraseFirst(s, x)[j] in s && EraseFirst(s, x)[j] != x
  {
    if s != [] {
      assert s[0] !in s[1..];
      EraseMembers(s[1..], x);
    }
  }

  lemma EraseListed(v: seq<Object>, links: seq<Entry<Name, Object>>, x: Object)
    requires Listed(v, links)
    ensures Listed(EraseFirst(v, x), WithoutChild(links, x))
  {
    EraseMembers(v, x);
    WithoutValueMembers<Name, Object>(links, x);
    forall y: Object
      ensures y in EraseFirst(v, x) <==> y in Offspring(WithoutChild(links, x))
    {
      assert y in v <==> y in Offspring(links);
      if y in v && y != x {
        var e :| e in links && e.value == y;
        assert e in WithoutChild(links, x);
      }
    }
    var kept, left := (set y: Object | y in EraseFirst(v, x)), Offspring(WithoutChild(links, x));
    assert kept <= left && left <= kept;
  }

  lemma InsertMembers(s: seq<Object>, i: nat, x: Object)
    requires i <= |s|
    ensures forall y: Object :: y in s[..i] + [x] + s[i..] <==> y in s || y == x
  {
    assert s == s[..i] + s[i..];
  }

  lemma InsertDistinct(s: seq<Object>, i: nat, x: Object)
    requires Distinct(s) && i <= |s| && x !in s
    ensures Distinct(s[..i] + [x] + s[i..])
  {
    var t := s[..i] + [x] + s[i..];
    assert forall k :: 0 <= k < |t| ==> t[k] == if k == i then x else s[if k < i then k else k - 1];
  }

  lemma InsertedAt(v: seq<Object>, x: Object) returns (i: nat)
    ensures i <= |v| && Inserted(v, x) == v[..i] + [x] + v[i..]
  {
    i := if Inserted(v, x) == v + [x] then |v| else FirstLast(v);
  }

  lemma InsertListed(v: seq<Object>, links: seq<Entry<Name, Object>>, x: Object, n: Name)
    requires Listed(v, links) && x !in v
    ensures Listed(Inserted(v, x), links + [Entry(n, x)])
  {
    hide Distinct;
    var w := Inserted(v, x);
    var i := InsertedAt(v, x);
    InsertDistinct(v, i, x);
    InsertMembers(v, i, x);
    assert Offspring(links + [Entry(n, x)]) == Offspring(links) + {x};
    forall y: Object
      ensures y in w <==> y in Offspring(links) + {x}
    {
      assert y in v <==> y in Offspring(links);
    }
  }

  lemma InsertOrdered(v: seq<Object>, x: Object)
    requires Ordered(v)
    ensures Ordered(Inserted(v, x))
  {
  }

  /** A keep_last child is the very last; an ordinary one stands behind all ordinary ones and in front of all
      keep_last ones. */
  ghost predicate LastOfItsKind(v: seq<Object>, x: Object)
    reads v`keepLast, x`keepLast
  {
    if x.keepLast then v != [] && v[|v| - 1] == x
    else exists i :: 0 <= i < |v| && v[i] == x && (forall j :: 0 <= j < i ==> !v[j].keepLast) && forall j :: i < j < |v| ==> v[j].keepLast
  }

  /** Where a child is put among ordered ones. */
  lemma InsertedLast(v: seq<Object>, x: Object)
    requires Ordered(v)
    ensures LastOfItsKind(Inserted(v, x), x)
  {
    hide FirstLast;
    var i := if x.keepLast || v == [] || !v[|v| - 1].keepLast then |v| else FirstLast(v);
    var w := Inserted(v, x);
    assert w[i] == x && forall j :: 0 <= j < i ==> w[j] == v[j];
    assert forall j :: i < j < |w| ==> w[j] == v[j - 1];
  }

  lemma TakeOut<T>(s: seq<T>, i: nat, x: T)
    requires i <= |s| && x !in s
    ensures var t := s[..i] + [x] + s[i..];
            t[i] == x && t[..i] + t[i + 1..] == s && forall j :: 0 <= j < i ==> t[j] != x
  {
    var t := s[..i] + [x] + s[i..];
    assert t[..i] == s[..i] && t[i + 1..] == s[i..];
    assert forall j :: 0 <= j < i ==> t[j] == s[j];
  }

  /** The order of the other children does not change. */
  lemma InsertErases(v: seq<Object>, x: Object)
    requires x !in v
    ensures EraseFirst(Inserted(v, x), x) == v
  {
    hide Inserted, EraseFirst;
    var i := InsertedAt(v, x);
    TakeOut(v, i, x);
    EraseAt(Inserted(v, x), i, x);
  }

  /* ---- urls are unique ---- */

  lemma {:induction false} RootInside(o: Object, S: set<Object>, plan: Plan)
    requires Tree(S, plan) && o in S
    ensures plan[o].root != null ==> plan[o].root in S && plan[o].root.isRoot
    decreases |plan[o].line|
  {
    assert Placed(o, plan) && Kin(o, S, plan);
    if o.parent != null {
      RootInside(o.parent, S, plan);
    }
  }

  lemma {:induction false} SameUrl(a: Object, b: Object, S: set<Object>, plan: Plan)
    requires Tree(S, plan) && a in S && b in S
    requires plan[a].root == plan[b].root != null && plan[a].url == plan[b].url
    ensures a == b
    decreases |plan[a].line|
  {
    hide Distinct, Keys;
    assert Placed(a, plan) && Kin(a, S, plan) && Placed(b, plan) && Kin(b, S, plan);
    if a.parent != null && b.parent != null {
      SplitUnique(plan[a.parent].url, plan[a].name, plan[b.parent].url, plan[b].name);
      SameUrl(a.parent, b.parent, S, plan);
      assert Kin(a.parent, S, plan);
      OneLink(a.parent.children, Entry(plan[a].name, a), Entry(plan[b].name, b));
    }
  }

  lemma OneLink<K, V>(es: seq<Entry<K, V>>, d: Entry<K, V>, e: Entry<K, V>)
    requires Distinct(Keys(es)) && d in es && e in es && d.key == e.key
    ensures d == e
  {
    hide Keys;
    var i :| 0 <= i < |es| && es[i] == d;
    var j :| 0 <= j < |es| && es[j] == e;
    assert Keys(es)[i] == Keys(es)[j];
  }

  lemma TreeUnique(S: set<Object>, plan: Plan)
    requires Tree(S, plan)
    ensures Unique(S, plan)
  {
    hide Placed, Kin;
    forall a | a in S && plan[a].root != null
      ensures plan[a].root in S && plan[a].root.isRoot
    {
      RootInside(a, S, plan);
    }
    forall a, b | a in S && b in S && plan[a].root == plan[b].root != null && plan[a].url == plan[b].url
      ensures a == b
    {
      SameUrl(a, b, S, plan);
    }
  }

  /* ---- a subtree in a new place ---- */

  function From<T>(s: seq<T>, n: nat): seq<T> {
    if n <= |s| then s[n..] else []
  }

  /** The plan in which x takes the given place and everything below it comes along. */
  ghost function Replanted(plan: Plan, x: Object, place: Place): (after: Plan)
    requires x in plan
    ensures after.Keys == plan.Keys
  {
    map o | o in plan ::
      if o == x then place
      else if x in plan[o].line then
        Place(place.line + From(plan[o].line, |plan[x].line|), plan[o].name, place.url + From(plan[o].url, |plan[x].url|), place.root)
      else plan[o]
  }

  /** The place of x under a parent. */
  ghost function PlaceUnder(x: Object, p: Object?, n: Name, plan: Plan): Place
    requires p != null ==> p in plan
  {
    if p == null then Place([x], n, if x.isRoot then [] else n, if x.isRoot then x else null)
    else Place(plan[p].line + [x], n, plan[p].url + [SLASH] + n, plan[p].root)
  }

  /** A place below x, in its new spot, is again its parent's place with one name more. */
  lemma TailStep(line: seq<Object>, url: Url, o: Object, n: Name, depth: nat, skip: nat, place: Place)
    requires depth <= |line| && skip <= |url|
    ensures place.line + From(line + [o], depth) == (place.line + From(line, depth)) + [o]
    ensures place.url + From(url + [SLASH] + n, skip) == (place.url + From(url, skip)) + [SLASH] + n
  {
    assert (line + [o])[depth..] == line[depth..] + [o];
    assert (url + [SLASH] + n)[skip..] == url[skip..] + [SLASH] + n;
  }

  twostate lemma ReplantedPlaced(w: World, new x: Object, new n: Name, new o: Object)
    requires old(Tree(w.objects, w.plan)) && x in w.objects && o in w.objects
    requires forall y :: y in w.objects && y != x ==> y.parent == old(y.parent)
    requires x.parent != null ==> x.parent in w.objects && x !in w.plan[x.parent].line && !x.isRoot
    ensures Placed(o, Replanted(w.plan, x, PlaceUnder(x, x.parent, n, w.plan)))
  {
    hide Kin, Distinct, Keys;
    var place := PlaceUnder(x, x.parent, n, w.plan);
    assert old(Placed(o, w.plan));
    if o != x && o.parent != null {
      var q := o.parent;
      ParentInside(w, o);
      assert old(Placed(q, w.plan));
      Below(w, x, q);
      Below(w, x, x);
      if x in w.plan[o].line && q != x {
        TailStep(w.plan[q].line, w.plan[q].url, o, w.plan[o].name, |w.plan[x].line|, |w.plan[x].url|, place);
      } else if q == x {
        TailStep(w.plan[q].line, w.plan[q].url, o, w.plan[o].name, |w.plan[x].line|, |w.plan[x].url|, place);
        assert From(w.plan[q].line, |w.plan[q].line|) == [] && From(w.plan[q].url, |w.plan[q].url|) == [];
        assert place.line + [] == place.line && place.url + [] == place.url;
      }
    }
    if o == x && x.parent != null {
      Below(w, x, x.parent);
    }
  }

  twostate lemma ParentInside(w: World, new o: Object)
    requires old(Tree(w.objects, w.plan)) && o in w.objects
    ensures old(o.parent) != null ==> old(o.parent) in w.objects
  {
    assert old(Kin(o, w.objects, w.plan));
  }

  twostate lemma Below(w: World, new x: Object, new o: Object)
    requires old(Tree(w.objects, w.plan)) && x in w.objects && o in w.objects
    ensures o in w.plan[o].line
    ensures x in w.plan[o].line ==> |w.plan[x].line| <= |w.plan[o].line| && |w.plan[x].url| <= |w.plan[o].url|
    decreases |w.plan[o].line|
  {
    assert old(Placed(o, w.plan)) && old(Kin(o, w.objects, w.plan));
    if old(o.parent) != null {
      Below(w, x, old(o.parent));
    }
  }

  /* ---- changing a parent ---- */

  /** What set_parent does to the links before anything moves. */
  twostate predicate Relinked(x: Object, n: Name, S: set<Object>)
    reads S`parent, S`children, x`parent
  {
    && (x.parent != null ==> x.parent in S)
    && (forall y :: y in S && y != x ==> y.parent == old(y.parent))
    && (forall o :: o in S && o != x.parent ==> o.children == WithoutChild(old(o.children), x))
    && (x.parent != null ==>
          var p := x.parent;
          && p.children == WithoutChild(old(p.children), x) + [Entry(n, x)]
          && n !in Keys(WithoutChild(old(p.children), x)))
  }

  lemma KeysSnoc<K, V>(es: seq<Entry<K, V>>, e: Entry<K, V>)
    requires Distinct(Keys(es)) && e.key !in Keys(es)
    ensures Distinct(Keys(es + [e]))
  {
    assert Keys(es + [e]) == Keys(es) + [e.key];
  }

  /** Everybody else keeps the name he is known by. */
  lemma ReplantedNames(x: Object, n: Name, p: Object?, plan: Plan)
    requires x in plan && (p != null ==> p in plan)
    ensures var after := Replanted(plan, x, PlaceUnder(x, p, n, plan));
            after[x].name == n && forall o :: o in plan && o != x ==> after[o].name == plan[o].name
  {
  }

  /** The links of one object after the change. */
  lemma LinksKin(x: Object, n: Name, links: seq<Entry<Name, Object>>)
    requires Distinct(Keys(links))
    ensures Distinct(Keys(WithoutChild(links, x)))
    ensures n !in Keys(WithoutChild(links, x)) ==> Distinct(Keys(WithoutChild(links, x) + [Entry(n, x)]))
    ensures forall e :: e in WithoutChild(links, x) <==> e in links && e.value != x
  {
    WithoutValueMembers<Name, Object>(links, x);
    WithoutValueDistinct<Name, Object>(links, x);
    if n !in Keys(WithoutChild(links, x)) {
      KeysSnoc(WithoutChild(links, x), Entry(n, x));
    }
  }

  twostate lemma ReplantedKin(w: World, new x: Object, new n: Name, new after: Plan, new o: Object)
    requires x in w.objects && o in w.objects && w.objects <= w.plan.Keys && w.objects <= after.Keys
    requires old(Kin(o, w.objects, w.plan)) && Relinked(x, n, w.objects)
    requires after[x].name == n && forall y :: y in w.objects && y != x ==> after[y].name == w.plan[y].name
    ensures Kin(o, w.objects, after)
  {
    hide Keys, Distinct, WithoutChild;
    LinksKin(x, n, old(o.children));
    var p := o.parent;
    if p != null {
      WithoutChildMembers(old(p.children), x);
    }
  }

  lemma WithoutChildMembers(links: seq<Entry<Name, Object>>, x: Object)
    ensures forall e :: e in WithoutChild(links, x) <==> e in links && e.value != x
    ensures forall i :: 0 <= i < |WithoutChild(links, x)| ==>
              WithoutChild(links, x)[i] in links && WithoutChild(links, x)[i].value != x
  {
    WithoutValueMembers<Name, Object>(links, x);
    WithoutValueIndexed<Name, Object>(links, x);
  }

  /** Whoever is below x stays below it, and everybody else keeps his place. */
  twostate lemma ReplantedLines(w: World, new x: Object, new n: Name, new p: Object?, new o: Object)
    requires old(Tree(w.objects, w.plan)) && x in w.objects && o in w.objects && (p != null ==> p in w.objects)
    ensures p != null ==> p in w.plan
    ensures var after := Replanted(w.plan, x, PlaceUnder(x, p, n, w.plan));
            && (x in after[o].line <==> x in w.plan[o].line)
            && (x !in w.plan[o].line ==> after[o] == w.plan[o])
  {
    Below(w, x, x);
    var place := PlaceUnder(x, p, n, w.plan);
    assert place.line[|place.line| - 1] == x;
  }

  twostate lemma ReplantedTree(w: World, new x: Object, new n: Name)
    requires old(Tree(w.objects, w.plan)) && x in w.objects && Relinked(x, n, w.objects) && SLASH !in n
    requires x.parent != null ==> x.parent in w.plan && x !in w.plan[x.parent].line && !x.isRoot
    ensures Tree(w.objects, Replanted(w.plan, x, PlaceUnder(x, x.parent, n, w.plan)))
  {
    hide Placed, Kin, PlaceUnder;
    var after := Replanted(w.plan, x, PlaceUnder(x, x.parent, n, w.plan));
    ReplantedNames(x, n, x.parent, w.plan);
    hide Replanted;
    forall o | o in w.objects
      ensures Placed(o, after) && Kin(o, w.objects, after)
    {
      ReplantedPlaced(w, x, n, o);
      ReplantedKin(w, x, n, after, o);
    }
  }

  /** Who is no child of o is not on its lists. */
  lemma Strangers(x: Object, S: set<Object>, plan: Plan)
    requires Tree(S, plan) && Views(S) && x in S
    ensures forall o :: o in S && o != x.parent ==>
              WithoutChild(o.children, x) == o.children && EraseFirst(o.childrenVector, x) == o.childrenVector
  {
    hide Placed;
    forall o | o in S && o != x.parent
      ensures WithoutChild(o.children, x) == o.children && EraseFirst(o.childrenVector, x) == o.childrenVector
    {
      assert Kin(o, S, plan);
      WithoutValueMissing<Name, Object>(o.children, x);
      assert x !in Offspring(o.children);
      EraseAt(o.childrenVector, |o.childrenVector|, x);
    }
  }

  lemma {:induction false} LinesBounded(S: set<Object>, plan: Plan) returns (bound: nat)
    requires S <= plan.Keys
    ensures Bounded(S, plan, bound)
    decreases |S|
  {
    if S == {} {
      bound := 0;
    } else {
      var o :| o in S;
      bound := LinesBounded(S - {o}, plan);
      bound := if bound < |plan[o].line| then |plan[o].line| else bound;
    }
  }

  /* ---- the invariant ---- */

  ghost predicate AllSettled(S: set<Object>, plan: Plan)
    reads S`url, S`root, S`objects
  {
    forall o :: o in S ==> Settled(o, S, plan)
  }

  /** Tree, cached urls, index and the two views of the children, all in agreement. */
  ghost predicate Consistent(S: set<Object>, plan: Plan)
    reads S
  {
    Tree(S, plan) && Named(S, plan) && Views(S) && SortedBut(S, null) && Owned(S) && AllSettled(S, plan)
  }

  /** The same, except that x may just have been given a new name or keep_last flag. */
  ghost predicate Ready(x: Object, S: set<Object>, plan: Plan)
    reads S, x
  {
    && x in S && SLASH !in x.name && Tree(S, plan) && Named(S - {x}, plan)
    && Views(S) && SortedBut(S, x) && Owned(S) && AllSettled(S, plan)
  }

  twostate lemma StillOrdered(v: seq<Object>)
    requires old(Ordered(v)) && forall y :: y in v ==> y.keepLast == old(y.keepLast)
    ensures Ordered(v)
  {
  }

  /** The other children are ordered, whatever has just become of x. */
  lemma OthersOrdered(x: Object, p: Object, S: set<Object>, plan: Plan)
    requires Ready(x, S, plan) && p in S
    ensures Ordered(EraseFirst(p.childrenVector, x))
  {
    hide Named, Owned, AllSettled, EraseFirst, Ordered, Placed, Keys, Distinct;
    assert Kin(p, S, plan) && Listed(p.childrenVector, p.children);
    forall y | y in p.childrenVector
      ensures y in S
    {
      assert y in Offspring(p.children);
    }
    EraseOrdered(p.childrenVector, x, S);
  }

  lemma EraseTwice(v: seq<Object>, x: Object)
    requires Distinct(v)
    ensures EraseFirst(EraseFirst(v, x), x) == EraseFirst(v, x)
  {
    EraseMembers(v, x);
    EraseAt(EraseFirst(v, x), |EraseFirst(v, x)|, x);
  }

  lemma WithoutTwice(links: seq<Entry<Name, Object>>, x: Object)
    ensures WithoutChild(WithoutChild(links, x), x) == WithoutChild(links, x)
  {
    WithoutChildMembers(links, x);
    WithoutValueMissing<Name, Object>(WithoutChild(links, x), x);
  }

  /** The vector view and its order survive. */
  twostate lemma RelistedViews(w: World, new x: Object, new n: Name)
    requires x in w.objects && Relinked(x, n, w.objects)
    requires old(Tree(w.objects, w.plan)) && old(Views(w.objects)) && old(SortedBut(w.objects, x))
    requires forall o :: o in w.objects && o != x.parent ==> o.childrenVector == EraseFirst(old(o.childrenVector), x)
    requires var p := x.parent; p != null ==> p.childrenVector == Inserted(EraseFirst(old(p.childrenVector), x), x)
    requires forall o :: o in w.objects ==> o.keepLast == old(o.keepLast)
    ensures Views(w.objects) && SortedBut(w.objects, null)
  {
    hide WithoutChild, EraseFirst, Keys, Distinct, Inserted, Placed, Listed, Ordered, OrderedBut;
    forall o | o in w.objects
      ensures Listed(o.childrenVector, o.children) && OrderedBut(o.childrenVector, null, w.objects)
    {
      OneView(w, x, n, o);
    }
  }

  twostate lemma OneView(w: World, new x: Object, new n: Name, new o: Object)
    requires w.objects <= w.plan.Keys && x in w.objects && o in w.objects && old(Kin(o, w.objects, w.plan)) && Relinked(x, n, w.objects)
    requires old(Listed(o.childrenVector, o.children)) && old(OrderedBut(o.childrenVector, x, w.objects))
    requires o != x.parent ==> o.childrenVector == EraseFirst(old(o.childrenVector), x)
    requires o == x.parent ==> o.childrenVector == Inserted(EraseFirst(old(o.childrenVector), x), x)
    requires forall y :: y in w.objects ==> y.keepLast == old(y.keepLast)
    ensures Listed(o.childrenVector, o.children) && OrderedBut(o.childrenVector, null, w.objects)
  {
    hide WithoutChild, EraseFirst, Keys, Inserted;
    var v, links := old(o.childrenVector), old(o.children);
    assert forall y: Object :: y in v ==> y in Offspring(links);
    EraseListed(v, links, x);
    EraseMembers(v, x);
    EraseOrdered(v, x, w.objects);
    if o == x.parent {
      InsertListed(EraseFirst(v, x), WithoutChild(links, x), x, n);
      InsertOrdered(EraseFirst(v, x), x);
    }
  }

  /** Before anything moves, only what is below x is unsettled. */
  twostate lemma OthersSettled(w: World, new x: Object, new n: Name, new p: Object?)
    requires old(Tree(w.objects, w.plan)) && x in w.objects && (p != null ==> p in w.objects) && AllSettled(w.objects, w.plan)
    ensures p != null ==> p in w.plan
    ensures var after := Replanted(w.plan, x, PlaceUnder(x, p, n, w.plan));
            && (forall o :: o in w.objects && x !in w.plan[o].line ==> Settled(o, w.objects, after))
            && (forall o :: o in w.objects ==> (x in after[o].line <==> x in w.plan[o].line))
            && (x.isRoot && p == null ==> Settled(x, w.objects, after))
  {
    hide Kin, Replanted;
    assert old(Placed(x, w.plan));
    forall o | o in w.objects
      ensures p != null ==> p in w.plan
      ensures var after := Replanted(w.plan, x, PlaceUnder(x, p, n, w.plan));
              && (x !in w.plan[o].line ==> Settled(o, w.objects, after)) && (x in after[o].line <==> x in w.plan[o].line)
    {
      ReplantedLines(w, x, n, p, o);
      assert Settled(o, w.objects, w.plan);
    }
    RootPlace(x, n, w.plan);
  }

  lemma RootPlace(x: Object, n: Name, plan: Plan)
    requires x in plan
    ensures Replanted(plan, x, PlaceUnder(x, null, n, plan))[x] == PlaceUnder(x, null, n, plan)
  {
  }

  lemma NamedAfter(x: Object, S: set<Object>, plan: Plan, after: Plan)
    requires x in S && Named(S - {x}, plan) && plan.Keys == after.Keys && S <= after.Keys && x.name == after[x].name
    requires forall o :: o in plan && o != x ==> after[o].name == plan[o].name
    ensures Named(S, after)
  {
  }

  /** With the links in place, x can move. */
  twostate lemma ReadyToMove(w: World, new x: Object)
    requires w.objects <= w.plan.Keys && x in w.objects && Relinked(x, x.name, w.objects)
    requires old(Tree(w.objects, w.plan)) && old(Views(w.objects)) && old(SortedBut(w.objects, x))
    requires SLASH !in x.name && Named(w.objects - {x}, w.plan) && AllSettled(w.objects, w.plan)
    requires x.parent != null ==> x.parent in w.plan && x !in w.plan[x.parent].line && !x.isRoot
    requires forall o :: o in w.objects && o != x.parent ==> o.childrenVector == EraseFirst(old(o.childrenVector), x)
    requires var p := x.parent; p != null ==> p.childrenVector == Inserted(EraseFirst(old(p.childrenVector), x), x)
    requires forall o :: o in w.objects ==> o.keepLast == old(o.keepLast)
    ensures var after := Replanted(w.plan, x, PlaceUnder(x, x.parent, x.name, w.plan));
            && w.objects <= after.Keys && Tree(w.objects, after) && Named(w.objects, after)
            && Unique(w.objects, after) && Views(w.objects) && SortedBut(w.objects, null)
            && (forall o :: o in w.objects && x !in after[o].line ==> Settled(o, w.objects, after))
            && (x.parent != null ==> Settled(x.parent, w.objects, after))
            && (x.isRoot ==> Settled(x, w.objects, after))
  {
    hide Tree, Named, Views, Owned, AllSettled, SortedBut, Unique, Settled, Keys, Distinct, Kin, Placed,
         WithoutChild, EraseFirst, Inserted;
    var after := Replanted(w.plan, x, PlaceUnder(x, x.parent, x.name, w.plan));
    ReplantedTree(w, x, x.name);
    ReplantedNames(x, x.name, x.parent, w.plan);
    NamedAfter(x, w.objects, w.plan, after);
    RelistedViews(w, x, x.name);
    TreeUnique(w.objects, after);
    OthersSettled(w, x, x.name, x.parent);
  }

  twostate lemma OthersStay(w: World, new x: Object, new n: Name, new p: Object?)
    requires old(Tree(w.objects, w.plan)) && x in w.objects && (p != null ==> p in w.objects)
    ensures p != null ==> p in w.plan
    ensures var after := Replanted(w.plan, x, PlaceUnder(x, p, n, w.plan));
            forall o :: o in w.objects && x !in w.plan[o].line ==> after[o] == w.plan[o]
  {
    forall o | o in w.objects && x !in w.plan[o].line
      ensures p != null ==> p in w.plan
      ensures Replanted(w.plan, x, PlaceUnder(x, p, n, w.plan))[o] == w.plan[o]
    {
      ReplantedLines(w, x, n, p, o);
    }
  }

  twostate lemma InsertedStays(w: (seq<Object>, Object))
    requires w.1.keepLast == old(w.1.keepLast) && forall i :: 0 <= i < |w.0| ==> w.0[i].keepLast == old(w.0[i].keepLast)
    ensures Inserted(w.0, w.1) == old(Inserted(w.0, w.1))
  {
  }

  lemma AllMoved(x: Object, S: set<Object>, plan: Plan)
    requires S <= plan.Keys && SettledUnder(x, S, plan)
    requires forall o :: o in S && x !in plan[o].line ==> Settled(o, S, plan)
    ensures AllSettled(S, plan)
  {
    hide Settled;
  }

  lemma ReadyParts(x: Object, S: set<Object>, plan: Plan)
    requires Ready(x, S, plan)
    ensures x in S && S <= plan.Keys && SLASH !in x.name && Tree(S, plan) && Named(S - {x}, plan)
    ensures Views(S) && SortedBut(S, x) && Owned(S) && AllSettled(S, plan)
  {
    hide Named, Views, Owned, AllSettled, SortedBut;
  }

  lemma ConsistentParts(S: set<Object>, plan: Plan)
    ensures Consistent(S, plan) <==>
              Tree(S, plan) && Named(S, plan) && Views(S) && SortedBut(S, null) && Owned(S) && AllSettled(S, plan)
    ensures Consistent(S, plan) ==> S <= plan.Keys
  {
    hide Named, Views, Owned, AllSettled, SortedBut;
  }

  lemma ConsistentReady(x: Object, S: set<Object>, plan: Plan)
    requires Consistent(S, plan) && x in S
    ensures Ready(x, S, plan)
  {
    hide Views, Owned, AllSettled, Tree;
    assert SLASH !in plan[x].name by {
      TreeNames(S, plan);
    }
  }

  lemma TreeNames(S: set<Object>, plan: Plan)
    requires Tree(S, plan)
    ensures S <= plan.Keys && forall o :: o in S ==> SLASH !in plan[o].name
  {
  }

  /** The place of an object in the tree allows it to stay where it is. */
  lemma OwnParent(x: Object, S: set<Object>, plan: Plan)
    requires Tree(S, plan) && x in S && x.parent != null
    ensures !x.isRoot && x.parent in S && x !in plan[x.parent].line
    ensures plan[x].name !in Keys(WithoutChild(x.parent.children, x))
  {
    assert Placed(x, plan) && Kin(x, S, plan) && Kin(x.parent, S, plan);
    if x in plan[x.parent].line {
      Below(World(S, plan), x, x.parent);
    }
    OnlyLink(x.parent.children, Entry(plan[x].name, x));
  }

  lemma DifferentKeys(links: seq<Entry<Name, Object>>, d: Entry<Name, Object>, e: Entry<Name, Object>)
    requires Distinct(Keys(links)) && d in links && e in links && d != e
    ensures d.key != e.key
  {
    if d.key == e.key {
      OneLink(links, d, e);
    }
  }

  lemma OnlyLink(links: seq<Entry<Name, Object>>, link: Entry<Name, Object>)
    requires Distinct(Keys(links)) && link in links
    ensures link.key !in Keys(WithoutChild(links, link.value))
  {
    var rest := WithoutChild(links, link.value);
    WithoutChildMembers(links, link.value);
    forall i | 0 <= i < |rest|
      ensures Keys(rest)[i] != link.key
    {
      var other := rest[i];
      assert other in links && other != link;
      DifferentKeys(links, other, link);
    }
  }

  lemma {:induction false} LineInside(o: Object, S: set<Object>, plan: Plan)
    requires Tree(S, plan) && o in S
    ensures forall y :: y in plan[o].line ==> y in S
    decreases |plan[o].line|
  {
    assert Placed(o, plan) && Kin(o, S, plan);
    if o.parent != null {
      LineInside(o.parent, S, plan);
    }
  }

  /* ---- new objects ---- */

  /** An object without parent, children or entries, as the constructors leave it. */
  predicate Newborn(o: Object)
    reads o
  {
    && SLASH !in o.name && o.parent == null && o.children == [] && o.childrenVector == []
    && if o.isRoot then o.url == [] && o.root == o && o.objects == map[[] := o]
       else o.url == o.name && o.root == null && o.objects == map[]
  }

  ghost function PlanWith(plan: Plan, o: Object, n: Name): Plan {
    plan[o := PlaceUnder(o, null, n, plan)]
  }

  lemma JoinsTree(o: Object, S: set<Object>, plan: Plan)
    requires Tree(S, plan) && o !in S && Newborn(o)
    ensures Tree(S + {o}, PlanWith(plan, o, o.name)) && Named({o}, PlanWith(plan, o, o.name))
    ensures forall y :: y in S ==> o !in plan[y].line
  {
    hide Distinct, Keys;
    var after, T := PlanWith(plan, o, o.name), S + {o};
    forall y | y in T
      ensures Placed(y, after) && Kin(y, T, after) && SLASH !in after[y].name
    {
      if y != o {
        assert Placed(y, plan) && Kin(y, S, plan);
      } else {
        NoLinks();
      }
    }
    forall y | y in S
      ensures o !in plan[y].line
    {
      LineInside(y, S, plan);
    }
  }

  lemma NoLinks()
    ensures Distinct(Keys<Name, Object>([]))
  {
  }

  lemma JoinsSettled(o: Object, S: set<Object>, plan: Plan)
    requires S <= plan.Keys && AllSettled(S, plan) && Owned(S) && o !in S && Newborn(o)
    ensures Owned(S + {o}) && AllSettled(S + {o}, PlanWith(plan, o, o.name))
  {
    var after, T := PlanWith(plan, o, o.name), S + {o};
    forall y | y in T
      ensures Settled(y, T, after)
    {
      if y != o {
        assert Settled(y, S, plan);
      }
    }
  }

  lemma JoinsViews(o: Object, S: set<Object>, plan: Plan)
    requires Tree(S, plan) && Views(S) && SortedBut(S, null) && o !in S && Newborn(o)
    ensures Views(S + {o}) && SortedBut(S + {o}, null)
  {
    hide Placed, Keys, Distinct;
    forall y | y in S
      ensures OrderedBut(y.childrenVector, null, S + {o})
    {
      assert Kin(y, S, plan) && Listed(y.childrenVector, y.children) && OrderedBut(y.childrenVector, null, S);
      forall i | 0 <= i < |y.childrenVector|
        ensures y.childrenVector[i] in S
      {
        assert y.childrenVector[i] in Offspring(y.children);
      }
    }
    EmptyListed();
  }

  lemma EmptyListed()
    ensures Listed([], [])
  {
  }

  /** A new object joins the world beside what is there. */
  lemma Joins(o: Object, S: set<Object>, plan: Plan)
    requires Consistent(S, plan) && o !in S && Newborn(o)
    ensures var after := PlanWith(plan, o, o.name);
            && Consistent(S + {o}, after)
            && forall y :: y in S ==> y in plan && after[y] == plan[y] && o !in plan[y].line
  {
    hide Tree, Views, SortedBut, Owned, AllSettled, Newborn, Consistent;
    ConsistentParts(S, plan);
    JoinsTree(o, S, plan);
    JoinsSettled(o, S, plan);
    JoinsViews(o, S, plan);
    ConsistentParts(S + {o}, PlanWith(plan, o, o.name));
  }

  /** Every run starts here: a root, or an object, that was just made. */
  lemma Begins(o: Object)
    requires Newborn(o)
    ensures Consistent({o}, PlanWith(map[], o, o.name))
  {
    hide Newborn;
    Joins(o, {}, map[]);
    assert {} + {o} == {o};
  }

  /* ---- objects and roots ---- */

  function Only(o: Object?): set<Object> {
    if o == null then {} else {o}
  }

  class Object {
    const isRoot: bool
    const isProxy: bool // an ObjectProxy, or a RootProxy
    const attributes: Value
    var parent: Object?
    var root: Object?
    var children: seq<Entry<Name, Object>>
    var childrenVector: seq<Object>
    var name: Name
    var url: Url
    var keepLast: bool
    var objects: map<Url, Object> // objects_ of a Root

    constructor (name: Name, attributes: Value, keepLast: bool, isProxy: bool)
      ensures !isRoot && this.isProxy == isProxy && this.attributes == attributes && this.keepLast == keepLast
      ensures this.name == url == name && parent == root == null && children == [] && childrenVector == [] && objects == map[]
    {
      isRoot, this.isProxy, this.attributes, this.keepLast := false, isProxy, attributes, keepLast;
      this.name, url, parent, root := name, name, null, null;
      children, childrenVector, objects := [], [], map[];
    }

    constructor Root(name: Name, attributes: Value, isProxy: bool)
      ensures isRoot && this.isProxy == isProxy && this.attributes == attributes && !keepLast
      ensures this.name == name && url == [] && parent == null && root == this
      ensures children == [] && childrenVector == [] && objects == map[[] := this]
    {
      isRoot, this.isProxy, this.attributes, keepLast := true, isProxy, attributes, false;
      this.name, parent := name, null;
      children, childrenVector := [], [];
      url, root := [], null;
      new;
      objects := map[];
      SetRoot(this);
    }

    method RegisterObject(o: Object)
      modifies this`objects
      ensures objects == old(objects)[o.url := o]
    {
      objects := objects[o.url := o];
    }

    method UnregisterObject(o: Object)
      modifies this`objects
      ensures objects == WithoutObject(old(objects), o)
    {
      objects := WithoutObject(objects, o);
    }

    method SetRoot(newRoot: Object?)
      modifies this`root, Only(root)`objects, Only(newRoot)`objects
      ensures root == newRoot
      ensures var old0, new0 := old(root), newRoot;
              && (old0 != null && old0 != new0 ==> old0.objects == WithoutObject(old(old0.objects), this))
              && (new0 != null ==>
                    new0.objects == (if old0 == new0 then WithoutObject(old(new0.objects), this) else old(new0.objects))[url := this])
    {
      if root != null {
        root.UnregisterObject(this);
      }
      root := newRoot;
      if root != null {
        root.RegisterObject(this);
      }
    }

    method EraseFromVector(o: Object)
      modifies this`childrenVector
      ensures childrenVector == EraseFirst(old(childrenVector), o)
    {
      var it := 0;
      while it < |childrenVector|
        invariant 0 <= it <= |childrenVector| && childrenVector == old(childrenVector)
        invariant forall j :: 0 <= j < it ==> childrenVector[j] != o
      {
        if childrenVector[it] == o {
          EraseAt(childrenVector, it, o);
          childrenVector := childrenVector[..it] + childrenVector[it + 1..];
          return;
        }
        it := it + 1;
      }
      EraseAt(childrenVector, it, o);
    }

    method UnregisterChild(o: Object)
      modifies this`children, this`childrenVector
      ensures children == WithoutChild(old(children), o)
      ensures childrenVector == EraseFirst(old(childrenVector), o)
    {
      children := WithoutChild(children, o);
      EraseFromVector(o);
    }

    /** The rename loop. It never ends when all names that it can come to are taken; otherwise it ends at
        the first that is free. */
    method FindFreeName(o: Object) returns (ends: bool, ghost times: nat)
      modifies o`name
      ensures ends <==> exists tries: nat :: Renamed(old(o.name), tries) !in Keys(children)
      ensures ends ==> o.name == Renamed(old(o.name), times) && o.name !in Keys(children)
      ensures ends ==> forall i: nat :: i < times ==> Renamed(old(o.name), i) in Keys(children)
    {
      hide NextName, Renamed, Keys, Visits, Find;
      var taken := set k | k in Keys(children);
      LoopEnds(o.name, taken);
      if Visits(o.name).Some? && Visits(o.name).value <= taken {
        return false, 0; // round and round, or through every name it can come to: none is free
      }
      ghost var tries: nat :| Renamed(o.name, tries) !in taken;
      ends, times := true, 0;
      RenamedNever(o.name);
      while Find(children, o.name).Some?
        invariant times <= tries && o.name == Renamed(old(o.name), times)
        invariant forall i: nat :: i < times ==> Renamed(old(o.name), i) in Keys(children)
        decreases tries - times
      {
        RenamedOnce(old(o.name), times);
        o.name := NextName(o.name);
        times := times + 1;
      }
    }

    method AddToVector(o: Object)
      modifies this`childrenVector
      ensures childrenVector == Inserted(old(childrenVector), o)
    {
      var sz := |childrenVector|;
      if o.keepLast || sz == 0 || !childrenVector[sz - 1].keepLast {
        childrenVector := childrenVector + [o];
      } else {
        var it := 0;
        while it < |childrenVector|
          invariant 0 <= it <= |childrenVector| && childrenVector == old(childrenVector)
          invariant forall j :: 0 <= j < it ==> !childrenVector[j].keepLast
        {
          if childrenVector[it].keepLast {
            childrenVector := childrenVector[..it] + [o] + childrenVector[it..];
            return;
          }
          it := it + 1;
        }
      }
    }

    method RegisterChild(o: Object, ghost tries: nat) returns (ghost times: nat)
      requires Renamed(o.name, tries) !in Keys(WithoutChild(children, o))
      modifies this`children, this`childrenVector, o`name
      ensures var others := WithoutChild(old(children), o);
              && times <= tries && o.name == Renamed(old(o.name), times) && o.name !in Keys(others)
              && (forall i: nat :: i < times ==> Renamed(old(o.name), i) in Keys(others))
              && children == others + [Entry(o.name, o)]
      ensures childrenVector == Inserted(EraseFirst(old(childrenVector), o), o)
      ensures Ordered(EraseFirst(old(childrenVector), o)) ==> LastOfItsKind(childrenVector, o)
    {
      hide WithoutChild, EraseFirst, NextName, Keys, Inserted, Renamed, Put, Ordered, LastOfItsKind;
      UnregisterChild(o);
      var ends;
      ends, times := FindFreeName(o);
      PutNew(children, o.name, o);
      children := Put(children, o.name, o);
      ghost var others := childrenVector;
      AddToVector(o);
      if Ordered(others) {
        InsertedLast(others, o);
      }
    }

    /** set_root with the new url in place: this object settles, and no other is unsettled. */
    method Relocate(newUrl: Url, newRoot: Object?, ghost S: set<Object>, ghost plan: Plan)
      requires this in S && S <= plan.Keys && Unique(S, plan) && Owned(S)
      requires newUrl == plan[this].url && newRoot == plan[this].root
      modifies this`url, this`root, S`objects
      ensures Owned(S) && Settled(this, S, plan) && Keeps(S, plan)
    {
      hide Unique, Owned, Settled, Keeps, WithoutObject;
      IndexRoots(this, S, plan);
      url := newUrl;
      SetRoot(newRoot);
      RelocatedSettles(World(S, plan), this);
      RelocatedOwns(World(S, plan), this);
    }

    /** The first half of moved. */
    method Resettle(ghost S: set<Object>, ghost plan: Plan)
      requires this in S && Tree(S, plan) && Named(S, plan) && Unique(S, plan) && Owned(S)
      requires parent != null ==> Settled(parent, S, plan)
      requires isRoot ==> Settled(this, S, plan)
      modifies this`url, this`root, S`objects
      ensures Owned(S) && Settled(this, S, plan) && Keeps(S, plan)
    {
      assert Placed(this, plan) && Kin(this, S, plan);
      if parent != null {
        Relocate(parent.url + [SLASH] + name, parent.root, S, plan);
      } else if root == this {
        assert isRoot;
        url := [];
      } else {
        Relocate(name, null, S, plan);
      }
    }

    /** moved: this object and everything under it settles, and nothing else is unsettled. */
    method Moved(ghost S: set<Object>, ghost plan: Plan, ghost bound: nat)
      requires this in S && Tree(S, plan) && Named(S, plan) && Unique(S, plan) && Owned(S)
      requires Bounded(S, plan, bound)
      requires parent != null ==> Settled(parent, S, plan)
      requires isRoot ==> Settled(this, S, plan)
      modifies S`url, S`root, S`objects
      ensures Owned(S) && Keeps(S, plan) && SettledUnder(this, S, plan)
      decreases bound - |plan[this].line|
    {
      hide Tree, Named, Owned, Unique, Bounded, Settled, SettledUnder, SettledChildren;
      Resettle(S, plan);
      var it := 0;
      NoChildYet(children, S, plan);
      while it < |children|
        invariant 0 <= it <= |children| && Owned(S) && Settled(this, S, plan) && Keeps(S, plan)
        invariant SettledChildren(children, it, S, plan)
      {
        var child := children[it].value;
        ChildOf(this, it, S, plan, bound);
        label before:
        child.Moved(S, plan, bound);
        OneMoreChild@before(World(S, plan), this, it);
        it := it + 1;
      }
      AllUnder(this, S, plan);
    }

    /** The first half of set_parent: leave one parent, join the other. */
    method Relink(newParent: Object?, ghost S: set<Object>, ghost plan: Plan, ghost tries: nat) returns (ghost times: nat)
      requires this in S && Tree(S, plan) && Views(S) && (newParent != null ==> newParent in S)
      requires newParent != null ==> Renamed(name, tries) !in Keys(WithoutChild(newParent.children, this))
      modifies this`parent, this`name, S`children, S`childrenVector
      ensures parent == newParent && Relinked(this, name, S)
      ensures forall o :: o in S && o != newParent ==> o.childrenVector == EraseFirst(old(o.childrenVector), this)
      ensures newParent != null ==>
                newParent.childrenVector == Inserted(EraseFirst(old(newParent.childrenVector), this), this)
      ensures times <= tries && name == Renamed(old(name), times)
      ensures newParent == null ==> times == 0
      ensures newParent != null ==>
                forall i: nat :: i < times ==> Renamed(old(name), i) in Keys(WithoutChild(old(newParent.children), this))
    {
      hide WithoutChild, EraseFirst, Keys, Distinct, Inserted, Placed, NextName;
      Strangers(this, S, plan);
      assert Kin(this, S, plan);
      times := 0;
      if parent != null {
        WithoutTwice(parent.children, this);
        EraseTwice(parent.childrenVector, this);
        parent.UnregisterChild(this);
      }
      parent := newParent;
      if parent != null {
        times := parent.RegisterChild(this, tries);
      }
    }

    /** set_parent. The new parent is not below this object, and a Root has none. */
    method SetParent(newParent: Object?, ghost S: set<Object>, ghost plan: Plan, ghost tries: nat)
      returns (ghost after: Plan, ghost times: nat)
      requires Ready(this, S, plan)
      requires newParent != null ==> !isRoot && newParent in S && this !in plan[newParent].line
      requires newParent != null ==> Renamed(name, tries) !in Keys(WithoutChild(newParent.children, this))
      modifies this`parent, this`name, S`children, S`childrenVector, S`url, S`root, S`objects
      ensures Consistent(S, after)
      ensures forall o :: o in S ==> o in plan && (this !in plan[o].line ==> o in after && after[o] == plan[o])
      ensures parent == newParent && Relinked(this, name, S)
      ensures times <= tries && name == Renamed(old(name), times) && (newParent == null ==> times == 0)
      ensures newParent != null ==>
                forall i: nat :: i < times ==> Renamed(old(name), i) in Keys(WithoutChild(old(newParent.children), this))
      ensures forall o :: o in S && o != newParent ==> o.childrenVector == EraseFirst(old(o.childrenVector), this)
      ensures newParent != null ==>
                newParent.childrenVector == Inserted(EraseFirst(old(newParent.childrenVector), this), this)
      ensures newParent != null ==> LastOfItsKind(newParent.childrenVector, this)
    {
      hide Consistent, Ready, Tree, Named, Views, Owned, AllSettled, SortedBut, Unique, Bounded, Settled, SettledUnder,
           Keys, Distinct, NextName, WithoutChild, EraseFirst, Inserted, Relinked, Renamed, Replanted, PlaceUnder,
           Ordered, LastOfItsKind;
      ReadyParts(this, S, plan);
      ghost var others := if newParent == null then [] else EraseFirst(newParent.childrenVector, this);
      if newParent != null {
        OthersOrdered(this, newParent, S, plan);
      }
      times := Relink(newParent, S, plan, tries);
      if newParent != null {
        StillOrdered(others);
        InsertedLast(others, this);
      }
      RenamedSlashFree(old(name), times);
      after := Replanted(plan, this, PlaceUnder(this, newParent, name, plan));
      ReadyToMove(World(S, plan), this);
      OthersStay(World(S, plan), this, name, newParent);
      ghost var bound := LinesBounded(S, after);
      label linked:
      Moved(S, after, bound);
      if newParent != null {
        InsertedStays@linked((EraseFirst(old(newParent.childrenVector), this), this));
      }
      AllMoved(this, S, after);
      ConsistentParts(S, after);
    }

    /** adopt, on the side of the parent. */
    method Adopt(o: Object, ghost S: set<Object>, ghost plan: Plan, ghost tries: nat) returns (ghost after: Plan, ghost times: nat)
      requires Consistent(S, plan) && this in S && o in S && !o.isRoot && o !in plan[this].line
      requires Renamed(o.name, tries) !in Keys(WithoutChild(children, o))
      modifies o`parent, o`name, S`children, S`childrenVector, S`url, S`root, S`objects
      ensures Consistent(S, after) && o.parent == this && Relinked(o, o.name, S)
      ensures forall y :: y in S ==> y in plan && (o !in plan[y].line ==> y in after && after[y] == plan[y])
      ensures times <= tries && o.name == Renamed(old(o.name), times)
      ensures forall i: nat :: i < times ==> Renamed(old(o.name), i) in Keys(WithoutChild(old(children), o))
      ensures forall p :: p in S && p != this ==> p.childrenVector == EraseFirst(old(p.childrenVector), o)
      ensures childrenVector == Inserted(EraseFirst(old(childrenVector), o), o) && LastOfItsKind(childrenVector, o)
    {
      hide Consistent, Ready, Relinked, Keys, WithoutChild, Renamed, EraseFirst, Inserted, LastOfItsKind;
      ConsistentReady(o, S, plan);
      after, times := o.SetParent(this, S, plan, tries);
    }

    /** set_name: the parent is asked again, so a name that is taken changes. */
    method SetName(newName: Name, ghost S: set<Object>, ghost plan: Plan, ghost tries: nat)
      returns (ghost after: Plan, ghost times: nat)
      requires Consistent(S, plan) && this in S && SLASH !in newName
      requires parent != null ==> parent in S && Renamed(newName, tries) !in Keys(WithoutChild(parent.children, this))
      modifies this`parent, this`name, S`children, S`childrenVector, S`url, S`root, S`objects
      ensures Consistent(S, after) && parent == old(parent)
      ensures newName == [] ==> forall p :: p in S ==> unchanged(p)
      ensures newName != [] ==>
                && times <= tries && name == Renamed(newName, times) && Relinked(this, name, S)
                && (parent == null ==> times == 0)
                && (old(parent) != null ==>
                      forall i: nat :: i < times ==> Renamed(newName, i) in Keys(WithoutChild(old(parent.children), this)))
      ensures newName != [] ==> forall p :: p in S && p != parent ==> p.childrenVector == EraseFirst(old(p.childrenVector), this)
      ensures newName != [] && parent != null ==>
                && parent.childrenVector == Inserted(EraseFirst(old(parent.childrenVector), this), this)
                && LastOfItsKind(parent.childrenVector, this)
    {
      hide Consistent, Tree, Named, Views, Owned, AllSettled, SortedBut, Keys, WithoutChild, Renamed, NextName, EraseFirst, Inserted,
           LastOfItsKind;
      ConsistentParts(S, plan);
      if newName == [] {
        return plan, 0;
      }
      ConsistentReady(this, S, plan);
      if parent != null {
        OwnParent(this, S, plan);
      }
      name := newName;
      after, times := SetParent(parent, S, plan, tries);
      label reset:
      MovedAgain(S, after);
      if parent != null {
        InsertedStays@reset((EraseFirst(old(parent.childrenVector), this), this));
      }
    }

    /** moved, when everything is settled already. */
    method MovedAgain(ghost S: set<Object>, ghost plan: Plan)
      requires Consistent(S, plan) && this in S
      modifies S`url, S`root, S`objects
      ensures Consistent(S, plan)
    {
      hide Consistent, Tree, Named, Views, Owned, SortedBut, Unique, Bounded, Settled, SettledUnder;
      ConsistentParts(S, plan);
      TreeUnique(S, plan);
      ghost var bound := LinesBounded(S, plan);
      if parent != null {
        OwnParent(this, S, plan);
      }
      Moved(S, plan, bound);
      ConsistentParts(S, plan);
    }

    method SetKeepLast(shouldKeepLast: bool, ghost S: set<Object>, ghost plan: Plan) returns (ghost after: Plan)
      requires Consistent(S, plan) && this in S
      modifies this`keepLast, this`parent, this`name, S`children, S`childrenVector, S`url, S`root, S`objects
      ensures Consistent(S, after) && parent == old(parent) && name == old(name) && keepLast == shouldKeepLast
      ensures keepLast == old(keepLast) ==> forall p :: p in S ==> unchanged(p)
      ensures keepLast != old(keepLast) && parent != null ==>
                && parent.childrenVector == Inserted(EraseFirst(old(parent.childrenVector), this), this)
                && LastOfItsKind(parent.childrenVector, this)
      ensures keepLast != old(keepLast) ==>
                Relinked(this, name, S) && forall p :: p in S && p != parent ==> p.childrenVector == EraseFirst(old(p.childrenVector), this)
    {
      hide Consistent, Tree, Views, Owned, AllSettled, Keys, WithoutChild, EraseFirst, Inserted, LastOfItsKind;
      ConsistentParts(S, plan);
      after := plan;
      if shouldKeepLast != keepLast {
        ConsistentReady(this, S, plan);
        if parent != null {
          OwnParent(this, S, plan);
        }
        keepLast := shouldKeepLast;
        ghost var times;
        after, times := SetParent(parent, S, plan, 0);
      }
    }
  }

  /* ---- what consistency means, without the plan ---- */

  /** Every cached url and root is the parent's, one name further down. */
  ghost predicate UrlsFollowParents(S: set<Object>)
    reads S
  {
    forall o :: o in S ==>
      if o.parent == null then o.url == (if o.isRoot then [] else o.name) && o.root == (if o.isRoot then o else null)
      else o.parent in S && o.url == o.parent.url + [SLASH] + o.name && o.root == o.parent.root
  }

  /** The index of a root holds the urls of exactly the objects under it. */
  ghost predicate IndexExact(r: Object, S: set<Object>)
    reads S, r
  {
    && (forall u :: u in r.objects ==> r.objects[u] in S && r.objects[u].root == r && r.objects[u].url == u)
    && (forall o :: o in S && o.root == r ==> o.url in r.objects && r.objects[o.url] == o)
  }

  /** The vector holds the values of the dictionary, each once, ordinary ones first; each key is its child's name. */
  ghost predicate ViewsAgree(p: Object, S: set<Object>)
    reads S, p
  {
    && Distinct(Keys(p.children)) && Distinct(p.childrenVector)
    && (forall e :: e in p.children ==> e.value in S && e.value.parent == p && e.key == e.value.name && e.value in p.childrenVector)
    && (forall i :: 0 <= i < |p.childrenVector| ==> p.childrenVector[i] in S && Entry(p.childrenVector[i].name, p.childrenVector[i]) in p.children)
    && (forall i, j :: 0 <= i < j < |p.childrenVector| && p.childrenVector[i].keepLast ==> p.childrenVector[j].keepLast)
  }

  /** Index equals tree, and the two views of the children agree. */
  lemma IndexEqualsTree(S: set<Object>, plan: Plan)
    requires Consistent(S, plan)
    ensures UrlsFollowParents(S)
    ensures forall r :: r in S ==> IndexExact(r, S)
    ensures forall p :: p in S ==> ViewsAgree(p, S)
  {
    UrlsFollow(S, plan);
    forall p | p in S
      ensures ViewsAgree(p, S)
    {
      ViewsOf(p, S, plan);
    }
    assert forall o :: o in S ==> Settled(o, S, plan);
  }

  lemma UrlsFollow(S: set<Object>, plan: Plan)
    requires Tree(S, plan) && Named(S, plan) && AllSettled(S, plan)
    ensures UrlsFollowParents(S)
  {
    hide Keys, Distinct;
    forall o | o in S
      ensures o.parent != null ==> o.parent in S
      ensures if o.parent == null then o.url == (if o.isRoot then [] else o.name) && o.root == (if o.isRoot then o else null)
              else o.url == o.parent.url + [SLASH] + o.name && o.root == o.parent.root
    {
      assert Placed(o, plan) && Kin(o, S, plan) && Settled(o, S, plan);
      assert o.parent != null ==> Settled(o.parent, S, plan);
    }
  }

  lemma ViewsOf(p: Object, S: set<Object>, plan: Plan)
    requires Tree(S, plan) && Named(S, plan) && Views(S) && SortedBut(S, null) && p in S
    ensures ViewsAgree(p, S)
  {
    hide Keys, Distinct, Placed;
    assert Kin(p, S, plan) && Listed(p.childrenVector, p.children) && OrderedBut(p.childrenVector, null, S);
    forall e | e in p.children
      ensures e.value in p.childrenVector
    {
      assert e.value in Offspring(p.children);
    }
    forall i | 0 <= i < |p.childrenVector|
      ensures p.childrenVector[i] in S && Entry(p.childrenVector[i].name, p.childrenVector[i]) in p.children
    {
      assert p.childrenVector[i] in Offspring(p.children);
      var e :| e in p.children && e.value == p.childrenVector[i];
      assert e == Entry(p.childrenVector[i].name, p.childrenVector[i]);
    }
  }

  /** The names of a line of objects, each behind a slash, without the first one's. */
  ghost function Spelled(line: seq<Object>): Url
    reads line`name
  {
    if |line| <= 1 then [] else Spelled(line[..|line| - 1]) + [SLASH] + line[|line| - 1].name
  }

  /** The url of an object under a root spells the names along its chain of parents. */
  lemma {:induction false} UrlSpelled(o: Object, S: set<Object>, plan: Plan)
    requires Consistent(S, plan) && o in S && o.root != null
    ensures o in plan && var line := plan[o].line;
            && line != [] && line[0] == o.root && line[|line| - 1] == o
            && (forall i :: 0 < i < |line| ==> line[i].parent == line[i - 1])
            && o.url == Spelled(line)
    decreases |plan[o].line|
  {
    hide Keys, Distinct, Views, SortedBut, Owned;
    assert Placed(o, plan) && Kin(o, S, plan) && Settled(o, S, plan);
    if o.parent != null {
      assert Settled(o.parent, S, plan);
      UrlSpelled(o.parent, S, plan);
      assert plan[o].line[..|plan[o].line| - 1] == plan[o.parent].line;
    }
  }
}
