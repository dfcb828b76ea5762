/** Trees that grow by themselves: looking up an object builds the missing path, and a reply with the
    children of a remote object mirrors them. */
module ProxyTree {
  import opened Bytes
  import opened OrderedMap
  import opened Names
  import opened Values
  import opened ObjectTree

  /* ---- one new child ---- */

  /** Nobody's url, root, name or place has changed. */
  twostate predicate Undisturbed(S: set<Object>)
    reads S`url, S`root, S`parent, S`name
  {
    forall o :: o in S ==> o.url == old(o.url) && o.root == old(o.root) && o.parent == old(o.parent) && o.name == old(o.name)
  }

  /** The indexes have gained the new child, under its root, and nothing else. */
  twostate predicate IndexedToo(S: set<Object>, new child: Object)
    reads S`objects, child`url, child`root
  {
    forall r :: r in S ==> r.objects == if r == child.root then old(r.objects)[child.url := child] else old(r.objects)
  }

  twostate lemma IndexGrows(S: set<Object>, new r: Object, new child: Object)
    requires r in S && child !in S && old(IndexExact(r, S)) && IndexExact(r, S + {child}) && Undisturbed(S)
    ensures r.objects == if r == child.root then old(r.objects)[child.url := child] else old(r.objects)
  {
    forall u | u in r.objects
      ensures u in old(r.objects) || (r == child.root && u == child.url)
    {
      var o := r.objects[u];
      assert o in S ==> old(o.root) == r;
    }
    forall u | u in old(r.objects)
      ensures u in r.objects && (r.objects[u] == old(r.objects[u]) || (r == child.root && u == child.url))
    {
      var o := old(r.objects[u]);
      assert o in S && o.root == r && o.url == u;
    }
  }

  /** A place that has not changed keeps its cached url, root and name. */
  twostate lemma SamePlaces(w: World, new T: set<Object>, new after: Plan)
    requires old(Consistent(w.objects, w.plan)) && Consistent(T, after) && w.objects <= T
    requires forall o :: o in w.objects ==> o in w.plan && o in after && after[o] == w.plan[o]
    requires forall o :: o in w.objects ==> o.parent == old(o.parent)
    ensures Undisturbed(w.objects)
  {
    hide Tree, Views, SortedBut, Owned;
    forall o | o in w.objects
      ensures o.url == old(o.url) && o.root == old(o.root) && o.name == old(o.name)
    {
      assert old(Settled(o, w.objects, w.plan)) && Settled(o, T, after);
    }
  }

  twostate lemma AllIndexesGrow(w: World, new child: Object, new after: Plan)
    requires old(Consistent(w.objects, w.plan)) && child !in w.objects && Consistent(w.objects + {child}, after) && Undisturbed(w.objects)
    ensures IndexedToo(w.objects, child)
  {
    hide Consistent;
    IndexBefore(w);
    IndexEqualsTree(w.objects + {child}, after);
    forall r | r in w.objects
      ensures r.objects == if r == child.root then old(r.objects)[child.url := child] else old(r.objects)
    {
      IndexGrows(w.objects, r, child);
    }
  }

  twostate lemma IndexBefore(w: World)
    requires old(Consistent(w.objects, w.plan))
    ensures forall r :: r in w.objects ==> old(IndexExact(r, w.objects))
  {
    hide Tree, Views, SortedBut, Named;
    forall r | r in w.objects
      ensures old(IndexExact(r, w.objects))
    {
      assert forall o :: o in w.objects ==> old(Settled(o, w.objects, w.plan));
    }
  }

  /* ---- what a proxy factory builds ---- */

  /** The factory of a root proxy: whether it builds an object for a parent's url, a name and attributes. */
  datatype Factory = NoFactory | Factory(builds: (Url, Name, Value) -> bool)

  datatype Answer = Builds | Declines | CallsNull

  /** build_child. A plain object declines; so does a proxy that has no root proxy above it, or that has no
      factory. A root proxy looks at what its factory returns; an object proxy adopts it at once, and calls
      set_parent on a null pointer when the factory refused. */
  function Asked(isProxy: bool, isRoot: bool, underProxy: bool, factory: Factory, parent: Url, name: Name, attributes: Value): Answer {
    if !isProxy || !underProxy || factory.NoFactory? then Declines
    else if factory.builds(parent, name, attributes) then Builds
    else if isRoot then Declines
    else CallsNull
  }

  /** The child a proxy factory builds, adopted under a name that is free. */
  method BuildChild(parent: Object, name: Name, attributes: Value, ghost S: set<Object>, ghost plan: Plan)
    returns (child: Object, ghost after: Plan)
    requires Consistent(S, plan) && parent in S && SLASH !in name && name !in Keys(parent.children)
    modifies S`children, S`childrenVector, S`url, S`root, S`objects
    ensures fresh(child) && Consistent(S + {child}, after) && Undisturbed(S) && IndexedToo(S, child)
    ensures child.name == name && child.attributes == attributes && child.children == [] && child.parent == parent
    ensures child.isProxy && !child.isRoot
    ensures child.url == parent.url + [SLASH] + name && child.root == parent.root
    ensures parent.children == old(parent.children) + [Entry(name, child)]
    ensures forall o :: o in S && o != parent ==> o.children == old(o.children)
  {
    hide Consistent, Keys, NextName, Distinct;
    child := new Object(name, attributes, false, true);
    ghost var T := S + {child};
    Joins(child, S, plan);
    ghost var joined := PlanWith(plan, child, name);
    NoChildYetOf(child, T, joined);
    label born:
    ghost var times;
    after, times := parent.Adopt(child, T, joined, 0);
    SamePlaces(World(S, plan), T, after);
    AllIndexesGrow(World(S, plan), child, after);
    IndexEqualsTree(T, after);
  }

  lemma NoChildYetOf(child: Object, T: set<Object>, plan: Plan)
    requires Consistent(T, plan) && child in T && child.parent == null
    ensures forall o :: o in T ==> WithoutChild(o.children, child) == o.children
  {
    Strangers(child, T, plan);
  }

  /* ---- find or build ---- */

  /** A path and what is left of it as its last names are cut off. */
  function Prefixes(path: Url): set<Url>
    decreases |path|
  {
    var pos := LastIndexOf(path, SLASH);
    {path} + if pos == -1 then {} else Prefixes(path[..pos])
  }

  lemma {:induction false} PrefixesShorter(path: Url)
    ensures forall u :: u in Prefixes(path) ==> |u| <= |path|
    decreases |path|
  {
    var pos := LastIndexOf(path, SLASH);
    if pos != -1 {
      PrefixesShorter(path[..pos]);
    }
  }

  /** With an object, the index of its root holds all objects above it. */
  lemma {:induction false} IndexedAbove(o: Object, r: Object, S: set<Object>, plan: Plan)
    requires Consistent(S, plan) && o in S && r in S && o.root == r
    ensures Prefixes(o.url) <= r.objects.Keys
    decreases |o.url|
  {
    hide Consistent;
    IndexEqualsTree(S, plan);
    NoSlash(o, S, plan);
    assert o.url in r.objects;
    if o.parent != null {
      LastName(o.parent.url, o.name);
      IndexedAbove(o.parent, r, S, plan);
    } else {
      assert o.isRoot;
    }
  }

  lemma NoSlash(o: Object, S: set<Object>, plan: Plan)
    requires Consistent(S, plan) && o in S
    ensures SLASH !in o.name
  {
    hide Views, Owned, AllSettled;
  }

  lemma RootIndexed(r: Object, S: set<Object>, plan: Plan)
    requires Consistent(S, plan) && r in S && r.isRoot
    ensures [] in r.objects && r.objects[[]] == r && r.root == r && r.url == []
  {
    hide Consistent;
    IndexEqualsTree(S, plan);
    RootOnTop(r, S, plan);
  }

  lemma RootOnTop(r: Object, S: set<Object>, plan: Plan)
    requires Consistent(S, plan) && r in S && r.isRoot
    ensures r.parent == null
  {
    assert Placed(r, plan);
  }

  /** A name is free under an object when the url it would get is not in the index. */
  lemma FreeName(parent: Object, r: Object, name: Name, S: set<Object>, plan: Plan)
    requires Consistent(S, plan) && parent in S && r in S && parent.root == r
    requires parent.url + [SLASH] + name !in r.objects
    ensures name !in Keys(parent.children)
  {
    hide Consistent;
    IndexEqualsTree(S, plan);
    forall i | 0 <= i < |parent.children|
      ensures Keys(parent.children)[i] != name
    {
      var link := parent.children[i];
      assert link in parent.children && link.value.url in r.objects;
    }
  }

  /** Whether the objects under these urls are proxies. */
  function Kinds(index: map<Url, Object>): (kinds: map<Url, bool>)
    ensures kinds.Keys == index.Keys && forall u :: u in index ==> kinds[u] == index[u].isProxy
  {
    map u | u in index :: index[u].isProxy
  }

  /** What is answered when the last part of a missing path is asked for: by the object under the rest of the
      path, or, where that is missing too, by the proxy that will have been built there. */
  function AnswerAt(p: Url, kinds: map<Url, bool>, factory: Factory): Answer {
    var pos := LastIndexOf(p, SLASH);
    if pos == -1 then Declines else
      var parent := p[..pos];
      Asked(parent !in kinds || kinds[parent], parent == [], [] in kinds && kinds[[]], factory, parent, p[pos + 1..], NilValue)
  }

  /** All that is missing on the way to the path is built. */
  predicate CanReach(path: Url, kinds: map<Url, bool>, factory: Factory) {
    forall p :: p in Prefixes(path) ==> p in kinds || AnswerAt(p, kinds, factory) == Builds
  }

  /** The path and its prefixes, as far as the way to them is there or is built. */
  function Reached(path: Url, kinds: map<Url, bool>, factory: Factory): set<Url> {
    set p | p in Prefixes(path) && CanReach(p, kinds, factory)
  }

  /** The way to p is there or is built up to its last part, and that part is refused to an object proxy. */
  predicate NullAt(p: Url, kinds: map<Url, bool>, factory: Factory) {
    var pos := LastIndexOf(p, SLASH);
    pos != -1 && p !in kinds && CanReach(p[..pos], kinds, factory) && AnswerAt(p, kinds, factory) == CallsNull
  }

  ghost predicate MeetsNull(path: Url, kinds: map<Url, bool>, factory: Factory) {
    exists p :: p in Prefixes(path) && NullAt(p, kinds, factory)
  }

  /** The way to a path is the way to its parent, and its last step. */
  lemma LastPrefix(path: Url, kinds: map<Url, bool>, factory: Factory)
    ensures var pos := LastIndexOf(path, SLASH);
            if pos == -1 then
              && CanReach(path, kinds, factory) == (path in kinds)
              && Reached(path, kinds, factory) == (if path in kinds then {path} else {})
              && !MeetsNull(path, kinds, factory)
            else
              && (CanReach(path, kinds, factory) <==>
                    CanReach(path[..pos], kinds, factory) && (path in kinds || AnswerAt(path, kinds, factory) == Builds))
              && Reached(path, kinds, factory) ==
                   Reached(path[..pos], kinds, factory) + (if CanReach(path, kinds, factory) then {path} else {})
              && (MeetsNull(path, kinds, factory) <==> MeetsNull(path[..pos], kinds, factory) || NullAt(path, kinds, factory))
  {
    hide Asked, AnswerAt;
    if LastIndexOf(path, SLASH) == -1 {
      NoParent(path, kinds, factory);
    }
  }

  lemma NoParent(path: Url, kinds: map<Url, bool>, factory: Factory)
    requires LastIndexOf(path, SLASH) == -1
    ensures AnswerAt(path, kinds, factory) == Declines
  {
  }

  lemma KnownReached(path: Url, kinds: map<Url, bool>, factory: Factory)
    requires Prefixes(path) <= kinds.Keys
    ensures CanReach(path, kinds, factory) && Reached(path, kinds, factory) <= kinds.Keys && !MeetsNull(path, kinds, factory)
  {
    hide AnswerAt, Prefixes;
    SelfPrefix(path);
  }

  lemma SelfPrefix(path: Url)
    ensures path in Prefixes(path)
  {
  }

  lemma ReachedShorter(path: Url, kinds: map<Url, bool>, factory: Factory)
    ensures forall u :: u in Reached(path, kinds, factory) ==> |u| <= |path|
  {
    PrefixesShorter(path);
  }

  /** A lookup ends with the object, with nothing, or with a call on a null pointer; never with two of them. */
  lemma ReachedOrNull(path: Url, kinds: map<Url, bool>, factory: Factory)
    ensures !(CanReach(path, kinds, factory) && MeetsNull(path, kinds, factory))
  {
    hide AnswerAt, Prefixes;
  }

  /** The kinds after a lookup: what was built is a proxy. */
  function KindsAfter(path: Url, kinds: map<Url, bool>, factory: Factory): map<Url, bool> {
    (map p | p in Reached(path, kinds, factory) :: true) + kinds
  }

  lemma SameAnswers(p: Url, path: Url, kinds: map<Url, bool>, factory: Factory)
    requires [] in kinds
    ensures AnswerAt(p, KindsAfter(path, kinds, factory), factory) == AnswerAt(p, kinds, factory)
  {
    hide Asked, Reached;
  }

  /** Once everything that can be reached is there, asking again ends in the same way and adds nothing. */
  lemma BuildsOnce(path: Url, kinds: map<Url, bool>, factory: Factory)
    requires [] in kinds
    ensures var later := KindsAfter(path, kinds, factory);
            && (CanReach(path, later, factory) <==> CanReach(path, kinds, factory))
            && Reached(path, later, factory) <= later.Keys
  {
    hide AnswerAt, Prefixes;
    var later := KindsAfter(path, kinds, factory);
    forall p | CanReach(p, later, factory)
      ensures CanReach(p, kinds, factory)
    {
      forall q | q in Prefixes(p)
        ensures q in kinds || AnswerAt(q, kinds, factory) == Builds
      {
        SelfPrefix(q);
        SameAnswers(q, path, kinds, factory);
        assert q in later || AnswerAt(q, later, factory) == Builds;
      }
    }
    forall q
      ensures AnswerAt(q, later, factory) == AnswerAt(q, kinds, factory)
    {
      SameAnswers(q, path, kinds, factory);
    }
  }

  /** A name that the factory refuses below a known object proxy: the lookup calls set_parent on null. */
  lemma RefusedBelowProxy(parent: Url, name: Name, kinds: map<Url, bool>, factory: Factory)
    requires Prefixes(parent) <= kinds.Keys && parent != [] && SLASH !in name && parent + [SLASH] + name !in kinds
    requires parent in kinds && kinds[parent] && [] in kinds && kinds[[]]
    requires factory.Factory? && !factory.builds(parent, name, NilValue)
    ensures MeetsNull(parent + [SLASH] + name, kinds, factory)
  {
    hide Prefixes, CanReach;
    var path := parent + [SLASH] + name;
    LastName(parent, name);
    KnownReached(parent, kinds, factory);
    SelfPrefix(path);
    assert NullAt(path, kinds, factory);
  }

  /** "/one/.x" below an object proxy "/one", with a factory that builds no meta methods: names that start
      with a dot. */
  lemma MetaMethodMeetsNull()
    ensures MeetsNull([47, 111, 110, 101, 47, 46, 120], map[[] := true, [47, 111, 110, 101] := true],
                      Factory((parent: Url, name: Name, attributes: Value) => name != [] && name[0] != 46))
  {
    hide MeetsNull;
    var one: Url := [47, 111, 110, 101];
    var factory := Factory((parent: Url, name: Name, attributes: Value) => name != [] && name[0] != 46);
    LastName([], one[1..]);
    assert one == [] + [SLASH] + one[1..];
    assert Prefixes(one) == {one} + Prefixes([]);
    RefusedBelowProxy(one, [46, 120], map[[] := true, one := true], factory);
    assert one + [SLASH] + [46, 120] == [47, 111, 110, 101, 47, 46, 120];
  }

  /** The object under the empty url is the root, and no other object is one. */
  lemma OnlyRootOnTop(o: Object, r: Object, S: set<Object>, plan: Plan)
    requires Consistent(S, plan) && o in S && r in S && r.isRoot && o.root == r
    ensures o.isRoot <==> o.url == []
  {
    hide Consistent;
    IndexEqualsTree(S, plan);
    if o.isRoot {
      RootOnTop(o, S, plan);
    }
  }

  datatype Lookup = Found(target: Object) | Missing | NullCall

  /** do_find_or_build_object_at, on the tree of a root whose proxy factory is given. */
  method FindOrBuildObjectAt(r: Object, path: Url, factory: Factory, ghost S: set<Object>, ghost plan: Plan)
    returns (found: Lookup, ghost grown: set<Object>, ghost after: Plan)
    requires Consistent(S, plan) && r in S && r.isRoot
    modifies S`children, S`childrenVector, S`url, S`root, S`objects
    ensures S <= grown && fresh(grown - S) && Consistent(grown, after) && Undisturbed(S)
    ensures forall o :: o in grown - S ==> o.attributes == NilValue && o.isProxy
    ensures found.Found? <==> CanReach(path, old(Kinds(r.objects)), factory)
    ensures found.NullCall? <==> MeetsNull(path, old(Kinds(r.objects)), factory)
    ensures found.Found? ==>
              && found.target in grown && found.target.root == r && found.target.url == path
              && path in r.objects && r.objects[path] == found.target
              && (path !in old(r.objects) ==> found.target !in S)
    ensures r.objects.Keys == old(r.objects.Keys) + Reached(path, old(Kinds(r.objects)), factory)
    ensures forall u :: u in old(r.objects) ==> u in r.objects && r.objects[u] == old(r.objects[u])
    ensures forall q :: q in S && q != r ==> q.objects == old(q.objects)
    ensures Reached(path, old(Kinds(r.objects)), factory) <= old(r.objects.Keys) ==> grown == S && r.objects == old(r.objects)
    decreases |path|
  {
    hide Consistent, Keys, CanReach, Reached, Prefixes, MeetsNull, AnswerAt, NullAt, Asked, Kinds;
    ghost var kinds := Kinds(r.objects);
    RootIndexed(r, S, plan);
    LastPrefix(path, kinds, factory);
    grown, after := S, plan;
    if path in r.objects {
      found := Found(r.objects[path]);
      IndexEntry(r, path, S, plan);
      IndexedAbove(found.target, r, S, plan);
      KnownReached(path, kinds, factory);
      return;
    }
    var pos := LastIndexOf(path, SLASH);
    if pos == -1 {
      return Missing, grown, after; // no parent
    }
    LastNull(path, pos, kinds, factory);
    ReachedOrNull(path[..pos], kinds, factory);
    ReachedShorter(path[..pos], kinds, factory);
    found, grown, after := FindOrBuildObjectAt(r, path[..pos], factory, S, plan);
    if found.Found? {
      var parent := found.target;
      assert parent.isProxy == (path[..pos] !in kinds || kinds[path[..pos]]);
      found, grown, after := AskParent(parent, r, path, pos, factory, kinds, grown, after);
    }
  }

  /** The parent of the path is there: it answers for the last part. */
  method AskParent(parent: Object, r: Object, path: Url, pos: nat, factory: Factory,
                   ghost kinds: map<Url, bool>, ghost S: set<Object>, ghost plan: Plan)
    returns (found: Lookup, ghost grown: set<Object>, ghost after: Plan)
    requires Consistent(S, plan) && r in S && parent in S && parent.root == r
    requires pos == LastIndexOf(path, SLASH) && parent.url == path[..pos] && path !in r.objects
    requires r.isRoot && [] in kinds && kinds[[]] == r.isProxy
    requires parent.isProxy == (parent.url !in kinds || kinds[parent.url])
    modifies S`children, S`childrenVector, S`url, S`root, S`objects
    ensures S <= grown && fresh(grown - S) && Consistent(grown, after) && Undisturbed(S)
    ensures forall o :: o in grown - S ==> o.attributes == NilValue && o.isProxy
    ensures found.Found? <==> AnswerAt(path, kinds, factory) == Builds
    ensures found.NullCall? <==> AnswerAt(path, kinds, factory) == CallsNull
    ensures found.Found? ==>
              && found.target in grown - S && found.target.root == r && found.target.url == path
              && r.objects.Keys == old(r.objects.Keys) + {path} && r.objects[path] == found.target
    ensures forall u :: u in old(r.objects) ==> u in r.objects && r.objects[u] == old(r.objects[u])
    ensures !found.Found? ==> grown == S && r.objects == old(r.objects)
    ensures forall q :: q in S && q != r ==> q.objects == old(q.objects)
  {
    hide Consistent, Keys, Asked, AnswerAt;
    OnlyRootOnTop(parent, r, S, plan);
    LastAnswer(path, pos, kinds, factory);
    grown, after := S, plan;
    var answer := Asked(parent.isProxy, parent.isRoot, r.isProxy, factory, parent.url, path[pos + 1..], NilValue);
    if answer == Declines {
      found := Missing;
    } else if answer == CallsNull {
      found := NullCall; // adopt calls set_parent on what the factory did not build
    } else {
      var built;
      built, after := BuildLast(parent, r, path, pos, S, plan);
      found, grown := Found(built), S + {built};
    }
  }

  lemma LastAnswer(path: Url, pos: nat, kinds: map<Url, bool>, factory: Factory)
    requires pos == LastIndexOf(path, SLASH) && [] in kinds
    ensures AnswerAt(path, kinds, factory) ==
            Asked(path[..pos] !in kinds || kinds[path[..pos]], path[..pos] == [], kinds[[]], factory, path[..pos], path[pos + 1..], NilValue)
  {
    hide Asked, LastIndexOf;
  }

  lemma LastNull(path: Url, pos: nat, kinds: map<Url, bool>, factory: Factory)
    requires pos == LastIndexOf(path, SLASH) && path !in kinds
    ensures NullAt(path, kinds, factory) <==> CanReach(path[..pos], kinds, factory) && AnswerAt(path, kinds, factory) == CallsNull
  {
    hide CanReach, AnswerAt;
  }

  /** The parent of the path is there: ask it to create the child. */
  method BuildLast(parent: Object, r: Object, path: Url, pos: nat, ghost S: set<Object>, ghost plan: Plan)
    returns (found: Object, ghost after: Plan)
    requires Consistent(S, plan) && r in S && parent in S && parent.root == r
    requires pos == LastIndexOf(path, SLASH) && parent.url == path[..pos] && path !in r.objects
    modifies S`children, S`childrenVector, S`url, S`root, S`objects
    ensures fresh(found) && Consistent(S + {found}, after) && Undisturbed(S)
    ensures found.root == r && found.url == path && r.objects == old(r.objects)[path := found]
    ensures found.attributes == NilValue && found.isProxy
    ensures forall q :: q in S && q != r ==> q.objects == old(q.objects)
  {
    hide Consistent, Keys;
    assert path == path[..pos] + [SLASH] + path[pos + 1..];
    FreeName(parent, r, path[pos + 1..], S, plan);
    found, after := BuildChild(parent, path[pos + 1..], NilValue, S, plan);
  }

  lemma IndexEntry(r: Object, u: Url, S: set<Object>, plan: Plan)
    requires Consistent(S, plan) && r in S && u in r.objects
    ensures r.objects[u] in S && r.objects[u].root == r && r.objects[u].url == u
  {
    hide Consistent;
    IndexEqualsTree(S, plan);
  }
}
