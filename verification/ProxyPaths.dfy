/** Which paths a proxy tree builds, said of the urls that are known and of what the factory builds. */
module ProxyPaths {
  import opened Bytes
  import opened Names
  import opened Values
  import opened ObjectTree
  import opened ProxyTree

  /** The urls in front of each known url are known. */
  predicate UpwardClosed(kinds: map<Url, bool>) {
    [] in kinds && forall u :: u in kinds ==> Prefixes(u) <= kinds.Keys
  }

  /** The part of the path that is known stops at q. */
  predicate KnownUpTo(path: Url, q: Url, kinds: map<Url, bool>) {
    q in Prefixes(path) && q in kinds && forall p :: p in Prefixes(path) && p in kinds ==> |p| <= |q|
  }

  /** The factory builds p for the url in front of its last slash and the name behind it. */
  predicate BuildsLast(p: Url, factory: Factory) {
    var pos := LastIndexOf(p, SLASH);
    pos != -1 && factory.Factory? && factory.builds(p[..pos], p[pos + 1..], NilValue)
  }

  predicate BuildsMissing(path: Url, kinds: map<Url, bool>, factory: Factory) {
    forall p :: p in Prefixes(path) && p !in kinds ==> BuildsLast(p, factory)
  }

  /** The path is known; or the root is a proxy with a factory, the known part of the path ends at a proxy, and
      the factory builds every missing part. */
  ghost predicate Buildable(path: Url, kinds: map<Url, bool>, factory: Factory) {
    || path in kinds
    || ([] in kinds && kinds[[]] && (exists q :: KnownUpTo(path, q, kinds) && kinds[q]) && BuildsMissing(path, kinds, factory))
  }

  lemma OneStep(p: Url, kinds: map<Url, bool>, factory: Factory)
    requires [] in kinds
    ensures var pos := LastIndexOf(p, SLASH);
            AnswerAt(p, kinds, factory) == Builds <==>
              kinds[[]] && BuildsLast(p, factory) && (p[..pos] in kinds ==> kinds[p[..pos]])
  {
    hide LastIndexOf;
  }

  lemma PrefixesOf(path: Url)
    ensures path in Prefixes(path)
    ensures var pos := LastIndexOf(path, SLASH);
            Prefixes(path) == if pos == -1 then {path} else {path} + Prefixes(path[..pos])
    ensures var pos := LastIndexOf(path, SLASH);
            pos != -1 ==> pos < |path| && forall p :: p in Prefixes(path[..pos]) ==> |p| <= pos
  {
    var pos := LastIndexOf(path, SLASH);
    if pos != -1 {
      PrefixesShorter(path[..pos]);
    }
  }

  /** A prefix of the path's length is the path. */
  lemma LongestPrefix(path: Url, q: Url)
    requires q in Prefixes(path) && |path| <= |q|
    ensures q == path
  {
    hide LastIndexOf, Prefixes;
    PrefixesOf(path);
  }

  lemma {:induction false} PrefixesNest(path: Url, p: Url)
    requires p in Prefixes(path)
    ensures Prefixes(p) <= Prefixes(path)
    decreases |path|
  {
    hide LastIndexOf, Prefixes;
    PrefixesOf(path);
    var pos := LastIndexOf(path, SLASH);
    if pos != -1 && p != path {
      PrefixesNest(path[..pos], p);
    }
  }

  /** Paths are reached exactly when they can be built, as said above. */
  lemma {:induction false} ReachedExactly(path: Url, kinds: map<Url, bool>, factory: Factory)
    requires UpwardClosed(kinds)
    ensures CanReach(path, kinds, factory) <==> Buildable(path, kinds, factory)
    decreases |path|
  {
    hide LastIndexOf, Prefixes, CanReach, Reached, MeetsNull, AnswerAt, BuildsLast;
    PrefixesOf(path);
    LastPrefix(path, kinds, factory);
    if path in kinds {
      KnownReached(path, kinds, factory);
    } else {
      var pos := LastIndexOf(path, SLASH);
      if pos == -1 {
        NoLast(path, factory);
        assert !BuildsMissing(path, kinds, factory);
      } else {
        OneStep(path, kinds, factory);
        ReachedExactly(path[..pos], kinds, factory);
        if path[..pos] in kinds {
          KnownParent(path, pos, kinds, factory);
        } else {
          UnknownParent(path, pos, kinds, factory);
        }
      }
    }
  }

  lemma NoLast(path: Url, factory: Factory)
    requires LastIndexOf(path, SLASH) == -1
    ensures !BuildsLast(path, factory)
  {
  }

  lemma KnownParent(path: Url, pos: nat, kinds: map<Url, bool>, factory: Factory)
    requires UpwardClosed(kinds) && path !in kinds && pos == LastIndexOf(path, SLASH) && path[..pos] in kinds
    ensures Buildable(path, kinds, factory) <==> kinds[[]] && kinds[path[..pos]] && BuildsLast(path, factory)
    ensures forall q :: KnownUpTo(path, q, kinds) <==> q == path[..pos]
  {
    hide LastIndexOf, Prefixes, BuildsLast;
    var parent := path[..pos];
    PrefixesOf(path);
    PrefixesOf(parent);
    forall q | KnownUpTo(path, q, kinds)
      ensures q == parent
    {
      LongestPrefix(parent, q);
    }
    assert KnownUpTo(path, parent, kinds);
  }

  lemma UnknownParent(path: Url, pos: nat, kinds: map<Url, bool>, factory: Factory)
    requires path !in kinds && pos == LastIndexOf(path, SLASH) && path[..pos] !in kinds
    ensures Buildable(path, kinds, factory) <==> Buildable(path[..pos], kinds, factory) && BuildsLast(path, factory)
    ensures forall q :: KnownUpTo(path, q, kinds) <==> KnownUpTo(path[..pos], q, kinds)
  {
    hide LastIndexOf, Prefixes, BuildsLast;
    PrefixesOf(path);
    PrefixesOf(path[..pos]);
    assert forall q :: KnownUpTo(path, q, kinds) <==> KnownUpTo(path[..pos], q, kinds);
  }

  /** When a path can be built, all its parts are there afterwards. */
  lemma AllPartsReached(path: Url, kinds: map<Url, bool>, factory: Factory)
    requires UpwardClosed(kinds) && Buildable(path, kinds, factory)
    ensures Reached(path, kinds, factory) == Prefixes(path)
  {
    hide LastIndexOf, Prefixes, AnswerAt, Buildable;
    ReachedExactly(path, kinds, factory);
    forall p | p in Prefixes(path)
      ensures CanReach(p, kinds, factory)
    {
      PrefixesNest(path, p);
    }
  }

  /** p is missing below an object proxy, known or built on the way, and the factory refuses it. */
  ghost predicate RefusedToProxy(p: Url, kinds: map<Url, bool>, factory: Factory) {
    var pos := LastIndexOf(p, SLASH);
    && p !in kinds && pos > 0 && [] in kinds && kinds[[]] && factory.Factory? && !BuildsLast(p, factory)
    && if p[..pos] in kinds then kinds[p[..pos]] else Buildable(p[..pos], kinds, factory)
  }

  lemma NullExactly(path: Url, kinds: map<Url, bool>, factory: Factory)
    requires UpwardClosed(kinds)
    ensures MeetsNull(path, kinds, factory) <==> exists p :: p in Prefixes(path) && RefusedToProxy(p, kinds, factory)
  {
    hide LastIndexOf, Prefixes, NullAt, RefusedToProxy;
    forall p
      ensures NullAt(p, kinds, factory) <==> RefusedToProxy(p, kinds, factory)
    {
      NullAtExactly(p, kinds, factory);
    }
  }

  lemma NullAtExactly(p: Url, kinds: map<Url, bool>, factory: Factory)
    requires UpwardClosed(kinds)
    ensures NullAt(p, kinds, factory) <==> RefusedToProxy(p, kinds, factory)
  {
    hide LastIndexOf, Prefixes, CanReach, Buildable, AnswerAt;
    var pos := LastIndexOf(p, SLASH);
    if pos != -1 {
      ReachedExactly(p[..pos], kinds, factory);
      OneStepNull(p, kinds, factory);
      KnownIsBuildable(p[..pos], kinds, factory);
    }
  }

  lemma KnownIsBuildable(u: Url, kinds: map<Url, bool>, factory: Factory)
    ensures u in kinds ==> Buildable(u, kinds, factory)
  {
  }

  lemma OneStepNull(p: Url, kinds: map<Url, bool>, factory: Factory)
    requires [] in kinds && LastIndexOf(p, SLASH) != -1
    ensures var pos := LastIndexOf(p, SLASH);
            AnswerAt(p, kinds, factory) == CallsNull <==>
              kinds[[]] && factory.Factory? && !BuildsLast(p, factory) && pos != 0 && (p[..pos] in kinds ==> kinds[p[..pos]])
  {
    hide LastIndexOf;
  }

  /** A missing path below proxies, all of whose missing parts the factory builds, is found. */
  lemma BuildsAll(path: Url, kinds: map<Url, bool>, factory: Factory)
    requires UpwardClosed(kinds) && (forall u :: u in kinds ==> kinds[u])
    requires path != [] && path[0] == SLASH && factory.Factory? && BuildsMissing(path, kinds, factory)
    ensures CanReach(path, kinds, factory) && !MeetsNull(path, kinds, factory) && Reached(path, kinds, factory) == Prefixes(path)
  {
    hide LastIndexOf, Prefixes, CanReach, MeetsNull, Reached, BuildsMissing;
    var q := LastKnown(path, kinds);
    ReachedExactly(path, kinds, factory);
    AllPartsReached(path, kinds, factory);
    ReachedOrNull(path, kinds, factory);
  }

  /** A path that starts with a slash has a known part: the root's url, if no more. */
  lemma {:induction false} LastKnown(path: Url, kinds: map<Url, bool>) returns (q: Url)
    requires UpwardClosed(kinds) && (path == [] || path[0] == SLASH)
    ensures KnownUpTo(path, q, kinds)
    decreases |path|
  {
    hide LastIndexOf, Prefixes;
    PrefixesOf(path);
    var pos := LastIndexOf(path, SLASH);
    if path in kinds {
      q := path;
      PrefixesShorter(path);
    } else {
      SlashInside(path);
      q := LastKnown(path[..pos], kinds);
      assert forall p :: p in Prefixes(path) && p in kinds ==> p in Prefixes(path[..pos]);
    }
  }

  lemma SlashInside(path: Url)
    requires path != [] && path[0] == SLASH
    ensures LastIndexOf(path, SLASH) >= 0
  {
    hide LastIndexOf;
  }

  /** There is no factory, the known part of the path ends at a plain object, or it ends at the root and the
      factory refuses the root's child. */
  predicate Stops(path: Url, q: Url, kinds: map<Url, bool>, factory: Factory)
    requires q in kinds
  {
    || factory.NoFactory?
    || !kinds[q]
    || (q == [] && forall p :: p in Prefixes(path) && LastIndexOf(p, SLASH) == 0 ==> !BuildsLast(p, factory))
  }

  /** A missing path ends with nothing, and without a null pointer, when there is no factory, when the known
      part ends at a plain object, or when the factory refuses the root's child. */
  lemma EndsMissing(path: Url, q: Url, kinds: map<Url, bool>, factory: Factory)
    requires UpwardClosed(kinds) && path !in kinds && KnownUpTo(path, q, kinds)
    requires Stops(path, q, kinds, factory)
    ensures !CanReach(path, kinds, factory) && !MeetsNull(path, kinds, factory)
  {
    hide LastIndexOf, Prefixes, CanReach, MeetsNull, BuildsLast, Buildable;
    ReachedExactly(path, kinds, factory);
    NullExactly(path, kinds, factory);
    forall p | p in Prefixes(path) && p !in kinds
      ensures !Buildable(p, kinds, factory) && !RefusedToProxy(p, kinds, factory)
    {
      NotBuilt(p, path, q, kinds, factory);
    }
    PrefixesOf(path);
  }

  lemma {:induction false} NotBuilt(p: Url, path: Url, q: Url, kinds: map<Url, bool>, factory: Factory)
    requires UpwardClosed(kinds) && p in Prefixes(path) && p !in kinds && KnownUpTo(path, q, kinds)
    requires Stops(path, q, kinds, factory)
    ensures !Buildable(p, kinds, factory) && !RefusedToProxy(p, kinds, factory)
    decreases |p|
  {
    hide LastIndexOf, Prefixes, BuildsLast;
    PrefixesOf(p);
    PrefixesNest(path, p);
    var pos := LastIndexOf(p, SLASH);
    if factory.NoFactory? || pos == -1 {
      NothingBuilds(p, factory);
    } else if p[..pos] in kinds {
      KnownParent(p, pos, kinds, factory);
      SamePart(p, path, pos, q, kinds);
    } else {
      PrefixesOf(p[..pos]);
      NotBuilt(p[..pos], path, q, kinds, factory);
      UnknownParent(p, pos, kinds, factory);
    }
  }

  lemma NothingBuilds(p: Url, factory: Factory)
    requires factory.NoFactory? || LastIndexOf(p, SLASH) == -1
    ensures !BuildsLast(p, factory)
  {
  }

  /** The known parent of a missing part is where the known part of the path ends. */
  lemma SamePart(p: Url, path: Url, pos: nat, q: Url, kinds: map<Url, bool>)
    requires UpwardClosed(kinds) && p in Prefixes(path) && p !in kinds && KnownUpTo(path, q, kinds)
    requires pos == LastIndexOf(p, SLASH) && p[..pos] in kinds
    ensures q == p[..pos] && (q == [] ==> pos == 0)
  {
    hide LastIndexOf, Prefixes;
    PrefixesOf(p);
    PrefixesOf(p[..pos]);
    PrefixesNest(path, p);
    Comparable(path, p, q);
    if q in Prefixes(p) {
      LongestPrefix(p[..pos], q);
    } else {
      PrefixesNest(q, p);
    }
  }

  /** Of two prefixes of a path, one is a prefix of the other. */
  lemma {:induction false} Comparable(path: Url, p: Url, q: Url)
    requires p in Prefixes(path) && q in Prefixes(path)
    ensures q in Prefixes(p) || p in Prefixes(q)
    decreases |path|
  {
    hide LastIndexOf, Prefixes;
    PrefixesOf(path);
    PrefixesOf(p);
    PrefixesOf(q);
    if p != path && q != path {
      Comparable(path[..LastIndexOf(path, SLASH)], p, q);
    }
  }

  /* ---- the lookup of a root ---- */

  lemma IndexClosed(r: Object, S: set<Object>, plan: Plan)
    requires Consistent(S, plan) && r in S && r.isRoot
    ensures UpwardClosed(Kinds(r.objects))
  {
    hide Consistent, Prefixes;
    RootIndexed(r, S, plan);
    forall u | u in r.objects
      ensures Prefixes(u) <= r.objects.Keys
    {
      IndexEntry(r, u, S, plan);
      IndexedAbove(r.objects[u], r, S, plan);
    }
  }

  lemma PartsReached(path: Url, kinds: map<Url, bool>, factory: Factory)
    requires UpwardClosed(kinds)
    ensures forall u :: u in Reached(path, kinds, factory) <==> u in Prefixes(path) && Buildable(u, kinds, factory)
  {
    hide Prefixes, CanReach, Buildable;
    forall u | u in Prefixes(path)
      ensures CanReach(u, kinds, factory) <==> Buildable(u, kinds, factory)
    {
      ReachedExactly(u, kinds, factory);
    }
  }

  ghost predicate RefusedOnTheWay(path: Url, kinds: map<Url, bool>, factory: Factory) {
    exists p :: p in Prefixes(path) && RefusedToProxy(p, kinds, factory)
  }

  /** find_or_build_object_at: the answer, and NOT_FOUND_ERROR for an object that is missing. */
  method FindOrBuild(r: Object, path: Url, factory: Factory, ghost S: set<Object>, ghost plan: Plan)
    returns (found: Lookup, notFound: bool, ghost grown: set<Object>, ghost after: Plan)
    requires Consistent(S, plan) && r in S && r.isRoot
    modifies S`children, S`childrenVector, S`url, S`root, S`objects
    ensures S <= grown && fresh(grown - S) && Consistent(grown, after)
    ensures found.Found? <==> Buildable(path, old(Kinds(r.objects)), factory)
    ensures found.NullCall? <==> RefusedOnTheWay(path, old(Kinds(r.objects)), factory)
    ensures notFound <==> found.Missing?
    ensures found.Found? ==>
              && found.target.url == path && found.target.root == r && path in r.objects && r.objects[path] == found.target
              && r.objects.Keys == old(r.objects.Keys) + Prefixes(path)
    ensures forall u :: u in r.objects <==>
              u in old(r.objects) || (u in Prefixes(path) && Buildable(u, old(Kinds(r.objects)), factory))
    ensures forall u :: u in old(r.objects) ==> u in r.objects && r.objects[u] == old(r.objects[u])
  {
    hide Consistent, Buildable, CanReach, MeetsNull, Reached, Prefixes, RefusedToProxy, Kinds;
    ghost var kinds := Kinds(r.objects);
    IndexClosed(r, S, plan);
    ReachedExactly(path, kinds, factory);
    NullExactly(path, kinds, factory);
    if Buildable(path, kinds, factory) {
      AllPartsReached(path, kinds, factory);
    }
    PartsReached(path, kinds, factory);
    found, grown, after := FindOrBuildObjectAt(r, path, factory, S, plan);
    notFound := found.Missing?;
  }
}
