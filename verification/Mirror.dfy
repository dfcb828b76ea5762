/** Mirroring: what an object answers about its children, and what a proxy does with the answer. */
module Mirror {
  import opened Wrappers
  import opened Bytes
  import opened OrderedMap
  import opened Names
  import opened Values
  import opened ObjectTree
  import opened ProxyTree

  /* ---- the names in a reply ---- */

  /** The name without the slash that marks an object with children. */
  function Stripped(name: Name): Name {
    if |name| > 1 && name[|name| - 1] == SLASH then name[..|name| - 1] else name
  }

  /** Names and attributes alternate; a pair that is not a string and a hash is passed over. */
  function Listed(items: seq<Value>): seq<Entry<Name, Value>>
    decreases |items|
  {
    if |items| < 2 then []
    else (if items[0].StringValue? && items[1].HashValue? then [Entry(Stripped(items[0].text), items[1])] else []) + Listed(items[2..])
  }

  /** The factory builds an object for what is listed, below the object at the url. */
  predicate Takes(factory: Factory, url: Url, e: Entry<Name, Value>) {
    factory.Factory? && factory.builds(url, e.key, e.value)
  }

  /** The names of those that it builds. */
  function Taken(listed: seq<Entry<Name, Value>>, url: Url, factory: Factory): seq<Name>
    decreases |listed|
  {
    if listed == [] then []
    else
      var last := listed[|listed| - 1];
      Taken(listed[..|listed| - 1], url, factory) + if Takes(factory, url, last) then [last.key] else []
  }

  lemma {:induction false} TakenMembers(listed: seq<Entry<Name, Value>>, url: Url, factory: Factory)
    ensures forall n :: n in Taken(listed, url, factory) <==> exists e :: e in listed && e.key == n && Takes(factory, url, e)
    decreases |listed|
  {
    hide Takes;
    if listed != [] {
      var rest, last := listed[..|listed| - 1], listed[|listed| - 1];
      TakenMembers(rest, url, factory);
      assert forall e :: e in listed <==> e in rest || e == last;
    }
  }

  lemma {:induction false} TakenNone(listed: seq<Entry<Name, Value>>, url: Url)
    ensures Taken(listed, url, NoFactory) == []
    decreases |listed|
  {
    if listed != [] {
      TakenNone(listed[..|listed| - 1], url);
    }
  }

  lemma {:induction false} TakenAll(listed: seq<Entry<Name, Value>>, url: Url, factory: Factory)
    requires forall e :: e in listed ==> Takes(factory, url, e)
    ensures Taken(listed, url, factory) == Keys(listed)
    decreases |listed|
  {
    hide Takes, Keys;
    if listed == [] {
      assert Keys(listed) == [];
    } else {
      var rest, last := listed[..|listed| - 1], listed[|listed| - 1];
      TakenAll(rest, url, factory);
      KeysLast(rest, last);
      assert listed == rest + [last];
    }
  }

  lemma TakenStep(listed: seq<Entry<Name, Value>>, k: nat, url: Url, factory: Factory, known: seq<Name>)
    requires k < |listed|
    ensures AddNames(known, Taken(listed[..k + 1], url, factory)) ==
            var before := AddNames(known, Taken(listed[..k], url, factory));
            if Takes(factory, url, listed[k]) then AddName(before, listed[k].key) else before
  {
    hide Takes, AddName;
    TakeLast(listed, k);
    assert Taken(listed[..k], url, factory) + [] == Taken(listed[..k], url, factory);
    AddNamesLast(known, Taken(listed[..k], url, factory), listed[k].key);
  }

  /** The factory refuses the k-th that is listed, and no child has its name by then. */
  predicate RefusedAt(known: seq<Name>, listed: seq<Entry<Name, Value>>, k: nat, url: Url, factory: Factory) {
    && k < |listed| && !Takes(factory, url, listed[k])
    && listed[k].key !in known && listed[k].key !in Taken(listed[..k], url, factory)
  }

  function AddName(known: seq<Name>, name: Name): seq<Name> {
    if name in known then known else known + [name]
  }

  function AddNames(known: seq<Name>, names: seq<Name>): seq<Name>
    decreases |names|
  {
    if names == [] then known else AddNames(AddName(known, names[0]), names[1..])
  }

  lemma {:induction false} AddNamesLast(known: seq<Name>, names: seq<Name>, name: Name)
    ensures AddNames(known, names + [name]) == AddName(AddNames(known, names), name)
    decreases |names|
  {
    hide AddName;
    if names != [] {
      assert (names + [name])[1..] == names[1..] + [name];
      AddNamesLast(AddName(known, names[0]), names[1..], name);
    }
  }

  /** Together they are the union. */
  lemma {:induction false} AddedNames(known: seq<Name>, names: seq<Name>)
    ensures forall n :: n in AddNames(known, names) <==> n in known || n in names
    ensures known <= AddNames(known, names)
    decreases |names|
  {
    if names != [] {
      AddedNames(AddName(known, names[0]), names[1..]);
    }
  }

  lemma {:induction false} NothingToAdd(known: seq<Name>, names: seq<Name>)
    requires forall n :: n in names ==> n in known
    ensures AddNames(known, names) == known
    decreases |names|
  {
    if names != [] {
      NothingToAdd(known, names[1..]);
    }
  }

  /** New names go behind the old ones, in their order. */
  lemma {:induction false} AddedInOrder(known: seq<Name>, names: seq<Name>)
    requires Distinct(names) && forall n :: n in names ==> n !in known
    ensures AddNames(known, names) == known + names
    decreases |names|
  {
    if names == [] {
      assert known + names == known;
    } else {
      assert forall i :: 0 <= i < |names| - 1 ==> names[1..][i] == names[i + 1];
      AddedInOrder(known + [names[0]], names[1..]);
      assert known + [names[0]] + names[1..] == known + names;
    }
  }

  /** Adding the same names again changes nothing. */
  lemma AddNamesTwice(known: seq<Name>, names: seq<Name>)
    ensures AddNames(AddNames(known, names), names) == AddNames(known, names)
  {
    AddedNames(known, names);
    NothingToAdd(AddNames(known, names), names);
  }

  /* ---- the remote side ---- */

  /** An entry of the reply, as push_back adds it. */
  function Described(child: Object): seq<Value>
    reads child
  {
    [StringValue(if child.children == [] then child.name else child.name + [SLASH])]
    + if child.attributes.EmptyValue? then [] else [child.attributes]
  }

  function Reply(links: seq<Entry<Name, Object>>): seq<Value>
    reads set e | e in links :: e.value
  {
    if links == [] then [] else Reply(links[..|links| - 1]) + Described(links[|links| - 1].value)
  }

  lemma TakeLast<T>(s: seq<T>, i: nat)
    requires i < |s|
    ensures s[..i + 1][..i] == s[..i] && s[..i + 1][i] == s[i] && |s[..i + 1]| == i + 1
  {
  }

  lemma PushedPair(list: Value, child: Object)
    requires list.ListValue?
    ensures var name := StringValue(if child.children == [] then child.name else child.name + [SLASH]);
            PushBack(PushBack(list, name), child.attributes) == ListValue(list.values + Described(child))
  {
    var name := StringValue(if child.children == [] then child.name else child.name + [SLASH]);
    assert list.values + [name] + [child.attributes] == list.values + [name, child.attributes];
    assert list.values + ([name] + [child.attributes]) == list.values + [name, child.attributes];
    assert list.values + ([name] + []) == list.values + [name];
  }

  method ListWithAttributes(o: Object) returns (list: Value)
    requires Distinct(Keys(o.children))
    ensures list == ListValue(Reply(o.children))
  {
    list := ListValue([]);
    var it := 0;
    while it < |o.children|
      invariant 0 <= it <= |o.children| && list == ListValue(Reply(o.children[..it]))
    {
      var obj := Find(o.children, o.children[it].key);
      FindEntry(o.children, it);
      TakeLast(o.children, it);
      PushedPair(list, o.children[it].value);
      if obj.Some? {
        if obj.value.children == [] {
          list := PushBack(list, StringValue(obj.value.name));
        } else {
          list := PushBack(list, StringValue(obj.value.name + [SLASH]));
        }
        list := PushBack(list, obj.value.attributes);
      }
      it := it + 1;
    }
    assert o.children[..it] == o.children;
  }

  /** The reply, entry by entry: the child's name, with a slash behind it when it has children of its own, and
      its attributes. */
  lemma {:induction false} ReplyAt(links: seq<Entry<Name, Object>>, i: nat)
    requires i < |links| && forall e :: e in links ==> !e.value.attributes.EmptyValue?
    ensures var child := links[i].value;
            && |Reply(links)| == 2 * |links|
            && Reply(links)[2 * i] == StringValue(child.name + if child.children == [] then [] else [47])
            && Reply(links)[2 * i + 1] == child.attributes
    decreases |links|
  {
    var rest, last := links[..|links| - 1], links[|links| - 1];
    assert last.value.name + [] == last.value.name;
    assert last in links;
    if i < |rest| {
      assert links[i] == rest[i];
      ReplyAt(rest, i);
    } else if rest != [] {
      ReplyAt(rest, 0);
    }
  }

  /** A child without attributes gives only its name. */
  lemma ReplyBehind(links: seq<Entry<Name, Object>>, last: Entry<Name, Object>)
    ensures var child := last.value;
            Reply(links + [last]) ==
              Reply(links) + [StringValue(child.name + if child.children == [] then [] else [47])]
              + if child.attributes == EmptyValue then [] else [child.attributes]
  {
    assert (links + [last])[..|links|] == links;
    assert last.value.name + [] == last.value.name;
  }

  /** The i-th pair of a list describes a child: a string and a hash, and a slash at the end of the name does
      not count. */
  predicate PairIs(items: seq<Value>, i: nat, e: Entry<Name, Value>) {
    && 2 * i + 1 < |items| && items[2 * i].StringValue? && items[2 * i + 1].HashValue? && e.value == items[2 * i + 1]
    && var t := items[2 * i].text; e.key == if |t| > 1 && t[|t| - 1] == 47 then t[..|t| - 1] else t
  }

  /** Just these are listed. */
  lemma {:induction false} ListedIs(items: seq<Value>, e: Entry<Name, Value>)
    ensures e in Listed(items) <==> exists i :: PairIs(items, i, e)
    decreases |items|
  {
    hide PairIs;
    if |items| < 2 {
      forall i: nat
        ensures !PairIs(items, i, e)
      {
        PairInside(items, i, e);
      }
    } else {
      var rest := items[2..];
      ListedIs(rest, e);
      FirstPair(items, e);
      if i: nat :| PairIs(rest, i, e) {
        LaterPair(items, i, e);
      }
      if i: nat :| PairIs(items, i, e) {
        if i > 0 {
          LaterPair(items, i - 1, e);
        }
      }
    }
  }

  lemma PairInside(items: seq<Value>, i: nat, e: Entry<Name, Value>)
    ensures PairIs(items, i, e) ==> 2 * i + 1 < |items|
  {
  }

  lemma FirstPair(items: seq<Value>, e: Entry<Name, Value>)
    requires |items| >= 2
    ensures PairIs(items, 0, e) <==> items[0].StringValue? && items[1].HashValue? && e == Entry(Stripped(items[0].text), items[1])
  {
  }

  lemma LaterPair(items: seq<Value>, i: nat, e: Entry<Name, Value>)
    requires |items| >= 2
    ensures PairIs(items, i + 1, e) <==> PairIs(items[2..], i, e)
  {
    var rest := items[2..];
    assert 2 * (i + 1) + 1 < |items| ==> items[2 * (i + 1)] == rest[2 * i] && items[2 * (i + 1) + 1] == rest[2 * i + 1];
  }

  /** What a reply can be understood to list: the children whose attributes are a hash. */
  function DescribedChildren(links: seq<Entry<Name, Object>>): seq<Entry<Name, Value>>
  {
    if links == [] then []
    else
      var last := links[|links| - 1];
      DescribedChildren(links[..|links| - 1]) +
      if last.value.attributes.HashValue? then [Entry(last.key, last.value.attributes)] else []
  }

  lemma {:induction false} ListedAppend(items: seq<Value>, name: Value, attributes: Value)
    requires |items| % 2 == 0
    ensures Listed(items + [name, attributes]) == Listed(items) + Listed([name, attributes])
    decreases |items|
  {
    if items == [] {
      assert items + [name, attributes] == [name, attributes];
    } else {
      assert (items + [name, attributes])[2..] == items[2..] + [name, attributes];
      ListedAppend(items[2..], name, attributes);
    }
  }

  lemma StripMark(name: Name)
    requires name != [] && SLASH !in name
    ensures Stripped(name) == name && Stripped(name + [SLASH]) == name
  {
    assert name[|name| - 1] in name;
  }

  lemma OneDescribed(child: Object, key: Name)
    requires key == child.name != [] && SLASH !in key && !child.attributes.EmptyValue?
    ensures |Described(child)| == 2 && Described(child) == [Described(child)[0], Described(child)[1]]
    ensures Listed(Described(child)) == if child.attributes.HashValue? then [Entry(key, child.attributes)] else []
  {
    StripMark(key);
    assert Described(child)[2..] == [];
  }

  /** The reply of an object is understood as those of its children that have an attribute hash, in their
      order. */
  lemma {:induction false} ReplyLists(links: seq<Entry<Name, Object>>)
    requires forall e :: e in links ==> e.key == e.value.name != [] && SLASH !in e.key && !e.value.attributes.EmptyValue?
    ensures |Reply(links)| == 2 * |links| && Listed(Reply(links)) == DescribedChildren(links)
    decreases |links|
  {
    hide Described, Listed;
    if links == [] {
      NothingListed();
    } else {
      var rest, last := links[..|links| - 1], links[|links| - 1];
      ReplyLists(rest);
      OneDescribed(last.value, last.key);
      ListedAppend(Reply(rest), Described(last.value)[0], Described(last.value)[1]);
    }
  }

  lemma NothingListed()
    ensures Listed([]) == []
  {
  }

  lemma {:induction false} DescribedMembers(links: seq<Entry<Name, Object>>)
    ensures forall d :: d in DescribedChildren(links) <==>
              exists e :: e in links && e.value.attributes.HashValue? && d == Entry(e.key, e.value.attributes)
    decreases |links|
  {
    if links != [] {
      var rest, last := links[..|links| - 1], links[|links| - 1];
      DescribedMembers(rest);
      assert forall e :: e in links <==> e in rest || e == last;
    }
  }

  lemma {:induction false} DescribedKeys(links: seq<Entry<Name, Object>>)
    ensures (forall e :: e in links ==> e.value.attributes.HashValue?) ==> Keys(DescribedChildren(links)) == Keys(links)
    ensures forall k :: k in Keys(DescribedChildren(links)) ==> k in Keys(links)
    ensures Distinct(Keys(links)) ==> Distinct(Keys(DescribedChildren(links)))
    decreases |links|
  {
    hide Keys;
    if links == [] {
      assert Keys(DescribedChildren(links)) == [];
    } else {
      var rest, last := links[..|links| - 1], links[|links| - 1];
      DescribedKeys(rest);
      assert links == rest + [last];
      KeysLast(rest, last);
      if last.value.attributes.HashValue? {
        KeysLast(DescribedChildren(rest), Entry(last.key, last.value.attributes));
      } else {
        assert DescribedChildren(links) == DescribedChildren(rest);
      }
      LastApart(Keys(rest), last.key);
    }
  }

  lemma LastApart(ks: seq<Name>, k: Name)
    ensures Distinct(ks + [k]) ==> Distinct(ks) && k !in ks
    ensures forall q :: q in ks ==> q in ks + [k]
  {
    var all := ks + [k];
    assert forall i :: 0 <= i < |ks| ==> all[i] == ks[i];
    assert all[|ks|] == k;
  }

  lemma KeysLast<V>(es: seq<Entry<Name, V>>, e: Entry<Name, V>)
    ensures Keys(es + [e]) == Keys(es) + [e.key]
  {
  }

  /* ---- the proxy's side ---- */

  /** The pairs of a list that build_children_from_attributes works through. */
  function Pairs(list: Value): seq<Value> {
    if list.ListValue? && |list.values| % 2 == 0 then list.values else []
  }

  lemma OnePair(items: seq<Value>, i: nat)
    requires 2 * i + 1 < |items|
    ensures Listed(items[2 * i..]) ==
            (if items[2 * i].StringValue? && items[2 * i + 1].HashValue? then
               [Entry(Stripped(items[2 * i].text), items[2 * i + 1])] else []) + Listed(items[2 * i + 2..])
  {
    hide Stripped;
    assert items[2 * i..][2..] == items[2 * i + 2..];
  }

  /** An object proxy adopts what its factory returns without a look at it. */
  predicate AdoptsBlindly(parent: Object, factory: Factory) {
    parent.isProxy && !parent.isRoot && factory.Factory?
  }

  /** From n on, the children are new and as they were listed. */
  ghost predicate NewChildren(children: seq<Entry<Name, Object>>, n: nat, listed: seq<Entry<Name, Value>>, news: set<Object>) {
    forall k :: n <= k < |children| ==>
      && Entry(children[k].key, children[k].value.attributes) in listed
      && children[k].value in news
  }

  lemma NoneNew(children: seq<Entry<Name, Object>>, listed: seq<Entry<Name, Value>>, news: set<Object>)
    ensures NewChildren(children, |children|, listed, news)
  {
  }

  lemma OneNew(before: seq<Entry<Name, Object>>, after: seq<Entry<Name, Object>>, n: nat, listed: seq<Entry<Name, Value>>,
               news: set<Object>, more: set<Object>, e: Entry<Name, Value>)
    requires NewChildren(before, n, listed, news) && before <= after && news <= more && e in listed
    requires forall k :: |before| <= k < |after| ==>
               after[k].key == e.key && after[k].value.attributes == e.value && after[k].value in more
    ensures NewChildren(after, n, listed, more)
  {
  }

  /** One turn of the loop: a child that is not there yet is asked for. First the parent is asked to build it;
      when it declines, the factory is. */
  method MirrorOne(parent: Object, name: Name, attributes: Value, factory: Factory, ghost S: set<Object>, ghost plan: Plan)
    returns (crashed: bool, ghost grown: set<Object>, ghost after: Plan)
    requires Consistent(S, plan) && parent in S && SLASH !in name && factory.Factory?
    modifies S`children, S`childrenVector, S`url, S`root, S`objects
    ensures S <= grown && fresh(grown - S) && Consistent(grown, after) && Undisturbed(S)
    ensures old(parent.children) <= parent.children
    ensures var builds := Takes(factory, old(parent.url), Entry(name, attributes));
            && Keys(parent.children) == (if builds then AddName(old(Keys(parent.children)), name) else old(Keys(parent.children)))
            && (crashed <==> AdoptsBlindly(parent, factory) && !builds && name !in old(Keys(parent.children)))
    ensures grown == S || |parent.children| > |old(parent.children)|
    ensures |parent.children| <= |old(parent.children)| + 1
    ensures forall k :: |old(parent.children)| <= k < |parent.children| ==>
              && parent.children[k].key == name && parent.children[k].value.attributes == attributes
              && parent.children[k].value in grown - S
    ensures forall o :: o in S && o != parent ==> o.children == old(o.children)
  {
    hide Consistent, Keys;
    grown, after, crashed := S, plan, false;
    if Find(parent.children, name) == None {
      // the loop runs for a root proxy: it is the one above the parent
      var answer := Asked(parent.isProxy, parent.isRoot, true, factory, parent.url, name, attributes);
      if answer == CallsNull {
        crashed := true;
      } else if answer == Builds || factory.builds(parent.url, name, attributes) {
        var child;
        child, after := BuildChild(parent, name, attributes, S, plan);
        KeysLast(old(parent.children), Entry(name, child));
        grown := S + {child};
      }
    }
  }

  /** done counts what has been worked through of the list: all of it, or up to the child that an object
      proxy was asked for and its factory refused. */
  method BuildChildrenFromAttributes(parent: Object, list: Value, factory: Factory, ghost S: set<Object>, ghost plan: Plan)
    returns (crashed: bool, ghost done: nat, ghost grown: set<Object>, ghost after: Plan)
    requires Consistent(S, plan) && parent in S
    requires forall e :: e in Listed(Pairs(list)) ==> SLASH !in e.key
    modifies S`children, S`childrenVector, S`url, S`root, S`objects
    ensures S <= grown && fresh(grown - S) && Consistent(grown, after) && Undisturbed(S)
    ensures old(parent.children) <= parent.children
    ensures !list.ListValue? || |list.values| % 2 != 0 ==> !crashed && grown == S && parent.children == old(parent.children)
    ensures Mirrored(old(Keys(parent.children)), Keys(parent.children), Listed(Pairs(list)), old(parent.url), factory,
                     AdoptsBlindly(parent, factory), crashed, done)
    ensures grown == S || |parent.children| > |old(parent.children)|
    ensures NewChildren(parent.children, |old(parent.children)|, Listed(Pairs(list)), grown - S)
    ensures forall o :: o in S && o != parent ==> o.children == old(o.children)
  {
    hide Consistent, Keys, Listed, AddNames, Taken, RefusedAt;
    ghost var names, url, listed := Keys(parent.children), parent.url, Listed(Pairs(list));
    NothingListed();
    NothingDone(names, url, factory, listed);
    NoneNew(parent.children, listed, S - S);
    if !list.ListValue? || |list.values| % 2 != 0 {
      return false, 0, S, plan;
    }
    if factory.NoFactory? {
      AllRefused(names, url, listed);
      return false, |listed|, S, plan;
    }
    crashed, done, grown, after := BuildListed(parent, list, factory, S, plan);
  }

  /** The loop of it. */
  method BuildListed(parent: Object, list: Value, factory: Factory, ghost S: set<Object>, ghost plan: Plan)
    returns (crashed: bool, ghost done: nat, ghost grown: set<Object>, ghost after: Plan)
    requires Consistent(S, plan) && parent in S && factory.Factory? && list.ListValue? && |list.values| % 2 == 0
    requires forall e :: e in Listed(list.values) ==> SLASH !in e.key
    modifies S`children, S`childrenVector, S`url, S`root, S`objects
    ensures S <= grown && fresh(grown - S) && Consistent(grown, after) && Undisturbed(S)
    ensures old(parent.children) <= parent.children
    ensures Mirrored(old(Keys(parent.children)), Keys(parent.children), Listed(list.values), old(parent.url), factory,
                     AdoptsBlindly(parent, factory), crashed, done)
    ensures grown == S || |parent.children| > |old(parent.children)|
    ensures NewChildren(parent.children, |old(parent.children)|, Listed(list.values), grown - S)
    ensures forall o :: o in S && o != parent ==> o.children == old(o.children)
  {
    hide Consistent, Keys, Listed, Stripped, AddName, AddNames, Taken, Takes, RefusedAt, AdoptsBlindly, NoneRefused, Mirrored, NewChildren;
    grown, after, crashed, done := S, plan, false, 0;
    ghost var names, url, listed := Keys(parent.children), parent.url, Listed(list.values);
    NothingListed();
    NothingDone(names, url, factory, listed);
    NoneNew(parent.children, listed, S - S);
    NextRefused(names, listed, 0, url, factory);
    var listCount := |list.values| / 2;
    var i := 0;
    assert list.values[0..] == list.values && listed[0..] == listed;
    while i < listCount
      invariant 0 <= i <= listCount && S <= grown && fresh(grown - S) && Consistent(grown, after) && Undisturbed(S)
      invariant done <= |listed| && Listed(list.values[2 * i..]) == listed[done..] && !crashed
      invariant old(parent.children) <= parent.children
      invariant grown == S || |parent.children| > |old(parent.children)|
      invariant Keys(parent.children) == AddNames(names, Taken(listed[..done], url, factory))
      invariant AdoptsBlindly(parent, factory) ==> NoneRefused(names, listed, done, url, factory)
      invariant NewChildren(parent.children, |old(parent.children)|, listed, grown - S)
      invariant forall o :: o in S && o != parent ==> o.children == old(o.children)
    {
      OnePair(list.values, i);
      var nameValue, attributes := list.values[2 * i], list.values[2 * i + 1];
      if nameValue.StringValue? && attributes.HashValue? {
        OneListed(listed, done, Entry(Stripped(nameValue.text), attributes), Listed(list.values[2 * i + 2..]));
        TakenStep(listed, done, url, factory, names);
        NextRefused(names, listed, done, url, factory);
        RefusedNow(names, listed, done, url, factory);
        ghost var before, had := grown, parent.children;
        crashed, grown, after := MirrorOne(parent, Stripped(nameValue.text), attributes, factory, grown, after);
        OneNew(had, parent.children, |old(parent.children)|, listed, before - S, grown - S, listed[done]);
        if crashed {
          StopsHere(names, listed, url, factory, done);
          return;
        }
        done := done + 1;
      }
      i := i + 1;
    }
    assert list.values[2 * i..] == [];
    WorkedThrough(names, Keys(parent.children), listed, url, factory, AdoptsBlindly(parent, factory), done);
  }

  /** The factory has refused none of the first n. */
  predicate NoneRefused(known: seq<Name>, listed: seq<Entry<Name, Value>>, n: nat, url: Url, factory: Factory) {
    forall k: nat :: k < n ==> !RefusedAt(known, listed, k, url, factory)
  }

  lemma NextRefused(known: seq<Name>, listed: seq<Entry<Name, Value>>, n: nat, url: Url, factory: Factory)
    ensures NoneRefused(known, listed, 0, url, factory)
    ensures NoneRefused(known, listed, n + 1, url, factory) <==>
              NoneRefused(known, listed, n, url, factory) && !RefusedAt(known, listed, n, url, factory)
  {
    hide RefusedAt;
  }

  lemma StopsHere(known: seq<Name>, listed: seq<Entry<Name, Value>>, url: Url, factory: Factory, done: nat)
    requires NoneRefused(known, listed, done, url, factory)
    requires RefusedAt(known, listed, done, url, factory)
    ensures Mirrored(known, AddNames(known, Taken(listed[..done], url, factory)), listed, url, factory, true, true, done)
  {
    hide RefusedAt;
    assert done < |listed| by { RefusedInside(known, listed, url, factory, done); }
  }

  lemma RefusedInside(known: seq<Name>, listed: seq<Entry<Name, Value>>, url: Url, factory: Factory, k: nat)
    requires RefusedAt(known, listed, k, url, factory)
    ensures k < |listed|
  {
  }

  lemma WorkedThrough(known: seq<Name>, names: seq<Name>, listed: seq<Entry<Name, Value>>, url: Url, factory: Factory,
                      blindly: bool, done: nat)
    requires done <= |listed| && listed[done..] == [] && names == AddNames(known, Taken(listed[..done], url, factory))
    requires blindly ==> NoneRefused(known, listed, done, url, factory)
    ensures Mirrored(known, names, listed, url, factory, blindly, false, done)
  {
    hide RefusedAt;
  }

  /** What the loop has done: the names of the children, and whether and where it called a null pointer. */
  ghost predicate Mirrored(known: seq<Name>, names: seq<Name>, listed: seq<Entry<Name, Value>>, url: Url, factory: Factory,
                           blindly: bool, crashed: bool, done: nat)
  {
    && done <= |listed| && names == AddNames(known, Taken(listed[..done], url, factory))
    && (blindly ==> NoneRefused(known, listed, done, url, factory))
    && (if crashed then blindly && RefusedAt(known, listed, done, url, factory) else done == |listed|)
  }

  lemma NothingDone(names: seq<Name>, url: Url, factory: Factory, listed: seq<Entry<Name, Value>>)
    ensures AddNames(names, Taken(listed[..0], url, factory)) == names
  {
  }

  lemma AllRefused(names: seq<Name>, url: Url, listed: seq<Entry<Name, Value>>)
    ensures AddNames(names, Taken(listed[..|listed|], url, NoFactory)) == names
  {
    TakenNone(listed[..|listed|], url);
  }

  lemma OneListed(listed: seq<Entry<Name, Value>>, done: nat, e: Entry<Name, Value>, rest: seq<Entry<Name, Value>>)
    requires done <= |listed| && listed[done..] == [e] + rest
    ensures done < |listed| && listed[done] == e && listed[done + 1..] == rest && e in listed
  {
    assert listed[done..][0] == e && listed[done..][1..] == rest;
  }

  lemma RefusedNow(known: seq<Name>, listed: seq<Entry<Name, Value>>, k: nat, url: Url, factory: Factory)
    requires k < |listed|
    ensures RefusedAt(known, listed, k, url, factory) <==>
              !Takes(factory, url, listed[k]) && listed[k].key !in AddNames(known, Taken(listed[..k], url, factory))
  {
    hide Takes, Taken;
    AddedNames(known, Taken(listed[..k], url, factory));
  }

  /** handle_reply of a root proxy, for a reply that lists children with their attributes: the url of the
      parent, then the list. Other lists and unknown urls leave everything alone. */
  method HandleReply(r: Object, val: Value, factory: Factory, ghost S: set<Object>, ghost plan: Plan)
    returns (crashed: bool, ghost done: nat, ghost grown: set<Object>, ghost after: Plan)
    requires Consistent(S, plan) && r in S && r.isRoot && r.isProxy
    requires val.ListValue? && |val.values| >= 2 ==> forall e :: e in Listed(Pairs(val.values[1])) ==> SLASH !in e.key
    modifies S`children, S`childrenVector, S`url, S`root, S`objects
    ensures S <= grown && fresh(grown - S) && Consistent(grown, after) && Undisturbed(S)
    ensures var known := val.ListValue? && |val.values| >= 2 && val.values[0].StringValue? && val.values[1].ListValue?
                         && val.values[0].text in old(r.objects);
            if known then
              var parent := old(r.objects)[val.values[0].text];
              && parent in S && old(parent.children) <= parent.children
              && Mirrored(old(Keys(parent.children)), Keys(parent.children), Listed(Pairs(val.values[1])), val.values[0].text, factory,
                          AdoptsBlindly(parent, factory), crashed, done)
              && (grown == S || |parent.children| > |old(parent.children)|)
              && NewChildren(parent.children, |old(parent.children)|, Listed(Pairs(val.values[1])), grown - S)
              && forall o :: o in S && o != parent ==> o.children == old(o.children)
            else !crashed && grown == S && forall o :: o in S ==> o.children == old(o.children)
  {
    hide Consistent, Keys, Listed, Mirrored, AdoptsBlindly;
    grown, after, crashed, done := S, plan, false, 0;
    if !val.ListValue? || |val.values| < 2 || !val.values[0].StringValue? || !val.values[1].ListValue? {
      return;
    }
    if val.values[0].text !in r.objects {
      return;
    }
    var parent := r.objects[val.values[0].text];
    IndexEntry(r, val.values[0].text, S, plan);
    crashed, done, grown, after := BuildChildrenFromAttributes(parent, val.values[1], factory, S, plan);
  }

  /** Mirroring: a reply made by list_with_attributes turns the proxy's child names into the union of the
      old ones and those of the remote children that the factory builds, keeps the old ones in front, and
      adds nothing the second time. When every remote child has an attribute hash, and the factory builds
      them all, the names are those of all remote children, in their order. */
  lemma MirrorsRemote(known: seq<Name>, remote: seq<Entry<Name, Object>>, url: Url, factory: Factory)
    requires forall e :: e in remote ==> e.key == e.value.name != [] && SLASH !in e.key && !e.value.attributes.EmptyValue?
    ensures var listed := Listed(Pairs(ListValue(Reply(remote))));
            var names := Taken(listed, url, factory);
            var mirrored := AddNames(known, names);
            && known <= mirrored
            && (forall e :: e in listed ==> SLASH !in e.key)
            && (forall n :: n in mirrored <==> n in known || exists e :: Mirrorable(e, remote) && e.key == n && TakesChild(factory, url, e))
            && AddNames(mirrored, names) == mirrored
            && ((forall e :: e in remote ==> Mirrorable(e, remote) && TakesChild(factory, url, e)) ==> names == Keys(remote))
  {
    hide AddNames, Taken, Takes, Listed, Reply, Keys, DescribedChildren;
    ReplyLists(remote);
    var listed := DescribedChildren(remote);
    DescribedMembers(remote);
    DescribedKeys(remote);
    TakenMembers(listed, url, factory);
    forall n
      ensures n in Taken(listed, url, factory) <==> exists e :: Mirrorable(e, remote) && e.key == n && TakesChild(factory, url, e)
    {
      if e :| Mirrorable(e, remote) && e.key == n && TakesChild(factory, url, e) {
        assert Entry(e.key, e.value.attributes) in listed;
      }
    }
    if forall e :: e in remote ==> Mirrorable(e, remote) && TakesChild(factory, url, e) {
      TakenAll(listed, url, factory);
    }
    AddedNames(known, Taken(listed, url, factory));
    AddNamesTwice(known, Taken(listed, url, factory));
  }

  /** A remote child that a reply can describe. */
  predicate Mirrorable(e: Entry<Name, Object>, remote: seq<Entry<Name, Object>>) {
    e in remote && e.value.attributes.HashValue?
  }

  predicate TakesChild(factory: Factory, url: Url, e: Entry<Name, Object>) {
    Takes(factory, url, Entry(e.key, e.value.attributes))
  }

  /** Mirroring below an object proxy calls a null pointer exactly when the factory refuses a remote child
      that is not there yet. */
  lemma RefusedRemote(known: seq<Name>, remote: seq<Entry<Name, Object>>, url: Url, factory: Factory)
    requires forall e :: e in remote ==> e.key == e.value.name != [] && SLASH !in e.key && !e.value.attributes.EmptyValue?
    requires Distinct(Keys(remote))
    ensures (exists k: nat :: RefusedAt(known, Listed(Pairs(ListValue(Reply(remote)))), k, url, factory)) <==>
              exists e :: RefusedChild(known, e, remote, url, factory)
  {
    hide Listed, Reply, Keys, DescribedChildren, RefusedAt, RefusedEntry, RefusedChild;
    ReplyLists(remote);
    var listed := DescribedChildren(remote);
    DescribedKeys(remote);
    RefusedListed(known, listed, url, factory);
    if e :| RefusedChild(known, e, remote, url, factory) {
      IsRefused(known, e, remote, url, factory);
    }
    if d :| RefusedEntry(known, d, listed, url, factory) {
      RefusedFrom(known, d, remote, url, factory);
    }
    assert Listed(Pairs(ListValue(Reply(remote)))) == listed;
  }

  /** A remote child that is not there yet, and that the factory refuses. */
  predicate RefusedChild(known: seq<Name>, e: Entry<Name, Object>, remote: seq<Entry<Name, Object>>, url: Url, factory: Factory) {
    Mirrorable(e, remote) && !TakesChild(factory, url, e) && e.key !in known
  }

  predicate RefusedEntry(known: seq<Name>, d: Entry<Name, Value>, listed: seq<Entry<Name, Value>>, url: Url, factory: Factory) {
    d in listed && !Takes(factory, url, d) && d.key !in known
  }

  lemma IsRefused(known: seq<Name>, e: Entry<Name, Object>, remote: seq<Entry<Name, Object>>, url: Url, factory: Factory)
    requires RefusedChild(known, e, remote, url, factory)
    ensures RefusedEntry(known, Entry(e.key, e.value.attributes), DescribedChildren(remote), url, factory)
  {
    hide Takes, DescribedChildren;
    IsDescribed(remote, e);
  }

  lemma RefusedFrom(known: seq<Name>, d: Entry<Name, Value>, remote: seq<Entry<Name, Object>>, url: Url, factory: Factory)
    requires RefusedEntry(known, d, DescribedChildren(remote), url, factory)
    ensures exists e :: RefusedChild(known, e, remote, url, factory)
  {
    hide Takes;
    DescribedMembers(remote);
    var e :| e in remote && e.value.attributes.HashValue? && d == Entry(e.key, e.value.attributes);
    assert RefusedChild(known, e, remote, url, factory);
  }

  lemma IsDescribed(remote: seq<Entry<Name, Object>>, e: Entry<Name, Object>)
    requires Mirrorable(e, remote)
    ensures Entry(e.key, e.value.attributes) in DescribedChildren(remote)
  {
    DescribedMembers(remote);
  }

  lemma RefusedListed(known: seq<Name>, listed: seq<Entry<Name, Value>>, url: Url, factory: Factory)
    requires Distinct(Keys(listed))
    ensures (exists k: nat :: RefusedAt(known, listed, k, url, factory)) <==>
              exists d :: RefusedEntry(known, d, listed, url, factory)
  {
    hide Taken, Takes, Keys;
    if k: nat :| RefusedAt(known, listed, k, url, factory) {
      assert RefusedEntry(known, listed[k], listed, url, factory);
    }
    if d :| RefusedEntry(known, d, listed, url, factory) {
      var k: nat :| k < |listed| && listed[k] == d;
      NotBefore(listed, k, url, factory);
      assert RefusedAt(known, listed, k, url, factory);
    }
  }

  /** With distinct names, none is built under a later one's name. */
  lemma NotBefore(listed: seq<Entry<Name, Value>>, k: nat, url: Url, factory: Factory)
    requires Distinct(Keys(listed)) && k < |listed|
    ensures listed[k].key !in Taken(listed[..k], url, factory)
  {
    hide Takes, Taken, Keys;
    TakenMembers(listed[..k], url, factory);
    forall e | e in listed[..k]
      ensures e.key != listed[k].key
    {
      var j :| 0 <= j < k && listed[j] == e;
      assert Keys(listed)[j] != Keys(listed)[k];
    }
  }
}
