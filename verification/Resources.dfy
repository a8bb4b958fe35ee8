/** The resource cache: memoised construction in depth-first order, with the list of resources
    under construction to detect cycles. */
module Resources {
  // A resource type and an identifier.
  datatype Key = Key(kind: string, id: string)

  // The resources a constructor gets while it runs, in order.
  type Dependencies = Key -> seq<Key>

  // ---- Paths in the dependency relation ----------------------------------------------------

  // Each key is got by the constructor of the one before, and none is in the cache.
  ghost predicate Path(deps: Dependencies, cached: set<Key>, p: seq<Key>) {
    && p != []
    && (forall i :: 0 <= i < |p| ==> p[i] !in cached)
    && (forall i {:trigger deps(p[i])} :: 0 <= i < |p| - 1 ==> p[i + 1] in deps(p[i]))
  }

  ghost predicate PathTo(deps: Dependencies, cached: set<Key>, k: Key, x: Key, p: seq<Key>) {
    Path(deps, cached, p) && p[0] == k && p[|p| - 1] == x
  }

  ghost predicate Reaches(deps: Dependencies, cached: set<Key>, k: Key, x: Key) {
    exists p :: PathTo(deps, cached, k, x, p)
  }

  // The path runs into itself, or into a key that is already being constructed.
  ghost predicate ClosesCycle(deps: Dependencies, cached: set<Key>, busy: seq<Key>, k: Key, p: seq<Key>) {
    && Path(deps, cached, p) && p[0] == k
    && (p[|p| - 1] in busy || p[|p| - 1] in p[..|p| - 1])
  }

  ghost predicate CycleAhead(deps: Dependencies, cached: set<Key>, busy: seq<Key>, k: Key) {
    exists p :: ClosesCycle(deps, cached, busy, k, p)
  }

  lemma PathExtends(deps: Dependencies, cached: set<Key>, k: Key, d: Key, p: seq<Key>)
    requires Path(deps, cached, p) && p[0] == d && d in deps(k) && k !in cached
    ensures Path(deps, cached, [k] + p)
  {
    var q := [k] + p;
    forall i | 0 <= i < |q| - 1
      ensures q[i + 1] in deps(q[i])
    {
      if i > 0 {
        assert p[i - 1 + 1] in deps(p[i - 1]);
      }
    }
  }

  // A cycle met below a dependency of k is a cycle met below k.
  lemma CycleBelow(deps: Dependencies, cached: set<Key>, cached': set<Key>, busy: seq<Key>, k: Key, d: Key)
    requires CycleAhead(deps, cached', [k] + busy, d)
    requires cached <= cached' && d in deps(k) && k !in cached
    ensures CycleAhead(deps, cached, busy, k)
  {
    var p :| ClosesCycle(deps, cached', [k] + busy, d, p);
    PathExtends(deps, cached, k, d, p);
    var q := [k] + p;
    var last := p[|p| - 1];
    assert q[..|q| - 1] == [k] + p[..|p| - 1];
    assert q[|q| - 1] == last;
    if last == k {
      assert q[..|q| - 1][0] == k;
    } else if last !in busy {
      assert last in p[..|p| - 1];
    }
    assert ClosesCycle(deps, cached, busy, k, q);
  }

  lemma ReachesSelf(deps: Dependencies, cached: set<Key>, k: Key)
    requires k !in cached
    ensures Reaches(deps, cached, k, k)
  {
    assert PathTo(deps, cached, k, k, [k]);
  }

  lemma ReachesBelow(deps: Dependencies, cached: set<Key>, cached': set<Key>, k: Key, d: Key, x: Key)
    requires Reaches(deps, cached', d, x)
    requires cached <= cached' && d in deps(k) && k !in cached
    ensures Reaches(deps, cached, k, x)
  {
    var p :| PathTo(deps, cached', d, x, p);
    PathExtends(deps, cached, k, d, p);
    assert PathTo(deps, cached, k, x, [k] + p);
  }

  // Only which resources a constructor gets matters, not in which order.
  lemma OrderDoesNotMatter(deps: Dependencies, deps': Dependencies, cached: set<Key>, busy: seq<Key>, k: Key)
    requires forall x, d {:trigger d in deps(x)} {:trigger d in deps'(x)} :: d in deps(x) <==> d in deps'(x)
    ensures CycleAhead(deps, cached, busy, k) == CycleAhead(deps', cached, busy, k)
    ensures forall x :: Reaches(deps, cached, k, x) == Reaches(deps', cached, k, x)
  {
    assert forall p :: Path(deps, cached, p) == Path(deps', cached, p);
    assert forall p :: ClosesCycle(deps, cached, busy, k, p) == ClosesCycle(deps', cached, busy, k, p);
    assert forall x, p :: PathTo(deps, cached, k, x, p) == PathTo(deps', cached, k, x, p);
  }

  // ---- What construction leaves behind -------------------------------------------------------

  // Every key constructed has its dependencies in the cache, constructed before it if they
  // were constructed at all.
  ghost predicate InOrder(deps: Dependencies, cached: set<Key>, born: map<Key, nat>) {
    && born.Keys <= cached
    && forall x, d {:trigger born[x], d in deps(x)} :: x in born && d in deps(x) ==>
         d in cached && (d in born ==> born[d] < born[x])
  }

  // From a key constructed since, every path of keys not cached before stays among the keys
  // constructed since, and goes back in time.
  lemma {:induction false} PathIsBorn(deps: Dependencies, before: set<Key>, after: set<Key>, born: map<Key, nat>,
                                      p: seq<Key>, i: nat, j: nat)
    requires InOrder(deps, after, born)
    requires forall x :: x in after && x !in before ==> x in born
    requires Path(deps, before, p) && p[0] in after && i < j < |p|
    ensures p[i] in born && p[j] in born && p[j] in after && born[p[j]] < born[p[i]]
    decreases j
  {
    if j == i + 1 {
      if i > 0 {
        PathIsBorn(deps, before, after, born, p, 0, i);
      }
    } else {
      PathIsBorn(deps, before, after, born, p, i, j - 1);
    }
    assert p[j - 1 + 1] in deps(p[j - 1]);
  }

  lemma ReachedIsBorn(deps: Dependencies, before: set<Key>, after: set<Key>, born: map<Key, nat>, k: Key, x: Key)
    requires InOrder(deps, after, born)
    requires forall x :: x in after && x !in before ==> x in born
    requires k in after && Reaches(deps, before, k, x)
    ensures x in after && x !in before
  {
    var p :| PathTo(deps, before, k, x, p);
    if |p| > 1 {
      PathIsBorn(deps, before, after, born, p, 0, |p| - 1);
    }
  }

  // So no cycle was ahead of a key that could be constructed.
  lemma NoCycleAhead(deps: Dependencies, before: set<Key>, after: set<Key>, born: map<Key, nat>,
                     busy: seq<Key>, k: Key)
    requires InOrder(deps, after, born)
    requires forall x :: x in after && x !in before ==> x in born
    requires k in after && forall x :: x in busy ==> x !in after
    ensures !CycleAhead(deps, before, busy, k)
  {
    if p :| ClosesCycle(deps, before, busy, k, p) {
      var n := |p| - 1;
      if p[n] in p[..n] {
        var i :| 0 <= i < n && p[i] == p[n];
        PathIsBorn(deps, before, after, born, p, i, n);
      } else if n > 0 {
        PathIsBorn(deps, before, after, born, p, 0, n);
      }
    }
  }

  // ---- The manager ---------------------------------------------------------------------------

  class Resource {
    const key: Key
    const parts: seq<Resource>   // what its constructor got

    constructor (key: Key, parts: seq<Resource>)
      ensures this.key == key && this.parts == parts
    {
      this.key, this.parts := key, parts;
    }
  }

  // The object is the key's own, made of the cached objects of its dependencies, in order.
  predicate IsOwn(deps: Dependencies, cached: map<Key, Resource>, x: Key, r: Resource) {
    && r.key == x && |r.parts| == |deps(x)|
    && forall i :: 0 <= i < |deps(x)| ==> deps(x)[i] in cached && r.parts[i] == cached[deps(x)[i]]
  }

  predicate AllOwn(deps: Dependencies, cached: map<Key, Resource>, keys: set<Key>) {
    forall x :: x in keys ==> x in cached && IsOwn(deps, cached, x, cached[x])
  }

  lemma OwnStays(deps: Dependencies, cached: map<Key, Resource>, born: map<Key, nat>, k: Key, r: Resource, t: nat)
    requires AllOwn(deps, cached, born.Keys) && k !in cached && IsOwn(deps, cached, k, r)
    ensures AllOwn(deps, cached[k := r], born[k := t].Keys)
  {
    forall x | x in born ensures IsOwn(deps, cached[k := r], x, cached[x]) {
      assert IsOwn(deps, cached, x, cached[x]);
    }
  }

  lemma OwnOfSome(deps: Dependencies, cached: map<Key, Resource>, keys: set<Key>, some: set<Key>)
    requires AllOwn(deps, cached, keys) && some <= keys
    ensures AllOwn(deps, cached, some)
  {
  }

  datatype Fetched = Found(resource: Resource) | Missing | CycleDetected

  class Manager {
    const deps: Dependencies
    ghost const universe: set<Key>   // the keys there are
    var resources: map<Key, Resource>
    var initList: seq<Key>
    ghost var born: map<Key, nat>    // when a resource was constructed
    ghost var clock: nat

    ghost predicate Valid()
      reads this
    {
      && (forall k, d {:trigger d in deps(k)} :: k in universe && d in deps(k) ==> d in universe)
      && InOrder(deps, resources.Keys, born)
      && (forall x :: x in born ==> born[x] < clock)
      && (forall x :: x in initList ==> x in universe && x !in resources)
      && (forall i, j :: 0 <= i < j < |initList| ==> initList[i] != initList[j])
      && AllOwn(deps, resources, born.Keys)
    }

    ghost function Busy(): set<Key>
      reads this
    {
      set x | x in initList
    }

    constructor (deps: Dependencies, ghost universe: set<Key>, loaded: map<Key, Resource>)
      requires forall k, d {:trigger d in deps(k)} :: k in universe && d in deps(k) ==> d in universe
      ensures Valid() && resources == loaded && initList == []
      ensures this.deps == deps && this.universe == universe
    {
      this.deps, this.universe := deps, universe;
      resources, initList, born, clock := loaded, [], map[], 0;
    }

    ghost predicate Keeps(before: map<Key, Resource>)
      reads this
    {
      forall x :: x in before ==> x in resources && resources[x] == before[x]
    }

    // What is in the cache and was not before is what is reached from k.
    ghost predicate Added(before: map<Key, Resource>, k: Key)
      reads this
    {
      forall x :: x in resources && x !in before ==> x in born && Reaches(deps, before.Keys, k, x)
    }

    method GetInternal(k: Key, factory: bool) returns (r: Fetched)
      requires Valid() && k in universe
      modifies this
      ensures Valid() && initList == old(initList) && Keeps(old(resources)) && old(born.Keys) <= born.Keys
      ensures Added(old(resources), k)
      ensures r.Missing? <==> !factory && k !in old(resources)
      ensures r.CycleDetected? <==> factory && CycleAhead(deps, old(resources.Keys), old(initList), k)
      ensures r.Found? ==> k in resources && r.resource == resources[k]
      ensures r.Found? ==>
                forall x :: x in resources && x !in old(resources) <==> Reaches(deps, old(resources.Keys), k, x)
      ensures AllOwn(deps, resources, resources.Keys - old(resources.Keys))
      decreases universe - Busy(), 1
    {
      if k in resources {
        CachedHasNoCycle(k);
        return Found(resources[k]);
      }
      if !factory {
        return Missing;
      }
      if k in initList {
        assert ClosesCycle(deps, resources.Keys, initList, k, [k]);
        return CycleDetected;
      }
      r := Construct(k);
    }

    lemma CachedHasNoCycle(k: Key)
      requires k in resources
      ensures !CycleAhead(deps, resources.Keys, initList, k)
      ensures forall x :: !Reaches(deps, resources.Keys, k, x)
    {
    }

    // The part of get_internal after the checks: the key is in the list while its constructor
    // runs, and is taken off it on every way out.
    method Construct(k: Key) returns (r: Fetched)
      requires Valid() && k in universe && k !in resources && k !in initList
      modifies this
      ensures Valid() && initList == old(initList) && Keeps(old(resources)) && old(born.Keys) <= born.Keys
      ensures Added(old(resources), k)
      ensures !r.Missing?
      ensures r.CycleDetected? <==> CycleAhead(deps, old(resources.Keys), old(initList), k)
      ensures r.Found? ==> k in resources && r.resource == resources[k]
      ensures r.Found? ==>
                forall x :: x in resources && x !in old(resources) <==> Reaches(deps, old(resources.Keys), k, x)
      ensures AllOwn(deps, resources, resources.Keys - old(resources.Keys))
      decreases universe - Busy(), 0
    {
      hide AllOwn, IsOwn, CycleAhead;
      initList := [k] + initList;
      assert Busy() == old(Busy()) + {k} by {
        assert initList[0] == k && initList[1..] == old(initList);
      }
      r := Create(k);
      OwnOfSome(deps, resources, born.Keys, resources.Keys - old(resources.Keys));
      if r.CycleDetected? {
        initList := initList[1..];
        return;
      }
      assert k !in resources;                  // assert(inserted)
      Insert(k, r.resource);
      ReachesSelf(deps, old(resources.Keys), k);
      NoCycleAhead(deps, old(resources.Keys), resources.Keys, born, initList, k);
      forall x | Reaches(deps, old(resources.Keys), k, x)
        ensures x in resources && x !in old(resources)
      {
        ReachedIsBorn(deps, old(resources.Keys), resources.Keys, born, k, x);
      }
      OwnOfSome(deps, resources, born.Keys, resources.Keys - old(resources.Keys));
    }

    method Insert(k: Key, r: Resource)
      requires Valid() && initList != [] && initList[0] == k && k !in resources
      requires IsOwn(deps, resources, k, r) && forall d :: d in deps(k) ==> d in resources
      modifies this
      ensures Valid() && resources == old(resources)[k := r] && initList == old(initList)[1..]
      ensures born == old(born)[k := old(clock)]
    {
      hide AllOwn, IsOwn;
      OwnStays(deps, resources, born, k, r, clock);
      resources := resources[k := r];
      born := born[k := clock];
      clock := clock + 1;
      initList := initList[1..];
    }

    // The constructor of a resource: it gets its dependencies one after the other.
    method Create(k: Key) returns (r: Fetched)
      requires Valid() && initList != [] && initList[0] == k && k !in resources
      modifies this
      ensures Valid() && initList == old(initList) && Keeps(old(resources)) && old(born.Keys) <= born.Keys
      ensures Added(old(resources), k)
      ensures k !in resources
      ensures !r.Missing?
      ensures r.CycleDetected? ==> CycleAhead(deps, old(resources.Keys), old(initList)[1..], k)
      ensures r.Found? ==> forall d :: d in deps(k) ==> d in resources
      ensures r.Found? ==> IsOwn(deps, resources, k, r.resource)
      decreases universe - Busy(), 3
    {
      hide AllOwn;
      var ds, parts := deps(k), [];
      for i := 0 to |ds|
        invariant Valid() && initList == old(initList) && Keeps(old(resources)) && Added(old(resources), k)
        invariant |parts| == i && old(born.Keys) <= born.Keys
        invariant forall j :: 0 <= j < i ==> ds[j] in resources && parts[j] == resources[ds[j]]
      {
        hide CycleAhead, Reaches, InOrder;
        r := GetDependency(k, ds[i], old(resources));
        if r.CycleDetected? {
          return;
        }
        parts := parts + [r.resource];
      }
      var resource := new Resource(k, parts);
      r := Found(resource);
    }

    method GetDependency(k: Key, d: Key, ghost before: map<Key, Resource>) returns (r: Fetched)
      requires Valid() && initList != [] && initList[0] == k && d in deps(k)
      requires Keeps(before) && Added(before, k)
      modifies this
      ensures Valid() && initList == old(initList) && Keeps(before) && Added(before, k)
      ensures Keeps(old(resources)) && old(born.Keys) <= born.Keys
      ensures !r.Missing?
      ensures r.CycleDetected? ==> CycleAhead(deps, before.Keys, initList[1..], k)
      ensures r.Found? ==> d in resources && r.resource == resources[d]
      decreases universe - Busy(), 2
    {
      hide CycleAhead, Reaches, InOrder;
      ghost var cached := resources.Keys;
      assert k in initList && k in universe;
      r := GetInternal(d, true);
      forall x | x in resources && x !in before
        ensures Reaches(deps, before.Keys, k, x)
      {
        if x !in cached {
          ReachesBelow(deps, before.Keys, cached, k, d, x);
        }
      }
      if r.CycleDetected? {
        assert initList == [k] + initList[1..];
        CycleBelow(deps, before.Keys, cached, initList[1..], k, d);
      }
    }
  }
}
