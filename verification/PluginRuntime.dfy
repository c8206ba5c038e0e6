/** The plugin loader, its published snapshots and the pipeline's collector cache over one heap of
    reference-counted objects. Every method is one critical section or the release of one local
    reference, so any sequence of calls is an interleaving of the threads. */
module PluginRuntime {
  import opened Basics
  import opened PluginHeap

  /** Reference counts equal the number of holders, and held objects exist. */
  ghost predicate CountsOk<T>(refs: map<Addr, nat>, owners: map<Addr, set<T>>) {
    refs.Keys == owners.Keys && forall p: Addr :: p in owners ==> refs[p] == |owners[p]| && owners[p] != {}
  }

  /** No plugin is destroyed twice, and what exists has not been destroyed. */
  ghost predicate LivesOk(plugins: map<Addr, Plugin>, destroyed: seq<nat>, nextUid: nat) {
    && NoDuplicates(destroyed)
    && (forall u :: u in destroyed ==> u < nextUid)
    && (forall p: Addr :: p in plugins ==> plugins[p].uid < nextUid && plugins[p].uid !in destroyed)
    && (forall p: Addr, q: Addr :: p in plugins && q in plugins && p != q ==> plugins[p].uid != plugins[q].uid)
  }

  /** What still exists is what it was. */
  ghost predicate Subheap<T(!new)>(after: map<Addr, T>, before: map<Addr, T>) {
    forall p: Addr :: p in after ==> p in before && after[p] == before[p]
  }

  /** Every member of l has an owner besides o. */
  ghost predicate OwnedOtherwise(owners: Owners, l: seq<Addr>, o: Owner) {
    forall p: Addr :: p in l ==> p in owners && owners[p] != {o}
  }

  /** Every member of l is held by a record or by an unload call. */
  ghost predicate StillHeld(l: seq<Addr>, records: seq<Record>, dropping: map<nat, seq<Addr>>) {
    forall p: Addr :: p in l ==> InRecord(records, p) || exists t: nat :: t in dropping && p in dropping[t]
  }

  lemma StillHeldAfter(l: seq<Addr>, records: seq<Record>, dropping: map<nat, seq<Addr>>, after: seq<Record>, moved: map<nat, seq<Addr>>)
    requires StillHeld(l, records, dropping)
    requires forall p: Addr :: InRecord(records, p) ==> InRecord(after, p) || exists t: nat :: t in moved && p in moved[t]
    requires forall t: nat :: t in dropping ==> t in moved && moved[t] == dropping[t]
    ensures StillHeld(l, after, moved)
  {
  }

  lemma StillHeldOwned(owners: Owners, records: seq<Record>, sets: map<Addr, PluginSet>, dropping: map<nat, seq<Addr>>, l: seq<Addr>, a: Addr)
    requires OwnersExact(owners, records, sets, dropping) && StillHeld(l, records, dropping)
    ensures OwnedOtherwise(owners, l, InSet(a))
  {
    forall p: Addr | p in l
      ensures p in owners && owners[p] != {InSet(a)}
    {
      if InRecord(records, p) {
        assert Owns(InRecords, p, records, sets, dropping);
      } else {
        var t: nat :| t in dropping && p in dropping[t];
        assert Owns(Dropped(t), p, records, sets, dropping);
      }
    }
  }

  /** Owner o has let go of the members of l. */
  ghost function LetGo(owners: Owners, l: seq<Addr>, o: Owner): Owners {
    map p | p in owners && !(p in l && owners[p] - {o} == {}) :: if p in l then owners[p] - {o} else owners[p]
  }

  lemma LetGoAll(owners: Owners, l: seq<Addr>, o: Owner)
    requires forall p: Addr :: p in owners && o in owners[p] ==> p in l
    requires forall p: Addr :: p in owners ==> owners[p] != {}
    ensures LetGo(owners, l, o) == Disown(owners, o)
  {
    forall p: Addr | p in owners && p !in l
      ensures owners[p] - {o} == owners[p]
    {
    }
  }

  /** Dropping a count that stays positive, and dropping the last one. */
  lemma CountDown<T>(refs: map<Addr, nat>, owners: map<Addr, set<T>>, p: Addr, o: T)
    requires CountsOk(refs, owners) && p in owners && o in owners[p]
    ensures p in refs && refs[p] > 0 && (refs[p] == 1 <==> owners[p] == {o})
    ensures owners[p] == {o} ==> CountsOk(refs - {p}, owners - {p})
    ensures owners[p] != {o} ==> CountsOk(refs[p := refs[p] - 1], owners[p := owners[p] - {o}])
  {
    var rest := owners[p] - {o};
    assert owners[p] == rest + {o};
    assert |owners[p]| == |rest| + 1;
    if refs[p] == 1 { assert rest == {}; }
  }

  lemma CountUp<T>(refs: map<Addr, nat>, owners: map<Addr, set<T>>, p: Addr, o: T)
    requires CountsOk(refs, owners) && p in owners && o !in owners[p]
    ensures p in refs && CountsOk(refs[p := refs[p] + 1], owners[p := owners[p] + {o}])
  {
  }

  lemma Destroy(plugins: map<Addr, Plugin>, destroyed: seq<nat>, nextUid: nat, p: Addr)
    requires LivesOk(plugins, destroyed, nextUid) && p in plugins
    ensures LivesOk(plugins - {p}, destroyed + [plugins[p].uid], nextUid)
  {
  }

  /** Every cached answer is the best collector of the set the cache is keyed on. */
  ghost predicate CacheOk(score: Score, plugins: map<Addr, Plugin>, sets: map<Addr, PluginSet>, generation: Option<Addr>,
                          cache: map<string, Option<Addr>>) {
    match generation
    case None => cache == map[]
    case Some(a) => a in sets && forall s :: s in cache ==> cache[s] == Best(score, plugins, sets[a].collectors, s)
  }

  /** Keeping only what is still owned does not change the cache's answers. */
  lemma CacheSurvives(score: Score, before: map<Addr, Plugin>, after: map<Addr, Plugin>, sets: map<Addr, PluginSet>,
                      rest: map<Addr, PluginSet>, generation: Option<Addr>, cache: map<string, Option<Addr>>)
    requires CacheOk(score, before, sets, generation, cache) && Subheap(after, before)
    requires generation.Some? ==>
               && generation.value in rest && generation.value in sets && rest[generation.value] == sets[generation.value]
               && PointersKept(rest[generation.value]) && forall p: Addr :: p in rest[generation.value].all ==> p in after
    ensures CacheOk(score, after, rest, generation, cache)
  {
    if generation.Some? {
      var collectors := rest[generation.value].collectors;
      forall s | s in cache
        ensures cache[s] == Best(score, after, collectors, s)
      {
        assert forall i :: 0 <= i < |collectors| ==> collectors[i] in collectors;
        BestSame(score, before, after, collectors, s);
      }
    }
  }

  lemma RecordsOwned(owners: Owners, records: seq<Record>, sets: map<Addr, PluginSet>, dropping: map<nat, seq<Addr>>)
    requires OwnersExact(owners, records, sets, dropping)
    ensures forall p: Addr :: InRecord(records, p) ==> p in owners
    ensures forall a: Addr, p: Addr :: a in sets && p in sets[a].all ==> p in owners
    ensures forall a: Addr, p: Addr :: a in sets ==> (p in sets[a].all <==> p in owners && InSet(a) in owners[p])
    ensures forall a: Addr, p: Addr :: a !in sets && p in owners ==> InSet(a) !in owners[p]
    ensures forall t: nat, p: Addr :: t in dropping ==> (p in dropping[t] <==> p in owners && Dropped(t) in owners[p])
  {
    forall p: Addr | InRecord(records, p)
      ensures p in owners
    {
      assert Owns(InRecords, p, records, sets, dropping);
    }
    forall a: Addr, p: Addr | a in sets
      ensures p in sets[a].all <==> p in owners && InSet(a) in owners[p]
    {
      assert p in sets[a].all ==> Owns(InSet(a), p, records, sets, dropping);
    }
    forall t: nat, p: Addr | t in dropping
      ensures p in dropping[t] <==> p in owners && Dropped(t) in owners[p]
    {
      assert p in dropping[t] ==> Owns(Dropped(t), p, records, sets, dropping);
    }
  }

  lemma AdoptNext(owners: Owners, l: seq<Addr>, p: Addr, o: Owner)
    requires p in owners && p !in l && o !in owners[p]
    ensures var mid := Adopt(owners, l, o);
            p in mid && o !in mid[p] && Adopt(owners, l + [p], o) == mid[p := mid[p] + {o}]
  {
  }

  lemma AdoptNone(owners: Owners, o: Owner)
    ensures Adopt(owners, [], o) == owners
  {
  }

  /** One more record of the list. */
  lemma SetOfNext(records: seq<Record>, i: nat, plugins: map<Addr, Plugin>)
    requires i < |records| && DistinctRecords(records) && forall p: Addr :: InRecord(records, p) ==> p in plugins
    ensures records[i].plugin.Some? ==>
              InRecord(records, records[i].plugin.value) && records[i].plugin.value !in SetOf(records[..i], plugins).all
    ensures SetOf(records[..i + 1], plugins) ==
              if records[i].plugin == None then SetOf(records[..i], plugins)
              else
                var p, s := records[i].plugin.value, SetOf(records[..i], plugins);
                PluginSet(s.all + [p], s.collectors + Filter(records[i].enabled && plugins[p].collector, p),
                          s.analyzers + Filter(records[i].enabled && plugins[p].analyzer, p),
                          s.alerts + Filter(records[i].enabled && plugins[p].alert, p))
  {
    assert records[..i + 1][..i] == records[..i];
    if records[i].plugin.Some? {
      assert InRecord(records, records[i].plugin.value);
      forall p: Addr | InRecord(records[..i], p)
        ensures InRecord(records, p) && p != records[i].plugin.value
      {
        var j :| 0 <= j < i && records[..i][j].plugin == Some(p);
        assert records[j].plugin == Some(p);
      }
      assert DistinctRecords(records[..i]) by { assert forall j :: 0 <= j < i ==> records[..i][j] == records[j]; }
      SetOfMembers(records[..i], plugins);
    }
  }

  /** The operations of the loader, of pipeline threads and of the collector cache. */
  datatype Op =
    | Load(p: Addr, name: string, soPath: string, collector: bool, analyzer: bool, alert: bool, addr: Addr)
    | Fail(soPath: string, error: string)
    | Enable(name: string, enabled: bool, addr: Addr)
    | Unload(t: nat, name: string, addr: Addr)
    | UnloadEverything(t: nat, addr: Addr)
    | Finish(t: nat)
    | Take(t: nat)
    | LetGoOf(t: nat)
    | Pick(t: nat, source: string)

  class Runtime {
    const score: Score

    var plugins: map<Addr, Plugin>
    var pluginRefs: map<Addr, nat>
    var sets: map<Addr, PluginSet>
    var setRefs: map<Addr, nat>

    var records: seq<Record>
    var snapshot: Addr
    var generation: Option<Addr>
    var cache: map<string, Option<Addr>>

    /** Local references of threads: a snapshot in use, plugins an unload call is about to drop. */
    var held: map<nat, Addr>
    var dropping: map<nat, seq<Addr>>

    var destroyed: seq<nat>
    var nextUid: nat

    ghost var owners: Owners
    ghost var holders: Holders

    ghost predicate PluginsOk()
      reads this`plugins, this`pluginRefs, this`owners, this`destroyed, this`nextUid
    {
      CountsOk(pluginRefs, owners) && plugins.Keys == owners.Keys && LivesOk(plugins, destroyed, nextUid)
    }

    ghost predicate SetsOk()
      reads this`sets, this`setRefs, this`holders
    {
      CountsOk(setRefs, holders) && sets.Keys == holders.Keys
    }

    ghost predicate Exact()
      reads this
    {
      && OwnersExact(owners, records, sets, dropping)
      && HoldersExact(holders, snapshot, generation, held)
      && DistinctRecords(records)
      && (forall a: Addr :: a in sets ==> PointersKept(sets[a]))
      && (forall t: nat :: t in dropping ==> NoDuplicates(dropping[t]))
    }

    /** Holds whenever no critical section is being executed. */
    ghost predicate Valid()
      reads this
    {
      && PluginsOk() && SetsOk() && Exact()
      && CacheOk(score, plugins, sets, generation, cache)
      && snapshot in sets && sets[snapshot] == SetOf(records, plugins)
    }

    /** Dropping one shared_ptr to a plugin: the last one destroys it. */
    method ReleasePlugin(p: Addr, ghost o: Owner)
      requires PluginsOk() && p in owners && o in owners[p]
      modifies this`plugins, this`pluginRefs, this`destroyed, this`owners
      ensures PluginsOk() && plugins == if old(owners)[p] == {o} then old(plugins) - {p} else old(plugins)
      ensures owners == if old(owners)[p] == {o} then old(owners) - {p} else old(owners)[p := old(owners)[p] - {o}]
      ensures destroyed == if old(owners)[p] == {o} then old(destroyed) + [old(plugins)[p].uid] else old(destroyed)
    {
      hide LivesOk;
      CountDown(pluginRefs, owners, p, o);
      Destroy(plugins, destroyed, nextUid, p);
      SameKeys(plugins, owners, p, owners[p] - {o});
      hide CountsOk;
      if pluginRefs[p] == 1 {
        destroyed := destroyed + [plugins[p].uid];
        plugins := plugins - {p};
        pluginRefs := pluginRefs - {p};
        owners := owners - {p};
      } else {
        pluginRefs := pluginRefs[p := pluginRefs[p] - 1];
        owners := owners[p := owners[p] - {o}];
      }
    }

    static lemma SameKeys(plugins: map<Addr, Plugin>, owners: Owners, p: Addr, rest: set<Owner>)
      requires plugins.Keys == owners.Keys && p in owners
      ensures p in plugins && (plugins - {p}).Keys == (owners - {p}).Keys && plugins.Keys == owners[p := rest].Keys
    {
    }

    /** Destroying a vector of plugin references. */
    method ReleaseAll(l: seq<Addr>, ghost o: Owner)
      requires PluginsOk() && NoDuplicates(l)
      requires forall p: Addr :: p in l <==> p in owners && o in owners[p]
      modifies this`plugins, this`pluginRefs, this`destroyed, this`owners
      ensures PluginsOk() && Subheap(plugins, old(plugins)) && old(destroyed) <= destroyed
      ensures owners == Disown(old(owners), o)
      ensures OwnedOtherwise(old(owners), l, o) ==> plugins == old(plugins) && destroyed == old(destroyed)
    {
      hide CountsOk, LivesOk, Disown, LetGo;
      ghost var before := owners;
      LetGoNone(before, o);
      OwnedSomehow();
      for i := 0 to |l|
        invariant PluginsOk() && Subheap(plugins, old(plugins)) && old(destroyed) <= destroyed
        invariant owners == LetGo(before, l[..i], o)
        invariant OwnedOtherwise(before, l, o) ==> plugins == old(plugins) && destroyed == old(destroyed)
      {
        assert l[i] in l && l[i] !in l[..i] && l[..i + 1] == l[..i] + [l[i]];
        LetGoNext(before, l[..i], l[i], o);
        ReleasePlugin(l[i], o);
      }
      assert l[..|l|] == l;
      LetGoAll(before, l, o);
    }

    lemma OwnedSomehow()
      requires PluginsOk()
      ensures forall p: Addr :: p in owners ==> owners[p] != {}
    {
    }

    static lemma LetGoNext(owners: Owners, l: seq<Addr>, p: Addr, o: Owner)
      requires p in owners && o in owners[p] && p !in l
      ensures var after := LetGo(owners, l, o);
              p in after && o in after[p] && after[p] == owners[p] &&
              LetGo(owners, l + [p], o) == if after[p] == {o} then after - {p} else after[p := after[p] - {o}]
    {
      assert owners[p] - {o} == {} <==> owners[p] == {o};
    }

    static lemma LetGoNone(owners: Owners, o: Owner)
      ensures LetGo(owners, [], o) == owners
    {
    }

    /** Dropping one shared_ptr to a set: the last one destroys it and its references to plugins. */
    method ReleaseSet(a: Addr, ghost h: Holder)
      requires PluginsOk() && SetsOk() && a in holders && h in holders[a] && PointersKept(sets[a])
      requires forall p: Addr :: p in sets[a].all <==> p in owners && InSet(a) in owners[p]
      modifies this`plugins, this`pluginRefs, this`sets, this`setRefs, this`destroyed, this`owners, this`holders
      ensures PluginsOk() && SetsOk() && Subheap(plugins, old(plugins)) && old(destroyed) <= destroyed
      ensures OwnedOtherwise(old(owners), old(sets)[a].all, InSet(a)) ==> plugins == old(plugins) && destroyed == old(destroyed)
      ensures holders == Release(old(holders), a, h)
      ensures if old(holders)[a] == {h} then sets == old(sets) - {a} && owners == Disown(old(owners), InSet(a))
              else sets == old(sets) && owners == old(owners)
    {
      CountDown(setRefs, holders, a, h);
      hide CountsOk, LivesOk, Disown;
      if setRefs[a] == 1 {
        var s := sets[a];
        sets := sets - {a};
        setRefs := setRefs - {a};
        holders := holders - {a};
        ReleaseAll(s.all, InSet(a));
      } else {
        setRefs := setRefs[a := setRefs[a] - 1];
        holders := holders[a := holders[a] - {h}];
      }
    }

    /** Everything but the published set being up to date. */
    ghost predicate Consistent()
      reads this
    {
      PluginsOk() && SetsOk() && Exact() && CacheOk(score, plugins, sets, generation, cache)
    }

    /** Letting go of a set, when that makes the holders exact again. */
    method DropSet(a: Addr, ghost h: Holder)
      requires PluginsOk() && SetsOk() && a in holders && h in holders[a]
      requires OwnersExact(owners, records, sets, dropping) && HoldersExact(Release(holders, a, h), snapshot, generation, held)
      requires DistinctRecords(records) && (forall b: Addr :: b in sets ==> PointersKept(sets[b]))
      requires forall t: nat :: t in dropping ==> NoDuplicates(dropping[t])
      requires CacheOk(score, plugins, sets, generation, cache)
      requires snapshot in sets && sets[snapshot] == SetOf(records, plugins)
      modifies this`plugins, this`pluginRefs, this`sets, this`setRefs, this`destroyed, this`owners, this`holders
      ensures Valid() && Subheap(plugins, old(plugins)) && holders == Release(old(holders), a, h)
      ensures Subheap(sets, old(sets)) && old(destroyed) <= destroyed
      ensures OwnedOtherwise(old(owners), old(sets)[a].all, InSet(a)) ==> plugins == old(plugins) && destroyed == old(destroyed)
    {
      hide CountsOk, LivesOk, PointersKept, NoDuplicates, DistinctRecords, CacheOk, OwnersExact, HoldersExact, Disown;
      ghost var sets0, plugins0, owners0 := sets, plugins, owners;
      RecordsOwned(owners, records, sets, dropping);
      DestroySetExact(owners, records, sets, dropping, a);
      ReleaseSet(a, h);
      SurvivorsKept(sets0);
      RecordsOwned(owners, records, sets, dropping);
      CacheSurvives(score, plugins0, plugins, sets0, sets, generation, cache);
      SetOfSame(records, plugins0, plugins);
    }

    /** What is published and what the cache is keyed on is held, hence still there. */
    lemma SurvivorsKept(before: map<Addr, PluginSet>)
      requires SetsOk() && HoldersExact(holders, snapshot, generation, held)
      ensures snapshot in sets && (generation.Some? ==> generation.value in sets)
      ensures forall t: nat :: t in held ==> held[t] in sets
    {
      assert Keeps(Published, snapshot, snapshot, generation, held);
      if generation.Some? { assert Keeps(Cached, generation.value, snapshot, generation, held); }
      forall t: nat | t in held
        ensures held[t] in sets
      {
        assert Keeps(Thread(t), held[t], snapshot, generation, held);
      }
    }

    /** Copying a shared_ptr to a plugin. */
    method RetainPlugin(p: Addr, ghost o: Owner)
      requires PluginsOk() && p in owners && o !in owners[p]
      modifies this`pluginRefs, this`owners
      ensures PluginsOk() && owners == old(owners)[p := old(owners)[p] + {o}]
    {
      CountUp(pluginRefs, owners, p, o);
      hide CountsOk, LivesOk;
      pluginRefs := pluginRefs[p := pluginRefs[p] + 1];
      owners := owners[p := owners[p] + {o}];
    }

    /** The loop of rebuild_snapshot_locked: disabled plugins are kept alive but not handed out. */
    method BuildSet(ghost addr: Addr) returns (built: PluginSet)
      requires PluginsOk() && OwnersExact(owners, records, sets, dropping) && DistinctRecords(records) && addr !in sets
      modifies this`pluginRefs, this`owners
      ensures PluginsOk() && built == SetOf(records, plugins) && PointersKept(built)
      ensures owners == Adopt(old(owners), built.all, InSet(addr))
      ensures forall p: Addr :: p in built.all ==> p in old(owners)
    {
      hide CountsOk, LivesOk, OwnersExact, DistinctRecords, SetOf, Adopt;
      ghost var before := owners;
      RecordsOwned(owners, records, sets, dropping);
      SetOfMembers(records, plugins);
      AdoptNone(before, InSet(addr));
      built := PluginSet([], [], [], []);
      assert built == SetOf(records[..0], plugins) by { EmptySet(); }
      for i := 0 to |records|
        invariant PluginsOk() && built == SetOf(records[..i], plugins)
        invariant owners == Adopt(before, built.all, InSet(addr))
      {
        SetOfNext(records, i, plugins);
        var r := records[i];
        if r.plugin == None { continue; }
        var p := r.plugin.value;
        AdoptNext(before, built.all, p, InSet(addr));
        RetainPlugin(p, InSet(addr));
        built := built.(all := built.all + [p]);
        if r.enabled {
          if plugins[p].collector { built := built.(collectors := built.collectors + [p]); }
          if plugins[p].analyzer { built := built.(analyzers := built.analyzers + [p]); }
          if plugins[p].alert { built := built.(alerts := built.alerts + [p]); }
        }
      }
      assert records[..|records|] == records;
    }

    lemma EmptySet()
      ensures SetOf(records[..0], plugins) == PluginSet([], [], [], [])
    {
    }

    /** rebuild_snapshot_locked at an address the allocator chose: publish the new set, let go of the
        old one. */
    method Publish(addr: Addr)
      requires Consistent() && addr !in sets && snapshot in sets
      modifies this`plugins, this`pluginRefs, this`sets, this`setRefs, this`snapshot, this`destroyed, this`owners, this`holders
      ensures Valid() && snapshot == addr && Subheap(plugins, old(plugins))
      ensures Subheap(sets - {addr}, old(sets)) && old(destroyed) <= destroyed
      ensures StillHeld(old(sets)[old(snapshot)].all, records, dropping) ==> plugins == old(plugins) && destroyed == old(destroyed)
    {
      hide StillHeld, OwnedOtherwise, CountsOk, LivesOk, PointersKept, NoDuplicates, DistinctRecords, CacheOk, OwnersExact, HoldersExact, Adopt, SetOf, Release;
      ghost var owners0 := owners;
      var s := BuildSet(addr);
      PublishExact(owners0, records, sets, dropping, addr, s);
      if StillHeld(sets[snapshot].all, records, dropping) {
        StillHeldOwned(owners, records, sets[addr := s], dropping, sets[snapshot].all, snapshot);
      }
      SwitchTo(addr, s);
    }

    /** m_snapshot takes the new set and lets go of the previous one. */
    method SwitchTo(addr: Addr, s: PluginSet)
      requires PluginsOk() && SetsOk() && addr !in sets && snapshot in sets && PointersKept(s) && s == SetOf(records, plugins)
      requires OwnersExact(owners, records, sets[addr := s], dropping) && HoldersExact(holders, snapshot, generation, held)
      requires DistinctRecords(records) && (forall b: Addr :: b in sets ==> PointersKept(sets[b]))
      requires forall t: nat :: t in dropping ==> NoDuplicates(dropping[t])
      requires CacheOk(score, plugins, sets, generation, cache)
      modifies this`plugins, this`pluginRefs, this`sets, this`setRefs, this`snapshot, this`destroyed, this`owners, this`holders
      ensures Valid() && snapshot == addr && Subheap(plugins, old(plugins))
      ensures Subheap(sets - {addr}, old(sets)) && old(destroyed) <= destroyed
      ensures OwnedOtherwise(old(owners), old(sets)[old(snapshot)].all, InSet(old(snapshot))) ==>
                plugins == old(plugins) && destroyed == old(destroyed)
    {
      hide CountsOk, LivesOk, PointersKept, NoDuplicates, DistinctRecords, CacheOk, OwnersExact, HoldersExact, SetOf, Release, OwnedOtherwise;
      PublishHolders(holders, snapshot, generation, held, addr);
      NewSetCounts(setRefs, holders, addr);
      CacheGrows(score, plugins, sets, addr, s, generation, cache);
      var previous := snapshot;
      sets := sets[addr := s];
      setRefs := setRefs[addr := 1];
      holders := holders[addr := {Published}];
      snapshot := addr;
      DropSet(previous, Published);
    }

    static lemma NewSetCounts(refs: map<Addr, nat>, holders: Holders, addr: Addr)
      requires CountsOk(refs, holders)
      ensures CountsOk(refs[addr := 1], holders[addr := {Published}])
    {
    }

    static lemma CacheGrows(score: Score, plugins: map<Addr, Plugin>, sets: map<Addr, PluginSet>, addr: Addr, s: PluginSet,
                            generation: Option<Addr>, cache: map<string, Option<Addr>>)
      requires CacheOk(score, plugins, sets, generation, cache) && addr !in sets
      ensures CacheOk(score, plugins, sets[addr := s], generation, cache)
    {
    }

    /** The published set consists of plugins that have a record. */
    lemma PublishedHeld()
      requires Valid()
      ensures snapshot in sets && StillHeld(sets[snapshot].all, records, dropping)
    {
      hide CountsOk, LivesOk, CacheOk, OwnersExact, HoldersExact;
      RecordsOwned(owners, records, sets, dropping);
      SetOfMembers(records, plugins);
    }

    // ---------- the loader's operations ----------

    constructor (score: Score, addr: Addr)
      ensures Valid() && records == [] && sets == map[addr := PluginSet([], [], [], [])] && snapshot == addr
      ensures plugins == map[] && destroyed == [] && held == map[] && dropping == map[]
    {
      this.score := score;
      plugins, pluginRefs, owners := map[], map[], map[];
      sets, setRefs, holders := map[addr := PluginSet([], [], [], [])], map[addr := 1], map[addr := {Published}];
      records, snapshot, generation, cache := [], addr, None, map[];
      held, dropping, destroyed, nextUid := map[], map[], [], 0;
    }

    /** A library that failed to load is only recorded; nothing is published anew. */
    method RecordFailure(soPath: string, error: string)
      requires Valid()
      modifies this`records
      ensures Valid() && records == old(records) + [Record(None, soPath, error, false)]
      ensures sets[snapshot] == SetOf(old(records), plugins)
    {
      hide CountsOk, LivesOk, PointersKept, NoDuplicates, CacheOk, HoldersExact, SetOf;
      var r := Record(None, soPath, error, false);
      FailureNotPublished(records, plugins, r);
      EditExact(owners, records, records + [r], sets, dropping);
      records := records + [r];
    }

    /** An edit of the records that keeps their plugins. */
    static lemma EditExact(owners: Owners, records: seq<Record>, after: seq<Record>, sets: map<Addr, PluginSet>, dropping: map<nat, seq<Addr>>)
      requires OwnersExact(owners, records, sets, dropping)
      requires forall p: Addr :: InRecord(after, p) <==> InRecord(records, p)
      ensures OwnersExact(owners, after, sets, dropping)
    {
      forall p: Addr, o: Owner
        ensures Owns(o, p, after, sets, dropping) <==> Owns(o, p, records, sets, dropping)
      {
      }
      assert OwnersExact(owners, after, sets, dropping);
    }

    /** The end of load_plugin: the new plugin, at an address the allocator chose, gets a record and a
        new snapshot. */
    method LoadPlugin(p: Addr, name: string, soPath: string, collector: bool, analyzer: bool, alert: bool, addr: Addr)
      requires Valid() && p !in plugins && addr !in sets
      modifies this
      ensures Valid() && snapshot == addr
      ensures records == old(records) + [Record(Some(p), soPath, "", true)]
      ensures plugins == old(plugins)[p := Plugin(old(nextUid), name, collector, analyzer, alert)] && destroyed == old(destroyed)
      ensures Subheap(sets - {addr}, old(sets))
      ensures held == old(held) && dropping == old(dropping) && generation == old(generation) && cache == old(cache)
    {
      hide CountsOk, LivesOk, PointersKept, NoDuplicates, DistinctRecords, CacheOk, OwnersExact, HoldersExact, SetOf, InRecord, StillHeld;
      var r := Record(Some(p), soPath, "", true);
      PublishedHeld();
      RecordAdded(records, r);
      StillHeldAfter(sets[snapshot].all, records, dropping, records + [r], dropping);
      AddRecord(r, Plugin(nextUid, name, collector, analyzer, alert));
      Publish(addr);
    }

    static lemma RecordAdded(records: seq<Record>, r: Record)
      ensures forall p: Addr :: InRecord(records, p) ==> InRecord(records + [r], p)
    {
      forall p: Addr | InRecord(records, p)
        ensures InRecord(records + [r], p)
      {
        var i :| 0 <= i < |records| && records[i].plugin == Some(p);
        assert (records + [r])[i].plugin == Some(p);
      }
    }

    /** Creating the LoadedPlugin object and recording it. */
    method AddRecord(r: Record, plugin: Plugin)
      requires Consistent() && r.plugin.Some? && r.plugin.value !in plugins && plugin.uid == nextUid
      modifies this`plugins, this`pluginRefs, this`owners, this`nextUid, this`records
      ensures Consistent() && records == old(records) + [r] && plugins == old(plugins)[r.plugin.value := plugin]
    {
      hide CountsOk, LivesOk, PointersKept, NoDuplicates, DistinctRecords, CacheOk, OwnersExact, HoldersExact, InRecord;
      var p := r.plugin.value;
      LoadExact(owners, records, sets, dropping, r);
      LoadDistinct(owners, records, r, sets, dropping);
      CacheExtends(score, plugins, p, plugin, owners, records, sets, dropping, generation, cache);
      NewPlugin(p, plugin);
      records := records + [r];
    }

    /** An object with one reference to it. */
    method NewPlugin(p: Addr, plugin: Plugin)
      requires PluginsOk() && p !in plugins && plugin.uid == nextUid
      modifies this`plugins, this`pluginRefs, this`owners, this`nextUid
      ensures PluginsOk() && plugins == old(plugins)[p := plugin] && owners == old(owners)[p := {InRecords}]
    {
      hide CountsOk, LivesOk;
      NewPluginOk(plugins, pluginRefs, owners, destroyed, nextUid, p, plugin);
      plugins := plugins[p := plugin];
      pluginRefs := pluginRefs[p := 1];
      owners := owners[p := {InRecords}];
      nextUid := nextUid + 1;
    }

    static lemma LoadDistinct(owners: Owners, records: seq<Record>, r: Record, sets: map<Addr, PluginSet>, dropping: map<nat, seq<Addr>>)
      requires OwnersExact(owners, records, sets, dropping) && DistinctRecords(records) && r.plugin.Some? && r.plugin.value !in owners
      ensures DistinctRecords(records + [r])
    {
      RecordsOwned(owners, records, sets, dropping);
      assert !InRecord(records, r.plugin.value);
    }

    static lemma NewPluginOk(plugins: map<Addr, Plugin>, refs: map<Addr, nat>, owners: Owners, destroyed: seq<nat>, nextUid: nat, p: Addr, plugin: Plugin)
      requires CountsOk(refs, owners) && LivesOk(plugins, destroyed, nextUid) && p !in plugins && plugin.uid == nextUid && plugins.Keys == owners.Keys
      ensures CountsOk(refs[p := 1], owners[p := {InRecords}]) && LivesOk(plugins[p := plugin], destroyed, nextUid + 1)
      ensures plugins[p := plugin].Keys == owners[p := {InRecords}].Keys
    {
    }

    static lemma CacheExtends(score: Score, before: map<Addr, Plugin>, p: Addr, plugin: Plugin, owners: Owners, records: seq<Record>,
                              sets: map<Addr, PluginSet>, dropping: map<nat, seq<Addr>>, generation: Option<Addr>, cache: map<string, Option<Addr>>)
      requires CacheOk(score, before, sets, generation, cache) && p !in before && before.Keys == owners.Keys
      requires OwnersExact(owners, records, sets, dropping) && forall a: Addr :: a in sets ==> PointersKept(sets[a])
      ensures CacheOk(score, before[p := plugin], sets, generation, cache)
    {
      RecordsOwned(owners, records, sets, dropping);
      if generation.Some? {
        var collectors := sets[generation.value].collectors;
        forall s | s in cache
          ensures cache[s] == Best(score, before[p := plugin], collectors, s)
        {
          assert PointersKept(sets[generation.value]);
          assert forall i :: 0 <= i < |collectors| ==> collectors[i] in collectors;
          BestSame(score, before, before[p := plugin], collectors, s);
        }
      }
    }

    /** The check at the start of load_plugin. */
    method AlreadyLoaded(soPath: string) returns (loaded: bool)
      ensures loaded <==> exists i :: 0 <= i < |records| && records[i].plugin.Some? && records[i].soPath == soPath
    {
      for i := 0 to |records|
        invariant forall j :: 0 <= j < i ==> !(records[j].plugin.Some? && records[j].soPath == soPath)
      {
        if records[i].plugin.Some? && records[i].soPath == soPath { return true; }
      }
      return false;
    }

    /** The first record of a loaded plugin with this name, or the number of records. */
    method Find(name: string) returns (i: nat)
      requires Valid()
      ensures i == FirstNamed(records, plugins, name, 0) <= |records|
      ensures i < |records| ==> Named(records, plugins, name, i)
    {
      hide CountsOk, LivesOk, OwnersExact, HoldersExact, CacheOk, SetOf;
      RecordsOwned(owners, records, sets, dropping);
      i := 0;
      while i < |records|
        invariant i <= |records| && FirstNamed(records, plugins, name, 0) == FirstNamed(records, plugins, name, i)
      {
        if records[i].plugin.Some? {
          assert InRecord(records, records[i].plugin.value);
          if plugins[records[i].plugin.value].name == name { return; }
        }
        i := i + 1;
      }
    }

    method SetEnabled(name: string, enabled: bool, addr: Addr) returns (found: bool)
      requires Valid() && addr !in sets
      modifies this`plugins, this`pluginRefs, this`sets, this`setRefs, this`snapshot, this`destroyed, this`owners, this`holders, this`records
      ensures Valid() && plugins == old(plugins) && destroyed == old(destroyed) && Subheap(sets - {addr}, old(sets))
      ensures found <==> FirstNamed(old(records), old(plugins), name, 0) < |old(records)|
      ensures !found ==> records == old(records) && snapshot == old(snapshot) && sets == old(sets)
      ensures found ==> snapshot == addr
      ensures found ==> var i := FirstNamed(old(records), old(plugins), name, 0);
                        records == old(records)[i := old(records)[i].(enabled := enabled)]
    {
      hide CountsOk, LivesOk, PointersKept, NoDuplicates, CacheOk, OwnersExact, HoldersExact, SetOf, InRecord, FirstNamed, StillHeld;
      var i := Find(name);
      if i == |records| { return false; }
      PublishedHeld();
      var after := records[i := records[i].(enabled := enabled)];
      forall p: Addr
        ensures InRecord(after, p) <==> InRecord(records, p)
      {
        SamePlugins(records, after, p);
      }
      EditExact(owners, records, after, sets, dropping);
      StillHeldAfter(sets[snapshot].all, records, dropping, after, dropping);
      records := after;
      Publish(addr);
      return true;
    }

    static lemma SamePlugins(records: seq<Record>, after: seq<Record>, p: Addr)
      requires |after| == |records| && forall i :: 0 <= i < |records| ==> after[i].plugin == records[i].plugin
      ensures InRecord(after, p) <==> InRecord(records, p)
    {
      if InRecord(records, p) {
        var i :| 0 <= i < |records| && records[i].plugin == Some(p);
        assert after[i].plugin == Some(p);
      }
      if InRecord(after, p) {
        var i :| 0 <= i < |after| && after[i].plugin == Some(p);
        assert records[i].plugin == Some(p);
      }
    }

    // ---------- unloading ----------

    /** References move from records to a local of thread t. */
    method MoveOut(t: nat, l: seq<Addr>, after: seq<Record>)
      requires Consistent() && t !in dropping && NoDuplicates(l) && DistinctRecords(after)
      requires forall p: Addr :: InRecord(records, p) <==> InRecord(after, p) || p in l
      requires forall p: Addr :: p in l ==> !InRecord(after, p)
      modifies this`records, this`dropping, this`owners
      ensures Consistent() && records == after && dropping == old(dropping)[t := l]
    {
      hide CountsOk, LivesOk, PointersKept, CacheOk, OwnersExact, HoldersExact, InRecord, DistinctRecords, NoDuplicates;
      MoveExact(owners, records, after, sets, dropping, t, l);
      RenameCounts(pluginRefs, owners, records, sets, dropping, t, l);
      assert Rename(owners, l, InRecords, Dropped(t)).Keys == owners.Keys;
      hide Rename;
      records := after;
      dropping := dropping[t := l];
      owners := Rename(owners, l, InRecords, Dropped(t));
    }

    static lemma RenameCounts(refs: map<Addr, nat>, owners: Owners, records: seq<Record>, sets: map<Addr, PluginSet>, dropping: map<nat, seq<Addr>>, t: nat, l: seq<Addr>)
      requires CountsOk(refs, owners) && OwnersExact(owners, records, sets, dropping) && t !in dropping
      requires forall p: Addr :: p in l ==> InRecord(records, p)
      ensures CountsOk(refs, Rename(owners, l, InRecords, Dropped(t)))
    {
      var after := Rename(owners, l, InRecords, Dropped(t));
      forall p: Addr | p in owners
        ensures |after[p]| == |owners[p]| && after[p] != {}
      {
        if p in l {
          assert Owns(InRecords, p, records, sets, dropping);
          assert Dropped(t) !in owners[p];
          var rest := owners[p] - {InRecords};
          assert owners[p] == rest + {InRecords} && after[p] == rest + {Dropped(t)};
          assert Dropped(t) in after[p];
        }
      }
    }

    /** unload_plugin under the lock; thread t goes on to drop the reference. */
    method UnloadPlugin(t: nat, name: string, addr: Addr) returns (found: bool)
      requires Valid() && addr !in sets && t !in dropping
      modifies this`plugins, this`pluginRefs, this`sets, this`setRefs, this`snapshot, this`destroyed, this`owners, this`holders,
               this`records, this`dropping
      ensures Valid() && plugins == old(plugins) && destroyed == old(destroyed) && Subheap(sets - {addr}, old(sets))
      ensures found <==> FirstNamed(old(records), old(plugins), name, 0) < |old(records)|
      ensures !found ==> records == old(records) && dropping == old(dropping) && snapshot == old(snapshot) && sets == old(sets)
      ensures found ==> snapshot == addr
      ensures found ==> var i := FirstNamed(old(records), old(plugins), name, 0);
                        && records == old(records)[..i] + old(records)[i + 1..] && old(records)[i].plugin.Some?
                        && dropping == old(dropping)[t := [old(records)[i].plugin.value]]
    {
      hide CountsOk, LivesOk, PointersKept, CacheOk, OwnersExact, HoldersExact, SetOf, InRecord, FirstNamed, StillHeld;
      var i := Find(name);
      if i == |records| { return false; }
      var p := records[i].plugin.value;
      var after := records[..i] + records[i + 1..];
      WithoutRecord(records, i);
      PublishedHeld();
      StillHeldMoved(sets[snapshot].all, records, dropping, after, t, [p]);
      MoveOut(t, [p], after);
      Publish(addr);
      return true;
    }

    static lemma StillHeldMoved(all: seq<Addr>, records: seq<Record>, dropping: map<nat, seq<Addr>>, after: seq<Record>, t: nat, l: seq<Addr>)
      requires StillHeld(all, records, dropping) && t !in dropping
      requires forall p: Addr :: InRecord(records, p) ==> InRecord(after, p) || p in l
      ensures StillHeld(all, after, dropping[t := l])
    {
      var moved := dropping[t := l];
      forall p: Addr | InRecord(records, p)
        ensures InRecord(after, p) || exists t: nat :: t in moved && p in moved[t]
      {
        assert t in moved && moved[t] == l;
      }
      StillHeldAfter(all, records, dropping, after, moved);
    }

    static lemma WithoutRecord(records: seq<Record>, i: nat)
      requires i < |records| && records[i].plugin.Some? && DistinctRecords(records)
      ensures var after, p := records[..i] + records[i + 1..], records[i].plugin.value;
              DistinctRecords(after) && !InRecord(after, p)
              && forall q: Addr :: InRecord(records, q) <==> InRecord(after, q) || q == p
    {
      var after, p := records[..i] + records[i + 1..], records[i].plugin.value;
      assert forall j :: 0 <= j < |after| ==> after[j] == records[if j < i then j else j + 1];
      assert InRecord(records, p);
      forall q: Addr | InRecord(records, q) && q != p
        ensures InRecord(after, q)
      {
        var j :| 0 <= j < |records| && records[j].plugin == Some(q);
        assert after[if j < i then j else j - 1].plugin == Some(q);
      }
    }

    method UnloadAll(t: nat, addr: Addr)
      requires Valid() && addr !in sets && t !in dropping
      modifies this`plugins, this`pluginRefs, this`sets, this`setRefs, this`snapshot, this`destroyed, this`owners, this`holders,
               this`records, this`dropping
      ensures Valid() && plugins == old(plugins) && destroyed == old(destroyed) && Subheap(sets - {addr}, old(sets))
      ensures snapshot == addr && records == [] && dropping == old(dropping)[t := SetOf(old(records), old(plugins)).all]
    {
      hide CountsOk, LivesOk, PointersKept, CacheOk, OwnersExact, HoldersExact, StillHeld;
      var l := LoadedPlugins();
      PublishedHeld();
      StillHeldMoved(sets[snapshot].all, records, dropping, [], t, l);
      MoveOut(t, l, []);
      Publish(addr);
    }

    /** The plugins of the records, in record order. */
    method LoadedPlugins() returns (l: seq<Addr>)
      requires Valid()
      ensures l == SetOf(records, plugins).all && NoDuplicates(l)
      ensures forall p: Addr :: p in l <==> InRecord(records, p)
    {
      hide CountsOk, LivesOk, CacheOk, OwnersExact, HoldersExact;
      RecordsOwned(owners, records, sets, dropping);
      SetOfMembers(records, plugins);
      l := [];
      for i := 0 to |records|
        invariant l == SetOf(records[..i], plugins).all
      {
        SetOfNext(records, i, plugins);
        if records[i].plugin.Some? { l := l + [records[i].plugin.value]; }
      }
      assert records[..|records|] == records;
    }

    /** The end of an unload call: its references go, outside the lock. */
    method FinishUnload(t: nat)
      requires Valid() && t in dropping
      modifies this`plugins, this`pluginRefs, this`destroyed, this`owners, this`dropping
      ensures Valid() && Subheap(plugins, old(plugins)) && dropping == old(dropping) - {t} && old(destroyed) <= destroyed
    {
      hide CountsOk, LivesOk, PointersKept, NoDuplicates, DistinctRecords, CacheOk, OwnersExact, HoldersExact, Disown, SetOf;
      ghost var plugins0 := plugins;
      RecordsOwned(owners, records, sets, dropping);
      DroppedExact(owners, records, sets, dropping, t);
      ReleaseAll(dropping[t], Dropped(t));
      dropping := dropping - {t};
      SurvivorsKept(sets);
      RecordsOwned(owners, records, sets, dropping);
      CacheSurvives(score, plugins0, plugins, sets, sets, generation, cache);
      SetOfSame(records, plugins0, plugins);
    }

    // ---------- snapshots and the collector cache ----------

    /** snapshot(): thread t takes a reference to the published set. */
    method TakeSnapshot(t: nat)
      requires Valid() && t !in held
      modifies this`held, this`setRefs, this`holders
      ensures Valid() && held == old(held)[t := snapshot]
    {
      hide CountsOk, LivesOk, PointersKept, NoDuplicates, DistinctRecords, CacheOk, OwnersExact, HoldersExact, SetOf;
      HoldExact(holders, snapshot, generation, held, t);
      CountUp(setRefs, holders, snapshot, Thread(t));
      held := held[t := snapshot];
      setRefs := setRefs[snapshot := setRefs[snapshot] + 1];
      holders := Hold(holders, snapshot, Thread(t));
    }

    method ReleaseSnapshot(t: nat)
      requires Valid() && t in held
      modifies this`held, this`plugins, this`pluginRefs, this`sets, this`setRefs, this`destroyed, this`owners, this`holders
      ensures Valid() && Subheap(plugins, old(plugins)) && held == old(held) - {t}
      ensures Subheap(sets, old(sets)) && old(destroyed) <= destroyed
    {
      hide CountsOk, LivesOk, PointersKept, NoDuplicates, DistinctRecords, CacheOk, OwnersExact, HoldersExact, SetOf, Release;
      LetGoExact(holders, snapshot, generation, held, t);
      var a := held[t];
      held := held - {t};
      DropSet(a, Thread(t));
    }

    /** The collector for a source, from the snapshot the calling thread holds. */
    method PickCollector(t: nat, source: string) returns (collector: Option<Addr>, ghost k: nat)
      requires Valid() && t in held
      modifies this`generation, this`cache, this`plugins, this`pluginRefs, this`sets, this`setRefs, this`destroyed, this`owners, this`holders
      ensures Valid() && Subheap(plugins, old(plugins)) && generation == Some(held[t])
      ensures Subheap(sets, old(sets)) && old(destroyed) <= destroyed
      ensures held[t] in sets && held[t] in old(sets) && sets[held[t]] == old(sets)[held[t]]
      ensures collector == Best(score, plugins, sets[held[t]].collectors, source)
      ensures var l := sets[held[t]].collectors;
              && (forall i :: 0 <= i < |l| ==> l[i] in plugins)
              && (collector == None <==> forall i :: 0 <= i < |l| ==> score(plugins[l[i]].uid, source) <= 0)
              && (collector.Some? ==>
                    && k < |l| && collector.value == l[k] && score(plugins[l[k]].uid, source) > 0
                    && (forall i :: 0 <= i < |l| ==> score(plugins[l[i]].uid, source) <= score(plugins[l[k]].uid, source))
                    && (forall i :: 0 <= i < k ==> score(plugins[l[i]].uid, source) < score(plugins[l[k]].uid, source)))
      ensures collector.Some? ==> collector.value in plugins && collector.value in sets[held[t]].all
    {
      hide CountsOk, LivesOk, NoDuplicates, DistinctRecords, OwnersExact, HoldersExact, SetOf, Best, CacheOk;
      collector := LookUp(t, source);
      CollectorsExist(held[t]);
      k := BestInScores(score, plugins, sets[held[t]].collectors, source);
    }

    /** The answer from the cache, scored now if it is not there. */
    method LookUp(t: nat, source: string) returns (collector: Option<Addr>)
      requires Valid() && t in held
      modifies this`generation, this`cache, this`plugins, this`pluginRefs, this`sets, this`setRefs, this`destroyed, this`owners, this`holders
      ensures Valid() && Subheap(plugins, old(plugins)) && generation == Some(held[t])
      ensures Subheap(sets, old(sets)) && old(destroyed) <= destroyed
      ensures held[t] in sets && held[t] in old(sets) && sets[held[t]] == old(sets)[held[t]]
      ensures collector == Best(score, plugins, sets[held[t]].collectors, source)
      ensures collector.Some? ==> collector.value in plugins && collector.value in sets[held[t]].all
    {
      hide CountsOk, LivesOk, NoDuplicates, DistinctRecords, OwnersExact, HoldersExact, SetOf;
      SurvivorsKept(sets);
      if generation != Some(held[t]) { MoveCache(held[t], t); }
      if source in cache {
        collector := cache[source];
      } else {
        collector := ScoreAll(sets[held[t]].collectors, source);
        cache := cache[source := collector];
      }
      PickedIsKept(held[t], source);
    }

    lemma CollectorsExist(a: Addr)
      requires PluginsOk() && OwnersExact(owners, records, sets, dropping) && a in sets && PointersKept(sets[a])
      ensures forall i :: 0 <= i < |sets[a].collectors| ==> sets[a].collectors[i] in plugins
    {
      hide CountsOk, LivesOk;
      RecordsOwned(owners, records, sets, dropping);
      forall i | 0 <= i < |sets[a].collectors|
        ensures sets[a].collectors[i] in plugins
      {
        assert sets[a].collectors[i] in sets[a].collectors;
      }
    }

    lemma PickedIsKept(a: Addr, source: string)
      requires PluginsOk() && OwnersExact(owners, records, sets, dropping) && a in sets && PointersKept(sets[a])
      ensures var best := Best(score, plugins, sets[a].collectors, source);
              best.Some? ==> best.value in plugins && best.value in sets[a].all
    {
      hide Best, CountsOk, LivesOk;
      BestIsMember(score, plugins, sets[a].collectors, source);
      RecordsOwned(owners, records, sets, dropping);
      var best := Best(score, plugins, sets[a].collectors, source);
      if best.Some? { assert best.value in sets[a].collectors; }
    }

    /** A new generation: the cache is emptied and holds the new set in place of the old one. */
    method MoveCache(a: Addr, ghost t: nat)
      requires Valid() && t in held && held[t] == a && a in sets && generation != Some(a)
      modifies this`generation, this`cache, this`plugins, this`pluginRefs, this`sets, this`setRefs, this`destroyed, this`owners, this`holders
      ensures Valid() && Subheap(plugins, old(plugins)) && generation == Some(a) && cache == map[]
      ensures Subheap(sets, old(sets)) && old(destroyed) <= destroyed
      ensures a in sets && sets[a] == old(sets)[a]
    {
      hide CountsOk, LivesOk, PointersKept, NoDuplicates, DistinctRecords, OwnersExact, HoldersExact, SetOf, Release;
      MoveCacheExact(holders, snapshot, generation, held, a);
      CountUp(setRefs, holders, a, Cached);
      cache := map[];
      var previous := generation;
      generation := Some(a);
      setRefs := setRefs[a := setRefs[a] + 1];
      holders := Hold(holders, a, Cached);
      if previous.Some? { DropSet(previous.value, Cached); }
      SurvivorsKept(sets);
    }

    /** The scoring loop: the first collector with the highest positive score. */
    method ScoreAll(collectors: seq<Addr>, source: string) returns (best: Option<Addr>)
      requires PluginsOk() && OwnersExact(owners, records, sets, dropping)
      requires exists a: Addr :: a in sets && PointersKept(sets[a]) && sets[a].collectors == collectors
      ensures best == Best(score, plugins, collectors, source)
    {
      hide CountsOk, LivesOk, OwnersExact;
      RecordsOwned(owners, records, sets, dropping);
      var bestScore := 0;
      best := None;
      for i := 0 to |collectors|
        invariant bestScore == BestScore(score, plugins, collectors[..i], source)
        invariant best == Best(score, plugins, collectors[..i], source)
      {
        assert collectors[..i + 1][..i] == collectors[..i];
        assert collectors[i] in plugins by { assert collectors[i] in collectors; }
        var s := score(plugins[collectors[i]].uid, source);
        if s > bestScore {
          bestScore := s;
          best := Some(collectors[i]);
        }
      }
      assert collectors[..|collectors|] == collectors;
    }

    /** Between critical sections, whatever can still be reached through a held snapshot, the published
        one, the cache or an unload call exists and has not been destroyed. */
    lemma NothingHeldIsDestroyed()
      requires Valid()
      ensures forall t: nat :: t in held ==> held[t] in sets
      ensures snapshot in sets && (generation.Some? ==> generation.value in sets)
      ensures forall a: Addr, p: Addr :: a in sets && (p in sets[a].all || p in sets[a].collectors || p in sets[a].analyzers || p in sets[a].alerts)
                ==> p in plugins && plugins[p].uid !in destroyed
      ensures forall s :: s in cache && cache[s].Some? ==> cache[s].value in plugins && plugins[cache[s].value].uid !in destroyed
      ensures forall t: nat, p: Addr :: t in dropping && p in dropping[t] ==> p in plugins && plugins[p].uid !in destroyed
      ensures NoDuplicates(destroyed)
    {
      SurvivorsKept(sets);
      RecordsOwned(owners, records, sets, dropping);
      forall s | s in cache && cache[s].Some?
        ensures cache[s].value in plugins && plugins[cache[s].value].uid !in destroyed
      {
        PickedIsKept(generation.value, s);
      }
      forall a: Addr, p: Addr | a in sets && (p in sets[a].all || p in sets[a].collectors || p in sets[a].analyzers || p in sets[a].alerts)
        ensures p in plugins && plugins[p].uid !in destroyed
      {
        assert PointersKept(sets[a]);
      }
    }

    /** What exists has a holder: no plugin outlives its last reference. */
    lemma NothingOutlivesItsHolders(p: Addr)
      requires Valid() && p in plugins
      ensures InRecord(records, p) || (exists a: Addr :: a in sets && p in sets[a].all) || (exists t: nat :: t in dropping && p in dropping[t])
    {
      var o :| o in owners[p];
      assert Owns(o, p, records, sets, dropping);
    }

    // ---------- whole runs ----------

    /** The addresses in an operation are the allocator's choice; a call that cannot happen in this
        state is one whose addresses are in use or whose thread is not at that point. */
    predicate Possible(op: Op)
      reads this
    {
      match op
      case Load(p, _, _, _, _, _, addr) => p !in plugins && addr !in sets
      case Fail(_, _) => true
      case Enable(_, _, addr) => addr !in sets
      case Unload(t, _, addr) => addr !in sets && t !in dropping
      case UnloadEverything(t, addr) => addr !in sets && t !in dropping
      case Finish(t) => t in dropping
      case Take(t) => t !in held
      case LetGoOf(t) => t in held
      case Pick(t, _) => t in held
    }

    /** One operation of any thread: what exists afterwards and is not new is what it was, what has
        been destroyed stays so, and only thread t lets go of what t holds. */
    method Perform(op: Op)
      requires Valid() && Possible(op)
      modifies this
      ensures Valid() && old(destroyed) <= destroyed
      ensures forall b: Addr :: b in sets && b in old(sets) ==> sets[b] == old(sets)[b]
      ensures forall p: Addr :: p in plugins && p in old(plugins) ==> plugins[p] == old(plugins)[p]
      ensures forall t: nat :: t in old(held) && op != LetGoOf(t) ==> t in held && held[t] == old(held)[t]
    {
      hide Valid, CountsOk, LivesOk, PointersKept, NoDuplicates, DistinctRecords, CacheOk, OwnersExact, HoldersExact, SetOf, Best;
      match op
      case Load(p, name, soPath, collector, analyzer, alert, addr) => LoadPlugin(p, name, soPath, collector, analyzer, alert, addr);
      case Fail(soPath, error) => RecordFailure(soPath, error);
      case Enable(name, enabled, addr) => var _ := SetEnabled(name, enabled, addr);
      case Unload(t, name, addr) => var _ := UnloadPlugin(t, name, addr);
      case UnloadEverything(t, addr) => UnloadAll(t, addr);
      case Finish(t) => FinishUnload(t);
      case Take(t) => TakeSnapshot(t);
      case LetGoOf(t) => ReleaseSnapshot(t);
      case Pick(t, source) => var _, _ := PickCollector(t, source);
    }

    /** Any run of operations during which thread t does not let go of its snapshot: the snapshot and
        every plugin in it stay as they are, and none of them is destroyed. */
    method PerformAll(ops: seq<Op>, t: nat)
      requires Valid() && t in held && held[t] in sets && LetGoOf(t) !in ops
      modifies this
      ensures Valid() && old(destroyed) <= destroyed
      ensures t in held && held[t] == old(held)[t] && held[t] in sets && sets[held[t]] == old(sets)[held[t]]
      ensures Unharmed(old(plugins), sets[held[t]].all)
    {
      hide Valid, Possible;
      AliveNow(t);
      ghost var a := held[t];
      for i := 0 to |ops|
        invariant Valid() && old(destroyed) <= destroyed
        invariant t in held && held[t] == a && a in sets && sets[a] == old(sets)[a]
        invariant Unharmed(old(plugins), sets[a].all)
      {
        if Possible(ops[i]) {
          ghost var plugins0 := plugins;
          Perform(ops[i]);
          AliveNow(t);
          assert forall p: Addr :: p in sets[a].all ==> p in plugins0 && p in plugins && plugins[p] == plugins0[p];
        }
      }
    }

    /** Every member of l exists, as it was before, and has not been destroyed. */
    ghost predicate Unharmed(before: map<Addr, Plugin>, l: seq<Addr>)
      reads this`plugins, this`destroyed
    {
      forall p: Addr :: p in l ==> p in before && p in plugins && plugins[p] == before[p] && plugins[p].uid !in destroyed
    }

    lemma AliveNow(t: nat)
      requires Valid() && t in held
      ensures held[t] in sets && Unharmed(plugins, sets[held[t]].all)
    {
      NothingHeldIsDestroyed();
    }

    /** A thread takes a snapshot, others load, unload, enable and pick as they like, and the thread asks
        for a collector: it gets the first best collector of the snapshot as it was when taken, and
        that plugin is still the same object. */
    method TakeThenPick(t: nat, ops: seq<Op>, source: string) returns (collector: Option<Addr>, ghost r: nat)
      requires Valid() && t !in held && LetGoOf(t) !in ops
      modifies this
      ensures Valid()
      ensures forall i :: 0 <= i < |old(records)| && old(records)[i].plugin.Some? ==> old(records)[i].plugin.value in old(plugins)
      ensures collector == None <==> forall i ::
                0 <= i < |old(records)| && old(records)[i].plugin.Some? && old(records)[i].enabled && old(plugins)[old(records)[i].plugin.value].collector
                ==> score(old(plugins)[old(records)[i].plugin.value].uid, source) <= 0
      ensures collector.Some? ==>
                && r < |old(records)| && old(records)[r].plugin == collector && old(records)[r].enabled
                && old(plugins)[collector.value].collector && score(old(plugins)[collector.value].uid, source) > 0
      ensures collector.Some? ==> forall i ::
                0 <= i < |old(records)| && old(records)[i].plugin.Some? && old(records)[i].enabled && old(plugins)[old(records)[i].plugin.value].collector
                ==> score(old(plugins)[old(records)[i].plugin.value].uid, source) <= score(old(plugins)[collector.value].uid, source)
                    && (i < r ==> score(old(plugins)[old(records)[i].plugin.value].uid, source) < score(old(plugins)[collector.value].uid, source))
      ensures collector.Some? ==>
                && collector.value in old(plugins) && collector.value in plugins
                && plugins[collector.value] == old(plugins)[collector.value] && plugins[collector.value].uid !in destroyed
    {
      hide Valid, SetOf, Best, DistinctRecords;
      RecordedExist();
      r := BestRecord(score, records, plugins, source);
      collector := PickLater(t, ops, source);
    }

    method PickLater(t: nat, ops: seq<Op>, source: string) returns (collector: Option<Addr>)
      requires Valid() && t !in held && LetGoOf(t) !in ops
      modifies this
      ensures Valid()
      ensures collector == Best(score, old(plugins), SetOf(old(records), old(plugins)).collectors, source)
      ensures collector.Some? ==>
                && collector.value in old(plugins) && collector.value in plugins
                && plugins[collector.value] == old(plugins)[collector.value] && plugins[collector.value].uid !in destroyed
    {
      hide CountsOk, LivesOk, NoDuplicates, DistinctRecords, CacheOk, OwnersExact, HoldersExact, SetOf, Best;
      ghost var plugins0, set0 := plugins, sets[snapshot];
      TakeSnapshot(t);
      AliveNow(t);
      PerformAll(ops, t);
      ghost var k;
      collector, k := PickCollector(t, source);
      AliveNow(t);
      SnapshotKept(set0, plugins0, plugins, source);
    }

    lemma RecordedExist()
      requires Valid()
      ensures DistinctRecords(records)
      ensures forall i :: 0 <= i < |records| && records[i].plugin.Some? ==> records[i].plugin.value in plugins
    {
      hide CountsOk, LivesOk;
      RecordsOwned(owners, records, sets, dropping);
      forall i | 0 <= i < |records| && records[i].plugin.Some?
        ensures records[i].plugin.value in plugins
      {
        assert InRecord(records, records[i].plugin.value);
      }
    }

    lemma SnapshotKept(taken: PluginSet, before: map<Addr, Plugin>, after: map<Addr, Plugin>, source: string)
      requires PointersKept(taken) && forall p: Addr :: p in taken.all ==> p in before && p in after && after[p] == before[p]
      ensures Best(score, after, taken.collectors, source) == Best(score, before, taken.collectors, source)
    {
      var l := taken.collectors;
      assert forall i :: 0 <= i < |l| ==> l[i] in l;
      BestSame(score, after, before, l, source);
    }
  }
}
