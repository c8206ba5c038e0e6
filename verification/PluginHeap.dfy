/** Shared plugins and plugin sets: who owns what, as values. A set (PluginSet) and a plugin
    (LoadedPlugin) live at an address while something holds them; freed addresses may be reused. */
module PluginHeap {
  import opened Basics

  type Addr = nat

  /** uid tells plugins apart that have had the same address; the flags are the interfaces. */
  datatype Plugin = Plugin(uid: nat, name: string, collector: bool, analyzer: bool, alert: bool)

  datatype PluginSet = PluginSet(all: seq<Addr>, collectors: seq<Addr>, analyzers: seq<Addr>, alerts: seq<Addr>)

  /** No plugin: the library failed to load and the record only reports the error. */
  datatype Record = Record(plugin: Option<Addr>, soPath: string, error: string, enabled: bool)

  /** Holders of a plugin: its record, a plugin set, an unload call on its way out. */
  datatype Owner = InRecords | InSet(at: Addr) | Dropped(thread: nat)

  /** Holders of a plugin set: the loader, the collector cache, a pipeline thread. */
  datatype Holder = Published | Cached | Thread(thread: nat)

  // ---------- what a snapshot of the records contains ----------

  function Filter(b: bool, p: Addr): seq<Addr> {
    if b then [p] else []
  }

  /** The snapshot of a record list. */
  function SetOf(records: seq<Record>, plugins: map<Addr, Plugin>): PluginSet {
    if records == [] then PluginSet([], [], [], [])
    else
      var rest, r := SetOf(records[..|records| - 1], plugins), records[|records| - 1];
      if r.plugin == None || r.plugin.value !in plugins then rest
      else
        var p := r.plugin.value;
        PluginSet(rest.all + [p],
                  rest.collectors + Filter(r.enabled && plugins[p].collector, p),
                  rest.analyzers + Filter(r.enabled && plugins[p].analyzer, p),
                  rest.alerts + Filter(r.enabled && plugins[p].alert, p))
  }

  ghost predicate InRecord(records: seq<Record>, p: Addr) {
    exists i :: 0 <= i < |records| && records[i].plugin == Some(p)
  }

  ghost predicate DistinctRecords(records: seq<Record>) {
    forall i, j :: 0 <= i < j < |records| && records[i].plugin != None ==> records[i].plugin != records[j].plugin
  }

  /** Raw pointers of a set are among the plugins it keeps alive. */
  ghost predicate PointersKept(s: PluginSet) {
    NoDuplicates(s.all) && forall p: Addr :: p in s.collectors || p in s.analyzers || p in s.alerts ==> p in s.all
  }

  lemma {:induction false} SetOfMembers(records: seq<Record>, plugins: map<Addr, Plugin>)
    requires DistinctRecords(records) && forall p: Addr :: InRecord(records, p) ==> p in plugins
    ensures forall p: Addr :: p in SetOf(records, plugins).all <==> InRecord(records, p)
    ensures PointersKept(SetOf(records, plugins))
  {
    if records != [] {
      var rest, r := records[..|records| - 1], records[|records| - 1];
      forall p: Addr
        ensures InRecord(records, p) <==> InRecord(rest, p) || r.plugin == Some(p)
      {
        InRecordLast(records, p);
      }
      SetOfMembers(rest, plugins);
      if r.plugin != None { assert !InRecord(rest, r.plugin.value); }
    }
  }

  /** The interfaces under which a snapshot hands plugins out. */
  datatype Kind = Collectors | Analyzers | Alerts

  function ListOf(s: PluginSet, kind: Kind): seq<Addr> {
    match kind
    case Collectors => s.collectors
    case Analyzers => s.analyzers
    case Alerts => s.alerts
  }

  predicate Implements(p: Plugin, kind: Kind) {
    match kind
    case Collectors => p.collector
    case Analyzers => p.analyzer
    case Alerts => p.alert
  }

  /** The record at i is an enabled one of a plugin with the interface. */
  ghost predicate Offers(records: seq<Record>, plugins: map<Addr, Plugin>, kind: Kind, i: nat, p: Addr) {
    i < |records| && records[i].plugin == Some(p) && p in plugins && records[i].enabled && Implements(plugins[p], kind)
  }

  ghost predicate OffersInOrder(records: seq<Record>, plugins: map<Addr, Plugin>, kind: Kind, p: Addr, q: Addr) {
    exists i: nat, j: nat :: i < j && Offers(records, plugins, kind, i, p) && Offers(records, plugins, kind, j, q)
  }

  /** l lists exactly the plugins that the records offer, in record order. */
  ghost predicate HandsOut(records: seq<Record>, plugins: map<Addr, Plugin>, kind: Kind, l: seq<Addr>) {
    && (forall p: Addr :: p in l ==> exists i: nat :: Offers(records, plugins, kind, i, p))
    && (forall p: Addr, i: nat :: Offers(records, plugins, kind, i, p) ==> p in l)
    && (forall a, b :: 0 <= a < b < |l| ==> OffersInOrder(records, plugins, kind, l[a], l[b]))
  }

  lemma HandsOutNext(records: seq<Record>, plugins: map<Addr, Plugin>, kind: Kind, before: seq<Addr>, p: Addr)
    requires records != [] && HandsOut(records[..|records| - 1], plugins, kind, before)
    requires records[|records| - 1].plugin == Some(p) || records[|records| - 1].plugin == None
    ensures HandsOut(records, plugins, kind, before + if Offers(records, plugins, kind, |records| - 1, p) then [p] else [])
  {
    var rest, last := records[..|records| - 1], |records| - 1;
    var l := before + if Offers(records, plugins, kind, last, p) then [p] else [];
    forall q: Addr, i: nat | Offers(records, plugins, kind, i, q)
      ensures q in l
    {
      assert i < last ==> Offers(rest, plugins, kind, i, q);
    }
    forall q: Addr | q in l
      ensures exists i: nat :: Offers(records, plugins, kind, i, q)
    {
      if q in before {
        var i: nat :| Offers(rest, plugins, kind, i, q);
        assert Offers(records, plugins, kind, i, q);
      }
    }
    forall a, b | 0 <= a < b < |l|
      ensures OffersInOrder(records, plugins, kind, l[a], l[b])
    {
      if b < |before| {
        assert OffersInOrder(rest, plugins, kind, before[a], before[b]);
        var i: nat, j: nat :| i < j && Offers(rest, plugins, kind, i, before[a]) && Offers(rest, plugins, kind, j, before[b]);
        assert Offers(records, plugins, kind, i, l[a]) && Offers(records, plugins, kind, j, l[b]);
      } else {
        assert before[a] in before;
        var i: nat :| Offers(rest, plugins, kind, i, before[a]);
        assert Offers(records, plugins, kind, i, l[a]) && Offers(records, plugins, kind, last, l[b]);
      }
    }
  }

  /** Under each interface a snapshot hands out exactly the enabled plugins that have it, in record
      order. */
  lemma {:induction false} SetOfHandsOut(records: seq<Record>, plugins: map<Addr, Plugin>, kind: Kind)
    ensures HandsOut(records, plugins, kind, ListOf(SetOf(records, plugins), kind))
  {
    if records != [] {
      var rest, r := records[..|records| - 1], records[|records| - 1];
      SetOfHandsOut(rest, plugins, kind);
      var before, p := ListOf(SetOf(rest, plugins), kind), if r.plugin.Some? then r.plugin.value else 0;
      HandsOutNext(records, plugins, kind, before, p);
      hide HandsOut;
      assert ListOf(SetOf(records, plugins), kind) == before + if Offers(records, plugins, kind, |records| - 1, p) then [p] else [];
    }
  }

  /** In words, for all three interfaces. */
  lemma SnapshotHandsOut(records: seq<Record>, plugins: map<Addr, Plugin>, p: Addr)
    ensures var s := SetOf(records, plugins);
            && (p in s.collectors <==> exists i :: 0 <= i < |records| && records[i] == Record(Some(p), records[i].soPath, records[i].error, true)
                                         && p in plugins && plugins[p].collector)
            && (p in s.analyzers <==> exists i :: 0 <= i < |records| && records[i] == Record(Some(p), records[i].soPath, records[i].error, true)
                                        && p in plugins && plugins[p].analyzer)
            && (p in s.alerts <==> exists i :: 0 <= i < |records| && records[i] == Record(Some(p), records[i].soPath, records[i].error, true)
                                     && p in plugins && plugins[p].alert)
  {
    SetOfHandsOut(records, plugins, Collectors);
    SetOfHandsOut(records, plugins, Analyzers);
    SetOfHandsOut(records, plugins, Alerts);
    hide SetOf, OffersInOrder;
    var s := SetOf(records, plugins);
    assert HandsOut(records, plugins, Collectors, s.collectors) && HandsOut(records, plugins, Analyzers, s.analyzers)
        && HandsOut(records, plugins, Alerts, s.alerts);
    if p in s.collectors { var i: nat :| Offers(records, plugins, Collectors, i, p); assert records[i].enabled; }
    if p in s.analyzers { var i: nat :| Offers(records, plugins, Analyzers, i, p); assert records[i].enabled; }
    if p in s.alerts { var i: nat :| Offers(records, plugins, Alerts, i, p); assert records[i].enabled; }
    if i :| 0 <= i < |records| && records[i] == Record(Some(p), records[i].soPath, records[i].error, true) && p in plugins {
      assert Offers(records, plugins, Collectors, i, p) <==> plugins[p].collector;
      assert Offers(records, plugins, Analyzers, i, p) <==> plugins[p].analyzer;
      assert Offers(records, plugins, Alerts, i, p) <==> plugins[p].alert;
    }
  }

  lemma InRecordLast(records: seq<Record>, p: Addr)
    requires records != []
    ensures InRecord(records, p) <==> InRecord(records[..|records| - 1], p) || records[|records| - 1].plugin == Some(p)
  {
    var rest := records[..|records| - 1];
    if InRecord(rest, p) {
      var i :| 0 <= i < |rest| && rest[i].plugin == Some(p);
      assert records[i].plugin == Some(p);
    }
    if InRecord(records, p) {
      var i :| 0 <= i < |records| && records[i].plugin == Some(p);
      assert i < |rest| ==> rest[i].plugin == Some(p);
    }
  }

  /** Only the plugins of the records matter. */
  lemma {:induction false} SetOfSame(records: seq<Record>, a: map<Addr, Plugin>, b: map<Addr, Plugin>)
    requires forall p: Addr :: InRecord(records, p) ==> p in a && p in b && a[p] == b[p]
    ensures SetOf(records, a) == SetOf(records, b)
  {
    if records != [] {
      var rest := records[..|records| - 1];
      forall p: Addr | InRecord(rest, p)
        ensures p in a && p in b && a[p] == b[p]
      {
        InRecordLast(records, p);
      }
      SetOfSame(rest, a, b);
      if records[|records| - 1].plugin != None { InRecordLast(records, records[|records| - 1].plugin.value); }
    }
  }

  /** A failed load changes nothing that is published. */
  lemma FailureNotPublished(records: seq<Record>, plugins: map<Addr, Plugin>, r: Record)
    requires r.plugin == None
    ensures SetOf(records + [r], plugins) == SetOf(records, plugins)
    ensures forall p: Addr :: InRecord(records + [r], p) <==> InRecord(records, p)
  {
    assert (records + [r])[..|records|] == records;
    forall p: Addr
      ensures InRecord(records + [r], p) <==> InRecord(records, p)
    {
      InRecordLast(records + [r], p);
    }
  }

  ghost predicate Named(records: seq<Record>, plugins: map<Addr, Plugin>, name: string, i: nat) {
    i < |records| && records[i].plugin.Some? && records[i].plugin.value in plugins && plugins[records[i].plugin.value].name == name
  }

  /** The first record from i on of a loaded plugin with this name, or the number of records. */
  ghost function FirstNamed(records: seq<Record>, plugins: map<Addr, Plugin>, name: string, i: nat): nat
    requires i <= |records|
    decreases |records| - i
  {
    if i == |records| || Named(records, plugins, name, i) then i else FirstNamed(records, plugins, name, i + 1)
  }

  lemma {:induction false} FirstNamedIsFirst(records: seq<Record>, plugins: map<Addr, Plugin>, name: string, i: nat)
    requires i <= |records|
    ensures i <= FirstNamed(records, plugins, name, i) <= |records|
    ensures var k := FirstNamed(records, plugins, name, i);
            k < |records| ==> records[k].plugin.Some? && records[k].plugin.value in plugins && plugins[records[k].plugin.value].name == name
    ensures forall j :: i <= j < FirstNamed(records, plugins, name, i) ==>
              !(records[j].plugin.Some? && records[j].plugin.value in plugins && plugins[records[j].plugin.value].name == name)
    decreases |records| - i
  {
    if i < |records| && !Named(records, plugins, name, i) { FirstNamedIsFirst(records, plugins, name, i + 1); }
  }

  // ---------- the best collector of a set ----------

  type Score = (nat, string) -> int

  function ScoreOf(score: Score, plugins: map<Addr, Plugin>, p: Addr, source: string): int {
    if p in plugins then score(plugins[p].uid, source) else 0
  }

  function BestScore(score: Score, plugins: map<Addr, Plugin>, collectors: seq<Addr>, source: string): int {
    if collectors == [] then 0
    else
      var rest := BestScore(score, plugins, collectors[..|collectors| - 1], source);
      var last := ScoreOf(score, plugins, collectors[|collectors| - 1], source);
      if last > rest then last else rest
  }

  /** The collector that a scan with a strictly-greater test settles on. */
  function Best(score: Score, plugins: map<Addr, Plugin>, collectors: seq<Addr>, source: string): Option<Addr> {
    if collectors == [] then None
    else
      var rest := collectors[..|collectors| - 1];
      if ScoreOf(score, plugins, collectors[|collectors| - 1], source) > BestScore(score, plugins, rest, source)
      then Some(collectors[|collectors| - 1]) else Best(score, plugins, rest, source)
  }

  lemma {:induction false} BestScoreIsHighest(score: Score, plugins: map<Addr, Plugin>, collectors: seq<Addr>, source: string)
    ensures BestScore(score, plugins, collectors, source) >= 0
    ensures forall i :: 0 <= i < |collectors| ==> ScoreOf(score, plugins, collectors[i], source) <= BestScore(score, plugins, collectors, source)
  {
    hide ScoreOf;
    if collectors != [] {
      var rest := collectors[..|collectors| - 1];
      BestScoreIsHighest(score, plugins, rest, source);
      assert forall i :: 0 <= i < |rest| ==> rest[i] == collectors[i];
    }
  }

  /** The collector at k has the highest score, and nobody before it has that score. */
  ghost predicate FirstHighest(score: Score, plugins: map<Addr, Plugin>, collectors: seq<Addr>, source: string, k: nat) {
    && k < |collectors|
    && (forall i :: 0 <= i < |collectors| ==> ScoreOf(score, plugins, collectors[i], source) <= ScoreOf(score, plugins, collectors[k], source))
    && (forall i :: 0 <= i < k ==> ScoreOf(score, plugins, collectors[i], source) < ScoreOf(score, plugins, collectors[k], source))
  }

  lemma {:induction false} BestScoreReached(score: Score, plugins: map<Addr, Plugin>, collectors: seq<Addr>, source: string) returns (k: nat)
    ensures var best := Best(score, plugins, collectors, source);
            && (best == None <==> BestScore(score, plugins, collectors, source) == 0)
            && (best.Some? ==>
                  && FirstHighest(score, plugins, collectors, source, k) && best.value == collectors[k]
                  && ScoreOf(score, plugins, collectors[k], source) == BestScore(score, plugins, collectors, source))
  {
    k := 0;
    if collectors != [] {
      BestScoreIsHighest(score, plugins, collectors, source);
      hide ScoreOf;
      var rest := collectors[..|collectors| - 1];
      BestScoreIsHighest(score, plugins, rest, source);
      k := BestScoreReached(score, plugins, rest, source);
      assert forall i :: 0 <= i < |rest| ==> rest[i] == collectors[i];
      if ScoreOf(score, plugins, collectors[|rest|], source) > BestScore(score, plugins, rest, source) { k := |rest|; }
    }
  }

  /** That collector is the first one with the highest score, if any score is positive. */
  lemma BestIsFirstHighest(score: Score, plugins: map<Addr, Plugin>, collectors: seq<Addr>, source: string)
    ensures Best(score, plugins, collectors, source) == None <==>
              forall i :: 0 <= i < |collectors| ==> ScoreOf(score, plugins, collectors[i], source) <= 0
    ensures Best(score, plugins, collectors, source).Some? ==>
              exists k: nat :: FirstHighest(score, plugins, collectors, source, k) && Best(score, plugins, collectors, source).value == collectors[k]
  {
    BestScoreIsHighest(score, plugins, collectors, source);
    var k := BestScoreReached(score, plugins, collectors, source);
    hide ScoreOf, Best, BestScore;
  }

  lemma BestIsMember(score: Score, plugins: map<Addr, Plugin>, collectors: seq<Addr>, source: string)
    ensures Best(score, plugins, collectors, source).Some? ==> Best(score, plugins, collectors, source).value in collectors
  {
    var k := BestScoreReached(score, plugins, collectors, source);
    hide ScoreOf, Best, BestScore;
  }

  /** In numbers: the collector picked has a positive score, at least that of every other and more than
      that of every earlier one; none is picked exactly when no score is positive. */
  lemma BestInScores(score: Score, plugins: map<Addr, Plugin>, collectors: seq<Addr>, source: string) returns (k: nat)
    requires forall i :: 0 <= i < |collectors| ==> collectors[i] in plugins
    ensures Best(score, plugins, collectors, source) == None <==>
              forall i :: 0 <= i < |collectors| ==> score(plugins[collectors[i]].uid, source) <= 0
    ensures Best(score, plugins, collectors, source).Some? ==>
              && k < |collectors| && Best(score, plugins, collectors, source).value == collectors[k]
              && score(plugins[collectors[k]].uid, source) > 0
              && (forall i :: 0 <= i < |collectors| ==> score(plugins[collectors[i]].uid, source) <= score(plugins[collectors[k]].uid, source))
              && (forall i :: 0 <= i < k ==> score(plugins[collectors[i]].uid, source) < score(plugins[collectors[k]].uid, source))
  {
    forall i | 0 <= i < |collectors|
      ensures ScoreOf(score, plugins, collectors[i], source) == score(plugins[collectors[i]].uid, source)
    {
    }
    hide ScoreOf;
    BestScoreIsHighest(score, plugins, collectors, source);
    k := BestScoreReached(score, plugins, collectors, source);
    hide Best, BestScore;
  }

  /** The order of a snapshot's collectors is that of their records. */
  lemma RecordOrder(records: seq<Record>, plugins: map<Addr, Plugin>, l: seq<Addr>, i: nat, j: nat, a: nat, b: nat)
    requires DistinctRecords(records) && HandsOut(records, plugins, Collectors, l) && a < |l| && b < |l|
    requires Offers(records, plugins, Collectors, i, l[a]) && Offers(records, plugins, Collectors, j, l[b])
    ensures a < b ==> i < j
    ensures a == b ==> i == j
  {
    if a < b {
      assert OffersInOrder(records, plugins, Collectors, l[a], l[b]);
      var x: nat, y: nat :| x < y && Offers(records, plugins, Collectors, x, l[a]) && Offers(records, plugins, Collectors, y, l[b]);
      assert x == i && y == j;
    }
  }

  /** The record at i is an enabled one of a collector. */
  ghost predicate Collects(records: seq<Record>, plugins: map<Addr, Plugin>, i: nat) {
    && i < |records| && records[i].plugin.Some? && records[i].plugin.value in plugins && records[i].enabled
    && plugins[records[i].plugin.value].collector
  }

  /** Where a collector of the records stands in the snapshot, relative to the one at k. */
  lemma PlaceOf(records: seq<Record>, plugins: map<Addr, Plugin>, l: seq<Addr>, i: nat, r: nat, k: nat) returns (b: nat)
    requires DistinctRecords(records) && HandsOut(records, plugins, Collectors, l) && Collects(records, plugins, i)
    requires k < |l| ==> Offers(records, plugins, Collectors, r, l[k])
    ensures b < |l| && l[b] == records[i].plugin.value && (k < |l| && i < r ==> b < k)
  {
    var p := records[i].plugin.value;
    assert Offers(records, plugins, Collectors, i, p);
    b :| 0 <= b < |l| && l[b] == p;
    if k < |l| { RecordOrder(records, plugins, l, r, i, k, b); }
  }

  /** The same in terms of the records that a snapshot is made of: the collector picked stands in the
      record at r. */
  lemma BestRecord(score: Score, records: seq<Record>, plugins: map<Addr, Plugin>, source: string) returns (r: nat)
    requires DistinctRecords(records)
    ensures var best := Best(score, plugins, SetOf(records, plugins).collectors, source);
            && (best == None <==> forall i: nat :: Collects(records, plugins, i) ==> score(plugins[records[i].plugin.value].uid, source) <= 0)
            && (best.Some? ==>
                  && Collects(records, plugins, r) && records[r].plugin == best && score(plugins[best.value].uid, source) > 0
                  && forall i: nat :: Collects(records, plugins, i) ==>
                       && score(plugins[records[i].plugin.value].uid, source) <= score(plugins[best.value].uid, source)
                       && (i < r ==> score(plugins[records[i].plugin.value].uid, source) < score(plugins[best.value].uid, source)))
  {
    var l := SetOf(records, plugins).collectors;
    SetOfHandsOut(records, plugins, Collectors);
    assert HandsOut(records, plugins, Collectors, l);
    hide SetOf, Best, DistinctRecords;
    forall a | 0 <= a < |l|
      ensures l[a] in plugins && exists j: nat :: Collects(records, plugins, j) && records[j].plugin.value == l[a]
    {
      assert l[a] in l;
      var j: nat :| Offers(records, plugins, Collectors, j, l[a]);
      assert Collects(records, plugins, j);
    }
    var k := BestInScores(score, plugins, l, source);
    r := 0;
    var some := Best(score, plugins, l, source).Some?;
    if some {
      assert l[k] in l;
      r :| Offers(records, plugins, Collectors, r, l[k]);
    }
    hide HandsOut;
    forall i: nat | Collects(records, plugins, i)
      ensures exists b :: 0 <= b < |l| && l[b] == records[i].plugin.value && (some && i < r ==> b < k)
    {
      var b := PlaceOf(records, plugins, l, i, r, if some then k else |l|);
    }
  }

  lemma {:induction false} BestSame(score: Score, a: map<Addr, Plugin>, b: map<Addr, Plugin>, collectors: seq<Addr>, source: string)
    requires forall i :: 0 <= i < |collectors| ==> collectors[i] in a && collectors[i] in b && a[collectors[i]] == b[collectors[i]]
    ensures Best(score, a, collectors, source) == Best(score, b, collectors, source)
    ensures BestScore(score, a, collectors, source) == BestScore(score, b, collectors, source)
  {
    if collectors != [] { BestSame(score, a, b, collectors[..|collectors| - 1], source); }
  }

  // ---------- ownership ----------

  type Owners = map<Addr, set<Owner>>
  type Holders = map<Addr, set<Holder>>

  ghost predicate Owns(o: Owner, p: Addr, records: seq<Record>, sets: map<Addr, PluginSet>, dropping: map<nat, seq<Addr>>) {
    match o
    case InRecords => InRecord(records, p)
    case InSet(a) => a in sets && p in sets[a].all
    case Dropped(t) => t in dropping && p in dropping[t]
  }

  /** The owners of every plugin are exactly those that hold a reference to it. */
  ghost predicate OwnersExact(owners: Owners, records: seq<Record>, sets: map<Addr, PluginSet>, dropping: map<nat, seq<Addr>>) {
    && (forall p: Addr, o: Owner :: p in owners && o in owners[p] ==> Owns(o, p, records, sets, dropping))
    && (forall p: Addr, o: Owner :: Owns(o, p, records, sets, dropping) ==> p in owners && o in owners[p])
  }

  ghost predicate Keeps(h: Holder, a: Addr, snapshot: Addr, generation: Option<Addr>, held: map<nat, Addr>) {
    match h
    case Published => a == snapshot
    case Cached => generation == Some(a)
    case Thread(t) => t in held && held[t] == a
  }

  ghost predicate HoldersExact(holders: Holders, snapshot: Addr, generation: Option<Addr>, held: map<nat, Addr>) {
    && (forall a: Addr, h: Holder :: a in holders && h in holders[a] ==> Keeps(h, a, snapshot, generation, held))
    && (forall a: Addr, h: Holder :: Keeps(h, a, snapshot, generation, held) ==> a in holders && h in holders[a])
  }

  /** Everybody loses owner o; what nobody owns is gone. */
  ghost function Disown(owners: Owners, o: Owner): Owners {
    map p | p in owners && owners[p] - {o} != {} :: owners[p] - {o}
  }

  /** The members of l gain owner o. */
  ghost function Adopt(owners: Owners, l: seq<Addr>, o: Owner): Owners {
    map p | p in owners :: if p in l then owners[p] + {o} else owners[p]
  }

  ghost function Rename(owners: Owners, l: seq<Addr>, from: Owner, to: Owner): Owners {
    map p | p in owners :: if p in l then (owners[p] - {from}) + {to} else owners[p]
  }

  lemma PublishExact(owners: Owners, records: seq<Record>, sets: map<Addr, PluginSet>, dropping: map<nat, seq<Addr>>, addr: Addr, s: PluginSet)
    requires OwnersExact(owners, records, sets, dropping) && addr !in sets
    requires forall p: Addr :: p in s.all ==> p in owners
    ensures OwnersExact(Adopt(owners, s.all, InSet(addr)), records, sets[addr := s], dropping)
  {
    var after, sets' := Adopt(owners, s.all, InSet(addr)), sets[addr := s];
    forall p: Addr, o: Owner
      ensures Owns(o, p, records, sets', dropping) <==> Owns(o, p, records, sets, dropping) || (o == InSet(addr) && p in s.all)
    {
    }
  }

  lemma DestroySetExact(owners: Owners, records: seq<Record>, sets: map<Addr, PluginSet>, dropping: map<nat, seq<Addr>>, a: Addr)
    requires OwnersExact(owners, records, sets, dropping)
    ensures OwnersExact(Disown(owners, InSet(a)), records, sets - {a}, dropping)
  {
    forall p: Addr, o: Owner
      ensures Owns(o, p, records, sets - {a}, dropping) <==> Owns(o, p, records, sets, dropping) && o != InSet(a)
    {
    }
    forall p: Addr, o: Owner | Owns(o, p, records, sets - {a}, dropping)
      ensures p in Disown(owners, InSet(a)) && o in Disown(owners, InSet(a))[p]
    {
      assert o in owners[p] - {InSet(a)};
    }
  }

  lemma DroppedExact(owners: Owners, records: seq<Record>, sets: map<Addr, PluginSet>, dropping: map<nat, seq<Addr>>, t: nat)
    requires OwnersExact(owners, records, sets, dropping)
    ensures OwnersExact(Disown(owners, Dropped(t)), records, sets, dropping - {t})
  {
    forall p: Addr, o: Owner
      ensures Owns(o, p, records, sets, dropping - {t}) <==> Owns(o, p, records, sets, dropping) && o != Dropped(t)
    {
    }
    forall p: Addr, o: Owner | Owns(o, p, records, sets, dropping - {t})
      ensures p in Disown(owners, Dropped(t)) && o in Disown(owners, Dropped(t))[p]
    {
      assert o in owners[p] - {Dropped(t)};
    }
  }

  /** References move from the records to an unload call. */
  lemma MoveExact(owners: Owners, records: seq<Record>, after: seq<Record>, sets: map<Addr, PluginSet>, dropping: map<nat, seq<Addr>>, t: nat, l: seq<Addr>)
    requires OwnersExact(owners, records, sets, dropping) && t !in dropping
    requires forall p: Addr :: InRecord(records, p) <==> InRecord(after, p) || p in l
    requires forall p: Addr :: p in l ==> !InRecord(after, p)
    ensures OwnersExact(Rename(owners, l, InRecords, Dropped(t)), after, sets, dropping[t := l])
  {
    var owners' := Rename(owners, l, InRecords, Dropped(t));
    forall p: Addr | p in l
      ensures p in owners && InRecords in owners[p]
    {
      assert Owns(InRecords, p, records, sets, dropping);
    }
    var moved := dropping[t := l];
    forall p: Addr, o: Owner
      ensures Owns(o, p, after, sets, moved) <==>
                if o == InRecords then Owns(o, p, records, sets, dropping) && p !in l
                else Owns(o, p, records, sets, dropping) || (o == Dropped(t) && p in l)
    {
    }
    assert OwnersExact(owners', after, sets, moved);
  }

  /** A new plugin starts out with one owner, its record. */
  lemma LoadExact(owners: Owners, records: seq<Record>, sets: map<Addr, PluginSet>, dropping: map<nat, seq<Addr>>, r: Record)
    requires OwnersExact(owners, records, sets, dropping) && r.plugin.Some? && r.plugin.value !in owners
    ensures OwnersExact(owners[r.plugin.value := {InRecords}], records + [r], sets, dropping)
  {
    var p0 := r.plugin.value;
    assert (records + [r])[..|records|] == records;
    forall p: Addr, o: Owner
      ensures Owns(o, p, records + [r], sets, dropping) <==> Owns(o, p, records, sets, dropping) || (o == InRecords && p == p0)
    {
      InRecordLast(records + [r], p);
    }
  }

  ghost function Release(holders: Holders, a: Addr, h: Holder): Holders
    requires a in holders
  {
    if holders[a] == {h} then holders - {a} else holders[a := holders[a] - {h}]
  }

  ghost function Hold(holders: Holders, a: Addr, h: Holder): Holders {
    holders[a := (if a in holders then holders[a] else {}) + {h}]
  }

  lemma PublishHolders(holders: Holders, snapshot: Addr, generation: Option<Addr>, held: map<nat, Addr>, addr: Addr)
    requires HoldersExact(holders, snapshot, generation, held) && addr !in holders
    ensures snapshot in holders && Published in holders[snapshot]
    ensures HoldersExact(Release(holders[addr := {Published}], snapshot, Published), addr, generation, held)
  {
    assert Keeps(Published, snapshot, snapshot, generation, held);
    forall a: Addr, h: Holder
      ensures Keeps(h, a, addr, generation, held) <==>
                if h == Published then a == addr else Keeps(h, a, snapshot, generation, held)
    {
    }
    forall a: Addr, h: Holder | Keeps(h, a, snapshot, generation, held) && h != Published
      ensures a != addr && holders[a] - {Published} != {}
    {
      assert h in holders[a] - {Published};
    }
  }

  lemma HoldExact(holders: Holders, snapshot: Addr, generation: Option<Addr>, held: map<nat, Addr>, t: nat)
    requires HoldersExact(holders, snapshot, generation, held) && t !in held
    ensures snapshot in holders && Thread(t) !in holders[snapshot]
    ensures HoldersExact(Hold(holders, snapshot, Thread(t)), snapshot, generation, held[t := snapshot])
  {
    assert Keeps(Published, snapshot, snapshot, generation, held);
    var held' := held[t := snapshot];
    forall a: Addr, h: Holder
      ensures Keeps(h, a, snapshot, generation, held') <==>
                Keeps(h, a, snapshot, generation, held) || (h == Thread(t) && a == snapshot)
    {
    }
  }

  lemma LetGoExact(holders: Holders, snapshot: Addr, generation: Option<Addr>, held: map<nat, Addr>, t: nat)
    requires HoldersExact(holders, snapshot, generation, held) && t in held
    ensures held[t] in holders && Thread(t) in holders[held[t]]
    ensures HoldersExact(Release(holders, held[t], Thread(t)), snapshot, generation, held - {t})
  {
    assert Keeps(Thread(t), held[t], snapshot, generation, held);
    var held' := held - {t};
    forall a: Addr, h: Holder
      ensures Keeps(h, a, snapshot, generation, held') <==> Keeps(h, a, snapshot, generation, held) && h != Thread(t)
    {
    }
    forall a: Addr, h: Holder | Keeps(h, a, snapshot, generation, held') && a == held[t]
      ensures holders[a] - {Thread(t)} != {}
    {
      assert h in holders[a] - {Thread(t)};
    }
  }

  /** The cache moves on to another set: it takes the new reference before it drops the old one. */
  lemma MoveCacheExact(holders: Holders, snapshot: Addr, generation: Option<Addr>, held: map<nat, Addr>, a: Addr)
    requires HoldersExact(holders, snapshot, generation, held) && a in holders && generation != Some(a)
    ensures Cached !in holders[a]
    ensures generation.Some? ==> generation.value in holders && Cached in holders[generation.value]
    ensures var taken := Hold(holders, a, Cached);
            HoldersExact(if generation.Some? then Release(taken, generation.value, Cached) else taken, snapshot, Some(a), held)
  {
    var next := Some(a);
    if generation.Some? { assert Keeps(Cached, generation.value, snapshot, generation, held); }
    forall b: Addr, h: Holder
      ensures Keeps(h, b, snapshot, next, held) <==>
                if h == Cached then b == a else Keeps(h, b, snapshot, generation, held)
    {
    }
    forall b: Addr, h: Holder | Keeps(h, b, snapshot, generation, held) && h != Cached
      ensures b in holders && h in holders[b] - {Cached}
    {
    }
  }
}
