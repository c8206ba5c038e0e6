/** The vector store: id tables over the index, mirrored row by row in a database table. */
module VectorStore {
  import opened Basics
  import opened Candidates
  import opened ProximityGraph
  import opened HnswIndex
  import opened LiveTable

  datatype Config = Config(dim: nat, maxElements: nat, trimThreshold: nat, hnswM: nat, efConstruction: nat, efSearch: nat)

  datatype Hit = Hit(logId: LogId, metadata: string, distanceSq: real)

  /** The id table maps exactly the live log_ids to their slots. */
  ghost predicate Inverse(slots: seq<Row>, logToId: map<LogId, nat>) {
    && (forall l :: l in logToId ==> l != EMPTY && logToId[l] < |slots| && slots[logToId[l]].logId == l)
    && (forall i :: 0 <= i < |slots| && slots[i].logId != EMPTY ==> slots[i].logId in logToId && logToId[slots[i].logId] == i)
  }

  ghost predicate Agree(slots: seq<Row>, logToId: map<LogId, nat>) {
    Inverse(slots, logToId) && |logToId| == |Compact(slots)|
  }

  lemma AgreeDistinct(slots: seq<Row>, logToId: map<LogId, nat>)
    requires Agree(slots, logToId)
    ensures LiveDistinct(slots) && DistinctIds(Compact(slots))
    ensures forall l :: l in logToId <==> l != EMPTY && Holds(Compact(slots), l)
  {
    hide Compact;
    forall l
      ensures l in logToId <==> l != EMPTY && Holds(slots, l)
    {
      if l in logToId { assert slots[logToId[l]].logId == l; }
    }
    CompactDistinct(slots);
    forall l
      ensures l in logToId <==> l != EMPTY && Holds(Compact(slots), l)
    {
      if Holds(Compact(slots), l) {
        var i :| 0 <= i < |Compact(slots)| && Compact(slots)[i].logId == l;
        assert l != EMPTY;
      }
    }
  }

  lemma AgreeLookup(slots: seq<Row>, logToId: map<LogId, nat>)
    requires Agree(slots, logToId)
    ensures |logToId| == |Compact(slots)|
    ensures forall l :: l in logToId ==> l != EMPTY && logToId[l] < |slots| && slots[logToId[l]].logId == l
    ensures forall i :: 0 <= i < |slots| && slots[i].logId != EMPTY ==> slots[i].logId in logToId && logToId[slots[i].logId] == i
  {
  }

  lemma InverseForget(slots: seq<Row>, logToId: map<LogId, nat>, l: LogId, id: nat, dead: Row)
    requires Inverse(slots, logToId) && l in logToId && logToId[l] == id < |slots| && dead.logId == EMPTY
    ensures Inverse(slots[id := dead], logToId - {l}) && |logToId - {l}| == |logToId| - 1
  {
    assert (logToId - {l}).Keys == logToId.Keys - {l};
  }

  lemma AgreeForget(slots: seq<Row>, logToId: map<LogId, nat>, l: LogId, id: nat, dead: Row)
    requires Agree(slots, logToId) && l in logToId && logToId[l] == id < |slots| && dead.logId == EMPTY
    ensures |logToId - {l}| == |logToId| - 1
    ensures Agree(slots[id := dead], logToId - {l})
    ensures Compact(slots[id := dead]) == Without(Compact(slots), l)
  {
    hide Compact, Without, LiveDistinct, DistinctIds;
    AgreeDistinct(slots, logToId);
    assert slots[id].logId == l && l != EMPTY;
    InverseForget(slots, logToId, l, id, dead);
    hide Inverse;
    TombstoneRemoves(slots, id, dead);
  }

  lemma InverseAppend(slots: seq<Row>, logToId: map<LogId, nat>, row: Row)
    requires Inverse(slots, logToId) && row.logId != EMPTY && row.logId !in logToId
    ensures Inverse(slots + [row], logToId[row.logId := |slots|])
    ensures |logToId[row.logId := |slots|]| == |logToId| + 1
  {
    var added, grown := logToId[row.logId := |slots|], slots + [row];
    assert added.Keys == logToId.Keys + {row.logId};
    forall i | 0 <= i < |grown| && grown[i].logId != EMPTY
      ensures grown[i].logId in added && added[grown[i].logId] == i
    {
      assert i < |slots| ==> grown[i] == slots[i] && slots[i].logId in logToId;
    }
  }

  lemma AgreeAppend(slots: seq<Row>, logToId: map<LogId, nat>, row: Row)
    requires Agree(slots, logToId) && row.logId != EMPTY && row.logId !in logToId
    ensures Compact(slots + [row]) == Compact(slots) + [row]
    ensures Agree(slots + [row], logToId[row.logId := |slots|])
  {
    hide Inverse;
    InverseAppend(slots, logToId, row);
    assert DropLast(slots + [row]) == slots;
  }

  /** With only tombstones below it, a live slot holds the oldest live entry. */
  lemma OldestLive(slots: seq<Row>, id: nat)
    requires LiveDistinct(slots) && id < |slots| && slots[id].logId != EMPTY
    requires forall i :: 0 <= i < id ==> slots[i].logId == EMPTY
    ensures Compact(slots) != [] && Compact(slots)[0] == slots[id]
  {
    hide Compact;
    AllDead(slots[..id]);
    TombstoneRemoves(slots, id, Row(EMPTY, [], ""));
  }

  /** The first live slot holds the oldest live row; without it the others are left. */
  lemma EvictionStep(slots: seq<Row>, logToId: map<LogId, nat>, id: nat)
    requires Agree(slots, logToId)
    requires id < |slots| && slots[id].logId != EMPTY && forall i :: 0 <= i < id ==> slots[i].logId == EMPTY
    ensures slots[id].logId in logToId && logToId[slots[id].logId] == id
    ensures Compact(slots) != [] && Compact(slots)[0].logId == slots[id].logId
    ensures Without(Compact(slots), slots[id].logId) == Compact(slots)[1..]
  {
    hide Compact, Without, DistinctIds, LiveDistinct, Holds;
    assert slots[id].logId in logToId && logToId[slots[id].logId] == id;
    AgreeDistinct(slots, logToId);
    hide Agree;
    OldestLive(slots, id);
    WithoutHead(Compact(slots));
  }

  /** Evicting one more row. */
  lemma EvictNext(table: seq<Row>, live: seq<Row>, k: nat)
    requires k < |live|
    ensures Without(Except(table, IdsOf(live[..k])), live[k].logId) == Except(table, IdsOf(live[..k + 1]))
  {
    hide Without, Except;
    assert live[..k + 1] == live[..k] + [live[k]];
    assert IdsOf(live[..k + 1]) == IdsOf(live[..k]) + {live[k].logId};
    WithoutIsExcept(Except(table, IdsOf(live[..k])), live[k].logId);
    ExceptExcept(table, IdsOf(live[..k]), {live[k].logId});
  }

  lemma NothingEvicted(table: seq<Row>, live: seq<Row>)
    ensures IdsOf(live[..0]) == {} && Except(table, IdsOf(live[..0])) == table
  {
    assert IdsOf(live[..0]) == {};
    ExceptNone(table);
  }

  lemma AbsentStays(slots: seq<Row>, logToId: map<LogId, nat>, l: LogId)
    requires Agree(slots, logToId) && l != EMPTY && l !in logToId
    ensures Without(Compact(slots), l) == Compact(slots)
  {
    hide Compact, Without;
    AgreeDistinct(slots, logToId);
    WithoutAbsent(Compact(slots), l);
  }

  /** A table that mirrors the live rows still does after an insertion with its evictions. */
  lemma MirrorKept(rows: seq<Row>, row: Row, threshold: nat)
    requires DistinctIds(rows)
    ensures Except(Upsert(rows, row), Evicted(Upsert(rows, row), threshold)) == Newest(Upsert(rows, row), threshold)
  {
    hide Upsert, Except, Newest, DistinctIds;
    UpsertDistinct(rows, row);
    EvictedRest(Upsert(rows, row), threshold);
  }

  /** What insertion accepts. */
  predicate Accepts(config: Config, dim: nat, used: nat, row: Row) {
    row.logId != EMPTY && row.embedding != [] && (dim == 0 || |row.embedding| == dim) && used < config.maxElements
  }

  /** A table that loads without skipping a row. */
  ghost predicate Loadable(config: Config, dim: nat, rows: seq<Row>) {
    && DistinctIds(rows) && |rows| <= config.maxElements
    && (forall i :: 0 <= i < |rows| ==> rows[i].logId != EMPTY && rows[i].embedding != [])
    && (dim != 0 ==> forall i :: 0 <= i < |rows| ==> |rows[i].embedding| == dim)
    && (forall i, j :: 0 <= i < j < |rows| ==> |rows[i].embedding| == |rows[j].embedding|)
  }

  /** What the public operations see: dimension, used slots, ordered live rows. */
  datatype View = View(dim: nat, used: nat, rows: seq<Row>)

  function InsertOne(config: Config, v: View, row: Row): View {
    var dim := if v.dim == 0 && row.logId != EMPTY then |row.embedding| else v.dim;
    if Accepts(config, v.dim, v.used, row)
    then View(dim, v.used + 1, Newest(Upsert(v.rows, row), config.trimThreshold))
    else View(dim, v.used, v.rows)
  }

  function InsertMany(config: Config, v: View, batch: seq<Row>): View {
    if batch == [] then v else InsertOne(config, InsertMany(config, v, DropLast(batch)), Last(batch))
  }

  function Zip(ids: seq<LogId>, embeddings: seq<Vec>, metas: seq<string>, n: nat): (r: seq<Row>)
    requires n <= |ids| && n <= |embeddings| && n <= |metas|
    ensures |r| == n && forall i :: 0 <= i < n ==> r[i].logId == ids[i] && r[i].embedding == embeddings[i] && r[i].metadata == metas[i]
  {
    seq(n, i requires 0 <= i < n => Row(ids[i], embeddings[i], metas[i]))
  }

  /** Loading one more row of a table, trimmed to the threshold as it goes. */
  lemma LoadStep(rows: seq<Row>, i: nat, threshold: nat)
    requires DistinctIds(rows) && i < |rows|
    ensures Newest(Upsert(Newest(rows[..i], threshold), rows[i]), threshold) == Newest(rows[..i + 1], threshold)
  {
    hide Without;
    var done := rows[..i];
    assert DistinctIds(done) by { assert forall k :: 0 <= k < |done| ==> done[k] == rows[k]; }
    TrimEarly(done, rows[i], threshold);
    AbsentAround(rows, i);
    WithoutAbsent(done, rows[i].logId);
    assert rows[..i + 1] == done + [rows[i]];
  }

  /** A table can be loaded whole exactly when no row of it is refused, and then memory holds its
      newest rows. */
  lemma {:induction false} LoadableRun(config: Config, dim: nat, rows: seq<Row>)
    requires DistinctIds(rows)
    ensures var v := InsertMany(config, View(dim, 0, []), rows);
            && v.used <= |rows| && (v.used == |rows| <==> Loadable(config, dim, rows))
            && (Loadable(config, dim, rows) ==>
                  v.rows == Newest(rows, config.trimThreshold) && v.dim == if dim == 0 && rows != [] then |rows[0].embedding| else dim)
  {
    hide Newest, Upsert;
    if rows == [] {
      assert Newest([], config.trimThreshold) == [] by { NewestNone(config.trimThreshold); }
    } else {
      var rest, last := DropLast(rows), Last(rows);
      assert rows == rest + [last] && rest == rows[..|rest|];
      assert DistinctIds(rest) by { assert forall k :: 0 <= k < |rest| ==> rest[k] == rows[k]; }
      LoadableRun(config, dim, rest);
      LoadableLast(config, dim, rest, last);
      LoadStep(rows, |rest|, config.trimThreshold);
      assert rows[..|rest| + 1] == rows;
      hide Loadable, DistinctIds;
      assert InsertMany(config, View(dim, 0, []), rows) == InsertOne(config, InsertMany(config, View(dim, 0, []), rest), last);
    }
  }

  lemma NewestNone(threshold: nat)
    ensures Newest([], threshold) == []
  {
  }

  lemma LoadableLast(config: Config, dim: nat, rest: seq<Row>, last: Row)
    requires DistinctIds(rest + [last])
    ensures Loadable(config, dim, rest + [last]) <==>
              Loadable(config, dim, rest) && Accepts(config, if dim == 0 && rest != [] then |rest[0].embedding| else dim, |rest|, last)
  {
    var rows := rest + [last];
    assert forall k :: 0 <= k < |rest| ==> rows[k] == rest[k];
    if Loadable(config, dim, rows) {
      assert rows[|rest|] == last;
      assert Loadable(config, dim, rest);
    }
  }

  /** After i rows have been read: memory as if they had been inserted one by one, and each of their
      log_ids either live, or evicted from memory and table, or skipped and only in the table. */
  ghost predicate Loaded(config: Config, dim: nat, rows: seq<Row>, i: nat, v: View, table: seq<Row>, gone: set<LogId>, skipped: set<LogId>) {
    && i <= |rows| && v == InsertMany(config, View(dim, 0, []), rows[..i])
    && table == Except(rows, gone) && DistinctIds(v.rows)
    && Partition(IdsOf(rows[..i]), v.rows, gone, skipped)
    && v.used <= i && (v.used == i <==> skipped == {})
  }

  ghost predicate Partition(all: set<LogId>, live: seq<Row>, gone: set<LogId>, skipped: set<LogId>) {
    && (forall l :: l in all <==> l in gone || l in skipped || Holds(live, l))
    && gone !! skipped && (forall l :: Holds(live, l) ==> l !in gone && l !in skipped)
  }

  lemma LoadedNone(config: Config, dim: nat, rows: seq<Row>)
    ensures Loaded(config, dim, rows, 0, View(dim, 0, []), rows, {}, {})
  {
    ExceptNone(rows);
    assert rows[..0] == [] && IdsOf([]) == {};
  }

  /** Reading one more row. */
  lemma LoadRow(config: Config, dim: nat, rows: seq<Row>, i: nat, v: View, table: seq<Row>, gone: set<LogId>, skipped: set<LogId>)
    requires DistinctIds(rows) && i < |rows| && Loaded(config, dim, rows, i, v, table, gone, skipped)
    ensures var ev := Evicted(Upsert(v.rows, rows[i]), config.trimThreshold);
            if Accepts(config, v.dim, v.used, rows[i])
            then Loaded(config, dim, rows, i + 1, InsertOne(config, v, rows[i]), Except(table, ev), gone + ev, skipped)
            else Loaded(config, dim, rows, i + 1, InsertOne(config, v, rows[i]), table, gone, skipped + {rows[i].logId})
  {
    hide Except, Upsert, Newest, Holds, DistinctIds, Partition, Evicted, Accepts;
    var row := rows[i];
    var grown := Upsert(v.rows, row);
    var ev := Evicted(grown, config.trimThreshold);
    assert rows[..i + 1] == rows[..i] + [row] && DropLast(rows[..i + 1]) == rows[..i];
    assert IdsOf(rows[..i + 1]) == IdsOf(rows[..i]) + {row.logId};
    assert row.logId !in IdsOf(rows[..i]) by { NewId(rows, i); }
    if Accepts(config, v.dim, v.used, row) {
      ExceptExcept(rows, gone, ev);
      UpsertDistinct(v.rows, row);
      EvictedRest(grown, config.trimThreshold);
      NewestDistinct(grown, config.trimThreshold);
      PartitionInsert(IdsOf(rows[..i]), v.rows, gone, skipped, row, config.trimThreshold);
    } else {
      PartitionSkip(IdsOf(rows[..i]), v.rows, gone, skipped, row.logId);
    }
  }

  lemma NewId(rows: seq<Row>, i: nat)
    requires DistinctIds(rows) && i < |rows|
    ensures rows[i].logId !in IdsOf(rows[..i])
  {
  }

  lemma PartitionInsert(all: set<LogId>, live: seq<Row>, gone: set<LogId>, skipped: set<LogId>, row: Row, threshold: nat)
    requires DistinctIds(live) && Partition(all, live, gone, skipped) && row.logId !in all
    ensures Partition(all + {row.logId}, Newest(Upsert(live, row), threshold), gone + Evicted(Upsert(live, row), threshold), skipped)
  {
    hide Except, Newest, Holds, DistinctIds, Evicted, Without;
    var grown := Upsert(live, row);
    UpsertDistinct(live, row);
    EvictedRest(grown, threshold);
    WithoutDistinct(live, row.logId);
    forall l
      ensures Holds(grown, l) <==> Holds(live, l) || l == row.logId
    {
      HoldsAppend(Without(live, row.logId), row, l);
    }
  }

  lemma PartitionSkip(all: set<LogId>, live: seq<Row>, gone: set<LogId>, skipped: set<LogId>, l: LogId)
    requires Partition(all, live, gone, skipped) && l !in all
    ensures Partition(all + {l}, live, gone, skipped + {l})
  {
    hide Holds;
  }

  /** After loading, memory and table agree exactly when no row had to be skipped. */
  lemma LoadedAgrees(config: Config, dim: nat, rows: seq<Row>, v: View, table: seq<Row>, gone: set<LogId>, skipped: set<LogId>)
    requires DistinctIds(rows) && Loaded(config, dim, rows, |rows|, v, table, gone, skipped)
    ensures table == v.rows <==> Loadable(config, dim, rows)
    ensures Loadable(config, dim, rows) ==> v.used == |rows| && v.rows == Newest(rows, config.trimThreshold)
  {
    hide Except, Newest, Holds, DistinctIds, Loadable, InsertMany, Evicted;
    assert rows[..|rows|] == rows;
    LoadableRun(config, dim, rows);
    if Loadable(config, dim, rows) {
      EvictedRest(rows, config.trimThreshold);
      forall l
        ensures l in gone <==> l in Evicted(rows, config.trimThreshold)
      {
        HoldsIsIn(rows, l);
      }
      assert gone == Evicted(rows, config.trimThreshold);
    } else {
      var l :| l in skipped;
      HoldsIsIn(rows, l);
      HoldsExcept(rows, gone, l);
    }
  }

  lemma {:induction false} CompactFull(slots: seq<Row>)
    requires |Compact(slots)| == |slots|
    ensures Compact(slots) == slots && forall i :: 0 <= i < |slots| ==> slots[i].logId != EMPTY
  {
    if slots != [] {
      CompactFull(DropLast(slots));
      assert slots == DropLast(slots) + [Last(slots)];
    }
  }

  lemma {:induction false} CompactMembers(slots: seq<Row>)
    ensures forall i :: 0 <= i < |Compact(slots)| ==> Compact(slots)[i] in slots
  {
    if slots != [] {
      CompactMembers(DropLast(slots));
      assert slots == DropLast(slots) + [Last(slots)];
    }
  }

  lemma {:induction false} DeadCount(deleted: seq<bool>, slots: seq<Row>)
    requires |deleted| == |slots| && forall i :: 0 <= i < |slots| ==> (deleted[i] <==> slots[i].logId == EMPTY)
    ensures |slots| - Count(deleted, true) == |Compact(slots)|
  {
    if slots != [] { DeadCount(DropLast(deleted), DropLast(slots)); }
  }

  class Store {
    const config: Config

    var dim: nat
    var index: Index?
    var idToLog: seq<LogId>
    var idToMeta: seq<string>
    var logToId: map<LogId, nat>
    var trimCursor: nat

    /** The rows of the SQL table in key order. */
    var table: seq<Row>

    /** All entries in internal-id order, an empty log_id marking a tombstone. */
    ghost var slots: seq<Row>

    ghost predicate SlotsOk()
      reads this`slots, this`idToLog, this`idToMeta
    {
      && |slots| == |idToLog| == |idToMeta| <= config.maxElements <= NO_SKIP
      && (forall i :: 0 <= i < |slots| ==> slots[i].logId == idToLog[i] && slots[i].metadata == idToMeta[i])
    }

    /** The index holds the slots' embeddings and its flags mark exactly the emptied slots. */
    ghost predicate IndexOk()
      reads this`slots, this`dim, this`index, index
    {
      && (index == null <==> dim == 0)
      && (index == null ==> slots == [])
      && (index != null ==>
            && index.Valid() && index.dim == dim && index.m == Max(config.hnswM, 2)
            && index.efConstruction == Max(config.efConstruction, Max(config.hnswM, 2)) && |slots| == |index.data| == |index.deleted| == |index.levels|
            && (forall i :: 0 <= i < |slots| ==> slots[i].embedding == index.data[i])
            && (forall i :: 0 <= i < |slots| ==> (index.deleted[i] <==> slots[i].logId == EMPTY)))
    }

    /** Every in-memory table agrees with every other. */
    ghost predicate Consistent()
      reads this, index
    {
      && SlotsOk() && IndexOk() && Agree(slots, logToId)
      && trimCursor <= |slots| && (forall i :: 0 <= i < trimCursor ==> slots[i].logId == EMPTY)
    }

    /** The live entries in internal-id order. */
    ghost function Rows(): seq<Row>
      reads this`slots
    {
      Compact(slots)
    }

    /** Between public calls the trim threshold holds too, and the UNIQUE column of the table. */
    ghost predicate Sound()
      reads this, index
    {
      && Consistent() && DistinctIds(table)
      && (config.trimThreshold != 0 ==> |logToId| <= config.trimThreshold)
    }

    /** The table mirrors memory; so it is unless it had rows that could not be loaded. */
    ghost predicate Valid()
      reads this, index
    {
      Sound() && table == Rows()
    }

    method RandomLevel() returns (level: nat) {
      level := *;
    }

    /** mark_deleted plus emptying the slot's strings. */
    method Tombstone(id: nat)
      requires SlotsOk() && IndexOk()
      modifies this`idToLog, this`idToMeta, this`slots, if index == null then {} else {index}
      ensures SlotsOk() && IndexOk()
      ensures slots == if id < |old(slots)| then old(slots)[id := Row(EMPTY, old(slots)[id].embedding, "")] else old(slots)
      ensures index != null ==> index.data == old(index.data) && index.links == old(index.links)
    {
      hide Index.Valid;
      if index == null || id >= |idToLog| { return; }
      index.MarkDeleted(id);
      idToLog := idToLog[id := EMPTY];
      idToMeta := idToMeta[id := ""];
      slots := slots[id := Row(EMPTY, slots[id].embedding, "")];
    }

    /** Tombstones the slot of a live log_id and erases it from the id table. */
    method Forget(logId: LogId)
      requires Consistent() && logId in logToId
      modifies this`idToLog, this`idToMeta, this`logToId, this`slots, if index == null then {} else {index}
      ensures Consistent()
      ensures logToId == old(logToId) - {logId} && |logToId| == |old(logToId)| - 1
      ensures |slots| == |old(slots)| && slots[old(logToId)[logId]].logId == EMPTY
      ensures Rows() == Without(old(Rows()), logId)
    {
      hide Compact, Without, Agree, IndexOk;
      AgreeLookup(slots, logToId);
      var id := logToId[logId];
      AgreeForget(slots, logToId, logId, id, Row(EMPTY, slots[id].embedding, ""));
      Tombstone(id);
      logToId := logToId - {logId};
    }

    /** One step of eviction: the live entry at the cursor goes from memory and from the table. */
    method EvictAt(id: nat)
      requires Consistent() && id == trimCursor < |slots| && idToLog[id] != EMPTY
      modifies this`idToLog, this`idToMeta, this`logToId, this`slots, this`trimCursor, this`table, if index == null then {} else {index}
      ensures Consistent() && |slots| == |old(slots)| && trimCursor == id + 1
      ensures old(Rows()) != [] && Rows() == old(Rows())[1..] && table == Without(old(table), old(Rows())[0].logId)
      ensures |logToId| == |old(logToId)| - 1
    {
      hide Compact, Without, Agree, IndexOk;
      var victim := idToLog[id];
      EvictionStep(slots, logToId, id);
      Forget(victim);
      trimCursor := trimCursor + 1;
      table := Without(table, victim);
    }

    lemma AllEvicted()
      requires Consistent() && trimCursor == |slots|
      ensures logToId == map[]
    {
      AgreeLookup(slots, logToId);
      AllDead(slots);
      assert |logToId| == 0;
    }

    /** Evicts the oldest live entries beyond the threshold, in memory and in the table. */
    method Trim()
      requires Consistent()
      modifies this`idToLog, this`idToMeta, this`logToId, this`slots, this`trimCursor, this`table, if index == null then {} else {index}
      ensures Consistent() && |slots| == |old(slots)|
      ensures Rows() == Newest(old(Rows()), config.trimThreshold)
      ensures table == Except(old(table), Evicted(old(Rows()), config.trimThreshold))
      ensures config.trimThreshold != 0 ==> |logToId| <= config.trimThreshold
    {
      hide Compact, Without, Except, Agree, IndexOk, IdsOf;
      AgreeLookup(slots, logToId);
      NothingEvicted(table, Rows());
      if config.trimThreshold == 0 { return; }
      if |logToId| <= config.trimThreshold { return; }
      EvictOldest(|logToId| - config.trimThreshold);
    }

    /** The loop of trim: the cursor moves on, over tombstones, until n live entries are gone. */
    method EvictOldest(n: nat)
      requires Consistent() && n <= |logToId|
      modifies this`idToLog, this`idToMeta, this`logToId, this`slots, this`trimCursor, this`table, if index == null then {} else {index}
      ensures Consistent() && |slots| == |old(slots)| && |logToId| == |old(logToId)| - n
      ensures n <= |old(Rows())| && Rows() == old(Rows())[n..] && table == Except(old(table), IdsOf(old(Rows())[..n]))
    {
      hide Compact, Without, Except, Agree, IndexOk, IdsOf, SlotsOk;
      AgreeLookup(slots, logToId);
      NothingEvicted(table, Rows());
      var excess := n;
      ghost var rows0, table0 := Rows(), table;
      Sizes();
      hide Consistent;
      while excess > 0 && trimCursor < |idToLog|
        invariant 0 <= excess <= n && Consistent() && |slots| == |old(slots)| == |idToLog|
        invariant |logToId| == |old(logToId)| - (n - excess)
        invariant Rows() == rows0[n - excess..]
        invariant table == Except(table0, IdsOf(rows0[..n - excess]))
        decreases |slots| - trimCursor
      {
        if idToLog[trimCursor] == EMPTY {
          SkipTombstone();
        } else {
          EvictNext(table0, rows0, n - excess);
          EvictAt(trimCursor);
          excess := excess - 1;
        }
        Sizes();
      }
      if excess > 0 {
        AllEvicted();
        assert false;
      }
    }

    method SkipTombstone()
      requires Consistent() && trimCursor < |idToLog| && idToLog[trimCursor] == EMPTY
      modifies this`trimCursor
      ensures Consistent() && trimCursor == old(trimCursor) + 1
    {
      hide IndexOk, Agree;
      trimCursor := trimCursor + 1;
    }

    // ---------- insertion ----------

    /** Appends a slot for a log_id that is not live. */
    method AppendSlot(row: Row)
      requires Consistent() && index != null && |row.embedding| == dim && |slots| < config.maxElements
      requires row.logId != EMPTY && row.logId !in logToId
      modifies this`idToLog, this`idToMeta, this`logToId, this`slots, index
      ensures Consistent()
      ensures slots == old(slots) + [row] && Rows() == old(Rows()) + [row]
    {
      hide Index.Valid, Compact, Agree, NodeLinked, LocalMinimum;
      AgreeAppend(slots, logToId, row);
      var newId := |idToLog|;
      var level := RandomLevel();
      ghost var eps, beams := index.AddPoint(newId, row.embedding, level);
      idToLog := idToLog + [row.logId];
      idToMeta := idToMeta + [row.metadata];
      logToId := logToId[row.logId := newId];
      slots := slots + [row];
    }

    /** Inserts a row; a row that is being loaded is in the table already. */
    method InsertLocked(row: Row, writeDb: bool) returns (ok: bool)
      requires Consistent()
      modifies this, if index == null then {} else {index}
      ensures Consistent() && (index == old(index) || (old(index) == null && fresh(index)))
      ensures ok <==> Accepts(config, old(dim), |old(slots)|, row)
      ensures Seen() == InsertOne(config, old(Seen()), row)
      ensures !ok ==> slots == old(slots) && logToId == old(logToId) && table == old(table)
      ensures ok ==> table == Except(if writeDb then Upsert(old(table), row) else old(table),
                                     Evicted(Upsert(old(Rows()), row), config.trimThreshold))
      ensures ok && config.trimThreshold != 0 ==> |logToId| <= config.trimThreshold
    {
      hide IndexOk, SlotsOk, Compact, Upsert, Agree, Except, Evicted;
      Sizes();
      if row.logId == EMPTY { return false; }
      if row.embedding == [] { return false; }
      if dim == 0 { StartIndex(|row.embedding|); }
      Sizes();
      if |row.embedding| != dim { return false; }
      if |idToLog| >= config.maxElements { return false; }

      Store(row, writeDb);
      return true;
    }

    /** The accepted part of an insertion: tombstone the old entry, append, write the row, trim. */
    method Store(row: Row, writeDb: bool)
      requires Consistent() && index != null && |row.embedding| == dim && |slots| < config.maxElements && row.logId != EMPTY
      modifies this`idToLog, this`idToMeta, this`logToId, this`slots, this`trimCursor, this`table, index
      ensures Consistent() && |slots| == |old(slots)| + 1
      ensures Rows() == Newest(Upsert(old(Rows()), row), config.trimThreshold)
      ensures table == Except(if writeDb then Upsert(old(table), row) else old(table),
                              Evicted(Upsert(old(Rows()), row), config.trimThreshold))
      ensures config.trimThreshold != 0 ==> |logToId| <= config.trimThreshold
    {
      hide IndexOk, SlotsOk, Compact, Without, Agree, Except, Evicted;
      if row.logId in logToId { Forget(row.logId); } else { AbsentStays(slots, logToId, row.logId); }
      AppendSlot(row);
      if writeDb { table := Upsert(table, row); }
      Trim();
    }

    lemma Sizes()
      requires Consistent()
      ensures |slots| == |idToLog| == |idToMeta| <= config.maxElements <= NO_SKIP && (index == null <==> dim == 0) && trimCursor <= |slots|
    {
    }

    /** The first vector decides the dimension and creates the index. */
    method StartIndex(size: nat)
      requires Consistent() && dim == 0 && size != 0
      modifies this`dim, this`index
      ensures Consistent() && dim == size && index != null && fresh(index)
    {
      hide Index.Valid, Agree;
      dim := size;
      index := new Index(dim, config.hnswM, config.efConstruction);
    }

    ghost function Seen(): View
      reads this`dim, this`slots
    {
      View(dim, |slots|, Rows())
    }

    method Insert(logId: LogId, embedding: Vec, metadata: string) returns (ok: bool)
      requires Sound()
      modifies this, if index == null then {} else {index}
      ensures Sound() && (index == old(index) || fresh(index))
      ensures old(Valid()) ==> Valid()
      ensures ok <==> logId != [] && embedding != [] && (old(dim) == 0 || |embedding| == old(dim)) && |old(slots)| < config.maxElements
      ensures Seen() == InsertOne(config, old(Seen()), Row(logId, embedding, metadata))
      ensures Rows() == if ok then Newest(Upsert(old(Rows()), Row(logId, embedding, metadata)), config.trimThreshold) else old(Rows())
      ensures dim == if old(dim) == 0 && logId != [] then |embedding| else old(dim)
      ensures var row := Row(logId, embedding, metadata);
              table == if ok then Except(Upsert(old(table), row), Evicted(Upsert(old(Rows()), row), config.trimThreshold)) else old(table)
      ensures |slots| == |old(slots)| + if ok then 1 else 0
    {
      hide IndexOk, SlotsOk, Compact, Upsert, Agree, Except, Evicted, DistinctIds;
      ghost var row := Row(logId, embedding, metadata);
      AgreeDistinct(slots, logToId);
      MirrorKept(Rows(), row, config.trimThreshold);
      UpsertDistinct(table, row);
      ExceptDistinct(Upsert(table, row), Evicted(Upsert(Rows(), row), config.trimThreshold));
      ok := InsertLocked(Row(logId, embedding, metadata), true);
    }

    /** The batch stops at the shortest of the three lists; rejected rows are skipped. */
    method InsertBatch(logIds: seq<LogId>, embeddings: seq<Vec>, metadatas: seq<string>) returns (ok: nat)
      requires Sound()
      modifies this, if index == null then {} else {index}
      ensures Sound() && (index == old(index) || fresh(index))
      ensures old(Valid()) ==> Valid()
      ensures ok == |slots| - |old(slots)|
      ensures Seen() == InsertMany(config, old(Seen()), Zip(logIds, embeddings, metadatas, Min(|logIds|, Min(|embeddings|, |metadatas|))))
    {
      hide IndexOk, SlotsOk, Compact, Upsert, Agree, InsertOne, InsertMany, Consistent;
      var n := Min(|logIds|, Min(|embeddings|, |metadatas|));
      ghost var batch := Zip(logIds, embeddings, metadatas, n);
      ok := 0;
      assert InsertMany(config, Seen(), batch[..0]) == Seen() by { NoBatch(config, Seen()); }
      for i := 0 to n
        invariant Sound() && (old(Valid()) ==> Valid()) && (index == old(index) || fresh(index))
        invariant ok == |slots| - |old(slots)|
        invariant Seen() == InsertMany(config, old(Seen()), batch[..i])
      {
        NextOfBatch(config, old(Seen()), batch, i);
        var accepted := Insert(logIds[i], embeddings[i], metadatas[i]);
        if accepted { ok := ok + 1; }
      }
      assert batch[..n] == batch;
    }

    static lemma NoBatch(config: Config, v: View)
      ensures InsertMany(config, v, []) == v
    {
    }

    static lemma NextOfBatch(config: Config, v: View, batch: seq<Row>, i: nat)
      requires i < |batch|
      ensures InsertMany(config, v, batch[..i + 1]) == InsertOne(config, InsertMany(config, v, batch[..i]), batch[i])
    {
      assert DropLast(batch[..i + 1]) == batch[..i];
    }

    // ---------- removal, clearing, loading ----------

    method Remove(logId: LogId) returns (found: bool)
      requires Sound()
      modifies this`idToLog, this`idToMeta, this`logToId, this`slots, this`table, if index == null then {} else {index}
      ensures Sound() && |slots| == |old(slots)|
      ensures old(Valid()) ==> Valid()
      ensures found <==> Holds(old(Rows()), logId) || Holds(old(table), logId)
      ensures Rows() == Without(old(Rows()), logId) && table == Without(old(table), logId)
    {
      hide IndexOk, SlotsOk, Compact, Without, Agree, Holds, DistinctIds, LiveDistinct;
      AgreeDistinct(slots, logToId);
      WithoutDistinct(table, logId);
      found := false;
      if logId in logToId {
        Forget(logId);
        found := true;
      } else {
        EmptyNeverLive(slots);
        WithoutAbsent(Rows(), logId);
      }
      var deleted := DeleteRow(logId);
      if deleted { found := true; }
    }

    static lemma EmptyNeverLive(slots: seq<Row>)
      ensures !Holds(Compact(slots), EMPTY)
    {
    }

    /** DELETE FROM vectors WHERE log_id = ?; true when a row went. */
    method DeleteRow(logId: LogId) returns (deleted: bool)
      requires DistinctIds(table)
      modifies this`table
      ensures table == Without(old(table), logId)
      ensures deleted <==> Holds(old(table), logId)
    {
      WithoutSize(table, logId);
      deleted := |Without(table, logId)| < |table|;
      table := Without(table, logId);
    }

    method ResetIndex()
      requires config.maxElements <= NO_SKIP
      modifies this`idToLog, this`idToMeta, this`logToId, this`trimCursor, this`index, this`slots
      ensures Consistent() && slots == [] && Rows() == [] && logToId == map[]
      ensures index != null ==> fresh(index)
    {
      idToLog, idToMeta, logToId, trimCursor, slots := [], [], map[], 0, [];
      if dim > 0 {
        index := new Index(dim, config.hnswM, config.efConstruction);
      } else {
        index := null;
      }
    }

    method Clear()
      requires Sound()
      modifies this
      ensures Valid() && table == [] && Rows() == [] && slots == [] && dim == old(dim)
      ensures index != null ==> fresh(index)
    {
      table := [];
      ResetIndex();
    }

    /** Reads the table back row by row, skipping what insertion refuses, a blob that does not have its
        declared dimension being a row without embedding; the trim threshold may evict while loading. Memory and table agree afterwards exactly when no row had to be skipped. */
    method LoadAll() returns (ghost gone: set<LogId>, ghost skipped: set<LogId>)
      requires config.maxElements <= NO_SKIP && DistinctIds(table)
      modifies this
      ensures Sound()
      ensures index != null ==> fresh(index)
      ensures Seen() == InsertMany(config, View(old(dim), 0, []), old(table)) && table == Except(old(table), gone)
      ensures Partition(IdsOf(old(table)), Rows(), gone, skipped)
      ensures Valid() <==> Loadable(config, old(dim), old(table))
      ensures Valid() ==> Rows() == Newest(old(table), config.trimThreshold) && |slots| == |old(table)|
    {
      hide IndexOk, SlotsOk, Compact, Upsert, Agree, Loadable, Newest, Loaded, DistinctIds, Evicted, Except, InsertOne, Accepts;
      ResetIndex();
      var rows := table;
      gone, skipped := {}, {};
      LoadedNone(config, dim, rows);
      for i := 0 to |rows|
        invariant Consistent() && (index != null ==> fresh(index))
        invariant config.trimThreshold != 0 ==> |logToId| <= config.trimThreshold
        invariant Loaded(config, old(dim), rows, i, Seen(), table, gone, skipped)
      {
        LoadRow(config, old(dim), rows, i, Seen(), table, gone, skipped);
        ghost var evicted := Evicted(Upsert(Rows(), rows[i]), config.trimThreshold);
        var ok := InsertLocked(rows[i], false);
        if ok { gone := gone + evicted; } else { skipped := skipped + {rows[i].logId}; }
      }
      LoadedAgrees(config, old(dim), rows, Seen(), table, gone, skipped);
      ExceptDistinct(rows, gone);
      LoadedParts(config, old(dim), rows, Seen(), table, gone, skipped);
    }

    static lemma LoadedParts(config: Config, dim: nat, rows: seq<Row>, v: View, table: seq<Row>, gone: set<LogId>, skipped: set<LogId>)
      requires Loaded(config, dim, rows, |rows|, v, table, gone, skipped)
      ensures v == InsertMany(config, View(dim, 0, []), rows) && table == Except(rows, gone)
      ensures Partition(IdsOf(rows), v.rows, gone, skipped)
    {
      hide Except, Partition, InsertMany;
      assert rows[..|rows|] == rows;
    }

    /** Opening the store on a table written by an earlier run. */
    constructor Open(config: Config, rows: seq<Row>)
      requires config.maxElements <= NO_SKIP && DistinctIds(rows)
      ensures Sound() && fresh(Repr()) && this.config == config
      ensures Seen() == InsertMany(config, View(config.dim, 0, []), rows)
      ensures Valid() <==> Loadable(config, config.dim, rows)
      ensures Valid() ==> Rows() == Newest(rows, config.trimThreshold)
    {
      this.config := config;
      this.table := rows;
      this.dim := config.dim;
      this.index := null;
      idToLog, idToMeta, logToId, trimCursor, slots := [], [], map[], 0, [];
      new;
      ghost var gone, skipped := LoadAll();
    }

    ghost function Repr(): set<object>
      reads this`index
    {
      {this} + if index == null then {} else {index}
    }

    lemma ValidIsLoadable()
      requires Valid()
      ensures Loadable(config, dim, table) && |table| <= |slots|
    {
      hide Compact;
      AgreeDistinct(slots, logToId);
      CompactMembers(slots);
      forall i | 0 <= i < |table|
        ensures table[i].logId != EMPTY && |table[i].embedding| == dim && dim != 0
      {
        assert table[i] in slots;
        var k :| 0 <= k < |slots| && slots[k] == table[i];
        assert index != null && |index.data[k]| == dim;
      }
    }

    /** Rebuilding is loading the table anew. When table and memory agree it loses nothing, keeps the
        order, and leaves no tombstone. */
    method RebuildIndex()
      requires Sound()
      modifies this
      ensures Sound() && (index != null ==> fresh(index))
      ensures Seen() == InsertMany(config, View(old(dim), 0, []), old(table))
      ensures Valid() <==> Loadable(config, old(dim), old(table))
      ensures old(Valid()) ==>
                && Valid() && Rows() == old(Rows()) && table == old(table) && dim == old(dim)
                && slots == Rows() && (index != null ==> index.deletedCount == 0)
    {
      hide Compact, Agree, DistinctIds, Loadable, Index.Valid, Except;
      ghost var wasValid := Valid();
      if wasValid { RebuildStart(); }
      ghost var gone, skipped := LoadAll();
      if wasValid {
        CompactFull(slots);
        if index != null { SizeIsLive(); }
      }
    }

    lemma RebuildStart()
      requires Valid()
      ensures Loadable(config, dim, table) && Newest(table, config.trimThreshold) == table
      ensures InsertMany(config, View(dim, 0, []), table).dim == dim
    {
      hide Compact, Agree, DistinctIds, Loadable, Index.Valid;
      ValidIsLoadable();
      Sizes();
      LoadableRun(config, dim, table);
      assert dim == 0 ==> table == [] by { if dim == 0 { assert slots == []; AllDead(slots); } }
      assert |table| == |logToId| by { AgreeLookup(slots, logToId); }
    }

    /** The index counts exactly the live rows. */
    lemma SizeIsLive()
      requires Consistent() && index != null
      ensures index.count - index.deletedCount == |logToId| && |logToId| == |Rows()| && index.count == |slots|
    {
      hide Compact, Count;
      AgreeLookup(slots, logToId);
      DeadCount(index.deleted, slots);
      assert index.count == |slots| && index.deletedCount == Count(index.deleted, true);
    }

    // ---------- search ----------

    /** Hits are live rows with distinct log_ids, nearest first: the live cut of a locally optimal beam
        around where the descent from the entry ends. When the candidate pool covers what can be
        reached from there they are exactly the nearest reachable live rows. */
    method Search(query: Vec, topK: nat) returns (hits: seq<Hit>, ghost found: seq<Cand>, ghost ep: nat, ghost beam: seq<Cand>)
      requires Sound()
      modifies (if index == null then {} else {index})`visited, (if index == null then {} else {index})`visitCounter
      ensures Sound() && (old(Valid()) ==> Valid()) && |hits| == |found| <= topK
      ensures index == null || |logToId| == 0 || query == [] || |query| != dim || topK == 0 ==> hits == []
      ensures forall i :: 0 <= i < |hits| ==>
                && found[i].id < |slots| && slots[found[i].id].logId != EMPTY
                && hits[i] == Hit(slots[found[i].id].logId, slots[found[i].id].metadata, found[i].dist)
                && found[i].dist == SquaredDistance(query, slots[found[i].id].embedding)
                && hits[i].logId in logToId && logToId[hits[i].logId] == found[i].id
      ensures forall i :: 0 <= i < |hits| ==>
                hits[i].distanceSq >= 0.0 && (hits[i].distanceSq == 0.0 <==> slots[found[i].id].embedding == query)
      ensures forall i, j :: 0 <= i < |hits| && 0 <= j < |hits| && slots[found[i].id].embedding == query ==>
                hits[i].distanceSq <= hits[j].distanceSq
      ensures forall i, j :: 0 <= i < j < |hits| ==>
                && hits[i].logId != hits[j].logId
                && (hits[i].distanceSq < hits[j].distanceSq || (hits[i].distanceSq == hits[j].distanceSq && found[i].id < found[j].id))
      ensures index != null && |logToId| != 0 && query != [] && |query| == dim && topK != 0 ==> FoundFrom(query, topK, found, ep, beam)
    {
      hide Agree, Compact, SquaredDistance, FoundFrom, IndexOk;
      AgreeLookup(slots, logToId);
      Sizes();
      hits, found, ep, beam := [], [], 0, [];
      if index == null { return; }
      SizeIsLive();
      if index.count - index.deletedCount == 0 || query == [] || topK == 0 { return; }
      if |query| != dim { return; }
      var result;
      result, ep, beam := NearestLive(query, topK);
      found := result;
      hits := ToHits(result);
      forall i | 0 <= i < |hits|
        ensures hits[i].distanceSq >= 0.0 && (hits[i].distanceSq == 0.0 <==> slots[found[i].id].embedding == query)
      {
        DistanceSign(query, slots[found[i].id].embedding);
      }
    }

    /** With a large enough pool: as many hits as there are live rows to be reached, at most topK, and
        every such row that is not hit is at least as far from the query as each that is. */
    lemma HitsAreNearest(query: Vec, topK: nat, found: seq<Cand>, ep: nat, beam: seq<Cand>)
      requires Sound() && index != null && |logToId| != 0 && query != [] && |query| == dim && topK != 0 && FoundFrom(query, topK, found, ep, beam)
      requires |Component(index.links, 0, NO_SKIP, ep)| <= (if topK < config.efSearch then config.efSearch else topK)
      ensures forall x :: x in Component(index.links, 0, NO_SKIP, ep) ==> x < |slots|
      ensures var reached := set x | x in Component(index.links, 0, NO_SKIP, ep) && x < |slots| && slots[x].logId != [];
              && |found| == (if topK < |reached| then topK else |reached|)
              && (forall i :: 0 <= i < |found| ==> found[i].id in reached)
              && (forall i, x :: 0 <= i < |found| && x in reached ==>
                    (exists j :: 0 <= j < |found| && found[j].id == x) || found[i].dist <= SquaredDistance(query, slots[x].embedding))
    {
      hide Agree, Compact, SquaredDistance, KNearest, Beam, LiveCut, Descended, Reachable, WellFormed;
      Sizes();
      var all := Component(index.links, 0, NO_SKIP, ep);
      assert forall x :: x in all ==> x < |index.links| by { ComponentExists(ep); }
      assert |index.links| == |slots| by { LinksAreSlots(); }
      var reached := set x | x in all && x < |slots| && slots[x].logId != [];
      assert reached == set x | x in all && Live(index.deleted, x);
      hide Component;
      NearestInNumbers(found, query, index.data, reached, topK);
    }

    lemma ComponentExists(ep: nat)
      requires index != null
      ensures forall x :: x in Component(index.links, 0, NO_SKIP, ep) ==> x < |index.links|
    {
    }

    lemma LinksAreSlots()
      requires Consistent() && index != null
      ensures |index.links| == |slots|
    {
      hide Agree, Compact;
    }

    /** What is found is the live cut of a locally optimal beam around the end ep of the descent from
        the entry; with a large enough pool, the nearest live rows reachable from there. */
    ghost predicate FoundFrom(query: Vec, topK: nat, found: seq<Cand>, ep: nat, beam: seq<Cand>)
      requires index != null
      reads this`index, index
    {
      var pool := Max(topK, config.efSearch);
      && ep < |index.levels| && Descended(index.links, index.data, query, index.entry, index.maxLevel, 0, ep)
      && Beam(index.links, index.data, query, ep, pool, 0, NO_SKIP, beam) && found == LiveCut(beam, index.deleted, topK)
      && (|Component(index.links, 0, NO_SKIP, ep)| <= pool ==>
            KNearest(found, query, index.data, (set x | x in Component(index.links, 0, NO_SKIP, ep) && Live(index.deleted, x)), topK))
    }

    /** search_knn on the index, read through the slots. */
    method NearestLive(query: Vec, topK: nat) returns (found: seq<Cand>, ghost ep: nat, ghost beam: seq<Cand>)
      requires Consistent() && index != null && |query| == dim && topK != 0 && slots != []
      modifies index`visited, index`visitCounter
      ensures Consistent() && FoundFrom(query, topK, found, ep, beam)
      ensures |found| <= topK && Ascending(found)
      ensures forall i :: 0 <= i < |found| ==>
                && found[i].id < |slots| && slots[found[i].id].logId != EMPTY && |slots[found[i].id].embedding| == dim
                && found[i].dist == SquaredDistance(query, slots[found[i].id].embedding)
      ensures forall i, j :: 0 <= i < j < |found| ==> found[i].id != found[j].id
    {
      hide Agree, SquaredDistance, Beam, KNearest, Component, LiveCut, Ascending, WellFormed, Descended;
      found, ep, beam := index.SearchKnn(query, topK, config.efSearch);
      ghost var pool := Max(topK, config.efSearch);
      LiveHits(index.links, index.levels, index.m, index.data, index.deleted, query, ep, pool, beam, topK);
      if |Component(index.links, 0, NO_SKIP, ep)| <= pool {
        KnnExact(index.links, index.levels, index.m, index.data, query, ep, pool, index.deleted, topK, beam);
      }
    }

    /** Looks the ids up in the id tables. */
    method ToHits(result: seq<Cand>) returns (hits: seq<Hit>)
      requires SlotsOk() && forall i :: 0 <= i < |result| ==> result[i].id < |slots|
      ensures |hits| == |result|
      ensures forall i :: 0 <= i < |hits| ==> hits[i] == Hit(slots[result[i].id].logId, slots[result[i].id].metadata, result[i].dist)
    {
      hits := [];
      for i := 0 to |result|
        invariant |hits| == i
        invariant forall k :: 0 <= k < i ==> hits[k] == Hit(slots[result[k].id].logId, slots[result[k].id].metadata, result[k].dist)
      {
        hits := hits + [Hit(idToLog[result[i].id], idToMeta[result[i].id], result[i].dist)];
      }
    }
  }
}
