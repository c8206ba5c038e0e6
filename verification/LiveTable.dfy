/** The ordered map that the vector store refines: rows in insertion order, one per log_id. */
module LiveTable {
  import opened Basics
  import opened Candidates

  type LogId = string

  /** An empty log_id marks a tombstone. */
  const EMPTY: LogId := []

  datatype Row = Row(logId: LogId, embedding: Vec, metadata: string)

  ghost predicate DistinctIds(rows: seq<Row>) {
    forall i, j :: 0 <= i < j < |rows| ==> rows[i].logId != rows[j].logId
  }

  ghost predicate Holds(rows: seq<Row>, logId: LogId) {
    exists i :: 0 <= i < |rows| && rows[i].logId == logId
  }

  /** The rows of all other log_ids; the effect of DELETE ... WHERE log_id = ? */
  function Without(rows: seq<Row>, logId: LogId): (r: seq<Row>)
    ensures |r| <= |rows|
    ensures forall i :: 0 <= i < |r| ==> r[i].logId != logId
  {
    if rows == [] then []
    else Without(DropLast(rows), logId) + if Last(rows).logId == logId then [] else [Last(rows)]
  }

  /** The effect of INSERT OR REPLACE under an AUTOINCREMENT key: the old row goes, the new is last. */
  function Upsert(rows: seq<Row>, row: Row): seq<Row> {
    Without(rows, row.logId) + [row]
  }

  /** The newest rows within the trim threshold; 0 switches trimming off. */
  function Newest(rows: seq<Row>, threshold: nat): seq<Row> {
    if threshold == 0 || |rows| <= threshold then rows else rows[|rows| - threshold..]
  }

  // ---------- facts about Without ----------

  lemma {:induction false} WithoutAbsent(rows: seq<Row>, logId: LogId)
    requires !Holds(rows, logId)
    ensures Without(rows, logId) == rows
  {
    if rows != [] {
      var rest := DropLast(rows);
      assert rows == rest + [Last(rows)];
      HoldsAppend(rest, Last(rows), logId);
      hide Holds;
      WithoutAbsent(rest, logId);
    }
  }

  lemma WithoutLast(rows: seq<Row>, row: Row, logId: LogId)
    ensures Without(rows + [row], logId) == Without(rows, logId) + if row.logId == logId then [] else [row]
  {
    assert DropLast(rows + [row]) == rows;
  }

  lemma {:induction false} WithoutConcat(a: seq<Row>, b: seq<Row>, logId: LogId)
    ensures Without(a + b, logId) == Without(a, logId) + Without(b, logId)
  {
    if b == [] {
      assert a + b == a && Without(b, logId) == [];
      hide Without;
    } else {
      var rest, last := DropLast(b), Last(b);
      WithoutConcat(a, rest, logId);
      hide Without;
      ConcatLast(a, b);
      WithoutLast(a + rest, last, logId);
      WithoutLast(rest, last, logId);
      ConcatAssociative(Without(a, logId), Without(rest, logId), if last.logId == logId then [] else [last]);
    }
  }

  lemma {:induction false} WithoutDistinct(rows: seq<Row>, logId: LogId)
    requires DistinctIds(rows)
    ensures DistinctIds(Without(rows, logId)) && !Holds(Without(rows, logId), logId)
    ensures forall l :: l != logId ==> (Holds(Without(rows, logId), l) <==> Holds(rows, l))
  {
    if rows != [] {
      var rest := DropLast(rows);
      assert forall i :: 0 <= i < |rest| ==> rest[i] == rows[i];
      WithoutDistinct(rest, logId);
      assert rows == rest + [Last(rows)];
      assert !Holds(rest, Last(rows).logId);
      var w := Without(rest, logId);
      forall l | l != logId
        ensures Holds(Without(rows, logId), l) <==> Holds(rows, l)
      {
        HoldsAppend(rest, Last(rows), l);
        HoldsAppend(w, Last(rows), l);
        assert Without(rows, logId) == if Last(rows).logId == logId then w else w + [Last(rows)];
      }
    }
  }

  lemma HoldsAppend(rows: seq<Row>, row: Row, l: LogId)
    ensures Holds(rows + [row], l) <==> Holds(rows, l) || row.logId == l
  {
    if Holds(rows, l) {
      var i :| 0 <= i < |rows| && rows[i].logId == l;
      assert (rows + [row])[i].logId == l;
    }
    if row.logId == l { assert (rows + [row])[|rows|].logId == l; }
  }

  /** Removing the row at k of a table without duplicates. */
  lemma WithoutAt(rows: seq<Row>, k: nat)
    requires DistinctIds(rows) && k < |rows|
    ensures Without(rows, rows[k].logId) == rows[..k] + rows[k + 1..]
  {
    hide Without, DistinctIds, Holds;
    var l, a, c := rows[k].logId, rows[..k], rows[k + 1..];
    assert rows == a + [rows[k]] + c;
    AbsentAround(rows, k);
    WithoutConcat(a + [rows[k]], c, l);
    WithoutConcat(a, [rows[k]], l);
    WithoutOne(rows[k], l);
    WithoutAbsent(a, l);
    WithoutAbsent(c, l);
  }

  lemma AbsentAround(rows: seq<Row>, k: nat)
    requires DistinctIds(rows) && k < |rows|
    ensures !Holds(rows[..k], rows[k].logId) && !Holds(rows[k + 1..], rows[k].logId)
  {
    var a, c := rows[..k], rows[k + 1..];
    assert forall i :: 0 <= i < |a| ==> a[i] == rows[i];
    assert forall i :: 0 <= i < |c| ==> c[i] == rows[k + 1 + i];
  }

  lemma WithoutOne(row: Row, logId: LogId)
    ensures Without([row], logId) == if row.logId == logId then [] else [row]
  {
    assert DropLast([row]) == [];
  }

  // ---------- removing several ids ----------

  ghost function IdsOf(rows: seq<Row>): set<LogId> {
    set row | row in rows :: row.logId
  }

  /** The rows whose log_id is not in gone. */
  ghost function Except(rows: seq<Row>, gone: set<LogId>): seq<Row> {
    if rows == [] then []
    else Except(DropLast(rows), gone) + if Last(rows).logId in gone then [] else [Last(rows)]
  }

  lemma ExceptLast(rows: seq<Row>, row: Row, gone: set<LogId>)
    ensures Except(rows + [row], gone) == if row.logId in gone then Except(rows, gone) else Except(rows, gone) + [row]
  {
    assert DropLast(rows + [row]) == rows;
  }

  lemma {:induction false} ExceptNone(rows: seq<Row>)
    ensures Except(rows, {}) == rows
  {
    hide Except;
    if rows == [] {
      ExceptEmpty({});
    } else {
      var rest, last := DropLast(rows), Last(rows);
      ExceptNone(rest);
      ExceptLast(rest, last, {});
      ConcatLast([], rows);
    }
  }

  lemma ExceptEmpty(gone: set<LogId>)
    ensures Except([], gone) == []
  {
  }

  lemma {:induction false} ExceptExcept(rows: seq<Row>, a: set<LogId>, b: set<LogId>)
    ensures Except(Except(rows, a), b) == Except(rows, a + b)
  {
    hide Except;
    if rows == [] {
      ExceptEmpty(a);
      ExceptEmpty(b);
      ExceptEmpty(a + b);
    } else {
      var rest, last := DropLast(rows), Last(rows);
      ExceptExcept(rest, a, b);
      ConcatLast([], rows);
      ExceptLast(rest, last, a);
      ExceptLast(rest, last, a + b);
      ExceptLast(Except(rest, a), last, b);
    }
  }

  lemma {:induction false} WithoutIsExcept(rows: seq<Row>, logId: LogId)
    ensures Without(rows, logId) == Except(rows, {logId})
  {
    if rows != [] { WithoutIsExcept(DropLast(rows), logId); }
  }

  lemma {:induction false} HoldsExcept(rows: seq<Row>, gone: set<LogId>, l: LogId)
    ensures Holds(Except(rows, gone), l) <==> Holds(rows, l) && l !in gone
  {
    if rows != [] {
      var rest, last := DropLast(rows), Last(rows);
      HoldsExcept(rest, gone, l);
      HoldsAppend(rest, last, l);
      HoldsAppend(Except(rest, gone), last, l);
      assert rows == rest + [last];
      ExceptLast(rest, last, gone);
      hide Except, Holds;
    }
  }

  lemma {:induction false} ExceptDistinct(rows: seq<Row>, gone: set<LogId>)
    requires DistinctIds(rows)
    ensures DistinctIds(Except(rows, gone))
  {
    if rows != [] {
      var rest, last := DropLast(rows), Last(rows);
      assert rows == rest + [last] && !Holds(rest, last.logId);
      assert DistinctIds(rest) by { assert forall i :: 0 <= i < |rest| ==> rest[i] == rows[i]; }
      ExceptDistinct(rest, gone);
      HoldsExcept(rest, gone, last.logId);
    }
  }

  lemma HoldsIsIn(rows: seq<Row>, l: LogId)
    ensures Holds(rows, l) <==> l in IdsOf(rows)
  {
    if Holds(rows, l) {
      var i :| 0 <= i < |rows| && rows[i].logId == l;
      assert rows[i] in rows;
    }
  }

  /** Removing the ids of the first k rows leaves the others. */
  lemma {:induction false} ExceptPrefix(rows: seq<Row>, k: nat)
    requires DistinctIds(rows) && k <= |rows|
    ensures Except(rows, IdsOf(rows[..k])) == rows[k..]
  {
    hide Without, Except, DistinctIds, Holds;
    if k == 0 {
      ExceptNone(rows);
      assert IdsOf(rows[..0]) == {};
    } else {
      ExceptPrefix(rows, k - 1);
      assert rows[..k] == rows[..k - 1] + [rows[k - 1]];
      assert IdsOf(rows[..k]) == IdsOf(rows[..k - 1]) + {rows[k - 1].logId};
      ExceptExcept(rows, IdsOf(rows[..k - 1]), {rows[k - 1].logId});
      WithoutIsExcept(rows[k - 1..], rows[k - 1].logId);
      DistinctSuffix(rows, k - 1);
      WithoutHead(rows[k - 1..]);
    }
  }

  lemma DistinctSuffix(rows: seq<Row>, k: nat)
    requires DistinctIds(rows) && k <= |rows|
    ensures DistinctIds(rows[k..])
  {
  }

  lemma WithoutHead(rows: seq<Row>)
    requires DistinctIds(rows) && rows != []
    ensures Without(rows, rows[0].logId) == rows[1..] && DistinctIds(rows[1..])
  {
    hide Without;
    WithoutAt(rows, 0);
    assert rows[..0] + rows[1..] == rows[1..];
  }

  /** The ids that trimming to the threshold gives up: those of the oldest rows. */
  ghost function Evicted(rows: seq<Row>, threshold: nat): set<LogId> {
    IdsOf(rows[..|rows| - |Newest(rows, threshold)|])
  }

  lemma EvictedRest(rows: seq<Row>, threshold: nat)
    requires DistinctIds(rows)
    ensures Except(rows, Evicted(rows, threshold)) == Newest(rows, threshold)
    ensures forall l :: Holds(rows, l) <==> l in Evicted(rows, threshold) || Holds(Newest(rows, threshold), l)
    ensures forall l :: l in Evicted(rows, threshold) ==> !Holds(Newest(rows, threshold), l)
  {
    hide Except, DistinctIds, Holds;
    var k := |rows| - |Newest(rows, threshold)|;
    assert rows[k..] == Newest(rows, threshold);
    ExceptPrefix(rows, k);
    forall l
      ensures Holds(rows, l) <==> l in Evicted(rows, threshold) || Holds(Newest(rows, threshold), l)
      ensures l in Evicted(rows, threshold) ==> !Holds(Newest(rows, threshold), l)
    {
      HoldsExcept(rows, Evicted(rows, threshold), l);
      HoldsIsIn(rows, l);
      assert forall row :: row in rows[..k] ==> row in rows;
    }
  }

  /** Eviction takes the oldest rows only, never the one just inserted. */
  lemma JustInsertedStays(rows: seq<Row>, row: Row, threshold: nat)
    requires DistinctIds(rows)
    ensures var kept := Newest(Upsert(rows, row), threshold); kept != [] && Last(kept) == row
    ensures row.logId !in Evicted(Upsert(rows, row), threshold)
  {
    hide Without, Except;
    var grown := Upsert(rows, row);
    UpsertDistinct(rows, row);
    EvictedRest(grown, threshold);
    var kept := Newest(grown, threshold);
    assert Last(kept) == Last(grown) == row;
    assert kept[|kept| - 1].logId == row.logId && Holds(kept, row.logId);
  }

  // ---------- slots: live rows with tombstones between them ----------

  /** An empty log_id marks a tombstone. */
  function Compact(slots: seq<Row>): (r: seq<Row>)
    ensures |r| <= |slots|
    ensures forall i :: 0 <= i < |r| ==> r[i].logId != EMPTY
  {
    if slots == [] then []
    else Compact(DropLast(slots)) + if Last(slots).logId == EMPTY then [] else [Last(slots)]
  }

  /** Compacting is removing the rows with the empty id. */
  lemma {:induction false} CompactIsWithout(slots: seq<Row>)
    ensures Compact(slots) == Without(slots, EMPTY)
  {
    if slots != [] { CompactIsWithout(DropLast(slots)); }
  }

  lemma CompactConcat(a: seq<Row>, b: seq<Row>)
    ensures Compact(a + b) == Compact(a) + Compact(b)
  {
    CompactIsWithout(a);
    CompactIsWithout(b);
    CompactIsWithout(a + b);
    WithoutConcat(a, b, EMPTY);
  }

  ghost predicate LiveDistinct(slots: seq<Row>) {
    forall i, j :: 0 <= i < j < |slots| && slots[i].logId != EMPTY ==> slots[i].logId != slots[j].logId
  }

  lemma {:induction false} CompactDistinct(slots: seq<Row>)
    requires LiveDistinct(slots)
    ensures DistinctIds(Compact(slots))
    ensures forall l :: l != EMPTY ==> (Holds(Compact(slots), l) <==> Holds(slots, l))
  {
    if slots != [] {
      var rest, last := DropLast(slots), Last(slots);
      assert slots == rest + [last];
      assert LiveDistinct(rest) by { assert forall i :: 0 <= i < |rest| ==> rest[i] == slots[i]; }
      CompactDistinct(rest);
      assert last.logId != EMPTY ==> !Holds(rest, last.logId);
      forall l | l != EMPTY
        ensures Holds(Compact(slots), l) <==> Holds(slots, l)
      {
        HoldsAppend(rest, last, l);
        HoldsAppend(Compact(rest), last, l);
        assert Compact(slots) == if last.logId == EMPTY then Compact(rest) else Compact(rest) + [last];
      }
    }
  }

  /** Turning the slot of a live id into a tombstone removes exactly its row. */
  lemma TombstoneRemoves(slots: seq<Row>, i: nat, dead: Row)
    requires LiveDistinct(slots) && i < |slots| && slots[i].logId != EMPTY && dead.logId == EMPTY
    ensures LiveDistinct(slots[i := dead])
    ensures Compact(slots[i := dead]) == Without(Compact(slots), slots[i].logId)
    ensures |Compact(slots[i := dead])| == |Compact(slots)| - 1
    ensures |Compact(slots[..i])| < |Compact(slots)| && Compact(slots)[|Compact(slots[..i])|] == slots[i]
  {
    hide Compact, Without;
    var l := slots[i].logId;
    var a, b := slots[..i], slots[i + 1..];
    assert slots == a + ([slots[i]] + b) && slots[i := dead] == a + ([dead] + b);
    CompactConcat(a, [slots[i]] + b);
    CompactConcat([slots[i]], b);
    CompactConcat(a, [dead] + b);
    CompactConcat([dead], b);
    CompactOne(slots[i]);
    CompactOne(dead);
    CompactDistinct(slots);
    var k := |Compact(a)|;
    var live := Compact(a) + ([slots[i]] + Compact(b));
    assert Compact(slots) == live && live[k] == slots[i];
    WithoutAt(live, k);
    assert live[..k] == Compact(a) && live[k + 1..] == Compact(b);
    assert [] + Compact(b) == Compact(b);
  }

  lemma CompactOne(row: Row)
    ensures Compact([row]) == if row.logId == EMPTY then [] else [row]
  {
    assert DropLast([row]) == [];
  }

  lemma {:induction false} AllDead(slots: seq<Row>)
    requires forall i :: 0 <= i < |slots| ==> slots[i].logId == EMPTY
    ensures Compact(slots) == []
  {
    if slots != [] { AllDead(DropLast(slots)); }
  }

  // ---------- runs of the store seen as an ordered map ----------

  datatype Change = Put(row: Row) | Drop(logId: LogId)

  /** Insertions, with trimming after each, and removals. Threshold 0 gives the untrimmed map. */
  function Run(rows: seq<Row>, changes: seq<Change>, threshold: nat): seq<Row> {
    if changes == [] then rows
    else
      var before := Run(rows, DropLast(changes), threshold);
      match Last(changes)
      case Put(row) => Newest(Upsert(before, row), threshold)
      case Drop(l) => Without(before, l)
  }

  lemma UpsertDistinct(rows: seq<Row>, row: Row)
    requires DistinctIds(rows)
    ensures DistinctIds(Upsert(rows, row))
  {
    WithoutDistinct(rows, row.logId);
  }

  /** Trimming before an insertion does not show after the trimming that follows it. */
  lemma TrimEarly(rows: seq<Row>, row: Row, threshold: nat)
    requires DistinctIds(rows)
    ensures Newest(Upsert(Newest(rows, threshold), row), threshold) == Newest(Upsert(rows, row), threshold)
  {
    hide Without, DistinctIds;
    if threshold != 0 && |rows| > threshold {
      var cut := |rows| - threshold;
      var a, b := rows[..cut], rows[cut..];
      assert rows == a + b && Newest(rows, threshold) == b;
      DistinctSuffix(rows, cut);
      WithoutSize(b, row.logId);
      WithoutConcat(a, b, row.logId);
      assert Upsert(rows, row) == Without(a, row.logId) + Upsert(b, row);
      NewestSuffix(Without(a, row.logId), Upsert(b, row), threshold);
    }
  }

  lemma NewestSuffix(older: seq<Row>, newer: seq<Row>, threshold: nat)
    requires 0 < threshold <= |newer|
    ensures Newest(older + newer, threshold) == Newest(newer, threshold)
  {
  }

  lemma WithoutSize(rows: seq<Row>, logId: LogId)
    requires DistinctIds(rows)
    ensures |Without(rows, logId)| == if Holds(rows, logId) then |rows| - 1 else |rows|
  {
    hide Without;
    if Holds(rows, logId) {
      var j :| 0 <= j < |rows| && rows[j].logId == logId;
      WithoutAt(rows, j);
    } else {
      WithoutAbsent(rows, logId);
    }
  }

  /** Evicting the oldest after every insertion is the same as evicting once at the end: a store
      that has only seen insertions holds the `threshold` most recently inserted log_ids. */
  lemma {:induction false} TrimOnceAtEnd(rows: seq<Row>, changes: seq<Change>, threshold: nat)
    requires DistinctIds(rows) && forall i :: 0 <= i < |changes| ==> changes[i].Put?
    ensures changes != [] ==> Run(rows, changes, threshold) == Newest(Run(rows, changes, 0), threshold)
  {
    if changes != [] {
      var rest, row := DropLast(changes), Last(changes).row;
      TrimOnceAtEnd(rows, rest, threshold);
      RunDistinct(rows, rest, 0);
      if rest != [] { TrimEarly(Run(rows, rest, 0), row, threshold); }
    }
  }

  lemma {:induction false} RunDistinct(rows: seq<Row>, changes: seq<Change>, threshold: nat)
    requires DistinctIds(rows)
    ensures DistinctIds(Run(rows, changes, threshold))
  {
    if changes != [] {
      var before := Run(rows, DropLast(changes), threshold);
      RunDistinct(rows, DropLast(changes), threshold);
      match Last(changes) {
        case Put(row) => UpsertDistinct(before, row); NewestDistinct(Upsert(before, row), threshold);
        case Drop(l) => WithoutDistinct(before, l);
      }
    }
  }

  lemma NewestDistinct(rows: seq<Row>, threshold: nat)
    requires DistinctIds(rows)
    ensures DistinctIds(Newest(rows, threshold))
  {
  }

  /** A removal and trimming can change places exactly when nothing has been trimmed away or the
      removed row is not among those kept: an evicted row does not come back. */
  lemma RemovalKeepsEvicted(rows: seq<Row>, logId: LogId, threshold: nat)
    requires DistinctIds(rows)
    ensures Without(Newest(rows, threshold), logId) == Newest(Without(rows, logId), threshold) <==>
              threshold == 0 || |rows| <= threshold || !Holds(Newest(rows, threshold), logId)
  {
    hide Without, DistinctIds;
    if threshold != 0 && |rows| > threshold {
      var cut := |rows| - threshold;
      var a, b := rows[..cut], rows[cut..];
      assert rows == a + b && Newest(rows, threshold) == b;
      WithoutConcat(a, b, logId);
      DistinctSuffix(rows, cut);
      WithoutSize(b, logId);
      WithoutSize(rows, logId);
      if !Holds(b, logId) {
        WithoutAbsent(b, logId);
        NewestSuffix(Without(a, logId), b, threshold);
      }
    }
  }

  ghost predicate Suffix(rows: seq<Row>, all: seq<Row>) {
    |rows| <= |all| && rows == all[|all| - |rows|..]
  }

  lemma SuffixWithout(rows: seq<Row>, all: seq<Row>, logId: LogId)
    requires Suffix(rows, all)
    ensures Suffix(Without(rows, logId), Without(all, logId))
  {
    hide Without;
    var older := all[..|all| - |rows|];
    assert all == older + rows;
    WithoutConcat(older, rows, logId);
  }

  lemma SuffixUpsert(rows: seq<Row>, all: seq<Row>, row: Row, threshold: nat)
    requires Suffix(rows, all)
    ensures Suffix(Newest(Upsert(rows, row), threshold), Upsert(all, row))
  {
    SuffixWithout(rows, all, row.logId);
    hide Without;
    SuffixAppend(Without(rows, row.logId), Without(all, row.logId), row);
    hide Upsert;
    SuffixNewest(Upsert(rows, row), Upsert(all, row), threshold);
  }

  lemma SuffixAppend(rows: seq<Row>, all: seq<Row>, row: Row)
    requires Suffix(rows, all)
    ensures Suffix(rows + [row], all + [row])
  {
  }

  lemma SuffixNewest(rows: seq<Row>, all: seq<Row>, threshold: nat)
    requires Suffix(rows, all)
    ensures Suffix(Newest(rows, threshold), all)
  {
  }

  /** Whatever is inserted and removed, the store holds the newest part of the untrimmed map, and it
      holds its newest `threshold` rows exactly when it has that many, or all there are. */
  lemma {:induction false} RunIsSuffix(rows: seq<Row>, changes: seq<Change>, threshold: nat)
    ensures Suffix(Run(rows, changes, threshold), Run(rows, changes, 0))
    ensures Run(rows, changes, threshold) == Newest(Run(rows, changes, 0), threshold) <==>
              |Run(rows, changes, threshold)| == if threshold == 0 then |Run(rows, changes, 0)| else Min(threshold, |Run(rows, changes, 0)|)
  {
    if changes != [] {
      var before, all := Run(rows, DropLast(changes), threshold), Run(rows, DropLast(changes), 0);
      RunIsSuffix(rows, DropLast(changes), threshold);
      match Last(changes) {
        case Put(row) => SuffixUpsert(before, all, row, threshold);
        case Drop(l) => SuffixWithout(before, all, l);
      }
    }
    hide Run;
  }
}
