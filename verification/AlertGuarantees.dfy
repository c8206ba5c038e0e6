/** What the alert selector guarantees over whole runs of calls under one rule and a clock that does
    not go back: repeated fingerprints stay apart, and purging the table cannot be observed. */
module AlertGuarantees {
  import opened AlertKey
  import opened AlertSelector
  import opened AlertHistory

  // ---------- deduplication ----------

  /** How many entries can be selected within the dedup window. */
  function Reach(rule: Rule): nat {
    WindowsIn(rule.dedupWindow) * rule.maxPerMinute
  }

  /** The table cannot overflow. The defaults (60 s, 60 per minute, 4096) are such a rule. */
  ghost predicate Roomy(rule: Rule) {
    rule.dedupWindow == 0 || (rule.maxPerMinute > 0 && Reach(rule) <= rule.dedupCacheSize)
  }

  /** By the time the rate limit lets another entry through after Reach of them, even the last of those
      is a dedup window ago. */
  ghost predicate Tight(rule: Rule) {
    2 * rule.dedupWindow <= Minutes(WindowsIn(rule.dedupWindow) - 1) + 2
  }

  /** The rule keeps repeated fingerprints apart: the table is roomy, or it is one too small and the
      rate limit makes up for that. */
  ghost predicate Keeps(rule: Rule) {
    Roomy(rule) || (rule.maxPerMinute > 0 && Reach(rule) == rule.dedupCacheSize + 1 && Tight(rule))
  }

  lemma DefaultsAreRoomy()
    ensures Roomy(Rule(ERROR, 60_000_000_000, 60, 4096))
  {
    assert WindowsIn(60_000_000_000) == 2;
  }

  /** The entry at i is the last of Reach entries, within the dedup window, or one of them. */
  ghost predicate Guarded(rule: Rule, log: seq<Event>, i: nat)
    requires i < |log|
  {
    exists a: nat :: a <= i && a + Reach(rule) <= |log| && log[i].time - log[a].time < rule.dedupWindow
  }

  /** What is in the table has been selected then; what is not has expired or is guarded. */
  ghost predicate TableOk(rule: Rule, t: Track) {
    var recent, n := t.memory.recent, |t.log|;
    && (forall k :: k in recent ==> exists i :: 0 <= i < n && t.log[i].key == k && t.log[i].time == recent[k])
    && (forall i :: 0 <= i < n ==>
          if t.log[i].key in recent then t.log[i].time <= recent[t.log[i].key]
          else t.now - t.log[i].time >= rule.dedupWindow || (Tight(rule) && Guarded(rule, t.log, i)))
  }

  /** Equal fingerprints are at least the window apart. */
  ghost predicate Spaced(rule: Rule, log: seq<Event>) {
    forall i, j :: 0 <= i < j < |log| && log[i].key == log[j].key ==> log[j].time - log[i].time >= rule.dedupWindow
  }

  ghost predicate DedupOk(rule: Rule, t: Track) {
    && TableOk(rule, t) && Spaced(rule, t.log)
    && forall i :: 0 <= i < |t.log| ==> t.log[i].time <= t.now
  }

  lemma RollDedup(rule: Rule, t: Track, now: int)
    requires DedupOk(rule, t) && t.now <= now
    ensures DedupOk(rule, RollTrack(t, now))
  {
    hide Guarded, Tight, Spaced;
  }

  lemma GuardedGrows(rule: Rule, log: seq<Event>, e: Event, i: nat)
    requires i < |log| && Guarded(rule, log, i)
    ensures Guarded(rule, log + [e], i)
  {
    var a: nat :| a <= i && a + Reach(rule) <= |log| && log[i].time - log[a].time < rule.dedupWindow;
    hide Reach;
    assert (log + [e])[a] == log[a] && (log + [e])[i] == log[i];
  }

  /** A guarded entry is a dedup window before anything selected after it. */
  lemma GuardedApart(rule: Rule, t: Track, key: string, i: nat)
    requires rule.maxPerMinute > 0 && RateOk(t, rule.maxPerMinute) && t.memory.rateCount < rule.maxPerMinute
    requires i < |t.log| && Guarded(rule, t.log, i) && Tight(rule)
    ensures t.now - t.log[i].time >= rule.dedupWindow
  {
    var a: nat :| a <= i && a + Reach(rule) <= |t.log| && t.log[i].time - t.log[a].time < rule.dedupWindow;
    var max, r := rule.maxPerMinute, WindowsIn(rule.dedupWindow);
    LogRate(t, key, t.memory.recent, max);
    hide RateOk;
    var after := t.(memory := Memory(t.memory.recent, t.memory.windowStart, t.memory.rateCount + 1), log := t.log + [Event(t.now, key, t.window)]);
    Apart(after, max, r, a, |t.log|);
    assert after.log[a] == t.log[a];
  }

  /** A new entry whose fingerprint the table does not suppress is a dedup window after its like. */
  lemma NewIsSpaced(rule: Rule, t: Track, key: string)
    requires DedupOk(rule, t) && RateOk(t, rule.maxPerMinute)
    requires rule.maxPerMinute == 0 || t.memory.rateCount < rule.maxPerMinute
    requires rule.maxPerMinute == 0 ==> rule.dedupWindow == 0
    requires key in t.memory.recent ==> t.now - t.memory.recent[key] >= rule.dedupWindow
    ensures forall i :: 0 <= i < |t.log| && t.log[i].key == key ==> t.now - t.log[i].time >= rule.dedupWindow
  {
    hide RateOk;
    forall i | 0 <= i < |t.log| && t.log[i].key == key
      ensures t.now - t.log[i].time >= rule.dedupWindow
    {
      if rule.dedupWindow > 0 && key !in t.memory.recent && t.now - t.log[i].time < rule.dedupWindow {
        hide Guarded, Tight;
        GuardedApart(rule, t, key, i);
      }
    }
  }

  lemma LogDedup(rule: Rule, t: Track, key: string, count: nat)
    requires DedupOk(rule, t)
    requires forall i :: 0 <= i < |t.log| && t.log[i].key == key ==> t.now - t.log[i].time >= rule.dedupWindow
    ensures DedupOk(rule, t.(memory := Memory(t.memory.recent[key := t.now], t.memory.windowStart, count),
                             log := t.log + [Event(t.now, key, t.window)]))
  {
    hide Guarded, Tight;
    var e := Event(t.now, key, t.window);
    var log, recent := t.log + [e], t.memory.recent[key := t.now];
    forall k | k in recent
      ensures exists i :: 0 <= i < |log| && log[i].key == k && log[i].time == recent[k]
    {
      if k == key {
        assert log[|t.log|].key == k;
      } else {
        var i :| 0 <= i < |t.log| && t.log[i].key == k && t.log[i].time == t.memory.recent[k];
        assert log[i] == t.log[i];
      }
    }
    forall i | 0 <= i < |t.log| && t.log[i].key !in recent && t.now - t.log[i].time < rule.dedupWindow
      ensures Tight(rule) && Guarded(rule, log, i)
    {
      GuardedGrows(rule, t.log, e, i);
    }
  }

  lemma NoteDedup(rule: Rule, t: Track, e: Entry)
    requires DedupOk(rule, t) && RateOk(t, rule.maxPerMinute) && Keeps(rule)
    ensures DedupOk(rule, NoteTrack(rule, t, e))
  {
    hide KeyOf, DedupOk, RateOk, Reach, Tight;
    if Judge(rule, t.memory, e, t.now) == Selected {
      NewIsSpaced(rule, t, KeyOf(e));
      LogDedup(rule, t, KeyOf(e), t.memory.rateCount + 1);
    }
  }

  lemma {:induction false} ScanDedup(rule: Rule, t: Track, entries: seq<Entry>)
    requires DedupOk(rule, t) && RateOk(t, rule.maxPerMinute) && Keeps(rule)
    ensures DedupOk(rule, ScanTrack(rule, t, entries))
  {
    hide DedupOk, RateOk, Keeps;
    if entries != [] {
      ScanDedup(rule, t, entries[..|entries| - 1]);
      ScanRate(rule, t, entries[..|entries| - 1]);
      NoteDedup(rule, ScanTrack(rule, t, entries[..|entries| - 1]), entries[|entries| - 1]);
    }
  }

  lemma {:induction false} KeysOfSlice(log: seq<Event>, lo: nat, keys: set<string>)
    requires lo <= |log| && forall k :: k in keys ==> exists i :: lo <= i < |log| && log[i].key == k
    ensures |keys| <= |log| - lo
    decreases |log|
  {
    if lo == |log| {
      assert keys == {};
    } else {
      var last := log[|log| - 1].key;
      var rest := log[..|log| - 1];
      forall k | k in keys - {last}
        ensures exists i :: lo <= i < |rest| && rest[i].key == k
      {
        var i :| lo <= i < |log| && log[i].key == k;
        assert rest[i] == log[i];
      }
      KeysOfSlice(rest, lo, keys - {last});
      assert |keys| <= |keys - {last}| + 1 by {
        if last in keys { assert keys == (keys - {last}) + {last}; } else { assert keys == keys - {last}; }
      }
    }
  }

  /** Every fingerprint in the table that has not expired was selected within the last Reach entries. */
  lemma UnexpiredAreLast(rule: Rule, t: Track)
    requires RateOk(t, rule.maxPerMinute) && TableOk(rule, t) && rule.maxPerMinute > 0
    ensures var n, reach := |t.log|, Reach(rule);
            && (forall i: nat :: i + reach < n ==> t.now - t.log[i].time >= rule.dedupWindow)
            && (forall k :: k in Unexpired(rule, t.memory.recent, t.now) ==>
                  exists i: nat :: i < n && n <= i + reach && t.log[i].key == k && t.now - t.log[i].time < rule.dedupWindow)
  {
    var n, max, r, reach := |t.log|, rule.maxPerMinute, WindowsIn(rule.dedupWindow), Reach(rule);
    forall i: nat | i + reach < n
      ensures t.now - t.log[i].time >= rule.dedupWindow
    {
      Apart(t, max, r, i, n - 1);
    }
    hide Guarded, Tight, Reach;
    forall k | k in Unexpired(rule, t.memory.recent, t.now)
      ensures exists i: nat :: i < n && n <= i + reach && t.log[i].key == k && t.now - t.log[i].time < rule.dedupWindow
    {
      var i :| 0 <= i < n && t.log[i].key == k && t.log[i].time == t.memory.recent[k];
    }
  }

  /** At most Reach fingerprints are unexpired at any time, so a roomy table cannot overflow. */
  lemma NeverOverfull(rule: Rule, t: Track)
    requires RateOk(t, rule.maxPerMinute) && TableOk(rule, t) && (rule.maxPerMinute > 0 || rule.dedupWindow == 0)
    requires forall i :: 0 <= i < |t.log| ==> t.log[i].time <= t.now
    ensures rule.dedupWindow == 0 ==> Unexpired(rule, t.memory.recent, t.now) == map[]
    ensures rule.dedupWindow > 0 ==> |Unexpired(rule, t.memory.recent, t.now)| <= Reach(rule)
  {
    if rule.dedupWindow > 0 {
      var n, reach := |t.log|, Reach(rule);
      UnexpiredAreLast(rule, t);
      hide RateOk, TableOk, Reach;
      KeysOfSlice(t.log, if n >= reach then n - reach else 0, Unexpired(rule, t.memory.recent, t.now).Keys);
    }
  }

  /** If Reach fingerprints are unexpired, the last Reach entries are all within the dedup window. */
  lemma FullReach(rule: Rule, t: Track)
    requires RateOk(t, rule.maxPerMinute) && TableOk(rule, t) && rule.maxPerMinute > 0 && rule.dedupWindow > 0
    requires |Unexpired(rule, t.memory.recent, t.now)| >= Reach(rule) > 0
    ensures Reach(rule) <= |t.log| && t.now - t.log[|t.log| - Reach(rule)].time < rule.dedupWindow
  {
    var n, reach, keys := |t.log|, Reach(rule), Unexpired(rule, t.memory.recent, t.now).Keys;
    UnexpiredAreLast(rule, t);
    hide RateOk, TableOk, Reach;
    if n < reach {
      KeysOfSlice(t.log, 0, keys);
    } else if t.now - t.log[n - reach].time >= rule.dedupWindow {
      forall k | k in keys
        ensures exists i :: n - reach + 1 <= i < n && t.log[i].key == k
      {
        var i: nat :| i < n && n <= i + reach && t.log[i].key == k && t.now - t.log[i].time < rule.dedupWindow;
      }
      KeysOfSlice(t.log, n - reach + 1, keys);
    }
  }

  lemma PurgeDedup(rule: Rule, t: Track)
    requires DedupOk(rule, t) && RateOk(t, rule.maxPerMinute) && Keeps(rule)
    ensures DedupOk(rule, t.(memory := Purge(rule, t.memory, t.now)))
  {
    hide Reach, Tight, RateOk, DedupOk, Purge;
    assert TableOk(rule, t) && forall i :: 0 <= i < |t.log| ==> t.log[i].time <= t.now by { DedupParts(rule, t); }
    NeverOverfull(rule, t);
    if |Unexpired(rule, t.memory.recent, t.now)| > rule.dedupCacheSize {
      ClearGuards(rule, t);
      PurgeClears(rule, t.memory, t.now);
    } else {
      PurgeDropsExpired(rule, t);
    }
  }

  lemma DedupParts(rule: Rule, t: Track)
    requires DedupOk(rule, t)
    ensures TableOk(rule, t) && forall i :: 0 <= i < |t.log| ==> t.log[i].time <= t.now
  {
  }

  lemma PurgeClears(rule: Rule, m: Memory, now: int)
    requires |Unexpired(rule, m.recent, now)| > rule.dedupCacheSize
    ensures Purge(rule, m, now) == m.(recent := map[])
  {
    UnexpiredSize(rule, m.recent, now);
  }

  lemma UnexpiredSize(rule: Rule, recent: map<string, int>, now: int)
    ensures |Unexpired(rule, recent, now)| <= |recent|
  {
    var a, b := Unexpired(rule, recent, now).Keys, recent.Keys;
    assert a <= b;
    assert b == a + (b - a);
    assert |b| == |a| + |b - a|;
  }

  /** Dropping expired fingerprints, or none. */
  lemma PurgeDropsExpired(rule: Rule, t: Track)
    requires DedupOk(rule, t) && |Unexpired(rule, t.memory.recent, t.now)| <= rule.dedupCacheSize
    ensures DedupOk(rule, t.(memory := Purge(rule, t.memory, t.now)))
  {
    hide Guarded, Tight, Spaced;
  }

  /** Clearing an overflowing table leaves everything expired or guarded. */
  lemma ClearGuards(rule: Rule, t: Track)
    requires DedupOk(rule, t) && RateOk(t, rule.maxPerMinute) && Keeps(rule)
    requires rule.dedupCacheSize < |Unexpired(rule, t.memory.recent, t.now)|
    requires rule.dedupWindow == 0 ==> Unexpired(rule, t.memory.recent, t.now) == map[]
    requires rule.dedupWindow > 0 ==> |Unexpired(rule, t.memory.recent, t.now)| <= Reach(rule)
    ensures DedupOk(rule, t.(memory := t.memory.(recent := map[])))
  {
    hide Reach, Tight, RateOk, Guarded, Unexpired, Spaced;
    assert Reach(rule) == rule.dedupCacheSize + 1 && Tight(rule) && rule.maxPerMinute > 0;
    FullReach(rule, t);
    UnexpiredAreLast(rule, t);
    var a := |t.log| - Reach(rule);
    hide Keeps;
    forall i | 0 <= i < |t.log| && t.now - t.log[i].time < rule.dedupWindow
      ensures Guarded(rule, t.log, i)
    {
      GuardedBy(rule, t.log, i, a);
    }
  }

  lemma GuardedBy(rule: Rule, log: seq<Event>, i: nat, a: nat)
    requires i < |log| && a <= i && a + Reach(rule) <= |log| && log[i].time - log[a].time < rule.dedupWindow
    ensures Guarded(rule, log, i)
  {
  }

  lemma CallDedup(rule: Rule, t: Track, call: Batch)
    requires RateOk(t, rule.maxPerMinute) && DedupOk(rule, t) && t.now <= call.now && Keeps(rule)
    ensures DedupOk(rule, CallTrack(rule, t, call))
  {
    hide RateOk, DedupOk, Keeps, Purge, RollTrack;
    RollDedup(rule, t, call.now);
    RollRate(t, call.now, rule.maxPerMinute);
    var rolled := RollTrack(t, call.now);
    ScanRate(rule, rolled, call.entries);
    ScanDedup(rule, rolled, call.entries);
    ScanRecords(rule, rolled, call.entries);
    PurgeDedup(rule, ScanTrack(rule, rolled, call.entries));
    assert rolled.now == call.now by { assert RollTrack(t, call.now).now == call.now by { RolledNow(t, call.now); } }
  }

  lemma RolledNow(t: Track, now: int)
    ensures RollTrack(t, now).now == now && RollTrack(t, now).memory == Roll(t.memory, now) && RollTrack(t, now).log == t.log
  {
  }

  lemma FreshDedup(rule: Rule, start: int, count: nat)
    ensures DedupOk(rule, FreshTrack(start, count))
  {
  }

  lemma {:induction false} RunDedup(rule: Rule, start: int, count: nat, calls: seq<Batch>)
    requires Keeps(rule) && Clocked(start, calls)
    ensures DedupOk(rule, RunTrack(rule, FreshTrack(start, count), calls))
  {
    hide DedupOk, Keeps, RateOk, Clocked, CallTrack;
    if calls == [] {
      FreshDedup(rule, start, count);
    } else {
      var rest, last := calls[..|calls| - 1], calls[|calls| - 1];
      assert calls == rest + [last];
      ClockedPrefix(start, rest, last);
      RunDedup(rule, start, count, rest);
      RunRate(rule, start, count, rest);
      CallDedup(rule, RunTrack(rule, FreshTrack(start, count), rest), last);
    }
  }

  /** Two selected entries with the same fingerprint are always at least the dedup window apart. */
  lemma DedupGuarantee(rule: Rule, start: int, count: nat, calls: seq<Batch>)
    requires Keeps(rule) && Clocked(start, calls)
    ensures Spaced(rule, RunTrack(rule, FreshTrack(start, count), calls).log)
  {
    RunDedup(rule, start, count, calls);
  }

  /** The state in which an entry of the next call is judged. */
  lemma NextDedup(rule: Rule, start: int, count: nat, calls: seq<Batch>, next: Batch)
    requires Keeps(rule) && Clocked(start, calls + [next])
    ensures var rolled := RollTrack(RunTrack(rule, FreshTrack(start, count), calls), next.now);
            DedupOk(rule, rolled) && RateOk(rolled, rule.maxPerMinute) && rolled.now == next.now
  {
    var run := RunTrack(rule, FreshTrack(start, count), calls);
    RolledNow(run, next.now);
    hide DedupOk, Keeps, RateOk, Clocked, RollTrack, RunTrack;
    NextRate(rule, start, count, calls, next);
    RunDedup(rule, start, count, calls);
    RollDedup(rule, run, next.now);
  }

  /** With a roomy table no call of any run finds more unexpired fingerprints than fit. */
  lemma RoomyNeverClears(rule: Rule, start: int, count: nat, calls: seq<Batch>, next: Batch)
    requires Roomy(rule) && Clocked(start, calls + [next])
    ensures !Clears(rule, start, count, calls, next)
  {
    var rolled := RollTrack(RunTrack(rule, FreshTrack(start, count), calls), next.now);
    NextDedup(rule, start, count, calls, next);
    hide RateOk, RunTrack, RollTrack, Reach;
    ScanRate(rule, rolled, next.entries);
    ScanDedup(rule, rolled, next.entries);
    ScanRecords(rule, rolled, next.entries);
    hide ScanTrack, Guarded;
    NeverOverfull(rule, ScanTrack(rule, rolled, next.entries));
  }

  /** The next call finds the table over-full of unexpired fingerprints, and forgets them all. */
  ghost predicate Clears(rule: Rule, start: int, count: nat, calls: seq<Batch>, next: Batch) {
    var scanned := ScanTrack(rule, RollTrack(RunTrack(rule, FreshTrack(start, count), calls), next.now), next.entries);
    |Unexpired(rule, scanned.memory.recent, next.now)| > rule.dedupCacheSize
  }

  // ---------- exactly what is selected ----------

  /** How many entries of a history fall into a rate window. */
  function InWindow(log: seq<Event>, window: nat): nat {
    if log == [] then 0
    else InWindow(log[..|log| - 1], window) + if log[|log| - 1].window == window then 1 else 0
  }

  lemma {:induction false} NoneInWindow(log: seq<Event>, window: nat)
    requires forall i :: 0 <= i < |log| ==> log[i].window < window
    ensures InWindow(log, window) == 0
  {
    if log != [] { NoneInWindow(log[..|log| - 1], window); }
  }

  /** The counter counts the current window; the first one was under way when the rule was set. */
  ghost predicate CountOk(t: Track, count: nat) {
    && t.memory.rateCount == InWindow(t.log, t.window) + (if t.window == 0 then count else 0)
    && forall i :: 0 <= i < |t.log| ==> t.log[i].window <= t.window
  }

  lemma RollCount(t: Track, now: int, count: nat)
    requires CountOk(t, count)
    ensures CountOk(RollTrack(t, now), count)
  {
    if now - t.memory.windowStart >= MINUTE { NoneInWindow(t.log, t.window + 1); }
  }

  lemma {:induction false} ScanCount(rule: Rule, t: Track, entries: seq<Entry>, count: nat)
    requires CountOk(t, count)
    ensures CountOk(ScanTrack(rule, t, entries), count)
  {
    if entries != [] {
      var before := ScanTrack(rule, t, entries[..|entries| - 1]);
      ScanCount(rule, t, entries[..|entries| - 1], count);
      hide KeyOf;
      assert (before.log + [Event(before.now, KeyOf(entries[|entries| - 1]), before.window)])[..|before.log|] == before.log;
    }
  }

  lemma {:induction false} RunCount(rule: Rule, start: int, count: nat, calls: seq<Batch>)
    ensures CountOk(RunTrack(rule, FreshTrack(start, count), calls), count)
  {
    if calls != [] {
      var t, call := RunTrack(rule, FreshTrack(start, count), calls[..|calls| - 1]), calls[|calls| - 1];
      RunCount(rule, start, count, calls[..|calls| - 1]);
      RollCount(t, call.now, count);
      ScanCount(rule, RollTrack(t, call.now), call.entries, count);
    }
  }

  /** An entry with the fingerprint was selected less than the dedup window ago. */
  ghost predicate Repeats(rule: Rule, log: seq<Event>, key: string, now: int) {
    exists i :: 0 <= i < |log| && log[i].key == key && now - log[i].time < rule.dedupWindow
  }

  /** Where the invariants hold, the table and the counter decide as the history does. */
  lemma JudgedByHistory(rule: Rule, t: Track, e: Entry, count: nat)
    requires DedupOk(rule, t) && RateOk(t, rule.maxPerMinute) && CountOk(t, count) && Keeps(rule)
    ensures Judge(rule, t.memory, e, t.now) == Selected <==>
              && Rank(e.level) >= Rank(rule.minLevel)
              && (rule.maxPerMinute > 0 ==> InWindow(t.log, t.window) + (if t.window == 0 then count else 0) < rule.maxPerMinute)
              && !Repeats(rule, t.log, KeyOf(e), t.now)
  {
    hide KeyOf, InWindow, RateOk, Guarded, Tight, Spaced, Reach;
    if Judge(rule, t.memory, e, t.now) == Selected { NewIsSpaced(rule, t, KeyOf(e)); }
  }

  lemma BelowIsRank(rule: Rule, m: Memory, e: Entry, now: int)
    ensures Judge(rule, m, e, now) != Below <==> Rank(e.level) >= Rank(rule.minLevel)
  {
  }

  /** An entry is selected exactly when its level suffices, fewer than max have been selected in the
      running rate window, and none with its fingerprint within the dedup window; the table and the
      counter leave no trace of their own. */
  lemma SelectedExactly(rule: Rule, start: int, count: nat, calls: seq<Batch>, next: Batch, i: nat)
    requires Keeps(rule) && Clocked(start, calls + [next]) && i < |next.entries|
    ensures var t := ScanTrack(rule, RollTrack(RunTrack(rule, FreshTrack(start, count), calls), next.now), next.entries[..i]);
            var e := next.entries[i];
            t.memory == Scan(rule, Roll(RunMemory(rule, Memory(map[], start, count), calls), next.now), next.entries[..i], next.now) &&
            (Judge(rule, t.memory, e, next.now) == Selected <==>
             && e.level in (match rule.minLevel
                    case DEBUG => {DEBUG, INFO, WARN, ERROR, FATAL}
                    case INFO => {INFO, WARN, ERROR, FATAL}
                    case WARN => {WARN, ERROR, FATAL}
                    case ERROR => {ERROR, FATAL}
                    case FATAL => {FATAL})
             && (rule.maxPerMinute > 0 ==> InWindow(t.log, t.window) + (if t.window == 0 then count else 0) < rule.maxPerMinute)
             && !Repeats(rule, t.log, KeyOf(e), next.now))
  {
    var run := RunTrack(rule, FreshTrack(start, count), calls);
    var rolled := RollTrack(run, next.now);
    RunMemoryIsTrack(rule, FreshTrack(start, count), calls);
    RolledNow(run, next.now);
    hide DedupOk, RateOk, CountOk, Keeps, RunTrack, RollTrack, ScanTrack, Scan, RunMemory, Chosen, Clocked, KeyOf, InWindow, Repeats, Judge;
    NextDedup(rule, start, count, calls, next);
    RunCount(rule, start, count, calls);
    RollCount(run, next.now, count);
    ScanRecords(rule, rolled, next.entries[..i]);
    ScanRate(rule, rolled, next.entries[..i]);
    ScanDedup(rule, rolled, next.entries[..i]);
    ScanCount(rule, rolled, next.entries[..i], count);
    JudgedByHistory(rule, ScanTrack(rule, rolled, next.entries[..i]), next.entries[i], count);
    LevelsThatPass(rule, ScanTrack(rule, rolled, next.entries[..i]).memory, next.entries[i], next.now);
    BelowIsRank(rule, ScanTrack(rule, rolled, next.entries[..i]).memory, next.entries[i], next.now);
  }

  // ---------- purging is not observable ----------

  /** Selection with a table that is never purged. */
  function IdealMemory(rule: Rule, m: Memory, calls: seq<Batch>): Memory {
    if calls == [] then m
    else
      var last := calls[|calls| - 1];
      Scan(rule, Roll(IdealMemory(rule, m, calls[..|calls| - 1]), last.now), last.entries, last.now)
  }

  function RunMemory(rule: Rule, m: Memory, calls: seq<Batch>): Memory {
    if calls == [] then m
    else
      var last := calls[|calls| - 1];
      Call(rule, RunMemory(rule, m, calls[..|calls| - 1]), last.entries, last.now)
  }

  lemma {:induction false} RunMemoryIsTrack(rule: Rule, t: Track, calls: seq<Batch>)
    ensures RunTrack(rule, t, calls).memory == RunMemory(rule, t.memory, calls)
  {
    if calls != [] {
      RunMemoryIsTrack(rule, t, calls[..|calls| - 1]);
      CallRecords(rule, RunTrack(rule, t, calls[..|calls| - 1]), calls[|calls| - 1]);
    }
  }

  /** The purged table is part of the full one, and all of that is in the history. */
  ghost predicate Mirrors(t: Track, ideal: Memory) {
    && t.memory.windowStart == ideal.windowStart && t.memory.rateCount == ideal.rateCount
    && (forall k :: k in t.memory.recent ==> k in ideal.recent && t.memory.recent[k] == ideal.recent[k])
    && (forall k :: k in ideal.recent ==> exists i :: 0 <= i < |t.log| && t.log[i].key == k && t.log[i].time == ideal.recent[k])
  }

  lemma NoteMirrors(rule: Rule, t: Track, ideal: Memory, e: Entry)
    requires Keeps(rule) && DedupOk(rule, t) && RateOk(t, rule.maxPerMinute) && Mirrors(t, ideal)
    ensures Judge(rule, t.memory, e, t.now) == Judge(rule, ideal, e, t.now)
    ensures Mirrors(NoteTrack(rule, t, e), Note(rule, ideal, e, t.now))
  {
    hide KeyOf, RateOk, DedupOk, Keeps;
    var key := KeyOf(e);
    if Judge(rule, t.memory, e, t.now) == Selected {
      assert forall i :: 0 <= i < |t.log| && t.log[i].key == key ==> t.now - t.log[i].time >= rule.dedupWindow by {
        SelectedIsSpaced(rule, t, e);
      }
      LoggedMirrors(t, ideal, key);
    }
  }

  lemma SelectedIsSpaced(rule: Rule, t: Track, e: Entry)
    requires Keeps(rule) && DedupOk(rule, t) && RateOk(t, rule.maxPerMinute) && Judge(rule, t.memory, e, t.now) == Selected
    ensures forall i :: 0 <= i < |t.log| && t.log[i].key == KeyOf(e) ==> t.now - t.log[i].time >= rule.dedupWindow
  {
    hide KeyOf, RateOk, DedupOk, Reach, Tight;
    NewIsSpaced(rule, t, KeyOf(e));
  }

  lemma LoggedMirrors(t: Track, ideal: Memory, key: string)
    requires Mirrors(t, ideal)
    ensures Mirrors(t.(memory := t.memory.(recent := t.memory.recent[key := t.now], rateCount := t.memory.rateCount + 1),
                       log := t.log + [Event(t.now, key, t.window)]),
                    ideal.(recent := ideal.recent[key := t.now], rateCount := ideal.rateCount + 1))
  {
    var log := t.log + [Event(t.now, key, t.window)];
    var recent := ideal.recent[key := t.now];
    forall k | k in recent
      ensures exists i :: 0 <= i < |log| && log[i].key == k && log[i].time == recent[k]
    {
      if k == key {
        assert log[|t.log|].key == k;
      } else {
        var i :| 0 <= i < |t.log| && t.log[i].key == k && t.log[i].time == ideal.recent[k];
        assert log[i] == t.log[i];
      }
    }
  }

  lemma {:induction false} ScanMirrors(rule: Rule, t: Track, ideal: Memory, entries: seq<Entry>)
    requires Keeps(rule) && DedupOk(rule, t) && RateOk(t, rule.maxPerMinute) && Mirrors(t, ideal)
    ensures Mirrors(ScanTrack(rule, t, entries), Scan(rule, ideal, entries, t.now))
    ensures Chosen(rule, t.memory, entries, t.now) == Chosen(rule, ideal, entries, t.now)
  {
    if entries != [] {
      hide Keeps, DedupOk, RateOk, Mirrors, Judge;
      var rest, last := entries[..|entries| - 1], entries[|entries| - 1];
      ScanMirrors(rule, t, ideal, rest);
      ScanRate(rule, t, rest);
      ScanDedup(rule, t, rest);
      ScanRecords(rule, t, rest);
      NoteMirrors(rule, ScanTrack(rule, t, rest), Scan(rule, ideal, rest, t.now), last);
    }
  }

  lemma RollMirrors(t: Track, ideal: Memory, now: int)
    requires Mirrors(t, ideal)
    ensures Mirrors(RollTrack(t, now), Roll(ideal, now))
  {
  }

  lemma PurgeMirrors(rule: Rule, t: Track, ideal: Memory)
    requires Mirrors(t, ideal)
    ensures Mirrors(t.(memory := Purge(rule, t.memory, t.now)), ideal)
  {
  }

  lemma {:induction false} RunMirrors(rule: Rule, start: int, count: nat, calls: seq<Batch>)
    requires Keeps(rule) && Clocked(start, calls)
    ensures Mirrors(RunTrack(rule, FreshTrack(start, count), calls), IdealMemory(rule, Memory(map[], start, count), calls))
  {
    if calls != [] {
      var rest, last := calls[..|calls| - 1], calls[|calls| - 1];
      assert calls == rest + [last];
      ClockedPrefix(start, rest, last);
      RunMirrors(rule, start, count, rest);
      NextMirrors(rule, start, count, rest, last);
    }
  }

  /** One more call, against a table that is never purged. */
  lemma NextMirrors(rule: Rule, start: int, count: nat, calls: seq<Batch>, next: Batch)
    requires Keeps(rule) && Clocked(start, calls + [next])
    requires Mirrors(RunTrack(rule, FreshTrack(start, count), calls), IdealMemory(rule, Memory(map[], start, count), calls))
    ensures var run, ideal := RunTrack(rule, FreshTrack(start, count), calls), IdealMemory(rule, Memory(map[], start, count), calls);
            && Chosen(rule, Roll(run.memory, next.now), next.entries, next.now) == Chosen(rule, Roll(ideal, next.now), next.entries, next.now)
            && Mirrors(CallTrack(rule, run, next), Scan(rule, Roll(ideal, next.now), next.entries, next.now))
  {
    var run, ideal := RunTrack(rule, FreshTrack(start, count), calls), IdealMemory(rule, Memory(map[], start, count), calls);
    RolledNow(run, next.now);
    NextDedup(rule, start, count, calls, next);
    RollMirrors(run, ideal, next.now);
    hide RunTrack, IdealMemory, Mirrors, Keeps, DedupOk, RateOk, RollTrack, Roll, Chosen, Scan, ScanTrack, Purge, Clocked;
    var rolled := RollTrack(run, next.now);
    ScanMirrors(rule, rolled, Roll(ideal, next.now), next.entries);
    ScanRecords(rule, rolled, next.entries);
    PurgeMirrors(rule, ScanTrack(rule, rolled, next.entries), Scan(rule, Roll(ideal, next.now), next.entries, next.now));
  }

  /** Whatever came before, the next call selects exactly what it would with a table that remembers
      everything. */
  lemma PurgeUnobservable(rule: Rule, start: int, count: nat, calls: seq<Batch>, next: Batch)
    requires Keeps(rule) && Clocked(start, calls + [next])
    ensures SameChoice(rule, start, count, calls, next)
  {
    ClockedPrefix(start, calls, next);
    RunMirrors(rule, start, count, calls);
    NextMirrors(rule, start, count, calls, next);
    RunMemoryIsTrack(rule, FreshTrack(start, count), calls);
  }

  /** The next call selects what it would with a table that is never purged. */
  ghost predicate SameChoice(rule: Rule, start: int, count: nat, calls: seq<Batch>, next: Batch) {
    var m := Memory(map[], start, count);
    Chosen(rule, Roll(RunMemory(rule, m, calls), next.now), next.entries, next.now)
      == Chosen(rule, Roll(IdealMemory(rule, m, calls), next.now), next.entries, next.now)
  }
}
