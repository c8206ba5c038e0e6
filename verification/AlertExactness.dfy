/** Exactly which rules keep the promises of the alert selector: for every other rule, runs that break
    them. */
module AlertExactness {
  import opened AlertKey
  import opened AlertSelector
  import opened AlertHistory
  import opened AlertGuarantees

  // ---------- entries with different fingerprints ----------

  function Alarm(i: nat): Entry {
    Entry(FATAL, seq(i, _ => 'a'), "")
  }

  function Key(i: nat): string {
    KeyOf(Alarm(i))
  }

  lemma KeyLength(i: nat)
    ensures |Key(i)| == i + 7
  {
    assert Key(i) == Prefix(Alarm(i));
  }

  /** The fingerprints of the first n alarms. */
  function Keys(n: nat): set<string> {
    if n == 0 then {} else Keys(n - 1) + {Key(n - 1)}
  }

  lemma {:induction false} KeysDiffer(n: nat)
    ensures |Keys(n)| == n && forall k :: k in Keys(n) ==> |k| < n + 7
    ensures Key(n) !in Keys(n)
  {
    hide Key;
    KeyLength(n);
    if n > 0 {
      KeysDiffer(n - 1);
      KeyLength(n - 1);
    }
  }

  function Alarms(lo: nat, hi: nat): (r: seq<Entry>)
    requires lo <= hi
    ensures |r| == hi - lo
  {
    if lo == hi then [] else Alarms(lo, hi - 1) + [Alarm(hi - 1)]
  }

  /** The table has exactly the first n alarms, selected at `since` or later. */
  ghost predicate Stocked(m: Memory, n: nat, since: int) {
    m.recent.Keys == Keys(n) && forall k :: k in m.recent ==> since <= m.recent[k]
  }

  /** u is t after the alarms lo .. hi-1 have been selected in one call. */
  ghost predicate AfterBurst(t: Track, u: Track, lo: nat, hi: nat, since: int)
    requires lo <= hi
  {
    && Stocked(u.memory, hi, since) && u.memory.rateCount == t.memory.rateCount + (hi - lo)
    && u.memory.windowStart == t.memory.windowStart && u.now == t.now
    && (lo < hi ==> u.log != [] && u.log[|u.log| - 1].key == Key(hi - 1) && u.log[|u.log| - 1].time == t.now)
  }

  lemma BurstNext(rule: Rule, t: Track, u: Track, lo: nat, hi: nat, since: int)
    requires lo < hi && AfterBurst(t, u, lo, hi - 1, since) && since <= t.now
    requires rule.maxPerMinute == 0 || t.memory.rateCount + (hi - lo) <= rule.maxPerMinute
    ensures AfterBurst(t, NoteTrack(rule, u, Alarm(hi - 1)), lo, hi, since)
  {
    hide Stocked;
    BurstOne(rule, u, hi - 1, since);
    hide Judge;
  }

  lemma ScanLast(rule: Rule, t: Track, entries: seq<Entry>, e: Entry)
    ensures ScanTrack(rule, t, entries + [e]) == NoteTrack(rule, ScanTrack(rule, t, entries), e)
  {
    assert (entries + [e])[..|entries|] == entries;
  }

  /** One call's alarms are all selected while the rate limit has room. */
  lemma {:induction false} Burst(rule: Rule, t: Track, lo: nat, hi: nat, since: int)
    requires lo <= hi && Stocked(t.memory, lo, since) && since <= t.now
    requires rule.maxPerMinute == 0 || t.memory.rateCount + (hi - lo) <= rule.maxPerMinute
    ensures AfterBurst(t, ScanTrack(rule, t, Alarms(lo, hi)), lo, hi, since)
    decreases hi
  {
    hide AfterBurst, NoteTrack, ScanTrack, Stocked;
    if lo == hi {
      BurstStart(rule, t, lo, since);
    } else {
      Burst(rule, t, lo, hi - 1, since);
      BurstNext(rule, t, ScanTrack(rule, t, Alarms(lo, hi - 1)), lo, hi, since);
      ScanLast(rule, t, Alarms(lo, hi - 1), Alarm(hi - 1));
    }
  }

  lemma BurstStart(rule: Rule, t: Track, n: nat, since: int)
    requires Stocked(t.memory, n, since)
    ensures AfterBurst(t, ScanTrack(rule, t, []), n, n, since)
  {
  }

  lemma BurstOne(rule: Rule, t: Track, n: nat, since: int)
    requires Stocked(t.memory, n, since) && since <= t.now && (rule.maxPerMinute == 0 || t.memory.rateCount < rule.maxPerMinute)
    ensures Judge(rule, t.memory, Alarm(n), t.now) == Selected
    ensures Stocked(Note(rule, t.memory, Alarm(n), t.now), n + 1, since)
    ensures Note(rule, t.memory, Alarm(n), t.now).rateCount == t.memory.rateCount + 1
  {
    KeysDiffer(n);
    hide KeyOf;
    assert Key(n) == KeyOf(Alarm(n));
  }

  lemma StockedSize(m: Memory, n: nat, since: int)
    requires Stocked(m, n, since)
    ensures |m.recent| == n
  {
    KeysDiffer(n);
    assert |m.recent| == |m.recent.Keys|;
  }

  // ---------- filling the table ----------

  /** The first window's alarms come at its very end, those of later windows at their start. */
  function FillTime(i: nat): int {
    if i == 0 then MINUTE - 1 else Minutes(i)
  }

  /** The alarms that use up l rate windows. */
  function Full(l: nat, max: nat): nat {
    if l == 0 then 0 else Full(l - 1, max) + max
  }

  lemma {:induction false} FullIsProduct(l: nat, max: nat)
    ensures Full(l, max) == l * max
  {
    if l > 0 {
      FullIsProduct(l - 1, max);
      assert l * max == (l - 1) * max + max;
    }
  }

  /** Calls that use up l rate windows, max alarms in each. */
  function FillCalls(max: nat, l: nat): seq<Batch> {
    if l == 0 then []
    else FillCalls(max, l - 1) + [Batch(Alarms(Full(l - 1, max), Full(l, max)), FillTime(l - 1))]
  }

  lemma ClockedAppend(calls: seq<Batch>, next: Batch)
    requires Clocked(0, calls) && 0 <= next.now && (calls != [] ==> calls[|calls| - 1].now <= next.now)
    ensures Clocked(0, calls + [next])
  {
  }

  lemma {:induction false} FillClocked(max: nat, l: nat)
    ensures Clocked(0, FillCalls(max, l)) && |FillCalls(max, l)| == l
    ensures l > 0 ==> FillCalls(max, l)[l - 1].now == FillTime(l - 1)
  {
    hide Clocked;
    if l == 0 {
      assert Clocked(0, []) by { NoCalls(); }
    } else {
      FillClocked(max, l - 1);
      var next := Batch(Alarms(Full(l - 1, max), Full(l, max)), FillTime(l - 1));
      ClockedAppend(FillCalls(max, l - 1), next);
      assert FillCalls(max, l) == FillCalls(max, l - 1) + [next];
    }
  }

  lemma NoCalls()
    ensures Clocked(0, [])
  {
  }

  lemma RunOne(rule: Rule, t: Track, calls: seq<Batch>, call: Batch)
    ensures RunTrack(rule, t, calls + [call]) == CallTrack(rule, RunTrack(rule, t, calls), call)
  {
    assert (calls + [call])[..|calls|] == calls;
  }

  /** A call whose alarms have room in window and table. */
  lemma StockCall(rule: Rule, t: Track, lo: nat, hi: nat, now: int, since: int)
    requires lo <= hi <= rule.dedupCacheSize && Stocked(t.memory, lo, since) && since <= now
    requires rule.maxPerMinute == 0 || Roll(t.memory, now).rateCount + (hi - lo) <= rule.maxPerMinute
    ensures var u := CallTrack(rule, t, Batch(Alarms(lo, hi), now));
            && Stocked(u.memory, hi, since) && u.memory.windowStart == Roll(t.memory, now).windowStart
            && u.memory.rateCount == Roll(t.memory, now).rateCount + (hi - lo) && u.now == now
  {
    var rolled := RollTrack(t, now);
    RolledNow(t, now);
    Burst(rule, rolled, lo, hi, since);
    StockedSize(ScanTrack(rule, rolled, Alarms(lo, hi)).memory, hi, since);
  }

  lemma {:induction false} FillRun(rule: Rule, l: nat)
    requires Full(l, rule.maxPerMinute) <= rule.dedupCacheSize
    ensures var t := RunTrack(rule, FreshTrack(0, 0), FillCalls(rule.maxPerMinute, l));
            && Stocked(t.memory, Full(l, rule.maxPerMinute), MINUTE - 1)
            && t.memory.windowStart == (if l <= 1 then 0 else Minutes(l - 1)) && (l == 0 ==> t.memory.rateCount == 0)
  {
    var max, t0 := rule.maxPerMinute, FreshTrack(0, 0);
    if l == 0 {
      assert Stocked(t0.memory, 0, MINUTE - 1);
    } else {
      FillRun(rule, l - 1);
      hide Stocked;
      var t := RunTrack(rule, t0, FillCalls(max, l - 1));
      var next := Batch(Alarms(Full(l - 1, max), Full(l, max)), FillTime(l - 1));
      RunOne(rule, t0, FillCalls(max, l - 1), next);
      assert FillCalls(max, l) == FillCalls(max, l - 1) + [next];
      StockCall(rule, t, Full(l - 1, max), Full(l, max), FillTime(l - 1), MINUTE - 1);
    }
  }

  /** l - 1 windows are used up and the l-th has just begun. */
  function ReadyCalls(max: nat, l: nat): seq<Batch>
    requires l > 0
  {
    FillCalls(max, l - 1) + [Batch([], Minutes(l - 1))]
  }

  lemma ReadyRun(rule: Rule, l: nat, since: int)
    requires l > 0 && Full(l - 1, rule.maxPerMinute) <= rule.dedupCacheSize && (l > 1 ==> since <= MINUTE - 1)
    ensures Clocked(0, ReadyCalls(rule.maxPerMinute, l)) && ReadyCalls(rule.maxPerMinute, l) != []
    ensures ReadyCalls(rule.maxPerMinute, l)[|ReadyCalls(rule.maxPerMinute, l)| - 1].now == Minutes(l - 1)
    ensures var t := RunTrack(rule, FreshTrack(0, 0), ReadyCalls(rule.maxPerMinute, l));
            Stocked(t.memory, Full(l - 1, rule.maxPerMinute), since) && t.memory.windowStart == Minutes(l - 1) && t.memory.rateCount == 0
  {
    var max, t0 := rule.maxPerMinute, FreshTrack(0, 0);
    var n, fill, next := Full(l - 1, max), FillCalls(max, l - 1), Batch([], Minutes(l - 1));
    var t := RunTrack(rule, t0, fill);
    FillClocked(max, l - 1);
    FillRun(rule, l - 1);
    assert l == 1 ==> n == 0;
    hide Stocked, Full, FillCalls, Alarms, RunTrack, CallTrack, Clocked;
    ClockedAppend(fill, next);
    RunOne(rule, t0, fill, next);
    StockedSince(t.memory, n, MINUTE - 1, since);
    StockedSize(t.memory, n, since);
    EmptyCall(rule, t, next.now);
    StockedRoll(t.memory, n, since, next.now);
  }

  lemma StockedSince(m: Memory, n: nat, a: int, b: int)
    requires Stocked(m, n, a) && (n == 0 || b <= a)
    ensures Stocked(m, n, b)
  {
  }

  lemma StockedRoll(m: Memory, n: nat, since: int, now: int)
    requires Stocked(m, n, since)
    ensures Stocked(Roll(m, now), n, since)
  {
  }

  /** A call without entries only moves the window on. */
  lemma EmptyCall(rule: Rule, t: Track, now: int)
    requires |t.memory.recent| <= rule.dedupCacheSize
    ensures CallTrack(rule, t, Batch([], now)).memory == Roll(t.memory, now)
  {
    RolledNow(t, now);
  }

  // ---------- one alarm too many ----------

  /** A call at time c in the l-th window that brings the table one over its size. */
  function OverflowCall(rule: Rule, l: nat, c: int): Batch
    requires l > 0 && Full(l - 1, rule.maxPerMinute) <= rule.dedupCacheSize
  {
    Batch(Alarms(Full(l - 1, rule.maxPerMinute), rule.dedupCacheSize + 1), c)
  }

  /** The l-th window is the one in which the table overflows, at time c, before anything expires. */
  ghost predicate Overflows(rule: Rule, l: nat, c: int) {
    && rule.dedupWindow > 0 && l > 0 && Full(l - 1, rule.maxPerMinute) <= rule.dedupCacheSize
    && (if rule.maxPerMinute == 0 then l == 1 else rule.dedupCacheSize + 1 <= Full(l, rule.maxPerMinute))
    && Minutes(l - 1) <= c < Minutes(l) && (l > 1 ==> c - (MINUTE - 1) < rule.dedupWindow)
  }

  /** The table has just been cleared, after the selection of one alarm more than it can hold. */
  ghost predicate Flushed(rule: Rule, t: Track, n: nat, windowStart: int, c: int)
    requires n <= rule.dedupCacheSize
  {
    && t.memory == Memory(map[], windowStart, rule.dedupCacheSize + 1 - n)
    && t.log != [] && t.log[|t.log| - 1].key == Key(rule.dedupCacheSize) && t.log[|t.log| - 1].time == c
  }

  /** The table overflows in one call. */
  lemma OverflowStep(rule: Rule, t: Track, n: nat, c: int, since: int)
    requires n <= rule.dedupCacheSize && Stocked(t.memory, n, since) && since <= c && c - since < rule.dedupWindow
    requires 0 <= c - t.memory.windowStart < MINUTE && t.memory.rateCount == 0
    requires rule.maxPerMinute == 0 || rule.dedupCacheSize + 1 - n <= rule.maxPerMinute
    ensures var next := Batch(Alarms(n, rule.dedupCacheSize + 1), c);
            var u := CallTrack(rule, t, next);
            && |Unexpired(rule, ScanTrack(rule, RollTrack(t, c), next.entries).memory.recent, c)| > rule.dedupCacheSize
            && Flushed(rule, u, n, t.memory.windowStart, c)
  {
    var size, rolled := rule.dedupCacheSize, RollTrack(t, c);
    RolledNow(t, c);
    CallIs(rule, t, Batch(Alarms(n, size + 1), c));
    hide Alarms, ScanTrack, RollTrack, CallTrack, Flushed, AfterBurst;
    StockedRoll(t.memory, n, since, c);
    Burst(rule, rolled, n, size + 1, since);
    OverflowEnd(rule, rolled, ScanTrack(rule, rolled, Alarms(n, size + 1)), n, since);
  }

  lemma OverflowEnd(rule: Rule, t: Track, u: Track, n: nat, since: int)
    requires n <= rule.dedupCacheSize && AfterBurst(t, u, n, rule.dedupCacheSize + 1, since)
    requires t.memory.rateCount == 0 && t.now - since < rule.dedupWindow
    ensures |Unexpired(rule, u.memory.recent, t.now)| > rule.dedupCacheSize
    ensures Flushed(rule, u.(memory := Purge(rule, u.memory, t.now)), n, t.memory.windowStart, t.now)
  {
    AllUnexpired(rule, u.memory, rule.dedupCacheSize + 1, since, t.now);
    PurgeClears(rule, u.memory, t.now);
    hide Purge, Unexpired, Stocked, Key;
  }

  lemma CallIs(rule: Rule, t: Track, call: Batch)
    ensures var scanned := ScanTrack(rule, RollTrack(t, call.now), call.entries);
            CallTrack(rule, t, call) == scanned.(memory := Purge(rule, scanned.memory, call.now))
  {
  }

  lemma ClearsIs(rule: Rule, calls: seq<Batch>, next: Batch)
    requires var t := RunTrack(rule, FreshTrack(0, 0), calls);
             |Unexpired(rule, ScanTrack(rule, RollTrack(t, next.now), next.entries).memory.recent, next.now)| > rule.dedupCacheSize
    ensures Clears(rule, 0, 0, calls, next)
  {
  }

  lemma OverflowRun(rule: Rule, l: nat, c: int)
    requires Overflows(rule, l, c)
    ensures var calls, next := ReadyCalls(rule.maxPerMinute, l), OverflowCall(rule, l, c);
            && Clocked(0, calls + [next]) && Clears(rule, 0, 0, calls, next)
            && Flushed(rule, RunTrack(rule, FreshTrack(0, 0), calls + [next]), Full(l - 1, rule.maxPerMinute), Minutes(l - 1), c)
  {
    var calls, next := ReadyCalls(rule.maxPerMinute, l), OverflowCall(rule, l, c);
    var since := if l == 1 then c else MINUTE - 1;
    ReadyRun(rule, l, since);
    OverflowRoom(rule, l, c, since);
    hide RunTrack, CallTrack, Clears, ReadyCalls, Clocked, Flushed, Stocked, Full, Alarms, Unexpired, ScanTrack, RollTrack, Overflows, Minutes;
    ClockedAppend(calls, next);
    RunOne(rule, FreshTrack(0, 0), calls, next);
    OverflowStep(rule, RunTrack(rule, FreshTrack(0, 0), calls), Full(l - 1, rule.maxPerMinute), c, since);
    ClearsIs(rule, calls, next);
  }

  lemma OverflowRoom(rule: Rule, l: nat, c: int, since: int)
    requires Overflows(rule, l, c) && since == if l == 1 then c else MINUTE - 1
    ensures since <= c && c - since < rule.dedupWindow && 0 <= c - Minutes(l - 1) < MINUTE && 0 <= c
    ensures rule.maxPerMinute == 0 || rule.dedupCacheSize + 1 - Full(l - 1, rule.maxPerMinute) <= rule.maxPerMinute
  {
  }

  lemma AllUnexpired(rule: Rule, m: Memory, n: nat, since: int, now: int)
    requires Stocked(m, n, since) && now - since < rule.dedupWindow
    ensures |Unexpired(rule, m.recent, now)| == n
  {
    StockedSize(m, n, since);
    assert Unexpired(rule, m.recent, now) == m.recent;
  }

  /** The last alarm is selected again at time t2. */
  lemma AlarmAgain(rule: Rule, l: nat, c: int, t2: int)
    requires Overflows(rule, l, c) && c <= t2 && t2 - c < rule.dedupWindow
    requires t2 == Minutes(l) || (t2 < Minutes(l) && (rule.maxPerMinute == 0 || rule.dedupCacheSize + 1 < Full(l, rule.maxPerMinute)))
    ensures exists calls: seq<Batch> :: Clocked(0, calls) && !Spaced(rule, RunTrack(rule, FreshTrack(0, 0), calls).log)
  {
    var calls := ReadyCalls(rule.maxPerMinute, l) + [OverflowCall(rule, l, c)];
    var last := Batch([Alarm(rule.dedupCacheSize)], t2);
    var t := RunTrack(rule, FreshTrack(0, 0), calls);
    OverflowRun(rule, l, c);
    assert calls[|calls| - 1].now == c;
    hide RunTrack, CallTrack, Clocked, ReadyCalls, Flushed, Spaced, Roll;
    AgainRoom(rule, t, l, c, t2);
    hide Full, Overflows, Minutes;
    ClockedAppend(calls, last);
    RunOne(rule, FreshTrack(0, 0), calls, last);
    AgainStep(rule, t, Full(l - 1, rule.maxPerMinute), Minutes(l - 1), c, t2);
  }

  lemma AgainRoom(rule: Rule, t: Track, l: nat, c: int, t2: int)
    requires Overflows(rule, l, c) && Flushed(rule, t, Full(l - 1, rule.maxPerMinute), Minutes(l - 1), c) && c <= t2
    requires t2 == Minutes(l) || (t2 < Minutes(l) && (rule.maxPerMinute == 0 || rule.dedupCacheSize + 1 < Full(l, rule.maxPerMinute)))
    ensures 0 <= c && (rule.maxPerMinute == 0 || Roll(t.memory, t2).rateCount < rule.maxPerMinute)
  {
  }

  lemma AgainStep(rule: Rule, t: Track, n: nat, windowStart: int, c: int, t2: int)
    requires n <= rule.dedupCacheSize && Flushed(rule, t, n, windowStart, c) && c <= t2 && t2 - c < rule.dedupWindow
    requires rule.maxPerMinute == 0 || Roll(t.memory, t2).rateCount < rule.maxPerMinute
    ensures !Spaced(rule, CallTrack(rule, t, Batch([Alarm(rule.dedupCacheSize)], t2)).log)
  {
    var size, last, rolled := rule.dedupCacheSize, Batch([Alarm(rule.dedupCacheSize)], t2), RollTrack(t, t2);
    RolledNow(t, t2);
    hide Key, Spaced, RollTrack, Purge;
    assert last.entries[..0] == [];
    assert ScanTrack(rule, rolled, last.entries) == NoteTrack(rule, rolled, Alarm(size));
    BurstFresh(rule, rolled, size);
    var log := CallTrack(rule, t, last).log;
    assert log == t.log + [Event(t2, Key(size), rolled.window)];
    assert log[|t.log| - 1] == t.log[|t.log| - 1];
    TooClose(rule, log, |t.log| - 1, |t.log|);
  }

  lemma TooClose(rule: Rule, log: seq<Event>, i: nat, j: nat)
    requires i < j < |log| && log[i].key == log[j].key && log[j].time - log[i].time < rule.dedupWindow
    ensures !Spaced(rule, log)
  {
  }

  lemma BurstFresh(rule: Rule, t: Track, n: nat)
    requires t.memory.recent == map[] && (rule.maxPerMinute == 0 || t.memory.rateCount < rule.maxPerMinute)
    ensures Judge(rule, t.memory, Alarm(n), t.now) == Selected && KeyOf(Alarm(n)) == Key(n)
  {
  }

  // ---------- exact conditions ----------

  /** The rate window in which a table of this size overflows. */
  function OverflowWindow(rule: Rule): (l: nat)
    ensures l > 0
  {
    if rule.maxPerMinute == 0 then 1 else rule.dedupCacheSize / rule.maxPerMinute + 1
  }

  lemma OverflowWindowFits(rule: Rule)
    requires !Roomy(rule)
    ensures var l, max := OverflowWindow(rule), rule.maxPerMinute;
            && Full(l - 1, max) <= rule.dedupCacheSize
            && (if max == 0 then l == 1 else l <= WindowsIn(rule.dedupWindow) && rule.dedupCacheSize + 1 <= Full(l, max))
  {
    var l, max, size, r := OverflowWindow(rule), rule.maxPerMinute, rule.dedupCacheSize, WindowsIn(rule.dedupWindow);
    hide WindowsIn, Full;
    FullIsProduct(l, max);
    FullIsProduct(l - 1, max);
    if max > 0 {
      var q, rest := size / max, size % max;
      assert size == q * max + rest && rest < max && l == q + 1;
      assert l * max == q * max + max;
      MulLess(q, r, max);
    } else {
      assert (l - 1) * max == 0;
    }
  }

  lemma MulMonotone(a: nat, b: nat, m: nat)
    requires a <= b
    ensures a * m <= b * m
  {
    assert b * m == a * m + (b - a) * m;
    assert (b - a) * m >= 0;
  }

  lemma MulLess(a: nat, b: nat, m: nat)
    requires a * m < b * m
    ensures a < b
  {
    if b <= a { MulMonotone(b, a, m); }
  }

  lemma OverflowsAtStart(rule: Rule)
    requires !Roomy(rule)
    ensures Overflows(rule, OverflowWindow(rule), Minutes(OverflowWindow(rule) - 1))
  {
    OverflowWindowFits(rule);
    hide OverflowWindow;
  }

  ghost predicate CanClear(rule: Rule) {
    exists start: int, count: nat, calls: seq<Batch>, next: Batch ::
      Clocked(start, calls + [next]) && Clears(rule, start, count, calls, next)
  }

  /** The overflow clear is reachable exactly when the table is not roomy for the rule. */
  lemma ClearsExactly(rule: Rule)
    ensures CanClear(rule) <==> !Roomy(rule)
  {
    hide Clears, Clocked, Roomy, RunTrack;
    if Roomy(rule) {
      forall start: int, count: nat, calls: seq<Batch>, next: Batch | Clocked(start, calls + [next])
        ensures !Clears(rule, start, count, calls, next)
      {
        RoomyNeverClears(rule, start, count, calls, next);
      }
    } else {
      var l := OverflowWindow(rule);
      OverflowsAtStart(rule);
      OverflowRun(rule, l, Minutes(l - 1));
    }
  }

  ghost predicate AlwaysSpaced(rule: Rule) {
    forall start: int, count: nat, calls: seq<Batch> :: Clocked(start, calls) ==> Spaced(rule, RunTrack(rule, FreshTrack(start, count), calls).log)
  }

  /** Repeated fingerprints are always a dedup window apart exactly under the rules that Keeps names. */
  lemma SpacedExactly(rule: Rule)
    ensures AlwaysSpaced(rule) <==> Keeps(rule)
  {
    if Keeps(rule) {
      hide Keeps, Spaced, RunTrack, Clocked;
      forall start: int, count: nat, calls: seq<Batch> | Clocked(start, calls)
        ensures Spaced(rule, RunTrack(rule, FreshTrack(start, count), calls).log)
      {
        DedupGuarantee(rule, start, count, calls);
      }
    } else {
      BadRun(rule);
      hide Spaced, RunTrack, Clocked;
      var calls: seq<Batch> :| Clocked(0, calls) && !Spaced(rule, RunTrack(rule, FreshTrack(0, 0), calls).log);
    }
  }

  lemma BadRun(rule: Rule)
    requires !Keeps(rule)
    ensures exists calls: seq<Batch> :: Clocked(0, calls) && !Spaced(rule, RunTrack(rule, FreshTrack(0, 0), calls).log)
  {
    var l, max := OverflowWindow(rule), rule.maxPerMinute;
    hide Spaced, RunTrack, Clocked;
    if max == 0 || rule.dedupCacheSize + 1 < Full(l, max) {
      OverflowsAtStart(rule);
      hide Overflows, OverflowWindow;
      assert Minutes(l - 1) < Minutes(l);
      AlarmAgain(rule, l, Minutes(l - 1), Minutes(l - 1));
    } else {
      OverflowWindowFits(rule);
      var c := LatestOverflow(rule, l);
      AlarmAgain(rule, l, c, Minutes(l));
    }
  }

  /** When the overflow uses up its window, the latest moment for it at which nothing has expired. */
  lemma LatestOverflow(rule: Rule, l: nat) returns (c: int)
    requires !Keeps(rule) && rule.maxPerMinute > 0 && 0 < l <= WindowsIn(rule.dedupWindow)
    requires rule.dedupCacheSize + 1 == Full(l, rule.maxPerMinute)
    ensures Overflows(rule, l, c) && c < Minutes(l) && Minutes(l) - c < rule.dedupWindow
  {
    var w, r := rule.dedupWindow, WindowsIn(rule.dedupWindow);
    assert l == r ==> Reach(rule) == rule.dedupCacheSize + 1 by { FullIsProduct(l, rule.maxPerMinute); }
    assert l == r ==> 2 * w > Minutes(r - 1) + 2;
    assert Full(l, rule.maxPerMinute) == Full(l - 1, rule.maxPerMinute) + rule.maxPerMinute;
    hide WindowsIn, Keeps;
    assert w >= 2;
    c := if Minutes(l) - 1 <= MINUTE + w - 2 then Minutes(l) - 1 else MINUTE + w - 2;
  }

  // ---------- purging ----------

  ghost predicate Unobservable(rule: Rule) {
    forall start: int, count: nat, calls: seq<Batch>, next: Batch :: Clocked(start, calls + [next]) ==> SameChoice(rule, start, count, calls, next)
  }

  /** A run with a table that is never purged. */
  function IdealTrack(rule: Rule, t: Track, calls: seq<Batch>): Track {
    if calls == [] then t
    else
      var last := calls[|calls| - 1];
      ScanTrack(rule, RollTrack(IdealTrack(rule, t, calls[..|calls| - 1]), last.now), last.entries)
  }

  /** A table that remembers everything keeps repeats apart under any rule. */
  ghost predicate IdealOk(rule: Rule, t: Track) {
    && Spaced(rule, t.log)
    && forall i :: 0 <= i < |t.log| ==> t.log[i].key in t.memory.recent && t.log[i].time <= t.memory.recent[t.log[i].key] <= t.now
  }

  lemma NoteIdeal(rule: Rule, t: Track, e: Entry)
    requires IdealOk(rule, t)
    ensures IdealOk(rule, NoteTrack(rule, t, e))
  {
    hide KeyOf;
  }

  lemma {:induction false} ScanIdeal(rule: Rule, t: Track, entries: seq<Entry>)
    requires IdealOk(rule, t)
    ensures IdealOk(rule, ScanTrack(rule, t, entries)) && ScanTrack(rule, t, entries).now == t.now
  {
    if entries != [] {
      hide IdealOk;
      ScanIdeal(rule, t, entries[..|entries| - 1]);
      NoteIdeal(rule, ScanTrack(rule, t, entries[..|entries| - 1]), entries[|entries| - 1]);
    }
  }

  lemma RollIdeal(rule: Rule, t: Track, now: int)
    requires IdealOk(rule, t) && t.now <= now
    ensures IdealOk(rule, RollTrack(t, now))
  {
  }

  lemma {:induction false} RunIdeal(rule: Rule, start: int, count: nat, calls: seq<Batch>)
    requires Clocked(start, calls)
    ensures var t := IdealTrack(rule, FreshTrack(start, count), calls);
            && IdealOk(rule, t) && t.now == (if calls == [] then start else calls[|calls| - 1].now)
            && t.memory == IdealMemory(rule, Memory(map[], start, count), calls)
  {
    if calls != [] {
      var rest, last := calls[..|calls| - 1], calls[|calls| - 1];
      var t := IdealTrack(rule, FreshTrack(start, count), rest);
      assert calls == rest + [last];
      ClockedPrefix(start, rest, last);
      RunIdeal(rule, start, count, rest);
      RolledNow(t, last.now);
      hide IdealOk, RollTrack, Scan, ScanTrack;
      RollIdeal(rule, t, last.now);
      ScanIdeal(rule, RollTrack(t, last.now), last.entries);
      ScanRecords(rule, RollTrack(t, last.now), last.entries);
    }
  }

  /** If no call ever chooses otherwise, both runs have the same history. */
  lemma {:induction false} SameHistory(rule: Rule, start: int, count: nat, calls: seq<Batch>)
    requires Unobservable(rule) && Clocked(start, calls)
    ensures var t, ideal := RunTrack(rule, FreshTrack(start, count), calls), IdealTrack(rule, FreshTrack(start, count), calls);
            t.log == ideal.log && t.window == ideal.window && t.memory.windowStart == ideal.memory.windowStart
  {
    if calls != [] {
      var rest, last := calls[..|calls| - 1], calls[|calls| - 1];
      var t, ideal := RunTrack(rule, FreshTrack(start, count), rest), IdealTrack(rule, FreshTrack(start, count), rest);
      assert calls == rest + [last];
      ClockedPrefix(start, rest, last);
      SameHistory(rule, start, count, rest);
      RunIdeal(rule, start, count, rest);
      RunMemoryIsTrack(rule, FreshTrack(start, count), rest);
      assert SameChoice(rule, start, count, rest, last);
      RolledNow(t, last.now);
      RolledNow(ideal, last.now);
      CallRecords(rule, t, last);
      ScanRecords(rule, RollTrack(ideal, last.now), last.entries);
      KeepsWindow(rule, t.memory, last);
      KeepsWindow(rule, ideal.memory, last);
      assert RollTrack(t, last.now).window == RollTrack(ideal, last.now).window;
      ScanRecords(rule, RollTrack(t, last.now), last.entries);
    }
  }

  lemma KeepsWindow(rule: Rule, m: Memory, call: Batch)
    ensures Scan(rule, Roll(m, call.now), call.entries, call.now).windowStart == Roll(m, call.now).windowStart
    ensures Call(rule, m, call.entries, call.now).windowStart == Roll(m, call.now).windowStart
  {
    ScanKeepsWindow(rule, Roll(m, call.now), call.entries, call.now);
  }

  lemma {:induction false} ScanKeepsWindow(rule: Rule, m: Memory, entries: seq<Entry>, now: int)
    ensures Scan(rule, m, entries, now).windowStart == m.windowStart
  {
    if entries != [] { ScanKeepsWindow(rule, m, entries[..|entries| - 1], now); }
  }

  /** Purging cannot be observed exactly under the rules that keep repeats apart. */
  lemma UnobservableExactly(rule: Rule)
    ensures Unobservable(rule) <==> Keeps(rule)
  {
    hide Keeps, SameChoice, Clocked, RunTrack, Spaced;
    if Keeps(rule) {
      forall start: int, count: nat, calls: seq<Batch>, next: Batch | Clocked(start, calls + [next])
        ensures SameChoice(rule, start, count, calls, next)
      {
        PurgeUnobservable(rule, start, count, calls, next);
      }
    }
    if Unobservable(rule) {
      forall start: int, count: nat, calls: seq<Batch> | Clocked(start, calls)
        ensures Spaced(rule, RunTrack(rule, FreshTrack(start, count), calls).log)
      {
        SameHistory(rule, start, count, calls);
        RunIdeal(rule, start, count, calls);
      }
      SpacedExactly(rule);
    }
  }
}
