/** The history of what the alert selector has selected over a run of calls, and how its rate limit
    spaces it. */
module AlertHistory {
  import opened AlertKey
  import opened AlertSelector

  datatype Batch = Batch(entries: seq<Entry>, now: int)

  /** A selected entry: when, under which fingerprint, and in the how-manieth rate window. */
  datatype Event = Event(time: int, key: string, window: nat)

  /** The selector's memory with the history of everything selected since the rule was set. */
  datatype Track = Track(memory: Memory, log: seq<Event>, window: nat, now: int)

  ghost predicate Clocked(start: int, calls: seq<Batch>) {
    && (forall i :: 0 <= i < |calls| ==> start <= calls[i].now)
    && (forall i, j :: 0 <= i < j < |calls| ==> calls[i].now <= calls[j].now)
  }

  function RollTrack(t: Track, now: int): Track {
    Track(Roll(t.memory, now), t.log, if now - t.memory.windowStart >= MINUTE then t.window + 1 else t.window, now)
  }

  function NoteTrack(rule: Rule, t: Track, e: Entry): Track {
    t.(memory := Note(rule, t.memory, e, t.now),
       log := if Judge(rule, t.memory, e, t.now) == Selected then t.log + [Event(t.now, KeyOf(e), t.window)] else t.log)
  }

  function ScanTrack(rule: Rule, t: Track, entries: seq<Entry>): Track {
    if entries == [] then t else NoteTrack(rule, ScanTrack(rule, t, entries[..|entries| - 1]), entries[|entries| - 1])
  }

  function CallTrack(rule: Rule, t: Track, call: Batch): Track {
    var scanned := ScanTrack(rule, RollTrack(t, call.now), call.entries);
    scanned.(memory := Purge(rule, scanned.memory, call.now))
  }

  function RunTrack(rule: Rule, t: Track, calls: seq<Batch>): Track {
    if calls == [] then t else CallTrack(rule, RunTrack(rule, t, calls[..|calls| - 1]), calls[|calls| - 1])
  }

  /** The state just after set_alert_rule, in whatever rate window that falls. */
  function FreshTrack(windowStart: int, rateCount: nat): Track {
    Track(Memory(map[], windowStart, rateCount), [], 0, windowStart)
  }

  function Events(chosen: seq<Entry>, now: int, window: nat): (r: seq<Event>)
    ensures |r| == |chosen|
    ensures forall i :: 0 <= i < |r| ==> r[i] == Event(now, KeyOf(chosen[i]), window)
  {
    seq(|chosen|, i requires 0 <= i < |chosen| => Event(now, KeyOf(chosen[i]), window))
  }

  /** The history records exactly what the calls select. */
  lemma {:induction false} ScanRecords(rule: Rule, t: Track, entries: seq<Entry>)
    ensures ScanTrack(rule, t, entries).memory == Scan(rule, t.memory, entries, t.now)
    ensures ScanTrack(rule, t, entries).now == t.now && ScanTrack(rule, t, entries).window == t.window
    ensures var chosen := Chosen(rule, t.memory, entries, t.now);
            ScanTrack(rule, t, entries).log == t.log + Events(chosen, t.now, t.window)
  {
    if entries != [] {
      var rest, last := entries[..|entries| - 1], entries[|entries| - 1];
      ScanRecords(rule, t, rest);
      hide KeyOf;
      var chosen := Chosen(rule, t.memory, entries, t.now);
      var before := Chosen(rule, t.memory, rest, t.now);
      if |chosen| != |before| { assert chosen == before + [last]; }
    }
  }

  lemma CallRecords(rule: Rule, t: Track, call: Batch)
    ensures CallTrack(rule, t, call).memory == Call(rule, t.memory, call.entries, call.now)
    ensures CallTrack(rule, t, call).log
              == t.log + Events(Chosen(rule, Roll(t.memory, call.now), call.entries, call.now), call.now, RollTrack(t, call.now).window)
  {
    hide Events, KeyOf, Chosen, Scan, Purge;
    ScanRecords(rule, RollTrack(t, call.now), call.entries);
  }

  // ---------- the rate limit ----------

  /** n minutes. */
  function Minutes(n: int): int {
    60_000_000_000 * n
  }

  /** How many rate windows can have a share in a span of w nanoseconds. */
  function WindowsIn(w: nat): (r: nat)
    ensures r >= 1 && w <= Minutes(r - 1) + 1
    ensures if w <= 1 then r == 1 else r >= 2 && w >= Minutes(r - 2) + 2
  {
    (w - 2) / MINUTE + 2
  }

  /** The history is in order, and the clock is in the running window. */
  ghost predicate Ordered(t: Track) {
    && t.memory.windowStart <= t.now < t.memory.windowStart + MINUTE
    && (forall i :: 0 <= i < |t.log| ==> t.log[i].time <= t.now && t.log[i].window <= t.window)
    && (forall i, j :: 0 <= i <= j < |t.log| ==> t.log[i].time <= t.log[j].time && t.log[i].window <= t.log[j].window)
  }

  /** The counter covers the running window's entries, which are the last ones; those of windows
      before it are the more minutes back the more windows lie between. */
  ghost predicate Counted(t: Track) {
    && (forall i :: 0 <= i < |t.log| && t.log[i].window == t.window ==> i + t.memory.rateCount >= |t.log|)
    && (forall i :: 0 <= i < |t.log| && t.log[i].window < t.window ==>
          t.memory.windowStart - t.log[i].time > Minutes(t.window - t.log[i].window - 1))
  }

  /** At most max entries per window: entries max apart in the history lie in different windows. */
  ghost predicate Limited(log: seq<Event>, max: nat) {
    max > 0 ==> forall i, j :: 0 <= i && i + max <= j < |log| ==> log[i].window < log[j].window
  }

  /** Windows are at least a minute long, so entries d > 0 windows apart are more than d - 1 minutes
      apart. */
  ghost predicate Spread(log: seq<Event>) {
    forall i, j :: 0 <= i < j < |log| && log[i].window < log[j].window ==>
      log[j].time - log[i].time > Minutes(log[j].window - log[i].window - 1)
  }

  ghost predicate RateOk(t: Track, max: nat) {
    Ordered(t) && Counted(t) && Limited(t.log, max) && Spread(t.log)
  }

  lemma RollRate(t: Track, now: int, max: nat)
    requires RateOk(t, max) && t.now <= now
    ensures RateOk(RollTrack(t, now), max)
  {
    hide Limited, Spread;
    if now - t.memory.windowStart >= MINUTE { RollCounted(t, now); }
  }

  lemma RollCounted(t: Track, now: int)
    requires Ordered(t) && Counted(t) && now - t.memory.windowStart >= MINUTE
    ensures Counted(RollTrack(t, now))
  {
    forall i | 0 <= i < |t.log|
      ensures now - t.log[i].time > Minutes(t.window + 1 - t.log[i].window - 1)
    {
    }
  }

  lemma NoteRate(rule: Rule, t: Track, e: Entry)
    requires RateOk(t, rule.maxPerMinute)
    ensures RateOk(NoteTrack(rule, t, e), rule.maxPerMinute)
  {
    hide KeyOf;
    if Judge(rule, t.memory, e, t.now) != Selected { return; }
    LogRate(t, KeyOf(e), t.memory.recent[KeyOf(e) := t.now], rule.maxPerMinute);
  }

  lemma LogRate(t: Track, key: string, recent: map<string, int>, max: nat)
    requires RateOk(t, max) && (max == 0 || t.memory.rateCount < max)
    ensures RateOk(t.(memory := Memory(recent, t.memory.windowStart, t.memory.rateCount + 1),
                      log := t.log + [Event(t.now, key, t.window)]), max)
  {
    LogLimited(t, key, max);
    LogSpread(t, key);
    LogCounted(t, key, recent);
    hide Limited, Spread, Counted;
  }

  lemma LogLimited(t: Track, key: string, max: nat)
    requires Ordered(t) && Counted(t) && Limited(t.log, max) && (max == 0 || t.memory.rateCount < max)
    ensures Limited(t.log + [Event(t.now, key, t.window)], max)
  {
  }

  lemma LogSpread(t: Track, key: string)
    requires Ordered(t) && Counted(t) && Spread(t.log)
    ensures Spread(t.log + [Event(t.now, key, t.window)])
  {
    var log := t.log + [Event(t.now, key, t.window)];
    forall i, j | 0 <= i < j < |log| && log[i].window < log[j].window
      ensures log[j].time - log[i].time > Minutes(log[j].window - log[i].window - 1)
    {
      hide Minutes;
      if j < |t.log| { assert log[i] == t.log[i] && log[j] == t.log[j]; } else { assert log[i] == t.log[i]; }
    }
  }

  lemma LogCounted(t: Track, key: string, recent: map<string, int>)
    requires Ordered(t) && Counted(t)
    ensures Counted(t.(memory := Memory(recent, t.memory.windowStart, t.memory.rateCount + 1),
                       log := t.log + [Event(t.now, key, t.window)]))
  {
    hide Minutes;
  }

  lemma {:induction false} ScanRate(rule: Rule, t: Track, entries: seq<Entry>)
    requires RateOk(t, rule.maxPerMinute)
    ensures RateOk(ScanTrack(rule, t, entries), rule.maxPerMinute)
  {
    hide RateOk;
    if entries != [] {
      ScanRate(rule, t, entries[..|entries| - 1]);
      NoteRate(rule, ScanTrack(rule, t, entries[..|entries| - 1]), entries[|entries| - 1]);
    }
  }

  lemma PurgeRate(t: Track, recent: map<string, int>, max: nat)
    requires RateOk(t, max)
    ensures RateOk(t.(memory := t.memory.(recent := recent)), max)
  {
    hide Limited, Spread, Minutes;
  }

  lemma CallRate(rule: Rule, t: Track, call: Batch)
    requires RateOk(t, rule.maxPerMinute) && t.now <= call.now
    ensures RateOk(CallTrack(rule, t, call), rule.maxPerMinute) && CallTrack(rule, t, call).now == call.now
  {
    hide RateOk;
    RollRate(t, call.now, rule.maxPerMinute);
    ScanRate(rule, RollTrack(t, call.now), call.entries);
    ScanRecords(rule, RollTrack(t, call.now), call.entries);
    var scanned := ScanTrack(rule, RollTrack(t, call.now), call.entries);
    PurgeRate(scanned, Purge(rule, scanned.memory, call.now).recent, rule.maxPerMinute);
  }

  lemma FreshRate(start: int, count: nat, max: nat)
    ensures RateOk(FreshTrack(start, count), max)
  {
  }

  lemma ClockedPrefix(start: int, calls: seq<Batch>, next: Batch)
    requires Clocked(start, calls + [next])
    ensures Clocked(start, calls) && start <= next.now && (calls != [] ==> calls[|calls| - 1].now <= next.now)
  {
    assert forall i :: 0 <= i < |calls| ==> calls[i] == (calls + [next])[i];
    assert (calls + [next])[|calls|] == next;
    if calls != [] { assert (calls + [next])[|calls| - 1] == calls[|calls| - 1]; }
  }

  lemma {:induction false} RunRate(rule: Rule, start: int, count: nat, calls: seq<Batch>)
    requires Clocked(start, calls)
    ensures RateOk(RunTrack(rule, FreshTrack(start, count), calls), rule.maxPerMinute)
    ensures RunTrack(rule, FreshTrack(start, count), calls).now == if calls == [] then start else calls[|calls| - 1].now
  {
    hide RateOk, CallTrack, Clocked;
    if calls == [] {
      FreshRate(start, count, rule.maxPerMinute);
    } else {
      var rest, last := calls[..|calls| - 1], calls[|calls| - 1];
      assert calls == rest + [last];
      ClockedPrefix(start, rest, last);
      RunRate(rule, start, count, rest);
      CallRate(rule, RunTrack(rule, FreshTrack(start, count), rest), last);
    }
  }

  /** The next call begins with the clock and the rate window moved on. */
  lemma NextRate(rule: Rule, start: int, count: nat, calls: seq<Batch>, next: Batch)
    requires Clocked(start, calls + [next])
    ensures var run := RunTrack(rule, FreshTrack(start, count), calls);
            Clocked(start, calls) && run.now <= next.now && RateOk(RollTrack(run, next.now), rule.maxPerMinute)
  {
    hide RateOk, RollTrack;
    ClockedPrefix(start, calls, next);
    RunRate(rule, start, count, calls);
    RollRate(RunTrack(rule, FreshTrack(start, count), calls), next.now, rule.maxPerMinute);
  }

  /** Entries r * max apart in the history are r windows apart, hence more than r - 1 minutes. */
  lemma {:induction false} Apart(t: Track, max: nat, r: nat, i: nat, j: nat)
    requires RateOk(t, max) && 0 < max && i + r * max <= j < |t.log|
    ensures t.log[i].window + r <= t.log[j].window
    ensures r > 0 ==> t.log[j].time - t.log[i].time > Minutes(r - 1)
  {
    if r > 0 {
      assert i + r * max == (i + (r - 1) * max) + max && (r - 1) * max >= 0;
      Apart(t, max, r - 1, i, i + (r - 1) * max);
      assert t.log[i + (r - 1) * max].window < t.log[j].window;
      assert i < j;
    }
  }

  /** The places in a history whose time falls into the w nanoseconds from `from` on. */
  function Within(log: seq<Event>, from: int, w: nat): set<nat> {
    set i: nat | i < |log| && from <= log[i].time < from + w
  }

  lemma {:induction false} IntervalSize(lo: nat, hi: nat, s: set<nat>)
    requires lo <= hi && forall x :: x in s ==> lo <= x < hi
    ensures |s| <= hi - lo
    decreases hi
  {
    if lo == hi {
      assert s == {};
    } else {
      IntervalSize(lo, hi - 1, s - {hi - 1});
      assert s <= (s - {hi - 1}) + {hi - 1};
      if hi - 1 in s { assert s == (s - {hi - 1}) + {hi - 1}; } else { assert s == s - {hi - 1}; }
    }
  }

  lemma {:induction false} LeastMember(s: set<nat>, bound: nat) returns (lo: nat)
    requires exists x :: x in s && x < bound
    ensures lo in s && forall x :: x in s ==> lo <= x
    decreases bound
  {
    var x :| x in s && x < bound;
    if exists y :: y in s && y < x {
      lo := LeastMember(s, x);
    } else {
      lo := x;
    }
  }

  /** Any span of w nanoseconds holds at most max selected entries for each rate window that can have
      a share in it; for a minute those are two. */
  lemma RateLimit(rule: Rule, start: int, count: nat, calls: seq<Batch>, from: int, w: nat)
    requires rule.maxPerMinute > 0 && Clocked(start, calls)
    ensures |Within(RunTrack(rule, FreshTrack(start, count), calls).log, from, w)| <= WindowsIn(w) * rule.maxPerMinute
    ensures |Within(RunTrack(rule, FreshTrack(start, count), calls).log, from, 60_000_000_000)| <= 2 * rule.maxPerMinute
  {
    var t := RunTrack(rule, FreshTrack(start, count), calls);
    RunRate(rule, start, count, calls);
    hide RateOk, RunTrack;
    SpanLimit(t, rule.maxPerMinute, from, w);
    SpanLimit(t, rule.maxPerMinute, from, MINUTE);
    assert WindowsIn(MINUTE) == 2;
  }

  lemma SpanLimit(t: Track, max: nat, from: int, w: nat)
    requires RateOk(t, max) && 0 < max
    ensures |Within(t.log, from, w)| <= WindowsIn(w) * max
  {
    hide RateOk;
    var s, r := Within(t.log, from, w), WindowsIn(w);
    assert r * max >= 0;
    if s != {} {
      var lo := LeastMember(s, |t.log|);
      forall x | x in s
        ensures lo <= x < lo + r * max
      {
        if x >= lo + r * max { Apart(t, max, r, lo, x); }
      }
      IntervalSize(lo, lo + r * max, s);
    }
  }
}
