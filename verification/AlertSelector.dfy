/** Choosing which log entries raise an alert: level threshold, rate limit over tumbling one-minute
    windows, and suppression of repeated fingerprints. */
module AlertSelector {
  import opened AlertKey

  /** Times are in nanoseconds. */
  const MINUTE: int := 60_000_000_000

  datatype Rule = Rule(minLevel: Level, dedupWindow: nat, maxPerMinute: nat, dedupCacheSize: nat)

  /** recent maps a fingerprint to the time it was last selected. */
  datatype Memory = Memory(recent: map<string, int>, windowStart: int, rateCount: nat)

  datatype Verdict = Below | Suppressed | Selected

  // ---------- one call, as a function ----------

  /** A new window starts when a minute has passed since the last one did. */
  function Roll(m: Memory, now: int): Memory {
    if now - m.windowStart >= MINUTE then m.(windowStart := now, rateCount := 0) else m
  }

  function Judge(rule: Rule, m: Memory, e: Entry, now: int): Verdict {
    if Rank(e.level) < Rank(rule.minLevel) then Below
    else if rule.maxPerMinute > 0 && m.rateCount >= rule.maxPerMinute then Suppressed
    else if KeyOf(e) in m.recent && now - m.recent[KeyOf(e)] < rule.dedupWindow then Suppressed
    else Selected
  }

  /** The levels that reach the threshold. */
  lemma LevelsThatPass(rule: Rule, m: Memory, e: Entry, now: int)
    ensures Judge(rule, m, e, now) != Below <==>
              e.level in (match rule.minLevel
                    case DEBUG => {DEBUG, INFO, WARN, ERROR, FATAL}
                    case INFO => {INFO, WARN, ERROR, FATAL}
                    case WARN => {WARN, ERROR, FATAL}
                    case ERROR => {ERROR, FATAL}
                    case FATAL => {FATAL})
  {
  }

  function Note(rule: Rule, m: Memory, e: Entry, now: int): Memory {
    if Judge(rule, m, e, now) == Selected
    then m.(recent := m.recent[KeyOf(e) := now], rateCount := m.rateCount + 1)
    else m
  }

  function Scan(rule: Rule, m: Memory, entries: seq<Entry>, now: int): Memory {
    if entries == [] then m else Note(rule, Scan(rule, m, entries[..|entries| - 1], now), entries[|entries| - 1], now)
  }

  /** The selected entries, in order. */
  function Chosen(rule: Rule, m: Memory, entries: seq<Entry>, now: int): seq<Entry> {
    if entries == [] then []
    else
      var rest, last := entries[..|entries| - 1], entries[|entries| - 1];
      Chosen(rule, m, rest, now) + if Judge(rule, Scan(rule, m, rest, now), last, now) == Selected then [last] else []
  }

  function SuppressedCount(rule: Rule, m: Memory, entries: seq<Entry>, now: int): nat {
    if entries == [] then 0
    else
      var rest, last := entries[..|entries| - 1], entries[|entries| - 1];
      SuppressedCount(rule, m, rest, now) + if Judge(rule, Scan(rule, m, rest, now), last, now) == Suppressed then 1 else 0
  }

  /** How many entries reach the threshold. */
  function Passing(rule: Rule, entries: seq<Entry>): nat {
    if entries == [] then 0
    else Passing(rule, entries[..|entries| - 1]) +
         if Rank(entries[|entries| - 1].level) >= Rank(rule.minLevel) then 1 else 0
  }

  /** Every entry that reaches the threshold is either selected or counted as suppressed. */
  lemma {:induction false} SelectedOrSuppressed(rule: Rule, m: Memory, entries: seq<Entry>, now: int)
    ensures |Chosen(rule, m, entries, now)| + SuppressedCount(rule, m, entries, now) == Passing(rule, entries)
  {
    if entries != [] {
      SelectedOrSuppressed(rule, m, entries[..|entries| - 1], now);
      hide KeyOf, Scan;
    }
  }

  /** An entry is selected, in its turn, exactly when it is judged so; the selection keeps the order. */
  lemma {:induction false} ChosenInOrder(rule: Rule, m: Memory, entries: seq<Entry>, now: int, i: nat)
    requires i < |entries|
    ensures var all, before := Chosen(rule, m, entries, now), Chosen(rule, m, entries[..i], now);
            var upTo := Chosen(rule, m, entries[..i + 1], now);
            && before <= upTo <= all
            && if Judge(rule, Scan(rule, m, entries[..i], now), entries[i], now) == Selected
               then |before| < |all| && all[|before|] == entries[i] && |upTo| == |before| + 1
               else upTo == before
    decreases |entries|
  {
    var rest := entries[..|entries| - 1];
    hide Judge, Scan;
    if i < |rest| {
      ChosenInOrder(rule, m, rest, now, i);
      assert rest[..i] == entries[..i] && rest[..i + 1] == entries[..i + 1];
    } else {
      assert entries[..i] == rest && entries[..i + 1] == entries;
    }
  }

  lemma {:induction false} ChosenPass(rule: Rule, m: Memory, entries: seq<Entry>, now: int)
    ensures forall e :: e in Chosen(rule, m, entries, now) ==> e in entries
    ensures forall e :: e in Chosen(rule, m, entries, now) ==>
              e.level in (match rule.minLevel
                    case DEBUG => {DEBUG, INFO, WARN, ERROR, FATAL}
                    case INFO => {INFO, WARN, ERROR, FATAL}
                    case WARN => {WARN, ERROR, FATAL}
                    case ERROR => {ERROR, FATAL}
                    case FATAL => {FATAL})
  {
    if entries != [] {
      var rest, last := entries[..|entries| - 1], entries[|entries| - 1];
      ChosenPass(rule, m, rest, now);
      LevelsThatPass(rule, Scan(rule, m, rest, now), last, now);
      hide Judge, Scan;
      assert entries == rest + [last];
    }
  }

  function Unexpired(rule: Rule, recent: map<string, int>, now: int): map<string, int> {
    map k | k in recent && now - recent[k] < rule.dedupWindow :: recent[k]
  }

  /** An over-full table loses its expired keys; if it is over-full still, all of it. */
  function Purge(rule: Rule, m: Memory, now: int): Memory {
    if |m.recent| <= rule.dedupCacheSize then m
    else if |Unexpired(rule, m.recent, now)| <= rule.dedupCacheSize then m.(recent := Unexpired(rule, m.recent, now))
    else m.(recent := map[])
  }

  function Call(rule: Rule, m: Memory, entries: seq<Entry>, now: int): Memory {
    Purge(rule, Scan(rule, Roll(m, now), entries, now), now)
  }

  // ---------- the selector ----------

  class Selector {
    var rule: Rule
    var recent: map<string, int>
    var windowStart: int
    var rateCount: nat
    var totalSuppressed: nat

    function State(): Memory
      reads this`recent, this`windowStart, this`rateCount
    {
      Memory(recent, windowStart, rateCount)
    }

    constructor (rule: Rule, now: int)
      ensures this.rule == rule && State() == Memory(map[], now, 0) && totalSuppressed == 0
    {
      this.rule := rule;
      recent, windowStart, rateCount, totalSuppressed := map[], now, 0, 0;
    }

    /** A new rule forgets the fingerprints but not the rate window. */
    method SetAlertRule(rule: Rule)
      modifies this`rule, this`recent
      ensures this.rule == rule && State() == old(State()).(recent := map[])
    {
      this.rule := rule;
      recent := map[];
    }

    method SelectAlerting(entries: seq<Entry>, now: int) returns (selected: seq<Entry>)
      modifies this`recent, this`windowStart, this`rateCount, this`totalSuppressed
      ensures State() == Call(rule, old(State()), entries, now)
      ensures selected == Chosen(rule, Roll(old(State()), now), entries, now)
      ensures forall e :: e in selected ==> e in entries
      ensures forall e :: e in selected ==>
                e.level in (match rule.minLevel
                    case DEBUG => {DEBUG, INFO, WARN, ERROR, FATAL}
                    case INFO => {INFO, WARN, ERROR, FATAL}
                    case WARN => {WARN, ERROR, FATAL}
                    case ERROR => {ERROR, FATAL}
                    case FATAL => {FATAL})
      ensures |selected| + (totalSuppressed - old(totalSuppressed)) == Passing(rule, entries)
      ensures totalSuppressed == old(totalSuppressed) + SuppressedCount(rule, Roll(old(State()), now), entries, now)
    {
      hide Judge, Note, Purge, Unexpired;
      selected := [];
      var suppressed := 0;
      if now - windowStart >= MINUTE {
        windowStart := now;
        rateCount := 0;
      }
      ghost var start := State();
      for i := 0 to |entries|
        invariant State() == Scan(rule, start, entries[..i], now)
        invariant selected == Chosen(rule, start, entries[..i], now)
        invariant suppressed == SuppressedCount(rule, start, entries[..i], now)
        invariant totalSuppressed == old(totalSuppressed)
      {
        var entry := entries[i];
        assert entries[..i + 1][..i] == entries[..i] && entries[..i + 1][i] == entry;
        var verdict := Decide(entry, now);
        match verdict
        case Below =>
        case Suppressed => suppressed := suppressed + 1;
        case Selected => selected := selected + [entry];
      }
      assert entries[..|entries|] == entries;
      ChosenPass(rule, start, entries, now);
      SelectedOrSuppressed(rule, start, entries, now);
      PurgeIfFull(now);
      if suppressed > 0 { totalSuppressed := totalSuppressed + suppressed; }
    }

    /** The body of the loop: threshold, rate limit, deduplication, in that order. */
    method Decide(entry: Entry, now: int) returns (verdict: Verdict)
      modifies this`recent, this`rateCount
      ensures verdict == Judge(rule, old(State()), entry, now)
      ensures verdict != Below <==>
                entry.level in (match rule.minLevel
                    case DEBUG => {DEBUG, INFO, WARN, ERROR, FATAL}
                    case INFO => {INFO, WARN, ERROR, FATAL}
                    case WARN => {WARN, ERROR, FATAL}
                    case ERROR => {ERROR, FATAL}
                    case FATAL => {FATAL})
      ensures State() == Note(rule, old(State()), entry, now)
    {
      if !(Rank(entry.level) >= Rank(rule.minLevel)) { return Below; }
      if rule.maxPerMinute > 0 && rateCount >= rule.maxPerMinute { return Suppressed; }
      var key := Fingerprint(entry);
      if key in recent && now - recent[key] < rule.dedupWindow { return Suppressed; }
      recent := recent[key := now];
      rateCount := rateCount + 1;
      return Selected;
    }

    method PurgeIfFull(now: int)
      modifies this`recent
      ensures State() == Purge(rule, old(State()), now)
    {
      if |recent| > rule.dedupCacheSize {
        DropExpired(now);
        if |recent| > rule.dedupCacheSize { recent := map[]; }
      }
    }

    /** Visits every key once and erases the expired ones. */
    method DropExpired(now: int)
      modifies this`recent
      ensures recent == Unexpired(rule, old(recent), now)
    {
      var keys := recent.Keys;
      ghost var before := recent;
      while keys != {}
        invariant keys <= recent.Keys <= before.Keys
        invariant forall k :: k in recent ==> recent[k] == before[k] && (k in keys || now - before[k] < rule.dedupWindow)
        invariant forall k :: k in before && k !in recent ==> now - before[k] >= rule.dedupWindow
        decreases keys
      {
        var key :| key in keys;
        if now - recent[key] >= rule.dedupWindow { recent := recent - {key}; }
        keys := keys - {key};
      }
    }
  }
}
