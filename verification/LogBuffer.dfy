/** The ring buffer of recent log entries with its segmented inverted index. */
module LogBuffer {
  import opened Basics
  import opened LogText
  import opened LogIndex

  /** Segments tile the ids from the first one's on; all but the last are full. */
  ghost predicate Tiled(segments: seq<Segment>, span: nat, next: nat) {
    && (forall i :: 0 <= i < |segments| ==> segments[i].firstId <= segments[i].lastId < segments[i].firstId + span)
    && (forall i :: 0 <= i < |segments| - 1 ==>
          segments[i + 1].firstId == segments[i].lastId + 1 && segments[i].lastId + 1 == segments[i].firstId + span)
    && (segments != [] ==> segments[|segments| - 1].lastId + 1 == next)
  }

  /** The segments index the history h from the first segment's first id on. */
  ghost predicate Indexing(segments: seq<Segment>, h: seq<LogEntry>, span: nat) {
    && Tiled(segments, span, |h| + 1) && (segments == [] <==> h == [])
    && forall i :: 0 <= i < |segments| ==> SegmentOk(h, segments[i])
  }

  lemma {:induction false} TileStart(segments: seq<Segment>, span: nat, next: nat, i: nat)
    requires Tiled(segments, span, next) && i < |segments|
    ensures segments[i].firstId == segments[0].firstId + i * span
  {
    if i > 0 { TileStart(segments, span, next, i - 1); }
  }

  class LogBuffer {
    const capacity: nat
    const segmentSpan: nat

    var items: seq<LogEntry>
    var segments: seq<Segment>
    var oldestId: nat
    var nextId: nat
    var totalPushed: nat
    var totalDiscarded: nat

    /** Every entry ever pushed. */
    ghost var history: seq<LogEntry>

    ghost predicate Window()
      reads this`items, this`oldestId, this`nextId, this`totalDiscarded, this`history
    {
      && nextId == |history| + 1
      && 1 <= oldestId <= nextId && totalDiscarded == oldestId - 1
      && items == history[oldestId - 1..]
    }

    ghost predicate Ring()
      reads this
    {
      1 <= capacity && 1 <= segmentSpan && Window() && totalPushed == |history|
    }

    ghost predicate IndexOk()
      reads this`segments, this`history, this`oldestId
    {
      Indexing(segments, history, segmentSpan) && (segments != [] ==> segments[0].firstId <= oldestId)
    }

    /** The live entries are the newest ones up to the capacity; the oldest segment still covers one
        of them. */
    ghost predicate Valid()
      reads this
    {
      && Ring() && IndexOk() && |items| == Min(capacity, |history|)
      && (|segments| > 1 ==> segments[0].lastId >= oldestId)
    }

    constructor (capacity: nat)
      ensures Valid() && history == []
      ensures this.capacity == Max(1, capacity) && segmentSpan == Max(1024, Max(1, capacity) / 8)
    {
      hide Valid;
      this.capacity := if capacity == 0 then 1 else capacity;
      this.segmentSpan := Max(1024, (if capacity == 0 then 1 else capacity) / 8);
      items, segments, oldestId, nextId := [], [], 1, 1;
      totalPushed, totalDiscarded, history := 0, 0, [];
      new;
      EmptyIsValid();
    }

    lemma EmptyIsValid()
      requires history == [] && items == [] && segments == [] && oldestId == nextId == 1 && 1 <= capacity && 1 <= segmentSpan
      requires totalPushed == totalDiscarded == 0
      ensures Valid()
    {
      hide SegmentOk, Tiled;
      assert history[oldestId - 1..] == [];
      NothingTiled(segmentSpan);
    }

    static lemma NothingTiled(span: nat)
      ensures Tiled([], span, 1)
    {
    }

    // ---------- pushing ----------

    method Push(entry: LogEntry)
      requires Valid()
      modifies this
      ensures Valid() && history == old(history) + [entry]
      ensures nextId == |history| + 1 && oldestId == if |history| <= capacity then 1 else |history| - capacity + 1
      ensures items == history[oldestId - 1..]
    {
      Append(entry);
      Discard();
      EvictSegments();
    }

    /** Takes the entry into the buffer and the index, over capacity if need be. */
    method Append(entry: LogEntry)
      requires Valid()
      modifies this
      ensures Ring() && IndexOk() && history == old(history) + [entry] && |items| == |old(items)| + 1
    {
      hide Indexing, Window;
      assert nextId == |history| + 1 && 1 <= oldestId && (segments == [] ==> oldestId == nextId == 1) by { Beginning(); }
      var id := nextId;
      TakeIn(entry);
      IndexEntry(entry.message, id, old(history));
      totalPushed := totalPushed + 1;
    }

    lemma Beginning()
      requires Ring() && IndexOk()
      ensures nextId == |history| + 1 && 1 <= oldestId && (segments == [] ==> oldestId == nextId == 1)
    {
      hide SegmentOk, Tiled;
    }

    method TakeIn(entry: LogEntry)
      requires Window()
      modifies this`items, this`oldestId, this`nextId, this`history
      ensures Window() && history == old(history) + [entry] && |items| == |old(items)| + 1
      ensures oldestId == old(oldestId) && nextId == old(nextId) + 1 == |history| + 1
    {
      HistoryGrows(history, entry, oldestId);
      if items == [] { oldestId := nextId; }
      nextId := nextId + 1;
      items := items + [entry];
      history := history + [entry];
    }

    static lemma HistoryGrows(h: seq<LogEntry>, entry: LogEntry, oldest: nat)
      requires 1 <= oldest <= |h| + 1
      ensures (h + [entry])[oldest - 1..] == h[oldest - 1..] + [entry]
    {
    }

    method Discard()
      requires Ring() && IndexOk()
      modifies this`items, this`oldestId, this`totalDiscarded
      ensures Ring() && IndexOk() && |items| == Min(capacity, |old(items)|)
    {
      hide SegmentOk, Tiled;
      while |items| > capacity
        invariant Ring() && IndexOk() && |items| <= |old(items)|
        invariant |items| >= Min(capacity, |old(items)|)
        decreases |items|
      {
        items := items[1..];
        oldestId := oldestId + 1;
        totalDiscarded := totalDiscarded + 1;
      }
    }

    /** Adds the newest id to the last segment, opening a new one when that is full. */
    method IndexEntry(message: string, id: nat, ghost before: seq<LogEntry>)
      requires id == |history| == |before| + 1 && before <= history && history[id - 1].message == message && 1 <= segmentSpan
      requires Indexing(segments, before, segmentSpan)
      modifies this`segments
      ensures Indexing(segments, history, segmentSpan) && segments != []
      ensures segments[0].firstId == if old(segments) == [] then id else old(segments)[0].firstId
    {
      hide SegmentOk;
      ghost var segments0 := segments;
      forall i | 0 <= i < |segments0|
        ensures SegmentOk(history, segments0[i])
      {
        SegmentStays(before, history, segments0[i]);
      }
      if segments == [] || segments[|segments| - 1].lastId - segments[|segments| - 1].firstId + 1 >= segmentSpan {
        segments := segments + [Segment(id, id, map[])];
      }
      var last := |segments| - 1;
      var seg := segments[last];
      var index := PostTokens(message, id, seg, before);
      segments := segments[last := Segment(seg.firstId, id, index)];
      assert forall i :: 0 <= i < last ==> segments[i] == segments0[i];
    }

    /** Appends id to the posting list of every token of the message, once. */
    method PostTokens(message: string, id: nat, seg: Segment, ghost before: seq<LogEntry>) returns (index: map<string, seq<nat>>)
      requires id == |history| == |before| + 1 && before <= history && history[id - 1].message == message
      requires if seg.firstId == id then seg.index == map[] else seg.lastId + 1 == id && SegmentOk(before, seg)
      ensures SegmentOk(history, Segment(seg.firstId, id, index))
    {
      hide SegmentOk, Indexed, Tokens, Elements;
      IndexedStart(before, history, seg, id);
      index := seg.index;
      var tokens := Tokenize(message);
      assert Elements(tokens[..0]) == {} by { NoElements(tokens); }
      for k := 0 to |tokens|
        invariant Indexed(history, seg.firstId, id, Elements(tokens[..k]), index)
      {
        var postings := if tokens[k] in index then index[tokens[k]] else [];
        if postings == [] || postings[|postings| - 1] != id { postings := postings + [id]; }
        PostOne(history, seg.firstId, id, tokens, k, index, postings);
        index := index[tokens[k] := postings];
      }
      assert tokens[..|tokens|] == tokens;
      IndexedDone(history, seg.firstId, id, index);
    }

    static lemma PostOne(h: seq<LogEntry>, firstId: nat, id: nat, tokens: seq<string>, k: nat, index: map<string, seq<nat>>, postings: seq<nat>)
      requires 1 <= firstId <= id <= |h| && k < |tokens|
      requires Indexed(h, firstId, id, Elements(tokens[..k]), index)
      requires var before := if tokens[k] in index then index[tokens[k]] else [];
               postings == if before == [] || before[|before| - 1] != id then before + [id] else before
      ensures Indexed(h, firstId, id, Elements(tokens[..k + 1]), index[tokens[k] := postings])
    {
      hide Tokens;
      assert Elements(tokens[..k + 1]) == Elements(tokens[..k]) + {tokens[k]} by { assert tokens[..k + 1] == tokens[..k] + [tokens[k]]; }
      MatchingMembers(h, firstId, id, {tokens[k]});
    }

    static lemma NoElements(tokens: seq<string>)
      ensures Elements(tokens[..0]) == {}
    {
    }

    /** Whole segments go once all their ids have left the buffer. */
    method EvictSegments()
      requires Ring() && IndexOk() && |items| == Min(capacity, |history|)
      modifies this`segments
      ensures Valid()
    {
      hide SegmentOk;
      while |segments| > 1 && segments[0].lastId < oldestId
        invariant Ring() && IndexOk()
        decreases |segments|
      {
        assert segments[1].firstId == segments[0].lastId + 1;
        segments := segments[1..];
      }
    }

    /** The index covers fewer than capacity + span ids, in at most ten segments. */
    lemma IndexIsBounded()
      requires Valid() && segmentSpan == Max(1024, capacity / 8)
      ensures segments != [] ==> nextId - segments[0].firstId < capacity + segmentSpan
      ensures |segments| <= 10
    {
      if |segments| >= 11 {
        TileStart(segments, segmentSpan, nextId, 10);
        assert segments[10].firstId == segments[0].firstId + 10 * segmentSpan;
        LaterSegment(10);
      }
    }

    lemma {:induction false} LaterSegment(i: nat)
      requires Tiled(segments, segmentSpan, nextId) && i < |segments|
      ensures segments[i].firstId < nextId
      decreases |segments| - i
    {
      if i < |segments| - 1 { LaterSegment(i + 1); }
    }

    // ---------- searching ----------

    /** The ids of a segment whose entries have all the tokens: the shortest posting list, filtered by
        the others. */
    method LookupSegment(seg: Segment, tokens: seq<string>) returns (ids: seq<nat>)
      requires SegmentOk(history, seg) && tokens != []
      ensures ids == Matching(history, seg.firstId, seg.lastId + 1, Elements(tokens))
    {
      hide Matching, Kept;
      var lo, hi := seg.firstId, seg.lastId + 1;
      var shortest := tokens[0];
      for k := 0 to |tokens|
        invariant forall j :: 0 <= j < k ==> tokens[j] in seg.index
        invariant shortest in tokens && (k > 0 ==> shortest in seg.index)
      {
        if tokens[k] !in seg.index {
          assert tokens[k] in Elements(tokens);
          MatchingShrinks(history, lo, hi, {tokens[k]}, Elements(tokens));
          return [];
        }
        if k == 0 || |seg.index[tokens[k]]| < |seg.index[shortest]| { shortest := tokens[k]; }
      }
      ids := FilterBy(seg, tokens, shortest);
    }

    method FilterBy(seg: Segment, tokens: seq<string>, shortest: string) returns (ids: seq<nat>)
      requires SegmentOk(history, seg) && shortest in tokens && forall j :: 0 <= j < |tokens| ==> tokens[j] in seg.index
      ensures ids == Matching(history, seg.firstId, seg.lastId + 1, Elements(tokens))
    {
      hide Matching, Kept;
      var lo, hi := seg.firstId, seg.lastId + 1;
      ids := seg.index[shortest];
      assert Elements(tokens[..0]) + {shortest} == {shortest};
      for k := 0 to |tokens|
        invariant ids == Matching(history, lo, hi, Elements(tokens[..k]) + {shortest})
      {
        assert Elements(tokens[..k + 1]) == Elements(tokens[..k]) + {tokens[k]} by { assert tokens[..k + 1] == tokens[..k] + [tokens[k]]; }
        ghost var some := Elements(tokens[..k]) + {shortest};
        assert Elements(tokens[..k + 1]) + {shortest} == some + {tokens[k]};
        if tokens[k] == shortest {
          assert some + {tokens[k]} == some;
          continue;
        }
        Intersect(history, lo, hi, some, tokens[k]);
        ids := RemoveMissing(ids, seg.index[tokens[k]]);
        if ids == [] {
          assert some + {tokens[k]} <= Elements(tokens);
          MatchingShrinks(history, lo, hi, some + {tokens[k]}, Elements(tokens));
          return;
        }
      }
      assert tokens[..|tokens|] == tokens;
      assert Elements(tokens) + {shortest} == Elements(tokens);
    }

    /** erase-remove of the ids that the filter does not have. */
    static method RemoveMissing(ids: seq<nat>, filter: seq<nat>) returns (kept: seq<nat>)
      ensures kept == Kept(ids, filter)
    {
      var members := set id | id in filter;
      kept := [];
      for i := 0 to |ids|
        invariant kept == Kept(ids[..i], filter)
      {
        assert ids[..i + 1][..i] == ids[..i];
        if ids[i] in members { kept := kept + [ids[i]]; }
      }
      assert ids[..|ids|] == ids;
    }

    /** The live entry with this id. */
    method EntryFor(id: nat) returns (found: bool, entry: LogEntry)
      requires Ring() && 1 <= id
      ensures found <==> oldestId <= id < nextId
      ensures found ==> entry == history[id - 1]
    {
      entry := LogEntry("", "");
      if id < oldestId { return false, entry; }
      var idx := id - oldestId;
      if idx < |items| { return true, items[idx]; }
      return false, entry;
    }

    /** Search answers exactly as linear scans over the live entries do. */
    method Search(query: string, limit: nat) returns (result: seq<LogEntry>)
      requires Valid()
      ensures |result| == |AnswerIds(history, oldestId, nextId, query, limit)|
      ensures forall i :: 0 <= i < |result| ==>
                && oldestId <= AnswerIds(history, oldestId, nextId, query, limit)[i] < nextId
                && result[i] == history[AnswerIds(history, oldestId, nextId, query, limit)[i] - 1]
    {
      hide AnswerIds, Answer, AskedFor;
      result := FindAnswer(query, limit);
      ghost var ids := AnswerIds(history, oldestId, nextId, query, limit);
      AnswerByIds(history, oldestId, nextId, query, limit);
      AnswerInWords(history, oldestId, nextId, query, limit);
      forall i | 0 <= i < |ids|
        ensures oldestId <= ids[i] < nextId
      {
        AskedForLive(history, oldestId, nextId, query, ids[i]);
      }
    }

    static lemma AskedForLive(h: seq<LogEntry>, oldest: nat, next: nat, query: string, id: nat)
      requires AskedFor(h, oldest, next, query, id)
      ensures oldest <= id < next
    {
    }

    method FindAnswer(query: string, limit: nat) returns (result: seq<LogEntry>)
      requires Valid()
      ensures result == Answer(history, oldestId, nextId, query, limit)
    {
      hide SegmentOk, Tiled, Newest, Tokens;
      result := [];
      if limit == 0 {
        NothingTaken(history, oldestId, nextId, query);
        return;
      }
      if items == [] {
        NothingLive(history, oldestId, query, limit);
        return;
      }
      if query == [] {
        result := ScanNewest(query, limit);
        return;
      }
      var tokens := Tokenize(query);
      assert history != [];
      if tokens != [] {
        result := SearchIndex(tokens, limit);
        if result != [] { return; }
      }
      var needle := ToLower(query);
      result := ScanNewest(needle, limit);
      NewestSame(history, oldestId, nextId, query);
    }

    static lemma NothingTaken(h: seq<LogEntry>, oldest: nat, next: nat, query: string)
      requires 1 <= oldest && next <= |h| + 1
      ensures Answer(h, oldest, next, query, 0) == []
    {
      hide Newest, Tokens;
    }

    static lemma NothingLive(h: seq<LogEntry>, next: nat, query: string, limit: nat)
      requires next == |h| + 1
      ensures Answer(h, next, next, query, limit) == []
    {
    }

    /** The linear scan from the newest entry; an empty needle accepts everything. */
    method ScanNewest(needle: string, limit: nat) returns (result: seq<LogEntry>)
      requires Ring()
      ensures result == Take(Newest(history, oldestId, nextId, if needle == [] then Everything else Substring(needle)), limit)
    {
      hide Newest, Satisfies, Contains;
      ghost var c := if needle == [] then Everything else Substring(needle);
      result := [];
      var i: nat := |items|;
      NewestNone(history, nextId, c);
      while i > 0 && |result| < limit
        invariant i <= |items| && |result| <= limit
        invariant result == Newest(history, oldestId + i, nextId, c)
        decreases i
      {
        i := i - 1;
        NewestStep(history, oldestId + i, nextId, c);
        assert items[i] == history[oldestId + i - 1];
        var take := needle == [];
        if !take { take := ContainsCi(items[i].message, needle); }
        Judged(items[i], needle);
        if take { result := result + [items[i]]; }
      }
      NewestSplit(history, oldestId, oldestId + i, nextId, c);
      NewestNone(history, oldestId, c);
    }

    static lemma Judged(e: LogEntry, needle: string)
      ensures Satisfies(if needle == [] then Everything else Substring(needle), e) <==> needle == [] || Contains(e.message, needle)
    {
    }

    /** The index search, newest segment first. */
    method SearchIndex(tokens: seq<string>, limit: nat) returns (result: seq<LogEntry>)
      requires Valid() && tokens != [] && segments != []
      ensures result == Take(Newest(history, oldestId, nextId, AllTokens(Elements(tokens))), limit)
    {
      hide SegmentOk, Newest, Elements;
      ghost var c := AllTokens(Elements(tokens));
      result := [];
      var i: nat := |segments|;
      ghost var lo: nat := nextId;
      NewestNone(history, nextId, c);
      while i > 0 && |result| < limit
        invariant i <= |segments|
        invariant lo == if i == |segments| then nextId else segments[i].firstId
        invariant result == Take(Newest(history, Max(lo, oldestId), nextId, c), limit)
        decreases i
      {
        i := i - 1;
        SegmentRange(i);
        result := SearchSegment(segments[i], tokens, limit, result, lo);
        lo := segments[i].firstId;
      }
      if i > 0 {
        RestOfRange(i, lo);
        NewestSplit(history, oldestId, Max(lo, oldestId), nextId, c);
        TakeRest(Newest(history, Max(lo, oldestId), nextId, c), Newest(history, oldestId, Max(lo, oldestId), c), limit);
      }
    }

    static lemma TakeRest<T>(a: seq<T>, b: seq<T>, limit: nat)
      requires |Take(a, limit)| >= limit
      ensures Take(a + b, limit) == Take(a, limit)
    {
    }

    lemma SegmentRange(i: nat)
      requires Valid() && i < |segments|
      ensures SegmentOk(history, segments[i]) && 1 <= segments[i].firstId <= segments[i].lastId < nextId
      ensures segments[i].lastId + 1 == if i + 1 == |segments| then nextId else segments[i + 1].firstId
      ensures segments[0].firstId <= oldestId
    {
    }

    lemma RestOfRange(i: nat, lo: nat)
      requires Valid() && i <= |segments| && lo == if i == |segments| then nextId else segments[i].firstId
      ensures 1 <= lo <= nextId
    {
      if i < |segments| { SegmentRange(i); }
    }

    /** One segment's matches, read newest first until the limit is reached. */
    method SearchSegment(seg: Segment, tokens: seq<string>, limit: nat, found: seq<LogEntry>, ghost hi: nat) returns (result: seq<LogEntry>)
      requires Ring() && SegmentOk(history, seg) && tokens != [] && hi == seg.lastId + 1 && |found| < limit
      requires found == Take(Newest(history, Max(hi, oldestId), nextId, AllTokens(Elements(tokens))), limit)
      ensures result == Take(Newest(history, Max(seg.firstId, oldestId), nextId, AllTokens(Elements(tokens))), limit)
    {
      hide SegmentOk, Newest, Elements, Matching, Fetch;
      assert 1 <= seg.firstId <= hi <= nextId by { SegmentIds(seg); }
      var ids := LookupSegment(seg, tokens);
      MatchingMembers(history, seg.firstId, hi, Elements(tokens));
      FetchIsNewest(history, seg.firstId, hi, Elements(tokens), oldestId);
      result := ReadIds(ids, limit, found);
      SegmentJoins(history, seg.firstId, hi, oldestId, nextId, Elements(tokens));
    }

    lemma SegmentIds(seg: Segment)
      requires Ring() && SegmentOk(history, seg)
      ensures 1 <= seg.firstId <= seg.lastId + 1 <= nextId
    {
    }

    /** The live part of a segment continues the live part of the ids after it. */
    static lemma SegmentJoins(h: seq<LogEntry>, lo: nat, hi: nat, oldest: nat, next: nat, tokens: set<string>)
      requires 1 <= lo <= hi <= next == |h| + 1 && 1 <= oldest <= next
      ensures Newest(h, Max(lo, oldest), next, AllTokens(tokens))
           == Newest(h, Max(hi, oldest), next, AllTokens(tokens)) + Newest(h, Max(lo, oldest), hi, AllTokens(tokens))
    {
      var c := AllTokens(tokens);
      hide Satisfies;
      if hi >= oldest {
        NewestSplit(h, Max(lo, oldest), hi, next, c);
      } else {
        assert Newest(h, oldest, hi, c) == [];
      }
    }

    /** Appends the live entries of an ascending id list, newest first, up to the limit. */
    method ReadIds(ids: seq<nat>, limit: nat, found: seq<LogEntry>) returns (result: seq<LogEntry>)
      requires Ring() && |found| <= limit && forall k :: 0 <= k < |ids| ==> 1 <= ids[k] <= |history|
      ensures result == Take(found + Fetch(history, ids, oldestId), limit)
    {
      result := found;
      var i: nat := |ids|;
      assert ids[..|ids|] == ids;
      while i > 0 && |result| < limit
        invariant i <= |ids| && |result| <= limit
        invariant result + Fetch(history, ids[..i], oldestId) == found + Fetch(history, ids, oldestId)
        decreases i
      {
        i := i - 1;
        FetchStep(history, ids, i, oldestId);
        var live, entry := EntryFor(ids[i]);
        if live {
          assert result + ([entry] + Fetch(history, ids[..i], oldestId)) == (result + [entry]) + Fetch(history, ids[..i], oldestId);
          result := result + [entry];
        }
      }
    }
  }
}
