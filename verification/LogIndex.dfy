/** What the log buffer's segmented inverted index stands for, in terms of the history of all entries
    ever pushed. Ids start at 1: entry id is history[id - 1]. */
module LogIndex {
  import opened Basics
  import opened LogText

  datatype LogEntry = LogEntry(source: string, message: string)

  /** Posting lists for the ids firstId .. lastId. */
  datatype Segment = Segment(firstId: nat, lastId: nat, index: map<string, seq<nat>>)

  datatype Criterion = Everything | AllTokens(tokens: set<string>) | Substring(needle: string)

  ghost predicate HasTokens(e: LogEntry, tokens: set<string>) {
    forall t :: t in tokens ==> t in Tokens(e.message)
  }

  ghost predicate Satisfies(c: Criterion, e: LogEntry) {
    match c
    case Everything => true
    case AllTokens(tokens) => HasTokens(e, tokens)
    case Substring(needle) => Contains(e.message, needle)
  }

  function Take<T>(s: seq<T>, n: nat): seq<T> {
    if |s| <= n then s else s[..n]
  }

  // ---------- the reference: linear scans over the history ----------

  /** The entries with ids in lo .. hi-1 that satisfy c, newest first. */
  ghost function Newest(h: seq<LogEntry>, lo: nat, hi: nat, c: Criterion): seq<LogEntry>
    requires 1 <= lo && hi <= |h| + 1
    decreases hi
  {
    if hi <= lo then []
    else (if Satisfies(c, h[hi - 2]) then [h[hi - 2]] else []) + Newest(h, lo, hi - 1, c)
  }

  /** What a search over the live ids oldest .. next-1 has to answer. */
  ghost function Answer(h: seq<LogEntry>, oldest: nat, next: nat, query: string, limit: nat): seq<LogEntry>
    requires 1 <= oldest && next <= |h| + 1
  {
    if query == [] then Take(Newest(h, oldest, next, Everything), limit)
    else
      var byTokens := Newest(h, oldest, next, AllTokens(Elements(Tokens(query))));
      if Tokens(query) != [] && byTokens != [] then Take(byTokens, limit)
      else Take(Newest(h, oldest, next, Substring(query)), limit)
  }

  lemma {:induction false} NewestSplit(h: seq<LogEntry>, lo: nat, mid: nat, hi: nat, c: Criterion)
    requires 1 <= lo <= mid <= hi <= |h| + 1
    ensures Newest(h, lo, hi, c) == Newest(h, mid, hi, c) + Newest(h, lo, mid, c)
    decreases hi
  {
    hide Satisfies;
    if mid < hi { NewestSplit(h, lo, mid, hi - 1, c); }
  }

  lemma NewestStep(h: seq<LogEntry>, id: nat, hi: nat, c: Criterion)
    requires 1 <= id < hi <= |h| + 1
    ensures Newest(h, id, hi, c) == Newest(h, id + 1, hi, c) + if Satisfies(c, h[id - 1]) then [h[id - 1]] else []
  {
    NewestSplit(h, id, id + 1, hi, c);
    assert Newest(h, id, id, c) == [];
  }

  lemma NewestNone(h: seq<LogEntry>, next: nat, c: Criterion)
    requires 1 <= next <= |h| + 1
    ensures Newest(h, next, next, c) == []
  {
  }

  /** Searching for a lower-cased query gives the same answer. */
  lemma {:induction false} NewestSame(h: seq<LogEntry>, lo: nat, hi: nat, query: string)
    requires 1 <= lo && hi <= |h| + 1
    ensures Newest(h, lo, hi, Substring(Lower(query))) == Newest(h, lo, hi, Substring(query))
    decreases hi
  {
    if lo < hi {
      NewestSame(h, lo, hi - 1, query);
      ContainsLower(h[hi - 2].message, query);
    }
  }

  lemma CaseDoesNotMatter(h: seq<LogEntry>, oldest: nat, next: nat, query: string, limit: nat)
    requires 1 <= oldest && next <= |h| + 1
    ensures Answer(h, oldest, next, Lower(query), limit) == Answer(h, oldest, next, query, limit)
  {
    TokensOfLower(query);
    NewestSame(h, oldest, next, query);
  }

  ghost predicate AnsweredBy(h: seq<LogEntry>, c: Criterion, e: LogEntry, id: nat) {
    1 <= id <= |h| && h[id - 1] == e && Satisfies(c, e)
  }

  ghost predicate AnsweredIn(h: seq<LogEntry>, lo: nat, hi: nat, c: Criterion, e: LogEntry) {
    exists id: nat :: lo <= id < hi && AnsweredBy(h, c, e, id)
  }

  lemma AnsweredNext(h: seq<LogEntry>, lo: nat, hi: nat, c: Criterion, e: LogEntry)
    requires lo < hi
    ensures AnsweredIn(h, lo, hi, c, e) <==> AnsweredIn(h, lo, hi - 1, c, e) || AnsweredBy(h, c, e, hi - 1)
  {
    hide AnsweredBy;
    if AnsweredIn(h, lo, hi, c, e) && !AnsweredBy(h, c, e, hi - 1) {
      var id: nat :| lo <= id < hi && AnsweredBy(h, c, e, id);
      assert id < hi - 1;
    }
    if AnsweredIn(h, lo, hi - 1, c, e) {
      var id: nat :| lo <= id < hi - 1 && AnsweredBy(h, c, e, id);
      assert id < hi;
    }
  }

  lemma NewestNext(h: seq<LogEntry>, lo: nat, hi: nat, c: Criterion, e: LogEntry)
    requires 1 <= lo < hi <= |h| + 1
    ensures e in Newest(h, lo, hi, c) <==> e in Newest(h, lo, hi - 1, c) || AnsweredBy(h, c, e, hi - 1)
  {
    hide Satisfies;
  }

  /** The answers are exactly the live entries that satisfy the criterion. */
  lemma {:induction false} NewestLive(h: seq<LogEntry>, lo: nat, hi: nat, c: Criterion, e: LogEntry)
    requires 1 <= lo && hi <= |h| + 1
    ensures e in Newest(h, lo, hi, c) <==> AnsweredIn(h, lo, hi, c, e)
    decreases hi
  {
    hide Newest, AnsweredIn, AnsweredBy, Satisfies;
    if hi <= lo {
      NewestEmpty(h, lo, hi, c);
      AnsweredNone(h, lo, hi, c, e);
    } else {
      NewestLive(h, lo, hi - 1, c, e);
      NewestNext(h, lo, hi, c, e);
      AnsweredNext(h, lo, hi, c, e);
    }
  }

  lemma AnsweredNone(h: seq<LogEntry>, lo: nat, hi: nat, c: Criterion, e: LogEntry)
    requires hi <= lo
    ensures !AnsweredIn(h, lo, hi, c, e)
  {
    hide AnsweredBy;
  }

  lemma NewestEmpty(h: seq<LogEntry>, lo: nat, hi: nat, c: Criterion)
    requires 1 <= lo && hi <= |h| + 1 && hi <= lo
    ensures Newest(h, lo, hi, c) == []
  {
  }

  // ---------- which entries answer, by id ----------

  ghost predicate Hits(h: seq<LogEntry>, c: Criterion, id: nat) {
    1 <= id <= |h| && Satisfies(c, h[id - 1])
  }

  /** The ids of the entries that a newest-first scan finds. */
  ghost function NewestIds(h: seq<LogEntry>, lo: nat, hi: nat, c: Criterion): seq<nat>
    decreases hi
  {
    if hi <= lo then [] else (if Hits(h, c, hi - 1) then [hi - 1] else []) + NewestIds(h, lo, hi - 1, c)
  }

  /** ids lists, newest first, exactly the ids of lo .. hi-1 whose entries satisfy c. */
  ghost predicate Lists(h: seq<LogEntry>, lo: nat, hi: nat, c: Criterion, ids: seq<nat>) {
    && (forall i :: 0 <= i < |ids| ==> lo <= ids[i] < hi && Hits(h, c, ids[i]))
    && (forall i, j :: 0 <= i < j < |ids| ==> ids[i] > ids[j])
    && (forall id: nat :: lo <= id < hi && Hits(h, c, id) ==> id in ids)
  }

  lemma ListsCons(h: seq<LogEntry>, lo: nat, hi: nat, c: Criterion, rest: seq<nat>)
    requires lo < hi && Lists(h, lo, hi - 1, c, rest) && Hits(h, c, hi - 1)
    ensures Lists(h, lo, hi, c, [hi - 1] + rest)
  {
    hide Hits;
    var ids := [hi - 1] + rest;
    forall i | 0 <= i < |ids|
      ensures lo <= ids[i] < hi && Hits(h, c, ids[i]) && (i > 0 ==> ids[i] < hi - 1)
    {
      if i > 0 { assert ids[i] == rest[i - 1]; }
    }
    forall i, j | 0 <= i < j < |ids|
      ensures ids[i] > ids[j]
    {
      assert ids[j] == rest[j - 1] && (i > 0 ==> ids[i] == rest[i - 1]);
    }
    forall id: nat | lo <= id < hi && Hits(h, c, id)
      ensures id in ids
    {
      assert id < hi - 1 ==> id in rest;
    }
  }

  lemma ListsSkip(h: seq<LogEntry>, lo: nat, hi: nat, c: Criterion, ids: seq<nat>)
    requires lo < hi && Lists(h, lo, hi - 1, c, ids) && !Hits(h, c, hi - 1)
    ensures Lists(h, lo, hi, c, ids)
  {
    hide Hits;
    forall id: nat | lo <= id < hi && Hits(h, c, id)
      ensures id in ids
    {
      assert id != hi - 1;
    }
  }

  lemma {:induction false} NewestIdsList(h: seq<LogEntry>, lo: nat, hi: nat, c: Criterion)
    ensures Lists(h, lo, hi, c, NewestIds(h, lo, hi, c))
    decreases hi
  {
    if hi <= lo {
      hide Hits;
    } else {
      NewestIdsList(h, lo, hi - 1, c);
      hide Hits, Lists;
      var rest := NewestIds(h, lo, hi - 1, c);
      if Hits(h, c, hi - 1) {
        ListsCons(h, lo, hi, c, rest);
      } else {
        ListsSkip(h, lo, hi, c, rest);
        assert [] + rest == rest;
      }
    }
  }

  /** The entries with these ids. */
  ghost predicate ByIds(h: seq<LogEntry>, entries: seq<LogEntry>, ids: seq<nat>) {
    |entries| == |ids| && forall i :: 0 <= i < |ids| ==> 1 <= ids[i] <= |h| && entries[i] == h[ids[i] - 1]
  }

  lemma ByIdsCons(h: seq<LogEntry>, entries: seq<LogEntry>, ids: seq<nat>, id: nat)
    requires ByIds(h, entries, ids) && 1 <= id <= |h|
    ensures ByIds(h, [h[id - 1]] + entries, [id] + ids)
  {
  }

  lemma {:induction false} NewestByIds(h: seq<LogEntry>, lo: nat, hi: nat, c: Criterion)
    requires 1 <= lo && hi <= |h| + 1
    ensures ByIds(h, Newest(h, lo, hi, c), NewestIds(h, lo, hi, c))
    decreases hi
  {
    hide Satisfies;
    if lo < hi {
      NewestByIds(h, lo, hi - 1, c);
      hide ByIds;
      var entries, ids := Newest(h, lo, hi - 1, c), NewestIds(h, lo, hi - 1, c);
      if Hits(h, c, hi - 1) {
        ByIdsCons(h, entries, ids, hi - 1);
      } else {
        assert [] + entries == entries && [] + ids == ids;
      }
    }
  }

  lemma TakeByIds(h: seq<LogEntry>, entries: seq<LogEntry>, ids: seq<nat>, limit: nat)
    requires ByIds(h, entries, ids)
    ensures ByIds(h, Take(entries, limit), Take(ids, limit))
  {
  }

  /** The ids of the entries that answer a query. */
  ghost function AnswerIds(h: seq<LogEntry>, oldest: nat, next: nat, query: string, limit: nat): seq<nat>
    requires 1 <= oldest && next <= |h| + 1
  {
    if query == [] then Take(NewestIds(h, oldest, next, Everything), limit)
    else
      var byTokens := NewestIds(h, oldest, next, AllTokens(Elements(Tokens(query))));
      if Tokens(query) != [] && byTokens != [] then Take(byTokens, limit)
      else Take(NewestIds(h, oldest, next, Substring(query)), limit)
  }

  lemma AnswerByIds(h: seq<LogEntry>, oldest: nat, next: nat, query: string, limit: nat)
    requires 1 <= oldest && next <= |h| + 1
    ensures ByIds(h, Answer(h, oldest, next, query, limit), AnswerIds(h, oldest, next, query, limit))
  {
    var tokens := AllTokens(Elements(Tokens(query)));
    NewestByIds(h, oldest, next, Everything);
    NewestByIds(h, oldest, next, tokens);
    NewestByIds(h, oldest, next, Substring(query));
    assert Newest(h, oldest, next, tokens) == [] <==> NewestIds(h, oldest, next, tokens) == [];
    hide Newest, NewestIds, ByIds, Tokens, Take;
    TakeByIds(h, Newest(h, oldest, next, Everything), NewestIds(h, oldest, next, Everything), limit);
    TakeByIds(h, Newest(h, oldest, next, tokens), NewestIds(h, oldest, next, tokens), limit);
    TakeByIds(h, Newest(h, oldest, next, Substring(query)), NewestIds(h, oldest, next, Substring(query)), limit);
  }

  /** The message of the entry has every token of the query. */
  ghost predicate HasTokensOf(h: seq<LogEntry>, id: nat, query: string) {
    1 <= id <= |h| && forall t :: t in Tokens(query) ==> t in Tokens(h[id - 1].message)
  }

  /** Some live entry has every token of the query, and there is one. */
  ghost predicate TokensFound(h: seq<LogEntry>, oldest: nat, next: nat, query: string) {
    Tokens(query) != [] && exists id: nat :: oldest <= id < next && HasTokensOf(h, id, query)
  }

  /** An empty query asks for every entry; another one for the entries that have all its tokens, or, if
      there are none, for those that contain it. */
  ghost predicate AskedFor(h: seq<LogEntry>, oldest: nat, next: nat, query: string, id: nat) {
    && oldest <= id < next && 1 <= id <= |h|
    && (query == [] || if TokensFound(h, oldest, next, query) then HasTokensOf(h, id, query) else Contains(h[id - 1].message, query))
  }

  /** The answer: at most limit ids, strictly from new to old, all asked for; and when one that is asked
      for is missing, the answer is full of newer ones. */
  lemma AnswerInWords(h: seq<LogEntry>, oldest: nat, next: nat, query: string, limit: nat)
    requires 1 <= oldest && next <= |h| + 1
    ensures var ids := AnswerIds(h, oldest, next, query, limit);
            && |ids| <= limit && (forall i, j :: 0 <= i < j < |ids| ==> ids[i] > ids[j])
            && (forall i :: 0 <= i < |ids| ==> AskedFor(h, oldest, next, query, ids[i]))
            && (forall id: nat :: AskedFor(h, oldest, next, query, id) ==>
                  id in ids || (|ids| == limit && forall i :: 0 <= i < |ids| ==> ids[i] > id))
  {
    var c := Asking(h, oldest, next, query);
    AnswerIsAsking(h, oldest, next, query, limit);
    NewestIdsList(h, oldest, next, c);
    hide NewestIds, AnswerIds, Asking, Lists;
    forall id: nat
      ensures AskedFor(h, oldest, next, query, id) <==> oldest <= id < next && Hits(h, c, id)
    {
      AskedIsHit(h, oldest, next, query, id);
    }
    hide Hits, AskedFor;
    TakeLists(h, oldest, next, c, NewestIds(h, oldest, next, c), limit);
  }

  ghost function Asking(h: seq<LogEntry>, oldest: nat, next: nat, query: string): Criterion {
    if query == [] then Everything
    else if TokensFound(h, oldest, next, query) then AllTokens(Elements(Tokens(query)))
    else Substring(query)
  }

  lemma AnswerIsAsking(h: seq<LogEntry>, oldest: nat, next: nat, query: string, limit: nat)
    requires 1 <= oldest && next <= |h| + 1
    ensures AnswerIds(h, oldest, next, query, limit) == Take(NewestIds(h, oldest, next, Asking(h, oldest, next, query)), limit)
  {
    hide Tokens, NewestIds;
    var tokens := AllTokens(Elements(Tokens(query)));
    NewestIdsList(h, oldest, next, tokens);
    SomeHasTokens(h, oldest, next, query, NewestIds(h, oldest, next, tokens));
  }

  lemma TokensHit(h: seq<LogEntry>, query: string, id: nat)
    ensures HasTokensOf(h, id, query) <==> Hits(h, AllTokens(Elements(Tokens(query))), id)
  {
    hide Tokens;
    if 1 <= id <= |h| {
      var e := h[id - 1];
      assert Elements(Tokens(query)) == set t | t in Tokens(query);
    }
  }

  lemma SomeHasTokens(h: seq<LogEntry>, oldest: nat, next: nat, query: string, ids: seq<nat>)
    requires Lists(h, oldest, next, AllTokens(Elements(Tokens(query))), ids)
    ensures ids != [] <==> exists id: nat :: oldest <= id < next && HasTokensOf(h, id, query)
  {
    hide Tokens, HasTokensOf, Hits;
    if ids != [] { TokensHit(h, query, ids[0]); }
    if id: nat :| oldest <= id < next && HasTokensOf(h, id, query) { TokensHit(h, query, id); }
  }

  lemma AskedIsHit(h: seq<LogEntry>, oldest: nat, next: nat, query: string, id: nat)
    ensures AskedFor(h, oldest, next, query, id) <==> oldest <= id < next && Hits(h, Asking(h, oldest, next, query), id)
  {
    TokensHit(h, query, id);
    hide Tokens, Contains, TokensFound, HasTokensOf, HasTokens;
  }

  lemma TakeLists(h: seq<LogEntry>, lo: nat, hi: nat, c: Criterion, ids: seq<nat>, limit: nat)
    requires Lists(h, lo, hi, c, ids)
    ensures var kept := Take(ids, limit);
            && |kept| <= limit && (forall i, j :: 0 <= i < j < |kept| ==> kept[i] > kept[j])
            && (forall i :: 0 <= i < |kept| ==> lo <= kept[i] < hi && Hits(h, c, kept[i]))
            && (forall id: nat :: lo <= id < hi && Hits(h, c, id) ==>
                  id in kept || (|kept| == limit && forall i :: 0 <= i < |kept| ==> kept[i] > id))
  {
    hide Hits;
    var kept := Take(ids, limit);
    forall id: nat | lo <= id < hi && Hits(h, c, id)
      ensures id in kept || (|kept| == limit && forall i :: 0 <= i < |kept| ==> kept[i] > id)
    {
      assert id in ids;
      var j :| 0 <= j < |ids| && ids[j] == id;
      if j < limit { assert kept[j] == id; }
    }
  }

  // ---------- letter case ----------

  /** Histories and queries that fold to the same are searched with the same ids. */
  lemma {:induction false} SameIds(a: seq<LogEntry>, b: seq<LogEntry>, lo: nat, hi: nat, c: Criterion, d: Criterion)
    requires forall id: nat :: Hits(a, c, id) <==> Hits(b, d, id)
    ensures NewestIds(a, lo, hi, c) == NewestIds(b, lo, hi, d)
    decreases hi
  {
    hide Hits;
    if lo < hi { SameIds(a, b, lo, hi - 1, c, d); }
  }

  lemma FoldedAnswer(a: seq<LogEntry>, b: seq<LogEntry>, oldest: nat, next: nat, query: string, other: string, limit: nat)
    requires 1 <= oldest && next <= |a| + 1 && |a| == |b| && Lower(query) == Lower(other)
    requires forall i :: 0 <= i < |a| ==> Lower(a[i].message) == Lower(b[i].message)
    ensures AnswerIds(a, oldest, next, query, limit) == AnswerIds(b, oldest, next, other, limit)
  {
    SameFold(query, other);
    assert |query| == |Lower(query)| == |Lower(other)| == |other|;
    hide Lower, Tokens, Contains, NewestIds;
    var tokens := Elements(Tokens(query));
    forall id: nat
      ensures Hits(a, AllTokens(tokens), id) <==> Hits(b, AllTokens(tokens), id)
      ensures Hits(a, Substring(query), id) <==> Hits(b, Substring(other), id)
      ensures Hits(a, Everything, id) <==> Hits(b, Everything, id)
    {
      if 1 <= id <= |a| { SameFold(a[id - 1].message, b[id - 1].message); }
    }
    hide Hits;
    SameIds(a, b, oldest, next, Everything, Everything);
    SameIds(a, b, oldest, next, AllTokens(tokens), AllTokens(tokens));
    SameIds(a, b, oldest, next, Substring(query), Substring(other));
  }

  /** Exchanging a letter of the query for its other case finds the same entries. */
  lemma QueryCase(h: seq<LogEntry>, oldest: nat, next: nat, query: string, limit: nat, i: nat, k: nat)
    requires 1 <= oldest && next <= |h| + 1 && i < |query| && k < 26
    requires query[i] == "ABCDEFGHIJKLMNOPQRSTUVWXYZ"[k]
    ensures AnswerIds(h, oldest, next, query[i := "abcdefghijklmnopqrstuvwxyz"[k]], limit) == AnswerIds(h, oldest, next, query, limit)
  {
    OtherCase(query, i, k);
    hide AnswerIds, Lower;
    FoldedAnswer(h, h, oldest, next, query[i := "abcdefghijklmnopqrstuvwxyz"[k]], query, limit);
  }

  /** So does exchanging a letter of an entry. */
  lemma EntryCase(h: seq<LogEntry>, oldest: nat, next: nat, query: string, limit: nat, id: nat, i: nat, k: nat)
    requires 1 <= oldest && next <= |h| + 1 && 1 <= id <= |h| && i < |h[id - 1].message| && k < 26
    requires h[id - 1].message[i] == "ABCDEFGHIJKLMNOPQRSTUVWXYZ"[k]
    ensures var e := h[id - 1].(message := h[id - 1].message[i := "abcdefghijklmnopqrstuvwxyz"[k]]);
            AnswerIds(h[id - 1 := e], oldest, next, query, limit) == AnswerIds(h, oldest, next, query, limit)
  {
    OtherCase(h[id - 1].message, i, k);
    hide AnswerIds, Lower;
    FoldedAnswer(h[id - 1 := h[id - 1].(message := h[id - 1].message[i := "abcdefghijklmnopqrstuvwxyz"[k]])], h, oldest, next, query, query, limit);
  }

  // ---------- posting lists ----------

  /** The ids in lo .. hi-1 whose entries have all the tokens, ascending. */
  ghost function Matching(h: seq<LogEntry>, lo: nat, hi: nat, tokens: set<string>): seq<nat>
    requires 1 <= lo && hi <= |h| + 1
    decreases hi
  {
    if hi <= lo then []
    else Matching(h, lo, hi - 1, tokens) + if HasTokens(h[hi - 2], tokens) then [hi - 1] else []
  }

  lemma {:induction false} MatchingMembers(h: seq<LogEntry>, lo: nat, hi: nat, tokens: set<string>)
    requires 1 <= lo && hi <= |h| + 1
    ensures forall id :: id in Matching(h, lo, hi, tokens) <==> lo <= id < hi && HasTokens(h[id - 1], tokens)
    ensures forall i :: 0 <= i < |Matching(h, lo, hi, tokens)| ==> lo <= Matching(h, lo, hi, tokens)[i] < hi
    ensures forall i, j :: 0 <= i < j < |Matching(h, lo, hi, tokens)| ==> Matching(h, lo, hi, tokens)[i] < Matching(h, lo, hi, tokens)[j]
    decreases hi
  {
    hide HasTokens;
    if lo < hi { MatchingMembers(h, lo, hi - 1, tokens); }
  }

  lemma {:induction false} MatchingPrefix(h: seq<LogEntry>, more: seq<LogEntry>, lo: nat, hi: nat, tokens: set<string>)
    requires 1 <= lo && hi <= |h| + 1 && h <= more
    ensures Matching(more, lo, hi, tokens) == Matching(h, lo, hi, tokens)
    decreases hi
  {
    hide HasTokens;
    if lo < hi { MatchingPrefix(h, more, lo, hi - 1, tokens); }
  }

  /** The posting lists of a segment are exactly the ids in its range that contain the token. */
  ghost predicate SegmentOk(h: seq<LogEntry>, seg: Segment) {
    && 1 <= seg.firstId <= seg.lastId <= |h|
    && (forall t :: t in seg.index ==> seg.index[t] != [] && seg.index[t] == Matching(h, seg.firstId, seg.lastId + 1, {t}))
    && (forall t :: t !in seg.index ==> Matching(h, seg.firstId, seg.lastId + 1, {t}) == [])
  }

  lemma SegmentStays(h: seq<LogEntry>, more: seq<LogEntry>, seg: Segment)
    requires SegmentOk(h, seg) && h <= more
    ensures SegmentOk(more, seg)
  {
    hide Matching;
    forall t
      ensures Matching(more, seg.firstId, seg.lastId + 1, {t}) == Matching(h, seg.firstId, seg.lastId + 1, {t})
    {
      MatchingPrefix(h, more, seg.firstId, seg.lastId + 1, {t});
    }
  }

  /** The index of the segment with id's entry indexed up to some of its tokens. */
  ghost predicate Indexed(h: seq<LogEntry>, firstId: nat, id: nat, some: set<string>, index: map<string, seq<nat>>)
    requires 1 <= firstId <= id <= |h|
  {
    forall t ::
      var list := Matching(h, firstId, id, {t}) + if t in some then [id] else [];
      if t in index then index[t] != [] && index[t] == list else list == []
  }

  lemma IndexedStart(before: seq<LogEntry>, h: seq<LogEntry>, seg: Segment, id: nat)
    requires id == |h| == |before| + 1 && before <= h
    requires if seg.firstId == id then seg.index == map[] else seg.lastId + 1 == id && SegmentOk(before, seg)
    ensures 1 <= seg.firstId <= id && Indexed(h, seg.firstId, id, {}, seg.index)
  {
    if seg.firstId == id {
      forall t
        ensures Matching(h, seg.firstId, id, {t}) == []
      {
      }
    } else {
      SegmentStays(before, h, seg);
    }
  }

  lemma IndexedDone(h: seq<LogEntry>, firstId: nat, id: nat, index: map<string, seq<nat>>)
    requires 1 <= firstId <= id == |h|
    requires Indexed(h, firstId, id, Elements(Tokens(h[id - 1].message)), index)
    ensures SegmentOk(h, Segment(firstId, id, index))
  {
    hide Matching, Tokens;
    forall t
      ensures Matching(h, firstId, id + 1, {t}) == Matching(h, firstId, id, {t}) + if t in Elements(Tokens(h[id - 1].message)) then [id] else []
    {
      MatchingNext(h, firstId, id, t);
    }
  }

  lemma MatchingNext(h: seq<LogEntry>, lo: nat, id: nat, t: string)
    requires 1 <= lo <= id <= |h|
    ensures Matching(h, lo, id + 1, {t}) == Matching(h, lo, id, {t}) + if t in Tokens(h[id - 1].message) then [id] else []
  {
    hide Tokens;
    assert HasTokens(h[id - 1], {t}) <==> t in Tokens(h[id - 1].message);
  }

  // ---------- intersecting posting lists ----------

  /** Dropping from a match list the ids that are not in another token's list. */
  lemma {:induction false} Intersect(h: seq<LogEntry>, lo: nat, hi: nat, tokens: set<string>, t: string)
    requires 1 <= lo && hi <= |h| + 1
    ensures Kept(Matching(h, lo, hi, tokens), Matching(h, lo, hi, {t})) == Matching(h, lo, hi, tokens + {t})
  {
    MatchingMembers(h, lo, hi, {t});
    IntersectUpTo(h, lo, hi, hi, tokens, t);
  }

  lemma {:induction false} IntersectUpTo(h: seq<LogEntry>, lo: nat, hi: nat, top: nat, tokens: set<string>, t: string)
    requires 1 <= lo && hi <= top <= |h| + 1
    requires forall id :: id in Matching(h, lo, top, {t}) <==> lo <= id < top && HasTokens(h[id - 1], {t})
    ensures Kept(Matching(h, lo, hi, tokens), Matching(h, lo, top, {t})) == Matching(h, lo, hi, tokens + {t})
    decreases hi
  {
    hide HasTokens, Kept;
    if hi <= lo {
      assert Kept([], Matching(h, lo, top, {t})) == [] by { KeptNone(Matching(h, lo, top, {t})); }
    } else {
      IntersectUpTo(h, lo, hi - 1, top, tokens, t);
      HasOneMore(h[hi - 2], tokens, t);
      KeptAppend(Matching(h, lo, hi - 1, tokens), if HasTokens(h[hi - 2], tokens) then [hi - 1] else [], Matching(h, lo, top, {t}));
    }
  }

  lemma HasOneMore(e: LogEntry, tokens: set<string>, t: string)
    ensures HasTokens(e, tokens + {t}) <==> HasTokens(e, tokens) && HasTokens(e, {t})
  {
    hide Tokens;
    if HasTokens(e, tokens + {t}) {
      assert forall s :: s in tokens ==> s in tokens + {t};
      assert t in tokens + {t};
    }
  }

  function Kept(ids: seq<nat>, filter: seq<nat>): seq<nat> {
    if ids == [] then []
    else Kept(ids[..|ids| - 1], filter) + if ids[|ids| - 1] in filter then [ids[|ids| - 1]] else []
  }

  lemma KeptNone(filter: seq<nat>)
    ensures Kept([], filter) == []
  {
  }

  lemma KeptAppend(ids: seq<nat>, last: seq<nat>, filter: seq<nat>)
    requires |last| <= 1
    ensures Kept(ids + last, filter) == Kept(ids, filter) + if last != [] && last[0] in filter then last else []
  {
    if last == [] {
      assert ids + last == ids;
    } else {
      assert (ids + last)[..|ids|] == ids;
    }
  }

  /** More tokens, fewer matches. */
  lemma {:induction false} MatchingShrinks(h: seq<LogEntry>, lo: nat, hi: nat, some: set<string>, all: set<string>)
    requires 1 <= lo && hi <= |h| + 1 && some <= all && Matching(h, lo, hi, some) == []
    ensures Matching(h, lo, hi, all) == []
    decreases hi
  {
    hide HasTokens;
    if lo < hi {
      if HasTokens(h[hi - 2], all) { HasFewer(h[hi - 2], some, all); }
      MatchingShrinks(h, lo, hi - 1, some, all);
    }
  }

  lemma HasFewer(e: LogEntry, some: set<string>, all: set<string>)
    requires some <= all && HasTokens(e, all)
    ensures HasTokens(e, some)
  {
    hide Tokens;
  }

  // ---------- reading posting lists newest first ----------

  /** The live entries of an ascending id list, newest first. */
  ghost function Fetch(h: seq<LogEntry>, ids: seq<nat>, oldest: nat): seq<LogEntry>
    requires forall i :: 0 <= i < |ids| ==> 1 <= ids[i] <= |h|
  {
    if ids == [] then []
    else (if ids[|ids| - 1] >= oldest then [h[ids[|ids| - 1] - 1]] else []) + Fetch(h, ids[..|ids| - 1], oldest)
  }

  /** Fetching a segment's matches gives the linear scan over its live part. */
  lemma {:induction false} FetchIsNewest(h: seq<LogEntry>, lo: nat, hi: nat, tokens: set<string>, oldest: nat)
    requires 1 <= lo && hi <= |h| + 1 && 1 <= oldest
    requires forall i :: 0 <= i < |Matching(h, lo, hi, tokens)| ==> 1 <= Matching(h, lo, hi, tokens)[i] <= |h|
    ensures Fetch(h, Matching(h, lo, hi, tokens), oldest) == Newest(h, if lo < oldest then oldest else lo, hi, AllTokens(tokens))
    decreases hi
  {
    hide HasTokens;
    var c := AllTokens(tokens);
    if hi <= lo {
      assert Fetch(h, [], oldest) == [];
    } else {
      hide Fetch;
      var rest := Matching(h, lo, hi - 1, tokens);
      MatchingMembers(h, lo, hi - 1, tokens);
      FetchIsNewest(h, lo, hi - 1, tokens, oldest);
      NewestFrom(h, lo, hi, oldest, c);
      hide Newest;
      if HasTokens(h[hi - 2], tokens) { FetchLast(h, rest, hi - 1, oldest); } else { assert rest + [] == rest; }
    }
  }

  lemma NewestFrom(h: seq<LogEntry>, lo: nat, hi: nat, oldest: nat, c: Criterion)
    requires 1 <= lo < hi <= |h| + 1 && 1 <= oldest
    ensures var from := if lo < oldest then oldest else lo;
            Newest(h, from, hi, c) == (if hi - 1 >= oldest && Satisfies(c, h[hi - 2]) then [h[hi - 2]] else []) + Newest(h, from, hi - 1, c)
  {
    hide Satisfies;
  }

  lemma FetchLast(h: seq<LogEntry>, ids: seq<nat>, id: nat, oldest: nat)
    requires 1 <= id <= |h| && forall i :: 0 <= i < |ids| ==> 1 <= ids[i] <= |h|
    ensures Fetch(h, ids + [id], oldest) == (if id >= oldest then [h[id - 1]] else []) + Fetch(h, ids, oldest)
  {
    assert (ids + [id])[..|ids|] == ids;
  }

  /** Reading one more id of a list from its newest end, under a limit. */
  lemma FetchStep(h: seq<LogEntry>, ids: seq<nat>, i: nat, oldest: nat)
    requires i < |ids| && forall k :: 0 <= k < |ids| ==> 1 <= ids[k] <= |h|
    ensures Fetch(h, ids[..i + 1], oldest) == (if ids[i] >= oldest then [h[ids[i] - 1]] else []) + Fetch(h, ids[..i], oldest)
  {
    assert ids[..i + 1][..i] == ids[..i];
  }
}
