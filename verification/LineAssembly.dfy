/** Assembling lines from a byte stream that arrives in pieces, with a carried partial line. */
module LineAssembly {
  import opened Basics

  const MAX_LINE_BYTES: nat := 1_048_576
  const READ_CHUNK: nat := 65_536

  // ---------- the reference: splitting a whole stream ----------

  /** The lines ended by '\n', without it, and what follows the last '\n'. */
  datatype Lines = Lines(complete: seq<string>, tail: string)

  function Split(s: string): Lines {
    if s == [] then Lines([], [])
    else
      var l := Split(DropLast(s));
      if Last(s) == '\n' then Lines(l.complete + [l.tail], []) else Lines(l.complete, l.tail + [Last(s)])
  }

  function Join(complete: seq<string>): string {
    if complete == [] then [] else Join(DropLast(complete)) + Last(complete) + ['\n']
  }

  /** Splitting loses nothing, and the pieces have no newline in them. */
  lemma {:induction false} SplitJoins(s: string)
    ensures Join(Split(s).complete) + Split(s).tail == s
    ensures '\n' !in Split(s).tail && forall i :: 0 <= i < |Split(s).complete| ==> '\n' !in Split(s).complete[i]
  {
    if s != [] {
      var l := Split(DropLast(s));
      SplitJoins(DropLast(s));
      assert s == DropLast(s) + [Last(s)];
      if Last(s) == '\n' { assert DropLast(l.complete + [l.tail]) == l.complete; }
    }
  }

  /** The tail carries everything that later bytes need. */
  lemma {:induction false} SplitConcat(a: string, b: string)
    ensures Split(a + b) == Lines(Split(a).complete + Split(Split(a).tail + b).complete, Split(Split(a).tail + b).tail)
  {
    if b == [] {
      assert a + b == a && Split(a).tail + b == Split(a).tail;
      SplitJoins(a);
      NoNewline(Split(a).tail);
    } else {
      SplitConcat(a, DropLast(b));
      assert DropLast(a + b) == a + DropLast(b) && Last(a + b) == Last(b);
      assert DropLast(Split(a).tail + b) == Split(a).tail + DropLast(b);
    }
  }

  lemma {:induction false} NoNewline(s: string)
    requires '\n' !in s
    ensures Split(s) == Lines([], s)
  {
    if s != [] {
      assert s == DropLast(s) + [Last(s)];
      NoNewline(DropLast(s));
    }
  }

  // ---------- assembly piece by piece ----------

  /** One trailing '\r' is not part of the line. */
  function Strip(line: string): string {
    if line != [] && Last(line) == '\r' then DropLast(line) else line
  }

  function StripAll(lines: seq<string>): (r: seq<string>)
    ensures |r| == |lines| && forall i :: 0 <= i < |r| ==> r[i] == Strip(lines[i])
  {
    seq(|lines|, i requires 0 <= i < |lines| => Strip(lines[i]))
  }

  datatype Assembly = Assembly(pending: string, emitted: seq<string>)

  const START := Assembly([], [])

  /** flush_pending after a read: complete lines go out, an over-long tail is cut off. */
  function Feed(a: Assembly, chunk: string): Assembly {
    var l := Split(a.pending + chunk);
    if |l.tail| > MAX_LINE_BYTES then Assembly([], a.emitted + StripAll(l.complete) + [l.tail])
    else Assembly(l.tail, a.emitted + StripAll(l.complete))
  }

  function FeedAll(a: Assembly, chunks: seq<string>): Assembly {
    if chunks == [] then a else Feed(FeedAll(a, DropLast(chunks)), Last(chunks))
  }

  function Concat(chunks: seq<string>): string {
    if chunks == [] then [] else Concat(DropLast(chunks)) + Last(chunks)
  }

  lemma FeedAllLast(a: Assembly, chunks: seq<string>, chunk: string)
    ensures FeedAll(a, chunks + [chunk]) == Feed(FeedAll(a, chunks), chunk)
    ensures Concat(chunks + [chunk]) == Concat(chunks) + chunk
  {
    assert DropLast(chunks + [chunk]) == chunks;
  }

  /** What was emitted before does not matter. */
  lemma {:induction false} FeedAllAfter(pending: string, emitted: seq<string>, chunks: seq<string>)
    ensures FeedAll(Assembly(pending, emitted), chunks) ==
              Assembly(FeedAll(Assembly(pending, []), chunks).pending, emitted + FeedAll(Assembly(pending, []), chunks).emitted)
  {
    hide Feed;
    if chunks != [] {
      FeedAllAfter(pending, emitted, DropLast(chunks));
      var a := FeedAll(Assembly(pending, []), DropLast(chunks));
      FeedAfter(a.pending, emitted, a.emitted, Last(chunks));
    }
  }

  lemma FeedAfter(pending: string, before: seq<string>, emitted: seq<string>, chunk: string)
    ensures Feed(Assembly(pending, before + emitted), chunk) ==
              Assembly(Feed(Assembly(pending, emitted), chunk).pending, before + Feed(Assembly(pending, emitted), chunk).emitted)
  {
    hide Split;
  }

  // ---------- independence of the chunking ----------

  /** No complete line is longer than the limit, and the tail is at most one byte over it. */
  predicate Fits(s: string) {
    (forall i :: 0 <= i < |Split(s).complete| ==> |Split(s).complete[i]| <= MAX_LINE_BYTES) && |Split(s).tail| <= MAX_LINE_BYTES + 1
  }

  /** The stream fed whole. */
  function Whole(s: string): Assembly {
    Feed(START, s)
  }

  lemma WholeIsSplit(s: string)
    requires |Split(s).tail| <= MAX_LINE_BYTES
    ensures Whole(s) == Assembly(Split(s).tail, StripAll(Split(s).complete))
    ensures Whole(s) == Assembly(Split(s).tail, [] + StripAll(Split(s).complete))
  {
    assert [] + s == s && [] + StripAll(Split(s).complete) == StripAll(Split(s).complete);
  }

  /** A shorter stream fits too, and a tail one byte over the limit can only be the very end. */
  lemma FitsPrefix(a: string, b: string)
    requires Fits(a + b)
    ensures Fits(a) && (b != [] ==> |Split(a).tail| <= MAX_LINE_BYTES)
  {
    hide Split;
    SplitConcat(a, b);
    SplitJoins(a);
    NoNewline(Split(a).tail);
    TailGrows(Split(a).tail, b);
    var all, mine, more := Split(a + b).complete, Split(a).complete, Split(Split(a).tail + b).complete;
    assert forall i :: 0 <= i < |mine| ==> all[i] == mine[i];
    if more != [] { assert all[|mine|] == more[0]; }
  }

  /** The first piece of tail + b starts with the tail. */
  lemma {:induction false} TailGrows(tail: string, b: string)
    requires Split(tail) == Lines([], tail)
    ensures var l := Split(tail + b);
            if l.complete == [] then l.tail == tail + b else |l.complete[0]| >= |tail|
  {
    hide Split;
    if b == [] {
      assert tail + b == tail;
    } else {
      TailGrows(tail, DropLast(b));
      assert tail + b == tail + DropLast(b) + [Last(b)];
      SplitLast(tail + DropLast(b), Last(b));
      var l := Split(tail + DropLast(b));
      if Last(b) == '\n' { assert l.complete != [] ==> (l.complete + [l.tail])[0] == l.complete[0]; }
    }
  }

  lemma SplitLast(s: string, c: char)
    ensures var l := Split(s);
            Split(s + [c]) == if c == '\n' then Lines(l.complete + [l.tail], []) else Lines(l.complete, l.tail + [c])
  {
    assert DropLast(s + [c]) == s;
  }

  /** One more chunk on a stream that fits. */
  lemma FeedFits(a: string, b: string)
    requires Fits(a + b)
    ensures Feed(Whole(a), b) == Whole(a + b)
  {
    hide Split;
    FitsPrefix(a, b);
    if b == [] {
      assert a + b == a;
      WholePending(a);
      FeedNothing(Whole(a));
    } else {
      FeedWhole(a, b);
    }
  }

  /** One more chunk when nothing has been cut off yet. */
  lemma FeedWhole(a: string, b: string)
    requires |Split(a).tail| <= MAX_LINE_BYTES
    ensures Feed(Whole(a), b) == Whole(a + b)
  {
    hide Split;
    SplitConcat(a, b);
    WholeIsSplit(a);
    FeedSplit(a, b, []);
  }

  lemma WholePending(s: string)
    ensures |Whole(s).pending| <= MAX_LINE_BYTES && Split(Whole(s).pending) == Lines([], Whole(s).pending)
  {
    assert [] + s == s;
    SplitJoins(s);
    NoNewline(Split(s).tail);
  }

  /** Feeding b after the pieces of a, in terms of splitting a + b. */
  lemma FeedSplit(a: string, b: string, before: seq<string>)
    requires Split(a + b) == Lines(Split(a).complete + Split(Split(a).tail + b).complete, Split(Split(a).tail + b).tail)
    ensures Feed(Assembly(Split(a).tail, before + StripAll(Split(a).complete)), b) == Feed(Assembly([], before), a + b)
  {
    hide Split;
    var mine, more := Split(a).complete, Split(Split(a).tail + b).complete;
    assert [] + (a + b) == a + b;
    assert StripAll(mine + more) == StripAll(mine) + StripAll(more);
    assert (before + StripAll(mine)) + StripAll(more) == before + StripAll(mine + more);
  }

  lemma FeedNothing(a: Assembly)
    requires |a.pending| <= MAX_LINE_BYTES && Split(a.pending) == Lines([], a.pending)
    ensures Feed(a, []) == a
  {
    assert a.pending + [] == a.pending;
    assert a.emitted + StripAll([]) == a.emitted;
  }

  lemma {:induction false} FeedAllIsWhole(chunks: seq<string>)
    requires Fits(Concat(chunks))
    ensures FeedAll(START, chunks) == Whole(Concat(chunks))
  {
    hide Feed, Split, Whole;
    if chunks == [] {
      assert Whole([]) == START by { NothingFed(); }
    } else {
      FitsPrefix(Concat(DropLast(chunks)), Last(chunks));
      FeedAllIsWhole(DropLast(chunks));
      FeedFits(Concat(DropLast(chunks)), Last(chunks));
    }
  }

  lemma NothingFed()
    ensures Whole([]) == START
  {
    assert START.pending + [] == [] && START.emitted + StripAll([]) == [];
  }

  /** A cutting of the stream into reads as the watcher makes them. */
  ghost predicate Reads(chunks: seq<string>, s: string) {
    Concat(chunks) == s && forall i :: 0 <= i < |chunks| ==> 0 < |chunks[i]| <= READ_CHUNK
  }

  /** Every way of cutting the stream into reads gives the same lines and the same partial line. */
  ghost predicate Unambiguous(s: string) {
    forall xs, ys :: Reads(xs, s) && Reads(ys, s) ==> FeedAll(START, xs) == FeedAll(START, ys)
  }

  /** The chunking does not matter exactly when the stream fits. */
  lemma ChunkingDoesNotMatter(s: string)
    ensures Unambiguous(s) <==> Fits(s)
  {
    if Fits(s) {
      forall xs, ys | Reads(xs, s) && Reads(ys, s)
        ensures FeedAll(START, xs) == FeedAll(START, ys)
      {
        FeedAllIsWhole(xs);
        FeedAllIsWhole(ys);
      }
    } else {
      var p := FirstOverlong(s);
      TwoReadings(s, p);
    }
  }

  /** When all lines are within the limit the result is the plain split of the stream. */
  lemma LinesAreSplit(chunks: seq<string>)
    requires Fits(Concat(chunks)) && |Split(Concat(chunks)).tail| <= MAX_LINE_BYTES
    ensures FeedAll(START, chunks) == Assembly(Split(Concat(chunks)).tail, StripAll(Split(Concat(chunks)).complete))
  {
    FeedAllIsWhole(chunks);
    WholeIsSplit(Concat(chunks));
  }

  // ---------- a text as it was written ----------

  /** Lines with what ends them. */
  function Written(lines: seq<string>, ends: seq<string>): string
    requires |lines| == |ends|
  {
    if lines == [] then [] else Written(DropLast(lines), DropLast(ends)) + (Last(lines) + Last(ends))
  }

  /** Lines of text ended by "\n" or "\r\n", in any mixture. */
  ghost predicate TextLines(lines: seq<string>, ends: seq<string>) {
    && |lines| == |ends|
    && (forall i :: 0 <= i < |lines| ==> ends[i] == "\n" || ends[i] == "\r\n")
    && (forall i :: 0 <= i < |lines| ==> |lines[i]| < 1_048_576 && '\n' !in lines[i])
    && (forall i :: 0 <= i < |lines| && lines[i] != [] ==> lines[i][|lines[i]| - 1] != '\r')
  }

  /** A line as it stands before its '\n'. */
  function Body(line: string, end: string): string
    requires end != []
  {
    line + DropLast(end)
  }

  function Bodies(lines: seq<string>, ends: seq<string>): (r: seq<string>)
    requires |lines| == |ends| && forall i :: 0 <= i < |ends| ==> ends[i] != []
    ensures |r| == |lines| && forall i :: 0 <= i < |r| ==> r[i] == Body(lines[i], ends[i])
  {
    seq(|lines|, i requires 0 <= i < |lines| => Body(lines[i], ends[i]))
  }

  lemma JoinLast(complete: seq<string>, line: string)
    ensures Join(complete + [line]) == Join(complete) + line + ['\n']
  {
    assert DropLast(complete + [line]) == complete;
  }

  lemma BodiesLast(lines: seq<string>, ends: seq<string>)
    requires TextLines(lines, ends) && lines != []
    ensures TextLines(DropLast(lines), DropLast(ends))
    ensures Bodies(lines, ends) == Bodies(DropLast(lines), DropLast(ends)) + [Body(Last(lines), Last(ends))]
    ensures Last(ends) == DropLast(Last(ends)) + ['\n']
  {
    hide Body;
  }

  lemma {:induction false} WrittenIsJoin(lines: seq<string>, ends: seq<string>)
    requires TextLines(lines, ends)
    ensures Written(lines, ends) == Join(Bodies(lines, ends))
  {
    if lines != [] {
      var l, e, line, end := DropLast(lines), DropLast(ends), Last(lines), Last(ends);
      BodiesLast(lines, ends);
      WrittenIsJoin(l, e);
      hide TextLines, Join, Bodies;
      JoinLast(Bodies(l, e), Body(line, end));
      ConcatAssociative(line, DropLast(end), ['\n']);
      ConcatAssociative(Written(l, e), Body(line, end), ['\n']);
    }
  }

  lemma BodyOfLine(line: string, end: string)
    requires end == "\n" || end == "\r\n"
    requires '\n' !in line && (line != [] ==> line[|line| - 1] != '\r')
    ensures '\n' !in Body(line, end) && Strip(Body(line, end)) == line && |Body(line, end)| <= |line| + 1
  {
    if end == "\n" {
      assert Body(line, end) == line;
    } else {
      assert DropLast(end) == "\r";
      assert DropLast(line + "\r") == line;
    }
  }

  lemma BodiesStrip(lines: seq<string>, ends: seq<string>)
    requires TextLines(lines, ends)
    ensures StripAll(Bodies(lines, ends)) == lines && forall i :: 0 <= i < |lines| ==> |Bodies(lines, ends)[i]| <= MAX_LINE_BYTES
  {
    hide Strip, Body;
    forall i | 0 <= i < |lines|
      ensures |Bodies(lines, ends)[i]| <= MAX_LINE_BYTES && Strip(Bodies(lines, ends)[i]) == lines[i]
    {
      BodyOfLine(lines[i], ends[i]);
    }
  }

  /** However a text is cut into reads, exactly its lines are handed on, without what ended them, and
      what comes after the last of them is pending. */
  lemma {:induction false} LinesComeThrough(lines: seq<string>, ends: seq<string>, tail: string, chunks: seq<string>)
    requires TextLines(lines, ends) && '\n' !in tail && |tail| <= 1_048_576
    requires Concat(chunks) == Written(lines, ends) + tail
    ensures FeedAll(START, chunks) == Assembly(tail, lines)
  {
    hide Split, StripAll, FeedAll, Concat, Written, TextLines, Bodies;
    WrittenSplits(lines, ends, tail);
    BodiesStrip(lines, ends);
    LinesAreSplit(chunks);
  }

  lemma WrittenSplits(lines: seq<string>, ends: seq<string>, tail: string)
    requires TextLines(lines, ends) && '\n' !in tail
    ensures Split(Written(lines, ends) + tail) == Lines(Bodies(lines, ends), tail)
  {
    hide Split;
    var bodies := Bodies(lines, ends);
    forall i | 0 <= i < |bodies|
      ensures '\n' !in bodies[i]
    {
      BodyOfLine(lines[i], ends[i]);
    }
    WrittenIsJoin(lines, ends);
    SplitOfJoin(bodies);
    SplitConcat(Join(bodies), tail);
    NoNewline(tail);
    assert [] + tail == tail && bodies + [] == bodies;
  }

  // ---------- over-long lines ----------

  /** p is the start of a line that has more than the limit and is followed by something. */
  ghost predicate OverlongAt(s: string, p: nat) {
    && p + MAX_LINE_BYTES + 2 <= |s|
    && Split(s[..p]).tail == [] && Fits(s[..p])
    && '\n' !in s[p..p + MAX_LINE_BYTES + 1]
  }

  /** A stream that does not fit has a first line that is too long. */
  lemma {:induction false} FirstOverlong(s: string) returns (p: nat)
    requires !Fits(s)
    ensures OverlongAt(s, p)
  {
    var rest := DropLast(s);
    assert s == rest + [Last(s)];
    if !Fits(rest) {
      hide Fits, Split;
      p := FirstOverlong(rest);
      SamePrefix(rest, Last(s), p);
    } else {
      OverlongTail(rest, Last(s));
      SplitJoins(rest);
      hide Fits, Split;
      p := |rest| - |Split(rest).tail|;
      TailStart(rest, p);
      OverlongEnd(rest, Last(s), p);
    }
  }

  lemma SamePrefix(s: string, c: char, p: nat)
    requires OverlongAt(s, p)
    ensures OverlongAt(s + [c], p)
  {
    hide Fits, Split;
    assert (s + [c])[..p] == s[..p] && (s + [c])[p..p + MAX_LINE_BYTES + 1] == s[p..p + MAX_LINE_BYTES + 1];
  }

  /** When one more byte is what no longer fits, the tail was over the limit before it. */
  lemma OverlongTail(s: string, c: char)
    requires Fits(s) && !Fits(s + [c])
    ensures |Split(s).tail| == MAX_LINE_BYTES + 1
  {
    SplitLast(s, c);
    hide Split;
    var l := Split(s);
    if c == '\n' { assert forall i :: 0 <= i < |l.complete| ==> (l.complete + [l.tail])[i] == l.complete[i]; }
  }

  lemma OverlongEnd(s: string, c: char, p: nat)
    requires |Split(s).tail| == MAX_LINE_BYTES + 1 && p == |s| - |Split(s).tail| && '\n' !in Split(s).tail
    requires Join(Split(s).complete) + Split(s).tail == s && Split(s[..p]).tail == [] && Fits(s[..p])
    ensures OverlongAt(s + [c], p)
  {
    hide Split, Fits;
    assert (s + [c])[..p] == s[..p];
    assert (s + [c])[p..p + MAX_LINE_BYTES + 1] == s[p..] == Split(s).tail;
  }

  /** The stream up to where its tail starts. */
  lemma TailStart(s: string, p: nat)
    requires p == |s| - |Split(s).tail| && Fits(s)
    requires Join(Split(s).complete) + Split(s).tail == s
    ensures Split(s[..p]) == Lines(Split(s).complete, []) && Fits(s[..p])
  {
    assert s[..p] == Join(Split(s).complete);
    SplitJoins(s);
    SplitOfJoin(Split(s).complete);
  }

  lemma {:induction false} SplitOfJoin(complete: seq<string>)
    requires forall i :: 0 <= i < |complete| ==> '\n' !in complete[i]
    ensures Split(Join(complete)) == Lines(complete, [])
  {
    hide Split;
    if complete == [] {
      SplitEmpty();
    } else {
      var before, line := DropLast(complete), Last(complete);
      SplitOfJoin(before);
      SplitConcat(Join(before), line);
      assert [] + line == line;
      NoNewline(line);
      SplitLast(Join(before) + line, '\n');
      hide Join;
      assert before + [] == before && complete == before + [line];
    }
  }

  lemma SplitEmpty()
    ensures Split([]) == Lines([], [])
  {
  }

  /** The stream byte by byte. */
  function Bytes(s: string): (r: seq<string>)
    ensures |r| == |s| && forall i :: 0 <= i < |r| ==> r[i] == [s[i]]
  {
    seq(|s|, i requires 0 <= i < |s| => [s[i]])
  }

  lemma {:induction false} BytesAreReads(s: string)
    ensures Reads(Bytes(s), s)
  {
    if s != [] {
      BytesAreReads(DropLast(s));
      assert DropLast(Bytes(s)) == Bytes(DropLast(s)) && s == DropLast(s) + [Last(s)];
    }
  }

  /** Byte by byte but for two bytes at n - 1 that are read together. */
  ghost function PairAt(s: string, n: nat): seq<string>
    requires 0 < n < |s|
  {
    (Bytes(s[..n - 1]) + [s[n - 1..n + 1]]) + Bytes(s[n + 1..])
  }

  lemma PairIsReads(s: string, n: nat)
    requires 0 < n < |s|
    ensures Reads(PairAt(s, n), s)
  {
    var pair := s[n - 1..n + 1];
    BytesAreReads(s[..n - 1]);
    BytesAreReads(s[n + 1..]);
    OneRead(pair);
    hide Bytes, Reads;
    ReadsConcat(Bytes(s[..n - 1]), s[..n - 1], [pair], pair);
    ReadsConcat(Bytes(s[..n - 1]) + [pair], s[..n - 1] + pair, Bytes(s[n + 1..]), s[n + 1..]);
    assert s == (s[..n - 1] + pair) + s[n + 1..];
  }

  lemma OneRead(chunk: string)
    requires 0 < |chunk| <= READ_CHUNK
    ensures Reads([chunk], chunk)
  {
    assert DropLast([chunk]) == [] && [] + chunk == chunk;
  }

  lemma ReadsConcat(xs: seq<string>, a: string, ys: seq<string>, b: string)
    requires Reads(xs, a) && Reads(ys, b)
    ensures Reads(xs + ys, a + b)
  {
    hide Concat;
    ConcatConcat(xs, ys);
  }

  lemma {:induction false} FeedAllConcat(a: Assembly, xs: seq<string>, ys: seq<string>)
    ensures FeedAll(a, xs + ys) == FeedAll(FeedAll(a, xs), ys)
  {
    hide Feed;
    if ys == [] {
      assert xs + ys == xs;
    } else {
      FeedAllConcat(a, xs, DropLast(ys));
      assert DropLast(xs + ys) == xs + DropLast(ys) && Last(xs + ys) == Last(ys);
    }
  }

  /** The state n bytes into a stream that fits up to the byte before. */
  lemma AfterBytes(s: string, n: nat)
    requires 0 < n <= |s| && Fits(s[..n - 1]) && |Split(s[..n - 1]).tail| <= MAX_LINE_BYTES
    ensures FeedAll(START, Bytes(s[..n])) == Whole(s[..n])
    ensures n < |s| ==> FeedAll(START, Bytes(s[..n - 1]) + [s[n - 1..n + 1]]) == Whole(s[..n + 1])
  {
    hide Split, Feed, Whole, Fits;
    BytesAreReads(s[..n - 1]);
    FeedAllIsWhole(Bytes(s[..n - 1]));
    FeedWhole(s[..n - 1], [s[n - 1]]);
    assert s[..n] == s[..n - 1] + [s[n - 1]] && Bytes(s[..n]) == Bytes(s[..n - 1]) + [[s[n - 1]]];
    FeedAllLast(START, Bytes(s[..n - 1]), [s[n - 1]]);
    if n < |s| {
      FeedWhole(s[..n - 1], s[n - 1..n + 1]);
      assert s[..n + 1] == s[..n - 1] + s[n - 1..n + 1];
      FeedAllLast(START, Bytes(s[..n - 1]), s[n - 1..n + 1]);
    }
  }

  /** Reading the last byte before an over-long line is cut alone or together with the next one shows
      in what is emitted. */
  lemma TwoReadings(s: string, p: nat)
    requires OverlongAt(s, p)
    ensures !Unambiguous(s)
  {
    hide Split, Feed, Whole, Fits, FeedAll, Concat, Bytes, Reads;
    var n := p + MAX_LINE_BYTES + 1;
    var rest := Bytes(s[n + 1..]);
    BytesAreReads(s);
    PairIsReads(s, n);
    OverlongFits(s, p);
    AfterBytes(s, n);
    ByteByByte(s, n);
    FeedAllConcat(START, Bytes(s[..n - 1]) + [s[n - 1..n + 1]], rest);
    var lines, x, y := StripAll(Split(s[..p]).complete), Feed(Whole(s[..n]), [s[n]]), Whole(s[..n + 1]);
    CutAt(s, p, MAX_LINE_BYTES + 1);
    FeedAllAfter(x.pending, x.emitted, rest);
    FeedAllAfter(y.pending, y.emitted, rest);
    NextByte(lines + [s[p..n]], s[n]);
    if s[n] != '\n' {
      assert s[p..n + 1] == s[p..n] + [s[n]];
      CutAt(s, p, MAX_LINE_BYTES + 2);
      DifferentAt(lines, s[p..n], s[p..n + 1], FeedAll(x, rest).emitted, FeedAll(y, rest).emitted);
    } else {
      WholeLine(s, p);
      assert |FeedAll(x, rest).emitted| != |FeedAll(y, rest).emitted|;
    }
    assert FeedAll(START, Bytes(s)) == FeedAll(x, rest) && FeedAll(START, PairAt(s, n)) == FeedAll(y, rest);
  }

  lemma OverlongFits(s: string, p: nat)
    requires OverlongAt(s, p)
    ensures var n := p + MAX_LINE_BYTES; Fits(s[..n]) && |Split(s[..n]).tail| <= MAX_LINE_BYTES
  {
    SplitAt(s, p, MAX_LINE_BYTES);
    hide Split;
  }

  lemma ByteByByte(s: string, n: nat)
    requires n < |s|
    ensures FeedAll(START, Bytes(s)) == FeedAll(Feed(FeedAll(START, Bytes(s[..n])), [s[n]]), Bytes(s[n + 1..]))
  {
    assert Bytes(s) == (Bytes(s[..n]) + [[s[n]]]) + Bytes(s[n + 1..]);
    FeedAllLast(START, Bytes(s[..n]), [s[n]]);
    hide FeedAll, Feed, Bytes;
    FeedAllConcat(START, Bytes(s[..n]) + [[s[n]]], Bytes(s[n + 1..]));
  }

  /** One byte with nothing pending. */
  lemma NextByte(before: seq<string>, c: char)
    ensures Feed(Assembly([], before), [c]) == if c == '\n' then Assembly([], before + [[]]) else Assembly([c], before)
  {
    assert DropLast([c]) == [] && Split([]) == Lines([], []);
    assert [] + [c] == [c];
  }

  lemma DifferentAt(lines: seq<string>, a: string, b: string, xs: seq<string>, ys: seq<string>)
    requires lines + [a] <= xs && lines + [b] <= ys && |a| != |b|
    ensures xs != ys
  {
    assert xs[|lines|] == (lines + [a])[|lines|] && ys[|lines|] == (lines + [b])[|lines|];
  }

  lemma WholeOf(s: string, l: Lines)
    requires Split(s) == l
    ensures Whole(s) == if |l.tail| > MAX_LINE_BYTES then Assembly([], StripAll(l.complete) + [l.tail]) else Assembly(l.tail, StripAll(l.complete))
  {
    hide Split;
    assert [] + s == s;
    assert [] + StripAll(l.complete) == StripAll(l.complete);
  }

  /** A line without newline is the tail. */
  lemma SplitAt(s: string, p: nat, n: nat)
    requires p + n <= |s| && Split(s[..p]).tail == [] && '\n' !in s[p..p + n]
    ensures Split(s[..p + n]) == Lines(Split(s[..p]).complete, s[p..p + n])
  {
    hide Split;
    var line := s[p..p + n];
    assert s[..p + n] == s[..p] + line;
    SplitConcat(s[..p], line);
    NoNewline(line);
    assert [] + line == line;
    assert Split(s[..p]).complete + [] == Split(s[..p]).complete;
  }

  /** Reading up to n > limit bytes into a line without newline cuts it there. */
  lemma CutAt(s: string, p: nat, n: nat)
    requires p + n <= |s| && Split(s[..p]).tail == [] && '\n' !in s[p..p + n] && n > MAX_LINE_BYTES
    ensures Whole(s[..p + n]) == Assembly([], StripAll(Split(s[..p]).complete) + [s[p..p + n]])
  {
    hide Split;
    SplitAt(s, p, n);
    WholeOf(s[..p + n], Lines(Split(s[..p]).complete, s[p..p + n]));
  }

  /** Reading the newline along with the over-long line emits it whole. */
  lemma WholeLine(s: string, p: nat)
    requires OverlongAt(s, p) && s[p + MAX_LINE_BYTES + 1] == '\n'
    ensures Whole(s[..p + MAX_LINE_BYTES + 2]) == Assembly([], StripAll(Split(s[..p]).complete) + [Strip(s[p..p + MAX_LINE_BYTES + 1])])
  {
    hide Split, Fits;
    var n := p + MAX_LINE_BYTES + 1;
    SplitAt(s, p, MAX_LINE_BYTES + 1);
    SplitLast(s[..n], '\n');
    assert s[..n + 1] == s[..n] + ['\n'];
    var complete, line := Split(s[..p]).complete, s[p..n];
    WholeOf(s[..n + 1], Lines(complete + [line], []));
    assert StripAll(complete + [line]) == StripAll(complete) + [Strip(line)];
  }

  // ---------- bounds and conservation, over-long lines included ----------

  function Terminated(complete: seq<string>): (r: seq<string>)
    ensures |r| == |complete| && forall i :: 0 <= i < |r| ==> r[i] == complete[i] + ['\n']
  {
    seq(|complete|, i requires 0 <= i < |complete| => complete[i] + ['\n'])
  }

  /** The bytes that went into each emission of one read, terminators included. */
  function Pieces(a: Assembly, chunk: string): seq<string> {
    var l := Split(a.pending + chunk);
    Terminated(l.complete) + if |l.tail| > MAX_LINE_BYTES then [l.tail] else []
  }

  function AllPieces(chunks: seq<string>): seq<string> {
    if chunks == [] then [] else AllPieces(DropLast(chunks)) + Pieces(FeedAll(START, DropLast(chunks)), Last(chunks))
  }

  /** A piece without its '\n' or "\r\n". */
  function Unterminated(piece: string): string {
    if piece != [] && Last(piece) == '\n' then Strip(DropLast(piece)) else piece
  }

  lemma {:induction false} JoinIsConcat(complete: seq<string>)
    ensures Concat(Terminated(complete)) == Join(complete)
  {
    if complete != [] {
      JoinIsConcat(DropLast(complete));
      assert Terminated(complete) == Terminated(DropLast(complete)) + [Last(complete) + ['\n']];
      assert DropLast(Terminated(complete)) == Terminated(DropLast(complete));
      assert Last(Terminated(complete)) == Last(complete) + ['\n'];
    }
  }

  /** One read: emissions with their terminators plus the pending part are exactly the bytes that
      came in. */
  lemma FeedConserves(a: Assembly, chunk: string)
    ensures Concat(Pieces(a, chunk)) + Feed(a, chunk).pending == a.pending + chunk
  {
    var l := Split(a.pending + chunk);
    SplitJoins(a.pending + chunk);
    JoinIsConcat(l.complete);
    hide Split;
    if |l.tail| > MAX_LINE_BYTES {
      FeedAllLast(START, Terminated(l.complete), l.tail);
    } else {
      assert Terminated(l.complete) + [] == Terminated(l.complete);
    }
  }

  /** One read: what is emitted are the pieces without terminators, none longer than what was pending
      and read together; the pending part stays within the limit. */
  lemma FeedEmits(a: Assembly, chunk: string)
    ensures |Feed(a, chunk).pending| <= MAX_LINE_BYTES
    ensures |Feed(a, chunk).emitted| == |a.emitted| + |Pieces(a, chunk)| && a.emitted <= Feed(a, chunk).emitted
    ensures forall i :: 0 <= i < |Pieces(a, chunk)| ==>
              && Feed(a, chunk).emitted[|a.emitted| + i] == Unterminated(Pieces(a, chunk)[i])
              && |Pieces(a, chunk)[i]| <= |a.pending| + |chunk|
  {
    var l := Split(a.pending + chunk);
    SplitJoins(a.pending + chunk);
    hide Split;
    var pieces, emitted := Pieces(a, chunk), Feed(a, chunk).emitted;
    forall i | 0 <= i < |pieces|
      ensures emitted[|a.emitted| + i] == Unterminated(pieces[i]) && |pieces[i]| <= |a.pending + chunk|
    {
      if i < |l.complete| {
        assert pieces[i] == l.complete[i] + ['\n'] && DropLast(pieces[i]) == l.complete[i];
        assert emitted[|a.emitted| + i] == StripAll(l.complete)[i];
        PieceFits(l.complete, i);
      } else {
        NotTerminated(l.tail);
      }
    }
  }

  lemma NotTerminated(s: string)
    requires '\n' !in s
    ensures Unterminated(s) == s
  {
    if s != [] { assert Last(s) in s; }
  }

  lemma {:induction false} PieceFits(complete: seq<string>, i: nat)
    requires i < |complete|
    ensures |complete[i]| + 1 <= |Join(complete)|
  {
    if i < |complete| - 1 { PieceFits(DropLast(complete), i); }
  }

  lemma {:induction false} ConcatConcat(xs: seq<string>, ys: seq<string>)
    ensures Concat(xs + ys) == Concat(xs) + Concat(ys)
  {
    if ys == [] {
      assert xs + ys == xs;
    } else {
      var rest, last := DropLast(ys), Last(ys);
      ConcatConcat(xs, rest);
      ConcatLast(xs, ys);
      FeedAllLast(START, xs + rest, last);
      FeedAllLast(START, rest, last);
      hide Concat;
      ConcatAssociative(Concat(xs), Concat(rest), last);
    }
  }

  /** All reads: nothing is lost, invented or reordered. */
  lemma {:induction false} RunConserves(chunks: seq<string>)
    ensures Concat(AllPieces(chunks)) + FeedAll(START, chunks).pending == Concat(chunks)
  {
    if chunks == [] {
      assert Concat([]) + [] == [];
    } else {
      hide Feed, Pieces;
      var a, chunk := FeedAll(START, DropLast(chunks)), Last(chunks);
      RunConserves(DropLast(chunks));
      FeedConserves(a, chunk);
      ConcatConcat(AllPieces(DropLast(chunks)), Pieces(a, chunk));
      ConservedChain(Concat(AllPieces(DropLast(chunks))), a.pending, chunk, Concat(Pieces(a, chunk)), Feed(a, chunk).pending);
    }
  }

  /** All reads: the lines are the pieces without terminators, and memory stays bounded. */
  lemma {:induction false} RunEmits(chunks: seq<string>)
    ensures |FeedAll(START, chunks).pending| <= 1_048_576
    ensures |FeedAll(START, chunks).emitted| == |AllPieces(chunks)|
    ensures forall i :: 0 <= i < |AllPieces(chunks)| ==> FeedAll(START, chunks).emitted[i] == Unterminated(AllPieces(chunks)[i])
  {
    if chunks != [] {
      hide Feed, Pieces, Unterminated;
      RunEmits(DropLast(chunks));
      FeedEmits(FeedAll(START, DropLast(chunks)), Last(chunks));
      PiecesAppend(DropLast(chunks), Last(chunks));
    }
  }

  lemma PiecesAppend(chunks: seq<string>, chunk: string)
    requires |FeedAll(START, chunks).emitted| == |AllPieces(chunks)|
    requires forall i :: 0 <= i < |AllPieces(chunks)| ==> FeedAll(START, chunks).emitted[i] == Unterminated(AllPieces(chunks)[i])
    ensures var all, emitted := AllPieces(chunks) + Pieces(FeedAll(START, chunks), chunk), Feed(FeedAll(START, chunks), chunk).emitted;
            |emitted| == |all| && forall i :: 0 <= i < |all| ==> emitted[i] == Unterminated(all[i])
  {
    var a := FeedAll(START, chunks);
    FeedEmits(a, chunk);
    hide Feed, Pieces, Unterminated, FeedAll, AllPieces;
    var all, emitted := AllPieces(chunks) + Pieces(a, chunk), Feed(a, chunk).emitted;
    forall i | 0 <= i < |all| ensures emitted[i] == Unterminated(all[i]) {
      if i < |a.emitted| {
        assert emitted[i] == a.emitted[i];
      } else {
        var k := i - |a.emitted|;
        assert emitted[|a.emitted| + k] == Unterminated(Pieces(a, chunk)[k]);
      }
    }
  }

  lemma ConservedChain(done: string, pending: string, chunk: string, out: string, next: string)
    requires out + next == pending + chunk
    ensures (done + out) + next == (done + pending) + chunk
  {
    assert (done + out) + next == done + (out + next);
    assert done + (pending + chunk) == (done + pending) + chunk;
  }

  /** No emitted line is longer than the limit plus one read. */
  lemma {:induction false} LineBound(chunks: seq<string>, i: nat)
    requires forall k :: 0 <= k < |chunks| ==> |chunks[k]| <= READ_CHUNK
    requires i < |FeedAll(START, chunks).emitted|
    ensures |FeedAll(START, chunks).emitted[i]| <= 1_048_576 + 65_536
  {
    if chunks != [] {
      var a, chunk := FeedAll(START, DropLast(chunks)), Last(chunks);
      RunEmits(DropLast(chunks));
      FeedEmits(a, chunk);
      hide Feed, Pieces;
      if i < |a.emitted| {
        LineBound(DropLast(chunks), i);
        assert FeedAll(START, chunks).emitted[i] == a.emitted[i];
      } else {
        var k := i - |a.emitted|;
        assert FeedAll(START, chunks).emitted[|a.emitted| + k] == Unterminated(Pieces(a, chunk)[k]);
      }
    }
  }
}
