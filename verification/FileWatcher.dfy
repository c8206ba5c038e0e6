/** Following one growing, rotating or truncated file: the reads of drain_file and the lines they
    hand to the pipeline. */
module FileWatcher {
  import opened Basics
  import opened LineAssembly

  /** A file as one drain sees it: size is what stat reported, content what the reads then find. */
  datatype File = File(inode: nat, size: nat, content: string)

  class FileState {
    var offset: nat
    var inode: nat
    var pending: string

    /** Everything passed to the pipeline for this path. */
    var lines: seq<string>

    /** The reads since the file was opened at its start or at the primed offset, and how many lines
        had been passed on before. */
    ghost var taken: seq<string>
    ghost var mark: nat

    ghost predicate Valid()
      reads this
    {
      && mark <= |lines| && |Concat(taken)| <= offset
      && FeedAll(START, taken) == Assembly(pending, lines[mark..])
      && (forall i :: 0 <= i < |taken| ==> 0 < |taken[i]| <= READ_CHUNK)
    }

    /** What has been read is the part of the file that ends at offset. */
    ghost predicate Follows(content: string)
      reads this
    {
      |Concat(taken)| <= offset <= |content| && Concat(taken) == content[offset - |Concat(taken)|..offset]
    }

    /** A file found at start-up is followed from its end, one found later from its beginning. */
    constructor (file: File, prime: bool)
      ensures Valid() && inode == file.inode && offset == (if prime then file.size else 0) && pending == [] && lines == []
      ensures offset <= |file.content| ==> Follows(file.content)
    {
      offset := if prime then file.size else 0;
      inode := file.inode;
      pending, lines, taken, mark := [], [], [], 0;
    }

    /** Hands on the complete lines; an over-long rest is handed on as it is. */
    method FlushPending()
      modifies this`pending, this`lines
      ensures Assembly(pending, lines) == Feed(Assembly(old(pending), old(lines)), [])
    {
      hide Flushed, Feed, Strip;
      var start: nat := 0;
      FlushedNone(pending, lines);
      for i := 0 to |pending|
        invariant start <= i && pending == old(pending)
        invariant Flushed(pending, start, i, old(lines), lines)
      {
        if pending[i] != '\n' {
          FlushedOther(pending, start, i, old(lines), lines);
          continue;
        }
        var end := i;
        if end > start && pending[end - 1] == '\r' { end := end - 1; }
        FlushedLine(pending, start, i, end, old(lines), lines);
        lines := lines + [pending[start..end]];
        start := i + 1;
      }
      FlushedAll(pending, start, old(lines), lines);
      pending := pending[start..];
      if |pending| > MAX_LINE_BYTES {
        lines := lines + [pending];
        pending := [];
      }
    }

    /** now is what has been handed on after the first i bytes; the current line begins at start. */
    static ghost predicate Flushed(s: string, start: nat, i: nat, before: seq<string>, now: seq<string>) {
      && start <= i <= |s| && s[start..i] == Split(s[..i]).tail
      && now == before + StripAll(Split(s[..i]).complete)
    }

    static lemma FlushedNone(s: string, lines: seq<string>)
      ensures Flushed(s, 0, 0, lines, lines)
    {
    }

    static lemma FlushedOther(s: string, start: nat, i: nat, before: seq<string>, now: seq<string>)
      requires Flushed(s, start, i, before, now) && i < |s| && s[i] != '\n'
      ensures Flushed(s, start, i + 1, before, now)
    {
      assert s[..i + 1] == s[..i] + [s[i]];
      SplitLast(s[..i], s[i]);
    }

    static lemma FlushedLine(s: string, start: nat, i: nat, end: nat, before: seq<string>, now: seq<string>)
      requires Flushed(s, start, i, before, now) && i < |s| && s[i] == '\n'
      requires end == if i > start && s[i - 1] == '\r' then i - 1 else i
      ensures Flushed(s, i + 1, i + 1, before, now + [s[start..end]])
    {
      assert s[..i + 1] == s[..i] + [s[i]];
      SplitLast(s[..i], s[i]);
      hide Split, Strip;
      StripSlice(s, start, i, end);
      var complete := Split(s[..i]).complete;
      assert StripAll(complete + [s[start..i]]) == StripAll(complete) + [Strip(s[start..i])];
    }

    static lemma StripSlice(s: string, start: nat, i: nat, end: nat)
      requires start <= i <= |s| && end == if i > start && s[i - 1] == '\r' then i - 1 else i
      ensures s[start..end] == Strip(s[start..i])
    {
      var line := s[start..i];
      if line != [] {
        assert Last(line) == s[i - 1] && DropLast(line) == s[start..i - 1];
      }
    }

    static lemma FlushedAll(s: string, start: nat, before: seq<string>, now: seq<string>)
      requires Flushed(s, start, |s|, before, now)
      ensures Feed(Assembly(s, before), []) ==
                if |s| - start > MAX_LINE_BYTES then Assembly([], now + [s[start..]]) else Assembly(s[start..], now)
    {
      hide Split;
      assert s[..|s|] == s && s + [] == s && s[start..|s|] == s[start..];
    }

    /** One read of at most READ_CHUNK bytes. */
    method Take(chunk: string)
      requires Valid() && 0 < |chunk| <= READ_CHUNK
      modifies this`offset, this`pending, this`lines, this`taken
      ensures Valid() && offset == old(offset) + |chunk| && taken == old(taken) + [chunk]
      ensures old(lines) <= lines
    {
      hide Feed, Pieces, Unterminated, FeedAll, Concat;
      FeedAllLast(START, taken, chunk);
      FeedAppended(pending, chunk, lines[..mark], lines[mark..]);
      FeedEmits(Assembly(pending, lines[mark..]), chunk);
      assert lines == lines[..mark] + lines[mark..];
      pending := pending + chunk;
      offset := offset + |chunk|;
      FlushPending();
      taken := taken + [chunk];
    }

    /** Reading into pending and flushing is feeding the chunk. */
    static lemma FeedAppended(pending: string, chunk: string, before: seq<string>, emitted: seq<string>)
      ensures Feed(Assembly(pending + chunk, before + emitted), []) ==
                Assembly(Feed(Assembly(pending, emitted), chunk).pending, before + Feed(Assembly(pending, emitted), chunk).emitted)
    {
      assert (pending + chunk) + [] == pending + chunk;
      assert Feed(Assembly(pending + chunk, before + emitted), []) == Feed(Assembly(pending, before + emitted), chunk);
      hide Feed;
      FeedAfter(pending, before, emitted, chunk);
    }

    /** drain_file: a replaced or truncated file is read from its start, otherwise the bytes after
        offset are read, each once and in order. */
    method DrainFile(file: File)
      requires Valid()
      modifies this
      ensures Valid() && inode == file.inode && old(lines) <= lines
      ensures (old(inode) != 0 && old(inode) != file.inode) || file.size < old(offset) ==>
                mark == |old(lines)| && Concat(taken) == (if file.size == 0 then [] else file.content) && offset == |Concat(taken)|
      ensures !((old(inode) != 0 && old(inode) != file.inode) || file.size < old(offset)) ==>
                && mark == old(mark)
                && if file.size <= old(offset) || |file.content| <= old(offset)
                   then offset == old(offset) && Concat(taken) == old(Concat(taken))
                   else offset == |file.content| && Concat(taken) == old(Concat(taken)) + file.content[old(offset)..]
      ensures (old(inode) != 0 && old(inode) != file.inode) || file.size < old(offset) || old(Follows(file.content)) ==> Follows(file.content)
    {
      hide Feed, FeedAll, Concat;
      if inode != 0 && inode != file.inode {
        Restart();
      } else if file.size < offset {
        Restart();
      }
      inode := file.inode;
      if file.size <= offset { return; }
      if offset <= |file.content| { FollowsOn(Concat(taken), file.content, offset); }
      ReadToEnd(file.content);
    }

    /** Log rotation: a file is drained, then another one in its place. The second one's text is handed
        on line by line, nothing of the first is joined to it, and what is left of it is pending. */
    method DrainReplaced(first: File, second: File, ghost text: seq<string>, ghost ends: seq<string>, ghost tail: string)
      returns (ghost before: seq<string>)
      requires Valid() && first.inode != 0 && first.inode != second.inode && second.size == |second.content|
      requires TextLines(text, ends) && '\n' !in tail && |tail| <= 1_048_576 && second.content == Written(text, ends) + tail
      modifies this
      ensures Valid() && old(lines) <= before && lines == before + text && pending == tail && offset == |second.content|
    {
      hide Concat, FeedAll, Written, Split, StripAll, Follows;
      DrainFile(first);
      before := lines;
      DrainFile(second);
      assert Concat(taken) == Written(text, ends) + tail;
      LinesComeThrough(text, ends, tail, taken);
      assert lines == lines[..mark] + lines[mark..];
    }

    /** Truncation: the same when the file has become shorter than what has been read of it. */
    method DrainTruncated(file: File, ghost text: seq<string>, ghost ends: seq<string>, ghost tail: string)
      requires Valid() && file.size < offset && file.size == |file.content|
      requires TextLines(text, ends) && '\n' !in tail && |tail| <= 1_048_576 && file.content == Written(text, ends) + tail
      modifies this
      ensures Valid() && lines == old(lines) + text && pending == tail && offset == |file.content|
    {
      hide Concat, FeedAll, Written, Split, StripAll, Follows;
      DrainFile(file);
      assert Concat(taken) == Written(text, ends) + tail;
      LinesComeThrough(text, ends, tail, taken);
      assert lines == lines[..mark] + lines[mark..];
    }

    /** Growth: text added to a file that has been read up to the end of a line is handed on line by
        line. */
    method DrainGrown(file: File, ghost text: seq<string>, ghost ends: seq<string>, ghost tail: string)
      requires Valid() && pending == [] && (inode == 0 || inode == file.inode) && offset <= |file.content| == file.size
      requires TextLines(text, ends) && '\n' !in tail && |tail| <= 1_048_576 && file.content[offset..] == Written(text, ends) + tail
      modifies this
      ensures Valid() && lines == old(lines) + text && pending == tail && offset == |file.content|
    {
      hide Concat, FeedAll, Written, Split, StripAll, Follows;
      Settle();
      DrainFile(file);
      assert Concat(taken) == Written(text, ends) + tail;
      LinesComeThrough(text, ends, tail, taken);
      assert lines == lines[..mark] + lines[mark..];
    }

    /** With nothing pending, what comes next can be looked at on its own. */
    ghost method Settle()
      requires Valid() && pending == []
      modifies this`taken, this`mark
      ensures Valid() && Concat(taken) == [] && mark == |lines|
    {
      taken, mark := [], |lines|;
    }

    static lemma FollowsOn(kept: string, content: string, from: nat)
      requires from <= |content|
      ensures |kept| <= from && kept == content[from - |kept|..from] ==> kept + content[from..] == content[from - |kept|..|content|]
    {
    }

    /** The read loop, from offset to the end of the file, which may have shrunk below offset. */
    method ReadToEnd(content: string)
      requires Valid()
      modifies this`offset, this`pending, this`lines, this`taken
      ensures Valid() && old(lines) <= lines && offset == if |content| < old(offset) then old(offset) else |content|
      ensures Concat(taken) == old(Concat(taken)) + if |content| < old(offset) then [] else content[old(offset)..]
    {
      hide Feed, FeedAll, Concat;
      if |content| < offset { return; }
      ghost var from, kept := offset, Concat(taken);
      assert kept + content[from..from] == kept;
      while offset < |content|
        invariant Valid() && from <= offset <= |content| && old(lines) <= lines
        invariant Concat(taken) == kept + content[from..offset]
        decreases |content| - offset
      {
        var end := if offset + READ_CHUNK < |content| then offset + READ_CHUNK else |content|;
        var chunk := content[offset..end];
        ReadOn(taken, kept, content, from, offset, end);
        Take(chunk);
      }
    }

    static lemma ReadOn(taken: seq<string>, kept: string, content: string, from: nat, offset: nat, end: nat)
      requires from <= offset <= end <= |content| && Concat(taken) == kept + content[from..offset]
      ensures Concat(taken + [content[offset..end]]) == kept + content[from..end]
    {
      FeedAllLast(START, taken, content[offset..end]);
      assert (kept + content[from..offset]) + content[offset..end] == kept + content[from..end];
    }

    /** Forgets the partial line and starts over at the beginning of the file. */
    method Restart()
      requires Valid()
      modifies this`offset, this`pending, this`taken, this`mark
      ensures Valid() && offset == 0 && pending == [] && taken == [] && Concat(taken) == [] && mark == |lines|
    {
      offset := 0;
      pending := [];
      taken, mark := [], |lines|;
    }

    /** The partial line is exactly the file's bytes that end at offset. */
    lemma PendingIsTheEnd(content: string)
      requires Valid() && Follows(content)
      ensures |pending| <= 1_048_576 && |pending| <= offset
      ensures pending == content[offset - |pending|..offset]
    {
      RunConserves(taken);
      RunEmits(taken);
      hide FeedAll, Concat, AllPieces, Feed, Pieces;
      var all := Concat(taken);
      assert pending == all[|all| - |pending|..];
    }

    /** When its lines fit, what has been passed on for the file is its bytes split into lines, no
        matter how it grew and was read. */
    lemma LinesOfFile(content: string)
      requires Valid() && Follows(content)
      requires var part := content[offset - |Concat(taken)|..offset]; Fits(part) && |Split(part).tail| <= MAX_LINE_BYTES
      ensures var part := content[offset - |Concat(taken)|..offset];
              lines[mark..] == StripAll(Split(part).complete) && pending == Split(part).tail
    {
      LinesAreSplit(taken);
    }
  }
}
