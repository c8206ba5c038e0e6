/** Text handling of the log buffer: tokens, case folding, substring search. Characters are the bytes
    of the "C" locale: only ASCII letters have case and only ASCII letters and digits are alphanumeric. */
module LogText {

  predicate IsTokenChar(c: char) {
    'a' <= c <= 'z' || 'A' <= c <= 'Z' || '0' <= c <= '9' || c == '_' || c == '-'
  }

  function LowerChar(c: char): char {
    if 'A' <= c <= 'Z' then (c as int + 32) as char else c
  }

  function Lower(s: string): (r: string)
    ensures |r| == |s|
    ensures forall i :: 0 <= i < |s| ==> r[i] == LowerChar(s[i])
  {
    seq(|s|, i requires 0 <= i < |s| => LowerChar(s[i]))
  }

  /** The letters fold in pairs, and nothing else folds together. */
  lemma LettersFold(i: nat)
    requires i < 26
    ensures LowerChar("ABCDEFGHIJKLMNOPQRSTUVWXYZ"[i]) == LowerChar("abcdefghijklmnopqrstuvwxyz"[i]) == "abcdefghijklmnopqrstuvwxyz"[i]
  {
  }

  lemma AlphabetAt(i: nat)
    requires i < 26
    ensures "ABCDEFGHIJKLMNOPQRSTUVWXYZ"[i] as int == 'A' as int + i && "abcdefghijklmnopqrstuvwxyz"[i] as int == 'a' as int + i
  {
  }

  lemma OnlyLettersFold(a: char, b: char) returns (i: nat)
    requires LowerChar(a) == LowerChar(b) && a != b
    ensures i < 26
    ensures || (a == "ABCDEFGHIJKLMNOPQRSTUVWXYZ"[i] && b == "abcdefghijklmnopqrstuvwxyz"[i])
            || (b == "ABCDEFGHIJKLMNOPQRSTUVWXYZ"[i] && a == "abcdefghijklmnopqrstuvwxyz"[i])
  {
    i := (if a < b then a else b) as int - 'A' as int;
    AlphabetAt(i);
  }

  lemma NoCapitals(s: string)
    ensures forall i :: 0 <= i < |s| ==> Lower(s)[i] !in "ABCDEFGHIJKLMNOPQRSTUVWXYZ"
  {
    forall i | 0 <= i < |s|
      ensures Lower(s)[i] !in "ABCDEFGHIJKLMNOPQRSTUVWXYZ"
    {
      Capitals(Lower(s)[i]);
    }
  }

  lemma DigitAt(i: nat)
    requires i < 10
    ensures "0123456789"[i] as int == '0' as int + i
  {
  }

  lemma SmallLetters(c: char)
    ensures 'a' <= c <= 'z' <==> c in "abcdefghijklmnopqrstuvwxyz"
  {
    if 'a' <= c <= 'z' {
      var i := c as int - 'a' as int;
      AlphabetAt(i);
      assert "abcdefghijklmnopqrstuvwxyz"[i] == c;
    }
  }

  lemma Capitals(c: char)
    ensures 'A' <= c <= 'Z' <==> c in "ABCDEFGHIJKLMNOPQRSTUVWXYZ"
  {
    if 'A' <= c <= 'Z' {
      var i := c as int - 'A' as int;
      AlphabetAt(i);
      assert "ABCDEFGHIJKLMNOPQRSTUVWXYZ"[i] == c;
    }
  }

  lemma Digits(c: char)
    ensures '0' <= c <= '9' <==> c in "0123456789"
  {
    if '0' <= c <= '9' {
      var i := c as int - '0' as int;
      DigitAt(i);
      assert "0123456789"[i] == c;
    }
  }

  /** The characters that tokens consist of. */
  lemma TokenChars(c: char)
    ensures IsTokenChar(c) <==>
              c in "abcdefghijklmnopqrstuvwxyz" || c in "ABCDEFGHIJKLMNOPQRSTUVWXYZ" || c in "0123456789" || c == '_' || c == '-'
  {
    SmallLetters(c);
    Capitals(c);
    Digits(c);
  }

  method ToLower(s: string) returns (out: string)
    ensures out == Lower(s)
  {
    out := [];
    for i := 0 to |s|
      invariant out == Lower(s)[..i]
    {
      out := out + [LowerChar(s[i])];
    }
  }

  // ---------- tokens ----------

  /** What a scan of the text has completed, and the token it is in the middle of. */
  datatype Progress = Progress(done: seq<string>, current: string)

  function Advance(p: Progress, c: char): Progress {
    if IsTokenChar(c) then Progress(p.done, p.current + [LowerChar(c)])
    else if p.current != [] then Progress(p.done + [p.current], [])
    else p
  }

  function Scan(text: string): Progress {
    if text == [] then Progress([], []) else Advance(Scan(text[..|text| - 1]), text[|text| - 1])
  }

  function Tokens(text: string): seq<string> {
    var p := Scan(text);
    if p.current != [] then p.done + [p.current] else p.done
  }

  method Tokenize(text: string) returns (tokens: seq<string>)
    ensures tokens == Tokens(text)
  {
    tokens := [];
    var current := [];
    for i := 0 to |text|
      invariant Scan(text[..i]) == Progress(tokens, current)
    {
      var c := text[i];
      assert text[..i + 1][..i] == text[..i];
      if IsTokenChar(c) {
        current := current + [LowerChar(c)];
      } else if current != [] {
        tokens := tokens + [current];
        current := [];
      }
    }
    assert text[..|text|] == text;
    if current != [] { tokens := tokens + [current]; }
  }

  /** text[i..j] is a maximal run of token characters. */
  ghost predicate Run(text: string, i: nat, j: nat) {
    && i < j <= |text|
    && (forall k :: i <= k < j ==> IsTokenChar(text[k]))
    && (i > 0 ==> !IsTokenChar(text[i - 1]))
    && (j < |text| ==> !IsTokenChar(text[j]))
  }

  ghost predicate HasRun(text: string, t: string, end: nat) {
    exists i: nat, j: nat :: Run(text, i, j) && j < end && Lower(text[i..j]) == t
  }

  /** The scan so far: the token it is in is the run at the end of the text, the completed ones are the
      runs before it. */
  lemma {:induction false} ScanRuns(text: string)
    ensures var p := Scan(text);
            && |p.current| <= |text|
            && p.current == Lower(text[|text| - |p.current|..])
            && (p.current != [] ==> Run(text, |text| - |p.current|, |text|))
            && (p.current == [] ==> text == [] || !IsTokenChar(text[|text| - 1]))
            && forall t :: t in p.done <==> HasRun(text, t, |text|)
  {
    if text != [] {
      var rest, c := text[..|text| - 1], text[|text| - 1];
      ScanRuns(rest);
      var p := Scan(rest);
      var start := |rest| - |p.current|;
      if IsTokenChar(c) { LastRun(text, start); }
      forall t
        ensures HasRun(text, t, |text|) <==>
                  HasRun(rest, t, |rest|) || (!IsTokenChar(c) && p.current != [] && t == p.current)
      {
        RunsGrow(text, t, start, p.current);
      }
      hide HasRun, Run;
      assert text[start..] == rest[start..] + [c];
    }
  }

  lemma LastRun(text: string, start: nat)
    requires text != [] && start <= |text| - 1 && IsTokenChar(text[|text| - 1])
    requires if start == |text| - 1 then start == 0 || !IsTokenChar(text[start - 1]) else Run(text[..|text| - 1], start, |text| - 1)
    ensures Run(text, start, |text|)
  {
    var rest := text[..|text| - 1];
    assert forall k :: 0 <= k < |rest| ==> rest[k] == text[k];
  }

  lemma RunsGrow(text: string, t: string, start: nat, current: string)
    requires text != [] && start <= |text| - 1
    requires var rest := text[..|text| - 1];
             && current == Lower(rest[start..])
             && (current != [] ==> Run(rest, start, |rest|))
             && (current == [] ==> start == |rest| && (rest == [] || !IsTokenChar(rest[|rest| - 1])))
    ensures HasRun(text, t, |text|) <==>
              HasRun(text[..|text| - 1], t, |text| - 1) || (!IsTokenChar(text[|text| - 1]) && current != [] && t == current)
  {
    var rest, c := text[..|text| - 1], text[|text| - 1];
    hide Lower;
    if HasRun(rest, t, |rest|) {
      var i: nat, j: nat :| Run(rest, i, j) && j < |rest| && Lower(rest[i..j]) == t;
      RunInPrefix(text, i, j);
    }
    if !IsTokenChar(c) && current != [] && t == current {
      RunAtEnd(text, start, start);
    }
    if HasRun(text, t, |text|) {
      var i: nat, j: nat :| Run(text, i, j) && j < |text| && Lower(text[i..j]) == t;
      assert i < j <= |rest|;
      hide HasRun;
      if j < |rest| {
        RunInPrefix(text, i, j);
        ThisRun(rest, i, j);
      } else {
        NoRunAtEnd(text, i);
        assert rest[|rest| - 1] == text[|text| - 2];
        if current != [] { RunAtEnd(text, i, start); }
      }
    }
  }

  lemma ThisRun(text: string, i: nat, j: nat)
    requires Run(text, i, j) && j < |text|
    ensures HasRun(text, Lower(text[i..j]), |text|)
  {
  }

  lemma RunInPrefix(text: string, i: nat, j: nat)
    requires text != [] && i < j < |text| - 1
    ensures Run(text, i, j) <==> Run(text[..|text| - 1], i, j)
    ensures text[i..j] == text[..|text| - 1][i..j]
  {
    var rest := text[..|text| - 1];
    assert forall k :: 0 <= k < |rest| ==> rest[k] == text[k];
  }

  /** Runs that end where the last character begins. */
  lemma RunAtEnd(text: string, i: nat, start: nat)
    requires text != [] && i <= |text| - 1 && start < |text| - 1 && Run(text[..|text| - 1], start, |text| - 1)
    ensures Run(text, i, |text| - 1) <==> i == start && !IsTokenChar(text[|text| - 1])
    ensures text[start..|text| - 1] == text[..|text| - 1][start..]
  {
    var rest := text[..|text| - 1];
    assert forall k :: 0 <= k < |rest| ==> rest[k] == text[k];
    assert start > 0 ==> !IsTokenChar(text[start - 1]);
    assert forall k :: start <= k < |rest| ==> IsTokenChar(text[k]);
  }

  lemma NoRunAtEnd(text: string, i: nat)
    requires text != [] && Run(text, i, |text| - 1)
    ensures |text| > 1 && IsTokenChar(text[|text| - 2])
  {
  }

  /** The tokens of a text are exactly the lower-cased maximal runs of token characters. */
  lemma TokensAreRuns(text: string, t: string)
    ensures t in Tokens(text) <==> HasRun(text, t, |text| + 1)
  {
    ScanRuns(text);
    var p := Scan(text);
    var start := |text| - |p.current|;
    assert text[start..|text|] == text[start..];
    if HasRun(text, t, |text| + 1) && !HasRun(text, t, |text|) {
      var i: nat, j: nat :| Run(text, i, j) && j < |text| + 1 && Lower(text[i..j]) == t;
      assert j == |text|;
      assert i == start;
    }
    if p.current != [] && t == p.current { assert Run(text, start, |text|); }
  }

  /** Every maximal run of token characters is a token, folded. */
  lemma RunIsToken(text: string, i: nat, j: nat)
    requires i < j <= |text| && forall k :: i <= k < j ==> IsTokenChar(text[k])
    requires (i > 0 ==> !IsTokenChar(text[i - 1])) && (j < |text| ==> !IsTokenChar(text[j]))
    ensures Lower(text[i..j]) in Tokens(text)
  {
    TokensAreRuns(text, Lower(text[i..j]));
    assert Run(text, i, j);
  }

  /** Every token comes from such a run. */
  lemma TokenHasRun(text: string, t: string) returns (i: nat, j: nat)
    requires t in Tokens(text)
    ensures i < j <= |text| && |t| == j - i && forall k :: i <= k < j ==> IsTokenChar(text[k]) && t[k - i] == LowerChar(text[k])
    ensures (i > 0 ==> !IsTokenChar(text[i - 1])) && (j < |text| ==> !IsTokenChar(text[j]))
  {
    TokensAreRuns(text, t);
    i, j :| Run(text, i, j) && j < |text| + 1 && Lower(text[i..j]) == t;
    forall k | i <= k < j
      ensures t[k - i] == LowerChar(text[k])
    {
      assert t[k - i] == LowerChar(text[i..j][k - i]);
    }
  }

  lemma LowerCharFacts(c: char)
    ensures IsTokenChar(LowerChar(c)) <==> IsTokenChar(c)
    ensures LowerChar(LowerChar(c)) == LowerChar(c)
  {
  }

  /** Case does not matter for tokens. */
  lemma {:induction false} TokensOfLower(text: string)
    ensures Scan(Lower(text)) == Scan(text)
    ensures Tokens(Lower(text)) == Tokens(text)
  {
    if text != [] {
      var rest := text[..|text| - 1];
      assert Lower(text)[..|text| - 1] == Lower(rest);
      TokensOfLower(rest);
      LowerCharFacts(text[|text| - 1]);
    }
  }

  lemma LowerTwice(s: string)
    ensures Lower(Lower(s)) == Lower(s)
  {
  }

  // ---------- case-insensitive substrings ----------

  ghost predicate MatchesAt(haystack: string, needle: string, k: nat) {
    k + |needle| <= |haystack| && Lower(haystack[k..k + |needle|]) == Lower(needle)
  }

  ghost predicate Contains(haystack: string, needle: string) {
    exists k: nat :: MatchesAt(haystack, needle, k)
  }

  lemma MatchesChar(haystack: string, needle: string, k: nat, i: nat)
    requires MatchesAt(haystack, needle, k) && i < |needle|
    ensures LowerChar(haystack[k + i]) == LowerChar(needle[i])
  {
    assert Lower(haystack[k..k + |needle|])[i] == LowerChar(haystack[k + i]);
    assert Lower(needle)[i] == LowerChar(needle[i]);
  }

  /** contains_ci; the search tries every position. */
  method ContainsCi(haystack: string, needle: string) returns (found: bool)
    ensures found <==> Contains(haystack, needle)
  {
    if needle == [] {
      assert MatchesAt(haystack, needle, 0);
      return true;
    }
    if |needle| > |haystack| { return false; }
    var k := 0;
    while k + |needle| <= |haystack|
      invariant forall j: nat :: j < k ==> !MatchesAt(haystack, needle, j)
    {
      var i := 0;
      while i < |needle| && LowerChar(haystack[k + i]) == LowerChar(needle[i])
        invariant i <= |needle|
        invariant forall j :: 0 <= j < i ==> LowerChar(haystack[k + j]) == LowerChar(needle[j])
      {
        i := i + 1;
      }
      if i == |needle| {
        assert MatchesAt(haystack, needle, k);
        return true;
      }
      if MatchesAt(haystack, needle, k) { MatchesChar(haystack, needle, k, i); }
      k := k + 1;
    }
    return false;
  }

  /** A substring, character by character. */
  lemma ContainsAt(haystack: string, needle: string, k: nat)
    requires k + |needle| <= |haystack| && forall i :: 0 <= i < |needle| ==> LowerChar(haystack[k + i]) == LowerChar(needle[i])
    ensures Contains(haystack, needle)
  {
    assert Lower(haystack[k..k + |needle|]) == Lower(needle);
    assert MatchesAt(haystack, needle, k);
  }

  lemma ContainedAt(haystack: string, needle: string) returns (k: nat)
    requires Contains(haystack, needle)
    ensures k + |needle| <= |haystack| && forall i :: 0 <= i < |needle| ==> LowerChar(haystack[k + i]) == LowerChar(needle[i])
  {
    k :| MatchesAt(haystack, needle, k);
    forall i | 0 <= i < |needle|
      ensures LowerChar(haystack[k + i]) == LowerChar(needle[i])
    {
      MatchesChar(haystack, needle, k, i);
    }
  }

  lemma ContainsLower(haystack: string, needle: string)
    ensures Contains(haystack, Lower(needle)) <==> Contains(haystack, needle)
  {
    LowerTwice(needle);
    forall k: nat
      ensures MatchesAt(haystack, Lower(needle), k) <==> MatchesAt(haystack, needle, k)
    {
    }
  }

  /** Texts that fold to the same have the same tokens, contain the same and are contained in the same. */
  lemma SameFold(a: string, b: string)
    requires Lower(a) == Lower(b)
    ensures Tokens(a) == Tokens(b)
    ensures forall n :: Contains(a, n) <==> Contains(b, n)
    ensures forall t :: Contains(t, a) <==> Contains(t, b)
  {
    TokensOfLower(a);
    TokensOfLower(b);
    forall n
      ensures Contains(a, n) <==> Contains(b, n)
    {
      if Contains(a, n) { FoldContains(a, b, n); }
      if Contains(b, n) { FoldContains(b, a, n); }
    }
    forall t
      ensures Contains(t, a) <==> Contains(t, b)
    {
      ContainsLower(t, a);
      ContainsLower(t, b);
    }
  }

  lemma FoldContains(a: string, b: string, n: string)
    requires Lower(a) == Lower(b) && Contains(a, n)
    ensures Contains(b, n)
  {
    var k := ContainedAt(a, n);
    assert |a| == |Lower(a)| == |b|;
    forall i | 0 <= i < |n|
      ensures LowerChar(b[k + i]) == LowerChar(n[i])
    {
      assert Lower(a)[k + i] == Lower(b)[k + i];
    }
    ContainsAt(b, n, k);
  }

  /** Exchanging a letter for its other case. */
  lemma OtherCase(s: string, i: nat, k: nat)
    requires i < |s| && k < 26 && s[i] == "ABCDEFGHIJKLMNOPQRSTUVWXYZ"[k]
    ensures Lower(s[i := "abcdefghijklmnopqrstuvwxyz"[k]]) == Lower(s)
  {
    LettersFold(k);
  }
}
