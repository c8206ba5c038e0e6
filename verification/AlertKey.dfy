/** The fingerprint under which equal alerts are recognised. */
module AlertKey {

  datatype Level = DEBUG | INFO | WARN | ERROR | FATAL

  datatype Entry = Entry(level: Level, moduleName: string, message: string)

  const KEY_MAX: nat := 192

  function Rank(level: Level): nat {
    match level
    case DEBUG => 0
    case INFO => 1
    case WARN => 2
    case ERROR => 3
    case FATAL => 4
  }

  function LevelName(level: Level): string {
    match level
    case DEBUG => "DEBUG"
    case INFO => "INFO"
    case WARN => "WARN"
    case ERROR => "ERROR"
    case FATAL => "FATAL"
  }

  predicate IsDigit(c: char) {
    '0' <= c <= '9'
  }

  /** A message with each maximal run of digits taken as one token. */
  datatype Token = Number | Other(c: char)

  function AddToken(tokens: seq<Token>, c: char): seq<Token> {
    if !IsDigit(c) then tokens + [Other(c)]
    else if EndsInNumber(tokens) then tokens
    else tokens + [Number]
  }

  function Tokens(message: string): seq<Token> {
    if message == [] then [] else AddToken(Tokens(message[..|message| - 1]), message[|message| - 1])
  }

  /** Numbers become '#'; the key ends with the first other character that brings it to KEY_MAX. */
  function Render(key: string, tokens: seq<Token>): string
    decreases |tokens|
  {
    if tokens == [] then key
    else match tokens[0]
      case Number => Render(key + ['#'], tokens[1..])
      case Other(c) => if |key| + 1 >= KEY_MAX then key + [c] else Render(key + [c], tokens[1..])
  }

  function Prefix(entry: Entry): string {
    entry.moduleName + ['|'] + LevelName(entry.level) + ['|']
  }

  function KeyOf(entry: Entry): string {
    Render(Prefix(entry), Tokens(entry.message))
  }

  lemma {:induction false} TokensGrow(message: string, i: nat)
    requires i <= |message|
    ensures Tokens(message[..i]) <= Tokens(message)
    decreases |message|
  {
    if i < |message| {
      var rest := message[..|message| - 1];
      assert rest[..i] == message[..i];
      TokensGrow(rest, i);
    } else {
      assert message[..i] == message;
    }
  }

  method Fingerprint(entry: Entry) returns (key: string)
    ensures key == KeyOf(entry)
  {
    key := entry.moduleName;
    key := key + ['|'];
    key := key + LevelName(entry.level);
    key := key + ['|'];
    ghost var rest := Tokens(entry.message);
    var inDigits := false;
    for i := 0 to |entry.message|
      invariant Tokens(entry.message[..i]) + rest == Tokens(entry.message)
      invariant inDigits <==> EndsInNumber(Tokens(entry.message[..i]))
      invariant Render(key, rest) == KeyOf(entry)
    {
      var c := entry.message[i];
      NextToken(entry.message, i, rest);
      if IsDigit(c) {
        if !inDigits {
          key := key + ['#'];
          rest := rest[1..];
          inDigits := true;
        }
        continue;
      }
      inDigits := false;
      key := key + [c];
      if |key| >= KEY_MAX { return; }
      rest := rest[1..];
    }
    assert entry.message[..|entry.message|] == entry.message;
  }

  predicate EndsInNumber(tokens: seq<Token>) {
    tokens != [] && tokens[|tokens| - 1] == Number
  }

  /** The character at i is the next token, or continues the number before it. */
  lemma NextToken(message: string, i: nat, rest: seq<Token>)
    requires i < |message| && Tokens(message[..i]) + rest == Tokens(message)
    ensures var done, next := Tokens(message[..i]), Tokens(message[..i + 1]);
            if IsDigit(message[i]) && EndsInNumber(done) then next == done
            else rest != [] && rest[0] == (if IsDigit(message[i]) then Number else Other(message[i]))
                 && next == done + [rest[0]] && next + rest[1..] == Tokens(message)
  {
    assert message[..i + 1][..i] == message[..i];
    var done, next := Tokens(message[..i]), Tokens(message[..i + 1]);
    assert next == AddToken(done, message[i]);
    TokensGrow(message, i + 1);
    hide Tokens;
    if next != done {
      ExtendedPrefix(done, if IsDigit(message[i]) then Number else Other(message[i]), rest, Tokens(message));
    }
  }

  lemma ExtendedPrefix(done: seq<Token>, token: Token, rest: seq<Token>, all: seq<Token>)
    requires done + rest == all && done + [token] <= all
    ensures rest != [] && rest[0] == token && done + [token] + rest[1..] == all
  {
    assert all[|done|] == (done + [token])[|done|] == token;
    assert rest[0] == all[|done|];
  }

  // ---------- what the fingerprint identifies ----------

  lemma {:induction false} TokensCongruent(a: string, b: string, tail: string)
    requires Tokens(a) == Tokens(b)
    ensures Tokens(a + tail) == Tokens(b + tail)
  {
    if tail == [] {
      assert a + tail == a && b + tail == b;
    } else {
      var rest := tail[..|tail| - 1];
      TokensCongruent(a, b, rest);
      assert (a + tail)[..|a + tail| - 1] == a + rest && (b + tail)[..|b + tail| - 1] == b + rest;
    }
  }

  lemma {:induction false} DigitsAreOneToken(head: string, digits: string)
    requires digits != [] && forall i :: 0 <= i < |digits| ==> IsDigit(digits[i])
    ensures Tokens(head + digits) == AddToken(Tokens(head), '0')
  {
    var rest := digits[..|digits| - 1];
    assert (head + digits)[..|head + digits| - 1] == head + rest;
    if rest == [] {
      assert head + rest == head;
    } else {
      DigitsAreOneToken(head, rest);
    }
  }

  lemma DigitChars(c: char)
    ensures IsDigit(c) <==> c in "0123456789"
  {
    if IsDigit(c) {
      var i := c as int - '0' as int;
      DigitAt(i);
      assert "0123456789"[i] == c;
    }
  }

  lemma DigitAt(i: nat)
    requires i < 10
    ensures "0123456789"[i] as int == '0' as int + i
  {
  }

  /** Replacing a run of digits by any other run of digits does not change the fingerprint. */
  lemma DigitsDoNotMatter(entry: Entry, head: string, digits: string, others: string, tail: string)
    requires entry.message == head + digits + tail
    requires digits != [] && forall i :: 0 <= i < |digits| ==> digits[i] in "0123456789"
    requires others != [] && forall i :: 0 <= i < |others| ==> others[i] in "0123456789"
    ensures KeyOf(entry.(message := head + others + tail)) == KeyOf(entry)
  {
    AllDigits(digits);
    AllDigits(others);
    DigitsAreOneToken(head, digits);
    DigitsAreOneToken(head, others);
    TokensCongruent(head + digits, head + others, tail);
  }

  lemma AllDigits(digits: string)
    requires forall i :: 0 <= i < |digits| ==> digits[i] in "0123456789"
    ensures forall i :: 0 <= i < |digits| ==> IsDigit(digits[i])
  {
    forall i | 0 <= i < |digits|
      ensures IsDigit(digits[i])
    {
      DigitChars(digits[i]);
    }
  }

  function Chars(tokens: seq<Token>): string {
    if tokens == [] then []
    else [match tokens[0] case Number => '#' case Other(c) => c] + Chars(tokens[1..])
  }

  lemma {:induction false} RenderIsPrefix(key: string, tokens: seq<Token>)
    ensures key <= Render(key, tokens) <= key + Chars(tokens)
    ensures Render(key, tokens) == key + Chars(tokens) || |Render(key, tokens)| >= KEY_MAX
    decreases |tokens|
  {
    if tokens == [] {
      assert key + Chars(tokens) == key;
    } else {
      var c := match tokens[0] case Number => '#' case Other(c) => c;
      assert key + Chars(tokens) == (key + [c]) + Chars(tokens[1..]);
      if tokens[0] == Number || |key| + 1 < KEY_MAX { RenderIsPrefix(key + [c], tokens[1..]); }
    }
  }

  /** The fingerprint is module, level and the message with its numbers replaced, cut off only once
      the limit is reached. */
  lemma KeyIsPrefix(entry: Entry)
    ensures Prefix(entry) <= KeyOf(entry) <= Prefix(entry) + Chars(Tokens(entry.message))
    ensures |KeyOf(entry)| < 192 ==> KeyOf(entry) == Prefix(entry) + Chars(Tokens(entry.message))
  {
    RenderIsPrefix(Prefix(entry), Tokens(entry.message));
  }

  /** It begins with the whole module and the name of the level. */
  lemma KeyBegins(entry: Entry)
    ensures entry.moduleName + "|" + (match entry.level
                                      case DEBUG => "DEBUG"
                                      case INFO => "INFO"
                                      case WARN => "WARN"
                                      case ERROR => "ERROR"
                                      case FATAL => "FATAL") + "|" <= KeyOf(entry)
    ensures entry.message == [] ==> |KeyOf(entry)| == |entry.moduleName| + 2 + match entry.level case INFO => 4 case WARN => 4 case _ => 5
  {
    KeyIsPrefix(entry);
  }

  /** So entries of one module with different levels are never taken for repeats of each other. */
  lemma LevelsDiffer(a: Entry, b: Entry)
    requires a.moduleName == b.moduleName && a.level != b.level
    ensures KeyOf(a) != KeyOf(b)
  {
    KeyIsPrefix(a);
    KeyIsPrefix(b);
    var n := |a.moduleName|;
    hide KeyOf;
    assert KeyOf(a)[n + 1] == Prefix(a)[n + 1] == LevelName(a.level)[0];
    assert KeyOf(b)[n + 1] == Prefix(b)[n + 1] == LevelName(b.level)[0];
  }

  lemma {:induction false} RenderWhole(key: string, tokens: seq<Token>)
    requires |key| + |tokens| < 192
    ensures Render(key, tokens) == key + Chars(tokens)
    decreases |tokens|
  {
    if tokens == [] {
      assert key + Chars(tokens) == key;
    } else {
      var c := match tokens[0] case Number => '#' case Other(c) => c;
      RenderWhole(key + [c], tokens[1..]);
      assert key + Chars(tokens) == (key + [c]) + Chars(tokens[1..]);
    }
  }

  lemma {:induction false} CharsAppend(tokens: seq<Token>, t: Token)
    ensures |Chars(tokens)| == |tokens|
    ensures Chars(tokens + [t]) == Chars(tokens) + [match t case Number => '#' case Other(c) => c]
  {
    if tokens == [] {
      assert tokens + [t] == [t] && [t][1..] == [];
    } else {
      CharsAppend(tokens[1..], t);
      assert (tokens + [t])[1..] == tokens[1..] + [t];
    }
  }

  /** One more character of a message, below the limit: a digit after a digit adds nothing, the first
      digit of a number adds '#', any other character adds itself. */
  lemma KeyGrows(entry: Entry, c: char)
    requires |KeyOf(entry)| < 191
    ensures KeyOf(entry.(message := entry.message + [c])) ==
              if c !in "0123456789" then KeyOf(entry) + [c]
              else if entry.message != [] && entry.message[|entry.message| - 1] in "0123456789" then KeyOf(entry)
              else KeyOf(entry) + "#"
  {
    var m, tokens, prefix := entry.message, Tokens(entry.message), Prefix(entry);
    assert (m + [c])[..|m|] == m;
    assert Tokens(m + [c]) == AddToken(tokens, c);
    DigitChars(c);
    EndsWithDigit(m);
    KeyIsPrefix(entry);
    CharsAppend(tokens, Number);
    CharsAppend(tokens, Other(c));
    RenderWhole(prefix, tokens);
    RenderWhole(prefix, AddToken(tokens, c));
  }

  lemma EndsWithDigit(m: string)
    ensures EndsInNumber(Tokens(m)) <==> m != [] && m[|m| - 1] in "0123456789"
  {
    if m != [] { DigitChars(m[|m| - 1]); }
  }

  ghost predicate NumbersApart(tokens: seq<Token>) {
    forall i :: 0 <= i < |tokens| - 1 ==> tokens[i] != Number || tokens[i + 1] != Number
  }

  lemma {:induction false} TokensApart(message: string)
    ensures NumbersApart(Tokens(message))
  {
    if message != [] { TokensApart(message[..|message| - 1]); }
  }

  lemma {:induction false} RenderBound(key: string, tokens: seq<Token>)
    requires NumbersApart(tokens)
    ensures |Render(key, tokens)| <= (if |key| < KEY_MAX then KEY_MAX - 1 else |key|) + 2
    ensures |key| >= KEY_MAX - 1 && (tokens == [] || tokens[0] != Number) ==> |Render(key, tokens)| <= |key| + 1
    decreases |tokens|
  {
    if tokens != [] {
      assert NumbersApart(tokens[1..]) by { assert forall i :: 0 <= i < |tokens| - 1 ==> tokens[1..][i] == tokens[i + 1]; }
      match tokens[0]
      case Number => RenderBound(key + ['#'], tokens[1..]);
      case Other(c) => RenderBound(key + [c], tokens[1..]);
    }
  }

  /** Keys are bounded: at most two characters past the limit or past an over-long prefix. */
  lemma KeyBound(entry: Entry)
    ensures |KeyOf(entry)| <= if |Prefix(entry)| < 192 then 193 else |Prefix(entry)| + 2
  {
    TokensApart(entry.message);
    RenderBound(Prefix(entry), Tokens(entry.message));
  }
}
