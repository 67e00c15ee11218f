/** Quoting of configuration values for the shell, src/measurement/SCOREP_Config.c, against
    sections 2.2.1 and 2.2.2 of the Shell Command Language of POSIX.1-2017. */
module ConfigQuote {
  import opened CStrings
  import opened Wrappers

  // ------------------------------------------------------- what the shell makes of a word

  /** The characters that section 2.2 wants quoted if they are to stand for themselves. */
  const SPECIAL := "|&;<>()$`\\\"' \t\n*?[#~=%"

  function Prefix(c: char, rest: Option<string>): Option<string> {
    match rest case None => None case Some(s) => Some([c] + s)
  }

  /** The text a word stands for, inside or outside of single quotes: within them every
      character but the closing quote is literal; a backslash outside makes the next
      character literal, or joins lines.  None for an open quote, a backslash at the end,
      or an unquoted character with a meaning of its own. */
  function Unquote(word: string, inside: bool): Option<string> {
    if word == "" then (if inside then None else Some(""))
    else
      var c, rest := word[0], word[1..];
      if c == '\'' then Unquote(rest, !inside)
      else if inside then Prefix(c, Unquote(rest, true))
      else if c == '\\' then
        if rest == "" then None
        else if rest[0] == '\n' then Unquote(rest[1..], false)
        else Prefix(rest[0], Unquote(rest[1..], false))
      else if c in SPECIAL then None
      else Prefix(c, Unquote(rest, false))
  }

  // -------------------------------------------------------------------------- the quoting

  predicate Escaped(c: char) { c == '\'' || c == '!' }

  function QuoteChar(c: char): string { if Escaped(c) then "'\\" + [c] + "'" else [c] }

  function QuoteAll(s: string): string {
    if s == "" then "" else QuoteAll(s[..|s| - 1]) + QuoteChar(s[|s| - 1])
  }

  function Quoted(s: string): string { "'" + QuoteAll(s) + "'" }

  lemma QuoteNext(s: string, n: nat)
    requires n < |s|
    ensures QuoteAll(s[..n + 1]) == QuoteAll(s[..n]) + QuoteChar(s[n])
  {
    assert s[..n + 1][..n] == s[..n];
  }

  lemma {:induction false} QuotePrefix(s: string, n: nat)
    requires n <= |s|
    ensures |QuoteAll(s[..n])| <= |QuoteAll(s)|
    decreases |s| - n
  {
    if n < |s| {
      QuoteNext(s, n);
      QuotePrefix(s, n + 1);
    } else {
      assert s[..n] == s;
    }
  }

  /** The first loop of single_quote_stringn: the length of the quoted string. */
  method QuotedLength(str: string, length: nat) returns (newLength: nat)
    requires length <= |str|
    ensures newLength == |Quoted(str[..length])|
  {
    newLength := length + 2;
    for i := 0 to length
      invariant newLength == |QuoteAll(str[..i])| + (length - i) + 2
    {
      QuoteNext(str, i);
      if Escaped(str[i]) { newLength := newLength + 3; }
    }
  }

  /** single_quote_stringn: the buffer has room for just the quoted string and its
      terminator, and is filled. */
  method SingleQuote(str: string, length: nat) returns (newString: array<char>)
    requires length <= |str|
    ensures fresh(newString) && newString[..] == Quoted(str[..length]) + [NUL]
  {
    var newLength := QuotedLength(str, length);
    newString := new char[newLength + 1](_ => NUL);
    FillQuoted(newString, str[..length]);
  }

  method FillQuoted(buffer: array<char>, s: string)
    requires buffer.Length == |Quoted(s)| + 1
    modifies buffer
    ensures buffer[..] == Quoted(s) + [NUL]
  {
    hide QuoteAll, QuoteChar;
    QuoteNothing(s[..0]);
    QuotePrefix(s, 0);
    buffer[0] := '\'';
    var at, i := 1, 0;
    while i < |s|
      invariant 0 <= i <= |s| && at == 1 + |QuoteAll(s[..i])| < buffer.Length
      invariant buffer[..at] == "'" + QuoteAll(s[..i])
    {
      QuoteNext(s, i);
      QuotePrefix(s, i + 1);
      at := PutChar(buffer, at, s[i]);
      i := i + 1;
    }
    assert s[..|s|] == s;
    buffer[at] := '\'';
    at := at + 1;
    buffer[at] := NUL;
    assert buffer[..at] == Quoted(s);
  }

  lemma QuoteNothing(s: string)
    requires s == ""
    ensures QuoteAll(s) == ""
  {}

  /** The switch of the second loop. */
  method PutChar(buffer: array<char>, start: nat, c: char) returns (at: nat)
    requires start + |QuoteChar(c)| <= buffer.Length
    modifies buffer
    ensures at == start + |QuoteChar(c)| && buffer[..at] == old(buffer[..start]) + QuoteChar(c)
  {
    at := start;
    if Escaped(c) {
      buffer[at] := '\'';
      buffer[at + 1] := '\\';
      buffer[at + 2] := c;
      buffer[at + 3] := '\'';
      at := at + 4;
    } else {
      buffer[at] := c;
      at := at + 1;
    }
  }

  // ----------------------------------------------------------------------- the round trip

  function Joined(s: string, rest: Option<string>): Option<string> {
    match rest case None => None case Some(t) => Some(s + t)
  }

  lemma {:induction false} QuotedCharReads(c: char, tail: string)
    ensures Unquote(QuoteChar(c) + tail, true) == Prefix(c, Unquote(tail, true))
  {
    if Escaped(c) {
      var word := QuoteChar(c) + tail;
      assert word == ['\'', '\\', c, '\''] + tail;
      assert word[1..] == ['\\', c, '\''] + tail;
      assert word[1..][1..] == [c, '\''] + tail;
      assert word[1..][1..][1..] == ['\''] + tail;
      assert (['\''] + tail)[1..] == tail;
      assert Unquote(['\''] + tail, false) == Unquote(tail, true);
      assert Unquote(word[1..], false) == Prefix(c, Unquote(tail, true));
    } else {
      assert (QuoteChar(c) + tail)[1..] == tail;
    }
  }

  lemma {:induction false} QuotedAllReads(s: string, tail: string)
    ensures Unquote(QuoteAll(s) + tail, true) == Joined(s, Unquote(tail, true))
    decreases |s|
  {
    hide Unquote, QuoteChar;
    if s == "" {
      assert QuoteAll(s) + tail == tail;
      assert forall t :: s + t == t;
    } else {
      var front, c := s[..|s| - 1], s[|s| - 1];
      QuotedAllReads(front, QuoteChar(c) + tail);
      QuotedCharReads(c, tail);
      assert QuoteAll(s) + tail == QuoteAll(front) + (QuoteChar(c) + tail);
      assert forall t :: front + ([c] + t) == s + t;
    }
  }

  /** A quoted string, wherever it stands in a word, reads back as the original. */
  lemma QuotedReads(s: string, tail: string)
    ensures Unquote(Quoted(s) + tail, false) == Joined(s, Unquote(tail, false))
  {
    var word := Quoted(s) + tail;
    assert word[1..] == QuoteAll(s) + ("'" + tail);
    QuotedAllReads(s, "'" + tail);
    assert ("'" + tail)[1..] == tail;
  }

  lemma QuoteRoundTrip(s: string)
    ensures Unquote(Quoted(s), false) == Some(s)
  {
    QuotedReads(s, "");
    assert Quoted(s) + "" == Quoted(s);
    assert s + "" == s;
  }

  /** A text without an apostrophe or an exclamation mark is put between apostrophes as it is. */
  lemma {:induction false} PlainQuoted(s: string)
    requires '\'' !in s && '!' !in s
    ensures Quoted(s) == "'" + s + "'"
  {
    if s != "" {
      var front, c := s[..|s| - 1], s[|s| - 1];
      PlainQuoted(front);
      assert Quoted(front)[1..|front| + 1] == QuoteAll(front) == front;
      assert s == front + [c] && c in s;
    }
  }

  /** The shell would expand an exclamation mark: each one stands outside of the apostrophes,
      behind a backslash. */
  lemma {:induction false} MarksEscaped(s: string, i: nat)
    requires i < |QuoteAll(s)| && QuoteAll(s)[i] == '!'
    ensures 2 <= i < |QuoteAll(s)| - 1
    ensures QuoteAll(s)[i - 1] == '\\' && QuoteAll(s)[i - 2] == QuoteAll(s)[i + 1] == '\''
  {
    var front, c := s[..|s| - 1], s[|s| - 1];
    if i < |QuoteAll(front)| {
      MarksEscaped(front, i);
    } else {
      assert QuoteChar(c)[i - |QuoteAll(front)|] == '!';
    }
  }

  /** Such a mark, and an apostrophe, takes three characters more. */
  lemma QuotedMarks()
    ensures Quoted("!") == "''\\!''" && Quoted("'") == "''\\'''"
  {
    assert "!"[..0] == "" && "'"[..0] == "" && QuoteAll("") == "";
  }
}
