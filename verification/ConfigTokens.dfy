/** The entries of a list value, src/measurement/SCOREP_Config.c: a copy of the value is cut
    up in place by strtok, and each token trimmed in place. */
module ConfigTokens {
  import opened CStrings

  predicate IsDelimiter(c: char) { c == ' ' || c == ',' || c == ':' || c == ';' }

  predicate InToken(c: char) { !IsDelimiter(c) && c != NUL }

  predicate NotNul(c: char) { c != NUL }

  /** The C string that starts at position i of a buffer. */
  function Text(c: seq<char>, i: nat): string
    requires i <= |c|
  {
    c[i..RunEnd(c, i, NotNul)]
  }

  predicate Terminated(c: seq<char>, i: nat) { i <= |c| && RunEnd(c, i, NotNul) < |c| }

  // ---------------------------------------------------------------------------- trimming

  /** Where the text of s, from a up to e, ends without its trailing white space. */
  function TextEnd(s: string, a: nat, e: nat): (end: nat)
    requires a <= e <= |s|
    ensures a <= end <= e && Within(s, end, e, IsSpace) && (a < end ==> !IsSpace(s[end - 1]))
  {
    if a < e && IsSpace(s[e - 1]) then TextEnd(s, a, e - 1) else e
  }

  function Trim(s: string): string {
    var a := RunEnd(s, 0, IsSpace);
    s[a..TextEnd(s, a, |s|)]
  }

  predicate Trimmed(t: string) { t == "" || (!IsSpace(t[0]) && !IsSpace(t[|t| - 1])) }

  /** What is taken off is white space, and none is left at the ends. */
  lemma TrimIs(s: string)
    ensures var a := RunEnd(s, 0, IsSpace);
            Trimmed(Trim(s)) && s == s[..a] + Trim(s) + s[a + |Trim(s)|..] &&
            Within(s, 0, a, IsSpace) && Within(s, a + |Trim(s)|, |s|, IsSpace)
  {}

  lemma TrimPlain(s: string)
    requires Trimmed(s)
    ensures Trim(s) == s
  {}

  method StrLen(buffer: array<char>, start: nat) returns (n: nat)
    requires Terminated(buffer[..], start)
    ensures start + n == RunEnd(buffer[..], start, NotNul) < buffer.Length
  {
    var e := start;
    while buffer[e] != NUL
      invariant start <= e <= RunEnd(buffer[..], start, NotNul)
      decreases buffer.Length - e
    {
      e := e + 1;
    }
    RunEndUnique(buffer[..], start, e, NotNul);
    n := e - start;
  }

  lemma {:induction false} TextEndShift(c: string, start: nat, end: nat, a: nat, e: nat)
    requires start <= a <= e <= end <= |c|
    ensures TextEnd(c[start..end], a - start, e - start) == TextEnd(c, a, e) - start
    decreases e
  {
    if a < e && IsSpace(c[e - 1]) { TextEndShift(c, start, end, a, e - 1); }
  }

  /** Trimming a part of a buffer, in terms of the positions in the buffer. */
  lemma TrimAt(c: string, start: nat, a: nat, end: nat)
    requires start <= a <= end <= |c| && Within(c, start, a, IsSpace) && (a < end ==> !IsSpace(c[a]))
    ensures Trim(c[start..end]) == c[a..TextEnd(c, a, end)]
  {
    hide RunEnd, TextEnd, Within, IsSpace;
    LeadingAt(c, start, a, end);
    TextEndShift(c, start, end, a, end);
    SliceOfSlice(c, start, end, a - start, TextEnd(c, a, end) - start);
  }

  lemma SliceOfSlice(c: string, start: nat, end: nat, i: nat, j: nat)
    requires start <= end <= |c| && i <= j <= end - start
    ensures c[start..end][i..j] == c[start + i..start + j]
  {
    forall k | 0 <= k < j - i ensures c[start..end][i..j][k] == c[start + i..start + j][k] {}
  }

  lemma LeadingAt(c: string, start: nat, a: nat, end: nat)
    requires start <= a <= end <= |c| && Within(c, start, a, IsSpace) && (a < end ==> !IsSpace(c[a]))
    ensures RunEnd(c[start..end], 0, IsSpace) == a - start
  {
    RunEndUnique(c[start..end], 0, a - start, IsSpace);
  }

  /** The buffer with NULs from cut up to end. */
  function CutTo(c: string, cut: nat, end: nat): (d: string)
    requires cut <= end <= |c|
    ensures |d| == |c| && d[..cut] == c[..cut] && d[end..] == c[end..]
  {
    c[..cut] + seq(end - cut, _ => NUL) + c[end..]
  }

  /** The buffer after the text from start up to end has been trimmed in it. */
  function Blanked(c: string, start: nat, end: nat): (d: string)
    requires start <= end <= |c|
    ensures |d| == |c| && d[end..] == c[end..]
  {
    var a := RunEnd(c, start, IsSpace);
    if a < end then CutTo(c, TextEnd(c, a, end), end) else c
  }

  /** trim_string */
  method TrimString(buffer: array<char>, start: nat) returns (entry: nat)
    requires Terminated(buffer[..], start)
    modifies buffer
    ensures var end := RunEnd(old(buffer[..]), start, NotNul);
            start <= entry <= end && buffer[..start] == old(buffer[..start]) && buffer[end..] == old(buffer[end..])
    ensures Terminated(buffer[..], entry) && Text(buffer[..], entry) == Trim(Text(old(buffer[..]), start))
    ensures Text(buffer[..], entry) == "" ==> buffer[..] == old(buffer[..])
    ensures buffer[..] == Blanked(old(buffer[..]), start, RunEnd(old(buffer[..]), start, NotNul))
  {
    ghost var c := buffer[..];
    ghost var end := RunEnd(c, start, NotNul);
    entry := start;
    while IsSpace(buffer[entry])
      invariant start <= entry <= end && Within(c, start, entry, IsSpace)
      decreases end - entry
    {
      entry := entry + 1;
    }
    RunEndUnique(c, start, entry, IsSpace);
    hide RunEnd, Trim, TextEnd, CutTo, Within, IsSpace;
    SameRun(c, start, entry, NotNul);
    TrimAt(c, start, entry, end);
    if buffer[entry] != NUL {
      var n := StrLen(buffer, entry);
      CutTail(buffer, entry, entry + n);
    } else {
      NothingLeft(c, entry);
    }
  }

  lemma NothingLeft(c: string, entry: nat)
    requires entry < |c| && c[entry] == NUL
    ensures RunEnd(c, entry, NotNul) == entry && TextEnd(c, entry, entry) == entry
  {}

  lemma SameRun(c: seq<char>, i: nat, j: nat, p: char -> bool)
    requires i <= |c| && i <= j <= RunEnd(c, i, p)
    ensures RunEnd(c, j, p) == RunEnd(c, i, p)
  {
    RunEndUnique(c, j, RunEnd(c, i, p), p);
  }

  /** Overwrites the white space at the end of a text, which does not begin with any. */
  method CutTail(buffer: array<char>, entry: nat, end: nat)
    requires entry < end < buffer.Length && end == RunEnd(buffer[..], entry, NotNul)
    requires !IsSpace(buffer[entry])
    modifies buffer
    ensures buffer[..entry] == old(buffer[..entry]) && buffer[end..] == old(buffer[end..])
    ensures Terminated(buffer[..], entry)
    ensures Text(buffer[..], entry) == old(buffer[..])[entry..TextEnd(old(buffer[..]), entry, end)] != ""
    ensures buffer[..] == CutTo(old(buffer[..]), TextEnd(old(buffer[..]), entry, end), end)
  {
    hide RunEnd, TextEnd, CutTo;
    ghost var c := buffer[..];
    ghost var cut := BlankTail(buffer, entry, end);
    CutText(c, entry, cut, end);
    assert c[..entry] == c[..cut][..entry];
    assert buffer[..entry] == buffer[..cut][..entry];
  }

  method BlankTail(buffer: array<char>, entry: nat, end: nat) returns (ghost cut: nat)
    requires entry < end < buffer.Length && !IsSpace(buffer[entry])
    modifies buffer
    ensures entry < cut <= end && cut == TextEnd(old(buffer[..]), entry, end)
    ensures buffer[..] == CutTo(old(buffer[..]), cut, end)
  {
    hide TextEnd;
    ghost var c := buffer[..];
    var last := end - 1;
    while IsSpace(buffer[last])
      invariant entry <= last < end && TextEnd(c, entry, end) == TextEnd(c, entry, last + 1)
      invariant buffer[..last + 1] == c[..last + 1] && buffer[end..] == c[end..]
      invariant forall k :: last < k < end ==> buffer[k] == NUL
      decreases last
    {
      TextEndStep(c, entry, last);
      buffer[last] := NUL;
      last := last - 1;
    }
    TextEndStep(c, entry, last);
    CutIs(buffer[..], c, last + 1, end);
    cut := last + 1;
  }

  lemma CutIs(d: string, c: string, cut: nat, end: nat)
    requires cut <= end <= |c| == |d| && d[..cut] == c[..cut] && d[end..] == c[end..]
    requires forall k :: cut <= k < end ==> d[k] == NUL
    ensures d == CutTo(c, cut, end)
  {
    assert d == d[..cut] + d[cut..end] + d[end..];
    assert d[cut..end] == seq(end - cut, _ => NUL);
  }

  lemma TextEndStep(c: string, a: nat, last: nat)
    requires a <= last < |c|
    ensures TextEnd(c, a, last + 1) == if IsSpace(c[last]) then TextEnd(c, a, last) else last + 1
  {}

  lemma CutText(c: string, entry: nat, cut: nat, end: nat)
    requires entry <= cut <= end < |c| && end == RunEnd(c, entry, NotNul)
    ensures var d := CutTo(c, cut, end);
            RunEnd(d, entry, NotNul) == cut && Text(d, entry) == c[entry..cut]
  {
    var d := CutTo(c, cut, end);
    assert d[end] == c[end] by { assert d[end..][0] == c[end..][0]; }
    assert forall k :: entry <= k < cut ==> d[k] == d[..cut][k] == c[..cut][k] == c[k];
    RunEndUnique(d, entry, cut, NotNul);
    assert d[entry..cut] == d[..cut][entry..];
  }

  // ------------------------------------------------------------------------------ tokens

  /** The tokens of a list, from position i on: the runs between the delimiters. */
  function Tokens(s: string, i: nat): (tokens: seq<string>)
    requires i <= |s|
    decreases |s| - i
  {
    var start := RunEnd(s, i, IsDelimiter);
    if start == |s| then []
    else
      var end := RunEnd(s, start, InToken);
      if end == start then [] else [s[start..end]] + Tokens(s, end)
  }

  predicate OfDelimiters(gap: string) { forall c :: c in gap ==> c in " ,:;" }

  predicate NoDelimiters(token: string) { forall c :: c in token ==> c !in " ,:;" }

  /** The tokens, each behind its gap, and the last gap. */
  function Spread(gaps: seq<string>, tokens: seq<string>): string
    requires |gaps| == |tokens| + 1
  {
    if tokens == [] then gaps[0] else gaps[0] + tokens[0] + Spread(gaps[1..], tokens[1..])
  }

  /** The text is the tokens, in order, with nothing but delimiters between them, and something
      between any two; the tokens are not empty and have no delimiter in them. */
  ghost predicate CutInto(text: string, gaps: seq<string>, tokens: seq<string>) {
    |gaps| == |tokens| + 1 && text == Spread(gaps, tokens) &&
    (forall k :: 0 <= k < |gaps| ==> OfDelimiters(gaps[k])) &&
    (forall k :: 0 < k < |tokens| ==> gaps[k] != "") &&
    (forall k :: 0 <= k < |tokens| ==> tokens[k] != "" && NoDelimiters(tokens[k]))
  }

  lemma CutBefore(gap: string, token: string, text: string, gaps: seq<string>, tokens: seq<string>)
    requires OfDelimiters(gap) && token != "" && NoDelimiters(token) && CutInto(text, gaps, tokens)
    requires tokens != [] ==> gaps[0] != ""
    ensures CutInto(gap + token + text, [gap] + gaps, [token] + tokens)
  {
    hide OfDelimiters, NoDelimiters;
    assert ([gap] + gaps)[1..] == gaps && ([token] + tokens)[1..] == tokens;
  }

  /** What the tokens of a list are. */
  lemma {:induction false} TokensCut(s: string, i: nat) returns (gaps: seq<string>)
    requires i <= |s| && CString(s)
    ensures CutInto(s[i..], gaps, Tokens(s, i))
    ensures i < |s| && s[i] in " ,:;" ==> gaps[0] != ""
    ensures i < |s| && s[i] !in " ,:;" ==> gaps[0] == ""
    decreases |s| - i
  {
    hide RunEnd, Tokens, OfDelimiters, NoDelimiters;
    var start := RunEnd(s, i, IsDelimiter);
    var gap := s[i..start];
    GapOfDelimiters(s, i);
    if start == |s| {
      gaps := [gap];
      NoTokensLeft(s, i);
    } else {
      var end := RunEnd(s, start, InToken);
      TokensFrom(s, i);
      gaps := TokensCut(s, end);
      CutBefore(gap, s[start..end], s[end..], gaps, Tokens(s, end));
      hide CutInto;
      assert s[i..] == gap + s[start..end] + s[end..];
      gaps := [gap] + gaps;
    }
  }

  lemma GapOfDelimiters(s: string, i: nat)
    requires i <= |s|
    ensures var start := RunEnd(s, i, IsDelimiter);
            OfDelimiters(s[i..start]) && (start == i <==> i == |s| || s[i] !in " ,:;")
  {}

  /** Cutting goes on behind the token, whether or not its delimiter is skipped. */
  lemma TokensFrom(s: string, i: nat)
    requires i <= |s| && CString(s) && RunEnd(s, i, IsDelimiter) < |s|
    ensures var start := RunEnd(s, i, IsDelimiter);
            var end := RunEnd(s, start, InToken);
            start < end && NoDelimiters(s[start..end]) && Tokens(s, i) == [s[start..end]] + Tokens(s, end) &&
            (end == |s| || s[end] in " ,:;") && (end == |s| ==> Tokens(s, end) == [])
  {
    TokenStarts(s, i, RunEnd(s, i, IsDelimiter));
  }

  /** The buffer still holds the value from position i on. */
  predicate Holds(c: seq<char>, value: string, i: nat) {
    i <= |value| < |c| && CString(value) && c[i..|value|] == value[i..] && c[|value|] == NUL
  }

  lemma HoldsRun(c: seq<char>, value: string, i: nat, p: char -> bool)
    requires Holds(c, value, i) && !p(NUL)
    ensures RunEnd(c, i, p) == RunEnd(value, i, p)
  {
    var e := RunEnd(value, i, p);
    assert forall k :: i <= k < |value| ==> c[k] == c[i..|value|][k - i] == value[i..][k - i] == value[k];
    RunEndUnique(c, i, e, p);
  }

  lemma HoldsLater(c: seq<char>, value: string, i: nat, j: nat)
    requires Holds(c, value, i) && i <= j <= |value|
    ensures Holds(c, value, j) && c[i..j] == value[i..j]
  {
    assert c[j..|value|] == c[i..|value|][j - i..];
    assert value[j..] == value[i..][j - i..];
    assert c[i..j] == c[i..|value|][..j - i];
    assert value[i..j] == value[i..][..j - i];
  }

  /** strtok with the delimiters " ,:;": the position of the token, and where to go on. */
  method StrTok(buffer: array<char>, from: nat, ghost value: string) returns (found: bool, token: nat, saved: nat)
    requires Holds(buffer[..], value, from)
    modifies buffer
    ensures token == RunEnd(value, from, IsDelimiter)
    ensures found <==> token < |value|
    ensures !found ==> buffer[..] == old(buffer[..]) && saved == token
    ensures found ==>
      var end := RunEnd(value, token, InToken);
      token < end && buffer[..] == old(buffer[..])[end := NUL] &&
      saved == if end == |value| then end else end + 1
  {
    hide RunEnd;
    ghost var c := buffer[..];
    HoldsRun(c, value, from, IsDelimiter);
    token := SkipRun(buffer, from, IsDelimiter);
    HoldsLater(c, value, from, token);
    if buffer[token] == NUL { return false, token, token; }
    HoldsRun(c, value, token, InToken);
    TokenStarts(value, from, token);
    var end := SkipRun(buffer, token, InToken);
    if buffer[end] == NUL { return true, token, end; }
    buffer[end] := NUL;
    return true, token, end + 1;
  }

  method SkipRun(buffer: array<char>, from: nat, p: char -> bool) returns (e: nat)
    requires from <= buffer.Length && RunEnd(buffer[..], from, p) < buffer.Length
    ensures e == RunEnd(buffer[..], from, p)
  {
    e := from;
    while p(buffer[e])
      invariant from <= e <= RunEnd(buffer[..], from, p)
      decreases buffer.Length - e
    {
      e := e + 1;
    }
    RunEndUnique(buffer[..], from, e, p);
  }

  lemma TokenStarts(value: string, from: nat, token: nat)
    requires CString(value) && from <= |value| && token == RunEnd(value, from, IsDelimiter) < |value|
    ensures token < RunEnd(value, token, InToken)
  {}

  /** The buffer after a token was cut off. */
  lemma TokenText(c: seq<char>, d: seq<char>, value: string, token: nat)
    requires Holds(c, value, token) && token < |value|
    requires var end := RunEnd(value, token, InToken); token < end && d == c[end := NUL]
    ensures var end := RunEnd(value, token, InToken);
            RunEnd(d, token, NotNul) == end && Terminated(d, token) && Text(d, token) == value[token..end]
  {
    var end := RunEnd(value, token, InToken);
    HoldsLater(c, value, token, end);
    assert d[token..end] == c[token..end];
    forall k | token <= k < end ensures d[k] != NUL {
      assert d[k] == d[token..end][k - token] == value[k];
    }
    RunEndUnique(d, token, end, NotNul);
  }

  /** Nothing behind the token is touched by cutting and trimming it. */
  lemma RestHeld(c: seq<char>, d: seq<char>, value: string, end: nat, saved: nat)
    requires Holds(c, value, end) && |d| == |c| && d[end..] == c[end := NUL][end..]
    requires saved == if end == |value| then end else end + 1
    ensures Holds(d, value, saved)
  {
    HoldsLater(c, value, end, saved);
    forall k | saved <= k <= |value| ensures d[k] == c[k] {
      assert d[k] == d[end..][k - end] == c[end := NUL][end..][k - end];
    }
  }

  lemma TokensStep(value: string, from: nat, start: nat, end: nat)
    requires from <= |value| && start == RunEnd(value, from, IsDelimiter) < |value|
    requires start < end == RunEnd(value, start, InToken)
    requires CString(value)
    ensures var saved := if end == |value| then end else end + 1;
            Tokens(value, from) == [value[start..end]] + Tokens(value, saved)
  {}

  /** A value cut off behind its first token from a position has that token only. */
  lemma CutTokens(c: seq<char>, value: string, from: nat, start: nat, end: nat)
    requires Holds(c, value, from) && start == RunEnd(value, from, IsDelimiter) < |value|
    requires start < end == RunEnd(value, start, InToken)
    ensures Holds(c[end := NUL], value[..end], from) && Tokens(value[..end], from) == [value[start..end]]
  {
    hide Tokens;
    var cut := value[..end];
    HoldsLater(c, value, from, end);
    assert c[end := NUL][from..end] == c[from..end];
    RunEndUnique(cut, from, start, IsDelimiter);
    RunEndUnique(cut, start, end, InToken);
    TokensStep(cut, from, start, end);
    NoTokens(cut);
    assert cut[start..end] == value[start..end];
  }

  lemma NoTokens(value: string)
    ensures Tokens(value, |value|) == []
  {}

  /** What one call of strtok and the trimming of its result make of a buffer. */
  datatype Cut = Cut(found: bool, copy: string, entry: string, saved: nat)

  function NextCut(c: string, from: nat): (cut: Cut)
    requires from <= |c|
    ensures |cut.copy| == |c|
  {
    var token := RunEnd(c, from, IsDelimiter);
    if token == |c| || c[token] == NUL then Cut(false, c, "", token)
    else
      var end := RunEnd(c, token, InToken);
      if end == |c| then Cut(false, c, "", token)
      else Cut(true, Blanked(c[end := NUL], token, end), Trim(c[token..end]), if c[end] == NUL then end else end + 1)
  }

  /** The next entry is the trimmed next token of the value.  If nothing but white space is
      left of it, the buffer reads as the value cut off behind it. */
  lemma CutStep(c: string, value: string, from: nat) returns (first: string)
    requires Holds(c, value, from)
    ensures var next := NextCut(c, from);
            (next.found <==> Tokens(value, from) != []) &&
            (!next.found ==> next.copy == c && Holds(next.copy, value, next.saved)) &&
            (next.found ==>
               from < next.saved <= |value| && Holds(next.copy, value, next.saved) &&
               Tokens(value, next.saved) == Tokens(value, from)[1..] &&
               next.entry == Trim(Tokens(value, from)[0]))
    ensures var next := NextCut(c, from);
            next.found && next.entry == "" ==>
              Holds(next.copy, first, from) && Tokens(first, from) == [Tokens(value, from)[0]]
  {
    hide RunEnd, Trim, Tokens;
    var token := RunEnd(value, from, IsDelimiter);
    first := value;
    HoldsRun(c, value, from, IsDelimiter);
    HoldsLater(c, value, from, token);
    if token == |value| {
      NoTokensLeft(value, from);
    } else {
      var end := RunEnd(value, token, InToken);
      HoldsRun(c, value, token, InToken);
      TokenStarts(value, from, token);
      TokensStep(value, from, token, end);
      HoldsLater(c, value, from, end);
      var d := c[end := NUL];
      TokenText(c, d, value, token);
      HoldsLater(c, value, token, end);
      assert c[token..end] == value[token..end];
      RestHeld(c, Blanked(d, token, end), value, end, if end == |value| then end else end + 1);
      CutTokens(c, value, from, token, end);
      first := value[..end];
      if Trim(c[token..end]) == "" {
        BlankKept(d, token, end);
        assert d[token..end] == c[token..end];
      }
    }
  }

  lemma BlankKept(d: string, token: nat, end: nat)
    requires token <= end < |d| && d[end] == NUL && Trim(d[token..end]) == ""
    ensures Blanked(d, token, end) == d
  {
    var a := RunEnd(d, token, IsSpace);
    if a < end {
      TrimAt(d, token, a, end);
      TextEndAfter(d, a, end);
    }
  }

  lemma {:induction false} TextEndAfter(c: string, a: nat, e: nat)
    requires a < e <= |c| && !IsSpace(c[a])
    ensures a < TextEnd(c, a, e)
  {
    if IsSpace(c[e - 1]) { TextEndAfter(c, a, e - 1); }
  }

  /** One call of strtok and the trimming of its result. */
  method NextEntry(buffer: array<char>, from: nat, ghost value: string) returns (found: bool, entry: nat, saved: nat)
    requires Holds(buffer[..], value, from)
    modifies buffer
    ensures found ==> Terminated(buffer[..], entry)
    ensures NextCut(old(buffer[..]), from) ==
            Cut(found, buffer[..], if found then Text(buffer[..], entry) else "", saved)
  {
    hide RunEnd, Trim, Tokens, Blanked;
    ghost var c := buffer[..];
    HoldsRun(c, value, from, IsDelimiter);
    found, entry, saved := StrTok(buffer, from, value);
    HoldsLater(c, value, from, entry);
    if !found { return; }
    var token := entry;
    HoldsRun(c, value, token, InToken);
    HoldsLater(c, value, token, RunEnd(value, token, InToken));
    TokenText(c, buffer[..], value, token);
    entry := TrimString(buffer, token);
  }

  lemma NoTokensLeft(value: string, from: nat)
    requires from <= |value| && RunEnd(value, from, IsDelimiter) == |value|
    ensures Tokens(value, from) == []
  {}

  // ------------------------------------------------------------- the tokens of a joined list

  predicate PlainToken(t: string) { t != "" && All(t, InToken) && Trimmed(t) }

  function JoinedList(tokens: seq<string>): string {
    if tokens == [] then "" else if |tokens| == 1 then tokens[0] else tokens[0] + "," + JoinedList(tokens[1..])
  }

  /** Joining plain tokens with commas and cutting the result up gives them back. */
  lemma {:induction false} TokensOfJoined(before: string, tokens: seq<string>)
    requires forall k :: 0 <= k < |tokens| ==> PlainToken(tokens[k])
    requires CString(before)
    ensures CString(before + JoinedList(tokens)) && Tokens(before + JoinedList(tokens), |before|) == tokens
    decreases |tokens|
  {
    hide RunEnd, Tokens, PlainToken;
    if tokens == [] {
      NoTokens(before);
      assert before + "" == before;
    } else {
      var t, rest := tokens[0], tokens[1..];
      PlainRuns(t);
      if rest == [] {
        FirstOfJoined(before, t, "");
        assert before + t + "" == before + JoinedList(tokens);
        NoTokens(before + t + "");
      } else {
        TokensOfJoined(before + t + ",", rest);
        assert before + t + ("," + JoinedList(rest)) == before + JoinedList(tokens);
        assert before + JoinedList(tokens) == before + t + "," + JoinedList(rest);
        FirstOfJoined(before, t, "," + JoinedList(rest));
      }
    }
  }

  lemma PlainRuns(t: string)
    requires PlainToken(t)
    ensures t != "" && All(t, InToken) && CString(t)
  {}

  lemma FirstOfJoined(before: string, t: string, tail: string)
    requires t != "" && All(t, InToken) && (tail == "" || tail[0] == ',') && CString(before + t + tail)
    ensures var s := before + t + tail;
            Tokens(s, |before|) == [t] + Tokens(s, if tail == "" then |s| else |before + t| + 1)
  {
    hide RunEnd, Tokens;
    var s := before + t + tail;
    assert s == before + "" + (t + tail) && (t + tail)[0] == t[0];
    RunOfPart(before, "", t + tail, IsDelimiter);
    RunOfPart(before, t, tail, InToken);
    assert s[|before|..|before + t|] == t;
    TokensStep(s, |before|, |before|, |before + t|);
  }
}
