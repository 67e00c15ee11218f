/** Wrapping of descriptions in plain text, src/measurement/SCOREP_Config.c. */
module ConfigWrap {
  import opened CStrings

  predicate IsBlank(c: char) { c == ' ' || c == '\t' || c == '\n' || c == '\r' || c == '\U{B}' }

  predicate NotBlank(c: char) { !IsBlank(c) }

  const NBSP := '\U{A0}'

  /** The white space of the source, character by character. */
  lemma BlanksAre(c: char)
    ensures IsBlank(c) <==> c in " \t\n\r\U{B}"
    ensures NotBlank(c) <==> c !in " \t\n\r\U{B}"
  {}

  // ------------------------------------------------------------------------- the message

  /** How a word is parted from the next: by a line break only if that follows the word at
      once, by an empty line if two follow at once. */
  datatype Mark = Soft | Line | Paragraph

  datatype Word = Word(text: string, mark: Mark)

  function MarkAt(s: string, i: nat): Mark {
    if CharAt(s, i) != '\n' then Soft else if CharAt(s, i + 1) != '\n' then Line else Paragraph
  }

  /** The words of a text, from position i on. */
  function Words(s: string, i: nat): (words: seq<Word>)
    requires i <= |s|
    decreases |s| - i
  {
    var start := RunEnd(s, i, IsBlank);
    if start == |s| then []
    else
      var end := RunEnd(s, start, NotBlank);
      assert start < end;
      [Word(s[start..end], MarkAt(s, end))] + Words(s, end)
  }

  // ------------------------------------------------------------------------- the layout

  datatype Separator = First | Space | NewLine | EmptyLine

  datatype Item = Item(word: string, before: Separator)

  /** How much of the line the words up to the last one take. */
  function Used(items: seq<Item>): nat {
    if items == [] then 0
    else
      var n, last := |items| - 1, items[|items| - 1];
      if last.before == Space then Used(items[..n]) + 1 + |last.word| else |last.word|
  }

  /** What goes between the words set so far, the last one with a mark, and the next. */
  function Between(items: seq<Item>, mark: Mark, word: string, columns: int): Separator {
    match mark
    case Paragraph => EmptyLine
    case Line => NewLine
    case Soft => if Used(items) + 1 + |word| <= columns then Space else NewLine
  }

  /** Words are set one after the other, on the same line while they fit. */
  function Layout(words: seq<Word>, columns: int): (items: seq<Item>)
    ensures |items| == |words| && forall k :: 0 <= k < |words| ==> items[k].word == words[k].text
  {
    if words == [] then []
    else
      var n := |words| - 1;
      var front := Layout(words[..n], columns);
      front + [Item(words[n].text, if n == 0 then First else Between(front, words[n - 1].mark, words[n].text, columns))]
  }

  function Spaces(n: nat): (s: string)
    ensures |s| == n && forall k :: 0 <= k < n ==> s[k] == ' '
  {
    seq(n, _ => ' ')
  }

  /** "%*s" with an empty string: a negative width pads to the other side. */
  function Pad(n: int): string { Spaces(if n < 0 then -n else n) }

  function FirstPad(indent: int, firstIndent: int): string {
    if firstIndent < 0 then "\n" + Pad(indent) else Pad(firstIndent)
  }

  function SeparatorText(s: Separator, indent: int, firstIndent: int): string {
    match s
    case First => FirstPad(indent, firstIndent)
    case Space => " "
    case NewLine => "\n" + Pad(indent)
    case EmptyLine => "\n" + "\n" + Pad(indent)
  }

  /** How a text is printed: the no-break space is shown as a space. */
  function Plain(s: string): (text: string)
    ensures |text| == |s|
    ensures forall k :: 0 <= k < |s| ==> text[k] == if s[k] == NBSP then ' ' else s[k]
  {
    seq(|s|, i requires 0 <= i < |s| => if s[i] == NBSP then ' ' else s[i])
  }

  /** The text of the words set, with no-break spaces as they are. */
  function Render(items: seq<Item>, indent: int, firstIndent: int): string {
    if items == [] then ""
    else
      var n := |items| - 1;
      Render(items[..n], indent, firstIndent) +
      SeparatorText(items[n].before, indent, firstIndent) + items[n].word
  }

  function Wrapped(message: string, width: int, indent: int, firstIndent: int): string {
    Render(Layout(Words(message, 0), width - indent), indent, firstIndent) + "\n"
  }

  // -------------------------------------------------------------------------- the method

  /** dump_line */
  method DumpLine(s: string, start: nat, length: nat) returns (out: string)
    requires start + length <= |s|
    ensures out == Plain(s[start..start + length])
  {
    out := "";
    var n := 0;
    while n < length
      invariant 0 <= n <= length && |out| == n
      invariant forall k :: 0 <= k < n ==> out[k] == Plain(s[start..start + length])[k]
    {
      out := out + [if s[start + n] == NBSP then ' ' else s[start + n]];
      n := n + 1;
    }
  }

  /** strspn and strcspn with the blanks */
  method SkipBlanks(s: string, i: nat) returns (e: nat)
    requires i <= |s|
    ensures e == RunEnd(s, i, IsBlank)
  {
    e := i;
    while IsBlank(CharAt(s, e))
      invariant i <= e <= |s| && Within(s, i, e, IsBlank)
      decreases |s| - e
    {
      e := e + 1;
    }
    RunEndUnique(s, i, e, IsBlank);
  }

  method WordEnd(s: string, i: nat) returns (e: nat)
    requires i <= |s| && CString(s)
    ensures e == RunEnd(s, i, NotBlank)
  {
    e := i;
    while CharAt(s, e) != NUL && NotBlank(CharAt(s, e))
      invariant i <= e <= |s| && Within(s, i, e, NotBlank)
      decreases |s| - e
    {
      e := e + 1;
    }
    RunEndUnique(s, i, e, NotBlank);
  }

  /** What the variable nl says at the head of the loop: 0 before the first word, 1, 3 and 4
      for the mark of the last one, 2 for a line break because the next word does not fit. */
  ghost predicate State(nl: int, done: seq<Word>, items: seq<Item>, reminder: int, columns: int) {
    if done == [] then nl == 0 && reminder == columns
    else
      reminder == columns - Used(items) < columns &&
      (nl == MarkCode(done[|done| - 1].mark) || (nl == 2 && done[|done| - 1].mark == Soft))
  }

  function MarkCode(mark: Mark): int {
    match mark case Soft => 1 case Line => 3 case Paragraph => 4
  }

  method NextMark(s: string, end: nat) returns (nl: int)
    ensures nl == MarkCode(MarkAt(s, end))
  {
    nl := 1;
    if CharAt(s, end) == '\n' {
      nl := 3;
      if CharAt(s, end + 1) == '\n' { nl := 4; }
    }
  }

  ghost predicate TooLong(s: string, start: nat, reminder: int) {
    start < |s| && NotBlank(s[start]) && reminder <= RunEnd(s, start, NotBlank) - start
  }

  /** wrap_lines, for plain text: prints the wrapped text with spaces for no-break spaces.
      A word that does not fit is left for the next turn of the loop, which breaks the line
      and then takes it, however long it is. */
  method WrapLines(message: string, width: int, indent: int, firstIndent: int) returns (out: string)
    requires CString(message)
    ensures out == Plain(Wrapped(message, width, indent, firstIndent))
    ensures var text := Wrapped(message, width, indent, firstIndent);
            |out| == |text| && forall q :: 0 <= q < |text| ==> out[q] == if text[q] == '\U{A0}' then ' ' else text[q]
  {
    hide Words, Layout, Used, RunEnd, Render, SeparatorText, State, Plain;
    var columns := width - indent;
    var reminder, nl, sep, curr := columns, 0, "", 0;
    ghost var words, done: seq<Word> := Words(message, 0), [];
    Nothing(columns, indent, firstIndent);
    out := "";
    while true
      invariant curr <= |message| && words == done + Words(message, curr)
      invariant out == Plain(Render(Layout(done, columns), indent, firstIndent))
      invariant State(nl, done, Layout(done, columns), reminder, columns) && sep == (if done == [] then "" else " ")
      invariant nl == 2 ==> TooLong(message, curr, reminder)
      decreases |message| - curr, nl != 2
    {
      var turn := curr;
      curr := SkipBlanks(message, curr);
      WordsFrom(message, turn, curr);
      if CharAt(message, curr) == NUL { break; }
      WordsStep(message, turn);
      ghost var word := WordAt(message, curr);
      LayoutStep(done, word, columns);
      PrintStep(Layout(done, columns), NextItem(done, word, columns), indent, firstIndent);
      var text, next;
      text, next, nl, reminder := PlaceWord(message, curr, nl, reminder, sep, columns, indent, firstIndent, done);
      out := out + text;
      if next != curr { done := done + [word]; }
      curr, sep := next, " ";
    }
    WordsEnd(message, curr);
    assert done + [] == done;
    PlainJoin(Render(Layout(done, columns), indent, firstIndent), "\n");
    NewLinePlain();
    out := out + "\n";
  }

  lemma NewLinePlain()
    ensures Plain("") == "" && Plain("\n") == "\n"
  {}

  function WordAt(s: string, start: nat): Word
    requires start < |s| && NotBlank(s[start])
  {
    var end := RunEnd(s, start, NotBlank);
    Word(s[start..end], MarkAt(s, end))
  }

  /** The rest of a turn: the word at curr is printed with what goes before it, or left. */
  method PlaceWord(message: string, curr: nat, nl: int, room: int, space: string, columns: int, indent: int,
                   firstIndent: int, ghost done: seq<Word>)
    returns (text: string, next: nat, nl': int, reminder: int)
    requires CString(message) && curr < |message| && NotBlank(message[curr])
    requires State(nl, done, Layout(done, columns), room, columns) && space == (if done == [] then "" else " ")
    requires nl == 2 ==> TooLong(message, curr, room)
    ensures next != curr ==>
      var word := WordAt(message, curr);
      var item := NextItem(done, word, columns);
      curr < next == RunEnd(message, curr, NotBlank) && nl' != 2 &&
      text == SeparatorText(item.before, indent, firstIndent) + Plain(word.text) &&
      State(nl', done + [word], Layout(done, columns) + [item], reminder, columns)
    ensures next == curr ==>
      text == "" && nl' == 2 && nl != 2 && done != [] && TooLong(message, curr, reminder) &&
      State(nl', done, Layout(done, columns), reminder, columns)
  {
    hide Layout, Render, Plain, Used, RunEnd, MarkAt;
    ghost var word := WordAt(message, curr);
    LayoutStep(done, word, columns);
    var brk, sep;
    brk, reminder, sep := LineBreak(nl, room, columns, space, indent, firstIndent);
    var end := WordEnd(message, curr);
    WordNotEmpty(message, curr);
    var length := end - curr;
    nl' := NextMark(message, end);
    if length < reminder || reminder == columns {
      SeparatorIs(done, word, nl, room, columns, indent, firstIndent);
      var line := DumpLine(message, curr, length);
      text := brk + sep + line;
      next := end;
      reminder := reminder - (length + |sep|);
    } else {
      text, next, nl' := brk, curr, 2;
    }
  }

  lemma WordNotEmpty(s: string, start: nat)
    requires start < |s| && NotBlank(s[start])
    ensures start < RunEnd(s, start, NotBlank)
  {}

  /** What the switch printed, and the separator, in terms of the layout. */
  lemma SeparatorIs(done: seq<Word>, word: Word, nl: int, room: int, columns: int, indent: int, firstIndent: int)
    requires word.text != "" && State(nl, done, Layout(done, columns), room, columns)
    requires nl == 2 ==> room <= |word.text|
    requires nl == 1 ==> |word.text| < room
    ensures var text := SeparatorText(NextItem(done, word, columns).before, indent, firstIndent);
            (nl == 0 ==> text == FirstPad(indent, firstIndent) + "") && (nl == 1 ==> text == "" + " ") &&
            (nl == 2 || nl == 3 ==> text == "\n" + Pad(indent) + "") &&
            (nl == 4 ==> text == "\n" + "\n" + Pad(indent) + "") && 0 <= nl <= 4
    ensures nl == 1 <==> NextItem(done, word, columns).before == Space
  {
    hide Layout, Used;
  }

  /** How the next word is set. */
  function NextItem(done: seq<Word>, word: Word, columns: int): Item {
    Item(word.text,
         if done == [] then First else Between(Layout(done, columns), done[|done| - 1].mark, word.text, columns))
  }

  lemma LayoutStep(done: seq<Word>, word: Word, columns: int)
    ensures var items, item := Layout(done, columns), NextItem(done, word, columns);
            Layout(done + [word], columns) == items + [item] &&
            Used(items + [item]) == (if item.before == Space then Used(items) + 1 else 0) + |word.text|
  {
    var items, item := Layout(done, columns), NextItem(done, word, columns);
    assert (done + [word])[..|done|] == done;
    assert (items + [item])[..|items|] == items;
  }

  lemma PlainJoin(s: string, t: string)
    ensures Plain(s + t) == Plain(s) + Plain(t)
  {}

  lemma SeparatorPlain(s: Separator, indent: int, firstIndent: int)
    ensures Plain(SeparatorText(s, indent, firstIndent)) == SeparatorText(s, indent, firstIndent)
  {}

  /** What one more word adds to what is printed. */
  lemma PrintStep(items: seq<Item>, item: Item, indent: int, firstIndent: int)
    ensures Plain(Render(items + [item], indent, firstIndent)) ==
            Plain(Render(items, indent, firstIndent)) +
            (SeparatorText(item.before, indent, firstIndent) + Plain(item.word))
  {
    hide SeparatorText, Plain;
    assert (items + [item])[..|items|] == items;
    var before, text := Render(items, indent, firstIndent), SeparatorText(item.before, indent, firstIndent);
    PlainJoin(before + text, item.word);
    PlainJoin(before, text);
    SeparatorPlain(item.before, indent, firstIndent);
  }

  lemma WordsStep(s: string, i: nat)
    requires i <= |s| && RunEnd(s, i, IsBlank) < |s|
    ensures var start := RunEnd(s, i, IsBlank);
            var end := RunEnd(s, start, NotBlank);
            NotBlank(s[start]) && start < end && Words(s, i) == [WordAt(s, start)] + Words(s, end)
  {}

  /** The words do not depend on how much of the blanks before them is skipped. */
  lemma WordsFrom(s: string, i: nat, start: nat)
    requires i <= |s| && start == RunEnd(s, i, IsBlank)
    ensures Words(s, start) == Words(s, i)
  {
    RunEndUnique(s, start, start, IsBlank);
  }

  lemma WordsEnd(s: string, i: nat)
    requires i == |s|
    ensures Words(s, i) == []
  {}

  lemma Nothing(columns: int, indent: int, firstIndent: int)
    ensures Layout([], columns) == [] && Render([], indent, firstIndent) == ""
    ensures State(0, [], Layout([], columns), columns, columns)
  {}

  /** The switch over nl: what is printed before the word, the room that is left, and the
      separator. */
  method LineBreak(nl: int, room: int, columns: int, space: string, indent: int, firstIndent: int)
    returns (out: string, reminder: int, sep: string)
    requires 0 <= nl <= 4
    ensures nl == 1 ==> out == "" && reminder == room && sep == space
    ensures nl == 0 ==> out == FirstPad(indent, firstIndent) && reminder == room && sep == ""
    ensures nl == 2 || nl == 3 ==> out == "\n" + Pad(indent) && reminder == columns && sep == ""
    ensures nl == 4 ==> out == "\n" + "\n" + Pad(indent) && reminder == columns && sep == ""
  {
    out, reminder, sep := "", room, space;
    if nl == 0 {
      out := if firstIndent < 0 then "\n" + Pad(indent) else Pad(firstIndent);
      sep := "";
    }
    if nl == 4 { out := "\n"; }
    if nl == 4 || nl == 3 || nl == 2 {
      out := out + "\n" + Pad(indent);
      reminder := columns;
      sep := "";
    }
  }

  // ------------------------------------------------------------ reading the output again

  /** A word as it can be printed and found again: there are no blanks in it. */
  predicate Unbroken(text: string) { text != "" && All(text, NotBlank) }

  function MarkOf(s: Separator): Mark {
    match s
    case EmptyLine => Paragraph
    case NewLine => Line
    case _ => Soft
  }

  /** The words set, each with the mark that what follows it amounts to. */
  function Reread(items: seq<Item>, last: Mark): (words: seq<Word>)
    ensures |words| == |items|
  {
    seq(|items|, k requires 0 <= k < |items| =>
      Word(items[k].word, if k + 1 < |items| then MarkOf(items[k + 1].before) else last))
  }

  ghost predicate WellSet(items: seq<Item>) {
    forall k :: 0 <= k < |items| ==> Unbroken(items[k].word) && (items[k].before == First <==> k == 0)
  }

  lemma RunShift(before: string, s: string, i: nat, p: char -> bool)
    requires i <= |s|
    ensures RunEnd(before + s, |before| + i, p) == |before| + RunEnd(s, i, p)
  {
    RunEndUnique(before + s, |before| + i, |before| + RunEnd(s, i, p), p);
  }

  lemma {:induction false} WordsShift(before: string, s: string, i: nat)
    requires i <= |s|
    ensures Words(before + s, |before| + i) == Words(s, i)
    decreases |s| - i
  {
    hide RunEnd, Words;
    var n, t := |before|, before + s;
    var start := RunEnd(s, i, IsBlank);
    RunShift(before, s, i, IsBlank);
    if start < |s| {
      var end := RunEnd(s, start, NotBlank);
      RunShift(before, s, start, NotBlank);
      WordsStep(s, i);
      WordsStep(t, n + i);
      WordsShift(before, s, end);
      assert t[n + start..n + end] == s[start..end];
    } else {
      NoWords(s, i);
      NoWords(t, n + i);
    }
  }

  lemma NoWords(s: string, i: nat)
    requires i <= |s| && RunEnd(s, i, IsBlank) == |s|
    ensures Words(s, i) == []
  {}

  /** Blanks, a word, and something that does not go on with the word. */
  lemma BlanksAndWord(blanks: string, word: string, tail: string)
    requires All(blanks, IsBlank) && word != "" && All(word, NotBlank) && (tail == "" || IsBlank(tail[0]))
    ensures Words(blanks + word + tail, 0) == [Word(word, MarkAt(tail, 0))] + Words(tail, 0)
  {
    hide RunEnd, Words;
    var s := blanks + word + tail;
    assert s == "" + blanks + (word + tail) && (word + tail)[0] == word[0];
    RunOfPart("", blanks, word + tail, IsBlank);
    RunOfPart(blanks, word, tail, NotBlank);
    WordsStep(s, 0);
    assert s == (blanks + word) + tail;
    WordsShift(blanks + word, tail, 0);
    assert s[|blanks|..|blanks| + |word|] == word;
  }

  lemma SeparatorBlank(s: Separator, indent: int, firstIndent: int)
    ensures All(SeparatorText(s, indent, firstIndent), IsBlank)
    ensures s != First ==> var text := SeparatorText(s, indent, firstIndent); text != "" && IsBlank(text[0])
  {}

  lemma SeparatorMark(s: Separator, indent: int, firstIndent: int, word: string, tail: string)
    requires s != First && word != "" && NotBlank(word[0])
    ensures MarkAt(SeparatorText(s, indent, firstIndent) + word + tail, 0) == MarkOf(s)
  {
    var text := SeparatorText(s, indent, firstIndent);
    if |text| >= 2 {
      assert (text + word + tail)[1] == text[1];
    } else {
      assert (text + word + tail)[1] == word[0];
    }
    assert (text + word + tail)[0] == text[0];
  }

  /** What has been printed reads as the words set, in order and none split or joined. */
  lemma {:induction false} RenderReads(items: seq<Item>, indent: int, firstIndent: int, tail: string)
    requires WellSet(items) && items != [] && (tail == "" || IsBlank(tail[0]))
    ensures Words(Render(items, indent, firstIndent) + tail, 0) == Reread(items, MarkAt(tail, 0)) + Words(tail, 0)
    decreases |items|
  {
    hide Words, SeparatorText, MarkAt, Unbroken, RunEnd, Reread, All;
    var n := |items| - 1;
    var front, item := items[..n], items[n];
    var blanks := SeparatorText(item.before, indent, firstIndent);
    var longer := blanks + item.word + tail;
    UnbrokenIs(item.word);
    SeparatorBlank(item.before, indent, firstIndent);
    BlanksAndWord(blanks, item.word, tail);
    assert Render(items, indent, firstIndent) + tail == Render(front, indent, firstIndent) + longer;
    if n == 0 {
      assert "" + longer == longer;
    } else {
      SeparatorMark(item.before, indent, firstIndent, item.word, tail);
      assert longer[0] == blanks[0];
      RenderReads(front, indent, firstIndent, longer);
    }
    RereadStep(items, MarkAt(tail, 0));
  }

  lemma RereadStep(items: seq<Item>, last: Mark)
    requires items != []
    ensures var n := |items| - 1;
            Reread(items, last) ==
            (if n == 0 then [] else Reread(items[..n], MarkOf(items[n].before))) + [Word(items[n].word, last)]
  {}

  lemma UnbrokenIs(text: string)
    requires Unbroken(text)
    ensures text != "" && All(text, NotBlank) && NotBlank(text[0])
  {}

  // ---------------------------------------------------------------------- the main results

  lemma {:induction false} LayoutPrefix(words: seq<Word>, columns: int, n: nat)
    requires n <= |words|
    ensures Layout(words, columns)[..n] == Layout(words[..n], columns)
    ensures n < |words| ==> Layout(words, columns)[n] == NextItem(words[..n], words[n], columns)
    decreases |words|
  {
    hide Layout, NextItem, Used;
    if n < |words| {
      var last := |words| - 1;
      var front := words[..last];
      LayoutStep(front, words[last], columns);
      assert words == front + [words[last]];
      LayoutPrefix(front, columns, n);
      assert front[..n] == words[..n];
    } else {
      assert words[..n] == words;
    }
  }

  lemma {:induction false} WordsUnbroken(s: string, i: nat)
    requires i <= |s|
    ensures forall k :: 0 <= k < |Words(s, i)| ==> Unbroken(Words(s, i)[k].text)
    decreases |s| - i
  {
    if RunEnd(s, i, IsBlank) < |s| {
      var start := RunEnd(s, i, IsBlank);
      var end := RunEnd(s, start, NotBlank);
      WordsStep(s, i);
      SliceOf(s, start, end, NotBlank);
      assert Unbroken(s[start..end]);
      hide RunEnd, Words, Unbroken;
      WordsUnbroken(s, end);
    }
  }

  lemma OneIsFirst(words: seq<Word>, columns: int)
    ensures forall k :: 0 <= k < |words| ==> (Layout(words, columns)[k].before == First <==> k == 0)
  {
    hide Layout, Used;
    forall k: nat | k < |words| ensures Layout(words, columns)[k].before == First <==> k == 0 {
      LayoutPrefix(words, columns, k);
    }
  }

  /** Wrapping loses, adds, splits or moves no word; a line break or an empty line right
      after a word is kept, and a line is broken elsewhere only between words. */
  lemma WrappedReads(message: string, width: int, indent: int, firstIndent: int)
    ensures var words, again := Words(message, 0), Words(Wrapped(message, width, indent, firstIndent), 0);
            |again| == |words| &&
            (forall k :: 0 <= k < |words| ==> again[k].text == words[k].text) &&
            (forall k :: 0 <= k < |words| - 1 ==> KeepsMark(words[k].mark, again[k].mark))
  {
    hide Words, Layout, Used, Wrapped, Reread;
    var words, columns := Words(message, 0), width - indent;
    WrappedWords(message, width, indent, firstIndent);
    var again := Reread(Layout(words, columns), Line);
    forall k: nat | k < |words|
      ensures again[k].text == words[k].text
      ensures k + 1 < |words| ==> KeepsMark(words[k].mark, again[k].mark)
    {
      MarkKept(words, columns, k);
    }
  }

  predicate KeepsMark(mark: Mark, printed: Mark) {
    if mark == Soft then printed != Paragraph else printed == mark
  }

  lemma MarkKept(words: seq<Word>, columns: int, k: nat)
    requires k < |words|
    ensures var word := Reread(Layout(words, columns), Line)[k];
            word.text == words[k].text && (k + 1 < |words| ==> KeepsMark(words[k].mark, word.mark))
  {
    hide Layout, Used;
    if k + 1 < |words| { LayoutPrefix(words, columns, k + 1); }
  }

  lemma WrappedWords(message: string, width: int, indent: int, firstIndent: int)
    ensures Words(Wrapped(message, width, indent, firstIndent), 0) ==
            Reread(Layout(Words(message, 0), width - indent), Line)
  {
    hide Words, Layout, RunEnd, Unbroken, Render;
    var words, columns := Words(message, 0), width - indent;
    var items := Layout(words, columns);
    WordsUnbroken(message, 0);
    OneIsFirst(words, columns);
    NewLineReads();
    if words == [] {
      Nothing(columns, indent, firstIndent);
      assert "" + "\n" == "\n";
    } else {
      RenderReads(items, indent, firstIndent, "\n");
    }
  }

  lemma NewLineReads()
    ensures Words("\n", 0) == []
  {}

  /** Where a word stands in its text. */
  lemma {:induction false} WordPlace(s: string, i: nat, k: nat) returns (p: nat)
    requires i <= |s| && k < |Words(s, i)|
    ensures var text := Words(s, i)[k].text; p + |text| <= |s| && s[p..p + |text|] == text
    decreases k
  {
    hide RunEnd, Words;
    if RunEnd(s, i, IsBlank) == |s| { NoWords(s, i); }
    var start := RunEnd(s, i, IsBlank);
    var end := RunEnd(s, start, NotBlank);
    WordsStep(s, i);
    if k == 0 {
      p := start;
    } else {
      p := WordPlace(s, end, k - 1);
    }
  }

  /** No line is broken at a no-break space: the word it is in is printed in one piece, with
      a space for it. */
  lemma NotBrokenAt(message: string, width: int, indent: int, firstIndent: int, k: nat, i: nat) returns (p: nat)
    requires k < |Words(message, 0)| && i < |Words(message, 0)[k].text| && Words(message, 0)[k].text[i] == NBSP
    ensures var word, printed := Words(message, 0)[k].text, Plain(Wrapped(message, width, indent, firstIndent));
            p + |word| <= |printed| && printed[p..p + |word|] == Plain(word) &&
            printed[p + i] == ' ' && All(Plain(word), NotNewLine)
  {
    hide Words, Wrapped;
    var text := Wrapped(message, width, indent, firstIndent);
    WrappedReads(message, width, indent, firstIndent);
    p := WordPlace(text, 0, k);
    WordsNoLine(message, 0);
    var word := Words(message, 0)[k].text;
    PlainNoLine(word);
    assert forall q :: 0 <= q < |word| ==> text[p + q] == text[p..p + |word|][q] == word[q];
  }

  /** Lines are printed just where the wrapped text has them, and as long. */
  lemma LinesPrinted(text: string)
    ensures forall q :: 0 <= q < |text| ==> (Plain(text)[q] == '\n' <==> text[q] == '\n')
    ensures LastLine(Plain(text)) == Plain(LastLine(text))
  {
    LastLinePlain(text);
  }

  lemma {:induction false} LastLinePlain(text: string)
    ensures LastLine(Plain(text)) == Plain(LastLine(text))
  {
    if text != "" && text[|text| - 1] != '\n' {
      var front, c := text[..|text| - 1], text[|text| - 1];
      LastLinePlain(front);
      PlainJoin(LastLine(front), [c]);
      assert Plain(text)[..|text| - 1] == Plain(front);
    }
  }

  function LastLine(s: string): string {
    if s == "" || s[|s| - 1] == '\n' then "" else LastLine(s[..|s| - 1]) + [s[|s| - 1]]
  }

  predicate NotNewLine(c: char) { c != '\n' }

  lemma LastLineStep(s: string, c: char)
    ensures LastLine(s + [c]) == if c == '\n' then "" else LastLine(s) + [c]
  {
    assert (s + [c])[..|s|] == s;
  }

  lemma {:induction false} LastLineGrows(s: string, t: string)
    requires All(t, NotNewLine)
    ensures LastLine(s + t) == LastLine(s) + t
    decreases |t|
  {
    hide LastLine;
    if t == "" {
      assert s + t == s;
    } else {
      var n := |t| - 1;
      LastLineGrows(s, t[..n]);
      LastLineStep(s + t[..n], t[n]);
      assert s + t == s + t[..n] + [t[n]];
    }
  }

  lemma LastLineAfter(s: string, t: string)
    requires All(t, NotNewLine)
    ensures LastLine(s + "\n" + t) == t
  {
    hide LastLine;
    LastLineStep(s, '\n');
    LastLineGrows(s + "\n", t);
  }

  /** The indentation of the line the last word is on. */
  function Lead(items: seq<Item>, indent: int, firstIndent: int): nat {
    var other := if indent < 0 then -indent else indent;
    if items == [] then 0
    else match items[|items| - 1].before
      case Space => Lead(items[..|items| - 1], indent, firstIndent)
      case First => if firstIndent < 0 then other else firstIndent
      case _ => other
  }

  /** The line after a separator and a word. */
  lemma LineAfterSeparator(before: string, s: Separator, word: string, indent: int, firstIndent: int)
    requires All(word, NotNewLine) && s != Space && (s == First ==> before == "")
    ensures LastLine(before + SeparatorText(s, indent, firstIndent) + word) ==
            (if s == First && firstIndent >= 0 then Pad(firstIndent) else Pad(indent)) + word
  {
    hide LastLine, All, Pad;
    WordIsNoLine(word, indent);
    WordIsNoLine(word, firstIndent);
    var line := Pad(indent) + word;
    if s == First && firstIndent >= 0 {
      LastLineGrows("", Pad(firstIndent) + word);
      EmptyLastLine();
      assert before + Pad(firstIndent) + word == "" + (Pad(firstIndent) + word) == Pad(firstIndent) + word;
    } else if s == EmptyLine {
      LastLineAfter(before + "\n", line);
      assert before + ("\n" + "\n" + Pad(indent)) + word == before + "\n" + "\n" + line;
    } else {
      LastLineAfter(before, line);
      assert before + ("\n" + Pad(indent)) + word == before + "\n" + line;
    }
  }

  lemma LineAfterSpace(before: string, word: string)
    requires All(word, NotNewLine)
    ensures LastLine(before + " " + word) == LastLine(before) + (" " + word)
  {
    hide LastLine;
    WordIsNoLine(word, 0);
    LastLineGrows(before, " " + word);
    assert before + " " + word == before + (" " + word);
  }

  /** The words set have no line break in them, and the first one has the first indentation. */
  ghost predicate OneLined(items: seq<Item>) {
    forall k :: 0 <= k < |items| ==> All(items[k].word, NotNewLine) && (items[k].before == First <==> k == 0)
  }

  lemma PlainNoLine(word: string)
    requires All(word, NotNewLine)
    ensures All(Plain(word), NotNewLine)
  {}

  lemma {:induction false} WordsNoLine(s: string, i: nat)
    requires i <= |s|
    ensures forall k :: 0 <= k < |Words(s, i)| ==> All(Words(s, i)[k].text, NotNewLine)
    decreases |s| - i
  {
    if RunEnd(s, i, IsBlank) < |s| {
      var start := RunEnd(s, i, IsBlank);
      var end := RunEnd(s, start, NotBlank);
      WordsStep(s, i);
      SliceOf(s, start, end, NotBlank);
      assert All(s[start..end], NotNewLine);
      hide RunEnd, Words, All;
      WordsNoLine(s, end);
    }
  }

  /** The line being set is its indentation and the words on it, with single spaces. */
  lemma {:induction false} LineLength(items: seq<Item>, indent: int, firstIndent: int)
    requires OneLined(items)
    ensures |LastLine(Render(items, indent, firstIndent))| == Lead(items, indent, firstIndent) + Used(items)
    decreases |items|
  {
    hide LastLine, Pad, SeparatorText, All;
    if items == [] {
      EmptyLastLine();
    } else {
      var n := |items| - 1;
      var before, item := Render(items[..n], indent, firstIndent), items[n];
      PadLength(indent);
      PadLength(firstIndent);
      if item.before == Space {
        LineLength(items[..n], indent, firstIndent);
        LineAfterSpace(before, item.word);
        assert SeparatorText(Space, indent, firstIndent) == " " by { OneSpace(indent, firstIndent); }
      } else {
        LineAfterSeparator(before, item.before, item.word, indent, firstIndent);
      }
    }
  }

  lemma OneSpace(indent: int, firstIndent: int)
    ensures SeparatorText(Space, indent, firstIndent) == " "
  {}

  lemma PadLength(n: int)
    ensures |Pad(n)| == if n < 0 then -n else n
  {}

  lemma WordIsNoLine(word: string, n: int)
    requires All(word, NotNewLine)
    ensures All(" " + word, NotNewLine) && All(Pad(n) + word, NotNewLine)
  {}

  lemma EmptyLastLine()
    ensures LastLine("") == ""
  {}

  /** No line gets longer than its indentation and the columns, except by one word that is
      alone on it. */
  lemma LineFits(message: string, width: int, indent: int, firstIndent: int, k: nat)
    requires k < |Words(message, 0)|
    ensures var items := Layout(Words(message, 0), width - indent);
            items[k].before == Space ==>
              |LastLine(Plain(Render(items[..k + 1], indent, firstIndent)))| <=
              Lead(items[..k + 1], indent, firstIndent) + (width - indent)
  {
    hide Words, Layout, LastLine, Render, Lead, All;
    var words, columns := Words(message, 0), width - indent;
    var items := Layout(words, columns);
    WordsNoLine(message, 0);
    OneIsFirst(words, columns);
    LayoutPrefix(words, columns, k);
    LineLength(items[..k + 1], indent, firstIndent);
    LastLinePlain(Render(items[..k + 1], indent, firstIndent));
    assert items[..k + 1][..k] == items[..k];
  }
}
