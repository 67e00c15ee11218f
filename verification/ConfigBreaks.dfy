/** The line breaks and empty lines of a description, anywhere in the white space between
    two words, and what becomes of them when it is wrapped: src/measurement/SCOREP_Config.c
    looks for them only right behind a word. */
module ConfigBreaks {
  import opened CStrings
  import opened ConfigWrap

  /** The white space at position i. */
  function GapAt(s: string, i: nat): string
    requires i <= |s|
  {
    s[i..RunEnd(s, i, IsBlank)]
  }

  /** The white space behind each word, from position i on. */
  function Gaps(s: string, i: nat): (gaps: seq<string>)
    requires i <= |s|
    ensures |gaps| == |Words(s, i)|
    decreases |s| - i
  {
    var start := RunEnd(s, i, IsBlank);
    if start == |s| then []
    else
      var end := RunEnd(s, start, NotBlank);
      assert start < end;
      [GapAt(s, end)] + Gaps(s, end)
  }

  predicate HasBreak(gap: string) { '\n' in gap }

  predicate HasEmptyLine(gap: string) {
    exists i, j :: 0 <= i < j < |gap| && gap[i] == '\n' && gap[j] == '\n'
  }

  predicate StartsWithEmptyLine(gap: string) { |gap| >= 2 && gap[0] == '\n' && gap[1] == '\n' }

  // ----------------------------------------------------------------- gaps and their words

  lemma GapsStep(s: string, i: nat)
    requires i <= |s| && RunEnd(s, i, IsBlank) < |s|
    ensures var start := RunEnd(s, i, IsBlank);
            var end := RunEnd(s, start, NotBlank);
            start < end && Gaps(s, i) == [GapAt(s, end)] + Gaps(s, end)
  {}

  lemma NoGaps(s: string, i: nat)
    requires i <= |s| && RunEnd(s, i, IsBlank) == |s|
    ensures Gaps(s, i) == []
  {}

  lemma GapAtShift(before: string, s: string, i: nat)
    requires i <= |s|
    ensures GapAt(before + s, |before| + i) == GapAt(s, i)
  {
    RunShift(before, s, i, IsBlank);
    hide RunEnd;
    assert (before + s)[|before| + i..|before| + RunEnd(s, i, IsBlank)] == s[i..RunEnd(s, i, IsBlank)];
  }

  lemma {:induction false} GapsShift(before: string, s: string, i: nat)
    requires i <= |s|
    ensures Gaps(before + s, |before| + i) == Gaps(s, i)
    decreases |s| - i
  {
    hide RunEnd, Gaps, GapAt, Words;
    var n, t := |before|, before + s;
    var start := RunEnd(s, i, IsBlank);
    RunShift(before, s, i, IsBlank);
    if start < |s| {
      var end := RunEnd(s, start, NotBlank);
      RunShift(before, s, start, NotBlank);
      GapsStep(s, i);
      GapsStep(t, n + i);
      GapAtShift(before, s, end);
      GapsShift(before, s, end);
    } else {
      NoGaps(s, i);
      NoGaps(t, n + i);
    }
  }

  /** The blanks a text begins with. */
  function Blanks(s: string): string { GapAt(s, 0) }

  lemma GapOfWord(blanks: string, word: string, tail: string)
    requires All(blanks, IsBlank) && word != "" && All(word, NotBlank) && (tail == "" || IsBlank(tail[0]))
    ensures Gaps(blanks + word + tail, 0) == [Blanks(tail)] + Gaps(tail, 0)
    ensures Blanks(blanks + word + tail) == blanks
  {
    WordRuns(blanks, word, tail);
    hide RunEnd, Gaps, All, IsBlank, NotBlank;
    GapBehind(blanks + word, tail);
  }

  lemma GapBehind(front: string, tail: string)
    requires var s := front + tail;
             RunEnd(s, 0, IsBlank) < |s| && RunEnd(s, RunEnd(s, 0, IsBlank), NotBlank) == |front|
    ensures Gaps(front + tail, 0) == [Blanks(tail)] + Gaps(tail, 0)
  {
    hide RunEnd, Gaps, GapAt, Words;
    GapsStep(front + tail, 0);
    GapAtShift(front, tail, 0);
    GapsShift(front, tail, 0);
  }

  lemma WordRuns(blanks: string, word: string, tail: string)
    requires All(blanks, IsBlank) && word != "" && All(word, NotBlank) && (tail == "" || IsBlank(tail[0]))
    ensures var s := blanks + word + tail;
            RunEnd(s, 0, IsBlank) == |blanks| < |s| && s[..|blanks|] == blanks &&
            RunEnd(s, |blanks|, NotBlank) == |blanks + word|
  {
    var s := blanks + word + tail;
    hide RunEnd;
    assert s == "" + blanks + (word + tail) && (word + tail)[0] == word[0];
    RunOfPart("", blanks, word + tail, IsBlank);
    RunOfPart(blanks, word, tail, NotBlank);
  }

  /** The mark of a word is what its gap begins with. */
  lemma {:induction false} MarkOfGap(s: string, i: nat, k: nat)
    requires i <= |s| && k < |Words(s, i)|
    ensures Words(s, i)[k].mark == MarkAt(Gaps(s, i)[k], 0)
    ensures forall c :: c in Gaps(s, i)[k] ==> IsBlank(c)
    decreases k
  {
    hide RunEnd, Words, Gaps;
    if RunEnd(s, i, IsBlank) == |s| { NoWords(s, i); }
    var start := RunEnd(s, i, IsBlank);
    var end := RunEnd(s, start, NotBlank);
    WordsStep(s, i);
    GapsStep(s, i);
    MarkInGap(s, end);
    if k > 0 { MarkOfGap(s, end, k - 1); }
  }

  lemma MarkInGap(s: string, end: nat)
    requires end <= |s|
    ensures var gap := GapAt(s, end);
            MarkAt(s, end) == MarkAt(gap, 0) && forall c :: c in gap ==> IsBlank(c)
  {}

  /** Between two words there is something. */
  lemma {:induction false} GapNotEmpty(s: string, i: nat, k: nat)
    requires i <= |s| && k + 1 < |Words(s, i)|
    ensures Gaps(s, i)[k] != ""
    decreases k
  {
    hide RunEnd, Words, Gaps;
    if RunEnd(s, i, IsBlank) == |s| { NoWords(s, i); }
    var end := RunEnd(s, RunEnd(s, i, IsBlank), NotBlank);
    WordsStep(s, i);
    GapsStep(s, i);
    if k > 0 {
      GapNotEmpty(s, end, k - 1);
    } else {
      if end == |s| { WordsEnd(s, end); }
      BlankAfterWord(s, end);
    }
  }

  lemma BlankAfterWord(s: string, end: nat)
    requires end < |s| && IsBlank(s[end])
    ensures RunEnd(s, end, IsBlank) > end
  {}

  /** The words of a text, each with the white space behind it. */
  function Woven(words: seq<Word>, gaps: seq<string>): string
    requires |words| == |gaps|
  {
    if words == [] then "" else words[0].text + gaps[0] + Woven(words[1..], gaps[1..])
  }

  predicate OfBlanks(gap: string) { forall c :: c in gap ==> c in " \t\n\r\U{B}" }

  predicate NoBlanks(word: string) { forall c :: c in word ==> c !in " \t\n\r\U{B}" }

  /** A text is its words and the white space before, between and behind them; the words are
      not empty and have no white space in them, and something stands between any two. */
  lemma {:induction false} TextOfWords(s: string, i: nat)
    requires i <= |s|
    ensures s[i..] == GapAt(s, i) + Woven(Words(s, i), Gaps(s, i)) && OfBlanks(GapAt(s, i))
    ensures forall k :: 0 <= k < |Words(s, i)| ==>
      Words(s, i)[k].text != "" && NoBlanks(Words(s, i)[k].text) && OfBlanks(Gaps(s, i)[k]) &&
      (k + 1 < |Words(s, i)| ==> Gaps(s, i)[k] != "")
    decreases |s| - i
  {
    hide RunEnd, Words, Gaps, OfBlanks, NoBlanks, GapAt;
    GapIsBlank(s, i);
    var start := RunEnd(s, i, IsBlank);
    if start == |s| {
      NoWords(s, i);
      NoGaps(s, i);
    } else {
      var end := RunEnd(s, start, NotBlank);
      WordsStep(s, i);
      GapsStep(s, i);
      WordIsNoBlank(s, start);
      TextOfWords(s, end);
      forall k: nat | k + 1 < |Words(s, i)| ensures Gaps(s, i)[k] != "" { GapNotEmpty(s, i, k); }
      assert s[i..] == s[i..start] + s[start..end] + s[end..];
    }
  }

  lemma GapIsBlank(s: string, i: nat)
    requires i <= |s|
    ensures OfBlanks(GapAt(s, i)) && GapAt(s, i) == s[i..RunEnd(s, i, IsBlank)]
  {}

  lemma WordIsNoBlank(s: string, start: nat)
    requires start < |s| && NotBlank(s[start])
    ensures var word := WordAt(s, start).text;
            word == s[start..RunEnd(s, start, NotBlank)] != "" && NoBlanks(word)
  {}

  // ------------------------------------------------------------------ gaps of the output

  /** The texts between the words set. */
  function Separations(items: seq<Item>, indent: int, firstIndent: int): (gaps: seq<string>) {
    seq(if items == [] then 0 else |items| - 1, k requires 0 <= k < |items| - 1 =>
      SeparatorText(items[k + 1].before, indent, firstIndent))
  }

  lemma {:induction false} RenderGaps(items: seq<Item>, indent: int, firstIndent: int, tail: string)
    requires WellSet(items) && items != [] && (tail == "" || IsBlank(tail[0]))
    ensures Gaps(Render(items, indent, firstIndent) + tail, 0) ==
            Separations(items, indent, firstIndent) + [Blanks(tail)] + Gaps(tail, 0)
    decreases |items|
  {
    hide Gaps, Words, SeparatorText, Separations, Blanks, Render, WellSet, LastText, IsBlank;
    LastItem(items, indent, firstIndent, tail);
    BetweenStep(items, indent, firstIndent);
    var n := |items| - 1;
    if n > 0 {
      RenderGaps(items[..n], indent, firstIndent, LastText(items, indent, firstIndent) + tail);
    }
  }

  function LastText(items: seq<Item>, indent: int, firstIndent: int): string
    requires items != []
  {
    var item := items[|items| - 1];
    SeparatorText(item.before, indent, firstIndent) + item.word
  }

  lemma LastItem(items: seq<Item>, indent: int, firstIndent: int, tail: string)
    requires WellSet(items) && items != [] && (tail == "" || IsBlank(tail[0]))
    ensures var n, longer := |items| - 1, LastText(items, indent, firstIndent) + tail;
            Gaps(longer, 0) == [Blanks(tail)] + Gaps(tail, 0) &&
            Blanks(longer) == SeparatorText(items[n].before, indent, firstIndent) &&
            Render(items, indent, firstIndent) + tail ==
            (if n == 0 then longer else Render(items[..n], indent, firstIndent) + longer) &&
            (n > 0 ==> WellSet(items[..n]) && longer != "" && IsBlank(longer[0]))
  {
    hide Gaps, SeparatorText, Unbroken, All, Blanks, Render;
    var n := |items| - 1;
    var blanks := SeparatorText(items[n].before, indent, firstIndent);
    UnbrokenIs(items[n].word);
    SeparatorBlank(items[n].before, indent, firstIndent);
    GapOfWord(blanks, items[n].word, tail);
    RenderLonger(items, indent, firstIndent, tail);
    if n > 0 { assert (LastText(items, indent, firstIndent) + tail)[0] == blanks[0]; }
  }

  lemma RenderLonger(items: seq<Item>, indent: int, firstIndent: int, tail: string)
    requires items != [] && Unbroken(items[|items| - 1].word)
    ensures var n := |items| - 1;
            var longer := SeparatorText(items[n].before, indent, firstIndent) + items[n].word + tail;
            Render(items, indent, firstIndent) + tail ==
            if n == 0 then longer else Render(items[..n], indent, firstIndent) + longer
  {
    hide SeparatorText, Unbroken;
    var n := |items| - 1;
    UnbrokenIs(items[n].word);
    var front, text := Render(items[..n], indent, firstIndent), SeparatorText(items[n].before, indent, firstIndent);
    assert front + text + items[n].word + tail == front + (text + items[n].word + tail);
    assert n == 0 ==> front == "";
  }

  lemma BetweenStep(items: seq<Item>, indent: int, firstIndent: int)
    requires items != []
    ensures var n := |items| - 1;
            Separations(items, indent, firstIndent) ==
            if n == 0 then []
            else Separations(items[..n], indent, firstIndent) + [SeparatorText(items[n].before, indent, firstIndent)]
  {}

  lemma WrappedGap(message: string, width: int, indent: int, firstIndent: int, k: nat)
    requires k + 1 < |Words(message, 0)|
    ensures var items := Layout(Words(message, 0), width - indent);
            var gaps := Gaps(Wrapped(message, width, indent, firstIndent), 0);
            k < |gaps| && gaps[k] == SeparatorText(items[k + 1].before, indent, firstIndent)
  {
    hide Words, Gaps, Layout, RunEnd, Unbroken, Render, SeparatorText, Blanks;
    var words, columns := Words(message, 0), width - indent;
    WordsUnbroken(message, 0);
    OneIsFirst(words, columns);
    RenderGaps(Layout(words, columns), indent, firstIndent, "\n");
  }

  lemma {:induction false} RenderStarts(items: seq<Item>, indent: int, firstIndent: int)
    requires items != []
    ensures SeparatorText(items[0].before, indent, firstIndent) + items[0].word <= Render(items, indent, firstIndent)
  {
    hide SeparatorText;
    var n := |items| - 1;
    if n > 0 {
      RenderStarts(items[..n], indent, firstIndent);
    } else {
      assert Render(items[..n], indent, firstIndent) == "";
    }
  }

  /** A wrapped text begins with the first indentation, on a line of its own if that is
      negative, and with the first word; it ends with a line break. */
  lemma WrappedEnds(message: string, width: int, indent: int, firstIndent: int)
    ensures var words, text := Words(message, 0), Wrapped(message, width, indent, firstIndent);
            text[|text| - 1] == '\n' && (words == [] ==> text == "\n") &&
            (words != [] && firstIndent < 0 ==>
               "\n" + seq(if indent < 0 then -indent else indent, _ => ' ') + words[0].text <= text) &&
            (words != [] && firstIndent >= 0 ==> seq(firstIndent, _ => ' ') + words[0].text <= text)
  {
    hide Words, Layout, Render;
    var words, columns := Words(message, 0), width - indent;
    OneIsFirst(words, columns);
    if words == [] {
      Nothing(columns, indent, firstIndent);
    } else {
      RenderStarts(Layout(words, columns), indent, firstIndent);
    }
  }

  /** Between two words a wrapped text has a blank, or one or two line breaks and the
      indentation, on whichever side its width asks for. */
  lemma GapTexts(message: string, width: int, indent: int, firstIndent: int, k: nat)
    requires k + 1 < |Words(message, 0)|
    ensures var gaps, pad := Gaps(Wrapped(message, width, indent, firstIndent), 0),
                             seq(if indent < 0 then -indent else indent, _ => ' ');
            k < |gaps| && gaps[k] in [" ", "\n" + pad, "\n\n" + pad]
  {
    hide Words, Gaps, Layout, Wrapped;
    WrappedGap(message, width, indent, firstIndent, k);
    OneIsFirst(Words(message, 0), width - indent);
    SeparatorTexts(Layout(Words(message, 0), width - indent)[k + 1].before, indent, firstIndent);
  }

  lemma SeparatorTexts(s: Separator, indent: int, firstIndent: int)
    requires s != First
    ensures var pad := seq(if indent < 0 then -indent else indent, _ => ' ');
            SeparatorText(s, indent, firstIndent) in [" ", "\n" + pad, "\n\n" + pad]
  {
    var pad := seq(if indent < 0 then -indent else indent, _ => ' ');
    assert Pad(indent) == pad;
    assert "\n" + "\n" + pad == "\n\n" + pad;
  }

  // ---------------------------------------------------------------------- the main results

  /** The next word does not go on the line any more. */
  predicate DoesNotFit(message: string, columns: int, k: nat)
    requires k + 1 < |Words(message, 0)|
  {
    var words := Words(message, 0);
    columns < Used(Layout(words, columns)[..k + 1]) + 1 + |words[k + 1].text|
  }

  lemma SeparatorBreaks(s: Separator, indent: int, firstIndent: int)
    requires s != First
    ensures HasBreak(SeparatorText(s, indent, firstIndent)) <==> s != Space
    ensures HasEmptyLine(SeparatorText(s, indent, firstIndent)) <==> s == EmptyLine
  {
    var text := SeparatorText(s, indent, firstIndent);
    if s != Space { assert text[0] == '\n'; }
    if s == EmptyLine { assert text[1] == '\n'; }
  }

  /** Between two words a line break is printed exactly if one stands right behind the first,
      or the second does not fit; an empty line exactly if two stand right behind it. */
  lemma BreakPrintedIff(message: string, width: int, indent: int, firstIndent: int, k: nat)
    requires k + 1 < |Words(message, 0)|
    ensures var gap, out := Gaps(message, 0)[k], Gaps(Wrapped(message, width, indent, firstIndent), 0);
            k < |out| && gap != "" &&
            (HasBreak(out[k]) <==> gap[0] == '\n' || DoesNotFit(message, width - indent, k)) &&
            (HasEmptyLine(out[k]) <==> StartsWithEmptyLine(gap))
  {
    hide Words, Gaps, Layout, RunEnd, Used, Wrapped, SeparatorText, HasBreak, HasEmptyLine;
    var words, columns := Words(message, 0), width - indent;
    WrappedGap(message, width, indent, firstIndent, k);
    GapNotEmpty(message, 0, k);
    MarkOfGap(message, 0, k);
    LayoutPrefix(words, columns, k + 1);
    SeparatorBreaks(Layout(words, columns)[k + 1].before, indent, firstIndent);
  }

  /** The line break, or the empty line, between words k and k + 1 is kept. */
  ghost predicate Kept(message: string, width: int, indent: int, firstIndent: int, k: nat)
    requires k + 1 < |Words(message, 0)|
  {
    var gap, out := Gaps(message, 0)[k], Gaps(Wrapped(message, width, indent, firstIndent), 0);
    k < |out| && (HasBreak(gap) ==> HasBreak(out[k])) && (HasEmptyLine(gap) ==> HasEmptyLine(out[k]))
  }

  ghost predicate AlwaysKept(message: string, indent: int, firstIndent: int, k: nat)
    requires k + 1 < |Words(message, 0)|
  {
    forall width :: Kept(message, width, indent, firstIndent, k)
  }

  /** A line break comes first in its gap, and so do the two of an empty line. */
  predicate ComesFirst(gap: string) {
    (HasBreak(gap) ==> gap[0] == '\n') && (HasEmptyLine(gap) ==> StartsWithEmptyLine(gap))
  }

  function Room(words: seq<Word>, n: nat): nat
    requires n <= |words|
  {
    if n == 0 then 0 else Room(words, n - 1) + 1 + |words[n - 1].text|
  }

  lemma {:induction false} UsedWithin(words: seq<Word>, columns: int, n: nat)
    requires n <= |words|
    ensures Used(Layout(words, columns)[..n]) <= Room(words, n)
  {
    hide Layout;
    if n > 0 {
      UsedWithin(words, columns, n - 1);
      var items := Layout(words, columns)[..n];
      assert items[..n - 1] == Layout(words, columns)[..n - 1];
    }
  }

  /** On lines that are wide enough every word fits. */
  lemma FitsSomewhere(message: string, k: nat) returns (columns: int)
    requires k + 1 < |Words(message, 0)|
    ensures !DoesNotFit(message, columns, k)
  {
    var words := Words(message, 0);
    hide Words, Layout, Used, Room;
    columns := Room(words, k + 1) + 1 + |words[k + 1].text|;
    UsedWithin(words, columns, k + 1);
  }

  /** A break is kept at every width exactly if it comes first in its gap. */
  lemma KeptIff(message: string, indent: int, firstIndent: int, k: nat)
    requires k + 1 < |Words(message, 0)|
    ensures AlwaysKept(message, indent, firstIndent, k) <==> ComesFirst(Gaps(message, 0)[k])
  {
    hide Words, Gaps, HasBreak, HasEmptyLine, DoesNotFit, Wrapped;
    var gap := Gaps(message, 0)[k];
    var columns := FitsSomewhere(message, k);
    BreakPrintedIff(message, columns + indent, indent, firstIndent, k);
    if ComesFirst(gap) {
      forall width ensures Kept(message, width, indent, firstIndent, k) {
        BreakPrintedIff(message, width, indent, firstIndent, k);
      }
    } else {
      assert !Kept(message, columns + indent, indent, firstIndent, k);
    }
  }

  ghost predicate GapKept(message: string, indent: int, firstIndent: int, k: nat) {
    k + 1 < |Words(message, 0)| ==> AlwaysKept(message, indent, firstIndent, k)
  }

  predicate BreaksBehindWord(message: string, k: nat) {
    k + 1 < |Words(message, 0)| ==> ComesFirst(Gaps(message, 0)[k])
  }

  /** All line breaks and empty lines of a message are kept at every width exactly if each
      comes right behind a word. */
  lemma AllKeptIff(message: string, indent: int, firstIndent: int)
    ensures (forall k: nat :: GapKept(message, indent, firstIndent, k)) <==>
            (forall k: nat :: BreaksBehindWord(message, k))
  {
    hide Words, Gaps, AlwaysKept, ComesFirst;
    forall k: nat ensures GapKept(message, indent, firstIndent, k) <==> BreaksBehindWord(message, k) {
      if k + 1 < |Words(message, 0)| { KeptIff(message, indent, firstIndent, k); }
    }
  }

  // --------------------------------------------------------------------- what gets lost

  lemma TwoWords(gap: string)
    requires gap != "" && All(gap, IsBlank)
    ensures var message := "a" + gap + "b";
            Words(message, 0) == [Word("a", MarkAt(gap + "b", 0)), Word("b", Soft)] && Gaps(message, 0) == [gap, ""]
  {
    hide Words, Gaps, RunEnd, All, MarkAt, IsBlank;
    var message := "a" + gap + "b";
    Letters(gap);
    BlanksAndWord("", "a", gap + "b");
    GapOfWord("", "a", gap + "b");
    BlanksAndWord(gap, "b", "");
    GapOfWord(gap, "b", "");
    assert "" + "a" + (gap + "b") == message && gap + "b" + "" == gap + "b";
    NoWords("", 0);
    NoGaps("", 0);
  }

  lemma Letters(gap: string)
    requires gap != "" && All(gap, IsBlank)
    ensures All("a", NotBlank) && All("b", NotBlank) && All("", IsBlank) && IsBlank((gap + "b")[0])
    ensures MarkAt("", 0) == Soft && RunEnd("", 0, IsBlank) == 0
  {}

  /** Two words, and what stands between them. */
  lemma KeptBetweenLetters(gap: string)
    requires gap != "" && All(gap, IsBlank)
    ensures var message := "a" + gap + "b";
            |Words(message, 0)| == 2 && (Kept(message, 80, 0, 0, 0) <==> ComesFirst(gap))
  {
    TwoWords(gap);
    var message := "a" + gap + "b";
    BreakPrintedIff(message, 80, 0, 0, 0);
    LetterFits(message);
    hide HasBreak, HasEmptyLine, Words, Gaps, DoesNotFit, Wrapped;
  }

  lemma LetterFits(message: string)
    requires |Words(message, 0)| == 2
    requires |Words(message, 0)[0].text| == |Words(message, 0)[1].text| == 1
    ensures !DoesNotFit(message, 80, 0)
  {
    var words := Words(message, 0);
    hide Words, Layout, Used, Room;
    UsedWithin(words, 80, 1);
    assert Room(words, 1) == 2 by { OneWordRoom(words); }
  }

  lemma OneWordRoom(words: seq<Word>)
    requires |words| >= 1
    ensures Room(words, 1) == 1 + |words[0].text|
  {}

  /** A line break, and an empty line, that follow a blank are lost. */
  lemma BreakLost()
    ensures var message := "a" + " \n" + "b"; |Words(message, 0)| == 2 && !Kept(message, 80, 0, 0, 0)
    ensures var message := "a" + "\n \n" + "b"; |Words(message, 0)| == 2 && !Kept(message, 80, 0, 0, 0)
  {
    var blank, between := " \n", "\n \n";
    assert HasBreak(blank) && blank[1] == '\n';
    assert between[0] == between[2] == '\n' && HasEmptyLine(between) && !StartsWithEmptyLine(between);
    KeptBetweenLetters(blank);
    KeptBetweenLetters(between);
    hide Words, Kept, Gaps;
  }
}
