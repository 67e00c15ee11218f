/** Sets and options in configuration values, src/measurement/SCOREP_Config.c: named values
    read from a list of names, and printed greedily as one. */
module ConfigBitset {
  import opened Wrappers
  import opened CStrings
  import opened ConfigAliases
  import opened ConfigQuote
  import opened ConfigTokens

  type Bit = b: nat | b < 64

  /** A 64-bit integer that is only used as a set of bits. */
  type Bits = set<Bit>

  /** An accepted value: its names, separated by slashes, and its bits. */
  datatype Entry = Entry(name: string, value: Bits)

  datatype Parsed = Parsed(ok: bool, bits: Bits)

  /** The first accepted value that goes by the name; the number of values if none does. */
  ghost function Find(name: string, accepted: seq<Entry>): (k: nat)
    ensures k <= |accepted| && (k < |accepted| ==> InAliases(name, accepted[k].name))
    ensures forall j :: 0 <= j < k ==> !InAliases(name, accepted[j].name)
  {
    if accepted == [] || InAliases(name, accepted[0].name) then 0 else 1 + Find(name, accepted[1..])
  }

  lemma FindUnique(name: string, accepted: seq<Entry>, k: nat)
    requires k <= |accepted| && (k < |accepted| ==> InAliases(name, accepted[k].name))
    requires forall j :: 0 <= j < k ==> !InAliases(name, accepted[j].name)
    ensures Find(name, accepted) == k
  {}

  predicate Inverted(entry: string) { entry != "" && entry[0] == '~' }

  /** One entry of the list: a name adds its bits, a name behind a tilde takes them away. */
  ghost function Update(bits: Bits, entry: string, accepted: seq<Entry>): Option<Bits> {
    var k := Find(if Inverted(entry) then entry[1..] else entry, accepted);
    if k == |accepted| then None
    else Some(if Inverted(entry) then bits - accepted[k].value else bits + accepted[k].value)
  }

  ghost function ParseEntries(entries: seq<string>, accepted: seq<Entry>, bits: Bits): Parsed {
    if entries == [] then Parsed(true, bits)
    else match Update(bits, entries[0], accepted)
      case None => Parsed(false, bits)
      case Some(next) => ParseEntries(entries[1..], accepted, next)
  }

  /** The tokens that are more than white space, trimmed. */
  function Entries(tokens: seq<string>): seq<string> {
    if tokens == [] then []
    else if Trim(tokens[0]) == "" then Entries(tokens[1..])
    else [Trim(tokens[0])] + Entries(tokens[1..])
  }

  predicate MeansNone(value: string) {
    SameIgnoringCase(value, "none") || SameIgnoringCase(value, "no")
  }

  ghost function ParsedBitset(value: string, accepted: seq<Entry>): Parsed {
    if MeansNone(value) then Parsed(true, {})
    else ParseEntries(Entries(Tokens(value, 0)), accepted, {})
  }

  // ---------------------------------------------------------- what a list of entries says

  /** Value k goes by the name, and no earlier one does. */
  ghost predicate StandsFirst(name: string, accepted: seq<Entry>, k: nat) {
    k < |accepted| && InAliases(name, accepted[k].name) && forall j :: 0 <= j < k ==> !InAliases(name, accepted[j].name)
  }

  /** The entry stands for accepted value k: behind its tilde, if it has one, is a name of that
      value and of no earlier one. */
  ghost predicate StandsFor(entry: string, accepted: seq<Entry>, k: nat) {
    var name := if entry != "" && entry[0] == '~' then entry[1..] else entry;
    StandsFirst(name, accepted, k)
  }

  ghost predicate Known(entry: string, accepted: seq<Entry>) { exists k :: StandsFor(entry, accepted, k) }

  /** The entry is about the bit. */
  ghost predicate About(entry: string, accepted: seq<Entry>, b: Bit) {
    exists k :: 0 <= k < |accepted| && StandsFor(entry, accepted, k) && b in accepted[k].value
  }

  /** The last of the entries that are about the bit has no tilde; or there is none, and the
      bit was there before. */
  ghost predicate LastAdds(entries: seq<string>, accepted: seq<Entry>, b: Bit, before: bool) {
    (before && forall i :: 0 <= i < |entries| ==> !About(entries[i], accepted, b)) ||
    exists i :: 0 <= i < |entries| && LastAbout(entries, accepted, b, i) && !(entries[i] != "" && entries[i][0] == '~')
  }

  ghost predicate LastAbout(entries: seq<string>, accepted: seq<Entry>, b: Bit, i: nat) {
    i < |entries| && About(entries[i], accepted, b) &&
    forall j :: i < j < |entries| ==> !About(entries[j], accepted, b)
  }

  lemma OneMeaning(entry: string, accepted: seq<Entry>, k: nat, j: nat)
    requires StandsFor(entry, accepted, k) && StandsFor(entry, accepted, j)
    ensures k == j
  {
    hide InAliases;
  }

  /** What one entry does, bit by bit. */
  lemma UpdateIs(bits: Bits, entry: string, accepted: seq<Entry>, b: Bit)
    ensures Update(bits, entry, accepted).Some? <==> Known(entry, accepted)
    ensures Known(entry, accepted) ==>
      (b in Update(bits, entry, accepted).value <==>
       if About(entry, accepted, b) then !(entry != "" && entry[0] == '~') else b in bits)
  {
    hide InAliases;
    var k := Find(if Inverted(entry) then entry[1..] else entry, accepted);
    if k < |accepted| {
      assert StandsFor(entry, accepted, k);
      if About(entry, accepted, b) {
        var j :| 0 <= j < |accepted| && StandsFor(entry, accepted, j) && b in accepted[j].value;
        OneMeaning(entry, accepted, j, k);
      }
    }
  }

  lemma LastAddsStep(entries: seq<string>, accepted: seq<Entry>, b: Bit, before: bool)
    requires entries != []
    ensures var e := entries[0];
            LastAdds(entries, accepted, b, before) <==>
            LastAdds(entries[1..], accepted, b, if About(e, accepted, b) then !(e != "" && e[0] == '~') else before)
  {
    hide About;
    var e, rest := entries[0], entries[1..];
    var now := if About(e, accepted, b) then !(e != "" && e[0] == '~') else before;
    assert forall i :: 0 <= i < |rest| ==> rest[i] == entries[i + 1];
    forall i: nat | i < |rest| ensures LastAbout(rest, accepted, b, i) <==> LastAbout(entries, accepted, b, i + 1) {
      assert forall j :: i + 1 < j < |entries| ==> entries[j] == rest[j - 1];
    }
    if LastAdds(rest, accepted, b, now) {
      if i :| 0 <= i < |rest| && LastAbout(rest, accepted, b, i) && !(rest[i] != "" && rest[i][0] == '~') {
        assert LastAbout(entries, accepted, b, i + 1);
      } else if About(e, accepted, b) {
        assert LastAbout(entries, accepted, b, 0);
      }
    }
    if LastAdds(entries, accepted, b, before) {
      if i :| 0 <= i < |entries| && LastAbout(entries, accepted, b, i) && !(entries[i] != "" && entries[i][0] == '~') {
        assert i > 0 ==> LastAbout(rest, accepted, b, i - 1);
      }
    }
  }

  /** Applying entries goes on up to the first unknown one.  A bit is in the result exactly if
      the last applied entry about it has no tilde. */
  lemma {:induction false} EntriesAre(entries: seq<string>, accepted: seq<Entry>, bits: Bits, b: Bit) returns (n: nat)
    ensures n <= |entries| && (forall i :: 0 <= i < n ==> Known(entries[i], accepted))
    ensures n < |entries| ==> !Known(entries[n], accepted)
    ensures ParseEntries(entries, accepted, bits).ok <==> n == |entries|
    ensures b in ParseEntries(entries, accepted, bits).bits <==> LastAdds(entries[..n], accepted, b, b in bits)
  {
    hide Known, About, Update;
    n := 0;
    assert LastAdds(entries[..0], accepted, b, b in bits) <==> b in bits;
    if entries != [] {
      UpdateIs(bits, entries[0], accepted, b);
      if Known(entries[0], accepted) {
        n := EntriesAre(entries[1..], accepted, Update(bits, entries[0], accepted).value, b);
        n := n + 1;
        assert entries[..n][1..] == entries[1..][..n - 1];
        LastAddsStep(entries[..n], accepted, b, b in bits);
      }
    }
  }

  /** None is meant by two words, whatever the case of their letters. */
  ghost predicate NoneOr(value: string, accepted: seq<Entry>, p: Parsed) {
    if SameIgnoringCase(value, "none") || SameIgnoringCase(value, "no") then p == Parsed(true, {})
    else
      var entries := Entries(Tokens(value, 0));
      (p.ok <==> forall i :: 0 <= i < |entries| ==> Known(entries[i], accepted)) &&
      (p.ok ==> forall b: Bit :: b in p.bits <==> LastAdds(entries, accepted, b, false))
  }

  lemma ParsedIs(value: string, accepted: seq<Entry>)
    ensures NoneOr(value, accepted, ParsedBitset(value, accepted))
  {
    hide SameIgnoringCase, Known, LastAdds, ParseEntries, Entries, Tokens;
    if !MeansNone(value) {
      var entries := Entries(Tokens(value, 0));
      var n := EntriesAre(entries, accepted, {}, 0);
      forall b: Bit ensures n == |entries| ==>
        (b in ParseEntries(entries, accepted, {}).bits <==> LastAdds(entries, accepted, b, false))
      {
        var m := EntriesAre(entries, accepted, {}, b);
        assert m == |entries| ==> entries[..m] == entries;
      }
    }
  }

  /** The entries are the tokens without the white space around them, where anything is left. */
  lemma {:induction false} EntriesOf(tokens: seq<string>, t: string)
    ensures t in Entries(tokens) <==> t != "" && exists k :: 0 <= k < |tokens| && t == Trim(tokens[k])
  {
    hide Trim;
    if tokens != [] {
      EntriesOf(tokens[1..], t);
      assert forall k :: 0 <= k < |tokens| - 1 ==> tokens[1..][k] == tokens[k + 1];
      if k :| 0 <= k < |tokens| && t == Trim(tokens[k]) {
        assert k > 0 ==> tokens[1..][k - 1] == tokens[k];
      }
    }
  }

  // ------------------------------------------------------------------------ the parsers

  method FindAccepted(name: string, accepted: seq<Entry>) returns (k: nat)
    ensures k == Find(name, accepted)
  {
    hide InAliases;
    k := 0;
    while k < |accepted|
      invariant 0 <= k <= |accepted| && forall j :: 0 <= j < k ==> !InAliases(name, accepted[j].name)
    {
      var found := StringInAliasList(name, accepted[k].name);
      if found { break; }
      k := k + 1;
    }
    FindUnique(name, accepted, k);
  }

  /** The first token of the value is nothing but white space. */
  predicate Blocked(value: string) { Tokens(value, 0) != [] && Trim(Tokens(value, 0)[0]) == "" }

  /** The loop over the entries: the copy of the value, where strtok goes on, whether it is
      told to start over, the bits so far, and what is returned once the loop has ended. */
  datatype Loop = Loop(copy: string, next: nat, restart: bool, bits: Bits, result: Option<Parsed>)

  /** Where the next call of strtok looks for a token. */
  function From(s: Loop): nat { if s.restart then 0 else s.next }

  /** One turn of the loop. */
  ghost function Turn(s: Loop, accepted: seq<Entry>): (t: Loop)
    ensures |t.copy| == |s.copy|
  {
    if s.result.Some? || From(s) > |s.copy| then s
    else
      var cut := NextCut(s.copy, From(s));
      if !cut.found then s.(result := Some(Parsed(true, s.bits)))
      else if cut.entry == "" then Loop(cut.copy, cut.saved, s.restart, s.bits, None)
      else match Update(s.bits, cut.entry, accepted)
        case None => Loop(cut.copy, cut.saved, false, s.bits, Some(Parsed(false, s.bits)))
        case Some(bits) => Loop(cut.copy, cut.saved, false, bits, None)
  }

  ghost function After(s: Loop, accepted: seq<Entry>, n: nat): Loop {
    if n == 0 then s else Turn(After(s, accepted, n - 1), accepted)
  }

  function StartLoop(value: string): Loop { Loop(value + [NUL], 0, true, {}, None) }

  /** The loop has not ended, and its copy reads as the value from where it goes on. */
  ghost predicate Reading(s: Loop, value: string) {
    s.result == None && Holds(s.copy, value, From(s)) && (s.restart ==> !Blocked(value))
  }

  /** A turn of the loop, in terms of the tokens of the value. */
  lemma TurnReads(s: Loop, accepted: seq<Entry>, value: string)
    requires Reading(s, value)
    ensures var t, rest := Turn(s, accepted), ParseEntries(Entries(Tokens(value, From(s))), accepted, s.bits);
            if t.result.Some? then t.result == Some(rest)
            else Reading(t, value) && From(s) < From(t) <= |value| &&
                 rest == ParseEntries(Entries(Tokens(value, From(t))), accepted, t.bits)
  {
    hide Tokens, Trim, NextCut, Update;
    var first := CutStep(s.copy, value, From(s));
    if Tokens(value, From(s)) != [] { EntriesStep(Tokens(value, From(s)), accepted, s.bits); }
  }

  /** The loop ends with the entries of the value applied in order. */
  lemma {:induction false} Finishes(s: Loop, accepted: seq<Entry>, value: string) returns (n: nat)
    requires Reading(s, value)
    ensures After(s, accepted, n).result == Some(ParseEntries(Entries(Tokens(value, From(s))), accepted, s.bits))
    decreases |value| - From(s)
  {
    TurnReads(s, accepted, value);
    hide Tokens, Trim, NextCut, Turn;
    var t := Turn(s, accepted);
    assert After(s, accepted, 1) == t by { assert After(s, accepted, 0) == s; }
    if t.result.Some? {
      n := 1;
    } else {
      n := Finishes(t, accepted, value);
      AfterFirst(s, accepted, n);
      n := n + 1;
    }
  }

  lemma {:induction false} AfterFirst(s: Loop, accepted: seq<Entry>, n: nat)
    ensures After(s, accepted, n + 1) == After(Turn(s, accepted), accepted, n)
  {
    hide Turn;
    if n > 0 { AfterFirst(s, accepted, n - 1); } else { assert After(s, accepted, 0) == s; }
  }

  /** strtok starts over on a value whose first token is white space. */
  ghost predicate Starting(s: Loop, value: string) {
    s.result == None && s.restart && Holds(s.copy, value, 0) && Blocked(value)
  }

  /** However many turns the loop makes, it is about to start over on such a value. */
  lemma {:induction false} StartsOver(s: Loop, accepted: seq<Entry>, value: string, n: nat) returns (again: string)
    requires Starting(s, value)
    ensures Starting(After(s, accepted, n), again)
  {
    hide Turn, Starting;
    if n == 0 {
      again := value;
    } else {
      again := StartsOver(s, accepted, value, n - 1);
      again := TurnStartsOver(After(s, accepted, n - 1), accepted, again);
    }
  }

  lemma TurnStartsOver(s: Loop, accepted: seq<Entry>, value: string) returns (again: string)
    requires Starting(s, value)
    ensures Starting(Turn(s, accepted), again)
  {
    hide Tokens, Trim, NextCut, Update;
    again := CutStep(s.copy, value, 0);
  }

  lemma CopyHolds(value: string)
    requires CString(value)
    ensures Holds(value + [NUL], value, 0)
  {
    assert (value + [NUL])[0..|value|] == value[0..];
  }

  /** The loop ends, and then with the entries applied in order, exactly when the first token
      of the value is more than white space. */
  lemma ParseEndsIff(value: string, accepted: seq<Entry>)
    requires CString(value)
    ensures (exists n: nat :: After(StartLoop(value), accepted, n).result.Some?) <==> !Blocked(value)
    ensures !Blocked(value) ==>
      exists n: nat :: After(StartLoop(value), accepted, n).result ==
                       Some(ParseEntries(Entries(Tokens(value, 0)), accepted, {}))
  {
    hide After, Blocked, Tokens;
    var s := StartLoop(value);
    CopyHolds(value);
    if Blocked(value) {
      forall n: nat ensures After(s, accepted, n).result == None {
        var again := StartsOver(s, accepted, value, n);
      }
    } else {
      var n := Finishes(s, accepted, value);
      assert After(s, accepted, n).result.Some?;
    }
  }

  /** A tab alone, or before the first comma, is read forever. */
  lemma TabIsBlocked(rest: string)
    requires rest == "" || rest[0] == ','
    ensures Blocked("\t" + rest)
  {
    var value := "\t" + rest;
    RunEndUnique(value, 0, 0, IsDelimiter);
    RunEndUnique(value, 0, 1, InToken);
    assert Tokens(value, 0)[0] == value[0..1] == "\t";
    RunEndUnique("\t", 0, 1, IsSpace);
  }

  /** parse_bitset.  A first token of mere white space is excluded, because the loop would
      not end (ParseEndsIff). */
  method ParseBitset(value: string, accepted: seq<Entry>) returns (ok: bool, bits: Bits)
    requires CString(value) && !Blocked(value)
    ensures Parsed(ok, bits) == ParsedBitset(value, accepted) && NoneOr(value, accepted, Parsed(ok, bits))
  {
    ParsedIs(value, accepted);
    hide Tokens, Turn, NoneOr, SameIgnoringCase;
    var none := EqualIgnoringCase(value, "none");
    var no := EqualIgnoringCase(value, "no");
    if none || no { return true, {}; }
    var copy := CopyString(value);
    var next, restart, done := 0, true, false;
    bits := {};
    while true
      invariant fresh(copy) && Reading(Loop(copy[..], next, restart, bits, None), value)
      invariant ParsedBitset(value, accepted) ==
                ParseEntries(Entries(Tokens(value, if restart then 0 else next)), accepted, bits)
      decreases |value| - (if restart then 0 else next)
    {
      TurnReads(Loop(copy[..], next, restart, bits, None), accepted, value);
      done, ok, next, restart, bits := TakeTurn(copy, next, restart, bits, accepted, value);
      if done { return ok, bits; }
    }
  }

  /** The body of the loop. */
  method TakeTurn(copy: array<char>, next0: nat, restart0: bool, bits0: Bits, accepted: seq<Entry>, ghost value: string)
    returns (done: bool, ok: bool, next: nat, restart: bool, bits: Bits)
    requires Holds(copy[..], value, if restart0 then 0 else next0)
    modifies copy
    ensures var s, t := Loop(old(copy[..]), next0, restart0, bits0, None), Loop(copy[..], next, restart, bits, None);
            if done then Turn(s, accepted).result == Some(Parsed(ok, bits)) else Turn(s, accepted) == t
  {
    hide NextCut, Update;
    var found, start, saved := NextEntry(copy, if restart0 then 0 else next0, value);
    if !found { return true, true, next0, restart0, bits0; }
    var entry := Text(copy[..], start);
    if entry == "" { return false, true, saved, restart0, bits0; }
    ok, bits := ApplyEntry(entry, accepted, bits0);
    return !ok, ok, saved, false, bits;
  }

  method CopyString(value: string) returns (copy: array<char>)
    requires CString(value)
    ensures fresh(copy) && copy.Length == |value| + 1 && Holds(copy[..], value, 0)
  {
    copy := new char[|value| + 1](i => if 0 <= i < |value| then value[i] else NUL);
    assert copy[0..|value|] == value[0..];
  }

  /** One turn of the loop over the entries. */
  method ApplyEntry(entry: string, accepted: seq<Entry>, bits: Bits) returns (ok: bool, next: Bits)
    ensures ok == Update(bits, entry, accepted).Some?
    ensures next == if ok then Update(bits, entry, accepted).value else bits
  {
    var invert := Inverted(entry);
    var k := FindAccepted(if invert then entry[1..] else entry, accepted);
    if k == |accepted| { return false, bits; }
    return true, if invert then bits - accepted[k].value else bits + accepted[k].value;
  }

  lemma EntriesStep(tokens: seq<string>, accepted: seq<Entry>, bits: Bits)
    requires tokens != []
    ensures ParseEntries(Entries(tokens), accepted, bits) ==
            (if Trim(tokens[0]) == "" then ParseEntries(Entries(tokens[1..]), accepted, bits)
             else match Update(bits, Trim(tokens[0]), accepted)
               case None => Parsed(false, bits)
               case Some(next) => ParseEntries(Entries(tokens[1..]), accepted, next))
  {
    hide Trim, Update;
    if Trim(tokens[0]) != "" {
      assert Entries(tokens)[1..] == Entries(tokens[1..]);
    }
  }

  // ------------------------------------------------------------------------ the printers

  /** The names of the accepted values that are taken, in order, each from what is left. */
  function Printed(bits: Bits, accepted: seq<Entry>): seq<string> {
    if accepted == [] then []
    else
      var value := accepted[0].value;
      if value <= bits then [FirstAlias(accepted[0].name)] + Printed(bits - value, accepted[1..])
      else Printed(bits, accepted[1..])
  }

  /** The bits that are left. */
  function Leftover(bits: Bits, accepted: seq<Entry>): Bits {
    if accepted == [] then bits
    else
      var value := accepted[0].value;
      Leftover(if value <= bits then bits - value else bits, accepted[1..])
  }

  function QuoteEach(names: seq<string>): seq<string> { seq(|names|, i requires 0 <= i < |names| => Quoted(names[i])) }

  /** What is printed for a list of names. */
  function ListText(names: seq<string>): string { JoinedList(QuoteEach(names)) }

  /** The first name of an alias list, quoted. */
  method QuoteFirst(name: string) returns (text: string)
    ensures text == Quoted(FirstAlias(name))
  {
    var next := FindSlash(name, 0);
    var quoted := SingleQuote(name, next);
    text := quoted[..quoted.Length - 1];
    assert name[..next] == name[0..next];
    assert text == Quoted(name[..next]);
  }

  /** dump_bitset */
  method DumpBitset(name: string, bitmask: Bits, accepted: seq<Entry>) returns (out: string)
    ensures out == name + "=" + ListText(Printed(bitmask, accepted)) + "\n"
  {
    hide Quoted, FirstAlias;
    var sep, bits := "", bitmask;
    out := name + "=";
    ghost var done: seq<string> := [];
    var k := 0;
    while k < |accepted|
      invariant 0 <= k <= |accepted| && out == name + "=" + ListText(done) && (sep == if done == [] then "" else ",")
      invariant Printed(bitmask, accepted) == done + Printed(bits, accepted[k..])
    {
      var value := accepted[k].value;
      assert accepted[k..][1..] == accepted[k + 1..];
      if value <= bits {
        var quoted := QuoteFirst(accepted[k].name);
        ListTextStep(done, FirstAlias(accepted[k].name));
        out := out + sep + quoted;
        sep := ",";
        done := done + [FirstAlias(accepted[k].name)];
        bits := bits - value;
      }
      k := k + 1;
    }
    assert Printed(bitmask, accepted) == done + [] == done;
    out := out + "\n";
  }

  lemma {:induction false} JoinedListStep(list: seq<string>, item: string)
    ensures JoinedList(list + [item]) == JoinedList(list) + (if list == [] then "" else ",") + item
  {
    if |list| == 1 {
      assert (list + [item])[1..] == [item];
    } else if list != [] {
      JoinedListStep(list[1..], item);
      assert (list + [item])[1..] == list[1..] + [item];
    }
  }

  lemma ListTextStep(names: seq<string>, name: string)
    ensures ListText(names + [name]) == ListText(names) + (if names == [] then "" else ",") + Quoted(name)
  {
    hide Quoted;
    JoinedListStep(QuoteEach(names), Quoted(name));
    assert QuoteEach(names + [name]) == QuoteEach(names) + [Quoted(name)];
  }

  /** The shell reads the printed list as the names joined by commas. */
  lemma {:induction false} ListTextReads(names: seq<string>)
    ensures Unquote(ListText(names), false) == Some(JoinedList(names))
    decreases |names|
  {
    hide Quoted;
    if names == [] {
    } else if |names| == 1 {
      QuoteRoundTrip(names[0]);
    } else {
      ListTextReads(names[1..]);
      ListTextLonger(names);
    }
  }

  lemma ListTextLonger(names: seq<string>)
    requires |names| > 1 && Unquote(ListText(names[1..]), false) == Some(JoinedList(names[1..]))
    ensures Unquote(ListText(names), false) == Some(JoinedList(names))
  {
    hide Unquote, Quoted, JoinedList;
    var rest := names[1..];
    assert QuoteEach(names)[1..] == QuoteEach(rest);
    QuotedReads(names[0], "," + ListText(rest));
    CommaReads(ListText(rest));
    JoinedListFirst(QuoteEach(names));
    JoinedListFirst(names);
  }

  lemma JoinedListFirst(list: seq<string>)
    requires |list| > 1
    ensures JoinedList(list) == list[0] + ("," + JoinedList(list[1..]))
  {
    assert list[0] + "," + JoinedList(list[1..]) == list[0] + ("," + JoinedList(list[1..]));
  }

  lemma CommaReads(tail: string)
    ensures Unquote("," + tail, false) == Prefix(',', Unquote(tail, false))
  {
    assert ("," + tail)[1..] == tail;
  }

  // ---------------------------------------------------------------- the bitset round trip

  /** What the accepted values must be like for their first names to be read back: plain
      words without a leading tilde, that mean their own value and no earlier one. */
  ghost predicate Clean(accepted: seq<Entry>) {
    forall k :: 0 <= k < |accepted| ==> CleanAt(accepted, k)
  }

  ghost predicate CleanAt(accepted: seq<Entry>, k: nat)
    requires k < |accepted|
  {
    var name := FirstAlias(accepted[k].name);
    PlainToken(name) && !Inverted(name) && !MeansNone(name) && Find(name, accepted) == k
  }

  /** Reading the names printed for a part of the bits adds what is not left over. */
  lemma {:induction false} PrintedReads(bits: Bits, accepted: seq<Entry>, k: nat, sum: Bits)
    requires k <= |accepted| && Clean(accepted)
    ensures ParseEntries(Printed(bits, accepted[k..]), accepted, sum) ==
            Parsed(true, sum + (bits - Leftover(bits, accepted[k..])))
    decreases |accepted| - k
  {
    hide Find, PlainToken, MeansNone;
    if k == |accepted| {
    } else {
      var value := accepted[k].value;
      assert accepted[k..][1..] == accepted[k + 1..];
      assert CleanAt(accepted, k);
      if value <= bits {
        var rest := bits - value;
        LeftoverWithin(rest, accepted[k + 1..]);
        PrintedReads(rest, accepted, k + 1, sum + value);
        assert Printed(bits, accepted[k..])[1..] == Printed(rest, accepted[k + 1..]);
      } else {
        PrintedReads(bits, accepted, k + 1, sum);
      }
    }
  }

  lemma {:induction false} LeftoverWithin(bits: Bits, accepted: seq<Entry>)
    ensures Leftover(bits, accepted) <= bits
  {
    if accepted != [] {
      var value := accepted[0].value;
      LeftoverWithin(if value <= bits then bits - value else bits, accepted[1..]);
    }
  }

  lemma {:induction false} PrintedAreFirst(bits: Bits, accepted: seq<Entry>, i: nat) returns (k: nat)
    requires i < |Printed(bits, accepted)|
    ensures k < |accepted| && Printed(bits, accepted)[i] == FirstAlias(accepted[k].name)
  {
    var value := accepted[0].value;
    if !(value <= bits) {
      k := PrintedAreFirst(bits, accepted[1..], i);
      k := k + 1;
    } else if i == 0 {
      k := 0;
    } else {
      k := PrintedAreFirst(bits - value, accepted[1..], i - 1);
      k := k + 1;
    }
  }

  lemma {:induction false} EntriesOfPlain(tokens: seq<string>)
    requires forall k :: 0 <= k < |tokens| ==> PlainToken(tokens[k])
    ensures Entries(tokens) == tokens
  {
    if tokens != [] {
      TrimPlain(tokens[0]);
      EntriesOfPlain(tokens[1..]);
    }
  }

  /** What a list of plain names other than none and no is read as. */
  lemma PlainListReads(names: seq<string>, accepted: seq<Entry>)
    requires forall k :: 0 <= k < |names| ==> PlainToken(names[k]) && !MeansNone(names[k])
    ensures var value := JoinedList(names);
            CString(value) && !Blocked(value) && ParsedBitset(value, accepted) == ParseEntries(names, accepted, {})
  {
    hide Tokens, Trim, Find;
    var value := JoinedList(names);
    TokensOfJoined("", names);
    assert "" + value == value;
    EntriesOfPlain(names);
    NotNone(names);
    if names != [] { TrimPlain(names[0]); }
  }

  lemma NotNone(names: seq<string>)
    requires forall k :: 0 <= k < |names| ==> PlainToken(names[k]) && !MeansNone(names[k])
    ensures !MeansNone(JoinedList(names))
  {
    if |names| > 1 {
      assert JoinedList(names)[|names[0]|] == ',';
      HasComma(JoinedList(names), |names[0]|);
    }
  }

  lemma HasComma(value: string, k: nat)
    requires k < |value| && value[k] == ','
    ensures !MeansNone(value)
  {
    assert forall i :: 0 <= i < 4 ==> !SameLetter(',', "none"[i]);
    assert forall i :: 0 <= i < 2 ==> !SameLetter(',', "no"[i]);
  }

  lemma TildeIsNotNone(value: string)
    requires value != "" && value[0] == '~'
    ensures !MeansNone(value)
  {
    assert !SameLetter('~', "none"[0]);
  }

  lemma {:induction false} ParseAppend(entries: seq<string>, entry: string, accepted: seq<Entry>, bits: Bits)
    requires ParseEntries(entries, accepted, bits).ok
    ensures ParseEntries(entries + [entry], accepted, bits) ==
            var p := ParseEntries(entries, accepted, bits).bits;
            match Update(p, entry, accepted) case None => Parsed(false, p) case Some(next) => Parsed(true, next)
  {
    hide Update;
    if entries == [] {
      assert [entry][1..] == [];
    } else {
      assert (entries + [entry])[1..] == entries[1..] + [entry];
      ParseAppend(entries[1..], entry, accepted, Update(bits, entries[0], accepted).value);
    }
  }

  lemma TildeToken(name: string)
    requires PlainToken(name)
    ensures PlainToken("~" + name)
  {
    var entry := "~" + name;
    assert forall k :: 0 <= k < |name| ==> entry[k + 1] == name[k];
  }

  /** A name behind a tilde at the end of a list takes away the bits of its value. */
  lemma InvertedRemoves(names: seq<string>, accepted: seq<Entry>, name: string, k: nat)
    requires forall i :: 0 <= i < |names| ==> PlainToken(names[i]) && !MeansNone(names[i])
    requires PlainToken(name) && k < |accepted| && InAliases(name, accepted[k].name)
    requires forall j :: 0 <= j < k ==> !InAliases(name, accepted[j].name)
    requires ParsedBitset(JoinedList(names), accepted).ok
    ensures ParsedBitset(JoinedList(names + ["~" + name]), accepted) ==
            Parsed(true, ParsedBitset(JoinedList(names), accepted).bits - accepted[k].value)
  {
    hide PlainToken, MeansNone, InAliases, Tokens, Entries, ParsedBitset;
    var entry := "~" + name;
    TildeToken(name);
    TildeIsNotNone(entry);
    PlainListReads(names, accepted);
    PlainListReads(names + [entry], accepted);
    ParseAppend(names, entry, accepted, {});
    assert entry[1..] == name;
    FindUnique(name, accepted, k);
  }

  /** Printing a set, reading the text in the shell and parsing it gives the set without
      the greedy leftover. */
  lemma BitsetRoundTrip(bits: Bits, accepted: seq<Entry>)
    requires Clean(accepted)
    ensures var text := Unquote(ListText(Printed(bits, accepted)), false);
            text.Some? && CString(text.value) && !Blocked(text.value) &&
            ParsedBitset(text.value, accepted) == Parsed(true, bits - Leftover(bits, accepted))
  {
    var names := Printed(bits, accepted);
    ListTextReads(names);
    forall i | 0 <= i < |names| ensures PlainToken(names[i]) && !MeansNone(names[i]) {
      var k := PrintedAreFirst(bits, accepted, i);
      assert CleanAt(accepted, k);
    }
    hide PlainToken, MeansNone, ListText, Printed, Blocked, ParsedBitset;
    PlainListReads(names, accepted);
    assert accepted[0..] == accepted;
    PrintedReads(bits, accepted, 0, {});
  }

  lemma BackIff(bits: Bits, accepted: seq<Entry>)
    requires Clean(accepted)
    ensures ReadBack(bits, accepted) <==> Leftover(bits, accepted) == {}
  {
    BitsetRoundTrip(bits, accepted);
    ListTextReads(Printed(bits, accepted));
    LeftoverWithin(bits, accepted);
    hide Printed, Leftover, ParsedBitset, Unquote, Clean, ListText, Blocked;
    assert bits - Leftover(bits, accepted) == bits <==> Leftover(bits, accepted) == {};
  }

  /** The printed set, read by the shell and parsed, is the set. */
  ghost predicate ReadBack(bits: Bits, accepted: seq<Entry>) {
    var text := Unquote(ListText(Printed(bits, accepted)), false);
    text.Some? && ParsedBitset(text.value, accepted) == Parsed(true, bits)
  }

  /** The chosen values lie in the set, and apart from each other. */
  ghost predicate Fitting(bits: Bits, accepted: seq<Entry>, chosen: seq<bool>)
    requires |chosen| == |accepted|
  {
    (forall k :: 0 <= k < |accepted| && chosen[k] ==> accepted[k].value <= bits) &&
    (forall i, k :: 0 <= i < k < |accepted| && chosen[i] && chosen[k] ==> accepted[i].value !! accepted[k].value)
  }

  /** The bit is in a chosen value. */
  ghost predicate InChosen(b: Bit, accepted: seq<Entry>, chosen: seq<bool>)
    requires |chosen| == |accepted|
  {
    exists k :: 0 <= k < |accepted| && chosen[k] && b in accepted[k].value
  }

  /** Value k overlaps one chosen before it. */
  ghost predicate Overlaps(accepted: seq<Entry>, chosen: seq<bool>, k: nat)
    requires |chosen| == |accepted| && k < |accepted|
  {
    exists i :: 0 <= i < k && chosen[i] && !(accepted[i].value !! accepted[k].value)
  }

  /** A choice of accepted values that makes up the set: they fit, every bit is in one of
      them, and each accepted value in the set that is not chosen overlaps one chosen
      before it. */
  ghost predicate MadeUpOf(bits: Bits, accepted: seq<Entry>, chosen: seq<bool>) {
    |chosen| == |accepted| && Fitting(bits, accepted, chosen) &&
    (forall b :: b in bits ==> InChosen(b, accepted, chosen)) &&
    (forall k :: 0 <= k < |accepted| && !chosen[k] && accepted[k].value <= bits ==> Overlaps(accepted, chosen, k))
  }

  /** The set comes back exactly when it is made up of accepted values in that way. */
  lemma BitsetLosslessIff(bits: Bits, accepted: seq<Entry>)
    requires Clean(accepted)
    ensures ReadBack(bits, accepted) <==> exists chosen :: MadeUpOf(bits, accepted, chosen)
  {
    BackIff(bits, accepted);
    hide ReadBack, Clean, MadeUpOf;
    if Leftover(bits, accepted) == {} {
      var chosen := Taken(bits, accepted);
      assert MadeUpOf(bits, accepted, chosen);
    }
    if exists chosen :: MadeUpOf(bits, accepted, chosen) {
      var chosen :| MadeUpOf(bits, accepted, chosen);
      NothingLeft(bits, accepted, chosen);
    }
  }

  /** Which values the printer takes. */
  lemma {:induction false} Taken(bits: Bits, accepted: seq<Entry>) returns (chosen: seq<bool>)
    requires Leftover(bits, accepted) == {}
    ensures MadeUpOf(bits, accepted, chosen)
  {
    if accepted == [] {
      chosen := [];
    } else {
      var value := accepted[0].value;
      var rest := Taken(if value <= bits then bits - value else bits, accepted[1..]);
      chosen := [value <= bits] + rest;
      TakenStep(bits, accepted, chosen);
    }
  }

  /** A bit is in a chosen value, by whether the first value is chosen. */
  lemma InChosenStep(b: Bit, accepted: seq<Entry>, chosen: seq<bool>)
    requires |chosen| == |accepted| && accepted != []
    ensures InChosen(b, accepted, chosen) <==>
            (chosen[0] && b in accepted[0].value) || InChosen(b, accepted[1..], chosen[1..])
  {
    if InChosen(b, accepted[1..], chosen[1..]) {
      var k :| 0 <= k < |accepted| - 1 && chosen[1..][k] && b in accepted[1..][k].value;
      assert chosen[k + 1] && b in accepted[k + 1].value;
    }
    if InChosen(b, accepted, chosen) {
      var k :| 0 <= k < |accepted| && chosen[k] && b in accepted[k].value;
      if k > 0 { assert chosen[1..][k - 1] && b in accepted[1..][k - 1].value; }
    }
  }

  lemma OverlapsStep(accepted: seq<Entry>, chosen: seq<bool>, k: nat)
    requires |chosen| == |accepted| && 0 < k < |accepted|
    ensures Overlaps(accepted, chosen, k) <==>
            (chosen[0] && !(accepted[0].value !! accepted[k].value)) || Overlaps(accepted[1..], chosen[1..], k - 1)
  {
    var tail, later := accepted[1..], chosen[1..];
    if Overlaps(tail, later, k - 1) {
      var i :| 0 <= i < k - 1 && later[i] && !(tail[i].value !! tail[k - 1].value);
      assert chosen[i + 1] && !(accepted[i + 1].value !! accepted[k].value);
    }
    if Overlaps(accepted, chosen, k) {
      var i :| 0 <= i < k && chosen[i] && !(accepted[i].value !! accepted[k].value);
      if i > 0 { assert later[i - 1] && !(tail[i - 1].value !! tail[k - 1].value); }
    }
  }

  lemma FittingStep(bits: Bits, accepted: seq<Entry>, chosen: seq<bool>)
    requires |chosen| == |accepted| && accepted != [] && (chosen[0] ==> accepted[0].value <= bits)
    ensures Fitting(bits, accepted, chosen) <==>
            Fitting(if chosen[0] then bits - accepted[0].value else bits, accepted[1..], chosen[1..])
  {
    var tail, later := accepted[1..], chosen[1..];
    var rest := if chosen[0] then bits - accepted[0].value else bits;
    if Fitting(rest, tail, later) {
      forall i, k | 0 <= i < k < |accepted| && chosen[i] && chosen[k]
        ensures accepted[i].value !! accepted[k].value
      {
        assert later[k - 1] && tail[k - 1].value <= rest;
        if i > 0 { assert later[i - 1] && tail[i - 1].value !! tail[k - 1].value; }
      }
      forall k | 0 <= k < |accepted| && chosen[k] ensures accepted[k].value <= bits {
        if k > 0 { assert later[k - 1] && tail[k - 1].value <= rest; }
      }
    }
    if Fitting(bits, accepted, chosen) {
      forall k | 0 <= k < |tail| && later[k] ensures tail[k].value <= rest {
        assert chosen[k + 1] && accepted[k + 1].value <= bits;
      }
    }
  }

  lemma TakenStep(bits: Bits, accepted: seq<Entry>, chosen: seq<bool>)
    requires accepted != [] && |chosen| == |accepted| && chosen[0] == (accepted[0].value <= bits)
    requires MadeUpOf(if chosen[0] then bits - accepted[0].value else bits, accepted[1..], chosen[1..])
    ensures MadeUpOf(bits, accepted, chosen)
  {
    hide Fitting, InChosen, Overlaps;
    var value, tail, later := accepted[0].value, accepted[1..], chosen[1..];
    var rest := if chosen[0] then bits - value else bits;
    FittingStep(bits, accepted, chosen);
    forall b | b in bits ensures InChosen(b, accepted, chosen) {
      InChosenStep(b, accepted, chosen);
      if b in rest { assert InChosen(b, tail, later); }
    }
    forall k | 0 <= k < |accepted| && !chosen[k] && accepted[k].value <= bits ensures Overlaps(accepted, chosen, k) {
      OverlapsStep(accepted, chosen, k);
      if tail[k - 1].value <= rest { assert Overlaps(tail, later, k - 1); }
    }
  }

  lemma {:induction false} NothingLeft(bits: Bits, accepted: seq<Entry>, chosen: seq<bool>)
    requires MadeUpOf(bits, accepted, chosen)
    ensures Leftover(bits, accepted) == {}
  {
    if accepted == [] {
      assert forall b :: b !in bits;
    } else {
      LeftStep(bits, accepted, chosen);
      var rest := if chosen[0] then bits - accepted[0].value else bits;
      NothingLeft(rest, accepted[1..], chosen[1..]);
    }
  }

  lemma LeftStep(bits: Bits, accepted: seq<Entry>, chosen: seq<bool>)
    requires accepted != [] && MadeUpOf(bits, accepted, chosen)
    ensures chosen[0] == (accepted[0].value <= bits)
    ensures MadeUpOf(if chosen[0] then bits - accepted[0].value else bits, accepted[1..], chosen[1..])
  {
    FirstChosen(bits, accepted, chosen);
    hide Fitting, InChosen, Overlaps;
    var value, tail, later := accepted[0].value, accepted[1..], chosen[1..];
    var rest := if chosen[0] then bits - value else bits;
    FittingStep(bits, accepted, chosen);
    forall b | b in rest ensures InChosen(b, tail, later) {
      assert InChosen(b, accepted, chosen);
      InChosenStep(b, accepted, chosen);
    }
    forall k | 0 <= k < |tail| && !later[k] && tail[k].value <= rest ensures Overlaps(tail, later, k) {
      assert !chosen[k + 1] && accepted[k + 1].value <= bits;
      OverlapsStep(accepted, chosen, k + 1);
    }
  }

  lemma FirstChosen(bits: Bits, accepted: seq<Entry>, chosen: seq<bool>)
    requires accepted != [] && MadeUpOf(bits, accepted, chosen)
    ensures chosen[0] == (accepted[0].value <= bits)
  {
    assert !Overlaps(accepted, chosen, 0);
  }

  /** Every bit of the set is in an accepted value that lies in the set. */
  predicate Covered(bits: Bits, accepted: seq<Entry>) {
    forall b | b in bits :: exists k :: 0 <= k < |accepted| && accepted[k].value <= bits && b in accepted[k].value
  }

  /** Only such sets come back. */
  lemma BackIsCovered(bits: Bits, accepted: seq<Entry>)
    requires Clean(accepted) && ReadBack(bits, accepted)
    ensures Covered(bits, accepted)
  {
    hide ReadBack, Clean;
    BitsetLosslessIff(bits, accepted);
    var chosen :| MadeUpOf(bits, accepted, chosen);
    forall b | b in bits
      ensures exists k :: 0 <= k < |accepted| && accepted[k].value <= bits && b in accepted[k].value
    {
      assert InChosen(b, accepted, chosen);
      var k :| 0 <= k < |accepted| && chosen[k] && b in accepted[k].value;
    }
  }

  /** Accepted values lie apart, or a later one lies in an earlier one. */
  predicate Nested(accepted: seq<Entry>) {
    forall i, k :: 0 <= i < k < |accepted| ==>
      accepted[i].value !! accepted[k].value || accepted[k].value <= accepted[i].value
  }

  /** With such a table it is just these. */
  lemma NestedLosslessIff(bits: Bits, accepted: seq<Entry>)
    requires Clean(accepted) && Nested(accepted)
    ensures ReadBack(bits, accepted) <==> Covered(bits, accepted)
  {
    hide ReadBack, Clean;
    BackIff(bits, accepted);
    if ReadBack(bits, accepted) { BackIsCovered(bits, accepted); }
    if Covered(bits, accepted) { CoveredLeavesNothing(bits, accepted); }
  }

  lemma {:induction false} CoveredLeavesNothing(bits: Bits, accepted: seq<Entry>)
    requires Nested(accepted) && Covered(bits, accepted)
    ensures Leftover(bits, accepted) == {}
  {
    if accepted != [] {
      var value, tail := accepted[0].value, accepted[1..];
      var rest := if value <= bits then bits - value else bits;
      forall b | b in rest ensures exists k :: 0 <= k < |tail| && tail[k].value <= rest && b in tail[k].value {
        CoveredLater(bits, accepted, b);
      }
      NestedTail(accepted);
      hide Nested;
      CoveredLeavesNothing(rest, tail);
    }
  }

  lemma NestedTail(accepted: seq<Entry>)
    requires accepted != [] && Nested(accepted)
    ensures Nested(accepted[1..])
  {}

  lemma CoveredLater(bits: Bits, accepted: seq<Entry>, b: Bit)
    requires accepted != [] && Nested(accepted) && Covered(bits, accepted)
    requires b in bits && (accepted[0].value <= bits ==> b !in accepted[0].value)
    ensures var tail, rest := accepted[1..], if accepted[0].value <= bits then bits - accepted[0].value else bits;
            exists k :: 0 <= k < |tail| && tail[k].value <= rest && b in tail[k].value
  {
    hide Nested;
    var k :| 0 <= k < |accepted| && accepted[k].value <= bits && b in accepted[k].value;
    FirstAndLater(accepted, k);
    var tail, value := accepted[1..], accepted[0].value;
    assert value <= bits ==> accepted[k].value <= bits - value;
    assert tail[k - 1] == accepted[k];
  }

  lemma FirstAndLater(accepted: seq<Entry>, k: nat)
    requires Nested(accepted) && 0 < k < |accepted|
    ensures accepted[0].value !! accepted[k].value || accepted[k].value <= accepted[0].value
  {}

  /** A table whose first value spoils the set of all bits for the second. */
  const OVERLAPPING := [Entry("a", {0, 1}), Entry("b", {1, 2}), Entry("c", {0})]

  lemma OverlappingClean()
    ensures Clean(OVERLAPPING)
  {
    forall k | 0 <= k < 3 ensures CleanAt(OVERLAPPING, k) {
      Letters(0, k);
      Letters(1, k);
      Letters(2, k);
      FindUnique(OVERLAPPING[k].name, OVERLAPPING, k);
    }
  }

  lemma Letters(i: nat, k: nat)
    requires i < 3 && k < 3
    ensures FirstAlias(OVERLAPPING[k].name) == OVERLAPPING[k].name && PlainToken(OVERLAPPING[k].name)
    ensures InAliases(OVERLAPPING[k].name, OVERLAPPING[i].name) <==> i == k
  {
    var s, t := OVERLAPPING[k].name, OVERLAPPING[i].name;
    RunEndUnique(s, 0, 1, NotSlash);
    RunEndUnique(t, 0, 1, NotSlash);
    hide RunEnd;
    assert s[0..1] == s && t[0..1] == t && Aliases(s, 0) == [s] && Aliases(t, 0) == [t];
    assert SameIgnoringCase(s, t) <==> SameLetter(s[0], t[0]);
    assert InList(s, [t]) <==> SameIgnoringCase(s, [t][0]);
  }

  /** The set of all three bits is printed as "a", and bit 2 is lost, though "b,c" would do. */
  lemma GreedyLoses()
    ensures var bits: Bits := {0, 1, 2};
            Clean(OVERLAPPING) && Covered(bits, OVERLAPPING) && !ReadBack(bits, OVERLAPPING) &&
            ParsedBitset(JoinedList(Printed(bits, OVERLAPPING)), OVERLAPPING) == Parsed(true, {0, 1}) &&
            ParsedBitset(JoinedList(["b", "c"]), OVERLAPPING) == Parsed(true, bits)
  {
    var bits: Bits := {0, 1, 2};
    OverlappingClean();
    AllThreeCovered(bits);
    AllThreeLeave(bits);
    BitsetRoundTrip(bits, OVERLAPPING);
    ListTextReads(Printed(bits, OVERLAPPING));
    BAndC(bits);
    BackIff(bits, OVERLAPPING);
    hide *;
    assert bits - {2} == {0, 1};
  }

  lemma AllThreeCovered(bits: Bits)
    requires bits == {0, 1, 2}
    ensures Covered(bits, OVERLAPPING)
  {
    forall b | b in bits
      ensures exists k :: 0 <= k < |OVERLAPPING| && OVERLAPPING[k].value <= bits && b in OVERLAPPING[k].value
    {
      var k := if b == 2 then 1 else 0;
      assert OVERLAPPING[k].value <= bits && b in OVERLAPPING[k].value;
    }
  }

  lemma AllThreeLeave(bits: Bits)
    requires bits == {0, 1, 2}
    ensures Leftover(bits, OVERLAPPING) == {2}
  {
    var value: Bits, rest: Bits := {0, 1}, {2};
    assert OVERLAPPING[0].value == value && bits - value == rest;
    assert OVERLAPPING[1..] == [Entry("b", {1, 2}), Entry("c", {0})];
    assert OVERLAPPING[1..][1..] == [Entry("c", {0})];
    assert !(OVERLAPPING[1].value <= rest) && !(OVERLAPPING[2].value <= rest);
    assert [Entry("c", {0})][1..] == [];
    assert Leftover(rest, []) == rest;
    assert Leftover(rest, [Entry("c", {0})]) == rest;
    assert Leftover(rest, OVERLAPPING[1..]) == rest;
  }

  lemma BAndC(bits: Bits)
    requires bits == {0, 1, 2}
    ensures ParsedBitset(JoinedList(["b", "c"]), OVERLAPPING) == Parsed(true, bits)
  {
    OverlappingClean();
    Letters(0, 1);
    Letters(0, 2);
    assert CleanAt(OVERLAPPING, 1) && CleanAt(OVERLAPPING, 2);
    var none: Bits := {};
    PlainListReads(["b", "c"], OVERLAPPING);
    assert ["b", "c"][1..] == ["c"];
    assert Update(none, "b", OVERLAPPING) == Some(none + OVERLAPPING[1].value);
    assert Update(OVERLAPPING[1].value, "c", OVERLAPPING) == Some(OVERLAPPING[1].value + OVERLAPPING[2].value);
    assert none + OVERLAPPING[1].value == OVERLAPPING[1].value;
    assert OVERLAPPING[1].value + OVERLAPPING[2].value == bits;
  }

  /** No accepted value fits into what is left over. */
  lemma {:induction false} LeftoverIrreducible(bits: Bits, accepted: seq<Entry>, k: nat)
    requires k < |accepted| && accepted[k].value != {}
    ensures !(accepted[k].value <= Leftover(bits, accepted))
  {
    var value := accepted[0].value;
    var rest := if value <= bits then bits - value else bits;
    if k == 0 {
      LeftoverWithin(rest, accepted[1..]);
      var b :| b in value;
      assert value <= bits ==> b !in rest;
    } else {
      LeftoverIrreducible(rest, accepted[1..], k - 1);
    }
  }

  /** Every bit of the set is an accepted value by itself. */
  predicate BitByBit(bits: Bits, accepted: seq<Entry>) {
    forall b | b in bits :: exists k :: 0 <= k < |accepted| && accepted[k].value == {b}
  }

  /** Then nothing is left over, so the set is read back as it was. */
  lemma BitByBitLossless(bits: Bits, accepted: seq<Entry>)
    requires BitByBit(bits, accepted)
    ensures Leftover(bits, accepted) == {}
  {
    var left := Leftover(bits, accepted);
    if left != {} {
      LeftoverWithin(bits, accepted);
      var b :| b in left;
      var k :| 0 <= k < |accepted| && accepted[k].value == {b};
      LeftoverIrreducible(bits, accepted, k);
    }
  }

  // -------------------------------------------------------------------------- the options

  /** An option is one accepted value, found by any of its names; nothing stands for 0. */
  ghost function ParsedOption(value: string, accepted: seq<Entry>): Parsed {
    var name := Trim(value);
    if name == "" then Parsed(true, {})
    else
      var k := Find(name, accepted);
      if k == |accepted| then Parsed(false, {}) else Parsed(true, accepted[k].value)
  }

  /** parse_optionset */
  method ParseOptionSet(value: string, accepted: seq<Entry>) returns (ok: bool, option: Bits)
    requires CString(value)
    ensures Parsed(ok, option) == ParsedOption(value, accepted)
    ensures ok <==> Trim(value) == "" || exists k :: 0 <= k < |accepted| && InAliases(Trim(value), accepted[k].name)
    ensures Trim(value) == "" || !ok ==> option == {}
    ensures ok && Trim(value) != "" ==>
      exists k :: 0 <= k < |accepted| && StandsFirst(Trim(value), accepted, k) && option == accepted[k].value
  {
    hide Trim, Find;
    var copy := CopyString(value);
    WholeText(copy[..], value);
    var start := TrimString(copy, 0);
    var name := Text(copy[..], start);
    if |name| == 0 { return true, {}; }
    var k := FindAccepted(name, accepted);
    if k == |accepted| { return false, {}; }
    return true, accepted[k].value;
  }

  lemma WholeText(c: seq<char>, value: string)
    requires Holds(c, value, 0)
    ensures Terminated(c, 0) && Text(c, 0) == value
  {
    HoldsRun(c, value, 0, NotNul);
    RunEndUnique(value, 0, |value|, NotNul);
    assert c[0..|value|] == value[0..] == value;
  }

  /** The first accepted value with just these bits. */
  function OptionIndex(option: Bits, accepted: seq<Entry>): (k: nat)
    ensures k <= |accepted| && (k < |accepted| ==> accepted[k].value == option)
    ensures forall j :: 0 <= j < k ==> accepted[j].value != option
  {
    if accepted == [] || accepted[0].value == option then 0 else 1 + OptionIndex(option, accepted[1..])
  }

  function OptionText(option: Bits, accepted: seq<Entry>): string {
    var k := OptionIndex(option, accepted);
    if k < |accepted| then Quoted(FirstAlias(accepted[k].name)) else ""
  }

  ghost predicate FirstWith(option: Bits, accepted: seq<Entry>, k: nat) {
    k < |accepted| && accepted[k].value == option && forall j :: 0 <= j < k ==> accepted[j].value != option
  }

  /** dump_optionset */
  method DumpOptionSet(name: string, option: Bits, accepted: seq<Entry>) returns (out: string)
    ensures out == name + "=" + OptionText(option, accepted) + "\n"
    ensures (forall k :: 0 <= k < |accepted| ==> accepted[k].value != option) ==> out == name + "=" + "\n"
    ensures forall k :: 0 <= k < |accepted| && FirstWith(option, accepted, k) ==>
      out == name + "=" + Quoted(FirstAlias(accepted[k].name)) + "\n"
  {
    out := name + "=";
    var k := 0;
    while k < |accepted|
      invariant 0 <= k <= |accepted| && forall j :: 0 <= j < k ==> accepted[j].value != option
      invariant out == name + "="
    {
      if option == accepted[k].value {
        var quoted := QuoteFirst(accepted[k].name);
        out := out + quoted;
        break;
      }
      k := k + 1;
    }
    IndexUnique(option, accepted, k);
    out := out + "\n";
    assert name + "=" + "" == name + "=";
  }

  lemma IndexUnique(option: Bits, accepted: seq<Entry>, k: nat)
    requires k <= |accepted| && (k < |accepted| ==> accepted[k].value == option)
    requires forall j :: 0 <= j < k ==> accepted[j].value != option
    ensures OptionIndex(option, accepted) == k
  {}

  /** The first name of the value finds it: not blank at its ends, not empty, and no earlier
      value goes by it. */
  ghost predicate NamesItself(accepted: seq<Entry>, k: nat)
    requires k < |accepted|
  {
    var name := FirstAlias(accepted[k].name);
    name != "" && Trimmed(name) && Find(name, accepted) == k
  }

  /** An accepted option comes back as itself, any other as 0. */
  lemma OptionRoundTrip(option: Bits, accepted: seq<Entry>)
    requires forall k :: 0 <= k < |accepted| ==> NamesItself(accepted, k)
    ensures var text := Unquote(OptionText(option, accepted), false);
            text.Some? && ParsedOption(text.value, accepted) ==
            Parsed(true, if OptionIndex(option, accepted) < |accepted| then option else {})
  {
    hide Find, OptionIndex;
    var k := OptionIndex(option, accepted);
    if k < |accepted| {
      assert NamesItself(accepted, k);
      var name := FirstAlias(accepted[k].name);
      QuoteRoundTrip(name);
      TrimPlain(name);
    }
  }
}
