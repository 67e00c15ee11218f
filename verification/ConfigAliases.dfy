/** Alias lists of configuration values, src/measurement/SCOREP_Config.c: names separated
    by slashes, compared ignoring case. */
module ConfigAliases {
  import opened CStrings

  predicate SameIgnoringCase(s: string, t: string) {
    |s| == |t| && forall k :: 0 <= k < |s| ==> SameLetter(s[k], t[k])
  }

  predicate NotSlash(c: char) { c != '/' }

  /** The names of a list, from position i on. */
  function Aliases(s: string, i: nat): (names: seq<string>)
    requires i <= |s|
    ensures names != [] && names[0] == s[i..RunEnd(s, i, NotSlash)]
    decreases |s| - i
  {
    var e := RunEnd(s, i, NotSlash);
    if e == |s| then [s[i..e]] else [s[i..e]] + Aliases(s, e + 1)
  }

  function FirstAlias(s: string): string { Aliases(s, 0)[0] }

  predicate InList(value: string, names: seq<string>) {
    exists k :: 0 <= k < |names| && SameIgnoringCase(value, names[k])
  }

  predicate InAliases(value: string, s: string) { InList(value, Aliases(s, 0)) }

  function JoinAliases(names: seq<string>): string
    requires names != []
  {
    if |names| == 1 then names[0] else names[0] + "/" + JoinAliases(names[1..])
  }

  /** Nothing is lost between the names but the slashes. */
  lemma {:induction false} AliasesJoin(s: string, i: nat)
    requires i <= |s|
    ensures JoinAliases(Aliases(s, i)) == s[i..]
    decreases |s| - i
  {
    hide RunEnd, Within;
    var e := RunEnd(s, i, NotSlash);
    if e < |s| {
      AliasesJoin(s, e + 1);
      assert s[i..] == s[i..e] + "/" + s[e + 1..];
    }
  }

  /** No name has a slash in it. */
  lemma {:induction false} AliasesWithoutSlash(s: string, i: nat, k: nat)
    requires i <= |s| && k < |Aliases(s, i)|
    ensures All(Aliases(s, i)[k], NotSlash)
    decreases k
  {
    var e := RunEnd(s, i, NotSlash);
    SliceOf(s, i, e, NotSlash);
    hide RunEnd, All;
    if k > 0 { AliasesWithoutSlash(s, e + 1, k - 1); }
  }

  /** equal_icase_stringn, on the characters of str2 from a given position: the loop runs
      backwards. */
  method EqualIgnoringCaseN(str1: string, str2: string, at: nat, length: nat) returns (equal: bool)
    requires length <= |str1| && at + length <= |str2|
    ensures equal <==> SameIgnoringCase(str1[..length], str2[at..at + length])
  {
    var n := length;
    while n > 0
      invariant 0 <= n <= length
      invariant forall k :: n <= k < length ==> SameLetter(str1[k], str2[at + k])
    {
      n := n - 1;
      UpperSame(str1[n], str2[at + n]);
      if ToUpper(str1[n]) != ToUpper(str2[at + n]) {
        assert str1[..length][n] == str1[n] && str2[at..at + length][n] == str2[at + n];
        return false;
      }
    }
    return true;
  }

  /** equal_icase_string */
  method EqualIgnoringCase(str1: string, str2: string) returns (equal: bool)
    ensures equal <==> SameIgnoringCase(str1, str2)
    ensures equal <==>
      (|str1| == |str2| &&
       forall k :: 0 <= k < |str1| ==>
         str1[k] == str2[k] ||
         ('a' <= str1[k] <= 'z' && str2[k] as int == str1[k] as int - 32) ||
         ('a' <= str2[k] <= 'z' && str1[k] as int == str2[k] as int - 32))
  {
    if |str1| != |str2| { return false; }
    equal := EqualIgnoringCaseN(str1, str2, 0, |str1|);
    assert str1[..|str1|] == str1 && str2[0..0 + |str1|] == str2;
  }

  /** strchr( str, '/' ), or the end of the string. */
  method FindSlash(s: string, start: nat) returns (next: nat)
    requires start <= |s|
    ensures next == RunEnd(s, start, NotSlash)
  {
    next := start;
    while next < |s| && s[next] != '/'
      invariant start <= next <= |s| && Within(s, start, next, NotSlash)
    {
      next := next + 1;
    }
    RunEndUnique(s, start, next, NotSlash);
  }

  /** string_in_alias_list */
  method StringInAliasList(value: string, aliases: string) returns (found: bool)
    ensures found <==> InAliases(value, aliases)
  {
    hide Aliases, InList, SameIgnoringCase;
    var curr := 0;
    while true
      invariant 0 <= curr <= |aliases|
      invariant InAliases(value, aliases) <==> InList(value, Aliases(aliases, curr))
      decreases |aliases| - curr
    {
      var next := FindSlash(aliases, curr);
      var length := next - curr;
      InListStep(value, aliases, curr);
      if |value| == length {
        var equal := EqualIgnoringCaseN(value, aliases, curr, length);
        assert value[..length] == value;
        if equal { return true; }
      }
      if next == |aliases| { return false; }
      curr := next + 1;
    }
  }

  lemma InListIs(value: string, names: seq<string>)
    ensures InList(value, names) <==> exists k :: 0 <= k < |names| && SameIgnoringCase(value, names[k])
  {
    hide SameIgnoringCase;
  }

  /** A value is in an alias list if it is one of the names, ignoring case. */
  lemma InAliasesIs(value: string, s: string)
    ensures InAliases(value, s) <==> exists k :: 0 <= k < |Aliases(s, 0)| && SameIgnoringCase(value, Aliases(s, 0)[k])
  {
    InListIs(value, Aliases(s, 0));
    hide SameIgnoringCase, InList, Aliases;
  }

  /** The first name is what comes before the first slash. */
  lemma FirstAliasIs(s: string)
    ensures var name := FirstAlias(s);
            name <= s && '/' !in name && (name != s ==> s[|name|] == '/')
  {
    var e := RunEnd(s, 0, NotSlash);
    SliceOf(s, 0, e, NotSlash);
  }

  lemma InListStep(value: string, s: string, i: nat)
    requires i <= |s|
    ensures var e := RunEnd(s, i, NotSlash);
            InList(value, Aliases(s, i)) <==>
            SameIgnoringCase(value, s[i..e]) || (e < |s| && InList(value, Aliases(s, e + 1)))
    ensures SameIgnoringCase(value, s[i..RunEnd(s, i, NotSlash)]) ==> |value| == RunEnd(s, i, NotSlash) - i
  {
    var e := RunEnd(s, i, NotSlash);
    var names := Aliases(s, i);
    if e < |s| {
      var rest := Aliases(s, e + 1);
      assert names == [s[i..e]] + rest;
      hide SameIgnoringCase, Aliases;
      if InList(value, rest) {
        var k :| 0 <= k < |rest| && SameIgnoringCase(value, rest[k]);
        assert names[k + 1] == rest[k];
      }
      if InList(value, names) {
        var k :| 0 <= k < |names| && SameIgnoringCase(value, names[k]);
        assert k == 0 || names[k] == rest[k - 1];
      }
    }
  }
}
