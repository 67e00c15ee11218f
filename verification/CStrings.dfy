/** C strings and the character classes of the "C" locale.  A string is the sequence of its
    characters without the terminator; reading at its end gives NUL. */
module CStrings {
  const NUL := '\0'

  predicate CString(s: string) { forall i :: 0 <= i < |s| ==> s[i] != NUL }

  function CharAt(s: string, i: nat): char { if i < |s| then s[i] else NUL }

  predicate IsSpace(c: char) { c == ' ' || '\t' <= c <= '\r' }

  predicate IsDigit(c: char) { '0' <= c <= '9' }

  function ToUpper(c: char): char { if 'a' <= c <= 'z' then c - ('a' - 'A') else c }

  /** The character classes, character by character. */
  lemma ClassesAre(c: char)
    ensures IsSpace(c) <==> c == ' ' || c == '\t' || c == '\n' || c == '\U{B}' || c == '\U{C}' || c == '\r'
    ensures IsDigit(c) <==> c in "0123456789"
    ensures 'a' <= c <= 'z' ==> ToUpper(c) as int == c as int - 32
    ensures !('a' <= c <= 'z') ==> ToUpper(c) == c
  {
    var digits := "0123456789";
    if IsDigit(c) { assert digits[c as int - '0' as int] == c; }
  }

  /** The characters are equal, or one is a small letter and the other its capital. */
  predicate SameLetter(c: char, d: char) {
    c == d || ('a' <= c <= 'z' && c as int == d as int + 32) || ('a' <= d <= 'z' && d as int == c as int + 32)
  }

  lemma UpperSame(c: char, d: char)
    ensures ToUpper(c) == ToUpper(d) <==> SameLetter(c, d)
  {}

  predicate Within(s: string, i: nat, e: nat, p: char -> bool)
    requires i <= e <= |s|
  {
    forall k :: i <= k < e ==> p(s[k])
  }

  predicate All(s: string, p: char -> bool) { Within(s, 0, |s|, p) }

  /** Where the run of characters with property p that starts at i ends. */
  function RunEnd(s: string, i: nat, p: char -> bool): (e: nat)
    requires i <= |s|
    ensures i <= e <= |s| && Within(s, i, e, p) && (e < |s| ==> !p(s[e]))
    decreases |s| - i
  {
    if i < |s| && p(s[i]) then RunEnd(s, i + 1, p) else i
  }

  lemma RunEndUnique(s: string, i: nat, e: nat, p: char -> bool)
    requires i <= e <= |s| && Within(s, i, e, p) && (e < |s| ==> !p(s[e]))
    ensures RunEnd(s, i, p) == e
  {}

  lemma SliceOf(s: string, i: nat, e: nat, p: char -> bool)
    requires i <= e <= |s| && Within(s, i, e, p)
    ensures All(s[i..e], p)
  {}

  lemma ThreeParts(s: string, i: nat, j: nat)
    requires i <= j <= |s|
    ensures s == s[0..i] + s[i..j] + s[j..|s|]
  {}

  lemma RunReaches(s: string, i: nat, e: nat, p: char -> bool)
    requires i <= e <= |s| && Within(s, i, e, p)
    ensures e <= RunEnd(s, i, p)
  {}

  /** A run that ends where the next part of a string begins. */
  lemma RunOfPart(before: string, run: string, after: string, p: char -> bool)
    requires All(run, p) && (after != [] ==> !p(after[0]))
    ensures RunEnd(before + run + after, |before|, p) == |before| + |run|
  {
    var s := before + run + after;
    assert Within(s, |before|, |before| + |run|, p);
    RunEndUnique(s, |before|, |before| + |run|, p);
  }
}
