/** Numbers and sizes in configuration values, src/measurement/SCOREP_Config.c: parsing
    with 64-bit wrap-around, and the printer of sizes. */
module ConfigNumbers {
  import opened MachineWords
  import opened Wrappers
  import opened CStrings

  // ------------------------------------------------------------------------ decimals

  function Digit(c: char): nat
    requires IsDigit(c)
  {
    (c - '0') as int
  }

  /** The number that digits denote, without any bound. */
  function Decimal(digits: string): nat
    requires All(digits, IsDigit)
  {
    if digits == "" then 0 else 10 * Decimal(digits[..|digits| - 1]) + Digit(digits[|digits| - 1])
  }

  function ToDecimal(n: nat): (digits: string)
    ensures All(digits, IsDigit) && digits != "" && Decimal(digits) == n
  {
    var last := '0' + (n % 10) as char;
    if n < 10 then [last]
    else
      var front := ToDecimal(n / 10);
      assert (front + [last])[..|front|] == front;
      front + [last]
  }

  /** What a printed number looks like. */
  lemma PrintedDigits(n: nat)
    ensures var last := "0123456789"[n % 10]; ToDecimal(n) == if n < 10 then [last] else ToDecimal(n / 10) + [last]
  {
    assert "0123456789"[n % 10] == '0' + (n % 10) as char;
    hide Decimal;
  }

  /** The source's overflow check finds nothing: the 64-bit value never decreases. */
  ghost predicate Counts(digits: string)
    requires All(digits, IsDigit)
  {
    digits == "" ||
    (var front := digits[..|digits| - 1];
     Counts(front) && Decimal(front) % TWO_64 <= Decimal(digits) % TWO_64)
  }

  lemma {:induction false} CountsPrefix(digits: string, n: nat)
    requires All(digits, IsDigit) && n <= |digits| && Counts(digits)
    ensures All(digits[..n], IsDigit) && Counts(digits[..n])
    decreases |digits|
  {
    if n < |digits| {
      var front := digits[..|digits| - 1];
      CountsPrefix(front, n);
      assert front[..n] == digits[..n];
    } else {
      assert digits[..n] == digits;
    }
  }

  /** Every number that fits is read without complaint. */
  lemma {:induction false} FittingCounts(digits: string)
    requires All(digits, IsDigit) && Decimal(digits) < TWO_64
    ensures Counts(digits)
  {
    if digits != "" { FittingCounts(digits[..|digits| - 1]); }
  }

  /** What one step of the loop, from n to total, needs so that the check sees a wrap. */
  lemma WrapSeen(n: nat, total: nat)
    requires n < TWO_64 && n <= total
    ensures total % TWO_64 < n <==> total - n < TWO_64 * (total / TWO_64)
  {}

  /** The digits are rejected exactly when at one of them nine times the value before it,
      and the digit, stay below the multiples of 2^64 passed. */
  ghost predicate WrapIsSeen(digits: string)
    requires All(digits, IsDigit)
  {
    exists k: nat :: k < |digits| && SeenAt(digits, k)
  }

  predicate SeenAt(digits: string, k: nat)
    requires All(digits, IsDigit) && k < |digits|
  {
    var n, d := Decimal(digits[..k]) % TWO_64, Digit(digits[k]);
    9 * n + d < TWO_64 * ((10 * n + d) / TWO_64)
  }

  lemma StepModulo(n: nat, d: nat)
    ensures (10 * (n % TWO_64) + d) % TWO_64 == (10 * n + d) % TWO_64
  {
    assert 10 * n + d == 10 * (n % TWO_64) + d + TWO_64 * (10 * (n / TWO_64));
  }

  lemma StepArithmetic(n: nat, d: nat)
    ensures var m := n % TWO_64;
            9 * m + d < TWO_64 * ((10 * m + d) / TWO_64) <==> (10 * n + d) % TWO_64 < m
  {
    StepModulo(n, d);
    WrapSeen(n % TWO_64, 10 * (n % TWO_64) + d);
  }

  lemma StepCheck(digits: string)
    requires All(digits, IsDigit) && digits != ""
    ensures var k := |digits| - 1;
            SeenAt(digits, k) <==> Decimal(digits) % TWO_64 < Decimal(digits[..k]) % TWO_64
  {
    hide Decimal;
    DecimalStep(digits);
    var k := |digits| - 1;
    StepArithmetic(Decimal(digits[..k]), Digit(digits[k]));
  }

  lemma DecimalStep(digits: string)
    requires All(digits, IsDigit) && digits != ""
    ensures var k := |digits| - 1; Decimal(digits) == 10 * Decimal(digits[..k]) + Digit(digits[k])
  {}

  lemma {:induction false} CountsIff(digits: string)
    requires All(digits, IsDigit)
    ensures Counts(digits) <==> !WrapIsSeen(digits)
  {
    if digits != "" {
      CountsIff(digits[..|digits| - 1]);
      StepCheck(digits);
      SeenEarlier(digits);
      hide Decimal, SeenAt, WrapIsSeen;
    }
  }

  lemma SeenEarlier(digits: string)
    requires All(digits, IsDigit) && digits != ""
    ensures var last := |digits| - 1;
            WrapIsSeen(digits) <==> WrapIsSeen(digits[..last]) || SeenAt(digits, last)
  {
    var last := |digits| - 1;
    var front := digits[..last];
    forall k: nat | k < last ensures SeenAt(digits, k) == SeenAt(front, k) {
      assert front[..k] == digits[..k];
    }
    hide SeenAt;
    if WrapIsSeen(digits) {
      var k: nat :| k < |digits| && SeenAt(digits, k);
      assert k == last || SeenAt(front, k);
    }
    if WrapIsSeen(front) {
      var k: nat :| k < |front| && SeenAt(front, k);
      assert SeenAt(digits, k);
    }
  }

  // ------------------------------------------------------------- the digits of a value

  function DigitsStart(s: string): (i: nat)
    ensures i <= |s|
  {
    RunEnd(s, 0, IsSpace)
  }

  function DigitsEnd(s: string): (i: nat)
    ensures DigitsStart(s) <= i <= |s|
  {
    RunEnd(s, DigitsStart(s), IsDigit)
  }

  /** The digits after any white space. */
  function Leading(s: string): (digits: string)
    ensures All(digits, IsDigit)
  {
    s[DigitsStart(s)..DigitsEnd(s)]
  }

  datatype Status = Ok | RangeError | Invalid

  /** parse_uint64 */
  method ParseUInt64(s: string, initial: uint64) returns (status: Status, number: uint64, rest: nat)
    requires CString(s)
    ensures status.RangeError? <==> !Counts(Leading(s))
    ensures status.Invalid? <==> Leading(s) == ""
    ensures status.Ok? ==> number == Decimal(Leading(s)) % TWO_64 && rest == DigitsEnd(s)
    ensures !status.Ok? ==> number == initial
  {
    hide Counts, Decimal, RunEnd;
    var start := SkipSpaces(s, 0);
    var value, i: nat := 0, start;
    NoDigits(s[start..i]);
    while CharAt(s, i) != NUL && IsDigit(CharAt(s, i))
      invariant start <= i <= |s| && Within(s, start, i, IsDigit)
      invariant Counts(s[start..i]) && value == Decimal(s[start..i]) % TWO_64
      decreases |s| - i
    {
      var next := (10 * value + Digit(s[i])) % TWO_64;
      NextDigit(s, start, i);
      if next < value {
        if Counts(Leading(s)) { MidwayCounts(s, i + 1); }
        return RangeError, initial, 0;
      }
      value, i := next, i + 1;
    }
    RunEndUnique(s, start, i, IsDigit);
    if i == start { return Invalid, initial, 0; }
    return Ok, value, i;
  }

  lemma NoDigits(digits: string)
    requires digits == ""
    ensures All(digits, IsDigit) && Counts(digits) && Decimal(digits) == 0
  {}

  method SkipSpaces(s: string, i: nat) returns (e: nat)
    requires i <= |s|
    ensures e == RunEnd(s, i, IsSpace)
  {
    e := i;
    while IsSpace(CharAt(s, e))
      invariant i <= e <= |s| && Within(s, i, e, IsSpace)
      decreases |s| - e
    {
      e := e + 1;
    }
    RunEndUnique(s, i, e, IsSpace);
  }

  lemma NextDigit(s: string, start: nat, i: nat)
    requires start <= i < |s| && Within(s, start, i + 1, IsDigit)
    ensures var n, d := Decimal(s[start..i]), Digit(s[i]);
            Decimal(s[start..i + 1]) == 10 * n + d &&
            (10 * (n % TWO_64) + d) % TWO_64 == Decimal(s[start..i + 1]) % TWO_64 &&
            (Counts(s[start..i + 1]) <==>
             Counts(s[start..i]) && n % TWO_64 <= Decimal(s[start..i + 1]) % TWO_64)
  {
    var digits := s[start..i + 1];
    assert digits[..|digits| - 1] == s[start..i];
    StepModulo(Decimal(s[start..i]), Digit(s[i]));
  }

  /** Digits read so far are a prefix of all the digits. */
  lemma MidwayCounts(s: string, i: nat)
    requires DigitsStart(s) <= i <= |s| && Within(s, DigitsStart(s), i, IsDigit) && Counts(Leading(s))
    ensures Counts(s[DigitsStart(s)..i])
  {
    var start := DigitsStart(s);
    RunReaches(s, start, i, IsDigit);
    CountsPrefix(Leading(s), i - start);
    LeadingPrefix(s, i);
    hide RunEnd, Counts, DigitsStart;
  }

  lemma LeadingPrefix(s: string, i: nat)
    requires DigitsStart(s) <= i <= DigitsEnd(s)
    ensures i - DigitsStart(s) <= |Leading(s)| && Leading(s)[..i - DigitsStart(s)] == s[DigitsStart(s)..i]
  {
    hide RunEnd;
  }

  // ------------------------------------------------------------------------- numbers

  /** A number: digits, with white space around them. */
  ghost predicate NumberForm(s: string, digits: string) {
    exists before, after :: NumberParts(s, before, digits, after)
  }

  predicate NumberParts(s: string, before: string, digits: string, after: string) {
    s == before + digits + after &&
    All(before, IsSpace) && All(after, IsSpace) && All(digits, IsDigit) && digits != ""
  }

  /** What parse_number accepts, and the value it stores. */
  ghost function ParsedNumber(s: string): Option<uint64> {
    if NumberForm(s, Leading(s)) && Counts(Leading(s)) then Some(Decimal(Leading(s)) % TWO_64) else None
  }

  /** parse_number; a value rejected because of what follows its digits has been stored. */
  method ParseNumber(s: string, initial: uint64) returns (ok: bool, number: uint64)
    requires CString(s)
    ensures ok == ParsedNumber(s).Some?
    ensures number == if Leading(s) != "" && Counts(Leading(s)) then Decimal(Leading(s)) % TWO_64 else initial
  {
    hide Counts, Decimal;
    var status, i;
    status, number, i := ParseUInt64(s, initial);
    NumberFormIff(s);
    if status != Ok { return false, number; }
    i := SkipSpaces(s, i);
    return CharAt(s, i) == NUL, number;
  }

  lemma NumberFormIff(s: string)
    ensures NumberForm(s, Leading(s)) <==> Leading(s) != "" && RunEnd(s, DigitsEnd(s), IsSpace) == |s|
  {
    hide RunEnd;
    if Leading(s) != "" && RunEnd(s, DigitsEnd(s), IsSpace) == |s| {
      FormOfRuns(s);
    }
    if NumberForm(s, Leading(s)) {
      RunsOfForm(s, Leading(s));
    }
  }

  lemma FormOfRuns(s: string)
    requires Leading(s) != "" && RunEnd(s, DigitsEnd(s), IsSpace) == |s|
    ensures NumberForm(s, Leading(s))
  {
    hide RunEnd, All, Within;
    var i, j := DigitsStart(s), DigitsEnd(s);
    SliceOf(s, 0, i, IsSpace);
    SliceOf(s, j, |s|, IsSpace);
    ThreeParts(s, i, j);
    assert NumberParts(s, s[0..i], s[i..j], s[j..|s|]);
  }

  lemma RunsOfForm(s: string, digits: string)
    requires NumberForm(s, digits)
    ensures digits == Leading(s) && RunEnd(s, DigitsEnd(s), IsSpace) == |s|
  {
    hide RunEnd;
    var before, after :| NumberParts(s, before, digits, after);
    Pieces(s, before, digits, after);
    RunOfPart(before + digits, after, "", IsSpace);
    assert before + digits + after + "" == s;
  }

  /** Whatever white space the digits stand in, they are the ones that are read. */
  lemma Pieces(s: string, before: string, digits: string, after: string)
    requires s == before + digits + after && All(before, IsSpace) && All(digits, IsDigit) && digits != ""
    requires after != "" ==> !IsDigit(after[0])
    ensures DigitsStart(s) == |before| && DigitsEnd(s) == |before| + |digits| && Leading(s) == digits
  {
    assert (digits + after)[0] == digits[0];
    RunOfPart("", before, digits + after, IsSpace);
    assert "" + before + (digits + after) == s;
    RunOfPart(before, digits, after, IsDigit);
  }

  /** A number that fits is accepted with its own value. */
  lemma FittingNumber(s: string, digits: string)
    requires NumberForm(s, digits) && All(digits, IsDigit) && Decimal(digits) < TWO_64
    ensures ParsedNumber(s) == Some(Decimal(digits))
  {
    RunsOfForm(s, digits);
    FittingCounts(digits);
  }

  lemma PlainNumber(digits: string)
    requires All(digits, IsDigit) && digits != ""
    ensures NumberForm(digits, digits)
  {
    assert digits == "" + digits + "";
    assert NumberParts(digits, "", digits, "");
  }

  /** A printed number is read as itself. */
  lemma NumberRoundTrip(n: uint64)
    ensures ParsedNumber(ToDecimal(n)) == Some(n)
  {
    hide ToDecimal, Decimal, RunEnd;
    PlainNumber(ToDecimal(n));
    FittingNumber(ToDecimal(n), ToDecimal(n));
  }

  /** White space around a printed number makes no difference, and it is read up to the last
      one that 64 bits can hold. */
  lemma SpacesAround(n: nat, before: string, after: string)
    requires n <= 18446744073709551615
    requires forall c :: c in before + after ==> c in " \t\n\U{B}\U{C}\r"
    ensures ParsedNumber(before + ToDecimal(n) + after) == Some(n)
  {
    hide ToDecimal, Decimal, RunEnd;
    var s, digits := before + ToDecimal(n) + after, ToDecimal(n);
    forall i | 0 <= i < |before| ensures IsSpace(before[i]) { assert before[i] in before + after; }
    forall i | 0 <= i < |after| ensures IsSpace(after[i]) { assert after[i] in before + after; }
    assert NumberParts(s, before, digits, after);
    FittingNumber(s, digits);
  }

  /** A number is never accepted with another value exactly when it fits, or the wrap is
      seen at one of its digits. */
  lemma NumberExactIff(s: string, digits: string)
    requires NumberForm(s, digits) && All(digits, IsDigit)
    ensures (ParsedNumber(s) == None || ParsedNumber(s) == Some(Decimal(digits))) <==>
            Decimal(digits) < TWO_64 || WrapIsSeen(digits)
  {
    hide NumberForm, RunEnd, Counts, Decimal, WrapIsSeen;
    RunsOfForm(s, digits);
    if Decimal(digits) < TWO_64 { FittingNumber(s, digits); }
    CountsIff(digits);
  }

  /** A number with one digit too many is accepted, reduced, unless that is less than
      its own leading digits. */
  lemma NumberPastRange(n: nat)
    requires n / 10 < TWO_64 <= n
    ensures ParsedNumber(ToDecimal(n)) == if n / 10 <= n % TWO_64 then Some(n % TWO_64) else None
  {
    var digits := ToDecimal(n);
    hide ToDecimal, RunEnd, Decimal, Counts;
    AnotherDigit(n);
    PlainNumber(digits);
    RunsOfForm(digits, digits);
  }

  lemma AnotherDigit(n: nat)
    requires n / 10 < TWO_64 <= n
    ensures Counts(ToDecimal(n)) <==> n / 10 <= n % TWO_64
  {
    var digits, front := ToDecimal(n), ToDecimal(n / 10);
    hide ToDecimal, Decimal, Counts;
    FrontDigits(n);
    FittingCounts(front);
    CountsLonger(digits, front, n);
  }

  lemma CountsLonger(digits: string, front: string, n: nat)
    requires digits != "" && All(digits, IsDigit) && digits[..|digits| - 1] == front
    requires Counts(front) && Decimal(digits) == n && Decimal(front) < TWO_64
    ensures Counts(digits) <==> Decimal(front) <= n % TWO_64
  {
    hide Decimal;
  }

  lemma FrontDigits(n: nat)
    requires n >= 10
    ensures var digits := ToDecimal(n); digits[..|digits| - 1] == ToDecimal(n / 10)
  {
    hide Decimal;
  }

  /** Three times ten to the 19th does not fit, and is accepted with another value. */
  lemma NumberTooLargeAccepted()
    ensures var n := 30000000000000000000;
            0x1_0000_0000_0000_0000 <= n && ParsedNumber(ToDecimal(n)) == Some(11553255926290448384)
  {
    NumberPastRange(30000000000000000000);
    hide *;
  }
}
