/** Sizes in configuration values, src/measurement/SCOREP_Config.c: a number, perhaps a
    unit from K to E, perhaps the letter B; and the printer that picks the unit. */
module ConfigSizes {
  import opened MachineWords
  import opened Wrappers
  import opened CStrings
  import opened ConfigNumbers

  const UNITS := "KMGTPE"

  function Scale(power: nat): (n: nat)
    ensures n >= 1
  {
    if power == 0 then 1 else 1024 * Scale(power - 1)
  }

  /** The power of 1024 that a letter stands for. */
  function Power(c: char): (power: Option<nat>)
    ensures power.Some? ==> 1 <= power.value <= 6 && UNITS[power.value - 1] == ToUpper(c)
    ensures power.None? ==> ToUpper(c) !in UNITS
  {
    match ToUpper(c)
    case 'K' => Some(1)
    case 'M' => Some(2)
    case 'G' => Some(3)
    case 'T' => Some(4)
    case 'P' => Some(5)
    case 'E' => Some(6)
    case _ => None
  }

  predicate IsB(c: char) { ToUpper(c) == 'B' }

  /** What may follow the number of a size. */
  predicate IsSuffix(x: string, power: nat) {
    match |x|
    case 0 => power == 0
    case 1 => Power(x[0]) == Some(power) || (IsB(x[0]) && power == 0)
    case 2 => Power(x[0]) == Some(power) && IsB(x[1])
    case _ => false
  }

  predicate SizeParts(s: string, before: string, digits: string, gap: string, suffix: string, after: string,
                      power: nat) {
    s == before + digits + gap + suffix + after && IsSuffix(suffix, power) &&
    All(before, IsSpace) && All(gap, IsSpace) && All(after, IsSpace) && All(digits, IsDigit) && digits != ""
  }

  /** A size: digits and a suffix, with white space around each. */
  ghost predicate SizeForm(s: string, digits: string, power: nat) {
    exists before, gap, suffix, after :: SizeParts(s, before, digits, gap, suffix, after, power)
  }

  datatype Suffix = Suffix(length: nat, power: nat)

  function SuffixAt(s: string, i: nat): (suffix: Option<Suffix>)
    requires i <= |s|
    ensures suffix.Some? ==> i + suffix.value.length <= |s|
  {
    if i == |s| then Some(Suffix(0, 0))
    else if IsB(s[i]) then Some(Suffix(1, 0))
    else match Power(s[i])
      case None => None
      case Some(power) => Some(Suffix(if i + 1 < |s| && IsB(s[i + 1]) then 2 else 1, power))
  }

  function SuffixStart(s: string): (i: nat)
    ensures DigitsEnd(s) <= i <= |s|
  {
    RunEnd(s, DigitsEnd(s), IsSpace)
  }

  /** The power of 1024 of the suffix behind the digits, if nothing else is there. */
  function SizePower(s: string): Option<nat> {
    var i := SuffixStart(s);
    match SuffixAt(s, i)
    case None => None
    case Some(x) => if RunEnd(s, i + x.length, IsSpace) == |s| then Some(x.power) else None
  }

  /** What parse_size accepts, and the value it stores. */
  ghost function ParsedSize(s: string): Option<uint64> {
    if Leading(s) == "" || !Counts(Leading(s)) || SizePower(s) == None then None
    else
      var number := Decimal(Leading(s)) % TWO_64;
      var size := (number * Scale(SizePower(s).value)) % TWO_64;
      if size < number then None else Some(size)
  }

  /** parse_size; the number is stored even where what follows it is then rejected. */
  method ParseSize(s: string, initial: uint64) returns (ok: bool, size: uint64)
    requires CString(s)
    ensures ok == ParsedSize(s).Some?
    ensures size == if ok then ParsedSize(s).value
                    else if Leading(s) != "" && Counts(Leading(s)) then Decimal(Leading(s)) % TWO_64
                    else initial
  {
    hide Counts, Decimal, RunEnd, Scale;
    var status, number, i;
    status, number, i := ParseUInt64(s, initial);
    if status != Ok { return false, number; }
    i := SkipSpaces(s, i);
    var known, scale;
    known, i, scale := ScaleFactor(s, i);
    if !known { return false, number; }
    i := SkipSpaces(s, i);
    if CharAt(s, i) != NUL || (number * scale) % TWO_64 < number { return false, number; }
    return true, (number * scale) % TWO_64;
  }

  /** The switch over the suffix, whose cases fall through from the largest unit down. */
  method ScaleFactor(s: string, start: nat) returns (known: bool, i: nat, scale: nat)
    requires CString(s) && start <= |s|
    ensures known <==> SuffixAt(s, start).Some?
    ensures known ==> i == start + SuffixAt(s, start).value.length && scale == Scale(SuffixAt(s, start).value.power)
  {
    i, scale := start, 1;
    var hasByteSuffix := false;
    var unit := ToUpper(CharAt(s, i));
    if unit in UNITS {
      if unit == 'E' { scale := scale * 1024; }
      if unit in "PE" { scale := scale * 1024; }
      if unit in "TPE" { scale := scale * 1024; }
      if unit in "GTPE" { scale := scale * 1024; }
      if unit in "MGTPE" { scale := scale * 1024; }
      scale := scale * 1024;
      i := i + 1;
      Scales();
    } else if unit == 'B' {
      hasByteSuffix := true;
      i := i + 1;
    } else if unit != NUL {
      return false, i, scale;
    }
    if !hasByteSuffix && IsB(CharAt(s, i)) { i := i + 1; }
    return true, i, scale;
  }

  lemma Scales()
    ensures Scale(0) == 1 && Scale(1) == 0x400 && Scale(2) == 0x10_0000 && Scale(3) == 0x4000_0000
    ensures Scale(4) == 0x100_0000_0000 && Scale(5) == 0x4_0000_0000_0000 && Scale(6) == 0x1000_0000_0000_0000
  {
    assert Scale(3) == 0x4000_0000;
    assert Scale(4) == 0x100_0000_0000;
    assert Scale(5) == 0x4_0000_0000_0000;
  }

  // ---------------------------------------------------------- the grammar of the sizes

  /** A suffix is found wherever it stands between white space. */
  lemma SuffixFound(s: string, x: string, rest: string, power: nat)
    requires s == x + rest && IsSuffix(x, power) && (rest != "" ==> x != "" && IsSpace(rest[0]))
    ensures SuffixAt(s, 0) == Some(Suffix(|x|, power))
  {}

  lemma SuffixShift(before: string, s: string)
    ensures SuffixAt(before + s, |before|) == SuffixAt(s, 0)
  {}

  lemma SuffixIsOne(s: string, i: nat)
    requires i <= |s| && SuffixAt(s, i).Some?
    ensures IsSuffix(s[i..i + SuffixAt(s, i).value.length], SuffixAt(s, i).value.power)
  {}

  lemma SizeFormIff(s: string, power: nat)
    ensures SizeForm(s, Leading(s), power) <==> Leading(s) != "" && SizePower(s) == Some(power)
  {
    hide RunEnd, SuffixAt, IsSuffix;
    if Leading(s) != "" && SizePower(s) == Some(power) {
      FormOfSuffix(s, power);
    }
    if SizeForm(s, Leading(s), power) {
      SuffixOfForm(s, Leading(s), power);
    }
  }

  lemma FormOfSuffix(s: string, power: nat)
    requires Leading(s) != "" && SizePower(s) == Some(power)
    ensures SizeForm(s, Leading(s), power)
  {
    hide RunEnd, SuffixAt, IsSuffix, All, Within;
    var i, j, k := DigitsStart(s), DigitsEnd(s), SuffixStart(s);
    var e := k + SuffixAt(s, k).value.length;
    SliceOf(s, 0, i, IsSpace);
    SliceOf(s, j, k, IsSpace);
    SliceOf(s, e, |s|, IsSpace);
    SuffixIsOne(s, k);
    FiveParts(s, i, j, k, e);
    FormIs(s, s[0..i], s[i..j], s[j..k], s[k..e], s[e..|s|], power);
  }

  lemma FormIs(s: string, before: string, digits: string, gap: string, suffix: string, after: string, power: nat)
    requires SizeParts(s, before, digits, gap, suffix, after, power)
    ensures SizeForm(s, digits, power)
  {
    hide SizeParts;
  }

  lemma FiveParts(s: string, i: nat, j: nat, k: nat, e: nat)
    requires i <= j <= k <= e <= |s|
    ensures s == s[0..i] + s[i..j] + s[j..k] + s[k..e] + s[e..|s|]
  {}

  /** The digits and the unit of a size are the ones that are read. */
  lemma SuffixOfForm(s: string, digits: string, power: nat)
    requires SizeForm(s, digits, power)
    ensures digits == Leading(s) != "" && SizePower(s) == Some(power)
  {
    hide RunEnd, SuffixAt, IsSuffix;
    var before, gap, suffix, after :| SizeParts(s, before, digits, gap, suffix, after, power);
    if suffix == "" {
      SuffixOfParts(s, before, digits, gap + after, "", "", power);
    } else {
      SuffixOfParts(s, before, digits, gap, suffix, after, power);
    }
  }

  lemma SuffixOfParts(s: string, before: string, digits: string, gap: string, suffix: string, after: string, power: nat)
    requires SizeParts(s, before, digits, gap, suffix, after, power) && (suffix == "" ==> after == "")
    ensures digits == Leading(s) && SizePower(s) == Some(power)
  {
    hide RunEnd, SuffixAt, IsSuffix;
    DigitsOfParts(s, before, digits, gap, suffix, after, power);
    SuffixOfTail(s, before + digits + gap, suffix, after, power);
  }

  lemma DigitsOfParts(s: string, before: string, digits: string, gap: string, suffix: string, after: string, power: nat)
    requires SizeParts(s, before, digits, gap, suffix, after, power) && (suffix == "" ==> after == "")
    ensures digits == Leading(s) && SuffixStart(s) == |before + digits + gap|
  {
    hide RunEnd, SuffixAt, IsSuffix;
    var tail := suffix + after;
    if suffix != "" {
      SuffixHead(suffix, power);
      assert tail[0] == suffix[0];
    }
    assert s == before + digits + (gap + tail);
    assert gap + tail != "" ==> !IsDigit((gap + tail)[0]);
    Pieces(s, before, digits, gap + tail);
    assert s == before + digits + gap + tail;
    RunOfPart(before + digits, gap, tail, IsSpace);
  }

  lemma SuffixOfTail(s: string, front: string, suffix: string, after: string, power: nat)
    requires s == front + suffix + after && IsSuffix(suffix, power) && All(after, IsSpace)
    requires SuffixStart(s) == |front| && (suffix == "" ==> after == "")
    ensures SizePower(s) == Some(power)
  {
    hide RunEnd, SuffixAt, IsSuffix;
    SuffixFound(suffix + after, suffix, after, power);
    SuffixShift(front, suffix + after);
    assert s == front + (suffix + after);
    assert s == front + suffix + after + "";
    RunOfPart(front + suffix, after, "", IsSpace);
  }

  lemma SuffixHead(suffix: string, power: nat)
    requires IsSuffix(suffix, power) && suffix != ""
    ensures !IsDigit(suffix[0]) && !IsSpace(suffix[0])
  {}

  // ------------------------------------------------------------------- exact and wrong

  /** A size that fits is accepted with its own value. */
  lemma FittingSize(s: string, digits: string, power: nat)
    requires SizeForm(s, digits, power) && All(digits, IsDigit) && Decimal(digits) * Scale(power) < TWO_64
    ensures ParsedSize(s) == Some(Decimal(digits) * Scale(power))
  {
    SuffixOfForm(s, digits, power);
    hide SizePower, SizeForm, Scale, RunEnd, Counts, Decimal, All;
    FitsExactly(Decimal(digits), Scale(power));
    FittingCounts(digits);
  }

  lemma FitsExactly(n: nat, scale: nat)
    requires scale >= 1 && n * scale < TWO_64
    ensures n < TWO_64 && n % TWO_64 == n && (n * scale) % TWO_64 == n * scale && n <= n * scale
  {
    AtLeast(n, scale);
  }

  lemma AtLeast(n: nat, scale: nat)
    requires scale >= 1
    ensures n <= n * scale
  {}

  /** The check after the multiplication sees the wrap. */
  predicate ScaleWrapIsSeen(number: nat, power: nat) {
    number * (Scale(power) - 1) < TWO_64 * (number * Scale(power) / TWO_64)
  }

  /** A size is never accepted with another value exactly when it fits, or a wrap is seen
      at one of its digits, or the wrap is seen when its number is scaled. */
  lemma SizeExactIff(s: string, digits: string, power: nat)
    requires SizeForm(s, digits, power) && All(digits, IsDigit)
    ensures (ParsedSize(s) == None || ParsedSize(s) == Some(Decimal(digits) * Scale(power))) <==>
            Decimal(digits) * Scale(power) < TWO_64 || WrapIsSeen(digits) ||
            ScaleWrapIsSeen(Decimal(digits) % TWO_64, power)
  {
    hide SizePower, SizeForm, RunEnd, WrapIsSeen, Counts, Decimal, Scale;
    SuffixOfForm(s, digits, power);
    CountsIff(digits);
    ExactArithmetic(Decimal(digits), Scale(power));
    if Decimal(digits) * Scale(power) < TWO_64 { FittingSize(s, digits, power); }
  }

  lemma ExactArithmetic(n: nat, scale: nat)
    requires scale >= 1
    ensures var number := n % TWO_64;
            (number * scale) % TWO_64 < number <==> number * (scale - 1) < TWO_64 * (number * scale / TWO_64)
    ensures (n % TWO_64 * scale) % TWO_64 == n * scale ==> n * scale < TWO_64
  {
    var number := n % TWO_64;
    AtLeast(number, scale);
    WrapSeen(number, number * scale);
    assert number * scale - number == number * (scale - 1);
  }

  /** One and a half times 2^54 kilobytes are accepted as 2^63 bytes. */
  lemma SizeTooLargeAccepted()
    ensures var n := 0x60_0000_0000_0000;
            0x1_0000_0000_0000_0000 < n * 1024 && ParsedSize(ToDecimal(n) + "K") == Some(0x8000_0000_0000_0000)
  {
    var n := 0x60_0000_0000_0000;
    Scales();
    hide ToDecimal, RunEnd, Decimal, Counts, SizePower, Scale;
    WithUnit(n, 1, "K");
    FittingCounts(ToDecimal(n));
  }

  lemma WithUnit(n: nat, power: nat, unit: string)
    requires IsSuffix(unit, power)
    ensures SizeForm(ToDecimal(n) + unit, ToDecimal(n), power)
    ensures Leading(ToDecimal(n) + unit) == ToDecimal(n) && SizePower(ToDecimal(n) + unit) == Some(power)
  {
    hide ToDecimal, RunEnd, Decimal, SizePower, IsSuffix;
    var digits := ToDecimal(n);
    assert digits + unit == "" + digits + "" + unit + "";
    assert SizeParts(digits + unit, "", digits, "", unit, "", power);
    SuffixOfForm(digits + unit, digits, power);
  }

  /** The factor a unit stands for, small letter or capital. */
  predicate UnitIs(letter: char, factor: nat) {
    (letter in "kK" && factor == 1024) || (letter in "mM" && factor == 1048576) ||
    (letter in "gG" && factor == 1073741824) || (letter in "tT" && factor == 1099511627776) ||
    (letter in "pP" && factor == 1125899906842624) || (letter in "eE" && factor == 1152921504606846976)
  }

  lemma UnitPower(letter: char, factor: nat) returns (power: nat)
    requires UnitIs(letter, factor)
    ensures Power(letter) == Some(power) && Scale(power) == factor
  {
    Scales();
    power := Power(letter).value;
    hide Scale;
  }

  lemma NoSpaces()
    ensures All("", IsSpace)
  {}

  lemma WithGap(n: nat, gap: string, suffix: string, power: nat)
    requires IsSuffix(suffix, power) && All(gap, IsSpace) && n * Scale(power) < TWO_64
    ensures ParsedSize(ToDecimal(n) + gap + suffix) == Some(n * Scale(power))
  {
    hide ToDecimal, RunEnd, Decimal, SizePower, Scale, IsSuffix, All;
    var s, digits := ToDecimal(n) + gap + suffix, ToDecimal(n);
    assert s == "" + digits + gap + suffix + "";
    NoSpaces();
    assert SizeParts(s, "", digits, gap, suffix, "", power);
    FittingSize(s, digits, power);
  }

  /** Sizes as they are written: a number, perhaps a blank, a unit, perhaps the letter B. */
  lemma SizeOfUnit(n: nat, gap: string, letter: char, b: string, factor: nat)
    requires UnitIs(letter, factor) && n * factor <= 18446744073709551615
    requires gap == "" || gap == " "
    requires b == "" || b == "b" || b == "B"
    ensures ParsedSize(ToDecimal(n) + gap + ([letter] + b)) == Some(n * factor)
  {
    var power := UnitPower(letter, factor);
    assert IsSuffix([letter] + b, power) by { hide Power, UnitIs; }
    hide ParsedSize, ToDecimal, Scale, IsSuffix, UnitIs;
    WithGap(n, gap, [letter] + b, power);
  }

  /** Bytes: no unit, with or without the letter. */
  lemma SizeInBytes(n: nat, gap: string, b: string)
    requires n <= 18446744073709551615
    requires gap == "" || gap == " "
    requires b == "" || b == "b" || b == "B"
    ensures ParsedSize(ToDecimal(n) + gap + b) == Some(n)
  {
    assert Scale(0) == 1 && IsSuffix(b, 0);
    hide ParsedSize, ToDecimal, Scale, IsSuffix;
    WithGap(n, gap, b, 0);
  }

  // ------------------------------------------------------------------- the size printer

  datatype Reduced = Reduced(number: nat, power: nat)

  /** Divides by 1024 while that leaves no remainder and there is a larger unit. */
  function Reduce(n: nat, power: nat): (r: Reduced)
    requires power <= 6
    ensures power <= r.power <= 6 && r.number * Scale(r.power) == n * Scale(power)
    ensures r.power < 6 ==> r.number % 1024 != 0
    decreases 6 - power
  {
    if power < 6 && n % 1024 == 0 then
      ScaleUp(n / 1024, power);
      Reduce(n / 1024, power + 1)
    else Reduced(n, power)
  }

  lemma ScaleUp(n: nat, power: nat)
    ensures n * Scale(power + 1) == 1024 * n * Scale(power)
  {}

  function UnitText(power: nat): string
    requires power <= 6
  {
    if power == 0 then "" else [UNITS[power - 1]]
  }

  function SizeText(size: nat): string {
    var r := Reduce(size, 0);
    ToDecimal(r.number) + UnitText(r.power)
  }

  /** dump_size */
  method DumpSize(name: string, size: uint64) returns (text: string)
    ensures text == name + "=" + SizeText(size) + "\n"
  {
    hide Scale, ToDecimal;
    var suffix, value: nat, at := " KMGTPE", size, 0;
    while value % 1024 == 0 && CharAt(suffix, at + 1) != NUL
      invariant at <= 6 && Reduce(value, at) == Reduce(size, 0)
      decreases 6 - at
    {
      value, at := value / 1024, at + 1;
    }
    text := name + "=" + ToDecimal(value) + (if suffix[at] == ' ' then "" else [suffix[at]]) + "\n";
  }

  /** What is printed reads back as the same size, also 0, which is printed with the
      largest unit. */
  lemma SizeRoundTrip(size: uint64)
    ensures ParsedSize(SizeText(size)) == Some(size)
  {
    var r := Reduce(size, 0);
    assert Scale(0) == 1;
    hide ToDecimal, RunEnd, Decimal, Reduce, Scale, SizeForm, UnitText;
    UnitIsSuffix(r.power);
    WithUnit(r.number, r.power, UnitText(r.power));
    FittingSize(SizeText(size), ToDecimal(r.number), r.power);
  }

  lemma UnitIsSuffix(power: nat)
    requires power <= 6
    ensures IsSuffix(UnitText(power), power)
  {}

  /** No other way to write the size with one of the units has a smaller number. */
  lemma LargestUnit(size: nat, number: nat, power: nat)
    requires power <= 6 && number * Scale(power) == size
    ensures Reduce(size, 0).number <= number
  {
    assert Scale(0) == 1;
    LargestUnitFrom(size, 0, number, power);
  }

  lemma {:induction false} LargestUnitFrom(n: nat, start: nat, number: nat, power: nat)
    requires start <= 6 && power <= 6 && number * Scale(power) == n * Scale(start)
    ensures Reduce(n, start).number <= number
    decreases 6 - start
  {
    hide Scale, Reduce;
    if power <= start {
      ScaleMonotone(power, start);
      Smaller(n, number, Scale(start), Scale(power));
      ReduceShrinks(n, start);
    } else {
      var q := number * Scale(power - 1 - start);
      ScaleQuotient(number, power, start);
      Cancel(n, 1024 * q, Scale(start));
      ScaleUp(q, start);
      ReduceStep(q, start);
      LargestUnitFrom(q, start + 1, number, power);
    }
  }

  lemma ReduceStep(q: nat, power: nat)
    requires power < 6
    ensures Reduce(1024 * q, power) == Reduce(q, power + 1)
  {
    hide Scale;
    assert 1024 * q / 1024 == q && 1024 * q % 1024 == 0;
  }

  lemma {:induction false} ReduceUp(n: nat, power: nat, start: nat)
    requires start <= power <= 6
    ensures Reduce(n * Scale(power - start), start) == Reduce(n, power)
    decreases power - start
  {
    hide Reduce, Scale;
    ScaleIs(power - start);
    if start < power {
      var q := n * Scale(power - start - 1);
      assert n * Scale(power - start) == 1024 * q;
      ReduceStep(q, start);
      ReduceUp(n, power, start + 1);
    }
  }

  lemma ScaleIs(power: nat)
    ensures Scale(0) == 1 && (power > 0 ==> Scale(power) == 1024 * Scale(power - 1))
  {}

  /** What a size with a unit is printed as: the number and the capital letter, if that is
      the largest unit. */
  lemma PrintedUnit(n: nat, letter: char, factor: nat)
    requires UnitIs(letter, factor) && letter in "KMGTPE" && (n % 1024 != 0 || letter == 'E')
    ensures SizeText(n * factor) == ToDecimal(n) + [letter]
    ensures n % 1024 != 0 ==> SizeText(n) == ToDecimal(n)
  {
    var power := UnitPower(letter, factor);
    ReduceUp(n, power, 0);
    LetterOf(letter, power);
    ReduceStops(n, power);
    if n % 1024 != 0 { ReduceStops(n, 0); }
    hide ToDecimal, Scale, Power, Reduce, UnitIs;
  }

  lemma LetterOf(letter: char, power: nat)
    requires Power(letter) == Some(power) && letter in "KMGTPE"
    ensures 1 <= power <= 6 && UNITS[power - 1] == letter && (letter == 'E' ==> power == 6)
  {}

  lemma ReduceStops(n: nat, power: nat)
    requires power <= 6 && (power < 6 ==> n % 1024 != 0)
    ensures Reduce(n, power) == Reduced(n, power)
  {
    hide Scale;
  }

  lemma Cancel(m: nat, n: nat, factor: nat)
    requires factor >= 1 && m * factor == n * factor
    ensures m == n
  {
    if m < n { Times(m, n, factor); } else if n < m { Times(n, m, factor); }
  }

  lemma Times(m: nat, n: nat, factor: nat)
    requires m <= n
    ensures m * factor <= n * factor && (m < n && factor >= 1 ==> m * factor < n * factor)
  {}

  lemma {:induction false} ScaleMonotone(power: nat, start: nat)
    requires power <= start
    ensures Scale(power) <= Scale(start)
  {
    if power < start { ScaleMonotone(power, start - 1); }
  }

  lemma Smaller(n: nat, number: nat, large: nat, small: nat)
    requires 1 <= small <= large && number * small == n * large
    ensures n <= number
  {
    Times(small, large, n);
    if number < n { Times(number, n, small); }
  }

  lemma {:induction false} ReduceShrinks(n: nat, power: nat)
    requires power <= 6
    ensures Reduce(n, power).number <= n
    decreases 6 - power
  {
    if power < 6 && n % 1024 == 0 { ReduceShrinks(n / 1024, power + 1); }
  }

  lemma ScaleQuotient(number: nat, power: nat, start: nat)
    requires start < power
    ensures number * Scale(power) == 1024 * (number * Scale(power - 1 - start)) * Scale(start)
  {
    var a, b := Scale(power - 1 - start), Scale(start);
    ScaleSum(power - start, start);
    assert Scale(power) == (1024 * a) * b;
    hide Scale;
    Reordered(number, a, b);
  }

  lemma Reordered(n: nat, a: nat, b: nat)
    ensures n * ((1024 * a) * b) == 1024 * (n * a) * b
  {
    var c := a * b;
    assert (1024 * a) * b == 1024 * c;
    assert n * (1024 * c) == 1024 * (n * c);
    assert n * c == (n * a) * b;
    assert (1024 * (n * a)) * b == 1024 * ((n * a) * b);
  }

  lemma {:induction false} ScaleSum(m: nat, n: nat)
    ensures Scale(m + n) == Scale(m) * Scale(n)
  {
    if m > 0 { ScaleSum(m - 1, n); }
  }
}
