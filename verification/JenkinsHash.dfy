/** Bob Jenkins' lookup3 hash, common/hash/jenkins_hash.h and jenkins_hash.c.

    One reference definition, `Lookup3`, folds a sequence of 32-bit words into the
    state (a, b, c).  Every variant of the source -- words or bytes, little or big
    endian, one seed or two, and the three reads of hashlittle2 chosen by the
    alignment of the key -- is a method proved to compute that reference on the
    words its key stands for.
  */
module JenkinsHash {
  import opened MachineWords

  datatype State = State(a: uint32, b: uint32, c: uint32)

  // ---------------------------------------------------------------- the macros

  type Amount = k: nat | 0 < k < 32 witness 4

  /** `x << k | x >> (32 - k)` */
  function Rot(x: uint32, k: Amount): uint32 {
    Or(ShiftLeft(x, k), ShiftRight(x, 32 - k))
  }

  /** `x -= z; x ^= rot(z, k)` */
  function MixWord(x: uint32, z: uint32, k: Amount): uint32 {
    Xor(Sub(x, z), Rot(z, k))
  }

  function UnMixWord(x: uint32, z: uint32, k: Amount): uint32 {
    Add(Xor(x, Rot(z, k)), z)
  }

  /** The lines `x -= z; x ^= rot(z, k); z += y` of mix, one for each amount.  Every line
      does to (b, c, a) what the line before it did to (a, b, c). */
  function MixLines(s: State, ks: seq<Amount>): State
    decreases ks
  {
    if ks == [] then s
    else MixLines(State(s.b, Add(s.c, s.b), MixWord(s.a, s.c, ks[0])), ks[1..])
  }

  function UnMixLines(s: State, ks: seq<Amount>): State
    decreases ks
  {
    if ks == [] then s
    else
      var State(y, z, x) := UnMixLines(s, ks[1..]);
      var z := Sub(z, y);
      State(UnMixWord(x, z, ks[0]), y, z)
  }

  const MIX_AMOUNTS: seq<Amount> := [4, 6, 8, 16, 19, 4]

  /** After six lines a, b and c are back in their places. */
  function Mix(s: State): State { MixLines(s, MIX_AMOUNTS) }

  function UnMix(s: State): State { UnMixLines(s, MIX_AMOUNTS) }

  /** `x ^= y; x -= rot(y, k)` */
  function FinalWord(x: uint32, y: uint32, k: Amount): uint32 {
    Sub(Xor(x, y), Rot(y, k))
  }

  function UnFinalWord(x: uint32, y: uint32, k: Amount): uint32 {
    Xor(Add(x, Rot(y, k)), y)
  }

  /** The lines `x ^= y; x -= rot(y, k)` of final, one for each amount: the first changes
      c with the help of b, the next a with the help of c, then b with the help of a. */
  function FinalLines(s: State, ks: seq<Amount>): State
    decreases ks
  {
    if ks == [] then s
    else FinalLines(State(s.b, FinalWord(s.c, s.b, ks[0]), s.a), ks[1..])
  }

  function UnFinalLines(s: State, ks: seq<Amount>): State
    decreases ks
  {
    if ks == [] then s
    else
      var State(y, x, w) := UnFinalLines(s, ks[1..]);
      State(w, y, UnFinalWord(x, y, ks[0]))
  }

  const FINAL_AMOUNTS: seq<Amount> := [14, 11, 25, 16, 4, 14, 24]

  /** After seven lines the three places have moved on by one. */
  function Final(s: State): State {
    var State(b, c, a) := FinalLines(s, FINAL_AMOUNTS);
    State(a, b, c)
  }

  function UnFinal(s: State): State {
    UnFinalLines(State(s.b, s.c, s.a), FINAL_AMOUNTS)
  }

  /** The statements of mix in the order of the macro, which assigns to its arguments. */
  method RunMix(a0: uint32, b0: uint32, c0: uint32) returns (a: uint32, b: uint32, c: uint32)
    ensures State(a, b, c) == Mix(State(a0, b0, c0))
  {
    hide Xor, Rot, Add, Sub;
    a, b, c := a0, b0, c0;
    a := Sub(a, c);  a := Xor(a, Rot(c, 4));   c := Add(c, b);
    b := Sub(b, a);  b := Xor(b, Rot(a, 6));   a := Add(a, c);
    c := Sub(c, b);  c := Xor(c, Rot(b, 8));   b := Add(b, a);
    ghost var half := State(a, b, c);
    assert half == MixLines(State(a0, b0, c0), [4, 6, 8]);
    a := Sub(a, c);  a := Xor(a, Rot(c, 16));  c := Add(c, b);
    b := Sub(b, a);  b := Xor(b, Rot(a, 19));  a := Add(a, c);
    c := Sub(c, b);  c := Xor(c, Rot(b, 4));   b := Add(b, a);
    assert State(a, b, c) == MixLines(half, [16, 19, 4]);
    MixLinesConcat(State(a0, b0, c0), [4, 6, 8], [16, 19, 4]);
  }

  /** The statements of final in the order of the macro. */
  method RunFinal(a0: uint32, b0: uint32, c0: uint32) returns (a: uint32, b: uint32, c: uint32)
    ensures State(a, b, c) == Final(State(a0, b0, c0))
  {
    hide Xor, Rot, Add, Sub;
    a, b, c := a0, b0, c0;
    c := Xor(c, b);  c := Sub(c, Rot(b, 14));
    a := Xor(a, c);  a := Sub(a, Rot(c, 11));
    b := Xor(b, a);  b := Sub(b, Rot(a, 25));
    ghost var half := State(a, b, c);
    assert half == FinalLines(State(a0, b0, c0), [14, 11, 25]);
    c := Xor(c, b);  c := Sub(c, Rot(b, 16));
    a := Xor(a, c);  a := Sub(a, Rot(c, 4));
    b := Xor(b, a);  b := Sub(b, Rot(a, 14));
    c := Xor(c, b);  c := Sub(c, Rot(b, 24));
    assert State(b, c, a) == FinalLines(half, [16, 4, 14, 24]);
    FinalLinesConcat(State(a0, b0, c0), [14, 11, 25], [16, 4, 14, 24]);
  }

  lemma {:induction false} MixLinesConcat(s: State, ks: seq<Amount>, ls: seq<Amount>)
    ensures MixLines(s, ks + ls) == MixLines(MixLines(s, ks), ls)
    decreases ks
  {
    hide MixWord, Add;
    if ks == [] {
      assert ks + ls == ls;
    } else {
      assert (ks + ls)[1..] == ks[1..] + ls;
      MixLinesConcat(State(s.b, Add(s.c, s.b), MixWord(s.a, s.c, ks[0])), ks[1..], ls);
    }
  }

  lemma {:induction false} FinalLinesConcat(s: State, ks: seq<Amount>, ls: seq<Amount>)
    ensures FinalLines(s, ks + ls) == FinalLines(FinalLines(s, ks), ls)
    decreases ks
  {
    hide FinalWord;
    if ks == [] {
      assert ks + ls == ls;
    } else {
      assert (ks + ls)[1..] == ks[1..] + ls;
      FinalLinesConcat(State(s.b, FinalWord(s.c, s.b, ks[0]), s.a), ks[1..], ls);
    }
  }

  // ------------------------------------------------------------- reversibility

  lemma WordInverse(x: uint32, y: uint32, k: Amount)
    ensures UnMixWord(MixWord(x, y, k), y, k) == x
    ensures MixWord(UnMixWord(x, y, k), y, k) == x
    ensures UnFinalWord(FinalWord(x, y, k), y, k) == x
    ensures FinalWord(UnFinalWord(x, y, k), y, k) == x
  {
    var r := Rot(y, k);
    XorXor(Sub(x, y), r); AddSub(x, y);
    XorXor(x, r);         AddSub(Xor(x, r), y);
    XorXor(x, y);         AddSub(Xor(x, y), r);
    AddSub(x, r);         XorXor(Add(x, r), y);
  }

  lemma {:induction false} MixLinesReversible(s: State, ks: seq<Amount>)
    ensures UnMixLines(MixLines(s, ks), ks) == s
    ensures MixLines(UnMixLines(s, ks), ks) == s
    decreases ks
  {
    if ks != [] {
      MixLinesReversible(State(s.b, Add(s.c, s.b), MixWord(s.a, s.c, ks[0])), ks[1..]);
      WordInverse(s.a, s.c, ks[0]);
      AddSub(s.c, s.b);
      MixLinesReversible(s, ks[1..]);
      var State(y, z, x) := UnMixLines(s, ks[1..]);
      WordInverse(x, Sub(z, y), ks[0]);
      AddSub(z, y);
    }
  }

  lemma {:induction false} FinalLinesReversible(s: State, ks: seq<Amount>)
    ensures UnFinalLines(FinalLines(s, ks), ks) == s
    ensures FinalLines(UnFinalLines(s, ks), ks) == s
    decreases ks
  {
    if ks != [] {
      FinalLinesReversible(State(s.b, FinalWord(s.c, s.b, ks[0]), s.a), ks[1..]);
      WordInverse(s.c, s.b, ks[0]);
      FinalLinesReversible(s, ks[1..]);
      var State(y, x, _) := UnFinalLines(s, ks[1..]);
      WordInverse(x, y, ks[0]);
    }
  }

  lemma MixReversible(s: State)
    ensures UnMix(Mix(s)) == s
    ensures Mix(UnMix(s)) == s
  {
    hide MixLines, UnMixLines;
    MixLinesReversible(s, MIX_AMOUNTS);
  }

  lemma FinalReversible(s: State)
    ensures UnFinal(Final(s)) == s
    ensures Final(UnFinal(s)) == s
  {
    hide FinalLines, UnFinalLines;
    assert FinalLines(s, FINAL_AMOUNTS) == State(Final(s).b, Final(s).c, Final(s).a);
    FinalLinesReversible(s, FINAL_AMOUNTS);
    FinalLinesReversible(State(s.b, s.c, s.a), FINAL_AMOUNTS);
  }

  // ------------------------------------------------------ the reference function

  function AddBlock(s: State, x: uint32, y: uint32, z: uint32): State {
    State(Add(s.a, x), Add(s.b, y), Add(s.c, z))
  }

  function WordAt(w: seq<uint32>, i: nat): uint32 {
    if i < |w| then w[i] else 0
  }

  /** Absorbs the words three at a time; the last one to three are closed by
      `Final`, and an empty key leaves the seeded state as it is. */
  function Lookup3(w: seq<uint32>, s: State): State {
    if |w| == 0 then s
    else if |w| <= 3 then Final(AddBlock(s, w[0], WordAt(w, 1), WordAt(w, 2)))
    else Lookup3(w[3..], Mix(AddBlock(s, w[0], w[1], w[2])))
  }

  /** The state seeded with the length in bytes and the two seeds. */
  function Seed(length: nat, pc: uint32, pb: uint32): State {
    var x := Add(Add(0xdeadbeef, Wrap(length)), pc);
    State(x, x, Add(x, pb))
  }

  function ByteAt(k: seq<uint8>, i: nat): uint8 {
    if i < |k| then k[i] else 0
  }

  /** `((uint32_t)x) << 8` and so on: a byte moved up stays below 2^32. */
  function Shl8(x: uint8): uint32 { 0x100 * (x as int) }

  function Shl16(x: uint8): uint32 { 0x1_0000 * (x as int) }

  function Shl24(x: uint8): uint32 { 0x100_0000 * (x as int) }

  datatype Endian = Little | Big

  function LoadLE(x0: uint8, x1: uint8, x2: uint8, x3: uint8): uint32 {
    x0 + Shl8(x1) + Shl16(x2) + Shl24(x3)
  }

  /** The word at byte i, bytes past the end of the key counting as zero. */
  function Word(k: seq<uint8>, i: nat, e: Endian): uint32 {
    var x0, x1, x2, x3 := ByteAt(k, i), ByteAt(k, i + 1), ByteAt(k, i + 2), ByteAt(k, i + 3);
    if e.Little? then LoadLE(x0, x1, x2, x3) else LoadLE(x3, x2, x1, x0)
  }

  /** The words a byte key stands for, the last one filled up with zero bytes. */
  function Words(k: seq<uint8>, e: Endian): (w: seq<uint32>)
    ensures |w| == (|k| + 3) / 4
  {
    seq((|k| + 3) / 4, j requires 0 <= j => Word(k, 4 * j, e))
  }

  lemma AbsorbBlock(w: seq<uint32>, p: nat, s: State)
    requires p + 3 < |w|
    ensures Lookup3(w[p..], s) == Lookup3(w[p + 3..], Mix(AddBlock(s, w[p], w[p + 1], w[p + 2])))
  {
    assert w[p..][3..] == w[p + 3..];
  }

  lemma AbsorbTail(w: seq<uint32>, p: nat, s: State)
    requires p <= |w| <= p + 3
    ensures Lookup3(w[p..], s) ==
            if p == |w| then s else Final(AddBlock(s, w[p], WordAt(w, p + 1), WordAt(w, p + 2)))
  {}

  /** With a zero second seed the three words start equal. */
  lemma SeedWithoutSecond(length: nat, pc: uint32)
    ensures var x := Add(Add(0xdeadbeef, Wrap(length)), pc); Seed(length, pc, 0) == State(x, x, x)
  {}

  lemma AbsorbBytes(k: seq<uint8>, q: nat, s: State, e: Endian)
    requires 4 * q + 12 < |k|
    ensures q + 3 <= |Words(k, e)|
    ensures Lookup3(Words(k, e)[q..], s) ==
            Lookup3(Words(k, e)[q + 3..],
                    Mix(AddBlock(s, Word(k, 4 * q, e), Word(k, 4 * q + 4, e), Word(k, 4 * q + 8, e))))
  {
    hide Word, Mix, Final;
    var w := Words(k, e);
    assert w[q + 1] == Word(k, 4 * (q + 1), e) && w[q + 2] == Word(k, 4 * (q + 2), e);
    AbsorbBlock(w, q, s);
  }

  lemma WordAtIsWord(k: seq<uint8>, j: nat, e: Endian)
    ensures WordAt(Words(k, e), j) == Word(k, 4 * j, e)
  {}

  lemma AbsorbLastBytes(k: seq<uint8>, q: nat, s: State, e: Endian)
    requires 4 * q <= |k| <= 4 * q + 12
    ensures q <= |Words(k, e)|
    ensures Lookup3(Words(k, e)[q..], s) ==
            if |k| == 4 * q then s
            else Final(AddBlock(s, Word(k, 4 * q, e), Word(k, 4 * q + 4, e), Word(k, 4 * q + 8, e)))
  {
    hide Word, Mix, Final;
    var w := Words(k, e);
    WordAtIsWord(k, q + 1, e);
    WordAtIsWord(k, q + 2, e);
    AbsorbTail(w, q, s);
  }

  // ---------------------------------------------------------------- the variants

  method HashWord(k: seq<uint32>, initval: uint32) returns (hash: uint32)
    ensures hash == Lookup3(k, Seed(4 * |k|, initval, 0)).c
  {
    hide Mix, Final, Add;
    var a := Add(Add(0xdeadbeef, ShiftLeft(Wrap(|k|), 2)), initval);
    assert State(a, a, a) == Seed(4 * |k|, initval, 0) by {
      ShiftLeftTwo(|k|);
      SeedWithoutSecond(4 * |k|, initval);
    }
    var b, c := a, a;
    var p, length := 0, |k|;
    while length > 3
      invariant 0 <= length && p + length == |k|
      invariant Lookup3(k, Seed(4 * |k|, initval, 0)) == Lookup3(k[p..], State(a, b, c))
    {
      AbsorbBlock(k, p, State(a, b, c));
      a, b, c := RunMix(Add(a, k[p]), Add(b, k[p + 1]), Add(c, k[p + 2]));
      p, length := p + 3, length - 3;
    }
    AbsorbTail(k, p, State(a, b, c));
    AddZero(b);
    AddZero(c);
    if length >= 3 { c := Add(c, k[p + 2]); }
    if length >= 2 { b := Add(b, k[p + 1]); }
    if length >= 1 {
      a := Add(a, k[p]);
      a, b, c := RunFinal(a, b, c);
    }
    hash := c;
  }

  method HashWord2(k: seq<uint32>, pc: uint32, pb: uint32) returns (pc': uint32, pb': uint32)
    ensures var s := Lookup3(k, Seed(4 * |k|, pc, pb)); pc' == s.c && pb' == s.b
  {
    hide Mix, Final, Add;
    var a := Add(Add(0xdeadbeef, Wrap(4 * |k|)), pc);
    var b, c := a, Add(a, pb);
    var p, length := 0, |k|;
    while length > 3
      invariant 0 <= length && p + length == |k|
      invariant Lookup3(k, Seed(4 * |k|, pc, pb)) == Lookup3(k[p..], State(a, b, c))
    {
      AbsorbBlock(k, p, State(a, b, c));
      a, b, c := RunMix(Add(a, k[p]), Add(b, k[p + 1]), Add(c, k[p + 2]));
      p, length := p + 3, length - 3;
    }
    AbsorbTail(k, p, State(a, b, c));
    AddZero(b);
    AddZero(c);
    if length >= 3 { c := Add(c, k[p + 2]); }
    if length >= 2 { b := Add(b, k[p + 1]); }
    if length >= 1 {
      a := Add(a, k[p]);
      a, b, c := RunFinal(a, b, c);
    }
    pc', pb' := c, b;
  }

  /** Four consecutive `x += k[i] << ...` of a full block. */
  method AddBytes(x: uint32, k: seq<uint8>, p: nat, e: Endian) returns (y: uint32)
    requires p + 4 <= |k|
    ensures y == Add(x, Word(k, p, e))
  {
    hide Add;
    var x0, x1, x2, x3 := k[p], k[p + 1], k[p + 2], k[p + 3];
    if e.Little? {
      y := Add(x, x0);
      y := Add(y, Shl8(x1));   AddAdd(x, x0, Shl8(x1));
      y := Add(y, Shl16(x2));  AddAdd(x, x0 + Shl8(x1), Shl16(x2));
      y := Add(y, Shl24(x3));  AddAdd(x, x0 + Shl8(x1) + Shl16(x2), Shl24(x3));
    } else {
      y := Add(x, Shl24(x0));
      y := Add(y, Shl16(x1));  AddAdd(x, Shl24(x0), Shl16(x1));
      y := Add(y, Shl8(x2));   AddAdd(x, Shl24(x0) + Shl16(x1), Shl8(x2));
      y := Add(y, x3);         AddAdd(x, Shl24(x0) + Shl16(x1) + Shl8(x2), x3);
    }
  }

  /** One case of the last switch that falls through: adds t, the byte of the key in its
      place, when the length reaches that byte. */
  method AddCase(x: uint32, ghost sum: uint32, y: uint32, reached: bool, t: uint32)
    returns (y': uint32)
    requires y == Add(x, sum) && sum + t < TWO_32
    requires !reached ==> t == 0
    ensures y' == Add(x, sum + t)
  {
    y' := y;
    if reached {
      AddAdd(x, sum, t);
      y' := Add(y, t);
    }
  }

  /** The four cases of the last switch that fall through for one of a, b and c:
      n is what is left of the length at the first byte of that word. */
  method AddTail(x: uint32, k: seq<uint8>, p: nat, n: int, e: Endian) returns (y: uint32)
    requires n == |k| - p
    ensures y == Add(x, Word(k, p, e))
  {
    var x0, x1, x2, x3 := ByteAt(k, p), ByteAt(k, p + 1), ByteAt(k, p + 2), ByteAt(k, p + 3);
    if e.Little? {
      y := AddTailLittle(x, x0, x1, x2, x3, n);
    } else {
      y := AddTailBig(x, x0, x1, x2, x3, n);
    }
  }

  method AddTailLittle(x: uint32, x0: uint8, x1: uint8, x2: uint8, x3: uint8, n: int) returns (y: uint32)
    requires (n < 1 ==> x0 == 0) && (n < 2 ==> x1 == 0) && (n < 3 ==> x2 == 0) && (n < 4 ==> x3 == 0)
    ensures y == Add(x, LoadLE(x0, x1, x2, x3))
  {
    hide Add;
    AddZero(x);
    y := AddCase(x, 0, x, n >= 4, Shl24(x3));
    y := AddCase(x, Shl24(x3), y, n >= 3, Shl16(x2));
    y := AddCase(x, Shl24(x3) + Shl16(x2), y, n >= 2, Shl8(x1));
    y := AddCase(x, Shl24(x3) + Shl16(x2) + Shl8(x1), y, n >= 1, x0);
  }

  method AddTailBig(x: uint32, x0: uint8, x1: uint8, x2: uint8, x3: uint8, n: int) returns (y: uint32)
    requires (n < 1 ==> x0 == 0) && (n < 2 ==> x1 == 0) && (n < 3 ==> x2 == 0) && (n < 4 ==> x3 == 0)
    ensures y == Add(x, LoadLE(x3, x2, x1, x0))
  {
    hide Add;
    AddZero(x);
    y := AddCase(x, 0, x, n >= 4, x3);
    y := AddCase(x, x3, y, n >= 3, Shl8(x2));
    y := AddCase(x, x3 + Shl8(x2), y, n >= 2, Shl16(x1));
    y := AddCase(x, x3 + Shl8(x2) + Shl16(x1), y, n >= 1, Shl24(x0));
  }

  method HashLittle(k: seq<uint8>, initval: uint32) returns (hash: uint32)
    ensures hash == Lookup3(Words(k, Little), Seed(|k|, initval, 0)).c
  {
    hide Word, Mix, Final, Add;
    var a := Add(Add(0xdeadbeef, Wrap(|k|)), initval);
    var b, c := a, a;
    SeedWithoutSecond(|k|, initval);
    var p, length := 0, |k|;
    ghost var q := 0;
    while length > 12
      invariant 0 <= length && p + length == |k| && p == 4 * q
      invariant Lookup3(Words(k, Little), Seed(|k|, initval, 0)) == Lookup3(Words(k, Little)[q..], State(a, b, c))
    {
      AbsorbBytes(k, q, State(a, b, c), Little);
      a := AddBytes(a, k, p, Little);
      b := AddBytes(b, k, p + 4, Little);
      c := AddBytes(c, k, p + 8, Little);
      a, b, c := RunMix(a, b, c);
      p, length, q := p + 12, length - 12, q + 3;
    }
    AbsorbLastBytes(k, q, State(a, b, c), Little);
    if length == 0 { return c; }
    c := AddTail(c, k, p + 8, length - 8, Little);
    b := AddTail(b, k, p + 4, length - 4, Little);
    a := AddTail(a, k, p, length, Little);
    a, b, c := RunFinal(a, b, c);
    hash := c;
  }

  method HashBig(k: seq<uint8>, initval: uint32) returns (hash: uint32)
    ensures hash == Lookup3(Words(k, Big), Seed(|k|, initval, 0)).c
  {
    hide Word, Mix, Final, Add;
    var a := Add(Add(0xdeadbeef, Wrap(|k|)), initval);
    var b, c := a, a;
    SeedWithoutSecond(|k|, initval);
    var p, length := 0, |k|;
    ghost var q := 0;
    while length > 12
      invariant 0 <= length && p + length == |k| && p == 4 * q
      invariant Lookup3(Words(k, Big), Seed(|k|, initval, 0)) == Lookup3(Words(k, Big)[q..], State(a, b, c))
    {
      AbsorbBytes(k, q, State(a, b, c), Big);
      a := AddBytes(a, k, p, Big);
      b := AddBytes(b, k, p + 4, Big);
      c := AddBytes(c, k, p + 8, Big);
      a, b, c := RunMix(a, b, c);
      p, length, q := p + 12, length - 12, q + 3;
    }
    AbsorbLastBytes(k, q, State(a, b, c), Big);
    if length == 0 { return c; }
    c := AddTail(c, k, p + 8, length - 8, Big);
    b := AddTail(b, k, p + 4, length - 4, Big);
    a := AddTail(a, k, p, length, Big);
    a, b, c := RunFinal(a, b, c);
    hash := c;
  }

  // ------------------------------------- hashlittle2 and the alignment of its key

  /** A little-endian machine reads the aligned word at p. */
  function Load32(mem: seq<uint8>, p: nat): uint32
    requires p + 4 <= |mem|
  {
    LoadLE(mem[p], mem[p + 1], mem[p + 2], mem[p + 3])
  }

  function Load16(mem: seq<uint8>, p: nat): uint32
    requires p + 2 <= |mem|
  {
    mem[p] + Shl8(mem[p + 1])
  }

  lemma Masks(x0: uint8, x1: uint8, x2: uint8, x3: uint8)
    ensures LoadLE(x0, x1, x2, x3) % 0x100_0000 == LoadLE(x0, x1, x2, 0)
    ensures LoadLE(x0, x1, x2, x3) % 0x1_0000 == LoadLE(x0, x1, 0, 0)
    ensures LoadLE(x0, x1, x2, x3) % 0x100 == LoadLE(x0, 0, 0, 0)
  {
    var n := LoadLE(x0, x1, x2, x3);
    var q2 := x2 + 0x100 * (x3 as int);
    var q1 := x1 + 0x100 * q2;
    assert n == 0x100_0000 * x3 + LoadLE(x0, x1, x2, 0);
    assert n == 0x1_0000 * q2 + LoadLE(x0, x1, 0, 0);
    assert n == 0x100 * q1 + x0;
    assert LoadLE(x0, 0, 0, 0) == x0 as int && LoadLE(x0, x1, 0, 0) < 0x1_0000 && LoadLE(x0, x1, x2, 0) < 0x100_0000;
    hide LoadLE;
    Remainder24(n, x3, LoadLE(x0, x1, x2, 0));
    Remainder16(n, q2, LoadLE(x0, x1, 0, 0));
    Remainder8(n, q1, x0);
  }

  lemma Remainder24(n: nat, q: nat, r: nat)
    requires n == 0x100_0000 * q + r && r < 0x100_0000
    ensures n % 0x100_0000 == r
  {}

  lemma Remainder16(n: nat, q: nat, r: nat)
    requires n == 0x1_0000 * q + r && r < 0x1_0000
    ensures n % 0x1_0000 == r
  {}

  lemma Remainder8(n: nat, q: nat, r: nat)
    requires n == 0x100 * q + r && r < 0x100
    ensures n % 0x100 == r
  {}

  /** The first n bytes at p as a word, the rest of the word zero. */
  function Part(mem: seq<uint8>, p: nat, n: int): uint32
    requires n > 0 ==> p + (if n < 4 then n else 4) <= |mem|
  {
    if n <= 0 then 0
    else if n == 1 then LoadLE(mem[p], 0, 0, 0)
    else if n == 2 then LoadLE(mem[p], mem[p + 1], 0, 0)
    else if n == 3 then LoadLE(mem[p], mem[p + 1], mem[p + 2], 0)
    else LoadLE(mem[p], mem[p + 1], mem[p + 2], mem[p + 3])
  }

  lemma PartIsWord(mem: seq<uint8>, key: nat, length: nat, i: nat)
    requires key + length <= |mem|
    ensures length - i > 0 ==> key + i + (if length - i < 4 then length - i else 4) <= |mem|
    ensures Part(mem, key + i, length - i) == Word(mem[key..key + length], i, Little)
  {}

  /** What the cases of the last switch of the 32-bit branch add to one of a, b and c when
      n bytes of the key are left: the whole word, or the word with its tail masked off. */
  method AddMasked(x: uint32, mem: seq<uint8>, p: nat, n: int) returns (y: uint32)
    requires n > 0 ==> p + 4 <= |mem|
    ensures y == Add(x, Part(mem, p, n))
  {
    y := x;
    if n > 0 { Masks(mem[p], mem[p + 1], mem[p + 2], mem[p + 3]); }
    if n >= 4 { y := Add(x, Load32(mem, p)); }
    else if n == 3 { y := Add(x, Load32(mem, p) % 0x100_0000); }  // & 0xffffff
    else if n == 2 { y := Add(x, Load32(mem, p) % 0x1_0000); }    // & 0xffff
    else if n == 1 { y := Add(x, Load32(mem, p) % 0x100); }       // & 0xff
  }

  /** The same for the 16-bit branch, which falls through from an odd byte to a half word. */
  method AddHalves(x: uint32, mem: seq<uint8>, p: nat, n: int) returns (y: uint32)
    requires n > 0 ==> p + (if n < 4 then n else 4) <= |mem|
    ensures y == Add(x, Part(mem, p, n))
  {
    y := x;
    if n >= 4 {
      y := Add(y, Load16(mem, p) + 0x1_0000 * Load16(mem, p + 2));
    } else if n == 1 {
      y := Add(y, mem[p]);
    } else {
      if n == 3 { y := Add(y, Shl16(mem[p + 2])); }
      if n >= 2 { y := Add(y, Load16(mem, p)); }
    }
  }

  method AddSingles(x: uint32, mem: seq<uint8>, p: nat, n: int) returns (y: uint32)
    requires n > 0 ==> p + (if n < 4 then n else 4) <= |mem|
    ensures y == Add(x, Part(mem, p, n))
  {
    hide Add;
    var x0: uint8 := if n >= 1 then mem[p] else 0;
    var x1: uint8 := if n >= 2 then mem[p + 1] else 0;
    var x2: uint8 := if n >= 3 then mem[p + 2] else 0;
    var x3: uint8 := if n >= 4 then mem[p + 3] else 0;
    y := AddTailLittle(x, x0, x1, x2, x3, n);
  }

  /** The key of hashlittle2, in the bytes of memory that a word read can reach. */
  ghost predicate KeyInMemory(mem: seq<uint8>, key: nat, length: nat) {
    key + length <= |mem| && |mem| % 4 == 0
  }

  lemma AbsorbMemory(mem: seq<uint8>, key: nat, length: nat, q: nat, s: State)
    requires key + length <= |mem| && 4 * q <= length
    ensures q <= |Words(mem[key..key + length], Little)|
    ensures var w := Words(mem[key..key + length], Little);
            var p, n := key + 4 * q, length - 4 * q;
            var t := AddBlock(s, Part(mem, p, n), Part(mem, p + 4, n - 4), Part(mem, p + 8, n - 8));
            if n > 12 then q + 3 <= |w| && Lookup3(w[q..], s) == Lookup3(w[q + 3..], Mix(t))
            else Lookup3(w[q..], s) == if n == 0 then s else Final(t)
  {
    hide Word, Mix, Final;
    var k := mem[key..key + length];
    PartIsWord(mem, key, length, 4 * q);
    PartIsWord(mem, key, length, 4 * q + 4);
    PartIsWord(mem, key, length, 4 * q + 8);
    if length > 4 * q + 12 {
      AbsorbBytes(k, q, s, Little);
    } else {
      AbsorbLastBytes(k, q, s, Little);
    }
  }

  method HashLittle2Words(mem: seq<uint8>, key: nat, length0: nat, pc: uint32, pb: uint32)
    returns (pc': uint32, pb': uint32)
    requires KeyInMemory(mem, key, length0)
    requires key % 4 == 0
    ensures var s := Lookup3(Words(mem[key..key + length0], Little), Seed(length0, pc, pb));
            pc' == s.c && pb' == s.b
  {
    hide Word, Mix, Final, Part, Add;
    ghost var w, q := Words(mem[key..key + length0], Little), 0;
    var a := Add(Add(0xdeadbeef, Wrap(length0)), pc);
    var b, c := a, Add(a, pb);
    var k, length: int := key, length0;
    while length > 12
      invariant 0 <= length && k == key + 4 * q && length == length0 - 4 * q
      invariant q <= |w| && Lookup3(w, Seed(length0, pc, pb)) == Lookup3(w[q..], State(a, b, c))
    {
      AbsorbMemory(mem, key, length0, q, State(a, b, c));
      a := AddMasked(a, mem, k, length);
      b := AddMasked(b, mem, k + 4, length - 4);
      c := AddMasked(c, mem, k + 8, length - 8);
      a, b, c := RunMix(a, b, c);
      k, length, q := k + 12, length - 12, q + 3;
    }
    AbsorbMemory(mem, key, length0, q, State(a, b, c));
    if length == 0 { return c, b; }
    c := AddMasked(c, mem, k + 8, length - 8);
    b := AddMasked(b, mem, k + 4, length - 4);
    a := AddMasked(a, mem, k, length);
    a, b, c := RunFinal(a, b, c);
    pc', pb' := c, b;
  }

  method HashLittle2Halves(mem: seq<uint8>, key: nat, length0: nat, pc: uint32, pb: uint32)
    returns (pc': uint32, pb': uint32)
    requires KeyInMemory(mem, key, length0)
    requires key % 2 == 0
    ensures var s := Lookup3(Words(mem[key..key + length0], Little), Seed(length0, pc, pb));
            pc' == s.c && pb' == s.b
  {
    hide Word, Mix, Final, Part, Add;
    ghost var w, q := Words(mem[key..key + length0], Little), 0;
    var a := Add(Add(0xdeadbeef, Wrap(length0)), pc);
    var b, c := a, Add(a, pb);
    var k, length: int := key, length0;
    while length > 12
      invariant 0 <= length && k == key + 4 * q && length == length0 - 4 * q
      invariant q <= |w| && Lookup3(w, Seed(length0, pc, pb)) == Lookup3(w[q..], State(a, b, c))
    {
      AbsorbMemory(mem, key, length0, q, State(a, b, c));
      a := AddHalves(a, mem, k, length);
      b := AddHalves(b, mem, k + 4, length - 4);
      c := AddHalves(c, mem, k + 8, length - 8);
      a, b, c := RunMix(a, b, c);
      k, length, q := k + 12, length - 12, q + 3;
    }
    AbsorbMemory(mem, key, length0, q, State(a, b, c));
    if length == 0 { return c, b; }
    c := AddHalves(c, mem, k + 8, length - 8);
    b := AddHalves(b, mem, k + 4, length - 4);
    a := AddHalves(a, mem, k, length);
    a, b, c := RunFinal(a, b, c);
    pc', pb' := c, b;
  }

  method HashLittle2Bytes(mem: seq<uint8>, key: nat, length0: nat, pc: uint32, pb: uint32)
    returns (pc': uint32, pb': uint32)
    requires KeyInMemory(mem, key, length0)
    ensures var s := Lookup3(Words(mem[key..key + length0], Little), Seed(length0, pc, pb));
            pc' == s.c && pb' == s.b
  {
    hide Word, Mix, Final, Part, Add;
    ghost var w, q := Words(mem[key..key + length0], Little), 0;
    var a := Add(Add(0xdeadbeef, Wrap(length0)), pc);
    var b, c := a, Add(a, pb);
    var k, length: int := key, length0;
    while length > 12
      invariant 0 <= length && k == key + 4 * q && length == length0 - 4 * q
      invariant q <= |w| && Lookup3(w, Seed(length0, pc, pb)) == Lookup3(w[q..], State(a, b, c))
    {
      AbsorbMemory(mem, key, length0, q, State(a, b, c));
      a := AddSingles(a, mem, k, length);
      b := AddSingles(b, mem, k + 4, length - 4);
      c := AddSingles(c, mem, k + 8, length - 8);
      a, b, c := RunMix(a, b, c);
      k, length, q := k + 12, length - 12, q + 3;
    }
    AbsorbMemory(mem, key, length0, q, State(a, b, c));
    if length == 0 { return c, b; }
    c := AddSingles(c, mem, k + 8, length - 8);
    b := AddSingles(b, mem, k + 4, length - 4);
    a := AddSingles(a, mem, k, length);
    a, b, c := RunFinal(a, b, c);
    pc', pb' := c, b;
  }

  /** The alignment of the key selects the branch, and no branch changes the result: it is
      the reference function of the key alone, not of its address or of what surrounds it. */
  method HashLittle2(mem: seq<uint8>, key: nat, length: nat, pc: uint32, pb: uint32)
    returns (pc': uint32, pb': uint32)
    requires KeyInMemory(mem, key, length)
    ensures var s := Lookup3(Words(mem[key..key + length], Little), Seed(length, pc, pb));
            pc' == s.c && pb' == s.b
  {
    if key % 4 == 0 {
      pc', pb' := HashLittle2Words(mem, key, length, pc, pb);
    } else if key % 2 == 0 {
      pc', pb' := HashLittle2Halves(mem, key, length, pc, pb);
    } else {
      pc', pb' := HashLittle2Bytes(mem, key, length, pc, pb);
    }
  }

  // ------------------------------------------------------ agreement of the variants

  /** The bytes of a word array as a machine of that byte order stores it. */
  function Bytes(w: seq<uint32>, e: Endian): (k: seq<uint8>)
    ensures |k| == 4 * |w|
  {
    if w == [] then []
    else
      var x := w[0];
      var k0, k1, k2, k3 := x % 0x100, x / 0x100 % 0x100, x / 0x1_0000 % 0x100, x / 0x100_0000;
      (if e.Little? then [k0, k1, k2, k3] else [k3, k2, k1, k0]) + Bytes(w[1..], e)
  }

  lemma {:induction false} WordsOfBytes(w: seq<uint32>, e: Endian)
    ensures Words(Bytes(w, e), e) == w
  {
    if w != [] {
      WordsOfBytes(w[1..], e);
      var k, rest := Bytes(w, e), Bytes(w[1..], e);
      assert Word(k, 0, e) == w[0] by { Digits(w[0]); }
      forall j | 1 <= j < |w| ensures Words(k, e)[j] == w[j] {
        assert Word(k, 4 * j, e) == Word(rest, 4 * (j - 1), e) by { hide LoadLE; }
        assert Words(rest, e)[j - 1] == w[1..][j - 1];
      }
    }
  }

  lemma Digits(x: uint32)
    ensures LoadLE(x % 0x100, x / 0x100 % 0x100, x / 0x1_0000 % 0x100, x / 0x100_0000) == x
  {
    var y := x / 0x100;
    var z := y / 0x100;
    assert x / 0x1_0000 == z && x / 0x100_0000 == z / 0x100;
  }

  /** hashword is hashlittle of the little-endian bytes and hashbig of the big-endian bytes,
      and hashword2 is hashlittle2, on both outputs: all of them are this one state. */
  lemma WordByteAgreement(w: seq<uint32>, pc: uint32, pb: uint32, e: Endian)
    ensures Lookup3(Words(Bytes(w, e), e), Seed(|Bytes(w, e)|, pc, pb)) == Lookup3(w, Seed(4 * |w|, pc, pb))
  {
    WordsOfBytes(w, e);
  }

  // ----------------------------------------------------------------- injectivity

  lemma AddBlockInjective(s: State, t: State, x: State, y: State)
    requires AddBlock(s, x.a, x.b, x.c) == AddBlock(t, y.a, y.b, y.c)
    ensures s == t <==> x == y
  {}

  lemma MixFinalInjective(s: State, t: State)
    ensures Mix(s) == Mix(t) ==> s == t
    ensures Final(s) == Final(t) ==> s == t
  {
    hide Mix, UnMix, Final, UnFinal;
    MixReversible(s);
    MixReversible(t);
    FinalReversible(s);
    FinalReversible(t);
  }

  /** No information in the seeded state is lost, whatever the key. */
  lemma {:induction false} InjectiveInSeed(w: seq<uint32>, s: State, t: State)
    requires Lookup3(w, s) == Lookup3(w, t)
    ensures s == t
    decreases |w|
  {
    hide Mix, Final, Add;
    if |w| > 0 {
      var x := State(w[0], WordAt(w, 1), WordAt(w, 2));
      var s', t' := AddBlock(s, x.a, x.b, x.c), AddBlock(t, x.a, x.b, x.c);
      if |w| > 3 {
        InjectiveInSeed(w[3..], Mix(s'), Mix(t'));
      }
      MixFinalInjective(s', t');
      AddBlockInjective(s, t, x, x);
    }
  }

  /** Keys of one length that differ only inside one block of three words never meet again. */
  lemma {:induction false} InjectiveInBlock(v: seq<uint32>, w: seq<uint32>, q: nat, s: State)
    requires |v| == |w|
    requires forall i :: 0 <= i < |v| && !(3 * q <= i < 3 * q + 3) ==> v[i] == w[i]
    requires Lookup3(v, s) == Lookup3(w, s)
    ensures v == w
    decreases q
  {
    hide Mix, Final, Add;
    if |v| > 0 {
      var x, y := State(v[0], WordAt(v, 1), WordAt(v, 2)), State(w[0], WordAt(w, 1), WordAt(w, 2));
      var s', t' := AddBlock(s, x.a, x.b, x.c), AddBlock(s, y.a, y.b, y.c);
      if |v| <= 3 {
        MixFinalInjective(s', t');
        AddBlockInjective(s, s, x, y);
      } else if q == 0 {
        assert v[3..] == w[3..];
        InjectiveInSeed(v[3..], Mix(s'), Mix(t'));
        MixFinalInjective(s', t');
        AddBlockInjective(s, s, x, y);
      } else {
        InjectiveInBlock(v[3..], w[3..], q - 1, Mix(s'));
        assert v == v[..3] + v[3..] && w == w[..3] + w[3..];
      }
    }
  }

  lemma LoadInjective(x0: uint8, x1: uint8, x2: uint8, x3: uint8, y0: uint8, y1: uint8, y2: uint8, y3: uint8)
    requires LoadLE(x0, x1, x2, x3) == LoadLE(y0, y1, y2, y3)
    ensures x0 == y0 && x1 == y1 && x2 == y2 && x3 == y3
  {
    Masks(x0, x1, x2, x3);
    Masks(y0, y1, y2, y3);
  }

  lemma WordInjective(k: seq<uint8>, l: seq<uint8>, i: nat, e: Endian)
    requires Word(k, i, e) == Word(l, i, e)
    ensures ByteAt(k, i) == ByteAt(l, i) && ByteAt(k, i + 1) == ByteAt(l, i + 1)
    ensures ByteAt(k, i + 2) == ByteAt(l, i + 2) && ByteAt(k, i + 3) == ByteAt(l, i + 3)
  {
    hide LoadLE;
    var x0, x1, x2, x3 := ByteAt(k, i), ByteAt(k, i + 1), ByteAt(k, i + 2), ByteAt(k, i + 3);
    var y0, y1, y2, y3 := ByteAt(l, i), ByteAt(l, i + 1), ByteAt(l, i + 2), ByteAt(l, i + 3);
    if e.Little? {
      LoadInjective(x0, x1, x2, x3, y0, y1, y2, y3);
    } else {
      LoadInjective(x3, x2, x1, x0, y3, y2, y1, y0);
    }
  }

  /** The same for byte keys of one length and one block of twelve bytes; a key of at most
      twelve bytes is a single block, so there the state determines the whole key. */
  lemma InjectiveInBytes(k: seq<uint8>, l: seq<uint8>, q: nat, s: State, e: Endian)
    requires |k| == |l|
    requires forall i :: 0 <= i < |k| && !(12 * q <= i < 12 * q + 12) ==> k[i] == l[i]
    requires Lookup3(Words(k, e), s) == Lookup3(Words(l, e), s)
    ensures k == l
  {
    hide Word, Lookup3;
    var v, w := Words(k, e), Words(l, e);
    forall i | 0 <= i < |v| && !(3 * q <= i < 3 * q + 3) ensures v[i] == w[i] {
      SameWord(k, l, 4 * i, e);
    }
    InjectiveInBlock(v, w, q, s);
    forall j | 0 <= j < |k| ensures k[j] == l[j] {
      assert v[j / 4] == w[j / 4];
      WordInjective(k, l, 4 * (j / 4), e);
      assert ByteAt(k, j) == ByteAt(l, j);
    }
  }

  lemma SameWord(k: seq<uint8>, l: seq<uint8>, i: nat, e: Endian)
    requires |k| == |l|
    requires forall j :: i <= j < i + 4 && j < |k| ==> k[j] == l[j]
    ensures Word(k, i, e) == Word(l, i, e)
  {
    hide LoadLE;
  }

  // ----------------------------------------------------------------------- an example

  /** Rotating moves the top k bits to the bottom. */
  lemma RotIs(top: nat, rest: nat, k: Amount)
    requires rest < Pow2(32 - k) && top < Pow2(k)
    ensures top * Pow2(32 - k) + rest < TWO_32 && rest * Pow2(k) + top < TWO_32
    ensures Rot(top * Pow2(32 - k) + rest, k) == rest * Pow2(k) + top
  {
    hide Pow2, ShiftLeft, ShiftRight, OrBits, Wrap;
    var q, p := Pow2(32 - k), Pow2(k);
    var x := top * q + rest;
    Pow2Sum(k, 32 - k);
    PowersOfTwo();
    BelowProduct(top, p, rest, q);
    BelowProduct(rest, q, top, p);
    ShiftRightIs(top, rest, 32 - k);
    ShiftLeftIs(x, k);
    WrapUnique(x, 0, x);
    Dropped(top, rest, q, p);
    OrConcat(rest, top, k);
  }

  lemma XorNothing(x: uint32)
    ensures Xor(x, 0) == Xor(0, x) == x
  {
    XorZero(x);
  }

  lemma {:induction false} XorZero(x: nat)
    ensures XorBits(x, 0) == XorBits(0, x) == x
  {
    if x > 0 { XorZero(x / 2); }
  }

  lemma Powers()
    ensures Pow2(4) == 0x10 && Pow2(7) == 0x80 && Pow2(8) == 0x100 && Pow2(11) == 0x800 && Pow2(14) == 0x4000
    ensures Pow2(16) == 0x1_0000 && Pow2(18) == 0x4_0000 && Pow2(21) == 0x20_0000 && Pow2(24) == 0x100_0000
    ensures Pow2(25) == 0x200_0000 && Pow2(28) == 0x1000_0000
  {
    Pow2OfByte(0);
    Pow2OfByte(8);
    Pow2OfByte(16);
    assert Pow2(28) == 16 * Pow2(24);
    assert Pow2(21) == 32 * Pow2(16);
    assert Pow2(18) == 4 * Pow2(16);
    assert Pow2(14) == 64 * Pow2(8);
    assert Pow2(11) == 8 * Pow2(8);
  }

  /** The rotations in the example. */
  lemma Rotations()
    ensures Rot(0, 14) == 0 && Rot(0, 11) == 0 && Rot(0, 4) == 0
    ensures Rot(0x80_0080, 25) == 0x1_0001 && Rot(0x7F_007F, 16) == 0x7F_007F
    ensures Rot(0x80_0080, 14) == 0x20_0020 && Rot(0xDF_00DF, 24) == 0xDF00_DF00
  {
    Powers();
    hide Rot, Pow2;
    RotIs(0, 0, 14);
    RotIs(0, 0, 11);
    RotIs(0, 0, 4);
    RotIs(0x1_0001, 0, 25);
    RotIs(0x7F, 0x7F, 16);
    RotIs(0x20, 0x80, 14);
    RotIs(0xDF00, 0xDF, 24);
  }

  lemma ByteXor()
    ensures XorBits(0x7F, 0x80) == 0xFF
  {
    assert XorBits(0x7, 0x8) == 0xF;
  }

  lemma OneXor()
    ensures Xor(0x7F_007F, 0x80_0080) == 0xFF_00FF
  {
    Powers();
    ByteXor();
    hide XorBits, Pow2;
    XorSplit(0x7F, 0x7F, 0x80, 0x80, 16);
  }

  /** final of a state by hand: not every hash is 0. */
  lemma FinalExample()
    ensures Final(State(0x80_0080, 0, 0)).c == 0x21DE_21DF
  {
    hide Rot, Xor;
    Rotations();
    OneXor();
    XorNothing(0);
    XorNothing(0x80_0080);
    XorNothing(0x7F_007F);
    XorNothing(0xDF_00DF);
    assert FinalWord(0, 0, 14) == 0;
    assert FinalWord(0x80_0080, 0, 11) == 0x80_0080;
    assert FinalWord(0, 0x80_0080, 25) == 0x7F_007F;
    assert FinalWord(0, 0x7F_007F, 16) == 0;
    assert FinalWord(0x80_0080, 0, 4) == 0x80_0080;
    assert FinalWord(0x7F_007F, 0x80_0080, 14) == 0xDF_00DF;
    assert FinalWord(0, 0xDF_00DF, 24) == 0x21DE_21DF;
    hide FinalWord;
    FinalIs(State(0x80_0080, 0, 0));
  }

  /** The lines of mix, one by one. */
  lemma MixIs(s: State)
    ensures var a := Xor(Sub(s.a, s.c), Rot(s.c, 4));
            var c := Add(s.c, s.b);
            var b := Xor(Sub(s.b, a), Rot(a, 6));
            var a := Add(a, c);
            var c := Xor(Sub(c, b), Rot(b, 8));
            var b := Add(b, a);
            var a := Xor(Sub(a, c), Rot(c, 16));
            var c := Add(c, b);
            var b := Xor(Sub(b, a), Rot(a, 19));
            var a := Add(a, c);
            var c := Xor(Sub(c, b), Rot(b, 4));
            Mix(s) == State(a, Add(b, a), c)
  {
    hide Xor, Rot, Add, Sub;
    MixLinesConcat(s, [4, 6, 8], [16, 19, 4]);
    assert MIX_AMOUNTS == [4, 6, 8] + [16, 19, 4];
    ThreeMixLines(s, 4, 6, 8);
    ThreeMixLines(MixLines(s, [4, 6, 8]), 16, 19, 4);
  }

  lemma ThreeMixLines(s: State, i: Amount, j: Amount, k: Amount)
    ensures var a := Xor(Sub(s.a, s.c), Rot(s.c, i));
            var c := Add(s.c, s.b);
            var b := Xor(Sub(s.b, a), Rot(a, j));
            var a := Add(a, c);
            var c := Xor(Sub(c, b), Rot(b, k));
            MixLines(s, [i, j, k]) == State(a, Add(b, a), c)
  {
    hide Xor, Rot, Add, Sub;
    var s1 := State(s.b, Add(s.c, s.b), MixWord(s.a, s.c, i));
    var s2 := State(s1.b, Add(s1.c, s1.b), MixWord(s1.a, s1.c, j));
    assert [i] + [j, k] == [i, j, k] && [j] + [k] == [j, k] && [k] + [] == [k];
    MixLinesFirst(s, i, [j, k]);
    MixLinesFirst(s1, j, [k]);
    MixLinesFirst(s2, k, []);
    hide MixLines;
  }

  lemma MixLinesFirst(s: State, i: Amount, ks: seq<Amount>)
    ensures MixLines(s, [i] + ks) == MixLines(State(s.b, Add(s.c, s.b), MixWord(s.a, s.c, i)), ks)
    ensures MixLines(s, []) == s
  {
    hide MixWord, Add;
    assert ([i] + ks)[1..] == ks;
  }

  /** The lines of final, one by one. */
  lemma FinalIs(s: State)
    ensures var c := Sub(Xor(s.c, s.b), Rot(s.b, 14));
            var a := Sub(Xor(s.a, c), Rot(c, 11));
            var b := Sub(Xor(s.b, a), Rot(a, 25));
            var c := Sub(Xor(c, b), Rot(b, 16));
            var a := Sub(Xor(a, c), Rot(c, 4));
            var b := Sub(Xor(b, a), Rot(a, 14));
            Final(s) == State(a, b, Sub(Xor(c, b), Rot(b, 24)))
  {
    hide Xor, Rot, Sub;
    var ks := FINAL_AMOUNTS;
    assert ks[1..] == [11, 25, 16, 4, 14, 24] && ks[1..][1..] == [25, 16, 4, 14, 24];
    assert ks[1..][1..][1..] == [16, 4, 14, 24] && ks[1..][1..][1..][1..] == [4, 14, 24];
    assert ks[1..][1..][1..][1..][1..] == [14, 24] && ks[1..][1..][1..][1..][1..][1..] == [24];
  }

  /** The reference, block by block: a, b and c take one word each, and those behind the end
      of the key count as 0. */
  lemma Lookup3Is(w: seq<uint32>, s: State)
    ensures w == [] ==> Lookup3(w, s) == s
    ensures |w| == 1 ==> Lookup3(w, s) == Final(State(Add(s.a, w[0]), s.b, s.c))
    ensures |w| == 2 ==> Lookup3(w, s) == Final(State(Add(s.a, w[0]), Add(s.b, w[1]), s.c))
    ensures |w| == 3 ==> Lookup3(w, s) == Final(State(Add(s.a, w[0]), Add(s.b, w[1]), Add(s.c, w[2])))
    ensures |w| > 3 ==>
      Lookup3(w, s) == Lookup3(w[3..], Mix(State(Add(s.a, w[0]), Add(s.b, w[1]), Add(s.c, w[2]))))
  {
    hide Mix, Final;
  }

  /** A word of a key is made of four of its bytes, the key filled up with zeros: the first
      one lowest, or highest. */
  lemma WordsAre(k: seq<uint8>, j: nat)
    requires 4 * j < |k|
    ensures j < |Words(k, Little)| && j < |Words(k, Big)|
    ensures var l := k + [0, 0, 0];
            var x0: int, x1: int, x2: int, x3: int := l[4 * j], l[4 * j + 1], l[4 * j + 2], l[4 * j + 3];
            Words(k, Little)[j] == x0 + 0x100 * x1 + 0x1_0000 * x2 + 0x100_0000 * x3 &&
            Words(k, Big)[j] == x3 + 0x100 * x2 + 0x1_0000 * x1 + 0x100_0000 * x0
  {}

  /** The hashes of the empty key that the file's own test driver lists. */
  lemma EmptyKeys()
    ensures Lookup3([], Seed(0, 0, 0)) == State(0xdead_beef, 0xdead_beef, 0xdead_beef)
    ensures Lookup3([], Seed(0, 0, 0xdead_beef)) == State(0xdead_beef, 0xdead_beef, 0xbd5b_7dde)
    ensures Lookup3([], Seed(0, 0xdead_beef, 0xdead_beef)) == State(0xbd5b_7dde, 0xbd5b_7dde, 0x9c09_3ccd)
  {
    EmptySeeds();
    EmptyKey(Seed(0, 0, 0));
    EmptyKey(Seed(0, 0, 0xdead_beef));
    EmptyKey(Seed(0, 0xdead_beef, 0xdead_beef));
    hide Lookup3, Seed;
  }

  lemma EmptyKey(s: State)
    ensures Lookup3([], s) == s
  {
    hide Mix, Final;
  }

  lemma EmptySeeds()
    ensures Seed(0, 0, 0) == State(0xdead_beef, 0xdead_beef, 0xdead_beef)
    ensures Seed(0, 0, 0xdead_beef) == State(0xdead_beef, 0xdead_beef, 0xbd5b_7dde)
    ensures Seed(0, 0xdead_beef, 0xdead_beef) == State(0xbd5b_7dde, 0xbd5b_7dde, 0x9c09_3ccd)
  {}

  /** The length in bytes, modulo 2^32, goes into all three words, and the second seed into
      the last one only. */
  lemma SeedIs(length: nat, pc: uint32, pb: uint32)
    ensures var s := Seed(length, pc, pb);
            s.a == s.b == (0xdead_beef + length + pc) % TWO_32 && s.c == (s.a + pb) % TWO_32
  {
    hide Wrap;
    WrapAdd(0xdead_beef, length);
    WrapAdd(0xdead_beef + length, pc);
    var x := Wrap(0xdead_beef + length + pc);
    WrapAdd(x, pb);
    SmallWrap(pc);
    SmallWrap(pb);
    SmallWrap(x);
    SmallWrap(0xdead_beef);
    WrapIs(0xdead_beef + length + pc);
    WrapIs(x + pb);
  }

  lemma WrapIs(n: nat)
    ensures Wrap(n) == n % TWO_32
  {}

  lemma SmallWrap(x: uint32)
    ensures Wrap(x) == x
  {}
}
