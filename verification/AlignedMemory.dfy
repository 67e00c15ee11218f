/** Aligned memory on top of malloc and free, src/measurement/SCOREP_Memory.c: the distance
    from the raw to the aligned address is kept in the two bytes in front of the latter. */
module AlignedMemory {
  import opened MachineWords

  const UINT16_MAX := 0xFFFF
  const CELL: nat := 2

  // ------------------------------------------------------------------------- arithmetic

  /** Bitwise and. */
  function AndBits(x: nat, y: nat): nat {
    if x == 0 || y == 0 then 0 else 2 * AndBits(x / 2, y / 2) + (if x % 2 == 1 && y % 2 == 1 then 1 else 0)
  }

  predicate PowerOfTwo(n: nat) { n == 1 || (n > 0 && n % 2 == 0 && PowerOfTwo(n / 2)) }

  /** The source's test finds the powers of two. */
  lemma {:induction false} PowerOfTwoTest(n: nat)
    requires n > 0
    ensures AndBits(n, n - 1) == 0 <==> PowerOfTwo(n)
    ensures AndBits(n, n - 1) == 0 <==> exists k: nat :: n == Pow2(k)
  {
    PowersAre(n);
    if n % 2 == 0 {
      PowerOfTwoTest(n / 2);
      assert (n - 1) / 2 == n / 2 - 1;
    } else if n > 1 {
      AndSelf(n / 2);
      assert (n - 1) / 2 == n / 2;
    }
  }

  lemma {:induction false} PowerIs(k: nat)
    ensures PowerOfTwo(Pow2(k))
  {
    if k > 0 { PowerIs(k - 1); }
  }

  lemma {:induction false} ExponentOf(n: nat) returns (k: nat)
    requires PowerOfTwo(n)
    ensures n == Pow2(k)
  {
    k := 0;
    if n > 1 {
      k := ExponentOf(n / 2);
      k := k + 1;
    }
  }

  lemma PowersAre(n: nat)
    ensures PowerOfTwo(n) <==> exists k: nat :: n == Pow2(k)
  {
    if PowerOfTwo(n) { var k := ExponentOf(n); }
    if k: nat :| n == Pow2(k) { PowerIs(k); }
  }

  lemma {:induction false} AndSelf(n: nat)
    ensures AndBits(n, n) == n
  {
    if n > 0 { AndSelf(n / 2); }
  }

  /** SCOREP_ROUNDUPTO */
  function RoundUp(x: nat, unit: nat): (r: nat)
    requires unit > 0
    ensures r % unit == 0 && x <= r < x + unit
  {
    var rest := x % unit;
    if rest == 0 then x
    else
      assert (x - rest + unit) % unit == 0 by { NextMultiple(x, unit); }
      x - rest + unit
  }

  lemma NextMultiple(x: nat, unit: nat)
    requires unit > 0
    ensures (x - x % unit + unit) % unit == 0
  {
    var q := x / unit;
    assert x - x % unit + unit == unit * (q + 1);
    assert (unit * (q + 1)) % unit == 0 by { MultipleRest(unit, q + 1); }
  }

  lemma MultipleRest(unit: nat, q: nat)
    requires unit > 0
    ensures (unit * q) % unit == 0
  {
    var m := unit * q;
    var d := q - m / unit;
    assert unit * d == m % unit;
    if d >= 1 { AtLeastUnit(unit, d); }
    if d <= -1 { AtLeastUnit(unit, -d); }
  }

  lemma AtLeastUnit(unit: nat, d: nat)
    requires d >= 1
    ensures unit * d >= unit
  {}

  /** The bytes asked for: a sum of type size_t. */
  function Request(size: nat, alignment: nat): uint64 {
    (size + CELL + alignment - 1) % TWO_64
  }

  function AlignedAddress(raw: nat, alignment: nat): nat
    requires alignment > 0
  {
    RoundUp(raw + CELL, alignment)
  }

  predicate Supported(alignment: nat, least: nat) {
    least <= alignment <= UINT16_MAX && PowerOfTwo(alignment)
  }

  lemma {:induction false} LargestPower(n: nat, k: nat)
    requires PowerOfTwo(n) && n < 2 * Pow2(k)
    ensures n <= Pow2(k)
    decreases k
  {
    if n > 1 && k > 0 { LargestPower(n / 2, k - 1); }
  }

  /** The offset fits the cell. */
  lemma OffsetFits(raw: nat, alignment: nat, least: nat)
    requires least > 0 && Supported(alignment, least)
    ensures CELL <= AlignedAddress(raw, alignment) - raw <= alignment + 1 <= 0x8001
  {
    assert Pow2(15) == 0x8000;
    LargestPower(alignment, 15);
  }

  /** The block lies in what malloc was asked for exactly when the sum did not wrap. */
  lemma InsideIff(raw: nat, alignment: nat, size: uint64)
    requires size > 0 && Supported(alignment, 1)
    ensures AlignedAddress(raw, alignment) + size <= raw + Request(size, alignment) <==>
            size + alignment + 1 < TWO_64
  {}

  /** A size for which it wraps: nine bytes are allocated for it. */
  lemma RequestWraps()
    ensures Request(0xFFFF_FFFF_FFFF_FFF8, 16) == 9
  {}

  /** None of the extra bytes can be spared: for some raw address the block ends with the
      last byte asked for. */
  lemma NoByteToSpare(alignment: nat, size: uint64) returns (raw: nat)
    requires alignment >= 3 && size > 0 && size + alignment + 1 < TWO_64
    ensures AlignedAddress(raw, alignment) + size == raw + Request(size, alignment)
  {
    raw := alignment - 1;
    assert (alignment + 1) % alignment == 1;
  }

  // ------------------------------------------------------------------------------ the heap

  /** What was asked for, and the address malloc answered with. */
  datatype Block = Block(raw: nat, size: nat, alignment: nat)

  /** The cell in front of the aligned address lies in what malloc was asked for. */
  predicate CellInside(raw: nat, alignment: nat, size: uint64)
    requires alignment > 0
  {
    AlignedAddress(raw, alignment) <= raw + Request(size, alignment)
  }

  /** It need not, if the sum wraps: at 16 the nine bytes end before the cell at 30. */
  lemma CellOutside()
    ensures !CellInside(16, 16, TWO_64 - 8) && AlignedAddress(16, 16) == 32
  {}

  lemma Placement(b: Block, least: nat)
    requires Supported(b.alignment, least) && least > 0
    ensures var aligned := AlignedAddress(b.raw, b.alignment);
            b.raw + CELL <= aligned && aligned % b.alignment == 0 &&
            aligned + b.size <= b.raw + (b.size + b.alignment + 1)
  {}

  predicate Apart(x: nat, m: nat, y: nat, n: nat) { x + m <= y || y + n <= x }

  ghost predicate RegionsApart(regions: map<nat, nat>) {
    (forall r :: r in regions ==> 0 < r && 0 < regions[r] && r + regions[r] <= TWO_64) &&
    (forall r, q :: r in regions && q in regions && r != q ==> Apart(r, regions[r], q, regions[q]))
  }

  /** What malloc may answer: no memory, or a new region. */
  ghost predicate MallocMay(regions: map<nat, nat>, raw: nat, n: nat) {
    raw == 0 || (raw + n <= TWO_64 && forall r :: r in regions ==> Apart(raw, n, r, regions[r]))
  }

  lemma AddRegion(regions: map<nat, nat>, raw: nat, n: nat)
    requires RegionsApart(regions) && MallocMay(regions, raw, n) && raw != 0 && n > 0
    ensures raw !in regions && RegionsApart(regions[raw := n])
  {}

  /** Bytes of memory, the regions malloc has handed out, and the blocks in use.  The least
      alignment is a constant of the allocator. */
  class Heap {
    const least: nat
    var memory: map<nat, uint8>
    var regions: map<nat, nat>
    ghost var blocks: map<nat, Block>

    constructor (least: nat)
      requires least > 0
      ensures Valid() && blocks == map[] && regions == map[] && this.least == least
    {
      this.least := least;
      memory, regions, blocks := map[], map[], map[];
    }

    /** A byte nobody has written yet may hold anything; it is read as 0. */
    function Byte(address: nat): uint8
      reads this`memory
    {
      if address in memory then memory[address] else 0
    }

    /** The 16-bit number in front of an address, low byte first. */
    function Cell(aligned: nat): uint16
      requires aligned >= CELL
      reads this`memory
    {
      Byte(aligned - 2) + 0x100 * Byte(aligned - 1)
    }

    /** A block is aligned, lies behind its cell in a region of its own, and the cell leads
        back to the start of that. */
    ghost predicate InPlace(aligned: nat, b: Block)
      reads this`memory, this`regions
    {
      b.size > 0 && Supported(b.alignment, least) && aligned == AlignedAddress(b.raw, b.alignment) &&
      aligned >= CELL && b.raw in regions && regions[b.raw] == b.size + b.alignment + 1 &&
      Cell(aligned) == aligned - b.raw
    }

    ghost predicate Valid()
      reads this
    {
      least > 0 && RegionsApart(regions) &&
      (forall a :: a in blocks ==> InPlace(a, blocks[a])) &&
      (forall a: nat, b :: a in blocks && b in blocks && a != b ==> blocks[a].raw != blocks[b].raw)
    }

    /** The cell and the bytes of a block are apart from those of any other. */
    lemma BlocksApart(a: nat, b: nat)
      requires Valid() && a in blocks && b in blocks && a != b
      ensures Apart(a - CELL, CELL + blocks[a].size, b - CELL, CELL + blocks[b].size)
    {
      Placement(blocks[a], least);
      Placement(blocks[b], least);
    }

    /** The arguments the source turns down. */
    predicate Refused(alignment: nat, size: nat) {
      size == 0 || !Supported(alignment, least)
    }

    lemma RefusedIff(alignment: nat, size: nat)
      ensures Refused(alignment, size) <==>
              size == 0 || alignment < least || alignment > 65535 || !exists k: nat :: alignment == Pow2(k)
    {
      PowersAre(alignment);
    }

    /** The tests at the start of SCOREP_Memory_AlignedMalloc. */
    method Check(alignment: nat, size: uint64) returns (refused: bool)
      requires least > 0
      ensures refused == Refused(alignment, size)
    {
      if size == 0 || alignment < least || alignment > UINT16_MAX { return true; }
      PowerOfTwoTest(alignment);
      return AndBits(alignment, alignment - 1) != 0;
    }

    /** SCOREP_Memory_AlignedMalloc, where raw is what malloc answers.  If the sum in the
        request wraps, no block is gained; those in use are safe if the cell lies in the
        region that malloc gave. */
    method AlignedMalloc(alignment: nat, size: uint64, raw: nat) returns (aligned: nat)
      requires Valid() && MallocMay(regions, raw, Request(size, alignment))
      modifies this`memory, this`regions, this`blocks
      ensures Refused(alignment, size) || raw == 0 ==>
        aligned == 0 && memory == old(memory) && regions == old(regions) && blocks == old(blocks) && Valid()
      ensures !Refused(alignment, size) && raw != 0 ==>
        aligned == AlignedAddress(raw, alignment) && aligned % alignment == 0 && Cell(aligned) == aligned - raw &&
        regions == old(regions)[raw := Request(size, alignment)] &&
        (forall a: nat :: a < aligned - CELL || aligned <= a ==> Byte(a) == old(Byte(a))) &&
        (CellInside(raw, alignment, size) ==> Valid())
      ensures !Refused(alignment, size) && raw != 0 && size + alignment + 1 < TWO_64 ==>
        Valid() && aligned !in old(blocks) && blocks == old(blocks)[aligned := Block(raw, size, alignment)]
      ensures !(size + alignment + 1 < TWO_64) ==> blocks == old(blocks)
    {
      hide AlignedAddress, PowerOfTwo, InPlace, RegionsApart, MallocMay, Cell, Byte, Supported;
      aligned := 0;
      var refused := Check(alignment, size);
      if refused || raw == 0 { return; }
      var n := Request(size, alignment);
      ghost var b := Block(raw, size, alignment);
      Placement(b, least);
      OffsetFits(raw, alignment, least);
      if CellInside(raw, alignment, size) {
        AddRegion(regions, raw, n);
        forall a | a in blocks ensures Room(a, b) { HasRoom(a, b); }
      }
      aligned := AlignedAddress(raw, alignment);
      TakeRegion(raw, n);
      StoreCell(aligned, aligned - raw);
      if size + alignment + 1 < TWO_64 {
        NewInPlace(aligned, b);
        Gain(aligned, b);
      }
    }

    /** A block does not share anything with a new one. */
    ghost predicate Room(a: nat, b: Block)
      requires b.alignment > 0
      reads this`blocks
    {
      var aligned := AlignedAddress(b.raw, b.alignment);
      aligned >= CELL && a in blocks && a != aligned && blocks[a].raw != b.raw &&
      (a <= aligned - CELL || aligned <= a - CELL)
    }

    lemma HasRoom(a: nat, b: Block)
      requires Valid() && b.raw != 0 && Supported(b.alignment, least) && b.size > 0 && a in blocks
      requires b.size < TWO_64 && CellInside(b.raw, b.alignment, b.size)
      requires MallocMay(regions, b.raw, Request(b.size, b.alignment))
      ensures Room(a, b)
    {
      hide AlignedAddress, Supported, Cell, RegionsApart;
      assert InPlace(a, blocks[a]);
      Placement(b, least);
      Placement(blocks[a], least);
    }

    lemma NewInPlace(aligned: nat, b: Block)
      requires b.size > 0 && Supported(b.alignment, least) && aligned == AlignedAddress(b.raw, b.alignment)
      requires b.raw in regions && regions[b.raw] == b.size + b.alignment + 1
      requires aligned >= CELL && Cell(aligned) == aligned - b.raw
      ensures InPlace(aligned, b)
    {}

    /** What malloc does. */
    method TakeRegion(raw: nat, n: nat)
      modifies this`regions
      ensures regions == old(regions)[raw := n]
      ensures forall a: nat, b :: old(InPlace(a, b)) && b.raw != raw ==> InPlace(a, b)
    {
      hide AlignedAddress, Supported;
      regions := regions[raw := n];
      forall a: nat, b | old(InPlace(a, b)) && b.raw != raw ensures InPlace(a, b) {}
    }

    ghost method Gain(aligned: nat, b: Block)
      requires least > 0 && RegionsApart(regions) && InPlace(aligned, b)
      requires forall a :: a in blocks ==> InPlace(a, blocks[a]) && blocks[a].raw != b.raw
      requires forall x, y :: x in blocks && y in blocks && x != y ==> blocks[x].raw != blocks[y].raw
      modifies this`blocks
      ensures Valid() && blocks == old(blocks)[aligned := b]
    {
      hide InPlace;
      blocks := blocks[aligned := b];
    }

    /** The 16-bit store in front of the aligned address. */
    method StoreCell(aligned: nat, offset: uint16)
      requires aligned >= CELL
      modifies this`memory
      ensures Cell(aligned) == offset
      ensures forall a: nat :: a < aligned - CELL || aligned <= a ==> Byte(a) == old(Byte(a))
      ensures forall a: nat, b :: old(InPlace(a, b)) && (a <= aligned - CELL || aligned <= a - CELL) ==> InPlace(a, b)
    {
      hide AlignedAddress, Supported;
      memory := memory[aligned - 2 := offset % 0x100][aligned - 1 := offset / 0x100];
      forall a: nat, b | old(InPlace(a, b)) && (a <= aligned - CELL || aligned <= a - CELL) ensures InPlace(a, b) {}
    }

    /** A write by the user of a block, inside it. */
    method Write(block: nat, i: nat, value: uint8)
      requires Valid() && block in blocks && i < blocks[block].size
      modifies this`memory
      ensures Valid() && Byte(block + i) == value
      ensures forall address: nat :: address != block + i ==> Byte(address) == old(Byte(address))
    {
      hide AlignedAddress, Supported;
      assert InPlace(block, blocks[block]);
      Placement(blocks[block], least);
      memory := memory[block + i := value];
      forall a | a in blocks ensures InPlace(a, blocks[a]) {
        assert old(InPlace(a, blocks[a]));
        Placement(blocks[a], least);
      }
    }

    /** SCOREP_Memory_AlignedFree: free is called with just what malloc had answered. */
    method AlignedFree(aligned: nat) returns (raw: nat)
      requires Valid() && (aligned == 0 || aligned in blocks)
      modifies this`regions, this`blocks
      ensures Valid()
      ensures aligned == 0 ==> raw == 0 && regions == old(regions) && blocks == old(blocks)
      ensures aligned != 0 ==>
        raw == old(blocks)[aligned].raw && regions == old(regions) - {raw} && blocks == old(blocks) - {aligned}
    {
      hide InPlace, RegionsApart, Cell;
      if aligned == 0 { return 0; }
      LeadsBack(aligned, blocks[aligned]);
      var offset := Cell(aligned);
      raw := aligned - offset;
      Release(raw);
      blocks := blocks - {aligned};
    }

    lemma LeadsBack(aligned: nat, b: Block)
      requires InPlace(aligned, b)
      ensures aligned >= CELL && aligned - Cell(aligned) == b.raw
    {}

    /** What free does. */
    method Release(raw: nat)
      requires RegionsApart(regions)
      modifies this`regions
      ensures regions == old(regions) - {raw} && RegionsApart(regions)
      ensures forall a: nat, b :: old(InPlace(a, b)) && b.raw != raw ==> InPlace(a, b)
    {
      hide AlignedAddress, Supported, Cell;
      regions := regions - {raw};
      forall a: nat, b | old(InPlace(a, b)) && b.raw != raw ensures InPlace(a, b) {}
    }
  }
}
