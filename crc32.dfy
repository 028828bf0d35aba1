/**
 * The CRC-32 that PNG puts at the end of every chunk (section 3.4 of RFC 2083):
 * reflected polynomial 0xEDB88320, register preset to all ones, result
 * complemented. The checksum is specified twice: table-driven, as the
 * encoder computes it, and bit by bit, as the standard defines it.
 */
module Crc32 {
  import opened Bytes

  const Polynomial: bv32 := 0xEDB8_8320

  /** Bit steps per byte. */
  const ByteBits: nat := 8

  /** One bit of polynomial division: shift right, folding in the polynomial when the low bit is set. */
  function BitStep(c: bv32): bv32 {
    if c & 1 == 1 then Polynomial ^ (c >> 1) else c >> 1
  }

  /** `n` bit steps applied to `c`. */
  function BitSteps(c: bv32, n: nat): bv32 {
    if n == 0 then c else BitStep(BitSteps(c, n - 1))
  }

  /** Entry `i` of the 256-entry lookup table: `i` put through eight bit steps. */
  function TableEntry(i: bv32): bv32 {
    BitSteps(i, ByteBits)
  }

  /** The table slot an update reads: the low byte of the register XOR the (zero-extended) input byte `w`. */
  function TableIndex(crc: bv32, w: bv32): bv32 {
    (crc ^ w) & 0xFF
  }

  /** Table-driven update of the running register by one byte. */
  function Update(crc: bv32, b: byte): bv32 {
    TableEntry(TableIndex(crc, b as bv32)) ^ (crc >> 8)
  }

  /** An update whose table slot and entry are known. */
  lemma UpdateByEntry(crc: bv32, b: byte, index: bv32, entry: bv32)
    requires TableIndex(crc, b as bv32) == index && TableEntry(index) == entry
    ensures Update(crc, b) == entry ^ (crc >> 8)
  {
  }

  /** The running register after every byte of `buf`, starting from `crc`. */
  function Fold(crc: bv32, buf: seq<byte>): bv32 {
    if buf == [] then crc else Update(Fold(crc, buf[..|buf| - 1]), buf[|buf| - 1])
  }

  const Preset: bv32 := 0xFFFF_FFFF

  /** The CRC-32 of `buf`. */
  function Checksum(buf: seq<byte>): (r: bv32)
    ensures buf == [] ==> r == 0
  {
    Fold(Preset, buf) ^ Preset
  }

  lemma FoldSnoc(crc: bv32, buf: seq<byte>, i: nat)
    requires i < |buf|
    ensures Fold(crc, buf[..i + 1]) == Update(Fold(crc, buf[..i]), buf[i])
  {
    assert buf[..i + 1][..i] == buf[..i];
  }

  /** Folding over a concatenation folds over the second part from where the first ended. */
  lemma {:induction false} FoldAppend(crc: bv32, a: seq<byte>, b: seq<byte>)
    ensures Fold(crc, a + b) == Fold(Fold(crc, a), b)
  {
    if b != [] {
      assert (a + b)[..|a + b| - 1] == a + b[..|b| - 1];
      FoldAppend(crc, a, b[..|b| - 1]);
    } else {
      assert a + b == a;
    }
  }

  // ---- Reference definition: the CRC computed one bit at a time ----

  /** Bitwise update: XOR the byte into the low end of the register, then eight bit steps. */
  function BitwiseUpdate(crc: bv32, b: byte): bv32 {
    BitwiseWord(crc, b as bv32)
  }

  /** Bitwise update by a zero-extended byte `w`. */
  function BitwiseWord(crc: bv32, w: bv32): bv32 {
    BitSteps(crc ^ w, ByteBits)
  }

  function BitwiseFold(crc: bv32, buf: seq<byte>): bv32 {
    if buf == [] then crc else BitwiseUpdate(BitwiseFold(crc, buf[..|buf| - 1]), buf[|buf| - 1])
  }

  /** The CRC-32 of `buf` by the bit-at-a-time definition, with no table. */
  function ReferenceChecksum(buf: seq<byte>): bv32 {
    BitwiseFold(Preset, buf) ^ Preset
  }

  lemma ShiftXor(a: bv32, c: bv32)
    ensures (a ^ c) >> 1 == (a >> 1) ^ (c >> 1)
  {
  }

  lemma LowBitXor(a: bv32, c: bv32)
    ensures (a ^ c) & 1 == (a & 1) ^ (c & 1)
  {
  }

  /** One bit step distributes over XOR. */
  lemma BitStepLinear(a: bv32, c: bv32)
    ensures BitStep(a ^ c) == BitStep(a) ^ BitStep(c)
  {
    ShiftXor(a, c);
    LowBitXor(a, c);
    if a & 1 == 1 && c & 1 == 1 {
      StepBothOdd(a, c, a >> 1, c >> 1);
    } else if a & 1 == 1 {
      StepOneOdd(a, c, a >> 1, c >> 1);
    } else if c & 1 == 1 {
      StepOtherOdd(a, c, a >> 1, c >> 1);
    } else {
      StepBothEven(a, c, a >> 1, c >> 1);
    }
  }

  // The step lemmas below split the bit-vector reasoning of one induction step
  // into pieces whose facts match each other syntactically, which the solver
  // checks cheaply; stated together they run out of resource.

  lemma StepBothOdd(a: bv32, c: bv32, x: bv32, y: bv32)
    requires a & 1 == 1 && c & 1 == 1 && (a ^ c) & 1 == 0
    requires x == a >> 1 && y == c >> 1 && (a ^ c) >> 1 == x ^ y
    ensures BitStep(a ^ c) == BitStep(a) ^ BitStep(c)
  {
    XorCancel(Polynomial, x, y);
  }

  lemma StepOneOdd(a: bv32, c: bv32, x: bv32, y: bv32)
    requires a & 1 == 1 && c & 1 == 0 && (a ^ c) & 1 == 1
    requires x == a >> 1 && y == c >> 1 && (a ^ c) >> 1 == x ^ y
    ensures BitStep(a ^ c) == BitStep(a) ^ BitStep(c)
  {
    XorAssoc(Polynomial, x, y);
  }

  lemma StepOtherOdd(a: bv32, c: bv32, x: bv32, y: bv32)
    requires a & 1 == 0 && c & 1 == 1 && (a ^ c) & 1 == 1
    requires x == a >> 1 && y == c >> 1 && (a ^ c) >> 1 == x ^ y
    ensures BitStep(a ^ c) == BitStep(a) ^ BitStep(c)
  {
    XorSwap(Polynomial, x, y);
  }

  lemma StepBothEven(a: bv32, c: bv32, x: bv32, y: bv32)
    requires a & 1 == 0 && c & 1 == 0 && (a ^ c) & 1 == 0
    requires x == a >> 1 && y == c >> 1 && (a ^ c) >> 1 == x ^ y
    ensures BitStep(a ^ c) == BitStep(a) ^ BitStep(c)
  {
  }

  lemma XorCancel(p: bv32, x: bv32, y: bv32)
    ensures (p ^ x) ^ (p ^ y) == x ^ y
  {
  }

  lemma XorAssoc(p: bv32, x: bv32, y: bv32)
    ensures p ^ (x ^ y) == (p ^ x) ^ y
  {
  }

  lemma XorSwap(p: bv32, x: bv32, y: bv32)
    ensures p ^ (x ^ y) == x ^ (p ^ y)
  {
  }

  /** The step after `n - 1` steps of `a ^ c`, once those distribute. */
  lemma StepOfXor(a: bv32, c: bv32, n: nat)
    requires n > 0
    requires BitSteps(a ^ c, n - 1) == BitSteps(a, n - 1) ^ BitSteps(c, n - 1)
    ensures BitSteps(a ^ c, n) == BitStep(BitSteps(a, n - 1) ^ BitSteps(c, n - 1))
  {
  }

  lemma XorOfSteps(a: bv32, c: bv32, n: nat)
    requires n > 0
    ensures BitSteps(a, n) ^ BitSteps(c, n) == BitStep(BitSteps(a, n - 1)) ^ BitStep(BitSteps(c, n - 1))
  {
  }

  lemma StepOfXorNamed(a: bv32, c: bv32, n: nat, x: bv32, y: bv32)
    requires n > 0 && x == BitSteps(a, n - 1) && y == BitSteps(c, n - 1)
    ensures BitStep(BitSteps(a, n - 1) ^ BitSteps(c, n - 1)) == BitStep(x ^ y)
  {
  }

  lemma XorOfStepsNamed(a: bv32, c: bv32, n: nat, x: bv32, y: bv32)
    requires n > 0 && x == BitSteps(a, n - 1) && y == BitSteps(c, n - 1)
    ensures BitStep(x) ^ BitStep(y) == BitStep(BitSteps(a, n - 1)) ^ BitStep(BitSteps(c, n - 1))
  {
  }

  /** One step distributes over the XOR of the registers after `n - 1` steps. */
  lemma StepLinearAfter(a: bv32, c: bv32, n: nat, x: bv32, y: bv32)
    requires n > 0 && x == BitSteps(a, n - 1) && y == BitSteps(c, n - 1)
    ensures BitStep(BitSteps(a, n - 1) ^ BitSteps(c, n - 1)) == BitStep(BitSteps(a, n - 1)) ^ BitStep(BitSteps(c, n - 1))
  {
    StepOfXorNamed(a, c, n, x, y);
    BitStepLinear(x, y);
    XorOfStepsNamed(a, c, n, x, y);
  }

  lemma BitStepsLinearStep(a: bv32, c: bv32, n: nat)
    requires n > 0
    requires BitSteps(a ^ c, n - 1) == BitSteps(a, n - 1) ^ BitSteps(c, n - 1)
    ensures BitSteps(a ^ c, n) == BitSteps(a, n) ^ BitSteps(c, n)
  {
    StepOfXor(a, c, n);
    StepLinearAfter(a, c, n, BitSteps(a, n - 1), BitSteps(c, n - 1));
    XorOfSteps(a, c, n);
  }

  /** Bit steps distribute over XOR: the CRC register is linear over GF(2). */
  lemma {:induction false} BitStepsLinear(a: bv32, c: bv32, n: nat)
    ensures BitSteps(a ^ c, n) == BitSteps(a, n) ^ BitSteps(c, n)
  {
    if n > 0 {
      BitStepsLinear(a, c, n - 1);
      BitStepsLinearStep(a, c, n);
    }
  }

  /** Steps compose: m steps and then n more are m + n steps. */
  lemma {:induction false} BitStepsAdd(c: bv32, m: nat, n: nat)
    ensures BitSteps(c, m + n) == BitSteps(BitSteps(c, m), n)
  {
    if n > 0 {
      BitStepsAdd(c, m, n - 1);
    }
  }

  /** A bit step on a register whose low bit is clear is a plain shift. */
  lemma ShiftStep(c: bv32)
    requires c & 1 == 0
    ensures BitStep(c) == c >> 1
  {
  }

  lemma ShiftTwo(c: bv32)
    requires c & 0x3 == 0
    ensures BitSteps(c, 2) == c >> 2
  {
    ShiftStep(c);
    ShiftStep(c >> 1);
    assert BitSteps(c, 1) == BitStep(c);
  }

  lemma ShiftFour(c: bv32)
    requires c & 0xF == 0
    ensures BitSteps(c, 4) == c >> 4
  {
    BitStepsAdd(c, 2, 2);
    ShiftTwo(c);
    ShiftTwo(c >> 2);
  }

  /** On a register whose low byte is clear, eight bit steps shift that byte out. */
  lemma BitStepsOfHighBits(c: bv32)
    requires c & 0xFF == 0
    ensures BitSteps(c, ByteBits) == c >> 8
  {
    BitStepsAdd(c, 4, 4);
    ShiftFour(c);
    ShiftFour(c >> 4);
  }

  lemma ZeroExtended(b: byte)
    ensures (b as bv32) & 0xFFFF_FF00 == 0
  {
  }

  lemma HighPart(crc: bv32, w: bv32)
    requires w & 0xFFFF_FF00 == 0
    ensures ((crc ^ w) & 0xFFFF_FF00) >> 8 == crc >> 8
  {
  }

  lemma LowHighSplit(x: bv32)
    ensures x == (x & 0xFF) ^ (x & 0xFFFF_FF00)
    ensures (x & 0xFFFF_FF00) & 0xFF == 0
  {
  }

  lemma StepsOfSplit(crc: bv32, w: bv32, n: nat)
    ensures BitSteps(crc ^ w, n) == BitSteps(TableIndex(crc, w), n) ^ BitSteps((crc ^ w) & 0xFFFF_FF00, n)
  {
    LowHighSplit(crc ^ w);
    BitStepsLinear(TableIndex(crc, w), (crc ^ w) & 0xFFFF_FF00, n);
  }

  lemma StepsOfHighPart(crc: bv32, w: bv32, n: nat)
    requires n == ByteBits && w & 0xFFFF_FF00 == 0
    ensures BitSteps((crc ^ w) & 0xFFFF_FF00, n) == crc >> 8
  {
    HighPart(crc, w);
    LowHighSplit(crc ^ w);
    BitStepsOfHighBits((crc ^ w) & 0xFFFF_FF00);
  }

  /**
   * Once the high part is known to step to the register shifted by a byte,
   * stepping the XOR of byte and register is stepping only the low byte and
   * XOR-ing in that shift: the identity that lets a 256-entry table replace
   * the bit loop.
   */
  lemma StepsOfLowByte(crc: bv32, w: bv32, n: nat)
    requires BitSteps((crc ^ w) & 0xFFFF_FF00, n) == crc >> 8
    ensures BitSteps(crc ^ w, n) == BitSteps(TableIndex(crc, w), n) ^ (crc >> 8)
  {
    StepsOfSplit(crc, w, n);
  }

  /** For a zero-extended byte, the table lookup computes the eight bit steps. */
  lemma WordIsBitwise(crc: bv32, w: bv32)
    requires w & 0xFFFF_FF00 == 0
    ensures TableEntry(TableIndex(crc, w)) ^ (crc >> 8) == BitwiseWord(crc, w)
  {
    StepsOfHighPart(crc, w, ByteBits);
    StepsOfLowByte(crc, w, ByteBits);
  }

  /** The table-driven byte update agrees with the bitwise one. */
  lemma UpdateIsBitwise(crc: bv32, b: byte)
    ensures Update(crc, b) == BitwiseUpdate(crc, b)
  {
    ZeroExtended(b);
    WordIsBitwise(crc, b as bv32);
  }

  lemma {:induction false} FoldIsBitwise(crc: bv32, buf: seq<byte>)
    ensures Fold(crc, buf) == BitwiseFold(crc, buf)
  {
    if buf != [] {
      FoldIsBitwise(crc, buf[..|buf| - 1]);
      UpdateIsBitwise(Fold(crc, buf[..|buf| - 1]), buf[|buf| - 1]);
    }
  }

  /** The table-driven checksum is the CRC-32 the standard defines. */
  lemma ChecksumIsReference(buf: seq<byte>)
    ensures Checksum(buf) == ReferenceChecksum(buf)
  {
    FoldIsBitwise(Preset, buf);
  }

  // ---- The encoder's table-driven CRC ----

  /** A masked low byte, read as an array index, names the same table slot. */
  lemma IndexInRange(x: bv32)
    requires x & 0xFF == x
    ensures x as int < 256 && (x as int) as bv32 == x
  {
  }

  /** Builds the 256-entry lookup table with the nested loop of crc32. */
  method BuildTable() returns (table: array<bv32>)
    ensures fresh(table)
    ensures table.Length == 256
    ensures forall i :: 0 <= i < 256 ==> table[i] == TableEntry(i as bv32)
  {
    table := new bv32[256];
    for i := 0 to 256
      invariant forall k :: 0 <= k < i ==> table[k] == TableEntry(k as bv32)
    {
      var c: bv32 := i as bv32;
      for j := 0 to ByteBits
        invariant c == BitSteps(i as bv32, j)
      {
        c := BitStep(c);
      }
      table[i] := c;
    }
  }

  /** One iteration of the byte loop: the table entry at the register's low byte XOR `b`, XOR the register shifted right by eight. */
  method Step(table: array<bv32>, crc: bv32, b: byte) returns (next: bv32)
    requires table.Length == 256
    requires forall k :: 0 <= k < 256 ==> table[k] == TableEntry(k as bv32)
    ensures next == Update(crc, b)
  {
    var index := TableIndex(crc, b as bv32);
    IndexInRange(index);
    next := table[index as int] ^ (crc >> 8);
  }

  /** The encoder's CRC routine: builds the table, folds every byte into the register, complements it. */
  method Compute(buf: seq<byte>) returns (crc: bv32)
    ensures crc == Checksum(buf)
  {
    var table := BuildTable();
    crc := Preset;
    for i := 0 to |buf|
      invariant forall k :: 0 <= k < 256 ==> table[k] == TableEntry(k as bv32)
      invariant crc == Fold(Preset, buf[..i])
    {
      FoldSnoc(Preset, buf, i);
      crc := Step(table, crc, buf[i]);
    }
    assert buf[..|buf|] == buf;
    crc := crc ^ Preset;
  }
}
