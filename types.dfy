/** Machine-wide integer types, constants, error values and the
    shift-and-mask field extractors of src/types.cpp. */
module Types {

  /** `uint8_t`: registers, timers, memory cells. */
  type Byte = b: int | 0 <= b < 0x100
  /** `uint16_t`: opcodes, `pc`, `sp`, the index register. */
  type Word = w: int | 0 <= w < 0x1_0000
  /** A 4-bit field: a register number or a sprite height. */
  type Nibble = n: int | 0 <= n < 0x10

  const MEMORY_SIZE: nat := 0x1000
  const MEMORY_MASK: nat := 0xfff
  /** `dirtyMap` has MEMORY_SIZE / 2 entries. */
  const DIRTY_MAP_SIZE: nat := 0x800
  /** A dirty-map entry covers 2^DIRTY_MAP_SHR = 4 bytes of memory. */
  const GRANULE: nat := 4
  const FONT_START: nat := 0
  const ROM_START: nat := 0x200
  /** `sizeof(opcode)`: every instruction is two bytes wide. */
  const INSN_SIZE: nat := 2

  /** The run-time errors the emulator throws; all of them end the run. */
  datatype Fault =
    | OutOfBounds          // `Memory::put/get`, `.at` on a std::array, an overrunning memset
    | InvalidInstruction   // executing or compiling `Invalid`
    | SysExecuted          // executing or compiling `Sys`
    | OddAddress           // misaligned pc, or an odd address given to a JIT section
    | RomTooBig
    | InvalidHexDigit
    | OddHexLength

  datatype Result<T> = Ok(value: T) | Err(fault: Fault)

  datatype Option<T> = None | Some(value: T)

  /** Truncation to `uint8_t`. */
  function Wrap8(n: int): Byte { n % 0x100 }

  /** Truncation to `uint16_t`. */
  function Wrap16(n: int): Word { n % 0x1_0000 }

  /** A sum that fits in 16 bits does not wrap. */
  lemma Wrap16Small(n: int)
    requires 0 <= n < 0x1_0000
    ensures Wrap16(n) == n
  {
  }

  /** Bitwise `&`, `|` and `^` on bytes. */
  function And8(a: Byte, b: Byte): Byte { ((a as bv8) & (b as bv8)) as int }
  function Or8(a: Byte, b: Byte): Byte { ((a as bv8) | (b as bv8)) as int }
  function Xor8(a: Byte, b: Byte): Byte { ((a as bv8) ^ (b as bv8)) as int }

  function Pow2(k: nat): (r: nat)
    ensures r >= 1
  {
    if k == 0 then 1 else 2 * Pow2(k - 1)
  }

  /** 16^k, the divisor that `>> (4 * k)` amounts to. */
  function Pow16(k: nat): (r: nat)
    ensures r >= 1
  {
    if k == 0 then 1 else 16 * Pow16(k - 1)
  }

  /** `getNibble(in, k)`: `(in >> 4k) & 0xf`. A shift by 32 bits or more is
      undefined in C++, hence the bound on `nibbleShift`. */
  function GetNibble(w: Word, nibbleShift: nat): (r: Byte)
    requires nibbleShift < 8
    ensures r < 16
  {
    (w / Pow16(nibbleShift)) % 0x10
  }

  /** `getByte(in, k)`: `(in >> 4k) & 0xff`. */
  function GetByte(w: Word, nibbleShift: nat): (r: Byte)
    requires nibbleShift < 8
  {
    (w / Pow16(nibbleShift)) % 0x100
  }

  /** `getAddress(in, k)`: `(in >> 4k) & 0xfff`. */
  function GetAddress(w: Word, nibbleShift: nat): (r: Word)
    requires nibbleShift < 8
    ensures r < MEMORY_SIZE
  {
    (w / Pow16(nibbleShift)) % 0x1000
  }

  /** An opcode is its top nibble followed by its 12-bit address field, and the
      address field is its second nibble followed by its low byte. */
  lemma SplitOpcode(op: Word)
    ensures GetNibble(op, 3) * 0x1000 + GetAddress(op, 0) == op
    ensures GetNibble(op, 2) * 0x100 + GetByte(op, 0) == GetAddress(op, 0)
    ensures GetNibble(op, 1) * 0x10 + GetNibble(op, 0) == GetByte(op, 0)
  {
    assert Pow16(1) == 0x10;
    assert Pow16(2) == 0x100;
    assert Pow16(3) == 0x1000;
  }

  /** Division by 16, 256 and 4096 of a value written as a quotient and an
      in-range remainder. */
  lemma DivMod16(q: nat, r: nat)
    requires r < 0x10
    ensures (q * 0x10 + r) / 0x10 == q && (q * 0x10 + r) % 0x10 == r
  {
  }

  lemma DivMod256(q: nat, r: nat)
    requires r < 0x100
    ensures (q * 0x100 + r) / 0x100 == q && (q * 0x100 + r) % 0x100 == r
  {
  }

  lemma DivMod4096(q: nat, r: nat)
    requires r < 0x1000
    ensures (q * 0x1000 + r) / 0x1000 == q && (q * 0x1000 + r) % 0x1000 == r
  {
  }

  /** The extractors recover every field of an opcode assembled from four
      nibbles: the decoder's view of an opcode is exact. */
  lemma FieldsOfOpcode(a: nat, b: nat, c: nat, d: nat)
    requires a < 16 && b < 16 && c < 16 && d < 16
    ensures var op := a * 0x1000 + b * 0x100 + c * 0x10 + d;
      && op < 0x1_0000
      && GetNibble(op, 3) == a && GetNibble(op, 2) == b
      && GetNibble(op, 1) == c && GetNibble(op, 0) == d
      && GetByte(op, 0) == c * 0x10 + d
      && GetAddress(op, 0) == b * 0x100 + c * 0x10 + d
  {
    var lo := b * 0x100 + c * 0x10 + d;
    var op := a * 0x1000 + lo;
    assert Pow16(1) == 0x10 && Pow16(2) == 0x100 && Pow16(3) == 0x1000;
    DivMod4096(a, lo);
    DivMod256(a * 0x10 + b, c * 0x10 + d);
    DivMod16(a * 0x100 + b * 0x10 + c, d);
    DivMod16(a, b);
    DivMod16(a * 0x10 + b, c);
    DivMod16(0, a);
    DivMod256(b, c * 0x10 + d);
    DivMod16(b * 0x10 + c, d);
  }
}
