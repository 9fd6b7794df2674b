/** The register file of src/Cpu.h and src/Cpu.cpp. */
module Processor {
  import opened Types

  /** `RegID`: the enumerators V0..VF in declaration order, so that
      `static_cast<size_t>(r)` is the register's index and VF is register 15. */
  type RegId = r: int | 0 <= r < 16

  const V0: RegId := 0
  /** The flags register: carry, not-borrow, shifted-out bit, collision. */
  const VF: RegId := 15

  /** `Cpu`: sixteen 8-bit registers, the 16-bit index register, `pc` and
      `sp`, and the two 8-bit timers. */
  class Cpu {
    const registers: array<Byte>
    var indexRegister: Word
    var pc: Word
    var sp: Word
    var soundTimer: Byte
    var delayTimer: Byte

    ghost predicate Valid()
    {
      registers.Length == 16
    }

    /** A fresh `Cpu`: every register, `I`, `pc`, `sp` and both timers are 0. */
    constructor ()
      ensures Valid() && fresh(registers)
      ensures registers[..] == seq(16, _ => 0)
      ensures indexRegister == 0 && pc == 0 && sp == 0
      ensures soundTimer == 0 && delayTimer == 0
    {
      registers := new Byte[16](_ => 0);
      indexRegister, pc, sp := 0, 0, 0;
      soundTimer, delayTimer := 0, 0;
    }

    /** Reading through the reference `getRegister(r)` hands out. */
    function GetRegister(r: RegId): (v: Byte)
      requires Valid()
      reads registers
    {
      registers[r]
    }

    /** Assigning through `getRegister(r)`: register `r` changes and nothing
        else does; `I`, `pc`, `sp` and the timers are outside the frame. */
    method SetRegister(r: RegId, v: Byte)
      requires Valid()
      modifies registers
      ensures registers[..] == old(registers[..])[r := v]
    {
      registers[r] := v;
    }

    /** `getRandom`: `std::rand() & 0xff`. The draw (non-negative, as
        `std::rand` returns) is passed in since the generator is not
        modelled; masking a non-negative value with 0xff keeps its low byte. */
    static function GetRandom(draw: nat): (r: Byte)
      ensures draw < 0x100 ==> r == draw
      ensures (draw - r) % 0x100 == 0
    {
      draw % 0x100
    }
  }
}
