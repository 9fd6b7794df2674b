/** The `execute` bodies of src/Instructions.cpp as methods over the `Cpu`,
    `Memory` and `IO` objects, each proved to compute `Semantics.Exec`, and
    the true/false outcome of every `compile`. */
module Instructions {
  import opened Types
  import opened Mem
  import opened Processor
  import opened Decoder
  import opened InputOutput
  import opened Semantics
  import opened JitSections

  /** The three objects `execute` receives, with their arrays distinct. */
  ghost predicate Ready(cpu: Cpu, memory: Memory, io: Io)
  {
    && cpu.Valid() && memory.Valid() && io.Valid()
    && cpu.registers != memory.buf && cpu.registers != memory.dirtyMap
    && memory.buf != memory.dirtyMap && io.keys != io.bitmap
  }

  /** The objects seen as one machine state. */
  function Snapshot(cpu: Cpu, memory: Memory, io: Io): (m: Machine)
    reads cpu, cpu.registers, memory.buf, memory.dirtyMap, io, io.keys, io.bitmap
  {
    Machine(cpu.registers[..], cpu.indexRegister, cpu.pc, cpu.sp, cpu.soundTimer, cpu.delayTimer,
            memory.buf[..], memory.dirtyMap[..], io.keys[..], io.bitmap[..], io.exitFlag, io.sdlDisabled)
  }

  lemma SnapshotWellFormed(cpu: Cpu, memory: Memory, io: Io)
    requires Ready(cpu, memory, io)
    ensures WellFormed(Snapshot(cpu, memory, io))
  {
  }

  /** An `execute` outcome agrees with the specification: it throws iff
      `Exec` fails, and otherwise leaves the objects in `Exec`'s state. */
  ghost predicate Agrees(r: Result<()>, expected: Result<Machine>, now: Machine)
  {
    (r.Ok? <==> expected.Ok?) && (r.Ok? ==> now == expected.value)
  }

  /** The forms that touch only control flow and the keypad or screen. */
  predicate IsControl(i: Instruction)
  {
    i.Invalid? || i.Sys? || i.Cls? || i.Ret? || i.JpImm? || i.Call? || i.JpV0Imm?
    || i.SeRegImm? || i.SneRegImm? || i.SeRegReg? || i.SneRegReg?
    || i.SkpReg? || i.SknpReg? || i.LdRegK?
  }

  /** The forms that set VF from their operands. */
  predicate SetsFlag(i: Instruction)
  {
    i.AddRegReg? || i.SubRegReg? || i.ShrReg? || i.SubnRegReg? || i.ShlReg?
  }

  /** The forms whose `execute` is a loop over memory or the bitmap. */
  predicate IsLoop(i: Instruction)
  {
    i.Drw? || i.LdBReg? || i.LdIRegs? || i.LdRegsI?
  }

  /** `insn->execute(cpu, memory, io)`; `draw` is what `std::rand` would
      return to `getRandom`. */
  method Execute(i: Instruction, cpu: Cpu, memory: Memory, io: Io, draw: nat) returns (r: Result<()>)
    requires Ready(cpu, memory, io)
    modifies cpu, cpu.registers, memory.buf, memory.dirtyMap, io.keys, io.bitmap
    ensures WellFormed(old(Snapshot(cpu, memory, io)))
    ensures Agrees(r, Exec(i, old(Snapshot(cpu, memory, io)), Cpu.GetRandom(draw)), Snapshot(cpu, memory, io))
  {
    if IsControl(i) {
      r := ExecuteControl(i, cpu, memory, io, Cpu.GetRandom(draw));
    } else if IsLoop(i) {
      match i
      case Drw(x, y, n) => r := ExecuteDrw(x, y, n, cpu, memory, io);
      case LdBReg(x) => r := ExecuteLdBReg(x, cpu, memory, io);
      case LdIRegs(x) => r := ExecuteLdIRegs(x, cpu, memory, io);
      case LdRegsI(x) => r := ExecuteLdRegsI(x, cpu, memory, io);
    } else if SetsFlag(i) {
      ExecuteArith(i, cpu, memory, io, Cpu.GetRandom(draw));
      r := Ok(());
    } else {
      ExecuteRegisters(i, cpu, memory, io, Cpu.GetRandom(draw));
      r := Ok(());
    }
  }

  /** Jumps, calls, returns, skips, `Cls` and the key wait. */
  method ExecuteControl(i: Instruction, cpu: Cpu, memory: Memory, io: Io, rnd: Byte) returns (r: Result<()>)
    requires Ready(cpu, memory, io) && IsControl(i)
    modifies cpu, cpu.registers, memory.buf, io.keys, io.bitmap
    ensures WellFormed(old(Snapshot(cpu, memory, io)))
    ensures Agrees(r, Exec(i, old(Snapshot(cpu, memory, io)), rnd), Snapshot(cpu, memory, io))
  {
    r := Ok(());
    match i
    case Invalid(_) =>
      r := Err(InvalidInstruction);
    case Sys(_) =>
      r := Err(SysExecuted);
    case Cls =>
      io.Clear();
    case Ret | JpImm(_) | Call(_) | JpV0Imm(_) =>
      r := ExecuteFlow(i, cpu, memory, io, rnd);
    case SeRegImm(_, _) | SneRegImm(_, _) | SeRegReg(_, _) | SneRegReg(_, _) | SkpReg(_) | SknpReg(_) =>
      ExecuteSkip(i, cpu, memory, io, rnd);
    case LdRegK(x) =>
      var key := io.GetPressedKey();
      if key.Some? {
        cpu.SetRegister(x, key.value);
      } else {
        cpu.pc := Wrap16(cpu.pc - INSN_SIZE);
      }
  }

  /** Jumps, calls and returns: `pc`, `sp` and the stack in memory. */
  method ExecuteFlow(i: Instruction, cpu: Cpu, memory: Memory, io: Io, rnd: Byte) returns (r: Result<()>)
    requires Ready(cpu, memory, io) && (i.Ret? || i.JpImm? || i.Call? || i.JpV0Imm?)
    modifies cpu, memory.buf
    ensures WellFormed(old(Snapshot(cpu, memory, io)))
    ensures Agrees(r, Exec(i, old(Snapshot(cpu, memory, io)), rnd), Snapshot(cpu, memory, io))
  {
    r := Ok(());
    match i
    case Ret =>
      var top := memory.Get16(cpu.sp);
      if top.Err? {
        return Err(top.fault);
      }
      cpu.pc := top.value;
      cpu.sp := Wrap16(cpu.sp - INSN_SIZE);
    case JpImm(target) =>
      cpu.pc := target;
    case Call(target) =>
      cpu.sp := Wrap16(cpu.sp + INSN_SIZE);
      var ok := memory.Put16(cpu.sp, cpu.pc);
      if !ok {
        return Err(OutOfBounds);
      }
      cpu.pc := target;
    case JpV0Imm(target) =>
      cpu.pc := Wrap16(target + cpu.GetRegister(V0)) % MEMORY_SIZE;
  }

  /** The skip forms: `pc += 2` when the condition holds. */
  method ExecuteSkip(i: Instruction, cpu: Cpu, memory: Memory, io: Io, rnd: Byte)
    requires Ready(cpu, memory, io) && IsSkip(i)
    modifies cpu
    ensures WellFormed(old(Snapshot(cpu, memory, io)))
    ensures Agrees(Ok(()), Exec(i, old(Snapshot(cpu, memory, io)), rnd), Snapshot(cpu, memory, io))
  {
    match i
    case SeRegImm(x, kk) => ExecuteSeRegImm(x, kk, cpu, memory, io, rnd);
    case SneRegImm(x, kk) => ExecuteSneRegImm(x, kk, cpu, memory, io, rnd);
    case SeRegReg(x, y) => ExecuteSeRegReg(x, y, cpu, memory, io, rnd);
    case SneRegReg(x, y) => ExecuteSneRegReg(x, y, cpu, memory, io, rnd);
    case SkpReg(x) => ExecuteSkpReg(x, cpu, memory, io, rnd);
    case SknpReg(x) => ExecuteSknpReg(x, cpu, memory, io, rnd);
  }

  /** `Se_reg_imm`: skip when Vx equals the byte. */
  method ExecuteSeRegImm(x: RegId, kk: Byte, cpu: Cpu, memory: Memory, io: Io, rnd: Byte)
    requires Ready(cpu, memory, io)
    modifies cpu
    ensures WellFormed(old(Snapshot(cpu, memory, io)))
    ensures Agrees(Ok(()), Exec(SeRegImm(x, kk), old(Snapshot(cpu, memory, io)), rnd), Snapshot(cpu, memory, io))
  {
    if cpu.GetRegister(x) == kk {
      cpu.pc := Wrap16(cpu.pc + INSN_SIZE);
    }
  }

  /** `Sne_reg_imm`: skip when Vx differs from the byte. */
  method ExecuteSneRegImm(x: RegId, kk: Byte, cpu: Cpu, memory: Memory, io: Io, rnd: Byte)
    requires Ready(cpu, memory, io)
    modifies cpu
    ensures WellFormed(old(Snapshot(cpu, memory, io)))
    ensures Agrees(Ok(()), Exec(SneRegImm(x, kk), old(Snapshot(cpu, memory, io)), rnd), Snapshot(cpu, memory, io))
  {
    if cpu.GetRegister(x) != kk {
      cpu.pc := Wrap16(cpu.pc + INSN_SIZE);
    }
  }

  /** `Se_reg_reg`: skip when Vx equals Vy. */
  method ExecuteSeRegReg(x: RegId, y: RegId, cpu: Cpu, memory: Memory, io: Io, rnd: Byte)
    requires Ready(cpu, memory, io)
    modifies cpu
    ensures WellFormed(old(Snapshot(cpu, memory, io)))
    ensures Agrees(Ok(()), Exec(SeRegReg(x, y), old(Snapshot(cpu, memory, io)), rnd), Snapshot(cpu, memory, io))
  {
    if cpu.GetRegister(x) == cpu.GetRegister(y) {
      cpu.pc := Wrap16(cpu.pc + INSN_SIZE);
    }
  }

  /** `Sne_reg_reg`: skip when Vx differs from Vy. */
  method ExecuteSneRegReg(x: RegId, y: RegId, cpu: Cpu, memory: Memory, io: Io, rnd: Byte)
    requires Ready(cpu, memory, io)
    modifies cpu
    ensures WellFormed(old(Snapshot(cpu, memory, io)))
    ensures Agrees(Ok(()), Exec(SneRegReg(x, y), old(Snapshot(cpu, memory, io)), rnd), Snapshot(cpu, memory, io))
  {
    if cpu.GetRegister(x) != cpu.GetRegister(y) {
      cpu.pc := Wrap16(cpu.pc + INSN_SIZE);
    }
  }

  /** `Skp_reg`: skip when the key in Vx is down. */
  method ExecuteSkpReg(x: RegId, cpu: Cpu, memory: Memory, io: Io, rnd: Byte)
    requires Ready(cpu, memory, io)
    modifies cpu
    ensures WellFormed(old(Snapshot(cpu, memory, io)))
    ensures Agrees(Ok(()), Exec(SkpReg(x), old(Snapshot(cpu, memory, io)), rnd), Snapshot(cpu, memory, io))
  {
    if io.IsPressed(cpu.GetRegister(x)) {
      cpu.pc := Wrap16(cpu.pc + INSN_SIZE);
    }
  }

  /** `Sknp_reg`: skip when the key in Vx is up. */
  method ExecuteSknpReg(x: RegId, cpu: Cpu, memory: Memory, io: Io, rnd: Byte)
    requires Ready(cpu, memory, io)
    modifies cpu
    ensures WellFormed(old(Snapshot(cpu, memory, io)))
    ensures Agrees(Ok(()), Exec(SknpReg(x), old(Snapshot(cpu, memory, io)), rnd), Snapshot(cpu, memory, io))
  {
    if !io.IsPressed(cpu.GetRegister(x)) {
      cpu.pc := Wrap16(cpu.pc + INSN_SIZE);
    }
  }

  /** The register, timer and index forms without flags: straight-line
      updates of the `Cpu` alone. */
  method ExecuteRegisters(i: Instruction, cpu: Cpu, memory: Memory, io: Io, rnd: Byte)
    requires Ready(cpu, memory, io) && !IsControl(i) && !IsLoop(i) && !SetsFlag(i)
    modifies cpu, cpu.registers
    ensures WellFormed(old(Snapshot(cpu, memory, io)))
    ensures Agrees(Ok(()), Exec(i, old(Snapshot(cpu, memory, io)), rnd), Snapshot(cpu, memory, io))
  {
    match i
    case LdRegImm(x, kk) => ExecuteLdRegImm(x, kk, cpu, memory, io, rnd);
    case AddRegImm(x, kk) => ExecuteAddRegImm(x, kk, cpu, memory, io, rnd);
    case LdRegReg(x, y) => ExecuteLdRegReg(x, y, cpu, memory, io, rnd);
    case OrRegReg(x, y) => ExecuteOrRegReg(x, y, cpu, memory, io, rnd);
    case AndRegReg(x, y) => ExecuteAndRegReg(x, y, cpu, memory, io, rnd);
    case XorRegReg(x, y) => ExecuteXorRegReg(x, y, cpu, memory, io, rnd);
    case LdIImm(a) => ExecuteLdIImm(a, cpu, memory, io, rnd);
    case RndRegImm(x, kk) => ExecuteRndRegImm(x, kk, cpu, memory, io, rnd);
    case LdRegDt(x) => ExecuteLdRegDt(x, cpu, memory, io, rnd);
    case LdDtReg(x) => ExecuteLdDtReg(x, cpu, memory, io, rnd);
    case LdStReg(x) => ExecuteLdStReg(x, cpu, memory, io, rnd);
    case AddIReg(x) => ExecuteAddIReg(x, cpu, memory, io, rnd);
    case LdFReg(x) => ExecuteLdFReg(x, cpu, memory, io, rnd);
  }

  /** `Ld_reg_imm`: Vx = kk. */
  method ExecuteLdRegImm(x: RegId, kk: Byte, cpu: Cpu, memory: Memory, io: Io, rnd: Byte)
    requires Ready(cpu, memory, io)
    modifies cpu.registers
    ensures WellFormed(old(Snapshot(cpu, memory, io)))
    ensures Agrees(Ok(()), Exec(LdRegImm(x, kk), old(Snapshot(cpu, memory, io)), rnd), Snapshot(cpu, memory, io))
  {
    cpu.SetRegister(x, kk);
  }

  /** `Add_reg_imm`: Vx += kk modulo 256, VF untouched. */
  method ExecuteAddRegImm(x: RegId, kk: Byte, cpu: Cpu, memory: Memory, io: Io, rnd: Byte)
    requires Ready(cpu, memory, io)
    modifies cpu.registers
    ensures WellFormed(old(Snapshot(cpu, memory, io)))
    ensures Agrees(Ok(()), Exec(AddRegImm(x, kk), old(Snapshot(cpu, memory, io)), rnd), Snapshot(cpu, memory, io))
  {
    cpu.SetRegister(x, Wrap8(cpu.GetRegister(x) + kk));
  }

  /** `Ld_reg_reg`: Vx = Vy. */
  method ExecuteLdRegReg(x: RegId, y: RegId, cpu: Cpu, memory: Memory, io: Io, rnd: Byte)
    requires Ready(cpu, memory, io)
    modifies cpu.registers
    ensures WellFormed(old(Snapshot(cpu, memory, io)))
    ensures Agrees(Ok(()), Exec(LdRegReg(x, y), old(Snapshot(cpu, memory, io)), rnd), Snapshot(cpu, memory, io))
  {
    cpu.SetRegister(x, cpu.GetRegister(y));
  }

  /** `Or_reg_reg`: Vx |= Vy. */
  method ExecuteOrRegReg(x: RegId, y: RegId, cpu: Cpu, memory: Memory, io: Io, rnd: Byte)
    requires Ready(cpu, memory, io)
    modifies cpu.registers
    ensures WellFormed(old(Snapshot(cpu, memory, io)))
    ensures Agrees(Ok(()), Exec(OrRegReg(x, y), old(Snapshot(cpu, memory, io)), rnd), Snapshot(cpu, memory, io))
  {
    cpu.SetRegister(x, Or8(cpu.GetRegister(x), cpu.GetRegister(y)));
  }

  /** `And_reg_reg`: Vx &= Vy. */
  method ExecuteAndRegReg(x: RegId, y: RegId, cpu: Cpu, memory: Memory, io: Io, rnd: Byte)
    requires Ready(cpu, memory, io)
    modifies cpu.registers
    ensures WellFormed(old(Snapshot(cpu, memory, io)))
    ensures Agrees(Ok(()), Exec(AndRegReg(x, y), old(Snapshot(cpu, memory, io)), rnd), Snapshot(cpu, memory, io))
  {
    cpu.SetRegister(x, And8(cpu.GetRegister(x), cpu.GetRegister(y)));
  }

  /** `Xor_reg_reg`: Vx ^= Vy. */
  method ExecuteXorRegReg(x: RegId, y: RegId, cpu: Cpu, memory: Memory, io: Io, rnd: Byte)
    requires Ready(cpu, memory, io)
    modifies cpu.registers
    ensures WellFormed(old(Snapshot(cpu, memory, io)))
    ensures Agrees(Ok(()), Exec(XorRegReg(x, y), old(Snapshot(cpu, memory, io)), rnd), Snapshot(cpu, memory, io))
  {
    cpu.SetRegister(x, Xor8(cpu.GetRegister(x), cpu.GetRegister(y)));
  }

  /** `Ld_I_imm`: I = nnn. */
  method ExecuteLdIImm(a: Word, cpu: Cpu, memory: Memory, io: Io, rnd: Byte)
    requires Ready(cpu, memory, io)
    modifies cpu
    ensures WellFormed(old(Snapshot(cpu, memory, io)))
    ensures Agrees(Ok(()), Exec(LdIImm(a), old(Snapshot(cpu, memory, io)), rnd), Snapshot(cpu, memory, io))
  {
    cpu.indexRegister := a;
  }

  /** `Rnd_reg_imm`: Vx = getRandom() & kk. */
  method ExecuteRndRegImm(x: RegId, kk: Byte, cpu: Cpu, memory: Memory, io: Io, rnd: Byte)
    requires Ready(cpu, memory, io)
    modifies cpu.registers
    ensures WellFormed(old(Snapshot(cpu, memory, io)))
    ensures Agrees(Ok(()), Exec(RndRegImm(x, kk), old(Snapshot(cpu, memory, io)), rnd), Snapshot(cpu, memory, io))
  {
    cpu.SetRegister(x, And8(rnd, kk));
  }

  /** `Ld_reg_dt`: Vx = DT. */
  method ExecuteLdRegDt(x: RegId, cpu: Cpu, memory: Memory, io: Io, rnd: Byte)
    requires Ready(cpu, memory, io)
    modifies cpu.registers
    ensures WellFormed(old(Snapshot(cpu, memory, io)))
    ensures Agrees(Ok(()), Exec(LdRegDt(x), old(Snapshot(cpu, memory, io)), rnd), Snapshot(cpu, memory, io))
  {
    cpu.SetRegister(x, cpu.delayTimer);
  }

  /** `Ld_dt_reg`: DT = Vx. */
  method ExecuteLdDtReg(x: RegId, cpu: Cpu, memory: Memory, io: Io, rnd: Byte)
    requires Ready(cpu, memory, io)
    modifies cpu
    ensures WellFormed(old(Snapshot(cpu, memory, io)))
    ensures Agrees(Ok(()), Exec(LdDtReg(x), old(Snapshot(cpu, memory, io)), rnd), Snapshot(cpu, memory, io))
  {
    cpu.delayTimer := cpu.GetRegister(x);
  }

  /** `Ld_st_reg`: ST = Vx. */
  method ExecuteLdStReg(x: RegId, cpu: Cpu, memory: Memory, io: Io, rnd: Byte)
    requires Ready(cpu, memory, io)
    modifies cpu
    ensures WellFormed(old(Snapshot(cpu, memory, io)))
    ensures Agrees(Ok(()), Exec(LdStReg(x), old(Snapshot(cpu, memory, io)), rnd), Snapshot(cpu, memory, io))
  {
    cpu.soundTimer := cpu.GetRegister(x);
  }

  /** `Add_I_reg`: I += Vx modulo 2^16, VF untouched. */
  method ExecuteAddIReg(x: RegId, cpu: Cpu, memory: Memory, io: Io, rnd: Byte)
    requires Ready(cpu, memory, io)
    modifies cpu
    ensures WellFormed(old(Snapshot(cpu, memory, io)))
    ensures Agrees(Ok(()), Exec(AddIReg(x), old(Snapshot(cpu, memory, io)), rnd), Snapshot(cpu, memory, io))
  {
    cpu.indexRegister := Wrap16(cpu.indexRegister + cpu.GetRegister(x));
  }

  /** `Ld_F_reg`: I = Vx * 5, the font glyph of the digit. */
  method ExecuteLdFReg(x: RegId, cpu: Cpu, memory: Memory, io: Io, rnd: Byte)
    requires Ready(cpu, memory, io)
    modifies cpu
    ensures WellFormed(old(Snapshot(cpu, memory, io)))
    ensures Agrees(Ok(()), Exec(LdFReg(x), old(Snapshot(cpu, memory, io)), rnd), Snapshot(cpu, memory, io))
  {
    cpu.indexRegister := cpu.GetRegister(x) as int * 5;
  }

  /** The flag-setting forms: VF is written first, and the operands are then
      read again through `getRegister`, as the source's references are. */
  method ExecuteArith(i: Instruction, cpu: Cpu, memory: Memory, io: Io, rnd: Byte)
    requires Ready(cpu, memory, io) && SetsFlag(i)
    modifies cpu.registers
    ensures WellFormed(old(Snapshot(cpu, memory, io)))
    ensures Agrees(Ok(()), Exec(i, old(Snapshot(cpu, memory, io)), rnd), Snapshot(cpu, memory, io))
  {
    match i
    case AddRegReg(x, y) => ExecuteAddRegReg(x, y, cpu, memory, io, rnd);
    case SubRegReg(x, y) => ExecuteSubRegReg(x, y, cpu, memory, io, rnd);
    case ShrReg(x) => ExecuteShrReg(x, cpu, memory, io, rnd);
    case SubnRegReg(x, y) => ExecuteSubnRegReg(x, y, cpu, memory, io, rnd);
    case ShlReg(x) => ExecuteShlReg(x, cpu, memory, io, rnd);
  }

  /** `Add_reg_reg`: VF = carry, then Vx += Vy reading VF afresh. */
  method ExecuteAddRegReg(x: RegId, y: RegId, cpu: Cpu, memory: Memory, io: Io, rnd: Byte)
    requires Ready(cpu, memory, io)
    modifies cpu.registers
    ensures WellFormed(old(Snapshot(cpu, memory, io)))
    ensures Agrees(Ok(()), Exec(AddRegReg(x, y), old(Snapshot(cpu, memory, io)), rnd), Snapshot(cpu, memory, io))
  {
    ghost var m := Snapshot(cpu, memory, io);
    cpu.SetRegister(VF, if cpu.GetRegister(x) as int + cpu.GetRegister(y) as int > 0xFF then 1 else 0);
    cpu.SetRegister(x, Wrap8(cpu.GetRegister(x) + cpu.GetRegister(y)));
    assert cpu.registers[..] == AddWithCarry(m.regs, x, y);
  }

  /** `Sub_reg_reg`: VF = Vx > Vy, then Vx -= Vy modulo 256. */
  method ExecuteSubRegReg(x: RegId, y: RegId, cpu: Cpu, memory: Memory, io: Io, rnd: Byte)
    requires Ready(cpu, memory, io)
    modifies cpu.registers
    ensures WellFormed(old(Snapshot(cpu, memory, io)))
    ensures Agrees(Ok(()), Exec(SubRegReg(x, y), old(Snapshot(cpu, memory, io)), rnd), Snapshot(cpu, memory, io))
  {
    ghost var m := Snapshot(cpu, memory, io);
    cpu.SetRegister(VF, if cpu.GetRegister(x) > cpu.GetRegister(y) then 1 else 0);
    cpu.SetRegister(x, Wrap8(cpu.GetRegister(x) - cpu.GetRegister(y)));
    assert cpu.registers[..] == SubWithBorrow(m.regs, x, y);
  }

  /** `Shr_reg`: VF = low bit, then Vx >>= 1. */
  method ExecuteShrReg(x: RegId, cpu: Cpu, memory: Memory, io: Io, rnd: Byte)
    requires Ready(cpu, memory, io)
    modifies cpu.registers
    ensures WellFormed(old(Snapshot(cpu, memory, io)))
    ensures Agrees(Ok(()), Exec(ShrReg(x), old(Snapshot(cpu, memory, io)), rnd), Snapshot(cpu, memory, io))
  {
    ghost var m := Snapshot(cpu, memory, io);
    cpu.SetRegister(VF, cpu.GetRegister(x) % 2);
    cpu.SetRegister(x, cpu.GetRegister(x) / 2);
    assert cpu.registers[..] == ShiftRight(m.regs, x);
  }

  /** `Subn_reg_reg`: VF = Vy > Vx, then Vx = Vy - Vx modulo 256. */
  method ExecuteSubnRegReg(x: RegId, y: RegId, cpu: Cpu, memory: Memory, io: Io, rnd: Byte)
    requires Ready(cpu, memory, io)
    modifies cpu.registers
    ensures WellFormed(old(Snapshot(cpu, memory, io)))
    ensures Agrees(Ok(()), Exec(SubnRegReg(x, y), old(Snapshot(cpu, memory, io)), rnd), Snapshot(cpu, memory, io))
  {
    ghost var m := Snapshot(cpu, memory, io);
    cpu.SetRegister(VF, if cpu.GetRegister(y) > cpu.GetRegister(x) then 1 else 0);
    cpu.SetRegister(x, Wrap8(cpu.GetRegister(y) - cpu.GetRegister(x)));
    assert cpu.registers[..] == SubnWithBorrow(m.regs, x, y);
  }

  /** `Shl_reg`: VF = the top bit as 0x80 or 0, then Vx <<= 1. */
  method ExecuteShlReg(x: RegId, cpu: Cpu, memory: Memory, io: Io, rnd: Byte)
    requires Ready(cpu, memory, io)
    modifies cpu.registers
    ensures WellFormed(old(Snapshot(cpu, memory, io)))
    ensures Agrees(Ok(()), Exec(ShlReg(x), old(Snapshot(cpu, memory, io)), rnd), Snapshot(cpu, memory, io))
  {
    ghost var m := Snapshot(cpu, memory, io);
    cpu.SetRegister(VF, if cpu.GetRegister(x) >= 0x80 then 0x80 else 0);
    cpu.SetRegister(x, Wrap8(cpu.GetRegister(x) * 2));
    assert cpu.registers[..] == ShiftLeft(m.regs, x);
  }

  // ---------------------------------------------------------------------
  // The loops.

  /** `Ld_B_reg`: ones, tens and hundreds are stored at `I+2`, `I+1`, `I`
      in that order, each followed by marking granule `(I+i) >> 2`. */
  method ExecuteLdBReg(x: RegId, cpu: Cpu, memory: Memory, io: Io) returns (r: Result<()>)
    requires Ready(cpu, memory, io)
    modifies memory.buf, memory.dirtyMap
    ensures WellFormed(old(Snapshot(cpu, memory, io)))
    ensures Agrees(r, ExecLdBReg(old(Snapshot(cpu, memory, io)), x), Snapshot(cpu, memory, io))
  {
    var val := cpu.GetRegister(x);
    var ok := StoreDigits(val, cpu.indexRegister, memory);
    if !ok {
      return Err(OutOfBounds);
    }
    return Ok(());
  }

  /** The loop of `Ld_B_reg`: ones, tens, hundreds of `v0` written at
      `I+2`, `I+1`, `I`, one byte and one granule mark per turn; it stops
      at the first address outside memory. */
  method StoreDigits(v0: Byte, I: Word, memory: Memory) returns (ok: bool)
    requires memory.Valid() && memory.buf != memory.dirtyMap
    modifies memory.buf, memory.dirtyMap
    ensures ok <==> I + 3 <= MEMORY_SIZE
    ensures ok ==> memory.buf[..] == old(memory.buf[..])[I := v0 / 100][I + 1 := v0 / 10 % 10][I + 2 := v0 % 10]
    ensures ok ==> memory.dirtyMap[..] == MarkDirty(old(memory.dirtyMap[..]), I, 3)
  {
    var val := v0;
    for i := 0 to 3
      invariant I + 3 > MEMORY_SIZE ==> i == 0
      invariant val == if i == 0 then v0 else if i == 1 then v0 / 10 else if i == 2 then v0 / 100 else 0
      invariant forall a :: 0 <= a < MEMORY_SIZE ==>
        memory.buf[a] == (if i >= 1 && a == I + 2 then v0 % 10
          else if i >= 2 && a == I + 1 then v0 / 10 % 10
          else if i >= 3 && a == I then v0 / 100
          else old(memory.buf[a]))
      invariant memory.dirtyMap[..] == MarkDirty(old(memory.dirtyMap[..]), I, i)
    {
      ok := memory.Put8(Wrap16(I + (2 - i)), val % 10);
      if !ok {
        return;
      }
      val := val / 10;
      var g := (I + i) / GRANULE;
      if g >= memory.dirtyMap.Length {
        return false;
      }
      MarkDirtyStep(old(memory.dirtyMap[..]), I, i);
      memory.dirtyMap[g] := 1;
    }
    assert memory.buf[..] == old(memory.buf[..])[I := v0 / 100][I + 1 := v0 / 10 % 10][I + 2 := v0 % 10];
    return true;
  }

  /** `Ld_I_regs`: V0..Vx stored from `I` up, each byte's granule marked,
      then `I += x + 1`. */
  method ExecuteLdIRegs(x: RegId, cpu: Cpu, memory: Memory, io: Io) returns (r: Result<()>)
    requires Ready(cpu, memory, io)
    modifies cpu, memory.buf, memory.dirtyMap
    ensures WellFormed(old(Snapshot(cpu, memory, io)))
    ensures Agrees(r, ExecLdIRegs(old(Snapshot(cpu, memory, io)), x), Snapshot(cpu, memory, io))
  {
    var ok := StoreRegisters(cpu, memory, x + 1);
    if !ok {
      return Err(OutOfBounds);
    }
    cpu.indexRegister := Wrap16(cpu.indexRegister + x + 1);
    return Ok(());
  }

  /** The loop of `Ld_I_regs`: the first `count` registers written from
      `I` up, one byte and one granule mark per turn; it stops at the first
      address outside memory. */
  method StoreRegisters(cpu: Cpu, memory: Memory, count: nat) returns (ok: bool)
    requires cpu.Valid() && memory.Valid() && 1 <= count <= 16
    requires cpu.registers != memory.buf && cpu.registers != memory.dirtyMap && memory.buf != memory.dirtyMap
    modifies memory.buf, memory.dirtyMap
    ensures ok <==> cpu.indexRegister + count <= MEMORY_SIZE
    ensures ok ==> memory.buf[..] == StoreRegs(old(memory.buf[..]), cpu.indexRegister, cpu.registers[..], count)
    ensures ok ==> memory.dirtyMap[..] == MarkDirty(old(memory.dirtyMap[..]), cpu.indexRegister, count)
  {
    var I := cpu.indexRegister;
    for i := 0 to count
      invariant i > 0 ==> I + i <= MEMORY_SIZE
      invariant memory.buf[..] == StoreRegs(old(memory.buf[..]), I, cpu.registers[..], i)
      invariant memory.dirtyMap[..] == MarkDirty(old(memory.dirtyMap[..]), I, i)
    {
      ok := memory.Put8(Wrap16(I + i), cpu.GetRegister(i));
      if !ok {
        return;
      }
      var g := (I + i) / GRANULE;
      if g >= memory.dirtyMap.Length {
        return false;
      }
      MarkDirtyStep(old(memory.dirtyMap[..]), I, i);
      memory.dirtyMap[g] := 1;
      StoreRegsStep(old(memory.buf[..]), I, cpu.registers[..], i);
    }
    return true;
  }

  /** `Ld_regs_I`: V0..Vx loaded from `I` up, then `I += x + 1`. */
  method ExecuteLdRegsI(x: RegId, cpu: Cpu, memory: Memory, io: Io) returns (r: Result<()>)
    requires Ready(cpu, memory, io)
    modifies cpu, cpu.registers
    ensures WellFormed(old(Snapshot(cpu, memory, io)))
    ensures Agrees(r, ExecLdRegsI(old(Snapshot(cpu, memory, io)), x), Snapshot(cpu, memory, io))
  {
    ghost var I := cpu.indexRegister;
    for i := 0 to x + 1
      invariant unchanged(cpu)
      invariant i > 0 ==> I + i <= MEMORY_SIZE
      invariant cpu.registers[..] == LoadRegs(old(cpu.registers[..]), memory.buf[..], I, i)
    {
      var b := memory.Get8(Wrap16(cpu.indexRegister + i));
      if b.Err? {
        return Err(b.fault);
      }
      cpu.SetRegister(i, b.value);
    }
    cpu.indexRegister := Wrap16(cpu.indexRegister + x + 1);
    return Ok(());
  }

  /** `Covers` restricted to the first `bits` sprite bits in drawing order:
      row by row, most significant bit first. */
  predicate CoversBefore(rows: seq<Byte>, sx: Byte, sy: Byte, p: nat, bits: nat)
  {
    var dx := (p % PIXEL_WIDTH - sx) % PIXEL_WIDTH;
    var dy := (p / PIXEL_WIDTH - sy) % PIXEL_HEIGHT;
    dx < 8 && dy < |rows| && dy * 8 + dx < bits && SpriteBit(rows[dy], dx)
  }

  /** Some lit pixel of `bitmap` lies under one of the first `bits` bits. */
  ghost predicate HitBefore(bitmap: seq<bool>, rows: seq<Byte>, sx: Byte, sy: Byte, bits: nat)
    requires |bitmap| == NUM_PIXELS
  {
    exists p :: 0 <= p < NUM_PIXELS && bitmap[p] && CoversBefore(rows, sx, sy, p, bits)
  }

  /** Drawing bit `xo` of row `yo` reaches exactly the pixel
      `SpritePixel(sx, sy, xo, yo)`, which no earlier bit reached. */
  lemma {:induction false} CoversStep(rows: seq<Byte>, sx: Byte, sy: Byte, xo: nat, yo: nat, p: nat)
    requires xo < 8 && yo < |rows| <= 16 && p < NUM_PIXELS
    ensures var q := SpritePixel(sx, sy, xo, yo);
      && !CoversBefore(rows, sx, sy, q, yo * 8 + xo)
      && (CoversBefore(rows, sx, sy, p, yo * 8 + xo + 1)
          <==> CoversBefore(rows, sx, sy, p, yo * 8 + xo) || (p == q && SpriteBit(rows[yo], xo)))
  {
    OffsetsOfPixel(sx, sy, xo, yo);
    PixelOfOffsets(sx, sy, p);
  }

  /** Bits already drawn do not depend on rows not yet read. */
  lemma CoversBeforeExtend(rows: seq<Byte>, row: Byte, sx: Byte, sy: Byte, p: nat)
    ensures CoversBefore(rows + [row], sx, sy, p, |rows| * 8) == CoversBefore(rows, sx, sy, p, |rows| * 8)
  {
  }

  /** Once every bit is drawn, `CoversBefore` is `Covers`. */
  lemma CoversBeforeAll(rows: seq<Byte>, sx: Byte, sy: Byte, p: nat)
    ensures CoversBefore(rows, sx, sy, p, |rows| * 8) == Covers(rows, sx, sy, p)
  {
  }

  /** The most significant bit of a row shifted left `k` times (within a
      byte) is bit `k` of the row counted from the most significant, and
      one more shift is one more doubling. */
  lemma {:induction false} ShiftedTopBit(row: Byte, k: nat)
    requires k < 8
    ensures ((row * Pow2(k)) % 0x100 >= 0x80) == SpriteBit(row, k)
    ensures Wrap8(((row * Pow2(k)) % 0x100) * 2) == (row * Pow2(k + 1)) % 0x100
  {
    var p, d := Pow2(k), Pow2(7 - k);
    Pow2Add(k, 7 - k);
    Pow2Seven();
    SplitProduct(row, p, d);
    Pow2Double(row, k);
    DoubleMod(row * p);
  }

  lemma Pow2Seven()
    ensures Pow2(7) == 0x80
  {
    assert Pow2(1) == 2 && Pow2(2) == 4 && Pow2(3) == 8 && Pow2(4) == 16;
    assert Pow2(5) == 32 && Pow2(6) == 64;
  }

  lemma Pow2Double(row: nat, k: nat)
    ensures row * Pow2(k + 1) == (row * Pow2(k)) * 2
  {
    var p := Pow2(k);
    assert Pow2(k + 1) == 2 * p;
    MulAssoc(row, p);
  }

  lemma MulAssoc(a: nat, b: nat)
    ensures a * (2 * b) == (a * b) * 2
  {
  }

  /** A byte times `p`, where `p * d == 0x80`, keeps bit `(row / d) % 2`
      in its 0x80 place and the bits of `row % d` below it. */
  lemma SplitProduct(row: nat, p: nat, d: nat)
    requires p > 0 && d > 0 && p * d == 0x80
    ensures (row % d) * p < 0x80
    ensures (row * p) % 0x100 == ((row / d) % 2) * 0x80 + (row % d) * p
  {
    var hi, low := row / d, row % d;
    assert row == hi * d + low;
    SplitParts(hi, low, p, d);
  }

  lemma SplitParts(hi: nat, low: nat, p: nat, d: nat)
    requires low < d && p * d == 0x80
    ensures low * p < 0x80
    ensures ((hi * d + low) * p) % 0x100 == (hi % 2) * 0x80 + low * p
  {
    MulAdd(hi, d, low, p);
    LowBound(low, d, p);
    TopBit(hi, low * p);
  }

  lemma LowBound(low: nat, d: nat, p: nat)
    requires low < d && p * d == 0x80
    ensures low * p < 0x80
  {
    MulMono(low, d - 1, p);
  }

  lemma TopBit(hi: nat, rest: nat)
    requires rest < 0x80
    ensures (hi * 0x80 + rest) % 0x100 == (hi % 2) * 0x80 + rest
  {
    var u, bit := hi / 2, hi % 2;
    assert hi * 0x80 + rest == u * 0x100 + (bit * 0x80 + rest);
    DivMod256(u, bit * 0x80 + rest);
  }

  lemma MulAdd(q: nat, d: nat, r: nat, p: nat)
    ensures (q * d + r) * p == q * (d * p) + r * p
  {
  }

  lemma MulMono(a: nat, b: nat, p: nat)
    requires a <= b
    ensures a * p <= b * p
  {
  }

  lemma {:induction false} Pow2Add(a: nat, b: nat)
    ensures Pow2(a + b) == Pow2(a) * Pow2(b)
  {
    if a > 0 {
      Pow2Add(a - 1, b);
      assert Pow2(a + b) == 2 * Pow2(a - 1 + b);
    }
  }

  /** Doubling commutes with truncation to a byte. */
  lemma DoubleMod(a: nat)
    ensures ((a % 0x100) * 2) % 0x100 == (a * 2) % 0x100
  {
    var q, r := a / 0x100, a % 0x100;
    assert a * 2 == (q * 2) * 0x100 + r * 2;
    DivMod256(q * 2 + r * 2 / 0x100, r * 2 % 0x100);
    DivMod256(r * 2 / 0x100, r * 2 % 0x100);
  }

  /** `Drw_reg_reg_imm`: the coordinates are read, VF is cleared, and for
      every row and every bit, most significant first, the pixel at the
      wrapped coordinates is XORed with the bit, with VF collecting
      collisions. */
  method ExecuteDrw(x: RegId, y: RegId, n: Nibble, cpu: Cpu, memory: Memory, io: Io) returns (r: Result<()>)
    requires Ready(cpu, memory, io)
    modifies cpu.registers, io.bitmap
    ensures WellFormed(old(Snapshot(cpu, memory, io)))
    ensures Agrees(r, ExecDrw(old(Snapshot(cpu, memory, io)), x, y, n), Snapshot(cpu, memory, io))
  {
    ghost var I := cpu.indexRegister;
    ghost var before := io.bitmap[..];
    var spriteX := cpu.GetRegister(x);
    var spriteY := cpu.GetRegister(y);
    cpu.SetRegister(VF, 0);
    r := DrawRows(cpu, memory, io, spriteX, spriteY, n, before, cpu.registers[..]);
    if r.Err? {
      return;
    }
    ghost var m := old(Snapshot(cpu, memory, io));
    ghost var rows := SpriteRows(m, n);
    assert rows == Rows(memory.buf[..], I, n);
    DrawComplete(before, rows, spriteX, spriteY, io.bitmap[..]);
  }

  /** The row loop of `Drw_reg_reg_imm`: row `yOffset` is fetched from
      `I + yOffset`, which throws once it leaves memory, and drawn. */
  method DrawRows(cpu: Cpu, memory: Memory, io: Io, spriteX: Byte, spriteY: Byte, n: Nibble,
                  ghost before: seq<bool>, ghost regs0: seq<Byte>) returns (r: Result<()>)
    requires Ready(cpu, memory, io) && |before| == NUM_PIXELS && |regs0| == 16 && regs0[VF] == 0
    requires io.bitmap[..] == before && cpu.registers[..] == regs0
    modifies cpu.registers, io.bitmap
    ensures r.Ok? <==> !(n > 0 && cpu.indexRegister + n > MEMORY_SIZE)
    ensures r.Ok? ==> n > 0 ==> cpu.indexRegister + n <= MEMORY_SIZE
    ensures r.Ok? ==> cpu.registers[..] == regs0[VF :=
      if HitBefore(before, Rows(memory.buf[..], cpu.indexRegister, n), spriteX, spriteY, n * 8) then 1 else 0]
    ensures r.Ok? ==> forall p :: 0 <= p < NUM_PIXELS ==>
      io.bitmap[p] == (before[p] != CoversBefore(Rows(memory.buf[..], cpu.indexRegister, n), spriteX, spriteY, p, n * 8))
  {
    ghost var I := cpu.indexRegister;
    var yOffset := 0;
    while yOffset < n
      invariant 0 <= yOffset <= n
      invariant yOffset > 0 ==> I + yOffset <= MEMORY_SIZE
      invariant cpu.registers[..] == regs0[VF :=
        if HitBefore(before, Rows(memory.buf[..], I, yOffset), spriteX, spriteY, yOffset * 8) then 1 else 0]
      invariant forall p :: 0 <= p < NUM_PIXELS ==>
        io.bitmap[p] == (before[p] != CoversBefore(Rows(memory.buf[..], I, yOffset), spriteX, spriteY, p, yOffset * 8))
    {
      var fetched := memory.Get8(Wrap16(cpu.indexRegister + yOffset));
      if fetched.Err? {
        return Err(fetched.fault);
      }
      var spriteByte := fetched.value;
      ghost var row := spriteByte;
      ghost var rows := Rows(memory.buf[..], I, yOffset + 1);
      assert rows == Rows(memory.buf[..], I, yOffset) + [row];
      forall p | 0 <= p < NUM_PIXELS
        ensures CoversBefore(rows, spriteX, spriteY, p, yOffset * 8)
             == CoversBefore(Rows(memory.buf[..], I, yOffset), spriteX, spriteY, p, yOffset * 8)
      {
        CoversBeforeExtend(Rows(memory.buf[..], I, yOffset), row, spriteX, spriteY, p);
      }
      DrawRow(cpu, io, spriteByte, spriteX, spriteY, yOffset, rows, before, regs0);
      yOffset := yOffset + 1;
    }
    return Ok(());
  }

  /** Once every row is drawn the bitmap is `DrawSprite`'s and the
      collisions seen are `Collides`. */
  lemma DrawComplete(before: seq<bool>, rows: seq<Byte>, sx: Byte, sy: Byte, bitmap: seq<bool>)
    requires |before| == NUM_PIXELS && |bitmap| == NUM_PIXELS
    requires forall p :: 0 <= p < NUM_PIXELS ==> bitmap[p] == (before[p] != CoversBefore(rows, sx, sy, p, |rows| * 8))
    ensures bitmap == DrawSprite(before, rows, sx, sy)
    ensures HitBefore(before, rows, sx, sy, |rows| * 8) == Collides(before, rows, sx, sy)
  {
    forall p | 0 <= p < NUM_PIXELS
      ensures CoversBefore(rows, sx, sy, p, |rows| * 8) == Covers(rows, sx, sy, p)
    {
      CoversBeforeAll(rows, sx, sy, p);
    }
  }

  /** One row of `Drw_reg_reg_imm`: its eight bits, most significant first,
      XORed onto the pixels to the right of `(spriteX, spriteY)`, VF
      recording whether a lit pixel went dark. */
  method DrawRow(cpu: Cpu, io: Io, row: Byte, spriteX: Byte, spriteY: Byte, yOffset: nat,
                 ghost rows: seq<Byte>, ghost before: seq<bool>, ghost regs0: seq<Byte>)
    requires cpu.Valid() && io.Valid() && |before| == NUM_PIXELS && |regs0| == 16
    requires yOffset < |rows| <= 16 && rows[yOffset] == row
    requires cpu.registers[..] == regs0[VF := if HitBefore(before, rows, spriteX, spriteY, yOffset * 8) then 1 else 0]
    requires forall p :: 0 <= p < NUM_PIXELS ==>
      io.bitmap[p] == (before[p] != CoversBefore(rows, spriteX, spriteY, p, yOffset * 8))
    modifies cpu.registers, io.bitmap
    ensures cpu.registers[..] == regs0[VF := if HitBefore(before, rows, spriteX, spriteY, yOffset * 8 + 8) then 1 else 0]
    ensures forall p :: 0 <= p < NUM_PIXELS ==>
      io.bitmap[p] == (before[p] != CoversBefore(rows, spriteX, spriteY, p, yOffset * 8 + 8))
  {
    var spriteByte := row;
    var xOffset := 0;
    while xOffset < 8
      invariant 0 <= xOffset <= 8
      invariant spriteByte == (row * Pow2(xOffset)) % 0x100
      invariant cpu.registers[..] == regs0[VF :=
        if HitBefore(before, rows, spriteX, spriteY, yOffset * 8 + xOffset) then 1 else 0]
      invariant forall p :: 0 <= p < NUM_PIXELS ==>
        io.bitmap[p] == (before[p] != CoversBefore(rows, spriteX, spriteY, p, yOffset * 8 + xOffset))
    {
      ShiftedTopBit(row, xOffset);
      var spriteBit := spriteByte >= 0x80;
      spriteByte := Wrap8(spriteByte as int * 2);
      var index := PixelIndex(xOffset + spriteX, yOffset + spriteY);
      assert index == SpritePixel(spriteX, spriteY, xOffset, yOffset);
      ghost var drawn, next := yOffset * 8 + xOffset, yOffset * 8 + xOffset + 1;
      forall p | 0 <= p < NUM_PIXELS
        ensures CoversBefore(rows, spriteX, spriteY, p, next)
            <==> CoversBefore(rows, spriteX, spriteY, p, drawn) || (p == index && spriteBit)
      {
        CoversStep(rows, spriteX, spriteY, xOffset, yOffset, p);
      }
      CoversStep(rows, spriteX, spriteY, xOffset, yOffset, index);
      if spriteBit && io.bitmap[index] {
        cpu.SetRegister(VF, 1);
      }
      io.bitmap[index] := io.bitmap[index] != spriteBit;
      xOffset := xOffset + 1;
    }
  }

  // ---------------------------------------------------------------------
  // `compile`: only whether the form was emitted into the block.

  /** The forms whose `compile` always declines: the block ends before them
      and the interpreter runs them. */
  predicate NeverCompiled(i: Instruction)
  {
    i.Ret? || i.Call? || i.JpV0Imm? || i.Drw? || i.LdRegK?
  }

  /** What `insn->compile(memory, io, section, pc)` returns for the block
      of `numInsns` instructions at `start`, with `pc` the address after the
      instruction (`_compile` advances it first). `Invalid` and `Sys` throw,
      and so does a label lookup at an odd address. */
  function CompileOutcome(i: Instruction, start: Word, numInsns: Word, pc: Word): Result<bool>
  {
    if i.Invalid? then Err(InvalidInstruction)
    else if i.Sys? then Err(SysExecuted)
    else if NeverCompiled(i) then Ok(false)
    else if i.JpImm? then HasLabel(start, numInsns, i.target)
    else if IsSkip(i) then HasLabel(start, numInsns, Wrap16(pc + INSN_SIZE))
    else Ok(true)
  }

  /** The compile answers by instruction form: `Invalid` and `Sys` throw;
      return, call, computed jump, draw and key wait decline; a jump or skip
      throws on an odd target and compiles exactly when its target lies in
      the block; everything else compiles. */
  lemma CompileOutcomeCases(i: Instruction, start: Word, numInsns: Word, pc: Word)
    ensures i.Invalid? ==> CompileOutcome(i, start, numInsns, pc) == Err(InvalidInstruction)
    ensures i.Sys? ==> CompileOutcome(i, start, numInsns, pc) == Err(SysExecuted)
    ensures NeverCompiled(i) ==> CompileOutcome(i, start, numInsns, pc) == Ok(false)
    ensures i.JpImm? ==> (CompileOutcome(i, start, numInsns, pc).Err? <==> i.target % 2 == 1)
    ensures i.JpImm? ==> (CompileOutcome(i, start, numInsns, pc) == Ok(true) <==> InBlock(start, numInsns, i.target))
    ensures IsSkip(i) ==> (CompileOutcome(i, start, numInsns, pc).Err? <==> Wrap16(pc + INSN_SIZE) % 2 == 1)
    ensures IsSkip(i) ==> (CompileOutcome(i, start, numInsns, pc) == Ok(true) <==> InBlock(start, numInsns, Wrap16(pc + INSN_SIZE)))
    ensures !(i.Invalid? || i.Sys? || NeverCompiled(i) || i.JpImm? || IsSkip(i)) ==> CompileOutcome(i, start, numInsns, pc) == Ok(true)
  {
  }
}
