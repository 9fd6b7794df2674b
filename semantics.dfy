/** The meaning of every `execute` body of src/Instructions.cpp as a function
    from machine state to machine state. The imperative methods of module
    Instructions are proved to compute exactly this function, and the
    lemmas below state what the instructions promise in terms of it. */
module Semantics {
  import opened Types
  import opened Mem
  import opened Processor
  import opened Decoder
  import opened InputOutput

  /** Everything an `execute` reads or writes: the `Cpu` fields, the two
      arrays of `Memory`, and the keypad, bitmap and flags of `IO`. */
  datatype Machine = Machine(
    regs: seq<Byte>, index: Word, pc: Word, sp: Word, st: Byte, dt: Byte,
    mem: seq<Byte>, dirty: seq<Byte>,
    keys: seq<bool>, bitmap: seq<bool>, exitFlag: bool, sdlDisabled: bool)

  predicate WellFormed(m: Machine)
  {
    && |m.regs| == 16 && |m.mem| == MEMORY_SIZE && |m.dirty| == DIRTY_MAP_SIZE
    && |m.keys| == KEYPAD_SIZE && |m.bitmap| == NUM_PIXELS
  }

  /** The skip forms: `pc += 2` (16-bit) when the condition holds. */
  function SkipIf(m: Machine, cond: bool): (r: Machine)
    ensures r == m.(pc := r.pc)
    ensures r != m <==> cond
  {
    if cond then m.(pc := Wrap16(m.pc + INSN_SIZE)) else m
  }

  /** `isPressed` on the machine's keypad. */
  predicate Pressed(m: Machine, key: Byte)
    requires WellFormed(m)
  {
    !m.sdlDisabled && key < KEYPAD_SIZE && m.keys[key]
  }

  // ---------------------------------------------------------------------
  // Flag-setting arithmetic. Each writes VF first and then computes the
  // result from the register file as it stands after that write, as the
  // source does by reading its operands through references.

  function AddWithCarry(regs: seq<Byte>, x: RegId, y: RegId): (r: seq<Byte>)
    requires |regs| == 16
    ensures |r| == 16
    ensures forall k :: 0 <= k < 16 && k != x && k != VF ==> r[k] == regs[k]
  {
    var flagged := regs[VF := if regs[x] as int + regs[y] as int > 0xFF then 1 else 0];
    flagged[x := Wrap8(flagged[x] + flagged[y])]
  }

  function SubWithBorrow(regs: seq<Byte>, x: RegId, y: RegId): (r: seq<Byte>)
    requires |regs| == 16
    ensures |r| == 16
    ensures forall k :: 0 <= k < 16 && k != x && k != VF ==> r[k] == regs[k]
  {
    var flagged := regs[VF := if regs[x] > regs[y] then 1 else 0];
    flagged[x := Wrap8(flagged[x] - flagged[y])]
  }

  function SubnWithBorrow(regs: seq<Byte>, x: RegId, y: RegId): (r: seq<Byte>)
    requires |regs| == 16
    ensures |r| == 16
    ensures forall k :: 0 <= k < 16 && k != x && k != VF ==> r[k] == regs[k]
  {
    var flagged := regs[VF := if regs[y] > regs[x] then 1 else 0];
    flagged[x := Wrap8(flagged[y] - flagged[x])]
  }

  /** `reg & 1u` into VF, then `reg >> 1u`. */
  function ShiftRight(regs: seq<Byte>, x: RegId): (r: seq<Byte>)
    requires |regs| == 16
    ensures |r| == 16
    ensures forall k :: 0 <= k < 16 && k != x && k != VF ==> r[k] == regs[k]
  {
    var flagged := regs[VF := regs[x] % 2];
    flagged[x := flagged[x] / 2]
  }

  /** `reg & 0x80` into VF, then `reg << 1u` truncated to a byte. */
  function ShiftLeft(regs: seq<Byte>, x: RegId): (r: seq<Byte>)
    requires |regs| == 16
    ensures |r| == 16
    ensures forall k :: 0 <= k < 16 && k != x && k != VF ==> r[k] == regs[k]
  {
    var flagged := regs[VF := if regs[x] >= 0x80 then 0x80 else 0];
    flagged[x := Wrap8(flagged[x] * 2)]
  }

  // ---------------------------------------------------------------------
  // The stack.

  /** `Ret`: `pc := get<word>(sp)`, then `sp -= 2`. */
  function ExecRet(m: Machine): (r: Result<Machine>)
    requires WellFormed(m)
    ensures r.Ok? ==> WellFormed(r.value) && r.value.sdlDisabled == m.sdlDisabled && r.value.exitFlag == m.exitFlag
  {
    if m.sp + 2 > MEMORY_SIZE then Err(OutOfBounds)
    else Ok(m.(pc := LoadWord(m.mem, m.sp), sp := Wrap16(m.sp - 2)))
  }

  /** `Call`: `sp += 2`, then `put<word>(sp, pc)`, then `pc := target`. */
  function ExecCall(m: Machine, target: Word): (r: Result<Machine>)
    requires WellFormed(m)
    ensures r.Ok? ==> WellFormed(r.value) && r.value.sdlDisabled == m.sdlDisabled && r.value.exitFlag == m.exitFlag
  {
    var sp := Wrap16(m.sp + 2);
    if sp + 2 > MEMORY_SIZE then Err(OutOfBounds)
    else Ok(m.(sp := sp, mem := StoreWord(m.mem, sp, m.pc), pc := target))
  }

  /** `Exec` on a call is `ExecCall`. */
  lemma CallExec(m: Machine, target: Word, rnd: Byte)
    requires WellFormed(m)
    ensures Exec(Call(target), m, rnd) == ExecCall(m, target)
  {
  }

  // ---------------------------------------------------------------------
  // Memory transfers and dirty marking.

  /** The dirty-map entry of byte `a`: `a >> DIRTY_MAP_SHR`. */
  function Granule(a: nat): nat
  {
    a / GRANULE
  }

  /** Dirty-map entry `g` covers a byte of `[at, at + count)`. */
  predicate Touches(g: int, at: int, count: int)
  {
    0 < count && at <= g * GRANULE + 3 && g * GRANULE < at + count
  }

  /** The dirty map after marking every granule of `[at, at + count)`. */
  function MarkDirty(dirty: seq<Byte>, at: nat, count: nat): (r: seq<Byte>)
    requires |dirty| == DIRTY_MAP_SIZE
    ensures |r| == DIRTY_MAP_SIZE
  {
    seq(DIRTY_MAP_SIZE, g requires 0 <= g < DIRTY_MAP_SIZE =>
      if Touches(g, at, count) then 1 else dirty[g])
  }

  /** Memory after storing `regs[0..count)` at `at`. */
  function StoreRegs(mem: seq<Byte>, at: nat, regs: seq<Byte>, count: nat): (r: seq<Byte>)
    requires |mem| == MEMORY_SIZE && count <= |regs|
    ensures |r| == MEMORY_SIZE
  {
    seq(MEMORY_SIZE, a requires 0 <= a < MEMORY_SIZE =>
      if at <= a < at + count then regs[a - at] else mem[a])
  }

  /** Marking never clears an entry, and marking no bytes changes nothing. */
  lemma MarkDirtyKeeps(dirty: seq<Byte>, at: nat, count: nat)
    requires |dirty| == DIRTY_MAP_SIZE
    ensures forall g :: 0 <= g < DIRTY_MAP_SIZE && dirty[g] != 0 ==> MarkDirty(dirty, at, count)[g] != 0
    ensures count == 0 ==> MarkDirty(dirty, at, count) == dirty
  {
  }

  /** The stored block holds the registers and every other byte stays. */
  lemma StoreRegsPlaces(mem: seq<Byte>, at: nat, regs: seq<Byte>, count: nat)
    requires |mem| == MEMORY_SIZE && count <= |regs|
    ensures at + count <= MEMORY_SIZE ==> StoreRegs(mem, at, regs, count)[at .. at + count] == regs[..count]
    ensures forall a :: 0 <= a < MEMORY_SIZE && !(at <= a < at + count) ==> StoreRegs(mem, at, regs, count)[a] == mem[a]
  {
  }

  /** Storing one more register is one more update of memory. */
  lemma StoreRegsStep(mem: seq<Byte>, at: nat, regs: seq<Byte>, count: nat)
    requires |mem| == MEMORY_SIZE && count < |regs| && at + count < MEMORY_SIZE
    ensures StoreRegs(mem, at, regs, count + 1) == StoreRegs(mem, at, regs, count)[at + count := regs[count]]
  {
  }

  /** The register file after loading `V0..V(count-1)` from `at`. */
  function LoadRegs(regs: seq<Byte>, mem: seq<Byte>, at: nat, count: nat): (r: seq<Byte>)
    requires |regs| == 16 && |mem| == MEMORY_SIZE && (count > 0 ==> at + count <= MEMORY_SIZE)
    ensures |r| == 16
  {
    seq(16, r requires 0 <= r < 16 => if r < count then mem[at + r] else regs[r])
  }

  /** The loaded registers hold the block and the others keep their values. */
  lemma LoadRegsPlaces(regs: seq<Byte>, mem: seq<Byte>, at: nat, count: nat)
    requires |regs| == 16 && |mem| == MEMORY_SIZE && (count > 0 ==> at + count <= MEMORY_SIZE)
    ensures 0 < count <= 16 ==> LoadRegs(regs, mem, at, count)[..count] == mem[at .. at + count]
    ensures forall k :: count <= k < 16 ==> LoadRegs(regs, mem, at, count)[k] == regs[k]
  {
  }

  /** `Ld_B_reg`: hundreds, tens and ones of `Vx` at `I`, `I+1`, `I+2`. */
  function ExecLdBReg(m: Machine, x: RegId): (r: Result<Machine>)
    requires WellFormed(m)
    ensures r.Ok? ==> WellFormed(r.value) && r.value.sdlDisabled == m.sdlDisabled && r.value.exitFlag == m.exitFlag
  {
    var i := m.index;
    var v := m.regs[x];
    if i + 3 > MEMORY_SIZE then Err(OutOfBounds)
    else Ok(m.(mem := m.mem[i := v / 100][i + 1 := v / 10 % 10][i + 2 := v % 10],
               dirty := MarkDirty(m.dirty, i, 3)))
  }

  /** `Ld_I_regs`: `V0..Vx` to `I..I+x`, dirty marking, then `I += x+1`. */
  function ExecLdIRegs(m: Machine, x: RegId): (r: Result<Machine>)
    requires WellFormed(m)
    ensures r.Ok? ==> WellFormed(r.value) && r.value.sdlDisabled == m.sdlDisabled && r.value.exitFlag == m.exitFlag
  {
    if m.index + x + 1 > MEMORY_SIZE then Err(OutOfBounds)
    else Ok(m.(mem := StoreRegs(m.mem, m.index, m.regs, x + 1),
               dirty := MarkDirty(m.dirty, m.index, x + 1),
               index := Wrap16(m.index + x + 1)))
  }

  /** `Ld_regs_I`: `V0..Vx` from `I..I+x`, then `I += x+1`. */
  function ExecLdRegsI(m: Machine, x: RegId): (r: Result<Machine>)
    requires WellFormed(m)
    ensures r.Ok? ==> WellFormed(r.value) && r.value.sdlDisabled == m.sdlDisabled && r.value.exitFlag == m.exitFlag
  {
    if m.index + x + 1 > MEMORY_SIZE then Err(OutOfBounds)
    else Ok(m.(regs := LoadRegs(m.regs, m.mem, m.index, x + 1),
               index := Wrap16(m.index + x + 1)))
  }

  // ---------------------------------------------------------------------
  // Sprites.

  /** Bit `dx` of a sprite row, counting from the most significant bit. */
  predicate SpriteBit(row: Byte, dx: nat)
    requires dx < 8
  {
    (row / Pow2(7 - dx)) % 2 == 1
  }

  /** The bitmap index of column `col` and line `line`, both wrapped around
      the 64x32 screen. */
  function PixelIndex(col: int, line: int): (p: nat)
    ensures p < NUM_PIXELS
  {
    col % PIXEL_WIDTH + (line % PIXEL_HEIGHT) * PIXEL_WIDTH
  }

  /** Pixel `p` lies under a set bit of the sprite `rows` drawn at
      `(sx, sy)`: its offsets from the sprite origin, taken around the
      screen, name a row and a bit of that row. */
  predicate Covers(rows: seq<Byte>, sx: Byte, sy: Byte, p: nat)
  {
    var dx := (p % PIXEL_WIDTH - sx) % PIXEL_WIDTH;
    var dy := (p / PIXEL_WIDTH - sy) % PIXEL_HEIGHT;
    dx < 8 && dy < |rows| && SpriteBit(rows[dy], dx)
  }

  /** The bitmap with the sprite XORed in. */
  function DrawSprite(bitmap: seq<bool>, rows: seq<Byte>, sx: Byte, sy: Byte): (r: seq<bool>)
    requires |bitmap| == NUM_PIXELS
    ensures |r| == NUM_PIXELS
    ensures rows == [] ==> r == bitmap
  {
    seq(NUM_PIXELS, p requires 0 <= p < NUM_PIXELS => bitmap[p] != Covers(rows, sx, sy, p))
  }

  /** Some lit pixel lies under a set sprite bit. */
  predicate Collides(bitmap: seq<bool>, rows: seq<Byte>, sx: Byte, sy: Byte)
    requires |bitmap| == NUM_PIXELS
    ensures Collides(bitmap, rows, sx, sy) ==> rows != [] && true in bitmap
  {
    exists p :: 0 <= p < NUM_PIXELS && bitmap[p] && Covers(rows, sx, sy, p)
  }

  /** The `k` bytes at `at`, none when `k` is 0. */
  function Rows(mem: seq<Byte>, at: nat, k: nat): (r: seq<Byte>)
    requires |mem| == MEMORY_SIZE && (k > 0 ==> at + k <= MEMORY_SIZE)
    ensures |r| == k
  {
    if k == 0 then [] else mem[at .. at + k]
  }

  /** The `n` sprite rows at `I`. */
  function SpriteRows(m: Machine, n: Nibble): seq<Byte>
    requires WellFormed(m) && (n > 0 ==> m.index + n <= MEMORY_SIZE)
  {
    Rows(m.mem, m.index, n)
  }

  /** `Drw_reg_reg_imm`: the coordinates are read before VF is cleared; VF
      ends 1 iff the sprite erased a lit pixel. */
  function ExecDrw(m: Machine, x: RegId, y: RegId, n: Nibble): (r: Result<Machine>)
    requires WellFormed(m)
    ensures r.Ok? ==> WellFormed(r.value) && r.value.sdlDisabled == m.sdlDisabled && r.value.exitFlag == m.exitFlag
  {
    if n > 0 && m.index + n > MEMORY_SIZE then Err(OutOfBounds)
    else
      var rows := SpriteRows(m, n);
      var sx, sy := m.regs[x], m.regs[y];
      Ok(m.(regs := m.regs[VF := if Collides(m.bitmap, rows, sx, sy) then 1 else 0],
            bitmap := DrawSprite(m.bitmap, rows, sx, sy)))
  }

  // ---------------------------------------------------------------------
  // Keypad and screen.

  /** `Ld_reg_K`: take the lowest pressed key, or rewind `pc` by one
      instruction so that the wait repeats. */
  function ExecLdRegK(m: Machine, x: RegId): (r: Machine)
    requires WellFormed(m)
    ensures WellFormed(r) && r.sdlDisabled == m.sdlDisabled && r.exitFlag == m.exitFlag
  {
    var key := if m.sdlDisabled then None else FirstPressed(m.keys);
    match key
    case None => m.(pc := Wrap16(m.pc - INSN_SIZE))
    case Some(k) => m.(regs := m.regs[x := k], keys := m.keys[k := false])
  }

  /** `Cls`: `io.clear()`. */
  function ExecCls(m: Machine): (r: Machine)
    ensures WellFormed(m) ==> WellFormed(r)
  {
    m.(bitmap := if m.sdlDisabled then m.bitmap else seq(NUM_PIXELS, _ => false))
  }

  /** `insn->execute(cpu, memory, io)`. `rnd` is the byte `getRandom` would
      return. An `Err` result is an exception, which ends the run. */
  function Exec(i: Instruction, m: Machine, rnd: Byte): (r: Result<Machine>)
    requires WellFormed(m)
    ensures r.Ok? ==> WellFormed(r.value)
    ensures r.Ok? ==> r.value.sdlDisabled == m.sdlDisabled && r.value.exitFlag == m.exitFlag
  {
    if ChangesFlow(i) then ExecFlow(i, m) else ExecData(i, m, rnd)
  }

  /** The forms that act on `pc`, `sp`, the keypad or the screen alone. */
  predicate ChangesFlow(i: Instruction)
  {
    i.Invalid? || i.Sys? || i.Cls? || i.Ret? || i.JpImm? || i.Call? || i.JpV0Imm?
    || i.SeRegImm? || i.SneRegImm? || i.SeRegReg? || i.SneRegReg?
    || i.SkpReg? || i.SknpReg? || i.LdRegK? || i.Drw?
  }

  /** `Exec` on the control-flow, key and screen forms. */
  function ExecFlow(i: Instruction, m: Machine): (r: Result<Machine>)
    requires WellFormed(m) && ChangesFlow(i)
    ensures r.Ok? ==> WellFormed(r.value)
    ensures r.Ok? ==> r.value.sdlDisabled == m.sdlDisabled && r.value.exitFlag == m.exitFlag
  {
    match i
    case Invalid(_) => Err(InvalidInstruction)
    case Sys(_) => Err(SysExecuted)
    case Cls => Ok(ExecCls(m))
    case Ret => ExecRet(m)
    case JpImm(t) => Ok(m.(pc := t))
    case Call(t) => ExecCall(m, t)
    case SeRegImm(x, kk) => Ok(SkipIf(m, m.regs[x] == kk))
    case SneRegImm(x, kk) => Ok(SkipIf(m, m.regs[x] != kk))
    case SeRegReg(x, y) => Ok(SkipIf(m, m.regs[x] == m.regs[y]))
    case SneRegReg(x, y) => Ok(SkipIf(m, m.regs[x] != m.regs[y]))
    case JpV0Imm(t) => Ok(m.(pc := Wrap16(t + m.regs[V0]) % MEMORY_SIZE))
    case Drw(x, y, n) => ExecDrw(m, x, y, n)
    case SkpReg(x) => Ok(SkipIf(m, Pressed(m, m.regs[x])))
    case SknpReg(x) => Ok(SkipIf(m, !Pressed(m, m.regs[x])))
    case LdRegK(x) => Ok(ExecLdRegK(m, x))
  }

  /** `Exec` on the register, timer, index and memory forms. */
  function ExecData(i: Instruction, m: Machine, rnd: Byte): (r: Result<Machine>)
    requires WellFormed(m) && !ChangesFlow(i)
    ensures r.Ok? ==> WellFormed(r.value)
    ensures r.Ok? ==> r.value.sdlDisabled == m.sdlDisabled && r.value.exitFlag == m.exitFlag
  {
    match i
    case LdRegImm(x, kk) => Ok(m.(regs := m.regs[x := kk]))
    case AddRegImm(x, kk) => Ok(m.(regs := m.regs[x := Wrap8(m.regs[x] + kk)]))
    case LdRegReg(x, y) => Ok(m.(regs := m.regs[x := m.regs[y]]))
    case OrRegReg(x, y) => Ok(m.(regs := m.regs[x := Or8(m.regs[x], m.regs[y])]))
    case AndRegReg(x, y) => Ok(m.(regs := m.regs[x := And8(m.regs[x], m.regs[y])]))
    case XorRegReg(x, y) => Ok(m.(regs := m.regs[x := Xor8(m.regs[x], m.regs[y])]))
    case AddRegReg(x, y) => Ok(m.(regs := AddWithCarry(m.regs, x, y)))
    case SubRegReg(x, y) => Ok(m.(regs := SubWithBorrow(m.regs, x, y)))
    case ShrReg(x) => Ok(m.(regs := ShiftRight(m.regs, x)))
    case SubnRegReg(x, y) => Ok(m.(regs := SubnWithBorrow(m.regs, x, y)))
    case ShlReg(x) => Ok(m.(regs := ShiftLeft(m.regs, x)))
    case LdIImm(a) => Ok(m.(index := a))
    case RndRegImm(x, kk) => Ok(m.(regs := m.regs[x := And8(rnd, kk)]))
    case LdRegDt(x) => Ok(m.(regs := m.regs[x := m.dt]))
    case LdDtReg(x) => Ok(m.(dt := m.regs[x]))
    case LdStReg(x) => Ok(m.(st := m.regs[x]))
    case AddIReg(x) => Ok(m.(index := Wrap16(m.index + m.regs[x])))
    case LdFReg(x) => Ok(m.(index := m.regs[x] as int * 5))
    case LdBReg(x) => ExecLdBReg(m, x)
    case LdIRegs(x) => ExecLdIRegs(m, x)
    case LdRegsI(x) => ExecLdRegsI(m, x)
  }

  // ---------------------------------------------------------------------
  // What the instructions promise.

  /** `Add_reg_reg` with neither operand VF: the carry and the wrapped sum
      together make the true sum, and only Vx and VF change. */
  lemma AddRegRegCarry(m: Machine, x: RegId, y: RegId, rnd: Byte)
    requires WellFormed(m) && x != VF && y != VF
    ensures Exec(AddRegReg(x, y), m, rnd).Ok?
    ensures var r := Exec(AddRegReg(x, y), m, rnd).value.regs;
      && r[VF] <= 1
      && r[x] as int + 0x100 * r[VF] as int == m.regs[x] as int + m.regs[y] as int
      && forall j :: 0 <= j < 16 && j != x && j != VF ==> r[j] == m.regs[j]
  {
  }

  /** `Add_reg_reg` with `y` = VF: the addend is the fresh carry, not the old
      VF, because VF is overwritten before the add reads it. */
  lemma AddRegRegReadsFreshCarry(m: Machine, x: RegId, rnd: Byte)
    requires WellFormed(m) && x != VF
    ensures var r := Exec(AddRegReg(x, VF), m, rnd).value.regs;
      && r[VF] == (if m.regs[x] as int + m.regs[VF] as int > 0xFF then 1 else 0)
      && r[x] == (m.regs[x] as int + r[VF] as int) % 0x100
  {
  }

  /** `Sub_reg_reg` with neither operand VF: VF is 1 iff Vx > Vy strictly,
      so equal operands report a borrow; the result is the difference modulo
      256. */
  lemma SubRegRegBorrow(m: Machine, x: RegId, y: RegId, rnd: Byte)
    requires WellFormed(m) && x != VF && y != VF
    ensures var r := Exec(SubRegReg(x, y), m, rnd).value.regs;
      && (r[VF] == 1 <==> m.regs[x] > m.regs[y])
      && (r[VF] == 0 <==> m.regs[x] <= m.regs[y])
      && r[x] as int + m.regs[y] as int == m.regs[x] as int + (if m.regs[x] >= m.regs[y] then 0 else 0x100)
  {
  }

  /** `Subn_reg_reg` with neither operand VF: VF is 1 iff Vy > Vx strictly;
      Vx becomes Vy - Vx modulo 256. */
  lemma SubnRegRegBorrow(m: Machine, x: RegId, y: RegId, rnd: Byte)
    requires WellFormed(m) && x != VF && y != VF
    ensures var r := Exec(SubnRegReg(x, y), m, rnd).value.regs;
      && (r[VF] == 1 <==> m.regs[y] > m.regs[x])
      && (r[VF] == 0 <==> m.regs[y] <= m.regs[x])
      && r[x] as int + m.regs[x] as int == m.regs[y] as int + (if m.regs[y] >= m.regs[x] then 0 else 0x100)
  {
  }

  /** `Shr_reg`: the shifted-out bit lands in VF, so `Vx = 2 * Vx' + VF'`;
      shifting VF itself shifts the freshly stored bit, which gives 0. */
  lemma ShrRegBit(m: Machine, x: RegId, rnd: Byte)
    requires WellFormed(m)
    ensures var r := Exec(ShrReg(x), m, rnd).value.regs;
      && (x != VF ==> r[VF] <= 1 && m.regs[x] == 2 * r[x] + r[VF])
      && (x == VF ==> r[VF] == 0)
  {
  }

  /** `Shl_reg`: VF receives the shifted-out bit as 0x80 or 0, never 1, and
      `2 * Vx = Vx' + 2 * VF'`; shifting VF itself gives 0 or 0x80 shifted
      out of the byte, that is 0. */
  lemma ShlRegBit(m: Machine, x: RegId, rnd: Byte)
    requires WellFormed(m)
    ensures var r := Exec(ShlReg(x), m, rnd).value.regs;
      && (x != VF ==> (r[VF] == 0 || r[VF] == 0x80) && 2 * m.regs[x] as int == r[x] as int + 2 * r[VF] as int)
      && (x == VF ==> r[VF] == 0)
  {
  }

  /** `Ret` after `Call` restores `pc` and `sp`; only the two stack bytes
      the call pushed stay changed. The push does not mark the dirty map. */
  lemma {:induction false} CallThenRet(m: Machine, target: Word, rnd: Byte)
    requires WellFormed(m) && Exec(Call(target), m, rnd).Ok?
    ensures var c := Exec(Call(target), m, rnd).value;
      && c.pc == target
      && c.dirty == m.dirty
      && Exec(Ret, c, rnd) == Ok(m.(mem := c.mem))
      && forall a :: 0 <= a < MEMORY_SIZE && a != c.sp && a != c.sp + 1 ==> c.mem[a] == m.mem[a]
  {
    var c := Exec(Call(target), m, rnd).value;
    assert c.sp == Wrap16(m.sp + 2);
    assert LoadWord(c.mem, c.sp) == m.pc;
  }

  /** The skip forms. */
  predicate IsSkip(i: Instruction)
  {
    i.SeRegImm? || i.SneRegImm? || i.SeRegReg? || i.SneRegReg? || i.SkpReg? || i.SknpReg?
  }

  /** A skip either leaves the machine alone or advances `pc` by one
      instruction; nothing else changes. */
  lemma SkipMovesOnlyPc(i: Instruction, m: Machine, rnd: Byte)
    requires WellFormed(m) && IsSkip(i)
    ensures Exec(i, m, rnd) == Ok(m) || Exec(i, m, rnd) == Ok(m.(pc := Wrap16(m.pc + INSN_SIZE)))
  {
  }

  /** Of a skip and its negation on the same operands, exactly one skips:
      `Se_reg_imm` and `Sne_reg_imm`. */
  lemma SkipPairImm(m: Machine, x: RegId, kk: Byte, rnd: Byte)
    requires WellFormed(m)
    ensures Exec(SeRegImm(x, kk), m, rnd) != Exec(SneRegImm(x, kk), m, rnd)
  {
    SkipIfDiffers(m, m.regs[x] == kk);
  }

  /** The same for `Se_reg_reg` and `Sne_reg_reg`. */
  lemma SkipPairReg(m: Machine, x: RegId, y: RegId, rnd: Byte)
    requires WellFormed(m)
    ensures Exec(SeRegReg(x, y), m, rnd) != Exec(SneRegReg(x, y), m, rnd)
  {
    SkipIfDiffers(m, m.regs[x] == m.regs[y]);
  }

  /** The same for `Skp_reg` and `Sknp_reg`. */
  lemma SkipPairKey(m: Machine, x: RegId, rnd: Byte)
    requires WellFormed(m)
    ensures Exec(SkpReg(x), m, rnd) != Exec(SknpReg(x), m, rnd)
  {
    SkipIfDiffers(m, Pressed(m, m.regs[x]));
  }

  /** A skip and its negation move `pc` differently. */
  lemma SkipIfDiffers(m: Machine, cond: bool)
    ensures SkipIf(m, cond) != SkipIf(m, !cond)
  {
    assert Wrap16(m.pc + INSN_SIZE) != m.pc;
  }

  /** Which way each skip goes: `Se_reg_imm` skips on equality,
      `Sne_reg_imm` on inequality. */
  lemma SkipDirectionImm(m: Machine, x: RegId, kk: Byte, rnd: Byte)
    requires WellFormed(m)
    ensures var next := m.(pc := Wrap16(m.pc + INSN_SIZE));
      && Exec(SeRegImm(x, kk), m, rnd) == Ok(if m.regs[x] == kk then next else m)
      && Exec(SneRegImm(x, kk), m, rnd) == Ok(if m.regs[x] != kk then next else m)
  {
  }

  /** The same for `Se_reg_reg` and `Sne_reg_reg`. */
  lemma SkipDirectionReg(m: Machine, x: RegId, y: RegId, rnd: Byte)
    requires WellFormed(m)
    ensures var next := m.(pc := Wrap16(m.pc + INSN_SIZE));
      && Exec(SeRegReg(x, y), m, rnd) == Ok(if m.regs[x] == m.regs[y] then next else m)
      && Exec(SneRegReg(x, y), m, rnd) == Ok(if m.regs[x] != m.regs[y] then next else m)
  {
  }

  /** `Skp_reg` skips when the key named by `Vx` is pressed and `Sknp_reg`
      when it is not; a value past the keypad, or SDL disabled, counts as
      not pressed. */
  lemma SkipDirectionKey(m: Machine, x: RegId, rnd: Byte)
    requires WellFormed(m)
    ensures var next := m.(pc := Wrap16(m.pc + INSN_SIZE));
      var down := !m.sdlDisabled && m.regs[x] < KEYPAD_SIZE && m.keys[m.regs[x]];
      && Exec(SkpReg(x), m, rnd) == Ok(if down then next else m)
      && Exec(SknpReg(x), m, rnd) == Ok(if down then m else next)
  {
  }

  /** With no key to take, `Ld_reg_K` undoes the engine's `pc += 2`, so the
      machine is back where it was and the wait repeats. */
  lemma KeyWaitRepeats(m: Machine, x: RegId, rnd: Byte)
    requires WellFormed(m) && (m.sdlDisabled || FirstPressed(m.keys) == None)
    ensures Exec(LdRegK(x), m.(pc := Wrap16(m.pc + INSN_SIZE)), rnd) == Ok(m)
  {
  }

  /** A key taken by `Ld_reg_K` is the lowest pressed one: it lands in Vx and
      is released. */
  lemma KeyWaitTakesLowest(m: Machine, x: RegId, k: nat, rnd: Byte)
    requires WellFormed(m) && !m.sdlDisabled && k < KEYPAD_SIZE && m.keys[k]
    requires forall j :: 0 <= j < k ==> !m.keys[j]
    ensures var r := Exec(LdRegK(x), m, rnd).value;
      r.regs == m.regs[x := k] && r.keys == m.keys[k := false] && r.pc == m.pc
  {
    assert FirstPressedFrom(m.keys, 0) == Some(k);
  }

  /** Division by 4 of a value written as a quotient and an in-range
      remainder. */
  lemma DivMod4(q: int, r: int)
    requires 0 <= r < 4
    ensures (q * 4 + r) / 4 == q && (q * 4 + r) % 4 == r
  {
  }

  /** The granules an access to `[at, at + count)` touches are those of its
      bytes. */
  lemma {:induction false} TouchesIff(g: int, at: nat, count: nat)
    ensures Touches(g, at, count) <==> exists a :: at <= a < at + count && Granule(a) == g
  {
    if Touches(g, at, count) {
      var a := if at <= g * GRANULE then g * GRANULE else at;
      DivMod4(g, a - g * GRANULE);
      assert Granule(a) == g;
    }
    if exists a :: at <= a < at + count && Granule(a) == g {
      var a :| at <= a < at + count && Granule(a) == g;
      assert a == g * GRANULE + a % GRANULE;
    }
  }

  /** Marking one more byte marks its granule. */
  lemma {:induction false} MarkDirtyStep(dirty: seq<Byte>, at: nat, count: nat)
    requires |dirty| == DIRTY_MAP_SIZE && Granule(at + count) < DIRTY_MAP_SIZE
    ensures MarkDirty(dirty, at, count + 1) == MarkDirty(dirty, at, count)[Granule(at + count) := 1]
  {
    forall g | 0 <= g < DIRTY_MAP_SIZE
      ensures Touches(g, at, count + 1) <==> Touches(g, at, count) || g == Granule(at + count)
    {
      TouchesIff(g, at, count + 1);
      TouchesIff(g, at, count);
      if Touches(g, at, count + 1) && !Touches(g, at, count) {
        var a :| at <= a < at + count + 1 && Granule(a) == g;
      }
      if g == Granule(at + count) {
        assert at <= at + count < at + count + 1;
      }
    }
  }

  /** `Ld_B_reg`: three decimal digits that spell Vx, at `I`, `I+1`, `I+2`;
      the dirty map gains exactly the granules `(I+j) >> 2` of those bytes
      and the rest of memory is unchanged. */
  lemma {:induction false} BcdDigits(m: Machine, x: RegId, rnd: Byte)
    requires WellFormed(m) && m.index + 3 <= MEMORY_SIZE
    ensures Exec(LdBReg(x), m, rnd).Ok?
    ensures var r := Exec(LdBReg(x), m, rnd).value; var i := m.index;
      && r.mem[i] < 10 && r.mem[i + 1] < 10 && r.mem[i + 2] < 10
      && 100 * r.mem[i] + 10 * r.mem[i + 1] + r.mem[i + 2] == m.regs[x]
      && (forall a :: 0 <= a < MEMORY_SIZE && !(i <= a < i + 3) ==> r.mem[a] == m.mem[a])
      && (forall g :: 0 <= g < DIRTY_MAP_SIZE ==>
            r.dirty[g] == if g == Granule(i) || g == Granule(i + 1) || g == Granule(i + 2)
                          then 1 else m.dirty[g])
  {
    var r := Exec(LdBReg(x), m, rnd).value;
    var i := m.index;
    assert r.dirty == MarkDirty(m.dirty, i, 3);
    forall g | 0 <= g < DIRTY_MAP_SIZE
      ensures r.dirty[g] == if g == Granule(i) || g == Granule(i + 1) || g == Granule(i + 2)
                            then 1 else m.dirty[g]
    {
      TouchesIff(g, i, 3);
      if Touches(g, i, 3) {
        var a :| i <= a < i + 3 && Granule(a) == g;
      }
    }
  }

  /** `Ld_I_regs` then `Ld_regs_I` from the same `I` gives back the stored
      registers and leaves memory as the store left it. */
  lemma StoreThenLoadRegisters(m: Machine, x: RegId, rnd: Byte)
    requires WellFormed(m) && m.index + x + 1 <= MEMORY_SIZE
    ensures Exec(LdIRegs(x), m, rnd).Ok?
    ensures var s := Exec(LdIRegs(x), m, rnd).value;
      && s.index == m.index + x + 1
      && Exec(LdRegsI(x), s.(index := m.index), rnd) == Ok(s.(regs := m.regs))
  {
    var s := Exec(LdIRegs(x), m, rnd).value;
    assert LoadRegs(m.regs, s.mem, m.index, x + 1) == m.regs;
  }

  /** `Ld_I_regs` marks exactly the granules `(I+i) >> 2` of the bytes it
      stores, and stores exactly V0..Vx. */
  lemma {:induction false} BlockStoreMarksDirty(m: Machine, x: RegId, rnd: Byte)
    requires WellFormed(m) && m.index + x + 1 <= MEMORY_SIZE
    ensures Exec(LdIRegs(x), m, rnd).Ok?
    ensures var r := Exec(LdIRegs(x), m, rnd).value;
      && (forall j :: 0 <= j <= x ==> r.mem[m.index + j] == m.regs[j])
      && (forall a :: 0 <= a < MEMORY_SIZE && !(m.index <= a <= m.index + x) ==> r.mem[a] == m.mem[a])
      && (forall g :: 0 <= g < DIRTY_MAP_SIZE ==>
            r.dirty[g] == if exists a :: m.index <= a <= m.index + x && Granule(a) == g then 1 else m.dirty[g])
  {
    var r := Exec(LdIRegs(x), m, rnd).value;
    forall g | 0 <= g < DIRTY_MAP_SIZE
      ensures r.dirty[g] == if exists a :: m.index <= a <= m.index + x && Granule(a) == g then 1 else m.dirty[g]
    {
      TouchesIff(g, m.index, x + 1);
    }
  }

  /** Only `Call`, `Ld_B_reg` and `Ld_I_regs` write memory, and of those only
      the last two mark the dirty map. */
  lemma MemoryWriters(i: Instruction, m: Machine, rnd: Byte)
    requires WellFormed(m) && Exec(i, m, rnd).Ok?
    ensures Exec(i, m, rnd).value.mem != m.mem ==> i.Call? || i.LdBReg? || i.LdIRegs?
    ensures Exec(i, m, rnd).value.dirty != m.dirty ==> i.LdBReg? || i.LdIRegs?
  {
    if ChangesFlow(i) {
      FlowWriters(i, m);
    } else {
      DataWriters(i, m, rnd);
    }
  }

  /** Of the control-flow forms only `Call` writes memory (the return
      address), and none marks the dirty map. */
  lemma FlowWriters(i: Instruction, m: Machine)
    requires WellFormed(m) && ChangesFlow(i) && ExecFlow(i, m).Ok?
    ensures ExecFlow(i, m).value.mem != m.mem ==> i.Call?
    ensures ExecFlow(i, m).value.dirty == m.dirty
  {
  }

  /** Of the data forms only `Ld_B_reg` and `Ld_I_regs` write memory, and
      they mark the dirty map. */
  lemma DataWriters(i: Instruction, m: Machine, rnd: Byte)
    requires WellFormed(m) && !ChangesFlow(i) && ExecData(i, m, rnd).Ok?
    ensures ExecData(i, m, rnd).value.mem != m.mem ==> i.LdBReg? || i.LdIRegs?
    ensures ExecData(i, m, rnd).value.dirty != m.dirty ==> i.LdBReg? || i.LdIRegs?
  {
  }

  /** Division by 64 of a value written as a quotient and an in-range
      remainder. */
  lemma DivMod64(q: nat, r: nat)
    requires r < 64
    ensures (q * 64 + r) / 64 == q && (q * 64 + r) % 64 == r
  {
  }

  /** The pixel the bit at offset `(dx, dy)` of a sprite drawn at `(sx, sy)`
      lands on: `(dx + sx) % 64 + ((dy + sy) % 32) * 64`. */
  function SpritePixel(sx: Byte, sy: Byte, dx: nat, dy: nat): (p: nat)
    ensures p < NUM_PIXELS
  {
    PixelIndex(dx + sx, dy + sy)
  }

  /** The sprite bit at offset `(dx, dy)` from `(sx, sy)` lands on the pixel
      the source indexes as `(dx+sx)%64 + ((dy+sy)%32)*64`, and that pixel's
      offsets recover `(dx, dy)`. */
  lemma {:induction false} OffsetsOfPixel(sx: Byte, sy: Byte, dx: nat, dy: nat)
    requires dx < PIXEL_WIDTH && dy < PIXEL_HEIGHT
    ensures var p := SpritePixel(sx, sy, dx, dy);
      (p % PIXEL_WIDTH - sx) % PIXEL_WIDTH == dx && (p / PIXEL_WIDTH - sy) % PIXEL_HEIGHT == dy
  {
    var c := (sx + dx) % 64;
    var l := (sy + dy) % 32;
    DivMod64(l, c);
    assert c - sx == dx - 64 * ((sx + dx) / 64);
    assert l - sy == dy - 32 * ((sy + dy) / 32);
  }

  /** Every pixel is the pixel of its own offsets from the sprite origin. */
  lemma {:induction false} PixelOfOffsets(sx: Byte, sy: Byte, p: nat)
    requires p < NUM_PIXELS
    ensures SpritePixel(sx, sy, (p % PIXEL_WIDTH - sx) % PIXEL_WIDTH, (p / PIXEL_WIDTH - sy) % PIXEL_HEIGHT) == p
  {
    var dx := (p % 64 - sx) % 64;
    var dy := (p / 64 - sy) % 32;
    assert (sx + dx) % 64 == p % 64;
    assert (sy + dy) % 32 == p / 64;
  }

  /** `Drw`: the pixel at `((Vx+dx)%64, (Vy+dy)%32)` flips iff bit `dx`
      (from the most significant) of sprite row `dy` is set. */
  lemma {:induction false} DrawFlipsSpritePixels(m: Machine, x: RegId, y: RegId, n: Nibble,
                                                 dx: nat, dy: nat, rnd: Byte)
    requires WellFormed(m) && Exec(Drw(x, y, n), m, rnd).Ok? && dx < 8 && dy < n
    ensures m.index + dy < MEMORY_SIZE
    ensures var p := SpritePixel(m.regs[x], m.regs[y], dx, dy);
      Exec(Drw(x, y, n), m, rnd).value.bitmap[p] == (m.bitmap[p] != SpriteBit(m.mem[m.index + dy], dx))
  {
    OffsetsOfPixel(m.regs[x], m.regs[y], dx, dy);
  }

  /** `Drw` leaves every pixel alone that no sprite offset `(dx, dy)` with
      `dx < 8` and `dy < n` reaches. */
  lemma {:induction false} DrawKeepsOtherPixels(m: Machine, x: RegId, y: RegId, n: Nibble,
                                                p: nat, rnd: Byte)
    requires WellFormed(m) && Exec(Drw(x, y, n), m, rnd).Ok? && p < NUM_PIXELS
    requires forall dx, dy :: 0 <= dx < 8 && 0 <= dy < n ==> SpritePixel(m.regs[x], m.regs[y], dx, dy) != p
    ensures Exec(Drw(x, y, n), m, rnd).value.bitmap[p] == m.bitmap[p]
  {
    PixelOfOffsets(m.regs[x], m.regs[y], p);
  }

  /** `Drw`: VF ends 1 iff some lit pixel went dark, and 0 otherwise. */
  lemma {:induction false} DrawReportsCollision(m: Machine, x: RegId, y: RegId, n: Nibble, rnd: Byte)
    requires WellFormed(m) && Exec(Drw(x, y, n), m, rnd).Ok?
    ensures var r := Exec(Drw(x, y, n), m, rnd).value;
      && r.regs[VF] <= 1
      && (r.regs[VF] == 1 <==> exists p :: 0 <= p < NUM_PIXELS && m.bitmap[p] && !r.bitmap[p])
  {
    var r := Exec(Drw(x, y, n), m, rnd).value;
    var rows := SpriteRows(m, n);
    if exists p :: 0 <= p < NUM_PIXELS && m.bitmap[p] && !r.bitmap[p] {
      var p :| 0 <= p < NUM_PIXELS && m.bitmap[p] && !r.bitmap[p];
      assert Covers(rows, m.regs[x], m.regs[y], p);
    }
    if Collides(m.bitmap, rows, m.regs[x], m.regs[y]) {
      var p :| 0 <= p < NUM_PIXELS && m.bitmap[p] && Covers(rows, m.regs[x], m.regs[y], p);
      assert !r.bitmap[p];
    }
  }

  /** Drawing the same sprite twice at the same place restores the bitmap
      (when neither coordinate register is VF, which the first draw
      overwrites). */
  lemma {:induction false} DrawTwiceRestores(m: Machine, x: RegId, y: RegId, n: Nibble, rnd: Byte)
    requires WellFormed(m) && x != VF && y != VF && Exec(Drw(x, y, n), m, rnd).Ok?
    ensures var once := Exec(Drw(x, y, n), m, rnd).value;
      Exec(Drw(x, y, n), once, rnd).Ok? && Exec(Drw(x, y, n), once, rnd).value.bitmap == m.bitmap
  {
    var once := Exec(Drw(x, y, n), m, rnd).value;
    assert SpriteRows(once, n) == SpriteRows(m, n);
    var twice := Exec(Drw(x, y, n), once, rnd).value;
    assert forall p :: 0 <= p < NUM_PIXELS ==> twice.bitmap[p] == m.bitmap[p];
  }

  /** `Jp_v0_imm` always lands inside memory. */
  lemma JumpV0InMemory(m: Machine, target: Word, rnd: Byte)
    requires WellFormed(m)
    ensures Exec(JpV0Imm(target), m, rnd).Ok?
    ensures Exec(JpV0Imm(target), m, rnd).value.pc == (target + m.regs[V0]) % MEMORY_SIZE
  {
  }
}
