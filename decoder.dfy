/** The instruction forms and the total opcode decoder of src/Parser.cpp. */
module Decoder {
  import opened Types
  import opened Processor

  /** The closed set of decoded instruction forms. `x` is the register in
      nibble 2, `y` the register in nibble 1, `kk` the low byte, `n` the low
      nibble, and addresses are the low 12 bits. */
  datatype Instruction =
    | Invalid(op: Word)
    | Sys(addr: Word)
    | Cls
    | Ret
    | JpImm(target: Word)
    | Call(target: Word)
    | SeRegImm(x: RegId, kk: Byte)
    | SneRegImm(x: RegId, kk: Byte)
    | SeRegReg(x: RegId, y: RegId)
    | LdRegImm(x: RegId, kk: Byte)
    | AddRegImm(x: RegId, kk: Byte)
    | LdRegReg(x: RegId, y: RegId)
    | OrRegReg(x: RegId, y: RegId)
    | AndRegReg(x: RegId, y: RegId)
    | XorRegReg(x: RegId, y: RegId)
    | AddRegReg(x: RegId, y: RegId)
    | SubRegReg(x: RegId, y: RegId)
    | ShrReg(x: RegId)
    | SubnRegReg(x: RegId, y: RegId)
    | ShlReg(x: RegId)
    | SneRegReg(x: RegId, y: RegId)
    | LdIImm(addr: Word)
    | JpV0Imm(target: Word)
    | RndRegImm(x: RegId, kk: Byte)
    | Drw(x: RegId, y: RegId, n: Nibble)
    | SkpReg(x: RegId)
    | SknpReg(x: RegId)
    | LdRegDt(x: RegId)
    | LdRegK(x: RegId)
    | LdDtReg(x: RegId)
    | LdStReg(x: RegId)
    | AddIReg(x: RegId)
    | LdFReg(x: RegId)
    | LdBReg(x: RegId)
    | LdIRegs(x: RegId)
    | LdRegsI(x: RegId)

  /** The operand fields `parseInstruction` reads: the top nibble, `reg1`
      (nibble 2), `reg2` (nibble 1), the low nibble, the low byte and the
      low 12 bits. */
  datatype Fields = Fields(top: Nibble, x: RegId, y: RegId, n: Nibble, kk: Byte, nnn: Word)

  function FieldsOf(op: Word): (f: Fields)
    ensures f.nnn < MEMORY_SIZE
  {
    Fields(GetNibble(op, 3), GetNibble(op, 2), GetNibble(op, 1),
           GetNibble(op, 0), GetByte(op, 0), GetAddress(op, 0))
  }

  /** `parseInstruction`: dispatch on the top nibble. The 8 family falls
      through into the 9 case and the E family into the F case, as the
      missing `break`s after their inner switches make them do. */
  function Parse(op: Word): Instruction
  {
    Dispatch(op, FieldsOf(op))
  }

  /** Only the 5, 8, 9, E and F families have opcodes no form claims, and
      those decode to `Invalid` carrying the opcode. */
  function Dispatch(op: Word, f: Fields): (r: Instruction)
    ensures r.Invalid? <==>
      || ((f.top == 0x5 || f.top == 0x9) && f.n != 0)
      || (f.top == 0x8 && 0x7 < f.n && f.n != 0xE)
      || (f.top == 0xE && f.kk != 0x9E && f.kk != 0xA1 && !IsMiscByte(f.kk))
      || (f.top == 0xF && !IsMiscByte(f.kk))
    ensures r.Invalid? ==> r.op == op
  {
    match f.top
    case 0x0 =>
      if op == 0x00e0 then Cls
      else if op == 0x00ee then Ret
      else Sys(f.nnn)
    case 0x1 => JpImm(f.nnn)
    case 0x2 => Call(f.nnn)
    case 0x3 => SeRegImm(f.x, f.kk)
    case 0x4 => SneRegImm(f.x, f.kk)
    case 0x5 => if f.n != 0 then Invalid(op) else SeRegReg(f.x, f.y)
    case 0x6 => LdRegImm(f.x, f.kk)
    case 0x7 => AddRegImm(f.x, f.kk)
    case 0x8 => ParseArith(op, f)
    case 0x9 => ParseSneRegReg(op, f)
    case 0xA => LdIImm(f.nnn)
    case 0xB => JpV0Imm(f.nnn)
    case 0xC => RndRegImm(f.x, f.kk)
    case 0xD => Drw(f.x, f.y, f.n)
    case 0xE => ParseKeySkip(op, f)
    case _ => ParseMisc(op, f)
  }

  /** The 8xyN switch; an unlisted N leaves the switch and runs on into the
      9 case. */
  function ParseArith(op: Word, f: Fields): (r: Instruction)
    ensures r.Invalid? <==> (0x7 < f.n && f.n != 0xE)
    ensures r.Invalid? ==> r.op == op
  {
    match f.n
    case 0x0 => LdRegReg(f.x, f.y)
    case 0x1 => OrRegReg(f.x, f.y)
    case 0x2 => AndRegReg(f.x, f.y)
    case 0x3 => XorRegReg(f.x, f.y)
    case 0x4 => AddRegReg(f.x, f.y)
    case 0x5 => SubRegReg(f.x, f.y)
    case 0x6 => ShrReg(f.x)
    case 0x7 => SubnRegReg(f.x, f.y)
    case 0xE => ShlReg(f.x)
    case _ => ParseSneRegReg(op, f)
  }

  /** The body of the 9 case: `9xy0`, anything else leaves the switch. */
  function ParseSneRegReg(op: Word, f: Fields): (r: Instruction)
    ensures r.Invalid? <==> f.n != 0
    ensures !r.Invalid? ==> r == SneRegReg(f.x, f.y)
    ensures r.Invalid? ==> r.op == op
  {
    if f.n != 0 then Invalid(op) else SneRegReg(f.x, f.y)
  }

  /** The Ex switch; an unlisted low byte runs on into the F case. */
  function ParseKeySkip(op: Word, f: Fields): (r: Instruction)
    ensures r.Invalid? <==> (f.kk != 0x9E && f.kk != 0xA1 && !IsMiscByte(f.kk))
    ensures r.Invalid? ==> r.op == op
  {
    match f.kk
    case 0x9E => SkpReg(f.x)
    case 0xA1 => SknpReg(f.x)
    case _ => ParseMisc(op, f)
  }

  /** The Fx switch on the low byte. */
  function ParseMisc(op: Word, f: Fields): (r: Instruction)
    ensures r.Invalid? <==> !IsMiscByte(f.kk)
    ensures r.Invalid? ==> r.op == op
  {
    match f.kk
    case 0x07 => LdRegDt(f.x)
    case 0x0A => LdRegK(f.x)
    case 0x15 => LdDtReg(f.x)
    case 0x18 => LdStReg(f.x)
    case 0x1E => AddIReg(f.x)
    case 0x29 => LdFReg(f.x)
    case 0x33 => LdBReg(f.x)
    case 0x55 => LdIRegs(f.x)
    case 0x65 => LdRegsI(f.x)
    case _ => Invalid(op)
  }

  /** The low bytes the Fx switch knows. */
  predicate IsMiscByte(b: Byte)
  {
    b == 0x07 || b == 0x0A || b == 0x15 || b == 0x18 || b == 0x1E
    || b == 0x29 || b == 0x33 || b == 0x55 || b == 0x65
  }

  /** The opcodes no form claims, stated independently of the switch. */
  predicate Undefined(op: Word)
  {
    var top := GetNibble(op, 3);
    var lo := GetNibble(op, 0);
    var b := GetByte(op, 0);
    || ((top == 0x5 || top == 0x9) && lo != 0)
    || (top == 0x8 && 0x7 < lo && lo != 0xE)
    || (top == 0xE && b != 0x9E && b != 0xA1 && !IsMiscByte(b))
    || (top == 0xF && !IsMiscByte(b))
  }

  /** An instruction whose fields are in the range the decoder produces and
      which the decoder would produce again from its encoding. */
  predicate Canonical(i: Instruction)
  {
    match i
    case Invalid(op) => Undefined(op)
    case Sys(a) => a < 0x1000 && a != 0xE0 && a != 0xEE
    case JpImm(t) => t < 0x1000
    case Call(t) => t < 0x1000
    case LdIImm(a) => a < 0x1000
    case JpV0Imm(t) => t < 0x1000
    case _ => true
  }

  /** The opcode with nibbles `t`, `x`, `y`, `n` from the top down. */
  function Assemble(t: nat, x: nat, y: nat, n: nat): Word
    requires t < 16 && x < 16 && y < 16 && n < 16
  {
    t * 0x1000 + x * 0x100 + y * 0x10 + n
  }

  /** `tXkk`: a top nibble, a register and a byte. */
  function AssembleByte(t: nat, x: nat, kk: Byte): Word
    requires t < 16 && x < 16
  {
    Assemble(t, x, kk / 0x10, kk % 0x10)
  }

  /** `tnnn`: a top nibble and a 12-bit address. */
  function AssembleAddress(t: nat, a: Word): Word
    requires t < 16 && a < 0x1000
  {
    t * 0x1000 + a
  }

  /** The standard encoding of each form (register operands a form ignores
      are encoded as V0). */
  function Encode(i: Instruction): Word
    requires Canonical(i)
  {
    match i
    case Invalid(op) => op
    case Sys(a) => AssembleAddress(0x0, a)
    case Cls => Assemble(0x0, 0, 0xE, 0x0)
    case Ret => Assemble(0x0, 0, 0xE, 0xE)
    case JpImm(t) => AssembleAddress(0x1, t)
    case Call(t) => AssembleAddress(0x2, t)
    case SeRegImm(x, kk) => AssembleByte(0x3, x, kk)
    case SneRegImm(x, kk) => AssembleByte(0x4, x, kk)
    case SeRegReg(x, y) => Assemble(0x5, x, y, 0x0)
    case LdRegImm(x, kk) => AssembleByte(0x6, x, kk)
    case AddRegImm(x, kk) => AssembleByte(0x7, x, kk)
    case LdRegReg(x, y) => Assemble(0x8, x, y, 0x0)
    case OrRegReg(x, y) => Assemble(0x8, x, y, 0x1)
    case AndRegReg(x, y) => Assemble(0x8, x, y, 0x2)
    case XorRegReg(x, y) => Assemble(0x8, x, y, 0x3)
    case AddRegReg(x, y) => Assemble(0x8, x, y, 0x4)
    case SubRegReg(x, y) => Assemble(0x8, x, y, 0x5)
    case ShrReg(x) => Assemble(0x8, x, 0, 0x6)
    case SubnRegReg(x, y) => Assemble(0x8, x, y, 0x7)
    case ShlReg(x) => Assemble(0x8, x, 0, 0xE)
    case SneRegReg(x, y) => Assemble(0x9, x, y, 0x0)
    case LdIImm(a) => AssembleAddress(0xA, a)
    case JpV0Imm(t) => AssembleAddress(0xB, t)
    case RndRegImm(x, kk) => AssembleByte(0xC, x, kk)
    case Drw(x, y, n) => Assemble(0xD, x, y, n)
    case SkpReg(x) => AssembleByte(0xE, x, 0x9E)
    case SknpReg(x) => AssembleByte(0xE, x, 0xA1)
    case LdRegDt(x) => AssembleByte(0xF, x, 0x07)
    case LdRegK(x) => AssembleByte(0xF, x, 0x0A)
    case LdDtReg(x) => AssembleByte(0xF, x, 0x15)
    case LdStReg(x) => AssembleByte(0xF, x, 0x18)
    case AddIReg(x) => AssembleByte(0xF, x, 0x1E)
    case LdFReg(x) => AssembleByte(0xF, x, 0x29)
    case LdBReg(x) => AssembleByte(0xF, x, 0x33)
    case LdIRegs(x) => AssembleByte(0xF, x, 0x55)
    case LdRegsI(x) => AssembleByte(0xF, x, 0x65)
  }

  /** The decoder reads back the four nibbles an opcode was assembled from. */
  lemma FieldsOfAssemble(t: nat, x: nat, y: nat, n: nat)
    requires t < 16 && x < 16 && y < 16 && n < 16
    ensures FieldsOf(Assemble(t, x, y, n))
      == Fields(t, x, y, n, y * 0x10 + n, x * 0x100 + y * 0x10 + n)
  {
    FieldsOfOpcode(t, x, y, n);
  }

  /** Parsing an assembled opcode is the dispatch on the very nibbles it was
      assembled from. */
  lemma ParseAssembled(t: nat, x: nat, y: nat, n: nat)
    requires t < 16 && x < 16 && y < 16 && n < 16
    ensures Parse(Assemble(t, x, y, n))
      == Dispatch(Assemble(t, x, y, n), Fields(t, x, y, n, y * 0x10 + n, x * 0x100 + y * 0x10 + n))
  {
    FieldsOfAssemble(t, x, y, n);
  }

  lemma ParseAssembledByte(t: nat, x: nat, kk: Byte)
    requires t < 16 && x < 16
    ensures Parse(AssembleByte(t, x, kk))
      == Dispatch(AssembleByte(t, x, kk), Fields(t, x, kk / 0x10, kk % 0x10, kk, x * 0x100 + kk))
  {
    ParseAssembled(t, x, kk / 0x10, kk % 0x10);
  }

  /** A 12-bit address is its three nibbles. */
  lemma AddressNibbles(a: Word)
    requires a < 0x1000
    ensures a / 0x100 < 16 && a / 0x10 % 0x10 < 16
    ensures (a / 0x10 % 0x10) * 0x10 + a % 0x10 == a % 0x100
    ensures (a / 0x100) * 0x100 + (a / 0x10 % 0x10) * 0x10 + a % 0x10 == a
  {
    var q, lo := a / 0x10, a % 0x10;
    var hi, mid := q / 0x10, q % 0x10;
    assert a == q * 0x10 + lo && q == hi * 0x10 + mid;
    assert a == hi * 0x100 + (mid * 0x10 + lo);
    DivMod256(hi, mid * 0x10 + lo);
  }

  lemma ParseAssembledAddress(t: nat, a: Word)
    requires t < 16 && a < 0x1000
    ensures Parse(AssembleAddress(t, a))
      == Dispatch(AssembleAddress(t, a), Fields(t, a / 0x100, a / 0x10 % 0x10, a % 0x10, a % 0x100, a))
  {
    FieldsOfAssembledAddress(t, a);
  }

  lemma FieldsOfAssembledAddress(t: nat, a: Word)
    requires t < 16 && a < 0x1000
    ensures FieldsOf(AssembleAddress(t, a))
      == Fields(t, a / 0x100, a / 0x10 % 0x10, a % 0x10, a % 0x100, a)
  {
    AddressNibbles(a);
    FieldsOfOpcode(t, a / 0x100, a / 0x10 % 0x10, a % 0x10);
  }

  /** Decoding inverts encoding on every canonical instruction. */
  lemma {:induction false} ParseEncode(i: Instruction)
    requires Canonical(i)
    ensures Parse(Encode(i)) == i
  {
    if IsArith(i) {
      ParseEncodeArith(i);
    } else if IsMisc(i) {
      ParseEncodeMisc(i);
    } else if IsRegisterForm(i) {
      ParseEncodeRegisterForms(i);
    } else {
      ParseEncodeControl(i);
    }
  }

  predicate IsArith(i: Instruction)
  {
    i.LdRegReg? || i.OrRegReg? || i.AndRegReg? || i.XorRegReg? || i.AddRegReg?
    || i.SubRegReg? || i.ShrReg? || i.SubnRegReg? || i.ShlReg?
  }

  predicate IsMisc(i: Instruction)
  {
    i.SkpReg? || i.SknpReg? || i.LdRegDt? || i.LdRegK? || i.LdDtReg? || i.LdStReg?
    || i.AddIReg? || i.LdFReg? || i.LdBReg? || i.LdIRegs? || i.LdRegsI?
  }

  predicate IsRegisterForm(i: Instruction)
  {
    i.SeRegImm? || i.SneRegImm? || i.SeRegReg? || i.LdRegImm? || i.AddRegImm?
    || i.SneRegReg? || i.RndRegImm? || i.Drw?
  }

  lemma {:induction false} ParseEncodeControl(i: Instruction)
    requires Canonical(i) && !IsArith(i) && !IsMisc(i) && !IsRegisterForm(i)
    ensures Parse(Encode(i)) == i
  {
    match i
    case Invalid(op) => ParseInvalidIff(op);
    case Sys(a) =>
      ParseAssembledAddress(0x0, a);
      assert Encode(i) == AssembleAddress(0x0, a);
    case Cls =>
      ParseAssembled(0x0, 0, 0xE, 0x0);
      assert Encode(i) == Assemble(0x0, 0, 0xE, 0x0);
    case Ret =>
      ParseAssembled(0x0, 0, 0xE, 0xE);
      assert Encode(i) == Assemble(0x0, 0, 0xE, 0xE);
    case JpImm(t) =>
      ParseAssembledAddress(0x1, t);
      assert Encode(i) == AssembleAddress(0x1, t);
    case Call(t) =>
      ParseAssembledAddress(0x2, t);
      assert Encode(i) == AssembleAddress(0x2, t);
    case LdIImm(a) =>
      ParseAssembledAddress(0xA, a);
      assert Encode(i) == AssembleAddress(0xA, a);
    case JpV0Imm(t) =>
      ParseAssembledAddress(0xB, t);
      assert Encode(i) == AssembleAddress(0xB, t);
  }

  lemma {:induction false} ParseEncodeRegisterForms(i: Instruction)
    requires Canonical(i) && IsRegisterForm(i)
    ensures Parse(Encode(i)) == i
  {
    match i
    case SeRegImm(x, kk) =>
      ParseAssembledByte(0x3, x, kk);
      assert Encode(i) == AssembleByte(0x3, x, kk);
    case SneRegImm(x, kk) =>
      ParseAssembledByte(0x4, x, kk);
      assert Encode(i) == AssembleByte(0x4, x, kk);
    case SeRegReg(x, y) =>
      ParseAssembled(0x5, x, y, 0x0);
      assert Encode(i) == Assemble(0x5, x, y, 0x0);
    case LdRegImm(x, kk) =>
      ParseAssembledByte(0x6, x, kk);
      assert Encode(i) == AssembleByte(0x6, x, kk);
    case AddRegImm(x, kk) =>
      ParseAssembledByte(0x7, x, kk);
      assert Encode(i) == AssembleByte(0x7, x, kk);
    case SneRegReg(x, y) =>
      ParseAssembled(0x9, x, y, 0x0);
      assert Encode(i) == Assemble(0x9, x, y, 0x0);
    case RndRegImm(x, kk) =>
      ParseAssembledByte(0xC, x, kk);
      assert Encode(i) == AssembleByte(0xC, x, kk);
    case Drw(x, y, n) =>
      ParseAssembled(0xD, x, y, n);
      assert Encode(i) == Assemble(0xD, x, y, n);
  }

  lemma {:induction false} ParseEncodeArith(i: Instruction)
    requires IsArith(i)
    ensures Parse(Encode(i)) == i
  {
    match i
    case LdRegReg(x, y) =>
      ParseAssembled(0x8, x, y, 0x0);
      assert Encode(i) == Assemble(0x8, x, y, 0x0);
    case OrRegReg(x, y) =>
      ParseAssembled(0x8, x, y, 0x1);
      assert Encode(i) == Assemble(0x8, x, y, 0x1);
    case AndRegReg(x, y) =>
      ParseAssembled(0x8, x, y, 0x2);
      assert Encode(i) == Assemble(0x8, x, y, 0x2);
    case XorRegReg(x, y) =>
      ParseAssembled(0x8, x, y, 0x3);
      assert Encode(i) == Assemble(0x8, x, y, 0x3);
    case AddRegReg(x, y) =>
      ParseAssembled(0x8, x, y, 0x4);
      assert Encode(i) == Assemble(0x8, x, y, 0x4);
    case SubRegReg(x, y) =>
      ParseAssembled(0x8, x, y, 0x5);
      assert Encode(i) == Assemble(0x8, x, y, 0x5);
    case ShrReg(x) =>
      ParseAssembled(0x8, x, 0, 0x6);
      assert Encode(i) == Assemble(0x8, x, 0, 0x6);
    case SubnRegReg(x, y) =>
      ParseAssembled(0x8, x, y, 0x7);
      assert Encode(i) == Assemble(0x8, x, y, 0x7);
    case ShlReg(x) =>
      ParseAssembled(0x8, x, 0, 0xE);
      assert Encode(i) == Assemble(0x8, x, 0, 0xE);
  }

  lemma {:induction false} ParseEncodeMisc(i: Instruction)
    requires IsMisc(i)
    ensures Parse(Encode(i)) == i
  {
    match i
    case SkpReg(x) =>
      ParseKeySkipByte(x, 0x9E);
      assert Encode(i) == AssembleByte(0xE, x, 0x9E);
    case SknpReg(x) =>
      ParseKeySkipByte(x, 0xA1);
      assert Encode(i) == AssembleByte(0xE, x, 0xA1);
    case LdRegDt(x) =>
      ParseMiscByte(x, 0x07);
      assert Encode(i) == AssembleByte(0xF, x, 0x07);
    case LdRegK(x) =>
      ParseMiscByte(x, 0x0A);
      assert Encode(i) == AssembleByte(0xF, x, 0x0A);
    case LdDtReg(x) =>
      ParseMiscByte(x, 0x15);
      assert Encode(i) == AssembleByte(0xF, x, 0x15);
    case LdStReg(x) =>
      ParseMiscByte(x, 0x18);
      assert Encode(i) == AssembleByte(0xF, x, 0x18);
    case AddIReg(x) =>
      ParseMiscByte(x, 0x1E);
      assert Encode(i) == AssembleByte(0xF, x, 0x1E);
    case LdFReg(x) =>
      ParseMiscByte(x, 0x29);
      assert Encode(i) == AssembleByte(0xF, x, 0x29);
    case LdBReg(x) =>
      ParseMiscByte(x, 0x33);
      assert Encode(i) == AssembleByte(0xF, x, 0x33);
    case LdIRegs(x) =>
      ParseMiscByte(x, 0x55);
      assert Encode(i) == AssembleByte(0xF, x, 0x55);
    case LdRegsI(x) =>
      ParseMiscByte(x, 0x65);
      assert Encode(i) == AssembleByte(0xF, x, 0x65);
  }

  /** An `Ex` opcode decodes through the `Ex` switch on its low byte. */
  lemma ParseKeySkipByte(x: nat, kk: Byte)
    requires x < 16
    ensures Parse(AssembleByte(0xE, x, kk))
      == ParseKeySkip(AssembleByte(0xE, x, kk), Fields(0xE, x, kk / 0x10, kk % 0x10, kk, x * 0x100 + kk))
  {
    ParseAssembledByte(0xE, x, kk);
  }

  /** An `Fx` opcode decodes through the `Fx` switch on its low byte. */
  lemma ParseMiscByte(x: nat, kk: Byte)
    requires x < 16
    ensures Parse(AssembleByte(0xF, x, kk))
      == ParseMisc(AssembleByte(0xF, x, kk), Fields(0xF, x, kk / 0x10, kk % 0x10, kk, x * 0x100 + kk))
  {
    ParseAssembledByte(0xF, x, kk);
  }

  /** `parseInstruction` yields `Invalid` exactly on the undefined opcodes,
      and then carries the opcode itself. */
  lemma ParseInvalidIff(op: Word)
    ensures Parse(op).Invalid? <==> Undefined(op)
    ensures Parse(op).Invalid? ==> Parse(op).op == op
  {
  }

  /** Only 0x00EE decodes to `Ret`. */
  lemma ParseRetIff(op: Word)
    ensures Parse(op).Ret? <==> op == 0x00EE
  {
    if GetNibble(op, 3) == 0 {
      SplitOpcode(op);
    }
  }

  /** Every decoded instruction is canonical, so decoding is idempotent
      through the encoder. */
  lemma ParseIsCanonical(op: Word)
    ensures Canonical(Parse(op))
    ensures Parse(Encode(Parse(op))) == Parse(op)
  {
    ParseInvalidIff(op);
    if GetNibble(op, 3) == 0 {
      SplitOpcode(op);
    }
    ParseEncode(Parse(op));
  }

  /** The missing `break` of the Ex switch: an Ex opcode other than Ex9E and
      ExA1 decodes exactly as the Fx opcode with the same low 12 bits. */
  lemma KeySkipFallsThrough(op: Word)
    requires GetNibble(op, 3) == 0xE
    requires GetByte(op, 0) != 0x9E && GetByte(op, 0) != 0xA1
    ensures op + 0x1000 < 0x1_0000
    ensures Parse(op).Invalid? <==> Parse(op + 0x1000).Invalid?
    ensures !Parse(op).Invalid? ==> Parse(op) == Parse(op + 0x1000)
  {
    SplitOpcode(op);
    var f := FieldsOf(op);
    assert op == AssembleByte(0xE, f.x, f.kk);
    assert op + 0x1000 == AssembleByte(0xF, f.x, f.kk);
    ParseAssembledByte(0xE, f.x, f.kk);
    ParseAssembledByte(0xF, f.x, f.kk);
  }

  /** A sample of the fall-through: 0xE107 decodes as LD V1, DT. */
  lemma E107IsLdRegDt()
    ensures Parse(0xE107) == LdRegDt(1)
  {
    ParseAssembledByte(0xE, 1, 0x07);
  }
}
