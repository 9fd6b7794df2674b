# CHIP-8 virtual machine with a call-tracing JIT, in Dafny

This project models the CHIP-8 interpreter of KAF-2020-CHIP-8 and proves
properties of that model. The machine loads a ROM after a built-in font. It
then runs a fetch, trace, execute, poll and tick loop.

The JIT counts how often each `CALL` target is called. The counter is read
before it is incremented, so the eleventh call on an address, the first to
find the counter at 10, queues the target for compilation. A worker pops the address and counts the
instructions up to the first `RET`. It then compiles a prefix of that block,
truncated at the first instruction the compiler declines, and caches the
function together with the count. Later calls check the block's bytes against
the memory's dirty map, which has one entry per 4-byte granule. A dirty byte
releases the function, clears part of the map and re-queues the address.

The model has two layers:

- **Values.** Functions over a `Machine` value give the meaning of every
  instruction (`Semantics.Exec`), of one loop iteration (`Engine.StepSpec`)
  and of a whole run (`Engine.RunSpec`). Over a `JitState` value they give
  the meaning of `traceCall`, `_compile` and the worker's count (`Jit.Trace`,
  `Jit.CompileFrom`, `Jit.CountToRet`).
- **Objects.** The source's objects, updated in place, are classes:
  - `Cpu` holds the register array;
  - `Memory` holds `buf` and `dirtyMap` as arrays;
  - `Io` holds the key and bitmap arrays;
  - `Section` is a JIT section;
  - `JitEngine` and `Chip8`.

  Their methods are proved to leave exactly the state the value layer
  computes. The lemmas then state what the program promises in terms of the
  value layer.

Modules follow the source files:

| module | models |
|---|---|
| `Types` | `types.cpp` |
| `Mem` | `Memory.h`/`.cpp` |
| `Processor` | `Cpu.h`/`.cpp` |
| `Decoder` | `Parser.cpp` |
| `Semantics` and `Instructions` | the `execute` and `compile` bodies of `Instructions.cpp` |
| `InputOutput` | `IO.cpp` |
| `JitSections` | `JITSection.cpp` |
| `Jit` | `JIT.cpp` |
| `Engine` | `CHIP8.cpp` |
| `HexInput` | the hex decoding of `main.cpp` |

Every exception the source throws is an `Err` value of `Types.Fault`:

| fault | thrown by |
|---|---|
| `OutOfBounds` | `std::array::at`, `Memory::get`/`put` |
| `InvalidInstruction`, `SysExecuted` | the two throwing instruction forms |
| `OddAddress` | `JITSection::getLabelForAddress`, `run` |
| `RomTooBig` | the loader |
| `InvalidHexDigit`, `OddHexLength` | `main.cpp` |

Behaviour of the code that the model keeps as written:

- `parseInstruction` has no `break` after its `0xE` case. An `Ex..` opcode
  that is neither `Ex9E` nor `ExA1` is decoded as the `Fx..` opcode with the
  same low bytes, so `0xE107` is `LD V1, DT`.
- `Add_reg_reg` writes the carry to VF before the addition. The addend read
  through `getRegister(y)` is therefore the fresh carry when `y` is VF.
- `Shl_reg` stores `reg & 0x80` in VF: the flag is `0x80` or `0`, not `1`.
- `Ld_reg_K` with no key pressed undoes the loop's `pc += 2`, so the same
  instruction runs again.
- The `memset` in `traceCall` starts at the granule of the first dirty byte.
  It clears as many dirty-map entries as the block has instructions, and
  fails once that passes the end of the dirty map.

## Model

| member | source | states |
|---|---|---|
| Types.GetNibble | src/types.cpp:3-6 | a nibble extractor returns a value below 16 |
| Types.GetByte | src/types.cpp:8-11 | no contract of its own; SplitOpcode states that the low byte of an opcode is nibble 1 followed by nibble 0 |
| Types.GetAddress | src/types.cpp:13-16 | the 12-bit extractor returns an address inside the 4 KiB memory |
| Types.SplitOpcode | src/types.cpp:3-16 | an opcode is its top nibble followed by its address field; the address field is a nibble followed by the low byte; the low byte is two nibbles |
| Types.FieldsOfOpcode | src/types.cpp:3-16 | the extractors recover each of the four nibbles, the low byte and the address of an opcode assembled from four nibbles |
| Mem.StoreWord | src/Memory.h:14-22 | a little-endian word store reads back as the stored word and leaves every other byte unchanged |
| Mem.LoadWord | src/Memory.h:24-32 | a data word is little-endian: its low byte is the byte at a, its high byte the one at a + 1 |
| Mem.Opcode | src/Memory.cpp:3-6 | an opcode is big-endian: its high byte is the byte at a, its low byte the one at a + 1 |
| Mem.OpcodeIsSwappedWord | src/Memory.cpp:3-6 | the big-endian opcode fetch is the byte-swapped little-endian word read at the same address |
| Mem.StoreThenFetch | src/Memory.cpp:3-6 | fetching as an opcode a word just stored yields the stored word byte-swapped |
| Mem.Memory.constructor | src/Memory.h:34-37 | a fresh memory has all 4096 bytes and all 2048 dirty entries zero |
| Mem.Memory.Put8 | src/Memory.h:14-22 | `put<byte>` fails iff addr + 1 > 4096; on success exactly that byte changes; the dirty map is never touched |
| Mem.Memory.Put16 | src/Memory.h:14-22 | `put<word>` fails iff addr + 2 > 4096; on success the buffer is the little-endian store; the dirty map is never touched |
| Mem.Memory.Get8 | src/Memory.h:24-32 | `get<byte>` fails iff the address is past memory, and otherwise returns that byte |
| Mem.Memory.Get16 | src/Memory.h:24-32 | `get<word>` fails iff addr + 2 > 4096; the low byte of the result is `buf[addr]` and the high byte is `buf[addr+1]` |
| Mem.Memory.GetOpcode | src/Memory.cpp:3-6 | fails with OutOfBounds iff addr + 1 is past memory; otherwise the high byte is `buf[addr]` and the low byte is `buf[addr+1]` |
| Mem.PutGetRoundTrip | src/Memory.h:14-32 | a successful `put<word>` is read back by `get<word>`; every other byte reads as before; the dirty map is unchanged |
| Processor.Cpu.constructor | src/Cpu.h:18-24 | a fresh CPU has every register, I, pc, sp and both timers zero |
| Processor.Cpu.SetRegister | src/Cpu.cpp:8-11 | writing through `getRegister(r)` changes register r to the value and no other register |
| Processor.Cpu.GetRegister | src/Cpu.cpp:8-11 | no contract of its own: it reads register r; SetRegister states the write through the same reference |
| Processor.Cpu.GetRandom | src/Cpu.cpp:13-16 | a draw below 256 comes back unchanged, and every draw keeps its value modulo 256 |
| Decoder.FieldsOf | src/Parser.cpp:3-8 | the address field of any opcode is below 4096 |
| Decoder.Parse | src/Parser.cpp:3-147 | no contract of its own; ParseInvalidIff, ParseRetIff, ParseIsCanonical and ParseEncode state what it returns |
| Decoder.Dispatch | src/Parser.cpp:8-146 | the result is `Invalid` exactly for top nibble 5 or 9 with a nonzero low nibble, 8 with a low nibble above 7 other than E, E with a low byte neither the Ex nor the Fx switch knows, and F with a low byte the Fx switch does not know; `Invalid` keeps the opcode |
| Decoder.ParseArith | src/Parser.cpp:57-89 | the 8xyN switch yields `Invalid` exactly when N is above 7 and not E, by running on into the 9 case; `Invalid` keeps the opcode |
| Decoder.ParseSneRegReg | src/Parser.cpp:85-89 | `Invalid` exactly when the low nibble is nonzero, and otherwise `SNE Vx, Vy` on the opcode's registers |
| Decoder.ParseKeySkip | src/Parser.cpp:103-141 | `Invalid` exactly when the low byte is neither 9E nor A1 nor one of the bytes the Fx switch knows, by running on into the F case |
| Decoder.ParseMisc | src/Parser.cpp:116-146 | `Invalid` exactly when the low byte is not one of the nine Fx bytes, keeping the opcode |
| Decoder.FieldsOfAssemble | src/Parser.cpp:3-8 | the decoder reads back the four nibbles an opcode was assembled from |
| Decoder.ParseAssembled | src/Parser.cpp:3-147 | parsing an opcode assembled from four nibbles dispatches on exactly those nibbles |
| Decoder.ParseAssembledByte | src/Parser.cpp:3-147 | parsing an opcode assembled from a nibble, a register and a byte dispatches on them |
| Decoder.ParseAssembledAddress | src/Parser.cpp:3-147 | parsing an opcode assembled from a nibble and an address dispatches on them |
| Decoder.FieldsOfAssembledAddress | src/Parser.cpp:3-8 | the decoder reads back the top nibble and the address an opcode was assembled from |
| Decoder.ParseEncode | src/Parser.cpp:3-147 | decoding inverts encoding on every canonical instruction |
| Decoder.ParseEncodeControl | src/Parser.cpp:10-101 | the same round trip for the invalid, system, clear, return, jump, call, load-index and jump-plus-V0 forms |
| Decoder.ParseEncodeRegisterForms | src/Parser.cpp:21-101 | the same round trip for the skip, load, add, random and draw forms with register or immediate operands |
| Decoder.ParseEncodeArith | src/Parser.cpp:57-83 | the same round trip for the nine `8xyN` register-register forms |
| Decoder.ParseEncodeMisc | src/Parser.cpp:103-141 | the same round trip for the `Ex`/`Fx` key, timer, index and memory-transfer forms |
| Decoder.ParseKeySkipByte | src/Parser.cpp:103-114 | an Ex opcode decodes through the Ex switch on its low byte |
| Decoder.ParseMiscByte | src/Parser.cpp:116-141 | an Fx opcode decodes through the Fx switch on its low byte |
| Decoder.ParseInvalidIff | src/Parser.cpp:3-147 | `parseInstruction` yields `Invalid` exactly on the undefined opcodes, and `Invalid` keeps the opcode |
| Decoder.ParseRetIff | src/Parser.cpp:10-13 | only 0x00EE decodes to `Ret` |
| Decoder.ParseIsCanonical | src/Parser.cpp:3-147 | every decoded instruction is canonical, so encoding and re-parsing any decoded instruction gives it back |
| Decoder.KeySkipFallsThrough | src/Parser.cpp:103-141 | an `Ex` opcode other than Ex9E/ExA1 decodes exactly as the `Fx` opcode with the same low bytes, because the `0xE` case falls through |
| Decoder.E107IsLdRegDt | src/Parser.cpp:103-125 | 0xE107 decodes as `LD V1, DT` |
| InputOutput.KeyMap | src/IO.cpp:27-44 | every mapped keyboard symbol maps to a keypad key below 16 |
| InputOutput.KeySymbol | src/IO.cpp:27-44 | the symbol bound to keypad key k maps back to k |
| InputOutput.KeyMapBijective | src/IO.cpp:27-44 | each keypad key has a keyboard symbol that maps to it, and a symbol maps to key k only if it is that symbol |
| InputOutput.ApplyEvent | src/IO.cpp:139-154 | handling one event keeps sixteen key slots |
| InputOutput.ApplyEvents | src/IO.cpp:137-155 | handling a batch of events keeps sixteen key slots |
| InputOutput.ApplyEventsSnoc | src/IO.cpp:137-155 | handling one more event after a batch equals handling the longer batch |
| InputOutput.ExitFlagAfterEvents | src/IO.cpp:139-142 | after a batch the exit flag is set iff it was set before or the batch holds a quit event |
| InputOutput.KeysAfterEvents | src/IO.cpp:142-154 | after a batch each key holds the state of the last key-down/up event mapped to it, or its old state if there was none |
| InputOutput.FirstPressedFrom | src/IO.cpp:179-186 | the result is the lowest-index pressed key at or after the start; with none pressed, no key from there on is down |
| InputOutput.FirstPressed | src/IO.cpp:175-189 | the result is the lowest-index pressed key, and there is none iff no key is down |
| InputOutput.Io.constructor | src/IO.cpp:48-49 | a fresh keypad has no key pressed, every pixel dark and no exit requested |
| InputOutput.Io.Clear | src/IO.cpp:107-111 | every pixel goes dark, unless SDL is disabled, in which case nothing changes |
| InputOutput.Io.IsPressed | src/IO.cpp:163-173 | a key reads as pressed iff SDL is enabled, the value is a keypad index and that key is down |
| InputOutput.Io.GetPressedKey | src/IO.cpp:175-189 | returns the lowest pressed key and releases it; with none pressed or SDL disabled it returns nothing and changes nothing |
| InputOutput.Io.PollEvents | src/IO.cpp:132-156 | the key and exit state becomes `ApplyEvents` of the queued events; with SDL disabled nothing changes |
| JitSections.HasLabel | src/JITSection.cpp:17-22 | the label lookup throws iff the address is odd; otherwise a label exists iff the address is an instruction slot of the block |
| JitSections.Section.constructor | src/JITSection.cpp:3-15 | a section creates exactly one label per instruction of the block, in order |
| JitSections.Section.LabelForAddress | src/JITSection.cpp:17-22 | throws OddAddress iff the address is odd; otherwise finds a label iff the address lies in the block, and the label is `(a - start) / 2` |
| JitSections.LabelsIndexSlots | src/JITSection.cpp:17-22 | in a constructed section every slot's label is its instruction index, and distinct slots get distinct labels |
| JitSections.HasLabelAgrees | src/JITSection.cpp:17-22 | `HasLabel` agrees with a section's lookup on both the exception and the label's presence |
| Semantics.ExecRet | src/Instructions.cpp:74-78 | a successful return leaves a well-formed machine with the SDL and exit flags unchanged |
| Semantics.AddWithCarry | src/Instructions.cpp:352-359 | no register other than Vx and VF changes; AddRegRegCarry states the carry and the sum |
| Semantics.SubWithBorrow | src/Instructions.cpp:377-384 | no register other than Vx and VF changes; SubRegRegBorrow states the borrow and the difference |
| Semantics.SubnWithBorrow | src/Instructions.cpp:427-434 | no register other than Vx and VF changes; SubnRegRegBorrow states the borrow and the difference |
| Semantics.ShiftRight | src/Instructions.cpp:402-409 | no register other than Vx and VF changes; ShrRegBit states the bit shifted out |
| Semantics.ShiftLeft | src/Instructions.cpp:457-464 | no register other than Vx and VF changes; ShlRegBit states the bit shifted out |
| Semantics.SkipIf | src/Instructions.cpp:139-145 | a skip changes only pc, and changes the machine iff its condition holds |
| Semantics.Pressed | src/IO.cpp:163-173 | no contract of its own; SkipDirectionKey states what it means for `SKP` and `SKNP` |
| Semantics.MarkDirty | src/Instructions.cpp:909-918 | no contract beyond its length; MarkDirtyKeeps, TouchesIff and MarkDirtyStep state which entries it sets |
| Semantics.MarkDirtyKeeps | src/Instructions.cpp:909-918 | marking never clears an entry, and marking no bytes changes nothing |
| Semantics.StoreRegs | src/Instructions.cpp:909-918 | no contract beyond its length; StoreRegsPlaces states the block it writes |
| Semantics.StoreRegsPlaces | src/Instructions.cpp:909-918 | the bytes from I on are V0..V(count-1) and every other byte keeps its value |
| Semantics.LoadRegs | src/Instructions.cpp:989-997 | no contract beyond its length; LoadRegsPlaces states the block it reads |
| Semantics.LoadRegsPlaces | src/Instructions.cpp:989-997 | V0..V(count-1) are the bytes from I on, and the other registers keep their values |
| Semantics.DrawSprite | src/Instructions.cpp:588-604 | an empty sprite changes nothing; DrawFlipsSpritePixels, DrawKeepsOtherPixels and DrawTwiceRestores state the XOR |
| Semantics.Collides | src/Instructions.cpp:601-602 | a collision needs a sprite row and a lit pixel; DrawReportsCollision ties it to VF |
| Semantics.ExecCall | src/Instructions.cpp:119-124 | a successful call leaves a well-formed machine with the SDL and exit flags unchanged |
| Semantics.CallExec | src/Instructions.cpp:119-124 | executing a `Call` is the push of the return address and the jump |
| Semantics.StoreRegsStep | src/Instructions.cpp:909-918 | storing one more register is one more memory update at I + count |
| Semantics.ExecLdBReg | src/Instructions.cpp:843-853 | a successful BCD store leaves a well-formed machine with the SDL and exit flags unchanged |
| Semantics.ExecLdIRegs | src/Instructions.cpp:909-918 | a successful block store leaves a well-formed machine with the SDL and exit flags unchanged |
| Semantics.ExecLdRegsI | src/Instructions.cpp:989-997 | a successful block load leaves a well-formed machine with the SDL and exit flags unchanged |
| Semantics.PixelIndex | src/Instructions.cpp:597-600 | the wrapped-around pixel index always lies on the 64x32 screen |
| Semantics.Rows | src/Instructions.cpp:589-590 | the sprite has exactly as many rows as were asked for |
| Semantics.ExecDrw | src/Instructions.cpp:577-607 | a successful draw leaves a well-formed machine with the SDL and exit flags unchanged |
| Semantics.ExecLdRegK | src/Instructions.cpp:727-737 | the key wait always succeeds and leaves a well-formed machine with the SDL and exit flags unchanged |
| Semantics.ExecCls | src/Instructions.cpp:42-46 | clearing the screen keeps the machine well-formed |
| Semantics.Exec | src/Instructions.cpp:13-997 | no instruction's `execute` changes the SDL flag or the exit flag, and a successful one leaves a well-formed machine |
| Semantics.ExecFlow | src/Instructions.cpp:13-228 | the same for the control-flow, key and screen forms |
| Semantics.ExecData | src/Instructions.cpp:233-997 | the same for the register, timer, index and memory forms |
| Semantics.AddRegRegCarry | src/Instructions.cpp:352-359 | with neither operand VF: VF is 1 iff Vx + Vy > 255, Vx becomes the sum modulo 256, and no other register changes |
| Semantics.AddRegRegReadsFreshCarry | src/Instructions.cpp:352-359 | with y = VF the addend is the fresh carry: Vx + VF is added with VF already overwritten |
| Semantics.SubRegRegBorrow | src/Instructions.cpp:377-384 | with neither operand VF: VF is 1 iff Vx > Vy, and Vx becomes Vx - Vy modulo 256 |
| Semantics.SubnRegRegBorrow | src/Instructions.cpp:427-434 | with neither operand VF: VF is 1 iff Vy > Vx, and Vx becomes Vy - Vx modulo 256 |
| Semantics.ShrRegBit | src/Instructions.cpp:402-409 | the shifted-out bit lands in VF: old Vx = 2 * new Vx + VF with VF 0 or 1; shifting VF itself leaves 0 |
| Semantics.ShlRegBit | src/Instructions.cpp:457-464 | VF receives the top bit as 0x80 or 0, never 1, and 2 * old Vx = new Vx + 2 * VF; shifting VF itself leaves 0 |
| Semantics.CallThenRet | src/Instructions.cpp:74-124 | a call jumps to the target without marking the dirty map and changes only the two stack bytes; a return right after it restores the machine except for those bytes |
| Semantics.SkipMovesOnlyPc | src/Instructions.cpp:139-206 | a skip either leaves the machine alone or advances pc by one instruction |
| Semantics.SkipPairImm | src/Instructions.cpp:139-175 | `SE Vx, kk` and `SNE Vx, kk` on the same machine never do the same thing |
| Semantics.SkipPairReg | src/Instructions.cpp:200-206 | `SE Vx, Vy` and `SNE Vx, Vy` on the same machine never do the same thing |
| Semantics.SkipPairKey | src/Instructions.cpp:622-670 | `SKP Vx` and `SKNP Vx` on the same machine never do the same thing |
| Semantics.SkipIfDiffers | src/Instructions.cpp:139-145 | a skip and its negation move pc differently |
| Semantics.SkipDirectionImm | src/Instructions.cpp:139-175 | `SE Vx, kk` skips iff Vx = kk and `SNE Vx, kk` iff Vx != kk; otherwise the machine is unchanged |
| Semantics.SkipDirectionReg | src/Instructions.cpp:200-206 | `SE Vx, Vy` skips iff Vx = Vy and `SNE Vx, Vy` iff Vx != Vy; otherwise the machine is unchanged |
| Semantics.SkipDirectionKey | src/Instructions.cpp:622-670 | `SKP Vx` skips iff SDL is enabled and Vx names a keypad key that is down, and `SKNP Vx` iff not |
| Semantics.KeyWaitRepeats | src/Instructions.cpp:727-737 | with no key to take, `LD Vx, K` after the loop's pc += 2 gives back exactly the machine before the step |
| Semantics.KeyWaitTakesLowest | src/Instructions.cpp:727-737 | a key taken by `LD Vx, K` is the lowest pressed one; it lands in Vx and is released |
| Semantics.TouchesIff | src/Instructions.cpp:909-918 | the dirty entries an access touches are exactly the granules of the bytes it covers |
| Semantics.MarkDirtyStep | src/Instructions.cpp:909-918 | marking one more byte sets exactly that byte's granule |
| Semantics.BcdDigits | src/Instructions.cpp:843-853 | the hundreds, tens and ones of Vx go to I, I+1, I+2; they spell Vx; exactly those three granules are marked dirty |
| Semantics.StoreThenLoadRegisters | src/Instructions.cpp:909-997 | `LD [I], Vx` advances I by x + 1; `LD Vx, [I]` from the original I then gives back the stored registers and changes nothing else |
| Semantics.BlockStoreMarksDirty | src/Instructions.cpp:909-918 | `LD [I], Vx` marks exactly the granules of the bytes I..I+x and no others |
| Semantics.MemoryWriters | src/Instructions.cpp:13-997 | only `Call`, `LD B, Vx` and `LD [I], Vx` change memory, and only the last two mark the dirty map |
| Semantics.FlowWriters | src/Instructions.cpp:13-228 | of the control-flow forms only `Call` writes memory, and none marks the dirty map |
| Semantics.DataWriters | src/Instructions.cpp:233-997 | of the data forms only `LD B, Vx` and `LD [I], Vx` write memory or mark the dirty map |
| Semantics.SpritePixel | src/Instructions.cpp:597-600 | the pixel a sprite bit lands on always lies on the screen |
| Semantics.OffsetsOfPixel | src/Instructions.cpp:597-600 | the pixel of offset (dx, dy) lies at column (sx + dx) mod 64 and line (sy + dy) mod 32 |
| Semantics.PixelOfOffsets | src/Instructions.cpp:597-600 | every pixel is the pixel of its own offsets from the sprite origin, so wrap-around reaches every pixel |
| Semantics.DrawFlipsSpritePixels | src/Instructions.cpp:577-607 | the row read for line dy lies in memory, and the pixel under sprite bit (dx, dy) flips iff that bit is set |
| Semantics.DrawKeepsOtherPixels | src/Instructions.cpp:577-607 | a pixel that no sprite bit reaches keeps its value |
| Semantics.DrawReportsCollision | src/Instructions.cpp:577-607 | VF ends as 0 or 1, and as 1 iff some pixel lit before the draw is dark after it |
| Semantics.DrawTwiceRestores | src/Instructions.cpp:577-607 | drawing the same sprite twice at the same place restores the bitmap (coordinates not in VF) |
| Semantics.JumpV0InMemory | src/Instructions.cpp:534-537 | `JP V0, nnn` never fails and lands on (nnn + V0) mod 4096 |
| Instructions.SnapshotWellFormed | src/Cpu.h:18-24 | the three objects, seen as one machine value, form a well-formed machine |
| Instructions.Execute | src/Instructions.cpp:13-997 | `execute` throws iff `Exec` fails, and otherwise leaves the objects in `Exec`'s state, with `getRandom` as `draw & 0xff` |
| Instructions.ExecuteControl | src/Instructions.cpp:13-228 | the same agreement for jumps, calls, returns, skips, `Cls` and the key wait |
| Instructions.ExecuteFlow | src/Instructions.cpp:74-124 | the same agreement for `Ret`, `Jp`, `Call` and `JP V0` |
| Instructions.ExecuteSkip | src/Instructions.cpp:139-206 | every skip succeeds and leaves `Exec`'s state |
| Instructions.ExecuteSeRegImm | src/Instructions.cpp:139-145 | `SE Vx, kk` leaves exactly `Exec`'s state |
| Instructions.ExecuteSneRegImm | src/Instructions.cpp:169-175 | `SNE Vx, kk` leaves exactly `Exec`'s state |
| Instructions.ExecuteSeRegReg | src/Instructions.cpp:200-206 | `SE Vx, Vy` leaves exactly `Exec`'s state |
| Instructions.ExecuteSneRegReg | src/Instructions.cpp:482-488 | `SNE Vx, Vy` leaves exactly `Exec`'s state |
| Instructions.ExecuteSkpReg | src/Instructions.cpp:622-628 | `SKP Vx` leaves exactly `Exec`'s state |
| Instructions.ExecuteSknpReg | src/Instructions.cpp:664-670 | `SKNP Vx` leaves exactly `Exec`'s state |
| Instructions.ExecuteRegisters | src/Instructions.cpp:233-823 | the register, timer and index forms without flags agree with `Exec` |
| Instructions.ExecuteLdRegImm | src/Instructions.cpp:233-236 | `LD Vx, kk` agrees with `Exec` |
| Instructions.ExecuteAddRegImm | src/Instructions.cpp:253-256 | `ADD Vx, kk` agrees with `Exec` (wraps modulo 256, VF untouched) |
| Instructions.ExecuteLdRegReg | src/Instructions.cpp:272-275 | `LD Vx, Vy` agrees with `Exec` |
| Instructions.ExecuteOrRegReg | src/Instructions.cpp:292-295 | `OR Vx, Vy` agrees with `Exec` |
| Instructions.ExecuteAndRegReg | src/Instructions.cpp:312-315 | `AND Vx, Vy` agrees with `Exec` |
| Instructions.ExecuteXorRegReg | src/Instructions.cpp:332-335 | `XOR Vx, Vy` agrees with `Exec` |
| Instructions.ExecuteLdIImm | src/Instructions.cpp:513-516 | `LD I, nnn` agrees with `Exec` |
| Instructions.ExecuteRndRegImm | src/Instructions.cpp:552-555 | `RND Vx, kk` agrees with `Exec` for the given random byte |
| Instructions.ExecuteLdRegDt | src/Instructions.cpp:706-709 | `LD Vx, DT` agrees with `Exec` |
| Instructions.ExecuteLdDtReg | src/Instructions.cpp:752-755 | `LD DT, Vx` agrees with `Exec` |
| Instructions.ExecuteLdStReg | src/Instructions.cpp:773-776 | `LD ST, Vx` agrees with `Exec` |
| Instructions.ExecuteAddIReg | src/Instructions.cpp:794-797 | `ADD I, Vx` agrees with `Exec` (wraps modulo 2^16, VF untouched) |
| Instructions.ExecuteLdFReg | src/Instructions.cpp:819-823 | `LD F, Vx` agrees with `Exec` (I = Vx * 5) |
| Instructions.ExecuteArith | src/Instructions.cpp:352-464 | the flag-setting forms agree with `Exec` |
| Instructions.ExecuteAddRegReg | src/Instructions.cpp:352-359 | `ADD Vx, Vy` agrees with `Exec` |
| Instructions.ExecuteSubRegReg | src/Instructions.cpp:377-384 | `SUB Vx, Vy` agrees with `Exec` |
| Instructions.ExecuteShrReg | src/Instructions.cpp:402-409 | `SHR Vx` agrees with `Exec` |
| Instructions.ExecuteSubnRegReg | src/Instructions.cpp:427-434 | `SUBN Vx, Vy` agrees with `Exec` |
| Instructions.ExecuteShlReg | src/Instructions.cpp:457-464 | `SHL Vx` agrees with `Exec` |
| Instructions.ExecuteLdBReg | src/Instructions.cpp:843-853 | `LD B, Vx` throws iff `Exec` does, and otherwise leaves `Exec`'s state |
| Instructions.StoreDigits | src/Instructions.cpp:843-853 | the digit loop succeeds iff I + 3 <= 4096; it then writes hundreds, tens and ones at I, I+1, I+2 and marks their granules |
| Instructions.ExecuteLdIRegs | src/Instructions.cpp:909-918 | `LD [I], Vx` throws iff `Exec` does, and otherwise leaves `Exec`'s state |
| Instructions.StoreRegisters | src/Instructions.cpp:909-918 | the store loop succeeds iff I + count <= 4096; it then stores V0..V(count-1) from I and marks exactly those bytes' granules |
| Instructions.ExecuteLdRegsI | src/Instructions.cpp:989-997 | `LD Vx, [I]` throws iff `Exec` does, and otherwise leaves `Exec`'s state |
| Instructions.CoversStep | src/Instructions.cpp:589-603 | drawing one more sprite bit reaches exactly its own pixel |
| Instructions.CoversBeforeExtend | src/Instructions.cpp:587-591 | bits already drawn do not depend on sprite rows not yet read |
| Instructions.CoversBeforeAll | src/Instructions.cpp:587-605 | once every bit has been drawn, the drawn set is the whole sprite |
| Instructions.ShiftedTopBit | src/Instructions.cpp:593-596 | after k left shifts of a row byte, its top bit is sprite bit k, and one more shift is the next byte of the loop |
| Instructions.ExecuteDrw | src/Instructions.cpp:577-607 | `DRW Vx, Vy, n` throws iff `Exec` does, and otherwise leaves `Exec`'s state |
| Instructions.DrawRows | src/Instructions.cpp:587-605 | the row loop fails iff a row lies past memory; on success each pixel is flipped iff a sprite bit covers it, and VF records whether a lit pixel was hit |
| Instructions.DrawComplete | src/Instructions.cpp:587-605 | after all rows the bitmap is the sprite XORed in, and the collision flag is `Collides` |
| Instructions.DrawRow | src/Instructions.cpp:593-604 | one row's eight bits, most significant first, extend the flipped pixels and the collision flag by that row |
| Instructions.CompileOutcomeCases | src/Instructions.cpp:18-747 | `Invalid` and `Sys` throw at compile time; the forms that always decline return false; a jump or skip throws iff its target is odd, and otherwise compiles iff the target lies in the block; every other form compiles |
| Instructions.CompileOutcome | src/Instructions.cpp:18-747 | no contract of its own; CompileOutcomeCases states its answer form by form |
| Jit.FirstDirtyFrom | src/JIT.cpp:25-36 | the scan finds the first byte of the range whose granule is dirty; when it finds none, the whole range is clean |
| Jit.ClearGranules | src/JIT.cpp:32 | the `memset` fails iff it would run past the dirty map; otherwise it zeroes exactly `count` entries from the given granule |
| Jit.Trace | src/JIT.cpp:9-56 | `traceCall` keeps every cached block inside memory and every counter a byte |
| Jit.Requeue | src/JIT.cpp:39-49 | the requeue keeps one counter per memory byte |
| Jit.Release | src/JIT.cpp:29 | releasing null changes nothing; releasing a compiled function adds its id and nothing else |
| Jit.TraceHot | src/JIT.cpp:13-49 | from the threshold on, the traced state follows the three scan outcomes (clean, dirty and clearable, dirty past the map) |
| Jit.TraceCold | src/JIT.cpp:50-55 | below the threshold only the counter moves, by one, and null is returned |
| Jit.TraceQueuesOnce | src/JIT.cpp:13-49 | the call that finds the counter at 10 (the eleventh on a fresh address) on a clean block moves the counter to 11 and queues the address; the next clean call queues nothing more and returns the same handle |
| Jit.TraceRepeat | src/JIT.cpp:9-56 | repeated calls of `traceCall` on one address keep every cached block inside memory and every counter a byte |
| Jit.ColdCallsQueueNothing | src/JIT.cpp:11-55 | calls that find the counter below 10 each add one to it and leave the queue, the cache and the dirty map alone |
| Jit.EleventhCallQueues | src/JIT.cpp:11-55 | on a fresh address with a clean block, ten calls queue nothing and the eleventh queues the address |
| Jit.NoDirtyFound | src/JIT.cpp:25-36 | a clean range has no first dirty address |
| Jit.TraceMissingEntry | src/JIT.cpp:20-22 | from the threshold on, a missing entry is inserted as null with count zero |
| Jit.TraceClean | src/JIT.cpp:13-55 | past the threshold, with the block's bytes clean, the call returns the cached function and changes nothing |
| Jit.TraceStale | src/JIT.cpp:25-49 | a dirty granule under the block releases the function, zeroes `count` dirty entries from that granule, increments the counter as a byte, re-queues the address and returns the stale handle |
| Jit.TraceClearsPastBlock | src/JIT.cpp:25-36 | the clear is sized in instructions but measured in granules, so it zeroes dirty entries past the block's last granule |
| Jit.CompileFrom | src/JIT.cpp:68-87 | the loop compiles between k and numInsns instructions, and a block that compiled past k lies inside memory |
| Jit.CompileFromStep | src/JIT.cpp:71-87 | a turn that does not throw has its instruction inside memory and a compile answer |
| Jit.CompileCoversCompiled | src/JIT.cpp:71-87 | every instruction the loop counts as compiled was accepted by its `compile` |
| Jit.CompilesHere | src/JIT.cpp:76-81 | an instruction accepted by its `compile` counts as compiled |
| Jit.CoversExtend | src/JIT.cpp:71-87 | acceptance of instruction k and of those after it covers the range from k |
| Jit.CompileStopsAtRefusal | src/JIT.cpp:81-86 | when the loop stops short of numInsns, the next instruction's `compile` declined |
| Jit.CountToRet | src/JIT.cpp:119-127 | a successful count is at least 1 and ends inside memory |
| Jit.CountToRetFindsRet | src/JIT.cpp:119-127 | the count ends at the first `Ret` from the start address; it throws iff no `Ret` lies between the start and the end of memory |
| Jit.CountToRetStep | src/JIT.cpp:122-127 | past an instruction that is not `Ret`, the count goes on one instruction later |
| Jit.JitEngine.constructor | src/JIT.h:44 | a fresh JIT has every counter zero and nothing cached, queued or released |
| Jit.JitEngine.TraceCall | src/JIT.cpp:9-56 | `traceCall` throws iff `Trace` fails; otherwise its new state and returned handle are `Trace`'s |
| Jit.JitEngine.TraceHotCall | src/JIT.cpp:13-49 | the same agreement for the branch from the threshold on |
| Jit.JitEngine.QueueAgain | src/JIT.cpp:39-49 | the counter increment and the push leave `Requeue`'s state |
| Jit.JitEngine.ScanDirty | src/JIT.cpp:25-36 | the scan loop returns `FirstDirtyFrom` of the dirty map |
| Jit.JitEngine.ClearDirty | src/JIT.cpp:32 | the `memset` succeeds iff `ClearGranules` does, and then leaves its map |
| Jit.JitEngine.Compile | src/JIT.cpp:58-101 | `_compile` throws iff the loop does; it returns null iff fewer than 2 instructions compiled, and otherwise a function that resumes at addr + 2n |
| Jit.JitEngine.CountInsns | src/JIT.cpp:119-127 | the count loop returns `CountToRet` |
| Jit.JitEngine.WorkerIteration | src/JIT.cpp:114-134 | pops the front address; on success the entry holds the count to `Ret` and a handle that is null iff fewer than 2 compiled; other entries are untouched; an exception comes from the count or the compile |
| Engine.Splice | src/CHIP8.cpp:38 | the copy puts the data at the offset and leaves every other byte |
| Engine.LoadedMemory | src/CHIP8.cpp:22-39 | after loading, the font is at 0, the ROM is at 0x200, and every other byte is zero |
| Engine.Poll | src/CHIP8.cpp:76 | polling keeps the machine well-formed |
| Engine.Fetch | src/CHIP8.cpp:53-64 | a fetch that succeeds had an even pc inside memory, decoded the opcode there, and kept the JIT state consistent |
| Engine.StepSpec | src/CHIP8.cpp:51-85 | a successful step keeps the machine well-formed and the JIT consistent, sharing one dirty map |
| Engine.StepSpecOk | src/CHIP8.cpp:57-85 | a step whose fetch and execution succeed ends where the polled, ticked execution result is |
| Engine.StepSpecParts | src/CHIP8.cpp:57-69 | a successful step fetched, traced and executed without a fault |
| Engine.TickPollKeeps | src/CHIP8.cpp:76-85 | polling and ticking change only the keys, the exit flag and the timers |
| Engine.RunSpec | src/CHIP8.cpp:47-97 | a run takes at most one step per input and stops early only on the exit flag; with the flag already set it takes no step |
| Engine.Later | src/CHIP8.cpp:47-97 | counting n more steps keeps the outcome and adds n to the step count |
| Engine.RunTakesStep | src/CHIP8.cpp:51-96 | with inputs left and no exit request, a run takes one step and goes on from its result |
| Engine.RunStepFails | src/CHIP8.cpp:51-69 | a step that throws ends the run with its exception |
| Engine.RunStops | src/CHIP8.cpp:51 | with no inputs left or the exit flag set, the run stops where it is |
| Engine.StepTracesOnlyCalls | src/CHIP8.cpp:59-64 | only a `Call` reaches the JIT: any other step leaves the JIT as it was, except for the shared dirty map, and obtains null; a `Call` step ends in `Trace`'s state for its target and obtains `Trace`'s handle |
| Engine.StepCallSavesNext | src/CHIP8.cpp:68-69 | pc moves past the instruction before it executes, so a `Call` step jumps to the target, raises sp by 2 and leaves the address of the next instruction at the new sp |
| Engine.ExecKeepsPc | src/CHIP8.cpp:68-69 | an instruction that is not a jump, skip, call, return or key wait leaves pc alone |
| Engine.StepFallsThrough | src/CHIP8.cpp:68-69 | a step that runs such a straight-line instruction ends at the next instruction |
| Engine.StepKeyWaitRepeats | src/CHIP8.cpp:68-69 | with no key pressed, a key-wait step succeeds with pc back on the same instruction, registers, memory and JIT unchanged, and null obtained |
| Engine.TickTimers | src/CHIP8.cpp:80-85 | every eighth step each nonzero timer goes down by one; the other steps only count |
| Engine.Tick | src/CHIP8.cpp:80-85 | only the timers change and neither goes up, and a counter below 8 stays below 8; TickTimers states the decrement |
| Engine.StepExitFlag | src/CHIP8.cpp:51-76 | after a step the exit flag is set iff it was set, or SDL works and a quit event was queued |
| Engine.Chip8.constructor | src/CHIP8.cpp:49 | the machine owns the given processor, memory, keypad and JIT, and the clock counter starts at 0 |
| Engine.Chip8.FetchTrace | src/CHIP8.cpp:53-64 | the fetch, decode and trace agree with `Fetch` and leave the processor, memory and keypad untouched |
| Engine.Chip8.TickClock | src/CHIP8.cpp:80-85 | the timer tick leaves `Tick`'s state |
| Engine.Chip8.Step | src/CHIP8.cpp:51-85 | one iteration of `run` throws iff `StepSpec` fails, and otherwise leaves `StepSpec`'s machine, JIT and clock and returns its handle |
| Engine.Chip8.ExecuteAndTick | src/CHIP8.cpp:69-85 | execute, poll and tick agree with `Exec` followed by `Poll` and `Tick`, sharing the dirty map with the JIT |
| Engine.Chip8.PollAndTick | src/CHIP8.cpp:76-85 | poll and tick leave `Tick(Poll(...))`'s state |
| Engine.Chip8.Run | src/CHIP8.cpp:47-97 | `run` throws iff `RunSpec` fails, and otherwise ends in `RunSpec`'s state after the number of steps it returns |
| Engine.CopyBytes | src/CHIP8.cpp:38 | `std::copy` leaves the buffer spliced with the data |
| Engine.Load | src/CHIP8.cpp:22-39 | the constructor throws RomTooBig iff the ROM exceeds 0xE00 bytes; otherwise memory is `LoadedMemory`, the dirty map is clean, sp = 80 and pc = 0x200; the registers, I, the timers and the clock counter are zero; no key is down, the bitmap is dark, the exit flag is clear, the SDL flag is the one given, and the JIT is empty |
| Engine.LoadParts | src/CHIP8.cpp:22-39 | the parts built for a ROM that fits: the font and ROM in memory with a clean dirty map, sp after the font, pc at 0x200, zero registers, I and timers, a keypad with no key down, a dark bitmap, and an empty JIT |
| HexInput.HexLookup | src/main.cpp:39-62 | a digit decodes to the nibble it spells in lower or upper case; any other character throws InvalidHexDigit |
| HexInput.HexLookupInverts | src/main.cpp:39-62 | both spellings of each nibble decode back to it |
| HexInput.Pair | src/main.cpp:75 | the byte `hi << 4 \| lo` has hi as its high nibble and lo as its low nibble |
| HexInput.DecodePairs | src/main.cpp:71-76 | decoding an even-length string gives half as many bytes, or fails with InvalidHexDigit |
| HexInput.DecodePairsFails | src/main.cpp:71-76 | decoding fails iff some character is not a hex digit |
| HexInput.DecodePairsBytes | src/main.cpp:71-76 | output byte i is the pair of input characters 2i and 2i+1 |
| HexInput.DecodePairsUnfolds | src/main.cpp:71-76 | decoding is the first pair followed by the decoding of the rest |
| HexInput.Decode | src/main.cpp:64-78 | an odd-length string throws OddHexLength; otherwise the result is the pairwise decoding |
| HexInput.EncodeHex | src/main.cpp:64-78 | the lower-case encoding that `decodeHex` inverts has two characters per byte |
| HexInput.DecodeEncode | src/main.cpp:64-78 | decoding the encoding of any bytes gives them back |
| HexInput.EncodeDecode | src/main.cpp:64-78 | re-encoding a decoded lower-case string gives the string back |
| HexInput.DecodeHex | src/main.cpp:64-78 | the decoding loop returns `Decode` |
| HexInput.Prepend | src/main.cpp:69-76 | prepending already-decoded bytes keeps success and failure and puts them in front |

## Left out

- Code generation. The asmjit emission inside every `compile` body and inside
  `_compile` is left out, as are the invocation of a compiled function
  (src/CHIP8.cpp:71-74) and the `_jitrt.add` error. Compiled code is a handle
  recording its resume pc and instruction count. Where compiled code would
  behave differently from `execute`, the model follows `execute`.
- Concurrency. The worker thread, the mutexes, the condition variable and
  `_exit` (src/JIT.cpp:4-7, 103-112, 138-146) are left out. One turn of the
  worker with a non-empty queue is `WorkerIteration`, run in isolation.
- Timing: `CYCLE_DURATION`, the clock reads and `usleep`.
- `std::rand` and `std::srand`. The draw is a parameter; `getRandom` keeps its
  low byte.
- SDL. Left out are the window, `draw` and `beep` (only the sound timer is
  modelled) and the `IO` constructor's SDL set-up. Whether SDL failed is the
  `sdlDisabled` parameter, and the event queue `pollEvents` reads is a list
  of events.
- Printing: `printSingleInstruction` and every `operator<<`.
- Everything in src/main.cpp except `hexLookup` and `decodeHex`, i.e. reading
  files, `alarm` and `main`. `solve.py` is not part of this model.
- Engine.Chip8.Run: runs over a finite list of per-step inputs and stops
  when they run out. `run` itself loops until the exit flag is set.
- Instructions.Execute: when an instruction throws, the state it leaves
  behind is not specified. `run` propagates the exception, so that state is
  never used again. The same holds for every `Execute…` method,
  `Engine.Chip8.Step` and `Jit.JitEngine.TraceCall`.
- Jit.ClearGranules: a `memset` past the end of the dirty map is undefined
  behaviour in the source. The model reports it as `OutOfBounds`.
- Jit.JitEngine.Compile: `getLabelForAddress(pc).value()` on a missing label
  cannot happen, because the loop only visits slots of the block. The model
  does not represent the `bad_optional_access` it would throw.
- Jit.JitEngine.WorkerIteration: the count stored in a `short` always fits,
  since it is at most 2048, so no truncation is modelled.
- Types.GetNibble, Types.GetByte, Types.GetAddress: require a shift below 8
  nibbles. A shift of 32 bits or more is undefined behaviour in C++, and the
  decoder only uses shifts 0 to 3.
- Engine.Load: checks the ROM size before copying the font. The result is the
  same, since a throwing constructor leaves no object behind.
- HexInput.Decode: works on bytes rather than `std::string` characters.
