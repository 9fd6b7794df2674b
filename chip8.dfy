/** The machine of src/CHIP8.h and src/CHIP8.cpp: the loader and one
    iteration of the run loop, which fetches, decodes, traces calls for the
    JIT, executes, polls the keyboard and ticks the timers. Pacing, the beep
    and the invocation of a compiled function are not part of this model. */
module Engine {
  import opened Types
  import opened Mem
  import opened Processor
  import opened Decoder
  import opened InputOutput
  import opened Semantics
  import opened Instructions
  import opened Jit

  /** `FONT`: sixteen 5-byte glyphs for the hex digits 0..F. */
  const FONT: seq<Byte> := [
    0xf0, 0x90, 0x90, 0x90, 0xf0,
    0x20, 0x60, 0x20, 0x20, 0x70,
    0xf0, 0x10, 0xf0, 0x80, 0xf0,
    0xf0, 0x10, 0xf0, 0x10, 0xf0,
    0x90, 0x90, 0xf0, 0x10, 0x10,
    0xf0, 0x80, 0xf0, 0x10, 0xf0,
    0xf0, 0x80, 0xf0, 0x90, 0xf0,
    0xf0, 0x10, 0x20, 0x40, 0x40,
    0xf0, 0x90, 0xf0, 0x90, 0xf0,
    0xf0, 0x90, 0xf0, 0x10, 0xf0,
    0xf0, 0x90, 0xf0, 0x90, 0x90,
    0xe0, 0x90, 0xe0, 0x90, 0xe0,
    0xf0, 0x80, 0x80, 0x80, 0xf0,
    0xe0, 0x90, 0x90, 0x90, 0xe0,
    0xf0, 0x80, 0xf0, 0x80, 0xf0,
    0xf0, 0x80, 0xf0, 0x80, 0x80
  ]

  /** `CLOCK_HZ / TIMER_HZ`: the timers tick once every eight steps. */
  const TIMER_HZ: nat := 60
  const CLOCK_HZ: nat := TIMER_HZ * 8
  const CLOCKS_PER_TIMER: nat := CLOCK_HZ / TIMER_HZ

  /** The largest ROM: the memory above `ROM_START`. */
  const MAX_ROM_SIZE: nat := MEMORY_SIZE - ROM_START

  /** `s` with `data` written over it from index `at`. */
  function Splice(s: seq<Byte>, at: nat, data: seq<Byte>): (r: seq<Byte>)
    requires at + |data| <= |s|
    ensures |r| == |s|
    ensures r[at .. at + |data|] == data
    ensures forall k :: 0 <= k < |s| && !(at <= k < at + |data|) ==> r[k] == s[k]
  {
    seq(|s|, k requires 0 <= k < |s| => if at <= k < at + |data| then data[k - at] else s[k])
  }

  /** Memory right after loading `rom`: the font from address 0, the ROM
      from `ROM_START`, zero elsewhere. */
  function LoadedMemory(rom: seq<Byte>): (mem: seq<Byte>)
    requires |rom| <= MAX_ROM_SIZE
    ensures |mem| == MEMORY_SIZE
    ensures mem[FONT_START .. FONT_START + |FONT|] == FONT
    ensures mem[ROM_START .. ROM_START + |rom|] == rom
    ensures forall a :: |FONT| <= a < ROM_START || ROM_START + |rom| <= a < MEMORY_SIZE ==> mem[a] == 0
  {
    Splice(Splice(seq(MEMORY_SIZE, _ => 0), FONT_START, FONT), ROM_START, rom)
  }

  /** The timers after a step, with the clock counter: every
      `CLOCKS_PER_TIMER`-th step each nonzero timer goes down by one and the
      counter starts over. */
  function Tick(m: Machine, clock: nat): (r: (Machine, nat))
    ensures r.0 == m.(dt := r.0.dt, st := r.0.st)
    ensures r.0.dt <= m.dt && r.0.st <= m.st
    ensures clock < CLOCKS_PER_TIMER ==> r.1 < CLOCKS_PER_TIMER
  {
    if clock + 1 == CLOCKS_PER_TIMER then
      (m.(dt := if m.dt > 0 then m.dt - 1 else 0, st := if m.st > 0 then m.st - 1 else 0), 0)
    else (m, clock + 1)
  }

  /** `pollEvents` on the machine state. */
  function Poll(m: Machine, events: seq<Event>): (r: Machine)
    requires WellFormed(m)
    ensures WellFormed(r)
  {
    if m.sdlDisabled then m
    else
      var s := ApplyEvents(Input(m.keys, m.exitFlag), events);
      m.(keys := s.keys, exitFlag := s.exitFlag)
  }

  /** What a step leaves behind and the JIT function it obtained. */
  datatype Stepped = Stepped(m: Machine, jit: JitState, clock: nat, handle: Handle)

  /** The first half of an iteration of `run`: an odd `pc` throws; the
      opcode at `pc` is fetched and decoded; a `Call` is traced for the JIT
      before anything runs, any other instruction obtains no function. */
  function Fetch(m: Machine, j: JitState): (r: Result<(Instruction, Traced)>)
    requires WellFormed(m) && Consistent(j)
    ensures r.Ok? ==> Consistent(r.value.1.state)
    ensures r.Ok? ==> m.pc % 2 == 0 && m.pc + 1 < MEMORY_SIZE && r.value.0 == Parse(Opcode(m.mem, m.pc))
  {
    if m.pc % 2 == 1 then Err(OddAddress)
    else if m.pc + 1 >= MEMORY_SIZE then Err(OutOfBounds)
    else
      var i := Parse(Opcode(m.mem, m.pc));
      if i.Call? then
        match Trace(j, i.target)
        case Err(f) => Err(f)
        case Ok(t) => Ok((i, t))
      else Ok((i, Traced(j, Null)))
  }

  /** One iteration of `run`: fetch and trace; `pc` moves past the
      instruction; the instruction executes; events are polled; the timers
      tick. The JIT's dirty map is the machine's. */
  function StepSpec(m: Machine, j: JitState, clock: nat, events: seq<Event>, rnd: Byte): (r: Result<Stepped>)
    requires WellFormed(m) && Consistent(j) && j.dirty == m.dirty
    ensures r.Ok? ==> WellFormed(r.value.m) && Consistent(r.value.jit) && r.value.jit.dirty == r.value.m.dirty
  {
    match Fetch(m, j)
    case Err(f) => Err(f)
    case Ok((i, t)) =>
      match Exec(i, m.(dirty := t.state.dirty, pc := Wrap16(m.pc + INSN_SIZE)), rnd)
      case Err(f) => Err(f)
      case Ok(e) =>
        var ticked := Tick(Poll(e, events), clock);
        Ok(Stepped(ticked.0, t.state.(dirty := ticked.0.dirty), ticked.1, t.handle))
  }

  /** A step whose fetch and execution succeed ends where the polled,
      ticked machine is, with the traced JIT state. */
  lemma StepSpecOk(m: Machine, j: JitState, clock: nat, events: seq<Event>, rnd: Byte,
                   i: Instruction, t: Traced, e: Machine)
    requires WellFormed(m) && Consistent(j) && j.dirty == m.dirty
    requires Fetch(m, j) == Ok((i, t))
    requires Exec(i, m.(dirty := t.state.dirty, pc := Wrap16(m.pc + INSN_SIZE)), rnd) == Ok(e)
    ensures var ticked := Tick(Poll(e, events), clock);
      StepSpec(m, j, clock, events, rnd) == Ok(Stepped(ticked.0, t.state.(dirty := ticked.0.dirty), ticked.1, t.handle))
  {
  }

  /** A step that succeeds fetched, traced and executed without a fault. */
  lemma StepSpecParts(m: Machine, j: JitState, clock: nat, events: seq<Event>, rnd: Byte)
    requires WellFormed(m) && Consistent(j) && j.dirty == m.dirty
    requires StepSpec(m, j, clock, events, rnd).Ok?
    ensures Fetch(m, j).Ok?
    ensures var (i, t) := Fetch(m, j).value;
      Exec(i, m.(dirty := t.state.dirty, pc := Wrap16(m.pc + INSN_SIZE)), rnd).Ok?
  {
  }

  /** Polling and ticking touch only the keys, the exit flag and the timers. */
  lemma TickPollKeeps(e: Machine, events: seq<Event>, clock: nat)
    requires WellFormed(e)
    ensures var s := Tick(Poll(e, events), clock).0;
      s.pc == e.pc && s.sp == e.sp && s.mem == e.mem
  {
  }

  /** Where a run stops: the machine, the JIT, the clock counter and the
      number of steps taken. */
  datatype Ran = Ran(m: Machine, jit: JitState, clock: nat, steps: nat)

  /** `run`, over the inputs of as many steps as are given (the events SDL
      has queued and the value `std::rand` returns, step by step): the exit
      flag is checked before every step; the run stops when it is set or
      the inputs run out, and an exception in a step ends it. */
  function RunSpec(m: Machine, j: JitState, clock: nat, inputs: seq<(seq<Event>, nat)>): (r: Result<Ran>)
    requires WellFormed(m) && Consistent(j) && j.dirty == m.dirty
    ensures r.Ok? ==> r.value.steps <= |inputs| && (r.value.steps < |inputs| ==> r.value.m.exitFlag)
    ensures r.Ok? && m.exitFlag ==> r.value == Ran(m, j, clock, 0)
    decreases |inputs|
  {
    if |inputs| == 0 || m.exitFlag then Ok(Ran(m, j, clock, 0))
    else
      match StepSpec(m, j, clock, inputs[0].0, Cpu.GetRandom(inputs[0].1))
      case Err(f) => Err(f)
      case Ok(s) => Later(RunSpec(s.m, s.jit, s.clock, inputs[1..]), 1)
  }

  /** A run's outcome counted `n` steps later. */
  function Later(r: Result<Ran>, n: nat): (l: Result<Ran>)
    ensures l.Ok? <==> r.Ok?
    ensures l.Ok? ==> l.value.steps == r.value.steps + n
  {
    match r
    case Err(f) => Err(f)
    case Ok(x) => Ok(x.(steps := x.steps + n))
  }

  /** A run that has inputs left and no exit request takes one step and
      goes on from where that step left the machine. */
  lemma RunTakesStep(m: Machine, j: JitState, clock: nat, inputs: seq<(seq<Event>, nat)>, n: nat, s: Stepped)
    requires WellFormed(m) && Consistent(j) && j.dirty == m.dirty
    requires |inputs| > 0 && !m.exitFlag
    requires StepSpec(m, j, clock, inputs[0].0, Cpu.GetRandom(inputs[0].1)) == Ok(s)
    ensures Later(RunSpec(m, j, clock, inputs), n) == Later(RunSpec(s.m, s.jit, s.clock, inputs[1..]), n + 1)
  {
    var rest := RunSpec(s.m, s.jit, s.clock, inputs[1..]);
    assert RunSpec(m, j, clock, inputs) == Later(rest, 1);
    if rest.Ok? {
      assert Later(Later(rest, 1), n).value == Later(rest, n + 1).value;
    }
  }

  /** A step that throws ends the run with its exception. */
  lemma RunStepFails(m: Machine, j: JitState, clock: nat, inputs: seq<(seq<Event>, nat)>, n: nat)
    requires WellFormed(m) && Consistent(j) && j.dirty == m.dirty
    requires |inputs| > 0 && !m.exitFlag
    requires StepSpec(m, j, clock, inputs[0].0, Cpu.GetRandom(inputs[0].1)).Err?
    ensures Later(RunSpec(m, j, clock, inputs), n).Err?
  {
  }

  /** With no inputs left or the exit flag set, the run stops where it is. */
  lemma RunStops(m: Machine, j: JitState, clock: nat, inputs: seq<(seq<Event>, nat)>, n: nat)
    requires WellFormed(m) && Consistent(j) && j.dirty == m.dirty
    requires |inputs| == 0 || m.exitFlag
    ensures Later(RunSpec(m, j, clock, inputs), n) == Ok(Ran(m, j, clock, n))
  {
  }

  /** The instruction a step runs. */
  function Fetched(m: Machine): Instruction
    requires WellFormed(m) && m.pc + 1 < MEMORY_SIZE
  {
    Parse(Opcode(m.mem, m.pc))
  }

  /** Only a `Call` reaches the JIT: any other instruction leaves the
      counters, the cache, the queue and the released handles as they were
      and yields no function. */
  lemma StepTracesOnlyCalls(m: Machine, j: JitState, clock: nat, events: seq<Event>, rnd: Byte)
    requires WellFormed(m) && Consistent(j) && j.dirty == m.dirty
    requires StepSpec(m, j, clock, events, rnd).Ok?
    ensures m.pc % 2 == 0 && m.pc + 1 < MEMORY_SIZE
    ensures var s := StepSpec(m, j, clock, events, rnd).value;
      !Fetched(m).Call? ==> (s.handle == Null && s.jit == j.(dirty := s.m.dirty))
    ensures var s := StepSpec(m, j, clock, events, rnd).value;
      Fetched(m).Call? ==>
        (&& Trace(j, Fetched(m).target).Ok?
         && s.handle == Trace(j, Fetched(m).target).value.handle
         && s.jit == Trace(j, Fetched(m).target).value.state.(dirty := s.m.dirty))
  {
  }

  /** `pc` moves past the instruction before it executes: a `Call` saves the
      address of the next instruction and jumps. */
  lemma StepCallSavesNext(m: Machine, j: JitState, clock: nat, events: seq<Event>, rnd: Byte)
    requires WellFormed(m) && Consistent(j) && j.dirty == m.dirty
    requires StepSpec(m, j, clock, events, rnd).Ok?
    requires Fetched(m).Call?
    ensures var s := StepSpec(m, j, clock, events, rnd).value.m;
      && s.pc == Fetched(m).target && s.sp == Wrap16(m.sp + INSN_SIZE)
      && LoadWord(s.mem, s.sp) == m.pc + INSN_SIZE
  {
    StepSpecParts(m, j, clock, events, rnd);
    var (i, t) := Fetch(m, j).value;
    var a := m.(dirty := t.state.dirty, pc := Wrap16(m.pc + INSN_SIZE));
    assert i == Fetched(m);
    Wrap16Small(m.pc + INSN_SIZE);
    CallExec(a, i.target, rnd);
    var e := ExecCall(a, i.target).value;
    StepSpecOk(m, j, clock, events, rnd, i, t, e);
    TickPollKeeps(e, events, clock);
  }

  /** An instruction that is not a jump, skip, call, return or key wait
      leaves `pc` alone. */
  lemma ExecKeepsPc(i: Instruction, m: Machine, rnd: Byte)
    requires WellFormed(m) && !IsControl(i)
    ensures Exec(i, m, rnd).Ok? ==> Exec(i, m, rnd).value.pc == m.pc
  {
  }

  /** Such a straight-line instruction ends its step at the next
      instruction. */
  lemma StepFallsThrough(m: Machine, j: JitState, clock: nat, events: seq<Event>, rnd: Byte)
    requires WellFormed(m) && Consistent(j) && j.dirty == m.dirty
    requires StepSpec(m, j, clock, events, rnd).Ok?
    requires !IsControl(Fetched(m))
    ensures StepSpec(m, j, clock, events, rnd).value.m.pc == m.pc + INSN_SIZE
  {
    var (i, t) := Fetch(m, j).value;
    ExecKeepsPc(i, m.(dirty := t.state.dirty, pc := Wrap16(m.pc + INSN_SIZE)), rnd);
  }

  /** The key wait: with no key pressed, the step rewinds `pc`, so the same
      instruction runs again, and nothing but the timers, the exit flag and
      the keys can change. */
  lemma {:induction false} StepKeyWaitRepeats(m: Machine, j: JitState, clock: nat, events: seq<Event>, rnd: Byte)
    requires WellFormed(m) && Consistent(j) && j.dirty == m.dirty
    requires m.pc % 2 == 0 && m.pc + 1 < MEMORY_SIZE && Fetched(m).LdRegK?
    requires m.sdlDisabled || FirstPressed(m.keys).None?
    ensures StepSpec(m, j, clock, events, rnd).Ok?
    ensures var s := StepSpec(m, j, clock, events, rnd).value;
      && s.m.pc == m.pc && s.m.regs == m.regs && s.m.mem == m.mem && s.jit == j && s.handle == Null
  {
    var x := Fetched(m).x;
    var m1 := m.(pc := Wrap16(m.pc + INSN_SIZE));
    assert Exec(LdRegK(x), m1, rnd) == Ok(m) by {
      KeyWaitRepeats(m, x, rnd);
    }
  }

  /** Every `CLOCKS_PER_TIMER`-th step, each nonzero timer goes down by one
      and a zero timer stays zero; on the other steps the timers keep the
      values the instruction left. */
  lemma TickTimers(m: Machine, clock: nat)
    requires clock < CLOCKS_PER_TIMER
    ensures Tick(m, clock).1 == (clock + 1) % CLOCKS_PER_TIMER
    ensures clock + 1 == CLOCKS_PER_TIMER ==>
      Tick(m, clock).0.dt == (if m.dt == 0 then 0 else m.dt - 1)
      && Tick(m, clock).0.st == (if m.st == 0 then 0 else m.st - 1)
    ensures clock + 1 < CLOCKS_PER_TIMER ==> Tick(m, clock).0 == m
  {
  }

  /** The exit flag after a step is set iff it was set, or SDL works and a
      quit event arrived; the instruction never touches it. */
  lemma {:induction false} StepExitFlag(m: Machine, j: JitState, clock: nat, events: seq<Event>, rnd: Byte)
    requires WellFormed(m) && Consistent(j) && j.dirty == m.dirty
    requires StepSpec(m, j, clock, events, rnd).Ok?
    ensures StepSpec(m, j, clock, events, rnd).value.m.exitFlag
      <==> m.exitFlag || (!m.sdlDisabled && Quit in events)
  {
    var (i, t) := Fetch(m, j).value;
    var e := Exec(i, m.(dirty := t.state.dirty, pc := Wrap16(m.pc + INSN_SIZE)), rnd).value;
    assert e.exitFlag == m.exitFlag && e.sdlDisabled == m.sdlDisabled;
    if !m.sdlDisabled {
      ExitFlagAfterEvents(Input(e.keys, e.exitFlag), events);
    }
  }

  /** `CHIP8`: the processor, memory, keypad and screen, and the JIT over
      the same memory, with the run loop's clock counter. */
  class Chip8 {
    const cpu: Cpu
    const memory: Memory
    const io: Io
    const jit: JitEngine
    var clockCounter: nat

    ghost predicate Valid()
      reads this, jit
    {
      && Ready(cpu, memory, io) && jit.Valid() && jit.memory == memory
      && jit.hot != cpu.registers && clockCounter < CLOCKS_PER_TIMER
    }

    /** The machine as values. */
    function MachineState(): Machine
      reads cpu, cpu.registers, memory.buf, memory.dirtyMap, io, io.keys, io.bitmap
    {
      Snapshot(cpu, memory, io)
    }

    constructor (cpu: Cpu, memory: Memory, io: Io, jit: JitEngine)
      ensures this.cpu == cpu && this.memory == memory && this.io == io && this.jit == jit
      ensures clockCounter == 0
    {
      this.cpu := cpu;
      this.memory := memory;
      this.io := io;
      this.jit := jit;
      clockCounter := 0;
    }

    /** The fetch, decode and trace at the head of `run`'s loop body. */
    method FetchTrace() returns (r: Result<(Instruction, Handle)>)
      requires Valid()
      modifies jit, jit.hot, memory.dirtyMap
      ensures Valid()
      ensures unchanged(cpu, cpu.registers, memory.buf, io, io.keys, io.bitmap)
      ensures var spec := Fetch(old(MachineState()), old(jit.State()));
        (r.Ok? <==> spec.Ok?)
        && (r.Ok? ==> spec.value == (r.value.0, Traced(jit.State(), r.value.1)))
    {
      if cpu.pc % 2 == 1 {
        return Err(OddAddress);
      }
      var op := memory.GetOpcode(cpu.pc);
      if op.Err? {
        return Err(op.fault);
      }
      var insn := Parse(op.value);
      if insn.Call? {
        var traced := jit.TraceCall(insn.target);
        if traced.Err? {
          return Err(traced.fault);
        }
        return Ok((insn, traced.value));
      }
      return Ok((insn, Null));
    }

    /** The clock at the end of `run`'s loop body: every
        `CLOCKS_PER_TIMER`-th step the nonzero timers go down by one. */
    method TickClock()
      requires Valid()
      modifies this, cpu
      ensures Valid()
      ensures (MachineState(), clockCounter) == Tick(old(MachineState()), old(clockCounter))
    {
      clockCounter := clockCounter + 1;
      if clockCounter == CLOCKS_PER_TIMER {
        if cpu.delayTimer > 0 {
          cpu.delayTimer := cpu.delayTimer - 1;
        }
        if cpu.soundTimer > 0 {
          cpu.soundTimer := cpu.soundTimer - 1;
        }
        clockCounter := 0;
      }
    }

    /** One iteration of `run`, proved to do what `StepSpec` says; `events`
        are what SDL has queued and `draw` is what `std::rand` returns. The
        returned function is the one a real run would invoke next. */
    method Step(events: seq<Event>, draw: nat) returns (r: Result<Handle>)
      requires Valid()
      modifies this, cpu, cpu.registers, memory.buf, memory.dirtyMap, io, io.keys, io.bitmap, jit, jit.hot
      ensures Valid()
      ensures var spec := StepSpec(old(MachineState()), old(jit.State()), old(clockCounter), events, Cpu.GetRandom(draw));
        (r.Ok? <==> spec.Ok?)
        && (r.Ok? ==> spec.value == Stepped(MachineState(), jit.State(), clockCounter, r.value))
    {
      ghost var m0 := MachineState();
      ghost var j0 := jit.State();
      var fetched := FetchTrace();
      if fetched.Err? {
        return Err(fetched.fault);
      }
      ghost var t := Traced(jit.State(), fetched.value.1);
      assert Fetch(m0, j0) == Ok((fetched.value.0, t));
      cpu.pc := Wrap16(cpu.pc + INSN_SIZE);
      ghost var advanced := MachineState();
      assert advanced == m0.(dirty := t.state.dirty, pc := Wrap16(m0.pc + INSN_SIZE));
      var executed := ExecuteAndTick(fetched.value.0, events, draw);
      if executed.Err? {
        return Err(executed.fault);
      }
      ghost var e := Exec(fetched.value.0, advanced, Cpu.GetRandom(draw)).value;
      StepSpecOk(m0, j0, clockCounter, events, Cpu.GetRandom(draw), fetched.value.0, t, e);
      assert jit.State() == t.state.(dirty := MachineState().dirty);
      return Ok(fetched.value.1);
    }

    /** The rest of a step once `pc` has moved on: execute, poll, tick. */
    method ExecuteAndTick(i: Instruction, events: seq<Event>, draw: nat) returns (r: Result<()>)
      requires Valid()
      modifies this, cpu, cpu.registers, memory.buf, memory.dirtyMap, io, io.keys, io.bitmap
      ensures Valid()
      ensures jit.State() == old(jit.State()).(dirty := MachineState().dirty)
      ensures var e := Exec(i, old(MachineState()), Cpu.GetRandom(draw));
        (r.Ok? <==> e.Ok?)
        && (r.Ok? ==> (MachineState(), clockCounter) == Tick(Poll(e.value, events), old(clockCounter)))
    {
      r := Execute(i, cpu, memory, io, draw);
      if r.Err? {
        return;
      }
      PollAndTick(events);
    }

    /** The end of an iteration of `run`: poll the events, tick the clock. */
    method PollAndTick(events: seq<Event>)
      requires Valid()
      modifies this, cpu, io, io.keys
      ensures Valid()
      ensures (MachineState(), clockCounter) == Tick(Poll(old(MachineState()), events), old(clockCounter))
    {
      ghost var e := MachineState();
      io.PollEvents(events);
      assert MachineState() == Poll(e, events);
      TickClock();
    }

    /** `run`, proved to do what `RunSpec` says; it returns the number of
        steps taken. */
    method Run(inputs: seq<(seq<Event>, nat)>) returns (r: Result<nat>)
      requires Valid()
      modifies this, cpu, cpu.registers, memory.buf, memory.dirtyMap, io, io.keys, io.bitmap, jit, jit.hot
      ensures Valid()
      ensures var spec := RunSpec(old(MachineState()), old(jit.State()), old(clockCounter), inputs);
        (r.Ok? <==> spec.Ok?)
        && (r.Ok? ==> spec.value == Ran(MachineState(), jit.State(), clockCounter, r.value))
    {
      ghost var spec := RunSpec(MachineState(), jit.State(), clockCounter, inputs);
      var n := 0;
      while n < |inputs| && !io.exitFlag
        invariant Valid() && n <= |inputs|
        invariant Later(RunSpec(MachineState(), jit.State(), clockCounter, inputs[n..]), n) == spec
        decreases |inputs| - n
      {
        ghost var m, j, clock := MachineState(), jit.State(), clockCounter;
        var stepped := Step(inputs[n].0, inputs[n].1);
        if stepped.Err? {
          RunStepFails(m, j, clock, inputs[n..], n);
          return Err(stepped.fault);
        }
        assert inputs[n..][1..] == inputs[n + 1..];
        RunTakesStep(m, j, clock, inputs[n..], n, Stepped(MachineState(), jit.State(), clockCounter, stepped.value));
        n := n + 1;
      }
      RunStops(MachineState(), jit.State(), clockCounter, inputs[n..], n);
      return Ok(n);
    }
  }

  /** `std::copy` of `data` into `buf` from index `at`; nothing else of
      `buf` changes. */
  method CopyBytes(data: seq<Byte>, buf: array<Byte>, at: nat)
    requires at + |data| <= buf.Length
    modifies buf
    ensures buf[..] == Splice(old(buf[..]), at, data)
  {
    for k := 0 to |data|
      invariant buf[..] == Splice(old(buf[..]), at, data[..k])
    {
      buf[at + k] := data[k];
    }
    assert data[..|data|] == data;
  }

  /** `CHIP8::CHIP8(rom)`: fresh processor, memory, keypad and JIT; the font
      at 0, `sp` just past it, `pc` at `ROM_START`, and the ROM copied to
      `ROM_START`. A ROM larger than 0xE00 bytes is refused. */
  method Load(rom: seq<Byte>, sdlDisabled: bool) returns (r: Result<Chip8>)
    ensures r.Err? <==> |rom| > MAX_ROM_SIZE
    ensures r.Err? ==> r.fault == RomTooBig
    ensures r.Ok? ==> r.value.Valid()
    ensures r.Ok? ==> var c := r.value;
      && c.memory.buf[..] == LoadedMemory(rom)
      && c.memory.dirtyMap[..] == seq(DIRTY_MAP_SIZE, _ => 0)
      && c.cpu.sp == |FONT| && c.cpu.pc == ROM_START
      && c.cpu.registers[..] == seq(16, _ => 0) && c.cpu.indexRegister == 0
      && c.cpu.delayTimer == 0 && c.cpu.soundTimer == 0
      && c.io.keys[..] == seq(KEYPAD_SIZE, _ => false) && !c.io.exitFlag
      && c.io.bitmap[..] == seq(NUM_PIXELS, _ => false)
      && c.io.sdlDisabled == sdlDisabled
      && c.clockCounter == 0
      && c.jit.State() == JitState(seq(MEMORY_SIZE, _ => 0), map[], [], {}, c.memory.dirtyMap[..])
  {
    if |rom| > MAX_ROM_SIZE {
      return Err(RomTooBig);
    }
    var cpu, memory, io, jit := LoadParts(rom, sdlDisabled);
    var c := new Chip8(cpu, memory, io, jit);
    return Ok(c);
  }

  /** The parts `CHIP8::CHIP8(rom)` builds: fresh processor, memory, keypad
      and JIT; the font at 0, `sp` just past it, `pc` at `ROM_START`, and
      the ROM copied to `ROM_START`. */
  method LoadParts(rom: seq<Byte>, sdlDisabled: bool) returns (cpu: Cpu, memory: Memory, io: Io, jit: JitEngine)
    requires |rom| <= MAX_ROM_SIZE
    ensures Ready(cpu, memory, io) && jit.Valid() && jit.memory == memory && jit.hot != cpu.registers
    ensures memory.buf[..] == LoadedMemory(rom)
    ensures memory.dirtyMap[..] == seq(DIRTY_MAP_SIZE, _ => 0)
    ensures cpu.sp == |FONT| && cpu.pc == ROM_START
    ensures cpu.registers[..] == seq(16, _ => 0) && cpu.indexRegister == 0
    ensures cpu.delayTimer == 0 && cpu.soundTimer == 0
    ensures io.keys[..] == seq(KEYPAD_SIZE, _ => false) && !io.exitFlag
    ensures io.bitmap[..] == seq(NUM_PIXELS, _ => false)
    ensures io.sdlDisabled == sdlDisabled
    ensures jit.State() == JitState(seq(MEMORY_SIZE, _ => 0), map[], [], {}, memory.dirtyMap[..])
  {
    cpu := new Cpu();
    memory := new Memory();
    io := new Io(sdlDisabled);
    jit := new JitEngine(memory);
    CopyBytes(FONT, memory.buf, FONT_START);
    cpu.sp := |FONT|;
    cpu.pc := ROM_START;
    CopyBytes(rom, memory.buf, ROM_START);
  }
}
