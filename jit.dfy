/** The bookkeeping of src/JIT.cpp as a single-threaded state machine: the
    per-address hotness counters, the code cache, the staleness scan over
    the dirty map, the compilation queue, `_compile`'s truncation loop and
    one iteration of the worker. Machine code is not emitted: a compiled
    function is an opaque handle that remembers the pc its epilogue stores. */
module Jit {
  import opened Types
  import opened Mem
  import opened Decoder
  import opened Semantics
  import opened JitSections
  import opened Instructions

  /** The count of calls `traceCall` lets pass before queueing an address:
      the counter is read before it is incremented, so the call that finds
      it at this value, the eleventh on a fresh address, queues it. */
  const HOT_THRESHOLD: nat := 10

  /** A `JITFunction`: null, or code covering `numCompiled` instructions
      whose epilogue sets `pc` to `resumePc`. `id` tells handles apart. */
  datatype Handle = Null | Compiled(id: nat, resumePc: Word, numCompiled: nat)

  /** A `_compiledCode` value: the function and the instruction count that
      the staleness scan covers. */
  datatype Entry = Entry(handle: Handle, count: nat)

  /** The state `traceCall` reads and writes. `released` holds the handles
      given back to the runtime. */
  datatype JitState = JitState(hot: seq<Byte>, cache: map<Word, Entry>, queue: seq<Word>,
                               released: set<nat>, dirty: seq<Byte>)

  /** Every cached block lies inside memory, as the worker's count ensures. */
  predicate CacheInMemory(cache: map<Word, Entry>)
  {
    forall a | a in cache :: a + INSN_SIZE * cache[a].count <= MEMORY_SIZE
  }

  predicate Consistent(s: JitState)
  {
    |s.hot| == MEMORY_SIZE && |s.dirty| == DIRTY_MAP_SIZE && CacheInMemory(s.cache)
  }

  // ---------------------------------------------------------------------
  // `traceCall`.

  /** The first byte address in `[from, end)` whose granule is dirty. */
  function FirstDirtyFrom(dirty: seq<Byte>, from: nat, end: nat): (r: Option<nat>)
    requires end <= MEMORY_SIZE && |dirty| == DIRTY_MAP_SIZE
    ensures r.Some? ==> from <= r.value < end && dirty[Granule(r.value)] != 0
    ensures r.Some? ==> forall i :: from <= i < r.value ==> dirty[Granule(i)] == 0
    ensures r.None? ==> forall i :: from <= i < end ==> dirty[Granule(i)] == 0
    decreases end - from
  {
    if from >= end then None
    else if dirty[Granule(from)] != 0 then Some(from)
    else FirstDirtyFrom(dirty, from + 1, end)
  }

  /** `memset(&dirtyMap[g], 0, count)`: `count` entries from granule `g`; an
      overrun of the map is an error. */
  function ClearGranules(dirty: seq<Byte>, g: nat, count: nat): (r: Result<seq<Byte>>)
    requires |dirty| == DIRTY_MAP_SIZE
    ensures r.Ok? <==> g + count <= DIRTY_MAP_SIZE
    ensures r.Ok? ==> |r.value| == DIRTY_MAP_SIZE
    ensures r.Ok? ==> forall k :: 0 <= k < DIRTY_MAP_SIZE ==>
      r.value[k] == if g <= k < g + count then 0 else dirty[k]
  {
    if g + count > DIRTY_MAP_SIZE then Err(OutOfBounds)
    else Ok(seq(DIRTY_MAP_SIZE, k requires 0 <= k < DIRTY_MAP_SIZE =>
      if g <= k < g + count then 0 else dirty[k]))
  }

  /** `_jitrt.release(fptr)`; releasing null does nothing. */
  function Release(released: set<nat>, h: Handle): (r: set<nat>)
    ensures released <= r
    ensures h.Compiled? ==> h.id in r && r - {h.id} <= released
    ensures h.Null? ==> r == released
  {
    if h.Compiled? then released + {h.id} else released
  }

  /** What `traceCall` leaves behind and returns. */
  datatype Traced = Traced(state: JitState, handle: Handle)

  /** `traceCall(addr)`: below the threshold only the counter moves. From
      the threshold on, the entry is looked up with `operator[]` (inserting
      a null entry), its bytes are scanned for a dirty granule, and on the
      first one the handle is released and `count` dirty entries from that
      granule are cleared. At exactly the threshold, or after a dirty
      granule, the counter is incremented (as a byte) and `addr` is queued.
      The handle found in the cache is returned in every case. */
  function Trace(s: JitState, addr: Word): (r: Result<Traced>)
    requires Consistent(s)
    ensures r.Ok? ==> Consistent(r.value.state)
  {
    if addr >= MEMORY_SIZE then Err(OutOfBounds)
    else if s.hot[addr] < HOT_THRESHOLD then
      Ok(Traced(s.(hot := s.hot[addr := s.hot[addr] + 1]), Null))
    else
      var entry := if addr in s.cache then s.cache[addr] else Entry(Null, 0);
      var looked := s.(cache := s.cache[addr := entry]);
      match FirstDirtyFrom(s.dirty, addr, addr + INSN_SIZE * entry.count)
      case None =>
        if s.hot[addr] == HOT_THRESHOLD then Ok(Traced(Requeue(looked, addr), entry.handle))
        else Ok(Traced(looked, entry.handle))
      case Some(i) =>
        match ClearGranules(s.dirty, Granule(i), entry.count)
        case Err(f) => Err(f)
        case Ok(cleared) =>
          Ok(Traced(Requeue(looked.(released := Release(s.released, entry.handle), dirty := cleared), addr),
                    entry.handle))
  }

  /** `_hotInsns.at(addr)++` and `_compilationQueue.push(addr)`. */
  function Requeue(s: JitState, addr: Word): (r: JitState)
    requires addr < |s.hot|
    ensures |r.hot| == |s.hot|
  {
    s.(hot := s.hot[addr := Wrap8(s.hot[addr] as int + 1)], queue := s.queue + [addr])
  }

  /** `Trace` from the threshold on, one scan outcome at a time. */
  lemma TraceHot(s: JitState, addr: Word, entry: Entry)
    requires Consistent(s) && addr < MEMORY_SIZE && s.hot[addr] >= HOT_THRESHOLD
    requires entry == if addr in s.cache then s.cache[addr] else Entry(Null, 0)
    ensures var looked := s.(cache := s.cache[addr := entry]);
      match FirstDirtyFrom(s.dirty, addr, addr + INSN_SIZE * entry.count)
      case None =>
        Trace(s, addr) == Ok(Traced(if s.hot[addr] == HOT_THRESHOLD then Requeue(looked, addr) else looked, entry.handle))
      case Some(i) =>
        match ClearGranules(s.dirty, Granule(i), entry.count)
        case Err(f) => Trace(s, addr) == Err(f)
        case Ok(cleared) =>
          Trace(s, addr) == Ok(Traced(Requeue(looked.(released := Release(s.released, entry.handle), dirty := cleared), addr),
                                      entry.handle))
  {
  }

  /** Below the threshold `traceCall` counts the call and returns null;
      the cache, the queue, the released set and the dirty map stay. */
  lemma TraceCold(s: JitState, addr: Word)
    requires Consistent(s) && addr < MEMORY_SIZE && s.hot[addr] < HOT_THRESHOLD
    ensures Trace(s, addr).Ok?
    ensures var t := Trace(s, addr).value;
      && t.handle == Null && t.state.hot[addr] == s.hot[addr] + 1
      && (forall a :: 0 <= a < MEMORY_SIZE && a != addr ==> t.state.hot[a] == s.hot[a])
      && t.state.cache == s.cache && t.state.queue == s.queue
      && t.state.released == s.released && t.state.dirty == s.dirty
  {
  }

  /** The call that finds the counter at the threshold queues `addr`
      exactly once: it moves the counter to 11, and a further call with clean
      memory queues nothing more. */
  lemma {:induction false} TraceQueuesOnce(s: JitState, addr: Word)
    requires Consistent(s) && addr < MEMORY_SIZE && s.hot[addr] == HOT_THRESHOLD
    requires addr in s.cache ==> forall i :: addr <= i < addr + INSN_SIZE * s.cache[addr].count ==> s.dirty[Granule(i)] == 0
    ensures Trace(s, addr).Ok?
    ensures var t := Trace(s, addr).value;
      && t.state.queue == s.queue + [addr] && t.state.hot[addr] == HOT_THRESHOLD + 1
      && Trace(t.state, addr).Ok?
      && Trace(t.state, addr).value.state.queue == t.state.queue
      && Trace(t.state, addr).value.handle == t.handle
  {
    var entry := if addr in s.cache then s.cache[addr] else Entry(Null, 0);
    var end := addr + INSN_SIZE * entry.count;
    NoDirtyFound(s.dirty, addr, end);
    var t := Trace(s, addr).value;
    assert t.state.dirty == s.dirty && t.state.cache[addr] == entry;
    NoDirtyFound(t.state.dirty, addr, end);
  }

  /** `k` calls of `traceCall` on `addr` in a row, stopping at the first
      failure. */
  function TraceRepeat(s: JitState, addr: Word, k: nat): (r: Result<JitState>)
    requires Consistent(s)
    ensures r.Ok? ==> Consistent(r.value)
    decreases k
  {
    if k == 0 then Ok(s)
    else
      match Trace(s, addr)
      case Err(f) => Err(f)
      case Ok(t) => TraceRepeat(t.state, addr, k - 1)
  }

  /** Calls below the threshold only count: the queue, the cache and the
      dirty map stay as they were. */
  lemma {:induction false} ColdCallsQueueNothing(s: JitState, addr: Word, k: nat)
    requires Consistent(s) && addr < MEMORY_SIZE && s.hot[addr] + k <= HOT_THRESHOLD
    ensures TraceRepeat(s, addr, k).Ok?
    ensures var u := TraceRepeat(s, addr, k).value;
      && u.queue == s.queue && u.hot[addr] == s.hot[addr] + k
      && u.cache == s.cache && u.dirty == s.dirty
    decreases k
  {
    if k > 0 {
      TraceCold(s, addr);
      var t := Trace(s, addr).value;
      ColdCallsQueueNothing(t.state, addr, k - 1);
    }
  }

  /** On a fresh address with a clean block, ten calls queue nothing and the
      eleventh queues the address. */
  lemma {:induction false} EleventhCallQueues(s: JitState, addr: Word)
    requires Consistent(s) && addr < MEMORY_SIZE && s.hot[addr] == 0
    requires addr in s.cache ==> forall i :: addr <= i < addr + INSN_SIZE * s.cache[addr].count ==> s.dirty[Granule(i)] == 0
    ensures TraceRepeat(s, addr, HOT_THRESHOLD).Ok?
    ensures var u := TraceRepeat(s, addr, HOT_THRESHOLD).value;
      && u.queue == s.queue
      && Trace(u, addr).Ok? && Trace(u, addr).value.state.queue == s.queue + [addr]
  {
    ColdCallsQueueNothing(s, addr, HOT_THRESHOLD);
    var u := TraceRepeat(s, addr, HOT_THRESHOLD).value;
    TraceQueuesOnce(u, addr);
  }

  /** A clean range has no first dirty address. */
  lemma NoDirtyFound(dirty: seq<Byte>, from: nat, end: nat)
    requires end <= MEMORY_SIZE && |dirty| == DIRTY_MAP_SIZE
    requires forall i :: from <= i < end ==> dirty[Granule(i)] == 0
    ensures FirstDirtyFrom(dirty, from, end) == None
  {
  }

  /** From the threshold on, a missing entry is inserted as null with no
      instructions: null comes back and the dirty map is not touched. */
  lemma TraceMissingEntry(s: JitState, addr: Word)
    requires Consistent(s) && addr < MEMORY_SIZE && s.hot[addr] >= HOT_THRESHOLD && addr !in s.cache
    ensures Trace(s, addr).Ok?
    ensures var t := Trace(s, addr).value;
      && t.handle == Null && t.state.cache == s.cache[addr := Entry(Null, 0)]
      && t.state.dirty == s.dirty && t.state.released == s.released
  {
  }

  /** Past the threshold, with every byte of the block in a clean granule,
      the cached handle comes back and nothing but the lookup happens. */
  lemma {:induction false} TraceClean(s: JitState, addr: Word)
    requires Consistent(s) && addr < MEMORY_SIZE && s.hot[addr] > HOT_THRESHOLD && addr in s.cache
    requires forall i :: addr <= i < addr + INSN_SIZE * s.cache[addr].count ==> s.dirty[Granule(i)] == 0
    ensures Trace(s, addr) == Ok(Traced(s, s.cache[addr].handle))
  {
    NoDirtyFound(s.dirty, addr, addr + INSN_SIZE * s.cache[addr].count);
    assert s.cache[addr := s.cache[addr]] == s.cache;
  }

  /** From the threshold on, a dirty granule under the block makes the call
      release the cached handle, clear `count` dirty entries starting at the
      first dirty granule, count the call and queue `addr` again; the
      released handle is still what comes back. */
  lemma {:induction false} TraceStale(s: JitState, addr: Word, i: nat)
    requires Consistent(s) && addr < MEMORY_SIZE && s.hot[addr] >= HOT_THRESHOLD && addr in s.cache
    requires addr <= i < addr + INSN_SIZE * s.cache[addr].count && s.dirty[Granule(i)] != 0
    requires forall j :: addr <= j < i ==> s.dirty[Granule(j)] == 0
    requires Granule(i) + s.cache[addr].count <= DIRTY_MAP_SIZE
    ensures Trace(s, addr).Ok?
    ensures var t := Trace(s, addr).value; var e := s.cache[addr];
      && t.handle == e.handle
      && (e.handle.Compiled? ==> e.handle.id in t.state.released)
      && t.state.queue == s.queue + [addr]
      && t.state.hot[addr] == Wrap8(s.hot[addr] as int + 1)
      && t.state.cache == s.cache
      && (forall k :: 0 <= k < DIRTY_MAP_SIZE ==>
            t.state.dirty[k] == if Granule(i) <= k < Granule(i) + e.count then 0 else s.dirty[k])
  {
    var e := s.cache[addr];
    var f := FirstDirtyFrom(s.dirty, addr, addr + INSN_SIZE * e.count);
    assert f == Some(i);
    assert s.cache[addr := e] == s.cache;
  }

  /** The clear is measured in granules but sized in instructions: a block
      of two or more instructions at a granule boundary whose first granule
      is dirty loses the dirty entry of granule `Granule(addr) + count - 1`,
      which lies past the block's last granule. */
  lemma {:induction false} TraceClearsPastBlock(s: JitState, addr: Word)
    requires Consistent(s) && addr < MEMORY_SIZE && s.hot[addr] >= HOT_THRESHOLD && addr in s.cache
    requires addr % GRANULE == 0 && s.cache[addr].count >= 2 && s.dirty[Granule(addr)] != 0
    requires Granule(addr) + s.cache[addr].count <= DIRTY_MAP_SIZE
    ensures var last := Granule(addr) + s.cache[addr].count - 1;
      && last > Granule(addr + INSN_SIZE * s.cache[addr].count - 1)
      && Trace(s, addr).Ok? && Trace(s, addr).value.state.dirty[last] == 0
  {
    var n := s.cache[addr].count;
    TraceStale(s, addr, addr);
    DivMod4(addr / GRANULE, 0);
    DivMod4(addr / GRANULE + (2 * n - 1) / GRANULE, (2 * n - 1) % GRANULE);
  }

  // ---------------------------------------------------------------------
  // `_compile` and the worker.

  /** The instruction whose opcode is at `p`. */
  function InsnAt(mem: seq<Byte>, p: nat): Instruction
    requires p + INSN_SIZE <= |mem|
  {
    Parse(Opcode(mem, p))
  }

  /** The loop of `_compile(start, numInsns)` from instruction `k`, at `pc`:
      bind the label (present, as `pc` lies in the block, unless `pc` is
      odd), fetch, parse, and stop at the first `compile` that declines. The
      result is `numCompiled`; the instructions it covers lie in memory. */
  function CompileFrom(mem: seq<Byte>, start: Word, numInsns: Word, pc: Word, k: nat): (r: Result<nat>)
    requires |mem| == MEMORY_SIZE && k <= numInsns && pc == start + INSN_SIZE * k
    ensures r.Ok? ==> k <= r.value <= numInsns
    ensures r.Ok? && r.value > k ==> start + INSN_SIZE * r.value <= MEMORY_SIZE
    decreases numInsns - k
  {
    if k == numInsns then Ok(k)
    else match HasLabel(start, numInsns, pc)
      case Err(f) => Err(f)
      case Ok(_) =>
        if pc + 1 >= MEMORY_SIZE then Err(OutOfBounds)
        else match CompileOutcome(InsnAt(mem, pc), start, numInsns, pc + INSN_SIZE)
          case Err(f) => Err(f)
          case Ok(compiled) =>
            if !compiled then Ok(k)
            else CompileFrom(mem, start, numInsns, pc + INSN_SIZE, k + 1)
  }

  /** Instruction `j` of the block at `start` lies in memory, and its
      `compile` returns `outcome`. */
  predicate CompilesAs(mem: seq<Byte>, start: Word, numInsns: Word, j: nat, outcome: bool)
    requires |mem| == MEMORY_SIZE
  {
    var p := start + INSN_SIZE * j;
    p + INSN_SIZE <= MEMORY_SIZE && CompileOutcome(InsnAt(mem, p), start, numInsns, p + INSN_SIZE) == Ok(outcome)
  }

  /** One turn of `_compile` that does not throw: the instruction lies in
      memory and its `compile` answers; a yes moves on to the next
      instruction, a no stops the count here. */
  lemma CompileFromStep(mem: seq<Byte>, start: Word, numInsns: Word, pc: Word, k: nat)
    requires |mem| == MEMORY_SIZE && k < numInsns && pc == start + INSN_SIZE * k
    requires CompileFrom(mem, start, numInsns, pc, k).Ok?
    ensures pc + INSN_SIZE <= MEMORY_SIZE
    ensures CompileOutcome(InsnAt(mem, pc), start, numInsns, pc + INSN_SIZE).Ok?
    ensures var o := CompileOutcome(InsnAt(mem, pc), start, numInsns, pc + INSN_SIZE).value;
      CompileFrom(mem, start, numInsns, pc, k)
        == if o then CompileFrom(mem, start, numInsns, pc + INSN_SIZE, k + 1) else Ok(k)
  {
  }

  /** Every instruction `_compile` counts compiled. */
  lemma {:induction false} CompileCoversCompiled(mem: seq<Byte>, start: Word, numInsns: Word, pc: Word, k: nat)
    requires |mem| == MEMORY_SIZE && k <= numInsns && pc == start + INSN_SIZE * k
    ensures var r := CompileFrom(mem, start, numInsns, pc, k);
      r.Ok? ==> forall j :: k <= j < r.value ==> CompilesAs(mem, start, numInsns, j, true)
    decreases numInsns - k
  {
    var r := CompileFrom(mem, start, numInsns, pc, k);
    if k < numInsns && r.Ok? {
      CompileFromStep(mem, start, numInsns, pc, k);
      if CompileOutcome(InsnAt(mem, pc), start, numInsns, pc + INSN_SIZE) == Ok(true) {
        CompileCoversCompiled(mem, start, numInsns, pc + INSN_SIZE, k + 1);
        assert r == CompileFrom(mem, start, numInsns, pc + INSN_SIZE, k + 1);
        CompilesHere(mem, start, numInsns, pc, k);
        CoversExtend(mem, start, numInsns, k, r.value);
      }
    }
  }

  /** Instruction `k` at `pc` compiled. */
  lemma CompilesHere(mem: seq<Byte>, start: Word, numInsns: Word, pc: Word, k: nat)
    requires |mem| == MEMORY_SIZE && pc == start + INSN_SIZE * k && pc + INSN_SIZE <= MEMORY_SIZE
    requires CompileOutcome(InsnAt(mem, pc), start, numInsns, pc + INSN_SIZE) == Ok(true)
    ensures CompilesAs(mem, start, numInsns, k, true)
  {
  }

  /** Instructions `k` to `n` compiled when `k` and those after it did. */
  lemma CoversExtend(mem: seq<Byte>, start: Word, numInsns: Word, k: nat, n: nat)
    requires |mem| == MEMORY_SIZE && CompilesAs(mem, start, numInsns, k, true)
    requires forall j :: k + 1 <= j < n ==> CompilesAs(mem, start, numInsns, j, true)
    ensures forall j :: k <= j < n ==> CompilesAs(mem, start, numInsns, j, true)
  {
  }

  /** `_compile` truncates at the first refusal: when it stops short of the
      block, the next instruction declined (rather than threw). */
  lemma {:induction false} CompileStopsAtRefusal(mem: seq<Byte>, start: Word, numInsns: Word, pc: Word, k: nat)
    requires |mem| == MEMORY_SIZE && k <= numInsns && pc == start + INSN_SIZE * k
    ensures var r := CompileFrom(mem, start, numInsns, pc, k);
      r.Ok? && r.value < numInsns ==> CompilesAs(mem, start, numInsns, r.value, false)
    decreases numInsns - k
  {
    var r := CompileFrom(mem, start, numInsns, pc, k);
    if k < numInsns && r.Ok? {
      CompileFromStep(mem, start, numInsns, pc, k);
      if CompileOutcome(InsnAt(mem, pc), start, numInsns, pc + INSN_SIZE) == Ok(true) {
        CompileStopsAtRefusal(mem, start, numInsns, pc + INSN_SIZE, k + 1);
      } else {
        assert CompilesAs(mem, start, numInsns, k, false);
      }
    }
  }

  /** The opcode at `p` is the one `parseInstruction` turns into `Ret`
      (see `Decoder.ParseRetIff`). */
  predicate RetAt(mem: seq<Byte>, p: nat)
    requires p + INSN_SIZE <= |mem|
  {
    Opcode(mem, p) == 0x00EE
  }

  /** The worker's count from `a`: instructions up to and including the
      first `Ret`, failing when the fetch leaves memory first. The test on
      the parsed instruction is `RetAt`, by `Decoder.ParseRetIff`. */
  function CountToRet(mem: seq<Byte>, a: nat): (r: Result<nat>)
    requires |mem| == MEMORY_SIZE
    ensures r.Ok? ==> 1 <= r.value && a + INSN_SIZE * r.value <= MEMORY_SIZE
    decreases MEMORY_SIZE - a
  {
    if a + 1 >= MEMORY_SIZE then Err(OutOfBounds)
    else if RetAt(mem, a) then Ok(1)
    else match CountToRet(mem, a + INSN_SIZE)
      case Err(f) => Err(f)
      case Ok(n) => Ok(n + 1)
  }

  /** The count ends at the first `Ret` from `a`; it fails exactly when no
      `Ret` lies between `a` and the end of memory. */
  lemma {:induction false} CountToRetFindsRet(mem: seq<Byte>, a: nat)
    requires |mem| == MEMORY_SIZE
    ensures var r := CountToRet(mem, a);
      r.Ok? ==> RetAt(mem, a + INSN_SIZE * (r.value - 1))
    ensures var r := CountToRet(mem, a);
      r.Ok? ==> forall p :: a <= p < a + INSN_SIZE * (r.value - 1) && (p - a) % 2 == 0 ==> !RetAt(mem, p)
    ensures CountToRet(mem, a).Err? ==>
      forall p :: a <= p && p + INSN_SIZE <= MEMORY_SIZE && (p - a) % 2 == 0 ==> !RetAt(mem, p)
    decreases MEMORY_SIZE - a
  {
    if a + 1 < MEMORY_SIZE && !RetAt(mem, a) {
      CountToRetFindsRet(mem, a + INSN_SIZE);
      var rest := CountToRet(mem, a + INSN_SIZE);
      if rest.Ok? {
        var n := rest.value;
        assert CountToRet(mem, a) == Ok(n + 1);
        assert a + INSN_SIZE * (n + 1 - 1) == a + INSN_SIZE + INSN_SIZE * (n - 1);
      }
    }
  }

  /** Past an instruction that is not `Ret`, the count goes on one
      instruction further, and `n` instructions already made add up. */
  lemma CountToRetStep(mem: seq<Byte>, a: nat, n: nat)
    requires |mem| == MEMORY_SIZE && a + 1 < MEMORY_SIZE && !RetAt(mem, a)
    ensures Plus(n, CountToRet(mem, a)) == Plus(n + 1, CountToRet(mem, a + INSN_SIZE))
  {
  }

  /** A count of `n` instructions already made, added to a count still to
      make. */
  function Plus(n: nat, rest: Result<nat>): Result<nat>
  {
    match rest
    case Err(f) => Err(f)
    case Ok(m) => Ok(n + m)
  }

  /** `JIT`: the counters, the code cache, the queue and the released
      handles, over the machine's `Memory`. */
  class JitEngine {
    const memory: Memory
    const hot: array<Byte>
    var cache: map<Word, Entry>
    var queue: seq<Word>
    var released: set<nat>
    var nextId: nat

    ghost predicate Valid()
      reads this
    {
      && memory.Valid() && hot.Length == MEMORY_SIZE
      && hot != memory.buf && hot != memory.dirtyMap
      && CacheInMemory(cache)
    }

    function State(): (s: JitState)
      reads this, hot, memory.dirtyMap
    {
      JitState(hot[..], cache, queue, released, memory.dirtyMap[..])
    }

    /** Every counter zero, nothing cached or queued. */
    constructor (memory: Memory)
      requires memory.Valid()
      ensures Valid() && this.memory == memory && fresh(hot)
      ensures hot[..] == seq(MEMORY_SIZE, _ => 0)
      ensures cache == map[] && queue == [] && released == {}
    {
      this.memory := memory;
      hot := new Byte[MEMORY_SIZE](_ => 0);
      cache := map[];
      queue := [];
      released := {};
      nextId := 0;
    }

    /** `traceCall(addr)`, proved to do what `Trace` says. */
    method TraceCall(addr: Word) returns (r: Result<Handle>)
      requires Valid()
      modifies this, hot, memory.dirtyMap
      ensures Valid()
      ensures Trace(old(State()), addr).Ok? <==> r.Ok?
      ensures r.Ok? ==> Trace(old(State()), addr).value == Traced(State(), r.value)
    {
      if addr >= hot.Length {
        return Err(OutOfBounds);
      }
      var invocations := hot[addr];
      if invocations >= HOT_THRESHOLD {
        r := TraceHotCall(addr);
      } else {
        ghost var s0 := State();
        hot[addr] := hot[addr] + 1;
        assert State() == s0.(hot := s0.hot[addr := s0.hot[addr] + 1]);
        r := Ok(Null);
      }
    }

    /** The branch of `traceCall` from the threshold on: look the entry up
        (inserting a null one), scan its instructions' granules, and on a
        dirty one release, clear and queue again. */
    method TraceHotCall(addr: Word) returns (r: Result<Handle>)
      requires Valid() && addr < MEMORY_SIZE && hot[addr] >= HOT_THRESHOLD
      modifies this, hot, memory.dirtyMap
      ensures Valid()
      ensures Trace(old(State()), addr).Ok? <==> r.Ok?
      ensures r.Ok? ==> Trace(old(State()), addr).value == Traced(State(), r.value)
    {
      ghost var s0 := State();
      var shouldCompile := hot[addr] == HOT_THRESHOLD;
      if addr !in cache {
        cache := cache[addr := Entry(Null, 0)];
      }
      var entry := cache[addr];
      assert entry == (if addr in s0.cache then s0.cache[addr] else Entry(Null, 0));
      TraceHot(s0, addr, entry);
      assert cache == s0.cache[addr := entry];
      ghost var looked := s0.(cache := cache);
      assert State() == looked;
      var fptr := entry.handle;
      var end := addr + INSN_SIZE * entry.count;
      var dirty := ScanDirty(addr, end);
      assert dirty == FirstDirtyFrom(s0.dirty, addr, addr + INSN_SIZE * entry.count);
      if dirty.Some? {
        released := Release(released, fptr);
        var ok := ClearDirty(Granule(dirty.value), entry.count);
        if !ok {
          return Err(OutOfBounds);
        }
        shouldCompile := true;
        assert State() == looked.(released := Release(s0.released, entry.handle), dirty := memory.dirtyMap[..]);
      }
      if shouldCompile {
        QueueAgain(addr);
      }
      return Ok(fptr);
    }

    /** `_hotInsns.at(addr)++` (a byte) and the push onto the compilation
        queue. */
    method QueueAgain(addr: Word)
      requires Valid() && addr < MEMORY_SIZE
      modifies this`queue, hot
      ensures Valid()
      ensures State() == Requeue(old(State()), addr)
    {
      hot[addr] := Wrap8(hot[addr] as int + 1);
      queue := queue + [addr];
    }

    /** The scan of `traceCall`: the first byte of `[addr, end)` whose
        granule is dirty. */
    method ScanDirty(addr: Word, end: nat) returns (found: Option<nat>)
      requires Valid() && end <= MEMORY_SIZE
      ensures found == FirstDirtyFrom(memory.dirtyMap[..], addr, end)
    {
      var i: nat := addr;
      while i < end
        invariant addr <= i && (addr <= end ==> i <= end)
        invariant FirstDirtyFrom(memory.dirtyMap[..], addr, end) == FirstDirtyFrom(memory.dirtyMap[..], i, end)
      {
        if memory.dirtyMap[i / GRANULE] != 0 {
          return Some(i);
        }
        i := i + 1;
      }
      return None;
    }

    /** The `memset` of `traceCall`. */
    method ClearDirty(g: nat, count: nat) returns (ok: bool)
      requires Valid()
      modifies memory.dirtyMap
      ensures ok <==> ClearGranules(old(memory.dirtyMap[..]), g, count).Ok?
      ensures ok ==> memory.dirtyMap[..] == ClearGranules(old(memory.dirtyMap[..]), g, count).value
    {
      if g + count > memory.dirtyMap.Length {
        return false;
      }
      for k := g to g + count
        invariant forall j :: 0 <= j < DIRTY_MAP_SIZE ==>
          memory.dirtyMap[j] == if g <= j < k then 0 else old(memory.dirtyMap[j])
      {
        memory.dirtyMap[k] := 0;
      }
      return true;
    }

    /** `_compile(addr, numInsns)`: the truncation loop over a fresh section,
        then the resume pc, and no function for fewer than two instructions.
        The loop stops exactly where `CompileFrom` does. */
    method Compile(addr: Word, numInsns: Word) returns (r: Result<Handle>)
      requires Valid()
      modifies this`nextId
      ensures CompileFrom(memory.buf[..], addr, numInsns, addr, 0).Ok? <==> r.Ok?
      ensures r.Ok? ==> var n := CompileFrom(memory.buf[..], addr, numInsns, addr, 0).value;
        && (r.value.Null? <==> n < 2)
        && (r.value.Compiled? ==> r.value == Compiled(old(nextId), addr + INSN_SIZE * n, n))
    {
      var section := new Section(addr, numInsns);
      ghost var mem := memory.buf[..];
      var currentPC: Word := addr;
      var numCompiled := 0;
      while numCompiled < numInsns
        invariant numCompiled <= numInsns && currentPC == addr + INSN_SIZE * numCompiled
        invariant CompileFrom(mem, addr, numInsns, addr, 0) == CompileFrom(mem, addr, numInsns, currentPC, numCompiled)
      {
        var lookup := section.LabelForAddress(currentPC);
        if lookup.Err? {
          return Err(lookup.fault);
        }
        assert lookup.value.Some?;
        var op := memory.GetOpcode(currentPC);
        if op.Err? {
          return Err(op.fault);
        }
        var insn := Parse(op.value);
        assert insn == InsnAt(mem, currentPC);
        currentPC := currentPC + INSN_SIZE;
        var compiled := CompileOutcome(insn, section.start, section.numInsns, currentPC);
        if compiled.Err? {
          return Err(compiled.fault);
        }
        if !compiled.value {
          currentPC := currentPC - INSN_SIZE;
          break;
        }
        numCompiled := numCompiled + 1;
      }
      if numCompiled < 2 {
        return Ok(Null);
      }
      r := Ok(Compiled(nextId, currentPC, numCompiled));
      nextId := nextId + 1;
    }

    /** The worker's count loop: fetch and parse from `addr` on, stopping
        after the first `Ret`. */
    method CountInsns(addr: Word) returns (r: Result<nat>)
      requires memory.Valid()
      ensures r == CountToRet(memory.buf[..], addr)
    {
      ghost var mem := memory.buf[..];
      var numInsns := 0;
      var currAddr: Word := addr;
      while true
        invariant currAddr == addr + INSN_SIZE * numInsns
        invariant CountToRet(mem, addr) == Plus(numInsns, CountToRet(mem, currAddr))
        decreases MEMORY_SIZE - currAddr
      {
        numInsns := numInsns + 1;
        var op := memory.GetOpcode(currAddr);
        if op.Err? {
          assert CountToRet(mem, currAddr) == Err(OutOfBounds);
          return Err(op.fault);
        }
        ParseRetIff(op.value);
        if Parse(op.value).Ret? {
          assert CountToRet(mem, currAddr) == Ok(1);
          break;
        }
        CountToRetStep(mem, currAddr, numInsns - 1);
        currAddr := currAddr + INSN_SIZE;
      }
      return Ok(numInsns);
    }

    /** One iteration of `_JITThreadLoop` once the queue is non-empty: pop
        the front, count up to the first `Ret`, compile, and publish the
        function and the count, replacing any entry, even a null function. */
    method WorkerIteration() returns (r: Result<()>)
      requires Valid() && |queue| > 0
      modifies this
      ensures Valid()
      ensures var a := old(queue[0]); var n := CountToRet(memory.buf[..], a);
        && (r.Ok? ==> n.Ok? && n.value <= MEMORY_SIZE / INSN_SIZE)
        && (r.Ok? ==> CompileFrom(memory.buf[..], a, n.value, a, 0).Ok?)
        && (r.Ok? ==> var c := CompileFrom(memory.buf[..], a, n.value, a, 0).value;
              && queue == old(queue[1..])
              && a in cache && cache == old(cache)[a := cache[a]]
              && cache[a].count == n.value
              && (cache[a].handle.Null? <==> c < 2)
              && (cache[a].handle.Compiled? ==> cache[a].handle.resumePc == a + INSN_SIZE * c))
      ensures r.Err? ==>
        CountToRet(memory.buf[..], old(queue[0])).Err? || CompileFrom(memory.buf[..], old(queue[0]), CountToRet(memory.buf[..], old(queue[0])).value,
                       old(queue[0]), 0).Err?
      ensures released == old(released)
    {
      var addr := queue[0];
      queue := queue[1..];
      ghost var mem := memory.buf[..];
      var counted := CountInsns(addr);
      if counted.Err? {
        return Err(counted.fault);
      }
      var numInsns := counted.value;
      var fptr := Compile(addr, numInsns);
      if fptr.Err? {
        return Err(fptr.fault);
      }
      cache := cache[addr := Entry(fptr.value, numInsns)];
      return Ok(());
    }
  }
}
