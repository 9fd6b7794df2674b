/** The 4 KiB memory of src/Memory.h and src/Memory.cpp: a byte buffer with
    bounds-checked little-endian data access, a big-endian opcode fetch, and
    a parallel dirty map that only callers write. */
module Mem {
  import opened Types

  /** Little-endian 16-bit value at `a`: the host order `get<word>` reads in. */
  function LoadWord(s: seq<Byte>, a: nat): (r: Word)
    requires a + 2 <= |s|
    ensures r % 0x100 == s[a] && r / 0x100 == s[a + 1]
  {
    s[a] as int + 0x100 * s[a + 1] as int
  }

  /** The buffer after a little-endian 16-bit store at `a`. */
  function StoreWord(s: seq<Byte>, a: nat, v: Word): (r: seq<Byte>)
    requires a + 2 <= |s|
    ensures |r| == |s|
    ensures LoadWord(r, a) == v
    ensures forall j :: 0 <= j < |s| && j != a && j != a + 1 ==> r[j] == s[j]
  {
    s[a := v % 0x100][a + 1 := v / 0x100]
  }

  /** Big-endian 16-bit opcode at `a`: high byte first. */
  function Opcode(s: seq<Byte>, a: nat): (r: Word)
    requires a + 2 <= |s|
    ensures r / 0x100 == s[a] && r % 0x100 == s[a + 1]
  {
    s[a] as int * 0x100 + s[a + 1] as int
  }

  /** Exchanges the two bytes of a word. */
  function ByteSwap(w: Word): (r: Word)
    ensures r % 0x100 == w / 0x100 && r / 0x100 == w % 0x100
  {
    (w % 0x100) * 0x100 + w / 0x100
  }

  /** Instruction fetch and data access disagree on byte order: an opcode is
      the byte-swap of the data word at the same address. */
  lemma OpcodeIsSwappedWord(s: seq<Byte>, a: nat)
    requires a + 2 <= |s|
    ensures Opcode(s, a) == ByteSwap(LoadWord(s, a))
  {
  }

  /** Storing a word and fetching the same address as an opcode yields the
      byte-swapped value. */
  lemma StoreThenFetch(s: seq<Byte>, a: nat, v: Word)
    requires a + 2 <= |s|
    ensures Opcode(StoreWord(s, a, v), a) == ByteSwap(v)
  {
    var r := StoreWord(s, a, v);
    assert r[a] == v % 0x100 && r[a + 1] == v / 0x100;
  }

  /** `Memory`: `buf` and `dirtyMap` are fixed-size arrays updated in place. */
  class Memory {
    const buf: array<Byte>
    /** One entry per 4-byte granule; 2048 entries, of which the first 1024
        cover memory. Callers set an entry to 1 after writing code bytes. */
    const dirtyMap: array<Byte>

    ghost predicate Valid()
    {
      buf.Length == MEMORY_SIZE && dirtyMap.Length == DIRTY_MAP_SIZE
    }

    /** A fresh `Memory`: every byte and every dirty entry is zero. */
    constructor ()
      ensures Valid() && fresh(buf) && fresh(dirtyMap)
      ensures buf[..] == seq(MEMORY_SIZE, _ => 0)
      ensures dirtyMap[..] == seq(DIRTY_MAP_SIZE, _ => 0)
    {
      buf := new Byte[MEMORY_SIZE](_ => 0);
      dirtyMap := new Byte[DIRTY_MAP_SIZE](_ => 0);
    }

    /** `put<byte>`: fails iff `addr + 1 > 4096`; never touches `dirtyMap`. */
    method Put8(addr: Word, v: Byte) returns (ok: bool)
      requires Valid()
      modifies buf
      ensures ok <==> addr + 1 <= MEMORY_SIZE
      ensures buf[..] == if ok then old(buf[..])[addr := v] else old(buf[..])
      ensures unchanged(dirtyMap)
    {
      if addr + 1 > buf.Length {
        return false;
      }
      buf[addr] := v;
      return true;
    }

    /** `put<word>`: fails iff `addr + 2 > 4096`; stores little-endian. */
    method Put16(addr: Word, v: Word) returns (ok: bool)
      requires Valid()
      modifies buf
      ensures ok <==> addr + 2 <= MEMORY_SIZE
      ensures buf[..] == if ok then StoreWord(old(buf[..]), addr, v) else old(buf[..])
      ensures unchanged(dirtyMap)
    {
      if addr + 2 > buf.Length {
        return false;
      }
      buf[addr] := v % 0x100;
      buf[addr + 1] := v / 0x100;
      return true;
    }

    /** `get<byte>`: fails iff `addr + 1 > 4096`. */
    function Get8(addr: Word): (r: Result<Byte>)
      requires Valid()
      reads buf
      ensures r.Ok? <==> addr < MEMORY_SIZE
      ensures r.Ok? ==> r.value == buf[addr]
    {
      if addr + 1 > buf.Length then Err(OutOfBounds) else Ok(buf[addr])
    }

    /** `get<word>`: fails iff `addr + 2 > 4096`; reads little-endian. */
    function Get16(addr: Word): (r: Result<Word>)
      requires Valid()
      reads buf
      ensures r.Ok? <==> addr + 2 <= MEMORY_SIZE
      ensures r.Ok? ==> r.value % 0x100 == buf[addr] && r.value / 0x100 == buf[addr + 1]
    {
      if addr + 2 > buf.Length then Err(OutOfBounds) else Ok(LoadWord(buf[..], addr))
    }

    /** `getOpcode`: `buf.at(addr) << 8 + buf.at(addr + 1)`, failing when
        `addr + 1` is past the end. */
    function GetOpcode(addr: Word): (r: Result<Word>)
      requires Valid()
      reads buf
      ensures r.Ok? <==> addr + 1 < MEMORY_SIZE
      ensures r.Err? ==> r.fault == OutOfBounds
      ensures r.Ok? ==> r.value / 0x100 == buf[addr] && r.value % 0x100 == buf[addr + 1]
      ensures r.Ok? ==> r.value == Opcode(buf[..], addr)
    {
      if addr >= buf.Length || addr + 1 >= buf.Length then Err(OutOfBounds)
      else Ok(Opcode(buf[..], addr))
    }
  }

  /** Round trip through the class: a successful `put<word>` followed by
      `get<word>` at the same address gives the stored value, and every other
      byte keeps its value. */
  method PutGetRoundTrip(m: Memory, a: Word, v: Word) returns (ok: bool)
    requires m.Valid()
    modifies m.buf
    ensures ok <==> a + 2 <= MEMORY_SIZE
    ensures ok ==> m.Get16(a) == Ok(v)
    ensures forall j :: 0 <= j < MEMORY_SIZE && j != a && j != a + 1 ==> m.Get8(j) == old(m.Get8(j))
    ensures unchanged(m.dirtyMap)
  {
    ok := m.Put16(a, v);
  }
}
