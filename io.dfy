/** The keypad, framebuffer and exit flag of src/IO.h and src/IO.cpp. SDL
    itself (window, renderer, texture, polling, drawing, beeping) is not part
    of this model: events reach `PollEvents` as a list, and whether SDL
    failed to start is a constructor parameter. */
module InputOutput {
  import opened Types

  const PIXEL_WIDTH: nat := 64
  const PIXEL_HEIGHT: nat := 32
  const NUM_PIXELS: nat := 2048
  const KEYPAD_SIZE: nat := 16

  /** `KEYMAP`: the sixteen keyboard symbols bound to the hex keypad. SDL key
      codes of letters and digits are their ASCII characters. */
  function KeyMap(sym: char): (r: Option<nat>)
    ensures r.Some? ==> r.value < KEYPAD_SIZE
  {
    match sym
    case 'x' => Some(0x0)
    case '1' => Some(0x1)
    case '2' => Some(0x2)
    case '3' => Some(0x3)
    case 'q' => Some(0x4)
    case 'w' => Some(0x5)
    case 'e' => Some(0x6)
    case 'a' => Some(0x7)
    case 's' => Some(0x8)
    case 'd' => Some(0x9)
    case 'z' => Some(0xA)
    case 'c' => Some(0xB)
    case '4' => Some(0xC)
    case 'r' => Some(0xD)
    case 'f' => Some(0xE)
    case 'v' => Some(0xF)
    case _ => None
  }

  /** The keyboard symbol bound to keypad key `k`. */
  function KeySymbol(k: nat): (c: char)
    requires k < KEYPAD_SIZE
    ensures KeyMap(c) == Some(k)
  {
    "x123qweasdzc4rfv"[k]
  }

  /** Every keypad key has exactly one symbol: `KeySymbol` inverts `KeyMap`
      in both directions. */
  lemma KeyMapBijective(sym: char, k: nat)
    requires k < KEYPAD_SIZE
    ensures KeyMap(KeySymbol(k)) == Some(k)
    ensures KeyMap(sym) == Some(k) <==> sym == KeySymbol(k)
  {
  }

  /** The SDL events `pollEvents` reacts to; `Other` stands for the rest. */
  datatype Event = Quit | KeyDown(sym: char) | KeyUp(sym: char) | Other

  /** The part of `IO` that events change. */
  datatype Input = Input(keys: seq<bool>, exitFlag: bool)

  /** One iteration of the `pollEvents` loop. */
  function ApplyEvent(s: Input, e: Event): (r: Input)
    requires |s.keys| == KEYPAD_SIZE
    ensures |r.keys| == KEYPAD_SIZE
  {
    match e
    case Quit => s.(exitFlag := true)
    case KeyDown(sym) =>
      if KeyMap(sym).Some? then s.(keys := s.keys[KeyMap(sym).value := true]) else s
    case KeyUp(sym) =>
      if KeyMap(sym).Some? then s.(keys := s.keys[KeyMap(sym).value := false]) else s
    case Other => s
  }

  /** The whole `pollEvents` loop over the queued events, oldest first. */
  function ApplyEvents(s: Input, events: seq<Event>): (r: Input)
    requires |s.keys| == KEYPAD_SIZE
    ensures |r.keys| == KEYPAD_SIZE
    decreases |events|
  {
    if events == [] then s else ApplyEvents(ApplyEvent(s, events[0]), events[1..])
  }

  /** Handling one more event after a batch is handling the longer batch. */
  lemma {:induction false} ApplyEventsSnoc(s: Input, events: seq<Event>, e: Event)
    requires |s.keys| == KEYPAD_SIZE
    ensures ApplyEvents(s, events + [e]) == ApplyEvent(ApplyEvents(s, events), e)
    decreases |events|
  {
    if events == [] {
      assert [e][1..] == [];
    } else {
      assert (events + [e])[1..] == events[1..] + [e];
      ApplyEventsSnoc(ApplyEvent(s, events[0]), events[1..], e);
    }
  }

  /** The exit flag ends up set iff it was set or a quit event arrived. */
  lemma {:induction false} ExitFlagAfterEvents(s: Input, events: seq<Event>)
    requires |s.keys| == KEYPAD_SIZE
    ensures ApplyEvents(s, events).exitFlag <==> s.exitFlag || Quit in events
    decreases |events|
  {
    if events != [] {
      ExitFlagAfterEvents(ApplyEvent(s, events[0]), events[1..]);
      assert events == [events[0]] + events[1..];
    }
  }

  /** The last key-down or key-up event of the batch for keypad key `k`:
      `Some(true)` for a press, `Some(false)` for a release, `None` if no
      event of the batch is bound to `k`. */
  function LastKeyEvent(events: seq<Event>, k: nat): Option<bool>
  {
    if events == [] then None
    else
      var e := events[|events| - 1];
      if (e.KeyDown? || e.KeyUp?) && KeyMap(e.sym) == Some(k) then Some(e.KeyDown?)
      else LastKeyEvent(events[..|events| - 1], k)
  }

  /** After a batch, each key holds the state of the last event bound to it,
      or its old state if no event was: unmapped symbols and other events
      change nothing. */
  lemma {:induction false} KeysAfterEvents(s: Input, events: seq<Event>, k: nat)
    requires |s.keys| == KEYPAD_SIZE && k < KEYPAD_SIZE
    ensures ApplyEvents(s, events).keys[k]
      == match LastKeyEvent(events, k) { case None => s.keys[k] case Some(down) => down }
    decreases |events|
  {
    if events != [] {
      var init := events[..|events| - 1];
      var e := events[|events| - 1];
      assert events == init + [e];
      ApplyEventsSnoc(s, init, e);
      KeysAfterEvents(s, init, k);
    }
  }

  /** The lowest-index pressed key of `keys[from..]`. */
  function FirstPressedFrom(keys: seq<bool>, from: nat): (r: Option<nat>)
    requires from <= |keys|
    ensures r.Some? ==> from <= r.value < |keys| && keys[r.value]
    ensures r.Some? ==> forall j :: from <= j < r.value ==> !keys[j]
    ensures r.None? ==> forall j :: from <= j < |keys| ==> !keys[j]
    decreases |keys| - from
  {
    if from == |keys| then None
    else if keys[from] then Some(from)
    else FirstPressedFrom(keys, from + 1)
  }

  function FirstPressed(keys: seq<bool>): (r: Option<nat>)
    ensures r.Some? ==> r.value < |keys| && keys[r.value]
    ensures r.Some? ==> forall j :: 0 <= j < r.value ==> !keys[j]
    ensures r.None? <==> forall j :: 0 <= j < |keys| ==> !keys[j]
  {
    FirstPressedFrom(keys, 0)
  }

  /** `IO`: sixteen key slots and the 64x32 monochrome bitmap, both updated
      in place, and the exit flag. */
  class Io {
    const keys: array<bool>
    const bitmap: array<bool>
    var exitFlag: bool
    /** Set when SDL could not start; the display and keypad then go dead. */
    const sdlDisabled: bool

    ghost predicate Valid()
    {
      keys.Length == KEYPAD_SIZE && bitmap.Length == NUM_PIXELS
    }

    /** No key pressed, every pixel dark, no exit requested. */
    constructor (sdlDisabled: bool)
      ensures Valid() && fresh(keys) && fresh(bitmap)
      ensures keys[..] == seq(KEYPAD_SIZE, _ => false)
      ensures bitmap[..] == seq(NUM_PIXELS, _ => false)
      ensures !exitFlag && this.sdlDisabled == sdlDisabled
    {
      keys := new bool[KEYPAD_SIZE](_ => false);
      bitmap := new bool[NUM_PIXELS](_ => false);
      exitFlag := false;
      this.sdlDisabled := sdlDisabled;
    }

    /** The key and exit state as a value. */
    function InputState(): Input
      reads this, keys
    {
      Input(keys[..], exitFlag)
    }

    /** `clear`: every pixel goes dark, unless SDL is disabled. */
    method Clear()
      requires Valid()
      modifies bitmap
      ensures bitmap[..] == if sdlDisabled then old(bitmap[..]) else seq(NUM_PIXELS, _ => false)
    {
      if sdlDisabled {
        return;
      }
      for p := 0 to bitmap.Length
        invariant forall q :: 0 <= q < p ==> !bitmap[q]
      {
        bitmap[p] := false;
      }
    }

    /** `isPressed`: false with SDL disabled or for a value past the keypad. */
    function IsPressed(key: Byte): (r: bool)
      requires Valid()
      reads keys
      ensures r == (!sdlDisabled && key < KEYPAD_SIZE && keys[key])
    {
      if sdlDisabled then false
      else if key < keys.Length then keys[key]
      else false
    }

    /** `getPressedKey`: reports and releases the lowest-index pressed key;
        with none pressed, or SDL disabled, it reports nothing and changes
        nothing. */
    method GetPressedKey() returns (r: Option<Byte>)
      requires Valid()
      modifies keys
      ensures sdlDisabled ==> r == None
      ensures !sdlDisabled ==> match FirstPressed(old(keys[..]))
        case None => r == None
        case Some(k) => r == Some(k)
      ensures keys[..] == if r.Some? then old(keys[..])[r.value := false] else old(keys[..])
    {
      if sdlDisabled {
        return None;
      }
      var k := 0;
      while k < keys.Length
        invariant 0 <= k <= keys.Length
        invariant FirstPressed(keys[..]) == FirstPressedFrom(keys[..], k)
      {
        if keys[k] {
          keys[k] := false;
          return Some(k);
        }
        k := k + 1;
      }
      return None;
    }

    /** `pollEvents` over the queued events, oldest first; nothing happens
        with SDL disabled. */
    method PollEvents(events: seq<Event>)
      requires Valid()
      modifies this, keys
      ensures InputState() == if sdlDisabled then old(InputState()) else ApplyEvents(old(InputState()), events)
    {
      if sdlDisabled {
        return;
      }
      ghost var start := InputState();
      for i := 0 to |events|
        invariant InputState() == ApplyEvents(start, events[..i])
      {
        ApplyEventsSnoc(start, events[..i], events[i]);
        assert events[..i + 1] == events[..i] + [events[i]];
        match events[i]
        case Quit =>
          exitFlag := true;
        case KeyDown(sym) =>
          if KeyMap(sym).Some? {
            keys[KeyMap(sym).value] := true;
          }
        case KeyUp(sym) =>
          if KeyMap(sym).Some? {
            keys[KeyMap(sym).value] := false;
          }
        case Other =>
      }
      assert events[..|events|] == events;
    }
  }
}
