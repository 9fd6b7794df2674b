/** The block of instructions a compilation covers, from src/JITSection.h
    and src/JITSection.cpp. The assembler and its logger are not part of
    this model; a label is identified by its position in `_labels`. */
module JitSections {
  import opened Types

  /** Address `a` is an instruction slot of the block of `numInsns`
      instructions starting at `start`. */
  predicate InBlock(start: Word, numInsns: Word, a: Word)
  {
    a % 2 == 0 && start <= a < start + numInsns * INSN_SIZE
  }

  /** Whether `getLabelForAddress(a)` finds a label in the block of
      `numInsns` instructions at `start`: it throws on an odd address. */
  function HasLabel(start: Word, numInsns: Word, a: Word): (r: Result<bool>)
    ensures r.Err? <==> a % 2 == 1
    ensures r.Ok? ==> (r.value <==> InBlock(start, numInsns, a))
  {
    if a % 2 == 1 then Err(OddAddress) else Ok(InBlock(start, numInsns, a))
  }

  /** `JITSection`: the starting address, the instruction count and one label
      per instruction. */
  class Section {
    const start: Word
    const numInsns: Word
    const labels: seq<nat>

    ghost predicate Valid()
    {
      |labels| == numInsns
    }

    /** The constructor creates exactly `numInsns` labels, one per
        instruction, all distinct. */
    constructor (start: Word, numInsns: Word)
      ensures Valid()
      ensures this.start == start && this.numInsns == numInsns
      ensures labels == seq(numInsns, k => k)
    {
      var made: seq<nat> := [];
      var i := 0;
      while i < numInsns
        invariant 0 <= i <= numInsns
        invariant made == seq(i, k => k)
      {
        made := made + [i];
        i := i + 1;
      }
      this.start := start;
      this.numInsns := numInsns;
      labels := made;
    }

    /** `getLabelForAddress`: an odd address is an error, checked before
        the range; an address outside the block has no label; otherwise the
        label of instruction `(a - start) / 2`. */
    function LabelForAddress(a: Word): (r: Result<Option<nat>>)
      requires Valid()
      ensures r.Err? <==> a % 2 == 1
      ensures r.Err? ==> r.fault == OddAddress
      ensures r.Ok? ==> (r.value.Some? <==> InBlock(start, numInsns, a))
      ensures r.Ok? && r.value.Some? ==> r.value.value == labels[(a - start) / 2]
    {
      if a % 2 == 1 then Err(OddAddress)
      else if a < start || a >= start + numInsns * INSN_SIZE then Ok(None)
      else Ok(Some(labels[(a - start) / 2]))
    }
  }

  /** A constructed section gives instruction `k` of the block the label
      `k`: the label index is below `numInsns`, and distinct slots of the
      block get distinct labels. */
  lemma {:induction false} LabelsIndexSlots(s: Section, a: Word, b: Word)
    requires s.Valid() && s.labels == seq(s.numInsns, k => k)
    requires InBlock(s.start, s.numInsns, a) && InBlock(s.start, s.numInsns, b)
    ensures s.LabelForAddress(a) == Ok(Some((a - s.start) / 2))
    ensures (a - s.start) / 2 < s.numInsns
    ensures a != b ==> s.LabelForAddress(a) != s.LabelForAddress(b)
  {
    assert (a - s.start) / 2 < s.numInsns;
    assert (b - s.start) / 2 < s.numInsns;
    if a != b {
      assert (a - s.start) % 2 == (b - s.start) % 2;
    }
  }

  /** `HasLabel` says what a section's lookup says: same exception, and a
      label exactly when `HasLabel` holds. */
  lemma HasLabelAgrees(s: Section, a: Word)
    requires s.Valid()
    ensures s.LabelForAddress(a).Err? <==> HasLabel(s.start, s.numInsns, a).Err?
    ensures s.LabelForAddress(a).Ok? ==> (s.LabelForAddress(a).value.Some? <==> HasLabel(s.start, s.numInsns, a).value)
  {
  }
}
