/** The straightforward, non-oblivious scans the test suite compares the
    planning pass against.  They read every slot and jump around freely; the
    oblivious scans in `CircuitPlan` must produce the same arrays. */
module Oracles {
  import opened Branch

  /** The lowest legal index met so far and the level of the slot holding it. */
  datatype Lowest = Lowest(dest: nat, src: nat)

  /** Nothing met yet: both fields are ⊥. */
  const NoneSeen: Lowest := Lowest(FLOOR, FLOOR)

  /** One comparison: a strictly lower index replaces the record, so on ties
      the first slot met wins. */
  function LowestStep(p: Path, legal: LegalIndex, acc: Lowest, level: nat, s: Slot): (r: Lowest)
    ensures r.dest <= acc.dest
    ensures r == acc || (r.dest == DestOf(p, legal, s) && r.src == level)
  {
    var d := DestOf(p, legal, s);
    if d < acc.dest then Lowest(d, level) else acc
  }

  /** The comparisons over the slots of one level, in slot order. */
  function LowestInSlots(p: Path, legal: LegalIndex, acc: Lowest, level: nat, slots: seq<Slot>): (r: Lowest)
    ensures r.dest <= acc.dest
    ensures r == acc || r.src == level
    decreases |slots|
  {
    if |slots| == 0 then acc
    else LowestStep(p, legal, LowestInSlots(p, legal, acc, level, slots[..|slots| - 1]), level, slots[|slots| - 1])
  }

  /** The record after the stash and the buckets from the root down to
      `lo + 1`, i.e. before level `lo` is scanned. */
  function LowestAbove(p: Path, legal: LegalIndex, lo: nat): (r: Lowest)
    requires lo <= p.Len()
    decreases p.Len() - lo, 0
  {
    if lo == p.Len() then NoneSeen else LowestFrom(p, legal, lo + 1)
  }

  /** The record after the stash and the buckets from the root down to `lo`. */
  function LowestFrom(p: Path, legal: LegalIndex, lo: nat): (r: Lowest)
    requires lo <= p.Len()
    decreases p.Len() - lo, 1
  {
    LowestInSlots(p, legal, LowestAbove(p, legal, lo), lo, p.Level(lo))
  }

  /** The search for the block that can go deepest among the stash and the
      buckets at index `testLevel` and above.  Buckets are scanned from the
      root down after the stash; a `testLevel` past the last bucket leaves
      only the stash. */
  function FindSource(p: Path, legal: LegalIndex, testLevel: nat): (r: Lowest) {
    LowestFrom(p, legal, if testLevel < p.Len() then testLevel else p.Len())
  }

  /** The entry the reference writes at index `i` for the search result `r`. */
  function DeepestEntry(r: Lowest, i: nat): (entry: nat) {
    if r.dest <= i && r.src > i then r.src else FLOOR
  }

  /** The reference `deepest` array: entry `i` comes from a fresh search over
      the levels above `i`. */
  function DeepestReference(p: Path, legal: LegalIndex): (r: seq<nat>)
    ensures |r| == p.Len() + 1
  {
    seq(p.Len() + 1, i requires 0 <= i <= p.Len() => DeepestEntry(FindSource(p, legal, i + 1), i))
  }

  /** The reference `target` scan from bucket `i`, leaf to root.  At a bucket
      with a vacancy (or one reached by following a move), a non-⊥ deepest
      entry sends the scan straight to that source level, recording the move
      there.  `clearOnFloor` selects the reading that also writes ⊥ into the
      target entry of a bucket whose deepest entry is ⊥. */
  function TargetScan(deepest: seq<nat>, buckets: seq<Bucket>, i: nat, hasVacancy: bool,
                      target: seq<nat>, clearOnFloor: bool): (r: seq<nat>)
    requires |deepest| == |buckets| + 1 == |target|
    requires WellFormedDeepest(deepest) && i <= |buckets|
    ensures |r| == |target|
    decreases |buckets| - i
  {
    if i == |buckets| then target
    else
      var vacancy := hasVacancy || HasVacancy(buckets[i]);
      if deepest[i] == FLOOR then
        TargetScan(deepest, buckets, i + 1, false, if clearOnFloor then target[i := FLOOR] else target, clearOnFloor)
      else if vacancy then
        TargetScan(deepest, buckets, deepest[i], true, target[deepest[i] := i], clearOnFloor)
      else
        TargetScan(deepest, buckets, i + 1, false, target, clearOnFloor)
  }

  /** The reference `target` array as the test suite writes it. */
  function TargetReferenceAsWritten(deepest: seq<nat>, buckets: seq<Bucket>): (target: seq<nat>)
    requires |deepest| == |buckets| + 1 && WellFormedDeepest(deepest)
  {
    TargetScan(deepest, buckets, 0, false, seq(|buckets| + 1, _ => FLOOR), true)
  }

  /** The reference `target` array without the overwrite: a move recorded on
      arrival at a source level is kept. */
  function TargetReference(deepest: seq<nat>, buckets: seq<Bucket>): (target: seq<nat>)
    requires |deepest| == |buckets| + 1 && WellFormedDeepest(deepest)
  {
    TargetScan(deepest, buckets, 0, false, seq(|buckets| + 1, _ => FLOOR), false)
  }
}
