/** Concrete branches: the hand-built tree of the test suite, a branch on
    which the reference target scan as written loses a move, and the three
    buckets of the vacancy test. */
module Scenarios {
  import opened Branch
  import opened Oracles
  import opened CircuitPlan

  /** A legal-index function for a complete tree whose leaves sit at one
      depth: the number of halvings after which the destination leaf and the
      branch leaf meet, capped at the branch length.  Vacant metadata (leaf 0)
      never meets a real leaf, so it maps to the cap. */
  function DivergenceLevel(dest: nat, leaf: nat, len: nat): (r: nat)
    ensures r <= len
    ensures r == 0 <==> len == 0 || dest == leaf
    decreases len
  {
    if len == 0 || dest == leaf then 0 else 1 + DivergenceLevel(dest / 2, leaf / 2, len - 1)
  }

  const Vacant: Slot := Slot(0, 0)

  /** Block number and destination leaf coincide, as in the test's tree. */
  function Block(leaf: nat): (s: Slot) {
    Slot(leaf, leaf)
  }

  /** The branch to leaf 16 of the height-4 test tree (buckets 16, 8, 4, 2
      and the root 1) with the stash holding blocks for leaves 26, 23, 21, 21. */
  function FixedTree(): (p: Path) {
    Path([Slot(0, 26), Slot(1, 23), Slot(2, 21), Slot(3, 21)],
         [[Vacant, Vacant, Vacant, Vacant],
          [Vacant, Vacant, Vacant, Vacant],
          [Block(19), Vacant, Vacant, Vacant],
          [Block(18), Block(20), Vacant, Vacant],
          [Block(24), Block(27), Block(31), Block(30)]],
         16)
  }

  /** The reference comparisons over a four-slot level, one slot at a time. */
  lemma FourSlots(p: Path, legal: LegalIndex, acc: Lowest, level: nat, a: Slot, b: Slot, c: Slot, d: Slot)
    ensures LowestInSlots(p, legal, acc, level, [a, b, c, d]) ==
      LowestStep(p, legal, LowestStep(p, legal, LowestStep(p, legal, LowestStep(p, legal, acc, level, a), level, b), level, c), level, d)
  {
    assert [a, b, c, d][..3] == [a, b, c];
    assert [a, b, c][..2] == [a, b];
    assert [a, b][..1] == [a];
    assert [a][..0] == [];
    var s1 := LowestStep(p, legal, acc, level, a);
    assert LowestInSlots(p, legal, acc, level, [a]) == s1;
    var s2 := LowestStep(p, legal, s1, level, b);
    assert LowestInSlots(p, legal, acc, level, [a, b]) == s2;
    var s3 := LowestStep(p, legal, s2, level, c);
    assert LowestInSlots(p, legal, acc, level, [a, b, c]) == s3;
  }

  /** The reference search on the fixed tree, level by level from the stash. */
  lemma FixedTreeSearches()
    ensures LowestFrom(FixedTree(), DivergenceLevel, 5) == Lowest(3, 5)
    ensures LowestFrom(FixedTree(), DivergenceLevel, 4) == Lowest(3, 5)
    ensures LowestFrom(FixedTree(), DivergenceLevel, 3) == Lowest(2, 3)
    ensures LowestFrom(FixedTree(), DivergenceLevel, 2) == Lowest(2, 3)
    ensures LowestFrom(FixedTree(), DivergenceLevel, 1) == Lowest(2, 3)
  {
    FixedTreeUpperSearches();
    var p := FixedTree();
    var legal: LegalIndex := DivergenceLevel;
    assert p.Len() == 5;
    assert DivergenceLevel(0, 16, 5) == 5;
    assert DivergenceLevel(19, 16, 5) == 2;
    assert DivergenceLevel(18, 16, 5) == 2;
    assert DivergenceLevel(20, 16, 5) == 3;
    FourSlots(p, legal, Lowest(3, 5), 3, Block(18), Block(20), Vacant, Vacant);
    assert LowestFrom(p, legal, 3) == Lowest(2, 3);
    FourSlots(p, legal, Lowest(2, 3), 2, Block(19), Vacant, Vacant, Vacant);
    assert LowestFrom(p, legal, 2) == Lowest(2, 3);
    FourSlots(p, legal, Lowest(2, 3), 1, Vacant, Vacant, Vacant, Vacant);
  }

  /** The search over the stash and the root bucket of the fixed tree. */
  lemma FixedTreeUpperSearches()
    ensures LowestFrom(FixedTree(), DivergenceLevel, 5) == Lowest(3, 5)
    ensures LowestFrom(FixedTree(), DivergenceLevel, 4) == Lowest(3, 5)
  {
    var p := FixedTree();
    var legal: LegalIndex := DivergenceLevel;
    assert p.Len() == 5;
    assert DivergenceLevel(26, 16, 5) == 4;
    assert DivergenceLevel(23, 16, 5) == 3;
    assert DivergenceLevel(21, 16, 5) == 3;
    assert DivergenceLevel(24, 16, 5) == 4;
    assert DivergenceLevel(27, 16, 5) == 4;
    assert DivergenceLevel(31, 16, 5) == 4;
    assert DivergenceLevel(30, 16, 5) == 4;
    FourSlots(p, legal, NoneSeen, 5, Slot(0, 26), Slot(1, 23), Slot(2, 21), Slot(3, 21));
    assert LowestFrom(p, legal, 5) == Lowest(3, 5);
    FourSlots(p, legal, Lowest(3, 5), 4, Block(24), Block(27), Block(31), Block(30));
  }

  lemma FixedTreeReference()
    ensures VacantNeverFits(FixedTree(), DivergenceLevel)
    ensures DeepestReference(FixedTree(), DivergenceLevel) == [FLOOR, FLOOR, 3, 5, 5, FLOOR]
    ensures TargetReference([FLOOR, FLOOR, 3, 5, 5, FLOOR], FixedTree().buckets) == [FLOOR, FLOOR, FLOOR, 2, FLOOR, 3]
    ensures TargetReferenceAsWritten([FLOOR, FLOOR, 3, 5, 5, FLOOR], FixedTree().buckets) == [FLOOR, FLOOR, FLOOR, 2, FLOOR, 3]
  {
    assert DivergenceLevel(0, 16, 5) == 5;
    FixedTreeDeepest();
    FixedTreeTargets();
    FixedTreeTargetsAsWritten();
  }

  lemma FixedTreeDeepest()
    ensures DeepestReference(FixedTree(), DivergenceLevel) == [FLOOR, FLOOR, 3, 5, 5, FLOOR]
  {
    FixedTreeSearches();
    DeepestOfFive(FixedTree(), DivergenceLevel, Lowest(2, 3), Lowest(2, 3), Lowest(2, 3), Lowest(3, 5), Lowest(3, 5));
  }

  /** The reference deepest array of a five-bucket branch from its searches. */
  lemma DeepestOfFive(p: Path, legal: LegalIndex, r1: Lowest, r2: Lowest, r3: Lowest, r4: Lowest, r5: Lowest)
    requires p.Len() == 5
    requires LowestFrom(p, legal, 1) == r1 && LowestFrom(p, legal, 2) == r2 && LowestFrom(p, legal, 3) == r3
    requires LowestFrom(p, legal, 4) == r4 && LowestFrom(p, legal, 5) == r5
    ensures DeepestReference(p, legal) ==
      [DeepestEntry(r1, 0), DeepestEntry(r2, 1), DeepestEntry(r3, 2), DeepestEntry(r4, 3), DeepestEntry(r5, 4), DeepestEntry(r5, 5)]
  {
    var d := DeepestReference(p, legal);
    assert d[0] == DeepestEntry(r1, 0);
    assert d[1] == DeepestEntry(r2, 1);
    assert d[2] == DeepestEntry(r3, 2);
    assert d[3] == DeepestEntry(r4, 3);
    assert d[4] == DeepestEntry(r5, 4);
    assert d[5] == DeepestEntry(r5, 5);
  }

  lemma FixedTreeTargets()
    ensures TargetReference([FLOOR, FLOOR, 3, 5, 5, FLOOR], FixedTree().buckets) == [FLOOR, FLOOR, FLOOR, 2, FLOOR, 3]
  {
    var deepest := [FLOOR, FLOOR, 3, 5, 5, FLOOR];
    var buckets := FixedTree().buckets;
    assert HasVacancy(buckets[2]) by { assert IsVacant(buckets[2][1]); }
    var none := seq(6, _ => FLOOR);
    assert TargetReference(deepest, buckets) == TargetScan(deepest, buckets, 2, false, none, false);
    assert TargetScan(deepest, buckets, 2, false, none, false) == TargetScan(deepest, buckets, 3, true, none[3 := 2], false);
    assert TargetScan(deepest, buckets, 3, true, none[3 := 2], false) == none[3 := 2][5 := 3];
  }

  /** On the fixed tree no source level has a ⊥ deepest entry, so the
      reference scan as written plans the same moves. */
  lemma FixedTreeTargetsAsWritten()
    ensures TargetReferenceAsWritten([FLOOR, FLOOR, 3, 5, 5, FLOOR], FixedTree().buckets) == [FLOOR, FLOOR, FLOOR, 2, FLOOR, 3]
  {
    var deepest := [FLOOR, FLOOR, 3, 5, 5, FLOOR];
    var buckets := FixedTree().buckets;
    assert HasVacancy(buckets[2]) by { assert IsVacant(buckets[2][1]); }
    var none := seq(6, _ => FLOOR);
    assert none[0 := FLOOR] == none && none[1 := FLOOR] == none;
    assert TargetReferenceAsWritten(deepest, buckets) == TargetScan(deepest, buckets, 2, false, none, true);
    assert TargetScan(deepest, buckets, 2, false, none, true) == TargetScan(deepest, buckets, 3, true, none[3 := 2], true);
    assert TargetScan(deepest, buckets, 3, true, none[3 := 2], true) == none[3 := 2][5 := 3];
  }

  /** The fixed-tree test: the stash sends a block for leaf 23 down to bucket
      3, whose block for leaf 18 moves on to bucket 2. */
  method FixedTreePlan() returns (deepest: seq<nat>, target: seq<nat>)
    ensures deepest == [FLOOR, FLOOR, 3, 5, 5, FLOOR]
    ensures target == [FLOOR, FLOOR, FLOOR, 2, FLOOR, 3]
  {
    FixedTreeReference();
    deepest, target := PlanEviction(FixedTree(), DivergenceLevel);
  }

  /** A branch to leaf 8 of a height-3 tree with one slot per bucket: only
      the root holds a block, bound for leaf 8 itself; the stash is empty. */
  function RootOnlyBranch(): (p: Path) {
    Path([], [[Vacant], [Vacant], [Vacant], [Block(8)]], 8)
  }

  /** On that branch the root block can drop to the leaf bucket.  The
      reference target scan as written jumps to the root, records the move,
      then overwrites it with ⊥ because the root's own deepest entry is ⊥;
      without the overwrite the move survives. */
  lemma RootOnlyReference()
    ensures VacantNeverFits(RootOnlyBranch(), DivergenceLevel)
    ensures DeepestReference(RootOnlyBranch(), DivergenceLevel) == [3, 3, 3, FLOOR, FLOOR]
    ensures WellFormedDeepest([3, 3, 3, FLOOR, FLOOR])
    ensures TargetReferenceAsWritten([3, 3, 3, FLOOR, FLOOR], RootOnlyBranch().buckets) == [FLOOR, FLOOR, FLOOR, FLOOR, FLOOR]
    ensures TargetReference([3, 3, 3, FLOOR, FLOOR], RootOnlyBranch().buckets) == [FLOOR, FLOOR, FLOOR, 0, FLOOR]
  {
    assert DivergenceLevel(0, 8, 4) == 4;
    RootOnlyDeepest();
    RootOnlyTargets();
  }

  lemma RootOnlySearches()
    ensures LowestFrom(RootOnlyBranch(), DivergenceLevel, 4) == NoneSeen
    ensures LowestFrom(RootOnlyBranch(), DivergenceLevel, 3) == Lowest(0, 3)
    ensures LowestFrom(RootOnlyBranch(), DivergenceLevel, 2) == Lowest(0, 3)
    ensures LowestFrom(RootOnlyBranch(), DivergenceLevel, 1) == Lowest(0, 3)
  {
    var p := RootOnlyBranch();
    var legal: LegalIndex := DivergenceLevel;
    assert p.Len() == 4;
    assert DivergenceLevel(0, 8, 4) == 4;
    assert DivergenceLevel(8, 8, 4) == 0;
    assert [Vacant][..0] == [] && [Block(8)][..0] == [];
    assert LowestFrom(p, legal, 4) == NoneSeen;
    assert LowestFrom(p, legal, 3) == Lowest(0, 3);
    assert LowestFrom(p, legal, 2) == Lowest(0, 3);
  }

  lemma RootOnlyDeepest()
    ensures DeepestReference(RootOnlyBranch(), DivergenceLevel) == [3, 3, 3, FLOOR, FLOOR]
  {
    RootOnlySearches();
    DeepestOfFour(RootOnlyBranch(), DivergenceLevel, Lowest(0, 3), Lowest(0, 3), Lowest(0, 3), NoneSeen);
  }

  /** The reference deepest array of a four-bucket branch from its searches. */
  lemma DeepestOfFour(p: Path, legal: LegalIndex, r1: Lowest, r2: Lowest, r3: Lowest, r4: Lowest)
    requires p.Len() == 4
    requires LowestFrom(p, legal, 1) == r1 && LowestFrom(p, legal, 2) == r2
    requires LowestFrom(p, legal, 3) == r3 && LowestFrom(p, legal, 4) == r4
    ensures DeepestReference(p, legal) ==
      [DeepestEntry(r1, 0), DeepestEntry(r2, 1), DeepestEntry(r3, 2), DeepestEntry(r4, 3), DeepestEntry(r4, 4)]
  {
    var d := DeepestReference(p, legal);
    assert d[0] == DeepestEntry(r1, 0);
    assert d[1] == DeepestEntry(r2, 1);
    assert d[2] == DeepestEntry(r3, 2);
    assert d[3] == DeepestEntry(r4, 3);
    assert d[4] == DeepestEntry(r4, 4);
  }

  /** Every non-⊥ entry of the root-only deepest array names a level above its own. */
  lemma RootOnlyDeepestWellFormed()
    ensures WellFormedDeepest([3, 3, 3, FLOOR, FLOOR])
  {
    var d := [3, 3, 3, FLOOR, FLOOR];
    forall i | 0 <= i < |d|
      ensures d[i] == FLOOR || i < d[i] < |d|
    {
      if i < 3 {
        assert d[i] == 3;
      } else {
        assert d[i] == FLOOR;
      }
    }
  }

  lemma RootOnlyTargets()
    ensures WellFormedDeepest([3, 3, 3, FLOOR, FLOOR])
    ensures TargetReferenceAsWritten([3, 3, 3, FLOOR, FLOOR], RootOnlyBranch().buckets) == [FLOOR, FLOOR, FLOOR, FLOOR, FLOOR]
    ensures TargetReference([3, 3, 3, FLOOR, FLOOR], RootOnlyBranch().buckets) == [FLOOR, FLOOR, FLOOR, 0, FLOOR]
  {
    RootOnlyDeepestWellFormed();
    var deepest := [3, 3, 3, FLOOR, FLOOR];
    var buckets := RootOnlyBranch().buckets;
    assert HasVacancy(buckets[0]) by { assert IsVacant(buckets[0][0]); }
    var none := seq(5, _ => FLOOR);
    assert TargetScan(deepest, buckets, 0, false, none, true) == TargetScan(deepest, buckets, 3, true, none[3 := 0], true);
    assert TargetScan(deepest, buckets, 3, true, none[3 := 0], true) == none[3 := 0][3 := FLOOR];
    assert TargetScan(deepest, buckets, 0, false, none, false) == TargetScan(deepest, buckets, 3, true, none[3 := 0], false);
    assert TargetScan(deepest, buckets, 3, true, none[3 := 0], false) == none[3 := 0];
  }

  /** The oblivious pass plans the move the reference as written drops. */
  method RootOnlyPlan() returns (deepest: seq<nat>, target: seq<nat>)
    ensures deepest == [3, 3, 3, FLOOR, FLOOR]
    ensures target == [FLOOR, FLOOR, FLOOR, 0, FLOOR]
    ensures target != TargetReferenceAsWritten(deepest, RootOnlyBranch().buckets)
  {
    RootOnlyReference();
    deepest, target := PlanEviction(RootOnlyBranch(), DivergenceLevel);
  }

  /** The vacancy test: an all-vacant bucket and one with a single vacant
      slot have room; a full one has none. */
  method VacancyCases() returns (empty: bool, partial: bool, full: bool)
    ensures empty && partial && !full
  {
    var filled := Slot(0, 3);
    var emptyBucket := [Vacant, Vacant, Vacant, Vacant];
    var partialBucket := [filled, filled, filled, Vacant];
    assert IsVacant(emptyBucket[0]) && IsVacant(partialBucket[3]);
    empty := BucketHasEmptySlot(emptyBucket);
    partial := BucketHasEmptySlot(partialBucket);
    full := BucketHasEmptySlot([filled, filled, filled, filled]);
  }
}
