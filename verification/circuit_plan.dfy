/** The oblivious planning pass of Circuit ORAM eviction: `prepare_deepest`
    (a scan from the stash down to the leaf bucket) and `prepare_target` (a
    scan from the leaf bucket up to the stash).  The first reads every slot
    of every level exactly once; the second checks each bucket for a vacancy
    once and reads only `deepest` otherwise.  Both decide by conditional
    moves only; here the conditional moves are ordinary assignments under
    `if`. */
module CircuitPlan {
  import opened Branch
  import opened Oracles

  // ---------------------------------------------------------------------
  // What `deepest` means

  /** No block above level `k` may legally sit at level `k` or below. */
  ghost predicate NothingFits(p: Path, legal: LegalIndex, k: nat) {
    forall j: nat, t: nat :: k < j && Occupied(p, j, t) ==> DestAt(p, legal, j, t) > k
  }

  /** Level `v`, above `k`, holds a block that may sit at level `k` or below,
      and no block above `k` may go deeper than it; among the levels holding
      a block that goes equally deep, `v` is the one nearest the stash. */
  ghost predicate DeepestSource(p: Path, legal: LegalIndex, k: nat, v: nat) {
    k < v <= p.Len() &&
    exists t: nat :: Occupied(p, v, t) && DestAt(p, legal, v, t) <= k &&
      (forall j: nat, u: nat :: k < j && Occupied(p, j, u) ==> DestAt(p, legal, v, t) <= DestAt(p, legal, j, u)) &&
      (forall j: nat, u: nat :: v < j && Occupied(p, j, u) ==> DestAt(p, legal, v, t) < DestAt(p, legal, j, u))
  }

  /** `e` is the source level for level `k`, or ⊥ when nothing above `k`
      fits at `k`. */
  ghost predicate DeepestEntryFor(p: Path, legal: LegalIndex, k: nat, e: nat) {
    (e == FLOOR <==> NothingFits(p, legal, k)) &&
    (e != FLOOR ==> DeepestSource(p, legal, k, e))
  }

  /** Every entry of `deepest` is the source level for its level. */
  ghost predicate IsDeepest(p: Path, legal: LegalIndex, deepest: seq<nat>) {
    |deepest| == p.Len() + 1 &&
    forall k: nat :: k <= p.Len() ==> DeepestEntryFor(p, legal, k, deepest[k])
  }

  // ---------------------------------------------------------------------
  // The state of the downward scan

  /** Slot `t` of level `j` has been scanned once the scan is at slot `cnt`
      of level `lvl`. */
  ghost predicate Seen(p: Path, lvl: int, cnt: nat, j: nat, t: nat) {
    (lvl < j <= p.Len()) || (j == lvl && t < cnt)
  }

  /** `goal` is the lowest legal index among the scanned blocks that may move
      below their own level, and `src` is the level of the first of them
      met; both are ⊥ while there is none. */
  ghost predicate ScanState(p: Path, legal: LegalIndex, lvl: int, cnt: nat, goal: nat, src: nat) {
    if goal == FLOOR then
      src == FLOOR &&
      forall j: nat, t: nat :: Seen(p, lvl, cnt, j, t) && Occupied(p, j, t) ==> DestAt(p, legal, j, t) >= j
    else
      lvl <= src <= p.Len() && goal < src &&
      (exists t: nat :: Seen(p, lvl, cnt, src, t) && Occupied(p, src, t) && DestAt(p, legal, src, t) == goal) &&
      (forall j: nat, t: nat :: Seen(p, lvl, cnt, j, t) && Occupied(p, j, t) && DestAt(p, legal, j, t) < j ==>
         goal <= DestAt(p, legal, j, t)) &&
      (forall j: nat, t: nat :: src < j && Seen(p, lvl, cnt, j, t) && Occupied(p, j, t) && DestAt(p, legal, j, t) < j ==>
         goal < DestAt(p, legal, j, t))
  }

  /** The scan agrees with the reference search `r` for every result below
      level `below`. */
  ghost predicate Tracks(r: Lowest, goal: nat, src: nat, below: nat) {
    goal >= r.dest && (r.dest < below ==> goal == r.dest && src == r.src)
  }

  lemma ScanStep(p: Path, legal: LegalIndex, lvl: nat, t: nat, goal: nat, src: nat)
    requires lvl <= p.Len() < FLOOR && t < |p.Level(lvl)|
    requires ScanState(p, legal, lvl, t, goal, src)
    ensures var s := p.Level(lvl)[t];
            var d := DestOf(p, legal, s);
            var deeper := d < goal && d < lvl && !IsVacant(s);
            ScanState(p, legal, lvl, t + 1, if deeper then d else goal, if deeper then lvl else src)
  {
    var s := p.Level(lvl)[t];
    var d := DestOf(p, legal, s);
    if d < goal && d < lvl && !IsVacant(s) {
      assert Seen(p, lvl, t + 1, lvl, t) && Occupied(p, lvl, t) && DestAt(p, legal, lvl, t) == d;
    } else if goal != FLOOR {
      var w :| Seen(p, lvl, t, src, w) && Occupied(p, src, w) && DestAt(p, legal, src, w) == goal;
      assert Seen(p, lvl, t + 1, src, w);
    }
  }

  /** One slot of the downward scan keeps both the scan state and its
      agreement with the reference search over the slots seen so far. */
  lemma SlotStep(p: Path, legal: LegalIndex, lvl: nat, t: nat, above: Lowest, goal: nat, src: nat, goal': nat, src': nat)
    requires lvl <= p.Len() < FLOOR && t < |p.Level(lvl)|
    requires ScanState(p, legal, lvl, t, goal, src)
    requires VacantNeverFits(p, legal) ==> Tracks(LowestInSlots(p, legal, above, lvl, p.Level(lvl)[..t]), goal, src, lvl)
    requires var s := p.Level(lvl)[t];
             var d := DestOf(p, legal, s);
             var deeper := d < goal && d < lvl && !IsVacant(s);
             goal' == (if deeper then d else goal) && src' == (if deeper then lvl else src)
    ensures ScanState(p, legal, lvl, t + 1, goal', src')
    ensures VacantNeverFits(p, legal) ==> Tracks(LowestInSlots(p, legal, above, lvl, p.Level(lvl)[..t + 1]), goal', src', lvl)
  {
    var slots := p.Level(lvl);
    ScanStep(p, legal, lvl, t, goal, src);
    if VacantNeverFits(p, legal) {
      TracksStep(p, legal, LowestInSlots(p, legal, above, lvl, slots[..t]), lvl, slots[t], goal, src);
      assert slots[..t + 1][..t] == slots[..t];
    }
  }

  lemma LevelDone(p: Path, legal: LegalIndex, lvl: nat, goal: nat, src: nat)
    requires lvl <= p.Len() && ScanState(p, legal, lvl, |p.Level(lvl)|, goal, src)
    ensures ScanState(p, legal, lvl - 1, 0, goal, src)
  {
    assert forall j: nat, u: nat :: Occupied(p, j, u) ==> (Seen(p, lvl, |p.Level(lvl)|, j, u) <==> Seen(p, lvl - 1, 0, j, u));
    if goal != FLOOR {
      var w :| Seen(p, lvl, |p.Level(lvl)|, src, w) && Occupied(p, src, w) && DestAt(p, legal, src, w) == goal;
      assert Seen(p, lvl - 1, 0, src, w);
    }
  }

  /** At the start of level `lvl` the scanned blocks are exactly those above
      it, so the comparison of `lvl` with `goal` decides `deepest[lvl]`. */
  lemma CommitMeaning(p: Path, legal: LegalIndex, lvl: nat, goal: nat, src: nat)
    requires lvl <= p.Len() < FLOOR && ScanState(p, legal, lvl, 0, goal, src)
    ensures lvl >= goal ==> src != FLOOR && DeepestSource(p, legal, lvl, src) && !NothingFits(p, legal, lvl)
    ensures lvl < goal ==> NothingFits(p, legal, lvl)
  {
    if lvl >= goal {
      var w :| Seen(p, lvl, 0, src, w) && Occupied(p, src, w) && DestAt(p, legal, src, w) == goal;
      assert forall j: nat, u: nat :: lvl < j && Occupied(p, j, u) ==> Seen(p, lvl, 0, j, u);
      assert DestAt(p, legal, src, w) <= lvl;
    } else {
      assert forall j: nat, u: nat :: lvl < j && Occupied(p, j, u) ==> Seen(p, lvl, 0, j, u);
    }
  }

  lemma TracksStep(p: Path, legal: LegalIndex, acc: Lowest, lvl: nat, s: Slot, goal: nat, src: nat)
    requires VacantNeverFits(p, legal) && lvl <= p.Len()
    requires Tracks(acc, goal, src, lvl)
    ensures var d := DestOf(p, legal, s);
            var deeper := d < goal && d < lvl && !IsVacant(s);
            Tracks(LowestStep(p, legal, acc, lvl, s), if deeper then d else goal, if deeper then lvl else src, lvl)
  {
  }

  /** The entry the reference writes for level `lvl` is the one the scan
      commits at the start of that level. */
  lemma CommitMatchesReference(p: Path, legal: LegalIndex, lvl: nat, goal: nat, src: nat)
    requires lvl <= p.Len() < FLOOR && ScanState(p, legal, lvl, 0, goal, src)
    requires VacantNeverFits(p, legal) && Tracks(LowestAbove(p, legal, lvl), goal, src, lvl + 1)
    ensures DeepestReference(p, legal)[lvl] == if lvl >= goal then src else FLOOR
  {
    if lvl == p.Len() {
      StashEntryIsFloor(p, legal);
    }
    assert DeepestReference(p, legal)[lvl] == DeepestEntry(FindSource(p, legal, lvl + 1), lvl);
  }

  /** The reference search over the stash alone never reports a source below
      the stash, so its `deepest` entry for the stash is ⊥. */
  lemma StashEntryIsFloor(p: Path, legal: LegalIndex)
    ensures DeepestEntry(LowestFrom(p, legal, p.Len()), p.Len()) == FLOOR
  {
  }

  // ---------------------------------------------------------------------
  // The operations

  /** `bucket_has_empty_slot`: whether some slot of the bucket is vacant. */
  method BucketHasEmptySlot(bucket: Bucket) returns (r: bool)
    ensures r == HasVacancy(bucket)
  {
    r := false;
    for t := 0 to |bucket|
      invariant r <==> exists u :: 0 <= u < t && IsVacant(bucket[u])
    {
      r := r || IsVacant(bucket[t]);
    }
  }

  /** `update_goal_and_deepest_for_a_single_bucket`: record `src` as
      `deepest[level]` when the goal reaches `level`, then scan the slots of
      `level`, lowering the goal for every block that can go deeper than both
      the goal and its own level. */
  method UpdateGoalAndDeepest(p: Path, legal: LegalIndex, level: nat, deepest: seq<nat>, goal: nat, src: nat)
    returns (deepest': seq<nat>, goal': nat, src': nat)
    requires level <= p.Len() < FLOOR
    requires |deepest| == p.Len() + 1 && deepest[level] == FLOOR
    requires ScanState(p, legal, level, 0, goal, src)
    requires VacantNeverFits(p, legal) ==> Tracks(LowestAbove(p, legal, level), goal, src, level + 1)
    ensures |deepest'| == |deepest|
    ensures forall k :: 0 <= k < |deepest| && k != level ==> deepest'[k] == deepest[k]
    ensures DeepestEntryFor(p, legal, level, deepest'[level])
    ensures level == p.Len() ==> deepest'[level] == FLOOR
    ensures VacantNeverFits(p, legal) ==> deepest'[level] == DeepestReference(p, legal)[level]
    ensures ScanState(p, legal, level - 1, 0, goal', src')
    ensures VacantNeverFits(p, legal) ==> Tracks(LowestFrom(p, legal, level), goal', src', level)
  {
    CommitMeaning(p, legal, level, goal, src);
    if VacantNeverFits(p, legal) {
      CommitMatchesReference(p, legal, level, goal, src);
    }
    var shouldTakeSrcForDeepest := level >= goal;
    deepest' := deepest;
    if shouldTakeSrcForDeepest {
      deepest' := deepest'[level := src];
    }
    goal', src' := ScanBucket(p, legal, level, goal, src);
  }

  /** The slot loop of `update_goal_and_deepest_for_a_single_bucket`. */
  method ScanBucket(p: Path, legal: LegalIndex, level: nat, goal: nat, src: nat) returns (goal': nat, src': nat)
    requires level <= p.Len() < FLOOR
    requires ScanState(p, legal, level, 0, goal, src)
    requires VacantNeverFits(p, legal) ==> Tracks(LowestAbove(p, legal, level), goal, src, level)
    ensures ScanState(p, legal, level - 1, 0, goal', src')
    ensures VacantNeverFits(p, legal) ==> Tracks(LowestFrom(p, legal, level), goal', src', level)
  {
    goal', src' := goal, src;
    var slots := p.Level(level);
    ghost var above := LowestAbove(p, legal, level);
    for t := 0 to |slots|
      invariant ScanState(p, legal, level, t, goal', src')
      invariant VacantNeverFits(p, legal) ==> Tracks(LowestInSlots(p, legal, above, level, slots[..t]), goal', src', level)
    {
      ghost var goal0, src0 := goal', src';
      var elemDestination := DestOf(p, legal, slots[t]);
      var isElemDeeper := elemDestination < goal' && elemDestination < level && !IsVacant(slots[t]);
      if isElemDeeper {
        goal', src' := elemDestination, level;
      }
      SlotStep(p, legal, level, t, above, goal0, src0, goal', src');
    }
    BucketDone(p, legal, level, goal', src');
  }

  /** After the last slot of `lvl` the scan has seen everything at or above
      `lvl`, and the reference search over those levels is complete. */
  lemma BucketDone(p: Path, legal: LegalIndex, lvl: nat, goal: nat, src: nat)
    requires lvl <= p.Len() < FLOOR
    requires ScanState(p, legal, lvl, |p.Level(lvl)|, goal, src)
    requires VacantNeverFits(p, legal) ==>
      Tracks(LowestInSlots(p, legal, LowestAbove(p, legal, lvl), lvl, p.Level(lvl)[..|p.Level(lvl)|]), goal, src, lvl)
    ensures ScanState(p, legal, lvl - 1, 0, goal, src)
    ensures VacantNeverFits(p, legal) ==> Tracks(LowestFrom(p, legal, lvl), goal, src, lvl)
  {
    assert p.Level(lvl)[..|p.Level(lvl)|] == p.Level(lvl);
    LevelDone(p, legal, lvl, goal, src);
  }

  /** `prepare_deepest`: the stash first, then the buckets from the root down
      to the leaf.  Entry `k` names the level holding the block that can go
      deepest among those above `k`, provided it can reach `k`; the stash
      entry is always ⊥.  When vacant slots never look placeable, the result
      is the reference array. */
  method PrepareDeepest(p: Path, legal: LegalIndex) returns (deepest: seq<nat>)
    requires p.Len() < FLOOR
    ensures IsDeepest(p, legal, deepest)
    ensures deepest[p.Len()] == FLOOR
    ensures WellFormedDeepest(deepest)
    ensures VacantNeverFits(p, legal) ==> deepest == DeepestReference(p, legal)
  {
    var metaLen := p.Len();
    deepest := seq(metaLen + 1, _ => FLOOR);
    var goal: nat := FLOOR;
    var src: nat := FLOOR;
    deepest, goal, src := UpdateGoalAndDeepest(p, legal, metaLen, deepest, goal, src);
    var level: int := metaLen;
    while level > 0
      invariant 0 <= level <= metaLen
      invariant |deepest| == metaLen + 1
      invariant ScanState(p, legal, level - 1, 0, goal, src)
      invariant forall k :: 0 <= k < level ==> deepest[k] == FLOOR
      invariant deepest[metaLen] == FLOOR
      invariant forall k :: level <= k <= metaLen ==> DeepestEntryFor(p, legal, k, deepest[k])
      invariant VacantNeverFits(p, legal) ==> Tracks(LowestFrom(p, legal, level), goal, src, level)
      invariant VacantNeverFits(p, legal) ==>
        forall k :: level <= k <= metaLen ==> deepest[k] == DeepestReference(p, legal)[k]
    {
      level := level - 1;
      ghost var before := deepest;
      deepest, goal, src := UpdateGoalAndDeepest(p, legal, level, deepest, goal, src);
      CommitExtends(p, legal, before, deepest, level);
    }
    DeepestIsWellFormed(p, legal, deepest);
  }

  /** Committing level `l` extends the committed suffix of `deepest` by one
      level and leaves the untouched prefix ⊥. */
  lemma CommitExtends(p: Path, legal: LegalIndex, before: seq<nat>, after: seq<nat>, l: nat)
    requires l < p.Len() && |before| == p.Len() + 1 && |after| == |before|
    requires forall k :: 0 <= k < |before| && k != l ==> after[k] == before[k]
    requires forall k :: 0 <= k <= l ==> before[k] == FLOOR
    requires before[p.Len()] == FLOOR
    requires forall k :: l < k <= p.Len() ==> DeepestEntryFor(p, legal, k, before[k])
    requires DeepestEntryFor(p, legal, l, after[l])
    requires VacantNeverFits(p, legal) ==> forall k :: l < k <= p.Len() ==> before[k] == DeepestReference(p, legal)[k]
    requires VacantNeverFits(p, legal) ==> after[l] == DeepestReference(p, legal)[l]
    ensures forall k :: 0 <= k < l ==> after[k] == FLOOR
    ensures after[p.Len()] == FLOOR
    ensures forall k :: l <= k <= p.Len() ==> DeepestEntryFor(p, legal, k, after[k])
    ensures VacantNeverFits(p, legal) ==> forall k :: l <= k <= p.Len() ==> after[k] == DeepestReference(p, legal)[k]
  {
    forall k | l <= k <= p.Len()
      ensures DeepestEntryFor(p, legal, k, after[k])
    {
      if k != l {
        assert after[k] == before[k];
      }
    }
  }

  // ---------------------------------------------------------------------
  // What `target` means

  /** Every recorded move goes down the branch: `target[i]`, when not ⊥, is a
      level below `i` whose deepest entry names `i` as its source. */
  ghost predicate MovesFollowDeepest(deepest: seq<nat>, target: seq<nat>) {
    |target| == |deepest| &&
    forall i :: 0 <= i < |target| && target[i] != FLOOR ==> target[i] < i && deepest[target[i]] == i
  }

  /** Every move lands in a bucket that has a vacant slot or that gives up a
      block of its own in the same pass. */
  ghost predicate MovesHaveRoom(buckets: seq<Bucket>, target: seq<nat>) {
    |target| == |buckets| + 1 &&
    forall i :: 0 <= i < |target| && target[i] != FLOOR && target[i] < |buckets| ==>
      HasVacancy(buckets[target[i]]) || target[target[i]] != FLOOR
  }

  /** The reference scan's remaining result, given the oblivious scan's state
      at bucket `b`: with no move pending it resumes at `b`; with one pending
      it resumes at the source level, the move already recorded. */
  function PendingScan(deepest: seq<nat>, buckets: seq<Bucket>, b: nat, src: nat, dest: nat, target: seq<nat>): (r: seq<nat>)
    requires |deepest| == |buckets| + 1 == |target| && WellFormedDeepest(deepest)
    requires b <= |buckets| && (src != FLOOR ==> b <= src <= |buckets|)
  {
    if src == FLOOR then TargetScan(deepest, buckets, b, false, target, false)
    else TargetScan(deepest, buckets, src, true, target[src := dest], false)
  }

  /** `prepare_target`: a scan from the leaf bucket up to the stash.  `dest`
      is the bucket waiting for a block and `src` the level that block comes
      from; reaching `src` records the move and frees a slot there, which
      may in turn wait for a block from further up. */
  method PrepareTarget(deepest: seq<nat>, buckets: seq<Bucket>) returns (target: seq<nat>)
    requires |deepest| == |buckets| + 1
    requires |buckets| < FLOOR
    ensures MovesFollowDeepest(deepest, target)
    ensures MovesHaveRoom(buckets, target)
    ensures forall i, j :: 0 <= i < j < |target| && target[i] != FLOOR ==> target[i] != target[j]
    ensures target[0] == FLOOR
    ensures (forall i :: 0 <= i < |deepest| ==> deepest[i] == FLOOR) ==> forall i :: 0 <= i < |target| ==> target[i] == FLOOR
    ensures WellFormedDeepest(deepest) ==> target == TargetReference(deepest, buckets)
  {
    var dataLen := |buckets|;
    target := seq(dataLen + 1, _ => FLOOR);
    var dest: nat := FLOOR;
    var src: nat := FLOOR;
    for b := 0 to dataLen
      invariant |target| == dataLen + 1
      invariant (src == FLOOR) == (dest == FLOOR)
      invariant dest != FLOOR ==> dest < b && deepest[dest] == src
      invariant dest != FLOOR ==> HasVacancy(buckets[dest]) || target[dest] != FLOOR
      invariant forall k :: b <= k <= dataLen ==> target[k] == FLOOR
      invariant MovesFollowDeepest(deepest, target)
      invariant MovesHaveRoom(buckets, target)
      invariant WellFormedDeepest(deepest) && src != FLOOR ==> b <= src <= dataLen
      invariant WellFormedDeepest(deepest) ==>
        TargetReference(deepest, buckets) == PendingScan(deepest, buckets, b, src, dest, target)
    {
      var shouldSetTarget := b == src;
      if shouldSetTarget {
        target := target[b := dest];
        dest, src := FLOOR, FLOOR;
      }
      var bucketHasEmptySlot := BucketHasEmptySlot(buckets[b]);
      var isThereAVacancy := (dest == FLOOR && bucketHasEmptySlot) || shouldSetTarget;
      var isThisAFutureTarget := isThereAVacancy && deepest[b] != FLOOR;
      if isThisAFutureTarget {
        src, dest := deepest[b], b;
      }
    }
    if dataLen == src {
      target := target[dataLen := dest];
    }
  }

  /** A deepest array never points at or below its own level. */
  lemma DeepestIsWellFormed(p: Path, legal: LegalIndex, deepest: seq<nat>)
    requires IsDeepest(p, legal, deepest)
    ensures WellFormedDeepest(deepest)
  {
    forall i | 0 <= i < |deepest| && deepest[i] != FLOOR
      ensures i < deepest[i] < |deepest|
    {
      assert DeepestEntryFor(p, legal, i, deepest[i]);
    }
  }

  /** Level `i` holds a block that may legally sit at level `k`. */
  ghost predicate HoldsBlockFor(p: Path, legal: LegalIndex, i: nat, k: nat) {
    exists t: nat :: Occupied(p, i, t) && DestAt(p, legal, i, t) <= k
  }

  /** The planning half of Circuit ORAM eviction: `prepare_deepest` followed
      by `prepare_target` on the same branch.  Every planned move takes a
      block down to a level where it may legally reside and where there is
      room; the target array is the reference scan's, and so is the deepest
      array when vacant slots never look placeable. */
  method PlanEviction(p: Path, legal: LegalIndex) returns (deepest: seq<nat>, target: seq<nat>)
    requires p.Len() < FLOOR
    ensures IsDeepest(p, legal, deepest)
    ensures MovesFollowDeepest(deepest, target) && MovesHaveRoom(p.buckets, target)
    ensures forall i :: 0 <= i < |target| && target[i] != FLOOR ==> HoldsBlockFor(p, legal, i, target[i])
    ensures target == TargetReference(deepest, p.buckets)
    ensures VacantNeverFits(p, legal) ==> deepest == DeepestReference(p, legal)
  {
    deepest := PrepareDeepest(p, legal);
    DeepestIsWellFormed(p, legal, deepest);
    target := PrepareTarget(deepest, p.buckets);
    forall i | 0 <= i < |target| && target[i] != FLOOR
      ensures HoldsBlockFor(p, legal, i, target[i])
    {
      assert DeepestEntryFor(p, legal, target[i], deepest[target[i]]);
    }
  }
}
