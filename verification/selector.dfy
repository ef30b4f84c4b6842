/** The deterministic branch selector (`PathOramDeterministicEvictor`) and
    its factory (`PathOramDeterministicEvictorCreator`).

    The selector keeps a call counter and hands it to the reverse-
    lexicographic leaf order.  The counter wraps modulo `tree_breadth`; the
    original computes that modulus as `2 ^ tree_height`, which in Rust is
    exclusive-or.  `NewAsWritten` keeps that expression and the lemmas next
    to it show what it does; `New` uses `2^tree_height`, the number of leaves,
    which the documentation promises, and is the constructor the factory uses.
 */
module Selector {
  import opened Outcomes
  import opened Bits
  import opened LeafOrder

  datatype DeterministicEvictor = DeterministicEvictor(
    additionalBranches: nat,  // branches evicted per access besides the accessed one
    branchesEvicted: u64,     // the call counter
    treeHeight: u32,
    treeBreadth: u64)         // the modulus of the counter

  /** The constructor as written: `tree_breadth` is `2 XOR tree_height`.
      That is never the number of leaves `2^tree_height`. */
  function NewAsWritten(additional: nat, height: u32): (e: DeterministicEvictor)
    ensures e.additionalBranches == additional && e.treeHeight == height
    ensures e.branchesEvicted == 0
    ensures e.treeBreadth == Xor(2, height)
    ensures e.treeBreadth != Pow2(height)
  {
    XorAtMostSum(2, height);
    BreadthIsNeverLeafCount(height);
    DeterministicEvictor(additional, 0, height, Xor(2, height))
  }

  lemma BreadthIsNeverLeafCount(h: nat)
    ensures Xor(2, h) != Pow2(h)
  {
    if h == 0 {
      assert Xor(2, 0) == 2;
    } else if h == 1 {
      assert Xor(2, 1) == 3;
    } else if h == 2 {
      assert Xor(2, 2) == 0;
    } else {
      XorAtMostSum(2, h);
      Pow2ExceedsLinear(h);
    }
  }

  lemma {:induction false} Pow2ExceedsLinear(h: nat)
    requires h >= 3
    ensures Pow2(h) > h + 2
  {
    if h > 3 {
      Pow2ExceedsLinear(h - 1);
    }
  }

  /** The constructor with `tree_breadth = 2^tree_height`.  Computing
      `1 << tree_height` panics for heights of 64 or more. */
  function New(additional: nat, height: u32): (r: Result<DeterministicEvictor>)
    ensures r.Ok? <==> height < 64
    ensures r.Ok? ==> r.value.additionalBranches == additional && r.value.treeHeight == height
    ensures r.Ok? ==> r.value.branchesEvicted == 0 && r.value.treeBreadth == Pow2(height)
  {
    if height >= 64 then Panic(ShiftOverflow)
    else
      Pow2Monotone(height + 1, 64);
      Pow2SixtyFour();
      Ok(DeterministicEvictor(additional, 0, height, Pow2(height)))
  }

  /** `get_next_branch_to_evict`: returns the leaf for the current counter
      and the selector with the counter advanced modulo `tree_breadth`.  The
      increment panics on overflow and the remainder panics on a zero
      modulus; only the counter changes. */
  function Next(e: DeterministicEvictor): (r: Result<(u64, DeterministicEvictor)>)
    ensures r.Ok? <==> e.branchesEvicted + 1 < TWO_64 && e.treeBreadth != 0 && e.treeHeight < 64
    ensures e.branchesEvicted + 1 < TWO_64 && e.treeBreadth == 0 ==> r == Panic(RemainderByZero)
    ensures r.Ok? ==> DeterministicLeaf(e.treeHeight, e.branchesEvicted) == Ok(r.value.0)
    ensures r.Ok? ==> r.value.1 == e.(branchesEvicted := r.value.1.branchesEvicted)
    ensures r.Ok? ==> r.value.1.branchesEvicted == (e.branchesEvicted + 1) % e.treeBreadth
    ensures r.Ok? ==> AdditionalBranchesToEvict(r.value.1) == AdditionalBranchesToEvict(e)
  {
    var iteration := e.branchesEvicted;
    if iteration + 1 >= TWO_64 then Panic(AddOverflow)
    else if e.treeBreadth == 0 then Panic(RemainderByZero)
    else
      var counter := (iteration + 1) % e.treeBreadth;
      match DeterministicLeaf(e.treeHeight, iteration)
      case Panic(f) => Panic(f)
      case Ok(leaf) => Ok((leaf, e.(branchesEvicted := counter)))
  }

  /** `get_number_of_additional_branches_to_evict`. */
  function AdditionalBranchesToEvict(e: DeterministicEvictor): (k: nat)
  {
    e.additionalBranches
  }

  /** `calls` successive calls of `Next`: the leaves returned, in order, and
      the final selector. */
  function Run(e: DeterministicEvictor, calls: nat): (r: Result<(seq<u64>, DeterministicEvictor)>)
    ensures r.Ok? ==> |r.value.0| == calls
    ensures r.Ok? ==> r.value.1 == e.(branchesEvicted := r.value.1.branchesEvicted)
    decreases calls
  {
    if calls == 0 then Ok(([], e))
    else
      match Next(e)
      case Panic(f) => Panic(f)
      case Ok((leaf, next)) =>
        match Run(next, calls - 1)
        case Panic(f) => Panic(f)
        case Ok((rest, last)) => Ok(([leaf] + rest, last))
  }

  /** The reverse-lexicographic leaves for counters `c, c + 1, ...`: `n`
      leaves, the `i`-th being `2^h` plus the low `h` bits of `c + i`,
      reversed. */
  ghost function OrderFrom(c: nat, h: nat, n: nat): (order: seq<int>) {
    seq(n, i requires 0 <= i < n => Pow2(h) + ReverseLow((c + i) % Pow2(h), h))
  }

  /** The order from `c` is the leaf for `c` followed by the order from the
      next counter, `c + 1` wrapped at `2^h`. */
  lemma OrderFromStep(c: nat, h: nat, n: nat)
    requires n > 0
    ensures OrderFrom(c, h, n) == [Pow2(h) + ReverseLow(c % Pow2(h), h)] + OrderFrom((c + 1) % Pow2(h), h, n - 1)
  {
    var p := Pow2(h);
    var tail := OrderFrom((c + 1) % p, h, n - 1);
    forall i | 0 <= i < n - 1
      ensures tail[i] == OrderFrom(c, h, n)[i + 1]
    {
      ModAfterIncrement(c, i, p);
    }
  }

  /** A selector whose counter wraps at `2^h` visits leaves in reverse-
      lexicographic order starting from its counter. */
  lemma {:induction false} RunFollowsReverseOrder(e: DeterministicEvictor, calls: nat)
    requires 0 < e.treeHeight < 64
    requires e.treeBreadth == Pow2(e.treeHeight) && e.branchesEvicted < e.treeBreadth
    ensures Run(e, calls).Ok?
    ensures Run(e, calls).value.0 == OrderFrom(e.branchesEvicted, e.treeHeight, calls)
    decreases calls
  {
    if calls > 0 {
      var leaf, next := NextFollowsReverseOrder(e);
      RunFollowsReverseOrder(next, calls - 1);
      OrderFromStep(e.branchesEvicted, e.treeHeight, calls);
    }
  }

  /** One call of a selector whose counter wraps at `2^h`. */
  lemma NextFollowsReverseOrder(e: DeterministicEvictor) returns (leaf: u64, next: DeterministicEvictor)
    requires 0 < e.treeHeight < 64
    requires e.treeBreadth == Pow2(e.treeHeight) && e.branchesEvicted < e.treeBreadth
    ensures Next(e) == Ok((leaf, next))
    ensures leaf == Pow2(e.treeHeight) + ReverseLow(e.branchesEvicted % Pow2(e.treeHeight), e.treeHeight)
    ensures next.treeHeight == e.treeHeight && next.treeBreadth == e.treeBreadth
    ensures next.branchesEvicted == (e.branchesEvicted + 1) % e.treeBreadth
  {
    var h, p, c := e.treeHeight, Pow2(e.treeHeight), e.branchesEvicted;
    Pow2Monotone(h, 64);
    Pow2SixtyFour();
    assert c + 1 < TWO_64;
    leaf, next := Next(e).value.0, Next(e).value.1;
    LeafIsReversedIteration(h, c);
  }

  lemma ModAfterIncrement(c: nat, i: nat, p: nat)
    requires p > 0
    ensures ((c + 1) % p + i) % p == (c + 1 + i) % p
  {
    var q := (c + 1) / p;
    var s := (c + 1) % p;
    assert c + 1 + i == q * p + (s + i);
    var q2, r2 := (s + i) / p, (s + i) % p;
    assert c + 1 + i == (q + q2) * p + r2;
    DivModUnique(c + 1 + i, p, q + q2, r2);
  }

  /** A new selector of height `h` returns, at call `i`, the leaf that
      iteration `i mod 2^h` selects, so its output repeats with period `2^h`
      and each period visits every leaf once. */
  lemma NewSweepsAllLeaves(additional: nat, h: u32, e: DeterministicEvictor, calls: nat)
    requires New(additional, h) == Ok(e) && 0 < h
    ensures Run(e, calls).Ok?
    ensures forall i :: 0 <= i < calls ==> Ok(Run(e, calls).value.0[i]) == DeterministicLeaf(h, i % Pow2(h))
    ensures forall i :: 0 <= i < calls - Pow2(h) ==> Run(e, calls).value.0[i] == Run(e, calls).value.0[i + Pow2(h)]
  {
    RunFollowsReverseOrder(e, calls);
    var leaves := Run(e, calls).value.0;
    var p := Pow2(h);
    assert leaves == OrderFrom(0, h, calls);
    forall i | 0 <= i < calls
      ensures Ok(leaves[i]) == DeterministicLeaf(h, i % p)
    {
      ReducedIterationLeaf(h, i, leaves[i]);
    }
    forall i | 0 <= i < calls - p
      ensures leaves[i] == leaves[i + p]
    {
      ModOfShift(i, p);
    }
  }

  lemma ModOfShift(i: nat, p: nat)
    requires p > 0
    ensures (i + p) % p == i % p
  {
    var q, r := i / p, i % p;
    assert i == q * p + r;
    assert i + p == (q + 1) * p + r;
    DivModUnique(i + p, p, q + 1, r);
  }

  lemma ReducedIterationLeaf(h: u32, i: nat, leaf: nat)
    requires 0 < h < 64 && leaf == Pow2(h) + ReverseLow(i % Pow2(h), h)
    ensures i % Pow2(h) < TWO_64
    ensures Ok(leaf) == DeterministicLeaf(h, i % Pow2(h))
  {
    Pow2Monotone(h, 64);
    Pow2SixtyFour();
    var j: u64 := i % Pow2(h);
    LeafIsReversedIteration(h, j);
    DivModUnique(j, Pow2(h), 0, j);
  }

  /** The documented sequence for height 3: eight distinct leaves, then leaf 8 again. */
  lemma HeightThreeSweep(additional: nat, e: DeterministicEvictor)
    requires New(additional, 3) == Ok(e)
    ensures Run(e, 9).Ok? && Run(e, 9).value.0 == [8, 12, 10, 14, 9, 13, 11, 15, 8]
  {
    RunFollowsReverseOrder(e, 9);
    HeightThreeOrderFrom();
  }

  lemma HeightThreeOrderFrom()
    ensures OrderFrom(0, 3, 9) == [8, 12, 10, 14, 9, 13, 11, 15, 8]
  {
    var o := OrderFrom(0, 3, 9);
    assert Pow2(3) == 8;
    forall i | 0 <= i < 9
      ensures o[i] == [8, 12, 10, 14, 9, 13, 11, 15, 8][i]
    {
      HeightThreeEntry(i);
    }
  }

  /** As written, height 2 gives `tree_breadth = 0` and the first call panics. */
  lemma HeightTwoPanics(additional: nat)
    ensures Next(NewAsWritten(additional, 2)) == Panic(RemainderByZero)
  {
    assert Xor(2, 2) == 0;
  }

  /** As written, height 3 gives `tree_breadth = 1`: the counter never leaves
      0 and every call returns leaf 8, instead of cycling through leaves 8..15. */
  lemma {:induction false} HeightThreeIsStuck(additional: nat, calls: nat)
    ensures Run(NewAsWritten(additional, 3), calls) == Ok((seq(calls, _ => 8), NewAsWritten(additional, 3)))
  {
    if calls > 0 {
      var e := NewAsWritten(additional, 3);
      StuckStep(additional);
      HeightThreeIsStuck(additional, calls - 1);
      assert Run(e, calls) == Ok(([8] + seq(calls - 1, _ => 8), e));
      assert [8] + seq(calls - 1, _ => 8) == seq(calls, _ => 8);
    } else {
      assert seq(calls, _ => 8) == [];
    }
  }

  lemma StuckStep(additional: nat)
    ensures Next(NewAsWritten(additional, 3)) == Ok((8, NewAsWritten(additional, 3)))
  {
    var e := NewAsWritten(additional, 3);
    assert Xor(2, 3) == 1;
    assert (0 + 1) % e.treeBreadth == 0;
    HeightThreeLeaf(0);
    ReverseThreeBits(0);
    assert DeterministicLeaf(3, 0) == Ok(8);
  }

  /** `leaf` is the leaf of one of the first `bound` iterations at height `h`. */
  ghost predicate SelectedBelow(h: u32, bound: nat, leaf: u64) {
    exists c: u64 :: c < bound && DeterministicLeaf(h, c) == Ok(leaf)
  }

  /** A counter that starts below a non-zero breadth stays below it, so every
      leaf returned is the leaf of one of the first `tree_breadth` iterations. */
  lemma {:induction false} RunStaysBelowBreadth(e: DeterministicEvictor, calls: nat)
    requires e.treeHeight < 64 && 0 < e.treeBreadth && e.branchesEvicted < e.treeBreadth
    ensures Run(e, calls).Ok?
    ensures forall i :: 0 <= i < calls ==> SelectedBelow(e.treeHeight, e.treeBreadth, Run(e, calls).value.0[i])
    decreases calls
  {
    if calls > 0 {
      var leaf, next := Next(e).value.0, Next(e).value.1;
      assert SelectedBelow(e.treeHeight, e.treeBreadth, leaf);
      RunStaysBelowBreadth(next, calls - 1);
    }
  }

  /** As written, every height from 3 up has `2 XOR h` below the leaf count
      `2^h`: the selector only ever returns the leaves of the first `2 XOR h`
      iterations, and most leaves are never evicted into. */
  lemma AsWrittenVisitsFewLeaves(additional: nat, h: u32, calls: nat)
    requires 3 <= h < 64
    ensures 0 < Xor(2, h) < Pow2(h)
    ensures Run(NewAsWritten(additional, h), calls).Ok?
    ensures forall i :: 0 <= i < calls ==> SelectedBelow(h, Xor(2, h), Run(NewAsWritten(additional, h), calls).value.0[i])
  {
    XorAtMostSum(2, h);
    Pow2ExceedsLinear(h);
    if Xor(2, h) == 0 {
      XorZero(2, h);
    }
    RunStaysBelowBreadth(NewAsWritten(additional, h), calls);
  }

  /** A factory for deterministic selectors: `create(height)` passes the
      height through with the configured number of additional branches. */
  datatype DeterministicEvictorCreator = DeterministicEvictorCreator(additionalBranches: nat)

  /** The factory as written: it calls the constructor as written, so
      creation never fails and the breadth is `2 XOR height`. */
  function CreateAsWritten(c: DeterministicEvictorCreator, height: u32): (e: DeterministicEvictor)
    ensures e.treeHeight == height && e.branchesEvicted == 0
    ensures e.treeBreadth == Xor(2, height) && e.treeBreadth != Pow2(height)
    ensures AdditionalBranchesToEvict(e) == c.additionalBranches
  {
    NewAsWritten(c.additionalBranches, height)
  }

  /** The factory over the corrected constructor. */
  function Create(c: DeterministicEvictorCreator, height: u32): (r: Result<DeterministicEvictor>)
    ensures r.Ok? <==> height < 64
    ensures r.Ok? ==> r.value.treeHeight == height && r.value.branchesEvicted == 0
    ensures r.Ok? ==> r.value.treeBreadth == Pow2(height)
    ensures r.Ok? ==> AdditionalBranchesToEvict(r.value) == c.additionalBranches
  {
    New(c.additionalBranches, height)
  }

  /** `get_number_of_additional_branches_to_evict` reports the number the
      factory was configured with, however many branches have been selected. */
  lemma {:induction false} AdditionalBranchesAreFixed(c: DeterministicEvictorCreator, height: u32, calls: nat)
    requires Create(c, height).Ok? && Run(Create(c, height).value, calls).Ok?
    ensures AdditionalBranchesToEvict(Run(Create(c, height).value, calls).value.1) == c.additionalBranches
  {
  }

}
