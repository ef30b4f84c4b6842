/** Reverse-lexicographic leaf selection (`deterministic_get_next_branch_to_evict`).

    Leaves of a tree of height `h` are numbered `2^h .. 2^(h+1) - 1`: the top
    set bit marks the leaf level and the `h` bits below it spell the path
    from the root.  Iteration `i` selects the leaf whose path bits are the
    low `h` bits of `i` read backwards, so consecutive iterations alternate
    between far-apart subtrees and every leaf is chosen once per `2^h`
    iterations.
 */
module LeafOrder {
  import opened Outcomes
  import opened Bits

  /** `u64::reverse_bits`: bit `i` of the result is bit `63 - i` of `x`, so
      reversing twice gives `x` back. */
  function ReverseBits64(x: u64): (r: u64)
    ensures r == ReverseLow(x, 64)
    ensures ReverseLow(r, 64) == x
  {
    Pow2SixtyFour();
    ReverseLowInvolution(x, 64);
    ReverseLow(x, 64)
  }

  /** The leaf to evict into at iteration `iteration` of a tree of height `h`.
      Height 0 is a single node, leaf 1.  `1 << h` overflows for `h >= 64`,
      which panics. */
  function DeterministicLeaf(h: u32, iteration: u64): (r: Result<u64>)
    ensures h == 0 ==> r == Ok(1)
    ensures h >= 64 ==> r == Panic(ShiftOverflow)
    ensures 0 < h < 64 ==> r.Ok? && Pow2(h) <= r.value < Pow2(h + 1)
  {
    if h == 0 then Ok(1)
    else if h >= 64 then Panic(ShiftOverflow)
    else
      var leafSignificantIndex := Pow2(h);
      var testPosition := ShiftRight(ReverseBits64(iteration), 64 - h) % leafSignificantIndex;
      LeafFitsInWord(h, testPosition);
      Ok(leafSignificantIndex + testPosition)
  }

  lemma LeafFitsInWord(h: nat, position: nat)
    requires 0 < h < 64 && position < Pow2(h)
    ensures Pow2(h) + position < Pow2(h + 1) <= TWO_64
  {
    Pow2Monotone(h + 1, 64);
    Pow2SixtyFour();
  }

  /** Shifting the reversed word right by `64 - h` leaves exactly the low `h`
      bits of the iteration, reversed; in particular the value is already
      below `2^h`, so the `% leaf_significant_index` never changes it. */
  lemma ShiftedReversalIsLowBitsReversed(h: nat, iteration: u64)
    requires 0 < h < 64
    ensures ShiftRight(ReverseBits64(iteration), 64 - h) == ReverseLow(iteration, h)
    ensures ShiftRight(ReverseBits64(iteration), 64 - h) % Pow2(h) == ReverseLow(iteration, h)
  {
    var m := 64 - h;
    var top := ReverseLow(iteration, h);
    var rest := ReverseLow(ShiftRight(iteration, h), m);
    ReverseLowSplit(iteration, h, m);
    assert ReverseLow(iteration, 64) == top * Pow2(m) + rest;
    ShiftRightIsDivision(ReverseLow(iteration, 64), m);
    DivModUnique(ReverseLow(iteration, 64), Pow2(m), top, rest);
    DivModUnique(top, Pow2(h), 0, top);
  }

  /** The selected leaf is `2^h` plus the low `h` bits of the iteration in
      reverse order. */
  lemma LeafIsReversedIteration(h: u32, iteration: u64)
    requires 0 < h < 64
    ensures DeterministicLeaf(h, iteration) == Ok(Pow2(h) + ReverseLow(iteration % Pow2(h), h))
  {
    ShiftedReversalIsLowBitsReversed(h, iteration);
    ReverseLowMod(iteration, h);
  }

  /** Iterations that agree modulo `2^h` select the same leaf. */
  lemma LeafIsPeriodic(h: u32, i: u64, j: u64)
    requires i % Pow2(h) == j % Pow2(h)
    ensures DeterministicLeaf(h, i) == DeterministicLeaf(h, j)
  {
    if 0 < h < 64 {
      LeafIsReversedIteration(h, i);
      LeafIsReversedIteration(h, j);
    }
  }

  /** A leaf of height `h` that some iteration of the first period selects. */
  ghost predicate SelectedInPeriod(h: u32, leaf: u64) {
    exists i: u64 :: i < Pow2(h) && DeterministicLeaf(h, i) == Ok(leaf)
  }

  /** Over one period `0 .. 2^h - 1` every leaf of height `h` is selected
      exactly once. */
  lemma SweepIsPermutation(h: u32)
    requires 0 < h < 64
    ensures forall i: u64, j: u64 {:trigger DeterministicLeaf(h, i), DeterministicLeaf(h, j)} ::
      i < Pow2(h) && j < Pow2(h) && DeterministicLeaf(h, i) == DeterministicLeaf(h, j) ==> i == j
    ensures forall leaf: u64 :: Pow2(h) <= leaf < Pow2(h + 1) ==> SelectedInPeriod(h, leaf)
  {
    forall i: u64, j: u64 | i < Pow2(h) && j < Pow2(h) && DeterministicLeaf(h, i) == DeterministicLeaf(h, j)
      ensures i == j
    {
      LeafIsReversedIteration(h, i);
      LeafIsReversedIteration(h, j);
      DivModUnique(i, Pow2(h), 0, i);
      DivModUnique(j, Pow2(h), 0, j);
      ReverseLowInvolution(i, h);
      ReverseLowInvolution(j, h);
    }
    forall leaf: u64 | Pow2(h) <= leaf < Pow2(h + 1)
      ensures SelectedInPeriod(h, leaf)
    {
      var i := LeafPreimage(h, leaf);
    }
  }

  /** The iteration within the first period that selects `leaf`. */
  lemma LeafPreimage(h: u32, leaf: u64) returns (i: u64)
    requires 0 < h < 64 && Pow2(h) <= leaf < Pow2(h + 1)
    ensures i < Pow2(h) && DeterministicLeaf(h, i) == Ok(leaf)
  {
    var position := leaf - Pow2(h);
    assert Pow2(h + 1) == 2 * Pow2(h);
    Pow2Monotone(h, 64);
    Pow2SixtyFour();
    i := ReverseLow(position, h);
    LeafIsReversedIteration(h, i);
    DivModUnique(i, Pow2(h), 0, i);
    ReverseLowInvolution(position, h);
  }

  /** The documented order for height 3: 8, 12, 10, 14, 9, 13, 11, 15, then 8 again. */
  lemma HeightThreeOrder()
    ensures forall i: u64 :: i < 9 ==> DeterministicLeaf(3, i) == Ok([8, 12, 10, 14, 9, 13, 11, 15, 8][i])
  {
    forall i: u64 | i < 9
      ensures DeterministicLeaf(3, i) == Ok([8, 12, 10, 14, 9, 13, 11, 15, 8][i])
    {
      HeightThreeLeaf(i);
      HeightThreeEntry(i);
    }
  }

  lemma HeightThreeEntry(i: nat)
    requires i < 9
    ensures 8 + ReverseLow(i % 8, 3) == [8, 12, 10, 14, 9, 13, 11, 15, 8][i]
  {
    var r := if i == 8 then 0 else i;
    if i == 8 {
      DivModUnique(i, 8, 1, 0);
    } else {
      DivModUnique(i, 8, 0, i);
    }
    ReverseThreeBits(r);
  }

  lemma HeightThreeLeaf(i: u64)
    ensures DeterministicLeaf(3, i) == Ok(8 + ReverseLow(i % 8, 3))
  {
    LeafIsReversedIteration(3, i);
    assert Pow2(3) == 8;
  }

  /** Reversal of three bits, spelled out for every 3-bit value. */
  lemma ReverseThreeBits(r: nat)
    requires r < 8
    ensures ReverseLow(r, 3) == [0, 4, 2, 6, 1, 5, 3, 7][r]
  {
    if r < 4 {
      ReverseThreeBitsLow(r);
    } else {
      ReverseThreeBitsHigh(r);
    }
  }

  lemma ReverseThreeBitsLow(r: nat)
    requires r < 4
    ensures ReverseLow(r, 3) == [0, 4, 2, 6, 1, 5, 3, 7][r]
  {
    var t := [0, 4, 2, 6, 1, 5, 3, 7];
    if r == 0 { assert ReverseLow(0, 3) == t[0]; }
    else if r == 1 { assert ReverseLow(1, 3) == t[1]; }
    else if r == 2 { assert ReverseLow(2, 3) == t[2]; }
    else { assert ReverseLow(3, 3) == t[3]; }
  }

  lemma ReverseThreeBitsHigh(r: nat)
    requires 4 <= r < 8
    ensures ReverseLow(r, 3) == [0, 4, 2, 6, 1, 5, 3, 7][r]
  {
    var t := [0, 4, 2, 6, 1, 5, 3, 7];
    if r == 4 { assert ReverseLow(4, 3) == t[4]; }
    else if r == 5 { assert ReverseLow(5, 3) == t[5]; }
    else if r == 6 { assert ReverseLow(6, 3) == t[6]; }
    else { assert ReverseLow(7, 3) == t[7]; }
  }
}
