/** The metadata a Circuit ORAM planning pass reads: slots, buckets, the
    checked-out branch with the stash on top of it, and the legal-placement
    relation.

    Bucket index 0 is the leaf and `Len() - 1` the root; the stash is treated
    as one more level, index `Len()`.  A slot whose destination leaf is 0
    (zeroed metadata) is vacant.  The lowest legal bucket index of a block is
    computed by the branch component from the block's destination leaf, the
    branch leaf and the branch length; it is a parameter here.
 */
module Branch {

  /** ⊥: "no level".  It is `usize::MAX`, above every level index. */
  const FLOOR: nat := 0xFFFF_FFFF_FFFF_FFFF

  /** The metadata of one slot: block number and destination leaf. */
  datatype Slot = Slot(blockNum: nat, leafNum: nat)

  predicate IsVacant(s: Slot) {
    s.leafNum == 0
  }

  type Bucket = seq<Slot>

  /** `lowest_height_legal_index(destination_leaf, branch_leaf, branch_length)`. */
  type LegalIndex = (nat, nat, nat) -> nat

  /** A checked-out branch (`buckets[0]` is the leaf bucket) and the stash. */
  datatype Path = Path(stash: seq<Slot>, buckets: seq<Bucket>, leaf: nat) {

    function Len(): (n: nat) {
      |buckets|
    }

    /** The slots of level `j`; level `Len()` is the stash. */
    function Level(j: nat): (slots: seq<Slot>)
      requires j <= Len()
    {
      if j == Len() then stash else buckets[j]
    }
  }

  /** The lowest bucket index slot `s` may legally occupy on this branch. */
  function DestOf(p: Path, legal: LegalIndex, s: Slot): (d: nat) {
    legal(s.leafNum, p.leaf, p.Len())
  }

  /** Slot `t` of level `j` holds a block. */
  predicate Occupied(p: Path, j: nat, t: nat) {
    j <= p.Len() && t < |p.Level(j)| && !IsVacant(p.Level(j)[t])
  }

  /** The lowest legal index of the block in slot `t` of level `j`. */
  function DestAt(p: Path, legal: LegalIndex, j: nat, t: nat): (d: nat)
    requires j <= p.Len() && t < |p.Level(j)|
  {
    DestOf(p, legal, p.Level(j)[t])
  }

  /** Some slot of the bucket is vacant. */
  predicate HasVacancy(bucket: Bucket) {
    exists t :: 0 <= t < |bucket| && IsVacant(bucket[t])
  }

  /** A vacant slot never looks placeable below the stash.  The reference
      scans of the tests compare every slot, vacant or not, so they agree
      with the oblivious scans only under this condition on the legal-index
      function. */
  predicate VacantNeverFits(p: Path, legal: LegalIndex) {
    legal(0, p.leaf, p.Len()) >= p.Len()
  }

  /** Every `deepest` entry is ⊥ or a level strictly above its own index. */
  predicate WellFormedDeepest(deepest: seq<nat>) {
    forall i :: 0 <= i < |deepest| ==> deepest[i] == FLOOR || i < deepest[i] < |deepest|
  }
}
