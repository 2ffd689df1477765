/**
 The index arithmetic of growing a file through its doubly indirect block, and
 exactly when it allocates what the new length needs.
 */
module InodeGrowth {

  import opened InodeLayout

  /** Index of the last second-level block used by a file of `n` blocks; -1 if none. */
  function LastFirstLevel(n: nat): int
    requires n >= SINGLE_LIMIT
  {
    (n - SINGLE_LIMIT + INDIRECT_BLOCK_PTRS - 1) / INDIRECT_BLOCK_PTRS - 1
  }

  /** What the code takes for the index of the last pointer in that block. */
  function LastSecondLevel(n: nat): int
    requires n >= SINGLE_LIMIT
  {
    (n - SINGLE_LIMIT) % INDIRECT_BLOCK_PTRS - 1
  }

  /** The pointers the loop fills in second-level block `i`: from Start to Stop, inclusive. */
  function Start(cur: nat, i: int): int
    requires cur >= SINGLE_LIMIT
  {
    if i == LastFirstLevel(cur) + 1 then LastSecondLevel(cur) + 1 else 0
  }

  function Stop(new_: nat, i: int): int
    requires new_ >= SINGLE_LIMIT
  {
    if i == LastFirstLevel(new_) then LastSecondLevel(new_) else INDIRECT_BLOCK_PTRS
  }

  predicate Visited(cur: nat, new_: nat, i: int)
    requires SINGLE_LIMIT <= cur <= new_
  {
    cur < DOUBLE_LIMIT && LastFirstLevel(cur) + 1 <= i <= LastFirstLevel(new_)
  }

  /**
   The assertion that a pointer index stays inside its block fails, for the doubly indirect block or
   for a visited one.
   */
  ghost predicate Panics(cur: nat, new_: nat)
    requires SINGLE_LIMIT <= cur <= new_
  {
    && cur < DOUBLE_LIMIT
    && (|| LastFirstLevel(new_) >= INDIRECT_BLOCK_PTRS
        || exists i :: Visited(cur, new_, i) && Stop(new_, i) >= INDIRECT_BLOCK_PTRS)
  }

  ghost predicate Fills(cur: nat, new_: nat, i: int, j: int)
    requires SINGLE_LIMIT <= cur <= new_
  {
    Visited(cur, new_, i) && Start(cur, i) <= j <= Stop(new_, i)
  }

  /** Growing gives every new block a pointer, touches no old one, and does not panic. */
  ghost predicate GrowsCorrectly(cur: nat, new_: nat)
    requires SINGLE_LIMIT <= cur <= new_
  {
    && !Panics(cur, new_)
    && forall k: nat ::
         Fills(cur, new_, k / INDIRECT_BLOCK_PTRS, k % INDIRECT_BLOCK_PTRS) <==>
         cur - SINGLE_LIMIT <= k < new_ - SINGLE_LIMIT
  }

  /**
   Growth through the doubly indirect block is right exactly when the file ends on
   a second-level block boundary, gains fewer blocks than one index block holds, and
   gets no more blocks than the doubly indirect block leads to.
   */
  lemma GrowthIsExact(cur: nat, new_: nat)
    requires SINGLE_LIMIT <= cur < new_
    ensures GrowsCorrectly(cur, new_) <==>
      && (cur - SINGLE_LIMIT) % INDIRECT_BLOCK_PTRS == 0
      && new_ - cur < INDIRECT_BLOCK_PTRS
      && new_ <= DOUBLE_LIMIT
  {
    var c, n := cur - SINGLE_LIMIT, new_ - SINGLE_LIMIT;
    if new_ > DOUBLE_LIMIT {
      assert cur >= DOUBLE_LIMIT ==> !Fills(cur, new_, c / 128, c % 128);
    } else if c % 128 != 0 {
      // block `c` belongs to a second-level block the loop never visits
      assert c / 128 == LastFirstLevel(cur);
      assert !Fills(cur, new_, c / 128, c % 128);
    } else if n - c >= 128 {
      if n % 128 == 0 && n - c == 128 {
        assert !Fills(cur, new_, c / 128, c % 128);
      } else {
        assert Visited(cur, new_, c / 128) && Stop(new_, c / 128) >= INDIRECT_BLOCK_PTRS;
      }
    } else {
      forall k: nat
        ensures Fills(cur, new_, k / INDIRECT_BLOCK_PTRS, k % INDIRECT_BLOCK_PTRS) <==> c <= k < n
      {
        assert LastFirstLevel(cur) + 1 == c / 128 == LastFirstLevel(new_);
      }
      assert !Panics(cur, new_);
    }
  }

  /** A file of 251 blocks cannot gain one more: nothing is allocated for it. */
  lemma GrowthFailsAt251()
    ensures !GrowsCorrectly(251, 252)
    ensures forall i, j :: !Fills(251, 252, i, j)
  {
    GrowthIsExact(251, 252);
  }

  /** Growth of a file of `cur` blocks to `new_` blocks by all three kinds of pointer. */
  predicate GrowthSupported(cur: nat, new_: nat) {
    || new_ <= SINGLE_LIMIT
    || new_ <= cur
    || var c := if cur < SINGLE_LIMIT then SINGLE_LIMIT else cur;
       (c - SINGLE_LIMIT) % INDIRECT_BLOCK_PTRS == 0 && new_ - c < INDIRECT_BLOCK_PTRS && new_ <= DOUBLE_LIMIT
  }

  /** So no file ever comes to have more than 377 blocks by supported growth. */
  lemma SupportedStaysSmall(cur: nat, new_: nat)
    requires cur <= GROWTH_LIMIT && GrowthSupported(cur, new_) && cur < new_
    ensures new_ <= GROWTH_LIMIT
    ensures new_ > SINGLE_LIMIT ==> cur <= SINGLE_LIMIT
  {
  }
}
