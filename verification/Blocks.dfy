/** Matching blocks between two texts, as the patience matcher reports them. */
module Blocks {
  import opened Wrappers

  /** `size` elements from `left` in the first text equal those from `right` in the second. */
  datatype Block = Block(left: nat, right: nat, size: nat)

  ghost predicate Agrees<T>(b: Block, first: seq<T>, second: seq<T>) {
    && b.left + b.size <= |first| && b.right + b.size <= |second|
    && first[b.left..b.left + b.size] == second[b.right..b.right + b.size]
  }

  /**
   The contract of the matcher: blocks agree, increase in both texts without overlap, and
   end with the empty block at the two ends.
   */
  ghost predicate ValidBlocks<T>(blocks: seq<Block>, first: seq<T>, second: seq<T>) {
    && |blocks| > 0 && blocks[|blocks| - 1] == Block(|first|, |second|, 0)
    && (forall k | 0 <= k < |blocks| :: Agrees(blocks[k], first, second))
    && (forall k, l | 0 <= k < l < |blocks| ::
          && blocks[k].left + blocks[k].size <= blocks[l].left
          && blocks[k].right + blocks[k].size <= blocks[l].right)
  }

  /** The element of the first text that element `i` of the second is matched with. */
  function MatchOf(blocks: seq<Block>, i: nat): Option<nat> {
    if |blocks| == 0 then None
    else
      var b := blocks[|blocks| - 1];
      if b.right <= i < b.right + b.size then Some(b.left + (i - b.right)) else MatchOf(blocks[..|blocks| - 1], i)
  }

  ghost predicate InBlock(b: Block, i: nat) {
    b.right <= i < b.right + b.size
  }

  /** Blocks do not overlap, so the block an element lies in decides its match. */
  lemma {:induction false} MatchInBlock<T>(blocks: seq<Block>, n: nat, k: nat, i: nat, first: seq<T>, second: seq<T>)
    requires ValidBlocks(blocks, first, second) && k < n <= |blocks|
    requires blocks[k].right <= i < blocks[k].right + blocks[k].size
    ensures MatchOf(blocks[..n], i) == Some(blocks[k].left + (i - blocks[k].right))
    decreases n
  {
    assert blocks[..n][..n - 1] == blocks[..n - 1];
    if k < n - 1 {
      MatchInBlock(blocks, n - 1, k, i, first, second);
    }
  }

  /** A match points at an equal element. */
  lemma {:induction false} MatchIsEqual<T>(blocks: seq<Block>, n: nat, i: nat, first: seq<T>, second: seq<T>)
    requires ValidBlocks(blocks, first, second) && n <= |blocks| && i < |second|
    ensures var m := MatchOf(blocks[..n], i); m.Some? ==> m.value < |first| && first[m.value] == second[i]
    decreases n
  {
    if n > 0 {
      var b := blocks[n - 1];
      assert blocks[..n][..n - 1] == blocks[..n - 1];
      if InBlock(b, i) {
        assert Agrees(b, first, second);
        assert first[b.left..b.left + b.size][i - b.right] == second[b.right..b.right + b.size][i - b.right];
      } else {
        MatchIsEqual(blocks, n - 1, i, first, second);
      }
    }
  }

  /** What lies in no block is not matched. */
  lemma {:induction false} MatchMisses(blocks: seq<Block>, i: nat)
    requires forall k | 0 <= k < |blocks| :: !(blocks[k].right <= i < blocks[k].right + blocks[k].size)
    ensures MatchOf(blocks, i) == None
  {
    if |blocks| > 0 {
      MatchMisses(blocks[..|blocks| - 1], i);
    }
  }
}
