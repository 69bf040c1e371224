/**
 * The block arithmetic shared by both piece downloaders: a piece of `L`
 * bytes is requested as 16 KiB blocks, block `i` starting at `i * 16384` and
 * as long as what is left of the piece, at most 16384.
 */
module PieceBlocks {
  import opened Bytes
  import opened Streams

  const BLOCK_SIZE: int := 16384

  /** C#'s `/` on `int`: the quotient truncated toward zero. */
  function TruncDiv(a: int, b: int): (r: int)
    requires b > 0
    ensures a >= 0 ==> r == a / b
  {
    if a >= 0 then a / b else -((-a) / b)
  }

  /** `(L + BlockSize - 1) / BlockSize` in 32-bit arithmetic. */
  function NumBlocks(L: int32): int {
    TruncDiv(Wrap32(L + BLOCK_SIZE - 1), BLOCK_SIZE)
  }

  /** The largest piece length for which the rounding-up sum does not overflow. */
  const MAX_UNWRAPPED: int := INT32_MAX - (BLOCK_SIZE - 1)

  /** Up to that length, the block count is the length divided by 16384, rounded up. */
  lemma {:induction false} NumBlocksCeil(L: int32)
    requires 0 <= L <= MAX_UNWRAPPED
    ensures NumBlocks(L) >= 0
    ensures L <= NumBlocks(L) * BLOCK_SIZE < L + BLOCK_SIZE
  {
    var n := (L + BLOCK_SIZE - 1) / BLOCK_SIZE;
    assert n * BLOCK_SIZE <= L + BLOCK_SIZE - 1 < n * BLOCK_SIZE + BLOCK_SIZE;
  }

  /** Beyond it the sum wraps to a negative number and no block is counted. */
  lemma {:induction false} NumBlocksWraps(L: int32)
    requires L > MAX_UNWRAPPED
    ensures NumBlocks(L) <= 0
  {
    assert Wrap32(L + BLOCK_SIZE - 1) == L + BLOCK_SIZE - 1 - 0x1_0000_0000;
  }

  /** Where block `i` starts. */
  function BlockBegin(i: nat): int {
    i * BLOCK_SIZE
  }

  /** `Math.Min(BlockSize, L - begin)`. */
  function BlockLength(L: int, i: nat): (r: int)
    ensures r <= BLOCK_SIZE && BlockBegin(i) + r <= L
  {
    Min(BLOCK_SIZE, L - BlockBegin(i))
  }

  /**
   * The blocks tile the piece: each is non-empty and at most 16384 bytes,
   * ends where the next begins, and the last one ends at the end of the piece.
   */
  lemma {:induction false} BlocksTile(L: int32, i: nat)
    requires 0 <= L <= MAX_UNWRAPPED && i < NumBlocks(L)
    ensures 0 < BlockLength(L, i) <= BLOCK_SIZE
    ensures BlockBegin(i) + BlockLength(L, i) <= L
    ensures i + 1 < NumBlocks(L) ==> BlockBegin(i) + BlockLength(L, i) == BlockBegin(i + 1)
    ensures i + 1 == NumBlocks(L) ==> BlockBegin(i) + BlockLength(L, i) == L
  {
    NumBlocksCeil(L);
    var n := NumBlocks(L);
    assert (i + 1) * BLOCK_SIZE <= n * BLOCK_SIZE;
    if i + 1 < n {
      assert (i + 2) * BLOCK_SIZE <= n * BLOCK_SIZE;
    }
  }

  /** The total length of blocks `0 .. k-1`. */
  function BlocksTotal(L: int, k: nat): int {
    if k == 0 then 0 else BlocksTotal(L, k - 1) + BlockLength(L, k - 1)
  }

  /** The first `k` blocks cover `min(k * 16384, L)` bytes, so all of them cover the piece. */
  lemma {:induction false} BlocksCover(L: int32, k: nat)
    requires 0 <= L <= MAX_UNWRAPPED && k <= NumBlocks(L)
    ensures BlocksTotal(L, k) == Min(k * BLOCK_SIZE, L)
    ensures k == NumBlocks(L) ==> BlocksTotal(L, k) == L
  {
    NumBlocksCeil(L);
    if k > 0 {
      BlocksCover(L, k - 1);
      BlocksTile(L, k - 1);
    }
  }
}
