/** The capacity limit of a peek buffer, and the growth search of the unbounded peeks. */
module Growth {
  import opened Io

  const READ_CHUNK: nat := 1024

  /** Which lengths `Buffer::resize` accepts, and the error with which it refuses the others. */
  datatype Limit = Unlimited | AtMost(max: nat, refusal: Error) {
    predicate Admits(len: nat) { Unlimited? || len <= max }
  }

  /** The first of `growth`, `growth / 2`, ..., 1 that the buffer accepts on top of `len` bytes. */
  function FirstFit(limit: Limit, len: nat, growth: nat): (r: Option<nat>)
    requires growth >= 1
    ensures r.Some? ==> 1 <= r.value <= growth && limit.Admits(len + r.value)
    ensures r.None? <==> !limit.Admits(len + 1)
    decreases growth, len
  {
    if limit.Admits(len + growth) then Some(growth)
    else if growth > 1 then FirstFit(limit, len, growth / 2)
    else None
  }

  function GrowthFor(limit: Limit, len: nat): Option<nat> {
    FirstFit(limit, len, READ_CHUNK)
  }

  function Pow2(k: nat): nat { if k == 0 then 1 else 2 * Pow2(k - 1) }

  function PopCount(n: nat): nat { if n == 0 then 0 else n % 2 + PopCount(n / 2) }

  ghost predicate IsPowerOfTwo(n: nat) { exists k: nat :: n == Pow2(k) }

  lemma {:induction false} FirstFitIsTopBit(limit: Limit, len: nat, growth: nat, k: nat)
    requires limit.AtMost? && len < limit.max && growth == Pow2(k) && growth >= 1
    ensures FirstFit(limit, len, growth).Some? && IsPowerOfTwo(FirstFit(limit, len, growth).value)
    ensures var m := Min(growth, limit.max - len); var g := FirstFit(limit, len, growth).value;
            g <= m < 2 * g
    decreases k
  {
    if !limit.Admits(len + growth) {
      assert k > 0 && growth / 2 == Pow2(k - 1);
      FirstFitIsTopBit(limit, len, growth / 2, k - 1);
    }
  }

  /** The growth is the largest power of two not above READ_CHUNK or the free space,
      and there is none exactly when not one more byte fits. */
  lemma GrowthIsLargestPowerOfTwo(limit: Limit, len: nat)
    ensures GrowthFor(limit, len).None? <==> limit.AtMost? && limit.max <= len
    ensures limit.Unlimited? ==> GrowthFor(limit, len) == Some(READ_CHUNK)
    ensures limit.AtMost? && len < limit.max ==>
              var m := Min(READ_CHUNK, limit.max - len); var g := GrowthFor(limit, len).value;
              IsPowerOfTwo(g) && g <= m < 2 * g && (m == READ_CHUNK ==> g == READ_CHUNK)
  {
    Pow2Ten();
    if limit.AtMost? && len < limit.max {
      FirstFitIsTopBit(limit, len, READ_CHUNK, 10);
    }
  }

  lemma Pow2Ten()
    ensures Pow2(10) == READ_CHUNK
  {
    assert Pow2(5) == 32;
  }

  /** Taking the largest power of two out of `n` clears exactly its top bit. */
  lemma {:induction false} PopCountTopBit(n: nat, j: nat)
    requires Pow2(j) <= n < 2 * Pow2(j)
    ensures PopCount(n) == 1 + PopCount(n - Pow2(j))
    decreases j
  {
    if j > 0 {
      PopCountTopBit(n / 2, j - 1);
      assert (n - Pow2(j)) / 2 == n / 2 - Pow2(j - 1);
      assert (n - Pow2(j)) % 2 == n % 2;
      if n == Pow2(j) { assert n / 2 - Pow2(j - 1) == 0; }
    }
  }

  /** One call per full chunk of `free` bytes of room, and one per bit of what is left over. */
  function DrainCalls(free: nat): nat {
    free / READ_CHUNK + PopCount(free % READ_CHUNK)
  }

  lemma NoRoomNoCalls()
    ensures DrainCalls(0) == 0
  {
  }

  lemma WholeChunks(free: nat)
    ensures if free < READ_CHUNK then free / READ_CHUNK == 0 && free % READ_CHUNK == free
            else free / READ_CHUNK == 1 + (free - READ_CHUNK) / READ_CHUNK
                 && free % READ_CHUNK == (free - READ_CHUNK) % READ_CHUNK
  {
  }

  /** One growth out of `free` bytes of room uses up one full chunk, or one bit of a partial one. */
  lemma ChunkOrTopBit(free: nat, growth: nat)
    requires IsPowerOfTwo(growth) && growth <= Min(READ_CHUNK, free) < 2 * growth
    requires free >= READ_CHUNK ==> growth == READ_CHUNK
    ensures DrainCalls(free) == 1 + DrainCalls(free - growth)
  {
    WholeChunks(free);
    WholeChunks(free - growth);
    if free < READ_CHUNK {
      var j: nat :| growth == Pow2(j);
      PopCountTopBit(free, j);
    }
  }
}
