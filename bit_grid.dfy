/** The grid of 64 cells, one per bit, drawn from bit 63 down to bit 0.
    Cells at or above the active width are inactive; a click on an active
    cell flips its bit and masks the word. The mask is the one the grid read
    when it was drawn, so it comes in as a parameter. */
module BitGrid {
  import opened Words
  import opened BitOperations

  /** `is_active`: the cell lies below the active width. */
  predicate IsActive(bitIndex: nat, bitSize: nat)
  {
    bitIndex < bitSize
  }

  /** `bit_value`: the cell shows bit i of the masked word. */
  function BitValue(raw: bv64, currentMask: bv64, i: Pos): bool
  {
    ((raw & currentMask) >> i) & 1 == 1
  }

  /** With the width's own mask, a cell shows its bit when it is active and
      0 when it is not. */
  lemma BitValueShowsActiveBits(raw: bv64, bitSize: nat, i: Pos)
    requires IsWidth(bitSize)
    ensures BitValue(raw, Mask(bitSize), i) <==> IsActive(i as nat, bitSize) && Bit(raw, i)
  {
    MaskBits(bitSize);
    AndBit(raw, Mask(bitSize), i);
  }

  lemma AndBit(x: bv64, m: bv64, p: Pos)
    ensures Bit(x & m, p) <==> Bit(x, p) && Bit(m, p)
  {
  }

  /** The click handler: on an active cell, flip bit i, then mask. */
  method Click(ba: BitArray, bitSize: nat, currentMask: bv64, i: Pos)
    modifies ba
    ensures IsActive(i as nat, bitSize) ==> ba.raw == (old(ba.raw) ^ (1 << i)) & currentMask
    ensures !IsActive(i as nat, bitSize) ==> ba.raw == old(ba.raw)
  {
    if IsActive(i as nat, bitSize) {
      ba.raw := ba.raw ^ (1 << i);
      ba.raw := ba.raw & currentMask;
    }
  }

  /** After a click on an active cell the word has no bit outside the mask,
      bit i is flipped where the mask keeps it, and every other bit the mask
      keeps is as it was. */
  lemma ClickMeaning(raw: bv64, currentMask: bv64, i: Pos)
    ensures var r := (raw ^ (1 << i)) & currentMask;
      r & currentMask == r &&
      forall q: Pos :: Bit(currentMask, q) ==> (Bit(r, q) <==> (Bit(raw, q) != (q == i)))
  {
    MaskIdempotent(raw ^ (1 << i), currentMask);
    forall q: Pos | Bit(currentMask, q)
      ensures Bit((raw ^ (1 << i)) & currentMask, q) <==> (Bit(raw, q) != (q == i))
    {
      ClickBit(raw, currentMask, i, q);
    }
  }

  lemma ClickBit(raw: bv64, currentMask: bv64, i: Pos, q: Pos)
    requires Bit(currentMask, q)
    ensures Bit((raw ^ (1 << i)) & currentMask, q) <==> (Bit(raw, q) != (q == i))
  {
  }

  /** Two clicks on the same active cell leave the masked word. */
  lemma ClickTwice(raw: bv64, currentMask: bv64, i: Pos)
    ensures (((raw ^ (1 << i)) & currentMask) ^ (1 << i)) & currentMask == raw & currentMask
  {
  }
}
