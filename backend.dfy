/** The desktop host's commands: each takes the word by value and answers
    with a new word or a listing. */
module Backend {
  import opened Words
  import opened BitOperations

  /** `toggle_bit`: wraps the word in a container, toggles bit `position`
      there and hands the word back. */
  method ToggleBitCommand(bitArray: bv64, position: Pos) returns (r: bv64)
    ensures r == bitArray ^ (1 << position)
  {
    var ba := new BitArray.Of(bitArray);
    ba.ToggleBit(position);
    r := ba.raw;
  }

  /** `get_bits`: the container's listing, least significant bit first. */
  method GetBits(state: bv64) returns (bits: seq<bool>)
    ensures |bits| == 64
    ensures forall i :: 0 <= i < 64 ==> bits[i] == Bit(state, i as bv8)
  {
    var ba := new BitArray.Of(state);
    bits := ba.GetAllBits();
  }

  /** `get_raw`: the word, unchanged. */
  function GetRaw(state: bv64): (r: bv64)
    ensures r == state
  {
    state
  }

  /** `u64::reverse_bits`, as the usual swap network: neighbouring bits,
      then pairs, nibbles, bytes, half-words and words change places. */
  function ReverseBits(x: bv64): bv64
  {
    var a := ((x >> 1) & 0x5555_5555_5555_5555) | ((x & 0x5555_5555_5555_5555) << 1);
    var b := ((a >> 2) & 0x3333_3333_3333_3333) | ((a & 0x3333_3333_3333_3333) << 2);
    var c := ((b >> 4) & 0x0F0F_0F0F_0F0F_0F0F) | ((b & 0x0F0F_0F0F_0F0F_0F0F) << 4);
    var d := ((c >> 8) & 0x00FF_00FF_00FF_00FF) | ((c & 0x00FF_00FF_00FF_00FF) << 8);
    var e := ((d >> 16) & 0x0000_FFFF_0000_FFFF) | ((d & 0x0000_FFFF_0000_FFFF) << 16);
    (e >> 32) | (e << 32)
  }

  /** `process_bits`: the word with its bit order reversed. */
  function ProcessBits(bits: bv64): bv64
  {
    ReverseBits(bits)
  }

  /** Bit i of the processed word is bit 63 - i of the input. */
  lemma ProcessBitsMirrors(bits: bv64)
    ensures forall p: Pos :: Bit(ProcessBits(bits), p) == Bit(bits, 63 - p)
  {
    forall p: Pos
      ensures Bit(ProcessBits(bits), p) == Bit(bits, 63 - p)
    {
      MirrorBit(bits, p);
    }
  }

  lemma MirrorBit(x: bv64, p: Pos)
    ensures Bit(ReverseBits(x), p) == Bit(x, 63 - p)
  {
  }

  /** Processing twice gives the word back; the all-zero and all-one words
      are their own reversals. */
  lemma ProcessBitsInvolution(bits: bv64)
    ensures ProcessBits(ProcessBits(bits)) == bits
    ensures ProcessBits(0) == 0 && ProcessBits(AllOnes) == AllOnes
  {
  }
}
