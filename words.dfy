/** The 64-bit word every part of the application holds (Rust `u64`), its
    bits and bytes, the width-mask rule, and the link between a word and the
    natural number it denotes. */
module Words {
  import opened Digits

  /** A bit position inside a word; the source passes positions as `u8`. */
  type Pos = p: bv8 | p < 64

  /** A byte index inside a word, 0 for the least significant byte. */
  type ByteIndex = k: bv8 | k < 8

  const AllOnes: bv64 := 0xFFFF_FFFF_FFFF_FFFF

  /** `(x >> p) & 1 == 1`: the source's test of one bit. */
  predicate Bit(x: bv64, p: Pos)
  {
    (x >> p) & 1 == 1
  }

  /** The widths the width selector offers. */
  predicate IsWidth(w: nat)
  {
    w == 8 || w == 16 || w == 32 || w == 64
  }

  /** The width-mask rule: 8 -> 0xFF, 16 -> 0xFFFF, 32 -> 0xFFFF_FFFF and
      every other width -> all ones. */
  function Mask(w: nat): bv64
  {
    match w
    case 8 => 0xFF
    case 16 => 0xFFFF
    case 32 => 0xFFFF_FFFF
    case _ => AllOnes
  }

  /** The mask for a width on offer has exactly the bits below the width set. */
  lemma MaskBits(w: nat)
    requires IsWidth(w)
    ensures forall p: Pos :: Bit(Mask(w), p) <==> p as nat < w
  {
  }

  /** "No bits set at or above the active width". */
  predicate Masked(x: bv64, w: nat)
  {
    x & Mask(w) == x
  }

  /** Masking twice is masking once. */
  lemma MaskIdempotent(x: bv64, m: bv64)
    ensures (x & m) & m == x & m
  {
  }

  /** `value & mask()`: the masking every handler applies before it stores
      a word. */
  function Fit(x: bv64, m: bv64): bv64
  {
    x & m
  }

  /** A masked word has no bit outside the mask. */
  lemma FitMasked(x: bv64, m: bv64)
    ensures Fit(x, m) & m == Fit(x, m)
  {
    MaskIdempotent(x, m);
  }

  /** 2^w for the widths on offer. */
  function WidthLimit(w: nat): nat
    requires IsWidth(w)
  {
    match w
    case 8 => 0x100
    case 16 => 0x1_0000
    case 32 => 0x1_0000_0000
    case _ => 0x1_0000_0000_0000_0000
  }

  lemma WidthLimitPow(w: nat)
    requires IsWidth(w)
    ensures WidthLimit(w) == Pow(2, w)
  {
    PowBytes(1); PowBytes(2); PowBytes(4); PowBytes(8);
    assert Pow(256, 1) == 0x100;
    assert Pow(256, 2) == 0x1_0000;
    assert Pow(256, 3) == 0x100_0000;
    assert Pow(256, 4) == 0x1_0000_0000;
    assert Pow(256, 5) == 0x100_0000_0000;
    assert Pow(256, 6) == 0x1_0000_0000_0000;
    assert Pow(256, 7) == 0x100_0000_0000_0000;
  }

  // --------------------------------------------------------------- bytes

  /** The byte of x that starts at bit 8k. */
  function ByteAt(x: bv64, k: ByteIndex): bv8
  {
    ((x >> (8 * k)) & 0xFF) as bv8
  }

  /** The word with bytes b0 (least significant) to b7. */
  function Join(b0: bv8, b1: bv8, b2: bv8, b3: bv8, b4: bv8, b5: bv8, b6: bv8, b7: bv8): bv64
  {
    (b0 as bv64) | (b1 as bv64 << 8) | (b2 as bv64 << 16) | (b3 as bv64 << 24)
    | (b4 as bv64 << 32) | (b5 as bv64 << 40) | (b6 as bv64 << 48) | (b7 as bv64 << 56)
  }

  lemma BytesOfJoin(b0: bv8, b1: bv8, b2: bv8, b3: bv8, b4: bv8, b5: bv8, b6: bv8, b7: bv8)
    ensures var x := Join(b0, b1, b2, b3, b4, b5, b6, b7);
      ByteAt(x, 0) == b0 && ByteAt(x, 1) == b1 && ByteAt(x, 2) == b2 && ByteAt(x, 3) == b3 &&
      ByteAt(x, 4) == b4 && ByteAt(x, 5) == b5 && ByteAt(x, 6) == b6 && ByteAt(x, 7) == b7
  {
  }

  lemma JoinOfBytes(x: bv64)
    ensures Join(ByteAt(x, 0), ByteAt(x, 1), ByteAt(x, 2), ByteAt(x, 3),
                 ByteAt(x, 4), ByteAt(x, 5), ByteAt(x, 6), ByteAt(x, 7)) == x
  {
  }

  /** Two words are equal exactly when all their bytes are. */
  lemma BytesEqual(x: bv64, y: bv64)
    requires forall k: ByteIndex :: ByteAt(x, k) == ByteAt(y, k)
    ensures x == y
  {
    assert ByteAt(x, 0) == ByteAt(y, 0) && ByteAt(x, 1) == ByteAt(y, 1);
    assert ByteAt(x, 2) == ByteAt(y, 2) && ByteAt(x, 3) == ByteAt(y, 3);
    assert ByteAt(x, 4) == ByteAt(y, 4) && ByteAt(x, 5) == ByteAt(y, 5);
    assert ByteAt(x, 6) == ByteAt(y, 6) && ByteAt(x, 7) == ByteAt(y, 7);
    JoinOfBytes(x);
    JoinOfBytes(y);
  }

  /** Rust's `u64::to_le_bytes`: least significant byte first. */
  function LeBytes(x: bv64): (bs: seq<bv8>)
    ensures |bs| == 8
  {
    [ByteAt(x, 0), ByteAt(x, 1), ByteAt(x, 2), ByteAt(x, 3),
     ByteAt(x, 4), ByteAt(x, 5), ByteAt(x, 6), ByteAt(x, 7)]
  }

  /** Rust's `u64::to_be_bytes`: most significant byte first. */
  function BeBytes(x: bv64): (bs: seq<bv8>)
    ensures |bs| == 8
  {
    [ByteAt(x, 7), ByteAt(x, 6), ByteAt(x, 5), ByteAt(x, 4),
     ByteAt(x, 3), ByteAt(x, 2), ByteAt(x, 1), ByteAt(x, 0)]
  }

  function Reverse<T>(s: seq<T>): (r: seq<T>)
    ensures |r| == |s| && forall i :: 0 <= i < |s| ==> r[i] == s[|s| - 1 - i]
  {
    if s == [] then [] else Reverse(s[1..]) + [s[0]]
  }

  lemma ReverseAt<T>(s: seq<T>, i: nat)
    requires i < |s|
    ensures Reverse(s)[i] == s[|s| - 1 - i]
  {
  }

  lemma ReverseReverse<T>(s: seq<T>)
    ensures Reverse(Reverse(s)) == s
  {
  }

  lemma BeIsReversedLe(x: bv64)
    ensures BeBytes(x) == Reverse(LeBytes(x))
  {
    ReverseEight(ByteAt(x, 0), ByteAt(x, 1), ByteAt(x, 2), ByteAt(x, 3),
                 ByteAt(x, 4), ByteAt(x, 5), ByteAt(x, 6), ByteAt(x, 7));
  }

  lemma ReverseEight<T>(a0: T, a1: T, a2: T, a3: T, a4: T, a5: T, a6: T, a7: T)
    ensures Reverse([a0, a1, a2, a3, a4, a5, a6, a7]) == [a7, a6, a5, a4, a3, a2, a1, a0]
  {
    var r := Reverse([a0, a1, a2, a3, a4, a5, a6, a7]);
    assert r[0] == a7 && r[1] == a6 && r[2] == a5 && r[3] == a4;
    assert r[4] == a3 && r[5] == a2 && r[6] == a1 && r[7] == a0;
  }

  // ------------------------------------------- words as natural numbers

  const TwoTo64: nat := 0x1_0000_0000_0000_0000

  /** The number with base-256 digits d0 (least significant) to d7. */
  function Radix256(d0: nat, d1: nat, d2: nat, d3: nat, d4: nat, d5: nat, d6: nat, d7: nat): nat
  {
    d0 + 0x100 * d1 + 0x1_0000 * d2 + 0x100_0000 * d3 + 0x1_0000_0000 * d4
    + 0x100_0000_0000 * d5 + 0x1_0000_0000_0000 * d6 + 0x100_0000_0000_0000 * d7
  }

  /** The number a byte denotes (Rust's `b as u64` on a `u8`). */
  function ByteValue(b: bv8): (n: nat)
    ensures n < 256
  {
    b as nat
  }

  /** The byte holding n mod 256 (Rust's truncating `as u8`). */
  function LowByte(n: nat): (b: bv8)
    ensures ByteValue(b) == n % 256
  {
    var m := n % 256;
    SmallByte(m);
    m as bv8
  }

  lemma SmallByte(m: nat)
    requires m < 256
    ensures ByteValue(m as bv8) == m
  {
  }

  lemma LowByteOfValue(b: bv8)
    ensures LowByte(ByteValue(b)) == b
  {
    var n := ByteValue(b);
    ModBelow(n, 256);
    ByteRoundTrip(b);
  }

  lemma ByteRoundTrip(b: bv8)
    ensures (b as nat) as bv8 == b
  {
  }

  lemma ModBelow(n: nat, m: nat)
    requires n < m
    ensures n % m == n
  {
  }

  /** The unsigned number a word denotes (Rust's `u64` value). */
  function ToNat(x: bv64): (n: nat)
    ensures n < TwoTo64
  {
    Radix256(ByteValue(ByteAt(x, 0)), ByteValue(ByteAt(x, 1)), ByteValue(ByteAt(x, 2)),
             ByteValue(ByteAt(x, 3)), ByteValue(ByteAt(x, 4)), ByteValue(ByteAt(x, 5)),
             ByteValue(ByteAt(x, 6)), ByteValue(ByteAt(x, 7)))
  }

  /** The word that denotes n mod 2^64: the truncating `as u64` cast. */
  function FromNat(n: nat): bv64
  {
    var q1 := n / 256; var q2 := q1 / 256; var q3 := q2 / 256; var q4 := q3 / 256;
    var q5 := q4 / 256; var q6 := q5 / 256; var q7 := q6 / 256;
    Join(LowByte(n), LowByte(q1), LowByte(q2), LowByte(q3),
         LowByte(q4), LowByte(q5), LowByte(q6), LowByte(q7))
  }

  lemma ToNatOfBytes(x: bv64, b0: bv8, b1: bv8, b2: bv8, b3: bv8, b4: bv8, b5: bv8, b6: bv8, b7: bv8)
    requires ByteAt(x, 0) == b0 && ByteAt(x, 1) == b1 && ByteAt(x, 2) == b2 && ByteAt(x, 3) == b3
    requires ByteAt(x, 4) == b4 && ByteAt(x, 5) == b5 && ByteAt(x, 6) == b6 && ByteAt(x, 7) == b7
    ensures ToNat(x) == Radix256(ByteValue(b0), ByteValue(b1), ByteValue(b2), ByteValue(b3),
                                 ByteValue(b4), ByteValue(b5), ByteValue(b6), ByteValue(b7))
  {
  }

  /** Division by 256 peels the base-256 digits off n from the bottom. */
  lemma RadixDigits(n: nat)
    requires n < TwoTo64
    ensures var q1 := n / 256; var q2 := q1 / 256; var q3 := q2 / 256; var q4 := q3 / 256;
      var q5 := q4 / 256; var q6 := q5 / 256; var q7 := q6 / 256;
      n == Radix256(n % 256, q1 % 256, q2 % 256, q3 % 256, q4 % 256, q5 % 256, q6 % 256, q7 % 256)
  {
    var q1 := n / 256; var q2 := q1 / 256; var q3 := q2 / 256; var q4 := q3 / 256;
    var q5 := q4 / 256; var q6 := q5 / 256; var q7 := q6 / 256; var q8 := q7 / 256;
    assert n == n % 256 + 256 * q1;
    assert q1 == q1 % 256 + 256 * q2;
    assert q2 == q2 % 256 + 256 * q3;
    assert q3 == q3 % 256 + 256 * q4;
    assert q4 == q4 % 256 + 256 * q5;
    assert q5 == q5 % 256 + 256 * q6;
    assert q6 == q6 % 256 + 256 * q7;
    assert q7 == q7 % 256 + 256 * q8;
    assert q8 == 0;
  }

  /** ... and those are the only digits: a base-256 sum of digits below 256
      gives them back under division. */
  lemma DigitsOfRadix(d0: nat, d1: nat, d2: nat, d3: nat, d4: nat, d5: nat, d6: nat, d7: nat)
    requires d0 < 256 && d1 < 256 && d2 < 256 && d3 < 256
    requires d4 < 256 && d5 < 256 && d6 < 256 && d7 < 256
    ensures var n := Radix256(d0, d1, d2, d3, d4, d5, d6, d7);
      var q1 := n / 256; var q2 := q1 / 256; var q3 := q2 / 256; var q4 := q3 / 256;
      var q5 := q4 / 256; var q6 := q5 / 256; var q7 := q6 / 256;
      n % 256 == d0 && q1 % 256 == d1 && q2 % 256 == d2 && q3 % 256 == d3 &&
      q4 % 256 == d4 && q5 % 256 == d5 && q6 % 256 == d6 && q7 % 256 == d7
  {
    var n := Radix256(d0, d1, d2, d3, d4, d5, d6, d7);
    var r1 := Radix256(d1, d2, d3, d4, d5, d6, d7, 0);
    var r2 := Radix256(d2, d3, d4, d5, d6, d7, 0, 0);
    var r3 := Radix256(d3, d4, d5, d6, d7, 0, 0, 0);
    var r4 := Radix256(d4, d5, d6, d7, 0, 0, 0, 0);
    var r5 := Radix256(d5, d6, d7, 0, 0, 0, 0, 0);
    var r6 := Radix256(d6, d7, 0, 0, 0, 0, 0, 0);
    var r7 := Radix256(d7, 0, 0, 0, 0, 0, 0, 0);
    DivModUnique(n, 256, r1, d0);
    DivModUnique(r1, 256, r2, d1);
    DivModUnique(r2, 256, r3, d2);
    DivModUnique(r3, 256, r4, d3);
    DivModUnique(r4, 256, r5, d4);
    DivModUnique(r5, 256, r6, d5);
    DivModUnique(r6, 256, r7, d6);
  }

  lemma FromNatOfDigits(n: nat, b0: bv8, b1: bv8, b2: bv8, b3: bv8, b4: bv8, b5: bv8, b6: bv8, b7: bv8)
    requires var q1 := n / 256; var q2 := q1 / 256; var q3 := q2 / 256; var q4 := q3 / 256;
      var q5 := q4 / 256; var q6 := q5 / 256; var q7 := q6 / 256;
      LowByte(n) == b0 && LowByte(q1) == b1 && LowByte(q2) == b2 && LowByte(q3) == b3 &&
      LowByte(q4) == b4 && LowByte(q5) == b5 && LowByte(q6) == b6 && LowByte(q7) == b7
    ensures FromNat(n) == Join(b0, b1, b2, b3, b4, b5, b6, b7)
  {
  }

  /** Every number below 2^64 is denoted by the word FromNat builds. */
  lemma ToNatFromNat(n: nat)
    requires n < TwoTo64
    ensures ToNat(FromNat(n)) == n
  {
    var q1 := n / 256; var q2 := q1 / 256; var q3 := q2 / 256; var q4 := q3 / 256;
    var q5 := q4 / 256; var q6 := q5 / 256; var q7 := q6 / 256;
    var b0, b1, b2, b3 := LowByte(n), LowByte(q1), LowByte(q2), LowByte(q3);
    var b4, b5, b6, b7 := LowByte(q4), LowByte(q5), LowByte(q6), LowByte(q7);
    FromNatOfDigits(n, b0, b1, b2, b3, b4, b5, b6, b7);
    BytesOfJoin(b0, b1, b2, b3, b4, b5, b6, b7);
    ToNatOfBytes(FromNat(n), b0, b1, b2, b3, b4, b5, b6, b7);
    RadixDigits(n);
  }

  /** Every word is the word of the number it denotes. */
  lemma FromNatToNat(x: bv64)
    ensures FromNat(ToNat(x)) == x
  {
    var b0, b1, b2, b3 := ByteAt(x, 0), ByteAt(x, 1), ByteAt(x, 2), ByteAt(x, 3);
    var b4, b5, b6, b7 := ByteAt(x, 4), ByteAt(x, 5), ByteAt(x, 6), ByteAt(x, 7);
    ToNatOfBytes(x, b0, b1, b2, b3, b4, b5, b6, b7);
    FromRadix(b0, b1, b2, b3, b4, b5, b6, b7);
    JoinOfBytes(x);
  }

  /** The number spelled by eight bytes converts back to the word they join into. */
  lemma FromRadix(b0: bv8, b1: bv8, b2: bv8, b3: bv8, b4: bv8, b5: bv8, b6: bv8, b7: bv8)
    ensures FromNat(Radix256(ByteValue(b0), ByteValue(b1), ByteValue(b2), ByteValue(b3),
                             ByteValue(b4), ByteValue(b5), ByteValue(b6), ByteValue(b7)))
         == Join(b0, b1, b2, b3, b4, b5, b6, b7)
  {
    var n := Radix256(ByteValue(b0), ByteValue(b1), ByteValue(b2), ByteValue(b3),
                      ByteValue(b4), ByteValue(b5), ByteValue(b6), ByteValue(b7));
    DigitsOfRadix(ByteValue(b0), ByteValue(b1), ByteValue(b2), ByteValue(b3),
                  ByteValue(b4), ByteValue(b5), ByteValue(b6), ByteValue(b7));
    LowByteOfValue(b0); LowByteOfValue(b1); LowByteOfValue(b2); LowByteOfValue(b3);
    LowByteOfValue(b4); LowByteOfValue(b5); LowByteOfValue(b6); LowByteOfValue(b7);
    FromNatOfDigits(n, b0, b1, b2, b3, b4, b5, b6, b7);
  }

  /** Equal numbers, equal words. */
  lemma ToNatInjective(x: bv64, y: bv64)
    requires ToNat(x) == ToNat(y)
    ensures x == y
  {
    FromNatToNat(x);
    FromNatToNat(y);
  }

  /** A word masked to w bits denotes a number below 2^w. */
  lemma MaskedBelow(x: bv64, w: nat)
    requires IsWidth(w) && Masked(x, w)
    ensures ToNat(x) < WidthLimit(w)
  {
    match w
    case 8 => MaskedBelow8(x);
    case 16 => MaskedBelow16(x);
    case 32 => MaskedBelow32(x);
    case 64 =>
  }

  lemma MaskedBelow8(x: bv64)
    requires Masked(x, 8)
    ensures ToNat(x) < WidthLimit(8)
  {
    HighBytes8(x);
    ToNatOfBytes(x, ByteAt(x, 0), 0, 0, 0, 0, 0, 0, 0);
  }

  lemma MaskedBelow16(x: bv64)
    requires Masked(x, 16)
    ensures ToNat(x) < WidthLimit(16)
  {
    HighBytes16(x);
    ToNatOfBytes(x, ByteAt(x, 0), ByteAt(x, 1), 0, 0, 0, 0, 0, 0);
  }

  lemma MaskedBelow32(x: bv64)
    requires Masked(x, 32)
    ensures ToNat(x) < WidthLimit(32)
  {
    HighBytes32(x);
    ToNatOfBytes(x, ByteAt(x, 0), ByteAt(x, 1), ByteAt(x, 2), ByteAt(x, 3), 0, 0, 0, 0);
  }

  lemma HighBytes8(x: bv64)
    requires Masked(x, 8)
    ensures ByteAt(x, 1) == 0 && ByteAt(x, 2) == 0 && ByteAt(x, 3) == 0 && ByteAt(x, 4) == 0
    ensures ByteAt(x, 5) == 0 && ByteAt(x, 6) == 0 && ByteAt(x, 7) == 0
  {
  }

  lemma HighBytes16(x: bv64)
    requires Masked(x, 16)
    ensures ByteAt(x, 2) == 0 && ByteAt(x, 3) == 0 && ByteAt(x, 4) == 0
    ensures ByteAt(x, 5) == 0 && ByteAt(x, 6) == 0 && ByteAt(x, 7) == 0
  {
  }

  lemma HighBytes32(x: bv64)
    requires Masked(x, 32)
    ensures ByteAt(x, 4) == 0 && ByteAt(x, 5) == 0 && ByteAt(x, 6) == 0 && ByteAt(x, 7) == 0
  {
  }
}
