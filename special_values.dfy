/** The special-value generator: eight buttons, each loading the canonical
    bit pattern of one IEEE 754 value (NaN, infinity, zero, the extreme
    finite numbers) for the active width into the shared bit container. */
module SpecialValues {
  import opened Words
  import opened BitOperations
  import opened Ieee754

  /** The entries of the table, in the order the buttons appear. */
  datatype Special = QuietNaN | SignalingNaN | PosInf | NegInf | PosZero | NegZero | MinPos | MaxPos

  const Table: seq<Special> := [QuietNaN, SignalingNaN, PosInf, NegInf, PosZero, NegZero, MinPos, MaxPos]

  /** The button label of an entry. */
  function Name(k: Special): string
  {
    match k
    case QuietNaN => "NaN (Quiet)"
    case SignalingNaN => "NaN (Signaling)"
    case PosInf => "+Inf"
    case NegInf => "-Inf"
    case PosZero => "+0"
    case NegZero => "-0"
    case MinPos => "Min Pos"
    case MaxPos => "Max Pos"
  }

  /** The generator of an entry: its pattern at widths 16, 32 and 64, and 0
      at every other width ("+0" is 0 at all of them). */
  function Generate(k: Special, bitSize: nat): bv64
  {
    match k
    case QuietNaN => ByWidth(bitSize, 0x7E00, 0x7FC0_0000, 0x7FF8_0000_0000_0000)
    case SignalingNaN => ByWidth(bitSize, 0x7C01, 0x7F80_0001, 0x7FF0_0000_0000_0001)
    case PosInf => ByWidth(bitSize, 0x7C00, 0x7F80_0000, 0x7FF0_0000_0000_0000)
    case NegInf => ByWidth(bitSize, 0xFC00, 0xFF80_0000, 0xFFF0_0000_0000_0000)
    case PosZero => 0
    case NegZero => ByWidth(bitSize, 0x8000, 0x8000_0000, 0x8000_0000_0000_0000)
    case MinPos => ByWidth(bitSize, 0x0001, 0x0000_0001, 0x0000_0000_0000_0001)
    case MaxPos => ByWidth(bitSize, 0x7BFF, 0x7F7F_FFFF, 0x7FEF_FFFF_FFFF_FFFF)
  }

  /** One generator: a pattern for each of the three float widths, 0 for
      any other width. */
  function ByWidth(bitSize: nat, half: bv64, single: bv64, double: bv64): bv64
  {
    match bitSize
    case 16 => half
    case 32 => single
    case 64 => double
    case _ => 0
  }

  /** The generator's own mask: 16 and 32 bits their masks, every other
      width (8 included) all ones. */
  function LocalMask(bitSize: nat): bv64
  {
    match bitSize
    case 16 => 0xFFFF
    case 32 => 0xFFFF_FFFF
    case _ => AllOnes
  }

  /** The word a button loads: the generated pattern under the local mask. */
  function ButtonValue(k: Special, bitSize: nat): bv64
  {
    Generate(k, bitSize) & LocalMask(bitSize)
  }

  /** A button is disabled when the word it would load is 0. */
  predicate Disabled(k: Special, bitSize: nat)
  {
    ButtonValue(k, bitSize) == 0
  }

  /** The format the decoder picks at each of the three float widths. */
  function FormatOf(bitSize: nat): Format
  {
    if bitSize == 16 then Half else if bitSize == 32 then Single else Double
  }

  /** The top bit of the trailing significand, which tells a quiet NaN from
      a signaling one (section 6.2.1 of IEEE 754-2019). */
  function QuietBit(f: Format): bv64
  {
    match f
    case Half => 0x200
    case Single => 0x40_0000
    case Double => 0x8_0000_0000_0000
  }

  /** The trailing significand with every bit set. */
  function TrailingOnes(f: Format): bv64
  {
    match f
    case Half => 0x3FF
    case Single => 0x7F_FFFF
    case Double => 0xF_FFFF_FFFF_FFFF
  }

  /** The largest exponent field of a finite number: all ones less one. */
  function MaxFiniteExponent(f: Format): int
  {
    match f
    case Half => 0x1E
    case Single => 0xFE
    case Double => 0x7FE
  }

  /** The entries named after a NaN or an infinity. */
  predicate NonFinite(k: Special)
  {
    k == QuietNaN || k == SignalingNaN || k == PosInf || k == NegInf
  }

  /** What the decoder must report for the value an entry is named after. */
  predicate Describes(k: Special, d: Decoder)
  {
    match k
    case QuietNaN => d.special == "NaN" && d.mantissa & QuietBit(d.format) != 0
    case SignalingNaN => d.special == "NaN" && d.mantissa & QuietBit(d.format) == 0 && d.mantissa == 1
    case PosInf => d.special == "+Inf" && d.sign == 0
    case NegInf => d.special == "-Inf" && d.sign == 1
    case PosZero => d.special == "Zero" && d.sign == 0
    case NegZero => d.special == "Zero" && d.sign == 1
    case MinPos => d.special == "Denormalized" && d.sign == 0 && d.mantissa == 1
    case MaxPos =>
      d.special == "Normalized" && d.sign == 0 &&
      d.exponentBits == MaxFiniteExponent(d.format) && d.mantissa == TrailingOnes(d.format)
  }

  // ------------------------------------------------------------ properties

  /** Outside 16, 32 and 64 bits every generator gives 0, so every button
      is disabled there. */
  lemma OtherWidthsZero(k: Special, bitSize: nat)
    requires bitSize != 16 && bitSize != 32 && bitSize != 64
    ensures Generate(k, bitSize) == 0 && Disabled(k, bitSize)
  {
  }

  /** "+0" gives 0 at every width, so its button is never enabled. */
  lemma PosZeroDisabled(bitSize: nat)
    ensures Generate(PosZero, bitSize) == 0 && Disabled(PosZero, bitSize)
  {
  }

  /** A button is disabled exactly when it is "+0" or the width is not one
      of the three float widths. */
  lemma DisabledExactly(k: Special, bitSize: nat)
    ensures Disabled(k, bitSize) <==> k == PosZero || (bitSize != 16 && bitSize != 32 && bitSize != 64)
  {
    if bitSize == 16 || bitSize == 32 || bitSize == 64 {
      MaskIsNoOp(k, bitSize);
      ZeroOnlyPosZero(k, bitSize);
    } else {
      OtherWidthsZero(k, bitSize);
    }
  }

  /** The local mask is the width mask at 16, 32 and 64 bits, and all ones
      (not 0xFF) at 8 bits. */
  lemma LocalMaskAgrees(bitSize: nat)
    ensures bitSize == 16 || bitSize == 32 || bitSize == 64 ==> LocalMask(bitSize) == Mask(bitSize)
    ensures LocalMask(8) == Mask(64) != Mask(8)
  {
  }

  /** Every pattern already lies inside its width, so the local mask leaves
      it as it is. */
  lemma MaskIsNoOp(k: Special, bitSize: nat)
    ensures ButtonValue(k, bitSize) == Generate(k, bitSize)
    ensures Masked(Generate(k, bitSize), bitSize)
  {
    if bitSize == 16 {
      HalfNoOp(k);
    } else if bitSize == 32 {
      SingleNoOp(k);
    } else if bitSize == 64 {
      DoubleNoOp(k);
    } else {
      OtherWidthsZero(k, bitSize);
    }
  }

  lemma HalfNoOp(k: Special)
    ensures ButtonValue(k, 16) == Generate(k, 16) && Masked(Generate(k, 16), 16)
  {
    FitsHalf(k);
  }

  lemma SingleNoOp(k: Special)
    ensures ButtonValue(k, 32) == Generate(k, 32) && Masked(Generate(k, 32), 32)
  {
    FitsSingle(k);
  }

  lemma DoubleNoOp(k: Special)
    ensures ButtonValue(k, 64) == Generate(k, 64) && Masked(Generate(k, 64), 64)
  {
    AllOnesKeeps(Generate(k, 64));
  }

  lemma AllOnesKeeps(x: bv64)
    ensures x & LocalMask(64) == x && Masked(x, 64)
  {
  }

  lemma FitsHalf(k: Special)
    ensures Generate(k, 16) & 0xFFFF == Generate(k, 16)
  {
    match k
    case QuietNaN =>
    case SignalingNaN =>
    case PosInf =>
    case NegInf =>
    case PosZero =>
    case NegZero =>
    case MinPos =>
    case MaxPos =>
  }

  lemma FitsSingle(k: Special)
    ensures Generate(k, 32) & 0xFFFF_FFFF == Generate(k, 32)
  {
    match k
    case QuietNaN =>
    case SignalingNaN =>
    case PosInf =>
    case NegInf =>
    case PosZero =>
    case NegZero =>
    case MinPos =>
    case MaxPos =>
  }

  /** At each float width only "+0" generates the word 0. */
  lemma ZeroOnlyPosZero(k: Special, bitSize: nat)
    requires bitSize == 16 || bitSize == 32 || bitSize == 64
    ensures Generate(k, bitSize) == 0 <==> k == PosZero
  {
    match k
    case QuietNaN =>
    case SignalingNaN =>
    case PosInf =>
    case NegInf =>
    case PosZero =>
    case NegZero =>
    case MinPos =>
    case MaxPos =>
  }

  /** At each float width the decoder classifies every button's word as the
      value the button is named after. */
  lemma Classified(k: Special, bitSize: nat)
    requires bitSize == 16 || bitSize == 32 || bitSize == 64
    ensures New(ButtonValue(k, bitSize), bitSize).format == FormatOf(bitSize)
    ensures Describes(k, New(ButtonValue(k, bitSize), bitSize))
  {
    MaskIsNoOp(k, bitSize);
    if bitSize == 16 {
      HalfClassified(k);
    } else if bitSize == 32 {
      SingleClassified(k);
    } else {
      DoubleClassified(k);
    }
  }

  lemma HalfClassified(k: Special)
    ensures Describes(k, New(Generate(k, 16), 16))
  {
    if NonFinite(k) {
      HalfNonFinite(k);
    } else {
      HalfFinite(k);
    }
  }

  lemma HalfNonFinite(k: Special)
    requires NonFinite(k)
    ensures Describes(k, New(Generate(k, 16), 16))
  {
    match k
    case QuietNaN =>
    case SignalingNaN =>
    case PosInf =>
    case NegInf =>
  }

  lemma HalfFinite(k: Special)
    requires !NonFinite(k)
    ensures Describes(k, New(Generate(k, 16), 16))
  {
    match k
    case PosZero =>
    case NegZero =>
    case MinPos =>
    case MaxPos =>
  }

  lemma SingleClassified(k: Special)
    ensures Describes(k, New(Generate(k, 32), 32))
  {
    if NonFinite(k) {
      SingleNonFinite(k);
    } else {
      SingleFinite(k);
    }
  }

  lemma SingleNonFinite(k: Special)
    requires NonFinite(k)
    ensures Describes(k, New(Generate(k, 32), 32))
  {
    match k
    case QuietNaN =>
    case SignalingNaN =>
    case PosInf =>
    case NegInf =>
  }

  lemma SingleFinite(k: Special)
    requires !NonFinite(k)
    ensures Describes(k, New(Generate(k, 32), 32))
  {
    match k
    case PosZero =>
    case NegZero =>
    case MinPos =>
    case MaxPos =>
  }

  lemma DoubleClassified(k: Special)
    ensures Describes(k, New(Generate(k, 64), 64))
  {
    if NonFinite(k) {
      DoubleNonFinite(k);
    } else {
      DoubleFinite(k);
    }
  }

  lemma DoubleNonFinite(k: Special)
    requires NonFinite(k)
    ensures Describes(k, New(Generate(k, 64), 64))
  {
    match k
    case QuietNaN =>
    case SignalingNaN =>
    case PosInf =>
    case NegInf =>
  }

  lemma DoubleFinite(k: Special)
    requires !NonFinite(k)
    ensures Describes(k, New(Generate(k, 64), 64))
  {
    match k
    case PosZero =>
    case NegZero =>
    case MinPos =>
    case MaxPos =>
  }

  /** No decoder output describes two entries, so the buttons of one width
      load eight different words. */
  lemma ButtonsDistinct(k1: Special, k2: Special, bitSize: nat)
    requires bitSize == 16 || bitSize == 32 || bitSize == 64
    requires k1 != k2
    ensures ButtonValue(k1, bitSize) != ButtonValue(k2, bitSize)
  {
    Classified(k1, bitSize);
    Classified(k2, bitSize);
    if ButtonValue(k1, bitSize) == ButtonValue(k2, bitSize) {
      DescribesOne(k1, k2, New(ButtonValue(k1, bitSize), bitSize));
    }
  }

  lemma DescribesOne(k1: Special, k2: Special, d: Decoder)
    requires Describes(k1, d) && Describes(k2, d)
    ensures k1 == k2
  {
    assert "+Inf"[0] != "-Inf"[0];
    assert |"NaN"| != |"+Inf"| && |"Zero"| != |"NaN"| && |"Zero"| == |"+Inf"|;
    assert "Zero"[0] != "+Inf"[0] && "Zero"[0] != "-Inf"[0];
    assert |"Denormalized"| != |"Normalized"|;
    assert |"Denormalized"| != |"NaN"| && |"Denormalized"| != |"Zero"|;
    assert |"Normalized"| != |"NaN"| && |"Normalized"| != |"Zero"|;
  }

  /** A click on an enabled button stores its word in the shared container;
      the decoder then reads that word as the value named on the button. */
  method Click(shared: BitArray, k: Special, bitSize: nat)
    requires !Disabled(k, bitSize)
    modifies shared
    ensures shared.raw == ButtonValue(k, bitSize) == Generate(k, bitSize)
    ensures Describes(k, New(shared.raw, bitSize))
  {
    DisabledExactly(k, bitSize);
    MaskIsNoOp(k, bitSize);
    Classified(k, bitSize);
    shared.raw := ButtonValue(k, bitSize);
  }
}
