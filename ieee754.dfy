/** The IEEE 754 decoder: the sign, exponent and trailing-significand fields
    of a binary16, binary32 or binary64 pattern, the unbiased exponent, and
    the class of the pattern as section 3.4 of IEEE 754-2019 defines it
    (infinity, NaN, zero, subnormal, normal). */
module Ieee754 {
  import opened Digits

  datatype Format = Half | Single | Double

  /** What the decoder reports. `sign` is a `u8`, the exponent fields are
      `i32`, the trailing significand a `u64`; `special` is the class label
      shown to the user. The `f64` value is not part of this datatype (see
      HalfValue for binary16). */
  datatype Decoder = Decoder(sign: bv8, exponent: int, exponentBits: int, mantissa: bv64,
                             special: string, format: Format)

  /** `exponent_bits_count`. */
  function ExponentBitsCount(f: Format): nat
  {
    match f
    case Half => 5
    case Single => 8
    case Double => 11
  }

  /** `mantissa_bits`. */
  function MantissaBits(f: Format): nat
  {
    match f
    case Half => 10
    case Single => 23
    case Double => 52
  }

  /** The storage width of each interchange format (section 3.6 of IEEE
      754-2019). */
  function StorageWidth(f: Format): nat
  {
    match f
    case Half => 16
    case Single => 32
    case Double => 64
  }

  /** The exponent bias of each format: 2^(w-1) - 1 for an exponent field of
      w bits. */
  function Bias(f: Format): int
  {
    Pow(2, ExponentBitsCount(f) - 1) - 1
  }

  /** Sign, exponent field and trailing significand fill the whole word. */
  lemma FieldsFillWidth(f: Format)
    ensures 1 + ExponentBitsCount(f) + MantissaBits(f) == StorageWidth(f)
    ensures Bias(f) == match f case Half => 15 case Single => 127 case Double => 1023
  {
    match f
    case Half => assert Pow(2, 4) == 16;
    case Single => assert Pow(2, 7) == 128;
    case Double =>
      PowAdd(2, 5, 5);
      assert Pow(2, 5) == 32;
  }

  /** The class label of a pattern from its exponent field, the field's
      all-ones value, its trailing significand and its sign; the same match
      in all three decoders. */
  function Classify(sign: bv8, exponentBits: int, allOnes: int, mantissa: bv64): string
  {
    if exponentBits == allOnes && mantissa == 0 then (if sign == 0 then "+Inf" else "-Inf")
    else if exponentBits == allOnes then "NaN"
    else if exponentBits == 0 && mantissa == 0 then "Zero"
    else if exponentBits == 0 then "Denormalized"
    else "Normalized"
  }

  // ------------------------------------------------------------ decoders

  function HalfExponentField(bits: bv16): bv16
  {
    (bits >> 10) & 0x1F
  }

  function SingleExponentField(bits: bv32): bv32
  {
    (bits >> 23) & 0xFF
  }

  function DoubleExponentField(bits: bv64): bv64
  {
    (bits >> 52) & 0x7FF
  }

  /** `decode_half`: sign bit 15, exponent bits 14..10, bias 15, trailing
      significand bits 9..0. */
  function DecodeHalf(bits: bv16): Decoder
  {
    var sign := ((bits >> 15) & 1) as bv8;
    var exponentBits := HalfExponentField(bits) as int;
    var mantissa := (bits & 0x03FF) as bv64;
    Decoder(sign, exponentBits - 15, exponentBits, mantissa,
            Classify(sign, exponentBits, 0x1F, mantissa), Half)
  }

  /** `decode_single`: sign bit 31, exponent bits 30..23, bias 127, trailing
      significand bits 22..0. */
  function DecodeSingle(bits: bv32): Decoder
  {
    var sign := ((bits >> 31) & 1) as bv8;
    var exponentBits := SingleExponentField(bits) as int;
    var mantissa := (bits & 0x007F_FFFF) as bv64;
    Decoder(sign, exponentBits - 127, exponentBits, mantissa,
            Classify(sign, exponentBits, 0xFF, mantissa), Single)
  }

  /** `decode_double`: sign bit 63, exponent bits 62..52, bias 1023, trailing
      significand bits 51..0. */
  function DecodeDouble(bits: bv64): Decoder
  {
    var sign := ((bits >> 63) & 1) as bv8;
    var exponentBits := DoubleExponentField(bits) as int;
    var mantissa := bits & 0x000F_FFFF_FFFF_FFFF;
    Decoder(sign, exponentBits - 1023, exponentBits, mantissa,
            Classify(sign, exponentBits, 0x7FF, mantissa), Double)
  }

  /** `IEEEDecoder::new`: width 16 reads the low 16 bits as binary16, width
      32 the low 32 bits as binary32, and every other width the whole word
      as binary64. */
  function New(bits: bv64, bitSize: nat): Decoder
  {
    match bitSize
    case 16 => DecodeHalf((bits & 0xFFFF) as bv16)
    case 32 => DecodeSingle((bits & 0xFFFF_FFFF) as bv32)
    case _ => DecodeDouble(bits)
  }

  // ------------------------------------------------------------ properties

  /** `new` picks the format by width alone: 16 and 32 bits their own
      formats, anything else (8 included) binary64, whose storage width is
      then the width selected when that is 64. */
  lemma NewFormat(bits: bv64, bitSize: nat)
    ensures New(bits, bitSize).format ==
      if bitSize == 16 then Half else if bitSize == 32 then Single else Double
    ensures bitSize in {16, 32, 64} ==> StorageWidth(New(bits, bitSize).format) == bitSize
  {
  }

  /** Only the low 16 or 32 bits matter at those widths. */
  lemma NewReadsLowBits(x: bv64, y: bv64, bitSize: nat)
    requires bitSize == 16 ==> x & 0xFFFF == y & 0xFFFF
    requires bitSize == 32 ==> x & 0xFFFF_FFFF == y & 0xFFFF_FFFF
    requires bitSize != 16 && bitSize != 32 ==> x == y
    ensures New(x, bitSize) == New(y, bitSize)
  {
  }

  /** The binary16 fields: the sign is bit 15, the exponent field is below
      2^5 and the unbiased exponent is the field less the bias, the trailing
      significand is below 2^10, and the three put back in place are the
      pattern. */
  lemma HalfFields(bits: bv16)
    ensures var d := DecodeHalf(bits);
      d.sign <= 1 && (d.sign == 1 <==> bits & 0x8000 != 0) &&
      0 <= d.exponentBits < Pow(2, ExponentBitsCount(Half)) &&
      d.exponent == d.exponentBits - Bias(Half) &&
      d.mantissa <= 0x3FF
    ensures var d := DecodeHalf(bits);
      ((d.sign as bv16) << 15) | (HalfExponentField(bits) << 10) | (d.mantissa as bv16) == bits
  {
    HalfSign(bits);
    HalfBounds(bits);
    HalfReassembles(bits);
    FieldsFillWidth(Half);
    assert Pow(2, 5) == 32;
  }

  lemma HalfSign(bits: bv16)
    ensures var d := DecodeHalf(bits);
      d.sign <= 1 && (d.sign == 1 <==> bits & 0x8000 != 0)
  {
  }

  lemma HalfBounds(bits: bv16)
    ensures var d := DecodeHalf(bits);
      0 <= d.exponentBits < 32 && d.exponent == d.exponentBits - 15 && d.mantissa <= 0x3FF
  {
  }

  lemma HalfReassembles(bits: bv16)
    ensures var d := DecodeHalf(bits);
      ((d.sign as bv16) << 15) | (HalfExponentField(bits) << 10) | (d.mantissa as bv16) == bits
  {
  }

  /** The binary32 fields. */
  lemma SingleFields(bits: bv32)
    ensures var d := DecodeSingle(bits);
      d.sign <= 1 && (d.sign == 1 <==> bits & 0x8000_0000 != 0) &&
      0 <= d.exponentBits < Pow(2, ExponentBitsCount(Single)) &&
      d.exponent == d.exponentBits - Bias(Single) &&
      d.mantissa <= 0x7F_FFFF
    ensures var d := DecodeSingle(bits);
      ((d.sign as bv32) << 31) | (SingleExponentField(bits) << 23) | (d.mantissa as bv32) == bits
  {
    SingleSign(bits);
    SingleBounds(bits);
    SingleReassembles(bits);
    FieldsFillWidth(Single);
    Pow256();
  }

  lemma SingleSign(bits: bv32)
    ensures var d := DecodeSingle(bits);
      d.sign <= 1 && (d.sign == 1 <==> bits & 0x8000_0000 != 0)
  {
  }

  lemma SingleBounds(bits: bv32)
    ensures var d := DecodeSingle(bits);
      0 <= d.exponentBits < 256 && d.exponent == d.exponentBits - 127 && d.mantissa <= 0x7F_FFFF
  {
  }

  lemma SingleReassembles(bits: bv32)
    ensures var d := DecodeSingle(bits);
      ((d.sign as bv32) << 31) | (SingleExponentField(bits) << 23) | (d.mantissa as bv32) == bits
  {
  }

  /** The binary64 fields. */
  lemma DoubleFields(bits: bv64)
    ensures var d := DecodeDouble(bits);
      d.sign <= 1 && (d.sign == 1 <==> bits & 0x8000_0000_0000_0000 != 0) &&
      0 <= d.exponentBits < Pow(2, ExponentBitsCount(Double)) &&
      d.exponent == d.exponentBits - Bias(Double) &&
      d.mantissa <= 0xF_FFFF_FFFF_FFFF
    ensures var d := DecodeDouble(bits);
      ((d.sign as bv64) << 63) | (DoubleExponentField(bits) << 52) | d.mantissa == bits
  {
    DoubleSign(bits);
    DoubleBounds(bits);
    DoubleReassembles(bits);
    FieldsFillWidth(Double);
    Pow2048();
  }

  lemma DoubleSign(bits: bv64)
    ensures var d := DecodeDouble(bits);
      d.sign <= 1 && (d.sign == 1 <==> bits & 0x8000_0000_0000_0000 != 0)
  {
  }

  lemma DoubleBounds(bits: bv64)
    ensures var d := DecodeDouble(bits);
      0 <= d.exponentBits < 2048 && d.exponent == d.exponentBits - 1023 && d.mantissa <= 0xF_FFFF_FFFF_FFFF
  {
  }

  lemma DoubleReassembles(bits: bv64)
    ensures var d := DecodeDouble(bits);
      ((d.sign as bv64) << 63) | (DoubleExponentField(bits) << 52) | d.mantissa == bits
  {
  }

  /** The binary16 classes of section 3.4 of IEEE 754-2019, read off the
      pattern: exponent field all ones (0x7C00) is infinity or NaN by the
      trailing significand, all zeros is zero or subnormal, anything else
      normal. Each label holds exactly when its condition does. */
  lemma HalfClasses(bits: bv16)
    ensures var d, e, t, s := DecodeHalf(bits), bits & 0x7C00, bits & 0x3FF, bits & 0x8000;
      (d.special == "+Inf" <==> e == 0x7C00 && t == 0 && s == 0) &&
      (d.special == "-Inf" <==> e == 0x7C00 && t == 0 && s != 0) &&
      (d.special == "NaN" <==> e == 0x7C00 && t != 0) &&
      (d.special == "Zero" <==> e == 0 && t == 0) &&
      (d.special == "Denormalized" <==> e == 0 && t != 0) &&
      (d.special == "Normalized" <==> e != 0 && e != 0x7C00)
  {
    var d := DecodeHalf(bits);
    HalfFieldCases(bits);
    ClassifyLabels(d.sign, d.exponentBits, 0x1F, d.mantissa);
  }

  lemma HalfFieldCases(bits: bv16)
    ensures var d := DecodeHalf(bits);
      (d.exponentBits == 0x1F <==> bits & 0x7C00 == 0x7C00) &&
      (d.exponentBits == 0 <==> bits & 0x7C00 == 0) &&
      (d.mantissa == 0 <==> bits & 0x3FF == 0) &&
      (d.sign == 0 <==> bits & 0x8000 == 0) && d.sign <= 1
  {
  }

  /** The binary32 classes (exponent field 0x7F80_0000). */
  lemma SingleClasses(bits: bv32)
    ensures var d, e, t, s := DecodeSingle(bits), bits & 0x7F80_0000, bits & 0x7F_FFFF, bits & 0x8000_0000;
      (d.special == "+Inf" <==> e == 0x7F80_0000 && t == 0 && s == 0) &&
      (d.special == "-Inf" <==> e == 0x7F80_0000 && t == 0 && s != 0) &&
      (d.special == "NaN" <==> e == 0x7F80_0000 && t != 0) &&
      (d.special == "Zero" <==> e == 0 && t == 0) &&
      (d.special == "Denormalized" <==> e == 0 && t != 0) &&
      (d.special == "Normalized" <==> e != 0 && e != 0x7F80_0000)
  {
    var d := DecodeSingle(bits);
    SingleFieldCases(bits);
    ClassifyLabels(d.sign, d.exponentBits, 0xFF, d.mantissa);
  }

  lemma SingleFieldCases(bits: bv32)
    ensures var d := DecodeSingle(bits);
      (d.exponentBits == 0xFF <==> bits & 0x7F80_0000 == 0x7F80_0000) &&
      (d.exponentBits == 0 <==> bits & 0x7F80_0000 == 0) &&
      (d.mantissa == 0 <==> bits & 0x7F_FFFF == 0) &&
      (d.sign == 0 <==> bits & 0x8000_0000 == 0) && d.sign <= 1
  {
  }

  /** The binary64 classes (exponent field 0x7FF0_0000_0000_0000). */
  lemma DoubleClasses(bits: bv64)
    ensures var d, e, t, s := DecodeDouble(bits), bits & 0x7FF0_0000_0000_0000,
                              bits & 0xF_FFFF_FFFF_FFFF, bits & 0x8000_0000_0000_0000;
      (d.special == "+Inf" <==> e == 0x7FF0_0000_0000_0000 && t == 0 && s == 0) &&
      (d.special == "-Inf" <==> e == 0x7FF0_0000_0000_0000 && t == 0 && s != 0) &&
      (d.special == "NaN" <==> e == 0x7FF0_0000_0000_0000 && t != 0) &&
      (d.special == "Zero" <==> e == 0 && t == 0) &&
      (d.special == "Denormalized" <==> e == 0 && t != 0) &&
      (d.special == "Normalized" <==> e != 0 && e != 0x7FF0_0000_0000_0000)
  {
    var d := DecodeDouble(bits);
    DoubleFieldCases(bits);
    ClassifyLabels(d.sign, d.exponentBits, 0x7FF, d.mantissa);
  }

  lemma DoubleFieldCases(bits: bv64)
    ensures var d := DecodeDouble(bits);
      (d.exponentBits == 0x7FF <==> bits & 0x7FF0_0000_0000_0000 == 0x7FF0_0000_0000_0000) &&
      (d.exponentBits == 0 <==> bits & 0x7FF0_0000_0000_0000 == 0) &&
      (d.mantissa == 0 <==> bits & 0xF_FFFF_FFFF_FFFF == 0) &&
      (d.sign == 0 <==> bits & 0x8000_0000_0000_0000 == 0) && d.sign <= 1
  {
  }

  /** Every pattern gets exactly one of the six labels, and each label
      holds exactly under its condition on the fields. */
  lemma ClassifyLabels(sign: bv8, exponentBits: int, allOnes: int, mantissa: bv64)
    requires allOnes != 0
    ensures var c := Classify(sign, exponentBits, allOnes, mantissa);
      (c == "+Inf" <==> exponentBits == allOnes && mantissa == 0 && sign == 0) &&
      (c == "-Inf" <==> exponentBits == allOnes && mantissa == 0 && sign != 0) &&
      (c == "NaN" <==> exponentBits == allOnes && mantissa != 0) &&
      (c == "Zero" <==> exponentBits == 0 && mantissa == 0) &&
      (c == "Denormalized" <==> exponentBits == 0 && mantissa != 0) &&
      (c == "Normalized" <==> exponentBits != 0 && exponentBits != allOnes)
  {
    assert "+Inf"[0] != "-Inf"[0];
    assert |"NaN"| != |"+Inf"| && |"Zero"| != |"NaN"| && |"Zero"| == |"+Inf"|;
    assert "Zero"[0] != "+Inf"[0] && "Zero"[0] != "-Inf"[0];
    assert |"Denormalized"| != |"Normalized"|;
  }

  lemma Pow256()
    ensures Pow(2, 8) == 256
  {
    assert Pow(2, 4) == 16;
    PowAdd(2, 4, 4);
  }

  lemma Pow2048()
    ensures Pow(2, 11) == 2048
  {
    Pow256();
    assert Pow(2, 3) == 8;
    PowAdd(2, 8, 3);
  }

  // ------------------------------------------------------------ the binary16 value

  /** The `value` a decoder shows: a real number, or one of the non-finite
      values. */
  datatype Value = Finite(r: real) | PosInfinity | NegInfinity | NotANumber

  /** 2^e as a real (`2.0f64.powi(e)`, exact for the exponents used here). */
  function Pow2(e: int): (r: real)
    ensures r > 0.0
    decreases if e < 0 then -e else e
  {
    if e == 0 then 1.0 else if e > 0 then 2.0 * Pow2(e - 1) else Pow2(e + 1) / 2.0
  }

  /** The trailing significand of a binary16 pattern as a number. */
  function HalfMantissa(bits: bv16): (m: nat)
    ensures m < 1024
  {
    (bits & 0x3FF) as nat
  }

  /** `half_to_f64` as written: an exponent of 0 is read as a subnormal,
      any other is biased by 15 once more. */
  function HalfToF64AsWritten(sign: bv8, exponent: int, mantissa: nat): real
  {
    var signMult := if sign == 1 then -1.0 else 1.0;
    if exponent == 0 then signMult * (mantissa as real) * Pow2(-24)
    else signMult * (1.0 + (mantissa as real) / 1024.0) * Pow2(exponent - 15)
  }

  /** The `value` column of `decode_half` as written: a subnormal is passed
      the exponent -14, a normal pattern its already unbiased exponent. */
  function HalfValueAsWritten(bits: bv16): Value
  {
    var d, m := DecodeHalf(bits), HalfMantissa(bits);
    if d.exponentBits == 0x1F && d.mantissa == 0 then (if d.sign == 0 then PosInfinity else NegInfinity)
    else if d.exponentBits == 0x1F then NotANumber
    else if d.exponentBits == 0 && d.mantissa == 0 then Finite(0.0)
    else if d.exponentBits == 0 then Finite(HalfToF64AsWritten(d.sign, -14, m))
    else Finite(HalfToF64AsWritten(d.sign, d.exponent, m))
  }

  /** The binary16 value of section 3.4 of IEEE 754-2019, signed. */
  function HalfValue(bits: bv16): Value
  {
    var d, m := DecodeHalf(bits), HalfMantissa(bits);
    var signMult := if d.sign == 1 then -1.0 else 1.0;
    if d.exponentBits == 0x1F && d.mantissa == 0 then (if d.sign == 0 then PosInfinity else NegInfinity)
    else if d.exponentBits == 0x1F then NotANumber
    else if d.exponentBits == 0 && d.mantissa == 0 then Finite(0.0)
    else Finite(signMult * HalfMagnitude(d.exponentBits, m))
  }

  /** The magnitude of a finite binary16 pattern with exponent field e and
      trailing significand m: the integer significand times a power of two,
      m * 2^-24 when e is 0 (subnormal), (2^10 + m) * 2^(e - 25) otherwise. */
  function HalfMagnitude(e: int, m: nat): real
  {
    (Significand(e, m) as real) * Pow2(Scale(e))
  }

  /** The significand with its implicit leading bit, as an integer. */
  function Significand(e: int, m: nat): nat
  {
    if e == 0 then m else 1024 + m
  }

  /** The weight of the significand's lowest bit. */
  function Scale(e: int): int
  {
    if e == 0 then -24 else e - 25
  }

  /** 1.0 (0x3C00) decodes to 0.0 as written, and the largest number below
      it (0x3BFF) to a positive number: the value is not monotone in the
      pattern. The intended value of 0x3C00 is 1.0. */
  lemma HalfValueAsWrittenCounterexample()
    ensures HalfValueAsWritten(0x3C00) == Finite(0.0)
    ensures HalfValueAsWritten(0x3BFF).Finite? && HalfValueAsWritten(0x3BFF).r > 0.0
    ensures HalfValue(0x3C00) == Finite(1.0)
  {
    HalfOne();
    HalfBelowOne();
    MagnitudeOfOne();
  }

  lemma MagnitudeOfOne()
    ensures HalfMagnitude(15, 0) == 1.0
  {
    assert Pow2(-2) == 0.25;
    assert Pow2(-4) == 0.0625;
    assert Pow2(-6) == 1.0 / 64.0;
    assert Pow2(-8) == 1.0 / 256.0;
  }

  lemma HalfOne()
    ensures DecodeHalf(0x3C00).sign == 0 && DecodeHalf(0x3C00).exponentBits == 15
    ensures DecodeHalf(0x3C00).mantissa == 0 && HalfMantissa(0x3C00) == 0
  {
    assert HalfExponentField(0x3C00) == 15;
  }

  lemma HalfBelowOne()
    ensures DecodeHalf(0x3BFF).sign == 0 && DecodeHalf(0x3BFF).exponentBits == 14
    ensures DecodeHalf(0x3BFF).mantissa != 0 && HalfMantissa(0x3BFF) == 1023
  {
    assert HalfExponentField(0x3BFF) == 14;
  }

  /** The corrected value orders the non-negative finite patterns as their
      bits do: a larger pattern is a larger number. */
  lemma HalfValueMonotone(a: bv16, b: bv16)
    requires (a as int) < (b as int) <= 0x7BFF
    ensures HalfValue(a).Finite? && HalfValue(b).Finite? && HalfValue(a).r < HalfValue(b).r
  {
    FieldsOrdered(a, b);
    HalfValueIsMagnitude(a);
    HalfValueIsMagnitude(b);
    MagnitudeMonotone(DecodeHalf(a).exponentBits, HalfMantissa(a), DecodeHalf(b).exponentBits, HalfMantissa(b));
  }

  /** Patterns in order have their fields in lexicographic order. */
  lemma FieldsOrdered(a: bv16, b: bv16)
    requires (a as int) < (b as int) <= 0x7BFF
    ensures var ea, eb := DecodeHalf(a).exponentBits, DecodeHalf(b).exponentBits;
      0 <= ea && 0 <= eb && (ea < eb || (ea == eb && HalfMantissa(a) < HalfMantissa(b)))
  {
    HalfSplit(a);
    HalfSplit(b);
    HalfBounds(a);
    HalfBounds(b);
    Lexicographic(DecodeHalf(a).exponentBits, HalfMantissa(a), DecodeHalf(b).exponentBits, HalfMantissa(b));
  }

  lemma Lexicographic(ea: int, ma: nat, eb: int, mb: nat)
    requires ma < 1024 && mb < 1024 && 1024 * ea + ma < 1024 * eb + mb
    ensures ea < eb || (ea == eb && ma < mb)
  {
  }

  /** A pattern is its sign, exponent field and trailing significand, read
      as one unsigned number. */
  lemma HalfSplit(bits: bv16)
    ensures var d := DecodeHalf(bits);
      ((bits >> 15) & 1) as int <= 1 &&
      bits as int == 32768 * (((bits >> 15) & 1) as int) + 1024 * d.exponentBits + HalfMantissa(bits) &&
      (d.sign == 0 <==> ((bits >> 15) & 1) as int == 0)
  {
  }

  lemma HalfValueIsMagnitude(bits: bv16)
    requires (bits as int) <= 0x7BFF
    ensures HalfValue(bits) == Finite(HalfMagnitude(DecodeHalf(bits).exponentBits, HalfMantissa(bits)))
  {
    HalfSplit(bits);
    var d := DecodeHalf(bits);
    assert d.sign == 0 && d.exponentBits < 0x1F;
    HalfFieldCases(bits);
    assert d.mantissa == 0 <==> HalfMantissa(bits) == 0;
  }

  lemma MagnitudeMonotone(e1: int, m1: nat, e2: int, m2: nat)
    requires 0 <= e1 && 0 <= e2 && m1 < 1024 && m2 < 1024
    requires e1 < e2 || (e1 == e2 && m1 < m2)
    ensures HalfMagnitude(e1, m1) < HalfMagnitude(e2, m2)
  {
    if e1 == e2 {
      MulLess(Significand(e1, m1) as real, Significand(e2, m2) as real, Pow2(Scale(e1)));
    } else {
      BelowNext(e1, m1);
      Pow2Mono(Scale(e1 + 1), Scale(e2));
      MulAtMost(Pow2(Scale(e1 + 1)), Pow2(Scale(e2)), 1024.0);
      AtLeast(e2, m2);
    }
  }

  /** Every magnitude with exponent field e is below the smallest one with
      exponent field e + 1. */
  lemma BelowNext(e: int, m: nat)
    requires e >= 0 && m < 1024
    ensures HalfMagnitude(e, m) < 1024.0 * Pow2(Scale(e + 1))
  {
    if e == 0 {
      SubnormalBelowNext(m);
    } else {
      NormalBelowNext(e, m);
    }
  }

  lemma SubnormalBelowNext(m: nat)
    requires m < 1024
    ensures HalfMagnitude(0, m) < 1024.0 * Pow2(-24)
  {
    MulLess(m as real, 1024.0, Pow2(-24));
  }

  lemma NormalBelowNext(e: int, m: nat)
    requires e >= 1 && m < 1024
    ensures HalfMagnitude(e, m) < 1024.0 * Pow2(e - 24)
  {
    MulLess((1024 + m) as real, 2048.0, Pow2(e - 25));
    Pow2Succ(e - 25);
  }

  /** A normal magnitude is at least 2^10 times the weight of its lowest bit. */
  lemma AtLeast(e: int, m: nat)
    requires e >= 1
    ensures 1024.0 * Pow2(Scale(e)) <= HalfMagnitude(e, m)
  {
    MulAtMost(1024.0, (1024 + m) as real, Pow2(e - 25));
  }

  lemma MulLess(a: real, b: real, p: real)
    requires a < b && p > 0.0
    ensures a * p < b * p
  {
  }

  lemma MulAtMost(a: real, b: real, p: real)
    requires a <= b && p > 0.0
    ensures a * p <= b * p
  {
  }

  lemma Pow2Succ(e: int)
    ensures Pow2(e + 1) == 2.0 * Pow2(e)
  {
  }

  lemma {:induction false} Pow2Mono(a: int, b: int)
    requires a <= b
    ensures Pow2(a) <= Pow2(b)
    decreases b - a
  {
    if a < b {
      Pow2Mono(a, b - 1);
      Pow2Succ(b - 1);
    }
  }
}
