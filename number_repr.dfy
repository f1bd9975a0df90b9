/** The number-representation panel: a second set of text fields and bit
    buttons over the same shared word. Its readers are permissive: they drop
    every character that is not a digit of their base and read what is left,
    storing 0 when that fails. The byte fields pad the digits to the active
    width and fold the decoded bytes into the word. */
module NumberRepr {
  import opened Digits
  import opened Words
  import opened Utf8
  import opened Text
  import opened BitOperations
  import AppCodec
  import App

  // ------------------------------------------------------------ filters

  predicate IsBinDigit(c: char)
  {
    c == '0' || c == '1'
  }

  predicate IsOctDigit(c: char)
  {
    '0' <= c <= '7'
  }

  /** `input_dec`'s text: the ASCII digits, in order. */
  function DecDigits(text: string): string
  {
    Filter(text, IsAsciiDigit)
  }

  /** `input_bin`'s text: every "0b" removed, then the characters '0' and '1'. */
  function BinDigits(text: string): string
  {
    Filter(RemoveAll(text, "0b"), IsBinDigit)
  }

  /** `input_hex`'s text (and the byte fields'): every "0x" removed,
      uppercased, then the hexadecimal digits. */
  function HexDigits(text: string): string
  {
    Filter(ToUpper(RemoveAll(text, "0x")), IsAsciiHexDigit)
  }

  /** `input_oct`'s text: every "0o" removed, then '0'..'7'. */
  function OctDigits(text: string): string
  {
    Filter(RemoveAll(text, "0o"), IsOctDigit)
  }

  // ------------------------------------------------------------ reading

  /** `u64::from_str_radix(&val, radix).unwrap_or(0)`. */
  function ReadOrZero(digits: string, radix: nat): bv64
    requires 2 <= radix <= 36
  {
    match FromStrRadix(digits, radix)
    case Some(v) => v
    case None => 0
  }

  /** On filtered text the reader gives the number the digits spell when
      there is at least one and it fits in 64 bits, and 0 otherwise. */
  lemma ReadOrZeroMeaning(digits: string, radix: nat)
    requires 2 <= radix <= 36 && AllDigits(digits, radix)
    ensures ToNat(ReadOrZero(digits, radix)) ==
      if digits != [] && Value(DigitsOf(digits), radix) < TwoTo64
      then Value(DigitsOf(digits), radix) else 0
  {
    ParseWord(digits, radix);
    if digits != [] {
      assert CharDigit(digits[0]) < radix;
      assert Unsigned(digits) == digits;
    }
    if FromStrRadix(digits, radix).None? {
      ToNatOfBytes(0, 0, 0, 0, 0, 0, 0, 0, 0);
    }
  }

  // ------------------------------------------------------------ inputs

  /** `input_dec`: the digits read, or 0, masked. */
  function DecInput(text: string, w: nat): bv64
  {
    Fit(ReadOrZero(DecDigits(text), 10), Mask(w))
  }

  /** `input_bin`. */
  function BinInput(text: string, w: nat): bv64
  {
    Fit(ReadOrZero(BinDigits(text), 2), Mask(w))
  }

  /** `input_hex`. */
  function HexInput(text: string, w: nat): bv64
  {
    Fit(ReadOrZero(HexDigits(text), 16), Mask(w))
  }

  /** `input_oct`. */
  function OctInput(text: string, w: nat): bv64
  {
    Fit(ReadOrZero(OctDigits(text), 8), Mask(w))
  }

  /** The byte fields up to the fold: the digits padded on the left with '0'
      to `bit_size / 8 * 2` characters, then `hex::decode`. */
  function HexBytes(text: string, w: nat): Option<seq<bv8>>
  {
    HexDecode(PadLeft(HexDigits(text), (w / 8) * 2))
  }

  /** `bytes.iter().fold(0u64, |acc, &b| (acc << 8) | b as u64)`: bytes
      shifted out at the top are lost. */
  function FoldBytes(bs: seq<bv8>): bv64
  {
    if bs == [] then 0 else (FoldBytes(bs[..|bs| - 1]) << 8) | (bs[|bs| - 1] as bv64)
  }

  /** `input_hex_be`: the fold of the decoded bytes, masked; nothing is
      stored when decoding fails. */
  function HexBeInput(text: string, w: nat): Option<bv64>
  {
    match HexBytes(text, w)
    case Some(bs) => Some(Fit(FoldBytes(bs), Mask(w)))
    case None => None
  }

  /** `input_hex_le`: the same with the bytes folded in reverse order. */
  function HexLeInput(text: string, w: nat): Option<bv64>
  {
    match HexBytes(text, w)
    case Some(bs) => Some(Fit(FoldBytes(Reverse(bs)), Mask(w)))
    case None => None
  }

  /** The filters keep exactly the characters of their alphabet. */
  lemma FiltersKeepDigits(text: string)
    ensures AllDigits(DecDigits(text), 10)
    ensures forall i :: 0 <= i < |BinDigits(text)| ==> IsBinDigit(BinDigits(text)[i])
    ensures AllDigits(BinDigits(text), 2)
    ensures AllDigits(HexDigits(text), 16)
    ensures forall i :: 0 <= i < |OctDigits(text)| ==> IsOctDigit(OctDigits(text)[i])
    ensures AllDigits(OctDigits(text), 8)
  {
  }

  // ------------------------------------------------------------ round trips

  /** The decimal field (`current_value().to_string()`) reads back the
      word it shows. */
  lemma DecRoundTrip(x: bv64, w: nat)
    requires Masked(x, w)
    ensures DecInput(AppCodec.DecText(x), w) == x
  {
    DecShown(ToNat(x));
    ParseShowWord(x, 10, false, 1);
    ReadBack(AppCodec.DecText(x), DecDigits(AppCodec.DecText(x)), 10, x, w);
  }

  /** A field whose filter keeps the shown digits, which parse to a masked
      word, reads back that word. */
  lemma ReadBack(shown: string, digits: string, radix: nat, x: bv64, w: nat)
    requires 2 <= radix <= 36 && FromStrRadix(digits, radix) == Some(x) && Masked(x, w)
    ensures Fit(ReadOrZero(digits, radix), Mask(w)) == x
  {
  }

  lemma DecShown(n: nat)
    ensures DecDigits(Show(n, 10, false)) == Show(n, 10, false)
  {
    AppCodec.ShownDigits(n, 10, false, 1);
    FilterKeepsAll(Show(n, 10, false), IsAsciiDigit);
  }

  /** The binary field (`"0b{:0width$b}"`, width `bit_size`) shows exactly
      `bit_size` digits and reads back the word. */
  lemma BinRoundTrip(x: bv64, w: nat)
    requires IsWidth(w) && Masked(x, w)
    ensures |AppCodec.BinText(x, w)| == 2 + w
    ensures BinInput(AppCodec.BinText(x, w), w) == x
  {
    AppCodec.BinRoundTrip(x, w);
    BinShown(ToNat(x), w);
    ParseShowWord(x, 2, false, w);
    ReadBack(AppCodec.BinText(x, w), BinDigits(AppCodec.BinText(x, w)), 2, x, w);
  }

  lemma BinShown(n: nat, w: nat)
    ensures BinDigits("0b" + ShowPadded(n, 2, false, w)) == ShowPadded(n, 2, false, w)
  {
    var digits := ShowPadded(n, 2, false, w);
    AppCodec.ShownDigits(n, 2, false, w);
    BinKept(digits);
  }

  lemma BinKept(digits: string)
    requires AllDigits(digits, 2)
    ensures BinDigits("0b" + digits) == digits
  {
    forall i | 0 <= i < |digits|
      ensures IsBinDigit(digits[i])
    {
      assert CharDigit(digits[i]) < 2;
    }
    Unprefixed(digits, "0b");
    FilterKeepsAll(digits, IsBinDigit);
  }

  /** The hexadecimal field (`"0x{:X}"`) reads back the word it shows. */
  lemma HexRoundTrip(x: bv64, w: nat)
    requires Masked(x, w)
    ensures HexInput(AppCodec.HexText(x), w) == x
  {
    HexShown(ToNat(x));
    ParseShowWord(x, 16, true, 1);
    ReadBack(AppCodec.HexText(x), HexDigits(AppCodec.HexText(x)), 16, x, w);
  }

  lemma HexShown(n: nat)
    ensures HexDigits("0x" + Show(n, 16, true)) == Show(n, 16, true)
  {
    AppCodec.ShownDigits(n, 16, true, 1);
    SpelledUpper(ToDigits(n, 16));
    HexUnprefixed(Show(n, 16, true));
  }

  /** The octal field (`"0o{:o}"`) reads back the word it shows. */
  lemma OctRoundTrip(x: bv64, w: nat)
    requires Masked(x, w)
    ensures OctInput(AppCodec.OctText(x), w) == x
  {
    OctShown(ToNat(x));
    ParseShowWord(x, 8, false, 1);
    ReadBack(AppCodec.OctText(x), OctDigits(AppCodec.OctText(x)), 8, x, w);
  }

  lemma OctShown(n: nat)
    ensures OctDigits("0o" + Show(n, 8, false)) == Show(n, 8, false)
  {
    var digits := Show(n, 8, false);
    AppCodec.ShownDigits(n, 8, false, 1);
    Unprefixed(digits, "0o");
    FilterKeepsAll(digits, IsOctDigit);
  }

  /** Removing every occurrence of a prefix the text does not contain
      again leaves the text. */
  lemma Unprefixed(digits: string, prefix: string)
    requires |prefix| > 0
    requires forall i :: 0 <= i < |digits| ==> digits[i] != prefix[|prefix| - 1]
    ensures RemoveAll(prefix + digits, prefix) == digits
  {
    RemoveLeading(digits, prefix);
    RemoveAbsent(digits, prefix);
  }

  /** Uppercase hexadecimal digits after "0x" pass the hexadecimal filter
      unchanged. */
  lemma HexUnprefixed(digits: string)
    requires AllDigits(digits, 16)
    requires forall i :: 0 <= i < |digits| ==> !('a' <= digits[i] <= 'z')
    ensures HexDigits("0x" + digits) == digits
  {
    Unprefixed(digits, "0x");
    assert ToUpper(digits) == digits;
    FilterKeepsAll(digits, IsAsciiHexDigit);
  }

  /** Uppercase spelling writes no lowercase letter. */
  lemma SpelledUpper(ds: seq<nat>)
    requires IsDigits(ds, 36)
    ensures forall i :: 0 <= i < |ds| ==> !('a' <= Spell(ds, true)[i] <= 'z')
  {
  }

  // ------------------------------------------------------------ the fold

  /** The numbers the bytes stand for, one base-256 digit each. */
  function ByteValues(bs: seq<bv8>): (ds: seq<nat>)
    ensures |ds| == |bs| && IsDigits(ds, 256)
    ensures forall i :: 0 <= i < |bs| ==> ds[i] == ByteValue(bs[i])
  {
    seq(|bs|, i requires 0 <= i < |bs| => ByteValue(bs[i]))
  }

  /** The fold reads the bytes big-endian: it is the main view's reading of
      the last eight bytes, the last byte lowest, for any number of bytes. */
  lemma {:induction false} FoldIsBeWord(bs: seq<bv8>)
    ensures FoldBytes(bs) == AppCodec.BeWord(bs)
    decreases |bs|
  {
    if bs == [] {
      BeWordEmpty();
    } else {
      FoldIsBeWord(bs[..|bs| - 1]);
      ShiftInWord(bs);
    }
  }

  lemma BeWordEmpty()
    ensures AppCodec.BeWord([]) == 0
  {
  }

  /** One step of the fold on the big-endian reading. */
  lemma ShiftInWord(bs: seq<bv8>)
    requires |bs| > 0
    ensures (AppCodec.BeWord(bs[..|bs| - 1]) << 8) | (bs[|bs| - 1] as bv64) == AppCodec.BeWord(bs)
  {
    var init := bs[..|bs| - 1];
    ShiftInByteOf(bs, 1); ShiftInByteOf(bs, 2); ShiftInByteOf(bs, 3); ShiftInByteOf(bs, 4);
    ShiftInByteOf(bs, 5); ShiftInByteOf(bs, 6); ShiftInByteOf(bs, 7);
    JoinShift(AppCodec.BeByteOf(init, 0), AppCodec.BeByteOf(init, 1), AppCodec.BeByteOf(init, 2),
              AppCodec.BeByteOf(init, 3), AppCodec.BeByteOf(init, 4), AppCodec.BeByteOf(init, 5),
              AppCodec.BeByteOf(init, 6), AppCodec.BeByteOf(init, 7), bs[|bs| - 1]);
  }

  /** Shifting a byte in from below moves every byte of a word up by one. */
  lemma JoinShift(b0: bv8, b1: bv8, b2: bv8, b3: bv8, b4: bv8, b5: bv8, b6: bv8, b7: bv8, b: bv8)
    ensures (Join(b0, b1, b2, b3, b4, b5, b6, b7) << 8) | (b as bv64) == Join(b, b0, b1, b2, b3, b4, b5, b6)
  {
  }

  /** Shifting a byte in from below moves every byte up by one. */
  lemma ShiftInBytes(y: bv64, b: bv8, z: bv64)
    requires z == (y << 8) | (b as bv64)
    ensures ByteAt(z, 0) == b
    ensures forall k: ByteIndex :: 0 < k ==> ByteAt(z, k) == ByteAt(y, k - 1)
  {
  }

  /** The bytes of the big-endian reading. */
  lemma BeWordBytes(bs: seq<bv8>)
    ensures forall k: ByteIndex :: ByteAt(AppCodec.BeWord(bs), k) == AppCodec.BeByteOf(bs, k)
  {
    BytesOfJoin(AppCodec.BeByteOf(bs, 0), AppCodec.BeByteOf(bs, 1), AppCodec.BeByteOf(bs, 2),
                AppCodec.BeByteOf(bs, 3), AppCodec.BeByteOf(bs, 4), AppCodec.BeByteOf(bs, 5),
                AppCodec.BeByteOf(bs, 6), AppCodec.BeByteOf(bs, 7));
    forall k: ByteIndex
      ensures ByteAt(AppCodec.BeWord(bs), k) == AppCodec.BeByteOf(bs, k)
    {
      AppCodec.ByteCases(k);
    }
  }

  lemma ShiftInByteOf(bs: seq<bv8>, k: ByteIndex)
    requires |bs| > 0 && 0 < k
    ensures AppCodec.BeByteOf(bs, k) == AppCodec.BeByteOf(bs[..|bs| - 1], k - 1)
  {
    assert ByteValue(k - 1) == ByteValue(k) - 1;
  }

  /** Up to eight bytes fold into the number they spell in base 256. */
  lemma {:induction false} FoldValue(bs: seq<bv8>)
    requires |bs| <= 8
    ensures ToNat(FoldBytes(bs)) == Value(ByteValues(bs), 256)
    decreases |bs|
  {
    if bs == [] {
      ToNatOfBytes(0, 0, 0, 0, 0, 0, 0, 0, 0);
    } else {
      var init := bs[..|bs| - 1];
      FoldValue(init);
      ValueBound(ByteValues(init), 256);
      PowMonotone(256, |init|, 7);
      PowSevenBytes();
      ShiftInValue(FoldBytes(init), bs[|bs| - 1], FoldBytes(bs));
      assert ByteValues(bs)[..|bs| - 1] == ByteValues(init);
    }
  }

  lemma PowSevenBytes()
    ensures Pow(256, 7) == 0x100_0000_0000_0000
  {
    assert Pow(256, 1) == 0x100;
    assert Pow(256, 2) == 0x1_0000;
    assert Pow(256, 3) == 0x100_0000;
    assert Pow(256, 4) == 0x1_0000_0000;
    assert Pow(256, 5) == 0x100_0000_0000;
    assert Pow(256, 6) == 0x1_0000_0000_0000;
  }

  /** Shifting a byte in below a number under 2^56 is multiplying by 256
      and adding the byte. */
  lemma ShiftInValue(y: bv64, b: bv8, z: bv64)
    requires ToNat(y) < 0x100_0000_0000_0000 && z == (y << 8) | (b as bv64)
    ensures ToNat(z) == ToNat(y) * 256 + ByteValue(b)
  {
    ShiftInBytes(y, b, z);
    var y0, y1, y2, y3 := ByteAt(y, 0), ByteAt(y, 1), ByteAt(y, 2), ByteAt(y, 3);
    var y4, y5, y6, y7 := ByteAt(y, 4), ByteAt(y, 5), ByteAt(y, 6), ByteAt(y, 7);
    assert ByteAt(z, 1) == y0 && ByteAt(z, 2) == y1 && ByteAt(z, 3) == y2 && ByteAt(z, 4) == y3;
    assert ByteAt(z, 5) == y4 && ByteAt(z, 6) == y5 && ByteAt(z, 7) == y6;
    ToNatOfBytes(y, y0, y1, y2, y3, y4, y5, y6, y7);
    ToNatOfBytes(z, b, y0, y1, y2, y3, y4, y5, y6);
  }

  // ------------------------------------------------------------ byte fields

  /** The HEX BE field: `"0x{:0width$X}"` with width `bit_size / 4`, the
      word in uppercase hexadecimal, zero-padded. */
  function HexBeText(x: bv64, w: nat): string
  {
    "0x" + ShowPadded(ToNat(x), 16, true, w / 4)
  }

  /** The byte fields fail, and store nothing, exactly when the digits
      are more than `bit_size / 4` and odd in number; the padding makes
      every shorter text decode. */
  lemma HexBytesDefined(text: string, w: nat)
    requires IsWidth(w)
    ensures var d := HexDigits(text);
      (HexBeInput(text, w) == None <==> |d| > w / 4 && |d| % 2 == 1) &&
      (HexLeInput(text, w) == None <==> |d| > w / 4 && |d| % 2 == 1)
    ensures var d := HexDigits(text);
      HexBytes(text, w).Some? ==>
        |HexBytes(text, w).value| == if |d| <= w / 4 then w / 8 else |d| / 2
  {
    var d := HexDigits(text);
    FiltersKeepDigits(text);
    WidthBytes(w);
    var p := PadLeft(d, (w / 8) * 2);
    PaddedHex(d, (w / 8) * 2);
    HexDecodeDefined(p);
  }

  /** Padding hexadecimal digits with '0' leaves hexadecimal digits. */
  lemma PaddedHex(d: string, width: nat)
    requires AllDigits(d, 16)
    ensures forall i :: 0 <= i < |PadLeft(d, width)| ==> IsAsciiHexDigit(PadLeft(d, width)[i])
  {
    var p := PadLeft(d, width);
    forall i | 0 <= i < |p|
      ensures IsAsciiHexDigit(p[i])
    {
      if i >= |p| - |d| {
        assert p[i] == p[|p| - |d|..][i - (|p| - |d|)];
        assert CharDigit(d[i - (|p| - |d|)]) < 16;
      }
    }
  }

  /** Pairs of hexadecimal digits and the bytes decoded from them spell the
      same number. */
  lemma {:induction false} PairValue(s: string, cs: seq<bv8>, n: nat)
    requires HexDecode(s) == Some(cs) && n <= |cs|
    ensures Value(DigitsOf(s[..2 * n]), 16) == Value(ByteValues(cs[..n]), 256)
    decreases n
  {
    if n > 0 {
      PairValue(s, cs, n - 1);
      DigitPairSplit(s, n);
      ByteSplit(cs, n);
      HexDecodeAt(s, n - 1);
    }
  }

  lemma DigitPairSplit(s: string, n: nat)
    requires 0 < n && 2 * n <= |s|
    ensures Value(DigitsOf(s[..2 * n]), 16) ==
      Value(DigitsOf(s[..2 * (n - 1)]), 16) * 256 + CharDigit(s[2 * n - 2]) * 16 + CharDigit(s[2 * n - 1])
  {
    var a := DigitsOf(s[..2 * (n - 1)]);
    var d0, d1 := CharDigit(s[2 * n - 2]), CharDigit(s[2 * n - 1]);
    assert DigitsOf(s[..2 * n]) == a + [d0, d1];
    ValueAppend(a, [d0, d1], 16);
    TwoDigits(d0, d1);
  }

  lemma ByteSplit(cs: seq<bv8>, n: nat)
    requires 0 < n <= |cs|
    ensures Value(ByteValues(cs[..n]), 256) == Value(ByteValues(cs[..n - 1]), 256) * 256 + ByteValue(cs[n - 1])
  {
    assert ByteValues(cs[..n])[..n - 1] == ByteValues(cs[..n - 1]);
  }

  lemma TwoDigits(d0: nat, d1: nat)
    ensures Value([d0, d1], 16) == d0 * 16 + d1 && Pow(16, 2) == 256
  {
    assert [d0, d1][..1] == [d0];
    assert [d0][..0] == [];
    assert Value([d0], 16) == d0;
    assert Pow(16, 0) == 1;
    assert Pow(16, 1) == 16;
  }

  /** The byte count and digit count of a width. */
  lemma WidthBytes(w: nat)
    requires IsWidth(w)
    ensures 1 <= w / 8 <= 8 && 8 * (w / 8) == w && w / 4 == (w / 8) * 2 && (w / 4) % 2 == 0
    ensures WidthLimit(w) == Pow(256, w / 8)
  {
    WidthLimitPow(w);
    PowBytes(w / 8);
  }

  /** The bytes of a width, shown in the HEX BE format and read back by the
      byte fields, are the bytes again. */
  lemma DisplayBytes(bs: seq<bv8>, w: nat, x: bv64)
    requires IsWidth(w) && |bs| == w / 8 && FoldBytes(bs) == x
    ensures HexBytes(HexBeText(x, w), w) == Some(bs)
  {
    FoldValue(bs);
    ShownBytes(ToNat(x), bs, w);
  }

  lemma ShownBytes(n: nat, bs: seq<bv8>, w: nat)
    requires IsWidth(w) && |bs| == w / 8 && n == Value(ByteValues(bs), 256)
    ensures HexDecode(PadLeft(HexDigits("0x" + ShowPadded(n, 16, true, w / 4)), (w / 8) * 2)) == Some(bs)
  {
    var digits := ShowPadded(n, 16, true, w / 4);
    ValueBound(ByteValues(bs), 256);
    WidthBytes(w);
    HexPaddedShown(n, w);
    ShownDecodes(n, w);
    var cs := HexDecode(digits).value;
    ShownValue(n, w, digits, cs);
    SameBytes(cs, bs);
  }

  /** Padded uppercase digits pass the hexadecimal filter unchanged. */
  lemma HexPaddedShown(n: nat, w: nat)
    ensures HexDigits("0x" + ShowPadded(n, 16, true, w / 4)) == ShowPadded(n, 16, true, w / 4)
  {
    AppCodec.ShownDigits(n, 16, true, w / 4);
    SpelledUpper(PadDigits(n, 16, w / 4));
    HexUnprefixed(ShowPadded(n, 16, true, w / 4));
  }

  /** The shown digits need no padding and decode into `bit_size / 8`
      bytes. */
  lemma ShownDecodes(n: nat, w: nat)
    requires IsWidth(w) && n < WidthLimit(w)
    ensures var digits := ShowPadded(n, 16, true, w / 4);
      PadLeft(digits, (w / 8) * 2) == digits &&
      HexDecode(digits).Some? && |HexDecode(digits).value| == w / 8
  {
    var digits := ShowPadded(n, 16, true, w / 4);
    WidthBytes(w);
    ShownWidth(n, w);
    AppCodec.ShownDigits(n, 16, true, w / 4);
    assert PadLeft(digits, (w / 8) * 2) == digits;
    assert forall i :: 0 <= i < |digits| ==> CharDigit(digits[i]) < 16;
    assert forall i :: 0 <= i < |digits| ==> IsAsciiHexDigit(digits[i]);
    HexDecodeDefined(digits);
  }

  /** The decoded bytes spell the number that was shown. */
  lemma ShownValue(n: nat, w: nat, digits: string, cs: seq<bv8>)
    requires digits == ShowPadded(n, 16, true, w / 4) && HexDecode(digits) == Some(cs)
    ensures Value(ByteValues(cs), 256) == n
  {
    PairValue(digits, cs, |cs|);
    assert digits[..2 * |cs|] == digits && cs[..|cs|] == cs;
  }

  /** Byte strings of one length that spell the same number are equal. */
  lemma SameBytes(cs: seq<bv8>, bs: seq<bv8>)
    requires |cs| == |bs| && Value(ByteValues(cs), 256) == Value(ByteValues(bs), 256)
    ensures cs == bs
  {
    ValueInjective(ByteValues(cs), ByteValues(bs), 256);
    forall i | 0 <= i < |bs|
      ensures cs[i] == bs[i]
    {
      LowByteOfValue(cs[i]);
      LowByteOfValue(bs[i]);
    }
  }

  /** A number below 2^w shows as exactly `bit_size / 4` digits. */
  lemma ShownWidth(n: nat, w: nat)
    requires IsWidth(w) && n < WidthLimit(w)
    ensures |ShowPadded(n, 16, true, w / 4)| == w / 4
  {
    WidthBytes(w);
    PowNibbles(w / 8);
    ShowLength(n, 16, true, w / 4, 1);
  }

  /** The HEX BE field shows exactly `bit_size / 4` digits and reads back
      the word it shows. */
  lemma HexBeRoundTrip(x: bv64, w: nat)
    requires IsWidth(w) && Masked(x, w)
    ensures |HexBeText(x, w)| == 2 + w / 4
    ensures HexBeInput(HexBeText(x, w), w) == Some(x)
  {
    var bs := AppCodec.BeSlice(x, w);
    AppCodec.BeSliceWord(x, w);
    FoldIsBeWord(bs);
    DisplayBytes(bs, w, x);
    ReadBackBytes(HexBeText(x, w), bs, x, w);
    MaskedBelow(x, w);
    ShownWidth(ToNat(x), w);
  }

  /** A text whose bytes fold into a masked word stores that word. */
  lemma ReadBackBytes(text: string, bs: seq<bv8>, x: bv64, w: nat)
    requires HexBytes(text, w) == Some(bs) && FoldBytes(bs) == x && Masked(x, w)
    ensures HexBeInput(text, w) == Some(x)
  {
    assert Fit(FoldBytes(bs), Mask(w)) == x;
  }

  // ------------------------------------------------------------ byte order

  /** The word with its `bit_size / 8` active bytes in the opposite order. */
  function ByteSwap(x: bv64, w: nat): bv64
    requires IsWidth(w)
  {
    AppCodec.BeWord(AppCodec.LeSlice(x, w))
  }

  /** The HEX LE field as the panel renders it: the same format string as
      the HEX BE field, so the bytes are not swapped. */
  function HexLeTextAsWritten(x: bv64, w: nat): string
  {
    HexBeText(x, w)
  }

  /** The HEX LE field as intended: the byte-swapped word in the HEX BE
      format, which is what its handler reads back. */
  function HexLeText(x: bv64, w: nat): string
    requires IsWidth(w)
  {
    HexBeText(ByteSwap(x, w), w)
  }

  /** Reading the HEX LE field as rendered through its own handler stores
      the byte-swapped word, not the word shown. */
  lemma HexLeAsWrittenSwaps(x: bv64, w: nat)
    requires IsWidth(w) && Masked(x, w)
    ensures HexLeInput(HexLeTextAsWritten(x, w), w) == Some(ByteSwap(x, w))
  {
    var bs := AppCodec.BeSlice(x, w);
    AppCodec.BeSliceWord(x, w);
    FoldIsBeWord(bs);
    DisplayBytes(bs, w, x);
    AppCodec.LeSliceReversesBe(x, w);
    FoldIsBeWord(Reverse(bs));
    MaskedBeWord(Reverse(bs), w);
    ReadBackReversed(HexBeText(x, w), bs, ByteSwap(x, w), w);
  }

  /** At width 16 the word 0x1234 is shown as "0x1234" in the HEX LE field
      (the HEX BE text), and feeding that text back stores 0x3412. */
  lemma HexLeAsWrittenCounterexample()
    ensures HexLeInput(HexLeTextAsWritten(0x1234, 16), 16) == Some(0x3412)
  {
    HexLeAsWrittenSwaps(0x1234, 16);
    SwapExample();
  }

  lemma SwapExample()
    ensures ByteSwap(0x1234, 16) == 0x3412
  {
    var le := AppCodec.LeSlice(0x1234, 16);
    assert ByteAt(0x1234, 0) == 0x34 && ByteAt(0x1234, 1) == 0x12;
    assert le == [0x34, 0x12];
    assert AppCodec.BeWord(le) == Join(0x12, 0x34, 0, 0, 0, 0, 0, 0);
  }

  /** The corrected HEX LE field shows `bit_size / 4` digits and reads back
      the word through the HEX LE handler. */
  lemma HexLeRoundTrip(x: bv64, w: nat)
    requires IsWidth(w) && Masked(x, w)
    ensures |HexLeText(x, w)| == 2 + w / 4
    ensures HexLeInput(HexLeText(x, w), w) == Some(x)
  {
    var y := ByteSwap(x, w);
    MaskedBeWord(AppCodec.LeSlice(x, w), w);
    HexBeRoundTrip(y, w);
    HexLeAsWrittenSwaps(y, w);
    ByteSwapTwice(x, w);
  }

  /** Swapping the active bytes twice gives the word back. */
  lemma ByteSwapTwice(x: bv64, w: nat)
    requires IsWidth(w) && Masked(x, w)
    ensures ByteSwap(ByteSwap(x, w), w) == x
  {
    var le := AppCodec.LeSlice(x, w);
    var y := AppCodec.BeWord(le);
    BeSliceOfWord(le, w);
    AppCodec.LeSliceReversesBe(y, w);
    AppCodec.LeSliceReversesBe(x, w);
    ReverseReverse(AppCodec.BeSlice(x, w));
    AppCodec.BeSliceWord(x, w);
  }

  /** For digits that fit the width, the HEX LE handler stores the
      byte-swap of what the HEX BE handler stores. */
  lemma LeIsSwappedBe(text: string, w: nat)
    requires IsWidth(w) && |HexDigits(text)| <= w / 4
    ensures HexBeInput(text, w).Some? && HexLeInput(text, w).Some?
    ensures HexLeInput(text, w).value == ByteSwap(HexBeInput(text, w).value, w)
  {
    HexBytesDefined(text, w);
    var bs := HexBytes(text, w).value;
    FoldIsBeWord(bs);
    FoldIsBeWord(Reverse(bs));
    MaskedBeWord(bs, w);
    MaskedBeWord(Reverse(bs), w);
    var be := AppCodec.BeWord(bs);
    BeSliceOfWord(bs, w);
    AppCodec.LeSliceReversesBe(be, w);
    ReadBackBoth(text, bs, be, AppCodec.BeWord(Reverse(bs)), w);
  }

  /** A text whose bytes, reversed, fold into a masked word stores that
      word through the HEX LE handler. */
  lemma ReadBackReversed(text: string, bs: seq<bv8>, x: bv64, w: nat)
    requires HexBytes(text, w) == Some(bs) && FoldBytes(Reverse(bs)) == x && Masked(x, w)
    ensures HexLeInput(text, w) == Some(x)
  {
    assert Fit(FoldBytes(Reverse(bs)), Mask(w)) == x;
  }

  lemma ReadBackBoth(text: string, bs: seq<bv8>, be: bv64, le: bv64, w: nat)
    requires HexBytes(text, w) == Some(bs)
    requires FoldBytes(bs) == be && Masked(be, w)
    requires FoldBytes(Reverse(bs)) == le && Masked(le, w)
    ensures HexBeInput(text, w) == Some(be) && HexLeInput(text, w) == Some(le)
  {
    ReadBackBytes(text, bs, be, w);
    ReadBackReversed(text, bs, le, w);
  }

  /** At most `bit_size / 8` bytes spell a word with no bits above the
      width. */
  lemma MaskedBeWord(bs: seq<bv8>, w: nat)
    requires IsWidth(w) && |bs| <= w / 8
    ensures Masked(AppCodec.BeWord(bs), w)
  {
    match w
    case 8 => MaskedBeWord8(bs);
    case 16 => MaskedBeWord16(bs);
    case 32 => MaskedBeWord32(bs);
    case 64 =>
  }

  lemma MaskedBeWord8(bs: seq<bv8>)
    requires |bs| <= 1
    ensures Masked(AppCodec.BeWord(bs), 8)
  {
    var b := AppCodec.BeByteOf(bs, 0);
    assert AppCodec.BeWord(bs) == Join(b, 0, 0, 0, 0, 0, 0, 0);
  }

  lemma MaskedBeWord16(bs: seq<bv8>)
    requires |bs| <= 2
    ensures Masked(AppCodec.BeWord(bs), 16)
  {
    var b0, b1 := AppCodec.BeByteOf(bs, 0), AppCodec.BeByteOf(bs, 1);
    assert AppCodec.BeWord(bs) == Join(b0, b1, 0, 0, 0, 0, 0, 0);
  }

  lemma MaskedBeWord32(bs: seq<bv8>)
    requires |bs| <= 4
    ensures Masked(AppCodec.BeWord(bs), 32)
  {
    var b0, b1 := AppCodec.BeByteOf(bs, 0), AppCodec.BeByteOf(bs, 1);
    var b2, b3 := AppCodec.BeByteOf(bs, 2), AppCodec.BeByteOf(bs, 3);
    assert AppCodec.BeWord(bs) == Join(b0, b1, b2, b3, 0, 0, 0, 0);
  }

  /** The active bytes of the word spelled by `bit_size / 8` bytes are
      those bytes. */
  lemma BeSliceOfWord(bs: seq<bv8>, w: nat)
    requires IsWidth(w) && |bs| == w / 8
    ensures AppCodec.BeSlice(AppCodec.BeWord(bs), w) == bs
  {
    match w
    case 8 => BeSliceOfWord8(bs);
    case 16 => BeSliceOfWord16(bs);
    case 32 => BeSliceOfWord32(bs);
    case 64 => BeSliceOfWord64(bs);
  }

  lemma BeSliceOfWord8(bs: seq<bv8>)
    requires |bs| == 1
    ensures AppCodec.BeSlice(AppCodec.BeWord(bs), 8) == bs
  {
    var x := AppCodec.BeWord(bs);
    assert x == Join(bs[0], 0, 0, 0, 0, 0, 0, 0);
    BytesOfJoin(bs[0], 0, 0, 0, 0, 0, 0, 0);
    assert AppCodec.BeSlice(x, 8) == [ByteAt(x, 0)];
  }

  lemma BeSliceOfWord16(bs: seq<bv8>)
    requires |bs| == 2
    ensures AppCodec.BeSlice(AppCodec.BeWord(bs), 16) == bs
  {
    var x := AppCodec.BeWord(bs);
    assert x == Join(bs[1], bs[0], 0, 0, 0, 0, 0, 0);
    BytesOfJoin(bs[1], bs[0], 0, 0, 0, 0, 0, 0);
    assert AppCodec.BeSlice(x, 16) == [ByteAt(x, 1), ByteAt(x, 0)];
  }

  lemma BeSliceOfWord32(bs: seq<bv8>)
    requires |bs| == 4
    ensures AppCodec.BeSlice(AppCodec.BeWord(bs), 32) == bs
  {
    var x := AppCodec.BeWord(bs);
    assert x == Join(bs[3], bs[2], bs[1], bs[0], 0, 0, 0, 0);
    BytesOfJoin(bs[3], bs[2], bs[1], bs[0], 0, 0, 0, 0);
    assert AppCodec.BeSlice(x, 32) == [ByteAt(x, 3), ByteAt(x, 2), ByteAt(x, 1), ByteAt(x, 0)];
  }

  lemma BeSliceOfWord64(bs: seq<bv8>)
    requires |bs| == 8
    ensures AppCodec.BeSlice(AppCodec.BeWord(bs), 64) == bs
  {
    var x := AppCodec.BeWord(bs);
    assert x == Join(bs[7], bs[6], bs[5], bs[4], bs[3], bs[2], bs[1], bs[0]);
    BytesOfJoin(bs[7], bs[6], bs[5], bs[4], bs[3], bs[2], bs[1], bs[0]);
  }

  // ------------------------------------------------------------ failures

  /** A reader given no digits, or digits past 2^64 - 1, gives 0. */
  lemma FailedReadIsZero(digits: string, radix: nat)
    requires 2 <= radix <= 36 && AllDigits(digits, radix)
    requires digits == [] || Value(DigitsOf(digits), radix) >= TwoTo64
    ensures ReadOrZero(digits, radix) == 0
  {
    if digits != [] {
      assert CharDigit(digits[0]) < radix;
      assert Unsigned(digits) == digits;
    }
  }

  /** The four number fields store 0, not the old word, when their filtered
      digits are empty or spell a number past 2^64 - 1. */
  lemma InputsOnFailure(text: string, w: nat)
    ensures var d := DecDigits(text);
      d == [] || Value(DigitsOf(d), 10) >= TwoTo64 ==> DecInput(text, w) == 0
    ensures var d := BinDigits(text);
      d == [] || Value(DigitsOf(d), 2) >= TwoTo64 ==> BinInput(text, w) == 0
    ensures var d := HexDigits(text);
      d == [] || Value(DigitsOf(d), 16) >= TwoTo64 ==> HexInput(text, w) == 0
    ensures var d := OctDigits(text);
      d == [] || Value(DigitsOf(d), 8) >= TwoTo64 ==> OctInput(text, w) == 0
  {
    FiltersKeepDigits(text);
    var dec, bin, hex, oct := DecDigits(text), BinDigits(text), HexDigits(text), OctDigits(text);
    if dec == [] || Value(DigitsOf(dec), 10) >= TwoTo64 {
      FailedReadIsZero(dec, 10);
    }
    if bin == [] || Value(DigitsOf(bin), 2) >= TwoTo64 {
      FailedReadIsZero(bin, 2);
    }
    if hex == [] || Value(DigitsOf(hex), 16) >= TwoTo64 {
      FailedReadIsZero(hex, 16);
    }
    if oct == [] || Value(DigitsOf(oct), 8) >= TwoTo64 {
      FailedReadIsZero(oct, 8);
    }
  }

  /** Whatever the text, every number field stores a word inside the
      width. */
  lemma InputsMasked(text: string, w: nat)
    ensures Masked(DecInput(text, w), w) && Masked(BinInput(text, w), w)
    ensures Masked(HexInput(text, w), w) && Masked(OctInput(text, w), w)
  {
    FitInside(ReadOrZero(DecDigits(text), 10), w);
    FitInside(ReadOrZero(BinDigits(text), 2), w);
    FitInside(ReadOrZero(HexDigits(text), 16), w);
    FitInside(ReadOrZero(OctDigits(text), 8), w);
  }

  lemma FitInside(x: bv64, w: nat)
    ensures Masked(Fit(x, Mask(w)), w)
  {
  }

  /** What the byte fields store is inside the width. */
  lemma ByteInputsMasked(text: string, w: nat)
    ensures HexBeInput(text, w).Some? ==> Masked(HexBeInput(text, w).value, w)
    ensures HexLeInput(text, w).Some? ==> Masked(HexLeInput(text, w).value, w)
  {
    match HexBytes(text, w)
    case None =>
    case Some(bs) =>
      FitInside(FoldBytes(bs), w);
      FitInside(FoldBytes(Reverse(bs)), w);
  }

  // ------------------------------------------------------------ rotations

  /** `Lshr`: `ba.0.rotate_left(1) & mask()`, a rotation of all 64 bits,
      then the mask. */
  function RotateAllLeft(x: bv64, m: bv64): bv64
  {
    ((x << 1) | (x >> 63)) & m
  }

  /** `Rshr`: `ba.0.rotate_right(1) & mask()`. */
  function RotateAllRight(x: bv64, m: bv64): bv64
  {
    ((x >> 1) | (x << 63)) & m
  }

  /** At 64 bits the two rotations undo each other. */
  lemma RotateAllInverse(x: bv64)
    ensures RotateAllRight(RotateAllLeft(x, Mask(64)), Mask(64)) == x
    ensures RotateAllLeft(RotateAllRight(x, Mask(64)), Mask(64)) == x
  {
    MaskFull();
    LeftThenRight(x, AllOnes);
    RightThenLeft(x, AllOnes);
  }

  lemma MaskFull()
    ensures Mask(64) == AllOnes
  {
  }

  lemma LeftThenRight(x: bv64, m: bv64)
    requires m == AllOnes
    ensures RotateAllRight(RotateAllLeft(x, m), m) == x
  {
  }

  lemma RightThenLeft(x: bv64, m: bv64)
    requires m == AllOnes
    ensures RotateAllLeft(RotateAllRight(x, m), m) == x
  {
  }

  /** At 64 bits they are the main view's width rotations. */
  lemma RotateAllFull(x: bv64)
    ensures RotateAllLeft(x, Mask(64)) == App.RotateLeft(x, Mask(64), 63)
    ensures RotateAllRight(x, Mask(64)) == App.RotateRight(x, Mask(64), 63)
  {
    MaskFull();
  }

  /** Below 64 bits, on a word inside the width, they are the plain shifts:
      the bit carried round lands in, or comes from, bit 63, outside the
      mask. */
  lemma RotateAllNarrow(x: bv64, w: nat)
    requires IsWidth(w) && w < 64 && Masked(x, w)
    ensures RotateAllLeft(x, Mask(w)) == App.ShiftLeft(x, Mask(w))
    ensures RotateAllRight(x, Mask(w)) == App.ShiftRight(x, Mask(w))
  {
    NarrowMask(w);
    LeftCarryLost(x, Mask(w));
    RightCarryLost(x, Mask(w));
  }

  /** So at 8 bits Lshr drops the top bit where a width rotation brings it
      round to bit 0. */
  lemma RotateAllNarrowExample()
    ensures RotateAllLeft(0x80, Mask(8)) == 0
    ensures App.RotateLeft(0x80, Mask(8), 7) == 1
  {
    assert Mask(8) == 0xFF;
  }

  /** The width rotation the buttons are named after, which the main view
      implements: it undoes itself at every width and is the panel's
      rotation at 64 bits. */
  lemma RotateWidthCorrected(x: bv64, w: nat)
    requires IsWidth(w) && Masked(x, w)
    ensures App.RotateRight(App.RotateLeft(x, Mask(w), App.Top(w)), Mask(w), App.Top(w)) == x
    ensures w == 64 ==> App.RotateLeft(x, Mask(w), App.Top(w)) == RotateAllLeft(x, Mask(w))
  {
    App.RotateLeftUndone(x, w);
    if w == 64 {
      TopFull();
      RotateAllFull(x);
    }
  }

  lemma TopFull()
    ensures App.Top(64) == 63
  {
  }

  lemma NarrowMask(w: nat)
    requires IsWidth(w) && w < 64
    ensures Mask(w) >> 63 == 0
  {
  }

  lemma LeftCarryLost(x: bv64, m: bv64)
    requires m >> 63 == 0 && x & m == x
    ensures RotateAllLeft(x, m) == App.ShiftLeft(x, m)
  {
  }

  lemma RightCarryLost(x: bv64, m: bv64)
    requires m >> 63 == 0
    ensures RotateAllRight(x, m) == App.ShiftRight(x, m)
  {
  }

  lemma RotateLeftInside(x: bv64, m: bv64)
    ensures RotateAllLeft(x, m) & m == RotateAllLeft(x, m)
  {
    MaskIdempotent((x << 1) | (x >> 63), m);
  }

  lemma RotateRightInside(x: bv64, m: bv64)
    ensures RotateAllRight(x, m) & m == RotateAllRight(x, m)
  {
    MaskIdempotent((x >> 1) | (x << 63), m);
  }

  // ------------------------------------------------------------ character views

  /** `ascii_str`: the active bytes least significant first, decoded
      lossily, every character that is not ASCII-graphic shown as a space. */
  function AsciiView(x: bv64, w: nat): string
    requires IsWidth(w)
  {
    GraphicOrSpace(Lossy(Values(AppCodec.LeSlice(x, w))))
  }

  function GraphicOrSpace(s: string): (r: string)
    ensures |r| == |s|
    ensures forall i :: 0 <= i < |s| ==> r[i] == if IsAsciiGraphic(s[i]) then s[i] else ' '
  {
    seq(|s|, i requires 0 <= i < |s| => if IsAsciiGraphic(s[i]) then s[i] else ' ')
  }

  /** `utf8_str`: the active bytes most significant first, decoded lossily,
      with no further filter. */
  function Utf8View(x: bv64, w: nat): string
    requires IsWidth(w)
  {
    Lossy(Values(AppCodec.BeSlice(x, w)))
  }

  /** The ASCII view has between one and `bit_size / 8` characters, each
      ASCII-graphic or a space. */
  lemma AsciiViewShape(x: bv64, w: nat)
    requires IsWidth(w)
    ensures 1 <= |AsciiView(x, w)| <= w / 8
    ensures forall i :: 0 <= i < |AsciiView(x, w)| ==>
      IsAsciiGraphic(AsciiView(x, w)[i]) || AsciiView(x, w)[i] == ' '
  {
  }

  /** When the active bytes are ASCII, the ASCII view is the main view's:
      one character per byte, printable bytes as themselves. */
  lemma AsciiViewOfAscii(x: bv64, w: nat)
    requires IsWidth(w)
    requires forall i :: 0 <= i < w / 8 ==> ByteValue(AppCodec.LeSlice(x, w)[i]) < 0x80
    ensures AsciiView(x, w) == AppCodec.AsciiText(x, w)
  {
    GraphicOfAscii(AppCodec.LeSlice(x, w));
  }

  lemma GraphicOfAscii(bs: seq<bv8>)
    requires forall i :: 0 <= i < |bs| ==> ByteValue(bs[i]) < 0x80
    ensures GraphicOrSpace(Lossy(Values(bs))) == AppCodec.AsciiOf(bs)
  {
    var vs := Values(bs);
    LossyAscii(vs);
    var v, a := GraphicOrSpace(Lossy(vs)), AppCodec.AsciiOf(bs);
    forall i | 0 <= i < |v|
      ensures v[i] == a[i]
    {
      assert Lossy(vs)[i] == Latin1(ByteValue(bs[i]));
    }
  }

  /** The UTF-8 view has between one and `bit_size / 8` characters, each
      fitting the byte count or U+FFFD; from 32 bits on it is the main
      view's UTF-8 field. */
  lemma Utf8ViewShape(x: bv64, w: nat)
    requires IsWidth(w)
    ensures 1 <= |Utf8View(x, w)| <= w / 8
    ensures forall i :: 0 <= i < |Utf8View(x, w)| ==>
      Utf8View(x, w)[i] == Replacement || Utf8Len(Utf8View(x, w)[i]) <= w / 8
    ensures w >= 32 ==> Utf8View(x, w) == AppCodec.Utf8Text(x, w)
  {
    AppCodec.LossyFits(x, w);
    AppCodec.Utf8TextDecoded(x, w);
  }

  /** When every active byte is printable ASCII, the UTF-8 view is the ASCII
      view backwards. */
  lemma Utf8ViewReversesAscii(x: bv64, w: nat)
    requires IsWidth(w)
    requires forall i :: 0 <= i < w / 8 ==> 32 <= ByteValue(AppCodec.LeSlice(x, w)[i]) <= 126
    ensures Utf8View(x, w) == Reverse(AsciiView(x, w))
  {
    var le, be := AppCodec.LeSlice(x, w), AppCodec.BeSlice(x, w);
    AppCodec.LeSliceReversesBe(x, w);
    ReverseReverse(be);
    AppCodec.PrintableViews(be, le, 4);
    AppCodec.CollapseKeeps(Lossy(Values(be)), 4);
    AsciiViewOfAscii(x, w);
  }

  // ------------------------------------------------------------ the panel

  /** What the panel's fields show for the shared word x at width w, all
      from `current_value()`, the word masked; the HEX LE field with the
      same format as the HEX BE field, as rendered. */
  function Render(x: bv64, w: nat): App.Fields
    requires IsWidth(w)
  {
    var current := Fit(x, Mask(w));
    App.Fields(AppCodec.DecText(current), AppCodec.BinText(current, w), AppCodec.HexText(current),
               HexBeText(current, w), HexLeTextAsWritten(current, w), AppCodec.OctText(current),
               AsciiView(current, w), Utf8View(current, w))
  }

  /** Every editable field but HEX LE, typed back into its own handler,
      stores the word it shows; the HEX LE field stores the word with its
      active bytes swapped. */
  lemma RenderReadsBack(x: bv64, w: nat)
    requires IsWidth(w)
    ensures var f, current := Render(x, w), Fit(x, Mask(w));
      DecInput(f.dec, w) == current && BinInput(f.bin, w) == current &&
      HexInput(f.hex, w) == current && OctInput(f.oct, w) == current
    ensures var f, current := Render(x, w), Fit(x, Mask(w));
      HexBeInput(f.hexBe, w) == Some(current) && HexLeInput(f.hexLe, w) == Some(ByteSwap(current, w))
  {
    var current := Fit(x, Mask(w));
    FitInside(x, w);
    DecRoundTrip(current, w);
    BinRoundTrip(current, w);
    HexRoundTrip(current, w);
    OctRoundTrip(current, w);
    HexBeRoundTrip(current, w);
    HexLeAsWrittenSwaps(current, w);
  }

  /** The number-representation panel over the shared container. It never
      changes the width, which the width selector owns. */
  class Panel {
    const bits: BitArray
    const bitSize: nat

    predicate Valid()
    {
      IsWidth(bitSize)
    }

    constructor (shared: BitArray, w: nat)
      requires IsWidth(w)
      ensures Valid() && bits == shared && bitSize == w
    {
      bits := shared;
      bitSize := w;
    }

    /** `current_value()`. */
    function Current(): bv64
      reads bits
    {
      Fit(bits.raw, Mask(bitSize))
    }

    /** The fields as the panel shows them now. */
    function View(): App.Fields
      requires Valid()
      reads bits
    {
      Render(bits.raw, bitSize)
    }

    /** `input_dec`. */
    method InputDec(text: string)
      requires Valid()
      modifies bits
      ensures bits.raw == DecInput(text, bitSize) && Masked(bits.raw, bitSize)
    {
      InputsMasked(text, bitSize);
      bits.raw := DecInput(text, bitSize);
    }

    /** `input_bin`. */
    method InputBin(text: string)
      requires Valid()
      modifies bits
      ensures bits.raw == BinInput(text, bitSize) && Masked(bits.raw, bitSize)
    {
      InputsMasked(text, bitSize);
      bits.raw := BinInput(text, bitSize);
    }

    /** `input_hex`. */
    method InputHex(text: string)
      requires Valid()
      modifies bits
      ensures bits.raw == HexInput(text, bitSize) && Masked(bits.raw, bitSize)
    {
      InputsMasked(text, bitSize);
      bits.raw := HexInput(text, bitSize);
    }

    /** `input_oct`. */
    method InputOct(text: string)
      requires Valid()
      modifies bits
      ensures bits.raw == OctInput(text, bitSize) && Masked(bits.raw, bitSize)
    {
      InputsMasked(text, bitSize);
      bits.raw := OctInput(text, bitSize);
    }

    /** `input_hex_be`: store the folded bytes, or nothing when decoding
        fails. */
    method InputHexBe(text: string)
      requires Valid()
      modifies bits
      ensures bits.raw == match HexBeInput(text, bitSize)
                          case Some(v) => v
                          case None => old(bits.raw)
    {
      match HexBeInput(text, bitSize)
      case Some(v) => bits.raw := v;
      case None =>
    }

    /** `input_hex_le`. */
    method InputHexLe(text: string)
      requires Valid()
      modifies bits
      ensures bits.raw == match HexLeInput(text, bitSize)
                          case Some(v) => v
                          case None => old(bits.raw)
    {
      match HexLeInput(text, bitSize)
      case Some(v) => bits.raw := v;
      case None =>
    }

    /** `Lsh`. */
    method Lsh()
      requires Valid()
      modifies bits
      ensures bits.raw == App.ShiftLeft(old(bits.raw), Mask(bitSize)) && Masked(bits.raw, bitSize)
    {
      App.ShiftLeftInside(bits.raw, Mask(bitSize));
      bits.raw := App.ShiftLeft(bits.raw, Mask(bitSize));
    }

    /** `Rsh`. */
    method Rsh()
      requires Valid()
      modifies bits
      ensures bits.raw == App.ShiftRight(old(bits.raw), Mask(bitSize)) && Masked(bits.raw, bitSize)
    {
      App.ShiftRightInside(bits.raw, Mask(bitSize));
      bits.raw := App.ShiftRight(bits.raw, Mask(bitSize));
    }

    /** `Lshr`. */
    method Lshr()
      requires Valid()
      modifies bits
      ensures bits.raw == RotateAllLeft(old(bits.raw), Mask(bitSize)) && Masked(bits.raw, bitSize)
    {
      RotateLeftInside(bits.raw, Mask(bitSize));
      bits.raw := RotateAllLeft(bits.raw, Mask(bitSize));
    }

    /** `Rshr`. */
    method Rshr()
      requires Valid()
      modifies bits
      ensures bits.raw == RotateAllRight(old(bits.raw), Mask(bitSize)) && Masked(bits.raw, bitSize)
    {
      RotateRightInside(bits.raw, Mask(bitSize));
      bits.raw := RotateAllRight(bits.raw, Mask(bitSize));
    }

    /** `Not`. */
    method Not()
      requires Valid()
      modifies bits
      ensures bits.raw == App.Invert(old(bits.raw), Mask(bitSize)) && Masked(bits.raw, bitSize)
    {
      App.InvertInside(bits.raw, Mask(bitSize));
      bits.raw := App.Invert(bits.raw, Mask(bitSize));
    }

    /** `Clr`. */
    method Clr()
      requires Valid()
      modifies bits
      ensures bits.raw == 0
    {
      bits.raw := 0;
    }

    /** `Set`: the mask itself, every active bit. */
    method Set()
      requires Valid()
      modifies bits
      ensures bits.raw == Mask(bitSize) && Masked(bits.raw, bitSize)
    {
      MaskIdempotent(AllOnes, Mask(bitSize));
      bits.raw := Mask(bitSize);
    }
  }
}
