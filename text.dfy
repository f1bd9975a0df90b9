/** The string operations the text fields go through: Rust's
    `str::replace(pat, "")`, character filters, ASCII upper-casing,
    `u64::from_str_radix` and `str::parse::<u64>`, the `{}`, `{:b}`, `{:o}`,
    `{:X}` and zero-padded formats, `String::truncate`, and the `hex` crate's
    `encode` and `decode`. */
module Text {
  import opened Digits
  import opened Words
  import opened Utf8

  datatype Option<+T> = None | Some(value: T)

  // ------------------------------------------------------------ editing

  /** `s.replace(pat, "")`: occurrences of pat are removed from left to
      right, never overlapping, and the text left behind is not searched
      again ("00xx" without "0x" is "0x"). */
  function RemoveAll(s: string, pat: string): (r: string)
    requires |pat| > 0
    ensures |r| <= |s|
    decreases |s|
  {
    if |s| < |pat| then s
    else if s[..|pat|] == pat then RemoveAll(s[|pat|..], pat)
    else [s[0]] + RemoveAll(s[1..], pat)
  }

  /** Text without the last character of pat has no occurrence to remove. */
  lemma {:induction false} RemoveAbsent(s: string, pat: string)
    requires |pat| > 0
    requires forall i :: 0 <= i < |s| ==> s[i] != pat[|pat| - 1]
    ensures RemoveAll(s, pat) == s
    decreases |s|
  {
    if |s| >= |pat| {
      assert s[..|pat|][|pat| - 1] == s[|pat| - 1];
      assert s[..|pat|] != pat;
      RemoveAbsent(s[1..], pat);
      assert s == [s[0]] + s[1..];
    }
  }

  /** A leading occurrence of pat is removed and the rest is edited on its own. */
  lemma RemoveLeading(s: string, pat: string)
    requires |pat| > 0
    ensures RemoveAll(pat + s, pat) == RemoveAll(s, pat)
  {
    assert (pat + s)[..|pat|] == pat;
    assert (pat + s)[|pat|..] == s;
  }

  /** `s.chars().filter(keep).collect()`. */
  function Filter(s: string, keep: char -> bool): (r: string)
    ensures |r| <= |s|
    ensures forall i :: 0 <= i < |r| ==> keep(r[i])
  {
    if s == [] then []
    else if keep(s[0]) then [s[0]] + Filter(s[1..], keep)
    else Filter(s[1..], keep)
  }

  /** Filtering one character keeps it exactly when it passes. */
  lemma FilterOne(c: char, keep: char -> bool)
    ensures Filter([c], keep) == if keep(c) then [c] else []
  {
    assert [c][1..] == [];
  }

  /** Filtering distributes over concatenation, so together with FilterOne
      the output is the passing characters of the input, in their order. */
  lemma {:induction false} FilterAppend(a: string, b: string, keep: char -> bool)
    ensures Filter(a + b, keep) == Filter(a, keep) + Filter(b, keep)
  {
    if a == [] {
      assert a + b == b;
    } else {
      assert (a + b)[0] == a[0];
      assert (a + b)[1..] == a[1..] + b;
      FilterAppend(a[1..], b, keep);
    }
  }

  /** Filtering keeps text whose every character passes unchanged. */
  lemma {:induction false} FilterKeepsAll(s: string, keep: char -> bool)
    requires forall i :: 0 <= i < |s| ==> keep(s[i])
    ensures Filter(s, keep) == s
  {
    if s != [] {
      FilterKeepsAll(s[1..], keep);
      assert s == [s[0]] + s[1..];
    }
  }

  predicate IsAsciiDigit(c: char)
  {
    '0' <= c <= '9'
  }

  predicate IsAsciiHexDigit(c: char)
  {
    '0' <= c <= '9' || 'a' <= c <= 'f' || 'A' <= c <= 'F'
  }

  /** `char::is_ascii_graphic`: '!' to '~'. */
  predicate IsAsciiGraphic(c: char)
  {
    '!' <= c <= '~'
  }

  /** `str::to_uppercase`, on ASCII letters. */
  function ToUpper(s: string): (r: string)
    ensures |r| == |s|
    ensures forall i :: 0 <= i < |s| ==>
      r[i] == if 'a' <= s[i] <= 'z' then ((s[i] as int) - 32) as char else s[i]
  {
    seq(|s|, i requires 0 <= i < |s| =>
      if 'a' <= s[i] <= 'z' then ((s[i] as int) - 32) as char else s[i])
  }

  /** Upper-casing keeps exactly the hex digits hex digits. */
  lemma ToUpperHexDigits(s: string, i: nat)
    requires i < |s|
    ensures IsAsciiHexDigit(ToUpper(s)[i]) <==> IsAsciiHexDigit(s[i])
    ensures IsAsciiHexDigit(s[i]) ==> CharDigit(ToUpper(s)[i]) == CharDigit(s[i])
  {
  }

  // ------------------------------------------------------------ digits

  /** The digit a character stands for in the largest radix Rust knows:
      '0'..'9' are 0..9 and letters of either case 10..35; 36 means no digit.
      `char::to_digit(radix)` succeeds exactly when this is below radix. */
  function CharDigit(c: char): (d: nat)
    ensures d <= 36
    ensures d < 10 <==> IsAsciiDigit(c)
    ensures d < 16 <==> IsAsciiHexDigit(c)
  {
    if '0' <= c <= '9' then (c as int) - ('0' as int)
    else if 'a' <= c <= 'z' then (c as int) - ('a' as int) + 10
    else if 'A' <= c <= 'Z' then (c as int) - ('A' as int) + 10
    else 36
  }

  /** The character Rust's formatter writes for a digit. */
  function DigitChar(d: nat, upper: bool): (c: char)
    requires d < 36
    ensures CharDigit(c) == d
    ensures !upper ==> !('A' <= c <= 'Z')
    ensures upper ==> !('a' <= c <= 'z')
  {
    if d < 10 then (('0' as int) + d) as char
    else if upper then (('A' as int) + d - 10) as char
    else (('a' as int) + d - 10) as char
  }

  predicate AllDigits(s: string, radix: nat)
  {
    forall i :: 0 <= i < |s| ==> CharDigit(s[i]) < radix
  }

  function DigitsOf(s: string): (ds: seq<nat>)
    ensures |ds| == |s| && forall i :: 0 <= i < |s| ==> ds[i] == CharDigit(s[i])
  {
    seq(|s|, i requires 0 <= i < |s| => CharDigit(s[i]))
  }

  /** The characters that spell a digit string. */
  function Spell(ds: seq<nat>, upper: bool): (s: string)
    requires IsDigits(ds, 36)
    ensures |s| == |ds| && DigitsOf(s) == ds
  {
    var s := seq(|ds|, i requires 0 <= i < |ds| => DigitChar(ds[i], upper));
    assert DigitsOf(s) == ds;
    s
  }

  // ------------------------------------------------------------ parsing

  /** The text after the one leading '+' Rust's parser strips. */
  function Unsigned(s: string): string
  {
    if |s| > 0 && s[0] == '+' then s[1..] else s
  }

  /** `u64::from_str_radix(s, radix)`, with `None` for `Err`: empty text, a
      lone sign, a character that is not a digit of the radix after the
      optional '+' (this includes '-', since u64 is unsigned) and a value of
      2^64 or more are errors. `str::parse::<u64>` is radix 10. */
  function FromStrRadix(s: string, radix: nat): Option<bv64>
    requires 2 <= radix <= 36
  {
    match ParseValue(s, radix)
    case None => None
    case Some(v) => Some(FromNat(v))
  }

  /** The number `u64::from_str_radix` reads, or `None` on an error. */
  function ParseValue(s: string, radix: nat): (r: Option<nat>)
    requires 2 <= radix <= 36
    ensures r.Some? ==> r.value < TwoTo64
  {
    if s == [] || (|s| == 1 && (s[0] == '+' || s[0] == '-')) then None
    else
      var digits := Unsigned(s);
      if !AllDigits(digits, radix) then None
      else
        var v := Value(DigitsOf(digits), radix);
        if v < TwoTo64 then Some(v) else None
  }

  /** What a successful parse means: the text is an optional '+' and a
      non-empty digit string of the radix, whose value is the result. */
  lemma ParseMeaning(s: string, radix: nat)
    requires 2 <= radix <= 36
    requires ParseValue(s, radix).Some?
    ensures |Unsigned(s)| >= 1 && AllDigits(Unsigned(s), radix)
    ensures ParseValue(s, radix).value == Value(DigitsOf(Unsigned(s)), radix)
  {
  }

  /** The errors: empty text, a non-digit, a value past 2^64 - 1. */
  lemma ParseErrors(s: string, radix: nat)
    requires 2 <= radix <= 36
    ensures s == [] ==> ParseValue(s, radix) == None
    ensures (exists i :: 0 <= i < |Unsigned(s)| && CharDigit(Unsigned(s)[i]) >= radix) ==>
      ParseValue(s, radix) == None
    ensures AllDigits(Unsigned(s), radix) && Value(DigitsOf(Unsigned(s)), radix) >= TwoTo64 ==>
      ParseValue(s, radix) == None
  {
  }

  /** The word parsed is the one that denotes the number read. */
  lemma ParseWord(s: string, radix: nat)
    requires 2 <= radix <= 36
    ensures FromStrRadix(s, radix).Some? <==> ParseValue(s, radix).Some?
    ensures FromStrRadix(s, radix).Some? ==>
      ToNat(FromStrRadix(s, radix).value) == ParseValue(s, radix).value
  {
    if ParseValue(s, radix).Some? {
      ToNatFromNat(ParseValue(s, radix).value);
    }
  }

  /** A digit string whose value fits parses to that value. */
  lemma ParseSpelled(ds: seq<nat>, radix: nat, upper: bool)
    requires 2 <= radix <= 36 && |ds| >= 1 && IsDigits(ds, radix)
    requires Value(ds, radix) < TwoTo64
    ensures ParseValue(Spell(ds, upper), radix) == Some(Value(ds, radix))
  {
    var s := Spell(ds, upper);
    assert CharDigit(s[0]) == ds[0] < 36;
    assert Unsigned(s) == s;
  }

  // ------------------------------------------------------------ formatting

  /** `format!("{}")`, `{:b}`, `{:o}`, `{:x}` / `{:X}` of a number: its
      shortest digit string. */
  function Show(n: nat, radix: nat, upper: bool): string
    requires 2 <= radix <= 36
  {
    Spell(ToDigits(n, radix), upper)
  }

  /** `{:0width$b}` and the like: at least `width` digits, zeros in front. */
  function ShowPadded(n: nat, radix: nat, upper: bool, width: nat): string
    requires 2 <= radix <= 36
  {
    Spell(PadDigits(n, radix, width), upper)
  }

  /** Parsing what was shown gives the number back. */
  lemma ParseShow(n: nat, radix: nat, upper: bool, width: nat)
    requires 2 <= radix <= 36 && n < TwoTo64
    ensures ParseValue(Show(n, radix, upper), radix) == Some(n)
    ensures ParseValue(ShowPadded(n, radix, upper, width), radix) == Some(n)
  {
    ParseSpelled(ToDigits(n, radix), radix, upper);
    ParseSpelled(PadDigits(n, radix, width), radix, upper);
  }

  /** ... and the word, for the number a word denotes. */
  lemma ParseShowWord(x: bv64, radix: nat, upper: bool, width: nat)
    requires 2 <= radix <= 36
    ensures FromStrRadix(Show(ToNat(x), radix, upper), radix) == Some(x)
    ensures FromStrRadix(ShowPadded(ToNat(x), radix, upper, width), radix) == Some(x)
  {
    ParseShow(ToNat(x), radix, upper, width);
    FromNatToNat(x);
  }

  /** A shown number has at most k digits exactly when it is below radix^k. */
  lemma ShowLength(n: nat, radix: nat, upper: bool, width: nat, k: nat)
    requires 2 <= radix <= 36 && k >= 1 && width >= 1
    ensures |Show(n, radix, upper)| <= k <==> n < Pow(radix, k)
    ensures n < Pow(radix, width) ==> |ShowPadded(n, radix, upper, width)| == width
  {
    DigitCount(n, radix, k);
    DigitCount(n, radix, width);
  }

  /** `format!("{:0>width$}", s)`: s with '0's in front, at least `width`
      characters. */
  function PadLeft(s: string, width: nat): (r: string)
    ensures |r| == if |s| < width then width else |s|
    ensures r[|r| - |s|..] == s
    ensures forall i :: 0 <= i < |r| - |s| ==> r[i] == '0'
  {
    if |s| < width then seq(width - |s|, i => '0') + s else s
  }

  // ------------------------------------------------------------ truncation

  /** `s.truncate(n)` on a `String` whose length is counted in bytes: a
      no-op when n is not below the length, the prefix of n bytes
      otherwise, and a panic (`None` here) when byte n falls inside a
      character. */
  function TruncateBytes(s: string, n: nat): (r: Option<string>)
    ensures r.Some? ==> |r.value| <= |s| && r.value == s[..|r.value|]
    ensures r.Some? ==> ByteLen(r.value) == if ByteLen(s) <= n then ByteLen(s) else n
  {
    if ByteLen(s) <= n then Some(s)
    else if n == 0 then Some([])
    else if Utf8Len(s[0]) > n then None
    else
      match TruncateBytes(s[1..], n - Utf8Len(s[0]))
      case None => None
      case Some(t) => Some([s[0]] + t)
  }

  /** On ASCII text truncation never panics and keeps n characters. */
  lemma {:induction false} TruncateAscii(s: string, n: nat)
    requires IsAscii(s)
    ensures TruncateBytes(s, n) == Some(if |s| <= n then s else s[..n])
    decreases |s|
  {
    AsciiByteLen(s);
    if |s| > n && n > 0 {
      assert IsAscii(s[1..]) by {
        forall i | 0 <= i < |s[1..]| ensures (s[1..][i] as int) < 0x80 {
          assert s[1..][i] == s[i + 1];
        }
      }
      TruncateAscii(s[1..], n - 1);
      assert s[..n] == [s[0]] + s[1..][..n - 1];
    }
  }

  // ------------------------------------------------------------ hex crate

  /** `hex::encode`: two lower-case digits per byte, high nibble first. */
  function HexEncode(bs: seq<bv8>): (s: string)
    ensures |s| == 2 * |bs|
    ensures forall i :: 0 <= i < |s| ==> IsAsciiHexDigit(s[i]) && !('A' <= s[i] <= 'Z')
  {
    if bs == [] then []
    else
      var v := ByteValue(bs[0]);
      [DigitChar(v / 16, false), DigitChar(v % 16, false)] + HexEncode(bs[1..])
  }

  /** `hex::decode`: text of even length made of hex digits of either case,
      two per byte; anything else is an error. */
  function HexDecode(s: string): (r: Option<seq<bv8>>)
    ensures r.Some? ==> 2 * |r.value| == |s|
    decreases |s|
  {
    if |s| % 2 == 1 then None
    else if s == [] then Some([])
    else if !IsAsciiHexDigit(s[0]) || !IsAsciiHexDigit(s[1]) then None
    else
      match HexDecode(s[2..])
      case None => None
      case Some(rest) => Some([LowByte(CharDigit(s[0]) * 16 + CharDigit(s[1]))] + rest)
  }

  /** Decoding succeeds exactly on even-length text of hex digits. */
  lemma {:induction false} HexDecodeDefined(s: string)
    ensures HexDecode(s).Some? <==> |s| % 2 == 0 && forall i :: 0 <= i < |s| ==> IsAsciiHexDigit(s[i])
    decreases |s|
  {
    if |s| % 2 == 0 && s != [] {
      HexDecodeDefined(s[2..]);
      if IsAsciiHexDigit(s[0]) && IsAsciiHexDigit(s[1]) {
        assert forall i :: 2 <= i < |s| ==> s[i] == s[2..][i - 2];
      }
    }
  }

  /** Decoding what was encoded gives the bytes back. */
  lemma {:induction false} HexRoundTrip(bs: seq<bv8>)
    ensures HexDecode(HexEncode(bs)) == Some(bs)
    decreases |bs|
  {
    if bs != [] {
      var v := ByteValue(bs[0]);
      var s := HexEncode(bs);
      assert s[2..] == HexEncode(bs[1..]);
      HexRoundTrip(bs[1..]);
      assert CharDigit(s[0]) * 16 + CharDigit(s[1]) == v;
      LowByteOfValue(bs[0]);
      assert bs == [bs[0]] + bs[1..];
    }
  }

  /** Byte i of a decoded string comes from characters 2i and 2i + 1. */
  lemma {:induction false} HexDecodeAt(s: string, i: nat)
    requires HexDecode(s).Some? && i < |HexDecode(s).value|
    ensures ByteValue(HexDecode(s).value[i]) == CharDigit(s[2 * i]) * 16 + CharDigit(s[2 * i + 1])
    decreases |s|
  {
    if i == 0 {
      ModBelow(CharDigit(s[0]) * 16 + CharDigit(s[1]), 256);
    } else {
      HexDecodeAt(s[2..], i - 1);
    }
  }
}
