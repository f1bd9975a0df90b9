/** UTF-8 as Rust's standard library sees it: `char::len_utf8`, byte length
    of a `String`, and `String::from_utf8_lossy`, which replaces every
    maximal ill-formed subpart of a byte string with U+FFFD (section 3.9 of
    the Unicode Standard, the rule Rust's `Utf8Chunks` follows). */
module Utf8 {
  import opened Words

  const Replacement: char := '\U{FFFD}'

  /** A byte, by its value. The decoder works on values; `Values` turns the
      bytes of a word into them. */
  type Octet = v: nat | v < 0x100

  function Values(bs: seq<bv8>): (vs: seq<Octet>)
    ensures |vs| == |bs| && forall i :: 0 <= i < |bs| ==> vs[i] == ByteValue(bs[i])
  {
    seq(|bs|, i requires 0 <= i < |bs| => ByteValue(bs[i]))
  }

  /** Rust's `char::len_utf8`: the number of bytes that encode c. */
  function Utf8Len(c: char): (n: nat)
    ensures 1 <= n <= 4
    ensures n == 1 <==> (c as int) < 0x80
  {
    if (c as int) < 0x80 then 1
    else if (c as int) < 0x800 then 2
    else if (c as int) < 0x1_0000 then 3
    else 4
  }

  /** `String::len`: the length in bytes, not in characters. */
  function ByteLen(s: string): nat
  {
    if s == [] then 0 else Utf8Len(s[0]) + ByteLen(s[1..])
  }

  predicate IsAscii(s: string)
  {
    forall i :: 0 <= i < |s| ==> (s[i] as int) < 0x80
  }

  /** On ASCII text, bytes and characters coincide. */
  lemma {:induction false} AsciiByteLen(s: string)
    requires IsAscii(s)
    ensures ByteLen(s) == |s|
    decreases |s|
  {
    if s != [] {
      assert IsAscii(s[1..]) by {
        forall i | 0 <= i < |s[1..]| ensures (s[1..][i] as int) < 0x80 {
          assert s[1..][i] == s[i + 1];
        }
      }
      AsciiByteLen(s[1..]);
    }
  }

  /** The character whose code is the byte's value (Rust's `b as char`). */
  function Latin1(v: Octet): (c: char)
    ensures (c as int) == v
  {
    v as char
  }

  // ------------------------------------------------------------ decoding

  /** A continuation byte, 10xxxxxx (Rust tests `b & 192 == 128`). */
  predicate IsCont(v: nat)
  {
    0x80 <= v <= 0xBF
  }

  /** How many bytes a lead byte announces; 0 for a byte that cannot start
      a sequence (continuation bytes, C0, C1 and F5 to FF). */
  function LeadWidth(v: nat): nat
  {
    if v < 0x80 then 1
    else if 0xC2 <= v <= 0xDF then 2
    else if 0xE0 <= v <= 0xEF then 3
    else if 0xF0 <= v <= 0xF4 then 4
    else 0
  }

  /** The second bytes a lead byte accepts (Unicode Table 3-7): these rule
      out overlong forms, surrogates and code points above U+10FFFF. */
  predicate SecondOk(v0: nat, v1: nat)
  {
    if v0 == 0xE0 then 0xA0 <= v1 <= 0xBF
    else if v0 == 0xED then 0x80 <= v1 <= 0x9F
    else if v0 == 0xF0 then 0x90 <= v1 <= 0xBF
    else if v0 == 0xF4 then 0x80 <= v1 <= 0x8F
    else IsCont(v1)
  }

  /** What a decoder finds at the head of a non-empty byte string: a
      well-formed sequence of `len` bytes, or a maximal ill-formed subpart of
      `len` bytes (a lead byte that cannot start anything is one byte; a
      sequence that breaks at its k-th byte is k - 1 bytes). */
  datatype Chunk = Valid(len: nat) | Invalid(len: nat)

  /** bs is exactly one well-formed sequence: the length its lead byte
      announces, an accepted second byte and continuation bytes after it. */
  predicate WellFormed(bs: seq<Octet>)
  {
    1 <= |bs| <= 4 && LeadWidth(bs[0]) == |bs|
    && (|bs| >= 2 ==> SecondOk(bs[0], bs[1]))
    && (|bs| >= 3 ==> IsCont(bs[2]))
    && (|bs| == 4 ==> IsCont(bs[3]))
  }

  function Head(bs: seq<Octet>): (c: Chunk)
    requires |bs| > 0
    ensures 1 <= c.len <= |bs| && c.len <= 4
    ensures c.Valid? <==> WellFormed(bs[..c.len])
  {
    var v0 := bs[0];
    var w := LeadWidth(v0);
    if w == 1 then Valid(1)
    else if w == 0 then Invalid(1)
    else if |bs| < 2 || !SecondOk(v0, bs[1]) then Invalid(1)
    else if w == 2 then Valid(2)
    else if |bs| < 3 || !IsCont(bs[2]) then Invalid(2)
    else if w == 3 then Valid(3)
    else if |bs| < 4 || !IsCont(bs[3]) then Invalid(3)
    else Valid(4)
  }

  /** The scalar value of a two-byte sequence: U+0080 to U+07FF. */
  function Scalar2(v0: nat, v1: nat): (n: nat)
    requires 0xC2 <= v0 <= 0xDF && IsCont(v1)
    ensures 0x80 <= n < 0x800
  {
    (v0 - 0xC0) * 0x40 + (v1 - 0x80)
  }

  /** The scalar value of a three-byte sequence: U+0800 to U+FFFF without
      the surrogates. */
  function Scalar3(v0: nat, v1: nat, v2: nat): (n: nat)
    requires 0xE0 <= v0 <= 0xEF && SecondOk(v0, v1) && IsCont(v2)
    ensures 0x800 <= n < 0x1_0000 && !(0xD800 <= n < 0xE000)
  {
    (v0 - 0xE0) * 0x1000 + (v1 - 0x80) * 0x40 + (v2 - 0x80)
  }

  /** The scalar value of a four-byte sequence: U+10000 to U+10FFFF. */
  function Scalar4(v0: nat, v1: nat, v2: nat, v3: nat): (n: nat)
    requires 0xF0 <= v0 <= 0xF4 && SecondOk(v0, v1) && IsCont(v2) && IsCont(v3)
    ensures 0x1_0000 <= n < 0x11_0000
  {
    (v0 - 0xF0) * 0x4_0000 + (v1 - 0x80) * 0x1000 + (v2 - 0x80) * 0x40 + (v3 - 0x80)
  }

  /** The character a well-formed sequence encodes; its own encoding is as
      long as the sequence. */
  function Decode(bs: seq<Octet>): (c: char)
    requires WellFormed(bs)
    ensures Utf8Len(c) == |bs|
  {
    var v0 := bs[0];
    if |bs| == 1 then v0 as char
    else if |bs| == 2 then Scalar2(v0, bs[1]) as char
    else if |bs| == 3 then Scalar3(v0, bs[1], bs[2]) as char
    else Scalar4(v0, bs[1], bs[2], bs[3]) as char
  }

  /** `String::from_utf8_lossy`: every well-formed sequence becomes its
      character and every maximal ill-formed subpart one U+FFFD. */
  function Lossy(bs: seq<Octet>): (s: string)
    ensures |s| <= |bs|
    ensures |s| == 0 <==> |bs| == 0
    decreases |bs|
  {
    if bs == [] then []
    else
      match Head(bs)
      case Valid(n) => [Decode(bs[..n])] + Lossy(bs[n..])
      case Invalid(n) => [Replacement] + Lossy(bs[n..])
  }

  /** Bytes below 0x80 decode one to one. */
  lemma {:induction false} LossyAscii(bs: seq<Octet>)
    requires forall i :: 0 <= i < |bs| ==> bs[i] < 0x80
    ensures |Lossy(bs)| == |bs|
    ensures forall i :: 0 <= i < |bs| ==> Lossy(bs)[i] == Latin1(bs[i])
    decreases |bs|
  {
    if bs != [] {
      LossyAscii(bs[1..]);
      assert Lossy(bs) == [Latin1(bs[0])] + Lossy(bs[1..]);
    }
  }

  /** A decoded character takes no more bytes than there were, unless it
      stands for an ill-formed part. */
  lemma {:induction false} LossyWidths(bs: seq<Octet>)
    ensures forall i :: 0 <= i < |Lossy(bs)| ==>
      Lossy(bs)[i] == Replacement || Utf8Len(Lossy(bs)[i]) <= |bs|
    decreases |bs|
  {
    if bs != [] {
      var n := Head(bs).len;
      LossyWidths(bs[n..]);
      var s := Lossy(bs);
      forall i | 0 <= i < |s| ensures s[i] == Replacement || Utf8Len(s[i]) <= |bs| {
        if i > 0 {
          assert s[i] == Lossy(bs[n..])[i - 1];
        }
      }
    }
  }

  // ------------------------------------------------------------ encoding

  /** The UTF-8 encoding of a character (Rust's `char::encode_utf8`). */
  function Encode(c: char): (bs: seq<Octet>)
    ensures |bs| == Utf8Len(c)
    ensures WellFormed(bs) && Decode(bs) == c
  {
    var n := c as int;
    if n < 0x80 then [n]
    else if n < 0x800 then Encode2(n)
    else if n < 0x1_0000 then Encode3(n)
    else Encode4(n)
  }

  function Encode2(n: nat): (bs: seq<Octet>)
    requires 0x80 <= n < 0x800
    ensures |bs| == 2 && WellFormed(bs) && (Decode(bs) as int) == n
  {
    Pack2(n / 0x40, n % 0x40)
  }

  function Encode3(n: nat): (bs: seq<Octet>)
    requires 0x800 <= n < 0x1_0000 && !(0xD800 <= n < 0xE000)
    ensures |bs| == 3 && WellFormed(bs) && (Decode(bs) as int) == n
  {
    var hi, rest := n / 0x1000, n % 0x1000;
    Pack3(hi, rest / 0x40, rest % 0x40)
  }

  function Encode4(n: nat): (bs: seq<Octet>)
    requires 0x1_0000 <= n < 0x11_0000
    ensures |bs| == 4 && WellFormed(bs) && (Decode(bs) as int) == n
  {
    var top, r1 := n / 0x4_0000, n % 0x4_0000;
    var hi, r2 := r1 / 0x1000, r1 % 0x1000;
    Pack4(top, hi, r2 / 0x40, r2 % 0x40)
  }

  /** 110xxxxx 10xxxxxx */
  function Pack2(hi: nat, lo: nat): (bs: seq<Octet>)
    requires 2 <= hi < 0x20 && lo < 0x40
    ensures |bs| == 2 && WellFormed(bs) && (Decode(bs) as int) == hi * 0x40 + lo
  {
    [0xC0 + hi, 0x80 + lo]
  }

  /** 1110xxxx 10xxxxxx 10xxxxxx */
  function Pack3(hi: nat, mid: nat, lo: nat): (bs: seq<Octet>)
    requires hi < 0x10 && mid < 0x40 && lo < 0x40
    requires hi == 0 ==> mid >= 0x20
    requires hi == 0xD ==> mid < 0x20
    ensures |bs| == 3 && WellFormed(bs) && (Decode(bs) as int) == hi * 0x1000 + mid * 0x40 + lo
  {
    var v0, v1, v2 := 0xE0 + hi, 0x80 + mid, 0x80 + lo;
    var bs := [v0, v1, v2];
    assert LeadWidth(v0) == 3 && SecondOk(v0, v1) && IsCont(v2);
    bs
  }

  /** 11110xxx 10xxxxxx 10xxxxxx 10xxxxxx */
  function Pack4(top: nat, hi: nat, mid: nat, lo: nat): (bs: seq<Octet>)
    requires top <= 4 && hi < 0x40 && mid < 0x40 && lo < 0x40
    requires top == 0 ==> hi >= 0x10
    requires top == 4 ==> hi < 0x10
    ensures |bs| == 4 && WellFormed(bs)
    ensures (Decode(bs) as int) == top * 0x4_0000 + hi * 0x1000 + mid * 0x40 + lo
  {
    var v0, v1, v2, v3 := 0xF0 + top, 0x80 + hi, 0x80 + mid, 0x80 + lo;
    var bs := [v0, v1, v2, v3];
    assert LeadWidth(v0) == 4 && SecondOk(v0, v1) && IsCont(v2) && IsCont(v3);
    bs
  }

  /** Decoding an encoded character gives it back. */
  lemma LossyEncode(c: char)
    ensures Lossy(Encode(c)) == [c]
  {
    LossyOne(Encode(c));
  }

  /** A byte string that is one well-formed sequence decodes to one character. */
  lemma LossyOne(bs: seq<Octet>)
    requires WellFormed(bs)
    ensures Lossy(bs) == [Decode(bs)]
  {
    assert bs[..|bs|] == bs;
    assert Head(bs) == Valid(|bs|);
    assert bs[|bs|..] == [];
  }
}
