/** The main view's text forms of the current word and the readers of what
    is typed into its fields: decimal, binary, hexadecimal, big- and
    little-endian byte hex, octal, and the ASCII and UTF-8 renderings of the
    word's bytes. Every form is taken of the masked word, and only the
    `bit_size / 8` bytes of the active width are rendered. */
module AppCodec {
  import opened Digits
  import opened Words
  import opened Utf8
  import opened Text

  /** What an input handler does with the word: leave it, store a value (which
      the handler then masks), or abort the program. */
  datatype Update = Keep | Store(value: bv64) | Panic

  /** `if let Ok(num) = ... { update_value(num) }`. */
  function Parsed(r: Option<bv64>): Update
  {
    match r
    case Some(v) => Store(v)
    case None => Keep
  }

  /** `.replace(prefix, "").replace(' ', "")`. */
  function Strip(text: string, prefix: string): string
    requires |prefix| > 0
  {
    RemoveAll(RemoveAll(text, prefix), " ")
  }

  /** Text made of characters that are neither the prefix's last one nor a
      space comes out of `Strip` as it went in, behind the prefix. */
  lemma StripPrefixed(s: string, prefix: string)
    requires |prefix| > 0
    requires forall i :: 0 <= i < |s| ==> s[i] != prefix[|prefix| - 1] && s[i] != ' '
    ensures Strip(prefix + s, prefix) == s
  {
    RemoveLeading(s, prefix);
    RemoveAbsent(s, prefix);
    RemoveAbsent(s, " ");
  }

  // ------------------------------------------------------------ bytes

  /** `&be_bytes[8 - byte_count..8]`: the active bytes, most significant first. */
  function BeSlice(x: bv64, w: nat): (bs: seq<bv8>)
    requires IsWidth(w)
    ensures |bs| == w / 8
  {
    BeBytes(x)[8 - w / 8..]
  }

  /** `&le_bytes[0..byte_count]`: the active bytes, least significant first. */
  function LeSlice(x: bv64, w: nat): (bs: seq<bv8>)
    requires IsWidth(w)
    ensures |bs| == w / 8
  {
    LeBytes(x)[..w / 8]
  }

  /** The two slices hold the same bytes in opposite orders. */
  lemma LeSliceReversesBe(x: bv64, w: nat)
    requires IsWidth(w)
    ensures LeSlice(x, w) == Reverse(BeSlice(x, w))
  {
    BeIsReversedLe(x);
    PrefixOfReversed(LeBytes(x), BeBytes(x), w / 8);
  }

  lemma PrefixOfReversed<T>(le: seq<T>, be: seq<T>, n: nat)
    requires be == Reverse(le) && n <= |le|
    ensures le[..n] == Reverse(be[|be| - n..])
  {
    var r := Reverse(be[|be| - n..]);
    forall i | 0 <= i < n
      ensures le[..n][i] == r[i]
    {
      PrefixOfReversedAt(le, be, n, i);
    }
  }

  lemma PrefixOfReversedAt<T>(le: seq<T>, be: seq<T>, n: nat, i: nat)
    requires be == Reverse(le) && i < n <= |le|
    ensures le[i] == Reverse(be[|be| - n..])[i]
  {
    var tail := be[|be| - n..];
    ReverseAt(tail, i);
    ReverseAt(le, |le| - 1 - i);
  }

  /** Byte k (0 the least significant) of the word that bytes bs spell most
      significant first; bytes beyond the list are zero. */
  function BeByteOf(bs: seq<bv8>, k: ByteIndex): bv8
  {
    var n := ByteValue(k);
    if n < |bs| then bs[|bs| - 1 - n] else 0
  }

  /** Byte k of the word that bytes bs spell least significant first. */
  function LeByteOf(bs: seq<bv8>, k: ByteIndex): bv8
  {
    var n := ByteValue(k);
    if n < |bs| then bs[n] else 0
  }

  /** The word read from at most eight bytes, most significant first. */
  function BeWord(bs: seq<bv8>): bv64
  {
    Join(BeByteOf(bs, 0), BeByteOf(bs, 1), BeByteOf(bs, 2), BeByteOf(bs, 3),
         BeByteOf(bs, 4), BeByteOf(bs, 5), BeByteOf(bs, 6), BeByteOf(bs, 7))
  }

  /** The word read from at most eight bytes, least significant first. */
  function LeWord(bs: seq<bv8>): bv64
  {
    Join(LeByteOf(bs, 0), LeByteOf(bs, 1), LeByteOf(bs, 2), LeByteOf(bs, 3),
         LeByteOf(bs, 4), LeByteOf(bs, 5), LeByteOf(bs, 6), LeByteOf(bs, 7))
  }

  /** Reading bytes least significant first is reading them reversed most
      significant first. */
  lemma LeWordIsReversedBe(bs: seq<bv8>)
    ensures LeWord(bs) == BeWord(Reverse(bs))
  {
    forall k: ByteIndex
      ensures LeByteOf(bs, k) == BeByteOf(Reverse(bs), k)
    {
    }
  }

  /** The big-endian loop of the BE hex handler: byte i goes `|bytes| - 1 - i`
      bytes up. */
  method BeFold(bytes: seq<bv8>) returns (value: bv64)
    requires |bytes| <= 8
    ensures value == BeWord(bytes)
  {
    value := 0;
    var i := 0;
    ZeroFill(bytes);
    while i < |bytes|
      invariant 0 <= i <= |bytes|
      invariant value == BeFill(bytes, i)
    {
      var j: bv8 := Index(|bytes| - 1 - i);
      BeFillStep(bytes, i, j, value);
      value := value | ((bytes[i] as bv64) << (8 * j));
      i := i + 1;
    }
    FillDone(bytes);
  }

  /** The little-endian loop of the LE hex handler: byte i goes i bytes up. */
  method LeFold(bytes: seq<bv8>) returns (value: bv64)
    requires |bytes| <= 8
    ensures value == LeWord(bytes)
  {
    value := 0;
    var i := 0;
    ZeroFill(bytes);
    while i < |bytes|
      invariant 0 <= i <= |bytes|
      invariant value == LeFill(bytes, i)
    {
      var j: bv8 := Index(i);
      LeFillStep(bytes, i, j, value);
      value := value | ((bytes[i] as bv64) << (8 * j));
      i := i + 1;
    }
    FillDone(bytes);
  }

  /** Byte position n as the loops' shift operand. */
  function Index(n: nat): (j: ByteIndex)
    requires n < 8
    ensures ByteValue(j) == n
  {
    SmallByte(n);
    n as bv8
  }

  /** Byte k after the first i bytes of the big-endian loop. */
  function BeFilled(bs: seq<bv8>, i: nat, k: ByteIndex): bv8
  {
    var n := ByteValue(k);
    if n < |bs| && |bs| - 1 - n < i then bs[|bs| - 1 - n] else 0
  }

  /** Byte k after the first i bytes of the little-endian loop. */
  function LeFilled(bs: seq<bv8>, i: nat, k: ByteIndex): bv8
  {
    var n := ByteValue(k);
    if n < |bs| && n < i then bs[n] else 0
  }

  /** The word after the first i bytes of the big-endian loop. */
  function BeFill(bs: seq<bv8>, i: nat): bv64
  {
    Join(BeFilled(bs, i, 0), BeFilled(bs, i, 1), BeFilled(bs, i, 2), BeFilled(bs, i, 3),
         BeFilled(bs, i, 4), BeFilled(bs, i, 5), BeFilled(bs, i, 6), BeFilled(bs, i, 7))
  }

  /** The word after the first i bytes of the little-endian loop. */
  function LeFill(bs: seq<bv8>, i: nat): bv64
  {
    Join(LeFilled(bs, i, 0), LeFilled(bs, i, 1), LeFilled(bs, i, 2), LeFilled(bs, i, 3),
         LeFilled(bs, i, 4), LeFilled(bs, i, 5), LeFilled(bs, i, 6), LeFilled(bs, i, 7))
  }

  lemma ZeroFill(bs: seq<bv8>)
    ensures BeFill(bs, 0) == 0 && LeFill(bs, 0) == 0
  {
  }

  lemma FillDone(bs: seq<bv8>)
    ensures BeFill(bs, |bs|) == BeWord(bs) && LeFill(bs, |bs|) == LeWord(bs)
  {
  }

  lemma BeFillStep(bs: seq<bv8>, i: nat, j: ByteIndex, v: bv64)
    requires i < |bs| <= 8 && ByteValue(j) == |bs| - 1 - i && v == BeFill(bs, i)
    ensures v | ((bs[i] as bv64) << (8 * j)) == BeFill(bs, i + 1)
  {
    BeFillVia(bs, i, j, v, v | ((bs[i] as bv64) << (8 * j)));
  }

  lemma BeFillVia(bs: seq<bv8>, i: nat, j: ByteIndex, v: bv64, next: bv64)
    requires i < |bs| <= 8 && ByteValue(j) == |bs| - 1 - i && v == BeFill(bs, i)
    requires next == v | ((bs[i] as bv64) << (8 * j))
    ensures next == BeFill(bs, i + 1)
  {
    OrByte(v, bs[i], j, next);
    BeFillBytes(bs, i, v);
    BeStep(bs, i, v, j, next);
    BeFillOfBytes(bs, i + 1, next);
  }

  lemma BeFillBytes(bs: seq<bv8>, i: nat, v: bv64)
    requires v == BeFill(bs, i)
    ensures forall k: ByteIndex :: ByteAt(v, k) == BeFilled(bs, i, k)
  {
    FillBytes(v, BeFilled(bs, i, 0), BeFilled(bs, i, 1), BeFilled(bs, i, 2), BeFilled(bs, i, 3),
              BeFilled(bs, i, 4), BeFilled(bs, i, 5), BeFilled(bs, i, 6), BeFilled(bs, i, 7));
  }

  lemma BeFillOfBytes(bs: seq<bv8>, i: nat, v: bv64)
    requires forall k: ByteIndex :: ByteAt(v, k) == BeFilled(bs, i, k)
    ensures v == BeFill(bs, i)
  {
    JoinOfBytes(v);
  }

  lemma LeFillStep(bs: seq<bv8>, i: nat, j: ByteIndex, v: bv64)
    requires i < |bs| <= 8 && ByteValue(j) == i && v == LeFill(bs, i)
    ensures v | ((bs[i] as bv64) << (8 * j)) == LeFill(bs, i + 1)
  {
    LeFillVia(bs, i, j, v, v | ((bs[i] as bv64) << (8 * j)));
  }

  lemma LeFillVia(bs: seq<bv8>, i: nat, j: ByteIndex, v: bv64, next: bv64)
    requires i < |bs| <= 8 && ByteValue(j) == i && v == LeFill(bs, i)
    requires next == v | ((bs[i] as bv64) << (8 * j))
    ensures next == LeFill(bs, i + 1)
  {
    OrByte(v, bs[i], j, next);
    LeFillBytes(bs, i, v);
    LeStep(bs, i, v, j, next);
    LeFillOfBytes(bs, i + 1, next);
  }

  lemma LeFillBytes(bs: seq<bv8>, i: nat, v: bv64)
    requires v == LeFill(bs, i)
    ensures forall k: ByteIndex :: ByteAt(v, k) == LeFilled(bs, i, k)
  {
    FillBytes(v, LeFilled(bs, i, 0), LeFilled(bs, i, 1), LeFilled(bs, i, 2), LeFilled(bs, i, 3),
              LeFilled(bs, i, 4), LeFilled(bs, i, 5), LeFilled(bs, i, 6), LeFilled(bs, i, 7));
  }

  lemma LeFillOfBytes(bs: seq<bv8>, i: nat, v: bv64)
    requires forall k: ByteIndex :: ByteAt(v, k) == LeFilled(bs, i, k)
    ensures v == LeFill(bs, i)
  {
    JoinOfBytes(v);
  }

  /** The bytes of a Join, for every byte position. */
  lemma FillBytes(v: bv64, b0: bv8, b1: bv8, b2: bv8, b3: bv8, b4: bv8, b5: bv8, b6: bv8, b7: bv8)
    requires v == Join(b0, b1, b2, b3, b4, b5, b6, b7)
    ensures forall k: ByteIndex :: ByteAt(v, k) == [b0, b1, b2, b3, b4, b5, b6, b7][ByteValue(k)]
  {
    BytesOfJoin(b0, b1, b2, b3, b4, b5, b6, b7);
    forall k: ByteIndex
      ensures ByteAt(v, k) == [b0, b1, b2, b3, b4, b5, b6, b7][ByteValue(k)]
    {
      ByteCases(k);
    }
  }

  lemma ByteCases(k: ByteIndex)
    ensures k == 0 || k == 1 || k == 2 || k == 3 || k == 4 || k == 5 || k == 6 || k == 7
  {
  }

  lemma BeStep(bs: seq<bv8>, i: nat, v: bv64, j: ByteIndex, next: bv64)
    requires i < |bs| <= 8 && ByteValue(j) == |bs| - 1 - i
    requires forall k: ByteIndex :: ByteAt(v, k) == BeFilled(bs, i, k)
    requires ByteAt(next, j) == ByteAt(v, j) | bs[i]
    requires forall k: ByteIndex :: k != j ==> ByteAt(next, k) == ByteAt(v, k)
    ensures forall k: ByteIndex :: ByteAt(next, k) == BeFilled(bs, i + 1, k)
  {
    forall k: ByteIndex
      ensures ByteAt(next, k) == BeFilled(bs, i + 1, k)
    {
      if k != j {
        assert ByteValue(k) != ByteValue(j);
      }
    }
  }

  lemma LeStep(bs: seq<bv8>, i: nat, v: bv64, j: ByteIndex, next: bv64)
    requires i < |bs| <= 8 && ByteValue(j) == i
    requires forall k: ByteIndex :: ByteAt(v, k) == LeFilled(bs, i, k)
    requires ByteAt(next, j) == ByteAt(v, j) | bs[i]
    requires forall k: ByteIndex :: k != j ==> ByteAt(next, k) == ByteAt(v, k)
    ensures forall k: ByteIndex :: ByteAt(next, k) == LeFilled(bs, i + 1, k)
  {
    forall k: ByteIndex
      ensures ByteAt(next, k) == LeFilled(bs, i + 1, k)
    {
      if k != j {
        assert ByteValue(k) != ByteValue(j);
      }
    }
  }

  /** Or-ing a byte in at byte position j sets byte j and leaves every other
      byte as it was. */
  lemma OrByte(v: bv64, b: bv8, j: ByteIndex, next: bv64)
    requires next == v | ((b as bv64) << (8 * j))
    ensures ByteAt(next, j) == ByteAt(v, j) | b
    ensures forall k: ByteIndex :: k != j ==> ByteAt(next, k) == ByteAt(v, k)
  {
    OrByteSame(v, b, j);
    forall k: ByteIndex | k != j
      ensures ByteAt(next, k) == ByteAt(v, k)
    {
      OrByteOther(v, b, j, k);
    }
  }

  lemma OrByteSame(v: bv64, b: bv8, j: ByteIndex)
    ensures ByteAt(v | ((b as bv64) << (8 * j)), j) == ByteAt(v, j) | b
  {
  }

  lemma OrByteOther(v: bv64, b: bv8, j: ByteIndex, k: ByteIndex)
    requires k != j
    ensures ByteAt(v | ((b as bv64) << (8 * j)), k) == ByteAt(v, k)
  {
  }

  // ------------------------------------------------------------ displays

  /** `current.to_string()`. */
  function DecText(x: bv64): string
  {
    Show(ToNat(x), 10, false)
  }

  /** `format!("0b{:0width$b}", current, width = bit_size)`. */
  function BinText(x: bv64, w: nat): string
  {
    "0b" + ShowPadded(ToNat(x), 2, false, w)
  }

  /** `format!("0x{:X}", current)`. */
  function HexText(x: bv64): string
  {
    "0x" + Show(ToNat(x), 16, true)
  }

  /** `format!("0x{}", hex::encode(&be_bytes[8 - byte_count..8]))`. */
  function HexBeText(x: bv64, w: nat): string
    requires IsWidth(w)
  {
    "0x" + HexEncode(BeSlice(x, w))
  }

  /** `format!("0x{}", hex::encode(&le_bytes[0..byte_count]))`. */
  function HexLeText(x: bv64, w: nat): string
    requires IsWidth(w)
  {
    "0x" + HexEncode(LeSlice(x, w))
  }

  /** `format!("0o{:o}", current)`. */
  function OctText(x: bv64): string
  {
    "0o" + Show(ToNat(x), 8, false)
  }

  /** A byte of the ASCII view: 32 to 126 as that character, anything else
      as a space. */
  function AsciiChar(b: bv8): char
  {
    var v := ByteValue(b);
    if 32 <= v <= 126 then Latin1(v) else ' '
  }

  /** The ASCII view: the active bytes, least significant first. */
  function AsciiText(x: bv64, w: nat): string
    requires IsWidth(w)
  {
    AsciiOf(LeSlice(x, w))
  }

  function AsciiOf(bs: seq<bv8>): (s: string)
    ensures |s| == |bs| && forall i :: 0 <= i < |bs| ==> s[i] == AsciiChar(bs[i])
  {
    seq(|bs|, i requires 0 <= i < |bs| => AsciiChar(bs[i]))
  }

  /** The UTF-8 view: the active bytes, most significant first, decoded
      lossily and filtered against the byte count; a single space if
      nothing is left. */
  function Utf8Text(x: bv64, w: nat): string
    requires IsWidth(w)
  {
    var filtered := Collapse(Lossy(Values(BeSlice(x, w))), w / 8);
    if filtered == [] then " " else filtered
  }

  // ------------------------------------------------------------ the UTF-8 filter

  /** What follows a run of characters wider than `limit` bytes. */
  function DropLong(s: string, limit: nat): (r: string)
    ensures |r| <= |s|
    ensures r == [] || Utf8Len(r[0]) <= limit
    decreases |s|
  {
    if s != [] && Utf8Len(s[0]) > limit then DropLong(s[1..], limit) else s
  }

  /** The filter: a character that fits in `limit` bytes is kept, and a run
      of characters that do not becomes one U+FFFD. */
  function Collapse(s: string, limit: nat): (r: string)
    ensures |r| <= |s|
    ensures r == [] <==> s == []
    decreases |s|
  {
    if s == [] then []
    else if Utf8Len(s[0]) <= limit then [s[0]] + Collapse(s[1..], limit)
    else [Replacement] + Collapse(DropLong(s[1..], limit), limit)
  }

  /** The peeking loop that builds the UTF-8 view. */
  method FilterPartial(s: string, limit: nat) returns (r: string)
    ensures r == Collapse(s, limit)
  {
    r := [];
    var i := 0;
    while i < |s|
      invariant 0 <= i <= |s|
      invariant r + Collapse(s[i..], limit) == Collapse(s, limit)
    {
      var c := s[i];
      CollapseStep(s, i, limit);
      ghost var before := r;
      i := i + 1;
      if Utf8Len(c) <= limit {
        r := r + [c];
        Regroup(before, c, Collapse(s[i..], limit));
      } else {
        r := r + [Replacement];
        i := SkipLong(s, i, limit);
        Regroup(before, Replacement, Collapse(s[i..], limit));
      }
    }
  }

  /** The inner peeking loop: skip the characters wider than `limit` bytes. */
  method SkipLong(s: string, start: nat, limit: nat) returns (i: nat)
    requires start <= |s|
    ensures start <= i <= |s| && s[i..] == DropLong(s[start..], limit)
  {
    i := start;
    while i < |s| && Utf8Len(s[i]) > limit
      invariant start <= i <= |s|
      invariant DropLong(s[i..], limit) == DropLong(s[start..], limit)
    {
      DropStep(s, i, limit);
      i := i + 1;
    }
    DropStop(s, i, limit);
  }

  lemma Regroup(r: string, c: char, t: string)
    ensures (r + [c]) + t == r + ([c] + t)
  {
  }

  lemma CollapseStep(s: string, i: nat, limit: nat)
    requires i < |s|
    ensures Utf8Len(s[i]) <= limit ==> Collapse(s[i..], limit) == [s[i]] + Collapse(s[i + 1..], limit)
    ensures Utf8Len(s[i]) > limit ==>
      Collapse(s[i..], limit) == [Replacement] + Collapse(DropLong(s[i + 1..], limit), limit)
  {
    assert s[i..][1..] == s[i + 1..];
  }

  lemma DropStep(s: string, i: nat, limit: nat)
    requires i < |s| && Utf8Len(s[i]) > limit
    ensures DropLong(s[i..], limit) == DropLong(s[i + 1..], limit)
  {
    assert s[i..][1..] == s[i + 1..];
  }

  lemma DropStop(s: string, i: nat, limit: nat)
    requires i <= |s| && (i == |s| || Utf8Len(s[i]) <= limit)
    ensures DropLong(s[i..], limit) == s[i..]
  {
  }

  /** Every character of the filtered text fits, or is U+FFFD. */
  lemma {:induction false} CollapseFits(s: string, limit: nat)
    ensures forall i :: 0 <= i < |Collapse(s, limit)| ==>
      Utf8Len(Collapse(s, limit)[i]) <= limit || Collapse(s, limit)[i] == Replacement
    decreases |s|
  {
    if s != [] {
      var rest := if Utf8Len(s[0]) <= limit then s[1..] else DropLong(s[1..], limit);
      CollapseFits(rest, limit);
      var r := Collapse(s, limit);
      forall i | 0 <= i < |r|
        ensures Utf8Len(r[i]) <= limit || r[i] == Replacement
      {
        if i > 0 {
          assert r[i] == Collapse(rest, limit)[i - 1];
        }
      }
    }
  }

  /** Text whose characters all fit goes through the filter unchanged. */
  lemma {:induction false} CollapseKeeps(s: string, limit: nat)
    requires forall i :: 0 <= i < |s| ==> Utf8Len(s[i]) <= limit
    ensures Collapse(s, limit) == s
    decreases |s|
  {
    if s != [] {
      CollapseKeeps(s[1..], limit);
      assert s == [s[0]] + s[1..];
    }
  }

  /** Below three bytes U+FFFD does not fit itself, so the filter never puts
      two of them side by side. */
  lemma {:induction false} CollapseNoDoubles(s: string, limit: nat)
    requires limit < 3
    ensures forall i :: 0 <= i < |Collapse(s, limit)| - 1 ==>
      !(Collapse(s, limit)[i] == Replacement && Collapse(s, limit)[i + 1] == Replacement)
    decreases |s|
  {
    if s != [] {
      var r := Collapse(s, limit);
      var rest := if Utf8Len(s[0]) <= limit then s[1..] else DropLong(s[1..], limit);
      CollapseNoDoubles(rest, limit);
      var tail := Collapse(rest, limit);
      assert r == [r[0]] + tail;
      assert Utf8Len(Replacement) == 3;
      if Utf8Len(s[0]) > limit && tail != [] {
        assert tail[0] == rest[0];
      }
      forall i | 0 <= i < |r| - 1
        ensures !(r[i] == Replacement && r[i + 1] == Replacement)
      {
        if i > 0 {
          assert r[i] == tail[i - 1] && r[i + 1] == tail[i];
        }
      }
    }
  }

  /** The view's bytes decode to characters no wider than the byte count, or
      to U+FFFD. */
  lemma LossyFits(x: bv64, w: nat)
    requires IsWidth(w)
    ensures var s := Lossy(Values(BeSlice(x, w)));
      s != [] && forall i :: 0 <= i < |s| ==> s[i] == Replacement || Utf8Len(s[i]) <= w / 8
  {
    LossyWidths(Values(BeSlice(x, w)));
  }

  /** The UTF-8 view is never the fallback space: the filter always has a
      character to show. From 32 bits on, where U+FFFD itself fits, the filter
      changes nothing and the view is the lossy decoding. */
  lemma Utf8TextDecoded(x: bv64, w: nat)
    requires IsWidth(w)
    ensures Utf8Text(x, w) == Collapse(Lossy(Values(BeSlice(x, w))), w / 8)
    ensures w >= 32 ==> Utf8Text(x, w) == Lossy(Values(BeSlice(x, w)))
  {
    var s := Lossy(Values(BeSlice(x, w)));
    LossyFits(x, w);
    if w >= 32 {
      assert Utf8Len(Replacement) == 3;
      CollapseKeeps(s, w / 8);
    }
  }

  /** At 8 and 16 bits every character of the UTF-8 view fits the byte count
      or is U+FFFD, and no two U+FFFD are adjacent. */
  lemma Utf8TextNarrow(x: bv64, w: nat)
    requires IsWidth(w) && w <= 16
    ensures var t := Utf8Text(x, w);
      (forall i :: 0 <= i < |t| ==> Utf8Len(t[i]) <= w / 8 || t[i] == Replacement) &&
      (forall i :: 0 <= i < |t| - 1 ==> !(t[i] == Replacement && t[i + 1] == Replacement))
  {
    var s := Lossy(Values(BeSlice(x, w)));
    Utf8TextDecoded(x, w);
    CollapseFits(s, w / 8);
    CollapseNoDoubles(s, w / 8);
  }

  /** When every active byte is printable ASCII, the UTF-8 view is the ASCII
      view read backwards (the two views take the bytes in opposite orders). */
  lemma AsciiMatchesUtf8(x: bv64, w: nat)
    requires IsWidth(w)
    requires forall i :: 0 <= i < w / 8 ==> 32 <= ByteValue(LeSlice(x, w)[i]) <= 126
    ensures Utf8Text(x, w) == Reverse(AsciiText(x, w))
  {
    LeSliceReversesBe(x, w);
    PrintableViews(BeSlice(x, w), LeSlice(x, w), w / 8);
    Utf8TextDecoded(x, w);
  }

  lemma PrintableViews(be: seq<bv8>, le: seq<bv8>, limit: nat)
    requires le == Reverse(be) && limit >= 1
    requires forall i :: 0 <= i < |le| ==> 32 <= ByteValue(le[i]) <= 126
    ensures Collapse(Lossy(Values(be)), limit) == Reverse(AsciiOf(le))
  {
    var vs := Values(be);
    forall i | 0 <= i < |vs|
      ensures 32 <= vs[i] <= 126
    {
      assert be[i] == le[|le| - 1 - i];
    }
    LossyAscii(vs);
    var s := Lossy(vs);
    CollapseKeeps(s, limit);
    var a := AsciiOf(le);
    forall i | 0 <= i < |s|
      ensures s[i] == Reverse(a)[i]
    {
      assert be[i] == le[|le| - 1 - i];
    }
  }

  // ------------------------------------------------------------ inputs

  /** `input_dec`: `val.parse::<u64>()`. */
  function DecInput(text: string): Update
  {
    Parsed(FromStrRadix(text, 10))
  }

  /** `input_bin`: strip "0b" and spaces, then `u64::from_str_radix(_, 2)`. */
  function BinInput(text: string): Update
  {
    Parsed(FromStrRadix(Strip(text, "0b"), 2))
  }

  /** `input_hex`: strip "0x" and spaces, cut to `bit_size / 4` bytes
      (`String::truncate`, which panics inside a character), then parse. */
  function HexInput(text: string, w: nat): Update
  {
    var val := Strip(text, "0x");
    var maxDigits := w / 4;
    if ByteLen(val) > maxDigits then
      match TruncateBytes(val, maxDigits)
      case Some(cut) => Parsed(FromStrRadix(cut, 16))
      case None => Panic
    else Parsed(FromStrRadix(val, 16))
  }

  /** `input_hex_be` and `input_hex_le` up to the loop: strip "0x" and
      spaces, demand exactly `bit_size / 4` bytes, then `hex::decode`. */
  function HexBytesInput(text: string, w: nat): Option<seq<bv8>>
  {
    var val := Strip(text, "0x");
    if ByteLen(val) == w / 4 then HexDecode(val) else None
  }

  /** `input_oct`: strip "0o" and spaces, then `u64::from_str_radix(_, 8)`. */
  function OctInput(text: string): Update
  {
    Parsed(FromStrRadix(Strip(text, "0o"), 8))
  }

  /** The byte fields accept exactly the texts that are `bit_size / 4`
      hexadecimal digits once "0x" and spaces are gone, and then give
      `bit_size / 8` bytes. */
  lemma HexBytesAccepted(text: string, w: nat)
    requires IsWidth(w)
    ensures var val := Strip(text, "0x");
      HexBytesInput(text, w).Some? <==>
        |val| == w / 4 && forall i :: 0 <= i < |val| ==> IsAsciiHexDigit(val[i])
    ensures HexBytesInput(text, w).Some? ==> |HexBytesInput(text, w).value| == w / 8
  {
    var val := Strip(text, "0x");
    HexDecodeDefined(val);
    if forall i :: 0 <= i < |val| ==> IsAsciiHexDigit(val[i]) {
      AsciiByteLen(val);
    }
  }

  /** An ASCII hex field never panics: it is cut to `bit_size / 4` digits
      and parsed. */
  lemma HexInputAscii(text: string, w: nat)
    requires IsAscii(Strip(text, "0x"))
    ensures var val := Strip(text, "0x");
      HexInput(text, w) == Parsed(FromStrRadix(if |val| <= w / 4 then val else val[..w / 4], 16))
  {
    var val := Strip(text, "0x");
    AsciiByteLen(val);
    TruncateAscii(val, w / 4);
  }

  // ------------------------------------------------------------ round trips

  /** The characters of a shown number are digits of its radix. */
  lemma ShownDigits(n: nat, radix: nat, upper: bool, width: nat)
    requires 2 <= radix <= 36
    ensures AllDigits(Show(n, radix, upper), radix)
    ensures AllDigits(ShowPadded(n, radix, upper, width), radix)
  {
    var s, t := Show(n, radix, upper), ShowPadded(n, radix, upper, width);
    assert forall i :: 0 <= i < |s| ==> CharDigit(s[i]) == DigitsOf(s)[i];
    assert forall i :: 0 <= i < |t| ==> CharDigit(t[i]) == DigitsOf(t)[i];
  }

  /** Hexadecimal digits make ASCII text. */
  lemma HexDigitsAscii(s: string)
    requires forall i :: 0 <= i < |s| ==> IsAsciiHexDigit(s[i])
    ensures IsAscii(s) && ByteLen(s) == |s|
  {
    AsciiByteLen(s);
  }

  /** `bit_size / 4` hexadecimal digits reach exactly the width's range. */
  lemma HexDigitLimit(w: nat)
    requires IsWidth(w)
    ensures Pow(16, w / 4) == WidthLimit(w)
  {
    var k := w / 8;
    assert w / 4 == 2 * k && 8 * k == w;
    PowNibbles(k);
    PowBytes(k);
    WidthLimitPow(w);
  }

  /** The decimal field reads back the word it shows. */
  lemma DecRoundTrip(x: bv64)
    ensures DecInput(DecText(x)) == Store(x)
  {
    ParseShowWord(x, 10, false, 1);
  }

  /** The binary field shows exactly `bit_size` digits and reads back the word. */
  lemma BinRoundTrip(x: bv64, w: nat)
    requires IsWidth(w) && Masked(x, w)
    ensures |BinText(x, w)| == 2 + w
    ensures BinInput(BinText(x, w)) == Store(x)
  {
    MaskedBelow(x, w);
    BinShown(ToNat(x), w);
    ParseShowWord(x, 2, false, w);
  }

  lemma BinShown(n: nat, w: nat)
    requires IsWidth(w) && n < WidthLimit(w)
    ensures var digits := ShowPadded(n, 2, false, w);
      |digits| == w && Strip("0b" + digits, "0b") == digits
  {
    var digits := ShowPadded(n, 2, false, w);
    ShownDigits(n, 2, false, w);
    StripPrefixed(digits, "0b");
    WidthLimitPow(w);
    ShowLength(n, 2, false, w, w);
  }

  /** The hexadecimal field never shows more than `bit_size / 4` digits, so
      reading it back cuts nothing and gives the word. */
  lemma HexFieldRoundTrip(x: bv64, w: nat)
    requires IsWidth(w) && Masked(x, w)
    ensures |HexText(x)| <= 2 + w / 4
    ensures HexInput(HexText(x), w) == Store(x)
  {
    MaskedBelow(x, w);
    HexShown(ToNat(x), w);
    ParseShowWord(x, 16, true, 1);
  }

  lemma HexShown(n: nat, w: nat)
    requires IsWidth(w) && n < WidthLimit(w)
    ensures var digits := Show(n, 16, true);
      |digits| <= w / 4 && HexInput("0x" + digits, w) == Parsed(FromStrRadix(digits, 16))
  {
    var digits := Show(n, 16, true);
    ShownDigits(n, 16, true, 1);
    HexDigitsAscii(digits);
    StripPrefixed(digits, "0x");
    HexDigitLimit(w);
    ShowLength(n, 16, true, 1, w / 4);
  }

  /** The octal field reads back the word it shows. */
  lemma OctRoundTrip(x: bv64)
    ensures OctInput(OctText(x)) == Store(x)
  {
    OctShown(ToNat(x));
    ParseShowWord(x, 8, false, 1);
  }

  lemma OctShown(n: nat)
    ensures Strip("0o" + Show(n, 8, false), "0o") == Show(n, 8, false)
  {
    ShownDigits(n, 8, false, 1);
    StripPrefixed(Show(n, 8, false), "0o");
  }

  /** The big-endian field shows `bit_size / 4` lowercase digits, and reading
      them back gives the active bytes and, folded, the word. */
  lemma HexBeRoundTrip(x: bv64, w: nat)
    requires IsWidth(w) && Masked(x, w)
    ensures |HexBeText(x, w)| == 2 + w / 4
    ensures HexBytesInput(HexBeText(x, w), w) == Some(BeSlice(x, w))
    ensures BeWord(BeSlice(x, w)) == x
  {
    var digits := HexEncode(BeSlice(x, w));
    HexDigitsAscii(digits);
    StripPrefixed(digits, "0x");
    HexRoundTrip(BeSlice(x, w));
    BeSliceWord(x, w);
  }

  /** The little-endian field likewise, with the bytes reversed. */
  lemma HexLeRoundTrip(x: bv64, w: nat)
    requires IsWidth(w) && Masked(x, w)
    ensures |HexLeText(x, w)| == 2 + w / 4
    ensures HexBytesInput(HexLeText(x, w), w) == Some(LeSlice(x, w))
    ensures LeWord(LeSlice(x, w)) == x
  {
    var digits := HexEncode(LeSlice(x, w));
    HexDigitsAscii(digits);
    StripPrefixed(digits, "0x");
    HexRoundTrip(LeSlice(x, w));
    LeSliceReversesBe(x, w);
    LeWordIsReversedBe(LeSlice(x, w));
    ReverseReverse(BeSlice(x, w));
    BeSliceWord(x, w);
  }

  /** The active bytes, most significant first, spell the masked word. */
  lemma BeSliceWord(x: bv64, w: nat)
    requires IsWidth(w) && Masked(x, w)
    ensures BeWord(BeSlice(x, w)) == x
  {
    match w
    case 8 => BeSliceWord8(x);
    case 16 => BeSliceWord16(x);
    case 32 => BeSliceWord32(x);
    case 64 => BeSliceWord64(x);
  }

  lemma BeSliceWord8(x: bv64)
    requires Masked(x, 8)
    ensures BeWord(BeSlice(x, 8)) == x
  {
    assert BeSlice(x, 8) == [ByteAt(x, 0)];
    HighBytes8(x);
    JoinOfBytes(x);
  }

  lemma BeSliceWord16(x: bv64)
    requires Masked(x, 16)
    ensures BeWord(BeSlice(x, 16)) == x
  {
    assert BeSlice(x, 16) == [ByteAt(x, 1), ByteAt(x, 0)];
    HighBytes16(x);
    JoinOfBytes(x);
  }

  lemma BeSliceWord32(x: bv64)
    requires Masked(x, 32)
    ensures BeWord(BeSlice(x, 32)) == x
  {
    assert BeSlice(x, 32) == [ByteAt(x, 3), ByteAt(x, 2), ByteAt(x, 1), ByteAt(x, 0)];
    HighBytes32(x);
    JoinOfBytes(x);
  }

  lemma BeSliceWord64(x: bv64)
    ensures BeWord(BeSlice(x, 64)) == x
  {
    JoinOfBytes(x);
  }
}
