/** The main view: the shared container and the active width, the handlers
    that change them, and the effect that fills the text fields. Every
    handler keeps the stored word inside the active width. */
module App {
  import opened Words
  import opened Utf8
  import opened Text
  import opened AppCodec
  import opened BitOperations

  /** The eight fields the effect fills. */
  datatype Fields = Fields(dec: string, bin: string, hex: string, hexBe: string,
                           hexLe: string, oct: string, ascii: string, utf8: string)

  /** The word an input handler leaves: a stored value, masked, or the old word. */
  function Outcome(raw: bv64, u: Update, w: nat): bv64
  {
    if u.Store? then Fit(u.value, Mask(w)) else raw
  }

  // ------------------------------------------------------------ buttons
  // Each button works on the stored word with the view's `mask()` as m and,
  // for the rotations, `size - 1` as t.

  /** `lsh`: shift left by one, then mask. */
  function ShiftLeft(x: bv64, m: bv64): bv64
  {
    (x << 1) & m
  }

  /** `rsh`: shift right by one, then mask. */
  function ShiftRight(x: bv64, m: bv64): bv64
  {
    (x >> 1) & m
  }

  /** `not`: complement, then mask. */
  function Invert(x: bv64, m: bv64): bv64
  {
    !x & m
  }

  /** `lshr`: shift left by one and bring bit t round to bit 0, then mask. */
  function RotateLeft(x: bv64, m: bv64, t: Pos): bv64
  {
    ((x << 1) | (x >> t)) & m
  }

  /** `rshr`: shift right by one and bring bit 0 round to bit t, then mask. */
  function RotateRight(x: bv64, m: bv64, t: Pos): bv64
  {
    ((x >> 1) | (x << t)) & m
  }

  /** `size - 1`, the top active bit. */
  function Top(w: nat): (p: Pos)
    requires IsWidth(w)
    ensures p as nat == w - 1
  {
    match w
    case 8 => 7
    case 16 => 15
    case 32 => 31
    case 64 => 63
  }

  /** The grid's click: flip bit i when it is active. */
  function Toggled(raw: bv64, w: nat, i: Pos): bv64
  {
    if i as nat < w then raw ^ (1 << i) else raw
  }

  class App {
    const bits: BitArray
    var bitSize: nat

    /** The width is one the selector offers and the word has no bit at or
        above it. */
    predicate Valid()
      reads this, bits
    {
      IsWidth(bitSize) && Masked(bits.raw, bitSize)
    }

    /** The view starts from a cleared container at 64 bits. */
    constructor ()
      ensures Valid() && fresh(bits)
      ensures bits.raw == 0 && bitSize == 64
    {
      bits := new BitArray();
      bitSize := 64;
    }

    /** `bit_array.get().0 & mask()`: the word the fields show. */
    function Current(): bv64
      reads this, bits
    {
      Fit(bits.raw, Mask(bitSize))
    }

    /** `update_value`: store the value, masked. */
    method UpdateValue(value: bv64)
      requires Valid()
      modifies bits
      ensures Valid()
      ensures bits.raw == Fit(value, Mask(bitSize))
    {
      FitMasked(value, Mask(bitSize));
      bits.raw := Fit(value, Mask(bitSize));
    }

    /** A parsed field: store what it gave, or leave the word. */
    method Apply(u: Update)
      requires Valid() && !u.Panic?
      modifies bits
      ensures Valid()
      ensures bits.raw == Outcome(old(bits.raw), u, bitSize)
    {
      if u.Store? {
        UpdateValue(u.value);
      }
    }

    /** `input_dec`. */
    method InputDec(text: string)
      requires Valid()
      modifies bits
      ensures Valid()
      ensures bits.raw == Outcome(old(bits.raw), DecInput(text), bitSize)
    {
      Apply(DecInput(text));
    }

    /** `input_bin`. */
    method InputBin(text: string)
      requires Valid()
      modifies bits
      ensures Valid()
      ensures bits.raw == Outcome(old(bits.raw), BinInput(text), bitSize)
    {
      Apply(BinInput(text));
    }

    /** `input_hex`; `panicked` stands for the abort when the cut falls
        inside a character, which leaves the word as it was. */
    method InputHex(text: string) returns (panicked: bool)
      requires Valid()
      modifies bits
      ensures Valid()
      ensures panicked <==> HexInput(text, bitSize).Panic?
      ensures bits.raw == Outcome(old(bits.raw), HexInput(text, bitSize), bitSize)
    {
      var u := HexInput(text, bitSize);
      panicked := u.Panic?;
      if !panicked {
        Apply(u);
      }
    }

    /** `input_hex_be`: exactly `bit_size / 4` digits, decoded, folded most
        significant byte first. */
    method InputHexBe(text: string)
      requires Valid()
      modifies bits
      ensures Valid()
      ensures bits.raw == match HexBytesInput(text, bitSize)
        case Some(bytes) => Fit(BeWord(bytes), Mask(bitSize))
        case None => old(bits.raw)
    {
      match HexBytesInput(text, bitSize)
      case Some(bytes) =>
        HexBytesAccepted(text, bitSize);
        var value := BeFold(bytes);
        UpdateValue(value);
      case None =>
    }

    /** `input_hex_le`: the same digits folded least significant byte first. */
    method InputHexLe(text: string)
      requires Valid()
      modifies bits
      ensures Valid()
      ensures bits.raw == match HexBytesInput(text, bitSize)
        case Some(bytes) => Fit(LeWord(bytes), Mask(bitSize))
        case None => old(bits.raw)
    {
      match HexBytesInput(text, bitSize)
      case Some(bytes) =>
        HexBytesAccepted(text, bitSize);
        var value := LeFold(bytes);
        UpdateValue(value);
      case None =>
    }

    /** `input_oct`. */
    method InputOct(text: string)
      requires Valid()
      modifies bits
      ensures Valid()
      ensures bits.raw == Outcome(old(bits.raw), OctInput(text), bitSize)
    {
      Apply(OctInput(text));
    }

    /** `lsh`. */
    method Lsh()
      requires Valid()
      modifies bits
      ensures Valid() && bits.raw == ShiftLeft(old(bits.raw), Mask(bitSize))
    {
      ShiftLeftInside(bits.raw, Mask(bitSize));
      bits.raw := ShiftLeft(bits.raw, Mask(bitSize));
    }

    /** `rsh`. */
    method Rsh()
      requires Valid()
      modifies bits
      ensures Valid() && bits.raw == ShiftRight(old(bits.raw), Mask(bitSize))
    {
      ShiftRightInside(bits.raw, Mask(bitSize));
      bits.raw := ShiftRight(bits.raw, Mask(bitSize));
    }

    /** `not`. */
    method Not()
      requires Valid()
      modifies bits
      ensures Valid() && bits.raw == Invert(old(bits.raw), Mask(bitSize))
    {
      InvertInside(bits.raw, Mask(bitSize));
      bits.raw := Invert(bits.raw, Mask(bitSize));
    }

    /** `clear`. */
    method Clear()
      requires Valid()
      modifies bits
      ensures Valid() && bits.raw == 0
    {
      bits.raw := 0;
    }

    /** `set_all`: every active bit. */
    method SetAll()
      requires Valid()
      modifies bits
      ensures Valid() && bits.raw == Mask(bitSize)
    {
      MaskIdempotent(AllOnes, Mask(bitSize));
      bits.raw := Mask(bitSize);
    }

    /** `lshr`. */
    method Lshr()
      requires Valid()
      modifies bits
      ensures Valid() && bits.raw == RotateLeft(old(bits.raw), Mask(bitSize), Top(bitSize))
    {
      RotateLeftInside(bits.raw, Mask(bitSize), Top(bitSize));
      bits.raw := RotateLeft(bits.raw, Mask(bitSize), Top(bitSize));
    }

    /** `rshr`. */
    method Rshr()
      requires Valid()
      modifies bits
      ensures Valid() && bits.raw == RotateRight(old(bits.raw), Mask(bitSize), Top(bitSize))
    {
      RotateRightInside(bits.raw, Mask(bitSize), Top(bitSize));
      bits.raw := RotateRight(bits.raw, Mask(bitSize), Top(bitSize));
    }

    /** `update_bit_size` followed by the effect that masks the word to the
        new width. */
    method SetBitSize(w: nat)
      requires IsWidth(w)
      modifies this, bits
      ensures Valid() && bitSize == w
      ensures bits.raw == Fit(old(bits.raw), Mask(w))
    {
      FitMasked(bits.raw, Mask(w));
      bitSize := w;
      bits.raw := Fit(bits.raw, Mask(w));
    }

    /** A click on grid cell i: toggle the bit when the cell is active. */
    method GridClick(i: Pos)
      requires Valid()
      modifies bits
      ensures Valid() && bits.raw == Toggled(old(bits.raw), bitSize, i)
    {
      ToggleKeepsMasked(bits.raw, bitSize, i);
      if i as nat < bitSize {
        bits.ToggleBit(i);
      }
    }

    /** The effect: every field from the masked word. */
    method Render() returns (f: Fields)
      requires Valid()
      ensures f == Fields(DecText(Current()), BinText(Current(), bitSize), HexText(Current()),
                          HexBeText(Current(), bitSize), HexLeText(Current(), bitSize),
                          OctText(Current()), AsciiText(Current(), bitSize),
                          Utf8Text(Current(), bitSize))
    {
      var current := Current();
      var w := bitSize;
      var utf8 := FilterPartial(Lossy(Values(BeSlice(current, w))), w / 8);
      if utf8 == [] {
        utf8 := " ";
      }
      f := Fields(DecText(current), BinText(current, w), HexText(current),
                  HexBeText(current, w), HexLeText(current, w),
                  OctText(current), AsciiText(current, w), utf8);
    }
  }

  // ------------------------------------------------------------ properties

  /** No button's result has a bit outside the mask it was given. */
  lemma ShiftLeftInside(x: bv64, m: bv64)
    ensures ShiftLeft(x, m) & m == ShiftLeft(x, m)
  {
    MaskIdempotent(x << 1, m);
  }

  lemma ShiftRightInside(x: bv64, m: bv64)
    ensures ShiftRight(x, m) & m == ShiftRight(x, m)
  {
    MaskIdempotent(x >> 1, m);
  }

  lemma InvertInside(x: bv64, m: bv64)
    ensures Invert(x, m) & m == Invert(x, m)
  {
    MaskIdempotent(!x, m);
  }

  lemma RotateLeftInside(x: bv64, m: bv64, t: Pos)
    ensures RotateLeft(x, m, t) & m == RotateLeft(x, m, t)
  {
    MaskIdempotent((x << 1) | (x >> t), m);
  }

  lemma RotateRightInside(x: bv64, m: bv64, t: Pos)
    ensures RotateRight(x, m, t) & m == RotateRight(x, m, t)
  {
    MaskIdempotent((x >> 1) | (x << t), m);
  }

  /** Toggling an active bit keeps the word inside the width. */
  lemma ToggleKeepsMasked(x: bv64, w: nat, i: Pos)
    requires IsWidth(w) && Masked(x, w)
    ensures Masked(Toggled(x, w, i), w)
  {
    if i as nat < w {
      MaskBit(w, i);
      ToggleInside(x, w, i, Mask(w));
    }
  }

  /** The bits of a width's mask are those below the width. */
  lemma MaskBit(w: nat, i: Pos)
    requires IsWidth(w)
    ensures Bit(Mask(w), i) <==> i as nat < w
  {
    match w
    case 8 =>
    case 16 =>
    case 32 =>
    case 64 =>
  }

  lemma ToggleInside(x: bv64, w: nat, i: Pos, m: bv64)
    requires m == Mask(w)
    requires Masked(x, w) && Bit(m, i)
    ensures Masked(x ^ (1 << i), w)
  {
    ToggleUnder(x, m, i);
  }

  lemma ToggleUnder(x: bv64, m: bv64, i: Pos)
    requires x & m == x && Bit(m, i)
    ensures (x ^ (1 << i)) & m == x ^ (1 << i)
  {
  }

  // ------------------------------------------------------------ what the buttons do

  /** Masking keeps the bits below the width and clears the rest. */
  lemma FitMeaning(x: bv64, w: nat)
    requires IsWidth(w)
    ensures forall p: Pos :: Bit(Fit(x, Mask(w)), p) <==> p as nat < w && Bit(x, p)
  {
    forall p: Pos
      ensures Bit(Fit(x, Mask(w)), p) <==> p as nat < w && Bit(x, p)
    {
      FitBit(x, w, p);
    }
  }

  lemma FitBit(x: bv64, w: nat, p: Pos)
    requires IsWidth(w)
    ensures Bit(Fit(x, Mask(w)), p) <==> p as nat < w && Bit(x, p)
  {
    MaskBit(w, p);
    FitBitOf(x, Mask(w), p);
  }

  lemma FitBitOf(x: bv64, m: bv64, p: Pos)
    ensures Bit(Fit(x, m), p) <==> Bit(x, p) && Bit(m, p)
  {
  }

  /** `lsh`: bit p is the old bit p - 1 inside the width; bit 0 and every
      bit at or above the width are clear. */
  lemma ShiftLeftMeaning(x: bv64, w: nat)
    requires IsWidth(w)
    ensures forall p: Pos :: Bit(ShiftLeft(x, Mask(w)), p) <==> 0 < p && p as nat < w && Bit(x, p - 1)
  {
    forall p: Pos
      ensures Bit(ShiftLeft(x, Mask(w)), p) <==> 0 < p && p as nat < w && Bit(x, p - 1)
    {
      MaskBit(w, p);
      ShiftLeftBit(x, Mask(w), p);
    }
  }

  lemma ShiftLeftBit(x: bv64, m: bv64, p: Pos)
    ensures Bit(ShiftLeft(x, m), p) <==> Bit(m, p) && 0 < p && Bit(x, p - 1)
  {
  }

  /** `rsh`: bit p is the old bit p + 1 inside the width; the top bit of the
      word is clear. */
  lemma ShiftRightMeaning(x: bv64, w: nat)
    requires IsWidth(w)
    ensures forall p: Pos :: Bit(ShiftRight(x, Mask(w)), p) <==> p < 63 && p as nat < w && Bit(x, p + 1)
  {
    forall p: Pos
      ensures Bit(ShiftRight(x, Mask(w)), p) <==> p < 63 && p as nat < w && Bit(x, p + 1)
    {
      MaskBit(w, p);
      ShiftRightBit(x, Mask(w), p);
    }
  }

  lemma ShiftRightBit(x: bv64, m: bv64, p: Pos)
    ensures Bit(ShiftRight(x, m), p) <==> Bit(m, p) && p < 63 && Bit(x, p + 1)
  {
  }

  /** `not`: every bit inside the width flips and the rest stay clear. */
  lemma InvertMeaning(x: bv64, w: nat)
    requires IsWidth(w)
    ensures forall p: Pos :: Bit(Invert(x, Mask(w)), p) <==> p as nat < w && !Bit(x, p)
  {
    forall p: Pos
      ensures Bit(Invert(x, Mask(w)), p) <==> p as nat < w && !Bit(x, p)
    {
      MaskBit(w, p);
      InvertBit(x, Mask(w), p);
    }
  }

  lemma InvertBit(x: bv64, m: bv64, p: Pos)
    ensures Bit(Invert(x, m), p) <==> Bit(m, p) && !Bit(x, p)
  {
  }

  /** Pressing `not` twice gives a word inside the width back. */
  lemma InvertTwice(x: bv64, w: nat)
    requires IsWidth(w) && Masked(x, w)
    ensures Invert(Invert(x, Mask(w)), Mask(w)) == x
  {
    InvertUnder(x, Mask(w));
  }

  lemma InvertUnder(x: bv64, m: bv64)
    requires x & m == x
    ensures Invert(Invert(x, m), m) == x
  {
  }

  /** A mask and top bit pair of one of the four widths. */
  predicate RotMask(m: bv64, t: Pos)
  {
    (t == 7 && m == 0xFF) || (t == 15 && m == 0xFFFF) || (t == 31 && m == 0xFFFF_FFFF) || (t == 63 && m == AllOnes)
  }
  /** The view's mask and top bit are such a pair. */
  lemma WidthShape(w: nat)
    requires IsWidth(w)
    ensures RotMask(Mask(w), Top(w))
  {
  }
  /** The bit a left rotation within bits 0..t brings to position p. */
  function Prev(p: Pos, t: Pos): Pos
  {
    if p == 0 then t else p - 1
  }
  /** The bit a right rotation within bits 0..t brings to position p. */
  function Next(p: Pos, t: Pos): Pos
  {
    if p >= t then 0 else p + 1
  }
  lemma RotateRightMeaning(x: bv64, w: nat)
    requires IsWidth(w) && Masked(x, w)
    ensures forall p: Pos :: Bit(RotateRight(x, Mask(w), Top(w)), p) <==> p <= Top(w) && Bit(x, Next(p, Top(w)))
  {
    forall p: Pos
      ensures Bit(RotateRight(x, Mask(w), Top(w)), p) <==> p <= Top(w) && Bit(x, Next(p, Top(w)))
    {
      RotateRightBit(x, w, p);
    }
  }
  lemma RotateRightBit(x: bv64, w: nat, p: Pos)
    requires IsWidth(w) && Masked(x, w)
    ensures Bit(RotateRight(x, Mask(w), Top(w)), p) <==> p <= Top(w) && Bit(x, Next(p, Top(w)))
  {
    WidthShape(w);
    RorBit(x, Mask(w), Top(w), p);
  }
  lemma RotateLeftMeaning(x: bv64, w: nat)
    requires IsWidth(w) && Masked(x, w)
    ensures forall p: Pos :: Bit(RotateLeft(x, Mask(w), Top(w)), p) <==> p <= Top(w) && Bit(x, Prev(p, Top(w)))
  {
    forall p: Pos
      ensures Bit(RotateLeft(x, Mask(w), Top(w)), p) <==> p <= Top(w) && Bit(x, Prev(p, Top(w)))
    {
      RotateLeftBit(x, w, p);
    }
  }
  lemma RotateLeftBit(x: bv64, w: nat, p: Pos)
    requires IsWidth(w) && Masked(x, w)
    ensures Bit(RotateLeft(x, Mask(w), Top(w)), p) <==> p <= Top(w) && Bit(x, Prev(p, Top(w)))
  {
    WidthShape(w);
    RolBit(x, Mask(w), Top(w), p);
  }
  /** Rotating within one of the four widths, bit by bit. */
  lemma RorBit(x: bv64, m: bv64, t: Pos, p: Pos)
    requires RotMask(m, t) && x & m == x
    ensures Bit(RotateRight(x, m, t), p) <==> p <= t && Bit(x, Next(p, t))
  {
    if t == 7 {
      RorBit8(x, p);
    } else if t == 15 {
      RorBit16(x, p);
    } else if t == 31 {
      RorBit32(x, p);
    } else {
      RorBit64(x, p);
    }
  }
  lemma RolBit(x: bv64, m: bv64, t: Pos, p: Pos)
    requires RotMask(m, t) && x & m == x
    ensures Bit(RotateLeft(x, m, t), p) <==> p <= t && Bit(x, Prev(p, t))
  {
    if t == 7 {
      RolBit8(x, p);
    } else if t == 15 {
      RolBit16(x, p);
    } else if t == 31 {
      RolBit32(x, p);
    } else {
      RolBit64(x, p);
    }
  }
  // The rotations bit by bit, one width at a time.

  lemma RorBit8(x: bv64, p: Pos)
    requires x & 0xFF == x
    ensures Bit(RotateRight(x, 0xFF, 7), p) <==> p <= 7 && Bit(x, Next(p, 7))
  {
  }
  lemma RolBit8(x: bv64, p: Pos)
    requires x & 0xFF == x
    ensures Bit(RotateLeft(x, 0xFF, 7), p) <==> p <= 7 && Bit(x, Prev(p, 7))
  {
  }
  lemma RorBit16(x: bv64, p: Pos)
    requires x & 0xFFFF == x
    ensures Bit(RotateRight(x, 0xFFFF, 15), p) <==> p <= 15 && Bit(x, Next(p, 15))
  {
  }
  lemma RolBit16(x: bv64, p: Pos)
    requires x & 0xFFFF == x
    ensures Bit(RotateLeft(x, 0xFFFF, 15), p) <==> p <= 15 && Bit(x, Prev(p, 15))
  {
  }
  lemma RorBit32(x: bv64, p: Pos)
    requires x & 0xFFFF_FFFF == x
    ensures Bit(RotateRight(x, 0xFFFF_FFFF, 31), p) <==> p <= 31 && Bit(x, Next(p, 31))
  {
  }
  lemma RolBit32(x: bv64, p: Pos)
    requires x & 0xFFFF_FFFF == x
    ensures Bit(RotateLeft(x, 0xFFFF_FFFF, 31), p) <==> p <= 31 && Bit(x, Prev(p, 31))
  {
  }
  lemma RorBit64(x: bv64, p: Pos)
    requires x & AllOnes == x
    ensures Bit(RotateRight(x, AllOnes, 63), p) <==> p <= 63 && Bit(x, Next(p, 63))
  {
  }
  lemma RolBit64(x: bv64, p: Pos)
    requires x & AllOnes == x
    ensures Bit(RotateLeft(x, AllOnes, 63), p) <==> p <= 63 && Bit(x, Prev(p, 63))
  {
  }

  /** `rshr` undoes `lshr` on a word inside the width. */
  lemma RotateLeftUndone(x: bv64, w: nat)
    requires IsWidth(w) && Masked(x, w)
    ensures RotateRight(RotateLeft(x, Mask(w), Top(w)), Mask(w), Top(w)) == x
  {
    MaskShape(w);
    RolRor(x, Mask(w), Top(w));
  }

  /** `lshr` undoes `rshr` on a word inside the width. */
  lemma RotateRightUndone(x: bv64, w: nat)
    requires IsWidth(w) && Masked(x, w)
    ensures RotateLeft(RotateRight(x, Mask(w), Top(w)), Mask(w), Top(w)) == x
  {
    MaskShape(w);
    RorRol(x, Mask(w), Top(w));
  }

  /** The mask of a width is the all-ones word cut down to its top bit. */
  lemma MaskShape(w: nat)
    requires IsWidth(w)
    ensures Mask(w) == AllOnes >> (63 - Top(w))
  {
    match w
    case 8 =>
    case 16 =>
    case 32 =>
    case 64 =>
  }

  lemma RolRor(x: bv64, m: bv64, t: Pos)
    requires m == AllOnes >> (63 - t) && x & m == x
    ensures RotateRight(RotateLeft(x, m, t), m, t) == x
  {
  }

  lemma RorRol(x: bv64, m: bv64, t: Pos)
    requires m == AllOnes >> (63 - t) && x & m == x
    ensures RotateLeft(RotateRight(x, m, t), m, t) == x
  {
  }

  /** Choosing a wider width leaves a word inside the old width alone. */
  lemma ResizeMeaning(x: bv64, w: nat, w': nat)
    requires IsWidth(w) && IsWidth(w') && Masked(x, w) && w <= w'
    ensures Fit(x, Mask(w')) == x
  {
    MaskNested(w, w');
    WidenVia(x, w, w', Mask(w), Mask(w'));
  }

  lemma WidenVia(x: bv64, w: nat, w': nat, m: bv64, m': bv64)
    requires m == Mask(w) && m' == Mask(w') && m & m' == m && Masked(x, w)
    ensures Fit(x, Mask(w')) == x
  {
    AndWider(x, m, m');
  }

  lemma MaskNested(w: nat, w': nat)
    requires IsWidth(w) && IsWidth(w') && w <= w'
    ensures Mask(w) & Mask(w') == Mask(w)
  {
  }

  lemma AndWider(x: bv64, m: bv64, m': bv64)
    requires x & m == x && m & m' == m
    ensures Fit(x, m') == x
  {
  }
}
