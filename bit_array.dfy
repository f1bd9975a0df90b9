/** The bit container shared by every part of the application: 64 bits held
    in one word, bit 0 the least significant. */
module BitOperations {
  import opened Digits
  import opened Words

  /** The character a bit is written as. */
  function BitChar(x: bv64, p: Pos): char
  {
    if Bit(x, p) then '1' else '0'
  }

  /** The character of bit j, for a bit index held as a number. */
  function CharAt(x: bv64, j: nat): char
    requires j < 64
  {
    BitChar(x, j as bv8)
  }

  /** The column the display string puts bit p in: bits run from 63 down to 0
      and a space closes every byte but the last. */
  function Column(p: nat): (c: nat)
    requires p < 64
    ensures c < 71 && c % 9 != 8
  {
    var n := 63 - p;
    NotSpaceColumn(n);
    n + n / 8
  }

  lemma NotSpaceColumn(n: nat)
    requires n < 64
    ensures (n + n / 8) % 9 == n % 8
  {
    DivModUnique(n + n / 8, 9, n / 8, n % 8);
  }

  /** Different bits go to different columns. */
  lemma ColumnsDistinct(p: nat, q: nat)
    requires p < 64 && q < 64 && p != q
    ensures Column(p) != Column(q)
  {
  }

  class BitArray {
    var raw: bv64

    /** `BitArray::new`: every bit clear. */
    constructor ()
      ensures raw == 0
      ensures forall p: Pos :: !Bit(raw, p)
    {
      raw := 0;
    }

    /** `BitArray(x)`: the container around a given word. */
    constructor Of(x: bv64)
      ensures raw == x
    {
      raw := x;
    }

    /** `set_bit`: the word with bit p set (see SetBitMeaning). */
    method SetBit(p: Pos)
      modifies this
      ensures raw == old(raw) | (1 << p)
    {
      raw := raw | (1 << p);
    }

    /** `clear_bit`: the word with bit p cleared (see ClearBitMeaning). */
    method ClearBit(p: Pos)
      modifies this
      ensures raw == old(raw) & !(1 << p)
    {
      raw := raw & !(1 << p);
    }

    /** `toggle_bit`: the word with bit p flipped (see ToggleBitMeaning). */
    method ToggleBit(p: Pos)
      modifies this
      ensures raw == old(raw) ^ (1 << p)
    {
      raw := raw ^ (1 << p);
    }

    /** `get_bit`. */
    function GetBit(p: Pos): (b: bool)
      reads this
      ensures b <==> Bit(raw, p)
    {
      (raw >> p) & 1 == 1
    }

    /** `get_all_bits`: element i is bit i, so the list starts at the least
        significant bit. */
    function GetAllBits(): (bits: seq<bool>)
      reads this
      ensures |bits| == 64
      ensures forall i :: 0 <= i < 64 ==> bits[i] == Bit(raw, i as bv8)
    {
      seq(64, i requires 0 <= i < 64 reads this => GetBit(i as bv8))
    }

    /** `get_raw`: the stored word itself. */
    function GetRaw(): (r: bv64)
      reads this
      ensures r == raw
    {
      raw
    }

    /** `Display::fmt`: 71 characters, bit 63 first, a space after every byte
        except the last. */
    method Fmt() returns (s: string)
      ensures |s| == 71
      ensures forall p: Pos :: s[Column(p as nat)] == BitChar(raw, p)
      ensures forall m :: 0 <= m < 7 ==> s[9 * m + 8] == ' '
    {
      s := [];
      var i: nat := 64;
      while i > 0
        invariant i <= 64 && Printed(s, raw, i)
      {
        i := i - 1;
        ghost var before := s;
        s := s + [CharAt(raw, i)];
        if i % 8 == 0 && i != 0 {
          s := s + [' '];
        }
        PrintStep(before, s, raw, i);
      }
      PrintDone(s, raw);
    }
  }

  /** s is what the display writes for bits 63 down to i. */
  predicate Printed(s: string, x: bv64, i: nat)
    requires i <= 64
  {
    PrintedLength(s, i) && PrintedBits(s, x, i) && PrintedSpaces(s)
  }

  /** The display so far ends just before bit i - 1's column. */
  predicate PrintedLength(s: string, i: nat)
    requires i <= 64
  {
    |s| == if i == 0 then 71 else Column(i - 1)
  }

  /** Bits 63 down to i sit in their columns. */
  predicate PrintedBits(s: string, x: bv64, i: nat)
    requires i <= 64
  {
    forall j :: i <= j < 64 ==> Column(j) < |s| && s[Column(j)] == CharAt(x, j)
  }

  /** The columns of the form 9m + 8 written so far hold spaces. */
  predicate PrintedSpaces(s: string)
  {
    forall m :: 0 <= m < 7 && 9 * m + 8 < |s| ==> s[9 * m + 8] == ' '
  }

  /** Writing bit i and, at a byte boundary, a space extends the display. */
  lemma PrintStep(s: string, s': string, x: bv64, i: nat)
    requires i < 64 && Printed(s, x, i + 1)
    requires if i % 8 == 0 && i != 0 then s' == s + [CharAt(x, i)] + [' '] else s' == s + [CharAt(x, i)]
    ensures Printed(s', x, i)
  {
    StepLength(s, s', i);
    StepBits(s, s', x, i);
    StepSpaces(s, s', x, i);
  }

  lemma StepLength(s: string, s': string, i: nat)
    requires i < 64 && PrintedLength(s, i + 1)
    requires |s'| == |s| + if i % 8 == 0 && i != 0 then 2 else 1
    ensures PrintedLength(s', i)
  {
    if i > 0 {
      ColumnStep(i);
    }
  }

  lemma StepBits(s: string, s': string, x: bv64, i: nat)
    requires i < 64 && PrintedLength(s, i + 1) && PrintedBits(s, x, i + 1)
    requires |s'| > |s| && s'[..|s|] == s && s'[|s|] == CharAt(x, i)
    ensures PrintedBits(s', x, i)
  {
    forall j | i <= j < 64
      ensures Column(j) < |s'| && s'[Column(j)] == CharAt(x, j)
    {
      if j > i {
        assert s'[Column(j)] == s'[..|s|][Column(j)];
      }
    }
  }

  lemma StepSpaces(s: string, s': string, x: bv64, i: nat)
    requires i < 64 && PrintedLength(s, i + 1) && PrintedSpaces(s)
    requires if i % 8 == 0 && i != 0 then s' == s + [CharAt(x, i)] + [' '] else s' == s + [CharAt(x, i)]
    ensures PrintedSpaces(s')
  {
    if i > 0 {
      ColumnStep(i);
    }
    forall m | 0 <= m < 7 && 9 * m + 8 < |s'|
      ensures s'[9 * m + 8] == ' '
    {
      var c := 9 * m + 8;
      if c < |s| {
        assert s'[c] == s[c];
      } else {
        DivModUnique(c, 9, m, 8);
        assert c != Column(i);
        assert c == |s| + 1;
      }
    }
  }

  /** The finished display has the promised shape. */
  lemma PrintDone(s: string, x: bv64)
    requires Printed(s, x, 0)
    ensures |s| == 71
    ensures forall p: Pos :: s[Column(p as nat)] == BitChar(x, p)
    ensures forall m :: 0 <= m < 7 ==> s[9 * m + 8] == ' '
  {
    forall p: Pos
      ensures s[Column(p as nat)] == BitChar(x, p)
    {
      assert (p as nat) as bv8 == p;
    }
  }

  /** Bit p - 1's column follows bit p's, one further on after a byte's
      closing space, which sits in a column of the form 9m + 8. */
  lemma ColumnStep(p: nat)
    requires 0 < p < 64
    ensures Column(p - 1) == Column(p) + (if p % 8 == 0 then 2 else 1)
    ensures p % 8 == 0 ==> Column(p) + 1 == 9 * ((63 - p) / 8) + 8
  {
    var n := 63 - p;
    var q, r := n / 8, n % 8;
    if r == 7 {
      DivModUnique(n + 1, 8, q + 1, 0);
    } else {
      DivModUnique(n + 1, 8, q, r + 1);
    }
  }

  /** The listing determines the word: containers with the same listing hold
      the same word. */
  lemma ListingDetermines(a: BitArray, b: BitArray)
    requires a.GetAllBits() == b.GetAllBits()
    ensures a.raw == b.raw
  {
    forall p: Pos
      ensures Bit(a.raw, p) == Bit(b.raw, p)
    {
      var i := p as int;
      assert a.GetAllBits()[i] == b.GetAllBits()[i];
      assert i as bv8 == p;
    }
    BitsEqual(a.raw, b.raw);
  }

  /** Words that agree on every bit are equal. */
  lemma BitsEqual(x: bv64, y: bv64)
    requires forall p: Pos :: Bit(x, p) == Bit(y, p)
    ensures x == y
  {
    ByteOfBits(x, y, 0); ByteOfBits(x, y, 1); ByteOfBits(x, y, 2); ByteOfBits(x, y, 3);
    ByteOfBits(x, y, 4); ByteOfBits(x, y, 5); ByteOfBits(x, y, 6); ByteOfBits(x, y, 7);
    JoinOfBytes(x);
    JoinOfBytes(y);
  }

  lemma ByteOfBits(x: bv64, y: bv64, k: ByteIndex)
    requires forall p: Pos :: Bit(x, p) == Bit(y, p)
    ensures ByteAt(x, k) == ByteAt(y, k)
  {
    var b := 8 * k;
    assert Bit(x, b) == Bit(y, b) && Bit(x, b + 1) == Bit(y, b + 1);
    assert Bit(x, b + 2) == Bit(y, b + 2) && Bit(x, b + 3) == Bit(y, b + 3);
    assert Bit(x, b + 4) == Bit(y, b + 4) && Bit(x, b + 5) == Bit(y, b + 5);
    assert Bit(x, b + 6) == Bit(y, b + 6) && Bit(x, b + 7) == Bit(y, b + 7);
    ByteFromBits(x, y, k);
  }

  lemma ByteFromBits(x: bv64, y: bv64, k: ByteIndex)
    requires Bit(x, 8 * k) == Bit(y, 8 * k) && Bit(x, 8 * k + 1) == Bit(y, 8 * k + 1)
    requires Bit(x, 8 * k + 2) == Bit(y, 8 * k + 2) && Bit(x, 8 * k + 3) == Bit(y, 8 * k + 3)
    requires Bit(x, 8 * k + 4) == Bit(y, 8 * k + 4) && Bit(x, 8 * k + 5) == Bit(y, 8 * k + 5)
    requires Bit(x, 8 * k + 6) == Bit(y, 8 * k + 6) && Bit(x, 8 * k + 7) == Bit(y, 8 * k + 7)
    ensures ByteAt(x, k) == ByteAt(y, k)
  {
  }

  // ------------------------------------------ one-bit updates, bit by bit

  /** Setting bit p makes it 1, leaves every other bit as it was, and
      changes nothing when the bit is already set. */
  lemma SetBitMeaning(x: bv64, p: Pos)
    ensures Bit(x | (1 << p), p)
    ensures forall q: Pos :: q != p ==> (Bit(x | (1 << p), q) <==> Bit(x, q))
    ensures Bit(x, p) ==> x | (1 << p) == x
  {
    SetOwn(x, p);
    forall q: Pos | q != p
      ensures Bit(x | (1 << p), q) <==> Bit(x, q)
    {
      SetOther(x, p, q);
    }
    if Bit(x, p) {
      SetIdle(x, p);
    }
  }

  lemma SetOwn(x: bv64, p: Pos)
    ensures Bit(x | (1 << p), p)
  {
  }

  lemma SetOther(x: bv64, p: Pos, q: Pos)
    requires q != p
    ensures Bit(x | (1 << p), q) <==> Bit(x, q)
  {
  }

  lemma SetIdle(x: bv64, p: Pos)
    requires Bit(x, p)
    ensures x | (1 << p) == x
  {
  }

  /** Clearing bit p makes it 0, leaves every other bit as it was, and
      changes nothing when the bit is already clear. */
  lemma ClearBitMeaning(x: bv64, p: Pos)
    ensures !Bit(x & !(1 << p), p)
    ensures forall q: Pos :: q != p ==> (Bit(x & !(1 << p), q) <==> Bit(x, q))
    ensures !Bit(x, p) ==> x & !(1 << p) == x
  {
    ClearOwn(x, p);
    forall q: Pos | q != p
      ensures Bit(x & !(1 << p), q) <==> Bit(x, q)
    {
      ClearOther(x, p, q);
    }
    if !Bit(x, p) {
      ClearIdle(x, p);
    }
  }

  lemma ClearOwn(x: bv64, p: Pos)
    ensures !Bit(x & !(1 << p), p)
  {
  }

  lemma ClearOther(x: bv64, p: Pos, q: Pos)
    requires q != p
    ensures Bit(x & !(1 << p), q) <==> Bit(x, q)
  {
  }

  lemma ClearIdle(x: bv64, p: Pos)
    requires !Bit(x, p)
    ensures x & !(1 << p) == x
  {
  }

  /** Toggling bit p flips exactly that bit, and toggling it twice gives the
      word back. */
  lemma ToggleBitMeaning(x: bv64, p: Pos)
    ensures forall q: Pos :: Bit(x ^ (1 << p), q) <==> (Bit(x, q) != (q == p))
    ensures (x ^ (1 << p)) ^ (1 << p) == x
  {
    forall q: Pos
      ensures Bit(x ^ (1 << p), q) <==> (Bit(x, q) != (q == p))
    {
      ToggleOne(x, p, q);
    }
    ToggleTwice(x, p);
  }

  lemma ToggleOne(x: bv64, p: Pos, q: Pos)
    ensures Bit(x ^ (1 << p), q) <==> (Bit(x, q) != (q == p))
  {
  }

  lemma ToggleTwice(x: bv64, p: Pos)
    ensures (x ^ (1 << p)) ^ (1 << p) == x
  {
  }
}
