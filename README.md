# bitwise, modelled in Dafny

The application holds one 64-bit word. The user reads and edits it under an
active width of 8, 16, 32 or 64 bits. This project models the logic behind it
and proves what each part promises:

- **Bit container** (`BitOperations`, `bit_array.dfy`). The `BitArray` class
  holds the word. Set, clear and toggle change it in place. Get and the bit
  listing read it, and `Fmt` writes the 71-character display string in a loop.
- **Desktop commands** (`Backend`). These are `toggle_bit`, `get_bits`,
  `get_raw` and `process_bits` (a bit reversal).
- **Bit grid** (`BitGrid`). It decides which cells are active and what each
  cell shows. A click toggles a bit and masks the word in place.
- **Main view** (`App` with `AppCodec`). The `App` class holds the shared
  container and the width. Its methods are the input handlers, the seven
  buttons, the width change and the grid click. Each keeps the word inside
  the width. `AppCodec` holds the eight text fields the view renders and the
  parsers behind the handlers. It also holds the two byte loops of the HEX BE
  and HEX LE handlers and the peeking loop that post-filters the UTF-8 view.
- **Number panel** (`NumberRepr`). This is the second, more permissive codec.
  Its filters keep only a base's digits, and a failed parse stores 0. The
  byte fields pad and fold. `Lshr` and `Rshr` rotate all 64 bits (see Findings). The
  `Panel` class applies its handlers to the shared container.
- **IEEE 754 decoder** (`Ieee754`). It extracts the sign, exponent and
  trailing-significand fields of binary16, binary32 and binary64 and
  classifies each pattern as described in section 3.4 of IEEE 754-2019. The
  binary16 value is modelled over the reals.
- **Special-value generator** (`SpecialValues`). It holds the eight buttons'
  patterns, the generator's own mask and the disabled rule. Each pattern is
  proved to decode as the value its button is named after.

Four modules model the standard-library and `hex`-crate behaviour the core
relies on:

- `Words`: the `u64` word, its masks, bytes, and the number it denotes.
- `Digits`: positional notation.
- `Text`: `replace`, `filter`, `to_uppercase`, `from_str_radix`, formatting,
  `truncate`, `hex::encode` and `hex::decode`.
- `Utf8`: `len_utf8` and `String::from_utf8_lossy`, with one U+FFFD per
  maximal subpart, as in section 3.9 of the Unicode Standard.

Notable behaviour of the code, which the model follows:

- The main view's HEX BE and HEX LE fields show lowercase digits
  (`hex::encode`). The panel's fields show uppercase digits.
- There is no error for a width outside 8/16/32/64. Every mask falls back to
  all ones, the decoder falls back to binary64, and the special-value
  generators fall back to 0.
- The binary16 value of 0x3C00 is 0.0 as written, not 1.0 (see Findings).
- The UTF-8 view never uses its one-space fallback. The lossy decoding of at
  least one byte is never empty, and the post-filter keeps its first
  character or puts U+FFFD in its place (`AppCodec.Utf8TextDecoded`).

## Model

| member | source | states |
|---|---|---|
| Words.MaskBits | frontend/src/main.rs:28-33 | the width mask of 8, 16, 32 or 64 has exactly the bits below the width set |
| Words.MaskIdempotent | frontend/src/main.rs:86-88 | masking a word twice is masking it once, so re-running the width-change masking is harmless |
| Words.FitMasked | frontend/src/main.rs:91-93 | a word stored as `value & mask()` has no bit outside the mask |
| Words.WidthLimitPow | frontend/src/main.rs:28-33 | a width's range limit is 2^width |
| Words.BeIsReversedLe | frontend/src/main.rs:38-39 | `to_be_bytes` is `to_le_bytes` in reverse order |
| Words.ToNatFromNat | libs/bit_operations/src/lib.rs:5 | every number below 2^64 is denoted by exactly the word built from it |
| Words.FromNatToNat | libs/bit_operations/src/lib.rs:5 | every word is the word of the number it denotes |
| Words.ToNatInjective | libs/bit_operations/src/lib.rs:5 | two words that denote the same number are equal |
| Words.MaskedBelow | frontend/src/main.rs:28-33 | a word with no bit at or above the width denotes a number below 2^width |
| Digits.ToDigits | frontend/src/main.rs:43 | a number's shortest digit string has no leading zero and spells the number |
| Digits.PadDigits | frontend/src/main.rs:44 | zero-padding to a width keeps the value; the length is the width, or the digit count when that is larger |
| Digits.DigitCount | frontend/src/main.rs:123-128 | a number has at most k digits exactly when it is below base^k |
| Digits.ValueBound | frontend/src/main.rs:123-128 | k digits spell a number below base^k |
| Digits.LeadingZeros | frontend/src/main.rs:44 | leading zeros do not change the value |
| Digits.ValueAppend | frontend/src/main.rs:143-146 | appending digits shifts the prefix up by base^(length of the suffix) |
| Digits.ValueSplit | frontend/src/main.rs:143-146 | the tail of a digit string is the remainder and the head the quotient by base^(tail length) |
| Digits.ValueInjective | frontend/src/main.rs:141 | digit strings of equal length and equal value are equal |
| Digits.PowNibbles | frontend/src/main.rs:139 | 16^(2k) is 256^k: two hexadecimal digits per byte |
| Digits.PowBytes | frontend/src/main.rs:40 | 256^k is 2^(8k): k bytes hold 8k bits |
| Text.RemoveAbsent | frontend/src/main.rs:109 | `replace(pat, "")` leaves text without pat's last character unchanged |
| Text.RemoveLeading | frontend/src/main.rs:109 | a leading occurrence of the pattern is removed and the rest is edited on its own |
| Text.Filter | frontend/src/number_repr_bitops.rs:34-36 | the filtered text is no longer than the input and every character passes the filter |
| Text.FilterOne | frontend/src/number_repr_bitops.rs:34-36 | one character is kept exactly when it passes the filter |
| Text.FilterAppend | frontend/src/number_repr_bitops.rs:34-36 | filtering distributes over concatenation, so with FilterOne the output is exactly the passing characters, in their order |
| Text.FilterKeepsAll | frontend/src/number_repr_bitops.rs:34-36 | filtering text whose every character passes changes nothing |
| Text.ToUpper | frontend/src/number_repr_bitops.rs:56 | upper-casing keeps the length, upper-cases ASCII letters and keeps every other character |
| Text.ToUpperHexDigits | frontend/src/number_repr_bitops.rs:56-58 | a character is a hex digit after upper-casing exactly when it was one before, with the same digit value |
| Text.CharDigit | frontend/src/main.rs:111 | a character's digit is below 10 exactly for ASCII digits and below 16 exactly for hex digits of either case |
| Text.DigitChar | frontend/src/main.rs:44-48 | the formatter's character for a digit reads back as that digit, in the requested case |
| Text.Spell | frontend/src/main.rs:43-48 | the spelled characters read back as the same digits |
| Text.ParseValue | frontend/src/main.rs:101 | a successful `from_str_radix` gives a number below 2^64 |
| Text.ParseMeaning | frontend/src/main.rs:101 | a successful parse means an optional '+' followed by at least one digit of the radix, and the result is their value |
| Text.ParseErrors | frontend/src/main.rs:101-103 | empty text, a character that is not a digit of the radix, or a value past 2^64 - 1 fails the parse |
| Text.ParseWord | frontend/src/main.rs:111 | the parsed word exists exactly when the parsed number does, and it denotes that number |
| Text.ParseSpelled | frontend/src/main.rs:111 | a digit string whose value fits parses to that value |
| Text.ParseShow | frontend/src/main.rs:43-48 | parsing what the formatter shows, padded or not, gives the number back |
| Text.ParseShowWord | frontend/src/main.rs:43-48 | parsing the shown number of a word gives the word back |
| Text.ShowLength | frontend/src/main.rs:44 | a shown number has at most k digits exactly when it is below radix^k, and a padded one below radix^width has exactly width digits |
| Text.PadLeft | frontend/src/number_repr_bitops.rs:74 | `{:0>width$}` ends with the text, has only '0's in front, and is width long unless the text is longer |
| Text.TruncateBytes | frontend/src/main.rs:123-126 | a truncation that does not panic keeps a prefix of at most n bytes, or all of a shorter text |
| Text.TruncateAscii | frontend/src/main.rs:123-126 | ASCII text is never cut inside a character; truncation keeps its first n characters |
| Text.HexEncode | frontend/src/main.rs:46-47 | `hex::encode` writes two lowercase hex digits per byte |
| Text.HexDecode | frontend/src/main.rs:141 | `hex::decode` gives one byte per two characters |
| Text.HexDecodeDefined | frontend/src/main.rs:140-141 | decoding succeeds exactly on even-length text made of hex digits |
| Text.HexRoundTrip | frontend/src/main.rs:141 | decoding the encoded bytes gives them back |
| Text.HexDecodeAt | frontend/src/main.rs:141 | decoded byte i is 16 times the digit at 2i plus the digit at 2i + 1 |
| Utf8.Utf8Len | frontend/src/main.rs:66 | `len_utf8` is 1 to 4, and 1 exactly below U+0080 |
| Utf8.AsciiByteLen | frontend/src/main.rs:124 | on ASCII text the byte length `len()` is the character count |
| Utf8.Head | frontend/src/main.rs:60 | the decoder's chunk at the head has 1 to 4 bytes and is valid exactly when those bytes form one well-formed sequence |
| Utf8.Decode | frontend/src/main.rs:60 | the character a well-formed sequence decodes to takes exactly that many bytes to encode |
| Utf8.Lossy | frontend/src/main.rs:60 | `from_utf8_lossy` gives no more characters than there are bytes, and none only for no bytes |
| Utf8.LossyAscii | frontend/src/main.rs:60 | bytes below 0x80 decode one to one |
| Utf8.LossyWidths | frontend/src/main.rs:60-66 | every decoded character is U+FFFD or takes no more bytes than there were |
| Utf8.Encode | frontend/src/main.rs:60 | every character has a well-formed encoding of `len_utf8` bytes that decodes back to it |
| Utf8.LossyEncode | frontend/src/main.rs:60 | lossy decoding of an encoded character gives that one character |
| Utf8.LossyOne | frontend/src/main.rs:60 | one well-formed sequence decodes to one character |
| BitOperations.Column | libs/bit_operations/src/lib.rs:11-16 | bit p's column lies inside the 71-character display and is never a separator column |
| BitOperations.ColumnsDistinct | libs/bit_operations/src/lib.rs:11-16 | different bits get different columns |
| BitOperations.BitArray.constructor | libs/bit_operations/src/lib.rs:26-28 | `new` holds 0, so every bit is clear |
| BitOperations.BitArray.Of | libs/bit_operations/src/lib.rs:5 | the container around a word holds that word |
| BitOperations.BitArray.SetBit | libs/bit_operations/src/lib.rs:34-36 | `set_bit` stores the word with bit p or-ed in |
| BitOperations.BitArray.ClearBit | libs/bit_operations/src/lib.rs:42-44 | `clear_bit` stores the word and-ed with the complement of bit p |
| BitOperations.BitArray.ToggleBit | libs/bit_operations/src/lib.rs:50-52 | `toggle_bit` stores the word with bit p xor-ed |
| BitOperations.BitArray.GetBit | libs/bit_operations/src/lib.rs:61-63 | `get_bit(p)` is true exactly when `(raw >> p) & 1 == 1` |
| BitOperations.BitArray.GetAllBits | libs/bit_operations/src/lib.rs:69-71 | the listing has 64 entries and entry i is bit i, least significant first |
| BitOperations.BitArray.GetRaw | libs/bit_operations/src/lib.rs:77-79 | `get_raw` is the stored word |
| BitOperations.BitArray.Fmt | libs/bit_operations/src/lib.rs:10-18 | the display is 71 characters, bit p's '0' or '1' sits in its column (bit 63 first), and a space follows each of the first seven bytes |
| BitOperations.PrintStep | libs/bit_operations/src/lib.rs:11-16 | one pass of the display loop, one bit plus a space at a byte boundary, extends what has been written so far |
| BitOperations.PrintDone | libs/bit_operations/src/lib.rs:10-18 | the finished loop output has the promised length, bits and spaces |
| BitOperations.ListingDetermines | libs/bit_operations/src/lib.rs:69-71 | containers with the same listing hold the same word |
| BitOperations.BitsEqual | libs/bit_operations/src/lib.rs:61-63 | words that agree on every bit are equal |
| BitOperations.SetBitMeaning | libs/bit_operations/src/lib.rs:34-36 | after `set_bit(p)` bit p is 1, every other bit is unchanged, and setting a set bit changes nothing |
| BitOperations.ClearBitMeaning | libs/bit_operations/src/lib.rs:42-44 | after `clear_bit(p)` bit p is 0, every other bit is unchanged, and clearing a clear bit changes nothing |
| BitOperations.ToggleBitMeaning | libs/bit_operations/src/lib.rs:50-52 | `toggle_bit(p)` flips exactly bit p, and toggling twice gives the word back |
| Backend.ToggleBitCommand | backend/src/main.rs:12-16 | the command returns the word with bit `position` flipped |
| Backend.GetBits | backend/src/main.rs:26-29 | the listing has 64 entries and entry i is bit i of the state |
| Backend.GetRaw | backend/src/main.rs:39-41 | `get_raw` is the identity |
| Backend.ProcessBitsMirrors | backend/src/main.rs:51-54 | bit i of `process_bits(x)` is bit 63 - i of x |
| Backend.ProcessBitsInvolution | backend/src/main.rs:51-54 | processing twice gives the word back, and 0 and all ones map to themselves |
| BitGrid.BitValueShowsActiveBits | frontend/src/bit_grid.rs:28-33 | with the width's mask, a cell shows 1 exactly when it is active and its bit is set |
| BitGrid.Click | frontend/src/bit_grid.rs:40-45 | a click on an active cell stores `(raw ^ (1 << i)) & mask`, and a click on an inactive cell changes nothing |
| BitGrid.ClickMeaning | frontend/src/bit_grid.rs:40-45 | after a click no bit lies outside the mask, the clicked bit flips, and every other bit inside the mask keeps its value |
| BitGrid.ClickTwice | frontend/src/bit_grid.rs:43-44 | two clicks on the same cell leave `raw & mask` |
| App.Top | frontend/src/main.rs:195-197 | `size - 1` is the top active bit |
| App.App.constructor | frontend/src/main.rs:14-15 | the view starts from a cleared container at 64 bits |
| App.App.UpdateValue | frontend/src/main.rs:91-93 | `update_value` stores the value masked to the width |
| App.App.Apply | frontend/src/main.rs:101-103 | a handler whose parse succeeded stores the masked value, and one that failed leaves the word |
| App.App.InputDec | frontend/src/main.rs:98-104 | the decimal handler stores the masked `parse::<u64>()` result, or leaves the word when parsing fails |
| App.App.InputBin | frontend/src/main.rs:107-114 | the binary handler strips "0b" and spaces, then stores the masked base-2 parse or leaves the word |
| App.App.InputHex | frontend/src/main.rs:117-131 | the hex handler strips, cuts to `bit_size / 4` bytes, and stores the masked base-16 parse; it reports a panic exactly when the cut falls inside a character |
| App.App.InputHexBe | frontend/src/main.rs:134-150 | the HEX BE handler stores the decoded bytes read most significant first, masked, only when the text has exactly `bit_size / 4` hex digits; otherwise it leaves the word |
| App.App.InputHexLe | frontend/src/main.rs:153-169 | the HEX LE handler does the same with the bytes read least significant first |
| App.App.InputOct | frontend/src/main.rs:172-179 | the octal handler strips "0o" and spaces, then stores the masked base-8 parse or leaves the word |
| App.App.Lsh | frontend/src/main.rs:184 | `lsh` stores `(raw << 1) & mask` |
| App.App.Rsh | frontend/src/main.rs:186 | `rsh` stores `(raw >> 1) & mask` |
| App.App.Not | frontend/src/main.rs:188 | `not` stores `!raw & mask` |
| App.App.Clear | frontend/src/main.rs:190 | `clear` stores 0 |
| App.App.SetAll | frontend/src/main.rs:192 | `set_all` stores the mask, every active bit |
| App.App.Lshr | frontend/src/main.rs:194-200 | `lshr` stores `((raw << 1) \| (raw >> (size - 1))) & mask` |
| App.App.Rshr | frontend/src/main.rs:202-208 | `rshr` stores `((raw >> 1) \| (raw << (size - 1))) & mask` |
| App.App.SetBitSize | frontend/src/main.rs:86-88 | choosing a width sets it and masks the word in place to it |
| App.App.GridClick | frontend/src/main.rs:243-247 | a click toggles bit i when it is below the width and otherwise changes nothing |
| App.App.Render | frontend/src/main.rs:36-83 | the effect fills every field from `raw & mask` |
| App.ShiftLeftInside | frontend/src/main.rs:184 | `lsh` leaves no bit outside the mask |
| App.ShiftRightInside | frontend/src/main.rs:186 | `rsh` leaves no bit outside the mask |
| App.InvertInside | frontend/src/main.rs:188 | `not` leaves no bit outside the mask |
| App.RotateLeftInside | frontend/src/main.rs:194-200 | `lshr` leaves no bit outside the mask |
| App.RotateRightInside | frontend/src/main.rs:202-208 | `rshr` leaves no bit outside the mask |
| App.ToggleKeepsMasked | frontend/src/main.rs:243-246 | toggling an active bit keeps the word inside the width |
| App.MaskBit | frontend/src/main.rs:28-33 | bit i of the mask is set exactly when i is below the width |
| App.FitMeaning | frontend/src/main.rs:91-93 | masking keeps the bits below the width and clears the rest |
| App.ShiftLeftMeaning | frontend/src/main.rs:184 | after `lsh`, bit p is old bit p - 1 when 0 < p < width, and every other bit is clear |
| App.ShiftRightMeaning | frontend/src/main.rs:186 | after `rsh`, bit p is old bit p + 1 when p < width (and p < 63), and every other bit is clear |
| App.InvertMeaning | frontend/src/main.rs:188 | after `not`, every bit inside the width is flipped and every bit outside it is clear |
| App.InvertTwice | frontend/src/main.rs:188 | `not` twice gives a word inside the width back |
| App.RotateLeftMeaning | frontend/src/main.rs:194-200 | on a masked word `lshr` is the true rotation within the width: bit p is old bit p - 1, bit 0 is the old top bit, and nothing above the top is set |
| App.RotateRightMeaning | frontend/src/main.rs:202-208 | on a masked word `rshr` is the true rotation within the width: bit p is old bit p + 1, the top bit is old bit 0, and nothing above the top is set |
| App.RotateLeftUndone | frontend/src/main.rs:194-208 | `rshr` undoes `lshr` on a word inside the width |
| App.RotateRightUndone | frontend/src/main.rs:194-208 | `lshr` undoes `rshr` on a word inside the width |
| App.MaskShape | frontend/src/main.rs:28-33 | a width's mask is the all-ones word shifted right by 63 - (size - 1) |
| App.ResizeMeaning | frontend/src/main.rs:86-88 | moving to a wider width leaves a word inside the old width alone |
| AppCodec.StripPrefixed | frontend/src/main.rs:109 | stripping the prefix and spaces from the prefix followed by digits gives the digits |
| AppCodec.BeSlice | frontend/src/main.rs:46 | `be_bytes[8 - byte_count..8]` has `bit_size / 8` bytes |
| AppCodec.LeSlice | frontend/src/main.rs:47 | `le_bytes[0..byte_count]` has `bit_size / 8` bytes |
| AppCodec.LeSliceReversesBe | frontend/src/main.rs:51-52 | the two slices hold the same bytes in opposite orders, so the HEX LE text is the HEX BE text with its bytes reversed |
| AppCodec.LeWordIsReversedBe | frontend/src/main.rs:143-146 | reading bytes least significant first is reading them reversed most significant first |
| AppCodec.BeFold | frontend/src/main.rs:143-146 | the HEX BE loop builds the word the bytes spell most significant first |
| AppCodec.LeFold | frontend/src/main.rs:162-165 | the HEX LE loop builds the word the bytes spell least significant first |
| AppCodec.AsciiOf | frontend/src/main.rs:55-57 | the ASCII view has one character per byte: the byte's character for 32 to 126, a space otherwise |
| AppCodec.DropLong | frontend/src/main.rs:71-77 | skipping over-long characters leaves text that is empty or starts with a character that fits |
| AppCodec.Collapse | frontend/src/main.rs:63-79 | the post-filter output is no longer than its input and is empty only for empty input |
| AppCodec.FilterPartial | frontend/src/main.rs:63-79 | the peeking loop builds exactly the post-filter: fitting characters kept, each run of over-long ones one U+FFFD |
| AppCodec.SkipLong | frontend/src/main.rs:71-77 | the inner loop stops at the first character that fits, past every over-long one |
| AppCodec.CollapseFits | frontend/src/main.rs:63-79 | every output character fits the byte count or is U+FFFD |
| AppCodec.CollapseKeeps | frontend/src/main.rs:63-79 | text whose characters all fit passes through unchanged |
| AppCodec.CollapseNoDoubles | frontend/src/main.rs:63-79 | below three bytes the output never has two U+FFFD side by side |
| AppCodec.LossyFits | frontend/src/main.rs:60-66 | the lossy decoding of the active bytes is non-empty, and each character fits the byte count or is U+FFFD |
| AppCodec.Utf8TextDecoded | frontend/src/main.rs:60-81 | the UTF-8 field is the post-filtered lossy decoding, never the fallback space; from 32 bits on it is the lossy decoding itself |
| AppCodec.Utf8TextNarrow | frontend/src/main.rs:63-81 | at 8 and 16 bits every character of the UTF-8 field fits or is U+FFFD, and no two U+FFFD are adjacent |
| AppCodec.AsciiMatchesUtf8 | frontend/src/main.rs:51-60 | when every active byte is printable ASCII, the UTF-8 field is the ASCII field reversed |
| AppCodec.HexBytesAccepted | frontend/src/main.rs:139-141 | the byte handlers accept exactly text that is `bit_size / 4` hex digits once "0x" and spaces are gone, and then give `bit_size / 8` bytes |
| AppCodec.HexInputAscii | frontend/src/main.rs:122-128 | on ASCII text the hex handler never panics: it cuts to `bit_size / 4` digits and parses |
| AppCodec.HexDigitLimit | frontend/src/main.rs:123 | `bit_size / 4` hex digits reach exactly the width's range |
| AppCodec.DecRoundTrip | frontend/src/main.rs:43 | the decimal handler reads back the word the decimal field shows |
| AppCodec.BinRoundTrip | frontend/src/main.rs:44 | the binary field has exactly `bit_size` digits and its handler reads back the masked word |
| AppCodec.HexFieldRoundTrip | frontend/src/main.rs:45 | the hex field never has more than `bit_size / 4` digits, so the cut keeps all of them and the handler reads back the masked word |
| AppCodec.OctRoundTrip | frontend/src/main.rs:48 | the octal handler reads back the word the octal field shows |
| AppCodec.HexBeRoundTrip | frontend/src/main.rs:46 | the HEX BE field has `bit_size / 4` digits, its handler gets back the active bytes, and they spell the masked word |
| AppCodec.HexLeRoundTrip | frontend/src/main.rs:47 | the HEX LE field has `bit_size / 4` digits, its handler gets back the active bytes, and read least significant first they spell the masked word |
| AppCodec.BeSliceWord | frontend/src/main.rs:46 | the active bytes, most significant first, spell the masked word |
| NumberRepr.ReadOrZeroMeaning | frontend/src/number_repr_bitops.rs:49 | on filtered digits `unwrap_or(0)` gives their value when it fits in 64 bits, and 0 otherwise |
| NumberRepr.FiltersKeepDigits | frontend/src/number_repr_bitops.rs:32-104 | each filter keeps only digits of its base |
| NumberRepr.DecRoundTrip | frontend/src/number_repr_bitops.rs:142 | the decimal handler reads back the masked word the field shows |
| NumberRepr.BinRoundTrip | frontend/src/number_repr_bitops.rs:148 | the binary field has exactly `bit_size` digits and its handler reads back the masked word |
| NumberRepr.HexRoundTrip | frontend/src/number_repr_bitops.rs:154 | the hex handler reads back the masked word the field shows |
| NumberRepr.OctRoundTrip | frontend/src/number_repr_bitops.rs:172 | the octal handler reads back the masked word the field shows |
| NumberRepr.Unprefixed | frontend/src/number_repr_bitops.rs:44 | removing every prefix from the prefix followed by text without it gives that text |
| NumberRepr.HexUnprefixed | frontend/src/number_repr_bitops.rs:55-59 | uppercase hex digits after "0x" pass the hex filter unchanged |
| NumberRepr.FoldIsBeWord | frontend/src/number_repr_bitops.rs:77 | the fold `(acc << 8) \| b` reads the bytes most significant first, as the main view's loop does |
| NumberRepr.FoldValue | frontend/src/number_repr_bitops.rs:77 | up to eight bytes fold into the number they spell in base 256 |
| NumberRepr.HexBytesDefined | frontend/src/number_repr_bitops.rs:73-76 | the byte handlers fail, and store nothing, exactly when the digits are more than `bit_size / 4` and odd in number; otherwise they decode `bit_size / 8` bytes, or half the digit count when that is larger |
| NumberRepr.PaddedHex | frontend/src/number_repr_bitops.rs:74 | padding hex digits with '0' leaves hex digits |
| NumberRepr.PairValue | frontend/src/number_repr_bitops.rs:76 | the bytes decoded from pairs of hex digits spell the same number as the digits |
| NumberRepr.DisplayBytes | frontend/src/number_repr_bitops.rs:160 | the HEX BE text, read back by the byte handlers, decodes to the word's active bytes |
| NumberRepr.HexBeRoundTrip | frontend/src/number_repr_bitops.rs:158-163 | the HEX BE field has exactly `bit_size / 4` digits, and its handler stores the masked word back |
| NumberRepr.HexLeAsWrittenSwaps | frontend/src/number_repr_bitops.rs:164-169 | the HEX LE field as rendered, read by its own handler, stores the byte-swapped word |
| NumberRepr.HexLeAsWrittenCounterexample | frontend/src/number_repr_bitops.rs:164-169 | at 16 bits, 0x1234 shown in the HEX LE field reads back as 0x3412 |
| NumberRepr.HexLeRoundTrip | frontend/src/number_repr_bitops.rs:82-97 | the corrected, byte-swapped HEX LE field has `bit_size / 4` digits, and its handler stores the masked word back |
| NumberRepr.ByteSwapTwice | frontend/src/number_repr_bitops.rs:94 | swapping the active bytes twice gives a word inside the width back |
| NumberRepr.LeIsSwappedBe | frontend/src/number_repr_bitops.rs:77-94 | for digits that fit the width, the HEX LE handler stores the byte swap of what the HEX BE handler stores |
| NumberRepr.MaskedBeWord | frontend/src/number_repr_bitops.rs:77-78 | at most `bit_size / 8` bytes spell a word with no bit above the width |
| NumberRepr.FailedReadIsZero | frontend/src/number_repr_bitops.rs:49 | no digits, or digits past 2^64 - 1, read as 0 |
| NumberRepr.InputsOnFailure | frontend/src/number_repr_bitops.rs:32-108 | the decimal, binary, hex and octal handlers store 0, not the old word, when their filtered digits are empty or overflow |
| NumberRepr.InputsMasked | frontend/src/number_repr_bitops.rs:32-108 | whatever the text, every number handler stores a word inside the width |
| NumberRepr.ByteInputsMasked | frontend/src/number_repr_bitops.rs:65-97 | what the byte handlers store is inside the width |
| NumberRepr.RotateAllInverse | frontend/src/number_repr_bitops.rs:114-115 | at 64 bits `Lshr` and `Rshr` undo each other |
| NumberRepr.RotateAllFull | frontend/src/number_repr_bitops.rs:114-115 | at 64 bits they are the main view's width rotations |
| NumberRepr.RotateAllNarrow | frontend/src/number_repr_bitops.rs:112-115 | below 64 bits, on a masked word, `Lshr` is `Lsh` and `Rshr` is `Rsh` |
| NumberRepr.RotateAllNarrowExample | frontend/src/number_repr_bitops.rs:114 | at 8 bits `Lshr` takes 0x80 to 0 where a width rotation gives 1 |
| NumberRepr.RotateWidthCorrected | frontend/src/number_repr_bitops.rs:114-115 | the width rotation of the main view, which the buttons are named after, is undone by the rotation right at every width and is the panel's `Lshr` at 64 bits |
| NumberRepr.RotateLeftInside | frontend/src/number_repr_bitops.rs:114 | `Lshr` leaves no bit outside the mask |
| NumberRepr.RotateRightInside | frontend/src/number_repr_bitops.rs:115 | `Rshr` leaves no bit outside the mask |
| NumberRepr.GraphicOrSpace | frontend/src/number_repr_bitops.rs:127 | each character is kept when ASCII-graphic and replaced by a space otherwise |
| NumberRepr.AsciiViewShape | frontend/src/number_repr_bitops.rs:123-130 | the ASCII view has between one and `bit_size / 8` characters, each ASCII-graphic or a space |
| NumberRepr.AsciiViewOfAscii | frontend/src/number_repr_bitops.rs:123-130 | when the active bytes are ASCII, the ASCII view is the main view's ASCII field |
| NumberRepr.Utf8ViewShape | frontend/src/number_repr_bitops.rs:132-136 | the UTF-8 view has between one and `bit_size / 8` characters, each fitting or U+FFFD; from 32 bits on it is the main view's UTF-8 field |
| NumberRepr.Utf8ViewReversesAscii | frontend/src/number_repr_bitops.rs:123-136 | when every active byte is printable ASCII, the UTF-8 view is the ASCII view reversed |
| NumberRepr.RenderReadsBack | frontend/src/number_repr_bitops.rs:138-175 | every editable field except HEX LE, typed into its own handler, stores the word it shows; the HEX LE field as rendered stores that word with its active bytes swapped |
| NumberRepr.Panel.constructor | frontend/src/number_repr_bitops.rs:11-15 | the panel works on the shared container at the given width |
| NumberRepr.Panel.InputDec | frontend/src/number_repr_bitops.rs:32-40 | the decimal handler stores the masked read-or-zero of the ASCII digits |
| NumberRepr.Panel.InputBin | frontend/src/number_repr_bitops.rs:42-51 | the binary handler stores the masked read-or-zero of the '0'/'1' characters after removing "0b" |
| NumberRepr.Panel.InputHex | frontend/src/number_repr_bitops.rs:53-63 | the hex handler stores the masked read-or-zero of the hex digits after removing "0x" and upper-casing |
| NumberRepr.Panel.InputOct | frontend/src/number_repr_bitops.rs:99-108 | the octal handler stores the masked read-or-zero of '0'..'7' after removing "0o" |
| NumberRepr.Panel.InputHexBe | frontend/src/number_repr_bitops.rs:65-80 | the HEX BE handler stores the masked fold of the padded, decoded bytes, or nothing when decoding fails |
| NumberRepr.Panel.InputHexLe | frontend/src/number_repr_bitops.rs:82-97 | the HEX LE handler stores the masked fold of the bytes in reverse, or nothing when decoding fails |
| NumberRepr.Panel.Lsh | frontend/src/number_repr_bitops.rs:112 | `Lsh` stores `(raw << 1) & mask` |
| NumberRepr.Panel.Rsh | frontend/src/number_repr_bitops.rs:113 | `Rsh` stores `(raw >> 1) & mask` |
| NumberRepr.Panel.Lshr | frontend/src/number_repr_bitops.rs:114 | `Lshr` stores the 64-bit rotation left, masked |
| NumberRepr.Panel.Rshr | frontend/src/number_repr_bitops.rs:115 | `Rshr` stores the 64-bit rotation right, masked |
| NumberRepr.Panel.Not | frontend/src/number_repr_bitops.rs:116 | `Not` stores `!raw & mask` |
| NumberRepr.Panel.Clr | frontend/src/number_repr_bitops.rs:117 | `Clr` stores 0 |
| NumberRepr.Panel.Set | frontend/src/number_repr_bitops.rs:118 | `Set` stores the mask |
| Ieee754.FieldsFillWidth | frontend/src/ieee754.rs:143-157 | sign, exponent and mantissa widths (1 + 5 + 10, 1 + 8 + 23, 1 + 11 + 52) fill the storage width; the biases are 15, 127 and 1023 |
| Ieee754.NewFormat | frontend/src/ieee754.rs:27-33 | width 16 picks Half, width 32 picks Single, and every other width, 8 included, picks Double |
| Ieee754.NewReadsLowBits | frontend/src/ieee754.rs:27-33 | at 16 and 32 bits only the low 16 or 32 bits of the word matter |
| Ieee754.HalfFields | frontend/src/ieee754.rs:35-39 | binary16: the sign is bit 15, the exponent field is bits 14..10 with exponent = field - 15, and the mantissa is bits 9..0 |
| Ieee754.HalfSign | frontend/src/ieee754.rs:36 | the binary16 sign is 0 or 1 |
| Ieee754.HalfBounds | frontend/src/ieee754.rs:37-39 | the binary16 exponent field is below 32 and the mantissa below 2^10 |
| Ieee754.HalfReassembles | frontend/src/ieee754.rs:35-39 | `(sign << 15) \| (exponent_bits << 10) \| mantissa` is the pattern again |
| Ieee754.SingleFields | frontend/src/ieee754.rs:67-71 | binary32: the sign is bit 31, the exponent field is bits 30..23 with bias 127, and the mantissa is bits 22..0 |
| Ieee754.SingleSign | frontend/src/ieee754.rs:68 | the binary32 sign is 0 or 1 |
| Ieee754.SingleBounds | frontend/src/ieee754.rs:69-71 | the binary32 exponent field is below 256 and the mantissa below 2^23 |
| Ieee754.SingleReassembles | frontend/src/ieee754.rs:67-71 | the binary32 fields reassemble into the pattern |
| Ieee754.DoubleFields | frontend/src/ieee754.rs:99-103 | binary64: the sign is bit 63, the exponent field is bits 62..52 with bias 1023, and the mantissa is bits 51..0 |
| Ieee754.DoubleSign | frontend/src/ieee754.rs:100 | the binary64 sign is 0 or 1 |
| Ieee754.DoubleBounds | frontend/src/ieee754.rs:101-103 | the binary64 exponent field is below 2048 and the mantissa below 2^52 |
| Ieee754.DoubleReassembles | frontend/src/ieee754.rs:99-103 | the binary64 fields reassemble into the pattern |
| Ieee754.HalfClasses | frontend/src/ieee754.rs:41-54 | the binary16 label read off the bits: all-ones exponent and zero mantissa gives "+Inf" or "-Inf" by sign, all-ones exponent otherwise "NaN", zero exponent and mantissa "Zero", zero exponent otherwise "Denormalized", anything else "Normalized" |
| Ieee754.SingleClasses | frontend/src/ieee754.rs:73-86 | the same classification for binary32 |
| Ieee754.DoubleClasses | frontend/src/ieee754.rs:105-118 | the same classification for binary64 |
| Ieee754.ClassifyLabels | frontend/src/ieee754.rs:41-54 | every pattern gets exactly one of the six labels, and each label holds exactly when its condition does |
| Ieee754.HalfValueAsWrittenCounterexample | frontend/src/ieee754.rs:52-53 | as written, 0x3C00 (1.0) decodes to the value 0.0 while the smaller 0x3BFF decodes to a positive value; the corrected value of 0x3C00 is 1.0 |
| Ieee754.HalfValueIsMagnitude | frontend/src/ieee754.rs:51-53 | the corrected value of a non-negative finite binary16 pattern is its significand times 2 to the power of its scale |
| Ieee754.HalfValueMonotone | frontend/src/ieee754.rs:41-54 | the corrected value orders the non-negative finite binary16 patterns as their bits are ordered |
| Ieee754.FieldsOrdered | frontend/src/ieee754.rs:37-39 | patterns in order have their exponent and mantissa fields in lexicographic order |
| Ieee754.MagnitudeMonotone | frontend/src/ieee754.rs:131-141 | the corrected magnitude grows with the exponent field and, for one exponent field, with the mantissa |
| SpecialValues.OtherWidthsZero | frontend/src/special_values.rs:7-49 | at any width other than 16, 32 and 64 every generator returns 0, so every button is disabled |
| SpecialValues.PosZeroDisabled | frontend/src/special_values.rs:31 | "+0" returns 0 at every width, so its button is never enabled |
| SpecialValues.DisabledExactly | frontend/src/special_values.rs:75 | a button is disabled exactly when it is "+0" or the width is not 16, 32 or 64 |
| SpecialValues.LocalMaskAgrees | frontend/src/special_values.rs:58-62 | the local mask is the width mask at 16, 32 and 64; at 8 bits it is all ones, not 0xFF |
| SpecialValues.MaskIsNoOp | frontend/src/special_values.rs:70 | every pattern already lies inside its width, so `gen(width) & mask()` is the pattern |
| SpecialValues.ZeroOnlyPosZero | frontend/src/special_values.rs:6-50 | at each float width only "+0" generates 0 |
| SpecialValues.Classified | frontend/src/special_values.rs:6-50 | at each float width the decoder reads every button's word in that width's format and reports what the entry is named after: the quiet NaN with its quiet bit set, the signaling NaN with that bit clear and mantissa 1, "+Inf" with sign 0, "-Inf" with sign 1, "-0" as Zero with sign 1, "Min Pos" as Denormalized with mantissa 1, "Max Pos" as Normalized with the largest finite exponent field and an all-ones mantissa |
| SpecialValues.ButtonsDistinct | frontend/src/special_values.rs:6-50 | at one width, two different entries load different words |
| SpecialValues.Click | frontend/src/special_values.rs:70-74 | a click on an enabled button stores `gen(width) & mask()`, which is the entry's pattern, and the decoder describes it as that entry |

## Left out

- The Leptos markup, signals, `Effect` scheduling, DOM events and `mount_to_body` are not modelled. Handlers are methods on the container and the width, and text comes in as a parameter. The panel's ASCII and UTF-8 fields are given `value=ascii_str()` and `value=utf8_str()` (frontend/src/number_repr_bitops.rs:177, 180), strings computed once when the view is built, so in the program they keep showing the word of that moment; `NumberRepr.Render` shows them for the current word, as the other fields are.
- The handlers' echo of the typed text back into their own field (`set_*_input` in frontend/src/main.rs:100-175) is not modelled. It never changes the word.
- The Tauri host (backend/src/main.rs:57-62) and the plot module (frontend/src/plot.rs) are not part of this model. The plot is floating-point arithmetic on `f64`.
- The binary32 and binary64 values (`f32::from_bits`, `f64::from_bits` and the `powi` scaling of subnormals, frontend/src/ieee754.rs:84-85, 116-117) are floating point and are not modelled. Their subnormal scaling applies 2^-126 and 2^-1022 to the raw mantissa integer. The model records the fields and the class only.
- The decoder's display text (frontend/src/ieee754.rs:165-186), including the `{:e}` rendering of the value, is not modelled.
- The binary16 value is modelled over exact reals. `f64` rounding does not arise for binary16 values, and the NaN and infinity values are separate constructors.
- Text.ToUpper: models `to_uppercase` on ASCII letters only. Characters whose upper case is longer are not expanded. U+FB00, whose upper case is "FF", adds two hex digits in the source's filter and none in the model.
- Text.TruncateBytes, AppCodec.HexInputAscii: text is a sequence of characters, so the hex handler's byte-counted `truncate` is modelled with UTF-8 lengths. A cut inside a character is reported as the panic it is; the no-panic result is proved only for ASCII text.
- AppCodec.DropLong: states that the rest is empty or starts with a fitting character; that it is a suffix of its input is shown by `SkipLong`'s contract instead.
- NumberRepr.LeIsSwappedBe: holds only for digit strings that fit the width. Longer even-length strings shift bytes out of the 64-bit fold, and there the two handlers keep different bytes.
- Backend.ToggleBitCommand: takes positions 0 to 63 only (the `Pos` type). The command's `position: u8` (backend/src/main.rs:12-16) also admits 64 to 255, where `1 << position` in `toggle_bit` (libs/bit_operations/src/lib.rs:50-52) overflows: a debug build panics and a release build shifts by `position % 64`. The container's other methods take `pos: u8` in the same way and are modelled on 0 to 63 alike.
- SpecialValues.Click: requires the button to be enabled, because a disabled button fires no click.
- SpecialValues.Table and SpecialValues.Name hold the button order and labels as data only; they carry no behaviour.
- Ieee754.HalfValueMonotone: states the order for non-negative finite patterns only; negative patterns, NaN and the infinities are not covered.

## Findings

| source | as written | input that shows it | evidently intended | confidence | as-written member | corrected member |
|---|---|---|---|---|---|---|
| frontend/src/number_repr_bitops.rs:164-169 | the HEX LE field uses the same format string as HEX BE, so it shows the word's bytes most significant first, while its handler reads them least significant first | width 16, word 0x1234: the field shows "0x1234", and typing it back stores 0x3412 | the field shows the active bytes in little-endian order, so that it reads back as the same word | not executed | NumberRepr.HexLeAsWrittenSwaps, NumberRepr.HexLeAsWrittenCounterexample | NumberRepr.HexLeRoundTrip |
| frontend/src/number_repr_bitops.rs:114-115 | `Lshr` and `Rshr` rotate all 64 bits and then mask, so below 64 bits the bit carried round lands in, or comes from, bit 63, outside the mask, and the buttons act as plain shifts | width 8, word 0x80: `Lshr` stores 0, and the word cannot be recovered | a rotation within the active width, as the main view's buttons do (frontend/src/main.rs:194-208) | not executed | NumberRepr.RotateAllNarrowExample | NumberRepr.RotateWidthCorrected |
| frontend/src/ieee754.rs:52-53 | `decode_half` passes the unbiased exponent (or -14) to `half_to_f64`, which subtracts 15 again and reads 0 as the subnormal marker. Three cases follow. A normal pattern whose exponent field is not 15 gives (1 + m/1024) · 2^(e - 30), a factor 2^-15 below its value. A normal pattern whose exponent field is 15 (0x3C00 to 0x3FFF) takes the subnormal branch and gives m · 2^-24. A subnormal pattern gives (1 + m/1024) · 2^-29 where m · 2^-24 is its value. Zero, the infinities and NaN are exact | 0x3C00 (1.0) decodes to 0.0, below the value 0x3BFF decodes to | the binary16 value of section 3.4 of IEEE 754-2019: (1024 + mantissa) · 2^(e - 25) for normal numbers and mantissa · 2^-24 for subnormals | not executed | Ieee754.HalfValueAsWrittenCounterexample | Ieee754.HalfValueMonotone |
